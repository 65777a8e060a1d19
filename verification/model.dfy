/** The schema's entities and their members (schema/entity.go, field.go,
    edge.go, index.go, type.go). What a member was declared as never changes, so
    a declaration is a value held in a constant; what Build works out is a field
    that Build writes. */
module Model {
  import opened Wrappers

  datatype Type =
    | TypeUnspecified | TypeBool | TypeEnum | TypeInt32 | TypeSint32 | TypeUint32 | TypeInt64 | TypeSint64
    | TypeUint64 | TypeSfixed32 | TypeFixed32 | TypeSfixed64 | TypeFixed64 | TypeFloat | TypeDouble
    | TypeString | TypeBytes | TypeUUID | TypeTime | TypeJSON | TypeMessage
  {
    predicate IsOrderable() {
      !TypeJSON? && !TypeMessage? && !TypeUnspecified?
    }
  }

  datatype Names = Names(proto: string, value: string)

  datatype FieldSpec = FieldSpec(
    names: Names, number: int, typ: Type,
    list: bool, unique: bool, nullable: bool, immutable: bool,
    version: bool, erased: bool)

  /** An edge as declared. `unique` is what the annotation said; Build may turn
      the edge's own flag on later. */
  datatype EdgeSpec = EdgeSpec(
    names: Names, number: int, targetName: string, fromName: string, fromNumber: int,
    list: bool, unique: bool, nullable: bool, immutable: bool)

  datatype Ref = Ref(name: string, number: int)

  datatype IndexSpec = IndexSpec(
    name: string, refs: seq<Ref>,
    unique: bool, immutable: bool, hidden: bool, includesErased: bool)

  datatype EntitySpec = EntitySpec(
    fullName: string, name: string, file: string, generate: bool,
    fields: seq<Field>, edges: seq<Edge>, indexes: seq<Index>)

  class Field {
    const spec: FieldSpec
    var parent: Entity?

    constructor (spec: FieldSpec)
      ensures this.spec == spec && parent == null
    {
      this.spec := spec;
      parent := null;
    }
  }

  class Edge {
    const spec: EdgeSpec
    var unique: bool
    var parent: Entity?
    var target: Entity?
    var inverse: Edge?
    var reverse: Edge?

    constructor (spec: EdgeSpec)
      ensures this.spec == spec && Fresh()
    {
      this.spec := spec;
      unique := spec.unique;
      parent, target, inverse, reverse := null, null, null, null;
    }

    /** Nothing has wired it yet. */
    predicate Fresh()
      reads this
    {
      unique == spec.unique && target == null && inverse == null && reverse == null
    }

    /** The field that names the row an edge points at. None when the target, or
        the target's key, is not set. */
    function TargetKey(): Option<Field>
      reads this, target
    {
      if target == null || target.key == null then None else Some(target.key)
    }
  }

  class Index {
    const spec: IndexSpec
    var parent: Entity?
    var props: seq<Prop>

    constructor (spec: IndexSpec)
      ensures this.spec == spec && parent == null && props == []
    {
      this.spec := spec;
      parent := null;
      props := [];
    }

    predicate IsComposite()
      reads this
    {
      |props| > 1
    }

    predicate ExcludesErased()
      reads this, parent
    {
      spec.unique && !spec.includesErased && parent != null && parent.erased != null
    }
  }

  /** A member that holds a value. */
  datatype Prop = FieldProp(field: Field) | EdgeProp(edge: Edge)
  {
    function Names(): Names {
      match this case FieldProp(f) => f.spec.names case EdgeProp(e) => e.spec.names
    }

    function Name(): string {
      Names().proto
    }

    function Number(): int {
      match this case FieldProp(f) => f.spec.number case EdgeProp(e) => e.spec.number
    }

    /** An edge's own type is always message; what it is stored as is its
        target's key's. */
    function Type(): Type {
      match this case FieldProp(f) => f.spec.typ case EdgeProp(_) => TypeMessage
    }

    function Heap(): set<object> {
      match this case FieldProp(_) => {} case EdgeProp(e) => {e}
    }

    predicate IsUnique()
      reads Heap()
    {
      match this case FieldProp(f) => f.spec.unique case EdgeProp(e) => e.unique
    }
  }

  /** A prop or an index: what can be unique, and so what a row is looked up by. */
  datatype Elem = PropElem(prop: Prop) | IndexElem(index: Index)
  {
    predicate IsUnique()
      reads match this case PropElem(p) => p.Heap() case IndexElem(_) => {}
    {
      match this case PropElem(p) => p.IsUnique() case IndexElem(i) => i.spec.unique
    }

    predicate IsHidden() {
      IndexElem? && index.spec.hidden
    }

    /** Unique, and not a constraint only the store knows about. */
    predicate IsKey()
      reads match this case PropElem(p) => p.Heap() case IndexElem(_) => {}
    {
      IsUnique() && !IsHidden()
    }
  }

  /** The first member of that name. */
  function FindProp(props: seq<Prop>, name: string): (r: Option<Prop>)
    ensures r.Some? ==> r.value in props && r.value.Name() == name
  {
    if props == [] then None
    else if props[0].Name() == name then Some(props[0])
    else FindProp(props[1..], name)
  }

  lemma {:induction false} FindPropSplit(a: seq<Prop>, b: seq<Prop>, name: string)
    ensures FindProp(a + b, name) == (if FindProp(a, name).Some? then FindProp(a, name) else FindProp(b, name))
  {
    if a == [] {
      assert a + b == b;
    } else {
      assert (a + b)[1..] == a[1..] + b;
      FindPropSplit(a[1..], b, name);
    }
  }

  /** The elements of a list that are lookups, in their order. */
  ghost function KeysOf(elems: seq<Elem>): seq<Elem>
    reads *
  {
    if elems == [] then []
    else
      var last := elems[|elems| - 1];
      KeysOf(elems[..|elems| - 1]) + if last.IsKey() then [last] else []
  }

  /** A row can be looked up by the element: a prop that is unique, or a unique
      index that is not hidden. */
  ghost predicate IsLookup(k: Elem)
    reads if k.PropElem? && k.prop.EdgeProp? then {k.prop.edge} else {}
  {
    match k
    case PropElem(FieldProp(f)) => f.spec.unique
    case PropElem(EdgeProp(ed)) => ed.unique
    case IndexElem(idx) => idx.spec.unique && !idx.spec.hidden
  }

  /** The lookups of a list are all its elements a row can be looked up by, and
      nothing else, in their order: at says where each was. */
  lemma {:induction false} KeysAreLookups(elems: seq<Elem>) returns (at: seq<nat>)
    ensures |at| == |KeysOf(elems)| && forall i, j :: 0 <= i < j < |at| ==> at[i] < at[j]
    ensures forall i :: 0 <= i < |at| ==> at[i] < |elems| && elems[at[i]] == KeysOf(elems)[i] && IsLookup(elems[at[i]])
    ensures forall k: nat :: k < |elems| && IsLookup(elems[k]) ==> k in at
  {
    if elems == [] {
      at := [];
    } else {
      var n := |elems| - 1;
      var init := KeysAreLookups(elems[..n]);
      at := init + if IsLookup(elems[n]) then [n] else [];
      forall k: nat | k < |elems| && IsLookup(elems[k]) ensures k in at {
        assert k < n ==> IsLookup(elems[..n][k]);
      }
    }
  }

  class Entity {
    const spec: EntitySpec
    var key: Field?
    var version: Field?
    var erased: Field?
    var props: seq<Prop>
    var elems: seq<Elem>

    constructor (spec: EntitySpec)
      ensures this.spec == spec
      ensures key == null && version == null && erased == null && props == [] && elems == []
    {
      this.spec := spec;
      key, version, erased := null, null, null;
      props, elems := [], [];
    }

    /** For saying that a schema can be declared in some order. */
    ghost constructor Declared(spec: EntitySpec)
      ensures this.spec == spec
      ensures key == null && version == null && erased == null && props == [] && elems == []
    {
      this.spec := spec;
      key, version, erased := null, null, null;
      props, elems := [], [];
    }

    method SetKey(f: Field)
      modifies this`key
      ensures key == f
    {
      key := f;
    }

    method Prop(name: string) returns (r: Option<Prop>)
      ensures r == FindProp(props, name)
    {
      for i := 0 to |props|
        invariant FindProp(props[..i], name) == None
      {
        if props[i].Name() == name {
          assert props == props[..i] + props[i..];
          FindPropSplit(props[..i], props[i..], name);
          return Some(props[i]);
        }
        assert props[..i + 1] == props[..i] + [props[i]];
        FindPropSplit(props[..i], [props[i]], name);
      }
      assert props[..|props|] == props;
      return None;
    }

    /** The lookups this entity supports. */
    method Keys() returns (out: seq<Elem>)
      ensures out == KeysOf(elems)
    {
      out := [];
      for i := 0 to |elems|
        invariant out == KeysOf(elems[..i])
      {
        assert elems[..i + 1][..i] == elems[..i];
        if elems[i].IsUnique() && !elems[i].IsHidden() {
          out := out + [elems[i]];
        }
      }
      assert elems[..|elems|] == elems;
    }
  }

  /** A schema Build accepted. */
  datatype Schema = Schema(entities: seq<Entity>, byName: map<string, Entity>)
}
