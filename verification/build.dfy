/** schema.Build itself: four passes over a graph of entities, writing members in
    place and recording through handles on one list (schema/schema.go). Its
    contract ties the graph it leaves to the functions of Wiring and Links. */
module Builder {
  import opened Wrappers
  import opened Sorting
  import opened Text
  import opened Diag
  import opened Model
  import opened Wiring
  import opened Links

  ghost predicate IsField(f: Field?, o: Option<Field>) {
    if o.None? then f == null else f == o.value
  }

  // ---- what Build is handed ----

  ghost predicate Apart(e: Entity, e': Entity) {
    && (forall f | f in e.spec.fields :: f !in e'.spec.fields)
    && (forall ed | ed in e.spec.edges :: ed !in e'.spec.edges)
    && (forall idx | idx in e.spec.indexes :: idx !in e'.spec.indexes)
  }

  ghost predicate Unwired(e: Entity)
    reads e, e.spec.edges
  {
    e.version == null && e.erased == null && forall ed | ed in e.spec.edges :: ed.Fresh()
  }

  /** Entities as NewEntity makes them: each its own, with members of its own
      that nothing has wired. */
  ghost predicate FreshEntities(es: seq<Entity>)
    reads *
  {
    && (forall i, j :: 0 <= i < j < |es| ==> es[i] != es[j] && Apart(es[i], es[j]) && Apart(es[j], es[i]))
    && (forall e | e in es :: Unwired(e))
  }

  ghost function EntitiesIn(es: seq<Entity>): set<Entity> {
    set e | e in es
  }

  ghost function FieldSet(e: Entity): set<Field> {
    set f | f in e.spec.fields
  }

  ghost function EdgeSet(e: Entity): set<Edge> {
    set ed | ed in e.spec.edges
  }

  ghost function IndexSet(e: Entity): set<Index> {
    set idx | idx in e.spec.indexes
  }

  // ---- what each pass leaves ----

  ghost predicate Attached(e: Entity)
    reads e, FieldSet(e)`parent, EdgeSet(e)`parent, IndexSet(e)`parent
  {
    && e.props == PropsOf(e) && e.elems == ElemsOf(e)
    && IsField(e.version, FirstVersion(e.spec.fields)) && IsField(e.erased, FirstErased(e.spec.fields))
    && (forall f | f in e.spec.fields :: f.parent == e)
    && (forall ed | ed in e.spec.edges :: ed.parent == e)
    && (forall idx | idx in e.spec.indexes :: idx.parent == e)
  }

  ghost function EdgesIn(es: seq<Entity>): set<Edge> {
    set e, ed | e in es && ed in e.spec.edges :: ed
  }

  /** The edges hold the links of g. */
  ghost predicate Holds(ed: Edge, g: Graph)
    reads ed`inverse, ed`reverse, ed`unique
  {
    && ed.inverse == (if ed in g.inverse then g.inverse[ed] else null)
    && ed.reverse == (if ed in g.reverse then g.reverse[ed] else null)
    && ed.unique == UniqueNow(g, ed)
  }

  lemma FirstVersionOneMore(fields: seq<Field>, f: Field)
    ensures FirstVersion(fields + [f]) ==
      if FirstVersion(fields).Some? then FirstVersion(fields) else if f.spec.version then Some(f) else None
  {
    if fields != [] {
      assert (fields + [f])[1..] == fields[1..] + [f];
      FirstVersionOneMore(fields[1..], f);
    }
  }

  lemma FirstErasedOneMore(fields: seq<Field>, f: Field)
    ensures FirstErased(fields + [f]) ==
      if FirstErased(fields).Some? then FirstErased(fields) else if MarksErased(f) then Some(f) else None
  {
    if fields != [] {
      assert (fields + [f])[1..] == fields[1..] + [f];
      FirstErasedOneMore(fields[1..], f);
    }
  }

  lemma MapOneMore<A, B>(before: seq<B>, f: A -> B, s: seq<A>, i: nat)
    requires i < |s|
    ensures before + Map(f, s[..i + 1]) == before + Map(f, s[..i]) + [f(s[i])]
  {
    assert s[..i + 1] == s[..i] + [s[i]];
    MapAppend(f, s[..i], [s[i]]);
  }

  // ---- pass: attach ----

  method AttachProps(e: Entity)
    modifies e`props, FieldSet(e)`parent, EdgeSet(e)`parent
    ensures e.props == PropsOf(e)
    ensures forall f | f in e.spec.fields :: f.parent == e
    ensures forall ed | ed in e.spec.edges :: ed.parent == e
  {
    var asField, asEdge := (f: Field) => FieldProp(f), (ed: Edge) => EdgeProp(ed);
    e.props := [];
    var fields, edges := e.spec.fields, e.spec.edges;
    for i := 0 to |fields|
      invariant e.props == [] + Map(asField, fields[..i])
      invariant forall k :: 0 <= k < i ==> fields[k].parent == e
    {
      fields[i].parent := e;
      e.props := e.props + [FieldProp(fields[i])];
      MapOneMore([], asField, fields, i);
    }
    assert fields[..|fields|] == fields;
    for i := 0 to |edges|
      invariant e.props == Map(asField, fields) + Map(asEdge, edges[..i])
      invariant forall k :: 0 <= k < i ==> edges[k].parent == e
      invariant forall k :: 0 <= k < |fields| ==> fields[k].parent == e
    {
      edges[i].parent := e;
      e.props := e.props + [EdgeProp(edges[i])];
      MapOneMore(Map(asField, fields), asEdge, edges, i);
    }
    assert edges[..|edges|] == edges;
    // Declaration order across both kinds, by number.
    e.props := Sort(ByNumber, e.props);
  }

  method AttachElems(e: Entity)
    requires e.props == PropsOf(e)
    modifies e`elems, IndexSet(e)`parent
    ensures e.elems == ElemsOf(e)
    ensures forall idx | idx in e.spec.indexes :: idx.parent == e
  {
    var asProp, asIndex := (p: Prop) => PropElem(p), (i: Index) => IndexElem(i);
    e.elems := [];
    var props, indexes := e.props, e.spec.indexes;
    for i := 0 to |props|
      invariant e.elems == [] + Map(asProp, props[..i])
    {
      e.elems := e.elems + [PropElem(props[i])];
      MapOneMore([], asProp, props, i);
    }
    assert props[..|props|] == props;
    for i := 0 to |indexes|
      invariant e.elems == Map(asProp, props) + Map(asIndex, indexes[..i])
      invariant forall k :: 0 <= k < i ==> indexes[k].parent == e
    {
      indexes[i].parent := e;
      e.elems := e.elems + [IndexElem(indexes[i])];
      MapOneMore(Map(asProp, props), asIndex, indexes, i);
    }
    assert indexes[..|indexes|] == indexes;
  }

  /** The first i fields have been looked at. */
  ghost predicate Scanned(e: Entity, i: nat, version: Field?, erased: Field?)
    requires i <= |e.spec.fields|
  {
    IsField(version, FirstVersion(e.spec.fields[..i])) && IsField(erased, FirstErased(e.spec.fields[..i]))
  }

  lemma ScanOneMore(e: Entity, i: nat, version: Field?, erased: Field?)
    requires i < |e.spec.fields| && Scanned(e, i, version, erased)
    ensures var f := e.spec.fields[i];
      && Scanned(e, i + 1, if version == null && f.spec.version then f else version,
                           if erased == null && MarksErased(f) then f else erased)
      && MarkDiag(e)(i) ==
           var path := JoinPath(e.spec.fullName, f.spec.names.proto);
           if f.spec.version && version != null then [Diagnostic(path, ExtraVersion)]
           else if MarksErased(f) && erased != null then [Diagnostic(path, ExtraErased)]
           else []
  {
    var fields := e.spec.fields;
    assert fields[..i + 1] == fields[..i] + [fields[i]];
    FirstVersionOneMore(fields[..i], fields[i]);
    FirstErasedOneMore(fields[..i], fields[i]);
  }

  ghost predicate ScannedAt(e: Entity, i: nat)
    reads e`version, e`erased
  {
    i <= |e.spec.fields| && Scanned(e, i, e.version, e.erased)
  }

  /** The quantifier keeps what scanning has found out of the loop. */
  ghost predicate ScannedTo(e: Entity, i: nat)
    reads e`version, e`erased
  {
    forall x: nat {:trigger ScannedAt(e, x)} | x == i :: ScannedAt(e, x)
  }

  method MarkField(e: Entity, at: Diagnostics, i: nat, ghost found: nat -> seq<Diagnostic>)
    requires i < |e.spec.fields| && ScannedTo(e, i)
    requires at.store != null && at.prefix == e.spec.fullName
    requires Reports(found, MarkDiag(e))
    modifies e`version, e`erased, at`store, at.store
    ensures at.store == old(at.store)
    ensures ScannedTo(e, i + 1)
    ensures at.store.found == old(at.store.found) + found(i)
  {
    assert found(i) == Recorded(MarkDiag(e), i);
    var f := e.spec.fields[i];
    assert ScannedAt(e, i);
    ScanOneMore(e, i, e.version, e.erased);
    if f.spec.version {
      if e.version != null {
        at.Add(f.spec.names.proto, ExtraVersion);
      } else {
        e.version := f;
      }
    } else if f.spec.erased {
      if e.erased != null {
        at.Add(f.spec.names.proto, ExtraErased);
      } else {
        e.erased := f;
      }
    }
  }

  method MarkEach(e: Entity, at: Diagnostics, ghost found: nat -> seq<Diagnostic>)
    requires ScannedTo(e, 0) && at.store != null && at.prefix == e.spec.fullName
    requires Reports(found, MarkDiag(e))
    modifies e`version, e`erased, at`store, at.store
    ensures at.store == old(at.store)
    ensures ScannedTo(e, |e.spec.fields|)
    ensures at.store.found == old(at.store.found) + Gather(|e.spec.fields|, found)
  {
    ghost var before := at.store.found;
    for i := 0 to |e.spec.fields|
      invariant at.store == old(at.store)
      invariant ScannedTo(e, i)
      invariant at.store.found == before + Gather(i, found)
    {
      MarkField(e, at, i, found);
      GatherOneMore(before, i, found);
    }
  }

  method MarkSpecial(e: Entity, at: Diagnostics)
    requires e.version == null && e.erased == null && at.store != null && at.prefix == e.spec.fullName
    modifies e`version, e`erased, at`store, at.store
    ensures at.store == old(at.store)
    ensures Scanned(e, |e.spec.fields|, e.version, e.erased)
    ensures at.store.found == old(at.store.found) + Gather(|e.spec.fields|, MarkDiag(e))
  {
    MarkEach(e, at, MarkDiag(e));
    assert ScannedAt(e, |e.spec.fields|);
  }

  method AttachMembers(e: Entity)
    modifies e`props, e`elems, FieldSet(e)`parent, EdgeSet(e)`parent, IndexSet(e)`parent
    ensures e.props == PropsOf(e) && e.elems == ElemsOf(e)
    ensures forall f | f in e.spec.fields :: f.parent == e
    ensures forall ed | ed in e.spec.edges :: ed.parent == e
    ensures forall idx | idx in e.spec.indexes :: idx.parent == e
  {
    AttachProps(e);
    AttachElems(e);
  }

  method Attach(e: Entity, diags: Diagnostics)
    requires e.version == null && e.erased == null && diags.prefix == "" && diags.store != null
    modifies e`props, e`elems, e`version, e`erased
    modifies FieldSet(e)`parent, EdgeSet(e)`parent, IndexSet(e)`parent
    modifies diags`store, diags.store
    ensures Attached(e)
    ensures diags.store == old(diags.store)
    ensures diags.store.found == old(diags.store.found) + Gather(|e.spec.fields|, MarkDiag(e))
  {
    var at := diags.At(e.spec.fullName);
    AttachMembers(e);
    MarkSpecial(e, at);
    assert e.spec.fields[..|e.spec.fields|] == e.spec.fields;
  }

  // ---- pass: indexes ----

  method ResolveRefs(e: Entity, idx: Index, at: Diagnostics)
    requires at.store != null && at.prefix == e.spec.fullName
    modifies idx`props, at`store, at.store
    ensures at.store == old(at.store)
    ensures idx.props == RefProps(e.props, idx, |idx.spec.refs|)
    ensures at.store.found == old(at.store.found) + Gather(|idx.spec.refs|, RefDiag(e, e.props, idx))
  {
    var refs := idx.spec.refs;
    ghost var found, before := RefDiag(e, e.props, idx), at.store.found;
    idx.props := [];
    for n := 0 to |refs|
      invariant at.store == old(at.store)
      invariant idx.props == RefProps(e.props, idx, n)
      invariant at.store.found == before + Gather(n, found)
    {
      GatherOneMore(before, n, found);
      var p := e.Prop(refs[n].name);
      if p.None? {
        at.Add(IndexPath(idx) + ".refs[" + Decimal(n) + "]", NoSuchProp);
      } else if p.value.Number() != refs[n].number {
        at.Add(IndexPath(idx) + ".refs[" + Decimal(n) + "]", WrongNumber);
      } else {
        idx.props := idx.props + [p.value];
      }
    }
  }

  /** An index with no refs is reported and left as it was. */
  ghost predicate Resolved(props: seq<Prop>, idx: Index)
    reads idx`props
  {
    idx.spec.refs == [] || idx.props == RefProps(props, idx, |idx.spec.refs|)
  }

  method ResolveIndex(e: Entity, ghost k: nat, idx: Index, at: Diagnostics)
    requires k < |e.spec.indexes| && e.spec.indexes[k] == idx && at.store != null && at.prefix == e.spec.fullName
    modifies idx`props, at`store, at.store
    ensures at.store == old(at.store) && Resolved(e.props, idx)
    ensures at.store.found == old(at.store.found) + IndexDiag(e, e.props)(k)
  {
    if |idx.spec.refs| == 0 {
      at.Add(IndexPath(idx), EmptyIndex);
    } else {
      ResolveRefs(e, idx, at);
    }
  }

  ghost predicate ResolvedTo(props: seq<Prop>, indexes: seq<Index>, k: nat)
    requires k <= |indexes|
    reads (set idx | idx in indexes)`props
  {
    forall i :: 0 <= i < k ==> Resolved(props, indexes[i])
  }

  method ResolveOneMore(e: Entity, k: nat, at: Diagnostics, ghost props: seq<Prop>, ghost found: nat -> seq<Diagnostic>)
    requires k < |e.spec.indexes| && at.store != null && at.prefix == e.spec.fullName && e.props == props
    requires ResolvedTo(props, e.spec.indexes, k) && Reports(found, IndexDiag(e, props))
    modifies IndexSet(e)`props, at`store, at.store
    ensures at.store == old(at.store) && ResolvedTo(props, e.spec.indexes, k + 1)
    ensures at.store.found == old(at.store.found) + found(k)
  {
    var indexes := e.spec.indexes;
    assert found(k) == Recorded(IndexDiag(e, props), k);
    ResolveIndex(e, k, indexes[k], at);
    forall i | 0 <= i < k + 1 ensures Resolved(props, indexes[i]) {
      if indexes[i] != indexes[k] {
        assert indexes[i].props == old(indexes[i].props);
      }
    }
  }

  method ResolveEach(e: Entity, at: Diagnostics, ghost found: nat -> seq<Diagnostic>)
    requires at.store != null && at.prefix == e.spec.fullName && Reports(found, IndexDiag(e, e.props))
    modifies IndexSet(e)`props, at`store, at.store
    ensures at.store == old(at.store) && ResolvedTo(e.props, e.spec.indexes, |e.spec.indexes|)
    ensures at.store.found == old(at.store.found) + Gather(|e.spec.indexes|, found)
  {
    ghost var props, before := e.props, at.store.found;
    for k := 0 to |e.spec.indexes|
      invariant at.store == old(at.store)
      invariant ResolvedTo(props, e.spec.indexes, k)
      invariant at.store.found == before + Gather(k, found)
    {
      GatherOneMore(before, k, found);
      ResolveOneMore(e, k, at, props, found);
    }
  }

  method ResolveIndexes(e: Entity, diags: Diagnostics)
    requires diags.prefix == "" && diags.store != null
    modifies IndexSet(e)`props, diags`store, diags.store
    ensures diags.store == old(diags.store)
    ensures forall idx | idx in e.spec.indexes :: Resolved(e.props, idx)
    ensures diags.store.found == old(diags.store.found) + Gather(|e.spec.indexes|, IndexDiag(e, e.props))
  {
    var at := diags.At(e.spec.fullName);
    ResolveEach(e, at, IndexDiag(e, e.props));
  }

  // ---- pass: targets ----

  ghost predicate NamesKept(byName: map<string, Entity>, es: seq<Entity>) {
    forall name :: (name in byName <==> EntityNamed(es, name).Some?) &&
      (name in byName ==> byName[name] == EntityNamed(es, name).value)
  }

  ghost predicate TargetFound(es: seq<Entity>, ed: Edge)
    reads ed`target
  {
    var t := EntityNamed(es, ed.spec.targetName);
    if t.None? then ed.target == null else ed.target == t.value
  }

  /** Not resolved yet, or to the right entity. */
  ghost predicate TargetSound(es: seq<Entity>, ed: Edge)
    reads ed`target
  {
    ed.target == null || TargetFound(es, ed)
  }

  method ResolveEdge(
    byName: map<string, Entity>, ghost es: seq<Entity>, e: Entity, ghost k: nat, ed: Edge, at: Diagnostics)
    requires NamesKept(byName, es) && k < |e.spec.edges| && e.spec.edges[k] == ed && at.store != null
    requires at.prefix == e.spec.fullName
    requires TargetSound(es, ed)
    modifies ed`target, at`store, at.store
    ensures at.store == old(at.store) && TargetFound(es, ed)
    ensures at.store.found == old(at.store.found) + TargetDiag(es, e)(k)
  {
    if ed.spec.targetName !in byName {
      at.Add(ed.spec.names.proto, NotAnEntity);
    } else {
      ed.target := byName[ed.spec.targetName];
    }
  }

  /** The first k edges have their targets, and the others have no other. */
  ghost predicate EdgesTargeted(es: seq<Entity>, edges: seq<Edge>, k: nat)
    requires k <= |edges|
    reads (set ed | ed in edges)`target
  {
    && (forall i {:trigger TargetSound(es, edges[i])} :: 0 <= i < |edges| ==> TargetSound(es, edges[i]))
    && (forall i {:trigger TargetFound(es, edges[i])} :: 0 <= i < k ==> TargetFound(es, edges[i]))
  }

  method TargetNext(
    byName: map<string, Entity>, ghost es: seq<Entity>, e: Entity, k: nat, at: Diagnostics,
    ghost found: nat -> seq<Diagnostic>)
    requires NamesKept(byName, es) && at.store != null && at.prefix == e.spec.fullName && k < |e.spec.edges|
    requires EdgesTargeted(es, e.spec.edges, k) && Reports(found, TargetDiag(es, e))
    modifies EdgeSet(e)`target, at`store, at.store
    ensures at.store == old(at.store)
    ensures EdgesTargeted(es, e.spec.edges, k + 1)
    ensures at.store.found == old(at.store.found) + found(k)
  {
    var edges := e.spec.edges;
    assert TargetSound(es, edges[k]) && found(k) == Recorded(TargetDiag(es, e), k);
    ResolveEdge(byName, es, e, k, edges[k], at);
    forall i | 0 <= i < |edges| ensures TargetSound(es, edges[i]) && (i < k + 1 ==> TargetFound(es, edges[i])) {
      if edges[i] != edges[k] {
        assert old(TargetSound(es, edges[i])) && (i < k ==> old(TargetFound(es, edges[i])));
      }
    }
  }

  method TargetEach(
    byName: map<string, Entity>, ghost es: seq<Entity>, e: Entity, at: Diagnostics, ghost found: nat -> seq<Diagnostic>)
    requires NamesKept(byName, es) && at.store != null && at.prefix == e.spec.fullName
    requires EdgesTargeted(es, e.spec.edges, 0) && Reports(found, TargetDiag(es, e))
    modifies EdgeSet(e)`target, at`store, at.store
    ensures at.store == old(at.store)
    ensures EdgesTargeted(es, e.spec.edges, |e.spec.edges|)
    ensures at.store.found == old(at.store.found) + Gather(|e.spec.edges|, found)
  {
    ghost var before := at.store.found;
    for k := 0 to |e.spec.edges|
      invariant at.store == old(at.store)
      invariant EdgesTargeted(es, e.spec.edges, k)
      invariant at.store.found == before + Gather(k, found)
    {
      GatherOneMore(before, k, found);
      TargetNext(byName, es, e, k, at, found);
    }
  }

  method ResolveEdges(byName: map<string, Entity>, ghost es: seq<Entity>, e: Entity, diags: Diagnostics)
    requires NamesKept(byName, es) && diags.prefix == "" && diags.store != null
    requires forall ed | ed in e.spec.edges :: TargetSound(es, ed)
    modifies EdgeSet(e)`target, diags`store, diags.store
    ensures diags.store == old(diags.store)
    ensures forall ed | ed in e.spec.edges :: TargetFound(es, ed)
    ensures diags.store.found == old(diags.store.found) + Gather(|e.spec.edges|, TargetDiag(es, e))
  {
    var at := diags.At(e.spec.fullName);
    TargetEach(byName, es, e, at, TargetDiag(es, e));
    ghost var edges := e.spec.edges;
    forall ed | ed in edges ensures TargetFound(es, ed) {
      var i :| 0 <= i < |edges| && edges[i] == ed;
      assert TargetFound(es, edges[i]);
    }
  }

  // ---- pass: back references ----

  /** Every edge of the schema holds the links of g. */
  ghost predicate Wired(es: seq<Entity>, g: Graph)
    reads EdgesIn(es)`inverse, EdgesIn(es)`reverse, EdgesIn(es)`unique
  {
    forall ed {:trigger Holds(ed, g)} | ed in EdgesIn(es) :: Holds(ed, g)
  }

  /** What the pass reads, and nothing in it writes. */
  ghost predicate Ready(es: seq<Entity>)
    reads EntitiesIn(es)`props, EdgesIn(es)`target
  {
    HaveProps(es) && forall ed {:trigger TargetFound(es, ed)} | ed in EdgesIn(es) :: TargetFound(es, ed)
  }

  lemma EdgeIsInSchema(es: seq<Entity>, e: Entity, k: nat)
    requires e in es && k < |e.spec.edges|
    ensures e.spec.edges[k] in EdgesIn(es)
  {
    assert e.spec.edges[k] in e.spec.edges;
  }

  lemma OtherIsInSchema(es: seq<Entity>, ed: Edge)
    requires ReferenceOf(es, ed).Paired?
    ensures ReferenceOf(es, ed).other in EdgesIn(es)
  {
    PairedIsNamed(es, ed);
  }

  lemma WiredWhateverFound(es: seq<Entity>, g: Graph, found: seq<Diagnostic>)
    requires Wired(es, g)
    ensures Wired(es, g.(found := found))
  {
    forall ed | ed in EdgesIn(es) ensures Holds(ed, g.(found := found)) {
      assert Holds(ed, g);
    }
  }

  method TieEdges(ghost es: seq<Entity>, ed: Edge, other: Edge, ghost g: Graph)
    requires Wired(es, g) && ed in EdgesIn(es) && other in EdgesIn(es)
    modifies EdgesIn(es)`inverse, EdgesIn(es)`reverse, EdgesIn(es)`unique
    ensures Wired(es, Tie(g, ed, other))
  {
    ed.inverse := other;
    other.reverse := ed;
    if !ed.spec.list && !other.spec.list {
      ed.unique := true;
      other.unique := true;
    }
    ghost var g' := Tie(g, ed, other);
    forall x | x in EdgesIn(es) ensures Holds(x, g') {
      assert old(Holds(x, g));
    }
  }

  /** What an edge's `from` comes to: the checks that look at no link. */
  method FindHalf(ghost es: seq<Entity>, ed: Edge) returns (r: Reference)
    requires Ready(es) && ed in EdgesIn(es)
    ensures r == ReferenceOf(es, ed)
  {
    assert TargetFound(es, ed);
    if ed.spec.fromName == "" || ed.target == null {
      return Silent;
    }
    assert HasProps(ed.target);
    var p := ed.target.Prop(ed.spec.fromName);
    if p.None? {
      return Broken(NoBackReference);
    }
    if p.value.Number() != ed.spec.fromNumber {
      return Broken(BackReferenceNumber);
    }
    if p.value.FieldProp? {
      return Broken(BackReferenceIsField);
    }
    return Paired(p.value.edge);
  }

  /** One declaration that names an edge: the check, and the writes when it
      passes. */
  method LinkPair(ghost es: seq<Entity>, ed: Edge, other: Edge, at: Diagnostics, ghost g: Graph, ghost d: Decl)
    requires Wired(es, g) && ed in EdgesIn(es) && at.store != null
    requires d == Decl(JoinPath(at.prefix, ed.spec.names.proto), ed) && ReferenceOf(es, ed) == Paired(other)
    modifies EdgesIn(es)`inverse, EdgesIn(es)`reverse, EdgesIn(es)`unique, at`store, at.store
    ensures at.store == old(at.store) && Wired(es, Link(es, g, d))
    ensures at.store.found == old(at.store.found) + Refusal(es, g, d)
  {
    OtherIsInSchema(es, ed);
    assert Holds(other, g);
    if other.unique && ed.spec.list {
      at.Add(ed.spec.names.proto, BackReferenceUnique);
      WiredWhateverFound(es, g, Link(es, g, d).found);
    } else {
      TieEdges(es, ed, other, g);
    }
  }

  method LinkEdge(ghost es: seq<Entity>, ed: Edge, at: Diagnostics, ghost g: Graph, ghost d: Decl)
    requires Ready(es) && Wired(es, g) && ed in EdgesIn(es) && at.store != null
    requires d == Decl(JoinPath(at.prefix, ed.spec.names.proto), ed)
    modifies EdgesIn(es)`inverse, EdgesIn(es)`reverse, EdgesIn(es)`unique, at`store, at.store
    ensures at.store == old(at.store) && Wired(es, Link(es, g, d))
    ensures at.store.found == old(at.store.found) + Refusal(es, g, d)
  {
    var r := FindHalf(es, ed);
    match r
    case Silent =>
      WiredWhateverFound(es, g, Link(es, g, d).found);
    case Broken(kind) =>
      at.Add(ed.spec.names.proto, kind);
      WiredWhateverFound(es, g, Link(es, g, d).found);
    case Paired(other) =>
      LinkPair(es, ed, other, at, g, d);
  }

  /** The declarations ds are linked, on the heap and in what is recorded. */
  ghost predicate LinksHeld(es: seq<Entity>, ds: seq<Decl>, before: seq<Diagnostic>, found: seq<Diagnostic>)
    reads EdgesIn(es)`inverse, EdgesIn(es)`reverse, EdgesIn(es)`unique
  {
    Wired(es, LinkAll(es, ds)) && found == before + LinkAll(es, ds).found
  }

  /** The quantifier keeps what the declarations come to out of the loops. */
  ghost predicate LinkedUpTo(es: seq<Entity>, ds: seq<Decl>, before: seq<Diagnostic>, found: seq<Diagnostic>)
    reads EdgesIn(es)`inverse, EdgesIn(es)`reverse, EdgesIn(es)`unique
  {
    forall x {:trigger LinksHeld(es, x, before, found)} | x == ds :: LinksHeld(es, x, before, found)
  }

  method LinkNext(
    ghost es: seq<Entity>, e: Entity, k: nat, at: Diagnostics, ghost ds: seq<Decl>, ghost before: seq<Diagnostic>)
    requires Ready(es) && e in es && k < |e.spec.edges| && at.store != null && at.prefix == e.spec.fullName
    requires LinkedUpTo(es, ds, before, at.store.found)
    modifies EdgesIn(es)`inverse, EdgesIn(es)`reverse, EdgesIn(es)`unique, at`store, at.store
    ensures at.store == old(at.store)
    ensures LinkedUpTo(es, ds + [DeclOf(e.spec.fullName)(e.spec.edges[k])], before, at.store.found)
  {
    var ed := e.spec.edges[k];
    ghost var d := DeclOf(e.spec.fullName)(ed);
    EdgeIsInSchema(es, e, k);
    assert LinksHeld(es, ds, before, at.store.found);
    LinkEdge(es, ed, at, LinkAll(es, ds), d);
    LinkFound(es, LinkAll(es, ds), d);
    LinkOneMore(es, ds, d);
    Assoc(before, LinkAll(es, ds).found, Refusal(es, LinkAll(es, ds), d));
  }

  method LinkEach(
    ghost es: seq<Entity>, e: Entity, at: Diagnostics, ghost done: seq<Decl>, ghost before: seq<Diagnostic>)
    requires Ready(es) && e in es && at.store != null && at.prefix == e.spec.fullName
    requires LinkedUpTo(es, done, before, at.store.found)
    modifies EdgesIn(es)`inverse, EdgesIn(es)`reverse, EdgesIn(es)`unique, at`store, at.store
    ensures at.store == old(at.store)
    ensures LinkedUpTo(es, done + DeclsOf(e), before, at.store.found)
  {
    var edges := e.spec.edges;
    ghost var decl := DeclOf(e.spec.fullName);
    assert done + [] == done;
    for k := 0 to |edges|
      invariant at.store == old(at.store) && Ready(es)
      invariant LinkedUpTo(es, done + Map(decl, edges[..k]), before, at.store.found)
    {
      MapOneMore(done, decl, edges, k);
      LinkNext(es, e, k, at, done + Map(decl, edges[..k]), before);
    }
    assert edges[..|edges|] == edges;
  }

  method ResolveBackReferences(
    ghost es: seq<Entity>, e: Entity, diags: Diagnostics, ghost done: seq<Decl>, ghost before: seq<Diagnostic>)
    requires Ready(es) && e in es && Wired(es, LinkAll(es, done)) && diags.prefix == "" && diags.store != null
    requires diags.store.found == before + LinkAll(es, done).found
    modifies EdgesIn(es)`inverse, EdgesIn(es)`reverse, EdgesIn(es)`unique, diags`store, diags.store
    ensures diags.store == old(diags.store)
    ensures Wired(es, LinkAll(es, done + DeclsOf(e)))
    ensures diags.store.found == before + LinkAll(es, done + DeclsOf(e)).found
  {
    var at := diags.At(e.spec.fullName);
    LinkEach(es, e, at, done, before);
    assert LinksHeld(es, done + DeclsOf(e), before, at.store.found);
  }

  // ---- the whole ----

  ghost function FieldsIn(es: seq<Entity>): set<Field> {
    set e, f | e in es && f in e.spec.fields :: f
  }

  ghost function IndexesIn(es: seq<Entity>): set<Index> {
    set e, idx | e in es && idx in e.spec.indexes :: idx
  }

  lemma EntityNamedOneMore(es: seq<Entity>, k: nat, name: string)
    requires k < |es|
    ensures EntityNamed(es[..k + 1], name) ==
      if EntityNamed(es[..k], name).Some? then EntityNamed(es[..k], name)
      else if es[k].spec.fullName == name then Some(es[k]) else None
  {
    assert es[..k + 1] == es[..k] + [es[k]];
    EntityNamedAppend(es[..k], es[k], name);
  }

  lemma EntityNamedAppend(es: seq<Entity>, e: Entity, name: string)
    ensures EntityNamed(es + [e], name) ==
      if EntityNamed(es, name).Some? then EntityNamed(es, name)
      else if e.spec.fullName == name then Some(e) else None
  {
    if es != [] {
      assert (es + [e])[1..] == es[1..] + [e];
      EntityNamedAppend(es[1..], e, name);
    }
  }

  method RegisterNames(es: seq<Entity>, diags: Diagnostics) returns (byName: map<string, Entity>)
    requires diags.prefix == "" && diags.store != null && diags.store.found == []
    modifies diags`store, diags.store
    ensures diags.store == old(diags.store)
    ensures NamesKept(byName, es)
    ensures diags.store.found == Gather(|es|, NameDiag(es))
  {
    byName := map[];
    for k := 0 to |es|
      invariant diags.store == old(diags.store)
      invariant NamesKept(byName, es[..k])
      invariant diags.store.found == [] + Gather(k, NameDiag(es))
    {
      GatherOneMore([], k, NameDiag(es));
      forall name ensures EntityNamed(es[..k + 1], name) ==
        if EntityNamed(es[..k], name).Some? then EntityNamed(es[..k], name)
        else if es[k].spec.fullName == name then Some(es[k]) else None
      {
        EntityNamedOneMore(es, k, name);
      }
      if es[k].spec.fullName in byName {
        diags.Add(es[k].spec.file, DefinedTwice);
        continue;
      }
      byName := byName[es[k].spec.fullName := es[k]];
    }
    assert es[..|es|] == es;
  }

  ghost predicate Unmarked(e: Entity)
    reads e`version, e`erased
  {
    e.version == null && e.erased == null
  }

  ghost predicate AttachedTo(es: seq<Entity>, k: nat)
    requires k <= |es|
    reads EntitiesIn(es), FieldsIn(es)`parent, EdgesIn(es)`parent, IndexesIn(es)`parent
  {
    && (forall i {:trigger Attached(es[i])} :: 0 <= i < k ==> es[i] in es && Attached(es[i]))
    && (forall i {:trigger Unmarked(es[i])} :: k <= i < |es| ==> es[i] in es && Unmarked(es[i]))
  }

  ghost predicate AllApart(es: seq<Entity>) {
    forall i, j :: 0 <= i < |es| && 0 <= j < |es| && i != j ==> es[i] != es[j] && Apart(es[i], es[j])
  }

  method AttachOneMore(es: seq<Entity>, k: nat, diags: Diagnostics, ghost found: nat -> seq<Diagnostic>)
    requires AllApart(es) && k < |es| && AttachedTo(es, k) && diags.prefix == "" && diags.store != null
    requires Reports(found, MarkDiags(es))
    modifies EntitiesIn(es)`props, EntitiesIn(es)`elems, EntitiesIn(es)`version, EntitiesIn(es)`erased
    modifies FieldsIn(es)`parent, EdgesIn(es)`parent, IndexesIn(es)`parent
    modifies diags`store, diags.store
    ensures diags.store == old(diags.store)
    ensures AttachedTo(es, k + 1)
    ensures diags.store.found == old(diags.store.found) + found(k)
  {
    assert found(k) == Recorded(MarkDiags(es), k);
    assert Unmarked(es[k]);
    Attach(es[k], diags);
    forall i | 0 <= i < |es|
      ensures i < k + 1 ==> Attached(es[i])
      ensures k + 1 <= i ==> Unmarked(es[i])
    {
      if i != k {
        assert Apart(es[i], es[k]);
        assert old(if i < k then Attached(es[i]) else Unmarked(es[i]));
      }
    }
  }

  method AttachAll(es: seq<Entity>, diags: Diagnostics, ghost found: nat -> seq<Diagnostic>)
    requires AllApart(es) && AttachedTo(es, 0) && diags.prefix == "" && diags.store != null
    requires Reports(found, MarkDiags(es))
    modifies EntitiesIn(es)`props, EntitiesIn(es)`elems, EntitiesIn(es)`version, EntitiesIn(es)`erased
    modifies FieldsIn(es)`parent, EdgesIn(es)`parent, IndexesIn(es)`parent
    modifies diags`store, diags.store
    ensures diags.store == old(diags.store)
    ensures AttachedTo(es, |es|)
    ensures diags.store.found == old(diags.store.found) + Gather(|es|, found)
  {
    ghost var before := diags.store.found;
    for k := 0 to |es|
      invariant diags.store == old(diags.store)
      invariant AttachedTo(es, k)
      invariant diags.store.found == before + Gather(k, found)
    {
      GatherOneMore(before, k, found);
      AttachOneMore(es, k, diags, found);
    }
  }

  ghost predicate AllResolved(e: Entity)
    reads IndexSet(e)`props
  {
    forall idx | idx in e.spec.indexes :: Resolved(PropsOf(e), idx)
  }

  /** The indexes of the first k entities are resolved. */
  ghost predicate IndexedTo(es: seq<Entity>, k: nat)
    requires k <= |es|
    reads IndexesIn(es)`props
  {
    forall i {:trigger AllResolved(es[i])} :: 0 <= i < k ==> es[i] in es && AllResolved(es[i])
  }

  ghost predicate HasProps(e: Entity)
    reads e`props
  {
    e.props == PropsOf(e)
  }

  ghost predicate HaveProps(es: seq<Entity>)
    reads EntitiesIn(es)`props
  {
    forall e {:trigger HasProps(e)} | e in es :: HasProps(e)
  }

  method IndexOneMore(es: seq<Entity>, k: nat, diags: Diagnostics, ghost found: nat -> seq<Diagnostic>)
    requires AllApart(es) && k < |es| && IndexedTo(es, k) && HaveProps(es) && diags.prefix == "" && diags.store != null
    requires Reports(found, IndexDiags(es))
    modifies IndexesIn(es)`props, diags`store, diags.store
    ensures diags.store == old(diags.store)
    ensures HaveProps(es) && IndexedTo(es, k + 1)
    ensures diags.store.found == old(diags.store.found) + found(k)
  {
    var e := es[k];
    assert HasProps(e) && found(k) == Recorded(IndexDiags(es), k);
    ResolveIndexes(e, diags);
    forall i | 0 <= i < k + 1 ensures es[i] in es && AllResolved(es[i]) {
      if i != k {
        assert Apart(es[i], es[k]);
        assert old(AllResolved(es[i]));
      }
    }
  }

  method IndexAll(es: seq<Entity>, diags: Diagnostics, ghost found: nat -> seq<Diagnostic>)
    requires AllApart(es) && HaveProps(es) && diags.prefix == "" && diags.store != null
    requires Reports(found, IndexDiags(es))
    modifies IndexesIn(es)`props, diags`store, diags.store
    ensures diags.store == old(diags.store)
    ensures IndexedTo(es, |es|)
    ensures diags.store.found == old(diags.store.found) + Gather(|es|, found)
  {
    ghost var before := diags.store.found;
    for k := 0 to |es|
      invariant diags.store == old(diags.store)
      invariant HaveProps(es) && IndexedTo(es, k)
      invariant diags.store.found == before + Gather(k, found)
    {
      GatherOneMore(before, k, found);
      IndexOneMore(es, k, diags, found);
    }
  }

  ghost predicate TargetsFound(es: seq<Entity>, e: Entity)
    reads EdgeSet(e)`target
  {
    forall ed | ed in e.spec.edges :: TargetFound(es, ed)
  }

  /** The edges of the first k entities have their targets, and no edge has any
      other. */
  ghost predicate TargetedTo(es: seq<Entity>, k: nat)
    requires k <= |es|
    reads EdgesIn(es)`target
  {
    && (forall i {:trigger TargetsFound(es, es[i])} :: 0 <= i < k ==> es[i] in es && TargetsFound(es, es[i]))
    && (forall ed {:trigger TargetSound(es, ed)} | ed in EdgesIn(es) :: TargetSound(es, ed))
  }

  method TargetOneMore(
    byName: map<string, Entity>, es: seq<Entity>, k: nat, diags: Diagnostics, ghost found: nat -> seq<Diagnostic>)
    requires NamesKept(byName, es) && k < |es| && TargetedTo(es, k) && diags.prefix == "" && diags.store != null
    requires Reports(found, TargetDiags(es))
    modifies EdgesIn(es)`target, diags`store, diags.store
    ensures diags.store == old(diags.store)
    ensures TargetedTo(es, k + 1)
    ensures diags.store.found == old(diags.store.found) + found(k)
  {
    assert found(k) == Recorded(TargetDiags(es), k);
    var e := es[k];
    assert e in es;
    forall ed | ed in e.spec.edges ensures TargetSound(es, ed) {
      assert ed in EdgesIn(es);
    }
    ResolveEdges(byName, es, e, diags);
    forall ed | ed in EdgesIn(es) ensures TargetSound(es, ed) {
      if ed !in EdgeSet(e) {
        assert old(TargetSound(es, ed));
      }
    }
    forall i | 0 <= i < k + 1 ensures es[i] in es && TargetsFound(es, es[i]) {
      if i != k {
        assert old(TargetsFound(es, es[i]));
        forall ed | ed in es[i].spec.edges ensures TargetFound(es, ed) {
          assert old(TargetFound(es, ed));
        }
      }
    }
  }

  method TargetAll(
    byName: map<string, Entity>, es: seq<Entity>, diags: Diagnostics, ghost found: nat -> seq<Diagnostic>)
    requires NamesKept(byName, es) && TargetedTo(es, 0) && diags.prefix == "" && diags.store != null
    requires Reports(found, TargetDiags(es))
    modifies EdgesIn(es)`target, diags`store, diags.store
    ensures diags.store == old(diags.store)
    ensures TargetedTo(es, |es|)
    ensures diags.store.found == old(diags.store.found) + Gather(|es|, found)
  {
    ghost var before := diags.store.found;
    for k := 0 to |es|
      invariant diags.store == old(diags.store)
      invariant TargetedTo(es, k)
      invariant diags.store.found == before + Gather(k, found)
    {
      GatherOneMore(before, k, found);
      TargetOneMore(byName, es, k, diags, found);
    }
  }

  method LinkEvery(es: seq<Entity>, diags: Diagnostics)
    requires Ready(es) && Wired(es, BLANK) && diags.prefix == "" && diags.store != null
    modifies EdgesIn(es)`inverse, EdgesIn(es)`reverse, EdgesIn(es)`unique, diags`store, diags.store
    ensures diags.store == old(diags.store)
    ensures Wired(es, LinkAll(es, Decls(es)))
    ensures diags.store.found == old(diags.store.found) + LinkAll(es, Decls(es)).found
  {
    ghost var before := diags.store.found;
    assert before + [] == before;
    for k := 0 to |es|
      invariant diags.store == old(diags.store)
      invariant Ready(es) && Wired(es, LinkAll(es, Decls(es[..k])))
      invariant diags.store.found == before + LinkAll(es, Decls(es[..k])).found
    {
      assert es[..k + 1][..k] == es[..k];
      ResolveBackReferences(es, es[k], diags, Decls(es[..k]), before);
    }
    assert es[..|es|] == es;
  }

  /** Everything in the schema. */
  ghost function World(es: seq<Entity>): set<object> {
    EntitiesIn(es) + FieldsIn(es) + EdgesIn(es) + IndexesIn(es)
  }

  lemma WorldIsAllocated(es: seq<Entity>)
    ensures forall o | o in World(es) :: allocated(o)
  {
  }

  /** The graph Build leaves, whatever it reports. */
  ghost predicate Built(es: seq<Entity>)
    reads World(es)
  {
    && (forall e {:trigger Attached(e)} {:trigger AllResolved(e)} {:trigger TargetsFound(es, e)} | e in es ::
         Attached(e) && AllResolved(e) && TargetsFound(es, e))
    && Wired(es, LinkAll(es, Decls(es)))
  }

  lemma FreshIsApart(es: seq<Entity>)
    requires FreshEntities(es)
    ensures AllApart(es) && AttachedTo(es, 0) && TargetedTo(es, 0) && Wired(es, BLANK)
  {
    forall i, j | 0 <= i < |es| && 0 <= j < |es| && i != j ensures es[i] != es[j] && Apart(es[i], es[j]) {
      assert if i < j then Apart(es[i], es[j]) else Apart(es[i], es[j]);
    }
    forall ed | ed in EdgesIn(es) ensures ed.Fresh() {
      var e :| e in es && ed in e.spec.edges;
      assert Unwired(e);
    }
    forall i | 0 <= i < |es| ensures Unwired(es[i]) {
      assert es[i] in es;
    }
  }

  // What a pass does not write, it keeps.

  twostate lemma KeepsTargets(es: seq<Entity>)
    requires unchanged(EdgesIn(es)`target) && old(TargetedTo(es, 0))
    ensures TargetedTo(es, 0)
  {
  }

  twostate lemma KeepsLinks(es: seq<Entity>)
    requires unchanged(EdgesIn(es)`inverse) && unchanged(EdgesIn(es)`reverse) && unchanged(EdgesIn(es)`unique)
    requires old(Wired(es, BLANK))
    ensures Wired(es, BLANK)
  {
  }

  twostate lemma KeepsMembers(es: seq<Entity>)
    requires unchanged(EntitiesIn(es)) && unchanged(FieldsIn(es)) && unchanged(IndexesIn(es)`parent)
    requires unchanged(EdgesIn(es)`parent)
    requires old(AttachedTo(es, |es|))
    ensures AttachedTo(es, |es|)
  {
  }

  twostate lemma KeepsIndexes(es: seq<Entity>)
    requires unchanged(IndexesIn(es)`props) && old(IndexedTo(es, |es|))
    ensures IndexedTo(es, |es|)
  {
  }

  method BuildMembers(es: seq<Entity>, diags: Diagnostics) returns (byName: map<string, Entity>)
    requires AllApart(es) && AttachedTo(es, 0) && diags.prefix == "" && diags.store != null && diags.store.found == []
    modifies EntitiesIn(es)`props, EntitiesIn(es)`elems, EntitiesIn(es)`version, EntitiesIn(es)`erased
    modifies FieldsIn(es)`parent, EdgesIn(es)`parent, IndexesIn(es)`parent
    modifies IndexesIn(es)`props, diags`store, diags.store
    ensures diags.store == old(diags.store)
    ensures NamesKept(byName, es) && AttachedTo(es, |es|) && IndexedTo(es, |es|)
    ensures diags.store.found == Gather(|es|, NameDiag(es)) + Gather(|es|, MarkDiags(es)) + Gather(|es|, IndexDiags(es))
  {
    byName := RegisterNames(es, diags);
    AttachAll(es, diags, MarkDiags(es));
    AttachedIsReady(es);
    label Attached:
    IndexAll(es, diags, IndexDiags(es));
    KeepsMembers@Attached(es);
  }

  method BuildStructure(es: seq<Entity>, diags: Diagnostics) returns (byName: map<string, Entity>)
    requires AllApart(es) && AttachedTo(es, 0) && TargetedTo(es, 0) && diags.prefix == "" && diags.store != null
    requires diags.store.found == []
    modifies EntitiesIn(es)`props, EntitiesIn(es)`elems, EntitiesIn(es)`version, EntitiesIn(es)`erased
    modifies FieldsIn(es)`parent, EdgesIn(es)`parent, IndexesIn(es)`parent
    modifies IndexesIn(es)`props, EdgesIn(es)`target, diags`store, diags.store
    ensures diags.store == old(diags.store)
    ensures NamesKept(byName, es) && AttachedTo(es, |es|) && IndexedTo(es, |es|) && TargetedTo(es, |es|)
    ensures diags.store.found == StructureDiags(es)
  {
    byName := BuildMembers(es, diags);
    KeepsTargets(es);
    label Indexed:
    TargetAll(byName, es, diags, TargetDiags(es));
    KeepsMembers@Indexed(es);
    KeepsIndexes@Indexed(es);
  }

  lemma StructureIsBuilt(es: seq<Entity>)
    requires AttachedTo(es, |es|) && IndexedTo(es, |es|) && TargetedTo(es, |es|) && Wired(es, LinkAll(es, Decls(es)))
    ensures Built(es)
  {
    AttachedIsReady(es);
    IndexedIsResolved(es);
    TargetedIsReady(es);
  }

  twostate lemma KeepsStructure(es: seq<Entity>)
    requires unchanged(EntitiesIn(es)) && unchanged(FieldsIn(es)) && unchanged(IndexesIn(es))
    requires unchanged(EdgesIn(es)`parent) && unchanged(EdgesIn(es)`target)
    requires old(AttachedTo(es, |es|) && IndexedTo(es, |es|) && TargetedTo(es, |es|))
    ensures AttachedTo(es, |es|) && IndexedTo(es, |es|) && TargetedTo(es, |es|)
  {
    KeepsMembers(es);
    KeepsIndexes(es);
  }

  method LinkStructure(es: seq<Entity>, diags: Diagnostics)
    requires AttachedTo(es, |es|) && IndexedTo(es, |es|) && TargetedTo(es, |es|) && Wired(es, BLANK)
    requires diags.prefix == "" && diags.store != null
    modifies EdgesIn(es)`inverse, EdgesIn(es)`reverse, EdgesIn(es)`unique, diags`store, diags.store
    ensures diags.store == old(diags.store) && Built(es)
    ensures diags.store.found == old(diags.store.found) + LinkAll(es, Decls(es)).found
  {
    AttachedIsReady(es);
    TargetedIsReady(es);
    LinkEvery(es, diags);
    KeepsStructure(es);
    StructureIsBuilt(es);
  }

  method BuildGraph(es: seq<Entity>, diags: Diagnostics) returns (byName: map<string, Entity>)
    requires AllApart(es) && AttachedTo(es, 0) && TargetedTo(es, 0) && Wired(es, BLANK)
    requires diags.prefix == "" && diags.store != null && diags.store.found == []
    modifies EntitiesIn(es)`props, EntitiesIn(es)`elems, EntitiesIn(es)`version, EntitiesIn(es)`erased
    modifies FieldsIn(es)`parent, EdgesIn(es)`parent, IndexesIn(es)`parent
    modifies IndexesIn(es)`props, EdgesIn(es)`target
    modifies EdgesIn(es)`inverse, EdgesIn(es)`reverse, EdgesIn(es)`unique, diags`store, diags.store
    ensures diags.store == old(diags.store) && NamesKept(byName, es) && Built(es) && diags.List() == BuildDiags(es)
  {
    byName := BuildStructure(es, diags);
    KeepsLinks(es);
    LinkStructure(es, diags);
  }

  /** The passes, and everything they found. */
  method BuildReport(es: seq<Entity>) returns (byName: map<string, Entity>, found: seq<Diagnostic>)
    requires AllApart(es) && AttachedTo(es, 0) && TargetedTo(es, 0) && Wired(es, BLANK)
    modifies EntitiesIn(es)`props, EntitiesIn(es)`elems, EntitiesIn(es)`version, EntitiesIn(es)`erased
    modifies FieldsIn(es)`parent, EdgesIn(es)`parent, IndexesIn(es)`parent
    modifies IndexesIn(es)`props, EdgesIn(es)`target
    modifies EdgesIn(es)`inverse, EdgesIn(es)`reverse, EdgesIn(es)`unique
    ensures NamesKept(byName, es) && Built(es) && found == BuildDiags(es)
  {
    var diags := new Diagnostics();
    var list := diags.Shared();
    byName := BuildGraph(es, diags);
    found := diags.List();
  }

  /** Build wires a list of fresh entities, whatever is wrong with it, and
      reports exactly what is. */
  method Build(es: seq<Entity>) returns (r: Result<Schema, seq<Diagnostic>>)
    requires FreshEntities(es)
    modifies EntitiesIn(es)`props, EntitiesIn(es)`elems, EntitiesIn(es)`version, EntitiesIn(es)`erased
    modifies FieldsIn(es)`parent, EdgesIn(es)`parent, IndexesIn(es)`parent
    modifies IndexesIn(es)`props, EdgesIn(es)`target
    modifies EdgesIn(es)`inverse, EdgesIn(es)`reverse, EdgesIn(es)`unique
    ensures Built(es)
    ensures r.Failure? <==> BuildDiags(es) != []
    ensures r.Failure? ==> r.error == BuildDiags(es)
    ensures r.Success? ==> r.value.entities == es && NamesKept(r.value.byName, es)
  {
    FreshIsApart(es);
    var byName, found := BuildReport(es);
    if |found| > 0 {
      r := Failure(found);
    } else {
      r := Success(Schema(es, byName));
    }
  }

  lemma AttachedIsReady(es: seq<Entity>)
    requires AttachedTo(es, |es|)
    ensures HaveProps(es) && forall e | e in es :: Attached(e)
  {
    forall e | e in es ensures Attached(e) {
      var i :| 0 <= i < |es| && es[i] == e;
    }
  }

  lemma IndexedIsResolved(es: seq<Entity>)
    requires IndexedTo(es, |es|)
    ensures forall e | e in es :: AllResolved(e)
  {
    forall e | e in es ensures AllResolved(e) {
      var i :| 0 <= i < |es| && es[i] == e;
    }
  }

  lemma TargetedIsReady(es: seq<Entity>)
    requires TargetedTo(es, |es|)
    ensures forall e | e in es :: TargetsFound(es, e)
    ensures forall ed | ed in EdgesIn(es) :: TargetFound(es, ed)
  {
    forall e | e in es ensures TargetsFound(es, e) {
      var i :| 0 <= i < |es| && es[i] == e;
    }
    forall ed | ed in EdgesIn(es) ensures TargetFound(es, ed) {
      var e :| e in es && ed in e.spec.edges;
      assert TargetsFound(es, e);
    }
  }
}
