/** What wiring a list of declarations comes to, said without a heap: the
    diagnostics of each pass of schema.Build, and the links its last pass leaves
    behind, as functions of what was declared (schema/schema.go). */
module Wiring {
  import opened Wrappers
  import opened Sorting
  import opened Text
  import opened Diag
  import opened Model

  // ---- members ----

  predicate ByNumber(a: Prop, b: Prop) {
    a.Number() <= b.Number()
  }

  function FieldProps(fields: seq<Field>): seq<Prop> {
    Map((f: Field) => FieldProp(f), fields)
  }

  function EdgeProps(edges: seq<Edge>): seq<Prop> {
    Map((ed: Edge) => EdgeProp(ed), edges)
  }

  function Declared(e: Entity): seq<Prop> {
    FieldProps(e.spec.fields) + EdgeProps(e.spec.edges)
  }

  /** Both kinds of member, by number. */
  function PropsOf(e: Entity): seq<Prop> {
    Sort(ByNumber, Declared(e))
  }

  /** Every prop, then every index. */
  function ElemsOf(e: Entity): seq<Elem> {
    Map((p: Prop) => PropElem(p), PropsOf(e)) + Map((i: Index) => IndexElem(i), e.spec.indexes)
  }

  /** Props are the declared fields and edges, each once, in increasing number,
      and members that share a number in the order they were declared in: fields
      and then edges, each as its own list has them. */
  lemma PropsAreSortedMembers(e: Entity, number: int)
    ensures |Declared(e)| == |e.spec.fields| + |e.spec.edges|
    ensures forall i :: 0 <= i < |e.spec.fields| ==> Declared(e)[i] == FieldProp(e.spec.fields[i])
    ensures forall j :: 0 <= j < |e.spec.edges| ==> Declared(e)[|e.spec.fields| + j] == EdgeProp(e.spec.edges[j])
    ensures multiset(PropsOf(e)) == multiset(Declared(e))
    ensures forall i, j :: 0 <= i < j < |PropsOf(e)| ==> PropsOf(e)[i].Number() <= PropsOf(e)[j].Number()
    ensures var same := (p: Prop) => p.Number() == number; Filter(same, PropsOf(e)) == Filter(same, Declared(e))
  {
    MapAt((f: Field) => FieldProp(f), e.spec.fields);
    MapAt((ed: Edge) => EdgeProp(ed), e.spec.edges);
    SortPermutes(ByNumber, Declared(e));
    SortSorts(ByNumber, Declared(e));
    SortIsStable(ByNumber, (p: Prop) => p.Number() == number, Declared(e));
  }

  /** An entity's elements are its props and then its indexes, all of them. */
  lemma ElemsAreMembers(e: Entity)
    ensures |ElemsOf(e)| == |PropsOf(e)| + |e.spec.indexes|
    ensures forall i :: 0 <= i < |PropsOf(e)| ==> ElemsOf(e)[i] == PropElem(PropsOf(e)[i])
    ensures forall j :: 0 <= j < |e.spec.indexes| ==> ElemsOf(e)[|PropsOf(e)| + j] == IndexElem(e.spec.indexes[j])
  {
    MapAt((p: Prop) => PropElem(p), PropsOf(e));
    MapAt((i: Index) => IndexElem(i), e.spec.indexes);
  }

  lemma PropsAreDeclared(e: Entity, p: Prop)
    ensures p in PropsOf(e) <==> p in Declared(e)
  {
    SortPermutes(ByNumber, Declared(e));
    assert p in multiset(PropsOf(e)) <==> p in multiset(Declared(e));
  }

  lemma PropsHaveEdges(e: Entity, ed: Edge)
    ensures EdgeProp(ed) in PropsOf(e) <==> ed in e.spec.edges
  {
    PropsAreDeclared(e, EdgeProp(ed));
    MapAt((f: Field) => FieldProp(f), e.spec.fields);
    MapAt((x: Edge) => EdgeProp(x), e.spec.edges);
    if ed in e.spec.edges {
      var i :| 0 <= i < |e.spec.edges| && e.spec.edges[i] == ed;
      assert Declared(e)[|e.spec.fields| + i] == EdgeProp(ed);
    }
  }

  lemma PropsHaveFields(e: Entity, f: Field)
    ensures FieldProp(f) in PropsOf(e) <==> f in e.spec.fields
  {
    PropsAreDeclared(e, FieldProp(f));
    MapAt((x: Field) => FieldProp(x), e.spec.fields);
    MapAt((ed: Edge) => EdgeProp(ed), e.spec.edges);
    if f in e.spec.fields {
      var i :| 0 <= i < |e.spec.fields| && e.spec.fields[i] == f;
      assert Declared(e)[i] == FieldProp(f);
    }
  }

  // ---- pass one: names ----

  /** The first entity of that name: the one byName keeps. */
  function EntityNamed(es: seq<Entity>, name: string): (r: Option<Entity>)
    ensures r.Some? ==> r.value in es && r.value.spec.fullName == name
    ensures r.None? ==> forall e | e in es :: e.spec.fullName != name
  {
    if es == [] then None
    else if es[0].spec.fullName == name then Some(es[0])
    else EntityNamed(es[1..], name)
  }

  predicate Redefines(es: seq<Entity>, k: nat) {
    k < |es| && EntityNamed(es[..k], es[k].spec.fullName).Some?
  }

  function NameDiag(es: seq<Entity>): nat -> seq<Diagnostic> {
    (k: nat) => if Redefines(es, k) then [Diagnostic(es[k].spec.file, DefinedTwice)] else []
  }

  // ---- pass two: members, the version field and the erased field ----

  function FirstVersion(fields: seq<Field>): (r: Option<Field>)
    ensures r.Some? ==> r.value in fields && r.value.spec.version
    ensures r.None? ==> forall f | f in fields :: !f.spec.version
  {
    if fields == [] then None
    else if fields[0].spec.version then Some(fields[0])
    else FirstVersion(fields[1..])
  }

  /** A field marked both ways counts as the version field only. */
  predicate MarksErased(f: Field) {
    f.spec.erased && !f.spec.version
  }

  function FirstErased(fields: seq<Field>): (r: Option<Field>)
    ensures r.Some? ==> r.value in fields && MarksErased(r.value)
    ensures r.None? ==> forall f | f in fields :: !MarksErased(f)
  {
    if fields == [] then None
    else if MarksErased(fields[0]) then Some(fields[0])
    else FirstErased(fields[1..])
  }

  /** Field k is marked as the version field, or as the erased one, and an
      earlier field already is. */
  predicate MarkedAgain(e: Entity, k: nat) {
    && k < |e.spec.fields|
    && var f := e.spec.fields[k];
    || (f.spec.version && FirstVersion(e.spec.fields[..k]).Some?)
    || (MarksErased(f) && FirstErased(e.spec.fields[..k]).Some?)
  }

  function MarkDiag(e: Entity): nat -> seq<Diagnostic> {
    (k: nat) =>
      if MarkedAgain(e, k) then
        var f := e.spec.fields[k];
        [Diagnostic(JoinPath(e.spec.fullName, f.spec.names.proto),
                    if f.spec.version then ExtraVersion else ExtraErased)]
      else []
  }

  // ---- pass three: index refs ----

  /** Looking the name up finds a prop, and it has the ref's number. */
  predicate RefMeets(props: seq<Prop>, ref: Ref) {
    var p := FindProp(props, ref.name);
    p.Some? && p.value.Number() == ref.number
  }

  function IndexPath(idx: Index): string {
    "{indexes}(" + idx.spec.name + ")"
  }

  function RefDiag(e: Entity, props: seq<Prop>, idx: Index): nat -> seq<Diagnostic> {
    (k: nat) =>
      if k < |idx.spec.refs| && !RefMeets(props, idx.spec.refs[k]) then
        [Diagnostic(JoinPath(e.spec.fullName, IndexPath(idx) + ".refs[" + Decimal(k) + "]"),
                    if FindProp(props, idx.spec.refs[k].name).None? then NoSuchProp else WrongNumber)]
      else []
  }

  function IndexDiag(e: Entity, props: seq<Prop>): nat -> seq<Diagnostic> {
    (k: nat) =>
      if k < |e.spec.indexes| then
        var idx := e.spec.indexes[k];
        if idx.spec.refs == [] then [Diagnostic(JoinPath(e.spec.fullName, IndexPath(idx)), EmptyIndex)]
        else Gather(|idx.spec.refs|, RefDiag(e, props, idx))
      else []
  }

  /** The members an index comes to hold: what its first n refs found. */
  function RefProps(props: seq<Prop>, idx: Index, n: nat): seq<Prop>
    requires n <= |idx.spec.refs|
  {
    if n == 0 then []
    else
      var ref := idx.spec.refs[n - 1];
      RefProps(props, idx, n - 1) + if RefMeets(props, ref) then [FindProp(props, ref.name).value] else []
  }

  /** When every ref resolves, member k is the prop ref k names, by both name
      and number, and there is one member a ref. */
  lemma {:induction false} RefPropsInDeclaredOrder(props: seq<Prop>, idx: Index, n: nat)
    requires n <= |idx.spec.refs|
    requires forall k :: 0 <= k < n ==> RefMeets(props, idx.spec.refs[k])
    ensures |RefProps(props, idx, n)| == n
    ensures forall k :: 0 <= k < n ==>
      var p := RefProps(props, idx, n)[k];
      p in props && p.Name() == idx.spec.refs[k].name && p.Number() == idx.spec.refs[k].number
  {
    if n > 0 {
      RefPropsInDeclaredOrder(props, idx, n - 1);
    }
  }

  // ---- pass four: edge targets ----

  function EdgePath(e: Entity, ed: Edge): string {
    JoinPath(e.spec.fullName, ed.spec.names.proto)
  }

  function TargetDiag(es: seq<Entity>, e: Entity): nat -> seq<Diagnostic> {
    (k: nat) =>
      if k < |e.spec.edges| && EntityNamed(es, e.spec.edges[k].spec.targetName).None? then
        [Diagnostic(EdgePath(e, e.spec.edges[k]), NotAnEntity)]
      else []
  }

  // ---- each pass over every entity ----

  function MarkDiags(es: seq<Entity>): nat -> seq<Diagnostic> {
    (k: nat) => if k < |es| then Gather(|es[k].spec.fields|, MarkDiag(es[k])) else []
  }

  function IndexDiags(es: seq<Entity>): nat -> seq<Diagnostic> {
    (k: nat) => if k < |es| then Gather(|es[k].spec.indexes|, IndexDiag(es[k], PropsOf(es[k]))) else []
  }

  function TargetDiags(es: seq<Entity>): nat -> seq<Diagnostic> {
    (k: nat) => if k < |es| then Gather(|es[k].spec.edges|, TargetDiag(es, es[k])) else []
  }

  /** Everything the passes before the back references find, in order. */
  function StructureDiags(es: seq<Entity>): seq<Diagnostic> {
    Gather(|es|, NameDiag(es)) + Gather(|es|, MarkDiags(es))
    + Gather(|es|, IndexDiags(es)) + Gather(|es|, TargetDiags(es))
  }

  // ---- what "structurally possible" means, said without the passes ----

  ghost predicate NamesDistinct(es: seq<Entity>) {
    forall i, j :: 0 <= i < j < |es| ==> es[i].spec.fullName != es[j].spec.fullName
  }

  ghost predicate MarkedAlike(f: Field, g: Field) {
    (f.spec.version && g.spec.version) || (MarksErased(f) && MarksErased(g))
  }

  ghost predicate MarkedOnce(e: Entity) {
    forall i, j :: 0 <= i < j < |e.spec.fields| ==> !MarkedAlike(e.spec.fields[i], e.spec.fields[j])
  }

  ghost predicate IndexSound(props: seq<Prop>, idx: Index) {
    && idx.spec.refs != []
    && forall k :: 0 <= k < |idx.spec.refs| ==> RefMeets(props, idx.spec.refs[k])
  }

  ghost predicate TargetsExist(es: seq<Entity>, e: Entity) {
    forall ed | ed in e.spec.edges :: EntityNamed(es, ed.spec.targetName).Some?
  }

  ghost predicate EntitySound(es: seq<Entity>, e: Entity) {
    && MarkedOnce(e)
    && (forall idx | idx in e.spec.indexes :: IndexSound(PropsOf(e), idx))
    && TargetsExist(es, e)
  }

  ghost predicate Sound(es: seq<Entity>) {
    NamesDistinct(es) && forall e | e in es :: EntitySound(es, e)
  }

  lemma RedefinesIffNamedBefore(es: seq<Entity>, k: nat)
    requires k < |es|
    ensures Redefines(es, k) <==> exists i :: 0 <= i < k && es[i].spec.fullName == es[k].spec.fullName
  {
    var found := EntityNamed(es[..k], es[k].spec.fullName);
    if found.Some? {
      var i :| 0 <= i < k && es[..k][i] == found.value;
      assert es[i].spec.fullName == es[k].spec.fullName;
    }
    assert forall i :: 0 <= i < k ==> es[i] in es[..k];
  }

  lemma NameDiagsIffRepeated(es: seq<Entity>)
    ensures Gather(|es|, NameDiag(es)) == [] <==> NamesDistinct(es)
  {
    GatherEmpty(|es|, NameDiag(es));
    forall k: nat | k < |es|
      ensures NameDiag(es)(k) == [] <==> forall i :: 0 <= i < k ==> es[i].spec.fullName != es[k].spec.fullName
    {
      RedefinesIffNamedBefore(es, k);
    }
  }

  lemma MarkedAgainIffMarkedBefore(e: Entity, k: nat)
    requires k < |e.spec.fields|
    ensures MarkedAgain(e, k) <==> (exists i :: 0 <= i < k && MarkedAlike(e.spec.fields[i], e.spec.fields[k]))
  {
    var fields := e.spec.fields;
    assert forall i :: 0 <= i < k ==> fields[i] in fields[..k];
    if FirstVersion(fields[..k]).Some? {
      var i :| 0 <= i < k && fields[i] == FirstVersion(fields[..k]).value;
    }
    if FirstErased(fields[..k]).Some? {
      var i :| 0 <= i < k && fields[i] == FirstErased(fields[..k]).value;
    }
  }

  lemma MarkDiagsIffRepeated(e: Entity)
    ensures Gather(|e.spec.fields|, MarkDiag(e)) == [] <==> MarkedOnce(e)
  {
    GatherEmpty(|e.spec.fields|, MarkDiag(e));
    forall k: nat | k < |e.spec.fields|
      ensures MarkDiag(e)(k) == [] <==> forall i :: 0 <= i < k ==>
        !MarkedAlike(e.spec.fields[i], e.spec.fields[k])
    {
      MarkedAgainIffMarkedBefore(e, k);
    }
  }

  lemma RefDiagsIffUnsound(e: Entity, props: seq<Prop>, idx: Index)
    ensures Gather(|idx.spec.refs|, RefDiag(e, props, idx)) == [] <==>
      forall n: nat :: n < |idx.spec.refs| ==> RefMeets(props, idx.spec.refs[n])
  {
    GatherEmpty(|idx.spec.refs|, RefDiag(e, props, idx));
    var diag := RefDiag(e, props, idx);
    assert forall n: nat | n < |idx.spec.refs| :: diag(n) == [] <==> RefMeets(props, idx.spec.refs[n]);
  }

  lemma IndexDiagsIffUnsound(e: Entity, props: seq<Prop>)
    ensures Gather(|e.spec.indexes|, IndexDiag(e, props)) == [] <==>
      forall idx | idx in e.spec.indexes :: IndexSound(props, idx)
  {
    GatherEmpty(|e.spec.indexes|, IndexDiag(e, props));
    forall k: nat | k < |e.spec.indexes|
      ensures IndexDiag(e, props)(k) == [] <==> IndexSound(props, e.spec.indexes[k])
    {
      RefDiagsIffUnsound(e, props, e.spec.indexes[k]);
    }
  }

  lemma TargetDiagsIffMissing(es: seq<Entity>, e: Entity)
    ensures Gather(|e.spec.edges|, TargetDiag(es, e)) == [] <==> TargetsExist(es, e)
  {
    GatherEmpty(|e.spec.edges|, TargetDiag(es, e));
    forall k: nat | k < |e.spec.edges|
      ensures TargetDiag(es, e)(k) == [] <==> EntityNamed(es, e.spec.edges[k].spec.targetName).Some?
    {
    }
  }

  /** The passes before the back references stay silent exactly on a sound list
      of entities. */
  lemma StructureDiagsIffUnsound(es: seq<Entity>)
    ensures StructureDiags(es) == [] <==> Sound(es)
  {
    NameDiagsIffRepeated(es);
    EntityDiagsIffUnsound(es);
  }

  ghost predicate Silent(es: seq<Entity>, k: nat) {
    MarkDiags(es)(k) == [] && IndexDiags(es)(k) == [] && TargetDiags(es)(k) == []
  }

  lemma EntitySilentIffSound(es: seq<Entity>, k: nat)
    requires k < |es|
    ensures Silent(es, k) <==> EntitySound(es, es[k])
  {
    MarkDiagsIffRepeated(es[k]);
    IndexDiagsIffUnsound(es[k], PropsOf(es[k]));
    TargetDiagsIffMissing(es, es[k]);
  }

  lemma AllSilent(es: seq<Entity>)
    ensures (forall k: nat :: k < |es| ==> Silent(es, k)) <==>
      Gather(|es|, MarkDiags(es)) == [] && Gather(|es|, IndexDiags(es)) == [] && Gather(|es|, TargetDiags(es)) == []
  {
    var n, m, i, t := |es|, MarkDiags(es), IndexDiags(es), TargetDiags(es);
    ThreeEmpty(n, m, i, t);
    forall k: nat | k < n ensures Silent(es, k) <==> m(k) == [] && i(k) == [] && t(k) == [] {
    }
  }

  lemma ThreeEmpty(n: nat, f: nat -> seq<Diagnostic>, g: nat -> seq<Diagnostic>, h: nat -> seq<Diagnostic>)
    ensures (forall k: nat :: k < n ==> f(k) == [] && g(k) == [] && h(k) == []) <==>
      Gather(n, f) == [] && Gather(n, g) == [] && Gather(n, h) == []
  {
    GatherEmpty(n, f);
    GatherEmpty(n, g);
    GatherEmpty(n, h);
  }

  lemma EntityDiagsIffUnsound(es: seq<Entity>)
    ensures (forall e | e in es :: EntitySound(es, e)) <==>
      Gather(|es|, MarkDiags(es)) == [] && Gather(|es|, IndexDiags(es)) == [] && Gather(|es|, TargetDiags(es)) == []
  {
    AllSilent(es);
    forall k: nat | k < |es| ensures Silent(es, k) <==> EntitySound(es, es[k]) {
      EntitySilentIffSound(es, k);
    }
  }
}
