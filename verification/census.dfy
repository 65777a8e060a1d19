/** Everything that can be wrong with a list of entities, one violation at a time
    and said without the passes of schema.Build (schema/schema.go:64-245), and
    Build's report as a census of them. */
module Census {
  import opened Sorting
  import opened Text
  import opened Diag
  import opened Model
  import opened Wiring
  import opened Links
  import opened Tally

  /** One thing wrong, and where: an entity by its position, and its fields,
      indexes, refs and edges by theirs. */
  datatype Violation =
    | RepeatedName(entity: nat)
    | ExtraMark(entity: nat, field: nat)
    | NoRefs(entity: nat, index: nat)
    | MissedRef(entity: nat, index: nat, ref: nat)
    | MissingTarget(entity: nat, edge: nat)
    | BadReference(entity: nat, edge: nat, kind: Diag.Kind)
    | Clash(entity: nat, edge: nat)

  /** The first prop of the ref's name has its number. */
  ghost predicate Answers(props: seq<Prop>, ref: Ref) {
    exists j :: 0 <= j < |props| && props[j].Name() == ref.name && props[j].Number() == ref.number
      && forall i :: 0 <= i < j ==> props[i].Name() != ref.name
  }

  /** Both version fields, or both erased and neither a version field. */
  ghost predicate SameMark(f: FieldSpec, g: FieldSpec) {
    (f.version && g.version) || (!f.version && !g.version && f.erased && g.erased)
  }

  ghost predicate HasField(es: seq<Entity>, k: nat, f: nat) {
    k < |es| && f < |es[k].spec.fields|
  }

  ghost predicate HasIndex(es: seq<Entity>, k: nat, i: nat) {
    k < |es| && i < |es[k].spec.indexes|
  }

  ghost predicate HasRef(es: seq<Entity>, k: nat, i: nat, n: nat) {
    HasIndex(es, k, i) && n < |es[k].spec.indexes[i].spec.refs|
  }

  ghost predicate HasEdge(es: seq<Entity>, k: nat, j: nat) {
    k < |es| && j < |es[k].spec.edges|
  }

  /** Edge j' of entity k' is declared before edge j of entity k. */
  ghost predicate Before(k': nat, j': nat, k: nat, j: nat) {
    k' < k || (k' == k && j' < j)
  }

  /** The `from` of an edge names edge x of entity t. */
  ghost predicate NamesEdge(es: seq<Entity>, ed: Edge, t: nat, x: nat) {
    HasEdge(es, t, x) && ReferenceIs(es, ed, Paired(es[t].spec.edges[x]))
  }

  /** An edge declared there makes a one-to-one pair, and half is a side of it. */
  ghost predicate MakesOneToOne(es: seq<Entity>, ed: Edge, half: Edge) {
    && !ed.spec.list
    && exists t: nat, x: nat :: NamesEdge(es, ed, t, x) && !es[t].spec.edges[x].spec.list
         && (half == ed || half == es[t].spec.edges[x])
  }

  ghost predicate MadeAt(es: seq<Entity>, k: nat, j: nat, half: Edge) {
    HasEdge(es, k, j) && MakesOneToOne(es, es[k].spec.edges[j], half)
  }

  ghost predicate OneToOneBefore(es: seq<Entity>, k: nat, j: nat, half: Edge) {
    exists k': nat, j': nat :: Before(k', j', k, j) && MadeAt(es, k', j', half)
  }

  /** A repeated edge names one that is declared unique, or that a one-to-one pair
      declared before it made so. */
  ghost predicate ClashesAt(es: seq<Entity>, k: nat, j: nat)
    requires HasEdge(es, k, j)
  {
    && es[k].spec.edges[j].spec.list
    && exists t: nat, x: nat :: NamesEdge(es, es[k].spec.edges[j], t, x)
         && (es[t].spec.edges[x].spec.unique || OneToOneBefore(es, k, j, es[t].spec.edges[x]))
  }

  ghost predicate Violates(es: seq<Entity>, v: Violation) {
    match v
    // an earlier entity has the name
    case RepeatedName(k) => k < |es| && exists i :: 0 <= i < k && es[i].spec.fullName == es[k].spec.fullName
    // an earlier field of the entity is marked the same way
    case ExtraMark(k, f) => HasField(es, k, f) &&
      exists g :: 0 <= g < f && SameMark(es[k].spec.fields[g].spec, es[k].spec.fields[f].spec)
    case NoRefs(k, i) => HasIndex(es, k, i) && es[k].spec.indexes[i].spec.refs == []
    case MissedRef(k, i, n) => HasRef(es, k, i, n) && !Answers(PropsOf(es[k]), es[k].spec.indexes[i].spec.refs[n])
    // no entity has the name the edge points at
    case MissingTarget(k, j) => HasEdge(es, k, j) &&
      forall i :: 0 <= i < |es| ==> es[i].spec.fullName != es[k].spec.edges[j].spec.targetName
    // the `from` does not resolve
    case BadReference(k, j, kind) => HasEdge(es, k, j) && ReferenceIs(es, es[k].spec.edges[j], Broken(kind))
    // it does, to an edge that cannot be the other half
    case Clash(k, j) => HasEdge(es, k, j) && ClashesAt(es, k, j)
  }

  /** Where in the report a violation stands: by the pass that finds it, and then by
      entity, member and ref, as they are declared. */
  datatype Spot = Spot(pass: nat, entity: nat, member: nat, part: nat)

  ghost function At(v: Violation): Spot {
    match v
    case RepeatedName(k) => Spot(0, k, 0, 0)
    case ExtraMark(k, f) => Spot(1, k, f, 0)
    case NoRefs(k, i) => Spot(2, k, i, 0)
    case MissedRef(k, i, n) => Spot(2, k, i, n)
    case MissingTarget(k, j) => Spot(3, k, j, 0)
    case BadReference(k, j, _) => Spot(4, k, j, 0)
    case Clash(k, j) => Spot(4, k, j, 0)
  }

  ghost predicate Less(v: Violation, w: Violation) {
    var a, b := At(v), At(w);
    a.pass < b.pass || (a.pass == b.pass && (a.entity < b.entity || (a.entity == b.entity
      && (a.member < b.member || (a.member == b.member && a.part < b.part)))))
  }

  /** The diagnostic a violation calls for. */
  ghost function Report(es: seq<Entity>, v: Violation): Diagnostic
    requires Violates(es, v)
  {
    match v
    case RepeatedName(k) => Diagnostic(es[k].spec.file, DefinedTwice)
    case ExtraMark(k, f) =>
      var field := es[k].spec.fields[f];
      Diagnostic(JoinPath(es[k].spec.fullName, field.spec.names.proto),
                 if field.spec.version then ExtraVersion else ExtraErased)
    case NoRefs(k, i) =>
      Diagnostic(JoinPath(es[k].spec.fullName, "{indexes}(" + es[k].spec.indexes[i].spec.name + ")"), EmptyIndex)
    case MissedRef(k, i, n) =>
      var idx := es[k].spec.indexes[i];
      Diagnostic(JoinPath(es[k].spec.fullName, "{indexes}(" + idx.spec.name + ")" + ".refs[" + Decimal(n) + "]"),
                 if exists j :: 0 <= j < |PropsOf(es[k])| && PropsOf(es[k])[j].Name() == idx.spec.refs[n].name
                 then WrongNumber else NoSuchProp)
    case MissingTarget(k, j) =>
      Diagnostic(JoinPath(es[k].spec.fullName, es[k].spec.edges[j].spec.names.proto), NotAnEntity)
    case BadReference(k, j, kind) =>
      Diagnostic(JoinPath(es[k].spec.fullName, es[k].spec.edges[j].spec.names.proto), kind)
    case Clash(k, j) =>
      Diagnostic(JoinPath(es[k].spec.fullName, es[k].spec.edges[j].spec.names.proto), BackReferenceUnique)
  }

  ghost function Says(es: seq<Entity>): (Diagnostic, Violation) -> bool {
    (d: Diagnostic, v: Violation) => Violates(es, v) && d == Report(es, v)
  }

  // ---- the violations each pass looks for, in its order ----

  ghost function If(es: seq<Entity>, v: Violation): seq<Violation> {
    if Violates(es, v) then [v] else []
  }

  ghost function Names(es: seq<Entity>): nat -> seq<Violation> {
    (k: nat) => If(es, RepeatedName(k))
  }

  ghost function MarksOf(es: seq<Entity>, k: nat): nat -> seq<Violation> {
    (f: nat) => If(es, ExtraMark(k, f))
  }

  ghost function Marks(es: seq<Entity>): nat -> seq<Violation> {
    (k: nat) => if k < |es| then Collect(|es[k].spec.fields|, MarksOf(es, k)) else []
  }

  ghost function RefsOf(es: seq<Entity>, k: nat, i: nat): nat -> seq<Violation> {
    (n: nat) => If(es, MissedRef(k, i, n))
  }

  ghost function IndexesOf(es: seq<Entity>, k: nat): nat -> seq<Violation> {
    (i: nat) => if !HasIndex(es, k, i) then []
      else If(es, NoRefs(k, i)) + Collect(|es[k].spec.indexes[i].spec.refs|, RefsOf(es, k, i))
  }

  ghost function Indexes(es: seq<Entity>): nat -> seq<Violation> {
    (k: nat) => if k < |es| then Collect(|es[k].spec.indexes|, IndexesOf(es, k)) else []
  }

  ghost function TargetsOf(es: seq<Entity>, k: nat): nat -> seq<Violation> {
    (j: nat) => If(es, MissingTarget(k, j))
  }

  ghost function Targets(es: seq<Entity>): nat -> seq<Violation> {
    (k: nat) => if k < |es| then Collect(|es[k].spec.edges|, TargetsOf(es, k)) else []
  }

  ghost function ReferencesOf(es: seq<Entity>, k: nat): nat -> seq<Violation> {
    (j: nat) =>
      if !HasEdge(es, k, j) then []
      else match ReferenceOf(es, es[k].spec.edges[j])
        case Broken(kind) => [BadReference(k, j, kind)]
        case _ => If(es, Clash(k, j))
  }

  ghost function References(es: seq<Entity>): nat -> seq<Violation> {
    (k: nat) => if k < |es| then Collect(|es[k].spec.edges|, ReferencesOf(es, k)) else []
  }

  /** All of them. */
  ghost function Everything(es: seq<Entity>): seq<Violation> {
    (Collect(|es|, Names(es)) + Collect(|es|, Marks(es)) + Collect(|es|, Indexes(es)) + Collect(|es|, Targets(es)))
    + Collect(|es|, References(es))
  }

  // ---- each pass tells them ----

  lemma IfTold(es: seq<Entity>, v: Violation, ds: seq<Diagnostic>)
    requires ds == if Violates(es, v) then [Report(es, v)] else []
    ensures Tells(Says(es), ds, If(es, v))
  {
  }

  lemma NamesAreTold(es: seq<Entity>)
    ensures Tells(Says(es), Gather(|es|, NameDiag(es)), Collect(|es|, Names(es)))
  {
    forall k: nat | k < |es| ensures Tells(Says(es), NameDiag(es)(k), Names(es)(k)) {
      RedefinesIffNamedBefore(es, k);
      IfTold(es, RepeatedName(k), NameDiag(es)(k));
    }
    GatherTells(Says(es), |es|, NameDiag(es), Names(es));
  }

  lemma MarkIsTold(es: seq<Entity>, k: nat, f: nat)
    requires HasField(es, k, f)
    ensures Tells(Says(es), MarkDiag(es[k])(f), MarksOf(es, k)(f))
  {
    MarkedAgainIffMarkedBefore(es[k], f);
    IfTold(es, ExtraMark(k, f), MarkDiag(es[k])(f));
  }

  lemma MarksOfAreTold(es: seq<Entity>, k: nat)
    requires k < |es|
    ensures Tells(Says(es), MarkDiags(es)(k), Marks(es)(k))
  {
    var d, m := MarkDiag(es[k]), MarksOf(es, k);
    forall f: nat | f < |es[k].spec.fields| ensures Tells(Says(es), d(f), m(f)) {
      MarkIsTold(es, k, f);
    }
    GatherTells(Says(es), |es[k].spec.fields|, d, m);
  }

  lemma MarksAreTold(es: seq<Entity>)
    ensures Tells(Says(es), Gather(|es|, MarkDiags(es)), Collect(|es|, Marks(es)))
  {
    forall k: nat | k < |es| ensures Tells(Says(es), MarkDiags(es)(k), Marks(es)(k)) {
      MarksOfAreTold(es, k);
    }
    GatherTells(Says(es), |es|, MarkDiags(es), Marks(es));
  }

  lemma {:induction false} FindPropAnswers(props: seq<Prop>, ref: Ref)
    ensures RefMeets(props, ref) <==> Answers(props, ref)
    ensures FindProp(props, ref.name).Some? <==> exists j :: 0 <= j < |props| && props[j].Name() == ref.name
  {
    if props != [] {
      FindPropAnswers(props[1..], ref);
      if props[0].Name() == ref.name {
        assert RefMeets(props, ref) ==> Answers(props, ref) by {
          assert props[0].Name() == ref.name;
        }
      } else {
        AnswersLater(props, ref);
        if j :| 0 <= j < |props| && props[j].Name() == ref.name {
          assert props[1..][j - 1].Name() == ref.name;
        }
      }
    }
  }

  lemma AnswersLater(props: seq<Prop>, ref: Ref)
    requires props != [] && props[0].Name() != ref.name
    ensures Answers(props, ref) <==> Answers(props[1..], ref)
  {
    if Answers(props[1..], ref) {
      var j :| 0 <= j < |props[1..]| && props[1..][j].Name() == ref.name && props[1..][j].Number() == ref.number
        && forall i :: 0 <= i < j ==> props[1..][i].Name() != ref.name;
      assert props[j + 1].Name() == ref.name;
      forall i | 0 <= i < j + 1 ensures props[i].Name() != ref.name {
        assert i > 0 ==> props[i] == props[1..][i - 1];
      }
    }
    if Answers(props, ref) {
      var j :| 0 <= j < |props| && props[j].Name() == ref.name && props[j].Number() == ref.number
        && forall i :: 0 <= i < j ==> props[i].Name() != ref.name;
      assert props[1..][j - 1].Name() == ref.name;
    }
  }

  lemma RefIsTold(es: seq<Entity>, k: nat, i: nat, n: nat)
    requires HasRef(es, k, i, n)
    ensures Tells(Says(es), RefDiag(es[k], PropsOf(es[k]), es[k].spec.indexes[i])(n), RefsOf(es, k, i)(n))
  {
    FindPropAnswers(PropsOf(es[k]), es[k].spec.indexes[i].spec.refs[n]);
    IfTold(es, MissedRef(k, i, n), RefDiag(es[k], PropsOf(es[k]), es[k].spec.indexes[i])(n));
  }

  lemma RefsAreTold(es: seq<Entity>, k: nat, i: nat)
    requires HasIndex(es, k, i)
    ensures var idx := es[k].spec.indexes[i]; var n := |idx.spec.refs|;
      Tells(Says(es), Gather(n, RefDiag(es[k], PropsOf(es[k]), idx)), Collect(n, RefsOf(es, k, i)))
  {
    var idx := es[k].spec.indexes[i];
    var d, v := RefDiag(es[k], PropsOf(es[k]), idx), RefsOf(es, k, i);
    forall n: nat | n < |idx.spec.refs| ensures Tells(Says(es), d(n), v(n)) {
      RefIsTold(es, k, i, n);
    }
    GatherTells(Says(es), |idx.spec.refs|, d, v);
  }

  lemma IndexIsTold(es: seq<Entity>, k: nat, i: nat)
    requires HasIndex(es, k, i)
    ensures Tells(Says(es), IndexDiag(es[k], PropsOf(es[k]))(i), IndexesOf(es, k)(i))
  {
    var refs := es[k].spec.indexes[i].spec.refs;
    var none, missed := If(es, NoRefs(k, i)), Collect(|refs|, RefsOf(es, k, i));
    if refs == [] {
      assert none + missed == none;
      IfTold(es, NoRefs(k, i), IndexDiag(es[k], PropsOf(es[k]))(i));
    } else {
      assert none + missed == missed;
      RefsAreTold(es, k, i);
    }
  }

  lemma IndexesAreTold(es: seq<Entity>)
    ensures Tells(Says(es), Gather(|es|, IndexDiags(es)), Collect(|es|, Indexes(es)))
  {
    forall k: nat | k < |es| ensures Tells(Says(es), IndexDiags(es)(k), Indexes(es)(k)) {
      var d, x := IndexDiag(es[k], PropsOf(es[k])), IndexesOf(es, k);
      forall i: nat | i < |es[k].spec.indexes| ensures Tells(Says(es), d(i), x(i)) {
        IndexIsTold(es, k, i);
      }
      GatherTells(Says(es), |es[k].spec.indexes|, d, x);
    }
    GatherTells(Says(es), |es|, IndexDiags(es), Indexes(es));
  }

  lemma TargetIsMissing(es: seq<Entity>, name: string)
    ensures EntityNamed(es, name).None? <==> forall i :: 0 <= i < |es| ==> es[i].spec.fullName != name
  {
    if EntityNamed(es, name).Some? {
      var i :| 0 <= i < |es| && es[i] == EntityNamed(es, name).value;
    } else {
      assert forall i :: 0 <= i < |es| ==> es[i] in es;
    }
  }

  lemma TargetIsTold(es: seq<Entity>, k: nat, j: nat)
    requires HasEdge(es, k, j)
    ensures Tells(Says(es), TargetDiag(es, es[k])(j), TargetsOf(es, k)(j))
  {
    TargetIsMissing(es, es[k].spec.edges[j].spec.targetName);
    IfTold(es, MissingTarget(k, j), TargetDiag(es, es[k])(j));
  }

  lemma TargetsOfAreTold(es: seq<Entity>, k: nat)
    requires k < |es|
    ensures Tells(Says(es), TargetDiags(es)(k), Targets(es)(k))
  {
    var d, t := TargetDiag(es, es[k]), TargetsOf(es, k);
    forall j: nat | j < |es[k].spec.edges| ensures Tells(Says(es), d(j), t(j)) {
      TargetIsTold(es, k, j);
    }
    GatherTells(Says(es), |es[k].spec.edges|, d, t);
  }

  lemma TargetsAreTold(es: seq<Entity>)
    ensures Tells(Says(es), Gather(|es|, TargetDiags(es)), Collect(|es|, Targets(es)))
  {
    forall k: nat | k < |es| ensures Tells(Says(es), TargetDiags(es)(k), Targets(es)(k)) {
      TargetsOfAreTold(es, k);
    }
    GatherTells(Says(es), |es|, TargetDiags(es), Targets(es));
  }

  // ---- declarations by entity and edge ----

  /** Where edge j of entity k is among the declarations. */
  ghost function Place(es: seq<Entity>, k: nat, j: nat): nat
    requires k <= |es|
  {
    |Decls(es[..k])| + j
  }

  lemma {:induction false} DeclsOfFirst(es: seq<Entity>, k: nat)
    requires k <= |es|
    ensures Decls(es[..k]) <= Decls(es)
  {
    if k < |es| {
      assert es[..|es| - 1][..k] == es[..k];
      DeclsOfFirst(es[..|es| - 1], k);
    } else {
      assert es[..k] == es;
    }
  }

  lemma PlaceIsNext(es: seq<Entity>, k: nat)
    requires k < |es|
    ensures Decls(es[..k + 1]) == Decls(es[..k]) + DeclsOf(es[k])
    ensures Place(es, k + 1, 0) == Place(es, k, |es[k].spec.edges|)
  {
    assert es[..k + 1][..k] == es[..k];
    MapAt(DeclOf(es[k].spec.fullName), es[k].spec.edges);
  }

  lemma DeclAt(es: seq<Entity>, k: nat, j: nat)
    requires HasEdge(es, k, j)
    ensures Place(es, k, j) < |Decls(es)|
    ensures var ed := es[k].spec.edges[j];
      Decls(es)[Place(es, k, j)] == Decl(JoinPath(es[k].spec.fullName, ed.spec.names.proto), ed)
  {
    PlaceIsNext(es, k);
    DeclsOfFirst(es, k + 1);
    MapAt(DeclOf(es[k].spec.fullName), es[k].spec.edges);
    assert Decls(es)[Place(es, k, j)] == Decls(es[..k + 1])[Place(es, k, j)];
  }

  lemma {:induction false} EdgeAtPlace(es: seq<Entity>, k: nat, i: nat) returns (k': nat, j': nat)
    requires k <= |es| && i < Place(es, k, 0)
    ensures k' < k && HasEdge(es, k', j') && i == Place(es, k', j')
  {
    PlaceIsNext(es, k - 1);
    if i < Place(es, k - 1, 0) {
      k', j' := EdgeAtPlace(es, k - 1, i);
    } else {
      k', j' := k - 1, i - Place(es, k - 1, 0);
    }
  }

  lemma EarlierIsBefore(es: seq<Entity>, k': nat, j': nat, k: nat, j: nat)
    requires HasEdge(es, k', j') && HasEdge(es, k, j) && Before(k', j', k, j)
    ensures Place(es, k', j') < Place(es, k, j)
  {
    if k' < k {
      PlaceIsNext(es, k');
      assert es[..k][..k' + 1] == es[..k' + 1];
      DeclsOfFirst(es[..k], k' + 1);
    }
  }

  /** An edge of the schema, by where it is. */
  lemma PairedIsAt(es: seq<Entity>, ed: Edge) returns (t: nat, x: nat)
    requires ReferenceOf(es, ed).Paired?
    ensures HasEdge(es, t, x) && es[t].spec.edges[x] == ReferenceOf(es, ed).other && NamesEdge(es, ed, t, x)
  {
    PairedIsNamed(es, ed);
    var target := EntityNamed(es, ed.spec.targetName).value;
    t :| t < |es| && es[t] == target;
    x :| x < |target.spec.edges| && target.spec.edges[x] == ReferenceOf(es, ed).other;
    ReferenceIsSaid(es, ed, ReferenceOf(es, ed));
  }

  lemma NamedIsPaired(es: seq<Entity>, ed: Edge, t: nat, x: nat)
    requires NamesEdge(es, ed, t, x)
    ensures ReferenceOf(es, ed) == Paired(es[t].spec.edges[x])
  {
    ReferenceIsSaid(es, ed, Paired(es[t].spec.edges[x]));
  }

  lemma OneToOneIsMade(es: seq<Entity>, d: Decl, half: Edge)
    ensures MakesOneToOne(es, d.edge, half) <==>
      OneToOne(es, d) && (half == d.edge || half == ReferenceOf(es, d.edge).other)
  {
    if OneToOne(es, d) {
      var t, x := PairedIsAt(es, d.edge);
    }
    forall t: nat, x: nat | NamesEdge(es, d.edge, t, x)
      ensures ReferenceOf(es, d.edge) == Paired(es[t].spec.edges[x])
    {
      NamedIsPaired(es, d.edge, t, x);
    }
  }

  lemma OneToOneIsBefore(es: seq<Entity>, k: nat, j: nat, i: nat, half: Edge)
    requires HasEdge(es, k, j) && i == Place(es, k, j) && i < |Decls(es)|
    ensures InOneToOne(es, Decls(es)[..i], half) <==> OneToOneBefore(es, k, j, half)
  {
    var ds := Decls(es)[..i];
    if InOneToOne(es, ds, half) {
      var d :| d in ds && OneToOne(es, d) && (half == d.edge || half == ReferenceOf(es, d.edge).other);
      var n :| 0 <= n < i && ds[n] == d;
      var k', j' := EarlierEdge(es, k, j, n);
      OneToOneIsMade(es, d, half);
    }
    if OneToOneBefore(es, k, j, half) {
      BeforeIsOneToOne(es, k, j, i, half);
    }
  }

  lemma BeforeIsOneToOne(es: seq<Entity>, k: nat, j: nat, i: nat, half: Edge)
    requires HasEdge(es, k, j) && i == Place(es, k, j) && i < |Decls(es)| && OneToOneBefore(es, k, j, half)
    ensures InOneToOne(es, Decls(es)[..i], half)
  {
    var k': nat, j': nat :| Before(k', j', k, j) && MadeAt(es, k', j', half);
    var n := Place(es, k', j');
    EarlierIsBefore(es, k', j', k, j);
    DeclAt(es, k', j');
    var d := Decls(es)[n];
    OneToOneIsMade(es, d, half);
    assert Decls(es)[..i][n] == d;
  }

  lemma EarlierEdge(es: seq<Entity>, k: nat, j: nat, n: nat) returns (k': nat, j': nat)
    requires HasEdge(es, k, j) && n < Place(es, k, j)
    ensures HasEdge(es, k', j') && Before(k', j', k, j)
    ensures n < |Decls(es)| && Decls(es)[n].edge == es[k'].spec.edges[j']
  {
    if n < Place(es, k, 0) {
      k', j' := EdgeAtPlace(es, k, n);
    } else {
      k', j' := k, n - Place(es, k, 0);
    }
    DeclAt(es, k', j');
  }

  lemma ClashIsAt(es: seq<Entity>, k: nat, j: nat)
    requires HasEdge(es, k, j)
    ensures Place(es, k, j) < |Decls(es)| && (Clashes(es, Decls(es), Place(es, k, j)) <==> ClashesAt(es, k, j))
  {
    var ed := es[k].spec.edges[j];
    DeclAt(es, k, j);
    if ReferenceOf(es, ed).Paired? {
      var t, x := PairedIsAt(es, ed);
      OneToOneIsBefore(es, k, j, Place(es, k, j), es[t].spec.edges[x]);
    }
    forall t: nat, x: nat | NamesEdge(es, ed, t, x) ensures ReferenceOf(es, ed) == Paired(es[t].spec.edges[x]) {
      NamedIsPaired(es, ed, t, x);
    }
  }

  lemma ReferenceIsTold(es: seq<Entity>, k: nat, j: nat)
    requires HasEdge(es, k, j)
    ensures Tells(Says(es), LinkDiag(es, Decls(es))(Place(es, k, j)), ReferencesOf(es, k)(j))
  {
    var ed := es[k].spec.edges[j];
    DeclAt(es, k, j);
    ClashIsAt(es, k, j);
    var ds := LinkDiag(es, Decls(es))(Place(es, k, j));
    if ReferenceOf(es, ed).Broken? {
      var v := BadReference(k, j, ReferenceOf(es, ed).kind);
      ReferenceIsSaid(es, ed, ReferenceOf(es, ed));
      assert Violates(es, v);
      IfTold(es, v, ds);
    } else {
      IfTold(es, Clash(k, j), ds);
    }
  }

  /** Entity by entity and edge by edge, d records what refs calls for. */
  ghost predicate EachTold(
    es: seq<Entity>, says: (Diagnostic, Violation) -> bool, d: nat -> seq<Diagnostic>,
    refs: nat -> nat -> seq<Violation>)
  {
    forall k: nat, j: nat {:trigger refs(k)(j)} :: HasEdge(es, k, j) ==> Tells(says, d(Place(es, k, j)), refs(k)(j))
  }

  ghost function EdgesOf(es: seq<Entity>, refs: nat -> nat -> seq<Violation>): nat -> seq<Violation> {
    (k: nat) => if k < |es| then Collect(|es[k].spec.edges|, refs(k)) else []
  }

  lemma EdgesOfOneAreTold(
    es: seq<Entity>, k: nat, says: (Diagnostic, Violation) -> bool, d: nat -> seq<Diagnostic>,
    vs: seq<Violation>, f: nat -> seq<Violation>)
    requires k < |es| && Tells(says, Gather(Place(es, k, 0), d), vs)
    requires forall j: nat {:trigger f(j)} :: HasEdge(es, k, j) ==> Tells(says, d(Place(es, k, j)), f(j))
    ensures Tells(says, Gather(Place(es, k + 1, 0), d), vs + Collect(|es[k].spec.edges|, f))
  {
    var m, n := Place(es, k, 0), |es[k].spec.edges|;
    forall j: nat {:trigger f(j)} | j < n ensures Tells(says, d(m + j), f(j)) {
      assert HasEdge(es, k, j) && Place(es, k, j) == m + j;
    }
    GatherTellsOn(says, m, vs, n, d, f);
    PlaceIsNext(es, k);
  }

  lemma EdgesOfNext(
    es: seq<Entity>, k: nat, says: (Diagnostic, Violation) -> bool, d: nat -> seq<Diagnostic>,
    refs: nat -> nat -> seq<Violation>, vs: seq<Violation>)
    requires k < |es| && EachTold(es, says, d, refs) && Tells(says, Gather(Place(es, k, 0), d), vs)
    ensures Tells(says, Gather(Place(es, k + 1, 0), d), vs + EdgesOf(es, refs)(k))
  {
    var f := refs(k);
    forall j: nat {:trigger f(j)} | HasEdge(es, k, j) ensures Tells(says, d(Place(es, k, j)), f(j)) {
      assert f(j) == refs(k)(j);
    }
    EdgesOfOneAreTold(es, k, says, d, vs, f);
  }

  lemma NoneIsTold(es: seq<Entity>, says: (Diagnostic, Violation) -> bool, d: nat -> seq<Diagnostic>)
    ensures Tells(says, Gather(Place(es, 0, 0), d), [])
  {
    assert es[..0] == [];
  }

  lemma {:induction false} EdgesAreTold(
    es: seq<Entity>, k: nat, says: (Diagnostic, Violation) -> bool, d: nat -> seq<Diagnostic>,
    refs: nat -> nat -> seq<Violation>)
    requires k <= |es| && EachTold(es, says, d, refs)
    ensures Tells(says, Gather(Place(es, k, 0), d), Collect(k, EdgesOf(es, refs)))
  {
    var f := EdgesOf(es, refs);
    if k == 0 {
      NoneIsTold(es, says, d);
      assert Collect(k, f) == [];
    } else {
      EdgesAreTold(es, k - 1, says, d, refs);
      EdgesOfNext(es, k - 1, says, d, refs, Collect(k - 1, f));
      assert Collect(k, f) == Collect(k - 1, f) + f(k - 1);
    }
  }

  lemma ReferencesAreEdges(es: seq<Entity>)
    ensures Collect(|es|, References(es)) == Collect(|es|, EdgesOf(es, k => ReferencesOf(es, k)))
  {
    CollectAgrees(|es|, References(es), EdgesOf(es, k => ReferencesOf(es, k)));
  }

  lemma EachIsTold(es: seq<Entity>)
    ensures EachTold(es, Says(es), LinkDiag(es, Decls(es)), k => ReferencesOf(es, k))
  {
    forall k: nat, j: nat | HasEdge(es, k, j)
      ensures Tells(Says(es), LinkDiag(es, Decls(es))(Place(es, k, j)), ReferencesOf(es, k)(j))
    {
      ReferenceIsTold(es, k, j);
    }
  }

  lemma ReferencesAreTold(es: seq<Entity>)
    ensures Tells(Says(es), LinkAll(es, Decls(es)).found, Collect(|es|, References(es)))
  {
    LinkDiagsInOrder(es, Decls(es));
    EachIsTold(es);
    EdgesAreTold(es, |es|, Says(es), LinkDiag(es, Decls(es)), k => ReferencesOf(es, k));
    ReferencesAreEdges(es);
    assert es[..|es|] == es;
  }

  lemma EverythingIsTold(es: seq<Entity>)
    ensures Tells(Says(es), BuildDiags(es), Everything(es))
  {
    NamesAreTold(es);
    MarksAreTold(es);
    IndexesAreTold(es);
    TargetsAreTold(es);
    ReferencesAreTold(es);
    var n, m := Gather(|es|, NameDiag(es)), Gather(|es|, MarkDiags(es));
    var i, t := Gather(|es|, IndexDiags(es)), Gather(|es|, TargetDiags(es));
    var vn, vm := Collect(|es|, Names(es)), Collect(|es|, Marks(es));
    var vi, vt := Collect(|es|, Indexes(es)), Collect(|es|, Targets(es));
    var r, vr := LinkAll(es, Decls(es)).found, Collect(|es|, References(es));
    TellsBoth(Says(es), n, vn, m, vm);
    TellsBoth(Says(es), n + m, vn + vm, i, vi);
    TellsBoth(Says(es), n + m + i, vn + vm + vi, t, vt);
    TellsBoth(Says(es), n + m + i + t, vn + vm + vi + vt, r, vr);
  }

  // ---- and they are all of them, each once ----

  ghost predicate Kind(v: Violation, kind: nat) {
    At(v).pass == kind
  }

  /** vs holds what p picks of one kind, and each once and in order. p is given, so that
      what a violation is stays out of the proofs that only gather them. */
  ghost predicate Holding(p: Violation -> bool, vs: seq<Violation>, kind: nat) {
    InOrder(Less, vs) && forall v :: v in vs <==> p(v) && Kind(v, kind)
  }

  ghost predicate HoldingOf(p: Violation -> bool, vs: seq<Violation>, kind: nat, k: nat) {
    InOrder(Less, vs) && forall v :: v in vs <==> p(v) && Kind(v, kind) && v.entity == k
  }

  ghost predicate HoldingAt(p: Violation -> bool, vs: seq<Violation>, kind: nat, k: nat, j: nat) {
    InOrder(Less, vs) && forall v :: v in vs <==> p(v) && Kind(v, kind) && v.entity == k && At(v).member == j
  }

  lemma CollectOf(p: Violation -> bool, n: nat, f: nat -> seq<Violation>, kind: nat, k: nat)
    requires forall j: nat :: j < n ==> HoldingAt(p, f(j), kind, k, j)
    requires forall v {:trigger p(v)} :: p(v) && Kind(v, kind) && v.entity == k ==> At(v).member < n
    ensures HoldingOf(p, Collect(n, f), kind, k)
  {
    forall j {:trigger f(j)} | 0 <= j < n
      ensures InOrder(Less, f(j)) && forall v :: v in f(j) ==> Kind(v, kind) && v.entity == k && At(v).member == j
    {
      assert HoldingAt(p, f(j), kind, k, j);
    }
    CollectOrdered(n, f, Less, (v: Violation) => At(v).member, (v: Violation) => Kind(v, kind) && v.entity == k);
    forall v ensures v in Collect(n, f) <==> p(v) && Kind(v, kind) && v.entity == k {
      CollectMembers(n, f, v);
      if p(v) && Kind(v, kind) && v.entity == k {
        assert HoldingAt(p, f(At(v).member), kind, k, At(v).member);
      }
      if j: nat :| j < n && v in f(j) {
        assert HoldingAt(p, f(j), kind, k, j);
      }
    }
  }

  lemma CollectHolding(p: Violation -> bool, n: nat, f: nat -> seq<Violation>, kind: nat)
    requires forall k: nat :: k < n ==> HoldingOf(p, f(k), kind, k)
    requires forall v {:trigger p(v)} :: p(v) && Kind(v, kind) ==> v.entity < n
    ensures Holding(p, Collect(n, f), kind)
  {
    forall k {:trigger f(k)} | 0 <= k < n
      ensures InOrder(Less, f(k)) && forall v :: v in f(k) ==> Kind(v, kind) && v.entity == k
    {
      assert HoldingOf(p, f(k), kind, k);
    }
    CollectOrdered(n, f, Less, (v: Violation) => v.entity, (v: Violation) => Kind(v, kind));
    forall v ensures v in Collect(n, f) <==> p(v) && Kind(v, kind) {
      CollectMembers(n, f, v);
      if p(v) && Kind(v, kind) {
        assert HoldingOf(p, f(v.entity), kind, v.entity);
      }
      if k: nat :| k < n && v in f(k) {
        assert HoldingOf(p, f(k), kind, k);
      }
    }
  }

  lemma FivePasses(p: Violation -> bool, n: seq<Violation>, m: seq<Violation>, i: seq<Violation>, t: seq<Violation>,
                   r: seq<Violation>)
    requires Holding(p, n, 0) && Holding(p, m, 1) && Holding(p, i, 2) && Holding(p, t, 3) && Holding(p, r, 4)
    ensures InOrder(Less, n + m + i + t + r) && forall v :: v in n + m + i + t + r <==> p(v)
  {
    OrderedBoth(Less, n, m);
    OrderedBoth(Less, n + m, i);
    OrderedBoth(Less, n + m + i, t);
    OrderedBoth(Less, n + m + i + t, r);
  }

  ghost function Violating(es: seq<Entity>): Violation -> bool {
    (v: Violation) => Violates(es, v)
  }

  lemma NamesHold(es: seq<Entity>)
    ensures Holding(Violating(es), Collect(|es|, Names(es)), 0)
  {
    CollectHolding(Violating(es), |es|, Names(es), 0);
  }

  lemma MarksOfHold(es: seq<Entity>, k: nat)
    requires k < |es|
    ensures HoldingOf(Violating(es), Marks(es)(k), 1, k)
  {
    CollectOf(Violating(es), |es[k].spec.fields|, MarksOf(es, k), 1, k);
  }

  lemma MarksHold(es: seq<Entity>)
    ensures Holding(Violating(es), Collect(|es|, Marks(es)), 1)
  {
    forall k: nat | k < |es| ensures HoldingOf(Violating(es), Marks(es)(k), 1, k) {
      MarksOfHold(es, k);
    }
    CollectHolding(Violating(es), |es|, Marks(es), 1);
  }

  lemma RefsHold(es: seq<Entity>, k: nat, i: nat)
    requires HasIndex(es, k, i)
    ensures InOrder(Less, IndexesOf(es, k)(i))
    ensures forall v :: v in IndexesOf(es, k)(i) <==> Violates(es, v) && Kind(v, 2) && v.entity == k && v.index == i
  {
    var n := |es[k].spec.indexes[i].spec.refs|;
    CollectOrdered(n, RefsOf(es, k, i), Less, (v: Violation) => if v.MissedRef? then v.ref else 0,
                   (v: Violation) => v.MissedRef? && v.entity == k && v.index == i);
    forall v ensures v in IndexesOf(es, k)(i) <==> Violates(es, v) && Kind(v, 2) && v.entity == k && v.index == i {
      CollectMembers(n, RefsOf(es, k, i), v);
      if v.MissedRef? && Violates(es, v) && v.entity == k && v.index == i {
        assert v in RefsOf(es, k, i)(v.ref);
      }
    }
  }

  lemma IndexesOfHold(es: seq<Entity>, k: nat)
    requires k < |es|
    ensures HoldingOf(Violating(es), Indexes(es)(k), 2, k)
  {
    forall i: nat | i < |es[k].spec.indexes| ensures HoldingAt(Violating(es), IndexesOf(es, k)(i), 2, k, i) {
      RefsHold(es, k, i);
    }
    CollectOf(Violating(es), |es[k].spec.indexes|, IndexesOf(es, k), 2, k);
  }

  lemma IndexesHold(es: seq<Entity>)
    ensures Holding(Violating(es), Collect(|es|, Indexes(es)), 2)
  {
    forall k: nat | k < |es| ensures HoldingOf(Violating(es), Indexes(es)(k), 2, k) {
      IndexesOfHold(es, k);
    }
    CollectHolding(Violating(es), |es|, Indexes(es), 2);
  }

  lemma TargetsOfHold(es: seq<Entity>, k: nat)
    requires k < |es|
    ensures HoldingOf(Violating(es), Targets(es)(k), 3, k)
  {
    CollectOf(Violating(es), |es[k].spec.edges|, TargetsOf(es, k), 3, k);
  }

  lemma TargetsHold(es: seq<Entity>)
    ensures Holding(Violating(es), Collect(|es|, Targets(es)), 3)
  {
    forall k: nat | k < |es| ensures HoldingOf(Violating(es), Targets(es)(k), 3, k) {
      TargetsOfHold(es, k);
    }
    CollectHolding(Violating(es), |es|, Targets(es), 3);
  }

  lemma BadIsBroken(es: seq<Entity>, k: nat, j: nat, kind: Diag.Kind)
    requires HasEdge(es, k, j)
    ensures Violates(es, BadReference(k, j, kind)) <==> ReferenceOf(es, es[k].spec.edges[j]) == Broken(kind)
  {
    ReferenceIsSaid(es, es[k].spec.edges[j], Broken(kind));
  }

  lemma ClashIsPaired(es: seq<Entity>, k: nat, j: nat)
    requires HasEdge(es, k, j) && Violates(es, Clash(k, j))
    ensures ReferenceOf(es, es[k].spec.edges[j]).Paired?
  {
    var t: nat, x: nat :| NamesEdge(es, es[k].spec.edges[j], t, x);
    NamedIsPaired(es, es[k].spec.edges[j], t, x);
  }

  lemma ReferenceHolds(es: seq<Entity>, k: nat, j: nat)
    requires HasEdge(es, k, j)
    ensures InOrder(Less, ReferencesOf(es, k)(j))
    ensures forall v :: v in ReferencesOf(es, k)(j) <==> Violates(es, v) && Kind(v, 4) && v.entity == k && v.edge == j
  {
    var ours, r := ReferencesOf(es, k)(j), ReferenceOf(es, es[k].spec.edges[j]);
    if Violates(es, Clash(k, j)) {
      ClashIsPaired(es, k, j);
    }
    forall v ensures v in ours <==> Violates(es, v) && Kind(v, 4) && v.entity == k && v.edge == j {
      match v
      case BadReference(_, _, kind) => BadIsBroken(es, k, j, kind);
      case _ =>
    }
  }

  lemma ReferencesOfHold(es: seq<Entity>, k: nat)
    requires k < |es|
    ensures HoldingOf(Violating(es), References(es)(k), 4, k)
  {
    forall j: nat | j < |es[k].spec.edges| ensures HoldingAt(Violating(es), ReferencesOf(es, k)(j), 4, k, j) {
      ReferenceHolds(es, k, j);
    }
    CollectOf(Violating(es), |es[k].spec.edges|, ReferencesOf(es, k), 4, k);
  }

  lemma ReferencesHold(es: seq<Entity>)
    ensures Holding(Violating(es), Collect(|es|, References(es)), 4)
  {
    forall k: nat | k < |es| ensures HoldingOf(Violating(es), References(es)(k), 4, k) {
      ReferencesOfHold(es, k);
    }
    CollectHolding(Violating(es), |es|, References(es), 4);
  }

  lemma EverythingOnce(es: seq<Entity>)
    ensures InOrder(Less, Everything(es)) && forall v :: v in Everything(es) <==> Violating(es)(v)
  {
    NamesHold(es);
    MarksHold(es);
    IndexesHold(es);
    TargetsHold(es);
    ReferencesHold(es);
    var n, m := Collect(|es|, Names(es)), Collect(|es|, Marks(es));
    var i, t := Collect(|es|, Indexes(es)), Collect(|es|, Targets(es));
    FivePasses(Violating(es), n, m, i, t, Collect(|es|, References(es)));
  }

  /** Build's report is a census: every violation there is, each of them once and in
      its place, and one diagnostic for each. */
  lemma ReportIsCensus(es: seq<Entity>) returns (vs: seq<Violation>)
    ensures Distinct(vs) && InOrder(Less, vs) && forall v :: v in vs <==> Violates(es, v)
    ensures |BuildDiags(es)| == |vs| && forall i :: 0 <= i < |vs| ==> BuildDiags(es)[i] == Report(es, vs[i])
  {
    vs := Everything(es);
    EverythingOnce(es);
    InOrderIsDistinct(Less, vs);
    forall v ensures v in vs <==> Violates(es, v) {
      assert v in vs <==> Violating(es)(v);
    }
    EverythingIsTold(es);
  }
}
