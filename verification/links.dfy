/** The back-reference pass of schema.Build (schema/schema.go:197-245) as a fold
    over declarations: what it links, what it makes unique, what it refuses, and
    exactly when the order of the declarations matters. */
module Links {
  import opened Wrappers
  import opened Sorting
  import opened Diag
  import opened Model
  import opened Wiring

  /** One edge declaration, with the path its diagnostics carry. */
  datatype Decl = Decl(path: string, edge: Edge)

  /** What a `from` comes to before anything has been linked. */
  datatype Reference = Silent | Broken(kind: Kind) | Paired(other: Edge)

  function ReferenceOf(es: seq<Entity>, ed: Edge): Reference {
    var target := EntityNamed(es, ed.spec.targetName);
    if ed.spec.fromName == "" || target.None? then Silent
    else
      var p := FindProp(PropsOf(target.value), ed.spec.fromName);
      if p.None? then Broken(NoBackReference)
      else if p.value.Number() != ed.spec.fromNumber then Broken(BackReferenceNumber)
      else if p.value.FieldProp? then Broken(BackReferenceIsField)
      else Paired(p.value.edge)
  }

  // ---- what a `from` comes to, said without looking it up ----

  /** The first entity of the name the edge points at. */
  ghost predicate TargetAt(es: seq<Entity>, ed: Edge, t: nat) {
    && t < |es| && es[t].spec.fullName == ed.spec.targetName
    && forall i :: 0 <= i < t ==> es[i].spec.fullName != ed.spec.targetName
  }

  ghost predicate NoTarget(es: seq<Entity>, ed: Edge) {
    forall i :: 0 <= i < |es| ==> es[i].spec.fullName != ed.spec.targetName
  }

  /** The first member of the name. */
  ghost predicate FirstNamed(props: seq<Prop>, name: string, j: nat) {
    j < |props| && props[j].Name() == name && forall i :: 0 <= i < j ==> props[i].Name() != name
  }

  /** What the first member of the name means for an edge whose `from` names it. */
  ghost predicate MemberIs(p: Prop, number: int, r: Reference) {
    match p
    case FieldProp(f) => r == Broken(if f.spec.number == number then BackReferenceIsField else BackReferenceNumber)
    case EdgeProp(o) => r == if o.spec.number == number then Paired(o) else Broken(BackReferenceNumber)
  }

  ghost predicate TargetSays(props: seq<Prop>, name: string, number: int, r: Reference) {
    || (r == Broken(NoBackReference) && forall j :: 0 <= j < |props| ==> props[j].Name() != name)
    || exists j: nat :: FirstNamed(props, name, j) && MemberIs(props[j], number, r)
  }

  /** An edge that names no back reference, or points at nothing, is not heard.
      Otherwise its target says. */
  ghost predicate ReferenceIs(es: seq<Entity>, ed: Edge, r: Reference) {
    if ed.spec.fromName == "" || NoTarget(es, ed) then r == Silent
    else exists t: nat :: TargetAt(es, ed, t) && TargetSays(PropsOf(es[t]), ed.spec.fromName, ed.spec.fromNumber, r)
  }

  lemma {:induction false} EntityNamedIsFirst(es: seq<Entity>, ed: Edge, t: nat)
    requires TargetAt(es, ed, t)
    ensures EntityNamed(es, ed.spec.targetName) == Some(es[t])
  {
    if t > 0 {
      assert es[0].spec.fullName != ed.spec.targetName;
      EntityNamedIsFirst(es[1..], ed, t - 1);
    }
  }

  lemma SomeTarget(es: seq<Entity>, ed: Edge) returns (t: nat)
    requires exists i :: 0 <= i < |es| && es[i].spec.fullName == ed.spec.targetName
    ensures TargetAt(es, ed, t)
  {
    t := 0;
    while es[t].spec.fullName != ed.spec.targetName
      invariant t < |es| && forall i :: 0 <= i < t ==> es[i].spec.fullName != ed.spec.targetName
      decreases |es| - t
    {
      t := t + 1;
    }
  }

  lemma {:induction false} FindPropIsFirst(props: seq<Prop>, name: string, j: nat)
    requires FirstNamed(props, name, j)
    ensures FindProp(props, name) == Some(props[j])
  {
    if j > 0 {
      assert props[0].Name() != name;
      FindPropIsFirst(props[1..], name, j - 1);
    }
  }

  lemma SomeFirst(props: seq<Prop>, name: string) returns (j: nat)
    requires exists i :: 0 <= i < |props| && props[i].Name() == name
    ensures FirstNamed(props, name, j)
  {
    j := 0;
    while props[j].Name() != name
      invariant j < |props| && forall i :: 0 <= i < j ==> props[i].Name() != name
      decreases |props| - j
    {
      j := j + 1;
    }
  }

  lemma TargetSaysIt(props: seq<Prop>, name: string, number: int, r: Reference)
    ensures TargetSays(props, name, number, r) <==>
      var p := FindProp(props, name);
      r == if p.None? then Broken(NoBackReference)
           else if p.value.Number() != number then Broken(BackReferenceNumber)
           else if p.value.FieldProp? then Broken(BackReferenceIsField) else Paired(p.value.edge)
  {
    if i :| 0 <= i < |props| && props[i].Name() == name {
      var j := SomeFirst(props, name);
      forall j': nat | FirstNamed(props, name, j') ensures j' == j {
        assert !(j < j') && !(j' < j);
      }
      FindPropIsFirst(props, name, j);
    }
  }

  /** A `from` comes to what its target says, and to nothing else: so a broken one is
      reported as the one thing that is wrong with it. */
  lemma ReferenceIsSaid(es: seq<Entity>, ed: Edge, r: Reference)
    ensures ReferenceIs(es, ed, r) <==> r == ReferenceOf(es, ed)
  {
    if i :| 0 <= i < |es| && es[i].spec.fullName == ed.spec.targetName {
      var t := SomeTarget(es, ed);
      EntityNamedIsFirst(es, ed, t);
      forall t': nat | TargetAt(es, ed, t') ensures t' == t {
        assert !(t < t') && !(t' < t);
      }
      TargetSaysIt(PropsOf(es[t]), ed.spec.fromName, ed.spec.fromNumber, r);
    }
  }

  /** The inverse an edge can only have: the edge its `from` names on its
      target, by both name and number. */
  lemma PairedIsNamed(es: seq<Entity>, ed: Edge)
    requires ReferenceOf(es, ed).Paired?
    ensures var o := ReferenceOf(es, ed).other; var target := EntityNamed(es, ed.spec.targetName);
      && target.Some? && target.value.spec.fullName == ed.spec.targetName
      && o in target.value.spec.edges
      && o.spec.names.proto == ed.spec.fromName && o.spec.number == ed.spec.fromNumber
  {
    PropsHaveEdges(EntityNamed(es, ed.spec.targetName).value, ReferenceOf(es, ed).other);
  }

  /** The state the pass writes: links, the flags it turned on, and what it
      refused. */
  datatype Graph = Graph(inverse: map<Edge, Edge>, reverse: map<Edge, Edge>, unique: set<Edge>, found: seq<Diagnostic>)

  const BLANK := Graph(map[], map[], {}, [])

  predicate UniqueNow(g: Graph, ed: Edge) {
    ed.spec.unique || ed in g.unique
  }

  /** What the pass says about a declaration it does not link. */
  function Refusal(es: seq<Entity>, g: Graph, d: Decl): seq<Diagnostic> {
    match ReferenceOf(es, d.edge)
    case Silent => []
    case Broken(kind) => [Diagnostic(d.path, kind)]
    case Paired(o) => if UniqueNow(g, o) && d.edge.spec.list then [Diagnostic(d.path, BackReferenceUnique)] else []
  }

  /** Both directions are recorded, and a pair with neither side repeated is
      unique at both ends. */
  function Tie(g: Graph, ed: Edge, other: Edge): Graph {
    Graph(g.inverse[ed := other], g.reverse[other := ed],
          if !ed.spec.list && !other.spec.list then g.unique + {ed, other} else g.unique,
          g.found)
  }

  function Link(es: seq<Entity>, g: Graph, d: Decl): Graph {
    var r := ReferenceOf(es, d.edge);
    if r.Paired? && Refusal(es, g, d) == [] then Tie(g, d.edge, r.other)
    else g.(found := g.found + Refusal(es, g, d))
  }

  function LinkAll(es: seq<Entity>, ds: seq<Decl>): Graph {
    if ds == [] then BLANK else Link(es, LinkAll(es, ds[..|ds| - 1]), ds[|ds| - 1])
  }

  lemma LinkOneMore(es: seq<Entity>, ds: seq<Decl>, d: Decl)
    ensures LinkAll(es, ds + [d]) == Link(es, LinkAll(es, ds), d)
  {
    assert (ds + [d])[..|ds + [d]| - 1] == ds;
  }

  // ---- what the fold comes to, said without the fold ----

  /** d names a back reference and neither side of the pair is repeated. */
  predicate OneToOne(es: seq<Entity>, d: Decl) {
    var r := ReferenceOf(es, d.edge);
    r.Paired? && !d.edge.spec.list && !r.other.spec.list
  }

  /** ed is a side of a one-to-one pair declared in ds. */
  predicate InOneToOne(es: seq<Entity>, ds: seq<Decl>, ed: Edge) {
    exists d | d in ds :: OneToOne(es, d) && (ed == d.edge || ed == ReferenceOf(es, d.edge).other)
  }

  /** Declaration i is repeated, and its other half is unique by the time the
      pass gets there: declared so, or made so by a pair before it. */
  predicate Clashes(es: seq<Entity>, ds: seq<Decl>, i: nat)
    requires i < |ds|
  {
    var r := ReferenceOf(es, ds[i].edge);
    r.Paired? && ds[i].edge.spec.list && (r.other.spec.unique || InOneToOne(es, ds[..i], r.other))
  }

  function LinkDiag(es: seq<Entity>, ds: seq<Decl>): nat -> seq<Diagnostic> {
    (i: nat) =>
      if i >= |ds| then []
      else match ReferenceOf(es, ds[i].edge)
        case Broken(kind) => [Diagnostic(ds[i].path, kind)]
        case _ => if Clashes(es, ds, i) then [Diagnostic(ds[i].path, BackReferenceUnique)] else []
  }

  predicate Linked(es: seq<Entity>, ds: seq<Decl>, i: nat)
    requires i < |ds|
  {
    ReferenceOf(es, ds[i].edge).Paired? && !Clashes(es, ds, i)
  }

  lemma InOneToOneGrows(es: seq<Entity>, ds: seq<Decl>, d: Decl, ed: Edge)
    ensures InOneToOne(es, ds + [d], ed) <==>
      InOneToOne(es, ds, ed) || (OneToOne(es, d) && (ed == d.edge || ed == ReferenceOf(es, d.edge).other))
  {
    assert forall x :: x in ds + [d] <==> x in ds || x == d;
  }

  /** The flags turned on are exactly the sides of the one-to-one pairs. */
  lemma {:induction false} UniqueIsOneToOne(es: seq<Entity>, ds: seq<Decl>, ed: Edge)
    ensures ed in LinkAll(es, ds).unique <==> InOneToOne(es, ds, ed)
  {
    if ds != [] {
      var init, d := ds[..|ds| - 1], ds[|ds| - 1];
      assert ds == init + [d];
      UniqueIsOneToOne(es, init, ed);
      InOneToOneGrows(es, init, d, ed);
    }
  }

  lemma PrefixSameDiag(es: seq<Entity>, ds: seq<Decl>, d: Decl, i: nat)
    requires i < |ds|
    ensures LinkDiag(es, ds + [d])(i) == LinkDiag(es, ds)(i)
  {
    assert (ds + [d])[..i] == ds[..i];
    assert (ds + [d])[i] == ds[i];
  }

  lemma {:induction false} PrefixSameDiags(es: seq<Entity>, ds: seq<Decl>, d: Decl, n: nat)
    requires n <= |ds|
    ensures Gather(n, LinkDiag(es, ds + [d])) == Gather(n, LinkDiag(es, ds))
  {
    var f, g := LinkDiag(es, ds + [d]), LinkDiag(es, ds);
    forall i: nat | i < n ensures f(i) == g(i) {
      PrefixSameDiag(es, ds, d, i);
    }
    GatherAgrees(n, f, g);
  }

  lemma LastDiag(es: seq<Entity>, ds: seq<Decl>, d: Decl)
    ensures LinkDiag(es, ds + [d])(|ds|) == Refusal(es, LinkAll(es, ds), d)
  {
    assert (ds + [d])[..|ds|] == ds;
    if ReferenceOf(es, d.edge).Paired? {
      UniqueIsOneToOne(es, ds, ReferenceOf(es, d.edge).other);
    }
  }

  lemma LinkFound(es: seq<Entity>, g: Graph, d: Decl)
    ensures Link(es, g, d).found == g.found + Refusal(es, g, d)
  {
  }

  /** The diagnostics, one a violation, in declaration order: whether a
      declaration is refused depends on what was declared before it and on
      nothing else the pass did. */
  lemma {:induction false} LinkDiagsInOrder(es: seq<Entity>, ds: seq<Decl>)
    ensures LinkAll(es, ds).found == Gather(|ds|, LinkDiag(es, ds))
  {
    if ds != [] {
      var init, d := ds[..|ds| - 1], ds[|ds| - 1];
      assert ds == init + [d];
      LinkDiagsInOrder(es, init);
      PrefixSameDiags(es, init, d, |init|);
      LastDiag(es, init, d);
      LinkFound(es, LinkAll(es, init), d);
    }
  }

  /** An edge that is an inverse has a reverse, and the reverse of o has o as its
      inverse. */
  ghost predicate BothWays(inverse: map<Edge, Edge>, reverse: map<Edge, Edge>) {
    && (forall ed | ed in inverse :: inverse[ed] in reverse)
    && (forall o | o in reverse :: reverse[o] in inverse && inverse[reverse[o]] == o)
  }

  /** And an inverse is the edge its declaration names. */
  ghost predicate Agree(es: seq<Entity>, g: Graph) {
    && (forall ed | ed in g.inverse :: ReferenceOf(es, ed) == Paired(g.inverse[ed]))
    && BothWays(g.inverse, g.reverse)
  }

  lemma TieBothWays(inverse: map<Edge, Edge>, reverse: map<Edge, Edge>, ed: Edge, other: Edge)
    requires BothWays(inverse, reverse) && (ed in inverse ==> inverse[ed] == other)
    ensures BothWays(inverse[ed := other], reverse[other := ed])
  {
  }

  lemma TieAgrees(es: seq<Entity>, g: Graph, ed: Edge, other: Edge)
    requires Agree(es, g) && ReferenceOf(es, ed) == Paired(other)
    ensures Agree(es, Tie(g, ed, other))
  {
    TieBothWays(g.inverse, g.reverse, ed, other);
  }

  /** However many declarations have been linked, refused ones included, the links
      agree. */
  lemma {:induction false} LinksAgree(es: seq<Entity>, ds: seq<Decl>)
    ensures Agree(es, LinkAll(es, ds))
  {
    if ds != [] {
      var g, d := LinkAll(es, ds[..|ds| - 1]), ds[|ds| - 1];
      LinksAgree(es, ds[..|ds| - 1]);
      if ReferenceOf(es, d.edge).Paired? && Refusal(es, g, d) == [] {
        TieAgrees(es, g, d.edge, ReferenceOf(es, d.edge).other);
      }
    }
  }

  ghost predicate Accepts(es: seq<Entity>, ds: seq<Decl>) {
    LinkAll(es, ds).found == []
  }

  /** The verdict: every `from` resolves and none clashes. */
  lemma AcceptsIffNothingClashes(es: seq<Entity>, ds: seq<Decl>)
    ensures Accepts(es, ds) <==>
      forall i: nat :: i < |ds| ==> !ReferenceOf(es, ds[i].edge).Broken? && !Clashes(es, ds, i)
  {
    LinkDiagsInOrder(es, ds);
    GatherEmpty(|ds|, LinkDiag(es, ds));
    forall i: nat | i < |ds|
      ensures LinkDiag(es, ds)(i) == [] <==> !ReferenceOf(es, ds[i].edge).Broken? && !Clashes(es, ds, i)
    {
    }
  }

  lemma LinkedInPrefix(es: seq<Entity>, ds: seq<Decl>, n: nat)
    requires n <= |ds|
    ensures forall i: nat :: i < n ==> (Linked(es, ds[..n], i) <==> Linked(es, ds, i))
  {
    forall i: nat | i < n ensures Linked(es, ds[..n], i) <==> Linked(es, ds, i) {
      assert ds[..n][..i] == ds[..i];
    }
  }

  lemma LinkTies(es: seq<Entity>, ds: seq<Decl>, n: nat)
    requires n < |ds|
    ensures Linked(es, ds, n) <==> ReferenceOf(es, ds[n].edge).Paired? && Refusal(es, LinkAll(es, ds[..n]), ds[n]) == []
  {
    if ReferenceOf(es, ds[n].edge).Paired? {
      UniqueIsOneToOne(es, ds[..n], ReferenceOf(es, ds[n].edge).other);
    }
  }

  lemma LinkInverses(es: seq<Entity>, g: Graph, d: Decl, ed: Edge)
    ensures ed in Link(es, g, d).inverse <==>
      ed in g.inverse || (ed == d.edge && ReferenceOf(es, d.edge).Paired? && Refusal(es, g, d) == [])
  {
  }

  lemma {:induction false} LinkedEdgesHaveInverses(es: seq<Entity>, ds: seq<Decl>, ed: Edge)
    ensures ed in LinkAll(es, ds).inverse <==> exists i: nat :: i < |ds| && ds[i].edge == ed && Linked(es, ds, i)
  {
    if ds != [] {
      var n := |ds| - 1;
      LinkedEdgesHaveInverses(es, ds[..n], ed);
      LinkedInPrefix(es, ds, n);
      LinkTies(es, ds, n);
      LinkInverses(es, LinkAll(es, ds[..n]), ds[n], ed);
      if ed in LinkAll(es, ds[..n]).inverse {
        var i: nat :| i < n && ds[..n][i].edge == ed && Linked(es, ds[..n], i);
        assert Linked(es, ds, i);
      }
      if i: nat :| i < |ds| && ds[i].edge == ed && Linked(es, ds, i) {
        if i < n {
          assert ds[..n][i].edge == ed && Linked(es, ds[..n], i);
        }
      }
    }
  }

  // ---- when the order of the declarations matters ----

  /** No order is accepted: a `from` that does not resolve, or a repeated edge
      whose other half was declared unique. */
  ghost predicate Hopeless(es: seq<Entity>, ds: seq<Decl>) {
    exists d | d in ds :: var r := ReferenceOf(es, d.edge);
      r.Broken? || (r.Paired? && d.edge.spec.list && r.other.spec.unique)
  }

  /** A repeated edge names an edge that a one-to-one pair will make unique. */
  ghost predicate Conflicts(es: seq<Entity>, d: Decl, ds: seq<Decl>) {
    var r := ReferenceOf(es, d.edge);
    r.Paired? && d.edge.spec.list && !r.other.spec.unique && InOneToOne(es, ds, r.other)
  }

  ghost predicate Conflict(es: seq<Entity>, ds: seq<Decl>) {
    exists d | d in ds :: Conflicts(es, d, ds)
  }

  lemma HopelessIsRefused(es: seq<Entity>, ds: seq<Decl>)
    requires Hopeless(es, ds)
    ensures !Accepts(es, ds)
  {
    AcceptsIffNothingClashes(es, ds);
    var d :| d in ds && var r := ReferenceOf(es, d.edge);
      r.Broken? || (r.Paired? && d.edge.spec.list && r.other.spec.unique);
    var i: nat :| i < |ds| && ds[i] == d;
    assert ReferenceOf(es, ds[i].edge).Broken? || Clashes(es, ds, i);
  }

  lemma NoConflictIsAccepted(es: seq<Entity>, ds: seq<Decl>)
    requires !Conflict(es, ds) && !Hopeless(es, ds)
    ensures Accepts(es, ds)
  {
    AcceptsIffNothingClashes(es, ds);
    forall i: nat | i < |ds| ensures !ReferenceOf(es, ds[i].edge).Broken? && !Clashes(es, ds, i) {
      assert ds[i] in ds && !Conflicts(es, ds[i], ds);
      assert forall d | d in ds[..i] :: d in ds;
    }
  }

  lemma ReorderingKeepsConflict(es: seq<Entity>, p: seq<Decl>, q: seq<Decl>)
    requires multiset(p) == multiset(q)
    ensures Hopeless(es, p) <==> Hopeless(es, q)
    ensures Conflict(es, p) <==> Conflict(es, q)
    ensures forall ed :: InOneToOne(es, p, ed) <==> InOneToOne(es, q, ed)
  {
    SameBagSameMembers(p, q);
    assert forall d | d in p :: Conflicts(es, d, p) <==> Conflicts(es, d, q);
  }

  predicate Repeated(d: Decl) {
    d.edge.spec.list
  }

  predicate Single(d: Decl) {
    !d.edge.spec.list
  }

  function RepeatedFirst(ds: seq<Decl>): seq<Decl> {
    Filter(Repeated, ds) + Filter(Single, ds)
  }

  function RepeatedLast(ds: seq<Decl>): seq<Decl> {
    Filter(Single, ds) + Filter(Repeated, ds)
  }

  lemma RepeatedFirstSplits(ds: seq<Decl>)
    ensures multiset(RepeatedFirst(ds)) == multiset(ds)
    ensures forall k :: 0 <= k < |Filter(Repeated, ds)| ==> Repeated(Filter(Repeated, ds)[k])
    ensures forall k :: 0 <= k < |Filter(Single, ds)| ==> Single(Filter(Single, ds)[k])
    ensures forall k :: 0 <= k < |RepeatedFirst(ds)| ==> RepeatedFirst(ds)[k] in ds
  {
    FilterSplits(Repeated, Single, ds);
    FilterMembers(Repeated, ds);
    FilterMembers(Single, ds);
    SameBagSameMembers(RepeatedFirst(ds), ds);
  }

  lemma VerdictAgrees(es: seq<Entity>, p: seq<Decl>, q: seq<Decl>)
    requires multiset(p) == multiset(q) && (Hopeless(es, p) || !Conflict(es, p))
    ensures Accepts(es, p) <==> Accepts(es, q)
  {
    ReorderingKeepsConflict(es, p, q);
    if Hopeless(es, p) {
      HopelessIsRefused(es, p);
      HopelessIsRefused(es, q);
    } else {
      NoConflictIsAccepted(es, p);
      NoConflictIsAccepted(es, q);
    }
  }

  /** On acceptance every edge whose `from` resolves has an inverse, and no other. */
  lemma AcceptedInverses(es: seq<Entity>, ds: seq<Decl>, ed: Edge)
    requires Accepts(es, ds)
    ensures ed in LinkAll(es, ds).inverse <==> ReferenceOf(es, ed).Paired? && exists d | d in ds :: d.edge == ed
  {
    AcceptsIffNothingClashes(es, ds);
    LinkedEdgesHaveInverses(es, ds, ed);
    if ReferenceOf(es, ed).Paired? && exists d | d in ds :: d.edge == ed {
      var d :| d in ds && d.edge == ed;
      var i: nat :| i < |ds| && ds[i] == d;
      assert Linked(es, ds, i);
    }
  }

  ghost predicate NoSharedHalf(es: seq<Entity>, ds: seq<Decl>) {
    forall d, d' | d in ds && d' in ds && ReferenceOf(es, d.edge).Paired? ::
      ReferenceOf(es, d.edge) == ReferenceOf(es, d'.edge) ==> d.edge == d'.edge
  }

  /** Two accepted orders leave every edge the same inverse and the same unique
      flag. */
  lemma GraphIgnoresOrder(es: seq<Entity>, p: seq<Decl>, q: seq<Decl>, ed: Edge)
    requires multiset(p) == multiset(q) && Accepts(es, p) && Accepts(es, q)
    ensures var g, h := LinkAll(es, p), LinkAll(es, q);
      && (ed in g.inverse <==> ed in h.inverse)
      && (ed in g.inverse ==> g.inverse[ed] == h.inverse[ed])
      && (ed in g.unique <==> ed in h.unique)
  {
    SameBagSameMembers(p, q);
    AcceptedInverses(es, p, ed);
    AcceptedInverses(es, q, ed);
    LinksAgree(es, p);
    LinksAgree(es, q);
    ReorderingKeepsConflict(es, p, q);
    UniqueIsOneToOne(es, p, ed);
    UniqueIsOneToOne(es, q, ed);
  }

  /** And the same reverse, when no edge is named by two others. */
  lemma ReversesIgnoreOrder(es: seq<Entity>, p: seq<Decl>, q: seq<Decl>, o: Edge)
    requires multiset(p) == multiset(q) && Accepts(es, p) && Accepts(es, q) && NoSharedHalf(es, p)
    ensures var g, h := LinkAll(es, p), LinkAll(es, q);
      && (o in g.reverse <==> o in h.reverse)
      && (o in g.reverse ==> g.reverse[o] == h.reverse[o])
  {
    LinksAgree(es, p);
    LinksAgree(es, q);
    var g, h := LinkAll(es, p), LinkAll(es, q);
    if o in g.reverse {
      GraphIgnoresOrder(es, p, q, g.reverse[o]);
    }
    if o in h.reverse {
      GraphIgnoresOrder(es, p, q, h.reverse[o]);
      SameHalf(es, p, g.reverse[o], h.reverse[o]);
    }
  }

  lemma SameHalf(es: seq<Entity>, p: seq<Decl>, a: Edge, b: Edge)
    requires Accepts(es, p) && NoSharedHalf(es, p)
    requires a in LinkAll(es, p).inverse && b in LinkAll(es, p).inverse
    requires LinkAll(es, p).inverse[a] == LinkAll(es, p).inverse[b]
    ensures a == b
  {
    LinksAgree(es, p);
    AcceptedInverses(es, p, a);
    AcceptedInverses(es, p, b);
  }

  /** On acceptance, some repeated edge is left with a unique inverse exactly
      when a repeated edge names a side of a one-to-one pair: the order was
      lucky, and the check that would have refused it ran too early. */
  lemma UniqueInverseOfRepeated(es: seq<Entity>, ds: seq<Decl>)
    requires Accepts(es, ds)
    ensures (exists d | d in ds :: var g := LinkAll(es, ds);
               d.edge.spec.list && d.edge in g.inverse && UniqueNow(g, g.inverse[d.edge]))
       <==> Conflict(es, ds)
  {
    var g := LinkAll(es, ds);
    if Hopeless(es, ds) {
      HopelessIsRefused(es, ds);
    }
    LinksAgree(es, ds);
    forall d | d in ds
      ensures Conflicts(es, d, ds) <==> d.edge.spec.list && d.edge in g.inverse && UniqueNow(g, g.inverse[d.edge])
    {
      AcceptedInverses(es, ds, d.edge);
      if ReferenceOf(es, d.edge).Paired? {
        UniqueIsOneToOne(es, ds, ReferenceOf(es, d.edge).other);
      }
    }
  }

  // ---- when every edge is in one pair ----

  ghost function Sides(es: seq<Entity>, d: Decl): set<Edge>
    requires ReferenceOf(es, d.edge).Paired?
  {
    {d.edge, ReferenceOf(es, d.edge).other}
  }

  /** Every edge takes part in at most one declared pair. Both halves may
      declare it. */
  ghost predicate OnePairEach(es: seq<Entity>, ds: seq<Decl>) {
    forall d, d' | d in ds && d' in ds && ReferenceOf(es, d.edge).Paired? && ReferenceOf(es, d'.edge).Paired? ::
      Sides(es, d) == Sides(es, d') || Sides(es, d) !! Sides(es, d')
  }

  lemma OnePairNeverConflicts(es: seq<Entity>, ds: seq<Decl>)
    requires OnePairEach(es, ds)
    ensures !Conflict(es, ds) && NoSharedHalf(es, ds)
  {
    forall d | d in ds && ReferenceOf(es, d.edge).Paired? && d.edge.spec.list
      ensures !InOneToOne(es, ds, ReferenceOf(es, d.edge).other)
    {
      var o := ReferenceOf(es, d.edge).other;
      forall d' | d' in ds && OneToOne(es, d') ensures o !in Sides(es, d') {
        assert d.edge in Sides(es, d) && d.edge !in Sides(es, d');
      }
    }
    forall d, d'
      | d in ds && d' in ds && ReferenceOf(es, d.edge).Paired? && ReferenceOf(es, d.edge) == ReferenceOf(es, d'.edge)
      ensures d.edge == d'.edge
    {
      assert ReferenceOf(es, d.edge).other in Sides(es, d) * Sides(es, d');
      assert d.edge in Sides(es, d') && d'.edge in Sides(es, d);
    }
  }

  /** With every edge in one pair, no order of the declarations changes the
      verdict or anything in the graph, and no repeated edge has a unique
      inverse. */
  lemma OnePairIgnoresOrder(es: seq<Entity>, p: seq<Decl>, q: seq<Decl>, ed: Edge)
    requires multiset(p) == multiset(q) && OnePairEach(es, p)
    ensures Accepts(es, p) <==> Accepts(es, q)
    ensures Accepts(es, p) ==> var g, h := LinkAll(es, p), LinkAll(es, q);
      && (ed in g.inverse <==> ed in h.inverse) && (ed in g.inverse ==> g.inverse[ed] == h.inverse[ed])
      && (ed in g.reverse <==> ed in h.reverse) && (ed in g.reverse ==> g.reverse[ed] == h.reverse[ed])
      && (ed in g.unique <==> ed in h.unique)
      && (ed.spec.list && ed in g.inverse ==> !UniqueNow(g, g.inverse[ed]))
  {
    OnePairNeverConflicts(es, p);
    VerdictAgrees(es, p, q);
    if Accepts(es, p) {
      GraphIgnoresOrder(es, p, q, ed);
      ReversesIgnoreOrder(es, p, q, ed);
      UniqueInverseOfRepeated(es, p);
      AcceptedInverses(es, p, ed);
    }
  }

  // ---- the declarations of a whole schema ----

  function DeclOf(fullName: string): Edge -> Decl {
    (ed: Edge) => Decl(JoinPath(fullName, ed.spec.names.proto), ed)
  }

  function DeclsOf(e: Entity): seq<Decl> {
    Map(DeclOf(e.spec.fullName), e.spec.edges)
  }

  /** Entity by entity, each in the order its edges are declared. */
  function Decls(es: seq<Entity>): seq<Decl> {
    if es == [] then [] else Decls(es[..|es| - 1]) + DeclsOf(es[|es| - 1])
  }

  /** Everything schema.Build reports about these entities. */
  function BuildDiags(es: seq<Entity>): seq<Diagnostic> {
    StructureDiags(es) + LinkAll(es, Decls(es)).found
  }
}
