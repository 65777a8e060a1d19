/** Which of the edges that name one other edge the back-reference pass leaves as
    its reverse (schema/schema.go:233-234), over every order in which a schema can
    declare them. */
module Halves {
  import opened Wrappers
  import opened Sorting
  import opened Text
  import opened Model
  import opened Links
  import opened Precedence
  import opened Orders

  predicate Names(es: seq<Entity>, d: Decl, o: Edge) {
    ReferenceOf(es, d.edge) == Paired(o)
  }

  // ---- the last one stays ----

  ghost predicate LastToName(es: seq<Entity>, ds: seq<Decl>, i: nat, o: Edge) {
    i < |ds| && Names(es, ds[i], o) && forall j :: i < j < |ds| ==> !Names(es, ds[j], o)
  }

  lemma PrefixIsAccepted(es: seq<Entity>, ds: seq<Decl>)
    requires ds != [] && Accepts(es, ds)
    ensures Accepts(es, ds[..|ds| - 1]) && Refusal(es, LinkAll(es, ds[..|ds| - 1]), ds[|ds| - 1]) == []
  {
  }

  lemma {:induction false} LastIsKept(es: seq<Entity>, ds: seq<Decl>, i: nat, o: Edge)
    requires Accepts(es, ds) && LastToName(es, ds, i, o)
    ensures o in LinkAll(es, ds).reverse && LinkAll(es, ds).reverse[o] == ds[i].edge
  {
    var n := |ds| - 1;
    PrefixIsAccepted(es, ds);
    if i < n {
      LastIsKept(es, ds[..n], i, o);
      assert !Names(es, ds[n], o);
    }
  }

  lemma {:induction false} SomeLastToName(es: seq<Entity>, ds: seq<Decl>, i: nat, o: Edge) returns (k: nat)
    requires i < |ds| && Names(es, ds[i], o)
    ensures i <= k && LastToName(es, ds, k, o)
    decreases |ds| - i
  {
    if j: nat :| i < j < |ds| && Names(es, ds[j], o) {
      k := SomeLastToName(es, ds, j, o);
    } else {
      k := i;
    }
  }

  /** d is what the edge it names has as its reverse. */
  ghost predicate Keeps(es: seq<Entity>, ds: seq<Decl>, d: Decl)
    requires ReferenceOf(es, d.edge).Paired?
  {
    var o, g := ReferenceOf(es, d.edge).other, LinkAll(es, ds);
    o in g.reverse && g.reverse[o] == d.edge
  }

  lemma KeptIsLast(es: seq<Entity>, ds: seq<Decl>, i: nat, j: nat)
    requires Accepts(es, ds) && EdgesOnce(ds) && i < j < |ds|
    requires ReferenceOf(es, ds[i].edge).Paired? && Keeps(es, ds, ds[i])
    ensures ReferenceOf(es, ds[j].edge) != ReferenceOf(es, ds[i].edge)
  {
    var o := ReferenceOf(es, ds[i].edge).other;
    if Names(es, ds[j], o) {
      var k := SomeLastToName(es, ds, j, o);
      LastIsKept(es, ds, k, o);
    }
  }

  // ---- which can be last ----

  /** An edge of the group names what d names. */
  ghost predicate Rivals(es: seq<Entity>, g: seq<Decl>, d: Decl) {
    exists i :: 0 <= i < |g| && ReferenceOf(es, g[i].edge) == ReferenceOf(es, d.edge)
  }

  /** What is asked of the order of the entities so that d, of group b, is the last
      to name its other half. */
  ghost function AsksFor(es: seq<Entity>, p: Layout, b: nat, d: Decl): (nat, nat) -> bool {
    (x: nat, y: nat) => Asks(es, p)(x, y) || (x < |p| && y == b && x != b && Rivals(es, p[x], d))
  }

  /** d is repeated, and an edge beside it makes a one-to-one pair with the half
      that d names: d would have to come both before it and after it. */
  ghost predicate Torn(es: seq<Entity>, g: seq<Decl>, d: Decl) {
    Repeated(d) && exists d' | d' in g :: OneToOne(es, d') && ReferenceOf(es, d'.edge) == ReferenceOf(es, d.edge)
  }

  ghost predicate CanBeLast(es: seq<Entity>, p: Layout, b: nat, d: Decl)
    requires b < |p|
  {
    !Hopeless(es, Flat(p)) && !Cyclic(AsksFor(es, p, b, d), |p|) && !Torn(es, p[b], d)
  }

  /** An accepted order that keeps p[b][i], and where things went in it. */
  ghost predicate Kept(es: seq<Entity>, p: Layout, q: Layout, place: seq<nat>, b: nat, i: nat) {
    && DeclaredOnce(p) && DeclaredOnce(q) && |place| == |p| && Placed(p, q, place) && Accepts(es, Flat(q))
    && b < |p| && i < |p[b]| && ReferenceOf(es, p[b][i].edge).Paired? && Keeps(es, Flat(q), p[b][i])
  }

  lemma NothingLaterNames(
    es: seq<Entity>, p: Layout, q: Layout, place: seq<nat>, b: nat, i: nat, j: nat, k: nat, j': nat, k': nat)
    requires Kept(es, p, q, place, b, i)
    requires j < |q| && k < |q[j]| && j' < |q| && k' < |q[j']| && Earlier(j, k, j', k') && q[j][k] == p[b][i]
    ensures ReferenceOf(es, q[j'][k'].edge) != ReferenceOf(es, p[b][i].edge)
  {
    FlatAt(q, j, k);
    FlatAt(q, j', k');
    EarlierInFlat(q, j, k, j', k');
    KeptIsLast(es, Flat(q), Offset(q, j) + k, Offset(q, j') + k');
  }

  lemma RivalIsEarlier(es: seq<Entity>, p: Layout, q: Layout, place: seq<nat>, b: nat, i: nat, a: nat)
    requires Kept(es, p, q, place, b, i) && a < |p| && a != b && Rivals(es, p[a], p[b][i])
    ensures place[a] < place[b]
  {
    var l :| 0 <= l < |p[a]| && ReferenceOf(es, p[a][l].edge) == ReferenceOf(es, p[b][i].edge);
    PlacesDiffer(p, q, place, a, l, b);
    var k' := InMatched(p[a], q[place[a]], l);
    var k := InMatched(p[b], q[place[b]], i);
    if place[b] < place[a] {
      NothingLaterNames(es, p, q, place, b, i, place[b], k, place[a], k');
    }
  }

  lemma KeptIsNotTorn(es: seq<Entity>, p: Layout, q: Layout, place: seq<nat>, b: nat, i: nat)
    requires Kept(es, p, q, place, b, i)
    ensures !Torn(es, p[b], p[b][i])
  {
    var d := p[b][i];
    if Torn(es, p[b], d) {
      var d' :| d' in p[b] && OneToOne(es, d') && ReferenceOf(es, d'.edge) == ReferenceOf(es, d.edge);
      var l :| 0 <= l < |p[b]| && p[b][l] == d';
      var k' := InMatched(p[b], q[place[b]], l);
      var k := InMatched(p[b], q[place[b]], i);
      if k < k' {
        NothingLaterNames(es, p, q, place, b, i, place[b], k, place[b], k');
      } else {
        OutOfOrderIsRefused(es, q, place[b], k', place[b], k);
      }
    }
  }

  lemma KeptIsPossible(es: seq<Entity>, p: Layout, q: Layout, b: nat, i: nat)
    requires DeclaredOnce(p) && Arranged(p, q) && Accepts(es, Flat(q))
    requires b < |p| && i < |p[b]| && ReferenceOf(es, p[b][i].edge).Paired? && Keeps(es, Flat(q), p[b][i])
    ensures CanBeLast(es, p, b, p[b][i])
  {
    ArrangedDeclaredOnce(p, q);
    ArrangedKeepsConflict(es, p, q);
    if Hopeless(es, Flat(q)) {
      HopelessIsRefused(es, Flat(q));
    }
    var place := Places(p, q);
    KeptIsNotTorn(es, p, q, place, b, i);
    var before := AsksFor(es, p, b, p[b][i]);
    forall x, y | 0 <= x < |p| && 0 <= y < |p| && before(x, y) ensures place[x] < place[y] {
      if Asks(es, p)(x, y) {
        AcceptedHeeds(es, p, q, place, x, y);
      } else {
        RivalIsEarlier(es, p, q, place, b, i, x);
      }
    }
    PlacedIsAcyclic(before, |p|, place);
  }

  // ---- an order in which it is ----

  /** g with d as late as the edges it has to precede allow. */
  ghost function DelayedTo(es: seq<Entity>, g: seq<Decl>, d: Decl): seq<Decl>
    requires ReferenceOf(es, d.edge).Paired?
  {
    var rest := Without(d, g);
    if Repeated(d) && !ReferenceOf(es, d.edge).other.spec.list then
      (Filter(Repeated, rest) + [d]) + Filter(Single, rest)
    else
      RepeatedFirst(rest) + [d]
  }

  lemma DelayedPermutes(es: seq<Entity>, g: seq<Decl>, d: Decl)
    requires ReferenceOf(es, d.edge).Paired? && multiset(g)[d] == 1
    ensures multiset(DelayedTo(es, g, d)) == multiset(g)
  {
    var rest := Without(d, g);
    WithoutOne(d, g);
    FilterSplits(Repeated, Single, rest);
  }

  lemma DelayedIsInOrder(es: seq<Entity>, g: seq<Decl>, d: Decl)
    requires ReferenceOf(es, d.edge).Paired?
    ensures InOrder(es, DelayedTo(es, g, d))
  {
    var rest := Without(d, g);
    RepeatedFirstIsInOrder(es, rest);
    RepeatedFirstSplits(rest);
    if Repeated(d) && !ReferenceOf(es, d.edge).other.spec.list {
      AheadIsInOrder(es, Filter(Repeated, rest) + [d], Filter(Single, rest));
    } else {
      var ds := DelayedTo(es, g, d);
      forall j, i | 0 <= j < i < |ds| ensures !Binds(es, ds[i], ds[j]) {
        if i < |ds| - 1 {
          assert ds[i] == RepeatedFirst(rest)[i] && ds[j] == RepeatedFirst(rest)[j];
        }
      }
    }
  }

  lemma SinglesDoNotName(es: seq<Entity>, g: seq<Decl>, d: Decl, j: nat)
    requires ReferenceOf(es, d.edge).Paired? && !Torn(es, g, d) && Repeated(d)
    requires !ReferenceOf(es, d.edge).other.spec.list
    requires multiset(Without(d, g)) <= multiset(g) && j < |Filter(Single, Without(d, g))|
    ensures !Names(es, Filter(Single, Without(d, g))[j], ReferenceOf(es, d.edge).other)
  {
    var rest := Without(d, g);
    FilterMembers(Single, rest);
    var x := Filter(Single, rest)[j];
    assert x in multiset(rest) && x in g;
  }

  lemma DelayedIsLast(es: seq<Entity>, g: seq<Decl>, d: Decl) returns (k: nat)
    requires ReferenceOf(es, d.edge).Paired? && !Torn(es, g, d) && multiset(g)[d] == 1
    ensures k < |DelayedTo(es, g, d)| && DelayedTo(es, g, d)[k] == d
    ensures LastToName(es, DelayedTo(es, g, d), k, ReferenceOf(es, d.edge).other)
  {
    var rest, o := Without(d, g), ReferenceOf(es, d.edge).other;
    if Repeated(d) && !o.spec.list {
      WithoutOne(d, g);
      k := |Filter(Repeated, rest)|;
      forall j: nat | j < |Filter(Single, rest)| ensures !Names(es, Filter(Single, rest)[j], o) {
        SinglesDoNotName(es, g, d, j);
      }
    } else {
      k := |RepeatedFirst(rest)|;
    }
  }

  /** The groups in the given order, group b with d delayed. */
  ghost function LayOutFor(es: seq<Entity>, p: Layout, order: seq<nat>, b: nat, d: Decl): Layout
    requires ReferenceOf(es, d.edge).Paired? && forall k :: 0 <= k < |order| ==> order[k] < |p|
  {
    seq(|order|, k requires 0 <= k < |order| =>
      if order[k] == b then DelayedTo(es, p[order[k]], d) else RepeatedFirst(p[order[k]]))
  }

  lemma OnceInItsGroup(p: Layout, b: nat, i: nat)
    requires DeclaredOnce(p) && b < |p| && i < |p[b]|
    ensures multiset(p[b])[p[b][i]] == 1
  {
    forall k, l | 0 <= k < l < |p[b]| ensures p[b][k] != p[b][l] {
      FlatAt(p, b, k);
      FlatAt(p, b, l);
      EarlierInFlat(p, b, k, b, l);
    }
    DistinctByCount(p[b]);
  }

  lemma LaidOutFor(es: seq<Entity>, p: Layout, order: seq<nat>, b: nat, i: nat)
    requires DeclaredOnce(p) && b < |p| && i < |p[b]| && ReferenceOf(es, p[b][i].edge).Paired?
    requires multiset(order) == multiset(Upto(|p|)) && forall k :: 0 <= k < |order| ==> order[k] < |p|
    ensures var q := LayOutFor(es, p, order, b, p[b][i]);
      LaidBy(p, q, order) && forall k :: 0 <= k < |q| ==> InOrder(es, q[k])
  {
    var d := p[b][i];
    var q := LayOutFor(es, p, order, b, d);
    OnceInItsGroup(p, b, i);
    DelayedPermutes(es, p[b], d);
    DelayedIsInOrder(es, p[b], d);
    forall k | 0 <= k < |order| ensures multiset(q[k]) == multiset(p[order[k]]) && InOrder(es, q[k]) {
      RepeatedFirstIsInOrder(es, p[order[k]]);
    }
  }

  /** Heeding AsksFor, nothing in a later group names what d names. */
  lemma LaterGroupsDoNotName(
    es: seq<Entity>, p: Layout, q: Layout, order: seq<nat>, b: nat, d: Decl, kb: nat, j: nat, k': nat)
    requires LaidBy(p, q, order) && Heeds(AsksFor(es, p, b, d), order)
    requires kb < j < |order| && order[kb] == b && k' < |q[j]|
    ensures ReferenceOf(es, q[j][k'].edge) != ReferenceOf(es, d.edge)
  {
    OrderRepeatsNothing(p, order, kb, j);
    var l := InMatched(q[j], p[order[j]], k');
    assert p[order[j]][l] == q[j][k'];
    assert !AsksFor(es, p, b, d)(order[j], order[kb]);
    assert !Rivals(es, p[order[j]], d);
  }

  lemma LaidLast(es: seq<Entity>, p: Layout, q: Layout, order: seq<nat>, b: nat, d: Decl, kb: nat, k: nat)
    requires LaidBy(p, q, order) && Heeds(AsksFor(es, p, b, d), order) && ReferenceOf(es, d.edge).Paired?
    requires kb < |order| && order[kb] == b && k < |q[kb]| && q[kb][k] == d
    requires LastToName(es, q[kb], k, ReferenceOf(es, d.edge).other)
    ensures LastToName(es, Flat(q), Offset(q, kb) + k, ReferenceOf(es, d.edge).other)
    ensures Flat(q)[Offset(q, kb) + k] == d
  {
    var at := Offset(q, kb) + k;
    FlatAt(q, kb, k);
    forall j | at < j < |Flat(q)| ensures !Names(es, Flat(q)[j], ReferenceOf(es, d.edge).other) {
      var j', k' := GroupOf(q, j);
      EarlierInFlat(q, kb, k, j', k');
      if kb < j' {
        LaterGroupsDoNotName(es, p, q, order, b, d, kb, j', k');
      }
    }
  }

  lemma HeedsLess(es: seq<Entity>, p: Layout, b: nat, d: Decl, order: seq<nat>)
    requires Heeds(AsksFor(es, p, b, d), order)
    ensures Heeds(Asks(es, p), order)
  {
    forall i, j | 0 <= i < j < |order| ensures !Asks(es, p)(order[j], order[i]) {
      assert !AsksFor(es, p, b, d)(order[j], order[i]);
    }
  }

  lemma PlaceInOrder(order: seq<nat>, n: nat, b: nat) returns (k: nat)
    requires multiset(order) == multiset(Upto(n)) && b < n
    ensures k < |order| && order[k] == b
  {
    SameBagSameMembers(order, Upto(n));
    assert Upto(n)[b] in order;
    k :| 0 <= k < |order| && order[k] == b;
  }

  /** An order that heeds AsksFor, with d the last of its group to name what it
      names, keeps d. */
  lemma LaidOutIsKept(es: seq<Entity>, p: Layout, order: seq<nat>, b: nat, d: Decl, q: Layout, kb: nat, k: nat)
    requires LaidBy(p, q, order) && Heeds(AsksFor(es, p, b, d), order) && Accepts(es, Flat(q))
    requires ReferenceOf(es, d.edge).Paired? && kb < |order| && order[kb] == b && k < |q[kb]| && q[kb][k] == d
    requires LastToName(es, q[kb], k, ReferenceOf(es, d.edge).other)
    ensures Keeps(es, Flat(q), d)
  {
    LaidLast(es, p, q, order, b, d, kb, k);
    LastIsKept(es, Flat(q), Offset(q, kb) + k, ReferenceOf(es, d.edge).other);
  }

  lemma PossibleIsKept(es: seq<Entity>, p: Layout, b: nat, i: nat) returns (q: Layout)
    requires DeclaredOnce(p) && b < |p| && i < |p[b]| && ReferenceOf(es, p[b][i].edge).Paired?
    requires CanBeLast(es, p, b, p[b][i])
    ensures Arranged(p, q) && Accepts(es, Flat(q)) && Keeps(es, Flat(q), p[b][i])
  {
    var order := AcyclicHasOrder(AsksFor(es, p, b, p[b][i]), |p|);
    OrderIsInRange(order, |p|);
    q := LayOutFor(es, p, order, b, p[b][i]);
    LaidOutFor(es, p, order, b, i);
    HeedsLess(es, p, b, p[b][i], order);
    HeedingIsAccepted(es, p, q, order);
    OnceInItsGroup(p, b, i);
    var kb := PlaceInOrder(order, |p|, b);
    var k := DelayedIsLast(es, p[b], p[b][i]);
    LaidOutIsKept(es, p, order, b, p[b][i], q, kb, k);
  }

  /** Some accepted order leaves d as the reverse of the edge it names exactly when
      d can be the last to name it: what is asked of the entities, with every
      rival's entity asked to come before d's, does not go round, and d is not torn
      within its own. */
  lemma KeptIffCanBeLast(es: seq<Entity>, p: Layout, b: nat, i: nat)
    requires DeclaredOnce(p) && b < |p| && i < |p[b]| && ReferenceOf(es, p[b][i].edge).Paired?
    ensures (exists q :: Arranged(p, q) && Accepts(es, Flat(q)) && Keeps(es, Flat(q), p[b][i])) <==>
      CanBeLast(es, p, b, p[b][i])
  {
    if q :| Arranged(p, q) && Accepts(es, Flat(q)) && Keeps(es, Flat(q), p[b][i]) {
      KeptIsPossible(es, p, q, b, i);
    }
    if CanBeLast(es, p, b, p[b][i]) {
      var q := PossibleIsKept(es, p, b, i);
    }
  }

  // ---- when the reverses agree ----

  ghost function ReverseOf(es: seq<Entity>, p: Layout, o: Edge): Option<Edge> {
    var g := LinkAll(es, Flat(p));
    if o in g.reverse then Some(g.reverse[o]) else None
  }

  /** p[b][i] names o, and can be the last to. */
  ghost predicate Candidate(es: seq<Entity>, p: Layout, o: Edge, b: nat, i: nat) {
    b < |p| && i < |p[b]| && Names(es, p[b][i], o) && CanBeLast(es, p, b, p[b][i])
  }

  ghost predicate OneCandidate(es: seq<Entity>, p: Layout, o: Edge) {
    forall b: nat, i: nat, b': nat, i': nat | Candidate(es, p, o, b, i) && Candidate(es, p, o, b', i') ::
      p[b][i].edge == p[b'][i'].edge
  }

  /** Every accepted order leaves an edge the same reverse exactly when at most one
      of the edges that name it can be the last to. */
  lemma ReversesAgreeIff(es: seq<Entity>, p: Layout, o: Edge)
    requires DeclaredOnce(p)
    ensures (forall q, q' | Arranged(p, q) && Arranged(p, q') && Accepts(es, Flat(q)) && Accepts(es, Flat(q')) ::
               ReverseOf(es, q, o) == ReverseOf(es, q', o))
       <==> OneCandidate(es, p, o)
  {
    if OneCandidate(es, p, o) {
      forall q, q' | Arranged(p, q) && Arranged(p, q') && Accepts(es, Flat(q)) && Accepts(es, Flat(q'))
        ensures ReverseOf(es, q, o) == ReverseOf(es, q', o)
      {
        if ReverseOf(es, q, o).Some? {
          SameReverse(es, p, q, q', o);
        } else if ReverseOf(es, q', o).Some? {
          SameReverse(es, p, q', q, o);
        }
      }
    } else {
      var b: nat, i: nat, b': nat, i': nat :|
        Candidate(es, p, o, b, i) && Candidate(es, p, o, b', i') && p[b][i].edge != p[b'][i'].edge;
      var q := PossibleIsKept(es, p, b, i);
      var q' := PossibleIsKept(es, p, b', i');
      assert ReverseOf(es, q, o) != ReverseOf(es, q', o);
    }
  }

  lemma ReverseIsDeclared(es: seq<Entity>, ds: seq<Decl>, o: Edge) returns (d: Decl)
    requires Accepts(es, ds) && o in LinkAll(es, ds).reverse
    ensures d in ds && Names(es, d, o) && d.edge == LinkAll(es, ds).reverse[o]
  {
    var ed := LinkAll(es, ds).reverse[o];
    LinksAgree(es, ds);
    AcceptedInverses(es, ds, ed);
    d :| d in ds && d.edge == ed;
  }

  /** The declaration an accepted order keeps for o is one that can be last. */
  lemma ReverseCanBeLast(es: seq<Entity>, p: Layout, q: Layout, o: Edge) returns (b: nat, i: nat)
    requires DeclaredOnce(p) && Arranged(p, q) && Accepts(es, Flat(q)) && ReverseOf(es, q, o).Some?
    ensures Candidate(es, p, o, b, i) && p[b][i].edge == ReverseOf(es, q, o).value
  {
    var d := ReverseIsDeclared(es, Flat(q), o);
    ArrangedSameDecls(p, q);
    SameBagSameMembers(Flat(p), Flat(q));
    var at :| 0 <= at < |Flat(p)| && Flat(p)[at] == d;
    b, i := GroupOf(p, at);
    KeptIsPossible(es, p, q, b, i);
  }

  lemma SameReverse(es: seq<Entity>, p: Layout, q: Layout, q': Layout, o: Edge)
    requires DeclaredOnce(p) && OneCandidate(es, p, o)
    requires Arranged(p, q) && Arranged(p, q') && Accepts(es, Flat(q)) && Accepts(es, Flat(q'))
    requires ReverseOf(es, q, o).Some?
    ensures ReverseOf(es, q', o) == ReverseOf(es, q, o)
  {
    var b, i := ReverseCanBeLast(es, p, q, o);
    ArrangedSameDecls(p, q');
    SameBagSameMembers(Flat(p), Flat(q'));
    FlatAt(p, b, i);
    assert p[b][i] in Flat(q');
    var at: nat :| at < |Flat(q')| && Flat(q')[at] == p[b][i];
    var k := SomeLastToName(es, Flat(q'), at, o);
    LastIsKept(es, Flat(q'), k, o);
    var b', i' := ReverseCanBeLast(es, p, q', o);
  }

  lemma NoConflictAsksNothing(es: seq<Entity>, p: Layout, x: nat, y: nat)
    requires !Hopeless(es, Flat(p)) && !Conflict(es, Flat(p))
    ensures !Asks(es, p)(x, y)
  {
    ConflictIffBound(es, Flat(p));
    if Asks(es, p)(x, y) {
      var k, l :| 0 <= k < |p[x]| && 0 <= l < |p[y]| && Binds(es, p[x][k], p[y][l]);
      FlatAt(p, x, k);
      FlatAt(p, y, l);
    }
  }

  lemma NoConflictNotTorn(es: seq<Entity>, p: Layout, b: nat, i: nat)
    requires b < |p| && i < |p[b]| && !Hopeless(es, Flat(p)) && !Conflict(es, Flat(p))
    requires ReferenceOf(es, p[b][i].edge).Paired?
    ensures !Torn(es, p[b], p[b][i])
  {
    ConflictIffBound(es, Flat(p));
    if Torn(es, p[b], p[b][i]) {
      var d' :| d' in p[b] && OneToOne(es, d') && ReferenceOf(es, d'.edge) == ReferenceOf(es, p[b][i].edge);
      var l :| 0 <= l < |p[b]| && p[b][l] == d';
      assert Binds(es, p[b][i], p[b][l]);
      FlatAt(p, b, i);
      FlatAt(p, b, l);
    }
  }

  /** Where no repeated edge names a side of a one-to-one pair, any edge can be the
      last to name its half: an edge that two others name does see the order. */
  lemma AnyCanBeLast(es: seq<Entity>, p: Layout, b: nat, i: nat)
    requires b < |p| && i < |p[b]| && ReferenceOf(es, p[b][i].edge).Paired?
    requires !Hopeless(es, Flat(p)) && !Conflict(es, Flat(p))
    ensures CanBeLast(es, p, b, p[b][i])
  {
    NoConflictNotTorn(es, p, b, i);
    var before := AsksFor(es, p, b, p[b][i]);
    var place := seq<nat>(|p|, k => if k == b then 1 else 0);
    forall x, y | 0 <= x < |p| && 0 <= y < |p| && before(x, y) ensures place[x] < place[y] {
      NoConflictAsksNothing(es, p, x, y);
    }
    PlacedIsAcyclic(before, |p|, place);
  }
}
