/** When the order in which a schema declares its entities and their edges matters
    to the back-reference pass (schema/schema.go:197-245), and exactly when. An
    order is one a schema can have: entity after entity, each with its own edges
    in some order. */
module Orders {
  import opened Sorting
  import opened Text
  import opened Model
  import opened Links
  import opened Precedence

  // ---- one declaration before another ----

  /** x is repeated and names a side of the one-to-one pair that y declares: met
      after y it is refused, met before y it is not. */
  predicate Binds(es: seq<Entity>, x: Decl, y: Decl) {
    var r := ReferenceOf(es, x.edge);
    && r.Paired? && x.edge.spec.list && OneToOne(es, y)
    && (r.other == y.edge || r.other == ReferenceOf(es, y.edge).other)
  }

  lemma ClashesIffBound(es: seq<Entity>, ds: seq<Decl>, i: nat)
    requires i < |ds|
    ensures var r := ReferenceOf(es, ds[i].edge);
      Clashes(es, ds, i) <==>
        (r.Paired? && ds[i].edge.spec.list && r.other.spec.unique) || exists j :: 0 <= j < i && Binds(es, ds[i], ds[j])
  {
    assert forall j :: 0 <= j < i ==> ds[..i][j] == ds[j];
    var r := ReferenceOf(es, ds[i].edge);
    if r.Paired? && ds[i].edge.spec.list && InOneToOne(es, ds[..i], r.other) {
      var d :| d in ds[..i] && OneToOne(es, d) && (r.other == d.edge || r.other == ReferenceOf(es, d.edge).other);
      var j :| 0 <= j < i && ds[..i][j] == d;
      assert Binds(es, ds[i], ds[j]);
    }
    if j :| 0 <= j < i && Binds(es, ds[i], ds[j]) {
      assert ds[j] in ds[..i];
    }
  }

  /** No declaration comes after one it had to come before. */
  ghost predicate InOrder(es: seq<Entity>, ds: seq<Decl>) {
    forall j, i :: 0 <= j < i < |ds| ==> !Binds(es, ds[i], ds[j])
  }

  lemma AcceptsIffInOrder(es: seq<Entity>, ds: seq<Decl>)
    ensures Accepts(es, ds) <==> !Hopeless(es, ds) && InOrder(es, ds)
  {
    AcceptsIffNothingClashes(es, ds);
    forall i: nat | i < |ds| ensures Clashes(es, ds, i) <==>
      (ReferenceOf(es, ds[i].edge).Paired? && ds[i].edge.spec.list && ReferenceOf(es, ds[i].edge).other.spec.unique)
      || exists j :: 0 <= j < i && Binds(es, ds[i], ds[j])
    {
      ClashesIffBound(es, ds, i);
    }
    if Hopeless(es, ds) {
      HopelessIsRefused(es, ds);
    } else {
      assert forall i :: 0 <= i < |ds| ==> ds[i] in ds;
    }
  }

  lemma ConflictIffBound(es: seq<Entity>, ds: seq<Decl>)
    requires !Hopeless(es, ds)
    ensures Conflict(es, ds) <==> exists i, j :: 0 <= i < |ds| && 0 <= j < |ds| && Binds(es, ds[i], ds[j])
  {
    if Conflict(es, ds) {
      var d :| d in ds && Conflicts(es, d, ds);
      var o := ReferenceOf(es, d.edge).other;
      var d' :| d' in ds && OneToOne(es, d') && (o == d'.edge || o == ReferenceOf(es, d'.edge).other);
      var i :| 0 <= i < |ds| && ds[i] == d;
      var j :| 0 <= j < |ds| && ds[j] == d';
      assert Binds(es, ds[i], ds[j]);
    }
    if i, j :| 0 <= i < |ds| && 0 <= j < |ds| && Binds(es, ds[i], ds[j]) {
      assert ds[i] in ds && ds[j] in ds;
      assert Conflicts(es, ds[i], ds);
    }
  }

  // ---- layouts ----

  /** The declarations entity by entity. */
  type Layout = seq<seq<Decl>>

  function Flat(p: Layout): seq<Decl> {
    if p == [] then [] else Flat(p[..|p| - 1]) + p[|p| - 1]
  }

  function BagOf(): seq<Decl> -> multiset<Decl> {
    (g: seq<Decl>) => multiset(g)
  }

  /** The same groups in some order, each with its declarations in some order. */
  ghost predicate Arranged(p: Layout, q: Layout) {
    multiset(Map(BagOf(), p)) == multiset(Map(BagOf(), q))
  }

  ghost predicate EdgesOnce(ds: seq<Decl>) {
    forall i, j :: 0 <= i < j < |ds| ==> ds[i].edge != ds[j].edge
  }

  /** No edge is declared twice, by one entity or by two. */
  ghost predicate DeclaredOnce(p: Layout) {
    EdgesOnce(Flat(p))
  }

  /** How often d is in the bags. */
  ghost function Count(bags: seq<multiset<Decl>>, d: Decl): nat {
    if bags == [] then 0 else bags[0][d] + Count(bags[1..], d)
  }

  lemma {:induction false} CountAppend(a: seq<multiset<Decl>>, b: seq<multiset<Decl>>, d: Decl)
    ensures Count(a + b, d) == Count(a, d) + Count(b, d)
  {
    if a == [] {
      assert a + b == b;
    } else {
      assert (a + b)[1..] == a[1..] + b;
      CountAppend(a[1..], b, d);
    }
  }

  lemma CountAround(bags: seq<multiset<Decl>>, j: nat, d: Decl)
    requires j < |bags|
    ensures Count(bags, d) == Count(DropAt(bags, j), d) + bags[j][d]
  {
    var a, b := bags[..j], bags[j + 1..];
    assert bags == a + ([bags[j]] + b);
    CountAppend(a, [bags[j]] + b, d);
    CountAppend(a, b, d);
    assert ([bags[j]] + b)[1..] == b;
  }

  lemma {:induction false} CountReordered(a: seq<multiset<Decl>>, b: seq<multiset<Decl>>, d: Decl)
    requires multiset(a) == multiset(b)
    ensures Count(a, d) == Count(b, d)
    decreases |a|
  {
    if a == [] {
      assert |b| == |multiset(b)| == 0;
    } else {
      var j := MatchDropped(a, b);
      CountReordered(DropAt(a, 0), DropAt(b, j), d);
      CountAround(a, 0, d);
      CountAround(b, j, d);
    }
  }

  lemma {:induction false} FlatCounts(p: Layout, d: Decl)
    ensures multiset(Flat(p))[d] == Count(Map(BagOf(), p), d)
  {
    if p != [] {
      var n := |p| - 1;
      FlatCounts(p[..n], d);
      assert p == p[..n] + [p[n]];
      MapAppend(BagOf(), p[..n], [p[n]]);
      CountAppend(Map(BagOf(), p[..n]), Map(BagOf(), [p[n]]), d);
    }
  }

  lemma ArrangedSameDecls(p: Layout, q: Layout)
    requires Arranged(p, q)
    ensures multiset(Flat(p)) == multiset(Flat(q))
  {
    var a, b := multiset(Flat(p)), multiset(Flat(q));
    forall d | d in a + b ensures a[d] == b[d] {
      FlatCounts(p, d);
      FlatCounts(q, d);
      CountReordered(Map(BagOf(), p), Map(BagOf(), q), d);
    }
    assert a <= b && b <= a;
  }

  lemma EdgesOnceByCount(ds: seq<Decl>)
    ensures EdgesOnce(ds) <==> Distinct(Map((d: Decl) => d.edge, ds))
  {
    MapAt((d: Decl) => d.edge, ds);
  }

  lemma ArrangedDeclaredOnce(p: Layout, q: Layout)
    requires DeclaredOnce(p) && Arranged(p, q)
    ensures DeclaredOnce(q)
  {
    var edge := (d: Decl) => d.edge;
    ArrangedSameDecls(p, q);
    EdgesOnceByCount(Flat(p));
    EdgesOnceByCount(Flat(q));
    MapOfReordered(edge, Flat(p), Flat(q));
    SameBagSameMembers(Map(edge, Flat(p)), Map(edge, Flat(q)));
    DistinctByCount(Map(edge, Flat(p)));
    DistinctByCount(Map(edge, Flat(q)));
  }

  /** Where group j starts. */
  function Offset(p: Layout, j: nat): nat
    requires j <= |p|
  {
    |Flat(p[..j])|
  }

  lemma {:induction false} OffsetsGrow(p: Layout, i: nat, j: nat)
    requires i < j <= |p|
    ensures Offset(p, i) + |p[i]| <= Offset(p, j)
    decreases j
  {
    assert p[..j][..j - 1] == p[..j - 1];
    if i < j - 1 {
      OffsetsGrow(p, i, j - 1);
    }
  }

  /** Element k of group j, in the flat order. */
  lemma {:induction false} FlatAt(p: Layout, j: nat, k: nat)
    requires j < |p| && k < |p[j]|
    ensures Offset(p, j) + k < |Flat(p)| && Flat(p)[Offset(p, j) + k] == p[j][k]
  {
    var n := |p| - 1;
    if j == n {
      assert p[..n] == p[..j];
    } else {
      FlatAt(p[..n], j, k);
      assert p[..n][..j] == p[..j];
    }
  }

  /** Every place in the flat order is one of some group. */
  lemma {:induction false} GroupOf(p: Layout, i: nat) returns (j: nat, k: nat)
    requires i < |Flat(p)|
    ensures j < |p| && k < |p[j]| && i == Offset(p, j) + k && Flat(p)[i] == p[j][k]
  {
    var n := |p| - 1;
    if i < |Flat(p[..n])| {
      j, k := GroupOf(p[..n], i);
      assert p[..n][..j] == p[..j];
    } else {
      j, k := n, i - |Flat(p[..n])|;
    }
  }

  /** Place (j, k) comes before place (j', k'). */
  predicate Earlier(j: nat, k: nat, j': nat, k': nat) {
    j < j' || (j == j' && k < k')
  }

  lemma EarlierInFlat(p: Layout, j: nat, k: nat, j': nat, k': nat)
    requires j < |p| && k < |p[j]| && j' < |p| && k' < |p[j']|
    ensures Earlier(j, k, j', k') <==> Offset(p, j) + k < Offset(p, j') + k'
  {
    if j < j' {
      OffsetsGrow(p, j, j');
    } else if j' < j {
      OffsetsGrow(p, j', j);
    }
  }

  /** No declaration of a layout comes after one it had to come before. */
  ghost predicate LaidInOrder(es: seq<Entity>, p: Layout) {
    forall j, k, j', k' | 0 <= j < |p| && 0 <= k < |p[j]| && 0 <= j' < |p| && 0 <= k' < |p[j']| ::
      Earlier(j, k, j', k') ==> !Binds(es, p[j'][k'], p[j][k])
  }

  lemma InOrderIffLaid(es: seq<Entity>, p: Layout)
    ensures InOrder(es, Flat(p)) <==> LaidInOrder(es, p)
  {
    var ds := Flat(p);
    if LaidInOrder(es, p) {
      forall a, b | 0 <= a < b < |ds| ensures !Binds(es, ds[b], ds[a]) {
        var j, k := GroupOf(p, a);
        var j', k' := GroupOf(p, b);
        EarlierInFlat(p, j, k, j', k');
      }
    }
    if InOrder(es, ds) {
      forall j, k, j', k'
        | 0 <= j < |p| && 0 <= k < |p[j]| && 0 <= j' < |p| && 0 <= k' < |p[j']| && Earlier(j, k, j', k')
        ensures !Binds(es, p[j'][k'], p[j][k])
      {
        FlatAt(p, j, k);
        FlatAt(p, j', k');
        EarlierInFlat(p, j, k, j', k');
      }
    }
  }

  lemma ArrangedKeepsConflict(es: seq<Entity>, p: Layout, q: Layout)
    requires Arranged(p, q)
    ensures Hopeless(es, Flat(p)) <==> Hopeless(es, Flat(q))
    ensures Conflict(es, Flat(p)) <==> Conflict(es, Flat(q))
  {
    ArrangedSameDecls(p, q);
    ReorderingKeepsConflict(es, Flat(p), Flat(q));
  }

  // ---- which orders are refused ----

  lemma OutOfOrderIsRefused(es: seq<Entity>, q: Layout, j: nat, k: nat, j': nat, k': nat)
    requires j < |q| && k < |q[j]| && j' < |q| && k' < |q[j']| && Earlier(j, k, j', k')
    requires Binds(es, q[j'][k'], q[j][k])
    ensures !Accepts(es, Flat(q))
  {
    InOrderIffLaid(es, q);
    AcceptsIffInOrder(es, Flat(q));
  }

  /** Group b brought to the front, its repeated edges last. */
  function Leading(p: Layout, b: nat): Layout
    requires b < |p|
  {
    [RepeatedLast(p[b])] + DropAt(p, b)
  }

  lemma RepeatedLastPermutes(ds: seq<Decl>)
    ensures multiset(RepeatedLast(ds)) == multiset(ds)
  {
    FilterSplits(Single, Repeated, ds);
  }

  lemma LeadingIsArranged(p: Layout, b: nat)
    requires b < |p|
    ensures Arranged(p, Leading(p, b))
  {
    RepeatedLastPermutes(p[b]);
    MapAround(BagOf(), p, b);
    assert Leading(p, b)[1..] == DropAt(p, b);
    assert Map(BagOf(), Leading(p, b)) == [multiset(RepeatedLast(p[b]))] + Map(BagOf(), DropAt(p, b));
  }

  /** Where an element of p is in Leading(p, b). */
  lemma InLeading(p: Layout, b: nat, a: nat, i: nat) returns (j: nat, k: nat)
    requires b < |p| && a < |p| && i < |p[a]|
    ensures var q := Leading(p, b); j < |q| && k < |q[j]| && q[j][k] == p[a][i] && (j == 0 <==> a == b)
    ensures a == b ==> (k < |Filter(Single, p[b])| <==> Single(p[a][i]))
  {
    if a == b {
      FilterMembers(Single, p[b]);
      FilterMembers(Repeated, p[b]);
      var one, many := Filter(Single, p[b]), Filter(Repeated, p[b]);
      if Single(p[a][i]) {
        k :| 0 <= k < |one| && one[k] == p[a][i];
      } else {
        var m :| 0 <= m < |many| && many[m] == p[a][i];
        k := |one| + m;
      }
      j := 0;
    } else {
      j, k := if a < b then a + 1 else a, i;
    }
  }

  lemma ConflictIsRefusedSomewhere(es: seq<Entity>, p: Layout, b: nat, l: nat, a: nat, i: nat)
    requires b < |p| && l < |p[b]| && a < |p| && i < |p[a]| && Binds(es, p[a][i], p[b][l])
    ensures !Accepts(es, Flat(Leading(p, b)))
  {
    var j, k := InLeading(p, b, b, l);
    var j', k' := InLeading(p, b, a, i);
    OutOfOrderIsRefused(es, Leading(p, b), j, k, j', k');
  }

  /** Some order of the entities and their edges is refused exactly when every one
      is, or a repeated edge names an edge that some pair makes unique. */
  lemma SomeOrderIsRefused(es: seq<Entity>, p: Layout)
    ensures (exists q :: Arranged(p, q) && !Accepts(es, Flat(q))) <==> Hopeless(es, Flat(p)) || Conflict(es, Flat(p))
  {
    if Hopeless(es, Flat(p)) {
      HopelessIsRefused(es, Flat(p));
      assert Arranged(p, p);
    } else if Conflict(es, Flat(p)) {
      ConflictIffBound(es, Flat(p));
      var x, y :| 0 <= x < |Flat(p)| && 0 <= y < |Flat(p)| && Binds(es, Flat(p)[x], Flat(p)[y]);
      var a, i := GroupOf(p, x);
      var b, l := GroupOf(p, y);
      ConflictIsRefusedSomewhere(es, p, b, l, a, i);
      LeadingIsArranged(p, b);
    } else {
      forall q | Arranged(p, q) ensures Accepts(es, Flat(q)) {
        ArrangedKeepsConflict(es, p, q);
        NoConflictIsAccepted(es, Flat(q));
      }
    }
  }

  // ---- which orders are accepted ----

  /** Some edge of a has to come before some edge of b. */
  ghost predicate MustPrecede(es: seq<Entity>, a: seq<Decl>, b: seq<Decl>) {
    exists i, j :: 0 <= i < |a| && 0 <= j < |b| && Binds(es, a[i], b[j])
  }

  /** What the pass asks of the order of the entities. */
  ghost function Asks(es: seq<Entity>, p: Layout): (nat, nat) -> bool {
    (a: nat, b: nat) => a < |p| && b < |p| && a != b && MustPrecede(es, p[a], p[b])
  }

  /** Where each of the first groups of p went in q. */
  ghost predicate Placed(p: Layout, q: Layout, place: seq<nat>) {
    |place| <= |p| && forall a :: 0 <= a < |place| ==> place[a] < |q| && multiset(q[place[a]]) == multiset(p[a])
  }

  /** Two layouts of the same declarations, matched. */
  lemma Places(p: Layout, q: Layout) returns (place: seq<nat>)
    requires Arranged(p, q)
    ensures |place| == |p| && Placed(p, q, place)
  {
    place := [];
    for a := 0 to |p|
      invariant |place| == a && Placed(p, q, place)
    {
      var j := MapMatch(BagOf(), p, q, a);
      place := place + [j];
    }
  }

  lemma InMatched(g: seq<Decl>, h: seq<Decl>, i: nat) returns (k: nat)
    requires multiset(g) == multiset(h) && i < |g|
    ensures k < |h| && h[k] == g[i]
  {
    assert g[i] in multiset(h);
    k :| 0 <= k < |h| && h[k] == g[i];
  }

  lemma GroupsAreApart(p: Layout, a: nat, i: nat, b: nat, l: nat)
    requires DeclaredOnce(p) && a < |p| && i < |p[a]| && b < |p| && l < |p[b]| && p[a][i] == p[b][l]
    ensures a == b
  {
    FlatAt(p, a, i);
    FlatAt(p, b, l);
    EarlierInFlat(p, a, i, b, l);
    EarlierInFlat(p, b, l, a, i);
  }

  /** Different groups went to different places. */
  lemma PlacesDiffer(p: Layout, q: Layout, place: seq<nat>, a: nat, i: nat, b: nat)
    requires DeclaredOnce(p) && |place| == |p| && Placed(p, q, place)
    requires a < |p| && b < |p| && a != b && i < |p[a]|
    ensures place[a] != place[b]
  {
    if place[a] == place[b] {
      var l := InMatched(p[a], p[b], i);
      GroupsAreApart(p, a, i, b, l);
    }
  }

  /** An accepted order puts a group before every group it had to precede. */
  lemma AcceptedHeeds(es: seq<Entity>, p: Layout, q: Layout, place: seq<nat>, a: nat, b: nat)
    requires DeclaredOnce(p) && |place| == |p| && Placed(p, q, place) && Accepts(es, Flat(q))
    requires Asks(es, p)(a, b)
    ensures place[a] < place[b]
  {
    var i, l :| 0 <= i < |p[a]| && 0 <= l < |p[b]| && Binds(es, p[a][i], p[b][l]);
    PlacesDiffer(p, q, place, a, i, b);
    var k' := InMatched(p[a], q[place[a]], i);
    var k := InMatched(p[b], q[place[b]], l);
    if place[b] < place[a] {
      OutOfOrderIsRefused(es, q, place[b], k, place[a], k');
    }
  }

  lemma AcceptedIsAcyclic(es: seq<Entity>, p: Layout, q: Layout)
    requires DeclaredOnce(p) && Arranged(p, q) && Accepts(es, Flat(q))
    ensures !Cyclic(Asks(es, p), |p|)
  {
    var place := Places(p, q);
    forall a, b | 0 <= a < |p| && 0 <= b < |p| && Asks(es, p)(a, b) ensures place[a] < place[b] {
      AcceptedHeeds(es, p, q, place, a, b);
    }
    PlacedIsAcyclic(Asks(es, p), |p|, place);
  }

  // ---- laying an accepted order out ----

  /** q is the groups of p in the given order, each in some order of its own. */
  ghost predicate LaidBy(p: Layout, q: Layout, order: seq<nat>) {
    && multiset(order) == multiset(Upto(|p|))
    && |q| == |order|
    && forall k :: 0 <= k < |order| ==> order[k] < |p| && multiset(q[k]) == multiset(p[order[k]])
  }

  function BagAt(p: Layout): nat -> multiset<Decl> {
    (i: nat) => if i < |p| then multiset(p[i]) else multiset{}
  }

  lemma LaidByIsArranged(p: Layout, q: Layout, order: seq<nat>)
    requires LaidBy(p, q, order)
    ensures Arranged(p, q)
  {
    MapAt(BagOf(), p);
    MapAt(BagOf(), q);
    MapAt(BagAt(p), order);
    MapAt(BagAt(p), Upto(|p|));
    assert Map(BagAt(p), Upto(|p|)) == Map(BagOf(), p);
    assert Map(BagAt(p), order) == Map(BagOf(), q);
    MapOfReordered(BagAt(p), order, Upto(|p|));
  }

  lemma OrderRepeatsNothing(p: Layout, order: seq<nat>, j: nat, k: nat)
    requires multiset(order) == multiset(Upto(|p|)) && j < k < |order|
    ensures order[j] != order[k]
  {
    SameBagSameMembers(order, Upto(|p|));
    DistinctByCount(Upto(|p|));
    DistinctByCount(order);
  }

  /** Groups in an order that heeds what is asked, each in order within itself. */
  lemma HeedingIsInOrder(es: seq<Entity>, p: Layout, q: Layout, order: seq<nat>)
    requires LaidBy(p, q, order) && Heeds(Asks(es, p), order)
    requires forall k :: 0 <= k < |q| ==> InOrder(es, q[k])
    ensures LaidInOrder(es, q)
  {
    forall j, k, j', k' | 0 <= j < |q| && 0 <= k < |q[j]| && 0 <= j' < |q| && 0 <= k' < |q[j']| && Earlier(j, k, j', k')
      ensures !Binds(es, q[j'][k'], q[j][k])
    {
      if j < j' {
        OrderRepeatsNothing(p, order, j, j');
        var i' := InMatched(q[j'], p[order[j']], k');
        var i := InMatched(q[j], p[order[j]], k);
        assert !Asks(es, p)(order[j'], order[j]);
      }
    }
  }

  lemma HeedingIsAccepted(es: seq<Entity>, p: Layout, q: Layout, order: seq<nat>)
    requires LaidBy(p, q, order) && Heeds(Asks(es, p), order) && !Hopeless(es, Flat(p))
    requires forall k :: 0 <= k < |q| ==> InOrder(es, q[k])
    ensures Arranged(p, q) && Accepts(es, Flat(q))
  {
    LaidByIsArranged(p, q, order);
    HeedingIsInOrder(es, p, q, order);
    ArrangedKeepsConflict(es, p, q);
    InOrderIffLaid(es, q);
    AcceptsIffInOrder(es, Flat(q));
  }

  /** What is repeated comes before nothing that could bind it. */
  lemma AheadIsInOrder(es: seq<Entity>, many: seq<Decl>, one: seq<Decl>)
    requires forall k :: 0 <= k < |many| ==> Repeated(many[k])
    requires forall k :: 0 <= k < |one| ==> Single(one[k])
    ensures InOrder(es, many + one)
  {
  }

  lemma RepeatedFirstIsInOrder(es: seq<Entity>, g: seq<Decl>)
    ensures InOrder(es, RepeatedFirst(g)) && multiset(RepeatedFirst(g)) == multiset(g)
  {
    RepeatedFirstSplits(g);
    AheadIsInOrder(es, Filter(Repeated, g), Filter(Single, g));
  }

  function LayOut(p: Layout, order: seq<nat>): Layout
    requires forall k :: 0 <= k < |order| ==> order[k] < |p|
  {
    seq(|order|, k requires 0 <= k < |order| => RepeatedFirst(p[order[k]]))
  }

  lemma OrderIsInRange(order: seq<nat>, n: nat)
    requires multiset(order) == multiset(Upto(n))
    ensures |order| == n && forall k :: 0 <= k < |order| ==> order[k] < n
  {
    assert |order| == |multiset(order)| == |multiset(Upto(n))| == n;
    SameBagSameMembers(order, Upto(n));
    forall k | 0 <= k < |order| ensures order[k] < n {
      assert order[k] in Upto(n);
    }
  }

  lemma AcyclicIsAccepted(es: seq<Entity>, p: Layout) returns (q: Layout)
    requires !Hopeless(es, Flat(p)) && !Cyclic(Asks(es, p), |p|)
    ensures Arranged(p, q) && Accepts(es, Flat(q))
  {
    var order := AcyclicHasOrder(Asks(es, p), |p|);
    OrderIsInRange(order, |p|);
    q := LayOut(p, order);
    forall k | 0 <= k < |q| ensures InOrder(es, q[k]) && multiset(q[k]) == multiset(p[order[k]]) {
      RepeatedFirstIsInOrder(es, p[order[k]]);
    }
    HeedingIsAccepted(es, p, q, order);
  }

  /** Some order of the entities and their edges is accepted exactly when nothing
      rules every order out, and what the pass asks of the order of the entities
      does not go round. Within one entity an order can always be found. */
  lemma SomeOrderIsAccepted(es: seq<Entity>, p: Layout)
    requires DeclaredOnce(p)
    ensures (exists q :: Arranged(p, q) && Accepts(es, Flat(q))) <==>
      !Hopeless(es, Flat(p)) && !Cyclic(Asks(es, p), |p|)
  {
    if q :| Arranged(p, q) && Accepts(es, Flat(q)) {
      AcceptedIsAcyclic(es, p, q);
      ArrangedKeepsConflict(es, p, q);
      if Hopeless(es, Flat(q)) {
        HopelessIsRefused(es, Flat(q));
      }
    } else if !Hopeless(es, Flat(p)) && !Cyclic(Asks(es, p), |p|) {
      var q := AcyclicIsAccepted(es, p);
    }
  }

  /** The verdict is the same for every order of the entities and their edges
      exactly when every one is refused or none is. */
  lemma VerdictIgnoresOrder(es: seq<Entity>, p: Layout)
    requires DeclaredOnce(p)
    ensures (forall q :: Arranged(p, q) ==> (Accepts(es, Flat(q)) <==> Accepts(es, Flat(p))))
       <==> Hopeless(es, Flat(p)) || !Conflict(es, Flat(p)) || Cyclic(Asks(es, p), |p|)
  {
    SomeOrderIsAccepted(es, p);
    SomeOrderIsRefused(es, p);
    assert Arranged(p, p);
  }
}
