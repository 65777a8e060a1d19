/** The same schema declared in another order, and what Build says of it
    (schema/schema.go:197-245). Every order of the entities and of each one's edges
    is the order of some schema, so what Orders and Halves say of orders is said of
    schemas here. */
module Redeclare {
  import opened Wrappers
  import opened Sorting
  import opened Text
  import opened Model
  import opened Wiring
  import opened Links
  import opened Precedence
  import opened Orders
  import opened Halves
  import opened Reorder
  import opened Builder

  // ---- every order is a schema's ----

  lemma OrderWithLast(order: seq<nat>, n: nat, j: nat) returns (longer: seq<nat>)
    requires multiset(order) == multiset(Upto(n)) && j <= n
    ensures multiset(longer) == multiset(Upto(n + 1)) && |longer| == n + 1 && longer[n] == j
    ensures |order| == n && forall k :: 0 <= k < n ==> longer[k] == if order[k] < j then order[k] else order[k] + 1
  {
    OrderIsInRange(order, n);
    DistinctByCount(Upto(n));
    SameBagSameMembers(order, Upto(n));
    DistinctByCount(order);
    longer := seq(n, k requires 0 <= k < n => if order[k] < j then order[k] else order[k] + 1) + [j];
    forall x: nat | x < n + 1 ensures x in longer {
      if x != j {
        var k := PlaceInOrder(order, n, if x < j then x else x - 1);
        assert longer[k] == x;
      } else {
        assert longer[n] == x;
      }
    }
    EveryNumberOnce(longer, n + 1);
  }

  lemma LastInOther<T>(s: seq<T>, t: seq<T>) returns (j: nat)
    requires multiset(s) == multiset(t) && t != []
    ensures j < |s| && s[j] == t[|t| - 1] && multiset(DropAt(s, j)) == multiset(t[..|t| - 1])
  {
    var n := |t| - 1;
    assert t[n] in multiset(s);
    j :| 0 <= j < |s| && s[j] == t[n];
    BagWithout(s, j);
    BagWithout(t, n);
    assert DropAt(t, n) == t[..n];
  }

  /** Two lists with the same elements are reorderings of each other. */
  lemma {:induction false} PermutationOf<T>(s: seq<T>, t: seq<T>) returns (order: seq<nat>)
    requires multiset(s) == multiset(t)
    ensures multiset(order) == multiset(Upto(|s|)) && |order| == |t|
    ensures forall k :: 0 <= k < |order| ==> order[k] < |s| && t[k] == s[order[k]]
    decreases |t|
  {
    assert |s| == |multiset(s)| == |multiset(t)| == |t|;
    if t == [] {
      order := [];
    } else {
      var n := |t| - 1;
      var j := LastInOther(s, t);
      var before := PermutationOf(DropAt(s, j), t[..n]);
      order := OrderWithLast(before, n, j);
    }
  }

  /** es' is es in the given order, each entity with the given edges. */
  ghost predicate Redeclares(es: seq<Entity>, es': seq<Entity>, order: seq<nat>, edges: seq<seq<Edge>>) {
    && |es'| == |order| == |edges|
    && forall k :: 0 <= k < |order| ==> order[k] < |es| && es'[k].spec == es[order[k]].spec.(edges := edges[k])
  }

  /** The edges are those of es, in some order entity by entity. */
  ghost predicate Reorders(es: seq<Entity>, order: seq<nat>, edges: seq<seq<Edge>>) {
    && multiset(order) == multiset(Upto(|es|)) && |edges| == |order|
    && forall k :: 0 <= k < |order| ==> order[k] < |es| && multiset(edges[k]) == multiset(es[order[k]].spec.edges)
  }

  /** Entities made one after another, each its own and with no marks yet. */
  ghost predicate JustMade(es: seq<Entity>)
    reads es
  {
    && (forall i, j :: 0 <= i < j < |es| ==> es[i] != es[j])
    && (forall i :: 0 <= i < |es| ==> es[i].version == null && es[i].erased == null)
  }

  ghost method Declare(es: seq<Entity>, order: seq<nat>, edges: seq<seq<Edge>>) returns (es': seq<Entity>)
    requires Reorders(es, order, edges)
    ensures Redeclares(es, es', order, edges) && JustMade(es')
  {
    es' := [];
    for k := 0 to |order|
      invariant |es'| == k && JustMade(es') && forall i :: 0 <= i < k ==> fresh(es'[i])
      invariant forall i :: 0 <= i < k ==> es'[i].spec == es[order[i]].spec.(edges := edges[i])
    {
      var e := new Entity.Declared(es[order[k]].spec.(edges := edges[k]));
      es' := es' + [e];
    }
  }

  lemma SameMembers(es: seq<Entity>, es': seq<Entity>, order: seq<nat>, edges: seq<seq<Edge>>, k: nat)
    requires Reorders(es, order, edges) && Redeclares(es, es', order, edges) && k < |es'|
    ensures var e, e' := es[order[k]], es'[k];
      && e'.spec.fields == e.spec.fields && e'.spec.indexes == e.spec.indexes
      && forall ed :: ed in e'.spec.edges <==> ed in e.spec.edges
  {
    SameBagSameMembers(edges[k], es[order[k]].spec.edges);
  }

  lemma ApartStays(e: Entity, f: Entity, e': Entity, f': Entity)
    requires Apart(e, f) && e'.spec.fields == e.spec.fields && e'.spec.indexes == e.spec.indexes
    requires f'.spec.fields == f.spec.fields && f'.spec.indexes == f.spec.indexes
    requires forall ed :: ed in e'.spec.edges <==> ed in e.spec.edges
    requires forall ed :: ed in f'.spec.edges <==> ed in f.spec.edges
    ensures Apart(e', f')
  {
  }

  /** Redeclared, entities that Build may be handed are ones it may be handed. */
  lemma RedeclaredIsFresh(es: seq<Entity>, es': seq<Entity>, order: seq<nat>, edges: seq<seq<Edge>>)
    requires Reorders(es, order, edges) && Redeclares(es, es', order, edges) && JustMade(es') && FreshEntities(es)
    ensures FreshEntities(es')
  {
    DistinctByCount(Upto(|es|));
    SameBagSameMembers(order, Upto(|es|));
    DistinctByCount(order);
    forall i, j | 0 <= i < j < |es'| ensures es'[i] != es'[j] && Apart(es'[i], es'[j]) && Apart(es'[j], es'[i]) {
      SameMembers(es, es', order, edges, i);
      SameMembers(es, es', order, edges, j);
      var a, b := es[order[i]], es[order[j]];
      assert Apart(a, b) && Apart(b, a);
      ApartStays(a, b, es'[i], es'[j]);
      ApartStays(b, a, es'[j], es'[i]);
    }
    forall e' | e' in es' ensures Unwired(e') {
      var k :| 0 <= k < |es'| && es'[k] == e';
      SameMembers(es, es', order, edges, k);
      assert Unwired(es[order[k]]);
    }
  }

  function MakeupAt(es: seq<Entity>): nat -> Makeup {
    (i: nat) => if i < |es| then MakeupOf()(es[i]) else Makeup("", multiset{}, multiset{}, multiset{})
  }

  lemma RedeclaredIsReordered(es: seq<Entity>, es': seq<Entity>, order: seq<nat>, edges: seq<seq<Edge>>)
    requires Reorders(es, order, edges) && Redeclares(es, es', order, edges)
    ensures Reordered(es, es')
  {
    MapAt(MakeupOf(), es);
    MapAt(MakeupOf(), es');
    MapAt(MakeupAt(es), order);
    MapAt(MakeupAt(es), Upto(|es|));
    MapOfReordered(MakeupAt(es), order, Upto(|es|));
    assert Map(MakeupAt(es), order) == Map(MakeupOf(), es');
    assert Map(MakeupAt(es), Upto(|es|)) == Map(MakeupOf(), es);
  }

  function EdgeOf(): Decl -> Edge {
    (d: Decl) => d.edge
  }

  lemma EdgesOfGroup(e: Entity, g: seq<Decl>)
    requires multiset(g) == multiset(DeclsOf(e))
    ensures multiset(Map(EdgeOf(), g)) == multiset(e.spec.edges)
    ensures Map(DeclOf(e.spec.fullName), Map(EdgeOf(), g)) == g
  {
    var declare := DeclOf(e.spec.fullName);
    MapAt(declare, e.spec.edges);
    MapAt(EdgeOf(), DeclsOf(e));
    assert Map(EdgeOf(), DeclsOf(e)) == e.spec.edges;
    MapOfReordered(EdgeOf(), g, DeclsOf(e));
    MapAt(EdgeOf(), g);
    MapAt(declare, Map(EdgeOf(), g));
    SameBagSameMembers(g, DeclsOf(e));
    forall k | 0 <= k < |g| ensures declare(g[k].edge) == g[k] {
      assert g[k] in DeclsOf(e);
    }
  }

  /** Group k of q is the entity at order[k], its edges in some order. */
  ghost predicate Groupwise(es: seq<Entity>, q: Layout, order: seq<nat>) {
    && |order| == |q|
    && forall k :: 0 <= k < |q| ==> order[k] < |es| && multiset(q[k]) == multiset(DeclsOf(es[order[k]]))
  }

  lemma OrderOfGroups(es: seq<Entity>, q: Layout) returns (order: seq<nat>)
    requires Arranged(Groups(es), q)
    ensures multiset(order) == multiset(Upto(|es|)) && Groupwise(es, q, order)
  {
    MapAt(DeclsOf, es);
    MapAt(BagOf(), Groups(es));
    MapAt(BagOf(), q);
    order := PermutationOf(Map(BagOf(), Groups(es)), Map(BagOf(), q));
    forall k | 0 <= k < |q| ensures multiset(q[k]) == multiset(DeclsOf(es[order[k]])) {
      assert Map(BagOf(), q)[k] == Map(BagOf(), Groups(es))[order[k]];
    }
  }

  function EdgesOf(q: Layout): seq<seq<Edge>> {
    Map((g: seq<Decl>) => Map(EdgeOf(), g), q)
  }

  lemma GroupsOfRedeclared(es: seq<Entity>, es': seq<Entity>, order: seq<nat>, q: Layout)
    requires Groupwise(es, q, order) && Redeclares(es, es', order, EdgesOf(q))
    ensures Groups(es') == q
  {
    MapAt((g: seq<Decl>) => Map(EdgeOf(), g), q);
    MapAt(DeclsOf, es');
    forall k | 0 <= k < |q| ensures Groups(es')[k] == q[k] {
      EdgesOfGroup(es[order[k]], q[k]);
    }
  }

  /** Every order of the entities and of their edges is the order of a schema. */
  ghost method DeclareIn(es: seq<Entity>, q: Layout) returns (es': seq<Entity>)
    requires Arranged(Groups(es), q)
    ensures Reordered(es, es') && Groups(es') == q
    ensures FreshEntities(es) ==> FreshEntities(es')
  {
    WorldIsAllocated(es);
    var order := OrderOfGroups(es, q);
    MapAt((g: seq<Decl>) => Map(EdgeOf(), g), q);
    forall k | 0 <= k < |q| ensures multiset(EdgesOf(q)[k]) == multiset(es[order[k]].spec.edges) {
      EdgesOfGroup(es[order[k]], q[k]);
    }
    es' := Declare(es, order, EdgesOf(q));
    RedeclaredIsReordered(es, es', order, EdgesOf(q));
    GroupsOfRedeclared(es, es', order, q);
    if FreshEntities(es) {
      RedeclaredIsFresh(es, es', order, EdgesOf(q));
    }
  }

  // ---- what Build says of it ----

  /** Every order is refused: the first passes refuse it, a declaration rules it
      out, or the entities would have to come before themselves. */
  ghost predicate NeverAccepted(es: seq<Entity>) {
    !Sound(es) || Hopeless(es, Decls(es)) || Cyclic(Asks(es, Groups(es)), |es|)
  }

  /** Some order is refused: every one is, or a repeated edge names an edge that
      some pair makes unique. */
  ghost predicate SometimesRefused(es: seq<Entity>) {
    !Sound(es) || Hopeless(es, Decls(es)) || Conflict(es, Decls(es))
  }

  lemma GroupsAsDeclared(es: seq<Entity>)
    ensures |Groups(es)| == |es| && Flat(Groups(es)) == Decls(es) && Arranged(Groups(es), Groups(es))
  {
    MapAt(DeclsOf, es);
    DeclsAreFlat(es);
  }

  /** What the builder of a schema is handed: no member shares a number with
      another of its entity, and no edge is declared twice. */
  ghost predicate WellDeclared(es: seq<Entity>) {
    AllNumbersDistinct(es) && DeclaredOnce(Groups(es))
  }

  lemma RefusedInEveryOrder(es: seq<Entity>, es': seq<Entity>)
    requires Reordered(es, es') && WellDeclared(es) && NeverAccepted(es)
    ensures BuildDiags(es') != []
  {
    VerdictOfReordered(es, es');
    GroupsArranged(es, es');
    GroupsAsDeclared(es);
    SomeOrderIsAccepted(es, Groups(es));
  }

  ghost method AcceptedInSomeOrder(es: seq<Entity>) returns (es': seq<Entity>)
    requires WellDeclared(es) && !NeverAccepted(es)
    ensures Reordered(es, es') && BuildDiags(es') == []
    ensures FreshEntities(es) ==> FreshEntities(es')
  {
    GroupsAsDeclared(es);
    var q := AcyclicIsAccepted(es, Groups(es));
    es' := DeclareIn(es, q);
    VerdictOfReordered(es, es');
  }

  lemma AcceptedInEveryOrder(es: seq<Entity>, es': seq<Entity>)
    requires Reordered(es, es') && AllNumbersDistinct(es) && !SometimesRefused(es)
    ensures BuildDiags(es') == []
  {
    VerdictOfReordered(es, es');
    GroupsArranged(es, es');
    GroupsAsDeclared(es);
    SomeOrderIsRefused(es, Groups(es));
  }

  ghost method RefusedInSomeOrder(es: seq<Entity>) returns (es': seq<Entity>)
    requires AllNumbersDistinct(es) && SometimesRefused(es)
    ensures Reordered(es, es') && BuildDiags(es') != []
    ensures FreshEntities(es) ==> FreshEntities(es')
  {
    GroupsAsDeclared(es);
    SomeOrderIsRefused(es, Groups(es));
    ghost var q := Groups(es);
    if Sound(es) {
      q :| Arranged(Groups(es), q) && !Accepts(es, Flat(q));
    }
    es' := DeclareIn(es, q);
    VerdictOfReordered(es, es');
  }

  ghost function ReverseIn(es: seq<Entity>, o: Edge): Option<Edge> {
    ReverseOf(es, Groups(es), o)
  }

  lemma ReverseOfReordered(es: seq<Entity>, es': seq<Entity>, o: Edge)
    requires Reordered(es, es') && NamesDistinct(es) && AllNumbersDistinct(es)
    ensures ReverseIn(es', o) == ReverseOf(es, Groups(es'), o)
  {
    LinkAllIgnoresSchemaOrder(es, es', Flat(Groups(es')));
  }

  /** In every accepted order, the edge left as a reverse is one that can be the
      last to name it. */
  lemma ReverseIsCandidate(es: seq<Entity>, es': seq<Entity>, o: Edge) returns (b: nat, i: nat)
    requires Reordered(es, es') && WellDeclared(es) && BuildDiags(es') == [] && ReverseIn(es', o).Some?
    ensures Candidate(es, Groups(es), o, b, i) && Groups(es)[b][i].edge == ReverseIn(es', o).value
  {
    VerdictOfReordered(es, es');
    GroupsArranged(es, es');
    ReverseOfReordered(es, es', o);
    b, i := ReverseCanBeLast(es, Groups(es), Groups(es'), o);
  }

  /** And each that can be is, in some accepted order: two of them, and the reverse
      depends on the order. */
  ghost method CandidateIsReverse(es: seq<Entity>, o: Edge, b: nat, i: nat) returns (es': seq<Entity>)
    requires WellDeclared(es) && Sound(es) && Candidate(es, Groups(es), o, b, i)
    ensures Reordered(es, es') && BuildDiags(es') == [] && ReverseIn(es', o) == Some(Groups(es)[b][i].edge)
    ensures FreshEntities(es) ==> FreshEntities(es')
  {
    var q := PossibleIsKept(es, Groups(es), b, i);
    es' := DeclareIn(es, q);
    VerdictOfReordered(es, es');
    ReverseOfReordered(es, es', o);
  }

  /** Entities as NewEntity makes them, with numbers that do not repeat, are well
      declared. */
  lemma FreshIsWellDeclared(es: seq<Entity>)
    requires FreshEntities(es) && AllNumbersDistinct(es)
    ensures WellDeclared(es)
  {
    var p := Groups(es);
    MapAt(DeclsOf, es);
    forall x, y | 0 <= x < y < |Flat(p)| ensures Flat(p)[x].edge != Flat(p)[y].edge {
      var j, k := GroupOf(p, x);
      var j', k' := GroupOf(p, y);
      EarlierInFlat(p, j, k, j', k');
      EdgesApart(es, j, k, j', k');
    }
  }

  lemma EdgesApart(es: seq<Entity>, j: nat, k: nat, j': nat, k': nat)
    requires FreshEntities(es) && AllNumbersDistinct(es) && j < |es| && j' < |es| && Earlier(j, k, j', k')
    requires k < |DeclsOf(es[j])| && k' < |DeclsOf(es[j'])|
    ensures DeclsOf(es[j])[k].edge != DeclsOf(es[j'])[k'].edge
  {
    MapAt(DeclOf(es[j].spec.fullName), es[j].spec.edges);
    MapAt(DeclOf(es[j'].spec.fullName), es[j'].spec.edges);
    if j == j' {
      var e := es[j];
      assert NumbersDistinct(e);
      MapAt((f: Field) => FieldProp(f), e.spec.fields);
      MapAt((ed: Edge) => EdgeProp(ed), e.spec.edges);
      assert Declared(e)[|e.spec.fields| + k].Number() != Declared(e)[|e.spec.fields| + k'].Number();
    } else {
      assert Apart(es[j], es[j']);
      assert es[j].spec.edges[k] in es[j].spec.edges;
    }
  }
}
