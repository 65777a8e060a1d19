/** The ways to a file: from a root by the imports to follow, by their places. The
    list of a request is in the order of the first ways, and no other order is
    (internal/protoc/compile.go). */
module Ways {
  import opened Wrappers
  import opened FileGraph

  /** The file a way leads to: a root, and then imports of imports. */
  ghost function Leads(g: Graph, roots: seq<string>, w: seq<nat>): Option<string> {
    if w == [] then None
    else if |w| == 1 then if w[0] < |roots| then Some(roots[w[0]]) else None
    else
      var n := |w| - 1;
      match Leads(g, roots, w[..n])
      case None => None
      case Some(a) => if a in g && w[n] < |g[a].imports| then Some(g[a].imports[w[n]]) else None
  }

  /** Where the two first differ, v turns off before w. */
  ghost predicate TurnsBefore(v: seq<nat>, w: seq<nat>) {
    exists k: nat :: TurnsOff(v, w, k)
  }

  ghost predicate TurnsOff(v: seq<nat>, w: seq<nat>, k: nat) {
    k < |v| && k < |w| && v[..k] == w[..k] && v[k] < w[k]
  }

  /** No file needed imports its way back to itself. */
  ghost predicate RoundFree(g: Graph, roots: seq<string>) {
    forall a :: Needed(g, roots, a) ==> !OnCycle(g, a)
  }

  /** The way is the first of all ways to where it leads. */
  ghost predicate IsFirst(g: Graph, roots: seq<string>, c: seq<nat>) {
    && Leads(g, roots, c).Some?
    && forall w {:trigger Leads(g, roots, w)} ::
         Leads(g, roots, w) == Leads(g, roots, c) && w != c ==> TurnsBefore(c, w)
  }

  /** Everything an earlier way leads to is listed. */
  ghost predicate Ahead(g: Graph, roots: seq<string>, list: seq<string>, c: seq<nat>) {
    forall w {:trigger Leads(g, roots, w)} ::
      Leads(g, roots, w).Some? && TurnsBefore(w, c) ==> Leads(g, roots, w).value in list
  }

  ghost predicate AllUnder(g: Graph, list: seq<string>, f: string) {
    forall x :: Reaches(g, f, x) ==> x in list
  }

  // ---- ways and chains ----

  lemma LeadsOn(g: Graph, roots: seq<string>, w: seq<nat>, i: nat)
    requires Leads(g, roots, w).Some?
    ensures Leads(g, roots, w + [i]) ==
      var a := Leads(g, roots, w).value; if a in g && i < |g[a].imports| then Some(g[a].imports[i]) else None
  {
    assert (w + [i])[..|w|] == w;
  }

  lemma {:induction false} LeadsUnder(g: Graph, roots: seq<string>, v: seq<nat>, w: seq<nat>)
    requires v <= w && v != [] && Leads(g, roots, w).Some?
    ensures Leads(g, roots, v).Some? && Reaches(g, Leads(g, roots, v).value, Leads(g, roots, w).value)
    ensures v != w ==> exists b :: Imports(g, Leads(g, roots, v).value, b) && Reaches(g, b, Leads(g, roots, w).value)
    decreases |w|
  {
    if v == w {
      ReachesItself(g, Leads(g, roots, w).value);
    } else {
      var n := |w| - 1;
      var a, x := Leads(g, roots, w[..n]).value, Leads(g, roots, w).value;
      LeadsUnder(g, roots, v, w[..n]);
      ImportReaches(g, a, x);
      ReachesOn(g, Leads(g, roots, v).value, a, x);
      if v == w[..n] {
        ReachesItself(g, x);
        assert Imports(g, a, x);
      } else {
        var b :| Imports(g, Leads(g, roots, v).value, b) && Reaches(g, b, a);
        ReachesOn(g, b, a, x);
      }
    }
  }

  lemma LeadsToNeeded(g: Graph, roots: seq<string>, w: seq<nat>)
    requires Leads(g, roots, w).Some?
    ensures Needed(g, roots, Leads(g, roots, w).value)
  {
    LeadsUnder(g, roots, w[..1], w);
    assert roots[w[0]] == Leads(g, roots, w[..1]).value;
  }

  /** With no cycle among the files needed, no way to a file goes on to it again. */
  lemma NoWayBack(g: Graph, roots: seq<string>, v: seq<nat>, w: seq<nat>)
    requires RoundFree(g, roots) && v <= w && v != w && v != []
    requires Leads(g, roots, w).Some?
    ensures Leads(g, roots, v) != Leads(g, roots, w)
  {
    LeadsUnder(g, roots, v, w);
    LeadsToNeeded(g, roots, v);
  }

  /** Two ways turn off from one another, or one goes on from the other. */
  lemma {:induction false} WaysDiffer(v: seq<nat>, w: seq<nat>)
    ensures v <= w || w <= v || TurnsBefore(v, w) || TurnsBefore(w, v)
  {
    if k: nat :| k < |v| && k < |w| && v[k] != w[k] {
      FirstTurn(v, w, k);
    } else if |v| <= |w| {
      assert v == w[..|v|];
    } else {
      assert w == v[..|w|];
    }
  }

  lemma {:induction false} FirstTurn(v: seq<nat>, w: seq<nat>, k: nat)
    requires k < |v| && k < |w| && v[k] != w[k]
    ensures TurnsBefore(v, w) || TurnsBefore(w, v)
  {
    if j: nat :| j < k && v[j] != w[j] {
      FirstTurn(v, w, j);
    } else {
      assert v[..k] == w[..k];
      assert TurnsOff(v, w, k) || TurnsOff(w, v, k);
    }
  }

  // ---- while the list is made ----

  /** The file is not listed, and everything earlier is: so this is the first way
      to it. */
  lemma AheadIsFirst(g: Graph, roots: seq<string>, list: seq<string>, c: seq<nat>)
    requires RoundFree(g, roots) && Leads(g, roots, c).Some? && Leads(g, roots, c).value !in list
    requires Ahead(g, roots, list, c)
    ensures IsFirst(g, roots, c)
  {
    forall w | Leads(g, roots, w) == Leads(g, roots, c) && w != c ensures TurnsBefore(c, w) {
      WaysDiffer(c, w);
      assert c != [] && w != [];
      if c <= w {
        NoWayBack(g, roots, c, w);
      } else if w <= c {
        NoWayBack(g, roots, w, c);
      }
    }
  }

  lemma AheadOfFirst(g: Graph, roots: seq<string>, list: seq<string>, c: seq<nat>)
    requires Ahead(g, roots, list, c)
    ensures Ahead(g, roots, list, c + [0])
  {
    forall w | Leads(g, roots, w).Some? && TurnsBefore(w, c + [0]) ensures Leads(g, roots, w).value in list {
      var k: nat :| TurnsOff(w, c + [0], k);
      assert (c + [0])[..k] == c[..k];
      assert TurnsOff(w, c, k);
    }
  }

  lemma AheadOfNext(g: Graph, roots: seq<string>, list: seq<string>, c: seq<nat>, i: nat)
    requires Leads(g, roots, c + [i]).Some? && Ahead(g, roots, list, c + [i])
    requires AllUnder(g, list, Leads(g, roots, c + [i]).value)
    ensures Ahead(g, roots, list, c + [i + 1])
  {
    forall w | Leads(g, roots, w).Some? && TurnsBefore(w, c + [i + 1]) ensures Leads(g, roots, w).value in list {
      var k: nat :| TurnsOff(w, c + [i + 1], k);
      if k < |c| {
        assert (c + [i + 1])[..k] == (c + [i])[..k];
        assert TurnsOff(w, c + [i], k);
      } else {
        assert (c + [i + 1])[..k] == c == (c + [i])[..k];
        if w[k] < i {
          assert TurnsOff(w, c + [i], k);
        } else {
          assert w[..k + 1] == c + [i];
          LeadsUnder(g, roots, c + [i], w);
        }
      }
    }
  }

  lemma AheadGrows(g: Graph, roots: seq<string>, list: seq<string>, more: seq<string>, c: seq<nat>)
    requires list <= more && Ahead(g, roots, list, c)
    ensures Ahead(g, roots, more, c)
  {
  }

  lemma UnderFile(g: Graph, list: seq<string>, f: string)
    requires f in g && forall i :: 0 <= i < |g[f].imports| ==> AllUnder(g, list, g[f].imports[i])
    ensures AllUnder(g, list + [f], f)
  {
    forall x | Reaches(g, f, x) ensures x in list + [f] {
      var p :| Links(g, p, f, x);
      if |p| > 1 {
        assert Imports(g, p[0], p[1]);
        var i :| 0 <= i < |g[f].imports| && g[f].imports[i] == p[1];
        forall j | 0 <= j < |p[1..]| - 1 ensures Imports(g, p[1..][j], p[1..][j + 1]) {
          assert Imports(g, p[j + 1], p[j + 2]);
        }
        assert Links(g, p[1..], p[1], x);
      }
    }
  }

  /** Everything under a listed file is listed, where imports do not go round. */
  lemma {:induction false} UnderListed(
    g: Graph, roots: seq<string>, seen: set<string>, list: seq<string>, p: seq<string>)
    requires RoundFree(g, roots) && Sound(g, seen, list) && Chain(g, p) && p[0] in list && Needed(g, roots, p[0])
    ensures p[|p| - 1] in list
    decreases |p|
  {
    if |p| > 1 {
      var k: nat :| k < |list| && list[k] == p[0];
      assert Settled(g, list, seen, k) && Imports(g, p[0], p[1]);
      forall i | 0 <= i < |p[1..]| - 1 ensures Imports(g, p[1..][i], p[1..][i + 1]) {
        assert Imports(g, p[i + 1], p[i + 2]);
      }
      var r :| 0 <= r < |roots| && Reaches(g, roots[r], p[0]);
      ImportReaches(g, p[0], p[1]);
      ReachesOn(g, roots[r], p[0], p[1]);
      UnderListed(g, roots, seen, list, p[1..]);
    }
  }

  /** File k is listed by the first way to it, once everything an earlier way leads to
      is. */
  ghost predicate ListedByWay(g: Graph, roots: seq<string>, list: seq<string>, k: nat, c: seq<nat>)
    requires k < |list|
  {
    Leads(g, roots, c) == Some(list[k]) && IsFirst(g, roots, c) && Ahead(g, roots, list[..k], c)
  }

  ghost predicate SomeWay(g: Graph, roots: seq<string>, list: seq<string>, k: nat)
    requires k < |list|
  {
    exists c :: ListedByWay(g, roots, list, k, c)
  }

  ghost predicate ByFirstWays(g: Graph, roots: seq<string>, list: seq<string>) {
    forall k: nat {:trigger SomeWay(g, roots, list, k)} :: k < |list| ==> SomeWay(g, roots, list, k)
  }

  lemma OneMoreByWay(g: Graph, roots: seq<string>, before: seq<string>, list: seq<string>, f: string, c: seq<nat>)
    requires RoundFree(g, roots) && ByFirstWays(g, roots, list) && before <= list
    requires Leads(g, roots, c) == Some(f) && f !in before && Ahead(g, roots, before, c)
    ensures ByFirstWays(g, roots, list + [f])
  {
    var more := list + [f];
    AheadIsFirst(g, roots, before, c);
    AheadGrows(g, roots, before, list, c);
    forall k: nat | k < |more| ensures SomeWay(g, roots, more, k) {
      if k < |list| {
        assert SomeWay(g, roots, list, k);
        var v :| ListedByWay(g, roots, list, k, v);
        assert more[..k] == list[..k];
        assert ListedByWay(g, roots, more, k, v);
      } else {
        assert more[..k] == list;
        assert ListedByWay(g, roots, more, k, c);
      }
    }
  }

  // ---- what a walk is given and leaves ----

  /** The walk comes to f by that way: the list is in the order of first ways so far,
      everything an earlier way leads to is in it, and f is not on the way itself. */
  ghost predicate Arrives(
    g: Graph, roots: seq<string>, seen: set<string>, list: seq<string>, f: string, way: seq<nat>)
  {
    && Leads(g, roots, way) == Some(f)
    && (RoundFree(g, roots) ==>
          ByFirstWays(g, roots, list) && Ahead(g, roots, list, way) && (f in seen ==> f in list))
  }

  /** It leaves everything under f listed. */
  ghost predicate Leaves(g: Graph, roots: seq<string>, list: seq<string>, f: string) {
    RoundFree(g, roots) ==> ByFirstWays(g, roots, list) && AllUnder(g, list, f)
  }

  /** The first i imports of f have been walked. */
  ghost predicate Part(
    g: Graph, roots: seq<string>, start: seq<string>, list: seq<string>, f: string, way: seq<nat>, i: nat)
  {
    && Leads(g, roots, way) == Some(f) && f in g && i <= |g[f].imports| && start <= list
    && (RoundFree(g, roots) ==>
          && ByFirstWays(g, roots, list) && Ahead(g, roots, start, way) && Ahead(g, roots, list, way + [i])
          && f !in start && forall j :: 0 <= j < i ==> AllUnder(g, list, g[f].imports[j]))
  }

  /** The descriptor that is missing first: none is before it on the ways, nor under
      it. */
  ghost predicate FirstBad(g: Graph, roots: seq<string>, bad: string) {
    RoundFree(g, roots) ==> exists c :: BadByWay(g, roots, bad, c)
  }

  ghost predicate BadByWay(g: Graph, roots: seq<string>, bad: string, c: seq<nat>) {
    && Leads(g, roots, c) == Some(bad) && IsFirst(g, roots, c)
    && (forall w {:trigger Leads(g, roots, w)} :: Leads(g, roots, w).Some? && TurnsBefore(w, c) ==>
          HasProto(g, Leads(g, roots, w).value))
    && forall x :: Reaches(g, bad, x) && x != bad ==> HasProto(g, x)
  }

  ghost predicate HasProto(g: Graph, x: string) {
    x in g && g[x].hasProto
  }

  lemma SeenIsLeft(g: Graph, roots: seq<string>, seen: set<string>, list: seq<string>, f: string, way: seq<nat>)
    requires Sound(g, seen, list) && Arrives(g, roots, seen, list, f, way) && f in seen
    ensures Leaves(g, roots, list, f)
  {
    if RoundFree(g, roots) {
      LeadsToNeeded(g, roots, way);
      forall x | Reaches(g, f, x) ensures x in list {
        var p :| Links(g, p, f, x);
        UnderListed(g, roots, seen, list, p);
      }
    }
  }

  lemma PartStarts(g: Graph, roots: seq<string>, seen: set<string>, list: seq<string>, f: string, way: seq<nat>)
    requires Arrives(g, roots, seen, list, f, way) && f !in list && f in g
    ensures Part(g, roots, list, list, f, way, 0)
  {
    if RoundFree(g, roots) {
      AheadOfFirst(g, roots, list, way);
    }
  }

  /** An import that is being walked would lead back to the file. */
  lemma PartArrives(g: Graph, roots: seq<string>, start: seq<string>, seen: set<string>, list: seq<string>, f: string,
                    way: seq<nat>, i: nat)
    requires Part(g, roots, start, list, f, way, i) && i < |g[f].imports|
    requires forall a | a in seen - Elements(list) :: Reaches(g, a, f)
    ensures Arrives(g, roots, seen, list, g[f].imports[i], way + [i])
  {
    var b := g[f].imports[i];
    LeadsOn(g, roots, way, i);
    if RoundFree(g, roots) && b in seen && b !in list {
      assert Imports(g, f, b) && Reaches(g, b, f);
      LeadsToNeeded(g, roots, way);
    }
  }

  lemma PartOneMore(g: Graph, roots: seq<string>, start: seq<string>, list: seq<string>, more: seq<string>, f: string,
                    way: seq<nat>, i: nat)
    requires Part(g, roots, start, list, f, way, i) && i < |g[f].imports| && list <= more
    requires Leaves(g, roots, more, g[f].imports[i])
    ensures Part(g, roots, start, more, f, way, i + 1)
  {
    LeadsOn(g, roots, way, i);
    if RoundFree(g, roots) {
      AheadGrows(g, roots, list, more, way + [i]);
      AheadOfNext(g, roots, more, way, i);
      forall j | 0 <= j < i ensures AllUnder(g, more, g[f].imports[j]) {
        assert AllUnder(g, list, g[f].imports[j]);
      }
    }
  }

  lemma PartLeaves(g: Graph, roots: seq<string>, start: seq<string>, list: seq<string>, f: string, way: seq<nat>)
    requires f in g && Part(g, roots, start, list, f, way, |g[f].imports|)
    ensures Leaves(g, roots, list + [f], f)
  {
    if RoundFree(g, roots) {
      OneMoreByWay(g, roots, start, list, f, way);
      UnderFile(g, list, f);
    }
  }

  lemma BadIsFirst(g: Graph, roots: seq<string>, start: seq<string>, seen: set<string>, list: seq<string>, f: string,
                   way: seq<nat>)
    requires f in g && Sound(g, seen, list) && Part(g, roots, start, list, f, way, |g[f].imports|)
    ensures FirstBad(g, roots, f)
  {
    if RoundFree(g, roots) {
      AheadIsFirst(g, roots, start, way);
      UnderFile(g, list, f);
      forall x | x in list ensures HasProto(g, x) {
        var k: nat :| k < |list| && list[k] == x;
        assert Settled(g, list, seen, k);
      }
      assert BadByWay(g, roots, f, way);
    }
  }

  /** The first i roots have been walked. */
  ghost predicate RootsDone(g: Graph, roots: seq<string>, list: seq<string>, i: nat) {
    i <= |roots| && (RoundFree(g, roots) ==> ByFirstWays(g, roots, list) && Ahead(g, roots, list, [i]))
  }

  lemma RootsStart(g: Graph, roots: seq<string>)
    ensures RootsDone(g, roots, [], 0)
  {
    forall w, k: nat ensures !TurnsOff(w, [0], k) {
    }
  }

  lemma RootArrives(g: Graph, roots: seq<string>, seen: set<string>, list: seq<string>, i: nat)
    requires RootsDone(g, roots, list, i) && i < |roots| && seen == Elements(list)
    ensures Arrives(g, roots, seen, list, roots[i], [i])
  {
  }

  lemma RootOneMore(g: Graph, roots: seq<string>, list: seq<string>, more: seq<string>, i: nat)
    requires RootsDone(g, roots, list, i) && i < |roots| && list <= more && Leaves(g, roots, more, roots[i])
    ensures RootsDone(g, roots, more, i + 1)
  {
    if RoundFree(g, roots) {
      assert [] + [i] == [i] && [] + [i + 1] == [i + 1];
      AheadGrows(g, roots, list, more, [i]);
      AheadOfNext(g, roots, more, [], i);
    }
  }
}
