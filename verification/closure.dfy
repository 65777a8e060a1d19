/** The import closure of a request (internal/protoc/compile.go): a walk that
    emits each file after the files it imports. */
module Closure {
  import opened Wrappers
  import opened Text
  import opened FileGraph
  import opened Ways

  /** The variables the walk captures. */
  class Walker {
    var seen: set<string>
    var closure: seq<string>

    constructor ()
      ensures seen == {} && closure == []
    {
      seen := {};
      closure := [];
    }

    /** One file and everything under it that has not been seen. `seen` without
        what is listed is the chain of files being walked, and each of those
        leads here. The way is how the walk came. */
    method Walk(g: Graph, f: string, ghost roots: seq<string>, ghost way: seq<nat>) returns (bad: Option<string>)
      requires Closed(g) && f in g && Sound(g, seen, closure)
      requires forall a | a in seen - Elements(closure) :: Reaches(g, a, f)
      requires Arrives(g, roots, seen, closure, f, way)
      modifies this
      ensures Sound(g, seen, closure)
      ensures old(closure) <= closure && old(seen) <= seen && f in seen
      ensures forall a | a in seen - old(seen) :: Reaches(g, f, a)
      ensures bad.None? ==> seen - Elements(closure) == old(seen) - Elements(old(closure))
      ensures bad.None? ==> Leaves(g, roots, closure, f)
      ensures bad.Some? ==> Reaches(g, f, bad.value) && bad.value in g && !g[bad.value].hasProto
      ensures bad.Some? ==> FirstBad(g, roots, bad.value)
      decreases g.Keys - seen
    {
      if f in seen {
        SeenIsLeft(g, roots, seen, closure, f, way);
        return None;
      }
      PartStarts(g, roots, seen, closure, f, way);
      seen := seen + {f};
      SoundWithSeen(g, old(seen), seen, closure);
      ReachesItself(g, f);
      var imports := g[f].imports;
      ghost var start := closure;
      for i := 0 to |imports|
        invariant Sound(g, seen, closure)
        invariant start <= closure && old(seen) + {f} <= seen
        invariant forall a | a in seen - old(seen) :: Reaches(g, f, a)
        invariant seen - Elements(closure) == old(seen) - Elements(start) + {f}
        invariant forall j :: 0 <= j < i ==> imports[j] in seen
        invariant Part(g, roots, start, closure, f, way, i)
      {
        var b := imports[i];
        assert Imports(g, f, b);
        ImportReaches(g, f, b);
        forall a | a in seen - Elements(closure) ensures Reaches(g, a, b) {
          ReachesOn(g, a, f, b);
        }
        ghost var before, listed := seen, closure;
        PartArrives(g, roots, start, seen, closure, f, way, i);
        bad := Walk(g, b, roots, way + [i]);
        forall a | a in seen - before ensures Reaches(g, f, a) {
          ReachesOn(g, f, b, a);
        }
        if bad.Some? {
          ReachesOn(g, f, b, bad.value);
          return;
        }
        PartOneMore(g, roots, start, listed, closure, f, way, i);
      }
      assert f in seen - Elements(closure);
      forall b | Imports(g, f, b) ensures b in seen && (b in closure || Reaches(g, b, f)) {
        assert b in closure || b in seen - Elements(closure);
      }
      bad := ListFile(g, f, start, roots, way);
    }

    /** What is left to do once the imports of a file have been walked. */
    method ListFile(g: Graph, f: string, ghost start: seq<string>, ghost roots: seq<string>, ghost way: seq<nat>)
      returns (bad: Option<string>)
      requires f in g && Sound(g, seen, closure) && f in seen && f !in closure
      requires forall b :: Imports(g, f, b) ==> b in seen && (b in closure || Reaches(g, b, f))
      requires Part(g, roots, start, closure, f, way, |g[f].imports|)
      modifies this`closure
      ensures Sound(g, seen, closure) && (bad.None? <==> g[f].hasProto)
      ensures bad.None? ==> closure == old(closure) + [f] && Elements(closure) == Elements(old(closure)) + {f}
      ensures bad.None? ==> Leaves(g, roots, closure, f)
      ensures bad.Some? ==> closure == old(closure) && bad == Some(f) && FirstBad(g, roots, f)
    {
      if !g[f].hasProto {
        BadIsFirst(g, roots, start, seen, closure, f, way);
        return Some(f);
      }
      SoundGrows(g, seen, seen, closure, f);
      PartLeaves(g, roots, start, closure, f, way);
      closure := closure + [f];
      assert Elements(closure) == Elements(closure[..|closure| - 1]) + {f};
      return None;
    }
  }

  // ---- the request ----

  /** What a plugin is handed: the files to generate, and every file they need. */
  datatype Req = Req(fileToGenerate: seq<string>, protoFile: seq<string>)

  /** The list settles itself: nothing is seen that is not in it. */
  ghost predicate Complete(g: Graph, list: seq<string>) {
    Sound(g, Elements(list), list)
  }

  lemma {:induction false} ChainStaysListed(g: Graph, list: seq<string>, p: seq<string>)
    requires Complete(g, list) && Chain(g, p) && p[0] in list
    ensures p[|p| - 1] in list
  {
    if |p| > 1 {
      var k: nat :| k < |list| && list[k] == p[0];
      assert Settled(g, list, Elements(list), k) && Imports(g, p[0], p[1]);
      forall i | 0 <= i < |p[1..]| - 1 ensures Imports(g, p[1..][i], p[1..][i + 1]) {
        assert Imports(g, p[i + 1], p[i + 2]);
      }
      ChainStaysListed(g, list, p[1..]);
    }
  }

  /** The walk of the first i roots has come to an end: nothing is seen that is not
      listed. */
  ghost predicate Rested(g: Graph, roots: seq<string>, seen: set<string>, list: seq<string>, i: nat) {
    && i <= |roots| && Sound(g, seen, list) && seen == Elements(list) && RootsDone(g, roots, list, i)
    && (forall j :: 0 <= j < i ==> roots[j] in list)
    && forall a | a in list :: Needed(g, roots, a)
  }

  method WalkRoot(w: Walker, g: Graph, roots: seq<string>, i: nat) returns (bad: Option<string>)
    requires Closed(g) && i < |roots| && roots[i] in g && Rested(g, roots, w.seen, w.closure, i)
    modifies w
    ensures bad.None? ==> Rested(g, roots, w.seen, w.closure, i + 1)
    ensures bad.Some? ==> Needed(g, roots, bad.value) && bad.value in g && !g[bad.value].hasProto
    ensures bad.Some? ==> FirstBad(g, roots, bad.value)
  {
    ghost var before := w.closure;
    assert w.seen - Elements(w.closure) == {};
    RootArrives(g, roots, w.seen, w.closure, i);
    bad := w.Walk(g, roots[i], roots, [i]);
    if bad.None? {
      RootOneMore(g, roots, before, w.closure, i);
      forall a | a in w.closure ensures Needed(g, roots, a) {
        assert a in before || Reaches(g, roots[i], a);
      }
      forall x | x in w.seen ensures x in Elements(w.closure) {
        assert x !in w.seen - Elements(w.closure);
      }
    }
  }

  /** The files needed, each listed once, with every import of a file listed and
      before it unless it leads back; or an error, exactly when some file needed
      has no descriptor to send, which names one that has none. Where imports do not
      go round, the list is in the order of the first ways, and the error names the
      first file on them that has none. */
  method Request(g: Graph, roots: seq<string>) returns (r: Result<Req, string>)
    requires Closed(g) && forall i :: 0 <= i < |roots| ==> roots[i] in g
    ensures r.Failure? <==> exists a :: Needed(g, roots, a) && a in g && !g[a].hasProto
    ensures r.Failure? ==> Needed(g, roots, r.error) && r.error in g && !g[r.error].hasProto
    ensures r.Failure? ==> FirstBad(g, roots, r.error)
    ensures r.Success? ==> Complete(g, r.value.protoFile)
    ensures r.Success? ==> forall a :: a in r.value.protoFile <==> Needed(g, roots, a)
    ensures r.Success? ==> (RoundFree(g, roots) ==> ByFirstWays(g, roots, r.value.protoFile))
    ensures r.Success? ==> r.value.fileToGenerate == SortStrings(roots)
  {
    var w := new Walker();
    var generate := [];
    RootsStart(g, roots);
    for i := 0 to |roots|
      invariant Rested(g, roots, w.seen, w.closure, i) && generate == roots[..i]
    {
      var bad := WalkRoot(w, g, roots, i);
      if bad.Some? {
        return Failure(bad.value);
      }
      generate := generate + [roots[i]];
    }
    assert generate == roots;
    forall a | Needed(g, roots, a) ensures a in w.closure && g[a].hasProto {
      NeededIsListed(g, roots, w.closure, a);
    }
    r := Success(Req(SortStrings(generate), w.closure));
  }

  lemma NeededIsListed(g: Graph, roots: seq<string>, list: seq<string>, a: string)
    requires Complete(g, list) && Needed(g, roots, a)
    requires forall i :: 0 <= i < |roots| ==> roots[i] in list
    ensures a in list && a in g && g[a].hasProto
  {
    var i :| 0 <= i < |roots| && Reaches(g, roots[i], a);
    var p :| Links(g, p, roots[i], a);
    ChainStaysListed(g, list, p);
    var k: nat :| k < |list| && list[k] == a;
    assert Settled(g, list, Elements(list), k);
  }

  // ---- the order ----

  /** Each file comes after the files it imports. */
  ghost predicate Ordered(g: Graph, list: seq<string>) {
    forall k, b :: 0 <= k < |list| && Imports(g, list[k], b) ==> b in list[..k]
  }

  /** In an ordered list a chain of imports only goes back. */
  lemma {:induction false} ChainGoesBack(g: Graph, list: seq<string>, p: seq<string>, k: nat) returns (j: nat)
    requires Ordered(g, list) && Chain(g, p) && k < |list| && p[0] == list[k]
    ensures j <= k && list[j] == p[|p| - 1]
    ensures |p| > 1 ==> j < k
  {
    if |p| == 1 {
      j := k;
    } else {
      assert Imports(g, list[k], p[1]);
      var i: nat :| i < k && list[i] == p[1];
      forall l | 0 <= l < |p[1..]| - 1 ensures Imports(g, p[1..][l], p[1..][l + 1]) {
        assert Imports(g, p[l + 1], p[l + 2]);
      }
      j := ChainGoesBack(g, list, p[1..], i);
    }
  }

  /** The walk sorts by construction exactly when it can be sorted at all: the
      list is ordered if and only if no file in it imports its way back to
      itself. */
  lemma OrderedIffAcyclic(g: Graph, list: seq<string>)
    requires Complete(g, list)
    ensures Ordered(g, list) <==> forall a | a in list :: !OnCycle(g, a)
  {
    if Ordered(g, list) {
      forall a | a in list ensures !OnCycle(g, a) {
        forall b | Imports(g, a, b) ensures !Reaches(g, b, a) {
          forall p ensures !Links(g, p, b, a) {
            ChainThroughItself(g, list, a, b, p);
          }
        }
      }
    } else {
      var k, b :| 0 <= k < |list| && Imports(g, list[k], b) && b !in list[..k];
      assert Settled(g, list, Elements(list), k);
      assert OnCycle(g, list[k]);
    }
  }

  lemma ChainThroughItself(g: Graph, list: seq<string>, a: string, b: string, p: seq<string>)
    requires Ordered(g, list) && Distinct(list) && a in list && Imports(g, a, b)
    ensures !Links(g, p, b, a)
  {
    if Links(g, p, b, a) {
      var q := [a] + p;
      forall i | 0 <= i < |q| - 1 ensures Imports(g, q[i], q[i + 1]) {
        if i > 0 {
          assert Imports(g, p[i - 1], p[i]);
        }
      }
      var k: nat :| k < |list| && list[k] == a;
      var j := ChainGoesBack(g, list, q, k);
    }
  }

  /** So when imports do not go round, every file needed by another comes before
      it, however far down the imports it is. */
  lemma TransitiveImportsComeFirst(g: Graph, list: seq<string>, k: nat, b: string)
    requires Complete(g, list) && (forall a | a in list :: !OnCycle(g, a))
    requires k < |list| && Reaches(g, list[k], b)
    ensures b == list[k] || b in list[..k]
  {
    OrderedIffAcyclic(g, list);
    var p :| Links(g, p, list[k], b);
    var j := ChainGoesBack(g, list, p, k);
  }

  /** The order of the list is the only one: of two files, the one comes first whose
      first way turns off before the other's, by the roots and then the imports as
      they are written, or goes on from it. */
  lemma FirstWaysOrder(
    g: Graph, roots: seq<string>, list: seq<string>, k: nat, l: nat, c: seq<nat>, d: seq<nat>)
    requires Complete(g, list) && (forall a | a in list :: !OnCycle(g, a)) && k < |list| && l < |list| && k != l
    requires ListedByWay(g, roots, list, k, c) && ListedByWay(g, roots, list, l, d)
    ensures k < l <==> TurnsBefore(c, d) || d <= c
  {
    WaysDiffer(c, d);
    if c <= d {
      LeadsUnder(g, roots, c, d);
      TransitiveImportsComeFirst(g, list, k, list[l]);
    } else if d <= c {
      LeadsUnder(g, roots, d, c);
      TransitiveImportsComeFirst(g, list, l, list[k]);
    } else if TurnsBefore(c, d) {
      assert Leads(g, roots, c) == Some(list[k]);
      assert list[k] in list[..l];
    } else {
      assert Leads(g, roots, d) == Some(list[l]);
      assert list[l] in list[..k];
    }
  }
}
