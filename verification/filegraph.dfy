/** Compiled files and what they import, and what holds of a list of them while a
    walk is making it (internal/protoc/compile.go). */
module FileGraph {
  import opened Text

  /** hasProto is whether the descriptor can be turned back into a message. */
  datatype File = File(imports: seq<string>, hasProto: bool)

  /** The compiled files, by path. */
  type Graph = map<string, File>

  ghost predicate Closed(g: Graph) {
    forall f, i :: f in g && 0 <= i < |g[f].imports| ==> g[f].imports[i] in g
  }

  predicate Imports(g: Graph, a: string, b: string) {
    a in g && b in g[a].imports
  }

  /** A chain of imports. */
  ghost predicate Chain(g: Graph, p: seq<string>) {
    p != [] && forall i :: 0 <= i < |p| - 1 ==> Imports(g, p[i], p[i + 1])
  }

  ghost predicate Links(g: Graph, p: seq<string>, a: string, b: string) {
    Chain(g, p) && p[0] == a && p[|p| - 1] == b
  }

  ghost predicate Reaches(g: Graph, a: string, b: string) {
    exists p :: Links(g, p, a, b)
  }

  lemma ReachesItself(g: Graph, a: string)
    ensures Reaches(g, a, a)
  {
    assert Links(g, [a], a, a);
  }

  lemma ReachesOn(g: Graph, a: string, b: string, c: string)
    requires Reaches(g, a, b) && Reaches(g, b, c)
    ensures Reaches(g, a, c)
  {
    var p :| Links(g, p, a, b);
    var q :| Links(g, q, b, c);
    var r := p + q[1..];
    forall i | 0 <= i < |r| - 1 ensures Imports(g, r[i], r[i + 1]) {
      if i < |p| - 1 {
        assert r[i] == p[i] && r[i + 1] == p[i + 1];
      } else {
        assert r[i] == q[i - |p| + 1] && r[i + 1] == q[i - |p| + 2];
      }
    }
    assert Links(g, r, a, c);
  }

  lemma ImportReaches(g: Graph, a: string, b: string)
    requires Imports(g, a, b)
    ensures Reaches(g, a, b)
  {
    assert Links(g, [a, b], a, b);
  }

  /** A file imports one that leads back to it. */
  ghost predicate OnCycle(g: Graph, a: string) {
    exists b :: Imports(g, a, b) && Reaches(g, b, a)
  }

  ghost function Elements(s: seq<string>): set<string> {
    set x | x in s
  }

  ghost predicate Settled(g: Graph, list: seq<string>, seen: set<string>, k: nat)
    requires k < |list|
  {
    && list[k] in g && g[list[k]].hasProto
    && forall b :: Imports(g, list[k], b) ==> b in seen && (b in list[..k] || Reaches(g, b, list[k]))
  }

  /** What holds of the walk between calls: every file listed is seen, is listed
      once, and has each import seen, and earlier in the list unless the import
      leads back. */
  ghost predicate Sound(g: Graph, seen: set<string>, list: seq<string>) {
    && seen <= g.Keys && Elements(list) <= seen && Distinct(list)
    && forall k: nat {:trigger Settled(g, list, seen, k)} :: k < |list| ==> Settled(g, list, seen, k)
  }

  lemma SoundGrows(g: Graph, seen: set<string>, seen': set<string>, list: seq<string>, f: string)
    requires Sound(g, seen, list) && seen <= seen' <= g.Keys && f in seen' && f !in list
    requires f in g && g[f].hasProto
    requires forall b :: Imports(g, f, b) ==> b in seen' && (b in list || Reaches(g, b, f))
    ensures Sound(g, seen', list + [f])
  {
    var list' := list + [f];
    forall k: nat | k < |list'| ensures Settled(g, list', seen', k) {
      if k < |list| {
        assert Settled(g, list, seen, k);
        assert list'[..k] == list[..k];
      } else {
        assert list'[..k] == list;
      }
    }
  }

  lemma SoundWithSeen(g: Graph, seen: set<string>, seen': set<string>, list: seq<string>)
    requires Sound(g, seen, list) && seen <= seen' <= g.Keys
    ensures Sound(g, seen', list)
  {
    forall k: nat | k < |list| ensures Settled(g, list, seen', k) {
      assert Settled(g, list, seen, k);
    }
  }

  ghost predicate Needed(g: Graph, roots: seq<string>, a: string) {
    exists i :: 0 <= i < |roots| && Reaches(g, roots[i], a)
  }
}
