/** Reports that are a tally: one diagnostic for each of a list of violations, in
    their order. */
module Tally {
  import opened Text
  import opened Diag

  /** ds is what vs calls for, one diagnostic a violation. */
  ghost predicate Tells<V>(says: (Diagnostic, V) -> bool, ds: seq<Diagnostic>, vs: seq<V>) {
    |ds| == |vs| && forall i :: 0 <= i < |vs| ==> says(ds[i], vs[i])
  }

  ghost function Collect<V>(n: nat, f: nat -> seq<V>): seq<V> {
    if n == 0 then [] else Collect(n - 1, f) + f(n - 1)
  }

  lemma TellsBoth<V>(says: (Diagnostic, V) -> bool, ds: seq<Diagnostic>, vs: seq<V>, ds': seq<Diagnostic>, vs': seq<V>)
    requires Tells(says, ds, vs) && Tells(says, ds', vs')
    ensures Tells(says, ds + ds', vs + vs')
  {
  }

  lemma {:induction false} GatherTells<V>(
    says: (Diagnostic, V) -> bool, n: nat, d: nat -> seq<Diagnostic>, f: nat -> seq<V>)
    requires forall k {:trigger f(k)} :: 0 <= k < n ==> Tells(says, d(k), f(k))
    ensures Tells(says, Gather(n, d), Collect(n, f))
  {
    if n > 0 {
      GatherTells(says, n - 1, d, f);
      assert Tells(says, d(n - 1), f(n - 1));
      TellsBoth(says, Gather(n - 1, d), Collect(n - 1, f), d(n - 1), f(n - 1));
    }
  }

  /** The same from place m on, of a row that tells vs up to there. */
  lemma {:induction false} GatherTellsOn<V>(
    says: (Diagnostic, V) -> bool, m: nat, vs: seq<V>, n: nat, d: nat -> seq<Diagnostic>, f: nat -> seq<V>)
    requires Tells(says, Gather(m, d), vs)
    requires forall k {:trigger f(k)} :: 0 <= k < n ==> Tells(says, d(m + k), f(k))
    ensures Tells(says, Gather(m + n, d), vs + Collect(n, f))
  {
    if n == 0 {
      assert vs + Collect(0, f) == vs;
    } else {
      GatherTellsOn(says, m, vs, n - 1, d, f);
      assert Tells(says, d(m + (n - 1)), f(n - 1));
      TellsBoth(says, Gather(m + n - 1, d), vs + Collect(n - 1, f), d(m + (n - 1)), f(n - 1));
      assert vs + Collect(n - 1, f) + f(n - 1) == vs + Collect(n, f);
    }
  }

  lemma {:induction false} CollectAgrees<V>(n: nat, f: nat -> seq<V>, g: nat -> seq<V>)
    requires forall k: nat :: k < n ==> f(k) == g(k)
    ensures Collect(n, f) == Collect(n, g)
  {
    if n > 0 {
      CollectAgrees(n - 1, f, g);
    }
  }

  lemma {:induction false} CollectMembers<V>(n: nat, f: nat -> seq<V>, v: V)
    ensures v in Collect(n, f) <==> exists k: nat :: k < n && v in f(k)
  {
    if n > 0 {
      CollectMembers(n - 1, f, v);
    }
  }

  /** Each is before all that follow it. */
  ghost predicate InOrder<V>(less: (V, V) -> bool, vs: seq<V>) {
    forall i, j :: 0 <= i < j < |vs| ==> less(vs[i], vs[j])
  }

  lemma InOrderIsDistinct<V(!new)>(less: (V, V) -> bool, vs: seq<V>)
    requires InOrder(less, vs) && forall v :: !less(v, v)
    ensures Distinct(vs)
  {
  }

  lemma OrderedBoth<V>(less: (V, V) -> bool, s: seq<V>, t: seq<V>)
    requires InOrder(less, s) && InOrder(less, t) && forall x, y | x in s && y in t :: less(x, y)
    ensures InOrder(less, s + t)
  {
    forall i, j | 0 <= i < j < |s + t| ensures less((s + t)[i], (s + t)[j]) {
      if i < |s| <= j {
        assert s[i] in s && t[j - |s|] in t;
      }
    }
  }

  /** What is collected is in order when what is collected at k is, and says k. */
  lemma {:induction false} CollectOrdered<V(!new)>(
    n: nat, f: nat -> seq<V>, less: (V, V) -> bool, at: V -> nat, mine: V -> bool)
    requires forall k {:trigger f(k)} :: 0 <= k < n ==>
      InOrder(less, f(k)) && forall v :: v in f(k) ==> mine(v) && at(v) == k
    requires forall x, y {:trigger mine(x), mine(y)} :: mine(x) && mine(y) && at(x) < at(y) ==> less(x, y)
    ensures InOrder(less, Collect(n, f))
  {
    if n > 0 {
      CollectOrdered(n - 1, f, less, at, mine);
      var before, last := Collect(n - 1, f), f(n - 1);
      forall x, y | x in before && y in last ensures less(x, y) {
        CollectMembers(n - 1, f, x);
      }
      OrderedBoth(less, before, last);
    }
  }
}
