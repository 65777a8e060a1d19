/** Putting finitely many things in an order that a relation asks for. */
module Precedence {
  import opened Text

  /** Each number of w is asked to come before the next. */
  ghost predicate Steps(before: (nat, nat) -> bool, n: nat, w: seq<nat>) {
    && (forall k :: 0 <= k < |w| ==> w[k] < n)
    && (forall k :: 0 <= k < |w| - 1 ==> before(w[k], w[k + 1]))
  }

  /** Something is asked, step by step, to come before itself. */
  ghost predicate Cyclic(before: (nat, nat) -> bool, n: nat) {
    exists w :: |w| >= 2 && Steps(before, n, w) && w[0] == w[|w| - 1]
  }

  /** Nothing later is asked to come before anything earlier. */
  ghost predicate Heeds(before: (nat, nat) -> bool, order: seq<nat>) {
    forall i, j :: 0 <= i < j < |order| ==> !before(order[j], order[i])
  }

  lemma {:induction false} Repeats(w: seq<nat>, left: set<nat>) returns (i: nat, j: nat)
    requires |w| > |left| && forall k :: 0 <= k < |w| ==> w[k] in left
    ensures i < j < |w| && w[i] == w[j]
    decreases |w|
  {
    var n := |w| - 1;
    if k: nat :| k < n && w[k] == w[n] {
      return k, n;
    }
    i, j := Repeats(w[..n], left - {w[n]});
  }

  ghost predicate HasEarlier(before: (nat, nat) -> bool, left: set<nat>, a: nat) {
    exists b :: b in left && before(b, a)
  }

  /** Where everything left has something left to come after, walking back never
      ends. */
  lemma {:induction false} WalkBack(before: (nat, nat) -> bool, n: nat, left: set<nat>, len: nat) returns (w: seq<nat>)
    requires left != {} && len > 0
    requires forall a {:trigger HasEarlier(before, left, a)} | a in left :: a < n && HasEarlier(before, left, a)
    ensures |w| == len && Steps(before, n, w) && forall k :: 0 <= k < |w| ==> w[k] in left
  {
    if len == 1 {
      var a :| a in left;
      assert HasEarlier(before, left, a);
      return [a];
    }
    var rest := WalkBack(before, n, left, len - 1);
    assert HasEarlier(before, left, rest[0]);
    var b :| b in left && before(b, rest[0]);
    assert HasEarlier(before, left, b);
    w := [b] + rest;
  }

  lemma StepsWithin(before: (nat, nat) -> bool, n: nat, w: seq<nat>, i: nat, j: nat)
    requires Steps(before, n, w) && i < j < |w|
    ensures Steps(before, n, w[i..j + 1])
  {
    var part := w[i..j + 1];
    forall k | 0 <= k < |part| - 1 ensures before(part[k], part[k + 1]) {
      assert before(w[i + k], w[i + k + 1]);
    }
  }

  /** And goes round, since there are finitely many to walk over. */
  lemma NothingFirstIsCyclic(before: (nat, nat) -> bool, n: nat, left: set<nat>)
    requires left != {}
    requires forall a {:trigger HasEarlier(before, left, a)} | a in left :: a < n && HasEarlier(before, left, a)
    ensures Cyclic(before, n)
  {
    var w := WalkBack(before, n, left, |left| + 1);
    var i, j := Repeats(w, left);
    StepsWithin(before, n, w, i, j);
    var part := w[i..j + 1];
    assert |part| >= 2 && part[0] == part[|part| - 1];
  }

  lemma SomethingIsFirst(before: (nat, nat) -> bool, n: nat, left: set<nat>) returns (a: nat)
    requires left != {} && (forall x | x in left :: x < n) && !Cyclic(before, n)
    ensures a in left && !HasEarlier(before, left, a)
  {
    if forall x {:trigger HasEarlier(before, left, x)} | x in left :: x < n && HasEarlier(before, left, x) {
      NothingFirstIsCyclic(before, n, left);
    }
    a :| a in left && !HasEarlier(before, left, a);
  }

  lemma {:induction false} OrderOf(before: (nat, nat) -> bool, n: nat, left: set<nat>) returns (order: seq<nat>)
    requires (forall x | x in left :: x < n) && !Cyclic(before, n)
    ensures (forall x :: x in order <==> x in left) && Distinct(order) && Heeds(before, order)
    decreases |left|
  {
    if left == {} {
      return [];
    }
    var a := SomethingIsFirst(before, n, left);
    var rest := OrderOf(before, n, left - {a});
    order := [a] + rest;
    forall i, j | 0 <= i < j < |order| ensures !before(order[j], order[i]) {
      assert order[j] in rest;
      assert HasEarlier(before, left, a) || !before(order[j], a);
    }
  }

  /** What nothing asks to go round can be put in order, all of it. */
  lemma AcyclicHasOrder(before: (nat, nat) -> bool, n: nat) returns (order: seq<nat>)
    requires !Cyclic(before, n)
    ensures multiset(order) == multiset(Upto(n)) && Heeds(before, order)
  {
    var all := set x | x in Upto(n);
    forall x: nat | x < n ensures x in all {
      assert Upto(n)[x] == x;
    }
    assert forall x :: x in all ==> x < n;
    order := OrderOf(before, n, all);
    assert forall k :: 0 <= k < |order| ==> order[k] in order;
    assert forall x: nat :: x < n ==> x in order;
    EveryNumberOnce(order, n);
  }

  lemma {:induction false} PlacesGrow(before: (nat, nat) -> bool, n: nat, place: seq<nat>, w: seq<nat>)
    requires |place| == n && Steps(before, n, w) && |w| >= 2
    requires forall a, b :: 0 <= a < n && 0 <= b < n && before(a, b) ==> place[a] < place[b]
    ensures place[w[0]] < place[w[|w| - 1]]
  {
    var k := |w| - 1;
    assert before(w[k - 1], w[k]);
    if k > 1 {
      assert Steps(before, n, w[..k]) by {
        assert forall i :: 0 <= i < k - 1 ==> before(w[i], w[i + 1]);
      }
      PlacesGrow(before, n, place, w[..k]);
    }
  }

  /** Places that heed the relation rule a cycle out. */
  lemma PlacedIsAcyclic(before: (nat, nat) -> bool, n: nat, place: seq<nat>)
    requires |place| == n
    requires forall a, b :: 0 <= a < n && 0 <= b < n && before(a, b) ==> place[a] < place[b]
    ensures !Cyclic(before, n)
  {
    if w :| |w| >= 2 && Steps(before, n, w) && w[0] == w[|w| - 1] {
      PlacesGrow(before, n, place, w);
    }
  }

  lemma TwoGoRound(before: (nat, nat) -> bool, n: nat, a: nat, b: nat)
    requires a < n && b < n && before(a, b) && before(b, a)
    ensures Cyclic(before, n)
  {
    var w := [a, b, a];
    assert |w| >= 2 && Steps(before, n, w) && w[0] == w[|w| - 1];
  }
}
