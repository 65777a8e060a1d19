/** The two sorts the program asks its library for: a stable sort of members by
    number (schema/schema.go) and a sort of strings (gen/output.go,
    internal/protoc/compile.go, config/section.go). */
module Sorting {

  /** le is total and transitive on the elements of s. */
  ghost predicate TotalPreorderOn<T>(le: (T, T) -> bool, s: seq<T>) {
    && (forall x, y | x in s && y in s :: le(x, y) || le(y, x))
    && (forall x, y, z | x in s && y in s && z in s && le(x, y) && le(y, z) :: le(x, z))
  }

  ghost predicate Sorted<T>(le: (T, T) -> bool, s: seq<T>) {
    forall i, j :: 0 <= i < j < |s| ==> le(s[i], s[j])
  }

  /** le tells every two different elements of s apart. */
  ghost predicate Separates<T>(le: (T, T) -> bool, s: seq<T>) {
    forall x, y | x in s && y in s && le(x, y) && le(y, x) :: x == y
  }

  /** x goes before the first element that is not smaller than it. */
  function Insert<T>(le: (T, T) -> bool, x: T, s: seq<T>): seq<T> {
    if s == [] || le(x, s[0]) then [x] + s else [s[0]] + Insert(le, x, s[1..])
  }

  function Sort<T>(le: (T, T) -> bool, s: seq<T>): seq<T> {
    if s == [] then [] else Insert(le, s[0], Sort(le, s[1..]))
  }

  lemma Assoc<T>(a: seq<T>, b: seq<T>, c: seq<T>)
    ensures (a + b) + c == a + (b + c)
  {
  }

  /** at are the places of the elements p picks, in their order. */
  ghost predicate PlacesOf<T>(at: seq<nat>, s: seq<T>, p: T -> bool) {
    && (forall i, j :: 0 <= i < j < |at| ==> at[i] < at[j])
    && (forall i :: 0 <= i < |at| ==> at[i] < |s| && p(s[at[i]]))
    && (forall k: nat :: k < |s| && p(s[k]) ==> k in at)
  }

  /** us stand for the elements p picks, one for each and in their order. */
  ghost predicate Picked<T, U>(at: seq<nat>, s: seq<T>, p: T -> bool, us: seq<U>, r: (T, U) -> bool) {
    PlacesOf(at, s, p) && |at| == |us| && forall i :: 0 <= i < |at| ==> r(s[at[i]], us[i])
  }

  lemma PickOneMore<T, U>(at: seq<nat>, s: seq<T>, p: T -> bool, us: seq<U>, r: (T, U) -> bool, u: U)
    requires s != [] && p(s[|s| - 1]) && r(s[|s| - 1], u) && Picked(at, s[..|s| - 1], p, us, r)
    ensures Picked(at + [|s| - 1], s, p, us + [u], r)
  {
    var n := |s| - 1;
    forall k: nat | k < |s| && p(s[k]) ensures k in at + [n] {
      assert k < n ==> p(s[..n][k]);
    }
  }

  lemma PickNoMore<T, U>(at: seq<nat>, s: seq<T>, p: T -> bool, us: seq<U>, r: (T, U) -> bool)
    requires s != [] && !p(s[|s| - 1]) && Picked(at, s[..|s| - 1], p, us, r)
    ensures Picked(at, s, p, us, r)
  {
    var n := |s| - 1;
    forall k: nat | k < |s| && p(s[k]) ensures k in at {
      assert k < n ==> p(s[..n][k]);
    }
  }

  /** The elements that satisfy p, in order. */
  function Filter<T>(p: T -> bool, s: seq<T>): seq<T> {
    if s == [] then [] else (if p(s[0]) then [s[0]] else []) + Filter(p, s[1..])
  }

  lemma {:induction false} FilterMembers<T>(p: T -> bool, s: seq<T>)
    ensures forall i :: 0 <= i < |Filter(p, s)| ==> Filter(p, s)[i] in s && p(Filter(p, s)[i])
    ensures forall i :: 0 <= i < |s| && p(s[i]) ==> s[i] in Filter(p, s)
  {
    if s != [] {
      FilterMembers(p, s[1..]);
      assert s == [s[0]] + s[1..];
      var t := Filter(p, s[1..]);
      forall i | 0 <= i < |Filter(p, s)| ensures Filter(p, s)[i] in s && p(Filter(p, s)[i]) {
        assert Filter(p, s)[i] == if p(s[0]) then ([s[0]] + t)[i] else t[i];
      }
      forall i | 0 < i < |s| && p(s[i]) ensures s[i] in Filter(p, s) {
        assert s[i] == s[1..][i - 1] && s[1..][i - 1] in t;
      }
    }
  }

  /** What a filter keeps and what it drops are the whole list. */
  lemma {:induction false} FilterSplits<T>(p: T -> bool, q: T -> bool, s: seq<T>)
    requires forall i :: 0 <= i < |s| ==> (q(s[i]) <==> !p(s[i]))
    ensures multiset(Filter(p, s)) + multiset(Filter(q, s)) == multiset(s)
  {
    if s != [] {
      FilterSplits(p, q, s[1..]);
      assert s == [s[0]] + s[1..];
    }
  }

  ghost function Without<T>(x: T, s: seq<T>): seq<T> {
    if s == [] then [] else (if s[0] == x then [] else [s[0]]) + Without(x, s[1..])
  }

  /** Taking one element out of a list that has it once. */
  lemma {:induction false} WithoutOne<T>(x: T, s: seq<T>)
    ensures x !in s ==> Without(x, s) == s
    ensures multiset(s)[x] == 1 ==> multiset(Without(x, s)) + multiset{x} == multiset(s)
  {
    if s != [] {
      WithoutOne(x, s[1..]);
      assert s == [s[0]] + s[1..];
      if s[0] == x && multiset(s)[x] == 1 {
        assert multiset(s[1..])[x] == 0;
      }
    }
  }

  function Map<A, B>(f: A -> B, s: seq<A>): seq<B> {
    if s == [] then [] else [f(s[0])] + Map(f, s[1..])
  }

  lemma {:induction false} MapAt<A, B>(f: A -> B, s: seq<A>)
    ensures |Map(f, s)| == |s|
    ensures forall i :: 0 <= i < |s| ==> Map(f, s)[i] == f(s[i])
  {
    if s != [] {
      MapAt(f, s[1..]);
    }
  }

  lemma {:induction false} MapAppend<A, B>(f: A -> B, s: seq<A>, t: seq<A>)
    ensures Map(f, s + t) == Map(f, s) + Map(f, t)
  {
    if s == [] {
      assert s + t == t;
    } else {
      assert (s + t)[1..] == s[1..] + t;
      MapAppend(f, s[1..], t);
    }
  }

  lemma {:induction false} MapOfMap<A, B, C>(f: A -> B, g: B -> C, h: A -> C, s: seq<A>)
    requires forall x :: g(f(x)) == h(x)
    ensures Map(g, Map(f, s)) == Map(h, s)
  {
    if s != [] {
      MapOfMap(f, g, h, s[1..]);
    }
  }

  function DropAt<T>(s: seq<T>, j: nat): (r: seq<T>)
    requires j < |s|
    ensures |r| == |s| - 1
    ensures forall k :: 0 <= k < |r| ==> r[k] == s[if k < j then k else k + 1]
  {
    s[..j] + s[j + 1..]
  }

  lemma BagWithout<T>(t: seq<T>, j: nat)
    requires j < |t|
    ensures multiset(DropAt(t, j)) == multiset(t) - multiset{t[j]}
    ensures multiset(DropAt(t, j)) + multiset{t[j]} == multiset(t)
  {
    assert t == t[..j] + [t[j]] + t[j + 1..];
  }

  lemma BagAround<T>(a: seq<T>, mid: seq<T>, b: seq<T>)
    ensures multiset(a + (mid + b)) == multiset(a + b) + multiset(mid)
  {
  }

  lemma MapAround<A, B>(f: A -> B, t: seq<A>, j: nat)
    requires j < |t|
    ensures multiset(Map(f, t)) == multiset(Map(f, DropAt(t, j))) + multiset{f(t[j])}
  {
    var a, b := t[..j], t[j + 1..];
    assert t == a + ([t[j]] + b);
    MapAppend(f, a, b);
    MapAppend(f, a, [t[j]] + b);
    assert Map(f, [t[j]] + b) == [f(t[j])] + Map(f, b) by {
      assert ([t[j]] + b)[1..] == b;
    }
    BagAround(Map(f, a), [f(t[j])], Map(f, b));
  }

  lemma MatchDropped<A>(s: seq<A>, t: seq<A>) returns (j: nat)
    requires multiset(s) == multiset(t) && s != []
    ensures j < |t| && t[j] == s[0] && multiset(DropAt(s, 0)) == multiset(DropAt(t, j))
  {
    assert s[0] in multiset(t);
    j :| 0 <= j < |t| && t[j] == s[0];
    BagWithout(s, 0);
    BagWithout(t, j);
  }

  lemma {:induction false} MapOfReordered<A, B>(f: A -> B, s: seq<A>, t: seq<A>)
    requires multiset(s) == multiset(t)
    ensures multiset(Map(f, s)) == multiset(Map(f, t))
    decreases |s|
  {
    if s == [] {
      assert |t| == |multiset(t)| == 0;
    } else {
      var j := MatchDropped(s, t);
      MapOfReordered(f, DropAt(s, 0), DropAt(t, j));
      MapAround(f, s, 0);
      MapAround(f, t, j);
    }
  }

  /** Something in t has the image of s[i]. */
  lemma MapMatch<A, B>(f: A -> B, s: seq<A>, t: seq<A>, i: nat) returns (j: nat)
    requires multiset(Map(f, s)) == multiset(Map(f, t)) && i < |s|
    ensures j < |t| && f(t[j]) == f(s[i])
  {
    MapAt(f, s);
    MapAt(f, t);
    assert Map(f, s)[i] in multiset(Map(f, t));
    j :| 0 <= j < |t| && Map(f, t)[j] == f(s[i]);
  }

  lemma TakeOneAway<T>(a: multiset<T>, b: multiset<T>, x: T)
    requires a + multiset{x} == b + multiset{x}
    ensures a == b
  {
    assert a == (a + multiset{x}) - multiset{x};
  }

  lemma MapDropMatched<A, B>(f: A -> B, s: seq<A>, t: seq<A>, i: nat, j: nat)
    requires multiset(Map(f, s)) == multiset(Map(f, t)) && i < |s| && j < |t| && f(s[i]) == f(t[j])
    ensures multiset(Map(f, DropAt(s, i))) == multiset(Map(f, DropAt(t, j)))
  {
    MapAround(f, s, i);
    MapAround(f, t, j);
    TakeOneAway(multiset(Map(f, DropAt(s, i))), multiset(Map(f, DropAt(t, j))), f(s[i]));
  }

  lemma SameBagSameMembers<T>(s: seq<T>, t: seq<T>)
    requires multiset(s) == multiset(t)
    ensures forall x :: x in s <==> x in t
  {
    forall x ensures x in s <==> x in t {
      assert x in multiset(s) <==> x in multiset(t);
    }
  }

  lemma {:induction false} InsertPermutes<T>(le: (T, T) -> bool, x: T, s: seq<T>)
    ensures multiset(Insert(le, x, s)) == multiset{x} + multiset(s)
  {
    if s != [] && !le(x, s[0]) {
      InsertPermutes(le, x, s[1..]);
      assert s == [s[0]] + s[1..];
    }
  }

  lemma {:induction false} SortKeepsBag<T>(le: (T, T) -> bool, s: seq<T>)
    ensures multiset(Sort(le, s)) == multiset(s)
  {
    if s != [] {
      SortKeepsBag(le, s[1..]);
      InsertPermutes(le, s[0], Sort(le, s[1..]));
      assert s == [s[0]] + s[1..];
    }
  }

  lemma SortPermutes<T>(le: (T, T) -> bool, s: seq<T>)
    ensures multiset(Sort(le, s)) == multiset(s)
    ensures |Sort(le, s)| == |s|
    ensures forall x | x in Sort(le, s) :: x in s
  {
    var sorted := Sort(le, s);
    SortKeepsBag(le, s);
    assert |multiset(sorted)| == |multiset(s)|;
    forall x | x in sorted ensures x in s {
      assert x in multiset(sorted);
    }
  }

  lemma {:induction false} InsertSorts<T>(le: (T, T) -> bool, x: T, s: seq<T>)
    requires TotalPreorderOn(le, [x] + s) && Sorted(le, s)
    ensures Sorted(le, Insert(le, x, s))
  {
    if s != [] {
      assert x in [x] + s && forall y | y in s :: y in [x] + s;
      if le(x, s[0]) {
        forall k | 0 <= k < |s| ensures le(x, s[k]) {}
      } else {
        assert forall y | y in [x] + s[1..] :: y in [x] + s;
        InsertSorts(le, x, s[1..]);
        InsertPermutes(le, x, s[1..]);
        var t := Insert(le, x, s[1..]);
        forall k | 0 <= k < |t| ensures le(s[0], t[k]) {
          assert t[k] in multiset(t);
          assert t[k] == x || t[k] in s[1..];
        }
      }
    }
  }

  lemma {:induction false} SortSorts<T>(le: (T, T) -> bool, s: seq<T>)
    requires TotalPreorderOn(le, s)
    ensures Sorted(le, Sort(le, s))
  {
    if s != [] {
      SortPermutes(le, s[1..]);
      SortSorts(le, s[1..]);
      forall y | y in [s[0]] + Sort(le, s[1..]) ensures y in s {
        assert y == s[0] || y in s[1..];
      }
      InsertSorts(le, s[0], Sort(le, s[1..]));
    }
  }

  /** Elements nothing separates keep the order they came in: what makes the
      sort stable. p is any class of elements that le does not tell apart. */
  lemma {:induction false} SortIsStable<T>(le: (T, T) -> bool, p: T -> bool, s: seq<T>)
    requires forall x, y | x in s && y in s && p(x) && p(y) :: le(x, y)
    ensures Filter(p, Sort(le, s)) == Filter(p, s)
  {
    if s != [] {
      SortPermutes(le, s[1..]);
      SortIsStable(le, p, s[1..]);
      forall y | y in Sort(le, s[1..]) ensures y in s {
        assert y in s[1..];
      }
      InsertIsStable(le, p, s[0], Sort(le, s[1..]));
    }
  }

  lemma {:induction false} InsertIsStable<T>(le: (T, T) -> bool, p: T -> bool, x: T, s: seq<T>)
    requires p(x) ==> forall y | y in s && p(y) :: le(x, y)
    ensures Filter(p, Insert(le, x, s)) == Filter(p, [x] + s)
  {
    assert ([x] + s)[1..] == s;
    if s != [] && !le(x, s[0]) {
      InsertIsStable(le, p, x, s[1..]);
      assert ([x] + s[1..])[1..] == s[1..];
    }
  }

  /** Where le tells every two elements apart, the sorted order of a bag is
      unique, so sorting does not see the order it was handed. */
  lemma {:induction false} SortedOrderIsUnique<T>(le: (T, T) -> bool, s: seq<T>, t: seq<T>)
    requires Sorted(le, s) && Sorted(le, t) && multiset(s) == multiset(t)
    requires Separates(le, s)
    ensures s == t
  {
    if s == [] {
      assert |t| == |multiset(t)| == |multiset(s)| == 0;
    } else {
      SameHead(le, s, t);
      var s', t' := s[1..], t[1..];
      assert multiset(s') == multiset(t') by { TailBag(s); TailBag(t); }
      assert Separates(le, s') by { SeparatesTail(le, s); }
      assert Sorted(le, s') && Sorted(le, t') by { SortedTail(le, s); SortedTail(le, t); }
      SortedOrderIsUnique(le, s', t');
      assert s == [s[0]] + s' && t == [t[0]] + t';
    }
  }

  lemma SeparatesTail<T>(le: (T, T) -> bool, s: seq<T>)
    requires s != [] && Separates(le, s)
    ensures Separates(le, s[1..])
  {
    forall x, y | x in s[1..] && y in s[1..] && le(x, y) && le(y, x) ensures x == y {
      assert x in s && y in s;
    }
  }

  lemma SortedTail<T>(le: (T, T) -> bool, s: seq<T>)
    requires s != [] && Sorted(le, s)
    ensures Sorted(le, s[1..])
  {
  }

  lemma TailBag<T>(s: seq<T>)
    requires s != []
    ensures multiset(s[1..]) == multiset(s) - multiset{s[0]}
  {
    assert s == [s[0]] + s[1..];
  }

  lemma SameHead<T>(le: (T, T) -> bool, s: seq<T>, t: seq<T>)
    requires Sorted(le, s) && Sorted(le, t) && multiset(s) == multiset(t) && s != []
    requires Separates(le, s)
    ensures t != [] && s[0] == t[0]
  {
    assert s[0] in multiset(t);
    assert s[0] in t && t[0] in multiset(s);
    var i :| 0 <= i < |t| && t[i] == s[0];
    var j :| 0 <= j < |s| && s[j] == t[0];
  }
}
