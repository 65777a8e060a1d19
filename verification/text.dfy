/** Strings the way the program cuts, joins and orders them. */
module Text {
  import opened Sorting

  /** What one more character in front does to the pieces of a split. */
  function Front(c: char, rest: seq<string>, sep: char): (parts: seq<string>)
    requires rest != []
    ensures parts != []
  {
    if c == sep then [""] + rest else [[c] + rest[0]] + rest[1..]
  }

  /** strings.Split for a one-character separator: never empty. */
  function Split(s: string, sep: char): (parts: seq<string>)
    ensures parts != []
  {
    if s == "" then [""] else Front(s[0], Split(s[1..], sep), sep)
  }

  /** strings.Join for a one-character separator. */
  function Join(parts: seq<string>, sep: char): string {
    if parts == [] then ""
    else if |parts| == 1 then parts[0]
    else parts[0] + [sep] + Join(parts[1..], sep)
  }

  lemma JoinOfTwo(a: string, b: string, sep: char)
    ensures Join([a], sep) == a && Join([a, b], sep) == a + [sep] + b
  {
    assert [a, b][1..] == [b];
  }

  ghost predicate FreeOf(parts: seq<string>, sep: char) {
    forall i :: 0 <= i < |parts| ==> sep !in parts[i]
  }

  /** The pieces of a split hold no separator. */
  lemma {:induction false} SplitIsFree(s: string, sep: char)
    ensures FreeOf(Split(s, sep), sep)
  {
    if s != "" {
      SplitIsFree(s[1..], sep);
    }
  }

  lemma {:induction false} SplitOfFree(s: string, sep: char)
    requires sep !in s
    ensures Split(s, sep) == [s]
  {
    if s != "" {
      SplitOfFree(s[1..], sep);
      assert s == [s[0]] + s[1..];
    }
  }

  lemma {:induction false} SplitOfAppend(a: string, b: string, sep: char)
    requires sep !in a
    ensures Split(a + [sep] + b, sep) == [a] + Split(b, sep)
  {
    if a == "" {
      assert (a + [sep] + b)[1..] == b;
    } else {
      assert (a + [sep] + b)[1..] == a[1..] + [sep] + b;
      SplitOfAppend(a[1..], b, sep);
      assert a == [a[0]] + a[1..];
    }
  }

  lemma {:induction false} SplitOfTwo(a: string, b: string, sep: char)
    ensures Split(a + [sep] + b, sep) == Split(a, sep) + Split(b, sep)
  {
    if a == "" {
      assert (a + [sep] + b)[1..] == b;
    } else {
      assert (a + [sep] + b)[1..] == a[1..] + [sep] + b;
      SplitOfTwo(a[1..], b, sep);
      assert (a + [sep] + b)[0] == a[0];
      FrontOfMore(a[0], Split(a[1..], sep), Split(b, sep), sep);
    }
  }

  lemma FrontOfMore(c: char, rest: seq<string>, more: seq<string>, sep: char)
    requires rest != []
    ensures Front(c, rest + more, sep) == Front(c, rest, sep) + more
  {
    assert (rest + more)[0] == rest[0] && (rest + more)[1..] == rest[1..] + more;
  }

  /** The pieces, with text after the last of them. */
  function Extended(parts: seq<string>, text: string): seq<string>
    requires parts != []
  {
    parts[..|parts| - 1] + [parts[|parts| - 1] + text]
  }

  lemma FrontOfExtended(c: char, rest: seq<string>, text: string, sep: char)
    requires rest != []
    ensures Front(c, Extended(rest, text), sep) == Extended(Front(c, rest, sep), text)
  {
    var n := |rest| - 1;
    if c != sep && n == 0 {
      assert [c] + (rest[0] + text) == ([c] + rest[0]) + text;
    } else if c == sep {
      assert ([""] + rest)[..n + 1] == [""] + rest[..n];
    }
  }

  lemma {:induction false} SplitOfJoin(parts: seq<string>, sep: char)
    requires parts != [] && FreeOf(parts, sep)
    ensures Split(Join(parts, sep), sep) == parts
  {
    if |parts| == 1 {
      SplitOfFree(parts[0], sep);
      assert parts == [parts[0]];
    } else {
      assert FreeOf(parts[1..], sep);
      SplitOfJoin(parts[1..], sep);
      SplitOfAppend(parts[0], Join(parts[1..], sep), sep);
      assert parts == [parts[0]] + parts[1..];
    }
  }

  /** Go's order on strings. */
  predicate LexLe(a: string, b: string) {
    a == "" || (b != "" && (a[0] < b[0] || (a[0] == b[0] && LexLe(a[1..], b[1..]))))
  }

  lemma {:induction false} LexTotal(a: string, b: string)
    ensures LexLe(a, b) || LexLe(b, a)
    ensures LexLe(a, b) && LexLe(b, a) ==> a == b
  {
    if a != "" && b != "" && a[0] == b[0] {
      LexTotal(a[1..], b[1..]);
      assert a == [a[0]] + a[1..] && b == [b[0]] + b[1..];
    }
  }

  lemma {:induction false} LexTransitive(a: string, b: string, c: string)
    requires LexLe(a, b) && LexLe(b, c)
    ensures LexLe(a, c)
  {
    if a != "" && a[0] == b[0] == c[0] {
      LexTransitive(a[1..], b[1..], c[1..]);
    }
  }

  /** The two first differ at k, where a has the smaller character. */
  ghost predicate SmallerAt(a: string, b: string, k: nat) {
    k < |a| && k < |b| && a[..k] == b[..k] && a[k] < b[k]
  }

  /** One text is at most another when it is the front of it, or has the smaller
      character where they first differ. */
  lemma {:induction false} LexIsFirstDifference(a: string, b: string)
    ensures LexLe(a, b) <==> a <= b || exists k: nat :: SmallerAt(a, b, k)
  {
    if a != "" && b != "" && a[0] == b[0] {
      LexIsFirstDifference(a[1..], b[1..]);
      if k: nat :| SmallerAt(a[1..], b[1..], k) {
        assert a[..k + 1] == [a[0]] + a[1..][..k] && b[..k + 1] == [b[0]] + b[1..][..k];
        assert SmallerAt(a, b, k + 1);
      }
      if k: nat :| SmallerAt(a, b, k) {
        assert k > 0 && a[1..][..k - 1] == a[..k][1..] && b[1..][..k - 1] == b[..k][1..];
        assert SmallerAt(a[1..], b[1..], k - 1);
      }
      assert a <= b <==> a[1..] <= b[1..];
    } else if a != "" && b != "" && a[0] < b[0] {
      assert SmallerAt(a, b, 0);
    } else {
      forall k: nat | 0 < k < |a| && k < |b| ensures a[..k] != b[..k] {
        assert a[..k][0] == a[0] && b[..k][0] == b[0];
      }
    }
  }

  lemma LexIsAnOrder(s: seq<string>)
    ensures TotalPreorderOn(LexLe, s) && Separates(LexLe, s)
  {
    forall x, y ensures LexLe(x, y) || LexLe(y, x)
            ensures LexLe(x, y) && LexLe(y, x) ==> x == y
    {
      LexTotal(x, y);
    }
    forall x, y, z | LexLe(x, y) && LexLe(y, z) ensures LexLe(x, z) {
      LexTransitive(x, y, z);
    }
  }

  /** sort.Strings. */
  function SortStrings(s: seq<string>): seq<string> {
    Sort(LexLe, s)
  }

  ghost predicate Distinct<T>(s: seq<T>) {
    forall i, j :: 0 <= i < j < |s| ==> s[i] != s[j]
  }

  /** Before and not equal. */
  ghost predicate StrictlySorted(s: seq<string>) {
    forall i, j :: 0 <= i < j < |s| ==> LexLe(s[i], s[j]) && s[i] != s[j]
  }

  lemma DistinctByCount<T>(s: seq<T>)
    ensures Distinct(s) <==> forall x | x in s :: multiset(s)[x] == 1
  {
    if Distinct(s) {
      forall x | x in s ensures multiset(s)[x] == 1 {
        DistinctCountsOnce(s, x);
      }
    } else {
      var i, j :| 0 <= i < j < |s| && s[i] == s[j];
      assert s == s[..j] + s[j..];
      assert s[..j][i] == s[i] && s[j..][0] == s[i];
      assert multiset(s) == multiset(s[..j]) + multiset(s[j..]);
      assert s[i] in s[..j] && s[i] in s[j..];
      assert multiset(s)[s[i]] != 1;
    }
  }

  lemma {:induction false} DistinctCountsOnce<T>(s: seq<T>, x: T)
    requires Distinct(s) && x in s
    ensures multiset(s)[x] == 1
  {
    assert s == [s[0]] + s[1..];
    if x == s[0] {
      assert x !in s[1..];
    } else {
      DistinctCountsOnce(s[1..], x);
    }
  }

  function Upto(n: nat): seq<nat> {
    seq(n, i => i)
  }

  /** All the numbers below n, in some order. */
  lemma EveryNumberOnce(log: seq<nat>, n: nat)
    requires Distinct(log)
    requires (forall k :: 0 <= k < |log| ==> log[k] < n) && (forall i: nat :: i < n ==> i in log)
    ensures multiset(log) == multiset(Upto(n))
  {
    var all := Upto(n);
    DistinctByCount(log);
    DistinctByCount(all);
    forall x: nat ensures multiset(log)[x] == multiset(all)[x] {
      if x < n {
        assert all[x] == x && x in all && x in log;
      } else {
        assert x !in log && x !in all;
      }
    }
    assert multiset(log) == multiset(all);
  }

  /** Sorting names that are all different: the same names, each once, in
      strictly increasing order. */
  lemma SortStringsIsStrict(s: seq<string>)
    requires Distinct(s)
    ensures StrictlySorted(SortStrings(s))
    ensures multiset(SortStrings(s)) == multiset(s)
  {
    LexIsAnOrder(s);
    SortSorts(LexLe, s);
    SortPermutes(LexLe, s);
    DistinctByCount(s);
    var t := SortStrings(s);
    forall x | x in t ensures multiset(t)[x] == 1 {
      assert x in s;
    }
    DistinctByCount(t);
  }

  function Digit(n: nat): char
    requires n < 10
  {
    "0123456789"[n]
  }

  /** %d of a natural number. */
  function Decimal(n: nat): string {
    if n < 10 then [Digit(n)] else Decimal(n / 10) + [Digit(n % 10)]
  }

  /** The number decimal digits spell. */
  ghost function NumberOf(t: string): int {
    if t == "" then 0 else 10 * NumberOf(t[..|t| - 1]) + t[|t| - 1] as int - 48
  }

  /** A number is spelled in decimal digits, without a leading zero, and reads
      back. */
  lemma {:induction false} DecimalReadsBack(n: nat)
    ensures var t := Decimal(n);
      && t != "" && NumberOf(t) == n && (|t| > 1 ==> t[0] != '0')
      && forall i :: 0 <= i < |t| ==> 48 <= t[i] as int <= 57
    decreases n
  {
    if n >= 10 {
      DecimalReadsBack(n / 10);
      var t := Decimal(n);
      assert t[..|t| - 1] == Decimal(n / 10);
      assert t[0] == Decimal(n / 10)[0];
    }
  }
}
