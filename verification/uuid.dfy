/** A uuid as bytes and as text (ts/packages/runtime/src/uuid.ts; the layout is
    section 4 of RFC 9562). */
module Uuid {
  import opened Wrappers

  type Byte = n: int | 0 <= n < 256

  function HexDigit(n: nat): char
    requires n < 16
  {
    "0123456789abcdef"[n]
  }

  predicate IsHex(c: char) {
    '0' <= c <= '9' || 'a' <= c <= 'f' || 'A' <= c <= 'F'
  }

  function HexValue(c: char): nat
    requires IsHex(c)
  {
    if '0' <= c <= '9' then c as int - '0' as int
    else if 'a' <= c <= 'f' then c as int - 'a' as int + 10
    else c as int - 'A' as int + 10
  }

  /** toString(16): no leading zero. */
  function ToString16(b: Byte): string {
    if b < 16 then [HexDigit(b)] else [HexDigit(b / 16), HexDigit(b % 16)]
  }

  /** Two digits a byte. */
  function HexOf(bs: seq<Byte>): (r: string)
    ensures |r| == 2 * |bs|
  {
    if bs == [] then "" else HexOf(bs[..|bs| - 1]) + [HexDigit(bs[|bs| - 1] / 16), HexDigit(bs[|bs| - 1] % 16)]
  }

  /** 8-4-4-4-12. */
  function Layout(hex: string): string
    requires |hex| == 32
  {
    hex[..8] + "-" + hex[8..12] + "-" + hex[12..16] + "-" + hex[16..20] + "-" + hex[20..]
  }

  function TextOf(v: seq<Byte>): Option<string> {
    if |v| < 16 then None else Some(Layout(HexOf(v[..16])))
  }

  /** u8_str. */
  method U8Str(v: Option<seq<Byte>>) returns (r: Option<string>)
    ensures r == if v.None? then None else TextOf(v.value)
  {
    if v.None? {
      return None;
    }
    var b := if |v.value| < 16 then v.value else v.value[..16];
    if |b| != 16 {
      return None;
    }
    var hex := "";
    for i := 0 to 16
      invariant hex == HexOf(b[..i])
    {
      var h := ToString16(b[i]);
      assert b[..i + 1][..i] == b[..i];
      hex := hex + if |h| == 1 then "0" + h else h;
    }
    assert b[..16] == b;
    return Some(Layout(hex));
  }

  /** replace(/[^0-9a-fA-F]/g, ""). */
  function OnlyHex(s: string): (r: string)
    ensures forall i :: 0 <= i < |r| ==> IsHex(r[i])
  {
    if s == "" then "" else (if IsHex(s[0]) then [s[0]] else "") + OnlyHex(s[1..])
  }

  /** parseInt(t, 16) of text without a sign, a space or a prefix: the number its
      leading hex digits spell, and NaN when it has none. */
  function ParseInt(t: string): Option<nat> {
    if t == "" || !IsHex(t[0]) then None else Some(LeadingValue(t, 0))
  }

  function LeadingValue(t: string, sofar: nat): nat {
    if t == "" || !IsHex(t[0]) then sofar else LeadingValue(t[1..], 16 * sofar + HexValue(t[0]))
  }

  /** The bytes that pairs of digits spell. */
  function Paired(hex: string): (r: seq<Byte>)
    requires |hex| % 2 == 0 && forall i :: 0 <= i < |hex| ==> IsHex(hex[i])
    ensures |r| == |hex| / 2
  {
    if hex == "" then []
    else
      var n := |hex|;
      Paired(hex[..n - 2]) + [16 * HexValue(hex[n - 2]) + HexValue(hex[n - 1])]
  }

  function BytesOf(s: string): Option<seq<Byte>> {
    if |OnlyHex(s)| < 32 then None else Some(Paired(OnlyHex(s)[..32]))
  }

  /** str_u8. The branch for a pair that is not a number is never taken: when
      there are digits enough, there are bytes. */
  method StrU8(v: Option<string>) returns (out: array?<Byte>)
    ensures out == null <==> v.None? || BytesOf(v.value) == None
    ensures out != null ==> fresh(out) && Some(out[..]) == BytesOf(v.value)
  {
    if v.None? || v.value == "" {
      return null;
    }
    var s := OnlyHex(v.value);
    s := if |s| < 32 then s else s[..32];
    if |s| != 32 {
      return null;
    }
    assert forall i :: 0 <= i < 32 ==> IsHex(s[i]);
    out := new Byte[16];
    var i := 0;
    while i < 32
      invariant 0 <= i <= 32 && i % 2 == 0
      invariant fresh(out) && out.Length == 16
      invariant out[..i / 2] == Paired(s[..i])
    {
      var pair := s[i..i + 2];
      assert pair[0] == s[i] && pair[1] == s[i + 1];
      PairParses(pair);
      var parsed := ParseInt(pair);
      if parsed.None? {
        return null;
      }
      out[i / 2] := parsed.value;
      assert s[..i + 2][..i] == s[..i];
      assert out[..i / 2 + 1] == out[..i / 2] + [out[i / 2]];
      i := i + 2;
    }
    assert s[..32] == s && out[..16] == out[..];
  }

  lemma PairParses(t: string)
    requires |t| == 2 && IsHex(t[0]) && IsHex(t[1])
    ensures ParseInt(t) == Some(16 * HexValue(t[0]) + HexValue(t[1]))
    ensures 16 * HexValue(t[0]) + HexValue(t[1]) < 256
  {
    assert t[1..][1..] == "";
    assert LeadingValue(t[1..], HexValue(t[0])) == LeadingValue("", 16 * HexValue(t[0]) + HexValue(t[1]));
  }

  // ---- round trips ----

  function Lower(c: char): char {
    if 'A' <= c <= 'Z' then (c as int + 32) as char else c
  }

  function LowerAll(s: string): string {
    seq(|s|, i requires 0 <= i < |s| => Lower(s[i]))
  }

  lemma OnlyHexSplits(a: string, b: string)
    ensures OnlyHex(a + b) == OnlyHex(a) + OnlyHex(b)
  {
    if a == "" {
      assert a + b == b;
    } else {
      assert (a + b)[1..] == a[1..] + b;
      OnlyHexSplits(a[1..], b);
    }
  }

  lemma OnlyHexOfHex(s: string)
    requires forall i :: 0 <= i < |s| ==> IsHex(s[i])
    ensures OnlyHex(s) == s
  {
    if s != "" {
      OnlyHexOfHex(s[1..]);
    }
  }

  lemma {:induction false} HexOfIsHex(bs: seq<Byte>)
    ensures forall i :: 0 <= i < |HexOf(bs)| ==> IsHex(HexOf(bs)[i])
  {
    if bs != [] {
      HexOfIsHex(bs[..|bs| - 1]);
    }
  }

  ghost predicate HexPairs(hex: string) {
    |hex| % 2 == 0 && forall i :: 0 <= i < |hex| ==> IsHex(hex[i])
  }

  lemma PairedOneMore(hex: string, a: char, b: char)
    requires HexPairs(hex) && IsHex(a) && IsHex(b)
    ensures HexPairs(hex + [a, b])
    ensures Paired(hex + [a, b]) == Paired(hex) + [16 * HexValue(a) + HexValue(b)]
  {
    assert (hex + [a, b])[..|hex|] == hex;
  }

  lemma HexOfOneMore(bs: seq<Byte>, b: Byte)
    ensures HexOf(bs + [b]) == HexOf(bs) + [HexDigit(b / 16), HexDigit(b % 16)]
  {
    assert (bs + [b])[..|bs|] == bs;
  }

  lemma ValueOfDigit(n: nat)
    requires n < 16
    ensures IsHex(HexDigit(n)) && HexValue(HexDigit(n)) == n
  {
  }

  lemma ByteOfDigits(b: Byte) returns (hi: char, lo: char)
    ensures hi == HexDigit(b / 16) && lo == HexDigit(b % 16)
    ensures IsHex(hi) && IsHex(lo) && 16 * HexValue(hi) + HexValue(lo) == b
  {
    hi, lo := HexDigit(b / 16), HexDigit(b % 16);
    ValueOfDigit(b / 16);
    ValueOfDigit(b % 16);
  }

  lemma {:induction false} PairedOfHexOf(bs: seq<Byte>)
    ensures HexPairs(HexOf(bs)) && Paired(HexOf(bs)) == bs
  {
    if bs != [] {
      var init, b := bs[..|bs| - 1], bs[|bs| - 1];
      assert bs == init + [b];
      PairedOfHexOf(init);
      var hi, lo := ByteOfDigits(b);
      HexOfOneMore(init, b);
      PairedOneMore(HexOf(init), hi, lo);
    }
  }

  /** The value of a digit is its place among the sixteen, in either case. */
  lemma DigitsAreHex(n: nat)
    requires n < 16
    ensures var lower, upper := "0123456789abcdef"[n], "0123456789ABCDEF"[n];
      IsHex(lower) && IsHex(upper) && HexValue(lower) == n && HexValue(upper) == n
  {
  }

  /** Byte i is spelled by two digits, the high half first. */
  lemma {:induction false} HexSpellsBytes(bs: seq<Byte>, i: nat)
    requires i < |bs|
    ensures HexOf(bs)[2 * i] == "0123456789abcdef"[bs[i] / 16]
    ensures HexOf(bs)[2 * i + 1] == "0123456789abcdef"[bs[i] % 16]
  {
    var n := |bs| - 1;
    if i < n {
      HexSpellsBytes(bs[..n], i);
      assert HexOf(bs)[2 * i] == HexOf(bs[..n])[2 * i] && HexOf(bs)[2 * i + 1] == HexOf(bs[..n])[2 * i + 1];
    }
  }

  /** Where digit k of a uuid is in its text: dashes come after four, six, eight and
      ten bytes. */
  ghost function PlaceOf(k: nat): nat {
    k + (if k < 8 then 0 else if k < 12 then 1 else if k < 16 then 2 else if k < 20 then 3 else 4)
  }

  /** The text spells the first sixteen bytes, one after another. */
  lemma TextSpellsBytes(v: seq<Byte>, i: nat)
    requires |v| >= 16 && i < 16
    ensures var t := TextOf(v).value;
      && |t| == 36 && t[PlaceOf(2 * i)] == "0123456789abcdef"[v[i] / 16]
      && t[PlaceOf(2 * i + 1)] == "0123456789abcdef"[v[i] % 16]
  {
    var hex, t := HexOf(v[..16]), TextOf(v).value;
    HexSpellsBytes(v[..16], i);
    assert t[PlaceOf(2 * i)] == hex[2 * i];
    assert t[PlaceOf(2 * i + 1)] == hex[2 * i + 1];
  }

  lemma LowerOneMore(s: string, a: char, b: char)
    ensures LowerAll(s + [a, b]) == LowerAll(s) + [Lower(a), Lower(b)]
  {
  }

  lemma {:induction false} HexOfPaired(hex: string)
    requires HexPairs(hex)
    ensures HexOf(Paired(hex)) == LowerAll(hex)
  {
    if hex != "" {
      var n := |hex|;
      var init, a, b := hex[..n - 2], hex[n - 2], hex[n - 1];
      assert hex == init + [a, b];
      HexOfPaired(init);
      PairedOneMore(init, a, b);
      DigitOfValue(a, b);
      HexOfOneMore(Paired(init), 16 * HexValue(a) + HexValue(b));
      LowerOneMore(init, a, b);
    }
  }

  lemma DigitOfValue(a: char, b: char)
    requires IsHex(a) && IsHex(b)
    ensures HexValue(a) < 16 && HexValue(b) < 16
    ensures HexDigit(HexValue(a)) == Lower(a) && HexDigit(HexValue(b)) == Lower(b)
    ensures (16 * HexValue(a) + HexValue(b)) / 16 == HexValue(a)
    ensures (16 * HexValue(a) + HexValue(b)) % 16 == HexValue(b)
  {
  }

  lemma OnlyHexDrops(a: string, b: string)
    requires forall i :: 0 <= i < |b| ==> IsHex(b[i])
    ensures OnlyHex(a + "-" + b) == OnlyHex(a) + b
  {
    OnlyHexSplits(a + "-", b);
    OnlyHexOfHex(b);
    assert OnlyHex(a + "-") == OnlyHex(a) by {
      OnlyHexSplits(a, "-");
      assert OnlyHex("-") == "";
    }
  }

  lemma OnlyHexOfLayout(hex: string)
    requires |hex| == 32 && forall i :: 0 <= i < |hex| ==> IsHex(hex[i])
    ensures OnlyHex(Layout(hex)) == hex
  {
    var a, b, c, d, e := hex[..8], hex[8..12], hex[12..16], hex[16..20], hex[20..];
    OnlyHexOfHex(a);
    OnlyHexDrops(a, b);
    OnlyHexDrops(a + "-" + b, c);
    OnlyHexDrops(a + "-" + b + "-" + c, d);
    OnlyHexDrops(a + "-" + b + "-" + c + "-" + d, e);
    assert hex == a + b + c + d + e;
  }

  predicate IsDash(i: nat) {
    i == 8 || i == 13 || i == 18 || i == 23
  }

  /** The text has the shape of a uuid: thirty-six characters, dashes at the four
      places and lowercase digits everywhere else. */
  lemma TextIsShaped(v: seq<Byte>)
    requires |v| >= 16
    ensures var t := TextOf(v).value;
      |t| == 36 && forall i :: 0 <= i < 36 ==> if IsDash(i) then t[i] == '-' else IsHex(t[i]) && Lower(t[i]) == t[i]
  {
    var hex, t := HexOf(v[..16]), TextOf(v).value;
    HexOfIsHex(v[..16]);
    AlreadyLower(v[..16]);
    forall i | 0 <= i < 36 ensures if IsDash(i) then t[i] == '-' else IsHex(t[i]) && Lower(t[i]) == t[i] {
      var k := if i < 8 then i else if i < 13 then i - 1 else if i < 18 then i - 2 else if i < 23 then i - 3 else i - 4;
      if !IsDash(i) {
        assert t[i] == hex[k] && LowerAll(hex)[k] == hex[k];
      }
    }
  }

  /** Reading back what was printed gives the first sixteen bytes. */
  lemma BytesSurvive(v: seq<Byte>)
    requires |v| >= 16
    ensures BytesOf(TextOf(v).value) == Some(v[..16])
  {
    var hex := HexOf(v[..16]);
    HexOfIsHex(v[..16]);
    OnlyHexOfLayout(hex);
    assert hex[..32] == hex;
    PairedOfHexOf(v[..16]);
  }

  /** Printing back what was read gives the canonical form of the first
      thirty-two digits. */
  lemma TextIsCanonical(s: string)
    requires |OnlyHex(s)| >= 32
    ensures TextOf(BytesOf(s).value) == Some(Layout(LowerAll(OnlyHex(s)[..32])))
  {
    var bs := BytesOf(s).value;
    HexOfPaired(OnlyHex(s)[..32]);
    assert bs[..16] == bs;
  }

  /** Two texts are read the same exactly when both have too few digits, or
      their first thirty-two agree once case is dropped: what is between the
      digits, and what follows them, is never looked at. */
  lemma ReadTheSame(s: string, t: string)
    ensures BytesOf(s) == BytesOf(t) <==>
      || (|OnlyHex(s)| < 32 && |OnlyHex(t)| < 32)
      || (|OnlyHex(s)| >= 32 && |OnlyHex(t)| >= 32 && LowerAll(OnlyHex(s)[..32]) == LowerAll(OnlyHex(t)[..32]))
  {
    if |OnlyHex(s)| >= 32 && |OnlyHex(t)| >= 32 {
      var a, b := OnlyHex(s)[..32], OnlyHex(t)[..32];
      HexOfPaired(a);
      HexOfPaired(b);
      if LowerAll(a) == LowerAll(b) {
        PairedOfHexOf(Paired(a));
        PairedOfHexOf(Paired(b));
      }
    }
  }

  lemma UrnIsRead(v: seq<Byte>)
    requires |v| >= 16
    ensures |HexOf(v[..16])| == 32 && HexPairs(("d" + HexOf(v[..16]))[..32])
    ensures BytesOf("urn:uuid:" + TextOf(v).value) == Some(Paired(("d" + HexOf(v[..16]))[..32]))
  {
    var hex, text := HexOf(v[..16]), TextOf(v).value;
    HexOfIsHex(v[..16]);
    OnlyHexOfLayout(hex);
    OnlyHexSplits("urn:uuid:", text);
    UrnDigits();
    assert OnlyHex("urn:uuid:" + text) == "d" + hex;
  }

  /** The `urn:uuid:` form is read without complaint and one digit off, so it
      gives back the uuid it spells for one uuid only. */
  lemma UrnIsShifted(v: seq<Byte>)
    requires |v| >= 16
    ensures BytesOf("urn:uuid:" + TextOf(v).value).Some?
    ensures BytesOf("urn:uuid:" + TextOf(v).value) == Some(v[..16]) <==> forall i :: 0 <= i < 16 ==> v[i] == 0xdd
  {
    var hex, text := HexOf(v[..16]), TextOf(v).value;
    HexOfIsHex(v[..16]);
    UrnIsRead(v);
    var shifted := ("d" + hex)[..32];
    HexOfPaired(shifted);
    PairedOfHexOf(v[..16]);
    AlreadyLower(v[..16]);
    assert LowerAll(shifted) == shifted by {
      assert forall i :: 0 < i < 32 ==> shifted[i] == hex[i - 1] && LowerAll(hex)[i - 1] == hex[i - 1];
    }
    assert BytesOf("urn:uuid:" + text) == Some(v[..16]) <==> shifted == hex by {
      if shifted == hex {
        assert Paired(shifted) == v[..16];
      }
    }
    ShiftFixesOnlyRuns(hex);
    AllDd(v[..16]);
  }

  lemma UrnDigits()
    ensures OnlyHex("urn:uuid:") == "d"
  {
    OnlyHexSplits("urn:uui", "d:");
    OnlyHexSplits("urn", ":uui");
    assert OnlyHex("urn") == OnlyHex("rn") == OnlyHex("n") == "";
    assert OnlyHex(":uui") == OnlyHex("uui") == OnlyHex("ui") == OnlyHex("i") == "";
    assert OnlyHex("d:") == "d" + OnlyHex(":");
    assert "urn" + ":uui" == "urn:uui" && "urn:uui" + "d:" == "urn:uuid:";
  }

  lemma {:induction false} AlreadyLower(bs: seq<Byte>)
    ensures LowerAll(HexOf(bs)) == HexOf(bs)
  {
    if bs != [] {
      AlreadyLower(bs[..|bs| - 1]);
      var h, init := HexOf(bs), HexOf(bs[..|bs| - 1]);
      assert forall i :: 0 <= i < |init| ==> h[i] == init[i] && LowerAll(init)[i] == init[i];
    }
  }

  lemma ShiftFixesOnlyRuns(hex: string)
    requires |hex| == 32
    ensures ("d" + hex)[..32] == hex <==> forall i :: 0 <= i < 32 ==> hex[i] == 'd'
  {
    if ("d" + hex)[..32] == hex {
      RunOfD(hex, 31);
    }
  }

  lemma {:induction false} RunOfD(hex: string, n: nat)
    requires |hex| == 32 && n < 32 && ("d" + hex)[..32] == hex
    ensures forall i :: 0 <= i <= n ==> hex[i] == 'd'
  {
    assert hex[n] == ("d" + hex)[..32][n];
    if n > 0 {
      RunOfD(hex, n - 1);
    }
  }

  lemma {:induction false} AllDd(bs: seq<Byte>)
    ensures (forall i :: 0 <= i < |HexOf(bs)| ==> HexOf(bs)[i] == 'd') <==> forall i :: 0 <= i < |bs| ==> bs[i] == 0xdd
  {
    if bs != [] {
      var n := |bs| - 1;
      AllDd(bs[..n]);
      var h := HexOf(bs);
      assert h[..2 * n] == HexOf(bs[..n]);
      assert h[2 * n] == HexDigit(bs[n] / 16) && h[2 * n + 1] == HexDigit(bs[n] % 16);
      assert forall i :: 0 <= i < 2 * n ==> h[i] == h[..2 * n][i];
      assert forall i :: 0 <= i < n ==> bs[i] == bs[..n][i];
    }
  }
}
