/** A TypeScript double-quoted string literal (internal/tsw/tsw.go), and how one
    is read (section 12.9.4 of ECMA-262). Text is a sequence of code points. */
module Tsw {
  import opened Wrappers
  import opened Sorting

  // ---- the printer ----

  /** A control character the printer refuses. */
  predicate Refused(c: char) {
    c < ' ' && c != '\n' && c != '\t'
  }

  function Escaped(c: char): string
    requires !Refused(c)
  {
    if c == '"' then "\\\""
    else if c == '\\' then "\\\\"
    else if c == '\n' then "\\n"
    else if c == '\t' then "\\t"
    else [c]
  }

  predicate Printable(s: string) {
    forall i :: 0 <= i < |s| ==> !Refused(s[i])
  }

  function Body(s: string): string
    requires Printable(s)
  {
    if s == "" then "" else Escaped(s[0]) + Body(s[1..])
  }

  lemma {:induction false} BodyOneMore(s: string, c: char)
    requires Printable(s) && !Refused(c)
    ensures Body(s + [c]) == Body(s) + Escaped(c)
  {
    if s == "" {
      assert s + [c] == [c];
    } else {
      assert (s + [c])[1..] == s[1..] + [c];
      BodyOneMore(s[1..], c);
    }
  }

  /** Str: an error exactly when some character cannot be rendered. */
  method Str(s: string) returns (r: Option<string>)
    ensures r.None? <==> exists i :: 0 <= i < |s| && s[i] as int < 32 && s[i] as int != 9 && s[i] as int != 10
    ensures r.Some? ==> r.value == "\"" + Body(s) + "\""
  {
    var b := "\"";
    for i := 0 to |s|
      invariant Printable(s[..i])
      invariant b == "\"" + Body(s[..i])
    {
      var c := s[i];
      if c == '"' {
        b := b + "\\\"";
      } else if c == '\\' {
        b := b + "\\\\";
      } else if c == '\n' {
        b := b + "\\n";
      } else if c == '\t' {
        b := b + "\\t";
      } else {
        if c < ' ' {
          assert Refused(s[i]);
          return None;
        }
        b := b + [c];
      }
      assert s[..i + 1] == s[..i] + [c];
      BodyOneMore(s[..i], c);
    }
    assert s[..|s|] == s;
    return Some(b + "\"");
  }

  // ---- the reader ----

  /** The line terminators a string literal may not hold. */
  predicate EndsLine(c: char) {
    c == '\n' || c == '\r'
  }

  /** The value of a one-character escape: a SingleEscapeCharacter's, or the
      character itself. None where the grammar wants more than one character (a
      digit, x, u) or continues the line, which is not part of this model. */
  function EscapeValue(c: char): Option<char> {
    if c == 'b' then Some('\U{8}')
    else if c == 't' then Some('\t')
    else if c == 'n' then Some('\n')
    else if c == 'v' then Some('\U{B}')
    else if c == 'f' then Some('\U{C}')
    else if c == 'r' then Some('\r')
    else if '0' <= c <= '9' || c == 'x' || c == 'u' || EndsLine(c) || c == '\U{2028}' || c == '\U{2029}' then None
    else Some(c)
  }

  /** The characters of a literal up to the quote that closes it: their value,
      and what is left after it. */
  function LexBody(t: string): Option<(string, string)> {
    if t == "" || EndsLine(t[0]) then None
    else if t[0] == '"' then Some(("", t[1..]))
    else if t[0] == '\\' then
      if |t| == 1 || EscapeValue(t[1]).None? then None
      else
        var rest := LexBody(t[2..]);
        if rest.None? then None else Some(([EscapeValue(t[1]).value] + rest.value.0, rest.value.1))
    else
      var rest := LexBody(t[1..]);
      if rest.None? then None else Some(([t[0]] + rest.value.0, rest.value.1))
  }

  /** One string literal at the front of a text. */
  function Lex(t: string): Option<(string, string)> {
    if t == "" || t[0] != '"' then None else LexBody(t[1..])
  }

  /** One character as it is printed, ahead of text that lexes. */
  lemma EscapedLexes(c: char, t: string)
    requires !Refused(c) && LexBody(t).Some?
    ensures LexBody(Escaped(c) + t) == Some(([c] + LexBody(t).value.0, LexBody(t).value.1))
  {
    var all := Escaped(c) + t;
    if |Escaped(c)| == 2 {
      assert all[2..] == t;
    } else {
      assert all[1..] == t;
    }
  }

  lemma {:induction false} BodyLexes(s: string, rest: string)
    requires Printable(s)
    ensures LexBody(Body(s) + "\"" + rest) == Some((s, rest))
  {
    var t := Body(s) + "\"" + rest;
    if s == "" {
      assert t == "\"" + rest && t[1..] == rest;
    } else {
      assert !Refused(s[0]);
      assert s == [s[0]] + s[1..];
      BodyLexes(s[1..], rest);
      EscapedLexes(s[0], Body(s[1..]) + "\"" + rest);
      assert t == Escaped(s[0]) + (Body(s[1..]) + "\"" + rest);
    }
  }

  /** What is printed lexes as exactly one string literal, whatever follows it,
      and its value is the text. */
  lemma PrintedIsOneLiteral(s: string, rest: string)
    requires Printable(s)
    ensures Lex("\"" + Body(s) + "\"" + rest) == Some((s, rest))
  {
    BodyLexes(s, rest);
    assert ("\"" + Body(s) + "\"" + rest)[1..] == Body(s) + "\"" + rest;
  }

  /** The four characters that are escaped. */
  ghost predicate IsEscaped(c: char) {
    c in {'"', '\\', '\n', '\t'}
  }

  /** Nothing below a space is printed, and nothing is escaped that need not be: an
      escaped character is two, and any other is itself. */
  lemma {:induction false} BodyIsPlain(s: string)
    requires Printable(s)
    ensures forall i :: 0 <= i < |Body(s)| ==> Body(s)[i] >= ' '
    ensures |Body(s)| == |s| + |Filter(IsEscaped, s)|
  {
    if s != "" {
      assert !Refused(s[0]);
      BodyIsPlain(s[1..]);
    }
  }

  /** So different texts print differently. */
  lemma PrintingIsInjective(s: string, t: string)
    requires Printable(s) && Printable(t) && Body(s) == Body(t)
    ensures s == t
  {
    BodyLexes(s, "");
    BodyLexes(t, "");
  }
}
