/** The walk that reads the environment into an options struct (config/env.go). */
module Env {
  import opened Wrappers
  import opened Text
  import opened Options
  import opened Layers

  // ---- a Go slice of strings ----

  /** A prefix of a backing array; what is past the prefix is spare room that any
      other slice of the same array may be using. */
  datatype Slice = Slice(arr: array<string>, len: nat)
  {
    predicate Valid() {
      len <= arr.Length
    }

    function Items(): seq<string>
      requires Valid()
      reads arr
    {
      arr[..len]
    }
  }

  /** append: in place where there is room, and otherwise in a new array whose size
      is the runtime's to choose. */
  method Append(s: Slice, x: string) returns (r: Slice)
    requires s.Valid()
    modifies s.arr
    ensures r.Valid() && (r.arr == s.arr || fresh(r.arr))
    ensures r.Items() == old(s.Items()) + [x]
    ensures s.Items() == old(s.Items())
  {
    if s.len < s.arr.Length {
      s.arr[s.len] := x;
      return Slice(s.arr, s.len + 1);
    }
    var size: nat :| size > s.len;
    var grown := new string[size](_ => "");
    forall i | 0 <= i < s.len {
      grown[i] := s.arr[i];
    }
    grown[s.len] := x;
    r := Slice(grown, s.len + 1);
  }

  // ---- names ----

  function Shout(s: string): (r: string)
    ensures |r| == |s|
  {
    seq(|s|, i requires 0 <= i < |s| =>
      if s[i] == '-' then '_' else if 'a' <= s[i] <= 'z' then s[i] - 'a' + 'A' else s[i])
  }

  const PREFIX := "CALQUE_"

  function SectionPrefix(section: string): string {
    PREFIX + Shout(section) + "_"
  }

  /** The variable a field at a path is read from. */
  function EnvKey(prefix: string, path: seq<string>): string {
    prefix + Shout(Join(path, '_'))
  }

  /** The same, a letter in either case and a dash as an underscore. */
  predicate SameInNames(c: char, d: char) {
    SameLetter(c, d) || (c in "-_" && d in "-_")
  }

  predicate SpellsAlike(a: string, b: string) {
    |a| == |b| && forall i :: 0 <= i < |a| ==> SameInNames(a[i], b[i])
  }

  /** No small letter and no dash. */
  predicate IsLoud(s: string) {
    forall i :: 0 <= i < |s| ==> !('a' <= s[i] <= 'z') && s[i] != '-'
  }

  lemma ShoutSpells(s: string)
    ensures SpellsAlike(Shout(s), s) && IsLoud(Shout(s))
  {
  }

  lemma LoudIsOne(a: string, b: string)
    requires IsLoud(a) && IsLoud(b) && SpellsAlike(a, b)
    ensures a == b
  {
  }

  /** The text a variable is named after: the section and the path to the field. */
  function Spoken(section: string, path: seq<string>): string {
    section + "_" + Join(path, '_')
  }

  /** A field's variable is CALQUE_ and then the section and the path, with dashes as
      underscores and all in capitals. */
  lemma VariableSpells(section: string, path: seq<string>)
    ensures var name := EnvKey(SectionPrefix(section), path);
      && |name| >= 7 && name[..7] == "CALQUE_"
      && SpellsAlike(name[7..], Spoken(section, path)) && IsLoud(name)
  {
    var loud, louder := Shout(section), Shout(Join(path, '_'));
    ShoutSpells(section);
    ShoutSpells(Join(path, '_'));
    NameSpells(loud, louder, section, Join(path, '_'));
    assert EnvKey(SectionPrefix(section), path) == "CALQUE_" + loud + "_" + louder;
  }

  lemma NameSpells(loud: string, louder: string, section: string, rest: string)
    requires IsLoud(loud) && IsLoud(louder) && SpellsAlike(loud, section) && SpellsAlike(louder, rest)
    ensures var name := "CALQUE_" + loud + "_" + louder;
      && |name| >= 7 && name[..7] == "CALQUE_"
      && SpellsAlike(name[7..], section + "_" + rest) && IsLoud(name)
  {
    var name := "CALQUE_" + loud + "_" + louder;
    assert name == "CALQUE_" + (loud + "_" + louder) && name[7..] == loud + "_" + louder;
    assert IsLoud("CALQUE_") && IsLoud(loud + "_" + louder);
  }

  /** Two fields answer to one variable exactly when that text is the same but for
      case and dashes: so `x` of `my-store` and `store_x` of `my` share theirs. */
  lemma OneVariableIff(section: string, path: seq<string>, section': string, path': seq<string>)
    ensures EnvKey(SectionPrefix(section), path) == EnvKey(SectionPrefix(section'), path')
       <==> SpellsAlike(Spoken(section, path), Spoken(section', path'))
  {
    var name, name' := EnvKey(SectionPrefix(section), path), EnvKey(SectionPrefix(section'), path');
    VariableSpells(section, path);
    VariableSpells(section', path');
    if SpellsAlike(Spoken(section, path), Spoken(section', path')) {
      assert SpellsAlike(name[7..], name'[7..]);
      LoudIsOne(name[7..], name'[7..]);
      assert name == name[..7] + name[7..] && name' == name'[..7] + name'[7..];
    }
  }

  lemma TwoFieldsOneVariable()
    ensures EnvKey(SectionPrefix("my-store"), ["x"]) == EnvKey(SectionPrefix("my"), ["store_x"]) == "CALQUE_MY_STORE_X"
  {
    assert Join(["x"], '_') == "x" && Join(["store_x"], '_') == "store_x";
    assert Shout("my-store") == "MY_STORE" && Shout("my") == "MY" && Shout("x") == "X" && Shout("store_x") == "STORE_X";
  }

  /** What the environment says, as a layer: text for a leaf, and never a struct
      for its own sake. */
  function EnvLayer(prefix: string, environ: map<string, string>): Layer {
    Layer((p: seq<string>) => var name := EnvKey(prefix, p);
                              if name in environ then Some(EnvText(environ[name])) else None,
          (p: seq<string>) => false)
  }

  /** The names of those spots a walk keeps: all of them when it only records. */
  function Kept(prefix: string, environ: Option<map<string, string>>, spots: seq<Spot>): seq<string> {
    if spots == [] then []
    else
      var name := EnvKey(prefix, spots[|spots| - 1].path);
      Kept(prefix, environ, spots[..|spots| - 1]) + if environ.None? || name in environ.value then [name] else []
  }

  lemma {:induction false} KeptAppend(prefix: string, environ: Option<map<string, string>>, a: seq<Spot>, b: seq<Spot>)
    ensures Kept(prefix, environ, a + b) == Kept(prefix, environ, a) + Kept(prefix, environ, b)
  {
    if b == [] {
      assert a + b == a;
    } else {
      assert (a + b)[..|a + b| - 1] == a + b[..|b| - 1];
      KeptAppend(prefix, environ, a, b[..|b| - 1]);
    }
  }

  /** The variables of a section, one a leaf. A function of the shape alone: what
      the struct holds has no part in it. */
  function Names(prefix: string, shape: Shape): seq<string> {
    Kept(prefix, None, Leaves(shape, [], []))
  }

  /** The names, leaf by leaf. */
  lemma {:induction false} KeptAll(prefix: string, spots: seq<Spot>)
    ensures |Kept(prefix, None, spots)| == |spots|
    ensures forall i :: 0 <= i < |spots| ==> Kept(prefix, None, spots)[i] == EnvKey(prefix, spots[i].path)
  {
    if spots != [] {
      KeptAll(prefix, spots[..|spots| - 1]);
    }
  }

  lemma {:induction false} KeptSome(prefix: string, environ: map<string, string>, spots: seq<Spot>, name: string)
    ensures name in Kept(prefix, Some(environ), spots) <==> name in Kept(prefix, None, spots) && name in environ
  {
    if spots != [] {
      KeptSome(prefix, environ, spots[..|spots| - 1], name);
    }
  }

  // ---- the walk ----

  class EnvWalk {
    const prefix: string
    const d: Decoder
    /** None when the walk only records names. */
    const environ: Option<map<string, string>>
    var names: seq<string>

    constructor (prefix: string, d: Decoder, environ: Option<map<string, string>>)
      ensures this.prefix == prefix && this.d == d && this.environ == environ && names == []
    {
      this.prefix, this.d, this.environ := prefix, d, environ;
      names := [];
    }

    function Says(): Layer {
      EnvLayer(prefix, if environ.Some? then environ.value else map[])
    }

    /** What the walk does at one leaf: record its name, or read its variable. */
    method Visit(name: string, kind: Kind, held: Scalar) returns (r: Result<Option<Scalar>, string>)
      modifies this`names
      ensures environ.None? || name in environ.value ==> r.Failure? || names == old(names) + [name]
      ensures environ.Some? && name !in environ.value ==> names == old(names)
      ensures r == if environ.None? || name !in environ.value then Success(None)
                   else
                     match SetEnv(d, kind, held, environ.value[name])
                     case None => Failure(name)
                     case Some(x) => Success(Some(x))
    {
      if environ.None? {
        names := names + [name];
        return Success(None);
      }
      if name !in environ.value {
        return Success(None);
      }
      var x := SetEnv(d, kind, held, environ.value[name]);
      if x.None? {
        return Failure(name);
      }
      names := names + [name];
      return Success(x);
    }

    /** One field. Its path p is appended to, in an array that other paths may be
        using; what p itself spells is untouched. */
    method WalkField(f: FieldDef, v: Value, path: Slice, ghost p: seq<string>, ghost where: seq<nat>)
      returns (v': Value, read: bool, error: Option<string>)
      requires Fits(f.typ, v) && InlinableField(f) && path.Valid() && path.Items() == p
      modifies this`names, path.arr
      ensures path.Items() == p
      ensures Reports(error, Fault(Says(), d, f, p, v))
      ensures error == None ==> v' == Laid(Says(), d, f, p, v) && read == FieldGiven(Says(), f, p)
      ensures error == None ==> names == old(names) + Kept(prefix, environ, LeavesOf(f, where, p))
      decreases f
    {
      v', read, error := v, false, None;
      if f.Skipped() {
        return;
      }
      var inner := path;
      if !f.Inline() {
        inner := Append(path, f.Name());
      }
      assert inner.Items() == f.Path(p);
      match f.typ
      case Whole(kind) =>
        var r := Visit(EnvKey(prefix, inner.Items()), kind, v.scalar);
        assert Kept(prefix, environ, [Spot(where, f.Path(p), kind)][..0]) == [];
        if r.Failure? {
          error := Some(r.error);
        } else if r.value.Some? {
          v', read := Leaf(r.value.value), true;
        }
      case Nested(_, shape) =>
        ZerosFit(d, shape);
        var vals := if v.Nil? then Zeros(d, shape) else v.fields;
        var out;
        out, read, error := WalkStruct(shape, vals, inner, f.Path(p), where);
        if error.None? && (read || v.Struct?) {
          v' := Struct(out);
        }
    }

    /** An error names the variable of the leaf that failed, and there is one
        exactly when one did. */
    ghost predicate Reports(error: Option<string>, fault: Option<seq<string>>) {
      match fault case Some(path) => error == Some(EnvKey(prefix, path)) case None => error == None
    }

    /** The names once the first k fields have been walked. */
    ghost function Heard(before: seq<string>, shape: Shape, k: nat, where: seq<nat>, p: seq<string>): seq<string>
      requires k <= |shape.fields|
    {
      before + Kept(prefix, environ, LeavesTo(shape, k, where, p))
    }

    lemma HeardOneMore(before: seq<string>, shape: Shape, k: nat, where: seq<nat>, p: seq<string>)
      requires k < |shape.fields|
      ensures Heard(before, shape, k + 1, where, p) ==
        Heard(before, shape, k, where, p) + Kept(prefix, environ, LeavesOf(shape.fields[k], where + [k], p))
    {
      KeptAppend(prefix, environ, LeavesTo(shape, k, where, p), LeavesOf(shape.fields[k], where + [k], p));
    }

    /** One turn of the loop over the fields. */
    method WalkNext(
      shape: Shape, i: nat, vals: seq<Value>, out: seq<Value>, read: bool, path: Slice,
      ghost p: seq<string>, ghost where: seq<nat>)
      returns (out': seq<Value>, read': bool, error: Option<string>)
      requires FitsAll(shape, vals) && Inlinable(shape) && path.Valid() && path.Items() == p && i < |vals|
      requires PartLaid(Says(), d, shape, i, p, vals, out, read)
      modifies this`names, path.arr
      ensures path.Items() == p
      ensures error.Some? ==> Reports(error, FaultTo(Says(), d, shape, |vals|, p, vals))
      ensures error == None ==> PartLaid(Says(), d, shape, i + 1, p, vals, out', read')
      ensures error == None ==> names == old(names) + Kept(prefix, environ, LeavesOf(shape.fields[i], where + [i], p))
      decreases shape, 0
    {
      out', read' := out, read;
      var v, one;
      v, one, error := WalkField(shape.fields[i], vals[i], path, p, where + [i]);
      if error.Some? {
        FaultComesFirst(Says(), d, shape, i, |vals|, p, vals);
      } else {
        PartLaidOneMore(Says(), d, shape, i, p, vals, out, read);
        out' := out[i := v];
        read' := read || one;
      }
    }

    method WalkStruct(shape: Shape, vals: seq<Value>, path: Slice, ghost p: seq<string>, ghost where: seq<nat>)
      returns (out: seq<Value>, read: bool, error: Option<string>)
      requires FitsAll(shape, vals) && Inlinable(shape) && path.Valid() && path.Items() == p
      modifies this`names, path.arr
      ensures path.Items() == p
      ensures Reports(error, FaultTo(Says(), d, shape, |vals|, p, vals))
      ensures error == None ==> out == LaidAll(Says(), d, shape, p, vals) && read == Given(Says(), shape, p)
      ensures error == None ==> names == old(names) + Kept(prefix, environ, Leaves(shape, where, p))
      decreases shape, 1
    {
      out, read, error := vals, false, None;
      ghost var before := names;
      for i := 0 to |vals|
        invariant path.Items() == p && error == None
        invariant PartLaid(Says(), d, shape, i, p, vals, out, read)
        invariant names == Heard(before, shape, i, where, p)
      {
        out, read, error := WalkNext(shape, i, vals, out, read, path, p, where);
        if error.Some? {
          return out, false, error;
        }
        HeardOneMore(before, shape, i, where, p);
      }
      AllLaid(Says(), d, shape, p, vals, out, read);
    }
  }

  /** The first k fields have been walked, and none failed. */
  ghost predicate PartLaid(
    l: Layer, d: Decoder, shape: Shape, k: nat, path: seq<string>, vals: seq<Value>, out: seq<Value>, read: bool)
    requires FitsAll(shape, vals) && k <= |vals|
  {
    && |out| == |vals|
    && (forall j :: 0 <= j < k ==> out[j] == Laid(l, d, shape.fields[j], path, vals[j]))
    && (forall j :: k <= j < |vals| ==> out[j] == vals[j])
    && FaultTo(l, d, shape, k, path, vals) == None
    && (read <==> exists j :: 0 <= j < k && FieldGiven(l, shape.fields[j], path))
  }

  lemma PartLaidOneMore(
    l: Layer, d: Decoder, shape: Shape, k: nat, path: seq<string>, vals: seq<Value>, out: seq<Value>, read: bool)
    requires FitsAll(shape, vals) && k < |vals| && PartLaid(l, d, shape, k, path, vals, out, read)
    requires Fault(l, d, shape.fields[k], path, vals[k]) == None
    ensures PartLaid(l, d, shape, k + 1, path, vals, out[k := Laid(l, d, shape.fields[k], path, vals[k])],
                     read || FieldGiven(l, shape.fields[k], path))
  {
  }

  lemma AllLaid(l: Layer, d: Decoder, shape: Shape, path: seq<string>, vals: seq<Value>, out: seq<Value>, read: bool)
    requires FitsAll(shape, vals) && PartLaid(l, d, shape, |vals|, path, vals, out, read)
    ensures out == LaidAll(l, d, shape, path, vals) && read == Given(l, shape, path)
    ensures FaultTo(l, d, shape, |vals|, path, vals) == None
  {
  }

  /** The first field to fail is the one reported. */
  lemma {:induction false} FaultComesFirst(
    l: Layer, d: Decoder, shape: Shape, i: nat, n: nat, path: seq<string>, vals: seq<Value>)
    requires FitsAll(shape, vals) && i < n <= |vals| && FaultTo(l, d, shape, i, path, vals).None?
    requires Fault(l, d, shape.fields[i], path, vals[i]).Some?
    ensures FaultTo(l, d, shape, n, path, vals) == Fault(l, d, shape.fields[i], path, vals[i])
    decreases n
  {
    if i < n - 1 {
      FaultComesFirst(l, d, shape, i, n - 1, path, vals);
    }
  }

  // ---- what the walk comes to ----

  /** A section answers to one name a leaf, in field order, each spelled by the
      path to its leaf, and to no other. */
  lemma NamesAreOfLeaves(prefix: string, shape: Shape)
    ensures var spots := Leaves(shape, [], []);
      && |Names(prefix, shape)| == |spots|
      && (forall i :: 0 <= i < |spots| ==> Names(prefix, shape)[i] == EnvKey(prefix, spots[i].path))
      && (forall i :: 0 <= i < |spots| ==> LeafAt(shape, spots[i].where, []) == Some((spots[i].path, spots[i].kind)))
      && (forall i, j :: 0 <= i < j < |spots| ==> Before(spots[i].where, spots[j].where))
    ensures forall w :: LeafAt(shape, w, []).Some? ==>
      EnvKey(prefix, LeafAt(shape, w, []).value.0) in Names(prefix, shape)
  {
    var spots := Leaves(shape, [], []);
    KeptAll(prefix, spots);
    EveryLeafOnce(shape, []);
    assert forall i :: 0 <= i < |spots| ==> spots[i] in spots;
    forall w | LeafAt(shape, w, []).Some? ensures EnvKey(prefix, LeafAt(shape, w, []).value.0) in Names(prefix, shape) {
      var s := Spot(w, LeafAt(shape, w, []).value.0, LeafAt(shape, w, []).value.1);
      assert s in spots;
      var i :| 0 <= i < |spots| && spots[i] == s;
      assert Names(prefix, shape)[i] == EnvKey(prefix, s.path);
    }
  }

  /** A walk that reports no error reads each named leaf's variable into it, makes
      a missing struct exactly when a leaf beneath it was read, and changes
      nothing else: a leaf nobody named holds what it held, or the zero of a
      struct made around it. */
  lemma WalkReadsWhatIsNamed(
    prefix: string, environ: map<string, string>, d: Decoder, shape: Shape, vals: seq<Value>, w: seq<nat>)
    requires FitsAll(shape, vals) && Layers.Sound(EnvLayer(prefix, environ), d, shape, [], vals)
    ensures var out := LaidAll(EnvLayer(prefix, environ), d, shape, [], vals);
      && (LeafAt(shape, w, []).Some? ==>
            LeafRead(prefix, environ, d, LeafAt(shape, w, []).value, ValueAt(vals, w), ValueAt(out, w)))
      && (FieldAt(shape, w, []).Some? ==>
            MadeIfRead(prefix, environ, FieldAt(shape, w, []).value, ValueAt(vals, w), ValueAt(out, w)))
  {
    var l := EnvLayer(prefix, environ);
    if LeafAt(shape, w, []).Some? {
      LaidAt(l, d, shape, [], vals, w);
    }
    if FieldAt(shape, w, []).Some? {
      var (f, path) := FieldAt(shape, w, []).value;
      if f.typ.Nested? && f.typ.pointer {
        MadeIffGiven(l, d, shape, [], vals, w);
        GivenIffLeafIs(l, f, [], path);
      }
    }
  }

  ghost predicate LeafRead(prefix: string, environ: map<string, string>, d: Decoder, leaf: (seq<string>, Kind),
                           was: Option<Value>, now: Option<Value>) {
    var name := EnvKey(prefix, leaf.0);
    if name in environ then
      var held := if was.Some? && was.value.Leaf? then was.value.scalar else ZeroScalar(d, leaf.1);
      now.Some? && now.value.Leaf? && SetEnv(d, leaf.1, held, environ[name]) == Some(now.value.scalar)
    else now == was || (was == None && now == Some(Leaf(ZeroScalar(d, leaf.1))))
  }

  ghost predicate MadeIfRead(prefix: string, environ: map<string, string>, at: (FieldDef, seq<string>),
                             was: Option<Value>, now: Option<Value>) {
    at.0.typ.Nested? && at.0.typ.pointer ==>
      (IsThere(now) <==> IsThere(was) || exists s :: s in LeavesOf(at.0, [], at.1) && EnvKey(prefix, s.path) in environ)
  }
}
