/** A layer said leaf by leaf: which leaves an options struct has, in which order
    a walk meets them, and what each holds once a layer is laid over it. */
module Layers {
  import opened Wrappers
  import opened Options

  /** A leaf: where it is among the fields, the path its name spells, its kind. */
  datatype Spot = Spot(where: seq<nat>, path: seq<string>, kind: Kind)

  // ---- every leaf once, in field order ----

  function Leaves(shape: Shape, where: seq<nat>, path: seq<string>): seq<Spot>
    decreases shape
  {
    LeavesTo(shape, |shape.fields|, where, path)
  }

  function LeavesTo(shape: Shape, k: nat, where: seq<nat>, path: seq<string>): seq<Spot>
    requires k <= |shape.fields|
    decreases shape, 0, k
  {
    if k == 0 then [] else LeavesTo(shape, k - 1, where, path) + LeavesOf(shape.fields[k - 1], where + [k - 1], path)
  }

  function LeavesOf(f: FieldDef, where: seq<nat>, path: seq<string>): seq<Spot>
    decreases f
  {
    if f.Skipped() then []
    else match f.typ
      case Whole(kind) => [Spot(where, f.Path(path), kind)]
      case Nested(_, shape) => LeavesTo(shape, |shape.fields|, where, f.Path(path))
  }

  /** The leaf at a place, found by going straight to it. */
  function LeafAt(shape: Shape, w: seq<nat>, path: seq<string>): Option<(seq<string>, Kind)>
    decreases shape
  {
    if w == [] || w[0] >= |shape.fields| || shape.fields[w[0]].Skipped() then None
    else
      var f := shape.fields[w[0]];
      match f.typ
      case Whole(kind) => if |w| == 1 then Some((f.Path(path), kind)) else None
      case Nested(_, inner) => LeafAt(inner, w[1..], f.Path(path))
  }

  /** The names of the fields on the way to a place, those that are inlined left
      out. */
  ghost function NamesAlong(shape: Shape, w: seq<nat>): seq<string>
    decreases |w|
  {
    if w == [] || w[0] >= |shape.fields| then []
    else
      var f := shape.fields[w[0]];
      (if f.Inline() then [] else [f.Name()])
      + match f.typ case Whole(_) => [] case Nested(_, inner) => NamesAlong(inner, w[1..])
  }

  /** A leaf's path is the names of the fields it is in, from the outside in, and
      then its own. */
  lemma {:induction false} LeafPathIsNames(shape: Shape, w: seq<nat>, path: seq<string>)
    requires LeafAt(shape, w, path).Some?
    ensures LeafAt(shape, w, path).value.0 == path + NamesAlong(shape, w)
    decreases shape
  {
    var f := shape.fields[w[0]];
    if f.typ.Nested? {
      var rest := NamesAlong(f.typ.shape, w[1..]);
      LeafPathIsNames(f.typ.shape, w[1..], f.Path(path));
      if f.Inline() {
        assert NamesAlong(shape, w) == [] + rest == rest;
      } else {
        assert path + [f.Name()] + rest == path + ([f.Name()] + rest);
      }
    }
  }

  /** Place a is met before place b. */
  predicate Before(a: seq<nat>, b: seq<nat>) {
    a != [] && b != [] && (a[0] < b[0] || (a[0] == b[0] && Before(a[1..], b[1..])))
  }

  lemma {:induction false} BeforeUnder(base: seq<nat>, a: seq<nat>, b: seq<nat>)
    ensures Before(base + a, base + b) <==> Before(a, b)
  {
    if base == [] {
      assert base + a == a && base + b == b;
    } else {
      assert (base + a)[1..] == base[1..] + a && (base + b)[1..] == base[1..] + b;
      BeforeUnder(base[1..], a, b);
    }
  }

  ghost predicate Under(base: seq<nat>, i: nat, w: seq<nat>) {
    |w| > |base| && base <= w && w[|base|] == i
  }

  ghost predicate UnderFirst(base: seq<nat>, k: nat, w: seq<nat>) {
    exists i: nat :: i < k && Under(base, i, w)
  }

  /** Where one field's leaves are, and which they are. */
  lemma {:induction false} LeavesOfField(f: FieldDef, i: nat, base: seq<nat>, path: seq<string>)
    ensures forall k :: 0 <= k < |LeavesOf(f, base + [i], path)| ==>
      Under(base, i, LeavesOf(f, base + [i], path)[k].where)
    ensures forall j, k :: 0 <= j < k < |LeavesOf(f, base + [i], path)| ==>
      Before(LeavesOf(f, base + [i], path)[j].where, LeavesOf(f, base + [i], path)[k].where)
    decreases f, 1
  {
    if !f.Skipped() && f.typ.Nested? {
      LeavesInOrder(f.typ.shape, |f.typ.shape.fields|, base + [i], f.Path(path));
      var out := LeavesOf(f, base + [i], path);
      forall k | 0 <= k < |out| ensures Under(base, i, out[k].where) {
        assert UnderFirst(base + [i], |f.typ.shape.fields|, out[k].where);
        assert out[k].where[..|base| + 1] == base + [i];
      }
    }
  }

  lemma BeforeAcross(base: seq<nat>, i: nat, j: nat, a: seq<nat>, b: seq<nat>)
    requires Under(base, i, a) && Under(base, j, b) && i < j
    ensures Before(a, b)
  {
    assert a == base + a[|base|..] && b == base + b[|base|..];
    BeforeUnder(base, a[|base|..], b[|base|..]);
  }

  /** The walk meets the leaves one after another, in the order of the fields. */
  lemma {:induction false} LeavesInOrder(shape: Shape, k: nat, base: seq<nat>, path: seq<string>)
    requires k <= |shape.fields|
    ensures forall j :: 0 <= j < |LeavesTo(shape, k, base, path)| ==>
      UnderFirst(base, k, LeavesTo(shape, k, base, path)[j].where)
    ensures forall j, j' :: 0 <= j < j' < |LeavesTo(shape, k, base, path)| ==>
      Before(LeavesTo(shape, k, base, path)[j].where, LeavesTo(shape, k, base, path)[j'].where)
    decreases shape, 0, k
  {
    if k > 0 {
      LeavesInOrder(shape, k - 1, base, path);
      LeavesOfField(shape.fields[k - 1], k - 1, base, path);
      var init, more := LeavesTo(shape, k - 1, base, path), LeavesOf(shape.fields[k - 1], base + [k - 1], path);
      var all := init + more;
      assert all == LeavesTo(shape, k, base, path);
      forall j | 0 <= j < |all| ensures UnderFirst(base, k, all[j].where) {
        if j < |init| {
          assert UnderFirst(base, k - 1, init[j].where);
        } else {
          assert Under(base, k - 1, more[j - |init|].where);
        }
      }
      forall j, j' | 0 <= j < j' < |all| ensures Before(all[j].where, all[j'].where) {
        if j < |init| <= j' {
          assert UnderFirst(base, k - 1, init[j].where);
          var i: nat :| i < k - 1 && Under(base, i, init[j].where);
          BeforeAcross(base, i, k - 1, init[j].where, more[j' - |init|].where);
        }
      }
    }
  }

  /** A leaf of one field is the leaf at its place. */
  lemma {:induction false} LeafOfFieldIsAt(f: FieldDef, base: seq<nat>, path: seq<string>, w: seq<nat>, s: Spot)
    requires s.where == base + w
    ensures s in LeavesOf(f, base, path) <==>
      !f.Skipped() && if f.typ.Whole? then w == [] && s.path == f.Path(path) && s.kind == f.typ.kind
                      else LeafAt(f.typ.shape, w, f.Path(path)) == Some((s.path, s.kind))
    decreases f, 1
  {
    if !f.Skipped() {
      if f.typ.Whole? {
        assert w == [] <==> base + w == base;
      } else {
        LeavesAreComplete(f.typ.shape, |f.typ.shape.fields|, base, f.Path(path), w, s);
      }
    }
  }

  lemma {:induction false} LeavesAreComplete(
    shape: Shape, k: nat, base: seq<nat>, path: seq<string>, w: seq<nat>, s: Spot)
    requires k <= |shape.fields| && s.where == base + w
    ensures s in LeavesTo(shape, k, base, path) <==>
      w != [] && w[0] < k && LeafAt(shape, w, path) == Some((s.path, s.kind))
    decreases shape, 0, k
  {
    if k > 0 {
      LeavesAreComplete(shape, k - 1, base, path, w, s);
      var f, here := shape.fields[k - 1], base + [k - 1];
      if w != [] && w[0] == k - 1 {
        assert base + w == here + w[1..];
        LeafOfFieldIsAt(f, here, path, w[1..], s);
      } else {
        LeavesOfField(f, k - 1, base, path);
        var found := LeavesOf(f, here, path);
        forall j | 0 <= j < |found| ensures found[j] != s {
          assert Under(base, k - 1, found[j].where);
        }
      }
    }
  }

  /** A walk over an options struct meets every leaf once, in field order, under
      the path its place spells, and nothing else. */
  lemma EveryLeafOnce(shape: Shape, path: seq<string>)
    ensures forall s :: s in Leaves(shape, [], path) <==> LeafAt(shape, s.where, path) == Some((s.path, s.kind))
    ensures forall j, k :: 0 <= j < k < |Leaves(shape, [], path)| ==>
      Before(Leaves(shape, [], path)[j].where, Leaves(shape, [], path)[k].where)
  {
    LeavesInOrder(shape, |shape.fields|, [], path);
    forall s ensures s in Leaves(shape, [], path) <==> LeafAt(shape, s.where, path) == Some((s.path, s.kind)) {
      assert s.where == [] + s.where;
      LeavesAreComplete(shape, |shape.fields|, [], path, s.where, s);
    }
  }

  // ---- what each place holds under a layer ----

  /** The value at a place. None for a place beneath a nil pointer. */
  function ValueAt(vals: seq<Value>, w: seq<nat>): Option<Value>
    decreases |w|
  {
    if w == [] || w[0] >= |vals| then None
    else if |w| == 1 then Some(vals[w[0]])
    else match vals[w[0]]
      case Struct(inner) => ValueAt(inner, w[1..])
      case _ => None
  }

  /** Nothing in the layer is refused. */
  predicate Sound(l: Layer, d: Decoder, shape: Shape, path: seq<string>, vals: seq<Value>)
    requires FitsAll(shape, vals)
  {
    FaultTo(l, d, shape, |shape.fields|, path, vals).None?
  }

  lemma {:induction false} FaultsAreOfFields(
    l: Layer, d: Decoder, shape: Shape, k: nat, path: seq<string>, vals: seq<Value>)
    requires FitsAll(shape, vals) && k <= |vals|
    ensures FaultTo(l, d, shape, k, path, vals).None? <==>
      forall i :: 0 <= i < k ==> Fault(l, d, shape.fields[i], path, vals[i]).None?
  {
    if k > 0 {
      FaultsAreOfFields(l, d, shape, k - 1, path, vals);
    }
  }

  /** What a leaf is read into: what it holds, or the zero of one still missing. */
  function Held(d: Decoder, kind: Kind, was: Option<Value>): Scalar {
    if was.Some? && was.value.Leaf? then was.value.scalar else ZeroScalar(d, kind)
  }

  /** The input, read into what was there. */
  predicate ReadInto(d: Decoder, kind: Kind, input: Input, was: Option<Value>, now: Option<Value>) {
    now.Some? && now.value.Leaf? && Set(d, kind, Held(d, kind, was), input) == Some(now.value.scalar)
  }

  /** What was there, or the zero of a struct that was made around it. */
  predicate LeftAlone(d: Decoder, kind: Kind, was: Option<Value>, now: Option<Value>) {
    now == was || (was == None && now == Some(Leaf(ZeroScalar(d, kind))))
  }

  /** What a leaf holds after a layer. */
  ghost predicate HoldsAfter(
    l: Layer, d: Decoder, path: seq<string>, kind: Kind, was: Option<Value>, now: Option<Value>) {
    match l.leaf(path)
    case Some(input) => ReadInto(d, kind, input, was, now)
    case None => LeftAlone(d, kind, was, now)
  }

  lemma {:induction false} ZerosAreZero(d: Decoder, shape: Shape, w: seq<nat>, path: seq<string>)
    requires LeafAt(shape, w, path).Some?
    ensures ValueAt(Zeros(d, shape), w) in {None, Some(Leaf(ZeroScalar(d, LeafAt(shape, w, path).value.1)))}
    decreases shape
  {
    var f := shape.fields[w[0]];
    if f.typ.Nested? && !f.typ.pointer && |w| > 1 {
      ZerosAreZero(d, f.typ.shape, w[1..], f.Path(path));
    }
  }

  lemma {:induction false} LeafIsGiven(l: Layer, shape: Shape, w: seq<nat>, path: seq<string>)
    requires LeafAt(shape, w, path).Some? && l.leaf(LeafAt(shape, w, path).value.0).Some?
    ensures Given(l, shape, path) && FieldGiven(l, shape.fields[w[0]], path)
    decreases shape
  {
    var f := shape.fields[w[0]];
    if f.typ.Nested? {
      LeafIsGiven(l, f.typ.shape, w[1..], f.Path(path));
    }
  }

  /** Laying a sound layer over a struct, leaf by leaf. */
  lemma {:induction false} LaidAt(l: Layer, d: Decoder, shape: Shape, path: seq<string>, vals: seq<Value>, w: seq<nat>)
    requires FitsAll(shape, vals) && Sound(l, d, shape, path, vals) && LeafAt(shape, w, path).Some?
    ensures var at := LeafAt(shape, w, path).value;
      HoldsAfter(l, d, at.0, at.1, ValueAt(vals, w), ValueAt(LaidAll(l, d, shape, path, vals), w))
    decreases shape
  {
    var f, v := shape.fields[w[0]], vals[w[0]];
    assert Fits(f.typ, v);
    FaultsAreOfFields(l, d, shape, |vals|, path, vals);
    assert Fault(l, d, f, path, v).None?;
    assert LaidAll(l, d, shape, path, vals)[w[0]] == Laid(l, d, f, path, v);
    if f.typ.Nested? {
      assert |w| > 1;
      NestedLaidAt(l, d, f, path, v, w[1..]);
    }
  }

  lemma {:induction false} NestedLaidAt(l: Layer, d: Decoder, f: FieldDef, path: seq<string>, v: Value, w: seq<nat>)
    requires f.typ.Nested? && !f.Skipped() && Fits(f.typ, v) && Fault(l, d, f, path, v).None?
    requires LeafAt(f.typ.shape, w, f.Path(path)).Some?
    ensures var at := LeafAt(f.typ.shape, w, f.Path(path)).value;
      HoldsAfter(l, d, at.0, at.1, ValueUnder(v, w), ValueUnder(Laid(l, d, f, path, v), w))
    decreases f
  {
    var shape, inner := f.typ.shape, f.Path(path);
    if v.Struct? {
      LaidAt(l, d, shape, inner, v.fields, w);
    } else if FieldGiven(l, f, path) {
      ZerosFit(d, shape);
      ZerosAreZero(d, shape, w, inner);
      LaidAt(l, d, shape, inner, Zeros(d, shape), w);
    } else if l.leaf(LeafAt(shape, w, inner).value.0).Some? {
      LeafIsGiven(l, shape, w, inner);
    }
  }

  function ValueUnder(v: Value, w: seq<nat>): Option<Value> {
    match v case Struct(fields) => ValueAt(fields, w) case _ => None
  }

  // ---- which structs are there ----

  /** The field at a place, with the path it is under. */
  function FieldAt(shape: Shape, w: seq<nat>, path: seq<string>): Option<(FieldDef, seq<string>)>
    decreases shape
  {
    if w == [] || w[0] >= |shape.fields| || shape.fields[w[0]].Skipped() then None
    else
      var f := shape.fields[w[0]];
      if |w| == 1 then Some((f, path))
      else match f.typ
        case Whole(_) => None
        case Nested(_, inner) => FieldAt(inner, w[1..], f.Path(path))
  }

  predicate IsThere(v: Option<Value>) {
    v.Some? && v.value.Struct?
  }

  lemma {:induction false} ZerosAreMissing(d: Decoder, shape: Shape, w: seq<nat>, path: seq<string>)
    requires FieldAt(shape, w, path).Some?
    requires var f := FieldAt(shape, w, path).value.0; f.typ.Nested? && f.typ.pointer
    ensures !IsThere(ValueAt(Zeros(d, shape), w))
    decreases shape
  {
    var f := shape.fields[w[0]];
    if |w| > 1 && !f.typ.pointer {
      ZerosAreMissing(d, f.typ.shape, w[1..], f.Path(path));
    }
  }

  lemma {:induction false} FieldIsGiven(l: Layer, shape: Shape, w: seq<nat>, path: seq<string>)
    requires FieldAt(shape, w, path).Some?
    requires FieldGiven(l, FieldAt(shape, w, path).value.0, FieldAt(shape, w, path).value.1)
    ensures Given(l, shape, path) && FieldGiven(l, shape.fields[w[0]], path)
    decreases shape
  {
    if |w| > 1 {
      FieldIsGiven(l, shape.fields[w[0]].typ.shape, w[1..], shape.fields[w[0]].Path(path));
    }
  }

  /** A pointer to a struct points at one after a layer exactly when it did before
      or the layer says something beneath it. */
  lemma {:induction false} MadeIffGiven(
    l: Layer, d: Decoder, shape: Shape, path: seq<string>, vals: seq<Value>, w: seq<nat>)
    requires FitsAll(shape, vals) && FieldAt(shape, w, path).Some?
    requires var f := FieldAt(shape, w, path).value.0; f.typ.Nested? && f.typ.pointer
    ensures var at := FieldAt(shape, w, path).value;
      IsThere(ValueAt(LaidAll(l, d, shape, path, vals), w)) <==> IsThere(ValueAt(vals, w)) || FieldGiven(l, at.0, at.1)
    decreases shape
  {
    var f, v := shape.fields[w[0]], vals[w[0]];
    assert Fits(f.typ, v);
    assert LaidAll(l, d, shape, path, vals)[w[0]] == Laid(l, d, f, path, v);
    if |w| > 1 {
      var inner, inpath, rest := f.typ.shape, f.Path(path), w[1..];
      if v.Struct? {
        MadeIffGiven(l, d, inner, inpath, v.fields, rest);
      } else if FieldGiven(l, f, path) {
        ZerosFit(d, inner);
        ZerosAreMissing(d, inner, rest, inpath);
        MadeIffGiven(l, d, inner, inpath, Zeros(d, inner), rest);
      } else if FieldGiven(l, FieldAt(inner, rest, inpath).value.0, FieldAt(inner, rest, inpath).value.1) {
        FieldIsGiven(l, inner, rest, inpath);
      }
    }
  }

  /** With nothing written out for its own sake, something beneath is said exactly
      when some leaf beneath is. */
  lemma {:induction false} GivenIffLeafIs(l: Layer, f: FieldDef, where: seq<nat>, path: seq<string>)
    requires forall p :: !l.opens(p)
    ensures FieldGiven(l, f, path) <==> exists s :: s in LeavesOf(f, where, path) && l.leaf(s.path).Some?
    decreases f
  {
    if !f.Skipped() {
      match f.typ
      case Whole(kind) =>
        var s := Spot(where, f.Path(path), kind);
        assert s in LeavesOf(f, where, path);
      case Nested(_, shape) =>
        GivenIffLeafUpTo(l, shape, |shape.fields|, where, f.Path(path));
    }
  }

  lemma {:induction false} GivenIffLeafUpTo(l: Layer, shape: Shape, k: nat, where: seq<nat>, path: seq<string>)
    requires (forall p :: !l.opens(p)) && k <= |shape.fields|
    ensures (exists i :: 0 <= i < k && FieldGiven(l, shape.fields[i], path)) <==>
      exists s :: s in LeavesTo(shape, k, where, path) && l.leaf(s.path).Some?
    decreases shape, 0, k
  {
    if k > 0 {
      GivenIffLeafUpTo(l, shape, k - 1, where, path);
      GivenIffLeafIs(l, shape.fields[k - 1], where + [k - 1], path);
      var init, more := LeavesTo(shape, k - 1, where, path), LeavesOf(shape.fields[k - 1], where + [k - 1], path);
      assert forall s :: s in LeavesTo(shape, k, where, path) <==> s in init || s in more;
    }
  }

  /** A layer that says nothing changes nothing. */
  lemma {:induction false} NothingGiven(l: Layer, d: Decoder, shape: Shape, path: seq<string>, vals: seq<Value>)
    requires FitsAll(shape, vals) && !Given(l, shape, path)
    ensures LaidAll(l, d, shape, path, vals) == vals
    decreases shape
  {
    forall i | 0 <= i < |vals| ensures LaidAll(l, d, shape, path, vals)[i] == vals[i] {
      var f, v := shape.fields[i], vals[i];
      assert Fits(f.typ, v) && !FieldGiven(l, f, path);
      if !f.Skipped() && f.typ.Nested? && v.Struct? {
        NothingGiven(l, d, f.typ.shape, f.Path(path), v.fields);
      }
    }
  }
}
