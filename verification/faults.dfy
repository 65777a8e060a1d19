/** Which leaf a layer fails at: of all those whose text or node does not fit, the
    first in field order (config/env.go). */
module Faults {
  import opened Wrappers
  import opened Options
  import opened Layers

  /** Something is said of the leaf at that place, and it cannot be read into what
      the leaf holds. */
  ghost predicate Fails(l: Layer, d: Decoder, shape: Shape, path: seq<string>, vals: seq<Value>, w: seq<nat>) {
    && LeafAt(shape, w, path).Some?
    && var at := LeafAt(shape, w, path).value;
    l.leaf(at.0).Some? && Set(d, at.1, Held(d, at.1, ValueAt(vals, w)), l.leaf(at.0).value).None?
  }

  /** It is the first to, of those in fields from i to k. */
  ghost predicate FailsFirst(
    l: Layer, d: Decoder, shape: Shape, path: seq<string>, vals: seq<Value>, i: nat, k: nat, w: seq<nat>)
  {
    && w != [] && i <= w[0] < k && Fails(l, d, shape, path, vals, w)
    && forall v: seq<nat> :: v != [] && i <= v[0] < k && Fails(l, d, shape, path, vals, v) ==> !Before(v, w)
  }

  ghost predicate NoneFails(l: Layer, d: Decoder, shape: Shape, path: seq<string>, vals: seq<Value>, i: nat, k: nat) {
    forall v: seq<nat> :: v != [] && i <= v[0] < k ==> !Fails(l, d, shape, path, vals, v)
  }

  /** The fault is the path of that leaf, and there is none when no leaf fails. */
  ghost predicate FaultIs(l: Layer, d: Decoder, shape: Shape, path: seq<string>, vals: seq<Value>, i: nat, k: nat,
                          fault: Option<seq<string>>) {
    match fault
    case None => NoneFails(l, d, shape, path, vals, i, k)
    case Some(p) =>
      exists w: seq<nat> :: FailsFirst(l, d, shape, path, vals, i, k, w) && LeafAt(shape, w, path).value.0 == p
  }

  lemma InnerFails(l: Layer, d: Decoder, shape: Shape, path: seq<string>, vals: seq<Value>, i: nat, u: seq<nat>)
    requires FitsAll(shape, vals) && i < |vals| && !shape.fields[i].Skipped() && shape.fields[i].typ.Nested?
    ensures var f := shape.fields[i];
      var inner := if vals[i].Struct? then vals[i].fields else Zeros(d, f.typ.shape);
      Fails(l, d, shape, path, vals, [i] + u) <==> Fails(l, d, f.typ.shape, f.Path(path), inner, u)
  {
    var f := shape.fields[i];
    assert Fits(f.typ, vals[i]) && ([i] + u)[1..] == u;
    if LeafAt(f.typ.shape, u, f.Path(path)).Some? {
      ZerosAreZero(d, f.typ.shape, u, f.Path(path));
    }
  }

  lemma BeforeInside(i: nat, a: seq<nat>, b: seq<nat>)
    ensures Before([i] + a, [i] + b) <==> Before(a, b)
  {
    assert ([i] + a)[1..] == a && ([i] + b)[1..] == b;
  }

  lemma {:induction false} FieldFault(l: Layer, d: Decoder, shape: Shape, path: seq<string>, vals: seq<Value>, i: nat)
    requires FitsAll(shape, vals) && i < |vals|
    ensures FaultIs(l, d, shape, path, vals, i, i + 1, Fault(l, d, shape.fields[i], path, vals[i]))
    decreases shape, i, 0
  {
    var f, v := shape.fields[i], vals[i];
    assert Fits(f.typ, v);
    if !f.Skipped() && f.typ.Whole? {
      LeafFault(l, d, shape, path, vals, i);
    } else if !f.Skipped() {
      var inner := if v.Nil? then Zeros(d, f.typ.shape) else v.fields;
      ZerosFit(d, f.typ.shape);
      StructFault(l, d, f.typ.shape, f.Path(path), inner, |f.typ.shape.fields|);
      NestedFault(l, d, shape, path, vals, i, inner);
    }
  }

  lemma LeafFault(l: Layer, d: Decoder, shape: Shape, path: seq<string>, vals: seq<Value>, i: nat)
    requires FitsAll(shape, vals) && i < |vals| && !shape.fields[i].Skipped() && shape.fields[i].typ.Whole?
    ensures FaultIs(l, d, shape, path, vals, i, i + 1, Fault(l, d, shape.fields[i], path, vals[i]))
  {
    assert Fits(shape.fields[i].typ, vals[i]);
    forall w: seq<nat> | w != [] && i <= w[0] < i + 1 && Fails(l, d, shape, path, vals, w) ensures w == [i] {
    }
    if Fault(l, d, shape.fields[i], path, vals[i]).Some? {
      assert FailsFirst(l, d, shape, path, vals, i, i + 1, [i]);
    }
  }

  lemma NestedFault(
    l: Layer, d: Decoder, shape: Shape, path: seq<string>, vals: seq<Value>, i: nat, inner: seq<Value>)
    requires FitsAll(shape, vals) && i < |vals| && !shape.fields[i].Skipped() && shape.fields[i].typ.Nested?
    requires inner == if vals[i].Struct? then vals[i].fields else Zeros(d, shape.fields[i].typ.shape)
    requires var f := shape.fields[i];
      FaultIs(l, d, f.typ.shape, f.Path(path), inner, 0, |f.typ.shape.fields|, Fault(l, d, f, path, vals[i]))
    ensures FaultIs(l, d, shape, path, vals, i, i + 1, Fault(l, d, shape.fields[i], path, vals[i]))
  {
    var f := shape.fields[i];
    var s, p, n := f.typ.shape, f.Path(path), |f.typ.shape.fields|;
    forall v: seq<nat> | v != [] && v[0] == i && Fails(l, d, shape, path, vals, v)
      ensures v[1..] != [] && v[1..][0] < n && Fails(l, d, s, p, inner, v[1..]) && v == [i] + v[1..]
    {
      assert v == [i] + v[1..];
      InnerFails(l, d, shape, path, vals, i, v[1..]);
    }
    if Fault(l, d, f, path, vals[i]).Some? {
      var u: seq<nat> :| FailsFirst(l, d, s, p, inner, 0, n, u)
        && LeafAt(s, u, p).value.0 == Fault(l, d, f, path, vals[i]).value;
      var w := [i] + u;
      InnerFails(l, d, shape, path, vals, i, u);
      assert w[1..] == u;
      forall v: seq<nat> | v != [] && i <= v[0] < i + 1 && Fails(l, d, shape, path, vals, v) ensures !Before(v, w) {
        BeforeInside(i, v[1..], u);
      }
      assert FailsFirst(l, d, shape, path, vals, i, i + 1, w);
    }
  }

  /** The fault of a struct is the path of the first of its leaves, in field order,
      that fails. */
  lemma {:induction false} StructFault(l: Layer, d: Decoder, shape: Shape, path: seq<string>, vals: seq<Value>, k: nat)
    requires FitsAll(shape, vals) && k <= |vals|
    ensures FaultIs(l, d, shape, path, vals, 0, k, FaultTo(l, d, shape, k, path, vals))
    decreases shape, k, 1
  {
    if k > 0 {
      StructFault(l, d, shape, path, vals, k - 1);
      FieldFault(l, d, shape, path, vals, k - 1);
      FaultOneMore(l, d, shape, path, vals, k - 1);
    }
  }

  lemma FaultOneMore(l: Layer, d: Decoder, shape: Shape, path: seq<string>, vals: seq<Value>, k: nat)
    requires FitsAll(shape, vals) && k < |vals|
    requires FaultIs(l, d, shape, path, vals, 0, k, FaultTo(l, d, shape, k, path, vals))
    requires FaultIs(l, d, shape, path, vals, k, k + 1, Fault(l, d, shape.fields[k], path, vals[k]))
    ensures FaultIs(l, d, shape, path, vals, 0, k + 1, FaultTo(l, d, shape, k + 1, path, vals))
  {
    var fault := FaultTo(l, d, shape, k, path, vals);
    if fault.Some? {
      var w: seq<nat> :| FailsFirst(l, d, shape, path, vals, 0, k, w) && LeafAt(shape, w, path).value.0 == fault.value;
      assert FailsFirst(l, d, shape, path, vals, 0, k + 1, w);
    } else if Fault(l, d, shape.fields[k], path, vals[k]).Some? {
      var w: seq<nat> :| FailsFirst(l, d, shape, path, vals, k, k + 1, w)
        && LeafAt(shape, w, path).value.0 == Fault(l, d, shape.fields[k], path, vals[k]).value;
      assert FailsFirst(l, d, shape, path, vals, 0, k + 1, w);
    }
  }

  /** A layer is refused for the first leaf, in field order, that what it says of it
      does not fit, and for no other; and one that fits everywhere is not refused. */
  lemma FaultIsFirstToFail(l: Layer, d: Decoder, shape: Shape, vals: seq<Value>)
    requires FitsAll(shape, vals)
    ensures match FaultTo(l, d, shape, |vals|, [], vals)
            case None => forall w: seq<nat> :: !Fails(l, d, shape, [], vals, w)
            case Some(p) => exists w: seq<nat> ::
              && Fails(l, d, shape, [], vals, w) && LeafAt(shape, w, []).value.0 == p
              && forall v: seq<nat> :: Fails(l, d, shape, [], vals, v) ==> !Before(v, w)
  {
    StructFault(l, d, shape, [], vals, |vals|);
    if FaultTo(l, d, shape, |vals|, [], vals).Some? {
      var w: seq<nat> :| FailsFirst(l, d, shape, [], vals, 0, |vals|, w)
        && LeafAt(shape, w, []).value.0 == FaultTo(l, d, shape, |vals|, [], vals).value;
      forall v: seq<nat> | Fails(l, d, shape, [], vals, v) ensures !Before(v, w) {
        assert v != [] && v[0] < |vals|;
      }
    }
  }

  // ---- reading text ----

  /** A pointer, this many levels above a kind. */
  ghost function Above(n: nat, kind: Kind): Kind {
    if n == 0 then kind else PointerTo(Above(n - 1, kind))
  }

  ghost function PointedAt(n: nat, x: Scalar): Scalar {
    if n == 0 then x else Pointer(PointedAt(n - 1, x))
  }

  /** However many pointers away, text reaches a string as it is, and any other kind
      is read from its zero, whatever was held. */
  lemma {:induction false} PointersAreFollowed(d: Decoder, n: nat, name: string, held: Scalar, text: string)
    ensures SetEnv(d, Above(n, StringKind), held, text) == Some(PointedAt(n, Words(text)))
    ensures var x := d.text(name, if n == 0 then held else d.zero(name), text);
      SetEnv(d, Above(n, OtherKind(name)), held, text) == if x.None? then None else Some(PointedAt(n, x.value))
  {
    if n > 0 {
      PointersAreFollowed(d, n - 1, name, ZeroScalar(d, Above(n - 1, StringKind)), text);
      PointersAreFollowed(d, n - 1, name, ZeroScalar(d, Above(n - 1, OtherKind(name))), text);
    }
  }
}
