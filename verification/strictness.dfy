/** Which documents strict decoding takes, said by the paths of their keys
    (config/section.go): the recursion over a struct looks for nothing else. */
module Strictness {
  import opened Wrappers
  import opened Options
  import opened Layers
  import opened Documents

  /** The struct at the end of a walk, found by going straight to it. */
  ghost function StructAt(shape: Shape, w: seq<nat>): Option<Shape>
    decreases |w|
  {
    if w == [] then Some(shape)
    else if w[0] >= |shape.fields| || shape.fields[w[0]].Skipped() || shape.fields[w[0]].typ.Whole? then None
    else StructAt(shape.fields[w[0]].typ.shape, w[1..])
  }

  /** Its last field is one that has a mapping of its own: it is not inlined. */
  ghost predicate EndsOpen(shape: Shape, w: seq<nat>)
    requires StructAt(shape, w).Some?
    decreases |w|
  {
    w == [] || if |w| == 1 then !shape.fields[w[0]].Inline() else EndsOpen(shape.fields[w[0]].typ.shape, w[1..])
  }

  /** A field of the struct, or of one inlined in it at any depth, has that name. */
  ghost predicate HasKey(shape: Shape, key: string) {
    exists w: seq<nat>, i: nat :: NamesKey(shape, w, i, key)
  }

  ghost predicate NamesKey(shape: Shape, w: seq<nat>, i: nat, key: string) {
    && StructAt(shape, w).Some? && NamesAlong(shape, w) == []
    && i < |StructAt(shape, w).value.fields|
    && var f := StructAt(shape, w).value.fields[i];
    !f.Skipped() && !(f.Inline() && f.typ.Nested?) && f.Name() == key
  }

  ghost predicate AllKnown(shape: Shape, node: Node) {
    node.Mapping? && forall key | key in node.entries :: HasKey(shape, key)
  }

  /** What is written for the struct at the end of a walk is a mapping of its keys. */
  ghost predicate KnownAt(shape: Shape, node: Node, w: seq<nat>) {
    StructAt(shape, w).Some? && EndsOpen(shape, w) && Lookup(node, NamesAlong(shape, w)).Some? ==>
      AllKnown(StructAt(shape, w).value, Lookup(node, NamesAlong(shape, w)).value)
  }

  lemma WalkOn(shape: Shape, i: nat, w: seq<nat>)
    requires i < |shape.fields| && !shape.fields[i].Skipped() && shape.fields[i].typ.Nested?
    ensures var f := shape.fields[i];
      && StructAt(shape, [i] + w) == StructAt(f.typ.shape, w)
      && NamesAlong(shape, [i] + w) == (if f.Inline() then [] else [f.Name()]) + NamesAlong(f.typ.shape, w)
      && (StructAt(f.typ.shape, w).Some? ==>
            (EndsOpen(shape, [i] + w) <==> if w == [] then !f.Inline() else EndsOpen(f.typ.shape, w)))
  {
    assert ([i] + w)[1..] == w;
  }

  lemma {:induction false} KnowsHasKey(shape: Shape, key: string)
    ensures Knows(shape, key) <==> HasKey(shape, key)
    decreases shape
  {
    forall i | 0 <= i < |shape.fields| && shape.fields[i].typ.Nested?
      ensures Knows(shape.fields[i].typ.shape, key) <==> HasKey(shape.fields[i].typ.shape, key)
    {
      KnowsHasKey(shape.fields[i].typ.shape, key);
    }
    if Knows(shape, key) {
      KnownIsNamed(shape, key);
    }
    if w: seq<nat>, i: nat :| NamesKey(shape, w, i, key) {
      NamedIsKnown(shape, w, i, key);
    }
  }

  lemma KnownIsNamed(shape: Shape, key: string)
    requires Knows(shape, key)
    requires forall i :: 0 <= i < |shape.fields| && shape.fields[i].typ.Nested? ==>
      (Knows(shape.fields[i].typ.shape, key) <==> HasKey(shape.fields[i].typ.shape, key))
    ensures HasKey(shape, key)
  {
    var i: nat :| i < |shape.fields| && FieldKnows(shape.fields[i], key);
    var f := shape.fields[i];
    if f.Inline() && f.typ.Nested? {
      var w: seq<nat>, j: nat :| NamesKey(f.typ.shape, w, j, key);
      WalkOn(shape, i, w);
      assert NamesKey(shape, [i] + w, j, key);
    } else {
      assert NamesKey(shape, [], i, key);
    }
  }

  lemma NamedIsKnown(shape: Shape, w: seq<nat>, i: nat, key: string)
    requires NamesKey(shape, w, i, key)
    requires forall i :: 0 <= i < |shape.fields| && shape.fields[i].typ.Nested? ==>
      (Knows(shape.fields[i].typ.shape, key) <==> HasKey(shape.fields[i].typ.shape, key))
    ensures Knows(shape, key)
  {
    if w == [] {
      assert FieldKnows(shape.fields[i], key);
    } else {
      var f := shape.fields[w[0]];
      assert f.Inline() && NamesKey(f.typ.shape, w[1..], i, key);
      assert FieldKnows(f, key);
    }
  }

  lemma StrictSteps(shape: Shape, node: Node, i: nat)
    requires node.Mapping? && StrictWithin(shape, node) && i < |shape.fields|
    requires !shape.fields[i].Skipped() && shape.fields[i].typ.Nested?
    ensures var f := shape.fields[i];
      if f.Inline() then StrictWithin(f.typ.shape, node)
      else f.Name() in node.entries ==> Strict(f.typ.shape, node.entries[f.Name()])
  {
    assert StrictField(shape.fields[i], node);
  }

  lemma {:induction false} StrictReaches(shape: Shape, node: Node, w: seq<nat>)
    requires node.Mapping? && StrictWithin(shape, node) && w != []
    requires StructAt(shape, w).Some? && EndsOpen(shape, w) && Lookup(node, NamesAlong(shape, w)).Some?
    ensures Strict(StructAt(shape, w).value, Lookup(node, NamesAlong(shape, w)).value)
    decreases |w|
  {
    var f, rest := shape.fields[w[0]], w[1..];
    assert w == [w[0]] + rest;
    WalkOn(shape, w[0], rest);
    StrictSteps(shape, node, w[0]);
    var inner := NamesAlong(f.typ.shape, rest);
    if f.Inline() {
      assert [] + inner == inner;
      StrictReaches(f.typ.shape, node, rest);
    } else {
      var path := [f.Name()] + inner;
      assert NamesAlong(shape, w) == path && path[0] == f.Name() && path[1..] == inner;
      if rest != [] {
        StrictReaches(f.typ.shape, node.entries[f.Name()], rest);
      }
    }
  }

  /** Every struct that has a mapping of its own has one whose keys are its own. */
  ghost predicate KnownWithin(shape: Shape, node: Node) {
    forall w: seq<nat> :: w != [] ==> KnownAt(shape, node, w)
  }

  lemma KnownInside(shape: Shape, node: Node, i: nat)
    requires node.Mapping? && KnownWithin(shape, node)
    requires i < |shape.fields| && !shape.fields[i].Skipped() && shape.fields[i].typ.Nested?
    ensures var f := shape.fields[i];
      if f.Inline() then KnownWithin(f.typ.shape, node)
      else f.Name() in node.entries ==>
        AllKnown(f.typ.shape, node.entries[f.Name()]) && KnownWithin(f.typ.shape, node.entries[f.Name()])
  {
    var f := shape.fields[i];
    forall w: seq<nat>
      ensures f.Inline() && w != [] ==> KnownAt(f.typ.shape, node, w)
      ensures !f.Inline() && f.Name() in node.entries ==> KnownAt(f.typ.shape, node.entries[f.Name()], w)
    {
      var inner := NamesAlong(f.typ.shape, w);
      WalkOn(shape, i, w);
      assert KnownAt(shape, node, [i] + w);
      assert [] + inner == inner && ([f.Name()] + inner)[1..] == inner;
    }
    if !f.Inline() && f.Name() in node.entries {
      assert KnownAt(f.typ.shape, node.entries[f.Name()], []);
    }
  }

  lemma {:induction false} KnownIsStrict(shape: Shape, node: Node)
    requires node.Mapping? && KnownWithin(shape, node)
    ensures StrictWithin(shape, node)
    decreases shape
  {
    forall i | 0 <= i < |shape.fields| ensures StrictField(shape.fields[i], node) {
      var f := shape.fields[i];
      if !f.Skipped() && f.typ.Nested? {
        KnownInside(shape, node, i);
        if f.Inline() {
          KnownIsStrict(f.typ.shape, node);
        } else if f.Name() in node.entries {
          forall key ensures Knows(f.typ.shape, key) <==> HasKey(f.typ.shape, key) {
            KnowsHasKey(f.typ.shape, key);
          }
          KnownIsStrict(f.typ.shape, node.entries[f.Name()]);
        }
      }
    }
  }

  /** A document is taken exactly when it is a mapping of the struct's keys, and what
      it holds at the path of every struct inside that is not inlined is a mapping of
      that struct's keys: one key too many anywhere, or one value where a struct
      belongs, and it is refused. */
  lemma StrictIsKnown(shape: Shape, node: Node)
    ensures Strict(shape, node) <==> AllKnown(shape, node) && forall w: seq<nat> :: KnownAt(shape, node, w)
  {
    forall s: Shape, key ensures Knows(s, key) <==> HasKey(s, key) {
      KnowsHasKey(s, key);
    }
    if Strict(shape, node) {
      forall w: seq<nat> | StructAt(shape, w).Some? && EndsOpen(shape, w) && Lookup(node, NamesAlong(shape, w)).Some?
        ensures AllKnown(StructAt(shape, w).value, Lookup(node, NamesAlong(shape, w)).value)
      {
        if w != [] {
          StrictReaches(shape, node, w);
        }
      }
    }
    if AllKnown(shape, node) && forall w: seq<nat> :: KnownAt(shape, node, w) {
      KnownIsStrict(shape, node);
    }
  }
}
