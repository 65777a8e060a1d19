/** A section's documents: how the decoder reads one into an options struct, the
    fragment an override stands for, and what a stack of layers leaves in each
    leaf (config/section.go, config/opt.go). */
module Documents {
  import opened Wrappers
  import opened Options
  import opened Layers
  import opened Env

  // ---- one document ----

  /** What a document holds at a path. */
  function Lookup(node: Node, path: seq<string>): Option<Node>
    decreases |path|
  {
    if path == [] then Some(node)
    else if node.Mapping? && path[0] in node.entries then Lookup(node.entries[path[0]], path[1..])
    else None
  }

  function DocLayer(node: Node): Layer {
    Layer((p: seq<string>) => match Lookup(node, p) case Some(n) => Some(FileNode(n)) case None => None,
          (p: seq<string>) => Lookup(node, p).Some?)
  }

  /** The struct, or one inlined in it, has a field of that name. */
  predicate Knows(shape: Shape, key: string)
    decreases shape
  {
    exists i :: 0 <= i < |shape.fields| && FieldKnows(shape.fields[i], key)
  }

  predicate FieldKnows(f: FieldDef, key: string)
    decreases f
  {
    !f.Skipped() && if f.Inline() && f.typ.Nested? then Knows(f.typ.shape, key) else f.Name() == key
  }

  /** Strict decoding: a struct is written as a mapping, and every key in it is a
      field. */
  predicate Strict(shape: Shape, node: Node)
    decreases shape, 1
  {
    && node.Mapping?
    && (forall key | key in node.entries :: Knows(shape, key))
    && StrictWithin(shape, node)
  }

  predicate StrictWithin(shape: Shape, node: Node)
    requires node.Mapping?
    decreases shape, 0
  {
    forall i :: 0 <= i < |shape.fields| ==> StrictField(shape.fields[i], node)
  }

  predicate StrictField(f: FieldDef, node: Node)
    requires node.Mapping?
    decreases f
  {
    f.Skipped() || f.typ.Whole? ||
      if f.Inline() then StrictWithin(f.typ.shape, node)
      else f.Name() in node.entries ==> Strict(f.typ.shape, node.entries[f.Name()])
  }

  // ---- an override ----

  datatype Override = Override(path: seq<string>, value: string, opt: string)

  /** The fragment that holds a node at a path and nothing else. */
  function Nest(path: seq<string>, node: Node): Node {
    if path == [] then node else Mapping(map[path[0] := Nest(path[1..], node)])
  }

  /** document: the value, wrapped from the last key to the first. */
  method Document(o: Override, scalar: string -> Node) returns (doc: Node)
    ensures doc == Nest(o.path, scalar(o.value))
  {
    doc := scalar(o.value);
    for i := |o.path| downto 0
      invariant doc == Nest(o.path[i..], scalar(o.value))
    {
      doc := Mapping(map[o.path[i] := doc]);
      assert o.path[i..][1..] == o.path[i + 1..];
    }
    assert o.path[0..] == o.path;
  }

  /** An override says something of its own path, of what its value holds beneath
      it, and of nothing else but the structs above it. */
  lemma {:induction false} NestSays(path: seq<string>, node: Node, q: seq<string>)
    ensures Lookup(Nest(path, node), q) ==
      if path <= q then Lookup(node, q[|path|..])
      else if q <= path then Some(Nest(path[|q|..], node))
      else None
    decreases |path|
  {
    if path != [] && q != [] && q[0] == path[0] {
      NestSays(path[1..], node, q[1..]);
      assert path <= q <==> path[1..] <= q[1..];
      assert q <= path <==> q[1..] <= path[1..];
      if path <= q {
        assert q[1..][|path[1..]|..] == q[|path|..];
      } else if q <= path {
        assert path[1..][|q[1..]|..] == path[|q|..];
      }
    } else if path == [] {
      assert q[0..] == q;
    } else if q == [] {
      assert path[0..] == path;
    }
  }

  // ---- layers, one over another ----

  /** Where one layer comes from. */
  datatype Source = File(node: Node) | Environment(prefix: string, environ: map<string, string>) | Opt(doc: Node)
  {
    function Says(): Layer {
      match this
      case File(node) => DocLayer(node)
      case Environment(prefix, environ) => EnvLayer(prefix, environ)
      case Opt(doc) => DocLayer(doc)
    }

    predicate Reads(shape: Shape) {
      match this
      case File(node) => Strict(shape, node)
      case Environment(_, _) => true
      case Opt(doc) => Strict(shape, doc)
    }
  }

  /** One source read over what is there. None is an error. */
  function Read(d: Decoder, shape: Shape, source: Source, vals: seq<Value>): (r: Option<seq<Value>>)
    requires FitsAll(shape, vals)
    ensures r.Some? ==> FitsAll(shape, r.value)
  {
    if source.Reads(shape) && Sound(source.Says(), d, shape, [], vals) then
      LaidAllFits(source.Says(), d, shape, [], vals);
      Some(LaidAll(source.Says(), d, shape, [], vals))
    else None
  }

  function Settled(d: Decoder, shape: Shape, sources: seq<Source>, vals: seq<Value>): (r: Option<seq<Value>>)
    requires FitsAll(shape, vals)
    ensures r.Some? ==> FitsAll(shape, r.value)
  {
    if sources == [] then Some(vals)
    else match Settled(d, shape, sources[..|sources| - 1], vals)
      case None => None
      case Some(mid) => Read(d, shape, sources[|sources| - 1], mid)
  }

  lemma SettledOneMore(d: Decoder, shape: Shape, sources: seq<Source>, vals: seq<Value>, source: Source)
    requires FitsAll(shape, vals)
    ensures Settled(d, shape, sources + [source], vals) ==
      match Settled(d, shape, sources, vals) case None => None case Some(mid) => Read(d, shape, source, mid)
  {
    assert (sources + [source])[..|sources + [source]| - 1] == sources;
  }

  /** An error in one source is not mended by a later one. */
  lemma {:induction false} FailedStaysFailed(d: Decoder, shape: Shape, sources: seq<Source>, k: nat, vals: seq<Value>)
    requires FitsAll(shape, vals) && k <= |sources| && Settled(d, shape, sources[..k], vals) == None
    ensures Settled(d, shape, sources, vals) == None
  {
    if k == |sources| {
      assert sources[..k] == sources;
    } else {
      assert sources[..|sources| - 1][..k] == sources[..k];
      FailedStaysFailed(d, shape, sources[..|sources| - 1], k, vals);
    }
  }

  /** The last source to say anything of a path. */
  function LastSayer(sources: seq<Source>, path: seq<string>): (r: Option<nat>)
    ensures r.Some? ==> r.value < |sources| && sources[r.value].Says().leaf(path).Some?
  {
    if sources == [] then None
    else if sources[|sources| - 1].Says().leaf(path).Some? then Some(|sources| - 1)
    else LastSayer(sources[..|sources| - 1], path)
  }

  /** And what it says. */
  function LastSaying(sources: seq<Source>, path: seq<string>): Option<Input> {
    var i := LastSayer(sources, path);
    if i.Some? then sources[i.value].Says().leaf(path) else None
  }

  /** What a leaf holds once every source has been read: what the last source to
      name it says, read into what the sources before that one left there; and
      where none names it, what was there, or the zero of a struct that was made
      around it. */
  ghost predicate LastWins(d: Decoder, shape: Shape, sources: seq<Source>, vals: seq<Value>, w: seq<nat>)
    requires FitsAll(shape, vals) && Settled(d, shape, sources, vals).Some? && LeafAt(shape, w, []).Some?
  {
    var at, now := LeafAt(shape, w, []).value, ValueAt(Settled(d, shape, sources, vals).value, w);
    match LastSayer(sources, at.0)
    case Some(i) =>
      var before := Settled(d, shape, sources[..i], vals);
      before.Some? && ReadInto(d, at.1, sources[i].Says().leaf(at.0).value, ValueAt(before.value, w), now)
    case None => LeftAlone(d, at.1, ValueAt(vals, w), now)
  }

  lemma StaysSaid(
    l: Layer, d: Decoder, path: seq<string>, kind: Kind, was: Option<Value>, mid: Option<Value>, now: Option<Value>)
    requires HoldsAfter(l, d, path, kind, mid, now) && l.leaf(path).None?
    ensures LeftAlone(d, kind, was, mid) ==> LeftAlone(d, kind, was, now)
    ensures forall input :: ReadInto(d, kind, input, was, mid) ==> ReadInto(d, kind, input, was, now)
  {
  }

  lemma LastWinsStep(d: Decoder, shape: Shape, sources: seq<Source>, vals: seq<Value>, w: seq<nat>)
    requires FitsAll(shape, vals) && Settled(d, shape, sources, vals).Some? && LeafAt(shape, w, []).Some?
    requires sources != []
    requires LastWins(d, shape, sources[..|sources| - 1], vals, w)
    ensures LastWins(d, shape, sources, vals, w)
  {
    var n := |sources| - 1;
    var init, l := sources[..n], sources[n].Says();
    var at, mid := LeafAt(shape, w, []).value, Settled(d, shape, init, vals).value;
    var now := Settled(d, shape, sources, vals).value;
    LaidAt(l, d, shape, [], mid, w);
    if l.leaf(at.0).None? {
      match LastSayer(init, at.0)
      case Some(i) =>
        assert init[..i] == sources[..i];
        var before := Settled(d, shape, sources[..i], vals).value;
        StaysSaid(l, d, at.0, at.1, ValueAt(before, w), ValueAt(mid, w), ValueAt(now, w));
      case None =>
        StaysSaid(l, d, at.0, at.1, ValueAt(vals, w), ValueAt(mid, w), ValueAt(now, w));
    }
  }

  lemma {:induction false} EveryLeafIsLastSaid(
    d: Decoder, shape: Shape, sources: seq<Source>, vals: seq<Value>, w: seq<nat>)
    requires FitsAll(shape, vals) && Settled(d, shape, sources, vals).Some? && LeafAt(shape, w, []).Some?
    ensures LastWins(d, shape, sources, vals, w)
  {
    if sources != [] {
      EveryLeafIsLastSaid(d, shape, sources[..|sources| - 1], vals, w);
      LastWinsStep(d, shape, sources, vals, w);
    }
  }

  /** What a kind is read to has nothing to do with what was there. */
  ghost predicate ReadAfresh(d: Decoder, kind: Kind) {
    forall a, b, input :: Set(d, kind, a, input) == Set(d, kind, b, input)
  }

  /** For such a kind the last source to name a leaf settles it alone. */
  lemma AfreshIsLastSaid(d: Decoder, shape: Shape, sources: seq<Source>, vals: seq<Value>, w: seq<nat>)
    requires FitsAll(shape, vals) && Settled(d, shape, sources, vals).Some? && LeafAt(shape, w, []).Some?
    requires var at := LeafAt(shape, w, []).value; ReadAfresh(d, at.1) && LastSaying(sources, at.0).Some?
    ensures var at, now := LeafAt(shape, w, []).value, ValueAt(Settled(d, shape, sources, vals).value, w);
      ReadInto(d, at.1, LastSaying(sources, at.0).value, None, now)
  {
    EveryLeafIsLastSaid(d, shape, sources, vals, w);
  }

  // ---- the structs a document makes ----

  /** A document that says something beneath a path holds something at it. */
  lemma {:induction false} SaidBeneath(node: Node, shape: Shape, path: seq<string>)
    requires Given(DocLayer(node), shape, path)
    ensures Lookup(node, path).Some?
    decreases shape
  {
    var i :| 0 <= i < |shape.fields| && FieldGiven(DocLayer(node), shape.fields[i], path);
    var f := shape.fields[i];
    if f.typ.Nested? && Given(DocLayer(node), f.typ.shape, f.Path(path)) {
      SaidBeneath(node, f.typ.shape, f.Path(path));
    }
    if !f.Inline() {
      LookupUnder(node, path, [f.Name()]);
    }
  }

  lemma {:induction false} LookupUnder(node: Node, path: seq<string>, more: seq<string>)
    requires Lookup(node, path + more).Some?
    ensures Lookup(node, path).Some?
  {
    if path != [] {
      assert (path + more)[1..] == path[1..] + more;
      LookupUnder(node.entries[path[0]], path[1..], more);
    }
  }

  /** A document makes the struct a pointer is to exactly when it holds something at
      the struct's own path, be it an empty mapping. */
  lemma WrittenIsMade(d: Decoder, node: Node, shape: Shape, vals: seq<Value>, w: seq<nat>)
    requires FitsAll(shape, vals) && FieldAt(shape, w, []).Some?
    requires var f := FieldAt(shape, w, []).value.0; f.typ.Nested? && f.typ.pointer && !f.Skipped() && !f.Inline()
    ensures var (f, path) := FieldAt(shape, w, []).value;
      IsThere(ValueAt(LaidAll(DocLayer(node), d, shape, [], vals), w)) <==>
        IsThere(ValueAt(vals, w)) || Lookup(node, path + [f.Name()]).Some?
  {
    var (f, path) := FieldAt(shape, w, []).value;
    MadeIffGiven(DocLayer(node), d, shape, [], vals, w);
    if Given(DocLayer(node), f.typ.shape, f.Path(path)) {
      SaidBeneath(node, f.typ.shape, f.Path(path));
    }
  }
}
