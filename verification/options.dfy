/** What a section decodes into: a Go options struct as a finite tree of fields,
    the values it holds, and one layer of settings laid over them. A layer is a
    document or the environment; both are read field by field under the names the
    yaml tags spell (config/env.go). */
module Options {
  import opened Wrappers
  import opened Text

  // ---- types ----

  datatype Kind = StringKind | OtherKind(name: string) | PointerTo(elem: Kind)

  /** A field is read as a whole, or is a struct that is walked into. */
  datatype FieldType = Whole(kind: Kind) | Nested(pointer: bool, shape: Shape)

  datatype Shape = Shape(fields: seq<FieldDef>)

  datatype FieldDef = FieldDef(goName: string, tag: string, exported: bool, typ: FieldType)
  {
    /** The name before the first comma of the yaml tag, or the Go name in lower
        case when there is none. */
    function Name(): string {
      var first := Split(tag, ',')[0];
      if first == "" then LowerText(goName) else first
    }

    /** Neither in the file nor in the environment. */
    predicate Skipped() {
      !exported || Split(tag, ',')[0] == "-"
    }

    predicate Inline() {
      "inline" in Split(tag, ',')[1..]
    }

    /** The path of what is inside, the same as outside when inlined. */
    function Path(path: seq<string>): seq<string> {
      if Inline() then path else path + [Name()]
    }
  }

  function LowerText(s: string): (r: string)
    ensures |r| == |s|
  {
    seq(|s|, i requires 0 <= i < |s| => if 'A' <= s[i] <= 'Z' then s[i] - 'A' + 'a' else s[i])
  }

  /** The same letter in either case. */
  predicate SameLetter(c: char, d: char) {
    || c == d
    || ('a' <= c <= 'z' && d as int == c as int - 32)
    || ('a' <= d <= 'z' && c as int == d as int - 32)
  }

  lemma LowerTextIsLower(s: string)
    ensures forall i :: 0 <= i < |s| ==> SameLetter(LowerText(s)[i], s[i]) && !('A' <= LowerText(s)[i] <= 'Z')
  {
  }

  /** What a yaml tag says of a field: a name up to the first comma and options after
      it. A field is skipped for the name "-" and inlined for the option "inline";
      without a name it goes by its Go name in lower case. */
  lemma TagNamesField(f: FieldDef, name: string, rest: Option<string>)
    requires ',' !in name && f.tag == name + if rest.Some? then "," + rest.value else ""
    ensures f.Skipped() <==> !f.exported || name == "-"
    ensures f.Inline() <==> rest.Some? && "inline" in Split(rest.value, ',')
    ensures name != "" ==> f.Name() == name
    ensures name == "" ==> |f.Name()| == |f.goName| && forall i :: 0 <= i < |f.goName| ==>
      SameLetter(f.Name()[i], f.goName[i]) && !('A' <= f.Name()[i] <= 'Z')
  {
    if rest.Some? {
      assert f.tag == name + [','] + rest.value;
      SplitOfAppend(name, rest.value, ',');
    } else {
      assert f.tag == name;
      SplitOfFree(name, ',');
    }
    LowerTextIsLower(f.goName);
  }

  /** Inlining asks for a struct; the walk has nothing to do with anything else. */
  predicate Inlinable(shape: Shape)
    decreases shape
  {
    forall i :: 0 <= i < |shape.fields| ==> InlinableField(shape.fields[i])
  }

  predicate InlinableField(f: FieldDef)
    decreases f
  {
    f.Skipped() || (if f.typ.Whole? then !f.Inline() else Inlinable(f.typ.shape))
  }

  // ---- values ----

  /** What a field read as a whole holds. Only strings are looked into. */
  datatype Scalar = Words(text: string) | Opaque(repr: string) | NilPointer | Pointer(to: Scalar)

  datatype Value = Leaf(scalar: Scalar) | Nil | Struct(fields: seq<Value>)

  /** One value of a document. Keys of a mapping are distinct. */
  datatype Node = Plain(text: string) | List(items: seq<Node>) | Mapping(entries: map<string, Node>)

  /** What a layer says of one leaf. */
  datatype Input = EnvText(text: string) | FileNode(node: Node)

  /** What the decoder does with a value it reads as a whole: what it starts at,
      how text from the environment is read into it, and how a node is. None is
      a refusal. */
  datatype Decoder = Decoder(
    zero: string -> Scalar,
    text: (string, Scalar, string) -> Option<Scalar>,
    node: (Kind, Scalar, Node) -> Option<Scalar>)

  function ZeroScalar(d: Decoder, kind: Kind): Scalar {
    match kind case StringKind => Words("") case OtherKind(name) => d.zero(name) case PointerTo(_) => NilPointer
  }

  /** setEnv: pointers are followed from a fresh zero, strings are kept verbatim, and
      every other kind goes to the decoder. */
  function SetEnv(d: Decoder, kind: Kind, held: Scalar, text: string): Option<Scalar> {
    match kind
    case PointerTo(elem) =>
      (match SetEnv(d, elem, ZeroScalar(d, elem), text) case Some(x) => Some(Pointer(x)) case None => None)
    case StringKind => Some(Words(text))
    case OtherKind(name) => d.text(name, held, text)
  }

  function Set(d: Decoder, kind: Kind, held: Scalar, input: Input): Option<Scalar> {
    match input case EnvText(text) => SetEnv(d, kind, held, text) case FileNode(node) => d.node(kind, held, node)
  }

  function Zero(d: Decoder, typ: FieldType): Value
    decreases typ
  {
    match typ
    case Whole(kind) => Leaf(ZeroScalar(d, kind))
    case Nested(pointer, shape) => if pointer then Nil else Struct(Zeros(d, shape))
  }

  function Zeros(d: Decoder, shape: Shape): (vals: seq<Value>)
    ensures |vals| == |shape.fields|
    decreases shape
  {
    seq(|shape.fields|, i requires 0 <= i < |shape.fields| => Zero(d, shape.fields[i].typ))
  }

  predicate Fits(typ: FieldType, v: Value)
    decreases typ
  {
    match typ
    case Whole(_) => v.Leaf?
    case Nested(pointer, shape) => if v.Nil? then pointer else v.Struct? && FitsAll(shape, v.fields)
  }

  predicate FitsAll(shape: Shape, vals: seq<Value>)
    decreases shape
  {
    |vals| == |shape.fields| && forall i :: 0 <= i < |vals| ==> Fits(shape.fields[i].typ, vals[i])
  }

  lemma {:induction false} ZeroFits(d: Decoder, typ: FieldType)
    ensures Fits(typ, Zero(d, typ))
    decreases typ
  {
    if typ.Nested? && !typ.pointer {
      ZerosFit(d, typ.shape);
    }
  }

  lemma {:induction false} ZerosFit(d: Decoder, shape: Shape)
    ensures FitsAll(shape, Zeros(d, shape))
    decreases shape
  {
    forall i | 0 <= i < |shape.fields| ensures Fits(shape.fields[i].typ, Zeros(d, shape)[i]) {
      ZeroFits(d, shape.fields[i].typ);
    }
  }

  // ---- one layer ----

  /** What is said of the leaf at a path, and whether the struct at a path is
      written out though nothing in it need be. */
  datatype Layer = Layer(leaf: seq<string> -> Option<Input>, opens: seq<string> -> bool)

  /** Something beneath is said. */
  predicate Given(l: Layer, shape: Shape, path: seq<string>)
    decreases shape
  {
    exists i :: 0 <= i < |shape.fields| && FieldGiven(l, shape.fields[i], path)
  }

  predicate FieldGiven(l: Layer, f: FieldDef, path: seq<string>)
    decreases f
  {
    && !f.Skipped()
    && match f.typ
       case Whole(_) => l.leaf(f.Path(path)).Some?
       case Nested(_, shape) => (!f.Inline() && l.opens(f.Path(path))) || Given(l, shape, f.Path(path))
  }

  function Laid(l: Layer, d: Decoder, f: FieldDef, path: seq<string>, v: Value): (r: Value)
    requires Fits(f.typ, v)
    decreases f, 1
  {
    if f.Skipped() then v
    else match f.typ
      case Whole(kind) =>
        (match l.leaf(f.Path(path))
         case None => v
         case Some(input) => (match Set(d, kind, v.scalar, input) case None => v case Some(x) => Leaf(x)))
      case Nested(_, shape) =>
        if v.Nil? && !FieldGiven(l, f, path) then Nil
        else
          ZerosFit(d, shape);
          Struct(LaidAll(l, d, shape, f.Path(path), if v.Nil? then Zeros(d, shape) else v.fields))
  }

  function LaidAll(l: Layer, d: Decoder, shape: Shape, path: seq<string>, vals: seq<Value>): (r: seq<Value>)
    requires FitsAll(shape, vals)
    ensures |r| == |vals|
    decreases shape
  {
    seq(|vals|, i requires 0 <= i < |vals| => Laid(l, d, shape.fields[i], path, vals[i]))
  }

  /** The leaf whose value does not fit: the first, in field order. */
  function Fault(l: Layer, d: Decoder, f: FieldDef, path: seq<string>, v: Value): Option<seq<string>>
    requires Fits(f.typ, v)
    decreases f
  {
    if f.Skipped() then None
    else match f.typ
      case Whole(kind) =>
        (match l.leaf(f.Path(path))
         case None => None
         case Some(input) => if Set(d, kind, v.scalar, input).None? then Some(f.Path(path)) else None)
      case Nested(_, shape) =>
        ZerosFit(d, shape);
        FaultTo(l, d, shape, |shape.fields|, f.Path(path), if v.Nil? then Zeros(d, shape) else v.fields)
  }

  function FaultTo(l: Layer, d: Decoder, shape: Shape, k: nat, path: seq<string>, vals: seq<Value>): Option<seq<string>>
    requires FitsAll(shape, vals) && k <= |vals|
    decreases shape, k
  {
    if k == 0 then None
    else if FaultTo(l, d, shape, k - 1, path, vals).Some? then FaultTo(l, d, shape, k - 1, path, vals)
    else Fault(l, d, shape.fields[k - 1], path, vals[k - 1])
  }

  lemma {:induction false} LaidFits(l: Layer, d: Decoder, f: FieldDef, path: seq<string>, v: Value)
    requires Fits(f.typ, v)
    ensures Fits(f.typ, Laid(l, d, f, path, v))
    decreases f
  {
    if !f.Skipped() && f.typ.Nested? {
      ZerosFit(d, f.typ.shape);
      LaidAllFits(l, d, f.typ.shape, f.Path(path), if v.Nil? then Zeros(d, f.typ.shape) else v.fields);
    }
  }

  lemma {:induction false} LaidAllFits(l: Layer, d: Decoder, shape: Shape, path: seq<string>, vals: seq<Value>)
    requires FitsAll(shape, vals)
    ensures FitsAll(shape, LaidAll(l, d, shape, path, vals))
    decreases shape
  {
    forall i | 0 <= i < |vals| ensures Fits(shape.fields[i].typ, LaidAll(l, d, shape, path, vals)[i]) {
      LaidFits(l, d, shape.fields[i], path, vals[i]);
    }
  }
}
