/** What the annotations of one message say (ormcompat/prop.go, ormcompat/type.go,
    ormcompat/entity.go). An annotation is a record with presence bits; what a
    descriptor library answers about a proto field is a record too. */
module Annotations {
  import opened Wrappers
  import opened Diag
  import opened Model

  /** (orm.field). A flag is None where the annotation says nothing. `declared`
      is None for an unspecified type and TypeUnspecified for a number this
      vocabulary does not know. */
  datatype FieldOptions = FieldOptions(
    disabled: bool, key: bool, declared: Option<Type>,
    unique: Option<bool>, nullable: Option<bool>, immutable: Option<bool>,
    version: bool, erased: bool)

  /** (orm.edge). */
  datatype EdgeOptions = EdgeOptions(disabled: bool, unique: bool, nullable: bool, immutable: bool, from: Option<Ref>)

  /** A field of a message. `kind` is its proto kind as a type; `repeated` is its
      cardinality, which a map has too. */
  datatype ProtoField = ProtoField(
    names: Names, number: int, kind: Type, message: string,
    repeated: bool, isMap: bool, optionalKeyword: bool, presence: bool,
    field: Option<FieldOptions>, edge: Option<EdgeOptions>)

  datatype IndexOptions = IndexOptions(
    disabled: bool, name: string, refs: seq<Ref>, unique: bool, immutable: bool, hidden: bool, includesErased: bool)

  /** A message that carries (orm.message). */
  datatype Message = Message(
    fullName: string, name: string, file: string, generate: bool, fields: seq<ProtoField>, indexes: seq<IndexOptions>)

  /** What a nil option answers: nothing said, nothing on. */
  const BARE := FieldOptions(false, false, None, None, None, None, false, false)

  function OptionsOf(pf: ProtoField): FieldOptions {
    match pf.field case None => BARE case Some(fo) => fo
  }

  /** Get of a flag: off where nothing was said. */
  predicate On(flag: Option<bool>) {
    flag == Some(true)
  }

  /** What a proto field parses to; the key's flags are still to be settled. */
  datatype Parsed =
    | ParsedField(field: FieldSpec, keyed: bool, fo: FieldOptions)
    | ParsedEdge(edge: EdgeSpec)
  {
    predicate Keyed() {
      ParsedField? && keyed
    }
  }

  datatype Outcome = Skipped | Bad(kind: Kind) | Good(p: Parsed)

  /** Only a message needs deducing: the one well-known time is TypeTime, and all
      others, maps too, are TypeJSON. */
  function DeduceType(pf: ProtoField): Type {
    if pf.kind != TypeMessage then pf.kind
    else if pf.isMap then TypeJSON
    else if pf.message == "google.protobuf.Timestamp" then TypeTime
    else TypeJSON
  }

  function TypeOf(pf: ProtoField): Option<Type> {
    var declared := OptionsOf(pf).declared;
    if declared.None? then Some(DeduceType(pf))
    else if declared.value == TypeUnspecified then None
    else declared
  }

  predicate FieldIsNullable(pf: ProtoField, t: Type) {
    !pf.repeated && (On(OptionsOf(pf).nullable) || pf.optionalKeyword || (pf.presence && t != TypeTime))
  }

  /** The first rule a version field breaks. */
  function VersionFault(fo: FieldOptions, t: Type): Option<Kind> {
    if !fo.version then None
    else if fo.key then Some(VersionIsKey)
    else if On(fo.unique) || On(fo.nullable) || On(fo.immutable) then Some(VersionFlags)
    else if t != TypeTime then Some(VersionType)
    else None
  }

  /** The first rule an erased field breaks. */
  function ErasedFault(fo: FieldOptions, t: Type): Option<Kind> {
    if !fo.erased then None
    else if fo.key then Some(ErasedIsKey)
    else if On(fo.unique) || On(fo.immutable) then Some(ErasedFlags)
    else if fo.version then Some(ErasedIsVersion)
    else if t != TypeTime then Some(ErasedType)
    else if fo.nullable == Some(false) then Some(ErasedNotNullable)
    else None
  }

  function ParseField(pf: ProtoField): Outcome {
    var fo, t := OptionsOf(pf), TypeOf(pf);
    if t.None? then Bad(UnknownType)
    else if t.value == TypeMessage then Bad(FieldIsMessage)
    else if VersionFault(fo, t.value).Some? then Bad(VersionFault(fo, t.value).value)
    else if ErasedFault(fo, t.value).Some? then Bad(ErasedFault(fo, t.value).value)
    else
      Good(ParsedField(
        FieldSpec(pf.names, pf.number, t.value, pf.repeated, On(fo.unique),
                  FieldIsNullable(pf, t.value) || fo.erased, On(fo.immutable), fo.version, fo.erased),
        fo.key, fo))
  }

  function ParseEdge(pf: ProtoField, eo: EdgeOptions): Outcome {
    if pf.kind != TypeMessage then Bad(EdgeNotMessage)
    else if pf.isMap then Bad(EdgeIsMap)
    else if eo.unique && pf.repeated then Bad(EdgeRepeatedUnique)
    else
      Good(ParsedEdge(EdgeSpec(
        pf.names, pf.number, pf.message,
        if eo.from.Some? then eo.from.value.name else "", if eo.from.Some? then eo.from.value.number else 0,
        pf.repeated, eo.unique, !pf.repeated && (eo.nullable || pf.optionalKeyword), eo.immutable)))
  }

  function ParseProp(pf: ProtoField): Outcome {
    if pf.field.Some? && pf.edge.Some? then Bad(FieldAndEdge)
    else if OptionsOf(pf).disabled || (pf.edge.Some? && pf.edge.value.disabled) then Skipped
    else if pf.edge.Some? then ParseEdge(pf, pf.edge.value)
    else ParseField(pf)
  }

  predicate IndexFault(io: IndexOptions) {
    !io.disabled && (io.name == "" || (io.includesErased && !io.unique))
  }

  function IndexSpecOf(io: IndexOptions): IndexSpec {
    IndexSpec(io.name, io.refs, io.unique, io.immutable, io.hidden, io.includesErased)
  }

  function IndexSpecs(indexes: seq<IndexOptions>): seq<IndexSpec> {
    if indexes == [] then []
    else
      var last := indexes[|indexes| - 1];
      IndexSpecs(indexes[..|indexes| - 1]) + if last.disabled || IndexFault(last) then [] else [IndexSpecOf(last)]
  }

  /** The marks a field is read with hold what the locks built on them need: a
      version is a time nothing else constrains, and an erased stamp is a time
      that can be null unless it is repeated. */
  lemma MarksAreTimes(pf: ProtoField)
    requires ParseProp(pf).Good? && ParseProp(pf).p.ParsedField?
    ensures var p := ParseProp(pf).p; var spec := p.field;
      && (spec.version ==> spec.typ == TypeTime && !spec.unique && !spec.immutable && !p.keyed && !spec.erased)
      && (spec.erased ==> spec.typ == TypeTime && !spec.unique && !spec.immutable && !p.keyed && spec.nullable)
      && spec.typ != TypeMessage
  {
  }

  // ---- the faults, each on its own ----

  /** The field's type is t: the one its annotation names, or where it names none
      the one its kind is stored as. */
  ghost predicate HasType(pf: ProtoField, t: Type) {
    if pf.field.Some? && pf.field.value.declared.Some? then t == pf.field.value.declared.value
    else if pf.kind != TypeMessage then t == pf.kind
    else if pf.message == "google.protobuf.Timestamp" && !pf.isMap then t == TypeTime
    else t == TypeJSON
  }

  /** The rule of that kind is broken, whatever else is. */
  ghost predicate BreaksField(pf: ProtoField, fo: FieldOptions, rule: Kind) {
    match rule
    case UnknownType => fo.declared == Some(TypeUnspecified)
    case FieldIsMessage => fo.declared == Some(TypeMessage)
    case VersionIsKey => fo.version && fo.key
    case VersionFlags => fo.version && Some(true) in {fo.unique, fo.nullable, fo.immutable}
    case VersionType => fo.version && !HasType(pf, TypeTime)
    case ErasedIsKey => fo.erased && fo.key
    case ErasedFlags => fo.erased && Some(true) in {fo.unique, fo.immutable}
    case ErasedIsVersion => fo.erased && fo.version
    case ErasedType => fo.erased && !HasType(pf, TypeTime)
    case ErasedNotNullable => fo.erased && fo.nullable == Some(false)
    case _ => false
  }

  ghost predicate BreaksEdge(pf: ProtoField, eo: EdgeOptions, rule: Kind) {
    match rule
    case EdgeNotMessage => pf.kind != TypeMessage
    case EdgeIsMap => pf.isMap
    case EdgeRepeatedUnique => pf.repeated && eo.unique
    case _ => false
  }

  /** A field that is annotated both ways breaks that rule alone, and one that is
      disabled or not annotated breaks none. */
  ghost predicate Breaks(pf: ProtoField, rule: Kind) {
    match (pf.field, pf.edge)
    case (None, None) => false
    case (Some(fo), None) => !fo.disabled && BreaksField(pf, fo, rule)
    case (None, Some(eo)) => !eo.disabled && BreaksEdge(pf, eo, rule)
    case (Some(_), Some(_)) => rule == FieldAndEdge
  }

  /** The order in which the rules are looked at. */
  const RULES: seq<Kind> :=
    [FieldAndEdge, EdgeNotMessage, EdgeIsMap, EdgeRepeatedUnique, UnknownType, FieldIsMessage, VersionIsKey,
     VersionFlags, VersionType, ErasedIsKey, ErasedFlags, ErasedIsVersion, ErasedType, ErasedNotNullable]

  /** The i-th rule is the first the field breaks. */
  ghost predicate BreaksFirst(pf: ProtoField, i: nat) {
    i < |RULES| && Breaks(pf, RULES[i]) && forall j :: 0 <= j < i ==> !Breaks(pf, RULES[j])
  }

  /** The field, or the edge, is one the schema is to have. */
  ghost predicate WantsField(pf: ProtoField) {
    pf.edge.None? && (pf.field.Some? ==> !pf.field.value.disabled)
  }

  ghost predicate WantsEdge(pf: ProtoField) {
    pf.edge.Some? && !pf.edge.value.disabled && pf.field.None?
  }

  /** Where a rule stands. */
  ghost function Rank(rule: Kind): (i: int)
    ensures if rule in RULES then 0 <= i < |RULES| && RULES[i] == rule else i == |RULES|
  {
    match rule
    case FieldAndEdge => 0
    case EdgeNotMessage => 1
    case EdgeIsMap => 2
    case EdgeRepeatedUnique => 3
    case UnknownType => 4
    case FieldIsMessage => 5
    case VersionIsKey => 6
    case VersionFlags => 7
    case VersionType => 8
    case ErasedIsKey => 9
    case ErasedFlags => 10
    case ErasedIsVersion => 11
    case ErasedType => 12
    case ErasedNotNullable => 13
    case _ => 14
  }

  lemma BadFieldBreaks(pf: ProtoField, fo: FieldOptions, rule: Kind)
    requires pf.field == Some(fo) && pf.edge.None? && !fo.disabled && ParseField(pf).Bad?
    ensures BreaksField(pf, fo, ParseField(pf).kind)
    ensures BreaksField(pf, fo, rule) ==> Rank(ParseField(pf).kind) <= Rank(rule)
  {
    var t := TypeOf(pf);
    assert t.Some? ==> HasType(pf, t.value) && (HasType(pf, TypeTime) <==> t.value == TypeTime);
  }

  lemma BadEdgeBreaks(pf: ProtoField, eo: EdgeOptions, rule: Kind)
    requires ParseEdge(pf, eo).Bad?
    ensures BreaksEdge(pf, eo, ParseEdge(pf, eo).kind)
    ensures BreaksEdge(pf, eo, rule) ==> Rank(ParseEdge(pf, eo).kind) <= Rank(rule)
  {
  }

  /** A refused field breaks the rule it is refused for and none that stands before
      it. */
  lemma BadBreaks(pf: ProtoField, rule: Kind)
    requires ParseProp(pf).Bad?
    ensures Breaks(pf, ParseProp(pf).kind)
    ensures Breaks(pf, rule) ==> Rank(ParseProp(pf).kind) <= Rank(rule)
  {
    match (pf.field, pf.edge)
    case (None, None) =>
    case (Some(fo), None) => BadFieldBreaks(pf, fo, rule);
    case (None, Some(eo)) => BadEdgeBreaks(pf, eo, rule);
    case (Some(_), Some(_)) =>
  }

  lemma ReadBreaksNone(pf: ProtoField, rule: Kind)
    requires !ParseProp(pf).Bad?
    ensures !Breaks(pf, rule)
  {
  }

  lemma RankIsPlace(i: nat)
    requires i < |RULES|
    ensures Rank(RULES[i]) == i
  {
  }

  ghost predicate IsEnabled(io: IndexOptions) {
    !io.disabled
  }

  /** A field is refused exactly for the first rule it breaks. */
  lemma BadIsFirstBroken(pf: ProtoField, rule: Kind)
    ensures ParseProp(pf) == Bad(rule) <==> exists i: nat :: BreaksFirst(pf, i) && RULES[i] == rule
  {
    if ParseProp(pf).Bad? {
      var k := ParseProp(pf).kind;
      BadBreaks(pf, k);
      var at := Rank(k);
      forall i: nat | i < |RULES| && Breaks(pf, RULES[i]) ensures at <= i {
        RankIsPlace(i);
        BadBreaks(pf, RULES[i]);
      }
      assert BreaksFirst(pf, at);
    } else {
      forall i: nat | i < |RULES| ensures !Breaks(pf, RULES[i]) {
        ReadBreaksNone(pf, RULES[i]);
      }
    }
  }

  /** One that breaks none is a field, an edge, or disabled. */
  lemma ReadIsGiven(pf: ProtoField)
    requires !ParseProp(pf).Bad?
    ensures WantsField(pf) <==> ParseProp(pf).Good? && ParseProp(pf).p.ParsedField?
    ensures WantsEdge(pf) <==> ParseProp(pf).Good? && ParseProp(pf).p.ParsedEdge?
  {
  }

  // ---- what is read ----

  ghost predicate MarkedKey(pf: ProtoField) {
    pf.field.Some? && pf.field.value.key
  }

  ghost predicate MarkedErased(pf: ProtoField) {
    pf.field.Some? && pf.field.value.erased
  }

  /** A field can be null, unless it is the key. */
  ghost predicate SaysNull(pf: ProtoField, t: Type) {
    || MarkedErased(pf)
    || (!pf.repeated && (pf.optionalKeyword || (pf.presence && t != TypeTime)
                         || (pf.field.Some? && pf.field.value.nullable == Some(true))))
  }

  /** The declaration is what the field and its annotation say. A key is unique,
      immutable and never null, whatever else is said. */
  ghost predicate FieldSays(pf: ProtoField, spec: FieldSpec) {
    && spec.names == pf.names && spec.number == pf.number && spec.list == pf.repeated && HasType(pf, spec.typ)
    && (spec.unique <==> MarkedKey(pf) || (pf.field.Some? && pf.field.value.unique == Some(true)))
    && (spec.immutable <==> MarkedKey(pf) || (pf.field.Some? && pf.field.value.immutable == Some(true)))
    && (spec.nullable <==> !MarkedKey(pf) && SaysNull(pf, spec.typ))
    && (spec.version <==> pf.field.Some? && pf.field.value.version)
    && (spec.erased <==> MarkedErased(pf))
  }

  ghost predicate EdgeSays(pf: ProtoField, spec: EdgeSpec)
    requires pf.edge.Some?
  {
    var eo := pf.edge.value;
    && spec.names == pf.names && spec.number == pf.number && spec.targetName == pf.message && spec.list == pf.repeated
    && (spec.unique <==> eo.unique)
    && (spec.immutable <==> eo.immutable)
    && (spec.nullable <==> !pf.repeated && (eo.nullable || pf.optionalKeyword))
    && match eo.from
       case None => spec.fromName == "" && spec.fromNumber == 0
       case Some(ref) => spec.fromName == ref.name && spec.fromNumber == ref.number
  }

  ghost predicate IndexSays(io: IndexOptions, spec: IndexSpec) {
    && spec.name == io.name && spec.refs == io.refs
    && (spec.unique <==> io.unique)
    && (spec.immutable <==> io.immutable)
    && (spec.hidden <==> io.hidden)
    && (spec.includesErased <==> io.includesErased)
  }

  /** A field or an edge that is read is read as it says. */
  lemma GoodSays(pf: ProtoField)
    requires ParseProp(pf).Good?
    ensures match ParseProp(pf).p
            case ParsedField(spec, keyed, fo) =>
              keyed == MarkedKey(pf) && (pf.field.Some? ==> fo == pf.field.value)
              && FieldSays(pf, if keyed then spec.(unique := true, immutable := true, nullable := false) else spec)
            case ParsedEdge(spec) => pf.edge.Some? && EdgeSays(pf, spec)
  {
  }
}
