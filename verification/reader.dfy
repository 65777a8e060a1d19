/** Reading annotations into fresh entities (ormcompat/prop.go,
    ormcompat/entity.go). An annotation is a record with presence bits; what a
    descriptor library answers about a proto field is a record too. */
module Reader {
  import opened Wrappers
  import opened Sorting
  import opened Text
  import opened Diag
  import opened Model
  import opened Builder
  import opened Links
  import opened Accepted
  import opened Lower
  import opened Annotations

  // ---- the key ----

  /** What the annotation said does not contradict being the key. */
  predicate MayBeKey(p: Parsed) {
    p.ParsedField? && p.fo.unique != Some(false) && p.fo.nullable != Some(true) && p.fo.immutable != Some(false)
  }

  function KeyFault(p: Parsed): Kind
    requires p.Keyed()
  {
    if p.fo.unique == Some(false) then KeyNotUnique
    else if p.fo.nullable == Some(true) then KeyNullable
    else KeyMutable
  }

  /** The three flags the chosen prop gets. */
  function AsKey(p: Parsed): Parsed
    requires p.Keyed()
  {
    p.(field := p.field.(unique := true, immutable := true, nullable := false))
  }

  /** Marked key, and nothing it says contradicts that. */
  predicate Chosen(p: Parsed) {
    p.Keyed() && MayBeKey(p)
  }

  ghost predicate ChosenAmong(props: seq<Parsed>) {
    exists j :: 0 <= j < |props| && Chosen(props[j])
  }

  ghost predicate OnlyKey(props: seq<Parsed>, k: nat) {
    && k < |props| && Chosen(props[k])
    && forall i :: 0 <= i < |props| && props[i].Keyed() ==> i == k
  }

  /** The first that may be the key. */
  ghost predicate FirstChosen(props: seq<Parsed>, k: nat) {
    k < |props| && Chosen(props[k]) && forall j :: 0 <= j < k ==> !Chosen(props[j])
  }

  /** A prop marked key is refused for coming second, or for what it says of
      itself. */
  ghost function KeyDiag(prefix: string, props: seq<Parsed>): nat -> seq<Diagnostic> {
    (i: nat) =>
      if i >= |props| || !props[i].Keyed() then []
      else if ChosenAmong(props[..i]) then [Diagnostic(JoinPath(prefix, ""), TwoKeys)]
      else if !MayBeKey(props[i]) then [Diagnostic(JoinPath(prefix, props[i].field.names.proto), KeyFault(props[i]))]
      else []
  }

  ghost function NoKeyDiag(prefix: string, props: seq<Parsed>): seq<Diagnostic> {
    if ChosenAmong(props) then [] else [Diagnostic(JoinPath(prefix, ""), NoKey)]
  }

  ghost function KeyDiags(prefix: string, props: seq<Parsed>): seq<Diagnostic> {
    Gather(|props|, KeyDiag(prefix, props)) + NoKeyDiag(prefix, props)
  }

  lemma SecondIsSaid(prefix: string, props: seq<Parsed>, i: nat, k: nat)
    requires i < k < |props| && Chosen(props[i]) && props[k].Keyed()
    ensures KeyDiag(prefix, props)(k) != []
  {
    assert props[..k][i] == props[i];
  }

  lemma OnlyKeyIsQuiet(prefix: string, props: seq<Parsed>, k: nat)
    requires OnlyKey(props, k)
    ensures KeyDiags(prefix, props) == []
  {
    forall i: nat | i < |props| ensures KeyDiag(prefix, props)(i) == [] {
      assert forall j :: 0 <= j < i ==> props[..i][j] == props[j];
    }
    GatherEmpty(|props|, KeyDiag(prefix, props));
  }

  /** Nothing is said of the key exactly when one prop is marked so and nothing it
      says contradicts that. */
  lemma KeyDiagsIffNotOne(prefix: string, props: seq<Parsed>)
    ensures KeyDiags(prefix, props) == [] <==> exists k :: OnlyKey(props, k)
  {
    if k :| OnlyKey(props, k) {
      OnlyKeyIsQuiet(prefix, props, k);
    }
    if KeyDiags(prefix, props) == [] {
      GatherEmpty(|props|, KeyDiag(prefix, props));
      var k :| 0 <= k < |props| && Chosen(props[k]);
      forall i: nat | i < |props| && props[i].Keyed() ensures i == k {
        assert KeyDiag(prefix, props)(i) == [] && KeyDiag(prefix, props)(k) == [];
        if k < i {
          SecondIsSaid(prefix, props, k, i);
        } else if i < k {
          SecondIsSaid(prefix, props, i, k);
        }
      }
      assert OnlyKey(props, k);
    }
  }

  lemma ChosenOneMore(props: seq<Parsed>, i: nat)
    requires i < |props|
    ensures ChosenAmong(props[..i + 1]) <==> ChosenAmong(props[..i]) || Chosen(props[i])
  {
    assert forall j :: 0 <= j < i ==> props[..i + 1][j] == props[..i][j];
    if Chosen(props[i]) {
      assert props[..i + 1][i] == props[i];
    }
    if ChosenAmong(props[..i]) {
      var j :| 0 <= j < i && Chosen(props[..i][j]);
      assert Chosen(props[..i + 1][j]);
    }
  }

  /** What has been looked at so far holds no key, or its first is k. */
  ghost predicate KeySoFar(props: seq<Parsed>, i: nat, key: Option<nat>)
    requires i <= |props|
  {
    match key
    case Some(k) => k < i && FirstChosen(props, k) && ChosenAmong(props[..i])
    case None => !ChosenAmong(props[..i])
  }

  lemma KeyOneMore(props: seq<Parsed>, i: nat, key: Option<nat>)
    requires i < |props| && KeySoFar(props, i, key)
    ensures KeySoFar(props, i + 1, if key.None? && Chosen(props[i]) then Some(i) else key)
  {
    ChosenOneMore(props, i);
    if key.None? {
      assert forall j :: 0 <= j < i ==> props[..i][j] == props[j];
    }
  }

  /** One prop of resolveKey: refused, chosen or neither. */
  method TryKey(props: seq<Parsed>, i: nat, key: Option<nat>, at: Diagnostics) returns (next: Option<nat>)
    requires i < |props| && KeySoFar(props, i, key) && at.store != null
    modifies at`store, at.store
    ensures at.store == old(at.store) && at.store.found == old(at.store.found) + KeyDiag(at.prefix, props)(i)
    ensures next == (if key.None? && Chosen(props[i]) then Some(i) else key) && KeySoFar(props, i + 1, next)
  {
    KeyOneMore(props, i, key);
    next := key;
    var p := props[i];
    if !p.Keyed() {
      return;
    }
    if key.Some? {
      at.Add("", TwoKeys);
    } else if !MayBeKey(p) {
      at.Add(p.field.names.proto, KeyFault(p));
    } else {
      next := Some(i);
    }
  }

  /** The first that may be the key is made one, if there is one. */
  ghost predicate KeyOf(props: seq<Parsed>, keyed: seq<Parsed>, key: Option<nat>) {
    match key
    case Some(k) => FirstChosen(props, k) && keyed == props[k := AsKey(props[k])]
    case None => !ChosenAmong(props) && keyed == props
  }

  /** resolveKey: the first prop that may be the key, with what a key is derived for
      it. Every other one marked key is reported, and so is there being none. */
  method ResolveKey(props: seq<Parsed>, at: Diagnostics) returns (out: seq<Parsed>, key: Option<nat>)
    requires at.store != null
    modifies at`store, at.store
    ensures at.store == old(at.store) && at.store.found == old(at.store.found) + KeyDiags(at.prefix, props)
    ensures KeyOf(props, out, key)
  {
    ghost var found, before := KeyDiag(at.prefix, props), at.store.found;
    out, key := props, None;
    for i := 0 to |props|
      invariant at.store == old(at.store) && KeySoFar(props, i, key)
      invariant at.store.found == before + Gather(i, found)
      invariant out == if key.Some? then props[key.value := AsKey(props[key.value])] else props
    {
      GatherOneMore(before, i, found);
      var next := TryKey(props, i, key, at);
      if next != key {
        out := props[i := AsKey(props[i])];
      }
      key := next;
    }
    assert props[..|props|] == props;
    Assoc(before, Gather(|props|, found), NoKeyDiag(at.prefix, props));
    if key.None? {
      at.Add("", NoKey);
    }
  }

  // ---- one entity ----

  /** The props that are read, in field order, and what reading each recorded. */
  function ParsedProps(fields: seq<ProtoField>): seq<Parsed> {
    if fields == [] then []
    else
      var r := ParseProp(fields[|fields| - 1]);
      ParsedProps(fields[..|fields| - 1]) + if r.Good? then [r.p] else []
  }

  ghost predicate FieldsRead(fields: seq<ProtoField>) {
    forall i :: 0 <= i < |fields| ==> !ParseProp(fields[i]).Bad?
  }

  function FieldDiag(prefix: string, fields: seq<ProtoField>): nat -> seq<Diagnostic> {
    (i: nat) =>
      if i < |fields| && ParseProp(fields[i]).Bad? then
        [Diagnostic(JoinPath(prefix, fields[i].names.proto), ParseProp(fields[i]).kind)]
      else []
  }

  lemma FieldDiagsIffUnread(prefix: string, fields: seq<ProtoField>)
    ensures Gather(|fields|, FieldDiag(prefix, fields)) == [] <==> FieldsRead(fields)
  {
    GatherEmpty(|fields|, FieldDiag(prefix, fields));
    assert forall i: nat | i < |fields| :: FieldDiag(prefix, fields)(i) == [] <==> !ParseProp(fields[i]).Bad?;
  }

  method ParseProps(fields: seq<ProtoField>, at: Diagnostics) returns (props: seq<Parsed>)
    requires at.store != null
    modifies at`store, at.store
    ensures at.store == old(at.store)
    ensures at.store.found == old(at.store.found) + Gather(|fields|, FieldDiag(at.prefix, fields))
    ensures props == ParsedProps(fields)
  {
    props := [];
    ghost var found, before := FieldDiag(at.prefix, fields), at.store.found;
    for i := 0 to |fields|
      invariant at.store == old(at.store)
      invariant at.store.found == before + Gather(i, found)
      invariant props == ParsedProps(fields[..i])
    {
      GatherOneMore(before, i, found);
      assert fields[..i + 1][..i] == fields[..i];
      match ParseProp(fields[i])
      case Skipped =>
      case Bad(kind) =>
        var here := at.At(fields[i].names.proto);
        here.Add("", kind);
        JoinPathAssociates(at.prefix, fields[i].names.proto, "");
      case Good(p) =>
        props := props + [p];
    }
    assert fields[..|fields|] == fields;
  }

  ghost predicate IndexSpecsAre(indexes: seq<Index>, specs: seq<IndexSpec>) {
    |indexes| == |specs| && forall i :: 0 <= i < |indexes| ==> indexes[i].spec == specs[i]
  }

  ghost predicate IndexesRead(indexes: seq<IndexOptions>) {
    forall i :: 0 <= i < |indexes| ==> !IndexFault(indexes[i])
  }

  function OptionPath(i: nat, io: IndexOptions): string {
    "{indexes}[" + Decimal(i) + "](" + io.name + ")"
  }

  function OptionDiag(prefix: string, indexes: seq<IndexOptions>): nat -> seq<Diagnostic> {
    (i: nat) =>
      if i < |indexes| && IndexFault(indexes[i]) then
        [Diagnostic(JoinPath(prefix, OptionPath(i, indexes[i])),
                    if indexes[i].name == "" then UnnamedIndex else IncludesErasedNotUnique)]
      else []
  }

  lemma OptionDiagsIffUnread(prefix: string, indexes: seq<IndexOptions>)
    ensures Gather(|indexes|, OptionDiag(prefix, indexes)) == [] <==> IndexesRead(indexes)
  {
    GatherEmpty(|indexes|, OptionDiag(prefix, indexes));
    assert forall i: nat | i < |indexes| :: OptionDiag(prefix, indexes)(i) == [] <==> !IndexFault(indexes[i]);
  }

  /** One option: an index, a diagnostic, or nothing. */
  method ParseIndex(indexes: seq<IndexOptions>, i: nat, at: Diagnostics, ghost found: nat -> seq<Diagnostic>)
    returns (idx: Option<Index>)
    requires i < |indexes| && at.store != null && Reports(found, OptionDiag(at.prefix, indexes))
    modifies at`store, at.store
    ensures at.store == old(at.store) && at.store.found == old(at.store.found) + found(i)
    ensures idx.None? <==> indexes[i].disabled || IndexFault(indexes[i])
    ensures idx.Some? ==> fresh(idx.value) && idx.value.spec == IndexSpecOf(indexes[i])
  {
    assert found(i) == Recorded(OptionDiag(at.prefix, indexes), i);
    var io := indexes[i];
    if io.disabled {
      return None;
    }
    if io.name == "" {
      at.Add(OptionPath(i, io), UnnamedIndex);
      return None;
    }
    if io.includesErased && !io.unique {
      at.Add(OptionPath(i, io), IncludesErasedNotUnique);
      return None;
    }
    var made := new Index(IndexSpecOf(io));
    return Some(made);
  }

  lemma SpecsOneMore(indexes: seq<IndexOptions>, i: nat)
    requires i < |indexes|
    ensures IndexSpecs(indexes[..i + 1]) ==
      IndexSpecs(indexes[..i]) + if indexes[i].disabled || IndexFault(indexes[i]) then [] else [IndexSpecOf(indexes[i])]
  {
    assert indexes[..i + 1][..i] == indexes[..i];
  }

  method ParseEach(indexes: seq<IndexOptions>, at: Diagnostics, ghost found: nat -> seq<Diagnostic>)
    returns (out: seq<Index>)
    requires at.store != null && Reports(found, OptionDiag(at.prefix, indexes))
    modifies at`store, at.store
    ensures at.store == old(at.store)
    ensures at.store.found == old(at.store.found) + Gather(|indexes|, found)
    ensures forall idx | idx in out :: fresh(idx)
    ensures IndexSpecsAre(out, IndexSpecs(indexes))
  {
    out := [];
    ghost var before := at.store.found;
    for i := 0 to |indexes|
      invariant at.store == old(at.store)
      invariant at.store.found == before + Gather(i, found)
      invariant forall idx | idx in out :: fresh(idx)
      invariant IndexSpecsAre(out, IndexSpecs(indexes[..i]))
    {
      GatherOneMore(before, i, found);
      SpecsOneMore(indexes, i);
      var idx := ParseIndex(indexes, i, at, found);
      if idx.Some? {
        out := out + [idx.value];
      }
    }
    assert indexes[..|indexes|] == indexes;
  }

  method ParseIndexes(indexes: seq<IndexOptions>, at: Diagnostics) returns (out: seq<Index>)
    requires at.store != null
    modifies at`store, at.store
    ensures at.store == old(at.store)
    ensures at.store.found == old(at.store.found) + Gather(|indexes|, OptionDiag(at.prefix, indexes))
    ensures forall idx | idx in out :: fresh(idx)
    ensures IndexSpecsAre(out, IndexSpecs(indexes))
  {
    out := ParseEach(indexes, at, OptionDiag(at.prefix, indexes));
  }

  /** The fields an entity is built with are the parsed ones in order, the edges
      likewise. */
  function FieldSpecs(props: seq<Parsed>): seq<FieldSpec> {
    if props == [] then []
    else
      var last := props[|props| - 1];
      FieldSpecs(props[..|props| - 1]) + if last.ParsedField? then [last.field] else []
  }

  function EdgeSpecs(props: seq<Parsed>): seq<EdgeSpec> {
    if props == [] then []
    else
      var last := props[|props| - 1];
      EdgeSpecs(props[..|props| - 1]) + if last.ParsedEdge? then [last.edge] else []
  }

  ghost predicate SpecsAre(fields: seq<Field>, specs: seq<FieldSpec>) {
    |fields| == |specs| && forall i :: 0 <= i < |fields| ==> fields[i].spec == specs[i]
  }

  ghost predicate EdgeSpecsAre(edges: seq<Edge>, specs: seq<EdgeSpec>) {
    |edges| == |specs| && forall i :: 0 <= i < |edges| ==> edges[i].spec == specs[i]
  }

  method BuildMembers(
    props: seq<Parsed>, key: Option<nat>) returns (fields: seq<Field>, edges: seq<Edge>, keyed: Field?)
    requires key.Some? ==> key.value < |props| && props[key.value].ParsedField?
    ensures forall f | f in fields :: fresh(f)
    ensures forall ed | ed in edges :: fresh(ed) && ed.Fresh()
    ensures SpecsAre(fields, FieldSpecs(props)) && EdgeSpecsAre(edges, EdgeSpecs(props))
    ensures key.None? ==> keyed == null
    ensures key.Some? ==> var c := |FieldSpecs(props[..key.value])|; c < |fields| && keyed == fields[c]
  {
    fields, edges, keyed := [], [], null;
    for i := 0 to |props|
      invariant forall f | f in fields :: fresh(f)
      invariant forall ed | ed in edges :: fresh(ed) && ed.Fresh()
      invariant SpecsAre(fields, FieldSpecs(props[..i])) && EdgeSpecsAre(edges, EdgeSpecs(props[..i]))
      invariant keyed == null <==> key.None? || key.value >= i
      invariant keyed != null ==> var c := |FieldSpecs(props[..key.value])|; c < |fields| && keyed == fields[c]
    {
      assert props[..i + 1][..i] == props[..i];
      match props[i]
      case ParsedEdge(spec) =>
        var ed := new Edge(spec);
        edges := edges + [ed];
      case ParsedField(spec, _, _) =>
        var f := new Field(spec);
        fields := fields + [f];
        if key == Some(i) {
          keyed := f;
        }
    }
    assert props[..|props|] == props;
  }

  /** Everything in a message's annotations reads, and one field is its key. */
  ghost predicate MessageReads(md: Message) {
    && FieldsRead(md.fields)
    && IndexesRead(md.indexes)
    && exists k :: OnlyKey(ParsedProps(md.fields), k)
  }

  ghost function PropDiags(md: Message): seq<Diagnostic> {
    Gather(|md.fields|, FieldDiag(md.fullName, md.fields)) + KeyDiags(md.fullName, ParsedProps(md.fields))
  }

  /** What is recorded of one message: its fields, then its key, then its
      indexes. */
  ghost function MessageDiags(md: Message): seq<Diagnostic> {
    PropDiags(md) + Gather(|md.indexes|, OptionDiag(md.fullName, md.indexes))
  }

  lemma MessageDiagsIffUnread(md: Message)
    ensures MessageDiags(md) == [] <==> MessageReads(md)
  {
    FieldDiagsIffUnread(md.fullName, md.fields);
    KeyDiagsIffNotOne(md.fullName, ParsedProps(md.fields));
    OptionDiagsIffUnread(md.fullName, md.indexes);
  }

  ghost predicate KeyIsAt(e: Entity, c: nat)
    reads e`key
  {
    c < |e.spec.fields| && e.key == e.spec.fields[c]
  }

  /** The entity stands for the message: its members are the parsed ones, in
      order, and its key is the one field marked so, with what a key is derived
      for it. */
  ghost predicate StandsFor(e: Entity, md: Message)
    reads e`key
  {
    && e.spec.fullName == md.fullName && e.spec.name == md.name
    && e.spec.file == md.file && e.spec.generate == md.generate
    && IndexSpecsAre(e.spec.indexes, IndexSpecs(md.indexes))
    && e.key != null && e.key in e.spec.fields
    && var props := ParsedProps(md.fields);
       exists k: nat :: OnlyKey(props, k)
         && KeyIsAt(e, |FieldSpecs(props[..k])|)
         && SpecsAre(e.spec.fields, FieldSpecs(props[k := AsKey(props[k])]))
         && EdgeSpecsAre(e.spec.edges, EdgeSpecs(props))
  }

  /** The members of the entity are what the message and its annotations say: one
      for each field it is to have, one for each edge and one for each index that
      is not disabled, in their order. */
  ghost predicate MembersSaid(e: EntitySpec, md: Message, f: seq<nat>, ed: seq<nat>, idx: seq<nat>) {
    && PlacesOf(f, md.fields, WantsField)
    && PlacesOf(ed, md.fields, WantsEdge)
    && PlacesOf(idx, md.indexes, IsEnabled)
    && |e.fields| == |f| && |e.edges| == |ed| && |e.indexes| == |idx|
    && (forall i :: 0 <= i < |f| ==> FieldSays(md.fields[f[i]], e.fields[i].spec))
    && (forall i :: 0 <= i < |ed| ==> EdgeSays(md.fields[ed[i]], e.edges[i].spec))
    && (forall i :: 0 <= i < |idx| ==> IndexSays(md.indexes[idx[i]], e.indexes[i].spec))
  }

  /** The entity is what the message says, and its key is the one field that is
      marked so. */
  ghost predicate Said(e: Entity, md: Message)
    reads e`key
  {
    && e.spec.fullName == md.fullName && e.spec.name == md.name
    && e.spec.file == md.file && (e.spec.generate <==> md.generate)
    && exists f: seq<nat>, ed: seq<nat>, idx: seq<nat>, c: nat ::
         MembersSaid(e.spec, md, f, ed, idx) && KeyIsAt(e, c) && KeyIsMarked(md, f, c)
  }

  ghost predicate KeyIsMarked(md: Message, f: seq<nat>, c: nat)
    requires PlacesOf(f, md.fields, WantsField)
  {
    forall i :: 0 <= i < |f| ==> (MarkedKey(md.fields[f[i]]) <==> i == c)
  }

  /** The key of an entity the reader made is unique, immutable and never null. */
  lemma KeyIsAKey(e: Entity, md: Message)
    requires Said(e, md)
    ensures e.key != null && e.key.spec.unique && e.key.spec.immutable && !e.key.spec.nullable
  {
  }

  lemma {:induction false} KeyLeavesEdges(props: seq<Parsed>, k: nat)
    requires k < |props| && props[k].Keyed()
    ensures EdgeSpecs(props[k := AsKey(props[k])]) == EdgeSpecs(props)
  {
    var out, n := props[k := AsKey(props[k])], |props| - 1;
    if k < n {
      assert out[..n] == props[..n][k := AsKey(props[..n][k])];
      KeyLeavesEdges(props[..n], k);
    } else {
      assert out[..n] == props[..n];
    }
  }

  /** The parsed props that are fields. */
  ghost function FieldProps(props: seq<Parsed>): seq<Parsed> {
    if props == [] then []
    else
      var last := props[|props| - 1];
      FieldProps(props[..|props| - 1]) + if last.ParsedField? then [last] else []
  }

  lemma {:induction false} SpecsOfFieldProps(props: seq<Parsed>)
    ensures |FieldSpecs(props)| == |FieldProps(props)|
    ensures forall i :: 0 <= i < |FieldProps(props)| ==>
      FieldProps(props)[i].ParsedField? && FieldProps(props)[i].field == FieldSpecs(props)[i]
      && FieldProps(props)[i] in props
  {
    if props != [] {
      SpecsOfFieldProps(props[..|props| - 1]);
    }
  }

  /** Deriving the key changes one of the fields, and no other is marked so. */
  lemma {:induction false} KeyIsOneField(props: seq<Parsed>, k: nat, c: nat)
    requires OnlyKey(props, k) && c == |FieldSpecs(props[..k])|
    ensures OnlyKey(FieldProps(props), c) && FieldProps(props)[c] == props[k] && c < |FieldSpecs(props)|
    ensures FieldSpecs(props[k := AsKey(props[k])]) == FieldSpecs(props)[c := AsKey(props[k]).field]
  {
    var out, n := props[k := AsKey(props[k])], |props| - 1;
    var init := props[..n];
    SpecsOfFieldProps(init);
    SpecsOfFieldProps(props);
    if k < n {
      assert init[..k] == props[..k] && out[..n] == init[k := AsKey(init[k])];
      KeyIsOneField(init, k, c);
    } else {
      assert out[..n] == init;
    }
  }

  lemma MembersOfMore(props: seq<Parsed>, p: Parsed)
    ensures FieldProps(props + [p]) == FieldProps(props) + if p.ParsedField? then [p] else []
    ensures EdgeSpecs(props + [p]) == EdgeSpecs(props) + if p.ParsedEdge? then [p.edge] else []
  {
    assert (props + [p])[..|props|] == props;
  }

  ghost predicate ReadAs(pf: ProtoField, p: Parsed) {
    ParseProp(pf) == Good(p)
  }

  ghost predicate EdgeReadAs(pf: ProtoField, spec: EdgeSpec) {
    ReadAs(pf, ParsedEdge(spec))
  }

  /** One more field that reads is one more prop, or nothing. */
  lemma PropsGrow(fields: seq<ProtoField>) returns (p: Option<Parsed>)
    requires fields != [] && FieldsRead(fields)
    ensures var pf, init := fields[|fields| - 1], fields[..|fields| - 1];
      && FieldsRead(init)
      && (WantsField(pf) <==> p.Some? && p.value.ParsedField?)
      && (WantsEdge(pf) <==> p.Some? && p.value.ParsedEdge?)
      && (p.Some? ==> ReadAs(pf, p.value))
      && ParsedProps(fields) == (if p.Some? then ParsedProps(init) + [p.value] else ParsedProps(init))
  {
    var r := ParseProp(fields[|fields| - 1]);
    p := if r.Good? then Some(r.p) else None;
    var before := ParsedProps(fields[..|fields| - 1]);
    assert before + [] == before;
    ReadIsGiven(fields[|fields| - 1]);
  }

  /** Where the fields of a message that reads are, and what each is read as. */
  lemma {:induction false} FieldPlaces(fields: seq<ProtoField>) returns (f: seq<nat>)
    requires FieldsRead(fields)
    ensures Picked(f, fields, WantsField, FieldProps(ParsedProps(fields)), ReadAs)
  {
    f := [];
    if fields != [] {
      var p := PropsGrow(fields);
      var init, before := fields[..|fields| - 1], ParsedProps(fields[..|fields| - 1]);
      f := FieldPlaces(init);
      if p.Some? && p.value.ParsedField? {
        MembersOfMore(before, p.value);
        PickOneMore(f, fields, WantsField, FieldProps(before), ReadAs, p.value);
        f := f + [|fields| - 1];
      } else {
        if p.Some? {
          MembersOfMore(before, p.value);
        }
        PickNoMore(f, fields, WantsField, FieldProps(before), ReadAs);
      }
    }
  }

  lemma {:induction false} EdgePlaces(fields: seq<ProtoField>) returns (ed: seq<nat>)
    requires FieldsRead(fields)
    ensures Picked(ed, fields, WantsEdge, EdgeSpecs(ParsedProps(fields)), EdgeReadAs)
  {
    ed := [];
    if fields != [] {
      var p := PropsGrow(fields);
      var init, before := fields[..|fields| - 1], ParsedProps(fields[..|fields| - 1]);
      ed := EdgePlaces(init);
      if p.Some? && p.value.ParsedEdge? {
        MembersOfMore(before, p.value);
        PickOneMore(ed, fields, WantsEdge, EdgeSpecs(before), EdgeReadAs, p.value.edge);
        ed := ed + [|fields| - 1];
      } else {
        if p.Some? {
          MembersOfMore(before, p.value);
        }
        PickNoMore(ed, fields, WantsEdge, EdgeSpecs(before), EdgeReadAs);
      }
    }
  }

  lemma {:induction false} IndexPlaces(indexes: seq<IndexOptions>) returns (idx: seq<nat>)
    requires IndexesRead(indexes)
    ensures Picked(idx, indexes, IsEnabled, IndexSpecs(indexes), IndexSays)
  {
    idx := [];
    if indexes != [] {
      var n := |indexes| - 1;
      var init := IndexPlaces(indexes[..n]);
      if IsEnabled(indexes[n]) {
        PickOneMore(init, indexes, IsEnabled, IndexSpecs(indexes[..n]), IndexSays, IndexSpecOf(indexes[n]));
        idx := init + [n];
      } else {
        PickNoMore(init, indexes, IsEnabled, IndexSpecs(indexes[..n]), IndexSays);
        idx := init;
      }
    }
  }

  /** Reading one field, with what a key is derived, is what the field says. */
  lemma FieldIsSaid(pf: ProtoField, p: Parsed, spec: FieldSpec)
    requires ReadAs(pf, p) && p.ParsedField? && spec == if p.keyed then AsKey(p).field else p.field
    ensures FieldSays(pf, spec) && p.keyed == MarkedKey(pf)
  {
    GoodSays(pf);
  }

  lemma EdgeIsSaid(pf: ProtoField, spec: EdgeSpec)
    requires EdgeReadAs(pf, spec)
    ensures pf.edge.Some? && EdgeSays(pf, spec)
  {
    GoodSays(pf);
  }

  lemma FieldsAreSaid(e: EntitySpec, md: Message, f: seq<nat>, props: seq<Parsed>, k: nat, c: nat)
    requires Picked(f, md.fields, WantsField, FieldProps(props), ReadAs)
    requires OnlyKey(props, k) && c == |FieldSpecs(props[..k])|
    requires SpecsAre(e.fields, FieldSpecs(props[k := AsKey(props[k])]))
    ensures |e.fields| == |f| && forall i :: 0 <= i < |f| ==> FieldSays(md.fields[f[i]], e.fields[i].spec)
    ensures KeyIsMarked(md, f, c)
  {
    var ps := FieldProps(props);
    KeyIsOneField(props, k, c);
    SpecsOfFieldProps(props);
    forall i | 0 <= i < |f|
      ensures FieldSays(md.fields[f[i]], e.fields[i].spec) && (MarkedKey(md.fields[f[i]]) <==> i == c)
    {
      assert ReadAs(md.fields[f[i]], ps[i]);
      FieldIsSaid(md.fields[f[i]], ps[i], e.fields[i].spec);
    }
  }

  lemma StandingIsSaid(e: Entity, md: Message)
    requires StandsFor(e, md) && MessageReads(md)
    ensures Said(e, md)
  {
    var props := ParsedProps(md.fields);
    var k: nat :| OnlyKey(props, k) && KeyIsAt(e, |FieldSpecs(props[..k])|)
      && SpecsAre(e.spec.fields, FieldSpecs(props[k := AsKey(props[k])]))
      && EdgeSpecsAre(e.spec.edges, EdgeSpecs(props));
    var c := |FieldSpecs(props[..k])|;
    var f := FieldPlaces(md.fields);
    var ed := EdgePlaces(md.fields);
    var idx := IndexPlaces(md.indexes);
    FieldsAreSaid(e.spec, md, f, props, k, c);
    forall i | 0 <= i < |ed| ensures EdgeSays(md.fields[ed[i]], e.spec.edges[i].spec) {
      assert EdgeReadAs(md.fields[ed[i]], EdgeSpecs(props)[i]);
      EdgeIsSaid(md.fields[ed[i]], EdgeSpecs(props)[i]);
    }
    forall i | 0 <= i < |idx| ensures IndexSays(md.indexes[idx[i]], e.spec.indexes[i].spec) {
      assert IndexSays(md.indexes[idx[i]], IndexSpecs(md.indexes)[i]);
    }
    assert MembersSaid(e.spec, md, f, ed, idx);
  }

  /** The one prop marked key is the first that may be it. */
  lemma OnlyIsFirst(props: seq<Parsed>, key: Option<nat>)
    requires exists k :: OnlyKey(props, k)
    requires if key.Some? then FirstChosen(props, key.value) else !ChosenAmong(props)
    ensures key.Some? && OnlyKey(props, key.value)
  {
  }

  method ReadProps(md: Message, at: Diagnostics) returns (keyed: seq<Parsed>, key: Option<nat>)
    requires at.store != null && at.prefix == md.fullName
    modifies at`store, at.store
    ensures at.store == old(at.store) && at.store.found == old(at.store.found) + PropDiags(md)
    ensures KeyOf(ParsedProps(md.fields), keyed, key)
  {
    ghost var before := at.store.found;
    var props := ParseProps(md.fields, at);
    keyed, key := ResolveKey(props, at);
    Assoc(before, Gather(|md.fields|, FieldDiag(md.fullName, md.fields)), KeyDiags(md.fullName, props));
  }

  /** The entity of the parsed props, its indexes read as it is made. */
  method MakeEntity(md: Message, keyed: seq<Parsed>, key: Option<nat>, at: Diagnostics) returns (e: Entity)
    requires at.store != null && at.prefix == md.fullName && KeyOf(ParsedProps(md.fields), keyed, key)
    modifies at`store, at.store
    ensures at.store == old(at.store)
    ensures at.store.found == old(at.store.found) + Gather(|md.indexes|, OptionDiag(md.fullName, md.indexes))
    ensures MessageReads(md) ==> StandsFor(e, md)
    ensures AllNew(e) && Unwired(e)
  {
    var fields, edges, keyField := BuildMembers(keyed, key);
    var indexes := ParseIndexes(md.indexes, at);
    e := new Entity(EntitySpec(md.fullName, md.name, md.file, md.generate, fields, edges, indexes));
    if keyField != null {
      e.SetKey(keyField);
    }
    if MessageReads(md) {
      OnlyIsFirst(ParsedProps(md.fields), key);
      KeyLeavesEdges(ParsedProps(md.fields), key.value);
    }
  }

  method ParseEntity(md: Message, diags: Diagnostics) returns (e: Entity)
    requires diags.store != null && diags.prefix == ""
    modifies diags`store, diags.store
    ensures diags.store == old(diags.store) && diags.store.found == old(diags.store.found) + MessageDiags(md)
    ensures MessageReads(md) ==> StandsFor(e, md)
    ensures AllNew(e) && Unwired(e)
  {
    ghost var before := diags.store.found;
    var at := diags.At(md.fullName);
    var keyed, key := ReadProps(md, at);
    e := MakeEntity(md, keyed, key, at);
    Assoc(before, PropDiags(md), Gather(|md.indexes|, OptionDiag(md.fullName, md.indexes)));
  }

  // ---- the whole schema ----

  /** An entity and its members, all made since. */
  twostate predicate AllNew(new e: Entity) {
    && fresh(e)
    && (forall f | f in e.spec.fields :: fresh(f))
    && (forall ed | ed in e.spec.edges :: fresh(ed))
    && (forall idx | idx in e.spec.indexes :: fresh(idx))
  }

  twostate lemma NewIsApart(had: seq<Entity>, new e: Entity)
    requires AllNew(e)
    ensures forall j :: 0 <= j < |had| ==> had[j] != e && Apart(had[j], e) && Apart(e, had[j])
  {
  }

  /** Every entity stands for the message in its place. */
  ghost predicate AllStand(es: seq<Entity>, mds: seq<Message>)
    reads EntitiesIn(es)`key
  {
    |es| == |mds| && forall i {:trigger StandsFor(es[i], mds[i])} :: 0 <= i < |es| ==> StandsFor(es[i], mds[i])
  }

  ghost predicate AllRead(mds: seq<Message>) {
    forall i :: 0 <= i < |mds| ==> MessageReads(mds[i])
  }

  lemma ReadOneMore(mds: seq<Message>, i: nat)
    requires i < |mds|
    ensures AllRead(mds[..i + 1]) <==> AllRead(mds[..i]) && MessageReads(mds[i])
  {
    assert forall j :: 0 <= j < i ==> mds[..i + 1][j] == mds[..i][j];
    assert mds[..i + 1][i] == mds[i];
  }

  lemma StandOneMore(had: seq<Entity>, e: Entity, mds: seq<Message>, i: nat)
    requires i < |mds| && AllStand(had, mds[..i]) && StandsFor(e, mds[i])
    ensures AllStand(had + [e], mds[..i + 1])
  {
    forall j | 0 <= j <= i ensures StandsFor((had + [e])[j], mds[..i + 1][j]) {
      if j < i {
        assert StandsFor(had[j], mds[..i][j]);
      }
    }
  }

  lemma StandingIsKeyed(es: seq<Entity>, mds: seq<Message>)
    requires AllStand(es, mds)
    ensures Keyed(es)
  {
    forall e | e in es ensures e.key != null && e.key in e.spec.fields {
      var i :| 0 <= i < |es| && es[i] == e;
      assert StandsFor(es[i], mds[i]);
    }
  }

  /** Everything the reader records, message by message. */
  ghost function ReaderDiags(mds: seq<Message>): seq<Diagnostic> {
    Gather(|mds|, MessageDiagsAt(mds))
  }

  ghost function MessageDiagsAt(mds: seq<Message>): nat -> seq<Diagnostic> {
    (i: nat) => if i < |mds| then MessageDiags(mds[i]) else []
  }

  lemma ReaderDiagsIffUnread(mds: seq<Message>)
    ensures ReaderDiags(mds) == [] <==> AllRead(mds)
  {
    GatherEmpty(|mds|, MessageDiagsAt(mds));
    forall i: nat | i < |mds| ensures MessageDiagsAt(mds)(i) == [] <==> MessageReads(mds[i]) {
      MessageDiagsIffUnread(mds[i]);
    }
  }

  method ParseEntities(
    mds: seq<Message>, diags: Diagnostics, ghost found: nat -> seq<Diagnostic>) returns (es: seq<Entity>)
    requires diags.store != null && diags.store.found == [] && diags.prefix == "" && Reports(found, MessageDiagsAt(mds))
    modifies diags`store, diags.store
    ensures diags.store == old(diags.store) && diags.store.found == Gather(|mds|, found)
    ensures |es| == |mds| && FreshEntities(es)
    ensures AllRead(mds) ==> AllStand(es, mds)
    ensures forall e | e in es :: AllNew(e)
  {
    es := [];
    for i := 0 to |mds|
      invariant diags.store == old(diags.store) && |es| == i
      invariant diags.store.found == [] + Gather(i, found)
      invariant AllRead(mds[..i]) ==> AllStand(es, mds[..i])
      invariant forall j, k :: 0 <= j < k < i ==> es[j] != es[k] && Apart(es[j], es[k]) && Apart(es[k], es[j])
      invariant forall e | e in es :: Unwired(e)
      invariant forall e | e in es :: AllNew(e)
    {
      label Before:
      GatherOneMore([], i, found);
      var e := ParseNext(mds, i, diags, found);
      ghost var had := es;
      NewIsApart@Before(had, e);
      es := es + [e];
      ReadOneMore(mds, i);
      if AllRead(mds[..i + 1]) {
        StandOneMore(had, e, mds, i);
      }
    }
    assert mds[..|mds|] == mds;
  }

  method ParseNext(
    mds: seq<Message>, i: nat, diags: Diagnostics, ghost found: nat -> seq<Diagnostic>) returns (e: Entity)
    requires i < |mds| && diags.store != null && diags.prefix == "" && Reports(found, MessageDiagsAt(mds))
    modifies diags`store, diags.store
    ensures diags.store == old(diags.store) && diags.store.found == old(diags.store.found) + found(i)
    ensures MessageReads(mds[i]) ==> StandsFor(e, mds[i])
    ensures AllNew(e) && Unwired(e)
  {
    assert found(i) == Recorded(MessageDiagsAt(mds), i);
    e := ParseEntity(mds[i], diags);
  }

  /** Building leaves every entity standing for its message. */
  method BuildStanding(es: seq<Entity>, ghost mds: seq<Message>) returns (r: Result<Schema, seq<Diagnostic>>)
    requires FreshEntities(es) && AllStand(es, mds)
    modifies EntitiesIn(es)`props, EntitiesIn(es)`elems, EntitiesIn(es)`version, EntitiesIn(es)`erased
    modifies FieldsIn(es)`parent, EdgesIn(es)`parent, IndexesIn(es)`parent
    modifies IndexesIn(es)`props, EdgesIn(es)`target
    modifies EdgesIn(es)`inverse, EdgesIn(es)`reverse, EdgesIn(es)`unique
    ensures r.Success? <==> BuildDiags(es) == []
    ensures AllStand(es, mds)
    ensures r.Success? ==> r.value.entities == es && AcceptedSchema(es) && Keyed(es)
    ensures r.Failure? ==> r.error == BuildDiags(es)
  {
    StandingIsKeyed(es, mds);
    r := Build(es);
    assert AllStand(es, mds) && Keyed(es);
  }

  /** Every entity is what the message in its place says. */
  ghost predicate AllSaid(es: seq<Entity>, mds: seq<Message>)
    reads EntitiesIn(es)`key
  {
    |es| == |mds| && forall i {:trigger Said(es[i], mds[i])} :: 0 <= i < |es| ==> Said(es[i], mds[i])
  }

  lemma AllStandingAreSaid(es: seq<Entity>, mds: seq<Message>)
    requires AllStand(es, mds) && AllRead(mds)
    ensures AllSaid(es, mds)
  {
    forall i | 0 <= i < |es| ensures Said(es[i], mds[i]) {
      assert StandsFor(es[i], mds[i]);
      StandingIsSaid(es[i], mds[i]);
    }
  }

  /** ormcompat.Parse, from the annotated messages on. With a message at fault it
      fails with everything the reader recorded. Otherwise every entity is what its
      message says, and Parse succeeds exactly when Build has nothing to report of
      them: then the schema is wired, and every entity has the one key its message
      marks. */
  method Parse(mds: seq<Message>) returns (r: Result<Schema, seq<Diagnostic>>, ghost es: seq<Entity>)
    ensures !AllRead(mds) ==> r == Failure(ReaderDiags(mds)) && ReaderDiags(mds) != []
    ensures AllRead(mds) ==> AllSaid(es, mds) && (r.Success? <==> BuildDiags(es) == [])
    ensures AllRead(mds) && r.Failure? ==> r.error == BuildDiags(es)
    ensures r.Success? ==> AllRead(mds) && r.value.entities == es && AcceptedSchema(es) && Keyed(es)
  {
    var diags := new Diagnostics();
    var list := diags.Shared();
    var made := ParseEntities(mds, diags, MessageDiagsAt(mds));
    es := made;
    ReaderDiagsIffUnread(mds);
    var found := diags.List();
    if |found| > 0 {
      return Failure(found), es;
    }
    r := BuildStanding(made, mds);
    AllStandingAreSaid(es, mds);
  }
}
