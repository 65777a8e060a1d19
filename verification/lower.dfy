/** Turning a built schema into one store's decisions (gen/lower.go), and the
    check that every codec chosen is one the store implements (gen/run.go). */
module Lower {
  import opened Wrappers
  import opened Model
  import opened Wiring
  import opened Builder
  import opened Accepted
  import opened Backend
  import opened Stores
  import DexieStores

  /** What only a store's own runtime reads. */
  datatype Extra = Stores(text: string) | DialectName(dialect: Dialect) | TableName(name: string)

  datatype Table = Table(codec: map<Prop, Codec>, extra: Extra)

  type Tables = map<Entity, Table>

  // ---- codecs ----

  function TypeCodec(table: CodecTable, t: Type): Codec {
    if t in table then table[t] else Identity
  }

  /** The codec of the type that is really written: for an edge, of the field its
      target is named by. */
  function CodecOf(table: CodecTable, p: Prop): Codec
    reads *
  {
    if p.EdgeProp? && p.edge.TargetKey().Some? then TypeCodec(table, p.edge.TargetKey().value.spec.typ)
    else TypeCodec(table, p.Type())
  }

  lemma CodecIsListed(b: Store, t: Type)
    ensures TypeCodec(b.Codecs(), t) in b.Caps().codecs
  {
    match b {
      case Dexie(_) => assert b.Caps().codecs[0] == Identity && b.Caps().codecs[1] == UUIDString
          && b.Caps().codecs[2] == Json;
      case EntSql(_) => assert b.Caps().codecs[0] == Identity && b.Caps().codecs[1] == UUIDString
          && b.Caps().codecs[2] == TimeNative && b.Caps().codecs[3] == Json;
      case Grdb(_) => assert b.Caps().codecs[0] == Identity && b.Caps().codecs[1] == UUIDString
          && b.Caps().codecs[2] == TimeEpochMillis && b.Caps().codecs[3] == Json;
    }
  }

  /** No schema and no configuration of a backend makes it name a codec it does
      not implement. */
  lemma EveryCodecIsImplemented(b: Store, p: Prop)
    ensures CodecOf(b.Codecs(), p) in b.Caps().codecs
  {
    forall t ensures TypeCodec(b.Codecs(), t) in b.Caps().codecs {
      CodecIsListed(b, t);
    }
  }

  // ---- lowering ----

  /** What a store writes a value of the type as. A uuid is text in all of them; a
      time is what Dexie is given, a column of ent's, and milliseconds in GRDB. */
  ghost predicate WritesAs(b: Store, t: Type, c: Codec) {
    match t
    case TypeUUID => c == UUIDString
    case TypeJSON => c == Json
    case TypeMessage => c == Json
    case TypeTime => c == if b.Dexie? then Identity else if b.EntSql? then TimeNative else TimeEpochMillis
    case _ => c == Identity
  }

  lemma TypesAreWrittenAs(b: Store, t: Type)
    ensures WritesAs(b, t, TypeCodec(b.Codecs(), t))
  {
  }

  /** A store implements the codecs it writes and no others. */
  lemma CodecsAreThoseWritten(b: Store, c: Codec)
    ensures c in b.Caps().codecs <==> exists t :: WritesAs(b, t, c)
  {
    if t :| WritesAs(b, t, c) {
      TypesAreWrittenAs(b, t);
      CodecIsListed(b, t);
    }
    if c in b.Caps().codecs {
      assert WritesAs(b, TypeBool, Identity) && WritesAs(b, TypeUUID, UUIDString) && WritesAs(b, TypeJSON, Json);
      assert b.EntSql? ==> WritesAs(b, TypeTime, TimeNative);
      assert b.Grdb? ==> WritesAs(b, TypeTime, TimeEpochMillis);
    }
  }

  // ---- names of tables ----

  function Snake(s: string, i: nat): string
    requires i <= |s|
    decreases |s| - i
  {
    if i == |s| then ""
    else if 'A' <= s[i] <= 'Z' then (if i > 0 then "_" else "") + [(s[i] as int + 32) as char] + Snake(s, i + 1)
    else [s[i]] + Snake(s, i + 1)
  }

  /** Upper case of one ASCII character. */
  ghost function Raised(c: char): char {
    if 'a' <= c <= 'z' then "ABCDEFGHIJKLMNOPQRSTUVWXYZ"[c as int - 'a' as int] else c
  }

  /** The reader of such names: what follows an underscore was upper case. */
  ghost function Camel(t: string): string {
    if t == "" then ""
    else if t[0] == '_' && |t| > 1 then [Raised(t[1])] + Camel(t[2..])
    else [t[0]] + Camel(t[1..])
  }

  /** The name of a message as style guides have it: no underscore. */
  ghost predicate CamelNamed(s: string) {
    s != "" && '_' !in s && 'A' <= s[0] <= 'Z'
  }

  lemma {:induction false} SnakeReads(s: string, i: nat)
    requires 0 < i <= |s| && '_' !in s
    ensures Camel(Snake(s, i)) == s[i..]
    decreases |s| - i
  {
    if i < |s| {
      SnakeReads(s, i + 1);
      var rest := Snake(s, i + 1);
      if 'A' <= s[i] <= 'Z' {
        var low := (s[i] as int + 32) as char;
        assert Raised(low) == s[i];
        assert ("_" + [low] + rest)[2..] == rest;
      }
    }
  }

  /** No letter of a table's name is upper case, and it reads back as the entity's
      name; so no two entities share a table. */
  lemma TableNameReadsBack(s: string)
    requires CamelNamed(s)
    ensures var t := Snake(s, 0); t != "" && [Raised(t[0])] + Camel(t[1..]) == s
  {
    SnakeReads(s, 1);
  }

  lemma {:induction false} SnakeIsLower(s: string, i: nat)
    requires i <= |s|
    ensures forall k :: 0 <= k < |Snake(s, i)| ==> !('A' <= Snake(s, i)[k] <= 'Z')
    decreases |s| - i
  {
    if i < |s| {
      SnakeIsLower(s, i + 1);
    }
  }

  lemma TablesAreApart(s: string, s': string)
    requires CamelNamed(s) && CamelNamed(s') && Snake(s, 0) == Snake(s', 0)
    ensures s == s'
  {
    TableNameReadsBack(s);
    TableNameReadsBack(s');
  }

  /** An entity this store can print the extra of. Only Dexie reads the graph
      for it. */
  ghost predicate ExtraExists(b: Store, e: Entity)
    reads *
  {
    e.key != null && (b.Dexie? ==> DexieStores.EntityItems(e, b.opts.compat == "orm-ts").Some?)
  }

  /** What the store's runtime reads: Dexie the schema string, ent the dialect,
      GRDB the table. */
  ghost predicate ExtraIs(b: Store, e: Entity, x: Extra)
    reads *
  {
    match b
    case Dexie(opts) =>
      var compat := opts.compat == "orm-ts";
      e.key != null && DexieStores.EntityItems(e, compat).Some?
      && x == Stores(StoresText(DexieStores.EntityItems(e, compat).value))
    case EntSql(dialect) => x == DialectName(dialect)
    case Grdb(_) => x == TableName(Snake(e.spec.name, 0))
  }

  method StoresOf(opts: DexieOptions, e: Entity) returns (r: Option<Extra>)
    requires e.key != null
    ensures r.Some? <==> DexieStores.EntityItems(e, opts.Compat()).Some?
    ensures r.Some? ==> r == Some(Stores(StoresText(DexieStores.EntityItems(e, opts.Compat()).value)))
  {
    var d := new DexieStores.Backend.Configured(opts);
    var text := d.SchemaString(e);
    r := if text.None? then None else Some(Stores(text.value));
  }

  method ExtraOf(b: Store, e: Entity) returns (r: Option<Extra>)
    requires e.key != null
    ensures r.Some? <==> ExtraExists(b, e)
    ensures r.Some? ==> ExtraIs(b, e, r.value)
  {
    match b
    case Dexie(opts) =>
      r := StoresOf(opts, e);
    case EntSql(dialect) => r := Some(DialectName(dialect));
    case Grdb(_) => r := Some(TableName(Snake(e.spec.name, 0)));
  }

  method LowerTable(b: Store, e: Entity) returns (codec: map<Prop, Codec>)
    ensures codec.Keys == set p | p in e.props
    ensures forall p | p in e.props :: codec[p] == CodecOf(b.Codecs(), p)
  {
    codec := map[];
    var props := e.props;
    for i := 0 to |props|
      invariant codec.Keys == set p | p in props[..i]
      invariant forall p | p in props[..i] :: codec[p] == CodecOf(b.Codecs(), p)
    {
      assert props[..i + 1] == props[..i] + [props[i]];
      codec := codec[props[i] := CodecOf(b.Codecs(), props[i])];
    }
    assert props[..|props|] == props;
  }

  /** One codec a prop and no other, and what the runtime reads. */
  ghost predicate TableIs(b: Store, e: Entity, t: Table)
    reads *
  {
    && t.codec.Keys == (set p | p in e.props)
    && (forall p | p in e.props :: t.codec[p] == CodecOf(b.Codecs(), p))
    && ExtraIs(b, e, t.extra)
  }

  method LowerEntity(b: Store, e: Entity) returns (r: Option<Table>)
    ensures r.Some? <==> ExtraExists(b, e)
    ensures r.Some? ==> TableIs(b, e, r.value)
  {
    if e.key == null {
      return None;
    }
    var extra := ExtraOf(b, e);
    if extra.None? {
      return None;
    }
    var codec := LowerTable(b, e);
    return Some(Table(codec, extra.value));
  }

  /** One table an entity; an error exactly when some entity has no key or nothing
      its store can print. */
  method LowerTables(b: Store, es: seq<Entity>) returns (r: Option<Tables>)
    ensures r.Some? <==> forall e | e in es :: ExtraExists(b, e)
    ensures r.Some? ==> r.value.Keys == (set e | e in es)
    ensures r.Some? ==> forall e {:trigger TableIs(b, e, r.value[e])} | e in es :: TableIs(b, e, r.value[e])
  {
    var tables: Tables := map[];
    for i := 0 to |es|
      invariant forall e {:trigger ExtraExists(b, e)} | e in es[..i] :: ExtraExists(b, e)
      invariant tables.Keys == set e | e in es[..i]
      invariant forall e {:trigger TableIs(b, e, tables[e])} | e in es[..i] :: TableIs(b, e, tables[e])
    {
      assert es[..i + 1] == es[..i] + [es[i]];
      var table := LowerEntity(b, es[i]);
      if table.None? {
        assert !ExtraExists(b, es[i]);
        return None;
      }
      tables := tables[es[i] := table.value];
    }
    assert es[..|es|] == es;
    return Some(tables);
  }

  predicate Supports(codecs: seq<Codec>, table: map<Prop, Codec>) {
    forall p | p in table :: table[p] in codecs
  }

  method CheckTable(codecs: seq<Codec>, table: map<Prop, Codec>) returns (ok: bool)
    ensures ok <==> Supports(codecs, table)
  {
    var left := table.Keys;
    while left != {}
      invariant left <= table.Keys
      invariant forall p | p in table.Keys - left :: table[p] in codecs
      decreases left
    {
      var p :| p in left;
      if table[p] !in codecs {
        return false;
      }
      left := left - {p};
    }
    return true;
  }

  /** checkCodecs: whether every codec of every table is implemented. */
  method CheckCodecs(tables: Tables, caps: Capabilities) returns (ok: bool)
    ensures ok <==> forall e | e in tables :: Supports(caps.codecs, tables[e].codec)
  {
    var left := tables.Keys;
    while left != {}
      invariant left <= tables.Keys
      invariant forall e | e in tables.Keys - left :: Supports(caps.codecs, tables[e].codec)
      decreases left
    {
      var e :| e in left;
      var one := CheckTable(caps.codecs, tables[e].codec);
      if !one {
        return false;
      }
      left := left - {e};
    }
    return true;
  }

  // ---- a keyed schema lowers ----

  /** Every entity has a key: what the annotation reader adds to what Build
      promises. */
  ghost predicate Keyed(es: seq<Entity>)
    reads EntitiesIn(es)`key
  {
    forall e | e in es :: e.key != null
  }

  /** An edge of an accepted, keyed schema always has a key to be stored as. */
  lemma TargetKeyNeverFails(es: seq<Entity>, ed: Edge)
    requires AcceptedSchema(es) && Keyed(es) && ed in EdgesIn(es)
    ensures ed.TargetKey().Some?
    ensures ed.target != null && ed.target in es && ed.TargetKey().value == ed.target.key
  {
    InverseIsNamed(es, ed);
  }

  lemma PropsHavePaths(es: seq<Entity>, e: Entity, p: Prop, compat: bool)
    requires AcceptedSchema(es) && Keyed(es) && e in es && p in e.props
    ensures DexieStores.StorePath(p, compat).Some?
  {
    if p.EdgeProp? {
      EntityIsWired(es, e);
      PropsHaveEdges(e, p.edge);
      TargetKeyNeverFails(es, p.edge);
    }
  }

  lemma {:induction false} PathsExist(props: seq<Prop>, compat: bool)
    requires forall i :: 0 <= i < |props| ==> DexieStores.StorePath(props[i], compat).Some?
    ensures DexieStores.StorePaths(props, compat).Some?
  {
    if props != [] {
      PathsExist(props[..|props| - 1], compat);
    }
  }

  lemma {:induction false} ItemsExist(keys: seq<Elem>, key: Field, compat: bool)
    requires forall i :: 0 <= i < |keys| ==> DexieStores.ElemItem(keys[i], compat).Some?
    ensures DexieStores.KeyItems(keys, key, compat).Some?
  {
    if keys != [] {
      ItemsExist(keys[..|keys| - 1], key, compat);
    }
  }

  lemma IndexHasItem(es: seq<Entity>, e: Entity, idx: Index, compat: bool)
    requires AcceptedSchema(es) && Keyed(es) && e in es && idx in e.spec.indexes
    ensures DexieStores.ElemItem(IndexElem(idx), compat).Some?
  {
    IndexesAreNamed(es, e, idx);
    var props := idx.props;
    forall j | 0 <= j < |props| ensures DexieStores.StorePath(props[j], compat).Some? {
      PropsHavePaths(es, e, props[j], compat);
    }
    PathsExist(props, compat);
  }

  lemma ElemIsMember(e: Entity, k: Elem)
    requires Attached(e) && k in e.elems
    ensures match k case PropElem(p) => p in e.props case IndexElem(idx) => idx in e.spec.indexes
  {
    ElemsAreMembers(e);
    var i :| 0 <= i < |e.elems| && e.elems[i] == k;
    assert k == if i < |e.props| then PropElem(e.props[i]) else IndexElem(e.spec.indexes[i - |e.props|]);
  }

  lemma ElemsHaveItems(es: seq<Entity>, e: Entity, k: Elem, compat: bool)
    requires AcceptedSchema(es) && Keyed(es) && e in es && k in e.elems
    ensures DexieStores.ElemItem(k, compat).Some?
  {
    EntityIsWired(es, e);
    ElemIsMember(e, k);
    match k
    case PropElem(p) => PropsHavePaths(es, e, p, compat);
    case IndexElem(idx) => IndexHasItem(es, e, idx, compat);
  }

  /** Nothing in an accepted, keyed schema stops a store from lowering it. */
  lemma KeyedSchemaLowers(b: Store, es: seq<Entity>, e: Entity)
    requires AcceptedSchema(es) && Keyed(es) && e in es
    ensures ExtraExists(b, e)
  {
    if b.Dexie? {
      var keys := KeysOf(e.elems);
      DexieStores.KeysOfAreKeys(e.elems);
      forall i | 0 <= i < |keys| ensures DexieStores.ElemItem(keys[i], b.opts.Compat()).Some? {
        ElemsHaveItems(es, e, keys[i], b.opts.Compat());
      }
      ItemsExist(keys, e.key, b.opts.Compat());
    }
  }

  /** The codec of a prop of an accepted, keyed schema: an edge's is its target
      key's. */
  ghost predicate CodecIsKeys(b: Store, p: Prop, c: Codec)
    reads *
  {
    && c in b.Caps().codecs
    && match p
       case FieldProp(f) => WritesAs(b, f.spec.typ, c)
       case EdgeProp(ed) => ed.target != null && ed.target.key != null && WritesAs(b, ed.target.key.spec.typ, c)
  }

  lemma CodecsAreKeys(b: Store, es: seq<Entity>, e: Entity, p: Prop)
    requires AcceptedSchema(es) && Keyed(es) && e in es && p in e.props
    ensures CodecIsKeys(b, p, CodecOf(b.Codecs(), p))
  {
    EveryCodecIsImplemented(b, p);
    forall t ensures WritesAs(b, t, TypeCodec(b.Codecs(), t)) {
      TypesAreWrittenAs(b, t);
    }
    if p.EdgeProp? {
      EntityIsWired(es, e);
      PropsHaveEdges(e, p.edge);
      TargetKeyNeverFails(es, p.edge);
    }
  }

  /** A table an entity, and the codec of every prop the one it has to be. */
  ghost predicate LoweredRight(b: Store, es: seq<Entity>, tables: Tables)
    reads *
  {
    && tables.Keys == (set e | e in es)
    && (forall e {:trigger TableIs(b, e, tables[e])} | e in es :: TableIs(b, e, tables[e]))
    && (forall e, p | e in es && p in e.props :: p in tables[e].codec && CodecIsKeys(b, p, tables[e].codec[p]))
  }

  lemma LoweredIsImplemented(b: Store, es: seq<Entity>, tables: Tables)
    requires AcceptedSchema(es) && Keyed(es)
    requires tables.Keys == (set e | e in es)
    requires forall e {:trigger TableIs(b, e, tables[e])} | e in es :: TableIs(b, e, tables[e])
    ensures LoweredRight(b, es, tables)
    ensures forall e | e in tables :: Supports(b.Caps().codecs, tables[e].codec)
  {
    forall e, p | e in es && p in e.props ensures p in tables[e].codec && CodecIsKeys(b, p, tables[e].codec[p]) {
      assert TableIs(b, e, tables[e]);
      CodecsAreKeys(b, es, e, p);
    }
    forall e | e in tables ensures Supports(b.Caps().codecs, tables[e].codec) {
      assert e in es && TableIs(b, e, tables[e]);
    }
  }

  /** Backend.Lower and the check that follows it, on an accepted schema: lowering
      fails exactly when some entity has no key. Otherwise every prop has a codec,
      an edge's codec is its target key's, and the check finds nothing. */
  method LowerAccepted(b: Store, es: seq<Entity>) returns (r: Option<Tables>, checked: bool)
    requires AcceptedSchema(es)
    ensures r.Some? <==> Keyed(es)
    ensures r.Some? ==> checked && LoweredRight(b, es, r.value)
  {
    WorldIsAllocated(es);
    if Keyed(es) {
      forall e | e in es ensures ExtraExists(b, e) {
        KeyedSchemaLowers(b, es, e);
      }
    }
    r := LowerTables(b, es);
    if r.None? {
      return None, false;
    }
    assert Keyed(es) by {
      forall e | e in es ensures e.key != null {
        assert ExtraExists(b, e);
      }
    }
    LoweredIsImplemented(b, es, r.value);
    checked := CheckCodecs(r.value, b.Caps());
  }
}
