/** The three backends as owners of their sections: what each starts from, fills in
    and accepts, and the store it is under the options it ends up with
    (backend/dexie/dexie.go, backend/entsql/entsql.go, backend/grdb/grdb.go). */
module Backends {
  import opened Wrappers
  import opened Text
  import opened Options
  import opened Layers
  import opened Env
  import opened Documents
  import opened Sections
  import opened Resolving
  import DexieStores
  import Stored = Backend

  // ---- options structs ----

  const ACCEPT := FieldDef("Accept", "accept", true, Whole(OtherKind("gen.Accept")))

  const COMPAT := FieldDef("Compat", "compat", true, Whole(StringKind))
  const DIALECT := FieldDef("Dialect", "dialect", true, Whole(StringKind))
  const TABLE := FieldDef("Table", "table", true, Whole(OtherKind("map[string]string")))

  const DEXIE := Shape([COMPAT, ACCEPT])
  const ENTSQL := Shape([DIALECT, TABLE])
  const GRDB := Shape([ACCEPT])

  function TextOf(x: Scalar): string {
    if x.Words? then x.text else ""
  }

  /** The text of a string option. */
  function TextAt(vals: seq<Value>, i: nat): string {
    if i < |vals| && vals[i].Leaf? then TextOf(vals[i].scalar) else ""
  }

  /** The names of a list option. How one is held is the YAML library's, and names
      what it says. */
  function NamesAt(names: Scalar -> seq<string>, vals: seq<Value>, i: nat): seq<string> {
    if i < |vals| && vals[i].Leaf? then names(vals[i].scalar) else []
  }

  /** setDefaults: an empty first option is the default. */
  function OrElse(text: string): seq<Value> -> seq<Value> {
    (vals: seq<Value>) => if |vals| > 0 && TextAt(vals, 0) == "" then vals[0 := Leaf(Words(text))] else vals
  }

  predicate IsKind(name: string) {
    exists k :: 0 <= k < |Stored.ALL_SHORTFALL_KINDS| && Stored.ALL_SHORTFALL_KINDS[k].Name() == name
  }

  predicate AreKinds(accept: seq<string>) {
    forall i :: 0 <= i < |accept| ==> IsKind(accept[i])
  }

  lemma KindsAreKnown(name: string)
    ensures IsKind(name) <==> Stored.KnownKind(name)
  {
    Stored.KnownIsNamed(name);
    if kind: Stored.ShortfallKind :| kind.Name() == name {
      Stored.EveryKindIsListed(kind);
    }
  }

  // ---- the backends ----

  function DexieBackend(d: Decoder, names: Scalar -> seq<string>): Backend {
    Backend(
      Owner("dexie", DEXIE, Zeros(d, DEXIE), OrElse("orm-ts"),
            (vals: seq<Value>) => TextAt(vals, 0) in ["orm-ts", "none"] && AreKinds(NamesAt(names, vals, 1))),
      (vals: seq<Value>) => Stored.Dexie(Stored.DexieOptions(TextAt(vals, 0), NamesAt(names, vals, 1))))
  }

  function DialectOf(text: string): Stored.Dialect {
    if text == "postgres" then Stored.Postgres else if text == "mysql" then Stored.MySQL else Stored.SQLite
  }

  function EntSqlBackend(d: Decoder): Backend {
    Backend(
      Owner("entsql", ENTSQL, Zeros(d, ENTSQL), OrElse("sqlite"),
            (vals: seq<Value>) => TextAt(vals, 0) in ["sqlite", "postgres", "mysql"]),
      (vals: seq<Value>) => Stored.EntSql(DialectOf(TextAt(vals, 0))))
  }

  function GrdbBackend(d: Decoder, names: Scalar -> seq<string>): Backend {
    Backend(
      Owner("grdb", GRDB, Zeros(d, GRDB),
            (vals: seq<Value>) => vals, (vals: seq<Value>) => AreKinds(NamesAt(names, vals, 0))),
      (vals: seq<Value>) => Stored.Grdb(NamesAt(names, vals, 0)))
  }

  /** Named in the tag, and nothing else said there. */
  ghost predicate Plain(f: FieldDef) {
    f.exported && f.typ.Whole? && ',' !in f.tag && f.tag != "" && f.tag != "-"
  }

  lemma PlainField(f: FieldDef)
    requires Plain(f)
    ensures !f.Skipped() && !f.Inline() && f.Path([]) == [f.tag] && InlinableField(f)
  {
    SplitOfFree(f.tag, ',');
    assert [] + [f.tag] == [f.tag];
  }

  lemma FieldsArePlain()
    ensures Plain(COMPAT) && Plain(ACCEPT) && Plain(DIALECT) && Plain(TABLE)
  {
  }

  lemma PlainIsTyped(d: Decoder, o: Owner)
    requires o.start == Zeros(d, o.shape) && forall i {:trigger o.shape.fields[i]} :: 0 <= i < |o.shape.fields| ==>
      Plain(o.shape.fields[i])
    ensures o.Typed()
  {
    ZerosFit(d, o.shape);
    forall i | 0 <= i < |o.shape.fields| ensures InlinableField(o.shape.fields[i]) {
      PlainField(o.shape.fields[i]);
    }
  }

  lemma BackendsAreTyped(d: Decoder, names: Scalar -> seq<string>)
    ensures DexieBackend(d, names).owner.Typed() && EntSqlBackend(d).owner.Typed()
    ensures GrdbBackend(d, names).owner.Typed()
  {
    FieldsArePlain();
    PlainIsTyped(d, DexieBackend(d, names).owner);
    PlainIsTyped(d, EntSqlBackend(d).owner);
    PlainIsTyped(d, GrdbBackend(d, names).owner);
  }

  // ---- what a section comes to ----

  /** The section's own options as they were read. */
  function DexieRead(names: Scalar -> seq<string>, vals: seq<Value>): Stored.DexieOptions {
    Stored.DexieOptions(TextAt(vals, 0), NamesAt(names, vals, 1))
  }

  /** What the owner accepts, and the store it then is, are what the backend's own
      Configure takes and keeps. */
  lemma DexieTakesWhatItOwns(d: Decoder, names: Scalar -> seq<string>, vals: seq<Value>)
    requires FitsAll(DEXIE, vals)
    ensures var b := DexieBackend(d, names); var o := DexieRead(names, vals); var settled := b.owner.defaults(vals);
      && (b.owner.accepts(settled) <==> DexieStores.Takes(o))
      && b.store(settled) == Stored.Dexie(DexieStores.Taken(o))
  {
    forall name ensures IsKind(name) <==> Stored.KnownKind(name) {
      KindsAreKnown(name);
    }
  }

  /** What a section is told of one of its own fields: the last override to name it,
      or else the variable, or else the file. */
  ghost function ToldOf(ins: Inputs, key: string, field: string, variable: string): Option<Input> {
    var override := LastOverride(ins, if key in ins.overrides then ins.overrides[key] else [], [field]);
    if override.Some? then override
    else if variable in ins.environ then Some(EnvText(ins.environ[variable]))
    else if key in ins.extra && ins.extra[key].Mapping? && field in ins.extra[key].entries then
      Some(FileNode(ins.extra[key].entries[field]))
    else None
  }

  lemma ToldIsToldOf(ins: Inputs, key: string, field: string, variable: string)
    requires variable == EnvKey(SectionPrefix(key), [field])
    ensures Told(ins, key, [field]) == ToldOf(ins, key, field, variable)
  {
    if key in ins.extra {
      var node := ins.extra[key];
      assert [field][1..] == [];
      if node.Mapping? && field in node.entries {
        assert Lookup(node.entries[field], []) == Some(node.entries[field]);
      }
    }
  }

  /** The text of a string option that was told this, or nothing. */
  ghost predicate TextSays(d: Decoder, told: Option<Input>, text: string) {
    match told
    case None => text == ""
    case Some(EnvText(t)) => text == t
    case Some(FileNode(node)) => exists held, x :: d.node(StringKind, held, node) == Some(x) && text == TextOf(x)
  }

  /** What an option that only the YAML library looks into holds. */
  ghost predicate OtherSays(d: Decoder, kind: string, told: Option<Input>, x: Scalar) {
    match told
    case None => x == d.zero(kind)
    case Some(EnvText(t)) => exists held :: d.text(kind, held, t) == Some(x)
    case Some(FileNode(node)) => exists held :: d.node(OtherKind(kind), held, node) == Some(x)
  }

  ghost predicate KindSays(d: Decoder, kind: Kind, told: Option<Input>, x: Scalar) {
    match kind
    case StringKind => TextSays(d, told, TextOf(x))
    case OtherKind(name) => OtherSays(d, name, told, x)
    case PointerTo(_) => true
  }

  lemma ReadSays(d: Decoder, kind: Kind, input: Input, was: Option<Value>, now: Option<Value>)
    requires ReadInto(d, kind, input, was, now)
    ensures KindSays(d, kind, Some(input), now.value.scalar)
  {
  }

  /** Field i of a settled section holds what it was told. */
  lemma FieldIsTold(ins: Inputs, key: string, shape: Shape, settled: seq<Value>, i: nat)
    requires i < |shape.fields| && Plain(shape.fields[i])
    requires FitsAll(shape, Zeros(ins.d, shape)) && ins.Settles(key, shape, Zeros(ins.d, shape)) == Some(settled)
    ensures i < |settled| && settled[i].Leaf?
    ensures KindSays(ins.d, shape.fields[i].typ.kind, Told(ins, key, [shape.fields[i].tag]), settled[i].scalar)
  {
    var f, start := shape.fields[i], Zeros(ins.d, shape);
    PlainField(f);
    assert LeafAt(shape, [i], []) == Some(([f.tag], f.typ.kind));
    assert Fits(f.typ, settled[i]);
    SectionLayers(ins, key, shape, start, [i]);
    assert ValueAt(start, [i]) == Some(Leaf(ZeroScalar(ins.d, f.typ.kind)));
    assert ValueAt(settled, [i]) == Some(settled[i]);
    LeafIsTold(ins, key, shape, start, settled, i, f.tag, f.typ.kind);
  }

  lemma LeafIsTold(
    ins: Inputs, key: string, shape: Shape, start: seq<Value>, settled: seq<Value>, i: nat, tag: string, kind: Kind)
    requires FitsAll(shape, start) && ins.Settles(key, shape, start) == Some(settled) && i < |settled|
    requires LeafAt(shape, [i], []) == Some(([tag], kind)) && settled[i].Leaf?
    requires LastWins(ins.d, shape, ins.Sources(key, shape), start, [i])
    requires LastSaying(ins.Sources(key, shape), [tag]) == Told(ins, key, [tag])
    requires ValueAt(start, [i]) == Some(Leaf(ZeroScalar(ins.d, kind))) && ValueAt(settled, [i]) == Some(settled[i])
    ensures KindSays(ins.d, kind, Told(ins, key, [tag]), settled[i].scalar)
  {
    var sources := ins.Sources(key, shape);
    var k := LastSayer(sources, [tag]);
    if k.Some? {
      var before := Settled(ins.d, shape, sources[..k.value], start);
      ReadSays(ins.d, kind, Told(ins, key, [tag]).value, ValueAt(before.value, [i]), Some(settled[i]));
    }
  }

  lemma Variable(section: string, field: string, loud: string, louder: string)
    requires Shout(section) == loud && Shout(field) == louder
    ensures EnvKey(SectionPrefix(section), [field]) == "CALQUE_" + loud + "_" + louder
  {
  }

  lemma DexieVariables()
    ensures EnvKey(SectionPrefix("dexie"), ["compat"]) == "CALQUE_DEXIE_COMPAT"
    ensures EnvKey(SectionPrefix("dexie"), ["accept"]) == "CALQUE_DEXIE_ACCEPT"
  {
    assert Shout("dexie") == "DEXIE" && Shout("compat") == "COMPAT" && Shout("accept") == "ACCEPT";
    Variable("dexie", "compat", "DEXIE", "COMPAT");
    Variable("dexie", "accept", "DEXIE", "ACCEPT");
  }

  lemma EntSqlVariable()
    ensures EnvKey(SectionPrefix("entsql"), ["dialect"]) == "CALQUE_ENTSQL_DIALECT"
  {
    assert Shout("entsql") == "ENTSQL" && Shout("dialect") == "DIALECT";
    Variable("entsql", "dialect", "ENTSQL", "DIALECT");
  }

  lemma GrdbVariable()
    ensures EnvKey(SectionPrefix("grdb"), ["accept"]) == "CALQUE_GRDB_ACCEPT"
  {
    assert Shout("grdb") == "GRDB" && Shout("accept") == "ACCEPT";
    Variable("grdb", "accept", "GRDB", "ACCEPT");
  }

  /** A configured Dexie backend spells as the last source of its section says, and
      with nothing said as the older generator does; and it lives with what the last
      source says it does. */
  lemma DexieIsConfigured(ins: Inputs, names: Scalar -> seq<string>) returns (text: string, list: Scalar)
    requires Effective(ins, DexieBackend(ins.d, names).owner).Some?
    ensures TextSays(ins.d, ToldOf(ins, "dexie", "compat", "CALQUE_DEXIE_COMPAT"), text)
    ensures OtherSays(ins.d, "gen.Accept", ToldOf(ins, "dexie", "accept", "CALQUE_DEXIE_ACCEPT"), list)
    ensures text in ["", "orm-ts", "none"] && forall i :: 0 <= i < |names(list)| ==> Stored.KnownKind(names(list)[i])
    ensures var b := DexieBackend(ins.d, names);
      b.store(Effective(ins, b.owner).value)
        == Stored.Dexie(Stored.DexieOptions(if text == "" then "orm-ts" else text, names(list)))
  {
    var b := DexieBackend(ins.d, names);
    BackendsAreTyped(ins.d, names);
    FieldsArePlain();
    DexieVariables();
    var settled := ins.Settles("dexie", DEXIE, b.owner.start).value;
    DexieTakesWhatItOwns(ins.d, names, settled);
    FieldIsTold(ins, "dexie", DEXIE, settled, 0);
    FieldIsTold(ins, "dexie", DEXIE, settled, 1);
    ToldIsToldOf(ins, "dexie", "compat", "CALQUE_DEXIE_COMPAT");
    ToldIsToldOf(ins, "dexie", "accept", "CALQUE_DEXIE_ACCEPT");
    text, list := TextAt(settled, 0), settled[1].scalar;
  }

  lemma EntSqlTakesWhatItOwns(d: Decoder, vals: seq<Value>)
    requires FitsAll(ENTSQL, vals)
    ensures var b := EntSqlBackend(d); var settled := b.owner.defaults(vals);
      && (b.owner.accepts(settled) <==> TextAt(vals, 0) in ["", "sqlite", "postgres", "mysql"])
      && b.store(settled) == Stored.EntSql(DialectOf(TextAt(vals, 0)))
  {
  }

  lemma DialectsAreNamed()
    ensures DialectOf("") == DialectOf("sqlite") == Stored.SQLite
    ensures DialectOf("postgres") == Stored.Postgres && DialectOf("mysql") == Stored.MySQL
  {
  }

  /** A configured SQL backend speaks the dialect the last source of its section
      says, and with nothing said SQLite. */
  lemma EntSqlIsConfigured(ins: Inputs) returns (text: string)
    requires Effective(ins, EntSqlBackend(ins.d).owner).Some?
    ensures TextSays(ins.d, ToldOf(ins, "entsql", "dialect", "CALQUE_ENTSQL_DIALECT"), text)
    ensures text in ["", "sqlite", "postgres", "mysql"]
    ensures var b := EntSqlBackend(ins.d); b.store(Effective(ins, b.owner).value) == Stored.EntSql(DialectOf(text))
  {
    var b := EntSqlBackend(ins.d);
    FieldsArePlain();
    EntSqlVariable();
    PlainIsTyped(ins.d, b.owner);
    var settled := ins.Settles("entsql", ENTSQL, b.owner.start).value;
    EntSqlTakesWhatItOwns(ins.d, settled);
    FieldIsTold(ins, "entsql", ENTSQL, settled, 0);
    ToldIsToldOf(ins, "entsql", "dialect", "CALQUE_ENTSQL_DIALECT");
    text := TextAt(settled, 0);
  }

  /** A configured GRDB backend lives with what the last source of its section says. */
  lemma GrdbIsConfigured(ins: Inputs, names: Scalar -> seq<string>) returns (list: Scalar)
    requires Effective(ins, GrdbBackend(ins.d, names).owner).Some?
    ensures OtherSays(ins.d, "gen.Accept", ToldOf(ins, "grdb", "accept", "CALQUE_GRDB_ACCEPT"), list)
    ensures forall i :: 0 <= i < |names(list)| ==> Stored.KnownKind(names(list)[i])
    ensures var b := GrdbBackend(ins.d, names); b.store(Effective(ins, b.owner).value) == Stored.Grdb(names(list))
  {
    var b := GrdbBackend(ins.d, names);
    BackendsAreTyped(ins.d, names);
    FieldsArePlain();
    GrdbVariable();
    var settled := ins.Settles("grdb", GRDB, b.owner.start).value;
    FieldIsTold(ins, "grdb", GRDB, settled, 0);
    ToldIsToldOf(ins, "grdb", "accept", "CALQUE_GRDB_ACCEPT");
    list := settled[0].scalar;
    forall i | 0 <= i < |names(list)| ensures Stored.KnownKind(names(list)[i]) {
      KindsAreKnown(names(list)[i]);
    }
  }
}
