/** What a store can hold and how it writes a value: the three backends
    (gen/backend.go, backend/dexie, backend/entsql, backend/grdb). */
module Backend {
  import opened Wrappers
  import opened Model

  datatype Codec = Identity | UUIDString | UUIDBytes | TimeEpochMillis | TimeNative | Json

  /** maxIndexArity 0 is no limit. */
  datatype Capabilities = Capabilities(
    uniqueCompoundIndex: bool, partialIndex: bool, nestedKeyPath: bool, binaryKey: bool, transactions: bool,
    maxIndexArity: nat, codecs: seq<Codec>)

  datatype ShortfallKind =
    UniqueCompoundIndex | PartialIndex | IndexArity | UnorderableMember | BinaryKey | NoTransactions
  {
    function Name(): string {
      match this
      case UniqueCompoundIndex => "unique_compound_index"
      case PartialIndex => "partial_index"
      case IndexArity => "index_arity"
      case UnorderableMember => "unorderable_index_member"
      case BinaryKey => "binary_key"
      case NoTransactions => "no_transactions"
    }
  }

  const ALL_SHORTFALL_KINDS :=
    [UniqueCompoundIndex, PartialIndex, IndexArity, UnorderableMember, BinaryKey, NoTransactions]

  /** A kind this build knows goes by that name. */
  ghost predicate KnownKind(name: string) {
    name in ["unique_compound_index", "partial_index", "index_arity", "unorderable_index_member", "binary_key",
             "no_transactions"]
  }

  lemma KnownIsNamed(name: string)
    ensures KnownKind(name) <==> exists kind: ShortfallKind :: kind.Name() == name
  {
    if KnownKind(name) {
      var kind := if name == "unique_compound_index" then UniqueCompoundIndex
                  else if name == "partial_index" then PartialIndex
                  else if name == "index_arity" then IndexArity
                  else if name == "unorderable_index_member" then UnorderableMember
                  else if name == "binary_key" then BinaryKey else NoTransactions;
      assert kind.Name() == name;
    }
  }

  /** Accept.Validate refuses a list that holds any name but those of the kinds. */
  method ValidateAccept(accept: seq<string>) returns (ok: bool)
    ensures ok <==> forall i :: 0 <= i < |accept| ==> KnownKind(accept[i])
  {
    var known := [];
    for i := 0 to |ALL_SHORTFALL_KINDS|
      invariant |known| == i && forall j :: 0 <= j < i ==> known[j] == ALL_SHORTFALL_KINDS[j].Name()
    {
      known := known + [ALL_SHORTFALL_KINDS[i].Name()];
    }
    forall name ensures name in known <==> KnownKind(name) {
      KnownIsNamed(name);
      if kind: ShortfallKind :| kind.Name() == name {
        assert kind in ALL_SHORTFALL_KINDS by { EveryKindIsListed(kind); }
        var j :| 0 <= j < |ALL_SHORTFALL_KINDS| && ALL_SHORTFALL_KINDS[j] == kind;
        assert known[j] == name;
      }
    }
    for i := 0 to |accept|
      invariant forall j :: 0 <= j < i ==> KnownKind(accept[j])
    {
      if accept[i] !in known {
        return false;
      }
    }
    return true;
  }

  lemma EveryKindIsListed(kind: ShortfallKind)
    ensures kind in ALL_SHORTFALL_KINDS
  {
    var all := ALL_SHORTFALL_KINDS;
    assert all[0] == UniqueCompoundIndex && all[1] == PartialIndex && all[2] == IndexArity;
    assert all[3] == UnorderableMember && all[4] == BinaryKey && all[5] == NoTransactions;
  }

  /** A codec for some of the types; Identity stands for the others. */
  type CodecTable = map<Type, Codec>

  datatype Dialect = SQLite | Postgres | MySQL

  /** Dexie's section, once it is accepted: compat is "orm-ts" or "none". */
  datatype DexieOptions = DexieOptions(compat: string, accept: seq<string>)
  {
    /** Spell as the older generator does. */
    predicate Compat() {
      compat == "orm-ts"
    }
  }

  /** A configured backend. */
  datatype Store =
    | Dexie(opts: DexieOptions)
    | EntSql(dialect: Dialect)
    | Grdb(accept: seq<string>)
  {
    function Caps(): Capabilities {
      match this
      case Dexie(_) =>
        Capabilities(true, false, true, false, true, 0, [Identity, UUIDString, Json])
      case EntSql(dialect) =>
        Capabilities(true, dialect != MySQL, false, true, true, if dialect == Postgres then 32 else 0,
                                  [Identity, UUIDString, TimeNative, Json])
      case Grdb(_) =>
        Capabilities(true, true, false, true, true, 0, [Identity, UUIDString, TimeEpochMillis, Json])
    }

    /** Whether a shortfall stops the run, for a backend that does not decide one
        kind at a time. */
    predicate Strict() {
      if Dexie? then opts.compat == "none" else true
    }

    /** None for a backend judged by Strict alone. */
    function Accepts(kind: ShortfallKind): Option<bool> {
      match this
      case Dexie(opts) => Some(opts.compat != "none" || kind.Name() in opts.accept)
      case EntSql(_) => None
      case Grdb(accept) => Some(kind.Name() in accept)
    }

    function Codecs(): CodecTable {
      match this
      case Dexie(_) => map[TypeUUID := UUIDString, TypeJSON := Json, TypeMessage := Json]
      case EntSql(_) =>
        map[TypeUUID := UUIDString, TypeTime := TimeNative, TypeJSON := Json, TypeMessage := Json]
      case Grdb(_) =>
        map[TypeUUID := UUIDString, TypeTime := TimeEpochMillis, TypeJSON := Json, TypeMessage := Json]
    }
  }
}
