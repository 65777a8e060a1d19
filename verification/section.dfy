/** The config document: who claimed which section, and what each claim was
    answered with (config/section.go, config/env.go, config/opt.go). */
module Sections {
  import opened Wrappers
  import opened Sorting
  import opened Text
  import opened Options
  import opened Layers
  import opened Env
  import opened Documents

  // ---- reading the environment ----

  const RESERVED := ["CALQUE_REFERENCE_"]

  predicate Tracked(name: string) {
    PREFIX <= name && forall i :: 0 <= i < |RESERVED| ==> !(RESERVED[i] <= name)
  }

  lemma TrackedIff(name: string)
    ensures Tracked(name) <==> "CALQUE_" <= name && !("CALQUE_REFERENCE_" <= name)
  {
    assert RESERVED[0] == "CALQUE_REFERENCE_";
  }

  /** strings.Cut at the first equals sign. */
  function Cut(e: string): Option<(string, string)> {
    if e == "" then None
    else if e[0] == '=' then Some(("", e[1..]))
    else match Cut(e[1..]) case None => None case Some(p) => Some(([e[0]] + p.0, p.1))
  }

  lemma {:induction false} CutIsAtFirst(name: string, value: string)
    requires '=' !in name
    ensures Cut(name + "=" + value) == Some((name, value))
  {
    var e := name + "=" + value;
    if name == "" {
      assert e[1..] == value;
    } else {
      assert e[1..] == name[1..] + "=" + value;
      CutIsAtFirst(name[1..], value);
      assert name == [name[0]] + name[1..];
    }
  }

  lemma {:induction false} CutIsSplit(e: string)
    ensures match Cut(e) case Some(p) => e == p.0 + "=" + p.1 && '=' !in p.0 case None => '=' !in e
  {
    if e != "" && e[0] != '=' {
      CutIsSplit(e[1..]);
      assert e == [e[0]] + e[1..];
    }
  }

  /** An entry is under a name exactly when it begins with the name and an equals
      sign, and the name holds none; its value is all that follows. */
  lemma CutSpells(e: string, name: string)
    ensures Cut(e).Some? && Cut(e).value.0 == name <==> '=' !in name && name + "=" <= e
    ensures '=' !in name && name + "=" <= e ==> Cut(e).value.1 == e[|name| + 1..]
  {
    CutIsSplit(e);
    if '=' !in name && name + "=" <= e {
      assert e == name + "=" + e[|name| + 1..];
      CutIsAtFirst(name, e[|name| + 1..]);
    }
  }

  function Entered(environ: map<string, string>, e: string): map<string, string> {
    match Cut(e)
    case Some((name, value)) => if Tracked(name) then environ[name := value] else environ
    case None => environ
  }

  function EnteredAll(environ: map<string, string>, entries: seq<string>): map<string, string> {
    if entries == [] then environ else Entered(EnteredAll(environ, entries[..|entries| - 1]), entries[|entries| - 1])
  }

  // ---- the config ----

  /** The options a claimant hands over: a struct it keeps a pointer to. */
  class Settings {
    const shape: Shape
    var vals: seq<Value>

    constructor (shape: Shape, vals: seq<Value>)
      requires FitsAll(shape, vals)
      ensures this.shape == shape && this.vals == vals
    {
      this.shape, this.vals := shape, vals;
    }
  }

  datatype Claim = Claim(said: bool, error: Option<ClaimError>)

  datatype ClaimError = BadFile | BadEnv(name: string) | BadOpt(opt: string)

  /** The keys of a map, sorted. */
  method SortedKeys(keys: set<string>) returns (out: seq<string>)
    ensures StrictlySorted(out) && forall k :: k in out <==> k in keys
  {
    var left, found := keys, [];
    while left != {}
      invariant left <= keys && Distinct(found)
      invariant forall k :: k in found <==> k in keys && k !in left
      decreases |left|
    {
      var k :| k in left;
      left := left - {k};
      found := found + [k];
    }
    SortStringsIsStrict(found);
    out := SortStrings(found);
    SameBagSameMembers(out, found);
  }

  /** Everything a claim reads of the config. */
  datatype Inputs = Inputs(
    d: Decoder, scalar: string -> Node, extra: map<string, Node>, environ: map<string, string>,
    overrides: map<string, seq<Override>>)
  {
    function OverridesOf(key: string): seq<Override> {
      if key in overrides then overrides[key] else []
    }

    function NamesOf(key: string, shape: Shape): seq<string> {
      Names(SectionPrefix(key), shape)
    }

    /** The variable is recorded and is one of the section's. */
    ghost predicate Answers(key: string, shape: Shape, name: string) {
      name in NamesOf(key, shape) && name in environ
    }

    ghost function Matches(key: string, shape: Shape): seq<string> {
      Kept(SectionPrefix(key), Some(environ), Leaves(shape, [], []))
    }

    lemma MatchesAnswer(key: string, shape: Shape)
      ensures forall name :: name in Matches(key, shape) <==> Answers(key, shape, name)
    {
      forall name ensures name in Matches(key, shape) <==> Answers(key, shape, name) {
        KeptSome(SectionPrefix(key), environ, Leaves(shape, [], []), name);
      }
    }

    function FileSource(key: string): seq<Source> {
      if key in extra then [File(extra[key])] else []
    }

    ghost function EnvSource(key: string, shape: Shape): seq<Source> {
      if Matches(key, shape) != [] then [Environment(SectionPrefix(key), environ)] else []
    }

    function OptSources(os: seq<Override>): (r: seq<Source>)
      ensures |r| == |os|
    {
      seq(|os|, i requires 0 <= i < |os| => Opt(Nest(os[i].path, scalar(os[i].value))))
    }

    /** Something was said of the section. */
    ghost predicate Said(key: string, shape: Shape) {
      key in extra || OverridesOf(key) != [] || Matches(key, shape) != []
    }

    /** What is read into a section, in the order it is read. */
    ghost function Sources(key: string, shape: Shape): seq<Source> {
      FileSource(key) + EnvSource(key, shape) + OptSources(OverridesOf(key))
    }

    /** What a claim leaves in options that start at start. None is an error. */
    ghost function Settles(key: string, shape: Shape, start: seq<Value>): Option<seq<Value>>
      requires FitsAll(shape, start)
    {
      Settled(d, shape, Sources(key, shape), start)
    }

    /** The error of a claim names the first of file, environment and overrides that
        is not read, and there is none when all are. */
    ghost predicate Stops(key: string, shape: Shape, start: seq<Value>, error: Option<ClaimError>)
      requires FitsAll(shape, start)
    {
      match Settled(d, shape, FileSource(key), start)
      case None => error == Some(BadFile)
      case Some(filed) =>
        match Settled(d, shape, EnvSource(key, shape), filed)
        case None => NamesFault(key, shape, filed, error)
        case Some(read) => StopsAtOpt(shape, OverridesOf(key), read, error)
    }

    /** The error names the variable of the first leaf, in field order, whose text
        does not fit. */
    ghost predicate NamesFault(key: string, shape: Shape, vals: seq<Value>, error: Option<ClaimError>)
      requires FitsAll(shape, vals)
    {
      var prefix := SectionPrefix(key);
      var fault := FaultTo(EnvLayer(prefix, environ), d, shape, |shape.fields|, [], vals);
      fault.Some? && error == Some(BadEnv(EnvKey(prefix, fault.value)))
    }

    /** The overrides before i are read and i is not. */
    ghost predicate FirstUnread(shape: Shape, os: seq<Override>, vals: seq<Value>, i: int)
      requires FitsAll(shape, vals)
    {
      && 0 <= i < |os|
      && Settled(d, shape, OptSources(os)[..i], vals).Some?
      && Settled(d, shape, OptSources(os)[..i + 1], vals).None?
    }

    ghost predicate StopsAtOpt(shape: Shape, os: seq<Override>, vals: seq<Value>, error: Option<ClaimError>)
      requires FitsAll(shape, vals)
    {
      if Settled(d, shape, OptSources(os), vals).None? then
        exists i :: FirstUnread(shape, os, vals, i) && error == Some(BadOpt(os[i].opt))
      else error == None
    }

    lemma FirstUnreadIsOne(shape: Shape, os: seq<Override>, vals: seq<Value>, i: int, j: int)
      requires FitsAll(shape, vals) && FirstUnread(shape, os, vals, i) && FirstUnread(shape, os, vals, j)
      ensures i == j
    {
      var a, b := if i < j then i else j, if i < j then j else i;
      if a < b {
        var all := OptSources(os);
        assert all[..b][..a + 1] == all[..a + 1];
        FailedStaysFailed(d, shape, all[..b], a + 1, vals);
      }
    }

    /** There is one error a claim can stop with. */
    lemma StopsOneWay(key: string, shape: Shape, start: seq<Value>, e: Option<ClaimError>, e': Option<ClaimError>)
      requires FitsAll(shape, start) && Stops(key, shape, start, e) && Stops(key, shape, start, e')
      ensures e == e'
    {
      var filed := Settled(d, shape, FileSource(key), start);
      if filed.Some? {
        var read := Settled(d, shape, EnvSource(key, shape), filed.value);
        var os := OverridesOf(key);
        if read.Some? && Settled(d, shape, OptSources(os), read.value).None? {
          var i :| FirstUnread(shape, os, read.value, i) && e == Some(BadOpt(os[i].opt));
          var j :| FirstUnread(shape, os, read.value, j) && e' == Some(BadOpt(os[j].opt));
          FirstUnreadIsOne(shape, os, read.value, i, j);
        }
      }
    }

    lemma EnvSaysIff(key: string, shape: Shape, env: seq<string>)
      requires forall name :: name in env <==> Answers(key, shape, name)
      ensures |env| > 0 <==> EnvSource(key, shape) != []
    {
      MatchesAnswer(key, shape);
      var matches := Matches(key, shape);
      assert |env| > 0 ==> env[0] in env && Answers(key, shape, env[0]);
      assert matches != [] ==> matches[0] in matches && Answers(key, shape, matches[0]);
    }

    /** The variables a section answers to are marked with it, and no other mark
        changes. */
    ghost predicate MarkedRead(before: map<string, string>, after: map<string, string>, key: string, shape: Shape) {
      && (forall name :: name in after <==> name in before || Answers(key, shape, name))
      && (forall name | name in after :: after[name] == if Answers(key, shape, name) then key else before[name])
    }

    /** A claim that stops at the file or at a variable marks nothing. */
    ghost predicate MarkedAfter(
      before: map<string, string>, after: map<string, string>, key: string, shape: Shape, error: Option<ClaimError>)
    {
      if error.None? || error.value.BadOpt? then MarkedRead(before, after, key, shape) else after == before
    }
  }

  class Config {
    const d: Decoder
    /** How the text of an override reads as yaml. */
    const scalar: string -> Node
    const extra: map<string, Node>
    var claimed: set<string>
    var overrides: map<string, seq<Override>>
    var claimants: map<string, Settings>
    var environ: map<string, string>
    var envRead: map<string, string>
    var envNames: map<string, seq<string>>

    constructor (d: Decoder, scalar: string -> Node, extra: map<string, Node>)
      ensures this.d == d && this.scalar == scalar && this.extra == extra
      ensures claimed == {} && overrides == map[] && claimants == map[]
      ensures environ == map[] && envRead == map[] && envNames == map[]
    {
      this.d, this.scalar, this.extra := d, scalar, extra;
      claimed, overrides, claimants := {}, map[], map[];
      environ, envRead, envNames := map[], map[], map[];
    }

    function In(): Inputs
      reads this`environ, this`overrides
    {
      Inputs(d, scalar, extra, environ, overrides)
    }

    /** A section with overrides has at least one. */
    ghost predicate Valid()
      reads this`overrides
    {
      forall key | key in overrides :: overrides[key] != []
    }

    /** Recorded, and not applied. */
    method ReadEnv(entries: seq<string>)
      modifies this`environ
      ensures environ == EnteredAll(old(environ), entries)
    {
      for i := 0 to |entries|
        invariant environ == EnteredAll(old(environ), entries[..i])
      {
        assert entries[..i + 1][..i] == entries[..i];
        var cut := Cut(entries[i]);
        if cut.None? || !(PREFIX <= cut.value.0) {
          continue;
        }
        if exists j :: 0 <= j < |RESERVED| && RESERVED[j] <= cut.value.0 {
          continue;
        }
        environ := environ[cut.value.0 := cut.value.1];
      }
      assert entries[..|entries|] == entries;
    }

    /** One more override at the end of its section's list. */
    method Override(path: string, value: string) returns (ok: bool)
      requires Valid()
      modifies this`overrides
      ensures Valid()
      ensures ok <==> |Split(path, '.')| >= 2 && "" !in Split(path, '.')
      ensures !ok ==> overrides == old(overrides)
      ensures ok ==>
        var parts := Split(path, '.');
        var one := Documents.Override(parts[1..], value, path + "=" + value);
        var before := if parts[0] in old(overrides) then old(overrides[parts[0]]) else [];
        overrides == old(overrides)[parts[0] := before + [one]]
    {
      var parts := Split(path, '.');
      if |parts| < 2 {
        return false;
      }
      for i := 0 to |parts|
        invariant "" !in parts[..i]
      {
        if parts[i] == "" {
          return false;
        }
      }
      assert parts[..|parts|] == parts;
      var one := Documents.Override(parts[1..], value, path + "=" + value);
      overrides := overrides[parts[0] := In().OverridesOf(parts[0]) + [one]];
      return true;
    }

    // ---- claiming a section ----

    method RecordEnvNames(key: string, v: Settings)
      requires FitsAll(v.shape, v.vals) && Inlinable(v.shape)
      modifies this`envNames
      ensures envNames == old(envNames)[key := In().NamesOf(key, v.shape)]
    {
      var walk := new EnvWalk(SectionPrefix(key), d, None);
      var path := new string[0];
      RecordingNeverFails(walk.Says(), d, v.shape, |v.vals|, [], v.vals);
      var out, read, error := walk.WalkStruct(v.shape, v.vals, Slice(path, 0), [], []);
      assert [] + In().NamesOf(key, v.shape) == In().NamesOf(key, v.shape);
      envNames := envNames[key := walk.names];
    }

    method EnvMatches(key: string) returns (out: seq<string>)
      requires key in envNames
      ensures forall name :: name in out <==> name in envNames[key] && name in environ
    {
      out := [];
      var names := envNames[key];
      for i := 0 to |names|
        invariant forall name :: name in out <==> name in names[..i] && name in environ
      {
        assert names[..i + 1] == names[..i] + [names[i]];
        if names[i] in environ {
          out := out + [names[i]];
        }
      }
      assert names[..|names|] == names;
    }

    method ApplyEnv(key: string, v: Settings) returns (used: seq<string>, error: Option<ClaimError>)
      requires FitsAll(v.shape, v.vals) && Inlinable(v.shape)
      modifies v`vals
      ensures match Read(d, v.shape, Environment(SectionPrefix(key), environ), old(v.vals))
        case None => In().NamesFault(key, v.shape, old(v.vals), error)
        case Some(vals) =>
          error == None && v.vals == vals && forall name :: name in used <==> In().Answers(key, v.shape, name)
    {
      var walk := new EnvWalk(SectionPrefix(key), d, Some(environ));
      var path := new string[0];
      var out, read, failed := walk.WalkStruct(v.shape, v.vals, Slice(path, 0), [], []);
      if failed.Some? {
        return [], Some(BadEnv(failed.value));
      }
      v.vals := out;
      used, error := walk.names, None;
      In().MatchesAnswer(key, v.shape);
    }

    /** The decoder, over what is there. */
    method Decode(source: Source, v: Settings) returns (ok: bool)
      requires FitsAll(v.shape, v.vals)
      modifies v`vals
      ensures match Read(d, v.shape, source, old(v.vals)) case None => !ok case Some(vals) => ok && v.vals == vals
    {
      var read := Read(d, v.shape, source, v.vals);
      ok := read.Some?;
      if ok {
        v.vals := read.value;
      }
    }

    /** The overrides of a section, one at a time. */
    method ApplyOverrides(os: seq<Override>, v: Settings) returns (error: Option<ClaimError>)
      requires FitsAll(v.shape, v.vals)
      modifies v`vals
      ensures In().StopsAtOpt(v.shape, os, old(v.vals), error)
      ensures error.None? ==> Settled(d, v.shape, In().OptSources(os), old(v.vals)) == Some(v.vals)
    {
      ghost var all := In().OptSources(os);
      for i := 0 to |os|
        invariant FitsAll(v.shape, v.vals) && Settled(d, v.shape, all[..i], old(v.vals)) == Some(v.vals)
      {
        assert all[..i + 1] == all[..i] + [all[i]];
        SettledOneMore(d, v.shape, all[..i], old(v.vals), all[i]);
        var doc := Document(os[i], scalar);
        var ok := Decode(Opt(doc), v);
        if !ok {
          FailedStaysFailed(d, v.shape, all, i + 1, old(v.vals));
          assert In().FirstUnread(v.shape, os, old(v.vals), i);
          return Some(BadOpt(os[i].opt));
        }
      }
      assert all[..|os|] == all;
      return None;
    }

    /** Section: the options come to hold what every source leaves in them, or an
        error is reported; nothing is touched where nothing was said. What a claim
        reads of the config it never writes, so claiming again starts over. */
    method Section(key: string, v: Settings) returns (r: Claim)
      requires FitsAll(v.shape, v.vals) && Inlinable(v.shape)
      modifies this`claimants, this`claimed, this`envNames, this`envRead, v`vals
      ensures claimants == old(claimants)[key := v]
      ensures envNames == old(envNames)[key := In().NamesOf(key, v.shape)]
      ensures r.said <==> In().Said(key, v.shape)
      ensures claimed == old(claimed) + if r.said then {key} else {}
      ensures In().Stops(key, v.shape, old(v.vals), r.error)
      ensures r.error.None? <==> In().Settles(key, v.shape, old(v.vals)).Some?
      ensures r.error.None? ==> In().Settles(key, v.shape, old(v.vals)) == Some(v.vals)
      ensures In().MarkedAfter(old(envRead), envRead, key, v.shape, r.error)
    {
      claimants := claimants[key := v];
      RecordEnvNames(key, v);
      var env := EnvMatches(key);
      var overrides := In().OverridesOf(key);
      In().EnvSaysIff(key, v.shape, env);
      if key !in extra && |overrides| == 0 && |env| == 0 {
        return Claim(false, None);
      }
      claimed := claimed + {key};
      r := ReadSources(key, v, |env| > 0, overrides);
    }

    /** Everything past the first return of Section. */
    method ReadSources(key: string, v: Settings, env: bool, overrides: seq<Override>) returns (r: Claim)
      requires FitsAll(v.shape, v.vals) && Inlinable(v.shape)
      requires overrides == In().OverridesOf(key) && (env <==> In().EnvSource(key, v.shape) != [])
      modifies this`envRead, v`vals
      ensures r.said
      ensures In().Stops(key, v.shape, old(v.vals), r.error)
      ensures r.error.None? <==> In().Settles(key, v.shape, old(v.vals)).Some?
      ensures r.error.None? ==> In().Settles(key, v.shape, old(v.vals)) == Some(v.vals)
      ensures In().MarkedAfter(old(envRead), envRead, key, v.shape, r.error)
    {
      ghost var file, said, opts := In().FileSource(key), In().EnvSource(key, v.shape), In().OptSources(overrides);
      ghost var start := v.vals;
      ThreeParts(d, v.shape, file, said, opts, start);
      if key in extra {
        var ok := Decode(File(extra[key]), v);
        if !ok {
          return Claim(true, Some(BadFile));
        }
      }
      var error := ReadEnvironment(key, v, env);
      if error.Some? {
        return Claim(true, error);
      }
      error := ApplyOverrides(overrides, v);
      return Claim(true, error);
    }

    /** The environment, where it says anything. */
    method ReadEnvironment(key: string, v: Settings, env: bool) returns (error: Option<ClaimError>)
      requires FitsAll(v.shape, v.vals) && Inlinable(v.shape)
      requires env <==> In().EnvSource(key, v.shape) != []
      modifies this`envRead, v`vals
      ensures error.None? <==> Settled(d, v.shape, In().EnvSource(key, v.shape), old(v.vals)).Some?
      ensures error.Some? ==> In().NamesFault(key, v.shape, old(v.vals), error)
      ensures error.None? ==> Settled(d, v.shape, In().EnvSource(key, v.shape), old(v.vals)) == Some(v.vals)
      ensures error.None? ==> In().MarkedRead(old(envRead), envRead, key, v.shape)
      ensures error.Some? ==> envRead == old(envRead)
    {
      In().MatchesAnswer(key, v.shape);
      if !env {
        return None;
      }
      var used;
      used, error := ApplyEnv(key, v);
      assert In().EnvSource(key, v.shape)[..0] == [];
      if error.None? {
        MarkRead(key, used, v.shape);
      }
    }

    method MarkRead(key: string, used: seq<string>, ghost shape: Shape)
      requires forall name :: name in used <==> In().Answers(key, shape, name)
      modifies this`envRead
      ensures In().MarkedRead(old(envRead), envRead, key, shape)
    {
      for i := 0 to |used|
        invariant forall name :: name in envRead <==> name in old(envRead) || name in used[..i]
        invariant forall name | name in envRead ::
          envRead[name] == if name in used[..i] then key else old(envRead)[name]
      {
        assert used[..i + 1] == used[..i] + [used[i]];
        envRead := envRead[used[i] := key];
      }
      assert used[..|used|] == used;
    }

    // ---- what is left ----

    /** The sections nothing claimed. */
    method UnclaimedSections() returns (out: seq<string>)
      ensures StrictlySorted(out)
      ensures forall key :: key in out <==> (key in extra || key in overrides) && key !in claimed
    {
      out := SortedKeys((extra.Keys + overrides.Keys) - claimed);
    }

    method CheckUnclaimed() returns (ok: bool)
      ensures ok <==> forall key :: key in extra || key in overrides ==> key in claimed
    {
      var left := UnclaimedSections();
      ok := |left| == 0;
      if !ok {
        assert left[0] in left;
      }
    }

    /** The variables that were read, with the section each reached. */
    method EnvApplied() returns (out: seq<(string, string)>)
      ensures forall i, j :: 0 <= i < j < |out| ==> LexLe(out[i].0, out[j].0) && out[i].0 != out[j].0
      ensures forall s: (string, string) :: s in out <==> s.0 in envRead && envRead[s.0] == s.1
    {
      var names := SortedKeys(envRead.Keys);
      out := [];
      for i := 0 to |names|
        invariant |out| == i
        invariant forall j :: 0 <= j < i ==> names[j] in envRead && out[j] == (names[j], envRead[names[j]])
      {
        assert names[i] in names;
        out := out + [(names[i], envRead[names[i]])];
      }
      forall s: (string, string) | s.0 in envRead && envRead[s.0] == s.1 ensures s in out {
        assert s.0 in names;
        var j :| 0 <= j < |names| && names[j] == s.0;
        assert out[j] == s;
      }
    }

    /** The recorded variables nothing read. */
    method UnreadEnv() returns (out: seq<string>)
      ensures StrictlySorted(out)
      ensures forall name :: name in out <==> name in environ && name !in envRead
    {
      out := SortedKeys(environ.Keys - envRead.Keys);
    }
  }

  /** A stack read in three parts. */
  lemma ThreeParts(d: Decoder, shape: Shape, a: seq<Source>, b: seq<Source>, c: seq<Source>, vals: seq<Value>)
    requires FitsAll(shape, vals)
    ensures Settled(d, shape, a + b + c, vals) ==
      match Settled(d, shape, a, vals)
      case None => None
      case Some(x) => match Settled(d, shape, b, x) case None => None case Some(y) => Settled(d, shape, c, y)
  {
    SettledSplits(d, shape, a + b, c, vals);
    SettledSplits(d, shape, a, b, vals);
  }

  lemma {:induction false} SettledSplits(d: Decoder, shape: Shape, a: seq<Source>, b: seq<Source>, vals: seq<Value>)
    requires FitsAll(shape, vals)
    ensures Settled(d, shape, a + b, vals) ==
      match Settled(d, shape, a, vals) case None => None case Some(x) => Settled(d, shape, b, x)
  {
    if b == [] {
      assert a + b == a;
    } else {
      assert (a + b)[..|a + b| - 1] == a + b[..|b| - 1];
      SettledSplits(d, shape, a, b[..|b| - 1], vals);
    }
  }

  /** A walk that reads nothing finds nothing that does not fit. */
  lemma {:induction false} RecordingNeverFails(
    l: Layer, d: Decoder, shape: Shape, k: nat, path: seq<string>, vals: seq<Value>)
    requires FitsAll(shape, vals) && k <= |vals| && forall p :: l.leaf(p) == None
    ensures FaultTo(l, d, shape, k, path, vals) == None
    decreases shape, k
  {
    if k > 0 {
      RecordingNeverFails(l, d, shape, k - 1, path, vals);
      var f, v := shape.fields[k - 1], vals[k - 1];
      assert Fits(f.typ, v);
      if f.typ.Nested? {
        ZerosFit(d, f.typ.shape);
        var inner := if v.Nil? then Zeros(d, f.typ.shape) else v.fields;
        RecordingNeverFails(l, d, f.typ.shape, |f.typ.shape.fields|, f.Path(path), inner);
      }
    }
  }

  // ---- what a claim leaves ----

  /** Entry i is `name=value`, and the name is one that is tracked. */
  ghost predicate Spells(entries: seq<string>, name: string, i: int) {
    && 0 <= i < |entries| && '=' !in name && name + "=" <= entries[i]
    && "CALQUE_" <= name && !("CALQUE_REFERENCE_" <= name)
  }

  ghost predicate LastSpells(entries: seq<string>, name: string, i: int) {
    Spells(entries, name, i) && forall j :: i < j < |entries| ==> !Spells(entries, name, j)
  }

  lemma EnteredOne(environ: map<string, string>, entries: seq<string>, name: string, i: int)
    requires 0 <= i < |entries|
    ensures Spells(entries, name, i) ==>
      name in Entered(environ, entries[i]) && Entered(environ, entries[i])[name] == entries[i][|name| + 1..]
    ensures !Spells(entries, name, i) ==>
      && (name in Entered(environ, entries[i]) <==> name in environ)
      && (name in environ ==> Entered(environ, entries[i])[name] == environ[name])
  {
    CutSpells(entries[i], name);
    TrackedIff(name);
  }

  /** Of all the entries under one name, the last is the one recorded; and no name
      is recorded that is not tracked. */
  lemma {:induction false} LastEntryIsRecorded(entries: seq<string>, name: string)
    ensures name in EnteredAll(map[], entries) <==> exists i :: Spells(entries, name, i)
    ensures name in EnteredAll(map[], entries) ==>
      exists i :: LastSpells(entries, name, i) && EnteredAll(map[], entries)[name] == entries[i][|name| + 1..]
  {
    if entries != [] {
      var n := |entries| - 1;
      var before := EnteredAll(map[], entries[..n]);
      LastEntryIsRecorded(entries[..n], name);
      EnteredOne(before, entries, name, n);
      assert forall i :: 0 <= i < n ==> (Spells(entries[..n], name, i) <==> Spells(entries, name, i));
      if Spells(entries, name, n) {
        assert LastSpells(entries, name, n);
      } else if name in before {
        var i :| LastSpells(entries[..n], name, i) && before[name] == entries[..n][i][|name| + 1..];
        assert LastSpells(entries, name, i);
      }
    }
  }

  lemma {:induction false} LaterSourcesFirst(a: seq<Source>, b: seq<Source>, path: seq<string>)
    ensures LastSaying(a + b, path) == if LastSaying(b, path).Some? then LastSaying(b, path) else LastSaying(a, path)
  {
    if b == [] {
      assert a + b == a;
    } else {
      assert (a + b)[..|a + b| - 1] == a + b[..|b| - 1];
      LaterSourcesFirst(a, b[..|b| - 1], path);
    }
  }

  /** What the last override to say anything of a path says of it. */
  ghost function LastOverride(ins: Inputs, os: seq<Override>, path: seq<string>): Option<Input> {
    if os == [] then None
    else
      var o := os[|os| - 1];
      var node := Lookup(Nest(o.path, ins.scalar(o.value)), path);
      if node.Some? then Some(FileNode(node.value)) else LastOverride(ins, os[..|os| - 1], path)
  }

  lemma {:induction false} LastOverrideSays(ins: Inputs, os: seq<Override>, path: seq<string>)
    ensures LastSaying(ins.OptSources(os), path) == LastOverride(ins, os, path)
  {
    if os != [] {
      assert ins.OptSources(os)[..|os| - 1] == ins.OptSources(os[..|os| - 1]);
      LastOverrideSays(ins, os[..|os| - 1], path);
    }
  }

  /** What a section is told of a leaf: the last override to name it, or else its
      variable, or else the file. */
  ghost function Told(ins: Inputs, key: string, path: seq<string>): Option<Input>
  {
    var name := EnvKey(SectionPrefix(key), path);
    var override := LastOverride(ins, if key in ins.overrides then ins.overrides[key] else [], path);
    if override.Some? then override
    else if name in ins.environ then Some(EnvText(ins.environ[name]))
    else if key in ins.extra && Lookup(ins.extra[key], path).Some? then
      Some(FileNode(Lookup(ins.extra[key], path).value))
    else None
  }

  lemma FileSaying(ins: Inputs, key: string, path: seq<string>)
    ensures LastSaying(ins.FileSource(key), path) ==
      if key in ins.extra && Lookup(ins.extra[key], path).Some? then Some(FileNode(Lookup(ins.extra[key], path).value))
      else None
  {
    assert ins.FileSource(key) != [] ==> ins.FileSource(key)[..0] == [];
  }

  lemma EnvSaying(ins: Inputs, key: string, shape: Shape, w: seq<nat>)
    requires LeafAt(shape, w, []).Some?
    ensures var name := EnvKey(SectionPrefix(key), LeafAt(shape, w, []).value.0);
      LastSaying(ins.EnvSource(key, shape), LeafAt(shape, w, []).value.0) ==
        if name in ins.environ then Some(EnvText(ins.environ[name])) else None
  {
    var name := EnvKey(SectionPrefix(key), LeafAt(shape, w, []).value.0);
    NamesAreOfLeaves(SectionPrefix(key), shape);
    ins.MatchesAnswer(key, shape);
    assert name in ins.environ ==> name in ins.Matches(key, shape);
    assert ins.EnvSource(key, shape) != [] ==> ins.EnvSource(key, shape)[..0] == [];
  }

  lemma ToldIsLastSaying(ins: Inputs, key: string, shape: Shape, w: seq<nat>)
    requires LeafAt(shape, w, []).Some?
    ensures var path := LeafAt(shape, w, []).value.0; LastSaying(ins.Sources(key, shape), path) == Told(ins, key, path)
  {
    var path := LeafAt(shape, w, []).value.0;
    var file, env, opts := ins.FileSource(key), ins.EnvSource(key, shape), ins.OptSources(ins.OverridesOf(key));
    LaterSourcesFirst(file + env, opts, path);
    LaterSourcesFirst(file, env, path);
    LastOverrideSays(ins, ins.OverridesOf(key), path);
    FileSaying(ins, key, path);
    EnvSaying(ins, key, shape, w);
  }

  /** After a claim that succeeds, every leaf holds what the last override to name
      it says, else its variable, else the file, read into what the sources before
      that one left there; and where none does, what it held before. */
  lemma SectionLayers(ins: Inputs, key: string, shape: Shape, start: seq<Value>, w: seq<nat>)
    requires FitsAll(shape, start) && LeafAt(shape, w, []).Some?
    requires ins.Settles(key, shape, start).Some?
    ensures LastWins(ins.d, shape, ins.Sources(key, shape), start, w)
    ensures var path := LeafAt(shape, w, []).value.0; LastSaying(ins.Sources(key, shape), path) == Told(ins, key, path)
  {
    ToldIsLastSaying(ins, key, shape, w);
    EveryLeafIsLastSaid(ins.d, shape, ins.Sources(key, shape), start, w);
  }

  /** Claiming a section twice from the same start: the same answer, down to the
      error, the same options, and a config that shows one claim. */
  method ClaimTwice(c: Config, key: string, a: Settings, b: Settings) returns (first: Claim, second: Claim)
    requires a != b && a.shape == b.shape && a.vals == b.vals && FitsAll(a.shape, a.vals) && Inlinable(a.shape)
    modifies c`claimants, c`claimed, c`envNames, c`envRead, a`vals, b`vals
    ensures first == second
    ensures first.error.None? ==> a.vals == b.vals
    ensures c.claimed == old(c.claimed) + (if first.said then {key} else {})
    ensures c.envNames == old(c.envNames)[key := c.In().NamesOf(key, a.shape)]
    ensures first.error.None? ==> c.In().MarkedRead(old(c.envRead), c.envRead, key, a.shape)
  {
    ghost var ins, shape, start, before := c.In(), a.shape, a.vals, c.envRead;
    first := c.Section(key, a);
    ghost var marks := c.envRead;
    second := c.Section(key, b);
    ins.StopsOneWay(key, shape, start, first.error, second.error);
    if first.error.None? {
      MarkedTwice(ins, key, shape, before, marks, c.envRead);
    }
  }

  lemma MarkedTwice(
    ins: Inputs, key: string, shape: Shape, m0: map<string, string>, m1: map<string, string>, m2: map<string, string>)
    requires ins.MarkedRead(m0, m1, key, shape) && ins.MarkedRead(m1, m2, key, shape)
    ensures ins.MarkedRead(m0, m2, key, shape)
  {
  }
}
