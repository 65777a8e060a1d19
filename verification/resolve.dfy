/** Reading the config against what the binary knows, and configuring everything
    it names (gen/registry.go, gen/resolve.go). */
module Resolving {
  import opened Wrappers
  import opened Text
  import opened Options
  import opened Sections
  import opened Validate
  import Stored = Backend

  /** A section and what claims it: the options it starts from, the defaults it
      fills in once they are read, and whether what that comes to is accepted. */
  datatype Owner = Owner(
    name: string, shape: Shape, start: seq<Value>, defaults: seq<Value> -> seq<Value>, accepts: seq<Value> -> bool)
  {
    /** What the type system holds of an options struct. */
    predicate Typed() {
      FitsAll(shape, start) && Inlinable(shape)
    }
  }

  /** backends None is any. */
  datatype Target = Target(owner: Owner, storeless: bool, backends: Option<seq<string>>)

  /** What a backend is under the options its section comes to. */
  datatype Backend = Backend(owner: Owner, store: seq<Value> -> Stored.Store)

  datatype Entry = Entry(config: TargetConfig, target: Target, backend: Option<Backend>)
  {
    function Owners(): seq<Owner> {
      [target.owner] + if backend.Some? then [backend.value.owner] else []
    }
  }

  class Registry {
    var targets: map<string, Target>
    var backends: map<string, Backend>
    var errs: seq<string>

    ghost predicate Valid()
      reads this
    {
      && (forall name | name in targets :: targets[name].owner.name == name && targets[name].owner.Typed())
      && (forall name | name in backends :: backends[name].owner.name == name && backends[name].owner.Typed())
    }

    constructor ()
      ensures Valid() && targets == map[] && backends == map[] && errs == []
    {
      targets, backends, errs := map[], map[], [];
    }

    /** The first to take a name keeps it; a second is recorded. */
    method AddTarget(t: Target)
      requires Valid() && t.owner.Typed()
      modifies this
      ensures Valid() && backends == old(backends)
      ensures if t.owner.name in old(targets) then targets == old(targets) && errs == old(errs) + [t.owner.name]
              else targets == old(targets)[t.owner.name := t] && errs == old(errs)
    {
      if t.owner.name in targets {
        errs := errs + [t.owner.name];
      } else {
        targets := targets[t.owner.name := t];
      }
    }

    method AddBackend(b: Backend)
      requires Valid() && b.owner.Typed()
      modifies this
      ensures Valid() && targets == old(targets)
      ensures if b.owner.name in old(backends) then backends == old(backends) && errs == old(errs) + [b.owner.name]
              else backends == old(backends)[b.owner.name := b] && errs == old(errs)
    {
      if b.owner.name in backends {
        errs := errs + [b.owner.name];
      } else {
        backends := backends[b.owner.name := b];
      }
    }

    /** The entry the config names, where every name resolves and the pair goes
        together. A storeless target takes no backend, and no other goes without. */
    ghost predicate Pairs(t: TargetConfig, e: Entry)
      reads this
    {
      && t.target in targets && e.config == t && e.target == targets[t.target]
      && (if e.target.storeless then t.backend == "" && e.backend == None
          else
            && t.backend != "" && t.backend in backends && e.backend == Some(backends[t.backend])
            && (e.target.backends.None? || t.backend in e.target.backends.value))
    }

    method CheckPairing(t: Target, backend: string) returns (ok: bool)
      ensures ok <==> t.backends.None? || backend in t.backends.value
    {
      if t.backends.None? {
        return true;
      }
      var supported := t.backends.value;
      for i := 0 to |supported|
        invariant backend !in supported[..i]
      {
        if supported[i] == backend {
          return true;
        }
      }
      assert supported[..|supported|] == supported;
      return false;
    }

    method Plan(t: TargetConfig) returns (r: Option<Entry>)
      requires Valid()
      ensures r.Some? <==> exists e :: Pairs(t, e)
      ensures r.Some? ==> Pairs(t, r.value)
    {
      if t.target !in targets {
        return None;
      }
      var target := targets[t.target];
      if target.storeless {
        if t.backend != "" {
          return None;
        }
        r := Some(Entry(t, target, None));
        assert Pairs(t, r.value);
        return;
      }
      if t.backend == "" || t.backend !in backends {
        return None;
      }
      var paired := CheckPairing(target, t.backend);
      if !paired {
        return None;
      }
      r := Some(Entry(t, target, Some(backends[t.backend])));
      assert Pairs(t, r.value);
    }
  }

  /** Everything a plan configures, in the order it is configured. */
  function OwnersOf(plan: seq<Entry>): seq<Owner> {
    if plan == [] then [] else OwnersOf(plan[..|plan| - 1]) + plan[|plan| - 1].Owners()
  }

  /** The section's options settle, and what they come to is accepted. */
  ghost predicate Configures(ins: Inputs, o: Owner) {
    && o.Typed()
    && var settled := ins.Settles(o.name, o.shape, o.start);
    settled.Some? && o.accepts(o.defaults(settled.value))
  }

  /** The options an owner ends up with, if it configures. */
  ghost function Effective(ins: Inputs, o: Owner): Option<seq<Value>> {
    if Configures(ins, o) then Some(o.defaults(ins.Settles(o.name, o.shape, o.start).value)) else None
  }

  /** Configure, of a target or a backend: claim the section, then look at what it
      came to. */
  method Configure(cfg: Config, o: Owner) returns (r: Option<seq<Value>>)
    requires o.Typed()
    modifies cfg`claimants, cfg`claimed, cfg`envNames, cfg`envRead
    ensures r == Effective(cfg.In(), o)
    ensures r.Some? ==> cfg.claimed == old(cfg.claimed) + Claimed(cfg.In(), o)
    ensures r.Some? ==> cfg.envRead == Marked(old(cfg.envRead), cfg.In(), o)
  {
    ghost var before := cfg.envRead;
    var v := new Settings(o.shape, o.start);
    var claim := cfg.Section(o.name, v);
    r := None;
    if claim.error.None? {
      v.vals := o.defaults(v.vals);
      r := if o.accepts(v.vals) then Some(v.vals) else None;
    }
    cfg.In().MatchesAnswer(o.name, o.shape);
    if r.Some? {
      MarkedIs(before, cfg.envRead, cfg.In(), o);
    }
  }

  /** The section an owner claims, if anything was said of it. */
  ghost function Claimed(ins: Inputs, o: Owner): set<string> {
    if ins.Said(o.name, o.shape) then {o.name} else {}
  }

  /** The variables it reads. */
  ghost function Reads(ins: Inputs, o: Owner): set<string> {
    var matches := ins.Matches(o.name, o.shape);
    set name | name in matches
  }

  /** What was marked, with the variables it reads marked as its own. */
  ghost function Marked(marks: map<string, string>, ins: Inputs, o: Owner): map<string, string> {
    map name | name in marks.Keys + Reads(ins, o) :: if name in Reads(ins, o) then o.name else marks[name]
  }

  lemma MarkedIs(before: map<string, string>, after: map<string, string>, ins: Inputs, o: Owner)
    requires ins.MarkedRead(before, after, o.name, o.shape)
    ensures after == Marked(before, ins, o)
  {
    ins.MatchesAnswer(o.name, o.shape);
  }

  /** The variable is recorded, and the owner's section answers to it. */
  ghost predicate OwnerAnswers(ins: Inputs, o: Owner, name: string) {
    ins.Answers(o.name, o.shape, name)
  }

  lemma ReadsAreItsOwn(ins: Inputs, o: Owner, name: string)
    ensures name in Reads(ins, o) <==> OwnerAnswers(ins, o, name)
  {
    ins.MatchesAnswer(o.name, o.shape);
  }

  /** Some owner among the first k answers to the variable. */
  ghost predicate Answered(ins: Inputs, owners: seq<Owner>, k: nat, name: string)
    requires k <= |owners|
  {
    exists i {:trigger OwnerAnswers(ins, owners[i], name)} :: 0 <= i < k && OwnerAnswers(ins, owners[i], name)
  }

  ghost function ClaimsOf(ins: Inputs, owners: seq<Owner>, k: nat): set<string>
    requires k <= |owners|
  {
    if k == 0 then {} else ClaimsOf(ins, owners, k - 1) + Claimed(ins, owners[k - 1])
  }

  ghost function ReadsOf(ins: Inputs, owners: seq<Owner>, k: nat): map<string, string>
    requires k <= |owners|
  {
    if k == 0 then map[] else Marked(ReadsOf(ins, owners, k - 1), ins, owners[k - 1])
  }

  lemma {:induction false} ReadsAreAnswered(ins: Inputs, owners: seq<Owner>, k: nat, name: string)
    requires k <= |owners|
    ensures name in ReadsOf(ins, owners, k) <==> Answered(ins, owners, k, name)
  {
    if k > 0 {
      ReadsAreAnswered(ins, owners, k - 1, name);
      ReadsAreItsOwn(ins, owners[k - 1], name);
    }
  }

  /** A variable is marked with an owner that answers to it. */
  lemma {:induction false} MarksAreAnswering(ins: Inputs, owners: seq<Owner>, k: nat, name: string) returns (i: nat)
    requires k <= |owners| && name in ReadsOf(ins, owners, k)
    ensures i < k && OwnerAnswers(ins, owners[i], name) && ReadsOf(ins, owners, k)[name] == owners[i].name
  {
    ReadsAreItsOwn(ins, owners[k - 1], name);
    if OwnerAnswers(ins, owners[k - 1], name) {
      i := k - 1;
    } else {
      i := MarksAreAnswering(ins, owners, k - 1, name);
    }
  }

  /** A section with overrides has at least one. */
  ghost predicate NoEmptyOverrides(ins: Inputs) {
    forall key | key in ins.overrides :: ins.overrides[key] != []
  }

  lemma {:induction false} ClaimsAreOwned(ins: Inputs, owners: seq<Owner>, k: nat, key: string)
    requires k <= |owners| && NoEmptyOverrides(ins) && (key in ins.extra || key in ins.overrides)
    ensures key in ClaimsOf(ins, owners, k) <==> exists i :: 0 <= i < k && owners[i].name == key
  {
    if k > 0 {
      ClaimsAreOwned(ins, owners, k - 1, key);
    }
  }

  ghost predicate AllTyped(owners: seq<Owner>) {
    forall i {:trigger owners[i].Typed()} :: 0 <= i < |owners| ==> owners[i].Typed()
  }

  /** Everything a plan names configures. */
  ghost predicate AllConfigure(ins: Inputs, owners: seq<Owner>) {
    forall i {:trigger Configures(ins, owners[i])} :: 0 <= i < |owners| ==> Configures(ins, owners[i])
  }

  /** vals is what each of them ends up with. */
  ghost predicate AllEffective(ins: Inputs, owners: seq<Owner>, vals: seq<seq<Value>>) {
    && |vals| == |owners|
    && forall i {:trigger Effective(ins, owners[i])} :: 0 <= i < |owners| ==> Effective(ins, owners[i]) == Some(vals[i])
  }

  /** verdict says of each owner what it ends up with. The loop over the owners is
      proved about verdict, so that what settling takes stays out of its proof. */
  ghost predicate Judges(verdict: Owner -> Option<seq<Value>>, ins: Inputs) {
    forall o {:trigger Effective(ins, o)} :: verdict(o) == Effective(ins, o)
  }

  /** The first k owners have claimed what is theirs and read what they answer to. */
  ghost predicate Tallies(cfg: Config, ins: Inputs, owners: seq<Owner>, k: nat)
    requires k <= |owners|
    reads cfg`environ, cfg`overrides, cfg`claimed, cfg`envRead
  {
    cfg.In() == ins && cfg.claimed == ClaimsOf(ins, owners, k) && cfg.envRead == ReadsOf(ins, owners, k)
  }

  /** The quantifier keeps what they have claimed and read out of the loop. */
  ghost predicate TalliedTo(cfg: Config, ins: Inputs, owners: seq<Owner>, k: nat)
    reads cfg`environ, cfg`overrides, cfg`claimed, cfg`envRead
  {
    forall x: nat {:trigger Tallies(cfg, ins, owners, x)} | x == k && x <= |owners| :: Tallies(cfg, ins, owners, x)
  }

  method ConfigureOne(
    cfg: Config, owners: seq<Owner>, k: nat, ghost ins: Inputs, ghost verdict: Owner -> Option<seq<Value>>)
    returns (r: Option<seq<Value>>)
    requires k < |owners| && AllTyped(owners) && Judges(verdict, ins) && Tallies(cfg, ins, owners, k)
    modifies cfg`claimants, cfg`claimed, cfg`envNames, cfg`envRead
    ensures r == verdict(owners[k])
    ensures r.Some? ==> Tallies(cfg, ins, owners, k + 1)
  {
    assert owners[k].Typed();
    r := Configure(cfg, owners[k]);
  }

  method ConfigureNext(
    cfg: Config, owners: seq<Owner>, k: nat, ghost ins: Inputs, ghost verdict: Owner -> Option<seq<Value>>)
    returns (r: Option<seq<Value>>)
    requires k < |owners| && AllTyped(owners) && Judges(verdict, ins) && TalliedTo(cfg, ins, owners, k)
    modifies cfg`claimants, cfg`claimed, cfg`envNames, cfg`envRead
    ensures r == verdict(owners[k])
    ensures r.Some? ==> TalliedTo(cfg, ins, owners, k + 1)
  {
    assert Tallies(cfg, ins, owners, k);
    r := ConfigureOne(cfg, owners, k, ins, verdict);
  }

  /** Every owner in turn, from a config nothing has claimed from. */
  method ConfigureAll(cfg: Config, owners: seq<Owner>, ghost ins: Inputs, ghost verdict: Owner -> Option<seq<Value>>)
    returns (r: Option<seq<seq<Value>>>)
    requires AllTyped(owners) && Judges(verdict, ins) && TalliedTo(cfg, ins, owners, 0)
    modifies cfg`claimants, cfg`claimed, cfg`envNames, cfg`envRead
    ensures r.None? ==> exists i :: 0 <= i < |owners| && verdict(owners[i]).None?
    ensures r.Some? ==> |r.value| == |owners| && forall i :: 0 <= i < |owners| ==>
      verdict(owners[i]) == Some(r.value[i])
    ensures r.Some? ==> TalliedTo(cfg, ins, owners, |owners|)
  {
    var all := [];
    for i := 0 to |owners|
      invariant |all| == i && forall j :: 0 <= j < i ==> verdict(owners[j]) == Some(all[j])
      invariant TalliedTo(cfg, ins, owners, i)
    {
      var one := ConfigureNext(cfg, owners, i, ins, verdict);
      if one.None? {
        return None;
      }
      all := all + [one.value];
    }
    return Some(all);
  }

  // ---- the whole of it ----

  ghost predicate PlanFor(r: Registry, targets: seq<TargetConfig>, plan: seq<Entry>)
    reads r
  {
    |plan| == |targets| && forall i {:trigger plan[i]} :: 0 <= i < |plan| ==> r.Pairs(targets[i], plan[i])
  }

  /** Every section of the file and every section an override names belongs to
      something the plan configures. */
  ghost predicate AllOwned(ins: Inputs, owners: seq<Owner>) {
    forall key | key in ins.extra || key in ins.overrides :: exists i :: 0 <= i < |owners| && owners[i].name == key
  }

  method PlanAll(r: Registry, targets: seq<TargetConfig>) returns (plan: Option<seq<Entry>>)
    requires r.Valid()
    ensures plan.Some? <==> forall t | t in targets :: exists e :: r.Pairs(t, e)
    ensures plan.Some? ==> PlanFor(r, targets, plan.value)
  {
    var out := [];
    for i := 0 to |targets|
      invariant PlanFor(r, targets[..i], out)
    {
      assert targets[i] in targets;
      var one := r.Plan(targets[i]);
      if one.None? {
        return None;
      }
      assert r.Pairs(targets[i], one.value);
      assert forall j :: 0 <= j < i ==> targets[j] == targets[..i + 1][j];
      out := out + [one.value];
    }
    assert targets[..|targets|] == targets;
    forall t | t in targets ensures exists e :: r.Pairs(t, e) {
      var i :| 0 <= i < |targets| && targets[i] == t;
      assert r.Pairs(t, out[i]);
    }
    return Some(out);
  }

  lemma {:induction false} PlannedAreTyped(r: Registry, targets: seq<TargetConfig>, plan: seq<Entry>)
    requires r.Valid() && PlanFor(r, targets, plan)
    ensures AllTyped(OwnersOf(plan))
  {
    if plan != [] {
      var n := |plan| - 1;
      assert r.Pairs(targets[n], plan[n]);
      PlannedAreTyped(r, targets[..n], plan[..n]);
    }
  }

  /** With every name claimed by its owner, what is unclaimed is what is unowned. */
  lemma UnclaimedIsUnowned(ins: Inputs, owners: seq<Owner>)
    requires NoEmptyOverrides(ins)
    ensures (forall key :: key in ins.extra || key in ins.overrides ==> key in ClaimsOf(ins, owners, |owners|)) <==>
      AllOwned(ins, owners)
  {
    forall key | key in ins.extra || key in ins.overrides
      ensures key in ClaimsOf(ins, owners, |owners|) <==> exists i :: 0 <= i < |owners| && owners[i].name == key
    {
      ClaimsAreOwned(ins, owners, |owners|, key);
    }
  }

  /** The one plan there is, if everything it needs is there; None when nothing is. */
  ghost predicate Resolves(r: Registry, targets: seq<TargetConfig>, ins: Inputs, plan: Option<seq<Entry>>)
    reads r
  {
    match plan
    case Some(p) => r.errs == [] && targets != [] && PlanFor(r, targets, p) && Serves(ins, p)
    case None =>
      || r.errs != [] || targets == [] || !PlanExists(r, targets)
      || forall p | PlanFor(r, targets, p) :: !Serves(ins, p)
  }

  /** Both of an entry's sections configure, its target's and its backend's. */
  ghost predicate EntryConfigures(ins: Inputs, e: Entry) {
    Configures(ins, e.target.owner) && (e.backend.Some? ==> Configures(ins, e.backend.value.owner))
  }

  /** Some entry's target or backend goes by that name. */
  ghost predicate Belongs(plan: seq<Entry>, key: string) {
    exists i :: 0 <= i < |plan| && EntryNames(plan[i], key)
  }

  ghost predicate EntryNames(e: Entry, key: string) {
    e.target.owner.name == key || (e.backend.Some? && e.backend.value.owner.name == key)
  }

  /** The target or the backend of an entry answers to the variable, under that
      section. */
  ghost predicate EntryAnswers(ins: Inputs, e: Entry, name: string, section: string) {
    || (e.target.owner.name == section && OwnerAnswers(ins, e.target.owner, name))
    || (e.backend.Some? && e.backend.value.owner.name == section && OwnerAnswers(ins, e.backend.value.owner, name))
  }

  /** The variable is one that the section, of some entry of the plan, answers to. */
  ghost predicate PlanAnswers(ins: Inputs, plan: seq<Entry>, name: string, section: string) {
    exists i :: 0 <= i < |plan| && EntryAnswers(ins, plan[i], name, section)
  }

  /** Every entry configures, and no section is left over that belongs to none. */
  ghost predicate Serves(ins: Inputs, plan: seq<Entry>) {
    && (forall i {:trigger plan[i]} :: 0 <= i < |plan| ==> EntryConfigures(ins, plan[i]))
    && (forall key | key in ins.extra || key in ins.overrides :: Belongs(plan, key))
  }

  // ---- the owners of a plan are those of its entries ----

  lemma {:induction false} OwnerHasEntry(plan: seq<Entry>, k: nat) returns (i: nat)
    requires k < |OwnersOf(plan)|
    ensures i < |plan|
    ensures OwnersOf(plan)[k] == plan[i].target.owner
         || (plan[i].backend.Some? && OwnersOf(plan)[k] == plan[i].backend.value.owner)
  {
    var n := |plan| - 1;
    if k < |OwnersOf(plan[..n])| {
      i := OwnerHasEntry(plan[..n], k);
    } else {
      i := n;
    }
  }

  lemma {:induction false} EntryHasOwners(plan: seq<Entry>, i: nat) returns (k: nat)
    requires i < |plan|
    ensures k < |OwnersOf(plan)| && OwnersOf(plan)[k] == plan[i].target.owner
    ensures plan[i].backend.Some? ==> k + 1 < |OwnersOf(plan)| && OwnersOf(plan)[k + 1] == plan[i].backend.value.owner
  {
    var n := |plan| - 1;
    if i < n {
      k := EntryHasOwners(plan[..n], i);
    } else {
      k := |OwnersOf(plan[..n])|;
    }
  }

  lemma ServesByOwners(ins: Inputs, plan: seq<Entry>)
    ensures Serves(ins, plan) <==> AllConfigure(ins, OwnersOf(plan)) && AllOwned(ins, OwnersOf(plan))
  {
    ConfiguresByOwners(ins, plan);
    forall key ensures Belongs(plan, key) <==> exists k :: 0 <= k < |OwnersOf(plan)| && OwnersOf(plan)[k].name == key {
      BelongsByOwners(plan, key);
    }
  }

  lemma ConfiguresByOwners(ins: Inputs, plan: seq<Entry>)
    ensures (forall i {:trigger plan[i]} :: 0 <= i < |plan| ==> EntryConfigures(ins, plan[i])) <==>
      AllConfigure(ins, OwnersOf(plan))
  {
    var owners := OwnersOf(plan);
    if AllConfigure(ins, owners) {
      forall i | 0 <= i < |plan| ensures EntryConfigures(ins, plan[i]) {
        var k := EntryHasOwners(plan, i);
        assert Configures(ins, owners[k]);
        assert plan[i].backend.Some? ==> Configures(ins, owners[k + 1]);
      }
    }
    if forall i {:trigger plan[i]} :: 0 <= i < |plan| ==> EntryConfigures(ins, plan[i]) {
      forall k | 0 <= k < |owners| ensures Configures(ins, owners[k]) {
        var i := OwnerHasEntry(plan, k);
        assert EntryConfigures(ins, plan[i]);
      }
    }
  }

  lemma BelongsByOwners(plan: seq<Entry>, key: string)
    ensures Belongs(plan, key) <==> exists k :: 0 <= k < |OwnersOf(plan)| && OwnersOf(plan)[k].name == key
  {
    if i :| 0 <= i < |plan| && EntryNames(plan[i], key) {
      var k := EntryHasOwners(plan, i);
      assert OwnersOf(plan)[k].name == key || OwnersOf(plan)[k + 1].name == key;
    }
    if k :| 0 <= k < |OwnersOf(plan)| && OwnersOf(plan)[k].name == key {
      var i := OwnerHasEntry(plan, k);
    }
  }

  lemma AnswersByOwners(ins: Inputs, plan: seq<Entry>, name: string, section: string)
    ensures var owners := OwnersOf(plan);
      PlanAnswers(ins, plan, name, section) <==>
        exists k :: 0 <= k < |owners| && owners[k].name == section && OwnerAnswers(ins, owners[k], name)
  {
    var owners := OwnersOf(plan);
    if i :| 0 <= i < |plan| && EntryAnswers(ins, plan[i], name, section) {
      var k := EntryHasOwners(plan, i);
      assert (owners[k].name == section && OwnerAnswers(ins, owners[k], name))
        || (owners[k + 1].name == section && OwnerAnswers(ins, owners[k + 1], name));
    }
    if k :| 0 <= k < |owners| && owners[k].name == section && OwnerAnswers(ins, owners[k], name) {
      var i := OwnerHasEntry(plan, k);
      assert EntryAnswers(ins, plan[i], name, section);
    }
  }

  /** Every variable that was read is marked with a section of the plan that answers
      to it, and every variable that one answers to was read. */
  ghost predicate ReadsAreOf(ins: Inputs, plan: seq<Entry>, marks: map<string, string>) {
    && (forall name | name in marks :: PlanAnswers(ins, plan, name, marks[name]))
    && (forall name, section | PlanAnswers(ins, plan, name, section) :: name in marks)
  }

  lemma ReadsAreOfPlan(ins: Inputs, plan: seq<Entry>)
    ensures ReadsAreOf(ins, plan, ReadsOf(ins, OwnersOf(plan), |OwnersOf(plan)|))
  {
    var owners := OwnersOf(plan);
    var n, marks := |owners|, ReadsOf(ins, owners, |owners|);
    forall name | name in marks ensures PlanAnswers(ins, plan, name, marks[name]) {
      var i := MarksAreAnswering(ins, owners, n, name);
      AnswersByOwners(ins, plan, name, marks[name]);
    }
    forall name, section | PlanAnswers(ins, plan, name, section) ensures name in marks {
      AnswersByOwners(ins, plan, name, section);
      ReadsAreAnswered(ins, owners, n, name);
    }
  }

  /** The sections of a plan: all of them in turn, and then whether any is left. */
  method Settle(cfg: Config, plan: seq<Entry>) returns (vals: Option<seq<seq<Value>>>)
    requires cfg.Valid() && cfg.claimed == {} && cfg.envRead == map[] && AllTyped(OwnersOf(plan))
    modifies cfg`claimants, cfg`claimed, cfg`envNames, cfg`envRead
    ensures vals.Some? <==> Serves(cfg.In(), plan)
    ensures vals.Some? ==> AllEffective(cfg.In(), OwnersOf(plan), vals.value)
    ensures vals.Some? ==> ReadsAreOf(cfg.In(), plan, cfg.envRead)
  {
    var owners := OwnersOf(plan);
    ghost var ins := cfg.In();
    ghost var verdict := (o: Owner) => Effective(ins, o);
    var all := ConfigureAll(cfg, owners, ins, verdict);
    ServesByOwners(ins, plan);
    if all.None? {
      assert !AllConfigure(ins, owners);
      return None;
    }
    assert Tallies(cfg, ins, owners, |owners|);
    EffectiveConfigures(ins, owners, all.value);
    UnclaimedIsUnowned(ins, owners);
    ReadsAreOfPlan(ins, plan);
    var none := cfg.CheckUnclaimed();
    return if none then all else None;
  }

  /** Resolve succeeds exactly when the binary is sound, there is something to
      generate, every name resolves and every pair goes together, every entry's
      target and backend configure, and no section of the file or the command line
      is left that belongs to neither of any. Afterwards the variables that were read
      are exactly those such a section answers to, each marked with one that does. */
  method Resolve(
    cfg: Config, targets: seq<TargetConfig>, r: Registry) returns (plan: Option<seq<Entry>>, vals: seq<seq<Value>>)
    requires r.Valid() && cfg.Valid() && cfg.claimed == {} && cfg.envRead == map[]
    modifies cfg`claimants, cfg`claimed, cfg`envNames, cfg`envRead
    ensures Resolves(r, targets, cfg.In(), plan)
    ensures plan.Some? ==> AllEffective(cfg.In(), OwnersOf(plan.value), vals)
    ensures plan.Some? ==> ReadsAreOf(cfg.In(), plan.value, cfg.envRead)
  {
    if |r.errs| > 0 || |targets| == 0 {
      return None, [];
    }
    var planned := PlanAll(r, targets);
    if planned.None? {
      return None, [];
    }
    PlannedAreTyped(r, targets, planned.value);
    forall p | PlanFor(r, targets, p) ensures p == planned.value {
      PlanIsUnique(r, targets, p, planned.value);
    }
    var settled := Settle(cfg, planned.value);
    if settled.None? {
      return None, [];
    }
    return planned, settled.value;
  }

  lemma EffectiveConfigures(ins: Inputs, owners: seq<Owner>, vals: seq<seq<Value>>)
    requires AllEffective(ins, owners, vals)
    ensures AllConfigure(ins, owners)
  {
    forall i | 0 <= i < |owners| ensures Configures(ins, owners[i]) {
      assert Effective(ins, owners[i]).Some?;
    }
  }

  // ---- the stores of a plan ----

  /** The store an entry is generated for: its backend under the options that its
      own section came to. */
  ghost function StoreFor(ins: Inputs, e: Entry): Option<Stored.Store> {
    if e.backend.None? || Effective(ins, e.backend.value.owner).None? then None
    else Some(e.backend.value.store(Effective(ins, e.backend.value.owner).value))
  }

  ghost function StoresFor(ins: Inputs, plan: seq<Entry>): (stores: seq<Option<Stored.Store>>)
    ensures |stores| == |plan|
  {
    if plan == [] then [] else StoresFor(ins, plan[..|plan| - 1]) + [StoreFor(ins, plan[|plan| - 1])]
  }

  lemma {:induction false} StoresAt(ins: Inputs, plan: seq<Entry>, i: nat)
    requires i < |plan|
    ensures StoresFor(ins, plan)[i] == StoreFor(ins, plan[i])
  {
    if i < |plan| - 1 {
      StoresAt(ins, plan[..|plan| - 1], i);
    }
  }

  /** The same, from the options each owner of the plan ended up with. */
  function StoresOf(plan: seq<Entry>, vals: seq<seq<Value>>): (stores: seq<Option<Stored.Store>>)
    requires |vals| == |OwnersOf(plan)|
    ensures |stores| == |plan|
  {
    if plan == [] then []
    else
      var last := plan[|plan| - 1];
      StoresOf(plan[..|plan| - 1], vals[..|vals| - |last.Owners()|])
      + [if last.backend.None? then None else Some(last.backend.value.store(vals[|vals| - 1]))]
  }

  lemma EffectiveSplits(ins: Inputs, a: seq<Owner>, b: seq<Owner>, vals: seq<seq<Value>>)
    requires AllEffective(ins, a + b, vals)
    ensures AllEffective(ins, a, vals[..|a|]) && AllEffective(ins, b, vals[|a|..])
  {
    forall i | 0 <= i < |a| ensures Effective(ins, a[i]) == Some(vals[..|a|][i]) {
      assert Effective(ins, (a + b)[i]) == Some(vals[i]);
    }
    forall i | 0 <= i < |b| ensures Effective(ins, b[i]) == Some(vals[|a|..][i]) {
      assert Effective(ins, (a + b)[|a| + i]) == Some(vals[|a| + i]);
    }
  }

  lemma LastIsSettled(ins: Inputs, e: Entry, vals: seq<seq<Value>>)
    requires AllEffective(ins, e.Owners(), vals)
    ensures StoreFor(ins, e) == if e.backend.None? then None else Some(e.backend.value.store(vals[|vals| - 1]))
  {
    if e.backend.Some? {
      assert Effective(ins, e.Owners()[1]) == Some(vals[1]);
    }
  }

  lemma {:induction false} StoresAreSettled(ins: Inputs, plan: seq<Entry>, vals: seq<seq<Value>>)
    requires AllEffective(ins, OwnersOf(plan), vals)
    ensures StoresOf(plan, vals) == StoresFor(ins, plan)
  {
    if plan != [] {
      var n := |plan| - 1;
      var init := OwnersOf(plan[..n]);
      EffectiveSplits(ins, init, plan[n].Owners(), vals);
      StoresAreSettled(ins, plan[..n], vals[..|init|]);
      LastIsSettled(ins, plan[n], vals[|init|..]);
    }
  }

  ghost predicate PlanExists(r: Registry, targets: seq<TargetConfig>)
    reads r
  {
    forall t | t in targets :: exists e :: r.Pairs(t, e)
  }

  lemma PlanIsUnique(r: Registry, targets: seq<TargetConfig>, p: seq<Entry>, q: seq<Entry>)
    requires PlanFor(r, targets, p) && PlanFor(r, targets, q)
    ensures p == q
  {
    forall i | 0 <= i < |p| ensures p[i] == q[i] {
      assert r.Pairs(targets[i], p[i]) && r.Pairs(targets[i], q[i]);
    }
  }

  /** What is said of the environment after a run resolves: every recorded variable
      is either one that was applied, with the section it reached, or one nothing
      reads, and never both; the applied ones are those some section of the plan
      answers to, each with one that does. */
  method ReportEnv(cfg: Config, ghost plan: seq<Entry>) returns (applied: seq<(string, string)>, unread: seq<string>)
    requires ReadsAreOf(cfg.In(), plan, cfg.envRead)
    ensures forall name :: name in cfg.environ <==>
      name in unread || exists s: (string, string) :: s in applied && s.0 == name
    ensures forall s: (string, string) :: s in applied ==> s.0 !in unread && PlanAnswers(cfg.In(), plan, s.0, s.1)
    ensures forall name, section :: name in unread ==> !PlanAnswers(cfg.In(), plan, name, section)
    ensures StrictlySorted(unread)
  {
    applied := cfg.EnvApplied();
    unread := cfg.UnreadEnv();
    forall name
      ensures name in cfg.environ <==> name in unread || exists s: (string, string) :: s in applied && s.0 == name
    {
      if name in cfg.envRead {
        assert (name, cfg.envRead[name]) in applied;
        assert PlanAnswers(cfg.In(), plan, name, cfg.envRead[name]);
      }
    }
  }
}
