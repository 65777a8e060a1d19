/** The loop over what the config asks for: check, lower, emit, and record
    (gen/run.go). */
module Running {
  import opened Wrappers
  import opened Sorting
  import opened Model
  import opened Wiring
  import opened Builder
  import opened Accepted
  import opened Backend
  import opened Capability
  import opened Lower
  import opened Output
  import opened Validate
  import Resolving
  import Sections

  // ---- a schema nobody touches needs what it needed ----

  /** Nothing a check of the prop reads has changed. */
  twostate predicate Still(p: Prop)
    reads *
  {
    p.EdgeProp? ==> unchanged(p.edge) && (p.edge.target != null ==> unchanged(p.edge.target))
  }

  twostate predicate IndexStill(idx: Index)
    reads *
  {
    && unchanged(idx) && (idx.parent != null ==> unchanged(idx.parent))
    && forall i {:trigger Still(idx.props[i])} :: 0 <= i < |idx.props| ==> Still(idx.props[i])
  }

  twostate predicate EntityStill(e: Entity)
    reads *
  {
    && unchanged(e)
    && (forall i {:trigger IndexStill(e.spec.indexes[i])} :: 0 <= i < |e.spec.indexes| ==>
          IndexStill(e.spec.indexes[i]))
    && (forall i {:trigger Still(e.props[i])} :: 0 <= i < |e.props| ==> Still(e.props[i]))
  }

  twostate lemma {:induction false} MembersSame(props: seq<Prop>, new where: string)
    requires forall i {:trigger Still(props[i])} :: 0 <= i < |props| ==> Still(props[i])
    ensures MembersFound(props, where) == old(MembersFound(props, where))
  {
    if props != [] {
      var n := |props| - 1;
      forall i | 0 <= i < n ensures Still(props[..n][i]) {
        assert Still(props[i]);
      }
      MembersSame(props[..n], where);
      assert Still(props[n]);
    }
  }

  twostate lemma IndexSame(idx: Index, new caps: Capabilities, new at: string)
    requires IndexStill(idx)
    ensures IndexFound(idx, caps, at) == old(IndexFound(idx, caps, at))
  {
    MembersSame(idx.props, IndexWhere(at, idx));
  }

  twostate lemma {:induction false} IndexesSame(indexes: seq<Index>, new caps: Capabilities, new at: string)
    requires forall i {:trigger IndexStill(indexes[i])} :: 0 <= i < |indexes| ==> IndexStill(indexes[i])
    ensures IndexesFound(indexes, caps, at) == old(IndexesFound(indexes, caps, at))
  {
    if indexes != [] {
      var n := |indexes| - 1;
      forall i | 0 <= i < n ensures IndexStill(indexes[..n][i]) {
        assert IndexStill(indexes[i]);
      }
      IndexesSame(indexes[..n], caps, at);
      assert IndexStill(indexes[n]);
      IndexSame(indexes[n], caps, at);
    }
  }

  twostate lemma {:induction false} PropsSame(props: seq<Prop>, new caps: Capabilities, new at: string)
    requires forall i {:trigger Still(props[i])} :: 0 <= i < |props| ==> Still(props[i])
    ensures PropsFound(props, caps, at) == old(PropsFound(props, caps, at))
  {
    if props != [] {
      var n := |props| - 1;
      forall i | 0 <= i < n ensures Still(props[..n][i]) {
        assert Still(props[i]);
      }
      PropsSame(props[..n], caps, at);
      assert Still(props[n]);
    }
  }

  twostate lemma EntitySame(e: Entity, new caps: Capabilities)
    requires EntityStill(e)
    ensures EntityFound(e, caps) == old(EntityFound(e, caps))
  {
    IndexesSame(e.spec.indexes, caps, e.spec.fullName);
    PropsSame(e.props, caps, e.spec.fullName);
  }

  twostate lemma {:induction false} SchemaSame(es: seq<Entity>, new caps: Capabilities)
    requires forall i {:trigger EntityStill(es[i])} :: 0 <= i < |es| ==> EntityStill(es[i])
    ensures SchemaFound(es, caps) == old(SchemaFound(es, caps))
  {
    if es != [] {
      var n := |es| - 1;
      forall i | 0 <= i < n ensures EntityStill(es[..n][i]) {
        assert EntityStill(es[i]);
      }
      SchemaSame(es[..n], caps);
      assert EntityStill(es[n]);
      EntitySame(es[n], caps);
    }
  }

  twostate predicate Untouched(es: seq<Entity>)
    reads World(es)
  {
    unchanged(World(es))
  }

  twostate lemma PropIsStill(es: seq<Entity>, new e: Entity, new p: Prop)
    requires AcceptedSchema(es) && Untouched(es) && e in es && p in e.props
    ensures old(allocated(p)) && Still(p)
  {
    if p.EdgeProp? {
      EntityIsWired(es, e);
      PropsHaveEdges(e, p.edge);
      InverseIsNamed(es, p.edge);
      assert p.edge in World(es) && p.edge.target in World(es);
    }
    assert e in World(es);
  }

  twostate lemma IndexIsStill(es: seq<Entity>, new e: Entity, new k: nat)
    requires AcceptedSchema(es) && Untouched(es) && e in es && k < |e.spec.indexes|
    ensures IndexStill(e.spec.indexes[k])
  {
    var idx := e.spec.indexes[k];
    assert idx in e.spec.indexes && e in World(es);
    assert idx in World(es) by {
      assert idx in IndexesIn(es);
    }
    IndexesAreNamed(es, e, idx);
    forall j | 0 <= j < |idx.props| ensures Still(idx.props[j]) {
      PropIsStill(es, e, idx.props[j]);
    }
  }

  twostate lemma EntityIsStill(es: seq<Entity>, new e: Entity)
    requires AcceptedSchema(es) && Untouched(es) && e in es
    ensures EntityStill(e)
  {
    assert e in World(es);
    forall i | 0 <= i < |e.props| ensures Still(e.props[i]) {
      PropIsStill(es, e, e.props[i]);
    }
    forall i | 0 <= i < |e.spec.indexes| ensures IndexStill(e.spec.indexes[i]) {
      IndexIsStill(es, e, i);
    }
  }

  // ---- one entry ----

  datatype File = File(name: string, body: string)

  /** An entry of the plan with what its target answered: the files, or None for
      its error, and whether it complained of the schema. */
  datatype Job = Job(config: TargetConfig, backend: Option<Store>, files: Option<seq<File>>, complains: bool)

  datatype RunError =
    | Unresolved
    | Refused(who: string, shortfalls: seq<Shortfall>)
    | NotLowered(who: string)
    | NotEmitted(who: string)
    | NotAdded(who: string, why: AddError)
    | Complaints

  /** Everything the store cannot hold is something the backend will live with. */
  ghost predicate Tolerated(es: seq<Entity>, b: Store)
    reads *
  {
    var found := SchemaFound(es, b.Caps());
    forall i :: 0 <= i < |found| ==> Tolerates(b, found[i])
  }

  ghost predicate Passes(es: seq<Entity>, job: Job)
    reads *
  {
    (job.backend.Some? ==> Tolerated(es, job.backend.value) && Keyed(es)) && job.files.Some?
  }

  /** What an entry is called in a report. */
  ghost function Called(c: TargetConfig): string {
    if c.name == "" then c.target else c.name
  }

  /** Why an entry does not pass, if it does not: everything its backend will not live
      with, in the order it was found, or else an entity without a key, or else its
      own target. */
  ghost function VerdictOf(es: seq<Entity>, job: Job): Option<RunError>
    reads *
  {
    if job.backend.Some? && !Tolerated(es, job.backend.value) then
      var b := job.backend.value;
      Some(Refused(Called(job.config), RefusedOf(b, SchemaFound(es, b.Caps()))))
    else if job.backend.Some? && !Keyed(es) then Some(NotLowered(Called(job.config)))
    else if job.files.None? then Some(NotEmitted(Called(job.config)))
    else None
  }

  lemma PassesIff(es: seq<Entity>, job: Job)
    ensures VerdictOf(es, job).None? <==> Passes(es, job)
  {
  }

  twostate predicate AllStill(es: seq<Entity>)
    reads *
  {
    forall i {:trigger EntityStill(es[i])} :: 0 <= i < |es| ==> EntityStill(es[i])
  }

  twostate lemma SchemaIsStill(es: seq<Entity>)
    requires AcceptedSchema(es) && Untouched(es)
    ensures AllStill(es)
  {
    forall i | 0 <= i < |es| ensures EntityStill(es[i]) {
      EntityIsStill(es, es[i]);
    }
  }

  twostate lemma VerdictSame(es: seq<Entity>, new job: Job)
    requires AllStill(es)
    ensures VerdictOf(es, job) == old(VerdictOf(es, job))
  {
    if job.backend.Some? {
      SchemaSame(es, job.backend.value.Caps());
      KeyedSame(es);
    }
  }

  twostate lemma KeyedSame(es: seq<Entity>)
    requires AllStill(es)
    ensures Keyed(es) == old(Keyed(es))
  {
    forall e | e in es ensures e.key == old(e.key) {
      var i :| 0 <= i < |es| && es[i] == e;
      assert EntityStill(es[i]);
    }
  }

  /** The schema is as Build left it. The quantifier keeps what that means out of
      the proofs that only pass it on. */
  ghost predicate Standing(es: seq<Entity>)
    reads World(es)
  {
    forall x {:trigger AcceptedSchema(x)} | x == es :: AcceptedSchema(x)
  }

  /** The shortfalls of a store that its backend does not tolerate. */
  method Refusals(es: seq<Entity>, b: Store) returns (refused: seq<Shortfall>)
    ensures refused == RefusedOf(b, SchemaFound(es, b.Caps())) && (refused == [] <==> Tolerated(es, b))
  {
    var found := CheckCapabilities(es, b.Caps());
    var accepted;
    accepted, refused := Partition(b, found);
    MergeIsFilter(b, accepted, refused, found);
  }

  /** Check, lower, emit. Lowering an accepted schema fails only where an entity has
      no key, and no codec it picks is ever missing. */
  method RunJob(es: seq<Entity>, job: Job) returns (r: Result<seq<File>, RunError>)
    requires AcceptedSchema(es)
    ensures r.Success? <==> Passes(es, job)
    ensures r.Success? ==> VerdictOf(es, job) == None && Some(r.value) == job.files
    ensures r.Failure? ==> VerdictOf(es, job) == Some(r.error)
  {
    WorldIsAllocated(es);
    if job.backend.Some? {
      var b := job.backend.value;
      var refused := Refusals(es, b);
      if |refused| > 0 {
        return Failure(Refused(job.config.Label(), refused));
      }
      var lowered, checked := LowerAccepted(b, es);
      if lowered.None? {
        return Failure(NotLowered(job.config.Label()));
      }
      assert checked;
    }
    if job.files.None? {
      return Failure(NotEmitted(job.config.Label()));
    }
    return Success(job.files.value);
  }

  // ---- what is recorded ----

  /** A file with who emitted it, under the path it goes to. */
  datatype Placed = Placed(who: string, name: string, body: string)

  function Place(config: TargetConfig, f: File): Placed {
    Placed(config.Label(), Under(config.out, f.name), f.body)
  }

  function PlacedBy(config: TargetConfig, files: seq<File>): (r: seq<Placed>)
    ensures |r| == |files|
  {
    seq(|files|, i requires 0 <= i < |files| => Place(config, files[i]))
  }

  function Emitted(job: Job): seq<Placed> {
    if job.files.None? then [] else PlacedBy(job.config, job.files.value)
  }

  /** Everything the first k entries emit, entry by entry. */
  function EmittedTo(jobs: seq<Job>, k: nat): seq<Placed>
    requires k <= |jobs|
  {
    if k == 0 then [] else EmittedTo(jobs, k - 1) + Emitted(jobs[k - 1])
  }

  /** Every path is inside the output root, and no two are one. */
  ghost predicate Recordable(placed: seq<Placed>) {
    && (forall i {:trigger MayWrite(placed[i].name)} :: 0 <= i < |placed| ==> MayWrite(placed[i].name))
    && (forall i, j :: 0 <= i < j < |placed| ==> placed[i].name != placed[j].name)
  }

  lemma PrefixIsRecordable(a: seq<Placed>, b: seq<Placed>)
    requires Recordable(a + b)
    ensures Recordable(a)
  {
    forall i | 0 <= i < |a| ensures MayWrite(a[i].name) && forall j :: i < j < |a| ==> a[i].name != a[j].name {
      assert MayWrite((a + b)[i].name);
      assert forall j :: i < j < |a| ==> (a + b)[j] == a[j];
    }
  }

  /** The output holds these files and no others, each once, with its own body and
      its own producer. */
  ghost predicate Records(out: Files, placed: seq<Placed>)
    reads out
  {
    && out.Valid() && |out.order| == |placed|
    && forall i :: 0 <= i < |placed| ==>
         out.order[i] == placed[i].name && placed[i].name in out.files && out.files[placed[i].name] == placed[i].body
         && placed[i].name in out.producer && out.producer[placed[i].name] == placed[i].who
  }

  lemma RecordedIsRecordable(out: Files, placed: seq<Placed>)
    requires Records(out, placed)
    ensures Recordable(placed)
  {
    forall i | 0 <= i < |placed| ensures MayWrite(placed[i].name) {
      assert out.order[i] in out.order;
    }
  }

  /** Why one more file is not recorded: its path is not one that may be written, or
      is taken, and by whom. */
  ghost predicate Turned(placed: seq<Placed>, p: Placed, why: AddError) {
    match why
    case BadName(w) => WhyNot(p.name, w)
    case Taken(prev) =>
      MayWrite(p.name) && exists j :: 0 <= j < |placed| && placed[j].name == p.name && placed[j].who == prev
  }

  /** The first file that is not recorded, and why. */
  ghost predicate StopsAdding(placed: seq<Placed>, why: AddError) {
    exists i {:trigger placed[..i]} ::
      0 <= i < |placed| && Recordable(placed[..i]) && Turned(placed[..i], placed[i], why)
  }

  method AddOne(out: Files, p: Placed, ghost placed: seq<Placed>) returns (error: Option<AddError>)
    requires Records(out, placed)
    modifies out
    ensures error.None? <==> Recordable(placed + [p])
    ensures error.None? ==> Records(out, placed + [p])
    ensures error.Some? ==> Turned(placed, p, error.value)
  {
    OneMoreIsRecordable(out, p, placed);
    error := out.Add(p.who, p.name, p.body);
  }

  lemma OneMoreIsRecordable(out: Files, p: Placed, placed: seq<Placed>)
    requires Records(out, placed)
    ensures Recordable(placed + [p]) <==> MayWrite(p.name) && p.name !in out.order
  {
    var all := placed + [p];
    RecordedIsRecordable(out, placed);
    if MayWrite(p.name) && p.name !in out.order {
      forall i | 0 <= i < |all| ensures MayWrite(all[i].name) {
        assert i < |placed| ==> MayWrite(placed[i].name);
      }
      forall i, j | 0 <= i < j < |all| ensures all[i].name != all[j].name {
        assert out.order[i] in out.order;
      }
    }
    if Recordable(all) {
      assert MayWrite(all[|placed|].name);
      forall i | 0 <= i < |out.order| ensures out.order[i] != p.name {
        assert all[i].name != all[|placed|].name;
      }
    }
  }

  lemma FailsHere(placed: seq<Placed>, mine: seq<Placed>, i: nat, why: AddError)
    requires i < |mine| && Recordable(placed + mine[..i]) && !Recordable(placed + mine[..i] + [mine[i]])
    requires Turned(placed + mine[..i], mine[i], why)
    ensures !Recordable(placed + mine) && StopsAdding(placed + mine, why)
  {
    var all := placed + mine;
    assert all[..|placed| + i] == placed + mine[..i] && all[|placed| + i] == mine[i];
  }

  method AddFiles(out: Files, config: TargetConfig, files: seq<File>, ghost placed: seq<Placed>)
    returns (error: Option<AddError>)
    requires Records(out, placed)
    modifies out
    ensures error.None? <==> Recordable(placed + PlacedBy(config, files))
    ensures error.None? ==> Records(out, placed + PlacedBy(config, files))
    ensures error.Some? ==> StopsAdding(placed + PlacedBy(config, files), error.value)
  {
    ghost var mine := PlacedBy(config, files);
    for i := 0 to |files|
      invariant Records(out, placed + mine[..i])
    {
      assert mine[..i + 1] == mine[..i] + [mine[i]];
      Assoc(placed, mine[..i], [mine[i]]);
      RecordedIsRecordable(out, placed + mine[..i]);
      error := AddOne(out, Place(config, files[i]), placed + mine[..i]);
      if error.Some? {
        FailsHere(placed, mine, i, error.value);
        return;
      }
    }
    assert mine[..|files|] == mine;
    RecordedIsRecordable(out, placed + mine);
    error := None;
  }

  // ---- the loop ----

  lemma {:induction false} EmittedPrefix(jobs: seq<Job>, k: nat, n: nat)
    requires k <= n <= |jobs| && Recordable(EmittedTo(jobs, n))
    ensures Recordable(EmittedTo(jobs, k))
    decreases n
  {
    if k < n {
      PrefixIsRecordable(EmittedTo(jobs, n - 1), Emitted(jobs[n - 1]));
      EmittedPrefix(jobs, k, n - 1);
    }
  }

  /** vs says of each of the first k entries why it does not pass. The loop is proved
      about vs, so that what passing takes stays out of its proof. */
  ghost predicate Judged(es: seq<Entity>, jobs: seq<Job>, vs: seq<Option<RunError>>, k: nat)
    reads *
  {
    k == 0 || (k <= |jobs| && k <= |vs| && vs[k - 1] == VerdictOf(es, jobs[k - 1]) && Judged(es, jobs, vs, k - 1))
  }

  lemma {:induction false} JudgedAt(es: seq<Entity>, jobs: seq<Job>, vs: seq<Option<RunError>>, k: nat, n: nat)
    requires k < n <= |jobs| && n <= |vs| && Judged(es, jobs, vs, n)
    ensures vs[k] == VerdictOf(es, jobs[k])
  {
    if k < n - 1 {
      JudgedAt(es, jobs, vs, k, n - 1);
    }
  }

  twostate lemma {:induction false} JudgedSame(
    es: seq<Entity>, new jobs: seq<Job>, new vs: seq<Option<RunError>>, new k: nat)
    requires AllStill(es) && old(allocated(vs)) && old(Judged(es, jobs, vs, k))
    ensures Judged(es, jobs, vs, k)
  {
    if k > 0 {
      JudgedSame(es, jobs, vs, k - 1);
      VerdictSame(es, jobs[k - 1]);
    }
  }

  ghost predicate FirstPass(vs: seq<Option<RunError>>, k: nat)
    requires k <= |vs|
  {
    forall i :: 0 <= i < k ==> vs[i].None?
  }

  /** Every entry passes and everything they emit can be recorded. */
  ghost predicate WholeRun(jobs: seq<Job>, vs: seq<Option<RunError>>) {
    |jobs| == |vs| && FirstPass(vs, |jobs|) && Recordable(EmittedTo(jobs, |jobs|))
  }

  /** The run stops at entry k: those before it pass and are recorded, and it does not
      pass, or some file of its own is not recorded. */
  ghost predicate StopsAt(jobs: seq<Job>, vs: seq<Option<RunError>>, k: nat, error: RunError) {
    && k < |jobs| == |vs| && FirstPass(vs, k) && Recordable(EmittedTo(jobs, k))
    && match vs[k]
       case Some(e) => error == e
       case None =>
         && error.NotAdded? && error.who == Called(jobs[k].config)
         && !Recordable(EmittedTo(jobs, k + 1)) && StopsAdding(EmittedTo(jobs, k + 1), error.why)
  }

  ghost predicate Stops(jobs: seq<Job>, vs: seq<Option<RunError>>, error: RunError) {
    exists k: nat :: StopsAt(jobs, vs, k, error)
  }

  /** Stopped at entry k, by an entry that does not pass or by a path. */
  lemma StopsThere(jobs: seq<Job>, vs: seq<Option<RunError>>, k: nat, error: RunError)
    requires StopsAt(jobs, vs, k, error)
    ensures !WholeRun(jobs, vs)
  {
    if vs[k].None? && Recordable(EmittedTo(jobs, |jobs|)) {
      EmittedPrefix(jobs, k + 1, |jobs|);
    }
  }

  /** Judged, of every entry. The quantifier keeps what that takes out of the
      loop. */
  ghost predicate Verdict(es: seq<Entity>, jobs: seq<Job>, vs: seq<Option<RunError>>)
    reads *
  {
    forall x: nat {:trigger Judged(es, jobs, vs, x)} | x == |jobs| :: Judged(es, jobs, vs, x)
  }

  /** Records, kept out of the loop the same way. */
  ghost predicate HoldsFiles(out: Files, placed: seq<Placed>)
    reads out
  {
    forall x {:trigger Records(out, x)} | x == placed :: Records(out, x)
  }

  /** One turn: an entry that passes adds what it emitted. */
  method TakeTurn(es: seq<Entity>, jobs: seq<Job>, k: nat, out: Files, ghost vs: seq<Option<RunError>>)
    returns (error: Option<RunError>)
    requires k < |jobs| == |vs| && out !in World(es) && FirstPass(vs, k)
    requires Standing(es) && Verdict(es, jobs, vs) && HoldsFiles(out, EmittedTo(jobs, k))
    modifies out
    ensures Standing(es) && Verdict(es, jobs, vs)
    ensures error.None? ==> FirstPass(vs, k + 1) && HoldsFiles(out, EmittedTo(jobs, k + 1))
    ensures error.Some? ==> Stops(jobs, vs, error.value)
  {
    WorldIsAllocated(es);
    assert Judged(es, jobs, vs, |jobs|);
    assert Records(out, EmittedTo(jobs, k));
    RecordedIsRecordable(out, EmittedTo(jobs, k));
    JudgedAt(es, jobs, vs, k, |jobs|);
    error := RunOne(es, jobs[k], out, EmittedTo(jobs, k), vs[k]);
    JudgedSame(es, jobs, vs, |jobs|);
    if error.Some? {
      assert StopsAt(jobs, vs, k, error.value);
    }
  }

  /** Why one entry stops the run. */
  ghost predicate StopsOne(job: Job, verdict: Option<RunError>, all: seq<Placed>, error: RunError) {
    match verdict
    case Some(e) => error == e
    case None =>
      error.NotAdded? && error.who == Called(job.config) && !Recordable(all) && StopsAdding(all, error.why)
  }

  method RunOne(es: seq<Entity>, job: Job, out: Files, ghost placed: seq<Placed>, ghost verdict: Option<RunError>)
    returns (error: Option<RunError>)
    requires Standing(es) && verdict == VerdictOf(es, job) && Records(out, placed) && out !in World(es)
    modifies out
    ensures Standing(es) && AllStill(es)
    ensures error.None? ==> verdict.None? && Records(out, placed + Emitted(job))
    ensures error.Some? ==> StopsOne(job, verdict, placed + Emitted(job), error.value)
  {
    WorldIsAllocated(es);
    assert AcceptedSchema(es);
    var r := RunJob(es, job);
    if r.Failure? {
      SchemaIsStill(es);
      return Some(r.error);
    }
    var failed := AddFiles(out, job.config, r.value, placed);
    SchemaIsStill(es);
    return if failed.Some? then Some(NotAdded(job.config.Label(), failed.value)) else None;
  }

  /** What is to be said of each entry. */
  ghost function Verdicts(es: seq<Entity>, jobs: seq<Job>): (r: seq<Option<RunError>>)
    reads *
    ensures |r| == |jobs|
  {
    seq(|jobs|, i requires 0 <= i < |jobs| reads * => VerdictOf(es, jobs[i]))
  }

  lemma {:induction false} VerdictsJudge(es: seq<Entity>, jobs: seq<Job>, vs: seq<Option<RunError>>, k: nat)
    requires k <= |jobs| && vs == Verdicts(es, jobs)
    ensures Judged(es, jobs, vs, k)
  {
    if k > 0 {
      VerdictsJudge(es, jobs, vs, k - 1);
      assert vs[k - 1] == VerdictOf(es, jobs[k - 1]);
    }
  }

  method Complained(jobs: seq<Job>) returns (any: bool)
    ensures any <==> exists i :: 0 <= i < |jobs| && jobs[i].complains
  {
    any := false;
    for i := 0 to |jobs|
      invariant any <==> exists j :: 0 <= j < i && jobs[j].complains
    {
      any := any || jobs[i].complains;
    }
  }

  /** The loop over the entries. */
  method RunAll(es: seq<Entity>, jobs: seq<Job>, out: Files, ghost vs: seq<Option<RunError>>)
    returns (error: Option<RunError>)
    requires |jobs| == |vs| && out !in World(es)
    requires Standing(es) && Verdict(es, jobs, vs) && HoldsFiles(out, [])
    modifies out
    ensures error.None? ==> FirstPass(vs, |jobs|) && HoldsFiles(out, EmittedTo(jobs, |jobs|))
    ensures error.Some? ==> Stops(jobs, vs, error.value)
  {
    for k := 0 to |jobs|
      invariant Standing(es) && Verdict(es, jobs, vs)
      invariant FirstPass(vs, k) && HoldsFiles(out, EmittedTo(jobs, k))
    {
      error := TakeTurn(es, jobs, k, out, vs);
      if error.Some? {
        return;
      }
    }
    error := None;
  }

  function PathsOf(placed: seq<Placed>): seq<string> {
    seq(|placed|, i requires 0 <= i < |placed| => placed[i].name)
  }

  /** A recorded file is lost to another exactly where two recorded paths lead to
      one place. */
  lemma EveryFileShips(out: Files, placed: seq<Placed>)
    requires Records(out, placed)
    ensures Ships(out.order, out.files) <==> PlacesApart(PathsOf(placed))
  {
    assert out.order == PathsOf(placed);
    ShipsIffApart(out.order, out.files);
  }

  // ---- file by file ----

  /** How many files the entries emit. */
  ghost function FileCount(jobs: seq<Job>): nat {
    if jobs == [] then 0
    else FileCount(jobs[..|jobs| - 1]) + match jobs[|jobs| - 1].files case None => 0 case Some(files) => |files|
  }

  /** Where a file of an entry goes, and whom it is put down to. */
  ghost predicate GoesTo(c: TargetConfig, f: File, p: Placed) {
    && p.name == (if c.out == "" then f.name else c.out + "/" + f.name)
    && p.who == (if c.name == "" then c.target else c.name)
    && p.body == f.body
  }

  lemma {:induction false} EmittedCounts(jobs: seq<Job>, k: nat)
    requires k <= |jobs|
    ensures |EmittedTo(jobs, k)| == FileCount(jobs[..k])
  {
    if k > 0 {
      EmittedCounts(jobs, k - 1);
      assert jobs[..k][..k - 1] == jobs[..k - 1];
    }
  }

  lemma PlacedGoes(job: Job, i: nat)
    requires job.files.Some? && i < |job.files.value|
    ensures i < |Emitted(job)| && GoesTo(job.config, job.files.value[i], Emitted(job)[i])
  {
  }

  lemma {:induction false} EmittedStays(jobs: seq<Job>, j: nat, k: nat)
    requires j < k <= |jobs|
    ensures EmittedTo(jobs, j) + Emitted(jobs[j]) <= EmittedTo(jobs, k)
  {
    if j < k - 1 {
      EmittedStays(jobs, j, k - 1);
      FrontOfMore(EmittedTo(jobs, j) + Emitted(jobs[j]), EmittedTo(jobs, k - 1), Emitted(jobs[k - 1]));
    }
  }

  lemma FrontOfMore<T>(a: seq<T>, b: seq<T>, c: seq<T>)
    requires a <= b
    ensures a <= b + c
  {
  }

  lemma AtFront<T>(a: seq<T>, b: seq<T>, all: seq<T>, i: nat)
    requires a + b <= all && i < |b|
    ensures |a| + i < |all| && all[|a| + i] == b[i]
  {
    assert (a + b)[|a| + i] == b[i];
  }

  lemma EmittedFrom(jobs: seq<Job>, k: nat, j: nat, i: nat, at: nat)
    requires j < k <= |jobs| && jobs[j].files.Some? && i < |jobs[j].files.value| && at == |EmittedTo(jobs, j)| + i
    ensures at < |EmittedTo(jobs, k)| && GoesTo(jobs[j].config, jobs[j].files.value[i], EmittedTo(jobs, k)[at])
  {
    PlacedGoes(jobs[j], i);
    EmittedStays(jobs, j, k);
    AtFront(EmittedTo(jobs, j), Emitted(jobs[j]), EmittedTo(jobs, k), i);
  }

  /** File i of entry j comes after all the files of the entries before, and after the
      entry's own before it. */
  lemma EmittedAt(jobs: seq<Job>, k: nat, j: nat, i: nat, at: nat)
    requires j < k <= |jobs| && jobs[j].files.Some? && i < |jobs[j].files.value| && at == FileCount(jobs[..j]) + i
    ensures at < |EmittedTo(jobs, k)| && GoesTo(jobs[j].config, jobs[j].files.value[i], EmittedTo(jobs, k)[at])
  {
    EmittedCounts(jobs, j);
    EmittedFrom(jobs, k, j, i, at);
  }

  /** The output holds the files of the entries, entry by entry, each under its own
      entry's directory, with its own body and its entry's label, and no others. */
  ghost predicate Delivers(jobs: seq<Job>, out: Files)
    reads out
  {
    && |out.order| == FileCount(jobs)
    && forall j, i | 0 <= j < |jobs| && jobs[j].files.Some? && 0 <= i < |jobs[j].files.value| ::
         DeliversAt(jobs[j].config, jobs[j].files.value[i], out, FileCount(jobs[..j]) + i)
  }

  ghost predicate DeliversAt(c: TargetConfig, f: File, out: Files, k: nat)
    reads out
  {
    && k < |out.order| && out.order[k] in out.files && out.order[k] in out.producer
    && GoesTo(c, f, Placed(out.producer[out.order[k]], out.order[k], out.files[out.order[k]]))
  }

  lemma RecordedAt(c: TargetConfig, f: File, out: Files, placed: seq<Placed>, k: nat)
    requires Records(out, placed) && k < |placed| && GoesTo(c, f, placed[k])
    ensures DeliversAt(c, f, out, k)
  {
  }

  lemma {:induction false} RecordsDeliver(jobs: seq<Job>, out: Files, placed: seq<Placed>)
    requires placed == EmittedTo(jobs, |jobs|) && Records(out, placed)
    ensures Delivers(jobs, out)
  {
    EmittedCounts(jobs, |jobs|);
    assert jobs[..|jobs|] == jobs;
    forall j, i | 0 <= j < |jobs| && jobs[j].files.Some? && 0 <= i < |jobs[j].files.value|
      ensures DeliversAt(jobs[j].config, jobs[j].files.value[i], out, FileCount(jobs[..j]) + i)
    {
      EmittedAt(jobs, |jobs|, j, i, FileCount(jobs[..j]) + i);
      RecordedAt(jobs[j].config, jobs[j].files.value[i], out, placed, FileCount(jobs[..j]) + i);
    }
  }

  /** What the loop over the entries comes to, with vs saying of each of them why it does
      not pass. */
  ghost predicate Generates(jobs: seq<Job>, vs: seq<Option<RunError>>, r: Result<Files, RunError>)
    reads if r.Success? then {r.value} else {}
  {
    match r
    case Success(out) =>
      && WholeRun(jobs, vs) && (forall i :: 0 <= i < |jobs| ==> !jobs[i].complains)
      && Records(out, EmittedTo(jobs, |jobs|)) && Delivers(jobs, out)
      && (Ships(out.order, out.files) <==> PlacesApart(PathsOf(EmittedTo(jobs, |jobs|))))
    case Failure(error) =>
      if WholeRun(jobs, vs) then error == Complaints && exists i :: 0 <= i < |jobs| && jobs[i].complains
      else Stops(jobs, vs, error)
  }

  lemma RunIsWhole(jobs: seq<Job>, out: Files, vs: seq<Option<RunError>>)
    requires |jobs| == |vs| && FirstPass(vs, |jobs|) && Records(out, EmittedTo(jobs, |jobs|))
    ensures WholeRun(jobs, vs)
    ensures (forall i :: 0 <= i < |jobs| ==> !jobs[i].complains) ==> Generates(jobs, vs, Success(out))
  {
    var placed := EmittedTo(jobs, |jobs|);
    RecordedIsRecordable(out, placed);
    EveryFileShips(out, placed);
    RecordsDeliver(jobs, out, placed);
  }

  /** What comes after the loop. */
  method Close(jobs: seq<Job>, out: Files, ghost vs: seq<Option<RunError>>, error: Option<RunError>)
    returns (r: Result<Files, RunError>)
    requires |jobs| == |vs|
    requires error.None? ==> FirstPass(vs, |jobs|) && HoldsFiles(out, EmittedTo(jobs, |jobs|))
    requires error.Some? ==> Stops(jobs, vs, error.value)
    ensures Generates(jobs, vs, r) && (r.Success? ==> r.value == out)
  {
    if error.Some? {
      ghost var k: nat :| StopsAt(jobs, vs, k, error.value);
      StopsThere(jobs, vs, k, error.value);
      return Failure(error.value);
    }
    assert Records(out, EmittedTo(jobs, |jobs|));
    RunIsWhole(jobs, out, vs);
    var any := Complained(jobs);
    return if any then Failure(Complaints) else Success(out);
  }

  method Emit(es: seq<Entity>, jobs: seq<Job>, ghost vs: seq<Option<RunError>>) returns (r: Result<Files, RunError>)
    requires |jobs| == |vs| && Standing(es) && Verdict(es, jobs, vs)
    ensures Generates(jobs, vs, r) && (r.Success? ==> fresh(r.value))
  {
    WorldIsAllocated(es);
    assert AcceptedSchema(es) && Judged(es, jobs, vs, |jobs|);
    var out := new Files();
    SchemaIsStill(es);
    JudgedSame(es, jobs, vs, |jobs|);
    var error := RunAll(es, jobs, out, vs);
    r := Close(jobs, out, vs, error);
  }

  /** The loop of a run, on an accepted schema. It succeeds exactly when every entry
      passes, every emitted path may be written and is emitted once, and no target
      complained; and then the output holds exactly the files all entries emitted. It
      fails with the first entry that does not pass, and with why, or with the first
      file that is not recorded. */
  method Generate(es: seq<Entity>, jobs: seq<Job>) returns (r: Result<Files, RunError>)
    requires AcceptedSchema(es)
    ensures Generates(jobs, old(Verdicts(es, jobs)), r)
    ensures r.Success? ==> fresh(r.value)
  {
    WorldIsAllocated(es);
    ghost var vs := Verdicts(es, jobs);
    VerdictsJudge(es, jobs, vs, |jobs|);
    r := Emit(es, jobs, vs);
  }

  // ---- the whole run ----

  /** What a target answers when it is asked to emit. */
  datatype Emission = Emission(files: Option<seq<File>>, complains: bool)

  /** The plan, with the store each entry is for and what each target emits. */
  function JobsOf(plan: seq<Resolving.Entry>, stores: seq<Option<Store>>, emits: seq<Emission>): (jobs: seq<Job>)
    requires |stores| == |emits| == |plan|
    ensures |jobs| == |plan|
  {
    seq(|plan|, i requires 0 <= i < |plan| => Job(plan[i].config, stores[i], emits[i].files, emits[i].complains))
  }

  /** Job i is for entry i: its own config, the store its backend's own section
      settled to, and what its own target answered. */
  lemma JobIsOfEntry(ins: Sections.Inputs, plan: seq<Resolving.Entry>, emits: seq<Emission>, i: nat)
    requires |emits| == |plan| && i < |plan|
    ensures var job := JobsOf(plan, Resolving.StoresFor(ins, plan), emits)[i];
      && job.config == plan[i].config && job.files == emits[i].files && job.complains == emits[i].complains
      && job.backend == Resolving.StoreFor(ins, plan[i])
  {
    Resolving.StoresAt(ins, plan, i);
  }

  lemma ConfigIsOutside(es: seq<Entity>, cfg: Sections.Config)
    ensures cfg !in World(es)
  {
  }

  twostate lemma VerdictsSame(es: seq<Entity>, new jobs: seq<Job>)
    requires AllStill(es)
    ensures Verdicts(es, jobs) == old(Verdicts(es, jobs))
  {
    forall k | 0 <= k < |jobs| ensures Verdicts(es, jobs)[k] == old(Verdicts(es, jobs))[k] {
      VerdictSame(es, jobs[k]);
    }
  }

  /** The config comes to a plan, and the plan to what each entry is to do. */
  method Prepare(cfg: Sections.Config, targets: seq<TargetConfig>, registry: Resolving.Registry, emits: seq<Emission>)
    returns (plan: Option<seq<Resolving.Entry>>, jobs: seq<Job>)
    requires |emits| == |targets|
    requires registry.Valid() && cfg.Valid() && cfg.claimed == {} && cfg.envRead == map[]
    modifies cfg`claimants, cfg`claimed, cfg`envNames, cfg`envRead
    ensures Resolving.Resolves(registry, targets, cfg.In(), plan)
    ensures plan.Some? ==> |plan.value| == |emits|
    ensures plan.Some? ==> jobs == JobsOf(plan.value, Resolving.StoresFor(cfg.In(), plan.value), emits)
  {
    var vals;
    plan, vals := Resolving.Resolve(cfg, targets, registry);
    if plan.None? {
      return plan, [];
    }
    Resolving.StoresAreSettled(cfg.In(), plan.value, vals);
    jobs := JobsOf(plan.value, Resolving.StoresOf(plan.value, vals), emits);
  }

  /** A whole run, on an accepted schema. Without a plan that everything in
      the config serves nothing is emitted. With one the run succeeds exactly when
      every entry of the plan passes, every emitted path may be written and is
      emitted once, and no target complained; and then the output holds exactly the
      files all entries emitted. Otherwise it fails as the first entry that stops it
      says. */
  method Run(es: seq<Entity>, cfg: Sections.Config, targets: seq<TargetConfig>, registry: Resolving.Registry,
             emits: seq<Emission>)
    returns (plan: Option<seq<Resolving.Entry>>, r: Result<Files, RunError>)
    requires AcceptedSchema(es) && |emits| == |targets|
    requires registry.Valid() && cfg.Valid() && cfg.claimed == {} && cfg.envRead == map[]
    modifies cfg`claimants, cfg`claimed, cfg`envNames, cfg`envRead
    ensures Resolving.Resolves(registry, targets, cfg.In(), plan)
    ensures plan.None? ==> r == Failure(Unresolved)
    ensures plan.Some? ==> var jobs := JobsOf(plan.value, Resolving.StoresFor(cfg.In(), plan.value), emits);
      Generates(jobs, old(Verdicts(es, jobs)), r) && (r.Success? ==> fresh(r.value))
  {
    WorldIsAllocated(es);
    ConfigIsOutside(es, cfg);
    var jobs;
    plan, jobs := Prepare(cfg, targets, registry, emits);
    if plan.None? {
      return plan, Failure(Unresolved);
    }
    SchemaIsStill(es);
    VerdictsSame(es, jobs);
    r := Generate(es, jobs);
  }
}
