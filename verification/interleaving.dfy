/** Any number of `_reconcile` and `_insert` calls in flight at once, each taking
    the steps of its transaction one at a time, under any schedule. */
module Interleaving {
  import opened Wrappers
  import opened Sorting
  import opened Text
  import opened Reconcile

  /** Where a call is: not begun; holding the table; holding it, with the row it
      read; or answered. */
  datatype Phase = Waiting | Holding | Read(seen: Option<Props>) | Done(answer: Answer)

  /** The calls are given; what runs is the store, who holds it, how far each
      call is, and the order they finished in. */
  datatype State = State(store: Store, lock: Option<nat>, phases: seq<Phase>, log: seq<nat>)

  function Start(store: Store, ops: seq<Op>): State {
    State(store, None, seq(|ops|, _ => Waiting), [])
  }

  function Lookup(store: Store, key: Key): Option<Props> {
    if key in store then Some(store[key]) else None
  }

  /** The last request of a transaction, with the commit that releases it. */
  function Finish(ops: seq<Op>, s: State, i: nat, answer: Answer): State
    requires i < |ops| && |s.phases| == |ops|
  {
    State(if answer == Wrote then s.store[ops[i].key := ops[i].row] else s.store,
          None, s.phases[i := Done(answer)], s.log + [i])
  }

  /** The next step of call i; nothing, when it is blocked or has answered. */
  function Step<V>(d: Overrides<V>, ops: seq<Op>, s: State, i: nat): State
    requires |s.phases| == |ops|
  {
    if i >= |ops| then s
    else match s.phases[i]
      case Waiting =>
        if s.lock.Some? then s else s.(lock := Some(i), phases := s.phases[i := Holding])
      case Holding =>
        if ops[i].InsertOp? then Finish(ops, s, i, if ops[i].key in s.store then Refused else Wrote)
        else if !d.versioned then Finish(ops, s, i, Wrote)
        else s.(phases := s.phases[i := Read(Lookup(s.store, ops[i].key))])
      case Read(u) =>
        Finish(ops, s, i, if u.Some? && Compare(d, u.value, ops[i].row) >= 0 then Kept else Wrote)
      case Done(_) => s
  }

  function Run<V>(d: Overrides<V>, ops: seq<Op>, s: State, schedule: seq<nat>): (r: State)
    requires |s.phases| == |ops|
    ensures |r.phases| == |ops|
  {
    if schedule == [] then s
    else Step(d, ops, Run(d, ops, s, schedule[..|schedule| - 1]), schedule[|schedule| - 1])
  }

  // ---- every interleaving is one write at a time ----

  function Logged(ops: seq<Op>, log: seq<nat>): (r: seq<Op>)
    requires forall k :: 0 <= k < |log| ==> log[k] < |ops|
    ensures |r| == |log|
  {
    seq(|log|, k requires 0 <= k < |log| => ops[log[k]])
  }

  predicate InTransaction(p: Phase) {
    p.Holding? || p.Read?
  }

  ghost predicate Exclusive<V>(d: Overrides<V>, ops: seq<Op>, s: State) {
    && |s.phases| == |ops|
    && (forall i: nat :: i < |ops| ==> (InTransaction(s.phases[i]) <==> s.lock == Some(i)))
    && (s.lock.Some? ==> s.lock.value < |ops|)
    && (forall i: nat :: i < |ops| && s.phases[i].Read? ==>
          ops[i].ReconcileOp? && d.versioned && s.phases[i].seen == Lookup(s.store, ops[i].key))
  }

  /** The store is what the finished calls come to one after another, in the
      order they finished, and each answered what it would have then. */
  ghost predicate Serial<V>(d: Overrides<V>, ops: seq<Op>, store: Store, s: State) {
    && |s.phases| == |ops|
    && (forall k :: 0 <= k < |s.log| ==> s.log[k] < |ops|)
    && Distinct(s.log)
    && s.store == Replay(d, store, Logged(ops, s.log))
    && (forall i: nat :: i < |ops| ==> (s.phases[i].Done? <==> i in s.log))
    && (forall k: nat :: k < |s.log| ==> s.phases[s.log[k]] == Done(AnswerAt(d, store, Logged(ops, s.log), k)))
  }

  lemma StepStaysExclusive<V>(d: Overrides<V>, ops: seq<Op>, s: State, i: nat)
    requires Exclusive(d, ops, s)
    ensures Exclusive(d, ops, Step(d, ops, s, i))
  {
  }

  lemma AnswerStays<V>(d: Overrides<V>, store: Store, before: seq<Op>, op: Op, k: nat)
    requires k <= |before|
    ensures AnswerAt(d, store, before + [op], k) ==
      if k < |before| then AnswerAt(d, store, before, k) else AnswerOf(d, Replay(d, store, before), op)
  {
    if k < |before| {
      assert (before + [op])[..k] == before[..k] && (before + [op])[k] == before[k];
    } else {
      assert (before + [op])[..k] == before;
    }
  }

  lemma LoggedOneMore(ops: seq<Op>, log: seq<nat>, i: nat)
    requires (forall k :: 0 <= k < |log| ==> log[k] < |ops|) && i < |ops|
    ensures Logged(ops, log + [i]) == Logged(ops, log) + [ops[i]]
  {
  }

  lemma FinishStaysAnswered<V>(d: Overrides<V>, ops: seq<Op>, store: Store, s: State, i: nat, answer: Answer, k: nat)
    requires Serial(d, ops, store, s) && i < |ops| && i !in s.log
    requires answer == AnswerOf(d, s.store, ops[i]) && k <= |s.log|
    ensures var s' := Finish(ops, s, i, answer);
      s'.log[k] < |ops| && s'.phases[s'.log[k]] == Done(AnswerAt(d, store, Logged(ops, s.log + [i]), k))
  {
    LoggedOneMore(ops, s.log, i);
    AnswerStays(d, store, Logged(ops, s.log), ops[i], k);
    if k < |s.log| {
      assert s.log[k] in s.log;
    }
  }

  lemma FinishStaysSerial<V>(d: Overrides<V>, ops: seq<Op>, store: Store, s: State, i: nat, answer: Answer)
    requires Serial(d, ops, store, s) && i < |ops| && !s.phases[i].Done?
    requires answer == AnswerOf(d, s.store, ops[i])
    ensures Serial(d, ops, store, Finish(ops, s, i, answer))
  {
    var s' := Finish(ops, s, i, answer);
    LoggedOneMore(ops, s.log, i);
    ReplayOneMore(d, store, Logged(ops, s.log), ops[i]);
    assert i !in s.log;
    forall k: nat | k < |s'.log| ensures s'.phases[s'.log[k]] == Done(AnswerAt(d, store, Logged(ops, s'.log), k)) {
      FinishStaysAnswered(d, ops, store, s, i, answer, k);
    }
    forall j: nat | j < |ops| ensures s'.phases[j].Done? <==> j in s'.log {
      assert j in s'.log <==> j in s.log || j == i;
    }
  }

  /** A step finishes a call with the answer the store has for it, or only moves
      one on. */
  lemma StepFinishesOrMoves<V>(d: Overrides<V>, ops: seq<Op>, s: State, i: nat)
    requires Exclusive(d, ops, s)
    ensures
      || (i < |ops| && !s.phases[i].Done? && Step(d, ops, s, i) == Finish(ops, s, i, AnswerOf(d, s.store, ops[i])))
      || Moves(s, Step(d, ops, s, i))
  {
  }

  ghost predicate Moves(s: State, s': State) {
    && s'.store == s.store && s'.log == s.log && |s'.phases| == |s.phases|
    && forall j :: 0 <= j < |s.phases| ==> s'.phases[j] == s.phases[j] || (!s.phases[j].Done? && !s'.phases[j].Done?)
  }

  lemma StepStaysSerial<V>(d: Overrides<V>, ops: seq<Op>, store: Store, s: State, i: nat)
    requires Exclusive(d, ops, s) && Serial(d, ops, store, s)
    ensures Serial(d, ops, store, Step(d, ops, s, i))
  {
    StepFinishesOrMoves(d, ops, s, i);
    if i < |ops| && !s.phases[i].Done? && Step(d, ops, s, i) == Finish(ops, s, i, AnswerOf(d, s.store, ops[i])) {
      FinishStaysSerial(d, ops, store, s, i, AnswerOf(d, s.store, ops[i]));
    }
  }

  /** Every interleaving of any number of calls: transactions exclude each other,
      and the run is the serial one of the calls in the order they finished. */
  lemma {:induction false} EveryRunIsSerial<V>(d: Overrides<V>, ops: seq<Op>, store: Store, schedule: seq<nat>)
    ensures var s := Run(d, ops, Start(store, ops), schedule);
      Exclusive(d, ops, s) && Serial(d, ops, store, s)
  {
    if schedule != [] {
      var n := |schedule| - 1;
      EveryRunIsSerial(d, ops, store, schedule[..n]);
      var s := Run(d, ops, Start(store, ops), schedule[..n]);
      StepStaysExclusive(d, ops, s, schedule[n]);
      StepStaysSerial(d, ops, store, s, schedule[n]);
    }
  }

  /** No call waits for ever on nobody: some call can always step until all have
      answered. */
  lemma SomeCallCanStep<V>(d: Overrides<V>, ops: seq<Op>, store: Store, schedule: seq<nat>, i: nat) returns (j: nat)
    requires i < |ops| && !Run(d, ops, Start(store, ops), schedule).phases[i].Done?
    ensures var s := Run(d, ops, Start(store, ops), schedule); Step(d, ops, s, j) != s
  {
    EveryRunIsSerial(d, ops, store, schedule);
    var s := Run(d, ops, Start(store, ops), schedule);
    j := if s.lock.Some? then s.lock.value else i;
  }

  lemma {:induction false} RunSplits<V>(d: Overrides<V>, ops: seq<Op>, s: State, a: seq<nat>, b: seq<nat>)
    requires |s.phases| == |ops|
    ensures Run(d, ops, s, a + b) == Run(d, ops, Run(d, ops, s, a), b)
  {
    if b == [] {
      assert a + b == a;
    } else {
      assert (a + b)[..|a + b| - 1] == a + b[..|b| - 1];
      RunSplits(d, ops, s, a, b[..|b| - 1]);
    }
  }

  lemma {:induction false} LogGrows<V>(d: Overrides<V>, ops: seq<Op>, s: State, schedule: seq<nat>)
    requires |s.phases| == |ops|
    ensures s.log <= Run(d, ops, s, schedule).log
  {
    if schedule != [] {
      LogGrows(d, ops, s, schedule[..|schedule| - 1]);
    }
  }

  lemma LoggedPrefix(ops: seq<Op>, a: seq<nat>, b: seq<nat>)
    requires a <= b && forall k :: 0 <= k < |b| ==> b[k] < |ops|
    ensures Logged(ops, a) <= Logged(ops, b)
  {
    assert forall k :: 0 <= k < |a| ==> Logged(ops, a)[k] == Logged(ops, b)[k];
  }

  lemma ReplayOfMore<V(!new)>(d: Overrides<V>, store: Store, before: seq<Op>, all: seq<Op>, key: Key)
    requires Lawful(d) && before <= all && key in Replay(d, store, before)
    ensures key in Replay(d, store, all) && NotOlder(d, Replay(d, store, before)[key], Replay(d, store, all)[key])
  {
    var more := all[|before|..];
    assert all == before + more;
    ReplaySplits(d, store, before, more);
    ReplayNeverOlder(d, Replay(d, store, before), more, key);
  }

  /** Between any two moments of any run, no key goes away and no stored version
      gets older. */
  lemma StoredVersionsNeverDecrease<V(
    !new)>(d: Overrides<V>, ops: seq<Op>, store: Store, a: seq<nat>, b: seq<nat>, key: Key)
    requires Lawful(d)
    requires key in Run(d, ops, Start(store, ops), a).store
    ensures var before, now := Run(d, ops, Start(store, ops), a).store, Run(d, ops, Start(store, ops), a + b).store;
      key in now && NotOlder(d, before[key], now[key])
  {
    EveryRunIsSerial(d, ops, store, a);
    EveryRunIsSerial(d, ops, store, a + b);
    RunSplits(d, ops, Start(store, ops), a, b);
    var s, s' := Run(d, ops, Start(store, ops), a), Run(d, ops, Start(store, ops), a + b);
    LogGrows(d, ops, s, b);
    var before, all := Logged(ops, s.log), Logged(ops, s'.log);
    LoggedPrefix(ops, s.log, s'.log);
    ReplayOfMore(d, store, before, all, key);
  }

  /** A run after its first n steps. */
  function At<V>(d: Overrides<V>, ops: seq<Op>, store: Store, schedule: seq<nat>, n: nat): (s: State)
    requires n <= |schedule|
    ensures |s.phases| == |ops|
  {
    Run(d, ops, Start(store, ops), schedule[..n])
  }

  /** Step n of the schedule is the one that answers call i. */
  ghost predicate Answers<V>(d: Overrides<V>, ops: seq<Op>, store: Store, schedule: seq<nat>, n: nat, i: nat)
    requires n < |schedule| && i < |ops|
  {
    && schedule[n] == i
    && !At(d, ops, store, schedule, n).phases[i].Done?
    && At(d, ops, store, schedule, n + 1).phases[i].Done?
  }

  lemma StepAnswersItsOwn<V>(d: Overrides<V>, ops: seq<Op>, s: State, j: nat, i: nat)
    requires |s.phases| == |ops| && i < |ops|
    requires !s.phases[i].Done? && Step(d, ops, s, j).phases[i].Done?
    ensures j == i
    ensures Step(d, ops, s, j).store ==
      if Step(d, ops, s, j).phases[i] == Done(Wrote) then s.store[ops[i].key := ops[i].row] else s.store
  {
  }

  /** A call answers true exactly when its own step wrote its own row. One step
      of the run answers it; the answer never changes after that; the store is
      that call's row under its key right after an answer of true, and untouched
      by a call that answers anything else. */
  lemma {:induction false} AnswerSaysWhoWrote<V>(
    d: Overrides<V>, ops: seq<Op>, store: Store, schedule: seq<nat>, i: nat) returns (n: nat)
    requires i < |ops| && Run(d, ops, Start(store, ops), schedule).phases[i].Done?
    ensures n < |schedule| && Answers(d, ops, store, schedule, n, i)
    ensures At(d, ops, store, schedule, n + 1).phases[i] == At(d, ops, store, schedule, |schedule|).phases[i]
    ensures var before, after := At(d, ops, store, schedule, n).store, At(d, ops, store, schedule, n + 1).store;
      var answer := At(d, ops, store, schedule, |schedule|).phases[i];
      after == if answer == Done(Wrote) then before[ops[i].key := ops[i].row] else before
  {
    var last := |schedule| - 1;
    assert schedule[..last + 1] == schedule;
    var init := schedule[..last];
    var s := Run(d, ops, Start(store, ops), init);
    if s.phases[i].Done? {
      n := AnswerSaysWhoWrote(d, ops, store, init, i);
      assert init[..n] == schedule[..n] && init[..n + 1] == schedule[..n + 1] && init[..|init|] == init;
    } else {
      n := last;
      StepAnswersItsOwn(d, ops, s, schedule[last], i);
    }
  }

  /** The store changes in no other way: a step that changes it answers its own
      call, and answers true. */
  lemma OnlyWritersWrite<V>(d: Overrides<V>, ops: seq<Op>, store: Store, schedule: seq<nat>, n: nat)
    requires n < |schedule|
    requires At(d, ops, store, schedule, n + 1).store != At(d, ops, store, schedule, n).store
    ensures schedule[n] < |ops| && Answers(d, ops, store, schedule, n, schedule[n])
    ensures Run(d, ops, Start(store, ops), schedule[..n + 1]).phases[schedule[n]] == Done(Wrote)
  {
    assert schedule[..n + 1][..n] == schedule[..n];
  }

  /** Calls k and l of the log wrote, under one key. */
  ghost predicate BothWrote(ops: seq<Op>, s: State, k: nat, l: nat) {
    && k < l < |s.log| && s.log[k] < |ops| && s.log[l] < |ops| && |s.phases| == |ops|
    && s.phases[s.log[k]] == Done(Wrote) && s.phases[s.log[l]] == Done(Wrote)
    && ops[s.log[k]].key == ops[s.log[l]].key
  }

  /** Of two calls answered true for one key, the one that finished later wrote
      the strictly newer version. */
  lemma AnsweredTrueIncreases<V(!new)>(d: Overrides<V>, ops: seq<Op>, store: Store, schedule: seq<nat>, k: nat, l: nat)
    requires Lawful(d) && BothWrote(ops, Run(d, ops, Start(store, ops), schedule), k, l)
    ensures var s := Run(d, ops, Start(store, ops), schedule);
      Compare(d, ops[s.log[k]].row, ops[s.log[l]].row) < 0
  {
    EveryRunIsSerial(d, ops, store, schedule);
    var s := Run(d, ops, Start(store, ops), schedule);
    WrittenVersionsIncrease(d, store, Logged(ops, s.log), k, l);
  }

  // ---- runs that finish ----

  ghost predicate Finished(s: State) {
    forall i: nat :: i < |s.phases| ==> s.phases[i].Done?
  }

  function OpAt(ops: seq<Op>): nat -> Op {
    (i: nat) => if i < |ops| then ops[i] else InsertOp("", map[])
  }

  lemma LoggedIsMap(ops: seq<Op>, log: seq<nat>)
    requires forall k :: 0 <= k < |log| ==> log[k] < |ops|
    ensures Map(OpAt(ops), log) == Logged(ops, log)
  {
    MapAt(OpAt(ops), log);
  }

  lemma LoggedReordered(ops: seq<Op>, a: seq<nat>, b: seq<nat>)
    requires multiset(a) == multiset(b)
    requires (forall k :: 0 <= k < |a| ==> a[k] < |ops|) && (forall k :: 0 <= k < |b| ==> b[k] < |ops|)
    ensures multiset(Logged(ops, a)) == multiset(Logged(ops, b))
  {
    MapOfReordered(OpAt(ops), a, b);
    LoggedIsMap(ops, a);
    LoggedIsMap(ops, b);
  }

  lemma LogOfAll(ops: seq<Op>, log: seq<nat>)
    requires Distinct(log)
    requires (forall k :: 0 <= k < |log| ==> log[k] < |ops|) && (forall i: nat :: i < |ops| ==> i in log)
    ensures multiset(Logged(ops, log)) == multiset(ops)
  {
    var all := Upto(|ops|);
    EveryNumberOnce(log, |ops|);
    LoggedReordered(ops, log, all);
    assert Logged(ops, all) == ops;
  }

  lemma FinishedLogsEveryCall<V>(d: Overrides<V>, ops: seq<Op>, store: Store, s: State)
    requires Serial(d, ops, store, s) && Finished(s)
    ensures multiset(Logged(ops, s.log)) == multiset(ops)
  {
    LogOfAll(ops, s.log);
  }

  /** However two runs of the same reconciles interleave, they end at the same
      version of every key. */
  lemma FinishedRunsAgree<V(!new)>(d: Overrides<V>, ops: seq<Op>, store: Store, a: seq<nat>, b: seq<nat>, key: Key)
    requires Lawful(d) && AllReconciles(ops)
    requires Finished(Run(d, ops, Start(store, ops), a)) && Finished(Run(d, ops, Start(store, ops), b))
    ensures var x, y := Run(d, ops, Start(store, ops), a).store, Run(d, ops, Start(store, ops), b).store;
      (key in x <==> key in y) && (key in x ==> Compare(d, x[key], y[key]) == 0)
  {
    EveryRunIsSerial(d, ops, store, a);
    EveryRunIsSerial(d, ops, store, b);
    var s, t := Run(d, ops, Start(store, ops), a), Run(d, ops, Start(store, ops), b);
    FinishedLogsEveryCall(d, ops, store, s);
    FinishedLogsEveryCall(d, ops, store, t);
    SameDeliveries(ops, Logged(ops, s.log));
    VersionsIgnoreOrder(d, store, Logged(ops, s.log), Logged(ops, t.log), key);
  }
}
