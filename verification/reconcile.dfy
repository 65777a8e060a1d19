/** The store protocol of a generated table (ts/packages/dexie/src/db.ts): what
    one write does, in place, and what any interleaving of writes comes to.

    A read-write transaction excludes every other one on the same table while it
    runs (section 2.7 of the W3C Indexed Database API), which is the lock of the
    transition system below. Everything else is proved. */
module Reconcile {
  import opened Wrappers

  type Key = string

  /** A message, or a stored row: properties by name. */
  type Props = map<string, string>

  /** What a generated subclass overrides. `order` compares two versions the way
      `_compare` does: negative when the first is older. */
  datatype Overrides<!V> = Overrides(
    dehydrate: Props -> (Key, Props), versioned: bool, version: Props -> V, order: (V, V) -> int)

  ghost predicate Preorder<V(!new)>(order: (V, V) -> int) {
    && (forall a, b :: order(a, b) <= 0 <==> order(b, a) >= 0)
    && (forall a, b, c :: order(a, b) <= 0 && order(b, c) <= 0 ==> order(a, c) <= 0)
  }

  function WithoutSynthetic(p: Props): Props {
    p - {"$typeName", "$unknown"}
  }

  /** q is p without the two properties a message has and a row has not. */
  ghost predicate OnlySyntheticLeave(p: Props, q: Props) {
    forall name: string ::
      && (name in q <==> name in p && name != "$typeName" && name != "$unknown")
      && (name in q ==> q[name] == p[name])
  }

  /** A row carries the version of the message it was made from. */
  ghost predicate KeepsVersion<V>(d: Overrides<V>) {
    forall p {:trigger d.dehydrate(p)} :: d.version(WithoutSynthetic(d.dehydrate(p).1)) == d.version(p)
  }

  ghost predicate Lawful<V(!new)>(d: Overrides<V>) {
    d.versioned && Preorder(d.order) && KeepsVersion(d)
  }

  // ---- one write ----

  /** A write with its message dehydrated. */
  datatype Op = ReconcileOp(key: Key, row: Props) | InsertOp(key: Key, row: Props)

  /** Wrote: this row is now what is stored. Kept: the stored row was newer or
      the same. Refused: the key was taken. */
  datatype Answer = Wrote | Kept | Refused

  type Store = map<Key, Props>

  function Compare<V>(d: Overrides<V>, u: Props, v: Props): int {
    d.order(d.version(u), d.version(v))
  }

  function AnswerOf<V>(d: Overrides<V>, store: Store, op: Op): Answer {
    if op.InsertOp? then (if op.key in store then Refused else Wrote)
    else if d.versioned && op.key in store && Compare(d, store[op.key], op.row) >= 0 then Kept
    else Wrote
  }

  function After<V>(d: Overrides<V>, store: Store, op: Op): Store {
    if AnswerOf(d, store, op) == Wrote then store[op.key := op.row] else store
  }

  /** The row made of p is now what is stored under the key, and nothing else has
      changed. */
  ghost predicate Stores(before: Store, after: Store, key: Key, p: Props) {
    && after.Keys == before.Keys + {key} && OnlySyntheticLeave(p, after[key])
    && forall k :: k in before && k != key ==> after[k] == before[k]
  }

  /** A message object, which dehydration writes through. */
  class Message {
    var props: Props

    constructor (props: Props)
      ensures this.props == props
    {
      this.props := props;
    }

    /** Delete a property. */
    method Rm(key: string)
      modifies this
      ensures props == old(props) - {key}
    {
      props := props - {key};
    }
  }

  class TableBase<V> {
    const d: Overrides<V>
    var rows: Store

    constructor (d: Overrides<V>)
      ensures this.d == d && rows == map[]
    {
      this.d := d;
      rows := map[];
    }

    /** The row a message is stored as. The copy is what dehydration writes
        through, so the caller's message is as it was. */
    method MakeDehydrated(v: Message) returns (key: Key, data: Message)
      ensures fresh(data) && v.props == old(v.props)
      ensures key == d.dehydrate(v.props).0
      ensures data.props == WithoutSynthetic(d.dehydrate(v.props).1)
      ensures OnlySyntheticLeave(d.dehydrate(v.props).1, data.props)
    {
      var copy := new Message(v.props);
      var res := d.dehydrate(copy.props);
      copy.props := res.1;
      copy.Rm("$typeName");
      copy.Rm("$unknown");
      key, data := res.0, copy;
    }

    /** A free key is taken, and a taken one refused. */
    method Insert(v: Message) returns (r: Option<Key>)
      modifies this`rows
      ensures var key := d.dehydrate(v.props).0; r == if key in old(rows) then None else Some(key)
      ensures r.None? ==> rows == old(rows)
      ensures r.Some? ==> Stores(old(rows), rows, r.value, d.dehydrate(v.props).1)
      ensures var op := InsertOp(d.dehydrate(v.props).0, WithoutSynthetic(d.dehydrate(v.props).1));
        && rows == After(d, old(rows), op)
        && (r.Some? <==> AnswerOf(d, old(rows), op) == Wrote) && (r.None? <==> AnswerOf(d, old(rows), op) == Refused)
    {
      var k, data := MakeDehydrated(v);
      if k in rows {
        return None;
      }
      rows := rows[k := data.props];
      return Some(k);
    }

    /** True exactly when nothing of the key is stored or what is stored is older than
        the message, or versions do not count; then the message's row is stored, and
        otherwise nothing changes. */
    method Reconcile(v: Message) returns (wrote: bool)
      modifies this`rows
      ensures var key := d.dehydrate(v.props).0;
        wrote <==> !d.versioned || key !in old(rows) || d.order(d.version(old(rows)[key]), d.version(v.props)) < 0
      ensures !wrote ==> rows == old(rows)
      ensures wrote ==> Stores(old(rows), rows, d.dehydrate(v.props).0, d.dehydrate(v.props).1)
      ensures KeepsVersion(d) ==>
        var op := ReconcileOp(d.dehydrate(v.props).0, WithoutSynthetic(d.dehydrate(v.props).1));
        && rows == After(d, old(rows), op)
        && (wrote <==> AnswerOf(d, old(rows), op) == Wrote) && (!wrote <==> AnswerOf(d, old(rows), op) == Kept)
    {
      var k, data := MakeDehydrated(v);
      if !d.versioned {
        rows := rows[k := data.props];
        return true;
      }
      if k !in rows {
        rows := rows[k := data.props];
        return true;
      }
      // The message is compared, not the row made from it.
      if Compare(d, rows[k], v.props) >= 0 {
        return false;
      }
      rows := rows[k := data.props];
      return true;
    }
  }

  // ---- many writes, one at a time ----

  function Replay<V>(d: Overrides<V>, store: Store, ops: seq<Op>): Store {
    if ops == [] then store else After(d, Replay(d, store, ops[..|ops| - 1]), ops[|ops| - 1])
  }

  /** What op i of a run answers. */
  function AnswerAt<V>(d: Overrides<V>, store: Store, ops: seq<Op>, i: nat): Answer
    requires i < |ops|
  {
    AnswerOf(d, Replay(d, store, ops[..i]), ops[i])
  }

  /** b is at least as new as a. */
  predicate NotOlder<V>(d: Overrides<V>, a: Props, b: Props) {
    Compare(d, a, b) <= 0
  }

  lemma ReplayOneMore<V>(d: Overrides<V>, store: Store, ops: seq<Op>, op: Op)
    ensures Replay(d, store, ops + [op]) == After(d, Replay(d, store, ops), op)
  {
    assert (ops + [op])[..|ops + [op]| - 1] == ops;
  }

  lemma {:induction false} ReplaySplits<V>(d: Overrides<V>, store: Store, a: seq<Op>, b: seq<Op>)
    ensures Replay(d, store, a + b) == Replay(d, Replay(d, store, a), b)
  {
    if b == [] {
      assert a + b == a;
    } else {
      assert (a + b)[..|a + b| - 1] == a + b[..|b| - 1];
      ReplaySplits(d, store, a, b[..|b| - 1]);
    }
  }

  /** No run removes a key or makes a stored version older. */
  lemma {:induction false} ReplayNeverOlder<V(!new)>(d: Overrides<V>, store: Store, ops: seq<Op>, key: Key)
    requires Lawful(d) && key in store
    ensures key in Replay(d, store, ops) && NotOlder(d, store[key], Replay(d, store, ops)[key])
  {
    if ops != [] {
      ReplayNeverOlder(d, store, ops[..|ops| - 1], key);
    }
  }

  /** Whatever was delivered for a key, what is stored there is at least as new. */
  lemma ReplayCoversDelivered<V(!new)>(d: Overrides<V>, store: Store, ops: seq<Op>, i: nat)
    requires Lawful(d) && i < |ops| && ops[i].ReconcileOp?
    ensures var end := Replay(d, store, ops);
      ops[i].key in end && NotOlder(d, ops[i].row, end[ops[i].key])
  {
    var mid := Replay(d, store, ops[..i + 1]);
    assert ops[..i + 1] == ops[..i] + [ops[i]];
    ReplayOneMore(d, store, ops[..i], ops[i]);
    assert ops == ops[..i + 1] + ops[i + 1..];
    ReplaySplits(d, store, ops[..i + 1], ops[i + 1..]);
    ReplayNeverOlder(d, mid, ops[i + 1..], ops[i].key);
  }

  /** What is stored was there to begin with or was delivered. */
  lemma {:induction false} ReplayInventsNothing<V>(d: Overrides<V>, store: Store, ops: seq<Op>, key: Key)
    requires key in Replay(d, store, ops)
    ensures (key in store && Replay(d, store, ops)[key] == store[key])
         || exists i :: 0 <= i < |ops| && ops[i].key == key && ops[i].row == Replay(d, store, ops)[key]
  {
    if ops != [] {
      var n := |ops| - 1;
      if AnswerAt(d, store, ops, n) == Wrote && ops[n].key == key {
        assert ops[n].row == Replay(d, store, ops)[key];
      } else {
        ReplayInventsNothing(d, store, ops[..n], key);
      }
    }
  }

  /** The rows answered true for one key are strictly increasing in version, and
      each is strictly newer than what was there before the run. */
  lemma WrittenVersionsIncrease<V(!new)>(d: Overrides<V>, store: Store, ops: seq<Op>, i: nat, j: nat)
    requires Lawful(d) && i < j < |ops| && ops[i].key == ops[j].key
    requires AnswerAt(d, store, ops, i) == Wrote && AnswerAt(d, store, ops, j) == Wrote
    ensures Compare(d, ops[i].row, ops[j].row) < 0
    ensures ops[i].key in store ==> Compare(d, store[ops[i].key], ops[i].row) < 0
  {
    var key := ops[i].key;
    WrittenIsCovered(d, store, ops, i, j);
    WrittenIsNewer(d, Replay(d, store, ops[..j]), ops[j]);
    if key in store {
      ReplayNeverOlder(d, store, ops[..i], key);
      WrittenIsNewer(d, Replay(d, store, ops[..i]), ops[i]);
    }
  }

  lemma WrittenIsNewer<V>(d: Overrides<V>, store: Store, op: Op)
    requires d.versioned && AnswerOf(d, store, op) == Wrote && op.key in store
    ensures Compare(d, store[op.key], op.row) < 0
  {
  }

  /** What was written is what is there, or older, by the time of a later delivery. */
  lemma WrittenIsCovered<V(!new)>(d: Overrides<V>, store: Store, ops: seq<Op>, i: nat, j: nat)
    requires Lawful(d) && i < j < |ops| && AnswerAt(d, store, ops, i) == Wrote
    ensures var later := Replay(d, store, ops[..j]);
      ops[i].key in later && NotOlder(d, ops[i].row, later[ops[i].key])
  {
    var mid := Replay(d, store, ops[..i + 1]);
    assert ops[..i + 1] == ops[..i] + [ops[i]];
    ReplayOneMore(d, store, ops[..i], ops[i]);
    assert ops[..j] == ops[..i + 1] + ops[i + 1..j];
    ReplaySplits(d, store, ops[..i + 1], ops[i + 1..j]);
    ReplayNeverOlder(d, mid, ops[i + 1..j], ops[i].key);
  }

  /** A reconcile delivered before is stale: delivering it again writes nothing
      and answers false. */
  lemma ReplayedWriteIsKept<V(!new)>(d: Overrides<V>, store: Store, ops: seq<Op>, i: nat)
    requires Lawful(d) && i < |ops| && ops[i].ReconcileOp?
    ensures AnswerOf(d, Replay(d, store, ops), ops[i]) == Kept
    ensures Replay(d, store, ops + [ops[i]]) == Replay(d, store, ops)
  {
    ReplayCoversDelivered(d, store, ops, i);
    ReplayOneMore(d, store, ops, ops[i]);
  }

  // ---- the order of delivery ----

  ghost predicate AllReconciles(ops: seq<Op>) {
    forall i :: 0 <= i < |ops| ==> ops[i].ReconcileOp?
  }

  ghost predicate Delivers(ops: seq<Op>, key: Key, row: Props) {
    ReconcileOp(key, row) in ops
  }

  /** What a run leaves under a key: the newest of the row that was there and the
      rows delivered for it. */
  lemma FinalIsNewest<V(!new)>(d: Overrides<V>, store: Store, ops: seq<Op>, key: Key)
    requires Lawful(d) && AllReconciles(ops)
    ensures var end := Replay(d, store, ops);
      && (key in end <==> key in store || exists row :: Delivers(ops, key, row))
      && (key in end ==>
           && ((key in store && end[key] == store[key]) || Delivers(ops, key, end[key]))
           && (key in store ==> NotOlder(d, store[key], end[key]))
           && forall row :: Delivers(ops, key, row) ==> NotOlder(d, row, end[key]))
  {
    var end := Replay(d, store, ops);
    if key in store {
      ReplayNeverOlder(d, store, ops, key);
    }
    if key in end {
      ReplayInventsNothing(d, store, ops, key);
      assert key in store || Delivers(ops, key, end[key]) by {
        if key !in store {
          var i :| 0 <= i < |ops| && ops[i].key == key && ops[i].row == end[key];
          assert ops[i] == ReconcileOp(key, end[key]);
        }
      }
      if !(key in store && end[key] == store[key]) {
        var i :| 0 <= i < |ops| && ops[i].key == key && ops[i].row == end[key];
        assert ops[i] == ReconcileOp(key, end[key]);
      }
    }
    forall row | Delivers(ops, key, row) ensures key in end && NotOlder(d, row, end[key]) {
      var i :| 0 <= i < |ops| && ops[i] == ReconcileOp(key, row);
      ReplayCoversDelivered(d, store, ops, i);
    }
  }

  /** Two runs that deliver the same reconciles in different orders hold the
      same keys, at versions neither of which is older than the other. */
  lemma VersionsIgnoreOrder<V(!new)>(d: Overrides<V>, store: Store, p: seq<Op>, q: seq<Op>, key: Key)
    requires Lawful(d) && AllReconciles(p) && multiset(p) == multiset(q)
    ensures key in Replay(d, store, p) <==> key in Replay(d, store, q)
    ensures key in Replay(d, store, p) ==> Compare(d, Replay(d, store, p)[key], Replay(d, store, q)[key]) == 0
  {
    SameDeliveries(p, q);
    FinalIsNewest(d, store, p, key);
    FinalIsNewest(d, store, q, key);
    if key in Replay(d, store, p) && key in Replay(d, store, q) {
      var a, b := Replay(d, store, p)[key], Replay(d, store, q)[key];
      assert NotOlder(d, a, b) && NotOlder(d, b, a);
    }
  }

  lemma SameDeliveries(p: seq<Op>, q: seq<Op>)
    requires multiset(p) == multiset(q) && AllReconciles(p)
    ensures AllReconciles(q)
    ensures forall key, row :: Delivers(p, key, row) <==> Delivers(q, key, row)
  {
    forall i | 0 <= i < |q| ensures q[i].ReconcileOp? {
      assert q[i] in multiset(p);
    }
    forall key, row ensures Delivers(p, key, row) <==> Delivers(q, key, row) {
      assert ReconcileOp(key, row) in multiset(p) <==> ReconcileOp(key, row) in multiset(q);
    }
  }

  /** Two different rows are delivered for one key at one version, nothing
      delivered for it is newer, and the row that was there is older. */
  ghost predicate TopTie<V(!new)>(d: Overrides<V>, store: Store, ops: seq<Op>, key: Key, a: Props, b: Props) {
    && a != b && Delivers(ops, key, a) && Delivers(ops, key, b)
    && Compare(d, a, b) == 0
    && (key in store ==> Compare(d, store[key], a) < 0)
    && (forall row :: Delivers(ops, key, row) ==> NotOlder(d, row, a))
  }

  lemma RowIgnoresOrder<V(!new)>(d: Overrides<V>, store: Store, p: seq<Op>, q: seq<Op>, key: Key)
    requires Lawful(d) && AllReconciles(p) && multiset(p) == multiset(q)
    requires key in Replay(d, store, p) && key in Replay(d, store, q)
    requires forall a, b :: !TopTie(d, store, p, key, a, b)
    ensures Replay(d, store, p)[key] == Replay(d, store, q)[key]
  {
    var a, b := Replay(d, store, p)[key], Replay(d, store, q)[key];
    SameDeliveries(p, q);
    VersionsIgnoreOrder(d, store, p, q, key);
    FinalIsNewest(d, store, p, key);
    FinalIsNewest(d, store, q, key);
    if key in store && Compare(d, store[key], a) >= 0 {
      forall i | 0 <= i < |p| && p[i].key == key ensures NotOlder(d, p[i].row, store[key]) {
        assert Delivers(p, key, p[i].row);
      }
      forall i | 0 <= i < |q| && q[i].key == key ensures NotOlder(d, q[i].row, store[key]) {
        assert q[i] == ReconcileOp(key, q[i].row) && Delivers(q, key, q[i].row);
      }
      StoredRowStays(d, store, p, key);
      StoredRowStays(d, store, q, key);
    } else {
      assert !TopTie(d, store, p, key, a, b);
    }
  }

  /** The stored row wins a tie: it stays unless something strictly newer comes. */
  lemma {:induction false} StoredRowStays<V(!new)>(d: Overrides<V>, store: Store, ops: seq<Op>, key: Key)
    requires Lawful(d) && AllReconciles(ops) && key in store
    requires forall i :: 0 <= i < |ops| && ops[i].key == key ==> NotOlder(d, ops[i].row, store[key])
    ensures key in Replay(d, store, ops) && Replay(d, store, ops)[key] == store[key]
  {
    if ops != [] {
      StoredRowStays(d, store, ops[..|ops| - 1], key);
    }
  }

  /** An order that delivers op first. */
  lemma DeliveredFirst(ops: seq<Op>, op: Op) returns (p: seq<Op>)
    requires op in ops
    ensures multiset(p) == multiset(ops) && p[..1] == [op]
  {
    var i :| 0 <= i < |ops| && ops[i] == op;
    p := [op] + ops[..i] + ops[i + 1..];
    assert ops == ops[..i] + [op] + ops[i + 1..];
  }

  lemma FirstTopStays<V(!new)>(d: Overrides<V>, store: Store, p: seq<Op>, key: Key, a: Props)
    requires Lawful(d) && AllReconciles(p) && p != [] && p[0] == ReconcileOp(key, a)
    requires key in store ==> Compare(d, store[key], a) < 0
    requires forall row :: Delivers(p, key, row) ==> NotOlder(d, row, a)
    ensures key in Replay(d, store, p) && Replay(d, store, p)[key] == a
  {
    var rest := p[1..];
    assert p == [p[0]] + rest;
    ReplaySplits(d, store, [p[0]], rest);
    ReplayOneMore(d, store, [], p[0]);
    assert [] + [p[0]] == [p[0]];
    forall i | 0 <= i < |rest| && rest[i].key == key ensures NotOlder(d, rest[i].row, a) {
      assert p[i + 1] == rest[i] && Delivers(p, key, rest[i].row);
    }
    StoredRowStays(d, Replay(d, store, [p[0]]), rest, key);
  }

  /** The rows themselves, and not only their versions, are the same under every
      order of delivery exactly when no two different rows tie at the top. */
  lemma RowsIgnoreOrder<V(!new)>(d: Overrides<V>, store: Store, ops: seq<Op>)
    requires Lawful(d) && AllReconciles(ops)
    ensures (forall p, q :: multiset(p) == multiset(q) == multiset(ops) ==> Replay(d, store, p) == Replay(d, store, q))
       <==> (forall key, a, b :: !TopTie(d, store, ops, key, a, b))
  {
    if key, a, b :| TopTie(d, store, ops, key, a, b) {
      var p := DeliveredFirst(ops, ReconcileOp(key, a));
      var q := DeliveredFirst(ops, ReconcileOp(key, b));
      SameDeliveries(ops, p);
      SameDeliveries(ops, q);
      assert p[0] == p[..1][0] && q[0] == q[..1][0];
      FirstTopStays(d, store, p, key, a);
      FirstTopStays(d, store, q, key, b);
      assert Replay(d, store, p)[key] != Replay(d, store, q)[key];
    } else {
      forall p, q | multiset(p) == multiset(q) == multiset(ops) ensures Replay(d, store, p) == Replay(d, store, q) {
        SameDeliveries(ops, p);
        forall key ensures key in Replay(d, store, p) <==> key in Replay(d, store, q)
                   ensures key in Replay(d, store, p) ==> Replay(d, store, p)[key] == Replay(d, store, q)[key]
        {
          VersionsIgnoreOrder(d, store, p, q, key);
          forall a, b ensures !TopTie(d, store, p, key, a, b) {
            assert !TopTie(d, store, ops, key, a, b);
          }
          if key in Replay(d, store, p) {
            RowIgnoresOrder(d, store, p, q, key);
          }
        }
      }
    }
  }

  // ---- the comparison a generated table has ----

  datatype Timestamp = Timestamp(seconds: int, nanos: int)

  /** A missing version is compared without being looked at (target/ts/entity.go). */
  function CompareTimes(a: Option<Timestamp>, b: Option<Timestamp>): int {
    if a.None? then 1
    else if b.None? then -1
    else
      var d := a.value.seconds - b.value.seconds;
      if d > 0 then 1 else if d < 0 then -1 else a.value.nanos - b.value.nanos
  }

  /** The earlier of two present versions is the older one, to the nanosecond, and
      two are the same only when they are equal. A missing one is newer than anything
      it is compared with, as the first of the two, and older as the second. */
  lemma TimesCompare(a: Timestamp, b: Timestamp, c: Option<Timestamp>)
    ensures CompareTimes(Some(a), Some(b)) < 0 <==>
      a.seconds < b.seconds || (a.seconds == b.seconds && a.nanos < b.nanos)
    ensures CompareTimes(Some(a), Some(b)) == 0 <==> a == b
    ensures CompareTimes(None, c) > 0 && CompareTimes(Some(a), None) < 0
  {
  }

  /** On messages that carry their version field it is the order the protocol
      needs. */
  lemma TimesArePreordered()
    ensures Preorder((a: Timestamp, b: Timestamp) => CompareTimes(Some(a), Some(b)))
  {
  }

  /** It is the order the protocol needs of a set of versions exactly when none
      of them is missing: a message without one is written over anything and
      then never replaced, newer or not. */
  lemma TimesArePreorderedIffPresent(vs: set<Option<Timestamp>>)
    ensures (&& (forall a, b | a in vs && b in vs :: CompareTimes(a, b) <= 0 <==> CompareTimes(b, a) >= 0)
             && (forall a, b, c | a in vs && b in vs && c in vs && CompareTimes(a, b) <= 0 && CompareTimes(b, c) <= 0 ::
                   CompareTimes(a, c) <= 0))
       <==> None !in vs
  {
    if None in vs {
      assert CompareTimes(None, None) > 0;
    }
  }
}
