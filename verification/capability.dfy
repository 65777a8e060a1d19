/** What a schema needs that a store cannot do (gen/capability.go). */
module Capability {
  import opened Wrappers
  import opened Sorting
  import opened Model
  import opened Backend

  datatype Shortfall = Shortfall(kind: ShortfallKind, path: string)

  // ---- what each check records ----

  function IndexWhere(at: string, idx: Index): string {
    at + ".{indexes}(" + idx.spec.name + ")"
  }

  /** The type an index member is stored as: an edge's is its target's key's. */
  function StoredType(p: Prop): Option<Type>
    reads *
  {
    match p
    case FieldProp(f) => Some(f.spec.typ)
    case EdgeProp(ed) => if ed.TargetKey().None? then None else Some(ed.TargetKey().value.spec.typ)
  }

  function MemberFound(p: Prop, where: string): seq<Shortfall>
    reads *
  {
    var t := StoredType(p);
    if t.None? || t.value.IsOrderable() then [] else [Shortfall(UnorderableMember, where)]
  }

  function MembersFound(props: seq<Prop>, where: string): seq<Shortfall>
    reads *
  {
    if props == [] then []
    else MembersFound(props[..|props| - 1], where) + MemberFound(props[|props| - 1], where)
  }

  function IndexFound(idx: Index, caps: Capabilities, at: string): seq<Shortfall>
    reads *
  {
    var where := IndexWhere(at, idx);
    if idx.spec.unique && idx.IsComposite() && !caps.uniqueCompoundIndex then [Shortfall(UniqueCompoundIndex, where)]
    else
      (if idx.ExcludesErased() && !caps.partialIndex then [Shortfall(PartialIndex, where)] else [])
      + (if caps.maxIndexArity > 0 && |idx.props| > caps.maxIndexArity then [Shortfall(IndexArity, where)] else [])
      + MembersFound(idx.props, where)
  }

  function PropFound(p: Prop, caps: Capabilities, at: string): seq<Shortfall>
    reads p.Heap()
  {
    if p.IsUnique() && p.Type() == TypeBytes && !caps.binaryKey then [Shortfall(BinaryKey, at + "." + p.Name())] else []
  }

  function IndexesFound(indexes: seq<Index>, caps: Capabilities, at: string): seq<Shortfall>
    reads *
  {
    if indexes == [] then []
    else IndexesFound(indexes[..|indexes| - 1], caps, at) + IndexFound(indexes[|indexes| - 1], caps, at)
  }

  function PropsFound(props: seq<Prop>, caps: Capabilities, at: string): seq<Shortfall>
    reads *
  {
    if props == [] then []
    else PropsFound(props[..|props| - 1], caps, at) + PropFound(props[|props| - 1], caps, at)
  }

  function EntityFound(e: Entity, caps: Capabilities): seq<Shortfall>
    reads *
  {
    IndexesFound(e.spec.indexes, caps, e.spec.fullName) + PropsFound(e.props, caps, e.spec.fullName)
    + if e.version != null && !caps.transactions
      then [Shortfall(NoTransactions, e.spec.fullName + "." + e.version.spec.names.proto)] else []
  }

  function SchemaFound(es: seq<Entity>, caps: Capabilities): seq<Shortfall>
    reads *
  {
    if es == [] then []
    else SchemaFound(es[..|es| - 1], caps) + EntityFound(es[|es| - 1], caps)
  }

  // ---- the checks ----

  method CheckMember(p: Prop, where: string) returns (out: seq<Shortfall>)
    ensures out == MemberFound(p, where)
  {
    var t := p.Type();
    if p.EdgeProp? {
      var key := p.edge.TargetKey();
      if key.None? {
        return [];
      }
      t := key.value.spec.typ;
    }
    return if t.IsOrderable() then [] else [Shortfall(UnorderableMember, where)];
  }

  method CheckMembers(props: seq<Prop>, where: string) returns (out: seq<Shortfall>)
    ensures out == MembersFound(props, where)
  {
    out := [];
    for i := 0 to |props|
      invariant out == MembersFound(props[..i], where)
    {
      assert props[..i + 1][..i] == props[..i];
      var more := CheckMember(props[i], where);
      out := out + more;
    }
    assert props[..|props|] == props;
  }

  method CheckIndex(idx: Index, caps: Capabilities, at: string) returns (out: seq<Shortfall>)
    ensures out == IndexFound(idx, caps, at)
  {
    var where := IndexWhere(at, idx);
    out := [];
    if idx.spec.unique && idx.IsComposite() && !caps.uniqueCompoundIndex {
      // Masks whatever else this index lacks.
      return [Shortfall(UniqueCompoundIndex, where)];
    }
    if idx.ExcludesErased() && !caps.partialIndex {
      out := out + [Shortfall(PartialIndex, where)];
    }
    if caps.maxIndexArity > 0 && |idx.props| > caps.maxIndexArity {
      out := out + [Shortfall(IndexArity, where)];
    }
    var more := CheckMembers(idx.props, where);
    out := out + more;
  }

  method CheckProp(p: Prop, caps: Capabilities, at: string) returns (out: seq<Shortfall>)
    ensures out == PropFound(p, caps, at)
  {
    if !p.IsUnique() {
      return [];
    }
    if p.Type() == TypeBytes && !caps.binaryKey {
      return [Shortfall(BinaryKey, at + "." + p.Name())];
    }
    return [];
  }

  method CheckProps(props: seq<Prop>, caps: Capabilities, at: string) returns (out: seq<Shortfall>)
    ensures out == PropsFound(props, caps, at)
  {
    out := [];
    for i := 0 to |props|
      invariant out == PropsFound(props[..i], caps, at)
    {
      assert props[..i + 1][..i] == props[..i];
      var more := CheckProp(props[i], caps, at);
      out := out + more;
    }
    assert props[..|props|] == props;
  }

  method CheckEntity(e: Entity, caps: Capabilities) returns (out: seq<Shortfall>)
    ensures out == EntityFound(e, caps)
  {
    var at, indexes, props := e.spec.fullName, e.spec.indexes, e.props;
    out := [];
    for i := 0 to |indexes|
      invariant out == IndexesFound(indexes[..i], caps, at)
    {
      assert indexes[..i + 1][..i] == indexes[..i];
      var more := CheckIndex(indexes[i], caps, at);
      out := out + more;
    }
    assert indexes[..|indexes|] == indexes;
    var more := CheckProps(props, caps, at);
    out := out + more;
    if e.version != null && !caps.transactions {
      out := out + [Shortfall(NoTransactions, at + "." + e.version.spec.names.proto)];
    }
  }

  /** Every shortfall, entity by entity: its indexes, its props, its lock. */
  method CheckCapabilities(es: seq<Entity>, caps: Capabilities) returns (out: seq<Shortfall>)
    ensures out == SchemaFound(es, caps)
  {
    out := [];
    for i := 0 to |es|
      invariant out == SchemaFound(es[..i], caps)
    {
      assert es[..i + 1][..i] == es[..i];
      var more := CheckEntity(es[i], caps);
      out := out + more;
    }
    assert es[..|es|] == es;
  }

  // ---- what no shortfall means ----

  /** A document or a message, which nothing orders. */
  ghost predicate NoOrder(t: Type) {
    t in {TypeUnspecified, TypeJSON, TypeMessage}
  }

  /** What is stored of the prop has no order: of an edge that is its target's
      key. */
  ghost predicate Unorderable(p: Prop)
    reads *
  {
    match p
    case FieldProp(f) => NoOrder(f.spec.typ)
    case EdgeProp(ed) => ed.target != null && ed.target.key != null && NoOrder(ed.target.key.spec.typ)
  }

  /** Unique among the rows that are still there, of an entity that keeps the
      others. */
  ghost predicate LeavesErasedOut(idx: Index)
    reads *
  {
    idx.spec.unique && !idx.spec.includesErased && idx.parent != null && idx.parent.erased != null
  }

  /** A field of bytes with a uniqueness to keep. */
  ghost predicate UniqueBytes(p: Prop) {
    match p case FieldProp(f) => f.spec.unique && f.spec.typ == TypeBytes case EdgeProp(_) => false
  }

  /** The store can keep everything this index says. */
  ghost predicate IndexHeld(idx: Index, caps: Capabilities)
    reads *
  {
    && (idx.spec.unique && |idx.props| > 1 ==> caps.uniqueCompoundIndex)
    && (LeavesErasedOut(idx) ==> caps.partialIndex)
    && (caps.maxIndexArity > 0 ==> |idx.props| <= caps.maxIndexArity)
    && forall p | p in idx.props :: !Unorderable(p)
  }

  ghost predicate EntityHeld(e: Entity, caps: Capabilities)
    reads *
  {
    && (forall idx | idx in e.spec.indexes :: IndexHeld(idx, caps))
    && (forall p | p in e.props :: UniqueBytes(p) ==> caps.binaryKey)
    && (e.version != null ==> caps.transactions)
  }

  lemma {:induction false} NoMembersFound(props: seq<Prop>, where: string)
    ensures MembersFound(props, where) == [] <==>
      forall i {:trigger Unorderable(props[i])} :: 0 <= i < |props| ==> !Unorderable(props[i])
  {
    if props != [] {
      var n := |props| - 1;
      NoMembersFound(props[..n], where);
      assert forall i {:trigger Unorderable(props[i])} {:trigger props[..n][i]} ::
        0 <= i < n ==> props[..n][i] == props[i];
      assert MemberFound(props[n], where) == [] <==> !Unorderable(props[n]);
      if MembersFound(props, where) == [] {
        forall i | 0 <= i <= n ensures !Unorderable(props[i]) {
          assert i < n ==> !Unorderable(props[..n][i]);
        }
      }
    }
  }

  lemma {:induction false} NoPropsFound(props: seq<Prop>, caps: Capabilities, at: string)
    ensures PropsFound(props, caps, at) == [] <==>
      forall i :: 0 <= i < |props| ==> UniqueBytes(props[i]) ==> caps.binaryKey
  {
    if props != [] {
      NoPropsFound(props[..|props| - 1], caps, at);
    }
  }

  lemma NoIndexFound(idx: Index, caps: Capabilities, at: string)
    ensures IndexFound(idx, caps, at) == [] <==> IndexHeld(idx, caps)
  {
    NoMembersFound(idx.props, IndexWhere(at, idx));
    assert forall i :: 0 <= i < |idx.props| ==> idx.props[i] in idx.props;
  }

  lemma {:induction false} NoIndexesFound(indexes: seq<Index>, caps: Capabilities, at: string)
    ensures IndexesFound(indexes, caps, at) == [] <==> forall i :: 0 <= i < |indexes| ==> IndexHeld(indexes[i], caps)
  {
    if indexes != [] {
      NoIndexesFound(indexes[..|indexes| - 1], caps, at);
      NoIndexFound(indexes[|indexes| - 1], caps, at);
    }
  }

  lemma NoEntityFound(e: Entity, caps: Capabilities)
    ensures EntityFound(e, caps) == [] <==> EntityHeld(e, caps)
  {
    NoIndexesFound(e.spec.indexes, caps, e.spec.fullName);
    NoPropsFound(e.props, caps, e.spec.fullName);
  }

  /** Nothing is reported exactly when the store can keep everything the schema
      says, although an index that is refused for being compound is asked
      nothing more. */
  lemma {:induction false} NoShortfallIffHeld(es: seq<Entity>, caps: Capabilities)
    ensures SchemaFound(es, caps) == [] <==>
      forall i {:trigger EntityHeld(es[i], caps)} :: 0 <= i < |es| ==> EntityHeld(es[i], caps)
  {
    if es != [] {
      var n := |es| - 1;
      NoShortfallIffHeld(es[..n], caps);
      NoEntityFound(es[n], caps);
      assert forall i {:trigger EntityHeld(es[i], caps)} :: 0 <= i < n ==> es[..n][i] == es[i];
    }
  }

  // ---- which shortfalls there are ----

  /** Unique over several members, and the store keeps no such index: whatever else
      the index lacks goes unsaid. */
  ghost predicate Masked(idx: Index, caps: Capabilities)
    reads idx
  {
    idx.spec.unique && |idx.props| > 1 && !caps.uniqueCompoundIndex
  }

  ghost predicate SomeUnorderable(props: seq<Prop>)
    reads *
  {
    exists i {:trigger Unorderable(props[i])} :: 0 <= i < |props| && Unorderable(props[i])
  }

  /** What the store lacks for an index, kind by kind. */
  ghost predicate IndexLacks(idx: Index, caps: Capabilities, kind: ShortfallKind)
    reads *
  {
    match kind
    case UniqueCompoundIndex => Masked(idx, caps)
    case PartialIndex => !Masked(idx, caps) && LeavesErasedOut(idx) && !caps.partialIndex
    case IndexArity => !Masked(idx, caps) && 0 < caps.maxIndexArity < |idx.props|
    case UnorderableMember => !Masked(idx, caps) && SomeUnorderable(idx.props)
    case _ => false
  }

  ghost predicate IndexSays(idx: Index, caps: Capabilities, at: string, s: Shortfall)
    reads *
  {
    IndexLacks(idx, caps, s.kind) && s.path == at + ".{indexes}(" + idx.spec.name + ")"
  }

  ghost predicate PropSays(p: Prop, caps: Capabilities, at: string, s: Shortfall) {
    UniqueBytes(p) && !caps.binaryKey && s == Shortfall(BinaryKey, at + "." + p.field.spec.names.proto)
  }

  ghost predicate EntitySays(e: Entity, caps: Capabilities, s: Shortfall)
    reads *
  {
    var at := e.spec.fullName;
    || (exists i :: 0 <= i < |e.spec.indexes| && IndexSays(e.spec.indexes[i], caps, at, s))
    || (exists i :: 0 <= i < |e.props| && PropSays(e.props[i], caps, at, s))
    || (e.version != null && !caps.transactions
        && s == Shortfall(NoTransactions, at + "." + e.version.spec.names.proto))
  }

  lemma {:induction false} MembersSaid(props: seq<Prop>, where: string, s: Shortfall)
    ensures s in MembersFound(props, where) <==>
      s == Shortfall(UnorderableMember, where) && SomeUnorderable(props)
  {
    if props != [] {
      var n := |props| - 1;
      MembersSaid(props[..n], where, s);
      if i :| 0 <= i < n && Unorderable(props[..n][i]) {
        assert Unorderable(props[i]);
      }
      assert Unorderable(props[n]) <==> MemberFound(props[n], where) != [];
      if i :| 0 <= i <= n && Unorderable(props[i]) {
        assert i < n ==> Unorderable(props[..n][i]);
      }
    }
  }

  lemma IndexSaid(idx: Index, caps: Capabilities, at: string, s: Shortfall)
    ensures s in IndexFound(idx, caps, at) <==> IndexSays(idx, caps, at, s)
  {
    MembersSaid(idx.props, IndexWhere(at, idx), s);
  }

  lemma {:induction false} IndexesSaid(indexes: seq<Index>, caps: Capabilities, at: string, s: Shortfall)
    ensures s in IndexesFound(indexes, caps, at) <==>
      exists i :: 0 <= i < |indexes| && IndexSays(indexes[i], caps, at, s)
  {
    if indexes != [] {
      var n := |indexes| - 1;
      IndexesSaid(indexes[..n], caps, at, s);
      IndexSaid(indexes[n], caps, at, s);
      assert forall i :: 0 <= i < n ==> indexes[..n][i] == indexes[i];
    }
  }

  lemma {:induction false} PropsSaid(props: seq<Prop>, caps: Capabilities, at: string, s: Shortfall)
    ensures s in PropsFound(props, caps, at) <==> exists i :: 0 <= i < |props| && PropSays(props[i], caps, at, s)
  {
    if props != [] {
      var n := |props| - 1;
      PropsSaid(props[..n], caps, at, s);
      assert forall i :: 0 <= i < n ==> props[..n][i] == props[i];
    }
  }

  lemma EntitySaid(e: Entity, caps: Capabilities, s: Shortfall)
    ensures s in EntityFound(e, caps) <==> EntitySays(e, caps, s)
  {
    IndexesSaid(e.spec.indexes, caps, e.spec.fullName, s);
    PropsSaid(e.props, caps, e.spec.fullName, s);
  }

  lemma {:induction false} ShortfallsByEntity(es: seq<Entity>, caps: Capabilities, s: Shortfall)
    ensures s in SchemaFound(es, caps) <==>
      exists i {:trigger EntityFound(es[i], caps)} :: 0 <= i < |es| && s in EntityFound(es[i], caps)
  {
    if es != [] {
      var n := |es| - 1;
      ShortfallsByEntity(es[..n], caps, s);
      assert forall i :: 0 <= i < n ==> es[..n][i] == es[i];
      assert s in SchemaFound(es, caps) <==> s in SchemaFound(es[..n], caps) || s in EntityFound(es[n], caps);
    }
  }

  /** A shortfall is reported exactly when something in the schema asks, at that
      path, for what the store lacks. */
  lemma ShortfallsSaid(es: seq<Entity>, caps: Capabilities, s: Shortfall)
    ensures s in SchemaFound(es, caps) <==> exists i :: 0 <= i < |es| && EntitySays(es[i], caps, s)
  {
    ShortfallsByEntity(es, caps, s);
    forall i | 0 <= i < |es| ensures s in EntityFound(es[i], caps) <==> EntitySays(es[i], caps, s) {
      EntitySaid(es[i], caps, s);
    }
  }

  // ---- store by store ----

  /** An index asks that of a store which cannot do it. No store lacks a compound
      index, and Postgres alone counts members. */
  ghost predicate IndexWants(b: Store, idx: Index, kind: ShortfallKind)
    reads *
  {
    match kind
    case PartialIndex => (b.Dexie? || b == EntSql(MySQL)) && LeavesErasedOut(idx)
    case IndexArity => b == EntSql(Postgres) && |idx.props| > 32
    case UnorderableMember => SomeUnorderable(idx.props)
    case _ => false
  }

  ghost predicate IndexWantsAt(b: Store, idx: Index, at: string, s: Shortfall)
    reads *
  {
    IndexWants(b, idx, s.kind) && s.path == at + ".{indexes}(" + idx.spec.name + ")"
  }

  /** Something of the entity asks, at that path, for what the store cannot do. Only
      Dexie keys nothing by bytes, and every store has transactions. */
  ghost predicate EntityWants(b: Store, e: Entity, s: Shortfall)
    reads *
  {
    || (exists i :: 0 <= i < |e.spec.indexes| && IndexWantsAt(b, e.spec.indexes[i], e.spec.fullName, s))
    || (b.Dexie? && exists i :: 0 <= i < |e.props| && BytesAt(e.props[i], e.spec.fullName, s))
  }

  ghost predicate BytesAt(p: Prop, at: string, s: Shortfall) {
    UniqueBytes(p) && s == Shortfall(BinaryKey, at + "." + p.field.spec.names.proto)
  }

  lemma EntityMeets(b: Store, e: Entity, s: Shortfall)
    ensures EntitySays(e, b.Caps(), s) <==> EntityWants(b, e, s)
  {
    var caps, at, indexes := b.Caps(), e.spec.fullName, e.spec.indexes;
    forall i | 0 <= i < |indexes|
      ensures IndexSays(indexes[i], caps, at, s) <==> IndexWantsAt(b, indexes[i], at, s)
    {
      assert IndexLacks(indexes[i], caps, s.kind) <==> IndexWants(b, indexes[i], s.kind);
    }
    forall i | 0 <= i < |e.props|
      ensures PropSays(e.props[i], caps, at, s) <==> b.Dexie? && BytesAt(e.props[i], at, s)
    {
    }
  }

  /** The shortfalls a run can meet, store by store. */
  lemma ShortfallsOfStore(b: Store, es: seq<Entity>, s: Shortfall)
    ensures s in SchemaFound(es, b.Caps()) <==> exists i :: 0 <= i < |es| && EntityWants(b, es[i], s)
  {
    ShortfallsSaid(es, b.Caps(), s);
    forall i | 0 <= i < |es| ensures EntitySays(es[i], b.Caps(), s) <==> EntityWants(b, es[i], s) {
      EntityMeets(b, es[i], s);
    }
  }

  // ---- what to do about them ----

  /** Whether the run goes on in spite of one: what the backend says of that kind,
      or else whether it is strict. */
  predicate Tolerates(b: Store, s: Shortfall) {
    match b.Accepts(s.kind) case Some(ok) => ok case None => !b.Strict()
  }

  /** The kind is named in the list, by the name a configuration spells it with. */
  ghost predicate Named(kind: ShortfallKind, accept: seq<string>) {
    match kind
    case UniqueCompoundIndex => "unique_compound_index" in accept
    case PartialIndex => "partial_index" in accept
    case IndexArity => "index_arity" in accept
    case UnorderableMember => "unorderable_index_member" in accept
    case BinaryKey => "binary_key" in accept
    case NoTransactions => "no_transactions" in accept
  }

  /** A run goes on in spite of a shortfall always while Dexie spells as the older
      generator does, never with a SQL store, and otherwise exactly when the
      section names its kind. */
  lemma GoesOnIff(b: Store, s: Shortfall)
    ensures Tolerates(b, s) <==>
      match b
      case Dexie(opts) => opts.compat != "none" || Named(s.kind, opts.accept)
      case EntSql(_) => false
      case Grdb(accept) => Named(s.kind, accept)
  {
  }

  method Partition(b: Store, found: seq<Shortfall>) returns (accepted: seq<Shortfall>, refused: seq<Shortfall>)
    ensures Merges(accepted, refused, found)
    ensures forall i :: 0 <= i < |accepted| ==> Tolerates(b, accepted[i])
    ensures forall i :: 0 <= i < |refused| ==> !Tolerates(b, refused[i])
  {
    accepted, refused := [], [];
    for i := 0 to |found|
      invariant Merges(accepted, refused, found[..i])
      invariant forall k :: 0 <= k < |accepted| ==> Tolerates(b, accepted[k])
      invariant forall k :: 0 <= k < |refused| ==> !Tolerates(b, refused[k])
    {
      var sf := found[i];
      assert found[..i + 1][..i] == found[..i];
      var ok := !b.Strict();
      var perKind := b.Accepts(sf.kind);
      if perKind.Some? {
        ok := perKind.value;
      }
      if ok {
        accepted := accepted + [sf];
        assert accepted[..|accepted| - 1] + [sf] == accepted;
      } else {
        refused := refused + [sf];
        assert refused[..|refused| - 1] + [sf] == refused;
      }
    }
    assert found[..|found|] == found;
  }

  /** s is a and b shuffled together, each in its own order: nothing is lost,
      repeated or moved past its neighbours. */
  ghost predicate Merges<T>(a: seq<T>, b: seq<T>, s: seq<T>) {
    if s == [] then a == [] && b == []
    else
      var last := s[|s| - 1];
      || (a != [] && a[|a| - 1] == last && Merges(a[..|a| - 1], b, s[..|s| - 1]))
      || (b != [] && b[|b| - 1] == last && Merges(a, b[..|b| - 1], s[..|s| - 1]))
  }

  lemma {:induction false} MergeLosesNothing<T>(a: seq<T>, b: seq<T>, s: seq<T>)
    requires Merges(a, b, s)
    ensures multiset(a) + multiset(b) == multiset(s)
    decreases |s|
  {
    if s != [] {
      var n, last := |s| - 1, s[|s| - 1];
      assert s == s[..n] + [last];
      if a != [] && a[|a| - 1] == last && Merges(a[..|a| - 1], b, s[..n]) {
        assert a == a[..|a| - 1] + [last];
        MergeLosesNothing(a[..|a| - 1], b, s[..n]);
      } else {
        assert b == b[..|b| - 1] + [last];
        MergeLosesNothing(a, b[..|b| - 1], s[..n]);
      }
    }
  }

  lemma VerdictOfSplit(b: Store, accepted: seq<Shortfall>, refused: seq<Shortfall>, found: seq<Shortfall>)
    requires multiset(accepted) + multiset(refused) == multiset(found)
    requires forall i :: 0 <= i < |accepted| ==> Tolerates(b, accepted[i])
    requires forall i :: 0 <= i < |refused| ==> !Tolerates(b, refused[i])
    ensures refused == [] <==> forall i :: 0 <= i < |found| ==> Tolerates(b, found[i])
  {
    if refused == [] {
      assert multiset(refused) == multiset{};
      SameBagSameMembers(accepted, found);
      forall i | 0 <= i < |found| ensures Tolerates(b, found[i]) {
        assert found[i] in accepted;
      }
    } else {
      assert refused[0] in multiset(found);
    }
  }

  lemma {:induction false} FilterOneMore<T>(p: T -> bool, s: seq<T>, x: T)
    ensures Filter(p, s + [x]) == Filter(p, s) + if p(x) then [x] else []
  {
    if s == [] {
      assert s + [x] == [x] && [x][1..] == [];
    } else {
      assert (s + [x])[1..] == s[1..] + [x];
      FilterOneMore(p, s[1..], x);
    }
  }

  lemma {:induction false} MergeIsBoth<T>(p: T -> bool, q: T -> bool, a: seq<T>, b: seq<T>, s: seq<T>)
    requires Merges(a, b, s) && forall x :: q(x) <==> !p(x)
    requires (forall i :: 0 <= i < |a| ==> p(a[i])) && (forall i :: 0 <= i < |b| ==> q(b[i]))
    ensures a == Filter(p, s) && b == Filter(q, s)
    decreases |s|
  {
    if s != [] {
      var n, last := |s| - 1, s[|s| - 1];
      assert s == s[..n] + [last];
      FilterOneMore(p, s[..n], last);
      FilterOneMore(q, s[..n], last);
      if a != [] && a[|a| - 1] == last && Merges(a[..|a| - 1], b, s[..n]) {
        assert a == a[..|a| - 1] + [last];
        MergeIsBoth(p, q, a[..|a| - 1], b, s[..n]);
      } else {
        assert b == b[..|b| - 1] + [last];
        MergeIsBoth(p, q, a, b[..|b| - 1], s[..n]);
      }
    }
  }

  /** What stops the run, in the order it was found. */
  ghost function RefusedOf(b: Store, found: seq<Shortfall>): seq<Shortfall> {
    Filter((s: Shortfall) => !Tolerates(b, s), found)
  }

  /** The split is the only one: what the backend tolerates, and the rest. */
  lemma MergeIsFilter(b: Store, accepted: seq<Shortfall>, refused: seq<Shortfall>, found: seq<Shortfall>)
    requires Merges(accepted, refused, found)
    requires forall i :: 0 <= i < |accepted| ==> Tolerates(b, accepted[i])
    requires forall i :: 0 <= i < |refused| ==> !Tolerates(b, refused[i])
    ensures accepted == Filter((s: Shortfall) => Tolerates(b, s), found) && refused == RefusedOf(b, found)
    ensures multiset(accepted) + multiset(refused) == multiset(found)
    ensures refused == [] <==> forall i :: 0 <= i < |found| ==> Tolerates(b, found[i])
  {
    var p, q := (s: Shortfall) => Tolerates(b, s), (s: Shortfall) => !Tolerates(b, s);
    MergeIsBoth(p, q, accepted, refused, found);
    MergeLosesNothing(accepted, refused, found);
    VerdictOfSplit(b, accepted, refused, found);
  }
}
