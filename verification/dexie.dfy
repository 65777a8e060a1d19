/** The schema string of one entity (backend/dexie/dexie.go): printed from the
    built graph, and what reading it back yields. */
module DexieStores {
  import opened Wrappers
  import opened Sorting
  import opened Text
  import opened Model
  import opened Stores
  import Stored = Backend

  /** Proto spelling with compat on, JSON spelling with it off. */
  function NameOf(names: Names, compat: bool): string {
    if compat then names.proto else names.value
  }

  /** The names to follow from a row to the value. None where an edge has no key to
      end at. */
  function StorePath(p: Prop, compat: bool): Option<Path>
    reads *
  {
    match p
    case FieldProp(f) => Some([NameOf(f.spec.names, compat)])
    case EdgeProp(ed) =>
      var key := ed.TargetKey();
      if key.None? then None else Some([NameOf(ed.spec.names, compat), NameOf(key.value.spec.names, compat)])
  }

  function StorePaths(props: seq<Prop>, compat: bool): Option<seq<Path>>
    reads *
  {
    if props == [] then Some([])
    else
      var init, last := StorePaths(props[..|props| - 1], compat), StorePath(props[|props| - 1], compat);
      if init.None? || last.None? then None else Some(init.value + [last.value])
  }

  // ---- the lookups the string stands for ----

  function PropItem(p: Prop, compat: bool): Option<Item>
    reads *
  {
    var path := StorePath(p, compat);
    if path.None? then None else Some(Item(true, false, [path.value]))
  }

  /** Compat brackets every index and marks none unique; otherwise brackets say
      there is more than one member, and "&" that the index is unique. */
  function IndexItem(idx: Index, compat: bool): Option<Item>
    reads *
  {
    var paths := StorePaths(idx.props, compat);
    if paths.None? then None
    else Some(if compat then Item(false, true, paths.value) else Item(idx.spec.unique, |paths.value| != 1, paths.value))
  }

  function ElemItem(k: Elem, compat: bool): Option<Item>
    reads *
  {
    match k case PropElem(p) => PropItem(p, compat) case IndexElem(idx) => IndexItem(idx, compat)
  }

  predicate IsThisKey(k: Elem, key: Field) {
    k == PropElem(FieldProp(key))
  }

  function KeyItems(keys: seq<Elem>, key: Field, compat: bool): Option<seq<Item>>
    reads *
  {
    if keys == [] then Some([])
    else
      var init, last := KeyItems(keys[..|keys| - 1], key, compat), keys[|keys| - 1];
      if init.None? then None
      else if IsThisKey(last, key) then init
      else
        var item := ElemItem(last, compat);
        if item.None? then None else Some(init.value + [item.value])
  }

  /** The primary key, then every other lookup of the entity in its order. */
  ghost function EntityItems(e: Entity, compat: bool): Option<seq<Item>>
    requires e.key != null
    reads *
  {
    var rest := KeyItems(KeysOf(e.elems), e.key, compat);
    if rest.None? then None else Some([Item(true, false, [[NameOf(e.key.spec.names, compat)]])] + rest.value)
  }

  // ---- the printer ----

  /** Options the backend can be configured with. */
  ghost predicate Takes(o: Stored.DexieOptions) {
    o.compat in ["", "orm-ts", "none"] && forall i :: 0 <= i < |o.accept| ==> Stored.KnownKind(o.accept[i])
  }

  /** What it makes of them. */
  function Taken(o: Stored.DexieOptions): Stored.DexieOptions {
    if o.compat == "" then o.(compat := "orm-ts") else o
  }

  class Backend {
    var opts: Stored.DexieOptions

    constructor ()
      ensures opts == Stored.DexieOptions("orm-ts", [])
    {
      opts := Stored.DexieOptions("orm-ts", []);
    }

    constructor Configured(opts: Stored.DexieOptions)
      ensures this.opts == opts
    {
      this.opts := opts;
    }

    /** An empty compat means bug for bug, and an accepted kind has to be one. */
    method Configure(o: Stored.DexieOptions) returns (ok: bool)
      modifies this
      ensures ok <==> Takes(o)
      ensures opts == if ok then Taken(o) else old(opts)
    {
      var o' := if o.compat == "" then o.(compat := "orm-ts") else o;
      if o'.compat != "orm-ts" && o'.compat != "none" {
        return false;
      }
      ok := Stored.ValidateAccept(o'.accept);
      if ok {
        opts := o';
      }
    }

    predicate Compat()
      reads this
    {
      opts.Compat()
    }

    method PathTextOf(p: Prop) returns (r: Option<string>)
      ensures r == match StorePath(p, Compat()) case None => None case Some(path) => Some(PathText(path))
    {
      var sp := StorePath(p, Compat());
      return if sp.None? then None else Some(PathText(sp.value));
    }

    method VisitProp(p: Prop) returns (r: Option<string>)
      ensures r == match PropItem(p, Compat()) case None => None case Some(item) => Some(ItemText(item))
    {
      var path := PathTextOf(p);
      if path.None? {
        return None;
      }
      ghost var sp := StorePath(p, Compat()).value;
      assert Map(PathText, [sp]) == [PathText(sp)];
      return Some("&" + path.value);
    }

    method VisitIndex(idx: Index) returns (r: Option<string>)
      ensures r == match IndexItem(idx, Compat()) case None => None case Some(item) => Some(ItemText(item))
    {
      var parts := [];
      var props := idx.props;
      for i := 0 to |props|
        invariant StorePaths(props[..i], Compat()).Some?
        invariant parts == Map(PathText, StorePaths(props[..i], Compat()).value)
      {
        assert props[..i + 1][..i] == props[..i];
        var part := PathTextOf(props[i]);
        if part.None? {
          PathsFail(props, i, Compat());
          return None;
        }
        parts := parts + [part.value];
        MapAppend(PathText, StorePaths(props[..i], Compat()).value, [StorePath(props[i], Compat()).value]);
        assert Map(PathText, [StorePath(props[i], Compat()).value]) == [part.value];
      }
      assert props[..|props|] == props;
      ghost var paths := StorePaths(props, Compat()).value;
      MapAt(PathText, paths);
      if Compat() {
        assert "" + ("[" + Join(parts, '+') + "]") == "[" + Join(parts, '+') + "]";
        return Some("[" + Join(parts, '+') + "]");
      }
      var prefix := if idx.spec.unique then "&" else "";
      if |parts| == 1 {
        return Some(prefix + parts[0]);
      }
      return Some(prefix + ("[" + Join(parts, '+') + "]"));
    }

    method KeyPart(k: Elem) returns (r: Option<string>)
      ensures r == match ElemItem(k, Compat()) case None => None case Some(item) => Some(ItemText(item))
    {
      match k
      case PropElem(p) => r := VisitProp(p);
      case IndexElem(idx) => r := VisitIndex(idx);
    }

    /** One lookup more, unless it is the primary key, which comes first. */
    method AddKey(keys: seq<Elem>, i: nat, key: Field, text: string, ghost first: Item, ghost items: seq<Item>)
      returns (longer: Option<string>, ghost more: seq<Item>)
      requires i < |keys| && KeyItems(keys[..i], key, Compat()) == Some(items) && text == StoresText([first] + items)
      ensures KeyItems(keys[..i + 1], key, Compat()) == if longer.None? then None else Some(more)
      ensures longer.Some? ==> longer.value == StoresText([first] + more)
    {
      assert keys[..i + 1][..i] == keys[..i];
      if IsThisKey(keys[i], key) {
        return Some(text), items;
      }
      var part := KeyPart(keys[i]);
      if part.None? {
        return None, items;
      }
      more := items + [ElemItem(keys[i], Compat()).value];
      StoresOneMore(first, items, ElemItem(keys[i], Compat()).value);
      longer := Some(text + ("," + part.value));
    }

    /** The string stands for the entity's lookups; an error is an edge among them
        whose target has no key. */
    method SchemaString(e: Entity) returns (r: Option<string>)
      requires e.key != null
      ensures r == match EntityItems(e, Compat()) case None => None case Some(items) => Some(StoresText(items))
    {
      var key := PathTextOf(FieldProp(e.key));
      var text := "&" + key.value;
      var keys := e.Keys();
      ghost var first := Item(true, false, [[NameOf(e.key.spec.names, Compat())]]);
      ghost var items := [];
      FirstText(NameOf(e.key.spec.names, Compat()));
      for i := 0 to |keys|
        invariant KeyItems(keys[..i], e.key, Compat()) == Some(items)
        invariant text == StoresText([first] + items)
      {
        var longer;
        longer, items := AddKey(keys, i, e.key, text, first, items);
        if longer.None? {
          KeysFail(keys, e.key, i + 1, Compat());
          return None;
        }
        text := longer.value;
      }
      assert keys[..|keys|] == keys;
      return Some(text);
    }
  }

  lemma {:induction false} PathsFail(props: seq<Prop>, i: nat, compat: bool)
    requires i < |props| && StorePath(props[i], compat).None?
    ensures StorePaths(props, compat).None?
  {
    if i < |props| - 1 {
      PathsFail(props[..|props| - 1], i, compat);
    }
  }

  lemma {:induction false} KeysFail(keys: seq<Elem>, key: Field, i: nat, compat: bool)
    requires i <= |keys| && KeyItems(keys[..i], key, compat).None?
    ensures KeyItems(keys, key, compat).None?
    decreases |keys|
  {
    if i == |keys| {
      assert keys[..i] == keys;
    } else {
      assert keys[..|keys| - 1][..i] == keys[..i];
      KeysFail(keys[..|keys| - 1], key, i, compat);
    }
  }

  lemma {:induction false} JoinOneMore(parts: seq<string>, part: string)
    requires parts != []
    ensures Join(parts + [part], ',') == Join(parts, ',') + ("," + part)
  {
    if |parts| == 1 {
      assert (parts + [part])[1..] == [part];
      assert parts[0] + [','] + part == parts[0] + ("," + part);
    } else {
      assert (parts + [part])[1..] == parts[1..] + [part];
      JoinOneMore(parts[1..], part);
      Assoc(parts[0] + [','], Join(parts[1..], ','), "," + part);
    }
  }

  lemma StoresOneMore(first: Item, items: seq<Item>, item: Item)
    ensures StoresText([first] + (items + [item])) == StoresText([first] + items) + ("," + ItemText(item))
  {
    Assoc([first], items, [item]);
    MapAppend(ItemText, [first] + items, [item]);
    MapAt(ItemText, [first] + items);
    assert Map(ItemText, [item]) == [ItemText(item)];
    JoinOneMore(Map(ItemText, [first] + items), ItemText(item));
  }

  lemma FirstText(name: string)
    ensures StoresText([Item(true, false, [[name]])]) == "&" + name
    ensures [Item(true, false, [[name]])] + [] == [Item(true, false, [[name]])]
  {
    var first := Item(true, false, [[name]]);
    assert Map(PathText, first.members) == [name];
    assert Map(ItemText, [first]) == [ItemText(first)];
  }

  // ---- what the string says ----

  /** Every name a prop's path is spelled with is free of the grammar's
      separators. */
  ghost predicate CleanProp(p: Prop, compat: bool)
    reads *
  {
    StorePath(p, compat).Some? ==> CleanPath(StorePath(p, compat).value)
  }

  /** What Build leaves of an entity's lookups, with clean names: the props of an
      index are among the entity's, and there is at least one. */
  ghost predicate CleanElem(k: Elem, compat: bool)
    reads *
  {
    match k
    case PropElem(p) => CleanProp(p, compat)
    case IndexElem(idx) => idx.props != [] && forall i :: 0 <= i < |idx.props| ==> CleanProp(idx.props[i], compat)
  }

  lemma {:induction false} PathsAreClean(props: seq<Prop>, compat: bool)
    requires StorePaths(props, compat).Some? && forall i :: 0 <= i < |props| ==> CleanProp(props[i], compat)
    ensures var paths := StorePaths(props, compat).value;
      && |paths| == |props|
      && forall i :: 0 <= i < |paths| ==> CleanPath(paths[i]) && Some(paths[i]) == StorePath(props[i], compat)
  {
    if props != [] {
      PathsAreClean(props[..|props| - 1], compat);
    }
  }

  lemma ElemIsClean(k: Elem, compat: bool)
    requires CleanElem(k, compat) && ElemItem(k, compat).Some?
    ensures CleanItem(ElemItem(k, compat).value)
  {
    if k.IndexElem? {
      PathsAreClean(k.index.props, compat);
    }
  }

  lemma {:induction false} KeysAreClean(keys: seq<Elem>, key: Field, compat: bool)
    requires KeyItems(keys, key, compat).Some? && forall i :: 0 <= i < |keys| ==> CleanElem(keys[i], compat)
    ensures var items := KeyItems(keys, key, compat).value; forall i :: 0 <= i < |items| ==> CleanItem(items[i])
  {
    if keys != [] {
      var last := keys[|keys| - 1];
      KeysAreClean(keys[..|keys| - 1], key, compat);
      if !IsThisKey(last, key) {
        ElemIsClean(last, compat);
      }
    }
  }

  lemma {:induction false} KeysOfAreKeys(elems: seq<Elem>)
    ensures forall i :: 0 <= i < |KeysOf(elems)| ==> KeysOf(elems)[i] in elems && KeysOf(elems)[i].IsKey()
  {
    if elems != [] {
      KeysOfAreKeys(elems[..|elems| - 1]);
      assert forall k | k in elems[..|elems| - 1] :: k in elems;
    }
  }

  ghost predicate CleanEntity(e: Entity, compat: bool)
    reads *
  {
    && e.key != null && CleanName(NameOf(e.key.spec.names, compat))
    && forall k | k in e.elems :: CleanElem(k, compat)
  }

  /** Where in a row the value of a prop lies, in the names that compat stores it
      under: an edge's is the key of the row it points at. */
  ghost predicate LiesAt(p: Prop, path: Path, compat: bool)
    reads *
  {
    match p
    case FieldProp(f) => path == [if compat then f.spec.names.proto else f.spec.names.value]
    case EdgeProp(ed) =>
      && ed.target != null && ed.target.key != null
      && var own, key := ed.spec.names, ed.target.key.spec.names;
      path == if compat then [own.proto, key.proto] else [own.value, key.value]
  }

  lemma PathsLie(p: Prop, compat: bool)
    requires StorePath(p, compat).Some?
    ensures LiesAt(p, StorePath(p, compat).value, compat)
  {
  }

  lemma {:induction false} PathsAllLie(props: seq<Prop>, compat: bool)
    requires StorePaths(props, compat).Some?
    ensures |StorePaths(props, compat).value| == |props|
    ensures forall j :: 0 <= j < |props| ==> LiesAt(props[j], StorePaths(props, compat).value[j], compat)
  {
    if props != [] {
      PathsAllLie(props[..|props| - 1], compat);
      PathsLie(props[|props| - 1], compat);
    }
  }

  /** What the string says of one lookup. A prop is unique and stands alone. An index
      is in brackets and not unique with compat on, whatever it is; with it off it is
      unique, and in brackets unless it has one member. */
  ghost predicate SaysLookup(item: Item, k: Elem, compat: bool)
    reads *
  {
    match k
    case PropElem(p) => item.unique && !item.bracketed && |item.members| == 1 && LiesAt(p, item.members[0], compat)
    case IndexElem(idx) =>
      && |item.members| == |idx.props|
      && (forall j :: 0 <= j < |idx.props| ==> LiesAt(idx.props[j], item.members[j], compat))
      && (compat ==> !item.unique && item.bracketed)
      && (!compat ==> item.unique && (item.bracketed <==> |idx.props| != 1))
  }

  lemma ItemSaysLookup(k: Elem, compat: bool)
    requires ElemItem(k, compat).Some? && IsLookup(k)
    ensures SaysLookup(ElemItem(k, compat).value, k, compat)
  {
    match k
    case PropElem(p) => PathsLie(p, compat);
    case IndexElem(idx) => PathsAllLie(idx.props, compat);
  }

  /** Another lookup than the primary key. */
  ghost predicate IsOther(k: Elem, key: Field)
    reads if k.PropElem? && k.prop.EdgeProp? then {k.prop.edge} else {}
  {
    IsLookup(k) && k != PropElem(FieldProp(key))
  }

  /** The items after the first say the lookups other than the primary key, all of
      them, in order: at is where in the elements each of them is. */
  ghost predicate SaysOthers(items: seq<Item>, elems: seq<Elem>, key: Field, at: seq<nat>, compat: bool)
    reads *
  {
    && |at| == |items|
    && (forall i, j :: 0 <= i < j < |at| ==> at[i] < at[j])
    && (forall i {:trigger at[i]} :: 0 <= i < |at| ==>
          at[i] < |elems| && IsOther(elems[at[i]], key) && SaysLookup(items[i], elems[at[i]], compat))
    && (forall k: nat {:trigger IsOther(elems[k], key)} :: k < |elems| && IsOther(elems[k], key) ==> k in at)
  }

  lemma OneMoreOther(items: seq<Item>, elems: seq<Elem>, key: Field, at: seq<nat>, compat: bool, k: Elem, item: Item)
    requires SaysOthers(items, elems, key, at, compat) && IsOther(k, key) && SaysLookup(item, k, compat)
    ensures SaysOthers(items + [item], elems + [k], key, at + [|elems|], compat)
  {
    assert forall j :: 0 <= j < |elems| ==> (elems + [k])[j] == elems[j];
  }

  lemma OneMoreSame(items: seq<Item>, elems: seq<Elem>, key: Field, at: seq<nat>, compat: bool, k: Elem)
    requires SaysOthers(items, elems, key, at, compat) && !IsOther(k, key)
    ensures SaysOthers(items, elems + [k], key, at, compat)
  {
    assert forall j :: 0 <= j < |elems| ==> (elems + [k])[j] == elems[j];
  }

  lemma KeyItemsAppend(keys: seq<Elem>, k: Elem, key: Field, compat: bool)
    requires k != PropElem(FieldProp(key))
    ensures var before, item := KeyItems(keys, key, compat), ElemItem(k, compat);
      KeyItems(keys + [k], key, compat) ==
        if before.None? || item.None? then None else Some(before.value + [item.value])
  {
    assert (keys + [k])[..|keys + [k]| - 1] == keys;
  }

  lemma KeyItemsSame(keys: seq<Elem>, key: Field, compat: bool)
    ensures KeyItems(keys + [PropElem(FieldProp(key))], key, compat) == KeyItems(keys, key, compat)
  {
    var k := PropElem(FieldProp(key));
    assert (keys + [k])[..|keys + [k]| - 1] == keys;
  }

  lemma KeysOneMore(init: seq<Elem>, k: Elem)
    ensures KeysOf(init + [k]) == if IsLookup(k) then KeysOf(init) + [k] else KeysOf(init)
  {
    assert (init + [k])[..|init + [k]| - 1] == init;
    assert KeysOf(init) + [] == KeysOf(init);
  }

  lemma KeyItemsOneMore(init: seq<Elem>, k: Elem, key: Field, compat: bool)
    ensures var before, item := KeyItems(KeysOf(init), key, compat), ElemItem(k, compat);
      KeyItems(KeysOf(init + [k]), key, compat) ==
        if !IsOther(k, key) then before
        else if before.None? || item.None? then None
        else Some(before.value + [item.value])
  {
    KeysOneMore(init, k);
    if IsOther(k, key) {
      KeyItemsAppend(KeysOf(init), k, key, compat);
    } else if IsLookup(k) {
      KeyItemsSame(KeysOf(init), key, compat);
    }
  }

  lemma OneMoreElem(init: seq<Elem>, k: Elem, key: Field, compat: bool, at: seq<nat>) returns (at': seq<nat>)
    requires KeyItems(KeysOf(init), key, compat).Some? && KeyItems(KeysOf(init + [k]), key, compat).Some?
    requires SaysOthers(KeyItems(KeysOf(init), key, compat).value, init, key, at, compat)
    ensures SaysOthers(KeyItems(KeysOf(init + [k]), key, compat).value, init + [k], key, at', compat)
  {
    KeyItemsOneMore(init, k, key, compat);
    var items := KeyItems(KeysOf(init), key, compat).value;
    if IsOther(k, key) {
      ItemSaysLookup(k, compat);
      OneMoreOther(items, init, key, at, compat, k, ElemItem(k, compat).value);
      at' := at + [|init|];
    } else {
      OneMoreSame(items, init, key, at, compat, k);
      at' := at;
    }
  }

  lemma {:induction false} ItemsSayOthers(elems: seq<Elem>, key: Field, compat: bool) returns (at: seq<nat>)
    requires KeyItems(KeysOf(elems), key, compat).Some?
    ensures SaysOthers(KeyItems(KeysOf(elems), key, compat).value, elems, key, at, compat)
  {
    if elems == [] {
      at := [];
    } else {
      var init, k := elems[..|elems| - 1], elems[|elems| - 1];
      assert elems == init + [k];
      KeyItemsOneMore(init, k, key, compat);
      at := ItemsSayOthers(init, key, compat);
      at := OneMoreElem(init, k, key, compat, at);
    }
  }

  /** Reading the string back yields the primary key's path, and then one item for
      every other lookup of the entity and for nothing else, in the order of the
      elements, that says by which paths it looks up, and as what. */
  lemma SchemaStringReadsBack(e: Entity, compat: bool) returns (at: seq<nat>)
    requires CleanEntity(e, compat) && EntityItems(e, compat).Some?
    ensures var items := ReadStores(StoresText(EntityItems(e, compat).value));
      && items == EntityItems(e, compat).value
      && items != [] && items[0].unique && !items[0].bracketed && |items[0].members| == 1
      && LiesAt(FieldProp(e.key), items[0].members[0], compat)
      && SaysOthers(items[1..], e.elems, e.key, at, compat)
  {
    var keys := KeysOf(e.elems);
    KeysOfAreKeys(e.elems);
    KeysAreClean(keys, e.key, compat);
    at := ItemsSayOthers(e.elems, e.key, compat);
    var items := EntityItems(e, compat).value;
    assert items[1..] == KeyItems(keys, e.key, compat).value;
    forall i | 0 <= i < |items| ensures CleanItem(items[i]) {
      assert i > 0 ==> items[i] == items[1..][i - 1];
    }
    StoresSurvive(items);
  }

  /** So the string determines the lookups. */
  lemma SameStringSameLookups(e: Entity, e': Entity, compat: bool)
    requires CleanEntity(e, compat) && EntityItems(e, compat).Some?
    requires CleanEntity(e', compat) && EntityItems(e', compat).Some?
    requires StoresText(EntityItems(e, compat).value) == StoresText(EntityItems(e', compat).value)
    ensures EntityItems(e, compat) == EntityItems(e', compat)
  {
    var at := SchemaStringReadsBack(e, compat);
    var at' := SchemaStringReadsBack(e', compat);
  }

  /** A user keyed by its id, with a unique edge to an organisation and a unique index
      over two fields. */
  ghost predicate IsUser(e: Entity, own: Edge, org: Field, email: Field, idx: Index)
    reads *
  {
    && e.key != null && e.key.spec.unique && e.key.spec.names == Names("id", "id")
    && own.unique && own.spec.names == Names("org", "org")
    && own.target != null && own.target.key != null && own.target.key.spec.names == Names("uid", "uid")
    && org.spec.names == Names("org_name", "orgName") && email.spec.names == Names("email", "email")
    && idx.spec.unique && !idx.spec.hidden && idx.props == [FieldProp(org), FieldProp(email)]
    && e.elems == [PropElem(FieldProp(e.key)), PropElem(EdgeProp(own)), IndexElem(idx)]
  }

  lemma UserKeys(e: Entity, own: Edge, org: Field, email: Field, idx: Index)
    requires IsUser(e, own, org, email, idx)
    ensures KeysOf(e.elems) == e.elems
  {
    var key, edge, index := PropElem(FieldProp(e.key)), PropElem(EdgeProp(own)), IndexElem(idx);
    KeysOneMore([], key);
    KeysOneMore([key], edge);
    KeysOneMore([key, edge], index);
    assert [] + [key] == [key] && [key] + [edge] == [key, edge] && [key, edge] + [index] == e.elems;
  }

  lemma UserIndex(idx: Index, org: Field, email: Field, compat: bool)
    requires idx.spec.unique && idx.props == [FieldProp(org), FieldProp(email)]
    requires org.spec.names == Names("org_name", "orgName") && email.spec.names == Names("email", "email")
    ensures IndexItem(idx, compat) == Some(Item(!compat, true, [[if compat then "org_name" else "orgName"], ["email"]]))
  {
    var props := idx.props;
    var name := if compat then "org_name" else "orgName";
    var one := [FieldProp(org)];
    assert props == one + [FieldProp(email)] && props[..|props| - 1] == one && one[..0] == [];
    assert StorePath(one[0], compat) == Some([name]) && StorePath(props[1], compat) == Some(["email"]);
    assert StorePaths(one[..0], compat) == Some([]) && StorePaths(one, compat) == Some([] + [[name]]);
    assert StorePaths(props, compat) == Some(([] + [[name]]) + [["email"]]);
    assert ([] + [[name]]) + [["email"]] == [[name], ["email"]];
  }

  lemma UserItems(e: Entity, own: Edge, org: Field, email: Field, idx: Index, compat: bool)
    requires IsUser(e, own, org, email, idx)
    ensures EntityItems(e, compat) == Some(UserList(if compat then "org_name" else "orgName", !compat))
  {
    var key, edge, index := PropElem(FieldProp(e.key)), PropElem(EdgeProp(own)), IndexElem(idx);
    UserKeys(e, own, org, email, idx);
    UserIndex(idx, org, email, compat);
    assert [] + [key] == [key] && [key] + [edge] == [key, edge] && [key, edge] + [index] == e.elems;
    KeyItemsSame([], e.key, compat);
    KeyItemsAppend([key], edge, e.key, compat);
    KeyItemsAppend([key, edge], index, e.key, compat);
    var list := UserList(if compat then "org_name" else "orgName", !compat);
    assert KeyItems([key], e.key, compat) == Some([]);
    assert KeyItems([key, edge], e.key, compat) == Some([] + [list[1]]);
    assert [] + [list[1]] == [list[1]];
    assert ElemItem(index, compat) == Some(list[2]);
    assert KeyItems([key, edge] + [index], e.key, compat) == Some([list[1]] + [list[2]]);
    assert [list[0]] + ([list[1]] + [list[2]]) == list;
  }

  ghost function UserList(name: string, unique: bool): seq<Item> {
    [Item(true, false, [["id"]]), Item(true, false, [["org", "uid"]]), Item(unique, true, [[name], ["email"]])]
  }

  lemma UserItemTexts(name: string, unique: bool)
    ensures var items := UserList(name, unique);
      && ItemText(items[0]) == "&id" && ItemText(items[1]) == "&org.uid"
      && ItemText(items[2]) == (if unique then "&[" else "[") + name + "+email]"
  {
    PathSpells("id", "");
    PathSpells("org", "uid");
    PathSpells(name, "");
    PathSpells("email", "");
    ItemSpells(["id"], []);
    ItemSpells(["org", "uid"], []);
    ItemSpells([name], ["email"]);
    assert "&" + "id" == "&id" && "&" + ("org" + "." + "uid") == "&org.uid";
    var head := if unique then "&[" else "[";
    assert head + name + "+" + "email" + "]" == head + name + "+email]";
  }

  lemma UserText(name: string, unique: bool, text: string)
    requires text == "&id,&org.uid," + ((if unique then "&[" else "[") + name + "+email]")
    ensures StoresText(UserList(name, unique)) == text
  {
    var items := UserList(name, unique);
    UserItemTexts(name, unique);
    ListSpells(items[0], items[1], items[2]);
    assert "&id" + "," + "&org.uid" + "," == "&id,&org.uid,";
  }

  lemma UserIsSpelledAs(e: Entity, own: Edge, org: Field, email: Field, idx: Index, compat: bool, text: string)
    requires IsUser(e, own, org, email, idx)
    requires text == if compat then "&id,&org.uid,[org_name+email]" else "&id,&org.uid,&[orgName+email]"
    ensures EntityItems(e, compat).Some? && StoresText(EntityItems(e, compat).value) == text
  {
    var name := if compat then "org_name" else "orgName";
    UserItems(e, own, org, email, idx, compat);
    assert text == "&id,&org.uid," + ((if compat then "[" else "&[") + name + "+email]");
    UserText(name, !compat, text);
  }

  /** The text Dexie is given for it: as the older generator spells, the index is not
      unique and its member goes by the proto name. */
  lemma UserIsSpelled(e: Entity, own: Edge, org: Field, email: Field, idx: Index)
    requires IsUser(e, own, org, email, idx)
    ensures EntityItems(e, true).Some? && StoresText(EntityItems(e, true).value) == "&id,&org.uid,[org_name+email]"
    ensures EntityItems(e, false).Some? && StoresText(EntityItems(e, false).value) == "&id,&org.uid,&[orgName+email]"
  {
    UserIsSpelledAs(e, own, org, email, idx, true, "&id,&org.uid,[org_name+email]");
    UserIsSpelledAs(e, own, org, email, idx, false, "&id,&org.uid,&[orgName+email]");
  }
}
