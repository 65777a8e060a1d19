/** The grammar of a Dexie `stores()` value: what the schema string is written
    in, and the reader that undoes it (backend/dexie/dexie.go). */
module Stores {
  import opened Sorting
  import opened Text

  /** A key path into a row, component by component. */
  type Path = seq<string>

  /** One lookup, as the grammar spells it: an ampersand for unique, brackets around
      the members or not. */
  datatype Item = Item(unique: bool, bracketed: bool, members: seq<Path>)

  function PathText(path: Path): string {
    Join(path, '.')
  }

  function BodyText(bracketed: bool, members: seq<Path>): string {
    var body := Join(Map(PathText, members), '+');
    if bracketed then "[" + body + "]" else body
  }

  function ItemText(item: Item): string {
    (if item.unique then "&" else "") + BodyText(item.bracketed, item.members)
  }

  function StoresText(items: seq<Item>): string {
    Join(Map(ItemText, items), ',')
  }

  /** How the grammar spells a path, a lookup and a list of them. */
  lemma PathSpells(a: string, b: string)
    ensures PathText([a]) == a && PathText([a, b]) == a + "." + b
  {
    JoinOfTwo(a, b, '.');
  }

  lemma ItemSpells(p: Path, q: Path)
    ensures ItemText(Item(true, false, [p])) == "&" + PathText(p)
    ensures ItemText(Item(false, true, [p, q])) == "[" + PathText(p) + "+" + PathText(q) + "]"
    ensures ItemText(Item(true, true, [p, q])) == "&[" + PathText(p) + "+" + PathText(q) + "]"
  {
    var a, b := PathText(p), PathText(q);
    assert Map(PathText, [p]) == [a];
    assert Map(PathText, [p, q]) == [a, b] by {
      MapAt(PathText, [p, q]);
    }
    JoinOfTwo(a, b, '+');
    assert "" + ("[" + (a + "+" + b) + "]") == "[" + a + "+" + b + "]";
    assert "&" + ("[" + (a + "+" + b) + "]") == "&[" + a + "+" + b + "]";
  }

  lemma ListSpells(a: Item, b: Item, c: Item)
    ensures StoresText([a, b, c]) == ItemText(a) + "," + ItemText(b) + "," + ItemText(c)
  {
    var s, t, u := ItemText(a), ItemText(b), ItemText(c);
    assert Map(ItemText, [a, b, c]) == [s, t, u] by {
      MapAt(ItemText, [a, b, c]);
    }
    JoinOfTwo(t, u, ',');
    assert [s, t, u][1..] == [t, u];
    assert s + "," + (t + "," + u) == s + "," + t + "," + u;
  }

  // ---- the reader ----

  function ReadPath(t: string): Path {
    Split(t, '.')
  }

  function ReadBody(unique: bool, body: string): Item {
    if |body| >= 2 && body[0] == '[' && body[|body| - 1] == ']' then
      Item(unique, true, Map(ReadPath, Split(body[1..|body| - 1], '+')))
    else
      Item(unique, false, [ReadPath(body)])
  }

  function ReadItem(t: string): Item {
    if t != "" && t[0] == '&' then ReadBody(true, t[1..]) else ReadBody(false, t)
  }

  function ReadStores(t: string): seq<Item> {
    Map(ReadItem, Split(t, ','))
  }

  // ---- they undo each other ----

  predicate IsSeparator(c: char) {
    c == ',' || c == '&' || c == '[' || c == ']' || c == '+' || c == '.'
  }

  predicate CleanName(name: string) {
    forall i :: 0 <= i < |name| ==> !IsSeparator(name[i])
  }

  predicate CleanPath(path: Path) {
    path != [] && forall i :: 0 <= i < |path| ==> CleanName(path[i])
  }

  /** What the printer is given: at least one member, and brackets whenever there
      are more. */
  predicate CleanItem(item: Item) {
    && item.members != [] && (item.bracketed || |item.members| == 1)
    && forall i :: 0 <= i < |item.members| ==> CleanPath(item.members[i])
  }

  lemma {:induction false} JoinIsFree(parts: seq<string>, sep: char, c: char)
    requires FreeOf(parts, c) && c != sep
    ensures c !in Join(parts, sep)
  {
    if |parts| > 1 {
      assert FreeOf(parts[1..], c);
      JoinIsFree(parts[1..], sep, c);
    }
  }

  lemma CleanPathText(path: Path, c: char)
    requires CleanPath(path)
    ensures Split(PathText(path), '.') == path
    ensures IsSeparator(c) && c != '.' ==> c !in PathText(path)
  {
    assert FreeOf(path, '.');
    SplitOfJoin(path, '.');
    if IsSeparator(c) && c != '.' {
      assert FreeOf(path, c);
      JoinIsFree(path, '.', c);
    }
  }

  lemma CleanMembersText(members: seq<Path>, c: char)
    requires members != [] && forall i :: 0 <= i < |members| ==> CleanPath(members[i])
    ensures Map(ReadPath, Split(Join(Map(PathText, members), '+'), '+')) == members
    ensures IsSeparator(c) && c != '.' && c != '+' ==> c !in Join(Map(PathText, members), '+')
  {
    var texts := Map(PathText, members);
    MapAt(PathText, members);
    MapAt(ReadPath, texts);
    forall i | 0 <= i < |texts|
      ensures '+' !in texts[i] && ReadPath(texts[i]) == members[i]
      ensures IsSeparator(c) && c != '.' ==> c !in texts[i]
    {
      CleanPathText(members[i], '+');
      CleanPathText(members[i], c);
    }
    assert FreeOf(texts, '+');
    SplitOfJoin(texts, '+');
    assert Map(ReadPath, texts) == members;
    if IsSeparator(c) && c != '.' && c != '+' {
      assert FreeOf(texts, c);
      JoinIsFree(texts, '+', c);
    }
  }

  lemma BodySurvives(item: Item)
    requires CleanItem(item)
    ensures ReadBody(item.unique, BodyText(item.bracketed, item.members)) == item
    ensures '&' !in BodyText(item.bracketed, item.members)
  {
    var body := Join(Map(PathText, item.members), '+');
    CleanMembersText(item.members, '&');
    if item.bracketed {
      var t := "[" + body + "]";
      assert t[1..|t| - 1] == body;
    } else {
      MapAt(PathText, item.members);
      CleanPathText(item.members[0], '[');
      assert body == PathText(item.members[0]);
    }
  }

  lemma ItemSurvives(item: Item)
    requires CleanItem(item)
    ensures ReadItem(ItemText(item)) == item
  {
    BodySurvives(item);
    var body := BodyText(item.bracketed, item.members);
    if item.unique {
      assert ("&" + body)[1..] == body;
    } else {
      assert "" + body == body;
    }
  }

  lemma ItemHasNoComma(item: Item)
    requires CleanItem(item)
    ensures ',' !in ItemText(item)
  {
    CleanMembersText(item.members, ',');
  }

  /** Reading a schema string back gives the lookups it was printed from. */
  lemma StoresSurvive(items: seq<Item>)
    requires items != [] && forall i :: 0 <= i < |items| ==> CleanItem(items[i])
    ensures ReadStores(StoresText(items)) == items
  {
    var texts := Map(ItemText, items);
    MapAt(ItemText, items);
    MapAt(ReadItem, texts);
    forall i | 0 <= i < |texts| ensures ',' !in texts[i] && ReadItem(texts[i]) == items[i] {
      ItemHasNoComma(items[i]);
      ItemSurvives(items[i]);
    }
    assert FreeOf(texts, ',');
    SplitOfJoin(texts, ',');
  }
}
