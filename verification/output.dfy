/** The files of a run: where one may go (gen/output.go, config/validate.go), and
    the record of who emitted what. */
module Output {
  import opened Wrappers
  import opened Sorting
  import opened Text

  // ---- path.Clean ----

  /** One segment of a relative path, against the segments kept before it. */
  function Push(kept: seq<string>, seg: string): seq<string> {
    if seg == "" || seg == "." then kept
    else if seg == ".." && kept != [] && kept[|kept| - 1] != ".." then kept[..|kept| - 1]
    else kept + [seg]
  }

  function Kept(segs: seq<string>): seq<string> {
    if segs == [] then [] else Push(Kept(segs[..|segs| - 1]), segs[|segs| - 1])
  }

  predicate IsAbs(name: string) {
    name != "" && name[0] == '/'
  }

  /** path.Clean of a path that is not rooted. */
  function Clean(name: string): string
    requires !IsAbs(name)
  {
    var kept := Kept(Split(name, '/'));
    if kept == [] then "." else Join(kept, '/')
  }

  // ---- the rule, counted rather than cleaned ----

  predicate Ordinary(seg: string) {
    seg != "" && seg != "." && seg != ".."
  }

  /** How far below where it started a walk along these segments is. */
  function Depth(segs: seq<string>): int {
    if segs == [] then 0
    else
      var last := segs[|segs| - 1];
      Depth(segs[..|segs| - 1]) + (if Ordinary(last) then 1 else if last == ".." then -1 else 0)
  }

  /** The walk never climbs out of where it started. */
  ghost predicate StaysInside(segs: seq<string>) {
    forall k :: 0 <= k <= |segs| ==> Depth(segs[..k]) >= 0
  }

  lemma {:induction false} KeptCountsDepth(segs: seq<string>)
    ensures StaysInside(segs) ==> |Kept(segs)| == Depth(segs) && ".." !in Kept(segs)
    ensures !StaysInside(segs) ==> Kept(segs) != [] && Kept(segs)[0] == ".."
  {
    if segs != [] {
      var n := |segs| - 1;
      var init, last := segs[..n], segs[n];
      KeptCountsDepth(init);
      assert forall k :: 0 <= k <= n ==> segs[..k] == init[..k];
      assert segs[..|segs|] == segs;
      assert StaysInside(segs) <==> StaysInside(init) && Depth(segs) >= 0;
    } else {
      assert segs[..0] == [];
    }
  }

  lemma {:induction false} KeptIsFree(segs: seq<string>, sep: char)
    requires FreeOf(segs, sep)
    ensures FreeOf(Kept(segs), sep)
  {
    if segs != [] {
      KeptIsFree(segs[..|segs| - 1], sep);
    }
  }

  /** The segments of a cleaned path are the ones that were kept. */
  lemma SegmentsOfClean(name: string)
    requires !IsAbs(name)
    ensures ".." in Split(Clean(name), '/') <==> ".." in Kept(Split(name, '/'))
  {
    var kept := Kept(Split(name, '/'));
    SplitIsFree(name, '/');
    KeptIsFree(Split(name, '/'), '/');
    if kept == [] {
      SplitOfFree(".", '/');
    } else {
      SplitOfJoin(kept, '/');
    }
  }

  /** A file may go where it stays inside the output root. */
  ghost predicate MayWrite(name: string) {
    name != "" && !IsAbs(name) && StaysInside(Split(name, '/'))
  }

  datatype PathError = Unnamed | Absolute | Escapes

  /** What is wrong with a path. */
  ghost predicate WhyNot(name: string, why: PathError) {
    match why
    case Unnamed => name == ""
    case Absolute => name != "" && name[0] == '/'
    case Escapes => name != "" && name[0] != '/' && !StaysInside(Split(name, '/'))
  }

  method Climbs(name: string) returns (up: bool)
    requires !IsAbs(name)
    ensures up <==> !StaysInside(Split(name, '/'))
  {
    SegmentsOfClean(name);
    KeptCountsDepth(Split(name, '/'));
    var segs := Split(Clean(name), '/');
    for i := 0 to |segs|
      invariant ".." !in segs[..i]
    {
      if segs[i] == ".." {
        return true;
      }
    }
    assert segs[..|segs|] == segs;
    return false;
  }

  /** checkFileName: cleaning the path and looking for ".." is counting. */
  method CheckFileName(name: string) returns (r: Option<PathError>)
    ensures r.None? <==> MayWrite(name)
    ensures r.Some? ==> WhyNot(name, r.value)
  {
    if name == "" {
      return Some(Unnamed);
    }
    if IsAbs(name) {
      return Some(Absolute);
    }
    var up := Climbs(name);
    return if up then Some(Escapes) else None;
  }

  /** checkOut: the same rule, with the empty path for the root itself. */
  method CheckOut(dir: string) returns (r: Option<PathError>)
    ensures r.None? <==> dir == "" || MayWrite(dir)
    ensures r.Some? ==> WhyNot(dir, r.value)
  {
    if dir == "" {
      return None;
    }
    if IsAbs(dir) {
      return Some(Absolute);
    }
    var up := Climbs(dir);
    return if up then Some(Escapes) else None;
  }

  /** Generator.Out: a path under an entry's own directory. */
  function Under(dir: string, rel: string): string {
    if dir == "" then rel else dir + "/" + rel
  }

  lemma {:induction false} DepthAdds(a: seq<string>, b: seq<string>)
    ensures Depth(a + b) == Depth(a) + Depth(b)
  {
    if b == [] {
      assert a + b == a;
    } else {
      assert (a + b)[..|a + b| - 1] == a + b[..|b| - 1];
      DepthAdds(a, b[..|b| - 1]);
    }
  }

  lemma InsideInside(a: seq<string>, b: seq<string>)
    requires StaysInside(a) && StaysInside(b)
    ensures StaysInside(a + b)
  {
    assert a[..|a|] == a;
    forall k | 0 <= k <= |a + b| ensures Depth((a + b)[..k]) >= 0 {
      if k <= |a| {
        assert (a + b)[..k] == a[..k];
      } else {
        assert (a + b)[..k] == a + b[..k - |a|];
        DepthAdds(a, b[..k - |a|]);
      }
    }
  }

  /** A name that stays inside, under a directory that stays inside, stays inside
      the root. */
  lemma UnderStaysInside(dir: string, rel: string)
    requires (dir == "" || MayWrite(dir)) && MayWrite(rel)
    ensures MayWrite(Under(dir, rel))
  {
    if dir != "" {
      SplitOfTwo(dir, rel, '/');
      InsideInside(Split(dir, '/'), Split(rel, '/'));
    }
  }

  // ---- the output ----

  datatype AddError = BadName(why: PathError) | Taken(prev: string)

  // ---- one file, two spellings ----

  /** Where a path leads: the segments that are left of it. */
  function PlaceOf(name: string): seq<string> {
    Kept(Split(name, '/'))
  }

  lemma {:induction false} KeptHasNoDot(segs: seq<string>)
    ensures "." !in Kept(segs)
  {
    if segs != [] {
      KeptHasNoDot(segs[..|segs| - 1]);
    }
  }

  lemma PlaceIsRead(name: string)
    requires !IsAbs(name)
    ensures PlaceOf(name) == if Clean(name) == "." then [] else Split(Clean(name), '/')
  {
    var kept := PlaceOf(name);
    SplitIsFree(name, '/');
    KeptIsFree(Split(name, '/'), '/');
    KeptHasNoDot(Split(name, '/'));
    if kept != [] {
      SplitOfJoin(kept, '/');
      SplitOfFree(".", '/');
      assert kept[0] in kept;
    }
  }

  /** Two paths lead to one place exactly when they are cleaned to one. */
  lemma OnePlaceIffOneCleaned(a: string, b: string)
    requires !IsAbs(a) && !IsAbs(b)
    ensures PlaceOf(a) == PlaceOf(b) <==> Clean(a) == Clean(b)
  {
    PlaceIsRead(a);
    PlaceIsRead(b);
  }

  ghost predicate PlacesApart(names: seq<string>) {
    forall i, j :: 0 <= i < j < |names| ==> PlaceOf(names[i]) != PlaceOf(names[j])
  }

  /** What is left when the files are written one after another: by place. */
  function Written(names: seq<string>, files: map<string, string>): map<seq<string>, string>
    requires forall name | name in names :: name in files
  {
    if names == [] then map[]
    else
      var last := names[|names| - 1];
      Written(names[..|names| - 1], files)[PlaceOf(last) := files[last]]
  }

  /** Every file is there with its own body, and no two are one. */
  ghost predicate Ships(names: seq<string>, files: map<string, string>)
    requires forall name | name in names :: name in files
  {
    var left := Written(names, files);
    && |left| == |names|
    && forall i :: 0 <= i < |names| ==> PlaceOf(names[i]) in left && left[PlaceOf(names[i])] == files[names[i]]
  }

  lemma {:induction false} WrittenIsPlaces(names: seq<string>, files: map<string, string>, p: seq<string>)
    requires forall name | name in names :: name in files
    ensures p in Written(names, files) <==> exists i :: 0 <= i < |names| && PlaceOf(names[i]) == p
  {
    if names != [] {
      var n := |names| - 1;
      WrittenIsPlaces(names[..n], files, p);
      assert forall i :: 0 <= i < n ==> names[..n][i] == names[i];
    }
  }

  lemma ApartOneMore(names: seq<string>, name: string)
    ensures PlacesApart(names + [name]) <==>
      PlacesApart(names) && forall i :: 0 <= i < |names| ==> PlaceOf(names[i]) != PlaceOf(name)
  {
    var all := names + [name];
    if PlacesApart(all) {
      forall i, j | 0 <= i < j < |names| ensures PlaceOf(names[i]) != PlaceOf(names[j]) {
        assert PlaceOf(all[i]) != PlaceOf(all[j]);
      }
      forall i | 0 <= i < |names| ensures PlaceOf(names[i]) != PlaceOf(name) {
        assert PlaceOf(all[i]) != PlaceOf(all[|names|]);
      }
    }
  }

  lemma OneMoreCounts<K, V>(m: map<K, V>, k: K, v: V)
    ensures |m[k := v]| == |m| + if k in m then 0 else 1
  {
    assert m[k := v].Keys == m.Keys + {k};
    assert |m[k := v].Keys| == |m[k := v]|;
  }

  lemma {:induction false} WrittenCounts(names: seq<string>, files: map<string, string>)
    requires forall name | name in names :: name in files
    ensures |Written(names, files)| <= |names|
    ensures |Written(names, files)| == |names| <==> PlacesApart(names)
  {
    if names != [] {
      var n := |names| - 1;
      WrittenCounts(names[..n], files);
      WrittenIsPlaces(names[..n], files, PlaceOf(names[n]));
      ApartOneMore(names[..n], names[n]);
      OneMoreCounts(Written(names[..n], files), PlaceOf(names[n]), files[names[n]]);
      assert names == names[..n] + [names[n]];
    }
  }

  lemma {:induction false} ApartKeepsBodies(names: seq<string>, files: map<string, string>, i: nat)
    requires (forall name | name in names :: name in files) && PlacesApart(names) && i < |names|
    ensures PlaceOf(names[i]) in Written(names, files) && Written(names, files)[PlaceOf(names[i])] == files[names[i]]
  {
    var n := |names| - 1;
    if i < n {
      var init := names[..n];
      assert init[i] == names[i] && PlacesApart(init);
      ApartKeepsBodies(init, files, i);
      assert PlaceOf(names[i]) != PlaceOf(names[n]);
    }
  }

  /** Nothing is overwritten exactly when no two recorded paths lead to one place. */
  lemma ShipsIffApart(names: seq<string>, files: map<string, string>)
    requires forall name | name in names :: name in files
    ensures Ships(names, files) <==> PlacesApart(names)
  {
    WrittenCounts(names, files);
    if PlacesApart(names) {
      forall i: nat | i < |names|
        ensures PlaceOf(names[i]) in Written(names, files)
        ensures Written(names, files)[PlaceOf(names[i])] == files[names[i]]
      {
        ApartKeepsBodies(names, files, i);
      }
    }
  }

  /** Where every path is spelled as cleaning would spell it, different paths are
      different files. */
  lemma CleanedAreApart(names: seq<string>)
    requires Distinct(names) && forall i :: 0 <= i < |names| ==> !IsAbs(names[i]) && Clean(names[i]) == names[i]
    ensures PlacesApart(names)
  {
    forall i, j | 0 <= i < j < |names| ensures PlaceOf(names[i]) != PlaceOf(names[j]) {
      OnePlaceIffOneCleaned(names[i], names[j]);
    }
  }

  lemma {:induction false} DotIsNoStep(segs: seq<string>)
    ensures Kept(["."] + segs) == Kept(segs) && Depth(["."] + segs) == Depth(segs)
  {
    var all := ["."] + segs;
    if segs == [] {
      assert all[..0] == [] && all[0] == ".";
    } else {
      assert all[..|all| - 1] == ["."] + segs[..|segs| - 1] && all[|all| - 1] == segs[|segs| - 1];
      DotIsNoStep(segs[..|segs| - 1]);
    }
  }

  // ---- under a directory ----

  /** Walking on from a place along segments that stay beneath it. */
  lemma {:induction false} KeptAdds(a: seq<string>, b: seq<string>)
    requires StaysInside(b)
    ensures Kept(a + b) == Kept(a) + Kept(b)
  {
    if b == [] {
      assert a + b == a;
    } else {
      var init, last := b[..|b| - 1], b[|b| - 1];
      assert (a + b)[..|a + b| - 1] == a + init && (a + b)[|a + b| - 1] == last;
      assert StaysInside(init) by {
        assert forall k :: 0 <= k <= |init| ==> init[..k] == b[..k];
      }
      KeptAdds(a, init);
      KeptCountsDepth(init);
      KeptCountsDepth(b);
      assert b[..|b|] == b;
    }
  }

  /** A name that stays inside leads, under a directory, to its own place beneath the
      directory's; a name that climbs does not, though it may stay in the root. */
  lemma UnderIsBeneath(dir: string, rel: string)
    requires MayWrite(dir) && MayWrite(Under(dir, rel))
    ensures PlaceOf(Under(dir, rel)) == PlaceOf(dir) + PlaceOf(rel) <==> StaysInside(Split(rel, '/'))
  {
    var a, b := Split(dir, '/'), Split(rel, '/');
    SplitOfTwo(dir, rel, '/');
    assert Under(dir, rel) == dir + ['/'] + rel;
    if StaysInside(b) {
      KeptAdds(a, b);
    } else {
      KeptCountsDepth(b);
      KeptCountsDepth(a + b);
      assert (PlaceOf(dir) + PlaceOf(rel))[|PlaceOf(dir)|] == "..";
    }
  }

  lemma UnderNothing(rel: string)
    ensures Under("", rel) == rel
  {
  }

  /** A path of ordinary segments is its own place. */
  lemma {:induction false} OrdinaryIsKept(segs: seq<string>)
    requires forall i :: 0 <= i < |segs| ==> Ordinary(segs[i])
    ensures Kept(segs) == segs
  {
    if segs != [] {
      OrdinaryIsKept(segs[..|segs| - 1]);
      assert segs == segs[..|segs| - 1] + [segs[|segs| - 1]];
    }
  }

  /** One more segment of a walk. */
  lemma WalkOneMore(segs: seq<string>, seg: string)
    ensures Depth(segs + [seg]) == Depth(segs) + (if Ordinary(seg) then 1 else if seg == ".." then -1 else 0)
    ensures Kept(segs + [seg]) == Push(Kept(segs), seg)
    ensures StaysInside(segs + [seg]) <==> StaysInside(segs) && Depth(segs + [seg]) >= 0
  {
    var more := segs + [seg];
    assert more[..|segs|] == segs && more[..|more|] == more;
    if StaysInside(segs) && Depth(more) >= 0 {
      forall k | 0 <= k <= |more| ensures Depth(more[..k]) >= 0 {
        assert k <= |segs| ==> more[..k] == segs[..k];
      }
    }
    if StaysInside(more) {
      forall k | 0 <= k <= |segs| ensures Depth(segs[..k]) >= 0 {
        assert segs[..k] == more[..k];
      }
      assert Depth(more[..|more|]) >= 0;
    }
  }

  lemma TwoSteps(a: string, b: string)
    requires Ordinary(a) && Ordinary(b)
    ensures Kept([a, b]) == [a, b] && Depth([a, b]) == 2 && StaysInside([a, b])
  {
    WalkOneMore([], a);
    WalkOneMore([a], b);
    assert [] + [a] == [a] && [a] + [b] == [a, b];
  }

  lemma StepsOut(a: string, b: string, x: string)
    requires Ordinary(a) && Ordinary(b) && Ordinary(x)
    ensures Kept([a, b, "..", x]) == [a, x] && StaysInside([a, b, "..", x])
  {
    TwoSteps(a, b);
    WalkOneMore([a, b], "..");
    WalkOneMore([a, b, ".."], x);
    assert [a, b] + [".."] == [a, b, ".."] && [a, b, ".."] + [x] == [a, b, "..", x];
    assert Push([a, b], "..") == [a] && Push([a], x) == [a, x];
  }

  /** A file called `../x` under a directory `a/b` is taken, and lands beside that
      directory and not in it. */
  lemma NameLeavesDirectory(a: string, b: string, x: string)
    requires Ordinary(a) && Ordinary(b) && Ordinary(x) && '/' !in a && '/' !in b && '/' !in x
    ensures var dir := a + "/" + b; var name := Under(dir, "../" + x);
      && MayWrite(dir) && MayWrite(name) && PlaceOf(dir) == [a, b] && PlaceOf(name) == [a, x]
  {
    var dir := a + "/" + b;
    var name := Under(dir, "../" + x);
    TwoSteps(a, b);
    StepsOut(a, b, x);
    SplitOfAppend(a, b, '/');
    SplitOfFree(b, '/');
    assert name == a + "/" + (b + "/" + (".." + "/" + x));
    SplitOfAppend(a, b + "/" + (".." + "/" + x), '/');
    SplitOfAppend(b, ".." + "/" + x, '/');
    SplitOfAppend("..", x, '/');
    SplitOfFree(x, '/');
    assert Split(dir, '/') == [a, b] && Split(name, '/') == [a, b, "..", x];
  }

  /** Any path that may be written has a second spelling that may be too, and leads
      to the same place: the check for a path already taken sees neither. */
  lemma SpelledTwice(name: string)
    requires MayWrite(name)
    ensures MayWrite("./" + name) && "./" + name != name && PlaceOf("./" + name) == PlaceOf(name)
  {
    var segs := Split(name, '/');
    assert "./" + name == "." + ['/'] + name;
    SplitOfAppend(".", name, '/');
    DotIsNoStep(segs);
    forall k | 0 <= k <= |segs| + 1 ensures Depth((["."] + segs)[..k]) >= 0 {
      if k > 0 {
        assert (["."] + segs)[..k] == ["."] + segs[..k - 1];
        DotIsNoStep(segs[..k - 1]);
      } else {
        assert (["."] + segs)[..k] == [];
      }
    }
    assert |"./" + name| != |name|;
  }

  class Files {
    var files: map<string, string>
    var producer: map<string, string>
    var order: seq<string>

    ghost predicate Valid()
      reads this
    {
      && files.Keys == producer.Keys == (set name | name in order)
      && Distinct(order)
      && forall name | name in order :: MayWrite(name)
    }

    constructor ()
      ensures Valid() && files == map[] && producer == map[] && order == []
    {
      files, producer, order := map[], map[], [];
    }

    /** A refused file changes nothing. */
    method Add(who: string, name: string, body: string) returns (r: Option<AddError>)
      requires Valid()
      modifies this
      ensures Valid()
      ensures r.None? <==> MayWrite(name) && name !in old(order)
      ensures r.None? ==>
        && files == old(files)[name := body] && producer == old(producer)[name := who] && order == old(order) + [name]
      ensures r.Some? ==> files == old(files) && producer == old(producer) && order == old(order)
      ensures r.Some? && MayWrite(name) ==> r.value == Taken(old(producer)[name])
      ensures r.Some? && !MayWrite(name) ==> r.value.BadName? && WhyNot(name, r.value.why)
    {
      var bad := CheckFileName(name);
      if bad.Some? {
        return Some(BadName(bad.value));
      }
      if name in producer {
        return Some(Taken(producer[name]));
      }
      producer := producer[name := who];
      files := files[name := body];
      order := order + [name];
      return None;
    }

    /** Every path, once, in increasing order. */
    method Names() returns (out: seq<string>)
      requires Valid()
      ensures StrictlySorted(out) && multiset(out) == multiset(order)
      ensures out == SortStrings(order)
    {
      SortStringsIsStrict(order);
      out := SortStrings(order);
    }

    method Manifest() returns (text: string)
      requires Valid()
      ensures text == HEADER + LinesOf(SortStrings(order))
    {
      text := HEADER;
      var names := Names();
      for i := 0 to |names|
        invariant text == HEADER + LinesOf(names[..i])
      {
        assert names[..i + 1][..i] == names[..i];
        Assoc(HEADER, LinesOf(names[..i]), names[i] + "\n");
        text := text + names[i];
        text := text + "\n";
      }
      assert names[..|names|] == names;
    }
  }

  const HEADING :=
    "# Generated by calque. Every file this run produced.\n# Anything else under the output root is stale."
  const HEADER := HEADING + "\n"

  function LinesOf(names: seq<string>): string {
    if names == [] then "" else LinesOf(names[..|names| - 1]) + (names[|names| - 1] + "\n")
  }

  lemma {:induction false} LinesSplit(names: seq<string>)
    requires FreeOf(names, '\n')
    ensures Split(LinesOf(names), '\n') == names + [""]
  {
    if names != [] {
      var n := |names| - 1;
      LinesSplit(names[..n]);
      var init := LinesOf(names[..n]);
      SplitAfterBreak(init, names[..n], names[n]);
      assert names == names[..n] + [names[n]];
    }
  }

  /** Text that ends its last line, with one more line. */
  lemma SplitAfterBreak(text: string, lines: seq<string>, line: string)
    requires Split(text, '\n') == lines + [""] && '\n' !in line
    ensures Split(text + (line + "\n"), '\n') == lines + [line] + [""]
  {
    assert text + (line + "\n") == (text + line) + ['\n'] + "";
    SplitOfTwo(text + line, "", '\n');
    SplitExtends(text, line);
    assert (lines + [""])[..|lines|] == lines && "" + line == line;
  }

  lemma {:induction false} SplitExtends(text: string, line: string)
    requires '\n' !in line
    ensures Split(text + line, '\n') == Extended(Split(text, '\n'), line)
  {
    if text == "" {
      assert text + line == line;
      SplitOfFree(line, '\n');
    } else {
      assert (text + line)[0] == text[0] && (text + line)[1..] == text[1..] + line;
      SplitExtends(text[1..], line);
      FrontOfExtended(text[0], Split(text[1..], '\n'), line, '\n');
    }
  }

  lemma SortedIsFree(order: seq<string>)
    requires Distinct(order)
    ensures FreeOf(SortStrings(order), '\n') <==> FreeOf(order, '\n')
  {
    var names := SortStrings(order);
    SortStringsIsStrict(order);
    SameBagSameMembers(names, order);
    forall i | 0 <= i < |names| ensures names[i] in order {
      assert names[i] in names;
    }
    forall i | 0 <= i < |order| ensures order[i] in names {
      assert order[i] in order;
    }
  }

  lemma LinesReadBack(names: seq<string>)
    ensures Split(LinesOf(names), '\n') == names + [""] <==> FreeOf(names, '\n')
  {
    if FreeOf(names, '\n') {
      LinesSplit(names);
    } else {
      var i :| 0 <= i < |names| && '\n' in names[i];
      SplitIsFree(LinesOf(names), '\n');
      assert '\n' in (names + [""])[i];
    }
  }

  lemma SameBelow<T>(top: seq<T>, a: seq<T>, b: seq<T>)
    ensures top + a == top + b <==> a == b
  {
    assert (top + a)[|top|..] == a && (top + b)[|top|..] == b;
  }

  /** The manifest read back is the heading, then every path once, in increasing
      order, exactly when no path holds a line break. */
  lemma ManifestListsEveryFile(order: seq<string>)
    requires Distinct(order)
    ensures Split(HEADER + LinesOf(SortStrings(order)), '\n') == Split(HEADING, '\n') + (SortStrings(order) + [""])
       <==> FreeOf(order, '\n')
  {
    var names := SortStrings(order);
    SortedIsFree(order);
    BelowHeading(HEADING, LinesOf(names));
    SameBelow(Split(HEADING, '\n'), Split(LinesOf(names), '\n'), names + [""]);
    LinesReadBack(names);
  }

  /** A path with a line break in it may be written, and then the manifest reads as
      that of two other paths. */
  lemma ManifestHidesBreak()
    ensures MayWrite("a\nb") && MayWrite("a") && MayWrite("b")
    ensures HEADER + LinesOf(SortStrings(["a\nb"])) == HEADER + LinesOf(SortStrings(["a", "b"]))
  {
    OneSegment("a\nb");
    OneSegment("a");
    OneSegment("b");
    assert SortStrings(["a\nb"]) == ["a\nb"] by {
      assert ["a\nb"][1..] == [];
    }
    assert SortStrings(["a", "b"]) == ["a", "b"] by {
      assert ["a", "b"][1..] == ["b"] && ["b"][1..] == [] && LexLe("a", "b");
    }
    BreakIsTwoLines("a", "b");
  }

  lemma OneSegment(name: string)
    requires '/' !in name && name != "" && name != ".."
    ensures MayWrite(name)
  {
    SplitOfFree(name, '/');
    assert [name][..0] == [] && [name][..1] == [name];
  }

  lemma BreakIsTwoLines(a: string, b: string)
    ensures LinesOf([a + "\n" + b]) == LinesOf([a, b])
  {
    assert [a + "\n" + b][..0] == [] && [a][..0] == [] && [a, b][..1] == [a];
    assert LinesOf([a]) == a + "\n";
    assert LinesOf([a, b]) == (a + "\n") + (b + "\n");
    assert LinesOf([a + "\n" + b]) == (a + "\n" + b) + "\n";
  }

  lemma BelowHeading(heading: string, text: string)
    ensures Split(heading + "\n" + text, '\n') == Split(heading, '\n') + Split(text, '\n')
  {
    SplitOfTwo(heading, text, '\n');
    assert heading + "\n" + text == heading + ['\n'] + text;
  }
}
