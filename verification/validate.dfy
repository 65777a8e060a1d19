/** What the document may say of its targets (config/validate.go). */
module Validate {
  import opened Wrappers
  import opened Output

  datatype TargetConfig = TargetConfig(target: string, backend: string, out: string, name: string)
  {
    /** What the entry is called in a report, and what its files are put down to. */
    function Label(): string {
      if name != "" then name else target
    }
  }

  const FORMAT_VERSION := 1

  predicate IsName(s: string) {
    && s != "" && 'a' <= s[0] <= 'z'
    && forall i :: 0 <= i < |s| ==> 'a' <= s[i] <= 'z' || '0' <= s[i] <= '9' || s[i] == '-'
  }

  /** The pattern the schema of the document has for a name, in code points: a
      lower-case ASCII letter, and then lower-case letters, digits and dashes. */
  ghost predicate FitsPattern(s: string) {
    && s != "" && 97 <= s[0] as int <= 122
    && forall i :: 0 <= i < |s| ==>
         97 <= s[i] as int <= 122 || 48 <= s[i] as int <= 57 || s[i] as int == 45
  }

  lemma NamesFitPattern(s: string)
    ensures IsName(s) <==> FitsPattern(s)
  {
  }

  datatype Misspelling = TargetRequired | NotAName | BadOut

  datatype Invalid =
    | WrongVersion
    | NoTargets
    | OfEntry(at: nat, why: Misspelling)
    | SameLabel(first: nat, second: nat)

  ghost predicate EntryIsValid(t: TargetConfig) {
    && FitsPattern(t.target)
    && (t.backend == "" || FitsPattern(t.backend))
    && (t.name == "" || FitsPattern(t.name))
    && (t.out == "" || MayWrite(t.out))
  }

  ghost predicate NamesFit(t: TargetConfig) {
    FitsPattern(t.target) && (t.backend == "" || FitsPattern(t.backend)) && (t.name == "" || FitsPattern(t.name))
  }

  /** What is wrong with an entry: the first of the three things that can be. */
  ghost predicate Misspelt(t: TargetConfig, why: Misspelling) {
    match why
    case TargetRequired => t.target == ""
    case NotAName => t.target != "" && !NamesFit(t)
    case BadOut => NamesFit(t) && t.out != "" && !MayWrite(t.out)
  }

  ghost predicate AllValid(ts: seq<TargetConfig>) {
    forall i {:trigger EntryIsValid(ts[i])} :: 0 <= i < |ts| ==> EntryIsValid(ts[i])
  }

  /** Both go by one label: an entry's own name, or without one its target's. */
  ghost predicate SameCalled(a: TargetConfig, b: TargetConfig) {
    (if a.name == "" then a.target else a.name) == (if b.name == "" then b.target else b.name)
  }

  ghost predicate LabelsDistinct(ts: seq<TargetConfig>) {
    forall i, j :: 0 <= i < j < |ts| ==> !SameCalled(ts[i], ts[j])
  }

  method CheckEntry(t: TargetConfig, i: nat) returns (r: Option<Invalid>)
    ensures r.None? <==> EntryIsValid(t)
    ensures r.Some? ==> r.value.OfEntry? && r.value.at == i && Misspelt(t, r.value.why)
  {
    NamesFitPattern(t.target);
    NamesFitPattern(t.backend);
    NamesFitPattern(t.name);
    if t.target == "" {
      return Some(OfEntry(i, TargetRequired));
    }
    if !IsName(t.target) || (t.backend != "" && !IsName(t.backend)) || (t.name != "" && !IsName(t.name)) {
      return Some(OfEntry(i, NotAName));
    }
    var bad := CheckOut(t.out);
    return if bad.Some? then Some(OfEntry(i, BadOut)) else None;
  }

  /** The labels of the first i entries, each at the one entry that has it. */
  ghost predicate Seen(ts: seq<TargetConfig>, i: nat, seen: map<string, nat>)
    requires i <= |ts|
  {
    && (forall j {:trigger ts[j]} :: 0 <= j < i ==> ts[j].Label() in seen && seen[ts[j].Label()] == j)
    && (forall name | name in seen :: seen[name] < i && ts[seen[name]].Label() == name)
  }

  ghost predicate NewLabel(ts: seq<TargetConfig>, i: nat)
    requires i < |ts|
  {
    forall j :: 0 <= j < i ==> ts[j].Label() != ts[i].Label()
  }

  /** One turn of the loop. */
  method CheckNext(
    ts: seq<TargetConfig>, i: nat, seen: map<string, nat>) returns (r: Option<Invalid>, seen': map<string, nat>)
    requires i < |ts| && Seen(ts, i, seen)
    ensures r.None? <==> EntryIsValid(ts[i]) && NewLabel(ts, i)
    ensures r.None? ==> Seen(ts, i + 1, seen')
    ensures r.Some? ==> r.value.OfEntry? || r.value.SameLabel?
    ensures r.Some? && r.value.OfEntry? ==> r.value.at == i && Misspelt(ts[i], r.value.why)
    ensures r.Some? && r.value.SameLabel? ==>
      r.value.first < r.value.second == i && ts[r.value.first].Label() == ts[i].Label() && EntryIsValid(ts[i])
  {
    seen' := seen;
    r := CheckEntry(ts[i], i);
    if r.Some? {
      return;
    }
    var name := ts[i].Label();
    if name in seen {
      return Some(SameLabel(seen[name], i)), seen;
    }
    seen' := seen[name := i];
  }

  /** The error of the first entry that has one. */
  ghost predicate FirstInvalid(ts: seq<TargetConfig>, error: Invalid) {
    match error
    case OfEntry(at, why) => at < |ts| && Passes(ts, at) && Misspelt(ts[at], why)
    case SameLabel(first, second) =>
      && first < second < |ts| && Passes(ts, second) && EntryIsValid(ts[second]) && SameCalled(ts[first], ts[second])
    case _ => false
  }

  /** The first n entries are all right. */
  ghost predicate Passes(ts: seq<TargetConfig>, n: nat)
    requires n <= |ts|
  {
    AllValid(ts[..n]) && LabelsDistinct(ts[..n])
  }

  lemma PassesOneMore(ts: seq<TargetConfig>, n: nat)
    requires n < |ts| && Passes(ts, n) && EntryIsValid(ts[n]) && NewLabel(ts, n)
    ensures Passes(ts, n + 1)
  {
    assert forall i :: 0 <= i < n ==> ts[..n + 1][i] == ts[..n][i];
    forall i {:trigger EntryIsValid(ts[..n + 1][i])} | 0 <= i <= n ensures EntryIsValid(ts[..n + 1][i]) {
      assert i < n ==> EntryIsValid(ts[..n][i]);
    }
  }

  /** A document passes exactly when its version is understood, it has targets,
      each entry is spelled right and stays inside the output root, and no two go
      by one label. The error is of the first entry that is not, or goes by a label
      an earlier one has. */
  method Check(version: int, targets: seq<TargetConfig>) returns (r: Option<Invalid>)
    ensures r.None? <==> version == 1 && targets != [] && AllValid(targets) && LabelsDistinct(targets)
    ensures version != 1 ==> r == Some(WrongVersion)
    ensures version == 1 && targets == [] ==> r == Some(NoTargets)
    ensures version == 1 && targets != [] && r.Some? ==> FirstInvalid(targets, r.value)
  {
    if version != FORMAT_VERSION {
      return Some(WrongVersion);
    }
    if |targets| == 0 {
      return Some(NoTargets);
    }
    var seen: map<string, nat> := map[];
    for i := 0 to |targets|
      invariant Seen(targets, i, seen) && Passes(targets, i)
    {
      r, seen := CheckNext(targets, i, seen);
      if r.Some? {
        FailsWhole(targets, r.value);
        return;
      }
      PassesOneMore(targets, i);
    }
    assert targets[..|targets|] == targets;
    return None;
  }

  lemma FailsWhole(ts: seq<TargetConfig>, error: Invalid)
    requires FirstInvalid(ts, error)
    ensures !AllValid(ts) || !LabelsDistinct(ts)
  {
    match error
    case OfEntry(at, _) => assert !EntryIsValid(ts[at]);
    case SameLabel(first, second) => assert SameCalled(ts[first], ts[second]);
  }
}
