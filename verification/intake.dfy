/** Everything that can be wrong with the annotations of some messages, one mistake
    at a time, and the reader's report as a tally of them (ormcompat/prop.go,
    ormcompat/entity.go). */
module Intake {
  import opened Wrappers
  import opened Text
  import opened Diag
  import opened Annotations
  import opened Reader
  import opened Tally

  /** One mistake, and where: a message by its position, its fields and index
      options by theirs. */
  datatype Mistake =
    | Unreadable(message: nat, field: nat, rule: Kind)
    | SecondKey(message: nat, field: nat)
    | UnfitKey(message: nat, field: nat)
    | Keyless(message: nat)
    | Nameless(message: nat, option: nat)
    | IdleErased(message: nat, option: nat)

  /** The rule is the first the field breaks. */
  ghost predicate RefusedFor(pf: ProtoField, rule: Kind) {
    exists i: nat :: BreaksFirst(pf, i) && RULES[i] == rule
  }

  /** A field the schema is to have that breaks no rule and is marked key. */
  ghost predicate AsksToBeKey(pf: ProtoField) {
    WantsField(pf) && MarkedKey(pf) && forall rule :: !Breaks(pf, rule)
  }

  /** And nothing it says is what no key is. */
  ghost predicate Fit(pf: ProtoField) {
    && AsksToBeKey(pf)
    && pf.field.value.unique != Some(false)
    && pf.field.value.nullable != Some(true)
    && pf.field.value.immutable != Some(false)
  }

  ghost predicate FitBefore(fields: seq<ProtoField>, n: nat)
    requires n <= |fields|
  {
    exists j :: 0 <= j < n && Fit(fields[j])
  }

  ghost predicate HasKeyed(mds: seq<Message>, k: nat, f: nat) {
    k < |mds| && f < |mds[k].fields| && AsksToBeKey(mds[k].fields[f])
  }

  ghost predicate HasOption(mds: seq<Message>, k: nat, i: nat) {
    k < |mds| && i < |mds[k].indexes| && !mds[k].indexes[i].disabled
  }

  /** includes_erased where it says nothing. */
  ghost predicate Idle(io: IndexOptions) {
    io.includesErased && !io.unique
  }

  ghost predicate Makes(mds: seq<Message>, m: Mistake) {
    match m
    case Unreadable(k, f, rule) => k < |mds| && f < |mds[k].fields| && RefusedFor(mds[k].fields[f], rule)
    // an earlier field may be the key
    case SecondKey(k, f) => HasKeyed(mds, k, f) && FitBefore(mds[k].fields, f)
    // none may, and this one says something no key is
    case UnfitKey(k, f) => HasKeyed(mds, k, f) && !FitBefore(mds[k].fields, f) && !Fit(mds[k].fields[f])
    case Keyless(k) => k < |mds| && !FitBefore(mds[k].fields, |mds[k].fields|)
    case Nameless(k, i) => HasOption(mds, k, i) && mds[k].indexes[i].name == ""
    case IdleErased(k, i) => HasOption(mds, k, i) && mds[k].indexes[i].name != "" && Idle(mds[k].indexes[i])
  }

  /** Where in the report a mistake stands: by its message, and there its fields, its
      key and its indexes, each as they are declared. */
  datatype Spot = Spot(message: nat, part: nat, member: nat)

  ghost function At(m: Mistake): Spot {
    match m
    case Unreadable(k, f, _) => Spot(k, 0, f)
    case SecondKey(k, f) => Spot(k, 1, f)
    case UnfitKey(k, f) => Spot(k, 1, f)
    case Keyless(k) => Spot(k, 2, 0)
    case Nameless(k, i) => Spot(k, 3, i)
    case IdleErased(k, i) => Spot(k, 3, i)
  }

  ghost predicate Less(m: Mistake, m': Mistake) {
    var a, b := At(m), At(m');
    a.message < b.message
    || (a.message == b.message && (a.part < b.part || (a.part == b.part && a.member < b.member)))
  }

  /** The diagnostic a mistake calls for. */
  ghost function Complaint(mds: seq<Message>, m: Mistake): Diagnostic
    requires Makes(mds, m)
  {
    var md := mds[m.message];
    match m
    case Unreadable(_, f, rule) => Diagnostic(JoinPath(md.fullName, md.fields[f].names.proto), rule)
    case SecondKey(_, _) => Diagnostic(md.fullName, TwoKeys)
    case UnfitKey(_, f) =>
      var pf := md.fields[f];
      Diagnostic(JoinPath(md.fullName, pf.names.proto),
                 if pf.field.value.unique == Some(false) then KeyNotUnique
                 else if pf.field.value.nullable == Some(true) then KeyNullable else KeyMutable)
    case Keyless(_) => Diagnostic(md.fullName, NoKey)
    case Nameless(_, i) =>
      Diagnostic(JoinPath(md.fullName, "{indexes}[" + Decimal(i) + "](" + md.indexes[i].name + ")"), UnnamedIndex)
    case IdleErased(_, i) =>
      Diagnostic(JoinPath(md.fullName, "{indexes}[" + Decimal(i) + "](" + md.indexes[i].name + ")"),
                 IncludesErasedNotUnique)
  }

  ghost function Says(mds: seq<Message>): (Diagnostic, Mistake) -> bool {
    (d: Diagnostic, m: Mistake) => Makes(mds, m) && d == Complaint(mds, m)
  }

  // ---- the mistakes the reader looks for, in its order ----

  ghost function If(mds: seq<Message>, m: Mistake): seq<Mistake> {
    if Makes(mds, m) then [m] else []
  }

  ghost function FieldsOf(mds: seq<Message>, k: nat): nat -> seq<Mistake> {
    (f: nat) =>
      if k < |mds| && f < |mds[k].fields| && ParseProp(mds[k].fields[f]).Bad? then
        [Unreadable(k, f, ParseProp(mds[k].fields[f]).kind)]
      else []
  }

  ghost function KeysOf(mds: seq<Message>, k: nat): nat -> seq<Mistake> {
    (f: nat) => If(mds, SecondKey(k, f)) + If(mds, UnfitKey(k, f))
  }

  ghost function OptionsOf(mds: seq<Message>, k: nat): nat -> seq<Mistake> {
    (i: nat) => If(mds, Nameless(k, i)) + If(mds, IdleErased(k, i))
  }

  ghost function InFields(mds: seq<Message>, k: nat): seq<Mistake>
    requires k < |mds|
  {
    Collect(|mds[k].fields|, FieldsOf(mds, k))
  }

  ghost function InKeys(mds: seq<Message>, k: nat): seq<Mistake>
    requires k < |mds|
  {
    Collect(|mds[k].fields|, KeysOf(mds, k)) + If(mds, Keyless(k))
  }

  ghost function InOptions(mds: seq<Message>, k: nat): seq<Mistake>
    requires k < |mds|
  {
    Collect(|mds[k].indexes|, OptionsOf(mds, k))
  }

  ghost function MistakesOf(mds: seq<Message>): nat -> seq<Mistake> {
    (k: nat) => if k < |mds| then InFields(mds, k) + InKeys(mds, k) + InOptions(mds, k) else []
  }

  /** All of them. */
  ghost function Everything(mds: seq<Message>): seq<Mistake> {
    Collect(|mds|, MistakesOf(mds))
  }

  // ---- the reader tells them ----

  lemma IfTold(mds: seq<Message>, m: Mistake, ds: seq<Diagnostic>)
    requires ds == if Makes(mds, m) then [Complaint(mds, m)] else []
    ensures Tells(Says(mds), ds, If(mds, m))
  {
  }

  /** Of two mistakes that exclude each other. */
  lemma EitherTold(mds: seq<Message>, m: Mistake, m': Mistake, ds: seq<Diagnostic>)
    requires !(Makes(mds, m) && Makes(mds, m'))
    requires ds == if Makes(mds, m) then [Complaint(mds, m)] else if Makes(mds, m') then [Complaint(mds, m')] else []
    ensures Tells(Says(mds), ds, If(mds, m) + If(mds, m'))
  {
    var one, other: seq<Diagnostic> := if Makes(mds, m) then ds else [], if Makes(mds, m) then [] else ds;
    IfTold(mds, m, one);
    IfTold(mds, m', other);
    TellsBoth(Says(mds), one, If(mds, m), other, If(mds, m'));
    assert one + other == ds;
  }

  /** A field is refused for one rule, or read. */
  lemma BadIsMistake(mds: seq<Message>, k: nat, f: nat)
    requires k < |mds| && f < |mds[k].fields|
    ensures forall rule :: Makes(mds, Unreadable(k, f, rule)) <==> ParseProp(mds[k].fields[f]) == Bad(rule)
  {
    forall rule ensures Makes(mds, Unreadable(k, f, rule)) <==> ParseProp(mds[k].fields[f]) == Bad(rule) {
      BadIsFirstBroken(mds[k].fields[f], rule);
    }
  }

  lemma FieldIsTold(mds: seq<Message>, k: nat, f: nat)
    requires k < |mds| && f < |mds[k].fields|
    ensures Tells(Says(mds), FieldDiag(mds[k].fullName, mds[k].fields)(f), FieldsOf(mds, k)(f))
  {
    var r := ParseProp(mds[k].fields[f]);
    if r.Bad? {
      BadIsMistake(mds, k, f);
      var m := Unreadable(k, f, r.kind);
      assert Makes(mds, m);
      IfTold(mds, m, [Complaint(mds, m)]);
    }
  }

  lemma FieldsAreTold(mds: seq<Message>, k: nat)
    requires k < |mds|
    ensures Tells(Says(mds), Gather(|mds[k].fields|, FieldDiag(mds[k].fullName, mds[k].fields)), InFields(mds, k))
  {
    var d, v := FieldDiag(mds[k].fullName, mds[k].fields), FieldsOf(mds, k);
    forall f: nat | f < |mds[k].fields| ensures Tells(Says(mds), d(f), v(f)) {
      FieldIsTold(mds, k, f);
    }
    GatherTells(Says(mds), |mds[k].fields|, d, v);
  }

  /** A field that asks to be the key is read as a prop marked so. */
  lemma KeyedIsAsked(pf: ProtoField)
    ensures ParseProp(pf).Good? && ParseProp(pf).p.Keyed() <==> AsksToBeKey(pf)
    ensures ParseProp(pf).Good? && Chosen(ParseProp(pf).p) <==> Fit(pf)
  {
    if !ParseProp(pf).Bad? {
      forall rule ensures !Breaks(pf, rule) {
        ReadBreaksNone(pf, rule);
      }
    } else {
      BadBreaks(pf, ParseProp(pf).kind);
    }
  }

  lemma {:induction false} PropsOfFirst(fields: seq<ProtoField>, n: nat)
    requires n <= |fields|
    ensures ParsedProps(fields[..n]) <= ParsedProps(fields)
  {
    if n < |fields| {
      var init := fields[..|fields| - 1];
      assert init[..n] == fields[..n];
      PropsOfFirst(init, n);
    } else {
      assert fields[..n] == fields;
    }
  }

  lemma PropsOneMore(fields: seq<ProtoField>, n: nat)
    requires n < |fields|
    ensures ParsedProps(fields[..n + 1]) ==
      ParsedProps(fields[..n]) + if ParseProp(fields[n]).Good? then [ParseProp(fields[n]).p] else []
  {
    assert fields[..n + 1][..n] == fields[..n];
  }

  lemma ChosenAfter(props: seq<Parsed>, p: Parsed)
    ensures ChosenAmong(props + [p]) <==> ChosenAmong(props) || Chosen(p)
  {
    var more := props + [p];
    ChosenOneMore(more, |props|);
    assert more[..|props|] == props && more[..|props| + 1] == more;
  }

  lemma {:induction false} ChosenIsFit(fields: seq<ProtoField>, n: nat)
    requires n <= |fields|
    ensures ChosenAmong(ParsedProps(fields[..n])) <==> FitBefore(fields, n)
  {
    if n > 0 {
      ChosenIsFit(fields, n - 1);
      PropsOneMore(fields, n - 1);
      KeyedIsAsked(fields[n - 1]);
      var before, r := ParsedProps(fields[..n - 1]), ParseProp(fields[n - 1]);
      if r.Good? {
        ChosenAfter(before, r.p);
        assert ParsedProps(fields[..n]) == before + [r.p];
      } else {
        assert ParsedProps(fields[..n]) == before;
      }
      assert FitBefore(fields, n) <==> FitBefore(fields, n - 1) || Fit(fields[n - 1]);
    }
  }

  /** What is said of one field as a key is what was recorded of its prop. */
  lemma KeyIsTold(mds: seq<Message>, k: nat, f: nat, p: nat)
    requires k < |mds| && f < |mds[k].fields|
    requires var props := ParsedProps(mds[k].fields);
      ParseProp(mds[k].fields[f]).Good? && p < |props| && props[p] == ParseProp(mds[k].fields[f]).p
      && props[..p] == ParsedProps(mds[k].fields[..f])
    ensures Tells(Says(mds), KeyDiag(mds[k].fullName, ParsedProps(mds[k].fields))(p), KeysOf(mds, k)(f))
  {
    KeyedIsAsked(mds[k].fields[f]);
    ChosenIsFit(mds[k].fields, f);
    EitherTold(mds, SecondKey(k, f), UnfitKey(k, f), KeyDiag(mds[k].fullName, ParsedProps(mds[k].fields))(p));
  }

  /** What was recorded of the props among the first n fields is what is said of
      those fields. */
  ghost predicate KeysToldTo(mds: seq<Message>, k: nat, n: nat)
    requires k < |mds| && n <= |mds[k].fields|
  {
    var m := |ParsedProps(mds[k].fields[..n])|;
    Tells(Says(mds), Gather(m, KeyDiag(mds[k].fullName, ParsedProps(mds[k].fields))), Collect(n, KeysOf(mds, k)))
  }

  lemma KeysToldOneMore(mds: seq<Message>, k: nat, n: nat)
    requires k < |mds| && n < |mds[k].fields| && KeysToldTo(mds, k, n)
    ensures KeysToldTo(mds, k, n + 1)
  {
    var fields := mds[k].fields;
    var d, v := KeyDiag(mds[k].fullName, ParsedProps(fields)), KeysOf(mds, k);
    var p, r := |ParsedProps(fields[..n])|, ParseProp(fields[n]);
    PropsOneMore(fields, n);
    if r.Good? {
      PropsOfFirst(fields, n);
      PropsOfFirst(fields, n + 1);
      KeyIsTold(mds, k, n, p);
      TellsBoth(Says(mds), Gather(p, d), Collect(n, v), d(p), v(n));
    } else {
      KeyedIsAsked(fields[n]);
      assert v(n) == [];
    }
  }

  lemma {:induction false} KeysToldUpTo(mds: seq<Message>, k: nat, n: nat)
    requires k < |mds| && n <= |mds[k].fields|
    ensures KeysToldTo(mds, k, n)
  {
    if n > 0 {
      KeysToldUpTo(mds, k, n - 1);
      KeysToldOneMore(mds, k, n - 1);
    }
  }

  lemma KeysAreTold(mds: seq<Message>, k: nat)
    requires k < |mds|
    ensures Tells(Says(mds), KeyDiags(mds[k].fullName, ParsedProps(mds[k].fields)), InKeys(mds, k))
  {
    var props, prefix, n := ParsedProps(mds[k].fields), mds[k].fullName, |mds[k].fields|;
    KeysToldUpTo(mds, k, n);
    ChosenIsFit(mds[k].fields, n);
    assert mds[k].fields[..n] == mds[k].fields;
    IfTold(mds, Keyless(k), NoKeyDiag(prefix, props));
    TellsBoth(Says(mds), Gather(|props|, KeyDiag(prefix, props)), Collect(n, KeysOf(mds, k)),
              NoKeyDiag(prefix, props), If(mds, Keyless(k)));
  }

  lemma OptionsAreTold(mds: seq<Message>, k: nat)
    requires k < |mds|
    ensures Tells(Says(mds), Gather(|mds[k].indexes|, OptionDiag(mds[k].fullName, mds[k].indexes)), InOptions(mds, k))
  {
    var d, v := OptionDiag(mds[k].fullName, mds[k].indexes), OptionsOf(mds, k);
    forall i: nat | i < |mds[k].indexes| ensures Tells(Says(mds), d(i), v(i)) {
      EitherTold(mds, Nameless(k, i), IdleErased(k, i), d(i));
    }
    GatherTells(Says(mds), |mds[k].indexes|, d, v);
  }

  lemma MessageIsTold(mds: seq<Message>, k: nat)
    requires k < |mds|
    ensures Tells(Says(mds), MessageDiags(mds[k]), MistakesOf(mds)(k))
  {
    var md := mds[k];
    FieldsAreTold(mds, k);
    KeysAreTold(mds, k);
    OptionsAreTold(mds, k);
    var f, p := Gather(|md.fields|, FieldDiag(md.fullName, md.fields)), KeyDiags(md.fullName, ParsedProps(md.fields));
    var o := Gather(|md.indexes|, OptionDiag(md.fullName, md.indexes));
    TellsBoth(Says(mds), f, InFields(mds, k), p, InKeys(mds, k));
    TellsBoth(Says(mds), f + p, InFields(mds, k) + InKeys(mds, k), o, InOptions(mds, k));
  }

  lemma EverythingIsTold(mds: seq<Message>)
    ensures Tells(Says(mds), ReaderDiags(mds), Everything(mds))
  {
    forall k: nat | k < |mds| ensures Tells(Says(mds), MessageDiagsAt(mds)(k), MistakesOf(mds)(k)) {
      MessageIsTold(mds, k);
    }
    GatherTells(Says(mds), |mds|, MessageDiagsAt(mds), MistakesOf(mds));
  }

  // ---- and they are all of them, each once ----

  lemma FieldsHold(mds: seq<Message>, k: nat)
    requires k < |mds|
    ensures InOrder(Less, InFields(mds, k))
    ensures forall m :: m in InFields(mds, k) <==> Makes(mds, m) && m.Unreadable? && m.message == k
  {
    var n := |mds[k].fields|;
    CollectOrdered(n, FieldsOf(mds, k), Less, (m: Mistake) => if m.Unreadable? then m.field else 0,
                   (m: Mistake) => m.Unreadable? && m.message == k);
    forall m ensures m in InFields(mds, k) <==> Makes(mds, m) && m.Unreadable? && m.message == k {
      CollectMembers(n, FieldsOf(mds, k), m);
      forall f: nat | f < n {
        BadIsMistake(mds, k, f);
      }
      if Makes(mds, m) && m.Unreadable? && m.message == k {
        assert m in FieldsOf(mds, k)(m.field);
      }
    }
  }

  ghost predicate OfKey(m: Mistake) {
    m.SecondKey? || m.UnfitKey?
  }

  ghost predicate OfOption(m: Mistake) {
    m.Nameless? || m.IdleErased?
  }

  lemma KeysHold(mds: seq<Message>, k: nat)
    requires k < |mds|
    ensures InOrder(Less, InKeys(mds, k))
    ensures forall m :: m in InKeys(mds, k) <==> Makes(mds, m) && (OfKey(m) || m.Keyless?) && m.message == k
  {
    var n, v := |mds[k].fields|, KeysOf(mds, k);
    CollectOrdered(n, v, Less, (m: Mistake) => if OfKey(m) then m.field else 0,
                   (m: Mistake) => OfKey(m) && m.message == k);
    forall m ensures m in Collect(n, v) <==> Makes(mds, m) && OfKey(m) && m.message == k {
      CollectMembers(n, v, m);
      if Makes(mds, m) && OfKey(m) && m.message == k {
        assert m in v(m.field);
      }
    }
    OrderedBoth(Less, Collect(n, v), If(mds, Keyless(k)));
  }

  lemma OptionsHold(mds: seq<Message>, k: nat)
    requires k < |mds|
    ensures InOrder(Less, InOptions(mds, k))
    ensures forall m :: m in InOptions(mds, k) <==> Makes(mds, m) && OfOption(m) && m.message == k
  {
    var n, v := |mds[k].indexes|, OptionsOf(mds, k);
    CollectOrdered(n, v, Less, (m: Mistake) => if OfOption(m) then m.option else 0,
                   (m: Mistake) => OfOption(m) && m.message == k);
    forall m ensures m in InOptions(mds, k) <==> Makes(mds, m) && OfOption(m) && m.message == k {
      CollectMembers(n, v, m);
      if Makes(mds, m) && OfOption(m) && m.message == k {
        assert m in v(m.option);
      }
    }
  }

  lemma MessageHolds(mds: seq<Message>, k: nat)
    requires k < |mds|
    ensures InOrder(Less, MistakesOf(mds)(k))
    ensures forall m :: m in MistakesOf(mds)(k) <==> Makes(mds, m) && m.message == k
  {
    FieldsHold(mds, k);
    KeysHold(mds, k);
    OptionsHold(mds, k);
    OrderedBoth(Less, InFields(mds, k), InKeys(mds, k));
    OrderedBoth(Less, InFields(mds, k) + InKeys(mds, k), InOptions(mds, k));
  }

  lemma EverythingOnce(mds: seq<Message>)
    ensures InOrder(Less, Everything(mds)) && forall m :: m in Everything(mds) <==> Makes(mds, m)
  {
    forall k: nat | k < |mds|
      ensures InOrder(Less, MistakesOf(mds)(k))
      ensures forall m :: m in MistakesOf(mds)(k) <==> Makes(mds, m) && m.message == k
    {
      MessageHolds(mds, k);
    }
    CollectOrdered(|mds|, MistakesOf(mds), Less, (m: Mistake) => m.message,
                   (m: Mistake) => true);
    forall m ensures m in Everything(mds) <==> Makes(mds, m) {
      CollectMembers(|mds|, MistakesOf(mds), m);
      if Makes(mds, m) {
        assert m in MistakesOf(mds)(m.message);
      }
    }
  }

  /** The reader's report is a tally: every mistake there is, each of them once and in
      its place, and one diagnostic for each. */
  lemma ReportIsTally(mds: seq<Message>) returns (ms: seq<Mistake>)
    ensures Distinct(ms) && InOrder(Less, ms) && forall m :: m in ms <==> Makes(mds, m)
    ensures |ReaderDiags(mds)| == |ms| && forall i :: 0 <= i < |ms| ==> ReaderDiags(mds)[i] == Complaint(mds, ms[i])
  {
    ms := Everything(mds);
    EverythingOnce(mds);
    InOrderIsDistinct(Less, ms);
    EverythingIsTold(mds);
  }

  /** A schema is read exactly when nothing of the kind is wrong with it. */
  lemma ReadsIffNoMistake(mds: seq<Message>)
    ensures AllRead(mds) <==> forall m :: !Makes(mds, m)
  {
    var ms := ReportIsTally(mds);
    ReaderDiagsIffUnread(mds);
    if AllRead(mds) {
      assert ms == [];
    } else {
      assert ms[0] in ms;
    }
  }
}
