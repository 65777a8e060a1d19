/** Diagnostics: one growing list reached through many prefixed handles
    (schema/diag.go). Wording is left out: a diagnostic is its path, what kind
    of problem it is, and its place in the list. */
module Diag {
  import opened Text

  datatype Kind =
    // schema.Build
    | DefinedTwice | ExtraVersion | ExtraErased | EmptyIndex | NoSuchProp | WrongNumber | NotAnEntity
    | NoBackReference | BackReferenceNumber | BackReferenceIsField | BackReferenceUnique
    // ormcompat
    | FieldAndEdge | UnknownType | FieldIsMessage | VersionIsKey | VersionFlags | VersionType
    | ErasedIsKey | ErasedFlags | ErasedIsVersion | ErasedType | ErasedNotNullable
    | EdgeNotMessage | EdgeIsMap | EdgeRepeatedUnique
    | TwoKeys | KeyNotUnique | KeyNullable | KeyMutable | NoKey
    | UnnamedIndex | IncludesErasedNotUnique

  datatype Diagnostic = Diagnostic(path: string, kind: Kind)

  /** Joining a path under a prefix; an empty half adds no dot. */
  function JoinPath(prefix: string, path: string): string {
    if prefix == "" then path else if path == "" then prefix else prefix + "." + path
  }

  lemma JoinPathAssociates(a: string, b: string, c: string)
    ensures JoinPath(JoinPath(a, b), c) == JoinPath(a, JoinPath(b, c))
  {
    assert a + "." + b + "." + c == a + "." + (b + "." + c);
  }

  /** The parts of a joined path are the parts of its halves. */
  lemma JoinPathParts(prefix: string, path: string)
    ensures JoinPath("", path) == path && JoinPath(prefix, "") == prefix
    ensures prefix != "" && path != "" ==> Split(JoinPath(prefix, path), '.') == Split(prefix, '.') + Split(path, '.')
  {
    SplitOfTwo(prefix, path, '.');
  }

  /** What n checks in a row record, check k recording f(k). */
  function Gather(n: nat, f: nat -> seq<Diagnostic>): seq<Diagnostic> {
    if n == 0 then [] else Gather(n - 1, f) + f(n - 1)
  }

  ghost function Recorded(f: nat -> seq<Diagnostic>, k: nat): seq<Diagnostic> {
    f(k)
  }

  /** found is what the checks f record. A loop over many checks is proved about
      found, so that what one check records stays out of its proof. */
  ghost predicate Reports(found: nat -> seq<Diagnostic>, f: nat -> seq<Diagnostic>) {
    forall k: nat {:trigger Recorded(f, k)} :: found(k) == Recorded(f, k)
  }

  lemma GatherOneMore(before: seq<Diagnostic>, n: nat, f: nat -> seq<Diagnostic>)
    ensures before + Gather(n + 1, f) == before + Gather(n, f) + f(n)
  {
  }

  lemma {:induction false} GatherEmpty(n: nat, f: nat -> seq<Diagnostic>)
    ensures Gather(n, f) == [] <==> forall k: nat :: k < n ==> f(k) == []
  {
    if n > 0 {
      GatherEmpty(n - 1, f);
    }
  }

  lemma {:induction false} GatherAgrees(n: nat, f: nat -> seq<Diagnostic>, g: nat -> seq<Diagnostic>)
    requires forall k: nat :: k < n ==> f(k) == g(k)
    ensures Gather(n, f) == Gather(n, g)
  {
    if n > 0 {
      GatherAgrees(n - 1, f, g);
    }
  }

  /** The list a family of handles shares. */
  class Store {
    var found: seq<Diagnostic>

    constructor ()
      ensures found == []
    {
      found := [];
    }
  }

  class Diagnostics {
    var store: Store?
    const prefix: string

    /** The zero value: no list yet. */
    constructor ()
      ensures store == null && prefix == ""
    {
      store := null;
      prefix := "";
    }

    constructor Under(store: Store, prefix: string)
      ensures this.store == store && this.prefix == prefix
    {
      this.store := store;
      this.prefix := prefix;
    }

    function List(): seq<Diagnostic>
      reads this, store
    {
      if store == null then [] else store.found
    }

    /** The list, made on first use and never replaced after that. */
    method Shared() returns (s: Store)
      modifies this`store
      ensures s == store && store != null
      ensures if old(store) == null then fresh(s) && s.found == [] else store == old(store)
      ensures List() == old(List())
    {
      if store == null {
        store := new Store();
      }
      s := store;
    }

    /** A handle one level down. It writes through to this one's list: whatever
        either of them records, List of both says. */
    method At(path: string) returns (d: Diagnostics)
      modifies this`store
      ensures fresh(d) && d.store == store && store != null
      ensures if old(store) == null then fresh(store) else store == old(store)
      ensures d.prefix == JoinPath(prefix, path)
      ensures List() == old(List()) && d.List() == List()
    {
      var s := Shared();
      d := new Diagnostics.Under(s, JoinPath(prefix, path));
    }

    method Add(path: string, kind: Kind)
      modifies this`store, store
      ensures store != null
      ensures if old(store) == null then fresh(store) else store == old(store)
      ensures List() == old(List()) + [Diagnostic(JoinPath(prefix, path), kind)]
    {
      var s := Shared();
      s.found := s.found + [Diagnostic(JoinPath(prefix, path), kind)];
    }
  }
}
