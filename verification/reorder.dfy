/** Handing schema.Build the same entities in another order, with the members of
    each in another order too. */
module Reorder {
  import opened Sorting
  import opened Text
  import opened Model
  import opened Wiring
  import opened Links
  import opened Orders

  /** An entity, but for the order of its members. */
  datatype Makeup = Makeup(fullName: string, fields: multiset<Field>, edges: multiset<Edge>, indexes: multiset<Index>)

  function MakeupOf(): Entity -> Makeup {
    (e: Entity) => Makeup(e.spec.fullName, multiset(e.spec.fields), multiset(e.spec.edges), multiset(e.spec.indexes))
  }

  /** One entity, declared twice: the same members, perhaps in another order. */
  ghost predicate Shuffled(e: Entity, e': Entity) {
    MakeupOf()(e) == MakeupOf()(e')
  }

  /** The same entities in some order, each with its members in some order. */
  ghost predicate Reordered(es: seq<Entity>, es': seq<Entity>) {
    multiset(Map(MakeupOf(), es)) == multiset(Map(MakeupOf(), es'))
  }

  lemma Match(es: seq<Entity>, es': seq<Entity>, i: nat) returns (j: nat)
    requires Reordered(es, es') && i < |es|
    ensures j < |es'| && Shuffled(es[i], es'[j])
  {
    j := MapMatch(MakeupOf(), es, es', i);
  }

  function FullName(): Makeup -> string {
    (m: Makeup) => m.fullName
  }

  lemma NamesByMakeup(es: seq<Entity>)
    ensures NamesDistinct(es) <==> Distinct(Map(FullName(), Map(MakeupOf(), es)))
  {
    MapAt(MakeupOf(), es);
    MapAt(FullName(), Map(MakeupOf(), es));
  }

  lemma NamesIgnoreOrder(es: seq<Entity>, es': seq<Entity>)
    requires Reordered(es, es')
    ensures NamesDistinct(es) <==> NamesDistinct(es')
  {
    var names, names' := Map(FullName(), Map(MakeupOf(), es)), Map(FullName(), Map(MakeupOf(), es'));
    NamesByMakeup(es);
    NamesByMakeup(es');
    MapOfReordered(FullName(), Map(MakeupOf(), es), Map(MakeupOf(), es'));
    SameBagSameMembers(names, names');
    DistinctByCount(names);
    DistinctByCount(names');
  }

  /** What a proto message guarantees of its fields: no two share a number. */
  ghost predicate NumbersDistinct(e: Entity) {
    forall i, j :: 0 <= i < j < |Declared(e)| ==> Declared(e)[i].Number() != Declared(e)[j].Number()
  }

  lemma DeclaredReordered(e: Entity, e': Entity)
    requires Shuffled(e, e')
    ensures multiset(Declared(e)) == multiset(Declared(e'))
  {
    MapOfReordered((f: Field) => FieldProp(f), e.spec.fields, e'.spec.fields);
    MapOfReordered((ed: Edge) => EdgeProp(ed), e.spec.edges, e'.spec.edges);
  }

  /** Numbers, not declaration order, place the props. */
  lemma PropsIgnoreOrder(e: Entity, e': Entity)
    requires Shuffled(e, e') && NumbersDistinct(e)
    ensures PropsOf(e) == PropsOf(e')
  {
    DeclaredReordered(e, e');
    SortPermutes(ByNumber, Declared(e));
    SortPermutes(ByNumber, Declared(e'));
    SortSorts(ByNumber, Declared(e));
    SortSorts(ByNumber, Declared(e'));
    forall x, y | x in PropsOf(e) && y in PropsOf(e) && ByNumber(x, y) && ByNumber(y, x) ensures x == y {
      assert x in Declared(e) && y in Declared(e);
    }
    SortedOrderIsUnique(ByNumber, PropsOf(e), PropsOf(e'));
  }

  lemma NamedInOther(es: seq<Entity>, es': seq<Entity>, name: string)
    requires NamesDistinct(es') && Reordered(es, es') && EntityNamed(es, name).Some?
    ensures EntityNamed(es', name).Some? && Shuffled(EntityNamed(es, name).value, EntityNamed(es', name).value)
  {
    var i: nat :| i < |es| && es[i] == EntityNamed(es, name).value;
    var j := Match(es, es', i);
    assert es'[j].spec.fullName == name && es'[j] in es';
    var found := EntityNamed(es', name).value;
    var j' :| 0 <= j' < |es'| && es'[j'] == found;
    assert j == j';
  }

  lemma SameMembersSameReference(es: seq<Entity>, es': seq<Entity>, ed: Edge)
    requires EntityNamed(es, ed.spec.targetName).Some? <==> EntityNamed(es', ed.spec.targetName).Some?
    requires EntityNamed(es, ed.spec.targetName).Some? ==>
      PropsOf(EntityNamed(es, ed.spec.targetName).value) == PropsOf(EntityNamed(es', ed.spec.targetName).value)
    ensures ReferenceOf(es, ed) == ReferenceOf(es', ed)
  {
  }

  ghost predicate AllNumbersDistinct(es: seq<Entity>) {
    forall e | e in es :: NumbersDistinct(e)
  }

  lemma ReferenceIgnoresOrder(es: seq<Entity>, es': seq<Entity>, ed: Edge)
    requires NamesDistinct(es) && Reordered(es, es') && AllNumbersDistinct(es)
    ensures ReferenceOf(es, ed) == ReferenceOf(es', ed)
  {
    var name := ed.spec.targetName;
    NamesIgnoreOrder(es, es');
    if EntityNamed(es, name).Some? {
      NamedInOther(es, es', name);
      PropsIgnoreOrder(EntityNamed(es, name).value, EntityNamed(es', name).value);
    } else if EntityNamed(es', name).Some? {
      NamedInOther(es', es, name);
    }
    SameMembersSameReference(es, es', ed);
  }

  lemma LinkSeesReference(es: seq<Entity>, es': seq<Entity>, g: Graph, d: Decl)
    requires ReferenceOf(es, d.edge) == ReferenceOf(es', d.edge)
    ensures Link(es, g, d) == Link(es', g, d)
  {
    assert Refusal(es, g, d) == Refusal(es', g, d);
  }

  lemma {:induction false} LinkAllIgnoresSchemaOrder(es: seq<Entity>, es': seq<Entity>, ds: seq<Decl>)
    requires NamesDistinct(es) && Reordered(es, es') && AllNumbersDistinct(es)
    ensures LinkAll(es, ds) == LinkAll(es', ds)
  {
    if ds != [] {
      LinkAllIgnoresSchemaOrder(es, es', ds[..|ds| - 1]);
      ReferenceIgnoresOrder(es, es', ds[|ds| - 1].edge);
      LinkSeesReference(es, es', LinkAll(es, ds[..|ds| - 1]), ds[|ds| - 1]);
    }
  }

  /** The layout a schema declares. */
  function Groups(es: seq<Entity>): Layout {
    Map(DeclsOf, es)
  }

  lemma {:induction false} DeclsAreFlat(es: seq<Entity>)
    ensures Decls(es) == Flat(Groups(es))
  {
    if es != [] {
      var n := |es| - 1;
      DeclsAreFlat(es[..n]);
      assert es == es[..n] + [es[n]];
      MapAppend(DeclsOf, es[..n], [es[n]]);
    }
  }

  lemma DeclsOfReordered(e: Entity, e': Entity)
    requires Shuffled(e, e')
    ensures multiset(DeclsOf(e)) == multiset(DeclsOf(e'))
  {
    MapOfReordered(DeclOf(e.spec.fullName), e.spec.edges, e'.spec.edges);
  }

  lemma BagsAt(es: seq<Entity>, j: nat)
    requires j < |es|
    ensures multiset(Map(BagOf(), Groups(es)))
         == multiset(Map(BagOf(), Groups(DropAt(es, j)))) + multiset{multiset(DeclsOf(es[j]))}
  {
    var bag := (e: Entity) => multiset(DeclsOf(e));
    MapAround(bag, es, j);
    MapOfMap(DeclsOf, BagOf(), bag, es);
    MapOfMap(DeclsOf, BagOf(), bag, DropAt(es, j));
  }

  lemma DropMatched(es: seq<Entity>, es': seq<Entity>, j: nat)
    requires Reordered(es, es') && es != [] && j < |es'| && Shuffled(es[0], es'[j])
    ensures Reordered(DropAt(es, 0), DropAt(es', j))
  {
    MapDropMatched(MakeupOf(), es, es', 0, j);
  }

  /** A reordered schema declares its edges entity by entity too. */
  lemma {:induction false} GroupsArranged(es: seq<Entity>, es': seq<Entity>)
    requires Reordered(es, es')
    ensures Arranged(Groups(es), Groups(es'))
    decreases |es|
  {
    MapAt(MakeupOf(), es);
    MapAt(MakeupOf(), es');
    assert |es| == |multiset(Map(MakeupOf(), es))| == |es'|;
    if es != [] {
      var j := Match(es, es', 0);
      DropMatched(es, es', j);
      GroupsArranged(DropAt(es, 0), DropAt(es', j));
      DeclsOfReordered(es[0], es'[j]);
      BagsAt(es, 0);
      BagsAt(es', j);
    }
  }

  lemma DeclsReordered(es: seq<Entity>, es': seq<Entity>)
    requires Reordered(es, es')
    ensures multiset(Decls(es)) == multiset(Decls(es'))
  {
    GroupsArranged(es, es');
    ArrangedSameDecls(Groups(es), Groups(es'));
    DeclsAreFlat(es);
    DeclsAreFlat(es');
  }

  /** Said of members rather than of positions: marks survive a shuffle. */
  lemma MarkedOnceByMembers(e: Entity)
    requires NumbersDistinct(e)
    ensures MarkedOnce(e) <==> forall f, g | f in e.spec.fields && g in e.spec.fields && f != g :: !MarkedAlike(f, g)
  {
    var fields := e.spec.fields;
    MapAt((f: Field) => FieldProp(f), fields);
    forall i, j | 0 <= i < j < |fields| ensures fields[i] != fields[j] {
      assert Declared(e)[i].Number() != Declared(e)[j].Number();
    }
    if MarkedOnce(e) {
      forall f, g | f in fields && g in fields && f != g ensures !MarkedAlike(f, g) {
        var i :| 0 <= i < |fields| && fields[i] == f;
        var j :| 0 <= j < |fields| && fields[j] == g;
        assert if i < j then !MarkedAlike(fields[i], fields[j]) else !MarkedAlike(fields[j], fields[i]);
      }
    }
  }

  lemma SoundnessIgnoresOrder(es: seq<Entity>, es': seq<Entity>, e: Entity, e': Entity)
    requires NamesDistinct(es') && Reordered(es, es') && Shuffled(e, e') && NumbersDistinct(e) && NumbersDistinct(e')
    requires EntitySound(es, e)
    ensures EntitySound(es', e')
  {
    MarkedOnceByMembers(e);
    MarkedOnceByMembers(e');
    SameBagSameMembers(e.spec.fields, e'.spec.fields);
    SameBagSameMembers(e.spec.edges, e'.spec.edges);
    SameBagSameMembers(e.spec.indexes, e'.spec.indexes);
    PropsIgnoreOrder(e, e');
    forall ed | ed in e'.spec.edges ensures EntityNamed(es', ed.spec.targetName).Some? {
      assert ed in e.spec.edges;
      NamedInOther(es, es', ed.spec.targetName);
    }
  }

  lemma SymmetricOrder(es: seq<Entity>, es': seq<Entity>)
    requires Reordered(es, es')
    ensures Reordered(es', es)
    ensures AllNumbersDistinct(es) ==> AllNumbersDistinct(es')
  {
    if AllNumbersDistinct(es) {
      forall e' | e' in es' ensures NumbersDistinct(e') {
        var j: nat :| j < |es'| && es'[j] == e';
        var i := Match(es', es, j);
        NumbersIgnoreOrder(es[i], e');
      }
    }
  }

  lemma NumbersIgnoreOrder(e: Entity, e': Entity)
    requires Shuffled(e, e') && NumbersDistinct(e)
    ensures NumbersDistinct(e')
  {
    var number := (p: Prop) => p.Number();
    DeclaredReordered(e, e');
    MapOfReordered(number, Declared(e), Declared(e'));
    MapAt(number, Declared(e));
    MapAt(number, Declared(e'));
    SameBagSameMembers(Map(number, Declared(e)), Map(number, Declared(e')));
    DistinctByCount(Map(number, Declared(e)));
    DistinctByCount(Map(number, Declared(e')));
  }

  lemma SoundStays(es: seq<Entity>, es': seq<Entity>)
    requires Reordered(es, es') && AllNumbersDistinct(es) && AllNumbersDistinct(es') && Sound(es)
    ensures Sound(es')
  {
    NamesIgnoreOrder(es, es');
    forall e' | e' in es' ensures EntitySound(es', e') {
      var j: nat :| j < |es'| && es'[j] == e';
      var i := Match(es', es, j);
      SoundnessIgnoresOrder(es, es', es[i], e');
    }
  }

  /** What the first passes ask of a schema does not depend on the order it is
      declared in. */
  lemma SoundIgnoresOrder(es: seq<Entity>, es': seq<Entity>)
    requires Reordered(es, es') && AllNumbersDistinct(es)
    ensures Sound(es) <==> Sound(es')
  {
    SymmetricOrder(es, es');
    if Sound(es) {
      SoundStays(es, es');
    }
    if Sound(es') {
      SoundStays(es', es);
    }
  }

  /** When every edge is in at most one declared pair, neither the verdict of
      Build nor any link of the graph depends on the order of the entities or of
      their members. */
  lemma BuildIgnoresOrder(es: seq<Entity>, es': seq<Entity>, ed: Edge)
    requires Reordered(es, es') && AllNumbersDistinct(es) && OnePairEach(es, Decls(es))
    ensures BuildDiags(es) == [] <==> BuildDiags(es') == []
    ensures BuildDiags(es) == [] ==> var g, h := LinkAll(es, Decls(es)), LinkAll(es', Decls(es'));
      && (ed in g.inverse <==> ed in h.inverse) && (ed in g.inverse ==> g.inverse[ed] == h.inverse[ed])
      && (ed in g.reverse <==> ed in h.reverse) && (ed in g.reverse ==> g.reverse[ed] == h.reverse[ed])
      && (ed in g.unique <==> ed in h.unique)
  {
    StructureDiagsIffUnsound(es);
    StructureDiagsIffUnsound(es');
    SoundIgnoresOrder(es, es');
    if Sound(es) {
      DeclsReordered(es, es');
      LinkAllIgnoresSchemaOrder(es, es', Decls(es'));
      OnePairIgnoresOrder(es, Decls(es), Decls(es'), ed);
    }
  }

  /** Build accepts a reordered schema exactly when the schema is sound and the
      back-reference pass accepts the edges in the new order. */
  lemma VerdictOfReordered(es: seq<Entity>, es': seq<Entity>)
    requires Reordered(es, es') && AllNumbersDistinct(es)
    ensures BuildDiags(es') == [] <==> Sound(es) && Accepts(es, Flat(Groups(es')))
  {
    StructureDiagsIffUnsound(es');
    SoundIgnoresOrder(es, es');
    DeclsAreFlat(es');
    if Sound(es) {
      LinkAllIgnoresSchemaOrder(es, es', Decls(es'));
    }
  }
}
