/** What an accepted schema promises, said of the objects Build leaves and of
    nothing else. */
module Accepted {
  import opened Wrappers
  import opened Sorting
  import opened Model
  import opened Wiring
  import opened Links
  import opened Builder

  /** Build accepted es, and this is the heap it left. */
  ghost predicate AcceptedSchema(es: seq<Entity>)
    reads World(es)
  {
    Built(es) && BuildDiags(es) == []
  }

  lemma DeclsAreEdges(es: seq<Entity>, ed: Edge)
    ensures (exists d | d in Decls(es) :: d.edge == ed) <==> ed in EdgesIn(es)
  {
    if es != [] {
      var n := |es| - 1;
      DeclsAreEdges(es[..n], ed);
      DeclsOfAreEdges(es[n], ed);
      assert es == es[..n] + [es[n]];
      assert forall e | e in es :: e in es[..n] || e == es[n];
      if ed in EdgesIn(es) {
        var e :| e in es && ed in e.spec.edges;
        if e in es[..n] {
          assert ed in EdgesIn(es[..n]);
          var d :| d in Decls(es[..n]) && d.edge == ed;
          assert d in Decls(es);
        } else {
          var d :| d in DeclsOf(es[n]) && d.edge == ed;
          assert d in Decls(es);
        }
      }
    }
  }

  lemma DeclsOfAreEdges(e: Entity, ed: Edge)
    ensures (exists d | d in DeclsOf(e) :: d.edge == ed) <==> ed in e.spec.edges
  {
    MapAt(DeclOf(e.spec.fullName), e.spec.edges);
    if ed in e.spec.edges {
      var i :| 0 <= i < |e.spec.edges| && e.spec.edges[i] == ed;
      assert DeclsOf(e)[i].edge == ed;
    }
  }

  lemma AcceptedIsSound(es: seq<Entity>)
    requires AcceptedSchema(es)
    ensures Sound(es) && Accepts(es, Decls(es))
  {
    StructureDiagsIffUnsound(es);
  }

  lemma EntityIsWired(es: seq<Entity>, e: Entity)
    requires AcceptedSchema(es) && e in es
    ensures Attached(e) && AllResolved(e) && TargetsFound(es, e) && EntitySound(es, e)
  {
    AcceptedIsSound(es);
  }

  lemma EdgeIsTargeted(es: seq<Entity>, ed: Edge)
    requires AcceptedSchema(es) && ed in EdgesIn(es)
    ensures ed.target != null && EntityNamed(es, ed.spec.targetName) == Some(ed.target)
  {
    var e :| e in es && ed in e.spec.edges;
    EntityIsWired(es, e);
  }

  lemma EdgeIsHeld(es: seq<Entity>, ed: Edge)
    requires AcceptedSchema(es) && ed in EdgesIn(es)
    ensures Holds(ed, LinkAll(es, Decls(es))) && Accepts(es, Decls(es))
    ensures ed.target != null && EntityNamed(es, ed.spec.targetName) == Some(ed.target)
  {
    AcceptedIsSound(es);
    EdgeIsTargeted(es, ed);
  }

  /** The fold's inverses, when nothing was refused, are what the names say. */
  lemma FoldIsReference(es: seq<Entity>, ds: seq<Decl>, x: Edge)
    requires Accepts(es, ds) && exists d | d in ds :: d.edge == x
    ensures var g := LinkAll(es, ds); ReferenceOf(es, x) == if x in g.inverse then Paired(g.inverse[x]) else Silent
  {
    LinksAgree(es, ds);
    AcceptedInverses(es, ds, x);
    AcceptsIffNothingClashes(es, ds);
    var d :| d in ds && d.edge == x;
    var i: nat :| i < |ds| && ds[i] == d;
  }

  lemma InverseIsReference(es: seq<Entity>, x: Edge)
    requires AcceptedSchema(es)
    requires x in EdgesIn(es) || exists d | d in Decls(es) :: d.edge == x
    ensures x in EdgesIn(es)
    ensures ReferenceOf(es, x) == if x.inverse == null then Silent else Paired(x.inverse)
  {
    DeclsAreEdges(es, x);
    EdgeIsHeld(es, x);
    FoldIsReference(es, Decls(es), x);
  }

  /** An edge has the target its declaration names. It has an inverse exactly
      when it declares a `from`, and that inverse is the edge the name and number
      pick out on the target. */
  lemma InverseIsNamed(es: seq<Entity>, ed: Edge)
    requires AcceptedSchema(es) && ed in EdgesIn(es)
    ensures ed.target != null && ed.target in es && ed.target.spec.fullName == ed.spec.targetName
    ensures ed.inverse != null <==> ed.spec.fromName != ""
    ensures ed.inverse != null ==>
      && ed.inverse in ed.target.spec.edges
      && ed.inverse.spec.names.proto == ed.spec.fromName && ed.inverse.spec.number == ed.spec.fromNumber
  {
    EdgeIsHeld(es, ed);
    InverseIsReference(es, ed);
    if ed.inverse != null {
      PairedIsNamed(es, ed);
    }
  }

  /** The two directions agree, whatever cycles and self-references the schema
      holds: an edge that is an inverse has a reverse, and the reverse of an edge
      has that edge as its inverse. */
  lemma DirectionsAgree(es: seq<Entity>, ed: Edge)
    requires AcceptedSchema(es) && ed in EdgesIn(es)
    ensures ed.inverse != null ==> ed.inverse in EdgesIn(es) && ed.inverse.reverse != null
    ensures ed.reverse != null ==> ed.reverse in EdgesIn(es) && ed.reverse.inverse == ed
  {
    EdgeIsHeld(es, ed);
    LinksAgree(es, Decls(es));
    if ed.inverse != null {
      InverseIsReference(es, ed);
      OtherIsInSchema(es, ed);
      EdgeIsHeld(es, ed.inverse);
    }
    if ed.reverse != null {
      AcceptedInverses(es, Decls(es), ed.reverse);
      InverseIsReference(es, ed.reverse);
    }
  }

  /** x declares a `from` and neither side of the pair is repeated. */
  ghost predicate OneToOneHead(x: Edge)
    reads x
  {
    x.inverse != null && !x.spec.list && !x.inverse.spec.list
  }

  /** An edge is unique exactly when it was declared so or is a side of a pair
      with neither side repeated: the flag is never turned off, and is turned on
      nowhere else. */
  lemma UniqueIsDerived(es: seq<Entity>, ed: Edge)
    requires AcceptedSchema(es) && ed in EdgesIn(es)
    ensures ed.unique <==>
      ed.spec.unique || exists x | x in EdgesIn(es) :: OneToOneHead(x) && (ed == x || ed == x.inverse)
  {
    EdgeIsHeld(es, ed);
    var ds, g := Decls(es), LinkAll(es, Decls(es));
    UniqueIsOneToOne(es, ds, ed);
    if InOneToOne(es, ds, ed) {
      var d :| d in ds && OneToOne(es, d) && (ed == d.edge || ed == ReferenceOf(es, d.edge).other);
      InverseIsReference(es, d.edge);
      assert OneToOneHead(d.edge) && (ed == d.edge || ed == d.edge.inverse);
    }
    if x :| x in EdgesIn(es) && OneToOneHead(x) && (ed == x || ed == x.inverse) {
      DeclsAreEdges(es, x);
      var d :| d in ds && d.edge == x;
      InverseIsReference(es, x);
      assert OneToOne(es, d);
    }
  }

  lemma ResolvedIsNamed(e: Entity, idx: Index)
    requires Attached(e) && AllResolved(e) && idx in e.spec.indexes && IndexSound(PropsOf(e), idx)
    ensures idx.props != [] && |idx.props| == |idx.spec.refs|
    ensures forall k :: 0 <= k < |idx.props| ==>
      && idx.props[k] in e.props
      && idx.props[k].Name() == idx.spec.refs[k].name && idx.props[k].Number() == idx.spec.refs[k].number
  {
    assert Resolved(PropsOf(e), idx);
    RefPropsInDeclaredOrder(PropsOf(e), idx, |idx.spec.refs|);
  }

  /** An index holds one member a ref, in the order it declares them, each the
      prop of its own entity that the ref names by both name and number. */
  lemma IndexesAreNamed(es: seq<Entity>, e: Entity, idx: Index)
    requires AcceptedSchema(es) && e in es && idx in e.spec.indexes
    ensures idx.parent == e && idx.props != [] && |idx.props| == |idx.spec.refs|
    ensures forall k :: 0 <= k < |idx.props| ==>
      && idx.props[k] in e.props
      && idx.props[k].Name() == idx.spec.refs[k].name && idx.props[k].Number() == idx.spec.refs[k].number
  {
    EntityIsWired(es, e);
    ResolvedIsNamed(e, idx);
  }

  /** Members know their entity, and props are all of them by number. */
  lemma MembersAreAttached(es: seq<Entity>, e: Entity)
    requires AcceptedSchema(es) && e in es
    ensures forall f | f in e.spec.fields :: f.parent == e && FieldProp(f) in e.props
    ensures forall ed | ed in e.spec.edges :: ed.parent == e && EdgeProp(ed) in e.props
    ensures multiset(e.props) == multiset(Declared(e)) && |e.props| == |e.spec.fields| + |e.spec.edges|
    ensures forall i, j :: 0 <= i < j < |e.props| ==> e.props[i].Number() <= e.props[j].Number()
  {
    EntityIsWired(es, e);
    PropsAreSortedMembers(e, 0);
    SortPermutes(ByNumber, Declared(e));
    forall f | f in e.spec.fields ensures FieldProp(f) in e.props {
      PropsHaveFields(e, f);
    }
    forall ed | ed in e.spec.edges ensures EdgeProp(ed) in e.props {
      PropsHaveEdges(e, ed);
    }
  }

  ghost predicate PropsThenIndexes(e: Entity)
    reads e`props, e`elems
  {
    && |e.elems| == |e.props| + |e.spec.indexes|
    && (forall i :: 0 <= i < |e.props| ==> e.elems[i] == PropElem(e.props[i]))
    && (forall j :: 0 <= j < |e.spec.indexes| ==> e.elems[|e.props| + j] == IndexElem(e.spec.indexes[j]))
  }

  lemma AttachedElements(e: Entity)
    requires Attached(e)
    ensures PropsThenIndexes(e)
  {
    ElemsAreMembers(e);
  }

  lemma EntityIsAttached(es: seq<Entity>, e: Entity)
    requires AcceptedSchema(es) && e in es
    ensures Attached(e)
  {
  }

  /** The elements are the props and then the indexes, all of them, in order. */
  lemma ElementsAreMembers(es: seq<Entity>, e: Entity)
    requires AcceptedSchema(es) && e in es
    ensures PropsThenIndexes(e)
  {
    EntityIsAttached(es, e);
    AttachedElements(e);
  }

  /** The marks are the only fields that carry them, if any does. */
  lemma MarksAreCarried(es: seq<Entity>, e: Entity)
    requires AcceptedSchema(es) && e in es
    ensures forall k :: 0 <= k < |e.spec.fields| && e.spec.fields[k].spec.version ==> e.spec.fields[k] == e.version
    ensures forall k :: 0 <= k < |e.spec.fields| && e.spec.fields[k].spec.erased && !e.spec.fields[k].spec.version ==>
      e.spec.fields[k] == e.erased
    ensures e.version != null ==> e.version in e.spec.fields && e.version.spec.version
    ensures e.erased != null ==> e.erased in e.spec.fields && e.erased.spec.erased && !e.erased.spec.version
  {
    EntityIsWired(es, e);
    MarksAreFirst(e);
  }

  lemma MarksAreFirst(e: Entity)
    requires MarkedOnce(e) && Attached(e)
    ensures forall k :: 0 <= k < |e.spec.fields| && e.spec.fields[k].spec.version ==> e.spec.fields[k] == e.version
    ensures forall k :: 0 <= k < |e.spec.fields| && MarksErased(e.spec.fields[k]) ==> e.spec.fields[k] == e.erased
  {
    var fields := e.spec.fields;
    forall k | 0 <= k < |fields| && fields[k].spec.version ensures fields[k] == e.version {
      assert fields[k] in fields;
      var i :| 0 <= i < |fields| && fields[i] == e.version;
      assert i < k ==> MarkedAlike(fields[i], fields[k]);
      assert k < i ==> MarkedAlike(fields[k], fields[i]);
    }
    forall k | 0 <= k < |fields| && MarksErased(fields[k]) ensures fields[k] == e.erased {
      assert fields[k] in fields;
      var i :| 0 <= i < |fields| && fields[i] == e.erased;
      assert i < k ==> MarkedAlike(fields[i], fields[k]);
      assert k < i ==> MarkedAlike(fields[k], fields[i]);
    }
  }
}
