/** Schemas that show at work what Redeclare and Lower say of all of them. Every
    entity that has a key has it as the annotation reader derives it. */
module Witness {
  import opened Wrappers
  import opened Sorting
  import opened Diag
  import opened Model
  import opened Wiring
  import opened Links
  import opened Precedence
  import opened Orders
  import opened Reorder
  import opened Redeclare
  import opened Builder
  import opened Accepted
  import opened Lower
  import Backend

  // ---- what they are made of ----

  function EdgeNamed(name: string, number: int, target: string, from: string, list: bool): EdgeSpec {
    EdgeSpec(Names(name, name), number, target, from, if from == "" then 0 else 2, list, false, false, false)
  }

  const KEY := FieldSpec(Names("id", "id"), 1, TypeString, false, true, false, true, false, false)

  /** An entity of that name, keyed, with these edges. */
  ghost predicate Has(e: Entity, name: string, key: Field, edges: seq<Edge>) {
    e.spec == EntitySpec(name, name, "shop.proto", true, [key], edges, []) && key.spec == KEY
  }

  lemma HubProps(e: Entity, name: string, key: Field, hub: Edge)
    requires Has(e, name, key, [hub]) && hub.spec.number == 2
    ensures PropsOf(e) == [FieldProp(key), EdgeProp(hub)]
  {
    MapAt((f: Field) => FieldProp(f), e.spec.fields);
    MapAt((x: Edge) => EdgeProp(x), e.spec.edges);
    var props := [FieldProp(key), EdgeProp(hub)];
    assert Declared(e) == props;
    assert props[1..] == [EdgeProp(hub)] && [EdgeProp(hub)][1..] == [];
    assert Sort(ByNumber, props[1..]) == [EdgeProp(hub)];
  }

  /** An edge whose `from` names the one edge of its target. */
  lemma FromHub(es: seq<Entity>, target: Entity, key: Field, hub: Edge, ed: Edge)
    requires Has(target, ed.spec.targetName, key, [hub]) && EntityNamed(es, ed.spec.targetName) == Some(target)
    requires hub.spec.number == 2 && hub.spec.names.proto == ed.spec.fromName && ed.spec.fromNumber == 2
    requires ed.spec.fromName != "" && ed.spec.fromName != "id"
    ensures ReferenceOf(es, ed) == Paired(hub)
  {
    HubProps(target, ed.spec.targetName, key, hub);
    var first, second := [FieldProp(key)], [EdgeProp(hub)];
    assert PropsOf(target) == first + second;
    FindPropSplit(first, second, ed.spec.fromName);
    assert first[1..] == [] && FindProp(first, ed.spec.fromName) == None;
    assert FindProp(second, ed.spec.fromName) == Some(EdgeProp(hub));
  }

  lemma KeyedIsSound(es: seq<Entity>, e: Entity, name: string, key: Field, edges: seq<Edge>)
    requires Has(e, name, key, edges) && forall ed | ed in edges :: EntityNamed(es, ed.spec.targetName).Some?
    ensures EntitySound(es, e)
  {
  }

  // ---- a schema that sees the order it is declared in ----

  /** Orders and an invoice both name the one edge of a cart: the orders' is
      repeated, the invoice's makes a one-to-one pair with it. */
  ghost predicate Shop(cart: Entity, invoice: Entity, order: Entity, c: Edge, i: Edge, o: Edge, k: seq<Field>) {
    && |k| == 3 && Has(cart, "Cart", k[0], [c]) && Has(invoice, "Invoice", k[1], [i]) && Has(order, "Order", k[2], [o])
    && c.spec == EdgeNamed("c", 2, "Invoice", "", false)
    && i.spec == EdgeNamed("i", 2, "Cart", "c", false)
    && o.spec == EdgeNamed("o", 2, "Cart", "c", true)
  }

  ghost predicate InSomeOrder(es: seq<Entity>, cart: Entity, invoice: Entity, order: Entity) {
    es == [order, cart, invoice] || es == [invoice, cart, order]
  }

  lemma ShopNames(es: seq<Entity>, cart: Entity, invoice: Entity, order: Entity)
    requires cart.spec.fullName == "Cart" && invoice.spec.fullName == "Invoice" && order.spec.fullName == "Order"
    requires InSomeOrder(es, cart, invoice, order)
    ensures EntityNamed(es, "Cart") == Some(cart) && EntityNamed(es, "Invoice") == Some(invoice) && NamesDistinct(es)
  {
    assert cart in es && invoice in es;
  }

  lemma ShopIsSound(
    es: seq<Entity>, cart: Entity, invoice: Entity, order: Entity, c: Edge, i: Edge, o: Edge, k: seq<Field>)
    requires Shop(cart, invoice, order, c, i, o, k) && InSomeOrder(es, cart, invoice, order)
    ensures Sound(es)
  {
    ShopNames(es, cart, invoice, order);
    KeyedIsSound(es, cart, "Cart", k[0], [c]);
    KeyedIsSound(es, invoice, "Invoice", k[1], [i]);
    KeyedIsSound(es, order, "Order", k[2], [o]);
  }

  lemma DeclsOfOne(es: seq<Entity>, e: Entity, ed: Edge)
    requires e.spec.edges == [ed]
    ensures Decls(es + [e]) == Decls(es) + [DeclOf(e.spec.fullName)(ed)]
  {
    MapAt(DeclOf(e.spec.fullName), e.spec.edges);
    assert (es + [e])[..|es|] == es;
  }

  lemma LinksOfThree(a: Entity, b: Entity, c: Entity, x: Edge, y: Edge, z: Edge)
    requires a.spec.edges == [x] && b.spec.edges == [y] && c.spec.edges == [z]
    ensures var es := [a, b, c];
      var first := Link(es, BLANK, DeclOf(a.spec.fullName)(x));
      LinkAll(es, Decls(es)) == Link(es, Link(es, first, DeclOf(b.spec.fullName)(y)), DeclOf(c.spec.fullName)(z))
  {
    var es := [a, b, c];
    var dx, dy, dz := DeclOf(a.spec.fullName)(x), DeclOf(b.spec.fullName)(y), DeclOf(c.spec.fullName)(z);
    DeclsOfOne([], a, x);
    DeclsOfOne([a], b, y);
    DeclsOfOne([a, b], c, z);
    assert [] + [a] == [a] && [a] + [b] == [a, b] && [a, b] + [c] == es;
    LinkOneMore(es, [], dx);
    LinkOneMore(es, [dx], dy);
    LinkOneMore(es, [dx] + [dy], dz);
    assert [] + [dx] == [dx];
  }

  lemma ManyThenOne(es: seq<Entity>, many: Decl, hub: Decl, one: Decl)
    requires ReferenceOf(es, hub.edge) == Silent && !hub.edge.spec.unique
    requires ReferenceOf(es, many.edge) == Paired(hub.edge) && ReferenceOf(es, one.edge) == Paired(hub.edge)
    requires many.edge.spec.list && !one.edge.spec.list && !hub.edge.spec.list
    ensures Link(es, Link(es, Link(es, BLANK, many), hub), one).found == []
    ensures Link(es, Link(es, Link(es, BLANK, one), hub), many).found == [Diagnostic(many.path, BackReferenceUnique)]
  {
  }

  lemma ShopLinks(
    es: seq<Entity>, cart: Entity, invoice: Entity, order: Entity, c: Edge, i: Edge, o: Edge, k: seq<Field>)
    requires Shop(cart, invoice, order, c, i, o, k) && InSomeOrder(es, cart, invoice, order)
    ensures Link(es, Link(es, Link(es, BLANK, DeclOf("Order")(o)), DeclOf("Cart")(c)), DeclOf("Invoice")(i)).found == []
    ensures Link(es, Link(es, Link(es, BLANK, DeclOf("Invoice")(i)), DeclOf("Cart")(c)), DeclOf("Order")(o)).found
      == [Diagnostic("Order.o", BackReferenceUnique)]
  {
    ShopNames(es, cart, invoice, order);
    FromHub(es, cart, k[0], c, i);
    FromHub(es, cart, k[0], c, o);
    var many, hub, one := DeclOf("Order")(o), DeclOf("Cart")(c), DeclOf("Invoice")(i);
    assert many.path == "Order.o";
    ManyThenOne(es, many, hub, one);
  }

  lemma ShopDiags(
    es: seq<Entity>, cart: Entity, invoice: Entity, order: Entity, c: Edge, i: Edge, o: Edge, k: seq<Field>)
    requires Shop(cart, invoice, order, c, i, o, k) && InSomeOrder(es, cart, invoice, order)
    ensures BuildDiags(es) == LinkAll(es, Decls(es)).found
  {
    ShopIsSound(es, cart, invoice, order, c, i, o, k);
    StructureDiagsIffUnsound(es);
    assert [] + LinkAll(es, Decls(es)).found == LinkAll(es, Decls(es)).found;
  }

  lemma OrderFirst(cart: Entity, invoice: Entity, order: Entity, c: Edge, i: Edge, o: Edge, k: seq<Field>)
    requires Shop(cart, invoice, order, c, i, o, k)
    ensures BuildDiags([order, cart, invoice]) == []
  {
    var es := [order, cart, invoice];
    ShopDiags(es, cart, invoice, order, c, i, o, k);
    ShopLinks(es, cart, invoice, order, c, i, o, k);
    LinksOfThree(order, cart, invoice, o, c, i);
  }

  lemma InvoiceFirst(cart: Entity, invoice: Entity, order: Entity, c: Edge, i: Edge, o: Edge, k: seq<Field>)
    requires Shop(cart, invoice, order, c, i, o, k)
    ensures BuildDiags([invoice, cart, order]) == [Diagnostic("Order.o", BackReferenceUnique)]
  {
    var es := [invoice, cart, order];
    ShopDiags(es, cart, invoice, order, c, i, o, k);
    ShopLinks(es, cart, invoice, order, c, i, o, k);
    LinksOfThree(invoice, cart, order, i, c, o);
  }

  /** Declared orders first the schema is accepted; declared invoice first it is
      refused. */
  lemma ShopSeesOrder(cart: Entity, invoice: Entity, order: Entity, c: Edge, i: Edge, o: Edge, k: seq<Field>)
    requires Shop(cart, invoice, order, c, i, o, k)
    ensures Reordered([order, cart, invoice], [invoice, cart, order])
    ensures BuildDiags([order, cart, invoice]) == []
    ensures BuildDiags([invoice, cart, order]) == [Diagnostic("Order.o", BackReferenceUnique)]
  {
    MapOfReordered(MakeupOf(), [order, cart, invoice], [invoice, cart, order]);
    OrderFirst(cart, invoice, order, c, i, o, k);
    InvoiceFirst(cart, invoice, order, c, i, o, k);
  }

  // ---- a schema that no order saves ----

  /** Of two entities each has a repeated edge that names the one edge of a third,
      with which the other makes a one-to-one pair. */
  ghost predicate Ring(es: seq<Entity>, r: seq<Edge>, s: seq<Edge>, hub: seq<Edge>, k: seq<Field>) {
    && |es| == |k| == 4 && |r| == |s| == |hub| == 2
    && Has(es[0], "A", k[0], [r[0], s[0]]) && Has(es[1], "B", k[1], [r[1], s[1]])
    && Has(es[2], "C", k[2], [hub[0]]) && Has(es[3], "D", k[3], [hub[1]])
    && r[0].spec == EdgeNamed("r", 2, "C", "o", true) && s[0].spec == EdgeNamed("s", 3, "D", "o", false)
    && r[1].spec == EdgeNamed("r", 2, "D", "o", true) && s[1].spec == EdgeNamed("s", 3, "C", "o", false)
    && hub[0].spec == EdgeNamed("o", 2, "A", "", false) && hub[1].spec == EdgeNamed("o", 2, "B", "", false)
  }

  lemma RingNames(es: seq<Entity>)
    requires |es| == 4 && es[0].spec.fullName == "A" && es[1].spec.fullName == "B"
    requires es[2].spec.fullName == "C" && es[3].spec.fullName == "D"
    ensures EntityNamed(es, "A") == Some(es[0]) && EntityNamed(es, "B") == Some(es[1])
    ensures EntityNamed(es, "C") == Some(es[2]) && EntityNamed(es, "D") == Some(es[3]) && NamesDistinct(es)
  {
    assert forall i :: 0 <= i < 4 ==> es[i] in es;
  }

  lemma RingReferences(es: seq<Entity>, r: seq<Edge>, s: seq<Edge>, hub: seq<Edge>, k: seq<Field>)
    requires Ring(es, r, s, hub, k)
    ensures ReferenceOf(es, r[0]) == ReferenceOf(es, s[1]) == Paired(hub[0])
    ensures ReferenceOf(es, r[1]) == ReferenceOf(es, s[0]) == Paired(hub[1])
    ensures ReferenceOf(es, hub[0]) == ReferenceOf(es, hub[1]) == Silent
  {
    RingNames(es);
    FromHub(es, es[2], k[2], hub[0], r[0]);
    FromHub(es, es[2], k[2], hub[0], s[1]);
    FromHub(es, es[3], k[3], hub[1], r[1]);
    FromHub(es, es[3], k[3], hub[1], s[0]);
  }

  lemma RingIsSound(es: seq<Entity>, r: seq<Edge>, s: seq<Edge>, hub: seq<Edge>, k: seq<Field>)
    requires Ring(es, r, s, hub, k)
    ensures Sound(es)
  {
    RingNames(es);
    KeyedIsSound(es, es[0], "A", k[0], [r[0], s[0]]);
    KeyedIsSound(es, es[1], "B", k[1], [r[1], s[1]]);
    KeyedIsSound(es, es[2], "C", k[2], [hub[0]]);
    KeyedIsSound(es, es[3], "D", k[3], [hub[1]]);
  }

  lemma GroupOfTwo(e: Entity, x: Edge, y: Edge)
    requires e.spec.edges == [x, y]
    ensures DeclsOf(e) == [DeclOf(e.spec.fullName)(x), DeclOf(e.spec.fullName)(y)]
  {
    MapAt(DeclOf(e.spec.fullName), e.spec.edges);
  }

  lemma RingAsks(es: seq<Entity>, r: seq<Edge>, s: seq<Edge>, hub: seq<Edge>, k: seq<Field>)
    requires Ring(es, r, s, hub, k)
    ensures Asks(es, Groups(es))(0, 1) && Asks(es, Groups(es))(1, 0)
  {
    var p := Groups(es);
    MapAt(DeclsOf, es);
    RingReferences(es, r, s, hub, k);
    GroupOfTwo(es[0], r[0], s[0]);
    GroupOfTwo(es[1], r[1], s[1]);
    assert Binds(es, p[0][0], p[1][1]);
    assert Binds(es, p[1][0], p[0][1]);
  }

  /** Which edge each declaration is of. */
  ghost function RingEdge(r: seq<Edge>, s: seq<Edge>, hub: seq<Edge>, j: nat, k: nat): Edge
    requires |r| == |s| == |hub| == 2 && j < 4
  {
    if j >= 2 then hub[j - 2] else if k == 0 then r[j] else s[j]
  }

  lemma RingDecls(es: seq<Entity>, r: seq<Edge>, s: seq<Edge>, hub: seq<Edge>, key: seq<Field>, j: nat, k: nat)
    requires Ring(es, r, s, hub, key) && j < 4 && k < |DeclsOf(es[j])|
    ensures DeclsOf(es[j])[k].edge == RingEdge(r, s, hub, j, k) && (j >= 2 ==> k == 0) && k < 2
  {
    MapAt(DeclOf(es[j].spec.fullName), es[j].spec.edges);
  }

  lemma RingEdgesDiffer(
    es: seq<Entity>, r: seq<Edge>, s: seq<Edge>, hub: seq<Edge>, key: seq<Field>, j: nat, k: nat, j': nat, k': nat)
    requires Ring(es, r, s, hub, key) && Earlier(j, k, j', k') && j' < 4 && k < 2 && k' < 2
    requires (j >= 2 ==> k == 0) && (j' >= 2 ==> k' == 0)
    ensures RingEdge(r, s, hub, j, k).spec != RingEdge(r, s, hub, j', k').spec
  {
  }

  lemma RingIsDeclaredOnce(es: seq<Entity>, r: seq<Edge>, s: seq<Edge>, hub: seq<Edge>, key: seq<Field>)
    requires Ring(es, r, s, hub, key)
    ensures DeclaredOnce(Groups(es))
  {
    var p := Groups(es);
    MapAt(DeclsOf, es);
    forall x, y | 0 <= x < y < |Flat(p)| ensures Flat(p)[x].edge != Flat(p)[y].edge {
      var j, k := GroupOf(p, x);
      var j', k' := GroupOf(p, y);
      EarlierInFlat(p, j, k, j', k');
      RingDecls(es, r, s, hub, key, j, k);
      RingDecls(es, r, s, hub, key, j', k');
      RingEdgesDiffer(es, r, s, hub, key, j, k, j', k');
    }
  }

  /** Its `from`, if any, resolves to an edge that is not unique. */
  ghost predicate Hopeful(es: seq<Entity>, ed: Edge) {
    match ReferenceOf(es, ed) case Silent => true case Broken(_) => false case Paired(o) => !o.spec.unique
  }

  lemma RingIsHopeful(es: seq<Entity>, r: seq<Edge>, s: seq<Edge>, hub: seq<Edge>, key: seq<Field>, j: nat, k: nat)
    requires Ring(es, r, s, hub, key) && j < 4 && k < |DeclsOf(es[j])|
    ensures Hopeful(es, DeclsOf(es[j])[k].edge)
  {
    EachIsHopeful(es, r, s, hub, key);
    RingDecls(es, r, s, hub, key, j, k);
  }

  lemma EachIsHopeful(es: seq<Entity>, r: seq<Edge>, s: seq<Edge>, hub: seq<Edge>, key: seq<Field>)
    requires Ring(es, r, s, hub, key)
    ensures Hopeful(es, r[0]) && Hopeful(es, r[1]) && Hopeful(es, s[0]) && Hopeful(es, s[1])
    ensures Hopeful(es, hub[0]) && Hopeful(es, hub[1])
  {
    RingReferences(es, r, s, hub, key);
  }

  lemma RingIsNotHopeless(es: seq<Entity>, r: seq<Edge>, s: seq<Edge>, hub: seq<Edge>, key: seq<Field>)
    requires Ring(es, r, s, hub, key)
    ensures !Hopeless(es, Decls(es))
  {
    var p := Groups(es);
    MapAt(DeclsOf, es);
    GroupsAsDeclared(es);
    forall d | d in Flat(p) ensures Hopeful(es, d.edge) {
      var x: nat :| x < |Flat(p)| && Flat(p)[x] == d;
      var j, k := GroupOf(p, x);
      RingIsHopeful(es, r, s, hub, key, j, k);
    }
  }

  lemma RingGoesRound(es: seq<Entity>, r: seq<Edge>, s: seq<Edge>, hub: seq<Edge>, k: seq<Field>)
    requires Ring(es, r, s, hub, k)
    ensures Cyclic(Asks(es, Groups(es)), 4)
  {
    RingAsks(es, r, s, hub, k);
    TwoGoRound(Asks(es, Groups(es)), 4, 0, 1);
  }

  /** Nothing declared rules every order out, and still the entities would each have
      to come before the other: the schema is refused however it is declared. */
  lemma RingIsNeverAccepted(
    es: seq<Entity>, r: seq<Edge>, s: seq<Edge>, hub: seq<Edge>, k: seq<Field>, es': seq<Entity>)
    requires Ring(es, r, s, hub, k) && Reordered(es, es')
    ensures Sound(es) && !Hopeless(es, Decls(es)) && Cyclic(Asks(es, Groups(es)), 4)
    ensures BuildDiags(es') != []
  {
    RingIsSound(es, r, s, hub, k);
    RingIsNotHopeless(es, r, s, hub, k);
    RingGoesRound(es, r, s, hub, k);
    RingNumbers(es, r, s, hub, k);
    RingIsDeclaredOnce(es, r, s, hub, k);
    RefusedInEveryOrder(es, es');
  }

  lemma RingNumbers(es: seq<Entity>, r: seq<Edge>, s: seq<Edge>, hub: seq<Edge>, k: seq<Field>)
    requires Ring(es, r, s, hub, k)
    ensures AllNumbersDistinct(es)
  {
    forall e | e in es ensures NumbersDistinct(e) {
      MapAt((f: Field) => FieldProp(f), e.spec.fields);
      MapAt((x: Edge) => EdgeProp(x), e.spec.edges);
      assert e == es[0] || e == es[1] || e == es[2] || e == es[3];
    }
  }

  // ---- a schema without a key ----

  method BuildLone() returns (es: seq<Entity>)
    ensures AcceptedSchema(es) && es != [] && es[0].key == null
  {
    var e := new Entity(EntitySpec("A", "A", "a.proto", true, [], [], []));
    es := [e];
    LoneIsAccepted(e);
    var r := Build(es);
  }

  /** Build accepts an entity without a key; lowering is where it stops. */
  method KeylessIsAccepted(b: Backend.Store) returns (es: seq<Entity>, lowered: Option<Tables>)
    ensures AcceptedSchema(es) && es != [] && !Keyed(es) && lowered.None?
  {
    es := BuildLone();
    WorldIsAllocated(es);
    assert es[0] in es;
    var checked;
    lowered, checked := LowerAccepted(b, es);
  }

  lemma LoneIsAccepted(e: Entity)
    requires e.spec.fields == [] && e.spec.edges == [] && e.spec.indexes == []
    ensures BuildDiags([e]) == []
  {
    StructureDiagsIffUnsound([e]);
    assert [e][..0] == [] && DeclsOf(e) == [];
    assert Decls([e]) == [];
  }
}
