# calque, modelled

calque reads annotated protobuf messages into a schema, checks the schema against
what a store can hold, and emits code. These files model the parts of it where
something can go wrong quietly, and prove what they keep.

| files | what they model |
|---|---|
| `model`, `diag`, `wiring`, `links`, `tally`, `census`, `build`, `accepted` | the object graph of a schema: four passes over entities, fields, edges and indexes in place, with diagnostics through handles that share one list. `wiring` and `links` say on values what the passes come to, and `census` that they report each violation once; `build` is the passes on the heap, each proved against that; `accepted` restates it of the objects alone |
| `precedence`, `orders`, `halves`, `reorder`, `redeclare`, `witness` | what the order a schema is declared in changes and what it does not: over the orders of its entities and their edges, and then of schemas; `witness` holds the schemas that show it |
| `annotation`, `reader`, `intake` | annotations into fresh entities, with their one key, and what is reported of them |
| `reconcile`, `interleaving` | the write protocol of the browser tables: one call, any sequence of calls, and any number of calls interleaved step by step under a table lock |
| `filegraph`, `ways`, `closure` | the import closure of a plugin request, and the one order it comes in |
| `options`, `layers`, `faults`, `env`, `documents`, `strictness`, `section`, `validate`, `resolve` | the layered configuration: an options struct as a finite tree of fields, one layer over it, the environment walk over shared path storage, the claim of a section, and the resolution of a whole config |
| `backend`, `backends`, `capability`, `lower`, `output`, `run` | a run: what the stores hold and how their sections configure them, lowering, the files, and the loop that ties them together |
| `stores`, `dexie`, `uuid`, `tsw` | the printers with natural readers: the Dexie schema string, UUID text, the TypeScript string literal |
| `wrappers`, `sorting`, `text` | results, sorting and strings |

The imperative parts keep their form: the passes write the fields of a graph of
objects, the store and the output are objects whose methods change them, the
environment walk appends to slices that share an array. Each is proved against a
function on values, and what is promised is proved about that function.

What is given, and so a parameter or an assumption:

- A read-write transaction is atomic and excludes others on the same table
  (section 2.7 of the W3C Indexed Database API). `Lawful` says what the protocol
  asks of a table's overrides: the comparison is a total preorder, and removing
  the synthetic properties does not change a version. The comparison the
  TypeScript target generates is proved to be one on rows that carry a version.
- How the YAML library reads one value of a given kind (`Decoder`), and that it
  decodes a mapping strictly and field by field into what is there.
- What names a list option holds, once the YAML library has read it.
- What a target emits, and whether it complains.
- No two fields of a proto message share a number, where the order they are listed
  in is compared.
- The functions a descriptor library answers with are fields of a record.

## Where the code and its words differ

The model follows the code.

- The back-reference check (schema/schema.go:227) sees only the pairs before it,
  so the verdict can depend on declaration order; with every edge in at most one
  pair it does not. `Witness.ShopSeesOrder` is a schema accepted in one order and
  refused in another. Over all the orders a schema can be declared in,
  `Orders.SomeOrderIsAccepted` and `Orders.SomeOrderIsRefused` say exactly when one
  is accepted and when one is refused, `Orders.VerdictIgnoresOrder` when all are
  judged alike, and `Halves.ReversesAgreeIff` when the reverses agree.
  `Links.UniqueInverseOfRepeated` says exactly when the check lets a repeated edge
  with a unique inverse through.
- The manifest is said to be every path, one a line (gen/output.go:78). A path may
  hold a line break, and then it is not: `Output.ManifestHidesBreak`.
- The import closure is called topologically ordered by construction
  (internal/protoc/compile.go:80). The walk alone does not make it so: it is exactly
  when imports do not go round, which files that compile never do.
- Two producers of one path are said to be an error (gen/output.go:25). The check
  compares spellings, and `Output.SpelledTwice` gives every path a second one;
  `Output.ShipsIffApart` says exactly when nothing is overwritten.
- A target's files are said to go under its `out` (gen/target.go:202). A file name
  may climb out of it as long as it stays inside the output root:
  `Output.NameLeavesDirectory`; and `Output.UnderIsBeneath` says exactly when one
  does not.
- A byte string is said to be a key or an index member only where a store allows it
  (gen/backend.go:61). Only a unique field of bytes is ever reported, and an index
  over one is not: `Capability.ShortfallsOfStore`.
- `SchemaString` says a compound index gets no `&` (backend/dexie/dexie.go:231).
  With compat off it does.
- `str_u8` says exactly thirty-two digits must remain
  (ts/packages/runtime/src/uuid.ts:32); more are read and the rest ignored.
  `u8_str` says a length other than sixteen gives nothing (line 6); a longer input
  is cut.
- A generated `_compare` answers 1 for two rows that both lack a version
  (target/ts/entity.go:184), so it is a preorder only where versions are present.
- Build is said to find the key (schema/schema.go:49), and an entity of a schema it
  accepted to have one (schema/entity.go:52). The annotation reader sets it, and
  Build leaves it alone: without one the schema is accepted and lowering fails
  (`Witness.KeylessIsAccepted`).

## Model

| member | source | states |
|---|---|---|
| Diag.Diagnostics.At | schema/diag.go:48-61 | A handle at a longer path appends to the list its maker appends to, and making one changes nothing that is listed; a list is made on first use and then shared |
| Diag.Diagnostics.Add | schema/diag.go:63-89 | Exactly one diagnostic is appended, at the end of the one shared list, under the joined path; every handle on that list sees it |
| Diag.JoinPathAssociates | schema/diag.go:63-72 | Joining paths step by step is joining them at once, an empty part adding nothing on either side |
| Diag.JoinPathParts | schema/diag.go:63-72 | The dotted parts of a joined path are the parts of its halves, and an empty half adds none |
| Builder.AttachProps | schema/schema.go:98-118 | Every field and edge is pointed at its entity and props is the members sorted by number |
| Builder.AttachElems | schema/schema.go:116-122 | Every index is pointed at its entity and elems is the props in order followed by the indexes as declared |
| Builder.MarkSpecial | schema/schema.go:124-139 | Version and erased end as the first fields so marked, and each later one records one diagnostic, in field order |
| Builder.Attach | schema/schema.go:95-140 | The whole pass over one entity: members, order, marks and what was recorded |
| Builder.ResolveRefs | schema/schema.go:156-173 | An index ends with the props its refs meet by name and number, in ref order, and one diagnostic for each ref that does not |
| Builder.ResolveIndexes | schema/schema.go:146-175 | All indexes of an entity, an index without refs being reported and left as it was |
| Builder.ResolveEdges | schema/schema.go:177-190 | Every edge whose target is defined points at the entity registered under that name; each other edge records one diagnostic |
| Builder.RegisterNames | schema/schema.go:65-72 | A name maps to the first entity that has it, and each later one records one diagnostic |
| Builder.FindHalf | schema/schema.go:205-222 | What `from` names: a refusal for a missing, misnumbered or non-edge member, or the edge, looked up in the heap as the earlier passes left it |
| Builder.LinkEdge | schema/schema.go:200-243 | One step of the back-reference pass on the heap is one step of the fold over declarations: inverse, reverse and both unique flags, or one diagnostic and no change |
| Builder.ResolveBackReferences | schema/schema.go:197-245 | A whole entity's step, through edges that may be its own |
| Builder.Build | schema/schema.go:57-91 | For any fresh entities, accepted or not, the heap is wired exactly as the fold over declared `from` pairs says, and the run fails exactly with the ordered list of every violation |
| Wiring.PropsAreSortedMembers | schema/schema.go:101-114 | props is a permutation of fields and edges in number order, and members of equal number keep the order they were declared in (the sort is stable) |
| Wiring.ElemsAreMembers | schema/schema.go:116-122 | An entity's elements are one for each prop, in order, and then one for each index as declared, all of them |
| Wiring.RefPropsInDeclaredOrder | schema/schema.go:156-173 | When every ref is met, the index holds one member a ref, in ref order, of that name and number |
| Wiring.StructureDiagsIffUnsound | schema/schema.go:57-190 | The passes before back references record nothing exactly when names are distinct, marks occur once, every index has refs that all agree on name and number, and every target exists |
| Wiring.RedefinesIffNamedBefore | schema/schema.go:65-71 | A name is reported exactly when an earlier entity has it |
| Links.PairedIsNamed | schema/schema.go:205-222 | The other half of a pair is an edge of the target, with exactly the name and number `from` gives |
| Links.ReferenceIsSaid | schema/schema.go:200-222 | A `from` comes to exactly one thing, said without the lookup: nothing where it names nothing or its target is no entity; that the target has no member of the name, or the first one has another number, or is a field; or the edge it names |
| Links.UniqueIsOneToOne | schema/schema.go:236-243 | The fold turns unique on for exactly the edges that are a side of a declared pair neither side of which is repeated |
| Links.LinkDiagsInOrder | schema/schema.go:197-231 | What the pass records is, in order, what each declaration records on its own account; a clash is decided from the declarations before it |
| Links.LinksAgree | schema/schema.go:233-234 | An inverse is the half `from` names; whatever is an inverse has a reverse; a reverse has the edge as its inverse |
| Links.LinkedEdgesHaveInverses | schema/schema.go:224-234 | An edge has an inverse exactly when its `from` resolves and does not clash, whatever else in the schema is wrong |
| Links.AcceptsIffNothingClashes | schema/schema.go:200-231 | The pass is silent exactly when every `from` resolves and none clashes with what came before it |
| Links.AcceptedInverses | schema/schema.go:197-234 | In an accepted schema an edge has an inverse exactly when it declares one |
| Links.GraphIgnoresOrder | schema/schema.go:233-243 | Two accepted orders of the same declarations give the same inverses and the same unique flags |
| Links.ReversesIgnoreOrder | schema/schema.go:233-234 | And the same reverses, when no two edges name one half |
| Links.UniqueInverseOfRepeated | schema/schema.go:224-243 | An accepted schema holds a repeated edge with a unique inverse exactly when a repeated edge names an edge a one-to-one pair makes unique: the state the check is there to prevent |
| Links.OnePairNeverConflicts | schema/schema.go:224-243 | If every edge is in at most one declared pair, neither order-dependence can arise |
| Links.OnePairIgnoresOrder | schema/schema.go:224-243 | If every edge is in at most one declared pair, verdict, inverses, reverses and unique flags do not depend on order, and no repeated edge ends with a unique inverse |
| Census.ReportIsCensus | schema/schema.go:57-245 | Build's report is a census of what is wrong, each violation stated on its own of the declarations: an earlier entity of the name, an earlier field marked alike, an index without refs, a ref that is not met by the first prop of its name, a target no entity has the name of, a `from` that is broken in the one way it is, and a repeated edge naming one that is unique or that a one-to-one pair declared before it makes so; every one of them appears once, in order, under its own path, and nothing else does |
| Orders.SomeOrderIsRefused | schema/schema.go:197-245 | Over every order of the entities and of each one's edges: some order is refused exactly when every one is, or a repeated edge names an edge that some pair makes unique |
| Orders.SomeOrderIsAccepted | schema/schema.go:197-245 | Over the same orders: some order is accepted exactly when no declaration rules every order out and "an edge of this entity has to come before an edge of that one" does not go round |
| Orders.VerdictIgnoresOrder | schema/schema.go:197-245 | So every order is judged alike exactly when all are refused, on either of those counts, or none is |
| Halves.LastIsKept | schema/schema.go:233-234 | In an accepted order the reverse of an edge is the last edge to name it |
| Halves.KeptIffCanBeLast | schema/schema.go:197-245 | Some accepted order leaves an edge as the reverse of the one it names exactly when nothing rules every order out, the demands on the order of the entities do not go round once every other entity that names it has to come first, and no edge beside it has to be both before and after it |
| Halves.ReversesAgreeIff | schema/schema.go:233-234 | Every accepted order leaves an edge the same reverse exactly when at most one of the edges that name it can be the last to |
| Halves.AnyCanBeLast | schema/schema.go:233-234 | Where no repeated edge names a side of a one-to-one pair, every edge that names a half can be the last to: an edge two others name does see the order |
| Reorder.PropsIgnoreOrder | schema/schema.go:101-114 | Members of distinct numbers land in the same order however an entity lists them |
| Reorder.SoundIgnoresOrder | schema/schema.go:57-190 | Reordering entities, fields, edges and indexes changes nothing the first passes decide, repeated names included |
| Reorder.BuildIgnoresOrder | schema/schema.go:57-91 | With distinct numbers and every edge in at most one pair, Build accepts a schema and its reordering alike, refuses both where a name repeats, and leaves the same links |
| Reorder.VerdictOfReordered | schema/schema.go:57-91 | Build accepts a reordered schema exactly when the schema is sound and the back-reference pass accepts the edges in the new order |
| Redeclare.DeclareIn | schema/schema.go:197-245 | Every order of the entities and of their edges is the order of a schema, and one Build may be handed if the first was |
| Redeclare.RefusedInEveryOrder | schema/schema.go:57-245 | With something wrong in every order, or demands on the order of the entities that go round, Build refuses the schema however it is declared |
| Redeclare.AcceptedInSomeOrder | schema/schema.go:57-245 | Otherwise there is a reordered schema that Build accepts, of entities it may be handed |
| Redeclare.AcceptedInEveryOrder | schema/schema.go:57-245 | With nothing wrong in every order, and no repeated edge that names an edge some pair makes unique, Build accepts the schema however it is declared |
| Redeclare.RefusedInSomeOrder | schema/schema.go:57-245 | Otherwise there is a reordered schema that Build refuses, of entities it may be handed |
| Redeclare.ReverseIsCandidate | schema/schema.go:233-234 | However an accepted schema is declared, the edge left as a reverse is one that can be the last to name it |
| Redeclare.CandidateIsReverse | schema/schema.go:233-234 | And each edge that can be is the reverse in some accepted reordered schema |
| Redeclare.FreshIsWellDeclared | schema/entity.go:41 | Entities as NewEntity makes them, whose members' numbers do not repeat, declare no edge twice: what the two halves above ask for |
| Witness.ShopSeesOrder | schema/schema.go:224-243 | Three keyed entities that Build accepts in one order and refuses in another |
| Witness.RingIsNeverAccepted | schema/schema.go:197-245 | Four keyed, sound entities with nothing wrong that every order would meet, whose edges ask two of them each to come before the other: refused in every order |
| Witness.KeylessIsAccepted | schema/entity.go:52-54 | Build accepts a schema whose entity has no key, and lowering it fails for every backend |
| Accepted.InverseIsNamed | schema/schema.go:197-234 | On the heap of an accepted schema: every target is the entity named; an edge has an inverse exactly when it has a `from`, and it is the edge that name and number pick out on the target |
| Accepted.DirectionsAgree | schema/schema.go:233-234 | Every inverse has a reverse, and every reverse has the edge as its inverse, cycles and self-references included |
| Accepted.UniqueIsDerived | schema/schema.go:236-243 | An edge is unique exactly when it was declared so or is a side of a pair with neither side repeated |
| Accepted.IndexesAreNamed | schema/schema.go:146-175 | Every index is non-empty and holds, in ref order, the props of its own entity that its refs name and number |
| Accepted.MembersAreAttached | schema/schema.go:95-140 | On the heap of an accepted schema every prop and index knows its entity, props has one member a field and an edge, in number order, and the marks are the only fields that carry them |
| Accepted.ElementsAreMembers | schema/schema.go:116-122 | elems has as many members as props and indexes together: first the props in order, and then every index as declared |
| Accepted.MarksAreCarried | schema/schema.go:124-139 | The version is the one field marked so and there is none when no field is; likewise the erased one |
| Model.Entity.Keys | schema/entity.go:83-99 | The unique elements in order, a hidden index left out |
| Model.KeysAreLookups | schema/entity.go:83-99 | What Keys yields is every element a row can be looked up by, and nothing else, in order: a unique prop, or a unique index that is not hidden |
| Model.Entity.Prop | schema/entity.go:101-109 | The first member of that name, or none |
| Annotations.BadIsFirstBroken | ormcompat/prop.go:37-231 | A field is refused exactly when its annotation breaks one of fourteen rules, each stated alone, and for the first of them in the order they are looked at |
| Annotations.GoodSays | ormcompat/prop.go:62-231 | What is read of a field is what it and its annotation say: names, number and list; unique, immutable, version and erased exactly where said, or derived for the key; nullable by the rule for presence, times and erased stamps; the declared type or the deduced one, a timestamp a time and any other message a document. Of an edge: its target, its `from`, and its three flags |
| Annotations.ReadIsGiven | ormcompat/prop.go:37-58 | Of the fields that break no rule those with an edge annotation are edges, the others fields, and only disabled ones neither |
| Annotations.MarksAreTimes | ormcompat/prop.go:135-182 | A version that is read is a time that is not unique, immutable, the key or the erased stamp; an erased stamp is a time that is not unique, immutable, the key or the version and is flagged nullable, which a repeated one cannot be all the same |
| Reader.ResolveKey | ormcompat/entity.go:78-121 | The first prop marked key that says nothing against it is made unique, immutable and non-null, and no other prop is changed; every other one so marked is recorded, as a second key or by what it says, in order, and so is there being none |
| Reader.KeyDiagsIffNotOne | ormcompat/entity.go:78-121 | Nothing is recorded exactly when one prop is marked key and nothing it says contradicts that |
| Reader.ParseProps | ormcompat/entity.go:34-39 | The readable props in field order, and one diagnostic for each unreadable field, of its kind and at its path, in that order |
| Reader.ParseIndexes | ormcompat/entity.go:123-162 | One index for each option that is neither disabled nor at fault, as declared, and one diagnostic for each that is unnamed or says includes_erased without unique |
| Reader.BuildMembers | ormcompat/entity.go:43-58 | Fields and edges are made in order from the specs, and the key is the field made from the chosen one |
| Reader.ParseEntity | ormcompat/entity.go:25-76 | An entity is made of fresh members, and what is recorded is its fields', its key's and its indexes' diagnostics in that order; when there are none it stands for its message and has its one key |
| Reader.KeyIsAKey | ormcompat/entity.go:108-113 | The key of an entity that was read without fault is unique, immutable and never null |
| Reader.StandingIsSaid | ormcompat/entity.go:30-162 | Said of the message alone: an entity read without fault has one field for each field of the message that is neither an edge nor disabled, one edge for each edge and one index for each option that is not disabled, each in order and each as its own annotation says, and its key is the one field marked so |
| Intake.ReportIsTally | ormcompat/entity.go:30-162 | The reader's report is a tally of what is wrong, said of the messages alone: every field by the first rule it breaks, every second key, every key that says it is none, every message without a key, every unnamed index and every includes_erased that says nothing; each once, in order and under its own path, and nothing else |
| Intake.ReadsIffNoMistake | ormcompat/entity.go:30-162 | Everything is read exactly when there is no such mistake |
| Text.DecimalReadsBack | ormcompat/entity.go:129 | The position in a path is spelled in decimal digits without a leading zero and reads back |
| Reader.Parse | ormcompat/parse.go:111-139 | With a message at fault it fails with everything the reader recorded; otherwise every entity is what its message says, member by member, and it succeeds exactly when Build has nothing to report, and then the schema is wired and every entity has its one key |
| Reconcile.TableBase.Reconcile | ts/packages/dexie/src/db.ts:136-156 | One call: true exactly when nothing is stored under the key, the table has no versions, or what is stored compares older than the message; then the message's row, without the two synthetic properties, is what is stored, and otherwise nothing changes; no other key is touched |
| Reconcile.TableBase.Insert | ts/packages/dexie/src/db.ts:108-111 | A free key is answered and the row stored under it without the synthetic properties; a taken key is refused and nothing changes |
| Reconcile.TableBase.MakeDehydrated | ts/packages/dexie/src/db.ts:93-99 | The row is the dehydrated message without $typeName and $unknown and with every other property, and the caller's message is left as it was |
| Reconcile.ReplayNeverOlder | ts/packages/dexie/src/db.ts:136-156 | Along any sequence of calls no key goes away and no stored version gets older |
| Reconcile.ReplayCoversDelivered | ts/packages/dexie/src/db.ts:136-156 | After a run of reconciles the stored version of a key is at least as new as everything delivered under it |
| Reconcile.ReplayInventsNothing | ts/packages/dexie/src/db.ts:136-156 | What is stored was stored at the start or delivered |
| Reconcile.WrittenVersionsIncrease | ts/packages/dexie/src/db.ts:150-154 | Of two writes under one key the later is strictly newer, and each is strictly newer than what the run started from |
| Reconcile.ReplayedWriteIsKept | ts/packages/dexie/src/db.ts:150-152 | Delivering again what was already delivered answers false and changes nothing |
| Reconcile.FinalIsNewest | ts/packages/dexie/src/db.ts:136-156 | The final version of a key is a maximum of the initial one and those delivered |
| Reconcile.VersionsIgnoreOrder | ts/packages/dexie/src/db.ts:136-156 | Two runs that deliver the same reconciles in different orders end with the same version of every key |
| Reconcile.RowsIgnoreOrder | ts/packages/dexie/src/db.ts:150-152 | The rows themselves, and not only their versions, are the same in every order exactly when no two different rows tie for newest and none is already stored |
| Reconcile.TimesCompare | target/ts/entity.go:183-190 | Of two present versions the earlier is the older, to the nanosecond, and only equal ones tie; a missing one is newer as the first of the two and older as the second |
| Reconcile.TimesArePreordered | target/ts/entity.go:183-190 | The generated comparison is a total preorder on rows that carry a version |
| Reconcile.TimesArePreorderedIffPresent | target/ts/entity.go:183-190 | On a set of versions, some possibly missing, the comparison is a preorder exactly when none is missing |
| Interleaving.EveryRunIsSerial | ts/packages/dexie/src/db.ts:108-156 | Under any schedule of any number of calls, transactions exclude each other and the run is the serial one of the calls in the order they finished, answers included |
| Interleaving.SomeCallCanStep | ts/packages/dexie/src/db.ts:136-156 | While a call has not answered, some call can step |
| Interleaving.StoredVersionsNeverDecrease | ts/packages/dexie/src/db.ts:136-156 | Between any two moments of any run no key goes away and no stored version gets older |
| Interleaving.AnswerSaysWhoWrote | ts/packages/dexie/src/db.ts:113-156 | A call answers once, and true exactly when that step wrote its own row; a false answer leaves the store as it was |
| Interleaving.OnlyWritersWrite | ts/packages/dexie/src/db.ts:108-156 | A step that changes the store is one that answers its own call true |
| Interleaving.AnsweredTrueIncreases | ts/packages/dexie/src/db.ts:150-154 | The versions answered true for one key are strictly increasing in the order the calls finished |
| Interleaving.FinishedRunsAgree | ts/packages/dexie/src/db.ts:136-156 | However two finished runs of the same reconciles interleave, they end at the same version of every key |
| Closure.Walker.Walk | internal/protoc/compile.go:85-104 | The walk terminates on cyclic imports too, adds to the list each unseen file it reaches, once and after what it imports, and stops only at a reachable file without a descriptor; where imports do not go round it lists files in the order of the first ways to them |
| Closure.Request | internal/protoc/compile.go:76-119 | The list is exactly the files the roots need, each once; it fails exactly when a needed file has no descriptor, and names one that has none; the files to generate are the roots, sorted. Where imports do not go round, every file is listed once everything an earlier way leads to is, a way being a root and then imports by their places, and the error names the first file on the ways that has none |
| Closure.NeededIsListed | internal/protoc/compile.go:71-75 | A list closed under imports that holds the roots holds everything they need |
| Closure.OrderedIffAcyclic | internal/protoc/compile.go:80-83 | Every file follows its imports exactly when none of the listed files is on an import cycle: the order the comment claims by construction |
| Closure.TransitiveImportsComeFirst | internal/protoc/compile.go:80-83 | Without cycles every file follows all its transitive imports |
| Closure.FirstWaysOrder | internal/protoc/compile.go:80-119 | So the order is the only one: of two files the one comes first whose first way turns off before the other's, by the roots and the imports as written, or goes on from it |
| DexieStores.Backend.Configure | backend/dexie/dexie.go:78-93 | An option set is taken exactly when compat is one of the two spellings or empty and every accepted kind is a shortfall kind; an empty compat means orm-ts |
| DexieStores.Backend.VisitIndex | backend/dexie/dexie.go:284-319 | An index is printed as its member paths in order: always bracketed and unmarked with compat on, bracketed only when compound and marked when unique with it off |
| DexieStores.Backend.SchemaString | backend/dexie/dexie.go:235-258 | The string of an entity is the text of its primary key and then of its other lookups, and an error exactly when one of them reaches an edge to an entity without a key |
| DexieStores.SchemaStringReadsBack | backend/dexie/dexie.go:229-319 | With separator-free names, reading the string back gives the path of the primary key, unique and alone, and then one item for every other lookup of the entity and nothing else, in order: a prop unique and alone; an index over its members' paths in proto names, bracketed and not unique with compat on, and in JSON names, unique, and bracketed unless it has one member with it off |
| DexieStores.UserIsSpelled | backend/dexie/dexie.go:229-333 | The text itself for one entity, in both spellings: a key, a unique edge and a unique index over two fields |
| DexieStores.SameStringSameLookups | backend/dexie/dexie.go:229-258 | The string determines the lookups |
| Stores.ItemSurvives | backend/dexie/dexie.go:276-319 | Reading back the text of one lookup gives that lookup |
| Stores.StoresSurvive | backend/dexie/dexie.go:245-257 | Reading back the text of a list of lookups gives that list |
| Uuid.U8Str | ts/packages/runtime/src/uuid.ts:14-25 | Nothing for fewer than sixteen bytes, and otherwise the laid-out hex of the first sixteen |
| Uuid.StrU8 | ts/packages/runtime/src/uuid.ts:43-56 | Nothing exactly when fewer than thirty-two hex digits remain, and otherwise their sixteen bytes; the branch for a pair that is not a number is never taken |
| Uuid.PairParses | ts/packages/runtime/src/uuid.ts:51-53 | parseInt of two hex digits is a number below 256: why the NaN branch is unreachable |
| Uuid.BytesSurvive | ts/packages/runtime/src/uuid.ts:14-56 | Reading what was printed gives the first sixteen bytes, for every input of at least sixteen |
| Uuid.TextIsCanonical | ts/packages/runtime/src/uuid.ts:14-56 | Printing what was read gives the lower-case 8-4-4-4-12 form of the first thirty-two digits |
| Uuid.TextIsShaped | ts/packages/runtime/src/uuid.ts:7-24 | The text is thirty-six characters, dashes at the four places and lower-case digits elsewhere, as section 4 of RFC 9562 has it |
| Uuid.TextSpellsBytes | ts/packages/runtime/src/uuid.ts:14-25 | Digit by digit: byte i is spelled by two hex digits, the high half first, where section 4 of RFC 9562 puts them |
| Uuid.DigitsAreHex | ts/packages/runtime/src/uuid.ts:43-56 | A hex digit stands for its place among the sixteen, in either case |
| Uuid.ReadTheSame | ts/packages/runtime/src/uuid.ts:43-56 | Two texts are read alike exactly when both have too few digits or their first thirty-two agree but for case |
| Uuid.UrnIsShifted | ts/packages/runtime/src/uuid.ts:35-41 | The urn form is always read, and gives back the uuid it spells exactly when every byte of it is 0xdd |
| Tsw.Str | internal/tsw/tsw.go:49-71 | Refused exactly when a character is below 0x20 and neither newline nor tab |
| Tsw.PrintedIsOneLiteral | internal/tsw/tsw.go:44-71 | The output, whatever follows it, lexes as one double-quoted string literal whose value is the input (section 12.9.4 of ECMA-262) |
| Tsw.BodyIsPlain | internal/tsw/tsw.go:49-71 | Nothing below a space is printed, and only quotes, backslashes, newlines and tabs take two characters |
| Tsw.PrintingIsInjective | internal/tsw/tsw.go:44-71 | Two texts that print alike are alike |
| Output.KeptCountsDepth | gen/output.go:51-55 | Cleaning a path keeps as many segments as the walk is deep when it stays inside, and begins with ".." when it does not |
| Output.CheckFileName | gen/output.go:43-57 | Accepted exactly when the name is non-empty, not absolute, and in every prefix of its segments the ordinary ones are at least as many as ".."; an error says which of the three it is |
| Output.CheckOut | config/validate.go:75-93 | The same rule, with the empty path for the root itself |
| Output.UnderStaysInside | gen/target.go:202-208 | A name that stays inside, put under a directory that stays inside, stays inside the output root |
| Output.UnderIsBeneath | gen/target.go:202-208 | A name put under a directory leads to a place beneath that directory exactly when the name itself stays inside |
| Output.UnderNothing | gen/target.go:202-208 | Under no directory a name is itself |
| Output.NameLeavesDirectory | gen/target.go:202-208 | A target's file called ../x under a directory a/b is written, and lands at a/x: beside that directory and inside the output root |
| Output.Files.Add | gen/output.go:23-41 | A file is recorded exactly when its path may be written and no file was recorded under that spelling; a failure says what is wrong with the path or who holds it, and leaves the output as it was |
| Output.ShipsIffApart | gen/output.go:23-41 | Written out, every recorded file is there with its own body and none is another exactly when no two recorded paths lead to one place |
| Output.OnePlaceIffOneCleaned | gen/output.go:51-55 | Two paths lead to one place exactly when they are cleaned to one |
| Output.CleanedAreApart | gen/output.go:23-41 | Where every path is spelled as cleaning would spell it, the check on spellings is enough |
| Output.SpelledTwice | gen/output.go:31-55 | Any path that may be written has a second spelling that may be written and leads to the same place |
| Output.Files.Names | gen/output.go:62-67 | Every path once, in strictly increasing order |
| Text.LexIsFirstDifference | gen/output.go:62-67 | The order of sorted names: one is at most another when it is the front of it or has the smaller character where they first differ |
| Output.ManifestListsEveryFile | gen/output.go:78-95 | Below its two heading lines the manifest reads back as exactly the sorted paths, one a line, if and only if no path holds a line break |
| Output.ManifestHidesBreak | gen/output.go:43-95 | A path with a line break in it may be added, and its manifest is that of two other paths |
| Output.Files.Manifest | gen/output.go:86-95 | The text is the heading and then every path in order, each ended by a line break |
| Validate.Check | config/validate.go:10-57 | A document passes exactly when its version is 1, it has targets, every entry is spelled right and stays inside the root, and no two entries go by one label, an entry's own name or without one its target's; an error is of the first entry that is wrong, and says in which way, or goes by the label of one before it |
| Validate.CheckEntry | config/validate.go:23-47 | One entry: names of the schema's pattern, a lower-case letter and then lower-case letters, digits and dashes, and an out inside the root; an error says which of the three things that can be wrong is |
| Backend.ValidateAccept | gen/capability.go:100-114 | Every accepted name is a shortfall kind this build knows |
| Capability.CheckIndex | gen/capability.go:189-228 | What one index lacks, nothing but the compound-unique shortfall when that one is found |
| Capability.CheckCapabilities | gen/capability.go:163-187 | Every shortfall, entity by entity: indexes, props, version, in that order |
| Capability.NoShortfallIffHeld | gen/capability.go:163-276 | Nothing is reported exactly when the store can hold all six things: compound uniqueness, a partial index, arity, member order through the target's key, unique bytes, and transactions for a version |
| Capability.ShortfallsSaid | gen/capability.go:163-276 | A shortfall of a kind is reported at a path exactly when something in the schema asks there for what the store lacks, an index refused for being compound being asked nothing more |
| Capability.ShortfallsOfStore | gen/capability.go:163-276 | Store by store: only Dexie and MySQL lack partial indexes, only Postgres counts members, beyond thirty-two, only Dexie keys nothing by bytes, and all three meet an index over a document; nothing else is ever reported, and each of these exactly where something asks for it |
| Capability.Partition | gen/capability.go:131-147 | The two lists merge back, in order, to what was found; one holds what the backend tolerates and the other what it does not |
| Capability.GoesOnIff | gen/capability.go:133-147 | A run goes on in spite of a shortfall always while Dexie spells as the older generator does, never with a SQL store, and otherwise exactly when the section names its kind |
| Capability.MergeIsFilter | gen/capability.go:131-147 | So nothing is lost, repeated or moved: what is refused is what the backend does not tolerate, in the order it was found, and nothing is refused exactly when everything is tolerated |
| Lower.EveryCodecIsImplemented | gen/run.go:104-122 | No schema and no configuration of the three backends picks a codec the backend does not list |
| Lower.CodecsAreThoseWritten | gen/lower.go:32-41 | Each store lists exactly the codecs it writes: uuids as text, documents as JSON, a time as it is given, as a native column or as milliseconds, and everything else as it is |
| Lower.LowerTables | gen/lower.go:56-84 | A table for every entity and no other, one codec a prop and no more, what the runtime reads beside it; an error exactly when an entity has no key or cannot be printed |
| Lower.CheckCodecs | gen/run.go:110-122 | Passes exactly when every codec of every table is listed |
| Lower.TargetKeyNeverFails | schema/edge.go:87-95 | In an accepted, keyed schema every edge has a target with a key, and is stored as that key |
| Lower.KeyedSchemaLowers | backend/dexie/dexie.go:219-258 | No accepted, keyed schema stops any of the three backends from lowering it |
| Lower.LowerAccepted | gen/run.go:62-69 | On an accepted schema lowering fails exactly when some entity has no key; otherwise every prop has the codec its store writes its type with, an edge that of its target's key, and the codec check finds nothing |
| Lower.TableNameReadsBack | backend/grdb/grdb.go:152-187 | The table of a camel-case entity reads back as its name |
| Lower.TablesAreApart | backend/grdb/grdb.go:152-187 | So no two such entities share a table |
| Env.Append | config/env.go:235-237 | Appending to a slice leaves what the slice itself spells alone, though it may write into an array siblings share |
| Env.EnvWalk.Visit | config/env.go:139-142 | At a leaf the walk keeps the name, or reads the variable of that name and keeps it, or fails naming it |
| Env.EnvWalk.WalkField | config/env.go:214-242 | One field: skipped, inlined, a leaf or walked into, a missing struct made exactly when something beneath was read |
| Env.EnvWalk.WalkStruct | config/env.go:196-249 | The walk over shared path storage does to a struct exactly what its leaves, taken one at a time, ask for; it keeps their names in order and fails exactly at the first leaf whose text does not fit |
| Env.NamesAreOfLeaves | config/env.go:115-144 | One name a leaf, in field order, each spelled by the path to its leaf; what the struct holds has no part in it |
| Env.VariableSpells | config/env.go:42-44 | A field's variable is CALQUE_, the section and the path to the field, with no small letter and no dash, and otherwise letter for letter |
| Env.OneVariableIff | config/env.go:266-280 | Two fields answer to one variable exactly when section and path, joined by underscores, agree but for case and with a dash as an underscore |
| Env.TwoFieldsOneVariable | config/env.go:266-280 | Two fields of two sections that do |
| Options.TagNamesField | config/env.go:257-264 | What a yaml tag says: the name up to the first comma, or the Go name in small letters, "-" to skip and inline among the options after it |
| Env.WalkReadsWhatIsNamed | config/env.go:157-178 | After a walk without error every named leaf holds what its variable reads to, a pointer points at a struct exactly when it did before or a leaf beneath it was read, and every other leaf holds what it held or the zero of a struct made around it |
| Layers.EveryLeafOnce | config/env.go:212-243 | The leaves a walk meets are exactly those found by going straight to their places, each once, in the order of the fields |
| Layers.LeafPathIsNames | config/env.go:212-243 | The path of a leaf is the names of the fields around it, from the outside in, inlined ones left out, and then its own |
| Layers.LaidAt | config/env.go:196-249 | A layer laid over a struct, said leaf by leaf |
| Layers.MadeIffGiven | config/env.go:197-210 | A pointer to a struct points at one afterwards exactly when it did before or something is said beneath it |
| Layers.NothingGiven | config/env.go:197-199 | A layer that says nothing changes nothing |
| Faults.FaultIsFirstToFail | config/env.go:196-249 | A layer is refused for the first leaf, in field order, that what it says does not fit, and is not refused when there is none |
| Faults.PointersAreFollowed | config/env.go:298-318 | However many pointers away, text reaches a string as it is, and any other kind is read from its zero |
| Documents.Document | config/opt.go:50-59 | The fragment holds the value at its path and nothing else |
| Documents.NestSays | config/opt.go:50-59 | An override says something of its own path, of what its value holds beneath it and of the structs above it, and of no other path |
| Strictness.StrictIsKnown | config/section.go:48-79 | A document is taken exactly when it is a mapping of the struct's keys and what it holds at the path of every struct inside is a mapping of that struct's: one unknown key anywhere, or a value where a struct belongs, and it is refused |
| Documents.WrittenIsMade | config/section.go:48-79 | A document makes the struct behind a pointer exactly when it holds something at the struct's own path |
| Documents.EveryLeafIsLastSaid | config/section.go:48-79 | After any stack of sources every leaf holds what the last one to name it says, read into what the ones before that left there, and otherwise what it held or the zero of a struct made around it |
| Documents.AfreshIsLastSaid | config/section.go:48-79 | For a kind that is read afresh, what the last source to name a leaf says settles it alone |
| Sections.CutIsAtFirst | config/env.go:64-68 | An entry is cut at its first equals sign |
| Sections.CutSpells | config/env.go:64-68 | An entry is under a name exactly when it begins with the name and an equals sign and the name holds none; the rest is its value |
| Sections.Config.ReadEnv | config/env.go:63-74 | The tracked entries are recorded and nothing is applied |
| Sections.LastEntryIsRecorded | config/env.go:63-74 | A name is recorded exactly when some entry is under it, it begins with CALQUE_ and not with CALQUE_REFERENCE_; its value is that of the last such entry |
| Sections.Config.Override | config/opt.go:31-48 | Taken exactly when the path has a section and a key and no empty part; then it is the last override of its section |
| Sections.Config.RecordEnvNames | config/env.go:121-144 | The names of a section are recorded by a walk that changes nothing |
| Sections.Config.ApplyEnv | config/env.go:157-178 | The options are read from the environment, the names used are exactly those the section answers to, and an error names the variable of the first leaf that does not fit |
| Sections.Config.ApplyOverrides | config/section.go:68-78 | The overrides are read one at a time, and an error names the first that is not read |
| Sections.Config.Section | config/section.go:18-80 | The options come to hold what file, environment and overrides leave in them, in that order; the section is claimed exactly when something was said of it; the variables it answers to are marked with it, unless it stops at the file or at a variable; an error is that of the first source that is not read |
| Sections.SectionLayers | config/section.go:48-79 | After a claim that succeeds every leaf holds what the last override to name it says, else its variable, else the file, read into what the sources before that one left there, else what it held before |
| Sections.ClaimTwice | gen/resolve.go:70-71 | Claiming again from the same start gives the same answer, down to the error, and the same options, and a config that shows one claim |
| Sections.Config.UnclaimedSections | config/section.go:82-101 | The sections of the file and of the overrides that nothing claimed, each once, sorted |
| Sections.Config.CheckUnclaimed | config/section.go:103-114 | Passes exactly when every section of the file and of the overrides is claimed |
| Sections.Config.EnvApplied | config/env.go:76-89 | Every variable that was read with the section it reached, once, sorted by name |
| Sections.Config.UnreadEnv | config/env.go:97-113 | Every recorded variable that was not read, once, sorted |
| Resolving.Registry.AddTarget | gen/registry.go:30-42 | The first target of a name keeps it and a second is recorded as an error |
| Resolving.Registry.AddBackend | gen/registry.go:44-52 | The same for backends |
| Resolving.Registry.CheckPairing | gen/registry.go:102-120 | A pair goes together exactly when the target lists the backend or lists none |
| Resolving.Registry.Plan | gen/resolve.go:40-67 | An entry resolves exactly when its target is known and either is storeless and has no backend, or has a known one it supports |
| Resolving.Configure | gen/option.go:66-74 | A section's owner is configured exactly when its options settle and what its defaults make of them is accepted, and that is what it ends up with |
| Resolving.UnclaimedIsUnowned | gen/resolve.go:84-88 | Once everything in the plan has claimed, the sections left over are exactly those that are the name of no entry's target and of no entry's backend |
| Resolving.Resolve | gen/resolve.go:31-90 | A plan comes out exactly when the binary is sound, something is asked for, every entry resolves, the target of every entry and its backend, where it has one, configure, and every file section and override section is the name of one of them; a variable ends up marked as read exactly when one of them answers to it, and with the name of one that does |
| Resolving.StoresAreSettled | gen/resolve.go:70-82 | The store each entry of the plan is generated for is its backend under the options that the backend's own section settled to |
| Backends.DexieTakesWhatItOwns | backend/dexie/dexie.go:78-93 | For any options read, the Dexie section is accepted, and the store it gives is, as the backend's own Configure has it |
| Backends.DexieIsConfigured | backend/dexie/dexie.go:61-93 | A configured Dexie store spells as the last override of compat, else CALQUE_DEXIE_COMPAT, else the file says, and with nothing said as the older generator does; it accepts what the last of them says of accept, and those names are known kinds |
| Backends.EntSqlIsConfigured | backend/entsql/entsql.go:49-76 | A configured SQL store speaks the dialect that the last override, else CALQUE_ENTSQL_DIALECT, else the file says, and with nothing said SQLite |
| Backends.GrdbIsConfigured | backend/grdb/grdb.go:45-57 | A configured GRDB store accepts what the last override of accept, else CALQUE_GRDB_ACCEPT, else the file says, and those names are known kinds |
| Backends.DialectsAreNamed | backend/entsql/entsql.go:64-76 | The three dialects go by their names, and the empty one is SQLite |
| Resolving.ReportEnv | gen/run.go:162-182 | The recorded variables split exactly into applied and unread, applied being those the target or the backend of some entry answers to |
| Running.Refusals | gen/run.go:49-57 | What is refused is everything the store cannot hold and the backend does not tolerate, in the order it was found |
| Running.RunJob | gen/run.go:47-78 | An entry passes exactly when nothing is refused, every entity has a key where there is a store to lower to, and its target emits; the codec check cannot stop it; an error is the first of the three that is wrong, under the entry's label and with everything that was refused |
| Running.PassesIff | gen/run.go:47-78 | There is nothing to say against an entry exactly when it passes |
| Running.AddFiles | gen/run.go:79-83 | The files of an entry are added exactly when, with those before them, every path may be written and none is taken; an error is of the first that is not, and says why or who holds it |
| Running.EmittedAt | gen/run.go:79-83 | What an entry emits is recorded under its own label, at its own directory and each file's name, with the file's body |
| Running.RecordsDeliver | gen/run.go:79-83 | An output that holds what was emitted holds every file of every entry at its place under that entry's directory and nothing else |
| Running.RunAll | gen/run.go:40-85 | Entry after entry: it goes through exactly when all pass and all paths go together, and the output then holds exactly what was emitted; otherwise it stops at the first entry that does not pass or has a file that is not recorded, and says which and why |
| Running.Generate | gen/run.go:35-93 | It succeeds exactly when every entry passes, every emitted path may be written and is emitted once, and no target complained; the output then holds every file of every entry, under that entry's own directory and with its own body, and nothing else, and each survives being written exactly when no two lead to one place. Otherwise it fails as the first entry that stops it has it, and with complaints only when none does |
| Running.JobIsOfEntry | gen/run.go:40-78 | What an entry of the plan is generated with is its own config, the store its own backend's section settled to and what its own target emitted |
| Running.Run | gen/run.go:20-94 | There is a plan exactly when the config resolves, and nothing is emitted without one; with one, every entry judged by the store its backend's section settled to, the run succeeds exactly when every entry passes, every emitted path may be written and is emitted once, and no target complained, and the output is then exactly what the plan emits; otherwise it fails as the first entry that stops it has it |

## Left out

- Builder.Build: asks for entities as NewEntity makes them, each with members of its own; running it twice on the same entities, which would keep the first run's version and erased, is not modelled. `Reader.Parse` meets the precondition.
- Builder.Build: makes the shared list of diagnostics before the first pass rather than at the first handle; nothing can be told apart by it.
- Reader.Parse: starts from the annotated messages; resolving descriptors, looking for unknown fields in options and finding which messages opted in are left to the libraries.
- Reader.ParseEntity: operation sets, defaults, packages and source descriptors are not part of an entity here, since nothing modelled reads them.
- Env.EnvWalk.WalkStruct: an options struct is a finite tree of values, so two pointers to one nested struct, and a type that holds itself, are not modelled; upper and lower case are those of ASCII.
- Sections.Config.Section: maps as leaves, YAML null, and what the options hold after an error are the YAML library's; an options value that is not a struct, which answers to no name, is not modelled.
- Sections.Config.Override: the text of an override becomes a node by a given function, and rendering it to YAML and back is taken to change nothing.
- Resolving.Configure: an owner claims its own section once and nothing else; what a target accepts is a given predicate, and the three backends are those of `Backends`.
- Tsw.PrintedIsOneLiteral: text is a sequence of characters, so bytes that are not UTF-8 are not modelled, and the reader knows the escapes of one character.
- Reconcile.TableBase.Reconcile: a transaction that aborts, and a store that fails, are not modelled.
- Wording of diagnostics and errors: kind, path and order are kept and the text is not.
- Column spelling of the SQL backends, ent's table names, and `Mismatches`: they would add members that are true by reading.
- The command tree, plugin input and output, progress, version reporting, and what the targets print.
