# Re-indexing and re-encoding WebAssembly components

A component is parsed into an intermediate representation in which every item carries the
*assumed* id it got when it was read or injected. Instrumentation may add items anywhere. Encoding
then emits the items in another order, computes the *actual* id of each, rewrites every stored
index, and rebuilds nested type definitions from a flat stream of events. This project models that
pipeline and proves that it keeps the graph of items, its meaning and its shape. It also models the
concretizer, which unfolds a type into an index-free tree and serves as the meaning that encoding
must preserve, and the cursors that step through the instructions of a component.

How the pieces fit together:

- `Prelude`, `Spaces`, `Types`: options, lists, abortable runs; index spaces, sections, references;
  the items of a component.
- `IndexSpaces`: one index space. The counter, the four per-origin maps and the cache of the class
  stand for one list, the order in which slots received ids; everything is stated about that list.
- `ActualIds`: the trackers that number items as they are emitted.
- `FixIndices`: the reference extractors and the rewriting, and the laws relating the two.
- `Fields`, `Lookups`: the same rewriting field by field, each space written out without the
  extractors, and what is looked up as exactly what decides the result.
- `Reindex`: both together over nested scopes, the renaming of the whole graph.
- `Concretize`, `Meaning`, `WriteBack`: the unfolding of types, its preservation, and its inverse: a
  tree written down as types, in any spelling, unfolds to itself.
- `Resources`, `ResourceNames`, `ResourceChains`: alias chains to resources, the two name maps, what
  encoding does to the names when the maps are built from the component before and after, and what
  the maps say about the types themselves.
- `Sections`: runs, vectors and index spaces kept in step, and the structural walk over them.
- `TypeTrees`: the two walks that flatten nested definitions into events, the structural one and the
  topological one, which pulls what a declaration refers to ahead of it.
- `Scopes`, `Orders`, `TypeBodies`: the scopes of nested definitions, and the ids assigned inside them
  by either walk.
- `Encoder`, `Components`, `EncoderMachine`, `Visibility`: the two-stack encoder that rebuilds them, as
  a function of the state and as an object, for items visited in any order.
- `SlotLookups`, `Assignment`, `Completeness`, `Resolution`: the assigner over the same events, when it
  emits every id of every scope once, and when the encoder then finds every reference.
- `Topological`, `Nesting`: the depth-first order in which items are emitted, within one component and
  over nested ones.
- `Numbering`, `Precedence`: what the items of a component are, told by their numbers: which fields
  refer to which sort of item, and which items wait for which.
- `Reencoding`, `Planning`, `RoundTrip`: the pieces composed. The graph of a component is read off its
  items, it is collected, numbered, encoded and read back, and encoding it again changes nothing.
- `SubIterators`: the function, module and component cursors.

The lookup cache of an index space is sound: the class by itself lets a cached answer go literally
stale (`IndexSpaces.StaleExactlyWhenSplit`), but the program hands out all ids of an item in one go,
and then none ever does (`IndexSpaces.CacheIsNeverStale`).

Objects the code updates in place are classes; each method is proved against a function of the old
state, and the theorems are about that function. Where the code aborts, steps return `None`; so does
the encoder where a reference it looks up was never emitted. Debug assertions count as absent, and
the one that matters is treated beside it (`TypeBodies.DebugBuildStopsAtLargeGroups`).

## Where the code falls short of the promise

The following were found to be false as promised. In each case the code is modelled as it is, a lemma
shows the failure, and where a condition is stated it is proved to be exact.

- An `Eq` bound of an ascription is reported as a reference but never rewritten. References are all
  renamed if and only if the bound names a type that keeps its index (`FixIndices.EqBoundLeftBehind`,
  `FixIndices.RewritingRenamesReferences`).
- The extractor of a core type reports nothing of the parameters and results of a function type, which
  are rewritten all the same (`Lookups.ParameterUnreported`). Nothing is missing if and only if there
  is no reference among them (`FixIndices.FullyReportedExactlyWhen`). Inside a module type such a
  function type is therefore emitted ahead of a later type it mentions
  (`Lookups.ParametersAreNotPulled`).
- A resource a component defines is emitted as it stands, so the index of its destructor is not
  rewritten. All references come out renamed if and only if the destructor's function keeps its
  index (`FixIndices.DestructorLeftBehind`, `FixIndices.TopLeafLaw`).
- The names an instance type declares are also consulted for handles reached through outer aliases,
  whose ids belong to another scope, so reordering the outer scope can change which resource such a
  handle names (`ResourceNames.OuterHandleCaptured`). Every type keeps its meaning if and only if
  every handle keeps its name (`Meaning.MeaningIsKeptExactlyWhen`). Within one component all do; for
  an instance type, exactly when the old and the new ids of the component's handles do not collide
  with different keys of the instance type's map, and the component's map, which is read there with
  ids of the body, answers alike (`ResourceNames.InstanceKeepsMeaningExactlyWhen`).
- The type counter of the instance name map counts every alias. It matches the index store if and
  only if no alias of something other than a type precedes a named resource.
- Encoding aborts at a reference to something that was never emitted
  (`Components.UnresolvedReferenceStops`, `Resolution.DanglingIsRefused`). It succeeds if and only if every reference it looks up was
  emitted (`Components.EncodingRebuildsTheComponent`), and, when every item is visited once and the
  groups inside type bodies hold one type each, if and only if every such reference names an item
  that exists (`Resolution.EncodingSucceedsExactlyWhen`).
- Inside a type body the ids declarations assume are not always those they get: the walk pulls a
  declaration ahead of an earlier one that refers to it (`TypeBodies.PulledAheadOfItsExport`), and a
  recursion group has one id there whatever its size, which is emitted once per type
  (`TypeBodies.GroupRun`). They agree at every depth if and only if every group holds exactly one
  type and every body and module body visits the declarations of each space in their order
  (`TypeBodies.AssumedIdsAreActualIdsInside`); it suffices that no declaration refers to a later one
  (`TypeBodies.BackwardBodiesAreKept`). With debug assertions a group of two or more types aborts
  instead.
- Recursion groups inside type bodies come apart into single types, are not rewritten, and flush an
  empty core-type section, so an explicit group of one type loses its brackets
  (`Encoder.NestedGroupsLoseTheirBrackets`). Theorems about output are stated up to core-type
  sections that hold nothing.
- An item of an outer component can end up among the events of a nested one that refers to it
  (`Nesting.LateItemIsPulledInside`). None does if and only if whatever is referred to outside was
  seen before the component was entered (`Nesting.NoForeignItemsExactlyWhen`); it suffices that every
  reference points back.
- The depth-first emission order does not follow the references of types, so a type that is pulled
  ahead can precede the types it mentions (`Topological.TypesDoNotWait`). Everything comes after
  what it mentions if and only if following those references too would give the same order
  (`Topological.TypesWaitExactlyWhen`). Items of every other kind, nested components aside, are
  emitted after what they refer to wherever their references form no cycle
  (`Precedence.ItemsWaitForWhatTheyReferTo`).
- A fresh module cursor takes its length from the very first function even when that one is skipped.
- A component cursor stops early behind a module whose last function is skipped, keeps the skip list
  of another module over a reset, and wakes up again when asked once more after the end.

## Model

| member | source | states |
|---|---|---|
| `IndexSpaces.IdxSpace.AssignAssumedId` | src/ir/component/idx_spaces.rs:598-624 | hands out the number of ids given so far and appends the item to the log; the four per-origin maps keep recording exactly that log, and the cache stays plausible |
| `IndexSpaces.IdxSpace.FullLookup` | src/ir/component/idx_spaces.rs:569-596 | scanning the four unordered maps, in whatever order their entries come, finds an id exactly when it was handed out, and then its one place |
| `IndexSpaces.Scan` | src/ir/component/idx_spaces.rs:573-588 | one map, visited in any order, answers for an id exactly when the id belongs to that origin |
| `IndexSpaces.Matches` | src/ir/component/idx_spaces.rs:413-425 | whether an entry holds an id, and at which sub-position when it holds several |
| `IndexSpaces.IdxSpace.IndexFromAssumedId` | src/ir/component/idx_spaces.rs:534-564 | the caching lookup succeeds exactly for handed-out ids and names the same place as the scan, a missing sub-position read as 0 |
| `IndexSpaces.IdxSpace.IndexFromAssumedIdNoCache` | src/ir/component/idx_spaces.rs:569-596 | the non-filling lookup: same answers, cache read but never written |
| `IndexSpaces.IdxSpace.LookupAssumedId` | src/ir/component/idx_spaces.rs:483-501 | the id of a slot that owns at most one |
| `IndexSpaces.IdxSpace.LookupAssumedIdWithSubvec` | src/ir/component/idx_spaces.rs:503-528 | the id at a sub-position of a slot is the one whose rank within the slot is that sub-position; a slot with a single id answers with it at every sub-position |
| `IndexSpaces.EveryIdHasOneHome` | src/ir/component/idx_spaces.rs:598-624 | after any sequence of assignments an id lives at exactly one slot and sub-position, and ids not handed out live nowhere |
| `IndexSpaces.LookupInvertsLocate` | src/ir/component/idx_spaces.rs:503-595 | the place-to-id and id-to-place lookups are exact inverses |
| `IndexSpaces.CachedAnswersWereScans` | src/ir/component/idx_spaces.rs:534-564 | a cached answer is literally what the scan gave at the moment of caching, whatever was assigned since |
| `IndexSpaces.StaleExactlyWhenSplit` | src/ir/component/idx_spaces.rs:426-431 | a cached answer differs literally from a fresh scan exactly when its slot had one id then and has several now |
| `IndexSpaces.StaleAnswerExists` | src/ir/component/idx_spaces.rs:426-431 | the class by itself allows such an answer: two ids for one slot with a lookup in between |
| `IndexSpaces.IdxSpace.AssignIds` | src/ir/component/section.rs:63-78 | all ids of an item are handed out in one go, and no cached answer is touched |
| `IndexSpaces.CacheIsNeverStale` | src/ir/component/mod.rs:1487-1505 | in every history that gives each item its ids in one go, lookups in between included, every cached answer is literally the answer of the scan |
| `ActualIds.ActualIdTables.AssignActualId` | src/encode/component/assign.rs:204-207 | records an emission in the tracker of its space and scope and in no other |
| `ActualIds.ActualIdTables.LookupActualId` | src/encode/component/assign.rs:211-217 | finds an assumed id exactly when it was emitted there, and answers the position of its last emission |
| `ActualIds.LastPositionWins` | src/encode/component/assign.rs:318-340 | for every assignment order, ids that repeat included: the tracker maps an id to its last position and counts all of them |
| `ActualIds.TrackerInverts` | src/encode/component/assign.rs:318-340 | over a permutation the tracker is exactly the inverse permutation |
| `FixIndices.FixEach` | src/encode/component/fix_indices.rs:562-616 | the rewriting loops over fields, cases and elements rewrite each element in place of order |
| `FixIndices.CollectRefs` | src/ir/component/refs.rs:424-472 | the extraction loops list the references of all elements, in order |
| `FixIndices.RewriteDefinedType` | src/encode/component/fix_indices.rs:562-616 | every branch, loops included: the references of the result are those of the type, renamed, in order, and a renaming that keeps them keeps the type |
| `FixIndices.RewriteFuncType` | src/encode/component/fix_indices.rs:641-655 | the parameter loop and the result: references renamed in order, and nothing else touched |
| `FixIndices.DefinedLaws` | src/encode/component/fix_indices.rs:562-616 | rewriting renames exactly the extracted references in order, is the identity when they keep their index, and composes |
| `FixIndices.LeafLaws` | src/encode/component/fix_indices.rs:87-106 | the same for defined, function and resource types |
| `FixIndices.SubTypeLaws` | src/encode/component/fix_indices.rs:660-675 | the same for core sub types |
| `FixIndices.ReportedRenamed` | src/ir/component/refs.rs:566-656 | what the extractor reports of a core type is renamed, in order |
| `FixIndices.FullyReportedExactlyWhen` | src/ir/component/refs.rs:571-586 | the extractor reports all a core type refers to if and only if it is no function type with references in its parameters or results |
| `FixIndices.TypeRefLaws` | src/encode/component/fix_indices.rs:970-1006 | a type reference is rewritten as its extractor demands if and only if its `Eq` bound, if any, names a type whose index does not move |
| `FixIndices.AliasLaws` | src/encode/component/fix_indices.rs:925-965 | aliases are rewritten at the depth they refer to |
| `FixIndices.CanonLaws` | src/encode/component/fix_indices.rs:138-492 | the same laws for canonical functions with their option lists |
| `FixIndices.CompInstanceLaws` | src/encode/component/fix_indices.rs:111-133 | the same laws for component instances |
| `FixIndices.CoreInstanceLaws` | src/encode/component/fix_indices.rs:497-523 | the same laws for core instances |
| `FixIndices.StartLaws` | src/encode/component/fix_indices.rs:528-549 | the same laws for start functions |
| `FixIndices.ExportRefsLaw` | src/encode/component/fix_indices.rs:48-65 | the references of an export, ascription included, are all renamed if and only if its `Eq` bound stays |
| `FixIndices.RewritingRenamesReferences` | src/encode/component/fix_indices.rs:25-43 | every item: the references of the rewritten item are those of the item, renamed, in order, if and only if no `Eq` bound in its ascription names a type that moved |
| `FixIndices.RewritingTouchesOnlyReferences` | src/encode/component/fix_indices.rs:25-43 | rewriting changes nothing else: renamings that keep the references keep the item, two rewritings are one, and undoing a renaming undoes the rewriting |
| `FixIndices.EqBoundLeftBehind` | src/encode/component/fix_indices.rs:1004 | an `Eq` bound on a type that moves is left behind |
| `FixIndices.TopLeafLaw` | src/encode/component/encode.rs:225-240 | a type a component defines comes out with its references renamed if and only if it is no resource or none of them moves |
| `FixIndices.EmissionRenamesReferences` | src/encode/component/encode.rs:195-247 | every item as it is emitted: its references are renamed, in order, if and only if no `Eq` bound of its ascription and no reference of a resource has to change |
| `FixIndices.DestructorLeftBehind` | src/encode/component/encode.rs:225-240 | the destructor of a component's resource is left behind when its function moves |
| `Fields.EveryFieldInItsSpace` | src/encode/component/fix_indices.rs:47-549 | every index field of every emitted item, its space written out: a field of a component's own scope becomes the number its index was given in that space of the innermost scope, an outer alias the number in the scope as many levels out as it says; nothing else changes, an `Eq` bound and a component's own resource included |
| `Fields.ModuleDeclFields` | src/encode/component/fix_indices.rs:847-868 | the same for the declarations of a module type, groups with and without brackets |
| `Fields.NestedLeafFields` | src/encode/component/encode.rs:1328-1386 | the same for a type inside a type body, field by field: rewritten twice, a resource once |
| `Fields.DeclFields` | src/encode/component/encode.rs:348-377 | the same for the aliases, exports and imports of a type body |
| `Fields.InstantiationsListed` | src/ir/component/refs.rs:1386-1524 | an instantiation reports what it instantiates and then its arguments, each in the space of its kind |
| `Fields.InlineExportsListed` | src/ir/component/refs.rs:1386-1524 | an instance made of exports reports them in order, each in the space of its kind |
| `Fields.StartsAndExportsListed` | src/ir/component/refs.rs:1327-1353 | a start function reports the function and then its arguments, an export its ascription and then the item |
| `Fields.CoreTypesListed` | src/ir/component/refs.rs:571-695 | all a core type refers to: its supertype, then its fields, or its parameters and results as one list |
| `Fields.LiftsListed` | src/ir/component/refs.rs:814-845 | `canon lift` reports the core function and those of its options, then the type and those of its options, then memories |
| `Fields.LowersListed` | src/ir/component/refs.rs:814-855 | `canon lower` reports the component function and then what its options name |
| `Fields.ReadsListed` | src/ir/component/refs.rs:814-1010 | a stream read reports the functions of its options before its type |
| `Fields.ThreadsListed` | src/ir/component/refs.rs:814-1105 | an indirect thread reports its core type before its table |
| `Lookups.LookupsDecide` | src/encode/component/assign.rs:211-217 | two renamings rewrite an item alike if and only if they agree on everything that is looked up for it |
| `Lookups.PlainLookupsDecide` | src/encode/component/encode.rs:554-584 | the same for a top-level item as the encoder is given it; modules and custom sections look nothing up |
| `Lookups.LeafLookupsDecide` | src/encode/component/encode.rs:195-247 | the same for types without a body; inside a body the second rewriting looks up what the first put in |
| `Lookups.DeclLookupsDecide` | src/encode/component/encode.rs:348-377 | the same for the aliases, exports and imports of a type body |
| `Lookups.ModuleLookupsDecide` | src/encode/component/encode.rs:511-524 | the same for the declarations of a module type |
| `Lookups.KeptExactlyWhen` | src/encode/component/fix_indices.rs:25-43 | rewriting leaves an item as it is if and only if nothing looked up for it moves |
| `Lookups.ReportsSufficeExactlyWhen` | src/ir/component/refs.rs:58-71 | that nothing an item reports moves is enough to leave it as it is if and only if all that is looked up is reported |
| `Lookups.ParameterUnreported` | src/ir/component/refs.rs:571-586 | it is not enough for a core function type: its parameters are rewritten though not reported |
| `Lookups.ParametersAreNotPulled` | src/ir/component/visitor/events_topological.rs:665-700 | so a function type of a module type comes ahead of a later type its parameter mentions, where a structure type comes after it |
| `Reindex.RewrittenReferencesNameTheSameItems` | src/encode/component/assign.rs:211-217 | the references of an emitted item, outer ones included, resolve in the emitted numbering to the items they named before if and only if neither exception of the rewriting applies |
| `Reindex.EdgesCorrespond` | src/encode/component/fix_indices.rs:925-965 | the edge relations correspond in both directions under the renaming |
| `Reindex.NoForwardReferences` | src/encode/component/mod.rs:100-142 | at any moment a rewritten index is below the number of items emitted so far if and only if its target has already been emitted |
| `Reindex.EmittedItemsPointBackwards` | src/encode/component/mod.rs:100-142 | so an order that puts an item after what it references leaves none of its rewritten references pointing forward |
| `Meaning.EncodingPreservesMeaning` | src/ir/component/concrete.rs:607-804 | concretizing a type under its new id in the rewritten graph gives exactly the index-free tree it had before, over nested scopes, for every complete emission and every witness of acyclicity, when all handles keep their names |
| `Meaning.MeaningIsKeptExactlyWhen` | src/ir/component/concrete.rs:607-985 | and that condition is exact: every type keeps its tree if and only if every handle names the same resource before and after |
| `Meaning.EncodingPreservesSignatures` | src/ir/component/concrete.rs:587-605 | the same for the parameters and result of function types |
| `Meaning.RankDoesNotMatter` | src/ir/component/concrete.rs:625-706 | the tree does not depend on how acyclicity is witnessed, forward references included |
| `Meaning.EncodedIsAcyclic` | src/encode/component/fix_indices.rs:562-616 | encoding keeps the graph acyclic |
| `Meaning.EmissionOrderIsARank` | src/encode/component/mod.rs:100-142 | emitting every type after what it references witnesses acyclicity by itself |
| `WriteBack.WrittenTreeReads` | src/ir/component/concrete.rs:625-804 | any tree, written into any level of any world, reads back as itself: in every spelling of type references and of resource names, labels, order of fields and cases, and ok and err included |
| `WriteBack.WrittenTreeReadsFromInside` | src/ir/component/concrete.rs:625-706 | an alias of an outer type has that type's tree, from any level further in |
| `WriteBack.WrittenAloneReads` | src/ir/component/concrete.rs:607-804 | written by itself, a tree is read back from the scope that holds nothing else |
| `WriteBack.WrittenSignatureReads` | src/ir/component/concrete.rs:587-605 | a function type written down reads back with its parameters in order and its result |
| `WriteBack.ResourceReads` | src/ir/component/concrete.rs:906-985 | a handle has the name of its resource, whether the map at hand gives it, an export bounded by `sub resource`, an export of an instance, or an import equal to a named type, itself or through an alias |
| `WriteBack.HandleThroughOuterAlias` | src/ir/component/concrete.rs:906-985 | through an alias of an outer import equal to another type, the map at hand is asked with the id of that type, and then the map of the component |
| `WriteBack.OthersHaveNoTree` | src/ir/component/concrete.rs:625-706 | functions, resources, bodies, `sub resource` imports and aliases of anything but types have no tree |
| `Resources.ResolvedIsResource` | src/ir/component/concrete.rs:351-384 | terminates on every finite reference graph, cyclic ones included, and is true exactly when the unbounded alias chain reaches a resource |
| `Resources.CyclesReachNothing` | src/ir/component/concrete.rs:351-384 | a chain that returns to a node it has left reaches no resource |
| `Resources.BuildComponentResourceMap` | src/ir/component/concrete.rs:333-348 | names exactly the exported types that resolve to resources, the last export winning |
| `Resources.ComponentNamesRenamed` | src/ir/component/concrete.rs:333-348 | renaming the graph and the exports renames the map: each type keeps the name its exports gave it |
| `Resources.BuildInstanceResourceMap` | src/ir/component/concrete.rs:248-319 | the loop with its hand-kept counter records each named declaration under the counter value before it |
| `Resources.CounterRunsAhead` | src/ir/component/concrete.rs:248-319 | the counter exceeds the index store by exactly the number of aliases that introduce no type |
| `Resources.CounterMatchesIndexStore` | src/ir/component/concrete.rs:248-319 | the map equals the one keyed by real type ids if and only if no alias of anything but a type precedes a named resource |
| `Resources.EveryNameUnderItsId` | src/ir/component/concrete.rs:248-319 | under the real ids every declaration that supplies a name is found under its own |
| `Resources.CounterShifted` | src/ir/component/concrete.rs:248-319 | an aliased module shifts the counter |
| `ResourceNames.GraphKept` | src/ir/component/concrete.rs:351-384 | the graph of a component's types, built from the types, is renamed as a whole by encoding |
| `ResourceNames.ComponentMapKept` | src/ir/component/concrete.rs:333-348 | the map built from the encoded component's exports gives every type the name the original map gave it |
| `ResourceNames.FarNameKept` | src/ir/component/concrete.rs:906-985 | beyond the map at hand, a handle's name changes exactly where it comes down to an import whose equal type is looked up differently |
| `ResourceNames.ComponentKeepsMeaning` | src/ir/component/concrete.rs:208-234 | in a component by itself, with the maps the code builds before and after, every type keeps its tree |
| `ResourceNames.LocalMapKept` | src/ir/component/concrete.rs:248-319 | the map built from the encoded instance type is the map built from the original |
| `ResourceNames.InstanceKeepsMeaningExactlyWhen` | src/ir/component/concrete.rs:208-234 | inside an instance type, with all maps built by the code: every type of the body and of the component keeps its tree if and only if no handle of the component has an old or new id that the body's map answers differently, and no handle of the body is answered differently by the component's map |
| `ResourceNames.BeyondTheCounter` | src/ir/component/concrete.rs:248-319 | handles that keep their id, or stay beyond the counter of the instance type, are never captured |
| `ResourceNames.OuterHandleCaptured` | src/ir/component/concrete.rs:906-985 | a component with maps as the code builds them whose handle names another resource after encoding |
| `ResourceChains.ComponentMapSays` | src/ir/component/concrete.rs:333-384 | the map of a component is built if and only if every exported type exists and no chain of equal types from one comes to a missing type; it names a type if and only if its chain ends at a resource definition or a `sub resource` import, with the name of its last export |
| `ResourceChains.InstanceMapSays` | src/ir/component/concrete.rs:248-319 | the map of an instance type gives a type a name if and only if a declaration with that number gives it: an export bounded by `sub resource`, or an alias of an outer type that is an export of an instance |
| `ResourceChains.BodyTypesInOrder` | src/ir/component/concrete.rs:392-434 | the types of an instance type are those its declarations add, each under its number in the type space |
| `Sections.Builder.AddSection` | src/ir/component/mod.rs:141-149 | an added item extends the last run if it is of its kind and otherwise opens a new one |
| `Sections.Builder.AddToSections` | src/ir/component/mod.rs:667-703 | a parsed payload, empty ones included, makes exactly one entry with its item count |
| `Sections.Builder.AddItem` | src/ir/component/mod.rs:124-139 | adding an item keeps runs, vectors and index spaces in step and returns the next ids of its space |
| `Sections.Builder.ParsePayload` | src/ir/component/mod.rs:816-1067 | parsing a payload keeps runs, vectors and index spaces in step with what was recorded |
| `Sections.Builder.AssignIds` | src/ir/component/mod.rs:636-665 | a start function receives consecutive value ids, one per result |
| `Sections.Builder.GetStartFuncResultIds` | src/ir/component/mod.rs:1437-1456 | looking up a start function returns one id per result, those its slot was given |
| `Sections.RunsConserveItems` | src/ir/component/mod.rs:667-703 | the counts per kind sum to the length of that kind's vector |
| `Sections.WalkRuns` | src/ir/component/visitor/events_structural.rs:30-123 | the loop over runs with one cursor per kind visits what the runs stand for |
| `Sections.WalkVisitsInOrder` | src/ir/component/visitor/events_structural.rs:30-123 | the structural walk visits every item exactly once, in the order in which the items were recorded |
| `Sections.IdsAreConsecutive` | src/ir/component/idx_spaces.rs:598-624 | the ids of an item are the ones following those of earlier items of its space, whatever is recorded later |
| `Sections.WalkMeetsIdsInOrder` | src/ir/component/visitor/events_structural.rs:25-125 | even when a space is fed by several vectors, the walk meets its ids as 0, 1, 2, ... |
| `Sections.StructuralOrderIsIdentity` | src/encode/component/assign.rs:107-158 | visiting the items in recording order meets the ids of every space as 0, 1, 2, ..., all of them |
| `Sections.StartResultsAreStable` | src/ir/component/mod.rs:1437-1456 | start-result ids never change afterwards, and those of different start functions do not overlap |
| `Numbering.NumbersNameTheirItems` | src/ir/component/idx_spaces.rs:661-909 | by an id it was given, an item of any sort is named by an export, alias, instantiation, canonical function or any other referring field if and only if that field refers to things of its sort: a lifted function is a function of the component, every other canonical function a core function, an exported component an instance |
| `Numbering.EveryItemIsNumbered` | src/ir/component/idx_spaces.rs:661-909 | every item but a custom section is something that can be referred to |
| `Numbering.NumbersNameTheirDeclarations` | src/ir/component/idx_spaces.rs:911-955 | the same for the declarations of a type body |
| `Numbering.NumbersNameModuleDeclarations` | src/ir/component/idx_spaces.rs:956-979 | whatever a module type declares counts as a core type, numbered by its position |
| `Numbering.DeclarationsReferLikeItems` | src/ir/component/refs.rs:474-534 | a declaration refers to what an alias or import of the same form would, and a definition to nothing of the body around it |
| `Numbering.ModuleDeclarationsReferLikeItems` | src/ir/component/refs.rs:724-755 | a declaration of a module type reports what an outer alias or a group would, a group without the parameters and results of its function types |
| `TypeTrees.VisitCompType` | src/ir/component/visitor/events_structural.rs:126-161 | the walk pushes exactly the events of the tree, nested definitions in place |
| `TypeTrees.VisitDecl` | src/ir/component/visitor/events_structural.rs:163-193 | a declaration pushes its own event and then those of the type it declares |
| `TypeTrees.VisitCoreType` | src/ir/component/visitor/events_structural.rs:195-243 | module types and recursion groups push enter, members and exit |
| `TypeTrees.CollectCompType` | src/ir/component/visitor/events_topological.rs:99-170 | the topological walk of a type succeeds exactly when nothing is looked up in vain anywhere in it, and then pushes its events with every body in its pulled order |
| `TypeTrees.CollectDecls` | src/ir/component/visitor/events_topological.rs:113-163 | the loop over a body: it succeeds exactly when every declaration whose references are looked up finds them, here and inside, and visits the declarations in the pulled order |
| `TypeTrees.CollectSubitem` | src/ir/component/visitor/events_topological.rs:665-700 | one declaration, unless it was pulled ahead before: what it refers to in its own body is emitted first, then itself |
| `TypeTrees.PullRefs` | src/ir/component/visitor/events_topological.rs:680-695 | the loop over a declaration's references: references out of the body are passed over, the others must find a declaration, which is emitted once |
| `TypeTrees.CollectCoreType` | src/ir/component/visitor/events_topological.rs:250-324 | the same for module types and recursion groups |
| `TypeTrees.BodyOrderCovers` | src/ir/component/visitor/events_topological.rs:665-700 | in the pulled order every declaration of a body is visited exactly once |
| `Scopes.ScopeTables.PopulateCompType` | src/ir/component/section.rs:85-128 | entering a body opens its scope, then numbers and enters its declarations in order |
| `Scopes.ScopeTables.PopulateDecl` | src/ir/component/section.rs:130-178 | a declaration is numbered in its body's scope before its own type is entered |
| `Scopes.ScopeTables.PopulateCoreType` | src/ir/component/section.rs:180-208 | a module type opens a scope and numbers all its declarations as core types |
| `Scopes.CompTypeLaid` | src/ir/component/section.rs:85-208 | populating gives bodies the next scope ids in preorder, each its own log, and leaves all earlier scopes and registrations unchanged |
| `Scopes.DeclIds` | src/ir/component/section.rs:130-178 | a declaration's id is the number of earlier declarations of the body in its space, and the only id it has |
| `Scopes.ScopesAreDistinct` | src/ir/component/scopes.rs:251-290 | different bodies of a tree own different scopes, all of them fresh |
| `Assignment.Assigner.Drive` | src/ir/component/visitor/driver.rs:14-239 | one event of the type walk: what the driver looks up and what the assigner records |
| `Assignment.Assigner.AssignActualId` | src/encode/component/assign.rs:33-50 | a node with a scope of its own is recorded in the scope around it |
| `Assignment.Assigner.VisitStart` | src/encode/component/assign.rs:178-191 | a start function's results are recorded one by one, in order |
| `Assignment.Assigner.DriveComponent` | src/ir/component/visitor/driver.rs:14-239 | one event of a component: entering and leaving a nested component, where the flag pushed on entry stays behind, and every other item |
| `Assignment.Assigner.AssignIndices` | src/encode/component/assign.rs:14-24 | the loop over all events succeeds exactly when the model run does and reaches its state |
| `Assignment.ComponentAssigned` | src/encode/component/assign.rs:14-192 | whatever the order in which items are visited, here and in nested components, assigning never aborts and emits what is nested in each item and then its own ids |
| `Assignment.ComponentEmits` | src/encode/component/assign.rs:14-192 | the component's own scope receives in every space exactly its items' ids, in the order of the visits |
| `SlotLookups.OnlyIdExactlyWhen` | src/ir/component/idx_spaces.rs:483-501 | outside recursion groups an id is found for an item exactly when the space gave the item that id and no other |
| `SlotLookups.IdExactlyWhen` | src/ir/component/idx_spaces.rs:503-528 | inside one, exactly the id given after as many others as the sub-position says, or the only one |
| `SlotLookups.IdsExactlyWhen` | src/encode/component/assign.rs:172-192 | for a start function, exactly the ids given first, second and so on, if there are enough |
| `Completeness.BodyComplete` | src/encode/component/assign.rs:33-103 | every scope of a type tree whose groups hold one type each receives every one of its ids, once |
| `Completeness.EmissionIsComplete` | src/encode/component/assign.rs:14-192 | where every item is visited once, at every nesting depth, the whole emission is complete: each space of each scope receives each of its ids, once |
| `Resolution.TypeExactly` | src/encode/component/assign.rs:211-217 | below complete scopes, every reference looked up in a type tree is answered exactly when it names an existing item, second rewritings included |
| `Resolution.EncodingSucceedsExactlyWhen` | src/encode/component/mod.rs:100-159 | with the ids assigned along complete visits, encoding succeeds if and only if every reference it looks up, at any depth, names an item that exists in the scope it points into |
| `Resolution.DanglingIsRefused` | src/encode/component/assign.rs:211-217 | a component as parsing leaves it, with complete visits, that is refused for one reference to a type it does not have |
| `TypeBodies.AssumedIdsAreActualIdsInside` | src/encode/component/assign.rs:33-103 | the walk over a tree never aborts, gives the tree's own id to the scope around it and touches no other scope outside; inside, ids handed out on entry and assigned on exit agree in every space at every depth if and only if every group holds one type and every body and module body visits the declarations of each space in their order |
| `TypeBodies.PopulatedThenWalked` | src/ir/component/section.rs:85-178 | populating a tree and walking it succeeds, and yields that identity under exactly that condition |
| `TypeBodies.BackwardBodiesAreKept` | src/ir/component/visitor/events_topological.rs:665-700 | a body whose groups hold one type each and whose declarations refer to no later one is visited as it stands, and assumed and actual ids agree in it |
| `TypeBodies.PulledAheadOfItsExport` | src/ir/component/visitor/events_topological.rs:665-700 | an instance type that exports a type defined after it: the definition is pulled ahead, ids are emitted as 1, 0, and the bound, not rewritten, then names the export itself |
| `Orders.MetInOrderExactlyWhen` | src/encode/component/assign.rs:318-340 | visiting items of several spaces once each, in any order, assigns every id its own number if and only if every item emits its id once and no space has a later item visited before an earlier one |
| `Orders.MetOnceExactlyWhen` | src/encode/component/assign.rs:318-340 | it emits every id of every space once if and only if every item emits its id once |
| `TypeBodies.GroupRun` | src/encode/component/assign.rs:158-170 | a recursion group inside a body has one id, which is emitted once per type of the group: never for an empty one, repeatedly for a larger one |
| `TypeBodies.DebugBuildStopsAtLargeGroups` | src/ir/component/idx_spaces.rs:438-446 | with debug assertions a group of two or more types inside a body aborts, and only such |
| `TypeBodies.RewritingTwiceIsRewritingOnce` | src/encode/component/encode.rs:1328-1386 | inside a body whose ids are in order, rewriting a definition twice, as the encoder does, equals rewriting it once, and both change nothing |
| `TypeBodies.OnlyOuterAliasesAreRewritten` | src/encode/component/encode.rs:1119-1386 | of a whole component or instance type whose scopes received their ids in order, at any depth and for either order of visits, encoding rewrites only aliases of outer scopes |
| `TypeBodies.KeptTreesAreCopied` | src/encode/component/encode.rs:1119-1386 | that holds with the ids the tree's own walk assigned, where every group holds one type and every body keeps the order of each space |
| `Encoder.NestedType` | src/encode/component/encode.rs:195-346 | from any encoder state inside a body, the events of a nested definition succeed exactly when every reference looked up in it was emitted, and then append exactly its tree to that body |
| `Encoder.NestedDecls` | src/encode/component/encode.rs:348-377 | declarations are appended one by one, in the order of the visits, unless a reference one of them looks up was never emitted |
| `Encoder.NestedGroup` | src/encode/component/encode.rs:435-481 | a recursion group inside a body comes apart into single types and flushes an empty core-type section |
| `Encoder.NestedGroupsLoseTheirBrackets` | src/encode/component/encode.rs:435-470 | so an explicit group of one type inside a body is encoded like the type by itself |
| `Encoder.NestedModule` | src/encode/component/encode.rs:483-553 | a module type inside a body is appended with its declarations in the order of the visits, exactly when their references were all emitted |
| `Encoder.TopLevelType` | src/encode/component/encode.rs:195-346 | a top-level definition succeeds exactly when every reference looked up in it was emitted, and is then flushed as one section holding exactly its tree |
| `Encoder.TopLevelCore` | src/encode/component/encode.rs:435-553 | a top-level core type, under the same condition, is flushed as one section holding exactly it |
| `Components.ComponentRun` | src/encode/component/encode.rs:168-584 | over all events of a component, visited in any order, nested components included, the encoder succeeds if and only if every reference it looks up was emitted, and then adds exactly the component's sections in that order |
| `Components.EncodingRebuildsTheComponent` | src/encode/component/encode.rs:26-47 | for every order of visits: over a whole component it succeeds if and only if every reference looked up, at any depth, was emitted; the type stack then ends empty, one component frame remains, and the output is exactly the component in that order, up to empty core-type sections |
| `Components.UnresolvedReferenceStops` | src/encode/component/assign.rs:211-217 | a component whose one type is a list of a type it does not have: encoding aborts |
| `Visibility.VisibleIsAll` | src/encode/component/encode.rs:472-481 | all of an output is visible if and only if no core-type section of it is empty, at any depth |
| `Visibility.VisibleIsWhole` | src/encode/component/encode.rs:472-481 | what is visible holds no empty one and shows nothing less when shown again |
| `EncoderMachine.Machine.VisitCompTypeLeaf` | src/encode/component/encode.rs:195-247 | the leaf visitor on the two stacks and the lazily opened section; it fails exactly where a reference it looks up was never emitted or no frame is open |
| `EncoderMachine.Machine.EnterComponentTypeBody` | src/encode/component/encode.rs:249-275 | entering a body opens the section if needed and pushes a frame |
| `EncoderMachine.Machine.ExitComponentTypeBody` | src/encode/component/encode.rs:276-346 | leaving a body pops its frame and attaches it to the one below or flushes the section |
| `EncoderMachine.Machine.VisitTypeDecl` | src/encode/component/encode.rs:348-377 | declarations go to the innermost body frame, if their references were emitted |
| `EncoderMachine.Machine.EnterCoreRecGroup` | src/encode/component/encode.rs:435-470 | a group is encoded on entry, into the section, if its references were emitted, or as it is into the innermost body |
| `EncoderMachine.Machine.ExitCoreRecGroup` | src/encode/component/encode.rs:472-481 | leaving a group flushes the core section unconditionally |
| `EncoderMachine.Machine.EnterCoreModuleType` | src/encode/component/encode.rs:483-509 | entering a module type pushes a module frame |
| `EncoderMachine.Machine.VisitModuleTypeDecl` | src/encode/component/encode.rs:511-524 | module declarations go to the module frame, if their references were emitted |
| `EncoderMachine.Machine.ExitCoreModuleType` | src/encode/component/encode.rs:526-552 | leaving a module type attaches it to the body around it or flushes the section |
| `EncoderMachine.Machine.Drive` | src/ir/component/visitor/driver.rs:14-239 | one event, nested components included: succeeds exactly when the model step does, and then moves the stacks as it says |
| `EncoderMachine.Machine.DriveAll` | src/encode/component/encode.rs:26-47 | the event loop succeeds exactly when the model run does and reaches its state |
| `EncoderMachine.EncodeComponent` | src/encode/component/mod.rs:142-159 | for every order of visits: ids are assigned along the events and the same events are then encoded with those ids; it fails exactly where a reference looked up was never emitted, where every item is visited once exactly where a reference names no existing item, and otherwise yields exactly the component's sections in that order, up to empty core-type sections |
| `Topological.TopoCtx.CollectNode` | src/ir/component/visitor/events_topological.rs:505-529 | the depth-first visitor with its set of seen nodes, terminating on cyclic graphs too |
| `Topological.TopoCtx.CollectDeps` | src/ir/component/visitor/events_topological.rs:535-660 | the loop over an item's references collects each of them first |
| `Topological.DependenciesComeFirst` | src/ir/component/visitor/events_topological.rs:16-78 | when followed references form no cycle, every item is emitted exactly once, and every followed item after all it refers to |
| `Topological.PulledBySome` | src/ir/component/visitor/events_topological.rs:505-529 | an item comes out ahead of one recorded before it only where a followed item refers to it |
| `Precedence.ItemsWaitForWhatTheyReferTo` | src/ir/component/visitor/events_topological.rs:213-433 | where no chain of references returns to its start, those of definitions aside: every item is emitted once, and every alias, import, export, instance, canonical function and start function after the owners of all it refers to |
| `Precedence.RewrittenReferencesPointBack` | src/encode/component/mod.rs:100-142 | so each of their rewritten indices is below the number of items their space has received by then |
| `Precedence.OnlyReferencesMoveItemsAhead` | src/ir/component/visitor/events_topological.rs:435-529 | an item comes out ahead of one recorded before it only where something that is no definition refers to it |
| `Precedence.AbortsAtSeveralResults` | src/ir/component/visitor/events_topological.rs:535-545 | the collection aborts exactly where something that is no definition refers to one of several results of a start function |
| `Topological.StructuralOrderIsKept` | src/ir/component/visitor/events_topological.rs:435-503 | items keep their structural order if and only if no followed item refers to a later one |
| `Topological.TypesWaitExactlyWhen` | src/ir/component/visitor/events_topological.rs:99-170 | every item, types included, comes after all it refers to if and only if following the references of types as well would give the same order |
| `Topological.BackwardReferencesSuffice` | src/ir/component/visitor/events_topological.rs:99-170 | that holds when every reference, those of types included, points back |
| `Topological.TypesDoNotWait` | src/ir/component/visitor/events_topological.rs:99-170 | it can fail: references of types are not followed |
| `Topological.VisitBody` | src/ir/component/visitor/events_topological.rs:665-700 | the loop over a body's declarations pulls direct references ahead, once |
| `Topological.BodiesKeepTheirOrder` | src/ir/component/visitor/events_topological.rs:665-700 | a body keeps its order of declarations if and only if none refers to a later one |
| `Nesting.NoForeignItemsExactlyWhen` | src/ir/component/visitor/events_topological.rs:535-660 | no component has an item of another among its events if and only if, for every item collected, whatever it refers to outside had been seen when the component it sits in was entered; every component is then visited in its own order |
| `Nesting.BackwardComponentsStayApart` | src/ir/component/visitor/events_topological.rs:435-503 | that holds where every reference points back, an outer one to what comes before the component the item sits in |
| `Nesting.LateItemIsPulledInside` | src/ir/component/visitor/events_topological.rs:535-660 | it can fail: an outer item added behind a nested component that aliases it |
| `Reencoding.OwnerHasTheSlot` | src/ir/component/visitor/events_topological.rs:535-545 | looking a reference up finds the slot of the item that owns the id, and a sub-position exactly when that item owns several |
| `Reencoding.AlongIsPermutation` | src/encode/component/assign.rs:318-340 | visiting every item once, in any order, meets every id of a space once |
| `Reencoding.ReadingBackAgrees` | src/ir/component/idx_spaces.rs:598-624 | reading the emitted items back gives every item, recursion groups and start functions included, exactly the ids the assigner gave it |
| `Reencoding.GraphMoves` | src/ir/component/visitor/events_topological.rs:535-660 | the graph of references read off the encoded component is the original one, seen in emission order |
| `Reencoding.EncodedKeepsItsOrder` | src/ir/component/visitor/events_topological.rs:435-503 | collected again, an encoded component keeps its order and nothing aborts |
| `Reencoding.EncodingAgainChangesNothing` | src/encode/component/mod.rs:100-159 | encoding what was read back keeps the order, rewrites no index, and gives the same items |
| `Reencoding.InsideNothingChangesEither` | src/encode/component/mod.rs:100-159 | the same for what scopes inside hold, where those received their ids in order |
| `Planning.EveryItemOnce` | src/ir/component/visitor/events_topological.rs:435-529 | whatever the references, cycles included, the collection emits every item exactly once |
| `Planning.TopologicalPlanIsFollowed` | src/encode/component/mod.rs:100-142 | every component whose references all resolve can be visited in the order the collection finds, whatever is decided for the components nested in it |
| `Planning.PlannedOrderIsVisited` | src/encode/component/mod.rs:100-142 | an order decided for a component, nested or not, is the order it is visited in; without one it is visited as its sections stand |
| `RoundTrip.NumberedInOrder` | src/encode/component/mod.rs:142-159 | a component visited in topological order is numbered completely in that order |
| `RoundTrip.EncoderSucceeds` | src/encode/component/mod.rs:142-159 | for such a component whose references all name existing items, nested ones included, the encoder does not abort |
| `RoundTrip.OutputReadBack` | src/encode/component/encode.rs:26-47 | the output of the encoder, read back section by section, is the component's items in topological order, each rewritten |
| `RoundTrip.EncodeReadEncode` | src/encode/component/mod.rs:142-159 | collect, assign, encode, read back: the encoder does not abort, collecting its result keeps the order and encoding it again rewrites nothing |
| `RoundTrip.KeptBodiesDoNotChangeEither` | src/encode/component/mod.rs:100-159 | the same for what type bodies hold, at any depth, where every group holds one type and every body keeps the order of each space |
| `SubIterators.FuncSubIterator.Next` | src/subiterator/function_subiterator.rs:28-45 | advances while an instruction is left |
| `SubIterators.ModuleSubIterator.HandleSkips` | src/subiterator/module_subiterator.rs:94-104 | moves to the first function that is not skipped |
| `SubIterators.ModuleSubIterator.NextFunction` | src/subiterator/module_subiterator.rs:106-120 | moves to the next function that is not skipped, if there is one |
| `SubIterators.ModuleSubIterator.Reset` | src/subiterator/module_subiterator.rs:82-92 | goes to the first function not skipped, with that function's length |
| `SubIterators.ModuleSubIterator.Next` | src/subiterator/module_subiterator.rs:133-139 | next instruction, or next function |
| `SubIterators.ModuleSubIterator.constructor` | src/subiterator/module_subiterator.rs:21-46 | like a reset, except that the length is that of the very first function |
| `SubIterators.ResetRunVisitsEverything` | src/subiterator/module_subiterator.rs:82-139 | after a reset, for any skip list, a run is every instruction of every unskipped function, in order |
| `SubIterators.NewRunVisitsEverything` | src/subiterator/module_subiterator.rs:21-46 | a fresh cursor does the same if and only if the first function it visits takes as many steps as the very first function, or nothing is visited |
| `SubIterators.NewRunOvershoots` | src/subiterator/module_subiterator.rs:21-46 | otherwise it can run past the end of a function |
| `SubIterators.VisitsExactly` | src/subiterator/module_subiterator.rs:82-139 | what is visited is exactly the set of instructions of the unskipped functions |
| `SubIterators.VisitedOnce` | src/subiterator/module_subiterator.rs:82-139 | with distinct function ids nothing is visited twice |
| `SubIterators.FinishedStaysFinished` | src/subiterator/module_subiterator.rs:106-139 | a module cursor that reports the end keeps reporting it, unmoved |
| `SubIterators.ComponentSubIterator.constructor` | src/subiterator/component_subiterator.rs:24-60 | starts with a fresh cursor on the given module; without modules it is finished |
| `SubIterators.ComponentSubIterator.Next` | src/subiterator/component_subiterator.rs:161-167 | asks the module cursor first and otherwise goes to the next module |
| `SubIterators.ComponentSubIterator.NextModule` | src/subiterator/component_subiterator.rs:70-86 | goes to the next module with its own metadata and skip list |
| `SubIterators.ComponentSubIterator.Reset` | src/subiterator/component_subiterator.rs:63-67 | goes back to the first module but keeps the skip list of the module it was in |
| `SubIterators.FreshRunVisitsEverything` | src/subiterator/component_subiterator.rs:24-86 | a fresh component run is the concatenation of its modules' visits if and only if every module up to the first that is empty or skips its last function starts right and everything behind that one is skipped |
| `SubIterators.EndsUnskippedRunThrough` | src/subiterator/component_subiterator.rs:24-86 | that holds when every module has functions and skips neither its first nor its last |
| `SubIterators.SkippedLastFunctionStopsTheRun` | src/subiterator/component_subiterator.rs:161-167 | a skipped last function hides the modules behind it |
| `SubIterators.ResetRunOfComponent` | src/subiterator/component_subiterator.rs:63-67 | after a reset the run visits everything if and only if the kept skip list skips the same functions of the first module and the rest runs through |
| `SubIterators.ResetKeepsForeignSkips` | src/subiterator/component_subiterator.rs:63-67 | a component whose fresh run visits everything but whose run after a reset does not |
| `SubIterators.FinishedCursorWakesUp` | src/subiterator/component_subiterator.rs:104-118 | a finished component cursor asked once more steps past the end and again claims to stand on an instruction |

## Left out

- Bytes: the readers and writers of the binary format, variable-length integers, names sections and file output; emitted sections are datatypes.
- The width of ids: counters are unbounded naturals, so the wrap-around of 32-bit counters is not modelled.
- Most canonical functions, the remaining core garbage-collected types, exact heap types, descriptors and continuations: one representative per shape of reference list is kept; among those left out are the two references whose extractor and rewriting disagree (`ThreadSpawnRef` and exact function imports) and the two functions that spawn threads, which src/ir/component/idx_spaces.rs:766-767 numbers among the functions of the component.
- Pointer identity: nodes are identified by their path in the component, and the scope registry is a map from paths to scopes.
- The thirteen index spaces of a scope as separate objects: in `Scopes` and `Sections` each is represented by its log, which `IndexSpaces` shows to determine the object.
- Concretization through instantiated or imported instances: such a type is the marker `Foreign` with its name.
- Leaving a type body for an outer scope that is itself a type body, as the concretizer does with its stack of type bodies: `Meaning` resolves outer aliases against the list of enclosing scopes.
- FixIndices.CanonLaws: covers one canonical function for each shape of reference list.
- Meaning.EncodedIsAcyclic: stated when every `Eq` bound keeps its index; a bound left behind may point anywhere, also at the importing type itself.
- Topological.DependenciesComeFirst: treats the items of one component, with nested components as single nodes; nested components are collected in `Nesting`, up to the first item that would be collected among the events of another component, since from there on its references are looked up in the wrong scope.
- Topological.TopoCtx.CollectDeps: works on numbered items of one component; the lookup of references in the index spaces, with its check of sub-positions, is modelled by `Reencoding.GraphOf` and `Reencoding.OrderFor`, and references out of the component by `Nesting.CollectRefs`.
- Nesting.CollectItem: a function on values with one set of seen items per component, where the code updates one set for all; components and their items are told apart by position.
- Meaning.EncodingPreservesMeaning: assumes that `Eq` bounds stay and that handles keep their names; both are false in general, and the exact conditions are stated beside it. It holds for every complete order of emission, not only for the one `Topological` computes.
- ResourceNames.InstanceKeepsMeaningExactlyWhen: a component and one instance type of it, which are the scopes the concretizer enters; names found through instantiated components are not part of it.
- Assignment.ComponentAssigned: takes for granted that parsing laid the component out (`Assignment.Placed`); that is proved for type definitions (`Scopes.CompTypeLaid`) and for the vectors of one component (`Sections.Builder`), not for the numbering of scopes across nested components.
- Assignment.ComponentEmits: speaks of the scope of the component whose events are run; the scopes inside it are treated by `Completeness.EmissionIsComplete`.
- Assignment.EntryAt: a recorded recursion group has one id per type, as parsing gives it; a group added by `add_core_type` (src/ir/component/mod.rs:586-600) gets one id whatever its size, so added groups of another size than one are not covered.
- Sections.Builder.AddItem: takes the number of ids from the entry; the same exclusion of added recursion groups of another size than one.
- Reencoding.InsideNothingChangesEither: the order inside is a hypothesis there; `RoundTrip.KeptBodiesDoNotChangeEither` derives it for type bodies that keep the order of each space.
- EncoderMachine.EncodeComponent: hands the encoder the list of assignments, which the assigner's tables are proved to stand for, rather than the tables.
- RoundTrip.OutputReadBack: sections are read back as items, not as bytes, for components without deleted custom sections whose implicit recursion groups hold one type; nested components and type bodies count as one item each.
- RoundTrip.EncodeReadEncode: the same restriction; what type bodies hold is treated apart by `RoundTrip.KeptBodiesDoNotChangeEither`, where every body keeps the order of each space.
- Warnings, printing, name lookups, import and export lists, and the interning of core types.
- Core-module instrumentation: its remapping of functions, globals and memories, opcode injection and side effects.
- The iterator wrappers that turn a cursor position into an operator.
