/** The whole way round: a component is collected in topological order, numbered, encoded, and its
    sections are read back. What is read has the ids the assigner gave, and encoding it again
    yields it unchanged. */
module RoundTrip {
  import opened Prelude
  import opened Spaces
  import opened Types
  import opened ActualIds
  import opened FixIndices
  import opened Reindex
  import opened TypeTrees
  import opened Encoder
  import opened Scopes
  import opened TypeBodies
  import opened Components
  import opened Assignment
  import opened Completeness
  import opened Resolution
  import opened Reencoding
  import Sections
  import Topological

  // ------------------------------------------------------------------------------------
  // The items of a component
  // ------------------------------------------------------------------------------------

  function PlainContent(item: Encoder.Plain): Content {
    match item
    case Referring(x) => Lone(x)
    case CoreModule(_) => CoreModuleBody
    case Custom(_) => CustomData
  }

  function TypeContent(ty: CompType): Content {
    match ty
    case Leaf(leaf) => Lone(LeafItem(leaf))
    case Body(_, _) => TypeBody
  }

  function CoreContent(core: CoreType): Content {
    match core
    case Rec(group) => Group(group.subs)
    case ModuleType(_) => ModuleTypeBody
  }

  function ContentAt(c: Component, visit: (Section, nat)): Content
    requires IsItem(c, visit)
  {
    var (kind, i) := visit;
    match kind
    case ComponentSection => NestedComponent
    case ComponentTypeSection => TypeContent(c.compTypes[i])
    case CoreTypeSection => CoreContent(c.coreTypes[i])
    case _ => PlainContent(c.plain[kind][i])
  }

  lemma ContentIsRecordedAsItem(c: Component, visit: (Section, nat))
    requires IsItem(c, visit)
    ensures EntryOf(ContentAt(c, visit)) == EntryAt(c, visit)
  {
  }

  /** The items of a component in the order of its sections. */
  function ContentsOf(c: Component): (cs: Contents)
    requires Typed(c)
    ensures |cs| == |Sections.Walk(c.runs)|
    ensures forall j :: 0 <= j < |cs| ==>
              TypedAt(c, Sections.Walk(c.runs)[j]) && cs[j] == ContentAt(c, Sections.Walk(c.runs)[j])
  {
    seq(|Sections.Walk(c.runs)|, j requires 0 <= j < |Sections.Walk(c.runs)| =>
      assert TypedAt(c, Sections.Walk(c.runs)[j]); ContentAt(c, Sections.Walk(c.runs)[j]))
  }

  lemma HistoriesAgree(c: Component)
    requires Typed(c)
    ensures Hist(ContentsOf(c)) == HistOf(c)
  {
    forall j | 0 <= j < |HistOf(c)| ensures Hist(ContentsOf(c))[j] == HistOf(c)[j] {
      ContentIsRecordedAsItem(c, Sections.Walk(c.runs)[j]);
    }
  }

  /** The component's own items are visited in topological order. */
  ghost predicate VisitedInOrder(plan: Plan, c: Component) {
    && Typed(c) && Resolved(ContentsOf(c))
    && Follows(c, VisitsOf(plan, c, []), Topological.EmissionOrder(GraphOf(ContentsOf(c))))
  }

  /** The assigner numbers them in that order. */
  lemma NumberedInOrder(t: Table, plan: Plan, c: Component, root: ScopeId, rank: seq<nat>)
    requires WellFormed(plan, c, []) && Placed(t, plan, c, [], root) && VisitedInOrder(plan, c)
    requires Topological.Acyclic(GraphOf(ContentsOf(c)), rank)
    ensures CompletelyEmitted(ContentsOf(c), CompEmissions(t, plan, c, [], root), root,
                              Topological.EmissionOrder(GraphOf(ContentsOf(c))))
  {
    var order := Topological.EmissionOrder(GraphOf(ContentsOf(c)));
    Topological.DependenciesComeFirst(GraphOf(ContentsOf(c)), rank);
    HistoriesAgree(c);
    ComponentEmits(t, plan, c, [], root, order);
  }

  // ------------------------------------------------------------------------------------
  // Reading sections back
  // ------------------------------------------------------------------------------------

  /** What parsing makes of one encoded section; each holds one item. */
  function ReadSection(s: EncSection): Content {
    match s
    case EncTypeSection(types) =>
      if |types| == 1 && types[0].EncLeaf? then Lone(LeafItem(types[0].leaf)) else TypeBody
    case EncCoreSection(entries) =>
      if |entries| != 1 then Group([])
      else (match entries[0]
        case EncRec(subs) => Group(subs)
        case EncSub(sub) => Group([sub])
        case EncModuleType(_) => ModuleTypeBody)
    case EncComponent(_) => NestedComponent
    case EncItem(item) => PlainContent(item)
  }

  /** A group that is not written as one holds a single type. */
  predicate GroupsAsWritten(c: Component) {
    forall i :: 0 <= i < |c.coreTypes| ==> GroupAsWritten(c.coreTypes[i])
  }

  predicate GroupAsWritten(core: CoreType) {
    core.Rec? && !core.group.isExplicit ==> |core.group.subs| == 1
  }

  lemma TypeReadBack(env: Env, root: ScopeId, ty: CompType, path: Path)
    requires ty.Leaf? ==> path !in env.registry
    ensures ReadSection(EncTypeSection([EncTypeOf(env, [root], ty, path, false)]))
         == EmitContent(RhoAt(env, [root]), TypeContent(ty))
  {
  }

  lemma CoreReadBack(env: Env, root: ScopeId, core: CoreType, path: Path)
    requires GroupAsWritten(core)
    ensures ReadSection(EncCoreSection(EncCoreOf(env, [root], core, path, false)))
         == EmitContent(RhoAt(env, [root]), CoreContent(core))
    ensures EncCoreOf(env, [root], core, path, false) != []
  {
    var rho := RhoAt(env, [root]);
    match core {
      case Rec(group) =>
        var subs := FixSubs(rho, group.subs);
        assert subs == Map(s => FixSubType(rho, s), group.subs);
        if !group.isExplicit { assert Map(s => EncSub(s), subs) == [EncSub(subs[0])] && [subs[0]] == subs; }
      case ModuleType(_) =>
    }
  }

  lemma PlainReadBack(rho: Renaming, c: Component, kind: Section, i: nat)
    requires TypedAt(c, (kind, i))
    requires kind != ComponentSection && kind != ComponentTypeSection && kind != CoreTypeSection
    ensures ReadSection(EncItem(FixPlain(rho, c.plain[kind][i]))) == EmitContent(rho, ContentAt(c, (kind, i)))
  {
  }

  /** Types without a body open no scope. */
  predicate LeavesUnscoped(registry: map<Path, ScopeId>, c: Component) {
    forall i :: 0 <= i < |c.compTypes| && c.compTypes[i].Leaf? ==> [0, i] !in registry
  }

  lemma PlacedLeaves(t: Table, plan: Plan, c: Component, root: ScopeId)
    requires Placed(t, plan, c, [], root)
    ensures LeavesUnscoped(t.registry, c)
  {
    forall i | 0 <= i < |c.compTypes| && c.compTypes[i].Leaf? ensures [0, i] !in t.registry {
      assert PlacedType(t, c.compTypes[i], [] + [0, i], root) && [] + [0, i] == [0, i];
    }
  }

  /** A component whose every item comes out as one section. */
  predicate Readable(env: Env, c: Component) {
    && WellFormed(env.Planned(), c, []) && Typed(c) && LeavesUnscoped(env.registry, c)
    && GroupsAsWritten(c) && c.deleted == {}
  }

  /** One item came out as one section, which reads back as this. */
  predicate ComesOut(sections: seq<EncSection>, x: Content) {
    |sections| == 1 && |Visible(sections)| == 1 && ReadSection(Visible(sections)[0]) == x
  }

  lemma SingleComesOut(s: EncSection, x: Content)
    requires VisibleOne(s) == [s] && ReadSection(s) == x
    ensures ComesOut([s], x)
  {
    VisibleSingle(s);
  }

  lemma TypeComesOut(env: Env, root: ScopeId, c: Component, i: nat)
    requires Readable(env, c) && i < |c.compTypes|
    ensures ComesOut(EncItemOf(env, [root], c, (ComponentTypeSection, i), []),
                     EmitContent(RhoAt(env, [root]), TypeContent(c.compTypes[i])))
  {
    assert [] + [0, i] == [0, i];
    TypeReadBack(env, root, c.compTypes[i], [] + [0, i]);
    SingleComesOut(EncTypeSection([EncTypeOf(env, [root], c.compTypes[i], [] + [0, i], false)]),
                   EmitContent(RhoAt(env, [root]), TypeContent(c.compTypes[i])));
  }

  lemma CoreComesOut(env: Env, root: ScopeId, c: Component, i: nat)
    requires Readable(env, c) && i < |c.coreTypes|
    ensures ComesOut(EncItemOf(env, [root], c, (CoreTypeSection, i), []),
                     EmitContent(RhoAt(env, [root]), CoreContent(c.coreTypes[i])))
  {
    assert GroupAsWritten(c.coreTypes[i]);
    CoreReadBack(env, root, c.coreTypes[i], [] + [1, i]);
    SingleComesOut(EncCoreSection(EncCoreOf(env, [root], c.coreTypes[i], [] + [1, i], false)),
                   EmitContent(RhoAt(env, [root]), CoreContent(c.coreTypes[i])));
  }

  lemma ChildComesOut(env: Env, root: ScopeId, c: Component, i: nat)
    requires Readable(env, c) && i < |c.components|
    ensures ComesOut(EncItemOf(env, [root], c, (ComponentSection, i), []), NestedComponent)
  {
    VisibleSingle(EncItemOf(env, [root], c, (ComponentSection, i), [])[0]);
  }

  lemma PlainComesOut(env: Env, root: ScopeId, c: Component, visit: (Section, nat))
    requires Readable(env, c) && TypedAt(c, visit)
    requires visit.0 != ComponentSection && visit.0 != ComponentTypeSection && visit.0 != CoreTypeSection
    ensures ComesOut(EncItemOf(env, [root], c, visit, []), EmitContent(RhoAt(env, [root]), ContentAt(c, visit)))
  {
    PlainReadBack(RhoAt(env, [root]), c, visit.0, visit.1);
    SingleComesOut(EncItem(FixPlain(RhoAt(env, [root]), c.plain[visit.0][visit.1])),
                   EmitContent(RhoAt(env, [root]), ContentAt(c, visit)));
  }

  /** One item comes out as one section, which reads back as the item rewritten. */
  lemma ItemReadBack(env: Env, root: ScopeId, c: Component, visit: (Section, nat))
    requires Readable(env, c) && TypedAt(c, visit)
    ensures ComesOut(EncItemOf(env, [root], c, visit, []), EmitContent(RhoAt(env, [root]), ContentAt(c, visit)))
  {
    var (kind, i) := visit;
    match kind {
      case ComponentSection => ChildComesOut(env, root, c, i);
      case ComponentTypeSection => TypeComesOut(env, root, c, i);
      case CoreTypeSection => CoreComesOut(env, root, c, i);
      case _ => PlainComesOut(env, root, c, visit);
    }
  }

  lemma OneSectionMore(done: seq<EncSection>, last: seq<EncSection>, read: Contents, x: Content)
    requires Map(ReadSection, Visible(done)) == read && |Visible(last)| == 1 && ReadSection(Visible(last)[0]) == x
    ensures Map(ReadSection, Visible(done + last)) == read + [x]
  {
    VisibleConcat(done, last);
    MapSnoc(ReadSection, Visible(done), Visible(last)[0]);
    assert Visible(last) == [Visible(last)[0]];
  }

  lemma MapSnoc<A, B>(f: A -> B, s: seq<A>, x: A)
    ensures Map(f, s + [x]) == Map(f, s) + [f(x)]
  {
  }

  lemma OneItemMore(cs: Contents, order: seq<nat>, rho: Renaming)
    requires order != [] && forall i :: 0 <= i < |order| ==> order[i] < |cs|
    ensures var n := |order| - 1;
            EncodedAs(cs, order, rho) == EncodedAs(cs, order[..n], rho) + [EmitContent(rho, cs[order[n]])]
  {
  }

  /** What comes out for these visits reads back as the items numbered `order`. */
  predicate ReadsBack(env: Env, root: ScopeId, c: Component, visits: Visiting, order: seq<nat>)
    requires Readable(env, c) && Follows(c, visits, order) && forall v :: v in visits ==> IsItem(c, v)
  {
    Map(ReadSection, Visible(EncWalk(env, [root], c, visits, [])))
    == EncodedAs(ContentsOf(c), order, RhoAt(env, [root]))
  }

  lemma VisitReadBack(env: Env, root: ScopeId, c: Component, visits: Visiting, order: seq<nat>)
    requires Readable(env, c) && Follows(c, visits, order) && visits != []
    requires forall v :: v in visits ==> IsItem(c, v)
    requires ReadsBack(env, root, c, visits[..|visits| - 1], order[..|visits| - 1])
    ensures ReadsBack(env, root, c, visits, order)
  {
    var n := |visits| - 1;
    var rho := RhoAt(env, [root]);
    assert TypedAt(c, Sections.Walk(c.runs)[order[n]]);
    ItemReadBack(env, root, c, visits[n]);
    OneItemMore(ContentsOf(c), order, rho);
    OneSectionMore(EncWalk(env, [root], c, visits[..n], []), EncItemOf(env, [root], c, visits[n], []),
                   EncodedAs(ContentsOf(c), order[..n], rho), EmitContent(rho, ContentAt(c, visits[n])));
  }

  lemma {:induction false} VisitsReadBack(env: Env, root: ScopeId, c: Component, visits: Visiting, order: seq<nat>)
    requires Readable(env, c) && Follows(c, visits, order) && forall v :: v in visits ==> IsItem(c, v)
    ensures ReadsBack(env, root, c, visits, order)
    decreases |visits|
  {
    if visits != [] {
      VisitsReadBack(env, root, c, visits[..|visits| - 1], order[..|visits| - 1]);
      VisitReadBack(env, root, c, visits, order);
    }
  }

  // ------------------------------------------------------------------------------------
  // Main result
  // ------------------------------------------------------------------------------------

  /** A component whose items are visited in topological order, each after what it follows, those
      of nested components in any order, and whose references all name existing items. */
  ghost predicate Encodable(t: Table, plan: Plan, c: Component, root: ScopeId, rank: seq<nat>) {
    && Settled(t, plan, c, [], root) && ComponentResolved(t, [root], c, [])
    && VisitedInOrder(plan, c) && AllCollectable(ContentsOf(c))
    && Topological.Acyclic(GraphOf(ContentsOf(c)), rank)
    && GroupsAsWritten(c) && c.deleted == {}
    && (forall j :: 0 <= j < |ContentsOf(c)| ==> Reencoding.Plain(ContentsOf(c)[j]))
    && AllInFull(ContentsOf(c), RenamingAt(CompEmissions(t, plan, c, [], root), [root]))
  }

  /** The encoder's output, read back. */
  ghost function ReadBackOf(t: Table, plan: Plan, c: Component, root: ScopeId): Contents
    requires WellFormed(plan, c, [])
  {
    var env := Env(plan.registry, plan.orders, plan.manner, CompEmissions(t, plan, c, [], root));
    Map(ReadSection, Visible(EncComponentOf(env, [root], c, [])))
  }

  /** What the encoder leaves, or nothing if it aborts. */
  ghost function RunOf(t: Table, plan: Plan, c: Component, root: ScopeId): Option<State>
    requires WellFormed(plan, c, [])
  {
    var env := Env(plan.registry, plan.orders, plan.manner, CompEmissions(t, plan, c, [], root));
    CompRun(env, State([EMPTY_FRAME], [], [root]), ComponentEvents(plan, c, []))
  }

  /** The encoder does not abort, and what it leaves reads back as just that. */
  lemma EncoderSucceeds(t: Table, plan: Plan, c: Component, root: ScopeId, rank: seq<nat>)
    requires Encodable(t, plan, c, root, rank)
    ensures RunOf(t, plan, c, root).Some? && RunOf(t, plan, c, root).value.comps != []
    ensures Map(ReadSection, Visible(RunOf(t, plan, c, root).value.comps[0].out)) == ReadBackOf(t, plan, c, root)
  {
    var env := Env(plan.registry, plan.orders, plan.manner, CompEmissions(t, plan, c, [], root));
    assert env.Planned() == plan;
    EncodingSucceedsExactlyWhen(t, plan, c, root);
    EncodingRebuildsTheComponent(env, root, c);
  }

  /** What is read back are the component's items in topological order, each rewritten. */
  lemma OutputReadBack(t: Table, plan: Plan, c: Component, root: ScopeId, rank: seq<nat>)
    requires Encodable(t, plan, c, root, rank)
    ensures EmittedInOrder(ContentsOf(c), rank, CompEmissions(t, plan, c, [], root), root)
    ensures ReadBackOf(t, plan, c, root) == Once(ContentsOf(c), CompEmissions(t, plan, c, [], root), root)
  {
    NumberedInOrder(t, plan, c, root, rank);
    PlacedLeaves(t, plan, c, root);
    VisitsReadBack(Env(plan.registry, plan.orders, plan.manner, CompEmissions(t, plan, c, [], root)), root, c,
                   VisitsOf(plan, c, []), Topological.EmissionOrder(GraphOf(ContentsOf(c))));
  }

  /** The encoder does not abort; collecting what is read back from its output keeps the order and
      does not abort either, and encoding it with the ids that assigns rewrites nothing. */
  lemma EncodeReadEncode(t: Table, plan: Plan, c: Component, root: ScopeId, rank: seq<nat>, es2: seq<Emission>,
                         root2: ScopeId)
    requires Encodable(t, plan, c, root, rank)
    ensures RunOf(t, plan, c, root).Some? && RunOf(t, plan, c, root).value.comps != []
    ensures var once := Map(ReadSection, Visible(RunOf(t, plan, c, root).value.comps[0].out));
            && Resolved(once) && OrderFor(once) == Some(Upto(|once|))
            && (Emits(es2, root2, Hist(once), Upto(|once|)) ==>
                  EncodedAs(once, Upto(|once|), RenamingAt(es2, [root2])) == once)
  {
    EncoderSucceeds(t, plan, c, root, rank);
    OutputReadBack(t, plan, c, root, rank);
    NothingChanges(ContentsOf(c), rank, CompEmissions(t, plan, c, [], root), root, es2, root2);
  }

  lemma NothingChanges(cs: Contents, rank: seq<nat>, es: seq<Emission>, root: ScopeId, es2: seq<Emission>,
                       root2: ScopeId)
    requires EmittedInOrder(cs, rank, es, root) && forall j :: 0 <= j < |cs| ==> Reencoding.Plain(cs[j])
    ensures var once := Once(cs, es, root);
            && Resolved(once) && OrderFor(once) == Some(Upto(|once|))
            && (Emits(es2, root2, Hist(once), Upto(|once|)) ==>
                  EncodedAs(once, Upto(|once|), RenamingAt(es2, [root2])) == once)
  {
    EncodedKeepsItsOrder(cs, rank, es, root);
    if Emits(es2, root2, Hist(Once(cs, es, root)), Upto(|cs|)) {
      EncodingAgainChangesNothing(cs, rank, es, root, es2, root2);
    }
  }

  /** The same holds for what type bodies hold, at any depth, where the tree is kept: inside it ids
      are the declarations' own positions, and the component's ids no longer move. */
  lemma KeptBodiesDoNotChangeEither(t: Table, m: Manner, kind: BodyKind, decls: seq<Decl>, path: Path, base: ScopeId,
                                    cs: Contents, es: seq<Emission>, scope: ScopeId, inner: seq<ScopeId>, x: Item)
    requires Emits(es, scope, Hist(cs), Upto(|cs|)) && InlineExportsPlain(x) && scope < base
    requires Laid(t, Body(kind, decls), path, base) && TreeKept(m, Body(kind, decls))
    requires forall s | s in inner :: base <= s < base + ScopeCount(Body(kind, decls)) &&
               SameAt(es, TypeEmissions(m, Body(kind, decls), scope, 0, base), s)
    requires forall r :: r in ItemRefs(x) ==> r.space != NA && Resolvable(es, [scope] + inner, r)
    ensures EmitItem(RenamingAt(es, [scope] + inner), x) == x
  {
    var part := TypeEmissions(m, Body(kind, decls), scope, 0, base);
    TreeInOrder(t, m, Body(kind, decls), path, scope, 0, base);
    forall s, space: Space | s in inner ensures OrderOf(es, s, space) == Upto(|OrderOf(es, s, space)|) {
      assert InOrderAt(t, part, s);
      assert OrderOf(es, s, space) == OrderOf(part, s, space);
    }
    InsideNothingChangesEither(cs, es, scope, inner, x);
  }
}
