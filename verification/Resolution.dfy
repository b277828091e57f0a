/** When encoding succeeds: with every id of every scope emitted once, a reference finds its target
    exactly when the scope it points into has an item of that number. */
module Resolution {
  import opened Prelude
  import opened Spaces
  import opened Types
  import opened IndexSpaces
  import opened ActualIds
  import opened FixIndices
  import opened Reindex
  import opened TypeTrees
  import opened Encoder
  import opened Scopes
  import opened TypeBodies
  import opened Components
  import opened Assignment
  import opened Completeness
  import Sections

  // ------------------------------------------------------------------------------------
  // References that name an existing item
  // ------------------------------------------------------------------------------------

  predicate Exists(t: Table, stack: seq<ScopeId>, r: IndexedRef) {
    r.depth < |stack| && r.index < |LogAt(t, ScopeAt(stack, r.depth), r.space)|
  }

  predicate AllExist(t: Table, stack: seq<ScopeId>, refs: seq<IndexedRef>) {
    forall r :: r in refs ==> Exists(t, stack, r)
  }

  function Under(t: Table, stack: seq<ScopeId>, path: Path): seq<ScopeId> {
    if path in t.registry then stack + [t.registry[path]] else stack
  }

  predicate ModuleResolved(t: Table, stack: seq<ScopeId>, decls: seq<ModuleDecl>) {
    forall i :: 0 <= i < |decls| ==> AllExist(t, stack, ModuleDeclLooked(decls[i]))
  }

  predicate CoreResolved(t: Table, stack: seq<ScopeId>, core: CoreType, path: Path, nested: bool) {
    match core
    case ModuleType(decls) => ModuleResolved(t, Under(t, stack, path), decls)
    case Rec(group) => nested || AllExist(t, stack, FlatMap(SubTypeRefs, group.subs))
  }

  /** Every reference looked up in this tree names an existing item. */
  predicate TypeResolved(t: Table, stack: seq<ScopeId>, ty: CompType, path: Path, nested: bool)
    decreases ty, 1
  {
    match ty
    case Body(_, decls) => DeclsResolved(t, Under(t, stack, path), decls, path)
    case Leaf(leaf) => AllExist(t, Under(t, stack, path), if nested then LeafRefs(leaf) else TopLeafLooked(leaf))
  }

  predicate DeclsResolved(t: Table, stack: seq<ScopeId>, decls: seq<Decl>, path: Path)
    decreases decls, 0
  {
    forall i :: 0 <= i < |decls| ==> DeclResolved(t, stack, decls[i], path + [i])
  }

  predicate DeclResolved(t: Table, stack: seq<ScopeId>, d: Decl, path: Path)
    decreases d, 0
  {
    match d
    case TypeDecl(ty) => TypeResolved(t, stack, ty, path, true)
    case CoreTypeDecl(core) => CoreResolved(t, stack, core, path, true)
    case _ => AllExist(t, stack, DeclLooked(d))
  }

  predicate ItemResolved(t: Table, stack: seq<ScopeId>, c: Component, visit: (Section, nat), path: Path)
    requires IsItem(c, visit)
    decreases c, 0
  {
    var (kind, i) := visit;
    match kind
    case ComponentSection => ComponentResolved(t, Under(t, stack, path + [2, i]), c.components[i], path + [2, i])
    case ComponentTypeSection => TypeResolved(t, stack, c.compTypes[i], path + [0, i], false)
    case CoreTypeSection => CoreResolved(t, stack, c.coreTypes[i], path + [1, i], false)
    case CustomSection => i in c.deleted || AllExist(t, stack, PlainLooked(c.plain[kind][i]))
    case _ => AllExist(t, stack, PlainLooked(c.plain[kind][i]))
  }

  /** The same for a component and all that is nested in it. */
  predicate ComponentResolved(t: Table, stack: seq<ScopeId>, c: Component, path: Path)
    decreases c, 1
  {
    forall v :: v in Sections.Walk(c.runs) && IsItem(c, v) ==> ItemResolved(t, stack, c, v, path)
  }

  // ------------------------------------------------------------------------------------
  // They are the references that are answered
  // ------------------------------------------------------------------------------------

  /** The scopes a reference can point into are complete. */
  ghost predicate KnownStack(t: Table, es: seq<Emission>, stack: seq<ScopeId>) {
    forall k :: 0 <= k < |stack| ==> ScopeComplete(t, es, stack[k])
  }

  ghost predicate RangeComplete(t: Table, es: seq<Emission>, lo: nat, hi: nat) {
    forall s: ScopeId :: lo <= s < hi ==> ScopeComplete(t, es, s)
  }

  lemma ResolvableExactly(t: Table, es: seq<Emission>, stack: seq<ScopeId>, r: IndexedRef)
    requires KnownStack(t, es, stack)
    ensures Resolvable(es, stack, r) ==> Exists(t, stack, r)
    ensures Resolvable(es, stack, r) <== Exists(t, stack, r)
  {
    if r.depth < |stack| {
      var s := ScopeAt(stack, r.depth);
      assert ScopeComplete(t, es, stack[|stack| - 1 - r.depth]);
      assert SpaceComplete(t, es, s, r.space);
      PermutationCovers(OrderOf(es, s, r.space), r.index);
    }
  }

  lemma AnsweredExactly(t: Table, env: Env, stack: seq<ScopeId>, refs: seq<IndexedRef>)
    requires KnownStack(t, env.es, stack)
    ensures Answered(env, stack, refs) ==> AllExist(t, stack, refs)
    ensures Answered(env, stack, refs) <== AllExist(t, stack, refs)
  {
    forall r | r in refs ensures Resolvable(env.es, stack, r) <==> Exists(t, stack, r) {
      ResolvableExactly(t, env.es, stack, r);
    }
  }

  /** A renamed reference is found again. */
  lemma RenamedAnswered(t: Table, env: Env, stack: seq<ScopeId>, refs: seq<IndexedRef>)
    requires KnownStack(t, env.es, stack) && AllExist(t, stack, refs)
    ensures AllExist(t, stack, Map(Renamed(RhoAt(env, stack)), refs))
  {
    var rho := RhoAt(env, stack);
    forall r | r in Map(Renamed(rho), refs) ensures Exists(t, stack, r) {
      var k :| 0 <= k < |refs| && Map(Renamed(rho), refs)[k] == r;
      assert refs[k] in refs;
      RenamedExists(t, env, stack, refs[k]);
    }
  }

  lemma RenamedExists(t: Table, env: Env, stack: seq<ScopeId>, r: IndexedRef)
    requires KnownStack(t, env.es, stack) && Exists(t, stack, r)
    ensures Exists(t, stack, Renamed(RhoAt(env, stack))(r))
  {
    ResolvableExactly(t, env.es, stack, r);
    var s := ScopeAt(stack, r.depth);
    assert ScopeComplete(t, env.es, stack[|stack| - 1 - r.depth]);
    assert SpaceComplete(t, env.es, s, r.space);
    ActualIsPosition(env.es, s, r.space, r.index);
  }

  lemma LeafExactly(t: Table, env: Env, stack: seq<ScopeId>, leaf: LeafType, nested: bool)
    requires KnownStack(t, env.es, stack)
    ensures var refs := if nested then LeafRefs(leaf) else TopLeafLooked(leaf);
            && (Answered(env, stack, LeafLooked(RhoAt(env, stack), leaf, nested)) ==> AllExist(t, stack, refs))
            && (Answered(env, stack, LeafLooked(RhoAt(env, stack), leaf, nested)) <== AllExist(t, stack, refs))
  {
    var rho := RhoAt(env, stack);
    if nested && !leaf.Resource? {
      LeafLaws(rho, rho, leaf);
      AnsweredExactly(t, env, stack, LeafRefs(leaf));
      AnsweredExactly(t, env, stack, LeafRefs(FixLeaf(rho, leaf)));
      BothAnswered(env, stack, LeafRefs(leaf), LeafRefs(FixLeaf(rho, leaf)));
      if AllExist(t, stack, LeafRefs(leaf)) { RenamedAnswered(t, env, stack, LeafRefs(leaf)); }
    } else {
      AnsweredExactly(t, env, stack, LeafLooked(rho, leaf, nested));
    }
  }

  lemma BothAnswered(env: Env, stack: seq<ScopeId>, a: seq<IndexedRef>, b: seq<IndexedRef>)
    ensures Answered(env, stack, a + b) ==> Answered(env, stack, a) && Answered(env, stack, b)
    ensures Answered(env, stack, a + b) <== Answered(env, stack, a) && Answered(env, stack, b)
  {
    if Answered(env, stack, a + b) {
      forall r | r in a || r in b ensures Resolvable(env.es, stack, r) { assert r in a + b; }
    }
  }

  lemma ModuleExactly(t: Table, env: Env, stack: seq<ScopeId>, decls: seq<ModuleDecl>)
    requires KnownStack(t, env.es, stack)
    ensures ModuleAnswered(env, stack, decls) ==> ModuleResolved(t, stack, decls)
    ensures ModuleAnswered(env, stack, decls) <== ModuleResolved(t, stack, decls)
  {
    forall i | 0 <= i < |decls|
      ensures Answered(env, stack, ModuleDeclLooked(decls[i])) <==> AllExist(t, stack, ModuleDeclLooked(decls[i]))
    {
      AnsweredExactly(t, env, stack, ModuleDeclLooked(decls[i]));
    }
  }

  lemma CoreExactly(t: Table, env: Env, stack: seq<ScopeId>, core: CoreType, path: Path, base: ScopeId, nested: bool)
    requires env.registry == t.registry && CoreLaid(t, core, path, base) && KnownStack(t, env.es, stack)
    requires RangeComplete(t, env.es, base, base + CoreScopes(core))
    ensures CoreAnswered(env, stack, core, path, nested) ==> CoreResolved(t, stack, core, path, nested)
    ensures CoreAnswered(env, stack, core, path, nested) <== CoreResolved(t, stack, core, path, nested)
  {
    match core {
      case ModuleType(decls) => ModuleExactly(t, env, stack + [base], decls);
      case Rec(group) => AnsweredExactly(t, env, stack, FlatMap(SubTypeRefs, group.subs));
    }
  }

  /** A laid-out tree whose scopes are complete: all its references are answered exactly when they
      all name existing items. */
  lemma {:induction false} TypeExactly(t: Table, env: Env, stack: seq<ScopeId>, ty: CompType, path: Path, base: ScopeId,
                                       nested: bool)
    requires env.registry == t.registry && Laid(t, ty, path, base) && KnownStack(t, env.es, stack)
    requires RangeComplete(t, env.es, base, base + ScopeCount(ty))
    ensures TypeAnswered(env, stack, ty, path, nested) ==> TypeResolved(t, stack, ty, path, nested)
    ensures TypeAnswered(env, stack, ty, path, nested) <== TypeResolved(t, stack, ty, path, nested)
    decreases ty, 1
  {
    match ty {
      case Leaf(leaf) => LeafExactly(t, env, stack, leaf, nested);
      case Body(_, decls) => DeclsExactly(t, env, stack + [base], decls, path, base + 1);
    }
  }

  lemma {:induction false} DeclsExactly(t: Table, env: Env, stack: seq<ScopeId>, decls: seq<Decl>, path: Path,
                                        base: ScopeId)
    requires env.registry == t.registry && LaidDecls(t, decls, path, base) && KnownStack(t, env.es, stack)
    requires RangeComplete(t, env.es, base, base + ScopesIn(decls))
    ensures DeclsAnswered(env, stack, decls, path) ==> DeclsResolved(t, stack, decls, path)
    ensures DeclsAnswered(env, stack, decls, path) <== DeclsResolved(t, stack, decls, path)
    decreases decls, 0
  {
    forall i | 0 <= i < |decls|
      ensures DeclAnswered(env, stack, decls[i], path + [i]) <==> DeclResolved(t, stack, decls[i], path + [i])
    {
      LaidAt(t, decls, path, base, i);
      StartWithin(decls, base, i);
      DeclExactly(t, env, stack, decls[i], path + [i], Starts(decls, base)[i]);
    }
  }

  lemma {:induction false} DeclExactly(t: Table, env: Env, stack: seq<ScopeId>, d: Decl, path: Path, base: ScopeId)
    requires env.registry == t.registry && LaidDecl(t, d, path, base) && KnownStack(t, env.es, stack)
    requires RangeComplete(t, env.es, base, base + DeclScopes(d))
    ensures DeclAnswered(env, stack, d, path) ==> DeclResolved(t, stack, d, path)
    ensures DeclAnswered(env, stack, d, path) <== DeclResolved(t, stack, d, path)
    decreases d, 0
  {
    match d {
      case TypeDecl(ty) => TypeExactly(t, env, stack, ty, path, base, true);
      case CoreTypeDecl(core) => CoreExactly(t, env, stack, core, path, base, true);
      case _ => AnsweredExactly(t, env, stack, DeclLooked(d));
    }
  }

  // ------------------------------------------------------------------------------------
  // Whole components
  // ------------------------------------------------------------------------------------

  /** In the scopes of this node and those below it, the whole emission is what this part emits. */
  ghost predicate Agrees(registry: map<Path, ScopeId>, es: seq<Emission>, part: seq<Emission>, path: Path,
                         scope: ScopeId) {
    forall s: ScopeId, sp: Space {:trigger OrderOf(es, s, sp)} ::
      s == scope || OwnedBelow(registry, path, s) ==> OrderOf(es, s, sp) == OrderOf(part, s, sp)
  }

  /** What is known of a component while it is encoded below the scopes of `stack`. */
  ghost predicate Reached(t: Table, env: Env, stack: seq<ScopeId>, c: Component, path: Path, scope: ScopeId) {
    && env.registry == t.registry && Settled(t, env.Planned(), c, path, scope)
    && Agrees(t.registry, env.es, CompEmissions(t, env.Planned(), c, path, scope), path, scope)
    && KnownStack(t, env.es, stack)
  }

  lemma ReceivedFromItem(t: Table, env: Env, stack: seq<ScopeId>, c: Component, path: Path, scope: ScopeId,
                         v: (Section, nat), s: ScopeId, sp: Space)
    requires Reached(t, env, stack, c, path, scope) && v in Sections.Walk(c.runs) && IsItem(c, v)
    requires HasInside(v) && OwnedBelow(t.registry, ItemPath(v, path), s)
    ensures OrderOf(env.es, s, sp) == OrderOf(InnerEmissions(t, env.Planned(), c, v, path), s, sp)
  {
    OwnedDeeper(t.registry, path, v, s);
    assert Owner(t.registry, v, path, scope, s);
    AllAreVisited(c, VisitsOf(env.Planned(), c, path), v);
    OwnerReceives(t, env.Planned(), c, path, scope, v, s, sp);
  }

  /** A type body whose scope receives just what the body emits. */
  lemma LaidScopeComplete(t: Table, es: seq<Emission>, m: Manner, ty: CompType, path: Path, base: ScopeId, s: ScopeId)
    requires Laid(t, ty, path, base) && TreeSingle(ty) && base <= s < base + ScopeCount(ty)
    requires OwnedBelow(t.registry, path, s) ==> SameAt(es, TypeInner(m, ty, base), s)
    ensures ScopeComplete(t, es, s)
  {
    RangeOwned(t, ty.decls, path, base, s);
    BodyComplete(t, m, ty.kind, ty.decls, path, base, s);
    CompleteLike(t, es, TypeInner(m, ty, base), s);
  }

  ghost predicate SameAt(es: seq<Emission>, fs: seq<Emission>, s: ScopeId) {
    forall sp: Space :: OrderOf(es, s, sp) == OrderOf(fs, s, sp)
  }

  lemma InsideReceives(t: Table, env: Env, stack: seq<ScopeId>, c: Component, path: Path, scope: ScopeId,
                       v: (Section, nat), s: ScopeId)
    requires Reached(t, env, stack, c, path, scope) && v in Sections.Walk(c.runs) && IsItem(c, v)
    requires HasInside(v) && OwnedBelow(t.registry, ItemPath(v, path), s)
    ensures SameAt(env.es, InnerEmissions(t, env.Planned(), c, v, path), s)
  {
    forall sp: Space ensures OrderOf(env.es, s, sp) == OrderOf(InnerEmissions(t, env.Planned(), c, v, path), s, sp) {
      ReceivedFromItem(t, env, stack, c, path, scope, v, s, sp);
    }
  }

  lemma TypeRangeComplete(t: Table, env: Env, stack: seq<ScopeId>, c: Component, i: nat, path: Path, scope: ScopeId)
    requires Reached(t, env, stack, c, path, scope) && i < |c.compTypes|
    requires (ComponentTypeSection, i) in Sections.Walk(c.runs)
    ensures var base := BaseOf(t, path + [0, i]);
            && Laid(t, c.compTypes[i], path + [0, i], base)
            && RangeComplete(t, env.es, base, base + ScopeCount(c.compTypes[i]))
  {
    var ty, q, v := c.compTypes[i], path + [0, i], (ComponentTypeSection, i);
    var base := BaseOf(t, q);
    TypeSettledAt(t, env.Planned(), c, i, path, scope);
    forall s: ScopeId | base <= s < base + ScopeCount(ty) ensures ScopeComplete(t, env.es, s) {
      if OwnedBelow(t.registry, q, s) { InsideReceives(t, env, stack, c, path, scope, v, s); }
      LaidScopeComplete(t, env.es, env.manner, ty, q, base, s);
    }
  }

  lemma CoreRangeComplete(t: Table, env: Env, stack: seq<ScopeId>, c: Component, i: nat, path: Path, scope: ScopeId)
    requires Reached(t, env, stack, c, path, scope) && i < |c.coreTypes|
    requires (CoreTypeSection, i) in Sections.Walk(c.runs)
    ensures var base := BaseOf(t, path + [1, i]);
            && CoreLaid(t, c.coreTypes[i], path + [1, i], base)
            && RangeComplete(t, env.es, base, base + CoreScopes(c.coreTypes[i]))
  {
    var core, q, v := c.coreTypes[i], path + [1, i], (CoreTypeSection, i);
    var base := BaseOf(t, q);
    CorePlacedAt(t, env.Planned(), c, i, path, scope);
    if core.ModuleType? {
      assert Below(q, q) && OwnedBelow(t.registry, q, base);
      InsideReceives(t, env, stack, c, path, scope, v, base);
      ModuleInnerComplete(t, env.manner, core, q, base);
      CompleteLike(t, env.es, CoreInner(env.manner, core, base), base);
    }
    OneOrNone(t, env.es, base, CoreScopes(core));
  }

  lemma OneOrNone(t: Table, es: seq<Emission>, base: ScopeId, n: nat)
    requires n <= 1 && (n == 1 ==> ScopeComplete(t, es, base))
    ensures RangeComplete(t, es, base, base + n)
  {
  }

  lemma ModuleInnerComplete(t: Table, m: Manner, core: CoreType, path: Path, base: ScopeId)
    requires CoreLaid(t, core, path, base) && core.ModuleType?
    ensures ScopeComplete(t, CoreInner(m, core, base), base)
  {
    var order := ModuleOrder(m, core.moduleDecls);
    ModuleOrderCovers(m, core.moduleDecls);
    ModuleLogBelow(core.moduleDecls);
    forall sp: Space ensures SpaceComplete(t, CoreInner(m, core, base), base, sp) {
      ModuleOrders(order, base, base, sp);
      assert LogAt(t, base, sp) == ModuleLog(core.moduleDecls, sp);
    }
  }

  /** A nested component is reached with its own scope on top of the stack. */
  lemma ChildReached(t: Table, env: Env, stack: seq<ScopeId>, c: Component, i: nat, path: Path, scope: ScopeId)
    requires Reached(t, env, stack, c, path, scope) && i < |c.components|
    requires (ComponentSection, i) in Sections.Walk(c.runs)
    ensures var q := path + [2, i];
            q in t.registry && Reached(t, env, stack, c.components[i], q, t.registry[q])
  {
    ChildSettled(t, env.Planned(), c, i, path, scope);
    ChildAgrees(t, env, stack, c, i, path, scope);
  }

  lemma ChildAgrees(t: Table, env: Env, stack: seq<ScopeId>, c: Component, i: nat, path: Path, scope: ScopeId)
    requires Reached(t, env, stack, c, path, scope) && i < |c.components|
    requires (ComponentSection, i) in Sections.Walk(c.runs)
    requires path + [2, i] in t.registry && WellFormed(env.Planned(), c.components[i], path + [2, i])
    ensures var q := path + [2, i];
            Agrees(t.registry, env.es, CompEmissions(t, env.Planned(), c.components[i], q, t.registry[q]), q,
                   t.registry[q])
  {
    var q, v := path + [2, i], (ComponentSection, i);
    var part := CompEmissions(t, env.Planned(), c.components[i], q, t.registry[q]);
    assert Below(q, q) && part == InnerEmissions(t, env.Planned(), c, v, path);
    forall s: ScopeId, sp: Space | s == t.registry[q] || OwnedBelow(t.registry, q, s)
      ensures OrderOf(env.es, s, sp) == OrderOf(part, s, sp)
    {
      ReceivedFromItem(t, env, stack, c, path, scope, v, s, sp);
    }
  }

  lemma OwnScopeKnown(t: Table, env: Env, stack: seq<ScopeId>, c: Component, path: Path, scope: ScopeId)
    requires Reached(t, env, stack, c, path, scope)
    ensures KnownStack(t, env.es, stack + [scope])
  {
    var part := CompEmissions(t, env.Planned(), c, path, scope);
    ComponentComplete(t, env.Planned(), c, path, scope);
    forall sp: Space ensures OrderOf(env.es, scope, sp) == OrderOf(part, scope, sp) {}
    CompleteLike(t, env.es, part, scope);
  }

  lemma TypeItemExactly(t: Table, env: Env, stack: seq<ScopeId>, c: Component, v: (Section, nat), path: Path,
                        scope: ScopeId)
    requires Reached(t, env, stack, c, path, scope) && IsItem(c, v) && v.0 == ComponentTypeSection
    requires v in Sections.Walk(c.runs)
    ensures ItemAnswered(env, stack, c, v, path) ==> ItemResolved(t, stack, c, v, path)
    ensures ItemAnswered(env, stack, c, v, path) <== ItemResolved(t, stack, c, v, path)
  {
    var i := v.1;
    assert v == (ComponentTypeSection, i);
    TypeRangeComplete(t, env, stack, c, i, path, scope);
    TypeExactly(t, env, stack, c.compTypes[i], path + [0, i], BaseOf(t, path + [0, i]), false);
  }

  lemma CoreItemExactly(t: Table, env: Env, stack: seq<ScopeId>, c: Component, v: (Section, nat), path: Path,
                        scope: ScopeId)
    requires Reached(t, env, stack, c, path, scope) && IsItem(c, v) && v.0 == CoreTypeSection
    requires v in Sections.Walk(c.runs)
    ensures ItemAnswered(env, stack, c, v, path) ==> ItemResolved(t, stack, c, v, path)
    ensures ItemAnswered(env, stack, c, v, path) <== ItemResolved(t, stack, c, v, path)
  {
    var i := v.1;
    assert v == (CoreTypeSection, i);
    CoreRangeComplete(t, env, stack, c, i, path, scope);
    CoreExactly(t, env, stack, c.coreTypes[i], path + [1, i], BaseOf(t, path + [1, i]), false);
  }

  lemma PlainItemExactly(t: Table, env: Env, stack: seq<ScopeId>, c: Component, v: (Section, nat), path: Path)
    requires WellFormed(env.Planned(), c, path) && KnownStack(t, env.es, stack) && IsItem(c, v) && !HasInside(v)
    ensures ItemAnswered(env, stack, c, v, path) ==> ItemResolved(t, stack, c, v, path)
    ensures ItemAnswered(env, stack, c, v, path) <== ItemResolved(t, stack, c, v, path)
  {
    AnsweredExactly(t, env, stack, PlainLooked(c.plain[v.0][v.1]));
  }

  lemma {:induction false} ChildItemExactly(t: Table, env: Env, stack: seq<ScopeId>, c: Component,
                                            v: (Section, nat), path: Path, scope: ScopeId)
    requires Reached(t, env, stack, c, path, scope) && IsItem(c, v) && v.0 == ComponentSection
    requires v in Sections.Walk(c.runs)
    ensures ItemAnswered(env, stack, c, v, path) ==> ItemResolved(t, stack, c, v, path)
    ensures ItemAnswered(env, stack, c, v, path) <== ItemResolved(t, stack, c, v, path)
    decreases c, 0
  {
    var i := v.1;
    assert v == (ComponentSection, i);
    var q := path + [2, i];
    ChildReached(t, env, stack, c, i, path, scope);
    ComponentExactly(t, env, stack, c.components[i], q, t.registry[q]);
  }

  lemma {:induction false} ItemExactly(t: Table, env: Env, stack: seq<ScopeId>, c: Component, v: (Section, nat),
                                       path: Path, scope: ScopeId)
    requires Reached(t, env, stack, c, path, scope) && v in Sections.Walk(c.runs) && IsItem(c, v)
    ensures ItemAnswered(env, stack, c, v, path) ==> ItemResolved(t, stack, c, v, path)
    ensures ItemAnswered(env, stack, c, v, path) <== ItemResolved(t, stack, c, v, path)
    decreases c, 1
  {
    match v.0 {
      case ComponentSection => ChildItemExactly(t, env, stack, c, v, path, scope);
      case ComponentTypeSection => TypeItemExactly(t, env, stack, c, v, path, scope);
      case CoreTypeSection => CoreItemExactly(t, env, stack, c, v, path, scope);
      case _ => PlainItemExactly(t, env, stack, c, v, path);
    }
  }

  lemma {:induction false} AnsweredEach(env: Env, stack: seq<ScopeId>, c: Component, visits: Visiting, path: Path)
    requires WellFormed(env.Planned(), c, path) && forall v :: v in visits ==> IsItem(c, v)
    ensures EachItemAnswered(env, stack, c, visits, path)
        ==> forall v :: v in visits ==> ItemAnswered(env, stack, c, v, path)
    ensures EachItemAnswered(env, stack, c, visits, path)
        <== forall v :: v in visits ==> ItemAnswered(env, stack, c, v, path)
    decreases |visits|
  {
    if visits != [] {
      var init, u := visits[..|visits| - 1], visits[|visits| - 1];
      assert u in visits && forall v :: v in visits <==> v in init || v == u by { assert visits == init + [u]; }
      AnsweredEach(env, stack, c, init, path);
    }
  }

  /** Below a stack of complete scopes: everything a component looks up is answered exactly when it
      names existing items. */
  lemma {:induction false} ComponentExactly(t: Table, env: Env, stack: seq<ScopeId>, c: Component, path: Path,
                                            scope: ScopeId)
    requires Reached(t, env, stack, c, path, scope)
    ensures ComponentAnswered(env, stack + [scope], c, path) ==> ComponentResolved(t, stack + [scope], c, path)
    ensures ComponentAnswered(env, stack + [scope], c, path) <== ComponentResolved(t, stack + [scope], c, path)
    decreases c, 2
  {
    var visits, below := VisitsOf(env.Planned(), c, path), stack + [scope];
    OwnScopeKnown(t, env, stack, c, path, scope);
    forall v | v in Sections.Walk(c.runs) && IsItem(c, v)
      ensures ItemAnswered(env, below, c, v, path) <==> ItemResolved(t, below, c, v, path)
    {
      ItemExactly(t, env, below, c, v, path, scope);
    }
    EveryVisit(t, env, below, c, path, scope);
  }

  lemma EveryVisit(t: Table, env: Env, stack: seq<ScopeId>, c: Component, path: Path, scope: ScopeId)
    requires Settled(t, env.Planned(), c, path, scope)
    requires forall v :: v in Sections.Walk(c.runs) && IsItem(c, v) ==>
               (ItemAnswered(env, stack, c, v, path) <==> ItemResolved(t, stack, c, v, path))
    ensures ComponentAnswered(env, stack, c, path) ==> ComponentResolved(t, stack, c, path)
    ensures ComponentAnswered(env, stack, c, path) <== ComponentResolved(t, stack, c, path)
  {
    var visits := VisitsOf(env.Planned(), c, path);
    VisitsAreRecorded(t, env.Planned(), c, path, scope);
    AnsweredEach(env, stack, c, visits, path);
    forall v ensures v in visits <==> v in Sections.Walk(c.runs) { AllAreVisited(c, visits, v); }
  }

  /** With the ids assigned along complete visits, encoding succeeds if and only if every reference
      it looks up, at any depth, names an item that exists in the scope it points into. */
  lemma EncodingSucceedsExactlyWhen(t: Table, plan: Plan, c: Component, root: ScopeId)
    requires Settled(t, plan, c, [], root)
    ensures var env := Env(plan.registry, plan.orders, plan.manner, CompEmissions(t, plan, c, [], root));
            && (ComponentAnswered(env, [root], c, []) ==> ComponentResolved(t, [root], c, []))
            && (ComponentAnswered(env, [root], c, []) <== ComponentResolved(t, [root], c, []))
  {
    var env := Env(plan.registry, plan.orders, plan.manner, CompEmissions(t, plan, c, [], root));
    RootReached(t, env, c, root);
    assert [] + [root] == [root];
    ComponentExactly(t, env, [], c, [], root);
  }

  lemma RootReached(t: Table, env: Env, c: Component, root: ScopeId)
    requires Settled(t, env.Planned(), c, [], root) && env.es == CompEmissions(t, env.Planned(), c, [], root)
    ensures Reached(t, env, [], c, [], root)
  {
  }

  /** What parsing makes of the component with a reference to a type it does not have. */
  const DANGLING_TABLE := Table(map[0 := map[Space.CompType := [Slot(Main, 0)]]], 1, map[])

  const DANGLING_PLAN := Plan(map[], map[], PulledAhead)

  /** It meets every other condition, and is refused for that reference alone. */
  lemma DanglingIsRefused()
    ensures Settled(DANGLING_TABLE, DANGLING_PLAN, DANGLING, [], 0)
    ensures !ComponentResolved(DANGLING_TABLE, [0], DANGLING, [])
    ensures !ComponentAnswered(Env(map[], map[], PulledAhead,
                                   CompEmissions(DANGLING_TABLE, DANGLING_PLAN, DANGLING, [], 0)),
                               [0], DANGLING, [])
  {
    DanglingVisit();
    DanglingPlaced();
    DanglingUnresolved();
    EncodingSucceedsExactlyWhen(DANGLING_TABLE, DANGLING_PLAN, DANGLING, 0);
  }

  lemma DanglingUnresolved()
    ensures !ComponentResolved(DANGLING_TABLE, [0], DANGLING, [])
  {
    DanglingVisit();
    var v := (ComponentTypeSection, 0);
    var r := IndexedRef(0, Space.CompType, 99);
    assert v in Sections.Walk(DANGLING.runs) && IsItem(DANGLING, v);
    assert TopLeafLooked(DANGLING.compTypes[0].leaf) == [r] && r in [r];
    assert !Exists(DANGLING_TABLE, [0], r);
    assert !ItemResolved(DANGLING_TABLE, [0], DANGLING, v, []);
  }

  lemma DanglingPlaced()
    ensures WellFormed(DANGLING_PLAN, DANGLING, []) && Placed(DANGLING_TABLE, DANGLING_PLAN, DANGLING, [], 0)
  {
    DanglingVisit();
    var e := Sections.Entry(ComponentTypeSection, Space.CompType, 1);
    var hist := HistOf(DANGLING);
    assert hist == [e];
    forall space: Space
      ensures LogAt(DANGLING_TABLE, 0, space) == if space == NA then [] else Sections.LogOf(hist, space)
    {
      Sections.HistorySnoc([], e, ComponentTypeSection, space);
      assert [] + [e] == hist;
      assert Repeat(Slot(Main, 0), 1) == [Slot(Main, 0)];
    }
  }
}
