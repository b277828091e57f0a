/** Complete visits: where every item of a component, and of the components nested in it, is visited
    once, every id of every scope is emitted once. */
module Completeness {
  import opened Prelude
  import opened Spaces
  import opened IndexSpaces
  import opened ActualIds
  import opened Reindex
  import opened Orders
  import opened TypeTrees
  import opened Encoder
  import opened Scopes
  import opened TypeBodies
  import opened Components
  import opened Assignment
  import Sections
  import Reencoding
  import Topological

  // ------------------------------------------------------------------------------------
  // What is assumed of the component
  // ------------------------------------------------------------------------------------

  /** Different nodes own different scopes. */
  ghost predicate OneScopeEach(registry: map<Path, ScopeId>) {
    forall p, q :: SameOwner(registry, p, q) ==> p == q
  }

  predicate SameOwner(registry: map<Path, ScopeId>, p: Path, q: Path) {
    p in registry && q in registry && registry[p] == registry[q]
  }

  /** Every recorded item is visited, once, here and in every nested component. */
  ghost predicate CompleteVisits(plan: Plan, c: Component, path: Path)
    decreases c
  {
    && VisitsAll(c, VisitsOf(plan, c, path))
    && forall i :: 0 <= i < |c.components| ==> CompleteVisits(plan, c.components[i], path + [2, i])
  }

  /** As many visits as items, and every item among them. */
  ghost predicate VisitsAll(c: Component, visits: Visiting) {
    |visits| == |Sections.Walk(c.runs)| && forall v :: v in visits <==> v in Sections.Walk(c.runs)
  }

  /** Every recursion group inside a type body holds exactly one type. */
  predicate TreeSingle(ty: CompType)
    decreases ty, 2
  {
    ty.Body? ==> OneEach(CopiesOf(ty.decls)) && DeclsSingle(ty.decls)
  }

  predicate DeclsSingle(decls: seq<Decl>)
    decreases decls, 1
  {
    forall i :: 0 <= i < |decls| ==> DeclSingle(decls[i])
  }

  predicate DeclSingle(d: Decl)
    decreases d, 0
  {
    d.TypeDecl? ==> TreeSingle(d.ty)
  }

  predicate SingleGroups(c: Component)
    decreases c
  {
    && (forall i :: 0 <= i < |c.compTypes| ==> TreeSingle(c.compTypes[i]))
    && (forall i :: 0 <= i < |c.components| ==> SingleGroups(c.components[i]))
  }

  // ------------------------------------------------------------------------------------
  // One type body
  // ------------------------------------------------------------------------------------

  /** Every id of every space of this scope was emitted, once. */
  ghost predicate ScopeComplete(t: Table, es: seq<Emission>, s: ScopeId) {
    forall sp: Space :: SpaceComplete(t, es, s, sp)
  }

  ghost predicate SpaceComplete(t: Table, es: seq<Emission>, s: ScopeId, sp: Space) {
    IsPermutation(OrderOf(es, s, sp)) && |OrderOf(es, s, sp)| == |LogAt(t, s, sp)|
  }

  lemma OwnScopeComplete(t: Table, m: Manner, decls: seq<Decl>, base: ScopeId)
    requires OwnLog(t, base, decls) && OneEach(CopiesOf(decls))
    ensures ScopeComplete(t, BodyEmissions(m, decls, base), base)
  {
    forall sp: Space ensures SpaceComplete(t, BodyEmissions(m, decls, base), base, sp) {
      BodyOrderCovers(m, decls);
      OneCopyIsComplete(DeclSpaces(decls), CopiesOf(decls), BodyOrder(m, decls), sp);
      OwnScopeMeets(m, decls, base, sp);
      LogLength(decls, sp);
    }
  }

  lemma CompleteLike(t: Table, es: seq<Emission>, fs: seq<Emission>, s: ScopeId)
    requires ScopeComplete(t, fs, s) && forall sp: Space :: OrderOf(es, s, sp) == OrderOf(fs, s, sp)
    ensures ScopeComplete(t, es, s)
  {
    forall sp: Space ensures SpaceComplete(t, es, s, sp) { assert SpaceComplete(t, fs, s, sp); }
  }

  /** Every scope of a tree receives all its ids. */
  lemma {:induction false} BodyComplete(t: Table, m: Manner, kind: BodyKind, decls: seq<Decl>, path: Path,
                                        base: ScopeId, s: ScopeId)
    requires Laid(t, Body(kind, decls), path, base) && TreeSingle(Body(kind, decls))
    requires base <= s < base + 1 + ScopesIn(decls)
    ensures ScopeComplete(t, BodyEmissions(m, decls, base), s)
    decreases decls, 1
  {
    if s == base {
      OwnScopeComplete(t, m, decls, base);
    } else {
      var i := WhichDecl(decls, base, s);
      LaidAt(t, decls, path, base + 1, i);
      StartWithin(decls, base + 1, i);
      var own, lo := Ids(decls)[i], Starts(decls, base + 1)[i];
      DeclComplete(t, m, decls[i], path + [i], base, own, lo, s);
      forall sp: Space
        ensures OrderOf(BodyEmissions(m, decls, base), s, sp)
             == OrderOf(DeclEmissions(m, decls[i], base, own, lo), s, sp)
      {
        ChildScopeReceives(m, decls, base, i, s, sp);
      }
      CompleteLike(t, BodyEmissions(m, decls, base), DeclEmissions(m, decls[i], base, own, lo), s);
    }
  }

  lemma {:induction false} DeclComplete(t: Table, m: Manner, d: Decl, path: Path, scope: ScopeId, own: nat,
                                        base: ScopeId, s: ScopeId)
    requires LaidDecl(t, d, path, base) && DeclSingle(d) && scope < base <= s < base + DeclScopes(d)
    ensures ScopeComplete(t, DeclEmissions(m, d, scope, own, base), s)
    decreases d, 0
  {
    match d {
      case TypeDecl(Body(kind, decls)) =>
        BodyComplete(t, m, kind, decls, path, base, s);
        forall sp: Space
          ensures OrderOf(DeclEmissions(m, d, scope, own, base), s, sp) == OrderOf(BodyEmissions(m, decls, base), s, sp)
        {
          LastElsewhere(BodyEmissions(m, decls, base), scope, own, s, sp);
        }
        CompleteLike(t, DeclEmissions(m, d, scope, own, base), BodyEmissions(m, decls, base), s);
      case CoreTypeDecl(ModuleType(decls)) =>
        ModuleComplete(t, m, ModuleType(decls), path, scope, own, base);
      case _ =>
    }
  }

  lemma ModuleComplete(t: Table, m: Manner, core: CoreType, path: Path, home: ScopeId, own: nat, base: ScopeId)
    requires CoreLaid(t, core, path, base) && core.ModuleType? && home < base
    ensures ScopeComplete(t, CoreEmissions(m, core, home, own, base), base)
  {
    var es, order := CoreEmissions(m, core, home, own, base), ModuleOrder(m, core.moduleDecls);
    ModuleScopeMeets(t, m, core, path, home, own, base);
    ModuleOrderCovers(m, core.moduleDecls);
    forall sp: Space ensures SpaceComplete(t, es, base, sp) {
      assert OrderOf(es, base, sp) == if sp == Space.CoreType then order else [];
    }
  }

  // ------------------------------------------------------------------------------------
  // Whose scopes an item's emissions go to
  // ------------------------------------------------------------------------------------

  /** The scope belongs to the node at this path or to one below. */
  ghost predicate OwnedBelow(registry: map<Path, ScopeId>, path: Path, s: ScopeId) {
    exists p :: p in registry && Below(path, p) && registry[p] == s
  }

  /** No node below this path owns the scope. */
  ghost predicate NotBelow(registry: map<Path, ScopeId>, path: Path, s: ScopeId) {
    forall p :: p in registry && path < p ==> registry[p] != s
  }

  function ItemPath(visit: (Section, nat), path: Path): Path {
    var digit := match visit.0
                 case ComponentTypeSection => 0
                 case CoreTypeSection => 1
                 case ComponentSection => 2
                 case _ => 3;
    path + [digit, visit.1]
  }

  predicate HasInside(visit: (Section, nat)) {
    visit.0 == ComponentSection || visit.0 == ComponentTypeSection || visit.0 == CoreTypeSection
  }

  /** Different items with something inside share no scope. */
  lemma ItemsApart(registry: map<Path, ScopeId>, u: (Section, nat), v: (Section, nat), path: Path, s: ScopeId)
    requires OneScopeEach(registry) && u != v && HasInside(u) && HasInside(v)
    requires OwnedBelow(registry, ItemPath(u, path), s)
    ensures !OwnedBelow(registry, ItemPath(v, path), s)
  {
    var n := |path|;
    var p :| p in registry && Below(ItemPath(u, path), p) && registry[p] == s;
    assert p[n] == ItemPath(u, path)[n] && p[n + 1] == ItemPath(u, path)[n + 1];
    forall q | q in registry && Below(ItemPath(v, path), q) ensures registry[q] != s {
      assert q[n] == ItemPath(v, path)[n] && q[n + 1] == ItemPath(v, path)[n + 1];
      assert SameOwner(registry, p, q) <==> registry[q] == s;
    }
  }

  lemma OwnedDeeper(registry: map<Path, ScopeId>, path: Path, visit: (Section, nat), s: ScopeId)
    requires OwnedBelow(registry, ItemPath(visit, path), s)
    ensures OwnedBelow(registry, path, s) && !NotBelow(registry, path, s)
  {
    var p :| p in registry && Below(ItemPath(visit, path), p) && registry[p] == s;
    assert path < p;
  }

  lemma DeclPathDeeper(registry: map<Path, ScopeId>, path: Path, i: nat, s: ScopeId)
    requires OwnedBelow(registry, path + [i], s)
    ensures OwnedBelow(registry, path, s)
  {
    var p :| p in registry && Below(path + [i], p) && registry[p] == s;
    assert Below(path, p);
  }

  /** The scopes of a laid-out tree belong to its nodes. */
  lemma {:induction false} RangeOwned(t: Table, decls: seq<Decl>, path: Path, base: ScopeId, s: ScopeId)
    requires Owns(t, path, base) && LaidDecls(t, decls, path, base + 1) && base <= s < base + 1 + ScopesIn(decls)
    ensures OwnedBelow(t.registry, path, s)
    decreases decls, 1
  {
    if s == base {
      assert Below(path, path);
    } else {
      var i := WhichDecl(decls, base, s);
      LaidAt(t, decls, path, base + 1, i);
      DeclRangeOwned(t, decls[i], path + [i], Starts(decls, base + 1)[i], s);
      DeclPathDeeper(t.registry, path, i, s);
    }
  }

  lemma {:induction false} DeclRangeOwned(t: Table, d: Decl, path: Path, base: ScopeId, s: ScopeId)
    requires LaidDecl(t, d, path, base) && base <= s < base + DeclScopes(d)
    ensures OwnedBelow(t.registry, path, s)
    decreases d, 0
  {
    assert Below(path, path);
    match d {
      case TypeDecl(Body(_, decls)) => RangeOwned(t, decls, path, base, s);
      case _ =>
    }
  }

  lemma TypeInnerSilent(t: Table, m: Manner, ty: CompType, path: Path, scope: ScopeId, s: ScopeId, sp: Space)
    requires PlacedType(t, ty, path, scope) && !OwnedBelow(t.registry, path, s)
    ensures OrderOf(TypeInner(m, ty, BaseOf(t, path)), s, sp) == []
  {
    if ty.Body? {
      var base := BaseOf(t, path);
      if base <= s < base + 1 + ScopesIn(ty.decls) {
        RangeOwned(t, ty.decls, path, base, s);
      } else {
        BodyElsewhere(m, ty.decls, base, s, sp);
      }
    }
  }

  lemma CoreInnerSilent(t: Table, m: Manner, core: CoreType, path: Path, scope: ScopeId, s: ScopeId, sp: Space)
    requires PlacedCore(t, core, path, scope) && !OwnedBelow(t.registry, path, s)
    ensures OrderOf(CoreInner(m, core, BaseOf(t, path)), s, sp) == []
  {
    if core.ModuleType? {
      assert Below(path, path);
      ModuleOrders(ModuleOrder(m, core.moduleDecls), BaseOf(t, path), s, sp);
    }
  }

  /** What is nested in an item emits nothing into scopes of other nodes. */
  lemma {:induction false} InnerSilent(t: Table, plan: Plan, c: Component, visit: (Section, nat), path: Path,
                                       scope: ScopeId, s: ScopeId, sp: Space)
    requires WellFormed(plan, c, path) && IsItem(c, visit) && PlacedVisit(t, plan, c, visit, path, scope)
    requires HasInside(visit) ==> !OwnedBelow(t.registry, ItemPath(visit, path), s)
    ensures OrderOf(InnerEmissions(t, plan, c, visit, path), s, sp) == []
    decreases c, 0
  {
    var (kind, i) := visit;
    match kind {
      case ComponentSection =>
        var child := path + [2, i];
        assert Below(child, child);
        forall v | v in VisitsOf(plan, c.components[i], child) && HasInside(v)
          ensures !OwnedBelow(t.registry, ItemPath(v, child), s)
        {
          if OwnedBelow(t.registry, ItemPath(v, child), s) { OwnedDeeper(t.registry, child, v, s); }
        }
        VisitsSilent(t, plan, c.components[i], VisitsOf(plan, c.components[i], child), child, t.registry[child], s, sp);
      case ComponentTypeSection => TypeInnerSilent(t, plan.manner, c.compTypes[i], path + [0, i], scope, s, sp);
      case CoreTypeSection => CoreInnerSilent(t, plan.manner, c.coreTypes[i], path + [1, i], scope, s, sp);
      case _ =>
    }
  }

  lemma {:induction false} VisitsSilent(t: Table, plan: Plan, c: Component, visits: Visiting, path: Path,
                                        scope: ScopeId, s: ScopeId, sp: Space)
    requires WellFormed(plan, c, path) && Placed(t, plan, c, path, scope) && Recorded(c, visits)
    requires s != scope
    requires forall v :: v in visits && HasInside(v) ==> !OwnedBelow(t.registry, ItemPath(v, path), s)
    ensures OrderOf(WalkEmissions(t, plan, c, visits, path, scope), s, sp) == []
    decreases c, 1, |visits|
  {
    if visits != [] {
      var n := |visits| - 1;
      assert visits[n] in visits;
      VisitPlaced(t, plan, c, visits[n], path, scope);
      VisitsSilent(t, plan, c, visits[..n], path, scope, s, sp);
      InnerSilent(t, plan, c, visits[n], path, scope, s, sp);
      ItemOrder(t, plan, c, visits[n], path, scope, s, sp);
      WalkMore(t, plan, c, visits, path, scope, s, sp, []);
    }
  }

  // ------------------------------------------------------------------------------------
  // What a scope receives comes from its own item
  // ------------------------------------------------------------------------------------

  lemma WalkDistinct(runs: Sections.Runs, j: nat, k: nat)
    requires j < k < |Sections.Walk(runs)|
    ensures Sections.Walk(runs)[j] != Sections.Walk(runs)[k]
  {
    Sections.WalkExpands(runs);
    var kinds := Sections.Expand(runs);
    if kinds[j] == kinds[k] {
      assert kinds[..k][..j] == kinds[..j] && kinds[..k][j] == kinds[j];
      PositionsFind(kinds[..k], j);
    }
  }

  predicate DistinctVisits(visits: Visiting) {
    forall i, j :: 0 <= i < j < |visits| ==> visits[i] != visits[j]
  }

  predicate VisitOrder(c: Component, visits: Visiting, order: seq<nat>) {
    IsPermutation(order) && |order| == |Sections.Walk(c.runs)| && Follows(c, visits, order)
  }

  function Find(items: Visiting, v: (Section, nat)): (j: nat)
    requires v in items
    ensures j < |items| && items[j] == v
  {
    if items[0] == v then 0 else 1 + Find(items[1..], v)
  }

  /** A list as long as the numbers it has to cover covers each once. */
  lemma CoveringIsDistinct(s: seq<nat>)
    requires forall a: nat :: a < |s| ==> a in s
    ensures Distinct(s)
  {
    forall i, j | 0 <= i < j < |s| ensures s[i] != s[j] {
      if s[i] == s[j] {
        var t := s[..j] + s[j + 1..];
        DropOne(s, j, t);
        assert t[i] == s[i];
        forall a: nat | a < |s| ensures a in t { assert a in s; }
        Topological.AllListed(t, |s|);
        assert false;
      }
    }
  }

  /** The items are visited in some order. */
  lemma OrderOfVisits(c: Component, visits: Visiting) returns (order: seq<nat>)
    requires VisitsAll(c, visits)
    ensures VisitOrder(c, visits, order)
  {
    var items := Sections.Walk(c.runs);
    order := seq(|visits|, k requires 0 <= k < |visits| => assert visits[k] in visits; Find(items, visits[k]));
    forall j: nat | j < |order| ensures j in order {
      assert items[j] in items;
      var k :| 0 <= k < |visits| && visits[k] == items[j];
      if order[k] < j { WalkDistinct(c.runs, order[k], j); } else if j < order[k] { WalkDistinct(c.runs, j, order[k]); }
      assert order[k] == j;
    }
    CoveringIsDistinct(order);
  }

  lemma FollowsDistinct(c: Component, visits: Visiting, order: seq<nat>)
    requires Follows(c, visits, order) && Distinct(order)
    ensures DistinctVisits(visits)
  {
    forall i, j | 0 <= i < j < |visits| ensures visits[i] != visits[j] {
      if order[i] < order[j] { WalkDistinct(c.runs, order[i], order[j]); }
      else { WalkDistinct(c.runs, order[j], order[i]); }
    }
  }

  lemma ItemElsewhere(t: Table, plan: Plan, c: Component, visit: (Section, nat), path: Path, scope: ScopeId, s: ScopeId,
                      sp: Space)
    requires WellFormed(plan, c, path) && IsItem(c, visit) && s != scope
    ensures OrderOf(ItemEmissions(t, plan, c, visit, path, scope), s, sp)
         == OrderOf(InnerEmissions(t, plan, c, visit, path), s, sp)
  {
    var space, ids := EntryAt(c, visit).space, OwnIds(t, c, visit, scope);
    IdOrders(scope, space, ids, s, sp);
    OrdersMore(InnerEmissions(t, plan, c, visit, path), IdEmissions(scope, space, ids), s, sp,
               OrderOf(InnerEmissions(t, plan, c, visit, path), s, sp));
  }

  /** The item whose node, or one below it, owns the scope. */
  ghost predicate Owner(registry: map<Path, ScopeId>, v: (Section, nat), path: Path, scope: ScopeId, s: ScopeId) {
    HasInside(v) && OwnedBelow(registry, ItemPath(v, path), s) && s != scope
  }

  lemma OthersSilent(t: Table, plan: Plan, c: Component, visits: Visiting, path: Path, scope: ScopeId,
                     v: (Section, nat), s: ScopeId, sp: Space)
    requires WellFormed(plan, c, path) && Placed(t, plan, c, path, scope) && Recorded(c, visits) && v !in visits
    requires OneScopeEach(t.registry) && Owner(t.registry, v, path, scope, s)
    ensures OrderOf(WalkEmissions(t, plan, c, visits, path, scope), s, sp) == []
  {
    forall u | u in visits && HasInside(u) ensures !OwnedBelow(t.registry, ItemPath(u, path), s) {
      ItemsApart(t.registry, v, u, path, s);
    }
    VisitsSilent(t, plan, c, visits, path, scope, s, sp);
  }

  lemma OtherSilent(t: Table, plan: Plan, c: Component, u: (Section, nat), path: Path, scope: ScopeId,
                    v: (Section, nat), s: ScopeId, sp: Space)
    requires WellFormed(plan, c, path) && Placed(t, plan, c, path, scope) && u in Sections.Walk(c.runs) && IsItem(c, u)
    requires u != v && OneScopeEach(t.registry) && Owner(t.registry, v, path, scope, s)
    ensures OrderOf(ItemEmissions(t, plan, c, u, path, scope), s, sp) == []
  {
    VisitPlaced(t, plan, c, u, path, scope);
    if HasInside(u) { ItemsApart(t.registry, v, u, path, s); }
    InnerSilent(t, plan, c, u, path, scope, s, sp);
    ItemElsewhere(t, plan, c, u, path, scope, s, sp);
  }

  /** A scope inside an item receives what that item emits, when it is visited. */
  lemma {:induction false} VisitReceives(t: Table, plan: Plan, c: Component, visits: Visiting, path: Path,
                                         scope: ScopeId, v: (Section, nat), s: ScopeId, sp: Space)
    requires WellFormed(plan, c, path) && Placed(t, plan, c, path, scope) && Recorded(c, visits)
    requires DistinctVisits(visits) && v in visits
    requires OneScopeEach(t.registry) && Owner(t.registry, v, path, scope, s)
    ensures OrderOf(WalkEmissions(t, plan, c, visits, path, scope), s, sp)
         == OrderOf(InnerEmissions(t, plan, c, v, path), s, sp)
    decreases |visits|
  {
    var init, u := visits[..|visits| - 1], visits[|visits| - 1];
    LastVisit(c, visits, v);
    if u == v {
      OthersSilent(t, plan, c, init, path, scope, v, s, sp);
      ItemElsewhere(t, plan, c, v, path, scope, s, sp);
    } else {
      VisitReceives(t, plan, c, init, path, scope, v, s, sp);
      OtherSilent(t, plan, c, u, path, scope, v, s, sp);
    }
    WalkMore(t, plan, c, visits, path, scope, s, sp, OrderOf(InnerEmissions(t, plan, c, v, path), s, sp));
  }

  lemma LastVisit(c: Component, visits: Visiting, v: (Section, nat))
    requires DistinctVisits(visits) && Recorded(c, visits) && v in visits
    ensures var init, u := visits[..|visits| - 1], visits[|visits| - 1];
            && DistinctVisits(init) && Recorded(c, init) && u in Sections.Walk(c.runs) && IsItem(c, u)
            && (if u == v then v !in init else v in init)
  {
    var init, u := visits[..|visits| - 1], visits[|visits| - 1];
    assert visits == init + [u] && u in visits;
  }

  lemma WalkMore(t: Table, plan: Plan, c: Component, visits: Visiting, path: Path, scope: ScopeId, s: ScopeId,
                 sp: Space, all: seq<nat>)
    requires WellFormed(plan, c, path) && visits != [] && forall v :: v in visits ==> IsItem(c, v)
    requires OrderOf(WalkEmissions(t, plan, c, visits[..|visits| - 1], path, scope), s, sp)
             + OrderOf(ItemEmissions(t, plan, c, visits[|visits| - 1], path, scope), s, sp) == all
    ensures OrderOf(WalkEmissions(t, plan, c, visits, path, scope), s, sp) == all
  {
    OrdersMore(WalkEmissions(t, plan, c, visits[..|visits| - 1], path, scope),
               ItemEmissions(t, plan, c, visits[|visits| - 1], path, scope), s, sp, all);
  }

  // ------------------------------------------------------------------------------------
  // The component's own scope
  // ------------------------------------------------------------------------------------

  lemma {:induction false} NothingUnspaced(t: Table, plan: Plan, c: Component, visits: Visiting, path: Path,
                                           scope: ScopeId)
    requires WellFormed(plan, c, path) && Placed(t, plan, c, path, scope) && Recorded(c, visits)
    ensures OrderOf(WalkEmissions(t, plan, c, visits, path, scope), scope, NA) == []
    decreases |visits|
  {
    if visits != [] {
      var n := |visits| - 1;
      assert visits[n] in visits;
      VisitPlaced(t, plan, c, visits[n], path, scope);
      NothingUnspaced(t, plan, c, visits[..n], path, scope);
      InnerElsewhere(t, plan, c, visits[n], path, scope, scope, NA);
      ItemOrder(t, plan, c, visits[n], path, scope, scope, NA);
      WalkMore(t, plan, c, visits, path, scope, scope, NA, []);
    }
  }

  /** What a component's visits come to. */
  ghost predicate Settled(t: Table, plan: Plan, c: Component, path: Path, scope: ScopeId) {
    && plan.registry == t.registry && WellFormed(plan, c, path) && Placed(t, plan, c, path, scope)
    && CompleteVisits(plan, c, path) && SingleGroups(c)
    && OneScopeEach(t.registry) && NotBelow(t.registry, path, scope)
  }

  lemma VisitsAreRecorded(t: Table, plan: Plan, c: Component, path: Path, scope: ScopeId)
    requires WellFormed(plan, c, path) && Placed(t, plan, c, path, scope)
    ensures Recorded(c, VisitsOf(plan, c, path))
  {
    var visits := VisitsOf(plan, c, path);
    forall v | v in visits ensures v in Sections.Walk(c.runs) && IsItem(c, v) {
      var j :| 0 <= j < |visits| && visits[j] == v;
    }
  }

  lemma AllAreVisited(c: Component, visits: Visiting, v: (Section, nat))
    requires VisitsAll(c, visits)
    ensures v in visits <==> v in Sections.Walk(c.runs)
    ensures DistinctVisits(visits)
  {
    var order := OrderOfVisits(c, visits);
    FollowsDistinct(c, visits, order);
  }

  /** The component's own scope receives every id of its items. */
  lemma ComponentComplete(t: Table, plan: Plan, c: Component, path: Path, scope: ScopeId)
    requires WellFormed(plan, c, path) && Placed(t, plan, c, path, scope) && VisitsAll(c, VisitsOf(plan, c, path))
    ensures ScopeComplete(t, CompEmissions(t, plan, c, path, scope), scope)
  {
    var visits := VisitsOf(plan, c, path);
    var order := OrderOfVisits(c, visits);
    ComponentEmits(t, plan, c, path, scope, order);
    HistOfIsLegal(c);
    VisitsAreRecorded(t, plan, c, path, scope);
    NothingUnspaced(t, plan, c, visits, path, scope);
    EmitsAll(t, CompEmissions(t, plan, c, path, scope), c, scope, order);
  }

  lemma EmitsAll(t: Table, es: seq<Emission>, c: Component, scope: ScopeId, order: seq<nat>)
    requires Typed(c) && Sections.Legal(HistOf(c)) && IsPermutation(order) && |order| == |HistOf(c)|
    requires Reencoding.Emits(es, scope, HistOf(c), order) && OrderOf(es, scope, NA) == []
    requires forall sp: Space :: LogAt(t, scope, sp) == if sp == NA then [] else Sections.LogOf(HistOf(c), sp)
    ensures ScopeComplete(t, es, scope)
  {
    forall sp: Space ensures SpaceComplete(t, es, scope, sp) {
      if sp != NA { Reencoding.AlongIsPermutation(HistOf(c), order, sp); }
    }
  }

  // ------------------------------------------------------------------------------------
  // The whole emission
  // ------------------------------------------------------------------------------------

  lemma ChildSettled(t: Table, plan: Plan, c: Component, i: nat, path: Path, scope: ScopeId)
    requires Settled(t, plan, c, path, scope) && i < |c.components|
    ensures PlacedChild(t, plan, c, i, path, scope)
    ensures Settled(t, plan, c.components[i], path + [2, i], t.registry[path + [2, i]])
  {
    ChildPlaced(t, plan, c, i, path, scope);
    var child := path + [2, i];
    forall p | p in t.registry && child < p ensures t.registry[p] != t.registry[child] {
      assert SameOwner(t.registry, p, child) <==> t.registry[p] == t.registry[child];
    }
  }

  /** What the parts inside an item come to. */
  ghost predicate InsideSettled(t: Table, plan: Plan, c: Component, v: (Section, nat), path: Path, scope: ScopeId)
    requires IsItem(c, v)
  {
    var (kind, i) := v;
    match kind
    case ComponentSection =>
      var child := path + [2, i];
      child in t.registry && Settled(t, plan, c.components[i], child, t.registry[child])
    case ComponentTypeSection => PlacedType(t, c.compTypes[i], path + [0, i], scope) && TreeSingle(c.compTypes[i])
    case CoreTypeSection => PlacedCore(t, c.coreTypes[i], path + [1, i], scope)
    case _ => true
  }

  lemma VisitSettled(t: Table, plan: Plan, c: Component, v: (Section, nat), path: Path, scope: ScopeId)
    requires Settled(t, plan, c, path, scope) && v in Sections.Walk(c.runs) && IsItem(c, v)
    ensures InsideSettled(t, plan, c, v, path, scope)
  {
    match v.0 {
      case ComponentSection => ChildInside(t, plan, c, v, path, scope);
      case ComponentTypeSection => TypeInside(t, plan, c, v, path, scope);
      case CoreTypeSection => CoreInside(t, plan, c, v, path, scope);
      case _ =>
    }
  }

  lemma ChildInside(t: Table, plan: Plan, c: Component, v: (Section, nat), path: Path, scope: ScopeId)
    requires Settled(t, plan, c, path, scope) && IsItem(c, v) && v.0 == ComponentSection
    ensures InsideSettled(t, plan, c, v, path, scope)
  {
    ChildSettled(t, plan, c, v.1, path, scope);
  }

  lemma TypeInside(t: Table, plan: Plan, c: Component, v: (Section, nat), path: Path, scope: ScopeId)
    requires Placed(t, plan, c, path, scope) && SingleGroups(c) && IsItem(c, v) && v.0 == ComponentTypeSection
    ensures InsideSettled(t, plan, c, v, path, scope)
  {
    TypeSettledAt(t, plan, c, v.1, path, scope);
  }

  lemma CoreInside(t: Table, plan: Plan, c: Component, v: (Section, nat), path: Path, scope: ScopeId)
    requires Placed(t, plan, c, path, scope) && IsItem(c, v) && v.0 == CoreTypeSection
    ensures InsideSettled(t, plan, c, v, path, scope)
  {
    CorePlacedAt(t, plan, c, v.1, path, scope);
  }

  lemma TypeSettledAt(t: Table, plan: Plan, c: Component, i: nat, path: Path, scope: ScopeId)
    requires Placed(t, plan, c, path, scope) && SingleGroups(c) && i < |c.compTypes|
    ensures PlacedType(t, c.compTypes[i], path + [0, i], scope) && TreeSingle(c.compTypes[i])
  {
  }

  lemma CorePlacedAt(t: Table, plan: Plan, c: Component, i: nat, path: Path, scope: ScopeId)
    requires Placed(t, plan, c, path, scope) && i < |c.coreTypes|
    ensures PlacedCore(t, c.coreTypes[i], path + [1, i], scope)
  {
  }

  lemma {:induction false} InnerPermutes(t: Table, plan: Plan, c: Component, v: (Section, nat), path: Path,
                                         scope: ScopeId, s: ScopeId, sp: Space)
    requires WellFormed(plan, c, path) && IsItem(c, v) && InsideSettled(t, plan, c, v, path, scope)
    ensures IsPermutation(OrderOf(InnerEmissions(t, plan, c, v, path), s, sp))
    decreases c, 0
  {
    var (kind, i) := v;
    match kind {
      case ComponentSection =>
        ComponentPermutes(t, plan, c.components[i], path + [2, i], t.registry[path + [2, i]], s, sp);
      case ComponentTypeSection => TypePermutes(t, plan.manner, c.compTypes[i], path + [0, i], scope, s, sp);
      case CoreTypeSection => CorePermutes(t, plan.manner, c.coreTypes[i], path + [1, i], scope, s, sp);
      case _ =>
    }
  }

  lemma TypePermutes(t: Table, m: Manner, ty: CompType, path: Path, scope: ScopeId, s: ScopeId, sp: Space)
    requires PlacedType(t, ty, path, scope) && TreeSingle(ty)
    ensures IsPermutation(OrderOf(TypeInner(m, ty, BaseOf(t, path)), s, sp))
  {
    if ty.Body? {
      var base := BaseOf(t, path);
      if base <= s < base + 1 + ScopesIn(ty.decls) {
        BodyComplete(t, m, ty.kind, ty.decls, path, base, s);
        assert SpaceComplete(t, BodyEmissions(m, ty.decls, base), s, sp);
      } else {
        BodyElsewhere(m, ty.decls, base, s, sp);
      }
    }
  }

  lemma CorePermutes(t: Table, m: Manner, core: CoreType, path: Path, scope: ScopeId, s: ScopeId, sp: Space)
    requires PlacedCore(t, core, path, scope)
    ensures IsPermutation(OrderOf(CoreInner(m, core, BaseOf(t, path)), s, sp))
  {
    if core.ModuleType? {
      ModuleOrders(ModuleOrder(m, core.moduleDecls), BaseOf(t, path), s, sp);
      ModuleOrderCovers(m, core.moduleDecls);
    }
  }

  lemma OwnerReceives(t: Table, plan: Plan, c: Component, path: Path, scope: ScopeId, v: (Section, nat), s: ScopeId,
                      sp: Space)
    requires Settled(t, plan, c, path, scope) && Owner(t.registry, v, path, scope, s)
    requires v in VisitsOf(plan, c, path) && IsItem(c, v)
    ensures OrderOf(CompEmissions(t, plan, c, path, scope), s, sp)
         == OrderOf(InnerEmissions(t, plan, c, v, path), s, sp)
  {
    VisitsAreRecorded(t, plan, c, path, scope);
    AllAreVisited(c, VisitsOf(plan, c, path), v);
    VisitReceives(t, plan, c, VisitsOf(plan, c, path), path, scope, v, s, sp);
  }

  lemma {:induction false} ComponentPermutes(t: Table, plan: Plan, c: Component, path: Path, scope: ScopeId,
                                             s: ScopeId, sp: Space)
    requires Settled(t, plan, c, path, scope)
    ensures IsPermutation(OrderOf(CompEmissions(t, plan, c, path, scope), s, sp))
    decreases c, 1
  {
    var visits := VisitsOf(plan, c, path);
    VisitsAreRecorded(t, plan, c, path, scope);
    if s == scope {
      ComponentComplete(t, plan, c, path, scope);
      assert SpaceComplete(t, CompEmissions(t, plan, c, path, scope), scope, sp);
    } else if v :| v in visits && Owner(t.registry, v, path, scope, s) {
      VisitSettled(t, plan, c, v, path, scope);
      InnerPermutes(t, plan, c, v, path, scope, s, sp);
      OwnerReceives(t, plan, c, path, scope, v, s, sp);
    } else {
      NoOwner(t, plan, c, path, scope, s, sp);
    }
  }

  /** A scope no visited item owns receives nothing. */
  lemma NoOwner(t: Table, plan: Plan, c: Component, path: Path, scope: ScopeId, s: ScopeId, sp: Space)
    requires WellFormed(plan, c, path) && Placed(t, plan, c, path, scope) && s != scope
    requires forall v :: v in VisitsOf(plan, c, path) ==> !Owner(t.registry, v, path, scope, s)
    ensures OrderOf(CompEmissions(t, plan, c, path, scope), s, sp) == []
  {
    VisitsAreRecorded(t, plan, c, path, scope);
    forall v | v in VisitsOf(plan, c, path) && HasInside(v) ensures !OwnedBelow(t.registry, ItemPath(v, path), s) {
      assert !Owner(t.registry, v, path, scope, s);
    }
    VisitsSilent(t, plan, c, VisitsOf(plan, c, path), path, scope, s, sp);
  }

  /** Where every item is visited once, at every nesting depth, and every group inside a type body
      holds one type, the whole emission is complete: each space of each scope receives each of its
      ids, once. */
  lemma EmissionIsComplete(t: Table, plan: Plan, c: Component, root: ScopeId)
    requires Settled(t, plan, c, [], root)
    ensures WellEmitted(CompEmissions(t, plan, c, [], root))
  {
    var es := CompEmissions(t, plan, c, [], root);
    forall s: ScopeId, sp: Space ensures IsPermutation(OrderOf(es, s, sp)) {
      ComponentPermutes(t, plan, c, [], root, s, sp);
    }
  }
}
