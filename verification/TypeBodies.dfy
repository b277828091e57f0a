/** Assigning actual ids along a walk over nested type definitions. Assumed ids are handed out
    when a body is entered, actual ones as its declarations are visited, and a nested type's own
    when it is left; this says exactly when the two agree inside. */
module TypeBodies {
  import opened Prelude
  import opened Spaces
  import opened Types
  import opened IndexSpaces
  import opened ActualIds
  import opened FixIndices
  import opened Reindex
  import opened Orders
  import opened TypeTrees
  import opened Encoder
  import opened Scopes
  import Topological

  /** The walk so far: the ids emitted, the scope stack, and per open node whether it opened a
      scope. */
  datatype Walk = Walk(emitted: seq<Emission>, stack: seq<ScopeId>, nested: seq<bool>)

  function EnterNode(t: Table, w: Walk, path: Path): Walk {
    if path in t.registry then Walk(w.emitted, w.stack + [t.registry[path]], w.nested + [true])
    else w.(nested := w.nested + [false])
  }

  function ExitNode(t: Table, w: Walk, path: Path): Option<Walk> {
    if w.nested == [] || w.nested[|w.nested| - 1] != (path in t.registry) then None
    else if path !in t.registry then Some(w.(nested := w.nested[..|w.nested| - 1]))
    else if w.stack == [] then None
    else Some(Walk(w.emitted, w.stack[..|w.stack| - 1], w.nested[..|w.nested| - 1]))
  }

  /** The scope a node's own id lives in: the parent's if the node opened a scope. */
  function HomeScope(w: Walk): Option<ScopeId> {
    var up := if w.nested != [] && w.nested[|w.nested| - 1] then 2 else 1;
    if |w.stack| < up then None else Some(w.stack[|w.stack| - up])
  }

  /** The assumed id of the `sub`-th item of a slot; the code aborts when there is none. A slot
      with a single id answers with it at every sub-position: only a debug assertion says that
      the sub-position is the first. */
  function LookupId(t: Table, scope: Option<ScopeId>, space: Space, slot: Slot, sub: nat): Option<nat> {
    if scope.None? then None
    else
      var ids := Positions(LogAt(t, scope.value, space), slot);
      if |ids| == 1 then Some(ids[0])
      else if sub < |ids| then Some(ids[sub])
      else None
  }

  /** Items outside recursion groups must have exactly one id. */
  function LookupOnlyId(t: Table, scope: Option<ScopeId>, space: Space, slot: Slot): Option<nat> {
    if scope.Some? && |Positions(LogAt(t, scope.value, space), slot)| == 1 then LookupId(t, scope, space, slot, 0)
    else None
  }

  function Emit(w: Walk, scope: Option<ScopeId>, space: Space, id: Option<nat>): Option<Walk> {
    if scope.None? || id.None? then None
    else Some(w.(emitted := w.emitted + [Emission(scope.value, space, id.value)]))
  }

  function Innermost(w: Walk): Option<ScopeId> {
    if w.stack == [] then None else Some(w.stack[|w.stack| - 1])
  }

  function Leave(t: Table, w: Option<Walk>, path: Path): Option<Walk> {
    if w.None? then None else ExitNode(t, w.value, path)
  }

  /** One event: what the driver looks up and what the assigner records. */
  function AssignStep(t: Table, w: Walk, ev: Event): Option<Walk> {
    match ev
    case EnterCompType(idx, path, ty) =>
      var v := EnterNode(t, w, path);
      var id := LookupOnlyId(t, HomeScope(v), Space.CompType, Slot(Main, idx));
      if id.None? then None
      else if ty.Leaf? then Emit(v, Innermost(v), Space.CompType, id)
      else Some(v)
    case ExitCompType(idx, path, ty) =>
      var id := LookupOnlyId(t, HomeScope(w), Space.CompType, Slot(Main, idx));
      if id.None? then None
      else Leave(t, if ty.Body? then Emit(w, HomeScope(w), Space.CompType, id) else Some(w), path)
    case DeclEvent(_, i, d) =>
      var id := LookupOnlyId(t, Innermost(w), DeclSpace(d), Slot(Main, i));
      if id.None? then None
      else if d.TypeDecl? || d.CoreTypeDecl? then Some(w)
      else Emit(w, Innermost(w), DeclSpace(d), id)
    case EnterRecGroup(_) => Some(w)
    case SubTypeEvent(parent, sub) =>
      Emit(w, Innermost(w), Space.CoreType, LookupId(t, Innermost(w), Space.CoreType, Slot(Main, parent), sub))
    case ExitRecGroup => Some(w)
    case EnterCoreType(idx, path, _) =>
      var v := EnterNode(t, w, path);
      if LookupOnlyId(t, HomeScope(v), Space.CoreType, Slot(Main, idx)).None? then None else Some(v)
    case ModuleDeclEvent(i, d) =>
      Emit(w, Innermost(w), ModuleDeclSpace(d), LookupOnlyId(t, Innermost(w), ModuleDeclSpace(d), Slot(Main, i)))
    case ExitCoreType(idx, path, _) =>
      Leave(t, Emit(w, HomeScope(w), Space.CoreType, LookupOnlyId(t, HomeScope(w), Space.CoreType, Slot(Main, idx))),
            path)
  }

  function AssignStepper(t: Table): (Walk, Event) -> Option<Walk> {
    (w, ev) => AssignStep(t, w, ev)
  }

  function AssignRun(t: Table, w: Walk, evs: seq<Event>): Option<Walk> {
    Fold(AssignStepper(t), w, evs)
  }

  lemma AssignRunSnoc(t: Table, w: Walk, evs: seq<Event>, ev: Event)
    ensures AssignRun(t, w, evs + [ev])
         == match AssignRun(t, w, evs) case None => None case Some(mid) => AssignStep(t, mid, ev)
  {
    FoldSnoc(AssignStepper(t), w, evs, ev);
  }

  lemma AssignRunConcat(t: Table, w: Walk, a: seq<Event>, b: seq<Event>)
    ensures AssignRun(t, w, a + b) == match AssignRun(t, w, a) case None => None case Some(mid) => AssignRun(t, mid, b)
  {
    FoldConcat(AssignStepper(t), w, a, b);
  }

  lemma AssignRunThree(t: Table, w: Walk, first: Event, middle: seq<Event>, last: Event)
    ensures AssignRun(t, w, [first] + middle + [last])
         == match AssignStep(t, w, first)
            case None => None
            case Some(a) => match AssignRun(t, a, middle) case None => None case Some(b) => AssignStep(t, b, last)
  {
    FoldThree(AssignStepper(t), w, first, middle, last);
  }


  /** All that has been emitted after these events. */
  function EmittedBy(t: Table, w: Walk, evs: seq<Event>): seq<Emission> {
    match AssignRun(t, w, evs)
    case None => w.emitted
    case Some(after) => after.emitted
  }

  // ------------------------------------------------------------------------------------
  // What a subtree emits
  // ------------------------------------------------------------------------------------

  /** How often a declaration emits its one id: a group once per type it holds. */
  function Copies(d: Decl): nat {
    match d
    case CoreTypeDecl(core) => CoreCopies(core)
    case _ => 1
  }

  function CoreCopies(core: CoreType): nat {
    if core.Rec? then |core.group.subs| else 1
  }

  function CopiesOf(decls: seq<Decl>): (r: seq<nat>)
    ensures |r| == |decls|
  {
    Map(Copies, decls)
  }

  /** The scopes of a tree are numbered from `base`; its root's own id is `own`, in scope `home`. */
  function ModuleEmissions(order: seq<nat>, base: ScopeId): seq<Emission> {
    if order == [] then []
    else ModuleEmissions(order[..|order| - 1], base) + [Emission(base, Space.CoreType, order[|order| - 1])]
  }

  function CoreEmissions(m: Manner, core: CoreType, home: ScopeId, own: nat, base: ScopeId): seq<Emission> {
    match core
    case Rec(group) => Repeat(Emission(home, Space.CoreType, own), |group.subs|)
    case ModuleType(decls) => ModuleEmissions(ModuleOrder(m, decls), base) + [Emission(home, Space.CoreType, own)]
  }

  /** A body's own id is assigned when the body is left, after those of everything inside it. */
  function TypeEmissions(m: Manner, ty: CompType, home: ScopeId, own: nat, base: ScopeId): seq<Emission>
    decreases ty, 1
  {
    match ty
    case Leaf(_) => [Emission(home, Space.CompType, own)]
    case Body(_, decls) => BodyEmissions(m, decls, base) + [Emission(home, Space.CompType, own)]
  }

  /** The id of each declaration: the number of earlier ones of its space. */
  function Ids(decls: seq<Decl>): (r: seq<nat>)
    ensures |r| == |decls|
  {
    if decls == [] then []
    else
      var n := |decls| - 1;
      Ids(decls[..n]) + [|DeclLog(decls[..n], DeclSpace(decls[n]))|]
  }

  /** Where the scopes of each declaration begin. */
  function Starts(decls: seq<Decl>, base: ScopeId): (r: seq<nat>)
    ensures |r| == |decls|
  {
    if decls == [] then []
    else
      var n := |decls| - 1;
      Starts(decls[..n], base) + [base + ScopesIn(decls[..n])]
  }

  /** What the declarations of a body emit, in the order of the visits. */
  function BodyEmissions(m: Manner, decls: seq<Decl>, base: ScopeId): seq<Emission>
    decreases decls, 1
  {
    Joined(DeclParts(m, decls, Ids(decls), Starts(decls, base + 1), base), BodyOrder(m, decls))
  }

  function DeclParts(m: Manner, decls: seq<Decl>, ids: seq<nat>, starts: seq<nat>, scope: ScopeId):
      (r: seq<seq<Emission>>)
    requires |ids| == |starts| == |decls|
    ensures |r| == |decls|
    decreases decls, 0
  {
    seq(|decls|, i requires 0 <= i < |decls| => DeclEmissions(m, decls[i], scope, ids[i], starts[i]))
  }

  function DeclEmissions(m: Manner, d: Decl, scope: ScopeId, own: nat, base: ScopeId): seq<Emission>
    decreases d, 0
  {
    match d
    case TypeDecl(ty) => TypeEmissions(m, ty, scope, own, base)
    case CoreTypeDecl(core) => CoreEmissions(m, core, scope, own, base)
    case _ => [Emission(scope, DeclSpace(d), own)]
  }

  // ------------------------------------------------------------------------------------
  // The walk over a laid-out tree succeeds and emits just that
  // ------------------------------------------------------------------------------------

  /** Back at the place of `w`, having emitted `es` more. */
  function Further(w: Walk, es: seq<Emission>): Walk {
    w.(emitted := w.emitted + es)
  }

  /** The walk inside a node that owns scope `base`. */
  function Inside(w: Walk, base: ScopeId): Walk {
    Walk(w.emitted, w.stack + [base], w.nested + [true])
  }

  predicate StandsIn(w: Walk, scope: ScopeId) {
    w.stack != [] && w.stack[|w.stack| - 1] == scope
  }

  /** The walk stands in scope `home`, where the slot at position `i` has the one id `own`. */
  predicate Knows(t: Table, w: Walk, home: ScopeId, space: Space, i: nat, own: nat) {
    StandsIn(w, home) && Positions(LogAt(t, home, space), Slot(Main, i)) == [own]
  }

  lemma NodeEntered(t: Table, w: Walk, path: Path, base: ScopeId, home: ScopeId, es: seq<Emission>)
    requires Owns(t, path, base) && StandsIn(w, home)
    ensures EnterNode(t, w, path) == Inside(w, base)
    ensures HomeScope(Further(Inside(w, base), es)) == Some(home)
    ensures ExitNode(t, Further(Inside(w, base), es), path) == Some(Further(w, es))
  {
    assert (w.stack + [base])[..|w.stack|] == w.stack && (w.nested + [true])[..|w.nested|] == w.nested;
  }

  lemma ModuleEnds(t: Table, w: Walk, core: CoreType, i: nat, path: Path, home: ScopeId, own: nat, base: nat,
                   es: seq<Emission>)
    requires Owns(t, path, base) && Knows(t, w, home, Space.CoreType, i, own)
    ensures AssignStep(t, w, EnterCoreType(i, path, core)) == Some(Inside(w, base))
    ensures AssignStep(t, Further(Inside(w, base), es), ExitCoreType(i, path, core))
         == Some(Further(w, es + [Emission(home, Space.CoreType, own)]))
  {
    var out := es + [Emission(home, Space.CoreType, own)];
    NodeEntered(t, w, path, base, home, []);
    assert Further(Inside(w, base), []) == Inside(w, base) by { assert w.emitted + [] == w.emitted; }
    NodeEntered(t, w, path, base, home, es);
    NodeEntered(t, w, path, base, home, out);
    assert w.emitted + es + [Emission(home, Space.CoreType, own)] == w.emitted + out;
  }

  lemma BodyEnds(t: Table, w: Walk, ty: CompType, i: nat, path: Path, home: ScopeId, own: nat, base: nat,
                 es: seq<Emission>)
    requires ty.Body? && Owns(t, path, base) && Knows(t, w, home, Space.CompType, i, own)
    ensures AssignStep(t, w, EnterCompType(i, path, ty)) == Some(Inside(w, base))
    ensures AssignStep(t, Further(Inside(w, base), es), ExitCompType(i, path, ty))
         == Some(Further(w, es + [Emission(home, Space.CompType, own)]))
  {
    var out := es + [Emission(home, Space.CompType, own)];
    NodeEntered(t, w, path, base, home, []);
    assert Further(Inside(w, base), []) == Inside(w, base) by { assert w.emitted + [] == w.emitted; }
    NodeEntered(t, w, path, base, home, es);
    NodeEntered(t, w, path, base, home, out);
    assert w.emitted + es + [Emission(home, Space.CompType, own)] == w.emitted + out;
  }

  lemma {:induction false} ModuleIds(decls: seq<ModuleDecl>, i: nat)
    requires i < |decls|
    ensures Positions(ModuleLog(decls, Space.CoreType), Slot(Main, i)) == [i]
    ensures |ModuleLog(decls, Space.CoreType)| == |decls|
  {
    var n := |decls| - 1;
    var init := ModuleLog(decls[..n], Space.CoreType);
    ModuleLogBelow(decls[..n]);
    if i == n {
      SlotSeen(init, Slot(Main, n));
      PositionsSnoc(init, Slot(Main, n), Slot(Main, n));
    } else {
      ModuleIds(decls[..n], i);
      PositionsSnoc(init, Slot(Main, n), Slot(Main, i));
    }
  }

  lemma {:induction false} ModuleLogBelow(decls: seq<ModuleDecl>)
    ensures |ModuleLog(decls, Space.CoreType)| == |decls|
    ensures forall s :: s in ModuleLog(decls, Space.CoreType) ==> s.vec < |decls|
    ensures forall space :: space != Space.CoreType ==> ModuleLog(decls, space) == []
  {
    if decls != [] { ModuleLogBelow(decls[..|decls| - 1]); }
  }

  lemma {:induction false} ModuleDeclsRun(t: Table, w: Walk, decls: seq<ModuleDecl>, order: seq<nat>, scope: ScopeId)
    requires Topological.AllBelow(order, |decls|) && StandsIn(w, scope)
    requires LogAt(t, scope, Space.CoreType) == ModuleLog(decls, Space.CoreType)
    ensures AssignRun(t, w, ModuleDeclEvents(decls, order)) == Some(Further(w, ModuleEmissions(order, scope)))
  {
    if order == [] {
      assert w.emitted + [] == w.emitted;
    } else {
      var n := |order| - 1;
      ModuleDeclsRun(t, w, decls, order[..n], scope);
      ModuleIds(decls, order[n]);
      AssignRunSnoc(t, w, ModuleDeclEvents(decls, order[..n]), ModuleDeclEvent(order[n], decls[order[n]]));
      FurtherTwice(w, ModuleEmissions(order[..n], scope), [Emission(scope, Space.CoreType, order[n])]);
    }
  }

  lemma RepeatMore<T>(x: T, n: nat)
    ensures Repeat(x, n + 1) == Repeat(x, n) + [x]
  {
  }

  lemma {:induction false} SubTypesOfOneId(t: Table, w: Walk, i: nat, home: ScopeId, own: nat, n: nat)
    requires Knows(t, w, home, Space.CoreType, i, own)
    ensures AssignRun(t, w, SubTypeEvents(i, n)) == Some(Further(w, Repeat(Emission(home, Space.CoreType, own), n)))
  {
    var e := Emission(home, Space.CoreType, own);
    if n == 0 {
      assert w.emitted + Repeat(e, 0) == w.emitted;
    } else {
      SubTypesOfOneId(t, w, i, home, own, n - 1);
      AssignRunSnoc(t, w, SubTypeEvents(i, n - 1), SubTypeEvent(i, n - 1));
      RepeatMore(e, n - 1);
      FurtherTwice(w, Repeat(e, n - 1), [e]);
    }
  }

  /** A group inside a body has one id, handed out once; it is emitted once per type of the group,
      so not at all for an empty group, and the tracker runs ahead for a larger one. */
  lemma GroupRun(t: Table, w: Walk, m: Manner, group: RecGroup, i: nat, path: Path, home: ScopeId, own: nat)
    requires Knows(t, w, home, Space.CoreType, i, own)
    ensures AssignRun(t, w, CoreTypeEvents(m, Rec(group), i, path))
         == Some(Further(w, Repeat(Emission(home, Space.CoreType, own), |group.subs|)))
  {
    SubTypesOfOneId(t, w, i, home, own, |group.subs|);
    AssignRunThree(t, w, EnterRecGroup(group), SubTypeEvents(i, |group.subs|), ExitRecGroup);
  }

  /** A build with debug assertions: a slot with a single id is asked for its first type only. */
  function DebugStep(t: Table, w: Walk, ev: Event): Option<Walk> {
    match ev
    case SubTypeEvent(parent, sub) =>
      if sub > 0 && LookupOnlyId(t, Innermost(w), Space.CoreType, Slot(Main, parent)).Some? then None
      else AssignStep(t, w, ev)
    case _ => AssignStep(t, w, ev)
  }

  function DebugStepper(t: Table): (Walk, Event) -> Option<Walk> {
    (w, ev) => DebugStep(t, w, ev)
  }

  function DebugRun(t: Table, w: Walk, evs: seq<Event>): Option<Walk> {
    Fold(DebugStepper(t), w, evs)
  }

  lemma DebugRunThree(t: Table, w: Walk, first: Event, middle: seq<Event>, last: Event)
    ensures DebugRun(t, w, [first] + middle + [last])
         == match DebugStep(t, w, first)
            case None => None
            case Some(a) => match DebugRun(t, a, middle) case None => None case Some(b) => DebugStep(t, b, last)
  {
    FoldThree(DebugStepper(t), w, first, middle, last);
  }

  lemma {:induction false} DebugSubTypes(t: Table, w: Walk, i: nat, home: ScopeId, own: nat, n: nat)
    requires Knows(t, w, home, Space.CoreType, i, own)
    ensures DebugRun(t, w, SubTypeEvents(i, n)) == if n < 2 then AssignRun(t, w, SubTypeEvents(i, n)) else None
  {
    if n > 0 {
      DebugSubTypes(t, w, i, home, own, n - 1);
      SubTypesOfOneId(t, w, i, home, own, n - 1);
      AssignRunSnoc(t, w, SubTypeEvents(i, n - 1), SubTypeEvent(i, n - 1));
      FoldSnoc(DebugStepper(t), w, SubTypeEvents(i, n - 1), SubTypeEvent(i, n - 1));
    }
  }

  /** With debug assertions a group of two or more types inside a body aborts, and only such. */
  lemma DebugBuildStopsAtLargeGroups(t: Table, w: Walk, m: Manner, group: RecGroup, i: nat, path: Path, home: ScopeId,
                                     own: nat)
    requires Knows(t, w, home, Space.CoreType, i, own)
    ensures var evs := CoreTypeEvents(m, Rec(group), i, path);
            && (|group.subs| < 2 ==> DebugRun(t, w, evs) == AssignRun(t, w, evs))
            && (|group.subs| >= 2 ==> DebugRun(t, w, evs) == None)
  {
    DebugSubTypes(t, w, i, home, own, |group.subs|);
    AssignRunThree(t, w, EnterRecGroup(group), SubTypeEvents(i, |group.subs|), ExitRecGroup);
    DebugRunThree(t, w, EnterRecGroup(group), SubTypeEvents(i, |group.subs|), ExitRecGroup);
  }

  lemma ModuleRun(t: Table, w: Walk, m: Manner, decls: seq<ModuleDecl>, i: nat, path: Path, home: ScopeId, own: nat,
                  base: nat)
    requires CoreLaid(t, ModuleType(decls), path, base) && Knows(t, w, home, Space.CoreType, i, own)
    ensures AssignRun(t, w, CoreTypeEvents(m, ModuleType(decls), i, path))
         == Some(Further(w, CoreEmissions(m, ModuleType(decls), home, own, base)))
  {
    var core, order := ModuleType(decls), ModuleOrder(m, decls);
    ModuleDeclsRun(t, Inside(w, base), decls, order, base);
    ModuleEnds(t, w, core, i, path, home, own, base, ModuleEmissions(order, base));
    AssignRunThree(t, w, EnterCoreType(i, path, core), ModuleDeclEvents(decls, order), ExitCoreType(i, path, core));
  }

  lemma LeafRun(t: Table, w: Walk, m: Manner, leaf: LeafType, i: nat, path: Path, home: ScopeId, own: nat, base: nat)
    requires path !in t.registry && Knows(t, w, home, Space.CompType, i, own)
    ensures AssignRun(t, w, CompTypeEvents(m, Leaf(leaf), i, path))
         == Some(Further(w, TypeEmissions(m, Leaf(leaf), home, own, base)))
  {
    var ty := Leaf(leaf);
    AssignRunThree(t, w, EnterCompType(i, path, ty), [], ExitCompType(i, path, ty));
    assert (w.nested + [false])[..|w.nested|] == w.nested;
  }

  lemma {:induction false} CompTypeRun(t: Table, w: Walk, m: Manner, ty: CompType, i: nat, path: Path, home: ScopeId,
                                       own: nat, base: nat)
    requires Laid(t, ty, path, base) && Knows(t, w, home, Space.CompType, i, own)
    ensures AssignRun(t, w, CompTypeEvents(m, ty, i, path)) == Some(Further(w, TypeEmissions(m, ty, home, own, base)))
    decreases ty, 1
  {
    match ty {
      case Leaf(leaf) => LeafRun(t, w, m, leaf, i, path, home, own, base);
      case Body(kind, decls) =>
        BodyDeclsRun(t, Inside(w, base), m, kind, decls, path, base);
        BodyRun(t, w, m, kind, decls, i, path, home, own, base);
    }
  }

  lemma {:induction false} BodyDeclsRun(t: Table, w: Walk, m: Manner, kind: BodyKind, decls: seq<Decl>, path: Path,
                                        base: nat)
    requires Laid(t, Body(kind, decls), path, base) && StandsIn(w, base)
    ensures Owns(t, path, base)
    ensures AssignRun(t, w, DeclsEvents(m, kind, decls, BodyOrder(m, decls), path))
         == Some(Further(w, BodyEmissions(m, decls, base)))
    decreases decls, 2
  {
    BodyReady(t, kind, decls, path, base);
    DeclsRun(t, w, m, kind, decls, Ids(decls), Starts(decls, base + 1), BodyOrder(m, decls), path, base);
  }

  /** A body, given the run of its declarations. */
  lemma BodyRun(t: Table, w: Walk, m: Manner, kind: BodyKind, decls: seq<Decl>, i: nat, path: Path, home: ScopeId,
                own: nat, base: nat)
    requires Owns(t, path, base) && Knows(t, w, home, Space.CompType, i, own)
    requires AssignRun(t, Inside(w, base), DeclsEvents(m, kind, decls, BodyOrder(m, decls), path))
          == Some(Further(Inside(w, base), BodyEmissions(m, decls, base)))
    ensures AssignRun(t, w, CompTypeEvents(m, Body(kind, decls), i, path))
         == Some(Further(w, TypeEmissions(m, Body(kind, decls), home, own, base)))
  {
    var ty := Body(kind, decls);
    BodyEnds(t, w, ty, i, path, home, own, base, BodyEmissions(m, decls, base));
    AssignRunThree(t, w, EnterCompType(i, path, ty), DeclsEvents(m, kind, decls, BodyOrder(m, decls), path),
                   ExitCompType(i, path, ty));
  }

  ghost predicate OwnLog(t: Table, scope: ScopeId, decls: seq<Decl>) {
    forall space :: LogAt(t, scope, space) == DeclLog(decls, space)
  }

  lemma {:induction false} LogLength(decls: seq<Decl>, sp: Space)
    ensures |DeclLog(decls, sp)| == |Positions(DeclSpaces(decls), sp)|
  {
    if decls != [] {
      var n := |decls| - 1;
      LogLength(decls[..n], sp);
      assert DeclSpaces(decls)[..n] == DeclSpaces(decls[..n]);
    }
  }

  lemma IdIsLogged(decls: seq<Decl>, i: nat)
    requires i < |decls|
    ensures |DeclLog(decls[..i], DeclSpace(decls[i]))| == IdAt(DeclSpaces(decls), i)
  {
    LogLength(decls[..i], DeclSpace(decls[i]));
    assert DeclSpaces(decls)[..i] == DeclSpaces(decls[..i]);
  }

  lemma {:induction false} IdsAre(decls: seq<Decl>, i: nat)
    requires i < |decls|
    ensures Ids(decls)[i] == |DeclLog(decls[..i], DeclSpace(decls[i]))|
  {
    var n := |decls| - 1;
    if i < n {
      assert decls[..n][..i] == decls[..i];
      IdsAre(decls[..n], i);
    }
  }

  lemma {:induction false} LaidAt(t: Table, decls: seq<Decl>, path: Path, base: nat, i: nat)
    requires LaidDecls(t, decls, path, base) && i < |decls|
    ensures LaidDecl(t, decls[i], path + [i], Starts(decls, base)[i])
  {
    var n := |decls| - 1;
    if i < n { LaidAt(t, decls[..n], path, base, i); }
  }

  /** A declaration laid out at `base`, about to be walked from `w`. */
  ghost predicate Ready(t: Table, w: Walk, d: Decl, i: nat, path: Path, scope: ScopeId, own: nat, base: nat) {
    LaidDecl(t, d, path + [i], base) && Knows(t, w, scope, DeclSpace(d), i, own)
  }

  lemma DeclReady(t: Table, w: Walk, decls: seq<Decl>, i: nat, path: Path, scope: ScopeId, base: nat)
    requires i < |decls| && LaidDecls(t, decls, path, base) && OwnLog(t, scope, decls) && StandsIn(w, scope)
    ensures Ready(t, w, decls[i], i, path, scope, Ids(decls)[i], Starts(decls, base)[i])
  {
    LaidAt(t, decls, path, base, i);
    DeclIds(decls, i);
    IdsAre(decls, i);
  }

  ghost predicate EachReady(t: Table, decls: seq<Decl>, ids: seq<nat>, starts: seq<nat>, path: Path, scope: ScopeId)
    requires |ids| == |starts| == |decls|
  {
    forall w: Walk, i {:trigger Ready(t, w, decls[i], i, path, scope, ids[i], starts[i])} ::
      0 <= i < |decls| && StandsIn(w, scope) ==> Ready(t, w, decls[i], i, path, scope, ids[i], starts[i])
  }

  lemma DeclsReady(t: Table, decls: seq<Decl>, path: Path, scope: ScopeId, base: nat)
    requires LaidDecls(t, decls, path, base) && OwnLog(t, scope, decls)
    ensures EachReady(t, decls, Ids(decls), Starts(decls, base), path, scope)
  {
    forall w: Walk, i | 0 <= i < |decls| && StandsIn(w, scope)
      ensures Ready(t, w, decls[i], i, path, scope, Ids(decls)[i], Starts(decls, base)[i])
    {
      DeclReady(t, w, decls, i, path, scope, base);
    }
  }

  lemma BodyReady(t: Table, kind: BodyKind, decls: seq<Decl>, path: Path, base: nat)
    requires Laid(t, Body(kind, decls), path, base)
    ensures Owns(t, path, base) && EachReady(t, decls, Ids(decls), Starts(decls, base + 1), path, base)
  {
    DeclsReady(t, decls, path, base, base + 1);
  }

  lemma {:induction false} DeclsRun(t: Table, w: Walk, m: Manner, kind: BodyKind, decls: seq<Decl>, ids: seq<nat>,
                                    starts: seq<nat>, order: seq<nat>, path: Path, scope: ScopeId)
    requires Topological.AllBelow(order, |decls|) && |ids| == |starts| == |decls| && StandsIn(w, scope)
    requires EachReady(t, decls, ids, starts, path, scope)
    ensures AssignRun(t, w, DeclsEvents(m, kind, decls, order, path))
         == Some(Further(w, Joined(DeclParts(m, decls, ids, starts, scope), order)))
    decreases decls, 1, |order|
  {
    if order == [] {
      assert w.emitted + [] == w.emitted;
    } else {
      var init, i := order[..|order| - 1], order[|order| - 1];
      var parts := DeclParts(m, decls, ids, starts, scope);
      DeclsRun(t, w, m, kind, decls, ids, starts, init, path, scope);
      var mid := Further(w, Joined(parts, init));
      assert Ready(t, mid, decls[i], i, path, scope, ids[i], starts[i]);
      DeclRun(t, mid, m, kind, decls[i], i, path, scope, ids[i], starts[i]);
      RunsMore(t, w, DeclsEvents(m, kind, decls, init, path), DeclEvents(m, kind, decls[i], i, path),
               DeclsEvents(m, kind, decls, order, path), Joined(parts, init), parts[i], Joined(parts, order));
    }
  }

  lemma FurtherTwice(w: Walk, a: seq<Emission>, b: seq<Emission>)
    ensures Further(Further(w, a), b) == Further(w, a + b)
  {
    assert w.emitted + a + b == w.emitted + (a + b);
  }

  lemma RunsMore(t: Table, w: Walk, a: seq<Event>, b: seq<Event>, both: seq<Event>, xs: seq<Emission>,
                 ys: seq<Emission>, all: seq<Emission>)
    requires AssignRun(t, w, a) == Some(Further(w, xs))
    requires AssignRun(t, Further(w, xs), b) == Some(Further(Further(w, xs), ys))
    requires both == a + b && all == xs + ys
    ensures AssignRun(t, w, both) == Some(Further(w, all))
  {
    FurtherTwice(w, xs, ys);
    AssignRunConcat(t, w, a, b);
  }

  lemma {:induction false} DeclRun(t: Table, w: Walk, m: Manner, kind: BodyKind, d: Decl, i: nat, path: Path,
                                   scope: ScopeId, own: nat, base: nat)
    requires Ready(t, w, d, i, path, scope, own, base)
    ensures AssignRun(t, w, DeclEvents(m, kind, d, i, path)) == Some(Further(w, DeclEmissions(m, d, scope, own, base)))
    decreases d, 0
  {
    DeclAssignedFirst(t, w, m, kind, d, i, path, scope, own);
    match d {
      case TypeDecl(ty) => CompTypeRun(t, w, m, ty, i, path + [i], scope, own, base);
      case CoreTypeDecl(Rec(group)) => GroupRun(t, w, m, group, i, path + [i], scope, own);
      case CoreTypeDecl(ModuleType(decls)) => ModuleRun(t, w, m, decls, i, path + [i], scope, own, base);
      case _ =>
    }
  }

  /** The event of a declaration assigns its id, or leaves that to the type it declares. */
  lemma DeclAssignedFirst(t: Table, w: Walk, m: Manner, kind: BodyKind, d: Decl, i: nat, path: Path, scope: ScopeId,
                          own: nat)
    requires Knows(t, w, scope, DeclSpace(d), i, own)
    ensures AssignRun(t, w, DeclEvents(m, kind, d, i, path))
         == match d
            case TypeDecl(ty) => AssignRun(t, w, CompTypeEvents(m, ty, i, path + [i]))
            case CoreTypeDecl(core) => AssignRun(t, w, CoreTypeEvents(m, core, i, path + [i]))
            case _ => Some(Further(w, [Emission(scope, DeclSpace(d), own)]))
  {
    var ev := DeclEvent(kind, i, d);
    AssignRunSnoc(t, w, [], ev);
    assert [] + [ev] == [ev];
    match d {
      case TypeDecl(ty) => AssignRunConcat(t, w, [ev], CompTypeEvents(m, ty, i, path + [i]));
      case CoreTypeDecl(core) => AssignRunConcat(t, w, [ev], CoreTypeEvents(m, core, i, path + [i]));
      case _ => assert [ev] + [] == [ev];
    }
  }

  // ------------------------------------------------------------------------------------
  // Which ids each space received
  // ------------------------------------------------------------------------------------

  lemma {:induction false} ModuleOrders(order: seq<nat>, base: ScopeId, s: ScopeId, sp: Space)
    ensures OrderOf(ModuleEmissions(order, base), s, sp) == if s == base && sp == Space.CoreType then order else []
  {
    if order != [] {
      var n := |order| - 1;
      ModuleOrders(order[..n], base, s, sp);
      OrderSnoc(ModuleEmissions(order[..n], base), Emission(base, Space.CoreType, order[n]), s, sp);
      assert order == order[..n] + [order[n]];
    }
  }

  lemma {:induction false} RepeatOrders(e: Emission, n: nat, s: ScopeId, sp: Space)
    ensures OrderOf(Repeat(e, n), s, sp) == if s == e.scope && sp == e.space then Repeat(e.assumed, n) else []
  {
    if n > 0 {
      RepeatOrders(e, n - 1, s, sp);
      RepeatMore(e, n - 1);
      RepeatMore(e.assumed, n - 1);
      OrderSnoc(Repeat(e, n - 1), e, s, sp);
    } else {
      assert Repeat(e, 0) == [] && Repeat(e.assumed, 0) == [];
    }
  }

  lemma SingleOrder(e: Emission, s: ScopeId, sp: Space)
    ensures OrderOf([e], s, sp) == if s == e.scope && sp == e.space then [e.assumed] else []
  {
    OrderSnoc([], e, s, sp);
    assert [] + [e] == [e];
  }

  lemma OrdersMore(a: seq<Emission>, b: seq<Emission>, s: ScopeId, sp: Space, all: seq<nat>)
    requires OrderOf(a, s, sp) + OrderOf(b, s, sp) == all
    ensures OrderOf(a + b, s, sp) == all
  {
    OrderConcat(a, b, s, sp);
  }

  /** A core type emits its own id into the scope around it, and into the scope it opens the ids
      of its declarations. */
  lemma CoreOrders(m: Manner, core: CoreType, home: ScopeId, own: nat, base: ScopeId, s: ScopeId, sp: Space)
    requires home < base
    ensures OrderOf(CoreEmissions(m, core, home, own, base), s, sp)
         == if sp != Space.CoreType then []
            else if s == home then Repeat(own, CoreCopies(core))
            else if s == base && core.ModuleType? then ModuleOrder(m, core.moduleDecls) else []
  {
    var e := Emission(home, Space.CoreType, own);
    match core {
      case Rec(group) => RepeatOrders(e, |group.subs|, s, sp);
      case ModuleType(decls) =>
        var order := ModuleOrder(m, decls);
        ModuleOrders(order, base, s, sp);
        SingleOrder(e, s, sp);
        assert Repeat(own, 1) == [own];
        OrderConcat(ModuleEmissions(order, base), [e], s, sp);
    }
  }

  /** Outside the scopes of the tree only its own id is emitted, into the scope around it. */
  lemma {:induction false} TypeElsewhere(m: Manner, ty: CompType, home: ScopeId, own: nat, base: ScopeId, s: ScopeId,
                                         sp: Space)
    requires home < base && !(base <= s < base + ScopeCount(ty))
    ensures OrderOf(TypeEmissions(m, ty, home, own, base), s, sp)
         == if s == home && sp == Space.CompType then [own] else []
    decreases ty, 1
  {
    var last := Emission(home, Space.CompType, own);
    SingleOrder(last, s, sp);
    if ty.Body? {
      BodyElsewhere(m, ty.decls, base, s, sp);
      OrdersMore(BodyEmissions(m, ty.decls, base), [last], s, sp, OrderOf([last], s, sp));
    }
  }

  lemma {:induction false} BodyElsewhere(m: Manner, decls: seq<Decl>, base: ScopeId, s: ScopeId, sp: Space)
    requires !(base <= s < base + 1 + ScopesIn(decls))
    ensures OrderOf(BodyEmissions(m, decls, base), s, sp) == []
    decreases decls, 2
  {
    StartsWithin(decls, base + 1);
    PartsElsewhere(m, decls, Ids(decls), Starts(decls, base + 1), base, base + 1 + ScopesIn(decls), s, sp);
    JoinedSilent(DeclParts(m, decls, Ids(decls), Starts(decls, base + 1), base), BodyOrder(m, decls), s, sp);
  }

  /** The scopes of all declarations lie between these two. */
  predicate Within(decls: seq<Decl>, starts: seq<nat>, lo: nat, hi: nat)
    requires |starts| == |decls|
  {
    forall i :: 0 <= i < |decls| ==> lo <= starts[i] && starts[i] + DeclScopes(decls[i]) <= hi
  }

  lemma {:induction false} StartsWithin(decls: seq<Decl>, base: nat)
    ensures Within(decls, Starts(decls, base), base, base + ScopesIn(decls))
  {
    if decls != [] { StartsWithin(decls[..|decls| - 1], base); }
  }

  lemma {:induction false} PartsElsewhere(m: Manner, decls: seq<Decl>, ids: seq<nat>, starts: seq<nat>,
                                          scope: ScopeId, hi: nat, s: ScopeId, sp: Space)
    requires |ids| == |starts| == |decls| && Within(decls, starts, scope + 1, hi) && !(scope <= s < hi)
    ensures forall i :: 0 <= i < |decls| ==> OrderOf(DeclParts(m, decls, ids, starts, scope)[i], s, sp) == []
    decreases decls, 1
  {
    forall i | 0 <= i < |decls| ensures OrderOf(DeclParts(m, decls, ids, starts, scope)[i], s, sp) == [] {
      DeclElsewhere(m, decls[i], scope, ids[i], starts[i], s, sp);
    }
  }

  lemma {:induction false} DeclElsewhere(m: Manner, d: Decl, scope: ScopeId, own: nat, base: ScopeId, s: ScopeId,
                                         sp: Space)
    requires scope < base && !(base <= s < base + DeclScopes(d))
    ensures OrderOf(DeclEmissions(m, d, scope, own, base), s, sp)
         == if s == scope && sp == DeclSpace(d) then Repeat(own, Copies(d)) else []
    decreases d, 0
  {
    assert Repeat(own, 1) == [own];
    match d {
      case TypeDecl(ty) => TypeElsewhere(m, ty, scope, own, base, s, sp);
      case CoreTypeDecl(core) => CoreOrders(m, core, scope, own, base, s, sp);
      case _ => SingleOrder(Emission(scope, DeclSpace(d), own), s, sp);
    }
  }

  lemma {:induction false} StartsApart(decls: seq<Decl>, base: nat, i: nat, j: nat)
    requires i < j < |decls|
    ensures Starts(decls, base)[i] + DeclScopes(decls[i]) <= Starts(decls, base)[j]
  {
    var n := |decls| - 1;
    if j < n { StartsApart(decls[..n], base, i, j); } else { StartsWithin(decls[..n], base); }
  }

  /** The body's own scope meets the ids of its declarations in the order of the visits. */
  lemma OwnScopeMeets(m: Manner, decls: seq<Decl>, base: ScopeId, sp: Space)
    ensures OrderOf(BodyEmissions(m, decls, base), base, sp)
         == IdsMet(DeclSpaces(decls), CopiesOf(decls), BodyOrder(m, decls), sp)
  {
    var ids, starts := Ids(decls), Starts(decls, base + 1);
    StartsWithin(decls, base + 1);
    forall i | 0 <= i < |decls| ensures ids[i] == IdAt(DeclSpaces(decls), i) {
      IdsAre(decls, i);
      IdIsLogged(decls, i);
    }
    PartsMeet(m, decls, ids, starts, base, base + 1 + ScopesIn(decls), sp);
    JoinedMeets(DeclParts(m, decls, ids, starts, base), DeclSpaces(decls), CopiesOf(decls), BodyOrder(m, decls), base,
                sp);
  }

  lemma PartsMeet(m: Manner, decls: seq<Decl>, ids: seq<nat>, starts: seq<nat>, scope: ScopeId, hi: nat, sp: Space)
    requires |ids| == |starts| == |decls| && Within(decls, starts, scope + 1, hi)
    requires forall i :: 0 <= i < |decls| ==> ids[i] == IdAt(DeclSpaces(decls), i)
    ensures forall i :: 0 <= i < |decls| ==>
              OrderOf(DeclParts(m, decls, ids, starts, scope)[i], scope, sp)
              == MetAt(DeclSpaces(decls), CopiesOf(decls), i, sp)
  {
    forall i | 0 <= i < |decls|
      ensures OrderOf(DeclParts(m, decls, ids, starts, scope)[i], scope, sp)
           == MetAt(DeclSpaces(decls), CopiesOf(decls), i, sp)
    {
      DeclElsewhere(m, decls[i], scope, ids[i], starts[i], scope, sp);
    }
  }

  /** The scopes of one declaration receive what that declaration emits. */
  lemma ChildScopeReceives(m: Manner, decls: seq<Decl>, base: ScopeId, i: nat, s: ScopeId, sp: Space)
    requires i < |decls| && InRangeOf(decls, base, i, s)
    ensures OrderOf(BodyEmissions(m, decls, base), s, sp)
         == OrderOf(DeclEmissions(m, decls[i], base, Ids(decls)[i], Starts(decls, base + 1)[i]), s, sp)
  {
    var ids, starts := Ids(decls), Starts(decls, base + 1);
    StartsWithin(decls, base + 1);
    forall j | 0 <= j < |decls| && j != i ensures !(starts[j] <= s < starts[j] + DeclScopes(decls[j])) {
      if i < j { StartsApart(decls, base + 1, i, j); } else { StartsApart(decls, base + 1, j, i); }
    }
    OtherPartsSilent(m, decls, ids, starts, base, base + 1 + ScopesIn(decls), i, s, sp);
    BodyOrderCovers(m, decls);
    PermutationCovers(BodyOrder(m, decls), i);
    JoinedReceives(DeclParts(m, decls, ids, starts, base), BodyOrder(m, decls), i, s, sp);
  }

  lemma OtherPartsSilent(m: Manner, decls: seq<Decl>, ids: seq<nat>, starts: seq<nat>, scope: ScopeId, hi: nat,
                         i: nat, s: ScopeId, sp: Space)
    requires |ids| == |starts| == |decls| && Within(decls, starts, scope + 1, hi) && s != scope
    requires forall j :: 0 <= j < |decls| && j != i ==> !(starts[j] <= s < starts[j] + DeclScopes(decls[j]))
    ensures forall j :: 0 <= j < |decls| && j != i ==> OrderOf(DeclParts(m, decls, ids, starts, scope)[j], s, sp) == []
  {
    forall j | 0 <= j < |decls| && j != i ensures OrderOf(DeclParts(m, decls, ids, starts, scope)[j], s, sp) == [] {
      DeclElsewhere(m, decls[j], scope, ids[j], starts[j], s, sp);
    }
  }

  /** Scope `s` is one of those of the declaration at position `i`. */
  predicate InRangeOf(decls: seq<Decl>, base: ScopeId, i: nat, s: ScopeId)
    requires i < |decls|
  {
    Starts(decls, base + 1)[i] <= s < Starts(decls, base + 1)[i] + DeclScopes(decls[i])
  }

  lemma {:induction false} WhichDecl(decls: seq<Decl>, base: nat, s: nat) returns (i: nat)
    requires base < s < base + 1 + ScopesIn(decls)
    ensures i < |decls| && InRangeOf(decls, base, i, s)
  {
    var n := |decls| - 1;
    if s < base + 1 + ScopesIn(decls[..n]) { i := WhichDecl(decls[..n], base, s); } else { i := n; }
  }

  // ------------------------------------------------------------------------------------
  // When assumed and actual ids agree
  // ------------------------------------------------------------------------------------

  /** In every space of this scope, the ids were emitted as 0, 1, 2, ..., all of them. */
  ghost predicate InOrderAt(t: Table, es: seq<Emission>, s: ScopeId) {
    forall sp: Space :: OrderOf(es, s, sp) == Upto(|LogAt(t, s, sp)|)
  }

  ghost predicate InOrder(t: Table, es: seq<Emission>, lo: nat, hi: nat) {
    forall s: ScopeId :: lo <= s < hi ==> InOrderAt(t, es, s)
  }

  ghost predicate NothingYet(es: seq<Emission>, lo: nat, hi: nat) {
    forall s: ScopeId, sp: Space {:trigger OrderOf(es, s, sp)} :: lo <= s < hi ==> OrderOf(es, s, sp) == []
  }

  /** Every group of the body holds exactly one type, and no space has a later declaration visited
      before an earlier one. */
  ghost predicate BodyKept(m: Manner, decls: seq<Decl>) {
    OneEach(CopiesOf(decls)) && KeepsSpaces(DeclSpaces(decls), BodyOrder(m, decls))
  }

  predicate ModuleKept(m: Manner, decls: seq<ModuleDecl>) {
    ModuleOrder(m, decls) == Upto(|decls|)
  }

  /** The same at every depth. */
  ghost predicate TreeKept(m: Manner, ty: CompType)
    decreases ty, 2
  {
    ty.Body? ==> BodyKept(m, ty.decls) && DeclsKept(m, ty.decls)
  }

  ghost predicate DeclsKept(m: Manner, decls: seq<Decl>)
    decreases decls, 1
  {
    forall i :: 0 <= i < |decls| ==> DeclKept(m, decls[i])
  }

  ghost predicate DeclKept(m: Manner, d: Decl)
    decreases d, 0
  {
    match d
    case TypeDecl(ty) => TreeKept(m, ty)
    case CoreTypeDecl(ModuleType(decls)) => ModuleKept(m, decls)
    case _ => true
  }

  lemma SameOrders(t: Table, es: seq<Emission>, fs: seq<Emission>, lo: nat, hi: nat)
    requires forall s: ScopeId, sp: Space {:trigger OrderOf(es, s, sp)} ::
               lo <= s < hi ==> OrderOf(es, s, sp) == OrderOf(fs, s, sp)
    ensures InOrder(t, es, lo, hi) ==> InOrder(t, fs, lo, hi)
    ensures InOrder(t, es, lo, hi) <== InOrder(t, fs, lo, hi)
  {
    forall s: ScopeId | lo <= s < hi ensures InOrderAt(t, es, s) <==> InOrderAt(t, fs, s) {
      assert forall sp: Space :: OrderOf(es, s, sp) == OrderOf(fs, s, sp);
    }
  }

  lemma CoreInOrder(t: Table, m: Manner, core: CoreType, path: Path, home: ScopeId, own: nat, base: ScopeId)
    requires CoreLaid(t, core, path, base) && home < base
    ensures InOrder(t, CoreEmissions(m, core, home, own, base), base, base + CoreScopes(core))
         ==> (core.ModuleType? ==> ModuleKept(m, core.moduleDecls))
    ensures InOrder(t, CoreEmissions(m, core, home, own, base), base, base + CoreScopes(core))
         <== (core.ModuleType? ==> ModuleKept(m, core.moduleDecls))
  {
    var es := CoreEmissions(m, core, home, own, base);
    if core.ModuleType? {
      var decls := core.moduleDecls;
      ModuleScopeMeets(t, m, core, path, home, own, base);
      OneSpaceInOrder(t, es, base, ModuleOrder(m, decls), |decls|);
    }
  }

  lemma ModuleScopeMeets(t: Table, m: Manner, core: CoreType, path: Path, home: ScopeId, own: nat, base: ScopeId)
    requires CoreLaid(t, core, path, base) && home < base && core.ModuleType?
    ensures OnlyCoreTypes(t, CoreEmissions(m, core, home, own, base), base, ModuleOrder(m, core.moduleDecls),
                          |core.moduleDecls|)
  {
    ModuleLogBelow(core.moduleDecls);
    forall sp: Space
      ensures OrderOf(CoreEmissions(m, core, home, own, base), base, sp)
           == if sp == Space.CoreType then ModuleOrder(m, core.moduleDecls) else []
      ensures |LogAt(t, base, sp)| == if sp == Space.CoreType then |core.moduleDecls| else 0
    {
      CoreOrders(m, core, home, own, base, base, sp);
      assert LogAt(t, base, sp) == ModuleLog(core.moduleDecls, sp);
    }
  }

  /** A scope of `n` core types, which received these ids. */
  ghost predicate OnlyCoreTypes(t: Table, es: seq<Emission>, base: ScopeId, order: seq<nat>, n: nat) {
    forall sp: Space ::
      && OrderOf(es, base, sp) == (if sp == Space.CoreType then order else [])
      && |LogAt(t, base, sp)| == if sp == Space.CoreType then n else 0
  }

  lemma OneSpaceInOrder(t: Table, es: seq<Emission>, base: ScopeId, order: seq<nat>, n: nat)
    requires OnlyCoreTypes(t, es, base, order, n)
    ensures InOrder(t, es, base, base + 1) ==> order == Upto(n)
    ensures InOrder(t, es, base, base + 1) <== order == Upto(n)
  {
    assert Upto(0) == [];
    assert InOrderAt(t, es, base) <==> OrderOf(es, base, Space.CoreType) == Upto(|LogAt(t, base, Space.CoreType)|);
    assert InOrder(t, es, base, base + 1) <==> InOrderAt(t, es, base);
  }

  lemma OwnScopeInOrder(t: Table, m: Manner, decls: seq<Decl>, base: ScopeId)
    requires OwnLog(t, base, decls)
    ensures InOrderAt(t, BodyEmissions(m, decls, base), base) ==> BodyKept(m, decls)
    ensures InOrderAt(t, BodyEmissions(m, decls, base), base) <== BodyKept(m, decls)
  {
    var order := BodyOrder(m, decls);
    BodyOrderCovers(m, decls);
    MetInOrderExactlyWhen(DeclSpaces(decls), CopiesOf(decls), order);
    forall sp: Space
      ensures OrderOf(BodyEmissions(m, decls, base), base, sp) == IdsMet(DeclSpaces(decls), CopiesOf(decls), order, sp)
      ensures |LogAt(t, base, sp)| == |Positions(DeclSpaces(decls), sp)|
    {
      OwnScopeMeets(m, decls, base, sp);
      LogLength(decls, sp);
    }
  }

  /** The scopes of the declaration at position `i` are in order. */
  ghost predicate ChildRange(t: Table, es: seq<Emission>, decls: seq<Decl>, base: ScopeId, i: nat)
    requires i < |decls|
  {
    var lo := Starts(decls, base + 1)[i];
    InOrder(t, es, lo, lo + DeclScopes(decls[i]))
  }

  ghost predicate ChildRanges(t: Table, es: seq<Emission>, decls: seq<Decl>, base: ScopeId) {
    forall i :: 0 <= i < |decls| ==> ChildRange(t, es, decls, base, i)
  }

  /** The scopes of a body are its own and those of its declarations. */
  lemma RangesOfBody(t: Table, es: seq<Emission>, decls: seq<Decl>, base: ScopeId)
    ensures InOrder(t, es, base, base + 1 + ScopesIn(decls))
         ==> InOrderAt(t, es, base) && ChildRanges(t, es, decls, base)
    ensures InOrder(t, es, base, base + 1 + ScopesIn(decls))
         <== InOrderAt(t, es, base) && ChildRanges(t, es, decls, base)
  {
    if InOrder(t, es, base, base + 1 + ScopesIn(decls)) {
      assert InOrderAt(t, es, base);
      forall i | 0 <= i < |decls| ensures ChildRange(t, es, decls, base, i) {
        RangeOfChild(t, es, decls, base, i);
      }
    }
    if InOrderAt(t, es, base) && ChildRanges(t, es, decls, base) {
      forall s: ScopeId | base <= s < base + 1 + ScopesIn(decls) ensures InOrderAt(t, es, s) {
        if s > base { RangesCover(t, es, decls, base, s); }
      }
    }
  }

  lemma RangeOfChild(t: Table, es: seq<Emission>, decls: seq<Decl>, base: ScopeId, i: nat)
    requires i < |decls| && InOrder(t, es, base, base + 1 + ScopesIn(decls))
    ensures ChildRange(t, es, decls, base, i)
  {
    var lo := Starts(decls, base + 1)[i];
    StartWithin(decls, base + 1, i);
    SubRange(t, es, base, base + 1 + ScopesIn(decls), lo, lo + DeclScopes(decls[i]));
  }

  lemma StartWithin(decls: seq<Decl>, base: nat, i: nat)
    requires i < |decls|
    ensures base <= Starts(decls, base)[i]
    ensures Starts(decls, base)[i] + DeclScopes(decls[i]) <= base + ScopesIn(decls)
  {
    StartsWithin(decls, base);
  }

  lemma SubRange(t: Table, es: seq<Emission>, lo: nat, hi: nat, from: nat, to: nat)
    requires InOrder(t, es, lo, hi) && lo <= from && to <= hi
    ensures InOrder(t, es, from, to)
  {
  }

  lemma RangesCover(t: Table, es: seq<Emission>, decls: seq<Decl>, base: ScopeId, s: ScopeId)
    requires ChildRanges(t, es, decls, base) && base < s < base + 1 + ScopesIn(decls)
    ensures InOrderAt(t, es, s)
  {
    var i := WhichDecl(decls, base, s);
    assert ChildRange(t, es, decls, base, i);
  }

  /** Everything a body emits is in order exactly when its own scope is and the scopes of each
      declaration are. */
  lemma BodyInOrder(t: Table, m: Manner, decls: seq<Decl>, base: ScopeId)
    ensures InOrder(t, BodyEmissions(m, decls, base), base, base + 1 + ScopesIn(decls))
         ==> InOrderAt(t, BodyEmissions(m, decls, base), base) && ChildrenInOrder(t, m, decls, base)
    ensures InOrder(t, BodyEmissions(m, decls, base), base, base + 1 + ScopesIn(decls))
         <== InOrderAt(t, BodyEmissions(m, decls, base), base) && ChildrenInOrder(t, m, decls, base)
  {
    RangesOfBody(t, BodyEmissions(m, decls, base), decls, base);
    forall i | 0 <= i < |decls|
      ensures ChildRange(t, BodyEmissions(m, decls, base), decls, base, i) <==> ChildInOrder(t, m, decls, base, i)
    {
      ChildRangeSame(t, m, decls, base, i);
    }
  }

  ghost predicate ChildrenInOrder(t: Table, m: Manner, decls: seq<Decl>, base: ScopeId) {
    forall i :: 0 <= i < |decls| ==> ChildInOrder(t, m, decls, base, i)
  }

  /** The scopes of the declaration at position `i` are in order as far as itself is concerned. */
  ghost predicate ChildInOrder(t: Table, m: Manner, decls: seq<Decl>, base: ScopeId, i: nat)
    requires i < |decls|
  {
    var lo := Starts(decls, base + 1)[i];
    InOrder(t, DeclEmissions(m, decls[i], base, Ids(decls)[i], lo), lo, lo + DeclScopes(decls[i]))
  }

  lemma ChildRangeSame(t: Table, m: Manner, decls: seq<Decl>, base: ScopeId, i: nat)
    requires i < |decls|
    ensures ChildRange(t, BodyEmissions(m, decls, base), decls, base, i) ==> ChildInOrder(t, m, decls, base, i)
    ensures ChildRange(t, BodyEmissions(m, decls, base), decls, base, i) <== ChildInOrder(t, m, decls, base, i)
  {
    var lo := Starts(decls, base + 1)[i];
    var es, fs := BodyEmissions(m, decls, base), DeclEmissions(m, decls[i], base, Ids(decls)[i], lo);
    forall s: ScopeId, sp: Space | lo <= s < lo + DeclScopes(decls[i])
      ensures OrderOf(es, s, sp) == OrderOf(fs, s, sp)
    {
      ChildScopeReceives(m, decls, base, i, s, sp);
    }
    SameOrders(t, es, fs, lo, lo + DeclScopes(decls[i]));
  }

  /** Every scope of a tree receives its ids in order if and only if the tree is kept. */
  lemma {:induction false} TreeInOrder(t: Table, m: Manner, ty: CompType, path: Path, home: ScopeId, own: nat,
                                       base: ScopeId)
    requires Laid(t, ty, path, base) && home < base
    ensures InOrder(t, TypeEmissions(m, ty, home, own, base), base, base + ScopeCount(ty)) ==> TreeKept(m, ty)
    ensures InOrder(t, TypeEmissions(m, ty, home, own, base), base, base + ScopeCount(ty)) <== TreeKept(m, ty)
    decreases ty, 1
  {
    match ty {
      case Leaf(_) =>
      case Body(_, decls) =>
        BodyInOrderExactlyWhen(t, m, ty, home, own, base);
        ChildrenInOrderExactlyWhen(t, m, decls, path, base);
    }
  }

  lemma {:induction false} ChildrenInOrderExactlyWhen(t: Table, m: Manner, decls: seq<Decl>, path: Path, base: ScopeId)
    requires LaidDecls(t, decls, path, base + 1)
    ensures ChildrenInOrder(t, m, decls, base) ==> DeclsKept(m, decls)
    ensures ChildrenInOrder(t, m, decls, base) <== DeclsKept(m, decls)
    decreases decls, 1
  {
    forall i | 0 <= i < |decls| ensures ChildInOrder(t, m, decls, base, i) <==> DeclKept(m, decls[i]) {
      ChildInOrderExactlyWhen(t, m, decls, path, base, i);
    }
  }

  lemma {:induction false} ChildInOrderExactlyWhen(t: Table, m: Manner, decls: seq<Decl>, path: Path, base: ScopeId,
                                                   i: nat)
    requires i < |decls| && LaidDecls(t, decls, path, base + 1)
    ensures ChildInOrder(t, m, decls, base, i) ==> DeclKept(m, decls[i])
    ensures ChildInOrder(t, m, decls, base, i) <== DeclKept(m, decls[i])
    decreases decls, 0
  {
    StartsWithin(decls, base + 1);
    LaidAt(t, decls, path, base + 1, i);
    DeclInOrder(t, m, decls[i], path + [i], base, Ids(decls)[i], Starts(decls, base + 1)[i]);
  }

  lemma BodyInOrderExactlyWhen(t: Table, m: Manner, ty: CompType, home: ScopeId, own: nat, base: ScopeId)
    requires ty.Body? && home < base && OwnLog(t, base, ty.decls)
    ensures InOrder(t, TypeEmissions(m, ty, home, own, base), base, base + ScopeCount(ty))
         ==> BodyKept(m, ty.decls) && ChildrenInOrder(t, m, ty.decls, base)
    ensures InOrder(t, TypeEmissions(m, ty, home, own, base), base, base + ScopeCount(ty))
         <== BodyKept(m, ty.decls) && ChildrenInOrder(t, m, ty.decls, base)
  {
    LastChangesNothing(t, m, ty, home, own, base);
    OwnScopeInOrder(t, m, ty.decls, base);
    BodyInOrder(t, m, ty.decls, base);
  }

  lemma LastChangesNothing(t: Table, m: Manner, ty: CompType, home: ScopeId, own: nat, base: ScopeId)
    requires ty.Body? && home < base
    ensures InOrder(t, TypeEmissions(m, ty, home, own, base), base, base + ScopeCount(ty))
         ==> InOrder(t, BodyEmissions(m, ty.decls, base), base, base + 1 + ScopesIn(ty.decls))
    ensures InOrder(t, TypeEmissions(m, ty, home, own, base), base, base + ScopeCount(ty))
         <== InOrder(t, BodyEmissions(m, ty.decls, base), base, base + 1 + ScopesIn(ty.decls))
  {
    var es, fs := TypeEmissions(m, ty, home, own, base), BodyEmissions(m, ty.decls, base);
    forall s: ScopeId, sp: Space | base <= s < base + ScopeCount(ty) ensures OrderOf(es, s, sp) == OrderOf(fs, s, sp) {
      LastElsewhere(fs, home, own, s, sp);
    }
    SameOrders(t, es, fs, base, base + ScopeCount(ty));
  }

  lemma LastElsewhere(es: seq<Emission>, home: ScopeId, own: nat, s: ScopeId, sp: Space)
    requires s != home
    ensures OrderOf(es + [Emission(home, Space.CompType, own)], s, sp) == OrderOf(es, s, sp)
  {
    OrderSnoc(es, Emission(home, Space.CompType, own), s, sp);
    assert OrderOf(es, s, sp) + [] == OrderOf(es, s, sp);
  }

  lemma NoScopes(t: Table, es: seq<Emission>, base: ScopeId)
    ensures InOrder(t, es, base, base)
  {
  }

  lemma {:induction false} DeclInOrder(t: Table, m: Manner, d: Decl, path: Path, scope: ScopeId, own: nat,
                                       base: ScopeId)
    requires LaidDecl(t, d, path, base) && scope < base
    ensures InOrder(t, DeclEmissions(m, d, scope, own, base), base, base + DeclScopes(d)) ==> DeclKept(m, d)
    ensures InOrder(t, DeclEmissions(m, d, scope, own, base), base, base + DeclScopes(d)) <== DeclKept(m, d)
    decreases d, 0
  {
    match d {
      case TypeDecl(ty) =>
        TreeInOrder(t, m, ty, path, scope, own, base);
        SameEmissions(t, DeclEmissions(m, d, scope, own, base), TypeEmissions(m, ty, scope, own, base), base,
                      base + DeclScopes(d), base + ScopeCount(ty));
      case CoreTypeDecl(core) =>
        CoreInOrder(t, m, core, path, scope, own, base);
        SameEmissions(t, DeclEmissions(m, d, scope, own, base), CoreEmissions(m, core, scope, own, base), base,
                      base + DeclScopes(d), base + CoreScopes(core));
      case _ => NoScopes(t, DeclEmissions(m, d, scope, own, base), base);
    }
  }

  lemma SameEmissions(t: Table, es: seq<Emission>, fs: seq<Emission>, lo: nat, hi: nat, hj: nat)
    requires es == fs && hi == hj
    ensures InOrder(t, es, lo, hi) ==> InOrder(t, fs, lo, hj)
    ensures InOrder(t, es, lo, hi) <== InOrder(t, fs, lo, hj)
  {
  }

  // ------------------------------------------------------------------------------------
  // Main results
  // ------------------------------------------------------------------------------------

  /** Ids are handed out on entry, assigned on exit. The walk over a tree never aborts, gives the
      tree's own id to the scope around it and touches no scope outside; inside, the two agree at
      every nesting depth, in every space, if and only if every group holds exactly one type and
      every body and module body visits the declarations of each space in their order. */
  lemma AssumedIdsAreActualIdsInside(t: Table, w: Walk, m: Manner, ty: CompType, i: nat, path: Path, home: ScopeId,
                                     own: nat, base: ScopeId)
    requires Laid(t, ty, path, base) && Knows(t, w, home, Space.CompType, i, own) && home < base
    requires NothingYet(w.emitted, base, base + ScopeCount(ty))
    ensures var after := AssignRun(t, w, CompTypeEvents(m, ty, i, path));
            && after.Some? && after.value.stack == w.stack && after.value.nested == w.nested
            && OneIdOutside(w.emitted, after.value.emitted, home, own, base, base + ScopeCount(ty))
    ensures InOrder(t, EmittedBy(t, w, CompTypeEvents(m, ty, i, path)), base, base + ScopeCount(ty)) ==> TreeKept(m, ty)
    ensures InOrder(t, EmittedBy(t, w, CompTypeEvents(m, ty, i, path)), base, base + ScopeCount(ty)) <== TreeKept(m, ty)
  {
    CompTypeRun(t, w, m, ty, i, path, home, own, base);
    TreeEmitsInOrder(t, w.emitted, m, ty, path, home, own, base);
  }

  /** Outside the scopes `lo..hi`, what came after `before` is this one id. */
  ghost predicate OneIdOutside(before: seq<Emission>, all: seq<Emission>, home: ScopeId, own: nat, lo: nat, hi: nat) {
    forall s: ScopeId, sp: Space {:trigger OrderOf(all, s, sp)} ::
      !(lo <= s < hi) ==>
        OrderOf(all, s, sp) == OrderOf(before, s, sp) + (if s == home && sp == Space.CompType then [own] else [])
  }

  lemma TreeEmitsInOrder(t: Table, before: seq<Emission>, m: Manner, ty: CompType, path: Path, home: ScopeId, own: nat,
                         base: ScopeId)
    requires Laid(t, ty, path, base) && home < base && NothingYet(before, base, base + ScopeCount(ty))
    ensures InOrder(t, before + TypeEmissions(m, ty, home, own, base), base, base + ScopeCount(ty)) ==> TreeKept(m, ty)
    ensures InOrder(t, before + TypeEmissions(m, ty, home, own, base), base, base + ScopeCount(ty)) <== TreeKept(m, ty)
    ensures OneIdOutside(before, before + TypeEmissions(m, ty, home, own, base), home, own, base,
                         base + ScopeCount(ty))
  {
    TreeInOrder(t, m, ty, path, home, own, base);
    AppendedSame(t, before, TypeEmissions(m, ty, home, own, base), base, base + ScopeCount(ty));
    TreeOutside(before, m, ty, home, own, base);
  }

  lemma TreeOutside(before: seq<Emission>, m: Manner, ty: CompType, home: ScopeId, own: nat, base: ScopeId)
    requires home < base
    ensures OneIdOutside(before, before + TypeEmissions(m, ty, home, own, base), home, own, base,
                         base + ScopeCount(ty))
  {
    var all := before + TypeEmissions(m, ty, home, own, base);
    forall s: ScopeId, sp: Space | !(base <= s < base + ScopeCount(ty))
      ensures OrderOf(all, s, sp)
           == OrderOf(before, s, sp) + (if s == home && sp == Space.CompType then [own] else [])
    {
      EmittedAfter(before, m, ty, home, own, base, s, sp);
    }
  }

  lemma AppendedSame(t: Table, before: seq<Emission>, es: seq<Emission>, lo: nat, hi: nat)
    requires NothingYet(before, lo, hi)
    ensures InOrder(t, before + es, lo, hi) ==> InOrder(t, es, lo, hi)
    ensures InOrder(t, before + es, lo, hi) <== InOrder(t, es, lo, hi)
  {
    forall s: ScopeId, sp: Space | lo <= s < hi ensures OrderOf(before + es, s, sp) == OrderOf(es, s, sp) {
      OrderConcat(before, es, s, sp);
      assert [] + OrderOf(es, s, sp) == OrderOf(es, s, sp);
    }
    SameOrders(t, before + es, es, lo, hi);
  }

  lemma EmittedAfter(before: seq<Emission>, m: Manner, ty: CompType, home: ScopeId, own: nat, base: ScopeId,
                     s: ScopeId, sp: Space)
    requires home < base && !(base <= s < base + ScopeCount(ty))
    ensures OrderOf(before + TypeEmissions(m, ty, home, own, base), s, sp)
         == OrderOf(before, s, sp) + (if s == home && sp == Space.CompType then [own] else [])
  {
    OrderConcat(before, TypeEmissions(m, ty, home, own, base), s, sp);
    TypeElsewhere(m, ty, home, own, base, s, sp);
  }

  /** The same from the beginning: populate the scopes of a tree, then walk it. */
  lemma PopulatedThenWalked(t: Table, u: Table, w: Walk, m: Manner, ty: CompType, i: nat, path: Path, home: ScopeId,
                            own: nat)
    requires u == PopCompType(t, ty, path)
    requires Fresh(t, path) && Bounded(t) && home in t.scopes && Knows(t, w, home, Space.CompType, i, own)
    requires NothingYet(w.emitted, t.next, t.next + ScopeCount(ty))
    ensures AssignRun(u, w, CompTypeEvents(m, ty, i, path)).Some?
    ensures InOrder(u, EmittedBy(u, w, CompTypeEvents(m, ty, i, path)), t.next, u.next) ==> TreeKept(m, ty)
    ensures InOrder(u, EmittedBy(u, w, CompTypeEvents(m, ty, i, path)), t.next, u.next) <== TreeKept(m, ty)
  {
    Populated(t, w, ty, i, path, home, own);
    CompTypeRun(u, w, m, ty, i, path, home, own, t.next);
    TreeEmitsInOrder(u, w.emitted, m, ty, path, home, own, t.next);
  }

  lemma Populated(t: Table, w: Walk, ty: CompType, i: nat, path: Path, home: ScopeId, own: nat)
    requires Fresh(t, path) && Bounded(t) && home in t.scopes && Knows(t, w, home, Space.CompType, i, own)
    ensures var u := PopCompType(t, ty, path);
            && Laid(u, ty, path, t.next) && Knows(u, w, home, Space.CompType, i, own) && home < t.next
            && u.next == t.next + ScopeCount(ty)
  {
    CompTypeLaid(t, ty, path);
    assert LogAt(PopCompType(t, ty, path), home, Space.CompType) == LogAt(t, home, Space.CompType);
  }

  /** No declaration of the body refers to a later one. */
  predicate PointsBack(targets: seq<seq<nat>>) {
    forall i :: 0 <= i < |targets| ==> Topological.AllBelow(targets[i], i + 1)
  }

  /** What is easily checked beforehand: where no declaration refers to a later one, a body is
      visited as it stands, and its spaces are kept. */
  lemma BackwardBodiesAreKept(m: Manner, decls: seq<Decl>)
    requires PointsBack(DeclTargets(decls)) && OneEach(CopiesOf(decls))
    ensures BodyOrder(m, decls) == Upto(|decls|) && BodyKept(m, decls)
  {
    Topological.BodiesKeepTheirOrder(DeclTargets(decls));
    AsTheyStand(decls);
  }

  /** Visiting the declarations as they stand keeps every space. */
  lemma AsTheyStand(decls: seq<Decl>)
    ensures KeepsSpaces(DeclSpaces(decls), Upto(|decls|))
  {
    forall sp ensures Increasing(Visited(DeclSpaces(decls), Upto(|decls|), sp)) {
      VisitedIncreases(DeclSpaces(decls), Upto(|decls|), sp);
    }
  }

  lemma InPlaceIsKept(decls: seq<Decl>)
    ensures BodyKept(InPlace, decls) <==> OneEach(CopiesOf(decls))
  {
    AsTheyStand(decls);
  }

  /** An instance type that exports a type it defines only afterwards. */
  const FORWARD: seq<Decl> :=
    [ExportDecl("a", TypeRefBound(Eq(1))), TypeDecl(Leaf(Defined(PrimitiveType(0))))]

  /** Its definition is pulled ahead of the export: they are emitted as 1, 0, and the bound, which
      is not rewritten, then names the export itself. */
  lemma PulledAheadOfItsExport(env: Env, stack: seq<ScopeId>, path: Path)
    requires env.manner == PulledAhead
    ensures BodyOrder(PulledAhead, FORWARD) == [1, 0]
    ensures !TreeKept(PulledAhead, Body(InstanceBody, FORWARD)) && TreeKept(InPlace, Body(InstanceBody, FORWARD))
    ensures EncDecls(env, stack, FORWARD, path)
         == [EncTypeDecl(EncLeaf(Defined(PrimitiveType(0)))), EncExport("a", TypeRefBound(Eq(1)))]
  {
    ForwardOrder();
    ForwardKept();
    ForwardEncoded(env, stack, path);
  }

  lemma ForwardTargets()
    ensures DeclTargets(FORWARD) == [[1], []]
  {
    var spaces := DeclSpaces(FORWARD);
    var one: seq<Space> := [Space.CompType];
    PositionsSnoc([], Space.CompType, Space.CompType);
    PositionsSnoc(one, Space.CompType, Space.CompType);
    assert [] + one == one && spaces == one + one;
    assert Positions(spaces, Space.CompType) == [0, 1];
    var r := Here(Space.CompType, 1);
    assert DeclRefs(FORWARD[0]) == [r] && [r][..0] == [] && Found(spaces, r);
    assert Targets(spaces, [r]) == [] + [1];
    assert DeclRefs(FORWARD[1]) == [] && Targets(spaces, []) == [];
    assert DeclTargets(FORWARD)[0] == [1] && DeclTargets(FORWARD)[1] == [];
  }

  lemma ForwardOrder()
    ensures BodyOrder(PulledAhead, FORWARD) == [1, 0]
  {
    ForwardTargets();
    var targets: seq<seq<nat>> := [[1], []];
    assert [1][..0] == [] && targets[0] == [1];
    assert Topological.PullAhead([], Topological.Topo({} + {0}, [])) == Topological.Topo({0}, []);
    assert Topological.PullAhead([1], Topological.Topo({} + {0}, [])) == Topological.Topo({0} + {1}, [] + [1]);
    assert Topological.CollectBody(targets, 0) == Topological.NOTHING;
    assert Topological.CollectBody(targets, 1) == Topological.Topo({0, 1}, [1, 0]);
    assert Topological.CollectBody(targets, 2) == Topological.CollectBody(targets, 1);
  }

  lemma ForwardKept()
    ensures !TreeKept(PulledAhead, Body(InstanceBody, FORWARD)) && TreeKept(InPlace, Body(InstanceBody, FORWARD))
  {
    ForwardOrder();
    ForwardVisited();
    InPlaceIsKept(FORWARD);
    assert DeclKept(InPlace, FORWARD[1]) && DeclKept(InPlace, FORWARD[0]);
  }

  lemma ForwardVisited()
    ensures !Increasing(Visited(DeclSpaces(FORWARD), [1, 0], Space.CompType))
  {
    VisitedSame([Space.CompType, Space.CompType], Space.CompType);
    assert DeclSpaces(FORWARD) == [Space.CompType, Space.CompType];
  }

  lemma VisitedSame(spaces: seq<Space>, sp: Space)
    requires spaces == [sp, sp]
    ensures !Increasing(Visited(spaces, [1, 0], sp))
  {
    var order: seq<nat> := [1, 0];
    assert order[..1] == [1] && order[..1][..0] == [];
    assert Visited(spaces, order[..1], sp) == [] + [1];
    assert Visited(spaces, order, sp)[0] == 1 && Visited(spaces, order, sp)[1] == 0;
  }

  lemma ForwardEncoded(env: Env, stack: seq<ScopeId>, path: Path)
    requires env.manner == PulledAhead
    ensures EncDecls(env, stack, FORWARD, path)
         == [EncTypeDecl(EncLeaf(Defined(PrimitiveType(0)))), EncExport("a", TypeRefBound(Eq(1)))]
  {
    ForwardOrder();
    var order: seq<nat> := [1, 0];
    assert order[..1] == [1] && order[..1][..0] == [];
    var first := EncDeclOf(env, stack, FORWARD[1], path + [1]);
    assert first == [EncTypeDecl(EncLeaf(Defined(PrimitiveType(0))))];
    assert EncDeclsOf(env, stack, FORWARD, order[..1], path) == [] + first;
  }

  /** Ids emitted in order are renamed to themselves. */
  lemma InOrderIsIdentity(es: seq<Emission>, scope: ScopeId, space: Space, n: nat, a: nat)
    requires OrderOf(es, scope, space) == Upto(n)
    ensures a in AssignAll(OrderOf(es, scope, space)).actual <==> a < n
    ensures a < n ==> ActualOf(es, scope, space, a) == a
  {
    LastPositionWins(Upto(n), a);
    if a < n { assert Upto(n)[a] == a; }
  }

  ghost predicate Local(refs: seq<IndexedRef>) {
    forall r :: r in refs ==> r.depth == 0
  }

  lemma LeafRefsAreLocal(leaf: LeafType)
    ensures Local(LeafRefs(leaf))
  {
    match leaf {
      case Defined(Record(fields)) => EachFromElement(FieldRefs, fields);
      case Defined(Variant(cases)) => EachFromElement(CaseRefs, cases);
      case Defined(Tuple(tys)) => EachFromElement(ValRefs, tys);
      case Func(f) => EachFromElement(FieldRefs, f.params);
      case _ =>
    }
  }

  lemma CoreValsAreLocal(vals: seq<CoreVal>)
    ensures Local(FlatMap(CoreValRefs, vals))
  {
    EachFromElement(CoreValRefs, vals);
  }

  lemma CompositeRefsAreLocal(c: CoreComposite)
    ensures Local(CompositeRefs(c))
  {
    match c {
      case CoreFuncType(params, results) => CoreValsAreLocal(params); CoreValsAreLocal(results);
      case CoreStructType(fields) => CoreValsAreLocal(fields);
    }
  }

  lemma SubTypeRefsAreLocal(sub: SubType)
    ensures Local(SubTypeRefs(sub))
  {
    CompositeRefsAreLocal(sub.inner);
  }

  /** References to the enclosing body point at one of its declarations. */
  ghost predicate InRange(decls: seq<Decl>, refs: seq<IndexedRef>) {
    forall r :: r in refs && r.depth == 0 ==> r.index < |DeclLog(decls, r.space)|
  }

  ghost predicate InModuleRange(decls: seq<ModuleDecl>, refs: seq<IndexedRef>) {
    forall r :: r in refs && r.depth == 0 ==> r.index < |ModuleLog(decls, r.space)|
  }

  ghost predicate ModuleDeclClosed(decls: seq<ModuleDecl>, d: ModuleDecl) {
    match d
    case ModuleTypes(group) => forall sub :: sub in group.subs ==> InModuleRange(decls, SubTypeRefs(sub))
    case ModuleImport(_, _, ty) => InModuleRange(decls, CoreTypeRefRefs(ty))
    case ModuleExport(_, ty) => InModuleRange(decls, CoreTypeRefRefs(ty))
    case ModuleOuterAlias(count, index) => InModuleRange(decls, [IndexedRef(count, Space.CoreType, index)])
  }

  ghost predicate DeclClosed(decls: seq<Decl>, d: Decl)
    decreases d, 0
  {
    match d
    case TypeDecl(Leaf(leaf)) => InRange(decls, LeafRefs(leaf))
    case TypeDecl(Body(_, inner)) => BodyClosed(inner)
    case CoreTypeDecl(ModuleType(inner)) => forall x :: x in inner ==> ModuleDeclClosed(inner, x)
    case CoreTypeDecl(Rec(_)) => true
    case AliasDecl(a) => InRange(decls, [AliasRef(a)])
    case ExportDecl(_, ty) => InRange(decls, TypeRefRefs(ty))
    case ImportDecl(_, ty) => InRange(decls, TypeRefRefs(ty))
  }

  /** No reference inside a body points past the end of the body it belongs to. */
  ghost predicate BodyClosed(decls: seq<Decl>)
    decreases decls, 1
  {
    forall d :: d in decls ==> DeclClosed(decls, d)
  }

  // What is emitted when nothing but references to outer scopes is rewritten

  function CopyModuleDecl(rho: Renaming, d: ModuleDecl): seq<EncModuleDecl> {
    match d
    case ModuleTypes(group) =>
      if group.isExplicit then [EncModuleRec(group.subs)] else Map(s => EncModuleSub(s), group.subs)
    case ModuleImport(mod, name, ty) => [EncModuleImport(mod, name, ty)]
    case ModuleExport(name, ty) => [EncModuleExport(name, ty)]
    case ModuleOuterAlias(count, index) =>
      [EncModuleAlias(count, if count == 0 then index else rho(IndexedRef(count, Space.CoreType, index)))]
  }

  function CopyModuleDecls(rho: Renaming, decls: seq<ModuleDecl>, order: seq<nat>): seq<EncModuleDecl>
    requires Topological.AllBelow(order, |decls|)
  {
    if order == [] then []
    else CopyModuleDecls(rho, decls, order[..|order| - 1]) + CopyModuleDecl(rho, decls[order[|order| - 1]])
  }

  function CopyDecls(env: Env, stack: seq<ScopeId>, decls: seq<Decl>, order: seq<nat>, path: Path): seq<EncDecl>
    requires Topological.AllBelow(order, |decls|)
    decreases decls, 1, |order|
  {
    if order == [] then []
    else
      var i := order[|order| - 1];
      CopyDecls(env, stack, decls, order[..|order| - 1], path) + CopyDecl(env, stack, decls[i], path + [i])
  }

  function CopyBody(env: Env, stack: seq<ScopeId>, decls: seq<Decl>, path: Path): seq<EncDecl>
    decreases decls, 2
  {
    CopyDecls(env, stack, decls, BodyOrder(env.manner, decls), path)
  }

  function CopyDecl(env: Env, stack: seq<ScopeId>, d: Decl, path: Path): seq<EncDecl>
    decreases d, 0
  {
    var inner := Encoder.Inside(env, stack, path);
    match d
    case TypeDecl(Leaf(leaf)) => [EncTypeDecl(EncLeaf(leaf))]
    case TypeDecl(Body(kind, decls)) => [EncTypeDecl(EncBody(kind, CopyBody(env, inner, decls, path)))]
    case CoreTypeDecl(ModuleType(decls)) =>
      [EncCoreDecl(EncModuleType(CopyModuleDecls(RhoAt(env, inner), decls, ModuleOrder(env.manner, decls))))]
    case CoreTypeDecl(Rec(group)) => Map(s => EncCoreDecl(EncSub(s)), group.subs)
    case AliasDecl(a) => [EncAlias(if AliasRef(a).depth == 0 then a else FixAlias(RhoAt(env, stack), a))]
    case ExportDecl(name, ty) => [EncExport(name, ty)]
    case ImportDecl(name, ty) => [EncImport(name, ty)]
  }

  /** The innermost scope of `stack` received its ids in order. */
  ghost predicate KeptHere(t: Table, es: seq<Emission>, stack: seq<ScopeId>, scope: ScopeId) {
    stack != [] && stack[|stack| - 1] == scope && InOrderAt(t, es, scope)
  }

  /** A reference into the innermost scope of `stack` keeps its index. */
  lemma LocalRefsKept(t: Table, es: seq<Emission>, stack: seq<ScopeId>, scope: ScopeId, refs: seq<IndexedRef>)
    requires KeptHere(t, es, stack, scope)
    requires forall r :: r in refs ==> r.depth == 0 && r.index < |LogAt(t, scope, r.space)|
    ensures Keeps(RenamingAt(es, stack), refs)
  {
    forall r | r in refs ensures RenamingAt(es, stack)(r) == r.index {
      InOrderIsIdentity(es, scope, r.space, |LogAt(t, scope, r.space)|, r.index);
    }
  }

  /** Inside a body whose ids are in order, rewriting a definition changes nothing; so rewriting it
      a second time, as the encoder does with defined and function types, equals rewriting it
      once. */
  lemma RewritingTwiceIsRewritingOnce(t: Table, es: seq<Emission>, stack: seq<ScopeId>, scope: ScopeId,
                                      decls: seq<Decl>, leaf: LeafType)
    requires KeptHere(t, es, stack, scope) && OwnLog(t, scope, decls)
    requires InRange(decls, LeafRefs(leaf))
    ensures FixLeaf(RenamingAt(es, stack), leaf) == leaf
    ensures FixNestedLeaf(RenamingAt(es, stack), leaf) == FixLeaf(RenamingAt(es, stack), leaf)
  {
    LeafRefsAreLocal(leaf);
    LocalRefsKept(t, es, stack, scope, LeafRefs(leaf));
    LeafLaws(RenamingAt(es, stack), RenamingAt(es, stack), leaf);
  }

  ghost predicate OwnModuleLog(t: Table, scope: ScopeId, decls: seq<ModuleDecl>) {
    forall space :: LogAt(t, scope, space) == ModuleLog(decls, space)
  }

  lemma ModuleDeclCopied(t: Table, es: seq<Emission>, stack: seq<ScopeId>, scope: ScopeId, full: seq<ModuleDecl>,
                         d: ModuleDecl)
    requires KeptHere(t, es, stack, scope) && OwnModuleLog(t, scope, full) && ModuleDeclClosed(full, d)
    ensures EncModuleDeclOf(RenamingAt(es, stack), d) == CopyModuleDecl(RenamingAt(es, stack), d)
  {
    var rho := RenamingAt(es, stack);
    match d {
      case ModuleTypes(group) =>
        forall i | 0 <= i < |group.subs| ensures FixSubType(rho, group.subs[i]) == group.subs[i] {
          SubTypeRefsAreLocal(group.subs[i]);
          LocalRefsKept(t, es, stack, scope, SubTypeRefs(group.subs[i]));
          SubTypeLaws(rho, rho, group.subs[i]);
        }
        assert FixSubs(rho, group.subs) == group.subs;
      case ModuleImport(_, _, ty) => CoreTypeRefKept(t, es, stack, scope, ty);
      case ModuleExport(_, ty) => CoreTypeRefKept(t, es, stack, scope, ty);
      case ModuleOuterAlias(count, index) =>
        if count == 0 {
          assert IndexedRef(count, Space.CoreType, index) in [IndexedRef(count, Space.CoreType, index)];
          InOrderIsIdentity(es, scope, Space.CoreType, |LogAt(t, scope, Space.CoreType)|, index);
        }
    }
  }

  lemma CoreTypeRefKept(t: Table, es: seq<Emission>, stack: seq<ScopeId>, scope: ScopeId, ty: CoreTypeRef)
    requires KeptHere(t, es, stack, scope)
    requires forall r :: r in CoreTypeRefRefs(ty) ==> r.index < |LogAt(t, scope, r.space)|
    ensures FixCoreTypeRef(RenamingAt(es, stack), ty) == ty
  {
    LocalRefsKept(t, es, stack, scope, CoreTypeRefRefs(ty));
    if CoreTypeRefRefs(ty) != [] { assert CoreTypeRefRefs(ty)[0] in CoreTypeRefRefs(ty); }
  }

  lemma {:induction false} ModuleDeclsCopied(t: Table, es: seq<Emission>, stack: seq<ScopeId>, scope: ScopeId,
                                             decls: seq<ModuleDecl>, order: seq<nat>)
    requires KeptHere(t, es, stack, scope) && OwnModuleLog(t, scope, decls)
    requires Topological.AllBelow(order, |decls|) && forall d :: d in decls ==> ModuleDeclClosed(decls, d)
    ensures EncModuleDecls(RenamingAt(es, stack), decls, order) == CopyModuleDecls(RenamingAt(es, stack), decls, order)
    decreases |order|
  {
    if order != [] {
      var n := |order| - 1;
      assert decls[order[n]] in decls;
      ModuleDeclsCopied(t, es, stack, scope, decls, order[..n]);
      ModuleDeclCopied(t, es, stack, scope, decls, decls[order[n]]);
    }
  }

  lemma {:induction false} DeclsCopied(env: Env, t: Table, stack: seq<ScopeId>, scope: ScopeId, decls: seq<Decl>,
                                       order: seq<nat>, path: Path, base: ScopeId)
    requires env.registry == t.registry && Topological.AllBelow(order, |decls|) && LaidDecls(t, decls, path, base)
    requires KeptHere(t, env.es, stack, scope) && OwnLog(t, scope, decls)
    requires InOrder(t, env.es, base, base + ScopesIn(decls))
    requires forall d :: d in decls ==> DeclClosed(decls, d)
    ensures EncDeclsOf(env, stack, decls, order, path) == CopyDecls(env, stack, decls, order, path)
    decreases decls, 1, |order|
  {
    if order != [] {
      var i := order[|order| - 1];
      assert decls[i] in decls;
      DeclsCopied(env, t, stack, scope, decls, order[..|order| - 1], path, base);
      LaidAt(t, decls, path, base, i);
      StartsWithin(decls, base);
      DeclCopied(env, t, stack, scope, decls, decls[i], path + [i], Starts(decls, base)[i]);
    }
  }

  lemma {:induction false} DeclCopied(env: Env, t: Table, stack: seq<ScopeId>, scope: ScopeId, full: seq<Decl>,
                                      d: Decl, path: Path, base: ScopeId)
    requires env.registry == t.registry && LaidDecl(t, d, path, base) && DeclClosed(full, d)
    requires KeptHere(t, env.es, stack, scope) && OwnLog(t, scope, full)
    requires InOrder(t, env.es, base, base + DeclScopes(d))
    ensures EncDeclOf(env, stack, d, path) == CopyDecl(env, stack, d, path)
    decreases d, 0
  {
    match d {
      case TypeDecl(Leaf(leaf)) => RewritingTwiceIsRewritingOnce(t, env.es, stack, scope, full, leaf);
      case TypeDecl(Body(kind, decls)) =>
        assert DeclScopes(d) == 1 + ScopesIn(decls);
        assert InOrderAt(t, env.es, base);
        DeclsCopied(env, t, stack + [base], base, decls, BodyOrder(env.manner, decls), path, base + 1);
      case CoreTypeDecl(core) => CoreCopied(env, t, stack, core, path, base);
      case AliasDecl(a) =>
        assert AliasRef(a) in [AliasRef(a)];
        AliasKept(t, env.es, stack, scope, a);
      case ExportDecl(_, ty) => TypeRefKept(t, env.es, stack, scope, ty);
      case ImportDecl(_, ty) => TypeRefKept(t, env.es, stack, scope, ty);
    }
  }

  lemma CoreCopied(env: Env, t: Table, stack: seq<ScopeId>, core: CoreType, path: Path, base: ScopeId)
    requires env.registry == t.registry && CoreLaid(t, core, path, base)
    requires InOrder(t, env.es, base, base + CoreScopes(core))
    requires core.ModuleType? ==> forall x :: x in core.moduleDecls ==> ModuleDeclClosed(core.moduleDecls, x)
    ensures EncDeclOf(env, stack, CoreTypeDecl(core), path) == CopyDecl(env, stack, CoreTypeDecl(core), path)
  {
    match core {
      case Rec(group) =>
        assert Map(c => EncCoreDecl(c), EncCoreOf(env, stack, core, path, true))
            == Map(s => EncCoreDecl(EncSub(s)), group.subs);
      case ModuleType(decls) =>
        assert InOrderAt(t, env.es, base);
        ModuleDeclsCopied(t, env.es, stack + [base], base, decls, ModuleOrder(env.manner, decls));
    }
  }

  lemma AliasKept(t: Table, es: seq<Emission>, stack: seq<ScopeId>, scope: ScopeId, a: Alias)
    requires KeptHere(t, es, stack, scope)
    requires AliasRef(a).depth == 0 ==> AliasRef(a).index < |LogAt(t, scope, AliasRef(a).space)|
    ensures AliasRef(a).depth == 0 ==> FixAlias(RenamingAt(es, stack), a) == a
  {
    InOrderIsIdentity(es, scope, AliasRef(a).space, |LogAt(t, scope, AliasRef(a).space)|, AliasRef(a).index);
  }

  lemma TypeRefKept(t: Table, es: seq<Emission>, stack: seq<ScopeId>, scope: ScopeId, ty: TypeRef)
    requires KeptHere(t, es, stack, scope)
    requires forall r :: r in TypeRefRefs(ty) && r.depth == 0 ==> r.index < |LogAt(t, scope, r.space)|
    ensures FixTypeRef(RenamingAt(es, stack), ty) == ty
  {
    LocalRefsKept(t, es, stack, scope, TypeRefRefs(ty));
    TypeRefLaws(RenamingAt(es, stack), RenamingAt(es, stack), ty);
  }

  /** A whole tree whose scopes all received their ids in order: of everything inside a component
      or instance type, at any depth, only aliases of outer scopes are rewritten. */
  lemma OnlyOuterAliasesAreRewritten(env: Env, t: Table, stack: seq<ScopeId>, kind: BodyKind, decls: seq<Decl>,
                                     path: Path, base: ScopeId, nested: bool)
    requires env.registry == t.registry && Laid(t, Body(kind, decls), path, base) && BodyClosed(decls)
    requires InOrder(t, env.es, base, base + ScopeCount(Body(kind, decls)))
    ensures EncTypeOf(env, stack, Body(kind, decls), path, nested)
         == EncBody(kind, CopyBody(env, stack + [base], decls, path))
  {
    assert InOrderAt(t, env.es, base);
    DeclsCopied(env, t, stack + [base], base, decls, BodyOrder(env.manner, decls), path, base + 1);
  }

  /** The same for a tree that is kept, with the ids its own walk assigned. */
  lemma KeptTreesAreCopied(t: Table, before: seq<Emission>, env: Env, stack: seq<ScopeId>, kind: BodyKind,
                           decls: seq<Decl>, path: Path, home: ScopeId, own: nat, base: ScopeId, nested: bool)
    requires env.registry == t.registry && Laid(t, Body(kind, decls), path, base) && home < base
    requires NothingYet(before, base, base + ScopeCount(Body(kind, decls)))
    requires env.es == before + TypeEmissions(env.manner, Body(kind, decls), home, own, base)
    requires TreeKept(env.manner, Body(kind, decls)) && BodyClosed(decls)
    ensures EncTypeOf(env, stack, Body(kind, decls), path, nested)
         == EncBody(kind, CopyBody(env, stack + [base], decls, path))
  {
    TreeEmitsInOrder(t, before, env.manner, Body(kind, decls), path, home, own, base);
    OnlyOuterAliasesAreRewritten(env, t, stack, kind, decls, path, base, nested);
  }
}
