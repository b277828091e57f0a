/** Assigning actual ids to a whole component: the assigner over the same events the encoder is
    fed, and the order in which the component's ids are emitted. */
module Assignment {
  import opened Prelude
  import opened Spaces
  import opened Types
  import opened IndexSpaces
  import opened ActualIds
  import opened FixIndices
  import opened Reindex
  import opened TypeTrees
  import opened Encoder
  import opened Scopes
  import opened Orders
  import opened TypeBodies
  import opened Components
  import Sections
  import Reencoding

  // ------------------------------------------------------------------------------------
  // One event of a component
  // ------------------------------------------------------------------------------------

  /** How an item that is neither a type nor a component is recorded. */
  function PlainEntry(item: Plain): Sections.Entry {
    match item
    case Referring(x) => Sections.ItemEntry(x)
    case CoreModule(_) => Sections.Entry(ModuleSection, Space.CoreModule, 1)
    case Custom(_) => Sections.Entry(CustomSection, Space.NA, 0)
  }

  /** The first `n` ids of a slot; the code aborts when there are fewer. */
  function LookupIds(t: Table, scope: Option<ScopeId>, space: Space, slot: Slot, n: nat): Option<seq<nat>> {
    if scope.None? then None
    else
      var ids := Positions(LogAt(t, scope.value, space), slot);
      if n <= |ids| then Some(ids[..n]) else None
  }

  function IdEmissions(scope: ScopeId, space: Space, ids: seq<nat>): seq<Emission> {
    Map(id => Emission(scope, space, id), ids)
  }

  /** A component's own scope is entered like that of a type body. */
  function ComponentEntered(t: Table, w: Walk, idx: nat, path: Path): Option<Walk> {
    if path !in t.registry then None
    else
      var v := Walk(w.emitted, w.stack + [t.registry[path]], w.nested + [w.stack != []]);
      if LookupOnlyId(t, HomeScope(v), Space.Comp, Slot(Main, idx)).None? then None else Some(v)
  }

  /** Leaving it, the flag pushed on entry stays behind. */
  function ComponentExited(t: Table, w: Walk, idx: nat): Option<Walk> {
    match Emit(w, HomeScope(w), Space.Comp, LookupOnlyId(t, HomeScope(w), Space.Comp, Slot(Main, idx)))
    case None => None
    case Some(v) => Some(v.(stack := v.stack[..|v.stack| - 1]))
  }

  function PlainVisited(t: Table, w: Walk, kind: Section, idx: nat, item: Plain): Option<Walk> {
    var e, slot := PlainEntry(item), Slot(OriginOf(kind), idx);
    match item
    case Custom(_) => Some(w)
    case Referring(StartItem(s)) =>
      (match LookupIds(t, Innermost(w), Space.CompVal, slot, s.results)
       case None => None
       case Some(ids) => Some(Further(w, IdEmissions(Innermost(w).value, Space.CompVal, ids))))
    case _ => Emit(w, Innermost(w), e.space, LookupOnlyId(t, Innermost(w), e.space, slot))
  }

  function CompAssignStep(t: Table, w: Walk, ev: CompEvent): Option<Walk> {
    match ev
    case TypeEvent(e) => AssignStep(t, w, e)
    case EnterComp(idx, path) => ComponentEntered(t, w, idx, path)
    case ExitComp(idx, _) => ComponentExited(t, w, idx)
    case PlainEvent(kind, idx, item) => PlainVisited(t, w, kind, idx, item)
  }

  function CompAssignStepper(t: Table): (Walk, CompEvent) -> Option<Walk> {
    (w, ev) => CompAssignStep(t, w, ev)
  }

  function CompAssignRun(t: Table, w: Walk, evs: seq<CompEvent>): Option<Walk> {
    Fold(CompAssignStepper(t), w, evs)
  }

  /** The assigner as the object it is: the walk's stacks, and the id tables it fills. */
  class Assigner {
    const table: Table
    const ids: ActualIdTables
    var stack: seq<ScopeId>
    var nested: seq<bool>

    function Now(): Walk
      reads this, ids
    {
      Walk(ids.emitted, stack, nested)
    }

    constructor (table: Table, root: ScopeId)
      ensures this.table == table && fresh(ids) && ids.Valid()
      ensures Now() == Walk([], [root], [false])
    {
      this.table := table;
      this.ids := new ActualIdTables();
      stack, nested := [root], [false];
    }

    method EnterScope(path: Path)
      modifies this
      ensures Now() == EnterNode(table, old(Now()), path)
    {
      if path in table.registry { stack := stack + [table.registry[path]]; }
      nested := nested + [path in table.registry];
    }

    method ExitScope(path: Path) returns (ok: bool)
      modifies this
      ensures ok <==> ExitNode(table, old(Now()), path).Some?
      ensures ok ==> Now() == ExitNode(table, old(Now()), path).value
    {
      if nested == [] || nested[|nested| - 1] != (path in table.registry) { return false; }
      if path in table.registry {
        if stack == [] { return false; }
        stack := stack[..|stack| - 1];
      }
      nested := nested[..|nested| - 1];
      return true;
    }

    /** Records an item in the current scope, or, for a node that opened a scope of its own, in
        the scope around it. */
    method AssignActualId(isInnerNode: bool, space: Space, id: Option<nat>) returns (ok: bool)
      requires ids.Valid()
      modifies ids
      ensures ids.Valid()
      ensures var scope := if isInnerNode then Innermost(old(Now())) else HomeScope(old(Now()));
              && (ok <==> Emit(old(Now()), scope, space, id).Some?)
              && (ok ==> Now() == Emit(old(Now()), scope, space, id).value)
    {
      var up := if !isInnerNode && nested != [] && nested[|nested| - 1] then 2 else 1;
      if |stack| < up || id.None? { return false; }
      ids.AssignActualId(stack[|stack| - up], space, id.value);
      return true;
    }

    function WalkNow(): Walk
      reads this
    {
      Walk([], stack, nested)
    }

    method EnterCompType(idx: nat, path: Path, ty: CompType) returns (ok: bool)
      requires ids.Valid()
      modifies this, ids
      ensures ids.Valid()
      ensures ok <==> AssignStep(table, old(Now()), Event.EnterCompType(idx, path, ty)).Some?
      ensures ok ==> Now() == AssignStep(table, old(Now()), Event.EnterCompType(idx, path, ty)).value
    {
      EnterScope(path);
      var id := LookupOnlyId(table, HomeScope(WalkNow()), Space.CompType, Slot(Main, idx));
      if id.None? { return false; }
      if ty.Leaf? { ok := AssignActualId(true, Space.CompType, id); } else { ok := true; }
    }

    method ExitCompType(idx: nat, path: Path, ty: CompType) returns (ok: bool)
      requires ids.Valid()
      modifies this, ids
      ensures ids.Valid()
      ensures ok <==> AssignStep(table, old(Now()), Event.ExitCompType(idx, path, ty)).Some?
      ensures ok ==> Now() == AssignStep(table, old(Now()), Event.ExitCompType(idx, path, ty)).value
    {
      var id := LookupOnlyId(table, HomeScope(WalkNow()), Space.CompType, Slot(Main, idx));
      if id.None? { return false; }
      if ty.Body? {
        ok := AssignActualId(false, Space.CompType, id);
        if !ok { return; }
      }
      ok := ExitScope(path);
    }

    method VisitDecl(kind: BodyKind, i: nat, d: Decl) returns (ok: bool)
      requires ids.Valid()
      modifies this, ids
      ensures ids.Valid()
      ensures ok <==> AssignStep(table, old(Now()), Event.DeclEvent(kind, i, d)).Some?
      ensures ok ==> Now() == AssignStep(table, old(Now()), Event.DeclEvent(kind, i, d)).value
    {
      var id := LookupOnlyId(table, Innermost(WalkNow()), DeclSpace(d), Slot(Main, i));
      if id.None? { return false; }
      if d.TypeDecl? || d.CoreTypeDecl? { ok := true; } else { ok := AssignActualId(true, DeclSpace(d), id); }
    }

    method VisitSubType(parent: nat, sub: nat) returns (ok: bool)
      requires ids.Valid()
      modifies this, ids
      ensures ids.Valid()
      ensures ok <==> AssignStep(table, old(Now()), Event.SubTypeEvent(parent, sub)).Some?
      ensures ok ==> Now() == AssignStep(table, old(Now()), Event.SubTypeEvent(parent, sub)).value
    {
      var id := LookupId(table, Innermost(WalkNow()), Space.CoreType, Slot(Main, parent), sub);
      ok := AssignActualId(true, Space.CoreType, id);
    }

    method EnterCoreType(idx: nat, path: Path, core: CoreType) returns (ok: bool)
      requires ids.Valid()
      modifies this, ids
      ensures ids.Valid()
      ensures ok <==> AssignStep(table, old(Now()), Event.EnterCoreType(idx, path, core)).Some?
      ensures ok ==> Now() == AssignStep(table, old(Now()), Event.EnterCoreType(idx, path, core)).value
    {
      EnterScope(path);
      ok := LookupOnlyId(table, HomeScope(WalkNow()), Space.CoreType, Slot(Main, idx)).Some?;
    }

    method VisitModuleDecl(i: nat, d: ModuleDecl) returns (ok: bool)
      requires ids.Valid()
      modifies this, ids
      ensures ids.Valid()
      ensures ok <==> AssignStep(table, old(Now()), Event.ModuleDeclEvent(i, d)).Some?
      ensures ok ==> Now() == AssignStep(table, old(Now()), Event.ModuleDeclEvent(i, d)).value
    {
      var id := LookupOnlyId(table, Innermost(WalkNow()), ModuleDeclSpace(d), Slot(Main, i));
      ok := AssignActualId(true, ModuleDeclSpace(d), id);
    }

    method ExitCoreType(idx: nat, path: Path, core: CoreType) returns (ok: bool)
      requires ids.Valid()
      modifies this, ids
      ensures ids.Valid()
      ensures ok <==> AssignStep(table, old(Now()), Event.ExitCoreType(idx, path, core)).Some?
      ensures ok ==> Now() == AssignStep(table, old(Now()), Event.ExitCoreType(idx, path, core)).value
    {
      var id := LookupOnlyId(table, HomeScope(WalkNow()), Space.CoreType, Slot(Main, idx));
      ok := AssignActualId(false, Space.CoreType, id);
      if !ok { return; }
      ok := ExitScope(path);
    }

    /** Dispatches one type event. */
    method Drive(ev: Event) returns (ok: bool)
      requires ids.Valid()
      modifies this, ids
      ensures ids.Valid()
      ensures ok <==> AssignStep(table, old(Now()), ev).Some?
      ensures ok ==> Now() == AssignStep(table, old(Now()), ev).value
    {
      match ev {
        case EnterCompType(idx, path, ty) => ok := EnterCompType(idx, path, ty);
        case ExitCompType(idx, path, ty) => ok := ExitCompType(idx, path, ty);
        case DeclEvent(kind, i, d) => ok := VisitDecl(kind, i, d);
        case EnterRecGroup(_) => ok := true;
        case SubTypeEvent(parent, sub) => ok := VisitSubType(parent, sub);
        case ExitRecGroup => ok := true;
        case EnterCoreType(idx, path, core) => ok := EnterCoreType(idx, path, core);
        case ModuleDeclEvent(i, d) => ok := VisitModuleDecl(i, d);
        case ExitCoreType(idx, path, core) => ok := ExitCoreType(idx, path, core);
      }
    }

    method EnterComponent(idx: nat, path: Path) returns (ok: bool)
      modifies this
      ensures ok <==> ComponentEntered(table, old(Now()), idx, path).Some?
      ensures ok ==> Now() == ComponentEntered(table, old(Now()), idx, path).value
    {
      if path !in table.registry { return false; }
      nested := nested + [stack != []];
      stack := stack + [table.registry[path]];
      ok := LookupOnlyId(table, HomeScope(WalkNow()), Space.Comp, Slot(Main, idx)).Some?;
    }

    method ExitComponent(idx: nat) returns (ok: bool)
      requires ids.Valid()
      modifies this, ids
      ensures ids.Valid()
      ensures ok <==> ComponentExited(table, old(Now()), idx).Some?
      ensures ok ==> Now() == ComponentExited(table, old(Now()), idx).value
    {
      var id := LookupOnlyId(table, HomeScope(WalkNow()), Space.Comp, Slot(Main, idx));
      ok := AssignActualId(false, Space.Comp, id);
      if ok { stack := stack[..|stack| - 1]; }
    }

    /** One id per result of a start function. */
    method VisitStart(origin: Origin, idx: nat, results: nat) returns (ok: bool)
      requires ids.Valid()
      modifies ids
      ensures ids.Valid()
      ensures var found := LookupIds(table, Innermost(old(Now())), Space.CompVal, Slot(origin, idx), results);
              && (ok <==> found.Some?)
              && (ok ==>
                    Now() == Further(old(Now()), IdEmissions(Innermost(old(Now())).value, Space.CompVal, found.value)))
    {
      var found := LookupIds(table, Innermost(WalkNow()), Space.CompVal, Slot(origin, idx), results);
      if found.None? { return false; }
      ghost var before, scope := ids.emitted, stack[|stack| - 1];
      assert before + IdEmissions(scope, Space.CompVal, found.value[..0]) == before;
      for i := 0 to |found.value|
        invariant ids.Valid() && ids.emitted == before + IdEmissions(scope, Space.CompVal, found.value[..i])
      {
        EmitOneMore(before, scope, Space.CompVal, found.value, i);
        ids.AssignActualId(stack[|stack| - 1], Space.CompVal, found.value[i]);
      }
      assert found.value[..|found.value|] == found.value;
      return true;
    }

    method VisitPlain(kind: Section, idx: nat, item: Plain) returns (ok: bool)
      requires ids.Valid()
      modifies ids
      ensures ids.Valid()
      ensures ok <==> PlainVisited(table, old(Now()), kind, idx, item).Some?
      ensures ok ==> Now() == PlainVisited(table, old(Now()), kind, idx, item).value
    {
      match item {
        case Custom(_) => return true;
        case Referring(StartItem(s)) =>
          ok := VisitStart(OriginOf(kind), idx, s.results);
        case _ =>
          var e := PlainEntry(item);
          var id := LookupOnlyId(table, Innermost(WalkNow()), e.space, Slot(OriginOf(kind), idx));
          ok := AssignActualId(true, e.space, id);
      }
    }

    /** Dispatches one event of a component. */
    method DriveComponent(ev: CompEvent) returns (ok: bool)
      requires ids.Valid()
      modifies this, ids
      ensures ids.Valid()
      ensures ok <==> CompAssignStep(table, old(Now()), ev).Some?
      ensures ok ==> Now() == CompAssignStep(table, old(Now()), ev).value
    {
      match ev {
        case TypeEvent(e) => ok := Drive(e);
        case EnterComp(idx, path) => ok := EnterComponent(idx, path);
        case ExitComp(idx, _) => ok := ExitComponent(idx);
        case PlainEvent(kind, idx, item) => ok := VisitPlain(kind, idx, item);
      }
    }

    /** Assigns ids along all events. */
    method AssignIndices(events: seq<CompEvent>) returns (ok: bool)
      requires ids.Valid()
      modifies this, ids
      ensures ids.Valid()
      ensures ok <==> CompAssignRun(table, old(Now()), events).Some?
      ensures ok ==> Now() == CompAssignRun(table, old(Now()), events).value
    {
      ghost var start := Now();
      for i := 0 to |events|
        invariant ids.Valid() && CompAssignRun(table, start, events[..i]) == Some(Now())
      {
        assert events[..i + 1] == events[..i] + [events[i]];
        CompAssignSnoc(table, start, events[..i], events[i]);
        ok := DriveComponent(events[i]);
        if !ok {
          AssignAborts(table, start, events, i + 1);
          return false;
        }
      }
      assert events[..|events|] == events;
      return true;
    }
  }

  lemma EmitOneMore(before: seq<Emission>, scope: ScopeId, space: Space, ids: seq<nat>, i: nat)
    requires i < |ids|
    ensures before + IdEmissions(scope, space, ids[..i]) + [Emission(scope, space, ids[i])]
         == before + IdEmissions(scope, space, ids[..i + 1])
  {
    assert ids[..i + 1] == ids[..i] + [ids[i]];
  }

  lemma CompAssignSnoc(t: Table, w: Walk, evs: seq<CompEvent>, ev: CompEvent)
    ensures CompAssignRun(t, w, evs + [ev])
         == match CompAssignRun(t, w, evs) case None => None case Some(mid) => CompAssignStep(t, mid, ev)
  {
    FoldSnoc(CompAssignStepper(t), w, evs, ev);
  }

  lemma CompAssignConcat(t: Table, w: Walk, a: seq<CompEvent>, b: seq<CompEvent>)
    ensures CompAssignRun(t, w, a + b)
         == match CompAssignRun(t, w, a) case None => None case Some(mid) => CompAssignRun(t, mid, b)
  {
    FoldConcat(CompAssignStepper(t), w, a, b);
  }

  lemma CompAssignThree(t: Table, w: Walk, first: CompEvent, middle: seq<CompEvent>, last: CompEvent)
    ensures CompAssignRun(t, w, [first] + middle + [last])
         == match CompAssignStep(t, w, first)
            case None => None
            case Some(a) =>
              match CompAssignRun(t, a, middle) case None => None case Some(b) => CompAssignStep(t, b, last)
  {
    FoldThree(CompAssignStepper(t), w, first, middle, last);
  }

  lemma AssignAborts(t: Table, w: Walk, events: seq<CompEvent>, i: nat)
    requires i <= |events| && CompAssignRun(t, w, events[..i]).None?
    ensures CompAssignRun(t, w, events).None?
  {
    assert events == events[..i] + events[i..];
    CompAssignConcat(t, w, events[..i], events[i..]);
  }

  // ------------------------------------------------------------------------------------
  // What a component's items emit
  // ------------------------------------------------------------------------------------

  function EntryAt(c: Component, visit: (Section, nat)): Sections.Entry
    requires IsItem(c, visit)
  {
    var (kind, i) := visit;
    match kind
    case ComponentSection => Sections.Entry(ComponentSection, Space.Comp, 1)
    case ComponentTypeSection => Sections.Entry(ComponentTypeSection, Space.CompType, 1)
    case CoreTypeSection =>
      Sections.Entry(CoreTypeSection, Space.CoreType, if c.coreTypes[i].Rec? then |c.coreTypes[i].group.subs| else 1)
    case _ => PlainEntry(c.plain[kind][i])
  }

  /** The runs stay within the vectors, and every vector holds items of its kind. */
  predicate Typed(c: Component) {
    forall j :: 0 <= j < |Sections.Walk(c.runs)| ==> TypedAt(c, Sections.Walk(c.runs)[j])
  }

  predicate TypedAt(c: Component, visit: (Section, nat)) {
    IsItem(c, visit) && EntryAt(c, visit).kind == visit.0
  }

  /** The history a component was built by: its items in the order of its sections. */
  function HistOf(c: Component): (h: seq<Sections.Entry>)
    requires Typed(c)
    ensures |h| == |Sections.Walk(c.runs)|
    ensures forall j :: 0 <= j < |h| ==>
              TypedAt(c, Sections.Walk(c.runs)[j]) && h[j] == EntryAt(c, Sections.Walk(c.runs)[j])
  {
    seq(|Sections.Walk(c.runs)|, j requires 0 <= j < |Sections.Walk(c.runs)| =>
      assert TypedAt(c, Sections.Walk(c.runs)[j]); EntryAt(c, Sections.Walk(c.runs)[j]))
  }

  lemma HistOfIsLegal(c: Component)
    requires Typed(c)
    ensures Sections.Legal(HistOf(c))
  {
    forall e | e in HistOf(c) && OriginOf(e.kind) == Main && e.space != NA
      ensures e.kind == Sections.MainKind(e.space)
    {
      var j :| 0 <= j < |HistOf(c)| && HistOf(c)[j] == e;
      EntryAtIsLegal(c, Sections.Walk(c.runs)[j]);
    }
  }

  lemma EntryAtIsLegal(c: Component, visit: (Section, nat))
    requires IsItem(c, visit)
    ensures var e := EntryAt(c, visit);
            OriginOf(e.kind) == Main && e.space != NA ==> e.kind == Sections.MainKind(e.space)
  {
  }

  /** The slot of a recorded item is the position it is visited at. */
  lemma SlotsAreVisits(c: Component, j: nat)
    requires Typed(c) && j < |HistOf(c)|
    ensures var (kind, i) := Sections.Walk(c.runs)[j];
            Sections.SlotOf(HistOf(c), j) == Slot(OriginOf(kind), i) && HistOf(c)[j].kind == kind
  {
    Sections.WalkExpands(c.runs);
    forall m | 0 <= m < |HistOf(c)| ensures Sections.Kinds(HistOf(c))[m] == Sections.Expand(c.runs)[m] {
      assert TypedAt(c, Sections.Walk(c.runs)[m]);
    }
    assert Sections.Kinds(HistOf(c)) == Sections.Expand(c.runs);
    Sections.WalkVisitsInOrder(c.runs, HistOf(c));
    assert Sections.InOrder(HistOf(c))[j] == Sections.Walk(c.runs)[j];
  }

  function BaseOf(t: Table, path: Path): nat {
    if path in t.registry then t.registry[path] else 0
  }

  ghost predicate PlacedType(t: Table, ty: CompType, path: Path, scope: ScopeId) {
    Laid(t, ty, path, BaseOf(t, path)) && (ty.Body? ==> scope < BaseOf(t, path))
  }

  ghost predicate PlacedCore(t: Table, core: CoreType, path: Path, scope: ScopeId) {
    CoreLaid(t, core, path, BaseOf(t, path)) && (core.ModuleType? ==> scope < BaseOf(t, path))
  }

  /** The component as parsing left it: its scope knows the ids of its own items, type bodies and
      nested components have later scopes of their own, and only recorded items are visited. */
  ghost predicate Placed(t: Table, plan: Plan, c: Component, path: Path, scope: ScopeId)
    decreases c
  {
    && Typed(c)
    && (forall v :: v in VisitsOf(plan, c, path) ==> v in Sections.Walk(c.runs))
    && (forall space: Space ::
          LogAt(t, scope, space) == if space == NA then [] else Sections.LogOf(HistOf(c), space))
    && (forall i :: 0 <= i < |c.compTypes| ==> PlacedType(t, c.compTypes[i], path + [0, i], scope))
    && (forall i :: 0 <= i < |c.coreTypes| ==> PlacedCore(t, c.coreTypes[i], path + [1, i], scope))
    && (forall i :: 0 <= i < |c.components| ==>
          && path + [2, i] in t.registry && scope < t.registry[path + [2, i]]
          && Placed(t, plan, c.components[i], path + [2, i], t.registry[path + [2, i]]))
  }

  /** The ids of the item's own slot. */
  function OwnIds(t: Table, c: Component, visit: (Section, nat), scope: ScopeId): seq<nat>
    requires IsItem(c, visit)
  {
    if EntryAt(c, visit).space == NA then []
    else Positions(LogAt(t, scope, EntryAt(c, visit).space), Slot(OriginOf(visit.0), visit.1))
  }

  /** What an item emits: what is nested in it, then its own ids. */
  function ItemEmissions(t: Table, plan: Plan, c: Component, visit: (Section, nat), path: Path,
                         scope: ScopeId): seq<Emission>
    requires WellFormed(plan, c, path) && IsItem(c, visit)
    decreases c, 1
  {
    InnerEmissions(t, plan, c, visit, path)
    + IdEmissions(scope, EntryAt(c, visit).space, OwnIds(t, c, visit, scope))
  }

  function InnerEmissions(t: Table, plan: Plan, c: Component, visit: (Section, nat), path: Path): seq<Emission>
    requires WellFormed(plan, c, path) && IsItem(c, visit)
    decreases c, 0
  {
    var (kind, i) := visit;
    match kind
    case ComponentSection =>
      CompEmissions(t, plan, c.components[i], path + [2, i], BaseOf(t, path + [2, i]))
    case ComponentTypeSection => TypeInner(plan.manner, c.compTypes[i], BaseOf(t, path + [0, i]))
    case CoreTypeSection => CoreInner(plan.manner, c.coreTypes[i], BaseOf(t, path + [1, i]))
    case _ => []
  }

  function TypeInner(m: Manner, ty: CompType, base: nat): seq<Emission> {
    match ty
    case Body(_, decls) => BodyEmissions(m, decls, base)
    case Leaf(_) => []
  }

  function CoreInner(m: Manner, core: CoreType, base: nat): seq<Emission> {
    match core
    case ModuleType(decls) => ModuleEmissions(ModuleOrder(m, decls), base)
    case Rec(_) => []
  }

  function WalkEmissions(t: Table, plan: Plan, c: Component, visits: Visiting, path: Path,
                         scope: ScopeId): seq<Emission>
    requires WellFormed(plan, c, path)
    requires forall v :: v in visits ==> IsItem(c, v)
    decreases c, 2, |visits|
  {
    if visits == [] then []
    else
      var n := |visits| - 1;
      WalkEmissions(t, plan, c, visits[..n], path, scope) + ItemEmissions(t, plan, c, visits[n], path, scope)
  }

  function CompEmissions(t: Table, plan: Plan, c: Component, path: Path, scope: ScopeId): seq<Emission>
    requires WellFormed(plan, c, path)
    decreases c, 3
  {
    WalkEmissions(t, plan, c, VisitsOf(plan, c, path), path, scope)
  }

  // ------------------------------------------------------------------------------------
  // The run of the assigner
  // ------------------------------------------------------------------------------------

  /** Only set flags were left behind. */
  predicate Leaked(before: seq<bool>, after: seq<bool>) {
    before <= after && forall i :: |before| <= i < |after| ==> after[i]
  }

  /** The assigner is back where it was, having emitted `es`. */
  predicate Went(w: Walk, after: Walk, es: seq<Emission>) {
    after.emitted == w.emitted + es && after.stack == w.stack && Leaked(w.nested, after.nested)
  }

  lemma WentOn(w: Walk, mid: Walk, after: Walk, a: seq<Emission>, b: seq<Emission>)
    requires Went(w, mid, a) && Went(mid, after, b)
    ensures Went(w, after, a + b)
  {
    ConcatAssoc(w.emitted, a, b);
  }

  lemma {:induction false} TypeEventsAssigned(t: Table, w: Walk, evs: seq<Event>)
    ensures CompAssignRun(t, w, TypeEvents(evs)) == AssignRun(t, w, evs)
  {
    if evs != [] {
      var n := |evs| - 1;
      TypeEventsAssigned(t, w, evs[..n]);
      CompAssignSnoc(t, w, TypeEvents(evs[..n]), TypeEvent(evs[n]));
      AssignRunSnoc(t, w, evs[..n], evs[n]);
      assert evs == evs[..n] + [evs[n]];
      assert TypeEvents(evs) == TypeEvents(evs[..n]) + [TypeEvent(evs[n])];
    }
  }

  /** A recorded item owns as many ids as its entry says, those of its slot. */
  lemma OwnIdsAre(t: Table, plan: Plan, c: Component, j: nat, path: Path, scope: ScopeId)
    requires Placed(t, plan, c, path, scope) && j < |HistOf(c)|
    ensures OwnIds(t, c, Sections.Walk(c.runs)[j], scope)
         == if HistOf(c)[j].space == NA then [] else Sections.IdsOf(HistOf(c), j)
    ensures HistOf(c)[j].space != NA ==> |OwnIds(t, c, Sections.Walk(c.runs)[j], scope)| == HistOf(c)[j].width
  {
    SlotsAreVisits(c, j);
    if HistOf(c)[j].space != NA {
      HistOfIsLegal(c);
      Sections.IdsAreConsecutive(HistOf(c), j);
      assert LogAt(t, scope, HistOf(c)[j].space) == Sections.LogOf(HistOf(c), HistOf(c)[j].space);
    }
  }

  lemma OneEmission(scope: ScopeId, space: Space, ids: seq<nat>)
    requires |ids| == 1
    ensures IdEmissions(scope, space, ids) == [Emission(scope, space, ids[0])]
  {
  }

  lemma {:induction false} SubTypesRun(t: Table, w: Walk, scope: ScopeId, idx: nat, n: nat)
    requires StandsIn(w, scope) && n <= |Positions(LogAt(t, scope, Space.CoreType), Slot(Main, idx))|
    ensures AssignRun(t, w, SubTypeEvents(idx, n))
         == Some(Further(w, IdEmissions(scope, Space.CoreType,
                                        Positions(LogAt(t, scope, Space.CoreType), Slot(Main, idx))[..n])))
  {
    var ids := Positions(LogAt(t, scope, Space.CoreType), Slot(Main, idx));
    if n == 0 {
      assert w.emitted + IdEmissions(scope, Space.CoreType, ids[..0]) == w.emitted;
    } else {
      SubTypesRun(t, w, scope, idx, n - 1);
      AssignRunSnoc(t, w, SubTypeEvents(idx, n - 1), SubTypeEvent(idx, n - 1));
      EmitOneMore(w.emitted, scope, Space.CoreType, ids, n - 1);
    }
  }

  /** A recursion group at the top level: one id per type. */
  lemma TopGroupRun(t: Table, w: Walk, m: Manner, scope: ScopeId, group: RecGroup, idx: nat, path: Path)
    requires StandsIn(w, scope)
    requires |Positions(LogAt(t, scope, Space.CoreType), Slot(Main, idx))| == |group.subs|
    ensures AssignRun(t, w, CoreTypeEvents(m, Rec(group), idx, path))
         == Some(Further(w, IdEmissions(scope, Space.CoreType,
                                        Positions(LogAt(t, scope, Space.CoreType), Slot(Main, idx)))))
  {
    var ids := Positions(LogAt(t, scope, Space.CoreType), Slot(Main, idx));
    SubTypesRun(t, w, scope, idx, |group.subs|);
    assert ids[..|group.subs|] == ids;
    AssignRunThree(t, w, EnterRecGroup(group), SubTypeEvents(idx, |group.subs|), ExitRecGroup);
  }

  lemma TypeEmitted(m: Manner, ty: CompType, home: ScopeId, own: nat, base: nat)
    ensures TypeEmissions(m, ty, home, own, base) == TypeInner(m, ty, base) + [Emission(home, Space.CompType, own)]
  {
    if ty.Leaf? { assert [] + [Emission(home, Space.CompType, own)] == [Emission(home, Space.CompType, own)]; }
  }

  lemma FurtherWent(w: Walk, es: seq<Emission>)
    ensures Went(w, Further(w, es), es)
  {
  }

  lemma TypeItemAssigned(t: Table, w: Walk, m: Manner, ty: CompType, i: nat, path: Path, scope: ScopeId,
                         ids: seq<nat>)
    requires StandsIn(w, scope) && PlacedType(t, ty, path, scope)
    requires ids == Positions(LogAt(t, scope, Space.CompType), Slot(Main, i)) && |ids| == 1
    ensures CompAssignRun(t, w, TypeEvents(CompTypeEvents(m, ty, i, path)))
         == Some(Further(w, TypeInner(m, ty, BaseOf(t, path)) + IdEmissions(scope, Space.CompType, ids)))
  {
    TypeEventsAssigned(t, w, CompTypeEvents(m, ty, i, path));
    assert ids == [ids[0]];
    CompTypeRun(t, w, m, ty, i, path, scope, ids[0], BaseOf(t, path));
    TypeEmitted(m, ty, scope, ids[0], BaseOf(t, path));
    OneEmission(scope, Space.CompType, ids);
  }

  lemma CoreItemAssigned(t: Table, w: Walk, m: Manner, core: CoreType, i: nat, path: Path, scope: ScopeId,
                         ids: seq<nat>)
    requires StandsIn(w, scope) && PlacedCore(t, core, path, scope)
    requires ids == Positions(LogAt(t, scope, Space.CoreType), Slot(Main, i))
    requires |ids| == if core.Rec? then |core.group.subs| else 1
    ensures CompAssignRun(t, w, TypeEvents(CoreTypeEvents(m, core, i, path)))
         == Some(Further(w, CoreInner(m, core, BaseOf(t, path)) + IdEmissions(scope, Space.CoreType, ids)))
  {
    TypeEventsAssigned(t, w, CoreTypeEvents(m, core, i, path));
    match core {
      case Rec(group) =>
        TopGroupRun(t, w, m, scope, group, i, path);
        assert [] + IdEmissions(scope, Space.CoreType, ids) == IdEmissions(scope, Space.CoreType, ids);
      case ModuleType(decls) =>
        assert ids == [ids[0]];
        ModuleRun(t, w, m, decls, i, path, scope, ids[0], BaseOf(t, path));
        OneEmission(scope, Space.CoreType, ids);
    }
  }

  lemma PlainItemAssigned(t: Table, w: Walk, kind: Section, i: nat, item: Plain, scope: ScopeId, ids: seq<nat>)
    requires StandsIn(w, scope)
    requires ids == if PlainEntry(item).space == NA then []
                    else Positions(LogAt(t, scope, PlainEntry(item).space), Slot(OriginOf(kind), i))
    requires PlainEntry(item).space != NA ==> |ids| == PlainEntry(item).width
    ensures CompAssignRun(t, w, [PlainEvent(kind, i, item)])
         == Some(Further(w, IdEmissions(scope, PlainEntry(item).space, ids)))
  {
    var ev := PlainEvent(kind, i, item);
    CompAssignSnoc(t, w, [], ev);
    assert [] + [ev] == [ev];
    match item {
      case Custom(_) => assert w.emitted + IdEmissions(scope, NA, []) == w.emitted;
      case Referring(StartItem(s)) => assert ids[..s.results] == ids;
      case Referring(_) => OneEmission(scope, PlainEntry(item).space, ids);
      case CoreModule(_) => OneEmission(scope, PlainEntry(item).space, ids);
    }
  }

  /** A nested component, given the run of its items. */
  lemma NestedAssigned(t: Table, w: Walk, i: nat, path: Path, evs: seq<CompEvent>, scope: ScopeId, ids: seq<nat>,
                       inner: seq<Emission>)
    requires StandsIn(w, scope) && path in t.registry
    requires ids == Positions(LogAt(t, scope, Space.Comp), Slot(Main, i)) && |ids| == 1
    requires var v := Walk(w.emitted, w.stack + [t.registry[path]], w.nested + [true]);
             CompAssignRun(t, v, evs).Some? && Went(v, CompAssignRun(t, v, evs).value, inner)
    ensures var after := CompAssignRun(t, w, [EnterComp(i, path)] + evs + [ExitComp(i, path)]);
            after.Some? && Went(w, after.value, inner + IdEmissions(scope, Space.Comp, ids))
  {
    var v := Walk(w.emitted, w.stack + [t.registry[path]], w.nested + [true]);
    var b := CompAssignRun(t, v, evs).value;
    assert HomeScope(v) == Some(scope);
    assert HomeScope(b) == Some(scope);
    CompAssignThree(t, w, EnterComp(i, path), evs, ExitComp(i, path));
    assert CompAssignStep(t, w, EnterComp(i, path)) == Some(v);
    OneEmission(scope, Space.Comp, ids);
    ConcatAssoc(w.emitted, inner, IdEmissions(scope, Space.Comp, ids));
    assert b.stack[..|b.stack| - 1] == w.stack;
  }

  lemma PlainVisitAssigned(t: Table, w: Walk, plan: Plan, c: Component, visit: (Section, nat), path: Path,
                           scope: ScopeId)
    requires WellFormed(plan, c, path) && StandsIn(w, scope) && TypedAt(c, visit)
    requires visit.0 != ComponentSection && visit.0 != ComponentTypeSection && visit.0 != CoreTypeSection
    requires EntryAt(c, visit).space != NA ==> |OwnIds(t, c, visit, scope)| == EntryAt(c, visit).width
    ensures CompAssignRun(t, w, ItemEvents(plan, c, visit, path))
         == Some(Further(w, ItemEmissions(t, plan, c, visit, path, scope)))
  {
    var (kind, i) := visit;
    var ids := OwnIds(t, c, visit, scope);
    var own := IdEmissions(scope, EntryAt(c, visit).space, ids);
    assert [] + own == own;
    if kind == CustomSection && i in c.deleted {
      assert w.emitted + own == w.emitted;
    } else {
      PlainItemAssigned(t, w, kind, i, c.plain[kind][i], scope, ids);
    }
  }

  lemma TypeVisitAssigned(t: Table, w: Walk, plan: Plan, c: Component, i: nat, path: Path, scope: ScopeId)
    requires WellFormed(plan, c, path) && StandsIn(w, scope) && i < |c.compTypes|
    requires PlacedType(t, c.compTypes[i], path + [0, i], scope)
    requires |OwnIds(t, c, (ComponentTypeSection, i), scope)| == 1
    ensures CompAssignRun(t, w, ItemEvents(plan, c, (ComponentTypeSection, i), path))
         == Some(Further(w, ItemEmissions(t, plan, c, (ComponentTypeSection, i), path, scope)))
  {
    TypeItemAssigned(t, w, plan.manner, c.compTypes[i], i, path + [0, i], scope,
                     OwnIds(t, c, (ComponentTypeSection, i), scope));
  }

  lemma CoreVisitAssigned(t: Table, w: Walk, plan: Plan, c: Component, i: nat, path: Path, scope: ScopeId)
    requires WellFormed(plan, c, path) && StandsIn(w, scope) && i < |c.coreTypes|
    requires PlacedCore(t, c.coreTypes[i], path + [1, i], scope)
    requires |OwnIds(t, c, (CoreTypeSection, i), scope)| == EntryAt(c, (CoreTypeSection, i)).width
    ensures CompAssignRun(t, w, ItemEvents(plan, c, (CoreTypeSection, i), path))
         == Some(Further(w, ItemEmissions(t, plan, c, (CoreTypeSection, i), path, scope)))
  {
    CoreItemAssigned(t, w, plan.manner, c.coreTypes[i], i, path + [1, i], scope,
                     OwnIds(t, c, (CoreTypeSection, i), scope));
  }

  /** The component at position `i`, its scope registered and laid out. */
  ghost predicate PlacedChild(t: Table, plan: Plan, c: Component, i: nat, path: Path, scope: ScopeId)
    requires i < |c.components|
  {
    && path + [2, i] in t.registry && scope < t.registry[path + [2, i]]
    && WellFormed(plan, c.components[i], path + [2, i])
    && Placed(t, plan, c.components[i], path + [2, i], t.registry[path + [2, i]])
  }

  lemma ChildPlaced(t: Table, plan: Plan, c: Component, i: nat, path: Path, scope: ScopeId)
    requires WellFormed(plan, c, path) && Placed(t, plan, c, path, scope) && i < |c.components|
    ensures PlacedChild(t, plan, c, i, path, scope)
  {
  }

  lemma {:induction false} ChildVisitAssigned(t: Table, w: Walk, plan: Plan, c: Component, i: nat, path: Path,
                                              scope: ScopeId)
    requires plan.registry == t.registry && WellFormed(plan, c, path) && StandsIn(w, scope) && i < |c.components|
    requires PlacedChild(t, plan, c, i, path, scope) && |OwnIds(t, c, (ComponentSection, i), scope)| == 1
    ensures var after := CompAssignRun(t, w, ItemEvents(plan, c, (ComponentSection, i), path));
            after.Some? && Went(w, after.value, ItemEmissions(t, plan, c, (ComponentSection, i), path, scope))
    decreases c, 0
  {
    var p := path + [2, i];
    var v := Walk(w.emitted, w.stack + [t.registry[p]], w.nested + [true]);
    ComponentAssigned(t, v, plan, c.components[i], p, t.registry[p]);
    NestedAssigned(t, w, i, p, ComponentEvents(plan, c.components[i], p), scope,
                   OwnIds(t, c, (ComponentSection, i), scope),
                   CompEmissions(t, plan, c.components[i], p, t.registry[p]));
  }

  /** What is known of a recorded item when it is visited. */
  ghost predicate PlacedVisit(t: Table, plan: Plan, c: Component, visit: (Section, nat), path: Path, scope: ScopeId) {
    && TypedAt(c, visit)
    && (EntryAt(c, visit).space != NA ==> |OwnIds(t, c, visit, scope)| == EntryAt(c, visit).width)
    && match visit.0
       case ComponentSection => PlacedChild(t, plan, c, visit.1, path, scope)
       case ComponentTypeSection => PlacedType(t, c.compTypes[visit.1], path + [0, visit.1], scope)
       case CoreTypeSection => PlacedCore(t, c.coreTypes[visit.1], path + [1, visit.1], scope)
       case _ => true
  }

  lemma VisitPlaced(t: Table, plan: Plan, c: Component, visit: (Section, nat), path: Path, scope: ScopeId)
    requires WellFormed(plan, c, path) && Placed(t, plan, c, path, scope) && visit in Sections.Walk(c.runs)
    ensures PlacedVisit(t, plan, c, visit, path, scope)
  {
    var visits := Sections.Walk(c.runs);
    var j :| 0 <= j < |visits| && visits[j] == visit;
    assert TypedAt(c, visits[j]);
    OwnIdsAre(t, plan, c, j, path, scope);
    if visit.0 == ComponentSection { ChildPlaced(t, plan, c, visit.1, path, scope); }
  }

  lemma {:induction false} ItemAssigned(t: Table, w: Walk, plan: Plan, c: Component, visit: (Section, nat), path: Path,
                                        scope: ScopeId)
    requires plan.registry == t.registry && WellFormed(plan, c, path) && StandsIn(w, scope)
    requires PlacedVisit(t, plan, c, visit, path, scope)
    ensures var after := CompAssignRun(t, w, ItemEvents(plan, c, visit, path));
            after.Some? && Went(w, after.value, ItemEmissions(t, plan, c, visit, path, scope))
    decreases c, 1
  {
    var (kind, i) := visit;
    FurtherWent(w, ItemEmissions(t, plan, c, visit, path, scope));
    match kind {
      case ComponentSection => ChildVisitAssigned(t, w, plan, c, i, path, scope);
      case ComponentTypeSection => TypeVisitAssigned(t, w, plan, c, i, path, scope);
      case CoreTypeSection => CoreVisitAssigned(t, w, plan, c, i, path, scope);
      case _ => PlainVisitAssigned(t, w, plan, c, visit, path, scope);
    }
  }

  /** Only recorded items are visited. */
  predicate Recorded(c: Component, visits: Visiting) {
    forall v :: v in visits ==> v in Sections.Walk(c.runs) && IsItem(c, v)
  }

  lemma {:induction false} VisitsAssigned(t: Table, w: Walk, plan: Plan, c: Component, visits: Visiting, path: Path,
                                          scope: ScopeId)
    requires plan.registry == t.registry && WellFormed(plan, c, path) && Placed(t, plan, c, path, scope)
    requires StandsIn(w, scope) && Recorded(c, visits)
    ensures var after := CompAssignRun(t, w, WalkEvents(plan, c, visits, path));
            after.Some? && Went(w, after.value, WalkEmissions(t, plan, c, visits, path, scope))
    decreases c, 3, |visits|
  {
    if visits == [] {
      assert w.emitted + [] == w.emitted;
    } else {
      var n := |visits| - 1;
      assert visits[n] in visits;
      VisitsAssigned(t, w, plan, c, visits[..n], path, scope);
      var mid := CompAssignRun(t, w, WalkEvents(plan, c, visits[..n], path)).value;
      VisitAssigned(t, mid, plan, c, visits[n], path, scope);
      OneVisitMore(t, w, mid, plan, c, visits, path, scope);
    }
  }

  lemma {:induction false} VisitAssigned(t: Table, w: Walk, plan: Plan, c: Component, visit: (Section, nat), path: Path,
                                         scope: ScopeId)
    requires plan.registry == t.registry && WellFormed(plan, c, path) && Placed(t, plan, c, path, scope)
    requires StandsIn(w, scope) && visit in Sections.Walk(c.runs) && IsItem(c, visit)
    ensures var after := CompAssignRun(t, w, ItemEvents(plan, c, visit, path));
            after.Some? && Went(w, after.value, ItemEmissions(t, plan, c, visit, path, scope))
    decreases c, 2
  {
    VisitPlaced(t, plan, c, visit, path, scope);
    ItemAssigned(t, w, plan, c, visit, path, scope);
  }

  lemma OneVisitMore(t: Table, w: Walk, mid: Walk, plan: Plan, c: Component, visits: Visiting, path: Path,
                     scope: ScopeId)
    requires WellFormed(plan, c, path) && visits != [] && forall v :: v in visits ==> IsItem(c, v)
    requires var init := visits[..|visits| - 1];
             && CompAssignRun(t, w, WalkEvents(plan, c, init, path)) == Some(mid)
             && Went(w, mid, WalkEmissions(t, plan, c, init, path, scope))
    requires var v := visits[|visits| - 1];
             var after := CompAssignRun(t, mid, ItemEvents(plan, c, v, path));
             after.Some? && Went(mid, after.value, ItemEmissions(t, plan, c, v, path, scope))
    ensures var after := CompAssignRun(t, w, WalkEvents(plan, c, visits, path));
            after.Some? && Went(w, after.value, WalkEmissions(t, plan, c, visits, path, scope))
  {
    var init, v := visits[..|visits| - 1], visits[|visits| - 1];
    CompAssignConcat(t, w, WalkEvents(plan, c, init, path), ItemEvents(plan, c, v, path));
    var after := CompAssignRun(t, mid, ItemEvents(plan, c, v, path)).value;
    WentOn(w, mid, after, WalkEmissions(t, plan, c, init, path, scope), ItemEmissions(t, plan, c, v, path, scope));
  }

  /** Assigning along the events of a component, visited in any order, never aborts and emits its
      items' ids in the order of the visits. */
  lemma {:induction false} ComponentAssigned(t: Table, w: Walk, plan: Plan, c: Component, path: Path, scope: ScopeId)
    requires plan.registry == t.registry && WellFormed(plan, c, path) && Placed(t, plan, c, path, scope)
    requires StandsIn(w, scope)
    ensures var after := CompAssignRun(t, w, ComponentEvents(plan, c, path));
            after.Some? && Went(w, after.value, CompEmissions(t, plan, c, path, scope))
    decreases c, 4
  {
    VisitsAssigned(t, w, plan, c, VisitsOf(plan, c, path), path, scope);
  }

  // ------------------------------------------------------------------------------------
  // In which order a component's ids are emitted
  // ------------------------------------------------------------------------------------

  lemma IdEmissionsSnoc(scope: ScopeId, space: Space, ids: seq<nat>)
    requires ids != []
    ensures IdEmissions(scope, space, ids)
         == IdEmissions(scope, space, ids[..|ids| - 1]) + [Emission(scope, space, ids[|ids| - 1])]
  {
  }

  lemma {:induction false} IdOrders(scope: ScopeId, space: Space, ids: seq<nat>, s: ScopeId, sp: Space)
    ensures OrderOf(IdEmissions(scope, space, ids), s, sp) == if s == scope && sp == space then ids else []
  {
    if ids == [] {
      assert IdEmissions(scope, space, ids) == [];
    } else {
      var init, last := ids[..|ids| - 1], ids[|ids| - 1];
      IdOrders(scope, space, init, s, sp);
      IdEmissionsSnoc(scope, space, ids);
      OneIdMore(IdEmissions(scope, space, init), scope, space, last, s, sp);
      assert ids == init + [last];
    }
  }

  lemma OneIdMore(es: seq<Emission>, scope: ScopeId, space: Space, id: nat, s: ScopeId, sp: Space)
    ensures OrderOf(es + [Emission(scope, space, id)], s, sp)
         == if s == scope && sp == space then OrderOf(es, s, sp) + [id] else OrderOf(es, s, sp)
  {
    OrderSnoc(es, Emission(scope, space, id), s, sp);
    assert OrderOf(es, s, sp) + [] == OrderOf(es, s, sp);
  }

  lemma TypeInnerElsewhere(t: Table, m: Manner, ty: CompType, path: Path, scope: ScopeId, s: ScopeId, sp: Space)
    requires PlacedType(t, ty, path, scope) && s <= scope
    ensures OrderOf(TypeInner(m, ty, BaseOf(t, path)), s, sp) == []
  {
    if ty.Body? { BodyElsewhere(m, ty.decls, BaseOf(t, path), s, sp); }
  }

  lemma CoreInnerElsewhere(t: Table, m: Manner, core: CoreType, path: Path, scope: ScopeId, s: ScopeId, sp: Space)
    requires PlacedCore(t, core, path, scope) && s <= scope
    ensures OrderOf(CoreInner(m, core, BaseOf(t, path)), s, sp) == []
  {
    if core.ModuleType? { ModuleOrders(ModuleOrder(m, core.moduleDecls), BaseOf(t, path), s, sp); }
  }

  /** What is nested in an item emits nothing into the scope of its component or an earlier one. */
  lemma {:induction false} InnerElsewhere(t: Table, plan: Plan, c: Component, visit: (Section, nat), path: Path,
                                          scope: ScopeId, s: ScopeId, sp: Space)
    requires WellFormed(plan, c, path) && IsItem(c, visit)
    requires PlacedVisit(t, plan, c, visit, path, scope) && s <= scope
    ensures OrderOf(InnerEmissions(t, plan, c, visit, path), s, sp) == []
    decreases c, 0
  {
    var (kind, i) := visit;
    match kind {
      case ComponentSection =>
        var child := path + [2, i];
        VisitsElsewhere(t, plan, c.components[i], VisitsOf(plan, c.components[i], child), child, t.registry[child],
                        s, sp);
      case ComponentTypeSection => TypeInnerElsewhere(t, plan.manner, c.compTypes[i], path + [0, i], scope, s, sp);
      case CoreTypeSection => CoreInnerElsewhere(t, plan.manner, c.coreTypes[i], path + [1, i], scope, s, sp);
      case _ =>
    }
  }

  lemma {:induction false} VisitsElsewhere(t: Table, plan: Plan, c: Component, visits: Visiting, path: Path,
                                           scope: ScopeId, s: ScopeId, sp: Space)
    requires WellFormed(plan, c, path) && Placed(t, plan, c, path, scope) && s < scope
    requires Recorded(c, visits)
    ensures OrderOf(WalkEmissions(t, plan, c, visits, path, scope), s, sp) == []
    decreases c, 1, |visits|
  {
    if visits != [] {
      var n := |visits| - 1;
      var v := visits[n];
      assert v in visits;
      VisitPlaced(t, plan, c, v, path, scope);
      VisitsElsewhere(t, plan, c, visits[..n], path, scope, s, sp);
      InnerElsewhere(t, plan, c, v, path, scope, s, sp);
      ItemOrder(t, plan, c, v, path, scope, s, sp);
      OrderConcat(WalkEmissions(t, plan, c, visits[..n], path, scope), ItemEmissions(t, plan, c, v, path, scope),
                  s, sp);
    }
  }

  lemma ItemOrder(t: Table, plan: Plan, c: Component, visit: (Section, nat), path: Path, scope: ScopeId, s: ScopeId,
                  sp: Space)
    requires WellFormed(plan, c, path) && IsItem(c, visit)
    requires OrderOf(InnerEmissions(t, plan, c, visit, path), s, sp) == []
    ensures OrderOf(ItemEmissions(t, plan, c, visit, path, scope), s, sp)
         == if s == scope && sp == EntryAt(c, visit).space then OwnIds(t, c, visit, scope) else []
  {
    var space, ids := EntryAt(c, visit).space, OwnIds(t, c, visit, scope);
    IdOrders(scope, space, ids, s, sp);
    var own := if s == scope && sp == space then ids else [];
    assert [] + own == own;
    OrdersMore(InnerEmissions(t, plan, c, visit, path), IdEmissions(scope, space, ids), s, sp, own);
  }

  /** The visits are those of the recorded items numbered `order`. */
  predicate Follows(c: Component, visits: Visiting, order: seq<nat>) {
    && |visits| == |order|
    && forall i :: 0 <= i < |order| ==>
         order[i] < |Sections.Walk(c.runs)| && visits[i] == Sections.Walk(c.runs)[order[i]]
  }

  lemma VisitInOrder(t: Table, plan: Plan, c: Component, visit: (Section, nat), j: nat, path: Path, scope: ScopeId,
                     sp: Space)
    requires WellFormed(plan, c, path) && Placed(t, plan, c, path, scope) && IsItem(c, visit) && sp != NA
    requires j < |HistOf(c)| && Sections.Walk(c.runs)[j] == visit
    ensures OrderOf(ItemEmissions(t, plan, c, visit, path, scope), scope, sp)
         == if HistOf(c)[j].space == sp then Sections.IdsOf(HistOf(c), j) else []
  {
    VisitPlaced(t, plan, c, visit, path, scope);
    InnerElsewhere(t, plan, c, visit, path, scope, scope, sp);
    ItemOrder(t, plan, c, visit, path, scope, scope, sp);
    OwnIdsAre(t, plan, c, j, path, scope);
  }

  lemma {:induction false} VisitsInOrder(t: Table, plan: Plan, c: Component, visits: Visiting, order: seq<nat>,
                                         path: Path, scope: ScopeId, sp: Space)
    requires WellFormed(plan, c, path) && Placed(t, plan, c, path, scope) && Follows(c, visits, order) && sp != NA
    requires Recorded(c, visits)
    ensures OrderOf(WalkEmissions(t, plan, c, visits, path, scope), scope, sp)
         == Sections.IdsAlong(HistOf(c), order, sp)
    decreases |visits|
  {
    if visits != [] {
      var n := |visits| - 1;
      assert visits[n] in visits;
      VisitsInOrder(t, plan, c, visits[..n], order[..n], path, scope, sp);
      VisitInOrder(t, plan, c, visits[n], order[n], path, scope, sp);
      OneVisitInOrder(t, plan, c, visits, order, path, scope, sp);
    }
  }

  lemma OneVisitInOrder(t: Table, plan: Plan, c: Component, visits: Visiting, order: seq<nat>, path: Path,
                        scope: ScopeId, sp: Space)
    requires WellFormed(plan, c, path) && Typed(c) && Follows(c, visits, order) && visits != []
    requires forall v :: v in visits ==> IsItem(c, v)
    requires var n := |visits| - 1;
             && OrderOf(WalkEmissions(t, plan, c, visits[..n], path, scope), scope, sp)
                == Sections.IdsAlong(HistOf(c), order[..n], sp)
             && OrderOf(ItemEmissions(t, plan, c, visits[n], path, scope), scope, sp)
                == if HistOf(c)[order[n]].space == sp then Sections.IdsOf(HistOf(c), order[n]) else []
    ensures OrderOf(WalkEmissions(t, plan, c, visits, path, scope), scope, sp)
         == Sections.IdsAlong(HistOf(c), order, sp)
  {
    var n := |visits| - 1;
    OrdersMore(WalkEmissions(t, plan, c, visits[..n], path, scope), ItemEmissions(t, plan, c, visits[n], path, scope),
               scope, sp, Sections.IdsAlong(HistOf(c), order, sp));
  }

  /** Whatever the order of the visits, the component's scope receives exactly its items' ids, in
      that order. */
  lemma ComponentEmits(t: Table, plan: Plan, c: Component, path: Path, scope: ScopeId, order: seq<nat>)
    requires WellFormed(plan, c, path) && Placed(t, plan, c, path, scope)
    requires Follows(c, VisitsOf(plan, c, path), order) && Distinct(order)
    ensures Reencoding.Emits(CompEmissions(t, plan, c, path, scope), scope, HistOf(c), order)
  {
    forall sp: Space | sp != NA
      ensures OrderOf(CompEmissions(t, plan, c, path, scope), scope, sp) == Sections.IdsAlong(HistOf(c), order, sp)
    {
      VisitsInOrder(t, plan, c, VisitsOf(plan, c, path), order, path, scope, sp);
    }
  }
}
