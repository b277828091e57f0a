/** Whole components: the events of a component whose items, and those of the components nested
    in it, are visited in any order, and the run of the encoder over them. */
module Components {
  import opened Prelude
  import opened Spaces
  import opened Types
  import opened FixIndices
  import opened ActualIds
  import opened Reindex
  import opened TypeTrees
  import opened Sections
  import opened Encoder

  datatype Component = Component(
    runs: Runs,
    components: seq<Component>,
    compTypes: seq<CompType>,
    coreTypes: seq<CoreType>,
    plain: map<Section, seq<Plain>>,
    deleted: set<nat>)   // positions of deleted custom sections

  /** The number of items in the vector a section kind draws from. */
  function Size(c: Component, kind: Section): nat {
    match kind
    case ComponentSection => |c.components|
    case ComponentTypeSection => |c.compTypes|
    case CoreTypeSection => |c.coreTypes|
    case _ => if kind in c.plain then |c.plain[kind]| else 0
  }

  /** The order in which the items of the component at `path` are visited: the one decided for
      it, or else the order of its sections. */
  function VisitsOf(plan: Plan, c: Component, path: Path): Visiting {
    if path in plan.orders then plan.orders[path] else Walk(c.runs)
  }

  /** No visit reaches beyond its vector, here or in a nested component, and every nested
      component has a registered scope. */
  predicate WellFormed(plan: Plan, c: Component, path: Path) {
    && (forall j :: 0 <= j < |VisitsOf(plan, c, path)| ==> IsItem(c, VisitsOf(plan, c, path)[j]))
    && (forall i :: 0 <= i < |c.components| ==>
          path + [2, i] in plan.registry && WellFormed(plan, c.components[i], path + [2, i]))
  }

  predicate IsItem(c: Component, visit: (Section, nat)) {
    visit.1 < Size(c, visit.0)
  }

  function TypeEvents(evs: seq<Event>): seq<CompEvent> {
    Map(e => TypeEvent(e), evs)
  }

  // The events of a component

  function ItemEvents(plan: Plan, c: Component, visit: (Section, nat), path: Path): seq<CompEvent>
    requires WellFormed(plan, c, path) && IsItem(c, visit)
    decreases c, 0
  {
    var (kind, i) := visit;
    match kind
    case ComponentSection =>
      [EnterComp(i, path + [2, i])] + ComponentEvents(plan, c.components[i], path + [2, i])
      + [ExitComp(i, path + [2, i])]
    case ComponentTypeSection => TypeEvents(CompTypeEvents(plan.manner, c.compTypes[i], i, path + [0, i]))
    case CoreTypeSection => TypeEvents(CoreTypeEvents(plan.manner, c.coreTypes[i], i, path + [1, i]))
    case CustomSection => if i in c.deleted then [] else [PlainEvent(kind, i, c.plain[kind][i])]
    case _ => [PlainEvent(kind, i, c.plain[kind][i])]
  }

  function WalkEvents(plan: Plan, c: Component, visits: Visiting, path: Path): seq<CompEvent>
    requires WellFormed(plan, c, path)
    requires forall v :: v in visits ==> IsItem(c, v)
    decreases c, 1, |visits|
  {
    if visits == [] then []
    else WalkEvents(plan, c, visits[..|visits| - 1], path) + ItemEvents(plan, c, visits[|visits| - 1], path)
  }

  function ComponentEvents(plan: Plan, c: Component, path: Path): seq<CompEvent>
    requires WellFormed(plan, c, path)
    decreases c, 2
  {
    WalkEvents(plan, c, VisitsOf(plan, c, path), path)
  }

  // What should come out

  function EncItemOf(env: Env, stack: seq<ScopeId>, c: Component, visit: (Section, nat), path: Path): seq<EncSection>
    requires WellFormed(env.Planned(), c, path) && IsItem(c, visit)
    decreases c, 0
  {
    var (kind, i) := visit;
    match kind
    case ComponentSection =>
      [EncComponent(EncComponentOf(env, stack + [env.registry[path + [2, i]]], c.components[i], path + [2, i]))]
    case ComponentTypeSection => [EncTypeSection([EncTypeOf(env, stack, c.compTypes[i], path + [0, i], false)])]
    case CoreTypeSection => [EncCoreSection(EncCoreOf(env, stack, c.coreTypes[i], path + [1, i], false))]
    case CustomSection => if i in c.deleted then [] else [EncItem(FixPlain(RhoAt(env, stack), c.plain[kind][i]))]
    case _ => [EncItem(FixPlain(RhoAt(env, stack), c.plain[kind][i]))]
  }

  function EncWalk(env: Env, stack: seq<ScopeId>, c: Component, visits: Visiting,
                   path: Path): seq<EncSection>
    requires WellFormed(env.Planned(), c, path)
    requires forall v :: v in visits ==> IsItem(c, v)
    decreases c, 1, |visits|
  {
    if visits == [] then []
    else EncWalk(env, stack, c, visits[..|visits| - 1], path) + EncItemOf(env, stack, c, visits[|visits| - 1], path)
  }

  /** The sections of an encoded component, item by item in the order of the visits. */
  function EncComponentOf(env: Env, stack: seq<ScopeId>, c: Component, path: Path): seq<EncSection>
    requires WellFormed(env.Planned(), c, path)
    decreases c, 2
  {
    EncWalk(env, stack, c, VisitsOf(env.Planned(), c, path), path)
  }

  // What has to be found

  predicate ItemAnswered(env: Env, stack: seq<ScopeId>, c: Component, visit: (Section, nat), path: Path)
    requires WellFormed(env.Planned(), c, path) && IsItem(c, visit)
    decreases c, 0
  {
    var (kind, i) := visit;
    match kind
    case ComponentSection =>
      ComponentAnswered(env, stack + [env.registry[path + [2, i]]], c.components[i], path + [2, i])
    case ComponentTypeSection => TypeAnswered(env, stack, c.compTypes[i], path + [0, i], false)
    case CoreTypeSection => CoreAnswered(env, stack, c.coreTypes[i], path + [1, i], false)
    case CustomSection => i in c.deleted || Answered(env, stack, PlainLooked(c.plain[kind][i]))
    case _ => Answered(env, stack, PlainLooked(c.plain[kind][i]))
  }

  predicate EachItemAnswered(env: Env, stack: seq<ScopeId>, c: Component, visits: Visiting, path: Path)
    requires WellFormed(env.Planned(), c, path)
    requires forall v :: v in visits ==> IsItem(c, v)
    decreases c, 1, |visits|
  {
    visits != [] ==>
      && EachItemAnswered(env, stack, c, visits[..|visits| - 1], path)
      && ItemAnswered(env, stack, c, visits[|visits| - 1], path)
  }

  /** Every reference looked up for a visited item of the component or of one nested in it, at any
      depth, names something that is emitted. */
  predicate ComponentAnswered(env: Env, stack: seq<ScopeId>, c: Component, path: Path)
    requires WellFormed(env.Planned(), c, path)
    decreases c, 2
  {
    EachItemAnswered(env, stack, c, VisitsOf(env.Planned(), c, path), path)
  }

  // The encoder over component events

  function ExitComponent(st: State): Option<State> {
    if |st.comps| < 2 || st.stack == [] then None
    else
      var popped := st.(comps := st.comps[..|st.comps| - 1], stack := st.stack[..|st.stack| - 1]);
      Some(WithTop(popped, Top(popped).(out := Top(popped).out + [EncComponent(Top(st).out)])))
  }

  function CompStep(env: Env, st: State, ev: CompEvent): Option<State> {
    match ev
    case TypeEvent(e) => Step(env, st, e)
    case EnterComp(_, path) =>
      if path !in env.registry then None
      else Some(st.(comps := st.comps + [EMPTY_FRAME], stack := st.stack + [env.registry[path]]))
    case ExitComp(_, _) => ExitComponent(st)
    case PlainEvent(_, _, item) =>
      if st.comps == [] || !Answered(env, st.stack, PlainLooked(item)) then None
      else Some(WithTop(st, Top(st).(out := Top(st).out + [EncItem(FixPlain(RhoAt(env, st.stack), item))])))
  }

  function CompStepper(env: Env): (State, CompEvent) -> Option<State> {
    (st, ev) => CompStep(env, st, ev)
  }

  function CompRun(env: Env, st: State, evs: seq<CompEvent>): Option<State> {
    Fold(CompStepper(env), st, evs)
  }

  lemma CompRunSnoc(env: Env, st: State, evs: seq<CompEvent>, ev: CompEvent)
    ensures CompRun(env, st, evs + [ev])
         == match CompRun(env, st, evs) case None => None case Some(mid) => CompStep(env, mid, ev)
  {
    FoldSnoc(CompStepper(env), st, evs, ev);
  }

  lemma CompRunConcat(env: Env, st: State, a: seq<CompEvent>, b: seq<CompEvent>)
    ensures CompRun(env, st, a + b)
         == match CompRun(env, st, a) case None => None case Some(mid) => CompRun(env, mid, b)
  {
    FoldConcat(CompStepper(env), st, a, b);
  }

  lemma CompThreeSteps(env: Env, st: State, first: CompEvent, middle: seq<CompEvent>, last: CompEvent, a: State,
                       b: State)
    requires CompStep(env, st, first) == Some(a) && CompRun(env, a, middle) == Some(b)
    ensures CompRun(env, st, [first] + middle + [last]) == CompStep(env, b, last)
  {
    FoldThree(CompStepper(env), st, first, middle, last);
  }

  lemma TypeEventsSnoc(evs: seq<Event>)
    requires evs != []
    ensures TypeEvents(evs) == TypeEvents(evs[..|evs| - 1]) + [TypeEvent(evs[|evs| - 1])]
  {
  }

  lemma {:induction false} TypeEventsRun(env: Env, st: State, evs: seq<Event>)
    ensures CompRun(env, st, TypeEvents(evs)) == Run(env, st, evs)
  {
    if evs != [] {
      var n := |evs| - 1;
      TypeEventsRun(env, st, evs[..n]);
      CompRunSnoc(env, st, TypeEvents(evs[..n]), TypeEvent(evs[n]));
      RunSnoc(env, st, evs[..n], evs[n]);
      assert evs == evs[..n] + [evs[n]];
      TypeEventsSnoc(evs);
    }
  }

  lemma {:induction false} VisibleConcat(a: seq<EncSection>, b: seq<EncSection>)
    ensures Visible(a + b) == Visible(a) + Visible(b)
  {
    if b == [] {
      assert a + b == a;
    } else {
      var n := |b| - 1;
      VisibleConcat(a, b[..n]);
      VisibleSnoc(a + b[..n], b[n]);
      assert a + b == a + b[..n] + [b[n]];
    }
  }

  lemma VisibleSingle(s: EncSection)
    ensures Visible([s]) == VisibleOne(s)
  {
    VisibleSnoc([], s);
    assert [] + [s] == [s];
  }

  /** The encoder is back between items, having added these sections to the same component. */
  predicate Added(st: State, after: State, sections: seq<EncSection>) {
    && AtTop(st) && AtTop(after)
    && |after.comps| == |st.comps|
    && after.comps[..|st.comps| - 1] == st.comps[..|st.comps| - 1]
    && after.stack == st.stack
    && Visible(Top(after).out) == Visible(Top(st).out) + Visible(sections)
  }

  lemma AddedTrans(st: State, mid: State, after: State, a: seq<EncSection>, b: seq<EncSection>)
    requires Added(st, mid, a) && Added(mid, after, b)
    ensures Added(st, after, a + b)
  {
    VisibleConcat(a, b);
    ConcatAssoc(Visible(Top(st).out), Visible(a), Visible(b));
  }

  /** The run succeeds exactly when all that was looked up was found, and then added these. */
  predicate Adds(st: State, after: Option<State>, answered: bool, sections: seq<EncSection>) {
    (after.Some? <==> answered) && (after.Some? ==> Added(st, after.value, sections))
  }

  lemma PlainRun(env: Env, st: State, kind: Section, i: nat, item: Plain)
    requires AtTop(st)
    ensures Adds(st, CompRun(env, st, [PlainEvent(kind, i, item)]), Answered(env, st.stack, PlainLooked(item)),
                 [EncItem(FixPlain(RhoAt(env, st.stack), item))])
  {
    var s := EncItem(FixPlain(RhoAt(env, st.stack), item));
    var ev := PlainEvent(kind, i, item);
    CompRunSnoc(env, st, [], ev);
    assert [] + [ev] == [ev];
    SectionAdded(st, s);
  }

  lemma SectionAdded(st: State, s: EncSection)
    requires AtTop(st)
    ensures Added(st, WithTop(st, Top(st).(out := Top(st).out + [s])), [s])
  {
    VisibleSnoc(Top(st).out, s);
    VisibleSingle(s);
  }

  lemma EmittedIsAdded(st: State, after: Option<State>, answered: bool, s: EncSection)
    requires AtTop(st) && Flushes(st, after, answered, s)
    ensures Adds(st, after, answered, [s])
  {
    VisibleSingle(s);
  }

  /** One nested component, given the run of its contents. */
  lemma NestedComponent(env: Env, st: State, i: nat, path: Path, evs: seq<CompEvent>, answered: bool,
                        sections: seq<EncSection>)
    requires AtTop(st) && path in env.registry
    requires var entered := st.(comps := st.comps + [EMPTY_FRAME], stack := st.stack + [env.registry[path]]);
             Adds(entered, CompRun(env, entered, evs), answered, sections)
    ensures Adds(st, CompRun(env, st, [EnterComp(i, path)] + evs + [ExitComp(i, path)]), answered,
                 [EncComponent(sections)])
  {
    var entered := st.(comps := st.comps + [EMPTY_FRAME], stack := st.stack + [env.registry[path]]);
    if answered {
      var filled := CompRun(env, entered, evs).value;
      CompThreeSteps(env, st, EnterComp(i, path), evs, ExitComp(i, path), entered, filled);
      ComponentLeft(st, entered, filled, sections);
    } else {
      FoldThree(CompStepper(env), st, EnterComp(i, path), evs, ExitComp(i, path));
    }
  }

  lemma ComponentLeft(st: State, entered: State, filled: State, sections: seq<EncSection>)
    requires AtTop(st) && Added(entered, filled, sections)
    requires entered.comps == st.comps + [EMPTY_FRAME]
    requires |entered.stack| == |st.stack| + 1 && entered.stack[..|st.stack|] == st.stack
    ensures ExitComponent(filled).Some? && Added(st, ExitComponent(filled).value, [EncComponent(sections)])
  {
    assert filled.comps[..|st.comps|] == st.comps;
    VisibleSnoc(Top(st).out, EncComponent(Top(filled).out));
    VisibleSingle(EncComponent(sections));
    assert Visible(EMPTY_FRAME.out) + Visible(sections) == Visible(sections);
  }

  lemma {:induction false} ItemRun(env: Env, st: State, c: Component, visit: (Section, nat), path: Path)
    requires AtTop(st) && WellFormed(env.Planned(), c, path) && IsItem(c, visit)
    ensures Adds(st, CompRun(env, st, ItemEvents(env.Planned(), c, visit, path)),
                 ItemAnswered(env, st.stack, c, visit, path), EncItemOf(env, st.stack, c, visit, path))
    decreases c, 0
  {
    var (kind, i) := visit;
    match kind {
      case ComponentSection =>
        var p := path + [2, i];
        var entered := st.(comps := st.comps + [EMPTY_FRAME], stack := st.stack + [env.registry[p]]);
        ComponentRun(env, entered, c.components[i], p);
        NestedComponent(env, st, i, p, ComponentEvents(env.Planned(), c.components[i], p),
                        ComponentAnswered(env, entered.stack, c.components[i], p),
                        EncComponentOf(env, entered.stack, c.components[i], p));
      case ComponentTypeSection => TypeItemRun(env, st, c, i, path);
      case CoreTypeSection => CoreItemRun(env, st, c, i, path);
      case _ =>
        PlainRun(env, st, kind, i, c.plain[kind][i]);
        assert Visible(Top(st).out) + Visible([]) == Visible(Top(st).out);
    }
  }

  lemma TypeItemRun(env: Env, st: State, c: Component, i: nat, path: Path)
    requires AtTop(st) && WellFormed(env.Planned(), c, path) && i < |c.compTypes|
    ensures var visit := (ComponentTypeSection, i);
            Adds(st, CompRun(env, st, ItemEvents(env.Planned(), c, visit, path)),
                 ItemAnswered(env, st.stack, c, visit, path), EncItemOf(env, st.stack, c, visit, path))
  {
    var p, ty := path + [0, i], c.compTypes[i];
    TypeEventsRun(env, st, CompTypeEvents(env.manner, ty, i, p));
    TopLevelType(env, st, ty, i, p);
    EmittedIsAdded(st, Run(env, st, CompTypeEvents(env.manner, ty, i, p)), TypeAnswered(env, st.stack, ty, p, false),
                   EncTypeSection([EncTypeOf(env, st.stack, ty, p, false)]));
  }

  lemma CoreItemRun(env: Env, st: State, c: Component, i: nat, path: Path)
    requires AtTop(st) && WellFormed(env.Planned(), c, path) && i < |c.coreTypes|
    ensures var visit := (CoreTypeSection, i);
            Adds(st, CompRun(env, st, ItemEvents(env.Planned(), c, visit, path)),
                 ItemAnswered(env, st.stack, c, visit, path), EncItemOf(env, st.stack, c, visit, path))
  {
    var p, core := path + [1, i], c.coreTypes[i];
    TypeEventsRun(env, st, CoreTypeEvents(env.manner, core, i, p));
    TopLevelCore(env, st, core, i, p);
    EmittedIsAdded(st, Run(env, st, CoreTypeEvents(env.manner, core, i, p)),
                   CoreAnswered(env, st.stack, core, p, false),
                   EncCoreSection(EncCoreOf(env, st.stack, core, p, false)));
  }

  lemma {:induction false} WalkRun(env: Env, st: State, c: Component, visits: Visiting, path: Path)
    requires AtTop(st) && WellFormed(env.Planned(), c, path)
    requires forall v :: v in visits ==> IsItem(c, v)
    ensures Adds(st, CompRun(env, st, WalkEvents(env.Planned(), c, visits, path)),
                 EachItemAnswered(env, st.stack, c, visits, path), EncWalk(env, st.stack, c, visits, path))
    decreases c, 1, |visits|
  {
    if visits == [] {
      assert Visible(Top(st).out) + Visible([]) == Visible(Top(st).out);
    } else {
      var n := |visits| - 1;
      WalkRun(env, st, c, visits[..n], path);
      var first := WalkEvents(env.Planned(), c, visits[..n], path);
      var second := ItemEvents(env.Planned(), c, visits[n], path);
      CompRunConcat(env, st, first, second);
      if EachItemAnswered(env, st.stack, c, visits[..n], path) {
        var mid := CompRun(env, st, first).value;
        ItemRun(env, mid, c, visits[n], path);
        OneMoreAdded(st, mid, CompRun(env, mid, second), EncWalk(env, st.stack, c, visits[..n], path),
                     EncItemOf(env, st.stack, c, visits[n], path), ItemAnswered(env, st.stack, c, visits[n], path));
      }
    }
  }

  lemma OneMoreAdded(st: State, mid: State, after: Option<State>, a: seq<EncSection>, b: seq<EncSection>,
                     answered: bool)
    requires Added(st, mid, a) && Adds(mid, after, answered, b)
    ensures Adds(st, after, answered, a + b)
  {
    if after.Some? { AddedTrans(st, mid, after.value, a, b); }
  }

  /** Running the encoder over a component's events, from between two items of any component,
      succeeds exactly when every reference looked up is found, and then adds exactly the
      component's sections, in order. */
  lemma {:induction false} ComponentRun(env: Env, st: State, c: Component, path: Path)
    requires AtTop(st) && WellFormed(env.Planned(), c, path)
    ensures Adds(st, CompRun(env, st, ComponentEvents(env.Planned(), c, path)),
                 ComponentAnswered(env, st.stack, c, path), EncComponentOf(env, st.stack, c, path))
    decreases c, 2
  {
    WalkRun(env, st, c, VisitsOf(env.Planned(), c, path), path);
  }

  /** Encoding a root component succeeds if and only if every reference looked up, at any depth,
      names something that is emitted; it then ends with one component frame, empty type stack,
      and exactly the root's sections, up to core-type sections that hold nothing. */
  lemma EncodingRebuildsTheComponent(env: Env, root: ScopeId, c: Component)
    requires WellFormed(env.Planned(), c, [])
    ensures var after := CompRun(env, State([EMPTY_FRAME], [], [root]), ComponentEvents(env.Planned(), c, []));
            && (after.Some? <==> ComponentAnswered(env, [root], c, []))
            && (after.Some? ==>
                  && |after.value.comps| == 1 && after.value.types == [] && after.value.stack == [root]
                  && Visible(after.value.comps[0].out) == Visible(EncComponentOf(env, [root], c, [])))
  {
    var st := State([EMPTY_FRAME], [], [root]);
    ComponentRun(env, st, c, []);
    assert Visible(EMPTY_FRAME.out) + Visible(EncComponentOf(env, [root], c, []))
        == Visible(EncComponentOf(env, [root], c, []));
  }

  /** A component whose one type is a list of a type it does not have. */
  const DANGLING := Component([(1, ComponentTypeSection)], [], [Leaf(Defined(List(Type(99))))], [], map[], {})

  /** A reference to something that is never emitted stops the encoder. */
  lemma UnresolvedReferenceStops()
    ensures var env := Env(map[], map[], PulledAhead, [Emission(0, Space.CompType, 0)]);
            && WellFormed(env.Planned(), DANGLING, [])
            && CompRun(env, State([EMPTY_FRAME], [], [0]), ComponentEvents(env.Planned(), DANGLING, [])) == None
  {
    var es := [Emission(0, Space.CompType, 0)];
    var env := Env(map[], map[], PulledAhead, es);
    DanglingVisit();
    var ref := IndexedRef(0, Space.CompType, 99);
    assert LeafRefs(DANGLING.compTypes[0].leaf) == [ref] && ref in [ref];
    OrderMembers(es, 0, Space.CompType, 99);
    assert !Answered(env, [0], [ref]);
    assert !ItemAnswered(env, [0], DANGLING, VisitsOf(env.Planned(), DANGLING, [])[0], []);
    EncodingRebuildsTheComponent(env, 0, DANGLING);
  }

  lemma DanglingVisit()
    ensures Walk(DANGLING.runs) == [(ComponentTypeSection, 0)]
  {
    var runs: Runs := DANGLING.runs;
    assert runs[..0] == [] && Walk([]) == [] && Total([], ComponentTypeSection) == 0;
  }
}
