/** The encoder as the object it is: stacks and sections updated in place, event by event, each
    update proved to be the state change the recursion-free specification describes. */
module EncoderMachine {
  import opened Prelude
  import opened Spaces
  import opened Types
  import opened FixIndices
  import opened TypeTrees
  import opened Encoder
  import opened Components
  import opened Scopes
  import opened ActualIds
  import opened Assignment
  import opened Completeness
  import opened Resolution

  class Machine {
    const env: Env
    var comps: seq<CompFrame>
    var types: seq<TypeFrame>
    var stack: seq<ScopeId>

    function Now(): State
      reads this
    {
      State(comps, types, stack)
    }

    constructor (env: Env, root: ScopeId)
      ensures this.env == env && Now() == State([EMPTY_FRAME], [], [root])
    {
      this.env := env;
      comps, types, stack := [EMPTY_FRAME], [], [root];
    }

    // Small in-place updates of the innermost frames

    method SetTop(f: CompFrame)
      requires comps != []
      modifies this`comps
      ensures Now() == WithTop(old(Now()), f)
    {
      comps := comps[..|comps| - 1] + [f];
    }

    method AttachDecls(added: seq<EncDecl>)
      requires types != [] && types[|types| - 1].BodyFrame?
      modifies this`types
      ensures Now() == Attach(old(Now()), added)
    {
      var body := types[|types| - 1];
      types := types[..|types| - 1] + [BodyFrame(body.kind, body.decls + added)];
    }

    /** Makes sure the type section of the current component exists. */
    method EnsureTypeSection()
      requires comps != []
      modifies this`comps
      ensures Now() == WithTop(old(Now()), OpenTypeSec(Top(old(Now()))))
    {
      var f := comps[|comps| - 1];
      if f.typeSec.None? { f := f.(typeSec := Some([])); }
      SetTop(f);
    }

    method EnsureCoreSection()
      requires comps != []
      modifies this`comps
      ensures Now() == WithTop(old(Now()), OpenCoreSec(Top(old(Now()))))
    {
      var f := comps[|comps| - 1];
      if f.coreSec.None? { f := f.(coreSec := Some([])); }
      SetTop(f);
    }

    method EnterScope(path: Path)
      modifies this`stack
      ensures Now() == old(Now()).(stack := Inside(env, old(stack), path))
    {
      if path in env.registry { stack := stack + [env.registry[path]]; }
    }

    method ExitScope(path: Path) returns (ok: bool)
      modifies this`stack
      ensures ok <==> Outside(env, old(stack), path).Some?
      ensures ok ==> Now() == old(Now()).(stack := Outside(env, old(stack), path).value)
    {
      if path !in env.registry { return true; }
      if stack == [] { return false; }
      stack := stack[..|stack| - 1];
      return true;
    }

    // Visitor callbacks; `false` marks where the encoder panics

    method VisitCompTypeLeaf(leaf: LeafType) returns (ok: bool)
      modifies this`comps, this`types
      ensures ok <==> VisitLeaf(env, old(Now()), leaf).Some?
      ensures ok ==> Now() == VisitLeaf(env, old(Now()), leaf).value
    {
      if comps == [] || !LeafAnswered(env, Now(), leaf) { return false; }
      var rho := RhoAt(env, stack);
      if types == [] {
        FlushLeafType(FixTopLeaf(rho, leaf));
        return true;
      }
      if types[|types| - 1].ModuleFrame? { return false; }
      EnsureTypeSection();
      AttachDecls([EncTypeDecl(EncLeaf(FixNestedLeaf(rho, leaf)))]);
      return true;
    }

    method FlushLeafType(leaf: LeafType)
      requires comps != []
      modifies this`comps
      ensures Now() == FlushLeaf(old(Now()), leaf)
    {
      var f := OpenTypeSec(comps[|comps| - 1]);
      SetTop(FlushTypes(f.(typeSec := Some(f.typeSec.value + [EncLeaf(leaf)]))));
    }

    method EnterComponentTypeBody(kind: BodyKind) returns (ok: bool)
      modifies this`comps, this`types
      ensures ok <==> EnterBody(old(Now()), kind).Some?
      ensures ok ==> Now() == EnterBody(old(Now()), kind).value
    {
      if comps == [] || (types != [] && types[|types| - 1].ModuleFrame?) { return false; }
      EnsureTypeSection();
      types := types + [BodyFrame(kind, [])];
      return true;
    }

    method ExitComponentTypeBody(kind: BodyKind) returns (ok: bool)
      modifies this`comps, this`types
      ensures ok <==> ExitBody(old(Now()), kind).Some?
      ensures ok ==> Now() == ExitBody(old(Now()), kind).value
    {
      if comps == [] || types == [] { return false; }
      var f, frame := comps[|comps| - 1], types[|types| - 1];
      if f.typeSec.None? || frame.ModuleFrame? || frame.kind != kind { return false; }
      types := types[..|types| - 1];
      if types == [] {
        f := f.(typeSec := Some(f.typeSec.value + [EncBody(kind, frame.decls)]));
        SetTop(FlushTypes(f));
        return true;
      }
      if types[|types| - 1].ModuleFrame? { return false; }
      AttachDecls([EncTypeDecl(EncBody(kind, frame.decls))]);
      return true;
    }

    method VisitTypeDecl(kind: BodyKind, d: Decl) returns (ok: bool)
      modifies this`types
      ensures ok <==> VisitDeclEvent(env, old(Now()), kind, d).Some?
      ensures ok ==> Now() == VisitDeclEvent(env, old(Now()), kind, d).value
    {
      if types == [] || types[|types| - 1].ModuleFrame? || types[|types| - 1].kind != kind { return false; }
      if !Answered(env, stack, DeclLooked(d)) { return false; }
      var rho := RhoAt(env, stack);
      match d {
        case AliasDecl(a) => AttachDecls([EncAlias(FixAlias(rho, a))]);
        case ExportDecl(name, ty) => AttachDecls([EncExport(name, FixTypeRef(rho, ty))]);
        case ImportDecl(name, ty) => AttachDecls([EncImport(name, FixTypeRef(rho, ty))]);
        case _ =>
      }
      return true;
    }

    method EnterCoreRecGroup(group: RecGroup) returns (ok: bool)
      modifies this`comps, this`types
      ensures ok <==> EnterGroup(env, old(Now()), group).Some?
      ensures ok ==> Now() == EnterGroup(env, old(Now()), group).value
    {
      if comps == [] { return false; }
      EnsureCoreSection();
      if types == [] {
        if !CoreAnswered(env, stack, Rec(group), [], false) { return false; }
        var f := comps[|comps| - 1];
        SetTop(f.(coreSec := Some(f.coreSec.value + EncCoreOf(env, stack, Rec(group), [], false))));
        return true;
      }
      if types[|types| - 1].ModuleFrame? { return false; }
      AttachDecls(Map(s => EncCoreDecl(EncSub(s)), group.subs));
      return true;
    }

    method ExitCoreRecGroup() returns (ok: bool)
      modifies this`comps
      ensures ok <==> ExitGroup(old(Now())).Some?
      ensures ok ==> Now() == ExitGroup(old(Now())).value
    {
      if comps == [] || comps[|comps| - 1].coreSec.None? { return false; }
      SetTop(FlushCore(comps[|comps| - 1]));
      return true;
    }

    method EnterCoreModuleType() returns (ok: bool)
      modifies this`comps, this`types
      ensures ok <==> EnterModule(old(Now())).Some?
      ensures ok ==> Now() == EnterModule(old(Now())).value
    {
      if comps == [] || (types != [] && types[|types| - 1].ModuleFrame?) { return false; }
      EnsureCoreSection();
      types := types + [ModuleFrame([])];
      return true;
    }

    method VisitModuleTypeDecl(d: ModuleDecl) returns (ok: bool)
      modifies this`types
      ensures ok <==> VisitModuleDecl(env, old(Now()), d).Some?
      ensures ok ==> Now() == VisitModuleDecl(env, old(Now()), d).value
    {
      if types == [] || types[|types| - 1].BodyFrame? { return false; }
      if !Answered(env, stack, ModuleDeclLooked(d)) { return false; }
      var frame := types[|types| - 1];
      types := types[..|types| - 1] + [ModuleFrame(frame.modDecls + EncModuleDeclOf(RhoAt(env, stack), d))];
      return true;
    }

    method ExitCoreModuleType() returns (ok: bool)
      modifies this`comps, this`types
      ensures ok <==> ExitModule(old(Now())).Some?
      ensures ok ==> Now() == ExitModule(old(Now())).value
    {
      if comps == [] || types == [] { return false; }
      var f, frame := comps[|comps| - 1], types[|types| - 1];
      if f.coreSec.None? || frame.BodyFrame? { return false; }
      types := types[..|types| - 1];
      if types == [] {
        f := f.(coreSec := Some(f.coreSec.value + [EncModuleType(frame.modDecls)]));
        SetTop(FlushCore(f));
        return true;
      }
      if types[|types| - 1].ModuleFrame? { return false; }
      AttachDecls([EncCoreDecl(EncModuleType(frame.modDecls))]);
      return true;
    }

    /** Dispatches one type event, entering and leaving scopes around the callbacks. */
    method DriveType(ev: Event) returns (ok: bool)
      modifies this
      ensures ok <==> Step(env, old(Now()), ev).Some?
      ensures ok ==> Now() == Step(env, old(Now()), ev).value
    {
      match ev {
        case EnterCompType(_, path, Body(kind, _)) => EnterScope(path); ok := EnterComponentTypeBody(kind);
        case EnterCompType(_, path, Leaf(leaf)) => EnterScope(path); ok := VisitCompTypeLeaf(leaf);
        case ExitCompType(_, path, Body(kind, _)) =>
          ok := ExitComponentTypeBody(kind);
          if ok { ok := ExitScope(path); }
        case ExitCompType(_, path, Leaf(_)) => ok := ExitScope(path);
        case DeclEvent(kind, _, d) => ok := VisitTypeDecl(kind, d);
        case EnterRecGroup(group) => ok := EnterCoreRecGroup(group);
        case SubTypeEvent(_, _) => ok := true;
        case ExitRecGroup => ok := ExitCoreRecGroup();
        case EnterCoreType(_, path, _) => EnterScope(path); ok := EnterCoreModuleType();
        case ModuleDeclEvent(_, d) => ok := VisitModuleTypeDecl(d);
        case ExitCoreType(_, path, _) =>
          ok := ExitCoreModuleType();
          if ok { ok := ExitScope(path); }
      }
    }

    method Drive(ev: CompEvent) returns (ok: bool)
      modifies this
      ensures ok <==> CompStep(env, old(Now()), ev).Some?
      ensures ok ==> Now() == CompStep(env, old(Now()), ev).value
    {
      match ev {
        case TypeEvent(e) => ok := DriveType(e);
        case EnterComp(_, path) =>
          if path !in env.registry { return false; }
          stack := stack + [env.registry[path]];
          comps := comps + [EMPTY_FRAME];
          ok := true;
        case ExitComp(_, _) =>
          if |comps| < 2 || stack == [] { return false; }
          var nested := comps[|comps| - 1];
          comps := comps[..|comps| - 1];
          stack := stack[..|stack| - 1];
          var f := comps[|comps| - 1];
          SetTop(f.(out := f.out + [EncComponent(nested.out)]));
          ok := true;
        case PlainEvent(_, _, item) =>
          if comps == [] || !Answered(env, stack, PlainLooked(item)) { return false; }
          var f := comps[|comps| - 1];
          SetTop(f.(out := f.out + [EncItem(FixPlain(RhoAt(env, stack), item))]));
          ok := true;
      }
    }

    /** Feeds the events one after the other. */
    method DriveAll(events: seq<CompEvent>) returns (ok: bool)
      modifies this
      ensures ok <==> CompRun(env, old(Now()), events).Some?
      ensures ok ==> Now() == CompRun(env, old(Now()), events).value
    {
      ghost var start := Now();
      for i := 0 to |events|
        invariant CompRun(env, start, events[..i]) == Some(Now())
      {
        assert events[..i + 1] == events[..i] + [events[i]];
        CompRunSnoc(env, start, events[..i], events[i]);
        ok := Drive(events[i]);
        if !ok {
          AbortsStay(env, start, events, i + 1);
          return false;
        }
      }
      assert events[..|events|] == events;
      return true;
    }
  }

  lemma AbortsStay(env: Env, st: State, events: seq<CompEvent>, i: nat)
    requires i <= |events| && CompRun(env, st, events[..i]).None?
    ensures CompRun(env, st, events).None?
  {
    assert events == events[..i] + events[i..];
    CompRunConcat(env, st, events[..i], events[i..]);
  }

  /** Encoding a component whose items are visited in a given order, its own and those of the
      components nested in it: ids are assigned along the events, and the same events are then fed
      to the encoder with those ids. It fails exactly where a reference looked up names nothing that
      is emitted; where every item is visited once, that is where it names no existing item. */
  method EncodeComponent(t: Table, root: ScopeId, orders: map<Path, Visiting>, manner: Manner, c: Component)
    returns (out: Option<seq<EncSection>>)
    requires WellFormed(Plan(t.registry, orders, manner), c, [])
    requires Placed(t, Plan(t.registry, orders, manner), c, [], root)
    ensures var plan := Plan(t.registry, orders, manner);
            var env := Env(t.registry, orders, manner, CompEmissions(t, plan, c, [], root));
            && (out.Some? <==> ComponentAnswered(env, [root], c, []))
            && (out.Some? ==> Visible(out.value) == Visible(EncComponentOf(env, [root], c, [])))
            && (Settled(t, plan, c, [], root) ==> (out.Some? <==> ComponentResolved(t, [root], c, [])))
  {
    var plan := Plan(t.registry, orders, manner);
    var events := ComponentEvents(plan, c, []);
    var assigner := new Assigner(t, root);
    ComponentAssigned(t, assigner.Now(), plan, c, [], root);
    var numbered := assigner.AssignIndices(events);
    assert [] + CompEmissions(t, plan, c, [], root) == CompEmissions(t, plan, c, [], root);
    var env := Env(t.registry, orders, manner, assigner.ids.emitted);
    var machine := new Machine(env, root);
    EncodingRebuildsTheComponent(env, root, c);
    var encoded := machine.DriveAll(events);
    if Settled(t, plan, c, [], root) { EncodingSucceedsExactlyWhen(t, plan, c, root); }
    out := if encoded then Some(machine.comps[0].out) else None;
  }
}
