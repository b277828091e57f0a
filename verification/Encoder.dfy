/** The stack encoder: it rebuilds nested definitions from the event stream with a stack of
    component frames, a stack of type frames and two lazily opened sections per component. */
module Encoder {
  import opened Prelude
  import opened Spaces
  import opened Types
  import opened FixIndices
  import opened ActualIds
  import opened Reindex
  import opened TypeTrees
  import Topological

  // What is emitted

  datatype EncModuleDecl =
    | EncModuleRec(subs: seq<SubType>)
    | EncModuleSub(sub: SubType)
    | EncModuleImport(mod: string, name: string, ty: CoreTypeRef)
    | EncModuleExport(name: string, ty: CoreTypeRef)
    | EncModuleAlias(count: nat, index: nat)

  datatype EncCore = EncRec(subs: seq<SubType>) | EncSub(sub: SubType) | EncModuleType(decls: seq<EncModuleDecl>)

  datatype EncDecl =
    | EncTypeDecl(ty: EncType)
    | EncCoreDecl(core: EncCore)
    | EncAlias(als: Alias)
    | EncExport(name: string, ref: TypeRef)
    | EncImport(name: string, ref: TypeRef)

  datatype EncType = EncBody(kind: BodyKind, decls: seq<EncDecl>) | EncLeaf(leaf: LeafType)

  datatype EncSection =
    | EncTypeSection(types: seq<EncType>)
    | EncCoreSection(entries: seq<EncCore>)
    | EncComponent(sections: seq<EncSection>)
    | EncItem(item: Plain)

  /** A top-level item that is neither a type nor a component. */
  datatype Plain = Referring(item: Item) | CoreModule(bytes: nat) | Custom(bytes: nat)

  function FixPlain(rho: Renaming, p: Plain): Plain {
    if p.Referring? then Referring(FixItem(rho, p.item)) else p
  }

  /** Events of a whole component: those of its type definitions, and three of its own, with the
      position of the item in the vector of its kind. */
  datatype CompEvent =
    | TypeEvent(event: Event)
    | EnterComp(idx: nat, path: Path)
    | ExitComp(idx: nat, path: Path)
    | PlainEvent(kind: Section, idx: nat, item: Plain)

  /** The items of a component as they are visited: a kind and a position in its vector. */
  type Visiting = seq<(Section, nat)>

  // The encoder's state

  datatype CompFrame = CompFrame(out: seq<EncSection>, typeSec: Option<seq<EncType>>, coreSec: Option<seq<EncCore>>)

  datatype TypeFrame = BodyFrame(kind: BodyKind, decls: seq<EncDecl>) | ModuleFrame(modDecls: seq<EncModuleDecl>)

  datatype State = State(comps: seq<CompFrame>, types: seq<TypeFrame>, stack: seq<ScopeId>)

  /** Which node opens which scope, in which order the items of each component are visited, and
      how the walk orders the declarations of a body. */
  datatype Plan = Plan(registry: map<Path, ScopeId>, orders: map<Path, Visiting>, manner: Manner)

  /** The same, with the emission that decided the ids. */
  datatype Env = Env(registry: map<Path, ScopeId>, orders: map<Path, Visiting>, manner: Manner, es: seq<Emission>) {
    function Planned(): Plan { Plan(registry, orders, manner) }
  }

  const EMPTY_FRAME := CompFrame([], None, None)

  function Inside(env: Env, stack: seq<ScopeId>, path: Path): seq<ScopeId> {
    if path in env.registry then stack + [env.registry[path]] else stack
  }

  /** Leaving a node that opened a scope pops it; an empty stack aborts. */
  function Outside(env: Env, stack: seq<ScopeId>, path: Path): Option<seq<ScopeId>> {
    if path !in env.registry then Some(stack)
    else if stack == [] then None
    else Some(stack[..|stack| - 1])
  }

  // ------------------------------------------------------------------------------------
  // What encoding a tree should yield, by recursion on the tree
  // ------------------------------------------------------------------------------------

  /** A leaf inside a type body is rewritten once as a type and, unless it is a resource, once
      more as a defined or function type. */
  function FixNestedLeaf(rho: Renaming, leaf: LeafType): LeafType {
    if leaf.Resource? then FixLeaf(rho, leaf) else FixLeaf(rho, FixLeaf(rho, leaf))
  }

  function FixSubs(rho: Renaming, subs: seq<SubType>): seq<SubType> {
    seq(|subs|, i requires 0 <= i < |subs| => FixSubType(rho, subs[i]))
  }

  function EncModuleDeclOf(rho: Renaming, d: ModuleDecl): seq<EncModuleDecl> {
    match d
    case ModuleTypes(group) =>
      var subs := FixSubs(rho, group.subs);
      if group.isExplicit then [EncModuleRec(subs)] else Map(s => EncModuleSub(s), subs)
    case ModuleImport(mod, name, ty) => [EncModuleImport(mod, name, FixCoreTypeRef(rho, ty))]
    case ModuleExport(name, ty) => [EncModuleExport(name, FixCoreTypeRef(rho, ty))]
    case ModuleOuterAlias(count, index) => [EncModuleAlias(count, rho(IndexedRef(count, Space.CoreType, index)))]
  }

  /** The declarations of a module type, in the order in which they are visited. */
  function EncModuleDecls(rho: Renaming, decls: seq<ModuleDecl>, order: seq<nat>): seq<EncModuleDecl>
    requires Topological.AllBelow(order, |decls|)
  {
    if order == [] then []
    else EncModuleDecls(rho, decls, order[..|order| - 1]) + EncModuleDeclOf(rho, decls[order[|order| - 1]])
  }

  function EncModule(env: Env, stack: seq<ScopeId>, decls: seq<ModuleDecl>): EncCore {
    EncModuleType(EncModuleDecls(RhoAt(env, stack), decls, ModuleOrder(env.manner, decls)))
  }

  function RhoAt(env: Env, stack: seq<ScopeId>): Renaming { RenamingAt(env.es, stack) }

  /** A core type below the scopes of `stack`: inside a type body, where groups come apart into
      single types and are not rewritten, or at the top level. */
  function EncCoreOf(env: Env, stack: seq<ScopeId>, core: CoreType, path: Path, nested: bool): seq<EncCore> {
    match core
    case ModuleType(decls) => [EncModule(env, Inside(env, stack, path), decls)]
    case Rec(group) =>
      if nested then Map(s => EncSub(s), group.subs)
      else
        var subs := FixSubs(RhoAt(env, stack), group.subs);
        if group.isExplicit then [EncRec(subs)] else Map(s => EncSub(s), subs)
  }

  function EncTypeOf(env: Env, stack: seq<ScopeId>, ty: CompType, path: Path, nested: bool): EncType
    decreases ty, 1
  {
    var inner := Inside(env, stack, path);
    match ty
    case Body(kind, decls) => EncBody(kind, EncDeclsOf(env, inner, decls, BodyOrder(env.manner, decls), path))
    case Leaf(leaf) =>
      var rho := RhoAt(env, inner);
      EncLeaf(if nested then FixNestedLeaf(rho, leaf) else FixTopLeaf(rho, leaf))
  }

  function EncDeclsOf(env: Env, stack: seq<ScopeId>, decls: seq<Decl>, order: seq<nat>, path: Path): seq<EncDecl>
    requires Topological.AllBelow(order, |decls|)
    decreases decls, 0, |order|
  {
    if order == [] then []
    else
      var i := order[|order| - 1];
      EncDeclsOf(env, stack, decls, order[..|order| - 1], path) + EncDeclOf(env, stack, decls[i], path + [i])
  }

  function EncDeclOf(env: Env, stack: seq<ScopeId>, d: Decl, path: Path): seq<EncDecl>
    decreases d, 0
  {
    match d
    case TypeDecl(ty) => [EncTypeDecl(EncTypeOf(env, stack, ty, path, true))]
    case CoreTypeDecl(core) => Map(c => EncCoreDecl(c), EncCoreOf(env, stack, core, path, true))
    case AliasDecl(a) => [EncAlias(FixAlias(RhoAt(env, stack), a))]
    case ExportDecl(name, ty) => [EncExport(name, FixTypeRef(RhoAt(env, stack), ty))]
    case ImportDecl(name, ty) => [EncImport(name, FixTypeRef(RhoAt(env, stack), ty))]
  }

  // ------------------------------------------------------------------------------------
  // What is looked up: encoding aborts at a reference to something that is never emitted
  // ------------------------------------------------------------------------------------

  predicate Answered(env: Env, stack: seq<ScopeId>, refs: seq<IndexedRef>) {
    forall r :: r in refs ==> Resolvable(env.es, stack, r)
  }

  /** The second rewriting of a nested leaf looks up what the first one put in. */
  function LeafLooked(rho: Renaming, leaf: LeafType, nested: bool): seq<IndexedRef> {
    if !nested then TopLeafLooked(leaf)
    else if leaf.Resource? then LeafRefs(leaf)
    else LeafRefs(leaf) + LeafRefs(FixLeaf(rho, leaf))
  }

  function DeclLooked(d: Decl): seq<IndexedRef> {
    match d
    case AliasDecl(a) => [AliasRef(a)]
    case ExportDecl(_, ty) => TypeRefLooked(ty)
    case ImportDecl(_, ty) => TypeRefLooked(ty)
    case _ => []
  }

  /** Parameters and results of core function types are looked up, though not reported. */
  function ModuleDeclLooked(d: ModuleDecl): seq<IndexedRef> {
    match d
    case ModuleTypes(group) => FlatMap(SubTypeRefs, group.subs)
    case ModuleImport(_, _, ty) => CoreTypeRefRefs(ty)
    case ModuleExport(_, ty) => CoreTypeRefRefs(ty)
    case ModuleOuterAlias(count, index) => [IndexedRef(count, Space.CoreType, index)]
  }

  function PlainLooked(p: Plain): seq<IndexedRef> {
    if p.Referring? then ItemLooked(p.item) else []
  }

  predicate ModuleAnswered(env: Env, stack: seq<ScopeId>, decls: seq<ModuleDecl>) {
    forall i :: 0 <= i < |decls| ==> Answered(env, stack, ModuleDeclLooked(decls[i]))
  }

  /** Groups inside a body are copied and look nothing up. */
  predicate CoreAnswered(env: Env, stack: seq<ScopeId>, core: CoreType, path: Path, nested: bool) {
    match core
    case ModuleType(decls) => ModuleAnswered(env, Inside(env, stack, path), decls)
    case Rec(group) => nested || Answered(env, stack, FlatMap(SubTypeRefs, group.subs))
  }

  /** Every reference looked up anywhere in this tree finds what it names. */
  predicate TypeAnswered(env: Env, stack: seq<ScopeId>, ty: CompType, path: Path, nested: bool)
    decreases ty, 1
  {
    var inner := Inside(env, stack, path);
    match ty
    case Body(_, decls) => DeclsAnswered(env, inner, decls, path)
    case Leaf(leaf) => Answered(env, inner, LeafLooked(RhoAt(env, inner), leaf, nested))
  }

  predicate DeclsAnswered(env: Env, stack: seq<ScopeId>, decls: seq<Decl>, path: Path)
    decreases decls, 0
  {
    forall i :: 0 <= i < |decls| ==> DeclAnswered(env, stack, decls[i], path + [i])
  }

  predicate DeclAnswered(env: Env, stack: seq<ScopeId>, d: Decl, path: Path)
    decreases d, 0
  {
    match d
    case TypeDecl(ty) => TypeAnswered(env, stack, ty, path, true)
    case CoreTypeDecl(core) => CoreAnswered(env, stack, core, path, true)
    case _ => Answered(env, stack, DeclLooked(d))
  }

  // ------------------------------------------------------------------------------------
  // One event
  // ------------------------------------------------------------------------------------

  function Top(st: State): CompFrame
    requires st.comps != []
  {
    st.comps[|st.comps| - 1]
  }

  function WithTop(st: State, f: CompFrame): State
    requires st.comps != []
  {
    st.(comps := st.comps[..|st.comps| - 1] + [f])
  }

  function TopType(st: State): TypeFrame
    requires st.types != []
  {
    st.types[|st.types| - 1]
  }

  function WithTopType(st: State, f: TypeFrame): State
    requires st.types != []
  {
    st.(types := st.types[..|st.types| - 1] + [f])
  }

  function OpenTypeSec(f: CompFrame): CompFrame {
    if f.typeSec.None? then f.(typeSec := Some([])) else f
  }

  function OpenCoreSec(f: CompFrame): CompFrame {
    if f.coreSec.None? then f.(coreSec := Some([])) else f
  }

  function FlushTypes(f: CompFrame): CompFrame
    requires f.typeSec.Some?
  {
    f.(out := f.out + [EncTypeSection(f.typeSec.value)], typeSec := None)
  }

  function FlushCore(f: CompFrame): CompFrame
    requires f.coreSec.Some?
  {
    f.(out := f.out + [EncCoreSection(f.coreSec.value)], coreSec := None)
  }

  /** Adds declarations to the innermost type body. */
  function Attach(st: State, added: seq<EncDecl>): State
    requires st.types != [] && TopType(st).BodyFrame?
  {
    WithTopType(st, BodyFrame(TopType(st).kind, TopType(st).decls + added))
  }

  /** A leaf between two items is flushed as a section of its own. */
  function FlushLeaf(st: State, leaf: LeafType): State
    requires st.comps != []
  {
    var f := OpenTypeSec(Top(st));
    WithTop(st, FlushTypes(f.(typeSec := Some(f.typeSec.value + [EncLeaf(leaf)]))))
  }

  predicate LeafAnswered(env: Env, st: State, leaf: LeafType) {
    Answered(env, st.stack, LeafLooked(RhoAt(env, st.stack), leaf, st.types != []))
  }

  function VisitLeaf(env: Env, st: State, leaf: LeafType): Option<State> {
    var rho := RhoAt(env, st.stack);
    if st.comps == [] || !LeafAnswered(env, st, leaf) then None
    else if st.types == [] then Some(FlushLeaf(st, FixTopLeaf(rho, leaf)))
    else if TopType(st).BodyFrame? then
      Some(Attach(WithTop(st, OpenTypeSec(Top(st))), [EncTypeDecl(EncLeaf(FixNestedLeaf(rho, leaf)))]))
    else None
  }

  function EnterBody(st: State, kind: BodyKind): Option<State> {
    if st.comps == [] || (st.types != [] && TopType(st).ModuleFrame?) then None
    else Some(WithTop(st, OpenTypeSec(Top(st))).(types := st.types + [BodyFrame(kind, [])]))
  }

  function ExitBody(st: State, kind: BodyKind): Option<State> {
    if st.comps == [] || Top(st).typeSec.None? || st.types == [] then None
    else if TopType(st).ModuleFrame? || TopType(st).kind != kind then None
    else
      var done := EncBody(kind, TopType(st).decls);
      var popped := st.(types := st.types[..|st.types| - 1]);
      if popped.types == [] then
        Some(WithTop(popped, FlushTypes(Top(st).(typeSec := Some(Top(st).typeSec.value + [done])))))
      else if TopType(popped).BodyFrame? then Some(Attach(popped, [EncTypeDecl(done)]))
      else None
  }

  function VisitDeclEvent(env: Env, st: State, kind: BodyKind, d: Decl): Option<State> {
    if st.types == [] || TopType(st).ModuleFrame? || TopType(st).kind != kind then None
    else if !Answered(env, st.stack, DeclLooked(d)) then None
    else
      var rho := RhoAt(env, st.stack);
      match d
      case AliasDecl(a) => Some(Attach(st, [EncAlias(FixAlias(rho, a))]))
      case ExportDecl(name, ty) => Some(Attach(st, [EncExport(name, FixTypeRef(rho, ty))]))
      case ImportDecl(name, ty) => Some(Attach(st, [EncImport(name, FixTypeRef(rho, ty))]))
      case CoreTypeDecl(_) => Some(st)
      case TypeDecl(_) => Some(st)
  }

  function EnterGroup(env: Env, st: State, group: RecGroup): Option<State> {
    if st.comps == [] then None
    else
      var ready := WithTop(st, OpenCoreSec(Top(st)));
      if st.types == [] then
        if !CoreAnswered(env, st.stack, Rec(group), [], false) then None else
        var f := Top(ready);
        Some(WithTop(st, f.(coreSec := Some(f.coreSec.value + EncCoreOf(env, st.stack, Rec(group), [], false)))))
      else if TopType(st).BodyFrame? then Some(Attach(ready, Map(s => EncCoreDecl(EncSub(s)), group.subs)))
      else None
  }

  /** A group flushes the core section even when it sits inside a type body. */
  function ExitGroup(st: State): Option<State> {
    if st.comps == [] || Top(st).coreSec.None? then None else Some(WithTop(st, FlushCore(Top(st))))
  }

  function EnterModule(st: State): Option<State> {
    if st.comps == [] || (st.types != [] && TopType(st).ModuleFrame?) then None
    else Some(WithTop(st, OpenCoreSec(Top(st))).(types := st.types + [ModuleFrame([])]))
  }

  function VisitModuleDecl(env: Env, st: State, d: ModuleDecl): Option<State> {
    if st.types == [] || TopType(st).BodyFrame? || !Answered(env, st.stack, ModuleDeclLooked(d)) then None
    else Some(WithTopType(st, ModuleFrame(TopType(st).modDecls + EncModuleDeclOf(RhoAt(env, st.stack), d))))
  }

  function ExitModule(st: State): Option<State> {
    if st.comps == [] || Top(st).coreSec.None? || st.types == [] || TopType(st).BodyFrame? then None
    else
      var done := EncModuleType(TopType(st).modDecls);
      var popped := st.(types := st.types[..|st.types| - 1]);
      if popped.types == [] then
        Some(WithTop(popped, FlushCore(Top(st).(coreSec := Some(Top(st).coreSec.value + [done])))))
      else if TopType(popped).BodyFrame? then Some(Attach(popped, [EncCoreDecl(done)]))
      else None
  }

  function InScope(st: Option<State>, stack: Option<seq<ScopeId>>): Option<State> {
    if st.Some? && stack.Some? then Some(st.value.(stack := stack.value)) else None
  }

  function Step(env: Env, st: State, ev: Event): Option<State> {
    match ev
    case EnterCompType(_, path, Body(kind, _)) =>
      EnterBody(st.(stack := Inside(env, st.stack, path)), kind)
    case EnterCompType(_, path, Leaf(leaf)) =>
      VisitLeaf(env, st.(stack := Inside(env, st.stack, path)), leaf)
    case ExitCompType(_, path, Body(kind, _)) => InScope(ExitBody(st, kind), Outside(env, st.stack, path))
    case ExitCompType(_, path, Leaf(_)) => InScope(Some(st), Outside(env, st.stack, path))
    case DeclEvent(kind, _, d) => VisitDeclEvent(env, st, kind, d)
    case EnterRecGroup(group) => EnterGroup(env, st, group)
    case SubTypeEvent(_, _) => Some(st)
    case ExitRecGroup => ExitGroup(st)
    case EnterCoreType(_, path, _) => EnterModule(st.(stack := Inside(env, st.stack, path)))
    case ModuleDeclEvent(_, d) => VisitModuleDecl(env, st, d)
    case ExitCoreType(_, path, _) => InScope(ExitModule(st), Outside(env, st.stack, path))
  }

  function Stepper(env: Env): (State, Event) -> Option<State> {
    (st, ev) => Step(env, st, ev)
  }

  function Run(env: Env, st: State, evs: seq<Event>): Option<State> {
    Fold(Stepper(env), st, evs)
  }

  lemma RunSnoc(env: Env, st: State, evs: seq<Event>, ev: Event)
    ensures Run(env, st, evs + [ev])
         == match Run(env, st, evs) case None => None case Some(mid) => Step(env, mid, ev)
  {
    FoldSnoc(Stepper(env), st, evs, ev);
  }

  lemma RunConcat(env: Env, st: State, a: seq<Event>, b: seq<Event>)
    ensures Run(env, st, a + b) == match Run(env, st, a) case None => None case Some(mid) => Run(env, mid, b)
  {
    FoldConcat(Stepper(env), st, a, b);
  }

  lemma RunThree(env: Env, st: State, first: Event, middle: seq<Event>, last: Event)
    ensures Run(env, st, [first] + middle + [last])
         == match Step(env, st, first)
            case None => None
            case Some(a) => match Run(env, a, middle) case None => None case Some(b) => Step(env, b, last)
  {
    FoldThree(Stepper(env), st, first, middle, last);
  }

  lemma ThreeSteps(env: Env, st: State, first: Event, middle: seq<Event>, last: Event, a: State, b: State)
    requires Step(env, st, first) == Some(a) && Run(env, a, middle) == Some(b)
    ensures Run(env, st, [first] + middle + [last]) == Step(env, b, last)
  {
    RunThree(env, st, first, middle, last);
  }

  lemma StopsInTheMiddle(env: Env, st: State, first: Event, middle: seq<Event>, last: Event, a: State)
    requires Step(env, st, first) == Some(a) && Run(env, a, middle) == None
    ensures Run(env, st, [first] + middle + [last]) == None
  {
    RunThree(env, st, first, middle, last);
  }

  // ------------------------------------------------------------------------------------
  // Output modulo the empty core-type sections
  // ------------------------------------------------------------------------------------

  function Visible(out: seq<EncSection>): seq<EncSection> {
    if out == [] then []
    else Visible(out[..|out| - 1]) + VisibleOne(out[|out| - 1])
  }

  function VisibleOne(s: EncSection): seq<EncSection> {
    match s
    case EncCoreSection(entries) => if entries == [] then [] else [s]
    case EncComponent(sections) => [EncComponent(Visible(sections))]
    case _ => [s]
  }

  lemma VisibleSnoc(out: seq<EncSection>, s: EncSection)
    ensures Visible(out + [s]) == Visible(out) + VisibleOne(s)
  {
    assert (out + [s])[..|out|] == out;
  }

  /** Between two events that open or close a definition, the core section is closed or empty. */
  predicate Calm(f: CompFrame) {
    f.coreSec == None || f.coreSec == Some([])
  }

  /** Same stacks, same visible output: only an empty core section may have come and gone. */
  predicate SameFrames(st: State, after: State) {
    && st.comps != [] && |after.comps| == |st.comps|
    && after.comps[..|st.comps| - 1] == st.comps[..|st.comps| - 1]
    && after.stack == st.stack
    && Calm(Top(after))
  }

  predicate AttachedTo(st: State, after: State, added: seq<EncDecl>) {
    && SameFrames(st, after)
    && Visible(Top(after).out) == Visible(Top(st).out)
    && Top(after).typeSec == Top(st).typeSec
    && st.types != [] && TopType(st).BodyFrame?
    && after.types == Attach(st, added).types
  }

  predicate EmittedTo(st: State, after: State, s: EncSection) {
    && SameFrames(st, after)
    && Visible(Top(after).out) == Visible(Top(st).out) + VisibleOne(s)
    && Top(after).typeSec == None
    && after.types == st.types == []
  }

  /** The run succeeds exactly when all that was looked up was found, and then attached these. */
  predicate Attaches(st: State, after: Option<State>, answered: bool, added: seq<EncDecl>) {
    (after.Some? <==> answered) && (after.Some? ==> AttachedTo(st, after.value, added))
  }

  predicate Flushes(st: State, after: Option<State>, answered: bool, s: EncSection) {
    (after.Some? <==> answered) && (after.Some? ==> EmittedTo(st, after.value, s))
  }

  /** The encoder is inside a type body of this kind. */
  predicate InBody(st: State, kind: BodyKind) {
    && st.comps != [] && Calm(Top(st)) && Top(st).typeSec.Some?
    && st.types != [] && TopType(st).BodyFrame? && TopType(st).kind == kind
  }

  /** The encoder is between two top-level items. */
  predicate AtTop(st: State) {
    st.comps != [] && Calm(Top(st)) && Top(st).typeSec.None? && st.types == []
  }

  // ------------------------------------------------------------------------------------
  // Rebuilding undoes flattening
  // ------------------------------------------------------------------------------------

  lemma AttachTrans(st: State, mid: State, after: State, xs: seq<EncDecl>, ys: seq<EncDecl>)
    requires AttachedTo(st, mid, xs) && AttachedTo(mid, after, ys)
    ensures AttachedTo(st, after, xs + ys)
  {
    assert TopType(mid).decls == TopType(st).decls + xs;
    assert TopType(st).decls + xs + ys == TopType(st).decls + (xs + ys);
  }

  lemma AttachNothing(st: State, kind: BodyKind)
    requires InBody(st, kind)
    ensures AttachedTo(st, st, [])
  {
    assert TopType(st).decls + [] == TopType(st).decls;
  }

  lemma {:induction false} SubTypeEventsSkipped(env: Env, st: State, idx: nat, n: nat)
    ensures Run(env, st, SubTypeEvents(idx, n)) == Some(st)
  {
    if n > 0 {
      SubTypeEventsSkipped(env, st, idx, n - 1);
      RunSnoc(env, st, SubTypeEvents(idx, n - 1), SubTypeEvent(idx, n - 1));
    }
  }

  /** These declarations have all their references answered. */
  predicate EachModuleAnswered(env: Env, stack: seq<ScopeId>, decls: seq<ModuleDecl>, order: seq<nat>)
    requires Topological.AllBelow(order, |decls|)
  {
    order != [] ==>
      && EachModuleAnswered(env, stack, decls, order[..|order| - 1])
      && Answered(env, stack, ModuleDeclLooked(decls[order[|order| - 1]]))
  }

  lemma {:induction false} EachModuleMember(env: Env, stack: seq<ScopeId>, decls: seq<ModuleDecl>, order: seq<nat>)
    requires Topological.AllBelow(order, |decls|)
    ensures EachModuleAnswered(env, stack, decls, order)
        ==> forall i :: i in order ==> Answered(env, stack, ModuleDeclLooked(decls[i]))
    ensures EachModuleAnswered(env, stack, decls, order)
        <== forall i :: i in order ==> Answered(env, stack, ModuleDeclLooked(decls[i]))
  {
    if order != [] {
      var init, last := order[..|order| - 1], order[|order| - 1];
      assert last in order && forall i :: i in order <==> i in init || i == last by { assert order == init + [last]; }
      EachModuleMember(env, stack, decls, init);
    }
  }

  lemma ModuleAnsweredInAnyOrder(env: Env, stack: seq<ScopeId>, decls: seq<ModuleDecl>, order: seq<nat>)
    requires |order| == |decls| && IsPermutation(order)
    ensures EachModuleAnswered(env, stack, decls, order) ==> ModuleAnswered(env, stack, decls)
    ensures EachModuleAnswered(env, stack, decls, order) <== ModuleAnswered(env, stack, decls)
  {
    EachModuleMember(env, stack, decls, order);
    forall i | 0 <= i < |decls| ensures i in order { PermutationCovers(order, i); }
  }

  lemma {:induction false} ModuleDeclsRun(env: Env, st: State, under: seq<TypeFrame>, decls: seq<ModuleDecl>,
                                          order: seq<nat>)
    requires st.types == under + [ModuleFrame([])] && Topological.AllBelow(order, |decls|)
    ensures Run(env, st, ModuleDeclEvents(decls, order))
         == if EachModuleAnswered(env, st.stack, decls, order)
            then Some(st.(types := under + [ModuleFrame(EncModuleDecls(RhoAt(env, st.stack), decls, order))]))
            else None
  {
    if order != [] {
      var n := |order| - 1;
      var i := order[n];
      ModuleDeclsRun(env, st, under, decls, order[..n]);
      RunSnoc(env, st, ModuleDeclEvents(decls, order[..n]), ModuleDeclEvent(i, decls[i]));
      var ms := EncModuleDecls(RhoAt(env, st.stack), decls, order[..n]);
      ModuleDeclStep(env, st.(types := under + [ModuleFrame(ms)]), under, ms, i, decls[i]);
    }
  }

  lemma ModuleDeclStep(env: Env, st: State, under: seq<TypeFrame>, ms: seq<EncModuleDecl>, i: nat, d: ModuleDecl)
    requires st.types == under + [ModuleFrame(ms)]
    ensures Step(env, st, ModuleDeclEvent(i, d))
         == if Answered(env, st.stack, ModuleDeclLooked(d))
            then Some(st.(types := under + [ModuleFrame(ms + EncModuleDeclOf(RhoAt(env, st.stack), d))]))
            else None
  {
    assert st.types[..|st.types| - 1] == under;
  }

  /** A module type just before it is closed, `ms` having been collected. */
  function FilledModule(env: Env, st: State, ms: seq<EncModuleDecl>, path: Path): State
    requires st.comps != []
  {
    State(WithTop(st, OpenCoreSec(Top(st))).comps, st.types + [ModuleFrame(ms)], Inside(env, st.stack, path))
  }

  lemma ModuleEntered(env: Env, st: State, core: CoreType, idx: nat, path: Path)
    requires core.ModuleType? && st.comps != [] && (st.types == [] || TopType(st).BodyFrame?)
    ensures Step(env, st, EnterCoreType(idx, path, core)) == Some(FilledModule(env, st, [], path))
  {
  }

  lemma ModuleLeft(env: Env, st: State, filled: State, core: CoreType, idx: nat, path: Path)
    requires filled.stack == Inside(env, st.stack, path)
    ensures Step(env, filled, ExitCoreType(idx, path, core)) == InScope(ExitModule(filled), Some(st.stack))
  {
    assert Outside(env, filled.stack, path) == Some(st.stack);
  }

  lemma ModuleFilled(env: Env, st: State, decls: seq<ModuleDecl>, idx: nat, path: Path)
    requires st.comps != [] && (st.types == [] || TopType(st).BodyFrame?)
    ensures var inner := Inside(env, st.stack, path);
            var filled := FilledModule(env, st, EncModule(env, inner, decls).decls, path);
            Run(env, st, CoreTypeEvents(env.manner, ModuleType(decls), idx, path))
            == if ModuleAnswered(env, inner, decls) then InScope(ExitModule(filled), Some(st.stack)) else None
  {
    var core, order := ModuleType(decls), ModuleOrder(env.manner, decls);
    var inner := Inside(env, st.stack, path);
    var entered := FilledModule(env, st, [], path);
    ModuleEntered(env, st, core, idx, path);
    ModuleDeclsRun(env, entered, st.types, decls, order);
    ModuleOrderCovers(env.manner, decls);
    ModuleAnsweredInAnyOrder(env, inner, decls, order);
    var evs := ModuleDeclEvents(decls, order);
    if ModuleAnswered(env, inner, decls) {
      var filled := FilledModule(env, st, EncModule(env, inner, decls).decls, path);
      assert filled == Run(env, entered, evs).value;
      ThreeSteps(env, st, EnterCoreType(idx, path, core), evs, ExitCoreType(idx, path, core), entered, filled);
      ModuleLeft(env, st, filled, core, idx, path);
    } else {
      StopsInTheMiddle(env, st, EnterCoreType(idx, path, core), evs, ExitCoreType(idx, path, core), entered);
    }
  }

  lemma ModuleClosedNested(st: State, filled: State, kind: BodyKind, ds: seq<EncModuleDecl>)
    requires InBody(st, kind)
    requires filled.comps == WithTop(st, OpenCoreSec(Top(st))).comps && filled.types == st.types + [ModuleFrame(ds)]
    ensures ExitModule(filled) == Some(Attach(filled.(types := st.types), [EncCoreDecl(EncModuleType(ds))]))
  {
    assert filled.types[..|filled.types| - 1] == st.types;
  }

  /** Inside a body the brackets of an explicit group are lost, even around a single type, where
      at the top level they are kept. */
  lemma NestedGroupsLoseTheirBrackets(env: Env, stack: seq<ScopeId>, subs: seq<SubType>, path: Path)
    ensures EncCoreOf(env, stack, Rec(RecGroup(true, subs)), path, true)
         == EncCoreOf(env, stack, Rec(RecGroup(false, subs)), path, true)
    ensures EncCoreOf(env, stack, Rec(RecGroup(true, subs)), path, false)
         != EncCoreOf(env, stack, Rec(RecGroup(false, subs)), path, false)
  {
    var bare := EncCoreOf(env, stack, Rec(RecGroup(false, subs)), path, false);
    assert bare != [] ==> bare[0].EncSub?;
  }

  lemma NestedGroupRun(env: Env, st: State, kind: BodyKind, group: RecGroup, idx: nat, path: Path)
    requires InBody(st, kind)
    ensures var flushed := Top(st).(out := Top(st).out + [EncCoreSection([])], coreSec := None);
            Run(env, st, CoreTypeEvents(env.manner, Rec(group), idx, path))
            == Some(Attach(WithTop(st, flushed), Map(s => EncCoreDecl(EncSub(s)), group.subs)))
  {
    var entered := Attach(WithTop(st, OpenCoreSec(Top(st))), Map(s => EncCoreDecl(EncSub(s)), group.subs));
    NestedGroupEnds(env, st, kind, group);
    SubTypeEventsSkipped(env, entered, idx, |group.subs|);
    ThreeSteps(env, st, EnterRecGroup(group), SubTypeEvents(idx, |group.subs|), ExitRecGroup, entered, entered);
  }

  lemma NestedGroupEnds(env: Env, st: State, kind: BodyKind, group: RecGroup)
    requires InBody(st, kind)
    ensures var added := Map(s => EncCoreDecl(EncSub(s)), group.subs);
            var entered := Attach(WithTop(st, OpenCoreSec(Top(st))), added);
            var flushed := Top(st).(out := Top(st).out + [EncCoreSection([])], coreSec := None);
            && Step(env, st, EnterRecGroup(group)) == Some(entered)
            && Step(env, entered, ExitRecGroup) == Some(Attach(WithTop(st, flushed), added))
  {
    var entered := Attach(WithTop(st, OpenCoreSec(Top(st))), Map(s => EncCoreDecl(EncSub(s)), group.subs));
    assert Top(entered) == Top(st).(coreSec := Some([]));
  }

  lemma NestedGroup(env: Env, st: State, kind: BodyKind, group: RecGroup, idx: nat, path: Path)
    requires InBody(st, kind)
    ensures Attaches(st, Run(env, st, CoreTypeEvents(env.manner, Rec(group), idx, path)), true,
                     Map(c => EncCoreDecl(c), EncCoreOf(env, st.stack, Rec(group), path, true)))
  {
    NestedGroupRun(env, st, kind, group, idx, path);
    FlushedAndAttached(st, kind, Map(s => EncCoreDecl(EncSub(s)), group.subs));
    assert Map(c => EncCoreDecl(c), EncCoreOf(env, st.stack, Rec(group), path, true))
        == Map(s => EncCoreDecl(EncSub(s)), group.subs);
  }

  lemma FlushedAndAttached(st: State, kind: BodyKind, added: seq<EncDecl>)
    requires InBody(st, kind)
    ensures var flushed := Top(st).(out := Top(st).out + [EncCoreSection([])], coreSec := None);
            AttachedTo(st, Attach(WithTop(st, flushed), added), added)
  {
    VisibleSnoc(Top(st).out, EncCoreSection([]));
    assert Visible(Top(st).out) + [] == Visible(Top(st).out);
  }

  /** Opening the core section and attaching to the innermost body shows nothing else. */
  lemma OpenedAndAttached(st: State, after: State, kind: BodyKind, added: seq<EncDecl>)
    requires InBody(st, kind)
    requires after.comps == WithTop(st, OpenCoreSec(Top(st))).comps && after.types == Attach(st, added).types
    requires after.stack == st.stack
    ensures AttachedTo(st, after, added)
  {
  }

  lemma NestedModule(env: Env, st: State, kind: BodyKind, decls: seq<ModuleDecl>, idx: nat, path: Path)
    requires InBody(st, kind)
    ensures Attaches(st, Run(env, st, CoreTypeEvents(env.manner, ModuleType(decls), idx, path)),
                     ModuleAnswered(env, Inside(env, st.stack, path), decls),
                     Map(c => EncCoreDecl(c), EncCoreOf(env, st.stack, ModuleType(decls), path, true)))
  {
    ModuleFilled(env, st, decls, idx, path);
    var inner := Inside(env, st.stack, path);
    var module_ := EncModule(env, inner, decls);
    if ModuleAnswered(env, inner, decls) {
      ModuleClosedNested(st, FilledModule(env, st, module_.decls, path), kind, module_.decls);
      OpenedAndAttached(st, Attach(WithTop(st, OpenCoreSec(Top(st))), [EncCoreDecl(module_)]), kind,
                        [EncCoreDecl(module_)]);
      assert EncCoreOf(env, st.stack, ModuleType(decls), path, true) == [module_];
      assert Map(c => EncCoreDecl(c), [module_]) == [EncCoreDecl(module_)];
    }
  }

  /** A leaf is visited as it is entered; leaving it only leaves its scope. */
  lemma LeafVisited(env: Env, st: State, leaf: LeafType, idx: nat, path: Path)
    ensures Run(env, st, CompTypeEvents(env.manner, Leaf(leaf), idx, path))
         == match VisitLeaf(env, st.(stack := Inside(env, st.stack, path)), leaf)
            case None => None
            case Some(v) => Some(v.(stack := st.stack))
  {
    var inner := st.(stack := Inside(env, st.stack, path));
    RunThree(env, st, EnterCompType(idx, path, Leaf(leaf)), [], ExitCompType(idx, path, Leaf(leaf)));
    assert Outside(env, inner.stack, path) == Some(st.stack);
    VisitLeafStays(env, inner, leaf);
  }

  lemma VisitLeafStays(env: Env, st: State, leaf: LeafType)
    ensures VisitLeaf(env, st, leaf).Some? ==> VisitLeaf(env, st, leaf).value.stack == st.stack
  {
  }

  lemma LeafAttached(env: Env, st: State, kind: BodyKind, leaf: LeafType)
    requires InBody(st, kind)
    ensures VisitLeaf(env, st, leaf)
         == if Answered(env, st.stack, LeafLooked(RhoAt(env, st.stack), leaf, true))
            then Some(Attach(st, [EncTypeDecl(EncLeaf(FixNestedLeaf(RhoAt(env, st.stack), leaf)))])) else None
  {
    assert WithTop(st, OpenTypeSec(Top(st))).comps == st.comps;
  }

  /** Attaching below an entered scope and leaving the scope again. */
  lemma AttachOnly(st: State, kind: BodyKind, added: seq<EncDecl>, stack: seq<ScopeId>)
    requires InBody(st, kind)
    ensures Attach(st.(stack := stack), added).(stack := st.stack) == Attach(st, added)
    ensures AttachedTo(st, Attach(st, added), added)
  {
  }

  lemma NestedLeaf(env: Env, st: State, kind: BodyKind, leaf: LeafType, idx: nat, path: Path)
    requires InBody(st, kind)
    ensures Attaches(st, Run(env, st, CompTypeEvents(env.manner, Leaf(leaf), idx, path)),
                     TypeAnswered(env, st.stack, Leaf(leaf), path, true),
                     [EncTypeDecl(EncTypeOf(env, st.stack, Leaf(leaf), path, true))])
  {
    var inner := Inside(env, st.stack, path);
    var added := [EncTypeDecl(EncLeaf(FixNestedLeaf(RhoAt(env, inner), leaf)))];
    LeafVisited(env, st, leaf, idx, path);
    LeafAttached(env, st.(stack := inner), kind, leaf);
    AttachOnly(st, kind, added, inner);
    assert Run(env, st, CompTypeEvents(env.manner, Leaf(leaf), idx, path))
        == if TypeAnswered(env, st.stack, Leaf(leaf), path, true) then Some(Attach(st, added)) else None;
  }

  /** Leaving a nested body attaches it to the one around it. */
  lemma BodyClosedNested(st: State, filled: State, kind: BodyKind, k: BodyKind, ds: seq<EncDecl>)
    requires InBody(st, kind) && filled.comps != [] && Top(filled).typeSec.Some?
    requires filled.types == st.types + [BodyFrame(k, ds)]
    ensures ExitBody(filled, k) == Some(Attach(filled.(types := st.types), [EncTypeDecl(EncBody(k, ds))]))
  {
    assert filled.types[..|filled.types| - 1] == st.types;
  }

  /** The declarations of a body, in the order in which they are visited. */
  function EncDecls(env: Env, stack: seq<ScopeId>, decls: seq<Decl>, path: Path): seq<EncDecl> {
    EncDeclsOf(env, stack, decls, BodyOrder(env.manner, decls), path)
  }

  lemma BodyFilled(env: Env, st: State, kind: BodyKind, k: BodyKind, decls: seq<Decl>, path: Path, filled: State)
    requires InBody(st, kind)
    requires var entered := State(st.comps, st.types + [BodyFrame(k, [])], Inside(env, st.stack, path));
             AttachedTo(entered, filled, EncDecls(env, entered.stack, decls, path))
    ensures filled.types == st.types + [BodyFrame(k, EncDecls(env, filled.stack, decls, path))]
    ensures SameFrames(st, filled.(stack := st.stack)) && filled.stack == Inside(env, st.stack, path)
    ensures Visible(Top(filled).out) == Visible(Top(st).out) && Top(filled).typeSec == Top(st).typeSec
  {
    var ds := EncDecls(env, filled.stack, decls, path);
    assert [] + ds == ds;
    assert (st.types + [BodyFrame(k, [])])[..|st.types|] == st.types;
  }

  /** A nested type definition succeeds exactly when every reference looked up in it is found, and
      then appends exactly its tree to the enclosing body. */
  lemma {:induction false} NestedType(env: Env, st: State, kind: BodyKind, ty: CompType, idx: nat, path: Path)
    requires InBody(st, kind)
    ensures Attaches(st, Run(env, st, CompTypeEvents(env.manner, ty, idx, path)),
                     TypeAnswered(env, st.stack, ty, path, true),
                     [EncTypeDecl(EncTypeOf(env, st.stack, ty, path, true))])
    decreases ty, 1
  {
    match ty {
      case Leaf(leaf) => NestedLeaf(env, st, kind, leaf, idx, path);
      case Body(k, decls) =>
        var entered := State(st.comps, st.types + [BodyFrame(k, [])], Inside(env, st.stack, path));
        NestedDecls(env, entered, k, decls, BodyOrder(env.manner, decls), path);
        BodyOrderCovers(env.manner, decls);
        AnsweredInAnyOrder(env, entered.stack, decls, BodyOrder(env.manner, decls), path);
        NestedBody(env, st, kind, k, decls, idx, path, entered);
    }
  }

  /** A nested body, given the run of its declarations. */
  lemma NestedBody(env: Env, st: State, kind: BodyKind, k: BodyKind, decls: seq<Decl>, idx: nat, path: Path,
                   entered: State)
    requires InBody(st, kind) && entered == State(st.comps, st.types + [BodyFrame(k, [])], Inside(env, st.stack, path))
    requires Attaches(entered, Run(env, entered, BodyEvents(env, k, decls, path)),
                      DeclsAnswered(env, entered.stack, decls, path), EncDecls(env, entered.stack, decls, path))
    ensures Attaches(st, Run(env, st, CompTypeEvents(env.manner, Body(k, decls), idx, path)),
                     TypeAnswered(env, st.stack, Body(k, decls), path, true),
                     [EncTypeDecl(EncTypeOf(env, st.stack, Body(k, decls), path, true))])
  {
    var ty, evs := Body(k, decls), BodyEvents(env, k, decls, path);
    BodyEntered(env, st, kind, k, decls, idx, path, entered);
    if DeclsAnswered(env, entered.stack, decls, path) {
      var filled := Run(env, entered, evs).value;
      NestedBodyLeft(env, st, kind, k, decls, idx, path, entered, filled);
      ThreeSteps(env, st, EnterCompType(idx, path, ty), evs, ExitCompType(idx, path, ty), entered, filled);
    } else {
      StopsInTheMiddle(env, st, EnterCompType(idx, path, ty), evs, ExitCompType(idx, path, ty), entered);
    }
  }

  lemma NestedBodyLeft(env: Env, st: State, kind: BodyKind, k: BodyKind, decls: seq<Decl>, idx: nat, path: Path,
                       entered: State, filled: State)
    requires InBody(st, kind) && entered == State(st.comps, st.types + [BodyFrame(k, [])], Inside(env, st.stack, path))
    requires AttachedTo(entered, filled, EncDecls(env, entered.stack, decls, path))
    ensures var after := Step(env, filled, ExitCompType(idx, path, Body(k, decls)));
            after.Some?
            && AttachedTo(st, after.value, [EncTypeDecl(EncTypeOf(env, st.stack, Body(k, decls), path, true))])
  {
    var tree := EncTypeDecl(EncTypeOf(env, st.stack, Body(k, decls), path, true));
    BodyFilled(env, st, kind, k, decls, path, filled);
    BodyClosedNested(st, filled, kind, k, EncDecls(env, filled.stack, decls, path));
    assert Outside(env, filled.stack, path) == Some(st.stack);
    BackInBody(st, filled, kind, [tree]);
  }

  lemma BackInBody(st: State, filled: State, kind: BodyKind, added: seq<EncDecl>)
    requires InBody(st, kind) && SameFrames(st, filled.(stack := st.stack))
    requires Visible(Top(filled).out) == Visible(Top(st).out) && Top(filled).typeSec == Top(st).typeSec
    ensures AttachedTo(st, Attach(filled.(types := st.types), added).(stack := st.stack), added)
  {
  }

  function BodyEvents(env: Env, kind: BodyKind, decls: seq<Decl>, path: Path): seq<Event> {
    DeclsEvents(env.manner, kind, decls, BodyOrder(env.manner, decls), path)
  }

  lemma BodyEntered(env: Env, st: State, kind: BodyKind, k: BodyKind, decls: seq<Decl>, idx: nat, path: Path,
                    entered: State)
    requires InBody(st, kind) && entered == State(st.comps, st.types + [BodyFrame(k, [])], Inside(env, st.stack, path))
    ensures Step(env, st, EnterCompType(idx, path, Body(k, decls))) == Some(entered)
  {
    assert WithTop(st, OpenTypeSec(Top(st))).comps == st.comps;
  }

  /** These declarations have all their references answered. */
  predicate EachAnswered(env: Env, stack: seq<ScopeId>, decls: seq<Decl>, order: seq<nat>, path: Path)
    requires Topological.AllBelow(order, |decls|)
  {
    forall k :: 0 <= k < |order| ==> DeclAnswered(env, stack, decls[order[k]], path + [order[k]])
  }

  lemma EachSnoc(env: Env, stack: seq<ScopeId>, decls: seq<Decl>, order: seq<nat>, path: Path)
    requires Topological.AllBelow(order, |decls|) && order != []
    ensures var n := |order| - 1;
            EachAnswered(env, stack, decls, order, path)
            <==> EachAnswered(env, stack, decls, order[..n], path)
                 && DeclAnswered(env, stack, decls[order[n]], path + [order[n]])
  {
    var n := |order| - 1;
    if EachAnswered(env, stack, decls, order, path) {
      forall k | 0 <= k < n ensures DeclAnswered(env, stack, decls[order[..n][k]], path + [order[..n][k]]) {
        assert order[..n][k] == order[k];
      }
    }
  }

  lemma AnsweredInAnyOrder(env: Env, stack: seq<ScopeId>, decls: seq<Decl>, order: seq<nat>, path: Path)
    requires |order| == |decls| && IsPermutation(order)
    ensures EachAnswered(env, stack, decls, order, path) <==> DeclsAnswered(env, stack, decls, path)
  {
    if EachAnswered(env, stack, decls, order, path) {
      forall i | 0 <= i < |decls| ensures DeclAnswered(env, stack, decls[i], path + [i]) {
        PermutationCovers(order, i);
        var k :| 0 <= k < |order| && order[k] == i;
        assert DeclAnswered(env, stack, decls[order[k]], path + [order[k]]);
      }
    }
  }

  /** The declarations of a body are appended one by one, in the order of the visits. */
  lemma {:induction false} NestedDecls(env: Env, st: State, kind: BodyKind, decls: seq<Decl>, order: seq<nat>,
                                       path: Path)
    requires InBody(st, kind) && Topological.AllBelow(order, |decls|)
    ensures Attaches(st, Run(env, st, DeclsEvents(env.manner, kind, decls, order, path)),
                     EachAnswered(env, st.stack, decls, order, path), EncDeclsOf(env, st.stack, decls, order, path))
    decreases decls, 0, |order|
  {
    if order == [] {
      AttachNothing(st, kind);
    } else {
      var n := |order| - 1;
      var i := order[n];
      NestedDecls(env, st, kind, decls, order[..n], path);
      var first := DeclsEvents(env.manner, kind, decls, order[..n], path);
      var second := DeclEvents(env.manner, kind, decls[i], i, path);
      EachSnoc(env, st.stack, decls, order, path);
      RunConcat(env, st, first, second);
      if EachAnswered(env, st.stack, decls, order[..n], path) {
        var mid := Run(env, st, first).value;
        NestedDecl(env, mid, kind, decls[i], i, path);
        OneMoreAttached(env, st, mid, Run(env, mid, second), EncDeclsOf(env, st.stack, decls, order[..n], path),
                        EncDeclOf(env, st.stack, decls[i], path + [i]),
                        DeclAnswered(env, st.stack, decls[i], path + [i]));
      }
    }
  }

  lemma OneMoreAttached(env: Env, st: State, mid: State, after: Option<State>, xs: seq<EncDecl>, ys: seq<EncDecl>,
                        answered: bool)
    requires AttachedTo(st, mid, xs) && Attaches(mid, after, answered, ys)
    ensures Attaches(st, after, answered, xs + ys)
  {
    if after.Some? { AttachTrans(st, mid, after.value, xs, ys); }
  }

  lemma {:induction false} NestedDecl(env: Env, st: State, kind: BodyKind, d: Decl, i: nat, path: Path)
    requires InBody(st, kind)
    ensures Attaches(st, Run(env, st, DeclEvents(env.manner, kind, d, i, path)),
                     DeclAnswered(env, st.stack, d, path + [i]), EncDeclOf(env, st.stack, d, path + [i]))
    decreases d, 0
  {
    DeclFirst(env, st, kind, d, i, path);
    match d {
      case TypeDecl(ty) => NestedType(env, st, kind, ty, i, path + [i]);
      case CoreTypeDecl(Rec(group)) => NestedGroup(env, st, kind, group, i, path + [i]);
      case CoreTypeDecl(ModuleType(decls)) => NestedModule(env, st, kind, decls, i, path + [i]);
      case _ =>
    }
  }

  /** The event of a declaration attaches it, or leaves that to the type it declares. */
  lemma DeclFirst(env: Env, st: State, kind: BodyKind, d: Decl, i: nat, path: Path)
    requires InBody(st, kind)
    ensures Run(env, st, DeclEvents(env.manner, kind, d, i, path))
         == match d
            case TypeDecl(ty) => Run(env, st, CompTypeEvents(env.manner, ty, i, path + [i]))
            case CoreTypeDecl(core) => Run(env, st, CoreTypeEvents(env.manner, core, i, path + [i]))
            case _ => if Answered(env, st.stack, DeclLooked(d))
                      then Some(Attach(st, EncDeclOf(env, st.stack, d, path + [i]))) else None
  {
    var ev := DeclEvent(kind, i, d);
    RunSnoc(env, st, [], ev);
    assert [] + [ev] == [ev];
    match d {
      case TypeDecl(ty) => RunConcat(env, st, [ev], CompTypeEvents(env.manner, ty, i, path + [i]));
      case CoreTypeDecl(core) => RunConcat(env, st, [ev], CoreTypeEvents(env.manner, core, i, path + [i]));
      case _ => assert [ev] + [] == [ev];
    }
  }

  /** A top-level type definition succeeds exactly when every reference looked up in it is found,
      and is then flushed as one section holding exactly its tree. */
  lemma TopLevelType(env: Env, st: State, ty: CompType, idx: nat, path: Path)
    requires AtTop(st)
    ensures Flushes(st, Run(env, st, CompTypeEvents(env.manner, ty, idx, path)),
                  TypeAnswered(env, st.stack, ty, path, false),
                  EncTypeSection([EncTypeOf(env, st.stack, ty, path, false)]))
  {
    match ty {
      case Leaf(leaf) => TopLevelLeaf(env, st, leaf, idx, path);
      case Body(k, decls) => TopLevelBody(env, st, k, decls, idx, path);
    }
  }

  /** One section more, and nothing else that shows. */
  lemma OneSection(st: State, f: CompFrame, s: EncSection)
    requires AtTop(st) && f.out == Top(st).out + [s] && f.typeSec.None? && Calm(f)
    ensures EmittedTo(st, WithTop(st, f), s)
  {
    VisibleSnoc(Top(st).out, s);
  }

  lemma LeafFlushed(env: Env, st: State, leaf: LeafType)
    requires AtTop(st)
    ensures var section := EncTypeSection([EncLeaf(FixTopLeaf(RhoAt(env, st.stack), leaf))]);
            VisitLeaf(env, st, leaf)
            == if Answered(env, st.stack, TopLeafLooked(leaf))
               then Some(WithTop(st, Top(st).(out := Top(st).out + [section]))) else None
  {
    var ty := EncLeaf(FixTopLeaf(RhoAt(env, st.stack), leaf));
    assert [] + [ty] == [ty];
  }

  lemma TopLevelLeaf(env: Env, st: State, leaf: LeafType, idx: nat, path: Path)
    requires AtTop(st)
    ensures Flushes(st, Run(env, st, CompTypeEvents(env.manner, Leaf(leaf), idx, path)),
                  TypeAnswered(env, st.stack, Leaf(leaf), path, false),
                  EncTypeSection([EncTypeOf(env, st.stack, Leaf(leaf), path, false)]))
  {
    var s := EncTypeSection([EncTypeOf(env, st.stack, Leaf(leaf), path, false)]);
    LeafVisited(env, st, leaf, idx, path);
    LeafFlushed(env, st.(stack := Inside(env, st.stack, path)), leaf);
    OneSection(st, Top(st).(out := Top(st).out + [s]), s);
  }

  lemma BodyClosedTop(st: State, kind: BodyKind, ds: seq<EncDecl>)
    requires st.comps != [] && Top(st).typeSec == Some([]) && st.types == [BodyFrame(kind, ds)]
    ensures ExitBody(st, kind)
         == Some(WithTop(st, Top(st).(out := Top(st).out + [EncTypeSection([EncBody(kind, ds)])], typeSec := None))
                 .(types := []))
  {
    assert st.types[..|st.types| - 1] == [];
    assert [] + [EncBody(kind, ds)] == [EncBody(kind, ds)];
  }

  /** What leaving a top-level body makes of the state in which its declarations are collected. */
  function BodyFlushed(filled: State, tree: EncType, stack: seq<ScopeId>): State
    requires filled.comps != []
  {
    WithTop(filled, Top(filled).(out := Top(filled).out + [EncTypeSection([tree])], typeSec := None))
    .(types := [], stack := stack)
  }

  lemma TopBodyEntered(env: Env, st: State, kind: BodyKind, decls: seq<Decl>, idx: nat, path: Path)
    returns (entered: State)
    requires AtTop(st)
    ensures entered == State(WithTop(st, Top(st).(typeSec := Some([]))).comps, [BodyFrame(kind, [])],
                             Inside(env, st.stack, path))
    ensures Step(env, st, EnterCompType(idx, path, Body(kind, decls))) == Some(entered)
    ensures InBody(entered, kind)
  {
    entered := EnterBody(st.(stack := Inside(env, st.stack, path)), kind).value;
    assert [] + [BodyFrame(kind, [])] == [BodyFrame(kind, [])];
  }

  lemma TopBodyLeft(env: Env, st: State, entered: State, filled: State, kind: BodyKind, decls: seq<Decl>, idx: nat,
                    path: Path)
    requires AtTop(st) && InBody(entered, kind)
    requires entered == State(WithTop(st, Top(st).(typeSec := Some([]))).comps, [BodyFrame(kind, [])],
                              Inside(env, st.stack, path))
    requires AttachedTo(entered, filled, EncDecls(env, entered.stack, decls, path))
    ensures var ty := Body(kind, decls);
            var after := Step(env, filled, ExitCompType(idx, path, ty));
            && after == Some(BodyFlushed(filled, EncTypeOf(env, st.stack, ty, path, false), st.stack))
            && EmittedTo(st, after.value, EncTypeSection([EncTypeOf(env, st.stack, ty, path, false)]))
  {
    var ds := EncDecls(env, entered.stack, decls, path);
    assert filled.types == [BodyFrame(kind, [] + ds)] && [] + ds == ds;
    assert Outside(env, filled.stack, path) == Some(st.stack);
    BodyClosedTop(filled, kind, ds);
    TopBodyShows(st, filled, EncTypeOf(env, st.stack, Body(kind, decls), path, false));
  }

  lemma TopBodyShows(st: State, filled: State, tree: EncType)
    requires AtTop(st) && filled.comps != [] && Calm(Top(filled)) && |filled.comps| == |st.comps|
    requires filled.comps[..|st.comps| - 1] == st.comps[..|st.comps| - 1]
    requires Visible(Top(filled).out) == Visible(Top(st).out)
    ensures EmittedTo(st, BodyFlushed(filled, tree, st.stack), EncTypeSection([tree]))
  {
    VisibleSnoc(Top(filled).out, EncTypeSection([tree]));
  }

  lemma TopLevelBody(env: Env, st: State, kind: BodyKind, decls: seq<Decl>, idx: nat, path: Path)
    requires AtTop(st)
    ensures var ty := Body(kind, decls);
            Flushes(st, Run(env, st, CompTypeEvents(env.manner, ty, idx, path)),
                  TypeAnswered(env, st.stack, ty, path, false),
                  EncTypeSection([EncTypeOf(env, st.stack, ty, path, false)]))
  {
    var ty, evs := Body(kind, decls), BodyEvents(env, kind, decls, path);
    var entered := TopBodyEntered(env, st, kind, decls, idx, path);
    NestedDecls(env, entered, kind, decls, BodyOrder(env.manner, decls), path);
    BodyOrderCovers(env.manner, decls);
    AnsweredInAnyOrder(env, entered.stack, decls, BodyOrder(env.manner, decls), path);
    if DeclsAnswered(env, entered.stack, decls, path) {
      var filled := Run(env, entered, evs).value;
      ThreeSteps(env, st, EnterCompType(idx, path, ty), evs, ExitCompType(idx, path, ty), entered, filled);
      TopBodyLeft(env, st, entered, filled, kind, decls, idx, path);
    } else {
      StopsInTheMiddle(env, st, EnterCompType(idx, path, ty), evs, ExitCompType(idx, path, ty), entered);
    }
  }

  lemma TopLevelCore(env: Env, st: State, core: CoreType, idx: nat, path: Path)
    requires AtTop(st)
    ensures Flushes(st, Run(env, st, CoreTypeEvents(env.manner, core, idx, path)),
                  CoreAnswered(env, st.stack, core, path, false),
                  EncCoreSection(EncCoreOf(env, st.stack, core, path, false)))
  {
    match core {
      case Rec(group) => TopLevelGroup(env, st, group, idx, path);
      case ModuleType(decls) => TopLevelModule(env, st, decls, idx, path);
    }
  }

  lemma GroupEnteredTop(env: Env, st: State, group: RecGroup, path: Path)
    requires AtTop(st)
    ensures EnterGroup(env, st, group)
         == if CoreAnswered(env, st.stack, Rec(group), path, false)
            then Some(WithTop(st, Top(st).(coreSec := Some(EncCoreOf(env, st.stack, Rec(group), path, false)))))
            else None
  {
    var entries := EncCoreOf(env, st.stack, Rec(group), path, false);
    assert entries == EncCoreOf(env, st.stack, Rec(group), [], false);
    assert [] + entries == entries;
  }

  lemma GroupLeftTop(st: State, entries: seq<EncCore>)
    requires AtTop(st)
    ensures var entered := WithTop(st, Top(st).(coreSec := Some(entries)));
            ExitGroup(entered).Some? && EmittedTo(st, ExitGroup(entered).value, EncCoreSection(entries))
  {
    OneSection(st, Top(st).(out := Top(st).out + [EncCoreSection(entries)], coreSec := None), EncCoreSection(entries));
  }

  lemma TopLevelGroup(env: Env, st: State, group: RecGroup, idx: nat, path: Path)
    requires AtTop(st)
    ensures Flushes(st, Run(env, st, CoreTypeEvents(env.manner, Rec(group), idx, path)),
                  CoreAnswered(env, st.stack, Rec(group), path, false),
                  EncCoreSection(EncCoreOf(env, st.stack, Rec(group), path, false)))
  {
    var entries := EncCoreOf(env, st.stack, Rec(group), path, false);
    GroupEnteredTop(env, st, group, path);
    if CoreAnswered(env, st.stack, Rec(group), path, false) {
      GroupFlushed(env, st, group, idx, entries);
    } else {
      RunThree(env, st, EnterRecGroup(group), SubTypeEvents(idx, |group.subs|), ExitRecGroup);
    }
  }

  lemma GroupFlushed(env: Env, st: State, group: RecGroup, idx: nat, entries: seq<EncCore>)
    requires AtTop(st) && EnterGroup(env, st, group) == Some(WithTop(st, Top(st).(coreSec := Some(entries))))
    ensures var after := Run(env, st, [EnterRecGroup(group)] + SubTypeEvents(idx, |group.subs|) + [ExitRecGroup]);
            after.Some? && EmittedTo(st, after.value, EncCoreSection(entries))
  {
    var entered := WithTop(st, Top(st).(coreSec := Some(entries)));
    SubTypeEventsSkipped(env, entered, idx, |group.subs|);
    ThreeSteps(env, st, EnterRecGroup(group), SubTypeEvents(idx, |group.subs|), ExitRecGroup, entered, entered);
    GroupLeftTop(st, entries);
  }

  lemma ModuleClosedTop(st: State, ds: seq<EncModuleDecl>)
    requires st.comps != [] && Top(st).coreSec == Some([]) && st.types == [ModuleFrame(ds)]
    ensures ExitModule(st)
         == Some(WithTop(st, Top(st).(out := Top(st).out + [EncCoreSection([EncModuleType(ds)])], coreSec := None))
                 .(types := []))
  {
    assert st.types[..|st.types| - 1] == [];
    assert [] + [EncModuleType(ds)] == [EncModuleType(ds)];
  }

  lemma TopLevelModule(env: Env, st: State, decls: seq<ModuleDecl>, idx: nat, path: Path)
    requires AtTop(st)
    ensures var core := ModuleType(decls);
            Flushes(st, Run(env, st, CoreTypeEvents(env.manner, core, idx, path)),
                  CoreAnswered(env, st.stack, core, path, false),
                  EncCoreSection(EncCoreOf(env, st.stack, core, path, false)))
  {
    ModuleFilled(env, st, decls, idx, path);
    var inner := Inside(env, st.stack, path);
    var ds := EncModule(env, inner, decls).decls;
    if ModuleAnswered(env, inner, decls) {
      var filled := State(WithTop(st, OpenCoreSec(Top(st))).comps, [] + [ModuleFrame(ds)], inner);
      ModuleClosedTop(filled, ds);
      var s := EncCoreSection([EncModuleType(ds)]);
      OneSection(st, Top(st).(out := Top(st).out + [s], coreSec := None), s);
    }
  }
}
