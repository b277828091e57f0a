/** Nested type definitions and their traversals: a recursive walk flattens a tree of component,
    instance and module types into enter, leaf and exit events. The structural walk takes the
    declarations of a body as they stand; the topological one pulls those a declaration refers to
    ahead of it. */
module TypeTrees {
  import opened Prelude
  import opened Spaces
  import opened Types
  import opened ActualIds
  import opened FixIndices
  import Topological

  datatype BodyKind = ComponentBody | InstanceBody

  /** A recursion group; `isExplicit` says whether it was written with `rec`. */
  datatype RecGroup = RecGroup(isExplicit: bool, subs: seq<SubType>)

  datatype ModuleDecl =
    | ModuleTypes(group: RecGroup)
    | ModuleImport(mod: string, name: string, coreTy: CoreTypeRef)
    | ModuleExport(name: string, coreTy: CoreTypeRef)
    | ModuleOuterAlias(count: nat, index: nat)

  datatype CoreType = ModuleType(moduleDecls: seq<ModuleDecl>) | Rec(group: RecGroup)

  /** A declaration of a component or instance type; only component types have imports. */
  datatype Decl =
    | CoreTypeDecl(core: CoreType)
    | TypeDecl(ty: CompType)
    | AliasDecl(als: Alias)
    | ExportDecl(name: string, ref: TypeRef)
    | ImportDecl(name: string, ref: TypeRef)

  datatype CompType = Body(kind: BodyKind, decls: seq<Decl>) | Leaf(leaf: LeafType)

  /** The identity of a node: its position in the component, then declaration indices. */
  type Path = seq<nat>

  /** The space a declaration adds an item to. */
  function DeclSpace(d: Decl): Space {
    match d
    case CoreTypeDecl(_) => Space.CoreType
    case TypeDecl(_) => Space.CompType
    case AliasDecl(a) => AliasSpace(a)
    case ExportDecl(_, ty) => TypeRefItemSpace(ty)
    case ImportDecl(_, ty) => TypeRefItemSpace(ty)
  }

  /** All module declarations, whatever they declare, are numbered among the core types. */
  function ModuleDeclSpace(d: ModuleDecl): Space {
    Space.CoreType
  }

  datatype Event =
    | EnterCompType(idx: nat, path: Path, ty: CompType)
    | ExitCompType(idx: nat, path: Path, ty: CompType)
    | DeclEvent(kind: BodyKind, idx: nat, decl: Decl)
    | EnterRecGroup(group: RecGroup)
    | SubTypeEvent(parent: nat, sub: nat)
    | ExitRecGroup
    | EnterCoreType(idx: nat, path: Path, core: CoreType)
    | ModuleDeclEvent(idx: nat, modDecl: ModuleDecl)
    | ExitCoreType(idx: nat, path: Path, core: CoreType)

  function SubTypeEvents(idx: nat, n: nat): seq<Event> {
    if n == 0 then [] else SubTypeEvents(idx, n - 1) + [SubTypeEvent(idx, n - 1)]
  }

  // ------------------------------------------------------------------------------------
  // The order of the declarations of a body
  // ------------------------------------------------------------------------------------

  /** Which walk: as the declarations stand, or with what they refer to pulled ahead. */
  datatype Manner = InPlace | PulledAhead

  /** What a declaration refers to for its own body; the references of a nested type count as
      inner ones and are not reported. */
  function DeclRefs(d: Decl): seq<IndexedRef> {
    match d
    case AliasDecl(a) => [AliasRef(a)]
    case ExportDecl(_, ty) => TypeRefRefs(ty)
    case ImportDecl(_, ty) => TypeRefRefs(ty)
    case _ => []
  }

  /** What a module declaration reports; for a group that leaves out parameters and results. */
  function ModuleDeclRefs(d: ModuleDecl): seq<IndexedRef> {
    match d
    case ModuleTypes(group) => FlatMap(SubTypeReported, group.subs)
    case ModuleImport(_, _, ty) => CoreTypeRefRefs(ty)
    case ModuleExport(_, ty) => CoreTypeRefRefs(ty)
    case ModuleOuterAlias(count, index) => [IndexedRef(count, Space.CoreType, index)]
  }

  /** A reference of the body itself that finds a declaration. */
  predicate Found(spaces: seq<Space>, r: IndexedRef) {
    r.depth == 0 && r.index < |Positions(spaces, r.space)|
  }

  /** The declarations referred to, in order; where a reference of the body finds none the
      collection aborts. */
  function Targets(spaces: seq<Space>, refs: seq<IndexedRef>): (r: seq<nat>)
    ensures Topological.AllBelow(r, |spaces|)
  {
    if refs == [] then []
    else
      var r := refs[|refs| - 1];
      Targets(spaces, refs[..|refs| - 1])
      + (if Found(spaces, r) then
           PositionsHold(spaces, r.space);
           [Positions(spaces, r.space)[r.index]]
         else [])
  }

  function DeclSpaces(decls: seq<Decl>): (r: seq<Space>)
    ensures |r| == |decls|
  {
    Map(DeclSpace, decls)
  }

  function ModuleDeclSpaces(decls: seq<ModuleDecl>): (r: seq<Space>)
    ensures |r| == |decls|
  {
    Map(ModuleDeclSpace, decls)
  }

  function DeclTargets(decls: seq<Decl>): (r: seq<seq<nat>>)
    ensures |r| == |decls|
    ensures forall i :: 0 <= i < |decls| ==>
              r[i] == Targets(DeclSpaces(decls), DeclRefs(decls[i])) && Topological.AllBelow(r[i], |decls|)
  {
    seq(|decls|, i requires 0 <= i < |decls| => Targets(DeclSpaces(decls), DeclRefs(decls[i])))
  }

  function ModuleDeclTargets(decls: seq<ModuleDecl>): (r: seq<seq<nat>>)
    ensures |r| == |decls|
    ensures forall i :: 0 <= i < |decls| ==>
              r[i] == Targets(ModuleDeclSpaces(decls), ModuleDeclRefs(decls[i])) && Topological.AllBelow(r[i], |decls|)
  {
    seq(|decls|, i requires 0 <= i < |decls| => Targets(ModuleDeclSpaces(decls), ModuleDeclRefs(decls[i])))
  }

  /** The order in which the declarations of a body are visited. */
  function BodyOrder(m: Manner, decls: seq<Decl>): (order: seq<nat>)
    ensures Topological.AllBelow(order, |decls|)
  {
    VisitedOnce(DeclTargets(decls));
    match m
    case InPlace => Upto(|decls|)
    case PulledAhead => Topological.CollectBody(DeclTargets(decls), |decls|).out
  }

  function ModuleOrder(m: Manner, decls: seq<ModuleDecl>): (order: seq<nat>)
    ensures Topological.AllBelow(order, |decls|)
  {
    VisitedOnce(ModuleDeclTargets(decls));
    match m
    case InPlace => Upto(|decls|)
    case PulledAhead => Topological.CollectBody(ModuleDeclTargets(decls), |decls|).out
  }

  lemma VisitedOnce(targets: seq<seq<nat>>)
    requires forall i :: 0 <= i < |targets| ==> Topological.AllBelow(targets[i], |targets|)
    ensures var out := Topological.CollectBody(targets, |targets|).out;
            |out| == |targets| && IsPermutation(out) && Topological.AllBelow(out, |targets|)
  {
    Topological.BodyIsPermuted(targets);
  }

  /** Every declaration is visited exactly once. */
  lemma BodyOrderCovers(m: Manner, decls: seq<Decl>)
    ensures |BodyOrder(m, decls)| == |decls| && IsPermutation(BodyOrder(m, decls))
  {
    VisitedOnce(DeclTargets(decls));
  }

  lemma ModuleOrderCovers(m: Manner, decls: seq<ModuleDecl>)
    ensures |ModuleOrder(m, decls)| == |decls| && IsPermutation(ModuleOrder(m, decls))
  {
    VisitedOnce(ModuleDeclTargets(decls));
  }

  // ------------------------------------------------------------------------------------
  // Events
  // ------------------------------------------------------------------------------------

  function ModuleDeclEvents(decls: seq<ModuleDecl>, order: seq<nat>): seq<Event>
    requires Topological.AllBelow(order, |decls|)
  {
    if order == [] then []
    else
      var i := order[|order| - 1];
      ModuleDeclEvents(decls, order[..|order| - 1]) + [ModuleDeclEvent(i, decls[i])]
  }

  function CoreTypeEvents(m: Manner, ty: CoreType, idx: nat, path: Path): seq<Event> {
    match ty
    case ModuleType(decls) =>
      [EnterCoreType(idx, path, ty)] + ModuleDeclEvents(decls, ModuleOrder(m, decls)) + [ExitCoreType(idx, path, ty)]
    case Rec(group) => [EnterRecGroup(group)] + SubTypeEvents(idx, |group.subs|) + [ExitRecGroup]
  }

  function CompTypeEvents(m: Manner, ty: CompType, idx: nat, path: Path): seq<Event>
    decreases ty, 1
  {
    [EnterCompType(idx, path, ty)]
    + (if ty.Body? then DeclsEvents(m, ty.kind, ty.decls, BodyOrder(m, ty.decls), path) else [])
    + [ExitCompType(idx, path, ty)]
  }

  /** The events of the declarations visited in this order. */
  function DeclsEvents(m: Manner, kind: BodyKind, decls: seq<Decl>, order: seq<nat>, path: Path): seq<Event>
    requires Topological.AllBelow(order, |decls|)
    decreases decls, 0, |order|
  {
    if order == [] then []
    else
      var i := order[|order| - 1];
      DeclsEvents(m, kind, decls, order[..|order| - 1], path) + DeclEvents(m, kind, decls[i], i, path)
  }

  function DeclEvents(m: Manner, kind: BodyKind, d: Decl, i: nat, path: Path): seq<Event>
    decreases d, 0
  {
    [DeclEvent(kind, i, d)]
    + match d
      case TypeDecl(ty) => CompTypeEvents(m, ty, i, path + [i])
      case CoreTypeDecl(core) => CoreTypeEvents(m, core, i, path + [i])
      case _ => []
  }

  // ------------------------------------------------------------------------------------
  // The structural walk: it pushes events onto one growing vector
  // ------------------------------------------------------------------------------------

  method VisitCoreType(ty: CoreType, idx: nat, path: Path, before: seq<Event>) returns (out: seq<Event>)
    ensures out == before + CoreTypeEvents(InPlace, ty, idx, path)
  {
    match ty {
      case ModuleType(decls) =>
        out := before + [EnterCoreType(idx, path, ty)];
        for i := 0 to |decls|
          invariant out == before + [EnterCoreType(idx, path, ty)] + ModuleDeclEvents(decls, Upto(i))
        {
          NextInPlace(i);
          out := out + [ModuleDeclEvent(i, decls[i])];
        }
        out := out + [ExitCoreType(idx, path, ty)];
      case Rec(group) =>
        out := before + [EnterRecGroup(group)];
        for i := 0 to |group.subs|
          invariant out == before + [EnterRecGroup(group)] + SubTypeEvents(idx, i)
        {
          out := out + [SubTypeEvent(idx, i)];
        }
        out := out + [ExitRecGroup];
    }
  }

  lemma NextInPlace(i: nat)
    ensures Upto(i + 1) == Upto(i) + [i] && Upto(i + 1)[..i] == Upto(i)
  {
  }

  method VisitCompType(ty: CompType, idx: nat, path: Path, before: seq<Event>) returns (out: seq<Event>)
    ensures out == before + CompTypeEvents(InPlace, ty, idx, path)
    decreases ty, 1
  {
    out := before + [EnterCompType(idx, path, ty)];
    ghost var inner := [];
    if ty.Body? {
      out := VisitDecls(ty.kind, ty.decls, path, out);
      inner := DeclsEvents(InPlace, ty.kind, ty.decls, Upto(|ty.decls|), path);
    } else {
      assert out + [] == out;
    }
    ThreeAppended(before, [EnterCompType(idx, path, ty)], inner, [ExitCompType(idx, path, ty)]);
    out := out + [ExitCompType(idx, path, ty)];
  }

  lemma ThreeAppended(before: seq<Event>, a: seq<Event>, b: seq<Event>, c: seq<Event>)
    ensures before + a + b + c == before + (a + b + c)
  {
  }

  method VisitDecls(kind: BodyKind, decls: seq<Decl>, path: Path, before: seq<Event>) returns (out: seq<Event>)
    ensures out == before + DeclsEvents(InPlace, kind, decls, Upto(|decls|), path)
    decreases decls, 0
  {
    out := before;
    assert before + [] == before;
    for i := 0 to |decls|
      invariant out == before + DeclsEvents(InPlace, kind, decls, Upto(i), path)
    {
      NextInPlace(i);
      ConcatAssoc(before, DeclsEvents(InPlace, kind, decls, Upto(i), path),
                  DeclEvents(InPlace, kind, decls[i], i, path));
      out := VisitDecl(kind, decls[i], i, path, out);
    }
  }

  method VisitDecl(kind: BodyKind, d: Decl, i: nat, path: Path, before: seq<Event>) returns (out: seq<Event>)
    ensures out == before + DeclEvents(InPlace, kind, d, i, path)
    decreases d, 0
  {
    out := before + [DeclEvent(kind, i, d)];
    match d {
      case TypeDecl(ty) =>
        ConcatAssoc(before, [DeclEvent(kind, i, d)], CompTypeEvents(InPlace, ty, i, path + [i]));
        out := VisitCompType(ty, i, path + [i], out);
      case CoreTypeDecl(core) =>
        ConcatAssoc(before, [DeclEvent(kind, i, d)], CoreTypeEvents(InPlace, core, i, path + [i]));
        out := VisitCoreType(core, i, path + [i], out);
      case _ =>
    }
  }

  // ------------------------------------------------------------------------------------
  // The topological walk
  // ------------------------------------------------------------------------------------

  /** Every reference of the body itself finds a declaration. */
  predicate RefsFound(spaces: seq<Space>, refs: seq<IndexedRef>) {
    forall r :: r in refs && r.depth == 0 ==> Found(spaces, r)
  }

  /** Only declarations that were not pulled ahead have their references looked up. */
  predicate Examined(targets: seq<seq<nat>>, i: nat)
    requires i < |targets|
  {
    i !in Topological.CollectBody(targets, i).seen
  }

  predicate BodyCollects(decls: seq<Decl>) {
    forall i :: 0 <= i < |decls| && Examined(DeclTargets(decls), i) ==>
      RefsFound(DeclSpaces(decls), DeclRefs(decls[i]))
  }

  predicate ModuleCollects(decls: seq<ModuleDecl>) {
    forall i :: 0 <= i < |decls| && Examined(ModuleDeclTargets(decls), i) ==>
      RefsFound(ModuleDeclSpaces(decls), ModuleDeclRefs(decls[i]))
  }

  /** The topological walk of this tree looks up no reference in vain. */
  predicate TypeCollects(ty: CompType)
    decreases ty, 1
  {
    ty.Body? ==> BodyCollects(ty.decls) && forall i :: 0 <= i < |ty.decls| ==> DeclCollects(ty.decls[i])
  }

  predicate DeclCollects(d: Decl)
    decreases d, 0
  {
    match d
    case TypeDecl(ty) => TypeCollects(ty)
    case CoreTypeDecl(core) => CoreCollects(core)
    case _ => true
  }

  predicate CoreCollects(core: CoreType) {
    core.ModuleType? ==> ModuleCollects(core.moduleDecls)
  }

  lemma TargetsSnoc(spaces: seq<Space>, refs: seq<IndexedRef>, k: nat)
    requires k < |refs|
    ensures Targets(spaces, refs[..k + 1])
         == Targets(spaces, refs[..k])
            + (if Found(spaces, refs[k]) then [Positions(spaces, refs[k].space)[refs[k].index]] else [])
  {
    assert refs[..k + 1][..k] == refs[..k];
  }

  lemma PullSnoc(ds: seq<nat>, d: nat, t: Topological.Topo)
    ensures Topological.PullAhead(ds + [d], t)
         == var mid := Topological.PullAhead(ds, t);
            if d in mid.seen then mid else Topological.Topo(mid.seen + {d}, mid.out + [d])
  {
    assert (ds + [d])[..|ds|] == ds;
  }

  /** The first `k` references have been looked up and what they name pulled ahead. */
  ghost predicate PulledSoFar(spaces: seq<Space>, refs: seq<IndexedRef>, k: nat, start: Topological.Topo,
                              now: Topological.Topo) {
    && k <= |refs| && RefsFound(spaces, refs[..k])
    && now == Topological.PullAhead(Targets(spaces, refs[..k]), start)
  }

  /** What is there after a reference to declaration `d` has been dealt with. */
  function Pull(t: Topological.Topo, d: nat): Topological.Topo {
    if d in t.seen then t else Topological.Topo(t.seen + {d}, t.out + [d])
  }

  lemma PullsFound(spaces: seq<Space>, refs: seq<IndexedRef>, k: nat, start: Topological.Topo, now: Topological.Topo,
                   d: nat)
    requires PulledSoFar(spaces, refs, k, start, now) && k < |refs|
    requires refs[k].depth == 0 && Found(spaces, refs[k]) && d == Positions(spaces, refs[k].space)[refs[k].index]
    ensures PulledSoFar(spaces, refs, k + 1, start, Pull(now, d))
  {
    var more, sofar := Targets(spaces, refs[..k + 1]), Targets(spaces, refs[..k]);
    TargetsSnoc(spaces, refs, k);
    assert more == sofar + [d];
    PullSnoc(sofar, d, start);
    FoundSnoc(spaces, refs, k);
  }

  lemma FoundSnoc(spaces: seq<Space>, refs: seq<IndexedRef>, k: nat)
    requires k < |refs| && RefsFound(spaces, refs[..k]) && (refs[k].depth == 0 ==> Found(spaces, refs[k]))
    ensures RefsFound(spaces, refs[..k + 1])
  {
    assert refs[..k + 1] == refs[..k] + [refs[k]];
  }

  lemma PullsNothing(spaces: seq<Space>, refs: seq<IndexedRef>, k: nat, start: Topological.Topo, now: Topological.Topo)
    requires PulledSoFar(spaces, refs, k, start, now) && k < |refs| && refs[k].depth != 0
    ensures PulledSoFar(spaces, refs, k + 1, start, now)
  {
    TargetsSnoc(spaces, refs, k);
    assert Targets(spaces, refs[..k]) + [] == Targets(spaces, refs[..k]);
    FoundSnoc(spaces, refs, k);
  }

  /** The declarations before `i` have been dealt with, nothing looked up in vain. */
  ghost predicate BodySoFar(spaces: seq<Space>, refs: seq<seq<IndexedRef>>, targets: seq<seq<nat>>, i: nat,
                            now: Topological.Topo) {
    && i <= |targets| == |refs| && now == Topological.CollectBody(targets, i)
    && forall j :: 0 <= j < i && Examined(targets, j) ==> RefsFound(spaces, refs[j])
  }

  ghost predicate DeclsSoFar(decls: seq<Decl>, i: nat, now: Topological.Topo) {
    BodySoFar(DeclSpaces(decls), AllDeclRefs(decls), DeclTargets(decls), i, now)
  }

  lemma BodySkips(spaces: seq<Space>, refs: seq<seq<IndexedRef>>, targets: seq<seq<nat>>, i: nat,
                  now: Topological.Topo)
    requires BodySoFar(spaces, refs, targets, i, now) && i < |targets| && i in now.seen
    ensures BodySoFar(spaces, refs, targets, i + 1, now)
  {
  }

  lemma BodyAdds(spaces: seq<Space>, refs: seq<seq<IndexedRef>>, targets: seq<seq<nat>>, i: nat,
                 now: Topological.Topo, after: Topological.Topo)
    requires BodySoFar(spaces, refs, targets, i, now) && i < |targets| && i !in now.seen
    requires RefsFound(spaces, refs[i])
    requires after == Topological.PullAhead(targets[i], Topological.Topo(now.seen + {i}, now.out))
    ensures BodySoFar(spaces, refs, targets, i + 1, Topological.Topo(after.seen, after.out + [i]))
  {
  }

  function AllDeclRefs(decls: seq<Decl>): (r: seq<seq<IndexedRef>>)
    ensures |r| == |decls|
  {
    Map(DeclRefs, decls)
  }

  function AllModuleDeclRefs(decls: seq<ModuleDecl>): (r: seq<seq<IndexedRef>>)
    ensures |r| == |decls|
  {
    Map(ModuleDeclRefs, decls)
  }

  /** The declarations emitted so far, and their events. */
  ghost predicate Collected(kind: BodyKind, decls: seq<Decl>, path: Path, before: seq<Event>, out: seq<Event>,
                            order: seq<nat>) {
    Topological.AllBelow(order, |decls|) && out == before + DeclsEvents(PulledAhead, kind, decls, order, path)
  }

  predicate EachCollects(decls: seq<Decl>) {
    forall i :: 0 <= i < |decls| ==> DeclCollects(decls[i])
  }

  /** Nothing was looked up in vain inside these declarations. */
  predicate AllCollect(decls: seq<Decl>, order: seq<nat>)
    requires Topological.AllBelow(order, |decls|)
  {
    forall k :: 0 <= k < |order| ==> DeclCollects(decls[order[k]])
  }

  /** Emits a declaration with what is nested in it; it fails where a lookup inside finds nothing. */
  method EmitDecl(kind: BodyKind, decls: seq<Decl>, i: nat, path: Path, sofar: seq<Event>, ghost before: seq<Event>,
                  ghost order: seq<nat>) returns (ok: bool, out: seq<Event>)
    requires i < |decls| && Collected(kind, decls, path, before, sofar, order)
    ensures ok <==> DeclCollects(decls[i])
    ensures ok ==> Collected(kind, decls, path, before, out, order + [i])
    decreases decls, 1, 0
  {
    ok, out := CollectDecl(kind, decls[i], i, path, sofar);
    if ok {
      assert (order + [i])[..|order|] == order;
      ConcatAssoc(before, DeclsEvents(PulledAhead, kind, decls, order, path),
                  DeclEvents(PulledAhead, kind, decls[i], i, path));
    }
  }

  method CollectDecl(kind: BodyKind, d: Decl, i: nat, path: Path, before: seq<Event>)
    returns (ok: bool, out: seq<Event>)
    ensures ok <==> DeclCollects(d)
    ensures ok ==> out == before + DeclEvents(PulledAhead, kind, d, i, path)
    decreases d, 0
  {
    ok, out := true, before + [DeclEvent(kind, i, d)];
    match d {
      case TypeDecl(ty) =>
        ConcatAssoc(before, [DeclEvent(kind, i, d)], CompTypeEvents(PulledAhead, ty, i, path + [i]));
        ok, out := CollectCompType(ty, i, path + [i], out);
      case CoreTypeDecl(core) =>
        ConcatAssoc(before, [DeclEvent(kind, i, d)], CoreTypeEvents(PulledAhead, core, i, path + [i]));
        ok, out := CollectCoreType(core, i, path + [i], out);
      case _ =>
    }
  }

  method CollectCompType(ty: CompType, idx: nat, path: Path, before: seq<Event>) returns (ok: bool, out: seq<Event>)
    ensures ok <==> TypeCollects(ty)
    ensures ok ==> out == before + CompTypeEvents(PulledAhead, ty, idx, path)
    decreases ty, 1
  {
    ok, out := true, before + [EnterCompType(idx, path, ty)];
    ghost var inner := [];
    if ty.Body? {
      ok, out := CollectDecls(ty.kind, ty.decls, path, out);
      if !ok { return; }
      inner := DeclsEvents(PulledAhead, ty.kind, ty.decls, BodyOrder(PulledAhead, ty.decls), path);
    } else {
      assert out + [] == out;
    }
    ThreeAppended(before, [EnterCompType(idx, path, ty)], inner, [ExitCompType(idx, path, ty)]);
    out := out + [ExitCompType(idx, path, ty)];
  }

  /** The loop over a body's declarations, each with its references pulled ahead. */
  method CollectDecls(kind: BodyKind, decls: seq<Decl>, path: Path, before: seq<Event>)
    returns (ok: bool, out: seq<Event>)
    ensures ok <==> BodyCollects(decls) && EachCollects(decls)
    ensures ok ==> out == before + DeclsEvents(PulledAhead, kind, decls, BodyOrder(PulledAhead, decls), path)
    decreases decls, 3, 1
  {
    ghost var order: seq<nat> := [];
    var seen: set<nat> := {};
    ok, out := true, before;
    assert before + [] == before;
    for i := 0 to |decls|
      invariant DeclsSoFar(decls, i, Topological.Topo(seen, order))
      invariant Collected(kind, decls, path, before, out, order) && AllCollect(decls, order)
    {
      ok, seen, out, order := CollectSubitem(kind, decls, i, path, seen, out, before, order);
      if !ok { return; }
    }
    assert order == BodyOrder(PulledAhead, decls);
    BodyOrderCovers(PulledAhead, decls);
    AllAreCollected(decls, order);
  }

  /** One declaration with its references pulled ahead, unless it was itself pulled ahead before. */
  method CollectSubitem(kind: BodyKind, decls: seq<Decl>, i: nat, path: Path, seenBefore: set<nat>, sofar: seq<Event>,
                        ghost before: seq<Event>, ghost orderBefore: seq<nat>)
    returns (ok: bool, seen: set<nat>, out: seq<Event>, ghost order: seq<nat>)
    requires i < |decls| && Collected(kind, decls, path, before, sofar, orderBefore) && AllCollect(decls, orderBefore)
    requires DeclsSoFar(decls, i, Topological.Topo(seenBefore, orderBefore))
    ensures ok ==> DeclsSoFar(decls, i + 1, Topological.Topo(seen, order))
    ensures ok ==> Collected(kind, decls, path, before, out, order) && AllCollect(decls, order)
    ensures !ok ==> !BodyCollects(decls) || !EachCollects(decls)
    decreases decls, 3, 0
  {
    ghost var spaces, refs, targets := DeclSpaces(decls), AllDeclRefs(decls), DeclTargets(decls);
    ghost var now := Topological.Topo(seenBefore, orderBefore);
    ok, seen, out, order := true, seenBefore, sofar, orderBefore;
    if i in seen {
      BodySkips(spaces, refs, targets, i, now);
      return;
    }
    assert Examined(targets, i);
    ok, seen, out, order := PullRefs(kind, decls, i, path, seen + {i}, out, before, order);
    if !ok { return; }
    BodyAdds(spaces, refs, targets, i, now, Topological.Topo(seen, order));
    ok, out := EmitDecl(kind, decls, i, path, out, before, order);
    if !ok { return; }
    order := order + [i];
  }

  lemma AllAreCollected(decls: seq<Decl>, order: seq<nat>)
    requires IsPermutation(order) && |order| == |decls| && AllCollect(decls, order)
    ensures EachCollects(decls)
  {
    forall i | 0 <= i < |decls| ensures DeclCollects(decls[i]) {
      PermutationCovers(order, i);
      var k :| 0 <= k < |order| && order[k] == i;
    }
  }

  /** What declaration `i` refers to is emitted ahead of it, but not what that refers to in turn. */
  method PullRefs(kind: BodyKind, decls: seq<Decl>, i: nat, path: Path, seenBefore: set<nat>, sofar: seq<Event>,
                  ghost before: seq<Event>, ghost orderBefore: seq<nat>)
    returns (ok: bool, seen: set<nat>, out: seq<Event>, ghost order: seq<nat>)
    requires i < |decls| && Collected(kind, decls, path, before, sofar, orderBefore)
    requires AllCollect(decls, orderBefore)
    ensures ok ==> RefsFound(DeclSpaces(decls), DeclRefs(decls[i]))
    ensures ok ==> Topological.Topo(seen, order)
                   == Topological.PullAhead(DeclTargets(decls)[i], Topological.Topo(seenBefore, orderBefore))
    ensures ok ==> Collected(kind, decls, path, before, out, order) && AllCollect(decls, order)
    ensures !ok ==> !RefsFound(DeclSpaces(decls), DeclRefs(decls[i]))
                    || !EachCollects(decls)
    decreases decls, 2, 0
  {
    var spaces, refs := DeclSpaces(decls), DeclRefs(decls[i]);
    ghost var start := Topological.Topo(seenBefore, orderBefore);
    ok, seen, out, order := true, seenBefore, sofar, orderBefore;
    for k := 0 to |refs|
      invariant PulledSoFar(spaces, refs, k, start, Topological.Topo(seen, order))
      invariant Collected(kind, decls, path, before, out, order) && AllCollect(decls, order)
    {
      var r := refs[k];
      if r.depth != 0 {
        PullsNothing(spaces, refs, k, start, Topological.Topo(seen, order));
      } else {
        if r.index >= |Positions(spaces, r.space)| {
          assert !Found(spaces, refs[k]);
          return false, seen, out, order;
        }
        PositionsHold(spaces, r.space);
        var d := Positions(spaces, r.space)[r.index];
        PullsFound(spaces, refs, k, start, Topological.Topo(seen, order), d);
        ok, seen, out, order := PullDecl(kind, decls, d, path, seen, out, before, order);
        if !ok { return; }
      }
    }
    assert refs[..|refs|] == refs;
  }

  /** Emits a declaration unless it was seen before. */
  method PullDecl(kind: BodyKind, decls: seq<Decl>, d: nat, path: Path, seenBefore: set<nat>, sofar: seq<Event>,
                  ghost before: seq<Event>, ghost orderBefore: seq<nat>)
    returns (ok: bool, seen: set<nat>, out: seq<Event>, ghost order: seq<nat>)
    requires d < |decls| && Collected(kind, decls, path, before, sofar, orderBefore) && AllCollect(decls, orderBefore)
    ensures !ok ==> !EachCollects(decls)
    ensures ok ==> Topological.Topo(seen, order) == Pull(Topological.Topo(seenBefore, orderBefore), d)
    ensures ok ==> Collected(kind, decls, path, before, out, order) && AllCollect(decls, order)
    decreases decls, 1, 1
  {
    ok, seen, out, order := true, seenBefore, sofar, orderBefore;
    if d !in seen {
      ok, out := EmitDecl(kind, decls, d, path, out, before, order);
      if !ok { return; }
      seen, order := seen + {d}, order + [d];
    }
  }

  method CollectCoreType(ty: CoreType, idx: nat, path: Path, before: seq<Event>) returns (ok: bool, out: seq<Event>)
    ensures ok <==> CoreCollects(ty)
    ensures ok ==> out == before + CoreTypeEvents(PulledAhead, ty, idx, path)
  {
    ok, out := true, before;
    match ty {
      case ModuleType(decls) =>
        out := out + [EnterCoreType(idx, path, ty)];
        ok, out := CollectModuleDecls(decls, out);
        if !ok { return; }
        ThreeAppended(before, [EnterCoreType(idx, path, ty)], ModuleDeclEvents(decls, ModuleOrder(PulledAhead, decls)),
                      [ExitCoreType(idx, path, ty)]);
        out := out + [ExitCoreType(idx, path, ty)];
      case Rec(_) => out := VisitCoreType(ty, idx, path, before);
    }
  }

  ghost predicate ModuleCollected(decls: seq<ModuleDecl>, before: seq<Event>, out: seq<Event>, order: seq<nat>) {
    Topological.AllBelow(order, |decls|) && out == before + ModuleDeclEvents(decls, order)
  }

  lemma OneMoreModuleDecl(decls: seq<ModuleDecl>, before: seq<Event>, out: seq<Event>, order: seq<nat>, i: nat)
    requires ModuleCollected(decls, before, out, order) && i < |decls|
    ensures ModuleCollected(decls, before, out + [ModuleDeclEvent(i, decls[i])], order + [i])
  {
    assert (order + [i])[..|order|] == order;
    ConcatAssoc(before, ModuleDeclEvents(decls, order), [ModuleDeclEvent(i, decls[i])]);
  }

  method CollectModuleDecls(decls: seq<ModuleDecl>, before: seq<Event>) returns (ok: bool, out: seq<Event>)
    ensures ok <==> ModuleCollects(decls)
    ensures ok ==> out == before + ModuleDeclEvents(decls, ModuleOrder(PulledAhead, decls))
  {
    ghost var order: seq<nat> := [];
    var seen: set<nat> := {};
    ok, out := true, before;
    assert before + [] == before;
    for i := 0 to |decls|
      invariant ModuleDeclsSoFar(decls, i, Topological.Topo(seen, order))
      invariant ModuleCollected(decls, before, out, order)
    {
      ok, seen, out, order := CollectModuleDecl(decls, i, seen, out, before, order);
      if !ok { return; }
    }
    assert order == ModuleOrder(PulledAhead, decls);
  }

  ghost predicate ModuleDeclsSoFar(decls: seq<ModuleDecl>, i: nat, now: Topological.Topo) {
    BodySoFar(ModuleDeclSpaces(decls), AllModuleDeclRefs(decls), ModuleDeclTargets(decls), i, now)
  }

  method CollectModuleDecl(decls: seq<ModuleDecl>, i: nat, seenBefore: set<nat>, sofar: seq<Event>,
                           ghost before: seq<Event>, ghost orderBefore: seq<nat>)
    returns (ok: bool, seen: set<nat>, out: seq<Event>, ghost order: seq<nat>)
    requires i < |decls| && ModuleCollected(decls, before, sofar, orderBefore)
    requires ModuleDeclsSoFar(decls, i, Topological.Topo(seenBefore, orderBefore))
    ensures ok ==> ModuleDeclsSoFar(decls, i + 1, Topological.Topo(seen, order))
    ensures ok ==> ModuleCollected(decls, before, out, order)
    ensures !ok ==> !ModuleCollects(decls)
  {
    ghost var spaces, refs := ModuleDeclSpaces(decls), AllModuleDeclRefs(decls);
    ghost var targets, now := ModuleDeclTargets(decls), Topological.Topo(seenBefore, orderBefore);
    ok, seen, out, order := true, seenBefore, sofar, orderBefore;
    if i in seen {
      BodySkips(spaces, refs, targets, i, now);
      return;
    }
    assert Examined(targets, i);
    ok, seen, out, order := PullModuleRefs(decls, i, seen + {i}, out, before, order);
    if !ok { return; }
    BodyAdds(spaces, refs, targets, i, now, Topological.Topo(seen, order));
    OneMoreModuleDecl(decls, before, out, order, i);
    out, order := out + [ModuleDeclEvent(i, decls[i])], order + [i];
  }

  method PullModuleRefs(decls: seq<ModuleDecl>, i: nat, seenBefore: set<nat>, sofar: seq<Event>,
                        ghost before: seq<Event>, ghost orderBefore: seq<nat>)
    returns (ok: bool, seen: set<nat>, out: seq<Event>, ghost order: seq<nat>)
    requires i < |decls| && ModuleCollected(decls, before, sofar, orderBefore)
    ensures ok <==> RefsFound(ModuleDeclSpaces(decls), ModuleDeclRefs(decls[i]))
    ensures ok ==> Topological.Topo(seen, order)
                   == Topological.PullAhead(ModuleDeclTargets(decls)[i], Topological.Topo(seenBefore, orderBefore))
    ensures ok ==> ModuleCollected(decls, before, out, order)
  {
    var spaces, refs := ModuleDeclSpaces(decls), ModuleDeclRefs(decls[i]);
    ghost var start := Topological.Topo(seenBefore, orderBefore);
    ok, seen, out, order := true, seenBefore, sofar, orderBefore;
    for k := 0 to |refs|
      invariant PulledSoFar(spaces, refs, k, start, Topological.Topo(seen, order))
      invariant ModuleCollected(decls, before, out, order)
    {
      var r := refs[k];
      if r.depth != 0 {
        PullsNothing(spaces, refs, k, start, Topological.Topo(seen, order));
      } else {
        if r.index >= |Positions(spaces, r.space)| {
          assert !Found(spaces, refs[k]);
          return false, seen, out, order;
        }
        PositionsHold(spaces, r.space);
        var d := Positions(spaces, r.space)[r.index];
        PullsFound(spaces, refs, k, start, Topological.Topo(seen, order), d);
        if d !in seen {
          OneMoreModuleDecl(decls, before, out, order, d);
          seen, out, order := seen + {d}, out + [ModuleDeclEvent(d, decls[d])], order + [d];
        }
      }
    }
    assert refs[..|refs|] == refs;
  }
}
