/** Scopes of nested type definitions: every body gets its own scope, registered under the
    node's identity, and every declaration an assumed id in the scope of its body. */
module Scopes {
  import opened Prelude
  import opened Spaces
  import opened IndexSpaces
  import opened TypeTrees

  type ScopeLogs = map<Space, seq<Slot>>

  /** The index store and the scope registry; an index space is given by its log. */
  datatype Table = Table(scopes: map<ScopeId, ScopeLogs>, next: nat, registry: map<Path, ScopeId>)

  function LogIn(logs: ScopeLogs, space: Space): seq<Slot> {
    if space in logs then logs[space] else []
  }

  function LogAt(t: Table, scope: ScopeId, space: Space): seq<Slot> {
    if scope in t.scopes then LogIn(t.scopes[scope], space) else []
  }

  function NewScope(t: Table, path: Path): Table {
    Table(t.scopes[t.next := map[]], t.next + 1, t.registry[path := t.next])
  }

  function Assign(t: Table, scope: ScopeId, space: Space, slot: Slot): Table
    requires scope in t.scopes
  {
    if space == NA then t
    else t.(scopes := t.scopes[scope := t.scopes[scope][space := LogIn(t.scopes[scope], space) + [slot]]])
  }

  // Populating a tree, as a function of the table

  function PopModuleDecls(t: Table, scope: ScopeId, decls: seq<ModuleDecl>): (r: Table)
    requires scope in t.scopes
    ensures scope in r.scopes
  {
    if decls == [] then t
    else
      var n := |decls| - 1;
      Assign(PopModuleDecls(t, scope, decls[..n]), scope, ModuleDeclSpace(decls[n]), Slot(Main, n))
  }

  function PopCoreType(t: Table, core: CoreType, path: Path): (r: Table)
    ensures t.scopes.Keys <= r.scopes.Keys
  {
    match core
    case Rec(_) => t
    case ModuleType(decls) =>
      PopModuleDeclsKeys(NewScope(t, path), t.next, decls);
      PopModuleDecls(NewScope(t, path), t.next, decls)
  }

  lemma {:induction false} PopModuleDeclsKeys(t: Table, scope: ScopeId, decls: seq<ModuleDecl>)
    requires scope in t.scopes
    ensures PopModuleDecls(t, scope, decls).scopes.Keys == t.scopes.Keys
  {
    if decls != [] { PopModuleDeclsKeys(t, scope, decls[..|decls| - 1]); }
  }

  function PopCompType(t: Table, ty: CompType, path: Path): (r: Table)
    ensures t.scopes.Keys <= r.scopes.Keys
    decreases ty, 1
  {
    match ty
    case Leaf(_) => t
    case Body(_, decls) => PopDecls(NewScope(t, path), t.next, decls, path)
  }

  function PopDecls(t: Table, scope: ScopeId, decls: seq<Decl>, path: Path): (r: Table)
    requires scope in t.scopes
    ensures t.scopes.Keys <= r.scopes.Keys
    decreases decls, 0
  {
    if decls == [] then t
    else
      var n := |decls| - 1;
      PopDecl(PopDecls(t, scope, decls[..n], path), scope, decls[n], n, path)
  }

  function PopDecl(t: Table, scope: ScopeId, d: Decl, i: nat, path: Path): (r: Table)
    requires scope in t.scopes
    ensures t.scopes.Keys <= r.scopes.Keys
    decreases d, 0
  {
    var numbered := Assign(t, scope, DeclSpace(d), Slot(Main, i));
    match d
    case TypeDecl(ty) => PopCompType(numbered, ty, path + [i])
    case CoreTypeDecl(core) => PopCoreType(numbered, core, path + [i])
    case _ => numbered
  }

  /** The shared store and registry, filled in place by the recursive walk. */
  class ScopeTables {
    var scopes: map<ScopeId, ScopeLogs>
    var nextId: nat
    var registry: map<Path, ScopeId>

    function Now(): Table
      reads this
    {
      Table(scopes, nextId, registry)
    }

    constructor ()
      ensures Now() == Table(map[], 0, map[])
    {
      scopes, nextId, registry := map[], 0, map[];
    }

    method OpenScope(path: Path) returns (id: ScopeId)
      modifies this
      ensures id == old(nextId) && Now() == NewScope(old(Now()), path)
    {
      id := nextId;
      nextId := nextId + 1;
      scopes := scopes[id := map[]];
      registry := registry[path := id];
    }

    method AssignAssumedId(scope: ScopeId, space: Space, slot: Slot)
      requires scope in scopes
      modifies this`scopes
      ensures Now() == Assign(old(Now()), scope, space, slot)
    {
      if space != NA {
        var logs := scopes[scope];
        scopes := scopes[scope := logs[space := LogIn(logs, space) + [slot]]];
      }
    }

    method PopulateCoreType(core: CoreType, path: Path)
      modifies this
      ensures Now() == PopCoreType(old(Now()), core, path)
    {
      match core {
        case Rec(_) =>
        case ModuleType(decls) =>
          var id := OpenScope(path);
          ghost var start := Now();
          for i := 0 to |decls|
            invariant id in scopes && id in start.scopes
            invariant Now() == PopModuleDecls(start, id, decls[..i])
          {
            assert decls[..i + 1][..i] == decls[..i];
            AssignAssumedId(id, ModuleDeclSpace(decls[i]), Slot(Main, i));
          }
          assert decls[..|decls|] == decls;
      }
    }

    method PopulateCompType(ty: CompType, path: Path)
      modifies this
      ensures Now() == PopCompType(old(Now()), ty, path)
      decreases ty, 1
    {
      match ty {
        case Leaf(_) =>
        case Body(_, decls) =>
          var id := OpenScope(path);
          PopulateDecls(id, decls, path);
      }
    }

    method PopulateDecls(scope: ScopeId, decls: seq<Decl>, path: Path)
      requires scope in scopes
      modifies this
      ensures Now() == PopDecls(old(Now()), scope, decls, path)
      decreases decls, 0
    {
      ghost var start := Now();
      for i := 0 to |decls|
        invariant scope in scopes && scope in start.scopes
        invariant Now() == PopDecls(start, scope, decls[..i], path)
      {
        assert decls[..i + 1][..i] == decls[..i];
        PopulateDecl(scope, decls[i], i, path);
      }
      assert decls[..|decls|] == decls;
    }

    method PopulateDecl(scope: ScopeId, d: Decl, i: nat, path: Path)
      requires scope in scopes
      modifies this
      ensures Now() == PopDecl(old(Now()), scope, d, i, path)
      ensures scope in scopes
      decreases d, 0
    {
      AssignAssumedId(scope, DeclSpace(d), Slot(Main, i));
      match d {
        case TypeDecl(ty) => PopulateCompType(ty, path + [i]);
        case CoreTypeDecl(core) => PopulateCoreType(core, path + [i]);
        case _ =>
      }
    }
  }

  // ------------------------------------------------------------------------------------
  // What a populated tree looks like
  // ------------------------------------------------------------------------------------

  /** How many nodes of a tree open a scope. */
  function CoreScopes(core: CoreType): nat {
    if core.ModuleType? then 1 else 0
  }

  function ScopeCount(ty: CompType): nat
    decreases ty, 1
  {
    match ty
    case Leaf(_) => 0
    case Body(_, decls) => 1 + ScopesIn(decls)
  }

  function ScopesIn(decls: seq<Decl>): nat
    decreases decls, 0
  {
    if decls == [] then 0 else ScopesIn(decls[..|decls| - 1]) + DeclScopes(decls[|decls| - 1])
  }

  function DeclScopes(d: Decl): nat
    decreases d, 0
  {
    match d
    case TypeDecl(ty) => ScopeCount(ty)
    case CoreTypeDecl(core) => CoreScopes(core)
    case _ => 0
  }

  /** The declarations of one space, by position: the id of a declaration is the number of
      earlier declarations of the same body in the same space. */
  function DeclLog(decls: seq<Decl>, space: Space): seq<Slot> {
    if decls == [] then []
    else
      var n := |decls| - 1;
      DeclLog(decls[..n], space) + (if DeclSpace(decls[n]) == space then [Slot(Main, n)] else [])
  }

  function ModuleLog(decls: seq<ModuleDecl>, space: Space): seq<Slot> {
    if decls == [] then []
    else
      var n := |decls| - 1;
      ModuleLog(decls[..n], space) + (if ModuleDeclSpace(decls[n]) == space then [Slot(Main, n)] else [])
  }

  /** The node at `path` owns scope `id`. */
  predicate Owns(t: Table, path: Path, id: ScopeId) {
    path in t.registry && t.registry[path] == id && id in t.scopes
  }

  ghost predicate CoreLaid(t: Table, core: CoreType, path: Path, base: nat) {
    match core
    case Rec(_) => path !in t.registry
    case ModuleType(decls) => Owns(t, path, base) && forall space :: LogAt(t, base, space) == ModuleLog(decls, space)
  }

  /** The scopes of a tree are numbered in preorder from `base`, each with the log of its own
      declarations; nodes without a body own none. */
  ghost predicate Laid(t: Table, ty: CompType, path: Path, base: nat)
    decreases ty, 1
  {
    match ty
    case Leaf(_) => path !in t.registry
    case Body(_, decls) =>
      && Owns(t, path, base)
      && (forall space :: LogAt(t, base, space) == DeclLog(decls, space))
      && LaidDecls(t, decls, path, base + 1)
  }

  ghost predicate LaidDecls(t: Table, decls: seq<Decl>, path: Path, base: nat)
    decreases decls, 0
  {
    decls != [] ==>
      var n := |decls| - 1;
      && LaidDecls(t, decls[..n], path, base)
      && LaidDecl(t, decls[n], path + [n], base + ScopesIn(decls[..n]))
  }

  ghost predicate LaidDecl(t: Table, d: Decl, path: Path, base: nat)
    decreases d, 0
  {
    match d
    case TypeDecl(ty) => Laid(t, ty, path, base)
    case CoreTypeDecl(core) => CoreLaid(t, core, path, base)
    case _ => true
  }

  /** `p` is the node at `path` or one of its descendants. */
  predicate Below(path: Path, p: Path) {
    path <= p
  }

  /** Nothing is registered at or below this node. */
  ghost predicate Fresh(t: Table, path: Path) {
    forall p :: Below(path, p) ==> p !in t.registry
  }

  predicate Bounded(t: Table) {
    forall id :: id in t.scopes ==> id < t.next
  }

  /** `u` extends `t` at and below `path` only, and leaves earlier scopes other than `except`
      alone. */
  ghost predicate Extends(t: Table, u: Table, path: Path, except: set<ScopeId>) {
    && (forall p :: !Below(path, p) ==> (p in u.registry <==> p in t.registry))
    && (forall p :: !Below(path, p) && p in t.registry ==> u.registry[p] == t.registry[p])
    && (forall id :: id < t.next && id !in except ==> (id in u.scopes <==> id in t.scopes))
    && (forall id :: id in t.scopes && id < t.next && id !in except ==> u.scopes[id] == t.scopes[id])
  }

  /** The tables agree on everything a laid-out tree mentions. */
  ghost predicate SameBelow(t: Table, u: Table, path: Path, lo: nat, hi: nat) {
    && (forall p :: Below(path, p) ==> (p in t.registry <==> p in u.registry))
    && (forall p :: Below(path, p) && p in t.registry ==> t.registry[p] == u.registry[p])
    && (forall id :: lo <= id < hi ==> (id in t.scopes <==> id in u.scopes))
    && (forall id :: lo <= id < hi && id in t.scopes ==> t.scopes[id] == u.scopes[id])
  }

  lemma {:induction false} LaidFrame(t: Table, u: Table, ty: CompType, path: Path, base: nat)
    requires Laid(t, ty, path, base) && SameBelow(t, u, path, base, base + ScopeCount(ty))
    ensures Laid(u, ty, path, base)
    decreases ty, 1
  {
    match ty {
      case Leaf(_) =>
      case Body(_, decls) =>
        assert forall space :: LogAt(u, base, space) == LogAt(t, base, space);
        LaidDeclsFrame(t, u, decls, path, base + 1);
    }
  }

  lemma {:induction false} LaidDeclsFrame(t: Table, u: Table, decls: seq<Decl>, path: Path, base: nat)
    requires LaidDecls(t, decls, path, base) && SameBelow(t, u, path, base, base + ScopesIn(decls))
    ensures LaidDecls(u, decls, path, base)
    decreases decls, 0
  {
    if decls != [] {
      var n := |decls| - 1;
      LaidDeclsFrame(t, u, decls[..n], path, base);
      assert forall p :: Below(path + [n], p) ==> Below(path, p);
      LaidDeclFrame(t, u, decls[n], path + [n], base + ScopesIn(decls[..n]));
    }
  }

  lemma {:induction false} LaidDeclFrame(t: Table, u: Table, d: Decl, path: Path, base: nat)
    requires LaidDecl(t, d, path, base) && SameBelow(t, u, path, base, base + DeclScopes(d))
    ensures LaidDecl(u, d, path, base)
    decreases d, 0
  {
    match d {
      case TypeDecl(ty) => LaidFrame(t, u, ty, path, base);
      case CoreTypeDecl(core) =>
        if core.ModuleType? { assert forall space :: LogAt(u, base, space) == LogAt(t, base, space); }
      case _ =>
    }
  }

  // ------------------------------------------------------------------------------------
  // Populating lays a tree out
  // ------------------------------------------------------------------------------------

  /** A subtree laid out earlier is not disturbed by filling in a sibling. */
  lemma SiblingUntouched(t: Table, u: Table, path: Path, i: nat, j: nat, scope: ScopeId, lo: nat, hi: nat)
    requires Extends(t, u, path + [j], {scope}) && i != j
    requires scope < lo && hi <= t.next
    ensures SameBelow(t, u, path + [i], lo, hi)
  {
    forall p | Below(path + [i], p) ensures !Below(path + [j], p) {
      assert p[|path|] == i;
    }
  }

  lemma {:induction false} ModuleDeclsLaid(t: Table, scope: ScopeId, decls: seq<ModuleDecl>)
    requires scope in t.scopes && t.scopes[scope] == map[]
    ensures var u := PopModuleDecls(t, scope, decls);
            && u.next == t.next && u.registry == t.registry
            && (forall id :: id != scope ==> (id in u.scopes <==> id in t.scopes))
            && (forall id :: id != scope && id in t.scopes ==> u.scopes[id] == t.scopes[id])
            && (forall space :: LogAt(u, scope, space) == ModuleLog(decls, space))
  {
    if decls != [] { ModuleDeclsLaid(t, scope, decls[..|decls| - 1]); }
  }

  lemma CoreTypeLaid(t: Table, core: CoreType, path: Path)
    requires Fresh(t, path) && Bounded(t)
    ensures var u := PopCoreType(t, core, path);
            && u.next == t.next + CoreScopes(core) && Bounded(u)
            && CoreLaid(u, core, path, t.next) && Extends(t, u, path, {})
            && (forall p :: Below(path, p) && p in u.registry ==> p == path)
  {
    assert Below(path, path);
    match core {
      case Rec(_) =>
      case ModuleType(decls) => ModuleDeclsLaid(NewScope(t, path), t.next, decls);
    }
  }

  lemma NewScopeFresh(t: Table, path: Path)
    requires Fresh(t, path)
    ensures FreshFrom(NewScope(t, path), path, 0)
  {
    forall i: nat ensures Fresh(NewScope(t, path), path + [i]) {
      assert forall p :: Below(path + [i], p) ==> Below(path, p) && p != path;
    }
  }

  /** Populating a fresh tree gives its bodies the next scope ids in preorder, each its own log,
      and changes nothing outside the tree. */
  lemma {:induction false} CompTypeLaid(t: Table, ty: CompType, path: Path)
    requires Fresh(t, path) && Bounded(t)
    ensures var u := PopCompType(t, ty, path);
            && u.next == t.next + ScopeCount(ty) && Bounded(u)
            && Laid(u, ty, path, t.next) && Extends(t, u, path, {})
    decreases ty, 1
  {
    assert Below(path, path);
    match ty {
      case Leaf(_) =>
      case Body(_, decls) =>
        var ready := NewScope(t, path);
        NewScopeFresh(t, path);
        DeclsLaid(ready, t.next, decls, path);
        var u := PopDecls(ready, t.next, decls, path);
        assert !ProperlyBelow(path, path);
        forall p | !Below(path, p) ensures !ProperlyBelow(path, p) {}
    }
  }

  predicate ProperlyBelow(path: Path, p: Path) {
    path < p
  }

  ghost predicate FreshFrom(t: Table, path: Path, n: nat) {
    forall i: nat {:trigger Fresh(t, path + [i])} :: i >= n ==> Fresh(t, path + [i])
  }

  /** `u` is `t` with these declarations filled in. */
  ghost predicate Filled(t: Table, u: Table, scope: ScopeId, decls: seq<Decl>, path: Path) {
    && u.next == t.next + ScopesIn(decls) && Bounded(u)
    && LaidDecls(u, decls, path, t.next)
    && (forall space :: LogAt(u, scope, space) == DeclLog(decls, space))
    && ExtendsInside(t, u, path, scope)
    && FreshFrom(u, path, |decls|)
  }

  lemma {:induction false} DeclsLaid(t: Table, scope: ScopeId, decls: seq<Decl>, path: Path)
    requires scope in t.scopes && t.scopes[scope] == map[] && Bounded(t) && FreshFrom(t, path, 0)
    ensures Filled(t, PopDecls(t, scope, decls, path), scope, decls, path)
    decreases decls, 0
  {
    if decls != [] {
      var n := |decls| - 1;
      DeclsLaid(t, scope, decls[..n], path);
      var mid := PopDecls(t, scope, decls[..n], path);
      assert Fresh(mid, path + [n]);
      DeclLaid(mid, scope, decls[n], n, path);
      OneMoreFilled(t, mid, PopDecl(mid, scope, decls[n], n, path), scope, decls, path);
    }
  }

  lemma OneMoreFilled(t: Table, mid: Table, u: Table, scope: ScopeId, decls: seq<Decl>, path: Path)
    requires decls != [] && scope < t.next && Filled(t, mid, scope, decls[..|decls| - 1], path)
    requires DeclFilled(mid, u, scope, decls[|decls| - 1], |decls| - 1, path)
    ensures Filled(t, u, scope, decls, path)
  {
    var n := |decls| - 1;
    EarlierDeclsStay(mid, u, scope, decls[..n], path, n, t.next);
    InsideGrows(t, mid, u, path, n, scope);
    LaterSiblingsStayFresh(mid, u, path, n, scope);
  }

  lemma InsideGrows(t: Table, mid: Table, u: Table, path: Path, n: nat, scope: ScopeId)
    requires ExtendsInside(t, mid, path, scope) && Extends(mid, u, path + [n], {scope}) && t.next <= mid.next
    ensures ExtendsInside(t, u, path, scope)
  {
    forall p | !ProperlyBelow(path, p) ensures !Below(path + [n], p) {}
  }

  lemma LaterSiblingsStayFresh(mid: Table, u: Table, path: Path, n: nat, scope: ScopeId)
    requires Extends(mid, u, path + [n], {scope}) && FreshFrom(mid, path, n)
    ensures FreshFrom(u, path, n + 1)
  {
    forall i: nat | i >= n + 1 ensures Fresh(u, path + [i]) {
      assert Fresh(mid, path + [i]);
      forall p | Below(path + [i], p) ensures !Below(path + [n], p) { assert p[|path|] == i; }
    }
  }

  /** Like `Extends`, for the inside of one body: only proper descendants are registered, and of
      the earlier scopes only the body's own changes. */
  ghost predicate ExtendsInside(t: Table, u: Table, path: Path, scope: ScopeId) {
    && (forall p :: !ProperlyBelow(path, p) ==> (p in u.registry <==> p in t.registry))
    && (forall p :: !ProperlyBelow(path, p) && p in t.registry ==> u.registry[p] == t.registry[p])
    && (forall id :: id < t.next && id != scope ==> (id in u.scopes <==> id in t.scopes))
    && (forall id :: id in t.scopes && id < t.next && id != scope ==> u.scopes[id] == t.scopes[id])
  }

  lemma {:induction false} EarlierDeclsStay(t: Table, u: Table, scope: ScopeId, decls: seq<Decl>, path: Path, j: nat,
                                            base: nat)
    requires LaidDecls(t, decls, path, base) && |decls| <= j
    requires Extends(t, u, path + [j], {scope}) && scope < base && base + ScopesIn(decls) <= t.next
    ensures LaidDecls(u, decls, path, base)
  {
    if decls != [] {
      var n := |decls| - 1;
      EarlierDeclsStay(t, u, scope, decls[..n], path, j, base);
      var lo := base + ScopesIn(decls[..n]);
      SiblingUntouched(t, u, path, n, j, scope, lo, lo + DeclScopes(decls[n]));
      LaidDeclFrame(t, u, decls[n], path + [n], lo);
    }
  }

  /** `u` is `t` with this one declaration filled in. */
  ghost predicate DeclFilled(t: Table, u: Table, scope: ScopeId, d: Decl, i: nat, path: Path) {
    && u.next == t.next + DeclScopes(d) && Bounded(u)
    && LaidDecl(u, d, path + [i], t.next)
    && (forall space :: LogAt(u, scope, space)
          == LogAt(t, scope, space) + (if space == DeclSpace(d) then [Slot(Main, i)] else []))
    && Extends(t, u, path + [i], {scope})
  }

  lemma {:induction false} DeclLaid(t: Table, scope: ScopeId, d: Decl, i: nat, path: Path)
    requires scope in t.scopes && Bounded(t) && Fresh(t, path + [i])
    ensures DeclFilled(t, PopDecl(t, scope, d, i, path), scope, d, i, path)
    decreases d, 0
  {
    var numbered := Assign(t, scope, DeclSpace(d), Slot(Main, i));
    DeclNumbered(t, scope, d, i, path);
    match d {
      case TypeDecl(ty) => CompTypeLaid(numbered, ty, path + [i]);
      case CoreTypeDecl(core) => CoreTypeLaid(numbered, core, path + [i]);
      case _ =>
    }
  }

  lemma DeclNumbered(t: Table, scope: ScopeId, d: Decl, i: nat, path: Path)
    requires scope in t.scopes && Bounded(t) && Fresh(t, path + [i])
    ensures var u := Assign(t, scope, DeclSpace(d), Slot(Main, i));
            && Fresh(u, path + [i]) && Bounded(u) && u.next == t.next && u.registry == t.registry
            && u.scopes.Keys == t.scopes.Keys
            && (forall id :: id in t.scopes && id != scope ==> u.scopes[id] == t.scopes[id])
            && (forall space :: LogAt(u, scope, space)
                  == LogAt(t, scope, space) + (if space == DeclSpace(d) then [Slot(Main, i)] else []))
  {
    forall space ensures LogAt(t, scope, space) + [] == LogAt(t, scope, space) {}
  }

  // ------------------------------------------------------------------------------------
  // Main results
  // ------------------------------------------------------------------------------------

  /** The id of a declaration is the number of earlier declarations in its space, and it is
      the only id its slot has. */
  lemma {:induction false} DeclIds(decls: seq<Decl>, i: nat)
    requires i < |decls|
    ensures Positions(DeclLog(decls, DeclSpace(decls[i])), Slot(Main, i))
         == [|DeclLog(decls[..i], DeclSpace(decls[i]))|]
  {
    var n := |decls| - 1;
    var space := DeclSpace(decls[i]);
    var init := DeclLog(decls[..n], space);
    DeclLogBelow(decls[..n], space);
    if i == n {
      SlotSeen(init, Slot(Main, n));
      PositionsSnoc(init, Slot(Main, n), Slot(Main, n));
    } else {
      assert decls[..n][..i] == decls[..i];
      DeclIds(decls[..n], i);
      PositionsSnoc(init, Slot(Main, n), Slot(Main, i));
      assert init + [] == init;
    }
  }

  lemma {:induction false} DeclLogBelow(decls: seq<Decl>, space: Space)
    ensures forall s :: s in DeclLog(decls, space) ==> s.vec < |decls|
  {
    if decls != [] { DeclLogBelow(decls[..|decls| - 1], space); }
  }

  /** Different bodies of one tree own different scopes. */
  lemma ScopesAreDistinct(t: Table, u: Table, ty: CompType, path: Path, p: Path, q: Path)
    requires Fresh(t, path) && Bounded(t) && u == PopCompType(t, ty, path)
    requires Below(path, p) && Below(path, q) && p in u.registry && q in u.registry && p != q
    ensures u.registry[p] != u.registry[q]
    ensures t.next <= u.registry[p] < u.next
  {
    RegisteredInOrder(t, ty, path);
  }

  /** The registry stays injective, and what a subtree registers lies in its own id range. */
  ghost predicate OneToOne(t: Table, path: Path, lo: nat, hi: nat) {
    && (forall p :: Below(path, p) && p in t.registry ==> lo <= t.registry[p] < hi)
    && (forall p, q :: Below(path, p) && Below(path, q) && p in t.registry && q in t.registry && p != q
          ==> t.registry[p] != t.registry[q])
  }

  lemma {:induction false} RegisteredInOrder(t: Table, ty: CompType, path: Path)
    requires Fresh(t, path) && Bounded(t)
    ensures OneToOne(PopCompType(t, ty, path), path, t.next, PopCompType(t, ty, path).next)
    decreases ty, 1
  {
    match ty {
      case Leaf(_) =>
      case Body(_, decls) =>
        var ready := NewScope(t, path);
        NewScopeFresh(t, path);
        DeclsLaid(ready, t.next, decls, path);
        DeclsRegisteredInOrder(ready, t.next, decls, path);
        var u := PopDecls(ready, t.next, decls, path);
        forall p | Below(path, p) && p in u.registry && p != path
          ensures ProperlyBelow(path, p) && t.next < u.registry[p] < u.next
        {
        }
    }
  }

  ghost predicate OneToOneInside(t: Table, path: Path, lo: nat, hi: nat) {
    && (forall p :: ProperlyBelow(path, p) && p in t.registry ==> lo <= t.registry[p] < hi)
    && (forall p, q :: ProperlyBelow(path, p) && ProperlyBelow(path, q) && p in t.registry && q in t.registry && p != q
          ==> t.registry[p] != t.registry[q])
  }

  lemma {:induction false} DeclsRegisteredInOrder(t: Table, scope: ScopeId, decls: seq<Decl>, path: Path)
    requires scope in t.scopes && t.scopes[scope] == map[] && Bounded(t)
    requires FreshFrom(t, path, 0)
    ensures OneToOneInside(PopDecls(t, scope, decls, path), path, t.next, PopDecls(t, scope, decls, path).next)
    decreases decls, 0
  {
    if decls == [] {
      forall p | ProperlyBelow(path, p) ensures p !in t.registry {
        assert Fresh(t, path + [p[|path|]]) && Below(path + [p[|path|]], p);
      }
    } else {
      var n := |decls| - 1;
      DeclsLaid(t, scope, decls[..n], path);
      DeclsRegisteredInOrder(t, scope, decls[..n], path);
      var mid := PopDecls(t, scope, decls[..n], path);
      assert Fresh(mid, path + [n]);
      DeclLaid(mid, scope, decls[n], n, path);
      DeclRegistered(mid, scope, decls[n], n, path);
      OneMoreRegistered(mid, PopDecl(mid, scope, decls[n], n, path), path, n, scope, t.next);
    }
  }

  lemma OneMoreRegistered(mid: Table, u: Table, path: Path, n: nat, scope: ScopeId, lo: nat)
    requires lo <= mid.next <= u.next && OneToOneInside(mid, path, lo, mid.next)
    requires Extends(mid, u, path + [n], {scope}) && OneToOne(u, path + [n], mid.next, u.next)
    ensures OneToOneInside(u, path, lo, u.next)
  {
  }

  lemma {:induction false} DeclRegistered(t: Table, scope: ScopeId, d: Decl, i: nat, path: Path)
    requires scope in t.scopes && Bounded(t) && Fresh(t, path + [i])
    ensures OneToOne(PopDecl(t, scope, d, i, path), path + [i], t.next, PopDecl(t, scope, d, i, path).next)
    decreases d, 0
  {
    var numbered := Assign(t, scope, DeclSpace(d), Slot(Main, i));
    assert Fresh(numbered, path + [i]);
    match d {
      case TypeDecl(ty) => RegisteredInOrder(numbered, ty, path + [i]);
      case CoreTypeDecl(core) => CoreTypeLaid(numbered, core, path + [i]);
      case _ =>
    }
  }
}
