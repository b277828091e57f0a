/** Resource names: following alias chains to a resource, and the name maps built from the
    exports of a component and from the declarations of an instance type. */
module Resources {
  import opened Prelude
  import opened Spaces
  import opened Types
  import opened FixIndices
  import opened Concretize
  import opened TypeTrees

  // ------------------------------------------------------------------------------------
  // Chains of aliases and equal types
  // ------------------------------------------------------------------------------------

  /** What a reference resolves to, as far as resources are concerned. */
  datatype Node =
    | ResourceNode          // a resource type, or an import bounded by `sub resource`
    | Next(ref: IndexedRef) // an alias, or an import equal to another type
    | OtherNode

  type Graph = map<IndexedRef, Node>

  /** Every reference resolves. */
  predicate Closed(g: Graph) {
    forall r {:trigger g[r]} :: r in g && g[r].Next? ==> g[r].ref in g
  }

  predicate Resolves(g: Graph, x: Node) {
    x.Next? ==> x.ref in g
  }

  /** Where the chain from `x` is after `n` references, as long as they resolve. */
  function Steps(g: Graph, x: Node, n: nat): Node
    decreases n
  {
    if n == 0 || !x.Next? || x.ref !in g then x else Steps(g, g[x.ref], n - 1)
  }

  /** No reference on the chain from `x` is missing: following it does not abort. */
  ghost predicate ChainResolves(g: Graph, x: Node) {
    forall n: nat :: Resolves(g, Steps(g, x, n))
  }

  lemma {:induction false} ClosedResolves(g: Graph, x: Node, n: nat)
    requires Closed(g) && Resolves(g, x)
    ensures Resolves(g, Steps(g, x, n))
    decreases n
  {
    if n > 0 && x.Next? { ClosedResolves(g, g[x.ref], n - 1); }
  }

  /** The unbounded chain from `x` ends at a resource. */
  ghost predicate Reaches(g: Graph, x: Node) {
    exists n: nat :: Steps(g, x, n) == ResourceNode
  }

  /** The chain from `from` passes through `to`. */
  ghost predicate LeadsTo(g: Graph, from: Node, to: Node) {
    exists n: nat :: Steps(g, from, n) == to
  }

  lemma {:induction false} StepsAdd(g: Graph, x: Node, a: nat, b: nat)
    ensures Steps(g, x, a + b) == Steps(g, Steps(g, x, a), b)
    decreases a
  {
    if a != 0 && x.Next? && x.ref in g { StepsAdd(g, g[x.ref], a - 1, b); }
  }

  /** A chain that comes back to a node it has left never reaches a resource. */
  lemma {:induction false} CyclesReachNothing(g: Graph, x: Node, m: nat, n: nat)
    requires x.Next? && m > 0 && Steps(g, x, m) == x
    ensures Steps(g, x, n) != ResourceNode
  {
    if n < m {
      StepsAdd(g, x, n, m - n);
    } else {
      StepsAdd(g, x, m, n - m);
      CyclesReachNothing(g, x, m, n - m);
    }
  }

  /** Follows the chain from `x`, remembering the references already walked. It terminates on
      every finite graph, cyclic ones included, and decides exactly whether the chain ends at
      a resource. */
  method ResolvedIsResource(g: Graph, x: Node, visited: set<IndexedRef>)
    returns (isResource: bool, after: set<IndexedRef>)
    requires ChainResolves(g, x) && visited <= g.Keys
    requires forall v :: v in visited ==> LeadsTo(g, g[v], x)
    ensures isResource <==> Reaches(g, x)
    ensures visited <= after <= g.Keys
    decreases g.Keys - visited
  {
    assert Resolves(g, Steps(g, x, 0));
    match x {
      case ResourceNode =>
        assert Steps(g, x, 0) == ResourceNode;
        return true, visited;
      case OtherNode =>
        return false, visited;
      case Next(next) =>
        if next in visited {
          var n: nat :| Steps(g, g[next], n) == x;
          assert Steps(g, x, n + 1) == x;
          forall k: nat ensures Steps(g, x, k) != ResourceNode { CyclesReachNothing(g, x, n + 1, k); }
          return false, visited;
        }
        forall v | v in visited + {next} ensures LeadsTo(g, g[v], g[next]) {
          if v in visited {
            var n: nat :| Steps(g, g[v], n) == x;
            StepsAdd(g, g[v], n, 1);
            assert Steps(g, x, 1) == Steps(g, g[next], 0);
            assert Steps(g, g[v], n + 1) == g[next];
          } else {
            assert Steps(g, g[next], 0) == g[next];
          }
        }
        ReachesThrough(g, x);
        assert ChainResolves(g, g[next]) by { ChainTail(g, x); }
        isResource, after := ResolvedIsResource(g, g[next], visited + {next});
    }
  }

  lemma ChainTail(g: Graph, x: Node)
    requires ChainResolves(g, x) && x.Next? && x.ref in g
    ensures ChainResolves(g, g[x.ref])
  {
    forall n: nat ensures Resolves(g, Steps(g, g[x.ref], n)) {
      assert Resolves(g, Steps(g, x, n + 1));
    }
  }

  lemma ReachesThrough(g: Graph, x: Node)
    requires x.Next? && x.ref in g
    ensures Reaches(g, x) <==> Reaches(g, g[x.ref])
  {
    if Reaches(g, x) {
      var n: nat :| Steps(g, x, n) == ResourceNode;
      assert Steps(g, g[x.ref], n - 1) == ResourceNode;
    }
    if Reaches(g, g[x.ref]) {
      var n: nat :| Steps(g, g[x.ref], n) == ResourceNode;
      assert Steps(g, x, n + 1) == ResourceNode;
    }
  }

  // ------------------------------------------------------------------------------------
  // The names a component gives to resources by exporting them
  // ------------------------------------------------------------------------------------

  /** Exports of resource types, in order; a later export of the same type wins. */
  ghost function ComponentNames(g: Graph, exports: seq<ExportItem>): NameMap {
    if exports == [] then map[]
    else
      var e := exports[|exports| - 1];
      var names := ComponentNames(g, exports[..|exports| - 1]);
      if NamesResource(g, e) then names[e.index := e.name] else names
  }

  ghost predicate NamesResource(g: Graph, e: ExportItem) {
    e.kind == TypeKind && Here(Space.CompType, e.index) in g && Reaches(g, g[Here(Space.CompType, e.index)])
  }

  /** Every exported type exists, and following it does not abort. */
  ghost predicate ExportsResolve(g: Graph, exports: seq<ExportItem>) {
    forall e :: e in exports ==> ExportResolves(g, e)
  }

  ghost predicate ExportResolves(g: Graph, e: ExportItem) {
    e.kind == TypeKind ==> Here(Space.CompType, e.index) in g && ChainResolves(g, g[Here(Space.CompType, e.index)])
  }

  method BuildComponentResourceMap(g: Graph, exports: seq<ExportItem>) returns (names: NameMap)
    requires ExportsResolve(g, exports)
    ensures names == ComponentNames(g, exports)
  {
    names := map[];
    for i := 0 to |exports|
      invariant names == ComponentNames(g, exports[..i])
    {
      assert exports[..i + 1][..i] == exports[..i];
      var e := exports[i];
      if e.kind == TypeKind {
        assert e in exports && ExportResolves(g, e);
        var isResource, _ := ResolvedIsResource(g, g[Here(Space.CompType, e.index)], {});
        if isResource { names := names[e.index := e.name]; }
      }
    }
    assert exports[..|exports|] == exports;
  }

  function RenameNode(rho: Renaming, x: Node): Node {
    match x
    case Next(r) => Next(Renamed(rho)(r))
    case _ => x
  }

  /** A component's own graph after encoding: the same nodes under renamed references, none of
      which leaves the component. */
  ghost predicate GraphRenamed(g: Graph, h: Graph, rho: Renaming) {
    && Closed(g) && Closed(h)
    && (forall r :: r in g ==> r.depth == 0)
    && forall r {:trigger g[r]} :: r in g ==> Renamed(rho)(r) in h && h[Renamed(rho)(r)] == RenameNode(rho, g[r])
  }

  lemma NextRenamed(g: Graph, h: Graph, rho: Renaming, x: Node)
    requires GraphRenamed(g, h, rho) && Resolves(g, x)
    ensures Resolves(h, RenameNode(rho, x))
    ensures x.Next? ==> h[Renamed(rho)(x.ref)] == RenameNode(rho, g[x.ref])
  {
    if x.Next? { assert h[Renamed(rho)(x.ref)] == RenameNode(rho, g[x.ref]); }
  }

  lemma {:induction false} ChainsRenamed(g: Graph, h: Graph, rho: Renaming, x: Node, n: nat)
    requires GraphRenamed(g, h, rho) && Resolves(g, x)
    ensures Resolves(h, RenameNode(rho, x))
    ensures Steps(h, RenameNode(rho, x), n) == RenameNode(rho, Steps(g, x, n))
    decreases n
  {
    NextRenamed(g, h, rho, x);
    if n > 0 && x.Next? {
      ChainsRenamed(g, h, rho, g[x.ref], n - 1);
      assert Steps(h, RenameNode(rho, x), n) == Steps(h, RenameNode(rho, g[x.ref]), n - 1);
    }
  }

  /** Renaming the graph renames the map: each type keeps the name its exports gave it. */
  lemma {:induction false} ComponentNamesRenamed(g: Graph, h: Graph, rho: Renaming, exports: seq<ExportItem>, i: nat)
    requires GraphRenamed(g, h, rho)
    requires forall e :: e in exports && e.kind == TypeKind ==> Here(Space.CompType, e.index) in g
    requires forall e :: e in exports && e.kind == TypeKind ==>
               rho(Here(Space.CompType, e.index)) == rho(Here(Space.CompType, i)) ==> e.index == i
    ensures GetName(ComponentNames(g, exports), i)
         == GetName(ComponentNames(h, Map(FixExport(rho), exports)), rho(Here(Space.CompType, i)))
  {
    if exports != [] {
      var n := |exports| - 1;
      var e := exports[n];
      assert e in exports;
      assert Map(FixExport(rho), exports)[..n] == Map(FixExport(rho), exports[..n]);
      ComponentNamesRenamed(g, h, rho, exports[..n], i);
      if e.kind == TypeKind {
        var x := g[Here(Space.CompType, e.index)];
        forall k: nat ensures Steps(h, RenameNode(rho, x), k) == RenameNode(rho, Steps(g, x, k)) {
          ChainsRenamed(g, h, rho, x, k);
        }
        assert Reaches(g, x) <==> Reaches(h, RenameNode(rho, x)) by {
          if Reaches(g, x) {
            var k: nat :| Steps(g, x, k) == ResourceNode;
            assert Steps(h, RenameNode(rho, x), k) == ResourceNode;
          }
          if Reaches(h, RenameNode(rho, x)) {
            var k: nat :| Steps(h, RenameNode(rho, x), k) == ResourceNode;
            assert Steps(g, x, k) == ResourceNode;
          }
        }
        assert ExportItemRef(e)[0] == Here(Space.CompType, e.index);
      }
    }
  }

  // ------------------------------------------------------------------------------------
  // The names an instance type declares
  // ------------------------------------------------------------------------------------

  /** The name a declaration gives to the type it introduces, if that is a named resource;
      `outerName` answers for aliases of outer types that are themselves instance exports. */
  function DeclName(outerName: Alias -> Option<string>, d: Decl): Option<string> {
    match d
    case ExportDecl(name, TypeRefBound(SubResource)) => Some(name)
    case AliasDecl(Outer(OuterType, count, index)) => outerName(Outer(OuterType, count, index))
    case _ => None
  }

  /** Whether the hand-kept counter advances over a declaration. */
  predicate Counted(d: Decl) {
    match d
    case ExportDecl(_, TypeRefBound(_)) => true
    case TypeDecl(_) => true
    case AliasDecl(_) => true
    case _ => false
  }

  function CountedBefore(decls: seq<Decl>): nat {
    if decls == [] then 0 else CountedBefore(decls[..|decls| - 1]) + (if Counted(decls[|decls| - 1]) then 1 else 0)
  }

  /** The id a declaration's type gets: the number of earlier declarations in the type space. */
  function TypesBefore(decls: seq<Decl>): nat {
    if decls == [] then 0
    else TypesBefore(decls[..|decls| - 1]) + (if DeclSpace(decls[|decls| - 1]) == Space.CompType then 1 else 0)
  }

  /** The names recorded under the ids `number` assigns. */
  function NamesUnder(outerName: Alias -> Option<string>, number: seq<Decl> -> nat, decls: seq<Decl>): NameMap {
    if decls == [] then map[]
    else
      var n := |decls| - 1;
      var names := NamesUnder(outerName, number, decls[..n]);
      match DeclName(outerName, decls[n])
      case Some(name) => names[number(decls[..n]) := name]
      case None => names
  }

  /** Instance types declare no imports. */
  predicate InstanceDecls(decls: seq<Decl>) {
    forall d :: d in decls ==> !d.ImportDecl?
  }

  method BuildInstanceResourceMap(outerName: Alias -> Option<string>, decls: seq<Decl>) returns (names: NameMap)
    ensures names == NamesUnder(outerName, CountedBefore, decls)
  {
    names := map[];
    var typeCount := 0;
    for i := 0 to |decls|
      invariant typeCount == CountedBefore(decls[..i])
      invariant names == NamesUnder(outerName, CountedBefore, decls[..i])
    {
      assert decls[..i + 1][..i] == decls[..i];
      match decls[i] {
        case ExportDecl(name, TypeRefBound(SubResource)) =>
          names := names[typeCount := name];
          typeCount := typeCount + 1;
        case ExportDecl(_, TypeRefBound(Eq(_))) => typeCount := typeCount + 1;
        case TypeDecl(_) => typeCount := typeCount + 1;
        case AliasDecl(a) =>
          if a.Outer? && a.outerKind == OuterType {
            match outerName(a) {
              case Some(name) => names := names[typeCount := name];
              case None =>
            }
          }
          typeCount := typeCount + 1;
        case _ =>
      }
    }
    assert decls[..|decls|] == decls;
  }

  /** Aliases of anything but types, among these declarations. */
  function OtherAliases(decls: seq<Decl>): nat {
    if decls == [] then 0
    else OtherAliases(decls[..|decls| - 1])
         + (if decls[|decls| - 1].AliasDecl? && DeclSpace(decls[|decls| - 1]) != Space.CompType then 1 else 0)
  }

  /** The counter runs ahead of the index store by exactly the aliases that are no types. */
  lemma {:induction false} CounterRunsAhead(decls: seq<Decl>)
    requires InstanceDecls(decls)
    ensures CountedBefore(decls) == TypesBefore(decls) + OtherAliases(decls)
  {
    if decls != [] {
      assert decls[|decls| - 1] in decls;
      CounterRunsAhead(decls[..|decls| - 1]);
    }
  }

  lemma {:induction false} Monotone(decls: seq<Decl>, m: nat)
    requires m <= |decls|
    ensures TypesBefore(decls[..m]) <= TypesBefore(decls) && OtherAliases(decls[..m]) <= OtherAliases(decls)
    ensures CountedBefore(decls[..m]) <= CountedBefore(decls)
  {
    if m == |decls| {
      assert decls[..m] == decls;
    } else {
      var n := |decls| - 1;
      assert decls[..n][..m] == decls[..m];
      Monotone(decls[..n], m);
    }
  }

  /** Keys of either map stay below the next number. */
  lemma {:induction false} KeysBelow(outerName: Alias -> Option<string>, decls: seq<Decl>)
    requires InstanceDecls(decls)
    ensures forall k :: k in NamesUnder(outerName, CountedBefore, decls) ==> k < CountedBefore(decls)
    ensures forall k :: k in NamesUnder(outerName, TypesBefore, decls) ==> k < TypesBefore(decls)
  {
    if decls != [] {
      assert decls[|decls| - 1] in decls;
      KeysBelow(outerName, decls[..|decls| - 1]);
    }
  }

  /** No non-type alias comes before a declaration that names a resource. */
  ghost predicate NamesBeforeOtherAliases(outerName: Alias -> Option<string>, decls: seq<Decl>) {
    forall i :: 0 <= i < |decls| && DeclName(outerName, decls[i]).Some? ==> OtherAliases(decls[..i]) == 0
  }

  /** The map built with the hand-kept counter is the map keyed by the types' real ids exactly
      when no alias of something other than a type precedes a named resource. */
  lemma {:induction false} CounterMatchesIndexStore(outerName: Alias -> Option<string>, decls: seq<Decl>)
    requires InstanceDecls(decls)
    ensures NamesUnder(outerName, CountedBefore, decls) == NamesUnder(outerName, TypesBefore, decls)
       <==> NamesBeforeOtherAliases(outerName, decls)
  {
    if decls != [] {
      var n := |decls| - 1;
      var init := decls[..n];
      CounterMatchesIndexStore(outerName, init);
      LastNameDecides(outerName, decls);
      if DeclName(outerName, decls[n]).Some? {
        CounterRunsAhead(init);
        KeysBelow(outerName, init);
        if OtherAliases(init) == 0 {
          forall i | 0 <= i < n ensures OtherAliases(init[..i]) == 0 { Monotone(init, i); }
          assert NamesBeforeOtherAliases(outerName, init);
        } else {
          assert CountedBefore(init) in NamesUnder(outerName, CountedBefore, decls);
          assert CountedBefore(init) !in NamesUnder(outerName, TypesBefore, decls);
        }
      }
    }
  }

  lemma LastNameDecides(outerName: Alias -> Option<string>, decls: seq<Decl>)
    requires decls != []
    ensures var n := |decls| - 1;
            NamesBeforeOtherAliases(outerName, decls) <==>
              NamesBeforeOtherAliases(outerName, decls[..n])
              && (DeclName(outerName, decls[n]).Some? ==> OtherAliases(decls[..n]) == 0)
  {
    var n := |decls| - 1;
    var init := decls[..n];
    assert forall i :: 0 <= i < n ==> init[i] == decls[i] && init[..i] == decls[..i];
  }

  /** Each named declaration is found under its own id, when the condition holds. */
  lemma {:induction false} EveryNameUnderItsId(outerName: Alias -> Option<string>, decls: seq<Decl>, i: nat)
    requires InstanceDecls(decls) && i < |decls| && DeclName(outerName, decls[i]).Some?
    ensures DeclSpace(decls[i]) == Space.CompType
    ensures GetName(NamesUnder(outerName, TypesBefore, decls), TypesBefore(decls[..i])) == DeclName(outerName, decls[i])
  {
    var n := |decls| - 1;
    if i < n {
      assert decls[..n][..i] == decls[..i];
      EveryNameUnderItsId(outerName, decls[..n], i);
      NumbersRise(decls, i);
      LaterNamesElsewhere(outerName, decls, TypesBefore(decls[..i]));
    }
  }

  lemma NumbersRise(decls: seq<Decl>, i: nat)
    requires i < |decls| - 1 && DeclSpace(decls[i]) == Space.CompType
    ensures TypesBefore(decls[..i]) < TypesBefore(decls[..|decls| - 1])
  {
    var n := |decls| - 1;
    assert decls[..i + 1][..i] == decls[..i];
    assert decls[..n][..i + 1] == decls[..i + 1];
    Monotone(decls[..n], i + 1);
  }

  lemma LaterNamesElsewhere(outerName: Alias -> Option<string>, decls: seq<Decl>, k: nat)
    requires decls != [] && k < TypesBefore(decls[..|decls| - 1])
    ensures GetName(NamesUnder(outerName, TypesBefore, decls), k)
         == GetName(NamesUnder(outerName, TypesBefore, decls[..|decls| - 1]), k)
  {
  }

  /** The condition can fail: an aliased module shifts the counter. */
  lemma CounterShifted(name: string)
    ensures var decls := [AliasDecl(Outer(OuterModule, 1, 0)), ExportDecl(name, TypeRefBound(SubResource))];
            var none: Alias -> Option<string> := _ => None;
            && GetName(NamesUnder(none, CountedBefore, decls), 1) == Some(name)
            && TypesBefore(decls[..1]) == 0
  {
    var decls := [AliasDecl(Outer(OuterModule, 1, 0)), ExportDecl(name, TypeRefBound(SubResource))];
    assert decls[..1][..0] == [] && decls[..1][0] == decls[0];
    assert TypesBefore(decls[..1]) == 0 && CountedBefore(decls[..1]) == 1;
  }
}
