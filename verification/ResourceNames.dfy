/** Resource names under encoding: the name maps are built from a component's exports and from
    the declarations of an instance type, before and after. Within one scope every handle keeps
    its name; a handle reached from an instance type keeps it exactly when its old and its new id
    do not collide with the keys of that type's own map. */
module ResourceNames {
  import opened Prelude
  import opened Spaces
  import opened Types
  import opened ActualIds
  import opened FixIndices
  import opened Reindex
  import opened Concretize
  import opened Meaning
  import opened TypeTrees
  import opened Resources

  // ------------------------------------------------------------------------------------
  // What the maps are built from
  // ------------------------------------------------------------------------------------

  /** What following a type item towards a resource finds. An export of an instance leads to an
      instance and never to a type. */
  function NodeOf(t: TypeItem): Node {
    match t
    case TypeDef(Resource(_, _)) => ResourceNode
    case TypeImport(ImportItem(_, TypeRefBound(SubResource))) => ResourceNode
    case TypeImport(ImportItem(_, TypeRefBound(Eq(n)))) => Next(Here(Space.CompType, n))
    case TypeAlias(Outer(OuterType, count, i)) => Next(IndexedRef(count, Space.CompType, i))
    case _ => OtherNode
  }

  predicate InView(w: World, k: nat, r: IndexedRef) {
    r.space == Space.CompType && r.depth <= k < |w| && r.index < |w[k - r.depth]|
  }

  /** The types seen from level `k`. References found in an outer item are read from level `k`
      as well: following them does not move to the item's own scope. */
  function GraphAt(w: World, k: nat): (g: Graph)
    requires k < |w|
    ensures forall r :: r in g <==> InView(w, k, r)
    ensures forall r :: InView(w, k, r) ==> g[r] == NodeOf(w[k - r.depth][r.index])
  {
    map r | r in Visible(w, k) :: NodeOf(w[k - r.depth][r.index])
  }

  function Visible(w: World, k: nat): (rs: set<IndexedRef>)
    requires k < |w|
    ensures forall r :: r in rs <==> InView(w, k, r)
  {
    var rs := set d: nat, i: nat | d <= k && i < |w[k - d]| :: IndexedRef(d, Space.CompType, i);
    assert forall r :: InView(w, k, r) ==> IndexedRef(r.depth, Space.CompType, r.index) == r;
    rs
  }

  /** The map of the component's resource exports as built when consulted at level `k`. */
  ghost function ComponentMapAt(w: World, k: nat, exports: seq<ExportItem>): Option<NameMap>
    requires k < |w|
  {
    var g := GraphAt(w, k);
    if ExportsResolve(g, exports) then Some(ComponentNames(g, exports)) else None
  }

  function ItemAt(w: World, k: nat, count: nat, i: nat): Option<TypeItem>
    requires k < |w|
  {
    if count <= k && i < |w[k - count]| then Some(w[k - count][i]) else None
  }

  /** The name behind an alias of an outer type that is itself an export of an instance. */
  function OuterNames(w: World, k: nat): Alias -> Option<string>
    requires k < |w|
  {
    (a: Alias) =>
      match a
      case Outer(OuterType, count, i) =>
        (match ItemAt(w, k, count, i) case Some(t) => ExportedAs(t) case None => None)
      case _ => None
  }

  function ExportedAs(t: TypeItem): Option<string> {
    match t
    case TypeAlias(InstanceExport(TypeKind, _, name)) => Some(name)
    case _ => None
  }

  /** The type an instance type's declaration adds, if any; a nested body is no value type. */
  function DeclItem(d: Decl): seq<TypeItem> {
    match d
    case TypeDecl(Leaf(leaf)) => [TypeDef(leaf)]
    case TypeDecl(_) => [BodyType]
    case AliasDecl(a) => if AliasSpace(a) == Space.CompType then [TypeAlias(a)] else []
    case ExportDecl(name, TypeRefBound(b)) => [DeclExport(name, TypeRefBound(b))]
    case ImportDecl(name, TypeRefBound(b)) => [TypeImport(ImportItem(name, TypeRefBound(b)))]
    case _ => []
  }

  /** A declaration as it is encoded; what a nested body holds is of no concern here. */
  function FixDecl(rho: Renaming): Decl -> Decl {
    (d: Decl) =>
      match d
      case TypeDecl(Leaf(leaf)) => TypeDecl(Leaf(FixLeaf(rho, leaf)))
      case AliasDecl(a) => AliasDecl(FixAlias(rho, a))
      case ExportDecl(name, ty) => ExportDecl(name, FixTypeRef(rho, ty))
      case ImportDecl(name, ty) => ImportDecl(name, FixTypeRef(rho, ty))
      case _ => d
  }

  /** The items of the body are its declarations' types, and encoding commutes with that. */
  lemma {:induction false} BodyEncoded(rho: Renaming, decls: seq<Decl>)
    ensures FlatMap(DeclItem, Map(FixDecl(rho), decls)) == Map(t => FixTypeItem(rho, t), FlatMap(DeclItem, decls))
  {
    if decls != [] {
      BodyEncoded(rho, decls[1..]);
      assert Map(FixDecl(rho), decls)[1..] == Map(FixDecl(rho), decls[1..]);
      assert DeclItem(FixDecl(rho)(decls[0])) == Map(t => FixTypeItem(rho, t), DeclItem(decls[0])) by {
        DeclItemFixed(rho, decls[0]);
      }
    }
  }

  lemma DeclItemFixed(rho: Renaming, d: Decl)
    ensures DeclItem(FixDecl(rho)(d)) == Map(t => FixTypeItem(rho, t), DeclItem(d))
  {
  }

  // ------------------------------------------------------------------------------------
  // The component's own map
  // ------------------------------------------------------------------------------------

  lemma NodeRenamed(rho: Renaming, t: TypeItem)
    requires t.TypeImport? ==> BoundStays(rho, t.imp.ty)
    ensures NodeOf(FixTypeItem(rho, t)) == RenameNode(rho, NodeOf(t))
  {
  }

  /** The references a node follows are among those of its item. */
  lemma NodeRefListed(t: TypeItem)
    requires NodeOf(t).Next?
    ensures NodeOf(t).ref in TypeItemRefs(t) && NodeOf(t).ref.space == Space.CompType
  {
  }

  lemma OutermostGraphClosed(w: World, rank: Ranks)
    requires Acyclic(w, rank) && w != []
    ensures Closed(GraphAt(w, 0))
  {
    var g := GraphAt(w, 0);
    forall r | r in g && g[r].Next? ensures g[r].ref in g {
      NodeRefListed(w[0][r.index]);
      assert Descends(w, rank, 0, r.index, g[r].ref);
    }
  }

  /** The component's graph is renamed as a whole. */
  lemma GraphKept(c: Encoding)
    requires c.Rewritten() && c.w != []
    ensures GraphRenamed(GraphAt(c.w, 0), GraphAt(c.Encoded(), 0), c.Rho(0))
  {
    OutermostGraphClosed(c.w, c.rank);
    EncodedIsAcyclic(c);
    OutermostGraphClosed(c.Encoded(), c.EncodedRanks());
    var g, h, rho := GraphAt(c.w, 0), GraphAt(c.Encoded(), 0), c.Rho(0);
    forall r | r in g ensures Renamed(rho)(r) in h && h[Renamed(rho)(r)] == RenameNode(rho, g[r]) {
      assert c.BoundStaysAt(0, r.index);
      NodeKept(c, r);
    }
  }

  lemma NodeKept(c: Encoding, r: IndexedRef)
    requires c.Emitted() && c.w != [] && InView(c.w, 0, r) && c.BoundStaysAt(0, r.index)
    ensures var s := Renamed(c.Rho(0))(r);
            InView(c.Encoded(), 0, s) && GraphAt(c.Encoded(), 0)[s] == RenameNode(c.Rho(0), GraphAt(c.w, 0)[r])
  {
    TypeRefRenamed(c, 0, 0, r.index);
    EncodedItem(c, 0, r.index);
    NodeRenamed(c.Rho(0), c.w[0][r.index]);
  }

  /** The exports name types of the component. */
  predicate ExportsExist(w: World, exports: seq<ExportItem>)
    requires w != []
  {
    forall e :: e in exports && e.kind == TypeKind ==> e.index < |w[0]|
  }

  lemma ExportsFollowed(w: World, rank: Ranks, exports: seq<ExportItem>)
    requires Acyclic(w, rank) && w != [] && ExportsExist(w, exports)
    ensures ExportsResolve(GraphAt(w, 0), exports)
  {
    var g := GraphAt(w, 0);
    OutermostGraphClosed(w, rank);
    forall e | e in exports && e.kind == TypeKind ensures ExportResolves(g, e) {
      var x := g[Here(Space.CompType, e.index)];
      forall n: nat ensures Resolves(g, Steps(g, x, n)) { ClosedResolves(g, x, n); }
    }
  }

  lemma NewIsInjective(c: Encoding, k: nat, a: nat, b: nat)
    requires c.Emitted() && k < |c.w| && a < |c.w[k]| && b < |c.w[k]| && c.New(k, a) == c.New(k, b)
    ensures a == b
  {
    EncodedItem(c, k, a);
    EncodedItem(c, k, b);
  }

  /** The exports as they are encoded. */
  function EncodedExports(c: Encoding, exports: seq<ExportItem>): seq<ExportItem>
    requires |c.stack| > 0
  {
    Map(FixExport(c.Rho(0)), exports)
  }

  lemma EncodedExportsExist(c: Encoding, exports: seq<ExportItem>)
    requires c.Rewritten() && c.w != [] && ExportsExist(c.w, exports)
    ensures ExportsExist(c.Encoded(), EncodedExports(c, exports))
  {
    forall j | 0 <= j < |exports| && exports[j].kind == TypeKind
      ensures EncodedExports(c, exports)[j].index < |c.w[0]|
    {
      assert exports[j] in exports;
      FixedTypeExport(c, 0, exports[j]);
      EncodedItem(c, 0, exports[j].index);
    }
  }

  /** Each type of the component has the same exported name under its new id. */
  lemma ComponentMapKept(c: Encoding, exports: seq<ExportItem>, i: nat)
    requires c.Rewritten() && c.w != [] && ExportsExist(c.w, exports) && i < |c.w[0]|
    ensures var before := ComponentMapAt(c.w, 0, exports);
            var after := ComponentMapAt(c.Encoded(), 0, EncodedExports(c, exports));
            before.Some? && after.Some? && GetName(before.value, i) == GetName(after.value, c.New(0, i))
  {
    ExportsFollowed(c.w, c.rank, exports);
    EncodedIsAcyclic(c);
    EncodedExportsExist(c, exports);
    ExportsFollowed(c.Encoded(), c.EncodedRanks(), EncodedExports(c, exports));
    GraphKept(c);
    TypeRefRenamed(c, 0, 0, i);
    NamesRenamedAt(c, exports, i);
  }

  lemma {:induction false} NamesRenamedAt(c: Encoding, exports: seq<ExportItem>, i: nat)
    requires c.Rewritten() && c.w != [] && ExportsExist(c.w, exports) && i < |c.w[0]|
    requires GraphRenamed(GraphAt(c.w, 0), GraphAt(c.Encoded(), 0), c.Rho(0))
    ensures GetName(ComponentNames(GraphAt(c.w, 0), exports), i)
         == GetName(ComponentNames(GraphAt(c.Encoded(), 0), EncodedExports(c, exports)),
                    c.Rho(0)(Here(Space.CompType, i)))
  {
    var g, h := GraphAt(c.w, 0), GraphAt(c.Encoded(), 0);
    TypeRefRenamed(c, 0, 0, i);
    forall e | e in exports && e.kind == TypeKind
      ensures c.Rho(0)(Here(Space.CompType, e.index)) == c.Rho(0)(Here(Space.CompType, i)) ==> e.index == i
    {
      TypeRefRenamed(c, 0, 0, e.index);
      if c.New(0, e.index) == c.New(0, i) { NewIsInjective(c, 0, e.index, i); }
    }
    ComponentNamesRenamed(g, h, c.Rho(0), exports, i);
  }

  // ------------------------------------------------------------------------------------
  // The name of one handle
  // ------------------------------------------------------------------------------------

  /** The type an import equals, when naming a handle on type `i` of level `k` comes down to it. */
  function ConsultedEq(w: World, k: nat, i: nat): Option<nat>
    requires k < |w|
  {
    if i >= |w[k]| then None
    else match w[k][i]
      case TypeImport(imp) => EqTarget(w[k][i])
      case TypeAlias(Outer(OuterType, count, j)) =>
        (match ItemAt(w, k, count, j) case Some(t) => EqTarget(t) case None => None)
      case _ => None
  }

  function EqTarget(t: TypeItem): Option<nat> {
    match t
    case TypeImport(ImportItem(_, TypeRefBound(Eq(n)))) => Some(n)
    case _ => None
  }

  /** The name an item carries by itself. */
  function OwnName(t: TypeItem): Option<string> {
    match t
    case TypeAlias(InstanceExport(_, _, name)) => Some(name)
    case DeclExport(name, TypeRefBound(_)) => Some(name)
    case _ => None
  }

  function EqName(names: Names, k: nat, n: nat): Option<string> {
    ImportName(names, k, TypeRefBound(Eq(n)))
  }

  /** A far name is either looked up for the type an import equals or carried by the item. */
  lemma FarNameIs(w: World, names: Names, k: nat, i: nat)
    requires k < |w| && i < |w[k]|
    ensures FarName(w, names, k, i)
         == match ConsultedEq(w, k, i) case Some(n) => EqName(names, k, n) case None => OwnName(w[k][i])
  {
  }

  /** What the name comes down to is the same after encoding. */
  lemma ConsultedSame(c: Encoding, k: nat, i: nat)
    requires c.Rewritten() && k < |c.w| && i < |c.w[k]|
    ensures c.New(k, i) < |c.w[k]|
    ensures ConsultedEq(c.Encoded(), k, c.New(k, i)) == ConsultedEq(c.w, k, i)
  {
    match c.w[k][i] {
      case TypeAlias(Outer(OuterType, count, j)) =>
        OuterDescends(c.w, c.rank, k, i, count, j);
        ConsultedOuter(c, k, i, count, j);
      case _ => ConsultedHere(c, k, i);
    }
  }

  lemma ConsultedHere(c: Encoding, k: nat, i: nat)
    requires c.Emitted() && k < |c.w| && i < |c.w[k]|
    requires c.w[k][i].TypeAlias? && c.w[k][i].als.Outer? ==> c.w[k][i].als.outerKind != OuterType
    ensures c.New(k, i) < |c.w[k]|
    ensures ConsultedEq(c.Encoded(), k, c.New(k, i)) == ConsultedEq(c.w, k, i)
  {
    EncodedItem(c, k, i);
  }

  lemma ConsultedOuter(c: Encoding, k: nat, i: nat, count: nat, j: nat)
    requires c.Emitted() && count <= k < |c.w| && i < |c.w[k]| && j < |c.w[k - count]|
    requires c.w[k][i] == TypeAlias(Outer(OuterType, count, j))
    ensures c.New(k, i) < |c.w[k]|
    ensures ConsultedEq(c.Encoded(), k, c.New(k, i)) == ConsultedEq(c.w, k, i)
  {
    OuterTarget(c, k, i, count, j);
    EqTargetFixed(c.Rho(k - count), c.w[k - count][j]);
  }

  lemma EqTargetFixed(rho: Renaming, t: TypeItem)
    ensures EqTarget(FixTypeItem(rho, t)) == EqTarget(t) && OwnName(FixTypeItem(rho, t)) == OwnName(t)
  {
  }

  /** So a far name changes only where an import's equal type is looked up, and exactly with it. */
  lemma FarNameKept(c: Encoding, k: nat, i: nat)
    requires c.Rewritten() && k < |c.w| && i < |c.w[k]|
    ensures FarName(c.Encoded(), c.after, k, c.New(k, i)) == FarName(c.w, c.before, k, i)
       <==> match ConsultedEq(c.w, k, i)
            case Some(n) => EqName(c.after, k, n) == EqName(c.before, k, n)
            case None => true
  {
    ConsultedSame(c, k, i);
    EncodedItem(c, k, i);
    EqTargetFixed(c.Rho(k), c.w[k][i]);
    FarNameIs(c.w, c.before, k, i);
    FarNameIs(c.Encoded(), c.after, k, c.New(k, i));
  }

  /** The type an import equals exists and keeps its id. */
  lemma EqTargetStays(c: Encoding, k: nat, a: nat, n: nat)
    requires c.Rewritten() && k < |c.w| && a < |c.w[k]| && EqTarget(c.w[k][a]) == Some(n)
    ensures n < |c.w[k]| && c.New(k, n) == n
  {
    var r := Here(Space.CompType, n);
    assert c.BoundStaysAt(k, a);
    assert TypeItemRefs(c.w[k][a]) == [r] && r in TypeItemRefs(c.w[k][a]);
    assert Descends(c.w, c.rank, k, a, r);
    TypeRefRenamed(c, k, 0, n);
  }

  /** At level 0 every alias of an outer type is an alias within the component. */
  lemma OutermostConsults(c: Encoding, i: nat, n: nat)
    requires c.Rewritten() && c.w != [] && i < |c.w[0]| && ConsultedEq(c.w, 0, i) == Some(n)
    ensures n < |c.w[0]| && c.New(0, n) == n
  {
    match c.w[0][i] {
      case TypeAlias(Outer(OuterType, count, j)) => EqTargetStays(c, 0, j, n);
      case TypeImport(_) => EqTargetStays(c, 0, i, n);
      case _ =>
    }
  }

  /** A handle on type `i` of level `k` is defined somewhere. */
  predicate IsHandle(t: TypeItem, i: nat) {
    t == TypeDef(Defined(Own(i))) || t == TypeDef(Defined(Borrow(i)))
  }

  lemma HandleInRange(c: Encoding, k: nat, a: nat, i: nat)
    requires c.Rewritten() && k < |c.w| && a < |c.w[k]| && IsHandle(c.w[k][a], i)
    ensures i < |c.w[k]|
  {
    var r := Here(Space.CompType, i);
    assert r in TypeItemRefs(c.w[k][a]);
    assert Descends(c.w, c.rank, k, a, r);
  }

  /** All handles defined at level `k` keep their names. */
  ghost predicate HandlesKeptAt(c: Encoding, k: nat)
    requires c.Emitted() && k < |c.w|
  {
    forall a, i: nat {:trigger IsHandle(c.w[k][a], i)} ::
      0 <= a < |c.w[k]| && IsHandle(c.w[k][a], i) ==> c.HandleAgrees(k, i)
  }

  lemma HandlesByLevel(c: Encoding)
    requires c.Emitted()
    ensures c.HandlesAgree() <==> forall k :: 0 <= k < |c.w| ==> HandlesKeptAt(c, k)
  {
    if c.HandlesAgree() {
      forall k, a, i | 0 <= k < |c.w| && 0 <= a < |c.w[k]| && IsHandle(c.w[k][a], i) ensures c.HandleAgrees(k, i) {
        assert c.HandlesAgreeAt(k, a);
      }
    }
    if forall k :: 0 <= k < |c.w| ==> HandlesKeptAt(c, k) {
      forall k, a | 0 <= k < |c.w| && 0 <= a < |c.w[k]| ensures c.HandlesAgreeAt(k, a) {
        assert HandlesKeptAt(c, k);
        match c.w[k][a] {
          case TypeDef(Defined(Own(i))) => assert IsHandle(c.w[k][a], i);
          case TypeDef(Defined(Borrow(i))) => assert IsHandle(c.w[k][a], i);
          case _ =>
        }
      }
    }
  }

  /** Every type of every scope keeps its tree. */
  ghost predicate TreesKept(c: Encoding)
    requires c.Emitted()
  {
    forall k, a :: 0 <= k < |c.w| && 0 <= a < |c.w[k]| ==> c.New(k, a) < |c.w[k]| && c.TreeKept(k, a)
  }

  lemma TreesKeptExactlyWhen(c: Encoding)
    requires c.Rewritten()
    ensures TreesKept(c) <==> c.HandlesAgree()
  {
    MeaningIsKeptExactlyWhen(c);
  }

  // ------------------------------------------------------------------------------------
  // One scope: a component's own signatures
  // ------------------------------------------------------------------------------------

  /** A component's map, used for a function type of the component itself. */
  ghost function ComponentNamesOf(w: World, exports: seq<ExportItem>): Names
    requires w != []
  {
    var m := ComponentMapAt(w, 0, exports);
    Names(m.GetOr(map[]), [m])
  }

  /** A component by itself, with the maps the code builds before and after. */
  ghost predicate OneScope(c: Encoding, exports: seq<ExportItem>) {
    && c.Rewritten() && |c.w| == 1 && ExportsExist(c.w, exports)
    && c.before == ComponentNamesOf(c.w, exports)
    && c.after == ComponentNamesOf(c.Encoded(), EncodedExports(c, exports))
  }

  /** Every type of a component keeps its tree: nothing is assumed about names. */
  lemma ComponentKeepsMeaning(c: Encoding, exports: seq<ExportItem>)
    requires OneScope(c, exports)
    ensures TreesKept(c)
  {
    ComponentHandlesKept(c, exports);
    HandlesByLevel(c);
    OneLevel(c);
    TreesKeptExactlyWhen(c);
  }

  lemma OneLevel(c: Encoding)
    requires c.Emitted() && |c.w| == 1
    ensures (forall k :: 0 <= k < |c.w| ==> HandlesKeptAt(c, k)) <==> HandlesKeptAt(c, 0)
  {
  }

  lemma ComponentHandlesKept(c: Encoding, exports: seq<ExportItem>)
    requires OneScope(c, exports)
    ensures HandlesKeptAt(c, 0)
  {
    forall b, i: nat | 0 <= b < |c.w[0]| && IsHandle(c.w[0][b], i) ensures c.HandleAgrees(0, i) {
      ComponentHandleAt(c, exports, b, i);
    }
  }

  lemma ComponentHandleAt(c: Encoding, exports: seq<ExportItem>, a: nat, i: nat)
    requires OneScope(c, exports) && a < |c.w[0]| && IsHandle(c.w[0][a], i)
    ensures c.HandleAgrees(0, i)
  {
    HandleInRange(c, 0, a, i);
    ComponentHandleKept(c, exports, i);
  }

  lemma ComponentHandleKept(c: Encoding, exports: seq<ExportItem>, i: nat)
    requires OneScope(c, exports) && i < |c.w[0]|
    ensures c.HandleAgrees(0, i)
  {
    ComponentMapKept(c, exports, i);
    FarNameKept(c, 0, i);
    var consulted := ConsultedEq(c.w, 0, i);
    if consulted.Some? {
      OutermostConsults(c, i, consulted.value);
      ComponentMapKept(c, exports, consulted.value);
      EqNameKept(c, exports, consulted.value);
    }
  }

  /** What a name at level 0 is looked up under is found alike before and after. */
  lemma EqNameKept(c: Encoding, exports: seq<ExportItem>, n: nat)
    requires c.Rewritten() && c.w != [] && ExportsExist(c.w, exports) && n < |c.w[0]| && c.New(0, n) == n
    requires c.before.component != [] && c.before.component[0] == ComponentMapAt(c.w, 0, exports)
    requires c.after.component != []
    requires c.after.component[0] == ComponentMapAt(c.Encoded(), 0, EncodedExports(c, exports))
    requires GetName(c.after.local, n) == GetName(c.before.local, n)
    ensures EqName(c.after, 0, n) == EqName(c.before, 0, n)
  {
    ComponentMapKept(c, exports, n);
  }

  // ------------------------------------------------------------------------------------
  // Two scopes: an instance type of the component
  // ------------------------------------------------------------------------------------

  /** The maps at hand inside an instance type: its own, and the component's where consulted. */
  ghost function InstanceNames(w: World, decls: seq<Decl>, exports: seq<ExportItem>): Names
    requires |w| == 2
  {
    Names(NamesUnder(OuterNames(w, 1), CountedBefore, decls),
          [ComponentMapAt(w, 0, exports), ComponentMapAt(w, 1, exports)])
  }

  /** A component and the body of one of its instance types, with the maps built before and
      after. Inside the body ids do not change. */
  ghost predicate InstanceScope(c: Encoding, decls: seq<Decl>, exports: seq<ExportItem>) {
    && c.Rewritten() && |c.w| == 2 && ExportsExist(c.w, exports)
    && InstanceDecls(decls) && c.w[1] == FlatMap(DeclItem, decls)
    && c.Order(1) == Upto(|c.w[1]|)
    && c.before == InstanceNames(c.w, decls, exports)
    && c.after == InstanceNames(c.Encoded(), Map(FixDecl(c.Rho(1)), decls), EncodedExports(c, exports))
  }

  lemma {:induction false} SameLocalNames(o: Alias -> Option<string>, p: Alias -> Option<string>, rho: Renaming,
                                          decls: seq<Decl>)
    requires forall d :: d in decls ==> DeclName(p, FixDecl(rho)(d)) == DeclName(o, d)
    ensures CountedBefore(Map(FixDecl(rho), decls)) == CountedBefore(decls)
    ensures NamesUnder(p, CountedBefore, Map(FixDecl(rho), decls)) == NamesUnder(o, CountedBefore, decls)
  {
    if decls != [] {
      var n := |decls| - 1;
      assert decls[n] in decls;
      assert Map(FixDecl(rho), decls)[..n] == Map(FixDecl(rho), decls[..n]);
      SameLocalNames(o, p, rho, decls[..n]);
    }
  }

  /** An alias of an outer type is named the same before and after. */
  lemma OuterNameKept(c: Encoding, k: nat, a: nat, al: Alias)
    requires c.Rewritten() && k < |c.w| && a < |c.w[k]| && c.w[k][a] == TypeAlias(al)
    requires al.Outer? && al.outerKind == OuterType
    ensures OuterNames(c.Encoded(), k)(FixAlias(c.Rho(k), al)) == OuterNames(c.w, k)(al)
  {
    OuterDescends(c.w, c.rank, k, a, al.count, al.index);
    OuterNameFound(c, k, a, al.count, al.index);
  }

  lemma OuterNameFound(c: Encoding, k: nat, a: nat, count: nat, i: nat)
    requires c.Emitted() && count <= k < |c.w| && i < |c.w[k - count]|
    requires a < |c.w[k]| && c.w[k][a] == TypeAlias(Outer(OuterType, count, i))
    ensures OuterNames(c.Encoded(), k)(FixAlias(c.Rho(k), c.w[k][a].als)) == OuterNames(c.w, k)(c.w[k][a].als)
  {
    var j := c.New(k - count, i);
    assert FixAlias(c.Rho(k), Outer(OuterType, count, i)) == Outer(OuterType, count, j) by {
      FixedOuter(c.Rho(k), count, i);
      TypeRefRenamed(c, k, count, i);
    }
    OuterTarget(c, k, a, count, i);
    OuterNamesAt(c.w, k, count, i);
    OuterNamesAt(c.Encoded(), k, count, j);
    ExportedAsFixed(c.Rho(k - count), c.w[k - count][i]);
  }

  lemma OuterNamesAt(w: World, k: nat, count: nat, i: nat)
    requires count <= k < |w| && i < |w[k - count]|
    ensures OuterNames(w, k)(Outer(OuterType, count, i)) == ExportedAs(w[k - count][i])
  {
  }

  lemma ExportedAsFixed(rho: Renaming, t: TypeItem)
    ensures ExportedAs(FixTypeItem(rho, t)) == ExportedAs(t)
  {
  }

  lemma DeclNameKept(c: Encoding, decls: seq<Decl>, d: Decl)
    requires c.Rewritten() && |c.w| == 2 && c.w[1] == FlatMap(DeclItem, decls) && d in decls
    ensures DeclName(OuterNames(c.Encoded(), 1), FixDecl(c.Rho(1))(d)) == DeclName(OuterNames(c.w, 1), d)
  {
    match d {
      case AliasDecl(Outer(OuterType, count, i)) =>
        AliasListed(decls, d);
        var a :| 0 <= a < |c.w[1]| && c.w[1][a] == TypeAlias(d.als);
        OuterNameKept(c, 1, a, d.als);
      case _ =>
    }
  }

  lemma AliasListed(decls: seq<Decl>, d: Decl)
    requires d in decls && d.AliasDecl? && AliasSpace(d.als) == Space.CompType
    ensures TypeAlias(d.als) in FlatMap(DeclItem, decls)
  {
    EachListed(DeclItem, decls);
  }

  /** The instance type's own map does not change. */
  lemma LocalMapKept(c: Encoding, decls: seq<Decl>)
    requires c.Rewritten() && |c.w| == 2 && c.w[1] == FlatMap(DeclItem, decls)
    ensures NamesUnder(OuterNames(c.Encoded(), 1), CountedBefore, Map(FixDecl(c.Rho(1)), decls))
         == NamesUnder(OuterNames(c.w, 1), CountedBefore, decls)
  {
    var o, p, rho := OuterNames(c.w, 1), OuterNames(c.Encoded(), 1), c.Rho(1);
    forall d | d in decls ensures DeclName(p, FixDecl(rho)(d)) == DeclName(o, d) { DeclNameKept(c, decls, d); }
    SameLocalNames(o, p, rho, decls);
  }

  /** The name under `i` in the map at hand, or else the name found further away. */
  function LocalOr(local: NameMap, i: nat, far: Option<string>): Option<string> {
    if i in local then Some(local[i]) else far
  }

  /** A handle on the component's type `i`, reached from the body, is not captured: its old id and
      its new id find the same name in the body's map, or miss it alike. */
  ghost predicate NotCaptured(c: Encoding, i: nat)
    requires c.Emitted() && c.w != []
  {
    var local, far := c.before.local, FarName(c.w, c.before, 0, i);
    LocalOr(local, c.New(0, i), far) == LocalOr(local, i, far)
  }

  /** If naming a handle of the body comes down to the component's map, read with the ids of the
      body, that map must answer alike. */
  ghost predicate BodyLookupKept(c: Encoding, i: nat)
    requires |c.w| == 2 && i < |c.w[1]|
  {
    match ConsultedEq(c.w, 1, i)
    case Some(n) => i in c.before.local || EqName(c.after, 1, n) == EqName(c.before, 1, n)
    case None => true
  }

  lemma OuterHandle(c: Encoding, decls: seq<Decl>, exports: seq<ExportItem>, i: nat)
    requires InstanceScope(c, decls, exports) && i < |c.w[0]|
    ensures c.HandleAgrees(0, i) <==> NotCaptured(c, i)
  {
    LocalMapKept(c, decls);
    FarNameKept(c, 0, i);
    var consulted := ConsultedEq(c.w, 0, i);
    if consulted.Some? {
      OutermostConsults(c, i, consulted.value);
      EqNameKept(c, exports, consulted.value);
    }
  }

  lemma BodyHandle(c: Encoding, decls: seq<Decl>, exports: seq<ExportItem>, i: nat)
    requires InstanceScope(c, decls, exports) && i < |c.w[1]|
    ensures c.HandleAgrees(1, i) <==> BodyLookupKept(c, i)
  {
    LocalMapKept(c, decls);
    FarNameKept(c, 1, i);
    BodyIdsStay(c, i);
  }

  lemma BodyIdsStay(c: Encoding, i: nat)
    requires c.Emitted() && |c.w| == 2 && c.Order(1) == Upto(|c.w[1]|) && i < |c.w[1]|
    ensures c.New(1, i) == i
  {
    EncodedItem(c, 1, i);
    assert c.Order(1)[c.New(1, i)] == c.New(1, i);
  }

  /** No handle of the component is captured by the body's map. */
  ghost predicate NoneCaptured(c: Encoding)
    requires c.Emitted() && c.w != []
  {
    forall a, i: nat {:trigger IsHandle(c.w[0][a], i)} ::
      0 <= a < |c.w[0]| && IsHandle(c.w[0][a], i) ==> NotCaptured(c, i)
  }

  /** No handle of the body is answered differently by the component's map. */
  ghost predicate BodyLookupsKept(c: Encoding)
    requires |c.w| == 2
  {
    forall a, i: nat {:trigger IsHandle(c.w[1][a], i)} ::
      0 <= a < |c.w[1]| && IsHandle(c.w[1][a], i) ==> i < |c.w[1]| && BodyLookupKept(c, i)
  }

  lemma OuterHandles(c: Encoding, decls: seq<Decl>, exports: seq<ExportItem>)
    requires InstanceScope(c, decls, exports)
    ensures HandlesKeptAt(c, 0) <==> NoneCaptured(c)
  {
    forall a, i: nat | 0 <= a < |c.w[0]| && IsHandle(c.w[0][a], i)
      ensures c.HandleAgrees(0, i) <==> NotCaptured(c, i)
    {
      OuterHandleAt(c, decls, exports, a, i);
    }
  }

  lemma OuterHandleAt(c: Encoding, decls: seq<Decl>, exports: seq<ExportItem>, a: nat, i: nat)
    requires InstanceScope(c, decls, exports) && a < |c.w[0]| && IsHandle(c.w[0][a], i)
    ensures c.HandleAgrees(0, i) <==> NotCaptured(c, i)
  {
    HandleInRange(c, 0, a, i);
    OuterHandle(c, decls, exports, i);
  }

  lemma BodyHandles(c: Encoding, decls: seq<Decl>, exports: seq<ExportItem>)
    requires InstanceScope(c, decls, exports)
    ensures HandlesKeptAt(c, 1) <==> BodyLookupsKept(c)
  {
    forall a, i: nat | 0 <= a < |c.w[1]| && IsHandle(c.w[1][a], i)
      ensures BodyHandleDecided(c, i)
    {
      BodyHandleAt(c, decls, exports, a, i);
    }
    BodyDecided(c);
  }

  ghost predicate BodyHandleDecided(c: Encoding, i: nat)
    requires c.Emitted() && |c.w| == 2
  {
    i < |c.w[1]| && (c.HandleAgrees(1, i) <==> BodyLookupKept(c, i))
  }

  lemma BodyHandleAt(c: Encoding, decls: seq<Decl>, exports: seq<ExportItem>, a: nat, i: nat)
    requires InstanceScope(c, decls, exports) && a < |c.w[1]| && IsHandle(c.w[1][a], i)
    ensures BodyHandleDecided(c, i)
  {
    HandleInRange(c, 1, a, i);
    BodyHandle(c, decls, exports, i);
  }

  lemma BodyDecided(c: Encoding)
    requires c.Emitted() && |c.w| == 2
    requires forall a, i: nat {:trigger IsHandle(c.w[1][a], i)} ::
               0 <= a < |c.w[1]| && IsHandle(c.w[1][a], i) ==> BodyHandleDecided(c, i)
    ensures HandlesKeptAt(c, 1) <==> BodyLookupsKept(c)
  {
  }

  /** Inside an instance type, with every map built from the component and the body: all types,
      the component's and the body's, keep their trees if and only if no handle of the component
      is captured by the body's map and no handle of the body misses the component's. */
  lemma InstanceKeepsMeaningExactlyWhen(c: Encoding, decls: seq<Decl>, exports: seq<ExportItem>)
    requires InstanceScope(c, decls, exports)
    ensures TreesKept(c) <==> NoneCaptured(c) && BodyLookupsKept(c)
  {
    TreesKeptExactlyWhen(c);
    HandlesByLevel(c);
    LevelsAre(c);
    OuterHandles(c, decls, exports);
    BodyHandles(c, decls, exports);
  }

  lemma LevelsAre(c: Encoding)
    requires c.Emitted() && |c.w| == 2
    ensures (forall k :: 0 <= k < |c.w| ==> HandlesKeptAt(c, k)) <==> HandlesKeptAt(c, 0) && HandlesKeptAt(c, 1)
  {
  }

  /** Ids beyond the body's counter are no keys of its map: handles that stay there are safe. */
  lemma BeyondTheCounter(c: Encoding, decls: seq<Decl>, exports: seq<ExportItem>, i: nat)
    requires InstanceScope(c, decls, exports)
    requires c.New(0, i) == i || (i >= CountedBefore(decls) && c.New(0, i) >= CountedBefore(decls))
    ensures NotCaptured(c, i)
  {
    KeysBelow(OuterNames(c.w, 1), decls);
  }

  // ------------------------------------------------------------------------------------
  // A captured handle
  // ------------------------------------------------------------------------------------

  // The component takes the resource "outer" from an imported instance as type 0 and defines a
  // handle on it as type 1. The instance's own type is type 2, a reference forward, so it is
  // emitted first. Type 3 is an instance type that exports a resource "inner" of its own and
  // aliases the component's handle.

  function CapturedBody(): seq<Decl> {
    [ExportDecl("inner", TypeRefBound(SubResource)), AliasDecl(Outer(OuterType, 1, 1))]
  }

  function CapturedWorld(): World {
    [[TypeAlias(InstanceExport(TypeKind, 0, "outer")), TypeDef(Defined(Own(0))), BodyType, BodyType],
     [DeclExport("inner", TypeRefBound(SubResource)), TypeAlias(Outer(OuterType, 1, 1))]]
  }

  function CapturedEmission(): seq<Emission> {
    var T := Space.CompType;
    [Emission(1, T, 0), Emission(0, T, 2), Emission(0, Space.CompInst, 0), Emission(0, T, 0), Emission(0, T, 1),
     Emission(2, T, 0), Emission(2, T, 1), Emission(0, T, 3)]
  }

  function Captured(): Encoding {
    var names := Names(map[0 := "inner"], [Some(map[]), Some(map[])]);
    Encoding(CapturedWorld(), CapturedEmission(), [0, 2], [[0, 1, 0, 0], [0, 0]], names, names)
  }

  lemma CapturedOrders(scope: ScopeId, space: Space)
    ensures OrderOf(CapturedEmission(), scope, space)
         == if space == Space.CompType && scope == 0 then [2, 0, 1, 3]
            else if space == Space.CompType && scope == 1 then [0]
            else if space == Space.CompType && scope == 2 then [0, 1]
            else if space == Space.CompInst && scope == 0 then [0]
            else []
  {
    var es := CapturedEmission();
    assert es == es[..4] + es[4..];
    OrderConcat(es[..4], es[4..], scope, space);
    CapturedFirst(scope, space);
    CapturedSecond(scope, space);
  }

  lemma CapturedFirst(scope: ScopeId, space: Space)
    ensures OrderOf(CapturedEmission()[..4], scope, space)
         == if space == Space.CompType && scope == 0 then [2, 0]
            else if space == Space.CompType && scope == 1 then [0]
            else if space == Space.CompInst && scope == 0 then [0]
            else []
  {
    var es := CapturedEmission();
    assert es[..4] == [es[0], es[1], es[2], es[3]];
    FourInOrder(es[0], es[1], es[2], es[3], scope, space);
  }

  lemma CapturedSecond(scope: ScopeId, space: Space)
    ensures OrderOf(CapturedEmission()[4..], scope, space)
         == if space == Space.CompType && scope == 0 then [1, 3]
            else if space == Space.CompType && scope == 2 then [0, 1]
            else []
  {
    var es := CapturedEmission();
    assert es[4..] == [es[4], es[5], es[6], es[7]];
    FourInOrder(es[4], es[5], es[6], es[7], scope, space);
  }

  lemma FourInOrder(a: Emission, b: Emission, c: Emission, d: Emission, scope: ScopeId, space: Space)
    ensures OrderOf([a, b, c, d], scope, space)
         == OneInOrder(a, scope, space) + OneInOrder(b, scope, space) + OneInOrder(c, scope, space)
            + OneInOrder(d, scope, space)
  {
    OrderSnoc([], a, scope, space);
    OrderSnoc([a], b, scope, space);
    OrderSnoc([a, b], c, scope, space);
    OrderSnoc([a, b, c], d, scope, space);
    assert [] + [a] == [a] && [a] + [b] == [a, b] && [a, b] + [c] == [a, b, c] && [a, b, c] + [d] == [a, b, c, d];
  }

  function OneInOrder(e: Emission, scope: ScopeId, space: Space): seq<nat> {
    if e.scope == scope && e.space == space then [e.assumed] else []
  }

  lemma CapturedWellEmitted()
    ensures WellEmitted(CapturedEmission())
  {
    forall scope: ScopeId, space: Space ensures IsPermutation(OrderOf(CapturedEmission(), scope, space)) {
      CapturedOrders(scope, space);
    }
  }

  lemma CapturedIsEmitted()
    ensures Captured().Emitted() && Captured().Order(0) == [2, 0, 1, 3] && Captured().Order(1) == [0, 1]
  {
    CapturedWellEmitted();
    CapturedOrders(0, Space.CompType);
    CapturedOrders(2, Space.CompType);
  }

  lemma CapturedIds()
    ensures Captured().New(0, 0) == 1 && Captured().New(0, 1) == 2 && Captured().New(1, 1) == 1
  {
    CapturedIsEmitted();
    EncodedItem(Captured(), 0, 0);
    EncodedItem(Captured(), 0, 1);
    EncodedItem(Captured(), 1, 1);
  }

  lemma CapturedIsAcyclic()
    ensures Acyclic(Captured().w, Captured().rank)
  {
    var w, rank := Captured().w, Captured().rank;
    CapturedRefs();
    forall k, a, r | 0 <= k < |w| && 0 <= a < |w[k]| && r in TypeItemRefs(w[k][a]) && r.space == Space.CompType
      ensures Descends(w, rank, k, a, r)
    {
      if k == 0 { assert a == 1 && r == Here(Space.CompType, 0); } else { assert a == 1; }
    }
  }

  lemma CapturedRefs()
    ensures var w := CapturedWorld();
            && TypeItemRefs(w[0][0]) == [Here(Space.CompInst, 0)] && TypeItemRefs(w[0][1]) == [Here(Space.CompType, 0)]
            && TypeItemRefs(w[0][2]) == [] && TypeItemRefs(w[0][3]) == [] && TypeItemRefs(w[1][0]) == []
            && TypeItemRefs(w[1][1]) == [IndexedRef(1, Space.CompType, 1)]
  {
  }

  /** The maps of the example are those the code builds. */
  lemma CapturedNames()
    ensures CapturedWorld()[1] == FlatMap(DeclItem, CapturedBody())
    ensures InstanceNames(CapturedWorld(), CapturedBody(), []) == Captured().before
  {
    var w, decls := CapturedWorld(), CapturedBody();
    assert decls[1..] == [decls[1]] && decls[1..][1..] == [];
    assert DeclItem(decls[0]) == [w[1][0]] && DeclItem(decls[1]) == [w[1][1]];
    assert decls[..1] == [decls[0]] && decls[..1][..0] == [];
    OuterNamesAt(w, 1, 1, 1);
    assert CountedBefore([]) == 0;
    assert NamesUnder(OuterNames(w, 1), CountedBefore, decls[..1]) == map[0 := "inner"];
    assert DeclName(OuterNames(w, 1), decls[1]) == None;
    NoExports(w, 0);
    NoExports(w, 1);
  }

  lemma NoExports(w: World, k: nat)
    requires k < |w|
    ensures ComponentMapAt(w, k, []) == Some(map[])
  {
  }

  lemma CapturedRewritten()
    ensures Captured().Rewritten()
  {
    var c := Captured();
    CapturedIsEmitted();
    CapturedIsAcyclic();
    forall k, a | 0 <= k < |c.w| && 0 <= a < |c.w[k]| ensures c.BoundStaysAt(k, a) { CapturedBounds(k, a); }
  }

  lemma CapturedNamesAfter()
    requires Captured().Rewritten()
    ensures var c := Captured();
            c.after == InstanceNames(c.Encoded(), Map(FixDecl(c.Rho(1)), CapturedBody()), EncodedExports(c, []))
  {
    var c := Captured();
    CapturedNames();
    LocalMapKept(c, CapturedBody());
    NoExports(c.Encoded(), 0);
    NoExports(c.Encoded(), 1);
    assert EncodedExports(c, []) == [];
  }

  lemma CapturedShape()
    ensures InstanceDecls(CapturedBody()) && |Captured().w| == 2 && ExportsExist(Captured().w, [])
    ensures |Captured().stack| == 2 && Captured().Order(1) == Upto(|Captured().w[1]|)
    ensures Captured().w == CapturedWorld()
  {
    CapturedIsEmitted();
  }

  lemma CapturedScope()
    ensures InstanceScope(Captured(), CapturedBody(), [])
  {
    CapturedShape();
    assert Captured().Rewritten() by { CapturedRewritten(); }
    assert Captured().w[1] == FlatMap(DeclItem, CapturedBody()) by { CapturedNames(); }
    assert Captured().before == InstanceNames(Captured().w, CapturedBody(), []) by { CapturedNames(); }
    CapturedNamesAfter();
    ScopeIs(Captured(), CapturedBody(), []);
  }

  lemma ScopeIs(c: Encoding, decls: seq<Decl>, exports: seq<ExportItem>)
    requires c.Rewritten() && |c.w| == 2 && ExportsExist(c.w, exports)
    requires InstanceDecls(decls) && c.w[1] == FlatMap(DeclItem, decls) && c.Order(1) == Upto(|c.w[1]|)
    requires c.before == InstanceNames(c.w, decls, exports)
    requires c.after == InstanceNames(c.Encoded(), Map(FixDecl(c.Rho(1)), decls), EncodedExports(c, exports))
    ensures InstanceScope(c, decls, exports)
  {
  }

  lemma CapturedBounds(k: nat, a: nat)
    requires k < |CapturedWorld()| && a < |CapturedWorld()[k]|
    ensures Captured().BoundStaysAt(k, a)
  {
  }

  /** The example is a component with maps as the code builds them. Its handle moves from id 1 to
      id 2 and its resource from id 0, which the body's map knows as "inner", to id 1, which it
      does not know: the handle names another resource afterwards. */
  lemma OuterHandleCaptured()
    ensures var c := Captured();
            && InstanceScope(c, CapturedBody(), []) && c.New(1, 1) == 1
            && !NotCaptured(c, 0)
            && ConcAt(c.w, c.rank, c.before, 1, 1) == NamedResource("inner")
            && ConcAt(c.Encoded(), c.EncodedRanks(), c.after, 1, 1) == NamedResource("outer")
  {
    CapturedScope();
    CapturedIds();
    CapturedBefore();
    CapturedAfter();
  }

  lemma CapturedBefore()
    ensures Shaped(Captured().w, Captured().rank)
    ensures ConcAt(Captured().w, Captured().rank, Captured().before, 1, 1) == NamedResource("inner")
  {
    var c := Captured();
    OuterFollowed(c.w, c.rank, c.before, 1, 1, 1, 1);
    HandleDirect(c.w, c.rank, c.before, 0, 1, 0, "inner");
  }

  lemma CapturedAfter()
    requires Captured().Emitted()
    ensures ConcAt(Captured().Encoded(), Captured().EncodedRanks(), Captured().after, 1, 1) == NamedResource("outer")
  {
    var c := Captured();
    var w2, rank2 := c.Encoded(), c.EncodedRanks();
    CapturedIds();
    OuterTarget(c, 1, 1, 1, 1);
    CapturedEncoded(c);
    OuterFollowed(w2, rank2, c.after, 1, 1, 1, 2);
    HandleDirect(w2, rank2, c.after, 0, 2, 1, "outer");
  }

  lemma CapturedEncoded(c: Encoding)
    requires c == Captured() && c.Emitted() && c.New(0, 0) == 1 && c.New(0, 1) == 2
    ensures c.Encoded()[0][2] == TypeDef(Defined(Own(1)))
    ensures ExportedAs(c.Encoded()[0][1]) == Some("outer")
  {
    assert ExportedAs(c.Encoded()[0][1]) == Some("outer") by {
      EncodedItem(c, 0, 0);
      ExportedAsFixed(c.Rho(0), c.w[0][0]);
    }
    CapturedHandle(c);
  }

  lemma CapturedHandle(c: Encoding)
    requires c == Captured() && c.Emitted() && c.New(0, 0) == 1 && c.New(0, 1) == 2
    ensures c.Encoded()[0][2] == TypeDef(Defined(Own(1)))
  {
    EncodedItem(c, 0, 1);
    TypeRefRenamed(c, 0, 0, 0);
  }

  lemma HandleDirect(w: World, rank: Ranks, names: Names, k: nat, a: nat, i: nat, name: string)
    requires Shaped(w, rank) && k < |w| && a < |w[k]| && w[k][a] == TypeDef(Defined(Own(i)))
    requires HandleName(w, names, k, i) == Some(name)
    ensures ConcAt(w, rank, names, k, a) == NamedResource(name)
  {
  }
}
