/** How items are numbered meets how items are referred to: whatever refers to an item as the sort of
    thing it is, by an id it was given, refers to that item, and to no item otherwise. */
module Numbering {
  import opened Prelude
  import opened Spaces
  import opened Types
  import opened FixIndices
  import opened ActualIds
  import opened TypeTrees
  import opened Reencoding
  import opened Orders
  import Sections

  datatype Sort =
    | AFunction | ACoreFunction | AValue | AType | AnInstance | AComponent | ACoreInstance | AModule | ACoreType
    | AMemory | ATable | AGlobal | ATag

  function SortOfKind(kind: ExternalKind): Sort {
    match kind
    case ModuleKind => AModule
    case FuncKind => AFunction
    case ValueKind => AValue
    case TypeKind => AType
    case InstanceKind => AnInstance
    case ComponentKind => AComponent
  }

  function SortOfRef(ty: TypeRef): Sort {
    match ty
    case ModuleRef(_) => AModule
    case FuncRef(_) => AFunction
    case InstanceRef(_) => AnInstance
    case ComponentRef(_) => AComponent
    case ValueRef(_) => AValue
    case TypeRefBound(_) => AType
  }

  function SortOfAlias(a: Alias): Sort {
    match a
    case InstanceExport(kind, _, _) => SortOfKind(kind)
    case CoreInstanceExport(kind, _, _) =>
      (match kind
       case CoreFuncKind => ACoreFunction
       case CoreTableKind => ATable
       case CoreMemoryKind => AMemory
       case CoreGlobalKind => AGlobal
       case CoreTagKind => ATag)
    case Outer(kind, _, _) =>
      (match kind
       case OuterModule => AModule
       case OuterCoreType => ACoreType
       case OuterType => AType
       case OuterComponent => AComponent)
  }

  /** What an item is. A lifted function is a function of the component, and every other canonical
      function a core function; what comes of an export is what was exported, except that an exported
      component counts as an instance. */
  function SortOf(x: Content): Option<Sort> {
    match x
    case Lone(LeafItem(_)) => Some(AType)
    case Lone(SubTypeItem(_)) => Some(ACoreType)
    case Lone(AliasItem(a)) => Some(SortOfAlias(a))
    case Lone(ImportedItem(i)) => Some(SortOfRef(i.ty))
    case Lone(ExportedItem(e)) => Some(if e.kind == ComponentKind then AnInstance else SortOfKind(e.kind))
    case Lone(CompInstanceItem(_)) => Some(AnInstance)
    case Lone(CoreInstanceItem(_)) => Some(ACoreInstance)
    case Lone(CanonItem(c)) => Some(if c.Lift? then AFunction else ACoreFunction)
    case Lone(StartItem(_)) => Some(AValue)
    case Group(_) => Some(ACoreType)
    case TypeBody => Some(AType)
    case ModuleTypeBody => Some(ACoreType)
    case CoreModuleBody => Some(AModule)
    case NestedComponent => Some(AComponent)
    case CustomData => None
  }

  /** A way to refer to one thing and nothing else. */
  datatype Use =
    | Exports(kind: ExternalKind) | ListsExport(kind: ExternalKind) | CoreExports(coreKind: CoreKind)
    | AliasesExport(kind: ExternalKind) | AliasesCoreExport(coreKind: CoreKind) | AliasesOuter(outerKind: OuterKind)
    | ImportsModule | ImportsFunc | ImportsInstance | ImportsComponent | ImportsValue | ImportsEqual
    | Instantiates | CoreInstantiates | Starts
    | ListsType | OwnsType | BorrowsType | NewResource | ReadsStream | ReturnsTask
    | Lowers | Destroys | Reallocates | PostReturns | CallsBack
    | UsesMemory | WaitsOn | ExtendsType | PointsToType | TypesOption

  /** The sort of thing it refers to. */
  function SortUsed(use: Use): Sort {
    match use
    case Exports(kind) => SortOfKind(kind)
    case ListsExport(kind) => SortOfKind(kind)
    case CoreExports(kind) => SortOfAlias(CoreInstanceExport(kind, 0, ""))
    case AliasesExport(_) => AnInstance
    case AliasesCoreExport(_) => ACoreInstance
    case AliasesOuter(kind) => SortOfAlias(Outer(kind, 0, 0))
    case ImportsModule => ACoreType
    case ImportsFunc | ImportsInstance | ImportsComponent | ImportsValue | ImportsEqual => AType
    case Instantiates => AComponent
    case CoreInstantiates => AModule
    case Starts | Lowers => AFunction
    case ListsType | OwnsType | BorrowsType | NewResource | ReadsStream | ReturnsTask => AType
    case Destroys | Reallocates | PostReturns | CallsBack => ACoreFunction
    case UsesMemory | WaitsOn => AMemory
    case ExtendsType | PointsToType | TypesOption => ACoreType
  }

  function Importing(ty: TypeRef): Item {
    ImportedItem(ImportItem("", ty))
  }

  function WithOption(o: CanonOption): Item {
    CanonItem(TaskReturn(None, [o]))
  }

  /** The item that refers to number `id` in this way. */
  function User(use: Use, id: nat): Item {
    match use
    case Exports(kind) => ExportedItem(ExportItem("", kind, id, None))
    case ListsExport(kind) => CompInstanceItem(FromExports([ExportItem("", kind, id, None)]))
    case CoreExports(kind) => CoreInstanceItem(CoreFromExports([CoreExport("", kind, id)]))
    case AliasesExport(kind) => AliasItem(InstanceExport(kind, id, ""))
    case AliasesCoreExport(kind) => AliasItem(CoreInstanceExport(kind, id, ""))
    case AliasesOuter(kind) => AliasItem(Outer(kind, 0, id))
    case ImportsModule => Importing(ModuleRef(id))
    case ImportsFunc => Importing(FuncRef(id))
    case ImportsInstance => Importing(InstanceRef(id))
    case ImportsComponent => Importing(ComponentRef(id))
    case ImportsValue => Importing(ValueRef(Type(id)))
    case ImportsEqual => Importing(TypeRefBound(Eq(id)))
    case Instantiates => CompInstanceItem(Instantiate(id, []))
    case CoreInstantiates => CoreInstanceItem(CoreInstantiate(id, []))
    case Starts => StartItem(StartFunc(id, [], 0))
    case ListsType => LeafItem(Defined(List(Type(id))))
    case OwnsType => LeafItem(Defined(Own(id)))
    case BorrowsType => LeafItem(Defined(Borrow(id)))
    case NewResource => CanonItem(ResourceNew(id))
    case ReadsStream => CanonItem(StreamRead(id, []))
    case ReturnsTask => CanonItem(TaskReturn(Some(Type(id)), []))
    case Lowers => CanonItem(Lower(id, []))
    case Destroys => LeafItem(Resource(Num(0), Some(id)))
    case Reallocates => WithOption(Realloc(id))
    case PostReturns => WithOption(PostReturn(id))
    case CallsBack => WithOption(Callback(id))
    case UsesMemory => WithOption(Memory(id))
    case WaitsOn => CanonItem(WaitableSetWait(true, id))
    case ExtendsType => SubTypeItem(SubType(false, Some(id), CoreStructType([])))
    case PointsToType => SubTypeItem(SubType(false, None, CoreStructType([RefConcrete(false, id)])))
    case TypesOption => WithOption(CoreTypeOption(id))
  }

  /** The reference names the item recorded at `j`. */
  predicate NamesItem(cs: Contents, j: nat, r: IndexedRef) {
    Known(Hist(cs), r) && Owner(Hist(cs), r.space, r.index) == j
  }

  /** The item refers to the one recorded at `j`, and to nothing else. */
  predicate RefersTo(cs: Contents, j: nat, user: Item) {
    ItemRefs(user) != [] && forall r :: r in ItemRefs(user) ==> NamesItem(cs, j, r)
  }

  // ------------------------------------------------------------------------------------
  // Sorts and spaces
  // ------------------------------------------------------------------------------------

  function SpaceOf(sort: Sort): Space {
    match sort
    case AFunction => Space.CompFunc
    case ACoreFunction => Space.CoreFunc
    case AValue => Space.CompVal
    case AType => Space.CompType
    case AnInstance => Space.CompInst
    case AComponent => Space.Comp
    case ACoreInstance => Space.CoreInst
    case AModule => Space.CoreModule
    case ACoreType => Space.CoreType
    case AMemory => Space.CoreMemory
    case ATable => Space.CoreTable
    case AGlobal => Space.CoreGlobal
    case ATag => Space.CoreTag
  }

  lemma EntrySpace(x: Content)
    ensures SortOf(x).Some? ==> EntryOf(x).space == SpaceOf(SortOf(x).value)
    ensures SortOf(x).None? ==> EntryOf(x).space == NA
  {
  }

  lemma FlatOne<A, B>(f: A -> seq<B>, x: A)
    ensures FlatMap(f, [x]) == f(x)
  {
    assert [x][1..] == [];
  }

  lemma UserRefs(use: Use, id: nat)
    ensures ItemRefs(User(use, id)) == [IndexedRef(0, SpaceOf(SortUsed(use)), id)]
  {
    match use {
      case ListsExport(kind) => FlatOne(ExportItemRef, ExportItem("", kind, id, None));
      case CoreExports(kind) => FlatOne(CoreExportRefs, CoreExport("", kind, id));
      case PointsToType => FlatOne(CoreValRefs, RefConcrete(false, id));
      case Reallocates => OptionRefs(Realloc(id));
      case PostReturns => OptionRefs(PostReturn(id));
      case CallsBack => OptionRefs(Callback(id));
      case UsesMemory => OptionRefs(Memory(id));
      case TypesOption => OptionRefs(CoreTypeOption(id));
      case Lowers | NewResource | ReadsStream | ReturnsTask | WaitsOn => CanonUserRefs(use, id);
      case _ => PlainUserRefs(use, id);
    }
  }

  lemma CanonUserRefs(use: Use, id: nat)
    requires use.Lowers? || use.NewResource? || use.ReadsStream? || use.ReturnsTask? || use.WaitsOn?
    ensures ItemRefs(User(use, id)) == [IndexedRef(0, SpaceOf(SortUsed(use)), id)]
  {
    var c := User(use, id).canon;
    assert CanonOptions(c) == [];
    assert CanonRefs(c) == CanonFuncHead(c) + CanonTypeHead(c) + CanonMemHead(c) + CanonTableRefs(c);
  }

  lemma PlainUserRefs(use: Use, id: nat)
    requires !User(use, id).CanonItem? && !use.ListsExport? && !use.CoreExports? && !use.PointsToType?
    ensures ItemRefs(User(use, id)) == [IndexedRef(0, SpaceOf(SortUsed(use)), id)]
  {
  }

  lemma OptionRefs(o: CanonOption)
    ensures ItemRefs(WithOption(o)) == OptionFuncRefs(o) + OptionTypeRefs(o) + OptionMemRefs(o)
  {
    FlatOne(OptionFuncRefs, o);
    FlatOne(OptionTypeRefs, o);
    FlatOne(OptionMemRefs, o);
  }

  // ------------------------------------------------------------------------------------
  // Main results
  // ------------------------------------------------------------------------------------

  /** An id of an item names it in the space of its sort, and nowhere else. */
  lemma NamedExactly(cs: Contents, j: nat, id: nat, space: Space)
    requires j < |cs| && Hist(cs)[j].space != NA && id in Sections.IdsOf(Hist(cs), j)
    ensures NamesItem(cs, j, IndexedRef(0, space, id)) <==> space == Hist(cs)[j].space
  {
    var hist := Hist(cs);
    HistIsLegal(cs);
    IdsAreOwned(hist, j, id);
    OwnerIsUnique(hist, hist[j].space, j, id);
    if Known(hist, IndexedRef(0, space, id)) { assert hist[Owner(hist, space, id)].space == space; }
  }

  /** By an id it was given, an item is referred to exactly by what refers to its sort. */
  lemma NumbersNameTheirItems(cs: Contents, j: nat, id: nat, use: Use)
    requires j < |cs| && Hist(cs)[j].space != NA && id in Sections.IdsOf(Hist(cs), j)
    ensures RefersTo(cs, j, User(use, id)) <==> SortOf(cs[j]) == Some(SortUsed(use))
  {
    var space := SpaceOf(SortUsed(use));
    UserRefs(use, id);
    EntrySpace(cs[j]);
    NamedExactly(cs, j, id, space);
    OnlyRef(cs, j, User(use, id), IndexedRef(0, space, id));
    SpacesDiffer(cs[j], SortUsed(use));
  }

  lemma OnlyRef(cs: Contents, j: nat, x: Item, r: IndexedRef)
    requires ItemRefs(x) == [r]
    ensures RefersTo(cs, j, x) <==> NamesItem(cs, j, r)
  {
    assert r in [r];
  }

  lemma SpacesDiffer(x: Content, sort: Sort)
    ensures SortOf(x) == Some(sort) <==> SpaceOf(sort) == EntryOf(x).space
  {
    EntrySpace(x);
    if SortOf(x).Some? { SpaceTellsSort(sort, SortOf(x).value); }
  }

  lemma SpaceTellsSort(a: Sort, b: Sort)
    ensures SpaceOf(a) == SpaceOf(b) <==> a == b
  {
  }

  /** Every item that is something has its ids in one space, and only custom sections have none. */
  lemma EveryItemIsNumbered(cs: Contents, j: nat)
    requires j < |cs|
    ensures Hist(cs)[j].space == NA <==> SortOf(cs[j]) == None
  {
    EntrySpace(cs[j]);
  }

  // ------------------------------------------------------------------------------------
  // The same inside type bodies
  // ------------------------------------------------------------------------------------

  function SortOfDecl(d: Decl): Sort {
    match d
    case CoreTypeDecl(_) => ACoreType
    case TypeDecl(_) => AType
    case AliasDecl(a) => SortOfAlias(a)
    case ExportDecl(_, ty) => SortOfRef(ty)
    case ImportDecl(_, ty) => SortOfRef(ty)
  }

  lemma DeclSortSpace(d: Decl)
    ensures DeclSpace(d) == SpaceOf(SortOfDecl(d))
  {
  }

  /** Number `id` of a space finds the `id`-th member of it. */
  lemma SoleTarget(spaces: seq<Space>, space: Space, id: nat)
    ensures Targets(spaces, [IndexedRef(0, space, id)])
         == if id < |Positions(spaces, space)| then [Positions(spaces, space)[id]] else []
  {
    var r := IndexedRef(0, space, id);
    assert [r][..0] == [] && Targets(spaces, []) == [];
    assert Targets(spaces, [r]) == [] + (if Found(spaces, r) then [Positions(spaces, space)[id]] else []);
  }

  lemma FoundExactly(spaces: seq<Space>, i: nat, space: Space)
    requires i < |spaces|
    ensures Targets(spaces, [IndexedRef(0, space, IdAt(spaces, i))]) == [i] <==> space == spaces[i]
  {
    SoleTarget(spaces, space, IdAt(spaces, i));
    IdIsPosition(spaces, i);
    PositionsHold(spaces, space);
  }

  /** By its number, a declaration is found in its body exactly by what refers to its sort. */
  lemma NumbersNameTheirDeclarations(decls: seq<Decl>, i: nat, use: Use)
    requires i < |decls|
    ensures Targets(DeclSpaces(decls), ItemRefs(User(use, IdAt(DeclSpaces(decls), i)))) == [i]
       <==> SortOfDecl(decls[i]) == SortUsed(use)
  {
    var id := IdAt(DeclSpaces(decls), i);
    UserRefs(use, id);
    FoundExactly(DeclSpaces(decls), i, SpaceOf(SortUsed(use)));
    DeclSortSpace(decls[i]);
    SpaceTellsSort(SortOfDecl(decls[i]), SortUsed(use));
  }

  /** Whatever a module type declares counts as a core type, numbered by its position. */
  lemma NumbersNameModuleDeclarations(decls: seq<ModuleDecl>, i: nat, use: Use)
    requires i < |decls|
    ensures IdAt(ModuleDeclSpaces(decls), i) == i
    ensures Targets(ModuleDeclSpaces(decls), ItemRefs(User(use, i))) == [i] <==> SortUsed(use) == ACoreType
  {
    var spaces := ModuleDeclSpaces(decls);
    AllOfOneSpace(spaces, Space.CoreType, i);
    UserRefs(use, i);
    FoundExactly(spaces, i, SpaceOf(SortUsed(use)));
    SpaceTellsSort(ACoreType, SortUsed(use));
  }

  lemma {:induction false} AllOfOneSpace(spaces: seq<Space>, sp: Space, i: nat)
    requires i < |spaces| && forall k :: 0 <= k < |spaces| ==> spaces[k] == sp
    ensures IdAt(spaces, i) == i
  {
    if i > 0 {
      AllOfOneSpace(spaces, sp, i - 1);
      assert spaces[..i] == spaces[..i - 1] + [spaces[i - 1]];
      PositionsSnoc(spaces[..i - 1], spaces[i - 1], sp);
    }
  }

  /** A declaration refers to what an alias or an import of the same form would; a definition
      reports nothing for the body around it. */
  lemma DeclarationsReferLikeItems(d: Decl)
    ensures DeclRefs(d)
         == match d
            case AliasDecl(a) => ItemRefs(AliasItem(a))
            case ExportDecl(name, ty) => ItemRefs(ImportedItem(ImportItem(name, ty)))
            case ImportDecl(name, ty) => ItemRefs(ImportedItem(ImportItem(name, ty)))
            case TypeDecl(_) => []
            case CoreTypeDecl(_) => []
  {
  }

  /** A core type with the parameters and results of a function type left out. */
  function WithoutSignature(t: SubType): SubType {
    if t.inner.CoreFuncType? then t.(inner := CoreStructType([])) else t
  }

  /** So does a declaration of a module type, except that a group reports nothing of parameters and
      results. */
  lemma ModuleDeclarationsReferLikeItems(d: ModuleDecl)
    ensures ModuleDeclRefs(d)
         == match d
            case ModuleTypes(group) => RefsOf(Group(Map(WithoutSignature, group.subs)))
            case ModuleImport(_, _, CoreFuncRef(i)) => ItemRefs(AliasItem(Outer(OuterCoreType, 0, i)))
            case ModuleImport(_, _, CoreTagRef(i)) => ItemRefs(AliasItem(Outer(OuterCoreType, 0, i)))
            case ModuleExport(_, CoreFuncRef(i)) => ItemRefs(AliasItem(Outer(OuterCoreType, 0, i)))
            case ModuleExport(_, CoreTagRef(i)) => ItemRefs(AliasItem(Outer(OuterCoreType, 0, i)))
            case ModuleOuterAlias(count, i) => ItemRefs(AliasItem(Outer(OuterCoreType, count, i)))
            case _ => []
  {
    if d.ModuleTypes? { GroupReports(d.group.subs); }
  }

  lemma {:induction false} GroupReports(subs: seq<SubType>)
    ensures RefsOf(Group(Map(WithoutSignature, subs))) == FlatMap(SubTypeReported, subs)
  {
    var bare := Map(WithoutSignature, subs);
    var items := ItemsOf(Group(bare));
    if subs != [] {
      GroupReports(subs[1..]);
      assert bare[1..] == Map(WithoutSignature, subs[1..]);
      assert items[1..] == ItemsOf(Group(bare[1..]));
      ReportedBare(subs[0]);
    }
  }

  lemma ReportedBare(t: SubType)
    ensures SubTypeRefs(WithoutSignature(t)) == SubTypeReported(t)
  {
  }
}
