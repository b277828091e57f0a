/** Concretization: unfolding the index graph of component types into index-free trees. */
module Concretize {
  import opened Prelude
  import opened Spaces
  import opened Types
  import opened FixIndices

  /** What one id of a component-type space stands for. */
  datatype TypeItem =
    | TypeDef(leaf: LeafType)
    | BodyType                                   // a component or instance type: never a value type
    | TypeAlias(als: Alias)
    | TypeImport(imp: ImportItem)
    | TypeExport(exp: ExportItem)
    | DeclExport(name: string, ty: TypeRef)      // an export declared in an instance type

  /** The type spaces of the enclosing scopes, outermost first. */
  type World = seq<seq<TypeItem>>

  /** Resource names by the type id a handle mentions. */
  type NameMap = map<nat, string>

  /** The map at hand, and the map of the component's exports as it is built when consulted at a
      level: building it there aborts when an exported id does not exist at that level. */
  datatype Names = Names(local: NameMap, component: seq<Option<NameMap>>)

  datatype ConcVal =
    | ConcPrimitive(prim: nat)
    | ConcRecord(fields: seq<(string, ConcVal)>)
    | ConcVariant(cases: seq<(string, Option<ConcVal>)>)
    | ConcList(elem: ConcVal)
    | ConcTuple(elems: seq<ConcVal>)
    | ConcOption(elem: ConcVal)
    | ConcResult(ok: Option<ConcVal>, err: Option<ConcVal>)
    | ConcFlags(names: seq<string>)
    | ConcEnum(names: seq<string>)
    | ConcMap(key: ConcVal, val: ConcVal)
    | ConcFixedLengthList(elem: ConcVal, len: nat)
    | NamedResource(name: string)
    | AsyncHandle
    | Foreign(name: string)   // a type exported by some instance: looked up outside this graph
    | Aborts                  // the code gives up on an item that is no value type
    | Diverges                // the code does not return: the chain of references does not descend

  datatype ConcFunc = ConcFunc(isAsync: bool, params: seq<(string, ConcVal)>, result: Option<ConcVal>)

  /** The references of a type item, as its extractor reports them. */
  function TypeItemRefs(t: TypeItem): seq<IndexedRef> {
    match t
    case TypeDef(leaf) => LeafRefs(leaf)
    case BodyType => []
    case TypeAlias(a) => [AliasRef(a)]
    case TypeImport(i) => TypeRefRefs(i.ty)
    case TypeExport(e) => ExportRefs(e)
    case DeclExport(_, ty) => TypeRefRefs(ty)
  }

  function FixTypeItem(rho: Renaming, t: TypeItem): TypeItem {
    match t
    case TypeDef(leaf) => TypeDef(FixLeaf(rho, leaf))
    case BodyType => BodyType
    case TypeAlias(a) => TypeAlias(FixAlias(rho, a))
    case TypeImport(i) => TypeImport(FixImport(rho, i))
    case TypeExport(e) => TypeExport(FixExport(rho)(e))
    case DeclExport(name, ty) => DeclExport(name, FixTypeRef(rho, ty))
  }

  type Ranks = seq<seq<nat>>

  predicate Shaped(w: World, rank: Ranks) {
    |rank| == |w| && forall k :: 0 <= k < |w| ==> |rank[k]| == |w[k]|
  }

  /** Every type reference exists, and within one scope it descends in rank. */
  ghost predicate Acyclic(w: World, rank: Ranks) {
    && Shaped(w, rank)
    && forall k, a, r {:trigger Descends(w, rank, k, a, r)} ::
         0 <= k < |w| && 0 <= a < |w[k]| && r in TypeItemRefs(w[k][a]) && r.space == Space.CompType ==>
           Descends(w, rank, k, a, r)
  }

  predicate Descends(w: World, rank: Ranks, k: nat, a: nat, r: IndexedRef)
    requires Shaped(w, rank) && k < |w| && a < |w[k]|
  {
    r.depth <= k && r.index < |w[k - r.depth]| && (r.depth == 0 ==> rank[k][r.index] < rank[k][a])
  }

  function GetName(m: NameMap, i: nat): Option<string> {
    if i in m then Some(m[i]) else None
  }

  /** The name of the resource an imported type equals, if either map knows it. */
  function ImportName(names: Names, k: nat, ty: TypeRef): Option<string> {
    match ty
    case TypeRefBound(Eq(n)) =>
      if n in names.local then Some(names.local[n])
      else if k < |names.component| && names.component[k].Some? then GetName(names.component[k].value, n)
      else None
    case _ => None
  }

  function ImportedName(names: Names, k: nat, t: TypeItem): Option<string> {
    if t.TypeImport? then ImportName(names, k, t.imp.ty) else None
  }

  /** The resource name of a handle on type `i`, seen from level `k`, when the map at hand does
      not know `i`. */
  function FarName(w: World, names: Names, k: nat, i: nat): Option<string>
    requires k < |w|
  {
    if i >= |w[k]| then None
    else match w[k][i]
      case TypeImport(imp) => ImportName(names, k, imp.ty)
      case TypeAlias(Outer(OuterType, count, j)) =>
        if count <= k && j < |w[k - count]| then ImportedName(names, k, w[k - count][j]) else None
      case TypeAlias(InstanceExport(_, _, name)) => Some(name)
      case DeclExport(name, TypeRefBound(_)) => Some(name)
      case _ => None
  }

  function HandleName(w: World, names: Names, k: nat, i: nat): Option<string>
    requires k < |w|
  {
    if i in names.local then Some(names.local[i]) else FarName(w, names, k, i)
  }

  function ConcHandle(w: World, names: Names, k: nat, i: nat): ConcVal
    requires k < |w|
  {
    match HandleName(w, names, k, i)
    case Some(name) => NamedResource(name)
    case None => Aborts
  }

  /** The meaning of type `a` of level `k`. */
  function ConcAt(w: World, rank: Ranks, names: Names, k: nat, a: nat): ConcVal
    requires Shaped(w, rank) && k < |w| && a < |w[k]|
    decreases k, rank[k][a], 5
  {
    match w[k][a]
    case TypeDef(Defined(def)) => ConcDefined(w, rank, names, k, rank[k][a], def)
    case TypeAlias(Outer(OuterType, count, i)) =>
      if count > k || i >= |w[k - count]| then Aborts
      else if count == 0 then ConcBelow(w, rank, names, k, rank[k][a], i)
      else ConcAt(w, rank, names, k - count, i)
    case TypeAlias(InstanceExport(_, _, name)) => Foreign(name)
    case TypeImport(imp) => ConcTypeRef(w, rank, names, k, rank[k][a], imp.ty)
    case DeclExport(_, ty) => ConcTypeRef(w, rank, names, k, rank[k][a], ty)
    case TypeExport(e) =>
      if e.kind == TypeKind then ConcBelow(w, rank, names, k, rank[k][a], e.index) else Aborts
    case _ => Aborts
  }

  /** Follows a reference of the current scope. */
  function ConcBelow(w: World, rank: Ranks, names: Names, k: nat, bound: nat, i: nat): ConcVal
    requires Shaped(w, rank) && k < |w|
    decreases k, bound, 0
  {
    if i >= |w[k]| then Aborts
    else if rank[k][i] >= bound then Diverges
    else ConcAt(w, rank, names, k, i)
  }

  function ConcTypeRef(w: World, rank: Ranks, names: Names, k: nat, bound: nat, ty: TypeRef): ConcVal
    requires Shaped(w, rank) && k < |w|
    decreases k, bound, 1
  {
    match ty
    case TypeRefBound(Eq(n)) => ConcBelow(w, rank, names, k, bound, n)
    case _ => Aborts
  }

  function ConcValType(w: World, rank: Ranks, names: Names, k: nat, bound: nat, v: ValType): ConcVal
    requires Shaped(w, rank) && k < |w|
    decreases k, bound, 1
  {
    match v
    case Primitive(p) => ConcPrimitive(p)
    case Type(i) => ConcBelow(w, rank, names, k, bound, i)
  }

  function ConcOptional(w: World, rank: Ranks, names: Names, k: nat, bound: nat, v: Option<ValType>): Option<ConcVal>
    requires Shaped(w, rank) && k < |w|
    decreases k, bound, 2
  {
    match v
    case None => None
    case Some(ty) => Some(ConcValType(w, rank, names, k, bound, ty))
  }

  function ConcFields(w: World, rank: Ranks, names: Names, k: nat, bound: nat,
                      fs: seq<(string, ValType)>): (r: seq<(string, ConcVal)>)
    requires Shaped(w, rank) && k < |w|
    ensures |r| == |fs|
    decreases k, bound, 2
  {
    seq(|fs|, i requires 0 <= i < |fs| => (fs[i].0, ConcValType(w, rank, names, k, bound, fs[i].1)))
  }

  function ConcCases(w: World, rank: Ranks, names: Names, k: nat, bound: nat,
                     cs: seq<(string, Option<ValType>)>): (r: seq<(string, Option<ConcVal>)>)
    requires Shaped(w, rank) && k < |w|
    ensures |r| == |cs|
    decreases k, bound, 3
  {
    seq(|cs|, i requires 0 <= i < |cs| => (cs[i].0, ConcOptional(w, rank, names, k, bound, cs[i].1)))
  }

  function ConcElems(w: World, rank: Ranks, names: Names, k: nat, bound: nat, vs: seq<ValType>): (r: seq<ConcVal>)
    requires Shaped(w, rank) && k < |w|
    ensures |r| == |vs|
    decreases k, bound, 2
  {
    seq(|vs|, i requires 0 <= i < |vs| => ConcValType(w, rank, names, k, bound, vs[i]))
  }

  function ConcDefined(w: World, rank: Ranks, names: Names, k: nat, bound: nat, t: DefinedType): ConcVal
    requires Shaped(w, rank) && k < |w|
    decreases k, bound, 4
  {
    match t
    case PrimitiveType(p) => ConcPrimitive(p)
    case Record(fields) => ConcRecord(ConcFields(w, rank, names, k, bound, fields))
    case Variant(cases) => ConcVariant(ConcCases(w, rank, names, k, bound, cases))
    case List(ty) => ConcList(ConcValType(w, rank, names, k, bound, ty))
    case FixedLengthList(ty, len) => ConcFixedLengthList(ConcValType(w, rank, names, k, bound, ty), len)
    case Tuple(tys) => ConcTuple(ConcElems(w, rank, names, k, bound, tys))
    case Flags(names) => ConcFlags(names)
    case Enum(names) => ConcEnum(names)
    case OptionOf(ty) => ConcOption(ConcValType(w, rank, names, k, bound, ty))
    case ResultOf(ok, err) =>
      ConcResult(ConcOptional(w, rank, names, k, bound, ok), ConcOptional(w, rank, names, k, bound, err))
    case Own(i) => ConcHandle(w, names, k, i)
    case Borrow(i) => ConcHandle(w, names, k, i)
    case Future(_) => AsyncHandle
    case Stream(_) => AsyncHandle
    case MapOf(key, val) =>
      ConcMap(ConcValType(w, rank, names, k, bound, key), ConcValType(w, rank, names, k, bound, val))
  }

  /** The signature of a function type living at level `k`. */
  function ConcSignature(w: World, rank: Ranks, names: Names, k: nat, bound: nat, f: FuncType): ConcFunc
    requires Shaped(w, rank) && k < |w|
  {
    ConcFunc(f.isAsync, ConcFields(w, rank, names, k, bound, f.params),
             ConcOptional(w, rank, names, k, bound, f.result))
  }
}
