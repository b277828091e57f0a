/** The reference-bearing nodes of the IR. Names, primitive kinds and numeric core types are
    carried along unread; every index is an assumed id of some space. */
module Types {
  import opened Prelude
  import opened Spaces

  // Component-level types

  datatype ValType = Primitive(prim: nat) | Type(index: nat)

  datatype DefinedType =
    | PrimitiveType(prim: nat)
    | Record(fields: seq<(string, ValType)>)
    | Variant(cases: seq<(string, Option<ValType>)>)
    | List(elem: ValType)
    | FixedLengthList(elem: ValType, len: nat)
    | Tuple(elems: seq<ValType>)
    | Flags(names: seq<string>)
    | Enum(names: seq<string>)
    | OptionOf(elem: ValType)
    | ResultOf(ok: Option<ValType>, err: Option<ValType>)
    | Own(resource: nat)
    | Borrow(resource: nat)
    | Future(payload: Option<ValType>)
    | Stream(payload: Option<ValType>)
    | MapOf(key: ValType, val: ValType)

  datatype FuncType = FuncType(isAsync: bool, params: seq<(string, ValType)>, result: Option<ValType>)

  datatype TypeBounds = Eq(index: nat) | SubResource

  datatype TypeRef =
    | ModuleRef(index: nat) | FuncRef(index: nat) | InstanceRef(index: nat) | ComponentRef(index: nat)
    | ValueRef(ty: ValType)
    | TypeRefBound(bounds: TypeBounds)

  // Core types

  datatype CoreVal = Num(kind: nat) | RefAbstract(nullable: bool, kind: nat) | RefConcrete(nullable: bool, index: nat)

  datatype CoreComposite =
    | CoreFuncType(params: seq<CoreVal>, results: seq<CoreVal>)
    | CoreStructType(fields: seq<CoreVal>)

  datatype SubType = SubType(isFinal: bool, super: Option<nat>, inner: CoreComposite)

  datatype CoreTypeRef = CoreFuncRef(index: nat) | CoreTagRef(index: nat) | CoreOther(kind: nat)

  /** A type without a body of its own. */
  datatype LeafType = Defined(def: DefinedType) | Func(func: FuncType) | Resource(rep: CoreVal, dtor: Option<nat>)

  // Aliases, imports, exports, instances, canonical functions

  datatype ExternalKind = ModuleKind | FuncKind | ValueKind | TypeKind | InstanceKind | ComponentKind

  datatype CoreKind = CoreFuncKind | CoreTableKind | CoreMemoryKind | CoreGlobalKind | CoreTagKind

  datatype OuterKind = OuterModule | OuterCoreType | OuterType | OuterComponent

  datatype Alias =
    | InstanceExport(kind: ExternalKind, instance: nat, name: string)
    | CoreInstanceExport(coreKind: CoreKind, instance: nat, name: string)
    | Outer(outerKind: OuterKind, count: nat, index: nat)

  datatype ImportItem = ImportItem(name: string, ty: TypeRef)

  datatype ExportItem = ExportItem(name: string, kind: ExternalKind, index: nat, ty: Option<TypeRef>)

  datatype CompArg = CompArg(name: string, kind: ExternalKind, index: nat)

  datatype CompInstance = Instantiate(component: nat, args: seq<CompArg>) | FromExports(exports: seq<ExportItem>)

  datatype CoreArg = CoreArg(name: string, instance: nat)

  datatype CoreExport = CoreExport(name: string, kind: CoreKind, index: nat)

  datatype CoreInstance = CoreInstantiate(mod: nat, args: seq<CoreArg>) | CoreFromExports(exports: seq<CoreExport>)

  datatype CanonOption =
    | Plain(flag: nat) | Memory(index: nat) | Realloc(index: nat) | PostReturn(index: nat) | Callback(index: nat)
    | CoreTypeOption(index: nat)

  /** One canonical function per shape of reference list. */
  datatype Canon =
    | Lift(coreFunc: nat, ty: nat, options: seq<CanonOption>)
    | Lower(func: nat, options: seq<CanonOption>)
    | ResourceNew(resource: nat)
    | TaskReturn(result: Option<ValType>, options: seq<CanonOption>)
    | StreamRead(ty: nat, options: seq<CanonOption>)
    | WaitableSetWait(cancellable: bool, memory: nat)
    | ThreadNewIndirect(funcTy: nat, table: nat)
    | ContextGet(slot: nat)

  datatype StartFunc = StartFunc(func: nat, args: seq<nat>, results: nat)

  // The space each node occupies or points into

  function ExternalSpace(kind: ExternalKind): Space {
    match kind
    case ModuleKind => Space.CoreModule
    case FuncKind => Space.CompFunc
    case ValueKind => Space.CompVal
    case TypeKind => Space.CompType
    case InstanceKind => Space.CompInst
    case ComponentKind => Space.Comp
  }

  function CoreKindSpace(kind: CoreKind): Space {
    match kind
    case CoreFuncKind => Space.CoreFunc
    case CoreTableKind => Space.CoreTable
    case CoreMemoryKind => Space.CoreMemory
    case CoreGlobalKind => Space.CoreGlobal
    case CoreTagKind => Space.CoreTag
  }

  function OuterSpace(kind: OuterKind): Space {
    match kind
    case OuterModule => Space.CoreModule
    case OuterCoreType => Space.CoreType
    case OuterType => Space.CompType
    case OuterComponent => Space.Comp
  }

  function AliasSpace(a: Alias): Space {
    match a
    case InstanceExport(kind, _, _) => ExternalSpace(kind)
    case CoreInstanceExport(kind, _, _) => CoreKindSpace(kind)
    case Outer(kind, _, _) => OuterSpace(kind)
  }

  /** The space of the item a type reference introduces, not the one its index points into. */
  function TypeRefItemSpace(t: TypeRef): Space {
    match t
    case ModuleRef(_) => Space.CoreModule
    case FuncRef(_) => Space.CompFunc
    case InstanceRef(_) => Space.CompInst
    case ComponentRef(_) => Space.Comp
    case ValueRef(_) => Space.CompVal
    case TypeRefBound(_) => Space.CompType
  }
}
