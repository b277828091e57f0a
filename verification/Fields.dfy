/** Rewriting, field by field. The extractors and the rewriting share what they take a field to
    be; here every index field is written out once more with the space it counts in, and what is
    looked up is tied to what is encoded. */
module Fields {
  import opened Prelude
  import opened Spaces
  import opened Types
  import opened FixIndices
  import opened ActualIds
  import opened Reindex
  import opened TypeTrees
  import opened Encoder

  // ------------------------------------------------------------------------------------
  // Rewriting without extractors
  // ------------------------------------------------------------------------------------

  /** The numbers seen by an item that is encoded below the scopes of a stack. */
  datatype Numbers = Numbers(es: seq<Emission>, stack: seq<ScopeId>) {
    /** What index `i` of a space becomes, in the scope `depth` levels out. */
    function At(depth: nat, space: Space, i: nat): nat {
      if depth < |stack| then ActualOf(es, stack[|stack| - 1 - depth], space, i) else 0
    }
  }

  function Rho(at: Numbers): Renaming { RenamingAt(at.es, at.stack) }

  function ValIn(at: Numbers): ValType -> ValType {
    (v: ValType) => match v
      case Primitive(_) => v
      case Type(i) => Type(at.At(0, Space.CompType, i))
  }

  function OptValIn(at: Numbers, v: Option<ValType>): Option<ValType> {
    match v
    case None => None
    case Some(ty) => Some(ValIn(at)(ty))
  }

  function FieldIn(at: Numbers): ((string, ValType)) -> (string, ValType) {
    (f: (string, ValType)) => (f.0, ValIn(at)(f.1))
  }

  function CaseIn(at: Numbers): ((string, Option<ValType>)) -> (string, Option<ValType>) {
    (c: (string, Option<ValType>)) => (c.0, OptValIn(at, c.1))
  }

  function DefinedIn(at: Numbers, t: DefinedType): DefinedType {
    match t
    case PrimitiveType(_) => t
    case Flags(_) => t
    case Enum(_) => t
    case Record(fields) => Record(Map(FieldIn(at), fields))
    case Variant(cases) => Variant(Map(CaseIn(at), cases))
    case Tuple(elems) => Tuple(Map(ValIn(at), elems))
    case List(elem) => List(ValIn(at)(elem))
    case FixedLengthList(elem, len) => FixedLengthList(ValIn(at)(elem), len)
    case OptionOf(elem) => OptionOf(ValIn(at)(elem))
    case ResultOf(ok, err) => ResultOf(OptValIn(at, ok), OptValIn(at, err))
    case Own(resource) => Own(at.At(0, Space.CompType, resource))
    case Borrow(resource) => Borrow(at.At(0, Space.CompType, resource))
    case Future(payload) => Future(OptValIn(at, payload))
    case Stream(payload) => Stream(OptValIn(at, payload))
    case MapOf(key, val) => MapOf(ValIn(at)(key), ValIn(at)(val))
  }

  function FuncIn(at: Numbers, t: FuncType): FuncType {
    FuncType(t.isAsync, Map(FieldIn(at), t.params), OptValIn(at, t.result))
  }

  function CoreValIn(at: Numbers): CoreVal -> CoreVal {
    (v: CoreVal) => match v
      case Num(_) => v
      case RefAbstract(_, _) => v
      case RefConcrete(nullable, i) => RefConcrete(nullable, at.At(0, Space.CoreType, i))
  }

  function SubTypeIn(at: Numbers, t: SubType): SubType {
    SubType(t.isFinal,
            match t.super case None => None case Some(i) => Some(at.At(0, Space.CoreType, i)),
            match t.inner
            case CoreFuncType(params, results) => CoreFuncType(Map(CoreValIn(at), params), Map(CoreValIn(at), results))
            case CoreStructType(fields) => CoreStructType(Map(CoreValIn(at), fields)))
  }

  function CoreTypeRefIn(at: Numbers, t: CoreTypeRef): CoreTypeRef {
    match t
    case CoreFuncRef(i) => CoreFuncRef(at.At(0, Space.CoreType, i))
    case CoreTagRef(i) => CoreTagRef(at.At(0, Space.CoreType, i))
    case CoreOther(_) => t
  }

  function LeafIn(at: Numbers, t: LeafType): LeafType {
    match t
    case Defined(def) => Defined(DefinedIn(at, def))
    case Func(f) => Func(FuncIn(at, f))
    case Resource(rep, None) => Resource(CoreValIn(at)(rep), None)
    case Resource(rep, Some(dtor)) => Resource(CoreValIn(at)(rep), Some(at.At(0, Space.CoreFunc, dtor)))
  }

  function TypeRefIn(at: Numbers, t: TypeRef): TypeRef {
    match t
    case ModuleRef(i) => ModuleRef(at.At(0, Space.CoreType, i))
    case FuncRef(i) => FuncRef(at.At(0, Space.CompType, i))
    case InstanceRef(i) => InstanceRef(at.At(0, Space.CompType, i))
    case ComponentRef(i) => ComponentRef(at.At(0, Space.CompType, i))
    case ValueRef(ty) => ValueRef(ValIn(at)(ty))
    case TypeRefBound(_) => t
  }

  function AliasIn(at: Numbers, a: Alias): Alias {
    match a
    case InstanceExport(kind, i, name) => InstanceExport(kind, at.At(0, Space.CompInst, i), name)
    case CoreInstanceExport(kind, i, name) => CoreInstanceExport(kind, at.At(0, Space.CoreInst, i), name)
    case Outer(OuterModule, count, i) => Outer(OuterModule, count, at.At(count, Space.CoreModule, i))
    case Outer(OuterCoreType, count, i) => Outer(OuterCoreType, count, at.At(count, Space.CoreType, i))
    case Outer(OuterType, count, i) => Outer(OuterType, count, at.At(count, Space.CompType, i))
    case Outer(OuterComponent, count, i) => Outer(OuterComponent, count, at.At(count, Space.Comp, i))
  }

  /** An index of the component's own scope, of the kind it is imported or exported as. */
  function ExternalIn(at: Numbers, kind: ExternalKind, i: nat): nat {
    match kind
    case ModuleKind => at.At(0, Space.CoreModule, i)
    case FuncKind => at.At(0, Space.CompFunc, i)
    case ValueKind => at.At(0, Space.CompVal, i)
    case TypeKind => at.At(0, Space.CompType, i)
    case InstanceKind => at.At(0, Space.CompInst, i)
    case ComponentKind => at.At(0, Space.Comp, i)
  }

  function CoreExternalIn(at: Numbers, kind: CoreKind, i: nat): nat {
    match kind
    case CoreFuncKind => at.At(0, Space.CoreFunc, i)
    case CoreTableKind => at.At(0, Space.CoreTable, i)
    case CoreMemoryKind => at.At(0, Space.CoreMemory, i)
    case CoreGlobalKind => at.At(0, Space.CoreGlobal, i)
    case CoreTagKind => at.At(0, Space.CoreTag, i)
  }

  function ExportIn(at: Numbers): ExportItem -> ExportItem {
    (e: ExportItem) => ExportItem(e.name, e.kind, ExternalIn(at, e.kind, e.index),
                                  match e.ty case None => None case Some(t) => Some(TypeRefIn(at, t)))
  }

  function CompArgIn(at: Numbers): CompArg -> CompArg {
    (a: CompArg) => CompArg(a.name, a.kind, ExternalIn(at, a.kind, a.index))
  }

  function CompInstanceIn(at: Numbers, i: CompInstance): CompInstance {
    match i
    case Instantiate(c, args) => Instantiate(at.At(0, Space.Comp, c), Map(CompArgIn(at), args))
    case FromExports(exports) => FromExports(Map(ExportIn(at), exports))
  }

  function CoreArgIn(at: Numbers): CoreArg -> CoreArg {
    (a: CoreArg) => CoreArg(a.name, at.At(0, Space.CoreInst, a.instance))
  }

  function CoreExportIn(at: Numbers): CoreExport -> CoreExport {
    (e: CoreExport) => CoreExport(e.name, e.kind, CoreExternalIn(at, e.kind, e.index))
  }

  function CoreInstanceIn(at: Numbers, i: CoreInstance): CoreInstance {
    match i
    case CoreInstantiate(m, args) => CoreInstantiate(at.At(0, Space.CoreModule, m), Map(CoreArgIn(at), args))
    case CoreFromExports(exports) => CoreFromExports(Map(CoreExportIn(at), exports))
  }

  function OptionIn(at: Numbers): CanonOption -> CanonOption {
    (o: CanonOption) => match o
      case Plain(_) => o
      case Memory(i) => Memory(at.At(0, Space.CoreMemory, i))
      case Realloc(i) => Realloc(at.At(0, Space.CoreFunc, i))
      case PostReturn(i) => PostReturn(at.At(0, Space.CoreFunc, i))
      case Callback(i) => Callback(at.At(0, Space.CoreFunc, i))
      case CoreTypeOption(i) => CoreTypeOption(at.At(0, Space.CoreType, i))
  }

  function CanonIn(at: Numbers, c: Canon): Canon {
    match c
    case Lift(f, t, os) => Lift(at.At(0, Space.CoreFunc, f), at.At(0, Space.CompType, t), Map(OptionIn(at), os))
    case Lower(f, os) => Lower(at.At(0, Space.CompFunc, f), Map(OptionIn(at), os))
    case ResourceNew(t) => ResourceNew(at.At(0, Space.CompType, t))
    case TaskReturn(result, os) => TaskReturn(OptValIn(at, result), Map(OptionIn(at), os))
    case StreamRead(t, os) => StreamRead(at.At(0, Space.CompType, t), Map(OptionIn(at), os))
    case WaitableSetWait(cancellable, m) => WaitableSetWait(cancellable, at.At(0, Space.CoreMemory, m))
    case ThreadNewIndirect(t, table) => ThreadNewIndirect(at.At(0, Space.CoreType, t), at.At(0, Space.CoreTable, table))
    case ContextGet(_) => c
  }

  function ArgIn(at: Numbers): nat -> nat {
    (v: nat) => at.At(0, Space.CompVal, v)
  }

  function StartIn(at: Numbers, s: StartFunc): StartFunc {
    StartFunc(at.At(0, Space.CompFunc, s.func), Map(ArgIn(at), s.args), s.results)
  }

  /** What an item of a component is emitted as; a resource it defines comes out as it stands. */
  function ItemIn(at: Numbers, x: Item): Item {
    match x
    case LeafItem(t) => if t.Resource? then x else LeafItem(LeafIn(at, t))
    case SubTypeItem(t) => SubTypeItem(SubTypeIn(at, t))
    case AliasItem(a) => AliasItem(AliasIn(at, a))
    case ImportedItem(i) => ImportedItem(ImportItem(i.name, TypeRefIn(at, i.ty)))
    case ExportedItem(e) => ExportedItem(ExportIn(at)(e))
    case CompInstanceItem(i) => CompInstanceItem(CompInstanceIn(at, i))
    case CoreInstanceItem(i) => CoreInstanceItem(CoreInstanceIn(at, i))
    case CanonItem(c) => CanonItem(CanonIn(at, c))
    case StartItem(s) => StartItem(StartIn(at, s))
  }

  // ------------------------------------------------------------------------------------
  // The two ways of rewriting agree
  // ------------------------------------------------------------------------------------

  lemma Reads(at: Numbers, r: IndexedRef)
    ensures Rho(at)(r) == at.At(r.depth, r.space, r.index)
  {
  }

  lemma SameMap<A, B>(f: A -> B, g: A -> B, s: seq<A>)
    requires forall x :: x in s ==> f(x) == g(x)
    ensures Map(f, s) == Map(g, s)
  {
    forall i | 0 <= i < |s| ensures Map(f, s)[i] == Map(g, s)[i] { assert s[i] in s; }
  }

  lemma HereReads(at: Numbers, space: Space, i: nat)
    ensures Rho(at)(Here(space, i)) == at.At(0, space, i)
  {
    Reads(at, Here(space, i));
  }

  lemma ValField(at: Numbers, v: ValType)
    ensures FixVal(Rho(at))(v) == ValIn(at)(v)
  {
    if v.Type? {
      assert ValRefs(v)[0] == Here(Space.CompType, v.index);
      HereReads(at, Space.CompType, v.index);
    }
  }

  lemma OptValField(at: Numbers, v: Option<ValType>)
    ensures v.Map(FixVal(Rho(at))) == OptValIn(at, v)
  {
    if v.Some? { ValField(at, v.value); }
  }

  lemma FieldsField(at: Numbers, fields: seq<(string, ValType)>)
    ensures Map(FixField(Rho(at)), fields) == Map(FieldIn(at), fields)
  {
    forall f | f in fields ensures FixField(Rho(at))(f) == FieldIn(at)(f) { ValField(at, f.1); }
    SameMap(FixField(Rho(at)), FieldIn(at), fields);
  }

  lemma CasesField(at: Numbers, cases: seq<(string, Option<ValType>)>)
    ensures Map(FixCase(Rho(at)), cases) == Map(CaseIn(at), cases)
  {
    forall c | c in cases ensures FixCase(Rho(at))(c) == CaseIn(at)(c) { OptValField(at, c.1); }
    SameMap(FixCase(Rho(at)), CaseIn(at), cases);
  }

  lemma DefinedFields(at: Numbers, t: DefinedType)
    ensures FixDefined(Rho(at), t) == DefinedIn(at, t)
  {
    match t {
      case Record(fields) => FieldsField(at, fields);
      case Variant(cases) => CasesField(at, cases);
      case Tuple(elems) =>
        forall v | v in elems ensures FixVal(Rho(at))(v) == ValIn(at)(v) { ValField(at, v); }
        SameMap(FixVal(Rho(at)), ValIn(at), elems);
      case List(elem) => ValField(at, elem);
      case FixedLengthList(elem, _) => ValField(at, elem);
      case OptionOf(elem) => ValField(at, elem);
      case ResultOf(ok, err) =>
        OptValField(at, ok);
        OptValField(at, err);
      case Own(resource) => HereReads(at, Space.CompType, resource);
      case Borrow(resource) => HereReads(at, Space.CompType, resource);
      case Future(payload) => OptValField(at, payload);
      case Stream(payload) => OptValField(at, payload);
      case MapOf(key, val) =>
        ValField(at, key);
        ValField(at, val);
      case _ =>
    }
  }

  lemma FuncFields(at: Numbers, t: FuncType)
    ensures FixFunc(Rho(at), t) == FuncIn(at, t)
  {
    FieldsField(at, t.params);
    OptValField(at, t.result);
  }

  lemma CoreValField(at: Numbers, v: CoreVal)
    ensures FixCoreVal(Rho(at))(v) == CoreValIn(at)(v)
  {
    match v {
      case RefConcrete(nullable, i) =>
        assert CoreValRefs(v) == [Here(Space.CoreType, i)];
        HereReads(at, Space.CoreType, i);
      case _ => assert CoreValRefs(v) == [];
    }
  }

  lemma CoreValsField(at: Numbers, vs: seq<CoreVal>)
    ensures Map(FixCoreVal(Rho(at)), vs) == Map(CoreValIn(at), vs)
  {
    forall v | v in vs ensures FixCoreVal(Rho(at))(v) == CoreValIn(at)(v) { CoreValField(at, v); }
    SameMap(FixCoreVal(Rho(at)), CoreValIn(at), vs);
  }

  lemma LeafFields(at: Numbers, t: LeafType)
    ensures FixLeaf(Rho(at), t) == LeafIn(at, t)
  {
    match t {
      case Defined(def) => DefinedFields(at, def);
      case Func(f) => FuncFields(at, f);
      case Resource(rep, dtor) =>
        CoreValField(at, rep);
        if dtor.Some? { HereReads(at, Space.CoreFunc, dtor.value); }
    }
  }

  lemma SubTypeFields(at: Numbers, t: SubType)
    ensures FixSubType(Rho(at), t) == SubTypeIn(at, t)
  {
    if t.super.Some? {
      assert SubTypeRefs(t)[0] == Here(Space.CoreType, t.super.value);
      HereReads(at, Space.CoreType, t.super.value);
    }
    match t.inner {
      case CoreFuncType(params, results) =>
        CoreValsField(at, params);
        CoreValsField(at, results);
      case CoreStructType(fields) => CoreValsField(at, fields);
    }
  }

  lemma CoreTypeRefFields(at: Numbers, t: CoreTypeRef)
    ensures FixCoreTypeRef(Rho(at), t) == CoreTypeRefIn(at, t)
  {
    if !t.CoreOther? { HereReads(at, Space.CoreType, t.index); }
  }

  lemma TypeRefFields(at: Numbers, t: TypeRef)
    ensures FixTypeRef(Rho(at), t) == TypeRefIn(at, t)
  {
    match t {
      case ModuleRef(i) => HereReads(at, Space.CoreType, i);
      case FuncRef(i) => HereReads(at, Space.CompType, i);
      case InstanceRef(i) => HereReads(at, Space.CompType, i);
      case ComponentRef(i) => HereReads(at, Space.CompType, i);
      case ValueRef(ty) => ValField(at, ty);
      case TypeRefBound(_) =>
    }
  }

  lemma AliasFields(at: Numbers, a: Alias)
    ensures FixAlias(Rho(at), a) == AliasIn(at, a)
  {
    Reads(at, AliasRef(a));
  }

  lemma ExternalField(at: Numbers, kind: ExternalKind, i: nat)
    ensures Rho(at)(Here(ExternalSpace(kind), i)) == ExternalIn(at, kind, i)
  {
    HereReads(at, ExternalSpace(kind), i);
  }

  lemma ExportField(at: Numbers, e: ExportItem)
    ensures FixExport(Rho(at))(e) == ExportIn(at)(e)
  {
    assert ExportItemRef(e)[0] == Here(ExternalSpace(e.kind), e.index);
    ExternalField(at, e.kind, e.index);
    if e.ty.Some? { TypeRefFields(at, e.ty.value); }
  }

  lemma CompInstanceFields(at: Numbers, i: CompInstance)
    ensures FixCompInstance(Rho(at), i) == CompInstanceIn(at, i)
  {
    match i {
      case Instantiate(c, args) =>
        assert CompInstanceRefs(i)[0] == Here(Space.Comp, c);
        HereReads(at, Space.Comp, c);
        forall a | a in args ensures FixCompArg(Rho(at))(a) == CompArgIn(at)(a) {
          assert CompArgRefs(a)[0] == Here(ExternalSpace(a.kind), a.index);
          ExternalField(at, a.kind, a.index);
        }
        SameMap(FixCompArg(Rho(at)), CompArgIn(at), args);
      case FromExports(exports) =>
        forall e | e in exports ensures FixExport(Rho(at))(e) == ExportIn(at)(e) { ExportField(at, e); }
        SameMap(FixExport(Rho(at)), ExportIn(at), exports);
    }
  }

  lemma CoreExportField(at: Numbers, e: CoreExport)
    ensures FixCoreExport(Rho(at))(e) == CoreExportIn(at)(e)
  {
    assert CoreExportRefs(e)[0] == Here(CoreKindSpace(e.kind), e.index);
    HereReads(at, CoreKindSpace(e.kind), e.index);
  }

  lemma CoreInstanceFields(at: Numbers, i: CoreInstance)
    ensures FixCoreInstance(Rho(at), i) == CoreInstanceIn(at, i)
  {
    match i {
      case CoreInstantiate(m, args) =>
        assert CoreInstanceRefs(i)[0] == Here(Space.CoreModule, m);
        HereReads(at, Space.CoreModule, m);
        forall a | a in args ensures FixCoreArg(Rho(at))(a) == CoreArgIn(at)(a) {
          assert CoreArgRefs(a)[0] == Here(Space.CoreInst, a.instance);
          HereReads(at, Space.CoreInst, a.instance);
        }
        SameMap(FixCoreArg(Rho(at)), CoreArgIn(at), args);
      case CoreFromExports(exports) =>
        forall e | e in exports ensures FixCoreExport(Rho(at))(e) == CoreExportIn(at)(e) { CoreExportField(at, e); }
        SameMap(FixCoreExport(Rho(at)), CoreExportIn(at), exports);
    }
  }

  lemma OptionField(at: Numbers, o: CanonOption)
    ensures FixOption(Rho(at))(o) == OptionIn(at)(o)
  {
    match o {
      case Memory(i) =>
        assert OptionMemRefs(o)[0] == Here(Space.CoreMemory, i);
        HereReads(at, Space.CoreMemory, i);
      case CoreTypeOption(i) =>
        assert OptionTypeRefs(o)[0] == Here(Space.CoreType, i);
        HereReads(at, Space.CoreType, i);
      case Plain(_) =>
      case _ =>
        assert OptionFuncRefs(o)[0] == Here(Space.CoreFunc, o.index);
        HereReads(at, Space.CoreFunc, o.index);
    }
  }

  lemma OptionsField(at: Numbers, os: seq<CanonOption>)
    ensures Map(FixOption(Rho(at)), os) == Map(OptionIn(at), os)
  {
    forall o | o in os ensures FixOption(Rho(at))(o) == OptionIn(at)(o) { OptionField(at, o); }
    SameMap(FixOption(Rho(at)), OptionIn(at), os);
  }

  lemma CanonFields(at: Numbers, c: Canon)
    ensures FixCanon(Rho(at), c) == CanonIn(at, c)
  {
    OptionsField(at, CanonOptions(c));
    match c {
      case Lift(f, t, _) =>
        HereReads(at, Space.CoreFunc, f);
        HereReads(at, Space.CompType, t);
      case Lower(f, _) => HereReads(at, Space.CompFunc, f);
      case ResourceNew(t) => HereReads(at, Space.CompType, t);
      case TaskReturn(result, _) => OptValField(at, result);
      case StreamRead(t, _) => HereReads(at, Space.CompType, t);
      case WaitableSetWait(_, m) => HereReads(at, Space.CoreMemory, m);
      case ThreadNewIndirect(t, table) =>
        HereReads(at, Space.CoreType, t);
        HereReads(at, Space.CoreTable, table);
      case ContextGet(_) =>
    }
  }

  lemma StartFields(at: Numbers, s: StartFunc)
    ensures FixStart(Rho(at), s) == StartIn(at, s)
  {
    HereReads(at, Space.CompFunc, s.func);
    forall v | v in s.args ensures FixArg(Rho(at))(v) == ArgIn(at)(v) {
      assert ArgRef(v)[0] == Here(Space.CompVal, v);
      HereReads(at, Space.CompVal, v);
    }
    SameMap(FixArg(Rho(at)), ArgIn(at), s.args);
  }

  lemma EmissionIsDirect(at: Numbers, x: Item)
    ensures EmitItem(Rho(at), x) == ItemIn(at, x)
  {
    match x {
      case LeafItem(t) => LeafFields(at, t);
      case SubTypeItem(t) => SubTypeFields(at, t);
      case AliasItem(a) => AliasFields(at, a);
      case ImportedItem(i) => TypeRefFields(at, i.ty);
      case ExportedItem(e) => ExportField(at, e);
      case CompInstanceItem(i) => CompInstanceFields(at, i);
      case CoreInstanceItem(i) => CoreInstanceFields(at, i);
      case CanonItem(c) => CanonFields(at, c);
      case StartItem(s) => StartFields(at, s);
    }
  }

  /** Every field of every item, its space written out: an item encoded below the scopes of
      `stack` gets, for an index of its own scope, the number that index has in the innermost
      scope of the stack; an outer alias the number in the scope as many levels out as it says. */
  lemma EveryFieldInItsSpace(es: seq<Emission>, stack: seq<ScopeId>, x: Item)
    ensures EmitItem(RenamingAt(es, stack), x) == ItemIn(Numbers(es, stack), x)
  {
    EmissionIsDirect(Numbers(es, stack), x);
  }

  // ------------------------------------------------------------------------------------
  // Inside type bodies
  // ------------------------------------------------------------------------------------

  function ModuleDeclIn(at: Numbers, d: ModuleDecl): seq<EncModuleDecl> {
    match d
    case ModuleTypes(group) =>
      if group.isExplicit then [EncModuleRec(Map(t => SubTypeIn(at, t), group.subs))]
      else Map(t => EncModuleSub(SubTypeIn(at, t)), group.subs)
    case ModuleImport(mod, name, ty) => [EncModuleImport(mod, name, CoreTypeRefIn(at, ty))]
    case ModuleExport(name, ty) => [EncModuleExport(name, CoreTypeRefIn(at, ty))]
    case ModuleOuterAlias(count, i) => [EncModuleAlias(count, at.At(count, Space.CoreType, i))]
  }

  /** A declaration of a module type: a group keeps its brackets, its types come out one by one
      otherwise. */
  lemma ModuleDeclFields(es: seq<Emission>, stack: seq<ScopeId>, d: ModuleDecl)
    ensures EncModuleDeclOf(RenamingAt(es, stack), d) == ModuleDeclIn(Numbers(es, stack), d)
  {
    var at := Numbers(es, stack);
    match d {
      case ModuleTypes(group) => GroupFields(at, group);
      case ModuleImport(_, _, ty) => CoreTypeRefFields(at, ty);
      case ModuleExport(_, ty) => CoreTypeRefFields(at, ty);
      case ModuleOuterAlias(count, i) => Reads(at, IndexedRef(count, Space.CoreType, i));
    }
  }

  lemma GroupFields(at: Numbers, group: RecGroup)
    ensures EncModuleDeclOf(Rho(at), ModuleTypes(group)) == ModuleDeclIn(at, ModuleTypes(group))
  {
    var subs := FixSubs(Rho(at), group.subs);
    forall i | 0 <= i < |subs| ensures subs[i] == SubTypeIn(at, group.subs[i]) { SubTypeFields(at, group.subs[i]); }
    if group.isExplicit {
      assert subs == Map(t => SubTypeIn(at, t), group.subs);
    } else {
      assert Map(s => EncModuleSub(s), subs) == Map(t => EncModuleSub(SubTypeIn(at, t)), group.subs);
    }
  }

  /** A type without a body inside a type body: rewritten twice, a resource once. */
  lemma NestedLeafFields(es: seq<Emission>, stack: seq<ScopeId>, leaf: LeafType)
    ensures var at, fixed := Numbers(es, stack), FixNestedLeaf(RenamingAt(es, stack), leaf);
            if leaf.Resource? then fixed == LeafIn(at, leaf) else fixed == LeafIn(at, LeafIn(at, leaf))
  {
    var at := Numbers(es, stack);
    LeafFields(at, leaf);
    LeafFields(at, LeafIn(at, leaf));
  }

  /** The other declarations of a type body, below the scopes the body is in. */
  lemma DeclFields(env: Env, stack: seq<ScopeId>, d: Decl, path: Path)
    ensures d.AliasDecl? ==> EncDeclOf(env, stack, d, path) == [EncAlias(AliasIn(Numbers(env.es, stack), d.als))]
    ensures d.ExportDecl? ==>
              EncDeclOf(env, stack, d, path) == [EncExport(d.name, TypeRefIn(Numbers(env.es, stack), d.ref))]
    ensures d.ImportDecl? ==>
              EncDeclOf(env, stack, d, path) == [EncImport(d.name, TypeRefIn(Numbers(env.es, stack), d.ref))]
  {
    match d {
      case AliasDecl(a) => AliasFields(Numbers(env.es, stack), a);
      case ExportDecl(_, ty) => TypeRefFields(Numbers(env.es, stack), ty);
      case ImportDecl(_, ty) => TypeRefFields(Numbers(env.es, stack), ty);
      case _ =>
    }
  }

  // ------------------------------------------------------------------------------------
  // The order in which an item reports its references, which decides what is collected first
  // ------------------------------------------------------------------------------------

  lemma {:induction false} OneEach<T>(refs: T -> seq<IndexedRef>, one: T -> IndexedRef, s: seq<T>)
    requires forall x :: x in s ==> refs(x) == [one(x)]
    ensures FlatMap(refs, s) == Map(one, s)
  {
    if s != [] {
      OneEach(refs, one, s[1..]);
      assert Map(one, s) == [one(s[0])] + Map(one, s[1..]);
    }
  }

  lemma {:induction false} FlatMapConcat<A, B>(f: A -> seq<B>, s: seq<A>, t: seq<A>)
    ensures FlatMap(f, s + t) == FlatMap(f, s) + FlatMap(f, t)
  {
    if s == [] {
      assert s + t == t;
    } else {
      assert (s + t)[1..] == s[1..] + t;
      FlatMapConcat(f, s[1..], t);
      ConcatAssoc(f(s[0]), FlatMap(f, s[1..]), FlatMap(f, t));
    }
  }

  /** An instantiation reports what it instantiates, then its arguments in order. */
  lemma InstantiationsListed(c: nat, args: seq<CompArg>, m: nat, coreArgs: seq<CoreArg>)
    ensures CompInstanceRefs(Instantiate(c, args))
         == [IndexedRef(0, Space.Comp, c)] + Map((a: CompArg) => IndexedRef(0, ExternalSpace(a.kind), a.index), args)
    ensures CoreInstanceRefs(CoreInstantiate(m, coreArgs))
         == [IndexedRef(0, Space.CoreModule, m)]
          + Map((a: CoreArg) => IndexedRef(0, Space.CoreInst, a.instance), coreArgs)
  {
    OneEach(CompArgRefs, (a: CompArg) => IndexedRef(0, ExternalSpace(a.kind), a.index), args);
    OneEach(CoreArgRefs, (a: CoreArg) => IndexedRef(0, Space.CoreInst, a.instance), coreArgs);
  }

  /** An instance made of exports reports them in order. */
  lemma InlineExportsListed(exports: seq<ExportItem>, coreExports: seq<CoreExport>)
    ensures CompInstanceRefs(FromExports(exports))
         == Map((e: ExportItem) => IndexedRef(0, ExternalSpace(e.kind), e.index), exports)
    ensures CoreInstanceRefs(CoreFromExports(coreExports))
         == Map((e: CoreExport) => IndexedRef(0, CoreKindSpace(e.kind), e.index), coreExports)
  {
    OneEach(ExportItemRef, (e: ExportItem) => IndexedRef(0, ExternalSpace(e.kind), e.index), exports);
    OneEach(CoreExportRefs, (e: CoreExport) => IndexedRef(0, CoreKindSpace(e.kind), e.index), coreExports);
  }

  /** A start function reports the function, then its arguments in order; an export its
      ascription, then the item. */
  lemma StartsAndExportsListed(s: StartFunc, e: ExportItem)
    ensures StartRefs(s)
         == [IndexedRef(0, Space.CompFunc, s.func)] + Map((v: nat) => IndexedRef(0, Space.CompVal, v), s.args)
    ensures e.ty.None? ==> ExportRefs(e) == [IndexedRef(0, ExternalSpace(e.kind), e.index)]
    ensures e.ty.Some? ==> ExportRefs(e) == TypeRefRefs(e.ty.value) + [IndexedRef(0, ExternalSpace(e.kind), e.index)]
  {
    OneEach(ArgRef, (v: nat) => IndexedRef(0, Space.CompVal, v), s.args);
  }

  /** A core type reports its supertype, then what its fields, or its parameters and results as one
      list, refer to. */
  lemma CoreTypesListed(isFinal: bool, super: nat, params: seq<CoreVal>, results: seq<CoreVal>)
    ensures SubTypeRefs(SubType(isFinal, Some(super), CoreFuncType(params, results)))
         == [IndexedRef(0, Space.CoreType, super)] + FlatMap(CoreValRefs, params + results)
    ensures SubTypeRefs(SubType(isFinal, None, CoreStructType(params + results)))
         == SubTypeRefs(SubType(isFinal, None, CoreFuncType(params, results)))
  {
    FlatMapConcat(CoreValRefs, params, results);
  }

  /** A canonical function reports functions, then types, then memories, then tables; in each group
      what it names itself ahead of what its options name, and those in order. */
  lemma LiftsListed(f: nat, t: nat, os: seq<CanonOption>)
    ensures CanonRefs(Lift(f, t, os))
         == ([IndexedRef(0, Space.CoreFunc, f)] + FlatMap(OptionFuncRefs, os))
          + ([IndexedRef(0, Space.CompType, t)] + FlatMap(OptionTypeRefs, os))
          + FlatMap(OptionMemRefs, os)
  {
    var c := Lift(f, t, os);
    Joined(CanonFuncRefs(c) + CanonTypeRefs(c), CanonMemHead(c), FlatMap(OptionMemRefs, os), CanonTableRefs(c));
  }

  lemma LowersListed(f: nat, os: seq<CanonOption>)
    ensures CanonRefs(Lower(f, os))
         == [IndexedRef(0, Space.CompFunc, f)] + FlatMap(OptionFuncRefs, os)
          + FlatMap(OptionTypeRefs, os) + FlatMap(OptionMemRefs, os)
  {
    var c := Lower(f, os);
    Joined([], CanonTypeHead(c), FlatMap(OptionTypeRefs, os), []);
    Joined(CanonFuncRefs(c) + CanonTypeRefs(c), CanonMemHead(c), FlatMap(OptionMemRefs, os), CanonTableRefs(c));
  }

  lemma ReadsListed(t: nat, os: seq<CanonOption>)
    ensures CanonRefs(StreamRead(t, os))
         == FlatMap(OptionFuncRefs, os) + ([IndexedRef(0, Space.CompType, t)] + FlatMap(OptionTypeRefs, os))
          + FlatMap(OptionMemRefs, os)
  {
    var c := StreamRead(t, os);
    Joined([], CanonFuncHead(c), FlatMap(OptionFuncRefs, os), []);
    Joined(CanonFuncRefs(c) + CanonTypeRefs(c), CanonMemHead(c), FlatMap(OptionMemRefs, os), CanonTableRefs(c));
  }

  lemma Joined(a: seq<IndexedRef>, none: seq<IndexedRef>, b: seq<IndexedRef>, tail: seq<IndexedRef>)
    requires none == [] && tail == []
    ensures a + (none + b) + tail == a + b && none + b == b
  {
  }

  lemma ThreadsListed(t: nat, table: nat)
    ensures CanonRefs(ThreadNewIndirect(t, table))
         == [IndexedRef(0, Space.CoreType, t), IndexedRef(0, Space.CoreTable, table)]
  {
  }
}
