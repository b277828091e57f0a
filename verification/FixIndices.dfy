/** Reference extraction and index rewriting. The extractors list a node's references in the order
    the IR stores them, all but those of core function types; rewriting rebuilds the node with every
    index looked up afresh. The two are written independently, and the laws at the end tie them
    together. */
module FixIndices {
  import opened Prelude
  import opened Spaces
  import opened Types

  type Renaming = IndexedRef -> nat

  function Renamed(rho: Renaming): IndexedRef -> IndexedRef {
    (r: IndexedRef) => r.(index := rho(r))
  }

  /** First by `rho`, then by `sigma`, at the same depth and in the same space. */
  function Compose(sigma: Renaming, rho: Renaming): Renaming {
    (r: IndexedRef) => sigma(r.(index := rho(r)))
  }

  function Here(space: Space, index: nat): IndexedRef {
    IndexedRef(0, space, index)
  }

  ghost predicate Keeps(rho: Renaming, refs: seq<IndexedRef>) {
    forall r :: r in refs ==> rho(r) == r.index
  }

  // ------------------------------------------------------------------------------------
  // Extractors
  // ------------------------------------------------------------------------------------

  function ValRefs(v: ValType): seq<IndexedRef> {
    match v
    case Primitive(_) => []
    case Type(i) => [Here(Space.CompType, i)]
  }

  function OptValRefs(v: Option<ValType>): seq<IndexedRef> {
    match v
    case None => []
    case Some(ty) => ValRefs(ty)
  }

  function FieldRefs(f: (string, ValType)): seq<IndexedRef> { ValRefs(f.1) }

  function CaseRefs(c: (string, Option<ValType>)): seq<IndexedRef> { OptValRefs(c.1) }

  function DefinedRefs(t: DefinedType): seq<IndexedRef> {
    match t
    case PrimitiveType(_) | Flags(_) | Enum(_) => []
    case Record(fields) => FlatMap(FieldRefs, fields)
    case Variant(cases) => FlatMap(CaseRefs, cases)
    case List(ty) => ValRefs(ty)
    case FixedLengthList(ty, _) => ValRefs(ty)
    case OptionOf(ty) => ValRefs(ty)
    case Tuple(tys) => FlatMap(ValRefs, tys)
    case ResultOf(ok, err) => OptValRefs(ok) + OptValRefs(err)
    case Own(i) => [Here(Space.CompType, i)]
    case Borrow(i) => [Here(Space.CompType, i)]
    case Future(p) => OptValRefs(p)
    case Stream(p) => OptValRefs(p)
    case MapOf(k, v) => ValRefs(k) + ValRefs(v)
  }

  function FuncRefs(t: FuncType): seq<IndexedRef> {
    FlatMap(FieldRefs, t.params) + OptValRefs(t.result)
  }

  function CoreValRefs(v: CoreVal): seq<IndexedRef> {
    match v
    case RefConcrete(_, i) => [Here(Space.CoreType, i)]
    case _ => []
  }

  function CompositeRefs(c: CoreComposite): seq<IndexedRef> {
    match c
    case CoreFuncType(params, results) => FlatMap(CoreValRefs, params) + FlatMap(CoreValRefs, results)
    case CoreStructType(fields) => FlatMap(CoreValRefs, fields)
  }

  function SuperRefs(super: Option<nat>): seq<IndexedRef> {
    match super
    case None => []
    case Some(i) => [Here(Space.CoreType, i)]
  }

  /** All a core type refers to. */
  function SubTypeRefs(t: SubType): seq<IndexedRef> {
    SuperRefs(t.super) + CompositeRefs(t.inner)
  }

  /** What its extractor reports of it: nothing of the parameters and results of a function type. */
  function SubTypeReported(t: SubType): seq<IndexedRef> {
    SuperRefs(t.super) + (if t.inner.CoreFuncType? then [] else CompositeRefs(t.inner))
  }

  function CoreTypeRefRefs(t: CoreTypeRef): seq<IndexedRef> {
    match t
    case CoreFuncRef(i) => [Here(Space.CoreType, i)]
    case CoreTagRef(i) => [Here(Space.CoreType, i)]
    case CoreOther(_) => []
  }

  function DtorRefs(dtor: Option<nat>): seq<IndexedRef> {
    match dtor
    case None => []
    case Some(i) => [Here(Space.CoreFunc, i)]
  }

  function LeafRefs(t: LeafType): seq<IndexedRef> {
    match t
    case Defined(def) => DefinedRefs(def)
    case Func(f) => FuncRefs(f)
    case Resource(rep, dtor) => CoreValRefs(rep) + DtorRefs(dtor)
  }

  function TypeRefRefs(t: TypeRef): seq<IndexedRef> {
    match t
    case ModuleRef(i) => [Here(Space.CoreType, i)]
    case FuncRef(i) => [Here(Space.CompType, i)]
    case InstanceRef(i) => [Here(Space.CompType, i)]
    case ComponentRef(i) => [Here(Space.CompType, i)]
    case ValueRef(ty) => ValRefs(ty)
    case TypeRefBound(Eq(i)) => [Here(Space.CompType, i)]
    case TypeRefBound(SubResource) => []
  }

  function AliasRef(a: Alias): IndexedRef {
    match a
    case InstanceExport(_, i, _) => Here(Space.CompInst, i)
    case CoreInstanceExport(_, i, _) => Here(Space.CoreInst, i)
    case Outer(kind, count, i) => IndexedRef(count, OuterSpace(kind), i)
  }

  function ExportRefs(e: ExportItem): seq<IndexedRef> {
    (match e.ty case None => [] case Some(ty) => TypeRefRefs(ty)) + [Here(ExternalSpace(e.kind), e.index)]
  }

  function ExportItemRef(e: ExportItem): seq<IndexedRef> { [Here(ExternalSpace(e.kind), e.index)] }

  function CompArgRefs(a: CompArg): seq<IndexedRef> { [Here(ExternalSpace(a.kind), a.index)] }

  /** An instance built from exports reports each export's item, not its type ascription. */
  function CompInstanceRefs(i: CompInstance): seq<IndexedRef> {
    match i
    case Instantiate(c, args) => [Here(Space.Comp, c)] + FlatMap(CompArgRefs, args)
    case FromExports(exports) => FlatMap(ExportItemRef, exports)
  }

  function CoreArgRefs(a: CoreArg): seq<IndexedRef> { [Here(Space.CoreInst, a.instance)] }

  function CoreExportRefs(e: CoreExport): seq<IndexedRef> { [Here(CoreKindSpace(e.kind), e.index)] }

  function CoreInstanceRefs(i: CoreInstance): seq<IndexedRef> {
    match i
    case CoreInstantiate(m, args) => [Here(Space.CoreModule, m)] + FlatMap(CoreArgRefs, args)
    case CoreFromExports(exports) => FlatMap(CoreExportRefs, exports)
  }

  function OptionFuncRefs(o: CanonOption): seq<IndexedRef> {
    match o
    case Realloc(i) => [Here(Space.CoreFunc, i)]
    case PostReturn(i) => [Here(Space.CoreFunc, i)]
    case Callback(i) => [Here(Space.CoreFunc, i)]
    case _ => []
  }

  function OptionTypeRefs(o: CanonOption): seq<IndexedRef> {
    if o.CoreTypeOption? then [Here(Space.CoreType, o.index)] else []
  }

  function OptionMemRefs(o: CanonOption): seq<IndexedRef> {
    if o.Memory? then [Here(Space.CoreMemory, o.index)] else []
  }

  function CanonOptions(c: Canon): seq<CanonOption> {
    match c
    case Lift(_, _, options) => options
    case Lower(_, options) => options
    case TaskReturn(_, options) => options
    case StreamRead(_, options) => options
    case _ => []
  }

  /** The function, type and memory a canonical function names itself, before its options. */
  function CanonFuncHead(c: Canon): seq<IndexedRef> {
    match c
    case Lift(f, _, _) => [Here(Space.CoreFunc, f)]
    case Lower(f, _) => [Here(Space.CompFunc, f)]
    case _ => []
  }

  function CanonTypeHead(c: Canon): seq<IndexedRef> {
    match c
    case Lift(_, t, _) => [Here(Space.CompType, t)]
    case ResourceNew(t) => [Here(Space.CompType, t)]
    case TaskReturn(result, _) => OptValRefs(result)
    case StreamRead(t, _) => [Here(Space.CompType, t)]
    case ThreadNewIndirect(t, _) => [Here(Space.CoreType, t)]
    case _ => []
  }

  function CanonMemHead(c: Canon): seq<IndexedRef> {
    if c.WaitableSetWait? then [Here(Space.CoreMemory, c.memory)] else []
  }

  function CanonFuncRefs(c: Canon): seq<IndexedRef> {
    CanonFuncHead(c) + FlatMap(OptionFuncRefs, CanonOptions(c))
  }

  function CanonTypeRefs(c: Canon): seq<IndexedRef> {
    CanonTypeHead(c) + FlatMap(OptionTypeRefs, CanonOptions(c))
  }

  function CanonMemRefs(c: Canon): seq<IndexedRef> {
    CanonMemHead(c) + FlatMap(OptionMemRefs, CanonOptions(c))
  }

  function CanonTableRefs(c: Canon): seq<IndexedRef> {
    if c.ThreadNewIndirect? then [Here(Space.CoreTable, c.table)] else []
  }

  function CanonRefs(c: Canon): seq<IndexedRef> {
    CanonFuncRefs(c) + CanonTypeRefs(c) + CanonMemRefs(c) + CanonTableRefs(c)
  }

  function ArgRef(v: nat): seq<IndexedRef> { [Here(Space.CompVal, v)] }

  function StartRefs(s: StartFunc): seq<IndexedRef> {
    [Here(Space.CompFunc, s.func)] + FlatMap(ArgRef, s.args)
  }

  // ------------------------------------------------------------------------------------
  // Rewriting: each index is replaced by what the node's own extractor reports for it
  // ------------------------------------------------------------------------------------

  function FixVal(rho: Renaming): ValType -> ValType {
    (v: ValType) => if v.Type? then Type(rho(ValRefs(v)[0])) else v
  }

  function FixField(rho: Renaming): ((string, ValType)) -> (string, ValType) {
    (f: (string, ValType)) => (f.0, FixVal(rho)(f.1))
  }

  function FixCase(rho: Renaming): ((string, Option<ValType>)) -> (string, Option<ValType>) {
    (c: (string, Option<ValType>)) => (c.0, c.1.Map(FixVal(rho)))
  }

  function FixDefined(rho: Renaming, t: DefinedType): DefinedType {
    match t
    case PrimitiveType(_) | Flags(_) | Enum(_) => t
    case Record(fields) => Record(Map(FixField(rho), fields))
    case Variant(cases) => Variant(Map(FixCase(rho), cases))
    case List(ty) => List(FixVal(rho)(ty))
    case FixedLengthList(ty, len) => FixedLengthList(FixVal(rho)(ty), len)
    case Tuple(tys) => Tuple(Map(FixVal(rho), tys))
    case OptionOf(ty) => OptionOf(FixVal(rho)(ty))
    case ResultOf(ok, err) => ResultOf(ok.Map(FixVal(rho)), err.Map(FixVal(rho)))
    case Own(_) => Own(rho(DefinedRefs(t)[0]))
    case Borrow(_) => Borrow(rho(DefinedRefs(t)[0]))
    case Future(p) => Future(p.Map(FixVal(rho)))
    case Stream(p) => Stream(p.Map(FixVal(rho)))
    case MapOf(k, v) => MapOf(FixVal(rho)(k), FixVal(rho)(v))
  }

  function FixFunc(rho: Renaming, t: FuncType): FuncType {
    FuncType(t.isAsync, Map(FixField(rho), t.params), t.result.Map(FixVal(rho)))
  }

  function FixCoreVal(rho: Renaming): CoreVal -> CoreVal {
    (v: CoreVal) => if CoreValRefs(v) != [] then v.(index := rho(CoreValRefs(v)[0])) else v
  }

  function FixComposite(rho: Renaming, c: CoreComposite): CoreComposite {
    match c
    case CoreFuncType(params, results) => CoreFuncType(Map(FixCoreVal(rho), params), Map(FixCoreVal(rho), results))
    case CoreStructType(fields) => CoreStructType(Map(FixCoreVal(rho), fields))
  }

  function FixSubType(rho: Renaming, t: SubType): SubType {
    SubType(t.isFinal,
            if t.super.Some? then Some(rho(SubTypeReported(t)[0])) else None,
            FixComposite(rho, t.inner))
  }

  function FixCoreTypeRef(rho: Renaming, t: CoreTypeRef): CoreTypeRef {
    match t
    case CoreFuncRef(_) => CoreFuncRef(rho(CoreTypeRefRefs(t)[0]))
    case CoreTagRef(_) => CoreTagRef(rho(CoreTypeRefRefs(t)[0]))
    case CoreOther(_) => t
  }

  function FixLeaf(rho: Renaming, t: LeafType): LeafType {
    match t
    case Defined(def) => Defined(FixDefined(rho, def))
    case Func(f) => Func(FixFunc(rho, f))
    case Resource(rep, dtor) =>
      Resource(FixCoreVal(rho)(rep), if dtor.Some? then Some(rho(DtorRefs(dtor)[0])) else None)
  }

  /** An `Eq` bound carries an index, yet it is passed through untouched. */
  function FixTypeRef(rho: Renaming, t: TypeRef): TypeRef {
    match t
    case ModuleRef(_) => ModuleRef(rho(TypeRefRefs(t)[0]))
    case FuncRef(_) => FuncRef(rho(TypeRefRefs(t)[0]))
    case InstanceRef(_) => InstanceRef(rho(TypeRefRefs(t)[0]))
    case ComponentRef(_) => ComponentRef(rho(TypeRefRefs(t)[0]))
    case ValueRef(ty) => ValueRef(FixVal(rho)(ty))
    case TypeRefBound(_) => t
  }

  function FixAlias(rho: Renaming, a: Alias): Alias {
    match a
    case InstanceExport(kind, _, name) => InstanceExport(kind, rho(AliasRef(a)), name)
    case CoreInstanceExport(kind, _, name) => CoreInstanceExport(kind, rho(AliasRef(a)), name)
    case Outer(kind, count, _) => Outer(kind, count, rho(AliasRef(a)))
  }

  function FixImport(rho: Renaming, i: ImportItem): ImportItem {
    ImportItem(i.name, FixTypeRef(rho, i.ty))
  }

  function FixExport(rho: Renaming): ExportItem -> ExportItem {
    (e: ExportItem) => ExportItem(e.name, e.kind, rho(ExportItemRef(e)[0]),
                    match e.ty case None => None case Some(ty) => Some(FixTypeRef(rho, ty)))
  }

  function FixCompArg(rho: Renaming): CompArg -> CompArg {
    (a: CompArg) => CompArg(a.name, a.kind, rho(CompArgRefs(a)[0]))
  }

  function FixCompInstance(rho: Renaming, i: CompInstance): CompInstance {
    match i
    case Instantiate(_, args) => Instantiate(rho(CompInstanceRefs(i)[0]), Map(FixCompArg(rho), args))
    case FromExports(exports) => FromExports(Map(FixExport(rho), exports))
  }

  function FixCoreArg(rho: Renaming): CoreArg -> CoreArg {
    (a: CoreArg) => CoreArg(a.name, rho(CoreArgRefs(a)[0]))
  }

  function FixCoreExport(rho: Renaming): CoreExport -> CoreExport {
    (e: CoreExport) => CoreExport(e.name, e.kind, rho(CoreExportRefs(e)[0]))
  }

  function FixCoreInstance(rho: Renaming, i: CoreInstance): CoreInstance {
    match i
    case CoreInstantiate(_, args) => CoreInstantiate(rho(CoreInstanceRefs(i)[0]), Map(FixCoreArg(rho), args))
    case CoreFromExports(exports) => CoreFromExports(Map(FixCoreExport(rho), exports))
  }

  function FixOption(rho: Renaming): CanonOption -> CanonOption {
    (o: CanonOption) => match o
      case Realloc(_) => Realloc(rho(OptionFuncRefs(o)[0]))
      case PostReturn(_) => PostReturn(rho(OptionFuncRefs(o)[0]))
      case Callback(_) => Callback(rho(OptionFuncRefs(o)[0]))
      case CoreTypeOption(_) => CoreTypeOption(rho(OptionTypeRefs(o)[0]))
      case Memory(_) => Memory(rho(OptionMemRefs(o)[0]))
      case Plain(_) => o
  }

  function FixCanon(rho: Renaming, c: Canon): Canon {
    match c
    case Lift(_, _, options) => Lift(rho(CanonFuncRefs(c)[0]), rho(CanonTypeRefs(c)[0]), Map(FixOption(rho), options))
    case Lower(_, options) => Lower(rho(CanonFuncRefs(c)[0]), Map(FixOption(rho), options))
    case ResourceNew(_) => ResourceNew(rho(CanonTypeRefs(c)[0]))
    case TaskReturn(result, options) => TaskReturn(result.Map(FixVal(rho)), Map(FixOption(rho), options))
    case StreamRead(_, options) => StreamRead(rho(CanonTypeRefs(c)[0]), Map(FixOption(rho), options))
    case WaitableSetWait(cancellable, _) => WaitableSetWait(cancellable, rho(CanonMemRefs(c)[0]))
    case ThreadNewIndirect(_, _) => ThreadNewIndirect(rho(CanonTypeRefs(c)[0]), rho(CanonTableRefs(c)[0]))
    case ContextGet(_) => c
  }

  function FixArg(rho: Renaming): nat -> nat {
    (v: nat) => rho(ArgRef(v)[0])
  }

  function FixStart(rho: Renaming, s: StartFunc): StartFunc {
    StartFunc(rho(StartRefs(s)[0]), Map(FixArg(rho), s.args), s.results)
  }

  // ------------------------------------------------------------------------------------
  // The loops of the list-bearing nodes
  // ------------------------------------------------------------------------------------

  /** Rewrites a list by pushing one fixed element at a time. */
  method FixEach<T>(fix: T -> T, items: seq<T>) returns (fixed: seq<T>)
    ensures fixed == Map(fix, items)
  {
    fixed := [];
    for i := 0 to |items|
      invariant fixed == Map(fix, items[..i])
    {
      fixed := fixed + [fix(items[i])];
    }
    assert items[..|items|] == items;
  }

  /** Collects the references of a list by extending one vector. */
  method CollectRefs<T>(extract: T -> seq<IndexedRef>, items: seq<T>) returns (refs: seq<IndexedRef>)
    ensures refs == FlatMap(extract, items)
  {
    refs := [];
    for i := 0 to |items|
      invariant refs + FlatMap(extract, items[i..]) == FlatMap(extract, items)
    {
      assert items[i..][0] == items[i] && items[i..][1..] == items[i + 1..];
      refs := refs + extract(items[i]);
    }
  }

  /** Defined types: every reference is renamed, in order, and nothing else changes. */
  method RewriteDefinedType(rho: Renaming, t: DefinedType) returns (r: DefinedType)
    ensures r == FixDefined(rho, t)
    ensures DefinedRefs(r) == Map(Renamed(rho), DefinedRefs(t))
    ensures Keeps(rho, DefinedRefs(t)) ==> r == t
  {
    if IsList(t) { r := RewriteListType(rho, t); } else { r := RewritePlainType(rho, t); }
    DefinedLaws(rho, rho, t);
  }

  /** The branches that push into a fresh vector in a loop. */
  method RewriteListType(rho: Renaming, t: DefinedType) returns (r: DefinedType)
    requires IsList(t)
    ensures r == FixDefined(rho, t)
  {
    match t {
      case Record(fields) =>
        var fixed := FixEach(FixField(rho), fields);
        r := Record(fixed);
      case Variant(cases) =>
        var fixed := FixEach(FixCase(rho), cases);
        r := Variant(fixed);
      case Tuple(tys) =>
        var fixed := FixEach(FixVal(rho), tys);
        r := Tuple(fixed);
    }
  }

  /** The branches without a loop. */
  method RewritePlainType(rho: Renaming, t: DefinedType) returns (r: DefinedType)
    requires !IsList(t)
    ensures r == FixDefined(rho, t)
  {
    match t {
      case PrimitiveType(_) => r := t;
      case Flags(_) => r := t;
      case Enum(_) => r := t;
      case List(ty) => r := List(FixVal(rho)(ty));
      case FixedLengthList(ty, len) => r := FixedLengthList(FixVal(rho)(ty), len);
      case OptionOf(ty) => r := OptionOf(FixVal(rho)(ty));
      case ResultOf(ok, err) => r := ResultOf(ok.Map(FixVal(rho)), err.Map(FixVal(rho)));
      case Own(_) => r := Own(rho(DefinedRefs(t)[0]));
      case Borrow(_) => r := Borrow(rho(DefinedRefs(t)[0]));
      case Future(p) => r := Future(p.Map(FixVal(rho)));
      case Stream(p) => r := Stream(p.Map(FixVal(rho)));
      case MapOf(k, v) => r := MapOf(FixVal(rho)(k), FixVal(rho)(v));
    }
  }

  method RewriteFuncType(rho: Renaming, t: FuncType) returns (r: FuncType)
    ensures r == FixFunc(rho, t)
    ensures FuncRefs(r) == Map(Renamed(rho), FuncRefs(t))
    ensures Keeps(rho, FuncRefs(t)) ==> r == t
  {
    var params := FixEach(FixField(rho), t.params);
    r := FuncType(t.isAsync, params, t.result.Map(FixVal(rho)));
    FuncLaws(rho, rho, t);
  }

  // ------------------------------------------------------------------------------------
  // The laws of rewriting
  // ------------------------------------------------------------------------------------

  lemma MapConcat<A, B>(f: A -> B, s: seq<A>, t: seq<A>)
    ensures Map(f, s + t) == Map(f, s) + Map(f, t)
  {
  }

  lemma KeepsConcat(rho: Renaming, a: seq<IndexedRef>, b: seq<IndexedRef>)
    ensures Keeps(rho, a + b) <==> Keeps(rho, a) && Keeps(rho, b)
  {
    if Keeps(rho, a + b) {
      forall r | r in a || r in b ensures rho(r) == r.index { assert r in a + b; }
    }
  }

  /** Rewriting one node: its references are renamed, all of them, in order, and nothing else
      about it changes; rewriting twice is rewriting once by the composed renaming. */
  ghost predicate Lawful<T(!new)>(fix: Renaming -> T -> T, refs: T -> seq<IndexedRef>, rho: Renaming, sigma: Renaming,
                                  x: T) {
    && refs(fix(rho)(x)) == Map(Renamed(rho), refs(x))
    && (Keeps(rho, refs(x)) ==> fix(rho)(x) == x)
    && fix(sigma)(fix(rho)(x)) == fix(Compose(sigma, rho))(x)
  }

  lemma {:induction false} EachListed<T, U>(refs: T -> seq<U>, s: seq<T>)
    ensures forall x, r :: x in s && r in refs(x) ==> r in FlatMap(refs, s)
  {
    if s != [] {
      EachListed(refs, s[1..]);
    }
  }

  lemma {:induction false} EachFromElement<T>(refs: T -> seq<IndexedRef>, s: seq<T>)
    ensures forall r :: r in FlatMap(refs, s) ==> exists x :: x in s && r in refs(x)
  {
    if s != [] {
      EachFromElement(refs, s[1..]);
      forall r | r in FlatMap(refs, s) ensures exists x :: x in s && r in refs(x) {
        if r in refs(s[0]) {
          assert s[0] in s;
        } else {
          assert r in FlatMap(refs, s[1..]);
          var x :| x in s[1..] && r in refs(x);
          assert x in s;
        }
      }
    }
  }

  lemma {:induction false} EachRenamed<T>(fix: T -> T, refs: T -> seq<IndexedRef>, g: IndexedRef -> IndexedRef,
                                          s: seq<T>)
    requires forall x :: x in s ==> refs(fix(x)) == Map(g, refs(x))
    ensures FlatMap(refs, Map(fix, s)) == Map(g, FlatMap(refs, s))
  {
    if s != [] {
      assert Map(fix, s)[1..] == Map(fix, s[1..]);
      EachRenamed(fix, refs, g, s[1..]);
      MapConcat(g, refs(s[0]), FlatMap(refs, s[1..]));
    }
  }

  /** A list is rewritten lawfully when its elements are. */
  lemma ListLaws<T(!new)>(fix: Renaming -> T -> T, refs: T -> seq<IndexedRef>, rho: Renaming, sigma: Renaming,
                          s: seq<T>)
    requires forall x :: x in s ==> Lawful(fix, refs, rho, sigma, x)
    ensures FlatMap(refs, Map(fix(rho), s)) == Map(Renamed(rho), FlatMap(refs, s))
    ensures Keeps(rho, FlatMap(refs, s)) ==> Map(fix(rho), s) == s
    ensures Map(fix(sigma), Map(fix(rho), s)) == Map(fix(Compose(sigma, rho)), s)
  {
    EachRenamed(fix(rho), refs, Renamed(rho), s);
    EachListed(refs, s);
    forall i | 0 <= i < |s|
      ensures Keeps(rho, FlatMap(refs, s)) ==> fix(rho)(s[i]) == s[i]
      ensures fix(sigma)(fix(rho)(s[i])) == fix(Compose(sigma, rho))(s[i])
    {
      assert Lawful(fix, refs, rho, sigma, s[i]);
    }
  }

  lemma ValLaws(rho: Renaming, sigma: Renaming, v: ValType)
    ensures ValRefs(FixVal(rho)(v)) == Map(Renamed(rho), ValRefs(v))
    ensures Keeps(rho, ValRefs(v)) ==> FixVal(rho)(v) == v
    ensures FixVal(sigma)(FixVal(rho)(v)) == FixVal(Compose(sigma, rho))(v)
  {
    if v.Type? { assert Here(Space.CompType, v.index) in ValRefs(v); }
  }

  lemma OptValLaws(rho: Renaming, sigma: Renaming, v: Option<ValType>)
    ensures OptValRefs(v.Map(FixVal(rho))) == Map(Renamed(rho), OptValRefs(v))
    ensures Keeps(rho, OptValRefs(v)) ==> v.Map(FixVal(rho)) == v
    ensures v.Map(FixVal(rho)).Map(FixVal(sigma)) == v.Map(FixVal(Compose(sigma, rho)))
  {
    if v.Some? { ValLaws(rho, sigma, v.value); }
  }

  lemma FieldsLaws(rho: Renaming, sigma: Renaming, fs: seq<(string, ValType)>)
    ensures FlatMap(FieldRefs, Map(FixField(rho), fs)) == Map(Renamed(rho), FlatMap(FieldRefs, fs))
    ensures Keeps(rho, FlatMap(FieldRefs, fs)) ==> Map(FixField(rho), fs) == fs
    ensures Map(FixField(sigma), Map(FixField(rho), fs)) == Map(FixField(Compose(sigma, rho)), fs)
  {
    forall x | x in fs ensures Lawful(FixField, FieldRefs, rho, sigma, x) { ValLaws(rho, sigma, x.1); }
    ListLaws(FixField, FieldRefs, rho, sigma, fs);
  }

  lemma CasesLaws(rho: Renaming, sigma: Renaming, cs: seq<(string, Option<ValType>)>)
    ensures FlatMap(CaseRefs, Map(FixCase(rho), cs)) == Map(Renamed(rho), FlatMap(CaseRefs, cs))
    ensures Keeps(rho, FlatMap(CaseRefs, cs)) ==> Map(FixCase(rho), cs) == cs
    ensures Map(FixCase(sigma), Map(FixCase(rho), cs)) == Map(FixCase(Compose(sigma, rho)), cs)
  {
    forall x | x in cs ensures Lawful(FixCase, CaseRefs, rho, sigma, x) { OptValLaws(rho, sigma, x.1); }
    ListLaws(FixCase, CaseRefs, rho, sigma, cs);
  }

  lemma ValsLaws(rho: Renaming, sigma: Renaming, vs: seq<ValType>)
    ensures FlatMap(ValRefs, Map(FixVal(rho), vs)) == Map(Renamed(rho), FlatMap(ValRefs, vs))
    ensures Keeps(rho, FlatMap(ValRefs, vs)) ==> Map(FixVal(rho), vs) == vs
    ensures Map(FixVal(sigma), Map(FixVal(rho), vs)) == Map(FixVal(Compose(sigma, rho)), vs)
  {
    forall x | x in vs ensures Lawful(FixVal, ValRefs, rho, sigma, x) { ValLaws(rho, sigma, x); }
    ListLaws(FixVal, ValRefs, rho, sigma, vs);
  }

  predicate IsPair(t: DefinedType) { t.ResultOf? || t.MapOf? }

  predicate IsList(t: DefinedType) { t.Record? || t.Variant? || t.Tuple? }

  lemma PairLaws(rho: Renaming, sigma: Renaming, t: DefinedType)
    requires IsPair(t)
    ensures DefinedRefs(FixDefined(rho, t)) == Map(Renamed(rho), DefinedRefs(t))
    ensures Keeps(rho, DefinedRefs(t)) ==> FixDefined(rho, t) == t
    ensures FixDefined(sigma, FixDefined(rho, t)) == FixDefined(Compose(sigma, rho), t)
  {
    match t {
      case ResultOf(ok, err) => ResultLaws(rho, sigma, ok, err);
      case MapOf(k, v) => MapOfLaws(rho, sigma, k, v);
    }
  }

  lemma ResultLaws(rho: Renaming, sigma: Renaming, ok: Option<ValType>, err: Option<ValType>)
    ensures var t := ResultOf(ok, err);
            && DefinedRefs(FixDefined(rho, t)) == Map(Renamed(rho), DefinedRefs(t))
            && (Keeps(rho, DefinedRefs(t)) ==> FixDefined(rho, t) == t)
            && FixDefined(sigma, FixDefined(rho, t)) == FixDefined(Compose(sigma, rho), t)
  {
    OptValLaws(rho, sigma, ok);
    OptValLaws(rho, sigma, err);
    MapConcat(Renamed(rho), OptValRefs(ok), OptValRefs(err));
    KeepsConcat(rho, OptValRefs(ok), OptValRefs(err));
  }

  lemma MapOfLaws(rho: Renaming, sigma: Renaming, k: ValType, v: ValType)
    ensures var t := MapOf(k, v);
            && DefinedRefs(FixDefined(rho, t)) == Map(Renamed(rho), DefinedRefs(t))
            && (Keeps(rho, DefinedRefs(t)) ==> FixDefined(rho, t) == t)
            && FixDefined(sigma, FixDefined(rho, t)) == FixDefined(Compose(sigma, rho), t)
  {
    assert DefinedRefs(MapOf(k, v)) == ValRefs(k) + ValRefs(v);
    assert FixDefined(rho, MapOf(k, v)) == MapOf(FixVal(rho)(k), FixVal(rho)(v));
    ValLaws(rho, sigma, k);
    ValLaws(rho, sigma, v);
    MapConcat(Renamed(rho), ValRefs(k), ValRefs(v));
    KeepsConcat(rho, ValRefs(k), ValRefs(v));
  }

  lemma SmallLaws(rho: Renaming, sigma: Renaming, t: DefinedType)
    requires !IsPair(t) && !IsList(t)
    ensures DefinedRefs(FixDefined(rho, t)) == Map(Renamed(rho), DefinedRefs(t))
    ensures Keeps(rho, DefinedRefs(t)) ==> FixDefined(rho, t) == t
    ensures FixDefined(sigma, FixDefined(rho, t)) == FixDefined(Compose(sigma, rho), t)
  {
    match t {
      case List(ty) => ValLaws(rho, sigma, ty);
      case FixedLengthList(ty, _) => ValLaws(rho, sigma, ty);
      case OptionOf(ty) => ValLaws(rho, sigma, ty);
      case Own(i) => ValLaws(rho, sigma, Type(i));
      case Borrow(i) => ValLaws(rho, sigma, Type(i));
      case Future(p) => OptValLaws(rho, sigma, p);
      case Stream(p) => OptValLaws(rho, sigma, p);
      case _ =>
    }
  }

  /** Rewriting a defined type renames exactly its references, in order; changes nothing when
      the renaming keeps them; and two rewritings are one rewriting by the composed renaming. */
  lemma DefinedLaws(rho: Renaming, sigma: Renaming, t: DefinedType)
    ensures DefinedRefs(FixDefined(rho, t)) == Map(Renamed(rho), DefinedRefs(t))
    ensures Keeps(rho, DefinedRefs(t)) ==> FixDefined(rho, t) == t
    ensures FixDefined(sigma, FixDefined(rho, t)) == FixDefined(Compose(sigma, rho), t)
  {
    if IsPair(t) {
      PairLaws(rho, sigma, t);
    } else if !IsList(t) {
      SmallLaws(rho, sigma, t);
    } else {
      match t {
        case Record(fields) => FieldsLaws(rho, sigma, fields);
        case Variant(cases) => CasesLaws(rho, sigma, cases);
        case Tuple(tys) => ValsLaws(rho, sigma, tys);
      }
    }
  }

  lemma FuncLaws(rho: Renaming, sigma: Renaming, t: FuncType)
    ensures FuncRefs(FixFunc(rho, t)) == Map(Renamed(rho), FuncRefs(t))
    ensures Keeps(rho, FuncRefs(t)) ==> FixFunc(rho, t) == t
    ensures FixFunc(sigma, FixFunc(rho, t)) == FixFunc(Compose(sigma, rho), t)
  {
    FieldsLaws(rho, sigma, t.params);
    OptValLaws(rho, sigma, t.result);
    MapConcat(Renamed(rho), FlatMap(FieldRefs, t.params), OptValRefs(t.result));
    KeepsConcat(rho, FlatMap(FieldRefs, t.params), OptValRefs(t.result));
  }

  lemma CoreValsLaws(rho: Renaming, sigma: Renaming, vs: seq<CoreVal>)
    ensures FlatMap(CoreValRefs, Map(FixCoreVal(rho), vs)) == Map(Renamed(rho), FlatMap(CoreValRefs, vs))
    ensures Keeps(rho, FlatMap(CoreValRefs, vs)) ==> Map(FixCoreVal(rho), vs) == vs
    ensures Map(FixCoreVal(sigma), Map(FixCoreVal(rho), vs)) == Map(FixCoreVal(Compose(sigma, rho)), vs)
  {
    forall v | v in vs ensures Lawful(FixCoreVal, CoreValRefs, rho, sigma, v) {
      if v.RefConcrete? { assert Here(Space.CoreType, v.index) in CoreValRefs(v); }
    }
    ListLaws(FixCoreVal, CoreValRefs, rho, sigma, vs);
  }

  lemma CompositeLaws(rho: Renaming, sigma: Renaming, c: CoreComposite)
    ensures CompositeRefs(FixComposite(rho, c)) == Map(Renamed(rho), CompositeRefs(c))
    ensures Keeps(rho, CompositeRefs(c)) ==> FixComposite(rho, c) == c
    ensures FixComposite(sigma, FixComposite(rho, c)) == FixComposite(Compose(sigma, rho), c)
  {
    match c {
      case CoreFuncType(params, results) =>
        CoreValsLaws(rho, sigma, params);
        CoreValsLaws(rho, sigma, results);
        MapConcat(Renamed(rho), FlatMap(CoreValRefs, params), FlatMap(CoreValRefs, results));
        KeepsConcat(rho, FlatMap(CoreValRefs, params), FlatMap(CoreValRefs, results));
      case CoreStructType(fields) => CoreValsLaws(rho, sigma, fields);
    }
  }

  lemma SubTypeLaws(rho: Renaming, sigma: Renaming, t: SubType)
    ensures SubTypeRefs(FixSubType(rho, t)) == Map(Renamed(rho), SubTypeRefs(t))
    ensures Keeps(rho, SubTypeRefs(t)) ==> FixSubType(rho, t) == t
    ensures FixSubType(sigma, FixSubType(rho, t)) == FixSubType(Compose(sigma, rho), t)
  {
    CompositeLaws(rho, sigma, t.inner);
    MapConcat(Renamed(rho), SuperRefs(t.super), CompositeRefs(t.inner));
    KeepsConcat(rho, SuperRefs(t.super), CompositeRefs(t.inner));
    if t.super.Some? { assert Here(Space.CoreType, t.super.value) in SuperRefs(t.super); }
  }

  /** What is reported of a core type is renamed, in order. */
  lemma ReportedRenamed(rho: Renaming, t: SubType)
    ensures SubTypeReported(FixSubType(rho, t)) == Map(Renamed(rho), SubTypeReported(t))
  {
    var fixed := FixSubType(rho, t);
    var super := SuperRefs(t.super);
    assert SuperRefs(fixed.super) == Map(Renamed(rho), super);
    if t.inner.CoreFuncType? {
      assert SubTypeReported(t) == super && SubTypeReported(fixed) == SuperRefs(fixed.super);
    } else {
      CompositeLaws(rho, rho, t.inner);
      MapConcat(Renamed(rho), super, CompositeRefs(t.inner));
    }
  }

  /** It is all there is to report exactly when the type is no function type with references in its
      parameters or results. */
  lemma FullyReportedExactlyWhen(t: SubType)
    ensures SubTypeReported(t) == SubTypeRefs(t) <==> (t.inner.CoreFuncType? ==> CompositeRefs(t.inner) == [])
  {
    if t.inner.CoreFuncType? {
      assert SubTypeReported(t) == SuperRefs(t.super);
      assert |SubTypeRefs(t)| == |SubTypeReported(t)| + |CompositeRefs(t.inner)|;
    }
  }

  lemma LeafLaws(rho: Renaming, sigma: Renaming, t: LeafType)
    ensures LeafRefs(FixLeaf(rho, t)) == Map(Renamed(rho), LeafRefs(t))
    ensures Keeps(rho, LeafRefs(t)) ==> FixLeaf(rho, t) == t
    ensures FixLeaf(sigma, FixLeaf(rho, t)) == FixLeaf(Compose(sigma, rho), t)
  {
    match t {
      case Defined(def) => DefinedLaws(rho, sigma, def);
      case Func(f) => FuncLaws(rho, sigma, f);
      case Resource(rep, dtor) =>
        MapConcat(Renamed(rho), CoreValRefs(rep), DtorRefs(dtor));
        KeepsConcat(rho, CoreValRefs(rep), DtorRefs(dtor));
        if rep.RefConcrete? { assert Here(Space.CoreType, rep.index) in CoreValRefs(rep); }
        if dtor.Some? { assert Here(Space.CoreFunc, dtor.value) in DtorRefs(dtor); }
    }
  }

  /** The one reference that is reported but not rewritten, and whether that matters. */
  predicate BoundStays(rho: Renaming, t: TypeRef) {
    t.TypeRefBound? && t.bounds.Eq? ==> rho(Here(Space.CompType, t.bounds.index)) == t.bounds.index
  }

  /** A type reference is rewritten as its extractor demands exactly when its `Eq` bound, if
      it has one, names a type whose id does not move. */
  lemma TypeRefLaws(rho: Renaming, sigma: Renaming, t: TypeRef)
    ensures TypeRefRefs(FixTypeRef(rho, t)) == Map(Renamed(rho), TypeRefRefs(t)) <==> BoundStays(rho, t)
    ensures Keeps(rho, TypeRefRefs(t)) ==> FixTypeRef(rho, t) == t
    ensures FixTypeRef(sigma, FixTypeRef(rho, t)) == FixTypeRef(Compose(sigma, rho), t)
  {
    if t.ValueRef? { ValLaws(rho, sigma, t.ty); }
    if TypeRefRefs(t) != [] { assert TypeRefRefs(t)[0] in TypeRefRefs(t); }
    if t.TypeRefBound? && t.bounds.Eq? {
      assert Map(Renamed(rho), TypeRefRefs(t))[0].index == rho(Here(Space.CompType, t.bounds.index));
      assert TypeRefRefs(FixTypeRef(rho, t))[0].index == t.bounds.index;
    }
  }

  /** None of the references among the options moves. */
  ghost predicate OptionsKept(rho: Renaming, os: seq<CanonOption>) {
    && Keeps(rho, FlatMap(OptionFuncRefs, os))
    && Keeps(rho, FlatMap(OptionTypeRefs, os))
    && Keeps(rho, FlatMap(OptionMemRefs, os))
  }

  lemma OptionsLaws(rho: Renaming, sigma: Renaming, os: seq<CanonOption>)
    ensures FlatMap(OptionFuncRefs, Map(FixOption(rho), os)) == Map(Renamed(rho), FlatMap(OptionFuncRefs, os))
    ensures FlatMap(OptionTypeRefs, Map(FixOption(rho), os)) == Map(Renamed(rho), FlatMap(OptionTypeRefs, os))
    ensures FlatMap(OptionMemRefs, Map(FixOption(rho), os)) == Map(Renamed(rho), FlatMap(OptionMemRefs, os))
    ensures OptionsKept(rho, os) ==> Map(FixOption(rho), os) == os
    ensures Map(FixOption(sigma), Map(FixOption(rho), os)) == Map(FixOption(Compose(sigma, rho)), os)
  {
    OptionFuncsRenamed(rho, os);
    OptionTypesRenamed(rho, os);
    OptionMemsRenamed(rho, os);
    OptionsComposed(rho, sigma, os);
    if OptionsKept(rho, os) {
      forall i | 0 <= i < |os| ensures FixOption(rho)(os[i]) == os[i] { OptionStays(rho, os, i); }
    }
  }

  lemma OptionFuncsRenamed(rho: Renaming, os: seq<CanonOption>)
    ensures FlatMap(OptionFuncRefs, Map(FixOption(rho), os)) == Map(Renamed(rho), FlatMap(OptionFuncRefs, os))
  {
    EachRenamed(FixOption(rho), OptionFuncRefs, Renamed(rho), os);
  }

  lemma OptionTypesRenamed(rho: Renaming, os: seq<CanonOption>)
    ensures FlatMap(OptionTypeRefs, Map(FixOption(rho), os)) == Map(Renamed(rho), FlatMap(OptionTypeRefs, os))
  {
    EachRenamed(FixOption(rho), OptionTypeRefs, Renamed(rho), os);
  }

  lemma OptionMemsRenamed(rho: Renaming, os: seq<CanonOption>)
    ensures FlatMap(OptionMemRefs, Map(FixOption(rho), os)) == Map(Renamed(rho), FlatMap(OptionMemRefs, os))
  {
    EachRenamed(FixOption(rho), OptionMemRefs, Renamed(rho), os);
  }

  lemma OptionsComposed(rho: Renaming, sigma: Renaming, os: seq<CanonOption>)
    ensures Map(FixOption(sigma), Map(FixOption(rho), os)) == Map(FixOption(Compose(sigma, rho)), os)
  {
    forall i | 0 <= i < |os| ensures FixOption(sigma)(FixOption(rho)(os[i])) == FixOption(Compose(sigma, rho))(os[i]) {
      var o, f := os[i], FixOption(rho)(os[i]);
      match o {
        case CoreTypeOption(_) => assert OptionTypeRefs(f)[0] == Renamed(rho)(OptionTypeRefs(o)[0]);
        case Memory(_) => assert OptionMemRefs(f)[0] == Renamed(rho)(OptionMemRefs(o)[0]);
        case Plain(_) =>
        case _ => assert OptionFuncRefs(f)[0] == Renamed(rho)(OptionFuncRefs(o)[0]);
      }
    }
  }

  lemma OptionStays(rho: Renaming, os: seq<CanonOption>, i: nat)
    requires i < |os| && OptionsKept(rho, os)
    ensures FixOption(rho)(os[i]) == os[i]
  {
    var o := os[i];
    EachListed(OptionFuncRefs, os);
    EachListed(OptionTypeRefs, os);
    EachListed(OptionMemRefs, os);
    assert o in os;
    match o {
      case CoreTypeOption(_) => assert OptionTypeRefs(o)[0] in OptionTypeRefs(o);
      case Memory(_) => assert OptionMemRefs(o)[0] in OptionMemRefs(o);
      case Plain(_) =>
      case _ => assert OptionFuncRefs(o)[0] in OptionFuncRefs(o);
    }
  }

  // ------------------------------------------------------------------------------------
  // All items of a component
  // ------------------------------------------------------------------------------------

  datatype Item =
    | LeafItem(leaf: LeafType)
    | SubTypeItem(sub: SubType)
    | AliasItem(als: Alias)
    | ImportedItem(imp: ImportItem)
    | ExportedItem(exp: ExportItem)
    | CompInstanceItem(compInst: CompInstance)
    | CoreInstanceItem(coreInst: CoreInstance)
    | CanonItem(canon: Canon)
    | StartItem(start: StartFunc)

  /** All an item refers to. Its extractor reports the same, except of a core function type. */
  function ItemRefs(x: Item): seq<IndexedRef> {
    match x
    case LeafItem(t) => LeafRefs(t)
    case SubTypeItem(t) => SubTypeRefs(t)
    case AliasItem(a) => [AliasRef(a)]
    case ImportedItem(i) => TypeRefRefs(i.ty)
    case ExportedItem(e) => ExportRefs(e)
    case CompInstanceItem(i) => CompInstanceRefs(i)
    case CoreInstanceItem(i) => CoreInstanceRefs(i)
    case CanonItem(c) => CanonRefs(c)
    case StartItem(s) => StartRefs(s)
  }

  function Reported(x: Item): seq<IndexedRef> {
    if x.SubTypeItem? then SubTypeReported(x.sub) else ItemRefs(x)
  }

  function FixItem(rho: Renaming, x: Item): Item {
    match x
    case LeafItem(t) => LeafItem(FixLeaf(rho, t))
    case SubTypeItem(t) => SubTypeItem(FixSubType(rho, t))
    case AliasItem(a) => AliasItem(FixAlias(rho, a))
    case ImportedItem(i) => ImportedItem(FixImport(rho, i))
    case ExportedItem(e) => ExportedItem(FixExport(rho)(e))
    case CompInstanceItem(i) => CompInstanceItem(FixCompInstance(rho, i))
    case CoreInstanceItem(i) => CoreInstanceItem(FixCoreInstance(rho, i))
    case CanonItem(c) => CanonItem(FixCanon(rho, c))
    case StartItem(s) => StartItem(FixStart(rho, s))
  }

  /** The type ascription of an import or of an export. */
  function Ascription(x: Item): Option<TypeRef> {
    match x
    case ImportedItem(i) => Some(i.ty)
    case ExportedItem(e) => e.ty
    case _ => None
  }

  /** Exports listed inside an instance are plain items: their syntax has no ascription. */
  predicate InlineExportsPlain(x: Item) {
    x.CompInstanceItem? && x.compInst.FromExports? ==> forall e :: e in x.compInst.exports ==> e.ty == None
  }

  lemma CanonHeadLaws(rho: Renaming, sigma: Renaming, c: Canon)
    ensures var d := FixCanon(rho, c);
            && CanonFuncHead(d) == Map(Renamed(rho), CanonFuncHead(c))
            && CanonTypeHead(d) == Map(Renamed(rho), CanonTypeHead(c))
            && CanonMemHead(d) == Map(Renamed(rho), CanonMemHead(c))
            && CanonTableRefs(d) == Map(Renamed(rho), CanonTableRefs(c))
            && CanonOptions(d) == Map(FixOption(rho), CanonOptions(c))
  {
    if c.TaskReturn? { OptValLaws(rho, sigma, c.result); }
  }

  lemma CanonLaws(rho: Renaming, sigma: Renaming, c: Canon)
    ensures CanonRefs(FixCanon(rho, c)) == Map(Renamed(rho), CanonRefs(c))
    ensures Keeps(rho, CanonRefs(c)) ==> FixCanon(rho, c) == c
    ensures FixCanon(sigma, FixCanon(rho, c)) == FixCanon(Compose(sigma, rho), c)
  {
    var os := CanonOptions(c);
    OptionsLaws(rho, sigma, os);
    CanonHeadLaws(rho, sigma, c);
    var g := Renamed(rho);
    MapConcat(g, CanonFuncHead(c), FlatMap(OptionFuncRefs, os));
    MapConcat(g, CanonTypeHead(c), FlatMap(OptionTypeRefs, os));
    MapConcat(g, CanonMemHead(c), FlatMap(OptionMemRefs, os));
    MapConcat(g, CanonFuncRefs(c), CanonTypeRefs(c));
    MapConcat(g, CanonFuncRefs(c) + CanonTypeRefs(c), CanonMemRefs(c));
    MapConcat(g, CanonFuncRefs(c) + CanonTypeRefs(c) + CanonMemRefs(c), CanonTableRefs(c));
    CanonComposed(rho, sigma, c);
    if Keeps(rho, CanonRefs(c)) { CanonKept(rho, c); }
  }

  lemma CanonComposed(rho: Renaming, sigma: Renaming, c: Canon)
    ensures FixCanon(sigma, FixCanon(rho, c)) == FixCanon(Compose(sigma, rho), c)
  {
    OptionsLaws(rho, sigma, CanonOptions(c));
    if c.TaskReturn? { OptValLaws(rho, sigma, c.result); }
  }

  lemma CanonKept(rho: Renaming, c: Canon)
    requires Keeps(rho, CanonRefs(c))
    ensures FixCanon(rho, c) == c
  {
    var os := CanonOptions(c);
    KeepsConcat(rho, CanonFuncRefs(c) + CanonTypeRefs(c) + CanonMemRefs(c), CanonTableRefs(c));
    KeepsConcat(rho, CanonFuncRefs(c) + CanonTypeRefs(c), CanonMemRefs(c));
    KeepsConcat(rho, CanonFuncRefs(c), CanonTypeRefs(c));
    KeepsConcat(rho, CanonFuncHead(c), FlatMap(OptionFuncRefs, os));
    KeepsConcat(rho, CanonTypeHead(c), FlatMap(OptionTypeRefs, os));
    KeepsConcat(rho, CanonMemHead(c), FlatMap(OptionMemRefs, os));
    OptionsLaws(rho, rho, os);
    if CanonFuncHead(c) != [] { assert CanonFuncHead(c)[0] in CanonFuncHead(c); }
    if CanonTypeHead(c) != [] { assert CanonTypeHead(c)[0] in CanonTypeHead(c); }
    if CanonMemHead(c) != [] { assert CanonMemHead(c)[0] in CanonMemHead(c); }
    if CanonTableRefs(c) != [] { assert CanonTableRefs(c)[0] in CanonTableRefs(c); }
    if c.TaskReturn? { OptValLaws(rho, rho, c.result); }
  }

  lemma AliasLaws(rho: Renaming, sigma: Renaming, a: Alias)
    ensures AliasRef(FixAlias(rho, a)) == Renamed(rho)(AliasRef(a))
    ensures rho(AliasRef(a)) == AliasRef(a).index ==> FixAlias(rho, a) == a
    ensures FixAlias(sigma, FixAlias(rho, a)) == FixAlias(Compose(sigma, rho), a)
  {
  }

  lemma SplitEqual<T>(a: seq<T>, b: seq<T>, c: seq<T>, d: seq<T>)
    requires |a| == |c|
    ensures a + b == c + d <==> a == c && b == d
  {
    assert (a + b)[..|a|] == a && (c + d)[..|a|] == c;
    assert (a + b)[|a|..] == b && (c + d)[|a|..] == d;
  }

  lemma TypeRefShape(rho: Renaming, t: TypeRef)
    ensures |TypeRefRefs(FixTypeRef(rho, t))| == |TypeRefRefs(t)|
  {
    if t.ValueRef? { ValLaws(rho, rho, t.ty); }
  }

  lemma ExportRefsLaw(rho: Renaming, e: ExportItem)
    ensures ExportRefs(FixExport(rho)(e)) == Map(Renamed(rho), ExportRefs(e))
       <==> (e.ty.Some? ==> BoundStays(rho, e.ty.value))
  {
    var f := FixExport(rho)(e);
    assert ExportItemRef(f) == Map(Renamed(rho), ExportItemRef(e));
    if e.ty.Some? {
      var t := e.ty.value;
      TypeRefLaws(rho, rho, t);
      TypeRefShape(rho, t);
      ConcatRenamed(Renamed(rho), TypeRefRefs(FixTypeRef(rho, t)), TypeRefRefs(t), ExportItemRef(f), ExportItemRef(e));
    } else {
      assert ExportRefs(e) == ExportItemRef(e) && ExportRefs(f) == ExportItemRef(f);
    }
  }

  lemma ConcatRenamed<A, B>(f: A -> B, fixed: seq<B>, refs: seq<A>, fixedTail: seq<B>, tail: seq<A>)
    requires |fixed| == |refs| && fixedTail == Map(f, tail)
    ensures fixed + fixedTail == Map(f, refs + tail) <==> fixed == Map(f, refs)
  {
    MapConcat(f, refs, tail);
    SplitEqual(fixed, fixedTail, Map(f, refs), fixedTail);
  }

  lemma ExportLaws(rho: Renaming, sigma: Renaming, e: ExportItem)
    ensures Keeps(rho, ExportRefs(e)) ==> FixExport(rho)(e) == e
    ensures Keeps(rho, ExportItemRef(e)) && e.ty == None ==> FixExport(rho)(e) == e
    ensures FixExport(sigma)(FixExport(rho)(e)) == FixExport(Compose(sigma, rho))(e)
  {
    assert ExportItemRef(e)[0] in ExportItemRef(e);
    assert ExportItemRef(FixExport(rho)(e))[0] == Renamed(rho)(ExportItemRef(e)[0]);
    if e.ty.Some? {
      TypeRefLaws(rho, sigma, e.ty.value);
      KeepsConcat(rho, TypeRefRefs(e.ty.value), ExportItemRef(e));
    } else {
      assert ExportRefs(e) == ExportItemRef(e);
    }
  }

  lemma CompArgsLaws(rho: Renaming, sigma: Renaming, args: seq<CompArg>)
    ensures FlatMap(CompArgRefs, Map(FixCompArg(rho), args)) == Map(Renamed(rho), FlatMap(CompArgRefs, args))
    ensures Keeps(rho, FlatMap(CompArgRefs, args)) ==> Map(FixCompArg(rho), args) == args
    ensures Map(FixCompArg(sigma), Map(FixCompArg(rho), args)) == Map(FixCompArg(Compose(sigma, rho)), args)
  {
    forall x | x in args ensures Lawful(FixCompArg, CompArgRefs, rho, sigma, x) {
      assert CompArgRefs(x)[0] in CompArgRefs(x);
    }
    ListLaws(FixCompArg, CompArgRefs, rho, sigma, args);
  }

  lemma InlineExportsLaws(rho: Renaming, sigma: Renaming, es: seq<ExportItem>)
    ensures FlatMap(ExportItemRef, Map(FixExport(rho), es)) == Map(Renamed(rho), FlatMap(ExportItemRef, es))
    ensures (Keeps(rho, FlatMap(ExportItemRef, es)) && forall e :: e in es ==> e.ty == None) ==>
              Map(FixExport(rho), es) == es
    ensures Map(FixExport(sigma), Map(FixExport(rho), es)) == Map(FixExport(Compose(sigma, rho)), es)
  {
    forall e | e in es
      ensures ExportItemRef(FixExport(rho)(e)) == Map(Renamed(rho), ExportItemRef(e))
      ensures FixExport(sigma)(FixExport(rho)(e)) == FixExport(Compose(sigma, rho))(e)
      ensures Keeps(rho, ExportItemRef(e)) && e.ty == None ==> FixExport(rho)(e) == e
    {
      ExportLaws(rho, sigma, e);
    }
    EachRenamed(FixExport(rho), ExportItemRef, Renamed(rho), es);
    EachListed(ExportItemRef, es);
  }

  lemma CompInstanceLaws(rho: Renaming, sigma: Renaming, i: CompInstance)
    ensures CompInstanceRefs(FixCompInstance(rho, i)) == Map(Renamed(rho), CompInstanceRefs(i))
    ensures Keeps(rho, CompInstanceRefs(i)) && InlineExportsPlain(CompInstanceItem(i)) ==> FixCompInstance(rho, i) == i
    ensures FixCompInstance(sigma, FixCompInstance(rho, i)) == FixCompInstance(Compose(sigma, rho), i)
  {
    match i {
      case Instantiate(c, args) =>
        CompArgsLaws(rho, sigma, args);
        MapConcat(Renamed(rho), [Here(Space.Comp, c)], FlatMap(CompArgRefs, args));
        KeepsConcat(rho, [Here(Space.Comp, c)], FlatMap(CompArgRefs, args));
        assert Here(Space.Comp, c) in [Here(Space.Comp, c)];
      case FromExports(es) => InlineExportsLaws(rho, sigma, es);
    }
  }

  lemma CoreArgsLaws(rho: Renaming, sigma: Renaming, args: seq<CoreArg>)
    ensures FlatMap(CoreArgRefs, Map(FixCoreArg(rho), args)) == Map(Renamed(rho), FlatMap(CoreArgRefs, args))
    ensures Keeps(rho, FlatMap(CoreArgRefs, args)) ==> Map(FixCoreArg(rho), args) == args
    ensures Map(FixCoreArg(sigma), Map(FixCoreArg(rho), args)) == Map(FixCoreArg(Compose(sigma, rho)), args)
  {
    forall x | x in args ensures Lawful(FixCoreArg, CoreArgRefs, rho, sigma, x) {
      assert CoreArgRefs(x)[0] in CoreArgRefs(x);
    }
    ListLaws(FixCoreArg, CoreArgRefs, rho, sigma, args);
  }

  lemma CoreExportsLaws(rho: Renaming, sigma: Renaming, es: seq<CoreExport>)
    ensures FlatMap(CoreExportRefs, Map(FixCoreExport(rho), es)) == Map(Renamed(rho), FlatMap(CoreExportRefs, es))
    ensures Keeps(rho, FlatMap(CoreExportRefs, es)) ==> Map(FixCoreExport(rho), es) == es
    ensures Map(FixCoreExport(sigma), Map(FixCoreExport(rho), es)) == Map(FixCoreExport(Compose(sigma, rho)), es)
  {
    forall x | x in es ensures Lawful(FixCoreExport, CoreExportRefs, rho, sigma, x) {
      assert CoreExportRefs(x)[0] in CoreExportRefs(x);
    }
    ListLaws(FixCoreExport, CoreExportRefs, rho, sigma, es);
  }

  lemma CoreInstanceLaws(rho: Renaming, sigma: Renaming, i: CoreInstance)
    ensures CoreInstanceRefs(FixCoreInstance(rho, i)) == Map(Renamed(rho), CoreInstanceRefs(i))
    ensures Keeps(rho, CoreInstanceRefs(i)) ==> FixCoreInstance(rho, i) == i
    ensures FixCoreInstance(sigma, FixCoreInstance(rho, i)) == FixCoreInstance(Compose(sigma, rho), i)
  {
    match i {
      case CoreInstantiate(m, args) =>
        CoreArgsLaws(rho, sigma, args);
        MapConcat(Renamed(rho), [Here(Space.CoreModule, m)], FlatMap(CoreArgRefs, args));
        KeepsConcat(rho, [Here(Space.CoreModule, m)], FlatMap(CoreArgRefs, args));
        assert Here(Space.CoreModule, m) in [Here(Space.CoreModule, m)];
      case CoreFromExports(es) => CoreExportsLaws(rho, sigma, es);
    }
  }

  lemma StartArgsLaws(rho: Renaming, sigma: Renaming, args: seq<nat>)
    ensures FlatMap(ArgRef, Map(FixArg(rho), args)) == Map(Renamed(rho), FlatMap(ArgRef, args))
    ensures Keeps(rho, FlatMap(ArgRef, args)) ==> Map(FixArg(rho), args) == args
    ensures Map(FixArg(sigma), Map(FixArg(rho), args)) == Map(FixArg(Compose(sigma, rho)), args)
  {
    forall x | x in args ensures Lawful(FixArg, ArgRef, rho, sigma, x) { assert ArgRef(x)[0] in ArgRef(x); }
    ListLaws(FixArg, ArgRef, rho, sigma, args);
  }

  lemma StartLaws(rho: Renaming, sigma: Renaming, s: StartFunc)
    ensures StartRefs(FixStart(rho, s)) == Map(Renamed(rho), StartRefs(s))
    ensures Keeps(rho, StartRefs(s)) ==> FixStart(rho, s) == s
    ensures FixStart(sigma, FixStart(rho, s)) == FixStart(Compose(sigma, rho), s)
  {
    StartArgsLaws(rho, sigma, s.args);
    MapConcat(Renamed(rho), [Here(Space.CompFunc, s.func)], FlatMap(ArgRef, s.args));
    KeepsConcat(rho, [Here(Space.CompFunc, s.func)], FlatMap(ArgRef, s.args));
    assert Here(Space.CompFunc, s.func) in [Here(Space.CompFunc, s.func)];
  }

  /** Every item: its rewritten references are its references renamed, in order, if and only if
      no `Eq` bound in its ascription names a type that moved. */
  lemma RewritingRenamesReferences(rho: Renaming, x: Item)
    ensures ItemRefs(FixItem(rho, x)) == Map(Renamed(rho), ItemRefs(x))
        ==> (Ascription(x).Some? ==> BoundStays(rho, Ascription(x).value))
    ensures ItemRefs(FixItem(rho, x)) == Map(Renamed(rho), ItemRefs(x))
        <== (Ascription(x).Some? ==> BoundStays(rho, Ascription(x).value))
  {
    if x.ImportedItem? {
      TypeRefLaws(rho, rho, x.imp.ty);
    } else if x.ExportedItem? {
      ExportRefsLaw(rho, x.exp);
    } else {
      UnascribedRenamed(rho, x);
    }
  }

  lemma UnascribedRenamed(rho: Renaming, x: Item)
    requires !x.ImportedItem? && !x.ExportedItem?
    ensures ItemRefs(FixItem(rho, x)) == Map(Renamed(rho), ItemRefs(x))
  {
    match x {
      case LeafItem(t) => LeafRenamed(rho, t);
      case SubTypeItem(t) => SubTypeRenamed(rho, t);
      case AliasItem(a) => AliasLaws(rho, rho, a);
      case StartItem(s) => StartRenamed(rho, s);
      case CompInstanceItem(i) => CompInstanceRenamed(rho, i);
      case CoreInstanceItem(i) => CoreInstanceRenamed(rho, i);
      case CanonItem(c) => CanonRenamed(rho, c);
    }
  }

  lemma LeafRenamed(rho: Renaming, t: LeafType)
    ensures LeafRefs(FixLeaf(rho, t)) == Map(Renamed(rho), LeafRefs(t))
  {
    LeafLaws(rho, rho, t);
  }

  lemma SubTypeRenamed(rho: Renaming, t: SubType)
    ensures SubTypeRefs(FixSubType(rho, t)) == Map(Renamed(rho), SubTypeRefs(t))
  {
    SubTypeLaws(rho, rho, t);
  }

  lemma StartRenamed(rho: Renaming, s: StartFunc)
    ensures StartRefs(FixStart(rho, s)) == Map(Renamed(rho), StartRefs(s))
  {
    StartLaws(rho, rho, s);
  }

  lemma CompInstanceRenamed(rho: Renaming, i: CompInstance)
    ensures CompInstanceRefs(FixCompInstance(rho, i)) == Map(Renamed(rho), CompInstanceRefs(i))
  {
    CompInstanceLaws(rho, rho, i);
  }

  lemma CoreInstanceRenamed(rho: Renaming, i: CoreInstance)
    ensures CoreInstanceRefs(FixCoreInstance(rho, i)) == Map(Renamed(rho), CoreInstanceRefs(i))
  {
    CoreInstanceLaws(rho, rho, i);
  }

  lemma CanonRenamed(rho: Renaming, c: Canon)
    ensures CanonRefs(FixCanon(rho, c)) == Map(Renamed(rho), CanonRefs(c))
  {
    CanonLaws(rho, rho, c);
  }

  /** Rewriting touches nothing but references: a renaming that keeps them keeps the item, and
      rewriting is functorial, so undoing a renaming undoes the rewriting. */
  lemma RewritingTouchesOnlyReferences(rho: Renaming, sigma: Renaming, x: Item)
    requires InlineExportsPlain(x)
    ensures Keeps(rho, ItemRefs(x)) ==> FixItem(rho, x) == x
    ensures FixItem(sigma, FixItem(rho, x)) == FixItem(Compose(sigma, rho), x)
    ensures Keeps(Compose(sigma, rho), ItemRefs(x)) ==> FixItem(sigma, FixItem(rho, x)) == x
  {
    FunctorLaws(rho, sigma, x);
    FunctorLaws(Compose(sigma, rho), sigma, x);
  }

  lemma FunctorLaws(rho: Renaming, sigma: Renaming, x: Item)
    requires InlineExportsPlain(x)
    ensures Keeps(rho, ItemRefs(x)) ==> FixItem(rho, x) == x
    ensures FixItem(sigma, FixItem(rho, x)) == FixItem(Compose(sigma, rho), x)
  {
    match x {
      case LeafItem(t) => LeafLaws(rho, sigma, t);
      case SubTypeItem(t) => SubTypeLaws(rho, sigma, t);
      case AliasItem(a) =>
        AliasLaws(rho, sigma, a);
        assert AliasRef(a) in ItemRefs(x);
      case ImportedItem(i) => TypeRefLaws(rho, sigma, i.ty);
      case ExportedItem(e) => ExportLaws(rho, sigma, e);
      case CompInstanceItem(i) => CompInstanceFunctor(rho, sigma, i);
      case CoreInstanceItem(i) => CoreInstanceFunctor(rho, sigma, i);
      case CanonItem(c) => CanonFunctor(rho, sigma, c);
      case StartItem(s) => StartLaws(rho, sigma, s);
    }
  }

  lemma CompInstanceFunctor(rho: Renaming, sigma: Renaming, i: CompInstance)
    requires InlineExportsPlain(CompInstanceItem(i))
    ensures Keeps(rho, CompInstanceRefs(i)) ==> FixCompInstance(rho, i) == i
    ensures FixCompInstance(sigma, FixCompInstance(rho, i)) == FixCompInstance(Compose(sigma, rho), i)
  {
    CompInstanceLaws(rho, sigma, i);
  }

  lemma CoreInstanceFunctor(rho: Renaming, sigma: Renaming, i: CoreInstance)
    ensures Keeps(rho, CoreInstanceRefs(i)) ==> FixCoreInstance(rho, i) == i
    ensures FixCoreInstance(sigma, FixCoreInstance(rho, i)) == FixCoreInstance(Compose(sigma, rho), i)
  {
    CoreInstanceLaws(rho, sigma, i);
  }

  lemma CanonFunctor(rho: Renaming, sigma: Renaming, c: Canon)
    ensures Keeps(rho, CanonRefs(c)) ==> FixCanon(rho, c) == c
    ensures FixCanon(sigma, FixCanon(rho, c)) == FixCanon(Compose(sigma, rho), c)
  {
    CanonLaws(rho, sigma, c);
  }

  // ------------------------------------------------------------------------------------
  // Which references a rewriting looks up
  // ------------------------------------------------------------------------------------

  /** An `Eq` bound is not looked up. */
  function TypeRefLooked(t: TypeRef): seq<IndexedRef> {
    if t.TypeRefBound? then [] else TypeRefRefs(t)
  }

  function AscriptionLooked(ty: Option<TypeRef>): seq<IndexedRef> {
    match ty
    case None => []
    case Some(t) => TypeRefLooked(t)
  }

  /** Inside an instance, too, an export has its ascription looked up. */
  function ExportLooked(e: ExportItem): seq<IndexedRef> {
    AscriptionLooked(e.ty) + ExportItemRef(e)
  }

  function ItemLooked(x: Item): seq<IndexedRef> {
    match x
    case ImportedItem(i) => TypeRefLooked(i.ty)
    case ExportedItem(e) => ExportLooked(e)
    case CompInstanceItem(FromExports(exports)) => FlatMap(ExportLooked, exports)
    case _ => ItemRefs(x)
  }

  /** A resource defined by a component is emitted without any lookup. */
  function TopLeafLooked(leaf: LeafType): seq<IndexedRef> {
    if leaf.Resource? then [] else LeafRefs(leaf)
  }

  // ------------------------------------------------------------------------------------
  // What is emitted for an item of a component
  // ------------------------------------------------------------------------------------

  /** A resource defined by a component is emitted as it stands, its destructor included. */
  function FixTopLeaf(rho: Renaming, leaf: LeafType): LeafType {
    if leaf.Resource? then leaf else FixLeaf(rho, leaf)
  }

  /** Every other item is emitted rewritten. */
  function EmitItem(rho: Renaming, x: Item): Item {
    if x.LeafItem? then LeafItem(FixTopLeaf(rho, x.leaf)) else FixItem(rho, x)
  }

  /** Neither of the two references that are left alone needs to change: no `Eq` bound of the
      ascription, and no reference of a resource. */
  ghost predicate EmittedInFull(rho: Renaming, x: Item) {
    && (Ascription(x).Some? ==> BoundStays(rho, Ascription(x).value))
    && (x.LeafItem? && x.leaf.Resource? ==> Keeps(rho, ItemRefs(x)))
  }

  lemma KeptIsRenamed(rho: Renaming, refs: seq<IndexedRef>)
    ensures Keeps(rho, refs) <==> refs == Map(Renamed(rho), refs)
  {
    if refs == Map(Renamed(rho), refs) {
      forall r | r in refs ensures rho(r) == r.index {
        var k :| 0 <= k < |refs| && refs[k] == r;
        assert Map(Renamed(rho), refs)[k] == Renamed(rho)(r);
      }
    } else {
      assert exists k :: 0 <= k < |refs| && refs[k] != Map(Renamed(rho), refs)[k];
    }
  }

  /** A component's own type definition comes out with its references renamed if and only if it
      is no resource or none of its references moves. */
  lemma TopLeafLaw(rho: Renaming, leaf: LeafType)
    ensures LeafRefs(FixTopLeaf(rho, leaf)) == Map(Renamed(rho), LeafRefs(leaf))
       <==> (leaf.Resource? ==> Keeps(rho, LeafRefs(leaf)))
  {
    if leaf.Resource? { KeptIsRenamed(rho, LeafRefs(leaf)); } else { LeafLaws(rho, rho, leaf); }
  }

  /** Every item: what is emitted for it has its references, renamed, in order, if and only if
      neither exception applies. */
  lemma EmissionRenamesReferences(rho: Renaming, x: Item)
    ensures ItemRefs(EmitItem(rho, x)) == Map(Renamed(rho), ItemRefs(x)) <==> EmittedInFull(rho, x)
  {
    if x.LeafItem? { TopLeafLaw(rho, x.leaf); } else { RewritingRenamesReferences(rho, x); }
  }

  /** The destructor of a component's resource is left behind when its function moves. */
  lemma DestructorLeftBehind()
    ensures var rho: Renaming := r => 1;
            var leaf := Resource(Num(0), Some(0));
            FixTopLeaf(rho, leaf) == leaf && LeafRefs(leaf) != Map(Renamed(rho), LeafRefs(leaf))
  {
    var rho: Renaming := r => 1;
    var leaf := Resource(Num(0), Some(0));
    assert LeafRefs(leaf)[0].index == 0 && Map(Renamed(rho), LeafRefs(leaf))[0].index == 1;
  }

  /** The exception is real: moving type 0 leaves an `Eq` bound on it behind. */
  lemma EqBoundLeftBehind()
    ensures var rho: Renaming := r => 1;
            var x := ImportedItem(ImportItem("t", TypeRefBound(Eq(0))));
            FixItem(rho, x) == x && ItemRefs(x) != Map(Renamed(rho), ItemRefs(x))
  {
    var rho: Renaming := r => 1;
    var x := ImportedItem(ImportItem("t", TypeRefBound(Eq(0))));
    assert ItemRefs(x)[0].index == 0 && Map(Renamed(rho), ItemRefs(x))[0].index == 1;
  }
}
