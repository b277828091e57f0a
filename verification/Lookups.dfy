/** What rewriting looks up: exactly the references whose numbers decide what is encoded. */
module Lookups {
  import opened Prelude
  import opened Spaces
  import opened Types
  import opened FixIndices
  import opened ActualIds
  import opened TypeTrees
  import opened Encoder
  import opened Fields
  import Topological

  ghost predicate Agree(rho: Renaming, sigma: Renaming, refs: seq<IndexedRef>) {
    forall r :: r in refs ==> rho(r) == sigma(r)
  }

  lemma AgreeConcat(rho: Renaming, sigma: Renaming, a: seq<IndexedRef>, b: seq<IndexedRef>)
    ensures Agree(rho, sigma, a + b) <==> Agree(rho, sigma, a) && Agree(rho, sigma, b)
  {
    if Agree(rho, sigma, a + b) {
      forall r | r in a || r in b ensures rho(r) == sigma(r) { assert r in a + b; }
    }
  }

  lemma AgreeOne(rho: Renaming, sigma: Renaming, r: IndexedRef)
    ensures Agree(rho, sigma, [r]) <==> rho(r) == sigma(r)
  {
    assert r in [r];
  }

  /** Two renamings rewrite the node alike exactly when they agree on the references. */
  ghost predicate Decided<T>(fix: Renaming -> T -> T, refs: T -> seq<IndexedRef>, rho: Renaming, sigma: Renaming,
                             x: T) {
    Agree(rho, sigma, refs(x)) <==> fix(rho)(x) == fix(sigma)(x)
  }

  lemma ListDecided<T(!new)>(fix: Renaming -> T -> T, refs: T -> seq<IndexedRef>, rho: Renaming, sigma: Renaming,
                             s: seq<T>)
    requires forall x :: x in s ==> Decided(fix, refs, rho, sigma, x)
    ensures Agree(rho, sigma, FlatMap(refs, s)) ==> Map(fix(rho), s) == Map(fix(sigma), s)
    ensures Agree(rho, sigma, FlatMap(refs, s)) <== Map(fix(rho), s) == Map(fix(sigma), s)
  {
    EachListed(refs, s);
    EachFromElement(refs, s);
    if Agree(rho, sigma, FlatMap(refs, s)) {
      forall i | 0 <= i < |s| ensures fix(rho)(s[i]) == fix(sigma)(s[i]) {
        assert Decided(fix, refs, rho, sigma, s[i]);
      }
    }
    if Map(fix(rho), s) == Map(fix(sigma), s) {
      forall r | r in FlatMap(refs, s) ensures rho(r) == sigma(r) {
        var i :| 0 <= i < |s| && r in refs(s[i]);
        assert Map(fix(rho), s)[i] == Map(fix(sigma), s)[i];
        assert Decided(fix, refs, rho, sigma, s[i]);
      }
    }
  }

  // ------------------------------------------------------------------------------------
  // Types
  // ------------------------------------------------------------------------------------

  lemma ValDecided(rho: Renaming, sigma: Renaming, v: ValType)
    ensures Agree(rho, sigma, ValRefs(v)) <==> FixVal(rho)(v) == FixVal(sigma)(v)
  {
    if v.Type? { AgreeOne(rho, sigma, ValRefs(v)[0]); }
  }

  lemma OptValDecided(rho: Renaming, sigma: Renaming, v: Option<ValType>)
    ensures Agree(rho, sigma, OptValRefs(v)) <==> v.Map(FixVal(rho)) == v.Map(FixVal(sigma))
  {
    if v.Some? { ValDecided(rho, sigma, v.value); }
  }

  lemma FieldsDecided(rho: Renaming, sigma: Renaming, fields: seq<(string, ValType)>)
    ensures Agree(rho, sigma, FlatMap(FieldRefs, fields))
       <==> Map(FixField(rho), fields) == Map(FixField(sigma), fields)
  {
    forall f | f in fields ensures Decided(FixField, FieldRefs, rho, sigma, f) { ValDecided(rho, sigma, f.1); }
    ListDecided(FixField, FieldRefs, rho, sigma, fields);
  }

  lemma ListTypesDecided(rho: Renaming, sigma: Renaming, t: DefinedType)
    requires IsList(t)
    ensures Agree(rho, sigma, DefinedRefs(t)) <==> FixDefined(rho, t) == FixDefined(sigma, t)
  {
    match t {
      case Record(fields) => FieldsDecided(rho, sigma, fields);
      case Variant(cases) =>
        forall c | c in cases ensures Decided(FixCase, CaseRefs, rho, sigma, c) { OptValDecided(rho, sigma, c.1); }
        ListDecided(FixCase, CaseRefs, rho, sigma, cases);
      case Tuple(elems) =>
        forall v | v in elems ensures Decided(FixVal, ValRefs, rho, sigma, v) { ValDecided(rho, sigma, v); }
        ListDecided(FixVal, ValRefs, rho, sigma, elems);
    }
  }

  lemma DefinedDecided(rho: Renaming, sigma: Renaming, t: DefinedType)
    ensures Agree(rho, sigma, DefinedRefs(t)) <==> FixDefined(rho, t) == FixDefined(sigma, t)
  {
    if IsList(t) {
      ListTypesDecided(rho, sigma, t);
    } else {
      match t {
        case List(elem) => ValDecided(rho, sigma, elem);
        case FixedLengthList(elem, _) => ValDecided(rho, sigma, elem);
        case OptionOf(elem) => ValDecided(rho, sigma, elem);
        case ResultOf(ok, err) =>
          OptValDecided(rho, sigma, ok);
          OptValDecided(rho, sigma, err);
          AgreeConcat(rho, sigma, OptValRefs(ok), OptValRefs(err));
        case Own(i) => ValDecided(rho, sigma, Type(i));
        case Borrow(i) => ValDecided(rho, sigma, Type(i));
        case Future(payload) => OptValDecided(rho, sigma, payload);
        case Stream(payload) => OptValDecided(rho, sigma, payload);
        case MapOf(key, val) =>
          ValDecided(rho, sigma, key);
          ValDecided(rho, sigma, val);
          AgreeConcat(rho, sigma, ValRefs(key), ValRefs(val));
        case _ =>
      }
    }
  }

  lemma FuncDecided(rho: Renaming, sigma: Renaming, t: FuncType)
    ensures Agree(rho, sigma, FuncRefs(t)) <==> FixFunc(rho, t) == FixFunc(sigma, t)
  {
    FieldsDecided(rho, sigma, t.params);
    OptValDecided(rho, sigma, t.result);
    AgreeConcat(rho, sigma, FlatMap(FieldRefs, t.params), OptValRefs(t.result));
  }

  lemma CoreValDecided(rho: Renaming, sigma: Renaming, v: CoreVal)
    ensures Agree(rho, sigma, CoreValRefs(v)) <==> FixCoreVal(rho)(v) == FixCoreVal(sigma)(v)
  {
    if v.RefConcrete? { AgreeOne(rho, sigma, CoreValRefs(v)[0]); }
  }

  lemma CoreValsDecided(rho: Renaming, sigma: Renaming, vs: seq<CoreVal>)
    ensures Agree(rho, sigma, FlatMap(CoreValRefs, vs)) <==> Map(FixCoreVal(rho), vs) == Map(FixCoreVal(sigma), vs)
  {
    forall v | v in vs ensures Decided(FixCoreVal, CoreValRefs, rho, sigma, v) { CoreValDecided(rho, sigma, v); }
    ListDecided(FixCoreVal, CoreValRefs, rho, sigma, vs);
  }

  lemma LeafDecided(rho: Renaming, sigma: Renaming, t: LeafType)
    ensures Agree(rho, sigma, LeafRefs(t)) <==> FixLeaf(rho, t) == FixLeaf(sigma, t)
  {
    match t {
      case Defined(def) => DefinedDecided(rho, sigma, def);
      case Func(f) => FuncDecided(rho, sigma, f);
      case Resource(rep, dtor) =>
        CoreValDecided(rho, sigma, rep);
        AgreeConcat(rho, sigma, CoreValRefs(rep), DtorRefs(dtor));
        if dtor.Some? { AgreeOne(rho, sigma, DtorRefs(dtor)[0]); }
    }
  }

  lemma CompositeDecided(rho: Renaming, sigma: Renaming, c: CoreComposite)
    ensures Agree(rho, sigma, CompositeRefs(c)) <==> FixComposite(rho, c) == FixComposite(sigma, c)
  {
    match c {
      case CoreFuncType(params, results) =>
        CoreValsDecided(rho, sigma, params);
        CoreValsDecided(rho, sigma, results);
        AgreeConcat(rho, sigma, FlatMap(CoreValRefs, params), FlatMap(CoreValRefs, results));
      case CoreStructType(fields) => CoreValsDecided(rho, sigma, fields);
    }
  }

  lemma SubTypeDecided(rho: Renaming, sigma: Renaming, t: SubType)
    ensures Agree(rho, sigma, SubTypeRefs(t)) <==> FixSubType(rho, t) == FixSubType(sigma, t)
  {
    CompositeDecided(rho, sigma, t.inner);
    AgreeConcat(rho, sigma, SuperRefs(t.super), CompositeRefs(t.inner));
    if t.super.Some? { AgreeOne(rho, sigma, SuperRefs(t.super)[0]); }
  }

  lemma CoreTypeRefDecided(rho: Renaming, sigma: Renaming, t: CoreTypeRef)
    ensures Agree(rho, sigma, CoreTypeRefRefs(t)) <==> FixCoreTypeRef(rho, t) == FixCoreTypeRef(sigma, t)
  {
    if !t.CoreOther? { AgreeOne(rho, sigma, CoreTypeRefRefs(t)[0]); }
  }

  lemma TypeRefDecided(rho: Renaming, sigma: Renaming, t: TypeRef)
    ensures Agree(rho, sigma, TypeRefLooked(t)) <==> FixTypeRef(rho, t) == FixTypeRef(sigma, t)
  {
    match t {
      case ValueRef(ty) => ValDecided(rho, sigma, ty);
      case TypeRefBound(_) =>
      case _ => AgreeOne(rho, sigma, TypeRefRefs(t)[0]);
    }
  }

  // ------------------------------------------------------------------------------------
  // Other items
  // ------------------------------------------------------------------------------------

  lemma ExportDecided(rho: Renaming, sigma: Renaming, e: ExportItem)
    ensures Agree(rho, sigma, ExportLooked(e)) <==> FixExport(rho)(e) == FixExport(sigma)(e)
  {
    AgreeConcat(rho, sigma, AscriptionLooked(e.ty), ExportItemRef(e));
    AgreeOne(rho, sigma, ExportItemRef(e)[0]);
    if e.ty.Some? { TypeRefDecided(rho, sigma, e.ty.value); }
  }

  lemma CompInstanceDecided(rho: Renaming, sigma: Renaming, i: CompInstance)
    ensures Agree(rho, sigma, ItemLooked(CompInstanceItem(i))) <==> FixCompInstance(rho, i) == FixCompInstance(sigma, i)
  {
    match i {
      case Instantiate(c, args) =>
        forall a | a in args ensures Decided(FixCompArg, CompArgRefs, rho, sigma, a) {
          AgreeOne(rho, sigma, CompArgRefs(a)[0]);
        }
        ListDecided(FixCompArg, CompArgRefs, rho, sigma, args);
        AgreeConcat(rho, sigma, [Here(Space.Comp, c)], FlatMap(CompArgRefs, args));
        AgreeOne(rho, sigma, Here(Space.Comp, c));
      case FromExports(exports) =>
        forall e | e in exports ensures Decided(FixExport, ExportLooked, rho, sigma, e) {
          ExportDecided(rho, sigma, e);
        }
        ListDecided(FixExport, ExportLooked, rho, sigma, exports);
    }
  }

  lemma CoreInstanceDecided(rho: Renaming, sigma: Renaming, i: CoreInstance)
    ensures Agree(rho, sigma, CoreInstanceRefs(i)) <==> FixCoreInstance(rho, i) == FixCoreInstance(sigma, i)
  {
    match i {
      case CoreInstantiate(m, args) =>
        forall a | a in args ensures Decided(FixCoreArg, CoreArgRefs, rho, sigma, a) {
          AgreeOne(rho, sigma, CoreArgRefs(a)[0]);
        }
        ListDecided(FixCoreArg, CoreArgRefs, rho, sigma, args);
        AgreeConcat(rho, sigma, [Here(Space.CoreModule, m)], FlatMap(CoreArgRefs, args));
        AgreeOne(rho, sigma, Here(Space.CoreModule, m));
      case CoreFromExports(exports) =>
        forall e | e in exports ensures Decided(FixCoreExport, CoreExportRefs, rho, sigma, e) {
          AgreeOne(rho, sigma, CoreExportRefs(e)[0]);
        }
        ListDecided(FixCoreExport, CoreExportRefs, rho, sigma, exports);
    }
  }

  lemma StartDecided(rho: Renaming, sigma: Renaming, s: StartFunc)
    ensures Agree(rho, sigma, StartRefs(s)) <==> FixStart(rho, s) == FixStart(sigma, s)
  {
    forall v | v in s.args ensures Decided(FixArg, ArgRef, rho, sigma, v) { AgreeOne(rho, sigma, ArgRef(v)[0]); }
    ListDecided(FixArg, ArgRef, rho, sigma, s.args);
    AgreeConcat(rho, sigma, [Here(Space.CompFunc, s.func)], FlatMap(ArgRef, s.args));
    AgreeOne(rho, sigma, Here(Space.CompFunc, s.func));
  }

  // ------------------------------------------------------------------------------------
  // Canonical functions
  // ------------------------------------------------------------------------------------

  function OptionRefs(o: CanonOption): seq<IndexedRef> {
    OptionFuncRefs(o) + OptionTypeRefs(o) + OptionMemRefs(o)
  }

  lemma OptionDecided(rho: Renaming, sigma: Renaming, o: CanonOption)
    ensures Agree(rho, sigma, OptionRefs(o)) <==> FixOption(rho)(o) == FixOption(sigma)(o)
  {
    if !o.Plain? { AgreeOne(rho, sigma, OptionRefs(o)[0]); }
  }

  /** The three passes over the options report what they refer to. */
  lemma {:induction false} OptionsAgree(rho: Renaming, sigma: Renaming, os: seq<CanonOption>)
    ensures Agree(rho, sigma, FlatMap(OptionRefs, os))
       <==> && Agree(rho, sigma, FlatMap(OptionFuncRefs, os)) && Agree(rho, sigma, FlatMap(OptionTypeRefs, os))
            && Agree(rho, sigma, FlatMap(OptionMemRefs, os))
  {
    if os != [] {
      var o, rest := os[0], os[1..];
      OptionsAgree(rho, sigma, rest);
      AgreeConcat(rho, sigma, OptionRefs(o), FlatMap(OptionRefs, rest));
      AgreeConcat(rho, sigma, OptionFuncRefs(o), FlatMap(OptionFuncRefs, rest));
      AgreeConcat(rho, sigma, OptionTypeRefs(o), FlatMap(OptionTypeRefs, rest));
      AgreeConcat(rho, sigma, OptionMemRefs(o), FlatMap(OptionMemRefs, rest));
      AgreeConcat(rho, sigma, OptionFuncRefs(o) + OptionTypeRefs(o), OptionMemRefs(o));
      AgreeConcat(rho, sigma, OptionFuncRefs(o), OptionTypeRefs(o));
    }
  }

  /** What a canonical function names itself. */
  ghost predicate HeadsAgree(rho: Renaming, sigma: Renaming, c: Canon) {
    && Agree(rho, sigma, CanonFuncHead(c)) && Agree(rho, sigma, CanonTypeHead(c))
    && Agree(rho, sigma, CanonMemHead(c)) && Agree(rho, sigma, CanonTableRefs(c))
  }

  lemma CanonAgree(rho: Renaming, sigma: Renaming, c: Canon)
    ensures Agree(rho, sigma, CanonRefs(c))
       <==> HeadsAgree(rho, sigma, c) && Agree(rho, sigma, FlatMap(OptionRefs, CanonOptions(c)))
  {
    var os := CanonOptions(c);
    AgreeConcat(rho, sigma, CanonFuncRefs(c) + CanonTypeRefs(c) + CanonMemRefs(c), CanonTableRefs(c));
    AgreeConcat(rho, sigma, CanonFuncRefs(c) + CanonTypeRefs(c), CanonMemRefs(c));
    AgreeConcat(rho, sigma, CanonFuncRefs(c), CanonTypeRefs(c));
    AgreeConcat(rho, sigma, CanonFuncHead(c), FlatMap(OptionFuncRefs, os));
    AgreeConcat(rho, sigma, CanonTypeHead(c), FlatMap(OptionTypeRefs, os));
    AgreeConcat(rho, sigma, CanonMemHead(c), FlatMap(OptionMemRefs, os));
    OptionsAgree(rho, sigma, os);
  }

  lemma CanonDecided(rho: Renaming, sigma: Renaming, c: Canon)
    ensures Agree(rho, sigma, CanonRefs(c)) <==> FixCanon(rho, c) == FixCanon(sigma, c)
  {
    var os := CanonOptions(c);
    CanonAgree(rho, sigma, c);
    forall o | o in os ensures Decided(FixOption, OptionRefs, rho, sigma, o) { OptionDecided(rho, sigma, o); }
    ListDecided(FixOption, OptionRefs, rho, sigma, os);
    HeadsDecided(rho, sigma, c);
  }

  /** Canonical functions that differ in nothing but what they name themselves. */
  lemma HeadsDecided(rho: Renaming, sigma: Renaming, c: Canon)
    ensures FixCanon(rho, c) == FixCanon(sigma, c)
       <==> HeadsAgree(rho, sigma, c) && Map(FixOption(rho), CanonOptions(c)) == Map(FixOption(sigma), CanonOptions(c))
  {
    match c {
      case Lift(_, _, _) =>
        AgreeOne(rho, sigma, CanonFuncHead(c)[0]);
        AgreeOne(rho, sigma, CanonTypeHead(c)[0]);
      case Lower(_, _) => AgreeOne(rho, sigma, CanonFuncHead(c)[0]);
      case ResourceNew(_) => AgreeOne(rho, sigma, CanonTypeHead(c)[0]);
      case TaskReturn(result, _) => OptValDecided(rho, sigma, result);
      case StreamRead(_, _) => AgreeOne(rho, sigma, CanonTypeHead(c)[0]);
      case WaitableSetWait(_, _) => AgreeOne(rho, sigma, CanonMemHead(c)[0]);
      case ThreadNewIndirect(_, _) =>
        AgreeOne(rho, sigma, CanonTypeHead(c)[0]);
        AgreeOne(rho, sigma, CanonTableRefs(c)[0]);
      case ContextGet(_) =>
    }
  }

  // ------------------------------------------------------------------------------------
  // Main results
  // ------------------------------------------------------------------------------------

  /** Two renamings encode an item alike if and only if they agree on what is looked up for it. */
  lemma LookupsDecide(rho: Renaming, sigma: Renaming, x: Item)
    ensures Agree(rho, sigma, ItemLooked(x)) <==> FixItem(rho, x) == FixItem(sigma, x)
  {
    match x {
      case LeafItem(t) => LeafDecided(rho, sigma, t);
      case SubTypeItem(t) => SubTypeDecided(rho, sigma, t);
      case AliasItem(a) => AgreeOne(rho, sigma, AliasRef(a));
      case ImportedItem(i) => TypeRefDecided(rho, sigma, i.ty);
      case ExportedItem(e) => ExportDecided(rho, sigma, e);
      case CompInstanceItem(i) => CompInstanceDecided(rho, sigma, i);
      case CoreInstanceItem(i) => CoreInstanceDecided(rho, sigma, i);
      case CanonItem(c) => CanonDecided(rho, sigma, c);
      case StartItem(s) => StartDecided(rho, sigma, s);
    }
  }

  /** The same for a top-level item as the encoder is given it; modules and custom sections look
      nothing up. */
  lemma PlainLookupsDecide(rho: Renaming, sigma: Renaming, p: Plain)
    ensures Agree(rho, sigma, PlainLooked(p)) <==> FixPlain(rho, p) == FixPlain(sigma, p)
  {
    if p.Referring? { LookupsDecide(rho, sigma, p.item); }
  }

  /** The same for a type without a body, at the top level, where resources look nothing up; inside
      a body the second rewriting looks up what the first one put in. */
  lemma LeafLookupsDecide(rho: Renaming, sigma: Renaming, leaf: LeafType)
    ensures Agree(rho, sigma, LeafLooked(rho, leaf, false)) <==> FixTopLeaf(rho, leaf) == FixTopLeaf(sigma, leaf)
    ensures Agree(rho, sigma, LeafLooked(rho, leaf, true)) ==> FixNestedLeaf(rho, leaf) == FixNestedLeaf(sigma, leaf)
    ensures !leaf.Resource? ==> LeafLooked(rho, leaf, true) == LeafRefs(leaf) + Map(Renamed(rho), LeafRefs(leaf))
    ensures leaf.Resource? ==> LeafLooked(rho, leaf, true) == LeafRefs(leaf)
  {
    LeafDecided(rho, sigma, leaf);
    LeafDecided(rho, sigma, FixLeaf(rho, leaf));
    LeafLaws(rho, rho, leaf);
    AgreeConcat(rho, sigma, LeafRefs(leaf), LeafRefs(FixLeaf(rho, leaf)));
  }

  /** The same for the other declarations of a type body. */
  lemma DeclLookupsDecide(env: Env, other: Env, stack: seq<ScopeId>, d: Decl, path: Path)
    requires d.AliasDecl? || d.ExportDecl? || d.ImportDecl?
    ensures Agree(RhoAt(env, stack), RhoAt(other, stack), DeclLooked(d))
       <==> EncDeclOf(env, stack, d, path) == EncDeclOf(other, stack, d, path)
  {
    var rho, sigma := RhoAt(env, stack), RhoAt(other, stack);
    match d {
      case AliasDecl(a) => AgreeOne(rho, sigma, AliasRef(a));
      case ExportDecl(_, ty) => TypeRefDecided(rho, sigma, ty);
      case ImportDecl(_, ty) => TypeRefDecided(rho, sigma, ty);
    }
  }

  /** And for the declarations of a module type. */
  lemma ModuleLookupsDecide(rho: Renaming, sigma: Renaming, d: ModuleDecl)
    ensures Agree(rho, sigma, ModuleDeclLooked(d)) <==> EncModuleDeclOf(rho, d) == EncModuleDeclOf(sigma, d)
  {
    match d {
      case ModuleTypes(group) => GroupDecided(rho, sigma, group);
      case ModuleImport(_, _, ty) => CoreTypeRefDecided(rho, sigma, ty);
      case ModuleExport(_, ty) => CoreTypeRefDecided(rho, sigma, ty);
      case ModuleOuterAlias(count, index) => AgreeOne(rho, sigma, IndexedRef(count, Space.CoreType, index));
    }
  }

  lemma GroupDecided(rho: Renaming, sigma: Renaming, group: RecGroup)
    ensures Agree(rho, sigma, FlatMap(SubTypeRefs, group.subs))
       <==> EncModuleDeclOf(rho, ModuleTypes(group)) == EncModuleDeclOf(sigma, ModuleTypes(group))
  {
    var fix := (r: Renaming) => (t: SubType) => FixSubType(r, t);
    forall t | t in group.subs ensures Decided(fix, SubTypeRefs, rho, sigma, t) { SubTypeDecided(rho, sigma, t); }
    ListDecided(fix, SubTypeRefs, rho, sigma, group.subs);
    assert FixSubs(rho, group.subs) == Map(fix(rho), group.subs);
    assert FixSubs(sigma, group.subs) == Map(fix(sigma), group.subs);
    if !group.isExplicit { Unwrapped(FixSubs(rho, group.subs), FixSubs(sigma, group.subs)); }
  }

  lemma Unwrapped(a: seq<SubType>, b: seq<SubType>)
    ensures Map(s => EncModuleSub(s), a) == Map(s => EncModuleSub(s), b) <==> a == b
  {
    if Map(s => EncModuleSub(s), a) == Map(s => EncModuleSub(s), b) {
      forall i | 0 <= i < |a| ensures i < |b| && a[i] == b[i] {
        assert Map(s => EncModuleSub(s), a)[i] == Map(s => EncModuleSub(s), b)[i];
      }
    }
  }

  // ------------------------------------------------------------------------------------
  // What is looked up and what is reported
  // ------------------------------------------------------------------------------------

  /** The renaming that moves nothing. */
  function Own(): Renaming { (r: IndexedRef) => r.index }

  lemma OwnKeeps(x: Item)
    ensures FixItem(Own(), x) == x
  {
    if x.CompInstanceItem? && x.compInst.FromExports? {
      var exports := x.compInst.exports;
      forall e | e in exports ensures FixExport(Own())(e) == e { ExportLaws(Own(), Own(), e); }
      assert Map(FixExport(Own()), exports) == exports;
    } else {
      RewritingTouchesOnlyReferences(Own(), Own(), x);
    }
  }

  /** Rewriting leaves an item as it is if and only if nothing looked up for it moves. */
  lemma KeptExactlyWhen(rho: Renaming, x: Item)
    ensures FixItem(rho, x) == x <==> Keeps(rho, ItemLooked(x))
  {
    OwnKeeps(x);
    LookupsDecide(rho, Own(), x);
    assert Keeps(rho, ItemLooked(x)) <==> Agree(rho, Own(), ItemLooked(x));
  }

  /** Whenever what the item reports stays where it is, so does the item. */
  ghost predicate ReportsSuffice(x: Item) {
    forall rho: Renaming {:trigger Keeps(rho, Reported(x))} :: Keeps(rho, Reported(x)) ==> FixItem(rho, x) == x
  }

  /** That holds if and only if all that is looked up is reported. */
  lemma ReportsSufficeExactlyWhen(x: Item)
    ensures ReportsSuffice(x) ==> forall r :: r in ItemLooked(x) ==> r in Reported(x)
    ensures ReportsSuffice(x) <== forall r :: r in ItemLooked(x) ==> r in Reported(x)
  {
    if ReportsSuffice(x) {
      forall r | r in ItemLooked(x) ensures r in Reported(x) {
        var rho: Renaming := (q: IndexedRef) => if q == r then r.index + 1 else q.index;
        KeptExactlyWhen(rho, x);
        if r !in Reported(x) { assert Keeps(rho, Reported(x)); }
      }
    }
    if forall r :: r in ItemLooked(x) ==> r in Reported(x) {
      forall rho: Renaming | Keeps(rho, Reported(x)) ensures FixItem(rho, x) == x { KeptExactlyWhen(rho, x); }
    }
  }

  /** It fails for a core function type: its parameter moves, and nothing is reported. */
  lemma ParameterUnreported()
    ensures var x := SubTypeItem(SubType(true, None, CoreFuncType([RefConcrete(true, 0)], [])));
            Reported(x) == [] && !ReportsSuffice(x)
  {
    var x := SubTypeItem(SubType(true, None, CoreFuncType([RefConcrete(true, 0)], [])));
    var params := [RefConcrete(true, 0)];
    assert FlatMap(CoreValRefs, params) == CoreValRefs(params[0]) + FlatMap(CoreValRefs, params[1..]);
    assert CompositeRefs(x.sub.inner) == FlatMap(CoreValRefs, params) + FlatMap(CoreValRefs, []);
    assert SubTypeRefs(x.sub)[0] == Here(Space.CoreType, 0);
    assert Here(Space.CoreType, 0) in ItemLooked(x);
    ReportsSufficeExactlyWhen(x);
  }

  /** So a function type of a module type comes ahead of a later type its parameter mentions, where a
      structure with the same field comes after it. */
  lemma ParametersAreNotPulled()
    ensures var later := ModuleTypes(RecGroup(false, [SubType(true, None, CoreStructType([]))]));
            var func := SubType(true, None, CoreFuncType([RefConcrete(true, 1)], []));
            var struct := SubType(true, None, CoreStructType([RefConcrete(true, 1)]));
            && ModuleOrder(PulledAhead, [ModuleTypes(RecGroup(false, [func])), later]) == [0, 1]
            && ModuleOrder(PulledAhead, [ModuleTypes(RecGroup(false, [struct])), later]) == [1, 0]
  {
    var later := ModuleTypes(RecGroup(false, [SubType(true, None, CoreStructType([]))]));
    var func := SubType(true, None, CoreFuncType([RefConcrete(true, 1)], []));
    var struct := SubType(true, None, CoreStructType([RefConcrete(true, 1)]));
    assert FlatMap(SubTypeReported, [func]) == SubTypeReported(func) + FlatMap(SubTypeReported, []);
    assert ModuleDeclRefs(ModuleTypes(RecGroup(false, [func]))) == [];
    TwoDecls(ModuleTypes(RecGroup(false, [func])), later);
    var fields := [RefConcrete(true, 1)];
    assert FlatMap(CoreValRefs, fields) == CoreValRefs(fields[0]) + FlatMap(CoreValRefs, fields[1..]);
    assert FlatMap(SubTypeReported, [struct]) == SubTypeReported(struct) + FlatMap(SubTypeReported, []);
    assert ModuleDeclRefs(ModuleTypes(RecGroup(false, [struct]))) == [Here(Space.CoreType, 1)];
    TwoDecls(ModuleTypes(RecGroup(false, [struct])), later);
  }

  /** Of two declarations the second is pulled ahead where the first reports it. */
  lemma TwoDecls(first: ModuleDecl, second: ModuleDecl)
    requires ModuleDeclRefs(first) == [] || ModuleDeclRefs(first) == [Here(Space.CoreType, 1)]
    ensures ModuleOrder(PulledAhead, [first, second]) == if ModuleDeclRefs(first) == [] then [0, 1] else [1, 0]
  {
    var targets := ModuleDeclTargets([first, second]);
    SecondTarget(ModuleDeclSpaces([first, second]));
    assert targets[0] == if ModuleDeclRefs(first) == [] then [] else [1];
    TwoTargets(targets);
  }

  lemma SecondTarget(spaces: seq<Space>)
    requires spaces == [Space.CoreType, Space.CoreType]
    ensures Targets(spaces, []) == [] && Targets(spaces, [Here(Space.CoreType, 1)]) == [1]
  {
    var r := Here(Space.CoreType, 1);
    PositionsSnoc([], Space.CoreType, Space.CoreType);
    PositionsSnoc([Space.CoreType], Space.CoreType, Space.CoreType);
    assert [] + [Space.CoreType] == [Space.CoreType] && [Space.CoreType] + [Space.CoreType] == spaces;
    assert Positions(spaces, Space.CoreType) == [0, 1];
    assert [r][..0] == [];
    assert Targets(spaces, [r]) == Targets(spaces, []) + [1];
  }

  lemma TwoTargets(targets: seq<seq<nat>>)
    requires |targets| == 2 && (targets[0] == [] || targets[0] == [1]) && Topological.AllBelow(targets[1], 2)
    ensures Topological.CollectBody(targets, 2).out == if targets[0] == [] then [0, 1] else [1, 0]
  {
    var start := Topological.Topo({0}, []);
    assert Topological.CollectBody(targets, 0) == Topological.NOTHING;
    assert {} + {0} == {0};
    if targets[0] == [] {
      assert Topological.PullAhead(targets[0], start) == start;
      assert Topological.CollectBody(targets, 1) == Topological.Topo({0}, [0]);
      NothingPulled(targets[1], Topological.Topo({0} + {1}, [0]));
    } else {
      assert targets[0][..0] == [] && Topological.PullAhead([], start) == start;
      assert Topological.PullAhead(targets[0], start) == Topological.Topo({0} + {1}, [1]);
      assert Topological.CollectBody(targets, 1) == Topological.Topo({0} + {1}, [1, 0]);
    }
  }

  lemma {:induction false} NothingPulled(ds: seq<nat>, t: Topological.Topo)
    requires forall d :: d in ds ==> d in t.seen
    ensures Topological.PullAhead(ds, t) == t
  {
    if ds != [] { NothingPulled(ds[..|ds| - 1], t); }
  }
}
