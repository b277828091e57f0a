/** Encoding preserves meaning: concretizing an encoded type gives the tree of the original. */
module Meaning {
  import opened Prelude
  import opened Spaces
  import opened Types
  import opened ActualIds
  import opened FixIndices
  import opened Reindex
  import opened Concretize

  /** One encoding: the type spaces of the enclosing scopes, the emission that numbers them, a
      rank showing that they are acyclic, and the name maps used before and after. */
  datatype Encoding = Encoding(w: World, es: seq<Emission>, stack: seq<ScopeId>, rank: Ranks, before: Names,
                               after: Names) {

    /** The component types of the scope at level `k`, in emission order. */
    function Order(k: nat): seq<nat>
      requires k < |stack|
    {
      OrderOf(es, stack[k], Space.CompType)
    }

    /** The renaming applied to the items of level `k`. */
    function Rho(k: nat): Renaming
      requires k < |stack|
    {
      RenamingAt(es, stack[..k + 1])
    }

    /** The id type `a` of level `k` gets. */
    function New(k: nat, a: nat): nat
      requires k < |stack|
    {
      ActualOf(es, stack[k], Space.CompType, a)
    }

    /** Every item of every enclosing scope is emitted exactly once. */
    ghost predicate Emitted() {
      && |stack| == |w|
      && Shaped(w, rank)
      && WellEmitted(es)
      && forall k :: 0 <= k < |w| ==> |Order(k)| == |w[k]|
    }

    /** The type spaces after encoding: emitted order, every item rewritten. */
    function Encoded(): (r: World)
      requires Emitted()
      ensures |r| == |w| && forall k :: 0 <= k < |w| ==> |r[k]| == |w[k]|
    {
      seq(|w|, k requires 0 <= k < |w| =>
        seq(|w[k]|, i requires 0 <= i < |w[k]| =>
          assert IsPermutation(Order(k)) && Order(k)[i] < |Order(k)|;
          FixTypeItem(Rho(k), w[k][Order(k)[i]])))
    }

    /** The same ranks, read in the emitted numbering. */
    function EncodedRanks(): (r: Ranks)
      requires Emitted()
      ensures Shaped(Encoded(), r)
    {
      seq(|w|, k requires 0 <= k < |w| =>
        seq(|w[k]|, i requires 0 <= i < |w[k]| =>
          assert IsPermutation(Order(k)) && Order(k)[i] < |Order(k)|;
          rank[k][Order(k)[i]]))
    }

    predicate BoundStaysAt(k: nat, a: nat)
      requires |stack| == |w| && k < |w| && a < |w[k]|
    {
      match w[k][a]
      case TypeImport(imp) => BoundStays(Rho(k), imp.ty)
      case DeclExport(_, ty) => BoundStays(Rho(k), ty)
      case TypeExport(exp) => exp.ty.Some? ==> BoundStays(Rho(k), exp.ty.value)
      case _ => true
    }

    /** `Eq` bounds are not rewritten, so the types they name must keep their ids. */
    predicate BoundsStay()
      requires |stack| == |w|
    {
      forall k, a {:trigger BoundStaysAt(k, a)} :: 0 <= k < |w| && 0 <= a < |w[k]| ==> BoundStaysAt(k, a)
    }

    /** The handles defined as type `a` name the same resource before and after. */
    ghost predicate HandlesAgreeAt(k: nat, a: nat)
      requires Emitted() && k < |w| && a < |w[k]|
    {
      match w[k][a]
      case TypeDef(Defined(Own(i))) => HandleAgrees(k, i)
      case TypeDef(Defined(Borrow(i))) => HandleAgrees(k, i)
      case _ => true
    }

    ghost predicate HandleAgrees(k: nat, i: nat)
      requires Emitted() && k < |w|
    {
      HandleName(Encoded(), after, k, New(k, i)) == HandleName(w, before, k, i)
    }

    ghost predicate HandlesAgree()
      requires Emitted()
    {
      forall k, a {:trigger HandlesAgreeAt(k, a)} :: 0 <= k < |w| && 0 <= a < |w[k]| ==> HandlesAgreeAt(k, a)
    }

    /** Type `a` unfolds to the same tree before and after. */
    ghost predicate TreeKept(k: nat, a: nat)
      requires Emitted() && k < |w| && a < |w[k]| && New(k, a) < |w[k]|
    {
      ConcAt(Encoded(), EncodedRanks(), after, k, New(k, a)) == ConcAt(w, rank, before, k, a)
    }

    /** An acyclic graph whose types are rewritten in full. */
    ghost predicate Rewritten() {
      Emitted() && Acyclic(w, rank) && BoundsStay()
    }

    ghost predicate Faithful() {
      Rewritten() && HandlesAgree()
    }
  }

  /** Position `New(k, a)` of the encoded space holds the rewritten type `a`. */
  lemma EncodedItem(c: Encoding, k: nat, a: nat)
    requires c.Emitted() && k < |c.w| && a < |c.w[k]|
    ensures var n := c.New(k, a);
            && n < |c.w[k]| && c.Order(k)[n] == a
            && c.Encoded()[k][n] == FixTypeItem(c.Rho(k), c.w[k][a])
            && c.EncodedRanks()[k][n] == c.rank[k][a]
  {
    assert IsPermutation(c.Order(k));
    PermutationCovers(c.Order(k), a);
    ActualIsPosition(c.es, c.stack[k], Space.CompType, a);
  }

  /** A type reference of level `k` is renamed to the new id of its target. */
  lemma TypeRefRenamed(c: Encoding, k: nat, depth: nat, i: nat)
    requires c.Emitted() && depth <= k < |c.w|
    ensures c.Rho(k)(IndexedRef(depth, Space.CompType, i)) == c.New(k - depth, i)
  {
    assert ScopeAt(c.stack[..k + 1], depth) == c.stack[k - depth];
  }

  lemma OuterDescends(w: World, rank: Ranks, k: nat, a: nat, count: nat, i: nat)
    requires Acyclic(w, rank) && k < |w| && a < |w[k]| && w[k][a] == TypeAlias(Outer(OuterType, count, i))
    ensures count <= k && i < |w[k - count]|
    ensures count == 0 ==> rank[k][i] < rank[k][a]
  {
    var r := IndexedRef(count, Space.CompType, i);
    assert AliasRef(w[k][a].als) == r;
    assert r in TypeItemRefs(w[k][a]);
    assert Descends(w, rank, k, a, r);
  }

  lemma FixedOuter(rho: Renaming, count: nat, i: nat)
    ensures FixTypeItem(rho, TypeAlias(Outer(OuterType, count, i)))
         == TypeAlias(Outer(OuterType, count, rho(IndexedRef(count, Space.CompType, i))))
  {
  }

  /** An outer alias keeps pointing at the same type of the same enclosing scope. */
  lemma OuterTarget(c: Encoding, k: nat, a: nat, count: nat, i: nat)
    requires c.Emitted() && count <= k < |c.w| && i < |c.w[k - count]|
    requires a < |c.w[k]| && c.w[k][a] == TypeAlias(Outer(OuterType, count, i))
    ensures c.New(k, a) < |c.w[k]| && c.New(k - count, i) < |c.w[k - count]|
    ensures c.Encoded()[k][c.New(k, a)] == TypeAlias(Outer(OuterType, count, c.New(k - count, i)))
    ensures c.Encoded()[k - count][c.New(k - count, i)] == FixTypeItem(c.Rho(k - count), c.w[k - count][i])
  {
    EncodedItem(c, k, a);
    TypeRefRenamed(c, k, count, i);
    FixedOuter(c.Rho(k), count, i);
    EncodedItem(c, k - count, i);
  }

  /** How an outer alias is followed, in any world. */
  lemma OuterFollowed(w: World, rank: Ranks, names: Names, k: nat, a: nat, count: nat, i: nat)
    requires Shaped(w, rank) && count <= k < |w| && a < |w[k]| && i < |w[k - count]|
    requires w[k][a] == TypeAlias(Outer(OuterType, count, i))
    ensures ConcAt(w, rank, names, k, a)
         == if count == 0 then ConcBelow(w, rank, names, k, rank[k][a], i) else ConcAt(w, rank, names, k - count, i)
  {
  }

  lemma BelowSame(c: Encoding, k: nat, bound: nat, i: nat)
    requires c.Faithful() && k < |c.w| && i < |c.w[k]|
    ensures ConcBelow(c.Encoded(), c.EncodedRanks(), c.after, k, bound, c.New(k, i))
         == ConcBelow(c.w, c.rank, c.before, k, bound, i)
    decreases k, bound, 0
  {
    EncodedItem(c, k, i);
    if c.rank[k][i] < bound { AtSame(c, k, i); }
  }

  lemma ValSame(c: Encoding, k: nat, bound: nat, v: ValType)
    requires c.Faithful() && k < |c.w|
    requires forall r :: r in ValRefs(v) ==> r.index < |c.w[k]|
    ensures ConcValType(c.Encoded(), c.EncodedRanks(), c.after, k, bound, FixVal(c.Rho(k))(v))
         == ConcValType(c.w, c.rank, c.before, k, bound, v)
    decreases k, bound, 1
  {
    if v.Type? {
      assert Here(Space.CompType, v.index) in ValRefs(v);
      TypeRefRenamed(c, k, 0, v.index);
      BelowSame(c, k, bound, v.index);
    }
  }

  lemma OptionalSame(c: Encoding, k: nat, bound: nat, v: Option<ValType>)
    requires c.Faithful() && k < |c.w|
    requires forall r :: r in OptValRefs(v) ==> r.index < |c.w[k]|
    ensures ConcOptional(c.Encoded(), c.EncodedRanks(), c.after, k, bound, v.Map(FixVal(c.Rho(k))))
         == ConcOptional(c.w, c.rank, c.before, k, bound, v)
    decreases k, bound, 2
  {
    if v.Some? { ValSame(c, k, bound, v.value); }
  }

  lemma FieldsSame(c: Encoding, k: nat, bound: nat, fs: seq<(string, ValType)>)
    requires c.Faithful() && k < |c.w|
    requires forall r :: r in FlatMap(FieldRefs, fs) ==> r.index < |c.w[k]|
    ensures ConcFields(c.Encoded(), c.EncodedRanks(), c.after, k, bound, Map(FixField(c.Rho(k)), fs))
         == ConcFields(c.w, c.rank, c.before, k, bound, fs)
    decreases k, bound, 2
  {
    EachListed(FieldRefs, fs);
    forall i | 0 <= i < |fs|
      ensures ConcValType(c.Encoded(), c.EncodedRanks(), c.after, k, bound, FixVal(c.Rho(k))(fs[i].1))
           == ConcValType(c.w, c.rank, c.before, k, bound, fs[i].1)
    {
      assert fs[i] in fs && FieldRefs(fs[i]) == ValRefs(fs[i].1);
      ValSame(c, k, bound, fs[i].1);
    }
  }

  lemma CasesSame(c: Encoding, k: nat, bound: nat, cs: seq<(string, Option<ValType>)>)
    requires c.Faithful() && k < |c.w|
    requires forall r :: r in FlatMap(CaseRefs, cs) ==> r.index < |c.w[k]|
    ensures ConcCases(c.Encoded(), c.EncodedRanks(), c.after, k, bound, Map(FixCase(c.Rho(k)), cs))
         == ConcCases(c.w, c.rank, c.before, k, bound, cs)
    decreases k, bound, 3
  {
    EachListed(CaseRefs, cs);
    forall i | 0 <= i < |cs|
      ensures ConcOptional(c.Encoded(), c.EncodedRanks(), c.after, k, bound, cs[i].1.Map(FixVal(c.Rho(k))))
           == ConcOptional(c.w, c.rank, c.before, k, bound, cs[i].1)
    {
      assert cs[i] in cs && CaseRefs(cs[i]) == OptValRefs(cs[i].1);
      OptionalSame(c, k, bound, cs[i].1);
    }
  }

  lemma ElemsSame(c: Encoding, k: nat, bound: nat, vs: seq<ValType>)
    requires c.Faithful() && k < |c.w|
    requires forall r :: r in FlatMap(ValRefs, vs) ==> r.index < |c.w[k]|
    ensures ConcElems(c.Encoded(), c.EncodedRanks(), c.after, k, bound, Map(FixVal(c.Rho(k)), vs))
         == ConcElems(c.w, c.rank, c.before, k, bound, vs)
    decreases k, bound, 2
  {
    EachListed(ValRefs, vs);
    forall i | 0 <= i < |vs|
      ensures ConcValType(c.Encoded(), c.EncodedRanks(), c.after, k, bound, FixVal(c.Rho(k))(vs[i]))
           == ConcValType(c.w, c.rank, c.before, k, bound, vs[i])
    {
      assert vs[i] in vs;
      ValSame(c, k, bound, vs[i]);
    }
  }

  lemma OwnSame(c: Encoding, k: nat, bound: nat, t: DefinedType)
    requires c.Faithful() && k < |c.w| && (t.Own? || t.Borrow?)
    requires c.HandleAgrees(k, t.resource)
    ensures ConcDefined(c.Encoded(), c.EncodedRanks(), c.after, k, bound, FixDefined(c.Rho(k), t))
         == ConcDefined(c.w, c.rank, c.before, k, bound, t)
  {
    FixedHandle(c, k, t);
    HandleTree(c.w, c.rank, c.before, k, bound, t);
    HandleTree(c.Encoded(), c.EncodedRanks(), c.after, k, bound, FixDefined(c.Rho(k), t));
  }

  lemma HandleTree(w: World, rank: Ranks, names: Names, k: nat, bound: nat, t: DefinedType)
    requires Shaped(w, rank) && k < |w| && (t.Own? || t.Borrow?)
    ensures ConcDefined(w, rank, names, k, bound, t) == ConcHandle(w, names, k, t.resource)
  {
  }

  lemma FixedHandle(c: Encoding, k: nat, t: DefinedType)
    requires c.Emitted() && k < |c.w| && (t.Own? || t.Borrow?)
    ensures var u := FixDefined(c.Rho(k), t);
            (u.Own? || u.Borrow?) && u.resource == c.New(k, t.resource)
  {
    TypeRefRenamed(c, k, 0, t.resource);
  }

  lemma ListSame(c: Encoding, k: nat, bound: nat, t: DefinedType)
    requires c.Faithful() && k < |c.w| && IsList(t)
    requires forall r :: r in DefinedRefs(t) ==> r.index < |c.w[k]|
    ensures ConcDefined(c.Encoded(), c.EncodedRanks(), c.after, k, bound, FixDefined(c.Rho(k), t))
         == ConcDefined(c.w, c.rank, c.before, k, bound, t)
    decreases k, bound, 4
  {
    match t {
      case Record(fields) => FieldsSame(c, k, bound, fields);
      case Variant(cases) => CasesSame(c, k, bound, cases);
      case Tuple(tys) => ElemsSame(c, k, bound, tys);
    }
  }

  lemma PairSame(c: Encoding, k: nat, bound: nat, t: DefinedType)
    requires c.Faithful() && k < |c.w| && IsPair(t)
    requires forall r :: r in DefinedRefs(t) ==> r.index < |c.w[k]|
    ensures ConcDefined(c.Encoded(), c.EncodedRanks(), c.after, k, bound, FixDefined(c.Rho(k), t))
         == ConcDefined(c.w, c.rank, c.before, k, bound, t)
    decreases k, bound, 4
  {
    match t {
      case ResultOf(ok, err) =>
        OptionalSame(c, k, bound, ok);
        OptionalSame(c, k, bound, err);
      case MapOf(key, val) =>
        ValSame(c, k, bound, key);
        ValSame(c, k, bound, val);
    }
  }

  lemma DefinedSame(c: Encoding, k: nat, bound: nat, t: DefinedType)
    requires c.Faithful() && k < |c.w|
    requires forall r :: r in DefinedRefs(t) ==> r.index < |c.w[k]|
    requires t.Own? || t.Borrow? ==> c.HandleAgrees(k, t.resource)
    ensures ConcDefined(c.Encoded(), c.EncodedRanks(), c.after, k, bound, FixDefined(c.Rho(k), t))
         == ConcDefined(c.w, c.rank, c.before, k, bound, t)
    decreases k, bound, 5
  {
    if IsList(t) {
      ListSame(c, k, bound, t);
    } else if IsPair(t) {
      PairSame(c, k, bound, t);
    } else if t.Own? || t.Borrow? {
      OwnSame(c, k, bound, t);
    } else {
      match t {
        case List(ty) => ValSame(c, k, bound, ty);
        case FixedLengthList(ty, _) => ValSame(c, k, bound, ty);
        case OptionOf(ty) => ValSame(c, k, bound, ty);
        case _ =>
      }
    }
  }

  lemma BoundSame(c: Encoding, k: nat, bound: nat, ty: TypeRef)
    requires c.Faithful() && k < |c.w| && BoundStays(c.Rho(k), ty)
    requires ty.TypeRefBound? ==> forall r :: r in TypeRefRefs(ty) ==> r.index < |c.w[k]|
    ensures ConcTypeRef(c.Encoded(), c.EncodedRanks(), c.after, k, bound, FixTypeRef(c.Rho(k), ty))
         == ConcTypeRef(c.w, c.rank, c.before, k, bound, ty)
    decreases k, bound, 1
  {
    if ty.TypeRefBound? && ty.bounds.Eq? {
      assert TypeRefRefs(ty)[0] in TypeRefRefs(ty);
      TypeRefRenamed(c, k, 0, ty.bounds.index);
      BelowSame(c, k, bound, ty.bounds.index);
    }
  }

  lemma OuterSame(c: Encoding, k: nat, a: nat, count: nat, i: nat)
    requires c.Faithful() && k < |c.w| && a < |c.w[k]| && c.w[k][a] == TypeAlias(Outer(OuterType, count, i))
    ensures c.New(k, a) < |c.w[k]|
    ensures ConcAt(c.Encoded(), c.EncodedRanks(), c.after, k, c.New(k, a)) == ConcAt(c.w, c.rank, c.before, k, a)
    decreases k, c.rank[k][a], 5
  {
    OuterDescends(c.w, c.rank, k, a, count, i);
    if count == 0 {
      BelowSame(c, k, c.rank[k][a], i);
      InnerAliasFollowed(c, k, a, i);
    } else {
      AtSame(c, k - count, i);
      OuterAliasFollowed(c, k, a, count, i);
    }
  }

  /** An alias of count 0 means what its target means, before and after. */
  lemma InnerAliasFollowed(c: Encoding, k: nat, a: nat, i: nat)
    requires c.Emitted() && k < |c.w| && a < |c.w[k]| && i < |c.w[k]|
    requires c.w[k][a] == TypeAlias(Outer(OuterType, 0, i))
    ensures c.New(k, a) < |c.w[k]|
    ensures ConcAt(c.w, c.rank, c.before, k, a) == ConcBelow(c.w, c.rank, c.before, k, c.rank[k][a], i)
    ensures ConcAt(c.Encoded(), c.EncodedRanks(), c.after, k, c.New(k, a))
         == ConcBelow(c.Encoded(), c.EncodedRanks(), c.after, k, c.rank[k][a], c.New(k, i))
  {
    OuterFollowed(c.w, c.rank, c.before, k, a, 0, i);
    InnerTarget(c, k, a, i);
    OuterFollowed(c.Encoded(), c.EncodedRanks(), c.after, k, c.New(k, a), 0, c.New(k, i));
  }

  lemma InnerTarget(c: Encoding, k: nat, a: nat, i: nat)
    requires c.Emitted() && k < |c.w| && a < |c.w[k]| && i < |c.w[k]|
    requires c.w[k][a] == TypeAlias(Outer(OuterType, 0, i))
    ensures c.New(k, a) < |c.w[k]| && c.New(k, i) < |c.w[k]|
    ensures c.Encoded()[k][c.New(k, a)] == TypeAlias(Outer(OuterType, 0, c.New(k, i)))
    ensures c.EncodedRanks()[k][c.New(k, a)] == c.rank[k][a]
  {
    assert FixTypeItem(c.Rho(k), c.w[k][a]) == TypeAlias(Outer(OuterType, 0, c.New(k, i))) by {
      TypeRefRenamed(c, k, 0, i);
      FixedOuter(c.Rho(k), 0, i);
    }
    EncodedItem(c, k, a);
    EncodedItem(c, k, i);
  }

  /** So does an alias of an enclosing scope's type. */
  lemma OuterAliasFollowed(c: Encoding, k: nat, a: nat, count: nat, i: nat)
    requires c.Emitted() && 0 < count <= k < |c.w| && a < |c.w[k]| && i < |c.w[k - count]|
    requires c.w[k][a] == TypeAlias(Outer(OuterType, count, i))
    ensures c.New(k, a) < |c.w[k]| && c.New(k - count, i) < |c.w[k - count]|
    ensures ConcAt(c.w, c.rank, c.before, k, a) == ConcAt(c.w, c.rank, c.before, k - count, i)
    ensures ConcAt(c.Encoded(), c.EncodedRanks(), c.after, k, c.New(k, a))
         == ConcAt(c.Encoded(), c.EncodedRanks(), c.after, k - count, c.New(k - count, i))
  {
    OuterTarget(c, k, a, count, i);
    OuterFollowed(c.w, c.rank, c.before, k, a, count, i);
    OuterFollowed(c.Encoded(), c.EncodedRanks(), c.after, k, c.New(k, a), count, c.New(k - count, i));
  }

  lemma ExportDescends(w: World, rank: Ranks, k: nat, a: nat, e: ExportItem)
    requires Acyclic(w, rank) && k < |w| && a < |w[k]| && w[k][a] == TypeExport(e) && e.kind == TypeKind
    ensures e.index < |w[k]|
  {
    var r := Here(Space.CompType, e.index);
    assert ExportItemRef(e)[0] == r && ExportRefs(e)[|ExportRefs(e)| - 1] == r;
    assert r in TypeItemRefs(w[k][a]);
    assert Descends(w, rank, k, a, r);
  }

  lemma ExportTree(w: World, rank: Ranks, names: Names, k: nat, a: nat, e: ExportItem)
    requires Shaped(w, rank) && k < |w| && a < |w[k]| && w[k][a] == TypeExport(e)
    ensures ConcAt(w, rank, names, k, a)
         == if e.kind == TypeKind then ConcBelow(w, rank, names, k, rank[k][a], e.index) else Aborts
  {
  }

  lemma FixedTypeExport(c: Encoding, k: nat, e: ExportItem)
    requires c.Emitted() && k < |c.w| && e.kind == TypeKind
    ensures FixExport(c.Rho(k))(e).kind == TypeKind && FixExport(c.Rho(k))(e).index == c.New(k, e.index)
  {
    assert ExportItemRef(e)[0] == Here(Space.CompType, e.index);
    TypeRefRenamed(c, k, 0, e.index);
  }

  lemma ExportSame(c: Encoding, k: nat, a: nat)
    requires c.Faithful() && k < |c.w| && a < |c.w[k]| && c.w[k][a].TypeExport?
    ensures c.New(k, a) < |c.w[k]|
    ensures ConcAt(c.Encoded(), c.EncodedRanks(), c.after, k, c.New(k, a)) == ConcAt(c.w, c.rank, c.before, k, a)
    decreases k, c.rank[k][a], 5
  {
    EncodedItem(c, k, a);
    var e := c.w[k][a].exp;
    ExportTree(c.w, c.rank, c.before, k, a, e);
    ExportTree(c.Encoded(), c.EncodedRanks(), c.after, k, c.New(k, a), FixExport(c.Rho(k))(e));
    if e.kind == TypeKind {
      ExportDescends(c.w, c.rank, k, a, e);
      FixedTypeExport(c, k, e);
      BelowSame(c, k, c.rank[k][a], e.index);
    }
  }

  lemma DefinitionInRange(w: World, rank: Ranks, k: nat, a: nat, def: DefinedType)
    requires Acyclic(w, rank) && k < |w| && a < |w[k]| && w[k][a] == TypeDef(Defined(def))
    ensures forall r :: r in DefinedRefs(def) ==> r.index < |w[k]|
  {
    TypesOnly(def);
    forall r | r in DefinedRefs(def) ensures r.index < |w[k]| {
      assert r in TypeItemRefs(w[k][a]);
      assert Descends(w, rank, k, a, r);
    }
  }

  lemma DefinitionSame(c: Encoding, k: nat, a: nat, def: DefinedType)
    requires c.Faithful() && k < |c.w| && a < |c.w[k]| && c.w[k][a] == TypeDef(Defined(def))
    ensures c.New(k, a) < |c.w[k]|
    ensures ConcAt(c.Encoded(), c.EncodedRanks(), c.after, k, c.New(k, a)) == ConcAt(c.w, c.rank, c.before, k, a)
    decreases k, c.rank[k][a], 6
  {
    EncodedItem(c, k, a);
    assert c.HandlesAgreeAt(k, a);
    DefinitionInRange(c.w, c.rank, k, a, def);
    DefinedSame(c, k, c.rank[k][a], def);
  }

  lemma BoundedSame(c: Encoding, k: nat, a: nat, ty: TypeRef)
    requires c.Faithful() && k < |c.w| && a < |c.w[k]|
    requires (c.w[k][a].TypeImport? && c.w[k][a].imp.ty == ty) || (c.w[k][a].DeclExport? && c.w[k][a].ty == ty)
    ensures c.New(k, a) < |c.w[k]|
    ensures ConcAt(c.Encoded(), c.EncodedRanks(), c.after, k, c.New(k, a)) == ConcAt(c.w, c.rank, c.before, k, a)
    decreases k, c.rank[k][a], 6
  {
    EncodedItem(c, k, a);
    BoundListed(c, k, a, ty);
    assert c.BoundStaysAt(k, a);
    BoundSame(c, k, c.rank[k][a], ty);
  }

  lemma {:induction false} AtSame(c: Encoding, k: nat, a: nat)
    requires c.Faithful() && k < |c.w| && a < |c.w[k]|
    ensures c.New(k, a) < |c.w[k]|
    ensures ConcAt(c.Encoded(), c.EncodedRanks(), c.after, k, c.New(k, a)) == ConcAt(c.w, c.rank, c.before, k, a)
    decreases k, c.rank[k][a], 7
  {
    match c.w[k][a] {
      case TypeDef(Defined(def)) => DefinitionSame(c, k, a, def);
      case TypeAlias(Outer(OuterType, count, i)) => OuterSame(c, k, a, count, i);
      case TypeImport(imp) => BoundedSame(c, k, a, imp.ty);
      case DeclExport(_, ty) => BoundedSame(c, k, a, ty);
      case TypeExport(_) => ExportSame(c, k, a);
      case _ => EncodedItem(c, k, a);
    }
  }

  lemma BoundListed(c: Encoding, k: nat, a: nat, ty: TypeRef)
    requires c.Faithful() && k < |c.w| && a < |c.w[k]| && TypeItemRefs(c.w[k][a]) == TypeRefRefs(ty)
    ensures ty.TypeRefBound? ==> forall r :: r in TypeRefRefs(ty) ==> r.index < |c.w[k]|
  {
    if ty.TypeRefBound? {
      forall r | r in TypeRefRefs(ty) ensures r.index < |c.w[k]| {
        assert r in TypeItemRefs(c.w[k][a]);
        assert Descends(c.w, c.rank, k, a, r);
      }
    }
  }

  lemma TypesOnly(t: DefinedType)
    ensures forall r :: r in DefinedRefs(t) ==> r.space == Space.CompType && r.depth == 0
  {
    match t {
      case Record(fields) => EachFromElement(FieldRefs, fields);
      case Variant(cases) => EachFromElement(CaseRefs, cases);
      case Tuple(tys) => EachFromElement(ValRefs, tys);
      case _ =>
    }
  }

  // ------------------------------------------------------------------------------------
  // Main results
  // ------------------------------------------------------------------------------------

  /** The tree of a type does not depend on how its acyclicity is witnessed. */
  lemma RankDoesNotMatter(w: World, r: Ranks, s: Ranks, names: Names, k: nat, a: nat)
    requires Acyclic(w, r) && Acyclic(w, s) && k < |w| && a < |w[k]|
    ensures ConcAt(w, r, names, k, a) == ConcAt(w, s, names, k, a)
    decreases k, r[k][a]
  {
    var t := w[k][a];
    forall x | x in TypeItemRefs(t) && x.space == Space.CompType
      ensures x.depth <= k && x.index < |w[k - x.depth]|
      ensures x.depth == 0 ==>
                ConcBelow(w, r, names, k, r[k][a], x.index) == ConcBelow(w, s, names, k, s[k][a], x.index)
      ensures x.depth > 0 ==> ConcAt(w, r, names, k - x.depth, x.index) == ConcAt(w, s, names, k - x.depth, x.index)
    {
      assert Descends(w, r, k, a, x) && Descends(w, s, k, a, x);
      RankDoesNotMatter(w, r, s, names, k - x.depth, x.index);
    }
    match t {
      case TypeDef(Defined(def)) => DefinedByRefs(w, r, s, names, k, r[k][a], s[k][a], def);
      case TypeAlias(al) => assert AliasRef(al) in TypeItemRefs(t);
      case TypeImport(imp) => if TypeRefRefs(imp.ty) != [] { assert TypeRefRefs(imp.ty)[0] in TypeItemRefs(t); }
      case DeclExport(_, ty) => if TypeRefRefs(ty) != [] { assert TypeRefRefs(ty)[0] in TypeItemRefs(t); }
      case TypeExport(e) => assert ExportRefs(e)[|ExportRefs(e)| - 1] in TypeItemRefs(t);
      case _ =>
    }
  }

  /** A defined type's tree is determined by the trees of the types it references. */
  lemma DefinedByRefs(w: World, r: Ranks, s: Ranks, names: Names, k: nat, br: nat, bs: nat, t: DefinedType)
    requires Shaped(w, r) && Shaped(w, s) && k < |w|
    requires forall x :: x in DefinedRefs(t) && x.space == Space.CompType && x.depth == 0 ==>
               ConcBelow(w, r, names, k, br, x.index) == ConcBelow(w, s, names, k, bs, x.index)
    ensures ConcDefined(w, r, names, k, br, t) == ConcDefined(w, s, names, k, bs, t)
  {
    TypesOnly(t);
    if IsList(t) {
      ListByRefs(w, r, s, names, k, br, bs, t);
    } else {
      match t {
        case List(ty) => ValByRefs(w, r, s, names, k, br, bs, ty);
        case FixedLengthList(ty, _) => ValByRefs(w, r, s, names, k, br, bs, ty);
        case OptionOf(ty) => ValByRefs(w, r, s, names, k, br, bs, ty);
        case ResultOf(ok, err) =>
          if ok.Some? { ValByRefs(w, r, s, names, k, br, bs, ok.value); }
          if err.Some? { ValByRefs(w, r, s, names, k, br, bs, err.value); }
        case MapOf(key, val) =>
          ValByRefs(w, r, s, names, k, br, bs, key);
          ValByRefs(w, r, s, names, k, br, bs, val);
        case _ =>
      }
    }
  }

  lemma ListByRefs(w: World, r: Ranks, s: Ranks, names: Names, k: nat, br: nat, bs: nat, t: DefinedType)
    requires Shaped(w, r) && Shaped(w, s) && k < |w| && IsList(t)
    requires forall x :: x in DefinedRefs(t) ==>
               ConcBelow(w, r, names, k, br, x.index) == ConcBelow(w, s, names, k, bs, x.index)
    ensures ConcDefined(w, r, names, k, br, t) == ConcDefined(w, s, names, k, bs, t)
  {
    match t {
      case Record(fields) =>
        EachListed(FieldRefs, fields);
        forall i | 0 <= i < |fields|
          ensures ConcValType(w, r, names, k, br, fields[i].1) == ConcValType(w, s, names, k, bs, fields[i].1)
        {
          assert fields[i] in fields && FieldRefs(fields[i]) == ValRefs(fields[i].1);
          ValByRefs(w, r, s, names, k, br, bs, fields[i].1);
        }
      case Variant(cases) =>
        EachListed(CaseRefs, cases);
        forall i | 0 <= i < |cases|
          ensures ConcOptional(w, r, names, k, br, cases[i].1) == ConcOptional(w, s, names, k, bs, cases[i].1)
        {
          assert cases[i] in cases && CaseRefs(cases[i]) == OptValRefs(cases[i].1);
          if cases[i].1.Some? { ValByRefs(w, r, s, names, k, br, bs, cases[i].1.value); }
        }
      case Tuple(tys) =>
        EachListed(ValRefs, tys);
        forall i | 0 <= i < |tys|
          ensures ConcValType(w, r, names, k, br, tys[i]) == ConcValType(w, s, names, k, bs, tys[i])
        {
          assert tys[i] in tys;
          ValByRefs(w, r, s, names, k, br, bs, tys[i]);
        }
    }
  }

  lemma ValByRefs(w: World, r: Ranks, s: Ranks, names: Names, k: nat, br: nat, bs: nat, v: ValType)
    requires Shaped(w, r) && Shaped(w, s) && k < |w|
    requires forall x :: x in ValRefs(v) ==>
               ConcBelow(w, r, names, k, br, x.index) == ConcBelow(w, s, names, k, bs, x.index)
    ensures ConcValType(w, r, names, k, br, v) == ConcValType(w, s, names, k, bs, v)
  {
    if v.Type? { assert Here(Space.CompType, v.index) in ValRefs(v); }
  }

  lemma EncodedRefs(c: Encoding, k: nat, a: nat)
    requires c.Emitted() && c.BoundsStay() && k < |c.w| && a < |c.w[k]|
    ensures TypeItemRefs(FixTypeItem(c.Rho(k), c.w[k][a])) == Map(Renamed(c.Rho(k)), TypeItemRefs(c.w[k][a]))
  {
    assert c.BoundStaysAt(k, a);
    match c.w[k][a] {
      case TypeDef(leaf) => LeafLaws(c.Rho(k), c.Rho(k), leaf);
      case TypeImport(imp) => TypeRefLaws(c.Rho(k), c.Rho(k), imp.ty);
      case DeclExport(_, ty) => TypeRefLaws(c.Rho(k), c.Rho(k), ty);
      case TypeExport(exp) => ExportRefsLaw(c.Rho(k), exp);
      case _ =>
    }
  }

  lemma EncodedDescends(c: Encoding, k: nat, a: nat, r: IndexedRef)
    requires c.Emitted() && Acyclic(c.w, c.rank) && k < |c.w| && a < |c.w[k]|
    requires r in TypeItemRefs(c.w[k][a]) && r.space == Space.CompType
    ensures c.New(k, a) < |c.w[k]|
    ensures Descends(c.Encoded(), c.EncodedRanks(), k, c.New(k, a), Renamed(c.Rho(k))(r))
  {
    EncodedItem(c, k, a);
    assert Descends(c.w, c.rank, k, a, r);
    RenamedDescends(c, k, a, r);
  }

  lemma RenamedDescends(c: Encoding, k: nat, a: nat, r: IndexedRef)
    requires c.Emitted() && k < |c.w| && a < |c.w[k]| && r.space == Space.CompType
    requires Descends(c.w, c.rank, k, a, r)
    requires c.New(k, a) < |c.w[k]| && c.EncodedRanks()[k][c.New(k, a)] == c.rank[k][a]
    ensures Descends(c.Encoded(), c.EncodedRanks(), k, c.New(k, a), Renamed(c.Rho(k))(r))
  {
    TypeRefRenamed(c, k, r.depth, r.index);
    EncodedItem(c, k - r.depth, r.index);
    assert Renamed(c.Rho(k))(r) == IndexedRef(r.depth, r.space, c.New(k - r.depth, r.index));
  }

  /** Encoding keeps the graph acyclic. */
  lemma EncodedIsAcyclic(c: Encoding)
    requires c.Emitted() && c.BoundsStay() && Acyclic(c.w, c.rank)
    ensures Acyclic(c.Encoded(), c.EncodedRanks())
  {
    var w2, rank2 := c.Encoded(), c.EncodedRanks();
    forall k, n, r | 0 <= k < |w2| && 0 <= n < |w2[k]| && r in TypeItemRefs(w2[k][n]) && r.space == Space.CompType
      ensures Descends(w2, rank2, k, n, r)
    {
      assert IsPermutation(c.Order(k)) && c.Order(k)[n] < |c.Order(k)|;
      var a := c.Order(k)[n];
      EncodedItem(c, k, a);
      EncodedRefs(c, k, a);
      var refs := TypeItemRefs(c.w[k][a]);
      var j :| 0 <= j < |refs| && r == Renamed(c.Rho(k))(refs[j]);
      assert refs[j] in refs;
      EncodedDescends(c, k, a, refs[j]);
    }
  }

  /** Concretizing type `a` after encoding, under its new id, gives exactly its tree before;
      any witness of acyclicity may be used on the encoded side. */
  lemma EncodingPreservesMeaning(c: Encoding, rank2: Ranks, k: nat, a: nat)
    requires c.Faithful() && Acyclic(c.Encoded(), rank2)
    requires k < |c.w| && a < |c.w[k]|
    ensures c.New(k, a) < |c.w[k]|
    ensures ConcAt(c.Encoded(), rank2, c.after, k, c.New(k, a)) == ConcAt(c.w, c.rank, c.before, k, a)
  {
    AtSame(c, k, a);
    EncodedIsAcyclic(c);
    RankDoesNotMatter(c.Encoded(), rank2, c.EncodedRanks(), c.after, k, c.New(k, a));
  }

  /** The condition on handles is exact: every type keeps its tree if and only if every handle
      names the same resource before and after. */
  lemma MeaningIsKeptExactlyWhen(c: Encoding)
    requires c.Rewritten()
    ensures forall k, a :: 0 <= k < |c.w| && 0 <= a < |c.w[k]| ==> c.New(k, a) < |c.w[k]|
    ensures (forall k, a :: 0 <= k < |c.w| && 0 <= a < |c.w[k]| ==> c.TreeKept(k, a)) <==> c.HandlesAgree()
  {
    forall k, a | 0 <= k < |c.w| && 0 <= a < |c.w[k]| ensures c.New(k, a) < |c.w[k]| { EncodedItem(c, k, a); }
    if c.HandlesAgree() {
      forall k, a | 0 <= k < |c.w| && 0 <= a < |c.w[k]| ensures c.TreeKept(k, a) { AtSame(c, k, a); }
    }
    if forall k, a :: 0 <= k < |c.w| && 0 <= a < |c.w[k]| ==> c.TreeKept(k, a) {
      forall k, a | 0 <= k < |c.w| && 0 <= a < |c.w[k]| ensures c.HandlesAgreeAt(k, a) {
        assert c.TreeKept(k, a);
        if c.w[k][a].TypeDef? && c.w[k][a].leaf.Defined? && (c.w[k][a].leaf.def.Own? || c.w[k][a].leaf.def.Borrow?) {
          TreeNamesHandle(c, k, a, c.w[k][a].leaf.def);
        }
      }
    }
  }

  /** The tree of a handle is the name it is given. */
  lemma TreeNamesHandle(c: Encoding, k: nat, a: nat, t: DefinedType)
    requires c.Emitted() && k < |c.w| && a < |c.w[k]| && c.w[k][a] == TypeDef(Defined(t)) && (t.Own? || t.Borrow?)
    requires c.New(k, a) < |c.w[k]| && c.TreeKept(k, a)
    ensures c.HandleAgrees(k, t.resource)
  {
    EncodedItem(c, k, a);
    FixedHandle(c, k, t);
    HandleTree(c.w, c.rank, c.before, k, c.rank[k][a], t);
    HandleTree(c.Encoded(), c.EncodedRanks(), c.after, k, c.rank[k][a], FixDefined(c.Rho(k), t));
  }

  /** The same for function types. */
  lemma EncodingPreservesSignatures(c: Encoding, k: nat, a: nat)
    requires c.Faithful() && k < |c.w| && a < |c.w[k]|
    requires c.w[k][a].TypeDef? && c.w[k][a].leaf.Func?
    ensures var n := c.New(k, a);
            && n < |c.w[k]| && c.Encoded()[k][n].TypeDef? && c.Encoded()[k][n].leaf.Func?
            && ConcSignature(c.Encoded(), c.EncodedRanks(), c.after, k, c.EncodedRanks()[k][n],
                             c.Encoded()[k][n].leaf.func)
            == ConcSignature(c.w, c.rank, c.before, k, c.rank[k][a], c.w[k][a].leaf.func)
  {
    var f, bound := c.w[k][a].leaf.func, c.rank[k][a];
    EncodedItem(c, k, a);
    SignatureInRange(c.w, c.rank, k, a, f);
    FieldsSame(c, k, bound, f.params);
    OptionalSame(c, k, bound, f.result);
  }

  lemma SignatureInRange(w: World, rank: Ranks, k: nat, a: nat, f: FuncType)
    requires Acyclic(w, rank) && k < |w| && a < |w[k]| && w[k][a] == TypeDef(Func(f))
    ensures forall r :: r in FlatMap(FieldRefs, f.params) || r in OptValRefs(f.result) ==> r.index < |w[k]|
  {
    EachFromElement(FieldRefs, f.params);
    forall r | r in FlatMap(FieldRefs, f.params) || r in OptValRefs(f.result) ensures r.index < |w[k]| {
      assert r in TypeItemRefs(w[k][a]);
      assert Descends(w, rank, k, a, r);
    }
  }

  /** Where two items of one space end up, when one is emitted before the other. */
  lemma EmittedEarlierIsSmaller(es: seq<Emission>, p: nat, scope: ScopeId, space: Space, a: nat, b: nat)
    requires p < |es| && es[p] == Emission(scope, space, a) && IsPermutation(OrderOf(es, scope, space))
    requires Emission(scope, space, b) in es[..p]
    ensures ActualOf(es, scope, space, b) < ActualOf(es, scope, space, a)
  {
    OrderMembers(es, scope, space, b);
    assert Emission(scope, space, b) in es;
    NoForwardReferences(es, p, scope, space, b);
    NotYetEmitted(es, p, scope, space, a);
  }

  /** Every type reference exists, and each type is emitted after those of its scope it refers to. */
  ghost predicate TypesInOrder(w: World, es: seq<Emission>, stack: seq<ScopeId>)
    requires |stack| == |w|
  {
    forall k, a, r {:trigger InOrderAt(w, es, stack, k, a, r)} ::
      0 <= k < |w| && 0 <= a < |w[k]| && r in TypeItemRefs(w[k][a]) && r.space == Space.CompType ==>
        InOrderAt(w, es, stack, k, a, r)
  }

  ghost predicate InOrderAt(w: World, es: seq<Emission>, stack: seq<ScopeId>, k: nat, a: nat, r: IndexedRef)
    requires |stack| == |w| && k < |w|
  {
    && r.depth <= k && r.index < |w[k - r.depth]|
    && (r.depth == 0 ==>
          forall p :: 0 <= p < |es| && es[p] == Emission(stack[k], Space.CompType, a) ==>
            Emission(stack[k], Space.CompType, r.index) in es[..p])
  }

  /** Emitting every type after what it references witnesses acyclicity by itself. */
  lemma EmissionOrderIsARank(w: World, es: seq<Emission>, stack: seq<ScopeId>)
    requires |stack| == |w| && WellEmitted(es)
    requires forall k :: 0 <= k < |w| ==> |OrderOf(es, stack[k], Space.CompType)| == |w[k]|
    requires TypesInOrder(w, es, stack)
    ensures Acyclic(w, EmissionRanks(w, es, stack))
  {
    forall k, a, r | 0 <= k < |w| && 0 <= a < |w[k]| && r in TypeItemRefs(w[k][a]) && r.space == Space.CompType
      ensures Descends(w, EmissionRanks(w, es, stack), k, a, r)
    {
      assert InOrderAt(w, es, stack, k, a, r);
      if r.depth == 0 { EmittedAfterItsReference(w, es, stack, k, a, r); }
    }
  }

  lemma EmittedAfterItsReference(w: World, es: seq<Emission>, stack: seq<ScopeId>, k: nat, a: nat, r: IndexedRef)
    requires |stack| == |w| && k < |w| && a < |w[k]|
    requires IsPermutation(OrderOf(es, stack[k], Space.CompType)) && |OrderOf(es, stack[k], Space.CompType)| == |w[k]|
    requires r.depth == 0 && InOrderAt(w, es, stack, k, a, r)
    ensures ActualOf(es, stack[k], Space.CompType, r.index) < ActualOf(es, stack[k], Space.CompType, a)
  {
    PermutationCovers(OrderOf(es, stack[k], Space.CompType), a);
    OrderMembers(es, stack[k], Space.CompType, a);
    var p :| 0 <= p < |es| && es[p] == Emission(stack[k], Space.CompType, a);
    EmittedEarlierIsSmaller(es, p, stack[k], Space.CompType, a, r.index);
  }

  function EmissionRanks(w: World, es: seq<Emission>, stack: seq<ScopeId>): (r: Ranks)
    requires |stack| == |w|
    ensures Shaped(w, r)
  {
    seq(|w|, k requires 0 <= k < |w| => seq(|w[k]|, (a: nat) => ActualOf(es, stack[k], Space.CompType, a)))
  }

  /** An item is not among those emitted before it. */
  lemma NotYetEmitted(es: seq<Emission>, p: nat, scope: ScopeId, space: Space, a: nat)
    requires p < |es| && es[p] == Emission(scope, space, a)
    requires IsPermutation(OrderOf(es, scope, space))
    ensures ActualOf(es, scope, space, a) == |OrderOf(es[..p], scope, space)|
  {
    var sofar := OrderOf(es[..p], scope, space);
    assert es[..p + 1] == es[..p] + [es[p]];
    OrderSnoc(es[..p], es[p], scope, space);
    assert es == es[..p + 1] + es[p + 1..];
    OrderConcat(es[..p + 1], es[p + 1..], scope, space);
    var order := OrderOf(es, scope, space);
    assert order[|sofar|] == a;
    ActualIsPosition(es, scope, space, a);
  }
}
