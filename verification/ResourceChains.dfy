/** What the resource maps say about the types themselves: which types count as resources, under
    which name, and which type each declaration of an instance type adds. */
module ResourceChains {
  import opened Prelude
  import opened Spaces
  import opened Types
  import opened FixIndices
  import opened Concretize
  import opened TypeTrees
  import opened Resources
  import opened ResourceNames

  // ------------------------------------------------------------------------------------
  // Chains of types
  // ------------------------------------------------------------------------------------

  /** Type `i`, `depth` levels out from level `k`, exists. */
  predicate There(w: World, k: nat, depth: nat, i: nat) {
    depth <= k < |w| && i < |w[k - depth]|
  }

  /** The type is a resource, or within `n` steps equal to one: a definition, an import bounded by
      `sub resource`, an import equal to one, or an alias of one. What an outer type refers to is
      looked up from level `k` again. */
  ghost predicate IsResource(w: World, k: nat, depth: nat, i: nat, n: nat)
    decreases n
  {
    There(w, k, depth, i) &&
    match w[k - depth][i]
    case TypeDef(leaf) => leaf.Resource?
    case TypeImport(imp) =>
      imp.ty.TypeRefBound? &&
      (match imp.ty.bounds
       case SubResource => true
       case Eq(j) => n > 0 && IsResource(w, k, 0, j, n - 1))
    case TypeAlias(Outer(kind, count, j)) => kind == OuterType && n > 0 && IsResource(w, k, count, j, n - 1)
    case _ => false
  }

  /** Within `n` steps the chain comes to a type that does not exist. */
  ghost predicate Dangles(w: World, k: nat, depth: nat, i: nat, n: nat)
    decreases n
  {
    There(w, k, depth, i) ==>
    match w[k - depth][i]
    case TypeImport(imp) =>
      imp.ty.TypeRefBound? && imp.ty.bounds.Eq? && n > 0 && Dangles(w, k, 0, imp.ty.bounds.index, n - 1)
    case TypeAlias(Outer(kind, count, j)) => kind == OuterType && n > 0 && Dangles(w, k, count, j, n - 1)
    case _ => false
  }

  /** Whatever its length, the chain from type `i` of level `k` ends at a resource. */
  ghost predicate Leads(w: World, k: nat, i: nat) {
    exists n: nat :: IsResource(w, k, 0, i, n)
  }

  ghost predicate Dangling(w: World, k: nat, i: nat) {
    exists n: nat :: Dangles(w, k, 0, i, n)
  }

  lemma {:induction false} StepsAreChains(w: World, k: nat, r: IndexedRef, n: nat)
    requires InView(w, k, r)
    ensures Steps(GraphAt(w, k), GraphAt(w, k)[r], n) == ResourceNode <==> IsResource(w, k, r.depth, r.index, n)
    decreases n
  {
    var g := GraphAt(w, k);
    var x := g[r];
    if n > 0 && x.Next? && x.ref in g { StepsAreChains(w, k, x.ref, n - 1); }
  }

  lemma {:induction false} MissingSteps(w: World, k: nat, r: IndexedRef, n: nat)
    requires InView(w, k, r)
    ensures Resolves(GraphAt(w, k), Steps(GraphAt(w, k), GraphAt(w, k)[r], n))
       <==> !Dangles(w, k, r.depth, r.index, n + 1)
    decreases n
  {
    var g := GraphAt(w, k);
    var x := g[r];
    if x.Next? {
      NextDangles(w, k, r, n);
      if x.ref in g {
        if n > 0 { MissingSteps(w, k, x.ref, n - 1); } else { NextThere(w, k, x.ref); }
      }
    }
  }

  lemma NextDangles(w: World, k: nat, r: IndexedRef, n: nat)
    requires InView(w, k, r) && NodeOf(w[k - r.depth][r.index]).Next?
    ensures var next := NodeOf(w[k - r.depth][r.index]).ref;
            Dangles(w, k, r.depth, r.index, n + 1) <==> Dangles(w, k, next.depth, next.index, n)
  {
  }

  lemma NextThere(w: World, k: nat, r: IndexedRef)
    requires InView(w, k, r)
    ensures There(w, k, r.depth, r.index)
  {
  }

  lemma ReachesIsLeads(w: World, k: nat, i: nat)
    requires There(w, k, 0, i)
    ensures Reaches(GraphAt(w, k), GraphAt(w, k)[Here(Space.CompType, i)]) ==> Leads(w, k, i)
    ensures Reaches(GraphAt(w, k), GraphAt(w, k)[Here(Space.CompType, i)]) <== Leads(w, k, i)
  {
    var g, r := GraphAt(w, k), Here(Space.CompType, i);
    if Reaches(g, g[r]) {
      var n: nat :| Steps(g, g[r], n) == ResourceNode;
      StepsAreChains(w, k, r, n);
    }
    if Leads(w, k, i) {
      var n: nat :| IsResource(w, k, 0, i, n);
      StepsAreChains(w, k, r, n);
      assert Steps(g, g[r], n) == ResourceNode;
    }
  }

  lemma ResolvesIsNotDangling(w: World, k: nat, i: nat)
    requires There(w, k, 0, i)
    ensures ChainResolves(GraphAt(w, k), GraphAt(w, k)[Here(Space.CompType, i)]) ==> !Dangling(w, k, i)
    ensures ChainResolves(GraphAt(w, k), GraphAt(w, k)[Here(Space.CompType, i)]) <== !Dangling(w, k, i)
  {
    var g, r := GraphAt(w, k), Here(Space.CompType, i);
    if ChainResolves(g, g[r]) {
      forall n: nat ensures !Dangles(w, k, 0, i, n) {
        if n > 0 {
          assert Resolves(g, Steps(g, g[r], n - 1));
          MissingSteps(w, k, r, n - 1);
        }
      }
    }
    if !Dangling(w, k, i) {
      forall n: nat ensures Resolves(g, Steps(g, g[r], n)) {
        MissingSteps(w, k, r, n);
        assert !Dangles(w, k, 0, i, n + 1);
      }
    }
  }

  // ------------------------------------------------------------------------------------
  // The map of a component's exports
  // ------------------------------------------------------------------------------------

  /** This export gives type `i` the name, and no later one of the same type does. */
  predicate LastExport(exports: seq<ExportItem>, j: nat, i: nat, name: string) {
    && j < |exports| && exports[j].kind == TypeKind && exports[j].index == i && exports[j].name == name
    && forall l :: j < l < |exports| ==> !(exports[l].kind == TypeKind && exports[l].index == i)
  }

  lemma {:induction false} NamesAreLastExports(w: World, k: nat, exports: seq<ExportItem>, i: nat, name: string)
    requires k < |w|
    requires forall e :: e in exports && e.kind == TypeKind ==> There(w, k, 0, e.index)
    ensures GetName(ComponentNames(GraphAt(w, k), exports), i) == Some(name)
        ==> Leads(w, k, i) && exists j :: LastExport(exports, j, i, name)
    ensures GetName(ComponentNames(GraphAt(w, k), exports), i) == Some(name)
        <== Leads(w, k, i) && exists j :: LastExport(exports, j, i, name)
  {
    if exports != [] {
      var n := |exports| - 1;
      var init, e := exports[..n], exports[n];
      assert e in exports;
      NamesAreLastExports(w, k, init, i, name);
      OneExportMore(exports, i, name);
      if e.kind == TypeKind { ReachesIsLeads(w, k, e.index); }
    }
  }

  lemma OneExportMore(exports: seq<ExportItem>, i: nat, name: string)
    requires exports != []
    ensures var n := |exports| - 1;
            (exists j :: LastExport(exports, j, i, name))
            <==> if exports[n].kind == TypeKind && exports[n].index == i then exports[n].name == name
                 else exists j :: LastExport(exports[..n], j, i, name)
  {
    var n := |exports| - 1;
    if j: nat :| LastExport(exports, j, i, name) {
      if j < n { assert LastExport(exports[..n], j, i, name); }
    }
    if exports[n].kind == TypeKind && exports[n].index == i {
      if exports[n].name == name { assert LastExport(exports, n, i, name); }
    } else if j: nat :| LastExport(exports[..n], j, i, name) {
      assert LastExport(exports, j, i, name);
    }
  }

  /** The map is built if and only if every exported type exists and its chain comes to no missing
      one; it then names exactly the exported types that are resources, each as the last export of
      it does. */
  lemma ComponentMapSays(w: World, k: nat, exports: seq<ExportItem>)
    requires k < |w|
    ensures ComponentMapAt(w, k, exports).Some?
        ==> forall e :: e in exports && e.kind == TypeKind ==> There(w, k, 0, e.index) && !Dangling(w, k, e.index)
    ensures ComponentMapAt(w, k, exports).Some?
        <== forall e :: e in exports && e.kind == TypeKind ==> There(w, k, 0, e.index) && !Dangling(w, k, e.index)
    ensures ComponentMapAt(w, k, exports).Some? ==>
              forall i: nat, name: string ::
                GetName(ComponentMapAt(w, k, exports).value, i) == Some(name)
                <==> Leads(w, k, i) && exists j :: LastExport(exports, j, i, name)
  {
    forall e | e in exports && e.kind == TypeKind
      ensures ExportResolves(GraphAt(w, k), e) <==> There(w, k, 0, e.index) && !Dangling(w, k, e.index)
    {
      if There(w, k, 0, e.index) { ResolvesIsNotDangling(w, k, e.index); }
    }
    if ComponentMapAt(w, k, exports).Some? {
      forall e | e in exports && e.kind == TypeKind ensures There(w, k, 0, e.index) {
        assert ExportResolves(GraphAt(w, k), e);
      }
      forall i: nat, name: string
        ensures GetName(ComponentMapAt(w, k, exports).value, i) == Some(name)
                <==> Leads(w, k, i) && exists j :: LastExport(exports, j, i, name)
      {
        NamesAreLastExports(w, k, exports, i, name);
      }
    }
  }

  // ------------------------------------------------------------------------------------
  // The map of an instance type
  // ------------------------------------------------------------------------------------

  /** A declaration names a resource: an export bounded by `sub resource`, or an alias of an outer
      type that is itself an export of an instance. */
  predicate Declares(w: World, k: nat, d: Decl, name: string) {
    match d
    case ExportDecl(given, ty) => given == name && ty == TypeRefBound(SubResource)
    case AliasDecl(Outer(kind, count, j)) =>
      && kind == OuterType && There(w, k, count, j)
      && (match w[k - count][j]
          case TypeAlias(InstanceExport(what, _, export_)) => what == TypeKind && export_ == name
          case _ => false)
    case _ => false
  }

  /** How many declarations before the `n`-th are type definitions, type exports or aliases. */
  function Numbered(decls: seq<Decl>, n: nat): nat
    requires n <= |decls|
  {
    if n == 0 then 0
    else
      var d := decls[n - 1];
      Numbered(decls, n - 1) + (if d.TypeDecl? || d.AliasDecl? || (d.ExportDecl? && d.ref.TypeRefBound?) then 1 else 0)
  }

  lemma {:induction false} CounterIsNumbered(decls: seq<Decl>, n: nat)
    requires n <= |decls|
    ensures CountedBefore(decls[..n]) == Numbered(decls, n)
  {
    if n > 0 {
      assert decls[..n][..n - 1] == decls[..n - 1];
      CounterIsNumbered(decls, n - 1);
    }
  }

  lemma DeclaresIsDeclName(w: World, k: nat, d: Decl, name: string)
    requires k < |w|
    ensures DeclName(OuterNames(w, k), d) == Some(name) <==> Declares(w, k, d, name)
  {
  }

  /** A type has this name in the map exactly when a declaration with that number gives it. */
  lemma {:induction false} InstanceMapSays(w: World, k: nat, decls: seq<Decl>, n: nat, i: nat, name: string)
    requires k < |w| && n <= |decls|
    ensures GetName(NamesUnder(OuterNames(w, k), CountedBefore, decls[..n]), i) == Some(name)
        ==> exists d :: 0 <= d < n && Numbered(decls, d) == i && Declares(w, k, decls[d], name)
    ensures GetName(NamesUnder(OuterNames(w, k), CountedBefore, decls[..n]), i) == Some(name)
        <== exists d :: 0 <= d < n && Numbered(decls, d) == i && Declares(w, k, decls[d], name)
    ensures forall i :: i in NamesUnder(OuterNames(w, k), CountedBefore, decls[..n]) ==> i < Numbered(decls, n)
  {
    if n > 0 {
      var last := decls[n - 1];
      assert decls[..n][..n - 1] == decls[..n - 1];
      InstanceMapSays(w, k, decls, n - 1, i, name);
      CounterIsNumbered(decls, n - 1);
      DeclaresIsDeclName(w, k, last, name);
      NumberedGrows(decls, n - 1);
      match DeclName(OuterNames(w, k), last) {
        case Some(x) => DeclaresIsDeclName(w, k, last, x);
        case None =>
      }
    }
  }

  lemma {:induction false} NumberedGrows(decls: seq<Decl>, n: nat)
    requires n <= |decls|
    ensures forall d :: 0 <= d <= n ==> Numbered(decls, d) <= Numbered(decls, n)
    ensures forall d :: 0 <= d < n && (decls[d].TypeDecl? || decls[d].AliasDecl?
                                       || (decls[d].ExportDecl? && decls[d].ref.TypeRefBound?))
              ==> Numbered(decls, d) < Numbered(decls, n)
  {
    if n > 0 { NumberedGrows(decls, n - 1); }
  }

  /** The type a declaration adds to its body, if it adds one. */
  function TypeAdded(d: Decl): TypeItem {
    match d
    case TypeDecl(Leaf(leaf)) => TypeDef(leaf)
    case AliasDecl(a) => TypeAlias(a)
    case ExportDecl(name, ty) => DeclExport(name, ty)
    case ImportDecl(name, ty) => TypeImport(ImportItem(name, ty))
    case _ => BodyType
  }

  lemma DeclItemIs(d: Decl)
    ensures DeclItem(d) == if DeclSpace(d) == Space.CompType then [TypeAdded(d)] else []
  {
  }

  lemma {:induction false} BodyTypesCounted(decls: seq<Decl>, n: nat)
    requires n <= |decls|
    ensures |FlatMap(DeclItem, decls[..n])| == TypesBefore(decls[..n])
  {
    if n > 0 {
      BodyTypesCounted(decls, n - 1);
      assert decls[..n] == decls[..n - 1] + [decls[n - 1]];
      EachSnoc(decls[..n - 1], decls[n - 1]);
      DeclItemIs(decls[n - 1]);
    }
  }

  /** The types of a body are those its declarations add, each under its number in the type space. */
  lemma {:induction false} BodyTypesInOrder(decls: seq<Decl>, n: nat, i: nat)
    requires i < n <= |decls| && DeclSpace(decls[i]) == Space.CompType
    ensures TypesBefore(decls[..i]) < |FlatMap(DeclItem, decls[..n])|
    ensures FlatMap(DeclItem, decls[..n])[TypesBefore(decls[..i])] == TypeAdded(decls[i])
    decreases n
  {
    assert decls[..n] == decls[..n - 1] + [decls[n - 1]];
    EachSnoc(decls[..n - 1], decls[n - 1]);
    DeclItemIs(decls[n - 1]);
    BodyTypesCounted(decls, n - 1);
    if i < n - 1 { BodyTypesInOrder(decls, n - 1, i); }
  }

  lemma {:induction false} EachSnoc(decls: seq<Decl>, d: Decl)
    ensures FlatMap(DeclItem, decls + [d]) == FlatMap(DeclItem, decls) + DeclItem(d)
    ensures TypesBefore(decls + [d]) == TypesBefore(decls) + (if DeclSpace(d) == Space.CompType then 1 else 0)
  {
    assert (decls + [d])[..|decls|] == decls;
    if decls == [] {
      assert [d][1..] == [] && decls + [d] == [d];
    } else {
      assert (decls + [d])[1..] == decls[1..] + [d];
      EachSnoc(decls[1..], d);
      ConcatAssoc(DeclItem(decls[0]), FlatMap(DeclItem, decls[1..]), DeclItem(d));
    }
  }
}
