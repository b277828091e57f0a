/** What a tree says: any tree can be written down as types again, in several spellings, and reading
    those types gives that tree. Nothing here mentions how types are read. */
module WriteBack {
  import opened Prelude
  import opened Types
  import opened Concretize
  import FixIndices

  /** Types as they are written down, with the names known for resources among them. */
  datatype Page = Page(items: seq<TypeItem>, local: NameMap, exported: NameMap)

  /** How a type is referred to: by itself, or through a type equal to it. */
  datatype Link = Direct | Imported | Exported | Declared | Aliased

  /** Where the name of a resource comes from: the map at hand, a declaration, an instance, or an
      import equal to a type that one of the two maps knows, itself or aliased. */
  datatype Source = InMap | InDeclaration | InDeclaredEqual | InInstance | InEqual | InExported | InAliased

  datatype Spelling = Spelling(
    link: Link,
    source: Source,
    borrowed: bool,   // handles are borrowed, not owned
    streamed: bool,   // asynchronous handles are streams, not futures
    payload: Option<ValType>,   // of an asynchronous handle; it is not read
    inlined: bool,    // primitive parts have no type of their own
    nameless: bool)   // what aborts is a handle without a name, not a type body

  datatype Written = Written(page: Page, at: nat)

  datatype WrittenVals = WrittenVals(page: Page, vals: seq<ValType>)

  datatype WrittenVal = WrittenVal(page: Page, val: ValType)

  datatype WrittenOption = WrittenOption(page: Page, opt: Option<ValType>)

  function Add(p: Page, t: TypeItem): Page {
    p.(items := p.items + [t])
  }

  function Put(s: Spelling, p: Page, t: TypeItem): Written {
    var b, q := |p.items|, Add(p, t);
    match s.link
    case Direct => Written(q, b)
    case Imported => Written(Add(q, TypeImport(ImportItem("", TypeRefBound(Eq(b))))), b + 1)
    case Exported => Written(Add(q, TypeExport(ExportItem("", TypeKind, b, None))), b + 1)
    case Declared => Written(Add(q, DeclExport("", TypeRefBound(Eq(b)))), b + 1)
    case Aliased => Written(Add(q, TypeAlias(Outer(OuterType, 0, b))), b + 1)
  }

  function Define(s: Spelling, p: Page, t: DefinedType): Written {
    Put(s, p, TypeDef(Defined(t)))
  }

  /** A resource of this name. */
  function WriteResource(s: Spelling, p: Page, name: string): Written {
    var b := |p.items|;
    var sub := TypeRefBound(SubResource);
    var bare := Add(p, TypeDef(Resource(Num(0), None)));
    var named := Add(bare, TypeImport(ImportItem("", TypeRefBound(Eq(b)))));
    match s.source
    case InMap => Written(Add(p, DeclExport("", sub)).(local := p.local[b := name]), b)
    case InDeclaration => Written(Add(p, DeclExport(name, sub)), b)
    case InDeclaredEqual => Written(Add(bare, DeclExport(name, TypeRefBound(Eq(b)))), b + 1)
    case InInstance => Written(Add(p, TypeAlias(InstanceExport(TypeKind, 0, name))), b)
    case InEqual => Written(named.(local := p.local[b := name], exported := p.exported[b := ""]), b + 1)
    case InExported => Written(named.(exported := p.exported[b := name]), b + 1)
    case InAliased =>
      Written(Add(named, TypeAlias(Outer(OuterType, 0, b + 1))).(exported := p.exported[b := name]), b + 2)
  }

  /** Writes a tree: what it consists of first, then itself. */
  function Write(s: Spelling, p: Page, tree: ConcVal): Written
    decreases tree, 0
  {
    match tree
    case ConcPrimitive(x) => Define(s, p, PrimitiveType(x))
    case ConcRecord(fields) =>
      var w := WriteFields(s, p, fields);
      Define(s, w.page, Record(Labelled(fields, w.vals)))
    case ConcVariant(cases) => WriteVariant(s, p, cases)
    case ConcList(elem) =>
      var w := WriteVal(s, p, elem);
      Define(s, w.page, List(w.val))
    case ConcFixedLengthList(elem, len) =>
      var w := WriteVal(s, p, elem);
      Define(s, w.page, FixedLengthList(w.val, len))
    case ConcTuple(elems) =>
      var w := WriteElems(s, p, elems);
      Define(s, w.page, Tuple(w.vals))
    case ConcOption(elem) =>
      var w := WriteVal(s, p, elem);
      Define(s, w.page, OptionOf(w.val))
    case ConcResult(ok, err) =>
      var w := WriteOptional(s, p, ok);
      var v := WriteOptional(s, w.page, err);
      Define(s, v.page, ResultOf(w.opt, v.opt))
    case ConcFlags(names) => Define(s, p, Flags(names))
    case ConcEnum(names) => Define(s, p, Enum(names))
    case ConcMap(key, val) =>
      var w := WriteVal(s, p, key);
      var v := WriteVal(s, w.page, val);
      Define(s, v.page, MapOf(w.val, v.val))
    case NamedResource(name) =>
      var w := WriteResource(s, p, name);
      Define(s, w.page, if s.borrowed then Borrow(w.at) else Own(w.at))
    case AsyncHandle => Define(s, p, if s.streamed then Stream(s.payload) else Future(s.payload))
    case Foreign(name) => Put(s, p, TypeAlias(InstanceExport(TypeKind, 0, name)))
    case Aborts =>
      if s.nameless then Define(s, Add(p, TypeDef(Resource(Num(0), None))), Own(|p.items|)) else Put(s, p, BodyType)
    case Diverges => Put(s, p, TypeImport(ImportItem("", TypeRefBound(Eq(|p.items|)))))
  }

  function WriteVal(s: Spelling, p: Page, tree: ConcVal): WrittenVal
    decreases tree, 1
  {
    if s.inlined && tree.ConcPrimitive? then WrittenVal(p, Primitive(tree.prim))
    else
      var w := Write(s, p, tree);
      WrittenVal(w.page, Type(w.at))
  }

  function WriteOptional(s: Spelling, p: Page, tree: Option<ConcVal>): WrittenOption
    decreases tree, 2
  {
    match tree
    case None => WrittenOption(p, None)
    case Some(t) =>
      var w := WriteVal(s, p, t);
      WrittenOption(w.page, Some(w.val))
  }

  function WriteElems(s: Spelling, p: Page, trees: seq<ConcVal>): (w: WrittenVals)
    ensures |w.vals| == |trees|
    decreases trees
  {
    if trees == [] then WrittenVals(p, [])
    else
      var w := WriteElems(s, p, trees[..|trees| - 1]);
      var v := WriteVal(s, w.page, trees[|trees| - 1]);
      WrittenVals(v.page, w.vals + [v.val])
  }

  function WriteField(s: Spelling, p: Page, field: (string, ConcVal)): WrittenVal
    decreases field
  {
    WriteVal(s, p, field.1)
  }

  function WriteFields(s: Spelling, p: Page, trees: seq<(string, ConcVal)>): (w: WrittenVals)
    ensures |w.vals| == |trees|
    decreases trees
  {
    if trees == [] then WrittenVals(p, [])
    else
      var w := WriteFields(s, p, trees[..|trees| - 1]);
      var v := WriteField(s, w.page, trees[|trees| - 1]);
      WrittenVals(v.page, w.vals + [v.val])
  }

  function Labelled<T>(labels: seq<(string, T)>, vals: seq<ValType>): (r: seq<(string, ValType)>)
    requires |vals| == |labels|
    ensures |r| == |vals|
  {
    seq(|vals|, i requires 0 <= i < |vals| => (labels[i].0, vals[i]))
  }

  datatype WrittenCases = WrittenCases(page: Page, cases: seq<(string, Option<ValType>)>)

  function WriteVariant(s: Spelling, p: Page, trees: seq<(string, Option<ConcVal>)>): Written
    decreases trees, 1
  {
    var w := WriteCases(s, p, trees);
    Define(s, w.page, Variant(w.cases))
  }

  function WriteCase(s: Spelling, p: Page, c: (string, Option<ConcVal>)): WrittenOption
    decreases c
  {
    WriteOptional(s, p, c.1)
  }

  function WriteCases(s: Spelling, p: Page, trees: seq<(string, Option<ConcVal>)>): (w: WrittenCases)
    ensures |w.cases| == |trees|
    decreases trees, 0
  {
    if trees == [] then WrittenCases(p, [])
    else
      var last := trees[|trees| - 1];
      var w := WriteCases(s, p, trees[..|trees| - 1]);
      var v := WriteCase(s, w.page, last);
      WrittenCases(v.page, w.cases + [(last.0, v.opt)])
  }

  // ------------------------------------------------------------------------------------
  // Pages grow
  // ------------------------------------------------------------------------------------

  /** What is on the page stays there. */
  ghost predicate Grows(p: Page, q: Page) {
    && p.items <= q.items
    && (forall i: nat :: i < |p.items| ==> SameName(p.local, q.local, i) && SameName(p.exported, q.exported, i))
  }

  predicate SameName(a: NameMap, b: NameMap, i: nat) {
    (i in a <==> i in b) && (i in a ==> a[i] == b[i])
  }

  /** Names are known of what is on the page only. */
  predicate Tidy(p: Page) {
    (forall i :: i in p.local ==> i < |p.items|) && (forall i :: i in p.exported ==> i < |p.items|)
  }

  lemma GrowsOn(p: Page, q: Page, r: Page)
    requires Grows(p, q) && Grows(q, r)
    ensures Grows(p, r)
  {
    forall i: nat | i < |p.items| ensures SameName(p.local, r.local, i) && SameName(p.exported, r.exported, i) {
      assert SameName(p.local, q.local, i) && SameName(q.local, r.local, i);
      assert SameName(p.exported, q.exported, i) && SameName(q.exported, r.exported, i);
    }
  }

  lemma PutGrows(s: Spelling, p: Page, t: TypeItem)
    requires Tidy(p)
    ensures var w := Put(s, p, t); Grows(p, w.page) && Tidy(w.page) && w.at < |w.page.items|
  {
  }

  lemma ResourceGrows(s: Spelling, p: Page, name: string)
    requires Tidy(p)
    ensures var w := WriteResource(s, p, name); Grows(p, w.page) && Tidy(w.page) && w.at < |w.page.items|
  {
  }

  lemma {:induction false} WriteGrows(s: Spelling, p: Page, tree: ConcVal)
    requires Tidy(p)
    ensures var w := Write(s, p, tree); Grows(p, w.page) && Tidy(w.page) && w.at < |w.page.items|
    decreases tree, 0
  {
    match tree {
      case ConcRecord(fields) =>
        FieldsGrow(s, p, fields);
        var w := WriteFields(s, p, fields);
        PutOnTop(s, p, w.page, TypeDef(Defined(Record(Labelled(fields, w.vals)))));
      case ConcVariant(cases) =>
        CasesGrow(s, p, cases);
        var w := WriteCases(s, p, cases);
        PutOnTop(s, p, w.page, TypeDef(Defined(Variant(w.cases))));
      case ConcTuple(elems) =>
        ElemsGrow(s, p, elems);
        var w := WriteElems(s, p, elems);
        PutOnTop(s, p, w.page, TypeDef(Defined(Tuple(w.vals))));
      case ConcList(elem) =>
        ValGrows(s, p, elem);
        PutOnTop(s, p, WriteVal(s, p, elem).page, TypeDef(Defined(List(WriteVal(s, p, elem).val))));
      case ConcFixedLengthList(elem, len) =>
        ValGrows(s, p, elem);
        PutOnTop(s, p, WriteVal(s, p, elem).page, TypeDef(Defined(FixedLengthList(WriteVal(s, p, elem).val, len))));
      case ConcOption(elem) =>
        ValGrows(s, p, elem);
        PutOnTop(s, p, WriteVal(s, p, elem).page, TypeDef(Defined(OptionOf(WriteVal(s, p, elem).val))));
      case ConcResult(ok, err) =>
        OptionalGrows(s, p, ok);
        var w := WriteOptional(s, p, ok);
        OptionalGrows(s, w.page, err);
        var v := WriteOptional(s, w.page, err);
        GrowsOn(p, w.page, v.page);
        PutOnTop(s, p, v.page, TypeDef(Defined(ResultOf(w.opt, v.opt))));
      case ConcMap(key, val) =>
        ValGrows(s, p, key);
        var w := WriteVal(s, p, key);
        ValGrows(s, w.page, val);
        var v := WriteVal(s, w.page, val);
        GrowsOn(p, w.page, v.page);
        PutOnTop(s, p, v.page, TypeDef(Defined(MapOf(w.val, v.val))));
      case _ => PlainGrows(s, p, tree);
    }
  }

  lemma PlainGrows(s: Spelling, p: Page, tree: ConcVal)
    requires Tidy(p)
    requires tree.ConcPrimitive? || tree.ConcFlags? || tree.ConcEnum? || tree.NamedResource? || tree.AsyncHandle?
             || tree.Foreign? || tree.Aborts? || tree.Diverges?
    ensures var w := Write(s, p, tree); Grows(p, w.page) && Tidy(w.page) && w.at < |w.page.items|
  {
    match tree {
      case NamedResource(name) =>
        ResourceGrows(s, p, name);
        var w := WriteResource(s, p, name);
        PutOnTop(s, p, w.page, TypeDef(Defined(if s.borrowed then Borrow(w.at) else Own(w.at))));
      case ConcPrimitive(x) => PutGrows(s, p, TypeDef(Defined(PrimitiveType(x))));
      case ConcFlags(names) => PutGrows(s, p, TypeDef(Defined(Flags(names))));
      case ConcEnum(names) => PutGrows(s, p, TypeDef(Defined(Enum(names))));
      case AsyncHandle => PutGrows(s, p, TypeDef(Defined(if s.streamed then Stream(s.payload) else Future(s.payload))));
      case Foreign(name) => PutGrows(s, p, TypeAlias(InstanceExport(TypeKind, 0, name)));
      case Aborts =>
        PutGrows(s, p, BodyType);
        PutOnTop(s, p, Add(p, TypeDef(Resource(Num(0), None))), TypeDef(Defined(Own(|p.items|))));
      case Diverges => PutGrows(s, p, TypeImport(ImportItem("", TypeRefBound(Eq(|p.items|)))));
    }
  }

  lemma PutOnTop(s: Spelling, p: Page, q: Page, t: TypeItem)
    requires Grows(p, q) && Tidy(q)
    ensures var w := Put(s, q, t); Grows(p, w.page) && Tidy(w.page) && w.at < |w.page.items|
  {
    PutGrows(s, q, t);
    GrowsOn(p, q, Put(s, q, t).page);
  }

  lemma {:induction false} ValGrows(s: Spelling, p: Page, tree: ConcVal)
    requires Tidy(p)
    ensures Grows(p, WriteVal(s, p, tree).page) && Tidy(WriteVal(s, p, tree).page)
    decreases tree, 1
  {
    if !s.inlined || !tree.ConcPrimitive? { WriteGrows(s, p, tree); }
  }

  lemma {:induction false} OptionalGrows(s: Spelling, p: Page, tree: Option<ConcVal>)
    requires Tidy(p)
    ensures Grows(p, WriteOptional(s, p, tree).page) && Tidy(WriteOptional(s, p, tree).page)
    decreases tree, 2
  {
    if tree.Some? { ValGrows(s, p, tree.value); }
  }

  lemma {:induction false} ElemsGrow(s: Spelling, p: Page, trees: seq<ConcVal>)
    requires Tidy(p)
    ensures Grows(p, WriteElems(s, p, trees).page) && Tidy(WriteElems(s, p, trees).page)
    decreases trees
  {
    if trees != [] {
      var n := |trees| - 1;
      ElemsGrow(s, p, trees[..n]);
      var w := WriteElems(s, p, trees[..n]).page;
      ValGrows(s, w, trees[n]);
      GrowsOn(p, w, WriteVal(s, w, trees[n]).page);
    }
  }

  lemma {:induction false} FieldGrows(s: Spelling, p: Page, field: (string, ConcVal))
    requires Tidy(p)
    ensures Grows(p, WriteField(s, p, field).page) && Tidy(WriteField(s, p, field).page)
    decreases field
  {
    ValGrows(s, p, field.1);
  }

  lemma {:induction false} FieldsGrow(s: Spelling, p: Page, trees: seq<(string, ConcVal)>)
    requires Tidy(p)
    ensures Grows(p, WriteFields(s, p, trees).page) && Tidy(WriteFields(s, p, trees).page)
    decreases trees
  {
    if trees != [] {
      var n := |trees| - 1;
      FieldsGrow(s, p, trees[..n]);
      var w := WriteFields(s, p, trees[..n]).page;
      FieldGrows(s, w, trees[n]);
      GrowsOn(p, w, WriteField(s, w, trees[n]).page);
    }
  }

  lemma {:induction false} CaseGrows(s: Spelling, p: Page, c: (string, Option<ConcVal>))
    requires Tidy(p)
    ensures Grows(p, WriteCase(s, p, c).page) && Tidy(WriteCase(s, p, c).page)
    decreases c
  {
    OptionalGrows(s, p, c.1);
  }

  lemma {:induction false} CasesGrow(s: Spelling, p: Page, trees: seq<(string, Option<ConcVal>)>)
    requires Tidy(p)
    ensures Grows(p, WriteCases(s, p, trees).page) && Tidy(WriteCases(s, p, trees).page)
    decreases trees, 0
  {
    if trees != [] {
      var n := |trees| - 1;
      CasesGrow(s, p, trees[..n]);
      var w := WriteCases(s, p, trees[..n]).page;
      CaseGrows(s, w, trees[n]);
      GrowsOn(p, w, WriteCase(s, w, trees[n]).page);
    }
  }

  // ------------------------------------------------------------------------------------
  // Reading what was written
  // ------------------------------------------------------------------------------------

  /** Level `k` of the world begins with what is on the page, whatever follows, and the names known
      of it are those of the page. */
  ghost predicate Displays(w: World, rank: Ranks, names: Names, k: nat, p: Page) {
    && Shaped(w, rank) && k < |w| && p.items <= w[k]
    && k < |names.component| && names.component[k].Some?
    && (forall i: nat :: i < |p.items| ==> NamedAlike(names, k, p, i) && rank[k][i] == i)
  }

  predicate NamedAlike(names: Names, k: nat, p: Page, i: nat)
    requires k < |names.component| && names.component[k].Some?
  {
    SameName(p.local, names.local, i) && SameName(p.exported, names.component[k].value, i)
  }

  lemma DisplaysLess(w: World, rank: Ranks, names: Names, k: nat, p: Page, q: Page)
    requires Displays(w, rank, names, k, q) && Grows(p, q)
    ensures Displays(w, rank, names, k, p)
  {
    forall i: nat | i < |p.items| ensures NamedAlike(names, k, p, i) && rank[k][i] == i {
      assert NamedAlike(names, k, q, i);
    }
  }

  /** What is referred to through an equal type reads the same. */
  lemma PutReads(s: Spelling, p: Page, t: TypeItem, w: World, rank: Ranks, names: Names, k: nat)
    requires Tidy(p) && Displays(w, rank, names, k, Put(s, p, t).page)
    ensures Displays(w, rank, names, k, p)
    ensures |p.items| < |w[k]| && w[k][|p.items|] == t && rank[k][|p.items|] == |p.items|
    ensures Put(s, p, t).at < |w[k]|
    ensures ConcAt(w, rank, names, k, Put(s, p, t).at) == ConcAt(w, rank, names, k, |p.items|)
  {
    PutGrows(s, p, t);
    DisplaysLess(w, rank, names, k, p, Put(s, p, t).page);
    var b := |p.items|;
    assert w[k][b] == Put(s, p, t).page.items[b] && rank[k][b] == b;
    if s.link != Direct {
      assert w[k][b + 1] == Put(s, p, t).page.items[b + 1] && rank[k][b + 1] == b + 1;
      LinkReads(s, b, w, rank, names, k);
    }
  }

  lemma LinkReads(s: Spelling, b: nat, w: World, rank: Ranks, names: Names, k: nat)
    requires Shaped(w, rank) && k < |w| && b + 1 < |w[k]| && rank[k][b] == b && rank[k][b + 1] == b + 1
    requires match s.link
             case Direct => false
             case Imported => w[k][b + 1] == TypeImport(ImportItem("", TypeRefBound(Eq(b))))
             case Exported => w[k][b + 1] == TypeExport(ExportItem("", TypeKind, b, None))
             case Declared => w[k][b + 1] == DeclExport("", TypeRefBound(Eq(b)))
             case Aliased => w[k][b + 1] == TypeAlias(Outer(OuterType, 0, b))
    ensures ConcAt(w, rank, names, k, b + 1) == ConcAt(w, rank, names, k, b)
  {
    assert ConcBelow(w, rank, names, k, b + 1, b) == ConcAt(w, rank, names, k, b);
    assert ConcTypeRef(w, rank, names, k, b + 1, TypeRefBound(Eq(b))) == ConcBelow(w, rank, names, k, b + 1, b);
  }

  lemma DefineReads(s: Spelling, p: Page, t: DefinedType, w: World, rank: Ranks, names: Names, k: nat)
    requires Tidy(p) && Displays(w, rank, names, k, Define(s, p, t).page)
    ensures Displays(w, rank, names, k, p) && Define(s, p, t).at < |w[k]|
    ensures ConcAt(w, rank, names, k, Define(s, p, t).at) == ConcDefined(w, rank, names, k, |p.items|, t)
  {
    PutReads(s, p, TypeDef(Defined(t)), w, rank, names, k);
  }

  /** A handle on a written resource has its name, wherever that comes from. */
  lemma ResourceReads(s: Spelling, p: Page, name: string, w: World, rank: Ranks, names: Names, k: nat)
    requires Tidy(p) && Displays(w, rank, names, k, WriteResource(s, p, name).page)
    ensures ConcHandle(w, names, k, WriteResource(s, p, name).at) == NamedResource(name)
  {
    var b, q := |p.items|, WriteResource(s, p, name).page;
    assert NamedAlike(names, k, q, b) && w[k][b] == q.items[b];
    if !s.source.InMap? && !s.source.InDeclaration? && !s.source.InInstance? {
      assert NamedAlike(names, k, q, b + 1) && w[k][b + 1] == q.items[b + 1];
    }
    if s.source.InAliased? { assert NamedAlike(names, k, q, b + 2) && w[k][b + 2] == q.items[b + 2]; }
  }

  /** Any tree, written anywhere in any spelling, reads back as itself, at any level of any world
      that shows the page. */
  lemma {:induction false} WrittenTreeReads(s: Spelling, p: Page, tree: ConcVal, w: World, rank: Ranks, names: Names,
                                            k: nat)
    requires Tidy(p) && Displays(w, rank, names, k, Write(s, p, tree).page)
    ensures ReadsAs(w, rank, names, k, Write(s, p, tree).at, tree)
    decreases tree, 0
  {
    match tree {
      case ConcRecord(fields) => RecordReads(s, p, fields, w, rank, names, k);
      case ConcVariant(cases) => VariantReads(s, p, cases, w, rank, names, k);
      case ConcTuple(elems) => TupleReads(s, p, elems, w, rank, names, k);
      case ConcList(elem) => ListReads(s, p, elem, w, rank, names, k);
      case ConcFixedLengthList(elem, len) => FixedReads(s, p, elem, len, w, rank, names, k);
      case ConcOption(elem) => OptionReads(s, p, elem, w, rank, names, k);
      case ConcResult(ok, err) => ResultReads(s, p, ok, err, w, rank, names, k);
      case ConcMap(key, val) => MapReads(s, p, key, val, w, rank, names, k);
      case NamedResource(name) => HandleReads(s, p, name, w, rank, names, k);
      case _ => PlainTreeReads(s, p, tree, w, rank, names, k);
    }
  }

  ghost predicate ReadsAs(w: World, rank: Ranks, names: Names, k: nat, a: nat, tree: ConcVal)
    requires Shaped(w, rank) && k < |w|
  {
    a < |w[k]| && ConcAt(w, rank, names, k, a) == tree
  }

  lemma {:induction false} RecordReads(s: Spelling, p: Page, fields: seq<(string, ConcVal)>, w: World, rank: Ranks,
                                       names: Names, k: nat)
    requires Tidy(p) && Displays(w, rank, names, k, Write(s, p, ConcRecord(fields)).page)
    ensures ReadsAs(w, rank, names, k, Write(s, p, ConcRecord(fields)).at, ConcRecord(fields))
    decreases ConcRecord(fields), -1
  {
    FieldsGrow(s, p, fields);
    var v := WriteFields(s, p, fields);
    DefineReads(s, v.page, Record(Labelled(fields, v.vals)), w, rank, names, k);
    FieldsRead(s, p, fields, w, rank, names, k, |v.page.items|);
    SameFields(fields, v.vals, w, rank, names, k, |v.page.items|);
  }

  lemma {:induction false} VariantReads(s: Spelling, p: Page, cases: seq<(string, Option<ConcVal>)>, w: World,
                                        rank: Ranks, names: Names, k: nat)
    requires Tidy(p) && Displays(w, rank, names, k, Write(s, p, ConcVariant(cases)).page)
    ensures ReadsAs(w, rank, names, k, Write(s, p, ConcVariant(cases)).at, ConcVariant(cases))
    decreases ConcVariant(cases), -1
  {
    CasesGrow(s, p, cases);
    var v := WriteCases(s, p, cases);
    assert Write(s, p, ConcVariant(cases)) == Define(s, v.page, Variant(v.cases));
    DefineReads(s, v.page, Variant(v.cases), w, rank, names, k);
    CasesRead(s, p, cases, w, rank, names, k, |v.page.items|);
    SameCases(cases, v.cases, w, rank, names, k, |v.page.items|);
  }

  lemma {:induction false} TupleReads(s: Spelling, p: Page, elems: seq<ConcVal>, w: World, rank: Ranks, names: Names,
                                      k: nat)
    requires Tidy(p) && Displays(w, rank, names, k, Write(s, p, ConcTuple(elems)).page)
    ensures ReadsAs(w, rank, names, k, Write(s, p, ConcTuple(elems)).at, ConcTuple(elems))
    decreases ConcTuple(elems), -1
  {
    ElemsGrow(s, p, elems);
    var v := WriteElems(s, p, elems);
    DefineReads(s, v.page, Tuple(v.vals), w, rank, names, k);
    ElemsRead(s, p, elems, w, rank, names, k, |v.page.items|);
    SameElems(elems, v.vals, w, rank, names, k, |v.page.items|);
  }

  lemma {:induction false} ListReads(s: Spelling, p: Page, elem: ConcVal, w: World, rank: Ranks, names: Names,
                                      k: nat)
    requires Tidy(p) && Displays(w, rank, names, k, Write(s, p, ConcList(elem)).page)
    ensures ReadsAs(w, rank, names, k, Write(s, p, ConcList(elem)).at, ConcList(elem))
    decreases ConcList(elem), -1
  {
    ValGrows(s, p, elem);
    var v := WriteVal(s, p, elem);
    DefineReads(s, v.page, List(v.val), w, rank, names, k);
    ValReads(s, p, elem, w, rank, names, k, |v.page.items|);
  }

  lemma {:induction false} FixedReads(s: Spelling, p: Page, elem: ConcVal, len: nat, w: World, rank: Ranks,
                                      names: Names, k: nat)
    requires Tidy(p) && Displays(w, rank, names, k, Write(s, p, ConcFixedLengthList(elem, len)).page)
    ensures ReadsAs(w, rank, names, k, Write(s, p, ConcFixedLengthList(elem, len)).at, ConcFixedLengthList(elem, len))
    decreases ConcFixedLengthList(elem, len), -1
  {
    ValGrows(s, p, elem);
    var v := WriteVal(s, p, elem);
    DefineReads(s, v.page, FixedLengthList(v.val, len), w, rank, names, k);
    ValReads(s, p, elem, w, rank, names, k, |v.page.items|);
  }

  lemma {:induction false} OptionReads(s: Spelling, p: Page, elem: ConcVal, w: World, rank: Ranks, names: Names,
                                      k: nat)
    requires Tidy(p) && Displays(w, rank, names, k, Write(s, p, ConcOption(elem)).page)
    ensures ReadsAs(w, rank, names, k, Write(s, p, ConcOption(elem)).at, ConcOption(elem))
    decreases ConcOption(elem), -1
  {
    ValGrows(s, p, elem);
    var v := WriteVal(s, p, elem);
    DefineReads(s, v.page, OptionOf(v.val), w, rank, names, k);
    ValReads(s, p, elem, w, rank, names, k, |v.page.items|);
  }

  lemma HandleReads(s: Spelling, p: Page, name: string, w: World, rank: Ranks, names: Names, k: nat)
    requires Tidy(p) && Displays(w, rank, names, k, Write(s, p, NamedResource(name)).page)
    ensures ReadsAs(w, rank, names, k, Write(s, p, NamedResource(name)).at, NamedResource(name))
  {
    ResourceGrows(s, p, name);
    var r := WriteResource(s, p, name);
    DefineReads(s, r.page, if s.borrowed then Borrow(r.at) else Own(r.at), w, rank, names, k);
    ResourceReads(s, p, name, w, rank, names, k);
  }

  /** Trees that consist of nothing else. */
  lemma PlainTreeReads(s: Spelling, p: Page, tree: ConcVal, w: World, rank: Ranks, names: Names, k: nat)
    requires Tidy(p) && Displays(w, rank, names, k, Write(s, p, tree).page)
    requires tree.ConcPrimitive? || tree.ConcFlags? || tree.ConcEnum? || tree.AsyncHandle?
             || tree.Foreign? || tree.Aborts? || tree.Diverges?
    ensures ReadsAs(w, rank, names, k, Write(s, p, tree).at, tree)
  {
    match tree {
      case ConcPrimitive(x) => DefineReads(s, p, PrimitiveType(x), w, rank, names, k);
      case ConcFlags(labels) => DefineReads(s, p, Flags(labels), w, rank, names, k);
      case ConcEnum(labels) => DefineReads(s, p, Enum(labels), w, rank, names, k);
      case AsyncHandle =>
        DefineReads(s, p, if s.streamed then Stream(s.payload) else Future(s.payload), w, rank, names, k);
      case _ => MarkerReads(s, p, tree, w, rank, names, k);
    }
  }

  lemma MarkerReads(s: Spelling, p: Page, tree: ConcVal, w: World, rank: Ranks, names: Names, k: nat)
    requires Tidy(p) && Displays(w, rank, names, k, Write(s, p, tree).page)
    requires tree.Foreign? || tree.Aborts? || tree.Diverges?
    ensures ReadsAs(w, rank, names, k, Write(s, p, tree).at, tree)
  {
    var b := |p.items|;
    match tree {
      case Foreign(name) => PutReads(s, p, TypeAlias(InstanceExport(TypeKind, 0, name)), w, rank, names, k);
      case Aborts =>
        if s.nameless {
          NamelessReads(s, p, w, rank, names, k);
        } else {
          PutReads(s, p, BodyType, w, rank, names, k);
        }
      case Diverges =>
        PutReads(s, p, TypeImport(ImportItem("", TypeRefBound(Eq(b)))), w, rank, names, k);
        assert ConcTypeRef(w, rank, names, k, b, TypeRefBound(Eq(b))) == ConcBelow(w, rank, names, k, b, b) == Diverges;
    }
  }

  lemma NamelessReads(s: Spelling, p: Page, w: World, rank: Ranks, names: Names, k: nat)
    requires Tidy(p) && s.nameless && Displays(w, rank, names, k, Write(s, p, Aborts).page)
    ensures ReadsAs(w, rank, names, k, Write(s, p, Aborts).at, Aborts)
  {
    var b, q := |p.items|, Add(p, TypeDef(Resource(Num(0), None)));
    DefineReads(s, q, Own(b), w, rank, names, k);
    assert NamedAlike(names, k, q, b) && w[k][b] == q.items[b];
  }

  lemma {:induction false} ResultReads(s: Spelling, p: Page, ok: Option<ConcVal>, err: Option<ConcVal>, w: World,
                                       rank: Ranks, names: Names, k: nat)
    requires Tidy(p) && Displays(w, rank, names, k, Write(s, p, ConcResult(ok, err)).page)
    ensures ReadsAs(w, rank, names, k, Write(s, p, ConcResult(ok, err)).at, ConcResult(ok, err))
    decreases ConcResult(ok, err), -1
  {
    OptionalGrows(s, p, ok);
    var v := WriteOptional(s, p, ok);
    OptionalGrows(s, v.page, err);
    var u := WriteOptional(s, v.page, err);
    DefineReads(s, u.page, ResultOf(v.opt, u.opt), w, rank, names, k);
    DisplaysLess(w, rank, names, k, v.page, u.page);
    OptionalReads(s, p, ok, w, rank, names, k, |u.page.items|);
    OptionalReads(s, v.page, err, w, rank, names, k, |u.page.items|);
  }

  lemma {:induction false} MapReads(s: Spelling, p: Page, key: ConcVal, val: ConcVal, w: World, rank: Ranks,
                                    names: Names, k: nat)
    requires Tidy(p) && Displays(w, rank, names, k, Write(s, p, ConcMap(key, val)).page)
    ensures ReadsAs(w, rank, names, k, Write(s, p, ConcMap(key, val)).at, ConcMap(key, val))
    decreases ConcMap(key, val), -1
  {
    ValGrows(s, p, key);
    var v := WriteVal(s, p, key);
    ValGrows(s, v.page, val);
    var u := WriteVal(s, v.page, val);
    DefineReads(s, u.page, MapOf(v.val, u.val), w, rank, names, k);
    DisplaysLess(w, rank, names, k, v.page, u.page);
    ValReads(s, p, key, w, rank, names, k, |u.page.items|);
    ValReads(s, v.page, val, w, rank, names, k, |u.page.items|);
  }

  lemma {:induction false} ValReads(s: Spelling, p: Page, tree: ConcVal, w: World, rank: Ranks, names: Names, k: nat,
                                    bound: nat)
    requires Tidy(p) && Displays(w, rank, names, k, WriteVal(s, p, tree).page)
    requires |WriteVal(s, p, tree).page.items| <= bound
    ensures ConcValType(w, rank, names, k, bound, WriteVal(s, p, tree).val) == tree
    decreases tree, 1
  {
    if !s.inlined || !tree.ConcPrimitive? {
      WriteGrows(s, p, tree);
      WrittenTreeReads(s, p, tree, w, rank, names, k);
      assert rank[k][Write(s, p, tree).at] == Write(s, p, tree).at;
    }
  }

  lemma {:induction false} OptionalReads(s: Spelling, p: Page, tree: Option<ConcVal>, w: World, rank: Ranks,
                                         names: Names, k: nat, bound: nat)
    requires Tidy(p) && Displays(w, rank, names, k, WriteOptional(s, p, tree).page)
    requires |WriteOptional(s, p, tree).page.items| <= bound
    ensures ConcOptional(w, rank, names, k, bound, WriteOptional(s, p, tree).opt) == tree
    decreases tree, 2
  {
    if tree.Some? { ValReads(s, p, tree.value, w, rank, names, k, bound); }
  }

  lemma {:induction false} ElemsRead(s: Spelling, p: Page, trees: seq<ConcVal>, w: World, rank: Ranks, names: Names,
                                     k: nat, bound: nat)
    requires Tidy(p) && Displays(w, rank, names, k, WriteElems(s, p, trees).page)
    requires |WriteElems(s, p, trees).page.items| <= bound
    ensures forall i :: 0 <= i < |trees| ==>
              ConcValType(w, rank, names, k, bound, WriteElems(s, p, trees).vals[i]) == trees[i]
    decreases trees
  {
    if trees != [] {
      var n := |trees| - 1;
      ElemsGrow(s, p, trees[..n]);
      var v := WriteElems(s, p, trees[..n]).page;
      ValGrows(s, v, trees[n]);
      DisplaysLess(w, rank, names, k, v, WriteElems(s, p, trees).page);
      ElemsRead(s, p, trees[..n], w, rank, names, k, bound);
      ValReads(s, v, trees[n], w, rank, names, k, bound);
    }
  }

  lemma {:induction false} FieldReads(s: Spelling, p: Page, field: (string, ConcVal), w: World, rank: Ranks,
                                      names: Names, k: nat, bound: nat)
    requires Tidy(p) && Displays(w, rank, names, k, WriteField(s, p, field).page)
    requires |WriteField(s, p, field).page.items| <= bound
    ensures ConcValType(w, rank, names, k, bound, WriteField(s, p, field).val) == field.1
    decreases field
  {
    ValReads(s, p, field.1, w, rank, names, k, bound);
  }

  lemma {:induction false} FieldsRead(s: Spelling, p: Page, trees: seq<(string, ConcVal)>, w: World, rank: Ranks,
                                      names: Names, k: nat, bound: nat)
    requires Tidy(p) && Displays(w, rank, names, k, WriteFields(s, p, trees).page)
    requires |WriteFields(s, p, trees).page.items| <= bound
    ensures forall i :: 0 <= i < |trees| ==>
              ConcValType(w, rank, names, k, bound, WriteFields(s, p, trees).vals[i]) == trees[i].1
    decreases trees
  {
    if trees != [] {
      var n := |trees| - 1;
      FieldsGrow(s, p, trees[..n]);
      var v := WriteFields(s, p, trees[..n]).page;
      FieldGrows(s, v, trees[n]);
      DisplaysLess(w, rank, names, k, v, WriteFields(s, p, trees).page);
      FieldsRead(s, p, trees[..n], w, rank, names, k, bound);
      FieldReads(s, v, trees[n], w, rank, names, k, bound);
    }
  }

  lemma {:induction false} CaseReads(s: Spelling, p: Page, c: (string, Option<ConcVal>), w: World, rank: Ranks,
                                     names: Names, k: nat, bound: nat)
    requires Tidy(p) && Displays(w, rank, names, k, WriteCase(s, p, c).page)
    requires |WriteCase(s, p, c).page.items| <= bound
    ensures ConcOptional(w, rank, names, k, bound, WriteCase(s, p, c).opt) == c.1
    decreases c
  {
    OptionalReads(s, p, c.1, w, rank, names, k, bound);
  }

  lemma {:induction false} CasesRead(s: Spelling, p: Page, trees: seq<(string, Option<ConcVal>)>, w: World,
                                     rank: Ranks, names: Names, k: nat, bound: nat)
    requires Tidy(p) && Displays(w, rank, names, k, WriteCases(s, p, trees).page)
    requires |WriteCases(s, p, trees).page.items| <= bound
    ensures forall i :: 0 <= i < |trees| ==>
              WriteCases(s, p, trees).cases[i].0 == trees[i].0
              && ConcOptional(w, rank, names, k, bound, WriteCases(s, p, trees).cases[i].1) == trees[i].1
    decreases trees, 0
  {
    if trees != [] {
      var n := |trees| - 1;
      CasesGrow(s, p, trees[..n]);
      var v := WriteCases(s, p, trees[..n]).page;
      CaseGrows(s, v, trees[n]);
      DisplaysLess(w, rank, names, k, v, WriteCases(s, p, trees).page);
      CasesRead(s, p, trees[..n], w, rank, names, k, bound);
      CaseReads(s, v, trees[n], w, rank, names, k, bound);
    }
  }

  lemma SameFields(fields: seq<(string, ConcVal)>, vals: seq<ValType>, w: World, rank: Ranks, names: Names, k: nat,
                    bound: nat)
    requires Shaped(w, rank) && k < |w| && |vals| == |fields|
    requires forall i :: 0 <= i < |vals| ==> ConcValType(w, rank, names, k, bound, vals[i]) == fields[i].1
    ensures ConcFields(w, rank, names, k, bound, Labelled(fields, vals)) == fields
  {
  }

  lemma SameCases(cases: seq<(string, Option<ConcVal>)>, written: seq<(string, Option<ValType>)>, w: World,
                     rank: Ranks, names: Names, k: nat, bound: nat)
    requires Shaped(w, rank) && k < |w| && |written| == |cases|
    requires forall i :: 0 <= i < |written| ==>
               written[i].0 == cases[i].0 && ConcOptional(w, rank, names, k, bound, written[i].1) == cases[i].1
    ensures ConcCases(w, rank, names, k, bound, written) == cases
  {
  }

  lemma SameElems(elems: seq<ConcVal>, vals: seq<ValType>, w: World, rank: Ranks, names: Names, k: nat, bound: nat)
    requires Shaped(w, rank) && k < |w| && |vals| == |elems|
    requires forall i :: 0 <= i < |vals| ==> ConcValType(w, rank, names, k, bound, vals[i]) == elems[i]
    ensures ConcElems(w, rank, names, k, bound, vals) == elems
  {
  }

  // ------------------------------------------------------------------------------------
  // Seen from a deeper level, on a page of its own, as a signature
  // ------------------------------------------------------------------------------------

  /** An alias of the outer type reads the same from any level further in. */
  lemma WrittenTreeReadsFromInside(s: Spelling, p: Page, tree: ConcVal, w: World, rank: Ranks, names: Names, k: nat,
                                   l: nat, a: nat)
    requires Tidy(p) && Displays(w, rank, names, k, Write(s, p, tree).page)
    requires k < l < |w| && a < |w[l]| && w[l][a] == TypeAlias(Outer(OuterType, l - k, Write(s, p, tree).at))
    ensures ConcAt(w, rank, names, l, a) == tree
  {
    WrittenTreeReads(s, p, tree, w, rank, names, k);
  }

  /** A handle reached through an alias of an outer import equal to another type: the map at hand is
      asked first, with the id of that type, and then the one of the component's exports. */
  lemma HandleThroughOuterAlias(w: World, names: Names, k: nat, l: nat, i: nat, j: nat, n: nat, name: string,
                                exported: NameMap)
    requires k < l < |w| && i < |w[l]| && w[l][i] == TypeAlias(Outer(OuterType, l - k, j)) && i !in names.local
    requires j < |w[k]| && w[k][j] == TypeImport(ImportItem(name, TypeRefBound(Eq(n))))
    requires l < |names.component| && names.component[l] == Some(exported)
    ensures ConcHandle(w, names, l, i)
         == if n in names.local then NamedResource(names.local[n])
            else if n in exported then NamedResource(exported[n]) else Aborts
  {
  }

  const BLANK := Page([], map[], map[])

  /** The world that consists of one page. */
  lemma WrittenAloneReads(s: Spelling, tree: ConcVal)
    ensures var p, a := Write(s, BLANK, tree).page, Write(s, BLANK, tree).at;
            && a < |p.items|
            && ConcAt([p.items], [Upto(|p.items|)], Names(p.local, [Some(p.exported)]), 0, a) == tree
  {
    var p := Write(s, BLANK, tree).page;
    WrittenTreeReads(s, BLANK, tree, [p.items], [Upto(|p.items|)], Names(p.local, [Some(p.exported)]), 0);
  }

  datatype WrittenFunc = WrittenFunc(page: Page, func: FuncType)

  function WriteSignature(s: Spelling, p: Page, f: ConcFunc): WrittenFunc {
    var w := WriteFields(s, p, f.params);
    var v := WriteOptional(s, w.page, f.result);
    WrittenFunc(v.page, FuncType(f.isAsync, Labelled(f.params, w.vals), v.opt))
  }

  lemma WrittenSignatureReads(s: Spelling, p: Page, f: ConcFunc, w: World, rank: Ranks, names: Names, k: nat,
                              bound: nat)
    requires Tidy(p) && Displays(w, rank, names, k, WriteSignature(s, p, f).page)
    requires |WriteSignature(s, p, f).page.items| <= bound
    ensures ConcSignature(w, rank, names, k, bound, WriteSignature(s, p, f).func) == f
  {
    FieldsGrow(s, p, f.params);
    var v := WriteFields(s, p, f.params);
    OptionalGrows(s, v.page, f.result);
    DisplaysLess(w, rank, names, k, v.page, WriteOptional(s, v.page, f.result).page);
    FieldsRead(s, p, f.params, w, rank, names, k, bound);
    SameFields(f.params, v.vals, w, rank, names, k, bound);
    OptionalReads(s, v.page, f.result, w, rank, names, k, bound);
  }

  /** Only definitions of values, what is equal to one, and what an instance exports have a tree. */
  lemma OthersHaveNoTree(w: World, rank: Ranks, names: Names, k: nat, a: nat)
    requires Shaped(w, rank) && k < |w| && a < |w[k]|
    requires match w[k][a]
             case TypeDef(Func(_)) => true
             case TypeDef(Resource(_, _)) => true
             case BodyType => true
             case TypeAlias(CoreInstanceExport(_, _, _)) => true
             case TypeAlias(Outer(kind, _, _)) => kind != OuterType
             case TypeImport(imp) => imp.ty.TypeRefBound? ==> imp.ty.bounds == SubResource
             case DeclExport(_, ty) => ty.TypeRefBound? ==> ty.bounds == SubResource
             case TypeExport(e) => e.kind != TypeKind
             case _ => false
    ensures ConcAt(w, rank, names, k, a) == Aborts
  {
  }

  /** A type refers to what the item of the same form does. */
  lemma TypesReferLikeItems(t: TypeItem)
    ensures TypeItemRefs(t)
         == match t
            case TypeDef(leaf) => FixIndices.ItemRefs(FixIndices.LeafItem(leaf))
            case BodyType => []
            case TypeAlias(a) => FixIndices.ItemRefs(FixIndices.AliasItem(a))
            case TypeImport(i) => FixIndices.ItemRefs(FixIndices.ImportedItem(i))
            case TypeExport(e) => FixIndices.ItemRefs(FixIndices.ExportedItem(e))
            case DeclExport(name, ty) => FixIndices.ItemRefs(FixIndices.ImportedItem(ImportItem(name, ty)))
  {
  }
}
