/** Reading an encoded component back: its items, recorded in the order in which they were
    emitted, get the ids the assigner gave them, and encoding them once more changes nothing. */
module Reencoding {
  import opened Prelude
  import opened Spaces
  import opened Types
  import opened IndexSpaces
  import opened ActualIds
  import opened FixIndices
  import opened Reindex
  import opened Sections
  import Topological

  // ------------------------------------------------------------------------------------
  // Who owns an id
  // ------------------------------------------------------------------------------------

  /** The item recorded at `j` owns the id. */
  predicate Owns(hist: seq<Entry>, space: Space, j: nat, id: nat) {
    && j < |hist| && hist[j].space == space
    && |LogOf(hist[..j], space)| <= id < |LogOf(hist[..j], space)| + hist[j].width
  }

  /** The item that owns an id of a space. */
  function Owner(hist: seq<Entry>, space: Space, id: nat): (j: nat)
    requires id < |LogOf(hist, space)|
    ensures Owns(hist, space, j, id)
  {
    var n := |hist| - 1;
    if id < |LogOf(hist[..n], space)| then
      var j := Owner(hist[..n], space, id);
      assert hist[..n][..j] == hist[..j];
      j
    else n
  }

  lemma OwnerIsUnique(hist: seq<Entry>, space: Space, j: nat, id: nat)
    requires Owns(hist, space, j, id)
    ensures id < |LogOf(hist, space)| && Owner(hist, space, id) == j
  {
    LogGrows(hist, j, |hist|, space);
    assert hist[..|hist|] == hist;
    var k := Owner(hist, space, id);
    if j < k { LogGrows(hist, j, k, space); }
    if k < j { LogGrows(hist, k, j, space); }
  }

  /** Looking an id up finds the slot of its owner. */
  lemma OwnerHasTheSlot(hist: seq<Entry>, space: Space, id: nat)
    requires Legal(hist) && space != NA && id < |LogOf(hist, space)|
    ensures LogOf(hist, space)[id] == SlotOf(hist, Owner(hist, space, id))
    ensures Rank(LogOf(hist, space), id) == id - |LogOf(hist[..Owner(hist, space, id)], space)|
    ensures Locate(LogOf(hist, space), id).sub == None <==> hist[Owner(hist, space, id)].width == 1
  {
    var j := Owner(hist, space, id);
    var log, slot := LogOf(hist, space), SlotOf(hist, j);
    IdsAreConsecutive(hist, j);
    PositionsHold(log, slot);
    var k := id - |LogOf(hist[..j], space)|;
    assert Positions(log, slot)[k] == id;
    EntryHolds(log, slot, id);
  }

  lemma IdsAreOwned(hist: seq<Entry>, j: nat, id: nat)
    requires Legal(hist) && j < |hist| && hist[j].space != NA
    ensures id in IdsOf(hist, j) <==> Owns(hist, hist[j].space, j, id)
  {
    IdsAreConsecutive(hist, j);
    var from := |LogOf(hist[..j], hist[j].space)|;
    if Owns(hist, hist[j].space, j, id) { assert IdsOf(hist, j)[id - from] == id; }
  }

  // ------------------------------------------------------------------------------------
  // Visiting the items in another order
  // ------------------------------------------------------------------------------------

  /** The positions of items, each at most once. */
  predicate Visits(hist: seq<Entry>, order: seq<nat>) {
    Distinct(order) && forall i :: 0 <= i < |order| ==> order[i] < |hist|
  }

  lemma VisitsPrefix(hist: seq<Entry>, order: seq<nat>, n: nat)
    requires Visits(hist, order) && n <= |order|
    ensures Visits(hist, order[..n])
  {
  }

  /** The ids met are those of the items visited. */
  lemma {:induction false} AlongMembers(hist: seq<Entry>, order: seq<nat>, space: Space, id: nat)
    requires Legal(hist) && space != NA && Visits(hist, order)
    ensures id in IdsAlong(hist, order, space)
       <==> id < |LogOf(hist, space)| && Owner(hist, space, id) in order
  {
    if order != [] {
      var n := |order| - 1;
      VisitsPrefix(hist, order, n);
      AlongMembers(hist, order[..n], space, id);
      assert order == order[..n] + [order[n]];
      if hist[order[n]].space == space {
        IdsAreOwned(hist, order[n], id);
        if Owns(hist, space, order[n], id) { OwnerIsUnique(hist, space, order[n], id); }
      }
    }
  }

  lemma {:induction false} AlongDistinct(hist: seq<Entry>, order: seq<nat>, space: Space)
    requires Legal(hist) && space != NA && Visits(hist, order)
    ensures Distinct(IdsAlong(hist, order, space))
  {
    if order != [] {
      var n := |order| - 1;
      VisitsPrefix(hist, order, n);
      AlongDistinct(hist, order[..n], space);
      if hist[order[n]].space == space {
        IdsAreConsecutive(hist, order[n]);
        forall id | id in IdsOf(hist, order[n]) ensures id !in IdsAlong(hist, order[..n], space) {
          AlongMembers(hist, order[..n], space, id);
          IdsAreOwned(hist, order[n], id);
          OwnerIsUnique(hist, space, order[n], id);
        }
        ConcatDistinct(IdsAlong(hist, order[..n], space), IdsOf(hist, order[n]));
      }
    }
  }

  lemma ConcatDistinct(a: seq<nat>, b: seq<nat>)
    requires Distinct(a) && Distinct(b) && forall x :: x in b ==> x !in a
    ensures Distinct(a + b)
  {
    forall i, j | 0 <= i < j < |a + b| ensures (a + b)[i] != (a + b)[j] {
      if i < |a| <= j { assert b[j - |a|] in b; }
    }
  }

  /** Visiting every item once meets every id of a space once. */
  lemma AlongIsPermutation(hist: seq<Entry>, order: seq<nat>, space: Space)
    requires Legal(hist) && space != NA && IsPermutation(order) && |order| == |hist|
    ensures IsPermutation(IdsAlong(hist, order, space))
    ensures |IdsAlong(hist, order, space)| == |LogOf(hist, space)|
  {
    var ids, n := IdsAlong(hist, order, space), |LogOf(hist, space)|;
    AlongDistinct(hist, order, space);
    forall id: nat ensures id in ids <==> id < n {
      AlongMembers(hist, order, space, id);
      if id < n { PermutationCovers(order, Owner(hist, space, id)); }
    }
    forall i | 0 <= i < |ids| ensures ids[i] < n { assert ids[i] in ids; }
    PigeonHole(ids, n);
    Topological.AllListed(ids, n);
  }

  /** The entries as they are recorded when the emitted items are read back. */
  function ReadBack(hist: seq<Entry>, order: seq<nat>): (r: seq<Entry>)
    requires forall i :: 0 <= i < |order| ==> order[i] < |hist|
    ensures |r| == |order|
    ensures forall i :: 0 <= i < |order| ==> r[i] == hist[order[i]]
  {
    seq(|order|, i requires 0 <= i < |order| => hist[order[i]])
  }

  lemma ReadBackLegal(hist: seq<Entry>, order: seq<nat>)
    requires Legal(hist) && Visits(hist, order)
    ensures Legal(ReadBack(hist, order))
  {
    forall e | e in ReadBack(hist, order) ensures e in hist {
      var i :| 0 <= i < |order| && ReadBack(hist, order)[i] == e;
    }
  }

  /** Reading back numbers as far as the assigner had counted. */
  lemma {:induction false} CountsAgree(hist: seq<Entry>, order: seq<nat>, space: Space)
    requires Legal(hist) && space != NA && Visits(hist, order)
    ensures |LogOf(ReadBack(hist, order), space)| == |IdsAlong(hist, order, space)|
  {
    if order != [] {
      var n := |order| - 1;
      VisitsPrefix(hist, order, n);
      CountsAgree(hist, order[..n], space);
      assert ReadBack(hist, order)[..n] == ReadBack(hist, order[..n]);
      if hist[order[n]].space == space { IdsAreConsecutive(hist, order[n]); }
    }
  }

  /** The ids of the item visited as number `i` are met after those of the items before it. */
  lemma {:induction false} MetInTurn(hist: seq<Entry>, order: seq<nat>, i: nat, k: nat)
    requires Legal(hist) && Visits(hist, order) && i < |order|
    requires hist[order[i]].space != NA && k < |IdsOf(hist, order[i])|
    ensures var space := hist[order[i]].space;
            var before, all := |IdsAlong(hist, order[..i], space)|, IdsAlong(hist, order, space);
            before + k < |all| && all[before + k] == IdsOf(hist, order[i])[k]
  {
    var n := |order| - 1;
    VisitsPrefix(hist, order, n);
    if i < n {
      assert order[..n][..i] == order[..i];
      MetInTurn(hist, order[..n], i, k);
      assert IdsAlong(hist, order[..n], hist[order[i]].space) <= IdsAlong(hist, order, hist[order[i]].space);
    }
  }

  /** What the emission of one component's items, in the order `order`, does to its scope. */
  ghost predicate Emits(es: seq<Emission>, scope: ScopeId, hist: seq<Entry>, order: seq<nat>)
    requires Visits(hist, order)
  {
    forall space: Space {:trigger OrderOf(es, scope, space)} ::
      space != NA ==> OrderOf(es, scope, space) == IdsAlong(hist, order, space)
  }

  /** Reading the emitted items back gives every item, those with several ids or none included,
      exactly the ids the assigner gave it. */
  lemma ReadingBackAgrees(es: seq<Emission>, scope: ScopeId, hist: seq<Entry>, order: seq<nat>, i: nat)
    requires Legal(hist) && IsPermutation(order) && |order| == |hist| && Emits(es, scope, hist, order)
    requires i < |hist| && hist[order[i]].space != NA
    ensures var space, was, now := hist[order[i]].space, IdsOf(hist, order[i]), IdsOf(ReadBack(hist, order), i);
            |now| == |was| && forall k :: 0 <= k < |was| ==> ActualOf(es, scope, space, was[k]) == now[k]
  {
    var space := hist[order[i]].space;
    var was, now := IdsOf(hist, order[i]), IdsOf(ReadBack(hist, order), i);
    ReadBackLegal(hist, order);
    IdsAreConsecutive(hist, order[i]);
    IdsAreConsecutive(ReadBack(hist, order), i);
    VisitsPrefix(hist, order, i);
    CountsAgree(hist, order[..i], space);
    assert ReadBack(hist, order)[..i] == ReadBack(hist, order[..i]);
    AlongIsPermutation(hist, order, space);
    forall k | 0 <= k < |was| ensures ActualOf(es, scope, space, was[k]) == now[k] {
      MetInTurn(hist, order, i, k);
      ActualIsPosition(es, scope, space, was[k]);
    }
  }

  // ------------------------------------------------------------------------------------
  // The items of a component and what they refer to
  // ------------------------------------------------------------------------------------

  /** One recorded item. Only the first two kinds carry references of the component's own scope:
      what a type body holds is numbered in scopes of its own, modules and custom sections refer
      to nothing, and a nested component is one item. */
  datatype Content =
    | Lone(item: Item)
    | Group(subs: seq<SubType>)
    | TypeBody
    | ModuleTypeBody
    | CoreModuleBody
    | NestedComponent
    | CustomData

  type Contents = seq<Content>

  /** How an item is recorded. */
  function EntryOf(x: Content): Entry {
    match x
    case Lone(item) => ItemEntry(item)
    case Group(subs) => Entry(CoreTypeSection, Space.CoreType, |subs|)
    case TypeBody => Entry(ComponentTypeSection, Space.CompType, 1)
    case ModuleTypeBody => Entry(CoreTypeSection, Space.CoreType, 1)
    case CoreModuleBody => Entry(ModuleSection, Space.CoreModule, 1)
    case NestedComponent => Entry(ComponentSection, Space.Comp, 1)
    case CustomData => Entry(CustomSection, Space.NA, 0)
  }

  function Hist(cs: Contents): (h: seq<Entry>)
    ensures |h| == |cs|
    ensures forall i :: 0 <= i < |cs| ==> h[i] == EntryOf(cs[i])
  {
    Map(EntryOf, cs)
  }

  lemma HistIsLegal(cs: Contents)
    ensures Legal(Hist(cs))
  {
    forall e | e in Hist(cs) && OriginOf(e.kind) == Main && e.space != NA ensures e.kind == MainKind(e.space) {
      var i :| 0 <= i < |cs| && EntryOf(cs[i]) == e;
      EntryIsLegal(cs[i]);
    }
  }

  lemma EntryIsLegal(x: Content)
    ensures var e := EntryOf(x);
            OriginOf(e.kind) == Main && e.space != NA ==> e.kind == MainKind(e.space)
  {
  }

  function ItemsOf(x: Content): seq<Item> {
    match x
    case Lone(item) => [item]
    case Group(subs) => Map(s => SubTypeItem(s), subs)
    case _ => []
  }

  function RefsOf(x: Content): seq<IndexedRef> {
    FlatMap(ItemRefs, ItemsOf(x))
  }

  /** The ids the index space knows, all in the component's own scope. */
  predicate Known(hist: seq<Entry>, r: IndexedRef) {
    r.depth == 0 && r.space != NA && r.index < |LogOf(hist, r.space)|
  }

  predicate Resolved(cs: Contents) {
    forall i :: 0 <= i < |cs| ==> AllKnown(Hist(cs), RefsOf(cs[i]))
  }

  predicate AllKnown(hist: seq<Entry>, refs: seq<IndexedRef>) {
    forall k :: 0 <= k < |refs| ==> Known(hist, refs[k])
  }

  function Owners(hist: seq<Entry>, refs: seq<IndexedRef>): (r: seq<nat>)
    requires AllKnown(hist, refs)
    ensures |r| == |refs|
    ensures forall k :: 0 <= k < |refs| ==> r[k] == Owner(hist, refs[k].space, refs[k].index)
  {
    seq(|refs|, k requires 0 <= k < |refs| => Owner(hist, refs[k].space, refs[k].index))
  }

  /** Types and nested components are entered, but their references are not collected first. */
  predicate IsFollowed(x: Content) {
    match x
    case Lone(item) => !item.LeafItem? && !item.SubTypeItem?
    case CoreModuleBody => true
    case CustomData => true
    case _ => false
  }

  /** The graph the topological collection works on, read off the items and the index spaces. */
  function GraphOf(cs: Contents): (g: seq<Topological.Node>)
    requires Resolved(cs)
    ensures |g| == |cs| && Topological.Closed(g)
    ensures forall i :: 0 <= i < |cs| ==>
              g[i] == Topological.Node(Owners(Hist(cs), RefsOf(cs[i])), IsFollowed(cs[i]))
  {
    seq(|cs|, i requires 0 <= i < |cs| => Topological.Node(Owners(Hist(cs), RefsOf(cs[i])), IsFollowed(cs[i])))
  }

  /** Collecting a reference to one of several ids of an item aborts, except among core types. */
  predicate Collectable(hist: seq<Entry>, r: IndexedRef)
    requires Known(hist, r)
  {
    r.space == Space.CoreType || Locate(LogOf(hist, r.space), r.index).sub == None
  }

  predicate AllCollectable(cs: Contents)
    requires Resolved(cs)
  {
    forall i, k :: 0 <= i < |cs| && 0 <= k < |RefsOf(cs[i])| && IsFollowed(cs[i]) ==>
      Collectable(Hist(cs), RefsOf(cs[i])[k])
  }

  /** The order of emission, where the collection does not abort. */
  function OrderFor(cs: Contents): Option<seq<nat>>
    requires Resolved(cs)
  {
    if AllCollectable(cs) then Some(Topological.EmissionOrder(GraphOf(cs))) else None
  }

  function EmitContent(rho: Renaming, x: Content): Content {
    match x
    case Lone(item) => Lone(EmitItem(rho, item))
    case Group(subs) => Group(Map(s => FixSubType(rho, s), subs))
    case _ => x
  }

  /** The component as it comes out: its items in emission order, each rewritten. */
  function EncodedAs(cs: Contents, order: seq<nat>, rho: Renaming): (r: Contents)
    requires forall i :: 0 <= i < |order| ==> order[i] < |cs|
    ensures |r| == |order|
    ensures forall i :: 0 <= i < |order| ==> r[i] == EmitContent(rho, cs[order[i]])
  {
    seq(|order|, i requires 0 <= i < |order| => EmitContent(rho, cs[order[i]]))
  }

  // ------------------------------------------------------------------------------------
  // What emission does to one item
  // ------------------------------------------------------------------------------------

  lemma EntryKept(rho: Renaming, x: Content)
    ensures EntryOf(EmitContent(rho, x)) == EntryOf(x) && IsFollowed(EmitContent(rho, x)) == IsFollowed(x)
  {
  }

  lemma ItemsEmitted(rho: Renaming, x: Content)
    ensures ItemsOf(EmitContent(rho, x)) == Map(y => EmitItem(rho, y), ItemsOf(x))
  {
  }

  ghost predicate InFull(rho: Renaming, x: Content) {
    forall y :: y in ItemsOf(x) ==> EmittedInFull(rho, y)
  }

  lemma RefsRenamed(rho: Renaming, x: Content)
    requires InFull(rho, x)
    ensures RefsOf(EmitContent(rho, x)) == Map(Renamed(rho), RefsOf(x))
  {
    ItemsEmitted(rho, x);
    forall y | y in ItemsOf(x) ensures ItemRefs(EmitItem(rho, y)) == Map(Renamed(rho), ItemRefs(y)) {
      EmissionRenamesReferences(rho, y);
    }
    EachRenamed(y => EmitItem(rho, y), ItemRefs, Renamed(rho), ItemsOf(x));
  }

  lemma PlainStaysPlain(rho: Renaming, y: Item)
    requires InlineExportsPlain(y)
    ensures InlineExportsPlain(EmitItem(rho, y))
  {
  }

  ghost predicate Plain(x: Content) {
    forall y :: y in ItemsOf(x) ==> InlineExportsPlain(y)
  }

  lemma KeptContent(rho: Renaming, x: Content)
    requires Plain(x) && Keeps(rho, RefsOf(x))
    ensures EmitContent(rho, x) == x
  {
    EachListed(ItemRefs, ItemsOf(x));
    forall y | y in ItemsOf(x) ensures EmitItem(rho, y) == y { RewritingTouchesOnlyReferences(rho, rho, y); }
    match x {
      case Group(subs) =>
        forall i | 0 <= i < |subs| ensures FixSubType(rho, subs[i]) == subs[i] {
          assert ItemsOf(x)[i] == SubTypeItem(subs[i]) && SubTypeItem(subs[i]) in ItemsOf(x);
        }
      case Lone(item) => assert item in ItemsOf(x);
      case _ =>
    }
  }

  // ------------------------------------------------------------------------------------
  // Reading back what was emitted
  // ------------------------------------------------------------------------------------

  /** One complete emission of a component's items. */
  ghost predicate CompletelyEmitted(cs: Contents, es: seq<Emission>, scope: ScopeId, order: seq<nat>) {
    IsPermutation(order) && |order| == |cs| && Emits(es, scope, Hist(cs), order)
  }

  lemma HistReadBack(cs: Contents, order: seq<nat>, rho: Renaming)
    requires forall i :: 0 <= i < |order| ==> order[i] < |cs|
    ensures Hist(EncodedAs(cs, order, rho)) == ReadBack(Hist(cs), order)
  {
    forall i | 0 <= i < |order| ensures EntryOf(EncodedAs(cs, order, rho)[i]) == Hist(cs)[order[i]] {
      EntryKept(rho, cs[order[i]]);
    }
  }

  /** The renamed id of an item is owned by that item, wherever it is read back. */
  lemma OwnerMoves(es: seq<Emission>, scope: ScopeId, hist: seq<Entry>, order: seq<nat>, r: IndexedRef)
    requires Legal(hist) && IsPermutation(order) && |order| == |hist| && Emits(es, scope, hist, order)
    requires Known(hist, r)
    ensures var s := Renamed(RenamingAt(es, [scope]))(r);
            && Known(ReadBack(hist, order), s)
            && order[Owner(ReadBack(hist, order), s.space, s.index)] == Owner(hist, r.space, r.index)
  {
    var j := Owner(hist, r.space, r.index);
    PermutationCovers(order, j);
    var i :| 0 <= i < |order| && order[i] == j;
    IdsAreOwned(hist, j, r.index);
    var k :| 0 <= k < |IdsOf(hist, j)| && IdsOf(hist, j)[k] == r.index;
    NewIdOwned(es, scope, hist, order, i, k);
    OwnerIsUnique(ReadBack(hist, order), r.space, i, RenamingAt(es, [scope])(r));
  }

  /** The new id of an item's `k`-th id is owned by the item in its new place. */
  lemma NewIdOwned(es: seq<Emission>, scope: ScopeId, hist: seq<Entry>, order: seq<nat>, i: nat, k: nat)
    requires Legal(hist) && IsPermutation(order) && |order| == |hist| && Emits(es, scope, hist, order)
    requires i < |hist| && hist[order[i]].space != NA && k < |IdsOf(hist, order[i])|
    ensures var space := hist[order[i]].space;
            Owns(ReadBack(hist, order), space, i, ActualOf(es, scope, space, IdsOf(hist, order[i])[k]))
  {
    ReadingBackAgrees(es, scope, hist, order, i);
    var now := IdsOf(ReadBack(hist, order), i);
    assert now[k] in now;
    ReadBackLegal(hist, order);
    IdsAreOwned(ReadBack(hist, order), i, now[k]);
  }

  lemma CollectableMoves(es: seq<Emission>, scope: ScopeId, hist: seq<Entry>, order: seq<nat>, r: IndexedRef)
    requires Legal(hist) && IsPermutation(order) && |order| == |hist| && Emits(es, scope, hist, order)
    requires Known(hist, r) && Collectable(hist, r)
    requires Known(ReadBack(hist, order), Renamed(RenamingAt(es, [scope]))(r))
    ensures Collectable(ReadBack(hist, order), Renamed(RenamingAt(es, [scope]))(r))
  {
    var s := Renamed(RenamingAt(es, [scope]))(r);
    OwnerMoves(es, scope, hist, order, r);
    ReadBackLegal(hist, order);
    OwnerHasTheSlot(hist, r.space, r.index);
    OwnerHasTheSlot(ReadBack(hist, order), s.space, s.index);
  }

  /** Every item comes out with its references renamed. */
  ghost predicate AllInFull(cs: Contents, rho: Renaming) {
    forall i :: 0 <= i < |cs| ==> InFull(rho, cs[i])
  }

  lemma EncodedResolves(cs: Contents, es: seq<Emission>, scope: ScopeId, order: seq<nat>)
    requires Resolved(cs) && CompletelyEmitted(cs, es, scope, order) && AllInFull(cs, RenamingAt(es, [scope]))
    ensures Resolved(EncodedAs(cs, order, RenamingAt(es, [scope])))
  {
    var rho := RenamingAt(es, [scope]);
    var once := EncodedAs(cs, order, rho);
    HistIsLegal(cs);
    HistReadBack(cs, order, rho);
    forall i | 0 <= i < |once| ensures AllKnown(Hist(once), RefsOf(once[i])) {
      RefsRenamed(rho, cs[order[i]]);
      assert AllKnown(Hist(cs), RefsOf(cs[order[i]]));
      forall k | 0 <= k < |RefsOf(once[i])| ensures Known(Hist(once), RefsOf(once[i])[k]) {
        OwnerMoves(es, scope, Hist(cs), order, RefsOf(cs[order[i]])[k]);
      }
    }
  }

  /** The graph read off the encoded component is the original graph, seen in emission order. */
  lemma GraphMoves(cs: Contents, es: seq<Emission>, scope: ScopeId, order: seq<nat>, i: nat)
    requires Resolved(cs) && CompletelyEmitted(cs, es, scope, order) && AllInFull(cs, RenamingAt(es, [scope]))
    requires Resolved(EncodedAs(cs, order, RenamingAt(es, [scope]))) && i < |cs|
    ensures var was := GraphOf(cs)[order[i]];
            var now := GraphOf(EncodedAs(cs, order, RenamingAt(es, [scope])))[i];
            && now.followed == was.followed && |now.refs| == |was.refs|
            && forall k :: 0 <= k < |was.refs| ==> now.refs[k] < |cs| && order[now.refs[k]] == was.refs[k]
  {
    var rho := RenamingAt(es, [scope]);
    var once := EncodedAs(cs, order, rho);
    HistIsLegal(cs);
    HistReadBack(cs, order, rho);
    RefsRenamed(rho, cs[order[i]]);
    EntryKept(rho, cs[order[i]]);
    var refs := RefsOf(cs[order[i]]);
    forall k | 0 <= k < |refs|
      ensures Owners(Hist(once), RefsOf(once[i]))[k] < |cs|
      ensures order[Owners(Hist(once), RefsOf(once[i]))[k]] == Owners(Hist(cs), refs)[k]
    {
      OwnerMoves(es, scope, Hist(cs), order, refs[k]);
    }
  }

  /** If the items were emitted after what they refer to, all references now point back. */
  lemma NowPointsBack(g: seq<Topological.Node>, h: seq<Topological.Node>, order: seq<nat>, i: nat)
    requires IsPermutation(order) && |order| == |g| == |h| && i < |g|
    requires Topological.AllBelow(order, |g|) && Topological.AfterItsRefs(g, order, i)
    requires h[i].followed == g[order[i]].followed && |h[i].refs| == |g[order[i]].refs|
    requires forall k :: 0 <= k < |h[i].refs| ==> h[i].refs[k] < |g| && order[h[i].refs[k]] == g[order[i]].refs[k]
    ensures Topological.PointsBack(h, i)
  {
    if h[i].followed {
      forall k | 0 <= k < |h[i].refs| ensures h[i].refs[k] < i + 1 {
        var d := g[order[i]].refs[k];
        assert d in g[order[i]].refs;
        var j :| 0 <= j < i && order[j] == d;
        assert order[h[i].refs[k]] == order[j];
      }
    }
  }

  /** The component as it comes out of an emission in topological order. */
  ghost predicate EmittedInOrder(cs: Contents, rank: seq<nat>, es: seq<Emission>, scope: ScopeId) {
    && Resolved(cs) && Topological.Acyclic(GraphOf(cs), rank) && AllCollectable(cs)
    && CompletelyEmitted(cs, es, scope, Topological.EmissionOrder(GraphOf(cs)))
    && AllInFull(cs, RenamingAt(es, [scope]))
  }

  function Once(cs: Contents, es: seq<Emission>, scope: ScopeId): Contents
    requires Resolved(cs)
    requires forall i :: 0 <= i < |Topological.EmissionOrder(GraphOf(cs))| ==>
               Topological.EmissionOrder(GraphOf(cs))[i] < |cs|
  {
    EncodedAs(cs, Topological.EmissionOrder(GraphOf(cs)), RenamingAt(es, [scope]))
  }

  /** Collected again, an encoded component keeps its order, and nothing makes the collection
      abort. */
  lemma EncodedKeepsItsOrder(cs: Contents, rank: seq<nat>, es: seq<Emission>, scope: ScopeId)
    requires EmittedInOrder(cs, rank, es, scope)
    ensures Resolved(Once(cs, es, scope))
    ensures OrderFor(Once(cs, es, scope)) == Some(Upto(|cs|))
  {
    var order, rho := Topological.EmissionOrder(GraphOf(cs)), RenamingAt(es, [scope]);
    var once := Once(cs, es, scope);
    EncodedResolves(cs, es, scope, order);
    EncodedCollectable(cs, es, scope, order);
    var g, h := GraphOf(cs), GraphOf(once);
    Topological.DependenciesComeFirst(g, rank);
    forall i | 0 <= i < |h| ensures Topological.PointsBack(h, i) {
      GraphMoves(cs, es, scope, order, i);
      NowPointsBack(g, h, order, i);
    }
    Topological.StructuralOrderIsKept(h);
  }

  lemma EncodedCollectable(cs: Contents, es: seq<Emission>, scope: ScopeId, order: seq<nat>)
    requires Resolved(cs) && AllCollectable(cs)
    requires CompletelyEmitted(cs, es, scope, order) && AllInFull(cs, RenamingAt(es, [scope]))
    requires Resolved(EncodedAs(cs, order, RenamingAt(es, [scope])))
    ensures AllCollectable(EncodedAs(cs, order, RenamingAt(es, [scope])))
  {
    var rho := RenamingAt(es, [scope]);
    var once := EncodedAs(cs, order, rho);
    HistIsLegal(cs);
    HistReadBack(cs, order, rho);
    forall i, k | 0 <= i < |once| && 0 <= k < |RefsOf(once[i])| && IsFollowed(once[i])
      ensures Collectable(Hist(once), RefsOf(once[i])[k])
    {
      RefsRenamed(rho, cs[order[i]]);
      EntryKept(rho, cs[order[i]]);
      assert Collectable(Hist(cs), RefsOf(cs[order[i]])[k]);
      CollectableMoves(es, scope, Hist(cs), order, RefsOf(cs[order[i]])[k]);
    }
  }

  /** Items emitted in the order in which they were recorded are not rewritten. */
  lemma InOrderMeansUnchanged(cs: Contents, es: seq<Emission>, scope: ScopeId)
    requires Resolved(cs) && Emits(es, scope, Hist(cs), Upto(|cs|))
    requires forall i :: 0 <= i < |cs| ==> Plain(cs[i])
    ensures EncodedAs(cs, Upto(|cs|), RenamingAt(es, [scope])) == cs
  {
    var rho := RenamingAt(es, [scope]);
    HistIsLegal(cs);
    forall i | 0 <= i < |cs| ensures EmitContent(rho, cs[i]) == cs[i] {
      assert AllKnown(Hist(cs), RefsOf(cs[i]));
      forall r | r in RefsOf(cs[i]) ensures rho(r) == r.index {
        StructuralOrderIsIdentity(Hist(cs), r.space);
        UptoIsIdentity(es, scope, r.space, |LogOf(Hist(cs), r.space)|, r.index);
      }
      KeptContent(rho, cs[i]);
    }
  }

  lemma UptoIsIdentity(es: seq<Emission>, scope: ScopeId, space: Space, n: nat, a: nat)
    requires OrderOf(es, scope, space) == Upto(n) && a < n
    ensures ActualOf(es, scope, space, a) == a
  {
    assert Upto(n)[a] == a;
    ActualIsPosition(es, scope, space, a);
  }

  /** Encoding a component, reading the result back and encoding that: the collection keeps the
      order, no index is rewritten, and the second result is the first. */
  lemma EncodingAgainChangesNothing(cs: Contents, rank: seq<nat>, es: seq<Emission>, scope: ScopeId,
                                    es2: seq<Emission>, scope2: ScopeId)
    requires EmittedInOrder(cs, rank, es, scope)
    requires forall i :: 0 <= i < |cs| ==> Plain(cs[i])
    requires Emits(es2, scope2, Hist(Once(cs, es, scope)), Upto(|cs|))
    ensures Resolved(Once(cs, es, scope))
    ensures OrderFor(Once(cs, es, scope)) == Some(Upto(|cs|))
    ensures EncodedAs(Once(cs, es, scope), Upto(|cs|), RenamingAt(es2, [scope2])) == Once(cs, es, scope)
  {
    EncodedKeepsItsOrder(cs, rank, es, scope);
    OnceIsPlain(cs, es, scope);
    InOrderMeansUnchanged(Once(cs, es, scope), es2, scope2);
  }

  lemma OnceIsPlain(cs: Contents, es: seq<Emission>, scope: ScopeId)
    requires Resolved(cs) && CompletelyEmitted(cs, es, scope, Topological.EmissionOrder(GraphOf(cs)))
    requires forall i :: 0 <= i < |cs| ==> Plain(cs[i])
    ensures forall i :: 0 <= i < |Once(cs, es, scope)| ==> Plain(Once(cs, es, scope)[i])
  {
    var order, rho := Topological.EmissionOrder(GraphOf(cs)), RenamingAt(es, [scope]);
    forall i | 0 <= i < |order| ensures Plain(EmitContent(rho, cs[order[i]])) {
      assert Plain(cs[order[i]]);
      PlainKept(rho, cs[order[i]]);
    }
  }

  lemma PlainKept(rho: Renaming, x: Content)
    requires Plain(x)
    ensures Plain(EmitContent(rho, x))
  {
    ItemsEmitted(rho, x);
    forall k | 0 <= k < |ItemsOf(x)| ensures InlineExportsPlain(EmitItem(rho, ItemsOf(x)[k])) {
      assert ItemsOf(x)[k] in ItemsOf(x);
      PlainStaysPlain(rho, ItemsOf(x)[k]);
    }
  }

  /** The same holds for what type bodies hold: inside a body ids are the declarations' own
      positions, and the component's ids no longer move. */
  lemma InsideNothingChangesEither(cs: Contents, es: seq<Emission>, scope: ScopeId, inner: seq<ScopeId>, x: Item)
    requires Emits(es, scope, Hist(cs), Upto(|cs|)) && InlineExportsPlain(x)
    requires forall s, space: Space :: s in inner ==> OrderOf(es, s, space) == Upto(|OrderOf(es, s, space)|)
    requires forall r :: r in ItemRefs(x) ==> r.space != NA && Resolvable(es, [scope] + inner, r)
    ensures EmitItem(RenamingAt(es, [scope] + inner), x) == x
  {
    HistIsLegal(cs);
    forall r | r in ItemRefs(x) ensures InOrderThere(es, [scope] + inner, r) {
      var s := ScopeAt([scope] + inner, r.depth);
      if r.depth == |inner| { StructuralOrderIsIdentity(Hist(cs), r.space); } else { assert s in inner; }
    }
    OrderMeansUnchanged(es, [scope] + inner, x);
  }
}
