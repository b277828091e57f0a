/** The section list of a component: runs of same-kind items, kept next to one vector per kind
    and the index spaces, as payloads are parsed and items are added. */
module Sections {
  import opened Prelude
  import opened Spaces
  import opened Types
  import opened IndexSpaces
  import opened FixIndices

  type Runs = seq<(nat, Section)>

  /** An item as it was recorded: its kind, the space it occupies and how many ids it takes
      there (a start function takes one per result, a recursion group one per type). */
  datatype Entry = Entry(kind: Section, space: Space, width: nat)

  /** How an item is recorded. An exported component takes an id among the instances, and a start
      function one id per result among the values. */
  function ItemEntry(item: Item): Entry {
    match item
    case LeafItem(_) => Entry(ComponentTypeSection, Space.CompType, 1)
    case SubTypeItem(_) => Entry(CoreTypeSection, Space.CoreType, 1)
    case AliasItem(a) => Entry(AliasSection, AliasSpace(a), 1)
    case ImportedItem(i) => Entry(ImportSection, TypeRefItemSpace(i.ty), 1)
    case ExportedItem(e) =>
      Entry(ExportSection, if e.kind == ComponentKind then Space.CompInst else ExternalSpace(e.kind), 1)
    case CompInstanceItem(_) => Entry(ComponentInstanceSection, Space.CompInst, 1)
    case CoreInstanceItem(_) => Entry(CoreInstanceSection, Space.CoreInst, 1)
    case CanonItem(c) => Entry(CanonSection, if c.Lift? then Space.CompFunc else Space.CoreFunc, 1)
    case StartItem(s) => Entry(StartSection, Space.CompVal, s.results)
  }

  /** The numbers `from`, `from + 1`, ... */
  function Consecutive(from: nat, n: nat): (r: seq<nat>)
    ensures |r| == n
    ensures forall i :: 0 <= i < n ==> r[i] == from + i
  {
    seq(n, i => from + i)
  }

  function Kinds(hist: seq<Entry>): seq<Section> {
    Map((e: Entry) => e.kind, hist)
  }

  /** The kinds a run list stands for, item by item. */
  function Expand(runs: Runs): seq<Section> {
    if runs == [] then []
    else Expand(runs[..|runs| - 1]) + Repeat(runs[|runs| - 1].1, runs[|runs| - 1].0)
  }

  /** How many items of a kind a run list counts. */
  function Total(runs: Runs, kind: Section): nat {
    if runs == [] then 0
    else Total(runs[..|runs| - 1], kind) + (if runs[|runs| - 1].1 == kind then runs[|runs| - 1].0 else 0)
  }

  function OfKind(hist: seq<Entry>, kind: Section): seq<Entry> {
    if hist == [] then []
    else OfKind(hist[..|hist| - 1], kind) + (if hist[|hist| - 1].kind == kind then [hist[|hist| - 1]] else [])
  }

  /** The slot of the item recorded at position `j`: its place in the vector of its kind. */
  function SlotOf(hist: seq<Entry>, j: nat): Slot
    requires j < |hist|
  {
    Slot(OriginOf(hist[j].kind), |OfKind(hist[..j], hist[j].kind)|)
  }

  /** The log of one index space after the whole history. */
  function LogOf(hist: seq<Entry>, space: Space): seq<Slot> {
    if hist == [] then []
    else
      var n := |hist| - 1;
      LogOf(hist[..n], space) + (if hist[n].space == space then Repeat(SlotOf(hist, n), hist[n].width) else [])
  }

  /** Spaces are fed by imports, exports, aliases and at most one vector of definitions. */
  function MainKind(space: Space): Section {
    match space
    case Comp => ComponentSection
    case CompFunc => CanonSection
    case CoreFunc => CanonSection
    case CompVal => StartSection
    case CompType => ComponentTypeSection
    case CompInst => ComponentInstanceSection
    case CoreInst => CoreInstanceSection
    case CoreModule => ModuleSection
    case CoreType => CoreTypeSection
    case _ => CustomSection
  }

  predicate Legal(hist: seq<Entry>) {
    forall e :: e in hist && OriginOf(e.kind) == Main && e.space != NA ==> e.kind == MainKind(e.space)
  }

  class Builder {
    var vecs: map<Section, seq<Entry>>
    var runs: Runs
    var numSections: nat
    var logs: map<Space, seq<Slot>>
    ghost var hist: seq<Entry>

    ghost predicate Valid()
      reads this
    {
      && numSections == |runs|
      && Expand(runs) == Kinds(hist)
      && (forall kind :: Vec(kind) == OfKind(hist, kind))
      && (forall space :: space != NA ==> Log(space) == LogOf(hist, space))
    }

    function Vec(kind: Section): seq<Entry>
      reads this
    {
      if kind in vecs then vecs[kind] else []
    }

    function Log(space: Space): seq<Slot>
      reads this
    {
      if space in logs then logs[space] else []
    }

    constructor ()
      ensures Valid() && hist == [] && runs == []
    {
      vecs, runs, numSections, logs, hist := map[], [], 0, map[], [];
    }

    /** An injected item extends the last run when that run is of its kind. */
    method AddSection(kind: Section)
      requires numSections == |runs|
      modifies this`runs, this`numSections
      ensures numSections == |runs|
      ensures Expand(runs) == Expand(old(runs)) + [kind]
      ensures runs == if old(runs) != [] && old(runs)[|old(runs)| - 1].1 == kind
                      then old(runs)[|old(runs)| - 1 := (old(runs)[|old(runs)| - 1].0 + 1, kind)]
                      else old(runs) + [(1, kind)]
    {
      ghost var before := runs;
      if numSections > 0 && runs[numSections - 1].1 == kind {
        var last := runs[numSections - 1];
        runs := runs[numSections - 1 := (last.0 + 1, kind)];
        assert runs[..numSections - 1] == before[..numSections - 1];
        assert Repeat(kind, last.0 + 1) == Repeat(kind, last.0) + [kind];
      } else {
        runs := runs + [(1, kind)];
        numSections := numSections + 1;
        assert runs[..|before|] == before;
        assert Repeat(kind, 1) == [kind];
      }
    }

    /** A parsed payload makes exactly one entry, whatever its size and its neighbours. */
    method AddToSections(kinds: seq<Section>, payload: Section)
      requires numSections == |runs|
      requires forall k :: k in kinds ==> k == payload
      modifies this`runs, this`numSections
      ensures numSections == |runs|
      ensures runs == old(runs) + [(|kinds|, payload)]
    {
      if kinds == [] {
        runs := runs + [(0, payload)];
        numSections := numSections + 1;
        return;
      }
      var i := 0;
      while i < |kinds|
        invariant i == 0 || i == |kinds|
        invariant numSections == |runs|
        invariant runs == old(runs) + (if i == 0 then [] else [(|kinds|, payload)])
        decreases |kinds| - i
      {
        var kind := kinds[i];
        var count := 1;
        while i + count < |kinds| && kinds[i + count] == kind
          invariant 1 <= count && i + count <= |kinds|
        {
          count := count + 1;
        }
        assert kind in kinds;
        assert i + count < |kinds| ==> kinds[i + count] in kinds;
        runs := runs + [(count, kind)];
        numSections := numSections + 1;
        i := i + count;
      }
    }

    /** Hands out `width` consecutive ids to the item at position `vecIdx`. */
    method AssignIds(space: Space, kind: Section, vecIdx: nat, width: nat) returns (ids: seq<nat>)
      modifies this`logs
      ensures forall sp :: Log(sp) == old(Log(sp)) +
                (if sp == space && space != NA then Repeat(Slot(OriginOf(kind), vecIdx), width) else [])
      ensures ids == if space == NA then [] else Consecutive(|old(Log(space))|, width)
    {
      ids := [];
      if space == NA { return; }
      var slot := Slot(OriginOf(kind), vecIdx);
      var start := Log(space);
      ghost var others := logs;
      logs := logs[space := start];
      assert start + Repeat(slot, 0) == start;
      for i := 0 to width
        invariant logs == others[space := start + Repeat(slot, i)]
        invariant ids == Consecutive(|start|, i)
      {
        ids := ids + [|logs[space]|];
        logs := logs[space := logs[space] + [slot]];
        assert start + Repeat(slot, i) + [slot] == start + Repeat(slot, i + 1);
      }
    }

    /** Records one item: its ids, then its place in the vector of its kind. */
    method Record(e: Entry) returns (ids: seq<nat>)
      requires forall kind :: Vec(kind) == OfKind(hist, kind)
      requires forall space :: space != NA ==> Log(space) == LogOf(hist, space)
      modifies this`vecs, this`logs, this`hist
      ensures hist == old(hist) + [e]
      ensures forall kind :: Vec(kind) == OfKind(hist, kind)
      ensures forall space :: space != NA ==> Log(space) == LogOf(hist, space)
      ensures ids == if e.space == NA then [] else Consecutive(|LogOf(old(hist), e.space)|, e.width)
    {
      ghost var was := hist;
      ids := AssignIds(e.space, e.kind, |Vec(e.kind)|, e.width);
      vecs := vecs[e.kind := Vec(e.kind) + [e]];
      forall kind ensures OfKind(was + [e], kind) == Vec(kind) { HistorySnoc(was, e, kind, NA); }
      forall space | space != NA ensures LogOf(was + [e], space) == Log(space) {
        LogSnoc(was, e, space);
      }
      hist := hist + [e];
    }

    /** Adds one item after parsing and returns its ids: one for most items, one per result for
        a start function. */
    method AddItem(e: Entry) returns (ids: seq<nat>)
      requires Valid()
      modifies this
      ensures Valid() && hist == old(hist) + [e]
      ensures ids == if e.space == NA then [] else Consecutive(|LogOf(old(hist), e.space)|, e.width)
      ensures Total(runs, e.kind) == Total(old(runs), e.kind) + 1
    {
      ghost var before, was := runs, hist;
      ids := Record(e);
      AddSection(e.kind);
      KindsSnoc(was, e);
      OneMore(before, runs, e.kind);
    }

    /** Parses a payload: all its items, then one run. */
    method ParsePayload(kind: Section, items: seq<Entry>)
      requires Valid()
      requires forall e :: e in items ==> e.kind == kind
      modifies this
      ensures Valid() && hist == old(hist) + items
      ensures runs == old(runs) + [(|items|, kind)]
    {
      ghost var before, was := runs, hist;
      for i := 0 to |items|
        invariant hist == was + items[..i] && runs == before && numSections == |runs|
        invariant forall k :: Vec(k) == OfKind(hist, k)
        invariant forall space :: space != NA ==> Log(space) == LogOf(hist, space)
      {
        var _ := Record(items[i]);
      }
      AddToSections(Repeat(kind, |items|), kind);
      assert runs[..|before|] == before;
      assert hist == was + items;
      assert Kinds(hist) == Kinds(was) + Repeat(kind, |items|);
    }

    /** The value ids of a start function's results, one lookup per result. */
    method GetStartFuncResultIds(vecIdx: nat) returns (ids: seq<nat>)
      requires Valid() && Legal(hist)
      requires vecIdx < |Vec(StartSection)|
      requires forall e :: e in hist && e.kind == StartSection ==> e.space == Space.CompVal
      ensures ids == Positions(LogOf(hist, Space.CompVal), Slot(Main, vecIdx))
      ensures |ids| == Vec(StartSection)[vecIdx].width
    {
      ghost var all := Positions(LogOf(hist, Space.CompVal), Slot(Main, vecIdx));
      var width := Vec(StartSection)[vecIdx].width;
      ResultsOf(hist, vecIdx);
      ids := [];
      for sub := 0 to width
        invariant ids == all[..sub]
      {
        assert all[..sub + 1] == all[..sub] + [all[sub]];
        ids := ids + [Positions(Log(Space.CompVal), Slot(Main, vecIdx))[sub]];
      }
      assert all[..width] == all;
    }
  }

  lemma KindsSnoc(hist: seq<Entry>, e: Entry)
    ensures Kinds(hist + [e]) == Kinds(hist) + [e.kind]
  {
  }

  lemma LogSnoc(hist: seq<Entry>, e: Entry, space: Space)
    ensures LogOf(hist + [e], space)
         == if e.space != space then LogOf(hist, space)
            else LogOf(hist, space) + Repeat(Slot(OriginOf(e.kind), |OfKind(hist, e.kind)|), e.width)
  {
    HistorySnoc(hist, e, e.kind, space);
    assert LogOf(hist, space) + [] == LogOf(hist, space);
  }

  lemma OneMore(before: Runs, after: Runs, kind: Section)
    requires Expand(after) == Expand(before) + [kind]
    ensures Total(after, kind) == Total(before, kind) + 1
  {
    TotalIsCount(after, kind);
    TotalIsCount(before, kind);
    PositionsSnoc(Expand(before), kind, kind);
  }

  lemma ResultsOf(hist: seq<Entry>, vecIdx: nat)
    requires Legal(hist) && vecIdx < |OfKind(hist, StartSection)|
    requires forall e :: e in hist && e.kind == StartSection ==> e.space == Space.CompVal
    ensures |Positions(LogOf(hist, Space.CompVal), Slot(Main, vecIdx))| == OfKind(hist, StartSection)[vecIdx].width
  {
    var j := KindIndex(hist, StartSection, vecIdx);
    assert hist[j] in hist;
    IdsAreConsecutive(hist, j);
  }

  lemma HistorySnoc(hist: seq<Entry>, e: Entry, kind: Section, space: Space)
    ensures OfKind(hist + [e], kind) == OfKind(hist, kind) + (if e.kind == kind then [e] else [])
    ensures LogOf(hist + [e], space) == LogOf(hist, space) +
              (if e.space == space then Repeat(Slot(OriginOf(e.kind), |OfKind(hist, e.kind)|), e.width) else [])
  {
    assert (hist + [e])[..|hist|] == hist;
  }

  lemma PositionsRepeat<T>(s: seq<T>, y: T, w: nat, x: T)
    ensures Positions(s + Repeat(y, w), x)
         == Positions(s, x) + (if y == x then Consecutive(|s|, w) else [])
  {
    if y == x {
      PositionsOfSame(s, x, w);
    } else {
      PositionsOfOther(s, y, w, x);
      assert Positions(s, x) + [] == Positions(s, x);
    }
  }

  lemma {:induction false} PositionsOfSame<T>(s: seq<T>, x: T, w: nat)
    ensures Positions(s + Repeat(x, w), x) == Positions(s, x) + Consecutive(|s|, w)
  {
    if w == 0 {
      assert s + Repeat(x, 0) == s && Positions(s, x) + Consecutive(|s|, 0) == Positions(s, x);
    } else {
      PositionsOfSame(s, x, w - 1);
      RepeatSnoc(s, x, w - 1);
      PositionsSnoc(s + Repeat(x, w - 1), x, x);
      ConsecutiveSnoc(Positions(s, x), |s|, w - 1);
    }
  }

  lemma ConsecutiveSnoc(ps: seq<nat>, from: nat, n: nat)
    ensures ps + Consecutive(from, n) + [from + n] == ps + Consecutive(from, n + 1)
  {
  }

  /** The counts of a kind add up to the number of its items. */
  lemma {:induction false} TotalIsCount(runs: Runs, kind: Section)
    ensures Total(runs, kind) == |Positions(Expand(runs), kind)|
  {
    if runs != [] {
      var n := |runs| - 1;
      TotalIsCount(runs[..n], kind);
      PositionsRepeat(Expand(runs[..n]), runs[n].1, runs[n].0, kind);
    }
  }

  lemma {:induction false} VectorLengths(hist: seq<Entry>, kind: Section)
    ensures |OfKind(hist, kind)| == |Positions(Kinds(hist), kind)|
  {
    if hist != [] {
      var n := |hist| - 1;
      VectorLengths(hist[..n], kind);
      assert Kinds(hist) == Kinds(hist[..n]) + [hist[n].kind];
      PositionsSnoc(Kinds(hist[..n]), hist[n].kind, kind);
    }
  }

  /** After any payloads and additions, the runs of each kind count exactly its vector. */
  lemma RunsConserveItems(runs: Runs, hist: seq<Entry>, kind: Section)
    requires Expand(runs) == Kinds(hist)
    ensures Total(runs, kind) == |OfKind(hist, kind)|
  {
    TotalIsCount(runs, kind);
    VectorLengths(hist, kind);
  }

  // ------------------------------------------------------------------------------------
  // The structural walk
  // ------------------------------------------------------------------------------------

  /** The items a walk visits: each run continues where the last run of its kind stopped. */
  function Walk(runs: Runs): seq<(Section, nat)> {
    if runs == [] then []
    else
      var n := |runs| - 1;
      Walk(runs[..n]) + seq(runs[n].0, i => (runs[n].1, Total(runs[..n], runs[n].1) + i))
  }

  /** Walks the runs with one cursor per kind. */
  method WalkRuns(runs: Runs) returns (out: seq<(Section, nat)>)
    ensures out == Walk(runs)
  {
    out := [];
    var cursors: map<Section, nat> := map[];
    for r := 0 to |runs|
      invariant out == Walk(runs[..r])
      invariant forall kind :: (if kind in cursors then cursors[kind] else 0) == Total(runs[..r], kind)
    {
      var (count, kind) := runs[r];
      var start := if kind in cursors then cursors[kind] else 0;
      cursors := cursors[kind := start + count];
      assert runs[..r + 1][..r] == runs[..r];
      for i := 0 to count
        invariant out == Walk(runs[..r]) + seq(i, j => (kind, start + j))
      {
        out := out + [(kind, start + i)];
      }
    }
    assert runs[..|runs|] == runs;
  }

  /** Every item, in the order it was recorded, at its position in the vector of its kind. */
  function InOrder(hist: seq<Entry>): seq<(Section, nat)> {
    seq(|hist|, j requires 0 <= j < |hist| => (hist[j].kind, |OfKind(hist[..j], hist[j].kind)|))
  }

  lemma {:induction false} WalkExpands(runs: Runs)
    ensures |Walk(runs)| == |Expand(runs)|
    ensures forall j :: 0 <= j < |Walk(runs)| ==>
              Walk(runs)[j] == (Expand(runs)[j], |Positions(Expand(runs)[..j], Expand(runs)[j])|)
  {
    if runs != [] {
      var n := |runs| - 1;
      var done := Expand(runs[..n]);
      WalkExpands(runs[..n]);
      forall j | 0 <= j < |Walk(runs)|
        ensures Walk(runs)[j] == (Expand(runs)[j], |Positions(Expand(runs)[..j], Expand(runs)[j])|)
      {
        if j < |done| {
          assert Expand(runs)[..j] == done[..j];
        } else {
          assert Expand(runs)[..j] == done + Repeat(runs[n].1, j - |done|);
          PositionsRepeat(done, runs[n].1, j - |done|, runs[n].1);
          TotalIsCount(runs[..n], runs[n].1);
        }
      }
    }
  }

  /** The walk visits every item exactly once, in the order in which the items were recorded. */
  lemma WalkVisitsInOrder(runs: Runs, hist: seq<Entry>)
    requires Expand(runs) == Kinds(hist)
    ensures Walk(runs) == InOrder(hist)
  {
    WalkExpands(runs);
    forall j | 0 <= j < |hist| ensures Walk(runs)[j] == InOrder(hist)[j] {
      assert Kinds(hist)[..j] == Kinds(hist[..j]);
      VectorLengths(hist[..j], hist[j].kind);
    }
  }

  // ------------------------------------------------------------------------------------
  // Ids met along the walk
  // ------------------------------------------------------------------------------------

  /** Which kind of item owns a slot of this space. */
  function KindOfSlot(origin: Origin, space: Space): Section {
    match origin
    case Import => ImportSection
    case Export => ExportSection
    case Alias => AliasSection
    case Main => MainKind(space)
  }

  lemma {:induction false} SlotsBelow(hist: seq<Entry>, space: Space)
    requires Legal(hist) && space != NA
    ensures forall s :: s in LogOf(hist, space) ==> s.vec < |OfKind(hist, KindOfSlot(s.origin, space))|
  {
    if hist != [] {
      var n := |hist| - 1;
      assert hist[n] in hist;
      SlotsBelow(hist[..n], space);
      assert forall kind :: |OfKind(hist[..n], kind)| <= |OfKind(hist, kind)|;
    }
  }

  /** The ids of the item recorded at `j`: those its slot owns. */
  function IdsOf(hist: seq<Entry>, j: nat): seq<nat>
    requires j < |hist|
  {
    Positions(LogOf(hist, hist[j].space), SlotOf(hist, j))
  }

  /** The ids of the item recorded at `j` are the ones that followed the items before it; what
      was recorded later does not matter. */
  lemma {:induction false} IdsAreConsecutive(hist: seq<Entry>, j: nat)
    requires Legal(hist) && j < |hist| && hist[j].space != NA
    ensures IdsOf(hist, j) == Consecutive(|LogOf(hist[..j], hist[j].space)|, hist[j].width)
  {
    var n := |hist| - 1;
    if j == n {
      NewestIds(hist);
    } else {
      assert hist[..n][..j] == hist[..j];
      assert forall e :: e in hist[..n] ==> e in hist;
      IdsAreConsecutive(hist[..n], j);
      LaterKeepsIds(hist, j);
    }
  }

  lemma NewestIds(hist: seq<Entry>)
    requires Legal(hist) && hist != [] && hist[|hist| - 1].space != NA
    ensures var n := |hist| - 1;
            Positions(LogOf(hist, hist[n].space), SlotOf(hist, n))
            == Consecutive(|LogOf(hist[..n], hist[n].space)|, hist[n].width)
  {
    var n := |hist| - 1;
    var before := LogOf(hist[..n], hist[n].space);
    assert hist[n] in hist;
    SlotsBelow(hist[..n], hist[n].space);
    assert SlotOf(hist, n) !in before;
    NoPosition(before, SlotOf(hist, n));
    PositionsRepeat(before, SlotOf(hist, n), hist[n].width, SlotOf(hist, n));
  }

  lemma LaterKeepsIds(hist: seq<Entry>, j: nat)
    requires Legal(hist) && j < |hist| - 1 && hist[j].space != NA
    ensures var n := |hist| - 1;
            SlotOf(hist[..n], j) == SlotOf(hist, j)
            && Positions(LogOf(hist, hist[j].space), SlotOf(hist, j))
               == Positions(LogOf(hist[..n], hist[j].space), SlotOf(hist, j))
  {
    var n := |hist| - 1;
    assert hist[..n][..j] == hist[..j];
    if hist[n].space == hist[j].space { SlotsDiffer(hist, j, n); }
    LaterKeepsSlot(hist, hist[j].space, SlotOf(hist, j));
  }

  lemma LaterKeepsSlot(hist: seq<Entry>, space: Space, slot: Slot)
    requires hist != [] && (hist[|hist| - 1].space == space ==> SlotOf(hist, |hist| - 1) != slot)
    ensures Positions(LogOf(hist, space), slot) == Positions(LogOf(hist[..|hist| - 1], space), slot)
  {
    var n := |hist| - 1;
    var before := LogOf(hist[..n], space);
    if hist[n].space == space {
      PositionsOfOther(before, SlotOf(hist, n), hist[n].width, slot);
    } else {
      assert before + [] == before;
    }
  }

  lemma SlotsDiffer(hist: seq<Entry>, j: nat, n: nat)
    requires Legal(hist) && j < n < |hist| && hist[j].space == hist[n].space != NA
    ensures SlotOf(hist, n) != SlotOf(hist, j)
  {
    assert hist[n] in hist && hist[j] in hist;
    assert OriginOf(hist[n].kind) == OriginOf(hist[j].kind) ==> hist[n].kind == hist[j].kind;
    KindGrows(hist, j, n);
  }

  lemma {:induction false} KindGrows(hist: seq<Entry>, j: nat, n: nat)
    requires j < n <= |hist|
    ensures |OfKind(hist[..j], hist[j].kind)| < |OfKind(hist[..n], hist[j].kind)|
  {
    assert hist[..n][..n - 1] == hist[..n - 1];
    if j < n - 1 { KindGrows(hist, j, n - 1); } else { assert hist[..n - 1] == hist[..j]; }
  }

  /** The ids of one space met when the items are visited in the order `order`. */
  function IdsAlong(hist: seq<Entry>, order: seq<nat>, space: Space): seq<nat>
    requires forall i :: 0 <= i < |order| ==> order[i] < |hist|
  {
    if order == [] then []
    else
      var n := |order| - 1;
      IdsAlong(hist, order[..n], space) + (if hist[order[n]].space == space then IdsOf(hist, order[n]) else [])
  }

  /** A space may be fed by several vectors: the structural walk still meets its ids as
      0, 1, 2, ... */
  lemma {:induction false} WalkMeetsIdsInOrder(hist: seq<Entry>, space: Space, upto: nat)
    requires Legal(hist) && space != NA && upto <= |hist|
    ensures IdsAlong(hist, Upto(upto), space) == Upto(|LogOf(hist[..upto], space)|)
  {
    if upto > 0 {
      WalkMeetsIdsInOrder(hist, space, upto - 1);
      UptoSnoc(upto - 1);
      assert Upto(upto)[..upto - 1] == Upto(upto - 1);
      assert hist[..upto][..upto - 1] == hist[..upto - 1];
      if hist[upto - 1].space == space {
        IdsAreConsecutive(hist, upto - 1);
        UptoMore(|LogOf(hist[..upto - 1], space)|, hist[upto - 1].width);
      }
    }
  }

  lemma UptoMore(n: nat, width: nat)
    ensures Upto(n) + Consecutive(n, width) == Upto(n + width)
  {
  }

  /** So over the whole component, assigning ids along the walk is the identity. */
  lemma StructuralOrderIsIdentity(hist: seq<Entry>, space: Space)
    requires Legal(hist) && space != NA
    ensures IdsAlong(hist, Upto(|hist|), space) == Upto(|LogOf(hist, space)|)
  {
    WalkMeetsIdsInOrder(hist, space, |hist|);
    assert hist[..|hist|] == hist;
  }

  // ------------------------------------------------------------------------------------
  // Start functions
  // ------------------------------------------------------------------------------------

  /** The position in the history of the `k`-th item of a kind. */
  function KindIndex(hist: seq<Entry>, kind: Section, k: nat): (j: nat)
    requires k < |OfKind(hist, kind)|
    ensures j < |hist| && hist[j].kind == kind && |OfKind(hist[..j], kind)| == k && OfKind(hist, kind)[k] == hist[j]
  {
    var n := |hist| - 1;
    if k < |OfKind(hist[..n], kind)| then
      var j := KindIndex(hist[..n], kind, k);
      assert hist[..n][..j] == hist[..j];
      j
    else n
  }

  lemma {:induction false} LogGrows(hist: seq<Entry>, j: nat, n: nat, space: Space)
    requires j < n <= |hist| && hist[j].space == space
    ensures |LogOf(hist[..j], space)| + hist[j].width <= |LogOf(hist[..n], space)|
  {
    assert hist[..n][..n - 1] == hist[..n - 1];
    if j < n - 1 { LogGrows(hist, j, n - 1, space); } else { assert hist[..n - 1] == hist[..j]; }
  }

  /** Whatever is recorded afterwards, a start function's results keep the ids they were given;
      and the results of different start functions never overlap. */
  lemma StartResultsAreStable(hist: seq<Entry>, more: seq<Entry>, j: nat, other: nat)
    requires Legal(hist + more) && j < |hist| && hist[j].space == Space.CompVal
    ensures Positions(LogOf(hist + more, Space.CompVal), SlotOf(hist + more, j))
         == Consecutive(|LogOf(hist[..j], Space.CompVal)|, hist[j].width)
    ensures j < other < |hist + more| && (hist + more)[other].space == Space.CompVal ==>
              forall a, b | a in Positions(LogOf(hist + more, Space.CompVal), SlotOf(hist + more, j))
                && b in Positions(LogOf(hist + more, Space.CompVal), SlotOf(hist + more, other)) :: a < b
  {
    var all := hist + more;
    assert all[..j] == hist[..j] && all[j] == hist[j];
    IdsAreConsecutive(all, j);
    if j < other < |all| && all[other].space == Space.CompVal {
      IdsAreConsecutive(all, other);
      LogGrows(all, j, other, Space.CompVal);
    }
  }
}
