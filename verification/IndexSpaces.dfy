/** One index space of one scope: the ids assumed for items when they are parsed or injected.
    The concrete state is a counter, four hash maps and a lookup cache; what it stands for
    is its log, the list of slots in the order in which their ids were handed out. */
module IndexSpaces {
  import opened Prelude
  import opened Spaces

  /** A place in the IR: a per-origin vector and a position in it. */
  datatype Slot = Slot(origin: Origin, vec: nat)

  datatype AssumedIds = Single(id: nat) | Multiple(ids: seq<nat>)

  datatype Location = Location(origin: Origin, vec: nat, sub: Option<nat>)

  /** The map entry of a slot that received the ids `ids`. */
  function EntryFor(ids: seq<nat>): AssumedIds {
    if |ids| == 1 then Single(ids[0]) else Multiple(ids)
  }

  /** How many ids the slot of `id` had received before `id`. */
  function Rank(log: seq<Slot>, id: nat): nat
    requires id < |log|
  {
    |Positions(log[..id], log[id])|
  }

  /** Where `id` lives; a lone id carries no sub-position. */
  function Locate(log: seq<Slot>, id: nat): Location
    requires id < |log|
  {
    Location(log[id].origin, log[id].vec,
             if |Positions(log, log[id])| == 1 then None else Some(Rank(log, id)))
  }

  /** The same place, reading a missing sub-position as 0. */
  predicate SamePlace(a: Location, b: Location) {
    a.origin == b.origin && a.vec == b.vec && a.sub.GetOr(0) == b.sub.GetOr(0)
  }

  /** A location that was right for `id` when the cache recorded it. */
  predicate Plausible(log: seq<Slot>, id: nat, loc: Location) {
    && id < |log|
    && Slot(loc.origin, loc.vec) == log[id]
    && loc.sub.GetOr(0) == Rank(log, id)
    && (loc.sub.Some? ==> |Positions(log, log[id])| > 1)
  }

  ghost predicate Records(m: map<nat, AssumedIds>, log: seq<Slot>, origin: Origin) {
    && (forall v: nat {:trigger v in m} :: v in m <==> Positions(log, Slot(origin, v)) != [])
    && (forall v: nat {:trigger m[v]} :: v in m ==> m[v] == EntryFor(Positions(log, Slot(origin, v))))
  }

  predicate Holds(entry: AssumedIds, id: nat) {
    match entry
    case Single(mine) => mine == id
    case Multiple(ids) => id in ids
  }

  /** Does this entry hold `id`, and at which sub-position? */
  method Matches(entry: AssumedIds, id: nat) returns (found: bool, sub: Option<nat>)
    ensures found <==> Holds(entry, id)
    ensures found && entry.Single? ==> sub == None
    ensures found && entry.Multiple? ==> sub.Some? && sub.value < |entry.ids| && entry.ids[sub.value] == id
  {
    match entry {
      case Single(mine) => return mine == id, None;
      case Multiple(ids) =>
        var i := 0;
        while i < |ids|
          invariant i <= |ids| && id !in ids[..i]
        {
          if ids[i] == id { return true, Some(i); }
          i := i + 1;
        }
        return false, None;
    }
  }

  /** Scans one map, in whatever order its entries come. */
  method Scan(m: map<nat, AssumedIds>, origin: Origin, id: nat, ghost log: seq<Slot>) returns (r: Option<Location>)
    requires Records(m, log, origin)
    ensures id < |log| && log[id].origin == origin ==> r == Some(Locate(log, id))
    ensures id >= |log| || log[id].origin != origin ==> r == None
  {
    if id < |log| && log[id].origin == origin { PositionsFind(log, id); }
    var todo := m.Keys;
    while todo != {}
      invariant todo <= m.Keys
      invariant id < |log| && log[id].origin == origin ==> log[id].vec in todo
    {
      var v :| v in todo;
      var found, sub := Matches(m[v], id);
      EntryHolds(log, Slot(origin, v), id);
      if found { return Some(Location(origin, v, sub)); }
      todo := todo - {v};
    }
    return None;
  }

  /** An entry holds exactly the ids of its slot, each at its rank. */
  lemma EntryHolds(log: seq<Slot>, slot: Slot, id: nat)
    ensures Holds(EntryFor(Positions(log, slot)), id) <==> id < |log| && log[id] == slot
    ensures forall k :: 0 <= k < |Positions(log, slot)| && Positions(log, slot)[k] == id
              ==> id < |log| && log[id] == slot && k == Rank(log, id)
  {
    var ps := Positions(log, slot);
    PositionsHold(log, slot);
    if id < |log| && log[id] == slot {
      PositionsFind(log, id);
      assert ps[Rank(log, id)] == id;
    }
    forall k | 0 <= k < |ps| && ps[k] == id ensures id < |log| && log[id] == slot && k == Rank(log, id) {
      PositionsFind(log, ps[k]);
      assert !(k < Rank(log, id)) && !(Rank(log, id) < k);
    }
    assert Holds(EntryFor(ps), id) <==> id in ps;
  }

  class IdxSpace {
    var currentId: nat
    var mainIds: map<nat, AssumedIds>
    var aliasIds: map<nat, AssumedIds>
    var importIds: map<nat, AssumedIds>
    var exportIds: map<nat, AssumedIds>
    var cache: map<nat, Location>
    ghost var log: seq<Slot>

    ghost predicate Valid()
      reads this
    {
      && currentId == |log|
      && Records(mainIds, log, Main)
      && Records(importIds, log, Import)
      && Records(exportIds, log, Export)
      && Records(aliasIds, log, Alias)
      && forall id :: id in cache ==> Plausible(log, id, cache[id])
    }

    constructor ()
      ensures Valid() && log == [] && cache == map[]
    {
      currentId := 0;
      mainIds, aliasIds, importIds, exportIds := map[], map[], map[], map[];
      cache, log := map[], [];
    }

    /** Hands out the next id, recording it under the section's origin and vector position. */
    method AssignAssumedId(section: Section, vecIdx: nat) returns (id: nat)
      requires Valid()
      modifies this
      ensures Valid()
      ensures id == |old(log)| && log == old(log) + [Slot(OriginOf(section), vecIdx)]
      ensures cache == old(cache)
    {
      ghost var slot := Slot(OriginOf(section), vecIdx);
      ExtendRecords(mainIds, log, Main, slot);
      ExtendRecords(importIds, log, Import, slot);
      ExtendRecords(exportIds, log, Export, slot);
      ExtendRecords(aliasIds, log, Alias, slot);
      id := currentId;
      currentId := currentId + 1;
      match OriginOf(section) {
        case Import => importIds := Extend(importIds, vecIdx, id);
        case Export => exportIds := Extend(exportIds, vecIdx, id);
        case Alias => aliasIds := Extend(aliasIds, vecIdx, id);
        case Main => mainIds := Extend(mainIds, vecIdx, id);
      }
      log := log + [slot];
      forall i | i in cache ensures Plausible(log, i, cache[i]) {
        PlausibleLater(old(log), slot, i, cache[i]);
      }
    }

    /** Hands out all ids of an item in one go: one per type of a recursion group, one per result
        of a start function. */
    method AssignIds(section: Section, vecIdx: nat, width: nat)
      requires Valid()
      modifies this
      ensures Valid()
      ensures log == old(log) + Repeat(Slot(OriginOf(section), vecIdx), width)
      ensures cache == old(cache)
    {
      ghost var slot, before := Slot(OriginOf(section), vecIdx), log;
      assert before + Repeat(slot, 0) == before;
      for i := 0 to width
        invariant Valid() && cache == old(cache)
        invariant log == before + Repeat(slot, i)
      {
        var _ := AssignAssumedId(section, vecIdx);
        RepeatSnoc(before, slot, i);
      }
    }

    /** The four maps, scanned one after the other. */
    method FullLookup(id: nat) returns (r: Option<Location>)
      requires Valid()
      ensures r == if id < |log| then Some(Locate(log, id)) else None
    {
      r := Scan(mainIds, Main, id, log);
      if r.Some? { return; }
      r := Scan(importIds, Import, id, log);
      if r.Some? { return; }
      r := Scan(exportIds, Export, id, log);
      if r.Some? { return; }
      r := Scan(aliasIds, Alias, id, log);
    }

    /** Looks an id up, answering from the cache when it can and filling it when it cannot. */
    method IndexFromAssumedId(id: nat) returns (r: Option<Location>)
      requires Valid()
      modifies this`cache
      ensures Valid()
      ensures r.Some? <==> id < |log|
      ensures r.Some? ==> SamePlace(r.value, Locate(log, id))
      ensures id in old(cache) ==> r == Some(old(cache)[id]) && cache == old(cache)
      ensures id !in old(cache) && r.Some? ==> r.value == Locate(log, id) && cache == old(cache)[id := r.value]
      ensures r.None? ==> cache == old(cache)
    {
      if id in cache {
        PlausibleIsSamePlace(log, id, cache[id]);
        return Some(cache[id]);
      }
      r := FullLookup(id);
      if r.Some? {
        LocateIsPlausible(log, id);
        cache := cache[id := r.value];
      }
    }

    /** The same lookup for callers that may not mutate: it reads the cache but never fills it. */
    method IndexFromAssumedIdNoCache(id: nat) returns (r: Option<Location>)
      requires Valid()
      ensures r.Some? <==> id < |log|
      ensures r.Some? ==> SamePlace(r.value, Locate(log, id))
      ensures id in cache ==> r == Some(cache[id])
      ensures id !in cache && r.Some? ==> r.value == Locate(log, id)
    {
      if id in cache {
        PlausibleIsSamePlace(log, id, cache[id]);
        return Some(cache[id]);
      }
      r := FullLookup(id);
    }

    function IdsOf(origin: Origin): map<nat, AssumedIds>
      reads this
    {
      match origin
      case Import => importIds
      case Export => exportIds
      case Alias => aliasIds
      case Main => mainIds
    }

    /** The id of an item that owns at most one; asking for a multi-id item aborts the program. */
    method LookupAssumedId(section: Section, vecIdx: nat) returns (r: Option<nat>)
      requires Valid()
      requires |Positions(log, Slot(OriginOf(section), vecIdx))| <= 1
      ensures r.Some? <==> Slot(OriginOf(section), vecIdx) in log
      ensures r.Some? ==> r.value < |log| && log[r.value] == Slot(OriginOf(section), vecIdx)
    {
      var m := IdsOf(OriginOf(section));
      ghost var slot := Slot(OriginOf(section), vecIdx);
      PositionsHold(log, slot);
      SlotSeen(log, slot);
      return if vecIdx in m then Some(m[vecIdx].id) else None;
    }

    /** The id at a sub-position of an item that owns several; one that owns a single id answers
        with it at every sub-position, as only a debug assertion asks for the first. */
    method LookupAssumedIdWithSubvec(section: Section, vecIdx: nat, sub: nat) returns (r: Option<nat>)
      requires Valid()
      requires var n := |Positions(log, Slot(OriginOf(section), vecIdx))|; n <= 1 || sub < n
      ensures r.Some? <==> Slot(OriginOf(section), vecIdx) in log
      ensures r.Some? ==> r.value < |log| && log[r.value] == Slot(OriginOf(section), vecIdx)
      ensures r.Some? ==>
                Rank(log, r.value) == if |Positions(log, Slot(OriginOf(section), vecIdx))| == 1 then 0 else sub
    {
      var m := IdsOf(OriginOf(section));
      ghost var slot := Slot(OriginOf(section), vecIdx);
      SlotSeen(log, slot);
      if vecIdx !in m { return None; }
      ghost var at := if |Positions(log, slot)| == 1 then 0 else sub;
      EntryHolds(log, slot, Positions(log, slot)[at]);
      return Some(match m[vecIdx] case Single(mine) => mine case Multiple(ids) => ids[sub]);
    }
  }

  function Extend(m: map<nat, AssumedIds>, vec: nat, id: nat): map<nat, AssumedIds> {
    if vec !in m then m[vec := Single(id)]
    else match m[vec]
      case Single(mine) => m[vec := Multiple([mine, id])]
      case Multiple(ids) => m[vec := Multiple(ids + [id])]
  }

  lemma ExtendRecords(m: map<nat, AssumedIds>, log: seq<Slot>, origin: Origin, slot: Slot)
    requires Records(m, log, origin)
    ensures Records(if origin == slot.origin then Extend(m, slot.vec, |log|) else m, log + [slot], origin)
  {
    forall v: nat
      ensures var n := if origin == slot.origin then Extend(m, slot.vec, |log|) else m;
              var ids := Positions(log + [slot], Slot(origin, v));
              (v in n <==> ids != []) && (v in n ==> n[v] == EntryFor(ids))
    {
      PositionsSnoc(log, slot, Slot(origin, v));
      ExtendEntry(Positions(log, Slot(origin, v)), |log|);
      assert Positions(log, Slot(origin, v)) + [] == Positions(log, Slot(origin, v));
    }
  }

  lemma ExtendEntry(ids: seq<nat>, id: nat)
    ensures ids == [] ==> EntryFor(ids + [id]) == Single(id)
    ensures |ids| == 1 ==> EntryFor(ids + [id]) == Multiple([ids[0], id])
    ensures |ids| > 1 ==> EntryFor(ids + [id]) == Multiple(ids + [id])
  {
    if |ids| == 1 { assert ids + [id] == [ids[0], id]; }
  }

  lemma SlotSeen(log: seq<Slot>, slot: Slot)
    ensures Positions(log, slot) != [] <==> slot in log
  {
    PositionsHold(log, slot);
    if slot in log {
      var i :| 0 <= i < |log| && log[i] == slot;
      PositionsFind(log, i);
    }
  }

  lemma RankLater(log: seq<Slot>, more: seq<Slot>, id: nat)
    requires id < |log|
    ensures Rank(log + more, id) == Rank(log, id)
    ensures |Positions(log + more, log[id])| >= |Positions(log, log[id])| > Rank(log, id)
  {
    assert (log + more)[..id] == log[..id];
    assert (log + more)[..|log|] == log;
    PositionsPrefix(log + more, |log|, log[id]);
    PositionsFind(log, id);
  }

  lemma PlausibleLater(log: seq<Slot>, slot: Slot, id: nat, loc: Location)
    requires Plausible(log, id, loc)
    ensures Plausible(log + [slot], id, loc)
  {
    RankLater(log, [slot], id);
  }

  lemma PlausibleIsSamePlace(log: seq<Slot>, id: nat, loc: Location)
    requires Plausible(log, id, loc)
    ensures SamePlace(loc, Locate(log, id))
  {
    PositionsFind(log, id);
  }

  lemma LocateIsPlausible(log: seq<Slot>, id: nat)
    requires id < |log|
    ensures Plausible(log, id, Locate(log, id))
  {
    PositionsFind(log, id);
  }

  // ------------------------------------------------------------------------------------
  // What holds of every log, that is, after any sequence of assignments
  // ------------------------------------------------------------------------------------

  /** Every id handed out lives at exactly one slot and sub-position; no other id lives anywhere. */
  lemma EveryIdHasOneHome(log: seq<Slot>, id: nat, slot: Slot, sub: nat)
    ensures sub < |Positions(log, slot)| && Positions(log, slot)[sub] == id
       <==> id < |log| && slot == log[id] && sub == Rank(log, id)
  {
    EntryHolds(log, slot, id);
    if id < |log| { PositionsFind(log, id); }
  }

  /** Locating an id and looking its sub-position up undo each other, in both directions. */
  lemma LookupInvertsLocate(log: seq<Slot>, slot: Slot, sub: nat)
    requires sub < |Positions(log, slot)|
    ensures var id := Positions(log, slot)[sub];
            id < |log| && SamePlace(Locate(log, id), Location(slot.origin, slot.vec, Some(sub)))
    ensures forall id :: 0 <= id < |log| && log[id] == slot && Locate(log, id).sub.GetOr(0) == sub
              ==> Positions(log, slot)[sub] == id
  {
    EntryHolds(log, slot, Positions(log, slot)[sub]);
    forall id | 0 <= id < |log| && log[id] == slot && Locate(log, id).sub.GetOr(0) == sub
      ensures Positions(log, slot)[sub] == id
    {
      PositionsFind(log, id);
    }
  }

  /** The cache never answers anything but what the scan answered at some earlier moment. */
  lemma CachedAnswersWereScans(log: seq<Slot>, id: nat, loc: Location)
    ensures Plausible(log, id, loc) <==> exists m: nat :: id < m <= |log| && loc == Locate(log[..m], id)
  {
    forall m: nat | id < m <= |log| && loc == Locate(log[..m], id) ensures Plausible(log, id, loc) {
      LocateIsPlausible(log[..m], id);
      assert log[..m] + log[m..] == log;
      RankLater(log[..m], log[m..], id);
    }
    if Plausible(log, id, loc) {
      if loc.sub.None? {
        assert log[..id + 1][..id] == log[..id];
        PositionsSnoc(log[..id], log[id], log[id]);
        assert log[..id + 1] == log[..id] + [log[id]];
        assert loc == Locate(log[..id + 1], id);
      } else {
        assert log[..|log|] == log;
        assert loc == Locate(log[..|log|], id);
      }
    }
  }

  /** However late it is read, a cached answer names the same place as a fresh scan; it is
      literally the same answer unless its slot has since turned from one id into several. */
  lemma StaleExactlyWhenSplit(log: seq<Slot>, m: nat, id: nat)
    requires id < m <= |log|
    ensures SamePlace(Locate(log[..m], id), Locate(log, id))
    ensures Locate(log[..m], id) != Locate(log, id)
       <==> |Positions(log[..m], log[id])| == 1 && |Positions(log, log[id])| > 1
  {
    CachedAnswersWereScans(log, id, Locate(log[..m], id));
    PlausibleIsSamePlace(log, id, Locate(log[..m], id));
    assert log[..m] + log[m..] == log;
    RankLater(log[..m], log[m..], id);
  }

  /** By itself the class would allow a stale answer: one id of a slot looked up, then another one
      handed out for the same slot. */
  lemma StaleAnswerExists()
    ensures var log := [Slot(Main, 0), Slot(Main, 0)];
            Locate(log[..1], 0) == Location(Main, 0, None) && Locate(log, 0) == Location(Main, 0, Some(0))
  {
    var s := Slot(Main, 0);
    PositionsSnoc([], s, s);
    PositionsSnoc([s], s, s);
    assert [] + [s] == [s] && [s] + [s] == [s, s] && [s, s][..1] == [s];
    assert [s, s][..0] == [];
  }

  // ------------------------------------------------------------------------------------
  // Runs of assignments and lookups
  // ------------------------------------------------------------------------------------

  /** What happens to an index space: an item receives all its ids, or an id is looked up. */
  datatype Op = Give(slot: Slot, width: nat) | Look(id: nat)

  datatype Contents = Contents(log: seq<Slot>, cache: map<nat, Location>)

  /** What `AssignIds` and `IndexFromAssumedId` make of the log and the cache. */
  function Apply(c: Contents, op: Op): Contents {
    match op
    case Give(slot, width) => c.(log := c.log + Repeat(slot, width))
    case Look(id) => if id in c.cache || id >= |c.log| then c else c.(cache := c.cache[id := Locate(c.log, id)])
  }

  function After(ops: seq<Op>): Contents {
    if ops == [] then Contents([], map[]) else Apply(After(ops[..|ops| - 1]), ops[|ops| - 1])
  }

  /** No item comes back for more ids. */
  predicate InOneGo(ops: seq<Op>) {
    forall i, j :: 0 <= i < j < |ops| && ops[i].Give? && ops[j].Give? ==> ops[i].slot != ops[j].slot
  }

  lemma {:induction false} GivenSlots(ops: seq<Op>, slot: Slot)
    requires slot in After(ops).log
    ensures exists i :: 0 <= i < |ops| && ops[i].Give? && ops[i].slot == slot
  {
    if ops != [] {
      var n := |ops| - 1;
      if slot in After(ops[..n]).log {
        GivenSlots(ops[..n], slot);
        var i :| 0 <= i < n && ops[..n][i].Give? && ops[..n][i].slot == slot;
        assert ops[i] == ops[..n][i];
      } else {
        assert ops[n].Give? && ops[n].slot == slot;
      }
    }
  }

  lemma LocateLater(log: seq<Slot>, slot: Slot, width: nat, id: nat)
    requires id < |log| && slot !in log
    ensures Locate(log + Repeat(slot, width), id) == Locate(log, id)
  {
    var more := log + Repeat(slot, width);
    assert more[id] == log[id] && more[..id] == log[..id];
    PositionsOfOther(log, slot, width, log[id]);
  }

  /** However lookups and assignments alternate, as long as every item receives its ids in one
      go the cache always answers literally what a fresh scan would answer. */
  lemma {:induction false} CacheIsNeverStale(ops: seq<Op>, id: nat)
    requires InOneGo(ops) && id in After(ops).cache
    ensures id < |After(ops).log| && After(ops).cache[id] == Locate(After(ops).log, id)
  {
    if ops != [] {
      var n := |ops| - 1;
      var before := After(ops[..n]);
      if id in before.cache {
        CacheIsNeverStale(ops[..n], id);
        if ops[n].Give? {
          if ops[n].slot in before.log { GivenSlots(ops[..n], ops[n].slot); }
          LocateLater(before.log, ops[n].slot, ops[n].width, id);
        }
      }
    }
  }
}
