/** Looking up the assumed ids of an item by its place: what the three lookups of the assigner answer,
    said about the order in which the space gave out its ids. */
module SlotLookups {
  import opened Prelude
  import opened Spaces
  import opened IndexSpaces
  import opened Scopes
  import opened TypeBodies
  import opened Assignment

  /** Id `id` of the space was given to this slot, after `rank` others. */
  predicate Gave(t: Table, scope: Option<ScopeId>, space: Space, slot: Slot, id: nat, rank: nat) {
    && scope.Some? && id < |LogAt(t, scope.value, space)|
    && LogAt(t, scope.value, space)[id] == slot && Rank(LogAt(t, scope.value, space), id) == rank
  }

  /** The slot has this id and no other. */
  predicate GaveOnly(t: Table, scope: Option<ScopeId>, space: Space, slot: Slot, id: nat) {
    && Gave(t, scope, space, slot, id, 0)
    && forall j :: 0 <= j < |LogAt(t, scope.value, space)| && LogAt(t, scope.value, space)[j] == slot ==> j == id
  }

  lemma GivenIsListed(t: Table, scope: Option<ScopeId>, space: Space, slot: Slot, id: nat, rank: nat)
    requires scope.Some?
    ensures var ids := Positions(LogAt(t, scope.value, space), slot);
            Gave(t, scope, space, slot, id, rank) <==> rank < |ids| && ids[rank] == id
  {
    var log := LogAt(t, scope.value, space);
    PositionsHold(log, slot);
    if Gave(t, scope, space, slot, id, rank) { PositionsFind(log, id); }
    EntryHolds(log, slot, id);
  }

  lemma OnlyIsListed(t: Table, scope: Option<ScopeId>, space: Space, slot: Slot, id: nat)
    requires scope.Some?
    ensures GaveOnly(t, scope, space, slot, id) <==> Positions(LogAt(t, scope.value, space), slot) == [id]
  {
    var log := LogAt(t, scope.value, space);
    var ids := Positions(log, slot);
    GivenIsListed(t, scope, space, slot, id, 0);
    if GaveOnly(t, scope, space, slot, id) {
      OnlyPosition(log, slot, id);
    }
    if ids == [id] {
      forall j | 0 <= j < |log| && log[j] == slot ensures j == id {
        PositionsFind(log, j);
        assert ids[Rank(log, j)] == j;
      }
    }
  }

  /** Outside recursion groups an id is found exactly when the slot has that one and no other. */
  lemma OnlyIdExactlyWhen(t: Table, scope: Option<ScopeId>, space: Space, slot: Slot, id: nat)
    ensures LookupOnlyId(t, scope, space, slot) == Some(id) <==> GaveOnly(t, scope, space, slot, id)
  {
    if scope.Some? { OnlyIsListed(t, scope, space, slot, id); }
  }

  /** Inside one, the id given to the slot after as many others as the sub-position says, or its only one. */
  lemma IdExactlyWhen(t: Table, scope: Option<ScopeId>, space: Space, slot: Slot, sub: nat, id: nat)
    ensures LookupId(t, scope, space, slot, sub) == Some(id)
       <==> GaveOnly(t, scope, space, slot, id) || Gave(t, scope, space, slot, id, sub)
  {
    if scope.Some? {
      OnlyIsListed(t, scope, space, slot, id);
      GivenIsListed(t, scope, space, slot, id, sub);
    }
  }

  /** For a start function, the ids given to the slot first, second and so on. */
  lemma IdsExactlyWhen(t: Table, scope: Option<ScopeId>, space: Space, slot: Slot, n: nat, ids: seq<nat>)
    ensures LookupIds(t, scope, space, slot, n) == Some(ids)
        ==> scope.Some? && |ids| == n && forall i :: 0 <= i < n ==> Gave(t, scope, space, slot, ids[i], i)
    ensures LookupIds(t, scope, space, slot, n) == Some(ids)
        <== scope.Some? && |ids| == n && forall i :: 0 <= i < n ==> Gave(t, scope, space, slot, ids[i], i)
  {
    if scope.Some? {
      var all := Positions(LogAt(t, scope.value, space), slot);
      if |ids| == n {
        forall i | 0 <= i < n
          ensures Gave(t, scope, space, slot, ids[i], i) <==> i < |all| && all[i] == ids[i]
        {
          GivenIsListed(t, scope, space, slot, ids[i], i);
        }
      }
      if |ids| == n && forall i :: 0 <= i < n ==> Gave(t, scope, space, slot, ids[i], i) {
        assert n > 0 ==> Gave(t, scope, space, slot, ids[n - 1], n - 1);
        assert all[..n] == ids;
      }
    }
  }
}
