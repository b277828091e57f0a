/** The ids items actually get when they are emitted: one tracker per space per scope, each
    counting the items of its space as they go by. */
module ActualIds {
  import opened Prelude
  import opened Spaces

  datatype Tracker = Tracker(actual: map<nat, nat>, current: nat) {
    function Assign(assumed: nat): Tracker {
      Tracker(actual[assumed := current], current + 1)
    }
  }

  const FRESH := Tracker(map[], 0)

  /** The tracker after the ids of `order` have been assigned one after the other. */
  function AssignAll(order: seq<nat>): Tracker {
    if order == [] then FRESH else AssignAll(order[..|order| - 1]).Assign(order[|order| - 1])
  }

  lemma AssignSnoc(order: seq<nat>, a: nat)
    ensures AssignAll(order + [a]) == AssignAll(order).Assign(a)
  {
    assert (order + [a])[..|order|] == order;
  }

  /** One assignment: an item with this assumed id is emitted into this space of this scope. */
  datatype Emission = Emission(scope: ScopeId, space: Space, assumed: nat)

  /** The assumed ids emitted into one space of one scope, in emission order. */
  function OrderOf(es: seq<Emission>, scope: ScopeId, space: Space): seq<nat> {
    if es == [] then []
    else
      var e := es[|es| - 1];
      OrderOf(es[..|es| - 1], scope, space) + (if e.scope == scope && e.space == space then [e.assumed] else [])
  }

  type Tables = map<ScopeId, map<Space, Tracker>>

  function TrackerAt(t: Tables, scope: ScopeId, space: Space): Tracker {
    if scope in t && space in t[scope] then t[scope][space] else FRESH
  }

  function Record(t: Tables, e: Emission): Tables {
    var ids := if e.scope in t then t[e.scope] else map[];
    var tracker := if e.space in ids then ids[e.space] else FRESH;
    t[e.scope := if e.space == NA then ids else ids[e.space := tracker.Assign(e.assumed)]]
  }

  lemma RecordAt(t: Tables, e: Emission, scope: ScopeId, space: Space)
    requires space != NA
    ensures TrackerAt(Record(t, e), scope, space)
         == if scope == e.scope && space == e.space then TrackerAt(t, scope, space).Assign(e.assumed)
            else TrackerAt(t, scope, space)
  {
  }

  /** Every tracker holds what was emitted into its space. */
  ghost predicate Reflects(t: Tables, es: seq<Emission>) {
    forall sc: ScopeId, sp: Space {:trigger TrackerAt(t, sc, sp)} ::
      sp != NA ==> TrackerAt(t, sc, sp) == AssignAll(OrderOf(es, sc, sp))
  }

  lemma RecordReflects(t: Tables, es: seq<Emission>, e: Emission)
    requires Reflects(t, es)
    ensures Reflects(Record(t, e), es + [e])
  {
    forall sc: ScopeId, sp: Space | sp != NA
      ensures TrackerAt(Record(t, e), sc, sp) == AssignAll(OrderOf(es + [e], sc, sp))
    {
      var before := OrderOf(es, sc, sp);
      assert TrackerAt(t, sc, sp) == AssignAll(before);
      RecordAt(t, e, sc, sp);
      OrderSnoc(es, e, sc, sp);
      if sc == e.scope && sp == e.space { AssignSnoc(before, e.assumed); } else { assert before + [] == before; }
    }
  }

  lemma EmptyScopeReflects(t: Tables, es: seq<Emission>, scope: ScopeId)
    requires Reflects(t, es) && scope !in t
    ensures Reflects(t[scope := map[]], es)
  {
    forall sc: ScopeId, sp: Space | sp != NA
      ensures TrackerAt(t[scope := map[]], sc, sp) == AssignAll(OrderOf(es, sc, sp))
    {
      assert TrackerAt(t, sc, sp) == TrackerAt(t[scope := map[]], sc, sp);
    }
  }

  class ActualIdTables {
    var scopes: Tables
    var emitted: seq<Emission>   // the assignments made, in order: what the tables stand for

    ghost predicate Valid()
      reads this
    {
      Reflects(scopes, emitted)
    }

    constructor ()
      ensures Valid() && emitted == []
    {
      scopes, emitted := map[], [];
    }

    method AddScope(scope: ScopeId)
      requires Valid()
      modifies this`scopes
      ensures Valid() && scopes == if scope in old(scopes) then old(scopes) else old(scopes)[scope := map[]]
    {
      if scope !in scopes {
        EmptyScopeReflects(scopes, emitted, scope);
        scopes := scopes[scope := map[]];
      }
    }

    method AssignActualId(scope: ScopeId, space: Space, assumed: nat)
      requires Valid()
      modifies this
      ensures Valid() && emitted == old(emitted) + [Emission(scope, space, assumed)]
    {
      ghost var e, start := Emission(scope, space, assumed), scopes;
      RecordReflects(start, emitted, e);
      AddScope(scope);
      if space != NA {
        var ids := scopes[scope];
        var tracker := if space in ids then ids[space] else FRESH;
        scopes := scopes[scope := ids[space := tracker.Assign(assumed)]];
      }
      assert scopes == Record(start, e);
      emitted := emitted + [Emission(scope, space, assumed)];
    }

    /** Looks an assumed id up; the code aborts where this finds nothing. */
    method LookupActualId(scope: ScopeId, space: Space, assumed: nat) returns (r: Option<nat>)
      requires Valid() && space != NA
      ensures var order := OrderOf(emitted, scope, space);
              && (r.Some? <==> assumed in order)
              && (r.Some? ==> r.value < |order| && order[r.value] == assumed && assumed !in order[r.value + 1..])
    {
      var tracker := if scope in scopes && space in scopes[scope] then scopes[scope][space] else FRESH;
      assert tracker == TrackerAt(scopes, scope, space);
      LastPositionWins(OrderOf(emitted, scope, space), assumed);
      r := if assumed in tracker.actual then Some(tracker.actual[assumed]) else None;
    }
  }

  /** Whatever is assigned, in whatever order: an assumed id maps to the position at which it
      was last emitted, and ids that were never emitted map to nothing. */
  lemma {:induction false} LastPositionWins(order: seq<nat>, a: nat)
    ensures AssignAll(order).current == |order|
    ensures a in AssignAll(order).actual <==> a in order
    ensures a in order ==>
              var i := AssignAll(order).actual[a];
              i < |order| && order[i] == a && a !in order[i + 1..]
  {
    if order != [] {
      var n := |order| - 1;
      LastPositionWins(order[..n], a);
      if order[n] != a && a in order {
        var i := AssignAll(order[..n]).actual[a];
        assert order[i + 1..] == order[..n][i + 1..] + [order[n]];
      }
    }
  }

  // ------------------------------------------------------------------------------------
  // Permutations
  // ------------------------------------------------------------------------------------

  predicate Distinct(s: seq<nat>) {
    forall i, j :: 0 <= i < j < |s| ==> s[i] != s[j]
  }

  predicate IsPermutation(s: seq<nat>) {
    Distinct(s) && forall i :: 0 <= i < |s| ==> s[i] < |s|
  }

  lemma DropOne(s: seq<nat>, k: nat, t: seq<nat>)
    requires k < |s| && t == s[..k] + s[k + 1..]
    ensures forall i :: 0 <= i < |t| ==> t[i] == s[if i < k then i else i + 1]
    ensures forall a :: a in s && a != s[k] ==> a in t
  {
    forall a | a in s && a != s[k] ensures a in t {
      var j :| 0 <= j < |s| && s[j] == a;
      assert a == t[if j < k then j else j - 1];
    }
  }

  /** Dropping the largest value of a duplicate-free list below `n` leaves one below `n - 1`. */
  lemma {:induction false} PigeonHole(s: seq<nat>, n: nat)
    requires Distinct(s)
    requires forall i :: 0 <= i < |s| ==> s[i] < n
    ensures |s| <= n
    ensures |s| == n ==> forall a: nat :: a < n ==> a in s
    decreases n
  {
    if n == 0 {
      if s != [] { assert false; }
    } else if n - 1 in s {
      var k :| 0 <= k < |s| && s[k] == n - 1;
      var t := s[..k] + s[k + 1..];
      DropOne(s, k, t);
      PigeonHole(t, n - 1);
      forall a | a in t ensures a in s { var i :| 0 <= i < |t| && t[i] == a; }
    } else {
      PigeonHole(s, n - 1);
    }
  }

  lemma PermutationCovers(s: seq<nat>, a: nat)
    requires IsPermutation(s)
    ensures a in s <==> a < |s|
  {
    PigeonHole(s, |s|);
  }

  /** The actual id of each assumed id, as a list indexed by the assumed id. */
  function Actuals(order: seq<nat>): (r: seq<nat>)
    requires IsPermutation(order)
    ensures |r| == |order|
    ensures forall i :: 0 <= i < |order| ==> r[order[i]] == i
    ensures forall a :: 0 <= a < |order| ==> r[a] < |order| && order[r[a]] == a
  {
    assert forall a :: 0 <= a < |order| ==> ActualKnown(order, a) by {
      forall a: nat | a < |order| ensures ActualKnown(order, a) {
        PermutationCovers(order, a);
        LastPositionWins(order, a);
      }
    }
    var r := seq(|order|, a requires 0 <= a < |order| && ActualKnown(order, a) => AssignAll(order).actual[a]);
    assert forall a :: 0 <= a < |order| ==> ActualKnown(order, a) && r[a] == AssignAll(order).actual[a];
    r
  }

  ghost predicate ActualKnown(order: seq<nat>, a: nat) {
    a in AssignAll(order).actual && AssignAll(order).actual[a] < |order| && order[AssignAll(order).actual[a]] == a
  }

  /** Over a permutation the tracker computes the inverse permutation, exactly. */
  lemma TrackerInverts(order: seq<nat>)
    requires IsPermutation(order)
    ensures IsPermutation(Actuals(order))
    ensures Actuals(Actuals(order)) == order
    ensures AssignAll(order) == Tracker(map a: nat | 0 <= a < |order| :: Actuals(order)[a], |order|)
  {
    InverseInverts(order);
    var tracked := AssignAll(order).actual;
    forall a: nat ensures (a in tracked <==> a < |order|) && (a < |order| ==> tracked[a] == Actuals(order)[a]) {
      PermutationCovers(order, a);
      LastPositionWins(order, a);
    }
    LastPositionWins(order, 0);
  }

  lemma InverseInverts(order: seq<nat>)
    requires IsPermutation(order)
    ensures IsPermutation(Actuals(order)) && Actuals(Actuals(order)) == order
  {
    var inv := Actuals(order);
    assert Distinct(inv) by {
      forall i, j | 0 <= i < j < |inv| ensures inv[i] != inv[j] {
        assert order[inv[i]] == i && order[inv[j]] == j;
      }
    }
    forall i | 0 <= i < |order| ensures Actuals(inv)[i] == order[i] {
      assert inv[order[i]] == i;
    }
  }

  // ------------------------------------------------------------------------------------
  // Emission orders
  // ------------------------------------------------------------------------------------

  lemma OrderSnoc(es: seq<Emission>, e: Emission, scope: ScopeId, space: Space)
    ensures OrderOf(es + [e], scope, space)
         == OrderOf(es, scope, space) + (if e.scope == scope && e.space == space then [e.assumed] else [])
  {
    assert (es + [e])[..|es|] == es;
  }

  lemma {:induction false} OrderConcat(a: seq<Emission>, b: seq<Emission>, scope: ScopeId, space: Space)
    ensures OrderOf(a + b, scope, space) == OrderOf(a, scope, space) + OrderOf(b, scope, space)
  {
    if b == [] {
      assert a + b == a;
    } else {
      var n := |b| - 1;
      OrderConcat(a, b[..n], scope, space);
      OrderSnoc(a + b[..n], b[n], scope, space);
      assert a + b == a + b[..n] + [b[n]];
      ConcatAssoc(OrderOf(a, scope, space), OrderOf(b[..n], scope, space),
                  if b[n].scope == scope && b[n].space == space then [b[n].assumed] else []);
    }
  }

  lemma {:induction false} OrderMembers(es: seq<Emission>, scope: ScopeId, space: Space, a: nat)
    ensures a in OrderOf(es, scope, space) <==> Emission(scope, space, a) in es
  {
    if es != [] {
      var n := |es| - 1;
      OrderMembers(es[..n], scope, space, a);
      assert es == es[..n] + [es[n]];
    }
  }
}
