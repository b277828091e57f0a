/** Items of several spaces visited in some order: which ids each space meets. An item's id is the
    number of earlier items of its space; an item may come with several copies of its id, or none. */
module Orders {
  import opened Prelude
  import opened Spaces
  import opened ActualIds
  import Topological

  function IdAt(spaces: seq<Space>, i: nat): nat
    requires i < |spaces|
  {
    |Positions(spaces[..i], spaces[i])|
  }

  /** The ids of one space as they are met along the order. */
  function IdsMet(spaces: seq<Space>, copies: seq<nat>, order: seq<nat>, sp: Space): seq<nat>
    requires |copies| == |spaces| && Topological.AllBelow(order, |spaces|)
  {
    if order == [] then []
    else
      var i := order[|order| - 1];
      IdsMet(spaces, copies, order[..|order| - 1], sp) + MetAt(spaces, copies, i, sp)
  }

  /** The items of one space, in the order of the visits. */
  function Visited(spaces: seq<Space>, order: seq<nat>, sp: Space): seq<nat>
    requires Topological.AllBelow(order, |spaces|)
  {
    if order == [] then []
    else
      var i := order[|order| - 1];
      Visited(spaces, order[..|order| - 1], sp) + (if spaces[i] == sp then [i] else [])
  }

  predicate Increasing(s: seq<nat>) {
    forall i, j :: 0 <= i < j < |s| ==> s[i] < s[j]
  }

  /** Of two items of the same space, the earlier one is visited first. */
  ghost predicate KeepsSpaces(spaces: seq<Space>, order: seq<nat>)
    requires Topological.AllBelow(order, |spaces|)
  {
    forall sp :: Increasing(Visited(spaces, order, sp))
  }

  predicate OneEach(copies: seq<nat>) {
    forall i :: 0 <= i < |copies| ==> copies[i] == 1
  }

  // ------------------------------------------------------------------------------------
  // Ids
  // ------------------------------------------------------------------------------------

  lemma IdIsPosition(spaces: seq<Space>, i: nat)
    requires i < |spaces|
    ensures var at := Positions(spaces, spaces[i]); IdAt(spaces, i) < |at| && at[IdAt(spaces, i)] == i
  {
    PositionsFind(spaces, i);
  }

  lemma IdsGrow(spaces: seq<Space>, i: nat, j: nat)
    requires i < |spaces| && j < |spaces| && spaces[i] == spaces[j]
    ensures IdAt(spaces, i) < IdAt(spaces, j) <==> i < j
  {
    IdIsPosition(spaces, i);
    IdIsPosition(spaces, j);
    PositionsHold(spaces, spaces[i]);
  }

  lemma IdOfPosition(spaces: seq<Space>, sp: Space, a: nat)
    requires a < |Positions(spaces, sp)|
    ensures var i := Positions(spaces, sp)[a]; i < |spaces| && spaces[i] == sp && IdAt(spaces, i) == a
  {
    PositionsHold(spaces, sp);
    var i := Positions(spaces, sp)[a];
    IdIsPosition(spaces, i);
  }

  // ------------------------------------------------------------------------------------
  // How often an id is met
  // ------------------------------------------------------------------------------------

  function Count(s: seq<nat>, a: nat): nat {
    if s == [] then 0 else Count(s[..|s| - 1], a) + (if s[|s| - 1] == a then 1 else 0)
  }

  lemma {:induction false} CountConcat(s: seq<nat>, t: seq<nat>, a: nat)
    ensures Count(s + t, a) == Count(s, a) + Count(t, a)
  {
    if t == [] {
      assert s + t == s;
    } else {
      var n := |t| - 1;
      CountConcat(s, t[..n], a);
      assert (s + t)[..|s + t| - 1] == s + t[..n];
    }
  }

  lemma {:induction false} CopiesCounted(x: nat, n: nat, a: nat)
    ensures Count(Repeat(x, n), a) == if a == x then n else 0
  {
    if n > 0 {
      CopiesCounted(x, n - 1, a);
      assert Repeat(x, n)[..n - 1] == Repeat(x, n - 1);
    }
  }

  lemma {:induction false} UptoCounted(n: nat, a: nat)
    ensures Count(Upto(n), a) == if a < n then 1 else 0
  {
    if n > 0 {
      UptoCounted(n - 1, a);
      assert Upto(n)[..n - 1] == Upto(n - 1);
    }
  }

  lemma {:induction false} CountedMembers(s: seq<nat>, a: nat)
    ensures Count(s, a) > 0 <==> a in s
  {
    if s != [] {
      CountedMembers(s[..|s| - 1], a);
      assert s == s[..|s| - 1] + [s[|s| - 1]];
    }
  }

  lemma {:induction false} DistinctByCount(s: seq<nat>)
    requires forall a: nat :: Count(s, a) <= 1
    ensures Distinct(s)
  {
    if s != [] {
      var n := |s| - 1;
      forall a: nat ensures Count(s[..n], a) <= 1 { assert Count(s, a) <= 1; }
      DistinctByCount(s[..n]);
      assert Count(s, s[n]) <= 1;
      CountedMembers(s[..n], s[n]);
      forall i | 0 <= i < n ensures s[i] != s[n] { assert s[..n][i] == s[i]; }
    }
  }

  lemma {:induction false} CountByDistinct(s: seq<nat>, a: nat)
    requires Distinct(s)
    ensures Count(s, a) == if a in s then 1 else 0
  {
    if s != [] {
      var n := |s| - 1;
      CountByDistinct(s[..n], a);
      assert s == s[..n] + [s[n]];
    }
  }

  /** An id is met once per copy, when its item is visited. */
  lemma {:induction false} MetOncePerCopy(spaces: seq<Space>, copies: seq<nat>, order: seq<nat>, i: nat)
    requires |copies| == |spaces| && Topological.AllBelow(order, |spaces|) && Distinct(order) && i < |spaces|
    ensures Count(IdsMet(spaces, copies, order, spaces[i]), IdAt(spaces, i)) == if i in order then copies[i] else 0
  {
    if order != [] {
      var n := |order| - 1;
      MetOncePerCopy(spaces, copies, order[..n], i);
      assert order == order[..n] + [order[n]];
      OneVisitCounted(spaces, copies, order[n], i);
      CountConcat(IdsMet(spaces, copies, order[..n], spaces[i]), MetAt(spaces, copies, order[n], spaces[i]),
                  IdAt(spaces, i));
    }
  }

  /** What one visit adds. */
  function MetAt(spaces: seq<Space>, copies: seq<nat>, j: nat, sp: Space): seq<nat>
    requires |copies| == |spaces| && j < |spaces|
  {
    if spaces[j] == sp then Repeat(IdAt(spaces, j), copies[j]) else []
  }

  lemma OneVisitCounted(spaces: seq<Space>, copies: seq<nat>, j: nat, i: nat)
    requires |copies| == |spaces| && i < |spaces| && j < |spaces|
    ensures Count(MetAt(spaces, copies, j, spaces[i]), IdAt(spaces, i)) == if i == j then copies[i] else 0
  {
    if spaces[j] == spaces[i] {
      IdsGrow(spaces, i, j);
      IdsGrow(spaces, j, i);
      CopiesCounted(IdAt(spaces, j), copies[j], IdAt(spaces, i));
    }
  }

  lemma {:induction false} MetAreIds(spaces: seq<Space>, copies: seq<nat>, order: seq<nat>, sp: Space)
    requires |copies| == |spaces| && Topological.AllBelow(order, |spaces|)
    ensures Topological.AllBelow(IdsMet(spaces, copies, order, sp), |Positions(spaces, sp)|)
  {
    if order != [] {
      var n := |order| - 1;
      MetAreIds(spaces, copies, order[..n], sp);
      if spaces[order[n]] == sp { IdIsPosition(spaces, order[n]); }
    }
  }

  /** Visiting every item once meets every id of every space once, if and only if every item comes
      with exactly one copy. */
  lemma MetOnceExactlyWhen(spaces: seq<Space>, copies: seq<nat>, order: seq<nat>)
    requires |copies| == |spaces| == |order| && IsPermutation(order)
    ensures (forall sp :: CompleteAt(spaces, copies, order, sp)) <==> OneEach(copies)
  {
    if OneEach(copies) {
      forall sp ensures CompleteAt(spaces, copies, order, sp) { OneCopyIsComplete(spaces, copies, order, sp); }
    }
    if forall sp :: CompleteAt(spaces, copies, order, sp) {
      forall i | 0 <= i < |copies| ensures copies[i] == 1 {
        assert CompleteAt(spaces, copies, order, spaces[i]);
        var met := IdsMet(spaces, copies, order, spaces[i]);
        PermutationCovers(order, i);
        IdIsPosition(spaces, i);
        MetOncePerCopy(spaces, copies, order, i);
        PermutationCovers(met, IdAt(spaces, i));
        CountByDistinct(met, IdAt(spaces, i));
      }
    }
  }

  /** Every id of the space is met, once. */
  ghost predicate CompleteAt(spaces: seq<Space>, copies: seq<nat>, order: seq<nat>, sp: Space)
    requires |copies| == |spaces| && Topological.AllBelow(order, |spaces|)
  {
    var met := IdsMet(spaces, copies, order, sp);
    IsPermutation(met) && |met| == |Positions(spaces, sp)|
  }

  lemma MembersBelow(s: seq<nat>, n: nat, a: nat)
    requires Topological.AllBelow(s, n)
    ensures a in s ==> a < n
  {
  }

  lemma OneCopyIsComplete(spaces: seq<Space>, copies: seq<nat>, order: seq<nat>, sp: Space)
    requires |copies| == |spaces| == |order| && IsPermutation(order) && OneEach(copies)
    ensures CompleteAt(spaces, copies, order, sp)
  {
    var met, n := IdsMet(spaces, copies, order, sp), |Positions(spaces, sp)|;
    MetAreIds(spaces, copies, order, sp);
    forall a: nat ensures Count(met, a) == if a < n then 1 else 0 {
      CountedMembers(met, a);
      if a < n {
        IdOfPosition(spaces, sp, a);
        var i := Positions(spaces, sp)[a];
        PermutationCovers(order, i);
        MetOncePerCopy(spaces, copies, order, i);
      } else {
        MembersBelow(met, n, a);
      }
    }
    DistinctByCount(met);
    forall a: nat | a < n ensures a in met { CountedMembers(met, a); }
    PigeonHole(met, n);
    Topological.AllListed(met, n);
  }

  // ------------------------------------------------------------------------------------
  // When they are met in order
  // ------------------------------------------------------------------------------------

  /** The ids of every space are met as 0, 1, 2, ..., all of them. */
  ghost predicate MetInOrder(spaces: seq<Space>, copies: seq<nat>, order: seq<nat>)
    requires |copies| == |spaces| && Topological.AllBelow(order, |spaces|)
  {
    forall sp :: IdsMet(spaces, copies, order, sp) == Upto(|Positions(spaces, sp)|)
  }

  lemma InOrderMeansOneEach(spaces: seq<Space>, copies: seq<nat>, order: seq<nat>)
    requires |copies| == |spaces| == |order| && IsPermutation(order) && MetInOrder(spaces, copies, order)
    ensures OneEach(copies)
  {
    forall i | 0 <= i < |copies| ensures copies[i] == 1 {
      PermutationCovers(order, i);
      IdIsPosition(spaces, i);
      MetOncePerCopy(spaces, copies, order, i);
      UptoCounted(|Positions(spaces, spaces[i])|, IdAt(spaces, i));
    }
  }

  lemma InOrderMeansKept(spaces: seq<Space>, copies: seq<nat>, order: seq<nat>, sp: Space)
    requires |copies| == |spaces| && Topological.AllBelow(order, |spaces|) && OneEach(copies)
    requires IdsMet(spaces, copies, order, sp) == Upto(|Positions(spaces, sp)|)
    ensures Increasing(Visited(spaces, order, sp))
  {
    MetAreVisited(spaces, copies, order, sp);
    var visited := Visited(spaces, order, sp);
    forall i, j | 0 <= i < j < |visited| ensures visited[i] < visited[j] {
      IdsGrow(spaces, visited[i], visited[j]);
    }
  }

  /** Two increasing lists of the same numbers are the same list. */
  lemma {:induction false} IncreasingIsUnique(a: seq<nat>, b: seq<nat>)
    requires Increasing(a) && Increasing(b) && SameMembers(a, b)
    ensures a == b
  {
    EmptyTogether(a, b);
    if a != [] {
      var m, n := |a| - 1, |b| - 1;
      SameLast(a, b);
      DropLast(a, b);
      IncreasingIsUnique(a[..m], b[..n]);
      assert a == a[..m] + [a[m]] && b == b[..n] + [b[n]];
    }
  }

  predicate Same(a: seq<nat>, b: seq<nat>, x: nat) {
    x in a <==> x in b
  }

  ghost predicate SameMembers(a: seq<nat>, b: seq<nat>) {
    forall x: nat :: Same(a, b, x)
  }

  lemma EmptyTogether(a: seq<nat>, b: seq<nat>)
    requires SameMembers(a, b)
    ensures a == [] <==> b == []
  {
    if a != [] { assert Same(a, b, a[0]); }
    if b != [] { assert Same(a, b, b[0]); }
  }

  lemma SameLast(a: seq<nat>, b: seq<nat>)
    requires Increasing(a) && Increasing(b) && SameMembers(a, b) && a != [] && b != []
    ensures a[|a| - 1] == b[|b| - 1]
  {
    assert Same(a, b, a[|a| - 1]) && Same(a, b, b[|b| - 1]);
    var k :| 0 <= k < |b| && b[k] == a[|a| - 1];
    var l :| 0 <= l < |a| && a[l] == b[|b| - 1];
  }

  lemma DropLast(a: seq<nat>, b: seq<nat>)
    requires Increasing(a) && Increasing(b) && SameMembers(a, b) && a != [] && b != []
    requires a[|a| - 1] == b[|b| - 1]
    ensures Increasing(a[..|a| - 1]) && Increasing(b[..|b| - 1]) && SameMembers(a[..|a| - 1], b[..|b| - 1])
  {
    var p, q := a[..|a| - 1], b[..|b| - 1];
    forall x: nat ensures Same(p, q, x) {
      assert Same(a, b, x);
      WithoutLast(a, x);
      WithoutLast(b, x);
    }
  }

  lemma WithoutLast(s: seq<nat>, x: nat)
    requires Increasing(s) && s != []
    ensures x in s[..|s| - 1] <==> x in s && x != s[|s| - 1]
  {
    assert s == s[..|s| - 1] + [s[|s| - 1]];
  }

  lemma {:induction false} VisitedMembers(spaces: seq<Space>, order: seq<nat>, sp: Space, x: nat)
    requires Topological.AllBelow(order, |spaces|)
    ensures x in Visited(spaces, order, sp) <==> x in order && spaces[x] == sp
  {
    if order != [] {
      var n := |order| - 1;
      VisitedMembers(spaces, order[..n], sp, x);
      assert order == order[..n] + [order[n]];
    }
  }

  /** An order that increases as a whole keeps every space. */
  lemma {:induction false} VisitedIncreases(spaces: seq<Space>, order: seq<nat>, sp: Space)
    requires Topological.AllBelow(order, |spaces|) && Increasing(order)
    ensures Increasing(Visited(spaces, order, sp))
  {
    if order != [] {
      var n := |order| - 1;
      VisitedIncreases(spaces, order[..n], sp);
      var before := Visited(spaces, order[..n], sp);
      forall j | 0 <= j < |before| ensures before[j] < order[n] {
        assert before[j] in before;
        VisitedMembers(spaces, order[..n], sp, before[j]);
      }
    }
  }

  lemma {:induction false} MetAreVisited(spaces: seq<Space>, copies: seq<nat>, order: seq<nat>, sp: Space)
    requires |copies| == |spaces| && Topological.AllBelow(order, |spaces|) && OneEach(copies)
    ensures |IdsMet(spaces, copies, order, sp)| == |Visited(spaces, order, sp)|
    ensures forall k :: 0 <= k < |Visited(spaces, order, sp)| ==>
              && Visited(spaces, order, sp)[k] < |spaces| && spaces[Visited(spaces, order, sp)[k]] == sp
              && IdsMet(spaces, copies, order, sp)[k] == IdAt(spaces, Visited(spaces, order, sp)[k])
  {
    if order != [] { MetAreVisited(spaces, copies, order[..|order| - 1], sp); }
  }

  lemma KeptMeansInOrder(spaces: seq<Space>, copies: seq<nat>, order: seq<nat>, sp: Space)
    requires |copies| == |spaces| == |order| && IsPermutation(order) && OneEach(copies)
    requires Increasing(Visited(spaces, order, sp))
    ensures IdsMet(spaces, copies, order, sp) == Upto(|Positions(spaces, sp)|)
  {
    MetAreVisited(spaces, copies, order, sp);
    PositionsHold(spaces, sp);
    var visited, at := Visited(spaces, order, sp), Positions(spaces, sp);
    forall x: nat ensures Same(visited, at, x) {
      VisitedMembers(spaces, order, sp, x);
      PermutationCovers(order, x);
      if x < |spaces| && spaces[x] == sp { IdIsPosition(spaces, x); }
    }
    IncreasingIsUnique(visited, at);
    forall a | 0 <= a < |at| ensures IdsMet(spaces, copies, order, sp)[a] == a { IdOfPosition(spaces, sp, a); }
  }

  /** Visiting every item once meets the ids of every space in order if and only if every item comes
      with exactly one copy of its id and no space has a later item visited before an earlier one. */
  lemma MetInOrderExactlyWhen(spaces: seq<Space>, copies: seq<nat>, order: seq<nat>)
    requires |copies| == |spaces| == |order| && IsPermutation(order)
    ensures MetInOrder(spaces, copies, order) <==> OneEach(copies) && KeepsSpaces(spaces, order)
  {
    if MetInOrder(spaces, copies, order) {
      InOrderMeansOneEach(spaces, copies, order);
      forall sp ensures Increasing(Visited(spaces, order, sp)) { InOrderMeansKept(spaces, copies, order, sp); }
    }
    if OneEach(copies) && KeepsSpaces(spaces, order) {
      forall sp ensures IdsMet(spaces, copies, order, sp) == Upto(|Positions(spaces, sp)|) {
        KeptMeansInOrder(spaces, copies, order, sp);
      }
    }
  }

  // ------------------------------------------------------------------------------------
  // Emissions put together from parts
  // ------------------------------------------------------------------------------------

  /** What the parts emit, one after the other in the order of the visits. */
  function Joined(parts: seq<seq<Emission>>, order: seq<nat>): seq<Emission>
    requires Topological.AllBelow(order, |parts|)
  {
    if order == [] then []
    else Joined(parts, order[..|order| - 1]) + parts[order[|order| - 1]]
  }

  lemma {:induction false} JoinedSilent(parts: seq<seq<Emission>>, order: seq<nat>, s: ScopeId, sp: Space)
    requires Topological.AllBelow(order, |parts|)
    requires forall i :: 0 <= i < |parts| ==> OrderOf(parts[i], s, sp) == []
    ensures OrderOf(Joined(parts, order), s, sp) == []
  {
    if order != [] {
      var n := |order| - 1;
      JoinedSilent(parts, order[..n], s, sp);
      OrderConcat(Joined(parts, order[..n]), parts[order[n]], s, sp);
    }
  }

  /** Where every part emits copies of its own id, those ids are met. */
  lemma {:induction false} JoinedMeets(parts: seq<seq<Emission>>, spaces: seq<Space>, copies: seq<nat>,
                                       order: seq<nat>, s: ScopeId, sp: Space)
    requires |parts| == |spaces| == |copies| && Topological.AllBelow(order, |parts|)
    requires forall i :: 0 <= i < |parts| ==> OrderOf(parts[i], s, sp) == MetAt(spaces, copies, i, sp)
    ensures OrderOf(Joined(parts, order), s, sp) == IdsMet(spaces, copies, order, sp)
  {
    if order != [] {
      var n := |order| - 1;
      JoinedMeets(parts, spaces, copies, order[..n], s, sp);
      OrderConcat(Joined(parts, order[..n]), parts[order[n]], s, sp);
    }
  }

  /** Where only one part emits, its emissions arrive when it is visited. */
  lemma {:induction false} JoinedReceives(parts: seq<seq<Emission>>, order: seq<nat>, i: nat, s: ScopeId, sp: Space)
    requires Topological.AllBelow(order, |parts|) && Distinct(order) && i < |parts|
    requires forall j :: 0 <= j < |parts| && j != i ==> OrderOf(parts[j], s, sp) == []
    ensures OrderOf(Joined(parts, order), s, sp) == if i in order then OrderOf(parts[i], s, sp) else []
  {
    if order != [] {
      var n := |order| - 1;
      JoinedReceives(parts, order[..n], i, s, sp);
      LastIsNew(order, i);
      OrderConcat(Joined(parts, order[..n]), parts[order[n]], s, sp);
    }
  }

  lemma LastIsNew(order: seq<nat>, i: nat)
    requires Distinct(order) && order != []
    ensures var init, j := order[..|order| - 1], order[|order| - 1];
            Distinct(init) && (i in order <==> i in init || i == j) && !(i in init && i == j)
  {
    var init, j := order[..|order| - 1], order[|order| - 1];
    assert order == init + [j];
  }
}
