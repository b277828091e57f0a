/** The order in which the items of a component are emitted: a depth-first collection that puts
    an item's dependencies before it, started from every item in structural order. */
module Topological {
  import opened Prelude
  import opened ActualIds

  /** An item of a component: what it refers to, and whether the collection follows that.
      Items are numbered in structural order; types and nested components are not followed. */
  datatype Node = Node(refs: seq<nat>, followed: bool)

  /** References resolve; where one does not the code aborts. */
  predicate Closed(g: seq<Node>) {
    forall n :: 0 <= n < |g| ==> AllBelow(g[n].refs, |g|)
  }

  predicate AllBelow(ns: seq<nat>, bound: nat) {
    forall i :: 0 <= i < |ns| ==> ns[i] < bound
  }

  datatype Topo = Topo(seen: set<nat>, out: seq<nat>)

  function BelowN(n: nat): (r: set<nat>)
    ensures forall i: nat :: i in r <==> i < n
  {
    if n == 0 then {} else BelowN(n - 1) + {n - 1}
  }

  function Nodes(g: seq<Node>): set<nat> { BelowN(|g|) }

  function Collect(g: seq<Node>, n: nat, t: Topo): (r: Topo)
    requires Closed(g) && n < |g|
    ensures t.seen + {n} <= r.seen
    decreases Nodes(g) - t.seen, 0
  {
    if n in t.seen then t
    else
      var marked := Topo(t.seen + {n}, t.out);
      var after := if g[n].followed then CollectAll(g, g[n].refs, marked) else marked;
      Topo(after.seen, after.out + [n])
  }

  function CollectAll(g: seq<Node>, ns: seq<nat>, t: Topo): (r: Topo)
    requires Closed(g) && AllBelow(ns, |g|)
    ensures t.seen <= r.seen
    decreases Nodes(g) - t.seen, 1, |ns|
  {
    if ns == [] then t
    else
      var k := |ns| - 1;
      Collect(g, ns[k], CollectAll(g, ns[..k], t))
  }

  const NOTHING := Topo({}, [])

  function EmissionOrder(g: seq<Node>): seq<nat>
    requires Closed(g)
  {
    CollectAll(g, Upto(|g|), NOTHING).out
  }

  class TopoCtx {
    var seen: set<nat>
    var events: seq<nat>

    function Now(): Topo
      reads this
    {
      Topo(seen, events)
    }

    constructor ()
      ensures Now() == NOTHING
    {
      seen, events := {}, [];
    }

    method VisitOnce(n: nat) returns (first: bool)
      modifies this`seen
      ensures first <==> n !in old(seen)
      ensures seen == old(seen) + {n}
    {
      first := n !in seen;
      seen := seen + {n};
    }

    method CollectNode(g: seq<Node>, n: nat)
      requires Closed(g) && n < |g|
      modifies this
      ensures Now() == Collect(g, n, old(Now()))
      decreases Nodes(g) - seen, 0
    {
      ghost var before := Now();
      var first := VisitOnce(n);
      if !first {
        assert seen == before.seen;
        return;
      }
      if g[n].followed { CollectDeps(g, g[n].refs); }
      events := events + [n];
    }

    method CollectDeps(g: seq<Node>, refs: seq<nat>)
      requires Closed(g) && AllBelow(refs, |g|)
      modifies this
      ensures Now() == CollectAll(g, refs, old(Now()))
      decreases Nodes(g) - seen, 1
    {
      ghost var before := Now();
      for i := 0 to |refs|
        invariant before.seen <= seen
        invariant Now() == CollectAll(g, refs[..i], before)
      {
        assert refs[..i + 1][..i] == refs[..i];
        assert Nodes(g) - seen <= Nodes(g) - before.seen;
        CollectNode(g, refs[i]);
      }
      assert refs[..|refs|] == refs;
    }
  }

  // ------------------------------------------------------------------------------------
  // Every item once, and after what it refers to
  // ------------------------------------------------------------------------------------

  predicate AfterItsRefs(g: seq<Node>, out: seq<nat>, i: nat)
    requires i < |out| && AllBelow(out, |g|)
  {
    g[out[i]].followed ==> forall d :: d in g[out[i]].refs ==> d in out[..i]
  }

  /** The items emitted so far are distinct, seen, and come after everything followed from them. */
  ghost predicate Sorted(g: seq<Node>, t: Topo) {
    && Distinct(t.out) && AllBelow(t.out, |g|)
    && (forall i :: 0 <= i < |t.out| ==> t.out[i] in t.seen)
    && forall i :: 0 <= i < |t.out| ==> AfterItsRefs(g, t.out, i)
  }

  /** No chain of followed references returns to its start. */
  ghost predicate Acyclic(g: seq<Node>, rank: seq<nat>) {
    && |rank| == |g| && Closed(g)
    && forall n, j :: 0 <= n < |g| && g[n].followed && 0 <= j < |g[n].refs| ==> rank[g[n].refs[j]] < rank[n]
  }

  predicate Pending(t: Topo, x: nat) {
    x in t.seen && x !in t.out
  }

  /** What is pending lies above `bound`: these are the items the collection came through. */
  ghost predicate PendingAbove(rank: seq<nat>, t: Topo, bound: nat) {
    forall x: nat :: Pending(t, x) ==> x < |rank| && rank[x] > bound
  }

  ghost predicate SamePending(t: Topo, r: Topo) {
    t.out <= r.out && forall x: nat :: Pending(t, x) <==> Pending(r, x)
  }

  lemma {:induction false} CollectSorts(g: seq<Node>, rank: seq<nat>, n: nat, t: Topo)
    requires Acyclic(g, rank) && Sorted(g, t) && n < |g| && PendingAbove(rank, t, rank[n])
    ensures var r := Collect(g, n, t);
            Sorted(g, r) && SamePending(t, r) && n in r.out
    decreases Nodes(g) - t.seen, 0
  {
    if n !in t.seen {
      var marked := Topo(t.seen + {n}, t.out);
      var refs := if g[n].followed then g[n].refs else [];
      assert forall x: nat :: Pending(marked, x) <==> Pending(t, x) || x == n;
      CollectAllSorts(g, rank, refs, marked);
      EmitPending(g, n, t, marked, CollectAll(g, refs, marked));
    }
  }

  /** Emitting the item that was marked, once what it refers to has been emitted. */
  lemma EmitPending(g: seq<Node>, n: nat, t: Topo, marked: Topo, after: Topo)
    requires n < |g| && n !in t.seen && marked == Topo(t.seen + {n}, t.out) && Sorted(g, t)
    requires Sorted(g, after) && SamePending(marked, after)
    requires g[n].followed ==> forall i :: 0 <= i < |g[n].refs| ==> g[n].refs[i] in after.out
    ensures var r := Topo(after.seen, after.out + [n]);
            Sorted(g, r) && SamePending(t, r) && n in r.out
  {
    var r := Topo(after.seen, after.out + [n]);
    assert Pending(marked, n) && Pending(after, n);
    forall i | 0 <= i < |r.out| ensures AfterItsRefs(g, r.out, i) {
      if i < |after.out| {
        assert AfterItsRefs(g, after.out, i) && r.out[..i] == after.out[..i];
      } else {
        assert r.out[..i] == after.out;
      }
    }
    forall x: nat ensures Pending(t, x) <==> Pending(r, x) {
      assert Pending(marked, x) <==> Pending(t, x) || x == n;
    }
  }

  lemma {:induction false} CollectAllSorts(g: seq<Node>, rank: seq<nat>, ns: seq<nat>, t: Topo)
    requires Acyclic(g, rank) && Sorted(g, t)
    requires AllBelow(ns, |g|) && forall i :: 0 <= i < |ns| ==> PendingAbove(rank, t, rank[ns[i]])
    ensures var r := CollectAll(g, ns, t);
            Sorted(g, r) && SamePending(t, r) && forall i :: 0 <= i < |ns| ==> ns[i] in r.out
    decreases Nodes(g) - t.seen, 1, |ns|
  {
    if ns != [] {
      var k := |ns| - 1;
      CollectAllSorts(g, rank, ns[..k], t);
      var mid := CollectAll(g, ns[..k], t);
      StillAbove(rank, t, mid, rank[ns[k]]);
      CollectSorts(g, rank, ns[k], mid);
      AllOut(ns, mid.out, CollectAll(g, ns, t).out);
    }
  }

  lemma AllOut(ns: seq<nat>, mid: seq<nat>, out: seq<nat>)
    requires ns != [] && mid <= out && ns[|ns| - 1] in out
    requires var init := ns[..|ns| - 1]; forall i :: 0 <= i < |init| ==> init[i] in mid
    ensures forall i :: 0 <= i < |ns| ==> ns[i] in out
  {
    var init := ns[..|ns| - 1];
    forall i | 0 <= i < |ns| - 1 ensures ns[i] in out { assert init[i] in mid; }
  }

  lemma StillAbove(rank: seq<nat>, t: Topo, mid: Topo, bound: nat)
    requires PendingAbove(rank, t, bound) && SamePending(t, mid)
    ensures PendingAbove(rank, mid, bound)
  {
  }

  /** When followed references form no cycle, every item is emitted exactly once, and every
      followed item after all it refers to. */
  lemma DependenciesComeFirst(g: seq<Node>, rank: seq<nat>)
    requires Acyclic(g, rank)
    ensures var out := EmissionOrder(g);
            && |out| == |g| && IsPermutation(out)
            && forall i :: 0 <= i < |g| ==> AfterItsRefs(g, out, i)
  {
    CollectAllSorts(g, rank, Upto(|g|), NOTHING);
    var r := CollectAll(g, Upto(|g|), NOTHING);
    forall n: nat | n < |g| ensures n in r.out { assert Upto(|g|)[n] == n; }
    PigeonHole(r.out, |g|);
    AllListed(r.out, |g|);
  }

  /** A list holding every number below `n` is at least that long. */
  lemma {:induction false} AllListed(s: seq<nat>, n: nat)
    requires forall a: nat :: a < n ==> a in s
    ensures |s| >= n
    decreases n
  {
    if n > 0 {
      assert n - 1 in s;
      var k :| 0 <= k < |s| && s[k] == n - 1;
      var t := s[..k] + s[k + 1..];
      forall a: nat | a < n - 1 ensures a in t {
        assert a in s;
        var j :| 0 <= j < |s| && s[j] == a;
        assert s[j] == if j < k then t[j] else t[j - 1];
      }
      AllListed(t, n - 1);
    }
  }

  // ------------------------------------------------------------------------------------
  // When the structural order is kept
  // ------------------------------------------------------------------------------------

  predicate PointsBack(g: seq<Node>, n: nat)
    requires n < |g|
  {
    g[n].followed ==> AllBelow(g[n].refs, n + 1)
  }

  lemma {:induction false} AllSeenAlready(g: seq<Node>, ns: seq<nat>, t: Topo)
    requires Closed(g) && AllBelow(ns, |g|) && forall i :: 0 <= i < |ns| ==> ns[i] in t.seen
    ensures CollectAll(g, ns, t) == t
  {
    if ns != [] {
      AllSeenAlready(g, ns[..|ns| - 1], t);
    }
  }

  /** Collecting only adds items not seen before. */
  lemma {:induction false} AddsUnseen(g: seq<Node>, n: nat, t: Topo)
    requires Closed(g) && n < |g|
    ensures var r := Collect(g, n, t);
            t.out <= r.out && (n !in t.seen ==> |t.out| < |r.out|)
            && forall i :: |t.out| <= i < |r.out| ==> r.out[i] !in t.seen
    decreases Nodes(g) - t.seen, 0
  {
    if n !in t.seen && g[n].followed { AllAddUnseen(g, g[n].refs, Topo(t.seen + {n}, t.out)); }
  }

  lemma {:induction false} AllAddUnseen(g: seq<Node>, ns: seq<nat>, t: Topo)
    requires Closed(g) && AllBelow(ns, |g|)
    ensures var r := CollectAll(g, ns, t);
            t.out <= r.out && ((exists i :: 0 <= i < |ns| && ns[i] !in t.seen) ==> |t.out| < |r.out|)
            && forall i :: |t.out| <= i < |r.out| ==> r.out[i] !in t.seen
    decreases Nodes(g) - t.seen, 1, |ns|
  {
    if ns != [] {
      var k := |ns| - 1;
      var mid := CollectAll(g, ns[..k], t);
      AllAddUnseen(g, ns[..k], t);
      AddsUnseen(g, ns[k], mid);
      AllSeenAreEmitted(g, ns[..k], t);
    }
  }

  /** What gets seen on the way has been emitted by the time the collection returns. */
  ghost predicate EmitsSeen(t: Topo, r: Topo) {
    t.out <= r.out && forall x: nat :: x in r.seen && x !in t.seen ==> x in r.out[|t.out|..]
  }

  lemma EmitsSeenTrans(t: Topo, mid: Topo, r: Topo)
    requires EmitsSeen(t, mid) && EmitsSeen(mid, r)
    ensures EmitsSeen(t, r)
  {
    assert r.out[|t.out|..] == mid.out[|t.out|..] + r.out[|mid.out|..];
  }

  lemma {:induction false} SeenIsEmitted(g: seq<Node>, n: nat, t: Topo)
    requires Closed(g) && n < |g|
    ensures EmitsSeen(t, Collect(g, n, t))
    decreases Nodes(g) - t.seen, 0
  {
    if n !in t.seen {
      var marked := Topo(t.seen + {n}, t.out);
      var after := if g[n].followed then CollectAll(g, g[n].refs, marked) else marked;
      if g[n].followed { AllSeenAreEmitted(g, g[n].refs, marked); }
      assert (after.out + [n])[|t.out|..] == after.out[|t.out|..] + [n];
    }
  }

  lemma {:induction false} AllSeenAreEmitted(g: seq<Node>, ns: seq<nat>, t: Topo)
    requires Closed(g) && AllBelow(ns, |g|)
    ensures EmitsSeen(t, CollectAll(g, ns, t))
    decreases Nodes(g) - t.seen, 1, |ns|
  {
    if ns != [] {
      var k := |ns| - 1;
      AllSeenAreEmitted(g, ns[..k], t);
      SeenIsEmitted(g, ns[k], CollectAll(g, ns[..k], t));
      EmitsSeenTrans(t, CollectAll(g, ns[..k], t), CollectAll(g, ns, t));
    }
  }

  lemma {:induction false} StructuralPrefix(g: seq<Node>, k: nat)
    requires Closed(g) && k <= |g| && forall n :: 0 <= n < k ==> PointsBack(g, n)
    ensures CollectAll(g, Upto(k), NOTHING) == Topo(BelowN(k), Upto(k))
  {
    if k == 0 {
      assert Upto(0) == [];
    } else {
      StructuralPrefix(g, k - 1);
      assert Upto(k)[..k - 1] == Upto(k - 1);
      var t := Topo(BelowN(k - 1), Upto(k - 1));
      var marked := Topo(t.seen + {k - 1}, t.out);
      assert marked.seen == BelowN(k);
      assert PointsBack(g, k - 1);
      if g[k - 1].followed { AllSeenAlready(g, g[k - 1].refs, marked); }
      assert Upto(k) == Upto(k - 1) + [k - 1];
    }
  }

  lemma {:induction false} LaterOnlyExtends(g: seq<Node>, k: nat, m: nat)
    requires Closed(g) && k <= m <= |g|
    ensures CollectAll(g, Upto(k), NOTHING).out <= CollectAll(g, Upto(m), NOTHING).out
    decreases m
  {
    if k < m {
      LaterOnlyExtends(g, k, m - 1);
      assert Upto(m)[..m - 1] == Upto(m - 1);
      AddsUnseen(g, m - 1, CollectAll(g, Upto(m - 1), NOTHING));
    }
  }

  /** The items keep their structural order exactly when no followed item refers to a later one;
      a component as parsed is therefore emitted in the order it was read. */
  lemma StructuralOrderIsKept(g: seq<Node>)
    requires Closed(g)
    ensures EmissionOrder(g) == Upto(|g|) <==> forall n :: 0 <= n < |g| ==> PointsBack(g, n)
  {
    if forall n :: 0 <= n < |g| ==> PointsBack(g, n) {
      StructuralPrefix(g, |g|);
    } else {
      var k := FirstForward(g, 0);
      ForwardPullsAhead(g, k);
    }
  }

  ghost function FirstForward(g: seq<Node>, from: nat): (k: nat)
    requires exists n :: 0 <= n < |g| && !PointsBack(g, n)
    requires from <= |g| && forall n :: 0 <= n < from ==> PointsBack(g, n)
    ensures k < |g| && !PointsBack(g, k) && forall n :: 0 <= n < k ==> PointsBack(g, n)
    decreases |g| - from
  {
    if !PointsBack(g, from) then from else FirstForward(g, from + 1)
  }

  lemma ForwardPullsAhead(g: seq<Node>, k: nat)
    requires Closed(g) && k < |g| && !PointsBack(g, k) && forall n :: 0 <= n < k ==> PointsBack(g, n)
    ensures EmissionOrder(g) != Upto(|g|)
  {
    StructuralPrefix(g, k);
    var t := Topo(BelowN(k), Upto(k));
    var marked := Topo(t.seen + {k}, t.out);
    var j :| 0 <= j < |g[k].refs| && g[k].refs[j] > k;
    AllAddUnseen(g, g[k].refs, marked);
    var after := CollectAll(g, g[k].refs, marked);
    assert after.out[k] !in marked.seen;
    assert Upto(k + 1)[..k] == Upto(k);
    assert CollectAll(g, Upto(k + 1), NOTHING).out == after.out + [k];
    LaterOnlyExtends(g, k + 1, |g|);
    assert EmissionOrder(g)[k] == after.out[k] != k;
  }

  // ------------------------------------------------------------------------------------
  // What moves an item ahead
  // ------------------------------------------------------------------------------------

  /** Some followed item refers to it. */
  predicate Pulled(g: seq<Node>, x: nat) {
    exists n :: 0 <= n < |g| && g[n].followed && x in g[n].refs
  }

  lemma {:induction false} SeenArePulled(g: seq<Node>, n: nat, t: Topo)
    requires Closed(g) && n < |g|
    ensures forall x: nat :: x in Collect(g, n, t).seen ==> x in t.seen || x == n || Pulled(g, x)
    decreases Nodes(g) - t.seen, 0
  {
    if n !in t.seen && g[n].followed {
      AllSeenArePulled(g, g[n].refs, Topo(t.seen + {n}, t.out));
      forall x: nat | x in g[n].refs ensures Pulled(g, x) {}
    }
  }

  lemma {:induction false} AllSeenArePulled(g: seq<Node>, ns: seq<nat>, t: Topo)
    requires Closed(g) && AllBelow(ns, |g|)
    ensures forall x: nat :: x in CollectAll(g, ns, t).seen ==> x in t.seen || x in ns || Pulled(g, x)
    decreases Nodes(g) - t.seen, 1, |ns|
  {
    if ns != [] {
      var k := |ns| - 1;
      AllSeenArePulled(g, ns[..k], t);
      SeenArePulled(g, ns[k], CollectAll(g, ns[..k], t));
      assert ns == ns[..k] + [ns[k]];
    }
  }

  lemma {:induction false} EmittedAreSeen(g: seq<Node>, n: nat, t: Topo)
    requires Closed(g) && n < |g|
    ensures forall x: nat :: x in Collect(g, n, t).out ==> x in t.out || x in Collect(g, n, t).seen
    decreases Nodes(g) - t.seen, 0
  {
    if n !in t.seen && g[n].followed { AllEmittedAreSeen(g, g[n].refs, Topo(t.seen + {n}, t.out)); }
  }

  lemma {:induction false} AllEmittedAreSeen(g: seq<Node>, ns: seq<nat>, t: Topo)
    requires Closed(g) && AllBelow(ns, |g|)
    ensures forall x: nat :: x in CollectAll(g, ns, t).out ==> x in t.out || x in CollectAll(g, ns, t).seen
    decreases Nodes(g) - t.seen, 1, |ns|
  {
    if ns != [] {
      AllEmittedAreSeen(g, ns[..|ns| - 1], t);
      EmittedAreSeen(g, ns[|ns| - 1], CollectAll(g, ns[..|ns| - 1], t));
    }
  }

  lemma {:induction false} LaterAreUnseen(g: seq<Node>, k: nat, m: nat)
    requires Closed(g) && k <= m <= |g|
    ensures var t, r := CollectAll(g, Upto(k), NOTHING), CollectAll(g, Upto(m), NOTHING);
            t.seen <= r.seen && t.out <= r.out && forall c :: |t.out| <= c < |r.out| ==> r.out[c] !in t.seen
    decreases m
  {
    if k < m {
      LaterAreUnseen(g, k, m - 1);
      assert Upto(m)[..m - 1] == Upto(m - 1);
      AddsUnseen(g, m - 1, CollectAll(g, Upto(m - 1), NOTHING));
    }
  }

  /** An item emitted ahead of an earlier one is referred to by a followed item. */
  lemma PulledBySome(g: seq<Node>, a: nat, b: nat) returns (n: nat)
    requires Closed(g) && a < b < |EmissionOrder(g)| && EmissionOrder(g)[b] < EmissionOrder(g)[a]
    requires EmissionOrder(g)[b] < |g|
    ensures n < |g| && g[n].followed && EmissionOrder(g)[a] in g[n].refs
  {
    var out := EmissionOrder(g);
    var i := out[b];
    var t := CollectAll(g, Upto(i + 1), NOTHING);
    LaterAreUnseen(g, i + 1, |g|);
    assert Upto(i + 1)[..i] == Upto(i);
    assert i in t.seen && b < |t.out| && out[a] == t.out[a];
    AllEmittedAreSeen(g, Upto(i + 1), NOTHING);
    AllSeenArePulled(g, Upto(i + 1), NOTHING);
    assert Pulled(g, out[a]);
    n :| 0 <= n < |g| && g[n].followed && out[a] in g[n].refs;
  }

  // ------------------------------------------------------------------------------------
  // Items that are not followed
  // ------------------------------------------------------------------------------------

  /** The same items, all of them followed. */
  function Followed(g: seq<Node>): seq<Node> {
    Map((n: Node) => Node(n.refs, true), g)
  }

  /** All references of the item at position `i`, followed or not, come before it. */
  ghost predicate AfterAll(g: seq<Node>, out: seq<nat>, i: nat)
    requires i < |out| && AllBelow(out, |g|)
  {
    forall d :: d in g[out[i]].refs ==> d in out[..i]
  }

  ghost predicate InOrderFrom(g: seq<Node>, out: seq<nat>, lo: nat) {
    AllBelow(out, |g|) && forall i :: lo <= i < |out| ==> AfterAll(g, out, i)
  }

  predicate OutSeen(t: Topo) {
    forall i :: 0 <= i < |t.out| ==> t.out[i] in t.seen
  }

  lemma PrefixInOrder(g: seq<Node>, a: seq<nat>, b: seq<nat>, lo: nat)
    requires a <= b && InOrderFrom(g, b, lo)
    ensures InOrderFrom(g, a, lo)
  {
    forall i | lo <= i < |a| ensures AllBelow(a, |g|) && AfterAll(g, a, i) {
      assert AfterAll(g, b, i) && b[..i] == a[..i] && b[i] == a[i];
    }
  }

  /** Where everything comes out after all it refers to, following more items changes nothing. */
  lemma {:induction false} CollectSame(g: seq<Node>, n: nat, t: Topo)
    requires Closed(g) && Closed(Followed(g)) && n < |g| && OutSeen(t)
    requires InOrderFrom(g, Collect(g, n, t).out, |t.out|)
    ensures Collect(Followed(g), n, t) == Collect(g, n, t) && OutSeen(Collect(g, n, t))
    decreases Nodes(g) - t.seen, 0
  {
    if n !in t.seen {
      var marked := Topo(t.seen + {n}, t.out);
      if g[n].followed {
        var after := CollectAll(g, g[n].refs, marked);
        AllAddUnseen(g, g[n].refs, marked);
        PrefixInOrder(g, after.out, after.out + [n], |t.out|);
        CollectAllSame(g, g[n].refs, marked);
      } else {
        var out := t.out + [n];
        assert AfterAll(g, out, |t.out|) && out[..|t.out|] == t.out;
        forall j | 0 <= j < |g[n].refs| ensures g[n].refs[j] in marked.seen { assert g[n].refs[j] in t.out; }
        AllSeenAlready(Followed(g), g[n].refs, marked);
      }
    }
  }

  lemma {:induction false} CollectAllSame(g: seq<Node>, ns: seq<nat>, t: Topo)
    requires Closed(g) && Closed(Followed(g)) && AllBelow(ns, |g|) && OutSeen(t)
    requires InOrderFrom(g, CollectAll(g, ns, t).out, |t.out|)
    ensures CollectAll(Followed(g), ns, t) == CollectAll(g, ns, t) && OutSeen(CollectAll(g, ns, t))
    decreases Nodes(g) - t.seen, 1, |ns|
  {
    if ns != [] {
      var k := |ns| - 1;
      var mid := CollectAll(g, ns[..k], t);
      AllAddUnseen(g, ns[..k], t);
      AddsUnseen(g, ns[k], mid);
      PrefixInOrder(g, mid.out, CollectAll(g, ns, t).out, |t.out|);
      CollectAllSame(g, ns[..k], t);
      CollectSame(g, ns[k], mid);
    }
  }

  /** When no chain of references returns to its start, every item, types included, comes after
      all it refers to if and only if following the types' references too would not change the
      order. */
  lemma TypesWaitExactlyWhen(g: seq<Node>, rank: seq<nat>)
    requires Closed(g) && Acyclic(Followed(g), rank)
    ensures InOrderFrom(g, EmissionOrder(g), 0) <==> EmissionOrder(g) == EmissionOrder(Followed(g))
  {
    DependenciesComeFirst(Followed(g), rank);
    if EmissionOrder(g) == EmissionOrder(Followed(g)) {
      var out := EmissionOrder(g);
      forall i | 0 <= i < |out| ensures AfterAll(g, out, i) { assert AfterItsRefs(Followed(g), out, i); }
    }
    if InOrderFrom(g, EmissionOrder(g), 0) { CollectAllSame(g, Upto(|g|), NOTHING); }
  }

  /** What can be checked beforehand: it suffices that every reference, those of types included,
      points back. */
  lemma BackwardReferencesSuffice(g: seq<Node>)
    requires Closed(g) && forall n :: 0 <= n < |g| ==> AllBelow(g[n].refs, n)
    ensures InOrderFrom(g, EmissionOrder(g), 0) && EmissionOrder(g) == Upto(|g|)
  {
    assert forall n :: 0 <= n < |g| ==> PointsBack(g, n);
    StructuralOrderIsKept(g);
    forall i | 0 <= i < |g| ensures AfterAll(g, Upto(|g|), i) {
      forall d | d in g[i].refs ensures d in Upto(|g|)[..i] { assert Upto(|g|)[..i][d] == d; }
    }
  }

  /** Types are not followed: a type added behind the types it mentions, and referred to by an
      item ahead of those, is emitted before them. */
  lemma TypesDoNotWait()
    ensures var g := [Node([2], true), Node([], false), Node([1], false)];
            Closed(g) && EmissionOrder(g) == [2, 0, 1]
  {
    var g := [Node([2], true), Node([], false), Node([1], false)];
    assert Upto(3)[..2] == Upto(2) && Upto(2)[..1] == Upto(1) && Upto(1)[..0] == [];
    var pulled := Topo({0} + {2}, [] + [2]);
    assert CollectAll(g, [2], Topo({0}, [])) == pulled by { assert [2][..0] == []; }
    var first := Topo(pulled.seen, pulled.out + [0]);
    assert CollectAll(g, Upto(1), NOTHING) == first;
    var second := Topo(first.seen + {1}, first.out + [1]);
    assert CollectAll(g, Upto(2), NOTHING) == second;
    assert CollectAll(g, Upto(3), NOTHING) == second;
  }

  // ------------------------------------------------------------------------------------
  // Inside a type body
  // ------------------------------------------------------------------------------------

  /** The declarations of a body: `refs[i]` are those the `i`-th reports for its own body; a
      nested type definition reports none. What it refers to is pulled ahead of it, but not what
      those refer to in turn. */
  function PullAhead(ds: seq<nat>, t: Topo): Topo {
    if ds == [] then t
    else
      var k := |ds| - 1;
      var mid := PullAhead(ds[..k], t);
      if ds[k] in mid.seen then mid else Topo(mid.seen + {ds[k]}, mid.out + [ds[k]])
  }

  function CollectSubitem(refs: seq<seq<nat>>, i: nat, t: Topo): Topo
    requires i < |refs|
  {
    if i in t.seen then t
    else
      var after := PullAhead(refs[i], Topo(t.seen + {i}, t.out));
      Topo(after.seen, after.out + [i])
  }

  function CollectBody(refs: seq<seq<nat>>, n: nat): Topo
    requires n <= |refs|
  {
    if n == 0 then NOTHING else CollectSubitem(refs, n - 1, CollectBody(refs, n - 1))
  }

  /** The loop over a body's declarations. */
  method VisitBody(refs: seq<seq<nat>>) returns (order: seq<nat>)
    ensures order == CollectBody(refs, |refs|).out
  {
    var seen: set<nat> := {};
    order := [];
    for i := 0 to |refs|
      invariant Topo(seen, order) == CollectBody(refs, i)
    {
      if i !in seen {
        seen := seen + {i};
        ghost var start := Topo(seen, order);
        for j := 0 to |refs[i]|
          invariant Topo(seen, order) == PullAhead(refs[i][..j], start)
        {
          assert refs[i][..j + 1][..j] == refs[i][..j];
          if refs[i][j] !in seen { seen, order := seen + {refs[i][j]}, order + [refs[i][j]]; }
        }
        assert refs[i][..|refs[i]|] == refs[i];
        order := order + [i];
      }
    }
  }

  /** What has been emitted for a body: each declaration at most once, and all that were seen. */
  ghost predicate OnceEach(t: Topo, bound: nat) {
    && Distinct(t.out) && AllBelow(t.out, bound)
    && forall x: nat :: x in t.seen <==> x in t.out
  }

  lemma {:induction false} PullsOnce(ds: seq<nat>, t: Topo, i: nat, bound: nat)
    requires AllBelow(ds, bound) && Distinct(t.out) && AllBelow(t.out, bound) && i !in t.out
    requires forall x: nat :: x in t.seen <==> x in t.out || x == i
    ensures var r := PullAhead(ds, t);
            Distinct(r.out) && AllBelow(r.out, bound) && i !in r.out && t.out <= r.out
            && forall x: nat :: x in r.seen <==> x in r.out || x == i
  {
    if ds != [] { PullsOnce(ds[..|ds| - 1], t, i, bound); }
  }

  lemma {:induction false} BodyOnce(refs: seq<seq<nat>>, n: nat)
    requires n <= |refs| && forall i :: 0 <= i < |refs| ==> AllBelow(refs[i], |refs|)
    ensures OnceEach(CollectBody(refs, n), |refs|)
    ensures forall i: nat :: i < n ==> i in CollectBody(refs, n).out
  {
    if n > 0 {
      BodyOnce(refs, n - 1);
      var before := CollectBody(refs, n - 1);
      SubitemOnce(refs, n - 1, before);
      forall i: nat | i < n ensures i in CollectBody(refs, n).out {
        if i < n - 1 { assert i in before.out; }
      }
    }
  }

  lemma SubitemOnce(refs: seq<seq<nat>>, i: nat, t: Topo)
    requires i < |refs| && OnceEach(t, |refs|) && AllBelow(refs[i], |refs|)
    ensures var r := CollectSubitem(refs, i, t); OnceEach(r, |refs|) && t.out <= r.out && i in r.out
  {
    if i !in t.seen { PullsOnce(refs[i], Topo(t.seen + {i}, t.out), i, |refs|); }
  }

  /** Every declaration of a body is emitted exactly once. */
  lemma BodyIsPermuted(refs: seq<seq<nat>>)
    requires forall i :: 0 <= i < |refs| ==> AllBelow(refs[i], |refs|)
    ensures var out := CollectBody(refs, |refs|).out; |out| == |refs| && IsPermutation(out)
  {
    BodyOnce(refs, |refs|);
    PigeonHole(CollectBody(refs, |refs|).out, |refs|);
    AllListed(CollectBody(refs, |refs|).out, |refs|);
  }

  lemma {:induction false} NoneToPull(ds: seq<nat>, t: Topo)
    requires forall j :: 0 <= j < |ds| ==> ds[j] in t.seen
    ensures PullAhead(ds, t) == t
  {
    if ds != [] { NoneToPull(ds[..|ds| - 1], t); }
  }

  lemma {:induction false} PullsUnseen(ds: seq<nat>, t: Topo)
    ensures var r := PullAhead(ds, t);
            t.seen <= r.seen && t.out <= r.out
            && (forall i :: |t.out| <= i < |r.out| ==> r.out[i] !in t.seen)
            && (forall j :: 0 <= j < |ds| ==> ds[j] in r.seen)
            && (r.out == t.out ==> r.seen == t.seen)
  {
    if ds != [] {
      PullsUnseen(ds[..|ds| - 1], t);
      assert forall j :: 0 <= j < |ds| - 1 ==> ds[..|ds| - 1][j] == ds[j];
    }
  }

  lemma {:induction false} BodyPrefix(refs: seq<seq<nat>>, k: nat)
    requires k <= |refs| && forall i :: 0 <= i < k ==> AllBelow(refs[i], i + 1)
    ensures CollectBody(refs, k) == Topo(BelowN(k), Upto(k))
  {
    if k == 0 {
      assert Upto(0) == [];
    } else {
      BodyPrefix(refs, k - 1);
      assert AllBelow(refs[k - 1], k);
      NoneToPull(refs[k - 1], Topo(BelowN(k - 1) + {k - 1}, Upto(k - 1)));
      assert Upto(k) == Upto(k - 1) + [k - 1];
    }
  }

  lemma {:induction false} BodyExtends(refs: seq<seq<nat>>, k: nat, m: nat)
    requires k <= m <= |refs|
    ensures CollectBody(refs, k).out <= CollectBody(refs, m).out
    decreases m
  {
    if k < m {
      BodyExtends(refs, k, m - 1);
      var mid := CollectBody(refs, m - 1);
      PullsUnseen(refs[m - 1], Topo(mid.seen + {m - 1}, mid.out));
    }
  }

  /** A body keeps its order of declarations exactly when none refers to a later one. */
  lemma BodiesKeepTheirOrder(refs: seq<seq<nat>>)
    ensures CollectBody(refs, |refs|).out == Upto(|refs|) <==> forall i :: 0 <= i < |refs| ==> AllBelow(refs[i], i + 1)
  {
    if forall i :: 0 <= i < |refs| ==> AllBelow(refs[i], i + 1) {
      BodyPrefix(refs, |refs|);
    } else {
      ForwardMoves(refs, FirstForwardDecl(refs, 0));
    }
  }

  lemma ForwardMoves(refs: seq<seq<nat>>, k: nat)
    requires k < |refs| && !AllBelow(refs[k], k + 1) && forall i :: 0 <= i < k ==> AllBelow(refs[i], i + 1)
    ensures CollectBody(refs, |refs|).out != Upto(|refs|)
  {
    PulledFirst(refs, k);
    BodyExtends(refs, k + 1, |refs|);
    assert CollectBody(refs, |refs|).out[k] == CollectBody(refs, k + 1).out[k] != k;
  }

  lemma PulledFirst(refs: seq<seq<nat>>, k: nat)
    requires k < |refs| && !AllBelow(refs[k], k + 1) && forall i :: 0 <= i < k ==> AllBelow(refs[i], i + 1)
    ensures |CollectBody(refs, k + 1).out| > k && CollectBody(refs, k + 1).out[k] != k
  {
    BodyPrefix(refs, k);
    var marked := Topo(BelowN(k) + {k}, Upto(k));
    var j :| 0 <= j < |refs[k]| && refs[k][j] > k;
    PullsUnseen(refs[k], marked);
    var after := PullAhead(refs[k], marked);
    assert refs[k][j] !in marked.seen && |after.out| > k;
    assert after.out[k] !in marked.seen;
    assert CollectBody(refs, k + 1).out == after.out + [k];
  }

  ghost function FirstForwardDecl(refs: seq<seq<nat>>, from: nat): (k: nat)
    requires exists i :: 0 <= i < |refs| && !AllBelow(refs[i], i + 1)
    requires from <= |refs| && forall i :: 0 <= i < from ==> AllBelow(refs[i], i + 1)
    ensures k < |refs| && !AllBelow(refs[k], k + 1) && forall i :: 0 <= i < k ==> AllBelow(refs[i], i + 1)
    decreases |refs| - from
  {
    if !AllBelow(refs[from], from + 1) then from else FirstForwardDecl(refs, from + 1)
  }
}
