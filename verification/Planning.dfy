/** Deciding the order of the visits: the collection finds one for every component, cyclic ones
    included; it can be planned, and what is planned is what is visited, nested components as well. */
module Planning {
  import opened Prelude
  import opened Spaces
  import opened ActualIds
  import opened TypeTrees
  import opened Encoder
  import opened Components
  import opened Assignment
  import opened Reencoding
  import opened RoundTrip
  import Sections
  import opened Topological

  // ------------------------------------------------------------------------------------
  // The collection finds an order for every graph
  // ------------------------------------------------------------------------------------

  /** The items emitted so far are distinct, and seen. */
  ghost predicate Tidy(g: seq<Node>, t: Topo) {
    && Distinct(t.out) && AllBelow(t.out, |g|)
    && forall i :: 0 <= i < |t.out| ==> t.out[i] in t.seen
  }

  lemma {:induction false} CollectOnce(g: seq<Node>, n: nat, t: Topo)
    requires Closed(g) && n < |g| && Tidy(g, t)
    ensures var r := Collect(g, n, t); Tidy(g, r) && SamePending(t, r) && n in r.seen
    decreases Nodes(g) - t.seen, 0
  {
    if n !in t.seen {
      var marked := Topo(t.seen + {n}, t.out);
      var refs := if g[n].followed then g[n].refs else [];
      assert forall x: nat :: Pending(marked, x) <==> Pending(t, x) || x == n;
      CollectAllOnce(g, refs, marked);
      EmitOnce(g, n, t, marked, CollectAll(g, refs, marked));
    }
  }

  lemma EmitOnce(g: seq<Node>, n: nat, t: Topo, marked: Topo, after: Topo)
    requires n < |g| && n !in t.seen && marked == Topo(t.seen + {n}, t.out)
    requires Tidy(g, t) && Tidy(g, after) && SamePending(marked, after)
    ensures var r := Topo(after.seen, after.out + [n]); Tidy(g, r) && SamePending(t, r) && n in r.seen
  {
    var r := Topo(after.seen, after.out + [n]);
    assert Pending(marked, n) && Pending(after, n);
    forall x: nat ensures Pending(t, x) <==> Pending(r, x) {
      assert Pending(marked, x) <==> Pending(t, x) || x == n;
    }
  }

  lemma {:induction false} CollectAllOnce(g: seq<Node>, ns: seq<nat>, t: Topo)
    requires Closed(g) && AllBelow(ns, |g|) && Tidy(g, t)
    ensures var r := CollectAll(g, ns, t);
            Tidy(g, r) && SamePending(t, r) && forall i :: 0 <= i < |ns| ==> ns[i] in r.seen
    decreases Nodes(g) - t.seen, 1, |ns|
  {
    if ns != [] {
      var k := |ns| - 1;
      CollectAllOnce(g, ns[..k], t);
      CollectOnce(g, ns[k], CollectAll(g, ns[..k], t));
      forall i | 0 <= i < k ensures ns[i] in CollectAll(g, ns, t).seen { assert ns[..k][i] == ns[i]; }
    }
  }

  /** Whatever the references, cycles included, every item is emitted exactly once. */
  lemma EveryItemOnce(g: seq<Node>)
    requires Closed(g)
    ensures |EmissionOrder(g)| == |g| && IsPermutation(EmissionOrder(g)) && AllBelow(EmissionOrder(g), |g|)
  {
    var r := CollectAll(g, Upto(|g|), NOTHING);
    CollectAllOnce(g, Upto(|g|), NOTHING);
    forall n: nat | n < |g| ensures n in r.out {
      assert Upto(|g|)[n] == n;
      assert !Pending(NOTHING, n);
    }
    PigeonHole(r.out, |g|);
    AllListed(r.out, |g|);
  }

  // ------------------------------------------------------------------------------------
  // Plans
  // ------------------------------------------------------------------------------------

  /** The visits of a component in this order of its items. */
  function VisitsIn(c: Component, order: seq<nat>): (visits: Visiting)
    requires AllBelow(order, |Sections.Walk(c.runs)|)
    ensures Follows(c, visits, order)
  {
    seq(|order|, j requires 0 <= j < |order| => Sections.Walk(c.runs)[order[j]])
  }

  /** The plan that visits a component in the order the collection finds, whatever is planned for the
      components nested in it. */
  function TopologicalPlan(plan: Plan, c: Component): Plan
    requires Typed(c) && Resolved(ContentsOf(c))
  {
    var g := Reencoding.GraphOf(ContentsOf(c));
    EveryItemOnce(g);
    plan.(orders := plan.orders[[] := VisitsIn(c, EmissionOrder(g))])
  }

  /** It does so, and leaves the nested ones as they were planned. */
  lemma TopologicalPlanIsFollowed(plan: Plan, c: Component, inner: Component, path: Path)
    requires Typed(c) && Resolved(ContentsOf(c))
    ensures VisitedInOrder(TopologicalPlan(plan, c), c)
    ensures path != [] ==> VisitsOf(TopologicalPlan(plan, c), inner, path) == VisitsOf(plan, inner, path)
  {
    EveryItemOnce(Reencoding.GraphOf(ContentsOf(c)));
  }

  /** An order planned for a component, nested or not, is the one it is visited in; without one it is
      visited as its sections stand. */
  lemma PlannedOrderIsVisited(plan: Plan, c: Component, path: Path, order: seq<nat>)
    requires AllBelow(order, |Sections.Walk(c.runs)|)
    ensures Follows(c, VisitsOf(plan.(orders := plan.orders[path := VisitsIn(c, order)]), c, path), order)
    ensures Follows(c, VisitsOf(plan.(orders := plan.orders - {path}), c, path), Upto(|Sections.Walk(c.runs)|))
  {
  }
}
