/** Collecting nested components: an item of a nested component may refer to one of a component
    around it, which is then collected on the spot, among the events of the nested one, unless it
    was seen before. This says exactly when that never happens. */
module Nesting {
  import opened Prelude
  import opened Topological

  /** Which component, 0 being the item's own, and which of its items. */
  datatype Ref = Ref(depth: nat, pos: nat)

  datatype Tree = Tree(items: seq<Part>)

  datatype Part = Item(refs: seq<Ref>, followed: bool) | Component(inner: Tree)

  // ------------------------------------------------------------------------------------
  // The collection
  // ------------------------------------------------------------------------------------

  /** An item, with what was collected between entering and leaving it if it is a component. */
  datatype Visit = Visit(pos: nat, inside: seq<Visit>)

  datatype Progress = Progress(seen: set<nat>, out: seq<Visit>)

  /** The item an outer reference names was seen; `outer` are the items seen in the components
      around. */
  predicate SeenOutside(r: Ref, outer: seq<set<nat>>) {
    0 < r.depth <= |outer| && r.pos in outer[|outer| - r.depth]
  }

  /** Collects one item; nothing where an item of a component around would be collected here, or
      where there is no such item. */
  function CollectItem(tr: Tree, i: nat, outer: seq<set<nat>>, t: Progress): (r: Option<Progress>)
    requires Closed(GraphOf(tr)) && TreesClosed(tr) && i < |tr.items|
    ensures r.Some? ==> t.seen + {i} <= r.value.seen
    decreases tr, BelowN(|tr.items|) - t.seen, 0
  {
    if i in t.seen then Some(t)
    else
      var marked := Progress(t.seen + {i}, t.out);
      match tr.items[i]
      case Item(refs, followed) =>
        var after := if followed then CollectRefs(tr, i, |refs|, outer, marked) else Some(marked);
        if after.None? then None else Some(Progress(after.value.seen, after.value.out + [Visit(i, [])]))
      case Component(inner) =>
        var inside := CollectEach(inner, |inner.items|, outer + [marked.seen]);
        if inside.None? then None else Some(Progress(marked.seen, marked.out + [Visit(i, inside.value.out)]))
  }

  /** The first `k` references of item `i`. */
  function CollectRefs(tr: Tree, i: nat, k: nat, outer: seq<set<nat>>, t: Progress): (r: Option<Progress>)
    requires Closed(GraphOf(tr)) && TreesClosed(tr) && i < |tr.items|
    requires tr.items[i].Item? && tr.items[i].followed && k <= |tr.items[i].refs|
    ensures r.Some? ==> t.seen <= r.value.seen
    decreases tr, BelowN(|tr.items|) - t.seen, 1, k
  {
    if k == 0 then Some(t)
    else
      var mid := CollectRefs(tr, i, k - 1, outer, t);
      var r := tr.items[i].refs[k - 1];
      if mid.None? then None
      else if r.depth > 0 then if SeenOutside(r, outer) then mid else None
      else OwnRefsBelow(tr, i, k - 1); CollectItem(tr, r.pos, outer, mid.value)
  }

  /** The first `n` items of a component, from nothing. */
  function CollectEach(tr: Tree, n: nat, outer: seq<set<nat>>): Option<Progress>
    requires Closed(GraphOf(tr)) && TreesClosed(tr) && n <= |tr.items|
    decreases tr, BelowN(|tr.items|), 2, n
  {
    if n == 0 then Some(Progress({}, []))
    else
      var mid := CollectEach(tr, n - 1, outer);
      if mid.None? then None else CollectItem(tr, n - 1, outer, mid.value)
  }

  // ------------------------------------------------------------------------------------
  // A component by itself
  // ------------------------------------------------------------------------------------

  function OwnRefs(refs: seq<Ref>): seq<nat> {
    if refs == [] then []
    else
      var r := refs[|refs| - 1];
      OwnRefs(refs[..|refs| - 1]) + (if r.depth == 0 then [r.pos] else [])
  }

  /** Its items as they refer to one another; a nested component is one item. */
  function NodeOf(p: Part): Node {
    match p
    case Item(refs, followed) => Node(OwnRefs(refs), followed)
    case Component(_) => Node([], false)
  }

  function GraphOf(tr: Tree): (g: seq<Node>)
    ensures |g| == |tr.items|
    ensures forall i :: 0 <= i < |g| ==> g[i] == NodeOf(tr.items[i])
  {
    Map(NodeOf, tr.items)
  }

  predicate TreesClosed(tr: Tree)
    decreases tr
  {
    forall i :: 0 <= i < |tr.items| && tr.items[i].Component? ==>
      Closed(GraphOf(tr.items[i].inner)) && TreesClosed(tr.items[i].inner)
  }

  lemma {:induction false} OwnRefsMembers(refs: seq<Ref>, k: nat)
    requires k < |refs| && refs[k].depth == 0
    ensures refs[k].pos in OwnRefs(refs)
  {
    var n := |refs| - 1;
    if k < n { OwnRefsMembers(refs[..n], k); }
  }

  lemma OwnRefsBelow(tr: Tree, i: nat, k: nat)
    requires Closed(GraphOf(tr)) && i < |tr.items| && tr.items[i].Item? && k < |tr.items[i].refs|
    ensures tr.items[i].refs[k].depth == 0 ==> tr.items[i].refs[k].pos < |tr.items|
  {
    if tr.items[i].refs[k].depth == 0 {
      OwnRefsMembers(tr.items[i].refs, k);
      assert AllBelow(GraphOf(tr)[i].refs, |tr.items|);
    }
  }

  /** An item whose collection begins, with what had been seen by then. */
  datatype Start = Start(pos: nat, seen: set<nat>)

  function StartsAt(g: seq<Node>, n: nat, t: Topo): seq<Start>
    requires Closed(g) && n < |g|
    decreases Nodes(g) - t.seen, 0
  {
    if n in t.seen then []
    else
      var marked := Topo(t.seen + {n}, t.out);
      [Start(n, marked.seen)] + (if g[n].followed then StartsAll(g, g[n].refs, marked) else [])
  }

  function StartsAll(g: seq<Node>, ns: seq<nat>, t: Topo): seq<Start>
    requires Closed(g) && AllBelow(ns, |g|)
    decreases Nodes(g) - t.seen, 1, |ns|
  {
    if ns == [] then []
    else
      var k := |ns| - 1;
      StartsAll(g, ns[..k], t) + StartsAt(g, ns[k], CollectAll(g, ns[..k], t))
  }

  /** The beginnings of all items of a component, collected by itself. */
  function Starts(tr: Tree): seq<Start>
    requires Closed(GraphOf(tr))
  {
    StartsAll(GraphOf(tr), Upto(|tr.items|), NOTHING)
  }

  /** Whatever the followed items refer to outside was seen before this component began, and the
      same holds for the components nested in it. */
  predicate Fine(tr: Tree, outer: seq<set<nat>>)
    requires Closed(GraphOf(tr)) && TreesClosed(tr)
    decreases tr, 2
  {
    AllFine(tr, Starts(tr), outer)
  }

  predicate AllFine(tr: Tree, starts: seq<Start>, outer: seq<set<nat>>)
    requires Closed(GraphOf(tr)) && TreesClosed(tr)
    decreases tr, 1
  {
    forall s :: s in starts ==> StartFine(tr, s, outer)
  }

  predicate StartFine(tr: Tree, s: Start, outer: seq<set<nat>>)
    requires Closed(GraphOf(tr)) && TreesClosed(tr)
    decreases tr, 0
  {
    s.pos < |tr.items| ==>
      match tr.items[s.pos]
      case Item(refs, followed) => followed ==> OuterSeen(refs, outer)
      case Component(inner) => Fine(inner, outer + [s.seen])
  }

  predicate OuterSeen(refs: seq<Ref>, outer: seq<set<nat>>) {
    forall r :: r in refs && r.depth > 0 ==> SeenOutside(r, outer)
  }

  /** Every component visited in the order of its own items. */
  function Alone(tr: Tree): seq<Visit>
    requires Closed(GraphOf(tr)) && TreesClosed(tr)
    decreases tr, 1
  {
    Shown(tr, EmissionOrder(GraphOf(tr)))
  }

  function Shown(tr: Tree, order: seq<nat>): seq<Visit>
    requires Closed(GraphOf(tr)) && TreesClosed(tr)
    decreases tr, 0, |order|
  {
    if order == [] then []
    else
      var i := order[|order| - 1];
      Shown(tr, order[..|order| - 1])
      + [Visit(i, if i < |tr.items| && tr.items[i].Component? then Alone(tr.items[i].inner) else [])]
  }

  /** The collection stands where the component's own does. */
  predicate Matches(tr: Tree, t: Progress, u: Topo)
    requires Closed(GraphOf(tr)) && TreesClosed(tr)
  {
    t.seen == u.seen && t.out == Shown(tr, u.out)
  }

  /** It got this far exactly when all that began was fine, and then stands where the component's
      own does. */
  predicate Agrees(tr: Tree, r: Option<Progress>, u: Topo, starts: seq<Start>, outer: seq<set<nat>>)
    requires Closed(GraphOf(tr)) && TreesClosed(tr)
  {
    && (r.Some? ==> AllFine(tr, starts, outer) && Matches(tr, r.value, u))
    && (AllFine(tr, starts, outer) ==> r.Some?)
  }

  lemma ShownMore(tr: Tree, order: seq<nat>, i: nat)
    requires Closed(GraphOf(tr)) && TreesClosed(tr)
    ensures Shown(tr, order + [i])
         == Shown(tr, order)
            + [Visit(i, if i < |tr.items| && tr.items[i].Component? then Alone(tr.items[i].inner) else [])]
  {
    assert (order + [i])[..|order|] == order;
  }

  lemma FineTogether(tr: Tree, a: seq<Start>, b: seq<Start>, outer: seq<set<nat>>)
    requires Closed(GraphOf(tr)) && TreesClosed(tr)
    ensures AllFine(tr, a + b, outer) ==> AllFine(tr, a, outer) && AllFine(tr, b, outer)
    ensures AllFine(tr, a + b, outer) <== AllFine(tr, a, outer) && AllFine(tr, b, outer)
  {
    if AllFine(tr, a + b, outer) {
      forall s | s in a || s in b ensures StartFine(tr, s, outer) { assert s in a + b; }
    }
  }

  /** One more step, taken only if those before succeeded. */
  lemma OneStepMore(tr: Tree, mid: Option<Progress>, after: Option<Progress>, u: Topo, v: Topo, a: seq<Start>,
                    b: seq<Start>, outer: seq<set<nat>>)
    requires Closed(GraphOf(tr)) && TreesClosed(tr)
    requires Agrees(tr, mid, u, a, outer) && (mid.None? ==> after.None?)
    requires mid.Some? ==> Agrees(tr, after, v, b, outer)
    ensures Agrees(tr, after, v, a + b, outer)
  {
    FineTogether(tr, a, b, outer);
  }

  lemma {:induction false} ItemAgrees(tr: Tree, i: nat, outer: seq<set<nat>>, t: Progress, u: Topo)
    requires Closed(GraphOf(tr)) && TreesClosed(tr) && i < |tr.items| && Matches(tr, t, u)
    ensures Agrees(tr, CollectItem(tr, i, outer, t), Collect(GraphOf(tr), i, u), StartsAt(GraphOf(tr), i, u), outer)
    decreases tr, BelowN(|tr.items|) - t.seen, 0
  {
    if i !in t.seen {
      var marked, own := Progress(t.seen + {i}, t.out), Topo(u.seen + {i}, u.out);
      match tr.items[i] {
        case Item(refs, followed) =>
          if followed {
            RefsAgree(tr, i, |refs|, outer, marked, own);
            FollowedItem(tr, i, outer, t, u);
          } else {
            SingleStart(tr, Start(i, own.seen), outer);
            ShownMore(tr, own.out, i);
          }
        case Component(inner) =>
          EachAgrees(inner, |inner.items|, outer + [marked.seen]);
          NestedItem(tr, i, outer, t, u);
      }
    }
  }

  lemma SingleStart(tr: Tree, s: Start, outer: seq<set<nat>>)
    requires Closed(GraphOf(tr)) && TreesClosed(tr)
    ensures AllFine(tr, [s], outer) ==> StartFine(tr, s, outer)
    ensures AllFine(tr, [s], outer) <== StartFine(tr, s, outer)
  {
    assert s in [s];
  }

  /** A nested component, given its own collection. */
  lemma NestedItem(tr: Tree, i: nat, outer: seq<set<nat>>, t: Progress, u: Topo)
    requires Closed(GraphOf(tr)) && TreesClosed(tr) && i < |tr.items| && Matches(tr, t, u)
    requires i !in t.seen && tr.items[i].Component?
    requires var inner := tr.items[i].inner;
             Agrees(inner, CollectEach(inner, |inner.items|, outer + [t.seen + {i}]),
                    CollectAll(GraphOf(inner), Upto(|inner.items|), NOTHING), Starts(inner), outer + [t.seen + {i}])
    ensures Agrees(tr, CollectItem(tr, i, outer, t), Collect(GraphOf(tr), i, u), StartsAt(GraphOf(tr), i, u), outer)
  {
    var own := Topo(u.seen + {i}, u.out);
    assert StartsAt(GraphOf(tr), i, u) == [Start(i, own.seen)];
    SingleStart(tr, Start(i, own.seen), outer);
    ShownMore(tr, own.out, i);
  }

  /** What the first `k` references of item `i` come to. */
  ghost predicate RefsCollected(tr: Tree, i: nat, k: nat, outer: seq<set<nat>>, r: Option<Progress>, u: Topo)
    requires Closed(GraphOf(tr)) && TreesClosed(tr) && i < |tr.items|
    requires tr.items[i].Item? && tr.items[i].followed && k <= |tr.items[i].refs|
  {
    var refs := tr.items[i].refs[..k];
    OwnBelow(tr, i, k);
    && (r.Some? ==> OuterSeen(refs, outer) && AllFine(tr, StartsAll(GraphOf(tr), OwnRefs(refs), u), outer)
                    && Matches(tr, r.value, CollectAll(GraphOf(tr), OwnRefs(refs), u)))
    && (OuterSeen(refs, outer) && AllFine(tr, StartsAll(GraphOf(tr), OwnRefs(refs), u), outer) ==> r.Some?)
  }

  lemma {:induction false} OwnPrefix(refs: seq<Ref>, k: nat)
    requires k <= |refs|
    ensures OwnRefs(refs[..k]) <= OwnRefs(refs)
  {
    if k == |refs| {
      assert refs[..k] == refs;
    } else {
      var n := |refs| - 1;
      assert refs[..n][..k] == refs[..k];
      OwnPrefix(refs[..n], k);
    }
  }

  lemma OwnBelow(tr: Tree, i: nat, k: nat)
    requires Closed(GraphOf(tr)) && i < |tr.items| && tr.items[i].Item? && k <= |tr.items[i].refs|
    ensures AllBelow(OwnRefs(tr.items[i].refs[..k]), |tr.items|)
  {
    OwnPrefix(tr.items[i].refs, k);
    assert AllBelow(GraphOf(tr)[i].refs, |tr.items|);
  }

  lemma OwnSnoc(refs: seq<Ref>, k: nat)
    requires k < |refs|
    ensures OwnRefs(refs[..k + 1]) == OwnRefs(refs[..k]) + (if refs[k].depth == 0 then [refs[k].pos] else [])
  {
    assert refs[..k + 1][..k] == refs[..k];
  }

  lemma OuterSnoc(refs: seq<Ref>, k: nat, outer: seq<set<nat>>)
    requires k < |refs|
    ensures OuterSeen(refs[..k + 1], outer)
        ==> OuterSeen(refs[..k], outer) && (refs[k].depth > 0 ==> SeenOutside(refs[k], outer))
    ensures OuterSeen(refs[..k + 1], outer)
        <== OuterSeen(refs[..k], outer) && (refs[k].depth > 0 ==> SeenOutside(refs[k], outer))
  {
    assert refs[..k + 1] == refs[..k] + [refs[k]];
    assert refs[k] in refs[..k + 1];
  }

  lemma SeenGrows(all: set<nat>, before: set<nat>, after: set<nat>)
    requires before <= after
    ensures all - after <= all - before
  {
  }

  lemma NoRefs(tr: Tree, i: nat, outer: seq<set<nat>>, t: Progress, u: Topo)
    requires Closed(GraphOf(tr)) && TreesClosed(tr) && i < |tr.items| && Matches(tr, t, u)
    requires tr.items[i].Item? && tr.items[i].followed
    ensures RefsCollected(tr, i, 0, outer, Some(t), u)
  {
    assert tr.items[i].refs[..0] == [];
  }

  lemma {:induction false} RefsAgree(tr: Tree, i: nat, k: nat, outer: seq<set<nat>>, t: Progress, u: Topo)
    requires Closed(GraphOf(tr)) && TreesClosed(tr) && i < |tr.items| && Matches(tr, t, u)
    requires tr.items[i].Item? && tr.items[i].followed && k <= |tr.items[i].refs|
    ensures RefsCollected(tr, i, k, outer, CollectRefs(tr, i, k, outer, t), u)
    decreases tr, BelowN(|tr.items|) - t.seen, 1, k
  {
    var refs := tr.items[i].refs;
    if k == 0 {
      NoRefs(tr, i, outer, t, u);
    } else {
      RefsAgree(tr, i, k - 1, outer, t, u);
      OwnBelow(tr, i, k - 1);
      var mid := CollectRefs(tr, i, k - 1, outer, t);
      if mid.Some? && refs[k - 1].depth == 0 {
        OwnRefsBelow(tr, i, k - 1);
        SeenGrows(BelowN(|tr.items|), t.seen, mid.value.seen);
        ItemAgrees(tr, refs[k - 1].pos, outer, mid.value, CollectAll(GraphOf(tr), OwnRefs(refs[..k - 1]), u));
      }
      OneRefMore(tr, i, k, outer, t, u, CollectAll(GraphOf(tr), OwnRefs(refs[..k - 1]), u));
    }
  }

  lemma OneRefMore(tr: Tree, i: nat, k: nat, outer: seq<set<nat>>, t: Progress, u: Topo, v: Topo)
    requires Closed(GraphOf(tr)) && TreesClosed(tr) && i < |tr.items| && Matches(tr, t, u)
    requires tr.items[i].Item? && tr.items[i].followed && 0 < k <= |tr.items[i].refs|
    requires AllBelow(OwnRefs(tr.items[i].refs[..k - 1]), |tr.items|)
    requires v == CollectAll(GraphOf(tr), OwnRefs(tr.items[i].refs[..k - 1]), u)
    requires var mid := CollectRefs(tr, i, k - 1, outer, t);
             var r := tr.items[i].refs[k - 1];
             && RefsCollected(tr, i, k - 1, outer, mid, u)
             && (mid.Some? && r.depth == 0 ==>
                   && r.pos < |tr.items|
                   && Agrees(tr, CollectItem(tr, r.pos, outer, mid.value), Collect(GraphOf(tr), r.pos, v),
                             StartsAt(GraphOf(tr), r.pos, v), outer))
    ensures RefsCollected(tr, i, k, outer, CollectRefs(tr, i, k, outer, t), u)
  {
    var refs, g := tr.items[i].refs, GraphOf(tr);
    OwnBelow(tr, i, k - 1);
    OwnSnoc(refs, k - 1);
    OuterSnoc(refs, k - 1, outer);
    var own := OwnRefs(refs[..k - 1]);
    if refs[k - 1].depth == 0 {
      OwnRefsBelow(tr, i, k - 1);
      StartsSnoc(g, own, refs[k - 1].pos, u);
      FineTogether(tr, StartsAll(g, own, u), StartsAt(g, refs[k - 1].pos, v), outer);
    } else {
      assert OwnRefs(refs[..k]) == own;
    }
  }

  lemma StartsSnoc(g: seq<Node>, ns: seq<nat>, n: nat, u: Topo)
    requires Closed(g) && AllBelow(ns, |g|) && n < |g|
    ensures AllBelow(ns + [n], |g|)
    ensures StartsAll(g, ns + [n], u) == StartsAll(g, ns, u) + StartsAt(g, n, CollectAll(g, ns, u))
    ensures CollectAll(g, ns + [n], u) == Collect(g, n, CollectAll(g, ns, u))
  {
    assert (ns + [n])[..|ns|] == ns;
  }

  /** An item whose references are followed, given their collection. */
  lemma FollowedItem(tr: Tree, i: nat, outer: seq<set<nat>>, t: Progress, u: Topo)
    requires Closed(GraphOf(tr)) && TreesClosed(tr) && i < |tr.items| && Matches(tr, t, u)
    requires i !in t.seen && tr.items[i].Item? && tr.items[i].followed
    requires var k := |tr.items[i].refs|;
             RefsCollected(tr, i, k, outer, CollectRefs(tr, i, k, outer, Progress(t.seen + {i}, t.out)),
                           Topo(u.seen + {i}, u.out))
    ensures Agrees(tr, CollectItem(tr, i, outer, t), Collect(GraphOf(tr), i, u), StartsAt(GraphOf(tr), i, u), outer)
  {
    var refs, own := tr.items[i].refs, Topo(u.seen + {i}, u.out);
    assert refs[..|refs|] == refs;
    var begun, rest := [Start(i, own.seen)], StartsAll(GraphOf(tr), OwnRefs(refs), own);
    FineTogether(tr, begun, rest, outer);
    SingleStart(tr, begun[0], outer);
    ShownMore(tr, CollectAll(GraphOf(tr), OwnRefs(refs), own).out, i);
  }

  lemma {:induction false} EachAgrees(tr: Tree, n: nat, outer: seq<set<nat>>)
    requires Closed(GraphOf(tr)) && TreesClosed(tr) && n <= |tr.items|
    ensures Agrees(tr, CollectEach(tr, n, outer), CollectAll(GraphOf(tr), Upto(n), NOTHING),
                   StartsAll(GraphOf(tr), Upto(n), NOTHING), outer)
    decreases tr, BelowN(|tr.items|), 2, n
  {
    if n > 0 {
      var g := GraphOf(tr);
      EachAgrees(tr, n - 1, outer);
      var mid, u := CollectEach(tr, n - 1, outer), CollectAll(g, Upto(n - 1), NOTHING);
      if mid.Some? { ItemAgrees(tr, n - 1, outer, mid.value, u); }
      UptoSnoc(n - 1);
      StartsSnoc(g, Upto(n - 1), n - 1, NOTHING);
      OneStepMore(tr, mid, CollectEach(tr, n, outer), u, Collect(g, n - 1, u), StartsAll(g, Upto(n - 1), NOTHING),
                  StartsAt(g, n - 1, u), outer);
    }
  }

  // ------------------------------------------------------------------------------------
  // Main results
  // ------------------------------------------------------------------------------------

  /** No component has items of another among its events if and only if, for every item collected,
      whatever it refers to outside had been seen when the component it sits in was entered; each
      component is then visited in its own order, as if collected by itself. */
  lemma NoForeignItemsExactlyWhen(tr: Tree)
    requires Closed(GraphOf(tr)) && TreesClosed(tr)
    ensures CollectEach(tr, |tr.items|, []).Some? ==> Fine(tr, [])
    ensures CollectEach(tr, |tr.items|, []).Some? <== Fine(tr, [])
    ensures CollectEach(tr, |tr.items|, []).Some? ==> CollectEach(tr, |tr.items|, []).value.out == Alone(tr)
  {
    EachAgrees(tr, |tr.items|, []);
  }

  /** Every reference points back, an outer one to what comes before the component the item sits
      in; `above` are the positions of the components around. */
  predicate PointsBack(tr: Tree, above: seq<nat>)
    decreases tr
  {
    forall i :: 0 <= i < |tr.items| ==>
      match tr.items[i]
      case Item(refs, followed) =>
        forall r :: r in refs ==>
          if r.depth == 0 then r.pos < i else r.depth <= |above| && r.pos < above[|above| - r.depth]
      case Component(inner) => PointsBack(inner, above + [i])
  }

  lemma {:induction false} OwnPointsBack(refs: seq<Ref>, i: nat)
    requires forall r :: r in refs && r.depth == 0 ==> r.pos < i
    ensures AllBelow(OwnRefs(refs), i)
  {
    if refs != [] { OwnPointsBack(refs[..|refs| - 1], i); }
  }

  lemma GraphPointsBack(tr: Tree, above: seq<nat>)
    requires PointsBack(tr, above)
    ensures Closed(GraphOf(tr)) && forall n :: 0 <= n < |tr.items| ==> AllBelow(GraphOf(tr)[n].refs, n)
  {
    forall n | 0 <= n < |tr.items| ensures AllBelow(GraphOf(tr)[n].refs, n) {
      if tr.items[n].Item? { OwnPointsBack(tr.items[n].refs, n); }
    }
  }

  lemma {:induction false} AllTreesClosed(tr: Tree, above: seq<nat>)
    requires PointsBack(tr, above)
    ensures TreesClosed(tr)
    decreases tr
  {
    forall i | 0 <= i < |tr.items| && tr.items[i].Component?
      ensures Closed(GraphOf(tr.items[i].inner)) && TreesClosed(tr.items[i].inner)
    {
      GraphPointsBack(tr.items[i].inner, above + [i]);
      AllTreesClosed(tr.items[i].inner, above + [i]);
    }
  }

  lemma {:induction false} NothingStarts(g: seq<Node>, ns: seq<nat>, t: Topo)
    requires Closed(g) && AllBelow(ns, |g|) && forall j :: 0 <= j < |ns| ==> ns[j] in t.seen
    ensures StartsAll(g, ns, t) == [] && CollectAll(g, ns, t) == t
  {
    if ns != [] { NothingStarts(g, ns[..|ns| - 1], t); }
  }

  lemma OneStart(g: seq<Node>, n: nat)
    requires Closed(g) && 0 < n <= |g| && AllBelow(g[n - 1].refs, n - 1)
    ensures StartsAt(g, n - 1, Topo(BelowN(n - 1), Upto(n - 1))) == [Start(n - 1, BelowN(n))]
    ensures Collect(g, n - 1, Topo(BelowN(n - 1), Upto(n - 1))) == Topo(BelowN(n), Upto(n))
  {
    NothingStarts(g, g[n - 1].refs, Topo(BelowN(n - 1) + {n - 1}, Upto(n - 1)));
    UptoSnoc(n - 1);
  }

  predicate InStep(starts: seq<Start>, n: nat) {
    forall s :: s in starts ==> s.pos < n && s.seen == BelowN(s.pos + 1)
  }

  lemma InStepSnoc(starts: seq<Start>, n: nat)
    requires n > 0 && InStep(starts, n - 1)
    ensures InStep(starts + [Start(n - 1, BelowN(n))], n)
  {
  }

  /** Where all references point back, an item begins when just those before it have been seen. */
  lemma {:induction false} StartsInOrder(g: seq<Node>, n: nat)
    requires Closed(g) && n <= |g| && forall k :: 0 <= k < |g| ==> AllBelow(g[k].refs, k)
    ensures CollectAll(g, Upto(n), NOTHING) == Topo(BelowN(n), Upto(n))
    ensures InStep(StartsAll(g, Upto(n), NOTHING), n)
  {
    if n == 0 {
      assert Upto(0) == [];
    } else {
      StartsInOrder(g, n - 1);
      OneStart(g, n);
      UptoSnoc(n - 1);
      StartsSnoc(g, Upto(n - 1), n - 1, NOTHING);
      InStepSnoc(StartsAll(g, Upto(n - 1), NOTHING), n);
    }
  }

  /** What is seen outside covers everything before the components around. */
  predicate Covers(outer: seq<set<nat>>, above: seq<nat>) {
    |outer| == |above| && forall k :: 0 <= k < |outer| ==> BelowN(above[k]) <= outer[k]
  }

  lemma OuterCovered(refs: seq<Ref>, outer: seq<set<nat>>, above: seq<nat>)
    requires Covers(outer, above)
    requires forall r :: r in refs && r.depth > 0 ==> r.depth <= |above| && r.pos < above[|above| - r.depth]
    ensures OuterSeen(refs, outer)
  {
    forall r | r in refs && r.depth > 0 ensures SeenOutside(r, outer) {
      assert r.pos in BelowN(above[|above| - r.depth]);
    }
  }

  lemma {:induction false} PointingBackIsFine(tr: Tree, outer: seq<set<nat>>, above: seq<nat>)
    requires PointsBack(tr, above) && Covers(outer, above)
    ensures Closed(GraphOf(tr)) && TreesClosed(tr) && Fine(tr, outer)
    decreases tr
  {
    GraphPointsBack(tr, above);
    AllTreesClosed(tr, above);
    StartsInOrder(GraphOf(tr), |tr.items|);
    forall s | s in Starts(tr) ensures StartFine(tr, s, outer) {
      match tr.items[s.pos] {
        case Item(refs, _) => OuterCovered(refs, outer, above);
        case Component(inner) =>
          forall x: nat | x in BelowN(s.pos) ensures x in s.seen {}
          PointingBackIsFine(inner, outer + [s.seen], above + [s.pos]);
      }
    }
  }

  /** What parsing a valid component guarantees is enough: where nothing refers forward, no component
      has foreign items among its events. */
  lemma BackwardComponentsStayApart(tr: Tree)
    requires PointsBack(tr, [])
    ensures Closed(GraphOf(tr)) && TreesClosed(tr)
    ensures CollectEach(tr, |tr.items|, []).Some? && CollectEach(tr, |tr.items|, []).value.out == Alone(tr)
  {
    PointingBackIsFine(tr, [], []);
    NoForeignItemsExactlyWhen(tr);
  }

  /** A nested component with an alias of an outer item that was added only behind it. */
  const LATE := Tree([Component(Tree([Item([Ref(1, 1)], true)])), Item([], true)])

  /** The outer item is collected among the events of the nested component. */
  lemma LateItemIsPulledInside()
    ensures Closed(GraphOf(LATE)) && TreesClosed(LATE) && CollectEach(LATE, |LATE.items|, []) == None
  {
    var inner := LATE.items[0].inner;
    assert OwnRefs(inner.items[0].refs) == [] by { assert inner.items[0].refs[..0] == []; }
    assert Closed(GraphOf(inner)) && TreesClosed(inner);
    var start: Progress := Progress({}, []);
    var entered := [start.seen + {0}];
    assert !SeenOutside(inner.items[0].refs[0], entered);
    assert CollectRefs(inner, 0, 1, entered, Progress(start.seen + {0}, [])) == None;
    assert CollectEach(inner, 1, entered) == None;
    assert [] + entered == entered;
    assert CollectItem(LATE, 0, [], start) == None;
    assert CollectEach(LATE, 1, []) == None;
  }
}
