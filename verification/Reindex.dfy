/** Re-indexing as a whole: items of nested scopes are emitted in some order, numbered as they
    go, and every reference is rewritten to the number its target got. */
module Reindex {
  import opened Prelude
  import opened Spaces
  import opened ActualIds
  import opened FixIndices

  /** The scope `depth` levels out from the innermost one. */
  function ScopeAt(stack: seq<ScopeId>, depth: nat): ScopeId
    requires depth < |stack|
  {
    stack[|stack| - 1 - depth]
  }

  /** What the tracker of a space maps an assumed id to; where it has no entry the code aborts. */
  function ActualOf(es: seq<Emission>, scope: ScopeId, space: Space, assumed: nat): nat {
    var actual := AssignAll(OrderOf(es, scope, space)).actual;
    if assumed in actual then actual[assumed] else 0
  }

  /** The renaming an item sees when it is encoded below the scopes of `stack`. */
  function RenamingAt(es: seq<Emission>, stack: seq<ScopeId>): Renaming {
    (r: IndexedRef) => if r.depth < |stack| then ActualOf(es, ScopeAt(stack, r.depth), r.space, r.index) else 0
  }

  /** The assumed ids of the space a reference points into, in emission order. */
  function TargetOrder(es: seq<Emission>, stack: seq<ScopeId>, r: IndexedRef): seq<nat>
    requires r.depth < |stack|
  {
    OrderOf(es, ScopeAt(stack, r.depth), r.space)
  }

  /** Each space of each scope is emitted completely, each item once. */
  ghost predicate WellEmitted(es: seq<Emission>) {
    forall scope: ScopeId, space: Space {:trigger IsPermutation(OrderOf(es, scope, space))} ::
      IsPermutation(OrderOf(es, scope, space))
  }

  /** The item a reference names has been (or will be) emitted, so looking it up succeeds. */
  predicate Resolvable(es: seq<Emission>, stack: seq<ScopeId>, r: IndexedRef) {
    r.depth < |stack| && r.index in TargetOrder(es, stack, r)
  }

  lemma ActualIsPosition(es: seq<Emission>, scope: ScopeId, space: Space, a: nat)
    requires IsPermutation(OrderOf(es, scope, space)) && a in OrderOf(es, scope, space)
    ensures var i := ActualOf(es, scope, space, a);
            && i < |OrderOf(es, scope, space)|
            && OrderOf(es, scope, space)[i] == a
            && i == Actuals(OrderOf(es, scope, space))[a]
  {
    LastPositionWins(OrderOf(es, scope, space), a);
    PermutationCovers(OrderOf(es, scope, space), a);
  }

  /** One by one, the references `after` resolve in the emitted numbering to what the references
      `before` named. */
  ghost predicate SameTargets(es: seq<Emission>, stack: seq<ScopeId>, before: seq<IndexedRef>, after: seq<IndexedRef>) {
    |after| == |before| && forall k :: 0 <= k < |before| ==> SameTarget(es, stack, before[k], after[k])
  }

  predicate SameTarget(es: seq<Emission>, stack: seq<ScopeId>, r: IndexedRef, s: IndexedRef) {
    && s.depth == r.depth < |stack| && s.space == r.space
    && s.index < |TargetOrder(es, stack, r)|
    && TargetOrder(es, stack, r)[s.index] == r.index
  }

  /** Only the renamed reference resolves to what a reference named. */
  lemma TargetIsUnique(es: seq<Emission>, stack: seq<ScopeId>, r: IndexedRef, s: IndexedRef)
    requires WellEmitted(es) && Resolvable(es, stack, r)
    ensures SameTarget(es, stack, r, s) <==> s == Renamed(RenamingAt(es, stack))(r)
  {
    assert IsPermutation(TargetOrder(es, stack, r));
    ActualIsPosition(es, ScopeAt(stack, r.depth), r.space, r.index);
  }

  /** Every reference of what is emitted, outer ones included, resolves in the emitted numbering
      to the item it named before, if and only if neither exception of the rewriting applies. */
  lemma RewrittenReferencesNameTheSameItems(es: seq<Emission>, stack: seq<ScopeId>, x: Item)
    requires WellEmitted(es)
    requires forall r :: r in ItemRefs(x) ==> Resolvable(es, stack, r)
    ensures SameTargets(es, stack, ItemRefs(x), ItemRefs(EmitItem(RenamingAt(es, stack), x)))
       <==> EmittedInFull(RenamingAt(es, stack), x)
  {
    var rho := RenamingAt(es, stack);
    var before, after := ItemRefs(x), ItemRefs(EmitItem(rho, x));
    EmissionRenamesReferences(rho, x);
    forall k | 0 <= k < |before| && k < |after|
      ensures SameTarget(es, stack, before[k], after[k]) <==> after[k] == Renamed(rho)(before[k])
    {
      assert before[k] in before;
      TargetIsUnique(es, stack, before[k], after[k]);
    }
    if SameTargets(es, stack, before, after) {
      assert after == Map(Renamed(rho), before);
    }
  }

  /** The edge relations correspond in both directions: the rewritten item points at the item
      emitted as number `i` of a space exactly when the original pointed at that item. */
  lemma EdgesCorrespond(es: seq<Emission>, stack: seq<ScopeId>, x: Item, depth: nat, space: Space, i: nat)
    requires WellEmitted(es)
    requires forall r :: r in ItemRefs(x) ==> Resolvable(es, stack, r)
    requires EmittedInFull(RenamingAt(es, stack), x)
    requires depth < |stack| && i < |OrderOf(es, ScopeAt(stack, depth), space)|
    ensures IndexedRef(depth, space, i) in ItemRefs(EmitItem(RenamingAt(es, stack), x))
       <==> IndexedRef(depth, space, OrderOf(es, ScopeAt(stack, depth), space)[i]) in ItemRefs(x)
  {
    RewrittenReferencesNameTheSameItems(es, stack, x);
    assert IsPermutation(OrderOf(es, ScopeAt(stack, depth), space));
    TargetsCorrespond(OrderOf(es, ScopeAt(stack, depth), space), ItemRefs(x),
                      ItemRefs(EmitItem(RenamingAt(es, stack), x)), depth, space, i);
  }

  /** The part of it that is about one space. */
  lemma TargetsCorrespond(order: seq<nat>, refs: seq<IndexedRef>, fixed: seq<IndexedRef>, depth: nat, space: Space,
                          i: nat)
    requires IsPermutation(order) && i < |order| && |fixed| == |refs|
    requires forall k :: 0 <= k < |refs| ==> fixed[k].depth == refs[k].depth && fixed[k].space == refs[k].space
    requires forall k :: 0 <= k < |refs| && refs[k].depth == depth && refs[k].space == space ==>
               fixed[k].index < |order| && order[fixed[k].index] == refs[k].index
    ensures IndexedRef(depth, space, i) in fixed <==> IndexedRef(depth, space, order[i]) in refs
  {
    if IndexedRef(depth, space, i) in fixed {
      var k :| 0 <= k < |fixed| && fixed[k] == IndexedRef(depth, space, i);
      assert refs[k] == IndexedRef(depth, space, order[i]);
    }
    if IndexedRef(depth, space, order[i]) in refs {
      var k :| 0 <= k < |refs| && refs[k] == IndexedRef(depth, space, order[i]);
      assert order[fixed[k].index] == order[i];
      assert fixed[k].index == i;
    }
  }

  /** At any moment of the emission, a rewritten index is below the number of items its space
      has received so far exactly when its target has already been emitted. An order that puts
      every item after what it references therefore leaves no forward reference. */
  lemma NoForwardReferences(es: seq<Emission>, p: nat, scope: ScopeId, space: Space, a: nat)
    requires p <= |es|
    requires IsPermutation(OrderOf(es, scope, space)) && a in OrderOf(es, scope, space)
    ensures ActualOf(es, scope, space, a) < |OrderOf(es[..p], scope, space)| <==> Emission(scope, space, a) in es[..p]
  {
    var order, sofar := OrderOf(es, scope, space), OrderOf(es[..p], scope, space);
    SoFar(es, p, scope, space);
    ActualIsPosition(es, scope, space, a);
    OrderMembers(es[..p], scope, space, a);
    if a in sofar {
      var j :| 0 <= j < |sofar| && sofar[j] == a;
      assert order[j] == a;
    }
  }

  lemma SoFar(es: seq<Emission>, p: nat, scope: ScopeId, space: Space)
    requires p <= |es|
    ensures OrderOf(es[..p], scope, space) <= OrderOf(es, scope, space)
  {
    assert es == es[..p] + es[p..];
    OrderConcat(es[..p], es[p..], scope, space);
  }

  /** The same, for all references of the item emitted at position `p`. */
  lemma EmittedItemsPointBackwards(es: seq<Emission>, p: nat, stack: seq<ScopeId>, x: Item)
    requires p < |es| && WellEmitted(es)
    requires EmittedInFull(RenamingAt(es, stack), x)
    requires forall r :: r in ItemRefs(x) ==>
               r.depth < |stack| && Emission(ScopeAt(stack, r.depth), r.space, r.index) in es[..p]
    ensures forall s :: s in ItemRefs(EmitItem(RenamingAt(es, stack), x)) ==>
              s.depth < |stack| && s.index < |TargetOrder(es[..p], stack, s)|
  {
    var rho := RenamingAt(es, stack);
    EmissionRenamesReferences(rho, x);
    var refs := ItemRefs(x);
    forall k | 0 <= k < |refs|
      ensures refs[k].depth < |stack| && rho(refs[k]) < |TargetOrder(es[..p], stack, refs[k])|
    {
      var r := refs[k];
      assert r in refs;
      OrderMembers(es, ScopeAt(stack, r.depth), r.space, r.index);
      assert Emission(ScopeAt(stack, r.depth), r.space, r.index) in es;
      NoForwardReferences(es, p, ScopeAt(stack, r.depth), r.space, r.index);
    }
  }

  /** What a reference points into is emitted in the order of its own numbering. */
  predicate InOrderThere(es: seq<Emission>, stack: seq<ScopeId>, r: IndexedRef)
    requires r.depth < |stack|
  {
    TargetOrder(es, stack, r) == Upto(|TargetOrder(es, stack, r)|)
  }

  /** Where that holds of all its references, an item is emitted unchanged. */
  lemma OrderMeansUnchanged(es: seq<Emission>, stack: seq<ScopeId>, x: Item)
    requires forall r :: r in ItemRefs(x) ==> Resolvable(es, stack, r) && InOrderThere(es, stack, r)
    requires InlineExportsPlain(x)
    ensures EmitItem(RenamingAt(es, stack), x) == x
  {
    var rho := RenamingAt(es, stack);
    forall r | r in ItemRefs(x) ensures rho(r) == r.index { StaysInPlace(es, stack, r); }
    EmittedUnchanged(rho, x);
  }

  lemma StaysInPlace(es: seq<Emission>, stack: seq<ScopeId>, r: IndexedRef)
    requires Resolvable(es, stack, r) && InOrderThere(es, stack, r)
    ensures RenamingAt(es, stack)(r) == r.index
  {
    var n := |TargetOrder(es, stack, r)|;
    assert IsPermutation(Upto(n));
    ActualIsPosition(es, ScopeAt(stack, r.depth), r.space, r.index);
  }

  lemma EmittedUnchanged(rho: Renaming, x: Item)
    requires InlineExportsPlain(x) && Keeps(rho, ItemRefs(x))
    ensures EmitItem(rho, x) == x
  {
    RewritingTouchesOnlyReferences(rho, rho, x);
  }
}
