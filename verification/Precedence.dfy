/** Which items wait for which: in the order of emission everything but definitions of types and
    nested components comes after all it refers to, and nothing is moved ahead for any other reason. */
module Precedence {
  import opened Prelude
  import opened Spaces
  import opened Types
  import opened FixIndices
  import opened ActualIds
  import opened Reindex
  import opened Reencoding
  import Sections
  import Topological

  /** A definition of a type, or a nested component. */
  predicate IsDefinition(x: Content) {
    match x
    case Lone(LeafItem(_)) => true
    case Lone(SubTypeItem(_)) => true
    case Group(_) => true
    case TypeBody => true
    case ModuleTypeBody => true
    case NestedComponent => true
    case _ => false
  }

  /** The item a reference names. */
  predicate RefersTo(cs: Contents, r: IndexedRef, j: nat) {
    Known(Hist(cs), r) && Owner(Hist(cs), r.space, r.index) == j
  }

  /** No chain of references returns to its start, those of definitions aside. */
  ghost predicate Acyclic(cs: Contents, rank: seq<nat>) {
    && Resolved(cs) && |rank| == |cs|
    && forall n, r, j: nat {:trigger RefersTo(cs, r, j), cs[n]} ::
         0 <= n < |cs| && !IsDefinition(cs[n]) && r in RefsOf(cs[n]) && RefersTo(cs, r, j) ==>
           j < |cs| && rank[j] < rank[n]
  }

  lemma OwnersListed(cs: Contents, n: nat, r: IndexedRef)
    requires Resolved(cs) && n < |cs| && r in RefsOf(cs[n])
    ensures Known(Hist(cs), r) && Owner(Hist(cs), r.space, r.index) in GraphOf(cs)[n].refs
  {
    var refs := RefsOf(cs[n]);
    assert AllKnown(Hist(cs), refs);
    var k :| 0 <= k < |refs| && refs[k] == r;
    assert GraphOf(cs)[n].refs[k] == Owner(Hist(cs), r.space, r.index);
  }

  lemma OwnersAreReferred(cs: Contents, n: nat, d: nat)
    requires Resolved(cs) && n < |cs| && d in GraphOf(cs)[n].refs
    ensures exists r :: r in RefsOf(cs[n]) && RefersTo(cs, r, d)
  {
    var refs := RefsOf(cs[n]);
    assert AllKnown(Hist(cs), refs);
    var k :| 0 <= k < |refs| && GraphOf(cs)[n].refs[k] == d;
    assert refs[k] in refs && RefersTo(cs, refs[k], d);
  }

  /** Exactly the items that are no definitions have their references collected. */
  lemma DefinitionsAreNotFollowed(x: Content)
    ensures !IsDefinition(x) ==> IsFollowed(x)
    ensures IsDefinition(x) ==> !IsFollowed(x)
  {
  }

  lemma GraphIsAcyclic(cs: Contents, rank: seq<nat>)
    requires Acyclic(cs, rank)
    ensures Topological.Acyclic(GraphOf(cs), rank)
  {
    var g := GraphOf(cs);
    forall n, j | 0 <= n < |g| && g[n].followed && 0 <= j < |g[n].refs| ensures rank[g[n].refs[j]] < rank[n] {
      DefinitionsAreNotFollowed(cs[n]);
      assert g[n].refs[j] in g[n].refs;
      OwnersAreReferred(cs, n, g[n].refs[j]);
    }
  }

  // ------------------------------------------------------------------------------------
  // Main results
  // ------------------------------------------------------------------------------------

  /** Every item is emitted once, and everything but definitions after all it refers to. */
  lemma ItemsWaitForWhatTheyReferTo(cs: Contents, rank: seq<nat>, order: seq<nat>)
    requires Acyclic(cs, rank) && OrderFor(cs) == Some(order)
    ensures IsPermutation(order) && |order| == |cs|
    ensures forall i, r, j: nat {:trigger RefersTo(cs, r, j), order[i]} ::
              0 <= i < |order| && !IsDefinition(cs[order[i]]) && r in RefsOf(cs[order[i]]) && RefersTo(cs, r, j) ==>
                j in order[..i]
  {
    var g := GraphOf(cs);
    GraphIsAcyclic(cs, rank);
    Topological.DependenciesComeFirst(g, rank);
    forall i, r, j: nat |
      0 <= i < |order| && !IsDefinition(cs[order[i]]) && r in RefsOf(cs[order[i]]) && RefersTo(cs, r, j)
      ensures j in order[..i]
    {
      DefinitionsAreNotFollowed(cs[order[i]]);
      OwnersListed(cs, order[i], r);
      assert Topological.AfterItsRefs(g, order, i);
    }
  }

  /** So its rewritten references point back: each index is below the number of items its space has
      received when the item comes out. */
  lemma RewrittenReferencesPointBack(cs: Contents, rank: seq<nat>, order: seq<nat>, es: seq<Emission>, scope: ScopeId,
                                     i: nat, r: IndexedRef)
    requires Acyclic(cs, rank) && OrderFor(cs) == Some(order) && CompletelyEmitted(cs, es, scope, order)
    requires i < |order| && !IsDefinition(cs[order[i]]) && r in RefsOf(cs[order[i]])
    ensures RenamingAt(es, [scope])(r) < |Sections.IdsAlong(Hist(cs), order[..i], r.space)|
  {
    var m := OwnerCameFirst(cs, rank, order, i, r);
    HistIsLegal(cs);
    MetBefore(Hist(cs), order, es, scope, i, m, r);
  }

  lemma OwnerCameFirst(cs: Contents, rank: seq<nat>, order: seq<nat>, i: nat, r: IndexedRef) returns (m: nat)
    requires Acyclic(cs, rank) && OrderFor(cs) == Some(order) && IsPermutation(order) && |order| == |cs|
    requires i < |order| && !IsDefinition(cs[order[i]]) && r in RefsOf(cs[order[i]])
    ensures m < i && Known(Hist(cs), r) && Owner(Hist(cs), r.space, r.index) == order[m]
  {
    ItemsWaitForWhatTheyReferTo(cs, rank, order);
    OwnersListed(cs, order[i], r);
    var j := Owner(Hist(cs), r.space, r.index);
    assert RefersTo(cs, r, j);
    m :| m < i && order[m] == j;
  }

  lemma MetBefore(hist: seq<Sections.Entry>, order: seq<nat>, es: seq<Emission>, scope: ScopeId, i: nat, m: nat,
                  r: IndexedRef)
    requires Sections.Legal(hist) && IsPermutation(order) && |order| == |hist| && Emits(es, scope, hist, order)
    requires m < i <= |order| && Known(hist, r) && Owner(hist, r.space, r.index) == order[m]
    ensures RenamingAt(es, [scope])(r) < |Sections.IdsAlong(hist, order[..i], r.space)|
  {
    IdsAreOwned(hist, order[m], r.index);
    var k :| 0 <= k < |Sections.IdsOf(hist, order[m])| && Sections.IdsOf(hist, order[m])[k] == r.index;
    VisitsPrefix(hist, order, i);
    assert order[..i][..m] == order[..m] && order[..i][m] == order[m];
    MetInTurn(hist, order, m, k);
    MetInTurn(hist, order[..i], m, k);
    AlongIsPermutation(hist, order, r.space);
    var ids := Sections.IdsAlong(hist, order, r.space);
    assert OrderOf(es, scope, r.space) == ids;
    ActualIsPosition(es, scope, r.space, r.index);
  }

  /** An item is emitted ahead of one recorded before it only where something that is no definition
      refers to it. */
  lemma OnlyReferencesMoveItemsAhead(cs: Contents, order: seq<nat>, a: nat, b: nat)
    requires Resolved(cs) && OrderFor(cs) == Some(order)
    requires a < b < |order| && order[b] < order[a] < |cs|
    ensures exists n, r :: 0 <= n < |cs| && !IsDefinition(cs[n]) && r in RefsOf(cs[n]) && RefersTo(cs, r, order[a])
  {
    var g := GraphOf(cs);
    var n := Topological.PulledBySome(g, a, b);
    DefinitionsAreNotFollowed(cs[n]);
    OwnersAreReferred(cs, n, order[a]);
  }

  /** The collection aborts exactly where something that is no definition refers to one of several
      results of a start function. */
  lemma AbortsAtSeveralResults(cs: Contents)
    requires Resolved(cs)
    ensures OrderFor(cs).None? ==> exists n, r :: RefersToSeveral(cs, n, r)
    ensures OrderFor(cs).None? <== exists n, r :: RefersToSeveral(cs, n, r)
  {
    if OrderFor(cs).None? {
      var n, k :| 0 <= n < |cs| && 0 <= k < |RefsOf(cs[n])| && IsFollowed(cs[n])
                  && !Collectable(Hist(cs), RefsOf(cs[n])[k]);
      DefinitionsAreNotFollowed(cs[n]);
      assert RefsOf(cs[n])[k] in RefsOf(cs[n]);
      CollectableExactlyWhen(cs, RefsOf(cs[n])[k]);
      assert RefersToSeveral(cs, n, RefsOf(cs[n])[k]);
    }
    if n: nat, r :| RefersToSeveral(cs, n, r) {
      DefinitionsAreNotFollowed(cs[n]);
      CollectableExactlyWhen(cs, r);
      var k :| 0 <= k < |RefsOf(cs[n])| && RefsOf(cs[n])[k] == r;
    }
  }

  predicate RefersToSeveral(cs: Contents, n: nat, r: IndexedRef) {
    && n < |cs| && !IsDefinition(cs[n]) && r in RefsOf(cs[n]) && Known(Hist(cs), r)
    && Several(cs[Owner(Hist(cs), r.space, r.index)])
  }

  predicate Several(x: Content) {
    match x
    case Lone(StartItem(s)) => s.results > 1
    case _ => false
  }

  lemma CollectableExactlyWhen(cs: Contents, r: IndexedRef)
    requires Known(Hist(cs), r)
    ensures Collectable(Hist(cs), r) <==> !Several(cs[Owner(Hist(cs), r.space, r.index)])
  {
    var hist := Hist(cs);
    HistIsLegal(cs);
    OwnerHasTheSlot(hist, r.space, r.index);
    SeveralIds(cs[Owner(hist, r.space, r.index)]);
  }

  lemma SeveralIds(x: Content)
    ensures Several(x) <==> EntryOf(x).width > 1 && EntryOf(x).space != Space.CoreType
  {
  }
}
