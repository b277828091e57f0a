/** Small building blocks shared by the whole model: options, maps over sequences,
    and counting the occurrences of a value in a growing list. */
module Prelude {

  datatype Option<+T> = None | Some(value: T) {
    function GetOr(default: T): T {
      match this
      case Some(v) => v
      case None => default
    }

    function Map<U>(f: T -> U): Option<U> {
      match this
      case Some(v) => Some(f(v))
      case None => None
    }
  }

  function Map<A, B>(f: A -> B, s: seq<A>): (r: seq<B>)
    ensures |r| == |s|
    ensures forall i :: 0 <= i < |s| ==> r[i] == f(s[i])
  {
    seq(|s|, i requires 0 <= i < |s| => f(s[i]))
  }

  lemma ConcatAssoc<T>(a: seq<T>, b: seq<T>, c: seq<T>)
    ensures a + b + c == a + (b + c)
  {
  }

  function FlatMap<A, B>(f: A -> seq<B>, s: seq<A>): seq<B> {
    if s == [] then [] else f(s[0]) + FlatMap(f, s[1..])
  }

  /** The list 0, 1, ..., n-1. */
  function Upto(n: nat): (r: seq<nat>)
    ensures |r| == n
    ensures forall i :: 0 <= i < n ==> r[i] == i
  {
    seq(n, i => i)
  }

  lemma UptoSnoc(n: nat)
    ensures Upto(n + 1) == Upto(n) + [n]
  {
  }

  function Repeat<T>(x: T, n: nat): (r: seq<T>)
    ensures |r| == n
    ensures forall i :: 0 <= i < n ==> r[i] == x
  {
    seq(n, _ => x)
  }

  /** The positions of `s` that hold `x`, in increasing order. */
  function Positions<T(==)>(s: seq<T>, x: T): seq<nat> {
    if s == [] then []
    else
      var n := |s| - 1;
      Positions(s[..n], x) + (if s[n] == x then [n] else [])
  }

  lemma PositionsSnoc<T>(s: seq<T>, y: T, x: T)
    ensures Positions(s + [y], x) == Positions(s, x) + (if y == x then [|s|] else [])
  {
    assert (s + [y])[..|s|] == s;
  }

  /** What `Positions` lists is exactly the occurrences of `x`, in order. */
  lemma {:induction false} PositionsHold<T>(s: seq<T>, x: T)
    ensures forall k :: 0 <= k < |Positions(s, x)| ==> Positions(s, x)[k] < |s| && s[Positions(s, x)[k]] == x
    ensures forall j, k :: 0 <= j < k < |Positions(s, x)| ==> Positions(s, x)[j] < Positions(s, x)[k]
  {
    if s != [] { PositionsHold(s[..|s| - 1], x); }
  }

  lemma {:induction false} NoPosition<T>(s: seq<T>, x: T)
    requires forall i :: 0 <= i < |s| ==> s[i] != x
    ensures Positions(s, x) == []
  {
    if s != [] { NoPosition(s[..|s| - 1], x); }
  }

  lemma {:induction false} OnlyPosition<T>(s: seq<T>, x: T, i: nat)
    requires i < |s| && forall j :: 0 <= j < |s| ==> (s[j] == x <==> j == i)
    ensures Positions(s, x) == [i]
  {
    var n := |s| - 1;
    if i == n { NoPosition(s[..n], x); } else { OnlyPosition(s[..n], x, i); }
  }

  /** The occurrence at position `i` is listed right after the occurrences before it. */
  lemma {:induction false} PositionsFind<T>(s: seq<T>, i: nat)
    requires i < |s|
    ensures |Positions(s[..i], s[i])| < |Positions(s, s[i])|
    ensures Positions(s, s[i])[|Positions(s[..i], s[i])|] == i
  {
    var n := |s| - 1;
    if i < n {
      assert s[..n][..i] == s[..i];
      PositionsFind(s[..n], i);
    }
  }

  /** Extending a list only adds occurrences at the end. */
  lemma {:induction false} PositionsPrefix<T>(s: seq<T>, m: nat, x: T)
    requires m <= |s|
    ensures Positions(s[..m], x) <= Positions(s, x)
  {
    if m == |s| {
      assert s[..m] == s;
    } else {
      var n := |s| - 1;
      assert s[..n][..m] == s[..m];
      PositionsPrefix(s[..n], m, x);
    }
  }

  /** Appending copies of another value adds no occurrence. */
  lemma {:induction false} PositionsOfOther<T>(s: seq<T>, y: T, w: nat, x: T)
    requires x != y
    ensures Positions(s + Repeat(y, w), x) == Positions(s, x)
  {
    if w == 0 {
      assert s + Repeat(y, 0) == s;
    } else {
      PositionsOfOther(s, y, w - 1, x);
      RepeatSnoc(s, y, w - 1);
      PositionsSnoc(s + Repeat(y, w - 1), y, x);
      assert Positions(s, x) + [] == Positions(s, x);
    }
  }

  lemma RepeatSnoc<T>(s: seq<T>, y: T, w: nat)
    ensures s + Repeat(y, w + 1) == s + Repeat(y, w) + [y]
  {
  }

  // ------------------------------------------------------------------------------------
  // Runs of a machine that may abort
  // ------------------------------------------------------------------------------------

  function Fold<S, E>(step: (S, E) -> Option<S>, s: S, evs: seq<E>): Option<S> {
    if evs == [] then Some(s)
    else match Fold(step, s, evs[..|evs| - 1])
      case None => None
      case Some(mid) => step(mid, evs[|evs| - 1])
  }

  lemma FoldSnoc<S, E>(step: (S, E) -> Option<S>, s: S, evs: seq<E>, ev: E)
    ensures Fold(step, s, evs + [ev]) == match Fold(step, s, evs) case None => None case Some(mid) => step(mid, ev)
  {
    assert (evs + [ev])[..|evs|] == evs;
  }

  lemma {:induction false} FoldConcat<S, E>(step: (S, E) -> Option<S>, s: S, a: seq<E>, b: seq<E>)
    ensures Fold(step, s, a + b) == match Fold(step, s, a) case None => None case Some(mid) => Fold(step, mid, b)
  {
    if b == [] {
      assert a + b == a;
    } else {
      var n := |b| - 1;
      FoldConcat(step, s, a, b[..n]);
      FoldSnoc(step, s, a + b[..n], b[n]);
      assert a + b == a + b[..n] + [b[n]];
    }
  }

  lemma FoldThree<S, E>(step: (S, E) -> Option<S>, s: S, first: E, middle: seq<E>, last: E)
    ensures Fold(step, s, [first] + middle + [last])
         == match step(s, first)
            case None => None
            case Some(a) => match Fold(step, a, middle) case None => None case Some(b) => step(b, last)
  {
    FoldSnoc(step, s, [], first);
    assert [] + [first] == [first];
    FoldConcat(step, s, [first], middle);
    FoldSnoc(step, s, [first] + middle, last);
  }
}
