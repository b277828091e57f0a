/** What "up to empty core-type sections" leaves out of an encoded component: those, and nothing else. */
module Visibility {
  import opened Encoder

  /** No core-type section is empty, at any depth. */
  predicate NoneHollow(out: seq<EncSection>) {
    forall s :: s in out ==> Whole(s)
  }

  predicate Whole(s: EncSection) {
    match s
    case EncCoreSection(entries) => entries != []
    case EncComponent(sections) => NoneHollow(sections)
    case _ => true
  }

  lemma NoneHollowSnoc(out: seq<EncSection>, s: EncSection)
    ensures NoneHollow(out + [s]) <==> NoneHollow(out) && Whole(s)
  {
    assert s in out + [s];
    forall x | x in out ensures x in out + [s] {
    }
  }

  /** All of an output is visible if and only if no core-type section of it is empty. */
  lemma {:induction false} VisibleIsAll(out: seq<EncSection>)
    ensures Visible(out) == out ==> NoneHollow(out)
    ensures Visible(out) == out <== NoneHollow(out)
    ensures |Visible(out)| <= |out|
    decreases out, 1
  {
    if out != [] {
      var n := |out| - 1;
      var init, last := out[..n], out[n];
      assert out == init + [last] && last in out;
      VisibleIsAll(init);
      VisibleWhole(last);
      NoneHollowSnoc(init, last);
      Appended(Visible(init), VisibleOne(last), init, last);
    }
  }

  lemma Appended(a: seq<EncSection>, b: seq<EncSection>, init: seq<EncSection>, last: EncSection)
    requires |a| <= |init| && |b| <= 1
    ensures a + b == init + [last] <==> a == init && b == [last]
  {
    if a + b == init + [last] {
      assert |a| == |init| && |b| == 1;
      assert (a + b)[..|a|] == a && (init + [last])[..|a|] == init;
      assert (a + b)[|a|] == b[0];
    }
  }

  lemma {:induction false} VisibleWhole(s: EncSection)
    ensures |VisibleOne(s)| <= 1
    ensures VisibleOne(s) == [s] <==> Whole(s)
    decreases s, 0
  {
    if s.EncComponent? { VisibleIsAll(s.sections); }
  }

  /** What is visible shows no empty one, and showing it again changes nothing. */
  lemma {:induction false} VisibleIsWhole(out: seq<EncSection>)
    ensures NoneHollow(Visible(out)) && Visible(Visible(out)) == Visible(out)
    decreases out, 1
  {
    if out != [] {
      var n := |out| - 1;
      assert out[n] in out;
      VisibleIsWhole(out[..n]);
      OneIsWhole(out[n]);
      if VisibleOne(out[n]) == [] {
        assert Visible(out[..n]) + [] == Visible(out[..n]);
      } else {
        NoneHollowSnoc(Visible(out[..n]), VisibleOne(out[n])[0]);
        assert VisibleOne(out[n]) == [VisibleOne(out[n])[0]];
      }
    }
    VisibleIsAll(Visible(out));
  }

  lemma {:induction false} OneIsWhole(s: EncSection)
    ensures |VisibleOne(s)| <= 1
    ensures forall x :: x in VisibleOne(s) ==> Whole(x)
    decreases s, 0
  {
    if s.EncComponent? { VisibleIsWhole(s.sections); }
  }
}
