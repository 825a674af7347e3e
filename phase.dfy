/** The two phases of a traffic light and the rule that flips one into the other. */
module Phases {

  datatype Phase = Red | Green

  /** The flip performed by one expired phase of the cycling loop. */
  function Toggle(p: Phase): (r: Phase)
    ensures r != p
    ensures r == Green <==> p == Red
  {
    if p == Red then Green else Red
  }

  lemma ToggleTwice(p: Phase)
    ensures Toggle(Toggle(p)) == p
  {
  }

  /** The phase of a light that started red and has flipped `flips` times. */
  function PhaseAfter(flips: nat): (p: Phase)
    ensures p == Red <==> flips % 2 == 0
  {
    if flips == 0 then Red else Toggle(PhaseAfter(flips - 1))
  }

  /** A history of published phases: the k-th entry is the phase after k + 1 flips. */
  ghost predicate IsFlipHistory(s: seq<Phase>)
  {
    forall i :: 0 <= i < |s| ==> s[i] == PhaseAfter(i + 1)
  }

  /** A flip history starts with green and never repeats a phase nor skips one. */
  lemma {:induction false} FlipHistoryAlternates(s: seq<Phase>)
    requires IsFlipHistory(s)
    ensures |s| > 0 ==> s[0] == Green
    ensures forall i :: 0 < i < |s| ==> s[i] == Toggle(s[i - 1]) && s[i] != s[i - 1]
  {
    forall i | 0 < i < |s|
      ensures s[i] == Toggle(s[i - 1])
    {
      assert s[i] == PhaseAfter(i + 1) == Toggle(PhaseAfter(i));
    }
  }

  /** The converse: green first, then strict alternation, is exactly a flip history. */
  lemma {:induction false} AlternatingIsFlipHistory(s: seq<Phase>)
    requires |s| > 0 ==> s[0] == Green
    requires forall i :: 0 < i < |s| ==> s[i] == Toggle(s[i - 1])
    ensures IsFlipHistory(s)
  {
    if |s| > 0 {
      var t := s[..|s| - 1];
      AlternatingIsFlipHistory(t);
      assert forall i :: 0 <= i < |t| ==> s[i] == t[i];
      var n := |s|;
      if n > 1 {
        assert s[n - 1] == Toggle(t[n - 2]) == Toggle(PhaseAfter(n - 1)) == PhaseAfter(n);
      }
    }
  }
}
