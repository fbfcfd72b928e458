/** Times at which something happens again and again. */
module Spacing {
  /** Each time is more than `gap` after the one before, the first after `since`. */
  ghost predicate Spaced(times: seq<int>, since: int, gap: int)
    decreases |times|
  {
    times != [] ==> times[0] - since > gap && Spaced(times[1..], times[0], gap)
  }

  function LastOf(times: seq<int>, since: int): int { if times == [] then since else times[|times| - 1] }

  lemma {:induction false} SpacedConcat(a: seq<int>, b: seq<int>, since: int, gap: int)
    requires Spaced(a, since, gap) && Spaced(b, LastOf(a, since), gap)
    ensures Spaced(a + b, since, gap) && LastOf(a + b, since) == LastOf(b, LastOf(a, since))
    decreases |a|
  {
    if a == [] {
      assert a + b == b;
    } else {
      assert (a + b)[1..] == a[1..] + b;
      SpacedConcat(a[1..], b, a[0], gap);
    }
  }
}
