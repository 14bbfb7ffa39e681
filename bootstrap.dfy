/** The average bootstrap confidence of a consensus tree: the mean of the
    confidences of its nonterminal nodes, the root excluded. */
module Bootstrap {

  /** The values added up in order. */
  function Sum(s: seq<real>): real
  {
    if s == [] then 0.0 else Sum(s[..|s| - 1]) + s[|s| - 1]
  }

  /** The mean of every nonterminal confidence but the first (the root's). */
  function Mean(confidences: seq<real>): real
    requires |confidences| >= 2
  {
    Sum(confidences[1..]) / (|confidences| - 1) as real
  }

  /** Drops the root's confidence, adds up the rest in a loop, and divides by
      their number. */
  method AverageBootstrap(confidences: seq<real>) returns (average: real)
    requires |confidences| >= 2
    ensures average == Mean(confidences)
  {
    var treeConfidences := confidences[1..];
    var totalConfidence := 0.0;
    var k := 0;
    while k < |treeConfidences|
      invariant 0 <= k <= |treeConfidences|
      invariant totalConfidence == Sum(treeConfidences[..k])
    {
      assert treeConfidences[..k + 1][..k] == treeConfidences[..k];
      totalConfidence := totalConfidence + treeConfidences[k];
      k := k + 1;
    }
    assert treeConfidences[..k] == treeConfidences;
    average := totalConfidence / |treeConfidences| as real;
  }

  /** Values that all lie in [lo, hi] add up to between n * lo and n * hi. */
  lemma {:induction false} SumBounds(s: seq<real>, lo: real, hi: real)
    requires forall k :: 0 <= k < |s| ==> lo <= s[k] <= hi
    ensures |s| as real * lo <= Sum(s) <= |s| as real * hi
  {
    if s != [] {
      var init := s[..|s| - 1];
      SumBounds(init, lo, hi);
      assert |s| as real * lo == |init| as real * lo + lo;
      assert |s| as real * hi == |init| as real * hi + hi;
    }
  }

  /** Dividing a total of n values, each between lo and hi, by n gives a value
      between lo and hi. */
  lemma MeanOfBounded(total: real, n: real, lo: real, hi: real)
    requires n > 0.0 && n * lo <= total <= n * hi
    ensures lo <= total / n <= hi
  {
    assert total / n * n == total;
  }

  /** The mean lies between the smallest and the largest non-root confidence
      bounds; in particular, percentages average to a percentage. */
  lemma MeanWithin(confidences: seq<real>, lo: real, hi: real)
    requires |confidences| >= 2
    requires forall k :: 1 <= k < |confidences| ==> lo <= confidences[k] <= hi
    ensures lo <= Mean(confidences) <= hi
  {
    var rest := confidences[1..];
    SumBounds(rest, lo, hi);
    MeanOfBounded(Sum(rest), |rest| as real, lo, hi);
  }

  /** The root's confidence plays no part in the mean. */
  lemma MeanIgnoresRoot(confidences: seq<real>, root: real)
    requires |confidences| >= 2
    ensures Mean([root] + confidences[1..]) == Mean(confidences)
  {
    assert ([root] + confidences[1..])[1..] == confidences[1..];
  }

  /** When every non-root confidence is the same value, the mean is that value. */
  lemma MeanOfConstant(confidences: seq<real>, c: real)
    requires |confidences| >= 2
    requires forall k :: 1 <= k < |confidences| ==> confidences[k] == c
    ensures Mean(confidences) == c
  {
    MeanWithin(confidences, c, c);
  }
}
