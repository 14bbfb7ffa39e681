/** The least-squares comparison of two trees, over the leaf pairs that the
    source's loop actually visits.

    The loop iterates over the list of leaf names by rising position while
    removing the list's head at every step. After k steps the list is
    L[k..] and the iterator stands at position k, so step k reads L[2k] and
    pairs it with every name of L[k+1..]; the loop stops once 2k >= |L|,
    after (|L| + 1) / 2 steps. */
module LeastSquares {
  import opened Common

  /** The pairs visited at outer step k. */
  function StepPairs(leaves: seq<string>, k: nat): (ps: seq<(string, string)>)
    requires 2 * k < |leaves|
    ensures |ps| == |leaves| - 1 - k
    ensures forall m :: 0 <= m < |ps| ==> ps[m] == (leaves[2 * k], leaves[k + 1 + m])
  {
    seq(|leaves| - 1 - k, m requires 0 <= m < |leaves| - 1 - k => (leaves[2 * k], leaves[k + 1 + m]))
  }

  /** How many outer steps the loop makes over n leaves. */
  function OuterSteps(n: nat): nat
  {
    (n + 1) / 2
  }

  /** The pairs visited by the first `steps` outer steps, in visiting order. */
  function CursorPairs(leaves: seq<string>, steps: nat): seq<(string, string)>
    requires 2 * steps <= |leaves| + 1
  {
    if steps == 0 then [] else CursorPairs(leaves, steps - 1) + StepPairs(leaves, steps - 1)
  }

  /** Every pair the loop visits, in visiting order. */
  function VisitedPairs(leaves: seq<string>): seq<(string, string)>
  {
    CursorPairs(leaves, OuterSteps(|leaves|))
  }

  /** How far apart the two trees place one pair of leaves. */
  function Gap(tree1: Tree, tree2: Tree, p: (string, string)): real
  {
    Abs(tree1.distance(p.0, p.1) - tree2.distance(p.0, p.1))
  }

  /** The gaps of the given pairs, added up in order. */
  function SumGaps(tree1: Tree, tree2: Tree, ps: seq<(string, string)>): real
  {
    if ps == [] then 0.0 else SumGaps(tree1, tree2, ps[..|ps| - 1]) + Gap(tree1, tree2, ps[|ps| - 1])
  }

  /** The least-squares distance of two trees, over the leaves of the first. */
  method LeastSquare(tree1: Tree, tree2: Tree) returns (ls: real)
    ensures ls == SumGaps(tree1, tree2, VisitedPairs(tree1.leaves))
  {
    ls := 0.0;
    var leavesName := tree1.leaves;
    ghost var L := tree1.leaves;
    var cursor := 0;  // position of the list iterator
    while cursor < |leavesName|
      invariant 0 <= cursor && 2 * cursor <= |L| + 1
      invariant leavesName == L[cursor..]
      invariant ls == SumGaps(tree1, tree2, CursorPairs(L, cursor))
      decreases |leavesName| - cursor
    {
      ghost var k := cursor;
      var i := leavesName[cursor];
      cursor := cursor + 1;
      StepPairsAfterPops(L, k);
      leavesName := leavesName[1..];
      ghost var step := StepPairs(L, k);
      ghost var before := ls;
      var j := 0;
      while j < |leavesName|
        invariant 0 <= j <= |leavesName| == |step|
        invariant ls == before + SumGaps(tree1, tree2, step[..j])
      {
        var d1 := tree1.distance(i, leavesName[j]);
        var d2 := tree2.distance(i, leavesName[j]);
        assert step[j] == (i, leavesName[j]);
        TakeOneMore(step, j);
        SumGapsSnoc(tree1, tree2, step[..j], step[j]);
        ls := ls + Abs(d1 - d2);
        j := j + 1;
      }
      assert step[..j] == step;
      SumGapsAppend(tree1, tree2, CursorPairs(L, k), step);
    }
    assert cursor == OuterSteps(|L|);
  }

  /** In the source's own terms: after k pops the list is L[k..] and the
      iterator reads its item at position k, which is then paired with every
      name of the list after one more pop. */
  lemma StepPairsAfterPops(L: seq<string>, k: nat)
    requires 2 * k < |L|
    ensures L[k..][1..] == L[k + 1..]
    ensures |StepPairs(L, k)| == |L[k..][1..]|
    ensures forall m :: 0 <= m < |StepPairs(L, k)| ==> StepPairs(L, k)[m] == (L[k..][k], L[k..][1..][m])
  {
    assert L[k..][k] == L[2 * k];
    assert forall m :: 0 <= m < |L| - k - 1 ==> L[k..][1..][m] == L[k + 1 + m];
  }

  lemma {:induction false} SumGapsAppend(tree1: Tree, tree2: Tree, ps: seq<(string, string)>, qs: seq<(string, string)>)
    ensures SumGaps(tree1, tree2, ps + qs) == SumGaps(tree1, tree2, ps) + SumGaps(tree1, tree2, qs)
  {
    if qs != [] {
      var last := qs[|qs| - 1];
      var init := qs[..|qs| - 1];
      SumGapsAppend(tree1, tree2, ps, init);
      assert ps + qs == (ps + init) + [last];
      SumGapsSnoc(tree1, tree2, ps + init, last);
    } else {
      assert ps + qs == ps;
    }
  }

  lemma TakeOneMore<T>(s: seq<T>, j: nat)
    requires j < |s|
    ensures s[..j + 1] == s[..j] + [s[j]]
  {
  }

  lemma SumGapsSnoc(tree1: Tree, tree2: Tree, ps: seq<(string, string)>, p: (string, string))
    ensures SumGaps(tree1, tree2, ps + [p]) == SumGaps(tree1, tree2, ps) + Gap(tree1, tree2, p)
  {
    assert (ps + [p])[..|ps|] == ps;
  }

  lemma {:induction false} SumGapsNonNegative(tree1: Tree, tree2: Tree, ps: seq<(string, string)>)
    ensures SumGaps(tree1, tree2, ps) >= 0.0
  {
    if ps != [] {
      SumGapsNonNegative(tree1, tree2, ps[..|ps| - 1]);
    }
  }

  /** The sum is zero exactly when the two trees agree on every summed pair. */
  lemma {:induction false} SumGapsZero(tree1: Tree, tree2: Tree, ps: seq<(string, string)>)
    ensures SumGaps(tree1, tree2, ps) == 0.0 <==>
      forall m :: 0 <= m < |ps| ==> tree1.distance(ps[m].0, ps[m].1) == tree2.distance(ps[m].0, ps[m].1)
  {
    if ps != [] {
      var init := ps[..|ps| - 1];
      SumGapsZero(tree1, tree2, init);
      SumGapsNonNegative(tree1, tree2, init);
      assert forall m :: 0 <= m < |init| ==> init[m] == ps[m];
    }
  }

  /** The least-squares distance is zero exactly when the trees give equal
      distances on every visited pair; in particular a tree compared with
      itself scores zero. */
  lemma LeastSquareZero(tree1: Tree, tree2: Tree)
    ensures SumGaps(tree1, tree2, VisitedPairs(tree1.leaves)) >= 0.0
    ensures var ps := VisitedPairs(tree1.leaves);
      SumGaps(tree1, tree2, ps) == 0.0 <==>
      forall m :: 0 <= m < |ps| ==> tree1.distance(ps[m].0, ps[m].1) == tree2.distance(ps[m].0, ps[m].1)
    ensures SumGaps(tree1, tree1, VisitedPairs(tree1.leaves)) == 0.0
  {
    SumGapsNonNegative(tree1, tree2, VisitedPairs(tree1.leaves));
    SumGapsZero(tree1, tree2, VisitedPairs(tree1.leaves));
    SumGapsZero(tree1, tree1, VisitedPairs(tree1.leaves));
  }

  lemma {:induction false} SumGapsSymmetric(tree1: Tree, tree2: Tree, ps: seq<(string, string)>)
    ensures SumGaps(tree1, tree2, ps) == SumGaps(tree2, tree1, ps)
  {
    if ps != [] {
      SumGapsSymmetric(tree1, tree2, ps[..|ps| - 1]);
    }
  }

  /** Swapping the trees leaves the score unchanged when both list their leaves
      in the same order (the loop follows the first tree's order). */
  lemma LeastSquareSymmetric(tree1: Tree, tree2: Tree)
    requires tree1.leaves == tree2.leaves
    ensures SumGaps(tree1, tree2, VisitedPairs(tree1.leaves)) == SumGaps(tree2, tree1, VisitedPairs(tree2.leaves))
  {
    SumGapsSymmetric(tree1, tree2, VisitedPairs(tree1.leaves));
  }

  /** (n - 1) + (n - 2) + ... + (n - s). */
  function StepsTotal(n: int, s: nat): int
  {
    if s == 0 then 0 else StepsTotal(n, s - 1) + (n - s)
  }

  /** Twice (n - 1) + (n - 2) + ... + (n - s) is s * (2n - 1 - s). */
  lemma {:induction false} StepsTotalClosedForm(n: int, s: nat)
    ensures 2 * StepsTotal(n, s) == s * (2 * n - 1 - s)
  {
    if s > 0 {
      StepsTotalClosedForm(n, s - 1);
      assert s * (2 * n - 1 - s) == (s - 1) * (2 * n - 1 - (s - 1)) + 2 * (n - s);
    }
  }

  /** The number of pairs visited by the first s steps over n leaves:
      (n - 1) + (n - 2) + ... + (n - s), twice that being s * (2n - 1 - s). */
  lemma {:induction false} CursorPairsCount(leaves: seq<string>, steps: nat)
    requires 2 * steps <= |leaves| + 1
    ensures |CursorPairs(leaves, steps)| == StepsTotal(|leaves|, steps)
    ensures 2 * |CursorPairs(leaves, steps)| == steps * (2 * |leaves| - 1 - steps)
  {
    if steps > 0 {
      CursorPairsCount(leaves, steps - 1);
    }
    StepsTotalClosedForm(|leaves|, steps);
  }

  /** Each visited pair starts with a leaf at an even position of the list:
      leaves at odd positions only ever appear second. */
  lemma {:induction false} CursorPairsFirstEven(leaves: seq<string>, steps: nat, m: nat)
    requires 2 * steps <= |leaves| + 1
    requires m < |CursorPairs(leaves, steps)|
    ensures exists k :: 0 <= k < steps && 2 * k < |leaves| && CursorPairs(leaves, steps)[m].0 == leaves[2 * k]
  {
    var prev := CursorPairs(leaves, steps - 1);
    if m < |prev| {
      CursorPairsFirstEven(leaves, steps - 1, m);
      assert CursorPairs(leaves, steps)[m] == prev[m];
    } else {
      assert CursorPairs(leaves, steps)[m] == StepPairs(leaves, steps - 1)[m - |prev|];
    }
  }

  /** The five-leaf case: the loop visits nine pairs, none starting with the
      second or fourth leaf, two of them a leaf paired with itself. */
  lemma FiveLeaves(a: string, b: string, c: string, d: string, e: string)
    ensures VisitedPairs([a, b, c, d, e]) ==
      [(a, b), (a, c), (a, d), (a, e), (c, c), (c, d), (c, e), (e, d), (e, e)]
  {
    var L := [a, b, c, d, e];
    assert StepPairs(L, 0) == [(a, b), (a, c), (a, d), (a, e)];
    assert StepPairs(L, 1) == [(c, c), (c, d), (c, e)];
    assert StepPairs(L, 2) == [(e, d), (e, e)];
    assert CursorPairs(L, 1) == StepPairs(L, 0);
    assert CursorPairs(L, 2) == CursorPairs(L, 1) + StepPairs(L, 1);
    assert CursorPairs(L, 3) == CursorPairs(L, 2) + StepPairs(L, 2);
  }

  /** The three-leaf case: the loop visits three pairs, the last a leaf
      paired with itself. */
  lemma ThreeLeaves(a: string, b: string, c: string)
    ensures VisitedPairs([a, b, c]) == [(a, b), (a, c), (c, c)]
  {
    var L := [a, b, c];
    assert StepPairs(L, 0) == [(a, b), (a, c)];
    assert StepPairs(L, 1) == [(c, c)];
    assert CursorPairs(L, 1) == StepPairs(L, 0);
    assert CursorPairs(L, 2) == CursorPairs(L, 1) + StepPairs(L, 1);
  }

  /** With three distinct leaves the pair of the second and third leaf is
      never compared, while the third leaf is compared with itself. */
  lemma ThreeLeavesSkipPair(a: string, b: string, c: string)
    requires a != b && b != c && a != c
    ensures (b, c) !in VisitedPairs([a, b, c]) && (c, b) !in VisitedPairs([a, b, c])
    ensures (c, c) in VisitedPairs([a, b, c])
  {
    ThreeLeaves(a, b, c);
  }

  lemma SumGapsThree(tree1: Tree, tree2: Tree, p: (string, string), q: (string, string), r: (string, string))
    ensures SumGaps(tree1, tree2, [p, q, r]) == Gap(tree1, tree2, p) + Gap(tree1, tree2, q) + Gap(tree1, tree2, r)
  {
    assert [p, q, r] == [p, q] + [r];
    assert [p, q] == [p] + [q];
    assert [p] == [] + [p];
    SumGapsSnoc(tree1, tree2, [], p);
    SumGapsSnoc(tree1, tree2, [p], q);
    SumGapsSnoc(tree1, tree2, [p, q], r);
  }

  /** Only the first tree's leaf order drives the loop, so two trees holding
      the same leaves in different orders can score differently depending on
      which comes first: here 1 one way and 0 the other. */
  lemma LeastSquareAsymmetric(a: string, b: string, c: string)
    requires a != b && b != c && a != c
    ensures var t1 := Tree([a, b, c], (x: string, y: string) => 0.0, []);
            var t2 := Tree([b, a, c], (x: string, y: string) => if x == a && y == c then 1.0 else 0.0, []);
            SumGaps(t1, t2, VisitedPairs(t1.leaves)) == 1.0 && SumGaps(t2, t1, VisitedPairs(t2.leaves)) == 0.0
  {
    var t1 := Tree([a, b, c], (x: string, y: string) => 0.0, []);
    var t2 := Tree([b, a, c], (x: string, y: string) => if x == a && y == c then 1.0 else 0.0, []);
    ThreeLeaves(a, b, c);
    ThreeLeaves(b, a, c);
    SumGapsThree(t1, t2, (a, b), (a, c), (c, c));
    SumGapsThree(t2, t1, (b, a), (b, c), (c, c));
  }

  /** A tree whose distance query gives 0 for a leaf with itself, as a
      patristic distance does. */
  ghost predicate ZeroOnDiagonal(t: Tree)
  {
    forall x :: t.distance(x, x) == 0.0
  }

  /** The pairs of two different leaves, in order. */
  function WithoutSelfPairs(ps: seq<(string, string)>): (qs: seq<(string, string)>)
  {
    if ps == [] then []
    else
      var last := ps[|ps| - 1];
      WithoutSelfPairs(ps[..|ps| - 1]) + if last.0 == last.1 then [] else [last]
  }

  /** For trees that are zero on the diagonal, the self-pairs the loop visits
      add nothing: the score is the sum over the visited pairs of different
      leaves alone. */
  lemma {:induction false} SelfPairsAddNothing(tree1: Tree, tree2: Tree, ps: seq<(string, string)>)
    requires ZeroOnDiagonal(tree1) && ZeroOnDiagonal(tree2)
    ensures SumGaps(tree1, tree2, ps) == SumGaps(tree1, tree2, WithoutSelfPairs(ps))
    ensures forall m :: 0 <= m < |WithoutSelfPairs(ps)| ==> WithoutSelfPairs(ps)[m].0 != WithoutSelfPairs(ps)[m].1
  {
    if ps != [] {
      var init, last := ps[..|ps| - 1], ps[|ps| - 1];
      SelfPairsAddNothing(tree1, tree2, init);
      if last.0 == last.1 {
        assert tree1.distance(last.0, last.0) == 0.0 && tree2.distance(last.0, last.0) == 0.0;
        assert Gap(tree1, tree2, last) == 0.0;
        assert WithoutSelfPairs(ps) == WithoutSelfPairs(init) + [];
        assert WithoutSelfPairs(init) + [] == WithoutSelfPairs(init);
      } else {
        SumGapsSnoc(tree1, tree2, WithoutSelfPairs(init), last);
      }
    }
  }
}
