/**
 * The two backtest-overfitting estimators on the same data: `pbo_cscv` takes
 * strategies as rows, `probability_of_backtest_overfitting` takes periods as rows.
 */
module PboAgreement {
  import opened Wrappers
  import opened Combinations
  import opened Cscv
  import opened PboScores
  import Stats = PboStats
  import Metrics = PboMetrics

  /** matrix[t][i] == series[i][t]. */
  ghost predicate Transposed(series: seq<seq<real>>, matrix: seq<seq<real>>) {
    && Stats.Rectangular(series, |matrix|)
    && Metrics.Rectangular(matrix, |series|)
    && forall i, t :: 0 <= i < |series| && 0 <= t < |matrix| ==> matrix[t][i] == series[i][t]
  }

  /** Both estimators read the same scores from the same rows. */
  lemma SameScores(series: seq<seq<real>>, matrix: seq<seq<real>>, idx: seq<int>, sharpe: seq<real> -> Option<real>)
    requires Transposed(series, matrix) && ValidRows(idx, |matrix|)
    ensures Stats.Scores(series, idx, |matrix|, sharpe) == Metrics.Scores(matrix, idx, |series|, sharpe)
  {
    forall i | 0 <= i < |series|
      ensures Select(series[i], idx) == Metrics.Column(matrix, idx, |series|, i)
    {
      forall j | 0 <= j < |idx|
        ensures Select(series[i], idx)[j] == Metrics.Column(matrix, idx, |series|, i)[j]
      {
        assert idx[j] in idx;
      }
    }
  }

  /** When the chunk count divides the periods, both estimators cut the rows alike. */
  lemma SameCuts(rows: nat, p: nat)
    requires p > 0 && rows % p == 0
    ensures Stats.ChunkCuts(p, rows) == Metrics.SplitCuts(rows, p)
  {
  }

  /** The two tests differ exactly for an odd field and a winner of exact middle rank. */
  ghost predicate MiddleRank(inSample: seq<Option<real>>, oos: seq<Option<real>>, argsort: seq<Float> -> seq<int>)
    requires |inSample| == |oos| && IsArgsort(argsort) && !AllNaN(inSample)
  {
    2 * RankOf(Metrics.Keys(oos), NanArgmax(inSample), argsort) == |oos| + 1
  }

  /**
   * On finite out-of-sample scores the scatter rank is the double-argsort rank, so a
   * stats vote of overfit is a metrics vote of overfit, and the votes differ exactly
   * at the middle rank.
   */
  lemma VotesCompare(inSample: seq<Option<real>>, oos: seq<Option<real>>, argsort: seq<Float> -> seq<int>)
    requires |inSample| == |oos| >= 2 && IsArgsort(argsort) && AllFinite(oos)
    ensures Stats.Vote(inSample, oos, argsort) == Skipped <==> AllNaN(inSample)
    ensures Metrics.Vote(inSample, oos, argsort) == Skipped <==> AllNaN(inSample)
    ensures Stats.Vote(inSample, oos, argsort) == Overfit ==> Metrics.Vote(inSample, oos, argsort) == Overfit
    ensures Stats.Vote(inSample, oos, argsort) != Metrics.Vote(inSample, oos, argsort) <==>
            !AllNaN(inSample) && MiddleRank(inSample, oos, argsort)
  {
    assert oos[0].Some?;
    assert Stats.Keys(oos) == Metrics.Keys(oos);
    if !AllNaN(inSample) {
      Stats.VoteByRank(inSample, oos, argsort);
      Metrics.VoteByRank(inSample, oos, argsort);
    }
  }

  ghost function Scored(oos: seq<Option<real>>): set<int> {
    set j | 0 <= j < |oos| && oos[j].Some?
  }

  ghost function Unscored(oos: seq<Option<real>>): set<int> {
    set j | 0 <= j < |oos| && oos[j].None?
  }

  /**
   * NaN scores sort last for `pbo_cscv` and first for `pbo.py`: a finite winner's two
   * ranks differ by the number of NaN scores.
   */
  lemma RanksDiffer(oos: seq<Option<real>>, best: int, argsort: seq<Float> -> seq<int>)
    requires 0 <= best < |oos| && IsArgsort(argsort) && oos[best].Some? && OwnScore(oos, best)
    ensures RankOf(Metrics.Keys(oos), best, argsort) ==
            RankOf(Stats.Keys(oos), best, argsort) + |Unscored(oos)|
  {
    var last, first := Stats.Keys(oos), Metrics.Keys(oos);
    BelowDiffers(oos, best);
    hide IsArgsort, Untied, BelowAt, Unscored, OwnScore, Stats.Keys, Metrics.Keys;
    RankByCount(last, best, argsort);
    RankByCount(first, best, argsort);
  }

  lemma BelowDiffers(oos: seq<Option<real>>, best: int)
    requires 0 <= best < |oos| && oos[best].Some? && OwnScore(oos, best)
    ensures Untied(Stats.Keys(oos), best) && Untied(Metrics.Keys(oos), best)
    ensures BelowAt(Metrics.Keys(oos), best) == BelowAt(Stats.Keys(oos), best) + Unscored(oos)
    ensures BelowAt(Stats.Keys(oos), best) !! Unscored(oos)
  {
  }

  /** A winner without an out-of-sample score ranks above every score for `pbo_cscv`. */
  lemma UnscoredRanksLast(oos: seq<Option<real>>, best: int, argsort: seq<Float> -> seq<int>)
    requires 0 <= best < |oos| && IsArgsort(argsort) && oos[best].None?
    ensures |Scored(oos)| < RankOf(Stats.Keys(oos), best, argsort)
    ensures |Scored(oos)| == |oos| - 1 ==> RankOf(Stats.Keys(oos), best, argsort) == |oos|
  {
    RankByCount(Stats.Keys(oos), best, argsort);
    assert BelowAt(Stats.Keys(oos), best) == Scored(oos);
  }

  /**
   * With a NaN among the out-of-sample scores the estimators part ways. A winner without
   * a score is skipped by `pbo.py`, while `pbo_cscv` votes, and votes robust as soon as
   * at least half of the others have scores. For a winner with a score of its own the
   * order of the votes turns round: a metrics vote of overfit is a stats vote of overfit,
   * and they differ exactly while the NaN scores move the rank across the middle.
   */
  lemma VotesCompareWithNaN(inSample: seq<Option<real>>, oos: seq<Option<real>>, argsort: seq<Float> -> seq<int>)
    requires |inSample| == |oos| >= 2 && IsArgsort(argsort) && !AllNaN(inSample) && !AllNaN(oos) && !AllFinite(oos)
    ensures var best := NanArgmax(inSample);
            var s, m := Stats.Vote(inSample, oos, argsort), Metrics.Vote(inSample, oos, argsort);
            && s != Skipped
            && (m == Skipped <==> oos[best].None?)
            && (oos[best].None? && 2 * |Scored(oos)| >= |oos| - 1 ==> s == Robust)
            && (oos[best].Some? && OwnScore(oos, best) ==>
                  var rank := RankOf(Stats.Keys(oos), best, argsort);
                  && (m == Overfit ==> s == Overfit)
                  && (s != m <==> 2 * rank <= |oos| < 2 * rank + 2 * |Unscored(oos)| - 1))
  {
    var best := NanArgmax(inSample);
    Stats.VoteByRank(inSample, oos, argsort);
    SomeUnscored(oos);
    if oos[best].None? {
      UnscoredRanksLast(oos, best, argsort);
    } else {
      Metrics.VoteByRank(inSample, oos, argsort);
      if OwnScore(oos, best) {
        RanksDiffer(oos, best, argsort);
      }
    }
  }

  lemma SomeUnscored(oos: seq<Option<real>>)
    requires !AllFinite(oos)
    ensures |Unscored(oos)| >= 1
  {
    var j :| 0 <= j < |oos| && oos[j].None?;
    assert j in Unscored(oos);
  }

  /** Every strategy has a finite out-of-sample score in every combination. */
  ghost predicate FiniteEverywhere(matrix: seq<seq<real>>, strategies: nat, cuts: seq<int>, slices: nat,
                                   combos: seq<seq<int>>, sharpe: seq<real> -> Option<real>)
    requires Metrics.Rectangular(matrix, strategies) && AreCuts(cuts, slices) && cuts[slices] <= |matrix|
  {
    forall c :: 0 <= c < |combos| ==>
      FiniteOutOfSample(matrix, strategies, cuts, slices, combos[c], sharpe)
  }

  ghost predicate FiniteOutOfSample(matrix: seq<seq<real>>, strategies: nat, cuts: seq<int>, slices: nat,
                                    combo: seq<int>, sharpe: seq<real> -> Option<real>)
    requires Metrics.Rectangular(matrix, strategies) && AreCuts(cuts, slices) && cuts[slices] <= |matrix|
  {
    GatherValid(cuts, slices, Complement(combo, slices), |matrix|);
    AllFinite(Metrics.Scores(matrix, Gather(cuts, Complement(combo, slices)), strategies, sharpe))
  }

  /** Votes of the same combination on the same data. */
  lemma ComboVotesCompare(series: seq<seq<real>>, matrix: seq<seq<real>>, cuts: seq<int>, slices: nat, combo: seq<int>,
                          sharpe: seq<real> -> Option<real>, argsort: seq<Float> -> seq<int>)
    requires Transposed(series, matrix) && |series| >= 2 && IsArgsort(argsort)
    requires AreCuts(cuts, slices) && cuts[slices] <= |matrix|
    requires FiniteOutOfSample(matrix, |series|, cuts, slices, combo, sharpe)
    ensures var s := Stats.ComboVote(series, |matrix|, cuts, slices, combo, sharpe, argsort);
            var m := Metrics.ComboVote(matrix, |series|, cuts, slices, combo, sharpe, argsort);
            && (s == Skipped <==> m == Skipped)
            && (s == Overfit ==> m == Overfit)
            && (|series| % 2 == 0 ==> s == m)
  {
    GatherValid(cuts, slices, combo, |matrix|);
    GatherValid(cuts, slices, Complement(combo, slices), |matrix|);
    SameScores(series, matrix, Gather(cuts, combo), sharpe);
    SameScores(series, matrix, Gather(cuts, Complement(combo, slices)), sharpe);
    hide AreCuts, IsArgsort, Gather, Complement;
    VotesCompare(Metrics.Scores(matrix, Gather(cuts, combo), |series|, sharpe),
                 Metrics.Scores(matrix, Gather(cuts, Complement(combo, slices)), |series|, sharpe), argsort);
  }

  lemma {:induction false} CountsCompare(a: seq<Verdict>, b: seq<Verdict>)
    requires |a| == |b|
    requires forall i :: 0 <= i < |a| ==>
               (a[i] == Skipped <==> b[i] == Skipped) && (a[i] == Overfit ==> b[i] == Overfit)
    ensures CountValid(a) == CountValid(b) && CountOverfit(a) <= CountOverfit(b)
  {
    if a != [] {
      CountsCompare(a[..|a| - 1], b[..|b| - 1]);
    }
  }

  /**
   * On the same returns, cut alike and with finite out-of-sample scores, the stats
   * estimate never exceeds the metrics estimate, and for an even number of strategies
   * the two are equal.
   */
  lemma EstimatesCompare(series: seq<seq<real>>, matrix: seq<seq<real>>, p: nat,
                         sharpe: seq<real> -> Option<real>, argsort: seq<Float> -> seq<int>)
    requires Transposed(series, matrix) && |series| >= 2 && IsArgsort(argsort)
    requires p > 0 && |matrix| % p == 0
    requires FiniteEverywhere(matrix, |series|, Metrics.SplitCuts(|matrix|, p), p, Combos(p, p / 2), sharpe)
    ensures var combos := Combos(p, p / 2);
            var s := Fraction(Stats.Votes(series, |matrix|, Stats.ChunkCuts(p, |matrix|), p, combos, sharpe, argsort));
            var m := Fraction(
              Metrics.Votes(matrix, |series|, Metrics.SplitCuts(|matrix|, p), p, combos, sharpe, argsort));
            && (s.None? <==> m.None?)
            && (s.Some? ==> s.value <= m.value)
            && (|series| % 2 == 0 ==> s == m)
  {
    SameCuts(|matrix|, p);
    var cuts, combos := Metrics.SplitCuts(|matrix|, p), Combos(p, p / 2);
    var s := Stats.Votes(series, |matrix|, cuts, p, combos, sharpe, argsort);
    var m := Metrics.Votes(matrix, |series|, cuts, p, combos, sharpe, argsort);
    forall c | 0 <= c < |combos|
      ensures (s[c] == Skipped <==> m[c] == Skipped) && (s[c] == Overfit ==> m[c] == Overfit)
      ensures |series| % 2 == 0 ==> s[c] == m[c]
    {
      ComboVotesCompare(series, matrix, cuts, p, combos[c], sharpe, argsort);
    }
    CountsCompare(s, m);
    if CountValid(s) > 0 {
      ShareMonotone(CountOverfit(s), CountOverfit(m), CountValid(s));
    }
    if |series| % 2 == 0 {
      assert s == m;
    }
  }
}
