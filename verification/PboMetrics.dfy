/** `probability_of_backtest_overfitting` in metrics/pbo.py: periods are rows, strategies columns. */
module PboMetrics {
  import opened Wrappers
  import opened Combinations
  import opened Cscv
  import opened PboScores

  datatype PboError = TooFewStrategies | BadSliceCount | TooFewRows | NegativeSampleSize

  // ---------------------------------------------------------------- slices

  /** Where slice s starts: slices of size base, the first `extra` of them one longer. */
  function SplitAt(rows: nat, slices: nat, s: int): int
    requires slices > 0
  {
    s * (rows / slices) + (if s < rows % slices then s else rows % slices)
  }

  function SplitCuts(rows: nat, slices: nat): (cuts: seq<int>)
    requires slices > 0
    ensures AreCuts(cuts, slices) && cuts[slices] == rows
    ensures forall s :: 0 <= s < slices ==>
              cuts[s + 1] - cuts[s] == rows / slices + if s < rows % slices then 1 else 0
  {
    hide SplitAt;
    SplitEnds(rows, slices);
    SplitSteps(rows, slices);
    SplitMonotone(rows, slices);
    seq(slices + 1, s requires 0 <= s < slices + 1 => SplitAt(rows, slices, s))
  }

  lemma SplitEnds(rows: nat, slices: nat)
    requires slices > 0
    ensures SplitAt(rows, slices, 0) == 0 && SplitAt(rows, slices, slices) == rows
  {
  }

  lemma SplitSteps(rows: nat, slices: nat)
    requires slices > 0
    ensures forall s: int :: 0 <= s < slices ==>
              SplitAt(rows, slices, s + 1) - SplitAt(rows, slices, s) ==
                rows / slices + if s < rows % slices then 1 else 0
  {
    hide SplitAt;
    forall s: int | 0 <= s < slices
      ensures SplitAt(rows, slices, s + 1) - SplitAt(rows, slices, s) ==
                rows / slices + if s < rows % slices then 1 else 0
    {
      SplitStep(rows, slices, s);
    }
  }

  lemma SplitStep(rows: nat, slices: nat, s: int)
    requires slices > 0
    ensures SplitAt(rows, slices, s + 1) ==
            SplitAt(rows, slices, s) + rows / slices + (if s < rows % slices then 1 else 0)
  {
  }

  lemma SplitMonotone(rows: nat, slices: nat)
    requires slices > 0
    ensures forall a: int, b: int :: 0 <= a < b <= slices ==> SplitAt(rows, slices, a) <= SplitAt(rows, slices, b)
  {
    forall a: int, b: int | 0 <= a < b <= slices
      ensures SplitAt(rows, slices, a) <= SplitAt(rows, slices, b)
    {
      assert (b - a) * (rows / slices) >= 0;
    }
  }

  /** `_split_indices`: the cursor loop. */
  method SplitIndices(rows: nat, slices: nat) returns (out: seq<seq<int>>)
    requires slices > 0
    ensures |out| == slices
    ensures forall s :: 0 <= s < slices ==> out[s] == SliceRows(SplitCuts(rows, slices), s)
  {
    var base, extra := rows / slices, rows % slices;
    ghost var cuts := SplitCuts(rows, slices);
    out := [];
    var cursor := 0;
    for s := 0 to slices
      invariant |out| == s && cursor == cuts[s]
      invariant forall q :: 0 <= q < s ==> out[q] == SliceRows(cuts, q)
    {
      var size := base + (if s < extra then 1 else 0);
      SplitStep(rows, slices, s);
      out := out + [Range(cursor, cursor + size)];
      cursor := cursor + size;
    }
  }

  /** `np.concatenate([slices[s] for s in chosen])` over the computed slices. */
  function Concat(slices: seq<seq<int>>, chosen: seq<int>): seq<int>
    requires forall s :: s in chosen ==> 0 <= s < |slices|
  {
    if chosen == [] then []
    else
      assert chosen[0] in chosen && forall s :: s in chosen[1..] ==> s in chosen;
      slices[chosen[0]] + Concat(slices, chosen[1..])
  }

  lemma {:induction false} ConcatIsGather(out: seq<seq<int>>, cuts: seq<int>, chosen: seq<int>)
    requires forall s :: s in chosen ==> 0 <= s < |out|
    requires forall s :: 0 <= s < |out| ==> out[s] == SliceRows(cuts, s)
    ensures Concat(out, chosen) == Gather(cuts, chosen)
  {
    if chosen != [] {
      assert chosen[0] in chosen && forall s :: s in chosen[1..] ==> s in chosen;
      ConcatIsGather(out, cuts, chosen[1..]);
    }
  }

  // ---------------------------------------------------------------- scores and votes

  ghost predicate Rectangular(matrix: seq<seq<real>>, strategies: nat) {
    forall t :: 0 <= t < |matrix| ==> |matrix[t]| == strategies
  }

  /** Column i of the slab of rows idx. */
  function Column(matrix: seq<seq<real>>, idx: seq<int>, strategies: nat, i: int): (r: seq<real>)
    requires Rectangular(matrix, strategies) && ValidRows(idx, |matrix|) && 0 <= i < strategies
    ensures |r| == |idx| && forall j :: 0 <= j < |idx| ==> 0 <= idx[j] < |matrix| && r[j] == matrix[idx[j]][i]
  {
    assert forall j :: 0 <= j < |idx| ==> idx[j] in idx;
    seq(|idx|, j requires 0 <= j < |idx| => assert idx[j] in idx; matrix[idx[j]][i])
  }

  /** `_slice_sharpe(M[idx])`, one score per strategy. */
  function Scores(matrix: seq<seq<real>>, idx: seq<int>, strategies: nat, sharpe: seq<real> -> Option<real>)
    : (s: seq<Option<real>>)
    requires Rectangular(matrix, strategies) && ValidRows(idx, |matrix|)
    ensures |s| == strategies
    ensures forall i :: 0 <= i < strategies ==> s[i] == sharpe(Column(matrix, idx, strategies, i))
  {
    seq(strategies, i requires 0 <= i < strategies => sharpe(Column(matrix, idx, strategies, i)))
  }

  /** `np.where(finite_mask, oos_sr, -np.inf)`. */
  function Keys(oos: seq<Option<real>>): (k: seq<Float>) {
    seq(|oos|, i requires 0 <= i < |oos| => if oos[i].Some? then Finite(oos[i].value) else NegInf)
  }

  /** `ranks[order] = np.arange(1, N + 1)`. */
  method ScatterRanks(order: seq<int>, n: nat) returns (ranks: array<int>)
    requires IsPermutation(order, n)
    ensures fresh(ranks) && ranks.Length == n
    ensures forall x :: 0 <= x < n ==> ranks[x] == PositionIn(order, n, x) + 1
  {
    ranks := new int[n];
    for t := 0 to n
      invariant forall q :: 0 <= q < t ==> ranks[order[q]] == q + 1
    {
      ranks[order[t]] := t + 1;
    }
    forall x | 0 <= x < n
      ensures ranks[x] == PositionIn(order, n, x) + 1
    {
      assert ranks[order[PositionIn(order, n, x)]] == PositionIn(order, n, x) + 1;
    }
  }

  /** `omega = r / (N + 1)`. */
  function Omega(rank: int, strategies: nat): (omega: real)
    requires 1 <= rank <= strategies
    ensures 0.0 < omega < 1.0
  {
    ProperFraction(rank, strategies + 1);
    rank as real / (strategies + 1) as real
  }

  /** The vote of one combination, from its two score vectors. */
  ghost function Vote(inSample: seq<Option<real>>, oos: seq<Option<real>>, argsort: seq<Float> -> seq<int>): Verdict
    requires |inSample| == |oos| && IsArgsort(argsort)
  {
    if AllNaN(inSample) || AllNaN(oos) then Skipped
    else
      var best := NanArgmax(inSample);
      if oos[best].None? then Skipped
      else if LogitNotPositive(Omega(RankOf(Keys(oos), best, argsort), |oos|)) then Overfit
      else Robust
  }

  ghost function ComboVote(matrix: seq<seq<real>>, strategies: nat, cuts: seq<int>, slices: nat, combo: seq<int>,
                           sharpe: seq<real> -> Option<real>, argsort: seq<Float> -> seq<int>): Verdict
    requires Rectangular(matrix, strategies) && IsArgsort(argsort)
    requires AreCuts(cuts, slices) && cuts[slices] <= |matrix|
  {
    GatherValid(cuts, slices, combo, |matrix|);
    GatherValid(cuts, slices, Complement(combo, slices), |matrix|);
    Vote(Scores(matrix, Gather(cuts, combo), strategies, sharpe),
         Scores(matrix, Gather(cuts, Complement(combo, slices)), strategies, sharpe), argsort)
  }

  ghost function Votes(matrix: seq<seq<real>>, strategies: nat, cuts: seq<int>, slices: nat, combos: seq<seq<int>>,
                       sharpe: seq<real> -> Option<real>, argsort: seq<Float> -> seq<int>): (vs: seq<Verdict>)
    requires Rectangular(matrix, strategies) && IsArgsort(argsort)
    requires AreCuts(cuts, slices) && cuts[slices] <= |matrix|
    ensures |vs| == |combos|
  {
    seq(|combos|, c requires 0 <= c < |combos| =>
      ComboVote(matrix, strategies, cuts, slices, combos[c], sharpe, argsort))
  }

  // ---------------------------------------------------------------- the estimator

  /** `rng.choice(total, size=size, replace=False)`: some distinct positions below total. */
  ghost predicate IsDraw(draw: (nat, nat) -> seq<int>) {
    forall total: nat, size: nat :: size <= total ==> IsSample(draw(total, size), total, size)
  }

  ghost predicate IsSample(positions: seq<int>, total: nat, size: nat) {
    |positions| == size && Distinct(positions) && forall i :: 0 <= i < size ==> 0 <= positions[i] < total
  }

  /** `max_combinations` samples only when it is smaller than the number of combinations. */
  predicate Sampled(maxCombinations: Option<int>, total: nat) {
    maxCombinations.Some? && maxCombinations.value < total
  }

  /** The combinations the loop visits: all of them, or those drawn. */
  function ChosenCombos(all: seq<seq<int>>, maxCombinations: Option<int>, draw: (nat, nat) -> seq<int>)
    : (chosen: seq<seq<int>>)
    requires IsDraw(draw) && (Sampled(maxCombinations, |all|) ==> maxCombinations.value >= 0)
    ensures maxCombinations.None? || maxCombinations.value >= |all| ==> chosen == all
    ensures maxCombinations.Some? && maxCombinations.value < |all| ==>
              var positions := draw(|all|, maxCombinations.value);
              && |chosen| == |positions|
              && forall i :: 0 <= i < |chosen| ==> 0 <= positions[i] < |all| && chosen[i] == all[positions[i]]
    ensures forall c :: c in chosen ==> c in all
    ensures |chosen| == if Sampled(maxCombinations, |all|) then maxCombinations.value else |all|
    ensures Distinct(all) ==> Distinct(chosen)
  {
    if Sampled(maxCombinations, |all|) then
      var positions := draw(|all|, maxCombinations.value);
      assert IsSample(positions, |all|, maxCombinations.value);
      seq(|positions|, i requires 0 <= i < |positions| => all[positions[i]])
    else all
  }

  method Pbo(matrix: seq<seq<real>>, strategies: nat, slices: int, maxCombinations: Option<int>,
             sharpe: seq<real> -> Option<real>, argsort: seq<Float> -> seq<int>, draw: (nat, nat) -> seq<int>)
    returns (r: Result<Option<real>, PboError>)
    requires Rectangular(matrix, strategies) && IsArgsort(argsort) && IsDraw(draw)
    ensures strategies < 2 ==> r == Err(TooFewStrategies)
    ensures strategies >= 2 && (slices % 2 != 0 || slices < 4) ==> r == Err(BadSliceCount)
    ensures strategies >= 2 && slices % 2 == 0 && slices >= 4 ==>
              var all := Combos(slices, slices / 2);
              if |matrix| < slices then r == Err(TooFewRows)
              else if Sampled(maxCombinations, |all|) && maxCombinations.value < 0 then r == Err(NegativeSampleSize)
              else
                r == Ok(Fraction(Votes(matrix, strategies, SplitCuts(|matrix|, slices), slices,
                                       ChosenCombos(all, maxCombinations, draw), sharpe, argsort)))
  {
    if strategies < 2 {
      return Err(TooFewStrategies);
    }
    if slices % 2 != 0 || slices < 4 {
      return Err(BadSliceCount);
    }
    if |matrix| < slices {
      return Err(TooFewRows);
    }
    var all := Combos(slices, slices / 2);
    if Sampled(maxCombinations, |all|) && maxCombinations.value < 0 {
      return Err(NegativeSampleSize);
    }
    var combos := ChosenCombos(all, maxCombinations, draw);
    CombosSound(0, slices, slices / 2);
    hide CombosFrom, ChosenCombos, IsArgsort, IsDraw, Rectangular;
    forall c | 0 <= c < |combos|
      ensures IsCombo(combos[c], 0, slices, slices / 2)
    {
      assert combos[c] in combos;
    }
    var fraction := VoteOverCombos(matrix, strategies, slices, combos, sharpe, argsort);
    r := Ok(fraction);
  }

  /** The loop over the combinations. */
  method VoteOverCombos(matrix: seq<seq<real>>, strategies: nat, n: nat, combos: seq<seq<int>>,
                        sharpe: seq<real> -> Option<real>, argsort: seq<Float> -> seq<int>)
    returns (r: Option<real>)
    requires Rectangular(matrix, strategies) && IsArgsort(argsort) && n > 0
    requires forall c :: 0 <= c < |combos| ==> IsCombo(combos[c], 0, n, n / 2)
    ensures r == Fraction(Votes(matrix, strategies, SplitCuts(|matrix|, n), n, combos, sharpe, argsort))
  {
    var slices := SplitIndices(|matrix|, n);
    ghost var vs := Votes(matrix, strategies, SplitCuts(|matrix|, n), n, combos, sharpe, argsort);
    hide AreCuts, IsArgsort, Gather, Complement, SplitCuts, Rectangular;
    var overfitCount, valid := 0, 0;
    for c := 0 to |combos|
      invariant valid == CountValid(vs[..c])
      invariant overfitCount == CountOverfit(vs[..c])
    {
      CountStep(vs, c);
      assert IsCombo(combos[c], 0, n, n / 2);
      var vote := VoteOn(matrix, strategies, slices, n, combos[c], sharpe, argsort);
      assert vs[c] == vote;
      if vote == Skipped {
        continue;
      }
      if vote == Overfit {
        overfitCount := overfitCount + 1;
      }
      valid := valid + 1;
    }
    assert vs[..|combos|] == vs;
    r := if valid > 0 then Some(overfitCount as real / valid as real) else None;
  }

  lemma ArgsortPermutes(argsort: seq<Float> -> seq<int>, s: seq<Float>)
    requires IsArgsort(argsort)
    ensures IsPermutation(argsort(s), |s|)
  {
  }

  /** One pass of the loop body. */
  method VoteOn(matrix: seq<seq<real>>, strategies: nat, slices: seq<seq<int>>, n: nat, combo: seq<int>,
                sharpe: seq<real> -> Option<real>, argsort: seq<Float> -> seq<int>)
    returns (v: Verdict)
    requires Rectangular(matrix, strategies) && IsArgsort(argsort) && n > 0
    requires forall s :: s in combo ==> 0 <= s < n
    requires |slices| == n && forall s :: 0 <= s < n ==> slices[s] == SliceRows(SplitCuts(|matrix|, n), s)
    ensures v == ComboVote(matrix, strategies, SplitCuts(|matrix|, n), n, combo, sharpe, argsort)
  {
    ghost var cuts := SplitCuts(|matrix|, n);
    var rest := Complement(combo, n);
    ConcatIsGather(slices, cuts, combo);
    ConcatIsGather(slices, cuts, rest);
    GatherValid(cuts, n, combo, |matrix|);
    GatherValid(cuts, n, rest, |matrix|);
    hide SplitCuts, AreCuts, Rectangular, Complement, Gather, IsArgsort, IsPermutation, Concat, SliceRows;
    var inSample := Scores(matrix, Concat(slices, combo), strategies, sharpe);
    var oos := Scores(matrix, Concat(slices, rest), strategies, sharpe);
    hide Scores, Vote;
    v := VoteOnScores(inSample, oos, strategies, argsort);
  }

  /** The verdict of one pass, from the scores of the two sides. */
  method VoteOnScores(inSample: seq<Option<real>>, oos: seq<Option<real>>, strategies: nat,
                      argsort: seq<Float> -> seq<int>) returns (v: Verdict)
    requires |inSample| == |oos| == strategies && IsArgsort(argsort)
    ensures v == Vote(inSample, oos, argsort)
  {
    if AllNaN(inSample) || AllNaN(oos) {
      return Skipped;
    }
    var best := NanArgmax(inSample);
    if oos[best].None? {
      return Skipped;
    }
    ArgsortPermutes(argsort, Keys(oos));
    hide IsArgsort, IsPermutation, LogitNotPositive, Omega, Keys;
    var ranks := ScatterRanks(argsort(Keys(oos)), strategies);
    v := if LogitNotPositive(Omega(ranks[best], strategies)) then Overfit else Robust;
  }

  /** The metrics test in integers: the winner's rank r satisfies 2r <= N + 1. */
  lemma VoteByRank(inSample: seq<Option<real>>, oos: seq<Option<real>>, argsort: seq<Float> -> seq<int>)
    requires |inSample| == |oos| && IsArgsort(argsort) && !AllNaN(inSample) && !AllNaN(oos)
    requires oos[NanArgmax(inSample)].Some?
    ensures Vote(inSample, oos, argsort) ==
            if 2 * RankOf(Keys(oos), NanArgmax(inSample), argsort) <= |oos| + 1 then Overfit else Robust
  {
    var rank := RankOf(Keys(oos), NanArgmax(inSample), argsort);
    HalfQuotient(rank, |oos| + 1);
    LogitSign(Omega(rank, |oos|));
  }

  /** A combination votes unless a side has no score at all, or the winner none out of sample. */
  lemma VoteSkippedIff(inSample: seq<Option<real>>, oos: seq<Option<real>>, argsort: seq<Float> -> seq<int>)
    requires |inSample| == |oos| && IsArgsort(argsort)
    ensures Vote(inSample, oos, argsort) == Skipped <==>
            || (forall i :: 0 <= i < |inSample| ==> inSample[i].None?)
            || (forall i :: 0 <= i < |oos| ==> oos[i].None?)
            || (!AllNaN(inSample) && oos[NanArgmax(inSample)].None?)
  {
    hide IsArgsort;
  }

  /**
   * What a combination votes, from the rows of its slices and all the other rows: overfit
   * exactly when the winner on the former ranks at most (N + 1) / 2 on the latter.
   */
  lemma ComboVoteMeans(matrix: seq<seq<real>>, strategies: nat, cuts: seq<int>, slices: nat, combo: seq<int>,
                       sharpe: seq<real> -> Option<real>, argsort: seq<Float> -> seq<int>,
                       inRows: seq<int>, outRows: seq<int>)
    requires Rectangular(matrix, strategies) && IsArgsort(argsort)
    requires AreCuts(cuts, slices) && cuts[slices] <= |matrix| && IsCombo(combo, 0, slices, |combo|)
    requires AreSides(cuts, slices, combo, inRows, outRows)
    ensures ValidRows(inRows, |matrix|) && ValidRows(outRows, |matrix|)
    ensures var inSample, oos := Scores(matrix, inRows, strategies, sharpe),
                                 Scores(matrix, outRows, strategies, sharpe);
            ComboVote(matrix, strategies, cuts, slices, combo, sharpe, argsort) ==
              if AllNaN(inSample) || AllNaN(oos) || oos[NanArgmax(inSample)].None? then Skipped
              else if 2 * RankOf(Keys(oos), NanArgmax(inSample), argsort) <= strategies + 1 then Overfit
              else Robust
  {
    SidesAreGathered(cuts, slices, |combo|, combo, inRows, outRows);
    GatherValid(cuts, slices, combo, |matrix|);
    GatherValid(cuts, slices, Complement(combo, slices), |matrix|);
    var inSample, oos := Scores(matrix, inRows, strategies, sharpe), Scores(matrix, outRows, strategies, sharpe);
    hide Gather, Complement, AreCuts, AreSides, IsArgsort, Scores;
    if !AllNaN(inSample) && !AllNaN(oos) && oos[NanArgmax(inSample)].Some? {
      VoteByRank(inSample, oos, argsort);
    }
  }

  // ---------------------------------------------------------------- the split is symmetric

  /**
   * Over every half-size combination the in-sample and out-of-sample rows partition
   * all rows; the complement is also enumerated; each slice is in-sample half the time.
   */
  lemma SymmetricSplit(rows: nat, slices: nat, c: nat, s: nat)
    requires slices > 0 && slices % 2 == 0 && s < slices && c < |Combos(slices, slices / 2)|
    ensures var combos, cuts := Combos(slices, slices / 2), SplitCuts(rows, slices);
            && IsPartition(Gather(cuts, combos[c]), Gather(cuts, Complement(combos[c], slices)), rows)
            && Complement(combos[c], slices) in combos
            && 2 * CountContaining(combos, s) == |combos|
  {
    hide SplitAt, CombosFrom, CountContaining, IsPartition, Gather, IsCombo;
    var combos := Combos(slices, slices / 2);
    CombosSound(0, slices, slices / 2);
    assert IsCombo(combos[c], 0, slices, slices / 2);
    assert combos[c] in combos;
    RowsPartition(SplitCuts(rows, slices), slices, slices / 2, combos[c]);
    ComplementIsCombo(combos[c], slices, slices / 2);
    HalfOfCombos(slices / 2, s);
    assert slices - slices / 2 == slices / 2 && 2 * (slices / 2) == slices;
  }
}
