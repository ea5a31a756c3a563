/** `pbo_cscv` in stats.py: strategies are rows, equal chunks, trailing observations dropped. */
module PboStats {
  import opened Wrappers
  import opened Combinations
  import opened Cscv
  import opened PboScores

  datatype PboError = OddPartitions

  /** Where chunk s starts: `i * chunk_size`. */
  function ChunkStart(s: int, size: nat): int {
    s * size
  }

  /** Chunk boundaries 0, size, 2*size, ..., p*size for size = observations // p. */
  function ChunkCuts(p: nat, observations: nat): (cuts: seq<int>)
    requires p > 0
    ensures AreCuts(cuts, p) && observations - p < cuts[p] <= observations
    ensures forall s :: 0 <= s < p ==> cuts[s + 1] == cuts[s] + observations / p
  {
    var size := observations / p;
    ChunksFit(p, observations);
    ChunksAdvance(p, size);
    hide ChunkStart;
    seq(p + 1, s requires 0 <= s < p + 1 => ChunkStart(s, size))
  }

  lemma ChunksFit(p: nat, observations: nat)
    requires p > 0
    ensures observations - p < ChunkStart(p, observations / p) <= observations
  {
    assert observations == p * (observations / p) + observations % p;
  }

  lemma NextChunk(s: int, size: nat)
    ensures ChunkStart(s + 1, size) == ChunkStart(s, size) + size
  {
  }

  lemma {:induction false} ChunksGrow(a: int, b: int, size: nat)
    requires a <= b
    ensures ChunkStart(a, size) <= ChunkStart(b, size)
    decreases b - a
  {
    if a < b {
      NextChunk(b - 1, size);
      hide ChunkStart;
      ChunksGrow(a, b - 1, size);
    }
  }

  lemma ChunksAdvance(p: nat, size: nat)
    ensures ChunkStart(0, size) == 0
    ensures forall s :: 0 <= s < p ==> ChunkStart(s + 1, size) == ChunkStart(s, size) + size
    ensures forall a, b :: 0 <= a < b <= p ==> ChunkStart(a, size) <= ChunkStart(b, size)
  {
    assert ChunkStart(0, size) == 0;
    hide ChunkStart;
    forall s | 0 <= s < p
      ensures ChunkStart(s + 1, size) == ChunkStart(s, size) + size
    {
      NextChunk(s, size);
    }
    forall a: int, b: int | 0 <= a < b <= p
      ensures ChunkStart(a, size) <= ChunkStart(b, size)
    {
      ChunksGrow(a, b, size);
    }
  }

  /** The default chunk count: the cap or the observation count, rounded down to even. */
  function Partitions(requested: Option<int>, cap: int, observations: nat): (p: int)
    ensures requested.Some? ==> p == requested.value
    ensures requested.None? && cap <= observations ==> p == cap - cap % 2
    ensures requested.None? && cap > observations ==> p == observations - observations % 2
  {
    match requested
    case Some(p) => p
    case None =>
      var pick := if cap < observations then cap else observations;
      if pick % 2 == 0 then pick else pick - 1
  }

  ghost predicate Rectangular(matrix: seq<seq<real>>, observations: nat) {
    forall i :: 0 <= i < |matrix| ==> |matrix[i]| == observations
  }

  /** `_row_sharpe(R[:, idx])`, one score per strategy. */
  function Scores(matrix: seq<seq<real>>, idx: seq<int>, ghost observations: nat, sharpe: seq<real> -> Option<real>)
    : (s: seq<Option<real>>)
    requires Rectangular(matrix, observations) && ValidRows(idx, observations)
    ensures |s| == |matrix|
    ensures forall i :: 0 <= i < |matrix| ==> s[i] == sharpe(Select(matrix[i], idx))
  {
    seq(|matrix|, i requires 0 <= i < |matrix| => sharpe(Select(matrix[i], idx)))
  }

  /** Out-of-sample scores as `np.argsort` sees them: NaN stays NaN and sorts last. */
  function Keys(oos: seq<Option<real>>): (k: seq<Float>) {
    seq(|oos|, i requires 0 <= i < |oos| => if oos[i].Some? then Finite(oos[i].value) else NaN)
  }

  const TINY := 0.000_000_001

  function Clip(omega: real): (r: real)
    ensures 0.0 < r < 1.0
  {
    var low := if omega > TINY then omega else TINY;
    if low < 1.0 - TINY then low else 1.0 - TINY
  }

  /** The vote of one combination, from its two score vectors. */
  function Vote(inSample: seq<Option<real>>, oos: seq<Option<real>>, argsort: seq<Float> -> seq<int>): Verdict
    requires |inSample| == |oos| && IsArgsort(argsort)
  {
    if AllNaN(inSample) || AllNaN(oos) then Skipped
    else if LogitNotPositive(Omega(NanArgmax(inSample), oos, argsort)) then Overfit
    else Robust
  }

  /** The clipped relative rank of the in-sample winner, by double argsort. */
  function Omega(best: int, oos: seq<Option<real>>, argsort: seq<Float> -> seq<int>): (omega: real)
    requires 0 <= best < |oos| && IsArgsort(argsort)
    ensures 0.0 < omega < 1.0
  {
    ArgsortLength(argsort, Keys(oos));
    ArgsortLength(argsort, AsFloats(argsort(Keys(oos))));
    var ranks := argsort(AsFloats(argsort(Keys(oos))));
    Clip((ranks[best] + 1) as real / |oos| as real)
  }

  lemma ArgsortLength(argsort: seq<Float> -> seq<int>, s: seq<Float>)
    requires IsArgsort(argsort)
    ensures |argsort(s)| == |s|
  {
  }

  /** The vote of one combination of chunks. */
  function ComboVote(matrix: seq<seq<real>>, ghost observations: nat, cuts: seq<int>, slices: nat, combo: seq<int>,
                     sharpe: seq<real> -> Option<real>, argsort: seq<Float> -> seq<int>): Verdict
    requires Rectangular(matrix, observations) && IsArgsort(argsort)
    requires AreCuts(cuts, slices) && cuts[slices] <= observations
  {
    GatherValid(cuts, slices, combo, observations);
    GatherValid(cuts, slices, Complement(combo, slices), observations);
    Vote(Scores(matrix, Gather(cuts, combo), observations, sharpe),
         Scores(matrix, Gather(cuts, Complement(combo, slices)), observations, sharpe), argsort)
  }

  function Votes(matrix: seq<seq<real>>, ghost observations: nat, cuts: seq<int>, slices: nat, combos: seq<seq<int>>,
                 sharpe: seq<real> -> Option<real>, argsort: seq<Float> -> seq<int>): (vs: seq<Verdict>)
    requires Rectangular(matrix, observations) && IsArgsort(argsort)
    requires AreCuts(cuts, slices) && cuts[slices] <= observations
    ensures |vs| == |combos|
  {
    seq(|combos|, c requires 0 <= c < |combos| =>
      ComboVote(matrix, observations, cuts, slices, combos[c], sharpe, argsort))
  }

  /**
   * The answer for p chunks: an error unless p is even and at least 2, NaN for fewer
   * observations than chunks, and otherwise the share of overfit votes over all halves.
   */
  ghost predicate IsPboOf(r: Result<Option<real>, PboError>, matrix: seq<seq<real>>, observations: nat, p: int,
                          sharpe: seq<real> -> Option<real>, argsort: seq<Float> -> seq<int>)
    requires Rectangular(matrix, observations) && IsArgsort(argsort)
  {
    if p < 2 || p % 2 != 0 then r == Err(OddPartitions)
    else if observations < p then r == Ok(None)
    else
      r == Ok(Fraction(Votes(matrix, observations, ChunkCuts(p, observations), p, Combos(p, p / 2), sharpe, argsort)))
  }

  method PboCscv(matrix: seq<seq<real>>, observations: nat, requested: Option<int>, cap: int,
                 sharpe: seq<real> -> Option<real>, argsort: seq<Float> -> seq<int>)
    returns (r: Result<Option<real>, PboError>)
    requires Rectangular(matrix, observations) && IsArgsort(argsort)
    ensures |matrix| < 2 || observations < 4 ==> r == Ok(None)
    ensures |matrix| >= 2 && observations >= 4 && requested.Some? ==>
              IsPboOf(r, matrix, observations, requested.value, sharpe, argsort)
    ensures |matrix| >= 2 && observations >= 4 && requested.None? ==>
              var cut := if cap <= observations then cap else observations;
              IsPboOf(r, matrix, observations, cut - cut % 2, sharpe, argsort)
  {
    hide IsPboOf, Partitions, IsArgsort, Rectangular;
    if |matrix| < 2 || observations < 4 {
      return Ok(None);
    }
    r := PboOf(matrix, observations, Partitions(requested, cap, observations), sharpe, argsort);
  }

  /** The estimate for a given number of chunks. */
  method PboOf(matrix: seq<seq<real>>, observations: nat, p: int, sharpe: seq<real> -> Option<real>,
               argsort: seq<Float> -> seq<int>) returns (r: Result<Option<real>, PboError>)
    requires Rectangular(matrix, observations) && IsArgsort(argsort)
    ensures IsPboOf(r, matrix, observations, p, sharpe, argsort)
  {
    if p < 2 || p % 2 != 0 {
      return Err(OddPartitions);
    }
    hide IsArgsort, Rectangular, AreCuts, Votes, Fraction, CombosFrom, ChunkCuts;
    QuotientPositive(observations, p);
    if observations / p < 1 {
      return Ok(None);
    }
    var fraction := VoteOverCombos(matrix, observations, ChunkCuts(p, observations), p, sharpe, argsort);
    r := Ok(fraction);
  }

  /** The loop over combinations. A logit is recorded as its sign: true when it is at most zero. */
  method VoteOverCombos(matrix: seq<seq<real>>, observations: nat, cuts: seq<int>, p: nat,
                        sharpe: seq<real> -> Option<real>, argsort: seq<Float> -> seq<int>)
    returns (r: Option<real>)
    requires Rectangular(matrix, observations) && IsArgsort(argsort)
    requires AreCuts(cuts, p) && cuts[p] <= observations
    ensures r == Fraction(Votes(matrix, observations, cuts, p, Combos(p, p / 2), sharpe, argsort))
  {
    hide Combos, AreCuts, IsArgsort, Gather, Complement;
    var combos := Combos(p, p / 2);
    ghost var vs := Votes(matrix, observations, cuts, p, combos, sharpe, argsort);
    var logits: seq<bool> := [];
    for c := 0 to |combos|
      invariant |logits| == CountValid(vs[..c])
      invariant CountTrue(logits) == CountOverfit(vs[..c])
    {
      CountStep(vs, c);
      GatherValid(cuts, p, combos[c], observations);
      GatherValid(cuts, p, Complement(combos[c], p), observations);
      var inSample := Scores(matrix, Gather(cuts, combos[c]), observations, sharpe);
      var oos := Scores(matrix, Gather(cuts, Complement(combos[c], p)), observations, sharpe);
      assert vs[c] == Vote(inSample, oos, argsort);
      if AllNaN(inSample) || AllNaN(oos) {
        continue;
      }
      var omega := Omega(NanArgmax(inSample), oos, argsort);
      logits := logits + [LogitNotPositive(omega)];
    }
    assert vs[..|combos|] == vs;
    if logits == [] {
      return None;
    }
    r := Some(CountTrue(logits) as real / |logits| as real);
  }

  function CountTrue(bs: seq<bool>): nat {
    if bs == [] then 0 else CountTrue(bs[..|bs| - 1]) + (if bs[|bs| - 1] then 1 else 0)
  }

  lemma QuotientPositive(a: nat, p: int)
    requires p > 0
    ensures a / p >= 1 <==> a >= p
  {
  }

  /** The stats test in integers: the winner's rank r satisfies 2r <= N. The clip never matters. */
  lemma VoteByRank(inSample: seq<Option<real>>, oos: seq<Option<real>>, argsort: seq<Float> -> seq<int>)
    requires |inSample| == |oos| >= 2 && IsArgsort(argsort) && !AllNaN(inSample) && !AllNaN(oos)
    ensures Vote(inSample, oos, argsort) ==
            if 2 * RankOf(Keys(oos), NanArgmax(inSample), argsort) <= |oos| then Overfit else Robust
  {
    var best, n := NanArgmax(inSample), |oos|;
    DoubleArgsortIsPosition(argsort, Keys(oos), best);
    var rank := RankOf(Keys(oos), best, argsort);
    HalfQuotient(rank, n);
    LogitSign(Omega(best, oos, argsort));
  }

  /** A combination votes unless one side has no score at all. */
  lemma VoteSkippedIff(inSample: seq<Option<real>>, oos: seq<Option<real>>, argsort: seq<Float> -> seq<int>)
    requires |inSample| == |oos| >= 2 && IsArgsort(argsort)
    ensures Vote(inSample, oos, argsort) == Skipped <==>
            (forall i :: 0 <= i < |inSample| ==> inSample[i].None?) || (forall i :: 0 <= i < |oos| ==> oos[i].None?)
  {
    hide IsArgsort;
  }

  /**
   * What a combination votes, from the rows of its chunks and all the other rows: overfit
   * exactly when the winner on the former ranks in the lower half on the latter.
   */
  lemma ComboVoteMeans(matrix: seq<seq<real>>, observations: nat, cuts: seq<int>, slices: nat, combo: seq<int>,
                       sharpe: seq<real> -> Option<real>, argsort: seq<Float> -> seq<int>,
                       inRows: seq<int>, outRows: seq<int>)
    requires |matrix| >= 2 && Rectangular(matrix, observations) && IsArgsort(argsort)
    requires AreCuts(cuts, slices) && cuts[slices] <= observations && IsCombo(combo, 0, slices, |combo|)
    requires AreSides(cuts, slices, combo, inRows, outRows)
    ensures ValidRows(inRows, observations) && ValidRows(outRows, observations)
    ensures var inSample, oos := Scores(matrix, inRows, observations, sharpe),
                                 Scores(matrix, outRows, observations, sharpe);
            ComboVote(matrix, observations, cuts, slices, combo, sharpe, argsort) ==
              if AllNaN(inSample) || AllNaN(oos) then Skipped
              else if 2 * RankOf(Keys(oos), NanArgmax(inSample), argsort) <= |matrix| then Overfit
              else Robust
  {
    SidesAreGathered(cuts, slices, |combo|, combo, inRows, outRows);
    GatherValid(cuts, slices, combo, observations);
    GatherValid(cuts, slices, Complement(combo, slices), observations);
    var inSample, oos := Scores(matrix, inRows, observations, sharpe), Scores(matrix, outRows, observations, sharpe);
    hide Gather, Complement, AreCuts, AreSides, IsArgsort, Scores;
    if !AllNaN(inSample) && !AllNaN(oos) {
      VoteByRank(inSample, oos, argsort);
    }
  }

  // ---------------------------------------------------------------- the documented rank

  /** The strategies whose out-of-sample score is at most the winner's. */
  ghost function NotAbove(oos: seq<Option<real>>, best: int): set<int>
    requires 0 <= best < |oos| && oos[best].Some?
  {
    set j | 0 <= j < |oos| && oos[j].Some? && oos[j].value <= oos[best].value
  }

  lemma NotAboveInKeys(oos: seq<Option<real>>, best: int)
    requires 0 <= best < |oos| && oos[best].Some?
    ensures AtOrBelow(Keys(oos), best) == NotAbove(oos, best)
    ensures Untied(Keys(oos), best) <==> OwnScore(oos, best)
  {
    var keys := Keys(oos);
    forall j | 0 <= j < |oos| && j != best
      ensures oos[j] == oos[best] <==> !Below(keys[j], keys[best]) && !Below(keys[best], keys[j])
    {
      TiedIsEqual(keys[j], keys[best]);
    }
    if Untied(keys, best) {
      assert forall j :: 0 <= j < |oos| && j != best ==> Below(keys[j], keys[best]) || Below(keys[best], keys[j]);
    }
  }

  /**
   * The rank is documented as the number of scores at or below the winner's. It is never
   * more, and it is that number for every sorting function if and only if no other
   * strategy has the winner's score.
   */
  lemma RankAsDocumentedIff(oos: seq<Option<real>>, best: int, argsort: seq<Float> -> seq<int>)
    requires 0 <= best < |oos| && oos[best].Some? && IsArgsort(argsort)
    ensures RankOf(Keys(oos), best, argsort) <= |NotAbove(oos, best)|
    ensures (forall a :: IsArgsort(a) ==> RankOf(Keys(oos), best, a) == |NotAbove(oos, best)|) <==>
            OwnScore(oos, best)
  {
    NotAboveInKeys(oos, best);
    hide IsArgsort, Keys, NotAbove, OwnScore, AtOrBelow, Untied;
    RankAtMost(Keys(oos), best, argsort);
    RankIsCountIff(Keys(oos), best, argsort);
  }
}
