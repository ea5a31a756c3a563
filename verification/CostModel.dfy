/**
 * cost_model.py: turnover between two portfolios, the cost of a rebalance, and costs
 * charged to period returns. None stands for a value that is not finite. The set of
 * symbols is walked in some order, which is a parameter.
 */
module CostModel {
  import opened Wrappers
  import opened Combinations
  import opened Sums
  import opened CostSpec

  type Symbol = string
  type Weights = map<Symbol, real>

  datatype CostError =
    | NonFiniteWeight
    | LengthMismatch
    | NonFiniteReturn(period: nat)
    | InvalidTraded(period: nat)

  // ---------------------------------------------------------------- turnover

  datatype Turnover = Turnover(buys: real, sells: real) {
    function Traded(): real {
      buys + sells
    }
  }

  /** A portfolio as given: a weight may fail to be finite. */
  type RawWeights = map<Symbol, Option<real>>

  predicate AllFinite(m: RawWeights) {
    forall k :: k in m ==> m[k].Some?
  }

  function Validated(m: RawWeights): (w: Weights)
    requires AllFinite(m)
    ensures w.Keys == m.Keys && forall k :: k in m ==> w[k] == m[k].value
  {
    map k | k in m :: m[k].value
  }

  /** `weights.get(key, 0.0)`. */
  function Get(m: Weights, k: Symbol): real {
    if k in m then m[k] else 0.0
  }

  function Bought(prev: Weights, next: Weights): Symbol -> real {
    k => var delta := Get(next, k) - Get(prev, k); if delta > 0.0 then delta else 0.0
  }

  function Sold(prev: Weights, next: Weights): Symbol -> real {
    k => var delta := Get(next, k) - Get(prev, k); if delta > 0.0 then 0.0 else -delta
  }

  function Moved(prev: Weights, next: Weights): Symbol -> real {
    k => Abs(Get(next, k) - Get(prev, k))
  }

  function Abs(x: real): real {
    if x < 0.0 then -x else x
  }

  /** order lists the given symbols, each once. */
  ghost predicate Lists(order: seq<Symbol>, symbols: set<Symbol>) {
    Distinct(order) && forall k :: k in order <==> k in symbols
  }

  /** `turnover_breakdown`, walking the union of the symbols in any order. */
  method TurnoverBreakdown(prev: RawWeights, next: RawWeights, order: seq<Symbol>)
    returns (r: Result<Turnover, CostError>)
    requires Lists(order, prev.Keys + next.Keys)
    ensures r.Err? <==> !AllFinite(prev) || !AllFinite(next)
    ensures r.Ok? ==>
              var p, n := Validated(prev), Validated(next);
              r.value == Turnover(SumOf(order, Bought(p, n)), SumOf(order, Sold(p, n)))
  {
    if !AllFinite(prev) || !AllFinite(next) {
      return Err(NonFiniteWeight);
    }
    var p, n := Validated(prev), Validated(next);
    var buys, sells := 0.0, 0.0;
    var i := 0;
    while i < |order|
      invariant 0 <= i <= |order|
      invariant buys == SumOf(order[..i], Bought(p, n))
      invariant sells == SumOf(order[..i], Sold(p, n))
    {
      var delta := Get(n, order[i]) - Get(p, order[i]);
      SumOfNext(order, i, Bought(p, n));
      SumOfNext(order, i, Sold(p, n));
      if delta > 0.0 {
        buys := buys + delta;
      } else {
        sells := sells + -delta;
      }
      i := i + 1;
    }
    assert order[..i] == order;
    r := Ok(Turnover(buys, sells));
  }

  lemma SumOfNext<T>(s: seq<T>, i: nat, f: T -> real)
    requires i < |s|
    ensures SumOf(s[..i + 1], f) == SumOf(s[..i], f) + f(s[i])
  {
    assert s[..i + 1] == s[..i] + [s[i]];
    SumOfAppend(s[..i], [s[i]], f);
  }

  // ---------------------------------------------------------------- walking orders

  lemma {:induction false} DistinctPermutation(s: seq<Symbol>, t: seq<Symbol>)
    requires Distinct(s) && Distinct(t) && forall k :: k in s <==> k in t
    ensures multiset(s) == multiset(t)
    decreases |s|
  {
    if s == [] {
      HeadIsMember(t);
    } else {
      assert s[0] in s && s[0] in t;
      var i :| 0 <= i < |t| && t[i] == s[0];
      DropOne(t, i);
      DropOne(s, 0);
      assert s[..0] + s[1..] == s[1..];
      hide Distinct;
      DistinctPermutation(s[1..], t[..i] + t[i + 1..]);
      PutBack(s, t, i);
    }
  }

  lemma PutBack(s: seq<Symbol>, t: seq<Symbol>, i: nat)
    requires s != [] && i < |t| && t[i] == s[0] && multiset(s[1..]) == multiset(t[..i] + t[i + 1..])
    ensures multiset(s) == multiset(t)
  {
    assert s == [s[0]] + s[1..];
    assert t == t[..i] + [t[i]] + t[i + 1..];
  }

  lemma DropOne(t: seq<Symbol>, i: nat)
    requires Distinct(t) && i < |t|
    ensures var rest := t[..i] + t[i + 1..];
            Distinct(rest) && forall k :: k in rest <==> k in t && k != t[i]
  {
  }

  function Outside(s: seq<Symbol>, t: seq<Symbol>): (r: seq<Symbol>)
    ensures forall k :: k in r <==> k in s && k !in t
  {
    if s == [] then [] else (if s[0] in t then [] else [s[0]]) + Outside(s[1..], t)
  }

  lemma {:induction false} OutsideDistinct(s: seq<Symbol>, t: seq<Symbol>)
    requires Distinct(s)
    ensures Distinct(Outside(s, t))
  {
    if s != [] {
      OutsideDistinct(s[1..], t);
      DistinctAppend(if s[0] in t then [] else [s[0]], Outside(s[1..], t));
    }
  }

  lemma {:induction false} VanishingSum(s: seq<Symbol>, f: Symbol -> real)
    requires forall k :: k in s ==> f(k) == 0.0
    ensures SumOf(s, f) == 0.0
  {
    if s != [] {
      VanishingSum(s[1..], f);
    }
  }

  /** A longer list adds nothing where f vanishes outside the shorter one. */
  lemma SumOverMore(s: seq<Symbol>, all: seq<Symbol>, f: Symbol -> real)
    requires Distinct(s) && Distinct(all) && (forall k :: k in s ==> k in all)
    requires forall k :: k !in s ==> f(k) == 0.0
    ensures SumOf(all, f) == SumOf(s, f)
  {
    var extra := Outside(all, s);
    OutsideDistinct(all, s);
    DistinctAppend(s, extra);
    DistinctPermutation(s + extra, all);
    SumOfPermutation(s + extra, all, f);
    SumOfAppend(s, extra, f);
    VanishingSum(extra, f);
  }

  // ---------------------------------------------------------------- conservation

  lemma {:induction false} SumOfDifference<T(!new)>(s: seq<T>, f: T -> real, g: T -> real, h: T -> real)
    requires forall k :: h(k) == f(k) - g(k)
    ensures SumOf(s, h) == SumOf(s, f) - SumOf(s, g)
  {
    if s != [] {
      SumOfDifference(s[1..], f, g, h);
    }
  }

  lemma {:induction false} SumOfSum<T(!new)>(s: seq<T>, f: T -> real, g: T -> real, h: T -> real)
    requires forall k :: h(k) == f(k) + g(k)
    ensures SumOf(s, h) == SumOf(s, f) + SumOf(s, g)
  {
    if s != [] {
      SumOfSum(s[1..], f, g, h);
    }
  }

  function WeightOf(m: Weights): Symbol -> real {
    k => Get(m, k)
  }

  /** The total weight of a portfolio whose symbols are listed. */
  function TotalWeight(m: Weights, symbols: seq<Symbol>): real {
    SumOf(symbols, WeightOf(m))
  }

  /** Buys minus sells is the change in total weight, whatever the walking orders. */
  lemma BuysMinusSells(prev: Weights, next: Weights, order: seq<Symbol>, ps: seq<Symbol>, ns: seq<Symbol>)
    requires Lists(order, prev.Keys + next.Keys) && Lists(ps, prev.Keys) && Lists(ns, next.Keys)
    ensures SumOf(order, Bought(prev, next)) - SumOf(order, Sold(prev, next)) ==
            TotalWeight(next, ns) - TotalWeight(prev, ps)
  {
    hide Distinct, SumOf;
    var change := k => Get(next, k) - Get(prev, k);
    SumOfDifference(order, Bought(prev, next), Sold(prev, next), change);
    SumOfDifference(order, WeightOf(next), WeightOf(prev), change);
    SumOverMore(ps, order, WeightOf(prev));
    SumOverMore(ns, order, WeightOf(next));
  }

  /** What `turnover_breakdown` trades, the symbols walked in the given order. */
  function TradedOf(prev: Weights, next: Weights, order: seq<Symbol>): real {
    Turnover(SumOf(order, Bought(prev, next)), SumOf(order, Sold(prev, next))).Traded()
  }

  /** The sum of the absolute weight changes of the listed symbols. */
  function MovedTotal(prev: Weights, next: Weights, symbols: seq<Symbol>): real {
    SumOf(symbols, Moved(prev, next))
  }

  /** What is traded is the sum of the absolute changes, over any list that has every symbol. */
  lemma TradedIsAbsoluteChange(prev: Weights, next: Weights, order: seq<Symbol>, all: seq<Symbol>)
    requires Lists(order, prev.Keys + next.Keys) && Distinct(all) && forall k :: k in order ==> k in all
    ensures TradedOf(prev, next, order) == MovedTotal(prev, next, all)
  {
    hide Distinct, SumOf;
    SumOfSum(order, Bought(prev, next), Sold(prev, next), Moved(prev, next));
    SumOverMore(order, all, Moved(prev, next));
  }

  // ---------------------------------------------------------------- rebalance cost

  function Scaled(rate: real, t: real): real {
    rate * t
  }

  /** `rebalance_cost_fraction`, the symbols walked in the given order. */
  function RebalanceCost(prev: Weights, next: Weights, spec: CostModelSpec, order: seq<Symbol>): real {
    Scaled(spec.Rate(), TradedOf(prev, next, order))
  }

  lemma {:induction false} SumOfNonNegative(s: seq<Symbol>, f: Symbol -> real)
    requires forall k :: f(k) >= 0.0
    ensures SumOf(s, f) >= 0.0
    ensures SumOf(s, f) == 0.0 <==> forall k :: k in s ==> f(k) == 0.0
  {
    if s != [] {
      SumOfNonNegative(s[1..], f);
      assert forall k :: k in s <==> k == s[0] || k in s[1..];
    }
  }

  lemma {:induction false} SumOfMonotone(s: seq<Symbol>, f: Symbol -> real, g: Symbol -> real)
    requires forall k :: f(k) <= g(k)
    ensures SumOf(s, f) <= SumOf(s, g)
  {
    if s != [] {
      SumOfMonotone(s[1..], f, g);
    }
  }

  ghost predicate SameHoldings(p: Weights, q: Weights) {
    forall k :: Get(p, k) == Get(q, k)
  }

  lemma MovedSymmetric(p: Weights, q: Weights, all: seq<Symbol>)
    ensures MovedTotal(p, q, all) == MovedTotal(q, p, all)
  {
    hide SumOf;
    SumOfSame(all, Moved(p, q), Moved(q, p));
  }

  lemma MovedNothing(p: Weights, q: Weights, order: seq<Symbol>)
    requires Lists(order, p.Keys + q.Keys)
    ensures MovedTotal(p, q, order) >= 0.0
    ensures MovedTotal(p, q, order) == 0.0 <==> SameHoldings(p, q)
  {
    SumOfNonNegative(order, Moved(p, q));
    hide SumOf, Distinct;
    assert forall k :: k !in order ==> Get(p, k) == 0.0 && Get(q, k) == 0.0;
    assert forall k :: Moved(p, q)(k) == 0.0 <==> Get(p, k) == Get(q, k);
  }

  lemma MovedTriangle(p: Weights, q: Weights, r: Weights, all: seq<Symbol>)
    ensures MovedTotal(p, r, all) <= MovedTotal(p, q, all) + MovedTotal(q, r, all)
  {
    hide SumOf;
    var detour := k => Moved(p, q)(k) + Moved(q, r)(k);
    SumOfSum(all, Moved(p, q), Moved(q, r), detour);
    SumOfMonotone(all, Moved(p, r), detour);
  }

  /** The cost does not depend on the walking order, nor on the direction of the trade. */
  lemma CostSymmetric(p: Weights, q: Weights, spec: CostModelSpec, order: seq<Symbol>, back: seq<Symbol>)
    requires Lists(order, p.Keys + q.Keys) && Lists(back, q.Keys + p.Keys)
    ensures RebalanceCost(p, q, spec, order) == RebalanceCost(q, p, spec, back)
  {
    hide TradedOf, MovedTotal, Distinct, Scaled;
    TradedIsAbsoluteChange(p, q, order, order);
    TradedIsAbsoluteChange(q, p, back, order);
    MovedSymmetric(p, q, order);
  }

  lemma ScaledFacts(rate: real, t: real)
    requires rate >= 0.0 && t >= 0.0
    ensures Scaled(rate, t) >= 0.0
    ensures Scaled(rate, t) == 0.0 <==> rate == 0.0 || t == 0.0
  {
  }

  /** A rebalance never pays, and is free exactly when the rate is zero or nothing moves. */
  lemma FreeIffNothingMoves(p: Weights, q: Weights, spec: CostModelSpec, order: seq<Symbol>)
    requires spec.Valid() && Lists(order, p.Keys + q.Keys)
    ensures RebalanceCost(p, q, spec, order) >= 0.0
    ensures RebalanceCost(p, q, spec, order) == 0.0 <==> spec.PerSideBps() == 0.0 || SameHoldings(p, q)
  {
    hide TradedOf, MovedTotal, Distinct, Scaled, SameHoldings;
    TradedIsAbsoluteChange(p, q, order, order);
    MovedNothing(p, q, order);
    ScaledFacts(spec.Rate(), MovedTotal(p, q, order));
  }

  lemma ScaledTriangle(rate: real, a: real, b: real, c: real)
    requires rate >= 0.0 && a <= b + c
    ensures Scaled(rate, a) <= Scaled(rate, b) + Scaled(rate, c)
  {
  }

  /** Going through an intermediate portfolio never costs less. */
  lemma CostTriangle(p: Weights, q: Weights, r: Weights, spec: CostModelSpec,
                     pq: seq<Symbol>, qr: seq<Symbol>, pr: seq<Symbol>)
    requires spec.Valid()
    requires Lists(pq, p.Keys + q.Keys) && Lists(qr, q.Keys + r.Keys) && Lists(pr, p.Keys + r.Keys)
    ensures RebalanceCost(p, r, spec, pr) <= RebalanceCost(p, q, spec, pq) + RebalanceCost(q, r, spec, qr)
  {
    var extra := Outside(qr, pq);
    var all := pq + extra;
    OutsideDistinct(qr, pq);
    DistinctAppend(pq, extra);
    hide TradedOf, MovedTotal, Distinct, Scaled, Outside;
    assert forall k :: k in all <==> k in pq || k in qr;
    TradedIsAbsoluteChange(p, q, pq, all);
    TradedIsAbsoluteChange(q, r, qr, all);
    TradedIsAbsoluteChange(p, r, pr, all);
    MovedTriangle(p, q, r, all);
    ScaledTriangle(spec.Rate(), MovedTotal(p, r, all), MovedTotal(p, q, all), MovedTotal(q, r, all));
  }

  lemma TwiceScaled(bps: real, t: real)
    ensures Scaled(bps / BPS, t) + Scaled(bps / BPS, t) == Scaled((2.0 * bps) / BPS, t)
  {
  }

  /** A charge is half the round trip's basis points of what is traded. */
  lemma ChargeInBps(spec: CostModelSpec, t: real)
    ensures 20_000.0 * Scaled(spec.Rate(), t) ==
            (2.0 * (spec.feeBps + spec.slippageBps + spec.roundingBps) + spec.spreadBps) * t
  {
    var bps := spec.PerSideBps();
    assert BPS * (bps / BPS) == bps;
    assert 10_000.0 * (spec.Rate() * t) == (10_000.0 * spec.Rate()) * t;
  }

  /** Out and back costs the round-trip rate on what was traded. */
  lemma RoundTripCost(p: Weights, q: Weights, spec: CostModelSpec, order: seq<Symbol>)
    requires Lists(order, p.Keys + q.Keys)
    ensures RebalanceCost(p, q, spec, order) + RebalanceCost(q, p, spec, order) ==
            Scaled(spec.RoundTripBps() / BPS, TradedOf(p, q, order))
  {
    hide TradedOf, Distinct, Scaled;
    CostSymmetric(p, q, spec, order, order);
    TwiceScaled(spec.PerSideBps(), TradedOf(p, q, order));
  }

  // ---------------------------------------------------------------- period returns

  predicate Charged(gross: seq<Option<real>>, traded: seq<Option<real>>, i: nat)
    requires i < |gross| == |traded|
  {
    gross[i].Some? && traded[i].Some? && traded[i].value >= 0.0
  }

  ghost predicate ChargedUpTo(gross: seq<Option<real>>, traded: seq<Option<real>>, k: nat)
    requires k <= |gross| == |traded|
  {
    forall i :: 0 <= i < k ==> Charged(gross, traded, i)
  }

  /** `apply_costs_to_period_returns`; an error names the first bad period, the return checked first. */
  method ApplyCosts(gross: seq<Option<real>>, traded: seq<Option<real>>, spec: CostModelSpec)
    returns (r: Result<seq<real>, CostError>)
    ensures |gross| != |traded| ==> r == Err(LengthMismatch)
    ensures |gross| == |traded| ==> (r.Ok? <==> ChargedUpTo(gross, traded, |gross|))
    ensures r.Ok? ==>
              && |r.value| == |gross|
              && forall i :: 0 <= i < |gross| ==>
                   Charged(gross, traded, i) && r.value[i] == gross[i].value - Scaled(spec.Rate(), traded[i].value)
    ensures |gross| == |traded| && r.Err? ==>
              exists i :: 0 <= i < |gross| && ChargedUpTo(gross, traded, i) && !Charged(gross, traded, i)
                          && r.error == if gross[i].None? then NonFiniteReturn(i) else InvalidTraded(i)
  {
    if |gross| != |traded| {
      return Err(LengthMismatch);
    }
    var rate := spec.Rate();
    var net := [];
    var i := 0;
    while i < |gross|
      invariant 0 <= i <= |gross| && |net| == i
      invariant ChargedUpTo(gross, traded, i)
      invariant forall j :: 0 <= j < i ==>
                  Charged(gross, traded, j) && net[j] == gross[j].value - Scaled(rate, traded[j].value)
    {
      if gross[i].None? {
        assert !Charged(gross, traded, i);
        return Err(NonFiniteReturn(i));
      }
      if traded[i].None? || traded[i].value < 0.0 {
        assert !Charged(gross, traded, i);
        return Err(InvalidTraded(i));
      }
      net := net + [gross[i].value - Scaled(rate, traded[i].value)];
      i := i + 1;
    }
    r := Ok(net);
  }

  lemma ScaledAdds(rate: real, t: real, u: real)
    ensures Scaled(rate, t + u) == Scaled(rate, t) + Scaled(rate, u) && Scaled(rate, 0.0) == 0.0
  {
  }

  /** Summed net return is summed gross return minus the rate times what was traded in total. */
  lemma {:induction false} NetConserves(gross: seq<real>, traded: seq<real>, rate: real, net: seq<real>)
    requires |gross| == |traded| == |net|
    requires forall i :: 0 <= i < |net| ==> net[i] == gross[i] - Scaled(rate, traded[i])
    ensures Total(net) == Total(gross) - Scaled(rate, Total(traded))
  {
    ScaledAdds(rate, 0.0, 0.0);
    hide Scaled;
    if net != [] {
      NetConserves(gross[1..], traded[1..], rate, net[1..]);
      ScaledAdds(rate, traded[0], Total(traded[1..]));
    }
  }
}
