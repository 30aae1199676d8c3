/**
 * The statistics the capture routine accumulates row by row, as a pure
 * reference: the state after each row (`Tally`), the step one row makes
 * (`Accumulate`), the fold over many rows, and the final percent change.
 */
module Aggregate {
  import opened Wrappers
  import opened Numbers
  import opened Rows

  /** `market_data['data']`, the three running figures of `market_data['stat']`, and `changes_obs`. */
  datatype Tally = Tally(
    data: map<string, QuoteRecord>,
    symbolsCount: nat,
    averagePriceThb: real,
    totalSharesValueThb: real,
    changesObs: seq<real>)

  /** The state before the first row. */
  const Initial: Tally := Tally(map[], 0, 0.0, 0.0, [])

  // ---------------------------------------------------------------------
  // Observed price: latest, else bid, else offer

  /** The nested `try` chain: the first of latest, bid and offer that parses. */
  function ObservedPrice(q: QuoteRecord): Option<real> {
    match ParseNumber(q.priceLatest)
    case Some(p) => Some(p)
    case None =>
      match ParseNumber(q.priceBid)
      case Some(p) => Some(p)
      case None => ParseNumber(q.priceOffer)
  }

  /** Reference: the first of a list of parses that succeeded. */
  function FirstSome(os: seq<Option<real>>): Option<real> {
    if |os| == 0 then None
    else if os[0].Some? then os[0]
    else FirstSome(os[1..])
  }

  /** `FirstSome` is the value of some parse that succeeded, and every earlier parse failed; `None` when all fail. */
  lemma {:induction false} FirstSomeSpec(os: seq<Option<real>>)
    ensures FirstSome(os).None? <==> forall j :: 0 <= j < |os| ==> os[j].None?
    ensures FirstSome(os).Some? ==>
      exists i :: 0 <= i < |os| && os[i] == FirstSome(os) && forall j :: 0 <= j < i ==> os[j].None?
  {
    if |os| > 0 {
      FirstSomeSpec(os[1..]);
      if os[0].None? && FirstSome(os).Some? {
        var i :| 0 <= i < |os[1..]| && os[1..][i] == FirstSome(os[1..])
          && forall j :: 0 <= j < i ==> os[1..][j].None?;
        assert os[i + 1] == FirstSome(os);
        assert forall j :: 0 <= j < i + 1 ==> os[j].None? by {
          forall j | 0 <= j < i + 1 ensures os[j].None? {
            if j > 0 { assert os[j] == os[1..][j - 1]; }
          }
        }
      }
      if FirstSome(os).None? {
        forall j | 0 <= j < |os| ensures os[j].None? {
          if j > 0 { assert os[j] == os[1..][j - 1]; }
        }
      }
    }
  }

  /** The observed price is the first of the parses of latest, bid and offer, in that order, that succeeds. */
  lemma ObservedPriceOrder(q: QuoteRecord)
    ensures ObservedPrice(q) == FirstSome([ParseNumber(q.priceLatest), ParseNumber(q.priceBid), ParseNumber(q.priceOffer)])
  {
    var os := [ParseNumber(q.priceLatest), ParseNumber(q.priceBid), ParseNumber(q.priceOffer)];
    assert os[1..] == [ParseNumber(q.priceBid), ParseNumber(q.priceOffer)];
    assert os[1..][1..] == [ParseNumber(q.priceOffer)];
    assert os[1..][1..][1..] == [];
    assert FirstSome(os[1..][1..]) == ParseNumber(q.priceOffer);
    assert FirstSome(os[1..]) == if ParseNumber(q.priceBid).Some? then ParseNumber(q.priceBid) else ParseNumber(q.priceOffer);
  }

  // ---------------------------------------------------------------------
  // One row

  /** `if observed_price: avg = (avg + observed_price) / 2`: None and 0.0 are both falsy. */
  function UpdateAverage(avg: real, observed: Option<real>): (r: real)
    ensures r != avg <==> observed.Some? && observed.value != 0.0 && observed.value != avg
    ensures observed.Some? && observed.value != 0.0 ==> r - avg == (observed.value - avg) / 2.0
  {
    if observed.Some? && observed.value != 0.0 then (avg + observed.value) / 2.0 else avg
  }

  /** What one row adds to the percent-change observations: its parse, or nothing. */
  function ChangeObs(q: QuoteRecord): seq<real> {
    match ParseNumber(q.pctChange)
    case Some(c) => [c]
    case None => []
  }

  /** The reference for one pass of the loop body over an extracted record. */
  function Accumulate(t: Tally, q: QuoteRecord): Tally {
    Tally(
      data := t.data[q.symbol := q],
      symbolsCount := t.symbolsCount + 1,
      averagePriceThb := UpdateAverage(t.averagePriceThb, ObservedPrice(q)),
      totalSharesValueThb := t.totalSharesValueThb + q.sharesValueThb,
      changesObs := t.changesObs + ChangeObs(q))
  }

  /** The rows folded in order. */
  function AccumulateAll(t: Tally, qs: seq<QuoteRecord>): Tally {
    if |qs| == 0 then t else Accumulate(AccumulateAll(t, qs[..|qs| - 1]), qs[|qs| - 1])
  }

  /** What the tally keeps true: keys are the symbols of their records, and neither keys nor observations outnumber rows. */
  ghost predicate WellFormed(t: Tally) {
    && (forall k :: k in t.data ==> t.data[k].symbol == k)
    && |t.data.Keys| <= t.symbolsCount
    && |t.changesObs| <= t.symbolsCount
  }

  lemma AccumulateWellFormed(t: Tally, q: QuoteRecord)
    requires WellFormed(t)
    ensures WellFormed(Accumulate(t, q))
  {
    var d := t.data[q.symbol := q];
    assert d.Keys == t.data.Keys + {q.symbol};
    assert |d.Keys| <= |t.data.Keys| + 1 by {
      if q.symbol in t.data.Keys {
        assert d.Keys == t.data.Keys;
      }
    }
  }

  // ---------------------------------------------------------------------
  // References for each figure over a whole sequence of rows

  function SumValues(qs: seq<QuoteRecord>): real {
    if |qs| == 0 then 0.0 else qs[0].sharesValueThb + SumValues(qs[1..])
  }

  function ParsedChanges(qs: seq<QuoteRecord>): seq<real> {
    if |qs| == 0 then [] else ChangeObs(qs[0]) + ParsedChanges(qs[1..])
  }

  /** A price that moves the average, as a one-element list: defined and non-zero. */
  function TruthyPrice(o: Option<real>): seq<real> {
    if o.Some? && o.value != 0.0 then [o.value] else []
  }

  /** The observed prices that move the average, in row order. */
  function TruthyPrices(qs: seq<QuoteRecord>): seq<real> {
    if |qs| == 0 then [] else TruthyPrice(ObservedPrice(qs[0])) + TruthyPrices(qs[1..])
  }

  function Symbols(qs: seq<QuoteRecord>): set<string> {
    set i | 0 <= i < |qs| :: qs[i].symbol
  }

  /** The pairwise running average over a sequence of prices, from a starting value. */
  function RunningAverage(start: real, ps: seq<real>): real {
    if |ps| == 0 then start else (RunningAverage(start, ps[..|ps| - 1]) + ps[|ps| - 1]) / 2.0
  }

  lemma {:induction false} SumValuesSnoc(qs: seq<QuoteRecord>, q: QuoteRecord)
    ensures SumValues(qs + [q]) == SumValues(qs) + q.sharesValueThb
  {
    if |qs| > 0 {
      SumValuesSnoc(qs[1..], q);
      assert (qs + [q])[1..] == qs[1..] + [q];
    }
  }

  lemma {:induction false} ParsedChangesSnoc(qs: seq<QuoteRecord>, q: QuoteRecord)
    ensures ParsedChanges(qs + [q]) == ParsedChanges(qs) + ChangeObs(q)
  {
    if |qs| > 0 {
      ParsedChangesSnoc(qs[1..], q);
      assert (qs + [q])[1..] == qs[1..] + [q];
    }
  }

  lemma {:induction false} TruthyPricesSnoc(qs: seq<QuoteRecord>, q: QuoteRecord)
    ensures TruthyPrices(qs + [q]) == TruthyPrices(qs) + TruthyPrice(ObservedPrice(q))
  {
    if |qs| > 0 {
      TruthyPricesSnoc(qs[1..], q);
      assert (qs + [q])[1..] == qs[1..] + [q];
    }
  }

  lemma RunningAverageSnoc(start: real, ps: seq<real>, p: real)
    ensures RunningAverage(start, ps + [p]) == (RunningAverage(start, ps) + p) / 2.0
  {
    assert (ps + [p])[..|ps|] == ps;
  }

  lemma SymbolsSnoc(qs: seq<QuoteRecord>, q: QuoteRecord)
    ensures Symbols(qs + [q]) == Symbols(qs) + {q.symbol}
  {
    var xs := qs + [q];
    assert xs[|qs|] == q;
    forall k | k in Symbols(xs) ensures k in Symbols(qs) + {q.symbol} {
      var i :| 0 <= i < |xs| && xs[i].symbol == k;
      if i < |qs| { assert qs[i] == xs[i]; }
    }
    forall k | k in Symbols(qs) ensures k in Symbols(xs) {
      var i :| 0 <= i < |qs| && qs[i].symbol == k;
      assert xs[i] == qs[i];
    }
  }

  /** Each row adds one to `symbols_count`. */
  lemma {:induction false} CountIsRows(t: Tally, qs: seq<QuoteRecord>)
    ensures AccumulateAll(t, qs).symbolsCount == t.symbolsCount + |qs|
  {
    if |qs| > 0 {
      CountIsRows(t, qs[..|qs| - 1]);
    }
  }

  /** The total traded value is the sum of the rows' values. */
  lemma {:induction false} TotalIsSum(t: Tally, qs: seq<QuoteRecord>)
    ensures AccumulateAll(t, qs).totalSharesValueThb == t.totalSharesValueThb + SumValues(qs)
  {
    if |qs| > 0 {
      var init, q := qs[..|qs| - 1], qs[|qs| - 1];
      assert qs == init + [q];
      TotalIsSum(t, init);
      SumValuesSnoc(init, q);
    }
  }

  /** The observations are the parsed percent changes, in row order, rows that fail to parse leaving none. */
  lemma {:induction false} ChangesAreParsed(t: Tally, qs: seq<QuoteRecord>)
    ensures AccumulateAll(t, qs).changesObs == t.changesObs + ParsedChanges(qs)
  {
    if |qs| > 0 {
      var init, q := qs[..|qs| - 1], qs[|qs| - 1];
      assert qs == init + [q];
      ChangesAreParsed(t, init);
      ParsedChangesSnoc(init, q);
    }
  }

  /** The average price is the running average of the defined, non-zero observed prices. */
  lemma {:induction false} AverageIsRunning(t: Tally, qs: seq<QuoteRecord>)
    ensures AccumulateAll(t, qs).averagePriceThb == RunningAverage(t.averagePriceThb, TruthyPrices(qs))
  {
    if |qs| > 0 {
      var init, q := qs[..|qs| - 1], qs[|qs| - 1];
      assert qs == init + [q];
      AverageIsRunning(t, init);
      TruthyPricesSnoc(init, q);
      var prev := AccumulateAll(t, init);
      var o := ObservedPrice(q);
      assert AccumulateAll(t, qs).averagePriceThb == UpdateAverage(prev.averagePriceThb, o);
      if o.Some? && o.value != 0.0 {
        assert TruthyPrices(qs) == TruthyPrices(init) + [o.value];
        RunningAverageSnoc(t.averagePriceThb, TruthyPrices(init), o.value);
      } else {
        assert TruthyPrices(qs) == TruthyPrices(init);
      }
    } else {
      assert TruthyPrices(qs) == [];
    }
  }

  /** The keys are the earlier keys plus the symbols of the rows. */
  lemma {:induction false} KeysAreSymbols(t: Tally, qs: seq<QuoteRecord>)
    ensures AccumulateAll(t, qs).data.Keys == t.data.Keys + Symbols(qs)
  {
    if |qs| > 0 {
      var init, q := qs[..|qs| - 1], qs[|qs| - 1];
      assert qs == init + [q];
      KeysAreSymbols(t, init);
      SymbolsSnoc(init, q);
    } else {
      assert Symbols(qs) == {};
    }
  }

  /** A repeated symbol overwrites the earlier record: each key holds the LAST row with that symbol. */
  lemma {:induction false} LastRowWins(t: Tally, qs: seq<QuoteRecord>, i: nat)
    requires i < |qs|
    requires forall j :: i < j < |qs| ==> qs[j].symbol != qs[i].symbol
    ensures qs[i].symbol in AccumulateAll(t, qs).data
    ensures AccumulateAll(t, qs).data[qs[i].symbol] == qs[i]
  {
    var init := qs[..|qs| - 1];
    if i < |qs| - 1 {
      LastRowWins(t, init, i);
    }
  }

  /** Keys of symbols no row carries keep the value they had. */
  lemma {:induction false} UntouchedKeys(t: Tally, qs: seq<QuoteRecord>, k: string)
    requires k in t.data
    requires forall j :: 0 <= j < |qs| ==> qs[j].symbol != k
    ensures k in AccumulateAll(t, qs).data && AccumulateAll(t, qs).data[k] == t.data[k]
  {
    if |qs| > 0 {
      UntouchedKeys(t, qs[..|qs| - 1], k);
    }
  }

  lemma {:induction false} AccumulateAllWellFormed(t: Tally, qs: seq<QuoteRecord>)
    requires WellFormed(t)
    ensures WellFormed(AccumulateAll(t, qs))
  {
    if |qs| > 0 {
      AccumulateAllWellFormed(t, qs[..|qs| - 1]);
      AccumulateWellFormed(AccumulateAll(t, qs[..|qs| - 1]), qs[|qs| - 1]);
    }
  }

  // ---------------------------------------------------------------------
  // Keys against rows: the mapping has one key per row exactly when no symbol repeats

  predicate DistinctSymbols(qs: seq<QuoteRecord>) {
    forall i, j :: 0 <= i < j < |qs| ==> qs[i].symbol != qs[j].symbol
  }

  lemma {:induction false} SymbolsCard(qs: seq<QuoteRecord>)
    ensures |Symbols(qs)| <= |qs|
    ensures |Symbols(qs)| == |qs| <==> DistinctSymbols(qs)
  {
    if |qs| > 0 {
      var init, q := qs[..|qs| - 1], qs[|qs| - 1];
      assert qs == init + [q];
      SymbolsCard(init);
      SymbolsSnoc(init, q);
      if q.symbol in Symbols(init) {
        var i :| 0 <= i < |init| && init[i].symbol == q.symbol;
        assert qs[i].symbol == qs[|qs| - 1].symbol;
        assert !DistinctSymbols(qs);
      } else {
        assert DistinctSymbols(qs) <==> DistinctSymbols(init) by {
          if DistinctSymbols(init) {
            forall i, j | 0 <= i < j < |qs| ensures qs[i].symbol != qs[j].symbol {
              if j < |init| { assert init[i] == qs[i] && init[j] == qs[j]; }
              else { assert qs[i].symbol in Symbols(init); }
            }
          }
          if DistinctSymbols(qs) {
            forall i, j | 0 <= i < j < |init| ensures init[i].symbol != init[j].symbol {
              assert init[i] == qs[i] && init[j] == qs[j];
            }
          }
        }
      }
    }
  }

  /** From the empty state, `symbols_count` equals the number of keys exactly when no symbol repeats. */
  lemma KeysMatchCount(qs: seq<QuoteRecord>)
    ensures |AccumulateAll(Initial, qs).data.Keys| <= AccumulateAll(Initial, qs).symbolsCount
    ensures |AccumulateAll(Initial, qs).data.Keys| == AccumulateAll(Initial, qs).symbolsCount
        <==> DistinctSymbols(qs)
  {
    CountIsRows(Initial, qs);
    KeysAreSymbols(Initial, qs);
    SymbolsCard(qs);
    assert Initial.data.Keys + Symbols(qs) == Symbols(qs);
  }

  // ---------------------------------------------------------------------
  // The pairwise running average

  function Pow2(n: nat): (r: real)
    ensures r >= 1.0
  {
    if n == 0 then 1.0 else 2.0 * Pow2(n - 1)
  }

  /** Reference: each price weighted by 1/2^k, k counting back from the end (the last weighs 1/2). */
  function Weighted(ps: seq<real>): real {
    if |ps| == 0 then 0.0 else ps[0] / Pow2(|ps|) + Weighted(ps[1..])
  }

  lemma HalfOfQuotient(a: real, b: real)
    requires b > 0.0
    ensures a / (2.0 * b) == (a / b) / 2.0
  {
    var q := a / b;
    assert q * b == a;
    assert (q / 2.0) * (2.0 * b) == q * b;
  }

  lemma {:induction false} WeightedSnoc(ps: seq<real>, p: real)
    ensures Weighted(ps + [p]) == Weighted(ps) / 2.0 + p / 2.0
  {
    if |ps| == 0 {
      assert Weighted([p]) == p / 2.0 + Weighted([p][1..]);
    } else {
      var xs := ps + [p];
      assert xs[1..] == ps[1..] + [p];
      WeightedSnoc(ps[1..], p);
      assert Pow2(|xs|) == 2.0 * Pow2(|ps|);
      HalfOfQuotient(ps[0], Pow2(|ps|));
    }
  }

  /**
   * Closed form of the running average: the starting value keeps weight
   * 1/2^n and the k-th of n prices weight 1/2^(n-k), so it is a recency-weighted
   * mean and not the arithmetic mean.
   */
  lemma {:induction false} RunningAverageClosedForm(start: real, ps: seq<real>)
    ensures RunningAverage(start, ps) == start / Pow2(|ps|) + Weighted(ps)
  {
    if |ps| > 0 {
      var init, p := ps[..|ps| - 1], ps[|ps| - 1];
      assert ps == init + [p];
      RunningAverageClosedForm(start, init);
      WeightedSnoc(init, p);
      HalfOfQuotient(start, Pow2(|init|));
    }
  }

  /** The running average stays within any bounds that hold the starting value and every price. */
  lemma {:induction false} RunningAverageBounds(start: real, ps: seq<real>, lo: real, hi: real)
    requires lo <= start <= hi
    requires forall i :: 0 <= i < |ps| ==> lo <= ps[i] <= hi
    ensures lo <= RunningAverage(start, ps) <= hi
  {
    if |ps| > 0 {
      RunningAverageBounds(start, ps[..|ps| - 1], lo, hi);
    }
  }

  /** From 0.0, n equal prices c give c - c/2^n: the average is pulled toward the starting 0. */
  lemma {:induction false} RunningAverageOfConstant(c: real, ps: seq<real>)
    requires forall i :: 0 <= i < |ps| ==> ps[i] == c
    ensures RunningAverage(0.0, ps) == c - c / Pow2(|ps|)
  {
    if |ps| > 0 {
      var init := ps[..|ps| - 1];
      RunningAverageOfConstant(c, init);
      HalfOfQuotient(c, Pow2(|init|));
    } else {
      assert Pow2(0) == 1.0;
    }
  }

  /** Prices 10, 20, 30 from 0 give 5, then 12.5, then 21.25. */
  lemma RunningAverageExample()
    ensures RunningAverage(0.0, [10.0]) == 5.0
    ensures RunningAverage(0.0, [10.0, 20.0]) == 12.5
    ensures RunningAverage(0.0, [10.0, 20.0, 30.0]) == 21.25
  {
    assert [10.0, 20.0, 30.0][..2] == [10.0, 20.0];
    assert [10.0, 20.0][..1] == [10.0];
    assert [10.0][..0] == [];
  }

  // ---------------------------------------------------------------------
  // The average percent change

  function Sum(xs: seq<real>): real {
    if |xs| == 0 then 0.0 else xs[0] + Sum(xs[1..])
  }

  /**
   * `sum(changes_obs) / symbols_count`: the divisor is the number of rows,
   * not of parsed observations; `None` is the ZeroDivisionError of no rows.
   */
  function AverageChangePct(changes: seq<real>, count: nat): (r: Option<real>)
    ensures r.None? <==> count == 0
    ensures r.Some? ==> r.value * count as real == Sum(changes)
  {
    if count == 0 then None else Some(Sum(changes) / count as real)
  }

  /** Each row adds at most one observation, and exactly one each when every row's change parses. */
  lemma {:induction false} AllChangesParse(qs: seq<QuoteRecord>)
    ensures |ParsedChanges(qs)| <= |qs|
    ensures |ParsedChanges(qs)| == |qs| <==> forall k :: 0 <= k < |qs| ==> ParseNumber(qs[k].pctChange).Some?
  {
    if |qs| > 0 {
      AllChangesParse(qs[1..]);
      if forall k :: 0 <= k < |qs| ==> ParseNumber(qs[k].pctChange).Some? {
        assert forall k :: 0 <= k < |qs[1..]| ==> ParseNumber(qs[1..][k].pctChange).Some? by {
          forall k | 0 <= k < |qs[1..]| ensures ParseNumber(qs[1..][k].pctChange).Some? {
            assert qs[1..][k] == qs[k + 1];
          }
        }
      } else if ParseNumber(qs[0].pctChange).Some? {
        var k :| 0 <= k < |qs| && ParseNumber(qs[k].pctChange).None?;
        assert qs[k] == qs[1..][k - 1];
      }
    }
  }

  /** When every row's change parses, the figure the rows give is the arithmetic mean of the changes. */
  lemma ChangePctIsMeanWhenAllParse(qs: seq<QuoteRecord>)
    requires |qs| > 0
    requires forall k :: 0 <= k < |qs| ==> ParseNumber(qs[k].pctChange).Some?
    ensures |ParsedChanges(qs)| == |qs|
    ensures AverageChangePct(AccumulateAll(Initial, qs).changesObs, AccumulateAll(Initial, qs).symbolsCount)
        == Some(Sum(ParsedChanges(qs)) / |ParsedChanges(qs)| as real)
  {
    AllChangesParse(qs);
    var t := AccumulateAll(Initial, qs);
    CountIsRows(Initial, qs);
    ChangesAreParsed(Initial, qs);
    assert t.symbolsCount == |ParsedChanges(qs)|;
    assert t.changesObs == ParsedChanges(qs);
  }

  /** Rows whose change did not parse pull a positive average toward 0: below the mean of the parsed changes. */
  lemma ChangePctDiluted(changes: seq<real>, count: nat)
    requires 0 < |changes| < count
    requires Sum(changes) > 0.0
    ensures AverageChangePct(changes, count).Some?
    ensures AverageChangePct(changes, count).value < Sum(changes) / |changes| as real
  {
    QuotientShrinks(Sum(changes), |changes| as real, count as real);
  }

  lemma QuotientShrinks(s: real, n: real, m: real)
    requires s > 0.0 && 0.0 < n < m
    ensures s / m < s / n
  {
    var a, b := s / m, s / n;
    assert a * m == s;
    assert b * n == s;
    assert b > 0.0;
    assert b * m > b * n;
    if a >= b {
      assert a * m >= b * m;
    }
  }

  /** Changes 2.0 and 4.0 over three rows give 2.0, not 3.0. */
  lemma ChangePctExample()
    ensures AverageChangePct([2.0, 4.0], 3) == Some(2.0)
  {
    assert Sum([2.0, 4.0]) == 6.0 by {
      assert [2.0, 4.0][1..] == [4.0];
      assert [4.0][1..] == [];
    }
  }
}
