/**
 * The capture pass: the `market_data` object updated in place row by row,
 * and the loop over the quote links that drives it, proved against the
 * pure reference of the Aggregate module.
 */
module Capture {
  import opened Wrappers
  import opened Numbers
  import opened Links
  import opened Rows
  import opened Aggregate

  /** What stops the capture routine: a row it cannot read, or no rows at all at the final division. */
  datatype CaptureError =
    | RowFailed(row: nat, error: RowError)
    | NoQuoteRows

  /** A finished capture, or the error that escapes `capture()` with the state built so far. */
  datatype CaptureOutcome =
    | Captured(tally: Tally, averageChangePct: real)
    | Crashed(error: CaptureError, tally: Tally)

  /** What reading one row gives: its record, or the error that aborts the capture. */
  type RowRead = Result<QuoteRecord, RowError>

  /** The outcome of the loop over the rows. */
  datatype PassResult =
    | Completed(tally: Tally)
    | Stopped(row: nat, error: RowError, tally: Tally)

  /** What each quote link's row reads as, in link order. */
  function ReadRows(links: seq<Anchor>): seq<RowRead> {
    seq(|links|, k requires 0 <= k < |links| => ExtractRecord(links[k].rowText))
  }

  /** Reference for the loop from row `i` on: rows are folded in order until one cannot be read. */
  function RunRows(t: Tally, rows: seq<RowRead>, i: nat): PassResult
    requires i <= |rows|
    decreases |rows| - i
  {
    if i == |rows| then Completed(t)
    else
      match rows[i]
      case Failure(e) => Stopped(i, e, t)
      case Success(q) => RunRows(Accumulate(t, q), rows, i + 1)
  }

  /** After the loop: a row error escapes; otherwise the division, which fails on zero rows. */
  function Finish(p: PassResult): CaptureOutcome {
    match p
    case Stopped(i, e, t) => Crashed(RowFailed(i, e), t)
    case Completed(t) =>
      match AverageChangePct(t.changesObs, t.symbolsCount)
      case None => Crashed(NoQuoteRows, t)
      case Some(a) => Captured(t, a)
  }

  /** Reference for the whole routine, from the page's anchors to its outcome. */
  function CaptureSpec(anchors: seq<Anchor>): CaptureOutcome {
    Finish(RunRows(Initial, ReadRows(QuoteLinks(anchors)), 0))
  }

  /** `market_data` and `changes_obs` of one run. */
  class MarketData {
    var data: map<string, QuoteRecord>
    var symbolsCount: nat
    var averagePriceThb: real
    var totalSharesValueThb: real
    var changesObs: seq<real>
    var averageChangePct: Option<real>

    function Tally(): Tally
      reads this
    {
      Aggregate.Tally(data, symbolsCount, averagePriceThb, totalSharesValueThb, changesObs)
    }

    ghost predicate Valid()
      reads this
    {
      WellFormed(Tally())
    }

    constructor ()
      ensures Valid()
      ensures Tally() == Initial && averageChangePct == None
    {
      data := map[];
      symbolsCount := 0;
      averagePriceThb := 0.0;
      totalSharesValueThb := 0.0;
      changesObs := [];
      averageChangePct := None;
    }

    /** The statistics update and the store of one record: the second half of the loop body. */
    method AddRecord(q: QuoteRecord)
      requires Valid()
      modifies this
      ensures Valid()
      ensures averageChangePct == old(averageChangePct)
      ensures symbolsCount == old(symbolsCount) + 1
      ensures totalSharesValueThb == old(totalSharesValueThb) + q.sharesValueThb
      ensures averagePriceThb == UpdateAverage(old(averagePriceThb), ObservedPrice(q))
      ensures changesObs == old(changesObs) + ChangeObs(q)
      ensures data == old(data)[q.symbol := q]
      ensures Tally() == Accumulate(old(Tally()), q)
    {
      AccumulateWellFormed(Tally(), q);
      symbolsCount := symbolsCount + 1;
      totalSharesValueThb := totalSharesValueThb + q.sharesValueThb;
      var observed := ObservedPrice(q);
      if observed.Some? && observed.value != 0.0 {
        averagePriceThb := (averagePriceThb + observed.value) / 2.0;
      }
      var chg := ParseNumber(q.pctChange);
      if chg.Some? {
        changesObs := changesObs + [chg.value];
      }
      data := data[q.symbol := q];
    }

    /** One pass of the loop body: read the row, then, if it reads, add its record. */
    method AddRow(text: string) returns (err: Option<RowError>)
      requires Valid()
      modifies this
      ensures Valid()
      ensures averageChangePct == old(averageChangePct)
      ensures match ExtractRecord(text)
        case Failure(e) => err == Some(e) && Tally() == old(Tally())
        case Success(q) => err == None && Tally() == Accumulate(old(Tally()), q)
    {
      var r := ExtractRecord(text);
      if r.Failure? {
        return Some(r.error);
      }
      AddRecord(r.value);
      err := None;
    }

    /** `average_change_pct = sum(changes_obs) / symbols_count`; `false` is the ZeroDivisionError. */
    method FinaliseChangePct() returns (ok: bool)
      requires Valid()
      modifies this`averageChangePct
      ensures Valid()
      ensures ok <==> symbolsCount > 0
      ensures averageChangePct == if ok then AverageChangePct(changesObs, symbolsCount) else old(averageChangePct)
    {
      if symbolsCount == 0 {
        return false;
      }
      averageChangePct := Some(Sum(changesObs) / symbolsCount as real);
      ok := true;
    }
  }

  /** The routine: filter the links, fold the rows in order, then divide. */
  method Capture(anchors: seq<Anchor>) returns (r: CaptureOutcome)
    ensures r == CaptureSpec(anchors)
    ensures WellFormed(r.tally)
  {
    var links := GetQuotesLinks(anchors);
    ghost var rows := ReadRows(links);
    var md := new MarketData();
    var i := 0;
    while i < |links|
      invariant 0 <= i <= |links|
      invariant md.Valid()
      invariant RunRows(md.Tally(), rows, i) == RunRows(Initial, rows, 0)
    {
      ghost var before := md.Tally();
      var err := md.AddRow(links[i].rowText);
      ghost var read := rows[i];
      assert read == ExtractRecord(links[i].rowText);
      if err.Some? {
        return Crashed(RowFailed(i, err.value), md.Tally());
      }
      assert read.Success? && md.Tally() == Accumulate(before, read.value);
      assert RunRows(before, rows, i) == RunRows(md.Tally(), rows, i + 1);
      i := i + 1;
    }
    var ok := md.FinaliseChangePct();
    if !ok {
      return Crashed(NoQuoteRows, md.Tally());
    }
    r := Captured(md.Tally(), md.averageChangePct.value);
  }

  // ---------------------------------------------------------------------
  // Properties of the whole pass

  /** Every row reads as a record. */
  predicate RowsRead(rows: seq<RowRead>) {
    forall k :: 0 <= k < |rows| ==> rows[k].Success?
  }

  /** The records of rows that all read. */
  function Records(rows: seq<RowRead>): (qs: seq<QuoteRecord>)
    requires RowsRead(rows)
    ensures |qs| == |rows|
    ensures forall k :: 0 <= k < |rows| ==> qs[k] == rows[k].value
  {
    if |rows| == 0 then [] else Records(rows[..|rows| - 1]) + [rows[|rows| - 1].value]
  }

  /** The loop from row `i` on continues the fold of the rows before `i`. */
  lemma {:induction false} RunRowsFold(rows: seq<RowRead>, i: nat)
    requires i <= |rows|
    requires RowsRead(rows[..i])
    ensures RunRows(Initial, rows, 0) == RunRows(AccumulateAll(Initial, Records(rows[..i])), rows, i)
  {
    if i > 0 {
      var pre := rows[..i - 1];
      assert rows[..i][..i - 1] == pre;
      assert RowsRead(pre) by {
        forall k | 0 <= k < |pre| ensures pre[k].Success? {
          assert pre[k] == rows[..i][k];
        }
      }
      RunRowsFold(rows, i - 1);
      assert rows[..i][i - 1] == rows[i - 1];
      assert Records(rows[..i]) == Records(pre) + [rows[i - 1].value];
      assert Records(rows[..i])[..i - 1] == Records(pre);
    } else {
      assert Records(rows[..0]) == [];
    }
  }

  /** When every row reads, the loop completes with the fold of all records. */
  lemma AllRowsRead(rows: seq<RowRead>)
    requires RowsRead(rows)
    ensures RunRows(Initial, rows, 0) == Completed(AccumulateAll(Initial, Records(rows)))
  {
    assert rows[..|rows|] == rows;
    RunRowsFold(rows, |rows|);
  }

  /** The first row that cannot be read stops the loop with its error, keeping the rows before it. */
  lemma FirstBadRow(rows: seq<RowRead>, i: nat)
    requires i < |rows|
    requires RowsRead(rows[..i])
    requires rows[i].Failure?
    ensures RunRows(Initial, rows, 0) == Stopped(i, rows[i].error, AccumulateAll(Initial, Records(rows[..i])))
  {
    RunRowsFold(rows, i);
  }

  /** A sequence of reads that does not all succeed has a first failure. */
  lemma {:induction false} FirstFailure(rows: seq<RowRead>) returns (i: nat)
    requires !RowsRead(rows)
    ensures i < |rows| && RowsRead(rows[..i]) && rows[i].Failure?
  {
    var pre := rows[..|rows| - 1];
    if RowsRead(pre) {
      i := |rows| - 1;
    } else {
      i := FirstFailure(pre);
      assert rows[..i] == pre[..i];
    }
  }

  /** The loop stops exactly at a row that cannot be read, or completes when every row reads. */
  lemma RunRowsOutcome(rows: seq<RowRead>)
    ensures RunRows(Initial, rows, 0).Completed? <==> RowsRead(rows)
    ensures RunRows(Initial, rows, 0).Stopped? ==>
      var i := RunRows(Initial, rows, 0).row;
      i < |rows| && RowsRead(rows[..i]) && rows[i] == Failure(RunRows(Initial, rows, 0).error)
  {
    if RowsRead(rows) {
      AllRowsRead(rows);
    } else {
      var i := FirstFailure(rows);
      FirstBadRow(rows, i);
    }
  }

  /** A loop that completes counted one row per row read and keeps at most one key per row. */
  lemma CompletedStats(rows: seq<RowRead>)
    requires RunRows(Initial, rows, 0).Completed?
    ensures var t := RunRows(Initial, rows, 0).tally;
      t.symbolsCount == |rows| && |t.data.Keys| <= t.symbolsCount
  {
    RunRowsOutcome(rows);
    AllRowsRead(rows);
    var qs := Records(rows);
    CountIsRows(Initial, qs);
    KeysMatchCount(qs);
  }

  /** A run is captured only after a completed loop over at least one row, with the mean of the changes. */
  lemma FinishCaptured(p: PassResult)
    requires Finish(p).Captured?
    ensures p.Completed? && Finish(p).tally == p.tally && p.tally.symbolsCount > 0
    ensures Finish(p).averageChangePct * p.tally.symbolsCount as real == Sum(p.tally.changesObs)
  {
  }

  /** A run that finishes counted one row per quote link, at least one, and keeps at most one key per row. */
  lemma CapturedStats(anchors: seq<Anchor>)
    requires CaptureSpec(anchors).Captured?
    ensures CaptureSpec(anchors).tally.symbolsCount == |QuoteLinks(anchors)| > 0
    ensures |CaptureSpec(anchors).tally.data.Keys| <= CaptureSpec(anchors).tally.symbolsCount
  {
    var links := QuoteLinks(anchors);
    var rows := ReadRows(links);
    assert |rows| == |links|;
    var p := RunRows(Initial, rows, 0);
    FinishCaptured(p);
    CompletedStats(rows);
  }

  /** A run fails at the division exactly when the page has no quote links and nothing else fails first. */
  lemma NoLinksNoCapture(anchors: seq<Anchor>)
    requires QuoteLinks(anchors) == []
    ensures CaptureSpec(anchors) == Crashed(NoQuoteRows, Initial)
  {
  }
}
