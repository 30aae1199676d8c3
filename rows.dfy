/**
 * One quote row of the market summary page turned into a quote record: the
 * row text is split on newlines, the first empty piece is removed, and the
 * eleven cells that follow are read in the page's fixed layout
 * [symbol, open, high, low, latest, change, % change, bid, offer, volume, value].
 */
module Rows {
  import opened Wrappers
  import opened Text
  import opened Numbers

  datatype QuoteRecord = QuoteRecord(
    symbol: string,
    priceOpen: string,
    priceHigh: string,
    priceLow: string,
    priceLatest: string,
    priceChange: string,
    pctChange: string,
    priceBid: string,
    priceOffer: string,
    sharesVolumeQty: real,
    sharesValueThb: real)

  /** Why a row cannot be read; each escapes the capture routine. */
  datatype RowError =
    | NoEmptyCell            // `raw_data_cell.remove('')` raises ValueError
    | MissingCell(found: nat) // `raw_data_cell[k]` raises IndexError: only `found` cells

  /** Cells read from a row: symbol and ten more. */
  const CellCount: nat := 11

  /** The row's cells: its text split on newlines, less the first empty piece. */
  function RowCells(text: string): Option<seq<string>> {
    RemoveFirst(Split(text, '\n'), "")
  }

  /**
   * The symbol cell, filtered to ASCII and cut at the first `<`, where the
   * marker of a flagged stock begins; the second half is that marker.
   */
  function SplitFlag(cell: string): (string, string) {
    var s := AsciiOnly(cell);
    if '<' in s then
      var i := IndexOf(s, '<');
      (s[..i], s[i..])
    else (s, "")
  }

  /** The two halves make up the filtered cell, and the symbol half ends before the first `<`. */
  lemma SplitFlagSpec(cell: string)
    ensures SplitFlag(cell).0 + SplitFlag(cell).1 == AsciiOnly(cell)
    ensures '<' !in SplitFlag(cell).0
    ensures SplitFlag(cell).1 == "" || SplitFlag(cell).1[0] == '<'
  {
    var s := AsciiOnly(cell);
    if '<' in s {
      IndexOfFirst(s, '<');
      var i := IndexOf(s, '<');
      assert s[..i] + s[i..] == s;
    }
  }

  /** The stored symbol: the flag marker is discarded. */
  function CleanSymbol(cell: string): string {
    SplitFlag(cell).0
  }

  /** Shares traded: the comma-stripped parse of the cell, 0 when it does not parse. */
  function VolumeQty(cell: string): real {
    ParseNumber(cell).GetOr(0.0)
  }

  /** Value traded: the page shows thousands of baht, so the parse is scaled by 1000; 0 when it does not parse, as for the volume. */
  function ValueThb(cell: string): (r: real)
    ensures r == 1000.0 * VolumeQty(cell)
  {
    match ParseNumber(cell)
    case Some(v) => v * 1000.0
    case None => 0.0
  }

  /** The record built from a row's cells. */
  function RecordOf(cells: seq<string>): (q: QuoteRecord)
    requires |cells| >= CellCount
  {
    QuoteRecord(
      symbol := CleanSymbol(cells[0]),
      priceOpen := cells[1],
      priceHigh := cells[2],
      priceLow := cells[3],
      priceLatest := cells[4],
      priceChange := cells[5],
      pctChange := cells[6],
      priceBid := cells[7],
      priceOffer := cells[8],
      sharesVolumeQty := VolumeQty(cells[9]),
      sharesValueThb := ValueThb(cells[10]))
  }

  /** One row of the page, from its text to a record or to the error that aborts the capture. */
  function ExtractRecord(text: string): Result<QuoteRecord, RowError> {
    match RowCells(text)
    case None => Failure(NoEmptyCell)
    case Some(cells) =>
      if |cells| < CellCount then Failure(MissingCell(|cells|))
      else Success(RecordOf(cells))
  }

  // ---------------------------------------------------------------------
  // Properties

  /** The stored symbol is ASCII, holds no `<`, and is the whole filtered cell when there is no marker. */
  lemma CleanSymbolSpec(cell: string)
    ensures forall c :: c in CleanSymbol(cell) ==> IsAscii(c) && c != '<'
    ensures '<' !in AsciiOnly(cell) ==> CleanSymbol(cell) == AsciiOnly(cell)
    ensures CleanSymbol(cell) <= AsciiOnly(cell)
  {
    var r := SplitFlag(cell);
    SplitFlagSpec(cell);
    AsciiOnlySpec(cell);
    assert AsciiOnly(cell)[..|r.0|] == r.0;
    forall c | c in r.0 ensures IsAscii(c) {
      assert c in AsciiOnly(cell);
    }
  }

  /** A symbol already in clean form is stored unchanged. */
  lemma CleanSymbolIdempotent(cell: string)
    ensures CleanSymbol(CleanSymbol(cell)) == CleanSymbol(cell)
  {
    CleanSymbolSpec(cell);
    var s := CleanSymbol(cell);
    AsciiOnlyKeepsAscii(s);
  }

  /** The marker of a flagged stock is cut off: `SYM<F>` is stored as `SYM`. */
  lemma FlaggedSymbol(sym: string, flag: string)
    requires forall c :: c in sym ==> IsAscii(c) && c != '<'
    requires forall c :: c in flag ==> IsAscii(c)
    ensures CleanSymbol(sym + "<" + flag) == sym
    ensures SplitFlag(sym + "<" + flag).1 == "<" + flag
  {
    var cell := sym + "<" + flag;
    assert forall c :: c in cell ==> IsAscii(c);
    AsciiOnlyKeepsAscii(cell);
    assert cell[|sym|] == '<' && cell[..|sym|] == sym;
    IndexOfAt(cell, '<', |sym|);
    assert cell[|sym|..] == "<" + flag;
  }

  /** Shares traded: a whole number with a thousands separator reads as that number. */
  lemma VolumeQtyGrouped(n: nat, i: nat)
    requires i <= |FormatNat(n)|
    ensures VolumeQty(FormatNat(n)[..i] + "," + FormatNat(n)[i..]) == n as real
  {
    ParseGrouped(n, i);
  }

  /** Value traded in baht: a whole number of thousands with separators reads as 1000 times it. */
  lemma ValueThbGrouped(n: nat, i: nat)
    requires i <= |FormatNat(n)|
    ensures ValueThb(FormatNat(n)[..i] + "," + FormatNat(n)[i..]) == 1000.0 * n as real
  {
    ParseGrouped(n, i);
  }

  /** A placeholder volume or value counts as 0. */
  lemma PlaceholderCountsZero(cell: string)
    requires forall i :: 0 <= i < |cell| ==> !IsDigit(cell[i])
    ensures VolumeQty(cell) == 0.0 && ValueThb(cell) == 0.0
  {
    NoDigitNoNumber(cell);
  }

  /** `remove('')` fails exactly when no line is blank; otherwise one cell per newline is left. */
  lemma RowCellsOutcome(text: string)
    ensures RowCells(text).None? <==> !(|text| == 0 || text[0] == '\n' || BlankAfterFirst(text, '\n'))
    ensures RowCells(text).Some? ==> |RowCells(text).value| == Count(text, '\n')
  {
    EmptyPieceIff(text, '\n');
    SplitPieces(text, '\n');
    var pieces := Split(text, '\n');
    RemoveFirstSpec(pieces, "");
    if "" in pieces {
      RemoveFirstMultiset(pieces, "");
    }
  }

  /**
   * Which rows fail, in terms of the text: `remove('')` fails exactly when
   * no line of the text is blank, and otherwise the row has one cell fewer
   * than it has lines, so it needs at least eleven newlines.
   */
  lemma ExtractRecordOutcome(text: string)
    ensures ExtractRecord(text) == Failure(NoEmptyCell)
        <==> !(|text| == 0 || text[0] == '\n' || BlankAfterFirst(text, '\n'))
    ensures ExtractRecord(text).Success?
        <==> (|text| == 0 || text[0] == '\n' || BlankAfterFirst(text, '\n')) && Count(text, '\n') >= CellCount
  {
    RowCellsOutcome(text);
  }

  /**
   * A row whose text is a newline followed by its cells, one per line (the
   * shape `get_text()` gives a table row), is read back cell for cell.
   */
  lemma ExtractRecordOfRow(cells: seq<string>)
    requires |cells| >= CellCount
    requires forall i :: 0 <= i < |cells| ==> '\n' !in cells[i]
    ensures ExtractRecord(Join([""] + cells, '\n')) == Success(RecordOf(cells))
  {
    var pieces := [""] + cells;
    SplitJoin(pieces, '\n');
    assert pieces[0] == "";
    IndexOfAt(pieces, "", 0);
    assert pieces[1..] == cells;
  }
}
