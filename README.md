# Thai market price capture, modelled in Dafny

This project models the core of `capture()` in `thcap_latest_prices.py`:

- **Link filter** (`get_quotes_links`): picks the anchors of the SET market summary page that lead to a per-symbol quote page.
- **Row extraction**: turns the text of each quote row into a quote record.
  - The text is split on newlines.
  - The first empty cell is removed.
  - The symbol is filtered to ASCII and cut at a flag marker.
  - Ten fixed cells are read.
  - The volume and value cells are parsed.
- **Aggregation pass**: updates `market_data` in place, row by row.
  - `symbols_count` counts the rows.
  - `total_shares_value_thb` accumulates the traded value.
  - `average_price_thb` is a pairwise running average of each row's observed price. The observed price is latest, else bid, else offer.
  - `changes_obs` collects the percent changes that parse.
  - `data` maps each symbol to its record.
- **Finalisation**: `average_change_pct = sum(changes_obs) / symbols_count`.

## Modules

- `Wrappers`: `Option` and `Result`.
- `Text`: the Python string and list operations the routine relies on, on `seq<char>`:
  - `split`/`join` on one separator;
  - `list.remove`;
  - `str.find`;
  - `startswith`;
  - the ASCII filter of `encode('ascii', errors='ignore')`;
  - `replace(',', '')`;
  - the whitespace trim done by `float()`, over the characters Python 2's `unicode.isspace()` accepts.
- `Numbers`: Python's `float()` on decimal texts, on exact reals.
  - `None` stands for `ValueError`.
  - A formatter for whole numbers serves as the parser's partner in round-trip lemmas.
- `Links`: `get_quotes_links`. The function `QuoteLinks` is the filter and the method `GetQuotesLinks` is the generator loop.
- `Rows`: one row's text to a `QuoteRecord`, or to the `RowError` that escapes the routine.
- `Aggregate`: the pure reference for the statistics.
  - A `Tally` holds the state.
  - `Accumulate` is one row's step and `AccumulateAll` is the fold.
  - Independent per-figure definitions, such as sums, the parsed changes and the truthy prices, are connected to the fold by lemmas.
  - There are lemmas on the running average and the average percent change.
- `Capture`: the imperative part.
  - The class `MarketData` has one field per figure the loop updates. Its methods modify them and are proved to follow `Accumulate`.
  - The method `Capture` loops over the quote links, proved against the reference `CaptureSpec`.

Behaviour of the code worth noting, which the model follows:

- A row that cannot be read stops the run. Either `remove('')` finds no empty cell, or a cell index up to 10 is missing. The exception is not caught (only `get_text()` sits inside the `try`), so it escapes `capture()` before the JSON snapshot (`thcap_latest_prices.py` lines 144-146) is written; the HTML index page was already saved before the loop (lines 35-37). The model returns `Crashed(RowFailed(i, e), tally)` with the state built so far.
- Only the first empty cell is removed, as `list.remove` does. Later empty lines remain cells.
- `symbols_count` counts rows, not keys. A repeated symbol overwrites its entry, so the number of keys is at most `symbols_count`. It is equal exactly when no symbol repeats (`KeysMatchCount`).
- The average price moves only on a truthy observed price. A price that parses as 0 leaves it unchanged, like a missing price.
- With no quote rows, the final division raises `ZeroDivisionError`. This is `Crashed(NoQuoteRows, …)`.

## Model

| member | source | states |
|---|---|---|
| Links.IsQuoteLink | thcap_latest_prices.py:46-47 | definition: the anchor has an `href` that starts with `/C13_FastQuote_Main.jsp` |
| Links.QuoteLinks | thcap_latest_prices.py:43-50 | definition: the anchors that are quote links, in order; stated by `QuoteLinksMembers`, `QuoteLinksAppend` and `QuoteLinksIdempotent` |
| Links.QuoteLinksMembers | thcap_latest_prices.py:43-50 | an anchor is yielded iff it is on the page, has an `href`, and the href starts with `/C13_FastQuote_Main.jsp` |
| Links.QuoteLinksAppend | thcap_latest_prices.py:43-50 | the filter keeps document order: the links of a concatenation are the links of each part, in turn |
| Links.QuoteLinksIdempotent | thcap_latest_prices.py:43-50 | filtering the yielded links again yields them all and nothing else |
| Links.GetQuotesLinks | thcap_latest_prices.py:43-50 | the generator loop collects exactly the filtered links, in order |
| Text.Split | thcap_latest_prices.py:70 | `split('\n')` always yields at least one piece |
| Text.SplitPieces | thcap_latest_prices.py:70 | no piece holds the separator, and there is one more piece than separators |
| Text.JoinSplit | thcap_latest_prices.py:70 | joining the pieces with the separator gives the text back |
| Text.SplitJoin | thcap_latest_prices.py:70 | splitting a join of separator-free pieces gives the pieces back |
| Text.EmptyPieceIff | thcap_latest_prices.py:70-74 | an empty cell exists iff the text is empty, starts with a newline, ends with one, or has two in a row |
| Text.IndexOf | thcap_latest_prices.py:77 | `find` returns a position holding the character |
| Text.IndexOfFirst | thcap_latest_prices.py:77 | no occurrence comes before the one found |
| Text.IndexOfAt | thcap_latest_prices.py:77 | an occurrence with none before it is the one found |
| Text.RemoveFirst | thcap_latest_prices.py:74 | definition: `list.remove`, none when the element is absent; stated by `RemoveFirstSpec` and `RemoveFirstMultiset` |
| Text.RemoveFirstSpec | thcap_latest_prices.py:74 | `remove` fails iff the element is absent, and otherwise cuts out the first occurrence only |
| Text.RemoveFirstMultiset | thcap_latest_prices.py:74 | `remove` takes exactly one copy out: the length drops by one and the multiset loses one element |
| Text.AsciiOnly | thcap_latest_prices.py:75 | definition: `encode('ascii', errors='ignore')`, dropping every character above U+007F; stated by `AsciiOnlySpec` |
| Text.AsciiOnlySpec | thcap_latest_prices.py:75 | the ASCII filter keeps only ASCII characters of the cell and adds none |
| Text.AsciiOnlyKeepsAscii | thcap_latest_prices.py:75 | an all-ASCII text passes unchanged |
| Text.AsciiOnlyAppend | thcap_latest_prices.py:75 | the filter works character by character |
| Text.StripCommas | thcap_latest_prices.py:92 | definition: `replace(',', '')`; stated by `StripCommasSpec` |
| Text.StripCommasSpec | thcap_latest_prices.py:92 | `replace(',', '')` leaves no comma and only characters of the input |
| Text.StripCommasAppend | thcap_latest_prices.py:92 | the comma removal distributes over concatenation |
| Text.CommaIgnored | thcap_latest_prices.py:92 | a comma anywhere does not change the stripped text |
| Text.StripCommasNoComma | thcap_latest_prices.py:92 | a text without commas is unchanged |
| Text.IsSpace | thcap_latest_prices.py:92 | definition: the characters Python 2's `unicode.isspace()` accepts, which `float()` skips around a `unicode` argument |
| Text.TrimStart | thcap_latest_prices.py:92 | definition: drops the leading whitespace `float()` skips; stated by `TrimStartSuffix` |
| Text.TrimStartSuffix | thcap_latest_prices.py:92 | the leading trim done by `float()` keeps a suffix not starting with whitespace, and everything it drops is whitespace |
| Text.TrimEnd | thcap_latest_prices.py:92 | definition: drops the trailing whitespace `float()` skips; stated by `TrimEndPrefix` |
| Text.TrimEndPrefix | thcap_latest_prices.py:92 | the trailing trim keeps a prefix not ending with whitespace, and everything it drops is whitespace |
| Numbers.ParseFloat | thcap_latest_prices.py:92 | definition: `float()` on a decimal text, none for `ValueError`; stated by the parse lemmas below |
| Numbers.ParseNumber | thcap_latest_prices.py:92 | definition: `float(cell.replace(',', ''))`, the parse every numeric cell goes through; stated by `SeparatorIgnored`, `ParseGrouped`, `ParseGroupedDecimal` and `NoDigitNoNumber` |
| Numbers.DigitsValueFormat | thcap_latest_prices.py:92 | the digits of a formatted whole number read back as the number |
| Numbers.ParseUnsignedWhole | thcap_latest_prices.py:92 | a non-empty digit string parses as its base-10 value |
| Numbers.ParseUnsignedPoint | thcap_latest_prices.py:92 | `whole.frac` parses as the whole part plus the fraction scaled by its length |
| Numbers.ParseFloatPlain | thcap_latest_prices.py:92 | without surrounding blanks or a sign, `float()` is the unsigned parse |
| Numbers.ParseFormatInt | thcap_latest_prices.py:92 | `float(str(n))` is `n` for every whole number, negative ones included |
| Numbers.SeparatorIgnored | thcap_latest_prices.py:92 | a thousands separator anywhere does not change what a cell parses to |
| Numbers.ParseFormatNat | thcap_latest_prices.py:92 | a formatted whole number parses back to itself through the comma strip |
| Numbers.ParseGrouped | thcap_latest_prices.py:91-94 | digits of `n` with a separator inserted anywhere parse as `n` |
| Numbers.ParseFloatDecimal | thcap_latest_prices.py:92 | a plain decimal numeral parses as its decimal value |
| Numbers.StripGroupedDecimal | thcap_latest_prices.py:92 | stripping `high,low.frac` leaves `highlow.frac` |
| Numbers.ParseGroupedDecimal | thcap_latest_prices.py:92 | a grouped decimal numeral parses as the separator-free numeral |
| Numbers.ParseThousandsExample | thcap_latest_prices.py:92 | the cell `1,234.50` parses as 1234.5 |
| Numbers.ParseUnsignedHasDigit | thcap_latest_prices.py:92 | whatever parses contains a digit |
| Numbers.NoDigitNoNumber | thcap_latest_prices.py:91-98 | a cell without a digit raises `ValueError` |
| Numbers.PlaceholdersDoNotParse | thcap_latest_prices.py:91-98 | the placeholders `-`, the empty cell and `N/A` raise `ValueError` |
| Rows.RowCells | thcap_latest_prices.py:70-74 | definition: the row text split on newlines, less its first empty piece; stated by `RowCellsOutcome` |
| Rows.SplitFlag | thcap_latest_prices.py:75-79 | definition: the filtered symbol cell cut at its first `<` into symbol and flag; stated by `SplitFlagSpec` |
| Rows.SplitFlagSpec | thcap_latest_prices.py:75-79 | symbol and flag together make up the filtered cell; the symbol holds no `<`; the flag is empty or starts at the first `<` |
| Rows.CleanSymbol | thcap_latest_prices.py:75-78 | definition: the symbol half of `SplitFlag`; stated by `CleanSymbolSpec`, `CleanSymbolIdempotent` and `FlaggedSymbol` |
| Rows.CleanSymbolSpec | thcap_latest_prices.py:75-77 | the stored symbol is ASCII, holds no `<`, is a prefix of the filtered cell, and is that whole cell when it has no `<` |
| Rows.CleanSymbolIdempotent | thcap_latest_prices.py:75-77 | cleaning a clean symbol changes nothing |
| Rows.FlaggedSymbol | thcap_latest_prices.py:75-79 | `SYM<flag` is stored as `SYM`, with `<flag` as the flag |
| Rows.VolumeQty | thcap_latest_prices.py:91-94 | definition: the cell's parse, 0 on `ValueError`; stated by `VolumeQtyGrouped` and `PlaceholderCountsZero` |
| Rows.ValueThb | thcap_latest_prices.py:95-98 | the value cell reads as 1000 times what the same cell would read as a volume, 0 included |
| Rows.VolumeQtyGrouped | thcap_latest_prices.py:91-94 | a grouped whole number of shares reads as that number |
| Rows.ValueThbGrouped | thcap_latest_prices.py:95-98 | a grouped whole number in the value cell reads as 1000 times it |
| Rows.PlaceholderCountsZero | thcap_latest_prices.py:91-98 | a volume or value cell without digits counts as 0 |
| Rows.RecordOf | thcap_latest_prices.py:75-89 | definition: the record of cells 0 to 10 in the page's column order |
| Rows.ExtractRecord | thcap_latest_prices.py:70-98 | definition: the record of a row, or the `ValueError`/`IndexError` that escapes; stated by `ExtractRecordOutcome` and `ExtractRecordOfRow` |
| Rows.RowCellsOutcome | thcap_latest_prices.py:70-74 | row preparation fails iff no line is blank; otherwise one cell per newline remains |
| Rows.ExtractRecordOutcome | thcap_latest_prices.py:70-89 | a row fails with `ValueError` iff it has no blank line, and yields a record iff it has a blank line and at least 11 newlines |
| Rows.ExtractRecordOfRow | thcap_latest_prices.py:70-89 | a row text of a newline then one cell per line reads back cell for cell |
| Aggregate.FirstSomeSpec | thcap_latest_prices.py:106-115 | the first parse that succeeds gives the value, every earlier parse failed, and the result is none iff all fail |
| Aggregate.ObservedPrice | thcap_latest_prices.py:106-115 | definition: the parse of the latest price, else of the bid, else of the offer, else none; its order is stated by `ObservedPriceOrder` |
| Aggregate.ObservedPriceOrder | thcap_latest_prices.py:106-115 | the observed price is the first of the parses of latest, bid and offer, in that order, that succeeds |
| Aggregate.ChangeObs | thcap_latest_prices.py:124-128 | definition: the row's parsed percent change, or nothing; stated by `ChangesAreParsed` and `AllChangesParse` |
| Aggregate.UpdateAverage | thcap_latest_prices.py:118-121 | the average moves iff the price is defined, non-zero and different from it, and then it moves half way to it |
| Aggregate.Accumulate | thcap_latest_prices.py:101-141 | definition: one row's step on every figure and on the mapping; stated by `AccumulateWellFormed` and followed by `MarketData.AddRecord` |
| Aggregate.AccumulateAll | thcap_latest_prices.py:101-141 | definition: the rows' steps in order; stated by `CountIsRows`, `TotalIsSum`, `ChangesAreParsed`, `AverageIsRunning`, `KeysAreSymbols`, `LastRowWins` and `UntouchedKeys` |
| Aggregate.AccumulateWellFormed | thcap_latest_prices.py:101-141 | one row keeps keys mapped to their own symbol, and keys and observations no more than rows |
| Aggregate.SumValuesSnoc | thcap_latest_prices.py:102 | the reference total grows by the new row's value |
| Aggregate.ParsedChangesSnoc | thcap_latest_prices.py:124-128 | the reference observations grow by the new row's parsed change |
| Aggregate.TruthyPricesSnoc | thcap_latest_prices.py:118-121 | the reference prices grow by the new row's truthy observed price |
| Aggregate.SymbolsSnoc | thcap_latest_prices.py:130 | the symbols of one more row add its symbol |
| Aggregate.CountIsRows | thcap_latest_prices.py:101 | every row adds exactly one to `symbols_count` |
| Aggregate.TotalIsSum | thcap_latest_prices.py:102 | the total traded value is the sum of the rows' values |
| Aggregate.ChangesAreParsed | thcap_latest_prices.py:124-128 | `changes_obs` is the rows' parsed percent changes in order; unparsable ones add nothing |
| Aggregate.AverageIsRunning | thcap_latest_prices.py:104-121 | the average price is the pairwise running average of the truthy observed prices |
| Aggregate.KeysAreSymbols | thcap_latest_prices.py:130-141 | the keys are the earlier keys plus the symbols of the rows |
| Aggregate.LastRowWins | thcap_latest_prices.py:130-141 | a repeated symbol holds the record of its last row |
| Aggregate.UntouchedKeys | thcap_latest_prices.py:130-141 | entries of symbols no row carries are unchanged |
| Aggregate.AccumulateAllWellFormed | thcap_latest_prices.py:101-141 | the whole pass keeps the state well formed |
| Aggregate.SymbolsCard | thcap_latest_prices.py:130 | there are at most as many symbols as rows, and as many exactly when none repeats |
| Aggregate.KeysMatchCount | thcap_latest_prices.py:101-141 | keys never outnumber `symbols_count`, and equal it iff no symbol repeats |
| Aggregate.RunningAverage | thcap_latest_prices.py:118-121 | definition: the pairwise average `(avg + p) / 2` over a list of prices; stated by `RunningAverageClosedForm`, `RunningAverageBounds` and `RunningAverageOfConstant` |
| Aggregate.WeightedSnoc | thcap_latest_prices.py:118-121 | the recency weighting of one more price halves the old weights |
| Aggregate.RunningAverageClosedForm | thcap_latest_prices.py:118-121 | the running average is the start weighted by 1/2^n plus each price weighted by 1/2^(n-k): recency-weighted, not the mean |
| Aggregate.RunningAverageBounds | thcap_latest_prices.py:118-121 | the running average stays within any bounds that hold the start and every price |
| Aggregate.RunningAverageOfConstant | thcap_latest_prices.py:118-121 | from 0, n equal prices c give c - c/2^n |
| Aggregate.RunningAverageExample | thcap_latest_prices.py:118-121 | prices 10, 20, 30 from 0 give 5, 12.5 and 21.25 |
| Aggregate.AverageChangePct | thcap_latest_prices.py:176 | the division fails iff there are no rows; otherwise the figure times the row count is the sum of the changes |
| Aggregate.AllChangesParse | thcap_latest_prices.py:124-128 | each row adds at most one observation, and every row adds one iff every row's change parses |
| Aggregate.ChangePctIsMeanWhenAllParse | thcap_latest_prices.py:124-176 | when every row's change parses, the figure the pass over the rows computes is the arithmetic mean of the parsed changes |
| Aggregate.ChangePctDiluted | thcap_latest_prices.py:176 | rows whose change does not parse pull a positive figure below the mean of the parsed changes |
| Aggregate.ChangePctExample | thcap_latest_prices.py:176 | changes 2.0 and 4.0 over three rows give 2.0 |
| Capture.MarketData.constructor | thcap_latest_prices.py:60-64 | the statistics start at zero and the mapping and observations empty |
| Capture.MarketData.AddRecord | thcap_latest_prices.py:101-141 | each figure and the mapping are updated as one row's step, and the state stays well formed: keys map to records of their own symbol, and neither keys nor observations outnumber rows |
| Capture.MarketData.AddRow | thcap_latest_prices.py:70-141 | a row that cannot be read changes nothing and returns its error; a row that reads is added |
| Capture.MarketData.FinaliseChangePct | thcap_latest_prices.py:176 | the division succeeds iff there are rows, and then sets the average percent change |
| Capture.RunRows | thcap_latest_prices.py:66-141 | definition: the loop from row i, folding the rows until one cannot be read; stated by `RunRowsFold` and `RunRowsOutcome` |
| Capture.Finish | thcap_latest_prices.py:66-176 | definition: a row error escapes, otherwise the division, which fails with no rows; stated by `FinishCaptured` |
| Capture.CaptureSpec | thcap_latest_prices.py:43-176 | definition: filter, loop, then division; stated by `CapturedStats` and `NoLinksNoCapture` and followed by `Capture` |
| Capture.Capture | thcap_latest_prices.py:66-176 | the routine's outcome is the reference fold over the quote links' rows, followed by the division, and its state is well formed in every outcome |
| Capture.Records | thcap_latest_prices.py:66-89 | one record per row read, in order |
| Capture.RunRowsFold | thcap_latest_prices.py:66-141 | the loop from row i continues the fold of the rows before i |
| Capture.AllRowsRead | thcap_latest_prices.py:66-141 | when every row reads, the loop completes with the fold of all records |
| Capture.FirstBadRow | thcap_latest_prices.py:66-141 | the first row that cannot be read stops the loop with its error and keeps the rows before it |
| Capture.FirstFailure | thcap_latest_prices.py:66-141 | reads that do not all succeed have a first failure |
| Capture.RunRowsOutcome | thcap_latest_prices.py:66-141 | the loop completes iff every row reads; otherwise it stops at the first row that does not |
| Capture.CompletedStats | thcap_latest_prices.py:66-141 | a completed loop counted one row per row read and kept at most one key per row |
| Capture.FinishCaptured | thcap_latest_prices.py:176 | a run is captured only after a completed loop over at least one row, and its figure times the row count is the sum of the changes |
| Capture.CapturedStats | thcap_latest_prices.py:66-176 | a captured run counted exactly one row per quote link, at least one, and has at most that many keys |
| Capture.NoLinksNoCapture | thcap_latest_prices.py:176 | a page without quote links fails at the division, with the initial state |

## Left out

- The HTTP fetch of the summary page: network I/O. The page arrives as the sequence of its anchors.
- BeautifulSoup parsing, `find_all("a")` and `link.parent.parent.get_text()`: a foreign library. Each anchor is given by its optional `href` and the text of its table row.
- The `try`/`except e:` around `get_text()`: `get_text()` is not modelled as failing, so the handler, which would itself raise `NameError`, is never reached.
- The directory reset, the writes of the HTML, JSON and latest files, and the tar/gzip archive with its cleanup: filesystem I/O. The model ends at the in-memory outcome of the run.
- JSON serialisation and the `src` and `ts` entries of `market_data`: library formatting and the clock.
- The printed sanity checks and console output: they never change the state.
- IEEE floating point: figures are exact reals, so rounding in sums, halving and the final division is not modelled.
- Numbers.ParseFloat: covers what `float()` accepts in decimal notation, namely surrounding whitespace, a sign, and digits with at most one point. Exponents and `inf`/`nan` are not modelled. Nor are non-ASCII decimal digits, which Python 2 converts to ASCII digits before parsing a `unicode` argument. The model parses such cells as `None`.
- The generator of `get_quotes_links` is consumed lazily by the loop; since the anchor list is fixed before the loop starts, the model collects the links first.
- Capture.MarketData.AddRow: `raw_data_cell.remove('')` mutates a list in place; the model computes the cells as a value.
- Capture.CapturedStats: does not restate the mean of the changes; `Capture.FinishCaptured` and `Aggregate.AverageChangePct` state it.
