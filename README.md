# Stock returns calculator: a Dafny model

This project models the calculation behind the Streamlit "Stock Returns
Calculator" (`streamlit_price_change_from_close.py`). For each ticker symbol,
the calculator compares the price at a chosen hour of a target date with the
previous trading day's close. It produces a table sorted by percentage return.

What is modelled:

- **Calendar** (`calendar.dfy`). Dates are Python proleptic ordinals, so
  0001-01-01 is day 1 and a Monday. `Weekday` is `date.weekday()`. A weekend
  target is refused. Otherwise the comparison day is three days back from a
  Monday and one day back on any other weekday. A comparison day before
  `date.min` raises `OverflowError` outside the `try`, so the whole call fails.
- **Quotes** (`quotes.dfy`). A provider bar is `(day, time, close)`. The target
  price is the close of the first target-day bar whose time equals the
  comparison time. The previous close is the close of the last comparison-day
  bar. The return `(target - prev) / prev * 100` follows numpy float
  semantics: a zero previous close yields +inf, -inf or NaN rather than an
  error.
- **Result table** (`table.dfy`). Rows are sorted on Return (%) in descending
  order, with NaN last, as `sort_values(..., ascending=False)` does. Also here:
  the top-N view `df.head(n)` and the bottom-N view `df.tail(n).iloc[::-1]`.
- **Calculator** (`calculator.dfy`). `calculate_stock_returns` is a method.
  Its per-symbol loop fills the four result columns and records each provider
  request and each progress value. A symbol is skipped when:
  - the end date `target + 1 day` passes `date.max`;
  - the provider fails;
  - there is no target bar;
  - the comparison day has no bar.
  The collected rows are then sorted. The method is proved against the
  specification function `Collected` and the lemmas about it.
- **Symbols** (`symbols.dfy`). This models the sidebar comprehension
  `[s.strip().upper() for s in text.split('\n') if s.strip()]`.

The provider (the yfinance fetch) is a parameter: a function from
`Request(symbol, start, end)` to `Option<seq<Bar>>`, where `None` means the
fetch raised. `round(x, 2)` is also a parameter, `round2: real -> real`.
Prices and returns are `real`.

Some behaviour comes from the code and may be surprising:

- Rows with equal returns have no guaranteed order. pandas' default sort is
  not stable.
- Symbols are not de-duplicated. A symbol entered twice is kept twice by the
  parser (`ParseKeepsRepeats`) and fetched twice. When both fetches are priced,
  it gives two rows, and they are equal when the provider answers both
  requests alike.
- A previous close of zero does not skip the symbol. numpy division gives
  ±inf or NaN, and the row is kept.

## Model

| member | source | states |
|---|---|---|
| Calendar.Weekday | streamlit_price_change_from_close.py:30 | The weekday lies in 0..6, and `date.min` (ordinal 1) is a Monday (0). |
| Calendar.ComparisonDay | streamlit_price_change_from_close.py:30-37 | Weekend is returned exactly for Saturday/Sunday targets; a comparison day is always in the calendar and before the target; an out-of-calendar result happens only when `target - 3` precedes `date.min`. |
| Calendar.ComparisonDayIsPreviousWeekday | streamlit_price_change_from_close.py:34-37 | For a weekday target the comparison day is target−3 on a Monday and target−1 otherwise; it is itself a weekday; no weekday lies strictly between it and the target; only `date.min` has no comparison day. |
| Quotes.TargetPriceIsFirstMatch | streamlit_price_change_from_close.py:62-65 | `TargetPrice`: the target price is absent exactly when no bar lies at (target day, comparison time); otherwise it is the close of the earliest such bar. |
| Quotes.PrevCloseIsLastOfDay | streamlit_price_change_from_close.py:67-69 | `PrevClose`: the previous close is absent exactly when no bar lies on the comparison day; otherwise it is the close of the latest such bar. |
| Quotes.ReturnPct | streamlit_price_change_from_close.py:71 | With a non-zero previous close the return is finite and `prev * (1 + ret/100) == target`; with a zero one it is NaN exactly when the target is 0, and +inf exactly when the target is positive. |
| Quotes.ReturnSign | streamlit_price_change_from_close.py:71 | With a positive previous close the return is positive, zero or negative exactly when the target is above, equal to or below it. |
| Quotes.RoundRet | streamlit_price_change_from_close.py:76 | Rounding keeps a return finite or non-finite, and leaves infinities and NaN unchanged. |
| ReturnsTable.RanksTotalPreorder | streamlit_price_change_from_close.py:92 | The descending order on returns (NaN last) is reflexive, total and transitive. |
| ReturnsTable.SortedDescAllPairs | streamlit_price_change_from_close.py:92 | In a table sorted on neighbouring rows, every earlier row ranks at least every later row. |
| ReturnsTable.Insert | streamlit_price_change_from_close.py:92 | Inserting into a sorted table keeps it sorted and adds exactly that row. |
| ReturnsTable.SortByReturn | streamlit_price_change_from_close.py:91-93 | The result is sorted with Return (%) non-increasing, and it is a permutation of the rows. |
| ReturnsTable.TopView | streamlit_price_change_from_close.py:180 | The top view holds min(n, rows) rows, and they are the table's first rows in order. |
| ReturnsTable.BottomView | streamlit_price_change_from_close.py:186 | The bottom view holds min(n, rows) rows, and they are the table's last rows, last row first. |
| ReturnsTable.TopViewHoldsBest | streamlit_price_change_from_close.py:179-181 | On a sorted table, every row of the top view ranks at least every row left out of it. |
| ReturnsTable.BottomViewHoldsWorst | streamlit_price_change_from_close.py:185-187 | On a sorted table, the bottom view's returns do not decrease, and every row left out of it ranks at least every row in it. |
| Calculator.PriceBars | streamlit_price_change_from_close.py:62-76 | A symbol is priced exactly when the fetch succeeded, a target-time price exists and a previous close exists. A missing target bar gives the NoTargetBar skip. A row carries the symbol. |
| Calculator.OutcomeSelectsBars | streamlit_price_change_from_close.py:51-80 | `Outcome`, the whole `try` for one symbol: a symbol yields a row exactly when a request was made, the fetch succeeded, and the bars include a bar at (target day, time) and a bar on the comparison day. The row then holds the rounded closes of the first such target bar and the last comparison-day bar, and the rounded return between them. |
| Calculator.CollectedRows | streamlit_price_change_from_close.py:50-80 | Every symbol that can be priced contributes its row, whatever happened to earlier symbols. Every row comes from an input symbol. There are never more rows than symbols. |
| Calculator.CollectedInInputOrder | streamlit_price_change_from_close.py:50-80 | `Collected`, the rows the loop appends: the loop collects exactly one row per priced input position, in input order. The k-th row is the row of the k-th priced position, and every priced position is among them. |
| Calculator.CollectedCounts | streamlit_price_change_from_close.py:50-80 | Each row occurs among the collected rows exactly as often as input positions yield it. |
| Calculator.RepeatedSymbolGivesTwoRows | streamlit_price_change_from_close.py:50-76 | There is no de-duplication. A symbol entered twice and priced gives its row at least twice. The provider is a function of the request, so both positions get the same answer. |
| Calculator.CollectedEmpty | streamlit_price_change_from_close.py:86-89 | No rows are collected exactly when every symbol is skipped. |
| Calculator.Progress | streamlit_price_change_from_close.py:53 | The value after symbol idx lies in (0, 1]. It equals 1 exactly after the last symbol. |
| Calculator.ProgressIncreases | streamlit_price_change_from_close.py:53 | The progress value strictly increases from one symbol to a later one. |
| Calculator.ProcessSymbols | streamlit_price_change_from_close.py:50-80 | The four columns have equal length and form exactly the collected rows. One request per symbol, in order, for [comparison day, target+1), or none when the end date overflows. The progress values are (idx+1)/len in order. |
| Calculator.CalculateStockReturns | streamlit_price_change_from_close.py:30-95 | A weekend target gives an empty table, no request and no progress. A comparison day before `date.min` raises. Otherwise the table is sorted with Return (%) non-increasing and is a permutation of the collected rows; the requests and progress values are those of the loop. |
| Calculator.TableFromInput | streamlit_price_change_from_close.py:86-95 | The final table has no more rows than input symbols. Every row belongs to an input symbol that could be priced. Each row occurs exactly as often as input positions yield it, so a missing or duplicated row is ruled out. The table is empty exactly when no symbol could be priced. |
| Symbols.Split | streamlit_price_change_from_close.py:134 | `split('\n')` yields at least one piece, and no piece contains a newline. |
| Symbols.JoinSplit | streamlit_price_change_from_close.py:134 | Joining the pieces of a split with newlines gives back the text. |
| Symbols.SplitJoin | streamlit_price_change_from_close.py:134 | Splitting newline-free pieces joined by newlines gives back the pieces. |
| Symbols.StripCutsOnlySpace | streamlit_price_change_from_close.py:134 | `Strip`, i.e. `strip()`, keeps a contiguous, trimmed piece of the input. Everything it cuts off on either side is whitespace. |
| Symbols.StripEmpty | streamlit_price_change_from_close.py:134 | `strip()` yields the empty string exactly for an all-whitespace line. |
| Symbols.Upper | streamlit_price_change_from_close.py:134 | `upper()` keeps the length, leaves no lowercase ASCII letter, changes only lowercase letters, and turns them into uppercase letters; `UpperIsOwnCapital` fixes each one as its own capital. |
| Symbols.UpperIsOwnCapital | streamlit_price_change_from_close.py:134 | Every lowercase ASCII letter becomes its own capital, the one at the same place in the alphabet. |
| Symbols.NormalizeLinesAppend | streamlit_price_change_from_close.py:134 | The comprehension keeps line order: normalising a concatenation gives the concatenation of the normalised parts. |
| Symbols.NormalizeLinesClean | streamlit_price_change_from_close.py:134 | No more entries than lines. Every entry is non-empty, trimmed, newline-free and has no lowercase ASCII letter. |
| Symbols.ParseSymbolsClean | streamlit_price_change_from_close.py:133-134 | `ParseSymbols`, the whole comprehension: every parsed symbol is clean. There are no more symbols than lines of text. |
| Symbols.ParseCleanList | streamlit_price_change_from_close.py:133-134 | Any non-empty list of clean symbols, written one per line, parses back to itself. Nothing is dropped or merged. |
| Symbols.ParseKeepsRepeats | streamlit_price_change_from_close.py:134 | A clean symbol typed on two lines is parsed into two entries. |
| Symbols.ParseSymbolsIdempotent | streamlit_price_change_from_close.py:133-134 | Writing the parsed list back one per line and parsing again gives the same list, duplicates included. |

## Left out

- Streamlit presentation (lines 31, 47-48, 54-55, 83-84, 104-209): warnings, the progress-bar widget, status text, tabs, metrics, CSS and sidebar widgets. Only the values given to the progress bar are modelled.
- The `print` calls at lines 19-21: logging only.
- The yfinance fetch (line 59): a network call, replaced by the `provider` parameter. The model does not say what a real provider returns for a given range.
- The provider is a function of the request, so two identical requests get the same answer. The real fetch may answer a repeated symbol differently: a bar still open can change between the calls, or one call can fail while the other succeeds.
- The clock defaults (lines 22-26) and the `strptime` parsing (line 28): the target is a day number in the calendar, and the time is minutes after midnight.
- `tz_convert` to America/New_York (line 64). Bars carry a day and time in one time zone. The code filters the target day by date before converting, and never converts the comparison-day rows; this matters only when the provider's index is not already in New York time.
- Quotes.RoundRet: `round(x, 2)` (lines 74-76) is an abstract function, so the model does not state that every value has at most two decimals.
- Quotes.ReturnPct: float64 arithmetic is modelled over exact reals. Rounding error, a negative zero previous close (which flips the sign of the infinity) and NaN closes from the provider are not modelled.
- Symbols.Upper: only ASCII a-z are upper-cased. Python's `str.upper` also maps other Unicode letters, and some of them change the length (`ß` becomes `SS`).
- The mean, median, best and worst statistics (lines 193-203): float numerics over the table.
- The CSV and base64 download link (lines 97-102): encoding done by library calls.
- The button handler in `main` (lines 164-169): the "Please enter stock symbols" warning for an empty list, and the call that passes the parsed symbols, date and time to the calculation. This is UI flow.
- Market holidays: as in the code, only weekends are skipped when choosing the comparison day. A holiday comparison day has no bars, so every symbol is skipped.
