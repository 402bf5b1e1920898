# Premarket breakout strategy: a verified model

This project models the decision and order-lifecycle engine of the
`PremarketBreakout` trading algorithm in `main.py`, and proves what it
promises:

- **Daily universe selection.** From the rows of a gap-statistics table for
  one date, the strategy keeps the gappers whose gap and premarket high pass
  two minimums. It caps their number at `max_daily_trades`, records each
  selected symbol's premarket high as its breakout threshold, and returns
  the selected symbols.
- **Breakout entry.** Between 9:30 and 12:00 the strategy checks every active
  security. One with data, no position, a threshold and no earlier trade
  today is entered when its price is strictly above its threshold. An entry
  marks the symbol traded, buys a quantity sized from a fixed dollar risk,
  and submits a take-profit limit sell and a stop-loss sell, both priced off
  the threshold.
- **One-cancels-other.** On an order event, a filled stop leg cancels its
  symbol's limit leg. Otherwise a filled limit leg cancels the stop leg.
- **The daily cutoff.** It forgets the thresholds and the traded symbols,
  liquidates, and cancels every open order.

Modules:

- `Orders` is the order book as the strategy sees it: orders with a
  symbol, a kind, a signed quantity and a status, identified by their
  position in the book. It also holds cancelling and entry counting.
- `Pricing` holds the entry window, the position size and the two bracket
  prices.
- `Universe` holds the row lookup by date, the filter, the stable sort by
  gap, the cap, and the writing of thresholds.
- `Engine` holds the strategy's state as a value, one function per callback
  saying what it does to that state, and the lemmas for what the strategy
  promises.
- `Strategy` holds the class `PremarketBreakout`. Its fields are the state;
  its methods update them step by step and are proved to leave exactly
  the state the `Engine` functions describe. The class invariant is that
  the bracket maps name legs of the right symbol and kind. It also
  requires each symbol to have exactly one entry since the last cutoff if
  it is marked traded, and none otherwise.
- `Scenarios` holds worked instances on concrete values.

Units:

- Prices are integer cents.
- The target percentage is in basis points (10000 = 1.0).
- A gap is an integer in the table's own unit.

Python's `round(x, 2)` is rounding half to even on the exact value.
`int(...)` of the position size truncates toward zero.

Behaviours of the code the model keeps:

- Ties keep table order. Python's `sorted` is stable, so when the sorted
  list is cut, gappers with equal gaps are taken in the order of the table.
- The single-row branch (a pandas Series) ignores the cap. With a cap of
  zero, a lone qualifying row is still selected.
- The within-cap test compares the number of all rows of the date with
  the cap, not the number of qualifying rows.
- The position size is computed before the symbol is marked traded. Orders
  are submitted even when the size is zero.
- The cutoff does not clear the limit-leg and stop-leg maps. They keep
  references to the previous day's orders.

## Model

| member | source | states |
|---|---|---|
| Orders.Cancel | main.py:38-41 | Cancelling turns an open order into a canceled one and leaves a filled or canceled one as it is; every other order and every field but the status are unchanged. |
| Orders.CancelAll | main.py:89 | Cancelling all open orders turns every open order into a canceled one, so none is open; filled and canceled orders are unchanged; only statuses change. |
| Pricing.TruncDiv | main.py:76 | The quotient truncated toward zero: the magnitude of the divisor times that of the quotient is at most the dividend's and one more exceeds it; its sign is the sign of the exact quotient. |
| Pricing.RoundHalfEven | main.py:80-81 | The result is within half a unit of the exact value and, on a tie, is even. |
| Pricing.Quantity | main.py:76 | For a positive price and target the share count is the largest q with target * price * q at most the dollar risk (in cents and basis points). |
| Pricing.WindowMinutes | main.py:50-52 | The entry window holds exactly for the minutes of the day from 9:30 up to but excluding 12:00. |
| Pricing.BracketAroundThreshold | main.py:80-81 | For a non-negative threshold and target, the stop price is at most the threshold and the limit price at least, so the limit price is at least the stop price. |
| Universe.RowsOnExact | main.py:97-101 | The lookup by date returns exactly the table's rows with that date, none more often than in the table; a date missing from the table gives no rows. |
| Universe.RowsOnCount | main.py:97-101 | The lookup returns every row of the date exactly as often as the table has it, and no row of another date. |
| Universe.RowsOnAppend | main.py:97-101 | The lookup keeps table order: the rows of a concatenation are the rows of its parts one after the other. |
| Universe.QualifyingExact | main.py:109-114 | The filter keeps exactly the rows with gap and premarket high at or above the minimums, each at most as often as in the input. |
| Universe.QualifyingCount | main.py:109-114 | The filter keeps every passing row exactly as often as the input has it, and no failing row. |
| Universe.QualifyingAppend | main.py:109-114 | The filter keeps input order: filtering a concatenation gives the filtered parts one after the other. |
| Universe.SortByGapCorrect | main.py:122 | The sort returns a permutation of its input ordered by gap, largest first. |
| Universe.SortByGapStable | main.py:122 | The sort is stable: for every gap value, the rows with that gap appear in the same order as in the input. |
| Universe.SliceTo | main.py:122 | Python's `[:m]`: a prefix, of length `m` capped at the length for `m >= 0`, and dropping `-m` elements for a negative `m`. |
| Universe.SelectSound | main.py:102-126 | Every selected row is a row of the date that passes both minimums, and selection never repeats a qualifying row more often than it occurs. |
| Universe.SelectCap | main.py:102-122 | With several rows and a non-negative cap at most `max_daily_trades` rows are selected; with a single row at most one; with no more rows than the cap (or one row) selection is the filter's output in input order. |
| Universe.SelectTop | main.py:115-122 | Over the cap, no selected row has a smaller gap than a qualifying row left out (for any cap), and for a non-negative cap exactly min(cap, qualifying) rows are selected. |
| Universe.SelectTiesInTableOrder | main.py:99-122 | Ties keep table order: for every gap, the selected rows with that gap are the first of the date's qualifying rows with that gap, in table order. |
| Universe.SingleRowIgnoresCap | main.py:102-107 | A single qualifying row is selected even with a cap of zero. |
| Universe.SelectedThresholds | main.py:104-126 | After selection every threshold either is an old one whose symbol was not selected, unchanged, or is the premarket high of a selected row (a qualifying row of the date) with that symbol. |
| Universe.SelectedKeys | main.py:104-126 | The threshold map after selection has the old keys plus exactly the returned symbols. |
| Universe.MissingDate | main.py:96-98 | A date not in the table selects nothing, returns no symbols and leaves the thresholds unchanged. |
| Engine.EnterEachFrame | main.py:53-81 | The entry loop marks traded exactly the active symbols whose guard held, keeps thresholds and positions, only appends orders, and keeps the bracket maps well formed. |
| Engine.OnDataEntersExactly | main.py:50-70 | A data slice enters a symbol if and only if the clock is inside the window, the symbol is active, has data, is not invested, has a threshold, is not yet traded, and its price is strictly above the threshold. |
| Engine.EnterEachSymbol | main.py:53-81 | Per symbol, the entry loop adds one entry for an entered symbol and leaves its bracket maps naming an open market buy, limit sell and stop sell at the computed quantity and prices, and leaves the entry count and legs of any other symbol as they were. |
| Engine.OnDataAppends | main.py:76-81 | A data slice appends exactly three orders per symbol it enters, and every appended order belongs to a symbol it enters. |
| Engine.OnDataBrackets | main.py:76-81 | Every symbol a slice enters is priced above its threshold and gets a market buy of the computed quantity and a limit sell and stop sell of that quantity at the rounded prices of its threshold, named by the bracket maps; every other symbol keeps its legs. |
| Engine.OnDataKeepsOneEntry | main.py:63-78 | A data slice keeps "exactly one entry per traded symbol since the cutoff, none for the others". |
| Engine.TradedNotReentered | main.py:63-64 | A symbol already traded since the cutoff gets no new entry and keeps its legs. |
| Engine.OnDataKeepsOco | main.py:79-81 | A data slice keeps the one-cancels-other invariant: new brackets start with both legs open and no status changes. |
| Engine.OcoExclusive | main.py:37-41 | A filled stop leg is kept and the limit leg is canceled if open (the stop check comes first); otherwise a filled limit leg is kept and the stop leg is canceled if open; when neither leg is filled, or the symbol has no bracket, nothing changes; only that symbol's legs change, and only in status. |
| Engine.OcoAfterFill | main.py:37-41 | When the venue fills an open order and the event for its symbol follows, no bracket has both legs filled or one filled and the other open. |
| Engine.EventKeepsOneEntry | main.py:37-41 | An order event keeps the one-entry-per-day invariant. |
| Engine.FillKeepsOneEntry | main.py:37-41 | The fill of an open order, which precedes its event, keeps the one-entry-per-day invariant. |
| Engine.ResetClears | main.py:85-89 | After the cutoff thresholds, traded symbols and positions are empty, every order open before is canceled and none is open, the bracket maps keep their stale legs, a new day starts with no entries, and a second cutoff changes nothing. |
| Engine.ResetKeepsOco | main.py:85-89 | The cutoff keeps the one-cancels-other invariant. |
| Engine.SelectKeepsInvariants | main.py:92-127 | Selection keeps the bracket maps well formed and both invariants, and a date missing from the table leaves the whole state unchanged. |
| Strategy.PremarketBreakout.constructor | main.py:6-17 | The strategy starts with no thresholds, no traded symbols, no legs, no orders and no positions, with the class invariant holding. |
| Strategy.PremarketBreakout.Submit | main.py:79-81 | Submitting appends one open order to the book and returns its identifier. |
| Strategy.PremarketBreakout.SelectSymbols | main.py:92-127 | Selection writes exactly the thresholds of the selected rows for the date, returns their symbols in order, and keeps the class invariant. |
| Strategy.PremarketBreakout.WriteSelection | main.py:102-126 | The three branches on the rows of one date return the symbols of the selection and write its thresholds. |
| Strategy.PremarketBreakout.WriteQualifying | main.py:108-114 | The within-cap loop returns the symbols of the qualifying rows in input order and writes their thresholds. |
| Strategy.PremarketBreakout.QualifyingRows | main.py:116-121 | The first over-cap loop collects exactly the qualifying rows in input order. |
| Strategy.PremarketBreakout.WriteRows | main.py:123-126 | The last over-cap loop returns the symbols of the kept rows and writes their thresholds. |
| Strategy.PremarketBreakout.OnData | main.py:49-81 | A data slice leaves exactly the state the entry rules describe and keeps the class invariant. |
| Strategy.PremarketBreakout.EnterIfBreakout | main.py:54-81 | One security is skipped unless its guard holds, and otherwise entered with its bracket. |
| Strategy.PremarketBreakout.OnOrderEvent | main.py:37-41 | An order event performs exactly the one-cancels-other step and keeps the class invariant. |
| Strategy.PremarketBreakout.ClosePositions | main.py:85-89 | The cutoff leaves exactly the reset state, starts a new day and keeps the class invariant. |
| Scenarios.SingleCandidate | main.py:102-107 | One gapper on its date with gap 10 (minimum 5) and premarket high $20.00 (minimum $10.00) is selected with threshold $20.00, even with a cap of zero. |
| Scenarios.BreakoutBracket | main.py:70-81 | A 5% target, a $20.00 threshold and a $20.50 price at 10:15: the symbol is entered with 195 shares, a limit leg at $21.00 and a stop leg at $19.00. |
| Scenarios.StopFillsFirst | main.py:37-39 | The stop leg filling first cancels the limit leg, and the following cutoff has nothing left to cancel. |

## Left out

- Downloading and parsing the CSV table (main.py:15) and reading the parameters (main.py:17, 93-95) are left out. The table and the target are constructor arguments; the filter is an argument of each selection.
- The framework set-up (main.py:19-25, 43-47) and the scheduler wiring (main.py:28-35) are left out. The callbacks are methods the caller invokes.
- Floating point is not modelled. Prices are cents, the target is in basis points and gaps are integers. Rounding is exact half-to-even and the position size is an exact truncated quotient.
- Broker semantics are out. `Liquidate` is modelled as clearing the positions map; the closing market orders it would submit are not modelled. Fills come from the venue, so they are a function outside the class (`Engine.FillSpec`), not a strategy method.
- `Symbol.Create` is not modelled. Symbols are strings, and the order maps are keyed by the same string as the thresholds.
- The code keeps its dictionaries at class level, where all instances share them. The model gives them to each instance.
- The commented-out filters and logging are not modelled.
- Strategy.PremarketBreakout.OnData: requires a nonzero price for every symbol in the slice whose price is above its threshold. The code divides only by the price of a symbol that also passes the other guards.
- Strategy.PremarketBreakout.constructor: requires a nonzero target. The code would fail with a division by zero at the first breakout.
- Strategy.PremarketBreakout.OnData: "has data" is modelled as the symbol having a price in the slice. The code's `HasData` and the slice's own keys are treated as one. Where `HasData` holds but the slice has no bar for the symbol, the code's `data[symbol]` (main.py:68) raises; the model skips the symbol instead.
- Strategy.PremarketBreakout.OnOrderEvent: the event carries only its symbol. The order and status it reports are not used, as in the code.
