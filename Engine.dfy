/** The strategy's per-day session as a value, and what each callback does
    to it: selection writes thresholds, a data slice may enter breakouts, an
    order event cancels the sibling bracket leg, and the daily cutoff resets
    everything. The class in module Strategy is proved to follow these
    functions; the lemmas here state what the strategy promises of them. */
module Engine {
  import opened Orders
  import opened Pricing
  import opened Universe

  /** The strategy's state. Order maps are keyed by the symbol's string. */
  datatype SessionState = SessionState(
    thresholds: map<string, int>,      // symbol -> premarket high, in cents
    traded: set<string>,               // symbols entered since the last cutoff
    limitOrder: map<string, OrderId>,  // symbol -> its latest take-profit leg
    stopOrder: map<string, OrderId>,   // symbol -> its latest stop-loss leg
    orders: seq<Order>,                // every order submitted, in order
    positions: map<string, int>)       // shares held per symbol

  /** The state before the first callback. */
  function Initial(): SessionState
  {
    SessionState(map[], {}, map[], map[], [], map[])
  }

  /** Both bracket maps name the same symbols, and each names a limit (stop)
      order of that symbol in the book. */
  ghost predicate WellFormed(st: SessionState)
  {
    && st.limitOrder.Keys == st.stopOrder.Keys
    && (forall s :: s in st.limitOrder ==>
          st.limitOrder[s] < |st.orders| && st.orders[st.limitOrder[s]].symbol == s
          && st.orders[st.limitOrder[s]].kind.Limit?)
    && (forall s :: s in st.stopOrder ==>
          st.stopOrder[s] < |st.orders| && st.orders[st.stopOrder[s]].symbol == s
          && st.orders[st.stopOrder[s]].kind.StopMarket?)
  }

  predicate Invested(st: SessionState, s: string)
  {
    s in st.positions && st.positions[s] != 0
  }

  /** Every price in a data slice that is above its symbol's threshold, and
      so may be divided by when sizing an entry, is nonzero. */
  predicate PricesNonZero(bars: map<string, int>, thresholds: map<string, int>)
  {
    forall s :: s in bars && s in thresholds && bars[s] > thresholds[s] ==> bars[s] != 0
  }

  /** The entry guard: `s` has data, is not invested, has a threshold, has not
      been traded since the last cutoff, and its price is strictly above the
      threshold. */
  predicate Breaks(st: SessionState, s: string, bars: map<string, int>)
  {
    && s in bars
    && !Invested(st, s)
    && s in st.thresholds
    && s !in st.traded
    && bars[s] > st.thresholds[s]
  }

  // ---------------------------------------------------------------------------
  // Breakout entry

  /** Entering `s` at `price`: mark it traded, then submit a market buy and a
      take-profit limit sell and a stop-loss sell of the same size, priced off
      the threshold, and remember the two legs. */
  function Enter(st: SessionState, s: string, price: int, targetBps: int): SessionState
    requires s in st.thresholds && price != 0 && targetBps != 0
  {
    var th := st.thresholds[s];
    var q := Quantity(price, targetBps);
    var n := |st.orders|;
    st.(traded := st.traded + {s},
        orders := st.orders + [Order(s, Market, q, Open),
                               Order(s, Limit(LimitPrice(th, targetBps)), -q, Open),
                               Order(s, StopMarket(StopPrice(th, targetBps)), -q, Open)],
        limitOrder := st.limitOrder[s := n + 1],
        stopOrder := st.stopOrder[s := n + 2])
  }

  function TryEnter(st: SessionState, s: string, bars: map<string, int>, targetBps: int): SessionState
    requires targetBps != 0 && PricesNonZero(bars, st.thresholds)
  {
    if Breaks(st, s, bars) then Enter(st, s, bars[s], targetBps) else st
  }

  /** The entry loop over the active securities, in order. */
  function EnterEach(st: SessionState, active: seq<string>, bars: map<string, int>, targetBps: int): (r: SessionState)
    requires targetBps != 0 && PricesNonZero(bars, st.thresholds)
    ensures r.thresholds == st.thresholds
  {
    if active == [] then st
    else TryEnter(EnterEach(st, active[..|active| - 1], bars, targetBps), active[|active| - 1], bars, targetBps)
  }

  /** One data slice at `hour:minute`: outside the entry window nothing happens. */
  function OnDataSpec(st: SessionState, hour: int, minute: int, active: seq<string>,
                      bars: map<string, int>, targetBps: int): SessionState
    requires targetBps != 0 && PricesNonZero(bars, st.thresholds)
  {
    if InWindow(hour, minute) then EnterEach(st, active, bars, targetBps) else st
  }

  /** The three orders an entry of `s` leaves in the book: a market buy of
      the quantity priced at `price`, then a limit sell and a stop sell of the
      same quantity at the bracket prices of `threshold`, the last two being
      the legs the bracket maps name. */
  ghost predicate BracketPlaced(st: SessionState, s: string, threshold: int, price: int, targetBps: int)
    requires price != 0 && targetBps != 0
  {
    var q := Quantity(price, targetBps);
    && s in st.limitOrder && s in st.stopOrder
    && var l := st.limitOrder[s];
    && 1 <= l && l + 1 < |st.orders| && st.stopOrder[s] == l + 1
    && st.orders[l - 1] == Order(s, Market, q, Open)
    && st.orders[l] == Order(s, Limit(LimitPrice(threshold, targetBps)), -q, Open)
    && st.orders[l + 1] == Order(s, StopMarket(StopPrice(threshold, targetBps)), -q, Open)
  }

  // ---------------------------------------------------------------------------
  // Selection, order events, the daily cutoff, fills

  /** Selection for `date` writes the selected thresholds and nothing else. */
  function SelectSpec(st: SessionState, table: seq<GapperRow>, date: string, f: Filter): SessionState
  {
    st.(thresholds := Written(st.thresholds, Select(RowsOn(table, date), f)))
  }

  /** One-cancels-other: a filled stop leg cancels the limit leg; otherwise a
      filled limit leg cancels the stop leg. */
  function OnOrderEventSpec(st: SessionState, s: string): SessionState
    requires WellFormed(st)
  {
    if s in st.stopOrder && st.orders[st.stopOrder[s]].status == Filled then
      st.(orders := Cancel(st.orders, st.limitOrder[s]))
    else if s in st.limitOrder && st.orders[st.limitOrder[s]].status == Filled then
      st.(orders := Cancel(st.orders, st.stopOrder[s]))
    else st
  }

  /** The daily cutoff: forget thresholds and traded symbols, liquidate every
      position and cancel every open order. The bracket maps are kept. */
  function ClosePositionsSpec(st: SessionState): SessionState
  {
    st.(thresholds := map[], traded := {}, positions := map[], orders := CancelAll(st.orders))
  }

  /** The venue filling an open order: its status and the position move. */
  function FillSpec(st: SessionState, id: OrderId): SessionState
    requires id < |st.orders| && st.orders[id].status == Open
  {
    var o := st.orders[id];
    var held := if o.symbol in st.positions then st.positions[o.symbol] else 0;
    st.(orders := Fill(st.orders, id), positions := st.positions[o.symbol := held + o.quantity])
  }

  // ---------------------------------------------------------------------------
  // Invariants

  /** Since order `from` (the first order after the last cutoff) each symbol
      has exactly one entry if it is marked traded and none otherwise. */
  ghost predicate OneEntryPerDay(st: SessionState, from: nat)
  {
    && from <= |st.orders|
    && forall s :: Entries(st.orders[from..], s) == if s in st.traded then 1 else 0
  }

  /** Once a leg has filled the other is canceled: never both filled, never
      one filled and the other open. */
  predicate Settled(limit: Status, stop: Status)
  {
    && (limit == Filled ==> stop == Canceled)
    && (stop == Filled ==> limit == Canceled)
  }

  ghost predicate OcoSafe(st: SessionState)
  {
    && WellFormed(st)
    && forall s :: s in st.limitOrder ==>
         Settled(st.orders[st.limitOrder[s]].status, st.orders[st.stopOrder[s]].status)
  }

  // ---------------------------------------------------------------------------
  // Lemmas: entry

  /** What an entry loop may do: keep thresholds and positions, mark more
      symbols traded, and only append orders. */
  ghost predicate Grows(st: SessionState, r: SessionState)
  {
    && r.thresholds == st.thresholds && r.positions == st.positions
    && st.traded <= r.traded && st.orders <= r.orders
  }

  /** The legs of `s` are the same in both states. */
  ghost predicate SameLegs(st: SessionState, r: SessionState, s: string)
  {
    && (s in r.limitOrder <==> s in st.limitOrder) && (s in r.stopOrder <==> s in st.stopOrder)
    && (s in st.limitOrder ==> r.limitOrder[s] == st.limitOrder[s])
    && (s in st.stopOrder ==> r.stopOrder[s] == st.stopOrder[s])
  }

  lemma EnterWellFormed(st: SessionState, s: string, price: int, targetBps: int)
    requires s in st.thresholds && price != 0 && targetBps != 0
    requires WellFormed(st)
    ensures WellFormed(Enter(st, s, price, targetBps))
  {
    var r := Enter(st, s, price, targetBps);
    forall x | x in r.limitOrder
      ensures r.limitOrder[x] < |r.orders| && r.orders[r.limitOrder[x]].symbol == x
      ensures r.orders[r.limitOrder[x]].kind.Limit?
    {
      if x != s {
        assert r.orders[st.limitOrder[x]] == st.orders[st.limitOrder[x]];
      }
    }
    forall x | x in r.stopOrder
      ensures r.stopOrder[x] < |r.orders| && r.orders[r.stopOrder[x]].symbol == x
      ensures r.orders[r.stopOrder[x]].kind.StopMarket?
    {
      if x != s {
        assert r.orders[st.stopOrder[x]] == st.orders[st.stopOrder[x]];
      }
    }
  }

  /** An entry of `s` adds one entry for `s` and none for any other symbol. */
  lemma EnterEntries(st: SessionState, s: string, price: int, targetBps: int, x: string)
    requires s in st.thresholds && price != 0 && targetBps != 0
    ensures Entries(Enter(st, s, price, targetBps).orders, x) == Entries(st.orders, x) + (if x == s then 1 else 0)
  {
    var r := Enter(st, s, price, targetBps);
    var th, q := st.thresholds[s], Quantity(price, targetBps);
    var m := Order(s, Market, q, Open);
    var l := Order(s, Limit(LimitPrice(th, targetBps)), -q, Open);
    var t := Order(s, StopMarket(StopPrice(th, targetBps)), -q, Open);
    assert r.orders == st.orders + [m, l, t];
    EntriesAppend(st.orders, [m, l, t], x);
    EntriesOfThree(m, l, t, x);
  }

  /** An entry leaves its three orders in the book and names the two legs. */
  lemma EnterPlaces(st: SessionState, s: string, price: int, targetBps: int)
    requires s in st.thresholds && price != 0 && targetBps != 0
    ensures BracketPlaced(Enter(st, s, price, targetBps), s, st.thresholds[s], price, targetBps)
  {
  }

  /** A placed bracket stays placed while the book only grows and the legs
      stay the same. */
  lemma BracketPlacedStable(st: SessionState, r: SessionState, s: string, threshold: int, price: int, targetBps: int)
    requires price != 0 && targetBps != 0
    requires BracketPlaced(st, s, threshold, price, targetBps)
    requires st.orders <= r.orders && SameLegs(st, r, s)
    ensures BracketPlaced(r, s, threshold, price, targetBps)
  {
    var l := st.limitOrder[s];
    assert r.orders[l - 1] == st.orders[l - 1] && r.orders[l] == st.orders[l] && r.orders[l + 1] == st.orders[l + 1];
  }

  /** The entry loop marks exactly the active symbols whose guard held in the
      state before the loop, keeps thresholds and positions, only appends
      orders, and keeps the state well formed. */
  lemma {:induction false} EnterEachFrame(st: SessionState, active: seq<string>, bars: map<string, int>, targetBps: int)
    requires targetBps != 0 && PricesNonZero(bars, st.thresholds)
    ensures var r := EnterEach(st, active, bars, targetBps);
      && Grows(st, r)
      && (forall s :: s in r.traded <==> s in st.traded || (s in active && Breaks(st, s, bars)))
      && (WellFormed(st) ==> WellFormed(r))
  {
    if active != [] {
      var init, x := active[..|active| - 1], active[|active| - 1];
      assert active == init + [x];
      EnterEachFrame(st, init, bars, targetBps);
      var mid := EnterEach(st, init, bars, targetBps);
      assert Breaks(mid, x, bars) <==> Breaks(st, x, bars) && x !in mid.traded;
      if Breaks(mid, x, bars) && WellFormed(mid) {
        EnterWellFormed(mid, x, bars[x], targetBps);
      }
    }
  }

  /** The entry loop appends three orders for each symbol it enters and no
      other order: every appended order belongs to a newly entered symbol. */
  lemma {:induction false} EnterEachAppends(st: SessionState, active: seq<string>, bars: map<string, int>, targetBps: int)
    requires targetBps != 0 && PricesNonZero(bars, st.thresholds)
    ensures var r := EnterEach(st, active, bars, targetBps);
      && |r.orders| == |st.orders| + 3 * |r.traded - st.traded|
      && forall i :: |st.orders| <= i < |r.orders| ==> r.orders[i].symbol in r.traded - st.traded
  {
    if active != [] {
      var init, x := active[..|active| - 1], active[|active| - 1];
      assert active == init + [x];
      EnterEachAppends(st, init, bars, targetBps);
      EnterEachFrame(st, init, bars, targetBps);
      var mid := EnterEach(st, init, bars, targetBps);
      var r := TryEnter(mid, x, bars, targetBps);
      if Breaks(mid, x, bars) {
        assert x !in mid.traded - st.traded;
        assert r.traded - st.traded == (mid.traded - st.traded) + {x};
        forall i | |st.orders| <= i < |r.orders|
          ensures r.orders[i].symbol in r.traded - st.traded
        {
          if i < |mid.orders| {
            assert r.orders[i] == mid.orders[i];
          }
        }
      }
    }
  }

  /** A data slice appends exactly three orders per symbol it enters, and
      every order it appends belongs to a symbol it enters. */
  lemma OnDataAppends(st: SessionState, hour: int, minute: int, active: seq<string>,
                      bars: map<string, int>, targetBps: int)
    requires targetBps != 0 && PricesNonZero(bars, st.thresholds)
    ensures var r := OnDataSpec(st, hour, minute, active, bars, targetBps);
      && |r.orders| == |st.orders| + 3 * |r.traded - st.traded|
      && forall i :: |st.orders| <= i < |r.orders| ==> r.orders[i].symbol in r.traded - st.traded
  {
    if InWindow(hour, minute) {
      EnterEachAppends(st, active, bars, targetBps);
    } else {
      assert st.traded - st.traded == {};
    }
  }

  /** The guard, both ways: a data slice enters `s` exactly when the clock is
      inside the window, `s` is active, and `s` has data, is not invested,
      has a threshold, is not yet traded and trades strictly above it. It
      changes neither thresholds nor positions and only appends orders. */
  lemma OnDataEntersExactly(st: SessionState, hour: int, minute: int, active: seq<string>,
                            bars: map<string, int>, targetBps: int, s: string)
    requires targetBps != 0 && PricesNonZero(bars, st.thresholds)
    ensures var r := OnDataSpec(st, hour, minute, active, bars, targetBps);
      && (s in r.traded - st.traded <==> InWindow(hour, minute) && s in active && Breaks(st, s, bars))
      && Grows(st, r)
  {
    EnterEachFrame(st, active, bars, targetBps);
  }

  /** One entry attempt, by symbol. */
  lemma TryEnterSymbol(mid: SessionState, x: string, bars: map<string, int>, targetBps: int, s: string)
    requires targetBps != 0 && PricesNonZero(bars, mid.thresholds)
    ensures var r := TryEnter(mid, x, bars, targetBps);
      var now := Breaks(mid, x, bars) && x == s;
      && Entries(r.orders, s) == Entries(mid.orders, s) + (if now then 1 else 0)
      && (now ==> BracketPlaced(r, s, mid.thresholds[s], bars[s], targetBps))
      && (!now ==> SameLegs(mid, r, s))
      && mid.orders <= r.orders
  {
    if Breaks(mid, x, bars) {
      EnterEntries(mid, x, bars[x], targetBps, s);
      if x == s {
        EnterPlaces(mid, x, bars[x], targetBps);
      }
    }
  }

  /** The entry loop, by symbol: an entered symbol has one more entry and a
      fresh bracket at the prices of its threshold; any other keeps its legs
      and its entry count. */
  lemma EnterEachSymbol(st: SessionState, active: seq<string>, bars: map<string, int>,
                        targetBps: int, s: string)
    requires targetBps != 0 && PricesNonZero(bars, st.thresholds)
    ensures var r := EnterEach(st, active, bars, targetBps);
      var entered := s in active && Breaks(st, s, bars);
      && Entries(r.orders, s) == Entries(st.orders, s) + (if entered then 1 else 0)
      && (entered ==> BracketPlaced(r, s, st.thresholds[s], bars[s], targetBps))
      && (!entered ==> SameLegs(st, r, s))
  {
    EnterEachEntries(st, active, bars, targetBps, s);
    EnterEachLegs(st, active, bars, targetBps, s);
  }

  lemma {:induction false} EnterEachEntries(st: SessionState, active: seq<string>, bars: map<string, int>,
                                            targetBps: int, s: string)
    requires targetBps != 0 && PricesNonZero(bars, st.thresholds)
    ensures var r := EnterEach(st, active, bars, targetBps);
      Entries(r.orders, s) == Entries(st.orders, s) + (if s in active && Breaks(st, s, bars) then 1 else 0)
  {
    if active != [] {
      var init, x := active[..|active| - 1], active[|active| - 1];
      assert active == init + [x];
      EnterEachEntries(st, init, bars, targetBps, s);
      EnterEachFrame(st, init, bars, targetBps);
      var mid := EnterEach(st, init, bars, targetBps);
      TryEnterSymbol(mid, x, bars, targetBps, s);
      if s in init && Breaks(st, s, bars) {
        assert !Breaks(mid, x, bars) || x != s;
      }
    }
  }

  lemma {:induction false} EnterEachLegs(st: SessionState, active: seq<string>, bars: map<string, int>,
                                         targetBps: int, s: string)
    requires targetBps != 0 && PricesNonZero(bars, st.thresholds)
    ensures var r := EnterEach(st, active, bars, targetBps);
      var entered := s in active && Breaks(st, s, bars);
      && (entered ==> BracketPlaced(r, s, st.thresholds[s], bars[s], targetBps))
      && (!entered ==> SameLegs(st, r, s))
  {
    if active != [] {
      var init, x := active[..|active| - 1], active[|active| - 1];
      assert active == init + [x];
      EnterEachLegs(st, init, bars, targetBps, s);
      EnterEachFrame(st, init, bars, targetBps);
      LegsStep(st, EnterEach(st, init, bars, targetBps), s in init && Breaks(st, s, bars), x, bars, targetBps, s);
    }
  }

  /** One step of the entry loop, for the legs of `s`: `before` says whether
      `s` was entered by the earlier steps. */
  lemma LegsStep(st: SessionState, mid: SessionState, before: bool, x: string,
                 bars: map<string, int>, targetBps: int, s: string)
    requires targetBps != 0 && PricesNonZero(bars, st.thresholds)
    requires mid.thresholds == st.thresholds && mid.positions == st.positions
    requires s in mid.traded <==> s in st.traded || before
    requires before ==> Breaks(st, s, bars) && BracketPlaced(mid, s, st.thresholds[s], bars[s], targetBps)
    requires !before ==> SameLegs(st, mid, s)
    ensures var r := TryEnter(mid, x, bars, targetBps);
      var entered := before || (x == s && Breaks(st, s, bars));
      && (entered ==> BracketPlaced(r, s, st.thresholds[s], bars[s], targetBps))
      && (!entered ==> SameLegs(st, r, s))
  {
    TryEnterSymbol(mid, x, bars, targetBps, s);
    var r := TryEnter(mid, x, bars, targetBps);
    if before {
      BracketPlacedStable(mid, r, s, st.thresholds[s], bars[s], targetBps);
    }
  }

  /** Every symbol a data slice enters gets a market buy of
      `Quantity(price)` and two sells of that quantity at the limit and stop
      prices of its threshold; every symbol it does not enter keeps its
      legs. */
  lemma OnDataBrackets(st: SessionState, hour: int, minute: int, active: seq<string>,
                       bars: map<string, int>, targetBps: int, s: string)
    requires targetBps != 0 && PricesNonZero(bars, st.thresholds)
    ensures var r := OnDataSpec(st, hour, minute, active, bars, targetBps);
      && (s in r.traded - st.traded ==> s in st.thresholds && s in bars && bars[s] > st.thresholds[s] &&
                                        BracketPlaced(r, s, st.thresholds[s], bars[s], targetBps))
      && (s !in r.traded - st.traded ==> SameLegs(st, r, s))
  {
    if InWindow(hour, minute) {
      EnterEachFrame(st, active, bars, targetBps);
      EnterEachSymbol(st, active, bars, targetBps, s);
    }
  }

  /** A data slice keeps "one entry per symbol per day". */
  lemma OnDataKeepsOneEntry(st: SessionState, from: nat, hour: int, minute: int, active: seq<string>,
                            bars: map<string, int>, targetBps: int)
    requires targetBps != 0 && PricesNonZero(bars, st.thresholds)
    requires OneEntryPerDay(st, from)
    ensures OneEntryPerDay(OnDataSpec(st, hour, minute, active, bars, targetBps), from)
  {
    var r := OnDataSpec(st, hour, minute, active, bars, targetBps);
    if InWindow(hour, minute) {
      EnterEachFrame(st, active, bars, targetBps);
      forall s ensures Entries(r.orders[from..], s) == if s in r.traded then 1 else 0 {
        EnterEachSymbol(st, active, bars, targetBps, s);
        EntriesSinceGrow(st.orders, r.orders, from, s);
      }
    }
  }

  /** A symbol already traded since the cutoff is never entered again: its
      entry count and its legs stay as they are. */
  lemma TradedNotReentered(st: SessionState, hour: int, minute: int, active: seq<string>,
                           bars: map<string, int>, targetBps: int, s: string)
    requires targetBps != 0 && PricesNonZero(bars, st.thresholds)
    requires s in st.traded
    ensures var r := OnDataSpec(st, hour, minute, active, bars, targetBps);
      Entries(r.orders, s) == Entries(st.orders, s) && SameLegs(st, r, s)
  {
    if InWindow(hour, minute) {
      EnterEachSymbol(st, active, bars, targetBps, s);
    }
  }

  /** A data slice keeps the one-cancels-other invariant: new brackets start
      with both legs open, and no status changes. */
  lemma OnDataKeepsOco(st: SessionState, hour: int, minute: int, active: seq<string>,
                       bars: map<string, int>, targetBps: int)
    requires targetBps != 0 && PricesNonZero(bars, st.thresholds)
    requires OcoSafe(st)
    ensures OcoSafe(OnDataSpec(st, hour, minute, active, bars, targetBps))
  {
    var r := OnDataSpec(st, hour, minute, active, bars, targetBps);
    if InWindow(hour, minute) {
      EnterEachFrame(st, active, bars, targetBps);
      forall s | s in r.limitOrder
        ensures Settled(r.orders[r.limitOrder[s]].status, r.orders[r.stopOrder[s]].status)
      {
        EnterEachSymbol(st, active, bars, targetBps, s);
        if !(s in active && Breaks(st, s, bars)) {
          assert r.orders[st.limitOrder[s]] == st.orders[st.limitOrder[s]];
          assert r.orders[st.stopOrder[s]] == st.orders[st.stopOrder[s]];
        }
      }
    }
  }

  // ---------------------------------------------------------------------------
  // Lemmas: order events

  /** Changing statuses only keeps the bracket maps well formed. */
  lemma StatusChangeWellFormed(st: SessionState, book: seq<Order>)
    requires WellFormed(st) && SameButStatus(st.orders, book)
    ensures WellFormed(st.(orders := book))
  {
    forall x | x in st.limitOrder
      ensures book[st.limitOrder[x]].symbol == x && book[st.limitOrder[x]].kind.Limit?
    {
      var i := st.limitOrder[x];
      assert st.orders[i].(status := book[i].status) == book[i];
    }
    forall x | x in st.stopOrder
      ensures book[st.stopOrder[x]].symbol == x && book[st.stopOrder[x]].kind.StopMarket?
    {
      var i := st.stopOrder[x];
      assert st.orders[i].(status := book[i].status) == book[i];
    }
  }

  /** After an order event for `s`, if either leg of `s` had filled then
      neither leg is open; a filled stop takes priority (the limit leg is the
      one canceled); only a leg of `s` changes, and only its status. */
  lemma OcoExclusive(st: SessionState, s: string)
    requires WellFormed(st)
    ensures var r := OnOrderEventSpec(st, s);
      && WellFormed(r)
      && SameButStatus(st.orders, r.orders)
      && r.(orders := st.orders) == st
      && (s in st.limitOrder ==>
            var l, t := st.limitOrder[s], st.stopOrder[s];
            && (st.orders[l].status == Filled || st.orders[t].status == Filled ==>
                  r.orders[l].status != Open && r.orders[t].status != Open)
            && (st.orders[t].status == Filled && st.orders[l].status == Open ==>
                  r.orders[l].status == Canceled && r.orders[t].status == Filled)
            && (st.orders[t].status == Filled ==>
                  r.orders[t] == st.orders[t]
                  && r.orders[l].status == (if st.orders[l].status == Open then Canceled else st.orders[l].status))
            && (st.orders[t].status != Filled && st.orders[l].status == Filled ==>
                  r.orders[l] == st.orders[l]
                  && r.orders[t].status == (if st.orders[t].status == Open then Canceled else st.orders[t].status))
            && (st.orders[t].status != Filled && st.orders[l].status != Filled ==> r == st)
            && (forall i :: 0 <= i < |st.orders| && i != l && i != t ==> r.orders[i] == st.orders[i]))
      && (s !in st.limitOrder ==> r == st)
  {
    var r := OnOrderEventSpec(st, s);
    if s in st.limitOrder {
      var l, t := st.limitOrder[s], st.stopOrder[s];
      assert l != t by {
        assert st.orders[l].kind.Limit? && st.orders[t].kind.StopMarket?;
      }
      if st.orders[t].status == Filled {
        assert r.orders == Cancel(st.orders, l);
      } else if st.orders[l].status == Filled {
        assert r.orders == Cancel(st.orders, t);
      } else {
        assert r == st;
      }
    }
    StatusChangeWellFormed(st, r.orders);
  }

  /** The venue fills one open order and the event for its symbol follows:
      the one-cancels-other invariant holds again. */
  lemma OcoAfterFill(st: SessionState, id: OrderId)
    requires OcoSafe(st)
    requires id < |st.orders| && st.orders[id].status == Open
    ensures var filled := FillSpec(st, id);
      WellFormed(filled) && OcoSafe(OnOrderEventSpec(filled, st.orders[id].symbol))
  {
    var sym := st.orders[id].symbol;
    var filled := FillSpec(st, id);
    StatusChangeWellFormed(st, filled.orders);
    var r := OnOrderEventSpec(filled, sym);
    OcoExclusive(filled, sym);
    forall s | s in r.limitOrder
      ensures Settled(r.orders[r.limitOrder[s]].status, r.orders[r.stopOrder[s]].status)
    {
      if s == sym {
        FillOwnSettled(st, id);
      } else {
        FillOtherSettled(st, id, s);
      }
    }
  }

  /** The bracket of the filled order's own symbol is settled after the event. */
  lemma FillOwnSettled(st: SessionState, id: OrderId)
    requires OcoSafe(st)
    requires id < |st.orders| && st.orders[id].status == Open
    requires st.orders[id].symbol in st.limitOrder
    ensures var filled := FillSpec(st, id);
      var sym := st.orders[id].symbol;
      var r := OnOrderEventSpec(filled, sym);
      WellFormed(filled) && Settled(r.orders[r.limitOrder[sym]].status, r.orders[r.stopOrder[sym]].status)
  {
    var sym := st.orders[id].symbol;
    var filled := FillSpec(st, id);
    StatusChangeWellFormed(st, filled.orders);
    OcoExclusive(filled, sym);
    var r := OnOrderEventSpec(filled, sym);
    var l, t := st.limitOrder[sym], st.stopOrder[sym];
    assert Settled(st.orders[l].status, st.orders[t].status);
    if id != l && id != t {
      assert filled.orders[l] == st.orders[l] && filled.orders[t] == st.orders[t];
    }
  }

  /** The bracket of any other symbol is untouched by the fill and the event. */
  lemma FillOtherSettled(st: SessionState, id: OrderId, s: string)
    requires OcoSafe(st)
    requires id < |st.orders| && st.orders[id].status == Open
    requires s in st.limitOrder && s != st.orders[id].symbol
    ensures var filled := FillSpec(st, id);
      var r := OnOrderEventSpec(filled, st.orders[id].symbol);
      WellFormed(filled) && Settled(r.orders[r.limitOrder[s]].status, r.orders[r.stopOrder[s]].status)
  {
    var sym := st.orders[id].symbol;
    var filled := FillSpec(st, id);
    StatusChangeWellFormed(st, filled.orders);
    OcoExclusive(filled, sym);
    var l, t := st.limitOrder[s], st.stopOrder[s];
    assert id != l && id != t by {
      assert st.orders[l].symbol == s && st.orders[t].symbol == s;
    }
    if sym in filled.limitOrder {
      assert l != filled.limitOrder[sym] && l != filled.stopOrder[sym];
      assert t != filled.limitOrder[sym] && t != filled.stopOrder[sym];
    }
    assert filled.orders[l] == st.orders[l] && filled.orders[t] == st.orders[t];
  }

  /** Status changes keep "one entry per symbol per day". */
  lemma StatusChangeKeepsOneEntry(st: SessionState, r: SessionState, from: nat)
    requires OneEntryPerDay(st, from)
    requires SameButStatus(st.orders, r.orders) && r.traded == st.traded
    ensures OneEntryPerDay(r, from)
  {
    SameButStatusSuffix(st.orders, r.orders, from);
    forall s ensures Entries(r.orders[from..], s) == Entries(st.orders[from..], s) {
      EntriesIgnoreStatus(st.orders[from..], r.orders[from..], s);
    }
  }

  /** An order event keeps "one entry per symbol per day". */
  lemma EventKeepsOneEntry(st: SessionState, from: nat, s: string)
    requires WellFormed(st) && OneEntryPerDay(st, from)
    ensures OneEntryPerDay(OnOrderEventSpec(st, s), from)
  {
    OcoExclusive(st, s);
    StatusChangeKeepsOneEntry(st, OnOrderEventSpec(st, s), from);
  }

  /** The fill of an open order keeps "one entry per symbol per day". */
  lemma FillKeepsOneEntry(st: SessionState, from: nat, id: OrderId)
    requires OneEntryPerDay(st, from)
    requires id < |st.orders| && st.orders[id].status == Open
    ensures OneEntryPerDay(FillSpec(st, id), from)
  {
    StatusChangeKeepsOneEntry(st, FillSpec(st, id), from);
  }

  // ---------------------------------------------------------------------------
  // Lemmas: the daily cutoff and selection

  /** After the cutoff there are no thresholds, no traded symbols, no
      positions and no open order (every order open before is canceled);
      the bracket maps keep their (now stale) legs; a new day starts with
      no entries; the cutoff is idempotent. */
  lemma ResetClears(st: SessionState)
    ensures var r := ClosePositionsSpec(st);
      && r.thresholds == map[] && r.traded == {} && r.positions == map[]
      && (forall i :: 0 <= i < |r.orders| ==> r.orders[i].status != Open)
      && (forall i :: 0 <= i < |st.orders| && st.orders[i].status == Open ==> r.orders[i].status == Canceled)
      && r.limitOrder == st.limitOrder && r.stopOrder == st.stopOrder
      && OneEntryPerDay(r, |r.orders|)
      && ClosePositionsSpec(r) == r
  {
    var r := ClosePositionsSpec(st);
    assert CancelAll(r.orders) == r.orders;
    forall s ensures Entries(r.orders[|r.orders|..], s) == 0 {
      assert r.orders[|r.orders|..] == [];
    }
  }

  /** The cutoff keeps the one-cancels-other invariant: a bracket with an
      open leg ends with both legs canceled or one filled and one canceled. */
  lemma ResetKeepsOco(st: SessionState)
    requires OcoSafe(st)
    ensures OcoSafe(ClosePositionsSpec(st))
  {
  }

  /** Selection keeps both invariants; a date missing from the table leaves
      the thresholds as they were. */
  lemma SelectKeepsInvariants(st: SessionState, from: nat, table: seq<GapperRow>, date: string, f: Filter)
    ensures var r := SelectSpec(st, table, date, f);
      && (WellFormed(st) ==> WellFormed(r))
      && (OneEntryPerDay(st, from) ==> OneEntryPerDay(r, from))
      && (OcoSafe(st) ==> OcoSafe(r))
      && ((forall g :: g in table ==> g.date != date) ==> r == st)
  {
    RowsOnExact(table, date);
  }
}
