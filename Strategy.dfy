/** The strategy object. Its fields are the algorithm's state; each callback
    updates them in place, step by step, and is proved to leave exactly the
    state its function in module Engine describes. The venue (order fills,
    and with them the positions) and the scheduler live outside: the caller
    invokes the callbacks. */
module Strategy {
  import opened Orders
  import opened Pricing
  import opened Universe
  import opened Engine

  class PremarketBreakout {
    /** The gap-statistics table, loaded once. */
    const gapperData: seq<GapperRow>
    /** The target percentage in basis points; the bracket is this far above
        and below the threshold. */
    const targetBps: int

    var premarketHigh: map<string, int>
    var tradedToday: set<string>
    var limitOrder: map<string, OrderId>
    var stopOrder: map<string, OrderId>
    /** The venue's order book, as far as the strategy submits to it. */
    var orders: seq<Order>
    /** The portfolio: shares held per symbol. */
    var positions: map<string, int>
    /** Where the current day's orders start in the book. */
    ghost var dayStart: nat

    function State(): SessionState
      reads this
    {
      SessionState(premarketHigh, tradedToday, limitOrder, stopOrder, orders, positions)
    }

    ghost predicate Valid()
      reads this
    {
      && targetBps != 0
      && WellFormed(State())
      && OneEntryPerDay(State(), dayStart)
    }

    /** Start-up: a zero target percentage would be a division by zero at the
        first entry, so it is refused here. */
    constructor (gapperData: seq<GapperRow>, targetBps: int)
      requires targetBps != 0
      ensures Valid()
      ensures State() == Initial()
      ensures this.gapperData == gapperData && this.targetBps == targetBps
    {
      this.gapperData := gapperData;
      this.targetBps := targetBps;
      premarketHigh, tradedToday := map[], {};
      limitOrder, stopOrder := map[], map[];
      orders, positions := [], map[];
      dayStart := 0;
    }

    /** Submitting an order to the venue; the new order's identifier is returned. */
    method Submit(symbol: string, kind: OrderKind, quantity: int) returns (id: OrderId)
      modifies this`orders
      ensures orders == old(orders) + [Order(symbol, kind, quantity, Open)]
      ensures id == |old(orders)| && orders[id] == Order(symbol, kind, quantity, Open)
    {
      id := |orders|;
      orders := orders + [Order(symbol, kind, quantity, Open)];
    }

    /** Daily universe selection: writes the thresholds of the selected rows
        for `date` and returns their symbols. */
    method SelectSymbols(date: string, f: Filter) returns (symbols: seq<string>)
      requires Valid()
      modifies this`premarketHigh
      ensures Valid()
      ensures State() == SelectSpec(old(State()), gapperData, date, f)
      ensures symbols == SymbolsOf(Select(RowsOn(gapperData, date), f))
    {
      var gappers := RowsOn(gapperData, date);
      symbols := WriteSelection(gappers, f);
      SelectKeepsInvariants(old(State()), dayStart, gapperData, date, f);
    }

    /** The selection proper, on the rows of one date: no rows select
        nothing; a single row is kept when it qualifies; up to the cap every
        qualifying row is kept in input order; above it the qualifying rows
        are sorted by gap and cut at the cap. */
    method WriteSelection(gappers: seq<GapperRow>, f: Filter) returns (symbols: seq<string>)
      modifies this`premarketHigh
      ensures symbols == SymbolsOf(Select(gappers, f))
      ensures premarketHigh == Written(old(premarketHigh), Select(gappers, f))
    {
      if |gappers| == 0 {
        symbols := [];
      } else if |gappers| == 1 {
        symbols := [];
        var g := gappers[0];
        assert gappers == [] + [g];
        QualifyingAppendRow([], g, f);
        WriteAppendRow(old(premarketHigh), [], g);
        if Qualifies(g, f) {
          premarketHigh := premarketHigh[g.symbol := g.premarketHigh];
          symbols := symbols + [g.symbol];
        }
      } else if |gappers| <= f.maxDailyTrades {
        symbols := WriteQualifying(gappers, f);
      } else {
        var topList := QualifyingRows(gappers, f);
        topList := SliceTo(SortByGap(topList), f.maxDailyTrades);
        symbols := WriteRows(topList);
      }
    }

    /** The loop of the within-cap case: write and collect each qualifying
        row, in input order. */
    method WriteQualifying(gappers: seq<GapperRow>, f: Filter) returns (symbols: seq<string>)
      modifies this`premarketHigh
      ensures symbols == SymbolsOf(Qualifying(gappers, f))
      ensures premarketHigh == Written(old(premarketHigh), Qualifying(gappers, f))
    {
      symbols := [];
      for i := 0 to |gappers|
        invariant symbols == SymbolsOf(Qualifying(gappers[..i], f))
        invariant premarketHigh == Written(old(premarketHigh), Qualifying(gappers[..i], f))
      {
        var g := gappers[i];
        assert gappers[..i + 1] == gappers[..i] + [g];
        QualifyingAppendRow(gappers[..i], g, f);
        WriteAppendRow(old(premarketHigh), Qualifying(gappers[..i], f), g);
        if Qualifies(g, f) {
          premarketHigh := premarketHigh[g.symbol := g.premarketHigh];
          symbols := symbols + [g.symbol];
        }
      }
      assert gappers[..|gappers|] == gappers;
    }

    /** The first loop of the over-cap case: collect the qualifying rows. */
    method QualifyingRows(gappers: seq<GapperRow>, f: Filter) returns (topList: seq<GapperRow>)
      ensures topList == Qualifying(gappers, f)
    {
      topList := [];
      for i := 0 to |gappers|
        invariant topList == Qualifying(gappers[..i], f)
      {
        var g := gappers[i];
        assert gappers[..i + 1] == gappers[..i] + [g];
        QualifyingAppendRow(gappers[..i], g, f);
        if Qualifies(g, f) {
          topList := topList + [g];
        }
      }
      assert gappers[..|gappers|] == gappers;
    }

    /** The last loop of the over-cap case: write and collect every row kept. */
    method WriteRows(topList: seq<GapperRow>) returns (symbols: seq<string>)
      modifies this`premarketHigh
      ensures symbols == SymbolsOf(topList)
      ensures premarketHigh == Written(old(premarketHigh), topList)
    {
      symbols := [];
      for i := 0 to |topList|
        invariant symbols == SymbolsOf(topList[..i])
        invariant premarketHigh == Written(old(premarketHigh), topList[..i])
      {
        var g := topList[i];
        assert topList[..i + 1] == topList[..i] + [g];
        WriteAppendRow(old(premarketHigh), topList[..i], g);
        premarketHigh := premarketHigh[g.symbol := g.premarketHigh];
        symbols := symbols + [g.symbol];
      }
      assert topList[..|topList|] == topList;
    }

    /** A data slice: inside 9:30 to 12:00, enter every active symbol that
        has data, is not invested, has a threshold, is not yet traded today
        and trades strictly above its threshold. */
    method OnData(hour: int, minute: int, active: seq<string>, bars: map<string, int>)
      requires Valid() && PricesNonZero(bars, premarketHigh)
      modifies this`tradedToday, this`orders, this`limitOrder, this`stopOrder
      ensures Valid() && dayStart == old(dayStart)
      ensures State() == OnDataSpec(old(State()), hour, minute, active, bars, targetBps)
    {
      if !(9 <= hour < 12) {
        return;
      }
      if hour == 9 && minute < 30 {
        return;
      }
      ghost var st0 := State();
      for i := 0 to |active|
        invariant State() == EnterEach(st0, active[..i], bars, targetBps)
      {
        assert active[..i + 1][..i] == active[..i];
        EnterIfBreakout(active[i], bars);
      }
      assert active[..|active|] == active;
      EnterEachFrame(st0, active, bars, targetBps);
      OnDataKeepsOneEntry(st0, dayStart, hour, minute, active, bars, targetBps);
      assert WellFormed(State()) && OneEntryPerDay(State(), dayStart);
    }

    /** One security of a data slice: skip it unless it has data, is not
        invested, has a threshold, is not yet traded today and trades
        strictly above its threshold; otherwise size the position, mark the
        symbol traded and submit the entry and its two bracket legs. */
    method EnterIfBreakout(symbol: string, bars: map<string, int>)
      requires targetBps != 0 && PricesNonZero(bars, premarketHigh)
      modifies this`tradedToday, this`orders, this`limitOrder, this`stopOrder
      ensures State() == TryEnter(old(State()), symbol, bars, targetBps)
    {
      if symbol !in bars {
        return;
      }
      if symbol in positions && positions[symbol] != 0 {
        return;
      }
      if symbol !in premarketHigh {
        return;
      }
      if symbol in tradedToday {
        return;
      }
      var currentPrice := bars[symbol];
      if currentPrice > premarketHigh[symbol] {
        var quantity := Quantity(currentPrice, targetBps);
        tradedToday := tradedToday + {symbol};
        var _ := Submit(symbol, Market, quantity);
        var id := Submit(symbol, Limit(LimitPrice(premarketHigh[symbol], targetBps)), -quantity);
        limitOrder := limitOrder[symbol := id];
        id := Submit(symbol, StopMarket(StopPrice(premarketHigh[symbol], targetBps)), -quantity);
        stopOrder := stopOrder[symbol := id];
      }
    }

    /** An order event for `symbol`: a filled stop leg cancels the limit leg;
        otherwise a filled limit leg cancels the stop leg. */
    method OnOrderEvent(symbol: string)
      requires Valid()
      modifies this`orders
      ensures Valid()
      ensures State() == OnOrderEventSpec(old(State()), symbol)
    {
      ghost var st0, from := State(), dayStart;
      assert WellFormed(st0) && OneEntryPerDay(st0, from);
      ghost var r := OnOrderEventSpec(st0, symbol);
      EventKeepsOneEntry(st0, from, symbol);
      OcoExclusive(st0, symbol);
      if symbol in stopOrder && orders[stopOrder[symbol]].status == Filled {
        orders := Cancel(orders, limitOrder[symbol]);
        assert State() == r;
      } else if symbol in limitOrder && orders[limitOrder[symbol]].status == Filled {
        orders := Cancel(orders, stopOrder[symbol]);
        assert State() == r;
      }
      assert WellFormed(r) && OneEntryPerDay(r, from);
    }

    /** The daily cutoff: forget the thresholds and the traded symbols,
        liquidate, and cancel every open order. */
    method ClosePositions()
      requires Valid()
      modifies this
      ensures Valid() && dayStart == |orders|
      ensures State() == ClosePositionsSpec(old(State()))
    {
      ghost var st0 := State();
      ghost var r := ClosePositionsSpec(st0);
      ResetClears(st0);
      StatusChangeWellFormed(st0, r.orders);
      premarketHigh := map[];
      tradedToday := {};
      positions := map[];
      orders := CancelAll(orders);
      dayStart := |orders|;
      assert State() == r;
      assert WellFormed(State()) && OneEntryPerDay(State(), dayStart);
    }
  }
}
