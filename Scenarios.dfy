/** Worked instances of the strategy's rules on concrete values: a single
    qualifying gapper, the bracket of one breakout, and a stop leg that
    fills before the limit leg. */
module Scenarios {
  import opened Orders
  import opened Pricing
  import opened Universe
  import opened Engine

  /** The only row of its date, with a gap of 10 against a minimum of 5 and a
      premarket high of $20.00 against a minimum of $10.00, is selected with
      a threshold of $20.00, even when the cap is zero. */
  lemma SingleCandidate()
    ensures var g := GapperRow("Tue", "ABCD", 10, 2000);
      var table := [GapperRow("Mon", "WXYZ", 50, 900), g];
      var sel := Select(RowsOn(table, "Tue"), Filter(5, 1000, 0));
      && sel == [g]
      && SymbolsOf(sel) == ["ABCD"]
      && Written(map[], sel) == map["ABCD" := 2000]
  {
    var g := GapperRow("Tue", "ABCD", 10, 2000);
    var h := GapperRow("Mon", "WXYZ", 50, 900);
    var table := [h, g];
    assert h.date != "Tue" by {
      assert h.date[0] != "Tue"[0];
    }
    assert table[..1] == [h] && [h][..0] == [];
    assert RowsOn([h], "Tue") == [];
    assert RowsOn(table, "Tue") == [] + [g];
    SingleRowIgnoresCap(g, Filter(5, 1000, 0));
    assert [g][..0] == [];
  }

  /** A target of 5% (500 basis points), a threshold of $20.00 and a price
      of $20.50: the price breaks the threshold, 195 shares are bought
      (4000 / 20.5 = 195.1...), the take-profit leg is at $21.00 and the
      stop-loss leg at $19.00. */
  lemma BreakoutBracket()
    ensures var st := Initial().(thresholds := map["ABCD" := 2000]);
      var bars := map["ABCD" := 2050];
      var r := OnDataSpec(st, 10, 15, ["ABCD"], bars, 500);
      && Breaks(st, "ABCD", bars)
      && r.traded == {"ABCD"}
      && r.orders == [Order("ABCD", Market, 195, Open),
                      Order("ABCD", Limit(2100), -195, Open),
                      Order("ABCD", StopMarket(1900), -195, Open)]
      && r.limitOrder == map["ABCD" := 1] && r.stopOrder == map["ABCD" := 2]
  {
    var st := Initial().(thresholds := map["ABCD" := 2000]);
    var bars := map["ABCD" := 2050];
    assert ["ABCD"][..0] == [];
    assert Quantity(2050, 500) == 195 by {
      assert 195 * 1025000 <= 200000000 < 196 * 1025000;
    }
    assert LimitPrice(2000, 500) == 2100 by {
      assert 2000 * (BASIS_POINTS + 500) == 21000000 == BASIS_POINTS * 2100;
      RoundExact(2100);
    }
    assert StopPrice(2000, 500) == 1900 by {
      assert 2000 * (BASIS_POINTS - 500) == 19000000 == BASIS_POINTS * 1900;
      RoundExact(1900);
    }
  }

  /** After the breakout above, the stop leg fills first: the event cancels
      the limit leg; the daily cutoff that follows finds nothing open. */
  lemma StopFillsFirst()
    ensures var st := SessionState(map[], {"ABCD"}, map["ABCD" := 1], map["ABCD" := 2],
                                   [Order("ABCD", Market, 195, Filled),
                                    Order("ABCD", Limit(2100), -195, Open),
                                    Order("ABCD", StopMarket(1900), -195, Open)],
                                   map["ABCD" := 195]);
      var filled := FillSpec(st, 2);
      var r := OnOrderEventSpec(filled, "ABCD");
      && filled.positions == map["ABCD" := 0]
      && r.orders[1].status == Canceled && r.orders[2].status == Filled
      && ClosePositionsSpec(r).orders == r.orders
  {
    var st := SessionState(map[], {"ABCD"}, map["ABCD" := 1], map["ABCD" := 2],
                           [Order("ABCD", Market, 195, Filled),
                            Order("ABCD", Limit(2100), -195, Open),
                            Order("ABCD", StopMarket(1900), -195, Open)],
                           map["ABCD" := 195]);
    var filled := FillSpec(st, 2);
    assert WellFormed(filled);
    var r := OnOrderEventSpec(filled, "ABCD");
    assert r.orders == [Order("ABCD", Market, 195, Filled),
                        Order("ABCD", Limit(2100), -195, Canceled),
                        Order("ABCD", StopMarket(1900), -195, Filled)];
  }
}
