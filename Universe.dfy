/** Daily universe selection: from the gap-statistics rows of one date, the
    symbols to watch today and the premarket high each must break. */
module Universe {

  /** One row of the gap-statistics table. The gap is in the table's own
      integer unit; the premarket high is in cents. */
  datatype GapperRow = GapperRow(date: string, symbol: string, gapPercent: int, premarketHigh: int)

  /** The three parameters read at each selection. */
  datatype Filter = Filter(minGap: int, minPremarketHigh: int, maxDailyTrades: int)

  predicate Qualifies(g: GapperRow, f: Filter)
  {
    g.gapPercent >= f.minGap && g.premarketHigh >= f.minPremarketHigh
  }

  /** The rows of `table` dated `date`, in table order (the lookup by date). */
  function RowsOn(table: seq<GapperRow>, date: string): seq<GapperRow>
  {
    if table == [] then []
    else
      var last := table[|table| - 1];
      RowsOn(table[..|table| - 1], date) + (if last.date == date then [last] else [])
  }

  /** The lookup returns exactly the rows with that date, with their
      multiplicities; a date absent from the table gives no rows. */
  lemma {:induction false} RowsOnExact(table: seq<GapperRow>, date: string)
    ensures forall g :: g in RowsOn(table, date) <==> g in table && g.date == date
    ensures multiset(RowsOn(table, date)) <= multiset(table)
    ensures (forall g :: g in table ==> g.date != date) ==> RowsOn(table, date) == []
  {
    if table != [] {
      var init, last := table[..|table| - 1], table[|table| - 1];
      assert table == init + [last];
      RowsOnExact(init, date);
    }
    var rows := RowsOn(table, date);
    if rows != [] {
      assert rows[0] in rows;
    }
  }

  /** The lookup keeps table order: the rows of a concatenation are the
      rows of its parts, one after the other. */
  lemma {:induction false} RowsOnAppend(a: seq<GapperRow>, b: seq<GapperRow>, date: string)
    ensures RowsOn(a + b, date) == RowsOn(a, date) + RowsOn(b, date)
    decreases |b|
  {
    if b == [] {
      assert a + b == a;
    } else {
      var init := b[..|b| - 1];
      assert (a + b)[..|a + b| - 1] == a + init;
      RowsOnAppend(a, init, date);
    }
  }

  /** The lookup keeps every row of the date as often as the table has it,
      and no other row. */
  lemma {:induction false} RowsOnCount(table: seq<GapperRow>, date: string, g: GapperRow)
    ensures multiset(RowsOn(table, date))[g] == if g.date == date then multiset(table)[g] else 0
  {
    if table != [] {
      var init, last := table[..|table| - 1], table[|table| - 1];
      assert table == init + [last];
      RowsOnCount(init, date, g);
    }
  }

  /** The rows that pass the filter, in input order. */
  function Qualifying(rows: seq<GapperRow>, f: Filter): seq<GapperRow>
  {
    if rows == [] then []
    else
      var last := rows[|rows| - 1];
      Qualifying(rows[..|rows| - 1], f) + (if Qualifies(last, f) then [last] else [])
  }

  /** Sorted by gap, largest first. */
  ghost predicate SortedByGap(s: seq<GapperRow>)
  {
    forall i, j :: 0 <= i < j < |s| ==> s[i].gapPercent >= s[j].gapPercent
  }

  /** Places `x` before the first element whose gap is not larger than its own. */
  function Insert(x: GapperRow, s: seq<GapperRow>): seq<GapperRow>
  {
    if s == [] || s[0].gapPercent <= x.gapPercent then [x] + s
    else [s[0]] + Insert(x, s[1..])
  }

  /** A stable sort by gap, largest first: Python's
      `sorted(..., key=gap, reverse=True)`. */
  function SortByGap(s: seq<GapperRow>): seq<GapperRow>
  {
    if s == [] then [] else Insert(s[0], SortByGap(s[1..]))
  }

  /** Python's slice `s[:m]`; a negative `m` drops `-m` elements from the end. */
  function SliceTo<T>(s: seq<T>, m: int): (r: seq<T>)
    ensures r <= s
    ensures |r| == if m >= 0 then (if m < |s| then m else |s|)
                   else (if |s| + m > 0 then |s| + m else 0)
  {
    if m >= 0 then (if m < |s| then s[..m] else s)
    else (if |s| + m > 0 then s[..|s| + m] else [])
  }

  /** The rows selected from the rows of one date. One row (a pandas Series)
      is only filtered; up to `maxDailyTrades` rows are filtered in order;
      more are filtered, sorted by gap and cut to `maxDailyTrades`. */
  function Select(rows: seq<GapperRow>, f: Filter): seq<GapperRow>
  {
    if rows == [] then []
    else if |rows| == 1 then Qualifying(rows, f)
    else if |rows| <= f.maxDailyTrades then Qualifying(rows, f)
    else SliceTo(SortByGap(Qualifying(rows, f)), f.maxDailyTrades)
  }

  /** The symbols of `rows`, in order. */
  function SymbolsOf(rows: seq<GapperRow>): (r: seq<string>)
    ensures |r| == |rows|
    ensures forall i :: 0 <= i < |rows| ==> r[i] == rows[i].symbol
  {
    seq(|rows|, i requires 0 <= i < |rows| => rows[i].symbol)
  }

  /** `thresholds` after writing symbol -> premarket high for each row, in order. */
  function Written(thresholds: map<string, int>, rows: seq<GapperRow>): map<string, int>
  {
    if rows == [] then thresholds
    else
      var last := rows[|rows| - 1];
      Written(thresholds, rows[..|rows| - 1])[last.symbol := last.premarketHigh]
  }

  /** Filtering one more row, for the loops that collect qualifying rows. */
  lemma QualifyingAppendRow(rows: seq<GapperRow>, g: GapperRow, f: Filter)
    ensures Qualifying(rows + [g], f) == if Qualifies(g, f) then Qualifying(rows, f) + [g] else Qualifying(rows, f)
  {
    assert (rows + [g])[..|rows|] == rows;
  }

  /** Writing one more row, for the loops that write thresholds and collect
      symbols. */
  lemma WriteAppendRow(thresholds: map<string, int>, rows: seq<GapperRow>, g: GapperRow)
    ensures Written(thresholds, rows + [g]) == Written(thresholds, rows)[g.symbol := g.premarketHigh]
    ensures SymbolsOf(rows + [g]) == SymbolsOf(rows) + [g.symbol]
  {
    assert (rows + [g])[..|rows|] == rows;
  }

  // ---------------------------------------------------------------------------
  // Filtering

  /** The filter keeps exactly the rows that pass it, and only those, with
      their multiplicities. */
  lemma {:induction false} QualifyingExact(rows: seq<GapperRow>, f: Filter)
    ensures forall g :: g in Qualifying(rows, f) <==> g in rows && Qualifies(g, f)
    ensures multiset(Qualifying(rows, f)) <= multiset(rows)
    ensures |Qualifying(rows, f)| <= |rows|
  {
    if rows != [] {
      var init, last := rows[..|rows| - 1], rows[|rows| - 1];
      assert rows == init + [last];
      QualifyingExact(init, f);
    }
  }

  /** The filter keeps every passing row as often as the input has it, and
      no other row. */
  lemma {:induction false} QualifyingCount(rows: seq<GapperRow>, f: Filter, g: GapperRow)
    ensures multiset(Qualifying(rows, f))[g] == if Qualifies(g, f) then multiset(rows)[g] else 0
  {
    if rows != [] {
      var init, last := rows[..|rows| - 1], rows[|rows| - 1];
      assert rows == init + [last];
      QualifyingCount(init, f, g);
    }
  }

  /** The filter keeps input order: filtering a concatenation filters its
      parts, one after the other. */
  lemma {:induction false} QualifyingAppend(a: seq<GapperRow>, b: seq<GapperRow>, f: Filter)
    ensures Qualifying(a + b, f) == Qualifying(a, f) + Qualifying(b, f)
    decreases |b|
  {
    if b == [] {
      assert a + b == a;
    } else {
      var init := b[..|b| - 1];
      assert (a + b)[..|a + b| - 1] == a + init;
      QualifyingAppend(a, init, f);
    }
  }

  // ---------------------------------------------------------------------------
  // Sorting

  lemma {:induction false} InsertPermutes(x: GapperRow, s: seq<GapperRow>)
    ensures multiset(Insert(x, s)) == multiset(s) + multiset{x}
    ensures |Insert(x, s)| == |s| + 1
    decreases |s|
  {
    if s != [] && s[0].gapPercent > x.gapPercent {
      InsertPermutes(x, s[1..]);
      assert s == [s[0]] + s[1..];
    }
  }

  /** The head of an insertion is either the inserted row or the old head. */
  lemma InsertHead(x: GapperRow, s: seq<GapperRow>)
    ensures Insert(x, s)[0] == x || (s != [] && Insert(x, s)[0] == s[0])
  {
    InsertPermutes(x, s);
  }

  lemma {:induction false} InsertSorted(x: GapperRow, s: seq<GapperRow>)
    requires SortedByGap(s)
    ensures SortedByGap(Insert(x, s))
    decreases |s|
  {
    InsertPermutes(x, s);
    if s != [] && s[0].gapPercent > x.gapPercent {
      var t := Insert(x, s[1..]);
      InsertSorted(x, s[1..]);
      InsertPermutes(x, s[1..]);
      if t != [] {
        InsertHead(x, s[1..]);
        assert t[0].gapPercent <= s[0].gapPercent;
      }
      SortedCons(s[0], t);
    }
  }

  /** A row not below the head of a sorted sequence can go in front of it. */
  lemma SortedCons(y: GapperRow, t: seq<GapperRow>)
    requires SortedByGap(t) && (t != [] ==> t[0].gapPercent <= y.gapPercent)
    ensures SortedByGap([y] + t)
  {
    var r := [y] + t;
    forall i, j | 0 <= i < j < |r| ensures r[i].gapPercent >= r[j].gapPercent {
      if i == 0 {
        assert r[j] == t[j - 1];
        if j > 1 {
          assert t[0].gapPercent >= t[j - 1].gapPercent;
        }
      } else {
        assert r[i] == t[i - 1] && r[j] == t[j - 1];
      }
    }
  }

  /** The sort returns a permutation of its input, sorted by gap. */
  lemma {:induction false} SortByGapCorrect(s: seq<GapperRow>)
    ensures multiset(SortByGap(s)) == multiset(s)
    ensures |SortByGap(s)| == |s|
    ensures SortedByGap(SortByGap(s))
  {
    if s != [] {
      SortByGapCorrect(s[1..]);
      InsertPermutes(s[0], SortByGap(s[1..]));
      InsertSorted(s[0], SortByGap(s[1..]));
      assert s == [s[0]] + s[1..];
    }
  }

  /** The rows of `s` whose gap is `g`, in order. */
  function WithGap(s: seq<GapperRow>, g: int): seq<GapperRow>
  {
    if s == [] then [] else (if s[0].gapPercent == g then [s[0]] else []) + WithGap(s[1..], g)
  }

  lemma WithGapCons(y: GapperRow, t: seq<GapperRow>, g: int)
    ensures WithGap([y] + t, g) == (if y.gapPercent == g then [y] else []) + WithGap(t, g)
  {
    assert ([y] + t)[1..] == t;
  }

  lemma {:induction false} WithGapAppend(a: seq<GapperRow>, b: seq<GapperRow>, g: int)
    ensures WithGap(a + b, g) == WithGap(a, g) + WithGap(b, g)
    decreases |a|
  {
    if a == [] {
      assert a + b == b;
    } else {
      assert a + b == [a[0]] + (a[1..] + b);
      WithGapCons(a[0], a[1..] + b, g);
      WithGapAppend(a[1..], b, g);
      assert a == [a[0]] + a[1..];
      WithGapCons(a[0], a[1..], g);
    }
  }

  /** Taking the rows of one gap commutes with the filter. */
  lemma {:induction false} QualifyingWithGap(s: seq<GapperRow>, f: Filter, g: int)
    ensures WithGap(Qualifying(s, f), g) == Qualifying(WithGap(s, g), f)
    decreases |s|
  {
    if s != [] {
      var init, y := s[..|s| - 1], s[|s| - 1];
      assert s == init + [y];
      QualifyingWithGap(init, f, g);
      var qy := if Qualifies(y, f) then [y] else [];
      assert Qualifying(s, f) == Qualifying(init, f) + qy;
      WithGapAppend(Qualifying(init, f), qy, g);
      WithGapAppend(init, [y], g);
      QualifyingAppend(WithGap(init, g), WithGap([y], g), f);
      assert [y][1..] == [];
      QualifyingAppendRow([], y, f);
      if y.gapPercent == g {
        assert WithGap(qy, g) == qy && WithGap([y], g) == [y];
      } else {
        assert WithGap(qy, g) == [] && WithGap([y], g) == [];
      }
    }
  }

  /** Taking the rows of one gap commutes with the lookup by date. */
  lemma {:induction false} RowsOnWithGap(table: seq<GapperRow>, date: string, g: int)
    ensures WithGap(RowsOn(table, date), g) == RowsOn(WithGap(table, g), date)
    decreases |table|
  {
    if table != [] {
      var init, y := table[..|table| - 1], table[|table| - 1];
      assert table == init + [y];
      RowsOnWithGap(init, date, g);
      var ry := if y.date == date then [y] else [];
      assert RowsOn(table, date) == RowsOn(init, date) + ry;
      WithGapAppend(RowsOn(init, date), ry, g);
      WithGapAppend(init, [y], g);
      RowsOnAppend(WithGap(init, g), WithGap([y], g), date);
      assert [y][1..] == [] && [y][..0] == [];
      if y.gapPercent == g {
        assert WithGap(ry, g) == ry && WithGap([y], g) == [y];
      } else {
        assert WithGap(ry, g) == [] && WithGap([y], g) == [];
      }
    }
  }

  lemma {:induction false} InsertStable(x: GapperRow, s: seq<GapperRow>, g: int)
    ensures WithGap(Insert(x, s), g) == (if x.gapPercent == g then [x] else []) + WithGap(s, g)
    decreases |s|
  {
    if s == [] || s[0].gapPercent <= x.gapPercent {
      WithGapCons(x, s, g);
    } else {
      var y, t := s[0], s[1..];
      assert s == [y] + t;
      InsertStable(x, t, g);
      WithGapCons(y, Insert(x, t), g);
      WithGapCons(y, t, g);
      var wx := if x.gapPercent == g then [x] else [];
      var wy := if y.gapPercent == g then [y] else [];
      assert wy + wx == wx + wy;
      assert wy + (wx + WithGap(t, g)) == wx + (wy + WithGap(t, g));
    }
  }

  /** The sort is stable: rows with equal gaps keep their input order. */
  lemma {:induction false} SortByGapStable(s: seq<GapperRow>, g: int)
    ensures WithGap(SortByGap(s), g) == WithGap(s, g)
  {
    if s != [] {
      SortByGapStable(s[1..], g);
      InsertStable(s[0], SortByGap(s[1..]), g);
    }
  }

  // ---------------------------------------------------------------------------
  // Selection

  /** Every selected row is a row of the date that passes the filter, and no
      row is selected more often than it occurs. */
  lemma SelectSound(rows: seq<GapperRow>, f: Filter)
    ensures forall g :: g in Select(rows, f) ==> g in rows && Qualifies(g, f)
    ensures multiset(Select(rows, f)) <= multiset(Qualifying(rows, f))
  {
    QualifyingExact(rows, f);
    var q := Qualifying(rows, f);
    var sel := Select(rows, f);
    if |rows| > 1 && |rows| > f.maxDailyTrades {
      SortedSliceWithin(q, f.maxDailyTrades);
      forall g | g in sel ensures g in rows && Qualifies(g, f) {
        assert g in multiset(sel);
      }
    }
  }

  /** Cutting the sorted rows keeps no row more often than the input has it. */
  lemma SortedSliceWithin(q: seq<GapperRow>, m: int)
    ensures multiset(SliceTo(SortByGap(q), m)) <= multiset(q)
  {
    var sorted := SortByGap(q);
    SortByGapCorrect(q);
    var sel := SliceTo(sorted, m);
    assert sorted == sel + sorted[|sel|..];
    assert multiset(sorted) == multiset(sel) + multiset(sorted[|sel|..]);
  }

  /** The cap: with several rows for the date at most `maxDailyTrades` rows
      are selected (for a non-negative cap); with a single row at most one is,
      whatever the cap; with no more rows than the cap every qualifying row is
      selected, in input order. */
  lemma SelectCap(rows: seq<GapperRow>, f: Filter)
    ensures |rows| == 1 ==> |Select(rows, f)| <= 1
    ensures |rows| > 1 && f.maxDailyTrades >= 0 ==> |Select(rows, f)| <= f.maxDailyTrades
    ensures |rows| <= f.maxDailyTrades || |rows| == 1 ==> Select(rows, f) == Qualifying(rows, f)
  {
    QualifyingExact(rows, f);
    SortByGapCorrect(Qualifying(rows, f));
  }

  /** The top `|sel|` rows of a sorted sequence have gaps no smaller than
      those of the rest. */
  lemma SortedPrefixDominates(sorted: seq<GapperRow>, k: nat)
    requires SortedByGap(sorted) && k <= |sorted|
    ensures forall a, b :: a in sorted[..k] && b in sorted[k..] ==> a.gapPercent >= b.gapPercent
  {
    forall a, b | a in sorted[..k] && b in sorted[k..] ensures a.gapPercent >= b.gapPercent {
      var i :| 0 <= i < k && sorted[..k][i] == a;
      var j :| 0 <= j < |sorted| - k && sorted[k..][j] == b;
      assert sorted[i] == a && sorted[k + j] == b;
    }
  }

  /** In the over-limit branch the selection is the top of the qualifying rows
      by gap: it holds min(cap, qualifying) rows, and no selected row has a
      smaller gap than a qualifying row left out. */
  lemma SelectTop(rows: seq<GapperRow>, f: Filter)
    requires |rows| > 1 && |rows| > f.maxDailyTrades
    ensures var q := Qualifying(rows, f);
      f.maxDailyTrades >= 0 ==>
        |Select(rows, f)| == (if f.maxDailyTrades < |q| then f.maxDailyTrades else |q|)
    ensures var sel := Select(rows, f);
      forall a, b :: a in sel && b in multiset(Qualifying(rows, f)) - multiset(sel) ==>
        a.gapPercent >= b.gapPercent
  {
    var q := Qualifying(rows, f);
    var sorted := SortByGap(q);
    SortByGapCorrect(q);
    var sel := Select(rows, f);
    var k := |sel|;
    assert sel <= sorted;
    assert sel == sorted[..k];
    var rest := sorted[k..];
    assert sorted == sel + rest;
    assert multiset(q) == multiset(sel) + multiset(rest);
    assert multiset(q) - multiset(sel) == multiset(rest);
    SortedPrefixDominates(sorted, k);
    forall a, b | a in sel && b in multiset(q) - multiset(sel) ensures a.gapPercent >= b.gapPercent {
      assert b in rest;
    }
  }

  /** With the cap at zero a single qualifying row is still selected: the
      single-row branch ignores the cap. */
  lemma SingleRowIgnoresCap(g: GapperRow, f: Filter)
    requires Qualifies(g, f) && f.maxDailyTrades == 0
    ensures Select([g], f) == [g]
  {
    assert [g][..|[g]| - 1] == [];
    assert Qualifying([g], f) == Qualifying([], f) + [g];
  }

  // ---------------------------------------------------------------------------
  // Writing thresholds

  /** Writing thresholds adds exactly the symbols of the rows as keys. */
  lemma {:induction false} WrittenKeys(thresholds: map<string, int>, rows: seq<GapperRow>)
    ensures Written(thresholds, rows).Keys == thresholds.Keys + set g | g in rows :: g.symbol
  {
    if rows != [] {
      var init, last := rows[..|rows| - 1], rows[|rows| - 1];
      assert rows == init + [last];
      WrittenKeys(thresholds, init);
    }
  }

  /** A key that no row names keeps its old value. */
  lemma {:induction false} WrittenUnchanged(thresholds: map<string, int>, rows: seq<GapperRow>, k: string)
    requires k in thresholds && k !in SymbolsOf(rows)
    ensures k in Written(thresholds, rows) && Written(thresholds, rows)[k] == thresholds[k]
  {
    if rows != [] {
      var init := rows[..|rows| - 1];
      assert k != SymbolsOf(rows)[|rows| - 1];
      WrittenUnchanged(thresholds, init, k);
    }
  }

  /** A key that some row names holds the premarket high of such a row. */
  lemma {:induction false} WrittenFromRow(thresholds: map<string, int>, rows: seq<GapperRow>, k: string)
    requires k in SymbolsOf(rows)
    ensures k in Written(thresholds, rows)
    ensures exists g :: g in rows && g.symbol == k && Written(thresholds, rows)[k] == g.premarketHigh
  {
    var init, last := rows[..|rows| - 1], rows[|rows| - 1];
    if k == last.symbol {
      assert last in rows;
    } else {
      var i :| 0 <= i < |rows| && SymbolsOf(rows)[i] == k;
      assert i < |init| && SymbolsOf(init)[i] == k;
      WrittenFromRow(thresholds, init, k);
      var g :| g in init && g.symbol == k && Written(thresholds, init)[k] == g.premarketHigh;
      assert g in rows;
    }
  }

  /** Filter soundness of the thresholds selection writes: a key either
      holds its old value and was not selected, or holds the premarket high of
      a row of the date, with that symbol, that passes the filter. */
  lemma SelectedThresholds(thresholds: map<string, int>, rows: seq<GapperRow>, f: Filter)
    ensures var sel := Select(rows, f);
      var w := Written(thresholds, sel);
      forall k :: k in w ==>
        || (k in thresholds && k !in SymbolsOf(sel) && w[k] == thresholds[k])
        || (exists g :: g in sel && g in rows && g.symbol == k && Qualifies(g, f) && w[k] == g.premarketHigh)
  {
    var sel := Select(rows, f);
    SelectSound(rows, f);
    var w := Written(thresholds, sel);
    WrittenKeys(thresholds, sel);
    forall k | k in w
      ensures || (k in thresholds && k !in SymbolsOf(sel) && w[k] == thresholds[k])
              || (exists g :: g in sel && g in rows && g.symbol == k && Qualifies(g, f) && w[k] == g.premarketHigh)
    {
      if k in SymbolsOf(sel) {
        WrittenFromRow(thresholds, sel, k);
        var g :| g in sel && g.symbol == k && w[k] == g.premarketHigh;
      } else {
        WrittenUnchanged(thresholds, sel, k);
      }
    }
  }

  /** The symbols returned are exactly the keys selection adds: the map
      after selection has the old keys and the returned symbols, and every
      returned symbol is a key. */
  lemma SelectedKeys(thresholds: map<string, int>, rows: seq<GapperRow>, f: Filter)
    ensures var syms := SymbolsOf(Select(rows, f));
      Written(thresholds, Select(rows, f)).Keys == thresholds.Keys + set k | k in syms
  {
    var sel := Select(rows, f);
    var syms := SymbolsOf(sel);
    WrittenKeys(thresholds, sel);
    assert (set g | g in sel :: g.symbol) == set k | k in syms by {
      forall k | k in syms ensures k in set g | g in sel :: g.symbol {
        var i :| 0 <= i < |syms| && syms[i] == k;
        assert sel[i] in sel;
      }
      forall g | g in sel ensures g.symbol in syms {
        var i :| 0 <= i < |sel| && sel[i] == g;
        assert syms[i] == g.symbol;
      }
    }
  }

  /** A date absent from the table selects nothing, returns no symbols and
      leaves the thresholds as they were. */
  lemma MissingDate(thresholds: map<string, int>, table: seq<GapperRow>, date: string, f: Filter)
    requires forall g :: g in table ==> g.date != date
    ensures Select(RowsOn(table, date), f) == []
    ensures SymbolsOf(Select(RowsOn(table, date), f)) == []
    ensures Written(thresholds, Select(RowsOn(table, date), f)) == thresholds
  {
    RowsOnExact(table, date);
  }

  /** Ties are broken by table order: among the rows of one gap, the selected
      ones are the first of the date's qualifying rows with that gap, taken
      in the order of the table. */
  lemma SelectTiesInTableOrder(table: seq<GapperRow>, date: string, f: Filter, g: int)
    ensures WithGap(Select(RowsOn(table, date), f), g) <= Qualifying(RowsOn(WithGap(table, g), date), f)
  {
    var rows := RowsOn(table, date);
    var q := Qualifying(rows, f);
    RowsOnWithGap(table, date, g);
    QualifyingWithGap(rows, f, g);
    var sel := Select(rows, f);
    if |rows| > 1 && |rows| > f.maxDailyTrades {
      var sorted := SortByGap(q);
      SortByGapStable(q, g);
      var rest := sorted[|sel|..];
      assert sorted == sel + rest;
      WithGapAppend(sel, rest, g);
    } else {
      assert sel == q;
    }
  }
}
