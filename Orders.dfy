/** The order venue as the strategy sees it: a book of submitted orders,
    each with a symbol, a kind, a signed quantity and a status. An order's
    identifier is its position in the book. Fills come from the venue; the
    strategy only submits and cancels. */
module Orders {

  type OrderId = nat

  datatype Status = Open | Filled | Canceled

  /** Prices are in cents. */
  datatype OrderKind = Market | Limit(limitPrice: int) | StopMarket(stopPrice: int)

  /** A positive quantity buys, a negative one sells. */
  datatype Order = Order(symbol: string, kind: OrderKind, quantity: int, status: Status)

  /** `b` is `a` with some statuses changed and nothing else. */
  ghost predicate SameButStatus(a: seq<Order>, b: seq<Order>)
  {
    && |a| == |b|
    && forall i :: 0 <= i < |a| ==> a[i].(status := b[i].status) == b[i]
  }

  /** Cancelling an order: an open order becomes canceled; cancelling one that
      is already filled or canceled leaves the book as it is (a no-op). */
  function Cancel(book: seq<Order>, id: OrderId): (r: seq<Order>)
    requires id < |book|
    ensures SameButStatus(book, r)
    ensures r[id].status == (if book[id].status == Open then Canceled else book[id].status)
    ensures forall i :: 0 <= i < |book| && i != id ==> r[i] == book[i]
  {
    if book[id].status == Open then book[id := book[id].(status := Canceled)] else book
  }

  /** Cancelling every open order: afterwards none is open, filled orders stay
      filled and canceled ones stay canceled. */
  function CancelAll(book: seq<Order>): (r: seq<Order>)
    ensures SameButStatus(book, r)
    ensures forall i :: 0 <= i < |r| ==> r[i].status != Open
    ensures forall i :: 0 <= i < |r| && book[i].status == Open ==> r[i].status == Canceled
    ensures forall i :: 0 <= i < |r| && book[i].status != Open ==> r[i] == book[i]
  {
    seq(|book|, i requires 0 <= i < |book| =>
      if book[i].status == Open then book[i].(status := Canceled) else book[i])
  }

  /** The venue filling an open order (not something the strategy does). */
  function Fill(book: seq<Order>, id: OrderId): (r: seq<Order>)
    requires id < |book| && book[id].status == Open
    ensures SameButStatus(book, r)
    ensures r[id].status == Filled
    ensures forall i :: 0 <= i < |book| && i != id ==> r[i] == book[i]
  {
    book[id := book[id].(status := Filled)]
  }

  /** The number of entry (market) orders for `s` in `book`. */
  function Entries(book: seq<Order>, s: string): nat
  {
    if book == [] then 0
    else
      var last := book[|book| - 1];
      Entries(book[..|book| - 1], s) + (if last.symbol == s && last.kind == Market then 1 else 0)
  }

  /** Entries counts by concatenation. */
  lemma {:induction false} EntriesAppend(a: seq<Order>, b: seq<Order>, s: string)
    ensures Entries(a + b, s) == Entries(a, s) + Entries(b, s)
    decreases |b|
  {
    if b == [] {
      assert a + b == a;
    } else {
      var b' := b[..|b| - 1];
      assert (a + b)[..|a + b| - 1] == a + b';
      EntriesAppend(a, b', s);
    }
  }

  /** Status changes never change how many entries a book holds. */
  lemma {:induction false} EntriesIgnoreStatus(a: seq<Order>, b: seq<Order>, s: string)
    requires SameButStatus(a, b)
    ensures Entries(a, s) == Entries(b, s)
    decreases |a|
  {
    if a != [] {
      var n := |a| - 1;
      assert a[n].(status := b[n].status) == b[n];
      EntriesIgnoreStatus(a[..n], b[..n], s);
    }
  }

  /** Suffixes of two books that differ only in status differ only in status. */
  lemma SameButStatusSuffix(a: seq<Order>, b: seq<Order>, from: nat)
    requires SameButStatus(a, b) && from <= |a|
    ensures SameButStatus(a[from..], b[from..])
  {
    forall i | 0 <= i < |a| - from
      ensures a[from..][i].(status := b[from..][i].status) == b[from..][i]
    {
      assert a[from..][i] == a[from + i] && b[from..][i] == b[from + i];
    }
  }

  /** When a book only grows, the entries counted from `from` grow by the
      entries of the appended part. */
  lemma EntriesSinceGrow(a: seq<Order>, b: seq<Order>, from: nat, s: string)
    requires a <= b && from <= |a|
    ensures Entries(b[from..], s) - Entries(a[from..], s) == Entries(b, s) - Entries(a, s)
  {
    var added := b[|a|..];
    assert b == a + added;
    assert b[from..] == a[from..] + added;
    EntriesAppend(a[from..], added, s);
    EntriesAppend(a, added, s);
  }

  /** The entries among three orders. */
  lemma EntriesOfThree(a: Order, b: Order, c: Order, s: string)
    ensures Entries([a, b, c], s) == Entries([a], s) + Entries([b], s) + Entries([c], s)
  {
    assert [a, b, c][..2] == [a, b] && [a, b][..1] == [a] && [a][..0] == [];
    assert [b][..0] == [] && [c][..0] == [];
  }
}
