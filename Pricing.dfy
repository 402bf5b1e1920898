/** The arithmetic of an entry: the trading window, the position size and the
    prices of the two bracket legs. Prices are integer cents and the target
    percentage is in basis points (10000 basis points make 1.0). */
module Pricing {

  /** Dollars risked on each trade. */
  const DOLLAR_RISK_PER_TRADE: int := 200
  const CENTS_PER_DOLLAR: int := 100
  const BASIS_POINTS: int := 10000

  function Abs(x: int): nat
  {
    if x < 0 then -x else x
  }

  /** Integer division that truncates toward zero, as Python's `int()` does to
      the quotient of two numbers. */
  function TruncDiv(a: int, b: int): (q: int)
    requires b != 0
    ensures Abs(b) * Abs(q) <= Abs(a) < Abs(b) * (Abs(q) + 1)
    ensures (a >= 0) == (b > 0) ==> q >= 0
    ensures (a >= 0) != (b > 0) ==> q <= 0
  {
    var m := Abs(a) / Abs(b);
    if (a >= 0) == (b > 0) then m else -m
  }

  /** n / d rounded to the nearest integer, ties to the even one: the rule of
      Python's `round`. */
  function RoundHalfEven(n: int, d: int): (r: int)
    requires d > 0
    ensures 2 * Abs(n - d * r) <= d
    ensures 2 * Abs(n - d * r) == d ==> r % 2 == 0
  {
    var q := n / d;
    var rem := n % d;
    if 2 * rem < d then q
    else if 2 * rem > d then q + 1
    else if q % 2 == 0 then q
    else q + 1
  }

  /** Rounding never reverses the order of two values. */
  lemma RoundMonotone(n1: int, n2: int)
    requires n1 <= n2
    ensures RoundHalfEven(n1, BASIS_POINTS) <= RoundHalfEven(n2, BASIS_POINTS)
  {
  }

  /** An exact multiple rounds to itself. */
  lemma RoundExact(k: int)
    ensures RoundHalfEven(BASIS_POINTS * k, BASIS_POINTS) == k
  {
  }

  /** Whether a clock time falls inside the entry window: from 9:30 up to, but
      not including, 12:00. */
  predicate InWindow(hour: int, minute: int)
  {
    9 <= hour < 12 && !(hour == 9 && minute < 30)
  }

  /** The window is exactly the minutes of the day from 570 (9:30) to 719 (11:59). */
  lemma WindowMinutes(hour: int, minute: int)
    requires 0 <= minute < 60
    ensures InWindow(hour, minute) <==> 9 * 60 + 30 <= 60 * hour + minute < 12 * 60
  {
    if hour < 9 {
      assert 60 * hour <= 60 * 8;
    } else if hour >= 12 {
      assert 60 * hour >= 60 * 12;
    }
  }

  /** The number of shares bought on a breakout at `price`: the dollar risk
      divided by the target fraction and then by the price, truncated. */
  function Quantity(price: int, targetBps: int): (q: int)
    requires price != 0 && targetBps != 0
    ensures price > 0 && targetBps > 0 ==>
      q >= 0 && targetBps * price * q <= DOLLAR_RISK_PER_TRADE * BASIS_POINTS * CENTS_PER_DOLLAR
             < targetBps * price * (q + 1)
  {
    TruncDiv(DOLLAR_RISK_PER_TRADE * BASIS_POINTS * CENTS_PER_DOLLAR, targetBps * price)
  }

  /** The take-profit price: the threshold raised by the target, rounded to the cent. */
  function LimitPrice(threshold: int, targetBps: int): int
  {
    RoundHalfEven(threshold * (BASIS_POINTS + targetBps), BASIS_POINTS)
  }

  /** The stop-loss price: the threshold lowered by the target, rounded to the cent. */
  function StopPrice(threshold: int, targetBps: int): int
  {
    RoundHalfEven(threshold * (BASIS_POINTS - targetBps), BASIS_POINTS)
  }

  /** For a non-negative threshold and target, the take-profit leg is at or
      above the threshold and the stop-loss leg at or below it. */
  lemma BracketAroundThreshold(threshold: int, targetBps: int)
    requires threshold >= 0 && targetBps >= 0
    ensures StopPrice(threshold, targetBps) <= threshold <= LimitPrice(threshold, targetBps)
  {
    var lo, mid, hi := threshold * (BASIS_POINTS - targetBps), BASIS_POINTS * threshold,
                       threshold * (BASIS_POINTS + targetBps);
    assert threshold * targetBps >= 0;
    assert lo <= mid <= hi;
    RoundExact(threshold);
    RoundMonotone(lo, mid);
    RoundMonotone(mid, hi);
  }
}
