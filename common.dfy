/** Constants, value types and the two pure helpers shared by both trader variants:
    tick rounding (adjust_price) and the append of a bounded deque (deque(maxlen=...)). */
module Common {

  const LotSize: int := 10
  const PositionLimit: int := 100
  const TickSize: int := 100
  const HedgeBoundary: int := 10
  const HedgeTimeLimit: real := 58.0
  /** Capacity of each side's order queue (the `>= 4` tests). */
  const MaxQueue: nat := 4

  datatype Option<T> = None | Some(value: T)

  /** Side.BUY / Side.SELL of the gateway; Side.BID and Side.ASK are the same two values. */
  datatype Side = Buy | Sell

  datatype Instrument = Future | Etf

  /** One call into the gateway, recorded in the order it was made. */
  datatype Action =
    | InsertOrder(id: int, side: Side, price: int, volume: int)   // lifespan GOOD_FOR_DAY
    | CancelOrder(id: int)
    | HedgeOrder(id: int, side: Side, price: int, volume: int)

  function Abs(x: int): int { if x < 0 then -x else x }

  function Min(a: int, b: int): int { if a <= b then a else b }

  /** `(a + b) // 2` with Python's floor division; Dafny's `/` by a positive divisor floors too. */
  function FloorMid(bid: int, ask: int): (m: int)
    ensures 2 * m <= bid + ask < 2 * m + 2
  {
    (bid + ask) / 2
  }

  /** adjust_price: `int(price // TICK) * TICK`, i.e. the greatest tick multiple not above `price`. */
  function AdjustPrice(price: real): (r: int)
    ensures r % TickSize == 0
    ensures r as real <= price < r as real + TickSize as real
  {
    (price / TickSize as real).Floor * TickSize
  }

  /** No tick multiple lies strictly between AdjustPrice(p) and p: it is the greatest one below p. */
  lemma AdjustPriceGreatest(price: real, k: int)
    requires k % TickSize == 0 && k as real <= price
    ensures k <= AdjustPrice(price)
  {
  }

  /** A price already on the tick grid is left where it is. */
  lemma AdjustPriceOfTick(k: int)
    requires k % TickSize == 0
    ensures AdjustPrice(k as real) == k
  {
    AdjustPriceGreatest(k as real, k);
  }

  /** Rounding twice is rounding once. */
  lemma AdjustPriceIdempotent(price: real)
    ensures AdjustPrice(AdjustPrice(price) as real) == AdjustPrice(price)
  {
    AdjustPriceOfTick(AdjustPrice(price));
  }

  lemma AdjustPriceMonotone(p: real, q: real)
    requires p <= q
    ensures AdjustPrice(p) <= AdjustPrice(q)
  {
    AdjustPriceGreatest(q, AdjustPrice(p));
  }

  /** Rounding five ordered prices keeps them ordered, the middle one rounded down to at most itself and
      the upper ones less than a tick below it. */
  lemma RoundedLadder(lo2: real, lo: real, m: real, hi: real, hi2: real)
    requires lo2 <= lo <= m <= hi <= hi2
    ensures AdjustPrice(lo2) <= AdjustPrice(lo) <= AdjustPrice(m) <= AdjustPrice(hi) <= AdjustPrice(hi2)
    ensures AdjustPrice(m) as real <= m < AdjustPrice(hi) as real + TickSize as real
  {
    AdjustPriceMonotone(lo2, lo);
    AdjustPriceMonotone(lo, m);
    AdjustPriceMonotone(m, hi);
    AdjustPriceMonotone(hi, hi2);
  }

  /** `price * k`, the floating-point product of a price and a spread multiplier, taken exactly. */
  function Scaled(price: real, k: real): real
  {
    price * k
  }

  lemma ScaledMonotone(price: real, x: real, y: real)
    requires price >= 0.0 && x <= y
    ensures Scaled(price, x) <= Scaled(price, y)
  {
    assert price * y - price * x == price * (y - x);
  }

  /** `w.append(x)` on a `deque(maxlen=cap)`: the window keeps the last `cap` values, dropping the oldest. */
  function Push<T>(w: seq<T>, x: T, cap: nat): (r: seq<T>)
    requires 0 < cap && |w| <= cap
    ensures |r| == Min(|w| + 1, cap)
    ensures r == (w + [x])[|w| + 1 - |r|..]
  {
    if |w| == cap then w[1..] + [x] else w + [x]
  }
}
