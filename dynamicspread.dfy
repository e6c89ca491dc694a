/** The dynamic-spread variant: quotes around the future's mid price with a spread that widens with
    volatility, skewed by the position and pulled to the mid when the position nears the limit. */
module DynamicSpread {
  import opened Common
  import opened Throttle
  import opened Book
  import opened Bookkeeping

  const AvgWindow: nat := 50
  const OrderThreshold: int := 50
  const RebalancingThreshold: int := 80
  const MakerFee: real := 0.0001
  const TakerFee: real := 0.0002

  /** `base_spread_percentage + 0.5 * (price_volatility / mid_price)`. */
  function SpreadPercentage(mid: int, volatility: real): (p: real)
    requires mid > 0
    ensures volatility >= 0.0 ==> p >= 0.001
  {
    0.001 + (TakerFee - MakerFee) + 0.5 * (volatility / mid as real)
  }

  /** The candidate (bid, ask) before rebalancing: the side that would grow the position is moved away
      from the mid by the position factor once the position passes the order threshold. */
  function Candidates(position: int, mid: int, spread: real, factor: real): (bidAsk: (int, int))
  {
    var m := mid as real;
    if position > OrderThreshold then
      (AdjustPrice(Scaled(m, 1.0 - spread * factor)), AdjustPrice(Scaled(m, 1.0 + spread)))
    else if position < -OrderThreshold then
      (AdjustPrice(Scaled(m, 1.0 - spread)), AdjustPrice(Scaled(m, 1.0 + spread * factor)))
    else
      (AdjustPrice(Scaled(m, 1.0 - spread)), AdjustPrice(Scaled(m, 1.0 + spread)))
  }

  /** Near the limit, the side that would reduce the position is moved to the midpoint of the two
      candidates, rounded down to a tick. */
  function Rebalance(position: int, bid: int, ask: int): (bidAsk: (int, int))
  {
    if position >= RebalancingThreshold then
      (bid, AdjustPrice(ask as real - (ask - bid) as real * 0.5))
    else if position <= -RebalancingThreshold then
      (AdjustPrice(bid as real + (ask - bid) as real * 0.5), ask)
    else
      (bid, ask)
  }

  /** The two prices passed to the quoting cycle. */
  function Prices(position: int, mid: int, volatility: real, factor: real): (bidAsk: (int, int))
    requires mid > 0
  {
    var c := Candidates(position, mid, SpreadPercentage(mid, volatility), factor);
    Rebalance(position, c.0, c.1)
  }

  /** With a nonnegative spread and a factor of at least one the four rounded candidates are ordered:
      the skewed bid, the plain bid, the mid, the plain ask, the skewed ask. */
  lemma CandidateLadder(mid: int, spread: real, factor: real)
    requires mid > 0 && spread >= 0.0 && factor >= 1.0
    ensures var m := mid as real;
      && AdjustPrice(Scaled(m, 1.0 - spread * factor)) <= AdjustPrice(Scaled(m, 1.0 - spread)) <= mid
      && mid < AdjustPrice(Scaled(m, 1.0 + spread)) + TickSize
      && AdjustPrice(Scaled(m, 1.0 + spread)) <= AdjustPrice(Scaled(m, 1.0 + spread * factor))
  {
    var m := mid as real;
    assert spread <= spread * factor by {
      ScaledMonotone(spread, 1.0, factor);
    }
    ScaledMonotone(m, 1.0 - spread * factor, 1.0 - spread);
    ScaledMonotone(m, 1.0 - spread, 1.0);
    ScaledMonotone(m, 1.0, 1.0 + spread);
    ScaledMonotone(m, 1.0 + spread, 1.0 + spread * factor);
    RoundedLadder(Scaled(m, 1.0 - spread * factor), Scaled(m, 1.0 - spread), Scaled(m, 1.0),
                  Scaled(m, 1.0 + spread), Scaled(m, 1.0 + spread * factor));
  }

  /** The candidates straddle the mid, and the skew only ever widens the side that would grow the
      position: a long position lowers the bid below the neutral one and leaves the ask, a short position
      raises the ask and leaves the bid. */
  lemma CandidatesSkew(position: int, mid: int, spread: real, factor: real)
    requires mid > 0 && spread >= 0.0 && factor >= 1.0
    ensures var c := Candidates(position, mid, spread, factor);
      var neutral := Candidates(0, mid, spread, factor);
      && c.0 <= mid < c.1 + TickSize
      && c.0 <= c.1
      && (position > OrderThreshold ==> c.0 <= neutral.0 && c.1 == neutral.1)
      && (position < -OrderThreshold ==> c.0 == neutral.0 && c.1 >= neutral.1)
      && (-OrderThreshold <= position <= OrderThreshold ==> c == neutral)
  {
    CandidateLadder(mid, spread, factor);
  }

  /** Rebalancing moves only the position-reducing side, to the floor tick of the midpoint of the two
      candidates; for ordered, tick-aligned candidates the new price stays between them. */
  lemma RebalanceToMid(position: int, bid: int, ask: int)
    ensures var r := Rebalance(position, bid, ask);
      var mid := AdjustPrice((bid + ask) as real / 2.0);
      && (position >= RebalancingThreshold ==> r == (bid, mid))
      && (position <= -RebalancingThreshold ==> r == (mid, ask))
      && (-RebalancingThreshold < position < RebalancingThreshold ==> r == (bid, ask))
      && (bid % TickSize == 0 && bid <= ask ==> bid <= r.0 <= r.1 <= ask)
  {
    var half := (bid + ask) as real / 2.0;
    assert ask as real - (ask - bid) as real * 0.5 == half;
    assert bid as real + (ask - bid) as real * 0.5 == half;
    if bid % TickSize == 0 && bid <= ask {
      AdjustPriceGreatest(half, bid);
      AdjustPriceMonotone(half, ask as real);
      AdjustPriceMonotone(bid as real, half);
      AdjustPriceOfTick(bid);
      assert AdjustPrice(ask as real) <= ask;
    }
  }

  /** The prices handed to the quoting cycle are ticks, ordered, and lie between the candidates. */
  lemma PricesOrdered(position: int, mid: int, volatility: real, factor: real)
    requires mid > 0 && volatility >= 0.0 && factor >= 1.0
    ensures var c := Candidates(position, mid, SpreadPercentage(mid, volatility), factor);
      var p := Prices(position, mid, volatility, factor);
      && p.0 % TickSize == 0 && p.1 % TickSize == 0
      && c.0 <= p.0 <= p.1 <= c.1
  {
    var spread := SpreadPercentage(mid, volatility);
    var c := Candidates(position, mid, spread, factor);
    CandidatesSkew(position, mid, spread, factor);
    RebalanceToMid(position, c.0, c.1);
  }

  /** The quoting state of one AutoTrader of this variant. */
  class Trader {
    const desk: Desk
    /** `recent_prices`, a deque(maxlen=50) of future mid prices. */
    var recentPrices: seq<int>

    ghost predicate Valid()
      reads this, desk, desk.sendLimiter
    {
      desk.Valid() && |recentPrices| <= AvgWindow
    }

    constructor (minimumBid: int, maximumAsk: int)
      ensures Valid() && fresh(desk) && fresh(desk.sendLimiter)
      ensures recentPrices == []
      ensures desk.Initialized()
      ensures desk.minBidTick == MinBidNearestTick(minimumBid) && desk.maxAskTick == MaxAskNearestTick(maximumAsk)
    {
      desk := new Desk(minimumBid, maximumAsk);
      recentPrices := [];
      new;
      assert desk.Valid() && desk.Initialized();
    }

    /** `on_order_book_update_message` for the best bid and ask. `volatility` is the standard deviation
        of the price window after the new mid is appended and `factor` is `calculate_position_factor`
        of the current position, both computed in floating point outside this model. `nowBid` and
        `nowAsk` are the clock readings of the two sends. */
    method OnOrderBookUpdate(instrument: Instrument, bidTop: int, askTop: int, volatility: real,
                             factor: real, nowBid: real, nowAsk: real)
      requires Valid()
      modifies this, desk, desk.sendLimiter
      ensures Valid()
      ensures instrument == Future && bidTop > 0 && askTop > 0 ==>
        var mid := FloorMid(bidTop, askTop);
        var p := Prices(old(desk.position), mid, volatility, factor);
        && recentPrices == Push(old(recentPrices), mid, AvgWindow)
        && desk.Snapshot() == QuoteStep(old(desk.Snapshot()), p.0, p.1, nowBid, nowAsk)
        && ExtendsByTwo(old(desk.sendLimiter.accepted), desk.sendLimiter.accepted, nowBid, nowAsk)
      ensures !(instrument == Future && bidTop > 0 && askTop > 0) ==>
        recentPrices == old(recentPrices) && desk.Snapshot() == old(desk.Snapshot())
        && desk.sendLimiter.accepted == old(desk.sendLimiter.accepted)
    {
      if instrument == Future && bidTop > 0 && askTop > 0 {
        var mid := FloorMid(bidTop, askTop);
        recentPrices := Push(recentPrices, mid, AvgWindow);
        var p := Prices(desk.position, mid, volatility, factor);
        desk.Quote(p.0, p.1, nowBid, nowAsk);
      }
    }
  }
}
