/** The rolling-regression variant: keeps the last ten mid prices of both instruments and, on a future
    update, quotes around the future's mid with a wider spread on the side a stretched ETF/future spread
    argues against. */
module RollingRegression {
  import opened Common
  import opened Throttle
  import opened Book
  import opened Bookkeeping

  /** AVG_WINDOW, the capacity of both price windows, and HEDGE_RATIO_LOOKBACK. */
  const Window: nat := 10
  const Lookback: nat := 10
  const ConservativeSpread: real := 0.002
  const NormalSpread: real := 0.001

  /** Where the last value of `etf - ratio * fut` lies against the window's mean plus or minus one
      standard deviation. */
  datatype Signal = Above | Below | Inside

  /** `calculate_hedge_ratio` returns a ratio (rather than None) exactly when both windows are full enough. */
  predicate HedgeRatioAvailable(etfPrices: seq<int>, futPrices: seq<int>): (ok: bool)
    ensures ok ==> |etfPrices| > 0 && |futPrices| > 0
  {
    |etfPrices| >= Lookback && |futPrices| >= Lookback
  }

  /** The candidate (bid, ask) for a signal: the conservative spread on the ask when the spread is
      stretched above, on the bid when stretched below, the normal spread on both otherwise. */
  function Candidates(mid: int, signal: Signal): (bidAsk: (int, int))
  {
    var m := mid as real;
    match signal
    case Above => (AdjustPrice(Scaled(m, 1.0 - NormalSpread)), AdjustPrice(Scaled(m, 1.0 + ConservativeSpread)))
    case Below => (AdjustPrice(Scaled(m, 1.0 - ConservativeSpread)), AdjustPrice(Scaled(m, 1.0 + NormalSpread)))
    case Inside => (AdjustPrice(Scaled(m, 1.0 - NormalSpread)), AdjustPrice(Scaled(m, 1.0 + NormalSpread)))
  }

  /** For a nonnegative mid the candidates straddle it, and a signal only ever widens one side against
      the neutral quote: the ask when the spread is above, the bid when it is below. */
  lemma CandidatesWiden(mid: int, signal: Signal)
    requires mid >= 0
    ensures var c := Candidates(mid, signal);
      var neutral := Candidates(mid, Inside);
      && c.0 <= mid < c.1 + TickSize
      && c.0 <= c.1
      && (signal == Above ==> c.0 == neutral.0 && c.1 >= neutral.1)
      && (signal == Below ==> c.0 <= neutral.0 && c.1 == neutral.1)
  {
    var m := mid as real;
    ScaledMonotone(m, 1.0 - ConservativeSpread, 1.0 - NormalSpread);
    ScaledMonotone(m, 1.0 - NormalSpread, 1.0);
    ScaledMonotone(m, 1.0, 1.0 + NormalSpread);
    ScaledMonotone(m, 1.0 + NormalSpread, 1.0 + ConservativeSpread);
    RoundedLadder(Scaled(m, 1.0 - ConservativeSpread), Scaled(m, 1.0 - NormalSpread), Scaled(m, 1.0),
                  Scaled(m, 1.0 + NormalSpread), Scaled(m, 1.0 + ConservativeSpread));
  }

  /** The second `adjust_price` applied to each candidate leaves it unchanged. */
  lemma ReadjustIsNoop(mid: int, signal: Signal)
    ensures var c := Candidates(mid, signal);
      AdjustPrice(c.0 as real) == c.0 && AdjustPrice(c.1 as real) == c.1
  {
    var c := Candidates(mid, signal);
    AdjustPriceOfTick(c.0);
    AdjustPriceOfTick(c.1);
  }

  /** The quoting state of one AutoTrader of this variant. */
  class Trader {
    const desk: Desk
    /** `etf_prices` and `fut_prices`, each a deque(maxlen=10) of mid prices. */
    var etfPrices: seq<int>
    var futPrices: seq<int>

    ghost predicate Valid()
      reads this, desk, desk.sendLimiter
    {
      desk.Valid() && |etfPrices| <= Window && |futPrices| <= Window
    }

    constructor (minimumBid: int, maximumAsk: int)
      ensures Valid() && fresh(desk) && fresh(desk.sendLimiter)
      ensures etfPrices == [] && futPrices == []
      ensures desk.Initialized()
      ensures desk.minBidTick == MinBidNearestTick(minimumBid) && desk.maxAskTick == MaxAskNearestTick(maximumAsk)
    {
      desk := new Desk(minimumBid, maximumAsk);
      etfPrices, futPrices := [], [];
      new;
      assert desk.Valid() && desk.Initialized();
    }

    /** `on_order_book_update_message` for the best bid and ask. `signal` is the comparison of the last
        regression spread with its mean and standard deviation, computed in floating point outside this
        model; it is consulted only when the update quotes. `nowBid` and `nowAsk` are the clock readings
        of the two sends. */
    method OnOrderBookUpdate(instrument: Instrument, bidTop: int, askTop: int, signal: Signal,
                             nowBid: real, nowAsk: real)
      requires Valid()
      modifies this, desk, desk.sendLimiter
      ensures Valid()
      ensures bidTop <= 0 && askTop <= 0 ==>
        etfPrices == old(etfPrices) && futPrices == old(futPrices) && desk.Snapshot() == old(desk.Snapshot())
        && desk.sendLimiter.accepted == old(desk.sendLimiter.accepted)
      ensures !(bidTop <= 0 && askTop <= 0) ==>
        var mid := FloorMid(bidTop, askTop);
        var c := Candidates(mid, signal);
        && etfPrices == (if instrument == Etf then Push(old(etfPrices), mid, Window) else old(etfPrices))
        && futPrices == (if instrument == Future then Push(old(futPrices), mid, Window) else old(futPrices))
        && desk.Snapshot() ==
             (if instrument == Future && HedgeRatioAvailable(etfPrices, futPrices)
              then QuoteStep(old(desk.Snapshot()), c.0, c.1, nowBid, nowAsk)
              else old(desk.Snapshot()))
        && ExtendsByTwo(old(desk.sendLimiter.accepted), desk.sendLimiter.accepted, nowBid, nowAsk)
    {
      if bidTop <= 0 && askTop <= 0 {
        return;
      }
      var mid := FloorMid(bidTop, askTop);
      if instrument == Etf {
        etfPrices := Push(etfPrices, mid, Window);
      } else {
        futPrices := Push(futPrices, mid, Window);
      }
      if instrument == Future && HedgeRatioAvailable(etfPrices, futPrices) && |etfPrices| > 0 && |futPrices| > 0 {
        var c := Candidates(mid, signal);
        ReadjustIsNoop(mid, signal);
        var newAsk := AdjustPrice(c.1 as real);
        var newBid := AdjustPrice(c.0 as real);
        desk.Quote(newBid, newAsk, nowBid, nowAsk);
      }
    }
  }
}
