/** The shared part of the AutoTrader object: fields updated in place, each handler proved to perform the
    step function of module Book on the object's snapshot. */
module Bookkeeping {
  import opened Common
  import opened Throttle
  import opened Book

  class Desk {
    const minBidTick: int
    const maxAskTick: int
    /** The limiter of `send_throttled`. */
    const sendLimiter: Throttler

    /** The next value `next(self.order_ids)` returns. */
    var nextId: int
    var bids: set<int>
    var asks: set<int>
    var bidq: seq<int>
    var askq: seq<int>
    var position: int
    var hedgeBalance: int
    var hedgeTime: Option<real>
    /** The gateway calls made so far, oldest first. */
    var outbox: seq<Action>

    function Snapshot(): BookState
      reads this, sendLimiter
    {
      BookState(nextId, bids, asks, bidq, askq, position, hedgeBalance, hedgeTime, sendLimiter.callTimes, outbox)
    }

    ghost predicate Valid()
      reads this, sendLimiter
    {
      sendLimiter.Valid() && Inv(Snapshot())
    }

    /** The state `__init__` sets up: ids from 1, no orders tracked or sent, a flat position and
        balance, no hedge timer, and a limiter that has seen no call. */
    ghost predicate Initialized()
      reads this, sendLimiter
    {
      && nextId == 1 && bids == {} && asks == {} && bidq == [] && askq == []
      && position == 0 && hedgeBalance == 0 && hedgeTime == None && outbox == []
      && sendLimiter.callTimes == [] && sendLimiter.accepted == []
    }

    /** A desk in its `__init__` state holds exactly `Book.Initial`, so its bookkeeping is consistent
        whenever the limiter's window is its history's last 47 times. */
    lemma InitializedIsInitial()
      requires Initialized()
      ensures Snapshot() == Initial()
      ensures sendLimiter.Valid() ==> Valid()
    {
    }

    constructor (minimumBid: int, maximumAsk: int)
      ensures Valid() && fresh(sendLimiter)
      ensures Initialized()
      ensures minBidTick == MinBidNearestTick(minimumBid) && maxAskTick == MaxAskNearestTick(maximumAsk)
    {
      minBidTick := MinBidNearestTick(minimumBid);
      maxAskTick := MaxAskNearestTick(maximumAsk);
      sendLimiter := new Throttler();
      nextId := 1;
      bids, asks := {}, {};
      bidq, askq := [], [];
      position, hedgeBalance := 0, 0;
      hedgeTime := None;
      outbox := [];
    }

    /** `send_throttled`: the limiter wrapper, then the body. */
    method SendThrottled(id: int, side: Side, price: int, volume: int, now: real)
      requires Valid() && FreshId(Snapshot(), id)
      modifies this, sendLimiter
      ensures Valid()
      ensures Snapshot() == SendStep(old(Snapshot()), id, side, price, volume, now)
      ensures sendLimiter.accepted ==
        old(sendLimiter.accepted) + (if Admits(old(sendLimiter.callTimes), now) then [now] else [])
    {
      var ok := sendLimiter.Admit(now);
      if ok {
        Enqueue(id, side, price, volume);
      }
    }

    /** The body of `send_throttled`, run once the limiter has admitted the call. */
    method Enqueue(id: int, side: Side, price: int, volume: int)
      requires Valid() && FreshId(Snapshot(), id)
      modifies this`bidq, this`bids, this`askq, this`asks, this`outbox
      ensures Valid()
      ensures Snapshot() == EnqueueStep(old(Snapshot()), id, side, price, volume)
    {
      EnqueueStepInv(Snapshot(), id, side, price, volume);
      if side == Buy {
        if |bidq| >= MaxQueue {
          return;
        }
        bidq := bidq + [id];
        bids := bids + {id};
      } else {
        if |askq| >= MaxQueue {
          return;
        }
        askq := askq + [id];
        asks := asks + {id};
      }
      outbox := outbox + [InsertOrder(id, side, price, volume)];
    }

    /** The eviction step for the bid side: pop the oldest queued id and cancel it at the gateway
        (directly, not through a limiter). The id stays in `bids`. */
    method EvictBid()
      requires Valid()
      modifies this`bidq, this`outbox
      ensures Valid()
      ensures Snapshot() == EvictBidStep(old(Snapshot()))
    {
      EvictStepsInv(Snapshot());
      if |bidq| >= MaxQueue {
        var bid := bidq[0];
        bidq := bidq[1..];
        outbox := outbox + [CancelOrder(bid)];
      }
    }

    method EvictAsk()
      requires Valid()
      modifies this`askq, this`outbox
      ensures Valid()
      ensures Snapshot() == EvictAskStep(old(Snapshot()))
    {
      EvictStepsInv(Snapshot());
      if |askq| >= MaxQueue {
        var ask := askq[0];
        askq := askq[1..];
        outbox := outbox + [CancelOrder(ask)];
      }
    }

    /** `next(self.order_ids)`. */
    method NextOrderId() returns (id: int)
      requires Valid()
      modifies this`nextId
      ensures Valid() && FreshId(Snapshot(), id)
      ensures id == old(nextId) && Snapshot() == old(Snapshot()).(nextId := id + 1)
    {
      ConsumeIdInv(Snapshot());
      id := nextId;
      nextId := nextId + 1;
    }

    method SubmitBid(price: int, remaining: int, now: real)
      requires Valid()
      modifies this, sendLimiter
      ensures Valid()
      ensures Snapshot() == SubmitBidStep(old(Snapshot()), price, remaining, now)
      ensures sendLimiter.accepted == old(sendLimiter.accepted) || sendLimiter.accepted == old(sendLimiter.accepted) + [now]
    {
      if price != 0 && remaining > 0 {
        ghost var s, times, history := Snapshot(), sendLimiter.callTimes, sendLimiter.accepted;
        var bidId := NextOrderId();
        assert sendLimiter.callTimes == times && sendLimiter.accepted == history;
        assert Snapshot() == s.(nextId := s.nextId + 1);
        SendThrottled(bidId, Buy, price, QuoteVolume(remaining), now);
      }
    }

    method SubmitAsk(price: int, remaining: int, now: real)
      requires Valid()
      modifies this, sendLimiter
      ensures Valid()
      ensures Snapshot() == SubmitAskStep(old(Snapshot()), price, remaining, now)
      ensures sendLimiter.accepted == old(sendLimiter.accepted) || sendLimiter.accepted == old(sendLimiter.accepted) + [now]
    {
      if price != 0 && remaining > 0 {
        ghost var s, times, history := Snapshot(), sendLimiter.callTimes, sendLimiter.accepted;
        var askId := NextOrderId();
        assert sendLimiter.callTimes == times && sendLimiter.accepted == history;
        assert Snapshot() == s.(nextId := s.nextId + 1);
        SendThrottled(askId, Sell, price, QuoteVolume(remaining), now);
      }
    }

    /** The integer part of the quoting cycle once the candidate prices are known. Each of the two sends
        reads the clock itself: the bid at `nowBid`, the ask at `nowAsk`. The limiter history grows by the
        times of the sends it admits, and by nothing else. */
    method Quote(bidPrice: int, askPrice: int, nowBid: real, nowAsk: real)
      requires Valid()
      modifies this, sendLimiter
      ensures Valid()
      ensures Snapshot() == QuoteStep(old(Snapshot()), bidPrice, askPrice, nowBid, nowAsk)
      ensures ExtendsByTwo(old(sendLimiter.accepted), sendLimiter.accepted, nowBid, nowAsk)
    {
      var remainingLong := RemainingLong(position, |bidq|);
      var remainingShort := RemainingShort(position, |askq|);
      ghost var history := sendLimiter.accepted;
      EvictBid();
      EvictAsk();
      SubmitBid(bidPrice, remainingLong, nowBid);
      ghost var afterBid := sendLimiter.accepted;
      SubmitAsk(askPrice, remainingShort, nowAsk);
      TwoCalls(history, afterBid, sendLimiter.accepted, nowBid, nowAsk);
    }

    /** `check_hedge`, at wall-clock `now`; re-arming the one-unit timer is the event loop's business. */
    method CheckHedge(now: real)
      requires Valid()
      modifies this
      ensures Valid()
      ensures Snapshot() == HedgeStep(old(Snapshot()), now, minBidTick, maxAskTick)
    {
      if hedgeTime.Some? && now - hedgeTime.value > HedgeTimeLimit
         && (hedgeBalance > HedgeBoundary || hedgeBalance < -HedgeBoundary)
      {
        Hedge(now);
      }
    }

    /** The body of `check_hedge` once it has decided to act: one aggressive hedge order for the excess
        over the boundary, the balance reset to the boundary and the timer cleared. */
    method Hedge(now: real)
      requires Valid() && HedgeDue(Snapshot(), now)
      modifies this
      ensures Valid()
      ensures Snapshot() == HedgeStep(old(Snapshot()), now, minBidTick, maxAskTick)
    {
      ghost var s := Snapshot();
      HedgeStepInv(s, now, minBidTick, maxAskTick);
      HedgeCorrection(s, now, minBidTick, maxAskTick);
      ghost var r := HedgeStep(s, now, minBidTick, maxAskTick);
      var id := nextId;
      nextId := nextId + 1;
      var volume := Abs(hedgeBalance) - HedgeBoundary;
      if hedgeBalance > 0 {
        outbox := outbox + [HedgeOrder(id, Buy, maxAskTick, volume)];
        hedgeBalance := HedgeBoundary;
      } else {
        outbox := outbox + [HedgeOrder(id, Sell, minBidTick, volume)];
        hedgeBalance := -HedgeBoundary;
      }
      hedgeTime := None;
      assert nextId == r.nextId && outbox == r.outbox && hedgeBalance == r.hedgeBalance && hedgeTime == r.hedgeTime;
    }

    /** `on_order_filled_message`, at wall-clock `now`. */
    method OnOrderFilled(clientOrderId: int, price: int, volume: int, now: real)
      requires Valid()
      modifies this
      ensures Valid()
      ensures Snapshot() == FillStep(old(Snapshot()), clientOrderId, volume, now)
    {
      ghost var s := Snapshot();
      FillStepInv(s, clientOrderId, volume, now);
      FillAttribution(s, clientOrderId, volume, now);
      ghost var r := FillStep(s, clientOrderId, volume, now);
      var pre := hedgeBalance;
      if clientOrderId in bids || clientOrderId in bidq {
        position := position + volume;
        hedgeBalance := hedgeBalance - volume;
      } else if clientOrderId in asks || clientOrderId in askq {
        position := position - volume;
        hedgeBalance := hedgeBalance + volume;
      }
      if -HedgeBoundary <= hedgeBalance <= HedgeBoundary {
        hedgeTime := None;
      } else if (pre > 0 && hedgeBalance < 0) || (pre < 0 && hedgeBalance > 0) {
        hedgeTime := Some(now);
      } else if (hedgeBalance > HedgeBoundary || hedgeBalance < -HedgeBoundary) && hedgeTime.None? {
        hedgeTime := Some(now);
      }
      assert position == r.position && hedgeBalance == r.hedgeBalance && hedgeTime == r.hedgeTime;
    }

    /** `on_order_status_message`. */
    method OnOrderStatus(clientOrderId: int, fillVolume: int, remainingVolume: int, fees: int)
      requires Valid()
      modifies this`bids, this`bidq, this`asks, this`askq
      ensures Valid()
      ensures Snapshot() == StatusStep(old(Snapshot()), clientOrderId, remainingVolume)
    {
      if remainingVolume == 0 {
        if clientOrderId in bids || clientOrderId in bidq {
          DiscardBid(clientOrderId);
        } else if clientOrderId in asks || clientOrderId in askq {
          DiscardAsk(clientOrderId);
        }
      }
    }

    /** The bid branch of a completion: `bids.discard` and `bidq.remove` of the id. */
    method DiscardBid(clientOrderId: int)
      requires Valid() && (clientOrderId in bids || clientOrderId in bidq)
      modifies this`bids, this`bidq
      ensures Valid()
      ensures Snapshot() == StatusStep(old(Snapshot()), clientOrderId, 0)
    {
      StatusStepInv(Snapshot(), clientOrderId, 0);
      bids := bids - {clientOrderId};
      bidq := Remove(bidq, clientOrderId);
    }

    /** The ask branch of a completion. */
    method DiscardAsk(clientOrderId: int)
      requires Valid() && clientOrderId !in bids && clientOrderId !in bidq
      requires clientOrderId in asks || clientOrderId in askq
      modifies this`asks, this`askq
      ensures Valid()
      ensures Snapshot() == StatusStep(old(Snapshot()), clientOrderId, 0)
    {
      StatusStepInv(Snapshot(), clientOrderId, 0);
      asks := asks - {clientOrderId};
      askq := Remove(askq, clientOrderId);
    }

    /** `on_error_message` (the warning it logs is not modelled). */
    method OnError(clientOrderId: int)
      requires Valid()
      modifies this
      ensures Valid()
      ensures Snapshot() == ErrorStep(old(Snapshot()), clientOrderId)
    {
      if clientOrderId != 0 && (clientOrderId in bids || clientOrderId in asks) {
        OnOrderStatus(clientOrderId, 0, 0, 0);
      }
    }
  }
}
