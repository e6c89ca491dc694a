/** The bookkeeping both AutoTrader variants share, word for word: the order-id counter, the bid and
    ask queues and sets, exposure capping and eviction of the quoting cycle, `send_throttled`, fill
    attribution with the hedge timer, `check_hedge`, and completion and error cleanup.
    Gateway calls are recorded, in order, in `outbox`. */
module Book {
  import opened Common
  import opened Throttle

  predicate Increasing(q: seq<int>)
  {
    forall i, j :: 0 <= i < j < |q| ==> q[i] < q[j]
  }

  /** Buy room left under the position limit, counting every queued bid as a full lot. */
  function RemainingLong(position: int, queued: nat): (r: int)
    ensures r >= 0
    ensures r > 0 <==> position + queued * LotSize < PositionLimit
    ensures r > 0 ==> position + queued * LotSize + r == PositionLimit
  {
    if PositionLimit - position - queued * LotSize > 0 then PositionLimit - position - queued * LotSize else 0
  }

  /** Sell room left under the position limit, counting every queued ask as a full lot. */
  function RemainingShort(position: int, queued: nat): (r: int)
    ensures r >= 0
    ensures r > 0 <==> -position + queued * LotSize < PositionLimit
    ensures r > 0 ==> -position + queued * LotSize + r == PositionLimit
  {
    if PositionLimit + position - queued * LotSize > 0 then PositionLimit + position - queued * LotSize else 0
  }

  /** `min(LOT_SIZE, remaining)`. */
  function QuoteVolume(remaining: int): (v: int)
    ensures v <= LotSize && v <= remaining
    ensures v == LotSize || v == remaining
  {
    Min(LotSize, remaining)
  }

  /** A bid that is quoted has a volume in (0, LOT_SIZE] that keeps position plus queued bids within the limit. */
  lemma BidWithinLimit(position: int, queued: nat)
    requires RemainingLong(position, queued) > 0
    ensures var v := QuoteVolume(RemainingLong(position, queued));
      0 < v <= LotSize && position + queued * LotSize + v <= PositionLimit
  {
  }

  /** The mirror for asks. */
  lemma AskWithinLimit(position: int, queued: nat)
    requires RemainingShort(position, queued) > 0
    ensures var v := QuoteVolume(RemainingShort(position, queued));
      0 < v <= LotSize && -position + queued * LotSize + v <= PositionLimit
  {
  }

  /** The queue after the quoting cycle's eviction step: its head is popped when it holds 4 or more. */
  function Evict(q: seq<int>): (r: seq<int>)
    ensures |q| <= MaxQueue ==> |r| < MaxQueue
    ensures |q| < MaxQueue ==> r == q
    ensures |q| >= MaxQueue ==> [q[0]] + r == q
  {
    if |q| >= MaxQueue then q[1..] else q
  }

  /** The cancel the eviction step sends, if any: exactly one, for the id Evict drops, which on a queue
      of increasing ids is the oldest one. */
  function EvictCancels(q: seq<int>): (a: seq<Action>)
    ensures |q| >= MaxQueue ==> a == [CancelOrder(q[0])] && q == [q[0]] + Evict(q)
    ensures |q| < MaxQueue ==> a == [] && Evict(q) == q
  {
    if |q| >= MaxQueue then [CancelOrder(q[0])] else []
  }

  /** Ids only grow, so the evicted head is the oldest and smallest id of the queue. */
  lemma EvictOldest(q: seq<int>)
    requires Increasing(q) && |q| >= MaxQueue
    ensures Increasing(Evict(q))
    ensures forall x :: x in Evict(q) ==> q[0] < x
    ensures q[0] !in Evict(q)
  {
    forall x | x in Evict(q) ensures q[0] < x {
      var k :| 0 <= k < |Evict(q)| && Evict(q)[k] == x;
      assert x == q[k + 1];
    }
  }

  /** `deque.remove(x)` under `try/except ValueError: pass`: drops the first occurrence, if any. */
  function Remove(q: seq<int>, x: int): (r: seq<int>)
    ensures multiset(r) == multiset(q) - multiset{x}
    ensures x !in q ==> r == q
  {
    if q == [] then []
    else if q[0] == x then assert q == [q[0]] + q[1..]; q[1..]
    else assert q == [q[0]] + q[1..]; [q[0]] + Remove(q[1..], x)
  }

  /** Removing from a queue of distinct, increasing ids keeps it increasing and drops exactly `x`. */
  lemma IncreasingTail(q: seq<int>)
    requires Increasing(q) && q != []
    ensures Increasing(q[1..])
    ensures forall y :: y in q[1..] ==> q[0] < y
  {
    forall y | y in q[1..] ensures q[0] < y {
      var k :| 0 <= k < |q[1..]| && q[1..][k] == y;
      assert y == q[k + 1];
    }
  }

  lemma {:induction false} RemoveIncreasing(q: seq<int>, x: int)
    requires Increasing(q)
    ensures Increasing(Remove(q, x))
    ensures forall y :: y in Remove(q, x) <==> y in q && y != x
  {
    if q == [] {
      return;
    }
    var t := q[1..];
    assert q == [q[0]] + t;
    IncreasingTail(q);
    if q[0] != x {
      RemoveIncreasing(t, x);
      var rt := Remove(t, x);
      assert Remove(q, x) == [q[0]] + rt;
      HeadBelow(q[0], rt);
    }
  }

  /** Prefixing an id below every element keeps a queue increasing. */
  lemma HeadBelow(h: int, q: seq<int>)
    requires Increasing(q) && forall y :: y in q ==> h < y
    ensures Increasing([h] + q)
  {
    var r := [h] + q;
    forall i, j | 0 <= i < j < |r| ensures r[i] < r[j] {
      assert r[j] == q[j - 1] && q[j - 1] in q;
      if i > 0 {
        assert r[i] == q[i - 1];
      }
    }
  }

  lemma IncreasingAppend(q: seq<int>, id: int)
    requires Increasing(q) && forall x :: x in q ==> x < id
    ensures Increasing(q + [id])
  {
    forall i, j | 0 <= i < j < |q| + 1 ensures (q + [id])[i] < (q + [id])[j] {
      if j == |q| {
        assert q[i] in q;
      }
    }
  }

  /** What a hedge order adds to the net hedged volume: a buy counts positively, a sell negatively. */
  function Hedged(a: Action): int
  {
    match a
    case HedgeOrder(_, side, _, volume) => if side == Buy then volume else -volume
    case _ => 0
  }

  /** Net volume bought through hedge orders among the recorded gateway calls. */
  function HedgeNet(actions: seq<Action>): int
  {
    if actions == [] then 0 else HedgeNet(actions[..|actions| - 1]) + Hedged(actions[|actions| - 1])
  }

  lemma {:induction false} HedgeNetAppend(a: seq<Action>, b: seq<Action>)
    ensures HedgeNet(a + b) == HedgeNet(a) + HedgeNet(b)
  {
    if b != [] {
      var b' := b[..|b| - 1];
      assert (a + b)[..|a + b| - 1] == a + b';
      HedgeNetAppend(a, b');
    } else {
      assert a + b == a;
    }
  }

  lemma {:induction false} HedgeNetNoHedges(a: seq<Action>)
    requires forall k :: 0 <= k < |a| ==> !a[k].HedgeOrder?
    ensures HedgeNet(a) == 0
  {
    if a != [] {
      HedgeNetNoHedges(a[..|a| - 1]);
    }
  }

  predicate SignFlip(pre: int, post: int)
  {
    (pre > 0 && post < 0) || (pre < 0 && post > 0)
  }

  /** The hedge timer after a fill moved the hedge balance from `pre` to `post` at wall-clock `now`. */
  function TimerAfterFill(pre: int, post: int, timer: Option<real>, now: real): (r: Option<real>)
    ensures r.Some? <==> Abs(post) > HedgeBoundary
    ensures r != timer ==> r == None || r == Some(now)
    ensures Abs(post) > HedgeBoundary && SignFlip(pre, post) ==> r == Some(now)
    ensures Abs(post) > HedgeBoundary && !SignFlip(pre, post) && timer.Some? ==> r == timer
  {
    if -HedgeBoundary <= post <= HedgeBoundary then None
    else if SignFlip(pre, post) then Some(now)
    else if (post > HedgeBoundary || post < -HedgeBoundary) && timer.None? then Some(now)
    else timer
  }

  /** MIN_BID_NEAREST_TICK: the first tick strictly above the exchange's minimum bid. */
  function MinBidNearestTick(minimumBid: int): (r: int)
    ensures r % TickSize == 0 && minimumBid < r <= minimumBid + TickSize
  {
    (minimumBid + TickSize) / TickSize * TickSize
  }

  /** MAX_ASK_NEAREST_TICK: the last tick not above the exchange's maximum ask. */
  function MaxAskNearestTick(maximumAsk: int): (r: int)
    ensures r % TickSize == 0 && r <= maximumAsk < r + TickSize
  {
    maximumAsk / TickSize * TickSize
  }

  /** The integer state of one AutoTrader that both variants share, including the send limiter's window. */
  datatype BookState = BookState(
    nextId: int,
    bids: set<int>, asks: set<int>,
    bidq: seq<int>, askq: seq<int>,
    position: int, hedgeBalance: int, hedgeTime: Option<real>,
    window: seq<real>,
    outbox: seq<Action>)

  /** Queue and set bookkeeping: bounded increasing queues mirrored in disjoint sets of handed-out ids. */
  ghost predicate IdsInv(nextId: int, bids: set<int>, asks: set<int>, bidq: seq<int>, askq: seq<int>)
  {
    && nextId >= 1
    && |bidq| <= MaxQueue && |askq| <= MaxQueue
    && Increasing(bidq) && Increasing(askq)
    && (forall x :: x in bidq ==> x in bids)
    && (forall x :: x in askq ==> x in asks)
    && bids !! asks
    && (forall x :: x in bids ==> 0 < x < nextId)
    && (forall x :: x in asks ==> 0 < x < nextId)
  }

  /** The hedge timer runs exactly while the balance is outside the boundary, and the balance is the
      part of the position not yet offset by hedge orders. */
  ghost predicate HedgeInv(position: int, hedgeBalance: int, hedgeTime: Option<real>, outbox: seq<Action>)
  {
    && (hedgeTime.Some? <==> Abs(hedgeBalance) > HedgeBoundary)
    && position + hedgeBalance + HedgeNet(outbox) == 0
  }

  /** What every reachable state satisfies. */
  ghost predicate Inv(s: BookState)
  {
    && |s.window| <= MaxCalls
    && IdsInv(s.nextId, s.bids, s.asks, s.bidq, s.askq)
    && HedgeInv(s.position, s.hedgeBalance, s.hedgeTime, s.outbox)
  }

  /** Gateway calls other than hedge orders do not move the hedged volume. */
  lemma HedgeInvAppend(position: int, hedgeBalance: int, hedgeTime: Option<real>, outbox: seq<Action>, more: seq<Action>)
    requires HedgeInv(position, hedgeBalance, hedgeTime, outbox)
    requires forall k :: 0 <= k < |more| ==> !more[k].HedgeOrder?
    ensures HedgeInv(position, hedgeBalance, hedgeTime, outbox + more)
  {
    HedgeNetAppend(outbox, more);
    HedgeNetNoHedges(more);
  }

  lemma IdsInvAddBid(nextId: int, bids: set<int>, asks: set<int>, bidq: seq<int>, askq: seq<int>, id: int)
    requires IdsInv(nextId, bids, asks, bidq, askq) && |bidq| < MaxQueue
    requires 0 < id < nextId && (forall x :: x in bids ==> x < id) && (forall x :: x in asks ==> x < id)
    ensures IdsInv(nextId, bids + {id}, asks, bidq + [id], askq)
  {
    IncreasingAppend(bidq, id);
  }

  lemma IdsInvAddAsk(nextId: int, bids: set<int>, asks: set<int>, bidq: seq<int>, askq: seq<int>, id: int)
    requires IdsInv(nextId, bids, asks, bidq, askq) && |askq| < MaxQueue
    requires 0 < id < nextId && (forall x :: x in bids ==> x < id) && (forall x :: x in asks ==> x < id)
    ensures IdsInv(nextId, bids, asks + {id}, bidq, askq + [id])
  {
    IncreasingAppend(askq, id);
  }

  /** The state `__init__` sets up: `itertools.count(1)`, empty sets and queues, flat position, no timer. */
  function Initial(): (s: BookState)
    ensures Inv(s)
  {
    BookState(1, {}, {}, [], [], 0, 0, None, [], [])
  }

  /** `id` is above every id either side holds and was already handed out by the counter. */
  ghost predicate FreshId(s: BookState, id: int)
  {
    0 < id < s.nextId && (forall x :: x in s.bids ==> x < id) && (forall x :: x in s.asks ==> x < id)
  }

  /** The body of `send_throttled`: unless the side's queue is full, queue the id, record it in the
      side's set and insert the order. */
  function EnqueueStep(s: BookState, id: int, side: Side, price: int, volume: int): (r: BookState)
    ensures r.window == s.window && r.nextId == s.nextId && r.position == s.position
    ensures r.hedgeBalance == s.hedgeBalance && r.hedgeTime == s.hedgeTime
  {
    if side == Buy then
      if |s.bidq| >= MaxQueue then s
      else s.(bidq := s.bidq + [id], bids := s.bids + {id}, outbox := s.outbox + [InsertOrder(id, side, price, volume)])
    else
      if |s.askq| >= MaxQueue then s
      else s.(askq := s.askq + [id], asks := s.asks + {id}, outbox := s.outbox + [InsertOrder(id, side, price, volume)])
  }

  lemma EnqueueStepInv(s: BookState, id: int, side: Side, price: int, volume: int)
    requires Inv(s) && FreshId(s, id)
    ensures Inv(EnqueueStep(s, id, side, price, volume))
  {
    if side == Buy && |s.bidq| < MaxQueue {
      IdsInvAddBid(s.nextId, s.bids, s.asks, s.bidq, s.askq, id);
      HedgeInvAppend(s.position, s.hedgeBalance, s.hedgeTime, s.outbox, [InsertOrder(id, side, price, volume)]);
    } else if side == Sell && |s.askq| < MaxQueue {
      IdsInvAddAsk(s.nextId, s.bids, s.asks, s.bidq, s.askq, id);
      HedgeInvAppend(s.position, s.hedgeBalance, s.hedgeTime, s.outbox, [InsertOrder(id, side, price, volume)]);
    }
  }

  /** `send_throttled`: the limiter records an admitted call first, then the body runs; a refused call
      changes nothing else. */
  function SendStep(s: BookState, id: int, side: Side, price: int, volume: int, now: real): (r: BookState)
    requires |s.window| <= MaxCalls
    ensures r.window == After(s.window, now)
    ensures r.nextId == s.nextId && r.position == s.position
    ensures r.hedgeBalance == s.hedgeBalance && r.hedgeTime == s.hedgeTime
  {
    var s1 := s.(window := After(s.window, now));
    if Admits(s.window, now) then EnqueueStep(s1, id, side, price, volume) else s1
  }

  lemma SendStepInv(s: BookState, id: int, side: Side, price: int, volume: int, now: real)
    requires Inv(s) && FreshId(s, id)
    ensures Inv(SendStep(s, id, side, price, volume, now))
  {
    var s1 := s.(window := After(s.window, now));
    assert Inv(s1) && FreshId(s1, id);
    EnqueueStepInv(s1, id, side, price, volume);
  }

  /** A send makes at most one gateway call, the insert of this id; it is made exactly when the limiter
      admits the call and the side's queue has room, and the id is tracked (queued last and recorded in
      its side's set) exactly when the insert is made. */
  lemma SendTracksInsert(s: BookState, id: int, side: Side, price: int, volume: int, now: real)
    requires |s.window| <= MaxCalls && FreshId(s, id)
    ensures var r := SendStep(s, id, side, price, volume, now);
      var queue := if side == Buy then s.bidq else s.askq;
      && (r.outbox == s.outbox || r.outbox == s.outbox + [InsertOrder(id, side, price, volume)])
      && (r.outbox != s.outbox <==> Admits(s.window, now) && |queue| < MaxQueue)
      && ((id in r.bids || id in r.asks) <==> r.outbox != s.outbox)
      && (id in r.bids ==> side == Buy && r.bidq == s.bidq + [id] && r.askq == s.askq)
      && (id in r.asks ==> side == Sell && r.askq == s.askq + [id] && r.bidq == s.bidq)
      && (r.outbox == s.outbox ==> r == s.(window := After(s.window, now)))
  {
    var r := SendStep(s, id, side, price, volume, now);
    if r.outbox != s.outbox {
      assert |r.outbox| == |s.outbox| + 1;
    }
  }

  /** The eviction step of the quoting cycle for the bid side. */
  function EvictBidStep(s: BookState): (r: BookState)
  {
    s.(bidq := Evict(s.bidq), outbox := s.outbox + EvictCancels(s.bidq))
  }

  function EvictAskStep(s: BookState): (r: BookState)
  {
    s.(askq := Evict(s.askq), outbox := s.outbox + EvictCancels(s.askq))
  }

  lemma EvictStepsInv(s: BookState)
    requires Inv(s)
    ensures Inv(EvictBidStep(s)) && Inv(EvictAskStep(s))
    ensures |EvictBidStep(s).bidq| < MaxQueue && |EvictAskStep(s).askq| < MaxQueue
  {
    HedgeInvAppend(s.position, s.hedgeBalance, s.hedgeTime, s.outbox, EvictCancels(s.bidq));
    HedgeInvAppend(s.position, s.hedgeBalance, s.hedgeTime, s.outbox, EvictCancels(s.askq));
    if |s.bidq| >= MaxQueue {
      EvictOldest(s.bidq);
    }
    if |s.askq| >= MaxQueue {
      EvictOldest(s.askq);
    }
  }

  /** Submitting a bid: only with a nonzero price and room left, consuming one id first. */
  function SubmitBidStep(s: BookState, price: int, remaining: int, now: real): (r: BookState)
    requires |s.window| <= MaxCalls
  {
    if price != 0 && remaining > 0
    then SendStep(s.(nextId := s.nextId + 1), s.nextId, Buy, price, QuoteVolume(remaining), now)
    else s
  }

  function SubmitAskStep(s: BookState, price: int, remaining: int, now: real): (r: BookState)
    requires |s.window| <= MaxCalls
  {
    if price != 0 && remaining > 0
    then SendStep(s.(nextId := s.nextId + 1), s.nextId, Sell, price, QuoteVolume(remaining), now)
    else s
  }

  /** Handing out the next id keeps the bookkeeping, and the id handed out is fresh. */
  lemma ConsumeIdInv(s: BookState)
    requires Inv(s)
    ensures Inv(s.(nextId := s.nextId + 1)) && FreshId(s.(nextId := s.nextId + 1), s.nextId)
  {
    var s1 := s.(nextId := s.nextId + 1);
    assert IdsInv(s1.nextId, s1.bids, s1.asks, s1.bidq, s1.askq);
  }

  lemma SubmitBidStepInv(s: BookState, price: int, remaining: int, now: real)
    requires Inv(s)
    ensures Inv(SubmitBidStep(s, price, remaining, now))
  {
    if price != 0 && remaining > 0 {
      ConsumeIdInv(s);
      SendStepInv(s.(nextId := s.nextId + 1), s.nextId, Buy, price, QuoteVolume(remaining), now);
    }
  }

  lemma SubmitAskStepInv(s: BookState, price: int, remaining: int, now: real)
    requires Inv(s)
    ensures Inv(SubmitAskStep(s, price, remaining, now))
  {
    if price != 0 && remaining > 0 {
      ConsumeIdInv(s);
      SendStepInv(s.(nextId := s.nextId + 1), s.nextId, Sell, price, QuoteVolume(remaining), now);
    }
  }

  /** A bid submission with room in the queue: sent exactly when quoted and admitted by the limiter. */
  lemma SubmitBidEffect(s: BookState, price: int, remaining: int, now: real)
    requires |s.window| <= MaxCalls && |s.bidq| < MaxQueue
    ensures var r := SubmitBidStep(s, price, remaining, now);
      var quote := price != 0 && remaining > 0;
      var sent := quote && Admits(s.window, now);
      && r.window == (if quote then After(s.window, now) else s.window)
      && r.nextId == (if quote then s.nextId + 1 else s.nextId)
      && r.bidq == s.bidq + (if sent then [s.nextId] else [])
      && r.bids == (if sent then s.bids + {s.nextId} else s.bids)
      && r.askq == s.askq && r.asks == s.asks
      && r.outbox == s.outbox + (if sent then [InsertOrder(s.nextId, Buy, price, QuoteVolume(remaining))] else [])
      && r.position == s.position && r.hedgeBalance == s.hedgeBalance && r.hedgeTime == s.hedgeTime
  {
  }

  lemma SubmitAskEffect(s: BookState, price: int, remaining: int, now: real)
    requires |s.window| <= MaxCalls && |s.askq| < MaxQueue
    ensures var r := SubmitAskStep(s, price, remaining, now);
      var quote := price != 0 && remaining > 0;
      var sent := quote && Admits(s.window, now);
      && r.window == (if quote then After(s.window, now) else s.window)
      && r.nextId == (if quote then s.nextId + 1 else s.nextId)
      && r.askq == s.askq + (if sent then [s.nextId] else [])
      && r.asks == (if sent then s.asks + {s.nextId} else s.asks)
      && r.bidq == s.bidq && r.bids == s.bids
      && r.outbox == s.outbox + (if sent then [InsertOrder(s.nextId, Sell, price, QuoteVolume(remaining))] else [])
      && r.position == s.position && r.hedgeBalance == s.hedgeBalance && r.hedgeTime == s.hedgeTime
  {
  }

  /** The integer part of a quoting cycle once the candidate prices are known: exposure from the queue
      lengths before eviction, eviction of both sides, then the bid and the ask. */
  function QuoteStep(s: BookState, bidPrice: int, askPrice: int, nowBid: real, nowAsk: real): (r: BookState)
    requires |s.window| <= MaxCalls
  {
    var remainingLong := RemainingLong(s.position, |s.bidq|);
    var remainingShort := RemainingShort(s.position, |s.askq|);
    var s1 := EvictAskStep(EvictBidStep(s));
    var s2 := SubmitBidStep(s1, bidPrice, remainingLong, nowBid);
    SubmitAskStep(s2, askPrice, remainingShort, nowAsk)
  }

  lemma QuoteStepInv(s: BookState, bidPrice: int, askPrice: int, nowBid: real, nowAsk: real)
    requires Inv(s)
    ensures Inv(QuoteStep(s, bidPrice, askPrice, nowBid, nowAsk))
  {
    var s0 := EvictBidStep(s);
    EvictStepsInv(s);
    EvictStepsInv(s0);
    var s1 := EvictAskStep(s0);
    SubmitBidStepInv(s1, bidPrice, RemainingLong(s.position, |s.bidq|), nowBid);
    SubmitAskStepInv(SubmitBidStep(s1, bidPrice, RemainingLong(s.position, |s.bidq|), nowBid), askPrice,
                     RemainingShort(s.position, |s.askq|), nowAsk);
  }

  /** Whether the cycle quotes a bid: a nonzero price and buy room before eviction. */
  predicate BidQuoted(s: BookState, bidPrice: int)
  {
    bidPrice != 0 && RemainingLong(s.position, |s.bidq|) > 0
  }

  predicate AskQuoted(s: BookState, askPrice: int)
  {
    askPrice != 0 && RemainingShort(s.position, |s.askq|) > 0
  }

  /** The limiter window the ask is judged against: the bid's call, if one was made, comes first. */
  function BidWindow(s: BookState, bidPrice: int, nowBid: real): seq<real>
    requires |s.window| <= MaxCalls
  {
    if BidQuoted(s, bidPrice) then After(s.window, nowBid) else s.window
  }

  /** The id the ask draws: the bid, if quoted, draws the one before it. */
  function AskId(s: BookState, bidPrice: int): int
  {
    if BidQuoted(s, bidPrice) then s.nextId + 1 else s.nextId
  }

  predicate BidSent(s: BookState, bidPrice: int, nowBid: real)
  {
    BidQuoted(s, bidPrice) && Admits(s.window, nowBid)
  }

  predicate AskSent(s: BookState, bidPrice: int, askPrice: int, nowBid: real, nowAsk: real)
    requires |s.window| <= MaxCalls
  {
    AskQuoted(s, askPrice) && Admits(BidWindow(s, bidPrice, nowBid), nowAsk)
  }

  /** The state after both eviction steps of a cycle: each queue loses its head when full and each
      cancel is recorded; nothing else moves. */
  lemma EvictedStage(s: BookState)
    requires |s.bidq| <= MaxQueue && |s.askq| <= MaxQueue
    ensures var s1 := EvictAskStep(EvictBidStep(s));
      && s1.bidq == Evict(s.bidq) && s1.askq == Evict(s.askq)
      && |s1.bidq| < MaxQueue && |s1.askq| < MaxQueue
      && s1.outbox == s.outbox + EvictCancels(s.bidq) + EvictCancels(s.askq)
      && s1.bids == s.bids && s1.asks == s.asks && s1.nextId == s.nextId && s1.window == s.window
      && s1.position == s.position && s1.hedgeBalance == s.hedgeBalance && s1.hedgeTime == s.hedgeTime
  {
  }

  /** The state after the bid of a cycle: the bid queue and set gain the drawn id exactly when the bid
      is sent, and the ask side is as eviction left it. */
  lemma BidStage(s: BookState, bidPrice: int, nowBid: real)
    requires |s.window| <= MaxCalls && |s.bidq| <= MaxQueue && |s.askq| <= MaxQueue
    ensures var s2 := SubmitBidStep(EvictAskStep(EvictBidStep(s)), bidPrice, RemainingLong(s.position, |s.bidq|), nowBid);
      var sent := BidSent(s, bidPrice, nowBid);
      && s2.window == BidWindow(s, bidPrice, nowBid) && s2.nextId == AskId(s, bidPrice)
      && s2.bidq == Evict(s.bidq) + (if sent then [s.nextId] else [])
      && s2.bids == (if sent then s.bids + {s.nextId} else s.bids)
      && s2.askq == Evict(s.askq) && s2.asks == s.asks && |s2.askq| < MaxQueue
      && s2.outbox == s.outbox + EvictCancels(s.bidq) + EvictCancels(s.askq)
           + (if sent then [InsertOrder(s.nextId, Buy, bidPrice, QuoteVolume(RemainingLong(s.position, |s.bidq|)))] else [])
      && s2.position == s.position && s2.hedgeBalance == s.hedgeBalance && s2.hedgeTime == s.hedgeTime
  {
    EvictedStage(s);
    SubmitBidEffect(EvictAskStep(EvictBidStep(s)), bidPrice, RemainingLong(s.position, |s.bidq|), nowBid);
  }

  /** The queues and sets after a cycle: each side loses its evicted head, and gains the new id exactly
      when its order is sent. */
  lemma QuoteStepQueues(s: BookState, bidPrice: int, askPrice: int, nowBid: real, nowAsk: real)
    requires |s.window| <= MaxCalls && |s.bidq| <= MaxQueue && |s.askq| <= MaxQueue
    ensures var r := QuoteStep(s, bidPrice, askPrice, nowBid, nowAsk);
      var bidSent := BidSent(s, bidPrice, nowBid);
      var askSent := AskSent(s, bidPrice, askPrice, nowBid, nowAsk);
      && r.bidq == Evict(s.bidq) + (if bidSent then [s.nextId] else [])
      && r.askq == Evict(s.askq) + (if askSent then [AskId(s, bidPrice)] else [])
      && r.bids == (if bidSent then s.bids + {s.nextId} else s.bids)
      && r.asks == (if askSent then s.asks + {AskId(s, bidPrice)} else s.asks)
  {
    BidStage(s, bidPrice, nowBid);
    var s2 := SubmitBidStep(EvictAskStep(EvictBidStep(s)), bidPrice, RemainingLong(s.position, |s.bidq|), nowBid);
    SubmitAskEffect(s2, askPrice, RemainingShort(s.position, |s.askq|), nowAsk);
  }

  /** The limiter window and the id counter after a cycle; the position and hedge state are untouched. */
  lemma QuoteStepCounters(s: BookState, bidPrice: int, askPrice: int, nowBid: real, nowAsk: real)
    requires |s.window| <= MaxCalls && |s.bidq| <= MaxQueue && |s.askq| <= MaxQueue
    ensures var r := QuoteStep(s, bidPrice, askPrice, nowBid, nowAsk);
      var w1 := BidWindow(s, bidPrice, nowBid);
      && r.window == (if AskQuoted(s, askPrice) then After(w1, nowAsk) else w1)
      && r.nextId == (if AskQuoted(s, askPrice) then AskId(s, bidPrice) + 1 else AskId(s, bidPrice))
      && r.position == s.position && r.hedgeBalance == s.hedgeBalance && r.hedgeTime == s.hedgeTime
  {
    BidStage(s, bidPrice, nowBid);
    var s2 := SubmitBidStep(EvictAskStep(EvictBidStep(s)), bidPrice, RemainingLong(s.position, |s.bidq|), nowBid);
    SubmitAskEffect(s2, askPrice, RemainingShort(s.position, |s.askq|), nowAsk);
  }

  /** The gateway calls of a cycle: the cancels of evicted heads, then the bid, then the ask, each sent
      exactly when quoted and admitted. */
  lemma QuoteStepOutbox(s: BookState, bidPrice: int, askPrice: int, nowBid: real, nowAsk: real)
    requires |s.window| <= MaxCalls && |s.bidq| <= MaxQueue && |s.askq| <= MaxQueue
    ensures var r := QuoteStep(s, bidPrice, askPrice, nowBid, nowAsk);
      r.outbox == s.outbox + EvictCancels(s.bidq) + EvictCancels(s.askq)
        + (if BidSent(s, bidPrice, nowBid)
           then [InsertOrder(s.nextId, Buy, bidPrice, QuoteVolume(RemainingLong(s.position, |s.bidq|)))] else [])
        + (if AskSent(s, bidPrice, askPrice, nowBid, nowAsk)
           then [InsertOrder(AskId(s, bidPrice), Sell, askPrice, QuoteVolume(RemainingShort(s.position, |s.askq|)))]
           else [])
  {
    BidStage(s, bidPrice, nowBid);
    var s2 := SubmitBidStep(EvictAskStep(EvictBidStep(s)), bidPrice, RemainingLong(s.position, |s.bidq|), nowBid);
    SubmitAskEffect(s2, askPrice, RemainingShort(s.position, |s.askq|), nowAsk);
  }

  /** The whole effect of a quoting cycle. Because eviction runs first, `send_throttled` always finds
      room in the queue: a quoted side is sent exactly when the limiter admits it. */
  lemma QuoteStepEffect(s: BookState, bidPrice: int, askPrice: int, nowBid: real, nowAsk: real)
    requires |s.window| <= MaxCalls && |s.bidq| <= MaxQueue && |s.askq| <= MaxQueue
    ensures var r := QuoteStep(s, bidPrice, askPrice, nowBid, nowAsk);
      var remLong := RemainingLong(s.position, |s.bidq|);
      var remShort := RemainingShort(s.position, |s.askq|);
      var askId := AskId(s, bidPrice);
      var w1 := BidWindow(s, bidPrice, nowBid);
      var bidSent := BidSent(s, bidPrice, nowBid);
      var askSent := AskSent(s, bidPrice, askPrice, nowBid, nowAsk);
      && r.window == (if AskQuoted(s, askPrice) then After(w1, nowAsk) else w1)
      && r.nextId == (if AskQuoted(s, askPrice) then askId + 1 else askId)
      && r.bidq == Evict(s.bidq) + (if bidSent then [s.nextId] else [])
      && r.askq == Evict(s.askq) + (if askSent then [askId] else [])
      && r.bids == (if bidSent then s.bids + {s.nextId} else s.bids)
      && r.asks == (if askSent then s.asks + {askId} else s.asks)
      && r.outbox == s.outbox + EvictCancels(s.bidq) + EvictCancels(s.askq)
                     + (if bidSent then [InsertOrder(s.nextId, Buy, bidPrice, QuoteVolume(remLong))] else [])
                     + (if askSent then [InsertOrder(askId, Sell, askPrice, QuoteVolume(remShort))] else [])
      && r.position == s.position && r.hedgeBalance == s.hedgeBalance && r.hedgeTime == s.hedgeTime
  {
    QuoteStepQueues(s, bidPrice, askPrice, nowBid, nowAsk);
    QuoteStepCounters(s, bidPrice, askPrice, nowBid, nowAsk);
    QuoteStepOutbox(s, bidPrice, askPrice, nowBid, nowAsk);
  }

  /** Every order a quoting cycle inserts has a volume in (0, LOT_SIZE] that keeps the position plus the
      queued orders of that side (counted before eviction, a full lot each) within the position limit. */
  lemma QuoteStepExposure(s: BookState, bidPrice: int, askPrice: int, nowBid: real, nowAsk: real)
    requires |s.window| <= MaxCalls && |s.bidq| <= MaxQueue && |s.askq| <= MaxQueue
    ensures var r := QuoteStep(s, bidPrice, askPrice, nowBid, nowAsk);
      WithinFrom(r.outbox, |s.outbox|, s.position, |s.bidq|, |s.askq|)
  {
    var n, p, nb, na := |s.outbox|, s.position, |s.bidq|, |s.askq|;
    var remLong := RemainingLong(p, nb);
    var remShort := RemainingShort(p, na);
    QuoteStepOutbox(s, bidPrice, askPrice, nowBid, nowAsk);
    var cancels := s.outbox + EvictCancels(s.bidq) + EvictCancels(s.askq);
    var bidPart := if BidSent(s, bidPrice, nowBid) then [InsertOrder(s.nextId, Buy, bidPrice, QuoteVolume(remLong))] else [];
    var askPart := if AskSent(s, bidPrice, askPrice, nowBid, nowAsk)
      then [InsertOrder(AskId(s, bidPrice), Sell, askPrice, QuoteVolume(remShort))] else [];
    assert QuoteStep(s, bidPrice, askPrice, nowBid, nowAsk).outbox == cancels + bidPart + askPart;
    WithinFromAppend(s.outbox, n, EvictCancels(s.bidq), p, nb, na);
    WithinFromAppend(s.outbox + EvictCancels(s.bidq), n, EvictCancels(s.askq), p, nb, na);
    if remLong > 0 {
      BidWithinLimit(p, nb);
    }
    WithinFromAppend(cancels, n, bidPart, p, nb, na);
    if remShort > 0 {
      AskWithinLimit(p, na);
    }
    WithinFromAppend(cancels + bidPart, n, askPart, p, nb, na);
  }

  /** Every insert among `actions[from..]` has a valid volume and price and respects the position limit. */
  ghost predicate WithinFrom(actions: seq<Action>, from: nat, position: int, queuedBids: nat, queuedAsks: nat)
  {
    forall k :: from <= k < |actions| && actions[k].InsertOrder? ==>
      var a := actions[k];
      && 0 < a.volume <= LotSize
      && a.price != 0
      && (a.side == Buy ==> position + queuedBids * LotSize + a.volume <= PositionLimit)
      && (a.side == Sell ==> -position + queuedAsks * LotSize + a.volume <= PositionLimit)
  }

  lemma WithinFromAppend(a: seq<Action>, from: nat, b: seq<Action>, position: int, queuedBids: nat, queuedAsks: nat)
    requires from <= |a| && WithinFrom(a, from, position, queuedBids, queuedAsks)
    requires WithinFrom(b, 0, position, queuedBids, queuedAsks)
    ensures WithinFrom(a + b, from, position, queuedBids, queuedAsks)
  {
    forall k | from <= k < |a + b| && (a + b)[k].InsertOrder?
      ensures var x := (a + b)[k];
        && 0 < x.volume <= LotSize && x.price != 0
        && (x.side == Buy ==> position + queuedBids * LotSize + x.volume <= PositionLimit)
        && (x.side == Sell ==> -position + queuedAsks * LotSize + x.volume <= PositionLimit)
    {
      if k >= |a| {
        assert (a + b)[k] == b[k - |a|];
      }
    }
  }

  /** When a side's queue is full, the cycle cancels its head, which is the oldest and smallest id;
      that id leaves the queue but stays in the side's set. */
  lemma QuoteStepEvicts(s: BookState, bidPrice: int, askPrice: int, nowBid: real, nowAsk: real)
    requires |s.window| <= MaxCalls && |s.bidq| <= MaxQueue && |s.askq| <= MaxQueue
    requires Increasing(s.bidq) && Increasing(s.askq)
    requires (forall x :: x in s.bidq ==> x in s.bids) && (forall x :: x in s.askq ==> x in s.asks)
    requires (forall x :: x in s.bids ==> x < s.nextId) && (forall x :: x in s.asks ==> x < s.nextId)
    ensures var r := QuoteStep(s, bidPrice, askPrice, nowBid, nowAsk);
      && |r.bidq| <= MaxQueue && |r.askq| <= MaxQueue
      && (|s.bidq| >= MaxQueue ==>
            && |s.outbox| < |r.outbox| && r.outbox[|s.outbox|] == CancelOrder(s.bidq[0])
            && s.bidq[0] in r.bids && s.bidq[0] !in r.bidq
            && (forall x :: x in r.bidq ==> s.bidq[0] < x))
      && (|s.askq| >= MaxQueue ==>
            && |s.outbox| + |EvictCancels(s.bidq)| < |r.outbox|
            && r.outbox[|s.outbox| + |EvictCancels(s.bidq)|] == CancelOrder(s.askq[0])
            && s.askq[0] in r.asks && s.askq[0] !in r.askq
            && (forall x :: x in r.askq ==> s.askq[0] < x))
  {
    QuoteStepEvictsBid(s, bidPrice, askPrice, nowBid, nowAsk);
    QuoteStepEvictsAsk(s, bidPrice, askPrice, nowBid, nowAsk);
  }

  /** The head of a full queue of tracked ids is below every id left after eviction and every id not
      yet handed out. */
  lemma EvictedHeadBelow(q: seq<int>, side: set<int>, nextId: int, added: seq<int>)
    requires Increasing(q) && |q| >= MaxQueue && (forall x :: x in q ==> x in side)
    requires (forall x :: x in side ==> x < nextId) && (forall x :: x in added ==> x >= nextId)
    ensures q[0] in side && q[0] !in Evict(q) + added
    ensures forall x :: x in Evict(q) + added ==> q[0] < x
  {
    EvictOldest(q);
    assert q[0] in q;
  }

  lemma QuoteStepEvictsBid(s: BookState, bidPrice: int, askPrice: int, nowBid: real, nowAsk: real)
    requires |s.window| <= MaxCalls && |s.bidq| <= MaxQueue && |s.askq| <= MaxQueue
    requires Increasing(s.bidq) && (forall x :: x in s.bidq ==> x in s.bids)
    requires forall x :: x in s.bids ==> x < s.nextId
    ensures var r := QuoteStep(s, bidPrice, askPrice, nowBid, nowAsk);
      && |r.bidq| <= MaxQueue
      && (|s.bidq| >= MaxQueue ==>
            && |s.outbox| < |r.outbox| && r.outbox[|s.outbox|] == CancelOrder(s.bidq[0])
            && s.bidq[0] in r.bids && s.bidq[0] !in r.bidq
            && (forall x :: x in r.bidq ==> s.bidq[0] < x))
  {
    var r := QuoteStep(s, bidPrice, askPrice, nowBid, nowAsk);
    QuoteStepEffect(s, bidPrice, askPrice, nowBid, nowAsk);
    var remLong := RemainingLong(s.position, |s.bidq|);
    var added := if bidPrice != 0 && remLong > 0 && Admits(s.window, nowBid) then [s.nextId] else [];
    assert r.bidq == Evict(s.bidq) + added;
    if |s.bidq| >= MaxQueue {
      EvictedHeadBelow(s.bidq, s.bids, s.nextId, added);
      assert r.outbox[|s.outbox|] == EvictCancels(s.bidq)[0];
    }
  }

  lemma QuoteStepEvictsAsk(s: BookState, bidPrice: int, askPrice: int, nowBid: real, nowAsk: real)
    requires |s.window| <= MaxCalls && |s.bidq| <= MaxQueue && |s.askq| <= MaxQueue
    requires Increasing(s.askq) && (forall x :: x in s.askq ==> x in s.asks)
    requires forall x :: x in s.asks ==> x < s.nextId
    ensures var r := QuoteStep(s, bidPrice, askPrice, nowBid, nowAsk);
      && |r.askq| <= MaxQueue
      && (|s.askq| >= MaxQueue ==>
            && |s.outbox| + |EvictCancels(s.bidq)| < |r.outbox|
            && r.outbox[|s.outbox| + |EvictCancels(s.bidq)|] == CancelOrder(s.askq[0])
            && s.askq[0] in r.asks && s.askq[0] !in r.askq
            && (forall x :: x in r.askq ==> s.askq[0] < x))
  {
    var r := QuoteStep(s, bidPrice, askPrice, nowBid, nowAsk);
    QuoteStepQueues(s, bidPrice, askPrice, nowBid, nowAsk);
    QuoteStepOutbox(s, bidPrice, askPrice, nowBid, nowAsk);
    var added := if AskSent(s, bidPrice, askPrice, nowBid, nowAsk) then [AskId(s, bidPrice)] else [];
    assert r.askq == Evict(s.askq) + added;
    if |s.askq| >= MaxQueue {
      EvictedHeadBelow(s.askq, s.asks, s.nextId, added);
      var bidPart := if BidSent(s, bidPrice, nowBid)
        then [InsertOrder(s.nextId, Buy, bidPrice, QuoteVolume(RemainingLong(s.position, |s.bidq|)))] else [];
      var askPart := if AskSent(s, bidPrice, askPrice, nowBid, nowAsk)
        then [InsertOrder(AskId(s, bidPrice), Sell, askPrice, QuoteVolume(RemainingShort(s.position, |s.askq|)))]
        else [];
      ThirdPartAt(s.outbox, EvictCancels(s.bidq), s.askq[0], bidPart, askPart);
    }
  }

  /** Where the second eviction cancel sits in the gateway calls of a cycle. */
  lemma ThirdPartAt(a: seq<Action>, b: seq<Action>, id: int, c: seq<Action>, d: seq<Action>)
    ensures var all := a + b + [CancelOrder(id)] + c + d;
      |a| + |b| < |all| && all[|a| + |b|] == CancelOrder(id)
  {
    var all := a + b + [CancelOrder(id)] + c + d;
    assert all == (a + b + [CancelOrder(id)]) + (c + d);
  }

  /** `on_order_filled_message`: attribute the fill by the id's side, then run the timer ladder. */
  function FillStep(s: BookState, id: int, volume: int, now: real): (r: BookState)
  {
    var pre := s.hedgeBalance;
    var isBid := id in s.bids || id in s.bidq;
    var isAsk := !isBid && (id in s.asks || id in s.askq);
    var position := if isBid then s.position + volume else if isAsk then s.position - volume else s.position;
    var balance := if isBid then pre - volume else if isAsk then pre + volume else pre;
    s.(position := position, hedgeBalance := balance, hedgeTime := TimerAfterFill(pre, balance, s.hedgeTime, now))
  }

  /** A fill moves the position by the signed volume of the id's side and the hedge balance the other
      way, so their sum never changes; an id on neither side moves nothing. Only these three fields change. */
  lemma FillAttribution(s: BookState, id: int, volume: int, now: real)
    ensures var r := FillStep(s, id, volume, now);
      && r.position + r.hedgeBalance == s.position + s.hedgeBalance
      && ((id in s.bids || id in s.bidq) ==> r.position == s.position + volume)
      && (!(id in s.bids || id in s.bidq) && (id in s.asks || id in s.askq) ==> r.position == s.position - volume)
      && (id !in s.bids && id !in s.bidq && id !in s.asks && id !in s.askq ==>
            r.position == s.position && r.hedgeBalance == s.hedgeBalance)
      && r.hedgeTime == TimerAfterFill(s.hedgeBalance, r.hedgeBalance, s.hedgeTime, now)
      && r == s.(position := r.position, hedgeBalance := r.hedgeBalance, hedgeTime := r.hedgeTime)
  {
  }

  lemma FillStepInv(s: BookState, id: int, volume: int, now: real)
    requires Inv(s)
    ensures Inv(FillStep(s, id, volume, now))
  {
    var r := FillStep(s, id, volume, now);
    FillAttribution(s, id, volume, now);
    assert IdsInv(r.nextId, r.bids, r.asks, r.bidq, r.askq);
  }

  /** Whether `check_hedge` fires: a running timer older than the limit and a balance outside the boundary. */
  predicate HedgeDue(s: BookState, now: real)
  {
    s.hedgeTime.Some? && now - s.hedgeTime.value > HedgeTimeLimit
    && (s.hedgeBalance > HedgeBoundary || s.hedgeBalance < -HedgeBoundary)
  }

  /** `check_hedge` (without its re-arming): when due, hedge the excess over the boundary aggressively. */
  function HedgeStep(s: BookState, now: real, minBidTick: int, maxAskTick: int): (r: BookState)
  {
    if HedgeDue(s, now) then
      var id := s.nextId;
      var volume := Abs(s.hedgeBalance) - HedgeBoundary;
      if s.hedgeBalance > 0 then
        s.(nextId := id + 1, outbox := s.outbox + [HedgeOrder(id, Buy, maxAskTick, volume)],
           hedgeBalance := HedgeBoundary, hedgeTime := None)
      else
        s.(nextId := id + 1, outbox := s.outbox + [HedgeOrder(id, Sell, minBidTick, volume)],
           hedgeBalance := -HedgeBoundary, hedgeTime := None)
    else s
  }

  /** A correction sends one hedge order of volume |balance| - 10 > 0 with a fresh id (a buy at the
      highest tick for a positive balance, a sell at the lowest otherwise), leaves the balance at exactly
      +10 or -10 with the same sign and clears the timer; when it is not due nothing changes. */
  lemma HedgeCorrection(s: BookState, now: real, minBidTick: int, maxAskTick: int)
    ensures var r := HedgeStep(s, now, minBidTick, maxAskTick);
      && (!HedgeDue(s, now) ==> r == s)
      && (HedgeDue(s, now) ==>
            var side := if s.hedgeBalance > 0 then Buy else Sell;
            var price := if s.hedgeBalance > 0 then maxAskTick else minBidTick;
            && Abs(s.hedgeBalance) - HedgeBoundary > 0
            && r.outbox == s.outbox + [HedgeOrder(s.nextId, side, price, Abs(s.hedgeBalance) - HedgeBoundary)]
            && Abs(r.hedgeBalance) == HedgeBoundary
            && (r.hedgeBalance > 0 <==> s.hedgeBalance > 0)
            && r.hedgeTime == None
            && r.nextId == s.nextId + 1
            && r == s.(nextId := r.nextId, outbox := r.outbox, hedgeBalance := r.hedgeBalance, hedgeTime := None))
  {
  }

  lemma HedgeStepInv(s: BookState, now: real, minBidTick: int, maxAskTick: int)
    requires Inv(s)
    ensures Inv(HedgeStep(s, now, minBidTick, maxAskTick))
  {
    var r := HedgeStep(s, now, minBidTick, maxAskTick);
    if HedgeDue(s, now) {
      HedgeCorrection(s, now, minBidTick, maxAskTick);
      var side := if s.hedgeBalance > 0 then Buy else Sell;
      var price := if s.hedgeBalance > 0 then maxAskTick else minBidTick;
      var h := HedgeOrder(s.nextId, side, price, Abs(s.hedgeBalance) - HedgeBoundary);
      HedgeNetAppend(s.outbox, [h]);
      assert HedgeNet([h]) == Hedged(h) by {
        assert [h][..0] == [];
      }
      assert IdsInv(r.nextId, r.bids, r.asks, r.bidq, r.askq);
    }
  }

  /** `on_order_status_message`: a remaining volume of zero removes the id from its own side's set and queue. */
  function StatusStep(s: BookState, id: int, remainingVolume: int): (r: BookState)
  {
    if remainingVolume != 0 then s
    else if id in s.bids || id in s.bidq then s.(bids := s.bids - {id}, bidq := Remove(s.bidq, id))
    else if id in s.asks || id in s.askq then s.(asks := s.asks - {id}, askq := Remove(s.askq, id))
    else s
  }

  /** Completion touches only the id's own side, removing it from both set and queue; an unknown id or a
      nonzero remaining volume changes nothing. */
  lemma StatusCleanup(s: BookState, id: int, remainingVolume: int)
    requires Inv(s)
    ensures var r := StatusStep(s, id, remainingVolume);
      && (remainingVolume != 0 || (id !in s.bids && id !in s.asks) ==> r == s)
      && (remainingVolume == 0 && id in s.bids ==>
            && r == s.(bids := r.bids, bidq := r.bidq)
            && r.bids == s.bids - {id}
            && (forall x :: x in r.bidq <==> x in s.bidq && x != id))
      && (remainingVolume == 0 && id in s.asks ==>
            && r == s.(asks := r.asks, askq := r.askq)
            && r.asks == s.asks - {id}
            && (forall x :: x in r.askq <==> x in s.askq && x != id))
  {
    RemoveIncreasing(s.bidq, id);
    RemoveIncreasing(s.askq, id);
  }

  /** `deque.remove` never lengthens a queue. */
  lemma RemoveShortens(q: seq<int>, x: int)
    ensures |Remove(q, x)| <= |q|
  {
    assert |multiset(Remove(q, x))| <= |multiset(q)|;
  }

  lemma IdsInvRemoveBid(nextId: int, bids: set<int>, asks: set<int>, bidq: seq<int>, askq: seq<int>, id: int)
    requires IdsInv(nextId, bids, asks, bidq, askq)
    ensures IdsInv(nextId, bids - {id}, asks, Remove(bidq, id), askq)
  {
    RemoveIncreasing(bidq, id);
    RemoveShortens(bidq, id);
  }

  lemma IdsInvRemoveAsk(nextId: int, bids: set<int>, asks: set<int>, bidq: seq<int>, askq: seq<int>, id: int)
    requires IdsInv(nextId, bids, asks, bidq, askq)
    ensures IdsInv(nextId, bids, asks - {id}, bidq, Remove(askq, id))
  {
    RemoveIncreasing(askq, id);
    RemoveShortens(askq, id);
  }

  lemma StatusStepInv(s: BookState, id: int, remainingVolume: int)
    requires Inv(s)
    ensures Inv(StatusStep(s, id, remainingVolume))
  {
    if remainingVolume == 0 && (id in s.bids || id in s.bidq) {
      IdsInvRemoveBid(s.nextId, s.bids, s.asks, s.bidq, s.askq, id);
    } else if remainingVolume == 0 && (id in s.asks || id in s.askq) {
      IdsInvRemoveAsk(s.nextId, s.bids, s.asks, s.bidq, s.askq, id);
    }
  }

  /** `on_error_message`: the completion cleanup, but only for a nonzero id held in the bid or ask set. */
  function ErrorStep(s: BookState, id: int): (r: BookState)
  {
    if id != 0 && (id in s.bids || id in s.asks) then StatusStep(s, id, 0) else s
  }

  /** An error on a known order cleans it up like a completed order; on id 0 or an id in neither set
      (even one still queued) it changes nothing. */
  lemma ErrorCleanup(s: BookState, id: int)
    requires Increasing(s.bidq) && Increasing(s.askq)
    ensures id == 0 || (id !in s.bids && id !in s.asks) ==> ErrorStep(s, id) == s
    ensures id != 0 && (id in s.bids || id in s.asks) ==> ErrorStep(s, id) == StatusStep(s, id, 0)
    ensures id != 0 && id in s.bids ==> id !in ErrorStep(s, id).bids && id !in ErrorStep(s, id).bidq
  {
    RemoveIncreasing(s.bidq, id);
  }

  lemma ErrorStepInv(s: BookState, id: int)
    requires Inv(s)
    ensures Inv(ErrorStep(s, id))
  {
    StatusStepInv(s, id, 0);
  }
}
