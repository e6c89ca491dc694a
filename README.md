# AutoTrader bookkeeping, modelled and verified in Dafny

This project models the shared bookkeeping of the two Ready Trader Go `AutoTrader` variants:
`dynamic_spread.py`, which uses a volatility-adaptive spread, and `rolling_regression.py`, which uses a
spread signal from an ETF/future hedge-ratio regression. Both files carry the same integer core,
modelled once in two modules:

- **Book** holds value-level step functions over a `BookState` record and the lemmas about them.
- **Bookkeeping** holds the `Desk` class.

The `Desk` class makes the same changes in place, field by field. Each handler
`ensures Snapshot() == <Step>(old(Snapshot()), ...)` and keeps `Valid()`.

Module layout:

- `common.dfy` (Common) holds the constants, the gateway actions and three helpers:
  - `adjust_price` over `real`;
  - `(bid + ask) // 2`;
  - the append of a bounded `deque(maxlen=...)`.
- `throttle.dfy` (Throttle) holds the `throttler` decorator, as a `Throttler` class. The class keeps the
  deque of call times and a ghost history of every accepted call.
- `book.dfy` (Book) holds the integer state and its invariant, plus one step function per handler:
  - send;
  - the quoting cycle, with exposure, eviction and submission;
  - fill attribution with the hedge timer;
  - `check_hedge`;
  - completion and error cleanup.
- `desk.dfy` (Bookkeeping) holds the `Desk` class. It owns the send limiter, the order-id counter,
  the queues and sets, the position, the hedge balance and timer, and the list of gateway calls made
  (`outbox`).
- `dynamicspread.dfy` (DynamicSpread) holds the quote model of `dynamic_spread.py`: the candidate
  prices, the position skew, the rebalancing pull to the midpoint and the 50-entry price window.
- `rollingregression.dfy` (RollingRegression) holds the parts of `rolling_regression.py` that differ:
  - the input guard;
  - the two 10-entry windows;
  - the "no quote until both windows are full" gate;
  - the signal-dependent spreads;
  - the redundant second rounding.

The state-wide invariant `Book.Inv` that every handler keeps says:

- both queues hold at most 4 ids;
- the queues are strictly increasing, and every queued id is in its side's set (evicted ids stay in the set);
- the two sets are disjoint;
- every id was already handed out by the counter;
- the hedge timer runs exactly while `|hedge_balance| > 10`;
- `position + hedge_balance` plus the net volume of all hedge orders sent is 0.

Clocks are parameters. Each send of the quoting cycle reads the clock itself, so the bid and the ask
are judged at their own times `nowBid` and `nowAsk`. The gateway calls (`send_insert_order`, `send_cancel_order`,
`send_hedge_order`) are recorded in `outbox` in the order they are made.

Three behaviours of the source worth knowing:

- **Hedge direction.** For a positive hedge balance, `check_hedge` sends a **buy** (`Side.BID`) at the
  highest ask tick. `Book.HedgeStepInv` shows this is the direction that keeps
  `position + balance + hedged volume == 0`.
- **Limiter order in `send_throttled`.** The limiter runs before the queue check. An admitted call whose
  queue is full is still recorded in the limiter window, but queues and sends nothing.
- **Input guard in `rolling_regression.py`.** That variant skips an update only when **both** top
  prices are non-positive.

## Model

| member | source | states |
|---|---|---|
| Common.FloorMid | dynamic_spread.py:79 | the mid price is the floor of (bid + ask) / 2: `2m <= bid + ask < 2m + 2` |
| Common.AdjustPrice | dynamic_spread.py:180-182 | the rounded price is a multiple of 100 with `r <= price < r + 100` (same at rolling_regression.py:184-186) |
| Common.AdjustPriceGreatest | dynamic_spread.py:180-182 | every tick multiple not above the price is at most the rounded price |
| Common.AdjustPriceOfTick | dynamic_spread.py:180-182 | a price already on the tick grid is unchanged |
| Common.AdjustPriceIdempotent | dynamic_spread.py:180-182 | rounding twice equals rounding once |
| Common.AdjustPriceMonotone | dynamic_spread.py:180-182 | rounding preserves order |
| Common.RoundedLadder | dynamic_spread.py:86-94 | five ordered raw prices round to five ordered ticks; the middle tick is at most the middle price, which is less than the next tick plus 100 |
| Common.Push | dynamic_spread.py:80 | appending to a `deque(maxlen=cap)` keeps exactly the last `min(n + 1, cap)` values of the old window followed by the new one |
| Throttle.Admits | dynamic_spread.py:33 | a window with fewer than 47 times always admits; a full one admits exactly when its oldest time is at least 1 unit before `now` |
| Throttle.Recent | dynamic_spread.py:30 | the window is the last `min(n, 47)` accepted times |
| Throttle.RecentPush | dynamic_spread.py:30-35 | appending to the bounded deque of a history's last 47 times gives the last 47 times of the extended history |
| Throttle.AfterRecent | dynamic_spread.py:31-36 | when the window holds the last 47 accepted times of a history, the window after a call holds the last 47 of that history extended by the call's time if it was admitted, and of the same history otherwise |
| Throttle.TwoCalls | dynamic_spread.py:116-121 | two limited calls in a row extend the accepted history by the times of those admitted, in call order |
| Throttle.Throttler.constructor | dynamic_spread.py:30 | the limiter starts with an empty window and history |
| Throttle.Throttler.Admit | dynamic_spread.py:31-37 | a call is rejected exactly when 47 times are recorded and the oldest is less than 1 unit old; only an admitted call is recorded; the window stays the last 47 accepted times and any 48 consecutive accepted times span at least 1 unit |
| Throttle.RecordKeepsSpacing | dynamic_spread.py:33-36 | recording an admitted call keeps both the spacing of the history and the window equal to its last 47 entries |
| Throttle.CountWithin | dynamic_spread.py:27-37 | the number of accepted calls in the unit window `[t, t+1)` is at most the length of the history |
| Throttle.NoBurst | dynamic_spread.py:27-37 | with a nondecreasing clock, no unit window `[t, t+1)` contains more than 47 accepted calls |
| Book.RemainingLong | dynamic_spread.py:101-103 | the buy room is nonnegative; it is positive exactly when position plus queued bids (10 each) is below 100, and then it fills the gap to 100 exactly |
| Book.RemainingShort | dynamic_spread.py:102-104 | the mirror for sells, over `-position` and the queued asks |
| Book.QuoteVolume | dynamic_spread.py:114 | the volume is `min(10, remaining)`: at most both, and equal to one of them |
| Book.BidWithinLimit | dynamic_spread.py:113-116 | a quoted bid has volume in (0, 10], and position plus queued bids plus that volume stays within 100 |
| Book.AskWithinLimit | dynamic_spread.py:118-121 | the mirror for asks |
| Book.Evict | dynamic_spread.py:106-111 | a queue of 4 or more loses exactly its head, and a shorter one is unchanged; at most 4 becomes fewer than 4 |
| Book.EvictCancels | dynamic_spread.py:106-111 | a queue of 4 or more yields one cancel, for its head, which is exactly the id `Evict` drops (`q == [q[0]] + Evict(q)`); a shorter queue yields no cancel and `Evict` keeps it whole; `Book.EvictOldest` shows the dropped id is the oldest |
| Book.EvictOldest | dynamic_spread.py:106-111 | with increasing ids, the evicted head is smaller than every id that stays, so it is the oldest |
| Book.Remove | dynamic_spread.py:155-158 | `deque.remove` under `except ValueError` drops one occurrence as a multiset, and the queue is unchanged when the id is absent |
| Book.RemoveIncreasing | dynamic_spread.py:155-158 | on an increasing queue, removal keeps it increasing and removes exactly the given id |
| Book.TimerAfterFill | dynamic_spread.py:142-147 | after a fill the timer runs exactly when `|balance| > 10`; it is restarted at `now` on a sign flip; it is otherwise kept when running; it only ever changes to None or to `now` |
| Book.MinBidNearestTick | dynamic_spread.py:12 | the first tick strictly above the minimum bid |
| Book.MaxAskNearestTick | dynamic_spread.py:13 | the last tick not above the maximum ask |
| Book.Initial | dynamic_spread.py:40-51 | the initial state (ids from 1, empty queues and sets, flat position and balance, no timer, empty limiter window and gateway record) satisfies the invariant |
| Book.EnqueueStep | dynamic_spread.py:55-65 | the body of `send_throttled` leaves the limiter window, the id counter, the position and the hedge state alone |
| Book.EnqueueStepInv | dynamic_spread.py:55-65 | queueing a fresh id keeps the invariant |
| Book.SendStep | dynamic_spread.py:53-65 | the limiter window advances by the admission rule even when the queue is full; the id counter, position and hedge state are untouched |
| Book.SendStepInv | dynamic_spread.py:53-65 | sending a fresh id keeps the invariant |
| Book.SendTracksInsert | dynamic_spread.py:53-65 | at most one gateway call, the insert of the id, made exactly when the limiter admits and the side's queue has room; the id is queued last and recorded in its side's set exactly when the insert is made; otherwise only the limiter window moves |
| Book.EvictBidStep | dynamic_spread.py:106-108 | the bid eviction step; `Book.EvictStepsInv` and `Book.EvictedStage` state its effect: the bid queue becomes `Evict(bidq)`, its cancel is recorded, nothing else moves |
| Book.EvictAskStep | dynamic_spread.py:109-111 | the ask eviction step; `Book.EvictStepsInv` and `Book.EvictedStage` state its effect, as for bids |
| Book.EvictedStage | dynamic_spread.py:106-111 | after both eviction steps each queue is `Evict` of itself with fewer than 4 ids, the cancels are recorded in order, and sets, ids, window, position and hedge state are unchanged |
| Book.EvictStepsInv | dynamic_spread.py:106-111 | each eviction step keeps the invariant and leaves at most 3 ids in the queue |
| Book.ConsumeIdInv | dynamic_spread.py:115 | drawing the next id keeps the invariant and the drawn id is fresh |
| Book.SubmitBidStep | dynamic_spread.py:113-116 | the bid submission step; its contract is `Book.SubmitBidEffect` (what it sends and queues) and `Book.SubmitBidStepInv` (the invariant) |
| Book.SubmitAskStep | dynamic_spread.py:118-121 | the ask submission step; its contract is `Book.SubmitAskEffect` and `Book.SubmitAskStepInv` |
| Book.SubmitBidStepInv | dynamic_spread.py:113-116 | a bid submission keeps the invariant |
| Book.SubmitAskStepInv | dynamic_spread.py:118-121 | an ask submission keeps the invariant |
| Book.SubmitBidEffect | dynamic_spread.py:113-116 | with room in the queue, a quoted bid draws one id and is queued, recorded in the bid set and inserted exactly when the limiter admits it |
| Book.SubmitAskEffect | dynamic_spread.py:118-121 | the mirror for asks |
| Book.QuoteStep | dynamic_spread.py:101-121 | the integer quoting cycle, with the two sends timed `nowBid` and `nowAsk`; its contract is `Book.QuoteStepEffect` (with `QuoteStepQueues`, `QuoteStepCounters`, `QuoteStepOutbox`), `Book.QuoteStepInv`, `Book.QuoteStepExposure` and `Book.QuoteStepEvicts` |
| Book.BidStage | dynamic_spread.py:106-116 | after eviction and the bid, the bid queue and set gain the drawn id exactly when the bid is quoted and admitted, the limiter window has advanced by the bid's call, the next id is that of the ask, and the ask side is as eviction left it |
| Book.QuoteStepQueues | dynamic_spread.py:106-121 | after a cycle each queue is its evicted self plus the new id exactly when that side is sent; each set gains the new id exactly then |
| Book.QuoteStepCounters | dynamic_spread.py:113-121 | after a cycle the limiter window has advanced by the bid's call at `nowBid` and then the ask's at `nowAsk` (each only if quoted), the counter has advanced once per quoted side, and position and hedge state are unchanged |
| Book.QuoteStepOutbox | dynamic_spread.py:106-121 | the gateway calls of a cycle are the eviction cancels, then the bid insert, then the ask insert, each insert present exactly when quoted and admitted |
| Book.QuoteStepInv | dynamic_spread.py:101-121 | a whole quoting cycle keeps the invariant (queues at most 4, sets, ids, hedge accounting); rolling_regression.py:105-125 is identical |
| Book.QuoteStepEffect | dynamic_spread.py:101-121 | the complete effect of a cycle: cancels for evicted heads, then the bid, then the ask, each sent exactly when quoted and admitted, so the queue-full return of `send_throttled` is never taken; position and hedge state unchanged |
| Book.QuoteStepExposure | dynamic_spread.py:101-121 | every order a cycle inserts has volume in (0, 10], a nonzero price, and keeps position plus queued orders of its side (before eviction) within 100 |
| Book.QuoteStepEvicts | dynamic_spread.py:106-111 | when a queue is full, the first new gateway call (bid side; some new call on the ask side) cancels its head; the head leaves the queue, stays in the side set and is smaller than every remaining or new id |
| Book.FillStep | dynamic_spread.py:134-147 | the fill step; its contract is `Book.FillAttribution` and `Book.FillStepInv` |
| Book.FillAttribution | dynamic_spread.py:134-147 | a fill on a bid id adds the volume to the position, and one on an ask id subtracts it; an unknown id moves nothing; `position + hedge_balance` never changes; only position, balance and timer change |
| Book.FillStepInv | dynamic_spread.py:134-147 | a fill keeps the invariant, in particular "timer set iff `|balance| > 10`"; rolling_regression.py:138-151 is identical |
| Book.HedgeDue | dynamic_spread.py:124 | whether `check_hedge` fires: a running timer more than 58 units old and a balance outside ±10; `Book.HedgeCorrection` states what firing does |
| Book.HedgeStep | dynamic_spread.py:123-131 | the `check_hedge` step; its contract is `Book.HedgeCorrection` and `Book.HedgeStepInv` |
| Book.HedgeCorrection | dynamic_spread.py:123-131 | when it is not due nothing changes; when due, one hedge order with a fresh id and volume `|balance| - 10 > 0` is sent (a buy at the top ask tick for a positive balance, a sell at the bottom bid tick otherwise), the balance becomes exactly ±10 with its sign kept, and the timer is cleared |
| Book.HedgeStepInv | dynamic_spread.py:123-131 | a correction keeps the invariant, including the hedge accounting; rolling_regression.py:127-136 is identical |
| Book.StatusStep | dynamic_spread.py:149-163 | the completion step; its contract is `Book.StatusCleanup` and `Book.StatusStepInv` |
| Book.StatusCleanup | dynamic_spread.py:149-163 | completion of a bid id removes it from the bid set and queue only (asks mirrored); a nonzero remaining volume or unknown id changes nothing |
| Book.StatusStepInv | dynamic_spread.py:149-163 | completion keeps the invariant |
| Book.ErrorStep | dynamic_spread.py:165-169 | the error step; its contract is `Book.ErrorCleanup` and `Book.ErrorStepInv` |
| Book.ErrorCleanup | dynamic_spread.py:165-169 | an error cleans up exactly as a completion when the id is nonzero and in a side set; a queue-only id or id 0 changes nothing |
| Book.ErrorStepInv | dynamic_spread.py:165-169 | error handling keeps the invariant |
| Bookkeeping.Desk.constructor | dynamic_spread.py:40-51 | `Initialized()`: ids start at 1, the sets, queues and gateway record are empty, the position and balance are flat, no timer runs, and the limiter has an empty window and history; the tick constants are the nearest ticks; the invariant holds. These are the fields of `Book.Initial` |
| Bookkeeping.Desk.InitializedIsInitial | dynamic_spread.py:40-51 | a desk in its `__init__` state has exactly the state `Book.Initial`, and is valid as soon as its limiter is |
| Bookkeeping.Desk.SendThrottled | dynamic_spread.py:53-65 | the in-place `send_throttled` performs `SendStep` and records the call in the limiter history exactly when admitted |
| Bookkeeping.Desk.Enqueue | dynamic_spread.py:55-65 | the body of `send_throttled` performs `EnqueueStep` in place and keeps the invariant |
| Bookkeeping.Desk.NextOrderId | dynamic_spread.py:115 | `next(self.order_ids)` returns the counter and advances it by one, leaving everything else |
| Bookkeeping.Desk.EvictBid | dynamic_spread.py:106-108 | performs the bid eviction step in place |
| Bookkeeping.Desk.EvictAsk | dynamic_spread.py:109-111 | performs the ask eviction step in place |
| Bookkeeping.Desk.SubmitBid | dynamic_spread.py:113-116 | performs the bid submission step in place; the limiter history is unchanged or gains exactly `now` |
| Bookkeeping.Desk.SubmitAsk | dynamic_spread.py:118-121 | performs the ask submission step in place; the limiter history is unchanged or gains exactly `now` |
| Bookkeeping.Desk.Quote | dynamic_spread.py:101-121 | performs the whole integer quoting cycle in place with the bid sent at `nowBid` and the ask at `nowAsk`, keeps the invariant, and extends the limiter history by the times of the admitted sends only, so `Throttle.NoBurst` bounds the orders a trader sends |
| Bookkeeping.Desk.CheckHedge | dynamic_spread.py:123-131 | performs `check_hedge` in place and keeps the invariant |
| Bookkeeping.Desk.Hedge | dynamic_spread.py:124-131 | the firing branch of `check_hedge` |
| Bookkeeping.Desk.OnOrderFilled | dynamic_spread.py:134-147 | performs the fill step in place and keeps the invariant |
| Bookkeeping.Desk.OnOrderStatus | dynamic_spread.py:149-163 | performs the completion step in place |
| Bookkeeping.Desk.DiscardBid | dynamic_spread.py:152-157 | the bid branch of a completion performs the completion step in place |
| Bookkeeping.Desk.DiscardAsk | dynamic_spread.py:158-163 | the ask branch of a completion performs the completion step in place |
| Bookkeeping.Desk.OnError | dynamic_spread.py:165-169 | performs the error step in place |
| DynamicSpread.SpreadPercentage | dynamic_spread.py:82-83 | the spread is the fee-derived base 0.0011 plus half the relative volatility, so at least 0.001 for nonnegative volatility |
| DynamicSpread.CandidateLadder | dynamic_spread.py:86-94 | the skewed bid, plain bid, mid, plain ask and skewed ask are ordered after rounding |
| DynamicSpread.CandidatesSkew | dynamic_spread.py:86-94 | the candidates straddle the mid; a position above 50 only lowers the bid against the neutral quote; below -50 only raises the ask; between, the quote is the neutral one |
| DynamicSpread.RebalanceToMid | dynamic_spread.py:96-99 | at position 80 or more the ask moves to the floor tick of the bid/ask midpoint, and at -80 or less the bid does; otherwise nothing changes; for tick-aligned ordered candidates the result stays ordered between them |
| DynamicSpread.Candidates | dynamic_spread.py:86-94 | the position-skewed candidate prices; their contract is `DynamicSpread.CandidatesSkew` and `DynamicSpread.CandidateLadder` |
| DynamicSpread.Rebalance | dynamic_spread.py:96-99 | the pull to the midpoint near the limit; its contract is `DynamicSpread.RebalanceToMid` |
| DynamicSpread.Prices | dynamic_spread.py:78-99 | the prices handed to the quoting cycle; their contract is `DynamicSpread.PricesOrdered` |
| DynamicSpread.PricesOrdered | dynamic_spread.py:78-99 | for a nonnegative volatility and a position factor of at least 1, both prices are ticks, the bid is at most the ask, and both lie between the two candidates |
| DynamicSpread.Trader.constructor | dynamic_spread.py:40-51 | starts with an empty 50-entry window and a fresh desk in its `__init__` state (`Desk.Initialized()`: ids from 1, empty queues and sets, flat position and balance, no timer, empty limiter) whose invariant holds |
| DynamicSpread.Trader.OnOrderBookUpdate | dynamic_spread.py:76-121 | only a future update with both top prices positive acts; it appends the mid to the window and runs the quoting cycle on the skewed and rebalanced prices, the bid judged at `nowBid` and the ask at `nowAsk`, and the limiter history grows by the admitted times only; otherwise nothing changes |
| RollingRegression.HedgeRatioAvailable | rolling_regression.py:67-69 | `calculate_hedge_ratio` gives a ratio exactly when both windows hold 10 prices; then both are nonempty, so the `len(...) > 0` tests of line 88 never decide anything |
| RollingRegression.Candidates | rolling_regression.py:92-100 | the signal-dependent candidate prices; their contract is `RollingRegression.CandidatesWiden` and `RollingRegression.ReadjustIsNoop` |
| RollingRegression.CandidatesWiden | rolling_regression.py:91-100 | the candidates straddle the mid; "above" widens only the ask, and "below" widens only the bid, against the neutral quote |
| RollingRegression.ReadjustIsNoop | rolling_regression.py:102-103 | the second `adjust_price` leaves both candidates unchanged |
| RollingRegression.Trader.constructor | rolling_regression.py:39-51 | starts with two empty 10-entry windows and a fresh desk in its `__init__` state (`Desk.Initialized()`) whose invariant holds |
| RollingRegression.Trader.OnOrderBookUpdate | rolling_regression.py:76-125 | nothing changes when both top prices are non-positive; otherwise the mid is appended to the updated instrument's window only; the quoting cycle runs on the once-rounded candidates, at `nowBid` and `nowAsk`, only for a future update with both windows full; the limiter history grows by the admitted times only |

## Left out

- Floating-point quote math. `np.std` of the window, `calculate_position_factor` (exponent 0.02),
  `np.polyfit` and the mean/standard-deviation classification of the regression spread are inputs:
  `volatility`, `factor` and `signal`. Prices are multiplied exactly over `real`, so rounding at an
  exact tick boundary may differ from IEEE doubles.
- DynamicSpread.Trader.OnOrderBookUpdate: does not tie `volatility` to the window's standard deviation,
  or `factor` to the position, because both are floating-point library results.
- RollingRegression.Trader.OnOrderBookUpdate: its `signal` is not derived from the windows, because it
  comes from `np.polyfit`, `np.mean` and `np.std`.
- `cancel_order` (dynamic_spread.py:68-70) calls itself through its own limiter and never reaches
  the gateway. It is not a real cancel, so neither it nor its limiter instance is modelled.
- The delayed cancel scheduled after every send (dynamic_spread.py:66) is left out for the same reason.
- Event-loop scheduling (`call_later`) is the dispatcher's business. This covers the first
  `check_hedge` at 50 and its re-arm every unit. `time.time` and `time.monotonic` become clock
  parameters of each handler, one per `send_throttled` call in the quoting cycle.
- The decorator's `call_times` is shared by every object of the class. The model gives each `Desk` its
  own limiter, which is the same when one trader runs per process.
- The gateway calls themselves are only recorded, with `GOOD_FOR_DAY` implicit for inserts.
  `BaseAutoTrader` is not part of this model.
- Bookkeeping.Desk.OnError: does not model the exception that `error_message.decode()`
  (dynamic_spread.py:167, rolling_regression.py:171) raises on bytes that are not UTF-8, which skips
  the cleanup; the message bytes are not part of this model, so the cleanup always runs.
- Logging: `on_hedge_filled_message`, `on_trade_ticks_message` and the warning in `on_error_message`
  only log, so they are not modelled.
- `MINIMUM_BID` and `MAXIMUM_ASK` come from the library and are constructor parameters.
- The `fill_volume` and `fees` arguments of the status handler and the `price` of a fill are read by
  nothing, so they have no effect.
