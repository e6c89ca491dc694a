/** The `throttler` decorator: a sliding window over the timestamps of the last 47 accepted calls.
    A call is refused when the window is full and its oldest entry is less than one time unit old;
    a refused call records nothing (and its body does not run). */
module Throttle {
  import opened Common

  const MaxCalls: nat := 47
  const Interval: real := 1.0

  /** The admission test of the wrapper: a window with room always admits, a full one only once its
      oldest entry is at least one unit old. */
  predicate Admits(window: seq<real>, now: real): (ok: bool)
    ensures |window| < MaxCalls ==> ok
    ensures |window| == MaxCalls ==> (ok <==> window[0] + Interval <= now)
  {
    !(|window| == MaxCalls && now - window[0] < Interval)
  }

  /** The window after a call at `now`: recorded when admitted, untouched otherwise. */
  function After(window: seq<real>, now: real): (w: seq<real>)
    requires |window| <= MaxCalls
    ensures |w| <= MaxCalls
    ensures Admits(window, now) ==> w == Push(window, now, MaxCalls)
    ensures !Admits(window, now) ==> w == window
  {
    if Admits(window, now) then Push(window, now, MaxCalls) else window
  }

  /** The last (at most) 47 entries of a history. */
  function Recent(s: seq<real>): (r: seq<real>)
    ensures |r| == Min(|s|, MaxCalls)
    ensures r == s[|s| - |r|..]
  {
    if |s| <= MaxCalls then s else s[|s| - MaxCalls..]
  }

  /** Appending to the window of a history is taking the window of the extended history. */
  lemma RecentPush(s: seq<real>, now: real)
    ensures Push(Recent(s), now, MaxCalls) == Recent(s + [now])
  {
    if |s| >= MaxCalls {
      assert Recent(s)[1..] + [now] == (s + [now])[|s| + 1 - MaxCalls..];
    }
  }

  /** The window keeps its meaning across a call: when it holds the last 47 accepted times of a history,
      it afterwards holds the last 47 of that history extended by the call, if the call was admitted. */
  lemma AfterRecent(s: seq<real>, now: real)
    ensures After(Recent(s), now) == Recent(if Admits(Recent(s), now) then s + [now] else s)
  {
    if Admits(Recent(s), now) {
      RecentPush(s, now);
    }
  }

  /** `after` extends `before` by the timestamps of some of the calls made at `t1` and then `t2`. */
  ghost predicate ExtendsByTwo(before: seq<real>, after: seq<real>, t1: real, t2: real)
  {
    after == before || after == before + [t1] || after == before + [t2] || after == before + [t1, t2]
  }

  /** Two calls in a row, each recorded or not, extend the history by the times of those recorded. */
  lemma TwoCalls(h0: seq<real>, h1: seq<real>, h2: seq<real>, t1: real, t2: real)
    requires h1 == h0 || h1 == h0 + [t1]
    requires h2 == h1 || h2 == h1 + [t2]
    ensures ExtendsByTwo(h0, h2, t1, t2)
  {
    assert h0 + [t1] + [t2] == h0 + [t1, t2];
  }

  /** Any 48 consecutive accepted calls span at least one time unit. */
  ghost predicate Spaced(s: seq<real>)
  {
    forall i :: 0 <= i && i + MaxCalls < |s| ==> s[i + MaxCalls] - s[i] >= Interval
  }

  ghost predicate Nondecreasing(s: seq<real>)
  {
    forall i, j :: 0 <= i <= j < |s| ==> s[i] <= s[j]
  }

  class Throttler {
    /** `call_times`, a deque(maxlen=47). */
    var callTimes: seq<real>
    /** Every timestamp this limiter has ever accepted, oldest first. */
    ghost var accepted: seq<real>

    ghost predicate Valid()
      reads this
    {
      callTimes == Recent(accepted) && Spaced(accepted)
    }

    constructor ()
      ensures Valid() && callTimes == [] && accepted == []
    {
      callTimes := [];
      accepted := [];
    }

    /** One pass through the wrapper; `ok` says whether the wrapped body runs. */
    method Admit(now: real) returns (ok: bool)
      requires Valid()
      modifies this
      ensures Valid()
      ensures ok == Admits(old(callTimes), now)
      ensures callTimes == After(old(callTimes), now)
      ensures accepted == if ok then old(accepted) + [now] else old(accepted)
    {
      ok := !(|callTimes| == MaxCalls && now - callTimes[0] < Interval);
      if ok {
        RecordKeepsSpacing(accepted, now);
        callTimes := Push(callTimes, now, MaxCalls);
        accepted := accepted + [now];
      }
    }
  }

  /** Recording an admitted call keeps the window equal to the recent history and keeps the spacing. */
  lemma RecordKeepsSpacing(s: seq<real>, now: real)
    requires Spaced(s) && Admits(Recent(s), now)
    ensures Spaced(s + [now])
    ensures Push(Recent(s), now, MaxCalls) == Recent(s + [now])
  {
    RecentPush(s, now);
    var s' := s + [now];
    var n := |s|;
    forall i | 0 <= i && i + MaxCalls < |s'|
      ensures s'[i + MaxCalls] - s'[i] >= Interval
    {
      if i + MaxCalls < n {
        assert s'[i + MaxCalls] == s[i + MaxCalls] && s'[i] == s[i];
      } else {
        assert i == n - MaxCalls;
        assert Recent(s)[0] == s[i];
      }
    }
  }

  /** How many entries of `s` fall in the half-open unit window [t, t + 1). */
  function CountWithin(s: seq<real>, t: real): (n: nat)
    ensures n <= |s|
  {
    if s == [] then 0
    else (if t <= s[0] < t + Interval then 1 else 0) + CountWithin(s[1..], t)
  }

  lemma {:induction false} CountWithinAppend(a: seq<real>, b: seq<real>, t: real)
    ensures CountWithin(a + b, t) == CountWithin(a, t) + CountWithin(b, t)
  {
    if a == [] {
      assert a + b == b;
    } else {
      assert (a + b)[1..] == a[1..] + b;
      CountWithinAppend(a[1..], b, t);
    }
  }

  lemma {:induction false} CountWithinLate(s: seq<real>, t: real)
    requires forall i :: 0 <= i < |s| ==> s[i] >= t + Interval
    ensures CountWithin(s, t) == 0
  {
    if s != [] {
      CountWithinLate(s[1..], t);
    }
  }

  /** With a nondecreasing clock, no unit window [t, t + 1) holds more than 47 accepted calls. */
  lemma {:induction false} NoBurst(s: seq<real>, t: real)
    requires Nondecreasing(s) && Spaced(s)
    ensures CountWithin(s, t) <= MaxCalls
  {
    if s == [] {
    } else if s[0] < t {
      var tail := s[1..];
      assert Spaced(tail) by {
        forall i | 0 <= i && i + MaxCalls < |tail|
          ensures tail[i + MaxCalls] - tail[i] >= Interval
        {
          assert tail[i + MaxCalls] == s[i + 1 + MaxCalls] && tail[i] == s[i + 1];
        }
      }
      NoBurst(tail, t);
    } else if |s| > MaxCalls {
      var head, rest := s[..MaxCalls], s[MaxCalls..];
      assert s == head + rest;
      CountWithinAppend(head, rest, t);
      assert s[MaxCalls] - s[0] >= Interval;
      forall i | 0 <= i < |rest| ensures rest[i] >= t + Interval {
        assert rest[i] == s[MaxCalls + i];
      }
      CountWithinLate(rest, t);
    }
  }
}
