/** mg_timer_expired: how often a periodic timer fires. */
module Timer {
  import opened Bytes
  import opened IoBuf

  type uint64 = x: int | 0 <= x < TWO_TO_THE_64

  datatype Tick = Tick(fires: bool, expire: uint64)

  function Wrap(n: int): uint64
  {
    n % TWO_TO_THE_64
  }

  function Expired(expire: uint64, period: uint64, now: uint64): Tick
  {
    var t0 := if Wrap(now + period) < expire then 0 else expire;
    var t := if t0 == 0 then Wrap(now + period) else t0;
    if t > now then Tick(false, t) else Tick(true, if now - t > period then Wrap(now + period) else Wrap(t + period))
  }

  class Timer {
    const period: uint64
    var expire: uint64

    constructor (period: uint64)
      ensures this.period == period && expire == 0
    {
      this.period, expire := period, 0;
    }

    /** mg_timer_expired, on the fields of a timer. */
    method Poll(now: uint64) returns (fires: bool)
      modifies this`expire
      ensures Tick(fires, expire) == Expired(old(expire), period, now)
    {
      if (now + period) % TWO_TO_THE_64 < expire {
        expire := 0;
      }
      if expire == 0 {
        expire := (now + period) % TWO_TO_THE_64;
      }
      if expire > now {
        return false;
      }
      expire := if now - expire > period then (now + period) % TWO_TO_THE_64 else (expire + period) % TWO_TO_THE_64;
      return true;
    }
  }

  /** The polls come in order, and the sums stay below 2^64. */
  predicate Polls(times: seq<uint64>, period: uint64)
  {
    && (forall i :: 0 <= i < |times| ==> times[i] + period < TWO_TO_THE_64)
    && (forall i :: 0 < i < |times| ==> times[i - 1] <= times[i])
  }

  /** No two polls are further apart than the period. */
  predicate Dense(times: seq<uint64>, period: uint64)
  {
    forall i :: 0 < i < |times| ==> times[i] - times[i - 1] <= period
  }

  /** How often a new timer has fired, and when it expires next. */
  datatype History = History(count: nat, expire: uint64)

  function Run(times: seq<uint64>, period: uint64): History
  {
    if times == [] then History(0, 0)
    else
      var before := Run(times[..|times| - 1], period);
      var tick := Expired(before.expire, period, times[|times| - 1]);
      History(before.count + if tick.fires then 1 else 0, tick.expire)
  }

  /** The length of `k` periods. */
  function Span(k: nat, period: int): (n: int)
    ensures n == k * period
  {
    if k == 0 then 0 else Span(k - 1, period) + period
  }

  /** The timer has fired `count` times since `start`, and expires at `expire` or, with dense polls, exactly
      when its next period ends. */
  predicate OnTime(start: int, count: nat, expire: int, now: int, period: int, dense: bool)
  {
    && start + Span(count, period) + period <= expire <= now + period && start + Span(count, period) <= now
    && (dense ==> expire == start + Span(count, period) + period && expire > now)
  }

  lemma SpanStep(k: nat, period: int)
    ensures Span(k + 1, period) == Span(k, period) + period && Span(0, period) == 0
    ensures period > 0 ==> Span(k, period) >= 0
  {
  }

  /** Without wrap-around, a timer that runs and whose expiry is not too far off. */
  lemma ExpiredPlain(expire: uint64, period: uint64, now: uint64)
    requires now + period < TWO_TO_THE_64 && 0 < expire <= now + period
    ensures Expired(expire, period, now)
         == if expire > now then Tick(false, expire)
            else Tick(true, if now - expire > period then now + period else expire + period)
  {
    Unwrapped(now + period);
    if expire <= now {
      Unwrapped(expire + period);
    }
    hide Wrap;
  }

  lemma Unwrapped(n: nat)
    requires n < TWO_TO_THE_64
    ensures Wrap(n) == n
  {
  }

  /** `s` is the length of the periods that have passed. */
  lemma OnTimeUnfold(start: int, count: nat, expire: int, now: int, period: int, dense: bool, s: int)
    requires s == Span(count, period)
    ensures OnTime(start, count, expire, now, period, dense) <==>
              && start + s + period <= expire <= now + period && start + s <= now
              && (dense ==> expire == start + s + period && expire > now)
  {
    hide Span;
  }

  lemma ExpiryStep(start: int, count: nat, expire: uint64, last: int, now: uint64, period: uint64, dense: bool)
    requires 0 < period && now + period < TWO_TO_THE_64 && 0 <= start && last <= now
    requires OnTime(start, count, expire, last, period, dense) && (dense ==> now - last <= period)
    ensures var tick := Expired(expire, period, now);
            OnTime(start, count + if tick.fires then 1 else 0, tick.expire, now, period, dense)
  {
    hide *;
    var s := Span(count, period);
    SpanStep(count, period);
    OnTimeUnfold(start, count, expire, last, period, dense, s);
    ExpiredPlain(expire, period, now);
    var tick := Expired(expire, period, now);
    if tick.fires {
      OnTimeUnfold(start, count + 1, tick.expire, now, period, dense, s + period);
    } else {
      OnTimeUnfold(start, count, tick.expire, now, period, dense, s);
    }
  }

  /** Every time it fires the expiry moves on by a period or more; with dense polls by exactly one, and it
      stays in the future. */
  lemma {:induction false} ExpiryMoves(times: seq<uint64>, period: uint64)
    requires period > 0 && times != [] && Polls(times, period)
    ensures var h := Run(times, period);
            OnTime(times[0], h.count, h.expire, times[|times| - 1], period, Dense(times, period))
  {
    hide Span, Expired, Polls, Dense, OnTime;
    var n := |times| - 1;
    var before := times[..n];
    PollsBefore(times, period);
    if n > 0 {
      ExpiryMoves(before, period);
      var h := Run(before, period);
      NotDense(times[0], h.count, h.expire, times[n - 1], period, Dense(before, period), Dense(times, period));
      ExpiryStep(times[0], h.count, h.expire, times[n - 1], times[n], period, Dense(times, period));
    } else {
      FirstPoll(times[0], period, Dense(times, period));
      assert Run(before, period) == History(0, 0);
    }
  }

  lemma NotDense(start: int, count: nat, expire: int, now: int, period: int, before: bool, dense: bool)
    requires OnTime(start, count, expire, now, period, before) && (dense ==> before)
    ensures OnTime(start, count, expire, now, period, dense)
  {
  }

  lemma PollsBefore(times: seq<uint64>, period: uint64)
    requires times != [] && Polls(times, period)
    ensures var n := |times| - 1;
            && times[n] + period < TWO_TO_THE_64 && times[0] >= 0
            && (n > 0 ==> && Polls(times[..n], period) && times[n - 1] <= times[n]
                          && (Dense(times, period) ==> Dense(times[..n], period) && times[n] - times[n - 1] <= period))
  {
  }

  lemma FirstPoll(now: uint64, period: uint64, dense: bool)
    requires 0 < period && now + period < TWO_TO_THE_64
    ensures var tick := Expired(0, period, now); !tick.fires && OnTime(now, 0, tick.expire, now, period, dense)
  {
  }

  /** From the first poll to the last. */
  function Elapsed(times: seq<uint64>): int
    requires times != []
  {
    var first: int, last: int := times[0], times[|times| - 1];
    last - first
  }

  /** Armed at the first poll, the timer has fired at most once per period; with polls at most a period
      apart it has fired exactly once per period, and the expiry is congruent to the start. */
  lemma FiresOncePerPeriod(times: seq<uint64>, period: uint64)
    requires period > 0 && times != [] && Polls(times, period)
    ensures var h := Run(times, period);
            var elapsed := Elapsed(times);
            && elapsed >= 0 && h.count <= elapsed / period
            && (Dense(times, period) ==> h.count == elapsed / period && h.expire % period == times[0] % period)
  {
    hide Polls, Dense, Run, Span;
    ExpiryMoves(times, period);
    var h, start := Run(times, period), times[0];
    var elapsed := Elapsed(times);
    CountBelow(elapsed, period, h.count);
    if Dense(times, period) {
      DivModUnique(elapsed, period, h.count, elapsed - Span(h.count, period));
      SpanStep(h.count, period);
      Congruent(start, period, h.count + 1);
    }
  }

  lemma CountBelow(elapsed: int, period: int, count: nat)
    requires period > 0 && count * period <= elapsed
    ensures elapsed >= 0 && count <= elapsed / period
  {
    var q := elapsed / period;
    assert elapsed == q * period + elapsed % period;
    if count > q {
      MulSub(count, q, period);
      MulAtLeast(count - q, period);
    }
  }

  lemma Congruent(x: nat, d: nat, k: nat)
    requires d > 0
    ensures (x + k * d) % d == x % d
  {
    assert x == x / d * d + x % d;
    assert (x / d + k) * d == x / d * d + k * d;
    DivModUnique(x + k * d, d, x / d + k, x % d);
  }
}
