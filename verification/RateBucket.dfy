/**
 The token bucket that limits request rates
 (common/limiter_bucket/src/rate_bucket.rs). Time is a parameter, in
 nanoseconds; the interval is in milliseconds. `tokens * refill` wraps at 64
 bits, as in a release build.
 */
module RateBucket {
  import opened Wrappers

  const USIZE_MAX: nat := 0xFFFF_FFFF_FFFF_FFFF
  const DEFAULT_REFILL_MAX_FACTOR: nat := 10
  const NANOS_PER_MILLI: nat := 1_000_000

  datatype Builder = Builder(max: Option<nat>, initial: nat, refill: nat, interval: nat)

  datatype Bucket = Bucket(refill: nat, interval: nat, max: nat, balance: nat, deadline: int)

  function Min(a: int, b: int): int {
    if a < b then a else b
  }

  /** The interval in nanoseconds. */
  function Period(interval: nat): nat {
    interval * NANOS_PER_MILLI
  }

  function MaxOf(b: Builder): nat {
    match b.max
    case Some(m) => m
    case None => Min((if b.refill < b.initial then b.initial else b.refill) * DEFAULT_REFILL_MAX_FACTOR, USIZE_MAX)
  }

  function Built(b: Builder, now: int): Bucket {
    Bucket(b.refill, b.interval, MaxOf(b), Min(b.initial, MaxOf(b)), now + Period(b.interval))
  }

  /** How many periods are due at `now`, and the next deadline. */
  function CalculateDrain(now: int, deadline: int, interval: nat): Option<(nat, int)>
    requires interval > 0
  {
    if now < deadline then None
    else
      var since := (now - deadline) / NANOS_PER_MILLI;
      Some((since / interval + 1, now + (interval - since % interval) * NANOS_PER_MILLI))
  }

  function Updated(b: Bucket, now: int): Bucket
    requires b.interval > 0
  {
    match CalculateDrain(now, b.deadline, b.interval)
    case None => b
    case Some((tokens, deadline)) =>
      var product := (tokens * b.refill) % (USIZE_MAX + 1);
      b.(deadline := deadline, balance := Min(Min(b.balance + product, USIZE_MAX), b.max))
  }

  /** One call: `acquire` is all or nothing, `acquire_closed` takes what there is. */
  datatype Call = Call(now: int, permits: nat, closed: bool)

  function Grant(b: Bucket, c: Call): nat
    requires b.interval > 0
  {
    var u := Updated(b, c.now);
    if c.permits == 0 then 0
    else if u.balance >= c.permits then c.permits
    else if c.closed then u.balance
    else 0
  }

  function After(b: Bucket, c: Call): Bucket
    requires b.interval > 0
  {
    if c.permits == 0 then b
    else var u := Updated(b, c.now); u.(balance := u.balance - Grant(b, c))
  }

  // ---------------------------------------------------------------- the object

  class Limiter {
    const refill: nat
    const interval: nat
    const max: nat
    var balance: nat
    var deadline: int

    ghost predicate Valid()
      reads this
    {
      interval > 0
    }

    function View(): Bucket
      reads this
    {
      Bucket(refill, interval, max, balance, deadline)
    }

    constructor (builder: Builder, now: int)
      ensures View() == Built(builder, now) && (builder.interval > 0 ==> Valid())
      ensures refill == builder.refill && interval == builder.interval && deadline == now + interval * 1_000_000
      ensures builder.max.Some? ==> max == builder.max.value && balance == Min(builder.initial, max)
      ensures builder.max.None? && builder.initial <= USIZE_MAX && builder.refill <= USIZE_MAX ==>
                && balance == builder.initial && max >= refill
                && (max == 10 * refill || max == 10 * balance || max == USIZE_MAX)
    {
      var m := MaxOf(builder);
      refill, interval, max := builder.refill, builder.interval, m;
      balance := Min(builder.initial, m);
      deadline := now + Period(builder.interval);
    }

    method UpdateCritical(now: int)
      requires Valid()
      modifies this
      ensures Valid() && View() == Updated(old(View()), now)
    {
      var drain := CalculateDrain(now, deadline, interval);
      if drain.Some? {
        deadline := drain.value.1;
        balance := Min(balance + (drain.value.0 * refill) % (USIZE_MAX + 1), USIZE_MAX);
        if balance > max {
          balance := max;
        }
      }
    }

    method AcquireClosed(permits: nat, now: int) returns (granted: nat)
      requires Valid()
      modifies this
      ensures Valid() && View() == After(old(View()), Call(now, permits, true))
      ensures granted == Grant(old(View()), Call(now, permits, true))
      ensures permits > 0 ==> var u := Refilled(old(View()), now);
                granted == Min(permits, u) && balance == u - granted
      ensures permits == 0 ==> granted == 0 && View() == old(View())
    {
      UpdatedIsRefilled(View(), now);
      if permits == 0 {
        return 0;
      }
      UpdateCritical(now);
      if balance >= permits {
        balance := balance - permits;
        granted := permits;
      } else {
        granted := balance;
        balance := 0;
      }
    }

    method Acquire(permits: nat, now: int) returns (ok: bool)
      requires Valid()
      modifies this
      ensures Valid() && View() == After(old(View()), Call(now, permits, false))
      ensures ok <==> Grant(old(View()), Call(now, permits, false)) == permits
      ensures permits > 0 ==> var u := Refilled(old(View()), now);
                (ok <==> permits <= u) && balance == u - if ok then permits else 0
      ensures permits == 0 ==> ok && View() == old(View())
    {
      UpdatedIsRefilled(View(), now);
      if permits == 0 {
        return true;
      }
      UpdateCritical(now);
      ok := balance >= permits;
      if ok {
        balance := balance - permits;
      }
    }
  }

  // ---------------------------------------------------------------- one refill

  lemma Distribute(q: nat, m: nat)
    ensures (q + 1) * Period(m) == q * m * NANOS_PER_MILLI + m * NANOS_PER_MILLI
  {
    assert (q + 1) * m == q * m + m;
    assert (q + 1) * (m * NANOS_PER_MILLI) == ((q + 1) * m) * NANOS_PER_MILLI;
  }

  /**
   A refill leaves the deadline in `(now, now + interval]`, less than one
   millisecond after the grid point that lies `tokens` whole intervals past
   the old deadline; all but the last of those intervals have elapsed.
   */
  lemma RefillDeadline(now: int, deadline: int, interval: nat)
    requires interval > 0 && now >= deadline
    ensures var (tokens, next) := CalculateDrain(now, deadline, interval).value;
            && tokens >= 1
            && now < next <= now + Period(interval)
            && deadline + tokens * Period(interval) <= next < deadline + tokens * Period(interval) + NANOS_PER_MILLI
            && deadline + (tokens - 1) * Period(interval) <= now
  {
    var since := (now - deadline) / NANOS_PER_MILLI;
    var q, r := since / interval, since % interval;
    assert since == q * interval + r;
    Distribute(q, interval);
    assert q * Period(interval) == q * interval * NANOS_PER_MILLI by {
      assert q * (interval * NANOS_PER_MILLI) == (q * interval) * NANOS_PER_MILLI;
    }
  }

  // ---------------------------------------------------------------- whole runs

  lemma MulMonotone(r: nat, a: int, b: int)
    requires a <= b
    ensures r * a <= r * b && a * r <= b * r
  {
  }

  lemma MulAtLeast(d: int, p: nat)
    ensures d >= 1 ==> d * p >= p
  {
    if d >= 1 {
      MulMonotone(p, 1, d);
    }
  }

  lemma DivAtLeast(x: int, p: nat, k: int)
    requires p > 0 && x >= k * p
    ensures x / p >= k
  {
    var q, r := x / p, x % p;
    assert x == q * p + r;
    assert (k - q) * p == k * p - q * p;
    MulAtLeast(k - q, p);
  }

  /** How many times a bucket with this deadline can have been refilled by time `t`. */
  function Periods(deadline: int, t: int, interval: nat): nat
    requires interval > 0
  {
    if t < deadline then 0
    else
      DivAtLeast(t - deadline, Period(interval), 0);
      (t - deadline) / Period(interval) + 1
  }

  /** A refill pays for exactly the periods begun since the deadline. */
  lemma TokensArePeriods(now: int, deadline: int, interval: nat)
    requires interval > 0 && now >= deadline
    ensures CalculateDrain(now, deadline, interval).value.0 == Periods(deadline, now, interval)
  {
    var since := (now - deadline) / NANOS_PER_MILLI;
    var q, r, p := since / interval, since % interval, Period(interval);
    assert since == q * interval + r;
    Distribute(q, interval);
    assert q * p == q * interval * NANOS_PER_MILLI by {
      assert q * (interval * NANOS_PER_MILLI) == (q * interval) * NANOS_PER_MILLI;
    }
    assert q * p <= now - deadline < (q + 1) * p;
    DivAtLeast(now - deadline, p, q);
    var d := (now - deadline) / p;
    assert now - deadline == d * p + (now - deadline) % p;
    assert (d - q - 1) * p == d * p - (q + 1) * p;
    MulAtLeast(d - q, p);
    if d > q {
      MulMonotone(p, 0, d - q - 1);
    }
  }

  /** The balance a call finds: one refill for every period begun, wrapped and capped. */
  function Refilled(b: Bucket, now: int): nat
    requires b.interval > 0
  {
    if now < b.deadline then b.balance
    else Min(Min(b.balance + (Periods(b.deadline, now, b.interval) * b.refill) % (USIZE_MAX + 1), USIZE_MAX), b.max)
  }

  lemma UpdatedIsRefilled(b: Bucket, now: int)
    requires b.interval > 0
    ensures Updated(b, now).balance == Refilled(b, now)
  {
    if now >= b.deadline {
      TokensArePeriods(now, b.deadline, b.interval);
    }
  }

  /** `acquire` is granted exactly if the balance it finds suffices; `acquire_closed` gets the smaller of the two. */
  lemma GrantIsExact(b: Bucket, c: Call)
    requires b.interval > 0 && c.permits > 0
    ensures var u := Refilled(b, c.now);
            && Grant(b, c) == (if c.permits <= u then c.permits else if c.closed then u else 0)
            && After(b, c).balance == u - Grant(b, c)
  {
    UpdatedIsRefilled(b, c.now);
  }

  /** A refill uses up at least the periods it pays for. */
  lemma RefillUsesPeriods(now: int, deadline: int, interval: nat, t: int)
    requires interval > 0 && deadline <= now <= t
    ensures var (tokens, next) := CalculateDrain(now, deadline, interval).value;
            tokens + Periods(next, t, interval) <= Periods(deadline, t, interval)
  {
    var p := Period(interval);
    var (tokens, next) := CalculateDrain(now, deadline, interval).value;
    RefillDeadline(now, deadline, interval);
    if t < next {
      DivAtLeast(t - deadline, p, tokens - 1);
    } else {
      var j := (t - next) / p;
      assert j * p <= t - next;
      assert (tokens + j) * p == tokens * p + j * p;
      DivAtLeast(t - deadline, p, tokens + j);
    }
  }

  /** The tokens granted by a run of calls. */
  function Total(b: Bucket, calls: seq<Call>): nat
    requires b.interval > 0
    decreases |calls|
  {
    if calls == [] then 0 else Grant(b, calls[0]) + Total(After(b, calls[0]), calls[1..])
  }

  function Final(b: Bucket, calls: seq<Call>): (f: Bucket)
    requires b.interval > 0
    ensures f == b.(balance := f.balance, deadline := f.deadline)
    decreases |calls|
  {
    if calls == [] then b else Final(After(b, calls[0]), calls[1..])
  }

  /** The clock does not run backwards, and stays within `[from, to]`. */
  ghost predicate Timed(calls: seq<Call>, from: int, to: int) {
    && (forall k :: 0 <= k < |calls| ==> from <= calls[k].now <= to)
    && (forall j, k :: 0 <= j < k < |calls| ==> calls[j].now <= calls[k].now)
  }

  lemma PayPeriods(refill: nat, tokens: nat, p: nat, q: nat)
    requires tokens + p <= q
    ensures tokens * refill + refill * p <= refill * q
  {
    assert refill * (tokens + p) == tokens * refill + refill * p;
    MulMonotone(refill, tokens + p, q);
  }

  lemma WrappedIsSmaller(x: nat)
    ensures x % (USIZE_MAX + 1) <= x
  {
  }

  lemma UpdatedWithin(b: Bucket, now: int, t: int)
    requires b.interval > 0 && now <= t
    ensures var u := Updated(b, now);
            && u == b.(balance := u.balance, deadline := u.deadline)
            && u.balance + b.refill * Periods(u.deadline, t, b.interval)
               <= b.balance + b.refill * Periods(b.deadline, t, b.interval)
            && now < u.deadline && (b.balance <= b.max ==> u.balance <= b.max)
  {
    hide Periods, Period;
    if now >= b.deadline {
      var (tokens, next) := CalculateDrain(now, b.deadline, b.interval).value;
      RefillDeadline(now, b.deadline, b.interval);
      RefillUsesPeriods(now, b.deadline, b.interval, t);
      PayPeriods(b.refill, tokens, Periods(next, t, b.interval), Periods(b.deadline, t, b.interval));
      WrappedIsSmaller(tokens * b.refill);
    }
  }

  /** Whatever is asked for, a run grants at most the balance and one refill per period. */
  lemma {:induction false} TotalIsBounded(b: Bucket, calls: seq<Call>, from: int, t: int)
    requires b.interval > 0 && Timed(calls, from, t)
    ensures Total(b, calls) <= b.balance + b.refill * Periods(b.deadline, t, b.interval)
    decreases |calls|
  {
    if calls != [] {
      var c, rest := calls[0], calls[1..];
      assert Timed(rest, c.now, t);
      TotalIsBounded(After(b, c), rest, c.now, t);
      if c.permits > 0 {
        UpdatedWithin(b, c.now, t);
      }
    } else {
      assert b.refill * Periods(b.deadline, t, b.interval) >= 0;
    }
  }

  lemma {:induction false} FinalKeepsMax(b: Bucket, calls: seq<Call>)
    requires b.interval > 0 && b.balance <= b.max
    ensures Final(b, calls).balance <= b.max
    decreases |calls|
  {
    if calls != [] {
      var c := calls[0];
      UpdatedWithin(b, c.now, c.now);
      FinalKeepsMax(After(b, c), calls[1..]);
    }
  }

  /** Since it was built, a bucket has granted at most its initial balance and one refill per whole interval elapsed. */
  lemma GrantedSinceBuild(builder: Builder, start: int, calls: seq<Call>, t: int)
    requires builder.interval > 0 && start <= t && Timed(calls, start, t)
    ensures Total(Built(builder, start), calls)
            <= Min(builder.initial, MaxOf(builder)) + builder.refill * ((t - start) / Period(builder.interval))
  {
    hide Total, Periods, MaxOf;
    TotalIsBounded(Built(builder, start), calls, start, t);
    PeriodsSinceBuild(start, t, builder.interval);
  }

  lemma PeriodsSinceBuild(start: int, t: int, interval: nat)
    requires interval > 0 && start <= t
    ensures Periods(start + Period(interval), t, interval) == (t - start) / Period(interval)
  {
    var p, q := Period(interval), (t - start) / Period(interval);
    DivAtLeast(t - start, p, 0);
    assert t - start == q * p + (t - start) % p;
    MulAtLeast(q, p);
    if t >= start + p {
      var j := (t - start - p) / p;
      assert t - start - p == j * p + (t - start - p) % p;
      assert (j + 1) * p == j * p + p && (q - 1) * p == q * p - p;
      DivAtLeast(t - start, p, j + 1);
      DivAtLeast(t - start - p, p, q - 1);
    }
  }

  /** From any state of the bucket, a window grants at most one full bucket and one refill per interval begun. */
  lemma {:induction false} WindowIsBounded(b: Bucket, calls: seq<Call>, from: int, to: int)
    requires b.interval > 0 && b.balance <= b.max && from <= to && Timed(calls, from, to)
    ensures Total(b, calls) <= b.max + b.refill * ((to - from) / Period(b.interval) + 1)
    decreases |calls|
  {
    hide Periods, CalculateDrain;
    DivAtLeast(to - from, Period(b.interval), 0);
    var w := (to - from) / Period(b.interval) + 1;
    if calls == [] {
      MulMonotone(b.refill, 0, w);
    } else {
      var c, rest := calls[0], calls[1..];
      assert Timed(rest, c.now, to) && Timed(rest, from, to);
      if c.permits == 0 {
        WindowIsBounded(b, rest, from, to);
      } else {
        var u, a := Updated(b, c.now), After(b, c);
        UpdatedWithin(b, c.now, to);
        TotalIsBounded(a, rest, c.now, to);
        PeriodsInWindow(u.deadline, from, to, b.interval);
        MulMonotone(b.refill, Periods(u.deadline, to, b.interval), w);
      }
    }
  }

  lemma PeriodsInWindow(deadline: int, from: int, to: int, interval: nat)
    requires interval > 0 && from < deadline && from <= to
    ensures Periods(deadline, to, interval) <= (to - from) / Period(interval) + 1
  {
    var p := Period(interval);
    DivAtLeast(to - from, p, 0);
    if to >= deadline {
      var j := (to - deadline) / p;
      assert j * p <= to - deadline;
      DivAtLeast(to - from, p, j);
    }
  }

  /** Over every run since the build, any window of it obeys the window bound, and the balance its maximum. */
  lemma EveryWindowIsBounded(builder: Builder, start: int, before: seq<Call>, window: seq<Call>, from: int, to: int)
    requires builder.interval > 0 && from <= to && Timed(window, from, to)
    ensures var b := Final(Built(builder, start), before);
            && b.balance <= MaxOf(builder)
            && Total(b, window) <= MaxOf(builder) + builder.refill * ((to - from) / Period(builder.interval) + 1)
  {
    var b0 := Built(builder, start);
    FinalKeepsMax(b0, before);
    WindowIsBounded(Final(b0, before), window, from, to);
  }

  /** The periods that one call pays for, and those of a whole run. */
  function Paid(b: Bucket, c: Call): nat
    requires b.interval > 0
  {
    if c.permits == 0 || c.now < b.deadline then 0 else CalculateDrain(c.now, b.deadline, b.interval).value.0
  }

  function PaidByRun(b: Bucket, calls: seq<Call>): nat
    requires b.interval > 0
    decreases |calls|
  {
    if calls == [] then 0 else Paid(b, calls[0]) + PaidByRun(After(b, calls[0]), calls[1..])
  }

  lemma UncappedCall(b: Bucket, c: Call, t: int)
    requires b.interval > 0 && c.now <= t
    requires b.balance + b.refill * Periods(b.deadline, t, b.interval) <= Min(b.max, USIZE_MAX)
    ensures Grant(b, c) + After(b, c).balance == b.balance + b.refill * Paid(b, c)
    ensures var d := b.deadline + Paid(b, c) * Period(b.interval);
            d <= After(b, c).deadline <= d + NANOS_PER_MILLI
    ensures After(b, c).balance + b.refill * Periods(After(b, c).deadline, t, b.interval) <= Min(b.max, USIZE_MAX)
    ensures c.permits > 0 ==> c.now < After(b, c).deadline
  {
    hide Periods, Period;
    if c.permits > 0 {
      UpdatedWithin(b, c.now, t);
      if c.now >= b.deadline {
        RefillDeadline(c.now, b.deadline, b.interval);
        RefillUsesPeriods(c.now, b.deadline, b.interval, t);
        UncappedRefill(b, Paid(b, c), Periods(b.deadline, t, b.interval));
      }
    }
  }

  lemma UncappedRefill(b: Bucket, tokens: nat, q: nat)
    requires tokens <= q && b.balance + b.refill * q <= Min(b.max, USIZE_MAX)
    ensures var product := (tokens * b.refill) % (USIZE_MAX + 1);
            Min(Min(b.balance + product, USIZE_MAX), b.max) == b.balance + b.refill * tokens
  {
    MulMonotone(b.refill, tokens, q);
    assert tokens * b.refill == b.refill * tokens;
  }

  /**
   While the maximum is out of reach no token is lost: what was granted and
   what is left make up the starting balance and one refill for every period
   paid, and the deadline has moved by exactly those periods, give or take
   less than one millisecond per call.
   */
  lemma {:induction false} NothingIsLost(b: Bucket, calls: seq<Call>, from: int, t: int)
    requires b.interval > 0 && Timed(calls, from, t)
    requires b.balance + b.refill * Periods(b.deadline, t, b.interval) <= Min(b.max, USIZE_MAX)
    ensures Total(b, calls) + Final(b, calls).balance == b.balance + b.refill * PaidByRun(b, calls)
    ensures var d := b.deadline + PaidByRun(b, calls) * Period(b.interval);
            d <= Final(b, calls).deadline <= d + |calls| * NANOS_PER_MILLI
    decreases |calls|
  {
    hide Grant, After, Paid, Periods, Period;
    if calls != [] {
      var c, rest := calls[0], calls[1..];
      assert Timed(rest, c.now, t);
      UncappedCall(b, c, t);
      AfterKeepsShape(b, c);
      var a := After(b, c);
      NothingIsLost(a, rest, c.now, t);
      var x, y := Paid(b, c), PaidByRun(a, rest);
      assert b.refill * (x + y) == b.refill * x + b.refill * y;
      assert (x + y) * Period(b.interval) == x * Period(b.interval) + y * Period(b.interval);
    }
  }

  lemma AfterKeepsShape(b: Bucket, c: Call)
    requires b.interval > 0
    ensures var a := After(b, c); a == b.(balance := a.balance, deadline := a.deadline)
  {
  }
}
