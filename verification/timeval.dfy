/**
 Wall-clock interval arithmetic: `tvsub`, `tvdelta`, and the loops-per-second
 rate that each worker thread derives from them.

 A `struct timeval` is a pair of signed longs (seconds, microseconds). The
 model keeps both fields as unbounded integers: the subtraction of two real
 timestamps never comes near the 64-bit range. The conversion to
 `unsigned long long` in `tvdelta` is modelled exactly, modulo 2^64.
 */
module TimeInterval {
  import opened Basics

  const USEC_PER_SEC: int := 1000000

  datatype Timeval = Timeval(sec: int, usec: int)

  /** A timeval as produced by gettimeofday: microseconds in [0, 10^6). */
  predicate Normalized(t: Timeval) {
    0 <= t.usec < USEC_PER_SEC
  }

  /** The instant a timeval denotes, in microseconds. */
  function Micros(t: Timeval): int {
    t.sec * USEC_PER_SEC + t.usec
  }

  /** Lexicographic "a is strictly earlier than b" on (sec, usec). */
  predicate Before(a: Timeval, b: Timeval) {
    a.sec < b.sec || (a.sec == b.sec && a.usec < b.usec)
  }

  function Max0(x: int): nat {
    if x < 0 then 0 else x
  }

  /**
   `tvsub(&tdiff, t1, t0)`: t1 - t0 with a one-second borrow, the fatal
   "ran backwards" exit when the borrow does not repair the microseconds,
   and a clamp to zero when the difference is negative.
   */
  function TvSub(t1: Timeval, t0: Timeval): (r: Result<Timeval>)
    // whatever the inputs, a returned difference is never negative
    ensures r.Ok? ==> r.value.sec >= 0 && r.value.usec >= 0
    // the process exits exactly when a borrow leaves microseconds negative
    ensures r.Exit? <==> t1.sec > t0.sec && t1.usec - t0.usec < -USEC_PER_SEC
    ensures r.Exit? ==> r.fatal == RanBackwards
    // on gettimeofday-shaped inputs: never fatal, normalised, exact or zero
    ensures Normalized(t1) && Normalized(t0) ==>
              && r.Ok?
              && Normalized(r.value)
              && Micros(r.value) == Max0(Micros(t1) - Micros(t0))
  {
    var sec := t1.sec - t0.sec;
    var usec := t1.usec - t0.usec;
    if usec < 0 && sec > 0 then
      if usec + USEC_PER_SEC < 0 then Exit(RanBackwards)
      else ClampBackwards(t1, t0, Timeval(sec - 1, usec + USEC_PER_SEC))
    else
      ClampBackwards(t1, t0, Timeval(sec, usec))
  }

  /** The "time shouldn't go backwards" step at the end of tvsub. */
  function ClampBackwards(t1: Timeval, t0: Timeval, d: Timeval): Result<Timeval> {
    if d.usec < 0 || t1.sec < t0.sec then Ok(Timeval(0, 0)) else Ok(d)
  }

  /**
   `tvdelta(start, stop)`: the tvsub difference flattened into microseconds
   as an `unsigned long long` (sec * 10^6 + usec, modulo 2^64).
   */
  function TvDelta(start: Timeval, stop: Timeval): (r: Result<u64>)
    ensures r.Exit? <==> TvSub(stop, start).Exit?
    ensures Normalized(start) && Normalized(stop) ==>
              r == Ok(Wrap(Max0(Micros(stop) - Micros(start))))
  {
    match TvSub(stop, start)
    case Exit(f) => Exit(f)
    case Ok(d) =>
      WrapAdd(d.sec * USEC_PER_SEC, d.usec);
      Ok(Wrap(Wrap(d.sec * USEC_PER_SEC) + d.usec))
  }

  /** On normalised timevals the lexicographic order is the order of instants. */
  lemma BeforeIsEarlier(a: Timeval, b: Timeval)
    requires Normalized(a) && Normalized(b)
    ensures Before(a, b) <==> Micros(a) < Micros(b)
  {
    if a.sec < b.sec {
      assert Micros(a) < (a.sec + 1) * USEC_PER_SEC <= Micros(b);
    } else if a.sec > b.sec {
      assert Micros(b) < (b.sec + 1) * USEC_PER_SEC <= Micros(a);
    }
  }

  /** stop >= start: tvdelta is the exact elapsed microseconds, borrow included. */
  lemma TvDeltaExact(start: Timeval, stop: Timeval)
    requires Normalized(start) && Normalized(stop)
    requires !Before(stop, start)
    requires Micros(stop) - Micros(start) < U64
    ensures TvDelta(start, stop) == Ok(Micros(stop) - Micros(start))
  {
    BeforeIsEarlier(stop, start);
  }

  /**
   stop < start: tvdelta is 0, never a wrapped negative. This holds for all
   inputs, normalised or not: a backwards interval never takes the borrow.
   */
  lemma TvDeltaBackwards(start: Timeval, stop: Timeval)
    requires Before(stop, start)
    ensures TvSub(stop, start) == Ok(Timeval(0, 0))
    ensures TvDelta(start, stop) == Ok(0)
  {
  }

  /** The fatal branch is reachable, but only from a non-normalised input. */
  lemma RanBackwardsNeedsBadInput()
    ensures TvSub(Timeval(1, 0), Timeval(0, 2 * USEC_PER_SEC)).Exit?
    ensures forall t1, t0 :: TvSub(t1, t0).Exit? ==> !Normalized(t1) || !Normalized(t0)
  {
  }

  /**
   The rate each worker reports, as written: `(loops * USEC_PER_SEC) / delta`
   in `unsigned long`, with no guard against a zero delta.
   */
  function RateAsWritten(loops: u64, delta: u64): (r: Result<u64>)
    ensures r.Exit? <==> delta == 0
    ensures r.Ok? ==> r.value * delta <= Wrap(loops * USEC_PER_SEC) < (r.value + 1) * delta
  {
    if delta == 0 then Exit(DivideByZero)
    else Ok(Wrap(loops * USEC_PER_SEC) / delta)
  }

  /**
   A gettimeofday pair one second apart in the wrong order (a wall-clock
   step back during the run) makes tvdelta 0 and the rate division fatal.
   */
  lemma RateAsWrittenDividesByZero(loops: u64)
    ensures TvDelta(Timeval(100, 0), Timeval(99, 0)) == Ok(0)
    ensures RateAsWritten(loops, 0) == Exit(DivideByZero)
  {
  }

  /**
   The rate with the guard the zero clamp calls for: no rate is computable
   from a zero interval, otherwise the same quotient.
   */
  function Rate(loops: u64, delta: u64): (r: Option<u64>)
    ensures r.None? <==> delta == 0
    ensures r.Some? ==> r.value * delta <= Wrap(loops * USEC_PER_SEC) < (r.value + 1) * delta
  {
    if delta == 0 then None else Some(Wrap(loops * USEC_PER_SEC) / delta)
  }

  /** The guarded rate never dies and agrees with the unguarded one wherever that one returns. */
  lemma RateAgrees(loops: u64, delta: u64)
    ensures RateAsWritten(loops, delta).Ok? ==> Rate(loops, delta) == Some(RateAsWritten(loops, delta).value)
    ensures RateAsWritten(loops, delta).Exit? ==> Rate(loops, delta) == None
  {
  }

  /** A run measured over a real, positive interval always yields a rate. */
  lemma RateOfForwardRun(loops: u64, start: Timeval, stop: Timeval)
    requires Normalized(start) && Normalized(stop)
    requires Before(start, stop)
    requires Micros(stop) - Micros(start) < U64
    ensures TvDelta(start, stop).Ok? && TvDelta(start, stop).value > 0
    ensures Rate(loops, TvDelta(start, stop).value).Some?
  {
    BeforeIsEarlier(start, stop);
    TvDeltaExact(start, stop);
  }
}
