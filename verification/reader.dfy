/**
 The timestamp read used by every workload: `read_tsc` picks one of the
 timestamp sources from `skip_rdtsc` and the `run_mode` bits, by a fixed
 priority.

 The instructions themselves (rdtscp, lfence;rdtsc, rdtsc), the
 compare-and-swap memo of `rdtsc_cas` and the `clock_gettime` system call
 are not modelled: what they deliver is a `Sources` value handed in by the
 caller. What is modelled is the choice among them, the way the counter is
 assembled from its two 32-bit register halves, the way a clock reading is
 flattened into nanoseconds, and the fatal exit when the clock fails.
 */
module Reader {
  import opened Basics
  import opened Modes

  /** The timestamp sources, named after what they read. */
  datatype Variant =
    | Disabled            // skip_rdtsc: constant 0, no read at all
    | SerializingCounter  // rdtscp
    | FencedCounter       // lfence; rdtsc
    | MemoizedCounter     // rdtsc_cas
    | MonotonicClock      // clock_gettime(CLOCK_MONOTONIC)
    | NonMonotonicClock   // clock_gettime(CLOCK_NON_MONOTONIC)
    | PlainCounter        // rdtsc, the fallback

  /** Position of a source in the order `read_tsc` tests the mode bits. */
  function Rank(v: Variant): nat {
    match v
    case Disabled => 0
    case SerializingCounter => 0
    case FencedCounter => 1
    case MemoizedCounter => 2
    case MonotonicClock => 3
    case NonMonotonicClock => 4
    case PlainCounter => 5
  }

  /** The mode bit whose presence selects a source; the fallback has none. */
  function Selector(v: Variant): Option<Mode> {
    match v
    case SerializingCounter => Some(Rdtscp)
    case FencedCounter => Some(RdtscLfence)
    case MemoizedCounter => Some(RdtscCas)
    case MonotonicClock => Some(Gettime)
    case NonMonotonicClock => Some(GettimeNonMonotonic)
    case _ => None
  }

  /**
   The priority rule: v is a real source, its own bit (if it has one) is
   set, and no source ranked above it has its bit set.
   */
  predicate ChosenByPriority(v: Variant, m: set<Mode>) {
    && v != Disabled
    && (v == PlainCounter || Selector(v).value in m)
    && forall w: Variant :: w != Disabled && Rank(w) < Rank(v) ==> Selector(w).value !in m
  }

  /** The `if` chain at the head of `read_tsc`. */
  function SelectVariant(skip: bool, m: set<Mode>): (v: Variant)
    ensures v == Disabled <==> skip
    ensures !skip ==> ChosenByPriority(v, m)
  {
    if skip then Disabled
    else if Rdtscp in m then SerializingCounter
    else if RdtscLfence in m then FencedCounter
    else if RdtscCas in m then MemoizedCounter
    else if Gettime in m then MonotonicClock
    else if GettimeNonMonotonic in m then NonMonotonicClock
    else PlainCounter
  }

  /** The priority rule leaves no choice: at most one source satisfies it. */
  lemma PriorityIsUnique(v: Variant, w: Variant, m: set<Mode>)
    requires ChosenByPriority(v, m) && ChosenByPriority(w, m)
    ensures v == w
  {
  }

  /** MODE_RDTSC has no branch of its own: its bit never changes the choice. */
  lemma RdtscBitIgnored(skip: bool, m: set<Mode>)
    ensures SelectVariant(skip, m + {Rdtsc}) == SelectVariant(skip, m - {Rdtsc})
  {
  }

  /** The plain counter is read exactly when no other source bit is set. */
  lemma PlainCounterIsFallback(m: set<Mode>)
    ensures SelectVariant(false, m) == PlainCounter <==>
              m * {Rdtscp, RdtscLfence, RdtscCas, Gettime, GettimeNonMonotonic} == {}
  {
    if SelectVariant(false, m) != PlainCounter {
      var v := SelectVariant(false, m);
      assert Selector(v).value in m * {Rdtscp, RdtscLfence, RdtscCas, Gettime, GettimeNonMonotonic};
    }
  }

  /** 2^32: the weight of the high register half. */
  const HALF: int := 0x1_0000_0000

  /** The 32-bit registers edx and eax. */
  type u32 = x: int | 0 <= x < HALF

  /**
   `((unsigned long)edx) << 32 | eax`: the counter from its register halves.
   Shifting by 32 multiplies by 2^32, and the OR adds eax because the low
   32 bits of the shifted value are zero.
   */
  function JoinHalves(edx: u32, eax: u32): (r: u64)
    ensures r / HALF == edx && r % HALF == eax
  {
    edx * HALF + eax
  }

  /** Every 64-bit counter value is the join of its two halves. */
  lemma JoinSplit(r: u64)
    ensures JoinHalves(r / HALF, r % HALF) == r
  {
  }

  /** Distinct register pairs give distinct counter values. */
  lemma JoinInjective(edx: u32, eax: u32, edx': u32, eax': u32)
    requires JoinHalves(edx, eax) == JoinHalves(edx', eax')
    ensures edx == edx' && eax == eax'
  {
  }

  datatype Registers = Registers(edx: u32, eax: u32)

  datatype Timespec = Timespec(sec: int, nsec: int)

  /** `tsc.tv_sec * 1000000000ULL + tsc.tv_nsec`, computed in 64-bit unsigned. */
  function ClockNanos(t: Timespec): u64 {
    Wrap(Wrap(t.sec * 1000000000) + t.nsec)
  }

  /** A clock reading inside the 64-bit range. */
  predicate InRange(t: Timespec) {
    0 <= t.sec && 0 <= t.nsec < 1000000000 && t.sec * 1000000000 + t.nsec < U64
  }

  /** In range, the flattened reading is the exact nanosecond count. */
  lemma ClockNanosExact(t: Timespec)
    requires InRange(t)
    ensures ClockNanos(t) == t.sec * 1000000000 + t.nsec
  {
  }

  /** A later clock reading never flattens to a smaller number. */
  lemma ClockNanosMonotone(a: Timespec, b: Timespec)
    requires InRange(a) && InRange(b)
    requires a.sec < b.sec || (a.sec == b.sec && a.nsec <= b.nsec)
    ensures ClockNanos(a) <= ClockNanos(b)
  {
    ClockNanosExact(a);
    ClockNanosExact(b);
    if a.sec < b.sec {
      assert a.sec * 1000000000 + a.nsec < (a.sec + 1) * 1000000000 <= b.sec * 1000000000;
    }
  }

  /**
   What each source would deliver at the moment of the call. A clock is
   `None` when `clock_gettime` returns an error.
   */
  datatype Sources = Sources(
    serializing: Registers,
    fenced: Registers,
    plain: Registers,
    memoized: u64,
    monotonic: Option<Timespec>,
    nonMonotonic: Option<Timespec>)

  function Counter(r: Registers): u64 {
    JoinHalves(r.edx, r.eax)
  }

  function ReadClock(t: Option<Timespec>): Result<u64> {
    match t
    case None => Exit(ClockFailed)
    case Some(ts) => Ok(ClockNanos(ts))
  }

  /** One read from a chosen source. */
  function Read(v: Variant, s: Sources): (r: Result<u64>)
    ensures v == Disabled ==> r == Ok(0)
    ensures r.Exit? <==> (v == MonotonicClock && s.monotonic.None?) ||
                         (v == NonMonotonicClock && s.nonMonotonic.None?)
    ensures r.Exit? ==> r.fatal == ClockFailed
  {
    match v
    case Disabled => Ok(0)
    case SerializingCounter => Ok(Counter(s.serializing))
    case FencedCounter => Ok(Counter(s.fenced))
    case MemoizedCounter => Ok(s.memoized)
    case MonotonicClock => ReadClock(s.monotonic)
    case NonMonotonicClock => ReadClock(s.nonMonotonic)
    case PlainCounter => Ok(Counter(s.plain))
  }

  /** `read_tsc(&aux)`. */
  function ReadTsc(skip: bool, m: set<Mode>, s: Sources): (r: Result<u64>)
    // skip_rdtsc wins over every mode bit, and reads nothing
    ensures skip ==> r == Ok(0)
    // only a failing clock of the selected kind stops the process
    ensures r.Exit? ==> !skip && r.fatal == ClockFailed
    ensures r.Exit? ==> (Gettime in m && s.monotonic.None?) ||
                        (GettimeNonMonotonic in m && s.nonMonotonic.None?)
    // rdtscp is used whenever its bit is set and reads are on
    ensures !skip && Rdtscp in m ==> r == Ok(Counter(s.serializing))
  {
    Read(SelectVariant(skip, m), s)
  }

  /** The rerun of a comparison never reads a timestamp, whatever was configured. */
  lemma ComparisonRerunReadsNothing(args: seq<string>, atoi: string -> int, s: Sources)
    requires Configure(args, atoi).Ok?
    requires |Configure(args, atoi).value.phases| == 2
    ensures ReadTsc(Configure(args, atoi).value.phases[1].skipRdtsc, Configure(args, atoi).value.mode, s) == Ok(0)
  {
  }

  /** A configuration whose only run is the bare clock loop never skips its reads. */
  lemma ReadLoopReadsConfiguredClock(args: seq<string>, atoi: string -> int)
    requires Configure(args, atoi).Ok?
    requires Configure(args, atoi).value.phases[0].workload == ReadTscLoop
    ensures SelectVariant(Configure(args, atoi).value.phases[0].skipRdtsc, Configure(args, atoi).value.mode) != Disabled
  {
  }
}
