/**
 The low-IPC kernel `low_ipc`: 1024 rounds of pointer chasing through the
 shared matrix, each round following 256 links, reading the timestamp source
 on every link whose `(i * j) % 500` is zero, and then mixing neighbouring
 entries into the cell the chase ended on.

 The matrix is passed in and returned as a value; its length is
 `matrix_size`. Entries are `unsigned long` and wrap modulo 2^64; the round
 indices `src` and `dst` are C `int`s, so the preconditions rule out the
 signed overflow that `src + k` and `dst + j` would otherwise risk.

 Inputs stand for what the kernel cannot compute itself: `rand` is the value
 `rand()` returned, `tsc(r)` is the value of the r-th timestamp read of the
 call (0 for every read when `skip_rdtsc` is set), and `stopping(i)` is the
 flag as the kernel sees it at the end of round i.
 */
module LowIpc {
  import opened Basics

  /** Outer rounds per call. */
  const ROUNDS: nat := 1024

  /** Links followed per round. */
  const LINKS: nat := 256

  /** A timestamp read happens on the links where `(i * j) % 500 == 0`. */
  const TSC_PERIOD: nat := 500

  /** `a % n` for a positive modulus: an index into a matrix of n entries. */
  function Slot(a: nat, n: nat): (r: nat)
    requires 0 < n
    ensures r < n
    ensures a < n ==> r == a
  {
    a % n
  }

  /**
   Link j of round i reads the timestamp source: `(i * j) % 500 == 0`, with
   the product written `Mul(i, j)`, which `MulIsTimes` shows is `i * j`.
   */
  predicate Hit(i: nat, j: nat) {
    Mul(i, j) % TSC_PERIOD == 0
  }

  /** The links among the first `j` of round i that read the timestamp source. */
  function HitLinks(i: nat, j: nat): set<nat> {
    set q | 0 <= q < j && Hit(i, q)
  }

  /** `#{j < 256 : (i*j) % 500 == 0}`: reads (and `*loops` bumps) in round i. */
  function HitsInRow(i: nat): nat {
    |HitLinks(i, LINKS)|
  }

  /**
   Reads among the first `j` links of round i, counted one link at a time
   as the j loop does. (Naming i in the decreases clause keeps the verifier
   from unrolling all 256 links whenever j is the constant LINKS.)
   */
  function HitsUpTo(i: nat, j: nat): nat
    decreases j, i
  {
    if j == 0 then 0 else HitsUpTo(i, j - 1) + (if Hit(i, j - 1) then 1 else 0)
  }

  /** Counting link by link gives the number of reading links. */
  lemma {:induction false} HitsUpToCounts(i: nat, j: nat)
    ensures HitsUpTo(i, j) == |HitLinks(i, j)|
  {
    if j > 0 {
      HitsUpToCounts(i, j - 1);
      if Hit(i, j - 1) {
        assert HitLinks(i, j) == HitLinks(i, j - 1) + {j - 1};
      } else {
        assert HitLinks(i, j) == HitLinks(i, j - 1);
      }
    } else {
      assert HitLinks(i, j) == {};
    }
  }

  /** Reads in rounds 0 .. c-1. */
  function HitsBefore(c: nat): nat
    decreases c
  {
    if c == 0 then 0 else HitsBefore(c - 1) + HitsInRow(c - 1)
  }

  /** `val` after r reads: the readings summed in `unsigned long`. */
  function SumReads(tsc: nat -> u64, r: nat): u64
    decreases r
  {
    if r == 0 then 0 else Wrap(SumReads(tsc, r - 1) as int + tsc(r - 1) as int)
  }

  /** The same readings summed without wrapping. */
  function TotalReads(tsc: nat -> u64, r: nat): nat
    decreases r
  {
    if r == 0 then 0 else TotalReads(tsc, r - 1) + tsc(r - 1)
  }

  /** Wrapping after every addition is wrapping once at the end. */
  lemma {:induction false} SumReadsIsWrappedTotal(tsc: nat -> u64, r: nat)
    ensures SumReads(tsc, r) == Wrap(TotalReads(tsc, r))
  {
    if r == 0 {
      WrapSmall(0);
    } else {
      SumReadsIsWrappedTotal(tsc, r - 1);
      WrapAdd(TotalReads(tsc, r - 1), tsc(r - 1));
    }
  }

  /** With `skip_rdtsc` every read yields 0, and so does the sum. */
  lemma {:induction false} SkippedReadsSumToZero(tsc: nat -> u64, r: nat)
    requires forall q :: tsc(q) == 0
    ensures SumReads(tsc, r) == 0
  {
    if r > 0 {
      SkippedReadsSumToZero(tsc, r - 1);
      WrapSmall(0);
    }
  }

  /** Counting reads: never more than the links looked at. */
  lemma {:induction false} HitsUpToBound(i: nat, j: nat)
    ensures HitsUpTo(i, j) <= j
    ensures j > 0 ==> HitsUpTo(i, j) >= 1
  {
    if j > 0 {
      HitsUpToBound(i, j - 1);
      MulIsTimes(i, 0);
    }
  }

  /** A single missed link keeps the count below the number of links. */
  lemma {:induction false} HitsUpToMiss(i: nat, j: nat, miss: nat)
    requires miss < j && !Hit(i, miss)
    ensures HitsUpTo(i, j) < j
  {
    HitsUpToBound(i, j - 1);
    if miss < j - 1 {
      HitsUpToMiss(i, j - 1, miss);
    }
  }

  /** Every link hits exactly when every link is counted. */
  lemma {:induction false} HitsUpToAll(i: nat, j: nat)
    requires forall q :: 0 <= q < j ==> Hit(i, q)
    ensures HitsUpTo(i, j) == j
  {
    if j > 0 {
      HitsUpToAll(i, j - 1);
    }
  }

  /** A multiple of 500 times anything is a multiple of 500. */
  lemma MultipleHits(i: nat, j: nat)
    requires i % TSC_PERIOD == 0
    ensures Hit(i, j)
  {
    MulIsTimes(i, j);
    var q := i / TSC_PERIOD;
    assert i * j == TSC_PERIOD * (q * j);
  }

  /** Every round reads at least once (link 0) and at most 256 times. */
  lemma HitsInRowRange(i: nat)
    ensures 1 <= HitsInRow(i) <= LINKS
  {
    HitsUpToBound(i, LINKS);
    HitsUpToCounts(i, LINKS);
  }

  /**
   A round reads on all 256 links exactly when its index is a multiple of
   500: rounds 0, 500 and 1000. Every other round misses link 1.
   */
  lemma FullRowIffMultiple(i: nat)
    ensures HitsInRow(i) == LINKS <==> i % TSC_PERIOD == 0
  {
    HitsUpToCounts(i, LINKS);
    if i % TSC_PERIOD == 0 {
      forall q | 0 <= q < LINKS ensures Hit(i, q) {
        MultipleHits(i, q);
      }
      HitsUpToAll(i, LINKS);
    } else {
      MulIsTimes(i, 1);
      HitsUpToMiss(i, LINKS, 1);
    }
  }

  /** The first round reads on every link: 256 reads. */
  lemma FirstRowReadsEveryLink()
    ensures HitsInRow(0) == LINKS
  {
    FullRowIffMultiple(0);
  }

  /** The reads of c rounds number between c and 256 * c. */
  lemma {:induction false} HitsBeforeRange(c: nat)
    ensures c <= HitsBefore(c) <= LINKS * c
  {
    if c > 0 {
      HitsBeforeRange(c - 1);
      HitsInRowRange(c - 1);
    }
  }

  /** Link j from cell d: `global_matrix[(d + j) % matrix_size] % matrix_size`. */
  function Link(m: seq<u64>, d: nat, j: nat): (e: nat)
    requires 0 < |m|
    ensures e < |m|
  {
    Slot(m[Slot(d + j, |m|)], |m|)
  }

  /**
   The end of the chase from d over the first `j` links of a round. (As for
   `HitsUpTo`, naming d in the decreases clause keeps the verifier from
   unrolling all 256 links.)
   */
  function ChaseEnd(m: seq<u64>, d: nat, j: nat): (e: nat)
    requires 0 < |m| && d < |m|
    ensures e < |m|
    decreases j, d
  {
    if j == 0 then d else Link(m, ChaseEnd(m, d, j - 1), j - 1)
  }

  /**
   `val += read_tsc(&aux)`: an accumulator holding the first `count`
   readings' total modulo 2^64 holds the first `count + 1` readings' total.
   */
  function AddRead(tsc: nat -> u64, count: nat, val: u64): (r: u64)
    requires val == Wrap(TotalReads(tsc, count))
    ensures r == Wrap(TotalReads(tsc, count + 1))
  {
    WrapAdd(TotalReads(tsc, count), tsc(count));
    Wrap(val as int + tsc(count) as int)
  }

  /** `*loops += 1` on a counter that has moved c steps from `base`. */
  function Bump(base: u64, c: nat, loops: u64): (r: u64)
    requires loops == Wrap(base as int + c)
    ensures r == Wrap(base as int + (c + 1))
  {
    WrapAdd(base as int + c, 1);
    Wrap(loops as int + 1)
  }

  /**
   Link j of round i, with its timestamp read and `*loops` bump when
   `(i * j) % 500 == 0`. `count0` and `base` are the read count and the
   counter at the start of the round.
   */
  method Follow(m: seq<u64>, i: nat, j: nat, count0: nat, base: u64, tsc: nat -> u64,
                dst: nat, loops: u64, val: u64, count: nat)
    returns (dst': nat, loops': u64, val': u64, count': nat)
    requires 0 < |m|
    requires count == count0 + HitsUpTo(i, j)
    requires val == SumReads(tsc, count)
    requires loops == Wrap(base as int + HitsUpTo(i, j))
    ensures dst' == Link(m, dst, j)
    ensures count' == count0 + HitsUpTo(i, j + 1)
    ensures val' == SumReads(tsc, count')
    ensures loops' == Wrap(base as int + HitsUpTo(i, j + 1))
  {
    dst', loops', val', count' := Link(m, dst, j), loops, val, count;
    if Hit(i, j) {
      SumReadsIsWrappedTotal(tsc, count);
      SumReadsIsWrappedTotal(tsc, count + 1);
      val' := AddRead(tsc, count, val);
      count' := count + 1;
      loops' := Bump(base, HitsUpTo(i, j), loops);
    }
  }

  /**
   The j loop of round i: `dst = global_matrix[(dst + j) % matrix_size] %
   matrix_size` for j = 0 .. 255, with a timestamp read and a `*loops` bump
   on every link j where `(i * j) % 500 == 0`. `count` is the number of reads of
   the call so far and `val` is their sum.
   */
  method Chase(m: seq<u64>, i: nat, dst: nat, loops: u64, val: u64, count: nat, tsc: nat -> u64)
    returns (dst': nat, loops': u64, val': u64, count': nat)
    requires 0 < |m| && dst < |m|
    // `dst + j` stays within a C int
    requires |m| - 1 + LINKS - 1 <= INT_MAX
    requires val == SumReads(tsc, count)
    ensures dst' < |m|
    ensures dst' == ChaseEnd(m, dst, LINKS)
    ensures count' == count + HitsInRow(i)
    ensures val' == SumReads(tsc, count')
    ensures loops' == Wrap(loops as int + HitsInRow(i))
  {
    dst', loops', val', count' := dst, loops, val, count;
    WrapSmall(loops);
    var j := 0;
    while j < LINKS
      invariant 0 <= j <= LINKS
      invariant dst' == ChaseEnd(m, dst, j)
      invariant count' == count + HitsUpTo(i, j)
      invariant val' == SumReads(tsc, count')
      invariant loops' == Wrap(loops as int + HitsUpTo(i, j))
    {
      dst', loops', val', count' := Follow(m, i, j, count, loops, tsc, dst', loops', val', count');
      j := j + 1;
    }
    HitsUpToCounts(i, LINKS);
  }

  /**
   Step k of the k loop: `global_matrix[dst] += global_matrix[(src + k) %
   matrix_size] + global_matrix[(dst + k) % matrix_size]`. Only cell dst
   changes.
   */
  function MixStep(m: seq<u64>, src: nat, dst: nat, k: nat): (r: seq<u64>)
    requires dst < |m|
    ensures |r| == |m|
    ensures forall p :: 0 <= p < |m| && p != dst ==> r[p] == m[p]
  {
    m[dst := Wrap(m[dst] as int + m[Slot(src + k, |m|)] as int + m[Slot(dst + k, |m|)] as int)]
  }

  /**
   The matrix after the first `steps` steps of the k loop, each step reading
   the values the previous steps left.
   */
  function Mixed(m: seq<u64>, src: nat, dst: nat, steps: nat): (r: seq<u64>)
    requires dst < |m|
    ensures |r| == |m|
    ensures forall p :: 0 <= p < |m| && p != dst ==> r[p] == m[p]
    decreases steps
  {
    if steps == 0 then m else MixStep(Mixed(m, src, dst, steps - 1), src, dst, steps - 1)
  }

  /** The first step always reads the cell it writes: it adds m[src] and doubles m[dst]. */
  lemma FirstMixStep(m: seq<u64>, src: nat, dst: nat)
    requires src < |m| && dst < |m|
    ensures Mixed(m, src, dst, 1)[dst] == Wrap(m[src] as int + 2 * m[dst] as int)
  {
  }

  /** The k loop of a round, run `2 * factor` times. */
  method Mix(m: seq<u64>, src: nat, dst: nat, factor: int) returns (m': seq<u64>)
    requires src < |m| && dst < |m|
    requires IsInt(2 * factor)
    // `src + k` and `dst + k` stay within a C int
    requires src + 2 * factor - 1 <= INT_MAX && dst + 2 * factor - 1 <= INT_MAX
    ensures |m'| == |m|
    ensures forall p :: 0 <= p < |m| && p != dst ==> m'[p] == m[p]
    ensures factor <= 0 ==> m' == m
    ensures m' == Mixed(m, src, dst, if factor <= 0 then 0 else 2 * factor)
  {
    m' := m;
    var k := 0;
    while k < 2 * factor
      invariant 0 <= k && (factor > 0 ==> k <= 2 * factor) && (factor <= 0 ==> k == 0)
      invariant m' == Mixed(m, src, dst, k)
    {
      m' := MixStep(m', src, dst, k);
      k := k + 1;
    }
  }

  /**
   After `rounds` rounds: `count` reads have happened, `val` is their sum and
   `loops` is `loops0` advanced by one per read.
   */
  ghost predicate Accounted(tsc: nat -> u64, loops0: u64, rounds: nat, count: nat, val: u64, loops: u64) {
    count == HitsBefore(rounds) && val == SumReads(tsc, count) && loops == Wrap(loops0 as int + count)
  }

  /** A round's reads, added to the account of the earlier rounds. */
  lemma AccountRound(tsc: nat -> u64, loops0: u64, i: nat, count: nat, val: u64, loops: u64,
                     count': nat, val': u64, loops': u64)
    requires Accounted(tsc, loops0, i, count, val, loops)
    requires count' == count + HitsInRow(i)
    requires val' == SumReads(tsc, count')
    requires loops' == Wrap(loops as int + HitsInRow(i))
    ensures Accounted(tsc, loops0, i + 1, count', val', loops')
  {
    WrapAdd(loops0 as int + count, HitsInRow(i));
  }

  /**
   Round i of `low_ipc`: pick `src` and `dst` from the matrix at `index`,
   chase 256 links, then mix into the cell the chase ended on. `count` reads
   have happened in the earlier rounds; `val` is their sum and `loops` is
   `loops0` advanced by them.
   */
  method Round(m: seq<u64>, i: nat, index: nat, factor: int, loops0: u64, tsc: nat -> u64,
               loops: u64, val: u64, count: nat)
    returns (m': seq<u64>, index': nat, dst: nat, loops': u64, val': u64, count': nat)
    requires index < |m|
    requires |m| - 1 + LINKS - 1 <= INT_MAX
    requires IsInt(2 * factor)
    requires |m| - 1 + 2 * factor - 1 <= INT_MAX
    requires Accounted(tsc, loops0, i, count, val, loops)
    ensures |m'| == |m| && index' < |m| && dst < |m|
    ensures index' == Slot(index + 1, |m|)
    // the chase starts at the cell that src (the entry at `index`) points to
    ensures dst == ChaseEnd(m, Slot(m[Slot(m[index], |m|)], |m|), LINKS)
    ensures forall p :: 0 <= p < |m| && p != dst ==> m'[p] == m[p]
    ensures factor <= 0 ==> m' == m
    ensures Accounted(tsc, loops0, i + 1, count', val', loops')
  {
    var n := |m|;
    var src := Slot(m[index], n);
    index' := Slot(index + 1, n);
    dst := Slot(m[src], n);
    dst, loops', val', count' := Chase(m, i, dst, loops, val, count, tsc);
    AccountRound(tsc, loops0, i, count, val, loops, count', val', loops');
    m' := Mix(m, src, dst, factor);
  }

  /** A round that did not see the flag extends the stretch of rounds that did not see it. */
  lemma NoStopYet(stopping: nat -> bool, rounds: nat, done: bool)
    requires forall t :: 0 <= t < rounds - 1 ==> !stopping(t)
    requires rounds > 0 ==> (done <==> stopping(rounds - 1))
    requires !done
    ensures forall t :: 0 <= t < rounds ==> !stopping(t)
  {
  }

  /**
   The outer loop of `low_ipc` over at most `limit` rounds (1024 in the
   source; a parameter here so that proofs never see the literal bound),
   starting from matrix position `index`. Returns the matrix, the counter,
   the number of rounds run, the cell each round wrote and `val`.
   */
  method Rounds(m0: seq<u64>, factor: int, loops0: u64, index0: nat, limit: nat,
                tsc: nat -> u64, stopping: nat -> bool)
    returns (m: seq<u64>, loops: u64, rounds: nat, dsts: seq<nat>, val: u64)
    requires index0 < |m0|
    requires |m0| - 1 + LINKS - 1 <= INT_MAX
    requires IsInt(2 * factor)
    requires |m0| - 1 + 2 * factor - 1 <= INT_MAX
    ensures |m| == |m0|
    ensures rounds <= limit && (0 < limit ==> 0 < rounds)
    ensures forall t :: 0 <= t < rounds - 1 ==> !stopping(t)
    ensures 0 < rounds < limit ==> stopping(rounds - 1)
    ensures |dsts| == rounds
    ensures forall r :: 0 <= r < rounds ==> dsts[r] < |m0|
    ensures forall p :: 0 <= p < |m0| && p !in dsts ==> m[p] == m0[p]
    ensures factor <= 0 ==> m == m0
    ensures loops == Wrap(loops0 as int + HitsBefore(rounds))
    ensures val == SumReads(tsc, HitsBefore(rounds))
  {
    var n := |m0|;
    m, loops, dsts := m0, loops0, [];
    WrapSmall(loops0);
    val := 0;
    var count: nat := 0;
    var index: nat := index0;
    rounds := 0;
    var done := false;
    while rounds < limit && !done
      invariant 0 <= rounds <= limit
      invariant |m| == n && index < n
      invariant |dsts| == rounds
      invariant forall r :: 0 <= r < rounds ==> dsts[r] < n
      invariant forall p :: 0 <= p < n && p !in dsts ==> m[p] == m0[p]
      invariant factor <= 0 ==> m == m0
      invariant Accounted(tsc, loops0, rounds, count, val, loops)
      invariant forall t :: 0 <= t < rounds - 1 ==> !stopping(t)
      invariant rounds > 0 ==> (done <==> stopping(rounds - 1))
      invariant rounds == 0 ==> !done
    {
      NoStopYet(stopping, rounds, done);
      var dst: nat;
      m, index, dst, loops, val, count := Round(m, rounds, index, factor, loops0, tsc, loops, val, count);
      dsts := dsts + [dst];
      done := stopping(rounds);
      rounds := rounds + 1;
    }
  }

  /**
   `low_ipc(&loops)`. Returns the matrix, the counter, the return value
   `global_matrix[dst] + val`, the number of rounds run, and the cell each
   round wrote.
   */
  method LowIpc(m0: seq<u64>, factor: int, loops0: u64, rand: int, tsc: nat -> u64, stopping: nat -> bool)
    returns (m: seq<u64>, loops: u64, result: u64, rounds: nat, dsts: seq<nat>)
    requires 0 < |m0|
    requires 0 <= rand <= RAND_MAX
    // no C int overflow in `dst + j`, `2 * factor`, `src + k` or `dst + k`
    requires |m0| - 1 + LINKS - 1 <= INT_MAX
    requires IsInt(2 * factor)
    requires |m0| - 1 + 2 * factor - 1 <= INT_MAX
    ensures |m| == |m0|
    // the flag is looked at only after a full round, and the first raised flag ends the call
    ensures 1 <= rounds <= ROUNDS
    ensures forall t :: 0 <= t < rounds - 1 ==> !stopping(t)
    ensures rounds < ROUNDS ==> stopping(rounds - 1)
    // each round writes one cell, inside the matrix, and nothing else changes
    ensures |dsts| == rounds
    ensures forall r :: 0 <= r < rounds ==> dsts[r] < |m0|
    ensures forall p :: 0 <= p < |m0| && p !in dsts ==> m[p] == m0[p]
    ensures factor <= 0 ==> m == m0
    // the counter and the return value account for exactly the reads of the rounds run
    ensures loops == Wrap(loops0 as int + HitsBefore(rounds))
    ensures result == Wrap(m[dsts[rounds - 1]] as int + SumReads(tsc, HitsBefore(rounds)) as int)
  {
    var val;
    m, loops, rounds, dsts, val := Rounds(m0, factor, loops0, Slot(rand, |m0|), ROUNDS, tsc, stopping);
    result := Wrap(m[dsts[rounds - 1]] as int + val as int);
  }
}
