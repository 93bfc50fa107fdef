/**
 The high-IPC kernel `high_ipc`: a dense N x N matrix product computed in
 place inside the shared matrix, reading the timestamp source every 500th
 multiply-accumulate and counting those reads in `*loops`.

 The matrix is passed in and returned as a value. Its first three N*N
 blocks are m1 = [0, N*N), m2 = [N*N, 2*N*N) and m3 = [2*N*N, 3*N*N), each
 read row-major. All arithmetic on entries is `unsigned long`, so the
 product is computed modulo 2^64.

 The `stopping` flag, written by another thread, is an oracle: `stopping(t)`
 is what the kernel sees when it tests the flag right after its t-th
 multiply-accumulate of the call (t counts from 1). The timestamp value read
 in this kernel is discarded by the source, so no reading is an input here.
 */
module HighIpc {
  import opened Basics

  /** `high_ipc_matrix`: the default N. */
  const HIGH_IPC_MATRIX: nat := 105

  /** The timestamp source is read, and `*loops` bumped, every this many steps. */
  const TSC_PERIOD: nat := 500

  /** N * N: the size of one block (`Mul(n, n) == n * n` by `MulIsTimes`). */
  function Sq(n: nat): nat {
    Mul(n, n)
  }

  /** Row-major index of cell (i, j) in an n x n block: i * n + j (see `CellIsPlain`). */
  function Cell(n: nat, i: nat, j: nat): (c: nat)
    ensures i < n && j < n ==> c < Sq(n)
  {
    if i < n then MulMono(i + 1, n, n); Mul(i, n) + j
    else Mul(i, n) + j
  }

  /** Row-major order: a cell visited earlier has a smaller index. */
  lemma CellOrder(n: nat, i: nat, j: nat, i': nat, j': nat)
    requires j < n && j' <= n
    requires i < i' || (i == i' && j < j')
    ensures Cell(n, i, j) < Cell(n, i', j')
  {
    if i < i' {
      MulMono(i + 1, i', n);
    }
  }

  /**
   The first `len` terms of the dot product of row i of m1 with column j of
   m2, as an unbounded integer sum.
   */
  function Dot(m: seq<u64>, n: nat, i: nat, j: nat, len: nat): int
    requires i < n && j < n && len <= n
    requires 3 * Sq(n) <= |m|
    decreases len
  {
    if len == 0 then 0
    else Dot(m, n, i, j, len - 1) + Mul(m[Cell(n, i, len - 1)], m[Sq(n) + Cell(n, len - 1, j)])
  }

  /** Dot products read only m1 and m2. */
  lemma {:induction false} DotFrame(m: seq<u64>, m': seq<u64>, n: nat, i: nat, j: nat, len: nat)
    requires i < n && j < n && len <= n
    requires 3 * Sq(n) <= |m| && |m'| == |m|
    requires forall p :: 0 <= p < 2 * Sq(n) ==> m'[p] == m[p]
    ensures Dot(m', n, i, j, len) == Dot(m, n, i, j, len)
  {
    if len > 0 {
      DotFrame(m, m', n, i, j, len - 1);
    }
  }

  /** One step of the counter: `*loops` moves exactly when the step count reaches a multiple of 500. */
  lemma TickStep(loops: u64, base: nat, o: nat)
    requires base <= o
    ensures Wrap(Wrap(loops + (o / TSC_PERIOD - base / TSC_PERIOD)) + (if (o + 1) % TSC_PERIOD == 0 then 1 else 0))
         == Wrap(loops + ((o + 1) / TSC_PERIOD - base / TSC_PERIOD))
  {
    var d := if (o + 1) % TSC_PERIOD == 0 then 1 else 0;
    assert (o + 1) / TSC_PERIOD == o / TSC_PERIOD + d;
    WrapAdd(loops + (o / TSC_PERIOD - base / TSC_PERIOD), d);
  }

  /** Counters kept as "ticks since a base" compose: a run from a to b extends a run from 0 to a. */
  lemma CounterStep(loops0: u64, a: nat, b: nat, l: u64)
    requires l == Wrap(loops0 + a / TSC_PERIOD)
    ensures Wrap(l + (b / TSC_PERIOD - a / TSC_PERIOD)) == Wrap(loops0 + b / TSC_PERIOD)
  {
    WrapAdd(loops0 + a / TSC_PERIOD, b / TSC_PERIOD - a / TSC_PERIOD);
    assert loops0 + a / TSC_PERIOD + (b / TSC_PERIOD - a / TSC_PERIOD) == loops0 + b / TSC_PERIOD;
  }

  /** `sum += m1[i*N+k] * m2[k*N+j]` in `unsigned long`: a sum of k terms becomes a sum of k + 1. */
  function AddTerm(m: seq<u64>, n: nat, i: nat, j: nat, k: nat, sum: u64): (r: u64)
    requires i < n && j < n && k < n
    requires 3 * Sq(n) <= |m|
    requires sum == Wrap(Dot(m, n, i, j, k))
    ensures r == Wrap(Dot(m, n, i, j, k + 1))
  {
    MulIsTimes(m[Cell(n, i, k)], m[Sq(n) + Cell(n, k, j)]);
    WrapAdd(Dot(m, n, i, j, k), (m[Cell(n, i, k)] as int) * (m[Sq(n) + Cell(n, k, j)] as int));
    Wrap(sum + (m[Cell(n, i, k)] as int) * (m[Sq(n) + Cell(n, k, j)] as int))
  }

  /**
   `ops_count++` and, on every multiple of 500, `read_tsc(&aux); *loops += 1`.
   A counter that matched the steps taken since `base` still does.
   */
  method Tick(base: nat, loops0: u64, ops: nat, loops: u64) returns (ops': nat, loops': u64)
    requires base <= ops
    requires loops == Wrap(loops0 + (ops / TSC_PERIOD - base / TSC_PERIOD))
    ensures ops' == ops + 1
    ensures loops' == Wrap(loops0 + (ops' / TSC_PERIOD - base / TSC_PERIOD))
  {
    TickStep(loops0, base, ops);
    ops' := ops + 1;
    loops' := loops;
    if ops' % TSC_PERIOD == 0 {
      loops' := Wrap(loops' + 1);
    } else {
      WrapSmall(loops');
    }
  }

  /**
   The innermost loop of `high_ipc` for one cell (i, j) of m3: zero the
   cell, then add `m1[i*N+k] * m2[k*N+j]` for k = 0, 1, ..., bumping the
   counters and testing the flag after every step. `ops` is the call's
   multiply-accumulate count so far.

   The running value of the cell is kept in `sum` and stored when the loop
   ends, whether it ran to N or stopped early. The loop reads only m1 and m2,
   never m3, so this leaves the matrix exactly as the in-place `+=` does.
   */
  method MultiplyCell(m: seq<u64>, n: nat, i: nat, j: nat, ops: nat, loops: u64, stopping: nat -> bool)
    returns (m': seq<u64>, ops': nat, loops': u64, stopped: bool)
    requires i < n && j < n
    requires 3 * Sq(n) <= |m|
    ensures |m'| == |m|
    // only the cell itself is written
    ensures forall p :: 0 <= p < |m| && p != 2 * Sq(n) + Cell(n, i, j) ==> m'[p] == m[p]
    ensures ops < ops' <= ops + n
    ensures loops' == Wrap(loops + (ops' / TSC_PERIOD - ops / TSC_PERIOD))
    ensures forall t :: ops < t < ops' ==> !stopping(t)
    ensures stopped <==> stopping(ops')
    // a cell finished without seeing the flag holds the dot product modulo 2^64
    ensures !stopped ==> ops' == ops + n
    ensures !stopped ==> m'[2 * Sq(n) + Cell(n, i, j)] == Wrap(Dot(m, n, i, j, n))
  {
    var sum: u64 := 0;
    ops', loops', stopped := ops, loops, false;
    WrapSmall(loops);
    var k := 0;
    while k < n && !stopped
      invariant 0 <= k <= n
      invariant sum == Wrap(Dot(m, n, i, j, k))
      invariant ops' == ops + k
      invariant loops' == Wrap(loops + (ops' / TSC_PERIOD - ops / TSC_PERIOD))
      invariant forall t :: ops < t < ops' ==> !stopping(t)
      invariant stopped <==> ops' > ops && stopping(ops')
    {
      sum := AddTerm(m, n, i, j, k, sum);
      ops', loops' := Tick(ops, loops, ops', loops');
      stopped := stopping(ops');
      k := k + 1;
    }
    m' := m[2 * Sq(n) + Cell(n, i, j) := sum];
  }

  /**
   The cells of m3 before (i, j) in row-major order hold their entry of the
   product of m1 and m2, modulo 2^64.
   */
  ghost predicate Done(m: seq<u64>, m0: seq<u64>, n: nat, i: nat, j: nat)
    requires 3 * Sq(n) <= |m0| && |m| == |m0|
  {
    forall i', j' :: 0 <= i' < n && 0 <= j' < n && (i' < i || (i' == i && j' < j)) ==>
      m[2 * Sq(n) + Cell(n, i', j')] == Wrap(Dot(m0, n, i', j', n))
  }

  /** m3 holds the whole product. */
  ghost predicate IsProduct(m: seq<u64>, m0: seq<u64>, n: nat)
    requires 3 * Sq(n) <= |m0| && |m| == |m0|
  {
    Done(m, m0, n, n, 0)
  }

  /** Writing cell (i, j) leaves the cells before it as they were. */
  lemma DoneFrame(m: seq<u64>, m': seq<u64>, m0: seq<u64>, n: nat, i: nat, j: nat)
    requires i < n && j < n
    requires 3 * Sq(n) <= |m0| && |m| == |m0| && |m'| == |m0|
    requires forall p :: 0 <= p < |m| && p != 2 * Sq(n) + Cell(n, i, j) ==> m'[p] == m[p]
    requires Done(m, m0, n, i, j)
    requires m'[2 * Sq(n) + Cell(n, i, j)] == Wrap(Dot(m0, n, i, j, n))
    ensures Done(m', m0, n, i, j + 1)
  {
    forall i', j' | 0 <= i' < n && 0 <= j' < n && (i' < i || (i' == i && j' < j + 1))
      ensures m'[2 * Sq(n) + Cell(n, i', j')] == Wrap(Dot(m0, n, i', j', n))
    {
      if i' != i || j' != j {
        CellOrder(n, i', j', i, j);
      }
    }
  }

  /**
   One pass of the j loop: multiply out cell (i, j), starting with the cells
   before it done and `ops` at the count of the steps that produced them.
   */
  method NextCell(m0: seq<u64>, m: seq<u64>, n: nat, i: nat, j: nat, loops0: u64, ops: nat, loops: u64, stopping: nat -> bool)
    returns (m': seq<u64>, ops': nat, loops': u64, stopped: bool)
    requires i < n && j < n
    requires 3 * Sq(n) <= |m0| && |m| == |m0|
    requires forall p :: 0 <= p < |m0| && !(2 * Sq(n) <= p < 3 * Sq(n)) ==> m[p] == m0[p]
    requires Done(m, m0, n, i, j)
    requires ops == Mul(Mul(i, n) + j, n)
    requires loops == Wrap(loops0 + ops / TSC_PERIOD)
    requires forall t :: 1 <= t <= ops ==> !stopping(t)
    ensures |m'| == |m0|
    ensures forall p :: 0 <= p < |m0| && !(2 * Sq(n) <= p < 3 * Sq(n)) ==> m'[p] == m0[p]
    ensures ops < ops' <= Mul(Mul(i, n) + j + 1, n)
    ensures loops' == Wrap(loops0 + ops' / TSC_PERIOD)
    ensures forall t :: 1 <= t < ops' ==> !stopping(t)
    ensures stopped <==> stopping(ops')
    ensures !stopped ==> ops' == Mul(Mul(i, n) + j + 1, n) && Done(m', m0, n, i, j + 1)
  {
    assert Mul(Mul(i, n) + j + 1, n) == ops + n;
    m', ops', loops', stopped := MultiplyCell(m, n, i, j, ops, loops, stopping);
    CounterStep(loops0, ops, ops', loops);
    if !stopped {
      DotFrame(m0, m, n, i, j, n);
      DoneFrame(m, m', m0, n, i, j);
    }
  }

  /**
   The j loop of `high_ipc` for row i of m3, started with rows 0 .. i-1
   already holding their products and `ops` at i * N * N steps.
   */
  method MultiplyRow(m0: seq<u64>, m: seq<u64>, n: nat, i: nat, loops0: u64, ops: nat, loops: u64, stopping: nat -> bool)
    returns (m': seq<u64>, ops': nat, loops': u64, stopped: bool)
    requires i < n
    requires 3 * Sq(n) <= |m0| && |m| == |m0|
    requires forall p :: 0 <= p < |m0| && !(2 * Sq(n) <= p < 3 * Sq(n)) ==> m[p] == m0[p]
    requires Done(m, m0, n, i, 0)
    requires ops == Mul(Mul(i, n), n)
    requires loops == Wrap(loops0 + ops / TSC_PERIOD)
    requires forall t :: 1 <= t <= ops ==> !stopping(t)
    ensures |m'| == |m0|
    ensures forall p :: 0 <= p < |m0| && !(2 * Sq(n) <= p < 3 * Sq(n)) ==> m'[p] == m0[p]
    ensures ops < ops' <= Mul(Mul(i + 1, n), n)
    ensures loops' == Wrap(loops0 + ops' / TSC_PERIOD)
    ensures forall t :: 1 <= t < ops' ==> !stopping(t)
    ensures stopped <==> stopping(ops')
    ensures !stopped ==> ops' == Mul(Mul(i + 1, n), n) && Done(m', m0, n, i + 1, 0)
  {
    m', ops', loops', stopped := m, ops, loops, false;
    var j := 0;
    while j < n && !stopped
      invariant 0 <= j <= n
      invariant |m'| == |m0|
      invariant forall p :: 0 <= p < |m0| && !(2 * Sq(n) <= p < 3 * Sq(n)) ==> m'[p] == m0[p]
      invariant ops <= ops' <= Mul(Mul(i, n) + j, n)
      invariant j > 0 ==> ops < ops'
      invariant loops' == Wrap(loops0 + ops' / TSC_PERIOD)
      invariant forall t :: 1 <= t < ops' ==> !stopping(t)
      invariant stopped ==> j > 0 && stopping(ops')
      invariant !stopped ==> ops' == Mul(Mul(i, n) + j, n) && Done(m', m0, n, i, j)
      invariant !stopped ==> forall t :: 1 <= t <= ops' ==> !stopping(t)
    {
      m', ops', loops', stopped := NextCell(m0, m', n, i, j, loops0, ops', loops', stopping);
      j := j + 1;
    }
    MulMono(Mul(i, n) + j, Mul(i + 1, n), n);
    if !stopped {
      assert Done(m', m0, n, i + 1, 0);
    }
  }

  /** `high_ipc(&loops)`: m3 := m1 * m2, cell by cell in row-major order. */
  method HighIpc(m0: seq<u64>, n: nat, loops0: u64, stopping: nat -> bool)
    returns (m: seq<u64>, loops: u64, ops: nat, stopped: bool)
    requires 3 * Sq(n) <= |m0|
    ensures |m| == |m0|
    // m1, m2 and everything past m3 are left as they were
    ensures forall p :: 0 <= p < |m0| && !(2 * Sq(n) <= p < 3 * Sq(n)) ==> m[p] == m0[p]
    // *loops advances once per 500 multiply-accumulates performed
    ensures loops == Wrap(loops0 + ops / TSC_PERIOD)
    // the flag is tested after every step and the first raised flag ends the call
    ensures ops <= Mul(Sq(n), n)
    ensures forall t :: 1 <= t < ops ==> !stopping(t)
    ensures stopped ==> ops > 0 && stopping(ops)
    // a call that never sees the flag does all N^3 steps and computes the whole product
    ensures (forall t :: 1 <= t <= Mul(Sq(n), n) ==> !stopping(t)) ==> !stopped
    ensures !stopped ==> ops == Mul(Sq(n), n) && IsProduct(m, m0, n)
  {
    m, loops, ops, stopped := m0, loops0, 0, false;
    WrapSmall(loops0);
    var i := 0;
    while i < n && !stopped
      invariant 0 <= i <= n
      invariant |m| == |m0|
      invariant forall p :: 0 <= p < |m0| && !(2 * Sq(n) <= p < 3 * Sq(n)) ==> m[p] == m0[p]
      invariant !stopped ==> Done(m, m0, n, i, 0)
      invariant !stopped ==> ops == Mul(Mul(i, n), n)
      invariant ops <= Mul(Mul(i, n), n)
      invariant loops == Wrap(loops0 + ops / TSC_PERIOD)
      invariant forall t :: 1 <= t < ops ==> !stopping(t)
      invariant stopped ==> ops > 0 && stopping(ops)
      invariant !stopped ==> forall t :: 1 <= t <= ops ==> !stopping(t)
    {
      m, ops, loops, stopped := MultiplyRow(m0, m, n, i, loops0, ops, loops, stopping);
      i := i + 1;
    }
    MulMono(i, n, n);
    MulMono(Mul(i, n), Sq(n), n);
  }

  /** The row-major index is the plain `i*N+j` of the source. */
  lemma CellIsPlain(n: nat, i: nat, j: nat)
    ensures Cell(n, i, j) == i * n + j
    ensures Sq(n) == n * n
  {
    MulIsTimes(i, n);
    MulIsTimes(n, n);
  }

  /** Each Dot term is the plain `m1[i*N+k] * m2[k*N+j]` of the source. */
  lemma DotStep(m: seq<u64>, n: nat, i: nat, j: nat, k: nat)
    requires i < n && j < n && k < n
    requires 3 * Sq(n) <= |m|
    ensures n * n + (k * n + j) < |m| && i * n + k < |m|
    ensures Dot(m, n, i, j, k + 1) == Dot(m, n, i, j, k) + (m[i * n + k] as int) * (m[n * n + (k * n + j)] as int)
  {
    assert Cell(n, i, k) < Sq(n) && Cell(n, k, j) < Sq(n);
    CellIsPlain(n, i, k);
    CellIsPlain(n, k, j);
    MulIsTimes(m[Cell(n, i, k)], m[Sq(n) + Cell(n, k, j)]);
  }

  /** A full default-size call bumps the counter 105^3 / 500 = 2315 times. */
  lemma DefaultCallCount()
    ensures Mul(Sq(HIGH_IPC_MATRIX), HIGH_IPC_MATRIX) / TSC_PERIOD == 2315
  {
    MulIsTimes(HIGH_IPC_MATRIX, HIGH_IPC_MATRIX);
    MulIsTimes(Sq(HIGH_IPC_MATRIX), HIGH_IPC_MATRIX);
  }
}
