/**
 Seeding of the shared matrix in `main`: 2048 values from `rand()` are
 stored in an `int numbers[2048]`, then copied cyclically into the
 `unsigned long` matrix, so entry i receives `numbers[i % 2048]`.

 `rand()` is not modelled: the 2048 values are an input. The copy converts
 each C `int` to `unsigned long`, which is reduction modulo 2^64; for the
 non-negative values `rand()` produces this is the value itself.
 */
module Seeding {
  import opened Basics
  import LowIpc
  import HighIpc

  const SEEDS: nat := 2048

  /** 64 Mi entries: the default `matrix_size`. */
  const MATRIX_SIZE: nat := 64 * 1024 * 1024

  /** Entry i holds the converted seed i mod 2048. */
  ghost predicate IsSeeded(m: seq<u64>, numbers: seq<int>)
    requires |numbers| == SEEDS
  {
    forall i :: 0 <= i < |m| ==> m[i] == Wrap(numbers[i % SEEDS])
  }

  /** The fill loop `for (i = 0; i < matrix_size; i++) global_matrix[i] = numbers[i % 2048];` */
  method SeedMatrix(numbers: seq<int>, size: nat) returns (m: seq<u64>)
    requires |numbers| == SEEDS
    ensures |m| == size
    ensures forall i :: 0 <= i < size ==> m[i] == Wrap(numbers[i % SEEDS])
    ensures forall i :: 0 <= i < size && 0 <= numbers[i % SEEDS] <= RAND_MAX ==> m[i] == numbers[i % SEEDS]
  {
    m := [];
    var i := 0;
    while i < size
      invariant i == |m| <= size
      invariant forall p :: 0 <= p < i ==> m[p] == Wrap(numbers[p % SEEDS])
    {
      m := m + [Wrap(numbers[i % SEEDS])];
      i := i + 1;
    }
  }

  /** A seeded matrix repeats with period 2048: `matrix[i] == matrix[i % 2048]`. */
  lemma SeededIsPeriodic(m: seq<u64>, numbers: seq<int>)
    requires |numbers| == SEEDS
    requires IsSeeded(m, numbers)
    ensures forall i :: 0 <= i < |m| ==> m[i] == m[i % SEEDS]
  {
    forall i | 0 <= i < |m| ensures m[i] == m[i % SEEDS] {
      assert i % SEEDS <= i;
      assert (i % SEEDS) % SEEDS == i % SEEDS;
    }
  }

  /**
   The default matrix is large enough for both kernels as `main` calls them:
   the low-IPC loop's `int` indices cannot overflow at the default factor 1,
   and the three 105 x 105 blocks of the high-IPC product fit inside it.
   */
  lemma DefaultMatrixFitsKernels()
    ensures 0 < MATRIX_SIZE
    ensures IsInt(2 * 1)
    ensures MATRIX_SIZE - 1 + LowIpc.LINKS - 1 <= INT_MAX
    ensures MATRIX_SIZE - 1 + 2 * 1 - 1 <= INT_MAX
    ensures 3 * HighIpc.Sq(HighIpc.HIGH_IPC_MATRIX) <= MATRIX_SIZE
  {
    MulIsTimes(HighIpc.HIGH_IPC_MATRIX, HighIpc.HIGH_IPC_MATRIX);
  }
}
