/**
 Machine words and failure values shared by the benchmark model.

 The benchmark is written in C for x86-64 Linux: `unsigned long` and
 `unsigned long long` are 64-bit and wrap modulo 2^64, `int` is 32-bit and
 overflowing it is undefined. Dafny integers are unbounded, so every
 wrap-around is written out with `Wrap`, and every place where the C code
 would overflow a signed `int` becomes a precondition stated with `IsInt`.
 */
module Basics {

  /** 2^64: the modulus of `unsigned long` arithmetic. */
  const U64: int := 0x1_0000_0000_0000_0000

  /** Range of the 32-bit C `int`. */
  const INT_MIN: int := -0x8000_0000
  const INT_MAX: int := 0x7fff_ffff

  /** glibc's RAND_MAX; `rand()` returns a value in [0, RAND_MAX]. */
  const RAND_MAX: int := INT_MAX

  type u64 = x: int | 0 <= x < U64

  predicate IsInt(x: int) {
    INT_MIN <= x <= INT_MAX
  }

  /**
   Conversion of any integer to `unsigned long`: reduction modulo 2^64,
   written as repeated addition or subtraction of the modulus so that proofs
   reason about it through the lemmas below rather than by unfolding `%`.
   */
  function Wrap(x: int): u64
    decreases if x < 0 then U64 - x else x
  {
    if x < 0 then Wrap(x + U64)
    else if x < U64 then x
    else Wrap(x - U64)
  }

  /** The repeated subtraction is the Euclidean remainder. */
  lemma {:induction false} WrapIsMod(x: int)
    ensures Wrap(x) == x % U64
    decreases if x < 0 then U64 - x else x
  {
    if x < 0 {
      WrapIsMod(x + U64);
    } else if x >= U64 {
      WrapIsMod(x - U64);
    }
  }

  /** Ways in which the benchmark process dies instead of returning a value. */
  datatype Fatal =
    | RanBackwards    // tvsub: "test time ran backwards!", exit(1)
    | ClockFailed     // clock_gettime returned an error, exit(1)
    | Usage           // unrecognised command-line token, exit(1)
    | DivideByZero    // integer division by a zero elapsed time (SIGFPE)

  /** A value, or the fatal condition that ended the process. */
  datatype Result<+T> = Ok(value: T) | Exit(fatal: Fatal)

  datatype Option<+T> = None | Some(value: T)

  /** Adding a multiple of the modulus does not change the residue. */
  lemma WrapShift(x: int, q: int)
    ensures Wrap(x + q * U64) == Wrap(x)
  {
    WrapIsMod(x + q * U64);
    WrapIsMod(x);
  }

  /** Wrapping an intermediate sum early gives the same 64-bit result. */
  lemma WrapAdd(a: int, b: int)
    ensures Wrap(Wrap(a) + b) == Wrap(a + b)
  {
    WrapIsMod(a);
    var q := a / U64;
    assert a == Wrap(a) + q * U64;
    WrapShift(Wrap(a) + b, q);
  }

  /** A value that already fits in 64 bits is its own wrap. */
  lemma WrapSmall(x: int)
    requires 0 <= x < U64
    ensures Wrap(x) == x
  {
  }

  /**
   a * b, by repeated addition. Products of variables are written with `Mul`
   so that the verifier treats them as opaque terms and uses only the facts
   the lemmas below establish; `MulIsTimes` ties it to `*`.
   */
  function Mul(a: nat, b: nat): nat {
    if a == 0 then 0 else Mul(a - 1, b) + b
  }

  lemma {:induction false} MulIsTimes(a: nat, b: nat)
    ensures Mul(a, b) == a * b
  {
    if a > 0 {
      MulIsTimes(a - 1, b);
    }
  }

  /** Multiplication is monotone in its left operand. */
  lemma {:induction false} MulMono(a: nat, b: nat, c: nat)
    requires a <= b
    ensures Mul(a, c) <= Mul(b, c)
    decreases b - a
  {
    if a < b {
      MulMono(a, b - 1, c);
    }
  }
}
