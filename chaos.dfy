/** `collatz_process`: the bounded Collatz ("hailstone") iteration whose
    result forms the high-order part of every letter token. */
module Chaos {

  /** One Collatz step, on Python integers: `n // 2` when `n` is even,
      `3 * n + 1` otherwise (Dafny's `/` and `%` agree with Python's floor
      division here because the divisor is positive and `n` is even). */
  function Step(n: int): int
  {
    if n % 2 == 0 then n / 2 else 3 * n + 1
  }

  /** `k` unconditional steps from `n`. */
  function Iterate(n: int, k: nat): int
    decreases k
  {
    if k == 0 then n else Iterate(Step(n), k - 1)
  }

  /** What `collatz_process(n, depth)` returns: at most `depth` steps
      (none when `depth <= 0`, as `range(depth)` is then empty), stopping as
      soon as the value is at most 1. */
  function Collatz(n: int, depth: int): int
    decreases depth
  {
    if depth <= 0 || n <= 1 then n else Collatz(Step(n), depth - 1)
  }

  /** The loop of `collatz_process`, with its early `break`. */
  method CollatzProcess(n0: int, depth: int) returns (n: int)
    ensures n == Collatz(n0, depth)
  {
    n := n0;
    var rounds := if depth < 0 then 0 else depth;
    for i := 0 to rounds
      invariant Collatz(n, depth - i) == Collatz(n0, depth)
    {
      if n <= 1 {
        break;
      }
      n := Step(n);
    }
  }

  /** A step from a value above 1 never drops below 1. */
  lemma StepAboveOne(n: int)
    requires n > 1
    ensures Step(n) >= 1
  {
  }

  /** Started at a positive value, the iteration stays positive. */
  lemma {:induction false} CollatzPositive(n: int, depth: int)
    requires n >= 1
    ensures Collatz(n, depth) >= 1
    decreases depth
  {
    if depth > 0 && n > 1 {
      StepAboveOne(n);
      CollatzPositive(Step(n), depth - 1);
    }
  }

  /** `collatz_process` is the plain iteration cut off after `k` steps, where
      `k` is at most `depth`, every value before the cut is above 1, and the
      cut comes early only at a value of at most 1. */
  lemma {:induction false} CollatzAsIteration(n: int, depth: int) returns (k: nat)
    ensures k <= if depth < 0 then 0 else depth
    ensures Collatz(n, depth) == Iterate(n, k)
    ensures forall j :: 0 <= j < k ==> Iterate(n, j) > 1
    ensures k < depth ==> Iterate(n, k) <= 1
    decreases depth
  {
    if depth <= 0 || n <= 1 {
      k := 0;
    } else {
      var k' := CollatzAsIteration(Step(n), depth - 1);
      k := k' + 1;
      forall j | 0 <= j < k ensures Iterate(n, j) > 1 {
        if j > 0 {
          assert Iterate(n, j) == Iterate(Step(n), j - 1);
        }
      }
    }
  }
}
