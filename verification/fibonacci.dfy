/** The two decorated Fibonacci functions of funk.py. Each recursive call
    goes through the decorated function itself, so every sub-call passes
    through the whole decorator stack again. */
module Fibonacci {
  import opened Funk

  /** The standard Fibonacci sequence: F(0) = 0, F(1) = 1. */
  function Fib(n: nat): nat {
    if n < 2 then n else Fib(n - 1) + Fib(n - 2)
  }

  /** A `match` layer for the tuple (0) above one for the tuple (1), both
      answering 1. */
  const FibMatchLayers: seq<Layer> := [Lit([0], 1), Lit([1], 1)]

  /** The same two `match` layers in the opposite order. */
  const FibMatchSwappedLayers: seq<Layer> := [Lit([1], 1), Lit([0], 1)]

  /** One `match_pred` layer whose single guard accepts arguments up to 1,
      answering 1. */
  const FibPredLayers: seq<Layer> := [Pred([Some((x: int) => x <= 1)], 1)]

  /** `fib_match(n)`: the undecorated body adds the values at n - 1 and
      n - 2, each obtained by calling `fib_match` again. The body is only
      reached on a one-argument call that no layer matched. */
  function FibMatch(n: int): (r: int)
    requires n >= 0
    ensures r == Fib(n + 1)
    decreases n
  {
    assert n <= 1 ==> FirstFires(FibMatchLayers, [n], n);
    Apply(FibMatchLayers,
          (a: Args) requires |a| == 1 && 2 <= a[0] <= n => FibMatch(a[0] - 1) + FibMatch(a[0] - 2),
          [n])
  }

  /** `fib_match(0)` and `fib_match(1)` are answered by the two layers. */
  lemma FibMatchBase()
    ensures FibMatch(0) == 1 && FibMatch(1) == 1
  {
  }

  /** Above the base cases, `fib_match` follows the Fibonacci recurrence. */
  lemma FibMatchRecurrence(n: int)
    requires n >= 2
    ensures FibMatch(n) == FibMatch(n - 1) + FibMatch(n - 2)
  {
  }

  /** The value printed for `fib_match(10)`. */
  lemma FibMatchTen()
    ensures FibMatch(10) == 89
  {
  }

  /** A negative argument is matched by neither layer, and neither is any
      argument the recursion descends to from it (each step lowers the
      argument by one or two), so the recursion never reaches a base case:
      this is why `FibMatch` demands `n >= 0`. */
  lemma FibMatchNegativeNeverMatches(n: int, k: nat)
    requires n < 0
    ensures NoneFires(FibMatchLayers, [n - k])
  {
  }

  /** `fib_match` with its two `match` decorators written in the opposite
      order; its recursion goes through this function. */
  function FibMatchSwapped(n: int): (r: int)
    requires n >= 0
    decreases n
  {
    assert n <= 1 ==> FirstFires(FibMatchSwappedLayers, [n], 1 - n);
    Apply(FibMatchSwappedLayers,
          (a: Args) requires |a| == 1 && 2 <= a[0] <= n
            => FibMatchSwapped(a[0] - 1) + FibMatchSwapped(a[0] - 2),
          [n])
  }

  /** Exchanging the two `match` decorators of `fib_match` leaves it
      unchanged on its whole domain. */
  lemma {:induction false} FibMatchOrderIrrelevant(n: int)
    requires n >= 0
    ensures FibMatchSwapped(n) == FibMatch(n)
    decreases n
  {
    if n >= 2 {
      FibMatchOrderIrrelevant(n - 1);
      FibMatchOrderIrrelevant(n - 2);
    } else {
      assert FirstFires(FibMatchSwappedLayers, [n], 1 - n);
    }
  }

  /** `fib_pred(n)`: the same body under one `match_pred` layer whose guard
      is `n <= 1`. It is defined on every integer, is always positive, and
      is 1 on every argument up to 1, negative ones included. */
  function FibPred(n: int): (r: int)
    ensures r >= 1
    ensures n <= 1 ==> r == 1
    ensures n >= 0 ==> r == Fib(n + 1)
    decreases if n <= 1 then 0 else n
  {
    assert AllPass(FibPredLayers[0].preds, [n]) <==> n <= 1;
    assert n <= 1 ==> FirstFires(FibPredLayers, [n], 0);
    Apply(FibPredLayers,
          (a: Args) requires |a| == 1 && 2 <= a[0] <= n => FibPred(a[0] - 1) + FibPred(a[0] - 2),
          [n])
  }

  /** `fib_pred` and `fib_match` agree wherever `fib_match` terminates. */
  lemma FibPredAgreesWithFibMatch(n: int)
    requires n >= 0
    ensures FibPred(n) == FibMatch(n)
  {
  }

  /** The value printed for `fib_pred(10)`. */
  lemma FibPredTen()
    ensures FibPred(10) == 89
  {
  }
}
