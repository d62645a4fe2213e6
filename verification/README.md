# funk: call-intercepting decorators, modelled in Dafny

funk provides two decorators that intercept calls to a function and
short-circuit them:

- `match(matches, result)` returns `result` when the call's argument tuple
  equals the literal tuple `matches`, and otherwise calls the wrapped
  function with the same arguments;
- `match_pred(preds, result)` returns `result` when every argument is
  accepted by the predicate at its position (a `None` entry accepts
  anything; positions are paired with `zip`, so only the shorter length is
  examined), and otherwise calls the wrapped function.

Two decorated recursive functions are built from them: `fib_match`, with
two `match` layers for the base cases, and `fib_pred`, with one
`match_pred` layer. Their bodies recurse through the decorated name, so
every sub-call passes through the whole decorator stack again.

The model has two modules:

- `Funk` (`funk.dfy`): argument tuples as `seq<int>`; an `Option` type
  whose `None` stands for a wildcard entry of a predicate tuple; a layer
  datatype `Lit(matches, result) | Pred(preds, result)`; `Match` and
  `MatchPred`, one decorator each, and `Apply`, a stack of layers
  (outermost first) around a wrapped function. Wrapped functions are
  partial functions (`Args --> int`): each operation requires the wrapped
  function to be defined on the arguments only when no layer matches, so
  the contracts also say that a short-circuited call never reaches it.
- `Fibonacci` (`fibonacci.dfy`): a reference Fibonacci function and the two
  decorated functions `FibMatch` and `FibPred`, each defined as its own
  decorator stack applied to a body that calls the decorated function.

Consequences of the code worth stating:

- `match_pred` ignores surplus guards as well as surplus arguments, and an
  empty guard tuple or an empty argument tuple always short-circuits
  (`AllPassTruncates`, `EmptyZipShortCircuits`).
- Two `match` layers commute when their tuples differ (`LitLayersCommute`).
  On a shared tuple with different results the outer layer wins
  (`OverlappingLitsOrderMatters`).

## Model

| member | source | states |
|---|---|---|
| Funk.Match | funk.py:8-13 | returns the fixed result when the arguments have the literal tuple's length and equal elements, and otherwise the wrapped function's result on the same arguments, including when only the lengths differ; the wrapped function need not be defined on the literal tuple |
| Funk.MatchPred | funk.py:27-32 | returns the fixed result when every common position is accepted by its guard, and the wrapped function's result on the same arguments when some non-wildcard predicate rejects its argument; the wrapped function need only be defined where a guard rejects |
| Funk.AllPassIff | funk.py:29 | the pairwise `zip` walk under `all` accepts exactly the tuples whose every common position passes its guard (both directions) |
| Funk.WildcardMatchesAnything | funk.py:29 | a `None` entry accepts any argument: changing the argument at a wildcard position never changes whether the guards pass |
| Funk.AllPassTruncates | funk.py:29 | only the first min(number of guards, number of arguments) positions are examined; surplus arguments and surplus guards are ignored |
| Funk.EmptyZipShortCircuits | funk.py:29-30 | with no guards or no arguments, `match_pred` returns its result whatever the wrapped function is |
| Funk.Apply | funk.py:8-32 | a stack of decorators returns the result of the outermost layer that matches the call, and calls the wrapped function, with the unchanged arguments, only when no layer matches |
| Funk.SwapNonOverlapping | funk.py:9-12 | two adjacent layers that cannot both match a call can be exchanged without changing the stack's result |
| Funk.LitLayersCommute | funk.py:35-36 | two `match` layers with different literal tuples give the same decorated function in either order |
| Funk.OverlappingLitsOrderMatters | funk.py:9-11 | two `match` layers on the same tuple with different results do not commute: the outer one's result is returned |
| Fibonacci.FibMatch | funk.py:35-40 | `fib_match(n)` is defined for every n >= 0 and equals the standard Fibonacci number F(n+1) |
| Fibonacci.FibMatchBase | funk.py:35-36 | `fib_match(0) = fib_match(1) = 1` |
| Fibonacci.FibMatchRecurrence | funk.py:37-40 | for n >= 2, `fib_match(n) = fib_match(n-1) + fib_match(n-2)` |
| Fibonacci.FibMatchTen | funk.py:50 | `fib_match(10) = 89` |
| Fibonacci.FibMatchNegativeNeverMatches | funk.py:35-40 | from a negative argument, no argument the recursion descends to is matched by either layer, so the recursion never reaches a base case |
| Fibonacci.FibMatchOrderIrrelevant | funk.py:35-40 | writing the two `match` decorators of `fib_match` in the opposite order gives the same function on its whole domain |
| Fibonacci.FibPred | funk.py:42-46 | `fib_pred(n)` is defined on every integer, is 1 for every n <= 1, negatives included, equals F(n+1) for n >= 0, and is always positive |
| Fibonacci.FibPredAgreesWithFibMatch | funk.py:35-46 | `fib_pred` and `fib_match` agree on every n >= 0 |
| Fibonacci.FibPredTen | funk.py:51 | `fib_pred(10) = 89` |

## Left out

- demos.py: its `precondition`, `postcondition`, `memoize` and `lookup_table` decorators are not defined in funk.py, so their behaviour cannot be modelled against the source; only the positivity its postcondition demands of `fib_pred` is stated, in `FibPred`.
- The `__main__` block of funk.py: console printing; the two printed values are stated as `FibMatchTen` and `FibPredTen`.
- Python's dynamic typing: arguments are integers and predicates are pure, total `int -> bool` functions; cross-type equality and predicates that raise or have side effects are not modelled.
- Recursion depth: Python stops deep recursion with `RuntimeError: maximum recursion depth exceeded`. `fib_match` on a negative argument recurses without end and so always raises it; the model demands `n >= 0` of `FibMatch` instead and states why as `FibMatchNegativeNeverMatches`.
- FibMatch: models unbounded recursion depth. Each level of `fib_match` costs three Python frames (two decorator closures and the body), so under the default limit of 1000 a call with n of a few hundred (about 330) already raises, while the model states `FibMatch(n) == Fib(n + 1)` for every n >= 0.
- FibPred: models unbounded recursion depth. Each level costs two frames, so `fib_pred` raises from about n = 500 on, while the model states its value for every integer.
- Results are specialised to `int`: `match` and `match_pred` return any object, and wrapped functions may return any object; the model fixes both to integers, which is all the two Fibonacci functions use.
- The comment about one-element tuples needing a trailing comma: it concerns Python syntax, not behaviour.
