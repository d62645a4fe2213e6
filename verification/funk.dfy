/** The two call-intercepting decorators of funk.py and the way they stack.

    A call's positional arguments are an argument tuple, modelled as a
    sequence of integers. A wrapped function is a partial function on
    argument tuples: the precondition of each operation says on which
    tuples the wrapped function may be called at all, so a decorator that
    short-circuits is seen not to call it.
 */
module Funk {
  /** The positional arguments of one call (`*args`). */
  type Args = seq<int>

  /** A value that may be absent. */
  datatype Option<+T> = None | Some(value: T)

  /** One entry of a `match_pred` tuple: a predicate, or `None` for a
      wildcard. */
  type Guard = Option<int -> bool>

  /** One decorator layer: `match(matches, result)` or
      `match_pred(preds, result)`. */
  datatype Layer =
    | Lit(matches: Args, result: int)
    | Pred(preds: seq<Guard>, result: int)

  function Min(a: int, b: int): (r: int) {
    if a <= b then a else b
  }

  /** A guard accepts an argument when it is a wildcard or its predicate
      holds of the argument. */
  predicate Passes(g: Guard, x: int) {
    g.None? || g.value(x)
  }

  /** The `all` over the `zip` of guards and arguments: the two tuples are
      walked pairwise and the walk stops at the shorter one. */
  predicate AllPass(preds: seq<Guard>, args: Args)
    decreases |preds|
  {
    if |preds| == 0 || |args| == 0 then true
    else Passes(preds[0], args[0]) && AllPass(preds[1..], args[1..])
  }

  /** Reference reading of `AllPass`: every position both tuples have is
      accepted by its guard. */
  predicate PassesPointwise(preds: seq<Guard>, args: Args) {
    forall i :: 0 <= i < |preds| && i < |args| ==> Passes(preds[i], args[i])
  }

  /** The zip-and-all walk accepts exactly the tuples accepted position by
      position on the common prefix. */
  lemma {:induction false} AllPassIff(preds: seq<Guard>, args: Args)
    ensures AllPass(preds, args) <==> PassesPointwise(preds, args)
    decreases |preds|
  {
    if |preds| == 0 || |args| == 0 {
    } else {
      AllPassIff(preds[1..], args[1..]);
      if PassesPointwise(preds, args) {
        forall i | 0 <= i < |preds| - 1 && i < |args| - 1
          ensures Passes(preds[1..][i], args[1..][i])
        {
          assert Passes(preds[i + 1], args[i + 1]);
        }
      }
      if AllPass(preds, args) {
        forall i | 0 <= i < |preds| && i < |args|
          ensures Passes(preds[i], args[i])
        {
          if i > 0 {
            assert Passes(preds[1..][i - 1], args[1..][i - 1]);
          }
        }
      }
    }
  }

  /** The `match` decorator applied to `next`, called on `args`: the fixed
      result when the tuples are equal (same length, equal elements),
      otherwise whatever `next` returns on the very same tuple. `next` need
      not be defined on `matches` itself. */
  function Match(matches: Args, result: int, next: Args --> int, args: Args): (r: int)
    requires args != matches ==> next.requires(args)
    ensures (|args| == |matches| && forall i :: 0 <= i < |args| ==> args[i] == matches[i])
              ==> r == result
    ensures |args| != |matches| ==> r == next(args)
    ensures (exists i :: 0 <= i < |args| && i < |matches| && args[i] != matches[i])
              ==> r == next(args)
  {
    if args == matches then result else next(args)
  }

  /** The `match_pred` decorator applied to `next`, called on `args`: the
      fixed result when every position of the common prefix is accepted by
      its guard, otherwise whatever `next` returns on the very same tuple.
      `next` need only be defined where some guard rejects its argument. */
  function MatchPred(preds: seq<Guard>, result: int, next: Args --> int, args: Args): (r: int)
    requires !PassesPointwise(preds, args) ==> next.requires(args)
    ensures PassesPointwise(preds, args) ==> r == result
    ensures (exists i :: 0 <= i < |preds| && i < |args| && preds[i].Some? && !preds[i].value(args[i]))
              ==> r == next(args)
  {
    AllPassIff(preds, args);
    if AllPass(preds, args) then result else next(args)
  }

  /** Whether a layer short-circuits a call with these arguments. */
  predicate Fires(layer: Layer, args: Args) {
    match layer
    case Lit(matches, _) => args == matches
    case Pred(preds, _) => AllPass(preds, args)
  }

  /** One decorator's `inner`, delegating to `next`. */
  function Call(layer: Layer, next: Args --> int, args: Args): (r: int)
    requires !Fires(layer, args) ==> next.requires(args)
  {
    match layer
    case Lit(matches, result) => Match(matches, result, next, args)
    case Pred(preds, result) =>
      AllPassIff(preds, args);
      MatchPred(preds, result, next, args)
  }

  /** No layer of the stack short-circuits the call. */
  predicate NoneFires(layers: seq<Layer>, args: Args) {
    forall i :: 0 <= i < |layers| ==> !Fires(layers[i], args)
  }

  /** Layer `k` is the outermost layer that short-circuits the call. */
  predicate FirstFires(layers: seq<Layer>, args: Args, k: int) {
    && 0 <= k < |layers|
    && Fires(layers[k], args)
    && forall j :: 0 <= j < k ==> !Fires(layers[j], args)
  }

  /** A decorator stack around `inner`, outermost layer first, called on
      `args`: each layer's `inner` delegates to the stack below it. The
      outermost layer that matches decides the result; when none matches,
      `inner` runs on the unchanged arguments, and only then is it called. */
  function Apply(layers: seq<Layer>, inner: Args --> int, args: Args): (r: int)
    requires NoneFires(layers, args) ==> inner.requires(args)
    ensures NoneFires(layers, args) ==> r == inner(args)
    ensures forall k :: FirstFires(layers, args, k) ==> r == layers[k].result
    decreases |layers|
  {
    if |layers| == 0 then inner(args)
    else
      var rest := layers[1..];
      assert NoneFires(layers, args) <==> !Fires(layers[0], args) && NoneFires(rest, args) by {
        if !Fires(layers[0], args) && NoneFires(rest, args) {
          forall i | 0 <= i < |layers| ensures !Fires(layers[i], args) {
            if i > 0 { assert layers[i] == rest[i - 1]; }
          }
        }
        if NoneFires(layers, args) {
          forall i | 0 <= i < |rest| ensures !Fires(rest[i], args) {
            assert rest[i] == layers[i + 1];
          }
        }
      }
      var next := (a: Args) requires NoneFires(rest, a) ==> inner.requires(a) => Apply(rest, inner, a);
      var r := Call(layers[0], next, args);
      assert forall k :: FirstFires(layers, args, k) && k > 0 ==> FirstFires(rest, args, k - 1) by {
        forall k | FirstFires(layers, args, k) && k > 0 ensures FirstFires(rest, args, k - 1) {
          assert rest[k - 1] == layers[k];
          forall j | 0 <= j < k - 1 ensures !Fires(rest[j], args) {
            assert rest[j] == layers[j + 1];
          }
        }
      }
      r
  }

  /** A wildcard entry accepts every argument at its position: replacing
      that argument never changes whether the guards pass. */
  lemma WildcardMatchesAnything(preds: seq<Guard>, args: Args, i: int, x: int)
    requires 0 <= i < |preds| && i < |args|
    requires preds[i].None?
    ensures AllPass(preds, args[i := x]) <==> AllPass(preds, args)
  {
    AllPassIff(preds, args);
    AllPassIff(preds, args[i := x]);
    if PassesPointwise(preds, args) {
      forall j | 0 <= j < |preds| && j < |args[i := x]|
        ensures Passes(preds[j], args[i := x][j])
      {
        if j != i { assert args[i := x][j] == args[j]; }
      }
    }
    if PassesPointwise(preds, args[i := x]) {
      forall j | 0 <= j < |preds| && j < |args|
        ensures Passes(preds[j], args[j])
      {
        if j != i { assert args[i := x][j] == args[j]; }
      }
    }
  }

  /** Only the common prefix of the guards and the arguments is examined:
      surplus arguments and surplus guards are ignored. */
  lemma AllPassTruncates(preds: seq<Guard>, args: Args, m: int)
    requires m == Min(|preds|, |args|)
    ensures AllPass(preds, args) <==> AllPass(preds[..m], args[..m])
  {
    AllPassIff(preds, args);
    AllPassIff(preds[..m], args[..m]);
    if PassesPointwise(preds[..m], args[..m]) {
      forall j | 0 <= j < |preds| && j < |args| ensures Passes(preds[j], args[j]) {
        assert preds[..m][j] == preds[j] && args[..m][j] == args[j];
      }
    }
  }

  /** With no guards or no arguments, `match_pred` always short-circuits,
      whatever (and wherever defined) the wrapped function is. */
  lemma EmptyZipShortCircuits(preds: seq<Guard>, result: int, next: Args --> int, args: Args)
    requires |preds| == 0 || |args| == 0
    ensures MatchPred(preds, result, next, args) == result
  {
  }

  /** The stack with the layers at `i` and `i + 1` exchanged. */
  function SwapAt(layers: seq<Layer>, i: int): (s: seq<Layer>)
    requires 0 <= i < |layers| - 1
    ensures |s| == |layers|
    ensures s[i] == layers[i + 1] && s[i + 1] == layers[i]
    ensures forall j :: 0 <= j < |layers| && j != i && j != i + 1 ==> s[j] == layers[j]
  {
    layers[..i] + [layers[i + 1], layers[i]] + layers[i + 2..]
  }

  /** The index of the outermost layer that short-circuits, if any does. */
  function FirstFiring(layers: seq<Layer>, args: Args): (k: int)
    requires !NoneFires(layers, args)
    ensures FirstFires(layers, args, k)
    decreases |layers|
  {
    if Fires(layers[0], args) then 0
    else
      assert !NoneFires(layers[1..], args) by {
        var i :| 0 <= i < |layers| && Fires(layers[i], args);
        assert layers[1..][i - 1] == layers[i];
      }
      var k := FirstFiring(layers[1..], args);
      assert layers[1..][k] == layers[k + 1];
      assert forall j :: 1 <= j < k + 1 ==> layers[j] == layers[1..][j - 1];
      k + 1
  }

  /** Two adjacent layers that never both match a call can be exchanged
      without changing the decorated function. */
  lemma SwapNonOverlapping(layers: seq<Layer>, i: int, inner: Args --> int, args: Args)
    requires 0 <= i < |layers| - 1
    requires !(Fires(layers[i], args) && Fires(layers[i + 1], args))
    requires NoneFires(layers, args) ==> inner.requires(args)
    ensures NoneFires(SwapAt(layers, i), args) ==> inner.requires(args)
    ensures Apply(SwapAt(layers, i), inner, args) == Apply(layers, inner, args)
  {
    var s := SwapAt(layers, i);
    if NoneFires(layers, args) {
      forall j | 0 <= j < |s| ensures !Fires(s[j], args) {
        if j == i { assert s[j] == layers[i + 1]; }
        else if j == i + 1 { assert s[j] == layers[i]; }
        else { assert s[j] == layers[j]; }
      }
    } else {
      var k := FirstFiring(layers, args);
      var k' := if k == i then i + 1 else if k == i + 1 then i else k;
      assert s[k'] == layers[k];
      forall j | 0 <= j < k' ensures !Fires(s[j], args) {
        if j == i { assert s[j] == layers[i + 1]; }
        else if j == i + 1 { assert s[j] == layers[i]; }
        else { assert s[j] == layers[j]; }
      }
      assert FirstFires(s, args, k');
    }
  }

  /** Two `match` layers with different literal tuples commute, whatever
      lies below them. */
  lemma LitLayersCommute(m1: Args, r1: int, m2: Args, r2: int, rest: seq<Layer>,
                         inner: Args --> int, args: Args)
    requires m1 != m2
    requires NoneFires([Lit(m1, r1), Lit(m2, r2)] + rest, args) ==> inner.requires(args)
    ensures NoneFires([Lit(m2, r2), Lit(m1, r1)] + rest, args) ==> inner.requires(args)
    ensures Apply([Lit(m2, r2), Lit(m1, r1)] + rest, inner, args)
         == Apply([Lit(m1, r1), Lit(m2, r2)] + rest, inner, args)
  {
    var layers := [Lit(m1, r1), Lit(m2, r2)] + rest;
    assert SwapAt(layers, 0) == [Lit(m2, r2), Lit(m1, r1)] + rest;
    SwapNonOverlapping(layers, 0, inner, args);
  }

  /** Two `match` layers on the same tuple with different results do not
      commute: the outer one wins. */
  lemma OverlappingLitsOrderMatters(m: Args, r1: int, r2: int, inner: Args -> int)
    requires r1 != r2
    ensures Apply([Lit(m, r1), Lit(m, r2)], inner, m) == r1
    ensures Apply([Lit(m, r2), Lit(m, r1)], inner, m) == r2
  {
    assert FirstFires([Lit(m, r1), Lit(m, r2)], m, 0);
    assert FirstFires([Lit(m, r2), Lit(m, r1)], m, 0);
  }
}
