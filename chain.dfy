/** Running a list of steps one after another, each on the previous step's
    output, stopping at the first error: the control flow of a processing
    pipeline, independent of what the steps do. */
module Chains {
  import opened Tables

  /** `x` passed through `run` once per step, left to right; the first error
      ends the chain and is its result. */
  function Chain<T, S>(x: T, steps: seq<S>, run: (T, S) -> Result<T>): Result<T>
    decreases |steps|
  {
    if steps == [] then Ok(x)
    else match run(x, steps[0])
      case Err(e) => Err(e)
      case Ok(y) => Chain(y, steps[1..], run)
  }

  /** Chaining `a` and then `b` is chaining `a + b`. */
  lemma {:induction false} ChainAppend<T, S>(x: T, a: seq<S>, b: seq<S>, run: (T, S) -> Result<T>)
    ensures Chain(x, a + b, run) ==
      match Chain(x, a, run)
        case Err(e) => Err(e)
        case Ok(y) => Chain(y, b, run)
    decreases |a|
  {
    if a == [] {
      assert a + b == b;
    } else {
      assert (a + b)[0] == a[0] && (a + b)[1..] == a[1..] + b;
      match run(x, a[0])
        case Err(e) =>
        case Ok(y) => ChainAppend(y, a[1..], b, run);
    }
  }

  /** When the steps before `k` succeed and step `k` fails, the chain returns
      step `k`'s error whatever follows it. */
  lemma ChainFirstFailure<T, S>(x: T, steps: seq<S>, k: int, run: (T, S) -> Result<T>)
    requires 0 <= k < |steps|
    requires Chain(x, steps[..k], run).Ok?
    requires run(Chain(x, steps[..k], run).value, steps[k]).Err?
    ensures Chain(x, steps, run) == Err(run(Chain(x, steps[..k], run).value, steps[k]).error)
  {
    assert steps == steps[..k] + steps[k..];
    ChainAppend(x, steps[..k], steps[k..], run);
    assert steps[k..][0] == steps[k];
  }

  /** A chain that fails has a first failing step, every step before it
      having succeeded, and returns that step's error. */
  lemma {:induction false} ChainFailureHasFirstStep<T, S>(x: T, steps: seq<S>, run: (T, S) -> Result<T>)
    requires Chain(x, steps, run).Err?
    ensures exists k | 0 <= k < |steps| ::
      && Chain(x, steps[..k], run).Ok?
      && run(Chain(x, steps[..k], run).value, steps[k]) == Err(Chain(x, steps, run).error)
    decreases |steps|
  {
    assert steps[..0] == [];
    match run(x, steps[0])
      case Err(e) =>
        assert Chain(x, steps[..0], run) == Ok(x);
      case Ok(y) =>
        var rest := steps[1..];
        ChainFailureHasFirstStep(y, rest, run);
        var k :| 0 <= k < |rest| && Chain(y, rest[..k], run).Ok?
          && run(Chain(y, rest[..k], run).value, rest[k]) == Err(Chain(y, rest, run).error);
        assert steps[..k + 1][0] == steps[0] && steps[..k + 1][1..] == rest[..k];
        assert steps[k + 1] == rest[k];
  }

  /** A property that every successful step preserves holds of a successful
      chain's result. */
  lemma {:induction false} ChainPreserves<T, S>(x: T, steps: seq<S>, run: (T, S) -> Result<T>, inv: T -> bool)
    requires inv(x)
    requires forall y, s | inv(y) && run(y, s).Ok? :: inv(run(y, s).value)
    ensures Chain(x, steps, run).Ok? ==> inv(Chain(x, steps, run).value)
    decreases |steps|
  {
    if steps != [] {
      match run(x, steps[0])
        case Err(e) =>
        case Ok(y) => ChainPreserves(y, steps[1..], run, inv);
    }
  }

  /** The loop that runs the steps: rebinds its value to each step's result
      in turn and returns the first error. */
  method RunChain<T, S>(x: T, steps: seq<S>, run: (T, S) -> Result<T>) returns (r: Result<T>)
    ensures r == Chain(x, steps, run)
  {
    var cur := x;
    var i := 0;
    while i < |steps|
      invariant 0 <= i <= |steps|
      invariant Chain(x, steps, run) == Chain(cur, steps[i..], run)
    {
      assert steps[i..][0] == steps[i] && steps[i..][1..] == steps[i + 1..];
      match run(cur, steps[i])
      case Err(e) =>
        return Err(e);
      case Ok(y) =>
        cur := y;
        i := i + 1;
    }
    return Ok(cur);
  }
}
