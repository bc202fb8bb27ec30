/** `EventProcessor.getRandom` and the JDK draw beneath it. Which value is drawn
    is left open: the model keeps only the range the draw promises. */
module Random {
  import opened Wrappers
  import opened Java

  /** `ThreadLocalRandom.nextInt(origin, bound)`: a value in [origin, bound),
      or IllegalArgumentException unless origin < bound. */
  method NextInt(origin: int, bound: int) returns (r: Result<int, Exception>)
    ensures r.Success? <==> origin < bound
    ensures r.Failure? ==> r.error == IllegalArgumentException
    ensures r.Success? ==> origin <= r.value < bound
  {
    if origin < bound {
      assert origin <= origin < bound;
      var x :| origin <= x < bound;
      r := Success(x);
    } else {
      r := Failure(IllegalArgumentException);
    }
  }

  /** An upper bound getRandom accepts: at least 1, and small enough that the
      `int` sum `n + 1` does not wrap. */
  predicate IsDrawBound(n: int) {
    1 <= n < IntMax
  }

  /** `getRandom(n)`: a value in [1, n]. */
  method GetRandom(n: int) returns (r: Result<int, Exception>)
    requires IsInt(n)
    ensures r.Success? <==> IsDrawBound(n)
    ensures r.Failure? ==> r.error == IllegalArgumentException
    ensures r.Success? ==> 1 <= r.value <= n
  {
    r := NextInt(1, Add(n, 1));
  }

  /** `getRandom(s, n)`: a value in [s, n]. */
  method GetRandomFrom(s: int, n: int) returns (r: Result<int, Exception>)
    requires IsInt(s) && IsInt(n)
    ensures r.Success? <==> s <= n < IntMax
    ensures r.Failure? ==> r.error == IllegalArgumentException
    ensures r.Success? ==> s <= r.value <= n
  {
    r := NextInt(s, Add(n, 1));
  }
}
