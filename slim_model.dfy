/** The contract of .NET's SemaphoreSlim that the throttle relies on, as a bounded counter:
    `count` permits available out of at most `maxCount`. Only the non-blocking parts are modelled. */
module SlimModel {
  import opened Base

  datatype Counter = Counter(count: int, maxCount: int)

  /** The invariant SemaphoreSlim keeps: 0 <= count <= maxCount, with a positive 32-bit maximum. */
  predicate Bounded(c: Counter) {
    0 <= c.count <= c.maxCount && 0 < c.maxCount <= MaxInt32
  }

  /** `new SemaphoreSlim(initialCount, maxCount)`: rejects a negative or too large initial count and a
      non-positive maximum with ArgumentOutOfRange. */
  function New(initialCount: int, maxCount: int): (r: Result<Counter>)
    ensures r.Ok? <==> 0 <= initialCount <= maxCount && 0 < maxCount
    ensures r.Err? ==> r.error == ArgumentOutOfRange
    ensures r.Ok? ==> r.value.count == initialCount && r.value.maxCount == maxCount
    ensures r.Ok? && maxCount <= MaxInt32 ==> Bounded(r.value)
  {
    if initialCount < 0 || initialCount > maxCount || maxCount <= 0 then Err(ArgumentOutOfRange)
    else Ok(Counter(initialCount, maxCount))
  }

  /** `SemaphoreSlim.Release(releaseCount)`: returns the previous count. */
  function Release(c: Counter, releaseCount: int): (o: Outcome<Counter>)
    requires Bounded(c)
    ensures Bounded(o.state) && o.state.maxCount == c.maxCount
    ensures o.result.Ok? <==> 1 <= releaseCount && c.count + releaseCount <= c.maxCount
    ensures o.result.Ok? ==> o.result.value == c.count && o.state.count == c.count + releaseCount
    ensures releaseCount < 1 ==> o.result == Err(ArgumentOutOfRange)
    ensures 1 <= releaseCount && c.count + releaseCount > c.maxCount ==> o.result == Err(SemaphoreFull)
    ensures o.result.Err? ==> o.state == c
  {
    if releaseCount < 1 then Outcome(Err(ArgumentOutOfRange), c)
    else if c.maxCount - c.count < releaseCount then Outcome(Err(SemaphoreFull), c)
    else Outcome(Ok(c.count), c.(count := c.count + releaseCount))
  }

  /** `SemaphoreSlim.Wait(TimeSpan.Zero)`: takes a permit when one is available, never blocks. */
  function TryWait(c: Counter): (r: (bool, Counter))
    requires Bounded(c)
    ensures Bounded(r.1) && r.1.maxCount == c.maxCount
    ensures r.0 <==> c.count > 0
    ensures r.1.count == if r.0 then c.count - 1 else c.count
  {
    if c.count > 0 then (true, c.(count := c.count - 1)) else (false, c)
  }
}
