/** SemaphoreSlimThrottle: a SemaphoreSlim that accepts a negative initial count. The deficit and the
    throttling flag are fields updated in place; the owned semaphore is a separate object. */
module SemaphoreSlimThrottling {
  import opened Base
  import Slim
  import ThrottleModel
  import ThrottleProperties

  class SemaphoreSlimThrottle {
    var throttleCount: int32
    var throttleEnabled: bool
    const semaphoreSlim: Slim.SemaphoreSlim

    /** The fields, read as a state of the deficit-reconciliation state machine. */
    ghost function State(): ThrottleModel.State
      reads this, semaphoreSlim
    {
      ThrottleModel.State(throttleCount as int, throttleEnabled, semaphoreSlim.Model())
    }

    ghost predicate Valid()
      reads this, semaphoreSlim
    {
      ThrottleModel.Valid(State())
    }

    /** `SemaphoreSlimThrottle(int initialCount)`: never throttles; the semaphore gets the count as is. */
    constructor (initialCount: int32)
      requires ThrottleModel.Create(initialCount as int).Ok?
      ensures Valid() && fresh(semaphoreSlim)
      ensures State() == ThrottleModel.Create(initialCount as int).value
      ensures CurrentCount() == initialCount && !throttleEnabled
    {
      // C# leaves the deficit fields at their defaults
      throttleCount, throttleEnabled := 0, false;
      semaphoreSlim := new Slim.SemaphoreSlim(initialCount, MaxInt32 as int32);
    }

    /** `SemaphoreSlimThrottle(int initialCount, int maxCount)`: a negative count becomes the deficit. */
    constructor Bounded(initialCount: int32, maxCount: int32)
      requires ThrottleModel.CreateBounded(initialCount as int, maxCount as int).Ok?
      ensures Valid() && fresh(semaphoreSlim)
      ensures State() == ThrottleModel.CreateBounded(initialCount as int, maxCount as int).value
      ensures CurrentCount() == initialCount && semaphoreSlim.maxCount == maxCount
    {
      if initialCount < 0 {
        throttleCount := initialCount;
        throttleEnabled := true;
        semaphoreSlim := new Slim.SemaphoreSlim(0, maxCount);
      } else {
        throttleCount, throttleEnabled := 0, false;
        semaphoreSlim := new Slim.SemaphoreSlim(initialCount, maxCount);
      }
    }

    /** The `CurrentCount` property; it never overflows 32 bits. */
    function CurrentCount(): (c: int32)
      reads this, semaphoreSlim
      requires Valid()
      ensures c as int == ThrottleModel.CurrentCount(State())
    {
      if !throttleEnabled then semaphoreSlim.CurrentCount()
      else throttleCount + semaphoreSlim.CurrentCount()
    }

    /** `Release(int releaseCount)`, made atomic: returns the previous count. */
    method Release(releaseCount: int32) returns (r: Result<int32>)
      requires Valid()
      modifies this, semaphoreSlim
      ensures Valid()
      ensures Widen(r) == ThrottleModel.Release(old(State()), releaseCount as int).result
      ensures State() == ThrottleModel.Release(old(State()), releaseCount as int).state
      ensures r.Ok? <==> 1 <= releaseCount && old(CurrentCount()) as int + releaseCount as int <= semaphoreSlim.maxCount as int
      ensures r.Ok? ==> r.value == old(CurrentCount()) && CurrentCount() as int == old(CurrentCount()) as int + releaseCount as int
    {
      ThrottleProperties.ReleaseRefines(State(), releaseCount as int);
      if !throttleEnabled || releaseCount < 1 {
        r := semaphoreSlim.Release(releaseCount);
        return;
      }
      var remainingCount: int32;
      var returnCount: int32 := 0;
      var throttleCount := this.throttleCount;
      if throttleCount == 0 || !throttleEnabled {
        // another thread has already repaid the deficit
        remainingCount := releaseCount;
      } else if releaseCount + throttleCount < 0 {
        this.throttleCount := this.throttleCount + releaseCount;
        return Ok(throttleCount);
      } else {
        this.throttleCount := 0;
        throttleEnabled := false;
        returnCount := throttleCount;
        remainingCount := releaseCount + throttleCount;
      }
      if remainingCount > 0 {
        var previous := semaphoreSlim.Release(remainingCount);
        r := match previous
          case Ok(p) => Ok(p + returnCount)
          case Err(e) => Err(e);
        return;
      }
      r := Ok(returnCount + semaphoreSlim.CurrentCount());
    }

    /** `Release()`, which is `Release(1)`. */
    method ReleaseOne() returns (r: Result<int32>)
      requires Valid()
      modifies this, semaphoreSlim
      ensures Valid()
      ensures Widen(r) == ThrottleModel.ReleaseOne(old(State())).result
      ensures State() == ThrottleModel.ReleaseOne(old(State())).state
      ensures r.Ok? <==> old(CurrentCount()) as int + 1 <= semaphoreSlim.maxCount as int
      ensures r.Ok? ==> r.value == old(CurrentCount()) && CurrentCount() as int == old(CurrentCount()) as int + 1
    {
      ThrottleProperties.ReleaseRefines(State(), 1);
      r := Release(1);
    }

    /** `Wait(TimeSpan.Zero)`: a wait that does not block, passed straight to the semaphore. */
    method TryWait() returns (acquired: bool)
      requires Valid()
      modifies semaphoreSlim
      ensures Valid()
      ensures (acquired, State()) == ThrottleModel.TryWait(old(State()))
      ensures acquired <==> old(CurrentCount()) > 0
      ensures CurrentCount() == if acquired then old(CurrentCount()) - 1 else old(CurrentCount())
    {
      ThrottleProperties.TryWaitRefines(State());
      acquired := semaphoreSlim.TryWait();
    }
  }
}
