/** The SemaphoreSlim object the throttle owns, as a class whose count is updated in place. */
module Slim {
  import opened Base
  import SlimModel

  class SemaphoreSlim {
    var count: int32
    const maxCount: int32

    ghost function Model(): SlimModel.Counter
      reads this
    {
      SlimModel.Counter(count as int, maxCount as int)
    }

    ghost predicate Valid()
      reads this
    {
      SlimModel.Bounded(Model())
    }

    /** `new SemaphoreSlim(initialCount, maxCount)`; the one-argument form passes int.MaxValue. */
    constructor (initialCount: int32, maxCount: int32)
      requires SlimModel.New(initialCount as int, maxCount as int).Ok?
      ensures Valid()
      ensures Model() == SlimModel.New(initialCount as int, maxCount as int).value
    {
      count := initialCount;
      this.maxCount := maxCount;
    }

    function CurrentCount(): (c: int32)
      reads this
      ensures c as int == Model().count
    {
      count
    }

    method Release(releaseCount: int32) returns (r: Result<int32>)
      requires Valid()
      modifies this
      ensures Valid()
      ensures Widen(r) == SlimModel.Release(old(Model()), releaseCount as int).result
      ensures Model() == SlimModel.Release(old(Model()), releaseCount as int).state
    {
      if releaseCount < 1 {
        return Err(ArgumentOutOfRange);
      }
      if maxCount - count < releaseCount {
        return Err(SemaphoreFull);
      }
      r := Ok(count);
      count := count + releaseCount;
    }

    method TryWait() returns (acquired: bool)
      requires Valid()
      modifies this
      ensures Valid()
      ensures (acquired, Model()) == SlimModel.TryWait(old(Model()))
    {
      if count > 0 {
        count := count - 1;
        acquired := true;
      } else {
        acquired := false;
      }
    }
  }
}
