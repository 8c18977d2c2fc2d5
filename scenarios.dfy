/** The sequential traces of SemaphoreSlimThrottling.Tests replayed on the class. Each method returns
    the counts the test asserts, in the test's order, and its postcondition states the values the test
    expects. The test's waits all find a permit, so each is the non-blocking wait, and it succeeds. */
module Scenarios {
  import SemaphoreSlimThrottling

  /** A deficit of 2 under a maximum of 1, repaid one `Release()` at a time; the third release
      switches throttling off and delivers the one real permit, which is then taken and given back. */
  method ReplayRepaidOneByOne() returns (observed: seq<int>, acquired: seq<bool>)
    ensures observed == [-2, -2, -1, -1, 0, 0, 1, 0, 0, 0, 0, 0, 0, 0, 0]
    ensures acquired == [true, true, true, true]
  {
    var t := new SemaphoreSlimThrottling.SemaphoreSlimThrottle.Bounded(-2, 1);
    var c0 := t.CurrentCount();
    var r1 := t.ReleaseOne();
    var c1 := t.CurrentCount();
    var r2 := t.ReleaseOne();
    var c2 := t.CurrentCount();
    var r3 := t.ReleaseOne();
    var c3 := t.CurrentCount();
    var a1 := t.TryWait();
    var c4 := t.CurrentCount();
    var r4 := t.ReleaseOne();
    var a2 := t.TryWait();
    var c5 := t.CurrentCount();
    var r5 := t.ReleaseOne();
    var a3 := t.TryWait();
    var c6 := t.CurrentCount();
    var r6 := t.ReleaseOne();
    var a4 := t.TryWait();
    var c7 := t.CurrentCount();
    var r7 := t.ReleaseOne();
    observed := [c0 as int, r1.value as int, c1 as int, r2.value as int, c2 as int, r3.value as int, c3 as int,
                 c4 as int, r4.value as int, c5 as int, r5.value as int, c6 as int, r6.value as int,
                 c7 as int, r7.value as int];
    acquired := [a1, a2, a3, a4];
  }

  /** The same deficit repaid by a single `Release(3)`, whose remainder of 1 becomes a real permit. */
  method ReplayRepaidAtOnce() returns (observed: seq<int>, acquired: bool)
    ensures observed == [-2, -2, 1, 0, 0]
    ensures acquired
  {
    var t := new SemaphoreSlimThrottling.SemaphoreSlimThrottle.Bounded(-2, 1);
    var c0 := t.CurrentCount();
    var r1 := t.Release(3);
    var c1 := t.CurrentCount();
    acquired := t.TryWait();
    var c2 := t.CurrentCount();
    var r2 := t.ReleaseOne();
    observed := [c0 as int, r1.value as int, c1 as int, c2 as int, r2.value as int];
  }

  /** The one-argument constructor with a count of 1: seven waits, each but the last followed by
      `Release(1)`; the throttle behaves as a plain semaphore throughout. */
  method ReplayWithoutMaxCount() returns (observed: seq<int>, acquired: seq<bool>)
    ensures observed == [1, 0, 1, 0, 1, 0, 1, 0, 1, 0, 1, 0, 1, 0]
    ensures acquired == [true, true, true, true, true, true, true]
  {
    var t := new SemaphoreSlimThrottling.SemaphoreSlimThrottle(1);
    var c0 := t.CurrentCount();
    var a1 := t.TryWait();
    var c1 := t.CurrentCount();
    var r := t.Release(1);
    var c2 := t.CurrentCount();
    var a2 := t.TryWait();
    var c3 := t.CurrentCount();
    r := t.Release(1);
    var c4 := t.CurrentCount();
    var a3 := t.TryWait();
    var c5 := t.CurrentCount();
    r := t.Release(1);
    var c6 := t.CurrentCount();
    var a4 := t.TryWait();
    var c7 := t.CurrentCount();
    r := t.Release(1);
    var c8 := t.CurrentCount();
    var a5 := t.TryWait();
    var c9 := t.CurrentCount();
    r := t.Release(1);
    var c10 := t.CurrentCount();
    var a6 := t.TryWait();
    var c11 := t.CurrentCount();
    r := t.Release(1);
    var c12 := t.CurrentCount();
    var a7 := t.TryWait();
    var c13 := t.CurrentCount();
    observed := [c0 as int, c1 as int, c2 as int, c3 as int, c4 as int, c5 as int, c6 as int,
                 c7 as int, c8 as int, c9 as int, c10 as int, c11 as int, c12 as int, c13 as int];
    acquired := [a1, a2, a3, a4, a5, a6, a7];
  }
}
