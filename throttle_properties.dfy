/** What the throttle's release and wait promise, proved about the state machine in ThrottleModel. */
module ThrottleProperties {
  import opened Base
  import SlimModel
  import opened ThrottleModel

  /** A valid throttle is fully described by its effective count: it is throttling exactly when
      that count is negative. */
  lemma ValidIsFromCount(s: State)
    requires Valid(s)
    ensures s == FromCount(CurrentCount(s), s.semaphore.maxCount)
    ensures s.throttleEnabled <==> CurrentCount(s) < 0
  {
  }

  /** Every effective count between the 32-bit minimum and the maximum has a valid state. */
  lemma FromCountIsValid(count: int, maxCount: int)
    requires 0 < maxCount <= MaxInt32 && MinInt32 <= count <= maxCount
    ensures Valid(FromCount(count, maxCount))
    ensures CurrentCount(FromCount(count, maxCount)) == count
  {
  }

  /** Release from a valid state, seen through the effective count: it succeeds exactly when the
      count is at least 1 and the new effective count fits under the maximum, then returns the previous
      effective count and raises it by exactly `releaseCount`. A count below 1 changes nothing; an
      overflow changes nothing in Normal mode, but in Throttling mode the deficit is already repaid and
      throttling off when the semaphore refuses the remainder. */
  lemma ReleaseRefines(s: State, releaseCount: int)
    requires Valid(s)
    ensures var o := Release(s, releaseCount);
      && Valid(o.state)
      && (o.result.Ok? <==> 1 <= releaseCount && CurrentCount(s) + releaseCount <= s.semaphore.maxCount)
      && (o.result.Ok? ==> o.result.value == CurrentCount(s))
      && (o.result.Ok? ==> o.state == FromCount(CurrentCount(s) + releaseCount, s.semaphore.maxCount))
      && (releaseCount < 1 ==> o == Outcome(Err(ArgumentOutOfRange), s))
      && (1 <= releaseCount && CurrentCount(s) + releaseCount > s.semaphore.maxCount ==>
            o.result == Err(SemaphoreFull) &&
            o.state == if s.throttleEnabled then FromCount(0, s.semaphore.maxCount) else s)
  {
  }

  /** Partial repayment: a release smaller than the deficit only shrinks the deficit and returns the
      old deficit; the semaphore is not touched. */
  lemma PartialRepayment(s: State, releaseCount: int)
    requires Valid(s) && s.throttleEnabled
    requires 1 <= releaseCount && releaseCount + s.throttleCount < 0
    ensures var o := Release(s, releaseCount);
      && o.result == Ok(s.throttleCount)
      && o.state.throttleEnabled
      && o.state.throttleCount == s.throttleCount + releaseCount
      && o.state.semaphore == s.semaphore
  {
  }

  /** Full repayment: a release at least as large as the deficit clears it and switches throttling off
      for good (also when the semaphore then refuses the remainder), forwards the remainder only when it
      is positive, and returns the old deficit when it succeeds. */
  lemma FullRepayment(s: State, releaseCount: int)
    requires Valid(s) && s.throttleEnabled
    requires releaseCount + s.throttleCount >= 0
    ensures var o := Release(s, releaseCount);
      var remainder := releaseCount + s.throttleCount;
      && o.state.throttleCount == 0
      && !o.state.throttleEnabled
      && o.state.semaphore ==
           (if remainder > 0 then SlimModel.Release(s.semaphore, remainder).state else s.semaphore)
      && (o.result.Ok? <==> remainder <= s.semaphore.maxCount)
      && (o.result.Ok? ==> o.result.value == s.throttleCount)
      && (o.result.Err? ==> o.result.error == SemaphoreFull && o.state.semaphore == s.semaphore)
  {
  }

  /** Once throttling is off it stays off: release forwards straight to the semaphore, and waiting
      only touches the semaphore. */
  lemma NormalIsTerminal(s: State, releaseCount: int)
    requires Valid(s) && !s.throttleEnabled
    ensures var o := SlimModel.Release(s.semaphore, releaseCount);
      Release(s, releaseCount) == Outcome(o.result, s.(semaphore := o.state))
    ensures !Release(s, releaseCount).state.throttleEnabled
    ensures !TryWait(s).1.throttleEnabled
  {
  }

  /** Under an atomic release the slow path never finds the deficit already repaid: a valid throttle
      that is throttling has a deficit, so the branch for another thread's repayment is never taken. */
  lemma RepaidByOtherThreadUnreachable(s: State)
    requires Valid(s) && s.throttleEnabled
    ensures s.throttleCount != 0
  {
  }

  /** A non-blocking wait takes a permit exactly when the effective count is positive, lowering it by
      one; while throttling no permit is ever granted. */
  lemma TryWaitRefines(s: State)
    requires Valid(s)
    ensures var (acquired, next) := TryWait(s);
      && Valid(next)
      && (acquired <==> CurrentCount(s) > 0)
      && next == (if acquired then FromCount(CurrentCount(s) - 1, s.semaphore.maxCount) else s)
      && (s.throttleEnabled ==> !acquired && next == s)
  {
  }

  function Sum(counts: seq<int>): int {
    if counts == [] then 0 else counts[0] + Sum(counts[1..])
  }

  /** `k` copies of 1. */
  function Ones(k: nat): (r: seq<int>)
    ensures |r| == k && forall i :: 0 <= i < k ==> r[i] == 1
  {
    if k == 0 then [] else [1] + Ones(k - 1)
  }

  lemma {:induction false} SumOfPositives(counts: seq<int>)
    requires forall i :: 0 <= i < |counts| ==> counts[i] >= 1
    ensures Sum(counts) >= |counts|
  {
    if counts != [] {
      SumOfPositives(counts[1..]);
    }
  }

  lemma {:induction false} SumOfOnes(k: nat)
    ensures Sum(Ones(k)) == k
  {
    if k > 0 {
      assert Ones(k)[1..] == Ones(k - 1);
      SumOfOnes(k - 1);
    }
  }

  /** Releases totalling `Sum(counts)` (each at least 1) made one after another: all of them succeed
      exactly when the total fits under the maximum, and they leave the effective count raised by the
      total, so the throttle is back to Normal exactly when the total covers the deficit. */
  lemma {:induction false} ReleaseSequence(s: State, counts: seq<int>)
    requires Valid(s)
    requires forall i :: 0 <= i < |counts| ==> counts[i] >= 1
    ensures ReleaseAll(s, counts).Completed? <==> CurrentCount(s) + Sum(counts) <= s.semaphore.maxCount
    ensures Valid(ReleaseAll(s, counts).state)
    ensures ReleaseAll(s, counts).Completed? ==>
      ReleaseAll(s, counts).state == FromCount(CurrentCount(s) + Sum(counts), s.semaphore.maxCount)
    decreases |counts|
  {
    if counts == [] {
      ValidIsFromCount(s);
    } else {
      var o := Release(s, counts[0]);
      ReleaseRefines(s, counts[0]);
      SumOfPositives(counts[1..]);
      if o.result.Ok? {
        FromCountIsValid(CurrentCount(s) + counts[0], s.semaphore.maxCount);
        ReleaseSequence(o.state, counts[1..]);
      }
    }
  }

  /** `k` calls of `Release()` end where one `Release(k)` ends, and succeed together with it. */
  lemma UnitReleasesMatchBulk(s: State, k: nat)
    requires Valid(s) && k >= 1
    ensures ReleaseAll(s, Ones(k)).Completed? <==> Release(s, k).result.Ok?
    ensures Release(s, k).result.Ok? ==> ReleaseAll(s, Ones(k)).state == Release(s, k).state
  {
    SumOfOnes(k);
    ReleaseSequence(s, Ones(k));
    ReleaseRefines(s, k);
  }

  /** Unit releases that overflow: they succeed until the count reaches the maximum, and the next one
      raises SemaphoreFull, leaving the count at the maximum. */
  lemma {:induction false} UnitReleasesOverflow(s: State, k: nat)
    requires Valid(s) && CurrentCount(s) + k > s.semaphore.maxCount
    ensures ReleaseAll(s, Ones(k)) == Stopped(SemaphoreFull, FromCount(s.semaphore.maxCount, s.semaphore.maxCount))
    decreases k
  {
    ReleaseRefines(s, 1);
    if CurrentCount(s) + 1 <= s.semaphore.maxCount {
      var next := Release(s, 1).state;
      assert Ones(k)[1..] == Ones(k - 1);
      UnitReleasesOverflow(next, k - 1);
    }
  }

  /** On overflow while throttling, `k` calls of `Release()` and one `Release(k)` both raise
      SemaphoreFull but end apart: the unit releases fill the semaphore to its maximum, while the bulk
      release has cleared the deficit and delivers nothing, leaving the count at 0. */
  lemma UnitReleasesDivergeOnOverflow(s: State, k: nat)
    requires Valid(s) && s.throttleEnabled && CurrentCount(s) + k > s.semaphore.maxCount
    ensures ReleaseAll(s, Ones(k)).Stopped? && ReleaseAll(s, Ones(k)).error == SemaphoreFull
    ensures Release(s, k).result == Err(SemaphoreFull)
    ensures CurrentCount(ReleaseAll(s, Ones(k)).state) == s.semaphore.maxCount
    ensures CurrentCount(Release(s, k).state) == 0
    ensures ReleaseAll(s, Ones(k)).state != Release(s, k).state
  {
    UnitReleasesOverflow(s, k);
    ReleaseRefines(s, k);
  }
}
