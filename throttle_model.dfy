/** The deficit-reconciliation state machine of SemaphoreSlimThrottle, as pure functions of its state.
    A throttle is either Throttling (an unpaid deficit, no real permits) or Normal (a plain
    SemaphoreSlim); releases pay the deficit back first, and the switch to Normal is one-way. */
module ThrottleModel {
  import opened Base
  import SlimModel

  /** `_throttleCount`, `_throttleEnabled` and the owned semaphore's counter. */
  datatype State = State(throttleCount: int, throttleEnabled: bool, semaphore: SlimModel.Counter)

  /** The invariant every operation keeps: while throttling the deficit is strictly negative and the
      semaphore holds no permit; once throttling is off the deficit is zero. */
  predicate Valid(s: State) {
    && SlimModel.Bounded(s.semaphore)
    && MinInt32 <= s.throttleCount <= 0
    && (s.throttleEnabled ==> s.throttleCount < 0 && s.semaphore.count == 0)
    && (!s.throttleEnabled ==> s.throttleCount == 0)
  }

  /** The `CurrentCount` property: deficit plus real permits while throttling, real permits otherwise. */
  function CurrentCount(s: State): (c: int)
    ensures Valid(s) ==> MinInt32 <= c <= s.semaphore.maxCount
    ensures Valid(s) ==> (c < 0 <==> s.throttleEnabled)
  {
    if !s.throttleEnabled then s.semaphore.count else s.throttleCount + s.semaphore.count
  }

  /** The one state of a valid throttle with effective count `count` and maximum `maxCount`. */
  function FromCount(count: int, maxCount: int): State {
    if count < 0 then State(count, true, SlimModel.Counter(0, maxCount))
    else State(0, false, SlimModel.Counter(count, maxCount))
  }

  /** `new SemaphoreSlimThrottle(initialCount)`: no deficit tracking; the semaphore (maximum
      int.MaxValue) rejects a negative count. */
  function Create(initialCount: int): (r: Result<State>)
    ensures r.Ok? <==> 0 <= initialCount <= MaxInt32
    ensures r.Err? ==> r.error == ArgumentOutOfRange
    ensures r.Ok? ==> Valid(r.value) && !r.value.throttleEnabled
    ensures r.Ok? ==> CurrentCount(r.value) == initialCount && r.value.semaphore.maxCount == MaxInt32
  {
    match SlimModel.New(initialCount, MaxInt32)
    case Ok(c) => Ok(State(0, false, c))
    case Err(e) => Err(e)
  }

  /** `new SemaphoreSlimThrottle(initialCount, maxCount)`: a negative count becomes the deficit over an
      empty semaphore; otherwise the semaphore starts with the count. */
  function CreateBounded(initialCount: int, maxCount: int): (r: Result<State>)
    ensures r.Ok? <==> initialCount <= maxCount && 0 < maxCount
    ensures r.Err? ==> r.error == ArgumentOutOfRange
    ensures r.Ok? && MinInt32 <= initialCount && maxCount <= MaxInt32 ==> Valid(r.value)
    ensures r.Ok? ==> CurrentCount(r.value) == initialCount && r.value.semaphore.maxCount == maxCount
    ensures r.Ok? ==> (r.value.throttleEnabled <==> initialCount < 0)
    ensures r.Ok? && initialCount < 0 ==> r.value.throttleCount == initialCount && r.value.semaphore.count == 0
  {
    if initialCount < 0 then
      match SlimModel.New(0, maxCount)
      case Ok(c) => Ok(State(initialCount, true, c))
      case Err(e) => Err(e)
    else
      match SlimModel.New(initialCount, maxCount)
      case Ok(c) => Ok(State(0, false, c))
      case Err(e) => Err(e)
  }

  /** Forwarding `remainingCount` to the semaphore once the deficit side is settled; `returnCount`
      is added to the semaphore's previous count. */
  function Forward(s: State, remainingCount: int, returnCount: int): (o: Outcome<State>)
    requires SlimModel.Bounded(s.semaphore)
    ensures SlimModel.Bounded(o.state.semaphore)
  {
    if remainingCount > 0 then
      var sem := SlimModel.Release(s.semaphore, remainingCount);
      Outcome(Shift(sem.result, returnCount), s.(semaphore := sem.state))
    else
      Outcome(Ok(returnCount + s.semaphore.count), s)
  }

  /** `Release(releaseCount)`: forward when not throttling or when the count is invalid; otherwise
      pay the deficit back partially, or in full, switching throttling off and forwarding the rest. */
  function Release(s: State, releaseCount: int): (o: Outcome<State>)
    requires SlimModel.Bounded(s.semaphore)
    ensures SlimModel.Bounded(o.state.semaphore) && o.state.semaphore.maxCount == s.semaphore.maxCount
  {
    if !s.throttleEnabled || releaseCount < 1 then
      var sem := SlimModel.Release(s.semaphore, releaseCount);
      Outcome(sem.result, s.(semaphore := sem.state))
    else
      var throttleCount := s.throttleCount;
      if throttleCount == 0 || !s.throttleEnabled then
        // another thread has already repaid the deficit
        Forward(s, releaseCount, 0)
      else if releaseCount + throttleCount < 0 then
        Outcome(Ok(throttleCount), s.(throttleCount := s.throttleCount + releaseCount))
      else
        Forward(s.(throttleCount := 0, throttleEnabled := false), releaseCount + throttleCount, throttleCount)
  }

  /** `Release()`, which is `Release(1)`. */
  function ReleaseOne(s: State): (o: Outcome<State>)
    requires SlimModel.Bounded(s.semaphore)
    ensures Valid(s) ==> Valid(o.state)
    ensures Valid(s) ==> (o.result.Ok? <==> CurrentCount(s) + 1 <= s.semaphore.maxCount)
    ensures Valid(s) && o.result.Ok? ==>
      o.result.value == CurrentCount(s) && CurrentCount(o.state) == CurrentCount(s) + 1
  {
    Release(s, 1)
  }

  /** A non-blocking wait, passed straight to the semaphore. */
  function TryWait(s: State): (r: (bool, State))
    requires SlimModel.Bounded(s.semaphore)
    ensures SlimModel.Bounded(r.1.semaphore)
    ensures r.1.throttleCount == s.throttleCount && r.1.throttleEnabled == s.throttleEnabled
    ensures r.0 <==> s.semaphore.count > 0
    ensures r.1.semaphore.count == if r.0 then s.semaphore.count - 1 else s.semaphore.count
  {
    var (acquired, c) := SlimModel.TryWait(s.semaphore);
    (acquired, s.(semaphore := c))
  }

  /** How a run of releases ends: all of them returned, or one raised and the rest were not made. */
  datatype Run = Completed(state: State) | Stopped(error: Error, state: State)

  /** The releases `counts`, made one after another from `s`. */
  function ReleaseAll(s: State, counts: seq<int>): Run
    requires SlimModel.Bounded(s.semaphore)
    decreases |counts|
  {
    if counts == [] then Completed(s)
    else
      var o := Release(s, counts[0]);
      match o.result
      case Err(e) => Stopped(e, o.state)
      case Ok(_) => ReleaseAll(o.state, counts[1..])
  }
}
