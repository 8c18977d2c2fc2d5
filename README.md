# SemaphoreSlimThrottle in Dafny

A model of `SemaphoreSlimThrottle`, a counting semaphore that, unlike .NET's `SemaphoreSlim`, accepts
a negative initial count. A negative count is a deficit: releases pay it back first, and only once
it is fully repaid does the throttle switch off for good and hand real permits to the `SemaphoreSlim`
it owns.

The state is the deficit `_throttleCount`, the one-way flag `_throttleEnabled` and the owned
semaphore. The semaphore is modelled only through its contract, as a bounded counter: `count` in
`[0, maxCount]`. `Release(n)` rejects `n < 1` with ArgumentOutOfRange and rejects `count + n > maxCount`
with SemaphoreFull; otherwise it returns the previous count. A non-blocking wait takes a permit when
`count > 0`.

Files:

- `base.dfy` (`Base`): the 32-bit `int32` the code counts with, the two exceptions, and `Result`/`Outcome`.
- `slim_model.dfy` (`SlimModel`): the semaphore's bounded counter, as pure functions.
- `slim.dfy` (`Slim`): the owned semaphore as a class whose count is updated in place.
- `throttle_model.dfy` (`ThrottleModel`): the deficit-reconciliation state machine, as pure functions
  of the state. These include both constructors, `CurrentCount`, `Release(n)`, `Release()` and the
  non-blocking wait. The module also defines `FromCount`, the one valid state with a given effective
  count, and `ReleaseAll`, a run of releases made one after another.
- `throttle_properties.dfy` (`ThrottleProperties`): what release and wait promise, proved about the
  state machine.
- `semaphore_slim_throttle.dfy` (`SemaphoreSlimThrottling`): the class `SemaphoreSlimThrottle`. Its
  fields are updated in place, and every method is proved against the state machine.
- `scenarios.dfy` (`Scenarios`): the sequential unit-test traces replayed on the class.

The central fact is `ThrottleProperties.ValidIsFromCount`. A valid throttle is fully described by its
effective count: it is throttling exactly when that count is negative. So a successful `Release(n)`
returns the old count and leaves the state `FromCount(old + n)`. Releases made one at a time therefore
end where a single release of their sum ends, when they succeed. On overflow they can differ. While
throttling, the unit releases fill the semaphore to its maximum before one fails. A bulk release
fails after clearing the deficit, which leaves the count at 0
(`ThrottleProperties.UnitReleasesDivergeOnOverflow`).

Two behaviours of the code are worth knowing:

- A full repayment whose remainder the semaphore refuses (SemaphoreFull) has already set the deficit
  to 0 and switched throttling off. The exception leaves the effective count at 0, not at the old
  deficit. `ThrottleProperties.ReleaseRefines` and `ThrottleProperties.FullRepayment` state this.
- The one-argument constructor never tracks a deficit. It hands the count to a semaphore whose
  maximum is `int.MaxValue`, so a negative count is rejected with ArgumentOutOfRange rather than
  becoming a deficit.

Every 32-bit addition in `Release` and `CurrentCount` is checked by the `int32` type: none overflows.

## Model

| member | source | states |
|---|---|---|
| `SlimModel.New` | SemaphoreSlimThrottling/SemaphoreSlimThrottle.cs:46-50 | the owned semaphore is created exactly when 0 <= initial <= max and max > 0, otherwise ArgumentOutOfRange; it starts bounded with the given count |
| `SlimModel.Release` | SemaphoreSlimThrottling/SemaphoreSlimThrottle.cs:79-87 | the semaphore's release succeeds exactly when n >= 1 and count + n <= max, returns the previous count and adds n; n < 1 is ArgumentOutOfRange, overflow is SemaphoreFull, and a failure changes nothing |
| `SlimModel.TryWait` | SemaphoreSlimThrottling/SemaphoreSlimThrottle.cs:180-181 | a non-blocking wait succeeds exactly when a permit is available and then takes one; the counter stays bounded |
| `Slim.SemaphoreSlim.constructor` | SemaphoreSlimThrottling/SemaphoreSlimThrottle.cs:46-50 | the semaphore object starts in the counter state `SlimModel.New` gives |
| `Slim.SemaphoreSlim.CurrentCount` | SemaphoreSlimThrottling/SemaphoreSlimThrottle.cs:63 | reports the semaphore's permit count |
| `Slim.SemaphoreSlim.Release` | SemaphoreSlimThrottling/SemaphoreSlimThrottle.cs:87 | updates the count in place as `SlimModel.Release` says, returning its result |
| `Slim.SemaphoreSlim.TryWait` | SemaphoreSlimThrottling/SemaphoreSlimThrottle.cs:180-181 | updates the count in place as `SlimModel.TryWait` says |
| `ThrottleModel.CurrentCount` | SemaphoreSlimThrottling/SemaphoreSlimThrottle.cs:60-64 | the effective count of a valid throttle fits in 32 bits, never exceeds the maximum, and is negative exactly while throttling |
| `ThrottleModel.Create` | SemaphoreSlimThrottling/SemaphoreSlimThrottle.cs:28-31 | the one-argument constructor succeeds exactly for 0 <= initial <= int.MaxValue, never throttles, has maximum int.MaxValue and count `initialCount`; a negative count is ArgumentOutOfRange |
| `ThrottleModel.CreateBounded` | SemaphoreSlimThrottling/SemaphoreSlimThrottle.cs:40-52 | the two-argument constructor succeeds exactly when initial <= max and max > 0; it throttles exactly when initial < 0, and then the deficit is initial and the semaphore empty; the count is initial and the state valid |
| `ThrottleModel.Release` | SemaphoreSlimThrottling/SemaphoreSlimThrottle.cs:82-120 | the three-way release (forward, partial repayment, full repayment with remainder) keeps the semaphore bounded with the same maximum; its meaning is stated by the lemmas below |
| `ThrottleModel.ReleaseOne` | SemaphoreSlimThrottling/SemaphoreSlimThrottle.cs:73 | `Release()`, which is `Release(1)`: from a valid state it keeps the invariant, succeeds exactly when count + 1 <= max, and then returns the previous count and raises it by one; `ThrottleProperties.ReleaseRefines` with n = 1 and `ThrottleProperties.UnitReleasesMatchBulk` state the rest |
| `ThrottleModel.TryWait` | SemaphoreSlimThrottling/SemaphoreSlimThrottle.cs:180-181 | the wait is passed straight to the semaphore: the deficit and the throttling flag are untouched, a permit is taken exactly when the semaphore has one, and the semaphore stays bounded; `ThrottleProperties.TryWaitRefines` states it in terms of the effective count |
| `ThrottleProperties.ValidIsFromCount` | SemaphoreSlimThrottling/SemaphoreSlimThrottle.cs:42-51 | under the invariant, the state is the one `FromCount` builds from the effective count, and throttling holds exactly when that count is negative |
| `ThrottleProperties.FromCountIsValid` | SemaphoreSlimThrottling/SemaphoreSlimThrottle.cs:42-51 | every count between the 32-bit minimum and the maximum has a valid state, whose effective count is that count |
| `ThrottleProperties.ReleaseRefines` | SemaphoreSlimThrottling/SemaphoreSlimThrottle.cs:82-119 | release keeps the invariant; it succeeds exactly when n >= 1 and count + n <= max, then returns the previous count and raises it by exactly n; n < 1 is ArgumentOutOfRange and changes nothing; overflow is SemaphoreFull, changing nothing in Normal mode but leaving count 0 and throttling off in Throttling mode |
| `ThrottleProperties.PartialRepayment` | SemaphoreSlimThrottling/SemaphoreSlimThrottle.cs:98-103 | while throttling, a release with n >= 1 and n + deficit < 0 returns the old deficit, adds n to it, keeps throttling and leaves the semaphore untouched |
| `ThrottleProperties.FullRepayment` | SemaphoreSlimThrottling/SemaphoreSlimThrottle.cs:104-119 | while throttling, a release with n + deficit >= 0 sets the deficit to 0 and throttling off even when it then fails, and forwards the remainder only when it is positive; it succeeds exactly when the remainder fits, returning the old deficit, and otherwise raises SemaphoreFull with the semaphore unchanged |
| `ThrottleProperties.NormalIsTerminal` | SemaphoreSlimThrottling/SemaphoreSlimThrottle.cs:85-88 | once throttling is off, release is exactly the semaphore's release, and neither release nor wait switches throttling back on |
| `ThrottleProperties.TryWaitRefines` | SemaphoreSlimThrottling/SemaphoreSlimThrottle.cs:180-181 | a non-blocking wait keeps the invariant and succeeds exactly when the effective count is positive, lowering it by one; while throttling it never succeeds and changes nothing |
| `ThrottleProperties.ReleaseSequence` | SemaphoreSlimThrottling/SemaphoreSlimThrottle.cs:82-120 | releases of total S, each at least 1, all succeed exactly when count + S <= max; they keep the invariant and leave the state `FromCount(count + S)`, so throttling ends exactly when S covers the deficit |
| `ThrottleProperties.UnitReleasesMatchBulk` | SemaphoreSlimThrottling/SemaphoreSlimThrottle.cs:73-120 | k calls of `Release()` succeed exactly when one `Release(k)` does, and then end in the same state |
| `ThrottleProperties.UnitReleasesOverflow` | SemaphoreSlimThrottling/SemaphoreSlimThrottle.cs:73-120 | k calls of `Release()` that together would overflow stop with SemaphoreFull, with the count at the maximum |
| `ThrottleProperties.UnitReleasesDivergeOnOverflow` | SemaphoreSlimThrottling/SemaphoreSlimThrottle.cs:104-116 | while throttling, when count + k exceeds the maximum, both k calls of `Release()` and one `Release(k)` raise SemaphoreFull, but the first end at the maximum and the second at count 0, so their states differ |
| `ThrottleProperties.RepaidByOtherThreadUnreachable` | SemaphoreSlimThrottling/SemaphoreSlimThrottle.cs:94-97 | a valid throttle that is throttling has a non-zero deficit, so an atomic release never takes the branch for a deficit another thread has repaid |
| `SemaphoreSlimThrottling.SemaphoreSlimThrottle.constructor` | SemaphoreSlimThrottling/SemaphoreSlimThrottle.cs:28-31 | the object starts valid in the state `ThrottleModel.Create` gives, not throttling, with count `initialCount` |
| `SemaphoreSlimThrottling.SemaphoreSlimThrottle.Bounded` | SemaphoreSlimThrottling/SemaphoreSlimThrottle.cs:40-52 | the object starts valid in the state `ThrottleModel.CreateBounded` gives, with count `initialCount` and the given maximum |
| `SemaphoreSlimThrottling.SemaphoreSlimThrottle.CurrentCount` | SemaphoreSlimThrottling/SemaphoreSlimThrottle.cs:60-64 | the getter computes the state machine's effective count without 32-bit overflow |
| `SemaphoreSlimThrottling.SemaphoreSlimThrottle.Release` | SemaphoreSlimThrottling/SemaphoreSlimThrottle.cs:82-120 | the in-place release keeps the invariant and produces the state machine's result and state; it succeeds exactly when n >= 1 and count + n <= max, and then returns the previous count and raises it by n |
| `SemaphoreSlimThrottling.SemaphoreSlimThrottle.ReleaseOne` | SemaphoreSlimThrottling/SemaphoreSlimThrottle.cs:73 | `Release()` is `Release(1)`: it succeeds exactly when count + 1 <= max, and then returns the previous count and raises it by one |
| `SemaphoreSlimThrottling.SemaphoreSlimThrottle.TryWait` | SemaphoreSlimThrottling/SemaphoreSlimThrottle.cs:180-181 | the pass-through wait succeeds exactly when the effective count is positive, and then lowers it by one |
| `Scenarios.ReplayRepaidOneByOne` | SemaphoreSlimThrottling.Tests/Tests.cs:12-31 | from (-2, max 1), the releases return -2, -1, 0 and the count goes -1, 0, 1; each later wait takes the permit, leaving count 0, and the following `Release()` returns 0 |
| `Scenarios.ReplayRepaidAtOnce` | SemaphoreSlimThrottling.Tests/Tests.cs:33-39 | from (-2, max 1), `Release(3)` returns -2 and leaves count 1; a wait leaves 0, and `Release()` returns 0 |
| `Scenarios.ReplayWithoutMaxCount` | SemaphoreSlimThrottling.Tests/Tests.cs:49-76 | with the one-argument constructor at 1, each wait succeeds and leaves 0, and each `Release(1)` restores 1 |

## Left out

- The lock, the `volatile` field and `LockFactory` exist only for mutual exclusion. `Release` is
  modelled as one atomic step. The branch for a deficit already repaid by another thread is kept, but
  under an atomic release the invariant makes it unreachable
  (`ThrottleProperties.RepaidByOtherThreadUnreachable`).
- `CurrentCount` is modelled as an exact read. Under concurrency the real getter is only a hint.
- The blocking, timeout, cancellation and asynchronous `Wait`/`WaitAsync` overloads and
  `AvailableWaitHandle` are left out, because their point is suspension and cancellation. Only the
  non-blocking wait is modelled. It also stands for the test's waits that find a permit available.
- `Dispose`, finalisation and ObjectDisposed are left out. They only release OS resources.
- SemaphoreSlim's internals (waiter queues, wake-ups) are left out. Only its bounded-counter contract
  is used.
- The concurrency test (Tests.cs:81-95) is left out. It needs parallel tasks, and a sequential run
  of it cannot proceed past its first wait.
- Slim.SemaphoreSlim.constructor: a Dafny constructor cannot raise, so the ArgumentOutOfRange cases
  (a negative count, a count above the maximum, a maximum of 0 or less) are a precondition here.
  `SlimModel.New` models them.
- SemaphoreSlimThrottling.SemaphoreSlimThrottle.constructor: a Dafny constructor cannot raise, so
  the ArgumentOutOfRange of invalid arguments is a precondition here. The error path is modelled by
  `ThrottleModel.Create`.
- SemaphoreSlimThrottling.SemaphoreSlimThrottle.Bounded: the same holds for the two-argument
  constructor. Its error path is modelled by `ThrottleModel.CreateBounded`.
