# Leaky bucket rate limiter: token accounting and job lifecycle

This project models `LeakyBucketRateLimiter` from the `k-ratelimiter` Kotlin
repository as a sequential state machine. A bucket holds an immutable
`capacity`, a `tokens` counter that starts at the capacity, and the handle of
its replenishment job.

- `getToken` is a non-blocking check-and-decrement. It returns whether a token was granted.
- `addToken` adds one token while the bucket is below capacity.
- `launchAddTokenTask` starts the replenishment job unless one is already active.
- `stopAddingTokens` cancels the job if there is one.

One iteration of the replenishment loop is a `Tick`. A tick calls `addToken`
while the job is active and does nothing otherwise. No time is modelled.

Files:

- `job.dfy` (module `Job`): the job handle. It is absent, active or cancelled, and each launch carries a generation number.
- `bucket.dfy` (module `LeakyBucket`): the bucket record, Kotlin's `Int` as the newtype `Int32`, and one pure function per transition.
- `traces.dfy` (module `Traces`): arbitrary sequences of calls and ticks, and the properties that hold for every such run.

Kotlin's 32-bit `Int` is the newtype `Int32`. Dafny checks every `tokens + 1`
and `tokens - 1` against that range. So the model also shows that a sequential
run never wraps the counter around.

`Ratelimiter.kt:7-8` never checks the capacity, so `New` accepts any
`Int32`. The bounds invariant `Valid` needs `capacity >= 0`.
`NegativeCapacityFrozen` shows what happens with a negative capacity: the
counter never changes and nothing is ever granted.

## Model

| member | source | states |
|---|---|---|
| `Job.Launch` | src/main/kotlin/Ratelimiter.kt:11-13 | A new job is launched exactly when the handle is null or its job is cancelled (`IsActive` false), matching the guard at line 12. The new job is of the next generation, later than the cancelled job it replaces. An already active handle is returned unchanged. The result is always an active job. |
| `Job.Stop` | src/main/kotlin/Ratelimiter.kt:26-28 | The result is never active. It differs from the handle exactly when a job was active, and then it is that same job, cancelled. A missing handle stays missing. |
| `Job.LaunchIdempotent` | src/main/kotlin/Ratelimiter.kt:12-13 | Launching twice creates at most one job. |
| `Job.StopIdempotent` | src/main/kotlin/Ratelimiter.kt:27 | Stopping twice is the same as stopping once. |
| `Job.RestartAfterStop` | src/main/kotlin/Ratelimiter.kt:11-13 | A launch after a stop always yields a running job. If a job was active, the new job is of the next generation. |
| `LeakyBucket.New` | src/main/kotlin/Ratelimiter.kt:7-9 | A fresh bucket holds exactly `capacity` tokens and has no job. It satisfies the bounds invariant iff `capacity >= 0`. |
| `LeakyBucket.GetToken` | src/main/kotlin/Ratelimiter.kt:36-43 | A token is granted iff `tokens > 0`. A grant lowers the counter by exactly one. A denial leaves the bucket unchanged. Capacity and job never change, and the bounds invariant is kept. |
| `LeakyBucket.AddToken` | src/main/kotlin/Ratelimiter.kt:30-34 | Below capacity the counter rises by exactly one. At or above capacity the bucket is unchanged. The counter never goes above the capacity unless it already was, and the bounds invariant is kept. |
| `LeakyBucket.Tick` | src/main/kotlin/Ratelimiter.kt:15-18 | A loop iteration is an `addToken` while the job is active, and does nothing after the job has been cancelled. |
| `LeakyBucket.LaunchAddTokenTask` | src/main/kotlin/Ratelimiter.kt:11-13 | Afterwards a job is active. Capacity and tokens are untouched. The bucket is unchanged iff a job was already active. |
| `LeakyBucket.StopAddingTokens` | src/main/kotlin/Ratelimiter.kt:26-28 | Afterwards no job is active. Capacity and tokens are untouched. With no active job the call is a no-op. |
| `Traces.Step` | src/main/kotlin/Ratelimiter.kt:11-43 | Any one call outputs a grant iff it is `getToken` on a positive counter. Only launch and stop change the job. Only `addToken` and ticks can raise the counter. Every call keeps the bounds invariant. |
| `Traces.Run` | src/main/kotlin/Ratelimiter.kt:30-43 | Every sequential interleaving of calls and ticks keeps the capacity and keeps `0 <= tokens <= capacity`. |
| `Traces.RunAppend` | src/main/kotlin/Ratelimiter.kt:30-43 | Running two call sequences one after the other is the same as running their concatenation. |
| `Traces.BoundsAlongRun` | src/main/kotlin/Ratelimiter.kt:7-8 | With `capacity >= 0`, the counter stays within bounds after every prefix of every run from a fresh bucket. |
| `Traces.Conservation` | src/main/kotlin/Ratelimiter.kt:30-42 | For every bucket, including one built with a negative capacity, grants plus the final counter never exceed the initial counter plus the refill calls. With no refills, the grants are exactly what the counter lost. |
| `Traces.AcquireSequence` | src/main/kotlin/Ratelimiter.kt:36-42 | From `t >= 0` tokens, `n` consecutive `getToken` calls answer true for the first `t` calls and false afterwards. The counter ends at `max(t - n, 0)`. |
| `Traces.DrainFreshBucket` | src/main/kotlin/Ratelimiter.kt:8 | With no replenishment, a fresh bucket of capacity `C` grants exactly `C` consecutive calls and denies every later call. |
| `Traces.CapacityThreeExample` | src/main/kotlin/Ratelimiter.kt:36-42 | A capacity-3 bucket answers true, true, true, false. |
| `Traces.ReplenishSaturates` | src/main/kotlin/Ratelimiter.kt:31-32 | `n` consecutive `addToken` calls raise the counter to `min(tokens + n, capacity)`, never above the capacity. |
| `Traces.FullBucketUnchanged` | src/main/kotlin/Ratelimiter.kt:31 | On a full bucket, any mix of `addToken` calls and ticks leaves the bucket exactly as it was. |
| `Traces.StoppedNeverRefills` | src/main/kotlin/Ratelimiter.kt:15-17 | After a stop, and with no relaunch and no direct `addToken`, ticks and grants never raise the counter. The job stays inactive. |
| `Traces.NegativeCapacityFrozen` | src/main/kotlin/Ratelimiter.kt:7-8 | The capacity is unchecked. A bucket with a negative capacity keeps its counter forever and grants nothing. |
| `Traces.DrainBucket` | src/main/kotlin/Ratelimiter.kt:36-42 | A caller that calls `getToken` until it is denied receives exactly the initial tokens and leaves the bucket empty. With a negative counter it receives nothing. |

## Left out

- Coroutine scheduling (`GlobalScope.launch`, `delay`, `isActive` polling, the one-second interval): time is not modelled. A loop iteration is the explicit `Tick` event.
- The `delay(10000)` followed by `stopAddingTokens()` after the loop (`Ratelimiter.kt:19-20`): the loop exits only through cancellation, and then the `delay` throws, so this code adds no observable state change.
- Concurrency and atomicity: the source reads the counter with `get()` and then updates it with `incrementAndGet()` or `decrementAndGet()`. Two threads can interleave between the read and the update and push the counter out of bounds. The model, and every invariant in it, covers sequential execution only.
- The `println` logging in `addToken` and `getToken`: output only.
- `RateLimiterConfig` (`Ratelimiter.kt:5`): a data class with no behaviour.
- A construction error for a capacity of zero or less: the source has none, so `New` accepts every capacity.
- The fixed-window limiter: it is not in `Ratelimiter.kt`, and this model covers only that file.
