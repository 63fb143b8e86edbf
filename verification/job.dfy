/**
 The lifecycle of the replenishment job handle `addTokenJob` of the leaky
 bucket, abstracted from coroutine scheduling. A handle is `null` until the
 first launch; a launched job stays active until it is cancelled, because its
 loop only exits through cancellation.

 Each launch is numbered by a generation, so that "a new job was created" is
 observable: relaunching after a cancellation yields a job of a later
 generation than the cancelled one.
 */
module Job {

  datatype JobState =
    | NoJob                      // `addTokenJob == null`
    | Active(generation: nat)    // a launched job whose loop is running
    | Cancelled(generation: nat) // a launched job that has been cancelled

  /** Kotlin's `addTokenJob?.isActive`, reading a `null` handle as inactive. */
  predicate IsActive(j: JobState) {
    j.Active?
  }

  /** The generation the next launched job receives. */
  function NextGeneration(j: JobState): (g: nat) {
    match j
    case NoJob => 0
    case Active(g) => g + 1
    case Cancelled(g) => g + 1
  }

  /** `launchAddTokenTask`: starts a job only when the handle is absent or
      its job is no longer active; otherwise leaves the running job alone. */
  function Launch(j: JobState): (r: JobState)
    ensures IsActive(r)
    ensures r == j <==> IsActive(j)
    ensures !IsActive(j) ==> r.generation == NextGeneration(j)
    ensures j.Cancelled? ==> r.generation > j.generation
  {
    if j.NoJob? || !IsActive(j) then Active(NextGeneration(j)) else j
  }

  /** `stopAddingTokens`: cancels the job if there is one; a missing handle
      is skipped by the safe call, and cancelling a cancelled job does nothing. */
  function Stop(j: JobState): (r: JobState)
    ensures !IsActive(r)
    ensures r == j <==> !IsActive(j)
    ensures IsActive(j) ==> r == Cancelled(j.generation)
    ensures r.NoJob? <==> j.NoJob?
  {
    match j
    case NoJob => NoJob
    case Active(g) => Cancelled(g)
    case Cancelled(_) => j
  }

  /** Launching twice in a row creates at most one job. */
  lemma LaunchIdempotent(j: JobState)
    ensures Launch(Launch(j)) == Launch(j)
  {
  }

  /** Stopping twice in a row is the same as stopping once. */
  lemma StopIdempotent(j: JobState)
    ensures Stop(Stop(j)) == Stop(j)
  {
  }

  /** A stop followed by a launch always yields a fresh, running job. */
  lemma RestartAfterStop(j: JobState)
    ensures IsActive(Launch(Stop(j)))
    ensures j.Active? ==> Launch(Stop(j)).generation == j.generation + 1
  {
  }
}
