/**
 The token accounting of `LeakyBucketRateLimiter`: an immutable record of the
 fixed capacity, the token counter and the replenishment job handle, with one
 pure function per transition. Calls are taken to happen one at a time.
 */
module LeakyBucket {
  import opened Job

  /** Kotlin's `Int`. Every token update is checked against this range, so the
      model shows that no sequential run can wrap the counter around. */
  newtype Int32 = x: int | -0x8000_0000 <= x < 0x8000_0000

  datatype Bucket = Bucket(capacity: Int32, tokens: Int32, job: JobState)

  /** The counter lies between zero and the capacity. */
  predicate Valid(b: Bucket) {
    0 <= b.tokens <= b.capacity
  }

  /** The constructor: the counter starts full and no job has been launched.
      The capacity is not checked. */
  function New(capacity: Int32): (b: Bucket)
    ensures b.capacity == capacity && b.tokens == capacity
    ensures b.job == NoJob
    ensures Valid(b) <==> capacity >= 0
  {
    Bucket(capacity, capacity, NoJob)
  }

  /** `getToken`: grants a token exactly when one is available and takes it
      out of the counter; a denial changes nothing. */
  function GetToken(b: Bucket): (r: (Bucket, bool))
    ensures r.1 <==> b.tokens > 0
    ensures r.1 ==> r.0.tokens as int == b.tokens as int - 1
    ensures r.0.capacity == b.capacity && r.0.job == b.job
    ensures !r.1 ==> r.0 == b
    ensures Valid(b) ==> Valid(r.0)
  {
    if b.tokens > 0 then (b.(tokens := b.tokens - 1), true) else (b, false)
  }

  /** `addToken`: adds one token while the bucket is below capacity and is a
      no-op otherwise. */
  function AddToken(b: Bucket): (r: Bucket)
    ensures b.tokens < b.capacity ==> r.tokens as int == b.tokens as int + 1
    ensures b.tokens >= b.capacity ==> r == b
    ensures r.capacity == b.capacity && r.job == b.job
    ensures r.tokens <= b.capacity || r == b
    ensures Valid(b) ==> Valid(r)
  {
    if b.tokens < b.capacity then b.(tokens := b.tokens + 1) else b
  }

  /** One iteration of the replenishment loop: a running job adds a token;
      without a running job time passes and nothing happens. */
  function Tick(b: Bucket): (r: Bucket)
    ensures IsActive(b.job) ==> r == AddToken(b)
    ensures !IsActive(b.job) ==> r == b
    ensures Valid(b) ==> Valid(r)
  {
    if IsActive(b.job) then AddToken(b) else b
  }

  /** `launchAddTokenTask` on the bucket: only the job handle changes. */
  function LaunchAddTokenTask(b: Bucket): (r: Bucket)
    ensures IsActive(r.job)
    ensures r.capacity == b.capacity && r.tokens == b.tokens
    ensures r == b <==> IsActive(b.job)
  {
    b.(job := Launch(b.job))
  }

  /** `stopAddingTokens` on the bucket: only the job handle changes. */
  function StopAddingTokens(b: Bucket): (r: Bucket)
    ensures !IsActive(r.job)
    ensures r.capacity == b.capacity && r.tokens == b.tokens
    ensures r == b <==> !IsActive(b.job)
  {
    b.(job := Stop(b.job))
  }
}
