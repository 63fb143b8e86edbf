/**
 Sequential runs of a leaky bucket: any interleaving of the public calls and
 of replenishment ticks, applied one at a time, and the properties that hold
 of every such run.
 */
module Traces {
  import opened Job
  import opened LeakyBucket

  /** One thing that can happen to a bucket: a public call, or one tick of
      the replenishment loop. */
  datatype Call =
    | GetTokenCall
    | AddTokenCall
    | TimerTick
    | LaunchCall
    | StopCall

  /** Applies one call; the output is `true` exactly for a granted token. */
  function Step(b: Bucket, c: Call): (r: (Bucket, bool))
    ensures r.1 <==> c == GetTokenCall && b.tokens > 0
    ensures r.0.capacity == b.capacity
    ensures c != LaunchCall && c != StopCall ==> r.0.job == b.job
    ensures c == GetTokenCall || c == LaunchCall || c == StopCall ==> r.0.tokens <= b.tokens
    ensures Valid(b) ==> Valid(r.0)
  {
    match c
    case GetTokenCall => GetToken(b)
    case AddTokenCall => (AddToken(b), false)
    case TimerTick => (Tick(b), false)
    case LaunchCall => (LaunchAddTokenTask(b), false)
    case StopCall => (StopAddingTokens(b), false)
  }

  /** Applies the calls in order, collecting one output per call. Every run
      from a bucket within bounds ends within bounds. */
  function Run(b: Bucket, cs: seq<Call>): (r: (Bucket, seq<bool>))
    ensures |r.1| == |cs|
    ensures r.0.capacity == b.capacity
    ensures Valid(b) ==> Valid(r.0)
    decreases |cs|
  {
    if cs == [] then (b, [])
    else
      var (b1, o) := Step(b, cs[0]);
      var (b2, os) := Run(b1, cs[1..]);
      (b2, [o] + os)
  }

  /** Running two call sequences back to back is running their concatenation. */
  lemma {:induction false} RunAppend(b: Bucket, xs: seq<Call>, ys: seq<Call>)
    ensures Run(b, xs + ys).0 == Run(Run(b, xs).0, ys).0
    ensures Run(b, xs + ys).1 == Run(b, xs).1 + Run(Run(b, xs).0, ys).1
    decreases |xs|
  {
    if xs != [] {
      assert (xs + ys)[0] == xs[0];
      assert (xs + ys)[1..] == xs[1..] + ys;
      RunAppend(Step(b, xs[0]).0, xs[1..], ys);
    } else {
      assert xs + ys == ys;
    }
  }

  /** Given a non-negative capacity, the state after every prefix of every
      sequential run from a fresh bucket lies between zero and the capacity. */
  lemma BoundsAlongRun(c: Int32, cs: seq<Call>, k: nat)
    requires c >= 0 && k <= |cs|
    ensures 0 <= Run(New(c), cs[..k]).0.tokens <= c
    ensures Run(New(c), cs).0 == Run(Run(New(c), cs[..k]).0, cs[k..]).0
  {
    RunAppend(New(c), cs[..k], cs[k..]);
    assert cs[..k] + cs[k..] == cs;
  }

  /** The number of granted tokens among the outputs. */
  function Grants(os: seq<bool>): (n: nat) {
    if os == [] then 0 else (if os[0] then 1 else 0) + Grants(os[1..])
  }

  /** The number of calls that may add a token. */
  function Refills(cs: seq<Call>): (n: nat) {
    if cs == [] then 0
    else (if cs[0] == AddTokenCall || cs[0] == TimerTick then 1 else 0) + Refills(cs[1..])
  }

  /** `n` copies of the same call. */
  function Repeat(c: Call, n: nat): (cs: seq<Call>) {
    seq(n, _ => c)
  }

  lemma RepeatTail(c: Call, n: nat)
    requires n > 0
    ensures Repeat(c, n)[0] == c
    ensures Repeat(c, n)[1..] == Repeat(c, n - 1)
  {
  }

  lemma GrantsCons(o: bool, os: seq<bool>)
    ensures Grants([o] + os) == (if o then 1 else 0) + Grants(os)
  {
    assert ([o] + os)[1..] == os;
  }

  /** Tokens are conserved: every grant is paid for by the initial stock or
      by a refill, and with no refills the grants are exactly what the
      counter lost. */
  lemma {:induction false} Conservation(b: Bucket, cs: seq<Call>)
    ensures Grants(Run(b, cs).1) + Run(b, cs).0.tokens as int <= b.tokens as int + Refills(cs)
    ensures Refills(cs) == 0 ==> Grants(Run(b, cs).1) + Run(b, cs).0.tokens as int == b.tokens as int
    decreases |cs|
  {
    if cs != [] {
      var (b1, o) := Step(b, cs[0]);
      Conservation(b1, cs[1..]);
      GrantsCons(o, Run(b1, cs[1..]).1);
    }
  }

  /** A bucket with `t >= 0` tokens and no refills answers `t` grants and
      then only denials, and is left empty or with what was not asked for. */
  lemma {:induction false} AcquireSequence(b: Bucket, n: nat)
    requires b.tokens >= 0
    ensures Run(b, Repeat(GetTokenCall, n)).1 == seq(n, i => i < b.tokens as int)
    ensures Run(b, Repeat(GetTokenCall, n)).0.tokens as int
         == if n <= b.tokens as int then b.tokens as int - n else 0
    ensures Run(b, Repeat(GetTokenCall, n)).0.job == b.job
    decreases n
  {
    if n > 0 {
      RepeatTail(GetTokenCall, n);
      var b1 := GetToken(b).0;
      AcquireSequence(b1, n - 1);
      var os := Run(b1, Repeat(GetTokenCall, n - 1)).1;
      assert Run(b, Repeat(GetTokenCall, n)).1 == [b.tokens > 0] + os;
      if b.tokens > 0 {
        assert forall i :: 0 <= i < n - 1 ==> os[i] == (i < b1.tokens as int);
      } else {
        assert b1 == b;
      }
    }
  }

  /** With no replenishment, a fresh bucket of capacity `c` grants exactly
      `c` consecutive requests and denies every later one. */
  lemma DrainFreshBucket(c: Int32, n: nat)
    requires c >= 0
    ensures Run(New(c), Repeat(GetTokenCall, n)).1 == seq(n, i => i < c as int)
  {
    AcquireSequence(New(c), n);
  }

  /** A capacity-3 bucket answers true, true, true, false. */
  lemma CapacityThreeExample()
    ensures Run(New(3), Repeat(GetTokenCall, 4)).1 == [true, true, true, false]
  {
    DrainFreshBucket(3, 4);
  }

  /** Repeated `addToken` fills the bucket one token at a time and stops at
      the capacity, however many times it is called. */
  lemma {:induction false} ReplenishSaturates(b: Bucket, n: nat)
    requires b.tokens <= b.capacity
    ensures Run(b, Repeat(AddTokenCall, n)).0.tokens as int
         == if b.tokens as int + n <= b.capacity as int then b.tokens as int + n else b.capacity as int
    ensures Run(b, Repeat(AddTokenCall, n)).0.job == b.job
    decreases n
  {
    if n > 0 {
      RepeatTail(AddTokenCall, n);
      ReplenishSaturates(AddToken(b), n - 1);
    }
  }

  /** Calls that can only add tokens. */
  predicate OnlyRefills(cs: seq<Call>) {
    forall i :: 0 <= i < |cs| ==> cs[i] == AddTokenCall || cs[i] == TimerTick
  }

  /** Once full, any number of `addToken` calls and ticks leave the bucket
      exactly as it was. */
  lemma {:induction false} FullBucketUnchanged(b: Bucket, cs: seq<Call>)
    requires b.tokens >= b.capacity
    requires OnlyRefills(cs)
    ensures Run(b, cs).0 == b
    ensures Grants(Run(b, cs).1) == 0
    decreases |cs|
  {
    if cs != [] {
      assert cs[0] == AddTokenCall || cs[0] == TimerTick;
      assert OnlyRefills(cs[1..]) by {
        forall i | 0 <= i < |cs[1..]| ensures cs[1..][i] == AddTokenCall || cs[1..][i] == TimerTick {
          assert cs[1..][i] == cs[i + 1];
        }
      }
      FullBucketUnchanged(b, cs[1..]);
      GrantsCons(false, Run(b, cs[1..]).1);
    }
  }

  /** Calls that involve neither a launch nor a direct `addToken`. */
  predicate NoRestartOrAdd(cs: seq<Call>) {
    forall i :: 0 <= i < |cs| ==> cs[i] != LaunchCall && cs[i] != AddTokenCall
  }

  /** After `stopAddingTokens`, time may pass and tokens may be taken, but
      the counter never grows and the job stays stopped. */
  lemma {:induction false} StoppedNeverRefills(b: Bucket, cs: seq<Call>)
    requires !IsActive(b.job)
    requires NoRestartOrAdd(cs)
    ensures Run(b, cs).0.tokens <= b.tokens
    ensures !IsActive(Run(b, cs).0.job)
    decreases |cs|
  {
    if cs != [] {
      assert cs[0] != LaunchCall && cs[0] != AddTokenCall;
      assert NoRestartOrAdd(cs[1..]) by {
        forall i | 0 <= i < |cs[1..]| ensures cs[1..][i] != LaunchCall && cs[1..][i] != AddTokenCall {
          assert cs[1..][i] == cs[i + 1];
        }
      }
      StoppedNeverRefills(Step(b, cs[0]).0, cs[1..]);
    }
  }

  /** The capacity is never checked: a bucket built with a negative capacity
      starts with a negative counter that no call ever changes, and it
      grants nothing. */
  lemma {:induction false} NegativeCapacityFrozen(b: Bucket, cs: seq<Call>)
    requires b.capacity < 0 && b.tokens == b.capacity
    ensures Run(b, cs).0.tokens == b.tokens
    ensures Grants(Run(b, cs).1) == 0
    decreases |cs|
  {
    if cs != [] {
      var (b1, o) := Step(b, cs[0]);
      NegativeCapacityFrozen(b1, cs[1..]);
      GrantsCons(o, Run(b1, cs[1..]).1);
    }
  }

  /** A caller that keeps calling `getToken` until it is denied: it receives
      exactly the tokens that were in the bucket, and leaves it empty. */
  method DrainBucket(b: Bucket) returns (granted: nat, last: Bucket)
    ensures b.tokens >= 0 ==> granted == b.tokens as int && last == b.(tokens := 0)
    ensures b.tokens < 0 ==> granted == 0 && last == b
  {
    granted := 0;
    last := b;
    var r := GetToken(last);
    while r.1
      invariant r == GetToken(last)
      invariant last.capacity == b.capacity && last.job == b.job
      invariant b.tokens >= 0 ==> last.tokens >= 0 && granted + last.tokens as int == b.tokens as int
      invariant b.tokens < 0 ==> granted == 0 && last == b
      decreases last.tokens
    {
      granted := granted + 1;
      last := r.0;
      r := GetToken(last);
    }
  }
}
