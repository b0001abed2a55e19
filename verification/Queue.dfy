// ForwardRetryQueue of core/src/queue.cpp and backoff_seconds of core/src/push.cpp.
module Queue {
  import opened Text

  const PUSH_RETRY_MAX := 6
  const PUSH_RETRY_BASE_SEC := 20
  const PUSH_RETRY_MAX_SEC := 600
  const UINT32 := 0x1_0000_0000

  datatype SmsEvent = SmsEvent(sender: Bytes, text: Bytes, timestamp: Bytes, receiver: Bytes)

  datatype Job = Job(target: int, event: SmsEvent, attempts: nat, nextAttemptUs: int,
                     retrySeed: nat, messageId: nat, notify: bool)

  // ----- backoff -----

  function Doubled(step: nat, times: nat): nat
    decreases times
  {
    if times == 0 || step >= PUSH_RETRY_MAX_SEC then step else Doubled(step * 2, times - 1)
  }

  function Backoff(attempts: nat, seed: nat): nat {
    var step := Doubled(PUSH_RETRY_BASE_SEC, if attempts > 0 then attempts - 1 else 0);
    var capped := if step > PUSH_RETRY_MAX_SEC then PUSH_RETRY_MAX_SEC else step;
    capped + seed % (capped / 4 + 1)
  }

  method BackoffSeconds(attempts: nat, seed: nat) returns (delay: nat)
    ensures delay == Backoff(attempts, seed)
  {
    var step: nat := PUSH_RETRY_BASE_SEC;
    var i := 1;
    while i < attempts && step < PUSH_RETRY_MAX_SEC
      invariant 1 <= i && (i <= attempts || attempts == 0)
      invariant Doubled(step, if attempts > i then attempts - i else 0) ==
                Doubled(PUSH_RETRY_BASE_SEC, if attempts > 0 then attempts - 1 else 0)
    {
      step := step * 2;
      i := i + 1;
    }
    if step > PUSH_RETRY_MAX_SEC { step := PUSH_RETRY_MAX_SEC; }
    var jitter := step / 4;
    delay := step + if jitter > 0 then seed % (jitter + 1) else 0;
  }

  lemma {:induction false} DoubledGrows(step: nat, m: nat, n: nat)
    requires m <= n
    ensures step <= Doubled(step, m) <= Doubled(step, n)
    decreases n
  {
    if step < PUSH_RETRY_MAX_SEC {
      if m > 0 {
        DoubledGrows(step * 2, m - 1, n - 1);
      } else if n > 0 {
        DoubledGrows(step * 2, 0, n - 1);
      }
    }
  }

  // The delay before the jitter never shrinks from one attempt to the next, and the jitter adds at
  // most a quarter: every delay lies between 20 and 750 seconds.
  lemma {:induction false} BackoffBounds(attempts: nat, seed: nat)
    ensures 20 <= Backoff(attempts, seed) <= 750
    ensures Backoff(attempts, 0) <= Backoff(attempts + 1, 0)
    ensures Backoff(attempts, 0) <= Backoff(attempts, seed) <= Backoff(attempts, 0) * 5 / 4
  {
    DoubledGrows(PUSH_RETRY_BASE_SEC, if attempts > 0 then attempts - 1 else 0, attempts);
  }

  // The delay before the jitter, by the number of attempts made: 20 s, doubled up to 600 s.
  function Base(attempts: nat): nat {
    if attempts >= 6 then 600 else [20, 20, 40, 80, 160, 320][attempts]
  }

  lemma {:induction false} BackoffTable(attempts: nat, seed: nat)
    ensures Backoff(attempts, seed) == Base(attempts) + seed % (Base(attempts) / 4 + 1)
  {
    if attempts >= 6 {
      StartsSo(attempts - 1);
    } else {
      DoubledTo(if attempts > 0 then attempts - 1 else 0);
    }
  }

  lemma {:induction false} StartsSo(times: nat)
    requires times >= 5
    ensures Doubled(20, times) == 640
  {
    assert Doubled(20, times) == Doubled(40, times - 1) == Doubled(80, times - 2);
    assert Doubled(80, times - 2) == Doubled(160, times - 3) == Doubled(320, times - 4);
  }

  lemma {:induction false} DoubledTo(times: nat)
    requires times < 5
    ensures Doubled(20, times) == [20, 40, 80, 160, 320][times]
  {
    if times > 0 { assert Doubled(20, times) == Doubled(40, times - 1); }
    if times > 1 { assert Doubled(40, times - 1) == Doubled(80, times - 2); }
    if times > 2 { assert Doubled(80, times - 2) == Doubled(160, times - 3); }
    if times > 3 { assert Doubled(160, times - 3) == Doubled(320, times - 4); }
  }

  // ----- the queue -----

  // std::min_element by due time: the first of the earliest.
  predicate IsEarliest(jobs: seq<Job>, k: nat) {
    && k < |jobs|
    && (forall j :: 0 <= j < |jobs| ==> jobs[k].nextAttemptUs <= jobs[j].nextAttemptUs)
    && (forall j :: 0 <= j < k ==> jobs[k].nextAttemptUs < jobs[j].nextAttemptUs)
  }

  function Earliest(jobs: seq<Job>): (k: nat)
    requires jobs != []
    ensures IsEarliest(jobs, k)
  {
    if |jobs| == 1 then 0
    else
      var k := Earliest(jobs[..|jobs| - 1]);
      if jobs[|jobs| - 1].nextAttemptUs < jobs[k].nextAttemptUs then |jobs| - 1 else k
  }

  function Again(job: Job, nowUs: int): Job {
    var attempts := job.attempts + 1;
    job.(attempts := attempts,
         nextAttemptUs := nowUs + Backoff(attempts, (job.retrySeed + attempts) % UINT32) * 1_000_000)
  }

  // A job that is tried again is the same job, one attempt on, due in Base seconds and up to a quarter
  // more, by a seed that wraps at 32 bits.
  lemma {:induction false} AgainIs(job: Job, nowUs: int)
    ensures var after, base := Again(job, nowUs), Base(job.attempts + 1);
            && after.target == job.target && after.event == job.event && after.retrySeed == job.retrySeed
            && after.messageId == job.messageId && after.notify == job.notify
            && after.attempts == job.attempts + 1
            && after.nextAttemptUs == nowUs + (base + (job.retrySeed + after.attempts) % 0x1_0000_0000 % (base / 4 + 1)) * 1_000_000
  {
    BackoffTable(job.attempts + 1, (job.retrySeed + job.attempts + 1) % UINT32);
  }

  class ForwardRetryQueue {
    const capacity: nat
    var jobs: seq<Job>

    constructor (capacity: nat := 64)
      ensures this.capacity == capacity && jobs == []
    {
      this.capacity := capacity;
      jobs := [];
    }

    method Enqueue(target: int, event: SmsEvent, nowUs: int, retrySeed: nat, messageId: nat, notify: bool) returns (ok: bool)
      modifies this
      ensures ok == (old(|jobs|) < capacity)
      ensures jobs == if ok then old(jobs) + [Job(target, event, 0, nowUs, retrySeed, messageId, notify)] else old(jobs)
    {
      if |jobs| >= capacity { return false; }
      jobs := jobs + [Job(target, event, 0, nowUs, retrySeed, messageId, notify)];
      return true;
    }

    method EarliestIndex() returns (k: nat)
      requires jobs != []
      ensures k == Earliest(jobs)
    {
      k := 0;
      for i := 1 to |jobs|
        invariant IsEarliest(jobs[..i], k)
      {
        if jobs[i].nextAttemptUs < jobs[k].nextAttemptUs { k := i; }
      }
      assert jobs[..|jobs|] == jobs;
    }

    // Takes the job that is due first, if it is due by now; nothing is taken before its time.
    method TakeReady(nowUs: int) returns (job: Option<Job>)
      modifies this
      ensures job.None? <==> forall j :: 0 <= j < old(|jobs|) ==> old(jobs)[j].nextAttemptUs > nowUs
      ensures if job.None? then jobs == old(jobs)
              else job == Some(old(jobs)[Earliest(old(jobs))]) && jobs == Without(old(jobs), Earliest(old(jobs)))
    {
      if jobs == [] { return None; }
      var k := EarliestIndex();
      if jobs[k].nextAttemptUs > nowUs { return None; }
      job := Some(jobs[k]);
      jobs := Without(jobs, k);
    }

    // A failed job goes back with one attempt more and a later due time, unless it has used up its
    // attempts or the queue is full; the caller's copy counts the attempt either way.
    method Retry(job: Job, nowUs: int) returns (ok: bool, after: Job)
      modifies this
      ensures ok == (job.attempts + 1 < 6 && old(|jobs|) < capacity)
      ensures after.attempts == job.attempts + 1
      ensures jobs == if ok then old(jobs) + [Again(job, nowUs)] else old(jobs)
    {
      after := job.(attempts := job.attempts + 1);
      if after.attempts >= PUSH_RETRY_MAX || |jobs| >= capacity { return false, after; }
      var delay := BackoffSeconds(after.attempts, (job.retrySeed + after.attempts) % UINT32);
      after := after.(nextAttemptUs := nowUs + delay * 1_000_000);
      jobs := jobs + [after];
      ok := true;
    }

    method NextDueUs() returns (due: int)
      ensures due == if jobs == [] then -1 else jobs[Earliest(jobs)].nextAttemptUs
    {
      if jobs == [] { return -1; }
      var k := EarliestIndex();
      due := jobs[k].nextAttemptUs;
    }
  }
}
