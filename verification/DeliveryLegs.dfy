// Why each leg of a message ended, and what one critical section of the worker does to the queue
// (ports/linux/src/main.cpp, core/src/queue.cpp:18-38).
module DeliveryLegs {
  import opened Text
  import opened Queue
  import opened Delivery
  import opened DeliveryProgress

  // ----- the worker's two critical sections -----

  // Nothing is taken while a job is in flight or before any is due; else the first of those that are
  // due earliest leaves the queue.
  lemma {:induction false} TakeSays(s: System, nowUs: int) returns (k: nat)
    ensures var w, t := s.worker, Next(s, Take(nowUs));
            if w.inFlight.Some? || forall j :: 0 <= j < |w.jobs| ==> w.jobs[j].nextAttemptUs > nowUs then t == s
            else && k < |w.jobs| && w.jobs[k].nextAttemptUs <= nowUs
                 && (forall j :: 0 <= j < |w.jobs| ==> w.jobs[k].nextAttemptUs <= w.jobs[j].nextAttemptUs)
                 && (forall j :: 0 <= j < k ==> w.jobs[k].nextAttemptUs < w.jobs[j].nextAttemptUs)
                 && t == s.(worker := w.(jobs := w.jobs[..k] + w.jobs[k + 1..], inFlight := Some(w.jobs[k])))
  {
    k := if s.worker.jobs == [] then 0 else Earliest(s.worker.jobs);
  }

  // A job that fails before its sixth attempt goes back while there is room, and no leg ends.
  predicate TriesAgain(w: Worker) {
    w.inFlight.Some? && w.inFlight.value.attempts + 1 < 6 && |w.jobs| < w.capacity
  }

  lemma {:induction false} RetrySays(s: System, nowUs: int)
    requires TriesAgain(s.worker)
    ensures var w, job, t := s.worker, s.worker.inFlight.value, Next(s, Done(false, nowUs));
            && |t.worker.jobs| == |w.jobs| + 1 && t.worker.jobs[..|w.jobs|] == w.jobs
            && IsRetryOf(job, nowUs, t.worker.jobs[|w.jobs|])
            && t.worker.inFlight == None && t.worker.completions == w.completions && t.worker.log == w.log
            && t.worker.capacity == w.capacity && t.dispatchers == s.dispatchers
  {
    AgainIs(s.worker.inFlight.value, nowUs);
  }

  predicate IsRetryOf(job: Job, nowUs: int, after: Job) {
    var base := Base(job.attempts + 1);
    && after.target == job.target && after.event == job.event && after.retrySeed == job.retrySeed
    && after.messageId == job.messageId && after.notify == job.notify && after.attempts == job.attempts + 1
    && nowUs + base * 1_000_000 <= after.nextAttemptUs <= nowUs + (base + base / 4) * 1_000_000
  }

  // A test message or an announcement by the device itself belongs to no message.
  lemma {:induction false} NotifySays(s: System, target: int, event: SmsEvent, nowUs: int)
    requires -1 <= target < 5
    ensures var w, t := s.worker, Next(s, Notify(target, event, nowUs));
            t == if |w.jobs| < w.capacity
                 then s.(worker := w.(jobs := w.jobs + [Job(target, event, 0, nowUs, (target + 1) * 7, 0, true)]))
                 else s
  {
  }

  // ----- how legs end -----

  // The step hands a job of this message over with success.
  predicate Succeeds(s: System, action: Action, id: nat) {
    action.Done? && action.ok && s.worker.inFlight.Some? && s.worker.inFlight.value.messageId == id
  }

  // The step gives a leg up: its sixth attempt failed, or there was no room to queue it (again).
  predicate GivesUp(s: System, action: Action, id: nat) {
    match action
    case Done(ok, _) =>
      !ok && s.worker.inFlight.Some? && s.worker.inFlight.value.messageId == id
      && (s.worker.inFlight.value.attempts == 5 || |s.worker.jobs| >= s.worker.capacity)
    case Reject(i) =>
      i < |s.dispatchers| && s.dispatchers[i].id == id && s.dispatchers[i].pending != [] && s.dispatchers[i].refused
    case _ => false
  }

  function Successes(capacity: nat, actions: seq<Action>, id: nat): nat {
    if actions == [] then 0
    else
      var n := |actions| - 1;
      Successes(capacity, actions[..n], id) + One(Succeeds(Run(capacity, actions[..n]), actions[n], id))
  }

  function Failures(capacity: nat, actions: seq<Action>, id: nat): nat {
    if actions == [] then 0
    else
      var n := |actions| - 1;
      Failures(capacity, actions[..n], id) + One(GivesUp(Run(capacity, actions[..n]), actions[n], id))
  }

  // How many legs of the message the log says ended like this.
  function EndedSo(log: seq<Event>, id: nat, success: bool): nat {
    if log == [] then 0
    else EndedSo(log[..|log| - 1], id, success) + One(log[|log| - 1] == LegEnded(id, success))
  }

  lemma {:induction false} EndedOne(log: seq<Event>, e: Event, id: nat, success: bool)
    ensures EndedSo(log + [e], id, success) == EndedSo(log, id, success) + One(e == LegEnded(id, success))
  {
    assert (log + [e])[..|log|] == log;
  }

  lemma {:induction false} FinishEnds(w: Worker, done: nat, how: bool, id: nat, success: bool)
    requires id > 0 && (done == id ==> id in w.completions)
    ensures EndedSo(FinishStep(w, done, how).log, id, success) ==
            EndedSo(w.log, id, success) + One(done == id && how == success)
  {
    hide EndedSo;
    if done in w.completions && done != 0 {
      var notice := Notified(done, !(w.completions[done].failed || !how));
      EndedOne(w.log, LegEnded(done, how), id, success);
      EndedOne(w.log + [LegEnded(done, how)], notice, id, success);
      assert w.log + [LegEnded(done, how), notice] == w.log + [LegEnded(done, how)] + [notice];
    }
  }

  // A leg that is in flight or refused belongs to a message that still waits for it.
  lemma {:induction false} WaitsForIt(s: System, id: nat)
    requires Inv(s) && id > 0
    ensures s.worker.inFlight.Some? && s.worker.inFlight.value.messageId == id ==> id in s.worker.completions
    ensures forall i :: 0 <= i < |s.dispatchers| && s.dispatchers[i].id == id && s.dispatchers[i].pending != [] ==> id in s.worker.completions
  {
    hide PhaseOf;
    assert IdOk(s.worker, id, Legs(s, id));
    forall i | 0 <= i < |s.dispatchers| && s.dispatchers[i].id == id && s.dispatchers[i].pending != []
      ensures Undispatched(s.dispatchers, id) > 0
    {
      PendingIsLeg(s.dispatchers, i, id);
    }
  }

  lemma {:induction false} PendingIsLeg(ds: seq<Dispatcher>, i: nat, id: nat)
    requires i < |ds| && ds[i].id == id && ds[i].pending != []
    ensures Undispatched(ds, id) > 0
  {
    if i > 0 { PendingIsLeg(ds[1..], i - 1, id); }
  }

  lemma {:induction false} StepEnds(s: System, action: Action, id: nat, success: bool)
    requires Inv(s) && id > 0
    ensures EndedSo(Next(s, action).worker.log, id, success) ==
            EndedSo(s.worker.log, id, success) + One(if success then Succeeds(s, action, id) else GivesUp(s, action, id))
  {
    hide EndedSo, FinishStep, Legs, IdOk, Again;
    WaitsForIt(s, id);
    match action {
      case Begin(begun, _, targets) => EndedOne(s.worker.log, Begun(begun, |targets|), id, success);
      case Reject(i) =>
        if i < |s.dispatchers| && s.dispatchers[i].pending != [] { FinishEnds(s.worker, s.dispatchers[i].id, false, id, success); }
      case Done(ok, _) =>
        if s.worker.inFlight.Some? {
          FinishEnds(s.worker.(inFlight := None), s.worker.inFlight.value.messageId, ok, id, success);
        }
      case _ =>
    }
  }

  // Over every run the legs that ended in success are those handed over, and the legs that ended in
  // failure are those whose sixth attempt failed or for which the queue had no room.
  lemma {:induction false} LegsEndAsTheyDid(capacity: nat, actions: seq<Action>, id: nat)
    requires id > 0
    ensures EndedSo(Run(capacity, actions).worker.log, id, true) == Successes(capacity, actions, id)
    ensures EndedSo(Run(capacity, actions).worker.log, id, false) == Failures(capacity, actions, id)
  {
    hide Succeeds, GivesUp, Next;
    if actions != [] {
      var n := |actions| - 1;
      LegsEndAsTheyDid(capacity, actions[..n], id);
      RunKeepsInvariant(capacity, actions[..n]);
      StepEnds(Run(capacity, actions[..n]), actions[n], id, true);
      StepEnds(Run(capacity, actions[..n]), actions[n], id, false);
    }
  }
}
