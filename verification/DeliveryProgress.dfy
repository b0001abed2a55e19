// The delivery protocol never gets stuck and never loops: how often a leg is taken, and that every
// schedule that goes on while something can be done ends with every message notified.
module DeliveryProgress {
  import opened Text
  import opened Queue
  import opened Delivery

  // ----- how often legs are taken -----

  // Legs of one message, or all of them.
  predicate Counts(which: Option<nat>, id: nat) {
    which.None? || which.value == id
  }

  function One(b: bool): nat {
    if b then 1 else 0
  }

  // Whether this step puts a job of such a message into the queue.
  predicate Puts(s: System, action: Action, which: Option<nat>) {
    |s.worker.jobs| < s.worker.capacity &&
    match action
    case Dispatch(i, _) =>
      i < |s.dispatchers| && s.dispatchers[i].pending != [] && !s.dispatchers[i].refused && Counts(which, s.dispatchers[i].id)
    case Notify(_, _, _) => Counts(which, 0)
    case _ => false
  }

  predicate Takes(s: System, action: Action, which: Option<nat>) {
    action.Take? && CanTake(s.worker, action.nowUs) && Counts(which, s.worker.jobs[Earliest(s.worker.jobs)].messageId)
  }

  function Enqueued(capacity: nat, actions: seq<Action>, which: Option<nat>): nat {
    if actions == [] then 0
    else
      var n := |actions| - 1;
      Enqueued(capacity, actions[..n], which) + One(Puts(Run(capacity, actions[..n]), actions[n], which))
  }

  function Taken(capacity: nat, actions: seq<Action>, which: Option<nat>): nat {
    if actions == [] then 0
    else
      var n := |actions| - 1;
      Taken(capacity, actions[..n], which) + One(Takes(Run(capacity, actions[..n]), actions[n], which))
  }

  // The attempts that the jobs still have.
  function Left(job: Job, which: Option<nat>): int {
    if Counts(which, job.messageId) then PUSH_RETRY_MAX - job.attempts else 0
  }

  function AllLeft(jobs: seq<Job>, which: Option<nat>): int {
    if jobs == [] then 0 else AllLeft(jobs[1..], which) + Left(jobs[0], which)
  }

  function LeftInFlight(w: Worker, which: Option<nat>): int {
    if w.inFlight.Some? && Counts(which, w.inFlight.value.messageId) then PUSH_RETRY_MAX - w.inFlight.value.attempts - 1 else 0
  }

  lemma {:induction false} AllLeftOne(jobs: seq<Job>, job: Job, which: Option<nat>)
    ensures AllLeft(jobs + [job], which) == AllLeft(jobs, which) + Left(job, which)
  {
    if jobs == [] {
      assert [job][1..] == [] && [] + [job] == [job];
    } else {
      assert (jobs + [job])[1..] == jobs[1..] + [job];
      AllLeftOne(jobs[1..], job, which);
    }
  }

  lemma {:induction false} AllLeftWithout(jobs: seq<Job>, k: nat, which: Option<nat>)
    requires k < |jobs|
    ensures AllLeft(jobs, which) == AllLeft(Without(jobs, k), which) + Left(jobs[k], which)
  {
    if k == 0 {
      assert Without(jobs, 0) == jobs[1..];
    } else {
      AllLeftWithout(jobs[1..], k - 1, which);
      assert Without(jobs, k)[1..] == Without(jobs[1..], k - 1);
    }
  }

  lemma {:induction false} AllLeftPositive(jobs: seq<Job>, which: Option<nat>)
    requires forall i :: 0 <= i < |jobs| ==> jobs[i].attempts < PUSH_RETRY_MAX
    ensures AllLeft(jobs, which) >= 0
  {
    if jobs != [] { AllLeftPositive(jobs[1..], which); }
  }

  function Remaining(s: System, which: Option<nat>): int {
    AllLeft(s.worker.jobs, which) + LeftInFlight(s.worker, which)
  }

  // A step that takes a job uses up one attempt, one that puts a job into the queue brings six, and no
  // other step brings any.
  lemma {:induction false} StepCounts(s: System, action: Action, which: Option<nat>)
    requires Inv(s)
    ensures One(Takes(s, action, which)) + Remaining(Next(s, action), which) <=
            Remaining(s, which) + PUSH_RETRY_MAX * One(Puts(s, action, which))
  {
    hide Remaining, IdOk, CanTake, Next, Earliest;
    match action {
      case Dispatch(i, nowUs) => DispatchCounts(s, i, nowUs, which);
      case Notify(target, event, nowUs) => NotifyCounts(s, target, event, nowUs, which);
      case Take(nowUs) => TakeCounts(s, nowUs, which);
      case Done(ok, nowUs) => DoneCounts(s, ok, nowUs, which);
      case Reject(i) => RejectCounts(s, i, which);
      case Begin(id, event, targets) => BeginCounts(s, id, event, targets, which);
    }
  }

  lemma {:induction false} NotifyCounts(s: System, target: int, event: SmsEvent, nowUs: int, which: Option<nat>)
    ensures Remaining(Next(s, Notify(target, event, nowUs)), which) ==
            Remaining(s, which) + PUSH_RETRY_MAX * One(Puts(s, Notify(target, event, nowUs), which))
  {
    hide AllLeft;
    AllLeftOne(s.worker.jobs, NewJob(target, event, nowUs, 0, true), which);
  }

  lemma {:induction false} TakeCounts(s: System, nowUs: int, which: Option<nat>)
    ensures One(Takes(s, Take(nowUs), which)) + Remaining(Next(s, Take(nowUs)), which) == Remaining(s, which)
  {
    hide AllLeft;
    if CanTake(s.worker, nowUs) { AllLeftWithout(s.worker.jobs, Earliest(s.worker.jobs), which); }
  }

  lemma {:induction false} RejectCounts(s: System, i: nat, which: Option<nat>)
    ensures Remaining(Next(s, Reject(i)), which) == Remaining(s, which)
  {
    hide AllLeft, FinishStep;
    if i < |s.dispatchers| { FinishKeepsJobs(s.worker, s.dispatchers[i].id, false); }
  }

  lemma {:induction false} BeginCounts(s: System, id: nat, event: SmsEvent, targets: seq<int>, which: Option<nat>)
    ensures Remaining(Next(s, Begin(id, event, targets)), which) == Remaining(s, which)
  {
    hide AllLeft;
  }

  lemma {:induction false} DispatchCounts(s: System, i: nat, nowUs: int, which: Option<nat>)
    ensures Remaining(Next(s, Dispatch(i, nowUs)), which) ==
            Remaining(s, which) + PUSH_RETRY_MAX * One(Puts(s, Dispatch(i, nowUs), which))
  {
    hide AllLeft;
    if i < |s.dispatchers| && s.dispatchers[i].pending != [] {
      var d := s.dispatchers[i];
      AllLeftOne(s.worker.jobs, NewJob(d.pending[0], d.event, nowUs, d.id, false), which);
    }
  }

  lemma {:induction false} DoneCounts(s: System, ok: bool, nowUs: int, which: Option<nat>)
    requires Inv(s)
    ensures Remaining(Next(s, Done(ok, nowUs)), which) <= Remaining(s, which)
  {
    hide AllLeft, IdOk;
    if s.worker.inFlight.Some? {
      var job := s.worker.inFlight.value;
      AllLeftOne(s.worker.jobs, Again(job, nowUs), which);
      FinishKeepsJobs(s.worker.(inFlight := None), job.messageId, ok);
    }
  }

  // Over every run: the jobs of a message are taken at most six times for each that was enqueued, and
  // so are all jobs together.
  lemma {:induction false} TakenSixTimes(capacity: nat, actions: seq<Action>, which: Option<nat>)
    ensures Taken(capacity, actions, which) + Remaining(Run(capacity, actions), which) <=
            6 * Enqueued(capacity, actions, which)
    ensures Taken(capacity, actions, which) <= 6 * Enqueued(capacity, actions, which)
  {
    var s := Run(capacity, actions);
    RunKeepsInvariant(capacity, actions);
    AllLeftPositive(s.worker.jobs, which);
    if actions != [] {
      var n := |actions| - 1;
      TakenSixTimes(capacity, actions[..n], which);
      RunKeepsInvariant(capacity, actions[..n]);
      StepCounts(Run(capacity, actions[..n]), actions[n], which);
    }
  }

  // All legs that were ever announced for a message.
  function LegsBegun(log: seq<Event>, id: nat): int {
    if log == [] then 0
    else
      var e := log[|log| - 1];
      LegsBegun(log[..|log| - 1], id) + if e.Begun? && e.id == id then e.legs else 0
  }

  lemma {:induction false} LegsBegunOne(log: seq<Event>, e: Event, id: nat)
    ensures LegsBegun(log + [e], id) == LegsBegun(log, id) + if e.Begun? && e.id == id then e.legs else 0
  {
    assert (log + [e])[..|log|] == log;
  }

  lemma {:induction false} FinishAnnouncesNone(w: Worker, done: nat, success: bool, id: nat)
    ensures LegsBegun(FinishStep(w, done, success).log, id) == LegsBegun(w.log, id)
  {
    hide LegsBegun;
    if done in w.completions && done != 0 {
      var notice := Notified(done, !(w.completions[done].failed || !success));
      LegsBegunOne(w.log, LegEnded(done, success), id);
      LegsBegunOne(w.log + [LegEnded(done, success)], notice, id);
      assert w.log + [LegEnded(done, success), notice] == w.log + [LegEnded(done, success)] + [notice];
    }
  }

  // A leg that is put into the queue was announced and not yet dispatched.
  lemma {:induction false} StepEnqueues(s: System, action: Action, id: nat)
    requires id > 0
    ensures var t := Next(s, action);
            One(Puts(s, action, Some(id))) + Undispatched(t.dispatchers, id) - Undispatched(s.dispatchers, id) <=
            LegsBegun(t.worker.log, id) - LegsBegun(s.worker.log, id)
  {
    hide LegsBegun, Undispatched;
    match action {
      case Begin(begun, event, targets) =>
        LegsBegunOne(s.worker.log, Begun(begun, |targets|), id);
        UndispatchedOne(s.dispatchers, Dispatcher(begun, event, targets, false), id);
      case Dispatch(i, nowUs) =>
        if i < |s.dispatchers| && s.dispatchers[i].pending != [] {
          var d := s.dispatchers[i];
          UndispatchedUpdate(s.dispatchers, i, d.(pending := d.pending[1..]), id);
          UndispatchedUpdate(s.dispatchers, i, d.(refused := true), id);
        }
      case Reject(i) =>
        if i < |s.dispatchers| && s.dispatchers[i].pending != [] {
          var d := s.dispatchers[i];
          UndispatchedUpdate(s.dispatchers, i, d.(pending := d.pending[1..], refused := false), id);
          FinishAnnouncesNone(s.worker, d.id, false, id);
        }
      case Done(ok, nowUs) =>
        if s.worker.inFlight.Some? {
          FinishAnnouncesNone(s.worker.(inFlight := None), s.worker.inFlight.value.messageId, ok, id);
        }
      case _ =>
    }
  }

  lemma {:induction false} EnqueuedAtMostAnnounced(capacity: nat, actions: seq<Action>, id: nat)
    requires id > 0
    ensures var s := Run(capacity, actions);
            Enqueued(capacity, actions, Some(id)) + Undispatched(s.dispatchers, id) <= LegsBegun(s.worker.log, id)
  {
    hide LegsBegun, Undispatched, Puts;
    if actions == [] {
      NothingBegun(capacity, id);
    } else {
      var n := |actions| - 1;
      EnqueuedAtMostAnnounced(capacity, actions[..n], id);
      StepEnqueues(Run(capacity, actions[..n]), actions[n], id);
    }
  }

  lemma {:induction false} NothingBegun(capacity: nat, id: nat)
    ensures LegsBegun(Run(capacity, []).worker.log, id) == Undispatched(Run(capacity, []).dispatchers, id) == 0
  {
  }

  // Each announced leg of a message is taken at most six times.
  lemma {:induction false} LegTakenSixTimes(capacity: nat, actions: seq<Action>, id: nat)
    requires id > 0
    ensures Taken(capacity, actions, Some(id)) <= 6 * LegsBegun(Run(capacity, actions).worker.log, id)
  {
    TakenSixTimes(capacity, actions, Some(id));
    EnqueuedAtMostAnnounced(capacity, actions, id);
  }

  // ----- progress -----

  // Nothing to do: no job, none in flight, no target of any message waiting.
  predicate Quiet(s: System) {
    && s.worker.jobs == [] && s.worker.inFlight.None?
    && forall i :: 0 <= i < |s.dispatchers| ==> s.dispatchers[i].pending == []
  }

  predicate BringsWork(action: Action) {
    action.Begin? || action.Notify?
  }

  predicate NoNewWork(actions: seq<Action>) {
    forall i :: 0 <= i < |actions| ==> !BringsWork(actions[i])
  }

  // Something that can be done next.
  function Step(s: System): Action
    requires !Quiet(s)
  {
    if s.worker.inFlight.Some? then Done(true, 0)
    else if s.worker.jobs != [] then Take(s.worker.jobs[Earliest(s.worker.jobs)].nextAttemptUs)
    else
      var i := FirstPending(s.dispatchers);
      if s.dispatchers[i].refused then Reject(i) else Dispatch(i, 0)
  }

  function FirstPending(ds: seq<Dispatcher>): (i: nat)
    requires exists k :: 0 <= k < |ds| && ds[k].pending != []
    ensures i < |ds| && ds[i].pending != []
  {
    if ds[0].pending != [] then 0
    else
      var k :| 0 <= k < |ds| && ds[k].pending != [];
      assert ds[1..][k - 1].pending != [];
      1 + FirstPending(ds[1..])
  }

  // The protocol is stuck exactly when it has nothing left to do.
  lemma {:induction false} Progress(s: System)
    ensures !Quiet(s) <==> exists action :: !BringsWork(action) && Next(s, action) != s
  {
    if Quiet(s) {
      forall action | !BringsWork(action) ensures Next(s, action) == s { QuietStays(s, action); }
    } else {
      StepChanges(s);
    }
  }

  lemma {:induction false} QuietStays(s: System, action: Action)
    requires Quiet(s) && !BringsWork(action)
    ensures Next(s, action) == s
  {
  }

  lemma {:induction false} StepChanges(s: System)
    requires !Quiet(s)
    ensures !BringsWork(Step(s)) && Next(s, Step(s)) != s
  {
    var t := Next(s, Step(s));
    if s.worker.inFlight.Some? {
      var job := s.worker.inFlight.value;
      FinishKeepsJobs(s.worker.(inFlight := None), job.messageId, true);
      assert t.worker.inFlight.None?;
    } else if s.worker.jobs != [] {
      assert t.worker.inFlight.Some?;
    } else {
      var i := FirstPending(s.dispatchers);
      assert t.dispatchers[i] != s.dispatchers[i];
    }
  }

  // From every reachable state a continuation of at most Worth(s) steps gets everything done.
  function Completion(s: System, fuel: nat): (actions: seq<Action>)
    ensures |actions| <= fuel && NoNewWork(actions)
    decreases fuel
  {
    if Quiet(s) || fuel == 0 then [] else [Step(s)] + Completion(Next(s, Step(s)), fuel - 1)
  }

  lemma {:induction false} CompletionIsQuiet(s: System, fuel: nat)
    requires Inv(s) && Worth(s) <= fuel
    ensures Quiet(From(s, Completion(s, fuel)))
    decreases fuel
  {
    hide Inv, Worth, Next, Step, Quiet;
    if Quiet(s) {
      assert From(s, []) == s;
    } else {
      var action := Step(s);
      StepChanges(s);
      StepUsesWorth(s, action);
      NextKeeps(s, action);
      assert fuel > 0;
      CompletionIsQuiet(Next(s, action), fuel - 1);
      assert ([action] + Completion(Next(s, action), fuel - 1))[1..] == Completion(Next(s, action), fuel - 1);
    }
  }

  // ----- a continuation is a longer run -----

  lemma {:induction false} RunOn(capacity: nat, actions: seq<Action>, more: seq<Action>)
    ensures From(Run(capacity, actions), more) == Run(capacity, actions + more)
    decreases |more|
  {
    if more == [] {
      assert actions + more == actions;
    } else {
      assert (actions + [more[0]])[..|actions|] == actions;
      assert actions + [more[0]] + more[1..] == actions + more;
      RunOn(capacity, actions + [more[0]], more[1..]);
    }
  }

  lemma {:induction false} NoneBegun(s: System, action: Action, id: nat)
    requires !BringsWork(action)
    ensures Begins(Next(s, action).worker.log, id) == Begins(s.worker.log, id)
  {
    match action {
      case Reject(i) => if i < |s.dispatchers| { FinishBeginsNone(s.worker, s.dispatchers[i].id, false, id); }
      case Done(ok, nowUs) =>
        if s.worker.inFlight.Some? {
          FinishBeginsNone(s.worker.(inFlight := None), s.worker.inFlight.value.messageId, ok, id);
        }
      case _ =>
    }
  }

  lemma {:induction false} FinishBeginsNone(w: Worker, done: nat, success: bool, id: nat)
    ensures Begins(FinishStep(w, done, success).log, id) == Begins(w.log, id)
  {
    var log := w.log;
    assert forall e: Event :: (log + [e])[..|log|] == log;
    assert forall e, f: Event :: (log + [e, f])[..|log| + 1] == log + [e];
  }

  lemma {:induction false} NoneBegunSince(s: System, more: seq<Action>, id: nat)
    requires NoNewWork(more)
    ensures Begins(From(s, more).worker.log, id) == Begins(s.worker.log, id)
    decreases |more|
  {
    hide Next, Begins;
    if more != [] {
      NoneBegun(s, more[0], id);
      NoneBegunSince(Next(s, more[0]), more[1..], id);
    }
  }

  // After every run, a continuation of at most Worth steps without new messages exists that leaves
  // nothing to do: every message accepted so far has then had its notice.
  lemma {:induction false} EveryMessageIsNotified(capacity: nat, actions: seq<Action>) returns (more: seq<Action>)
    ensures |more| <= Worth(Run(capacity, actions)) && NoNewWork(more) && Quiet(Run(capacity, actions + more))
    ensures Run(capacity, actions + more).worker.completions == map[]
    ensures forall id: nat :: id > 0 ==>
              Notices(Run(capacity, actions + more).worker.log, id) == Begins(Run(capacity, actions).worker.log, id)
  {
    hide Worth, Begins, Notices;
    var s := Run(capacity, actions);
    RunKeepsInvariant(capacity, actions);
    Terminates(s, []);
    more := Completion(s, Worth(s));
    CompletionIsQuiet(s, Worth(s));
    RunOn(capacity, actions, more);
    Quiescent(capacity, actions + more);
    forall id: nat { NoneBegunSince(s, more, id); }
  }

  // And so does every other schedule: one that changes the state with each step has at most Worth
  // steps, and where none can be added everything is done.
  lemma {:induction false} EveryScheduleEnds(capacity: nat, actions: seq<Action>, more: seq<Action>)
    requires NoNewWork(more) && Effective(Run(capacity, actions), more) == |more|
    requires forall action :: !BringsWork(action) ==> Next(Run(capacity, actions + more), action) == Run(capacity, actions + more)
    ensures |more| <= Worth(Run(capacity, actions))
    ensures Quiet(Run(capacity, actions + more))
    ensures forall id: nat :: id > 0 ==>
              Notices(Run(capacity, actions + more).worker.log, id) == Begins(Run(capacity, actions).worker.log, id)
  {
    hide Worth, Begins, Notices, Effective;
    var s := Run(capacity, actions);
    RunKeepsInvariant(capacity, actions);
    Terminates(s, more);
    RunOn(capacity, actions, more);
    Progress(Run(capacity, actions + more));
    Quiescent(capacity, actions + more);
    forall id: nat { NoneBegunSince(s, more, id); }
  }
}
