// The delivery protocol: PushWorker and forward_event of ports/linux/src/main.cpp over the retry
// queue. Every critical section under the lock is one atomic step; dispatchers and the worker
// interleave in any order. A message may be forwarded to several targets; each is one leg.
module Delivery {
  import opened Text
  import opened Queue

  datatype Completion = Completion(remaining: int, failed: bool)

  // The history of the protocol as it looks from outside.
  datatype Event =
    | Begun(id: nat, legs: int)
    | LegEnded(id: nat, success: bool)
    | Notified(id: nat, success: bool)

  // What the lock protects. inFlight is the job that the worker processes outside the lock.
  datatype Worker = Worker(capacity: nat, jobs: seq<Job>, completions: map<nat, Completion>,
                           inFlight: Option<Job>, log: seq<Event>)

  // ----- critical sections -----

  function BeginStep(w: Worker, id: nat, targets: int): (bool, Worker) {
    if id == 0 then (true, w)
    else if targets <= 0 then (false, w)
    else if id in w.completions then (false, w)
    else (true, w.(completions := w.completions[id := Completion(targets, false)],
                   log := w.log + [Begun(id, targets)]))
  }

  function EnqueueStep(w: Worker, job: Job): (bool, Worker) {
    if |w.jobs| >= w.capacity then (false, w) else (true, w.(jobs := w.jobs + [job]))
  }

  function FinishStep(w: Worker, id: nat, success: bool): Worker {
    if id == 0 || id !in w.completions then w
    else
      var c := w.completions[id];
      var failed := c.failed || !success;
      if c.remaining - 1 > 0
      then w.(completions := w.completions[id := Completion(c.remaining - 1, failed)],
              log := w.log + [LegEnded(id, success)])
      else w.(completions := w.completions - {id},
              log := w.log + [LegEnded(id, success), Notified(id, !failed)])
  }

  predicate CanTake(w: Worker, nowUs: int) {
    w.inFlight.None? && w.jobs != [] && w.jobs[Earliest(w.jobs)].nextAttemptUs <= nowUs
  }

  function TakeStep(w: Worker, nowUs: int): Worker {
    if CanTake(w, nowUs)
    then w.(jobs := Without(w.jobs, Earliest(w.jobs)), inFlight := Some(w.jobs[Earliest(w.jobs)]))
    else w
  }

  // After the job in flight was processed: it is finished, queued again, or given up.
  function DoneStep(w: Worker, ok: bool, nowUs: int): Worker {
    if w.inFlight.None? then w
    else
      var job := w.inFlight.value;
      var free := w.(inFlight := None);
      if ok then FinishStep(free, job.messageId, true)
      else if job.attempts + 1 < PUSH_RETRY_MAX && |w.jobs| < w.capacity
      then free.(jobs := w.jobs + [Again(job, nowUs)])
      else FinishStep(free, job.messageId, false)
  }

  function NewJob(target: int, event: SmsEvent, nowUs: int, id: nat, notify: bool): Job {
    Job(target, event, 0, nowUs, ((target + 1) * 7) % UINT32, id, notify)
  }

  // ----- the whole system -----

  // A forward_event call after begin_message: its targets still to be enqueued, and whether the
  // first of them was refused by the queue and waits for reject_leg.
  datatype Dispatcher = Dispatcher(id: nat, event: SmsEvent, pending: seq<int>, refused: bool)

  datatype System = System(worker: Worker, dispatchers: seq<Dispatcher>)

  datatype Action =
    | Begin(id: nat, event: SmsEvent, targets: seq<int>)
    | Dispatch(index: nat, nowUs: int)
    | Reject(index: nat)
    | Notify(target: int, event: SmsEvent, nowUs: int)
    | Take(nowUs: int)
    | Done(ok: bool, nowUs: int)

  function Next(s: System, action: Action): System {
    match action
    case Begin(id, event, targets) =>
      var (accepted, w) := BeginStep(s.worker, id, |targets|);
      if targets != [] && accepted
      then System(w, s.dispatchers + [Dispatcher(id, event, targets, false)])
      else s
    case Dispatch(i, nowUs) =>
      if i < |s.dispatchers| && s.dispatchers[i].pending != [] && !s.dispatchers[i].refused then
        var d := s.dispatchers[i];
        var (accepted, w) := EnqueueStep(s.worker, NewJob(d.pending[0], d.event, nowUs, d.id, false));
        System(w, s.dispatchers[i := if accepted then d.(pending := d.pending[1..]) else d.(refused := true)])
      else s
    case Reject(i) =>
      if i < |s.dispatchers| && s.dispatchers[i].pending != [] && s.dispatchers[i].refused then
        var d := s.dispatchers[i];
        System(FinishStep(s.worker, d.id, false), s.dispatchers[i := d.(pending := d.pending[1..], refused := false)])
      else s
    case Notify(target, event, nowUs) =>
      s.(worker := EnqueueStep(s.worker, NewJob(target, event, nowUs, 0, true)).1)
    case Take(nowUs) => s.(worker := TakeStep(s.worker, nowUs))
    case Done(ok, nowUs) => s.(worker := DoneStep(s.worker, ok, nowUs))
  }

  function Run(capacity: nat, actions: seq<Action>): System {
    if actions == [] then System(Worker(capacity, [], map[], None, []), [])
    else Next(Run(capacity, actions[..|actions| - 1]), actions[|actions| - 1])
  }

  // ----- the reference: what one message id may go through -----

  // Idle, or open with so many legs to end; a notice is due at no leg left, and says whether all
  // legs of this round ended in success. Anything out of turn is a violation.
  datatype Phase = Idle | Open(legs: int, failed: bool) | Violation

  function Follow(p: Phase, e: Event, id: nat): Phase {
    if e.id != id then p
    else
      match (p, e)
      case (Idle, Begun(_, legs)) => if legs > 0 then Open(legs, false) else Violation
      case (Open(legs, failed), LegEnded(_, success)) => if legs > 0 then Open(legs - 1, failed || !success) else Violation
      case (Open(legs, failed), Notified(_, success)) => if legs == 0 && success == !failed then Idle else Violation
      case _ => Violation
  }

  function PhaseOf(log: seq<Event>, id: nat): Phase {
    if log == [] then Idle else Follow(PhaseOf(log[..|log| - 1], id), log[|log| - 1], id)
  }

  lemma {:induction false} PhaseOne(log: seq<Event>, e: Event, id: nat)
    ensures PhaseOf(log + [e], id) == Follow(PhaseOf(log, id), e, id)
  {
    assert (log + [e])[..|log|] == log;
  }

  // ----- legs of a message -----

  function Queued(jobs: seq<Job>, id: nat): nat {
    if jobs == [] then 0 else Queued(jobs[1..], id) + if jobs[0].messageId == id then 1 else 0
  }

  function InFlight(w: Worker, id: nat): nat {
    if w.inFlight.Some? && w.inFlight.value.messageId == id then 1 else 0
  }

  function Undispatched(dispatchers: seq<Dispatcher>, id: nat): nat {
    if dispatchers == [] then 0
    else Undispatched(dispatchers[1..], id) + if dispatchers[0].id == id then |dispatchers[0].pending| else 0
  }

  function Legs(s: System, id: nat): nat {
    Queued(s.worker.jobs, id) + InFlight(s.worker, id) + Undispatched(s.dispatchers, id)
  }

  lemma {:induction false} QueuedOne(jobs: seq<Job>, job: Job, id: nat)
    ensures Queued(jobs + [job], id) == Queued(jobs, id) + if job.messageId == id then 1 else 0
  {
    if jobs == [] {
      assert [job][1..] == [] && [] + [job] == [job];
    } else {
      assert (jobs + [job])[1..] == jobs[1..] + [job];
      QueuedOne(jobs[1..], job, id);
    }
  }

  lemma {:induction false} QueuedWithout(jobs: seq<Job>, k: nat, id: nat)
    requires k < |jobs|
    ensures Queued(jobs, id) == Queued(Without(jobs, k), id) + if jobs[k].messageId == id then 1 else 0
  {
    if k == 0 {
      assert Without(jobs, 0) == jobs[1..];
    } else {
      QueuedWithout(jobs[1..], k - 1, id);
      assert Without(jobs, k)[1..] == Without(jobs[1..], k - 1);
    }
  }

  lemma {:induction false} UndispatchedOne(ds: seq<Dispatcher>, d: Dispatcher, id: nat)
    ensures Undispatched(ds + [d], id) == Undispatched(ds, id) + if d.id == id then |d.pending| else 0
  {
    if ds == [] {
      assert [d][1..] == [] && [] + [d] == [d];
    } else {
      assert (ds + [d])[1..] == ds[1..] + [d];
      UndispatchedOne(ds[1..], d, id);
    }
  }

  lemma {:induction false} UndispatchedUpdate(ds: seq<Dispatcher>, i: nat, d: Dispatcher, id: nat)
    requires i < |ds| && d.id == ds[i].id
    ensures Undispatched(ds[i := d], id) + (if d.id == id then |ds[i].pending| else 0) ==
            Undispatched(ds, id) + (if d.id == id then |d.pending| else 0)
  {
    if i == 0 {
      assert ds[0 := d][1..] == ds[1..];
    } else {
      UndispatchedUpdate(ds[1..], i - 1, d, id);
      assert ds[i := d][1..] == ds[1..][i - 1 := d];
    }
  }

  // ----- the invariant -----

  // What is known of one message id: its completion record says where the reference stands, and its
  // remaining count is the number of its legs that are queued, in flight or not yet dispatched.
  predicate IdOk(w: Worker, id: nat, legs: nat) {
    if id in w.completions then
      && w.completions[id].remaining == legs >= 1
      && PhaseOf(w.log, id) == Open(legs, w.completions[id].failed)
    else legs == 0 && PhaseOf(w.log, id) == Idle
  }

  ghost predicate Inv(s: System) {
    && 0 !in s.worker.completions
    && (forall id: nat :: id > 0 ==> IdOk(s.worker, id, Legs(s, id)))
    && (forall i :: 0 <= i < |s.worker.jobs| ==> s.worker.jobs[i].attempts < PUSH_RETRY_MAX)
    && (s.worker.inFlight.Some? ==> s.worker.inFlight.value.attempts < PUSH_RETRY_MAX)
  }

  // Ending a leg: one leg fewer, and the reference goes on by that leg and by the notice if due.
  lemma {:induction false} FinishOk(w: Worker, done: nat, success: bool, id: nat, legs: nat)
    requires id > 0 && 0 !in w.completions
    requires IdOk(w, id, legs) && (done == id ==> legs >= 1)
    ensures 0 !in FinishStep(w, done, success).completions
    ensures IdOk(FinishStep(w, done, success), id, if done == id then legs - 1 else legs)
    ensures FinishStep(w, done, success).jobs == w.jobs && FinishStep(w, done, success).inFlight == w.inFlight
  {
    hide PhaseOf;
    if done in w.completions && done > 0 {
      LogFinish(w.log, done, success, !(w.completions[done].failed || !success), id);
    }
  }

  lemma LogFinish(log: seq<Event>, done: nat, success: bool, notice: bool, id: nat)
    ensures PhaseOf(log + [LegEnded(done, success)], id) == Follow(PhaseOf(log, id), LegEnded(done, success), id)
    ensures PhaseOf(log + [LegEnded(done, success), Notified(done, notice)], id) ==
            Follow(Follow(PhaseOf(log, id), LegEnded(done, success), id), Notified(done, notice), id)
  {
    hide Follow;
    PhaseOne(log, LegEnded(done, success), id);
    PhaseOne(log + [LegEnded(done, success)], Notified(done, notice), id);
    assert log + [LegEnded(done, success), Notified(done, notice)] == log + [LegEnded(done, success)] + [Notified(done, notice)];
  }

  lemma {:induction false} BeginOk(w: Worker, begun: nat, targets: nat, id: nat, legs: nat)
    requires id > 0 && targets > 0 && IdOk(w, id, legs) && BeginStep(w, begun, targets).0
    ensures IdOk(BeginStep(w, begun, targets).1, id, if begun == id then legs + targets else legs)
  {
    PhaseOne(w.log, Begun(begun, targets), id);
  }

  lemma {:induction false} NextKeeps(s: System, action: Action)
    requires Inv(s)
    ensures Inv(Next(s, action))
  {
    var t := Next(s, action);
    forall id: nat | id > 0 ensures IdOk(t.worker, id, Legs(t, id)) {
      NextKeepsId(s, action, id);
    }
  }

  lemma {:induction false} NextKeepsId(s: System, action: Action, id: nat)
    requires Inv(s) && id > 0
    ensures var t := Next(s, action); IdOk(t.worker, id, Legs(t, id))
  {
    hide IdOk, Next, Legs;
    assert IdOk(s.worker, id, Legs(s, id));
    match action {
      case Begin(begun, event, targets) => BeginKeeps(s, begun, event, targets, id);
      case Dispatch(i, nowUs) => DispatchKeeps(s, i, nowUs, id);
      case Reject(i) => RejectKeeps(s, i, id);
      case Notify(target, event, nowUs) => NotifyKeeps(s, target, event, nowUs, id);
      case Take(nowUs) => TakeKeeps(s, nowUs, id);
      case Done(ok, nowUs) => DoneKeeps(s, ok, nowUs, id);
    }
  }

  lemma {:induction false} BeginKeeps(s: System, begun: nat, event: SmsEvent, targets: seq<int>, id: nat)
    requires id > 0 && IdOk(s.worker, id, Legs(s, id))
    ensures var t := Next(s, Begin(begun, event, targets)); IdOk(t.worker, id, Legs(t, id))
  {
    hide IdOk;
    if targets != [] && BeginStep(s.worker, begun, |targets|).0 {
      BeginOk(s.worker, begun, |targets|, id, Legs(s, id));
      UndispatchedOne(s.dispatchers, Dispatcher(begun, event, targets, false), id);
    }
  }

  lemma {:induction false} DispatchKeeps(s: System, i: nat, nowUs: int, id: nat)
    requires id > 0 && IdOk(s.worker, id, Legs(s, id))
    ensures var t := Next(s, Dispatch(i, nowUs)); IdOk(t.worker, id, Legs(t, id))
  {
    hide PhaseOf, Queued, Undispatched;
    if i < |s.dispatchers| && s.dispatchers[i].pending != [] && !s.dispatchers[i].refused {
      var d := s.dispatchers[i];
      QueuedOne(s.worker.jobs, NewJob(d.pending[0], d.event, nowUs, d.id, false), id);
      UndispatchedUpdate(s.dispatchers, i, d.(pending := d.pending[1..]), id);
      UndispatchedUpdate(s.dispatchers, i, d.(refused := true), id);
    }
  }

  lemma {:induction false} NotifyKeeps(s: System, target: int, event: SmsEvent, nowUs: int, id: nat)
    requires id > 0 && IdOk(s.worker, id, Legs(s, id))
    ensures var t := Next(s, Notify(target, event, nowUs)); IdOk(t.worker, id, Legs(t, id))
  {
    QueuedOne(s.worker.jobs, NewJob(target, event, nowUs, 0, true), id);
  }

  lemma {:induction false} TakeKeeps(s: System, nowUs: int, id: nat)
    requires id > 0 && IdOk(s.worker, id, Legs(s, id))
    ensures var t := Next(s, Take(nowUs)); IdOk(t.worker, id, Legs(t, id))
  {
    if CanTake(s.worker, nowUs) { QueuedWithout(s.worker.jobs, Earliest(s.worker.jobs), id); }
  }

  lemma {:induction false} RejectKeeps(s: System, i: nat, id: nat)
    requires id > 0 && IdOk(s.worker, id, Legs(s, id)) && 0 !in s.worker.completions
    ensures var t := Next(s, Reject(i)); IdOk(t.worker, id, Legs(t, id))
  {
    hide IdOk;
    if i < |s.dispatchers| && s.dispatchers[i].pending != [] && s.dispatchers[i].refused {
      var d := s.dispatchers[i];
      UndispatchedUpdate(s.dispatchers, i, d.(pending := d.pending[1..], refused := false), id);
      FinishOk(s.worker, d.id, false, id, Legs(s, id));
    }
  }

  lemma {:induction false} DoneKeeps(s: System, ok: bool, nowUs: int, id: nat)
    requires id > 0 && IdOk(s.worker, id, Legs(s, id)) && 0 !in s.worker.completions
    ensures var t := Next(s, Done(ok, nowUs)); IdOk(t.worker, id, Legs(t, id))
  {
    if s.worker.inFlight.Some? {
      var job := s.worker.inFlight.value;
      QueuedOne(s.worker.jobs, Again(job, nowUs), id);
      FinishOk(s.worker.(inFlight := None), job.messageId, ok, id, Legs(s, id));
    }
  }

  lemma {:induction false} RunKeepsInvariant(capacity: nat, actions: seq<Action>)
    ensures Inv(Run(capacity, actions))
  {
    if actions != [] {
      RunKeepsInvariant(capacity, actions[..|actions| - 1]);
      NextKeeps(Run(capacity, actions[..|actions| - 1]), actions[|actions| - 1]);
    }
  }

  // ----- what the reference means -----

  function Begins(log: seq<Event>, id: nat): nat {
    if log == [] then 0 else Begins(log[..|log| - 1], id) + if log[|log| - 1].Begun? && log[|log| - 1].id == id then 1 else 0
  }

  function Notices(log: seq<Event>, id: nat): nat {
    if log == [] then 0 else Notices(log[..|log| - 1], id) + if log[|log| - 1].Notified? && log[|log| - 1].id == id then 1 else 0
  }

  // The legs announced in the current round of a message, and how those that ended so far ended.
  function Announced(log: seq<Event>, id: nat): int {
    if log == [] then 0
    else
      var e := log[|log| - 1];
      if e.Begun? && e.id == id then e.legs else Announced(log[..|log| - 1], id)
  }

  function Ended(log: seq<Event>, id: nat): seq<bool> {
    if log == [] then []
    else
      var e := log[|log| - 1];
      if e.id != id then Ended(log[..|log| - 1], id)
      else match e
        case Begun(_, _) => []
        case LegEnded(_, success) => Ended(log[..|log| - 1], id) + [success]
        case Notified(_, _) => Ended(log[..|log| - 1], id)
  }

  lemma {:induction false} PhaseMeans(log: seq<Event>, id: nat)
    requires !PhaseOf(log, id).Violation?
    ensures var p := PhaseOf(log, id);
            && Begins(log, id) == Notices(log, id) + (if p.Open? then 1 else 0)
            && (p.Open? ==> |Ended(log, id)| + p.legs == Announced(log, id) && p.legs >= 0
                            && (p.failed <==> false in Ended(log, id)))
  {
    if log != [] {
      var n := |log| - 1;
      PhaseMeans(log[..n], id);
    }
  }

  // Every notice in the log of a run comes when all announced legs of its round have ended, and says
  // success exactly when each of them did.
  lemma {:induction false} NoticeTellsTheTruth(capacity: nat, actions: seq<Action>, i: nat)
    requires i < |Run(capacity, actions).worker.log| && Run(capacity, actions).worker.log[i].Notified?
    ensures var log := Run(capacity, actions).worker.log;
            var id := log[i].id;
            && |Ended(log[..i], id)| == Announced(log[..i], id) > 0
            && (log[i].success <==> false !in Ended(log[..i], id))
  {
    var log := Run(capacity, actions).worker.log;
    var id := log[i].id;
    RunKeepsInvariant(capacity, actions);
    LoggedIds(capacity, actions);
    assert IdOk(Run(capacity, actions).worker, id, Legs(Run(capacity, actions), id));
    NoViolationBefore(log, id, i + 1);
    assert log[..i + 1][..i] == log[..i];
    PhaseMeans(log[..i], id);
    AnnouncedPositive(log[..i], id);
  }

  lemma {:induction false} NoViolationBefore(log: seq<Event>, id: nat, n: nat)
    requires n <= |log| && !PhaseOf(log, id).Violation?
    ensures !PhaseOf(log[..n], id).Violation?
  {
    if n < |log| {
      NoViolationBefore(log[..|log| - 1], id, n);
      assert log[..|log| - 1][..n] == log[..n];
    } else {
      assert log[..n] == log;
    }
  }

  lemma {:induction false} AnnouncedPositive(log: seq<Event>, id: nat)
    requires PhaseOf(log, id).Open?
    ensures Announced(log, id) > 0
  {
    var n := |log| - 1;
    if !(log[n].Begun? && log[n].id == id) { AnnouncedPositive(log[..n], id); }
  }

  // Message id 0 marks jobs that belong to no message; it never enters the log.
  lemma {:induction false} LoggedIds(capacity: nat, actions: seq<Action>)
    ensures forall e :: e in Run(capacity, actions).worker.log ==> e.id > 0
  {
    if actions != [] {
      LoggedIds(capacity, actions[..|actions| - 1]);
      LogsIds(Run(capacity, actions[..|actions| - 1]), actions[|actions| - 1]);
    }
  }

  lemma {:induction false} LogsIds(s: System, action: Action)
    requires forall e :: e in s.worker.log ==> e.id > 0
    ensures forall e :: e in Next(s, action).worker.log ==> e.id > 0
  {
  }

  // Over every run: each accepted message is notified at most once; exactly once when none of its
  // legs is queued, in flight or undispatched, and not before.
  lemma {:induction false} NotifiedOnce(capacity: nat, actions: seq<Action>, id: nat)
    requires id > 0
    ensures var s := Run(capacity, actions);
            && Notices(s.worker.log, id) <= Begins(s.worker.log, id) <= Notices(s.worker.log, id) + 1
            && (Notices(s.worker.log, id) == Begins(s.worker.log, id) <==> Legs(s, id) == 0)
            && (id in s.worker.completions <==> Legs(s, id) > 0)
            && (id in s.worker.completions ==> s.worker.completions[id].remaining == Legs(s, id))
  {
    hide Run, Legs, Next, PhaseOf, Notices, Begins, Ended, Announced;
    var s := Run(capacity, actions);
    RunKeepsInvariant(capacity, actions);
    assert IdOk(s.worker, id, Legs(s, id));
    PhaseMeans(s.worker.log, id);
  }

  // When nothing is left to do, every accepted message has had its notice and no record is left.
  lemma {:induction false} Quiescent(capacity: nat, actions: seq<Action>)
    requires var s := Run(capacity, actions);
             s.worker.jobs == [] && s.worker.inFlight.None?
             && forall i :: 0 <= i < |s.dispatchers| ==> s.dispatchers[i].pending == []
    ensures var w := Run(capacity, actions).worker;
            w.completions == map[] && forall id: nat :: id > 0 ==> Notices(w.log, id) == Begins(w.log, id)
  {
    hide Run, Inv, Legs, Notices, Begins, IdOk;
    var s := Run(capacity, actions);
    forall id: nat | id > 0
      ensures id !in s.worker.completions && Notices(s.worker.log, id) == Begins(s.worker.log, id)
    {
      NoLegs(s, id);
      NotifiedOnce(capacity, actions, id);
    }
    NoZero(capacity, actions);
  }

  lemma {:induction false} NoZero(capacity: nat, actions: seq<Action>)
    ensures 0 !in Run(capacity, actions).worker.completions
  {
    hide Run, IdOk;
    RunKeepsInvariant(capacity, actions);
  }

  lemma {:induction false} NoLegs(s: System, id: nat)
    requires s.worker.jobs == [] && s.worker.inFlight.None?
    requires forall i :: 0 <= i < |s.dispatchers| ==> s.dispatchers[i].pending == []
    ensures Legs(s, id) == 0
  {
    NonePending(s.dispatchers, id);
  }

  lemma {:induction false} NonePending(ds: seq<Dispatcher>, id: nat)
    requires forall i :: 0 <= i < |ds| ==> ds[i].pending == []
    ensures Undispatched(ds, id) == 0
  {
    if ds != [] { NonePending(ds[1..], id); }
  }

  // ----- a measure: the protocol cannot go on for ever -----

  // A leg not yet dispatched is worth 14; in the queue two per attempt left; in flight one less.
  function JobWorth(job: Job): int {
    2 * (PUSH_RETRY_MAX - job.attempts)
  }

  function JobsWorth(jobs: seq<Job>): int {
    if jobs == [] then 0 else JobsWorth(jobs[1..]) + JobWorth(jobs[0])
  }

  function PendingWorth(ds: seq<Dispatcher>): int {
    if ds == [] then 0
    else PendingWorth(ds[1..]) + 14 * |ds[0].pending| - if ds[0].refused && ds[0].pending != [] then 1 else 0
  }

  function Worth(s: System): int {
    JobsWorth(s.worker.jobs) + PendingWorth(s.dispatchers) +
    if s.worker.inFlight.Some? then JobWorth(s.worker.inFlight.value) - 1 else 0
  }

  lemma {:induction false} JobsWorthOne(jobs: seq<Job>, job: Job)
    ensures JobsWorth(jobs + [job]) == JobsWorth(jobs) + JobWorth(job)
  {
    if jobs == [] {
      assert [job][1..] == [] && [] + [job] == [job];
    } else {
      assert (jobs + [job])[1..] == jobs[1..] + [job];
      JobsWorthOne(jobs[1..], job);
    }
  }

  lemma {:induction false} JobsWorthWithout(jobs: seq<Job>, k: nat)
    requires k < |jobs|
    ensures JobsWorth(jobs) == JobsWorth(Without(jobs, k)) + JobWorth(jobs[k])
  {
    if k == 0 {
      assert Without(jobs, 0) == jobs[1..];
    } else {
      JobsWorthWithout(jobs[1..], k - 1);
      assert Without(jobs, k)[1..] == Without(jobs[1..], k - 1);
    }
  }

  lemma {:induction false} PendingWorthUpdate(ds: seq<Dispatcher>, i: nat, d: Dispatcher)
    requires i < |ds|
    ensures PendingWorth(ds[i := d]) - PendingWorth([d]) == PendingWorth(ds) - PendingWorth([ds[i]])
  {
    assert [d][1..] == [] && [ds[i]][1..] == [];
    if i == 0 {
      assert ds[0 := d][1..] == ds[1..];
    } else {
      PendingWorthUpdate(ds[1..], i - 1, d);
      assert ds[i := d][1..] == ds[1..][i - 1 := d];
    }
  }

  lemma {:induction false} JobsWorthPositive(jobs: seq<Job>)
    requires forall i :: 0 <= i < |jobs| ==> jobs[i].attempts < PUSH_RETRY_MAX
    ensures JobsWorth(jobs) >= 2 * |jobs|
  {
    if jobs != [] { JobsWorthPositive(jobs[1..]); }
  }

  lemma {:induction false} PendingWorthPositive(ds: seq<Dispatcher>)
    ensures PendingWorth(ds) >= 0
  {
    if ds != [] { PendingWorthPositive(ds[1..]); }
  }

  // Any step that changes the state, other than accepting new work, uses up some worth; so from any
  // reachable state at most Worth(s) such steps follow.
  lemma {:induction false} StepUsesWorth(s: System, action: Action)
    requires Inv(s) && !action.Begin? && !action.Notify? && Next(s, action) != s
    ensures 0 <= Worth(Next(s, action)) < Worth(s)
  {
    var t := Next(s, action);
    NextKeeps(s, action);
    JobsWorthPositive(t.worker.jobs);
    PendingWorthPositive(t.dispatchers);
    match action {
      case Dispatch(i, nowUs) => DispatchUsesWorth(s, i, nowUs);
      case Reject(i) => RejectUsesWorth(s, i);
      case Take(nowUs) => JobsWorthWithout(s.worker.jobs, Earliest(s.worker.jobs));
      case Done(ok, nowUs) => DoneUsesWorth(s, ok, nowUs);
      case _ =>
    }
  }

  lemma {:induction false} DispatchUsesWorth(s: System, i: nat, nowUs: int)
    requires Next(s, Dispatch(i, nowUs)) != s
    ensures Worth(Next(s, Dispatch(i, nowUs))) < Worth(s)
  {
    var d := s.dispatchers[i];
    JobsWorthOne(s.worker.jobs, NewJob(d.pending[0], d.event, nowUs, d.id, false));
    PendingWorthUpdate(s.dispatchers, i, d.(pending := d.pending[1..]));
    PendingWorthUpdate(s.dispatchers, i, d.(refused := true));
    assert [d][1..] == [];
  }

  lemma {:induction false} FinishKeepsJobs(w: Worker, id: nat, success: bool)
    ensures FinishStep(w, id, success).jobs == w.jobs && FinishStep(w, id, success).inFlight == w.inFlight
    ensures FinishStep(w, id, success).capacity == w.capacity
  {
  }

  lemma {:induction false} RejectUsesWorth(s: System, i: nat)
    requires Next(s, Reject(i)) != s
    ensures Worth(Next(s, Reject(i))) < Worth(s)
  {
    var d := s.dispatchers[i];
    FinishKeepsJobs(s.worker, d.id, false);
    PendingWorthUpdate(s.dispatchers, i, d.(pending := d.pending[1..], refused := false));
    assert [d][1..] == [];
  }

  lemma {:induction false} DoneUsesWorth(s: System, ok: bool, nowUs: int)
    requires Inv(s) && Next(s, Done(ok, nowUs)) != s
    ensures Worth(Next(s, Done(ok, nowUs))) < Worth(s)
  {
    var job := s.worker.inFlight.value;
    JobsWorthOne(s.worker.jobs, Again(job, nowUs));
    FinishKeepsJobs(s.worker.(inFlight := None), job.messageId, ok);
  }

  function From(s: System, actions: seq<Action>): System
    decreases |actions|
  {
    if actions == [] then s else From(Next(s, actions[0]), actions[1..])
  }

  // How many of the actions change the state.
  function Effective(s: System, actions: seq<Action>): nat
    decreases |actions|
  {
    if actions == [] then 0
    else Effective(Next(s, actions[0]), actions[1..]) + if Next(s, actions[0]) != s then 1 else 0
  }

  // With no new work, only so many steps can still change anything, whatever the schedule.
  lemma {:induction false} Terminates(s: System, actions: seq<Action>)
    requires Inv(s) && forall i :: 0 <= i < |actions| ==> !actions[i].Begin? && !actions[i].Notify?
    ensures Effective(s, actions) <= Worth(s) - Worth(From(s, actions))
    ensures Inv(From(s, actions)) && Worth(From(s, actions)) >= 0
    decreases |actions|
  {
    if actions == [] {
      JobsWorthPositive(s.worker.jobs);
      PendingWorthPositive(s.dispatchers);
    } else {
      NextKeeps(s, actions[0]);
      Terminates(Next(s, actions[0]), actions[1..]);
      if Next(s, actions[0]) != s { StepUsesWorth(s, actions[0]); }
    }
  }
}
