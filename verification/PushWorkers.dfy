// The class PushWorker and forward_event of ports/linux/src/main.cpp. Each method body below is one
// critical section of the source, proved equal to the step of the same name in Delivery.dfy; the
// local variable `job` of the worker loop becomes the field inFlight while the lock is released.
module PushWorkers {
  import opened Text
  import opened Queue
  import opened Delivery

  class PushWorker {
    const queue: ForwardRetryQueue
    var completions: map<nat, Completion>
    var busy: bool
    var inFlight: Option<Job>
    ghost var log: seq<Event>

    // The messages that mark_message reported as done without a leg.
    ghost var marked: seq<nat>

    ghost predicate Valid()
      reads this
    {
      busy == inFlight.Some?
    }

    ghost function State(): Worker
      reads this, queue
    {
      Worker(queue.capacity, queue.jobs, completions, inFlight, log)
    }

    constructor ()
      ensures Valid() && fresh(queue) && State() == Worker(64, [], map[], None, []) && marked == []
    {
      queue := new ForwardRetryQueue(64);
      completions := map[];
      busy := false;
      inFlight := None;
      log, marked := [], [];
    }

    method BeginMessage(messageId: nat, targets: int) returns (ok: bool)
      requires Valid()
      modifies this
      ensures Valid() && (ok, State()) == BeginStep(old(State()), messageId, targets) && marked == old(marked)
    {
      if messageId == 0 { return true; }
      if targets <= 0 { return false; }
      if messageId in completions { return false; }
      completions := completions[messageId := Completion(targets, false)];
      log := log + [Begun(messageId, targets)];
      return true;
    }

    method Enqueue(channel: int, event: SmsEvent, nowUs: int, messageId: nat, notify: bool) returns (accepted: bool)
      requires Valid()
      modifies queue
      ensures Valid() && (accepted, State()) == EnqueueStep(old(State()), NewJob(channel, event, nowUs, messageId, notify))
    {
      accepted := queue.Enqueue(channel, event, nowUs, ((channel + 1) * 7) % UINT32, messageId, notify);
    }

    // finish_leg_locked: the notice to hand to the completion callback, if one is due.
    method FinishLeg(messageId: nat, success: bool) returns (notice: Option<bool>)
      requires Valid()
      modifies this
      ensures Valid() && State() == FinishStep(old(State()), messageId, success) && marked == old(marked)
      ensures notice.Some? <==> log != [] && log != old(log) && log[|log| - 1].Notified?
      ensures notice.Some? ==> log[|log| - 1] == Notified(messageId, notice.value)
    {
      if messageId == 0 || messageId !in completions { return None; }
      var c := completions[messageId];
      if !success { c := c.(failed := true); }
      c := c.(remaining := c.remaining - 1);
      if c.remaining > 0 {
        completions := completions[messageId := c];
        log := log + [LegEnded(messageId, success)];
        return None;
      }
      completions := completions - {messageId};
      log := log + [LegEnded(messageId, success), Notified(messageId, !c.failed)];
      return Some(!c.failed);
    }

    // mark_message, for a message that a rule drops.
    method MarkMessage(messageId: nat)
      modifies this`marked
      ensures marked == old(marked) + if messageId != 0 then [messageId] else []
    {
      if messageId != 0 { marked := marked + [messageId]; }
    }

    // The first half of the worker's turn: take a job that is due.
    method TakeJob(nowUs: int)
      requires Valid() && !busy
      modifies this, queue
      ensures Valid() && State() == TakeStep(old(State()), nowUs) && marked == old(marked)
    {
      var job := queue.TakeReady(nowUs);
      if job.Some? {
        inFlight := job;
        busy := true;
      }
    }

    // The second half: what happens to the job that was processed.
    method JobDone(ok: bool, nowUs: int) returns (notice: Option<bool>)
      requires Valid() && busy
      modifies this, queue
      ensures Valid() && State() == DoneStep(old(State()), ok, nowUs) && marked == old(marked)
      ensures notice.Some? ==> log != [] && log[|log| - 1] == Notified(old(inFlight.value.messageId), notice.value)
    {
      var job := inFlight.value;
      inFlight := None;
      busy := false;
      var legFinished, legSuccess := ok, ok;
      if !ok {
        var again, after := queue.Retry(job, nowUs);
        if !again { legFinished, legSuccess := true, false; }
      }
      notice := None;
      if legFinished { notice := FinishLeg(job.messageId, legSuccess); }
    }
  }

  // ----- forward_event -----

  const MAX_PUSH_CHANNELS := 5

  // What the blacklist, the forwarding rules and the configuration say about one message. The rules
  // are not part of this model; `selected` holds, per channel, whether the mask and the channel's own
  // validity let it through.
  datatype Routing = Routing(blacklisted: bool, drop: bool, pushEnabled: bool, selected: seq<bool>, email: bool)

  function Channels(routing: Routing, i: nat): seq<int>
    requires |routing.selected| == MAX_PUSH_CHANNELS && i <= MAX_PUSH_CHANNELS
    decreases MAX_PUSH_CHANNELS - i
  {
    if i == MAX_PUSH_CHANNELS || !routing.pushEnabled then []
    else (if routing.selected[i] then [i] else []) + Channels(routing, i + 1)
  }

  function Targets(routing: Routing): seq<int>
    requires |routing.selected| == MAX_PUSH_CHANNELS
  {
    Channels(routing, 0) + if routing.email then [-1] else []
  }

  // A channel that is selected while pushing is on, or the e-mail account, which has the number -1.
  predicate IsTarget(routing: Routing, c: int)
    requires |routing.selected| == 5
  {
    (0 <= c < 5 && routing.pushEnabled && routing.selected[c]) || (c == -1 && routing.email)
  }

  // All of them, each once: the channels by rising number, the e-mail account last.
  ghost predicate AreTargets(routing: Routing, targets: seq<int>)
    requires |routing.selected| == 5
  {
    && (forall c :: c in targets <==> IsTarget(routing, c))
    && forall i, j :: 0 <= i < j < |targets| ==> 0 <= targets[i] && (targets[j] == -1 || targets[i] < targets[j])
  }

  lemma {:induction false} ChannelsAre(routing: Routing, i: nat)
    requires |routing.selected| == MAX_PUSH_CHANNELS && i <= MAX_PUSH_CHANNELS
    ensures forall c :: c in Channels(routing, i) <==> i <= c < 5 && routing.pushEnabled && routing.selected[c]
    ensures forall j, k :: 0 <= j < k < |Channels(routing, i)| ==> Channels(routing, i)[j] < Channels(routing, i)[k]
    decreases MAX_PUSH_CHANNELS - i
  {
    if i < MAX_PUSH_CHANNELS && routing.pushEnabled {
      ChannelsAre(routing, i + 1);
      PutInFront(i, Channels(routing, i + 1));
    }
  }

  lemma {:induction false} PutInFront(i: int, rest: seq<int>)
    requires forall c :: c in rest ==> i < c
    requires forall j, k :: 0 <= j < k < |rest| ==> rest[j] < rest[k]
    ensures forall j, k :: 0 <= j < k < |[i] + rest| ==> ([i] + rest)[j] < ([i] + rest)[k]
    ensures forall c :: c in [i] + rest <==> c == i || c in rest
    ensures [] + rest == rest
  {
    assert forall k :: 0 <= k < |rest| ==> rest[k] in rest;
  }

  // Whom forward_event sends to.
  lemma {:induction false} TargetsAre(routing: Routing)
    requires |routing.selected| == MAX_PUSH_CHANNELS
    ensures AreTargets(routing, Targets(routing))
  {
    ChannelsAre(routing, 0);
    var channels := Channels(routing, 0);
    assert forall k :: 0 <= k < |channels| ==> channels[k] in channels;
  }

  // Dispatching targets one after the other, with no other step in between.
  function DispatchAll(w: Worker, targets: seq<int>, event: SmsEvent, nowUs: int, id: nat): Worker
    decreases |targets|
  {
    if targets == [] then w
    else
      var (accepted, queued) := EnqueueStep(w, NewJob(targets[0], event, nowUs, id, false));
      DispatchAll(if accepted then queued else FinishStep(queued, id, false), targets[1..], event, nowUs, id)
  }

  // How many of the targets find room in the queue.
  function Dispatched(w: Worker, targets: seq<int>): nat {
    var room := if w.capacity > |w.jobs| then w.capacity - |w.jobs| else 0;
    if |targets| <= room then |targets| else room
  }

  lemma {:induction false} DispatchAllAppends(w: Worker, a: seq<int>, b: seq<int>, event: SmsEvent, nowUs: int, id: nat)
    ensures DispatchAll(w, a + b, event, nowUs, id) == DispatchAll(DispatchAll(w, a, event, nowUs, id), b, event, nowUs, id)
    decreases |a|
  {
    if a == [] {
      assert a + b == b;
    } else {
      assert (a + b)[1..] == a[1..] + b;
      var (accepted, queued) := EnqueueStep(w, NewJob(a[0], event, nowUs, id, false));
      DispatchAllAppends(if accepted then queued else FinishStep(queued, id, false), a[1..], b, event, nowUs, id);
    }
  }

  // What forward_event returns, and the state it leaves when nothing comes in between.
  function Forward(w: Worker, routing: Routing, event: SmsEvent, nowUs: int, id: nat): (bool, Worker)
    requires |routing.selected| == MAX_PUSH_CHANNELS
  {
    if routing.blacklisted then (false, w)
    else if routing.drop then (true, w)
    else
      var targets := Targets(routing);
      if targets == [] then (false, w)
      else
        var (accepted, begun) := BeginStep(w, id, |targets|);
        if !accepted then (false, w)
        else (Dispatched(begun, targets) > 0, DispatchAll(begun, targets, event, nowUs, id))
  }

  // A job for each of these targets, in this order, not yet tried and due at once.
  predicate AreJobs(jobs: seq<Job>, targets: seq<int>, event: SmsEvent, nowUs: int, id: nat) {
    && |jobs| == |targets|
    && forall i :: 0 <= i < |jobs| && -1 <= targets[i] < 5 ==>
         jobs[i] == Job(targets[i], event, 0, nowUs, (targets[i] + 1) * 7, id, false)
  }

  // So many refused legs in the log.
  predicate AreRefusals(events: seq<Event>, id: nat, n: int) {
    |events| == n && forall i :: 0 <= i < |events| ==> events[i] == LegEnded(id, false)
  }

  // What one forward_event does when nothing comes in between: the first `sent` targets get a job,
  // the others are refused for want of room.
  ghost predicate IsForwarded(w: Worker, routing: Routing, event: SmsEvent, nowUs: int, id: nat,
                              targets: seq<int>, forwarded: bool, after: Worker)
    requires |routing.selected| == 5
  {
    var begins := !routing.blacklisted && !routing.drop && targets != [] && (id == 0 || id !in w.completions);
    var room := if w.capacity > |w.jobs| then w.capacity - |w.jobs| else 0;
    var sent := if |targets| <= room then |targets| else room;
    && AreTargets(routing, targets)
    && if begins
       then && forwarded == (sent > 0)
            && |after.jobs| == |w.jobs| + sent && after.jobs[..|w.jobs|] == w.jobs
            && AreJobs(after.jobs[|w.jobs|..], targets[..sent], event, nowUs, id)
            && after.capacity == w.capacity && after.inFlight == w.inFlight
            && IsAnnounced(w, id, |targets|, sent, after)
       else forwarded == (routing.drop && !routing.blacklisted) && after == w
  }

  // The completion record that is left, and what the log gained. Without room for any leg the failure
  // is reported at once.
  ghost predicate IsAnnounced(w: Worker, id: nat, legs: nat, sent: nat, after: Worker) {
    if id == 0 then after.completions == w.completions && after.log == w.log
    else
      && after.completions == (if sent > 0 then w.completions[id := Completion(sent, sent < legs)] else w.completions)
      && (exists refusals :: AreRefusals(refusals, id, legs - sent)
           && after.log == w.log + [Begun(id, legs)] + refusals + if sent > 0 then [] else [Notified(id, false)])
  }

  // The targets without room are refused one by one.
  lemma {:induction false} DispatchedJobs(w: Worker, targets: seq<int>, event: SmsEvent, nowUs: int, id: nat)
    ensures var after, sent := DispatchAll(w, targets, event, nowUs, id), Dispatched(w, targets);
            && |after.jobs| == |w.jobs| + sent && after.jobs[..|w.jobs|] == w.jobs
            && AreJobs(after.jobs[|w.jobs|..], targets[..sent], event, nowUs, id)
            && after.capacity == w.capacity && after.inFlight == w.inFlight
    decreases |targets|
  {
    hide AreJobs, NewJob, FinishStep;
    if targets == [] {
      NoJobs(w, targets, event, nowUs, id);
    } else {
      var job := NewJob(targets[0], event, nowUs, id, false);
      var (accepted, queued) := EnqueueStep(w, job);
      var next := if accepted then queued else FinishStep(queued, id, false);
      FinishKeepsJobs(queued, id, false);
      DispatchedJobs(next, targets[1..], event, nowUs, id);
      var after := DispatchAll(next, targets[1..], event, nowUs, id);
      if accepted {
        SplitJobs(w.jobs, job, after.jobs);
        assert targets[..Dispatched(w, targets)][1..] == targets[1..][..Dispatched(next, targets[1..])];
        OneMoreJob(after.jobs[|queued.jobs|..], targets[..Dispatched(w, targets)], event, nowUs, id);
      } else {
        NoJobs(w, targets, event, nowUs, id);
        NoJobs(w, targets[1..], event, nowUs, id);
      }
    }
  }

  lemma {:induction false} NoJobs(w: Worker, targets: seq<int>, event: SmsEvent, nowUs: int, id: nat)
    ensures w.jobs[..|w.jobs|] == w.jobs && w.jobs[|w.jobs|..] == [] && targets[..0] == []
    ensures AreJobs([], [], event, nowUs, id)
  {
  }

  lemma {:induction false} SplitJobs(jobs: seq<Job>, job: Job, after: seq<Job>)
    requires |after| > |jobs| && after[..|jobs| + 1] == jobs + [job]
    ensures after[..|jobs|] == jobs && after[|jobs|..] == [job] + after[|jobs| + 1..]
  {
    assert after[..|jobs| + 1][..|jobs|] == after[..|jobs|];
    assert after[..|jobs| + 1][|jobs|] == after[|jobs|];
  }

  lemma {:induction false} OneMoreJob(jobs: seq<Job>, targets: seq<int>, event: SmsEvent, nowUs: int, id: nat)
    requires targets != [] && AreJobs(jobs, targets[1..], event, nowUs, id)
    ensures AreJobs([NewJob(targets[0], event, nowUs, id, false)] + jobs, targets, event, nowUs, id)
  {
  }

  // Refusing some of the legs that a record waits for.
  predicate IsRefused(w: Worker, id: nat, refused: int, refusals: seq<Event>, after: Worker)
    requires id in w.completions
  {
    var c := w.completions[id];
    && AreRefusals(refusals, id, refused)
    && after.completions == (if refused == 0 then w.completions
                             else if refused < c.remaining then w.completions[id := Completion(c.remaining - refused, true)]
                             else w.completions - {id})
    && after.log == w.log + refusals + if refused > 0 && refused == c.remaining then [Notified(id, false)] else []
  }

  lemma {:induction false} DispatchedLog(w: Worker, targets: seq<int>, event: SmsEvent, nowUs: int, id: nat) returns (refusals: seq<Event>)
    requires id != 0 && id in w.completions && w.completions[id].remaining >= |targets|
    ensures IsRefused(w, id, |targets| - Dispatched(w, targets), refusals, DispatchAll(w, targets, event, nowUs, id))
    decreases |targets|
  {
    hide IsRefused, NewJob;
    refusals := [];
    if targets == [] {
      NoneRefused(w, w, id);
    } else {
      var (accepted, queued) := EnqueueStep(w, NewJob(targets[0], event, nowUs, id, false));
      var next := FinishStep(queued, id, false);
      if accepted {
        refusals := DispatchedLog(queued, targets[1..], event, nowUs, id);
        SameRefused(w, queued, id, |targets| - Dispatched(w, targets), refusals, DispatchAll(w, targets, event, nowUs, id));
      } else if w.completions[id].remaining > 1 {
        FinishKeepsJobs(w, id, false);
        refusals := DispatchedLog(next, targets[1..], event, nowUs, id);
        MoreRefused(w, id, |targets| - 1, refusals, DispatchAll(next, targets[1..], event, nowUs, id));
        refusals := [LegEnded(id, false)] + refusals;
      } else {
        LastRefused(w, id);
        refusals := [LegEnded(id, false)];
      }
    }
  }

  lemma {:induction false} NoneRefused(w: Worker, after: Worker, id: nat)
    requires id in w.completions && after.completions == w.completions && after.log == w.log
    ensures IsRefused(w, id, 0, [], after)
  {
  }

  lemma {:induction false} SameRefused(w: Worker, v: Worker, id: nat, refused: int, refusals: seq<Event>, after: Worker)
    requires id in v.completions && v.completions == w.completions && v.log == w.log
    requires IsRefused(v, id, refused, refusals, after)
    ensures IsRefused(w, id, refused, refusals, after)
  {
  }

  lemma {:induction false} MoreRefused(w: Worker, id: nat, refused: nat, refusals: seq<Event>, after: Worker)
    requires id != 0 && id in w.completions && 1 < w.completions[id].remaining && refused < w.completions[id].remaining
    requires IsRefused(FinishStep(w, id, false), id, refused, refusals, after)
    ensures IsRefused(w, id, refused + 1, [LegEnded(id, false)] + refusals, after)
  {
    assert w.log + [LegEnded(id, false)] + refusals == w.log + ([LegEnded(id, false)] + refusals);
    var c := w.completions[id];
    assert w.completions[id := Completion(c.remaining - 1, true)] - {id} == w.completions - {id};
  }

  lemma {:induction false} LastRefused(w: Worker, id: nat)
    requires id != 0 && id in w.completions && w.completions[id].remaining == 1
    ensures IsRefused(w, id, 1, [LegEnded(id, false)], FinishStep(w, id, false))
  {
    assert w.log + [LegEnded(id, false), Notified(id, false)] == w.log + [LegEnded(id, false)] + [Notified(id, false)];
  }

  lemma {:induction false} ForwardIs(w: Worker, routing: Routing, event: SmsEvent, nowUs: int, id: nat)
    requires |routing.selected| == MAX_PUSH_CHANNELS
    ensures var (forwarded, after) := Forward(w, routing, event, nowUs, id);
            IsForwarded(w, routing, event, nowUs, id, Targets(routing), forwarded, after)
  {
    hide Targets, AreTargets, AreJobs;
    TargetsAre(routing);
    var targets := Targets(routing);
    var (accepted, begun) := BeginStep(w, id, |targets|);
    if targets != [] && accepted {
      DispatchedJobs(begun, targets, event, nowUs, id);
      AnnouncedIs(w, targets, event, nowUs, id);
    }
  }

  lemma {:induction false} AnnouncedIs(w: Worker, targets: seq<int>, event: SmsEvent, nowUs: int, id: nat)
    requires targets != [] && (id == 0 || id !in w.completions)
    ensures var begun := BeginStep(w, id, |targets|).1;
            IsAnnounced(w, id, |targets|, Dispatched(begun, targets), DispatchAll(begun, targets, event, nowUs, id))
  {
    var begun := BeginStep(w, id, |targets|).1;
    if id == 0 {
      NobodyWaits(w, targets, event, nowUs);
    } else {
      var refusals := DispatchedLog(begun, targets, event, nowUs, id);
      assert begun.completions - {id} == w.completions;
    }
  }

  lemma {:induction false} NobodyWaits(w: Worker, targets: seq<int>, event: SmsEvent, nowUs: int)
    ensures var after := DispatchAll(w, targets, event, nowUs, 0); after.completions == w.completions && after.log == w.log
    decreases |targets|
  {
    if targets != [] {
      var (accepted, queued) := EnqueueStep(w, NewJob(targets[0], event, nowUs, 0, false));
      NobodyWaits(if accepted then queued else FinishStep(queued, 0, false), targets[1..], event, nowUs);
    }
  }

  method DispatchOne(worker: PushWorker, target: int, event: SmsEvent, nowUs: int, messageId: nat) returns (accepted: bool)
    requires worker.Valid()
    modifies worker, worker.queue
    ensures worker.Valid() && accepted == (old(|worker.queue.jobs|) < worker.queue.capacity)
    ensures worker.State() == DispatchAll(old(worker.State()), [target], event, nowUs, messageId)
    ensures worker.marked == old(worker.marked)
    ensures |worker.queue.jobs| == old(|worker.queue.jobs|) + if accepted then 1 else 0
  {
    accepted := worker.Enqueue(target, event, nowUs, messageId, false);
    if !accepted {
      var notice := worker.FinishLeg(messageId, false);   // reject_leg
    }
    assert [target][1..] == [];
  }

  lemma {:induction false} DispatchedCount(w: Worker, targets: seq<int>, event: SmsEvent, nowUs: int, id: nat)
    ensures |DispatchAll(w, targets, event, nowUs, id).jobs| == |w.jobs| + Dispatched(w, targets)
    decreases |targets|
  {
    if targets != [] {
      var (accepted, queued) := EnqueueStep(w, NewJob(targets[0], event, nowUs, id, false));
      DispatchedCount(if accepted then queued else FinishStep(queued, id, false), targets[1..], event, nowUs, id);
    }
  }

  // The first loop counts what the second dispatches.
  method CountTargets(routing: Routing) returns (count: nat, ghost targets: seq<int>)
    requires |routing.selected| == MAX_PUSH_CHANNELS
    ensures targets == Targets(routing) && AreTargets(routing, targets) && count == |targets|
  {
    TargetsAre(routing);
    targets := Targets(routing);
    count := 0;
    var i := 0;
    while routing.pushEnabled && i < MAX_PUSH_CHANNELS
      invariant 0 <= i <= MAX_PUSH_CHANNELS
      invariant count + |Channels(routing, i)| == |Channels(routing, 0)|
    {
      if routing.selected[i] { count := count + 1; }
      i := i + 1;
    }
    if routing.email { count := count + 1; }
  }

  method DispatchChannels(worker: PushWorker, routing: Routing, event: SmsEvent, nowUs: int, messageId: nat) returns (dispatched: nat)
    requires worker.Valid() && |routing.selected| == MAX_PUSH_CHANNELS
    modifies worker, worker.queue
    ensures worker.Valid()
    ensures worker.State() == DispatchAll(old(worker.State()), Channels(routing, 0), event, nowUs, messageId)
    ensures worker.marked == old(worker.marked)
    ensures |worker.queue.jobs| == old(|worker.queue.jobs|) + dispatched
  {
    ghost var begun := worker.State();
    ghost var done: seq<int> := [];
    dispatched := 0;
    var i := 0;
    while routing.pushEnabled && i < MAX_PUSH_CHANNELS
      invariant 0 <= i <= MAX_PUSH_CHANNELS && worker.Valid()
      invariant done + Channels(routing, i) == Channels(routing, 0)
      invariant worker.State() == DispatchAll(begun, done, event, nowUs, messageId)
      invariant |worker.queue.jobs| == |begun.jobs| + dispatched && worker.marked == old(worker.marked)
    {
      if routing.selected[i] {
        var accepted := DispatchOne(worker, i, event, nowUs, messageId);
        DispatchAllAppends(begun, done, [i], event, nowUs, messageId);
        Associative(done, [i], Channels(routing, i + 1));
        done := done + [i];
        if accepted { dispatched := dispatched + 1; }
      } else {
        assert [] + Channels(routing, i + 1) == Channels(routing, i + 1);
      }
      i := i + 1;
    }
    assert done == Channels(routing, 0);
  }

  method ForwardEvent(worker: PushWorker, routing: Routing, event: SmsEvent, nowUs: int, messageId: nat)
    returns (forwarded: bool, ghost targets: seq<int>)
    requires worker.Valid() && |routing.selected| == MAX_PUSH_CHANNELS
    modifies worker, worker.queue
    ensures worker.Valid()
    ensures (forwarded, worker.State()) == Forward(old(worker.State()), routing, event, nowUs, messageId)
    ensures IsForwarded(old(worker.State()), routing, event, nowUs, messageId, targets, forwarded, worker.State())
    ensures worker.marked ==
            old(worker.marked) + if routing.drop && !routing.blacklisted && messageId != 0 then [messageId] else []
  {
    hide Channels, IsForwarded, AreTargets;
    targets := Targets(routing);
    ForwardIs(worker.State(), routing, event, nowUs, messageId);
    if routing.blacklisted { return false, targets; }
    if routing.drop {
      worker.MarkMessage(messageId);
      return true, targets;
    }
    var targetCount, counted := CountTargets(routing);
    if targetCount == 0 { return false, targets; }
    var began := worker.BeginMessage(messageId, targetCount);
    if !began { return false, targets; }
    ghost var begun := worker.State();
    var dispatched := DispatchChannels(worker, routing, event, nowUs, messageId);
    if routing.email {
      var accepted := DispatchOne(worker, -1, event, nowUs, messageId);
      DispatchAllAppends(begun, Channels(routing, 0), [-1], event, nowUs, messageId);
      if accepted { dispatched := dispatched + 1; }
    } else {
      assert Channels(routing, 0) + [] == Channels(routing, 0);
    }
    DispatchedCount(begun, Targets(routing), event, nowUs, messageId);
    return dispatched > 0, targets;
  }

  // forward_event is one schedule of the protocol: begin, then for each target dispatch and, when
  // refused, reject, all by the dispatcher that the begin created.
  function Schedule(w: Worker, targets: seq<int>, event: SmsEvent, nowUs: int, id: nat, index: nat): seq<Action>
    decreases |targets|
  {
    if targets == [] then []
    else
      var (accepted, queued) := EnqueueStep(w, NewJob(targets[0], event, nowUs, id, false));
      [Dispatch(index, nowUs)] + (if accepted then [] else [Reject(index)]) +
      Schedule(if accepted then queued else FinishStep(queued, id, false), targets[1..], event, nowUs, id, index)
  }

  lemma {:induction false} FromAppends(s: System, a: seq<Action>, b: seq<Action>)
    ensures From(s, a + b) == From(From(s, a), b)
    decreases |a|
  {
    if a == [] {
      assert a + b == b;
    } else {
      assert (a + b)[1..] == a[1..] + b;
      FromAppends(Next(s, a[0]), a[1..], b);
    }
  }

  // One target: dispatched, or refused and rejected.
  lemma {:induction false} ForwardOne(w: Worker, ds: seq<Dispatcher>, d: Dispatcher, nowUs: int)
    requires d.pending != [] && !d.refused
    ensures var (accepted, queued) := EnqueueStep(w, NewJob(d.pending[0], d.event, nowUs, d.id, false));
            From(System(w, ds + [d]), [Dispatch(|ds|, nowUs)] + (if accepted then [] else [Reject(|ds|)])) ==
            System(if accepted then queued else FinishStep(queued, d.id, false), ds + [d.(pending := d.pending[1..])])
  {
    var s := System(w, ds + [d]);
    var (accepted, queued) := EnqueueStep(w, NewJob(d.pending[0], d.event, nowUs, d.id, false));
    var refused, after := d.(refused := true), d.(pending := d.pending[1..]);
    assert (ds + [d])[|ds| := refused] == ds + [refused];
    assert (ds + [d])[|ds| := after] == ds + [after];
    assert (ds + [refused])[|ds| := after] == ds + [after];
    assert [Dispatch(|ds|, nowUs)][1..] == [] && [Reject(|ds|)][1..] == [];
    var t := Next(s, Dispatch(|ds|, nowUs));
    assert From(s, [Dispatch(|ds|, nowUs)]) == t;
    assert From(t, [Reject(|ds|)]) == Next(t, Reject(|ds|));
    FromAppends(s, [Dispatch(|ds|, nowUs)], if accepted then [] else [Reject(|ds|)]);
  }

  lemma {:induction false} ForwardIsASchedule(w: Worker, ds: seq<Dispatcher>, targets: seq<int>, event: SmsEvent, nowUs: int, id: nat)
    ensures var s := System(w, ds + [Dispatcher(id, event, targets, false)]);
            From(s, Schedule(w, targets, event, nowUs, id, |ds|)) ==
            System(DispatchAll(w, targets, event, nowUs, id), ds + [Dispatcher(id, event, [], false)])
    decreases |targets|
  {
    if targets != [] {
      var d := Dispatcher(id, event, targets, false);
      var (accepted, queued) := EnqueueStep(w, NewJob(targets[0], event, nowUs, id, false));
      var next := if accepted then queued else FinishStep(queued, id, false);
      var first := [Dispatch(|ds|, nowUs)] + (if accepted then [] else [Reject(|ds|)]);
      ForwardOne(w, ds, d, nowUs);
      FromAppends(System(w, ds + [d]), first, Schedule(next, targets[1..], event, nowUs, id, |ds|));
      ForwardIsASchedule(next, ds, targets[1..], event, nowUs, id);
    }
  }
}
