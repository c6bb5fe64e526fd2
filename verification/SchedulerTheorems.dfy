/** What the scheduler promises over whole runs, drawn from the invariants of its sections. */
module SchedulerTheorems {
  import opened Sequences
  import opened Sessions
  import opened JobManagers
  import opened SchedulerRuns

  lemma InitialInv(h: History)
    requires Initial(h)
    ensures Inv(h)
  {
  }

  lemma MaxSchedFixed(h: History, ev: Event)
    ensures Next(h, ev).q.maxSched == h.q.maxSched
  {
  }

  /** The queue shape, the orders, the flags and the window hold in every reachable state. */
  lemma {:induction false} SchedulerInvariant(hs: seq<History>, evs: seq<Event>, n: nat)
    requires Run(hs, evs) && n <= |evs|
    ensures Inv(hs[n]) && hs[n].q.maxSched == hs[0].q.maxSched
  {
    if n == 0 {
      InitialInv(hs[0]);
    } else {
      SchedulerInvariant(hs, evs, n - 1);
      assert hs[n - 1 + 1] == Next(hs[n - 1], evs[n - 1]);
      StepKeepsInv(hs[n - 1], evs[n - 1]);
      MaxSchedFixed(hs[n - 1], evs[n - 1]);
    }
  }

  /** Jobs are triggered in submission order except those removed while pending, complete in
      trigger order, and are reported in completion order except those invalidated while
      executing; nothing is triggered or reported twice. */
  lemma ServiceOrder(hs: seq<History>, evs: seq<Event>, n: nat)
    requires Run(hs, evs) && n <= |evs|
    ensures var h := hs[n];
            && h.triggered + Ids(h.q.pending) == Without(h.submitted, h.removed)
            && h.completed <= h.triggered
            && h.drained <= h.completed
            && h.delivered == Without(h.drained, h.invalidated)
            && Distinct(h.triggered) && Distinct(h.delivered)
            && (h.q.pending == [] && h.q.scheduled == [] ==>
                  h.delivered == Without(Without(h.submitted, h.removed), h.invalidated))
  {
    SchedulerInvariant(hs, evs, n);
    var h := hs[n];
    AllDistinct(h);
    NoDupSplit(h.triggered, Ids(h.q.pending));
    NoDupSplit(h.drained, Ids(h.q.scheduled));
    WithoutMembers(h.drained, h.invalidated);
    if h.q.pending == [] && h.q.scheduled == [] {
      assert h.triggered + [] == h.triggered && h.drained + [] == h.drained;
    }
  }

  // ---- Cancellation and timeouts

  ghost predicate Grows(h: History, g: History) {
    h.removed <= g.removed && h.invalidated <= g.invalidated
  }

  lemma {:induction false} HistoriesGrow(hs: seq<History>, evs: seq<Event>, i: nat, n: nat)
    requires Run(hs, evs) && i <= n <= |evs|
    ensures Grows(hs[i], hs[n])
  {
    if i < n {
      HistoriesGrow(hs, evs, i, n - 1);
      assert hs[n - 1 + 1] == Next(hs[n - 1], evs[n - 1]);
    }
  }

  /** A job removed while pending is never triggered; a job invalidated while executing is
      never reported. */
  lemma SilencedForever(hs: seq<History>, evs: seq<Event>, i: nat, n: nat)
    requires Run(hs, evs) && i <= n <= |evs|
    ensures forall u | u in hs[i].removed :: u !in hs[n].triggered
    ensures forall u | u in hs[i].invalidated :: u !in hs[n].delivered
  {
    HistoriesGrow(hs, evs, i, n);
    SchedulerInvariant(hs, evs, n);
    AllDistinct(hs[n]);
    forall u | u in hs[n].triggered
      ensures u !in hs[n].removed
    {
      assert u in hs[n].triggered + Ids(hs[n].q.pending);
    }
    WithoutMembers(hs[n].drained, hs[n].invalidated);
  }

  /** The jobs of other processes, in queue order. */
  function Others(q: seq<Job>, pid: int): seq<Job> {
    if q == [] then []
    else if q[0].pid == pid then Others(q[1..], pid)
    else [q[0]] + Others(q[1..], pid)
  }

  lemma {:induction false} DropKeepsOthers(q: seq<Job>, pid: int)
    ensures Others(DropPid(q, pid), pid) == Others(q, pid)
  {
    if q != [] {
      DropKeepsOthers(q[1..], pid);
      if q[0].pid != pid || q[0].state != Pending {
        var rest := DropPid(q[1..], pid);
        assert DropPid(q, pid) == [InvalidatePid(q[0], pid)] + rest;
        assert ([InvalidatePid(q[0], pid)] + rest)[1..] == rest;
      }
    }
  }

  /** A cancellation marks no job of another process, in either queue. */
  lemma OnlyItsPid(h: History, pid: int)
    requires Inv(h)
    ensures forall j | j in h.q.pending + h.q.scheduled && j.pid != pid ::
              j.uid !in PidIds(h.q.pending, pid, Pending) && j.uid !in PidIds(h.q.scheduled, pid, Sched)
  {
    AllDistinct(h);
    PidIdsExact(h.q.pending, pid, Pending);
    PidIdsExact(h.q.scheduled, pid, Sched);
    PidIdsIn(h.q.pending, pid, Pending);
    PidIdsIn(h.q.scheduled, pid, Sched);
    forall j | j in h.q.pending + h.q.scheduled && j.pid != pid
      ensures j.uid !in PidIds(h.q.pending, pid, Pending) && j.uid !in PidIds(h.q.scheduled, pid, Sched)
    {
      OneQueue(h, j);
    }
  }

  /** No identity is in both queues. */
  lemma OneQueue(h: History, j: Job)
    requires Orders(h)
    ensures j in h.q.pending ==> j.uid in Ids(h.q.pending) && j.uid !in Ids(h.q.scheduled)
    ensures j in h.q.scheduled ==> j.uid in Ids(h.q.scheduled) && j.uid !in Ids(h.q.pending)
  {
    AllDistinct(h);
    NoDupSplit(h.triggered, Ids(h.q.pending));
    assert forall u | u in Ids(h.q.scheduled) :: u in h.drained + Ids(h.q.scheduled);
    if j in h.q.pending {
      var k :| 0 <= k < |h.q.pending| && h.q.pending[k] == j;
      assert Ids(h.q.pending)[k] == j.uid;
    }
    if j in h.q.scheduled {
      var k :| 0 <= k < |h.q.scheduled| && h.q.scheduled[k] == j;
      assert Ids(h.q.scheduled)[k] == j.uid;
    }
  }

  /** After a session's jobs are cancelled, no job of its process is pending; none that was
      pending is ever triggered and none that was executing is ever reported, while the jobs
      of other processes keep their order, state and flags in both queues. */
  lemma CancelSilencesSession(hs: seq<History>, evs: seq<Event>, i: nat, n: nat, pid: int)
    requires Run(hs, evs) && i < n <= |evs| && evs[i] == CancelPid(pid)
    ensures forall j | j in hs[i + 1].q.pending :: j.pid != pid
    ensures forall j | j in hs[i].q.pending && j.pid == pid :: j.uid !in hs[n].triggered
    ensures forall j | j in hs[i].q.scheduled && j.pid == pid && j.state == Sched :: j.uid !in hs[n].delivered
    ensures Others(hs[i + 1].q.pending, pid) == Others(hs[i].q.pending, pid)
    ensures Others(hs[i + 1].q.scheduled, pid) == Others(hs[i].q.scheduled, pid)
    ensures forall j | j in hs[i].q.pending + hs[i].q.scheduled && j.pid != pid ::
              && (j.uid in hs[i + 1].removed <==> j.uid in hs[i].removed)
              && (j.uid in hs[i + 1].invalidated <==> j.uid in hs[i].invalidated)
  {
    var h := hs[i];
    SchedulerInvariant(hs, evs, i);
    OnlyItsPid(h, pid);
    assert hs[i + 1] == Next(h, evs[i]);
    AllDistinct(h);
    PidIdsExact(h.q.pending, pid, Pending);
    DropPending(h.q.pending, pid, PidIds(h.q.pending, pid, Pending));
    DropKeepsOthers(h.q.pending, pid);
    DropKeepsOthers(h.q.scheduled, pid);
    SilencedForever(hs, evs, i + 1, n);
    assert forall j | j in h.q.pending && j.pid == pid :: j.uid in hs[i + 1].removed;
    assert forall j | j in h.q.scheduled && j.pid == pid && j.state == Sched :: j.uid in hs[i + 1].invalidated;
  }

  // ---- Eventual delivery

  /** Once both queues are empty, the delivered jobs are exactly the submitted ones that were
      neither removed while pending nor invalidated while executing. */
  lemma DeliveredExactly(hs: seq<History>, evs: seq<Event>, n: nat)
    requires Run(hs, evs) && n <= |evs| && hs[n].q.pending == [] && hs[n].q.scheduled == []
    ensures forall u :: u in hs[n].delivered <==>
                        u in hs[n].submitted && u !in hs[n].removed && u !in hs[n].invalidated
  {
    ServiceOrder(hs, evs, n);
    WithoutMembers(hs[n].submitted, hs[n].removed);
    WithoutMembers(Without(hs[n].submitted, hs[n].removed), hs[n].invalidated);
  }

  predicate SameJob(a: Job, b: Job) {
    a.uid == b.uid && a.pid == b.pid && a.thread == b.thread && a.jobId == b.jobId
  }

  /** The event is no cancellation of the job's process and no timeout kill of its thread and id. */
  ghost predicate Spares(ev: Event, j: Job) {
    ev != CancelPid(j.pid) && ev != KillTimeout(j.thread, j.jobId)
  }

  /** The submitted job `j` has been neither removed nor invalidated, and is still the job it
      was wherever it is queued. */
  ghost predicate Spared(h: History, j: Job) {
    && j.uid in h.submitted && j.uid !in h.removed && j.uid !in h.invalidated
    && IsJob(h.q.pending, j) && IsJob(h.q.scheduled, j)
  }

  ghost predicate IsJob(q: seq<Job>, j: Job) {
    forall x | x in q && x.uid == j.uid :: SameJob(x, j)
  }

  lemma {:induction false} EndFirstKeepsJob(q: seq<Job>, exception: int, j: Job)
    requires IsJob(q, j)
    ensures IsJob(EndFirst(q, exception), j)
  {
    if q != [] {
      assert q[0] in q && forall x | x in q[1..] :: x in q;
      EndFirstKeepsJob(q[1..], exception, j);
    }
  }

  lemma {:induction false} DropPidKeepsJob(q: seq<Job>, pid: int, j: Job)
    requires IsJob(q, j)
    ensures IsJob(DropPid(q, pid), j)
  {
    if q != [] {
      assert q[0] in q && forall x | x in q[1..] :: x in q;
      DropPidKeepsJob(q[1..], pid, j);
    }
  }

  lemma CutKeepsJob(q: seq<Job>, i: nat, j: Job)
    requires IsJob(q, j) && i < |q|
    ensures IsJob(q[..i] + q[i + 1..], j)
  {
    assert forall x | x in q[..i] + q[i + 1..] :: x in q;
  }

  lemma {:induction false} DrainKeepsJob(q: seq<Job>, i: nat, j: Job)
    requires i <= |q| && IsJob(q, j)
    ensures IsJob(Drain(q, i).0, j)
    decreases |q| - i
  {
    if i < |q| {
      if q[i].state != End {
        DrainKeepsJob(q, i + 1, j);
      } else if !q[i].valid {
        CutKeepsJob(q, i, j);
        DrainKeepsJob(q[..i] + q[i + 1..], i, j);
      }
    }
  }

  lemma ResumeKeepsJob(q: seq<Job>, bh: BottomHalf, j: Job)
    requires bh.Window? && IsJob(q, j)
    ensures IsJob(Resume(q, bh).0, j)
  {
    var i := IndexOfUid(q, bh.curr);
    if i < |q| {
      CutKeepsJob(q, i, j);
    }
    var rest := Delete(q, bh.curr);
    if bh.next != None {
      DrainKeepsJob(rest, IndexOfUid(rest, bh.next.value), j);
    }
  }

  lemma ScheduleKeepsJob(q: Queues, idle: bool, j: Job)
    requires IsJob(q.pending, j) && IsJob(q.scheduled, j)
    ensures IsJob(SchedulePending(q, idle).pending, j) && IsJob(SchedulePending(q, idle).scheduled, j)
  {
    if CanTrigger(q, idle) {
      assert q.pending[0] in q.pending && forall x | x in q.pending[1..] :: x in q.pending;
    }
  }

  lemma CancelSpares(h: History, pid: int, j: Job)
    requires Spared(h, j) && j.pid != pid
    ensures Spared(Next(h, CancelPid(pid)), j)
  {
    DropPidKeepsJob(h.q.pending, pid, j);
    DropPidKeepsJob(h.q.scheduled, pid, j);
  }

  lemma KillSpares(h: History, thread: int, jobId: nat, j: Job)
    requires Inv(h) && Spared(h, j) && (j.thread != thread || j.jobId != jobId)
    ensures Spared(Next(h, KillTimeout(thread, jobId)), j)
  {
    var h' := Next(h, KillTimeout(thread, jobId));
    KillCases(h, h', thread, jobId);
    var p, s := h.q.pending, h.q.scheduled;
    var i, n := FirstMatch(p, thread, jobId), FirstMatch(s, thread, jobId);
    if i < |p| {
      assert p[i] in p;
      CutKeepsJob(p, i, j);
    } else if n < |s| && s[n].state == Sched {
      assert s[n] in s;
      assert forall x | x in h'.q.scheduled :: x in s || x == s[n].(valid := false);
    }
  }

  lemma StepSpares(h: History, ev: Event, j: Job)
    requires Inv(h) && Allowed(h, ev) && Spared(h, j) && Spares(ev, j)
    ensures Spared(Next(h, ev), j)
  {
    match ev {
      case SubmitJob(job, idle) =>
        ScheduleKeepsJob(Enqueue(h.q, job), idle, j);
      case CompletionIrq(exception, idle) =>
        EndFirstKeepsJob(h.q.scheduled, exception, j);
        ScheduleKeepsJob(Complete(h.q, exception), idle, j);
      case CancelPid(pid) =>
        CancelSpares(h, pid, j);
      case KillTimeout(thread, jobId) =>
        KillSpares(h, thread, jobId, j);
      case BottomHalfStart =>
        DrainKeepsJob(h.q.scheduled, 0, j);
      case BottomHalfResume =>
        if h.bh.Window? {
          ResumeKeepsJob(h.q.scheduled, h.bh, j);
        }
    }
  }

  lemma RunStep(hs: seq<History>, evs: seq<Event>, k: nat)
    requires Run(hs, evs) && k < |evs|
    ensures Allowed(hs[k], evs[k]) && hs[k + 1] == Next(hs[k], evs[k])
  {
  }

  lemma RunSpares(hs: seq<History>, evs: seq<Event>, k: nat, j: Job)
    requires Run(hs, evs) && k < |evs| && Spared(hs[k], j) && Spares(evs[k], j)
    ensures Spared(hs[k + 1], j)
  {
    var h, h', ev := hs[k], hs[k + 1], evs[k];
    assert Inv(h) by { SchedulerInvariant(hs, evs, k); }
    assert Allowed(h, ev) && h' == Next(h, ev) by { RunStep(hs, evs, k); }
    StepSpares(h, ev, j);
  }

  lemma {:induction false} SparedThroughout(hs: seq<History>, evs: seq<Event>, i: nat, n: nat, j: Job)
    requires Run(hs, evs) && i <= n <= |evs| && Spared(hs[i], j)
    requires forall k | i <= k < n :: Spares(evs[k], j)
    ensures Spared(hs[n], j)
  {
    if i < n {
      SparedThroughout(hs, evs, i, n - 1, j);
      RunSpares(hs, evs, n - 1, j);
    }
  }

  lemma SubmittedIsSpared(hs: seq<History>, evs: seq<Event>, i: nat, j: Job, idle: bool)
    requires Run(hs, evs) && i < |evs| && evs[i] == SubmitJob(j, idle)
    ensures Spared(hs[i + 1], j)
  {
    var h := hs[i];
    SchedulerInvariant(hs, evs, i);
    assert Allowed(h, evs[i]) && hs[i + 1] == Next(h, evs[i]);
    AllDistinct(h);
    forall x | x in h.q.pending || x in h.q.scheduled
      ensures x.uid != j.uid
    {
      OneQueue(h, x);
      assert forall u | u in Ids(h.q.scheduled) :: u in h.drained + Ids(h.q.scheduled);
      assert x.uid in h.triggered + Ids(h.q.pending);
    }
    assert j.uid !in h.invalidated by {
      assert forall u | u in h.triggered :: u in h.triggered + Ids(h.q.pending);
    }
    ScheduleKeepsJob(Enqueue(h.q, j), idle, j);
  }

  /** A job whose process is never cancelled after its submission, and that no timeout kill
      names, has been delivered once both queues are empty, whatever happens to the jobs of
      other processes in between. */
  lemma SparedJobsAreDelivered(hs: seq<History>, evs: seq<Event>, i: nat, n: nat, j: Job, idle: bool)
    requires Run(hs, evs) && i < n <= |evs| && evs[i] == SubmitJob(j, idle)
    requires forall k | i < k < n :: Spares(evs[k], j)
    requires hs[n].q.pending == [] && hs[n].q.scheduled == []
    ensures j.uid in hs[n].delivered
  {
    SubmittedIsSpared(hs, evs, i, j, idle);
    SparedThroughout(hs, evs, i + 1, n, j);
    DeliveredExactly(hs, evs, n);
  }

  /** A timeout kill that finds its job pending or executing silences it; it refuses only
      when there is no such job or the first one found has already ended. */
  lemma KillSilencesJob(hs: seq<History>, evs: seq<Event>, i: nat, n: nat, thread: int, jobId: nat)
    requires Run(hs, evs) && i < n <= |evs| && evs[i] == KillTimeout(thread, jobId)
    ensures var q, p := hs[i].q, FirstMatch(hs[i].q.pending, thread, jobId);
            var s := FirstMatch(q.scheduled, thread, jobId);
            && (p < |q.pending| ==> Kill(q, thread, jobId).0 == 0 && q.pending[p].uid !in hs[n].triggered)
            && (p == |q.pending| && s < |q.scheduled| && q.scheduled[s].state == Sched ==>
                  Kill(q, thread, jobId).0 == 0 && q.scheduled[s].uid !in hs[n].delivered)
            && (p == |q.pending| && (s < |q.scheduled| ==> q.scheduled[s].state == End) ==>
                  Kill(q, thread, jobId).0 != 0 && hs[i + 1] == hs[i])
  {
    var h := hs[i];
    SchedulerInvariant(hs, evs, i);
    assert hs[i + 1] == Next(h, evs[i]);
    SilencedForever(hs, evs, i + 1, n);
    KillCases(h, hs[i + 1], thread, jobId);
    var p := FirstMatch(h.q.pending, thread, jobId);
    if p < |h.q.pending| {
      assert h.q.pending[p] in h.q.pending;
      assert h.q.pending[p].uid in hs[i + 1].removed;
    }
  }

  // ---- No stranded work

  /** The hardware is idle exactly when no job is executing. */
  ghost predicate TrueIdle(h: History, ev: Event) {
    match ev
    case SubmitJob(job, idle) => idle <==> !HasSched(h.q.scheduled)
    case CompletionIrq(exception, idle) => idle <==> !HasSched(Complete(h.q, exception).scheduled)
    case _ => true
  }

  ghost predicate NotStranded(q: Queues) {
    q.pending != [] ==> HasSched(q.scheduled)
  }

  /** Executing jobs, then pending jobs. */
  function Todo(h: History): seq<nat> {
    Ids(h.q.scheduled[EndCount(h.q.scheduled)..]) + Ids(h.q.pending)
  }

  lemma HasSchedByCount(q: Queues)
    requires QueueShape(q)
    ensures HasSched(q.scheduled) <==> EndCount(q.scheduled) < |q.scheduled|
  {
    if EndCount(q.scheduled) < |q.scheduled| {
      assert q.scheduled[EndCount(q.scheduled)].state == Sched;
    }
  }

  /** A scheduling attempt on truly idle hardware leaves nothing stranded. */
  lemma ScheduleFeeds(q: Queues, idle: bool)
    requires QueueShape(q) && q.maxSched >= 1 && (idle <==> !HasSched(q.scheduled))
    ensures NotStranded(SchedulePending(q, idle))
  {
    HasSchedByCount(q);
    if CanTrigger(q, idle) {
      var s := SchedulePending(q, idle).scheduled;
      assert s[|s| - 1].state == Sched;
    }
  }

  /** Steps that neither trigger nor complete leave the executing jobs as they are. */
  lemma SameExecuting(h: History, h': History)
    requires Inv(h) && Inv(h') && h'.triggered == h.triggered && h'.completed == h.completed
    ensures HasSched(h.q.scheduled) <==> HasSched(h'.q.scheduled)
    ensures Ids(h'.q.scheduled[EndCount(h'.q.scheduled)..]) == Ids(h.q.scheduled[EndCount(h.q.scheduled)..])
  {
    HasSchedByCount(h.q);
    HasSchedByCount(h'.q);
    var a := Ids(h.q.scheduled[EndCount(h.q.scheduled)..]);
    var b := Ids(h'.q.scheduled[EndCount(h'.q.scheduled)..]);
    assert a == h.triggered[|h.completed|..] && b == h'.triggered[|h.completed|..];
  }

  lemma StepFeeds(h: History, ev: Event)
    requires Inv(h) && Allowed(h, ev) && TrueIdle(h, ev)
    requires h.q.maxSched >= 1 && NotStranded(h.q)
    ensures NotStranded(Next(h, ev).q)
  {
    StepKeepsInv(h, ev);
    match ev {
      case SubmitJob(job, idle) =>
        var mid := h.(q := Enqueue(h.q, job), submitted := h.submitted + [job.uid]);
        EnqueueKeeps(h, mid, job);
        ScheduleFeeds(mid.q, idle);
      case CompletionIrq(exception, idle) =>
        var mid := h.(q := Complete(h.q, exception), completed := h.completed + Completed(h.q));
        CompleteKeeps(h, mid, exception);
        ScheduleFeeds(mid.q, idle);
      case CancelPid(pid) =>
        SameExecuting(h, Next(h, ev));
      case KillTimeout(thread, jobId) =>
        SameExecuting(h, Next(h, ev));
      case BottomHalfStart =>
        SameExecuting(h, Next(h, ev));
      case BottomHalfResume =>
        SameExecuting(h, Next(h, ev));
    }
  }

  /** In every reachable state a pending job implies an executing one. */
  lemma {:induction false} NoStrandedWork(hs: seq<History>, evs: seq<Event>, n: nat)
    requires Run(hs, evs) && n <= |evs|
    requires forall i | 0 <= i < |evs| :: TrueIdle(hs[i], evs[i])
    ensures NotStranded(hs[n].q)
  {
    if n > 0 {
      NoStrandedWork(hs, evs, n - 1);
      SchedulerInvariant(hs, evs, n - 1);
      assert TrueIdle(hs[n - 1], evs[n - 1]);
      assert hs[n - 1 + 1] == Next(hs[n - 1], evs[n - 1]);
      StepFeeds(hs[n - 1], evs[n - 1]);
    }
  }

  ghost predicate IsDrainEvent(ev: Event) {
    ev.CompletionIrq? || ev == BottomHalfStart || ev == BottomHalfResume
  }

  function CountIrqs(evs: seq<Event>): nat {
    if evs == [] then 0
    else CountIrqs(evs[..|evs| - 1]) + (if evs[|evs| - 1].CompletionIrq? then 1 else 0)
  }

  lemma TodoAfterSchedule(h: History, h': History, idle: bool)
    requires QueueShape(h.q) && h'.q == SchedulePending(h.q, idle)
    ensures Todo(h') == Todo(h)
  {
    if CanTrigger(h.q, idle) {
      ScheduleShape(h.q, idle);
      Regroup(Ids(h.q.scheduled[EndCount(h.q.scheduled)..]), [h.q.pending[0].uid], Ids(h'.q.pending));
    }
  }

  lemma TodoAfterComplete(h: History, mid: History, exception: int)
    requires QueueShape(h.q) && mid.q == Complete(h.q, exception)
    requires EndCount(h.q.scheduled) < |h.q.scheduled|
    ensures Completed(h.q) == [Todo(h)[0]] && Todo(mid) == Todo(h)[1..]
  {
    CompleteShape(h.q, exception);
    var k := EndCount(h.q.scheduled);
    Regroup([h.q.scheduled[k].uid], Ids(mid.q.scheduled[k + 1..]), Ids(h.q.pending));
    assert Todo(h) == [h.q.scheduled[k].uid] + Todo(mid);
  }

  /** A completion interrupt ends the first job of the to-do order and keeps the rest of it. */
  lemma IrqFinishesFirst(h: History, ev: Event)
    requires Inv(h) && ev.CompletionIrq? && TrueIdle(h, ev) && NotStranded(h.q) && Todo(h) != []
    ensures var h' := Next(h, ev);
            h'.completed == h.completed + [Todo(h)[0]] && Todo(h') == Todo(h)[1..]
  {
    HasSchedByCount(h.q);
    var mid := h.(q := Complete(h.q, ev.exception), completed := h.completed + Completed(h.q));
    CompleteKeeps(h, mid, ev.exception);
    TodoAfterComplete(h, mid, ev.exception);
    TodoAfterSchedule(mid, Next(h, ev), ev.idle);
  }

  /** One drain event moves the split point of a fixed to-do order by one interrupt. */
  lemma DrainEventMoves(h: History, ev: Event, completed: seq<nat>, todo: seq<nat>, k: nat)
    requires Inv(h) && NotStranded(h.q) && h.q.maxSched >= 1 && IsDrainEvent(ev) && TrueIdle(h, ev)
    requires k <= |todo| && (ev.CompletionIrq? ==> k < |todo|)
    requires h.completed == completed + todo[..k] && Todo(h) == todo[k..]
    requires Allowed(h, ev)
    ensures var h', k' := Next(h, ev), if ev.CompletionIrq? then k + 1 else k;
            && Inv(h') && NotStranded(h'.q) && h'.q.maxSched >= 1
            && h'.completed == completed + todo[..k'] && Todo(h') == todo[k'..]
  {
    StepKeepsInv(h, ev);
    StepFeeds(h, ev);
    MaxSchedFixed(h, ev);
    if ev.CompletionIrq? {
      IrqFinishesFirst(h, ev);
      MovePoint(completed, todo, k);
    } else {
      SameExecuting(h, Next(h, ev));
    }
  }

  lemma MovePoint(completed: seq<nat>, todo: seq<nat>, k: nat)
    requires k < |todo|
    ensures completed + todo[..k] + [todo[k..][0]] == completed + todo[..k + 1]
    ensures todo[k..][1..] == todo[k + 1..]
  {
    assert todo[..k] + [todo[k]] == todo[..k + 1];
    Regroup(completed, todo[..k], [todo[k]]);
  }

  /** With no new submissions, k completion interrupts finish exactly the first k jobs of
      executing-then-pending order, whatever the bottom half does in between. */
  lemma {:induction false} InterruptsFinishInOrder(hs: seq<History>, evs: seq<Event>)
    requires |hs| == |evs| + 1 && Inv(hs[0]) && NotStranded(hs[0].q) && hs[0].q.maxSched >= 1
    requires forall i | 0 <= i < |evs| ::
               IsDrainEvent(evs[i]) && TrueIdle(hs[i], evs[i]) && hs[i + 1] == Next(hs[i], evs[i])
    requires CountIrqs(evs) <= |Todo(hs[0])|
    ensures var h, k := hs[|evs|], CountIrqs(evs);
            && Inv(h) && NotStranded(h.q) && h.q.maxSched >= 1
            && h.completed == hs[0].completed + Todo(hs[0])[..k]
            && Todo(h) == Todo(hs[0])[k..]
  {
    if evs == [] {
      assert hs[0].completed + [] == hs[0].completed;
    } else {
      var n := |evs| - 1;
      var g, fs := hs[..n + 1], evs[..n];
      forall i | 0 <= i < n
        ensures IsDrainEvent(fs[i]) && TrueIdle(g[i], fs[i]) && g[i + 1] == Next(g[i], fs[i])
      {
        assert g[i] == hs[i] && g[i + 1] == hs[i + 1] && fs[i] == evs[i];
      }
      InterruptsFinishInOrder(g, fs);
      var h, ev, k := hs[n], evs[n], CountIrqs(fs);
      assert g[n] == h && IsDrainEvent(ev) && TrueIdle(h, ev) && hs[n + 1] == Next(h, ev);
      DrainEventMoves(h, ev, hs[0].completed, Todo(hs[0]), k);
    }
  }
}
