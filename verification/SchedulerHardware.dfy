/** What the hardware and the bottom half do over whole runs: which job objects are handed to
    the hardware and when, and what a pass of the bottom half leaves behind. */
module SchedulerHardware {
  import opened Sequences
  import opened Sessions
  import opened JobManagers
  import opened SchedulerRuns
  import opened SchedulerTheorems

  // ---- Hand-over to the hardware

  /** A scheduling attempt hands over a job exactly if the hardware is idle, a job is pending
      and there is a free slot. It is the head of the pending queue, and the very job that
      becomes the last one of the scheduled queue. */
  lemma HandedIsQueued(s: Queues, idle: bool)
    ensures var t, s' := Triggered(s, idle), SchedulePending(s, idle);
            && (t.Some? <==> idle && s.pending != [] && s.schedNum < s.maxSched)
            && (t.Some? <==> |s'.scheduled| == |s.scheduled| + 1)
            && (t.Some? ==> s.pending == [t.value] + s'.pending
                            && s'.scheduled == s.scheduled + [t.value.(state := Sched)]
                            && s'.schedNum == s.schedNum + 1 && s'.maxSched == s.maxSched)
            && (t.None? ==> s' == s)
  {
  }

  /** The job an event hands to the hardware, as `ScheduleNewJob` and `UpdateJobState` report it. */
  function HandedBy(h: History, ev: Event): Option<Job> {
    match ev
    case SubmitJob(job, idle) => Triggered(Enqueue(h.q, job), idle)
    case CompletionIrq(exception, idle) => Triggered(Complete(h.q, exception), idle)
    case _ => None
  }

  function HandedId(h: History, ev: Event): seq<nat> {
    match HandedBy(h, ev)
    case Some(j) => [j.uid]
    case None => []
  }

  /** Everything handed to the hardware in the first `n` steps of a run. */
  function Started(hs: seq<History>, evs: seq<Event>, n: nat): seq<nat>
    requires n <= |evs| <= |hs|
  {
    if n == 0 then [] else Started(hs, evs, n - 1) + HandedId(hs[n - 1], evs[n - 1])
  }

  lemma HandedIdIsTriggered(h: History, ev: Event)
    ensures Next(h, ev).triggered == h.triggered + HandedId(h, ev)
  {
  }

  lemma {:induction false} StartedIsTriggered(hs: seq<History>, evs: seq<Event>, n: nat)
    requires Run(hs, evs) && n <= |evs|
    ensures Started(hs, evs, n) == hs[n].triggered
  {
    if n > 0 {
      StartedIsTriggered(hs, evs, n - 1);
      RunStep(hs, evs, n - 1);
      HandedIdIsTriggered(hs[n - 1], evs[n - 1]);
    }
  }

  /** The hardware is started on the submitted jobs, in submission order, without those that
      were removed while pending, each once; it completes them in the order it was started,
      and never has more than the allowed number in hand. */
  lemma HardwareOrder(hs: seq<History>, evs: seq<Event>, n: nat)
    requires Run(hs, evs) && n <= |evs|
    ensures var h, started := hs[n], Started(hs, evs, n);
            && started + Ids(h.q.pending) == Without(h.submitted, h.removed)
            && Distinct(started) && h.completed <= started
            && |started| - |h.completed| == h.q.schedNum <= h.q.maxSched == hs[0].q.maxSched
  {
    ServiceOrder(hs, evs, n);
    SchedulerInvariant(hs, evs, n);
    StartedIsTriggered(hs, evs, n);
  }

  /** Wherever the submitted job `j` is queued, it is still the job it was. */
  ghost predicate Kept(h: History, j: Job) {
    IsJob(h.q.pending, j) && IsJob(h.q.scheduled, j) && j.uid in h.submitted
  }

  lemma StepKeepsJob(h: History, ev: Event, j: Job)
    requires Inv(h) && Allowed(h, ev) && Kept(h, j)
    ensures Kept(Next(h, ev), j)
  {
    match ev {
      case SubmitJob(job, idle) =>
        ScheduleKeepsJob(Enqueue(h.q, job), idle, j);
      case CompletionIrq(exception, idle) =>
        EndFirstKeepsJob(h.q.scheduled, exception, j);
        ScheduleKeepsJob(Complete(h.q, exception), idle, j);
      case CancelPid(pid) =>
        DropPidKeepsJob(h.q.pending, pid, j);
        DropPidKeepsJob(h.q.scheduled, pid, j);
      case KillTimeout(thread, jobId) =>
        KillKeepsJob(h, thread, jobId, j);
      case BottomHalfStart =>
        DrainKeepsJob(h.q.scheduled, 0, j);
      case BottomHalfResume =>
        if h.bh.Window? {
          ResumeKeepsJob(h.q.scheduled, h.bh, j);
        }
    }
  }

  lemma KillKeepsJob(h: History, thread: int, jobId: nat, j: Job)
    requires Inv(h) && IsJob(h.q.pending, j) && IsJob(h.q.scheduled, j)
    ensures IsJob(Next(h, KillTimeout(thread, jobId)).q.pending, j)
    ensures IsJob(Next(h, KillTimeout(thread, jobId)).q.scheduled, j)
  {
    var h' := Next(h, KillTimeout(thread, jobId));
    KillCases(h, h', thread, jobId);
    var p, s := h.q.pending, h.q.scheduled;
    var i, n := FirstMatch(p, thread, jobId), FirstMatch(s, thread, jobId);
    if i < |p| {
      CutKeepsJob(p, i, j);
    } else if n < |s| && s[n].state == Sched {
      assert s[n] in s;
      assert forall x | x in h'.q.scheduled :: x in s || x == s[n].(valid := false);
    }
  }

  lemma RunKeepsJob(hs: seq<History>, evs: seq<Event>, k: nat, j: Job)
    requires Run(hs, evs) && k < |evs| && Kept(hs[k], j)
    ensures Kept(hs[k + 1], j)
  {
    var h, h', ev := hs[k], hs[k + 1], evs[k];
    assert Inv(h) by { SchedulerInvariant(hs, evs, k); }
    assert Allowed(h, ev) && h' == Next(h, ev) by { RunStep(hs, evs, k); }
    StepKeepsJob(h, ev, j);
  }

  lemma {:induction false} QueuedAsSubmitted(hs: seq<History>, evs: seq<Event>, i: nat, n: nat, j: Job, idle: bool)
    requires Run(hs, evs) && i < n <= |evs| && evs[i] == SubmitJob(j, idle)
    ensures Kept(hs[n], j)
  {
    if n == i + 1 {
      SubmittedIsSpared(hs, evs, i, j, idle);
    } else {
      QueuedAsSubmitted(hs, evs, i, n - 1, j, idle);
      RunKeepsJob(hs, evs, n - 1, j);
    }
  }

  /** What the hardware gets is the job as it was submitted: its process, thread and id. */
  lemma HandedAsSubmitted(hs: seq<History>, evs: seq<Event>, i: nat, n: nat, j: Job, idle: bool)
    requires Run(hs, evs) && i <= n < |evs| && evs[i] == SubmitJob(j, idle)
    requires HandedBy(hs[n], evs[n]).Some? && HandedBy(hs[n], evs[n]).value.uid == j.uid
    ensures var x := HandedBy(hs[n], evs[n]).value;
            x.pid == j.pid && x.thread == j.thread && x.jobId == j.jobId
  {
    if i < n {
      QueuedAsSubmitted(hs, evs, i, n, j, idle);
      RunStep(hs, evs, n);
      assert HandedBy(hs[n], evs[n]).value in hs[n].q.pending;
    } else {
      NewIsNotQueued(hs, evs, i, j, idle);
    }
  }

  lemma NewIsNotQueued(hs: seq<History>, evs: seq<Event>, i: nat, j: Job, idle: bool)
    requires Run(hs, evs) && i < |evs| && evs[i] == SubmitJob(j, idle)
    ensures forall x | x in hs[i].q.pending :: x.uid != j.uid
  {
    RunStep(hs, evs, i);
    SchedulerInvariant(hs, evs, i);
    AllDistinct(hs[i]);
    forall x | x in hs[i].q.pending
      ensures x.uid != j.uid
    {
      OneQueue(hs[i], x);
      assert x.uid in hs[i].triggered + Ids(hs[i].q.pending);
    }
  }

  // ---- A pass of the bottom half

  ghost predicate NoneEnded(q: seq<Job>) {
    forall j | j in q :: j.state != End
  }

  /** If a section ends without opening a window, no ended job is left; a window is opened
      for the first ended job that is still valid. */
  lemma {:induction false} DrainResult(q: seq<Job>, i: nat)
    requires i <= |q| && forall k | 0 <= k < i :: q[k].state != End
    ensures Drain(q, i).1 == NotRunning ==> NoneEnded(Drain(q, i).0)
    ensures Drain(q, i).1.Window? ==>
              exists k :: && 0 <= k < |Drain(q, i).0| && Drain(q, i).0[k].uid == Drain(q, i).1.curr
                          && Drain(q, i).0[k].state == End && Drain(q, i).0[k].valid
                          && (Drain(q, i).1.next == None <==> k == |Drain(q, i).0| - 1)
    ensures |Drain(q, i).0| <= |q|
    decreases |q| - i
  {
    if i < |q| {
      if q[i].state != End {
        DrainResult(q, i + 1);
      } else if !q[i].valid {
        DrainResult(q[..i] + q[i + 1..], i);
      }
    }
  }

  /** In any run, a section of the bottom half that does not leave a job to be reported
      leaves no ended job at all, unless it has just reported a job that had no successor. */
  lemma BottomHalfLeavesNone(hs: seq<History>, evs: seq<Event>, i: nat)
    requires Run(hs, evs) && i < |evs|
    requires evs[i] == BottomHalfStart || (evs[i] == BottomHalfResume && hs[i].bh.Window? && hs[i].bh.next != None)
    requires hs[i + 1].bh == NotRunning
    ensures NoneEnded(hs[i + 1].q.scheduled)
  {
    RunStep(hs, evs, i);
    SchedulerInvariant(hs, evs, i);
    if evs[i] == BottomHalfStart {
      DrainResult(hs[i].q.scheduled, 0);
    } else {
      ResumeFromReported(hs[i], hs[i + 1]);
      DrainResult(hs[i].q.scheduled[1..], 0);
    }
  }

  /** The bottom half is started and resumed `k` times, with no other event in between. */
  function Pass(h: History, k: nat): History {
    if k == 0 then Next(h, BottomHalfStart) else Next(Pass(h, k - 1), BottomHalfResume)
  }

  /** What a pass leaves alone. */
  ghost predicate PassFrame(h: History, g: History) {
    && g.q.pending == h.q.pending && g.submitted == h.submitted && g.removed == h.removed
    && g.invalidated == h.invalidated && g.triggered == h.triggered && g.completed == h.completed
  }

  /** A window as a section opens it: without a successor only at the end of the queue. */
  ghost predicate FreshWindow(h: History) {
    h.bh.Window? && (h.bh.next == None ==> |h.q.scheduled| == 1)
  }

  /** A section that goes on from the head of the queue. */
  lemma SectionEnds(h: History)
    requires Section(h) && h.bh == NotRunning
    ensures var g := AfterDrain(h);
            && Inv(g) && PassFrame(h, g) && |g.q.scheduled| <= |h.q.scheduled|
            && (if g.bh == NotRunning then NoneEnded(g.q.scheduled) else FreshWindow(g))
  {
    DrainKeeps(h);
    DrainResult(h.q.scheduled, 0);
    var g := AfterDrain(h);
    if g.bh.Window? && g.bh.next == None {
      AllDistinct(g);
      var s := g.q.scheduled;
      var k :| 0 <= k < |s| && s[k].uid == g.bh.curr && k == |s| - 1;
      assert Ids(s)[k] == Ids(s)[0];
    }
  }

  lemma ResumeEnds(h: History)
    requires Inv(h) && FreshWindow(h)
    ensures var g := Next(h, BottomHalfResume);
            && Inv(g) && PassFrame(h, g) && |g.q.scheduled| < |h.q.scheduled|
            && (if g.bh == NotRunning then NoneEnded(g.q.scheduled) else FreshWindow(g))
  {
    var g, mid := Next(h, BottomHalfResume), Reported(h);
    ResumeKeeps(h, g);
    ResumeFromReported(h, g);
    DeleteHeadKeeps(h, mid);
    if h.bh.next != None {
      SectionEnds(mid);
    }
  }

  lemma PassFrames(h: History, g: History, g': History)
    requires PassFrame(h, g) && PassFrame(g, g')
    ensures PassFrame(h, g')
  {
  }

  lemma {:induction false} PassEnds(h: History, k: nat) returns (n: nat)
    requires Inv(Pass(h, k)) && PassFrame(h, Pass(h, k)) && FreshWindow(Pass(h, k))
    ensures k <= n <= k + |Pass(h, k).q.scheduled|
    ensures Inv(Pass(h, n)) && PassFrame(h, Pass(h, n))
    ensures Pass(h, n).bh == NotRunning && NoneEnded(Pass(h, n).q.scheduled)
    decreases |Pass(h, k).q.scheduled|
  {
    var g, g' := Pass(h, k), Pass(h, k + 1);
    assert g' == Next(g, BottomHalfResume);
    ResumeEnds(g);
    PassFrames(h, g, g');
    n := k + 1;
    if g'.bh.Window? {
      n := PassEnds(h, n);
    }
  }

  /** From any reachable state with the bottom half not running, one pass of it ends after as
      many resumptions at most as jobs are scheduled. Then every completed job that was not
      invalidated has been delivered, in order of completion, none that has ended is left in
      the queue, and the executing jobs are still there. */
  lemma PassDeliversAll(hs: seq<History>, evs: seq<Event>, i: nat)
    requires Run(hs, evs) && i <= |evs| && hs[i].bh == NotRunning
    ensures exists n: nat ::
              && n <= |hs[i].q.scheduled| && Pass(hs[i], n).bh == NotRunning
              && Pass(hs[i], n).delivered == Without(hs[i].completed, hs[i].invalidated)
              && NoneEnded(Pass(hs[i], n).q.scheduled)
              && hs[i].completed + Ids(Pass(hs[i], n).q.scheduled) == hs[i].triggered
  {
    var h := hs[i];
    SchedulerInvariant(hs, evs, i);
    SectionEnds(h);
    var n := 0;
    if Pass(h, 0).bh.Window? {
      n := PassEnds(h, 0);
    }
    NoneLeft(h, Pass(h, n));
  }

  lemma NoneLeft(h: History, g: History)
    requires Inv(g) && PassFrame(h, g) && NoneEnded(g.q.scheduled)
    ensures g.delivered == Without(h.completed, h.invalidated) && h.completed + Ids(g.q.scheduled) == h.triggered
  {
    var s := g.q.scheduled;
    assert EndCount(s) == 0 by { assert s != [] ==> s[0] in s; }
    assert s[..0] == [] && s[0..] == s && g.drained + [] == g.drained;
  }
}
