/** Whole histories of the job manager: what is triggered, completed and reported, and in
    which order, when submissions, interrupts, cancellations, timeouts and the sections of
    the bottom half interleave in any way. */
module SchedulerRuns {
  import opened Sequences
  import opened Sessions
  import opened JobManagers

  /** The queues together with what has happened so far, as sequences of job identities. */
  datatype History = History(
    q: Queues,
    bh: BottomHalf,
    submitted: seq<nat>,
    removed: set<nat>,      // dropped while pending
    invalidated: set<nat>,  // cancelled or timed out while executing
    triggered: seq<nat>,
    completed: seq<nat>,
    drained: seq<nat>,      // deleted from the scheduled queue
    delivered: seq<nat>)    // reported to the session

  datatype Event =
    | SubmitJob(job: Job, idle: bool)
    | CompletionIrq(exception: int, idle: bool)
    | CancelPid(pid: int)
    | KillTimeout(thread: int, jobId: nat)
    | BottomHalfStart
    | BottomHalfResume

  function Ids(q: seq<Job>): (u: seq<nat>)
    ensures |u| == |q|
    ensures forall i | 0 <= i < |q| :: u[i] == q[i].uid
  {
    seq(|q|, i requires 0 <= i < |q| => q[i].uid)
  }

  /** `s` without the elements of `x`, in order. */
  function Without(s: seq<nat>, x: set<nat>): seq<nat> {
    if s == [] then []
    else if s[0] in x then Without(s[1..], x)
    else [s[0]] + Without(s[1..], x)
  }

  /** Number of leading ended jobs. */
  function EndCount(q: seq<Job>): (n: nat)
    ensures n <= |q|
    ensures forall i | 0 <= i < n :: q[i].state == End
    ensures n < |q| ==> q[n].state != End
  {
    if q == [] || q[0].state != End then 0 else 1 + EndCount(q[1..])
  }

  /** Jobs moved from pending to scheduled by a scheduling attempt. */
  function NewlyTriggered(q: Queues, idle: bool): seq<nat> {
    if CanTrigger(q, idle) then [q.pending[0].uid] else []
  }

  /** The job the completion interrupt ends. */
  function Completed(q: Queues): seq<nat> {
    var k := EndCount(q.scheduled);
    if HasSched(q.scheduled) && k < |q.scheduled| then [q.scheduled[k].uid] else []
  }

  function PidIds(q: seq<Job>, pid: int, st: State): set<nat> {
    set j | j in q && j.pid == pid && j.state == st :: j.uid
  }

  /** The job a timeout kill hits in a queue, if it is in state `st`. */
  function KilledIds(q: seq<Job>, thread: int, jobId: nat, st: State): set<nat> {
    var i := FirstMatch(q, thread, jobId);
    if i < |q| && q[i].state == st then {q[i].uid} else {}
  }

  /** Invalid ended jobs deleted without a report during one section of the bottom half. */
  function Dropped(q: seq<Job>, i: nat): seq<nat>
    requires i <= |q|
    decreases |q| - i
  {
    if i == |q| then []
    else if q[i].state != End then Dropped(q, i + 1)
    else if q[i].valid then []
    else [q[i].uid] + Dropped(q[..i] + q[i + 1..], i)
  }

  /** The bottom half runs from the head of the queue to its next unlock. */
  function AfterDrain(h: History): History {
    var (s, bh) := Drain(h.q.scheduled, 0);
    h.(q := h.q.(scheduled := s), bh := bh, drained := h.drained + Dropped(h.q.scheduled, 0))
  }

  function Next(h: History, ev: Event): History {
    match ev
    case SubmitJob(job, idle) =>
      h.(q := Submit(h.q, job, idle),
         submitted := h.submitted + [job.uid],
         triggered := h.triggered + NewlyTriggered(Enqueue(h.q, job), idle))
    case CompletionIrq(exception, idle) =>
      h.(q := Interrupt(h.q, exception, idle),
         completed := h.completed + Completed(h.q),
         triggered := h.triggered + NewlyTriggered(Complete(h.q, exception), idle))
    case CancelPid(pid) =>
      h.(q := Cancel(h.q, pid),
         removed := h.removed + PidIds(h.q.pending, pid, Pending),
         invalidated := h.invalidated + PidIds(h.q.scheduled, pid, Sched))
    case KillTimeout(thread, jobId) =>
      var dropped := KilledIds(h.q.pending, thread, jobId, Pending);
      h.(q := Kill(h.q, thread, jobId).1,
         removed := h.removed + dropped,
         invalidated := h.invalidated +
                        (if dropped == {} then KilledIds(h.q.scheduled, thread, jobId, Sched) else {}))
    case BottomHalfStart =>
      if h.bh == NotRunning then AfterDrain(h) else h
    case BottomHalfResume =>
      if h.bh == NotRunning then h
      else
        var (s, bh) := Resume(h.q.scheduled, h.bh);
        var rest := Delete(h.q.scheduled, h.bh.curr);
        h.(q := h.q.(scheduled := s), bh := bh,
           delivered := h.delivered + [h.bh.curr],
           drained := h.drained + [h.bh.curr] +
                      (if h.bh.next == None then [] else Dropped(rest, IndexOfUid(rest, h.bh.next.value))))
  }

  /** A job object is submitted once and starts out valid. */
  ghost predicate Allowed(h: History, ev: Event) {
    ev.SubmitJob? ==> ev.job.uid !in h.submitted && ev.job.valid
  }

  ghost predicate Initial(h: History) {
    h.q.maxSched >= 1 &&
    h == History(Queues([], [], 0, h.q.maxSched), NotRunning, [], {}, {}, [], [], [], [])
  }

  ghost predicate Run(hs: seq<History>, evs: seq<Event>) {
    && |hs| == |evs| + 1 && Initial(hs[0])
    && forall i | 0 <= i < |evs| :: Allowed(hs[i], evs[i]) && hs[i + 1] == Next(hs[i], evs[i])
  }

  // ---- The invariants

  /** Pending jobs are pending; scheduled is an ended prefix followed by executing jobs, and
      the slot counter counts the latter. */
  ghost predicate QueueShape(q: Queues) {
    && (forall j | j in q.pending :: j.state == Pending && j.valid)
    && (forall i | EndCount(q.scheduled) <= i < |q.scheduled| :: q.scheduled[i].state == Sched)
    && q.schedNum == |q.scheduled| - EndCount(q.scheduled)
    && q.schedNum <= q.maxSched
  }

  ghost predicate Orders(h: History) {
    var k := EndCount(h.q.scheduled);
    && Distinct(h.submitted)
    && h.triggered + Ids(h.q.pending) == Without(h.submitted, h.removed)
    && h.completed + Ids(h.q.scheduled[k..]) == h.triggered
    && h.drained + Ids(h.q.scheduled[..k]) == h.completed
    && h.delivered == Without(h.drained, h.invalidated)
  }

  /** A job is marked invalid exactly if it was cancelled or killed while executing. */
  ghost predicate Flags(h: History) {
    && (forall j | j in h.q.scheduled :: j.valid <==> j.uid !in h.invalidated)
    && (forall u | u in h.invalidated :: u in h.triggered)
    && (forall u | u in h.removed :: u in h.submitted)
  }

  /** While the bottom half is unlocked, the job it reports heads the scheduled queue and
      the successor it saved is still the next node of the queue. */
  ghost predicate WindowKept(h: History) {
    match h.bh
    case NotRunning => true
    case Window(curr, next) =>
      && h.q.scheduled != [] && h.q.scheduled[0].uid == curr
      && h.q.scheduled[0].state == End && h.q.scheduled[0].valid
      && (next.Some? ==> |h.q.scheduled| > 1 && h.q.scheduled[1].uid == next.value)
  }

  ghost predicate Inv(h: History) {
    QueueShape(h.q) && Orders(h) && Flags(h) && WindowKept(h)
  }

  // ---- Sequences of identities

  lemma {:induction false} WithoutAppend(s: seq<nat>, t: seq<nat>, x: set<nat>)
    ensures Without(s + t, x) == Without(s, x) + Without(t, x)
  {
    if s == [] {
      assert s + t == t;
    } else {
      assert (s + t)[1..] == s[1..] + t;
      WithoutAppend(s[1..], t, x);
    }
  }

  lemma {:induction false} WithoutTwice(s: seq<nat>, x: set<nat>, y: set<nat>)
    ensures Without(Without(s, x), y) == Without(s, x + y)
  {
    if s != [] {
      WithoutTwice(s[1..], x, y);
      if s[0] !in x {
        assert Without(s, x)[1..] == Without(s[1..], x);
      }
    }
  }

  lemma {:induction false} WithoutAbsent(s: seq<nat>, x: set<nat>)
    requires forall u | u in s :: u !in x
    ensures Without(s, x) == s
  {
    if s != [] {
      assert s[0] in s;
      assert forall u | u in s[1..] :: u in s;
      WithoutAbsent(s[1..], x);
    }
  }

  lemma {:induction false} WithoutMembers(s: seq<nat>, x: set<nat>)
    ensures forall u :: u in Without(s, x) <==> u in s && u !in x
    ensures Distinct(s) ==> Distinct(Without(s, x))
  {
    if s != [] {
      WithoutMembers(s[1..], x);
      assert forall u :: u in s <==> u == s[0] || u in s[1..];
      if Distinct(s) {
        NoDupTail(s);
        if s[0] !in x {
          var w := Without(s[1..], x);
          assert s[0] !in s[1..];
          forall i, j | 0 <= i < j < |[s[0]] + w|
            ensures ([s[0]] + w)[i] != ([s[0]] + w)[j]
          {
            assert w[j - 1] in w;
          }
        }
      }
    }
  }

  lemma NoDupTail(s: seq<nat>)
    requires Distinct(s) && s != []
    ensures Distinct(s[1..]) && s[0] !in s[1..]
  {
  }

  lemma NoDupSplit(a: seq<nat>, b: seq<nat>)
    requires Distinct(a + b)
    ensures Distinct(a) && Distinct(b) && forall u | u in a :: u !in b
  {
    assert forall i | 0 <= i < |a| :: a[i] == (a + b)[i];
    assert forall i | 0 <= i < |b| :: b[i] == (a + b)[|a| + i];
  }

  lemma EndCountIs(q: seq<Job>, n: nat)
    requires n <= |q| && (forall i | 0 <= i < n :: q[i].state == End)
    requires n < |q| ==> q[n].state != End
    ensures EndCount(q) == n
  {
  }

  /** All identities known to the job manager are different. */
  lemma AllDistinct(h: History)
    requires Orders(h)
    ensures Distinct(h.triggered + Ids(h.q.pending))
    ensures h.drained + Ids(h.q.scheduled) == h.triggered
    ensures Distinct(h.drained + Ids(h.q.scheduled)) && Distinct(Ids(h.q.scheduled)) && Distinct(Ids(h.q.pending))
    ensures forall u | u in h.triggered + Ids(h.q.pending) :: u in h.submitted && u !in h.removed
  {
    WithoutMembers(h.submitted, h.removed);
    var k := EndCount(h.q.scheduled);
    IdsAppend(h.q.scheduled[..k], h.q.scheduled[k..]);
    assert h.q.scheduled == h.q.scheduled[..k] + h.q.scheduled[k..];
    NoDupSplit(h.triggered, Ids(h.q.pending));
    Regroup(h.drained, Ids(h.q.scheduled[..k]), Ids(h.q.scheduled[k..]));
    NoDupSplit(h.drained, Ids(h.q.scheduled));
  }

  // ---- Each section keeps the invariant

  lemma IdsAppend(a: seq<Job>, b: seq<Job>)
    ensures Ids(a + b) == Ids(a) + Ids(b)
  {
  }

  lemma IdsCons(j: Job, b: seq<Job>)
    ensures Ids([j] + b) == [j.uid] + Ids(b)
  {
  }

  lemma ScheduleShape(q: Queues, idle: bool)
    requires QueueShape(q) && CanTrigger(q, idle)
    ensures var q', k := SchedulePending(q, idle), EndCount(q.scheduled);
            && QueueShape(q') && EndCount(q'.scheduled) == k
            && Ids(q'.scheduled[..k]) == Ids(q.scheduled[..k])
            && Ids(q'.scheduled[k..]) == Ids(q.scheduled[k..]) + [q.pending[0].uid]
            && Ids(q.pending) == [q.pending[0].uid] + Ids(q'.pending)
  {
    var q', k := SchedulePending(q, idle), EndCount(q.scheduled);
    ScheduleKeepsShape(q, idle);
    AppendIds(q.scheduled, k, q.pending[0].(state := Sched));
    assert q.pending == [q.pending[0]] + q'.pending;
    IdsCons(q.pending[0], q'.pending);
  }

  lemma AppendIds(s: seq<Job>, k: nat, j: Job)
    requires k <= |s|
    ensures Ids((s + [j])[..k]) == Ids(s[..k])
    ensures Ids((s + [j])[k..]) == Ids(s[k..]) + [j.uid]
  {
    assert (s + [j])[..k] == s[..k];
    assert (s + [j])[k..] == s[k..] + [j];
    IdsAppend(s[k..], [j]);
    assert Ids([j]) == [j.uid];
  }

  lemma EndIds(s: seq<Job>, k: nat, j: Job)
    requires k < |s| && j.uid == s[k].uid
    ensures Ids(s[k := j][..k + 1]) == Ids(s[..k]) + [j.uid]
    ensures Ids(s[k..]) == [j.uid] + Ids(s[k := j][k + 1..])
  {
    assert s[k := j][..k + 1] == s[..k] + [j];
    IdsAppend(s[..k], [j]);
    assert Ids([j]) == [j.uid];
    assert s[k := j][k + 1..] == s[k + 1..];
    assert s[k..] == [s[k]] + s[k + 1..];
    IdsCons(s[k], s[k + 1..]);
  }

  lemma ScheduleKeepsShape(q: Queues, idle: bool)
    requires QueueShape(q) && CanTrigger(q, idle)
    ensures QueueShape(SchedulePending(q, idle))
    ensures EndCount(SchedulePending(q, idle).scheduled) == EndCount(q.scheduled)
  {
    var q', k := SchedulePending(q, idle), EndCount(q.scheduled);
    EndCountIs(q'.scheduled, k);
    assert forall j | j in q'.pending :: j in q.pending;
  }

  lemma ScheduleKeeps(h: History, h': History, idle: bool)
    requires Inv(h)
    requires h' == h.(q := SchedulePending(h.q, idle), triggered := h.triggered + NewlyTriggered(h.q, idle))
    ensures Inv(h')
  {
    if CanTrigger(h.q, idle) {
      ScheduleKeepsShape(h.q, idle);
      ScheduleOrders(h, h', idle);
      ScheduleFlags(h, h', idle);
      ScheduleWindow(h, h', idle);
    } else {
      assert h.triggered + [] == h.triggered;
      assert h' == h;
    }
  }

  lemma ScheduleOrders(h: History, h': History, idle: bool)
    requires QueueShape(h.q) && Orders(h) && CanTrigger(h.q, idle)
    requires h' == h.(q := SchedulePending(h.q, idle), triggered := h.triggered + NewlyTriggered(h.q, idle))
    ensures Orders(h')
  {
    ScheduleShape(h.q, idle);
    var k, u := EndCount(h.q.scheduled), [h.q.pending[0].uid];
    Regroup(h.triggered, u, Ids(h'.q.pending));
    Regroup(h.completed, Ids(h.q.scheduled[k..]), u);
  }

  lemma ScheduleWindow(h: History, h': History, idle: bool)
    requires WindowKept(h) && h' == h.(q := SchedulePending(h.q, idle), triggered := h'.triggered)
    ensures WindowKept(h')
  {
  }

  lemma ScheduleFlags(h: History, h': History, idle: bool)
    requires Inv(h) && CanTrigger(h.q, idle)
    requires h' == h.(q := SchedulePending(h.q, idle), triggered := h.triggered + NewlyTriggered(h.q, idle))
    ensures Flags(h')
  {
    var j := h.q.pending[0];
    AllDistinct(h);
    NoDupSplit(h.triggered, Ids(h.q.pending));
    assert Ids(h.q.pending)[0] == j.uid;
    assert j.uid !in h.invalidated;
    assert j in h.q.pending;
    assert forall x | x in h'.q.scheduled :: x in h.q.scheduled || x == j.(state := Sched);
  }

  lemma EnqueueKeeps(h: History, h': History, job: Job)
    requires Inv(h) && job.uid !in h.submitted && job.valid
    requires h' == h.(q := Enqueue(h.q, job), submitted := h.submitted + [job.uid])
    ensures Inv(h')
  {
    WithoutAppend(h.submitted, [job.uid], h.removed);
    assert Ids(h'.q.pending) == Ids(h.q.pending) + [job.uid];
    assert h.triggered + (Ids(h.q.pending) + [job.uid]) == h.triggered + Ids(h.q.pending) + [job.uid];
  }

  lemma CompleteShape(q: Queues, exception: int)
    requires QueueShape(q) && EndCount(q.scheduled) < |q.scheduled|
    ensures var q', k := Complete(q, exception), EndCount(q.scheduled);
            && HasSched(q.scheduled)
            && q'.scheduled == q.scheduled[k := q.scheduled[k].(state := End, exception := exception)]
            && q'.pending == q.pending
            && QueueShape(q') && EndCount(q'.scheduled) == k + 1
            && Ids(q'.scheduled[..k + 1]) == Ids(q.scheduled[..k]) + [q.scheduled[k].uid]
            && Ids(q.scheduled[k..]) == [q.scheduled[k].uid] + Ids(q'.scheduled[k + 1..])
  {
    var q', k := Complete(q, exception), EndCount(q.scheduled);
    CompleteKeepsShape(q, exception);
    EndIds(q.scheduled, k, q'.scheduled[k]);
  }

  lemma CompleteKeepsShape(q: Queues, exception: int)
    requires QueueShape(q) && EndCount(q.scheduled) < |q.scheduled|
    ensures var q', k := Complete(q, exception), EndCount(q.scheduled);
            && HasSched(q.scheduled)
            && q' == Queues(q.pending, q.scheduled[k := q.scheduled[k].(state := End, exception := exception)],
                            q.schedNum - 1, q.maxSched)
            && QueueShape(q') && EndCount(q'.scheduled) == k + 1
  {
    var q', k := Complete(q, exception), EndCount(q.scheduled);
    assert q.scheduled[k].state == Sched;
    EndFirstAt(q.scheduled, k, exception);
    EndCountIs(q'.scheduled, k + 1);
  }

  lemma CompleteOrders(h: History, h': History, exception: int)
    requires QueueShape(h.q) && Orders(h) && EndCount(h.q.scheduled) < |h.q.scheduled|
    requires h' == h.(q := Complete(h.q, exception), completed := h.completed + Completed(h.q))
    ensures Orders(h')
  {
    var s, k := h.q.scheduled, EndCount(h.q.scheduled);
    CompleteShape(h.q, exception);
    var s' := h'.q.scheduled;
    Regroup(h.completed, [s[k].uid], Ids(s'[k + 1..]));
    Regroup(h.drained, Ids(s[..k]), [s[k].uid]);
    assert Completed(h.q) == [s[k].uid];
  }

  lemma CompleteKeeps(h: History, h': History, exception: int)
    requires Inv(h)
    requires h' == h.(q := Complete(h.q, exception), completed := h.completed + Completed(h.q))
    ensures Inv(h')
  {
    if EndCount(h.q.scheduled) < |h.q.scheduled| {
      CompleteOrders(h, h', exception);
      CompleteFlags(h, h', exception);
      CompleteWindow(h, h', exception);
    } else {
      assert !HasSched(h.q.scheduled);
      assert h.completed + [] == h.completed;
      assert h' == h;
    }
  }

  lemma CompleteFlags(h: History, h': History, exception: int)
    requires QueueShape(h.q) && Flags(h) && EndCount(h.q.scheduled) < |h.q.scheduled|
    requires h' == h.(q := Complete(h.q, exception), completed := h'.completed)
    ensures QueueShape(h'.q) && Flags(h')
  {
    CompleteKeepsShape(h.q, exception);
    SameFlags(h, h');
  }

  lemma CompleteWindow(h: History, h': History, exception: int)
    requires QueueShape(h.q) && WindowKept(h) && EndCount(h.q.scheduled) < |h.q.scheduled|
    requires h' == h.(q := Complete(h.q, exception), completed := h'.completed)
    ensures WindowKept(h')
  {
    CompleteKeepsShape(h.q, exception);
  }

  lemma SameFlags(h: History, h': History)
    requires Flags(h)
    requires |h'.q.scheduled| == |h.q.scheduled|
    requires forall i | 0 <= i < |h.q.scheduled| ::
               h'.q.scheduled[i].uid == h.q.scheduled[i].uid && h'.q.scheduled[i].valid == h.q.scheduled[i].valid
    requires h'.invalidated == h.invalidated && h'.triggered == h.triggered
    requires h'.removed == h.removed && h'.submitted == h.submitted
    ensures Flags(h')
  {
    forall j | j in h'.q.scheduled
      ensures j.valid <==> j.uid !in h'.invalidated
    {
      var i :| 0 <= i < |h'.q.scheduled| && h'.q.scheduled[i] == j;
      assert h.q.scheduled[i] in h.q.scheduled;
    }
  }

  lemma RemoveMore(h: History, pending: seq<Job>, new_: set<nat>)
    requires Orders(h)
    requires forall u | u in new_ :: u in Ids(h.q.pending)
    requires Ids(pending) == Without(Ids(h.q.pending), new_)
    ensures h.triggered + Ids(pending) == Without(h.submitted, h.removed + new_)
  {
    AllDistinct(h);
    NoDupSplit(h.triggered, Ids(h.q.pending));
    WithoutTwice(h.submitted, h.removed, new_);
    WithoutAppend(h.triggered, Ids(h.q.pending), new_);
    WithoutAbsent(h.triggered, new_);
  }

  lemma InvalidateMore(h: History, new_: set<nat>)
    requires Orders(h)
    requires forall u | u in new_ :: u in Ids(h.q.scheduled)
    ensures h.delivered == Without(h.drained, h.invalidated + new_)
  {
    AllDistinct(h);
    NoDupSplit(h.drained, Ids(h.q.scheduled));
    WithoutTwice(h.drained, h.invalidated, new_);
    WithoutMembers(h.drained, h.invalidated);
    WithoutAbsent(h.delivered, new_);
  }

  lemma {:induction false} DropPending(q: seq<Job>, pid: int, x: set<nat>)
    requires forall j | j in q :: j.state == Pending && (j.uid in x <==> j.pid == pid)
    ensures Ids(DropPid(q, pid)) == Without(Ids(q), x)
    ensures forall j :: j in DropPid(q, pid) <==> j in q && j.pid != pid
  {
    if q != [] {
      var rest := q[1..];
      assert q[0] in q && forall j | j in rest :: j in q;
      DropPending(rest, pid, x);
      assert q == [q[0]] + rest;
      IdsCons(q[0], rest);
      assert Ids(q)[1..] == Ids(rest);
      assert forall j :: j in q <==> j == q[0] || j in rest;
      if q[0].pid != pid {
        IdsCons(q[0], DropPid(rest, pid));
      }
    }
  }

  /** With distinct identities, the set of identities selects exactly the jobs it was taken from. */
  lemma PidIdsExact(q: seq<Job>, pid: int, st: State)
    requires Distinct(Ids(q))
    ensures forall j | j in q :: j.uid in PidIds(q, pid, st) <==> j.pid == pid && j.state == st
  {
    forall j | j in q && j.uid in PidIds(q, pid, st)
      ensures j.pid == pid && j.state == st
    {
      var x :| x in q && x.pid == pid && x.state == st && x.uid == j.uid;
      SameUid(q, j, x);
    }
  }

  lemma SameUid(q: seq<Job>, j: Job, x: Job)
    requires Distinct(Ids(q)) && j in q && x in q && j.uid == x.uid
    ensures j == x
  {
    var i :| 0 <= i < |q| && q[i] == j;
    var n :| 0 <= n < |q| && q[n] == x;
    assert Ids(q)[i] == Ids(q)[n];
  }

  lemma {:induction false} DropScheduled(q: seq<Job>, pid: int)
    requires forall j | j in q :: j.state != Pending
    ensures |DropPid(q, pid)| == |q|
    ensures forall i | 0 <= i < |q| :: DropPid(q, pid)[i] == InvalidatePid(q[i], pid)
  {
    if q != [] {
      assert q[0] in q && forall j | j in q[1..] :: j in q;
      DropScheduled(q[1..], pid);
    }
  }

  /** Marking executing jobs invalid, given by a set of identities. */
  lemma MarkInvalidKeeps(h: History, h': History, s': seq<Job>, new_: set<nat>)
    requires Inv(h)
    requires |s'| == |h.q.scheduled|
    requires forall i | 0 <= i < |s'| ::
               var j := h.q.scheduled[i];
               s'[i] == if j.uid in new_ then j.(valid := false) else j
    requires forall i | 0 <= i < |s'| && h.q.scheduled[i].uid in new_ :: h.q.scheduled[i].state == Sched
    requires forall u | u in new_ :: u in Ids(h.q.scheduled)
    requires h' == h.(q := h.q.(scheduled := s'), invalidated := h.invalidated + new_)
    ensures Inv(h')
  {
    MarkInvalidShape(h.q, s', new_);
    InvalidateMore(h, new_);
    MarkInvalidFlags(h, h', new_);
    assert Orders(h');
  }

  lemma MarkInvalidShape(q: Queues, s': seq<Job>, new_: set<nat>)
    requires QueueShape(q) && |s'| == |q.scheduled|
    requires forall i | 0 <= i < |s'| ::
               var j := q.scheduled[i];
               s'[i] == if j.uid in new_ then j.(valid := false) else j
    ensures var k := EndCount(q.scheduled);
            && QueueShape(q.(scheduled := s')) && EndCount(s') == k
            && Ids(s'[..k]) == Ids(q.scheduled[..k]) && Ids(s'[k..]) == Ids(q.scheduled[k..])
  {
    var k := EndCount(q.scheduled);
    EndCountIs(s', k);
    assert forall i | 0 <= i < |s'| :: s'[i].uid == q.scheduled[i].uid;
    SameIds(s'[..k], q.scheduled[..k]);
    SameIds(s'[k..], q.scheduled[k..]);
  }

  lemma SameIds(a: seq<Job>, b: seq<Job>)
    requires |a| == |b| && forall i | 0 <= i < |a| :: a[i].uid == b[i].uid
    ensures Ids(a) == Ids(b)
  {
  }

  lemma MarkInvalidFlags(h: History, h': History, new_: set<nat>)
    requires Flags(h) && Orders(h)
    requires |h'.q.scheduled| == |h.q.scheduled|
    requires forall i | 0 <= i < |h.q.scheduled| ::
               var j := h.q.scheduled[i];
               h'.q.scheduled[i] == if j.uid in new_ then j.(valid := false) else j
    requires forall u | u in new_ :: u in Ids(h.q.scheduled)
    requires h' == h.(q := h'.q, invalidated := h.invalidated + new_)
    ensures Flags(h')
  {
    AllDistinct(h);
    assert forall u | u in Ids(h.q.scheduled) :: u in h.drained + Ids(h.q.scheduled);
    forall j | j in h'.q.scheduled
      ensures j.valid <==> j.uid !in h'.invalidated
    {
      var i :| 0 <= i < |h'.q.scheduled| && h'.q.scheduled[i] == j;
      assert h.q.scheduled[i] in h.q.scheduled;
    }
  }

  lemma CancelKeeps(h: History, h': History, pid: int)
    requires Inv(h) && h' == Next(h, CancelPid(pid))
    ensures Inv(h')
  {
    var mid := h.(q := h.q.(pending := DropPid(h.q.pending, pid)),
                  removed := h.removed + PidIds(h.q.pending, pid, Pending));
    CancelPending(h, mid, pid);
    CancelScheduled(mid, h', pid);
  }

  lemma CancelPending(h: History, h': History, pid: int)
    requires Inv(h)
    requires h' == h.(q := h.q.(pending := DropPid(h.q.pending, pid)),
                      removed := h.removed + PidIds(h.q.pending, pid, Pending))
    ensures Inv(h')
  {
    var p, x := h.q.pending, PidIds(h.q.pending, pid, Pending);
    AllDistinct(h);
    PidIdsExact(p, pid, Pending);
    PidIdsIn(p, pid, Pending);
    DropPending(p, pid, x);
    RemoveMore(h, DropPid(p, pid), x);
    PidsSubmitted(h, x);
  }

  lemma CancelScheduled(h: History, h': History, pid: int)
    requires Inv(h)
    requires h' == h.(q := h.q.(scheduled := DropPid(h.q.scheduled, pid)),
                      invalidated := h.invalidated + PidIds(h.q.scheduled, pid, Sched))
    ensures Inv(h')
  {
    var s := h.q.scheduled;
    AllDistinct(h);
    ShapeNotPending(h.q);
    CancelMarks(s, pid);
    MarkInvalidKeeps(h, h', DropPid(s, pid), PidIds(s, pid, Sched));
  }

  /** Cancelling marks exactly the executing jobs of the process. */
  lemma CancelMarks(s: seq<Job>, pid: int)
    requires Distinct(Ids(s)) && forall j | j in s :: j.state != Pending
    ensures var s', x := DropPid(s, pid), PidIds(s, pid, Sched);
            && |s'| == |s| && (forall u | u in x :: u in Ids(s))
            && (forall i | 0 <= i < |s| :: s'[i] == if s[i].uid in x then s[i].(valid := false) else s[i])
            && (forall i | 0 <= i < |s| && s[i].uid in x :: s[i].state == Sched)
  {
    DropScheduled(s, pid);
    PidIdsExact(s, pid, Sched);
    PidIdsIn(s, pid, Sched);
    assert forall i | 0 <= i < |s| :: s[i] in s;
  }

  lemma ShapeNotPending(q: Queues)
    requires QueueShape(q)
    ensures forall j | j in q.scheduled :: j.state != Pending
  {
    forall j | j in q.scheduled
      ensures j.state != Pending
    {
      var i :| 0 <= i < |q.scheduled| && q.scheduled[i] == j;
      assert i < EndCount(q.scheduled) || q.scheduled[i].state == Sched;
    }
  }

  lemma PidIdsIn(q: seq<Job>, pid: int, st: State)
    ensures forall u | u in PidIds(q, pid, st) :: u in Ids(q)
  {
    forall u | u in PidIds(q, pid, st)
      ensures u in Ids(q)
    {
      var j :| j in q && j.pid == pid && j.state == st && j.uid == u;
      var i :| 0 <= i < |q| && q[i] == j;
      assert Ids(q)[i] == u;
    }
  }

  lemma PidsSubmitted(h: History, new_: set<nat>)
    requires Orders(h) && forall u | u in new_ :: u in Ids(h.q.pending)
    ensures forall u | u in new_ :: u in h.submitted
  {
    AllDistinct(h);
    forall u | u in new_
      ensures u in h.submitted
    {
      assert u in h.triggered + Ids(h.q.pending);
    }
  }

  lemma OnlyAt(a: seq<nat>, u: nat, b: seq<nat>)
    requires Distinct(a + ([u] + b))
    ensures u !in a && u !in b
  {
    var s := a + ([u] + b);
    assert s[|a|] == u;
    assert forall n | 0 <= n < |a| :: s[n] == a[n];
    assert forall n | 0 <= n < |b| :: s[|a| + 1 + n] == b[n];
  }

  lemma {:induction false} WithoutOne(q: seq<Job>, i: nat)
    requires i < |q| && Distinct(Ids(q))
    ensures Ids(q[..i] + q[i + 1..]) == Without(Ids(q), {q[i].uid})
  {
    var a, b := Ids(q[..i]), Ids(q[i + 1..]);
    assert Ids(q) == a + ([q[i].uid] + b);
    assert Ids(q[..i] + q[i + 1..]) == a + b;
    OnlyAt(a, q[i].uid, b);
    WithoutAppend(a, [q[i].uid] + b, {q[i].uid});
    WithoutAbsent(a, {q[i].uid});
    WithoutAbsent(b, {q[i].uid});
    assert ([q[i].uid] + b)[1..] == b;
  }

  lemma KillPendingKeeps(h: History, h': History, i: nat)
    requires Inv(h) && i < |h.q.pending|
    requires h' == h.(q := h.q.(pending := h.q.pending[..i] + h.q.pending[i + 1..]),
                      removed := h.removed + {h.q.pending[i].uid})
    ensures Inv(h')
  {
    var p, x := h.q.pending, {h.q.pending[i].uid};
    AllDistinct(h);
    WithoutOne(p, i);
    assert Ids(p)[i] == p[i].uid;
    RemoveMore(h, h'.q.pending, x);
    PidsSubmitted(h, x);
    assert forall j | j in h'.q.pending :: j in p;
  }

  lemma KillScheduledKeeps(h: History, h': History, n: nat)
    requires Inv(h) && n < |h.q.scheduled| && h.q.scheduled[n].state == Sched
    requires h' == h.(q := h.q.(scheduled := h.q.scheduled[n := h.q.scheduled[n].(valid := false)]),
                      invalidated := h.invalidated + {h.q.scheduled[n].uid})
    ensures Inv(h')
  {
    var s := h.q.scheduled;
    AllDistinct(h);
    forall k | 0 <= k < |s| && s[k].uid == s[n].uid
      ensures k == n
    {
      assert Ids(s)[k] == Ids(s)[n];
    }
    assert Ids(s)[n] == s[n].uid;
    MarkInvalidKeeps(h, h', h'.q.scheduled, {s[n].uid});
  }

  lemma KillKeeps(h: History, h': History, thread: int, jobId: nat)
    requires Inv(h) && h' == Next(h, KillTimeout(thread, jobId))
    ensures Inv(h')
  {
    var p, s := h.q.pending, h.q.scheduled;
    var i, n := FirstMatch(p, thread, jobId), FirstMatch(s, thread, jobId);
    KillCases(h, h', thread, jobId);
    if i < |p| {
      KillPendingKeeps(h, h', i);
    } else if n < |s| && s[n].state == Sched {
      KillScheduledKeeps(h, h', n);
    }
  }

  /** What a kill does: drop a pending job, mark an executing one, or nothing. */
  lemma KillCases(h: History, h': History, thread: int, jobId: nat)
    requires QueueShape(h.q) && h' == Next(h, KillTimeout(thread, jobId))
    ensures var p, s := h.q.pending, h.q.scheduled;
            var i, n := FirstMatch(p, thread, jobId), FirstMatch(s, thread, jobId);
            if i < |p| then
              h' == h.(q := h.q.(pending := p[..i] + p[i + 1..]), removed := h.removed + {p[i].uid})
            else if n < |s| && s[n].state == Sched then
              h' == h.(q := h.q.(scheduled := s[n := s[n].(valid := false)]),
                       invalidated := h.invalidated + {s[n].uid})
            else h' == h
  {
    var p, s := h.q.pending, h.q.scheduled;
    var i, n := FirstMatch(p, thread, jobId), FirstMatch(s, thread, jobId);
    ShapeNotPending(h.q);
    assert i < |p| ==> p[i] in p;
    assert n < |s| ==> s[n] in s;
    assert h.invalidated + {} == h.invalidated && h.removed + {} == h.removed;
  }

  /** The invariant without the window clause: what holds inside a bottom-half section. */
  ghost predicate Section(h: History) {
    QueueShape(h.q) && Orders(h) && Flags(h)
  }

  lemma DeleteHeadShape(q: Queues)
    requires QueueShape(q) && q.scheduled != [] && q.scheduled[0].state == End
    ensures var q', k := q.(scheduled := q.scheduled[1..]), EndCount(q.scheduled);
            && QueueShape(q') && k > 0 && EndCount(q'.scheduled) == k - 1
            && Ids(q.scheduled[..k]) == [q.scheduled[0].uid] + Ids(q'.scheduled[..k - 1])
            && q'.scheduled[k - 1..] == q.scheduled[k..]
  {
    var q', k := q.(scheduled := q.scheduled[1..]), EndCount(q.scheduled);
    EndCountIs(q'.scheduled, k - 1);
  }

  /** Deleting the ended job at the head, reported or not. */
  lemma DeleteHeadKeeps(h: History, h': History)
    requires Section(h) && h.q.scheduled != [] && h.q.scheduled[0].state == End
    requires var j := h.q.scheduled[0];
             && h'.q == h.q.(scheduled := h.q.scheduled[1..])
             && h'.drained == h.drained + [j.uid]
             && h'.delivered == h.delivered + (if j.valid then [j.uid] else [])
             && h'.submitted == h.submitted && h'.removed == h.removed && h'.invalidated == h.invalidated
             && h'.triggered == h.triggered && h'.completed == h.completed
    ensures Section(h')
  {
    var s, s', k := h.q.scheduled, h'.q.scheduled, EndCount(h.q.scheduled);
    assert s[0] in s && forall j | j in s' :: j in s;
    DeleteHeadOrders(h, h');
    DeleteHeadShape(h.q);
  }

  lemma DeleteHeadOrders(h: History, h': History)
    requires QueueShape(h.q) && Orders(h) && h.q.scheduled != [] && h.q.scheduled[0].state == End
    requires h.q.scheduled[0].valid <==> h.q.scheduled[0].uid !in h.invalidated
    requires var j := h.q.scheduled[0];
             && h'.q == h.q.(scheduled := h.q.scheduled[1..])
             && h'.drained == h.drained + [j.uid]
             && h'.delivered == h.delivered + (if j.valid then [j.uid] else [])
             && h'.submitted == h.submitted && h'.removed == h.removed && h'.invalidated == h.invalidated
             && h'.triggered == h.triggered && h'.completed == h.completed
    ensures Orders(h')
  {
    var s, s', k := h.q.scheduled, h'.q.scheduled, EndCount(h.q.scheduled);
    DeleteHeadShape(h.q);
    Regroup(h.drained, [s[0].uid], Ids(s'[..k - 1]));
    WithoutAppend(h.drained, [s[0].uid], h.invalidated);
    assert h.delivered + [] == h.delivered;
  }

  lemma {:induction false} DrainPasses(q: seq<Job>, i: nat)
    requires i <= |q| && forall k | i <= k < |q| :: q[k].state != End
    ensures Drain(q, i) == (q, NotRunning) && Dropped(q, i) == []
    decreases |q| - i
  {
    if i < |q| {
      DrainPasses(q, i + 1);
    }
  }

  lemma {:induction false} DrainKeeps(h: History)
    requires Section(h)
    ensures Inv(AfterDrain(h))
    decreases |h.q.scheduled|
  {
    var s := h.q.scheduled;
    if s != [] && s[0].state == End && !s[0].valid {
      var mid := DropHead(h);
      DrainKeeps(mid);
    } else {
      DrainStopsKeeps(h);
    }
  }

  lemma DrainStopsKeeps(h: History)
    requires Section(h)
    requires h.q.scheduled == [] || h.q.scheduled[0].state != End || h.q.scheduled[0].valid
    ensures Inv(AfterDrain(h))
  {
    DrainStops(h.q);
    assert h.drained + [] == h.drained;
    assert AfterDrain(h) == h.(bh := AfterDrain(h).bh);
    OnlyWindowMoves(h, AfterDrain(h));
  }

  lemma OnlyWindowMoves(h: History, h': History)
    requires Section(h) && h' == h.(bh := h'.bh) && WindowKept(h')
    ensures Inv(h')
  {
  }

  lemma DrainStops(q: Queues)
    requires QueueShape(q)
    requires q.scheduled == [] || q.scheduled[0].state != End || q.scheduled[0].valid
    ensures Dropped(q.scheduled, 0) == [] && Drain(q.scheduled, 0).0 == q.scheduled
    ensures match Drain(q.scheduled, 0).1
            case NotRunning => true
            case Window(curr, next) =>
              && q.scheduled != [] && q.scheduled[0].uid == curr
              && q.scheduled[0].state == End && q.scheduled[0].valid
              && (next.Some? ==> |q.scheduled| > 1 && q.scheduled[1].uid == next.value)
  {
    if q.scheduled == [] || q.scheduled[0].state != End {
      assert EndCount(q.scheduled) == 0;
      DrainPasses(q.scheduled, 0);
    }
  }

  lemma DropHead(h: History) returns (mid: History)
    requires Section(h) && h.q.scheduled != []
    requires h.q.scheduled[0].state == End && !h.q.scheduled[0].valid
    ensures var s := h.q.scheduled;
            && mid == h.(q := h.q.(scheduled := s[1..]), drained := h.drained + [s[0].uid])
            && Section(mid) && AfterDrain(mid) == AfterDrain(h)
  {
    var s := h.q.scheduled;
    mid := h.(q := h.q.(scheduled := s[1..]), drained := h.drained + [s[0].uid]);
    assert h.delivered + [] == h.delivered;
    DeleteHeadKeeps(h, mid);
    assert s[..0] + s[1..] == s[1..];
    Regroup(h.drained, [s[0].uid], Dropped(s[1..], 0));
  }

  lemma ResumeKeeps(h: History, h': History)
    requires Inv(h) && h' == Next(h, BottomHalfResume)
    ensures Inv(h')
  {
    if h.bh.Window? {
      var mid := Reported(h);
      DeleteHeadKeeps(h, mid);
      ResumeFromReported(h, h');
      if h.bh.next != None {
        DrainKeeps(mid);
      }
    }
  }

  /** The reported job has left the queue and the section has not gone on yet. */
  ghost function Reported(h: History): History
    requires h.q.scheduled != [] && h.bh.Window?
  {
    h.(q := h.q.(scheduled := h.q.scheduled[1..]), bh := NotRunning,
       drained := h.drained + [h.bh.curr], delivered := h.delivered + [h.bh.curr])
  }

  /** The saved successor is the new head, so the section goes on from the head of the queue. */
  lemma ResumeFromReported(h: History, h': History)
    requires WindowKept(h) && h.bh.Window? && h' == Next(h, BottomHalfResume)
    ensures h' == if h.bh.next == None then Reported(h) else AfterDrain(Reported(h))
  {
    DeleteHead(h.q.scheduled);
    if h.bh.next == None {
      assert h.drained + [h.bh.curr] + [] == h.drained + [h.bh.curr];
    } else {
      HeadIndex(h.q.scheduled[1..]);
    }
  }

  lemma HeadIndex(s: seq<Job>)
    requires s != []
    ensures IndexOfUid(s, s[0].uid) == 0
  {
  }

  lemma DeleteHead(s: seq<Job>)
    requires s != []
    ensures Delete(s, s[0].uid) == s[1..]
  {
    HeadIndex(s);
    assert s[..0] + s[1..] == s[1..];
  }

  lemma StepKeepsInv(h: History, ev: Event)
    requires Inv(h) && Allowed(h, ev)
    ensures Inv(Next(h, ev))
  {
    match ev {
      case SubmitJob(job, idle) =>
        var mid := h.(q := Enqueue(h.q, job), submitted := h.submitted + [job.uid]);
        EnqueueKeeps(h, mid, job);
        ScheduleKeeps(mid, Next(h, ev), idle);
      case CompletionIrq(exception, idle) =>
        var mid := h.(q := Complete(h.q, exception), completed := h.completed + Completed(h.q));
        CompleteKeeps(h, mid, exception);
        ScheduleKeeps(mid, Next(h, ev), idle);
      case CancelPid(pid) =>
        CancelKeeps(h, Next(h, ev), pid);
      case KillTimeout(thread, jobId) =>
        KillKeeps(h, Next(h, ev), thread, jobId);
      case BottomHalfStart =>
        if h.bh == NotRunning {
          DrainKeeps(h);
        }
      case BottomHalfResume =>
        ResumeKeeps(h, Next(h, ev));
    }
  }
}
