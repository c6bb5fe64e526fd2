/** The job manager: a pending queue, a scheduled queue, and the sections that run under its
    lock. Each section is a function of the queues; the class methods implement them. */
module JobManagers {
  import opened Regions
  import opened Sessions

  datatype State = Pending | Sched | End

  /** `uid` stands for the identity of the job object, `pid` for its session's process. */
  datatype Job = Job(uid: nat, pid: int, thread: int, jobId: nat, state: State, exception: int, valid: bool)

  datatype Queues = Queues(pending: seq<Job>, scheduled: seq<Job>, schedNum: int, maxSched: int)

  /** Where the bottom half stands: not running, or unlocked while it reports the job
      `curr`, with the successor it saved before unlocking. */
  datatype BottomHalf = NotRunning | Window(curr: nat, next: Option<nat>)

  // ---- Scheduling

  predicate CanTrigger(s: Queues, idle: bool) {
    s.pending != [] && s.schedNum < s.maxSched && idle
  }

  function SchedulePending(s: Queues, idle: bool): Queues {
    if CanTrigger(s, idle) then
      Queues(s.pending[1..], s.scheduled + [s.pending[0].(state := Sched)], s.schedNum + 1, s.maxSched)
    else s
  }

  /** The job a scheduling attempt hands to the hardware, if any. */
  function Triggered(s: Queues, idle: bool): Option<Job> {
    if CanTrigger(s, idle) then Some(s.pending[0]) else None
  }

  function Enqueue(s: Queues, job: Job): Queues {
    s.(pending := s.pending + [job.(state := Pending)])
  }

  function Submit(s: Queues, job: Job, idle: bool): Queues {
    SchedulePending(Enqueue(s, job), idle)
  }

  // ---- Completion interrupt, upper half

  predicate HasSched(q: seq<Job>) {
    exists i :: 0 <= i < |q| && q[i].state == Sched
  }

  /** The queue with its first executing job ended. */
  function EndFirst(q: seq<Job>, exception: int): seq<Job> {
    if q == [] then []
    else if q[0].state == Sched then [q[0].(state := End, exception := exception)] + q[1..]
    else [q[0]] + EndFirst(q[1..], exception)
  }

  function Complete(s: Queues, exception: int): Queues {
    if HasSched(s.scheduled) then
      s.(scheduled := EndFirst(s.scheduled, exception),
         schedNum := if s.schedNum != 0 then s.schedNum - 1 else 0)
    else s
  }

  function Interrupt(s: Queues, exception: int, idle: bool): Queues {
    SchedulePending(Complete(s, exception), idle)
  }

  // ---- Invalidation

  /** Pending jobs of the process are dropped from the queue. */
  function DropPid(q: seq<Job>, pid: int): seq<Job> {
    if q == [] then []
    else if q[0].pid == pid && q[0].state == Pending then DropPid(q[1..], pid)
    else [InvalidatePid(q[0], pid)] + DropPid(q[1..], pid)
  }

  /** Executing jobs of the process run on, but are no longer to be reported. */
  function InvalidatePid(j: Job, pid: int): Job {
    if j.pid == pid && j.state == Sched then j.(valid := false) else j
  }

  function Cancel(s: Queues, pid: int): Queues {
    s.(pending := DropPid(s.pending, pid), scheduled := DropPid(s.scheduled, pid))
  }

  predicate Matches(j: Job, thread: int, jobId: nat) {
    j.thread == thread && j.jobId == jobId
  }

  /** Index of the first job of that thread and id, or the length of the queue. */
  function FirstMatch(q: seq<Job>, thread: int, jobId: nat): (i: nat)
    ensures i <= |q|
    ensures i < |q| ==> q[i].thread == thread && q[i].jobId == jobId
    ensures forall k | 0 <= k < i :: q[k].thread != thread || q[k].jobId != jobId
  {
    if q == [] || Matches(q[0], thread, jobId) then 0
    else 1 + FirstMatch(q[1..], thread, jobId)
  }

  /** What invalidating the job at `i` makes of a queue; an ended job is refused. */
  function InvalidateAt(q: seq<Job>, i: nat): (int, seq<Job>)
    requires i < |q|
  {
    match q[i].state
    case Sched => (0, q[i := q[i].(valid := false)])
    case Pending => (0, q[..i] + q[i + 1..])
    case End => (EINVAL, q)
  }

  function InvalidateFirst(q: seq<Job>, thread: int, jobId: nat): (int, seq<Job>) {
    var i := FirstMatch(q, thread, jobId);
    if i < |q| then InvalidateAt(q, i) else (EINVAL, q)
  }

  function Kill(s: Queues, thread: int, jobId: nat): (int, Queues) {
    var (r, p) := InvalidateFirst(s.pending, thread, jobId);
    if r == 0 then (0, s.(pending := p))
    else
      var (r', q) := InvalidateFirst(s.scheduled, thread, jobId);
      (r', s.(pending := p, scheduled := q))
  }

  // ---- Bottom half

  /** One lock-held section of the bottom half with its cursor at index `i`: jobs that are
      not ended are passed, ended jobs nobody waits for are deleted, and the first ended job
      to be reported stops the section, with its successor saved. */
  function Drain(q: seq<Job>, i: nat): (seq<Job>, BottomHalf)
    requires i <= |q|
    decreases |q| - i
  {
    if i == |q| then (q, NotRunning)
    else if q[i].state != End then Drain(q, i + 1)
    else if q[i].valid then (q, Window(q[i].uid, if i + 1 < |q| then Some(q[i + 1].uid) else None))
    else Drain(q[..i] + q[i + 1..], i)
  }

  function IndexOfUid(q: seq<Job>, uid: nat): (i: nat)
    ensures i <= |q|
    ensures i < |q| ==> q[i].uid == uid
    ensures forall k | 0 <= k < i :: q[k].uid != uid
  {
    if q == [] || q[0].uid == uid then 0 else 1 + IndexOfUid(q[1..], uid)
  }

  function Delete(q: seq<Job>, uid: nat): seq<Job> {
    var i := IndexOfUid(q, uid);
    if i < |q| then q[..i] + q[i + 1..] else q
  }

  /** After the window: the reported job is deleted and the cursor moves to the successor
      that was saved before the window. */
  function Resume(q: seq<Job>, bh: BottomHalf): (seq<Job>, BottomHalf)
    requires bh.Window?
  {
    var rest := Delete(q, bh.curr);
    if bh.next == None then (rest, NotRunning) else Drain(rest, IndexOfUid(rest, bh.next.value))
  }

  // ---- The methods

  class JobManager {
    var pending: seq<Job>
    var scheduled: seq<Job>
    var schedNum: int
    const maxSched: int

    ghost function Current(): Queues
      reads this
    {
      Queues(pending, scheduled, schedNum, maxSched)
    }

    constructor (maxSched: int)
      ensures Current() == Queues([], [], 0, maxSched)
    {
      pending, scheduled, schedNum := [], [], 0;
      this.maxSched := maxSched;
    }

    /** `idle` is what the hardware's status register says at this point. */
    method SchedulePendingNoLock(idle: bool) returns (triggered: Option<Job>)
      modifies this
      ensures Current() == SchedulePending(old(Current()), idle)
      ensures triggered == Triggered(old(Current()), idle)
      ensures |scheduled| == |old(scheduled)| + (if triggered.Some? then 1 else 0)
      ensures triggered.Some? ==> scheduled[|scheduled| - 1] == triggered.value.(state := Sched)
    {
      triggered := None;
      if |pending| != 0 && schedNum < maxSched && idle {
        var curr := pending[0];
        triggered := Some(curr);
        pending := pending[1..];
        scheduled := scheduled + [curr.(state := Sched)];
        schedNum := schedNum + 1;
      }
    }

    method ScheduleNewJob(job: Job, idle: bool) returns (triggered: Option<Job>)
      modifies this
      ensures Current() == Submit(old(Current()), job, idle)
      ensures triggered == Triggered(Enqueue(old(Current()), job), idle)
      ensures |scheduled| == |old(scheduled)| + (if triggered.Some? then 1 else 0)
      ensures triggered.Some? ==> scheduled[|scheduled| - 1] == triggered.value.(state := Sched)
    {
      pending := pending + [job.(state := Pending)];
      triggered := SchedulePendingNoLock(idle);
    }

    method UpdateJobState(exception: int, idle: bool) returns (triggered: Option<Job>)
      modifies this
      ensures Current() == Interrupt(old(Current()), exception, idle)
      ensures triggered == Triggered(Complete(old(Current()), exception), idle)
      ensures |scheduled| == |old(scheduled)| + (if triggered.Some? then 1 else 0)
      ensures triggered.Some? ==> scheduled[|scheduled| - 1] == triggered.value.(state := Sched)
    {
      var i := 0;
      while i < |scheduled|
        invariant 0 <= i <= |scheduled|
        invariant Current() == old(Current())
        invariant forall k | 0 <= k < i :: scheduled[k].state != Sched
      {
        if scheduled[i].state == Sched {
          EndFirstAt(scheduled, i, exception);
          scheduled := scheduled[i := scheduled[i].(state := End, exception := exception)];
          if schedNum != 0 {
            schedNum := schedNum - 1;
          }
          break;
        }
        i := i + 1;
      }
      assert Current() == Complete(old(Current()), exception);
      triggered := SchedulePendingNoLock(idle);
    }

    method CancelSessionJobs(pid: int)
      modifies this
      ensures Current() == Cancel(old(Current()), pid)
    {
      pending := InvalidateCanceled(pending, pid);
      scheduled := InvalidateCanceled(scheduled, pid);
    }

    method InvalidateCanceled(q: seq<Job>, pid: int) returns (r: seq<Job>)
      ensures r == DropPid(q, pid)
    {
      r := q;
      var i, done := 0, 0;
      assert r[..0] == DropPid(q[..0], pid);
      while i < |r|
        invariant 0 <= i <= |r| && 0 <= done <= |q|
        invariant r[..i] == DropPid(q[..done], pid)
        invariant r[i..] == q[done..]
        decreases |r| - i
      {
        DropPidAppend(q[..done], q[done], pid);
        assert q[..done] + [q[done]] == q[..done + 1];
        assert r[i] == r[i..][0];
        if r[i].pid == pid && r[i].state == Pending {
          r := r[..i] + r[i + 1..];
        } else {
          if r[i].pid == pid && r[i].state == Sched {
            r := r[i := r[i].(valid := false)];
          }
          i := i + 1;
        }
        done := done + 1;
      }
      assert q[..done] == q;
    }

    method InvalidateTimeoutJob(thread: int, jobId: nat) returns (ret: int)
      modifies this
      ensures (ret, Current()) == Kill(old(Current()), thread, jobId)
    {
      ret, pending := InvalidateTimeout(pending, thread, jobId);
      if ret != 0 {
        ret, scheduled := InvalidateTimeout(scheduled, thread, jobId);
      }
    }

    method InvalidateTimeout(q: seq<Job>, thread: int, jobId: nat) returns (ret: int, r: seq<Job>)
      ensures (ret, r) == InvalidateFirst(q, thread, jobId)
    {
      for i := 0 to |q|
        invariant forall k | 0 <= k < i :: !Matches(q[k], thread, jobId)
      {
        if q[i].thread == thread && q[i].jobId == jobId {
          assert FirstMatch(q, thread, jobId) == i;
          match q[i].state {
            case Sched => return 0, q[i := q[i].(valid := false)];
            case Pending => return 0, q[..i] + q[i + 1..];
            case End => return EINVAL, q;
          }
        }
      }
      return EINVAL, q;
    }

    /** The lock-held part of the bottom half from the cursor to the next unlock. */
    method DrainFrom(start: nat) returns (bh: BottomHalf)
      requires start <= |scheduled|
      modifies this`scheduled
      ensures (scheduled, bh) == Drain(old(scheduled), start)
    {
      var i := start;
      while i < |scheduled|
        invariant 0 <= i <= |scheduled|
        invariant Drain(scheduled, i) == Drain(old(scheduled), start)
        decreases |scheduled| - i
      {
        if scheduled[i].state != End {
          i := i + 1;
        } else if scheduled[i].valid {
          return Window(scheduled[i].uid, if i + 1 < |scheduled| then Some(scheduled[i + 1].uid) else None);
        } else {
          scheduled := scheduled[..i] + scheduled[i + 1..];
        }
      }
      bh := NotRunning;
    }

    method BottomHalfStart() returns (bh: BottomHalf)
      modifies this`scheduled
      ensures (scheduled, bh) == Drain(old(scheduled), 0)
    {
      bh := DrainFrom(0);
    }

    /** Runs after the job of the window has been reported and the lock is held again. */
    method BottomHalfResume(w: BottomHalf) returns (bh: BottomHalf)
      requires w.Window?
      modifies this`scheduled
      ensures (scheduled, bh) == Resume(old(scheduled), w)
    {
      var i := IndexOfUid(scheduled, w.curr);
      if i < |scheduled| {
        scheduled := scheduled[..i] + scheduled[i + 1..];
      }
      if w.next == None {
        return NotRunning;
      }
      bh := DrainFrom(IndexOfUid(scheduled, w.next.value));
    }
  }

  lemma {:induction false} EndFirstAt(q: seq<Job>, i: nat, exception: int)
    requires i < |q| && q[i].state == Sched && forall k | 0 <= k < i :: q[k].state != Sched
    ensures EndFirst(q, exception) == q[i := q[i].(state := End, exception := exception)]
  {
    if i > 0 {
      EndFirstAt(q[1..], i - 1, exception);
    }
  }

  lemma {:induction false} DropPidAppend(a: seq<Job>, j: Job, pid: int)
    ensures DropPid(a + [j], pid) ==
            DropPid(a, pid) + (if j.pid == pid && j.state == Pending then [] else [InvalidatePid(j, pid)])
  {
    if a == [] {
      assert a + [j] == [j];
    } else {
      assert (a + [j])[1..] == a[1..] + [j];
      DropPidAppend(a[1..], j, pid);
    }
  }
}
