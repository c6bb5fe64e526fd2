/** A session: the buffers and jobs of one open device file. */
module Sessions {
  import opened Sequences
  import opened Blocks
  import opened Regions

  const ENOENT: int := -2

  datatype Option<T> = None | Some(value: T)

  datatype JobState = Waiting | Ended

  const NO_EXCEPTION: int := 0
  const STATE_DONE: nat := 1
  const STATE_EXCEPTION: nat := 2

  /** A job as its session sees it; `uid` stands for the identity of the job object. */
  datatype SessionJob = SessionJob(uid: nat, jobId: nat, thread: int, state: JobState, exceptionType: int)

  datatype JobStatus = JobStatus(jobId: nat, threadId: int, state: nat)

  datatype StatusQuery = StatusQuery(maxCnt: nat, single: bool, jobId: nat)

  function Ranges(bufs: seq<Buffer>): set<Extent> {
    set b | b in bufs :: b.Range()
  }

  ghost predicate DistinctRanges(bufs: seq<Buffer>) {
    forall i, j | 0 <= i < j < |bufs| :: bufs[i].Range() != bufs[j].Range()
  }

  /** The list without the first buffer of that address and size. */
  function RemoveFirst(bufs: seq<Buffer>, d: Extent): seq<Buffer> {
    if bufs == [] then []
    else if bufs[0].Range() == d then bufs[1..]
    else [bufs[0]] + RemoveFirst(bufs[1..], d)
  }

  lemma {:induction false} RemoveFirstAt(bufs: seq<Buffer>, i: nat, d: Extent)
    requires i < |bufs| && bufs[i].Range() == d && forall j | 0 <= j < i :: bufs[j].Range() != d
    ensures RemoveFirst(bufs, d) == bufs[..i] + bufs[i + 1..]
  {
    if i > 0 {
      RemoveFirstAt(bufs[1..], i - 1, d);
      assert bufs[1..][..i - 1] == bufs[1..i];
      assert [bufs[0]] + bufs[1..i] == bufs[..i];
      assert bufs[1..][i..] == bufs[i + 1..];
    }
  }

  lemma {:induction false} RemoveFirstAbsent(bufs: seq<Buffer>, d: Extent)
    requires d !in Ranges(bufs)
    ensures RemoveFirst(bufs, d) == bufs
  {
    if bufs != [] {
      assert bufs[0] in bufs;
      RemoveFirstAbsent(bufs[1..], d);
    }
  }

  /** With distinct ranges, detaching removes exactly the named buffer. */
  lemma {:induction false} RemoveFirstRanges(bufs: seq<Buffer>, d: Extent)
    requires DistinctRanges(bufs)
    ensures Ranges(RemoveFirst(bufs, d)) == Ranges(bufs) - {d}
    ensures DistinctRanges(RemoveFirst(bufs, d))
  {
    if d in Ranges(bufs) {
      var i := IndexOf(bufs, d);
      RemoveFirstAt(bufs, i, d);
      var rest := bufs[..i] + bufs[i + 1..];
      RestIsDistinct(bufs, i);
      RestRanges(bufs, i);
    } else {
      RemoveFirstAbsent(bufs, d);
    }
  }

  lemma RestIsDistinct(bufs: seq<Buffer>, i: nat)
    requires DistinctRanges(bufs) && i < |bufs|
    ensures DistinctRanges(bufs[..i] + bufs[i + 1..])
  {
    var rest := bufs[..i] + bufs[i + 1..];
    assert forall k | 0 <= k < |rest| :: rest[k] == bufs[if k < i then k else k + 1];
  }

  lemma RestRanges(bufs: seq<Buffer>, i: nat)
    requires DistinctRanges(bufs) && i < |bufs|
    ensures Ranges(bufs[..i] + bufs[i + 1..]) == Ranges(bufs) - {bufs[i].Range()}
  {
    var rest := bufs[..i] + bufs[i + 1..];
    forall e | e in Ranges(bufs) && e != bufs[i].Range()
      ensures e in Ranges(rest)
    {
      var k :| 0 <= k < |bufs| && bufs[k].Range() == e;
      assert rest[if k < i then k else k - 1] == bufs[k];
    }
    forall e | e in Ranges(rest)
      ensures e in Ranges(bufs) && e != bufs[i].Range()
    {
      var k :| 0 <= k < |rest| && rest[k].Range() == e;
      assert rest[k] == bufs[if k < i then k else k + 1];
    }
  }

  lemma IndexOf(bufs: seq<Buffer>, d: Extent) returns (i: nat)
    requires d in Ranges(bufs)
    ensures i < |bufs| && bufs[i].Range() == d && forall j | 0 <= j < i :: bufs[j].Range() != d
  {
    if bufs[0].Range() == d {
      i := 0;
    } else {
      var b :| b in bufs && b.Range() == d;
      assert b in bufs[1..];
      i := IndexOf(bufs[1..], d);
      i := i + 1;
      assert forall j | 0 <= j < |bufs| - 1 :: bufs[1..][j] == bufs[j + 1];
    }
  }

  // ---- Job status queries

  predicate Wanted(j: SessionJob, q: StatusQuery) {
    j.state == Ended && (q.single ==> j.jobId == q.jobId)
  }

  function Capacity(q: StatusQuery): nat {
    if q.single then 1 else q.maxCnt
  }

  /** The first `cap` wanted jobs of the list, and what stays behind. */
  function TakeWanted(jobs: seq<SessionJob>, q: StatusQuery, cap: nat): (seq<SessionJob>, seq<SessionJob>) {
    if jobs == [] || cap == 0 then ([], jobs)
    else if Wanted(jobs[0], q) then
      var (taken, kept) := TakeWanted(jobs[1..], q, cap - 1);
      ([jobs[0]] + taken, kept)
    else
      var (taken, kept) := TakeWanted(jobs[1..], q, cap);
      (taken, [jobs[0]] + kept)
  }

  /** `s` is a shuffle of `a` and `b` that keeps the order inside each of them. */
  ghost predicate Shuffles<T>(s: seq<T>, a: seq<T>, b: seq<T>) {
    if s == [] then a == [] && b == []
    else
      || (a != [] && a[0] == s[0] && Shuffles(s[1..], a[1..], b))
      || (b != [] && b[0] == s[0] && Shuffles(s[1..], a, b[1..]))
  }

  /** A query splits the job list into the returned jobs and the rest, both in list order;
      it returns only ended jobs that were asked for, at most `cap` of them, and leaves one
      behind only when it returned `cap`. */
  lemma {:induction false} QueryPartitions(jobs: seq<SessionJob>, q: StatusQuery, cap: nat)
    ensures var (taken, kept) := TakeWanted(jobs, q, cap);
            && Shuffles(jobs, taken, kept)
            && (forall j | j in taken :: j.state == Ended && (q.single ==> j.jobId == q.jobId))
            && |taken| <= cap
            && (|taken| < cap ==> forall j | j in kept :: j.state == Waiting || (q.single && j.jobId != q.jobId))
  {
    if jobs == [] || cap == 0 {
      AllKept(jobs);
    } else if Wanted(jobs[0], q) {
      QueryPartitions(jobs[1..], q, cap - 1);
    } else {
      QueryPartitions(jobs[1..], q, cap);
    }
  }

  lemma {:induction false} AllKept<T>(s: seq<T>)
    ensures Shuffles(s, [], s)
  {
    if s != [] {
      AllKept(s[1..]);
    }
  }

  function StatusOf(j: SessionJob, pid: int): JobStatus {
    JobStatus(j.jobId, pid, if j.exceptionType == NO_EXCEPTION then STATE_DONE else STATE_EXCEPTION)
  }

  function Statuses(jobs: seq<SessionJob>, pid: int): (s: seq<JobStatus>)
    ensures |s| == |jobs|
  {
    seq(|jobs|, i requires 0 <= i < |jobs| => StatusOf(jobs[i], pid))
  }

  lemma StatusesAppend(jobs: seq<SessionJob>, j: SessionJob, pid: int)
    ensures Statuses(jobs + [j], pid) == Statuses(jobs, pid) + [StatusOf(j, pid)]
  {
  }

  function MarkDone(jobs: seq<SessionJob>, uid: nat): seq<SessionJob> {
    if jobs == [] then []
    else [if jobs[0].uid == uid then jobs[0].(state := Ended, exceptionType := NO_EXCEPTION) else jobs[0]]
         + MarkDone(jobs[1..], uid)
  }

  /** Exactly the job object of that identity ends, without an exception. */
  lemma {:induction false} MarkDoneExact(jobs: seq<SessionJob>, uid: nat)
    ensures var r := MarkDone(jobs, uid);
            && |r| == |jobs|
            && forall i | 0 <= i < |jobs| ::
              var j := jobs[i];
              r[i] == if j.uid == uid then SessionJob(uid, j.jobId, j.thread, Ended, 0) else j
  {
    if jobs != [] {
      MarkDoneExact(jobs[1..], uid);
      assert forall i | 0 < i < |jobs| :: MarkDone(jobs, uid)[i] == MarkDone(jobs[1..], uid)[i - 1];
    }
  }

  lemma {:induction false} MarkDoneAppend(a: seq<SessionJob>, j: SessionJob, uid: nat)
    ensures MarkDone(a + [j], uid) == MarkDone(a, uid) + MarkDone([j], uid)
  {
    if a == [] {
      assert a + [j] == [j];
    } else {
      assert (a + [j])[1..] == a[1..] + [j];
      MarkDoneAppend(a[1..], j, uid);
    }
  }

  lemma TakeWantedStep(taken: seq<SessionJob>, kept: seq<SessionJob>, jobs: seq<SessionJob>,
                       q: StatusQuery, cap: nat, i: nat)
    requires i < |jobs| && |taken| < cap
    requires TakeWanted(jobs, q, cap) ==
             (taken + TakeWanted(jobs[i..], q, cap - |taken|).0, kept + TakeWanted(jobs[i..], q, cap - |taken|).1)
    ensures Wanted(jobs[i], q) ==>
              var rest := TakeWanted(jobs[i + 1..], q, cap - |taken| - 1);
              TakeWanted(jobs, q, cap) == (taken + [jobs[i]] + rest.0, kept + rest.1)
    ensures !Wanted(jobs[i], q) ==>
              var rest := TakeWanted(jobs[i + 1..], q, cap - |taken|);
              TakeWanted(jobs, q, cap) == (taken + rest.0, kept + [jobs[i]] + rest.1)
  {
    assert jobs[i..][1..] == jobs[i + 1..];
    var rest := TakeWanted(jobs[i + 1..], q, cap - |taken| - (if Wanted(jobs[i], q) then 1 else 0));
    assert taken + ([jobs[i]] + rest.0) == taken + [jobs[i]] + rest.0;
    assert kept + ([jobs[i]] + rest.1) == kept + [jobs[i]] + rest.1;
  }

  class Session {
    const pid: int
    var bufs: seq<Buffer>
    var jobs: seq<SessionJob>

    constructor (pid: int)
      ensures bufs == [] && jobs == [] && this.pid == pid
    {
      this.pid := pid;
      bufs, jobs := [], [];
    }

    method AddBuf(buf: Buffer)
      modifies this`bufs
      ensures bufs == [buf] + old(bufs)
    {
      bufs := [buf] + bufs;
    }

    method DetachBuf(d: Extent) returns (ret: int)
      modifies this`bufs
      ensures d in Ranges(old(bufs)) ==> ret == 0 && bufs == RemoveFirst(old(bufs), d)
      ensures d !in Ranges(old(bufs)) ==> ret == ENOENT && bufs == old(bufs)
    {
      for i := 0 to |bufs|
        invariant bufs == old(bufs)
        invariant forall j | 0 <= j < i :: bufs[j].Range() != d
      {
        if bufs[i].pa == d.pa && bufs[i].bytes == d.bytes {
          RemoveFirstAt(bufs, i, d);
          assert bufs[i] in bufs;
          bufs := bufs[..i] + bufs[i + 1..];
          return 0;
        }
      }
      ret := ENOENT;
    }

    method BufHead() returns (b: Option<Buffer>)
      ensures bufs == [] ==> b == None
      ensures bufs != [] ==> b == Some(bufs[0])
    {
      b := if |bufs| == 0 then None else Some(bufs[0]);
    }

    method AddJob(uid: nat, jobId: nat, thread: int) returns (job: SessionJob)
      modifies this`jobs
      ensures job == SessionJob(uid, jobId, thread, Waiting, NO_EXCEPTION)
      ensures jobs == [job] + old(jobs)
    {
      job := SessionJob(uid, jobId, thread, Waiting, NO_EXCEPTION);
      jobs := [job] + jobs;
    }

    /** Called by the bottom half with the job object it has just seen complete. */
    method JobDone(uid: nat)
      modifies this`jobs
      ensures jobs == MarkDone(old(jobs), uid)
    {
      ghost var all := jobs;
      for i := 0 to |jobs|
        invariant |jobs| == |all| && forall k | i <= k < |all| :: jobs[k] == all[k]
        invariant jobs[..i] == MarkDone(all[..i], uid)
      {
        assert all[..i + 1] == all[..i] + [all[i]];
        MarkDoneAppend(all[..i], all[i], uid);
        ghost var before := jobs[..i];
        if jobs[i].uid == uid {
          jobs := jobs[i := jobs[i].(state := Ended, exceptionType := NO_EXCEPTION)];
        }
        assert jobs[..i + 1] == before + [jobs[i]];
      }
      assert jobs[..|jobs|] == jobs && all[..|all|] == all;
    }

    method DeleteJobs()
      modifies this`jobs
      ensures jobs == []
    {
      while |jobs| > 0
      {
        jobs := jobs[1..];
      }
    }

    method FillStatus(status: array<JobStatus>, i: nat, j: SessionJob)
      requires i < status.Length
      modifies status
      ensures status[..i + 1] == old(status[..i]) + [StatusOf(j, pid)]
    {
      status[i] := StatusOf(j, pid);
    }

    /** Reports ended jobs to user space and forgets them. */
    method GetJobStatus(q: StatusQuery) returns (ret: int, status: array<JobStatus>, pollCnt: nat)
      modifies this`jobs
      ensures q.maxCnt < 1 ==> ret == EINVAL && jobs == old(jobs) && pollCnt == 0
      ensures q.maxCnt >= 1 ==>
                var (taken, kept) := TakeWanted(old(jobs), q, Capacity(q));
                && pollCnt == |taken| && jobs == kept
                && ret == (if taken == [] then ENOENT else 0)
                && status.Length == Capacity(q) && fresh(status)
                && pollCnt <= status.Length && status[..pollCnt] == Statuses(taken, pid)
    {
      pollCnt := 0;
      if q.maxCnt < 1 {
        status := new JobStatus[0];
        return EINVAL, status, 0;
      }
      var cap := Capacity(q);
      status := new JobStatus[cap](_ => JobStatus(0, 0, 0));
      var all := jobs;
      var kept: seq<SessionJob> := [];
      ghost var taken: seq<SessionJob> := [];
      var i := 0;
      ghost var whole := TakeWanted(all, q, cap);
      assert all[0..] == all && [] + whole.0 == whole.0 && [] + whole.1 == whole.1;
      while i < |all| && pollCnt != q.maxCnt && !(q.single && pollCnt == 1)
        invariant 0 <= i <= |all| && jobs == old(jobs)
        invariant pollCnt == |taken| <= cap
        invariant status[..pollCnt] == Statuses(taken, pid)
        invariant TakeWanted(all, q, cap) ==
                  (taken + TakeWanted(all[i..], q, cap - |taken|).0, kept + TakeWanted(all[i..], q, cap - |taken|).1)
      {
        TakeWantedStep(taken, kept, all, q, cap, i);
        if Wanted(all[i], q) {
          FillStatus(status, pollCnt, all[i]);
          StatusesAppend(taken, all[i], pid);
          taken := taken + [all[i]];
          pollCnt := pollCnt + 1;
        } else {
          kept := kept + [all[i]];
        }
        i := i + 1;
      }
      jobs := kept + all[i..];
      ret := if pollCnt == 0 then ENOENT else 0;
    }
  }

  // ---- Whole runs of one session's job list

  datatype JobLog = JobLog(jobs: seq<SessionJob>, used: set<nat>, reported: seq<nat>)

  function Uids(jobs: seq<SessionJob>): (u: seq<nat>)
    ensures |u| == |jobs|
  {
    seq(|jobs|, i requires 0 <= i < |jobs| => jobs[i].uid)
  }

  ghost predicate QueryStep(s: JobLog, s': JobLog, q: StatusQuery) {
    var (taken, kept) := TakeWanted(s.jobs, q, Capacity(q));
    s' == s.(jobs := kept, reported := s.reported + Uids(taken))
  }

  /** An unfinished job is submitted, a job finishes, jobs are queried, or the session drops
      all its jobs. */
  ghost predicate JobStep(s: JobLog, s': JobLog) {
    || (exists j: SessionJob ::
          && j.uid !in s.used && j.state == Waiting && j.exceptionType == NO_EXCEPTION
          && s' == s.(jobs := [j] + s.jobs, used := s.used + {j.uid}))
    || (exists uid :: s' == s.(jobs := MarkDone(s.jobs, uid)))
    || (exists q :: QueryStep(s, s', q))
    || s' == s.(jobs := [])
  }

  ghost predicate JobLogInv(s: JobLog) {
    && Distinct(Uids(s.jobs) + s.reported)
    && forall u | u in Uids(s.jobs) + s.reported :: u in s.used
  }

  lemma {:induction false} ShuffleUids(s: seq<SessionJob>, a: seq<SessionJob>, b: seq<SessionJob>)
    requires Shuffles(s, a, b)
    ensures multiset(Uids(s)) == multiset(Uids(a)) + multiset(Uids(b))
  {
    if s != [] {
      UidsCons(s);
      if a != [] && a[0] == s[0] && Shuffles(s[1..], a[1..], b) {
        ShuffleUids(s[1..], a[1..], b);
        UidsCons(a);
      } else {
        ShuffleUids(s[1..], a, b[1..]);
        UidsCons(b);
      }
    }
  }

  lemma {:induction false} UidsCons(s: seq<SessionJob>)
    requires s != []
    ensures multiset(Uids(s)) == multiset{s[0].uid} + multiset(Uids(s[1..]))
  {
    assert Uids(s) == [s[0].uid] + Uids(s[1..]);
  }

  lemma {:induction false} MarkDoneUids(jobs: seq<SessionJob>, uid: nat)
    ensures Uids(MarkDone(jobs, uid)) == Uids(jobs)
  {
    if jobs != [] {
      MarkDoneUids(jobs[1..], uid);
      assert Uids(jobs) == [jobs[0].uid] + Uids(jobs[1..]);
      var m := MarkDone(jobs, uid);
      assert m[1..] == MarkDone(jobs[1..], uid);
      assert Uids(m) == [m[0].uid] + Uids(m[1..]);
    }
  }

  lemma JobStepKeeps(s: JobLog, s': JobLog)
    requires JobLogInv(s) && JobStep(s, s')
    ensures JobLogInv(s') && s.reported <= s'.reported
  {
    if q :| QueryStep(s, s', q) {
      QueryKeeps(s, s', q);
    } else if uid :| s' == s.(jobs := MarkDone(s.jobs, uid)) {
      MarkDoneUids(s.jobs, uid);
    } else if s' == s.(jobs := []) {
      DropKeeps(s, s');
    } else {
      var j: SessionJob :| && j.uid !in s.used && j.state == Waiting && j.exceptionType == NO_EXCEPTION
                           && s' == s.(jobs := [j] + s.jobs, used := s.used + {j.uid});
      SubmitKeeps(s, s', j);
    }
  }

  lemma DropKeeps(s: JobLog, s': JobLog)
    requires JobLogInv(s) && s' == s.(jobs := [])
    ensures JobLogInv(s')
  {
    assert forall i | 0 <= i < |s.reported| :: s.reported[i] == (Uids(s.jobs) + s.reported)[|s.jobs| + i];
    assert Uids([]) + s.reported == s.reported;
  }

  lemma SubmitKeeps(s: JobLog, s': JobLog, j: SessionJob)
    requires JobLogInv(s) && j.uid !in s.used && s' == s.(jobs := [j] + s.jobs, used := s.used + {j.uid})
    ensures JobLogInv(s')
  {
    assert Uids(s'.jobs) + s'.reported == [j.uid] + (Uids(s.jobs) + s.reported);
  }

  lemma QueryKeeps(s: JobLog, s': JobLog, q: StatusQuery)
    requires JobLogInv(s) && QueryStep(s, s', q)
    ensures JobLogInv(s')
  {
    QueryPartitions(s.jobs, q, Capacity(q));
    var (taken, kept) := TakeWanted(s.jobs, q, Capacity(q));
    ShuffleUids(s.jobs, taken, kept);
    var before, after := Uids(s.jobs) + s.reported, Uids(kept) + (s.reported + Uids(taken));
    assert multiset(before) == multiset(after);
    DistinctByCount(before);
    DistinctByCount(after);
    forall u | u in after
      ensures u in before && multiset(after)[u] == 1
    {
      assert u in multiset(after);
    }
  }

  /** Over any run of a session, no job's status is ever returned twice. */
  lemma {:induction false} StatusReportedOnce(h: seq<JobLog>)
    requires h != [] && h[0] == JobLog([], {}, [])
    requires forall i | 0 <= i < |h| - 1 :: JobStep(h[i], h[i + 1])
    ensures JobLogInv(h[|h| - 1]) && Distinct(h[|h| - 1].reported)
  {
    var s := h[|h| - 1];
    if |h| > 1 {
      var g := h[..|h| - 1];
      forall i | 0 <= i < |g| - 1
        ensures JobStep(g[i], g[i + 1])
      {
        assert g[i] == h[i] && g[i + 1] == h[i + 1];
      }
      StatusReportedOnce(g);
      assert JobStep(h[|h| - 2], h[|h| - 2 + 1]);
      JobStepKeeps(g[|g| - 1], s);
    }
    assert forall i | 0 <= i < |s.reported| :: s.reported[i] == (Uids(s.jobs) + s.reported)[|s.jobs| + i];
  }
  lemma {:induction false} ShufflePart<T>(s: seq<T>, a: seq<T>, b: seq<T>)
    requires Shuffles(s, a, b)
    ensures forall x | x in a || x in b :: x in s
  {
    if s != [] {
      assert forall x | x in s[1..] :: x in s;
      if a != [] && a[0] == s[0] && Shuffles(s[1..], a[1..], b) {
        ShufflePart(s[1..], a[1..], b);
        assert forall x | x in a :: x == a[0] || x in a[1..];
      } else {
        ShufflePart(s[1..], a, b[1..]);
        assert forall x | x in b :: x == b[0] || x in b[1..];
      }
    }
  }

  ghost predicate NoExceptions(jobs: seq<SessionJob>) {
    forall j | j in jobs :: j.exceptionType == NO_EXCEPTION
  }

  lemma {:induction false} StepRecordsNoException(s: JobLog, s': JobLog)
    requires NoExceptions(s.jobs) && JobStep(s, s')
    ensures NoExceptions(s'.jobs)
  {
    if q :| QueryStep(s, s', q) {
      QueryPartitions(s.jobs, q, Capacity(q));
      var (taken, kept) := TakeWanted(s.jobs, q, Capacity(q));
      ShufflePart(s.jobs, taken, kept);
    } else if uid :| s' == s.(jobs := MarkDone(s.jobs, uid)) {
      MarkDoneExact(s.jobs, uid);
      assert forall i | 0 <= i < |s.jobs| :: s.jobs[i] in s.jobs;
    }
  }

  lemma {:induction false} NoExceptionRecorded(h: seq<JobLog>, n: nat)
    requires n < |h| && h[0] == JobLog([], {}, [])
    requires forall i | 0 <= i < |h| - 1 :: JobStep(h[i], h[i + 1])
    ensures NoExceptions(h[n].jobs)
  {
    if n > 0 {
      NoExceptionRecorded(h, n - 1);
      assert JobStep(h[n - 1], h[n - 1 + 1]);
      StepRecordsNoException(h[n - 1], h[n]);
    }
  }

  /** What user space is told at any point of a run: at most one status for a single job and
      at most the array's size otherwise, only of jobs that have ended, and always "done",
      which is state 1, with the process id in the place of the thread's. */
  lemma ReportedStatuses(h: seq<JobLog>, n: nat, q: StatusQuery, pid: int)
    requires n < |h| && h[0] == JobLog([], {}, [])
    requires forall i | 0 <= i < |h| - 1 :: JobStep(h[i], h[i + 1])
    ensures var taken := TakeWanted(h[n].jobs, q, Capacity(q)).0;
            && |taken| <= (if q.single then 1 else q.maxCnt)
            && forall i | 0 <= i < |taken| ::
              && taken[i] in h[n].jobs && taken[i].state == Ended && (q.single ==> taken[i].jobId == q.jobId)
              && Statuses(taken, pid)[i] == JobStatus(taken[i].jobId, pid, 1)
  {
    NoExceptionRecorded(h, n);
    QueryPartitions(h[n].jobs, q, Capacity(q));
    var (taken, kept) := TakeWanted(h[n].jobs, q, Capacity(q));
    ShufflePart(h[n].jobs, taken, kept);
    assert forall i | 0 <= i < |taken| :: taken[i] in taken;
  }

  /** Were an exception recorded, it would be reported as state 2. */
  lemma ExceptionIsReported(jobs: seq<SessionJob>, pid: int, i: nat)
    requires i < |jobs|
    ensures Statuses(jobs, pid)[i].state == 1 <==> jobs[i].exceptionType == 0
    ensures Statuses(jobs, pid)[i].state == 2 <==> jobs[i].exceptionType != 0
  {
  }
}
