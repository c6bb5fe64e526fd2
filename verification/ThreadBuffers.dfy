/** Thread buffers and jobs of one graph: which job uses which buffer, over every sequence of
    allocate, build, flush, status update, clean and free calls. */
module ThreadBuffers {
  import opened Words
  import Sequences
  import opened Identifiers

  datatype JobState = NoState | Done | Exception | Built | Sched | Timeout

  datatype JobEntry = JobEntry(state: JobState, handle: nat)

  /** What becomes of a job handed to the kernel. */
  datatype Submission = Accepted | Refused | NoDevice

  datatype Status = Success | InvalidHandle | BusyHandle | InvalidSize | JobNotExist | JobSched | JobNotSched
                  | JobNotEnd | BufFreeFail | OpenDevFail

  /** `tbufs` maps each handle to whether its buffer is free for a job. */
  datatype GraphState = GraphState(graphId: nat, tbufs: map<nat, bool>, jobs: map<nat, JobEntry>, sched: seq<nat>)

  // ---- The calls

  /** `kernelFrees` says whether the kernel accepts the frees. */
  function FreeThreadBuffer(s: GraphState, handle: nat, kernelFrees: bool): (Status, GraphState) {
    if handle !in s.tbufs then (InvalidHandle, s)
    else if !s.tbufs[handle] then (BusyHandle, s)
    else if !kernelFrees then (BufFreeFail, s)
    else (Success, s.(tbufs := s.tbufs - {handle}))
  }

  /** Jobs that the id counter sees: not the timed-out ones and those without a state. */
  predicate Counts(j: JobEntry) {
    j.state == Built || j.state == Sched || j.state == Done || j.state == Exception
  }

  function SeenIds(s: GraphState): set<nat> {
    set i | i in s.jobs && Counts(s.jobs[i])
  }

  /** The buffer is taken first; it stays taken when patching fails. `id` is the job id. */
  function BuildNewJob(s: GraphState, handle: nat, patched: bool, id: nat): (Status, GraphState) {
    if handle !in s.tbufs then (InvalidHandle, s)
    else if !s.tbufs[handle] then (BusyHandle, s)
    else
      var taken := s.(tbufs := s.tbufs[handle := false]);
      if !patched then (InvalidSize, taken)
      else (Success, taken.(jobs := taken.jobs[id := JobEntry(Built, handle)]))
  }

  function Remove(sched: seq<nat>, id: nat): seq<nat> {
    if sched == [] then []
    else if sched[0] == id then sched[1..]
    else [sched[0]] + Remove(sched[1..], id)
  }

  /** A kernel that refuses the job leaves it without a state, yet the call succeeds and the
      job stays in the schedule queue; without a device the call fails and the job leaves
      the queue again, still marked as scheduled. */
  function FlushJob(s: GraphState, id: nat, k: Submission): (Status, GraphState) {
    if id !in s.jobs then (JobNotExist, s)
    else if s.jobs[id].state != Built then (JobSched, s)
    else
      var st := if k == Refused then NoState else Sched;
      var s' := s.(jobs := s.jobs[id := s.jobs[id].(state := st)], sched := s.sched + [id]);
      if k == NoDevice then (OpenDevFail, s'.(sched := Remove(s'.sched, id))) else (Success, s')
  }

  function UpdateJobStatus(s: GraphState, id: nat, st: JobState): (Status, GraphState) {
    if id !in s.jobs then (JobNotExist, s)
    else (Success, s.(jobs := s.jobs[id := s.jobs[id].(state := st)]))
  }

  function CleanJob(s: GraphState, id: nat): (Status, GraphState) {
    if id !in s.jobs then (JobNotExist, s)
    else if s.jobs[id].state == Built then (JobNotSched, s)
    else if s.jobs[id].state == Sched then (JobNotEnd, s)
    else
      var h := s.jobs[id].handle;
      (Success, s.(tbufs := if h in s.tbufs then s.tbufs[h := true] else s.tbufs,
                   jobs := s.jobs - {id}, sched := Remove(s.sched, id)))
  }

  class Graph {
    const graphId: nat
    var tbufs: map<nat, bool>
    var jobs: map<nat, JobEntry>
    var sched: seq<nat>

    ghost function State(): GraphState
      reads this
    {
      GraphState(graphId, tbufs, jobs, sched)
    }

    constructor (graphId: nat)
      ensures State() == GraphState(graphId, map[], map[], [])
    {
      this.graphId := graphId;
      tbufs, jobs, sched := map[], map[], [];
    }

    /** The bookkeeping at the end of a successful buffer allocation. */
    method AddThreadBuffer() returns (handle: nat)
      requires |tbufs| < U32
      modifies this
      ensures handle !in old(tbufs) && State() == old(State()).(tbufs := old(tbufs)[handle := true])
      ensures exists n: nat :: FirstFree(old(tbufs).Keys, Base(graphId), n) && handle == Candidate(Base(graphId), n)
      ensures graphId < IDS_PER_GRAPH && |old(tbufs)| < IDS_PER_GRAPH ==> GraphOf(handle) == graphId
    {
      ghost var n;
      handle, n := CreateId(tbufs.Keys, Base(graphId));
      if graphId < IDS_PER_GRAPH && |tbufs| < IDS_PER_GRAPH {
        InBlock(graphId, n);
      }
      tbufs := tbufs[handle := true];
    }

    method Free(handle: nat, kernelFrees: bool) returns (st: Status)
      modifies this
      ensures (st, State()) == FreeThreadBuffer(old(State()), handle, kernelFrees)
    {
      if handle !in tbufs {
        return InvalidHandle;
      }
      if !tbufs[handle] {
        return BusyHandle;
      }
      if !kernelFrees {
        return BufFreeFail;
      }
      tbufs := tbufs - {handle};
      st := Success;
    }

    method Build(handle: nat, patched: bool) returns (st: Status, id: nat)
      requires |jobs| < U32
      modifies this
      ensures (st, State()) == BuildNewJob(old(State()), handle, patched, id)
      ensures st == Success ==>
                exists n: nat :: FirstFree(SeenIds(old(State())), Base(graphId), n) && id == Candidate(Base(graphId), n)
    {
      id := 0;
      if handle !in tbufs {
        return InvalidHandle, 0;
      }
      if !tbufs[handle] {
        return BusyHandle, 0;
      }
      tbufs := tbufs[handle := false];
      if !patched {
        return InvalidSize, 0;
      }
      var seen := set i | i in jobs && Counts(jobs[i]);
      assert seen == SeenIds(old(State()));
      SeenAreFew(State());
      ghost var n;
      id, n := CreateId(seen, Base(graphId));
      jobs := jobs[id := JobEntry(Built, handle)];
      st := Success;
    }

    method Flush(id: nat, k: Submission) returns (st: Status)
      modifies this
      ensures (st, State()) == FlushJob(old(State()), id, k)
    {
      if id !in jobs {
        return JobNotExist;
      }
      if jobs[id].state != Built {
        return JobSched;
      }
      jobs := jobs[id := jobs[id].(state := Sched)];
      sched := sched + [id];
      st := Success;
      if k == Refused {
        jobs := jobs[id := jobs[id].(state := NoState)];
      } else if k == NoDevice {
        DeleteFromSchedQueue(id);
        st := OpenDevFail;
      }
      assert State() == FlushJob(old(State()), id, k).1;
    }

    method Update(id: nat, state: JobState) returns (st: Status)
      modifies this
      ensures (st, State()) == UpdateJobStatus(old(State()), id, state)
    {
      if id !in jobs {
        return JobNotExist;
      }
      jobs := jobs[id := jobs[id].(state := state)];
      st := Success;
    }

    method Clean(id: nat) returns (st: Status)
      modifies this
      ensures (st, State()) == CleanJob(old(State()), id)
    {
      if id !in jobs {
        return JobNotExist;
      }
      var job := jobs[id];
      if job.state == Built {
        return JobNotSched;
      }
      if job.state == Sched {
        return JobNotEnd;
      }
      if job.handle in tbufs {
        tbufs := tbufs[job.handle := true];
      }
      DeleteFromSchedQueue(id);
      jobs := jobs - {id};
      st := Success;
    }

    method DeleteFromSchedQueue(id: nat)
      modifies this`sched
      ensures sched == Remove(old(sched), id)
    {
      for i := 0 to |sched|
        invariant sched == old(sched)
        invariant forall k | 0 <= k < i :: sched[k] != id
      {
        if sched[i] == id {
          RemoveAt(sched, i, id);
          sched := sched[..i] + sched[i + 1..];
          return;
        }
      }
      RemoveAbsent(sched, id);
    }
  }

  lemma SeenAreFew(s: GraphState)
    ensures |SeenIds(s)| <= |s.jobs|
  {
    Sequences.SubsetSize(SeenIds(s), s.jobs.Keys);
  }

  lemma {:induction false} RemoveAt(sched: seq<nat>, i: nat, id: nat)
    requires i < |sched| && sched[i] == id && forall k | 0 <= k < i :: sched[k] != id
    ensures Remove(sched, id) == sched[..i] + sched[i + 1..]
  {
    if i > 0 {
      RemoveAt(sched[1..], i - 1, id);
      assert sched[..i] + sched[i + 1..] == [sched[0]] + (sched[1..][..i - 1] + sched[1..][i..]);
    }
  }

  lemma {:induction false} RemoveAbsent(sched: seq<nat>, id: nat)
    requires forall k | 0 <= k < |sched| :: sched[k] != id
    ensures Remove(sched, id) == sched
  {
    if sched != [] {
      RemoveAbsent(sched[1..], id);
    }
  }

  // ---- Whole runs

  datatype Event =
    | AddBuffer(handle: nat)
    | FreeBuffer(handle: nat, kernelFrees: bool)
    | BuildJob(handle: nat, patched: bool, id: nat)
    | Flush(id: nat, submission: Submission)
    | Update(id: nat, state: JobState)
    | Clean(id: nat)

  function Next(s: GraphState, ev: Event): GraphState {
    match ev
    case AddBuffer(h) => s.(tbufs := s.tbufs[h := true])
    case FreeBuffer(h, ok) => FreeThreadBuffer(s, h, ok).1
    case BuildJob(h, ok, id) => BuildNewJob(s, h, ok, id).1
    case Flush(id, k) => FlushJob(s, id, k).1
    case Update(id, st) => UpdateJobStatus(s, id, st).1
    case Clean(id) => CleanJob(s, id).1
  }

  /** New handles and job ids are the ones the counters give. */
  ghost predicate Allowed(s: GraphState, ev: Event) {
    match ev
    case AddBuffer(h) =>
      exists n: nat :: FirstFree(s.tbufs.Keys, Base(s.graphId), n) && h == Candidate(Base(s.graphId), n)
    case BuildJob(_, _, id) =>
      exists n: nat :: FirstFree(SeenIds(s), Base(s.graphId), n) && id == Candidate(Base(s.graphId), n)
    case _ => true
  }

  ghost predicate Run(ss: seq<GraphState>, evs: seq<Event>) {
    && |ss| == |evs| + 1 && ss[0] == GraphState(ss[0].graphId, map[], map[], [])
    && forall i | 0 <= i < |evs| :: Allowed(ss[i], evs[i]) && ss[i + 1] == Next(ss[i], evs[i])
  }

  /** Every job's buffer is present and taken, and no two jobs share one. */
  ghost predicate Exclusive(s: GraphState) {
    && (forall j | j in s.jobs :: s.jobs[j].handle in s.tbufs && !s.tbufs[s.jobs[j].handle])
    && (forall j, k | j in s.jobs && k in s.jobs && j != k :: s.jobs[j].handle != s.jobs[k].handle)
  }

  lemma StepKeepsExclusive(s: GraphState, ev: Event)
    requires Exclusive(s) && Allowed(s, ev)
    ensures Exclusive(Next(s, ev))
  {
  }

  lemma {:induction false} ExclusiveInvariant(ss: seq<GraphState>, evs: seq<Event>, n: nat)
    requires Run(ss, evs) && n <= |evs|
    ensures Exclusive(ss[n])
  {
    if n > 0 {
      ExclusiveInvariant(ss, evs, n - 1);
      assert ss[n - 1 + 1] == Next(ss[n - 1], evs[n - 1]);
      StepKeepsExclusive(ss[n - 1], evs[n - 1]);
    }
  }

  /** In every reachable state, a live job's buffer cannot be freed and no other job can be
      built on it; and when the job is cleaned, its buffer is there and becomes free, so the
      null test of clean_job never fires. */
  lemma LiveJobsGuardTheirBuffers(ss: seq<GraphState>, evs: seq<Event>, n: nat, j: nat)
    requires Run(ss, evs) && n <= |evs| && j in ss[n].jobs
    ensures var s, h := ss[n], ss[n].jobs[j].handle;
            && (forall ok :: FreeThreadBuffer(s, h, ok) == (BusyHandle, s))
            && (forall ok, id :: BuildNewJob(s, h, ok, id) == (BusyHandle, s))
            && (CleanJob(s, j).0 == Success ==>
                  h in s.tbufs && var s' := CleanJob(s, j).1;
                  h in s'.tbufs && s'.tbufs[h] && forall k | k in s'.jobs :: s'.jobs[k].handle != h)
  {
    ExclusiveInvariant(ss, evs, n);
  }

  /** A job once built stays in the table, with its buffer taken, until it is cleaned or a
      later build is given the same id. */
  lemma {:induction false} BufferHeldUntilCleaned(ss: seq<GraphState>, evs: seq<Event>, i: nat, n: nat, j: nat)
    requires Run(ss, evs) && i <= n <= |evs| && j in ss[i].jobs
    requires forall k | i <= k < n :: evs[k] != Clean(j) && !(evs[k].BuildJob? && evs[k].id == j)
    ensures j in ss[n].jobs && ss[n].jobs[j].handle == ss[i].jobs[j].handle
    ensures ss[i].jobs[j].handle in ss[n].tbufs && !ss[n].tbufs[ss[i].jobs[j].handle]
  {
    ExclusiveInvariant(ss, evs, n);
    if i < n {
      BufferHeldUntilCleaned(ss, evs, i, n - 1, j);
      assert ss[n - 1 + 1] == Next(ss[n - 1], evs[n - 1]);
    }
  }

  // ---- Which calls succeed, and what a job goes through

  /** A job is cleaned exactly if it is neither waiting to be flushed nor with the hardware;
      the refusals say which, and change nothing. */
  lemma CleansExactly(s: GraphState, id: nat)
    ensures var (st, s') := CleanJob(s, id);
            && (st == Success <==> id in s.jobs && s.jobs[id].state !in {Built, Sched})
            && (st == JobNotExist <==> id !in s.jobs)
            && (st == JobNotSched <==> id in s.jobs && s.jobs[id].state == Built)
            && (st == JobNotEnd <==> id in s.jobs && s.jobs[id].state == Sched)
            && (st != Success ==> s' == s)
            && (st == Success ==>
                  && s'.jobs == s.jobs - {id} && s'.tbufs.Keys == s.tbufs.Keys
                  && (s.jobs[id].handle in s.tbufs ==> s'.tbufs[s.jobs[id].handle])
                  && forall h | h in s.tbufs && h != s.jobs[id].handle :: s'.tbufs[h] == s.tbufs[h])
  {
  }

  /** A job is handed to the kernel exactly if it is built; nothing else touches its buffer. */
  lemma FlushesExactly(s: GraphState, id: nat, k: Submission)
    ensures var (st, s') := FlushJob(s, id, k);
            && s'.tbufs == s.tbufs && s'.jobs.Keys == s.jobs.Keys
            && (id in s.jobs && s.jobs[id].state == Built <==> st == Success || st == OpenDevFail)
            && (st == OpenDevFail ==> k == NoDevice) && (st == Success ==> k != NoDevice)
            && (st != Success && st != OpenDevFail ==> s' == s)
            && (st == Success || st == OpenDevFail ==>
                  && s'.jobs[id].handle == s.jobs[id].handle
                  && s'.jobs[id].state == (if k == Refused then NoState else Sched)
                  && forall j | j in s.jobs && j != id :: s'.jobs[j] == s.jobs[j])
            && (st == Success ==> s'.sched == s.sched + [id])
            && (st == OpenDevFail && id !in s.sched ==> s'.sched == s.sched)
  {
    if id !in s.sched {
      RemoveLast(s.sched, id);
    }
  }

  lemma RemoveLast(sched: seq<nat>, id: nat)
    requires id !in sched
    ensures Remove(sched + [id], id) == sched
  {
    RemoveAt(sched + [id], |sched|, id);
    assert (sched + [id])[..|sched|] + (sched + [id])[|sched| + 1..] == sched;
  }

  /** A job is built exactly on a free buffer that can be patched; the buffer is then taken,
      as it is, without a job, when patching fails. */
  lemma BuildsExactly(s: GraphState, h: nat, patched: bool, id: nat)
    ensures var (st, s') := BuildNewJob(s, h, patched, id);
            && (st == Success <==> h in s.tbufs && s.tbufs[h] && patched)
            && (st == InvalidSize <==> h in s.tbufs && s.tbufs[h] && !patched)
            && (st != Success && st != InvalidSize ==> s' == s)
            && (st == Success || st == InvalidSize ==> s'.tbufs == s.tbufs[h := false] && s'.sched == s.sched)
            && (st == InvalidSize ==> s'.jobs == s.jobs)
            && (st == Success ==> s'.jobs == s.jobs[id := JobEntry(Built, h)])
  {
  }

  /** A buffer is freed exactly if it is there, no job has it, and the kernel frees it. */
  lemma FreesExactly(s: GraphState, h: nat, kernelFrees: bool)
    ensures var (st, s') := FreeThreadBuffer(s, h, kernelFrees);
            && (st == Success <==> h in s.tbufs && s.tbufs[h] && kernelFrees)
            && s' == (if st == Success then s.(tbufs := s.tbufs - {h}) else s)
  {
  }

  /** The first entry of the schedule queue with that id leaves it, the others keep their
      order; without one the queue stays. */
  lemma {:induction false} RemovesFirst(sched: seq<nat>, id: nat)
    ensures id !in sched ==> Remove(sched, id) == sched
    ensures id in sched ==> exists i :: 0 <= i < |sched| && sched[i] == id && id !in sched[..i]
                                        && Remove(sched, id) == sched[..i] + sched[i + 1..]
  {
    if id in sched {
      var i := FirstPlace(sched, id);
      RemoveAt(sched, i, id);
    } else {
      RemoveAbsent(sched, id);
    }
  }

  lemma FirstPlace(sched: seq<nat>, id: nat) returns (i: nat)
    requires id in sched
    ensures i < |sched| && sched[i] == id && forall k | 0 <= k < i :: sched[k] != id
  {
    i := 0;
    while sched[i] != id
      invariant i < |sched| && forall k | 0 <= k < i :: sched[k] != id
      decreases |sched| - i
    {
      i := i + 1;
    }
  }

  ghost predicate Running(s: GraphState, j: nat, h: nat) {
    j in s.jobs && s.jobs[j] == JobEntry(Sched, h)
  }

  /** One call leaves a running job running, except a report on it. */
  lemma StepKeepsRunning(s: GraphState, ev: Event, j: nat, h: nat)
    requires Running(s, j, h) && Allowed(s, ev) && !(ev.Update? && ev.id == j && ev.state != Sched)
    ensures Running(Next(s, ev), j, h)
  {
    if ev.BuildJob? {
      assert j in SeenIds(s);
    }
  }

  /** Over any run, a job with the hardware stays so and keeps its buffer until a report moves
      it on: cleaning it is refused, flushing it again is refused, its id is given to no other
      job, and its buffer can be neither freed nor built on. */
  lemma {:induction false} RunningJobKeepsBuffer(ss: seq<GraphState>, evs: seq<Event>, i: nat, n: nat, j: nat)
    requires Run(ss, evs) && i <= n <= |evs| && j in ss[i].jobs && ss[i].jobs[j].state == Sched
    requires forall k | i <= k < n :: !(evs[k].Update? && evs[k].id == j && evs[k].state != Sched)
    ensures var h := ss[i].jobs[j].handle;
            && j in ss[n].jobs && ss[n].jobs[j] == ss[i].jobs[j]
            && h in ss[n].tbufs && !ss[n].tbufs[h]
            && CleanJob(ss[n], j) == (JobNotEnd, ss[n])
            && (forall k :: FlushJob(ss[n], j, k) == (JobSched, ss[n]))
            && (forall ok :: FreeThreadBuffer(ss[n], h, ok) == (BusyHandle, ss[n]))
            && (forall ok, id :: BuildNewJob(ss[n], h, ok, id) == (BusyHandle, ss[n]))
  {
    ExclusiveInvariant(ss, evs, n);
    if i < n {
      RunningJobKeepsBuffer(ss, evs, i, n - 1, j);
      RunStep(ss, evs, n - 1);
      StepKeepsRunning(ss[n - 1], evs[n - 1], j, ss[i].jobs[j].handle);
    }
  }

  lemma RunStep(ss: seq<GraphState>, evs: seq<Event>, k: nat)
    requires Run(ss, evs) && k < |evs|
    ensures Allowed(ss[k], evs[k]) && ss[k + 1] == Next(ss[k], evs[k])
  {
  }

  /** A built job likewise keeps its buffer, and its id, until it is flushed or a report
      moves it on; cleaning it is refused. */
  lemma {:induction false} BuiltJobKeepsBuffer(ss: seq<GraphState>, evs: seq<Event>, i: nat, n: nat, j: nat)
    requires Run(ss, evs) && i <= n <= |evs| && j in ss[i].jobs && ss[i].jobs[j].state == Built
    requires forall k | i <= k < n :: !(evs[k].Flush? && evs[k].id == j) && !(evs[k].Update? && evs[k].id == j)
    ensures var h := ss[i].jobs[j].handle;
            && j in ss[n].jobs && ss[n].jobs[j] == ss[i].jobs[j]
            && h in ss[n].tbufs && !ss[n].tbufs[h] && CleanJob(ss[n], j) == (JobNotSched, ss[n])
  {
    ExclusiveInvariant(ss, evs, n);
    if i < n {
      BuiltJobKeepsBuffer(ss, evs, i, n - 1, j);
      RunStep(ss, evs, n - 1);
      if evs[n - 1].BuildJob? {
        assert j in SeenIds(ss[n - 1]);
      }
    }
  }

  // ---- Stale jobs

  /** Among the ids that are in the table without a gap from the base on, there is one of a
      job that the id counter does not see: timed out, or without a state. */
  ghost predicate StaleInFront(s: GraphState) {
    exists m: nat :: StaleAt(s, m)
  }

  ghost predicate StaleAt(s: GraphState, m: nat) {
    && Candidate(Base(s.graphId), m) in s.jobs
    && s.jobs[Candidate(Base(s.graphId), m)].state in {Timeout, NoState}
    && forall k: nat | k < m :: Candidate(Base(s.graphId), k) in s.jobs
  }

  /** The id of a new job is already in the table if and only if there is a stale job in
      front of the first gap; the stale job then drops out of the table. */
  lemma NewJobIdIsTaken(s: GraphState, n: nat)
    requires FirstFree(SeenIds(s), Base(s.graphId), n)
    ensures Candidate(Base(s.graphId), n) in s.jobs <==> StaleInFront(s)
  {
    var b := Base(s.graphId);
    if Candidate(b, n) in s.jobs {
      forall k: nat | k < n
        ensures Candidate(b, k) in s.jobs
      {
        assert Candidate(b, k) in SeenIds(s);
      }
      assert StaleAt(s, n);
    }
    if m: nat :| StaleAt(s, m) {
      assert n <= m;
    }
  }

  /** A buffer that is taken although no job uses it: nobody can give it back. */
  ghost predicate Orphaned(s: GraphState, h: nat) {
    h in s.tbufs && !s.tbufs[h] && forall j | j in s.jobs :: s.jobs[j].handle != h
  }

  /** A call orphans a buffer exactly if it is a build on it whose patching fails, or a build
      whose new job replaces the job that was using it. */
  lemma OrphanedExactly(s: GraphState, ev: Event, h: nat)
    requires Exclusive(s) && Allowed(s, ev) && !Orphaned(s, h)
    ensures Orphaned(Next(s, ev), h) <==>
            && ev.BuildJob? && ev.handle in s.tbufs && s.tbufs[ev.handle]
            && (if ev.patched then ev.id in s.jobs && s.jobs[ev.id].handle == h else ev.handle == h)
  {
    var s' := Next(s, ev);
    if ev.BuildJob? && ev.handle in s.tbufs && s.tbufs[ev.handle] {
      if ev.patched && ev.id in s.jobs && s.jobs[ev.id].handle == h {
        forall j | j in s'.jobs
          ensures s'.jobs[j].handle != h
        {
          assert j != ev.id ==> j in s.jobs;
        }
      } else if ev.patched {
        assert s'.jobs[ev.id].handle == ev.handle;
        assert forall j | j in s.jobs && j != ev.id :: s'.jobs[j] == s.jobs[j];
      }
    } else if h in s.tbufs && !s.tbufs[h] {
      var j :| j in s.jobs && s.jobs[j].handle == h;
      assert (j in s'.jobs && s'.jobs[j].handle == h) || s'.tbufs[h];
    }
  }

  lemma StepKeepsOrphan(s: GraphState, ev: Event, h: nat)
    requires Orphaned(s, h) && Allowed(s, ev)
    ensures Orphaned(Next(s, ev), h)
  {
    if ev.AddBuffer? {
      var n: nat :| FirstFree(s.tbufs.Keys, Base(s.graphId), n) && ev.handle == Candidate(Base(s.graphId), n);
    }
    assert forall j | j in Next(s, ev).jobs && !(ev.BuildJob? && ev.id == j) :: j in s.jobs;
  }

  /** Once orphaned, a buffer stays so in every later state: no call frees it, builds on it or
      returns it. */
  lemma {:induction false} OrphanedForever(ss: seq<GraphState>, evs: seq<Event>, i: nat, n: nat, h: nat)
    requires Run(ss, evs) && i <= n <= |evs| && Orphaned(ss[i], h)
    ensures Orphaned(ss[n], h)
    ensures forall ok :: FreeThreadBuffer(ss[n], h, ok) == (BusyHandle, ss[n])
    ensures forall ok, id :: BuildNewJob(ss[n], h, ok, id) == (BusyHandle, ss[n])
  {
    if i < n {
      OrphanedForever(ss, evs, i, n - 1, h);
      assert Allowed(ss[n - 1], evs[n - 1]) && ss[n - 1 + 1] == Next(ss[n - 1], evs[n - 1]);
      StepKeepsOrphan(ss[n - 1], evs[n - 1], h);
    }
  }

  /** A run that loses a buffer: a job times out, and the next build is given its id. */
  lemma LosingRun() returns (ss: seq<GraphState>, evs: seq<Event>)
    ensures Run(ss, evs) && |evs| == 6 && Orphaned(ss[6], Base(1))
  {
    var b := Base(1);
    BaseIsExact(1);
    InBlock(1, 0);
    InBlock(1, 1);
    var s0 := GraphState(1, map[], map[], []);
    var s1 := s0.(tbufs := map[b := true]);
    var s2 := s0.(tbufs := map[b := true, b + 1 := true]);
    var s3 := s2.(tbufs := map[b := false, b + 1 := true], jobs := map[b := JobEntry(Built, b)]);
    var s4 := s3.(jobs := map[b := JobEntry(Sched, b)], sched := [b]);
    var s5 := s4.(jobs := map[b := JobEntry(Timeout, b)]);
    var s6 := s5.(tbufs := map[b := false, b + 1 := false], jobs := map[b := JobEntry(Built, b + 1)]);
    ss := [s0, s1, s2, s3, s4, s5, s6];
    evs := [AddBuffer(b), AddBuffer(b + 1), BuildJob(b, true, b), Flush(b, Accepted), Update(b, Timeout),
            BuildJob(b + 1, true, b)];
    LosingSteps(b, s0, s1, s2, s3, s4, s5, s6);
  }

  lemma LosingSteps(b: nat, s0: GraphState, s1: GraphState, s2: GraphState, s3: GraphState, s4: GraphState,
                    s5: GraphState, s6: GraphState)
    requires b == Base(1) && Candidate(b, 0) == b && Candidate(b, 1) == b + 1
    requires s0 == GraphState(1, map[], map[], [])
    requires s1 == s0.(tbufs := map[b := true]) && s2 == s0.(tbufs := map[b := true, b + 1 := true])
    requires s3 == s2.(tbufs := map[b := false, b + 1 := true], jobs := map[b := JobEntry(Built, b)])
    requires s4 == s3.(jobs := map[b := JobEntry(Sched, b)], sched := [b])
    requires s5 == s4.(jobs := map[b := JobEntry(Timeout, b)])
    requires s6 == s5.(tbufs := map[b := false, b + 1 := false], jobs := map[b := JobEntry(Built, b + 1)])
    ensures Allowed(s0, AddBuffer(b)) && s1 == Next(s0, AddBuffer(b))
    ensures Allowed(s1, AddBuffer(b + 1)) && s2 == Next(s1, AddBuffer(b + 1))
    ensures Allowed(s2, BuildJob(b, true, b)) && s3 == Next(s2, BuildJob(b, true, b))
    ensures s4 == Next(s3, Flush(b, Accepted)) && s5 == Next(s4, Update(b, Timeout))
    ensures Allowed(s5, BuildJob(b + 1, true, b)) && s6 == Next(s5, BuildJob(b + 1, true, b))
    ensures Orphaned(s6, b)
  {
    assert FirstFree(s0.tbufs.Keys, b, 0) && FirstFree(s1.tbufs.Keys, b, 1);
    assert FirstFree(SeenIds(s2), b, 0) && FirstFree(SeenIds(s5), b, 0);
  }
}
