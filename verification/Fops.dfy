/** The ioctl layer: each request as the sequence of memory-manager, session and job-manager
    steps it makes. Ownership.dfy interleaves the same steps across threads. */
module Fops {
  import opened Blocks
  import opened Regions
  import opened MemoryManagers
  import opened Sessions
  import opened JobManagers

  /** The buffers of this session are live and listed once. */
  ghost predicate OwnsItsBuffers(live: set<Extent>, bufs: seq<Buffer>) {
    DistinctRanges(bufs) && Ranges(bufs) <= live
  }

  method RequestBuffer(mm: MemoryManager, s: Session, req: BufRequest, tid: int)
    returns (ret: int, buf: Buffer)
    requires mm.Valid() && RequestInRange(mm.State(), req) && OwnsItsBuffers(mm.State().Live(), s.bufs)
    modifies mm.ddr, s`bufs
    ensures mm.Valid() <==> !MmOverruns(old(mm.State()), req)
    ensures mm.Valid() ==> OwnsItsBuffers(mm.State().Live(), s.bufs)
    ensures MmAllocSpec(old(mm.State()), mm.State(), req, ret, buf)
    ensures s.bufs == if ret == 0 then [buf] + old(s.bufs) else old(s.bufs)
  {
    ghost var live := mm.State().Live();
    ret, buf := mm.Alloc(req, tid);
    if ret == 0 {
      if mm.Valid() {
        OwnsOneMore(live, mm.State().Live(), s.bufs, buf);
      }
      AddToSession(mm, s, buf);
    }
  }

  /** Listing a buffer does not touch the memory manager. */
  method AddToSession(mm: MemoryManager, s: Session, buf: Buffer)
    modifies s`bufs
    ensures mm.Valid() == old(mm.Valid()) && mm.State() == old(mm.State()) && s.bufs == [buf] + old(s.bufs)
  {
    s.AddBuf(buf);
  }

  /** A buffer is detached from the session before it is freed, so a descriptor the session
      does not own is refused without touching the memory manager. */
  method FreeBuffer(mm: MemoryManager, s: Session, d: Extent) returns (ret: int)
    requires mm.Valid() && OwnsItsBuffers(mm.State().Live(), s.bufs)
    modifies mm.sram, mm.ddr, s`bufs
    ensures mm.Valid() && OwnsItsBuffers(mm.State().Live(), s.bufs)
    ensures d in Ranges(old(s.bufs)) ==>
              ret == 0 && Ranges(s.bufs) == Ranges(old(s.bufs)) - {d}
              && mm.State().Live() == old(mm.State()).Live() - {d}
    ensures d !in Ranges(old(s.bufs)) ==>
              ret == ENOENT && s.bufs == old(s.bufs) && mm.State() == old(mm.State())
  {
    RemoveFirstRanges(s.bufs, d);
    ret := s.DetachBuf(d);
    if ret == 0 {
      ret := mm.FreeBuffer(d);
    }
  }

  method RunJob(jm: JobManager, s: Session, uid: nat, jobId: nat, thread: int, idle: bool)
    modifies jm, s`jobs
    ensures s.jobs == [SessionJob(uid, jobId, thread, Waiting, NO_EXCEPTION)] + old(s.jobs)
    ensures jm.Current() ==
            Submit(old(jm.Current()), Job(uid, s.pid, thread, jobId, Pending, NO_EXCEPTION, true), idle)
  {
    var job := s.AddJob(uid, jobId, thread);
    var t := jm.ScheduleNewJob(Job(uid, s.pid, thread, jobId, Pending, NO_EXCEPTION, true), idle);
  }

  /** Of the session's ranges `all`, the ones not in `rest` have left the live set. */
  ghost predicate FreedSoFar(live: set<Extent>, all: set<Extent>, now: set<Extent>, rest: set<Extent>) {
    rest <= all && now == live - (all - rest)
  }

  lemma FreedOneMore(live: set<Extent>, all: set<Extent>, now: set<Extent>, rest: set<Extent>, d: Extent)
    requires FreedSoFar(live, all, now, rest) && d in rest
    ensures FreedSoFar(live, all, now - {d}, rest - {d})
  {
  }

  /** Between two rounds of the release loop. */
  ghost predicate Releasing(mm: MemoryManager, s: Session, live: set<Extent>, all: set<Extent>)
    reads mm, mm.sram, mm.ddr, s
  {
    && mm.Valid() && OwnsItsBuffers(mm.State().Live(), s.bufs)
    && FreedSoFar(live, all, mm.State().Live(), Ranges(s.bufs))
  }

  /** One round of the release loop: free the first buffer, then detach it. */
  method FreeHead(mm: MemoryManager, s: Session, ghost live: set<Extent>, ghost all: set<Extent>)
    returns (ret: int)
    requires Releasing(mm, s, live, all) && s.bufs != []
    modifies mm.sram, mm.ddr, s`bufs
    ensures Releasing(mm, s, live, all) && ret == 0 && s.bufs == old(s.bufs)[1..]
  {
    ghost var now, bufs := mm.State().Live(), s.bufs;
    var d := s.bufs[0].Range();
    assert d in now && d in Ranges(bufs) by { assert s.bufs[0] in s.bufs; }
    RemoveFirstRanges(bufs, d);
    FreedOneMore(live, all, now, Ranges(bufs), d);
    ret := mm.FreeBuffer(d);
    if ret == 0 {
      ret := DetachOnly(mm, s, d);
    }
  }

  /** A detach does not touch the memory manager. */
  method DetachOnly(mm: MemoryManager, s: Session, d: Extent) returns (ret: int)
    requires mm.Valid() && d in Ranges(s.bufs)
    modifies s`bufs
    ensures mm.Valid() && mm.State() == old(mm.State())
    ensures ret == 0 && s.bufs == RemoveFirst(old(s.bufs), d)
  {
    ret := s.DetachBuf(d);
  }

  /** Frees every buffer of the session, from the head of the list. */
  method FreeSessionBuffers(mm: MemoryManager, s: Session) returns (ret: int)
    requires mm.Valid() && OwnsItsBuffers(mm.State().Live(), s.bufs)
    modifies mm.sram, mm.ddr, s`bufs
    ensures mm.Valid() && ret == 0 && s.bufs == []
    ensures mm.State().Live() == old(mm.State()).Live() - Ranges(old(s.bufs))
  {
    ret := 0;
    ghost var live, all := mm.State().Live(), Ranges(s.bufs);
    var head := s.BufHead();
    while head != None
      invariant Releasing(mm, s, live, all) && ret == 0
      invariant head == if s.bufs == [] then None else Some(s.bufs[0])
      decreases |s.bufs|
    {
      ret := FreeHead(mm, s, live, all);
      if ret != 0 {
        return;
      }
      head := s.BufHead();
    }
  }

  /** Releasing a file cancels the jobs of its process, frees the session's buffers and then
      destroys the session, which is accepted: both of its lists are empty. */
  method Release(mm: MemoryManager, jm: JobManager, s: Session) returns (ret: int)
    requires mm.Valid() && OwnsItsBuffers(mm.State().Live(), s.bufs)
    modifies mm.sram, mm.ddr, jm, s
    ensures mm.Valid() && ret == 0 && s.bufs == [] && s.jobs == []
    ensures jm.Current() == Cancel(old(jm.Current()), s.pid)
    ensures mm.State().Live() == old(mm.State()).Live() - Ranges(old(s.bufs))
  {
    jm.CancelSessionJobs(s.pid);
    s.DeleteJobs();
    ret := FreeSessionBuffers(mm, s);
    if ret != 0 {
      return;
    }
    ret := if |s.jobs| == 0 && |s.bufs| == 0 then 0 else EINVAL;
  }

  lemma OwnsOneMore(live: set<Extent>, live': set<Extent>, bufs: seq<Buffer>, b: Buffer)
    requires OwnsItsBuffers(live, bufs) && b.Range() !in live && live' == live + {b.Range()}
    ensures OwnsItsBuffers(live', [b] + bufs)
  {
    assert forall x :: x in [b] + bufs <==> x == b || x in bufs;
    assert forall x | x in bufs :: x.Range() in Ranges(bufs);
  }
}
