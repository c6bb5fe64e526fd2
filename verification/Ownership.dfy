/** Buffer ownership across the ioctl layer, the sessions and the memory manager, with the
    lock-held halves of concurrent calls interleaved in any order. */
module Ownership {
  import opened Blocks
  import opened Regions
  import opened MemoryManagers
  import opened Sessions

  /** `Closing(true)`: the release loop has freed the first buffer but not yet detached it. */
  datatype Phase = Open | Closing(headFreed: bool)

  datatype Files = Files(bufs: seq<Buffer>, phase: Phase)

  /** A thread between the two halves of REQBUF or of FREEBUF. */
  datatype Call = Adding(sid: nat, buf: Buffer) | Freeing(sid: nat, d: Extent)

  datatype System = System(m: MmState, files: map<nat, Files>, calls: map<nat, Call>)

  datatype Event =
    | OpenFile(sid: nat)
    | RequestAlloc(thread: nat, sid: nat, req: BufRequest)
    | RequestAdd(thread: nat)
    | FreeDetach(thread: nat, sid: nat, d: Extent)
    | FreeRelease(thread: nat)
    | CloseBegin(sid: nat)
    | CloseFree(sid: nat)
    | CloseDetach(sid: nat)
    | CloseEnd(sid: nat)

  ghost predicate IsOpen(s: System, sid: nat) {
    sid in s.files && s.files[sid].phase == Open
  }

  ghost predicate Next(s: System, s': System, ev: Event) {
    match ev
    case OpenFile(sid) =>
      sid !in s.files && s' == s.(files := s.files[sid := Files([], Open)])
    case RequestAlloc(t, sid, req) =>
      && t !in s.calls && IsOpen(s, sid) && RequestInRange(s.m, req) && !MmOverruns(s.m, req)
      && (exists ret, buf :: Requested(s, s', t, sid, req, ret, buf))
    case RequestAdd(t) =>
      && t in s.calls && s.calls[t].Adding? && s.calls[t].sid in s.files
      && var c, f := s.calls[t], s.files[s.calls[t].sid];
         s' == s.(files := s.files[c.sid := f.(bufs := [c.buf] + f.bufs)], calls := s.calls - {t})
    case FreeDetach(t, sid, d) =>
      && t !in s.calls && IsOpen(s, sid)
      && (if d in Ranges(s.files[sid].bufs) then
            s' == s.(files := s.files[sid := s.files[sid].(bufs := RemoveFirst(s.files[sid].bufs, d))],
                     calls := s.calls[t := Freeing(sid, d)])
          else s' == s)
    case FreeRelease(t) =>
      && t in s.calls && s.calls[t].Freeing?
      && (exists ret :: MmFreeSpec(s.m, s'.m, s.calls[t].d, ret))
      && s' == s.(m := s'.m, calls := s.calls - {t})
    case CloseBegin(sid) =>
      // the file is released only after every call on it has returned
      && IsOpen(s, sid) && (forall t | t in s.calls :: s.calls[t].sid != sid)
      && s' == s.(files := s.files[sid := s.files[sid].(phase := Closing(false))])
    case CloseFree(sid) =>
      && sid in s.files && s.files[sid].phase == Closing(false) && s.files[sid].bufs != []
      && MmFreeSpec(s.m, s'.m, s.files[sid].bufs[0].Range(), 0)
      && s' == s.(m := s'.m, files := s.files[sid := s.files[sid].(phase := Closing(true))])
    case CloseDetach(sid) =>
      && sid in s.files && s.files[sid].phase == Closing(true) && s.files[sid].bufs != []
      && var bufs := s.files[sid].bufs;
         s' == s.(files := s.files[sid := Files(RemoveFirst(bufs, bufs[0].Range()), Closing(false))])
    case CloseEnd(sid) =>
      && sid in s.files && s.files[sid] == Files([], Closing(false))
      && s' == s.(files := s.files - {sid})
  }

  /** The first half of REQBUF, whatever the request is. */
  ghost predicate Requested(s: System, s': System, t: nat, sid: nat, req: BufRequest, ret: int, buf: Buffer) {
    && MmAllocSpec(s.m, s'.m, req, ret, buf)
    && s' == s.(m := s'.m, calls := if ret == 0 then s.calls[t := Adding(sid, buf)] else s.calls)
  }

  /** Who is responsible for giving a live extent back. */
  datatype Holder = ByFile(sid: nat) | ByCall(thread: nat)

  ghost function CallRange(c: Call): Extent {
    match c
    case Adding(_, buf) => buf.Range()
    case Freeing(_, d) => d
  }

  /** The buffers a file still has to free. */
  ghost function Owned(f: Files): set<Extent> {
    if f.phase == Closing(true) && f.bufs != [] then Ranges(f.bufs[1..]) else Ranges(f.bufs)
  }

  ghost predicate Holds(s: System, h: Holder, e: Extent) {
    match h
    case ByFile(sid) => sid in s.files && e in Owned(s.files[sid])
    case ByCall(t) => t in s.calls && e == CallRange(s.calls[t])
  }

  ghost predicate Shape(s: System) {
    && ValidMm(s.m)
    && (forall sid | sid in s.files :: DistinctRanges(s.files[sid].bufs))
    && (forall sid | sid in s.files && s.files[sid].phase == Closing(true) :: s.files[sid].bufs != [])
    && (forall t | t in s.calls :: IsOpen(s, s.calls[t].sid))
  }

  /** The live extents are exactly the held ones, and every one has a single holder. */
  ghost predicate Inv(s: System) {
    && Shape(s)
    && (forall e :: e in s.m.Live() <==> exists h :: Holds(s, h, e))
    && (forall e, h, k :: Holds(s, h, e) && Holds(s, k, e) ==> h == k)
  }

  ghost predicate Init(s: System) {
    ValidMm(s.m) && s.m.Live() == {} && s.files == map[] && s.calls == map[]
  }

  lemma OwnedHead(f: Files)
    requires DistinctRanges(f.bufs) && f.bufs != []
    ensures RemoveFirst(f.bufs, f.bufs[0].Range()) == f.bufs[1..]
    ensures Ranges(f.bufs[1..]) == Ranges(f.bufs) - {f.bufs[0].Range()}
    ensures f.bufs[0].Range() in Ranges(f.bufs) && DistinctRanges(f.bufs[1..])
  {
    RemoveFirstRanges(f.bufs, f.bufs[0].Range());
  }

  /** The only change between two states: `e` passes from one holder to another, or gains
      its first holder, or loses its last one. */
  ghost predicate Transfer(s: System, s': System, e: Extent, from: Option<Holder>, to: Option<Holder>) {
    && (forall h, x :: Holds(s', h, x) <==>
          (Holds(s, h, x) && !(x == e && from == Some(h))) || (x == e && to == Some(h)))
    && (if from == None then e !in s.m.Live() else Holds(s, from.value, e))
    && s'.m.Live() == if to == None then s.m.Live() - {e} else s.m.Live() + {e}
  }

  lemma TransferKeepsInv(s: System, s': System, e: Extent, from: Option<Holder>, to: Option<Holder>)
    requires Inv(s) && Shape(s') && Transfer(s, s', e, from, to)
    ensures Inv(s')
  {
    forall x
      ensures x in s'.m.Live() ==> exists h :: Holds(s', h, x)
    {
      if x in s'.m.Live() {
        if x == e {
          assert Holds(s', to.value, e);
        } else {
          var h :| Holds(s, h, x);
          assert Holds(s', h, x);
        }
      }
    }
    forall x, h | Holds(s', h, x)
      ensures x in s'.m.Live()
    {
      if x != e {
        assert Holds(s, h, x);
      }
    }
  }

  lemma GainKeepsInv(s: System, s': System, t: nat, sid: nat, buf: Buffer)
    requires Inv(s) && t !in s.calls && IsOpen(s, sid)
    requires ValidMm(s'.m) && buf.Range() !in s.m.Live() && s'.m.Live() == s.m.Live() + {buf.Range()}
    requires s' == s.(m := s'.m, calls := s.calls[t := Adding(sid, buf)])
    ensures Inv(s')
  {
    TransferKeepsInv(s, s', buf.Range(), None, Some(ByCall(t)));
  }

  /** A request keeps the invariant if and only if it overruns no region; runs are made of
      such requests. */
  lemma RequestKeepsInvExactly(s: System, s': System, t: nat, sid: nat, req: BufRequest, ret: int, buf: Buffer)
    requires Inv(s) && t !in s.calls && IsOpen(s, sid) && Requested(s, s', t, sid, req, ret, buf)
    ensures Inv(s') <==> !MmOverruns(s.m, req)
  {
    AllocIsSafe(s.m, s'.m, req, ret, buf);
    if !MmOverruns(s.m, req) {
      if ret == 0 {
        AllocAddsOne(s.m, s'.m, req, buf);
        GainKeepsInv(s, s', t, sid, buf);
      } else {
        assert s' == s;
      }
    }
  }

  lemma AddKeepsInv(s: System, s': System, t: nat)
    requires Inv(s) && Next(s, s', RequestAdd(t))
    ensures Inv(s')
  {
    var c := s.calls[t];
    var e := c.buf.Range();
    AddingIsUnlisted(s, t);
    assert Shape(s') by { PrependRanges(c.buf, s.files[c.sid].bufs); }
    AddTransfers(s, s', t);
    TransferKeepsInv(s, s', e, Some(ByCall(t)), Some(ByFile(c.sid)));
  }

  lemma AddingIsUnlisted(s: System, t: nat)
    requires Inv(s) && t in s.calls && s.calls[t].Adding?
    ensures s.calls[t].buf.Range() !in Ranges(s.files[s.calls[t].sid].bufs)
  {
    var c := s.calls[t];
    var e := c.buf.Range();
    assert Holds(s, ByCall(t), e);
    if e in Ranges(s.files[c.sid].bufs) {
      assert Holds(s, ByFile(c.sid), e);
    }
  }

  lemma AddTransfers(s: System, s': System, t: nat)
    requires Inv(s) && Next(s, s', RequestAdd(t))
    ensures var c := s.calls[t];
            Transfer(s, s', c.buf.Range(), Some(ByCall(t)), Some(ByFile(c.sid)))
  {
    var c := s.calls[t];
    AddingIsUnlisted(s, t);
    PrependRanges(c.buf, s.files[c.sid].bufs);
    assert Holds(s, ByCall(t), c.buf.Range());
  }

  lemma PrependRanges(b: Buffer, bufs: seq<Buffer>)
    requires DistinctRanges(bufs) && b.Range() !in Ranges(bufs)
    ensures Ranges([b] + bufs) == Ranges(bufs) + {b.Range()} && DistinctRanges([b] + bufs)
  {
    assert forall x | x in bufs :: x.Range() in Ranges(bufs);
    assert forall x :: x in [b] + bufs <==> x == b || x in bufs;
    assert b in [b] + bufs;
  }

  lemma DetachTransfers(s: System, s': System, t: nat, sid: nat, d: Extent)
    requires Inv(s) && Next(s, s', FreeDetach(t, sid, d)) && d in Ranges(s.files[sid].bufs)
    ensures Transfer(s, s', d, Some(ByFile(sid)), Some(ByCall(t)))
  {
    RemoveFirstRanges(s.files[sid].bufs, d);
    assert Holds(s, ByFile(sid), d);
  }

  lemma DetachKeepsInv(s: System, s': System, t: nat, sid: nat, d: Extent)
    requires Inv(s) && Next(s, s', FreeDetach(t, sid, d))
    ensures Inv(s')
  {
    if d in Ranges(s.files[sid].bufs) {
      assert Shape(s') by { RemoveFirstRanges(s.files[sid].bufs, d); }
      DetachTransfers(s, s', t, sid, d);
      TransferKeepsInv(s, s', d, Some(ByFile(sid)), Some(ByCall(t)));
    }
  }

  /** What FREEBUF hands to the memory manager is always a live buffer. */
  lemma FreeingIsLive(s: System, t: nat)
    requires Inv(s) && t in s.calls
    ensures CallRange(s.calls[t]) in s.m.Live()
  {
    assert Holds(s, ByCall(t), CallRange(s.calls[t]));
  }

  /** What the release loop frees is always a live buffer. */
  lemma ClosingIsLive(s: System, sid: nat)
    requires Inv(s) && sid in s.files && s.files[sid].phase != Closing(true) && s.files[sid].bufs != []
    ensures s.files[sid].bufs[0].Range() in s.m.Live()
  {
    OwnedHead(s.files[sid]);
    assert Holds(s, ByFile(sid), s.files[sid].bufs[0].Range());
  }

  lemma FreeKeepsInv(s: System, s': System, t: nat)
    requires Inv(s) && Next(s, s', FreeRelease(t))
    ensures Inv(s')
  {
    FreeingIsLive(s, t);
    TransferKeepsInv(s, s', s.calls[t].d, Some(ByCall(t)), None);
  }

  lemma CloseFreeKeepsInv(s: System, s': System, sid: nat)
    requires Inv(s) && Next(s, s', CloseFree(sid))
    ensures Inv(s')
  {
    ClosingIsLive(s, sid);
    OwnedHead(s.files[sid]);
    TransferKeepsInv(s, s', s.files[sid].bufs[0].Range(), Some(ByFile(sid)), None);
  }

  /** Steps that move no buffer between holders. */
  lemma SameHoldersKeepInv(s: System, s': System)
    requires Inv(s) && Shape(s') && s'.m == s.m
    requires forall h, x :: Holds(s', h, x) <==> Holds(s, h, x)
    ensures Inv(s')
  {
    forall x
      ensures x in s'.m.Live() <==> exists h :: Holds(s', h, x)
    {
      if h :| Holds(s', h, x) {
        assert Holds(s, h, x);
      }
      if h :| Holds(s, h, x) {
        assert Holds(s', h, x);
      }
    }
  }

  lemma CloseDetachKeepsInv(s: System, s': System, sid: nat)
    requires Inv(s) && Next(s, s', CloseDetach(sid))
    ensures Inv(s')
  {
    OwnedHead(s.files[sid]);
    SameHoldersKeepInv(s, s');
  }

  lemma StepKeepsInv(s: System, s': System, ev: Event)
    requires Inv(s) && Next(s, s', ev)
    ensures Inv(s')
  {
    match ev {
      case OpenFile(sid) =>
        SameHoldersKeepInv(s, s');
      case RequestAlloc(t, sid, req) =>
        var ret, buf :| Requested(s, s', t, sid, req, ret, buf);
        RequestKeepsInvExactly(s, s', t, sid, req, ret, buf);
      case RequestAdd(t) =>
        AddKeepsInv(s, s', t);
      case FreeDetach(t, sid, d) =>
        DetachKeepsInv(s, s', t, sid, d);
      case FreeRelease(t) =>
        FreeKeepsInv(s, s', t);
      case CloseBegin(sid) =>
        SameHoldersKeepInv(s, s');
      case CloseFree(sid) =>
        CloseFreeKeepsInv(s, s', sid);
      case CloseDetach(sid) =>
        CloseDetachKeepsInv(s, s', sid);
      case CloseEnd(sid) =>
        SameHoldersKeepInv(s, s');
    }
  }

  // ---- Whole runs

  ghost predicate Run(h: seq<System>, evs: seq<Event>) {
    && |h| == |evs| + 1 && Init(h[0])
    && forall i | 0 <= i < |evs| :: Next(h[i], h[i + 1], evs[i])
  }

  lemma {:induction false} InvAt(h: seq<System>, evs: seq<Event>, i: nat)
    requires Run(h, evs) && i < |h|
    ensures Inv(h[i])
  {
    if i == 0 {
      assert forall k, e :: !Holds(h[0], k, e);
    } else {
      InvAt(h, evs, i - 1);
      assert Next(h[i - 1], h[i - 1 + 1], evs[i - 1]);
      StepKeepsInv(h[i - 1], h[i], evs[i - 1]);
    }
  }

  /** In every reachable state the allocated blocks are exactly the buffers owned by open
      files plus those between the two halves of a call, each with one holder. */
  lemma {:induction false} OwnershipInvariant(h: seq<System>, evs: seq<Event>)
    requires Run(h, evs)
    ensures forall i | 0 <= i < |h| :: Inv(h[i])
  {
    forall i | 0 <= i < |h|
      ensures Inv(h[i])
    {
      InvAt(h, evs, i);
    }
  }

  /** The range a step passes to the memory manager's free, if it does. */
  ghost function FreedBy(s: System, ev: Event): Option<Extent> {
    match ev
    case FreeRelease(t) => if t in s.calls then Some(CallRange(s.calls[t])) else None
    case CloseFree(sid) =>
      if sid in s.files && s.files[sid].bufs != [] then Some(s.files[sid].bufs[0].Range()) else None
    case _ => None
  }

  /** No free in any run reaches a free block: every free removes exactly one live extent. */
  lemma EveryFreeIsOfALiveBuffer(h: seq<System>, evs: seq<Event>, i: nat)
    requires Run(h, evs) && i < |evs|
    ensures FreedBy(h[i], evs[i]).Some? ==>
              var d := FreedBy(h[i], evs[i]).value;
              d in h[i].m.Live() && h[i + 1].m.Live() == h[i].m.Live() - {d}
  {
    OwnershipInvariant(h, evs);
    var s, ev := h[i], evs[i];
    assert Next(s, h[i + 1], ev);
    match ev {
      case FreeRelease(t) => FreeingIsLive(s, t);
      case CloseFree(sid) => ClosingIsLive(s, sid);
      case _ =>
    }
  }

  // ---- Release

  ghost predicate IsCloseOf(ev: Event, sid: nat) {
    ev == CloseFree(sid) || ev == CloseDetach(sid) || ev == CloseEnd(sid)
  }

  /** Steps the release loop still has to make for a closing file. */
  ghost function CloseWork(f: Files): int {
    2 * |f.bufs| - (if f.phase == Closing(true) then 1 else 0)
  }

  /** A release step is always possible and succeeds: it never finds its buffer missing. */
  lemma CloseCanContinue(s: System, sid: nat, s': System, ret: int)
    requires Inv(s) && sid in s.files && s.files[sid].phase == Closing(false) && s.files[sid].bufs != []
    requires MmFreeSpec(s.m, s'.m, s.files[sid].bufs[0].Range(), ret)
    requires s' == s.(m := s'.m, files := s.files[sid := s.files[sid].(phase := Closing(true))])
    ensures ret == 0 && Next(s, s', CloseFree(sid))
  {
    ClosingIsLive(s, sid);
  }

  /** Each release step shortens the work of its own file and leaves every other file and
      every call in flight as they were; no other step touches a closing file. */
  lemma CloseStepsAreLocal(s: System, s': System, ev: Event, sid: nat)
    requires Inv(s) && Next(s, s', ev)
    requires sid in s.files && s.files[sid].phase.Closing?
    ensures IsCloseOf(ev, sid) ==>
              && s'.calls == s.calls && s'.files - {sid} == s.files - {sid}
              && (ev != CloseEnd(sid) ==> sid in s'.files && CloseWork(s'.files[sid]) == CloseWork(s.files[sid]) - 1)
              && (ev == CloseEnd(sid) ==> s.files[sid].bufs == [] && sid !in s'.files)
    ensures !IsCloseOf(ev, sid) ==> sid in s'.files && s'.files[sid] == s.files[sid]
  {
    if s.files[sid].bufs != [] {
      OwnedHead(s.files[sid]);
    }
    if ev.RequestAdd? {
      assert IsOpen(s, s.calls[ev.thread].sid);
    }
  }

  function CountCloses(evs: seq<Event>, sid: nat): nat {
    if evs == [] then 0
    else CountCloses(evs[..|evs| - 1], sid)
         + (if evs[|evs| - 1] == CloseFree(sid) || evs[|evs| - 1] == CloseDetach(sid) then 1 else 0)
  }

  /** However the steps of other files are interleaved, a closing file that is not yet gone
      has done exactly as much of its work as it has taken steps: so after two steps per
      buffer its list is empty and the session can be destroyed. */
  lemma {:induction false} ReleaseEmptiesItsList(h: seq<System>, evs: seq<Event>, sid: nat)
    requires |h| == |evs| + 1 && Inv(h[0])
    requires forall i | 0 <= i < |evs| :: Next(h[i], h[i + 1], evs[i]) && evs[i] != CloseEnd(sid)
    requires sid in h[0].files && h[0].files[sid].phase.Closing?
    ensures var s := h[|evs|];
            && Inv(s) && sid in s.files && s.files[sid].phase.Closing?
            && CloseWork(s.files[sid]) + CountCloses(evs, sid) == CloseWork(h[0].files[sid])
            && (CountCloses(evs, sid) == CloseWork(h[0].files[sid]) ==> s.files[sid] == Files([], Closing(false)))
  {
    if evs != [] {
      var n := |evs| - 1;
      var g, fs := h[..n + 1], evs[..n];
      forall i | 0 <= i < n
        ensures Next(g[i], g[i + 1], fs[i]) && fs[i] != CloseEnd(sid)
      {
        assert g[i] == h[i] && g[i + 1] == h[i + 1] && fs[i] == evs[i];
      }
      ReleaseEmptiesItsList(g, fs, sid);
      assert g[n] == h[n];
      assert Next(h[n], h[n + 1], evs[n]);
      StepKeepsInv(h[n], h[n + 1], evs[n]);
      CloseStepsAreLocal(h[n], h[n + 1], evs[n], sid);
    }
  }
}
