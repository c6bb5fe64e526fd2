/** The memory manager: regions searched in list order, and frees routed to the region that
    contains the buffer. */
module MemoryManagers {
  import opened Words
  import opened Sequences
  import opened Blocks
  import opened Regions
  import opened RegionRuns

  datatype Version = V1 | V2

  datatype MmState = MmState(sram: seq<RegionState>, ddr: seq<RegionState>, version: Version) {
    function All(): seq<RegionState> { sram + ddr }

    ghost function Live(): set<Extent> {
      set i, e | 0 <= i < |All()| && e in All()[i].Live() :: e
    }
  }

  /** Regions are well formed, occupy separate address ranges and have their own ids. */
  ghost predicate ValidMm(m: MmState) {
    && (forall i | 0 <= i < |m.All()| :: ValidRegion(m.All()[i]))
    && Separate(m.All())
    && (forall i | 0 <= i < |m.All()| :: m.All()[i].id < |m.All()|)
  }

  ghost predicate Separate(rs: seq<RegionState>) {
    forall i, j | 0 <= i < j < |rs| ::
      && (rs[i].End() <= rs[j].pa || rs[j].End() <= rs[i].pa)
      && rs[i].id != rs[j].id
  }

  ghost predicate SameRegions(m: MmState, m': MmState) {
    && |m'.sram| == |m.sram| && |m'.ddr| == |m.ddr| && m'.version == m.version
    && forall i | 0 <= i < |m.All()| :: SameRegion(m.All()[i], m'.All()[i])
  }

  /** On Zhouyi V2, read-only and stack data must go to the region of the text buffer. */
  predicate Pinned(version: Version, req: BufRequest) {
    version == V2 && req.dataType == DATA_TYPE_RO_STACK
  }

  ghost predicate Eligible(m: MmState, i: int, req: BufRequest) {
    0 <= i < |m.ddr| && (Pinned(m.version, req) ==> m.ddr[i].id == req.regionId)
  }

  ghost predicate Exact(req: BufRequest) {
    ExactAlignment(req.dataType, Alignment(req.alignInPage))
  }

  /** The fields of a request are machine words; where a strict region may serve it, the size
      is one that the kernel can round up to a power of two in 64 bits. */
  ghost predicate RequestInRange(m: MmState, req: BufRequest) {
    && req.bytes < U64 && req.alignInPage < U32
    && (forall i | 0 <= i < |m.ddr| && m.ddr[i].flag == Strict :: req.bytes <= U64 / 2)
  }

  /** The test before an attempt: the region's id for pinned data, else its free bytes. */
  ghost predicate Tried(m: MmState, k: int, req: BufRequest) {
    && Eligible(m, k, req)
    && (!Pinned(m.version, req) ==> AllocSize(m.ddr[k].flag, req.bytes) <= m.ddr[k].totFreeBytes)
  }

  /** Pinned data skips the free-byte test, so a request far larger than its region can reach
      the forward scan and overrun it. */
  ghost predicate MmOverruns(m: MmState, req: BufRequest) {
    exists k :: Tried(m, k, req) && Overruns(m.ddr[k], req)
  }

  ghost predicate ServedBy(m: MmState, m': MmState, k: int, req: BufRequest, buf: Buffer) {
    && Tried(m, k, req)
    && |m'.ddr| == |m.ddr| && m' == m.(ddr := m.ddr[k := m'.ddr[k]])
    && AllocSpec(m.ddr[k], m'.ddr[k], req, 0, buf)
  }

  /** A successful request is served by the first eligible region that can hold it, or by the
      one it overruns; a request fails only if no eligible region can hold it and none is
      overrun, and then nothing has changed. */
  ghost predicate MmAllocSpec(m: MmState, m': MmState, req: BufRequest, ret: int, buf: Buffer) {
    if ret == 0 then
      exists k :: ServedBy(m, m', k, req, buf) && NoneBefore(m, k, req)
    else
      && m' == m && (ret == EINVAL || ret == ENOMEM)
      && NoneBefore(m, |m.ddr|, req)
  }

  /** No region before `k` can serve an exactly aligned request, and none is overrun by it. */
  ghost predicate NoneBefore(m: MmState, k: int, req: BufRequest) {
    && (forall j | 0 <= j < k && Tried(m, j, req) :: !Overruns(m.ddr[j], req))
    && (Exact(req) ==> forall j | 0 <= j < k && Eligible(m, j, req) :: !CanServe(m.ddr[j], req))
  }

  ghost predicate NamesFreeAnywhere(m: MmState, d: Extent) {
    exists i :: 0 <= i < |m.All()| && NamesFreeBlock(m.All()[i], d)
  }

  /** A live buffer is freed; a descriptor of a free block corrupts a counter; anything else
      is refused. */
  ghost predicate MmFreeSpec(m: MmState, m': MmState, d: Extent, ret: int) {
    if d in m.Live() then
      ret == 0 && ValidMm(m') && SameRegions(m, m') && m'.Live() == m.Live() - {d}
    else if NamesFreeAnywhere(m, d) then
      ret == 0 && SameRegions(m, m') && !ValidMm(m')
    else
      ret == EINVAL && m' == m
  }

  // ---- Lifting region steps to the manager

  /** The free-byte check before an attempt never skips a region that could serve. */
  lemma PrefilterIsSound(r: RegionState, req: BufRequest)
    requires ValidRegion(r) && CanServe(r, req)
    ensures AllocSize(r.flag, req.bytes) <= r.totFreeBytes
  {
    var n, a := AllocSize(r.flag, req.bytes), Alignment(req.alignInPage);
    var x: nat :| Fits(r.Live(), r.pa, r.End(), n, a, x);
    FitBelowFreeTotal(r.blocks, r.pa, r.End(), n, a, x);
  }

  lemma SkippedIsHopeless(m: MmState, k: nat, req: BufRequest)
    requires ValidMm(m) && k < |m.ddr| && NoneBefore(m, k, req) && !Tried(m, k, req)
    ensures NoneBefore(m, k + 1, req)
  {
    assert m.All()[|m.sram| + k] == m.ddr[k];
    if !Pinned(m.version, req) && CanServe(m.ddr[k], req) {
      PrefilterIsSound(m.ddr[k], req);
    }
  }

  lemma FailedIsHopeless(m: MmState, k: nat, req: BufRequest, r': RegionState, ret: int, buf: Buffer)
    requires k < |m.ddr| && NoneBefore(m, k, req) && ret != 0 && AllocSpec(m.ddr[k], r', req, ret, buf)
    ensures NoneBefore(m, k + 1, req) && r' == m.ddr[k]
  {
  }

  lemma PrefilterBounds(r: RegionState, n: nat)
    requires ValidRegion(r) && n <= r.totFreeBytes
    ensures n <= r.pa
  {
    SumFreeBound(r.blocks, r.pa, r.End());
  }

  /** The request that a region is tried for meets what an attempt asks of it. */
  lemma TriedFits(m: MmState, k: int, req: BufRequest)
    requires ValidMm(m) && RequestInRange(m, req) && Tried(m, k, req)
    ensures ValidRegion(m.ddr[k]) && IsRequest(m.ddr[k], req)
    ensures Forward(req.dataType) || AllocSize(m.ddr[k].flag, req.bytes) <= m.ddr[k].pa
  {
    assert m.All()[|m.sram| + k] == m.ddr[k];
    if !Pinned(m.version, req) {
      PrefilterBounds(m.ddr[k], AllocSize(m.ddr[k].flag, req.bytes));
    }
  }

  /** Only pinned data can overrun a region. */
  lemma OnlyPinnedOverruns(m: MmState, k: int, req: BufRequest)
    requires ValidMm(m) && Tried(m, k, req) && Overruns(m.ddr[k], req)
    ensures Pinned(m.version, req)
  {
    assert m.All()[|m.sram| + k] == m.ddr[k];
    if !Pinned(m.version, req) {
      SmallNeverOverruns(m.ddr[k], req);
    }
  }

  lemma LiveOwner(m: MmState, d: Extent) returns (i: nat)
    requires ValidMm(m) && d in m.Live()
    ensures i < |m.All()| && d in m.All()[i].Live()
    ensures m.All()[i].pa <= d.pa && d.End() <= m.All()[i].End() && d.bytes > 0
    ensures forall j | 0 <= j < |m.All()| && j != i :: d !in m.All()[j].Live()
  {
    i :| 0 <= i < |m.All()| && d in m.All()[i].Live();
    var all := m.All();
    LiveBounds(all[i].blocks, all[i].pa, all[i].End());
    forall j | 0 <= j < |all| && j != i
      ensures d !in all[j].Live()
    {
      LiveBounds(all[j].blocks, all[j].pa, all[j].End());
      if i < j {
        assert all[i].End() <= all[j].pa || all[j].End() <= all[i].pa;
      } else {
        assert all[j].End() <= all[i].pa || all[i].End() <= all[j].pa;
      }
    }
  }

  /** Live extents of all regions together never overlap. */
  lemma AllLiveDisjoint(m: MmState)
    requires ValidMm(m)
    ensures forall d, e | d in m.Live() && e in m.Live() && d != e :: Disjoint(d, e)
  {
    forall d, e | d in m.Live() && e in m.Live() && d != e
      ensures Disjoint(d, e)
    {
      var all := m.All();
      var i := LiveOwner(m, d);
      var j := LiveOwner(m, e);
      if i == j {
        LiveDisjoint(all[i].blocks, all[i].pa, all[i].End());
      } else if i < j {
        assert all[i].End() <= all[j].pa || all[j].End() <= all[i].pa;
      } else {
        assert all[j].End() <= all[i].pa || all[i].End() <= all[j].pa;
      }
    }
  }

  lemma ReplaceRegion(m: MmState, m': MmState, k: nat)
    requires ValidMm(m) && k < |m.All()| && m'.version == m.version
    requires |m'.sram| == |m.sram| && |m'.ddr| == |m.ddr|
    requires m'.All() == m.All()[k := m'.All()[k]]
    requires SameRegion(m.All()[k], m'.All()[k])
    ensures SameRegions(m, m')
    ensures ValidMm(m') <==> ValidRegion(m'.All()[k])
    ensures m'.Live() == m.Live() - m.All()[k].Live() + m'.All()[k].Live()
  {
    assert |m'.All()| == |m.All()|;
    var a, a' := m.All(), m'.All();
    assert Separate(a');
    forall e
      ensures e in m'.Live() <==> e in m.Live() - a[k].Live() + a'[k].Live()
    {
      if e in m'.Live() && e !in a'[k].Live() {
        var i :| 0 <= i < |a'| && e in a'[i].Live();
        assert i != k && a[i] == a'[i];
        var o := LiveOwner(m, e);
        assert e !in a[k].Live();
      } else if e in m.Live() && e !in a[k].Live() {
        var i :| 0 <= i < |a| && e in a[i].Live();
        assert i != k && a[i] == a'[i];
      }
    }
  }

  /** Pinned data can reach only one region. */
  lemma OnePinned(m: MmState, j: int, k: int, req: BufRequest)
    requires ValidMm(m) && Pinned(m.version, req) && Eligible(m, j, req) && Eligible(m, k, req)
    ensures j == k
  {
    assert m.All()[|m.sram| + j] == m.ddr[j] && m.All()[|m.sram| + k] == m.ddr[k];
  }

  /** The region that serves a request is overrun only if the request overruns at all. */
  lemma ServedOverrun(m: MmState, m': MmState, k: int, req: BufRequest, buf: Buffer)
    requires ValidMm(m) && ServedBy(m, m', k, req, buf)
    ensures MmOverruns(m, req) <==> Overruns(m.ddr[k], req)
  {
    if MmOverruns(m, req) {
      var j :| Tried(m, j, req) && Overruns(m.ddr[j], req);
      OnlyPinnedOverruns(m, j, req);
      OnePinned(m, j, k, req);
    }
  }

  lemma ServedReplaces(m: MmState, m': MmState, k: int, req: BufRequest, buf: Buffer)
    requires ValidMm(m) && ServedBy(m, m', k, req, buf)
    ensures SameRegions(m, m') && (ValidMm(m') <==> ValidRegion(m'.ddr[k]))
    ensures m'.Live() == m.Live() - m.ddr[k].Live() + m'.ddr[k].Live()
  {
    var i := |m.sram| + k;
    assert m.All()[i] == m.ddr[k] && m'.All()[i] == m'.ddr[k];
    assert m'.All() == m.All()[i := m'.All()[i]];
    ReplaceRegion(m, m', i);
  }

  /** A request keeps all regions well formed if and only if it does not overrun one. */
  lemma AllocIsSafe(m: MmState, m': MmState, req: BufRequest, ret: int, buf: Buffer)
    requires ValidMm(m) && MmAllocSpec(m, m', req, ret, buf)
    ensures ValidMm(m') <==> !MmOverruns(m, req)
  {
    if ret == 0 {
      var k :| ServedBy(m, m', k, req, buf) && NoneBefore(m, k, req);
      assert m.All()[|m.sram| + k] == m.ddr[k];
      ServedReplaces(m, m', k, req, buf);
      ServedOverrun(m, m', k, req, buf);
      AttemptIsSafe(m.ddr[k], m'.ddr[k], req, 0, buf);
    }
  }

  /** A successful request that overruns nothing adds exactly one live extent, disjoint from
      all others. */
  lemma AllocAddsOne(m: MmState, m': MmState, req: BufRequest, buf: Buffer)
    requires ValidMm(m) && MmAllocSpec(m, m', req, 0, buf) && !MmOverruns(m, req)
    ensures ValidMm(m') && SameRegions(m, m')
    ensures buf.Range() !in m.Live() && m'.Live() == m.Live() + {buf.Range()}
  {
    AllocIsSafe(m, m', req, 0, buf);
    var k :| ServedBy(m, m', k, req, buf) && NoneBefore(m, k, req);
    ServedReplaces(m, m', k, req, buf);
    NewRange(m, k, m'.ddr[k], buf.Range());
  }

  /** A range that becomes live in one region was live in none. */
  lemma NewRange(m: MmState, k: int, r': RegionState, e: Extent)
    requires ValidMm(m) && 0 <= k < |m.ddr| && ValidRegion(r') && SameRegion(m.ddr[k], r')
    requires e in r'.Live() && e !in m.ddr[k].Live()
    ensures e !in m.Live()
  {
    var i := |m.sram| + k;
    assert m.All()[i] == m.ddr[k];
    LiveBounds(r'.blocks, r'.pa, r'.End());
    forall o | 0 <= o < |m.All()|
      ensures e !in m.All()[o].Live()
    {
      var r := m.All()[o];
      LiveBounds(r.blocks, r.pa, r.End());
      assert o < i ==> r.End() <= m.ddr[k].pa || m.ddr[k].End() <= r.pa;
      assert i < o ==> r.End() <= m.ddr[k].pa || m.ddr[k].End() <= r.pa;
    }
  }

  ghost function StatesOf(rs: seq<Region>): (s: seq<RegionState>)
    reads rs
    ensures |s| == |rs| && forall i | 0 <= i < |rs| :: s[i] == rs[i].State()
  {
    if rs == [] then [] else [rs[0].State()] + StatesOf(rs[1..])
  }

  class MemoryManager {
    var sram: seq<Region>
    var ddr: seq<Region>
    const version: Version

    ghost function State(): MmState
      reads this, sram, ddr
    {
      MmState(StatesOf(sram), StatesOf(ddr), version)
    }

    ghost predicate Valid()
      reads this, sram, ddr
    {
      ValidMm(State()) && Distinct(sram + ddr)
    }

    constructor (version: Version)
      ensures Valid() && State() == MmState([], [], version)
    {
      sram, ddr := [], [];
      this.version := version;
    }

    /** Registers a region; it gets the next free id and goes to the front of its list. */
    method AddRegion(base: nat, bytes: nat, isSram: bool, flag: AllocFlag) returns (ret: int)
      requires Valid()
      requires bytes > 0 ==> Placeable(base, bytes) && ClearOf(State(), base, bytes)
      modifies this
      ensures bytes == 0 ==> ret == EINVAL && State() == old(State())
      ensures bytes > 0 ==>
                ret == 0 && Valid() && State() == WithRegion(old(State()), base, bytes, isSram, flag)
    {
      if bytes == 0 {
        return EINVAL;
      }
      ghost var m, m' := State(), WithRegion(State(), base, bytes, isSram, flag);
      var region := new Region(|sram| + |ddr|, base, bytes, flag);
      assert ValidMm(m') by {
        InsertRegion(m, m', region.State(), isSram);
      }
      FreshIsDistinct(sram, ddr, region);
      Prepend(region, isSram);
      assert State() == m';
      ret := 0;
    }

    /** One attempt in DDR region `k`. */
    method TryRegion(k: nat, req: BufRequest, tid: int) returns (ret: int, buf: Buffer)
      requires Valid() && k < |ddr| && RequestInRange(State(), req)
      requires Tried(State(), k, req)
      modifies ddr[k]
      ensures State() == old(State()).(ddr := old(State()).ddr[k := ddr[k].State()])
      ensures AllocSpec(old(ddr[k].State()), ddr[k].State(), req, ret, buf)
    {
      ghost var m, r := State(), ddr[k].State();
      assert m.ddr[k] == r;
      TriedFits(m, k, req);
      DistinctParts(sram, ddr);
      ret, buf := ddr[k].TryAlloc(req, tid);
      assert AllocSpec(r, ddr[k].State(), req, ret, buf);
      assert StatesOf(ddr) == m.ddr[k := ddr[k].State()];
      assert StatesOf(sram) == m.sram;
    }

    /** Tries the DDR regions in list order. */
    method ScanRegions(req: BufRequest, tid: int) returns (ret: int, buf: Buffer)
      requires Valid() && RequestInRange(State(), req)
      modifies ddr
      ensures MmAllocSpec(old(State()), State(), req, ret, buf)
    {
      ret, buf := ENOMEM, Buffer(0, 0, 0);
      ghost var m := State();
      for k := 0 to |ddr|
        invariant State() == m && |m.ddr| == |ddr|
        invariant ret == ENOMEM || ret == EINVAL
        invariant NoneBefore(m, k, req)
      {
        assert m.ddr[k] == ddr[k].State();
        if (if Pinned(version, req) then ddr[k].id == req.regionId
            else AllocSize(ddr[k].flag, req.bytes) <= ddr[k].totFreeBytes)
        {
          ret, buf := TryRegion(k, req, tid);
          if ret == 0 {
            assert ServedBy(m, State(), k, req, buf);
            return;
          }
          FailedIsHopeless(m, k, req, ddr[k].State(), ret, buf);
          assert m.ddr[k := m.ddr[k]] == m.ddr;
        } else {
          SkippedIsHopeless(m, k, req);
        }
      }
    }

    /** The allocation entry point; SRAM is not enabled in the shipped configuration. */
    method Alloc(req: BufRequest, tid: int) returns (ret: int, buf: Buffer)
      requires Valid() && RequestInRange(State(), req)
      modifies ddr
      ensures MmAllocSpec(old(State()), State(), req, ret, buf)
      ensures Valid() <==> !MmOverruns(old(State()), req)
      ensures ret == 0 && !MmOverruns(old(State()), req) ==>
                buf.Range() !in old(State()).Live() && State().Live() == old(State()).Live() + {buf.Range()}
      ensures req.bytes == 0 || req.alignInPage == 0 ==> ret == EINVAL
      ensures req.bytes > 0 && req.alignInPage > 0 && sram == [] && ddr == [] ==> ret == ENOMEM
    {
      buf := Buffer(0, 0, 0);
      ghost var m := State();
      if req.bytes == 0 || req.alignInPage == 0 {
        EmptyRequest(m, req);
        AllocIsSafe(m, m, req, EINVAL, buf);
        return EINVAL, buf;
      }
      if |sram| == 0 && |ddr| == 0 {
        AllocIsSafe(m, m, req, ENOMEM, buf);
        return ENOMEM, buf;
      }
      ret, buf := ScanRegions(req, tid);
      AllocIsSafe(m, State(), req, ret, buf);
      if ret == 0 && ValidMm(State()) {
        AllocAddsOne(m, State(), req, buf);
      }
    }

    lemma EmptyRequest(m: MmState, req: BufRequest)
      requires req.bytes == 0 || req.alignInPage == 0
      ensures NoneBefore(m, |m.ddr|, req)
    {
    }

    /** The region of `rs` that contains the whole range, if any; `pa + bytes` is computed in 64 bits. */
    method FindRegion(rs: seq<Region>, d: Extent) returns (k: int)
      ensures k < 0 ==> d.bytes == 0 || forall j | 0 <= j < |rs| :: !Contains(rs[j].pa, rs[j].totBytes, d)
      ensures k >= 0 ==> k < |rs| && d.bytes != 0 && Contains(rs[k].pa, rs[k].totBytes, d)
    {
      if d.bytes == 0 {
        return -1;
      }
      for i := 0 to |rs|
        invariant forall j | 0 <= j < i :: !Contains(rs[j].pa, rs[j].totBytes, d)
      {
        if d.pa >= rs[i].pa && (d.pa + d.bytes) % U64 <= rs[i].pa + rs[i].totBytes {
          return i;
        }
      }
      k := -1;
    }

    method FreeBuffer(d: Extent) returns (ret: int)
      requires Valid()
      modifies sram, ddr
      ensures MmFreeSpec(old(State()), State(), d, ret)
      ensures d in old(State()).Live() ==> Valid()
    {
      var k := FindRegion(sram, d);
      if k >= 0 {
        ret := FreeInSram(k, d);
      } else {
        k := FindRegion(ddr, d);
        if k >= 0 {
          ret := FreeInDdr(k, d);
        } else {
          NotKnown(d);
          ret := EINVAL;
        }
      }
    }

    lemma NotKnown(d: Extent)
      requires Valid()
      requires d.bytes == 0 || forall j | 0 <= j < |sram| :: !Contains(sram[j].pa, sram[j].totBytes, d)
      requires d.bytes == 0 || forall j | 0 <= j < |ddr| :: !Contains(ddr[j].pa, ddr[j].totBytes, d)
      ensures d !in State().Live() && !NamesFreeAnywhere(State(), d)
    {
      var m := State();
      forall j | 0 <= j < |m.All()|
        ensures d.bytes == 0 || !Contains(m.All()[j].pa, m.All()[j].totBytes, d)
      {
        assert m.All()[j] == if j < |sram| then sram[j].State() else ddr[j - |sram|].State();
      }
      NotContained(m, d);
    }

    method FreeInSram(k: nat, d: Extent) returns (ret: int)
      requires Valid() && k < |sram| && Contains(sram[k].pa, sram[k].totBytes, d)
      modifies sram[k]
      ensures MmFreeSpec(old(State()), State(), d, ret)
    {
      ghost var m := State();
      assert m.All()[k] == sram[k].State();
      DistinctParts(sram, ddr);
      ret := sram[k].FreeInRegion(d);
      assert StatesOf(ddr) == m.ddr;
      assert StatesOf(sram) == m.sram[k := sram[k].State()];
      LiftFree(m, State(), true, k, d, ret);
    }

    method FreeInDdr(k: nat, d: Extent) returns (ret: int)
      requires Valid() && k < |ddr| && Contains(ddr[k].pa, ddr[k].totBytes, d)
      modifies ddr[k]
      ensures MmFreeSpec(old(State()), State(), d, ret)
    {
      ghost var m := State();
      assert m.All()[|sram| + k] == ddr[k].State();
      DistinctParts(sram, ddr);
      ret := ddr[k].FreeInRegion(d);
      assert StatesOf(sram) == m.sram;
      assert StatesOf(ddr) == m.ddr[k := ddr[k].State()];
      LiftFree(m, State(), false, k, d, ret);
    }

    method Prepend(region: Region, isSram: bool)
      modifies this
      ensures if isSram then sram == [region] + old(sram) && ddr == old(ddr)
              else sram == old(sram) && ddr == [region] + old(ddr)
      ensures State() == if isSram then old(State()).(sram := [region.State()] + old(State()).sram)
                         else old(State()).(ddr := [region.State()] + old(State()).ddr)
    {
      if isSram {
        StatesOfCons(region, sram);
        sram := [region] + sram;
      } else {
        StatesOfCons(region, ddr);
        ddr := [region] + ddr;
      }
    }
  }

  predicate Contains(pa: nat, totBytes: nat, d: Extent) {
    pa <= d.pa && (d.pa + d.bytes) % U64 <= pa + totBytes
  }

  lemma NamedIsContained(r: RegionState, d: Extent)
    requires ValidRegion(r)
    requires d in r.Live() || NamesFreeBlock(r, d)
    ensures d.bytes > 0 && Contains(r.pa, r.totBytes, d) && r.pa <= d.pa && d.End() <= r.End()
    ensures d.End() % U64 == d.End()
  {
    TilesBounds(r.blocks, r.pa, r.End());
    DivModUnique(d.End(), U64, 0, d.End());
  }

  lemma NotContained(m: MmState, d: Extent)
    requires ValidMm(m)
    requires d.bytes == 0 || forall j | 0 <= j < |m.All()| :: !Contains(m.All()[j].pa, m.All()[j].totBytes, d)
    ensures d !in m.Live() && !NamesFreeAnywhere(m, d)
  {
    forall j | 0 <= j < |m.All()|
      ensures d !in m.All()[j].Live() && !NamesFreeBlock(m.All()[j], d)
    {
      if d in m.All()[j].Live() || NamesFreeBlock(m.All()[j], d) {
        NamedIsContained(m.All()[j], d);
      }
    }
  }

  /** Only one region can know a range, so a free in any region containing it decides. */
  lemma OnlyHere(m: MmState, at: nat, d: Extent)
    requires ValidMm(m) && at < |m.All()|
    requires Contains(m.All()[at].pa, m.All()[at].totBytes, d)
    ensures forall j | 0 <= j < |m.All()| && j != at ::
              d !in m.All()[j].Live() && !NamesFreeBlock(m.All()[j], d)
  {
    forall j | 0 <= j < |m.All()| && j != at
      ensures d !in m.All()[j].Live() && !NamesFreeBlock(m.All()[j], d)
    {
      var r := m.All()[j];
      assert j < at ==> r.End() <= m.All()[at].pa || m.All()[at].End() <= r.pa;
      assert at < j ==> r.End() <= m.All()[at].pa || m.All()[at].End() <= r.pa;
      if d in r.Live() || NamesFreeBlock(r, d) {
        NamedIsContained(r, d);
        assert false;
      }
    }
  }

  lemma FreeInOne(m: MmState, m': MmState, at: nat, d: Extent, ret: int)
    requires ValidMm(m) && at < |m.All()| && m'.version == m.version
    requires |m'.sram| == |m.sram| && |m'.ddr| == |m.ddr|
    requires m'.All() == m.All()[at := m'.All()[at]]
    requires Contains(m.All()[at].pa, m.All()[at].totBytes, d)
    requires FreeSpec(m.All()[at], m'.All()[at], d, ret)
    ensures MmFreeSpec(m, m', d, ret)
  {
    OnlyHere(m, at, d);
    ReplaceRegion(m, m', at);
    var r := m.All()[at];
    FreeIsSafeUnlessFree(r, m'.All()[at], d, ret);
    if d in r.Live() {
    } else if NamesFreeBlock(r, d) {
      assert NamesFreeAnywhere(m, d);
    } else {
      assert m'.All() == m.All();
      assert m'.sram == m'.All()[..|m.sram|] && m.sram == m.All()[..|m.sram|];
      assert m'.ddr == m'.All()[|m.sram|..] && m.ddr == m.All()[|m.sram|..];
    }
  }

  lemma LiftFree(m: MmState, m': MmState, inSram: bool, k: nat, d: Extent, ret: int)
    requires ValidMm(m) && |m'.sram| == |m.sram| && |m'.ddr| == |m.ddr|
    requires inSram ==> k < |m.sram| && m' == m.(sram := m.sram[k := m'.sram[k]])
                        && Contains(m.sram[k].pa, m.sram[k].totBytes, d)
                        && FreeSpec(m.sram[k], m'.sram[k], d, ret)
    requires !inSram ==> k < |m.ddr| && m' == m.(ddr := m.ddr[k := m'.ddr[k]])
                         && Contains(m.ddr[k].pa, m.ddr[k].totBytes, d)
                         && FreeSpec(m.ddr[k], m'.ddr[k], d, ret)
    ensures MmFreeSpec(m, m', d, ret)
  {
    var at := if inSram then k else |m.sram| + k;
    assert m'.All() == m.All()[at := m'.All()[at]];
    FreeInOne(m, m', at, d, ret);
  }

  ghost predicate ClearOf(m: MmState, base: nat, bytes: nat) {
    forall i | 0 <= i < |m.All()| :: base + bytes <= m.All()[i].pa || m.All()[i].End() <= base
  }

  lemma StatesOfCons(x: Region, rs: seq<Region>)
    ensures StatesOf([x] + rs) == [x.State()] + StatesOf(rs)
  {
    assert ([x] + rs)[1..] == rs;
  }

  lemma DistinctParts<T>(a: seq<T>, b: seq<T>)
    requires Distinct(a + b)
    ensures Distinct(a) && Distinct(b) && forall i, j | 0 <= i < |a| && 0 <= j < |b| :: a[i] != b[j]
  {
    var s := a + b;
    assert forall i | 0 <= i < |a| :: s[i] == a[i];
    assert forall i | 0 <= i < |b| :: s[|a| + i] == b[i];
  }

  lemma FreshIsDistinct(a: seq<Region>, b: seq<Region>, x: Region)
    requires Distinct(a + b) && x !in a && x !in b
    ensures Distinct([x] + a + b) && Distinct(a + ([x] + b))
  {
    InsertDistinct(a, b, x);
    assert [] + (a + b) == a + b;
    InsertDistinct([], a + b, x);
    assert [] + [x] + (a + b) == [x] + a + b;
  }

  lemma InsertDistinct<T>(a: seq<T>, b: seq<T>, x: T)
    requires Distinct(a + b) && x !in a && x !in b
    ensures Distinct(a + ([x] + b)) && Distinct(a + [x] + b)
  {
    var s, t := a + b, a + ([x] + b);
    assert a + [x] + b == t;
    forall i, j | 0 <= i < j < |t|
      ensures t[i] != t[j]
    {
      var i' := if i > |a| then i - 1 else i;
      var j' := if j > |a| then j - 1 else j;
      assert i != |a| && j != |a| ==> i' < j' && t[i] == s[i'] && t[j] == s[j'];
    }
  }

  function InitialRegion(id: nat, base: nat, bytes: nat, flag: AllocFlag): RegionState {
    RegionState(id, base, bytes, flag, [Block(base, bytes, 0, DATA_TYPE_NONE, Free)], bytes)
  }

  function WithRegion(m: MmState, base: nat, bytes: nat, isSram: bool, flag: AllocFlag): MmState {
    var r := InitialRegion(|m.All()|, base, bytes, flag);
    if isSram then m.(sram := [r] + m.sram) else m.(ddr := [r] + m.ddr)
  }

  lemma SeparateInsert(s: seq<RegionState>, p: nat, r: RegionState)
    requires Separate(s) && p <= |s| && r.id == |s|
    requires forall i | 0 <= i < |s| :: s[i].id < |s| && (r.End() <= s[i].pa || s[i].End() <= r.pa)
    ensures Separate(s[..p] + [r] + s[p..])
  {
    var t := s[..p] + [r] + s[p..];
    forall i, j | 0 <= i < j < |t|
      ensures (t[i].End() <= t[j].pa || t[j].End() <= t[i].pa) && t[i].id != t[j].id
    {
      var i' := if i > p then i - 1 else i;
      var j' := if j > p then j - 1 else j;
      if i != p && j != p {
        assert t[i] == s[i'] && t[j] == s[j'];
      }
    }
  }

  lemma InsertRegion(m: MmState, m': MmState, r: RegionState, isSram: bool)
    requires ValidMm(m) && ValidRegion(r) && r.id == |m.All()|
    requires ClearOf(m, r.pa, r.totBytes)
    requires m' == if isSram then m.(sram := [r] + m.sram) else m.(ddr := [r] + m.ddr)
    ensures ValidMm(m')
  {
    var p := if isSram then 0 else |m.sram|;
    SeparateInsert(m.All(), p, r);
    assert m'.All() == m.All()[..p] + [r] + m.All()[p..];
  }

  // ---- Where a request is served

  /** The regions a request may be served by: on V2, read-only and stack data (type 2) only
      from the region it names, other requests from any DDR region. */
  ghost predicate MayServe(m: MmState, k: int, req: BufRequest) {
    0 <= k < |m.ddr| && (m.version == V2 && req.dataType == 2 ==> m.ddr[k].id == req.regionId)
  }

  /** The region has an aligned free range for the request. */
  ghost predicate HasRoom(r: RegionState, req: BufRequest) {
    var n, a := AllocSize(r.flag, req.bytes), req.alignInPage * 4096 % U32;
    n > 0 && a > 0 && exists x: nat :: Fits(r.Live(), r.pa, r.End(), n, a, x)
  }

  /** A well-served request goes to the first region that may serve it and has room, which
      is the one its buffer names; it fails exactly if there is none. */
  lemma ServedByFirst(m: MmState, m': MmState, req: BufRequest, ret: int, buf: Buffer)
    requires ValidMm(m) && MmAllocSpec(m, m', req, ret, buf) && ValidMm(m')
    requires req.dataType == 1 || req.dataType == 2 ==> IsPow2(req.alignInPage * 4096 % U32)
    ensures ret == 0 <==> exists k :: MayServe(m, k, req) && HasRoom(m.ddr[k], req)
    ensures ret == 0 ==> exists k :: ServesFirst(m, k, req, buf)
  {
    if ret == 0 {
      var k := Server(m, m', req, buf);
      assert MayServe(m, k, req) && HasRoom(m.ddr[k], req);
    } else {
      NoRoomBefore(m, |m.ddr|, req);
    }
  }

  /** Region `k` is the first with room, and `buf` lies in it. */
  ghost predicate ServesFirst(m: MmState, k: int, req: BufRequest, buf: Buffer) {
    && MayServe(m, k, req) && HasRoom(m.ddr[k], req)
    && buf.regionId == m.ddr[k].id && buf.bytes == AllocSize(m.ddr[k].flag, req.bytes)
    && m.ddr[k].pa <= buf.pa && buf.pa + buf.bytes <= m.ddr[k].End()
    && forall j | 0 <= j < k && MayServe(m, j, req) :: !HasRoom(m.ddr[j], req)
  }

  lemma Server(m: MmState, m': MmState, req: BufRequest, buf: Buffer) returns (k: int)
    requires ValidMm(m) && MmAllocSpec(m, m', req, 0, buf) && ValidMm(m')
    requires req.dataType == 1 || req.dataType == 2 ==> IsPow2(req.alignInPage * 4096 % U32)
    ensures ServesFirst(m, k, req, buf)
  {
    k :| ServedBy(m, m', k, req, buf) && NoneBefore(m, k, req);
    assert m.All()[|m.sram| + k] == m.ddr[k];
    assert !Overruns(m.ddr[k], req) by {
      AllocIsSafe(m, m', req, 0, buf);
      ServedOverrun(m, m', k, req, buf);
    }
    ServedHasRoom(m.ddr[k], m'.ddr[k], req, buf);
    NoRoomBefore(m, k, req);
  }

  lemma NoRoomBefore(m: MmState, k: int, req: BufRequest)
    requires NoneBefore(m, k, req) && k <= |m.ddr|
    requires req.dataType == 1 || req.dataType == 2 ==> IsPow2(req.alignInPage * 4096 % U32)
    ensures forall j | 0 <= j < k && MayServe(m, j, req) :: !HasRoom(m.ddr[j], req)
  {
    forall j | 0 <= j < k && MayServe(m, j, req)
      ensures !HasRoom(m.ddr[j], req)
    {
      if HasRoom(m.ddr[j], req) {
        RoomIsServable(m.ddr[j], req);
      }
    }
  }

  lemma RoomIsServable(r: RegionState, req: BufRequest)
    requires HasRoom(r, req)
    ensures CanServe(r, req)
  {
  }

  lemma ServedHasRoom(r: RegionState, r': RegionState, req: BufRequest, buf: Buffer)
    requires ValidRegion(r) && AllocSpec(r, r', req, 0, buf) && !Overruns(r, req)
    requires req.dataType == 1 || req.dataType == 2 ==> IsPow2(req.alignInPage * 4096 % U32)
    ensures HasRoom(r, req) && buf.regionId == r.id && buf.bytes == AllocSize(r.flag, req.bytes)
    ensures r.pa <= buf.pa && buf.pa + buf.bytes <= r.End()
  {
    AttemptIsSafe(r, r', req, 0, buf);
    PlacedByType(r, r', req, 0, buf);
  }

  /** A DDR region just registered is the first to serve: any request that an empty region
      of its base and size can hold is placed inside it. */
  lemma RegisteredServesFirst(m: MmState, m': MmState, base: nat, bytes: nat, flag: AllocFlag, req: BufRequest,
                              ret: int, buf: Buffer)
    requires ValidMm(m) && Placeable(base, bytes) && ClearOf(m, base, bytes)
    requires MmAllocSpec(WithRegion(m, base, bytes, false, flag), m', req, ret, buf) && ValidMm(m')
    requires req.dataType == 1 || req.dataType == 2 ==> IsPow2(req.alignInPage * 4096 % U32)
    requires m.version == V1 || req.dataType != 2 || req.regionId == |m.sram| + |m.ddr|
    requires 0 < AllocSize(flag, req.bytes) <= bytes
    requires req.alignInPage * 4096 % U32 > 0 && base % (req.alignInPage * 4096 % U32) == 0
    ensures ret == 0 && base <= buf.pa && buf.pa + buf.bytes <= base + bytes
    ensures buf.regionId == |m.sram| + |m.ddr| && buf.bytes == AllocSize(flag, req.bytes)
  {
    var w, r := WithRegion(m, base, bytes, false, flag), InitialRegion(|m.All()|, base, bytes, flag);
    assert w.ddr[0] == r;
    InitialIsValid(|m.All()|, base, bytes, flag);
    InsertRegion(m, w, r, false);
    assert r.Live() == {};
    assert Fits(r.Live(), r.pa, r.End(), AllocSize(flag, req.bytes), req.alignInPage * 4096 % U32, base);
    assert MayServe(w, 0, req) && HasRoom(w.ddr[0], req);
    ServedByFirst(w, m', req, ret, buf);
  }

  lemma InitialIsValid(id: nat, base: nat, bytes: nat, flag: AllocFlag)
    requires Placeable(base, bytes)
    ensures ValidRegion(InitialRegion(id, base, bytes, flag))
  {
    var l := InitialRegion(id, base, bytes, flag).blocks;
    assert l[1..] == [] && Tiles(l[1..], base + bytes, base + bytes) && SumFree(l[1..]) == 0;
  }
}
