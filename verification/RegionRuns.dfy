/** Whole histories of one region: what every sequence of allocations and frees keeps, and
    that the block list forgets everything but the live extents. */
module RegionRuns {
  import opened Words
  import opened Blocks
  import opened Regions

  /** A region together with the requests its live extents were granted for. */
  datatype Ledger = Ledger(r: RegionState, granted: map<Extent, BufRequest>)

  ghost predicate Initial(s: Ledger) {
    && Placeable(s.r.pa, s.r.totBytes)
    && s.r.blocks == [Block(s.r.pa, s.r.totBytes, 0, DATA_TYPE_NONE, Free)]
    && s.r.totFreeBytes == s.r.totBytes
    && s.granted == map[]
  }

  /** An attempt the manager makes: the free-byte test has been passed, or skipped for data
      that is placed by the forward scan. */
  ghost predicate Attempted(r: RegionState, req: BufRequest) {
    IsRequest(r, req) && (Forward(req.dataType) || AllocSize(r.flag, req.bytes) <= r.totFreeBytes)
  }

  ghost predicate AllocStep(s: Ledger, s': Ledger, req: BufRequest, ret: int, buf: Buffer) {
    && Attempted(s.r, req) && AllocSpec(s.r, s'.r, req, ret, buf)
    && s'.granted == if ret == 0 then s.granted[buf.Range() := req] else s.granted
  }

  /** The caller frees something it was granted before. */
  ghost predicate FreeStep(s: Ledger, s': Ledger, d: Extent, ret: int) {
    d in s.granted && FreeSpec(s.r, s'.r, d, ret) && s'.granted == s.granted - {d}
  }

  ghost predicate Step(s: Ledger, s': Ledger) {
    || (exists req, ret, buf :: AllocStep(s, s', req, ret, buf) && !Overruns(s.r, req))
    || (exists d, ret :: FreeStep(s, s', d, ret))
  }

  ghost predicate Run(h: seq<Ledger>) {
    h != [] && Initial(h[0]) && forall i | 0 <= i < |h| - 1 :: Step(h[i], h[i + 1])
  }

  ghost predicate GrantKept(flag: AllocFlag, e: Extent, req: BufRequest) {
    && e.bytes == AllocSize(flag, req.bytes)
    && (ExactAlignment(req.dataType, Alignment(req.alignInPage)) ==> e.pa % Alignment(req.alignInPage) == 0)
  }

  ghost predicate Inv(s: Ledger) {
    && ValidRegion(s.r)
    && s.r.Live() == s.granted.Keys
    && forall e | e in s.granted :: GrantKept(s.r.flag, e, s.granted[e])
  }

  lemma StepKeepsInv(s: Ledger, s': Ledger)
    requires Inv(s) && Step(s, s')
    ensures Inv(s') && SameRegion(s.r, s'.r)
  {
    if req, ret, buf :| AllocStep(s, s', req, ret, buf) && !Overruns(s.r, req) {
      forall e | e in s'.granted
        ensures GrantKept(s'.r.flag, e, s'.granted[e])
      {
        assert e in s.granted ==> GrantKept(s.r.flag, e, s.granted[e]);
      }
    } else {
      var d, ret :| FreeStep(s, s', d, ret);
      assert forall e | e in s'.granted :: e in s.granted && s'.granted[e] == s.granted[e];
    }
  }

  /** The steps of a history are exactly the ones that keep the invariant: an attempt does so
      if and only if its request does not overrun the region. */
  lemma AttemptKeepsInvExactly(s: Ledger, s': Ledger, req: BufRequest, ret: int, buf: Buffer)
    requires Inv(s) && AllocStep(s, s', req, ret, buf)
    ensures Inv(s') <==> !Overruns(s.r, req)
  {
    AttemptIsSafe(s.r, s'.r, req, ret, buf);
    if !Overruns(s.r, req) {
      StepKeepsInv(s, s');
    }
  }

  /** After any history the blocks exactly tile the region, no two neighbours are free, the
      free-byte counter is the sum of the free blocks, and the live extents are the granted
      ones: pairwise disjoint, of the rounded size, aligned as requested. */
  lemma {:induction false} RegionInvariant(h: seq<Ledger>)
    requires Run(h)
    ensures var s := h[|h| - 1];
            && Inv(s) && SameRegion(h[0].r, s.r)
            && forall e, f | e in s.granted && f in s.granted && e != f :: Disjoint(e, f)
  {
    var s := h[|h| - 1];
    if |h| == 1 {
      assert s.r.blocks[1..] == [];
      assert SumFree(s.r.blocks[1..]) == 0;
      assert Tiles(s.r.blocks[1..], s.r.End(), s.r.End());
      assert s.r.Live() == {};
    } else {
      var g := h[..|h| - 1];
      assert Run(g) by {
        forall i | 0 <= i < |g| - 1
          ensures Step(g[i], g[i + 1])
        {
          assert g[i] == h[i] && g[i + 1] == h[i + 1];
        }
      }
      RegionInvariant(g);
      assert Step(h[|h| - 2], h[|h| - 2 + 1]);
      StepKeepsInv(g[|g| - 1], s);
    }
    LiveDisjoint(s.r.blocks, s.r.pa, s.r.End());
  }

  /** Two histories of the same region that leave the same extents allocated leave the same
      block addresses, sizes and states, whatever the order of allocations and frees was. */
  lemma HistoryForgotten(h: seq<Ledger>, g: seq<Ledger>)
    requires Run(h) && Run(g) && SameRegion(h[0].r, g[0].r)
    requires h[|h| - 1].granted.Keys == g[|g| - 1].granted.Keys
    ensures Shape(h[|h| - 1].r.blocks) == Shape(g[|g| - 1].r.blocks)
    ensures h[|h| - 1].r.totFreeBytes == g[|g| - 1].r.totFreeBytes
  {
    RegionInvariant(h);
    RegionInvariant(g);
    var a, b := h[|h| - 1].r, g[|g| - 1].r;
    CanonicalForm(a.blocks, b.blocks, a.pa, a.End());
    ShapeSumFree(a.blocks, b.blocks);
  }

  /** Once everything granted has been freed, the region is one free block again. */
  lemma EverythingFreed(h: seq<Ledger>)
    requires Run(h) && h[|h| - 1].granted == map[]
    ensures var r := h[|h| - 1].r;
            Shape(r.blocks) == [(Extent(r.pa, r.totBytes), Free)] && r.totFreeBytes == r.totBytes
  {
    assert Run([h[0]]);
    RegionInvariant(h);
    HistoryForgotten(h, [h[0]]);
    var r := h[|h| - 1].r;
    assert |Shape(h[0].r.blocks)| == 1;
    assert Shape(h[0].r.blocks)[0] == (Extent(r.pa, r.totBytes), Free);
  }

  /** Allocating and freeing again restores the list the caller started from. */
  lemma AllocThenFree(r: RegionState, mid: RegionState, r': RegionState, req: BufRequest,
                      buf: Buffer, ret: int)
    requires ValidRegion(r)
    requires AllocSpec(r, mid, req, 0, buf) && !Overruns(r, req)
    requires FreeSpec(mid, r', buf.Range(), ret)
    ensures ret == 0 && Shape(r'.blocks) == Shape(r.blocks) && r'.totFreeBytes == r.totFreeBytes
  {
    assert r'.Live() == r.Live();
    CanonicalForm(r.blocks, r'.blocks, r.pa, r.End());
    ShapeSumFree(r.blocks, r'.blocks);
  }

  /** Two frees commute. */
  lemma FreesCommute(r: RegionState, a: RegionState, ab: RegionState, b: RegionState, ba: RegionState,
                     d: Extent, e: Extent)
    requires ValidRegion(r) && d in r.Live() && e in r.Live() && d != e
    requires FreeSpec(r, a, d, 0) && FreeSpec(a, ab, e, 0)
    requires FreeSpec(r, b, e, 0) && FreeSpec(b, ba, d, 0)
    ensures ValidRegion(ab) && Shape(ab.blocks) == Shape(ba.blocks) && ab.totFreeBytes == ba.totFreeBytes
  {
    assert ab.Live() == ba.Live();
    CanonicalForm(ab.blocks, ba.blocks, r.pa, r.End());
    ShapeSumFree(ab.blocks, ba.blocks);
  }

  lemma {:induction false} ShapeSumFree(l: seq<Block>, m: seq<Block>)
    requires Shape(l) == Shape(m)
    ensures SumFree(l) == SumFree(m)
  {
    assert |Shape(l)| == |l| && |Shape(m)| == |m|;
    if l != [] {
      assert Shape(l)[0] == (ExtentOf(l[0]), l[0].state);
      assert Shape(m)[0] == (ExtentOf(m[0]), m[0].state);
      assert Shape(l[1..]) == Shape(l)[1..];
      assert Shape(m[1..]) == Shape(m)[1..];
      ShapeSumFree(l[1..], m[1..]);
    }
  }

  /** The free does not look at the state of the block it finds, so the region stays
      consistent exactly when the descriptor does not name a free block. */
  lemma FreeIsSafeUnlessFree(r: RegionState, r': RegionState, d: Extent, ret: int)
    requires ValidRegion(r) && FreeSpec(r, r', d, ret)
    ensures ValidRegion(r') <==> !NamesFreeBlock(r, d)
  {
    TilesBounds(r.blocks, r.pa, r.End());
    if NamesFreeBlock(r, d) {
      var i :| 0 <= i < |r.blocks| && Names(r.blocks[i], d) && r.blocks[i].state == Free;
      FirstNamed(r.blocks, r.pa, r.End(), i, d);
      ShapeSumFree(r'.blocks, r.blocks);
    }
  }

  /** An example of the unsafe case: naming the one free block of an idle region doubles the
      free-byte counter. */
  lemma IdleRegionMiscount(r: RegionState, r': RegionState, ret: int)
    requires r == RegionState(0, 0x4000_0000, 0x2000_0000, Compact,
                              [Block(0x4000_0000, 0x2000_0000, 0, DATA_TYPE_NONE, Free)], 0x2000_0000)
    requires FreeSpec(r, r', Extent(0x4000_0000, 0x2000_0000), ret)
    ensures ret == 0 && r'.totFreeBytes == 0x4000_0000 && !ValidRegion(r')
  {
    assert Names(r.blocks[0], Extent(0x4000_0000, 0x2000_0000));
    ShapeSumFree(r'.blocks, r.blocks);
    assert SumFree(r.blocks[1..]) == 0;
  }

  const BUSY: RegionState :=
    RegionState(0, 0x4000_0000, 0x2000_0000, Compact,
                [Block(0x4000_0000, 0x1000, 0, DATA_TYPE_TEXT, Allocated),
                 Block(0x4000_1000, 0x1FFF_F000, 0, DATA_TYPE_NONE, Free)], 0x1FFF_F000)

  const HUGE: BufRequest := BufRequest(0xFFFF_FFFF_FFFF_F000, 4, DATA_TYPE_RO_STACK, 0)

  /** An example of an overrunning request: with the first page of a region taken, read-only
      data of nearly 2^64 bytes aligned to four pages is granted, and the counter grows by a
      page. */
  lemma HugeRequestOverruns(r': RegionState, ret: int, buf: Buffer)
    requires AllocSpec(BUSY, r', HUGE, ret, buf)
    ensures ValidRegion(BUSY) && Attempted(BUSY, HUGE) && Overruns(BUSY, HUGE)
    ensures ret == 0 && buf == Buffer(0x4000_4000, 0xFFFF_FFFF_FFFF_F000, 0)
    ensures r'.totFreeBytes == 0x2000_0000 && !ValidRegion(r')
  {
    BusyIsValid();
    HugeSizes();
    var i := FirstAccepting(BUSY.blocks, 0xFFFF_FFFF_FFFF_F000, 0x4000);
    assert |BUSY.blocks| == 2 && !Accepts(BUSY.blocks[0], 0xFFFF_FFFF_FFFF_F000, 0x4000);
    assert Accepts(BUSY.blocks[1], 0xFFFF_FFFF_FFFF_F000, 0x4000);
    assert i == 1;
    AttemptIsSafe(BUSY, r', HUGE, ret, buf);
  }

  lemma BusyIsValid()
    ensures ValidRegion(BUSY)
  {
    var l := BUSY.blocks;
    assert l[1..] == [l[1]] && l[1..][1..] == [];
    assert Tiles(l[1..], 0x4000_1000, 0x6000_0000);
    assert SumFree(l[1..]) == 0x1FFF_F000;
  }

  lemma HugeSizes()
    ensures AllocSize(Compact, 0xFFFF_FFFF_FFFF_F000) == 0xFFFF_FFFF_FFFF_F000
    ensures Alignment(4) == 0x4000 && Align(0x4000_1000, 0x4000) == 0x4000_4000
  {
    assert Pow2(12) == PAGE;
    Pow2Add(12, 2);
    assert Pow2(2) == 4;
    assert Pow2(14) == 0x4000;
    AlignIsRoundUp(0xFFFF_FFFF_FFFF_F000, PAGE);
    AlignIsRoundUp(0x4000_1000, 0x4000);
  }
}
