/** One physically contiguous memory region: aligned placement, splitting, freeing. */
module Regions {
  import opened Words
  import opened Blocks

  const EINVAL: int := -22
  const ENOMEM: int := -12

  datatype AllocFlag = Default | Strict | Compact

  datatype BufRequest = BufRequest(bytes: nat, alignInPage: nat, dataType: nat, regionId: nat)

  datatype Buffer = Buffer(pa: nat, bytes: nat, regionId: nat) {
    function Range(): Extent { Extent(pa, bytes) }
  }

  /** The fields of a region between two lock-held sections. */
  datatype RegionState =
    RegionState(id: nat, pa: nat, totBytes: nat, flag: AllocFlag, blocks: seq<Block>, totFreeBytes: nat)
  {
    function End(): nat { pa + totBytes }

    ghost function Live(): set<Extent> { Blocks.Live(blocks) }
  }

  /** What the device tree must provide: a non-empty region above its own size, with room
      for one 32-bit alignment and itself below the top of the address space. */
  predicate Placeable(pa: nat, totBytes: nat) {
    0 < totBytes <= pa && pa + totBytes + U32 + totBytes <= U64
  }

  ghost predicate ValidRegion(r: RegionState) {
    && Placeable(r.pa, r.totBytes)
    && WellFormed(r.blocks, r.pa, r.End())
    && r.totFreeBytes == SumFree(r.blocks)
  }

  /** The fields of a request are machine words; for a strict region the size is one that the
      kernel can round up to a power of two in 64 bits. */
  predicate IsRequest(r: RegionState, req: BufRequest) {
    && req.bytes < U64 && req.alignInPage < U32
    && (r.flag == Strict ==> req.bytes <= U64 / 2)
  }

  function AllocSize(flag: AllocFlag, requested: nat): (n: nat)
  {
    if requested == 0 then 0
    else match flag
      case Strict => if PAGE <= RoundupPow2(requested) then RoundupPow2(requested) else PAGE
      case Compact => Align(requested, PAGE)
      case Default => 0
  }

  /** The size handed out covers the size asked for and is a whole number of pages. */
  lemma AllocSizeCovers(flag: AllocFlag, requested: nat)
    requires flag != Default && 0 < requested && requested + PAGE <= U64
    ensures requested <= AllocSize(flag, requested)
    ensures AllocSize(flag, requested) % PAGE == 0
    ensures flag == Compact ==> AllocSize(flag, requested) < requested + PAGE
    ensures flag == Strict ==> IsPow2(AllocSize(flag, requested))
    ensures flag == Strict ==>
              forall k: nat | requested <= Pow2(k) && PAGE <= Pow2(k) :: AllocSize(flag, requested) <= Pow2(k)
  {
    assert IsPow2(PAGE) by { assert Pow2(12) == PAGE; }
    if flag == Compact {
      AlignIsRoundUp(requested, PAGE);
    } else {
      if PAGE <= RoundupPow2(requested) {
        PowersAbovePage(RoundupPow2(requested));
      }
      forall k: nat | requested <= Pow2(k) && PAGE <= Pow2(k)
        ensures AllocSize(flag, requested) <= Pow2(k)
      {
        RoundupIsLeast(requested, k);
      }
    }
  }

  lemma RoundupIsLeast(v: nat, k: nat)
    requires 1 <= v <= Pow2(k)
    ensures RoundupPow2(v) <= Pow2(k)
  {
    var j: nat :| RoundupPow2(v) == Pow2(j);
    if k < j {
      Pow2Monotone(k + 1, j);
    }
  }

  lemma PowersAbovePage(p: nat)
    requires IsPow2(p) && PAGE <= p
    ensures p % PAGE == 0
  {
    assert Pow2(12) == PAGE;
    var k: nat :| p == Pow2(k);
    if k < 12 {
      Pow2Monotone(k, 12);
    } else {
      Pow2Add(12, k - 12);
      MulMod(Pow2(k - 12), PAGE);
    }
  }

  /** The alignment in bytes, computed in 32 bits. */
  function Alignment(alignInPage: nat): (a: nat)
    ensures a < U32
  {
    (alignInPage * 4 * 1024) % U32
  }

  lemma AlignmentIsExact(alignInPage: nat)
    requires alignInPage < U32
    ensures Alignment(alignInPage) % PAGE == 0
    ensures Alignment(alignInPage) == alignInPage * PAGE <==> alignInPage < U32 / PAGE
  {
    WholePages(alignInPage);
    if alignInPage < U32 / PAGE {
      DivModUnique(alignInPage * PAGE, U32, 0, alignInPage * PAGE);
    }
  }

  predicate Forward(dataType: nat) {
    dataType == DATA_TYPE_TEXT || dataType == DATA_TYPE_RO_STACK
  }

  /** Requests for which the scan finds exactly the aligned addresses: the forward scan
      rounds with ALIGN and so needs a power of two. */
  ghost predicate ExactAlignment(dataType: nat, a: nat) {
    1 <= a && (Forward(dataType) ==> IsPow2(a))
  }

  ghost predicate BestPlacement(r: RegionState, dataType: nat, n: nat, a: nat, x: nat)
    requires 1 <= a
  {
    if Forward(dataType) then IsLowestFit(r.Live(), r.pa, r.End(), n, a, x)
    else IsHighestFit(r.Live(), r.pa, r.End(), n, a, x)
  }

  ghost predicate CanPlace(r: RegionState, n: nat, a: nat)
    requires 1 <= a
  {
    exists x: nat :: Fits(r.Live(), r.pa, r.End(), n, a, x)
  }

  /** A request that is well formed and for which the region has an aligned free range. */
  ghost predicate CanServe(r: RegionState, req: BufRequest) {
    var n, a := AllocSize(r.flag, req.bytes), Alignment(req.alignInPage);
    n > 0 && 1 <= a && CanPlace(r, n, a)
  }

  ghost predicate SameRegion(r: RegionState, r': RegionState) {
    r'.id == r.id && r'.pa == r.pa && r'.totBytes == r.totBytes && r'.flag == r.flag
  }

  /** The forward scan takes block `b`: its end test is made on the 64-bit sum, which may wrap. */
  predicate Accepts(b: Block, n: nat, a: nat)
    requires 1 <= a
  {
    b.state != Allocated && (Align(b.pa, a) + n) % U64 <= b.End()
  }

  /** Index of the block the forward scan takes, or the length of the list. */
  function FirstAccepting(l: seq<Block>, n: nat, a: nat): (i: nat)
    requires 1 <= a
    ensures i <= |l|
    ensures i < |l| ==> Accepts(l[i], n, a)
    ensures forall k | 0 <= k < i :: !Accepts(l[k], n, a)
  {
    if l == [] || Accepts(l[0], n, a) then 0 else 1 + FirstAccepting(l[1..], n, a)
  }

  /** The end of the range wraps past 2^64 and comes back above the start of the block, so
      that the split takes it for an end inside the block. */
  predicate WrapsInto(b: Block, n: nat, a: nat)
    requires 1 <= a
  {
    b.pa + U64 < Align(b.pa, a) + n
  }

  /** The request is one that the forward scan grants although it is far larger than the
      region: readable from the request and the block list before the call. */
  predicate Overruns(r: RegionState, req: BufRequest) {
    var n, a := AllocSize(r.flag, req.bytes), Alignment(req.alignInPage);
    && n > 0 && a > 0 && Forward(req.dataType)
    && var i := FirstAccepting(r.blocks, n, a);
    i < |r.blocks| && WrapsInto(r.blocks[i], n, a)
  }

  /** The blocks a split puts in place of `b` when the end of [start, start + n) has wrapped. */
  function WrappedPieces(b: Block, start: nat, n: nat, tid: int, dtype: nat): seq<Block>
    requires b.pa <= start && b.pa + U64 < start + n <= b.End() + U64
  {
    var end := start + n - U64;
    [b.(bytes := start - b.pa), Block(start, n, tid, dtype, Allocated)] +
    (if end == b.End() then [] else [Block(end, b.End() - end, tid, dtype, Free)])
  }

  /** What an overrunning request does: it is granted, the list gets blocks that run past
      the region, and the free-byte counter grows. */
  ghost predicate Overrun(r: RegionState, r': RegionState, req: BufRequest, buf: Buffer)
    requires Overruns(r, req)
  {
    var n, a := AllocSize(r.flag, req.bytes), Alignment(req.alignInPage);
    var i := FirstAccepting(r.blocks, n, a);
    var start := Align(r.blocks[i].pa, a);
    && SameRegion(r, r') && buf == Buffer(start, n, r.id)
    && r'.totFreeBytes == (r.totFreeBytes + U64 - n) % U64
    && (exists tid :: OverrunBlocks(r, r'.blocks, i, start, n, tid, req.dataType))
  }

  ghost predicate OverrunBlocks(r: RegionState, l: seq<Block>, i: nat, start: nat, n: nat, tid: int, dtype: nat)
    requires i < |r.blocks|
  {
    && r.blocks[i].pa <= start && r.blocks[i].pa + U64 < start + n <= r.blocks[i].End() + U64
    && l == r.blocks[..i] + WrappedPieces(r.blocks[i], start, n, tid, dtype) + r.blocks[i + 1..]
  }

  /** One allocation attempt inside a region, as a relation between the states around it. */
  ghost predicate AllocSpec(r: RegionState, r': RegionState, req: BufRequest, ret: int, buf: Buffer) {
    var n, a := AllocSize(r.flag, req.bytes), Alignment(req.alignInPage);
    if n == 0 || a == 0 then
      ret == EINVAL && r' == r
    else if Overruns(r, req) then
      ret == 0 && Overrun(r, r', req, buf)
    else if ret == 0 then
      && ValidRegion(r') && SameRegion(r, r')
      && buf.bytes == n && buf.regionId == r.id
      && RangeFree(r.Live(), r.pa, r.End(), buf.pa, n)
      && buf.Range() !in r.Live()
      && r'.Live() == r.Live() + {buf.Range()}
      && (ExactAlignment(req.dataType, a) ==> BestPlacement(r, req.dataType, n, a, buf.pa))
    else
      ret == ENOMEM && r' == r && (ExactAlignment(req.dataType, a) ==> !CanPlace(r, n, a))
  }

  /** A descriptor names a block when address and size agree; the block's state is not looked at. */
  predicate Names(b: Block, d: Extent) {
    b.pa == d.pa && b.bytes == d.bytes
  }

  ghost predicate NamesFreeBlock(r: RegionState, d: Extent) {
    exists i :: 0 <= i < |r.blocks| && Names(r.blocks[i], d) && r.blocks[i].state == Free
  }

  /** One free inside a region. The last case is the one the block list itself cannot
      refuse: a descriptor that names a free block. */
  ghost predicate FreeSpec(r: RegionState, r': RegionState, d: Extent, ret: int) {
    && SameRegion(r, r')
    && (if d in r.Live() then
          ret == 0 && ValidRegion(r') && r'.Live() == r.Live() - {d}
        else if NamesFreeBlock(r, d) then
          ret == 0 && Shape(r'.blocks) == Shape(r.blocks) && r'.totFreeBytes == r.totFreeBytes + d.bytes
        else
          ret == EINVAL && r' == r)
  }

  // ---- The scans

  lemma {:induction false} AndNotLower(t: nat, m: nat)
    ensures t <= AndNot(t, m) + m
  {
    if t != 0 {
      AndNotLower(t / 2, m / 2);
    }
  }

  lemma AlignNotBelow(x: nat, a: nat)
    requires 1 <= a && x + a <= U64
    ensures x <= Align(x, a)
  {
    AndNotLower(x + a - 1, a - 1);
    DivModUnique(x + a - 1, U64, 0, x + a - 1);
  }

  /** The forward scan cannot serve `n` bytes from block `b`. */
  ghost predicate TooSmallUp(b: Block, n: nat, a: nat)
    requires 1 <= a
  {
    b.state == Allocated || b.End() < Align(b.pa, a) + n
  }

  /** The reverse scan cannot serve `n` bytes from block `b`. */
  ghost predicate TooSmallDown(b: Block, n: nat, a: nat)
    requires 1 <= a
  {
    b.state == Allocated || b.End() < n || RoundDown(b.End() - n, a) < b.pa
  }

  /** If no block before `i` can serve the request, every fit starts at or above block `i`. */
  lemma FitsFromBelow(l: seq<Block>, lo: nat, hi: nat, i: nat, n: nat, a: nat, y: nat)
    requires WellFormed(l, lo, hi) && n > 0 && IsPow2(a) && hi + a <= U64
    requires i <= |l| && forall j | 0 <= j < i :: TooSmallUp(l[j], n, a)
    requires Fits(Live(l), lo, hi, n, a, y)
    ensures (i < |l| && Align(l[i].pa, a) <= y) || exists j :: i < j < |l| && l[j].pa <= y
  {
    TilesBounds(l, lo, hi);
    var j := FreeRangeInOneBlock(l, lo, hi, y, n);
    AlignIsRoundUp(l[j].pa, a);
    RoundUpLeast(l[j].pa, a, y);
    assert i <= j;
  }

  lemma FitsFromAbove(l: seq<Block>, lo: nat, hi: nat, i: nat, n: nat, a: nat, y: nat)
    requires WellFormed(l, lo, hi) && n > 0 && 1 <= a
    requires i <= |l| && forall j | i <= j < |l| :: TooSmallDown(l[j], n, a)
    requires Fits(Live(l), lo, hi, n, a, y)
    ensures (i > 0 && n <= l[i - 1].End() && y <= RoundDown(l[i - 1].End() - n, a))
            || exists j :: 0 <= j < i - 1 && y + n <= l[j].End()
  {
    var j := FreeRangeInOneBlock(l, lo, hi, y, n);
    RoundDownGreatest(l[j].End() - n, a, y);
    assert j < i;
  }

  lemma LowestFound(l: seq<Block>, lo: nat, hi: nat, i: nat, n: nat, a: nat)
    requires WellFormed(l, lo, hi) && n > 0 && IsPow2(a) && 1 <= a && hi + a <= U64
    requires i < |l| && l[i].state == Free && Align(l[i].pa, a) + n <= l[i].End()
    requires forall j | 0 <= j < i :: TooSmallUp(l[j], n, a)
    ensures IsLowestFit(Live(l), lo, hi, n, a, Align(l[i].pa, a))
  {
    var x := Align(l[i].pa, a);
    TilesBounds(l, lo, hi);
    TilesOrdered(l, lo, hi);
    AlignIsRoundUp(l[i].pa, a);
    FreeBlockIsFreeRange(l, lo, hi, i, x, n);
    forall y: nat | Fits(Live(l), lo, hi, n, a, y)
      ensures x <= y
    {
      FitsFromBelow(l, lo, hi, i, n, a, y);
    }
  }

  lemma HighestFound(l: seq<Block>, lo: nat, hi: nat, i: nat, n: nat, a: nat)
    requires WellFormed(l, lo, hi) && n > 0 && 1 <= a
    requires i < |l| && l[i].state == Free
    requires n <= l[i].End() && l[i].pa <= RoundDown(l[i].End() - n, a)
    requires forall j | i < j < |l| :: TooSmallDown(l[j], n, a)
    ensures IsHighestFit(Live(l), lo, hi, n, a, RoundDown(l[i].End() - n, a))
  {
    var x := RoundDown(l[i].End() - n, a);
    TilesBounds(l, lo, hi);
    TilesOrdered(l, lo, hi);
    FreeBlockIsFreeRange(l, lo, hi, i, x, n);
    forall y: nat | Fits(Live(l), lo, hi, n, a, y)
      ensures y <= x
    {
      FitsFromAbove(l, lo, hi, i + 1, n, a, y);
    }
  }

  lemma NothingFound(l: seq<Block>, lo: nat, hi: nat, n: nat, a: nat, up: bool)
    requires WellFormed(l, lo, hi) && n > 0 && 1 <= a
    requires up ==> IsPow2(a) && hi + a <= U64 && forall j | 0 <= j < |l| :: TooSmallUp(l[j], n, a)
    requires !up ==> forall j | 0 <= j < |l| :: TooSmallDown(l[j], n, a)
    ensures !exists x: nat :: Fits(Live(l), lo, hi, n, a, x)
  {
    forall x: nat
      ensures !Fits(Live(l), lo, hi, n, a, x)
    {
      if Fits(Live(l), lo, hi, n, a, x) {
        if up {
          FitsFromBelow(l, lo, hi, |l|, n, a, x);
        } else {
          FitsFromAbove(l, lo, hi, 0, n, a, x);
        }
      }
    }
  }

  /** What a scan for `n` bytes reports: a free block that holds them at the best address, a
      block it takes by a wrapped end, or that there is none. */
  ghost predicate CandidateSpec(r: RegionState, n: nat, a: nat, dataType: nat,
                                ret: int, found: nat, start: nat)
    requires 1 <= a
  {
    if ret == 0 then
      && found < |r.blocks| && r.blocks[found].state == Free && r.blocks[found].pa <= start
      && (Forward(dataType) ==> found == FirstAccepting(r.blocks, n, a) && start == Align(r.blocks[found].pa, a))
      && (if start + n < U64 then Holds(r, n, a, dataType, found, start)
          else Forward(dataType) && start + n - U64 <= r.blocks[found].End() && n > r.totBytes)
    else
      && ret == ENOMEM && (ExactAlignment(dataType, a) ==> !CanPlace(r, n, a))
      && (Forward(dataType) ==> FirstAccepting(r.blocks, n, a) == |r.blocks|)
  }

  ghost predicate Holds(r: RegionState, n: nat, a: nat, dataType: nat, found: nat, start: nat)
    requires 1 <= a && found < |r.blocks|
  {
    start + n <= r.blocks[found].End() && (ExactAlignment(dataType, a) ==> BestPlacement(r, dataType, n, a, start))
  }

  /** A range whose end wraps is larger than the whole region. */
  lemma WrapIsHuge(r: RegionState, i: nat, n: nat, a: nat)
    requires ValidRegion(r) && i < |r.blocks| && 0 < a < U32 && n < U64
    ensures var start := Align(r.blocks[i].pa, a);
            && r.blocks[i].pa <= start < U64
            && (start + n) % U64 == (if start + n < U64 then start + n else start + n - U64)
            && (U64 <= start + n ==> n > r.totBytes)
  {
    TilesBounds(r.blocks, r.pa, r.End());
    AlignNotBelow(r.blocks[i].pa, a);
    AlignBelow(r.blocks[i].pa, a);
    var t := Align(r.blocks[i].pa, a) + n;
    DivModUnique(t, U64, if t < U64 then 0 else 1, if t < U64 then t else t - U64);
  }

  lemma HugeCannotBePlaced(r: RegionState, n: nat, a: nat)
    requires 1 <= a && n > r.totBytes
    ensures !CanPlace(r, n, a)
  {
  }

  /** A block the scan does not take cannot serve the request. */
  lemma NotTaken(r: RegionState, i: nat, n: nat, a: nat)
    requires ValidRegion(r) && i < |r.blocks| && 0 < a < U32 && n < U64 && !Accepts(r.blocks[i], n, a)
    ensures TooSmallUp(r.blocks[i], n, a)
  {
    WrapIsHuge(r, i, n, a);
    TilesBounds(r.blocks, r.pa, r.End());
  }

  lemma DownNoWrap(r: RegionState, i: nat, n: nat, a: nat)
    requires ValidRegion(r) && i < |r.blocks| && 0 < a < U32 && n <= r.pa
    ensures n <= r.blocks[i].End()
    ensures (U64 + r.blocks[i].End() - n) % U64 == r.blocks[i].End() - n
    ensures var start := ((r.blocks[i].End() - n) / a) * a;
            start == RoundDown(r.blocks[i].End() - n, a) && (start + n) % U64 == start + n
  {
    TilesBounds(r.blocks, r.pa, r.End());
    var d := r.blocks[i].End() - n;
    DivModUnique(U64 + d, U64, 1, d);
    var t := RoundDown(d, a) + n;
    DivModUnique(t, U64, 0, t);
  }

  lemma UpFound(r: RegionState, i: nat, n: nat, a: nat)
    requires ValidRegion(r) && 0 < n < U64 && 0 < a < U32 && i < |r.blocks|
    requires Accepts(r.blocks[i], n, a) && forall j | 0 <= j < i :: !Accepts(r.blocks[j], n, a)
    ensures CandidateSpec(r, n, a, DATA_TYPE_TEXT, 0, i, Align(r.blocks[i].pa, a))
  {
    WrapIsHuge(r, i, n, a);
    if Align(r.blocks[i].pa, a) + n < U64 && IsPow2(a) {
      forall j | 0 <= j < i
        ensures TooSmallUp(r.blocks[j], n, a)
      {
        NotTaken(r, j, n, a);
      }
      LowestFound(r.blocks, r.pa, r.End(), i, n, a);
    }
  }

  lemma UpFails(r: RegionState, n: nat, a: nat)
    requires ValidRegion(r) && 0 < n < U64 && 0 < a < U32
    requires forall j | 0 <= j < |r.blocks| :: !Accepts(r.blocks[j], n, a)
    ensures CandidateSpec(r, n, a, DATA_TYPE_TEXT, ENOMEM, 0, 0)
  {
    if IsPow2(a) {
      forall j | 0 <= j < |r.blocks|
        ensures TooSmallUp(r.blocks[j], n, a)
      {
        NotTaken(r, j, n, a);
      }
      NothingFound(r.blocks, r.pa, r.End(), n, a, true);
    }
  }

  lemma DownFound(r: RegionState, i: nat, n: nat, a: nat)
    requires ValidRegion(r) && n > 0 && 0 < a
    requires i < |r.blocks| && r.blocks[i].state == Free
    requires n <= r.blocks[i].End() && r.blocks[i].pa <= RoundDown(r.blocks[i].End() - n, a)
    requires forall j | i < j < |r.blocks| :: TooSmallDown(r.blocks[j], n, a)
    ensures CandidateSpec(r, n, a, DATA_TYPE_NONE, 0, i, RoundDown(r.blocks[i].End() - n, a))
  {
    TilesBounds(r.blocks, r.pa, r.End());
    HighestFound(r.blocks, r.pa, r.End(), i, n, a);
  }

  lemma DownFails(r: RegionState, n: nat, a: nat)
    requires ValidRegion(r) && n > 0 && 0 < a
    requires forall j | 0 <= j < |r.blocks| :: TooSmallDown(r.blocks[j], n, a)
    ensures CandidateSpec(r, n, a, DATA_TYPE_NONE, ENOMEM, 0, 0)
  {
    NothingFound(r.blocks, r.pa, r.End(), n, a, false);
  }

  class Region {
    const id: nat
    const pa: nat
    const totBytes: nat
    const flag: AllocFlag
    var blocks: seq<Block>
    var totFreeBytes: nat

    ghost function State(): RegionState
      reads this
    {
      RegionState(id, pa, totBytes, flag, blocks, totFreeBytes)
    }

    ghost predicate Valid()
      reads this
    {
      ValidRegion(State())
    }

    constructor (id: nat, base: nat, bytes: nat, flag: AllocFlag)
      requires Placeable(base, bytes)
      ensures Valid()
      ensures State() == RegionState(id, base, bytes, flag,
                                     [Block(base, bytes, 0, DATA_TYPE_NONE, Free)], bytes)
    {
      this.id, this.pa, this.totBytes, this.flag := id, base, bytes, flag;
      blocks := [Block(base, bytes, 0, DATA_TYPE_NONE, Free)];
      totFreeBytes := bytes;
      new;
      assert Tiles(blocks[1..], base + bytes, base + bytes);
      assert SumFree(blocks[1..]) == 0;
    }

    /** Looks for a free block that can hold `bytes` aligned bytes: upwards for text,
        read-only and stack data, downwards for everything else. */
    method FindCandidate(bytes: nat, alignment: nat, dataType: nat)
      returns (ret: int, found: nat, start: nat)
      requires Valid()
      requires alignment < U32 && bytes < U64
      requires Forward(dataType) || bytes <= pa
      ensures bytes == 0 || alignment == 0 || alignment % PAGE != 0 ==> ret == EINVAL
      ensures bytes > 0 && alignment > 0 && alignment % PAGE == 0 ==>
                CandidateSpec(State(), bytes, alignment, dataType, ret, found, start)
    {
      if bytes == 0 || alignment == 0 || alignment % PAGE != 0 {
        return EINVAL, 0, 0;
      }
      if Forward(dataType) {
        ret, found, start := ScanUp(bytes, alignment);
      } else {
        ret, found, start := ScanDown(bytes, alignment);
      }
    }

    method ScanUp(n: nat, a: nat) returns (ret: int, found: nat, start: nat)
      requires Valid() && 0 < n < U64 && 0 < a < U32
      ensures CandidateSpec(State(), n, a, DATA_TYPE_TEXT, ret, found, start)
    {
      for i := 0 to |blocks|
        invariant forall j | 0 <= j < i :: !Accepts(blocks[j], n, a)
      {
        if blocks[i].state != Allocated {
          start := Align(blocks[i].pa, a);
          var end := (start + n) % U64;
          if end <= blocks[i].End() {
            UpFound(State(), i, n, a);
            return 0, i, start;
          }
        }
      }
      UpFails(State(), n, a);
      return ENOMEM, 0, 0;
    }

    method ScanDown(n: nat, a: nat) returns (ret: int, found: nat, start: nat)
      requires Valid() && n > 0 && 0 < a < U32
      requires n <= pa
      ensures CandidateSpec(State(), n, a, DATA_TYPE_NONE, ret, found, start)
    {
      for i := |blocks| downto 0
        invariant forall j | i <= j < |blocks| :: TooSmallDown(blocks[j], n, a)
      {
        if blocks[i].state != Allocated {
          var result := (U64 + blocks[i].End() - n) % U64;
          DownNoWrap(State(), i, n, a);
          result := result / a;
          start := result * a;
          var end := (start + n) % U64;
          if start >= blocks[i].pa && end <= blocks[i].End() {
            DownFound(State(), i, n, a);
            return 0, i, start;
          }
        }
      }
      DownFails(State(), n, a);
      return ENOMEM, 0, 0;
    }

    /** Cuts the free block `i` so that [start, start + n) becomes an allocated block; all
        sums and differences are 64-bit. */
    method SplitBlock(i: nat, start: nat, n: nat, dataType: nat, tid: int) returns (ret: int)
      requires i < |blocks| && blocks[i].bytes > 0 && blocks[i].End() < U64
      requires blocks[i].pa <= start < U64 && n < U64
      modifies this`blocks
      ensures SplitResult(old(blocks), i, start, n, dataType, tid, ret, blocks)
    {
      var target := blocks[i];
      var allocEnd, targetEnd := (start + n + U64 - 1) % U64, target.End() - 1;
      if n > 0 {
        LastAddress(start, n);
      }
      if n == 0 || allocEnd < target.pa || allocEnd > targetEnd {
        return EINVAL;
      }
      var alloc := Block(start, n, tid, dataType, Allocated);
      if start == target.pa && allocEnd == targetEnd {
        blocks := blocks[i := target.(tid := tid, dtype := dataType, state := Allocated)];
      } else if start == target.pa && allocEnd < targetEnd {
        var remaining := target.(pa := (target.pa + n) % U64, bytes := (target.bytes + U64 - n) % U64);
        blocks := blocks[..i] + [alloc, remaining] + blocks[i + 1..];
      } else if start > target.pa && allocEnd == targetEnd {
        var remaining := target.(bytes := (target.bytes + U64 - n) % U64);
        blocks := blocks[..i] + [remaining, alloc] + blocks[i + 1..];
      } else {
        var front := target.(bytes := start - target.pa);
        var back := Block(allocEnd + 1, targetEnd - allocEnd, tid, dataType, Free);
        blocks := blocks[..i] + [front, alloc, back] + blocks[i + 1..];
      }
      ret := 0;
    }

    /** The state with the free-byte counter a successful attempt leaves. */
    ghost function Charged(ret: int, bytes: nat): RegionState
      requires bytes < U64
      reads this
    {
      State().(totFreeBytes := if ret == 0 then (totFreeBytes + U64 - bytes) % U64 else totFreeBytes)
    }

    /** The strict and the compact allocator: they differ only in the size they round to. */
    method AllocInRegion(req: BufRequest, tid: int) returns (ret: int, buf: Buffer)
      requires Valid() && IsRequest(State(), req)
      requires Forward(req.dataType) || AllocSize(flag, req.bytes) <= pa
      modifies this`blocks
      ensures ret != 0 ==> blocks == old(blocks)
      ensures buf.bytes < U64 && AllocSpec(old(State()), Charged(ret, buf.bytes), req, ret, buf.(regionId := id))
    {
      buf := Buffer(0, 0, 0);
      var n, a := AllocSize(flag, req.bytes), Alignment(req.alignInPage);
      ghost var r := State();
      WordSizes(r, req);
      var found, start;
      ret, found, start := FindCandidate(n, a, req.dataType);
      if ret != 0 {
        NoCandidate(r, req, ret, found, start);
        assert Charged(ret, 0) == r;
        return;
      }
      ret, buf := UpdateBlocks(req, n, found, start, tid);
    }

    /** The second half of an attempt: the candidate found is cut out of its block. */
    method UpdateBlocks(req: BufRequest, n: nat, found: nat, start: nat, tid: int) returns (ret: int, buf: Buffer)
      requires Valid() && found < |blocks| && 0 < n < U64 && n == AllocSize(flag, req.bytes)
      requires Alignment(req.alignInPage) > 0
      requires CandidateSpec(State(), n, Alignment(req.alignInPage), req.dataType, 0, found, start) && start < U64
      modifies this`blocks
      ensures ret != 0 ==> blocks == old(blocks)
      ensures buf.bytes < U64 && AllocSpec(old(State()), Charged(ret, buf.bytes), req, ret, buf.(regionId := id))
    {
      ghost var r := State();
      TilesBounds(blocks, pa, pa + totBytes);
      ret := SplitBlock(found, start, n, req.dataType, tid);
      SplitServes(r, req, found, start, tid, ret, blocks);
      if ret != 0 {
        assert Charged(ENOMEM, 0) == r;
        return ENOMEM, Buffer(0, 0, 0);
      }
      buf := Buffer(start, n, 0);
      assert Charged(0, n) == r.(blocks := blocks, totFreeBytes := (r.totFreeBytes + U64 - n) % U64);
    }

    method TryAlloc(req: BufRequest, tid: int) returns (ret: int, buf: Buffer)
      requires Valid() && IsRequest(State(), req)
      requires Forward(req.dataType) || AllocSize(flag, req.bytes) <= pa
      modifies this
      ensures AllocSpec(old(State()), State(), req, ret, buf)
      ensures Valid() <==> !Overruns(old(State()), req)
    {
      ghost var r := State();
      ret, buf := AllocInRegion(req, tid);
      if ret == 0 {
        totFreeBytes := (totFreeBytes + U64 - buf.bytes) % U64;
        buf := buf.(regionId := id);
      }
      AttemptIsSafe(r, State(), req, ret, buf.(regionId := id));
    }

    /** Frees the first block the descriptor names and merges it with free neighbours. */
    method FreeInRegion(d: Extent) returns (ret: int)
      requires Valid()
      modifies this
      ensures FreeSpec(old(State()), State(), d, ret)
    {
      var i := 0;
      while i < |blocks| && !Names(blocks[i], d)
        invariant 0 <= i <= |blocks|
        invariant forall j | 0 <= j < i :: !Names(blocks[j], d)
      {
        i := i + 1;
      }
      if i == |blocks| {
        return EINVAL;
      }
      ghost var l := blocks;
      FirstNamed(l, pa, pa + totBytes, i, d);
      if l[i].state == Allocated {
        FreeEffect(l, pa, pa + totBytes, i);
      } else {
        FreeTwice(l, pa, pa + totBytes, i);
      }
      FreeBlock(i);
      totFreeBytes := totFreeBytes + d.bytes;
      ret := 0;
    }

    method FreeBlock(i: nat)
      requires i < |blocks|
      modifies this`blocks
      ensures blocks == FreeAt(old(blocks), i)
    {
      blocks := blocks[i := Target(blocks[i])];
      var t := i;
      if i > 0 && blocks[i - 1].bytes != 0 && blocks[i - 1].state == Free {
        t := i - 1;
        blocks := blocks[..t] + [blocks[t].(bytes := blocks[t].bytes + blocks[i].bytes)] + blocks[i + 1..];
      }
      if t + 1 < |blocks| && blocks[t + 1].bytes != 0 && blocks[t + 1].state != Allocated {
        blocks := blocks[..t] + [blocks[t].(bytes := blocks[t].bytes + blocks[t + 1].bytes)] + blocks[t + 2..];
      }
    }
  }

  lemma LastAddress(start: nat, n: nat)
    requires start < U64 && n < U64 && start + n > 0
    ensures (start + n + U64 - 1) % U64 == if start + n <= U64 then start + n - 1 else start + n - 1 - U64
  {
    var t := start + n + U64 - 1;
    DivModUnique(t, U64, if start + n <= U64 then 1 else 2, if start + n <= U64 then t - U64 else t - 2 * U64);
  }

  lemma WordSizes(r: RegionState, req: BufRequest)
    requires IsRequest(r, req)
    ensures AllocSize(r.flag, req.bytes) < U64
    ensures Alignment(req.alignInPage) % PAGE == 0
  {
    WholePages(req.alignInPage);
  }

  lemma WholePages(alignInPage: nat)
    ensures Alignment(alignInPage) % PAGE == 0
  {
    var x := alignInPage * 4 * 1024;
    FundamentalDivMod(x, U32);
    assert x % U32 == (alignInPage - x / U32 * (U32 / PAGE)) * PAGE;
    MulMod(alignInPage - x / U32 * (U32 / PAGE), PAGE);
  }

  lemma NoCandidate(r: RegionState, req: BufRequest, ret: int, found: nat, start: nat)
    requires var n, a := AllocSize(r.flag, req.bytes), Alignment(req.alignInPage);
             if n == 0 || a == 0 then ret == EINVAL
             else ret != 0 && CandidateSpec(r, n, a, req.dataType, ret, found, start)
    ensures AllocSpec(r, r, req, ret, Buffer(0, 0, r.id))
  {
  }

  /** The three outcomes of a split: a cut inside the block, a cut that a wrapped end makes
      look like one, or a refusal that changes nothing. */
  ghost predicate SplitResult(l: seq<Block>, i: nat, start: nat, n: nat, dtype: nat, tid: int, ret: int, l': seq<Block>)
    requires i < |l| && l[i].pa <= start
  {
    if n > 0 && start + n <= l[i].End() then
      ret == 0 && l' == SplitAt(l, i, start, n, tid, dtype)
    else if n > 0 && l[i].pa + U64 < start + n <= l[i].End() + U64 then
      ret == 0 && l' == l[..i] + WrappedPieces(l[i], start, n, tid, dtype) + l[i + 1..]
    else
      ret == EINVAL && l' == l
  }

  /** What the split makes of the candidate: it serves the request, refuses it, or, on a
      wrapped end above the start of the block, overruns the region. */
  lemma SplitServes(r: RegionState, req: BufRequest, i: nat, start: nat, tid: int, ret: int, l: seq<Block>)
    requires ValidRegion(r) && i < |r.blocks| && r.blocks[i].pa <= start
    requires var n, a := AllocSize(r.flag, req.bytes), Alignment(req.alignInPage);
             && 0 < n < U64 && a > 0 && CandidateSpec(r, n, a, req.dataType, 0, i, start)
             && SplitResult(r.blocks, i, start, n, req.dataType, tid, ret, l)
    ensures var n := AllocSize(r.flag, req.bytes);
            var r' := r.(blocks := l, totFreeBytes := (r.totFreeBytes + U64 - n) % U64);
            if ret == 0 then AllocSpec(r, r', req, 0, Buffer(start, n, r.id))
            else l == r.blocks && AllocSpec(r, r, req, ENOMEM, Buffer(0, 0, r.id))
  {
    var n := AllocSize(r.flag, req.bytes);
    TilesBounds(r.blocks, r.pa, r.End());
    if start + n < U64 {
      CutServes(r, req, i, start, tid);
    } else if r.blocks[i].pa + U64 < start + n {
      assert OverrunBlocks(r, l, i, start, n, tid, req.dataType);
    } else {
      HugeCannotBePlaced(r, n, Alignment(req.alignInPage));
    }
  }

  lemma CutServes(r: RegionState, req: BufRequest, i: nat, start: nat, tid: int)
    requires ValidRegion(r) && i < |r.blocks| && r.blocks[i].pa <= start
    requires var n, a := AllocSize(r.flag, req.bytes), Alignment(req.alignInPage);
             && 0 < n < U64 && a > 0 && start + n < U64 && CandidateSpec(r, n, a, req.dataType, 0, i, start)
    ensures var n := AllocSize(r.flag, req.bytes);
            && start + n <= r.blocks[i].End()
            && var l := SplitAt(r.blocks, i, start, n, tid, req.dataType);
            AllocSpec(r, r.(blocks := l, totFreeBytes := (r.totFreeBytes + U64 - n) % U64), req, 0,
                      Buffer(start, n, r.id))
  {
    var n := AllocSize(r.flag, req.bytes);
    SplitEffect(r.blocks, r.pa, r.End(), i, start, n, tid, req.dataType);
    FreeBlockIsFreeRange(r.blocks, r.pa, r.End(), i, start, n);
    SumFreeBound(r.blocks, r.pa, r.End());
    var l := SplitAt(r.blocks, i, start, n, tid, req.dataType);
    DivModUnique(r.totFreeBytes + U64 - n, U64, 1, SumFree(l));
  }

  /** An attempt keeps the region well formed if and only if the request does not overrun it. */
  lemma AttemptIsSafe(r: RegionState, r': RegionState, req: BufRequest, ret: int, buf: Buffer)
    requires ValidRegion(r) && AllocSpec(r, r', req, ret, buf)
    ensures ValidRegion(r') <==> !Overruns(r, req)
  {
    if Overruns(r, req) && ValidRegion(r') {
      var n, a := AllocSize(r.flag, req.bytes), Alignment(req.alignInPage);
      var i := FirstAccepting(r.blocks, n, a);
      var start := Align(r.blocks[i].pa, a);
      var tid :| OverrunBlocks(r, r'.blocks, i, start, n, tid, req.dataType);
      assert r'.blocks[i + 1] == Block(start, n, tid, req.dataType, Allocated);
      TilesBounds(r'.blocks, r'.pa, r'.End());
    }
  }

  /** Where a request is placed, by the number of its data type: text (1) and read-only or
      stack data (2) at the lowest aligned address that is free, everything else at the
      highest. If there is no such address the request is refused. */
  lemma PlacedByType(r: RegionState, r': RegionState, req: BufRequest, ret: int, buf: Buffer)
    requires ValidRegion(r) && AllocSpec(r, r', req, ret, buf) && ValidRegion(r')
    requires AllocSize(r.flag, req.bytes) > 0 && req.alignInPage * 4096 % U32 > 0
    requires req.dataType == 1 || req.dataType == 2 ==> IsPow2(req.alignInPage * 4096 % U32)
    ensures var n, a := AllocSize(r.flag, req.bytes), req.alignInPage * 4096 % U32;
            && (ret == 0 ==> buf.bytes == n &&
                             if req.dataType == 1 || req.dataType == 2
                             then IsLowestFit(r.Live(), r.pa, r.End(), n, a, buf.pa)
                             else IsHighestFit(r.Live(), r.pa, r.End(), n, a, buf.pa))
            && (ret != 0 ==> r' == r && forall x: nat :: !Fits(r.Live(), r.pa, r.End(), n, a, x))
  {
    AttemptIsSafe(r, r', req, ret, buf);
  }

  /** Requests that pass the free-byte test never overrun. */
  lemma SmallNeverOverruns(r: RegionState, req: BufRequest)
    requires ValidRegion(r) && AllocSize(r.flag, req.bytes) <= r.totFreeBytes
    ensures !Overruns(r, req)
  {
    var n, a := AllocSize(r.flag, req.bytes), Alignment(req.alignInPage);
    SumFreeBound(r.blocks, r.pa, r.End());
    if Overruns(r, req) {
      WrapIsHuge(r, FirstAccepting(r.blocks, n, a), n, a);
    }
  }

  lemma AlignBelow(x: nat, a: nat)
    requires 1 <= a && x + a <= U64
    ensures Align(x, a) <= x + a - 1
  {
    DivModUnique(x + a - 1, U64, 0, x + a - 1);
  }

  /** A descriptor names at most one block, so a live one is found where it lies. */
  lemma FirstNamed(l: seq<Block>, lo: nat, hi: nat, i: nat, d: Extent)
    requires Tiles(l, lo, hi)
    requires i < |l| && Names(l[i], d)
    ensures d in Live(l) <==> l[i].state == Allocated
  {
    TilesOrdered(l, lo, hi);
    TilesBounds(l, lo, hi);
    AllocatedIsLive(l);
    if d in Live(l) {
      var j :| 0 <= j < |l| && l[j].state == Allocated && ExtentOf(l[j]) == d;
      assert !(i < j) && !(j < i);
    }
  }
}
