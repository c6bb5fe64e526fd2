/** The address-ordered block list of a memory region, as a value: what a well-formed list
    is, what it says about free address ranges, and how a block is split and merged. */
module Blocks {
  import opened Words

  datatype BlockState = Free | Allocated

  datatype Block = Block(pa: nat, bytes: nat, tid: int, dtype: nat, state: BlockState) {
    function End(): nat { pa + bytes }
  }

  /** An address range handed out to a caller. */
  datatype Extent = Extent(pa: nat, bytes: nat) {
    function End(): nat { pa + bytes }
  }

  const DATA_TYPE_NONE: nat := 0
  const DATA_TYPE_TEXT: nat := 1
  const DATA_TYPE_RO_STACK: nat := 2
  const DATA_TYPE_STATIC: nat := 3
  const DATA_TYPE_REUSE: nat := 4

  function ExtentOf(b: Block): Extent {
    Extent(b.pa, b.bytes)
  }

  ghost function Live(l: seq<Block>): set<Extent> {
    set b | b in l && b.state == Allocated :: ExtentOf(b)
  }

  /** In list order the blocks cover exactly [lo, hi), and none of them is empty. */
  ghost predicate Tiles(l: seq<Block>, lo: nat, hi: nat) {
    if l == [] then lo == hi
    else l[0].pa == lo && l[0].bytes > 0 && Tiles(l[1..], lo + l[0].bytes, hi)
  }

  ghost predicate Coalesced(l: seq<Block>) {
    forall i :: 0 <= i < |l| - 1 ==> l[i].state == Allocated || l[i + 1].state == Allocated
  }

  ghost function SumFree(l: seq<Block>): nat {
    if l == [] then 0
    else (if l[0].state == Free then l[0].bytes else 0) + SumFree(l[1..])
  }

  ghost predicate WellFormed(l: seq<Block>, lo: nat, hi: nat) {
    Tiles(l, lo, hi) && Coalesced(l)
  }

  ghost predicate Disjoint(e: Extent, f: Extent) {
    e.End() <= f.pa || f.End() <= e.pa
  }

  /** Every address of [x, x + n) lies in [lo, hi) and in no live extent. */
  ghost predicate RangeFree(live: set<Extent>, lo: nat, hi: nat, x: nat, n: nat) {
    lo <= x && x + n <= hi && forall e | e in live :: Disjoint(Extent(x, n), e)
  }

  /** `x` is an aligned start address at which `n` bytes are free. */
  ghost predicate Fits(live: set<Extent>, lo: nat, hi: nat, n: nat, a: nat, x: nat)
    requires 1 <= a
  {
    x % a == 0 && RangeFree(live, lo, hi, x, n)
  }

  ghost predicate IsLowestFit(live: set<Extent>, lo: nat, hi: nat, n: nat, a: nat, x: nat)
    requires 1 <= a
  {
    Fits(live, lo, hi, n, a, x) && forall y: nat | Fits(live, lo, hi, n, a, y) :: x <= y
  }

  ghost predicate IsHighestFit(live: set<Extent>, lo: nat, hi: nat, n: nat, a: nat, x: nat)
    requires 1 <= a
  {
    Fits(live, lo, hi, n, a, x) && forall y: nat | Fits(live, lo, hi, n, a, y) :: y <= x
  }

  // ---- Facts about tilings

  lemma {:induction false} TilesAppend(a: seq<Block>, b: seq<Block>, lo: nat, mid: nat, hi: nat)
    requires Tiles(a, lo, mid) && Tiles(b, mid, hi)
    ensures Tiles(a + b, lo, hi)
  {
    if a == [] {
      assert a + b == b;
    } else {
      TilesAppend(a[1..], b, lo + a[0].bytes, mid, hi);
      assert (a + b)[1..] == a[1..] + b;
    }
  }

  lemma {:induction false} TilesSplit(a: seq<Block>, b: seq<Block>, lo: nat, hi: nat) returns (mid: nat)
    requires Tiles(a + b, lo, hi)
    ensures Tiles(a, lo, mid) && Tiles(b, mid, hi)
  {
    if a == [] {
      mid := lo;
      assert a + b == b;
    } else {
      assert (a + b)[1..] == a[1..] + b;
      mid := TilesSplit(a[1..], b, lo + a[0].bytes, hi);
    }
  }

  lemma {:induction false} TilesBounds(l: seq<Block>, lo: nat, hi: nat)
    requires Tiles(l, lo, hi)
    ensures lo <= hi
    ensures l == [] <==> lo == hi
    ensures forall i | 0 <= i < |l| :: lo <= l[i].pa && l[i].bytes > 0 && l[i].End() <= hi
  {
    if l != [] {
      TilesBounds(l[1..], lo + l[0].bytes, hi);
      forall i | 0 <= i < |l|
        ensures lo <= l[i].pa && l[i].bytes > 0 && l[i].End() <= hi
      {
        if i > 0 {
          assert l[i] == l[1..][i - 1];
        }
      }
    }
  }

  lemma {:induction false} TilesOrdered(l: seq<Block>, lo: nat, hi: nat)
    requires Tiles(l, lo, hi)
    ensures forall i, j | 0 <= i < j < |l| :: l[i].End() <= l[j].pa
    ensures forall i | 0 <= i < |l| - 1 :: l[i].End() == l[i + 1].pa
  {
    if l != [] {
      TilesOrdered(l[1..], lo + l[0].bytes, hi);
      TilesBounds(l[1..], lo + l[0].bytes, hi);
      forall i, j | 0 <= i < j < |l|
        ensures l[i].End() <= l[j].pa
      {
        assert l[j] == l[1..][j - 1];
        if i > 0 {
          assert l[i] == l[1..][i - 1];
        }
      }
      forall i | 0 <= i < |l| - 1
        ensures l[i].End() == l[i + 1].pa
      {
        assert l[i + 1] == l[1..][i];
        if i > 0 {
          assert l[i] == l[1..][i - 1];
        }
      }
    }
  }

  lemma AllocatedIsLive(l: seq<Block>)
    ensures forall i | 0 <= i < |l| && l[i].state == Allocated :: ExtentOf(l[i]) in Live(l)
  {
  }

  lemma LiveAppend(a: seq<Block>, b: seq<Block>)
    ensures Live(a + b) == Live(a) + Live(b)
  {
    forall e
      ensures e in Live(a + b) <==> e in Live(a) + Live(b)
    {
      if e in Live(a) {
        var x :| x in a && x.state == Allocated && ExtentOf(x) == e;
        assert x in a + b;
      } else if e in Live(b) {
        var x :| x in b && x.state == Allocated && ExtentOf(x) == e;
        assert x in a + b;
      }
    }
  }

  lemma {:induction false} SumFreeAppend(a: seq<Block>, b: seq<Block>)
    ensures SumFree(a + b) == SumFree(a) + SumFree(b)
  {
    if a == [] {
      assert a + b == b;
    } else {
      SumFreeAppend(a[1..], b);
      assert (a + b)[1..] == a[1..] + b;
    }
  }

  lemma LiveBounds(l: seq<Block>, lo: nat, hi: nat)
    requires Tiles(l, lo, hi)
    ensures forall e | e in Live(l) :: lo <= e.pa && e.bytes > 0 && e.End() <= hi
  {
    TilesBounds(l, lo, hi);
  }

  /** Live extents of one region never overlap. */
  lemma LiveDisjoint(l: seq<Block>, lo: nat, hi: nat)
    requires Tiles(l, lo, hi)
    ensures forall e, f | e in Live(l) && f in Live(l) && e != f :: Disjoint(e, f)
  {
    TilesOrdered(l, lo, hi);
    forall e, f | e in Live(l) && f in Live(l) && e != f
      ensures Disjoint(e, f)
    {
      var i :| 0 <= i < |l| && l[i].state == Allocated && ExtentOf(l[i]) == e;
      var j :| 0 <= j < |l| && l[j].state == Allocated && ExtentOf(l[j]) == f;
      assert i < j || j < i;
    }
  }

  // ---- Free ranges and free blocks are the same thing

  /** Because neighbours are never both free, a free range always lies in one free block. */
  lemma {:induction false} FreeRangeInOneBlock(l: seq<Block>, lo: nat, hi: nat, x: nat, n: nat)
    returns (i: nat)
    requires WellFormed(l, lo, hi) && n > 0
    requires RangeFree(Live(l), lo, hi, x, n)
    ensures i < |l| && l[i].state == Free && l[i].pa <= x && x + n <= l[i].End()
  {
    TilesBounds(l, lo, hi);
    var tail := l[1..];
    if l[0].End() <= x {
      forall e | e in Live(tail)
        ensures e in Live(l)
      {
        var b :| b in tail && b.state == Allocated && ExtentOf(b) == e;
        assert b in l;
      }
      assert Coalesced(tail) by {
        forall j | 0 <= j < |tail| - 1
          ensures tail[j].state == Allocated || tail[j + 1].state == Allocated
        {
          assert tail[j] == l[j + 1] && tail[j + 1] == l[j + 2];
        }
      }
      i := FreeRangeInOneBlock(tail, l[0].End(), hi, x, n);
      i := i + 1;
    } else {
      i := 0;
      AllocatedIsLive(l);
      assert l[0].state == Free;
      TilesOrdered(l, lo, hi);
      TilesBounds(tail, l[0].End(), hi);
      assert x + n <= l[0].End();
    }
  }

  lemma FreeBlockIsFreeRange(l: seq<Block>, lo: nat, hi: nat, i: nat, x: nat, n: nat)
    requires Tiles(l, lo, hi)
    requires i < |l| && l[i].state == Free && l[i].pa <= x && x + n <= l[i].End()
    ensures RangeFree(Live(l), lo, hi, x, n)
  {
    TilesBounds(l, lo, hi);
    TilesOrdered(l, lo, hi);
    forall e | e in Live(l)
      ensures Disjoint(Extent(x, n), e)
    {
      var j :| 0 <= j < |l| && l[j].state == Allocated && ExtentOf(l[j]) == e;
      assert i < j || j < i;
    }
  }

  lemma {:induction false} FreeBlockBelowSum(l: seq<Block>, i: nat)
    requires i < |l| && l[i].state == Free
    ensures l[i].bytes <= SumFree(l)
  {
    if i > 0 {
      assert l[i] == l[1..][i - 1];
      FreeBlockBelowSum(l[1..], i - 1);
    }
  }

  /** The free-byte total is an upper bound for every request that could be placed. */
  lemma FitBelowFreeTotal(l: seq<Block>, lo: nat, hi: nat, n: nat, a: nat, x: nat)
    requires WellFormed(l, lo, hi) && n > 0 && 1 <= a
    requires Fits(Live(l), lo, hi, n, a, x)
    ensures n <= SumFree(l) <= hi - lo
  {
    var i := FreeRangeInOneBlock(l, lo, hi, x, n);
    FreeBlockBelowSum(l, i);
    SumFreeBound(l, lo, hi);
  }

  lemma {:induction false} SumFreeBound(l: seq<Block>, lo: nat, hi: nat)
    requires Tiles(l, lo, hi)
    ensures lo <= hi && SumFree(l) <= hi - lo
  {
    if l != [] {
      SumFreeBound(l[1..], lo + l[0].bytes, hi);
    }
  }

  // ---- The list is determined by its live extents

  /** What a block list looks like to everyone but the owner of a block. */
  ghost function Shape(l: seq<Block>): seq<(Extent, BlockState)> {
    seq(|l|, i requires 0 <= i < |l| => (ExtentOf(l[i]), l[i].state))
  }

  /** Two well-formed lists over the same range with the same live extents have the same
      addresses, sizes and states. */
  lemma {:induction false} CanonicalForm(l: seq<Block>, m: seq<Block>, lo: nat, hi: nat)
    requires WellFormed(l, lo, hi) && WellFormed(m, lo, hi)
    requires Live(l) == Live(m)
    ensures Shape(l) == Shape(m)
  {
    TilesBounds(l, lo, hi);
    TilesBounds(m, lo, hi);
    if l != [] {
      SameHead(l, m, lo, hi);
      SameHead(m, l, lo, hi);
      assert l[0].bytes == m[0].bytes;
      LiveTail(l, lo, hi);
      LiveTail(m, lo, hi);
      CoalescedTail(l);
      CoalescedTail(m);
      CanonicalForm(l[1..], m[1..], lo + l[0].bytes, hi);
      assert |Shape(l[1..])| == |l| - 1 && |Shape(m[1..])| == |m| - 1;
      forall i | 0 <= i < |l|
        ensures Shape(l)[i] == Shape(m)[i]
      {
        if i > 0 {
          assert Shape(l)[i] == Shape(l[1..])[i - 1];
          assert Shape(m)[i] == Shape(m[1..])[i - 1];
        }
      }
    }
  }

  lemma CoalescedTail(l: seq<Block>)
    requires Coalesced(l) && l != []
    ensures Coalesced(l[1..])
  {
    var tail := l[1..];
    forall j | 0 <= j < |tail| - 1
      ensures tail[j].state == Allocated || tail[j + 1].state == Allocated
    {
      assert tail[j] == l[j + 1] && tail[j + 1] == l[j + 2];
    }
  }

  lemma LiveTail(l: seq<Block>, lo: nat, hi: nat)
    requires Tiles(l, lo, hi) && l != []
    ensures Live(l[1..]) == Live(l) - {ExtentOf(l[0])}
  {
    assert l == [l[0]] + l[1..];
    LiveAppend([l[0]], l[1..]);
    LiveBounds(l[1..], lo + l[0].bytes, hi);
    assert ExtentOf(l[0]) !in Live(l[1..]);
    assert Live([l[0]]) <= {ExtentOf(l[0])};
  }

  lemma SameHead(l: seq<Block>, m: seq<Block>, lo: nat, hi: nat)
    requires WellFormed(l, lo, hi) && WellFormed(m, lo, hi)
    requires Live(l) == Live(m) && l != [] && m != []
    ensures l[0].state == Allocated ==> m[0].state == Allocated && l[0].bytes == m[0].bytes
    ensures l[0].state == Free && m[0].state == Free ==> l[0].bytes >= m[0].bytes
  {
    TilesOrdered(l, lo, hi);
    TilesOrdered(m, lo, hi);
    TilesBounds(m, lo, hi);
    TilesBounds(l, lo, hi);
    if l[0].state == Allocated {
      var e := ExtentOf(l[0]);
      assert e in Live(l);
      var j :| 0 <= j < |m| && m[j].state == Allocated && ExtentOf(m[j]) == e;
      assert j == 0;
    } else if m[0].state == Free {
      TilesBounds(l[1..], l[0].End(), hi);
      AllocatedIsLive(l);
      assert |l| > 1 ==> ExtentOf(l[1]) in Live(m);
      assert l[0].bytes >= m[0].bytes;
    }
  }

  // ---- Splitting a free block

  /** The blocks that take the place of the free block `b` when [start, start + n) is
      allocated inside it. */
  function Pieces(b: Block, start: nat, n: nat, tid: int, dtype: nat): (p: seq<Block>)
    requires b.pa <= start && start + n <= b.End()
  {
    (if b.pa < start then [b.(bytes := start - b.pa)] else []) +
    [Block(start, n, tid, dtype, Allocated)] +
    (if start + n == b.End() then []
     else if b.pa < start then [Block(start + n, b.End() - (start + n), tid, dtype, Free)]
     else [b.(pa := start + n, bytes := b.bytes - n)])
  }

  function SplitAt(l: seq<Block>, i: nat, start: nat, n: nat, tid: int, dtype: nat): seq<Block>
    requires i < |l| && l[i].pa <= start && start + n <= l[i].End()
  {
    l[..i] + Pieces(l[i], start, n, tid, dtype) + l[i + 1..]
  }

  /** Splitting keeps the list well formed, adds exactly one live extent and takes its
      size from the free total, in all four cases. */
  lemma SplitEffect(l: seq<Block>, lo: nat, hi: nat, i: nat, start: nat, n: nat, tid: int, dtype: nat)
    requires WellFormed(l, lo, hi)
    requires i < |l| && l[i].state == Free && n > 0
    requires l[i].pa <= start && start + n <= l[i].End()
    ensures var l' := SplitAt(l, i, start, n, tid, dtype);
            && WellFormed(l', lo, hi)
            && Live(l') == Live(l) + {Extent(start, n)}
            && Extent(start, n) !in Live(l)
            && SumFree(l') + n == SumFree(l)
  {
    PiecesTile(l[i], start, n, tid, dtype);
    var p := Pieces(l[i], start, n, tid, dtype);
    SplitCoalesced(l, i, p);
    ReplaceFree(l, lo, hi, i, p);
    FreeBlockIsFreeRange(l, lo, hi, i, start, n);
    assert !Disjoint(Extent(start, n), Extent(start, n));
  }

  /** Blocks that tile the addresses of a free block can take its place. */
  lemma ReplaceFree(l: seq<Block>, lo: nat, hi: nat, i: nat, p: seq<Block>)
    requires Tiles(l, lo, hi) && i < |l| && l[i].state == Free
    requires Tiles(p, l[i].pa, l[i].End())
    ensures var l' := l[..i] + p + l[i + 1..];
            && Tiles(l', lo, hi)
            && Live(l') == Live(l) + Live(p)
            && SumFree(l') + l[i].bytes == SumFree(l) + SumFree(p)
  {
    Splice(l, i, i + 1, p, lo, hi);
    LiveSpan(l, i, i + 1);
    OneFree(l, i);
  }

  lemma OneFree(l: seq<Block>, i: nat)
    requires i < |l| && l[i].state == Free
    ensures Live(l[i..i + 1]) == {} && SumFree(l[i..i + 1]) == l[i].bytes
  {
    FreeSingle(l[i]);
    assert l[i..i + 1] == [l[i]];
  }

  lemma SplitCoalesced(l: seq<Block>, i: nat, p: seq<Block>)
    requires Coalesced(l) && i < |l| && l[i].state == Free && Coalesced(p) && p != []
    ensures Coalesced(l[..i] + p + l[i + 1..])
  {
    SpliceCoalesced(l, i, i + 1, p);
  }

  lemma PiecesTile(b: Block, start: nat, n: nat, tid: int, dtype: nat)
    requires b.state == Free && n > 0
    requires b.pa <= start && start + n <= b.End()
    ensures var p := Pieces(b, start, n, tid, dtype);
            && p != []
            && Tiles(p, b.pa, b.End()) && Coalesced(p)
            && Live(p) == {Extent(start, n)}
            && SumFree(p) + n == b.bytes
            && Tiles([b], b.pa, b.End()) && SumFree([b]) == b.bytes
  {
    var front := if b.pa < start then [b.(bytes := start - b.pa)] else [];
    var mid := [Block(start, n, tid, dtype, Allocated)];
    var p := Pieces(b, start, n, tid, dtype);
    var back := p[|front + mid|..];
    assert p == front + mid + back;
    assert Tiles(front, b.pa, start) && Tiles(mid, start, start + n) && Tiles(back, start + n, b.End());
    TilesAppend(front, mid, b.pa, start, start + n);
    TilesAppend(front + mid, back, b.pa, start + n, b.End());
    LiveAppend(front, mid);
    LiveAppend(front + mid, back);
    SumFreeAppend(front, mid);
    SumFreeAppend(front + mid, back);
    assert Live(front) == {} && Live(back) == {};
    assert ExtentOf(mid[0]) in Live(mid);
    assert Live(mid) == {Extent(start, n)};
  }

  // ---- Replacing a span of a list by blocks over the same addresses

  lemma Splice(l: seq<Block>, i: nat, j: nat, q: seq<Block>, lo: nat, hi: nat)
    requires i < j <= |l|
    requires Tiles(l, lo, hi)
    requires Tiles(q, l[i].pa, l[j - 1].End())
    ensures var l' := l[..i] + q + l[j..];
            && Tiles(l', lo, hi)
            && Live(l') == Live(l[..i]) + Live(q) + Live(l[j..])
            && SumFree(l') + SumFree(l[i..j]) == SumFree(l) + SumFree(q)
  {
    var a, p, c := l[..i], l[i..j], l[j..];
    assert l == a + p + c;
    var end := TilesSplit(a + p, c, lo, hi);
    var begin := TilesSplit(a, p, lo, end);
    TilesEnds(p, begin, end);
    TilesAppend(a, q, lo, begin, end);
    TilesAppend(a + q, c, lo, end, hi);
    LiveAppend(a, q);
    LiveAppend(a + q, c);
    SumFreeAppend(a, p);
    SumFreeAppend(a + p, c);
    SumFreeAppend(a, q);
    SumFreeAppend(a + q, c);
  }

  lemma {:induction false} TilesEnds(p: seq<Block>, lo: nat, hi: nat)
    requires p != [] && Tiles(p, lo, hi)
    ensures p[0].pa == lo && p[|p| - 1].End() == hi
  {
    if |p| > 1 {
      TilesEnds(p[1..], lo + p[0].bytes, hi);
      assert p[|p| - 1] == p[1..][|p| - 2];
    }
  }

  lemma LiveSpan(l: seq<Block>, i: nat, j: nat)
    requires i <= j <= |l|
    ensures Live(l) == Live(l[..i]) + Live(l[i..j]) + Live(l[j..])
  {
    assert l == l[..i] + l[i..j] + l[j..];
    LiveAppend(l[..i], l[i..j]);
    LiveAppend(l[..i] + l[i..j], l[j..]);
  }

  lemma SpliceCoalesced(l: seq<Block>, i: nat, j: nat, q: seq<Block>)
    requires i < j <= |l| && Coalesced(l) && Coalesced(q) && q != []
    requires i > 0 && q[0].state == Free ==> l[i - 1].state == Allocated
    requires j < |l| && q[|q| - 1].state == Free ==> l[j].state == Allocated
    ensures Coalesced(l[..i] + q + l[j..])
  {
  }

  // ---- Freeing a block

  function Target(b: Block): Block {
    b.(tid := 0, dtype := DATA_TYPE_NONE, state := Free)
  }

  predicate FreeNeighbour(l: seq<Block>, i: int) {
    0 <= i < |l| && l[i].bytes != 0 && l[i].state == Free
  }

  function First(l: seq<Block>, i: nat): nat
    requires i < |l|
  {
    if FreeNeighbour(l, i - 1) then i - 1 else i
  }

  function Last(l: seq<Block>, i: nat): nat
    requires i < |l|
  {
    if FreeNeighbour(l, i + 1) then i + 1 else i
  }

  /** The one free block that takes the place of block `i` and its free neighbours. */
  function Merged(l: seq<Block>, i: nat): Block
    requires i < |l|
  {
    var kept := if First(l, i) < i then l[First(l, i)] else Target(l[i]);
    kept.(bytes := (if First(l, i) < i then l[First(l, i)].bytes else 0) + l[i].bytes
                   + (if i < Last(l, i) then l[Last(l, i)].bytes else 0))
  }

  /** The list after block `i` is marked free and merged with its free neighbours. */
  function FreeAt(l: seq<Block>, i: nat): seq<Block>
    requires i < |l|
  {
    l[..First(l, i)] + [Merged(l, i)] + l[Last(l, i) + 1..]
  }

  /** Freeing an allocated block keeps the list well formed, removes exactly that live
      extent and returns its size to the free total, in all four merge cases. */
  lemma FreeEffect(l: seq<Block>, lo: nat, hi: nat, i: nat)
    requires WellFormed(l, lo, hi)
    requires i < |l| && l[i].state == Allocated
    ensures var l' := FreeAt(l, i);
            && WellFormed(l', lo, hi)
            && Live(l') == Live(l) - {ExtentOf(l[i])}
            && SumFree(l') == SumFree(l) + l[i].bytes
  {
    MergedSpan(l, lo, hi, i);
    MergeEffect(l, lo, hi, First(l, i), i, Last(l, i), Merged(l, i));
  }

  lemma MergeEffect(l: seq<Block>, lo: nat, hi: nat, first: nat, i: nat, last: nat, merged: Block)
    requires WellFormed(l, lo, hi)
    requires first <= i <= last < |l| && i <= first + 1 && last <= i + 1
    requires l[i].state == Allocated && merged.state == Free
    requires first < i ==> l[first].state == Free
    requires i < last ==> l[last].state == Free
    requires first > 0 ==> l[first - 1].state == Allocated
    requires last + 1 < |l| ==> l[last + 1].state == Allocated
    requires merged.bytes == (if first < i then l[first].bytes else 0) + l[i].bytes
                             + (if i < last then l[last].bytes else 0)
    requires Tiles([merged], l[first].pa, l[last].End())
    ensures var l' := l[..first] + [merged] + l[last + 1..];
            && WellFormed(l', lo, hi)
            && Live(l') == Live(l) - {ExtentOf(l[i])}
            && SumFree(l') == SumFree(l) + l[i].bytes
  {
    SpliceCoalesced(l, first, last + 1, [merged]);
    MergeLive(l, lo, hi, first, i, last, merged);
  }

  lemma MergeLive(l: seq<Block>, lo: nat, hi: nat, first: nat, i: nat, last: nat, merged: Block)
    requires Tiles(l, lo, hi)
    requires first <= i <= last < |l| && i <= first + 1 && last <= i + 1
    requires l[i].state == Allocated && merged.state == Free
    requires first < i ==> l[first].state == Free
    requires i < last ==> l[last].state == Free
    requires merged.bytes == (if first < i then l[first].bytes else 0) + l[i].bytes
                             + (if i < last then l[last].bytes else 0)
    requires Tiles([merged], l[first].pa, l[last].End())
    ensures var l' := l[..first] + [merged] + l[last + 1..];
            && Tiles(l', lo, hi)
            && Live(l') == Live(l) - {ExtentOf(l[i])}
            && SumFree(l') == SumFree(l) + l[i].bytes
  {
    Splice(l, first, last + 1, [merged], lo, hi);
    LiveSpan(l, first, last + 1);
    SpanOfFree(l, first, i, last);
    NotElsewhere(l, lo, hi, i, first, last);
    FreeSingle(merged);
  }

  lemma FreeSingle(b: Block)
    requires b.state == Free
    ensures Live([b]) == {} && SumFree([b]) == b.bytes
  {
  }

  lemma MergedSpan(l: seq<Block>, lo: nat, hi: nat, i: nat)
    requires WellFormed(l, lo, hi)
    requires i < |l| && l[i].state == Allocated
    ensures var first, last, merged := First(l, i), Last(l, i), Merged(l, i);
            && merged.state == Free
            && merged.bytes == (if first < i then l[first].bytes else 0) + l[i].bytes
                               + (if i < last then l[last].bytes else 0)
            && Tiles([merged], l[first].pa, l[last].End())
            && (first > 0 ==> l[first - 1].state == Allocated)
            && (last + 1 < |l| ==> l[last + 1].state == Allocated)
  {
    TilesBounds(l, lo, hi);
    TilesOrdered(l, lo, hi);
  }

  lemma SpanOfFree(l: seq<Block>, first: nat, i: nat, last: nat)
    requires first <= i <= last < |l| && i - 1 <= first && last <= i + 1
    requires l[i].state == Allocated
    requires first < i ==> l[first].state == Free
    requires last > i ==> l[last].state == Free
    ensures Live(l[first..last + 1]) == {ExtentOf(l[i])}
    ensures SumFree(l[first..last + 1]) ==
            (if first < i then l[first].bytes else 0) + (if last > i then l[last].bytes else 0)
  {
    var span := l[first..last + 1];
    var left := if first < i then [l[first]] else [];
    var right := if last > i then [l[last]] else [];
    assert span == left + [l[i]] + right;
    LiveAppend(left, [l[i]]);
    LiveAppend(left + [l[i]], right);
    SumFreeAppend(left, [l[i]]);
    SumFreeAppend(left + [l[i]], right);
    assert l[i] in [l[i]];
    assert Live([l[i]]) == {ExtentOf(l[i])};
    assert Live(left) == {} && Live(right) == {};
  }

  lemma NotElsewhere(l: seq<Block>, lo: nat, hi: nat, i: nat, first: nat, last: nat)
    requires Tiles(l, lo, hi)
    requires first <= i <= last < |l|
    ensures ExtentOf(l[i]) !in Live(l[..first]) + Live(l[last + 1..])
  {
    TilesOrdered(l, lo, hi);
    TilesBounds(l, lo, hi);
    forall b | b in l[..first] || b in l[last + 1..]
      ensures ExtentOf(b) != ExtentOf(l[i])
    {
      var j :| 0 <= j < |l| && l[j] == b && (j < first || last < j);
      assert j < i || i < j;
    }
  }

  /** Freeing a block that is already free leaves the shape of the list as it was. */
  lemma {:induction false} FreeTwice(l: seq<Block>, lo: nat, hi: nat, i: nat)
    requires WellFormed(l, lo, hi)
    requires i < |l| && l[i].state == Free
    ensures Shape(FreeAt(l, i)) == Shape(l)
    ensures SumFree(FreeAt(l, i)) == SumFree(l)
  {
    assert First(l, i) == i && Last(l, i) == i;
    assert FreeAt(l, i) == l[..i] + [Target(l[i])] + l[i + 1..];
    RetagFree(l, i, Target(l[i]));
  }

  lemma {:induction false} RetagFree(l: seq<Block>, i: nat, b: Block)
    requires i < |l| && l[i].state == Free && b.state == Free && ExtentOf(b) == ExtentOf(l[i])
    ensures Shape(l[..i] + [b] + l[i + 1..]) == Shape(l)
    ensures SumFree(l[..i] + [b] + l[i + 1..]) == SumFree(l)
  {
    var front, back := l[..i], l[i + 1..];
    assert l == front + [l[i]] + back;
    SumFreeAppend(front, [l[i]]);
    SumFreeAppend(front + [l[i]], back);
    SumFreeAppend(front, [b]);
    SumFreeAppend(front + [b], back);
    SameShape(l, l[..i] + [b] + l[i + 1..]);
  }

  lemma {:induction false} SameShape(l: seq<Block>, m: seq<Block>)
    requires |l| == |m|
    requires forall k | 0 <= k < |l| :: ExtentOf(l[k]) == ExtentOf(m[k]) && l[k].state == m[k].state
    ensures Shape(l) == Shape(m)
  {
  }
}
