/** Section layout in the user-mode driver: aligned offsets inside one group allocation, and
    the bump layout of the simulator. Addresses and sizes are 32-bit in the source. */
module Layout {
  import opened Words

  /** What the layout needs to know of a section. */
  datatype Section = Section(size: nat, alignInPage: nat)

  datatype Child = Child(pa: nat, va: nat, size: nat) {
    function End(): nat { pa + size }
  }

  function AlignBytes(alignInPage: nat): nat {
    alignInPage * PAGE
  }

  /** The least multiple of the alignment that is not below `base`, found by counting up in
      32-bit arithmetic. */
  method GetAlignedAddr(base: nat, alignInPage: nat) returns (r: nat)
    requires alignInPage > 0 && RoundUp(base, AlignBytes(alignInPage)) < U32
    ensures r == RoundUp(base, AlignBytes(alignInPage))
  {
    var n: nat := 0;
    var a := AlignBytes(alignInPage);
    ghost var limit := RoundUp(base, a);
    ZeroMod(a);
    while n * a % U32 < base
      invariant n * a % a == 0 && n * a <= limit
      invariant n > 0 ==> (n - 1) * a < base
      decreases limit - n * a
    {
      assert n * a % U32 == n * a;
      assert (n + 1) * a == n * a + a;
      MulMod(n + 1, a);
      MultiplesApart(n * a, limit, a);
      n := n + 1;
    }
    r := n * a % U32;
    assert r == n * a < base + a by {
      assert n > 0 ==> n * a == (n - 1) * a + a;
    }
    RoundUpIs(base, a, r);
  }

  /** The loop above stops at all: some 32-bit product reaches the base. */
  ghost predicate Stops(base: nat, alignInPage: nat) {
    exists n: nat :: n * AlignBytes(alignInPage) % U32 >= base
  }

  /** For an alignment of zero or a power of two the loop stops exactly if there is nothing to
      align or the aligned address is a 32-bit one. */
  lemma StopsExactly(base: nat, alignInPage: nat)
    requires alignInPage == 0 || IsPow2(AlignBytes(alignInPage))
    ensures Stops(base, alignInPage) <==>
            base == 0 || (alignInPage > 0 && RoundUp(base, AlignBytes(alignInPage)) < U32)
  {
    var a := AlignBytes(alignInPage);
    if base == 0 {
      assert 0 * a % U32 >= base;
    } else if alignInPage > 0 {
      if RoundUp(base, a) < U32 {
        FundamentalDivMod(RoundUp(base, a), a);
        assert RoundUp(base, a) / a * a % U32 >= base;
      }
      forall n: nat | n * a % U32 >= base
        ensures RoundUp(base, a) < U32
      {
        WrappedProduct(n, a);
        RoundUpLeast(base, a, n * a % U32);
      }
    }
  }

  /** A product that wraps in 32 bits is still a multiple of a power of two, unless it is zero. */
  lemma WrappedProduct(n: nat, a: nat)
    requires IsPow2(a)
    ensures n * a % U32 == 0 || n * a % U32 % a == 0
  {
    var k: nat :| a == Pow2(k);
    assert Pow2(32) == U32 by { assert Pow2(8) == 256 && Pow2(16) == 65536 && Pow2(24) == 0x100_0000; }
    MulMod(n, a);
    if k <= 32 {
      assert U32 % a == 0 by {
        Pow2Add(k, 32 - k);
        MulMod(Pow2(32 - k), a);
      }
      ModOfMultiple(n * a, U32, a);
    } else {
      assert a % U32 == 0 by {
        Pow2Add(32, k - 32);
        MulMod(Pow2(k - 32), U32);
      }
      DividesThrough(n * a, a, U32);
    }
  }

  lemma ModOfMultiple(x: nat, b: nat, a: nat)
    requires 1 <= a && 1 <= b && x % a == 0 && b % a == 0
    ensures x % b % a == 0
  {
    FundamentalDivMod(x, b);
    MulMod(x / b, b);
    DividesThrough(x / b * b, b, a);
    DifferenceOfMultiples(x, x / b * b, a);
  }

  lemma RoundUpIs(x: nat, a: nat, r: nat)
    requires 1 <= a && r % a == 0 && x <= r < x + a
    ensures RoundUp(x, a) == r
  {
    RoundUpLeast(x, a, r);
    if RoundUp(x, a) < r {
      MultiplesApart(RoundUp(x, a), r, a);
    }
  }

  // ---- Group layout

  ghost predicate Alignable(s: seq<Section>) {
    forall i | 0 <= i < |s| :: s[i].alignInPage > 0
  }

  /** Start offset of each section in the group: the first at 0, each next one at the first
      aligned offset past its predecessor. */
  function Offsets(s: seq<Section>): (o: seq<nat>)
    requires Alignable(s)
    ensures |o| == |s|
    ensures s != [] ==> o[0] == 0
    ensures forall i | 0 < i < |s| :: o[i] == RoundUp(o[i - 1] + s[i - 1].size, AlignBytes(s[i].alignInPage))
  {
    if |s| == 0 then []
    else if |s| == 1 then [0]
    else
      var k := |s| - 1;
      var o := Offsets(s[..k]);
      o + [RoundUp(o[k - 1] + s[k - 1].size, AlignBytes(s[k].alignInPage))]
  }

  function GroupBytes(s: seq<Section>): nat
    requires Alignable(s)
  {
    if s == [] then 0 else Offsets(s)[|s| - 1] + s[|s| - 1].size
  }

  /** Sections can be laid out in 32 bits: every offset and the group's size. */
  ghost predicate Fits32(s: seq<Section>) {
    Alignable(s) && GroupBytes(s) < U32
  }

  lemma {:induction false} OffsetsGrow(s: seq<Section>, i: nat, j: nat)
    requires Alignable(s) && i <= j < |s|
    ensures i < j ==> Offsets(s)[i] + s[i].size <= Offsets(s)[j]
  {
    if i < j - 1 {
      OffsetsGrow(s, i, j - 1);
    }
  }

  /** The children handed out for a group allocation at (pa, va). */
  ghost predicate IsGroup(s: seq<Section>, c: seq<Child>, pa: nat, va: nat)
    requires Alignable(s)
  {
    && |c| == |s|
    && forall i | 0 <= i < |s| :: c[i] == Child(pa + Offsets(s)[i], va + Offsets(s)[i], s[i].size)
  }

  /** The offset array of `alloc_group_buffers`. */
  method GroupOffsets(s: seq<Section>) returns (offsets: array<nat>)
    requires Fits32(s) && s != []
    ensures fresh(offsets) && offsets[..] == Offsets(s)
  {
    var cnt := |s|;
    ghost var o := Offsets(s);
    offsets := new nat[cnt];
    offsets[0] := 0;
    for i := 1 to cnt
      invariant forall k | 0 <= k < i :: offsets[k] == o[k]
    {
      OffsetsGrow(s, i, cnt - 1);
      offsets[i] := GetAlignedAddr(offsets[i - 1] + s[i - 1].size, s[i].alignInPage);
    }
  }

  /** (groupPa, groupVa) stands for the buffer the kernel returned for (totBytes, alignInPage). */
  method AllocGroupBuffers(s: seq<Section>, groupPa: nat, groupVa: nat)
    returns (totBytes: nat, alignInPage: nat, buffers: seq<Child>)
    requires Fits32(s)
    ensures totBytes == GroupBytes(s)
    ensures s != [] ==> alignInPage == s[0].alignInPage
    ensures IsGroup(s, buffers, groupPa, groupVa)
  {
    totBytes, alignInPage, buffers := 0, 0, [];
    var cnt := |s|;
    if cnt != 0 {
      var offsets := GroupOffsets(s);
      ghost var o := Offsets(s);
      assert forall i | 0 <= i < cnt :: offsets[i] == offsets[..][i];
      totBytes := offsets[cnt - 1] + s[cnt - 1].size;
      alignInPage := s[0].alignInPage;
      for i := 0 to cnt
        invariant |buffers| == i
        invariant forall j | 0 <= j < i :: buffers[j] == Child(groupPa + o[j], groupVa + o[j], s[j].size)
      {
        buffers := buffers + [Child(groupPa + offsets[i], groupVa + offsets[i], s[i].size)];
      }
    }
  }

  /** Children lie inside the allocation, in order and without overlap, and all at the same
      distance between device and host address. */
  lemma GroupIsDisjoint(s: seq<Section>, c: seq<Child>, pa: nat, va: nat)
    requires Alignable(s) && IsGroup(s, c, pa, va)
    ensures forall i | 0 <= i < |c| :: pa <= c[i].pa && c[i].End() <= pa + GroupBytes(s)
    ensures forall i, j | 0 <= i < j < |c| :: c[i].End() <= c[j].pa
    ensures forall i | 0 <= i < |c| :: c[i].pa - pa == c[i].va - va
  {
    forall i, j | 0 <= i < j < |c|
      ensures c[i].End() <= c[j].pa
    {
      OffsetsGrow(s, i, j);
    }
    forall i | 0 <= i < |c|
      ensures c[i].End() <= pa + GroupBytes(s)
    {
      if i < |s| - 1 {
        OffsetsGrow(s, i, |s| - 1);
      }
    }
  }

  /** Children fill the allocation from its start to its end, each at the first offset past
      its predecessor that is a multiple of its alignment in 4096-byte pages. */
  lemma GroupIsTight(s: seq<Section>, c: seq<Child>, pa: nat, va: nat)
    requires Alignable(s) && IsGroup(s, c, pa, va) && s != []
    ensures c[0].pa == pa && c[|c| - 1].End() == pa + GroupBytes(s)
    ensures forall i | 0 <= i < |c| :: c[i].size == s[i].size && pa <= c[i].pa
    ensures forall i | 0 < i < |c| ::
              (c[i].pa - pa) % (4096 * s[i].alignInPage) == 0 && c[i].pa < c[i - 1].End() + 4096 * s[i].alignInPage
  {
    forall i | 0 < i < |c|
      ensures (c[i].pa - pa) % (4096 * s[i].alignInPage) == 0 && c[i].pa < c[i - 1].End() + 4096 * s[i].alignInPage
    {
      OffsetIsFirst(s, i);
      assert c[i].pa == pa + Offsets(s)[i] && c[i - 1].pa == pa + Offsets(s)[i - 1];
    }
  }

  lemma OffsetIsFirst(s: seq<Section>, i: nat)
    requires Alignable(s) && 0 < i < |s|
    ensures var a := 4096 * s[i].alignInPage;
            Offsets(s)[i] % a == 0 && Offsets(s)[i] < Offsets(s)[i - 1] + s[i - 1].size + a
  {
    assert Offsets(s)[i] == RoundUp(Offsets(s)[i - 1] + s[i - 1].size, AlignBytes(s[i].alignInPage));
    assert AlignBytes(s[i].alignInPage) == 4096 * s[i].alignInPage;
  }

  /** Every child of a group allocation at `pa` is aligned as its section asks. */
  ghost predicate ChildrenAligned(s: seq<Section>, pa: nat)
    requires Alignable(s)
  {
    forall i | 0 <= i < |s| :: (pa + Offsets(s)[i]) % AlignBytes(s[i].alignInPage) == 0
  }

  predicate DivideFirst(s: seq<Section>)
    requires Alignable(s)
  {
    forall i | 0 <= i < |s| :: s[0].alignInPage % s[i].alignInPage == 0
  }

  /** The group is allocated with the first section's alignment only: its children are
      aligned at every base the allocator may return exactly when all alignments divide it. */
  lemma GroupAlignment(s: seq<Section>)
    requires Alignable(s) && s != []
    ensures (forall pa: nat | pa % AlignBytes(s[0].alignInPage) == 0 :: ChildrenAligned(s, pa)) <==> DivideFirst(s)
  {
    var a0 := AlignBytes(s[0].alignInPage);
    if DivideFirst(s) {
      forall pa: nat | pa % a0 == 0
        ensures ChildrenAligned(s, pa)
      {
        DividingIsEnough(s, pa);
      }
    } else {
      ZeroMod(a0);
      SelfMod(a0);
      if ChildrenAligned(s, 0) && ChildrenAligned(s, a0) {
        AlignedTwice(s);
      }
    }
  }

  lemma DividingIsEnough(s: seq<Section>, pa: nat)
    requires Alignable(s) && s != [] && DivideFirst(s)
    requires pa % AlignBytes(s[0].alignInPage) == 0
    ensures ChildrenAligned(s, pa)
  {
    forall i | 0 <= i < |s|
      ensures (pa + Offsets(s)[i]) % AlignBytes(s[i].alignInPage) == 0
    {
      OffsetAligned(s, i);
      OneDivides(s[0].alignInPage, s[i].alignInPage, pa, Offsets(s)[i]);
    }
  }

  lemma OffsetAligned(s: seq<Section>, i: nat)
    requires Alignable(s) && i < |s|
    ensures Offsets(s)[i] % AlignBytes(s[i].alignInPage) == 0
  {
    if i == 0 {
      ZeroMod(AlignBytes(s[i].alignInPage));
    } else {
      assert Offsets(s)[i] == RoundUp(Offsets(s)[i - 1] + s[i - 1].size, AlignBytes(s[i].alignInPage));
    }
  }

  lemma OneDivides(first: nat, own: nat, pa: nat, offset: nat)
    requires first > 0 && own > 0 && first % own == 0
    requires pa % AlignBytes(first) == 0 && offset % AlignBytes(own) == 0
    ensures (pa + offset) % AlignBytes(own) == 0
  {
    PageFactor(first, own);
    DividesThrough(pa, AlignBytes(first), AlignBytes(own));
    SumOfMultiples(pa, offset, AlignBytes(own));
  }

  lemma AlignedTwice(s: seq<Section>)
    requires Alignable(s) && s != []
    requires ChildrenAligned(s, 0) && ChildrenAligned(s, AlignBytes(s[0].alignInPage))
    ensures DivideFirst(s)
  {
    forall i | 0 <= i < |s|
      ensures s[0].alignInPage % s[i].alignInPage == 0
    {
      var a0, a := AlignBytes(s[0].alignInPage), AlignBytes(s[i].alignInPage);
      DifferenceOfMultiples(a0 + Offsets(s)[i], 0 + Offsets(s)[i], a);
      PageFactor(s[0].alignInPage, s[i].alignInPage);
    }
  }

  lemma ZeroMod(a: nat)
    requires 1 <= a
    ensures 0 % a == 0
  {
    DivModUnique(0, a, 0, 0);
  }

  lemma SelfMod(a: nat)
    requires 1 <= a
    ensures a % a == 0
  {
    DivModUnique(a, a, 1, 0);
  }

  lemma PageFactor(x: nat, y: nat)
    requires 1 <= y
    ensures AlignBytes(x) % AlignBytes(y) == 0 <==> x % y == 0
  {
    FundamentalDivMod(x, y);
    var q, r := x / y, x % y;
    assert x * PAGE == q * (y * PAGE) + r * PAGE;
    DivModUnique(x * PAGE, y * PAGE, q, r * PAGE);
  }

  lemma DividesThrough(x: nat, b: nat, a: nat)
    requires 1 <= a && 1 <= b && x % b == 0 && b % a == 0
    ensures x % a == 0
  {
    FundamentalDivMod(x, b);
    FundamentalDivMod(b, a);
    assert x == (x / b) * ((b / a) * a);
    assert (x / b) * ((b / a) * a) == ((x / b) * (b / a)) * a;
    MulMod((x / b) * (b / a), a);
  }

  lemma SumOfMultiples(x: nat, y: nat, a: nat)
    requires 1 <= a && x % a == 0 && y % a == 0
    ensures (x + y) % a == 0
  {
    FundamentalDivMod(x, a);
    FundamentalDivMod(y, a);
    assert x + y == (x / a + y / a) * a;
    MulMod(x / a + y / a, a);
  }

  lemma DifferenceOfMultiples(x: nat, y: nat, a: nat)
    requires 1 <= a && y <= x && x % a == 0 && y % a == 0
    ensures (x - y) % a == 0
  {
    FundamentalDivMod(x, a);
    FundamentalDivMod(y, a);
    if x / a < y / a {
      Distance(x / a, y / a, a);
      assert false;
    }
    assert x - y == (x / a - y / a) * a;
    MulMod(x / a - y / a, a);
  }

  // ---- Simulator layout

  function AlignPage(bytes: nat): nat {
    RoundUp(bytes, PAGE)
  }

  /** `ALIGN_PAGE` in 32 bits. */
  function AlignPage32(size: nat): nat {
    RoundDown((size + PAGE - 1) % U32, PAGE)
  }

  /** The 32-bit rounding is exact unless it wraps to zero, in the last page below 2^32. */
  lemma AlignPageWraps(size: nat)
    requires size < U32
    ensures AlignPage32(size) == if size <= U32 - PAGE then AlignPage(size) else 0
  {
    var x := size + PAGE - 1;
    if x < U32 {
      DivModUnique(x, U32, 0, x);
    } else {
      DivModUnique(x, U32, 1, x - U32);
      DivModUnique(x - U32, PAGE, 0, x - U32);
    }
  }

  lemma RodataSize(total: nat)
    ensures AlignPage32(total % U32) % PAGE == 0
    ensures total <= U32 - PAGE ==> total <= AlignPage32(total % U32) < total + PAGE
  {
    AlignPageWraps(total % U32);
    if total <= U32 - PAGE {
      DivModUnique(total, U32, 0, total);
    }
  }

  lemma AlignPageExact(size: nat)
    requires AlignPage(size) < U32
    ensures AlignPage32(size) == AlignPage(size)
  {
    MultiplesApart(AlignPage(size), U32, PAGE);
    AlignPageWraps(size);
  }

  /** One section at the first aligned address from `top`, rounded to whole pages. */
  function Place(top: nat, s: Section): (c: Child)
    requires s.alignInPage > 0
    ensures top <= c.pa && c.pa % AlignBytes(s.alignInPage) == 0 && s.size <= c.size
  {
    Child(RoundUp(top, AlignBytes(s.alignInPage)), 0, AlignPage(s.size))
  }

  /** The top after the sections have been placed one after another. */
  ghost function TopAfter(top: nat, s: seq<Section>): (t: nat)
    requires Alignable(s)
  {
    if s == [] then top
    else Place(TopAfter(top, s[..|s| - 1]), s[|s| - 1]).End()
  }

  ghost function Placed(top: nat, s: seq<Section>): (c: seq<Child>)
    requires Alignable(s)
    ensures |c| == |s|
  {
    seq(|s|, i requires 0 <= i < |s| => Place(TopAfter(top, s[..i]), s[i]))
  }

  lemma {:induction false} TopGrows(top: nat, s: seq<Section>, i: nat, j: nat)
    requires Alignable(s) && i <= j <= |s|
    ensures TopAfter(top, s[..i]) <= TopAfter(top, s[..j])
    ensures i < j ==> Placed(top, s)[i].End() <= TopAfter(top, s[..j])
  {
    if i < j {
      TopGrows(top, s, i, j - 1);
      assert s[..j][..j - 1] == s[..j - 1] && s[..j][j - 1] == s[j - 1];
    }
  }

  ghost function Tops(top: nat, s: seq<Section>): (t: seq<nat>)
    requires Alignable(s)
    ensures |t| == |s| + 1
  {
    seq(|s| + 1, i requires 0 <= i <= |s| => TopAfter(top, s[..i]))
  }

  /** Bumping `s` from `t` gives `c` and moves the top to `t'`, all in 32 bits. */
  ghost predicate BumpStep(t: nat, s: Section, c: Child, t': nat) {
    && s.alignInPage > 0 && c == Child(RoundUp(t, AlignBytes(s.alignInPage)), 0, AlignPage32(s.size))
    && t' == c.End() < U32
  }

  ghost predicate Bumped(s: seq<Section>, placed: seq<Child>, tops: seq<nat>) {
    && |placed| == |s| && |tops| == |s| + 1
    && forall i | 0 <= i < |s| :: BumpStep(tops[i], s[i], placed[i], tops[i + 1])
  }

  /** If the last top is a 32-bit one, sections are bumped in 32 bits throughout. */
  lemma PlacedIsBumped(top: nat, s: seq<Section>)
    requires BumpFits32(top, s)
    ensures Bumped(s, Placed(top, s), Tops(top, s))
    ensures Tops(top, s)[0] == top && Tops(top, s)[|s|] == TopAfter(top, s)
  {
    assert s[..0] == [] && s[..|s|] == s;
    forall i | 0 <= i < |s|
      ensures BumpStep(Tops(top, s)[i], s[i], Placed(top, s)[i], Tops(top, s)[i + 1])
    {
      BumpNext(top, s, i);
    }
  }

  lemma BumpNext(top: nat, s: seq<Section>, i: nat)
    requires BumpFits32(top, s) && i < |s|
    ensures var t := TopAfter(top, s[..i]);
            BumpStep(t, s[i], Place(t, s[i]), TopAfter(top, s[..i + 1]))
  {
    assert s[..i + 1][..i] == s[..i] && s[..i + 1][i] == s[i] && s[..|s|] == s;
    TopGrows(top, s, i + 1, |s|);
    AlignPageExact(s[i].size);
  }

  /** Host addresses for device addresses laid out from `base`. */
  function Mapped(c: seq<Child>, base: nat, va: nat): (m: seq<Child>)
    requires forall i | 0 <= i < |c| :: base <= c[i].pa
    ensures |m| == |c|
  {
    seq(|c|, i requires 0 <= i < |c| => c[i].(va := va + (c[i].pa - base)))
  }

  lemma PlacedFromBase(top: nat, s: seq<Section>)
    requires s != [] && Alignable(s)
    ensures forall i | 0 <= i < |s| :: Placed(top, s)[0].pa <= Placed(top, s)[i].pa
    ensures Placed(top, s)[0].pa <= TopAfter(top, s)
  {
    assert s[..|s|] == s;
    forall i | 0 < i < |s|
      ensures Placed(top, s)[0].pa <= Placed(top, s)[i].pa
    {
      TopGrows(top, s, 0, i);
    }
    TopGrows(top, s, 0, |s|);
  }

  /** The buffers handed out for the sections `s` bumped from `top`, host address `va` first. */
  ghost predicate IsDataBuffer(top: nat, s: seq<Section>, va: nat, buffers: seq<Child>)
    requires s != [] && Alignable(s)
  {
    PlacedFromBase(top, s);
    buffers == Mapped(Placed(top, s), Placed(top, s)[0].pa, va)
  }

  /** Every section of the simulator's data buffer takes whole pages of 4096 bytes from the
      first aligned address past its predecessor. */
  lemma SimulationIsTight(top: nat, s: seq<Section>, va: nat, m: seq<Child>)
    requires s != [] && Alignable(s) && IsDataBuffer(top, s, va, m)
    ensures |m| == |s|
    ensures forall i | 0 <= i < |m| ::
              var a, from := 4096 * s[i].alignInPage, if i == 0 then top else m[i - 1].End();
              && m[i].pa % a == 0 && from <= m[i].pa < from + a
              && m[i].size % 4096 == 0 && s[i].size <= m[i].size < s[i].size + 4096
    ensures m[|m| - 1].End() == TopAfter(top, s)
  {
    PlacedFromBase(top, s);
    assert Placed(top, s)[|s| - 1].End() == TopAfter(top, s);
    var p := Placed(top, s);
    assert forall i | 0 <= i < |m| :: m[i].pa == p[i].pa && m[i].size == p[i].size;
    forall i | 0 <= i < |m|
      ensures var a, from := 4096 * s[i].alignInPage, if i == 0 then top else m[i - 1].End();
              && m[i].pa % a == 0 && from <= m[i].pa < from + a
              && m[i].size % 4096 == 0 && s[i].size <= m[i].size < s[i].size + 4096
    {
      assert i > 0 ==> m[i - 1].End() == p[i - 1].End();
      PlacedAtFirst(top, s, i);
    }
  }

  lemma PlacedAtFirst(top: nat, s: seq<Section>, i: nat)
    requires Alignable(s) && i < |s|
    ensures var c, a := Placed(top, s)[i], 4096 * s[i].alignInPage;
            var from := if i == 0 then top else Placed(top, s)[i - 1].End();
            && c.pa % a == 0 && from <= c.pa < from + a
            && c.size % 4096 == 0 && s[i].size <= c.size < s[i].size + 4096
  {
    var t := TopAfter(top, s[..i]);
    assert t == if i == 0 then top else Placed(top, s)[i - 1].End() by {
      if i > 0 {
        assert s[..i][..i - 1] == s[..i - 1] && s[..i][i - 1] == s[i - 1];
      }
    }
    assert AlignBytes(s[i].alignInPage) == 4096 * s[i].alignInPage;
  }

  /** The simulator's data buffer: stack, static and reuse sections laid out in turn. Every
      section is aligned absolutely, none overlap, all lie in the buffer that starts at the
      stack, and device and host addresses differ by one constant. */
  lemma SimulationLayout(top: nat, s: seq<Section>, va: nat, m: seq<Child>)
    requires s != [] && Alignable(s) && IsDataBuffer(top, s, va, m)
    ensures |m| == |s| && top <= m[0].pa
    ensures forall i | 0 <= i < |m| :: m[i].pa % AlignBytes(s[i].alignInPage) == 0 && s[i].size <= m[i].size
    ensures forall i | 0 <= i < |m| :: m[i].va - va == m[i].pa - m[0].pa && m[i].End() <= TopAfter(top, s)
    ensures forall i, j | 0 <= i < j < |m| :: m[i].End() <= m[j].pa && m[i].va + m[i].size <= m[j].va
  {
    assert s[..0] == [] && s[..|s|] == s;
    PlacedFromBase(top, s);
    forall i, j | 0 <= i < j < |m|
      ensures m[i].End() <= m[j].pa
    {
      TopGrows(top, s, i, j);
    }
    forall i | 0 <= i < |m|
      ensures m[i].End() <= TopAfter(top, s)
    {
      TopGrows(top, s, i, |s|);
    }
  }

  lemma DataBase(top: nat, s: seq<Section>)
    requires s != [] && Alignable(s)
    ensures Placed(top, s)[0].pa == Place(top, s[0]).pa <= TopAfter(top, s)
    ensures forall i | 0 <= i < |s| :: Placed(top, s)[0].pa <= Placed(top, s)[i].pa
  {
    PlacedFromBase(top, s);
    assert s[..0] == [];
  }

  lemma ThreeRuns<T>(x: T, a: seq<T>, b: seq<T>)
    ensures var s, n := [x] + (a + b), 1 + |a|;
            s[0..1] == [x] && s[1..n] == a && s[n..|s|] == b
  {
  }

  lemma ThreeParts<T>(s: seq<T>, i: nat, j: nat)
    requires i <= j <= |s|
    ensures s == s[0..i] + (s[i..j] + s[j..|s|])
  {
  }

  datatype MallocStatus = Allocated | InvalidSize

  class Simulation {
    var mallocTop: nat

    constructor ()
      ensures mallocTop == 0
    {
      mallocTop := 0;
    }

    /** A plain buffer from the simulator: whole pages at the current top, in 32-bit
        arithmetic; size zero is refused. */
    method MallocBuf(size: nat) returns (st: MallocStatus, buf: Child)
      modifies this
      ensures st == InvalidSize <==> size == 0
      ensures st == InvalidSize ==> mallocTop == old(mallocTop)
      ensures st == Allocated ==> buf == Child(old(mallocTop), 0, AlignPage32(size))
      ensures st == Allocated ==> mallocTop == buf.End() % U32
    {
      if size == 0 {
        return InvalidSize, Child(0, 0, 0);
      }
      buf := Child(mallocTop, 0, AlignPage32(size));
      mallocTop := (mallocTop + buf.size) % U32;
      st := Allocated;
    }

    /** Device addresses for one run `s` of the sections `all`, from the top that is number
        `from` in `tops`. */
    method BumpSections(s: seq<Section>, ghost all: seq<Section>, ghost placed: seq<Child>, ghost tops: seq<nat>,
                        ghost from: nat)
      returns (buffers: seq<Child>)
      requires Bumped(all, placed, tops)
      requires from + |s| <= |all| && all[from..from + |s|] == s && mallocTop == tops[from]
      modifies this
      ensures buffers == placed[from..from + |s|] && mallocTop == tops[from + |s|]
    {
      buffers := [];
      for i := 0 to |s|
        invariant buffers == placed[from..from + i] && mallocTop == tops[from + i]
      {
        assert s[i] == all[from + i];
        assert BumpStep(tops[from + i], s[i], placed[from + i], tops[from + i + 1]);
        var pa := GetAlignedAddr(mallocTop, s[i].alignInPage);
        var size := AlignPage32(s[i].size);
        buffers := buffers + [Child(pa, 0, size)];
        mallocTop := pa + size;
      }
    }

    /** Read-only data with the descriptors behind it, in one plain buffer, whose size is the
        32-bit sum of theirs; a sum of zero is refused. */
    method AllocRodataBuffer(rodataSize: nat, dcrSize: nat) returns (st: MallocStatus, rodata: Child, descriptor: Child)
      modifies this
      ensures st == InvalidSize <==> (rodataSize + dcrSize) % U32 == 0
      ensures st == InvalidSize ==> mallocTop == old(mallocTop)
      ensures st == Allocated ==> rodata.pa == old(mallocTop) && mallocTop == rodata.End() % U32
      ensures st == Allocated ==> rodata.size % PAGE == 0
      ensures st == Allocated && rodataSize + dcrSize <= U32 - PAGE ==>
                rodataSize + dcrSize <= rodata.size < rodataSize + dcrSize + PAGE
      ensures st == Allocated ==>
                descriptor == if dcrSize != 0 then Child(rodata.pa + rodataSize, rodata.va + rodataSize, dcrSize)
                              else Child(0, 0, 0)
    {
      RodataSize(rodataSize + dcrSize);
      st, rodata := MallocBuf((rodataSize + dcrSize) % U32);
      descriptor := if dcrSize != 0 then Child(rodata.pa + rodataSize, rodata.va + rodataSize, dcrSize)
      else Child(0, 0, 0);
    }

    /** One data buffer at host address `va` for the stack, the static and the reuse sections.
        It starts where the stack was placed, and is refused exactly if no section has a
        size; the top has then moved past the placed sections already. */
    method AllocDataBuffer(stack: Section, statics: seq<Section>, reuses: seq<Section>, va: nat)
      returns (st: MallocStatus, buffers: seq<Child>)
      requires BumpFits32(mallocTop, [stack] + (statics + reuses))
      modifies this
      ensures var all := [stack] + (statics + reuses);
              var top := TopAfter(old(mallocTop), all);
              var base := Place(old(mallocTop), all[0]).pa;
              && base <= top && (st == InvalidSize <==> top == base)
              && (st == InvalidSize ==> mallocTop == top)
              && (st == Allocated ==> IsDataBuffer(old(mallocTop), all, va, buffers))
              && (st == Allocated ==> mallocTop == (top + AlignPage32(top - base)) % U32)
    {
      ghost var top, all := mallocTop, [stack] + (statics + reuses);
      DataBase(top, all);
      assert all[0] == stack;
      var c := BumpData(stack, statics, reuses);
      var base := c[0].pa;
      st := MallocData(mallocTop - base);
      buffers := [];
      if st == Allocated {
        buffers := MapBuffers(c, base, va);
      }
    }

    /** The buffer behind the data sections, of which only the host address is used. */
    method MallocData(size: nat) returns (st: MallocStatus)
      modifies this
      ensures st == InvalidSize <==> size == 0
      ensures mallocTop == if size == 0 then old(mallocTop) else (old(mallocTop) + AlignPage32(size)) % U32
    {
      ghost var data;
      st, data := MallocBuf(size);
    }

    /** Device addresses of the whole data buffer: stack, static, then reuse sections. */
    method BumpData(stack: Section, statics: seq<Section>, reuses: seq<Section>) returns (c: seq<Child>)
      requires BumpFits32(mallocTop, [stack] + (statics + reuses))
      modifies this
      ensures c == Placed(old(mallocTop), [stack] + (statics + reuses))
      ensures mallocTop == TopAfter(old(mallocTop), [stack] + (statics + reuses))
    {
      ghost var top, all := mallocTop, [stack] + (statics + reuses);
      PlacedIsBumped(top, all);
      c := BumpRuns(stack, statics, reuses, Placed(top, all), Tops(top, all));
    }

    method BumpRuns(stack: Section, statics: seq<Section>, reuses: seq<Section>, ghost placed: seq<Child>,
                    ghost tops: seq<nat>)
      returns (c: seq<Child>)
      requires Bumped([stack] + (statics + reuses), placed, tops) && mallocTop == tops[0]
      modifies this
      ensures c == placed && mallocTop == tops[|tops| - 1]
    {
      ghost var all, n := [stack] + (statics + reuses), 1 + |statics|;
      assert all[0..1] == [stack] && all[1..n] == statics && all[n..|all|] == reuses by {
        ThreeRuns(stack, statics, reuses);
      }
      var stackBuf := BumpSections([stack], all, placed, tops, 0);
      var staticBufs := BumpSections(statics, all, placed, tops, 1);
      var reuseBufs := BumpSections(reuses, all, placed, tops, n);
      c := stackBuf + (staticBufs + reuseBufs);
      ThreeParts(placed, 1, n);
    }

    /** Host addresses inside the one data buffer. */
    method MapBuffers(c: seq<Child>, base: nat, va: nat) returns (buffers: seq<Child>)
      requires forall i | 0 <= i < |c| :: base <= c[i].pa
      ensures buffers == Mapped(c, base, va)
    {
      buffers := [];
      for i := 0 to |c|
        invariant buffers == Mapped(c, base, va)[..i]
      {
        buffers := buffers + [c[i].(va := va + (c[i].pa - base))];
      }
    }
  }

  /** Sections can be bumped from `top` in 32 bits: every address, rounded size and top. */
  ghost predicate BumpFits32(top: nat, s: seq<Section>) {
    Alignable(s) && TopAfter(top, s) < U32
  }
}
