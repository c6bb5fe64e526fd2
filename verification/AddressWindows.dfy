/** Starting a job on Zhouyi V2: the address windows (ASE) the driver programs, and why an
    address patched relative to its group comes out right through its window. */
module AddressWindows {
  import opened Words
  import opened Bitwise
  import opened BssParser
  import opened Relocation

  /** ASE size code: log2 of the window in pages, plus one; for sizes of at least 1. */
  function CtrlSize(bytes: nat): nat
    requires bytes >= 1
  {
    var r := RoundupPow2(bytes);
    ILog2((if 4096 >= r then 4096 else r) / PAGE) + 1
  }

  /** The number of bytes a size code stands for. */
  function WindowBytes(code: nat): nat
    requires code >= 1
  {
    Pow2(code - 1) * PAGE
  }

  /** The encoded window is the least power-of-two number of pages that covers the size. */
  lemma WindowIsLeast(bytes: nat)
    requires bytes >= 1
    ensures bytes <= WindowBytes(CtrlSize(bytes))
    ensures forall k: nat | bytes <= Pow2(k) * PAGE :: WindowBytes(CtrlSize(bytes)) <= Pow2(k) * PAGE
  {
    var j := PowerOf(RoundupPow2(bytes));
    WindowOfPower(bytes, j);
    forall k: nat | bytes <= Pow2(k) * PAGE
      ensures WindowBytes(CtrlSize(bytes)) <= Pow2(k) * PAGE
    {
      CoveringPower(bytes, j, k);
    }
  }

  lemma CoveringPower(bytes: nat, j: nat, k: nat)
    requires bytes >= 1 && RoundupPow2(bytes) == Pow2(j) && bytes <= Pow2(k) * PAGE
    ensures Pow2(if j <= 12 then 0 else j - 12) * PAGE <= Pow2(k) * PAGE
  {
    assert Pow2(k + 12) == Pow2(k) * PAGE by {
      Pow2Add(12, k);
      assert Pow2(12) == PAGE;
    }
    assert j <= k + 12 by {
      if k + 12 < j {
        Pow2Order(j, k + 13);
      }
    }
    Pow2Monotone(if j <= 12 then 0 else j - 12, k);
  }

  lemma WindowOfPower(bytes: nat, j: nat)
    requires bytes >= 1 && RoundupPow2(bytes) == Pow2(j)
    ensures WindowBytes(CtrlSize(bytes)) == Pow2(if j <= 12 then 0 else j - 12) * PAGE
    ensures bytes <= WindowBytes(CtrlSize(bytes))
  {
    assert Pow2(12) == PAGE;
    if j <= 12 {
      Pow2Monotone(j, 12);
      LogOfPower(0);
    } else {
      Pow2Add(12, j - 12);
      Pow2Monotone(12, j);
      MulMod(Pow2(j - 12), PAGE);
      LogOfPower(j - 12);
    }
  }

  lemma Pow2Order(j: nat, k: nat)
    requires Pow2(j) < Pow2(k)
    ensures j < k
  {
    if k <= j {
      Pow2Monotone(k, j);
    }
  }

  lemma PowerOf(a: nat) returns (k: nat)
    requires IsPow2(a)
    ensures a == Pow2(k)
  {
    k :| a == Pow2(k);
  }

  lemma {:induction false} LogOfPower(k: nat)
    ensures ILog2(Pow2(k)) == k
  {
    if k > 0 {
      LogOfPower(k - 1);
    }
  }

  // ---- The registers

  datatype Ase = Ase(read: bool, write: bool, size: nat, high: nat, low: nat) {
    function Base(): nat { high * U32 + low }
  }

  datatype JobDesc = JobDesc(startPc: nat, intrHandler: nat, data0: nat, data1: nat, staticAddr: nat, reuseAddr: nat,
                             codeSize: nat, rodataSize: nat, stackSize: nat, staticSize: nat, reuseSize: nat,
                             enableAsid: bool)

  function Min(a: nat, b: nat): nat {
    if a <= b then a else b
  }

  function Max(a: nat, b: nat): nat {
    if a >= b then a else b
  }

  function Ase0Start(d: JobDesc): nat {
    Min(d.startPc, Min(d.data0, d.data1))
  }

  function Ase0End(d: JobDesc): nat {
    Max(d.startPc + d.codeSize, Max(d.data0 + d.rodataSize, d.data1 + d.stackSize))
  }

  /** The addresses are 64-bit. With ASID the ends of the code, rodata and stack are too, and
      no window is programmed for a size of zero. */
  predicate ValidDesc(d: JobDesc) {
    && d.startPc < U64 && d.intrHandler < U64 && d.data0 < U64 && d.data1 < U64
    && d.staticAddr < U64 && d.reuseAddr < U64
    && (d.enableAsid ==> Ase0Start(d) < Ase0End(d) < U64 && 1 <= d.staticSize && 1 <= d.reuseSize)
  }

  /** Code, read-only data and stack lie in the range of window 0, of which they are the
      tightest bounds; the window programmed for it is the smallest one of a power of two of
      4096-byte pages that reaches from its start to the end of each. */
  lemma Window0Covers(d: JobDesc)
    requires ValidDesc(d) && d.enableAsid
    ensures var lo, hi := Ase0Start(d), Ase0End(d);
            var window := WindowBytes(CtrlSize(hi - lo));
            && lo <= d.startPc && d.startPc + d.codeSize <= hi
            && lo <= d.data0 && d.data0 + d.rodataSize <= hi
            && lo <= d.data1 && d.data1 + d.stackSize <= hi
            && lo in {d.startPc, d.data0, d.data1}
            && hi in {d.startPc + d.codeSize, d.data0 + d.rodataSize, d.data1 + d.stackSize}
            && hi - lo <= window
            && (d.startPc - lo) + d.codeSize <= window && (d.data0 - lo) + d.rodataSize <= window
            && (d.data1 - lo) + d.stackSize <= window
            && forall k: nat | hi - lo <= Pow2(k) * 4096 :: window <= Pow2(k) * 4096
  {
    WindowIsLeast(Ase0End(d) - Ase0Start(d));
  }

  function SplitBase(addr: nat, read: bool, write: bool, size: nat): (a: Ase)
    requires addr < U64
    ensures a.Base() == addr && a.high < U32 && a.low < U32
    ensures a.read == read && a.write == write && a.size == size
  {
    FundamentalDivMod(addr, U32);
    Ase(read, write, size, addr / U32, addr % U32)
  }

  class Core {
    var data0: nat
    var data1: nat
    var intrPc: nat
    var startPc: nat
    var ase0: Ase
    var ase1: Ase
    var ase2: Ase

    /** The job's addresses relative to the start of window 0. */
    method LoadRelative(d: JobDesc, base: nat)
      requires base <= d.startPc && base <= d.data0 && base <= d.data1 && base < U64
      modifies this`startPc, this`intrPc, this`data0, this`data1
      ensures startPc == (d.startPc - base) % U32 && intrPc == (d.intrHandler + U64 - base) % U64 % U32
      ensures data0 == (d.data0 - base) % U32 && data1 == (d.data1 - base) % U32
    {
      startPc := (d.startPc - base) % U32;
      intrPc := (d.intrHandler + U64 - base) % U64 % U32;
      data0 := (d.data0 - base) % U32;
      data1 := (d.data1 - base) % U32;
    }

    method LoadWindow0(start: nat, end: nat)
      requires start < end
      modifies this`ase0
      ensures ase0 == Ase(true, true, CtrlSize(end - start), start / U32, 0)
    {
      ase0 := Ase(true, true, CtrlSize(end - start), start / U32, 0);
    }

    /** Windows 1 and 2, for the static and the reuse group. */
    method LoadGroupWindows(d: JobDesc)
      requires d.staticAddr < U64 && d.reuseAddr < U64 && 1 <= d.staticSize && 1 <= d.reuseSize
      modifies this`ase1, this`ase2
      ensures ase1 == SplitBase(d.staticAddr, true, false, CtrlSize(d.staticSize))
      ensures ase2 == SplitBase(d.reuseAddr, true, true, CtrlSize(d.reuseSize))
    {
      ase1 := Ase(true, false, CtrlSize(d.staticSize), d.staticAddr / U32, d.staticAddr % U32);
      ase2 := Ase(true, true, CtrlSize(d.reuseSize), d.reuseAddr / U32, d.reuseAddr % U32);
    }

    /** Writes the job's addresses and windows, then starts it by setting the command bits of
        the start register. */
    method Trigger(d: JobDesc)
      requires ValidDesc(d)
      modifies this
      ensures d.enableAsid ==>
                && ase1 == SplitBase(d.staticAddr, true, false, CtrlSize(d.staticSize))
                && ase2 == SplitBase(d.reuseAddr, true, true, CtrlSize(d.reuseSize))
                && ase0 == Ase(true, true, CtrlSize(Ase0End(d) - Ase0Start(d)), Ase0Start(d) / U32, 0)
                && data0 == (d.data0 - Ase0Start(d)) % U32 && data1 == (d.data1 - Ase0Start(d)) % U32
                && startPc == Or((d.startPc - Ase0Start(d)) % U32, 0xD)
                && intrPc == (d.intrHandler + U64 - Ase0Start(d)) % U64 % U32
      ensures !d.enableAsid ==>
                && ase0 == Ase(true, true, 0, d.startPc / U32, 0) && ase1 == ase0 && ase2 == ase0
                && data0 == d.data0 % U32 && data1 == d.data1 % U32
                && startPc == Or(d.startPc % U32, 0xD) && intrPc == d.intrHandler % U32
    {
      if d.enableAsid {
        LoadWindowed(d);
      } else {
        LoadFlat(d);
      }
      startPc := Or(startPc, 0xD);
    }

    method LoadWindowed(d: JobDesc)
      requires ValidDesc(d) && d.enableAsid
      modifies this
      ensures ase1 == SplitBase(d.staticAddr, true, false, CtrlSize(d.staticSize))
      ensures ase2 == SplitBase(d.reuseAddr, true, true, CtrlSize(d.reuseSize))
      ensures ase0 == Ase(true, true, CtrlSize(Ase0End(d) - Ase0Start(d)), Ase0Start(d) / U32, 0)
      ensures startPc == (d.startPc - Ase0Start(d)) % U32
      ensures data0 == (d.data0 - Ase0Start(d)) % U32 && data1 == (d.data1 - Ase0Start(d)) % U32
      ensures intrPc == (d.intrHandler + U64 - Ase0Start(d)) % U64 % U32
    {
      var ase0Start, ase0End := Ase0Start(d), Ase0End(d);
      LoadRelative(d, ase0Start);
      LoadWindow0(ase0Start, ase0End);
      LoadGroupWindows(d);
    }

    method LoadFlat(d: JobDesc)
      modifies this
      ensures ase0 == Ase(true, true, 0, d.startPc / U32, 0) && ase1 == ase0 && ase2 == ase0
      ensures data0 == d.data0 % U32 && data1 == d.data1 % U32
      ensures startPc == d.startPc % U32 && intrPc == d.intrHandler % U32
    {
      startPc := d.startPc % U32;
      intrPc := d.intrHandler % U32;
      data0 := d.data0 % U32;
      data1 := d.data1 % U32;
      ase0 := Ase(true, true, 0, d.startPc / U32, 0);
      ase1 := ase0;
      ase2 := ase0;
    }
  }

  // ---- Addresses through the windows

  /** Translation of a patched value: with ASID, reuse data goes through window 2 and static
      data through window 1. */
  function Through(a: Ase, v: nat): nat {
    a.Base() + v
  }

  /** Where entry `e` points, as a host address. */
  function TargetPa(e: ParamEntry, p: Placement): nat
    requires e.section < |Sections(e, p)|
  {
    Sections(e, p)[e.section] + e.sectionOffset
  }

  /** The entry's target lies in its group, within the 64-bit address space. */
  predicate InGroup(e: ParamEntry, p: Placement, groupBytes: nat) {
    && e.section < |Sections(e, p)|
    && GroupPa(e, p) <= TargetPa(e, p) < GroupPa(e, p) + groupBytes && groupBytes <= U32
    && TargetPa(e, p) < U64 && p.shmOffset <= GroupPa(e, p)
  }

  lemma Host2DevIsDifference(pa: nat, shm: nat)
    requires shm <= pa < U64
    ensures Host2Dev(pa, shm) == pa - shm
  {
    DivModUnique(pa, U64, 0, pa);
    DivModUnique(shm, U64, 0, shm);
    DivModUnique(pa + U64 - shm, U64, 1, pa - shm);
  }

  /** A 32-bit difference computed through 64 bits. */
  lemma TruncatedDifference(x: nat, y: nat)
    requires x < U64 && y < U64
    ensures (x % U32 + U64 - y) % U64 % U32 == (x + U64 - y) % U32
  {
    FundamentalDivMod(x, U32);
    var t := x % U32 + U64 - y;
    FundamentalDivMod(t, U64);
    ModOfMod(t);
    assert x + U64 - y == t + (x / U32) * U32;
    ModShift(t, x / U32);
  }

  lemma ModOfMod(t: nat)
    ensures t % U64 % U32 == t % U32
  {
    FundamentalDivMod(t, U64);
    ModShift(t % U64, t / U64 * U32);
    assert t == t % U64 + (t / U64 * U32) * U32;
  }

  lemma ModShift(t: nat, q: nat)
    ensures (t + q * U32) % U32 == t % U32
  {
    FundamentalDivMod(t, U32);
    DivModUnique(t + q * U32, U32, t / U32 + q, t % U32);
  }

  /** The value patched with ASID is the distance from the group, less the shared-memory
      offset, in 32 bits. */
  lemma AsidValue(e: ParamEntry, p: Placement, groupBytes: nat)
    requires p.asid && InGroup(e, p, groupBytes)
    ensures PatchValue(e, p) == (TargetPa(e, p) - GroupPa(e, p) + U64 - p.shmOffset) % U32
  {
    Host2DevIsDifference(TargetPa(e, p), p.shmOffset);
    DivModUnique(GroupPa(e, p), U64, 0, GroupPa(e, p));
    TruncatedDifference(TargetPa(e, p) - p.shmOffset, GroupPa(e, p));
  }

  /** Through its window, a value patched with ASID denotes the device address of its target
      exactly if the low 32 bits of the shared-memory offset are zero. */
  lemma AsidTranslation(e: ParamEntry, p: Placement, groupBytes: nat, a: Ase)
    requires p.asid && InGroup(e, p, groupBytes) && a.Base() == Host2Dev(GroupPa(e, p), p.shmOffset)
    ensures Through(a, PatchValue(e, p)) == Host2Dev(TargetPa(e, p), p.shmOffset) <==> p.shmOffset % U32 == 0
  {
    var k, s := TargetPa(e, p) - GroupPa(e, p), p.shmOffset;
    Host2DevIsDifference(GroupPa(e, p), s);
    Host2DevIsDifference(TargetPa(e, p), s);
    AsidValue(e, p, groupBytes);
    FundamentalDivMod(s, U32);
    var q, r := s / U32, s % U32;
    if r == 0 {
      assert k + U64 - s == k + (U32 - q) * U32;
      ModShift(k, U32 - q);
      DivModUnique(k, U32, 0, k);
    } else if r <= k {
      DivModUnique(k + U64 - s, U32, U32 - q, k - r);
    } else {
      DivModUnique(k + U64 - s, U32, U32 - q - 1, k - r + U32);
    }
  }

  /** With no shared-memory offset, the two addressing modes denote the same address exactly
      if the target lies in the same 4 GB as the code; the low 32 bits always agree. */
  lemma ModesAgree(e: ParamEntry, p: Placement, groupBytes: nat, asid: Ase, flat: Ase, startPc: nat)
    requires p.shmOffset == 0 && InGroup(e, p, groupBytes)
    requires asid.Base() == GroupPa(e, p) && flat.Base() == (startPc / U32) * U32
    ensures var relative, absolute := PatchValue(e, p.(asid := true)), PatchValue(e, p.(asid := false));
            && Through(asid, relative) % U32 == absolute
            && (Through(asid, relative) == Through(flat, absolute) <==> TargetPa(e, p) / U32 == startPc / U32)
  {
    var on := p.(asid := true);
    Host2DevIsDifference(TargetPa(e, p), 0);
    Host2DevIsDifference(GroupPa(e, p), 0);
    DivModUnique(0, U32, 0, 0);
    AsidTranslation(e, on, groupBytes, asid);
    FundamentalDivMod(TargetPa(e, p), U32);
    SameQuotient(TargetPa(e, p) / U32, startPc / U32);
  }

  lemma SameQuotient(q: nat, q': nat)
    ensures q * U32 == q' * U32 <==> q == q'
  {
  }

  /** A value patched with ASID and no shared-memory offset lies inside the programmed window. */
  lemma ValueInWindow(e: ParamEntry, p: Placement, groupBytes: nat)
    requires p.asid && p.shmOffset == 0 && InGroup(e, p, groupBytes) && groupBytes >= 1
    ensures PatchValue(e, p) < groupBytes <= WindowBytes(CtrlSize(groupBytes))
  {
    AsidValue(e, p, groupBytes);
    var k := TargetPa(e, p) - GroupPa(e, p);
    ModShift(k, U32);
    DivModUnique(k, U32, 0, k);
    WindowIsLeast(groupBytes);
  }
}
