/** Patching the read-only data of a new job: masked fields of the words at given byte offsets
    receive the device addresses of sub-sections. */
module Relocation {
  import opened Words
  import opened Bitwise
  import opened Bytes
  import opened GraphFormat
  import opened BssParser

  /** Where the sections of a thread buffer were placed, and how addresses are translated. */
  datatype Placement = Placement(staticPa: seq<nat>, reusePa: seq<nat>, staticGroupPa: nat, reuseGroupPa: nat,
                                 shmOffset: nat, asid: bool)

  datatype PatchStatus = Patched | InvalidSize | StrayWrite

  function Sections(e: ParamEntry, p: Placement): seq<nat> {
    if e.loadType == Reuse then p.reusePa else p.staticPa
  }

  function GroupPa(e: ParamEntry, p: Placement): nat {
    if e.loadType == Reuse then p.reuseGroupPa else p.staticGroupPa
  }

  /** Host to device addresses, on 64-bit words. */
  function Host2Dev(pa: nat, shmOffset: nat): nat {
    (pa % U64 + U64 - shmOffset % U64) % U64
  }

  /** The 32-bit value written for an entry; with ASID it is relative to the group. */
  function PatchValue(e: ParamEntry, p: Placement): nat
    requires e.section < |Sections(e, p)|
  {
    var pa := Host2Dev(Sections(e, p)[e.section] + e.sectionOffset, p.shmOffset) % U32;
    if p.asid then (pa + U64 - GroupPa(e, p) % U64) % U64 % U32 else pa
  }

  lemma ModShiftInt(x: int, q: int)
    ensures (x + q * U32) % U32 == x % U32
  {
    var d, m := x / U32, x % U32;
    assert x + q * U32 == (d + q) * U32 + m;
  }

  /** In 32 bits the translation is a subtraction, whatever wraps in 64. */
  lemma Host2DevIn32(pa: nat, shm: nat)
    ensures Host2Dev(pa, shm) % U32 == (pa - shm) % U32
  {
    FundamentalDivMod(pa, U64);
    FundamentalDivMod(shm, U64);
    var t := pa % U64 + U64 - shm % U64;
    FundamentalDivMod(t, U64);
    var k := 1 - pa / U64 + shm / U64 - t / U64;
    assert Host2Dev(pa, shm) == pa - shm + k * U64 == pa - shm + (k * U32) * U32;
    ModShiftInt(pa - shm, k * U32);
  }

  /** The value written for an entry, for every placement and shared-memory offset: the host
      address of the entry's target less the offset, and with ASID less the address of the
      group, all in 32 bits. */
  lemma PatchValueExact(e: ParamEntry, p: Placement)
    requires e.section < |if e.loadType == Reuse then p.reusePa else p.staticPa|
    ensures var target := (if e.loadType == Reuse then p.reusePa else p.staticPa)[e.section] + e.sectionOffset;
            var group := if e.loadType == Reuse then p.reuseGroupPa else p.staticGroupPa;
            PatchValue(e, p) == (target - p.shmOffset - (if p.asid then group else 0)) % U32
  {
    var target := Sections(e, p)[e.section] + e.sectionOffset;
    Host2DevIn32(target, p.shmOffset);
    if p.asid {
      var pa, group := Host2Dev(target, p.shmOffset) % U32, GroupPa(e, p);
      var d := target - p.shmOffset;
      FundamentalDivMod(group, U64);
      FundamentalDivMod(pa + U64 - group % U64, U64);
      var q := (pa + U64 - group % U64) / U64;
      var k := 1 + group / U64 - q;
      assert (pa + U64 - group % U64) % U64 == pa - group + k * U64 == pa - group + (k * U32) * U32;
      ModShiftInt(pa - group, k * U32);
      assert pa == d % U32 && d - group == pa - group + (d / U32) * U32;
      ModShiftInt(pa - group, d / U32);
    }
  }

  /** The tests made before an entry is applied, on a buffer of `size` bytes. */
  predicate Accepted(e: ParamEntry, p: Placement, size: nat) {
    e.offsetInMap < size && e.section < |Sections(e, p)|
  }

  /** The entry is accepted and its word ends inside the buffer. */
  predicate InRange(e: ParamEntry, p: Placement, size: nat) {
    Accepted(e, p, size) && e.offsetInMap + 4 <= size
  }

  /** Index of the first entry that is not in range, or the number of entries. */
  function FirstFault(es: seq<ParamEntry>, p: Placement, size: nat, from: nat): (i: nat)
    requires from <= |es|
    ensures from <= i <= |es|
    ensures forall k | from <= k < i :: InRange(es[k], p, size)
    ensures i < |es| ==> !InRange(es[i], p, size)
    decreases |es| - from
  {
    if from == |es| || !InRange(es[from], p, size) then from else FirstFault(es, p, size, from + 1)
  }

  predicate AllInRange(es: seq<ParamEntry>, p: Placement, size: nat) {
    forall k | 0 <= k < |es| :: InRange(es[k], p, size)
  }

  /** One entry applied to the bytes. */
  function PatchOne(m: seq<byte>, e: ParamEntry, p: Placement): (r: seq<byte>)
    requires InRange(e, p, |m|)
    ensures |r| == |m|
  {
    StoreWord(m, e.offsetInMap, Merge(LoadWord(m, e.offsetInMap), PatchValue(e, p), e.mask))
  }

  /** The bytes after all entries have been applied in order. */
  function PatchAll(m: seq<byte>, es: seq<ParamEntry>, p: Placement): (r: seq<byte>)
    requires AllInRange(es, p, |m|)
    ensures |r| == |m|
  {
    if es == [] then m else PatchOne(PatchAll(m, es[..|es| - 1], p), es[|es| - 1], p)
  }

  /** Loads the template and applies the parameter map. At the first entry out of range it
      stops with the entries before it applied: with an error if one of the tests refuses the
      entry, with `StrayWrite` if its word crosses the end of the buffer. */
  method PatchRodata(rodata: array<byte>, template: seq<byte>, es: seq<ParamEntry>, p: Placement)
    returns (st: PatchStatus)
    requires |template| <= rodata.Length
    modifies rodata
    ensures var n := FirstFault(es, p, rodata.Length, 0);
            && rodata[..] == PatchAll(template + old(rodata[|template|..]), es[..n], p)
            && (st == Patched <==> n == |es|)
            && (st == InvalidSize <==> n < |es| && !Accepted(es[n], p, rodata.Length))
  {
    LoadBuffer(rodata, template);
    st := PatchLoaded(rodata, es, p);
  }

  /** The patch loop, on a buffer that holds its initial contents. */
  method PatchLoaded(rodata: array<byte>, es: seq<ParamEntry>, p: Placement) returns (st: PatchStatus)
    modifies rodata
    ensures var n := FirstFault(es, p, rodata.Length, 0);
            && rodata[..] == PatchAll(old(rodata[..]), es[..n], p)
            && (st == Patched <==> n == |es|)
            && (st == InvalidSize <==> n < |es| && !Accepted(es[n], p, rodata.Length))
  {
    ghost var loaded, n := rodata[..], FirstFault(es, p, rodata.Length, 0);
    for i := 0 to |es|
      invariant i <= n
      invariant AllInRange(es[..i], p, rodata.Length)
      invariant rodata[..] == PatchAll(loaded, es[..i], p)
    {
      var e := es[i];
      st := CheckEntry(e, p, rodata.Length);
      if st != Patched {
        return;
      }
      PatchNext(loaded, es, p, i);
      ApplyEntry(rodata, e, p);
    }
    assert es[..|es|] == es;
    st := Patched;
  }

  /** The tests before the store. */
  method CheckEntry(e: ParamEntry, p: Placement, size: nat) returns (st: PatchStatus)
    ensures st == Patched <==> InRange(e, p, size)
    ensures st == InvalidSize <==> !Accepted(e, p, size)
  {
    if e.offsetInMap >= size {
      return InvalidSize;
    }
    if e.section >= |if e.loadType == Reuse then p.reusePa else p.staticPa| {
      return InvalidSize;
    }
    st := if e.offsetInMap + 4 <= size then Patched else StrayWrite;
  }

  lemma PatchNext(m: seq<byte>, es: seq<ParamEntry>, p: Placement, i: nat)
    requires i < |es| && AllInRange(es[..i], p, |m|) && InRange(es[i], p, |m|)
    ensures AllInRange(es[..i + 1], p, |m|)
    ensures PatchAll(m, es[..i + 1], p) == PatchOne(PatchAll(m, es[..i], p), es[i], p)
  {
    assert es[..i + 1][..i] == es[..i] && es[..i + 1][i] == es[i];
    assert forall k | 0 <= k < i :: es[..i][k] == es[..i + 1][k];
  }

  method LoadBuffer(dest: array<byte>, src: seq<byte>)
    requires |src| <= dest.Length
    modifies dest
    ensures dest[..] == src + old(dest[|src|..])
  {
    for i := 0 to |src|
      invariant forall k | 0 <= k < i :: dest[k] == src[k]
      invariant forall k | i <= k < dest.Length :: dest[k] == old(dest[k])
    {
      dest[i] := src[i];
    }
  }

  /** The body of the patch loop: address, translation, masked store. */
  method ApplyEntry(rodata: array<byte>, e: ParamEntry, p: Placement)
    requires InRange(e, p, rodata.Length)
    modifies rodata
    ensures rodata[..] == PatchOne(old(rodata[..]), e, p)
  {
    var subSecPa := if e.loadType == Reuse
    then Host2Dev(p.reusePa[e.section] + e.sectionOffset, p.shmOffset) % U32
    else Host2Dev(p.staticPa[e.section] + e.sectionOffset, p.shmOffset) % U32;
    if p.asid {
      if e.loadType == Reuse {
        subSecPa := (subSecPa + U64 - p.reuseGroupPa % U64) % U64 % U32;
      } else {
        subSecPa := (subSecPa + U64 - p.staticGroupPa % U64) % U64 % U32;
      }
    }
    var dest := LoadWord(rodata[..], e.offsetInMap);
    WriteWord(rodata, e.offsetInMap, Or(And(subSecPa, e.mask), AndNot(dest, e.mask)));
  }

  /** A 32-bit store at a byte address. */
  method WriteWord(m: array<byte>, at: nat, x: nat)
    requires at + 4 <= m.Length
    modifies m
    ensures m[..] == StoreWord(old(m[..]), at, x)
  {
    m[at] := x % 256;
    m[at + 1] := x / 256 % 256;
    m[at + 2] := x / 256 / 256 % 256;
    m[at + 3] := x / 256 / 256 / 256 % 256;
    FourBytes(x);
    assert m[at..at + 4] == ToBytes(x, 4);
  }

  // ---- What the patched bytes hold, bit by bit

  /** Bit `q` of memory belongs to the field of the entry. */
  predicate Covers(e: ParamEntry, q: nat) {
    8 * e.offsetInMap <= q < 8 * e.offsetInMap + 32 && Bit(e.mask, q - 8 * e.offsetInMap)
  }

  /** The bit an entry puts at bit `q` of memory. */
  predicate FieldBit(e: ParamEntry, p: Placement, q: nat)
    requires e.section < |Sections(e, p)| && Covers(e, q)
  {
    Bit(PatchValue(e, p), q - 8 * e.offsetInMap)
  }

  /** Entries agree on every bit of memory that their fields share, whether the fields lie in
      the same word or in words that overlap. */
  ghost predicate Compatible(es: seq<ParamEntry>, p: Placement, size: nat)
    requires AllInRange(es, p, size)
  {
    forall i, j, q: nat | 0 <= i < |es| && 0 <= j < |es| && Covers(es[i], q) && Covers(es[j], q) ::
      FieldBit(es[i], p, q) == FieldBit(es[j], p, q)
  }

  /** No bit of memory belongs to two fields. */
  ghost predicate DisjointFields(es: seq<ParamEntry>) {
    forall i, j, q: nat | 0 <= i < j < |es| && Covers(es[i], q) :: !Covers(es[j], q)
  }

  ghost predicate FieldHolds(r: seq<byte>, e: ParamEntry, p: Placement)
    requires InRange(e, p, |r|)
  {
    forall q: nat | Covers(e, q) :: MemBit(r, q) == FieldBit(e, p, q)
  }

  /** Every masked field holds the value computed for its entry. */
  ghost predicate FieldsHold(r: seq<byte>, es: seq<ParamEntry>, p: Placement)
    requires AllInRange(es, p, |r|)
  {
    forall i | 0 <= i < |es| :: FieldHolds(r, es[i], p)
  }

  /** Bit `q` of memory belongs to a field. */
  ghost predicate Covered(es: seq<ParamEntry>, q: nat) {
    exists e :: e in es && Covers(e, q)
  }

  /** A patch sets the bits of its field and no other. */
  lemma PatchOneBit(m: seq<byte>, e: ParamEntry, p: Placement, q: nat)
    requires InRange(e, p, |m|) && q < 8 * |m|
    ensures MemBit(PatchOne(m, e, p), q) == if Covers(e, q) then FieldBit(e, p, q) else MemBit(m, q)
  {
    var at := e.offsetInMap;
    StoreBit(m, at, Merge(LoadWord(m, at), PatchValue(e, p), e.mask), q);
    if 8 * at <= q < 8 * at + 32 {
      MergeBit(LoadWord(m, at), PatchValue(e, p), e.mask, q - 8 * at);
      LoadBit(m, at, q - 8 * at);
    }
  }

  lemma {:induction false} CompatibleFieldsHold(m: seq<byte>, es: seq<ParamEntry>, p: Placement)
    requires AllInRange(es, p, |m|) && Compatible(es, p, |m|)
    ensures FieldsHold(PatchAll(m, es, p), es, p)
  {
    if es != [] {
      var k := |es| - 1;
      var front, e := es[..k], es[k];
      CompatibleFieldsHold(m, front, p);
      var x := PatchAll(m, front, p);
      forall i | 0 <= i < |es|
        ensures FieldHolds(PatchOne(x, e, p), es[i], p)
      {
        assert i < k ==> front[i] == es[i] && FieldHolds(x, es[i], p);
        PatchOneField(x, e, p, es[i]);
      }
    }
  }

  /** A patch sets its own field, and keeps one that agrees with it on the shared bits. */
  lemma PatchOneField(m: seq<byte>, e: ParamEntry, p: Placement, f: ParamEntry)
    requires InRange(e, p, |m|) && InRange(f, p, |m|) && (f == e || FieldHolds(m, f, p))
    requires forall q: nat | Covers(e, q) && Covers(f, q) :: FieldBit(f, p, q) == FieldBit(e, p, q)
    ensures FieldHolds(PatchOne(m, e, p), f, p)
  {
    forall q: nat | Covers(f, q)
      ensures MemBit(PatchOne(m, e, p), q) == FieldBit(f, p, q)
    {
      PatchOneBit(m, e, p, q);
    }
  }

  /** After patching, every masked field holds its section's address plus offset exactly if
      entries agree on the bits their fields share. */
  lemma FieldsHoldExactly(m: seq<byte>, es: seq<ParamEntry>, p: Placement)
    requires AllInRange(es, p, |m|)
    ensures FieldsHold(PatchAll(m, es, p), es, p) <==> Compatible(es, p, |m|)
  {
    var r := PatchAll(m, es, p);
    if Compatible(es, p, |m|) {
      CompatibleFieldsHold(m, es, p);
    }
    if FieldsHold(r, es, p) {
      forall i, j, q: nat | 0 <= i < |es| && 0 <= j < |es| && Covers(es[i], q) && Covers(es[j], q)
        ensures FieldBit(es[i], p, q) == FieldBit(es[j], p, q)
      {
        assert FieldHolds(r, es[i], p) && FieldHolds(r, es[j], p);
      }
    }
  }

  /** A field that holds is read back under its mask. */
  lemma FieldRead(r: seq<byte>, e: ParamEntry, p: Placement)
    requires InRange(e, p, |r|)
    ensures FieldHolds(r, e, p) <==> And(LoadWord(r, e.offsetInMap), e.mask) == And(PatchValue(e, p), e.mask)
  {
    var at := e.offsetInMap;
    var x, v := LoadWord(r, at), PatchValue(e, p);
    assert Pow2(32) == U32 by { assert Pow2(8) == 256 && Pow2(16) == 65536 && Pow2(24) == 0x100_0000; }
    if FieldHolds(r, e, p) {
      forall i: nat | Bit(e.mask, i)
        ensures Bit(x, i) == Bit(v, i)
      {
        LoadBit(r, at, i);
        if i < 32 {
          assert Covers(e, 8 * at + i);
        } else {
          NoHighBit(v, 32, i);
        }
      }
    }
    AgreeOnIsAnd(x, v, e.mask);
    if AgreeOn(x, v, e.mask) {
      forall q: nat | Covers(e, q)
        ensures MemBit(r, q) == FieldBit(e, p, q)
      {
        LoadBit(r, at, q - 8 * at);
      }
    }
  }

  /** The usual case: fields do not overlap, and each word read back has, under its mask, the
      bits of the value that was computed for it. */
  lemma DisjointMasksHold(m: seq<byte>, es: seq<ParamEntry>, p: Placement)
    requires AllInRange(es, p, |m|) && DisjointFields(es)
    ensures var r := PatchAll(m, es, p);
            forall i | 0 <= i < |es| ::
              And(LoadWord(r, es[i].offsetInMap), es[i].mask) == And(PatchValue(es[i], p), es[i].mask)
  {
    CompatibleFieldsHold(m, es, p);
    forall i | 0 <= i < |es|
      ensures And(LoadWord(PatchAll(m, es, p), es[i].offsetInMap), es[i].mask) == And(PatchValue(es[i], p), es[i].mask)
    {
      assert FieldHolds(PatchAll(m, es, p), es[i], p);
      FieldRead(PatchAll(m, es, p), es[i], p);
    }
  }

  /** Word-aligned entries have disjoint fields exactly if the masks on each word are disjoint. */
  lemma AlignedFields(es: seq<ParamEntry>)
    requires forall e | e in es :: e.offsetInMap % 4 == 0 && e.mask < U32
    ensures DisjointFields(es) <==>
            forall i, j | 0 <= i < j < |es| && es[i].offsetInMap == es[j].offsetInMap ::
              And(es[i].mask, es[j].mask) == 0
  {
    forall i, j | 0 <= i < j < |es|
      ensures (forall q: nat | Covers(es[i], q) :: !Covers(es[j], q)) <==>
              (es[i].offsetInMap == es[j].offsetInMap ==> And(es[i].mask, es[j].mask) == 0)
    {
      assert es[i] in es && es[j] in es;
      AlignedPair(es[i], es[j]);
    }
  }

  lemma AlignedPair(e: ParamEntry, f: ParamEntry)
    requires e.offsetInMap % 4 == f.offsetInMap % 4 == 0 && e.mask < U32 && f.mask < U32
    ensures (forall q: nat | Covers(e, q) :: !Covers(f, q)) <==>
            (e.offsetInMap == f.offsetInMap ==> And(e.mask, f.mask) == 0)
  {
    if e.offsetInMap == f.offsetInMap {
      SameWordFields(e, f);
    } else {
      assert e.offsetInMap + 4 <= f.offsetInMap || f.offsetInMap + 4 <= e.offsetInMap;
    }
  }

  lemma SameWordFields(e: ParamEntry, f: ParamEntry)
    requires e.offsetInMap == f.offsetInMap && e.mask < U32 && f.mask < U32
    ensures And(e.mask, f.mask) == 0 <==> forall q: nat | Covers(e, q) :: !Covers(f, q)
  {
    var at := e.offsetInMap;
    assert Pow2(32) == U32 by { assert Pow2(8) == 256 && Pow2(16) == 65536 && Pow2(24) == 0x100_0000; }
    if And(e.mask, f.mask) == 0 {
      forall q: nat | Covers(e, q)
        ensures !Covers(f, q)
      {
        AndBit(e.mask, f.mask, q - 8 * at);
        ZeroBit(q - 8 * at);
      }
    }
    if forall q: nat | Covers(e, q) :: !Covers(f, q) {
      forall i: nat
        ensures Bit(And(e.mask, f.mask), i) == Bit(0, i)
      {
        AndBit(e.mask, f.mask, i);
        ZeroBit(i);
        if i < 32 {
          assert Covers(e, 8 * at + i) ==> !Covers(f, 8 * at + i);
        } else {
          NoHighBit(e.mask, 32, i);
        }
      }
      SameBits(And(e.mask, f.mask), 0);
    }
  }

  /** Every bit outside the fields is the template's. */
  lemma {:induction false} OtherBitsKept(m: seq<byte>, es: seq<ParamEntry>, p: Placement, q: nat)
    requires AllInRange(es, p, |m|) && q < 8 * |m| && !Covered(es, q)
    ensures MemBit(PatchAll(m, es, p), q) == MemBit(m, q)
  {
    if es != [] {
      var front, e := es[..|es| - 1], es[|es| - 1];
      assert e in es && forall d | d in front :: d in es;
      OtherBitsKept(m, front, p, q);
      PatchOneBit(PatchAll(m, front, p), e, p, q);
    }
  }

  // ---- Order does not matter

  /** Two lists of the same entries, in any order and however often repeated, patch the same
      bytes, if the entries are compatible. */
  lemma OrderDoesNotMatter(m: seq<byte>, es: seq<ParamEntry>, fs: seq<ParamEntry>, p: Placement)
    requires AllInRange(es, p, |m|) && Compatible(es, p, |m|)
    requires forall e :: e in es <==> e in fs
    ensures AllInRange(fs, p, |m|) && PatchAll(m, es, p) == PatchAll(m, fs, p)
  {
    SameEntriesCompatible(es, fs, p, |m|);
    CompatibleFieldsHold(m, es, p);
    CompatibleFieldsHold(m, fs, p);
    forall q: nat | q < 8 * |m|
      ensures MemBit(PatchAll(m, es, p), q) == MemBit(PatchAll(m, fs, p), q)
    {
      SameBit(m, es, fs, p, q);
    }
    SameMemory(PatchAll(m, es, p), PatchAll(m, fs, p));
  }

  lemma SameEntriesCompatible(es: seq<ParamEntry>, fs: seq<ParamEntry>, p: Placement, size: nat)
    requires AllInRange(es, p, size) && Compatible(es, p, size)
    requires forall e :: e in es <==> e in fs
    ensures AllInRange(fs, p, size) && Compatible(fs, p, size)
  {
    forall i | 0 <= i < |fs|
      ensures InRange(fs[i], p, size)
    {
      assert fs[i] in es;
    }
    forall i, j, q: nat | 0 <= i < |fs| && 0 <= j < |fs| && Covers(fs[i], q) && Covers(fs[j], q)
      ensures FieldBit(fs[i], p, q) == FieldBit(fs[j], p, q)
    {
      assert fs[i] in es && fs[j] in es;
      var i' :| 0 <= i' < |es| && es[i'] == fs[i];
      var j' :| 0 <= j' < |es| && es[j'] == fs[j];
    }
  }

  lemma SameBit(m: seq<byte>, es: seq<ParamEntry>, fs: seq<ParamEntry>, p: Placement, q: nat)
    requires AllInRange(es, p, |m|) && AllInRange(fs, p, |m|) && q < 8 * |m|
    requires FieldsHold(PatchAll(m, es, p), es, p) && FieldsHold(PatchAll(m, fs, p), fs, p)
    requires forall e :: e in es <==> e in fs
    ensures MemBit(PatchAll(m, es, p), q) == MemBit(PatchAll(m, fs, p), q)
  {
    if Covered(es, q) {
      var e :| e in es && Covers(e, q);
      var i :| 0 <= i < |es| && es[i] == e;
      var j :| 0 <= j < |fs| && fs[j] == e;
      assert FieldHolds(PatchAll(m, es, p), es[i], p) && FieldHolds(PatchAll(m, fs, p), fs[j], p);
    } else {
      assert !Covered(fs, q);
      OtherBitsKept(m, es, p, q);
      OtherBitsKept(m, fs, p, q);
    }
  }

  // ---- From parse to patch

  /** For the parameter map of a parsed graph and buffers laid out for its sections, an entry
      is stopped at only for a word that does not end inside the buffer, and refused only if
      the word does not start there either; on a buffer of whole words it is refused if
      offsets are word aligned. */
  lemma ParsedMapsStayInRange(b: Bss, p: Placement, size: nat)
    requires |p.staticPa| == |InfoOf(b).statics| && |p.reusePa| == |InfoOf(b).reuses|
    ensures var es := InfoOf(b).params;
            var n := FirstFault(es, p, size, 0);
            && (n == |es| <==> forall e | e in es :: e.offsetInMap + 4 <= size)
            && (n < |es| && es[n].offsetInMap % 4 == 0 && size % 4 == 0 ==> !Accepted(es[n], p, size))
            && (n < |es| ==> (Accepted(es[n], p, size) <==> es[n].offsetInMap < size))
  {
    var es := InfoOf(b).params;
    assert forall e | e in es :: e.section < |Sections(e, p)| by { ParamsNameSections(b); }
    NamedStayInRange(es, p, size);
  }

  lemma NamedStayInRange(es: seq<ParamEntry>, p: Placement, size: nat)
    requires forall e | e in es :: e.section < |Sections(e, p)|
    ensures var n := FirstFault(es, p, size, 0);
            && (n == |es| <==> forall e | e in es :: e.offsetInMap + 4 <= size)
            && (n < |es| && es[n].offsetInMap % 4 == 0 && size % 4 == 0 ==> !Accepted(es[n], p, size))
            && (n < |es| ==> (Accepted(es[n], p, size) <==> es[n].offsetInMap < size))
  {
    var n := FirstFault(es, p, size, 0);
    if n < |es| {
      assert es[n] in es;
    }
    forall e | n == |es| && e in es
      ensures e.offsetInMap + 4 <= size
    {
      var i :| 0 <= i < |es| && es[i] == e;
      assert InRange(es[i], p, size);
    }
  }
}
