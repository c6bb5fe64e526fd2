/** Loading a graph end to end: from the mapped binary through the group layout and the patch
    of the read-only data to the address the hardware reaches through its window. */
module Linker {
  import opened Words
  import opened Bitwise
  import opened Bytes
  import opened GraphFormat
  import opened BssParser
  import opened Layout
  import opened Relocation
  import opened AddressWindows

  function SectionsOf(irs: seq<SectionIr>): (s: seq<Section>)
    ensures |s| == |irs|
    ensures forall i | 0 <= i < |irs| :: s[i] == Section(irs[i].size, irs[i].alignInPage)
  {
    seq(|irs|, i requires 0 <= i < |irs| => Section(irs[i].size, irs[i].alignInPage))
  }

  function Addresses(c: seq<Child>): (a: seq<nat>)
    ensures |a| == |c| && forall i | 0 <= i < |c| :: a[i] == c[i].pa
  {
    seq(|c|, i requires 0 <= i < |c| => c[i].pa)
  }

  /** The placement that the group allocations of a graph's sections give. */
  function GroupPlacement(statics: seq<Child>, reuses: seq<Child>, staticPa: nat, reusePa: nat, shm: nat,
                          asid: bool): Placement
  {
    Placement(Addresses(statics), Addresses(reuses), staticPa, reusePa, shm, asid)
  }

  /** The buffers of a graph: one group for its static and one for its reuse sections. */
  ghost predicate Grouped(b: Bss, statics: seq<Child>, reuses: seq<Child>, staticPa: nat, reusePa: nat) {
    var st, re := SectionsOf(InfoOf(b).statics), SectionsOf(InfoOf(b).reuses);
    && Alignable(st) && Alignable(re)
    && IsGroup(st, statics, staticPa, 0) && IsGroup(re, reuses, reusePa, 0)
  }

  function SubOf(b: Bss, e: ParamEntry): SubDesc
    requires e.section < (if e.loadType == Static then |b.statics| else |b.reuses|)
    requires e.subSection < |(if e.loadType == Static then b.statics[e.section].subs else b.reuses[e.section].subs)|
  {
    (if e.loadType == Static then b.statics[e.section].subs else b.reuses[e.section].subs)[e.subSection]
  }

  /** Where an entry of a parsed graph points: into the buffer of the section it names, at the
      offset of the sub-section it names. */
  lemma TargetIsSubSection(b: Bss, e: ParamEntry, statics: seq<Child>, reuses: seq<Child>, staticPa: nat,
                           reusePa: nat, shm: nat, asid: bool)
    requires Grouped(b, statics, reuses, staticPa, reusePa) && e in InfoOf(b).params
    ensures var p := GroupPlacement(statics, reuses, staticPa, reusePa, shm, asid);
            && Described(e, b) && e.section < |Sections(e, p)|
            && var child := (if e.loadType == Static then statics else reuses)[e.section];
            TargetPa(e, p) == child.pa + SubOf(b, e).offset
  {
    ParamMapExact(b);
  }

  /** If the sub-section starts inside its section, the entry's target lies in the group. */
  lemma TargetInGroup(b: Bss, e: ParamEntry, statics: seq<Child>, reuses: seq<Child>, staticPa: nat, reusePa: nat,
                      shm: nat, asid: bool)
    requires Grouped(b, statics, reuses, staticPa, reusePa) && e in InfoOf(b).params
    requires e.section < |(if e.loadType == Static then statics else reuses)|
    requires e.sectionOffset < (if e.loadType == Static then statics else reuses)[e.section].size
    requires var s := SectionsOf(if e.loadType == Static then InfoOf(b).statics else InfoOf(b).reuses);
             var pa := if e.loadType == Static then staticPa else reusePa;
             Alignable(s) && GroupBytes(s) <= U32 && pa + GroupBytes(s) <= U64 && shm <= pa
    ensures var s := SectionsOf(if e.loadType == Static then InfoOf(b).statics else InfoOf(b).reuses);
            InGroup(e, GroupPlacement(statics, reuses, staticPa, reusePa, shm, asid), GroupBytes(s))
  {
    TargetIsSubSection(b, e, statics, reuses, staticPa, reusePa, shm, asid);
    if e.loadType == Static {
      GroupIsDisjoint(SectionsOf(InfoOf(b).statics), statics, staticPa, 0);
    } else {
      GroupIsDisjoint(SectionsOf(InfoOf(b).reuses), reuses, reusePa, 0);
    }
  }

  /** Entries with disjoint fields, applied in any order, leave each field with the bits of
      the value computed for it. */
  lemma AnyOrder(m: seq<byte>, all: seq<ParamEntry>, es: seq<ParamEntry>, p: Placement)
    requires AllInRange(all, p, |m|) && DisjointFields(all) && forall e :: e in es <==> e in all
    ensures AllInRange(es, p, |m|)
    ensures var r := PatchAll(m, es, p);
            forall e | e in es ::
              InRange(e, p, |m|) && And(LoadWord(r, e.offsetInMap), e.mask) == And(PatchValue(e, p), e.mask)
  {
    DisjointMasksHold(m, all, p);
    OrderDoesNotMatter(m, all, es, p);
    var r := PatchAll(m, es, p);
    forall e | e in es
      ensures InRange(e, p, |m|) && And(LoadWord(r, e.offsetInMap), e.mask) == And(PatchValue(e, p), e.mask)
    {
      var i :| 0 <= i < |all| && all[i] == e;
    }
  }

  /** A graph whose fields are disjoint and end inside the buffer is patched without error,
      and every field then holds the bits of the device address of the sub-section its entry
      names; this is so for any shared-memory offset and any order of the parameter map. */
  lemma LoadedFields(b: Bss, m: seq<byte>, es: seq<ParamEntry>, statics: seq<Child>, reuses: seq<Child>,
                     staticPa: nat, reusePa: nat, shm: nat)
    requires Grouped(b, statics, reuses, staticPa, reusePa)
    requires forall e | e in InfoOf(b).params :: e.offsetInMap + 4 <= |m|
    requires DisjointFields(InfoOf(b).params) && forall e :: e in es <==> e in InfoOf(b).params
    ensures var p := GroupPlacement(statics, reuses, staticPa, reusePa, shm, false);
            && AllInRange(es, p, |m|)
            && forall e | e in es :: LoadedField(b, e, PatchAll(m, es, p), statics, reuses, shm)
  {
    var p, all := GroupPlacement(statics, reuses, staticPa, reusePa, shm, false), InfoOf(b).params;
    MapInRange(b, statics, reuses, staticPa, reusePa, shm, |m|);
    AnyOrder(m, all, es, p);
    forall e | e in es
      ensures LoadedField(b, e, PatchAll(m, es, p), statics, reuses, shm)
    {
      OneField(b, e, PatchAll(m, es, p), statics, reuses, staticPa, reusePa, shm);
    }
  }

  lemma OneField(b: Bss, e: ParamEntry, r: seq<byte>, statics: seq<Child>, reuses: seq<Child>, staticPa: nat,
                 reusePa: nat, shm: nat)
    requires Grouped(b, statics, reuses, staticPa, reusePa) && e in InfoOf(b).params
    requires var p := GroupPlacement(statics, reuses, staticPa, reusePa, shm, false);
             InRange(e, p, |r|) && And(LoadWord(r, e.offsetInMap), e.mask) == And(PatchValue(e, p), e.mask)
    ensures LoadedField(b, e, r, statics, reuses, shm)
  {
    var p := GroupPlacement(statics, reuses, staticPa, reusePa, shm, false);
    TargetIsSubSection(b, e, statics, reuses, staticPa, reusePa, shm, false);
    DeviceValue(e, p);
  }

  lemma DeviceValue(e: ParamEntry, p: Placement)
    requires e.section < |Sections(e, p)| && !p.asid
    ensures PatchValue(e, p) == (TargetPa(e, p) - p.shmOffset) % U32
  {
    PatchValueExact(e, p);
  }

  lemma MapInRange(b: Bss, statics: seq<Child>, reuses: seq<Child>, staticPa: nat, reusePa: nat, shm: nat, size: nat)
    requires Grouped(b, statics, reuses, staticPa, reusePa)
    requires forall e | e in InfoOf(b).params :: e.offsetInMap + 4 <= size
    ensures AllInRange(InfoOf(b).params, GroupPlacement(statics, reuses, staticPa, reusePa, shm, false), size)
  {
    ParsedMapsStayInRange(b, GroupPlacement(statics, reuses, staticPa, reusePa, shm, false), size);
  }

  /** The word at the entry's offset holds, under the entry's mask, the device address of the
      named sub-section: its host address less the shared-memory offset, in 32 bits. */
  ghost predicate LoadedField(b: Bss, e: ParamEntry, r: seq<byte>, statics: seq<Child>, reuses: seq<Child>,
                              shm: nat)
  {
    && Described(e, b) && e.offsetInMap + 4 <= |r|
    && e.section < |(if e.loadType == Static then statics else reuses)|
    && var child := (if e.loadType == Static then statics else reuses)[e.section];
    And(LoadWord(r, e.offsetInMap), e.mask) == And((child.pa + SubOf(b, e).offset - shm) % U32, e.mask)
  }

  /** The same graph with ASID: through window 1 or 2, programmed with the group's address and
      the size of the buffer that holds the group, a patched value reaches its target, and it
      stays inside the window. */
  lemma WindowedFields(b: Bss, e: ParamEntry, statics: seq<Child>, reuses: seq<Child>, staticPa: nat, reusePa: nat,
                       bytes: nat, a: Ase)
    requires Grouped(b, statics, reuses, staticPa, reusePa) && e in InfoOf(b).params
    requires e.section < |(if e.loadType == Static then statics else reuses)|
    requires e.sectionOffset < (if e.loadType == Static then statics else reuses)[e.section].size
    requires var s := SectionsOf(if e.loadType == Static then InfoOf(b).statics else InfoOf(b).reuses);
             var pa := if e.loadType == Static then staticPa else reusePa;
             && Alignable(s) && GroupBytes(s) <= bytes && 1 <= bytes <= U32 && pa + bytes <= U64
             && a.Base() == pa && a.size == CtrlSize(bytes)
    ensures var p := GroupPlacement(statics, reuses, staticPa, reusePa, 0, true);
            && e.section < |Sections(e, p)|
            && Through(a, PatchValue(e, p)) == TargetPa(e, p)
            && PatchValue(e, p) < WindowBytes(a.size)
  {
    var p := GroupPlacement(statics, reuses, staticPa, reusePa, 0, true);
    var s := SectionsOf(if e.loadType == Static then InfoOf(b).statics else InfoOf(b).reuses);
    TargetInGroup(b, e, statics, reuses, staticPa, reusePa, 0, true);
    ThroughWindow(e, p, bytes, a);
  }

  lemma ThroughWindow(e: ParamEntry, p: Placement, bytes: nat, a: Ase)
    requires p.asid && p.shmOffset == 0 && InGroup(e, p, bytes) && bytes >= 1
    requires a.Base() == GroupPa(e, p) && a.size == CtrlSize(bytes)
    ensures Through(a, PatchValue(e, p)) == TargetPa(e, p) && PatchValue(e, p) < WindowBytes(a.size)
  {
    Host2DevIsDifference(GroupPa(e, p), 0);
    Host2DevIsDifference(TargetPa(e, p), 0);
    DivModUnique(0, U32, 0, 0);
    AsidTranslation(e, p, bytes, a);
    ValueInWindow(e, p, bytes);
  }

  /** The byte alignment of a section survives as whole pages: the pages cover it with less
      than a page to spare, and what is aligned to the pages is aligned as the graph asks if
      and only if the alignment divides its own rounding, as every power of two does. */
  lemma ByteAlignmentKept(bytes: nat)
    requires 0 < bytes && bytes + 4096 <= U32
    ensures var a := AlignBytes(AlignInPage(bytes));
            && a % 4096 == 0 && bytes <= a < bytes + 4096
            && ((forall x: nat | x % a == 0 :: x % bytes == 0) <==> a % bytes == 0)
            && (IsPow2(bytes) ==> a % bytes == 0)
  {
    AlignInPageCovers(bytes);
    var a := AlignBytes(AlignInPage(bytes));
    SelfMod(a);
    if a % bytes == 0 {
      forall x: nat | x % a == 0
        ensures x % bytes == 0
      {
        DividesThrough(x, a, bytes);
      }
    }
    if IsPow2(bytes) {
      PowerDividesPages(bytes, a);
    }
  }

  lemma PowerDividesPages(p: nat, a: nat)
    requires IsPow2(p) && a % PAGE == 0 && p <= a < p + PAGE
    ensures a % p == 0
  {
    var k: nat :| p == Pow2(k);
    assert Pow2(12) == PAGE;
    if k <= 12 {
      Pow2Add(k, 12 - k);
      MulMod(Pow2(12 - k), p);
      DividesThrough(a, PAGE, p);
    } else {
      Pow2Add(12, k - 12);
      MulMod(Pow2(k - 12), PAGE);
      if p < a {
        MultiplesApart(p, a, PAGE);
      }
      SelfMod(p);
    }
  }

  /** Where the sections of a parsed graph end up: if the group's base suits its first section
      and every alignment divides the first, each section whose byte alignment is a power of
      two is placed as the graph asks. */
  lemma SectionsAligned(b: Bss, statics: seq<Child>, reuses: seq<Child>, staticPa: nat, reusePa: nat)
    requires Grouped(b, statics, reuses, staticPa, reusePa)
    requires Suits(SectionsOf(InfoOf(b).statics), staticPa) && Suits(SectionsOf(InfoOf(b).reuses), reusePa)
    ensures forall i | 0 <= i < |b.statics| && Asked(b.statics[i].alignBytes) ::
              statics[i].pa % b.statics[i].alignBytes == 0 && statics[i].size == b.statics[i].size
    ensures forall i | 0 <= i < |b.reuses| && Asked(b.reuses[i].alignBytes) ::
              reuses[i].pa % b.reuses[i].alignBytes == 0 && reuses[i].size == b.reuses[i].size
  {
    TemplatesExact(b);
    forall i | 0 <= i < |b.statics| && Asked(b.statics[i].alignBytes)
      ensures statics[i].pa % b.statics[i].alignBytes == 0
    {
      OneAligned(SectionsOf(InfoOf(b).statics), statics, staticPa, i, b.statics[i].alignBytes);
    }
    forall i | 0 <= i < |b.reuses| && Asked(b.reuses[i].alignBytes)
      ensures reuses[i].pa % b.reuses[i].alignBytes == 0
    {
      OneAligned(SectionsOf(InfoOf(b).reuses), reuses, reusePa, i, b.reuses[i].alignBytes);
    }
  }

  /** The group's base is aligned as its first section asks, and all alignments divide that. */
  ghost predicate Suits(s: seq<Section>, pa: nat)
    requires Alignable(s)
  {
    s != [] ==> DivideFirst(s) && pa % AlignBytes(s[0].alignInPage) == 0
  }

  /** An alignment in bytes that a graph can ask for exactly. */
  ghost predicate Asked(bytes: nat) {
    IsPow2(bytes) && bytes + 4096 <= U32
  }

  lemma OneAligned(s: seq<Section>, c: seq<Child>, pa: nat, i: nat, bytes: nat)
    requires Alignable(s) && i < |s| && DivideFirst(s) && pa % AlignBytes(s[0].alignInPage) == 0
    requires IsGroup(s, c, pa, 0) && Asked(bytes) && s[i].alignInPage == AlignInPage(bytes)
    ensures c[i].pa % bytes == 0
  {
    DividingIsEnough(s, pa);
    var x := pa + Offsets(s)[i];
    assert c[i].pa == x && x % AlignBytes(s[i].alignInPage) == 0;
    PositivePower(bytes);
    ByteAlignmentKept(bytes);
  }

  lemma PositivePower(p: nat)
    requires IsPow2(p)
    ensures p > 0
  {
  }
}
