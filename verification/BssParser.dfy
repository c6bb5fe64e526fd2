/** The parser of the bss section: it walks the descriptors once and fills in the graph's
    section templates, parameter map, tensor lists and node list as it goes. */
module BssParser {
  import opened Words
  import opened Sequences
  import opened GraphFormat
  import opened TensorSort

  datatype LoadType = Reuse | Static

  /** One rodata word to patch with the address of a sub-section. */
  datatype ParamEntry = ParamEntry(offsetInMap: nat, loadType: LoadType, section: nat, subSection: nat,
                                   sectionOffset: nat, mask: nat)

  /** Where the initial contents come from: nowhere, or an offset in the graph's data. */
  datatype LoadSource = Nowhere | InData(offset: nat)

  datatype SectionIr = SectionIr(source: LoadSource, size: nat, alignInPage: nat, subOffsets: seq<nat>)

  datatype IoTensors = IoTensors(inputs: seq<Tensor>, outputs: seq<Tensor>, interDumps: seq<Tensor>,
                                 profData: seq<Tensor>, plogData: seq<Tensor>)

  datatype Info = Info(stackSize: nat, stackAlignInPage: nat, statics: seq<SectionIr>, reuses: seq<SectionIr>,
                       params: seq<ParamEntry>, io: IoTensors, dcrMap: seq<Node>)

  datatype Status = Success | InvalidGbin | StrayRead

  const TYPE_INPUT: nat := 0
  const TYPE_OUTPUT: nat := 1
  const TYPE_INTER_DUMP: nat := 2
  const TYPE_PROF_DATA: nat := 10
  const TYPE_PLOG_DATA: nat := 12

  /** Bytes to pages, rounding up in 32 bits. */
  function AlignInPage(bytes: nat): nat {
    ((bytes + PAGE - 1) % U32) / PAGE
  }

  // ---- What a described graph means

  function TensorOf(sec: nat, d: SubDesc): Tensor {
    Tensor(d.id, sec, d.offset, d.size, (d.dtype + U32 - 1) % U32, d.layout, d.n, d.h, d.w, d.c)
  }

  function AddTensor(io: IoTensors, sec: nat, d: SubDesc): IoTensors {
    var t := TensorOf(sec, d);
    if d.tensorType == TYPE_INPUT then io.(inputs := io.inputs + [t])
    else if d.tensorType == TYPE_OUTPUT then io.(outputs := io.outputs + [t])
    else if d.tensorType == TYPE_INTER_DUMP then io.(interDumps := io.interDumps + [t])
    else if d.tensorType == TYPE_PROF_DATA then io.(profData := io.profData + [t])
    else if d.tensorType == TYPE_PLOG_DATA then io.(plogData := io.plogData + [t])
    else io
  }

  function SubParams(lt: LoadType, sec: nat, sub: nat, d: SubDesc): (p: seq<ParamEntry>)
    ensures |p| == |d.roOffsets|
  {
    seq(|d.roOffsets|, i requires 0 <= i < |d.roOffsets| =>
      ParamEntry(d.roOffsets[i], lt, sec, sub, d.offset, d.addrMask))
  }

  function SubOffsets(subs: seq<SubDesc>): (o: seq<nat>)
    ensures |o| == |subs| && forall i | 0 <= i < |subs| :: o[i] == subs[i].offset
  {
    seq(|subs|, i requires 0 <= i < |subs| => subs[i].offset)
  }

  /** Parameters of the sub-sections of one section. */
  function SubsParams(lt: LoadType, sec: nat, subs: seq<SubDesc>): seq<ParamEntry> {
    if subs == [] then []
    else
      var k := |subs| - 1;
      SubsParams(lt, sec, subs[..k]) + SubParams(lt, sec, k, subs[k])
  }

  function SubsTensors(io: IoTensors, sec: nat, subs: seq<SubDesc>): IoTensors {
    if subs == [] then io
    else
      var k := |subs| - 1;
      AddTensor(SubsTensors(io, sec, subs[..k]), sec, subs[k])
  }

  function StaticParams(ds: seq<StaticDesc>): seq<ParamEntry> {
    if ds == [] then []
    else
      var k := |ds| - 1;
      StaticParams(ds[..k]) + SubsParams(Static, k, ds[k].subs)
  }

  function ReuseParams(ds: seq<ReuseDesc>): seq<ParamEntry> {
    if ds == [] then []
    else
      var k := |ds| - 1;
      ReuseParams(ds[..k]) + SubsParams(Reuse, k, ds[k].subs)
  }

  function ReuseTensors(io: IoTensors, ds: seq<ReuseDesc>): IoTensors {
    if ds == [] then io
    else
      var k := |ds| - 1;
      SubsTensors(ReuseTensors(io, ds[..k]), k, ds[k].subs)
  }

  function StaticIr(d: StaticDesc): SectionIr {
    SectionIr(InData(d.offsetInFile), d.size, AlignInPage(d.alignBytes), SubOffsets(d.subs))
  }

  function ReuseIr(d: ReuseDesc): SectionIr {
    SectionIr(Nowhere, d.size, AlignInPage(d.alignBytes), SubOffsets(d.subs))
  }

  function StaticIrs(ds: seq<StaticDesc>): (s: seq<SectionIr>)
    ensures |s| == |ds|
  {
    seq(|ds|, i requires 0 <= i < |ds| => StaticIr(ds[i]))
  }

  function ReuseIrs(ds: seq<ReuseDesc>): (s: seq<SectionIr>)
    ensures |s| == |ds|
  {
    seq(|ds|, i requires 0 <= i < |ds| => ReuseIr(ds[i]))
  }

  const NO_TENSORS: IoTensors := IoTensors([], [], [], [], [])

  /** Outputs are sorted first; inputs only if the outputs could be sorted. */
  function SortTensors(io: IoTensors): IoTensors {
    io.(outputs := Result(io.outputs),
        inputs := if FirstBad(io.outputs, 0) == |io.outputs| then Result(io.inputs) else io.inputs)
  }

  function InfoOf(b: Bss): Info {
    Info(b.stackSize, AlignInPage(b.stackAlignBytes), StaticIrs(b.statics), ReuseIrs(b.reuses),
         StaticParams(b.statics) + ReuseParams(b.reuses), SortTensors(ReuseTensors(NO_TENSORS, b.reuses)), b.nodes)
  }

  // ---- Progress of a loop over the items of a table

  /** `xs` has been read up to `cur`, and `left` items are to come. */
  ghost predicate Progress<T>(one: nat -> Outcome<T>, start: nat, cnt: nat, xs: seq<T>, cur: nat, left: nat) {
    Many(one, start, cnt) == Prefixed(xs, Many(one, cur, left))
  }

  lemma Started<T>(one: nat -> Outcome<T>, start: nat, cnt: nat)
    ensures Progress(one, start, cnt, [], start, cnt)
  {
    var o := Many(one, start, cnt);
    if o.Done? {
      assert [] + o.value == o.value;
    }
  }

  lemma Advanced<T>(one: nat -> Outcome<T>, start: nat, cnt: nat, xs: seq<T>, cur: nat, left: nat, x: T, next: nat)
    requires Progress(one, start, cnt, xs, cur, left) && left > 0 && one(cur) == Done(x, next)
    ensures Progress(one, start, cnt, xs + [x], next, left - 1)
  {
    var o := Many(one, next, left - 1);
    if o.Done? {
      assert xs + ([x] + o.value) == xs + [x] + o.value;
    }
  }

  lemma Stopped<T>(one: nat -> Outcome<T>, start: nat, cnt: nat, xs: seq<T>, cur: nat, left: nat)
    requires Progress(one, start, cnt, xs, cur, left) && left > 0 && !one(cur).Done?
    ensures one(cur) == Invalid ==> Many(one, start, cnt) == Invalid
    ensures one(cur) == Stray ==> Many(one, start, cnt) == Stray
  {
  }

  lemma Finished<T>(one: nat -> Outcome<T>, start: nat, cnt: nat, xs: seq<T>, cur: nat)
    requires Progress(one, start, cnt, xs, cur, 0)
    ensures Many(one, start, cnt) == Done(xs, cur)
  {
    assert xs + [] == xs;
  }

  function StatusOf<T>(o: Outcome<T>): Status {
    match o
    case Done(_, _) => Success
    case Invalid => InvalidGbin
    case Stray => StrayRead
  }

  lemma SubParamsNext(lt: LoadType, sec: nat, sub: nat, d: SubDesc, ro: seq<word>, w: word)
    ensures SubParams(lt, sec, sub, d.(roOffsets := ro + [w])) ==
            SubParams(lt, sec, sub, d.(roOffsets := ro)) + [ParamEntry(w, lt, sec, sub, d.offset, d.addrMask)]
  {
  }

  lemma SubsNext(lt: LoadType, sec: nat, subs: seq<SubDesc>, d: SubDesc, io: IoTensors)
    ensures SubsParams(lt, sec, subs + [d]) == SubsParams(lt, sec, subs) + SubParams(lt, sec, |subs|, d)
    ensures SubOffsets(subs + [d]) == SubOffsets(subs) + [d.offset]
    ensures SubsTensors(io, sec, subs + [d]) == AddTensor(SubsTensors(io, sec, subs), sec, d)
  {
    assert (subs + [d])[..|subs|] == subs;
  }

  lemma {:induction false} StaticsNext(ds: seq<StaticDesc>, d: StaticDesc)
    ensures StaticParams(ds + [d]) == StaticParams(ds) + SubsParams(Static, |ds|, d.subs)
  {
    assert (ds + [d])[..|ds|] == ds;
  }

  lemma {:induction false} StaticIrsNext(ds: seq<StaticDesc>, d: StaticDesc)
    ensures StaticIrs(ds + [d]) == StaticIrs(ds) + [StaticIr(d)]
  {
  }

  lemma {:induction false} ReusesNext(ds: seq<ReuseDesc>, d: ReuseDesc, io: IoTensors)
    ensures ReuseParams(ds + [d]) == ReuseParams(ds) + SubsParams(Reuse, |ds|, d.subs)
    ensures ReuseTensors(io, ds + [d]) == SubsTensors(ReuseTensors(io, ds), |ds|, d.subs)
  {
    assert (ds + [d])[..|ds|] == ds;
  }

  lemma {:induction false} ReuseIrsNext(ds: seq<ReuseDesc>, d: ReuseDesc)
    ensures ReuseIrs(ds + [d]) == ReuseIrs(ds) + [ReuseIr(d)]
  {
  }

  lemma {:induction false} SubsGrow(lt: LoadType, sec: nat, subs: seq<SubDesc>, d: SubDesc, p0: seq<ParamEntry>,
                                    io0: IoTensors)
    ensures (p0 + SubsParams(lt, sec, subs)) + SubParams(lt, sec, |subs|, d) == p0 + SubsParams(lt, sec, subs + [d])
    ensures SubOffsets(subs + [d]) == SubOffsets(subs) + [d.offset]
    ensures SubsTensors(io0, sec, subs + [d]) == AddTensor(SubsTensors(io0, sec, subs), sec, d)
  {
    SubsNext(lt, sec, subs, d, io0);
    Regroup(p0, SubsParams(lt, sec, subs), SubParams(lt, sec, |subs|, d));
  }

  lemma {:induction false} StaticsGrow(ds: seq<StaticDesc>, d: StaticDesc, p0: seq<ParamEntry>, s0: seq<SectionIr>)
    ensures (p0 + StaticParams(ds)) + SubsParams(Static, |ds|, d.subs) == p0 + StaticParams(ds + [d])
    ensures (s0 + StaticIrs(ds)) + [StaticIr(d)] == s0 + StaticIrs(ds + [d])
  {
    StaticsNext(ds, d);
    StaticIrsNext(ds, d);
    Regroup(p0, StaticParams(ds), SubsParams(Static, |ds|, d.subs));
    Regroup(s0, StaticIrs(ds), [StaticIr(d)]);
  }

  lemma {:induction false} ReusesGrow(ds: seq<ReuseDesc>, d: ReuseDesc, p0: seq<ParamEntry>, s0: seq<SectionIr>,
                                      io0: IoTensors)
    ensures (p0 + ReuseParams(ds)) + SubsParams(Reuse, |ds|, d.subs) == p0 + ReuseParams(ds + [d])
    ensures (s0 + ReuseIrs(ds)) + [ReuseIr(d)] == s0 + ReuseIrs(ds + [d])
    ensures SubsTensors(ReuseTensors(io0, ds), |ds|, d.subs) == ReuseTensors(io0, ds + [d])
  {
    ReusesNext(ds, d, io0);
    ReuseIrsNext(ds, d);
    Regroup(p0, ReuseParams(ds), SubsParams(Reuse, |ds|, d.subs));
    Regroup(s0, ReuseIrs(ds), [ReuseIr(d)]);
  }

  /** The outcome of the three tables, part by part. */
  lemma TablesCases(src: Source, r: Readers, stack: word, align: word, staticCnt: nat, reuseCnt: nat, linked: bool)
    ensures var t := DecodeTables(src, r, stack, align, staticCnt, reuseCnt, linked);
            var s := Many(r.ofStatic, 4, staticCnt);
            if !s.Done? then StatusOf(t) == StatusOf(s)
            else
              var u := Many(r.ofReuse, s.next, reuseCnt);
              if !u.Done? then StatusOf(t) == StatusOf(u)
              else
                var l := DecodeList(src, r, u.next, linked);
                if !l.Done? then StatusOf(t) == StatusOf(l)
                else t == Done(Bss(stack, align, s.value, u.value, l.value), l.next)
  {
  }

  /** What each reader is in terms of the readers below it. */
  ghost predicate Layered(src: Source, r: Readers) {
    && (forall p: nat {:trigger DecodeWord(src, p)} :: r.ofWord(p) == DecodeWord(src, p))
    && (forall p: nat {:trigger SubFrom(src, r.ofWord, p)} :: r.ofSub(p) == SubFrom(src, r.ofWord, p))
    && (forall p: nat {:trigger StaticFrom(src, r.ofSub, p)} :: r.ofStatic(p) == StaticFrom(src, r.ofSub, p))
    && (forall p: nat {:trigger ReuseFrom(src, r.ofSub, p)} :: r.ofReuse(p) == ReuseFrom(src, r.ofSub, p))
    && (forall p: nat {:trigger DecodeNode(src, p)} :: r.ofNode(p) == DecodeNode(src, p))
  }

  class GraphInfo {
    var stackSize: nat
    var stackAlignInPage: nat
    var statics: seq<SectionIr>
    var reuses: seq<SectionIr>
    var params: seq<ParamEntry>
    var io: IoTensors
    var dcrMap: seq<Node>

    ghost function Value(): Info
      reads this
    {
      Info(stackSize, stackAlignInPage, statics, reuses, params, io, dcrMap)
    }

    constructor ()
      ensures Value() == Info(0, 0, [], [], [], NO_TENSORS, [])
    {
      stackSize, stackAlignInPage, statics, reuses, params, io, dcrMap := 0, 0, [], [], [], NO_TENSORS, [];
    }

    /** One word or several, copied if the pointer check passes. */
    method Copy(src: Source, at: nat, n: nat) returns (st: Status, w: seq<word>)
      ensures st == StatusOf(Take(src, at, n))
      ensures st == Success ==> Take(src, at, n) == Done(w, at + n) && |w| == n
    {
      w := [];
      if 4 * (at + n) >= 16 + src.bssSize {
        return InvalidGbin, [];
      }
      if at + n > |src.mem| {
        return StrayRead, [];
      }
      return Success, src.mem[at..at + n];
    }

    /** The rodata offsets behind a sub-section descriptor, each giving one parameter. */
    method ReadRoOffsets(src: Source, ghost r: Readers, start: nat, cnt: nat, lt: LoadType, sec: nat, sub: nat,
                         ghost d: SubDesc, offset: nat, mask: nat)
      returns (st: Status, at: nat)
      requires offset == d.offset && mask == d.addrMask
      requires Layered(src, r)
      modifies this`params
      ensures var o := Many(r.ofWord, start, cnt);
              && st == StatusOf(o)
              && (o.Done? ==> at == o.next &&
                              params == old(params) + SubParams(lt, sec, sub, d.(roOffsets := o.value)))
    {
      at := start;
      ghost var one, ro: seq<word> := r.ofWord, [];
      Started(one, start, cnt);
      for i := 0 to cnt
        invariant |ro| == i && Progress(one, start, cnt, ro, at, cnt - i)
        invariant params == old(params) + SubParams(lt, sec, sub, d.(roOffsets := ro))
      {
        var w;
        assert r.ofWord(at) == DecodeWord(src, at);
        st, w := Copy(src, at, 1);
        if st != Success {
          Stopped(one, start, cnt, ro, at, cnt - i);
          return;
        }
        params := params + [ParamEntry(w[0], lt, sec, sub, offset, mask)];
        SubParamsNext(lt, sec, sub, d, ro, w[0]);
        Advanced(one, start, cnt, ro, at, cnt - i, w[0], at + 1);
        ro := ro + [w[0]];
        at := at + 1;
      }
      Finished(one, start, cnt, ro, at);
      st := Success;
    }

    /** One sub-section: its descriptor, its tensor if it is an input, output or dump of a
        reuse section, and its rodata offsets. */
    method ReadSub(src: Source, ghost r: Readers, start: nat, lt: LoadType, sec: nat, sub: nat)
      returns (st: Status, at: nat, offset: nat)
      requires Layered(src, r)
      modifies this`params, this`io
      ensures var o := r.ofSub(start);
              && st == StatusOf(o)
              && (o.Done? ==>
                    && at == o.next && offset == o.value.offset
                    && params == old(params) + SubParams(lt, sec, sub, o.value)
                    && io == if lt == Reuse then AddTensor(old(io), sec, o.value) else old(io))
    {
      at, offset := start, 0;
      assert r.ofSub(start) == SubFrom(src, r.ofWord, start);
      var w;
      st, w := Copy(src, start, 12);
      if st != Success {
        return;
      }
      var head := SubDesc(w[0], w[1], w[2], w[3], w[4], w[5], w[6], w[7], w[8], w[9], w[10], []);
      if lt == Reuse {
        FillIoTensor(sec, head);
      }
      offset := head.offset;
      st, at := ReadRoOffsets(src, r, start + 12, w[11], lt, sec, sub, head, head.offset, head.addrMask);
    }

    method FillIoTensor(sec: nat, d: SubDesc)
      modifies this`io
      ensures io == AddTensor(old(io), sec, d)
    {
      var t := Tensor(d.id, sec, d.offset, d.size, (d.dtype + U32 - 1) % U32, d.layout, d.n, d.h, d.w, d.c);
      if d.tensorType == TYPE_INPUT {
        io := io.(inputs := io.inputs + [t]);
      } else if d.tensorType == TYPE_OUTPUT {
        io := io.(outputs := io.outputs + [t]);
      } else if d.tensorType == TYPE_INTER_DUMP {
        io := io.(interDumps := io.interDumps + [t]);
      } else if d.tensorType == TYPE_PROF_DATA {
        io := io.(profData := io.profData + [t]);
      } else if d.tensorType == TYPE_PLOG_DATA {
        io := io.(plogData := io.plogData + [t]);
      }
    }

    method ReadSubs(src: Source, ghost r: Readers, start: nat, cnt: nat, lt: LoadType, sec: nat)
      returns (st: Status, at: nat, offsets: seq<nat>)
      requires Layered(src, r)
      modifies this`params, this`io
      ensures var o := Many(r.ofSub, start, cnt);
              && st == StatusOf(o)
              && (o.Done? ==>
                    && at == o.next && offsets == SubOffsets(o.value)
                    && params == old(params) + SubsParams(lt, sec, o.value)
                    && io == if lt == Reuse then SubsTensors(old(io), sec, o.value) else old(io))
    {
      at, offsets := start, [];
      ghost var one, subs: seq<SubDesc> := r.ofSub, [];
      ghost var p0, io0 := params, io;
      Started(one, start, cnt);
      for i := 0 to cnt
        invariant |subs| == i && Progress(one, start, cnt, subs, at, cnt - i)
        invariant offsets == SubOffsets(subs) && params == p0 + SubsParams(lt, sec, subs)
        invariant io == if lt == Reuse then SubsTensors(io0, sec, subs) else io0
      {
        ghost var o := r.ofSub(at);
        ghost var before := at;
        var offset;
        st, at, offset := ReadSub(src, r, at, lt, sec, i);
        if st != Success {
          Stopped(one, start, cnt, subs, before, cnt - i);
          return;
        }
        offsets := offsets + [offset];
        SubsGrow(lt, sec, subs, o.value, p0, io0);
        Advanced(one, start, cnt, subs, before, cnt - i, o.value, at);
        subs := subs + [o.value];
      }
      Finished(one, start, cnt, subs, at);
      st := Success;
    }

    method ReadStatic(src: Source, ghost r: Readers, start: nat, sec: nat) returns (st: Status, at: nat)
      requires Layered(src, r)
      modifies this`params, this`io, this`statics
      ensures var o := r.ofStatic(start);
              && st == StatusOf(o)
              && (o.Done? ==>
                    && at == o.next && io == old(io)
                    && params == old(params) + SubsParams(Static, sec, o.value.subs)
                    && statics == old(statics) + [StaticIr(o.value)])
    {
      at := start;
      assert r.ofStatic(start) == StaticFrom(src, r.ofSub, start);
      var w, offsets;
      st, w := Copy(src, start, 4);
      if st != Success {
        return;
      }
      st, at, offsets := ReadSubs(src, r, start + 4, w[3], Static, sec);
      if st == Success {
        statics := statics + [SectionIr(InData(w[0]), w[1], AlignInPage(w[2]), offsets)];
      }
    }

    method ReadStatics(src: Source, ghost r: Readers, start: nat, cnt: nat) returns (st: Status, at: nat)
      requires Layered(src, r)
      modifies this`params, this`io, this`statics
      ensures var o := Many(r.ofStatic, start, cnt);
              && st == StatusOf(o)
              && (o.Done? ==>
                    && at == o.next && io == old(io)
                    && params == old(params) + StaticParams(o.value)
                    && statics == old(statics) + StaticIrs(o.value))
    {
      at := start;
      ghost var one, ds: seq<StaticDesc> := r.ofStatic, [];
      ghost var p0, s0 := params, statics;
      Started(one, start, cnt);
      for i := 0 to cnt
        invariant |ds| == i && Progress(one, start, cnt, ds, at, cnt - i)
        invariant params == p0 + StaticParams(ds) && statics == s0 + StaticIrs(ds) && io == old(io)
      {
        ghost var o := r.ofStatic(at);
        ghost var before := at;
        st, at := ReadStatic(src, r, at, i);
        if st != Success {
          Stopped(one, start, cnt, ds, before, cnt - i);
          return;
        }
        StaticsGrow(ds, o.value, p0, s0);
        Advanced(one, start, cnt, ds, before, cnt - i, o.value, at);
        ds := ds + [o.value];
      }
      Finished(one, start, cnt, ds, at);
      st := Success;
    }

    method ReadReuse(src: Source, ghost r: Readers, start: nat, sec: nat) returns (st: Status, at: nat)
      requires Layered(src, r)
      modifies this`params, this`io, this`reuses
      ensures var o := r.ofReuse(start);
              && st == StatusOf(o)
              && (o.Done? ==>
                    && at == o.next && io == SubsTensors(old(io), sec, o.value.subs)
                    && params == old(params) + SubsParams(Reuse, sec, o.value.subs)
                    && reuses == old(reuses) + [ReuseIr(o.value)])
    {
      at := start;
      assert r.ofReuse(start) == ReuseFrom(src, r.ofSub, start);
      var w, offsets;
      st, w := Copy(src, start, 3);
      if st != Success {
        return;
      }
      st, at, offsets := ReadSubs(src, r, start + 3, w[2], Reuse, sec);
      if st == Success {
        reuses := reuses + [SectionIr(Nowhere, w[0], AlignInPage(w[1]), offsets)];
      }
    }

    method ReadReuses(src: Source, ghost r: Readers, start: nat, cnt: nat) returns (st: Status, at: nat)
      requires Layered(src, r)
      modifies this`params, this`io, this`reuses
      ensures var o := Many(r.ofReuse, start, cnt);
              && st == StatusOf(o)
              && (o.Done? ==>
                    && at == o.next && io == ReuseTensors(old(io), o.value)
                    && params == old(params) + ReuseParams(o.value)
                    && reuses == old(reuses) + ReuseIrs(o.value))
    {
      at := start;
      ghost var one, ds: seq<ReuseDesc> := r.ofReuse, [];
      ghost var p0, s0, io0 := params, reuses, io;
      Started(one, start, cnt);
      for i := 0 to cnt
        invariant |ds| == i && Progress(one, start, cnt, ds, at, cnt - i)
        invariant params == p0 + ReuseParams(ds) && reuses == s0 + ReuseIrs(ds) && io == ReuseTensors(io0, ds)
      {
        ghost var o := r.ofReuse(at);
        ghost var before := at;
        st, at := ReadReuse(src, r, at, i);
        if st != Success {
          Stopped(one, start, cnt, ds, before, cnt - i);
          return;
        }
        ReusesGrow(ds, o.value, p0, s0, io0);
        Advanced(one, start, cnt, ds, before, cnt - i, o.value, at);
        ds := ds + [o.value];
      }
      Finished(one, start, cnt, ds, at);
      st := Success;
    }

    /** The linked list: a checked count, then that many nodes read without a check. */
    method ReadList(src: Source, ghost r: Readers, start: nat, linked: bool) returns (st: Status)
      requires Layered(src, r)
      modifies this`dcrMap
      ensures var o := DecodeList(src, r, start, linked);
              st == StatusOf(o) && (o.Done? ==> dcrMap == old(dcrMap) + o.value)
    {
      if !linked {
        assert dcrMap + [] == dcrMap;
        return Success;
      }
      var w;
      st, w := Copy(src, start, 1);
      if st != Success {
        return;
      }
      if w[0] == 0 {
        return InvalidGbin;
      }
      st := ReadNodes(src, r, start + 1, w[0]);
    }

    method ReadNodes(src: Source, ghost r: Readers, start: nat, cnt: nat) returns (st: Status)
      requires Layered(src, r)
      modifies this`dcrMap
      ensures var o := Many(r.ofNode, start, cnt);
              st == StatusOf(o) && (o.Done? ==> dcrMap == old(dcrMap) + o.value)
    {
      var at: nat := start;
      ghost var one, nodes: seq<Node> := r.ofNode, [];
      Started(one, start, cnt);
      for i := 0 to cnt
        invariant |nodes| == i && Progress(one, start, cnt, nodes, at, cnt - i)
        invariant dcrMap == old(dcrMap) + nodes
      {
        assert r.ofNode(at) == DecodeNode(src, at);
        if at + 4 > |src.mem| {
          Stopped(one, start, cnt, nodes, at, cnt - i);
          return StrayRead;
        }
        var w := src.mem[at..at + 4];
        var node := Node(w[0], w[1], w[2], w[3]);
        dcrMap := dcrMap + [node];
        Advanced(one, start, cnt, nodes, at, cnt - i, node, at + 4);
        nodes := nodes + [node];
        at := at + 4;
      }
      Finished(one, start, cnt, nodes, at);
      st := Success;
    }

    method SortIo()
      modifies this`io
      ensures io == SortTensors(old(io))
    {
      var outs, ins := io.outputs, io.inputs;
      var a := new Tensor[|outs|](i requires 0 <= i < |outs| => outs[i]);
      assert a[..] == outs;
      var ok := SortIoTensor(a);
      io := io.(outputs := a[..]);
      if ok {
        var b := new Tensor[|ins|](i requires 0 <= i < |ins| => ins[i]);
        assert b[..] == ins;
        ok := SortIoTensor(b);
        io := io.(inputs := b[..]);
      }
    }

    method ReadTables(src: Source, ghost r: Readers, stack: word, align: word, staticCnt: nat, reuseCnt: nat,
                      linked: bool)
      returns (st: Status)
      requires statics == [] && reuses == [] && params == [] && io == NO_TENSORS && dcrMap == []
      requires Layered(src, r)
      modifies this`statics, this`reuses, this`params, this`io, this`dcrMap
      ensures var o := DecodeTables(src, r, stack, align, staticCnt, reuseCnt, linked);
              && st == StatusOf(o)
              && (o.Done? ==> TablesFilled(o.value))
    {
      TablesCases(src, r, stack, align, staticCnt, reuseCnt, linked);
      var at;
      st, at := ReadStatics(src, r, 4, staticCnt);
      if st != Success {
        return;
      }
      ghost var ds := Many(r.ofStatic, 4, staticCnt).value;
      assert statics == StaticIrs(ds) && params == StaticParams(ds);
      st, at := ReadReuses(src, r, at, reuseCnt);
      if st != Success {
        return;
      }
      st := ReadList(src, r, at, linked);
    }

    ghost predicate TablesFilled(b: Bss)
      reads this
    {
      && statics == StaticIrs(b.statics) && reuses == ReuseIrs(b.reuses)
      && params == StaticParams(b.statics) + ReuseParams(b.reuses)
      && io == ReuseTensors(NO_TENSORS, b.reuses) && dcrMap == b.nodes
    }

    /** Parses the bss section into a fresh graph info; a failed tensor sort is not reported. */
    method ParseBssSection(src: Source, linked: bool) returns (st: Status)
      requires Value() == Info(0, 0, [], [], [], NO_TENSORS, [])
      modifies this
      ensures st == StatusOf(Decode(src, linked))
      ensures st == Success ==> Value() == InfoOf(Decode(src, linked).value)
    {
      if |src.mem| < 4 {
        return StrayRead;
      }
      var w := src.mem[..4];
      if w[0] == 0 || w[1] == 0 || w[3] == 0 {
        return InvalidGbin;
      }
      stackSize, stackAlignInPage := w[0], AlignInPage(w[1]);
      st := ReadTables(src, V3At(src), w[0], w[1], w[2], w[3], linked);
      if st == Success {
        SortIo();
      }
    }
  }

  // ---- What every accepted graph has

  function RoCount(subs: seq<SubDesc>): nat {
    if subs == [] then 0 else RoCount(subs[..|subs| - 1]) + |subs[|subs| - 1].roOffsets|
  }

  function StaticRoCount(ds: seq<StaticDesc>): nat {
    if ds == [] then 0 else StaticRoCount(ds[..|ds| - 1]) + RoCount(ds[|ds| - 1].subs)
  }

  function ReuseRoCount(ds: seq<ReuseDesc>): nat {
    if ds == [] then 0 else ReuseRoCount(ds[..|ds| - 1]) + RoCount(ds[|ds| - 1].subs)
  }

  /** `e` patches one of the rodata offsets listed for sub-section `e.subSection` of `subs`. */
  ghost predicate InSubs(e: ParamEntry, subs: seq<SubDesc>) {
    && e.subSection < |subs|
    && var d := subs[e.subSection];
    e.sectionOffset == d.offset && e.mask == d.addrMask && e.offsetInMap in d.roOffsets
  }

  /** `e` is described by the graph: it names an existing section and sub-section and one of
      the rodata offsets listed there. */
  ghost predicate Described(e: ParamEntry, b: Bss) {
    match e.loadType
    case Static => e.section < |b.statics| && InSubs(e, b.statics[e.section].subs)
    case Reuse => e.section < |b.reuses| && InSubs(e, b.reuses[e.section].subs)
  }

  lemma {:induction false} SubParamsExact(lt: LoadType, sec: nat, sub: nat, d: SubDesc, e: ParamEntry)
    ensures e in SubParams(lt, sec, sub, d) <==>
            && e.loadType == lt && e.section == sec && e.subSection == sub
            && e.sectionOffset == d.offset && e.mask == d.addrMask && e.offsetInMap in d.roOffsets
  {
    if e.offsetInMap in d.roOffsets {
      var i :| 0 <= i < |d.roOffsets| && d.roOffsets[i] == e.offsetInMap;
      assert SubParams(lt, sec, sub, d)[i] == ParamEntry(e.offsetInMap, lt, sec, sub, d.offset, d.addrMask);
    }
  }

  lemma {:induction false} SubsParamsExact(lt: LoadType, sec: nat, subs: seq<SubDesc>, e: ParamEntry)
    ensures e in SubsParams(lt, sec, subs) <==> e.loadType == lt && e.section == sec && InSubs(e, subs)
    ensures |SubsParams(lt, sec, subs)| == RoCount(subs)
  {
    if subs != [] {
      var k := |subs| - 1;
      SubsParamsExact(lt, sec, subs[..k], e);
      SubParamsExact(lt, sec, k, subs[k], e);
    }
  }

  lemma {:induction false} StaticParamsExact(ds: seq<StaticDesc>, e: ParamEntry)
    ensures e in StaticParams(ds) <==>
            e.loadType == Static && e.section < |ds| && InSubs(e, ds[e.section].subs)
    ensures |StaticParams(ds)| == StaticRoCount(ds)
  {
    if ds != [] {
      var k := |ds| - 1;
      StaticParamsExact(ds[..k], e);
      SubsParamsExact(Static, k, ds[k].subs, e);
    }
  }

  lemma {:induction false} ReuseParamsExact(ds: seq<ReuseDesc>, e: ParamEntry)
    ensures e in ReuseParams(ds) <==>
            e.loadType == Reuse && e.section < |ds| && InSubs(e, ds[e.section].subs)
    ensures |ReuseParams(ds)| == ReuseRoCount(ds)
  {
    if ds != [] {
      var k := |ds| - 1;
      ReuseParamsExact(ds[..k], e);
      SubsParamsExact(Reuse, k, ds[k].subs, e);
    }
  }

  /** The parameter map of a graph holds exactly the entries its descriptors describe, one
      for every rodata offset they list. */
  lemma {:induction false} ParamMapExact(b: Bss)
    ensures forall e :: e in InfoOf(b).params <==> Described(e, b)
    ensures |InfoOf(b).params| == StaticRoCount(b.statics) + ReuseRoCount(b.reuses)
  {
    forall e
      ensures e in InfoOf(b).params <==> Described(e, b)
    {
      StaticParamsExact(b.statics, e);
      ReuseParamsExact(b.reuses, e);
    }
    var any := ParamEntry(0, Static, 0, 0, 0, 0);
    StaticParamsExact(b.statics, any);
    ReuseParamsExact(b.reuses, any);
  }

  /** Every entry of the parameter map names an existing section template, an existing
      sub-section of it, and that sub-section's offset. */
  lemma {:induction false} ParamsNameSections(b: Bss)
    ensures var info := InfoOf(b);
            forall e | e in info.params ::
              var secs := if e.loadType == Static then info.statics else info.reuses;
              && e.section < |secs| && e.subSection < |secs[e.section].subOffsets|
              && secs[e.section].subOffsets[e.subSection] == e.sectionOffset
  {
    ParamMapExact(b);
    forall e | e in InfoOf(b).params
      ensures var secs := if e.loadType == Static then InfoOf(b).statics else InfoOf(b).reuses;
              && e.section < |secs| && e.subSection < |secs[e.section].subOffsets|
              && secs[e.section].subOffsets[e.subSection] == e.sectionOffset
    {
      assert Described(e, b);
    }
  }

  /** The page alignment covers the alignment in bytes; it is zero exactly for alignments of
      zero and for those whose rounding wraps around in 32 bits. */
  lemma AlignInPageCovers(bytes: nat)
    requires bytes < U32
    ensures AlignInPage(bytes) == 0 <==> bytes == 0 || bytes + PAGE > U32
    ensures bytes + PAGE <= U32 ==> AlignInPage(bytes) * PAGE == RoundUp(bytes, PAGE)
  {
    if bytes + PAGE <= U32 {
      DivModUnique(bytes + PAGE - 1, U32, 0, bytes + PAGE - 1);
    } else {
      DivModUnique(bytes + PAGE - 1, U32, 1, bytes + PAGE - 1 - U32);
    }
  }

  // ---- What the graph info says, field by field

  /** ALIGN_ADDR: bytes to whole pages of 4096 bytes, in 32 bits. */
  function PagesOf(bytes: nat): nat {
    (bytes + 4095) % 0x1_0000_0000 / 4096
  }

  /** Every static section becomes a template with its own size, page alignment and load
      offset, every reuse section one without initial contents; stack and node list are those
      of the graph. */
  lemma {:induction false} TemplatesExact(b: Bss)
    ensures var info := InfoOf(b);
            && info.stackSize == b.stackSize && info.stackAlignInPage == PagesOf(b.stackAlignBytes)
            && |info.statics| == |b.statics| && |info.reuses| == |b.reuses| && info.dcrMap == b.nodes
            && (forall i | 0 <= i < |b.statics| ::
                  var t, d := info.statics[i], b.statics[i];
                  && t.size == d.size && t.source == InData(d.offsetInFile)
                  && t.alignInPage == PagesOf(d.alignBytes) && |t.subOffsets| == |d.subs|
                  && forall k | 0 <= k < |d.subs| :: t.subOffsets[k] == d.subs[k].offset)
            && (forall i | 0 <= i < |b.reuses| ::
                  var t, d := info.reuses[i], b.reuses[i];
                  && t.size == d.size && t.source == Nowhere
                  && t.alignInPage == PagesOf(d.alignBytes) && |t.subOffsets| == |d.subs|
                  && forall k | 0 <= k < |d.subs| :: t.subOffsets[k] == d.subs[k].offset)
  {
  }

  /** The tensor that sub-section `d` of reuse section `sec` describes; the data type is one
      less than in the file, in 32 bits. */
  ghost predicate IsTensor(t: Tensor, sec: nat, d: SubDesc) {
    && t.id == d.id && t.section == sec && t.offset == d.offset && t.size == d.size
    && t.dataType == (if d.dtype == 0 then 0xFFFF_FFFF else d.dtype - 1) && t.layout == d.layout
    && t.n == d.n && t.h == d.h && t.w == d.w && t.c == d.c
  }

  /** The sub-sections of a given type, with the index of their section, in file order. */
  function OfType(sec: nat, subs: seq<SubDesc>, ty: nat): seq<(nat, SubDesc)> {
    if subs == [] then []
    else
      var k := |subs| - 1;
      OfType(sec, subs[..k], ty) + (if subs[k].tensorType == ty then [(sec, subs[k])] else [])
  }

  function AllOfType(ds: seq<ReuseDesc>, ty: nat): seq<(nat, SubDesc)> {
    if ds == [] then []
    else
      var k := |ds| - 1;
      AllOfType(ds[..k], ty) + OfType(k, ds[k].subs, ty)
  }

  /** `ts` are the tensors of these sub-sections, one for each, in order. */
  ghost predicate Lists(ts: seq<Tensor>, subs: seq<(nat, SubDesc)>) {
    |ts| == |subs| && forall i | 0 <= i < |ts| :: IsTensor(ts[i], subs[i].0, subs[i].1)
  }

  /** All five lists, by the number of their type, behind what they held before. */
  ghost predicate AllList(io: IoTensors, before: IoTensors, subs: nat -> seq<(nat, SubDesc)>) {
    && Follows(io.inputs, before.inputs, subs(0)) && Follows(io.outputs, before.outputs, subs(1))
    && Follows(io.interDumps, before.interDumps, subs(2)) && Follows(io.profData, before.profData, subs(10))
    && Follows(io.plogData, before.plogData, subs(12))
  }

  ghost predicate Follows(ts: seq<Tensor>, before: seq<Tensor>, subs: seq<(nat, SubDesc)>) {
    before <= ts && Lists(ts[|before|..], subs)
  }

  lemma {:induction false} FollowsMore(ts: seq<Tensor>, before: seq<Tensor>, subs: seq<(nat, SubDesc)>,
                                       more: seq<Tensor>, moreSubs: seq<(nat, SubDesc)>)
    requires Follows(ts, before, subs) && Follows(more, ts, moreSubs)
    ensures Follows(more, before, subs + moreSubs)
  {
    assert more[|before|..] == ts[|before|..] + more[|ts|..];
  }

  lemma {:induction false} AddTensorFollows(io: IoTensors, sec: nat, d: SubDesc)
    ensures AllList(AddTensor(io, sec, d), io, (ty: nat) => if d.tensorType == ty then [(sec, d)] else [])
  {
    DivModUnique(d.dtype + U32 - 1, U32, if d.dtype == 0 then 0 else 1,
                 if d.dtype == 0 then 0xFFFF_FFFF else d.dtype - 1);
    assert IsTensor(TensorOf(sec, d), sec, d);
  }

  lemma {:induction false} AllListMore(io: IoTensors, before: IoTensors, subs: nat -> seq<(nat, SubDesc)>,
                                       more: IoTensors, moreSubs: nat -> seq<(nat, SubDesc)>)
    requires AllList(io, before, subs) && AllList(more, io, moreSubs)
    ensures AllList(more, before, (ty: nat) => subs(ty) + moreSubs(ty))
  {
    FollowsMore(io.inputs, before.inputs, subs(0), more.inputs, moreSubs(0));
    FollowsMore(io.outputs, before.outputs, subs(1), more.outputs, moreSubs(1));
    FollowsMore(io.interDumps, before.interDumps, subs(2), more.interDumps, moreSubs(2));
    FollowsMore(io.profData, before.profData, subs(10), more.profData, moreSubs(10));
    FollowsMore(io.plogData, before.plogData, subs(12), more.plogData, moreSubs(12));
  }

  lemma {:induction false} SubsTensorsFollow(io: IoTensors, sec: nat, subs: seq<SubDesc>)
    ensures AllList(SubsTensors(io, sec, subs), io, (ty: nat) => OfType(sec, subs, ty))
  {
    if subs != [] {
      var k := |subs| - 1;
      var front := SubsTensors(io, sec, subs[..k]);
      SubsTensorsFollow(io, sec, subs[..k]);
      AddTensorFollows(front, sec, subs[k]);
      AllListMore(front, io, (ty: nat) => OfType(sec, subs[..k], ty), AddTensor(front, sec, subs[k]),
                  (ty: nat) => if subs[k].tensorType == ty then [(sec, subs[k])] else []);
    }
  }

  lemma {:induction false} ReuseTensorsFollow(io: IoTensors, ds: seq<ReuseDesc>)
    ensures AllList(ReuseTensors(io, ds), io, (ty: nat) => AllOfType(ds, ty))
  {
    if ds != [] {
      var k := |ds| - 1;
      var front := ReuseTensors(io, ds[..k]);
      ReuseTensorsFollow(io, ds[..k]);
      SubsTensorsFollow(front, k, ds[k].subs);
      AllListMore(front, io, (ty: nat) => AllOfType(ds[..k], ty), SubsTensors(front, k, ds[k].subs),
                  (ty: nat) => OfType(k, ds[k].subs, ty));
    }
  }

  /** Dump, profiling and print lists are the tensors of types 2, 10 and 12 in file order.
      Outputs (type 1) are sorted; inputs (type 0) are sorted too, unless an output's id names
      no slot, in which case they stay in file order. */
  lemma {:induction false} TensorListsExact(b: Bss)
    ensures var io := InfoOf(b).io;
            && Lists(io.interDumps, AllOfType(b.reuses, 2)) && Lists(io.profData, AllOfType(b.reuses, 10))
            && Lists(io.plogData, AllOfType(b.reuses, 12))
            && exists inputs: seq<Tensor>, outputs: seq<Tensor> ::
                 && Lists(inputs, AllOfType(b.reuses, 0)) && Lists(outputs, AllOfType(b.reuses, 1))
                 && io.outputs == Result(outputs)
                 && io.inputs == if forall t | t in outputs :: t.id < |outputs| then Result(inputs) else inputs
  {
    var io := ReuseTensors(NO_TENSORS, b.reuses);
    ReuseTensorsFollow(NO_TENSORS, b.reuses);
    FromNothing(io, (ty: nat) => AllOfType(b.reuses, ty));
    assert (FirstBad(io.outputs, 0) == |io.outputs|) == (forall t | t in io.outputs :: t.id < |io.outputs|);
    assert Lists(io.inputs, AllOfType(b.reuses, 0)) && Lists(io.outputs, AllOfType(b.reuses, 1));
  }

  lemma {:induction false} FromNothing(io: IoTensors, subs: nat -> seq<(nat, SubDesc)>)
    requires AllList(io, NO_TENSORS, subs)
    ensures Lists(io.inputs, subs(0)) && Lists(io.outputs, subs(1)) && Lists(io.interDumps, subs(2))
    ensures Lists(io.profData, subs(10)) && Lists(io.plogData, subs(12))
  {
    assert io.inputs[0..] == io.inputs && io.outputs[0..] == io.outputs && io.interDumps[0..] == io.interDumps;
    assert io.profData[0..] == io.profData && io.plogData[0..] == io.plogData;
  }
}
