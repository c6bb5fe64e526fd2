/** The binary descriptor format of graph versions 3 and 4 (bss section): its encoder, a
    decoder that reads words under the parser's bound, and the proof that they are inverse. */
module GraphFormat {
  import opened Words

  type word = w: nat | w < U32

  datatype SubDesc = SubDesc(offset: word, size: word, tensorType: word, id: word, dtype: word, layout: word,
                             n: word, h: word, w: word, c: word, addrMask: word, roOffsets: seq<word>)

  datatype StaticDesc = StaticDesc(offsetInFile: word, size: word, alignBytes: word, subs: seq<SubDesc>)

  datatype ReuseDesc = ReuseDesc(size: word, alignBytes: word, subs: seq<SubDesc>)

  datatype Node = Node(nodeType: word, nextAddrEntryOffset: word, nextType: word, nextOffset: word)

  datatype Bss = Bss(stackSize: word, stackAlignBytes: word, statics: seq<StaticDesc>, reuses: seq<ReuseDesc>,
                     nodes: seq<Node>)

  /** The words mapped from the start of the bss section, and the size its header declares. */
  datatype Source = Source(mem: seq<word>, bssSize: nat)

  /** A read succeeds, is refused as an invalid binary, or leaves the mapped memory. */
  datatype Outcome<T> = Done(value: T, next: nat) | Invalid | Stray

  // ---- The encoder

  /** A count field holds 32 bits. */
  function Count(n: nat): (w: word)
    ensures n < U32 ==> w == n
  {
    n % U32
  }

  function Concat<T>(xs: seq<T>, enc: T -> seq<word>): seq<word> {
    if xs == [] then [] else enc(xs[0]) + Concat(xs[1..], enc)
  }

  function SubHead(d: SubDesc): (h: seq<word>)
    ensures |h| == 12
  {
    [d.offset, d.size, d.tensorType, d.id, d.dtype, d.layout, d.n, d.h, d.w, d.c, d.addrMask,
     Count(|d.roOffsets|)]
  }

  function StaticHead(d: StaticDesc): (h: seq<word>)
    ensures |h| == 4
  {
    [d.offsetInFile, d.size, d.alignBytes, Count(|d.subs|)]
  }

  function ReuseHead(d: ReuseDesc): (h: seq<word>)
    ensures |h| == 3
  {
    [d.size, d.alignBytes, Count(|d.subs|)]
  }

  function EncodeWord(w: word): seq<word> {
    [w]
  }

  function EncodeSub(d: SubDesc): seq<word> {
    SubHead(d) + Concat(d.roOffsets, EncodeWord)
  }

  function EncodeStatic(d: StaticDesc): seq<word> {
    StaticHead(d) + Concat(d.subs, EncodeSub)
  }

  function EncodeReuse(d: ReuseDesc): seq<word> {
    ReuseHead(d) + Concat(d.subs, EncodeSub)
  }

  function EncodeNode(d: Node): seq<word> {
    [d.nodeType, d.nextAddrEntryOffset, d.nextType, d.nextOffset]
  }

  /** The writers of the three tables; a parameter, so that the way the tables are put
      together does not depend on what is in them. */
  datatype Writers = Writers(ofStatic: StaticDesc -> seq<word>, ofReuse: ReuseDesc -> seq<word>,
                             ofNode: Node -> seq<word>)

  function V3(): Writers {
    Writers(EncodeStatic, EncodeReuse, EncodeNode)
  }

  function Header(b: Bss): (h: seq<word>)
    ensures |h| == 4
  {
    [b.stackSize, b.stackAlignBytes, Count(|b.statics|), Count(|b.reuses|)]
  }

  function CountWord(b: Bss, linked: bool): seq<word> {
    if linked then [Count(|b.nodes|)] else []
  }

  function ListWords(v: Writers, b: Bss, linked: bool): seq<word> {
    if linked then Concat(b.nodes, v.ofNode) else []
  }

  /** Header, section tables and node count: everything the parser reads under its bound. */
  function EncodeSections(v: Writers, b: Bss, linked: bool): seq<word> {
    Header(b) + Concat(b.statics, v.ofStatic) + Concat(b.reuses, v.ofReuse) + CountWord(b, linked)
  }

  function EncodeBy(v: Writers, b: Bss, linked: bool): seq<word> {
    EncodeSections(v, b, linked) + ListWords(v, b, linked)
  }

  function Encode(b: Bss, linked: bool): seq<word> {
    EncodeBy(V3(), b, linked)
  }

  /** Number of words the parser reads under its bound. */
  function CheckedWords(b: Bss, linked: bool): nat {
    |EncodeSections(V3(), b, linked)|
  }

  predicate CountsFit(subs: seq<SubDesc>) {
    |subs| < U32 && forall d | d in subs :: |d.roOffsets| < U32
  }

  predicate StaticFits(d: StaticDesc) {
    CountsFit(d.subs)
  }

  predicate ReuseFits(d: ReuseDesc) {
    CountsFit(d.subs)
  }

  predicate TablesFit(b: Bss, linked: bool) {
    |b.statics| < U32 && |b.reuses| < U32 && |b.nodes| < U32 && (linked <==> b.nodes != [])
  }

  /** What the format can express: all counts fit their fields, and the parts the parser
      insists on are there. */
  predicate WellFormed(b: Bss, linked: bool) {
    && b.stackSize != 0 && b.stackAlignBytes != 0 && b.reuses != [] && TablesFit(b, linked)
    && (forall d | d in b.statics :: StaticFits(d))
    && (forall d | d in b.reuses :: ReuseFits(d))
  }

  // ---- The decoder

  /** The pointer check: the read ends strictly below header plus declared size. */
  predicate Within(src: Source, end: nat) {
    4 * end < 16 + src.bssSize
  }

  function Mapped(src: Source, at: nat, n: nat): Outcome<seq<word>> {
    if at + n <= |src.mem| then Done(src.mem[at..at + n], at + n) else Stray
  }

  function Take(src: Source, at: nat, n: nat): (o: Outcome<seq<word>>)
    ensures o.Done? ==> |o.value| == n
  {
    if Within(src, at + n) then Mapped(src, at, n) else Invalid
  }

  function Prefixed<T>(xs: seq<T>, o: Outcome<seq<T>>): Outcome<seq<T>> {
    match o
    case Done(ys, next) => Done(xs + ys, next)
    case Invalid => Invalid
    case Stray => Stray
  }

  /** `cnt` items, one behind the other. */
  function Many<T>(one: nat -> Outcome<T>, at: nat, cnt: nat): Outcome<seq<T>>
    decreases cnt
  {
    if cnt == 0 then Done([], at)
    else match one(at)
      case Done(x, next) => Prefixed([x], Many(one, next, cnt - 1))
      case Invalid => Invalid
      case Stray => Stray
  }

  /** `n` header words whose last one counts the items behind them. */
  function Record<T>(src: Source, n: nat, one: nat -> Outcome<T>, at: nat): (o: Outcome<(seq<word>, seq<T>)>)
    requires n > 0
    ensures o.Done? ==> |o.value.0| == n
  {
    match Take(src, at, n)
    case Invalid => Invalid
    case Stray => Stray
    case Done(head, next) =>
      match Many(one, next, head[n - 1])
      case Done(xs, end) => Done((head, xs), end)
      case Invalid => Invalid
      case Stray => Stray
  }

  function DecodeWord(src: Source, at: nat): Outcome<word> {
    match Take(src, at, 1)
    case Done(w, next) => Done(w[0], next)
    case Invalid => Invalid
    case Stray => Stray
  }

  function WordAt(src: Source): nat -> Outcome<word> {
    (p: nat) => DecodeWord(src, p)
  }

  function SubFrom(src: Source, words: nat -> Outcome<word>, at: nat): Outcome<SubDesc> {
    match Record(src, 12, words, at)
    case Done((w, ro), end) =>
      Done(SubDesc(w[0], w[1], w[2], w[3], w[4], w[5], w[6], w[7], w[8], w[9], w[10], ro), end)
    case Invalid => Invalid
    case Stray => Stray
  }

  function DecodeSub(src: Source, at: nat): Outcome<SubDesc> {
    SubFrom(src, WordAt(src), at)
  }

  function SubAt(src: Source): nat -> Outcome<SubDesc> {
    (p: nat) => DecodeSub(src, p)
  }

  function StaticFrom(src: Source, subs: nat -> Outcome<SubDesc>, at: nat): Outcome<StaticDesc> {
    match Record(src, 4, subs, at)
    case Done((w, ds), end) => Done(StaticDesc(w[0], w[1], w[2], ds), end)
    case Invalid => Invalid
    case Stray => Stray
  }

  function DecodeStatic(src: Source, at: nat): Outcome<StaticDesc> {
    StaticFrom(src, SubAt(src), at)
  }

  function StaticAt(src: Source): nat -> Outcome<StaticDesc> {
    (p: nat) => DecodeStatic(src, p)
  }

  function ReuseFrom(src: Source, subs: nat -> Outcome<SubDesc>, at: nat): Outcome<ReuseDesc> {
    match Record(src, 3, subs, at)
    case Done((w, ds), end) => Done(ReuseDesc(w[0], w[1], ds), end)
    case Invalid => Invalid
    case Stray => Stray
  }

  function DecodeReuse(src: Source, at: nat): Outcome<ReuseDesc> {
    ReuseFrom(src, SubAt(src), at)
  }

  function ReuseAt(src: Source): nat -> Outcome<ReuseDesc> {
    (p: nat) => DecodeReuse(src, p)
  }

  /** List nodes are read without the pointer check. */
  function DecodeNode(src: Source, at: nat): Outcome<Node> {
    match Mapped(src, at, 4)
    case Done(w, next) => Done(Node(w[0], w[1], w[2], w[3]), next)
    case Invalid => Invalid
    case Stray => Stray
  }

  function NodeAt(src: Source): nat -> Outcome<Node> {
    (p: nat) => DecodeNode(src, p)
  }

  datatype Readers = Readers(ofWord: nat -> Outcome<word>, ofSub: nat -> Outcome<SubDesc>,
                             ofStatic: nat -> Outcome<StaticDesc>, ofReuse: nat -> Outcome<ReuseDesc>,
                             ofNode: nat -> Outcome<Node>)

  function V3At(src: Source): Readers {
    Readers(WordAt(src), SubAt(src), StaticAt(src), ReuseAt(src), NodeAt(src))
  }

  /** The node list, if the graph has one; an empty one is refused. */
  function DecodeList(src: Source, r: Readers, at: nat, linked: bool): Outcome<seq<Node>> {
    if !linked then Done([], at)
    else match Record(src, 1, r.ofNode, at)
      case Done((w, nodes), end) => if w[0] == 0 then Invalid else Done(nodes, end)
      case Invalid => Invalid
      case Stray => Stray
  }

  /** Everything behind the header, whose four fields are given. */
  function DecodeTables(src: Source, r: Readers, stackSize: word, stackAlign: word, staticCnt: nat, reuseCnt: nat,
                        linked: bool): Outcome<Bss>
  {
    match Many(r.ofStatic, 4, staticCnt)
    case Invalid => Invalid
    case Stray => Stray
    case Done(statics, at) =>
      match Many(r.ofReuse, at, reuseCnt)
      case Invalid => Invalid
      case Stray => Stray
      case Done(reuses, at') =>
        match DecodeList(src, r, at', linked)
        case Invalid => Invalid
        case Stray => Stray
        case Done(nodes, end) => Done(Bss(stackSize, stackAlign, statics, reuses, nodes), end)
  }

  function DecodeBy(src: Source, r: Readers, linked: bool): Outcome<Bss> {
    if |src.mem| < 4 then Stray
    else if src.mem[0] == 0 || src.mem[1] == 0 || src.mem[3] == 0 then Invalid
    else DecodeTables(src, r, src.mem[0], src.mem[1], src.mem[2], src.mem[3], linked)
  }

  function Decode(src: Source, linked: bool): Outcome<Bss> {
    DecodeBy(src, V3At(src), linked)
  }

  // ---- Decoding what was encoded

  ghost predicate At(src: Source, at: nat, e: seq<word>) {
    at + |e| <= |src.mem| && src.mem[at..at + |e|] == e
  }

  lemma AtSplit(src: Source, at: nat, e: seq<word>, f: seq<word>)
    ensures At(src, at, e + f) <==> At(src, at, e) && At(src, at + |e|, f)
  {
    if at + |e + f| <= |src.mem| {
      var m := src.mem[at..at + |e + f|];
      assert m == src.mem[at..at + |e|] + src.mem[at + |e|..at + |e + f|];
      if m == e + f {
        assert m[..|e|] == e && m[|e|..] == f;
      }
    }
  }

  /** The bound that applies: none for unchecked reads. */
  predicate Limit(src: Source, checked: bool, end: nat) {
    checked ==> Within(src, end)
  }

  /** From any position within the bound, `one` reads `x` off its encoding `e`, and is refused
      exactly if the encoding runs past the bound. */
  ghost predicate Reads<T>(src: Source, checked: bool, one: nat -> Outcome<T>, x: T, e: seq<word>) {
    forall at: nat | Limit(src, checked, at) && At(src, at, e) ::
      one(at) == if Limit(src, checked, at + |e|) then Done(x, at + |e|) else Invalid
  }

  ghost predicate AllRead<T>(src: Source, checked: bool, one: nat -> Outcome<T>, xs: seq<T>, enc: T -> seq<word>) {
    forall x | x in xs :: Reads(src, checked, one, x, enc(x))
  }

  lemma {:induction false} ManyReads<T>(src: Source, checked: bool, one: nat -> Outcome<T>, enc: T -> seq<word>,
                                        xs: seq<T>, at: nat)
    requires AllRead(src, checked, one, xs, enc)
    requires Limit(src, checked, at) && At(src, at, Concat(xs, enc))
    ensures var end := at + |Concat(xs, enc)|;
            Many(one, at, |xs|) == if Limit(src, checked, end) then Done(xs, end) else Invalid
  {
    if xs != [] {
      var x, rest := xs[0], xs[1..];
      var e := enc(x);
      var next := at + |e|;
      assert [x] + rest == xs && Concat(xs, enc) == e + Concat(rest, enc);
      assert At(src, at, e) && At(src, next, Concat(rest, enc)) by { AtSplit(src, at, e, Concat(rest, enc)); }
      assert one(at) == if Limit(src, checked, next) then Done(x, next) else Invalid by {
        OneReads(src, checked, one, x, e, at);
      }
      if Limit(src, checked, next) {
        assert AllRead(src, checked, one, rest, enc) by {
          assert forall y | y in rest :: y in xs;
        }
        ManyReads(src, checked, one, enc, rest, next);
      }
    }
  }

  lemma OneReads<T>(src: Source, checked: bool, one: nat -> Outcome<T>, x: T, e: seq<word>, at: nat)
    requires Reads(src, checked, one, x, e) && Limit(src, checked, at) && At(src, at, e)
    ensures one(at) == if Limit(src, checked, at + |e|) then Done(x, at + |e|) else Invalid
  {
  }

  lemma TakeReads(src: Source, at: nat, e: seq<word>)
    requires At(src, at, e)
    ensures Take(src, at, |e|) == if Within(src, at + |e|) then Done(e, at + |e|) else Invalid
  {
  }

  lemma RecordReads<T>(src: Source, checked: bool, one: nat -> Outcome<T>, enc: T -> seq<word>, head: seq<word>,
                       xs: seq<T>, at: nat)
    requires head != [] && head[|head| - 1] == |xs|
    requires AllRead(src, checked, one, xs, enc) && At(src, at, head + Concat(xs, enc))
    ensures var end := at + |head + Concat(xs, enc)|;
            Record(src, |head|, one, at) ==
            if Within(src, at + |head|) && Limit(src, checked, end) then Done((head, xs), end) else Invalid
  {
    AtSplit(src, at, head, Concat(xs, enc));
    TakeReads(src, at, head);
    var next := at + |head|;
    if Within(src, next) {
      assert Limit(src, checked, next);
      ManyReads(src, checked, one, enc, xs, next);
      assert Take(src, at, |head|) == Done(head, next);
    }
  }

  lemma WordReads(src: Source, w: word)
    ensures Reads(src, true, WordAt(src), w, EncodeWord(w))
  {
    forall at: nat | At(src, at, [w])
      ensures DecodeWord(src, at) == if Within(src, at + 1) then Done(w, at + 1) else Invalid
    {
      TakeReads(src, at, [w]);
    }
  }

  lemma SubReads(src: Source, d: SubDesc)
    requires |d.roOffsets| < U32
    ensures Reads(src, true, SubAt(src), d, EncodeSub(d))
  {
    forall w | w in d.roOffsets
      ensures Reads(src, true, WordAt(src), w, EncodeWord(w))
    {
      WordReads(src, w);
    }
    forall at: nat | At(src, at, EncodeSub(d))
      ensures SubAt(src)(at) ==
              if Within(src, at + |EncodeSub(d)|) then Done(d, at + |EncodeSub(d)|) else Invalid
    {
      SubReadsAt(src, d, at);
    }
  }

  lemma SubReadsAt(src: Source, d: SubDesc, at: nat)
    requires |d.roOffsets| < U32 && At(src, at, EncodeSub(d))
    requires AllRead(src, true, WordAt(src), d.roOffsets, EncodeWord)
    ensures SubAt(src)(at) ==
            if Within(src, at + |EncodeSub(d)|) then Done(d, at + |EncodeSub(d)|) else Invalid
  {
    RecordReads(src, true, WordAt(src), EncodeWord, SubHead(d), d.roOffsets, at);
  }

  lemma SubsRead(src: Source, subs: seq<SubDesc>)
    requires CountsFit(subs)
    ensures AllRead(src, true, SubAt(src), subs, EncodeSub)
  {
    forall d | d in subs
      ensures Reads(src, true, SubAt(src), d, EncodeSub(d))
    {
      SubReads(src, d);
    }
  }

  lemma StaticReads(src: Source, d: StaticDesc)
    requires StaticFits(d)
    ensures Reads(src, true, StaticAt(src), d, EncodeStatic(d))
  {
    SubsRead(src, d.subs);
    forall at: nat | At(src, at, EncodeStatic(d))
      ensures StaticAt(src)(at) ==
              if Within(src, at + |EncodeStatic(d)|) then Done(d, at + |EncodeStatic(d)|) else Invalid
    {
      StaticReadsAt(src, d, at);
    }
  }

  lemma StaticReadsAt(src: Source, d: StaticDesc, at: nat)
    requires StaticFits(d) && AllRead(src, true, SubAt(src), d.subs, EncodeSub) && At(src, at, EncodeStatic(d))
    ensures StaticAt(src)(at) ==
            if Within(src, at + |EncodeStatic(d)|) then Done(d, at + |EncodeStatic(d)|) else Invalid
  {
    RecordReads(src, true, SubAt(src), EncodeSub, StaticHead(d), d.subs, at);
  }

  lemma ReuseReads(src: Source, d: ReuseDesc)
    requires ReuseFits(d)
    ensures Reads(src, true, ReuseAt(src), d, EncodeReuse(d))
  {
    SubsRead(src, d.subs);
    forall at: nat | At(src, at, EncodeReuse(d))
      ensures ReuseAt(src)(at) ==
              if Within(src, at + |EncodeReuse(d)|) then Done(d, at + |EncodeReuse(d)|) else Invalid
    {
      ReuseReadsAt(src, d, at);
    }
  }

  lemma ReuseReadsAt(src: Source, d: ReuseDesc, at: nat)
    requires ReuseFits(d) && AllRead(src, true, SubAt(src), d.subs, EncodeSub) && At(src, at, EncodeReuse(d))
    ensures ReuseAt(src)(at) ==
            if Within(src, at + |EncodeReuse(d)|) then Done(d, at + |EncodeReuse(d)|) else Invalid
  {
    RecordReads(src, true, SubAt(src), EncodeSub, ReuseHead(d), d.subs, at);
  }

  lemma NodeReads(src: Source, d: Node)
    ensures Reads(src, false, NodeAt(src), d, EncodeNode(d))
  {
  }

  // ---- Putting the tables together, for any readers and writers that fit each other

  ghost predicate Match(src: Source, r: Readers, v: Writers, b: Bss) {
    && AllRead(src, true, r.ofStatic, b.statics, v.ofStatic)
    && AllRead(src, true, r.ofReuse, b.reuses, v.ofReuse)
    && AllRead(src, false, r.ofNode, b.nodes, v.ofNode)
  }

  function StaticsEnd(v: Writers, b: Bss): nat {
    4 + |Concat(b.statics, v.ofStatic)|
  }

  function ReusesEnd(v: Writers, b: Bss): nat {
    StaticsEnd(v, b) + |Concat(b.reuses, v.ofReuse)|
  }

  function ListEnd(v: Writers, b: Bss, linked: bool): nat {
    ReusesEnd(v, b) + |CountWord(b, linked)| + |ListWords(v, b, linked)|
  }

  /** The parts of an encoding, where they lie in the mapped memory. */
  ghost predicate PartsAt(src: Source, v: Writers, b: Bss, linked: bool) {
    && At(src, 0, Header(b)) && At(src, 4, Concat(b.statics, v.ofStatic))
    && At(src, StaticsEnd(v, b), Concat(b.reuses, v.ofReuse))
    && At(src, ReusesEnd(v, b), CountWord(b, linked) + ListWords(v, b, linked))
  }

  lemma EncodingParts(src: Source, v: Writers, b: Bss, linked: bool)
    ensures At(src, 0, EncodeBy(v, b, linked)) <==> PartsAt(src, v, b, linked)
    ensures |EncodeSections(v, b, linked)| == ReusesEnd(v, b) + |CountWord(b, linked)|
    ensures |EncodeBy(v, b, linked)| == ListEnd(v, b, linked)
  {
    var st, re := Concat(b.statics, v.ofStatic), Concat(b.reuses, v.ofReuse);
    var list := CountWord(b, linked) + ListWords(v, b, linked);
    var all := Header(b) + st + re + list;
    assert EncodeBy(v, b, linked) == all && |all| == 4 + |st| + |re| + |list|;
    FourAt(src, Header(b), st, re, list);
  }

  lemma FourAt(src: Source, h: seq<word>, st: seq<word>, re: seq<word>, list: seq<word>)
    ensures At(src, 0, h + st + re + list) <==>
            && At(src, 0, h) && At(src, |h|, st) && At(src, |h| + |st|, re) && At(src, |h| + |st| + |re|, list)
  {
    AtSplit(src, 0, h + st + re, list);
    AtSplit(src, 0, h + st, re);
    AtSplit(src, 0, h, st);
  }

  lemma ListReads(src: Source, r: Readers, v: Writers, b: Bss, linked: bool)
    requires TablesFit(b, linked) && AllRead(src, false, r.ofNode, b.nodes, v.ofNode)
    requires Within(src, ReusesEnd(v, b)) && PartsAt(src, v, b, linked)
    ensures DecodeList(src, r, ReusesEnd(v, b), linked) ==
            if Within(src, ReusesEnd(v, b) + |CountWord(b, linked)|) then Done(b.nodes, ListEnd(v, b, linked))
            else Invalid
  {
    if linked {
      RecordReads(src, false, r.ofNode, v.ofNode, [Count(|b.nodes|)], b.nodes, ReusesEnd(v, b));
    }
  }

  lemma TablesRead(src: Source, r: Readers, v: Writers, b: Bss, linked: bool)
    requires TablesFit(b, linked) && src.bssSize > 0 && Match(src, r, v, b) && PartsAt(src, v, b, linked)
    ensures DecodeTables(src, r, b.stackSize, b.stackAlignBytes, |b.statics|, |b.reuses|, linked) ==
            if Within(src, ReusesEnd(v, b) + |CountWord(b, linked)|) then Done(b, ListEnd(v, b, linked))
            else Invalid
  {
    ManyReads(src, true, r.ofStatic, v.ofStatic, b.statics, 4);
    if Within(src, StaticsEnd(v, b)) {
      ManyReads(src, true, r.ofReuse, v.ofReuse, b.reuses, StaticsEnd(v, b));
    }
    if Within(src, ReusesEnd(v, b)) {
      ListReads(src, r, v, b, linked);
    }
    TablesByParts(src, r, b, linked, StaticsEnd(v, b), ReusesEnd(v, b),
                  ReusesEnd(v, b) + |CountWord(b, linked)|, ListEnd(v, b, linked));
  }

  /** How the three tables compose, wherever they end. */
  lemma TablesByParts(src: Source, r: Readers, b: Bss, linked: bool, e1: nat, e2: nat, e3: nat, end: nat)
    requires e1 <= e2 <= e3
    requires Many(r.ofStatic, 4, |b.statics|) == if Within(src, e1) then Done(b.statics, e1) else Invalid
    requires Within(src, e1) ==>
               Many(r.ofReuse, e1, |b.reuses|) == if Within(src, e2) then Done(b.reuses, e2) else Invalid
    requires Within(src, e2) ==>
               DecodeList(src, r, e2, linked) == if Within(src, e3) then Done(b.nodes, end) else Invalid
    ensures DecodeTables(src, r, b.stackSize, b.stackAlignBytes, |b.statics|, |b.reuses|, linked) ==
            if Within(src, e3) then Done(b, end) else Invalid
  {
  }

  lemma HeaderWords(src: Source, b: Bss)
    requires |b.statics| < U32 && |b.reuses| < U32 && At(src, 0, Header(b))
    ensures src.mem[0] == b.stackSize && src.mem[1] == b.stackAlignBytes
    ensures src.mem[2] == |b.statics| && src.mem[3] == |b.reuses|
  {
    assert forall k | 0 <= k < 4 :: src.mem[k] == src.mem[0..4][k];
  }

  lemma ReadBack(src: Source, r: Readers, v: Writers, b: Bss, linked: bool)
    requires b.stackSize != 0 && b.stackAlignBytes != 0 && b.reuses != [] && TablesFit(b, linked)
    requires src.bssSize > 0 && Match(src, r, v, b) && At(src, 0, EncodeBy(v, b, linked))
    ensures DecodeBy(src, r, linked) ==
            if Within(src, |EncodeSections(v, b, linked)|) then Done(b, |EncodeBy(v, b, linked)|) else Invalid
  {
    EncodingParts(src, v, b, linked);
    HeaderWords(src, b);
    TablesRead(src, r, v, b, linked);
  }

  lemma V3Matches(src: Source, b: Bss, linked: bool)
    requires WellFormed(b, linked)
    ensures Match(src, V3At(src), V3(), b)
  {
    forall d | d in b.statics
      ensures Reads(src, true, StaticAt(src), d, EncodeStatic(d))
    {
      StaticReads(src, d);
    }
    forall d | d in b.reuses
      ensures Reads(src, true, ReuseAt(src), d, EncodeReuse(d))
    {
      ReuseReads(src, d);
    }
    forall d | d in b.nodes
      ensures Reads(src, false, NodeAt(src), d, EncodeNode(d))
    {
      NodeReads(src, d);
    }
  }

  /** The parser is a left inverse of the format, and refuses an encoding exactly if the part
      it reads under its bound does not end below header plus declared size. */
  lemma RoundTrip(src: Source, b: Bss, linked: bool)
    requires WellFormed(b, linked) && src.bssSize > 0 && At(src, 0, Encode(b, linked))
    ensures Decode(src, linked) ==
            if Within(src, CheckedWords(b, linked)) then Done(b, |Encode(b, linked)|) else Invalid
  {
    V3Matches(src, b, linked);
    ReadBack(src, V3At(src), V3(), b, linked);
  }

  /** An encoding that lies inside the declared bss section is always accepted. */
  lemma FittingIsAccepted(src: Source, b: Bss, linked: bool)
    requires WellFormed(b, linked) && At(src, 0, Encode(b, linked))
    requires 4 * |Encode(b, linked)| <= src.bssSize
    ensures Decode(src, linked) == Done(b, |Encode(b, linked)|)
  {
    RoundTrip(src, b, linked);
  }

  // ---- Whatever is accepted is an encoding

  /** Whatever `one` reads is the encoding of its result, is `ok`, and ends within the bound. */
  ghost predicate Inverts<T>(src: Source, checked: bool, one: nat -> Outcome<T>, enc: T -> seq<word>, ok: T -> bool) {
    forall at: nat | Limit(src, checked, at) && one(at).Done? :: InvertsAt(src, checked, one(at), enc, ok, at)
  }

  ghost predicate InvertsAt<T>(src: Source, checked: bool, o: Outcome<T>, enc: T -> seq<word>, ok: T -> bool, at: nat)
    requires o.Done?
  {
    && ok(o.value) && o.next == at + |enc(o.value)|
    && At(src, at, enc(o.value)) && Limit(src, checked, o.next)
  }

  lemma {:induction false} ManyInverts<T>(src: Source, checked: bool, one: nat -> Outcome<T>, enc: T -> seq<word>,
                                          ok: T -> bool, at: nat, cnt: nat)
    requires Inverts(src, checked, one, enc, ok) && at <= |src.mem| && Limit(src, checked, at)
    requires Many(one, at, cnt).Done?
    ensures var o := Many(one, at, cnt);
            && |o.value| == cnt && (forall x | x in o.value :: ok(x))
            && o.next == at + |Concat(o.value, enc)| && At(src, at, Concat(o.value, enc))
            && Limit(src, checked, o.next)
    decreases cnt
  {
    if cnt > 0 {
      var x, next := one(at).value, one(at).next;
      assert InvertsAt(src, checked, one(at), enc, ok, at);
      ManyInverts(src, checked, one, enc, ok, next, cnt - 1);
      var rest := Many(one, next, cnt - 1).value;
      assert ([x] + rest)[1..] == rest;
      AtSplit(src, at, enc(x), Concat(rest, enc));
    }
  }

  lemma RecordInverts<T>(src: Source, checked: bool, one: nat -> Outcome<T>, enc: T -> seq<word>, ok: T -> bool,
                         n: nat, at: nat)
    requires n > 0 && Inverts(src, checked, one, enc, ok) && Record(src, n, one, at).Done?
    ensures var o := Record(src, n, one, at);
            var (head, xs) := o.value;
            && |head| == n && head[n - 1] == |xs| && (forall x | x in xs :: ok(x))
            && At(src, at, head + Concat(xs, enc)) && o.next == at + n + |Concat(xs, enc)|
            && Within(src, at + n) && Limit(src, checked, o.next)
  {
    var head := Take(src, at, n).value;
    ManyInverts(src, checked, one, enc, ok, at + n, head[n - 1]);
    AtSplit(src, at, head, Concat(Many(one, at + n, head[n - 1]).value, enc));
  }

  function Always<T>(): T -> bool {
    (x: T) => true
  }

  function RoFits(): SubDesc -> bool {
    (d: SubDesc) => |d.roOffsets| < U32
  }

  lemma WordsInvert(src: Source)
    ensures Inverts(src, true, WordAt(src), EncodeWord, Always<word>())
  {
  }

  lemma SubsInvert(src: Source)
    ensures Inverts(src, true, SubAt(src), EncodeSub, RoFits())
  {
    WordsInvert(src);
    forall at: nat | DecodeSub(src, at).Done?
      ensures InvertsAt(src, true, DecodeSub(src, at), EncodeSub, RoFits(), at)
    {
      RecordInverts(src, true, WordAt(src), EncodeWord, Always<word>(), 12, at);
      SameSubHead(DecodeSub(src, at).value, Record(src, 12, WordAt(src), at).value.0);
    }
  }

  lemma SameSubHead(d: SubDesc, w: seq<word>)
    requires |w| == 12 && |d.roOffsets| == w[11]
    requires d == SubDesc(w[0], w[1], w[2], w[3], w[4], w[5], w[6], w[7], w[8], w[9], w[10], d.roOffsets)
    ensures SubHead(d) == w
  {
  }

  lemma SubRecord(src: Source, n: nat, at: nat)
    requires n > 0 && Record(src, n, SubAt(src), at).Done?
    ensures var o := Record(src, n, SubAt(src), at);
            var (head, subs) := o.value;
            && |head| == n && head[n - 1] == |subs| && CountsFit(subs)
            && At(src, at, head + Concat(subs, EncodeSub)) && o.next == at + n + |Concat(subs, EncodeSub)|
            && Within(src, o.next)
  {
    SubsInvert(src);
    RecordInverts(src, true, SubAt(src), EncodeSub, RoFits(), n, at);
    assert forall d | d in Record(src, n, SubAt(src), at).value.1 :: RoFits()(d);
  }

  lemma StaticInverts(src: Source, at: nat)
    requires DecodeStatic(src, at).Done?
    ensures InvertsAt(src, true, DecodeStatic(src, at), EncodeStatic, StaticFits, at)
  {
    SubRecord(src, 4, at);
    assert StaticHead(DecodeStatic(src, at).value) == Record(src, 4, SubAt(src), at).value.0;
  }

  lemma ReuseInverts(src: Source, at: nat)
    requires DecodeReuse(src, at).Done?
    ensures InvertsAt(src, true, DecodeReuse(src, at), EncodeReuse, ReuseFits, at)
  {
    SubRecord(src, 3, at);
    assert ReuseHead(DecodeReuse(src, at).value) == Record(src, 3, SubAt(src), at).value.0;
  }

  lemma NodeInverts(src: Source, at: nat)
    requires DecodeNode(src, at).Done?
    ensures InvertsAt(src, false, DecodeNode(src, at), EncodeNode, Always<Node>(), at)
  {
    assert EncodeNode(DecodeNode(src, at).value) == src.mem[at..at + 4];
  }

  ghost predicate Faithful(src: Source, r: Readers, v: Writers) {
    && Inverts(src, true, r.ofStatic, v.ofStatic, StaticFits)
    && Inverts(src, true, r.ofReuse, v.ofReuse, ReuseFits)
    && Inverts(src, false, r.ofNode, v.ofNode, Always<Node>())
  }

  lemma V3IsFaithful(src: Source)
    ensures Faithful(src, V3At(src), V3())
  {
    forall at: nat | StaticAt(src)(at).Done?
      ensures InvertsAt(src, true, StaticAt(src)(at), EncodeStatic, StaticFits, at)
    {
      StaticInverts(src, at);
    }
    forall at: nat | ReuseAt(src)(at).Done?
      ensures InvertsAt(src, true, ReuseAt(src)(at), EncodeReuse, ReuseFits, at)
    {
      ReuseInverts(src, at);
    }
    forall at: nat | NodeAt(src)(at).Done?
      ensures InvertsAt(src, false, NodeAt(src)(at), EncodeNode, Always<Node>(), at)
    {
      NodeInverts(src, at);
    }
  }

  lemma ListInverts(src: Source, r: Readers, v: Writers, at: nat, linked: bool, b: Bss, end: nat)
    requires Faithful(src, r, v) && at <= |src.mem| && Within(src, at)
    requires DecodeList(src, r, at, linked) == Done(b.nodes, end)
    ensures (linked <==> b.nodes != []) && |b.nodes| < U32
    ensures At(src, at, CountWord(b, linked) + ListWords(v, b, linked))
    ensures Within(src, at + |CountWord(b, linked)|)
    ensures end == at + |CountWord(b, linked)| + |ListWords(v, b, linked)|
  {
    if linked {
      RecordInverts(src, false, r.ofNode, v.ofNode, Always<Node>(), 1, at);
      assert Record(src, 1, r.ofNode, at).value.0 == [Count(|b.nodes|)];
    }
  }

  lemma TablesInvert(src: Source, r: Readers, v: Writers, b: Bss, staticCnt: nat, reuseCnt: nat, linked: bool, end: nat)
    requires Faithful(src, r, v) && |src.mem| >= 4 && src.bssSize > 0
    requires DecodeTables(src, r, b.stackSize, b.stackAlignBytes, staticCnt, reuseCnt, linked) == Done(b, end)
    ensures At(src, 4, Concat(b.statics, v.ofStatic)) && At(src, StaticsEnd(v, b), Concat(b.reuses, v.ofReuse))
    ensures At(src, ReusesEnd(v, b), CountWord(b, linked) + ListWords(v, b, linked))
    ensures |b.statics| == staticCnt && |b.reuses| == reuseCnt && |b.nodes| < U32 && (linked <==> b.nodes != [])
    ensures (forall d | d in b.statics :: StaticFits(d)) && (forall d | d in b.reuses :: ReuseFits(d))
    ensures Within(src, ReusesEnd(v, b) + |CountWord(b, linked)|) && end == ListEnd(v, b, linked)
  {
    var s := Many(r.ofStatic, 4, staticCnt);
    assert s.Done? && s.value == b.statics;
    ManyInverts(src, true, r.ofStatic, v.ofStatic, StaticFits, 4, staticCnt);
    assert s.next == StaticsEnd(v, b);
    var u := Many(r.ofReuse, s.next, reuseCnt);
    assert u.Done? && u.value == b.reuses;
    ManyInverts(src, true, r.ofReuse, v.ofReuse, ReuseFits, s.next, reuseCnt);
    assert u.next == ReusesEnd(v, b) && DecodeList(src, r, u.next, linked) == Done(b.nodes, end);
    ListInverts(src, r, v, ReusesEnd(v, b), linked, b, end);
  }

  lemma AcceptedBy(src: Source, r: Readers, v: Writers, linked: bool)
    requires Faithful(src, r, v) && src.bssSize > 0 && DecodeBy(src, r, linked).Done?
    ensures var o := DecodeBy(src, r, linked);
            && WellFormed(o.value, linked) && At(src, 0, EncodeBy(v, o.value, linked))
            && o.next == |EncodeBy(v, o.value, linked)| && Within(src, |EncodeSections(v, o.value, linked)|)
  {
    var b := DecodeBy(src, r, linked).value;
    TablesInvert(src, r, v, b, src.mem[2], src.mem[3], linked, DecodeBy(src, r, linked).next);
    assert Header(b) == src.mem[0..4];
    EncodingParts(src, v, b, linked);
  }

  /** Every accepted binary is the encoding of what the parser returns, and the part read
      under the bound ends within it. */
  lemma AcceptedIsEncoding(src: Source, linked: bool)
    requires src.bssSize > 0 && Decode(src, linked).Done?
    ensures var o := Decode(src, linked);
            && WellFormed(o.value, linked) && At(src, 0, Encode(o.value, linked))
            && o.next == |Encode(o.value, linked)| && Within(src, CheckedWords(o.value, linked))
  {
    V3IsFaithful(src);
    AcceptedBy(src, V3At(src), V3(), linked);
  }

  /** The parser returns `b` exactly for the encodings of well-formed graphs whose checked
      part lies within the bound. */
  lemma AcceptsExactly(src: Source, b: Bss, linked: bool)
    requires src.bssSize > 0
    ensures (exists n :: Decode(src, linked) == Done(b, n)) <==>
            WellFormed(b, linked) && At(src, 0, Encode(b, linked)) && Within(src, CheckedWords(b, linked))
  {
    if exists n :: Decode(src, linked) == Done(b, n) {
      AcceptedIsEncoding(src, linked);
    } else if WellFormed(b, linked) && At(src, 0, Encode(b, linked)) {
      RoundTrip(src, b, linked);
    }
  }
}
