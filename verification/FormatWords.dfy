/** The graph format word by word: at which word of the bss section each field lies, without
    reference to the encoder, and that the parser accepts exactly the sections laid out so. */
module FormatWords {
  import opened Words
  import opened GraphFormat

  // ---- Sizes in words

  function SubsSize(subs: seq<SubDesc>): nat {
    if subs == [] then 0 else 12 + |subs[0].roOffsets| + SubsSize(subs[1..])
  }

  function StaticsSize(ds: seq<StaticDesc>): nat {
    if ds == [] then 0 else 4 + SubsSize(ds[0].subs) + StaticsSize(ds[1..])
  }

  function ReusesSize(ds: seq<ReuseDesc>): nat {
    if ds == [] then 0 else 3 + SubsSize(ds[0].subs) + ReusesSize(ds[1..])
  }

  /** Header, section tables and node count: what is read under the bound. */
  function CheckedSize(b: Bss, linked: bool): nat {
    4 + StaticsSize(b.statics) + ReusesSize(b.reuses) + (if linked then 1 else 0)
  }

  // ---- Where the fields lie

  ghost predicate SubLies(m: seq<word>, at: nat, d: SubDesc) {
    && at + 12 + |d.roOffsets| <= |m|
    && m[at] == d.offset && m[at + 1] == d.size && m[at + 2] == d.tensorType && m[at + 3] == d.id
    && m[at + 4] == d.dtype && m[at + 5] == d.layout
    && m[at + 6] == d.n && m[at + 7] == d.h && m[at + 8] == d.w && m[at + 9] == d.c
    && m[at + 10] == d.addrMask && m[at + 11] == |d.roOffsets|
    && forall i | 0 <= i < |d.roOffsets| :: m[at + 12 + i] == d.roOffsets[i]
  }

  ghost predicate SubsLie(m: seq<word>, at: nat, subs: seq<SubDesc>)
    decreases |subs|
  {
    if subs == [] then at <= |m|
    else SubLies(m, at, subs[0]) && SubsLie(m, at + 12 + |subs[0].roOffsets|, subs[1..])
  }

  ghost predicate StaticLies(m: seq<word>, at: nat, d: StaticDesc) {
    && at + 4 <= |m|
    && m[at] == d.offsetInFile && m[at + 1] == d.size && m[at + 2] == d.alignBytes && m[at + 3] == |d.subs|
    && SubsLie(m, at + 4, d.subs)
  }

  ghost predicate StaticsLie(m: seq<word>, at: nat, ds: seq<StaticDesc>)
    decreases |ds|
  {
    if ds == [] then at <= |m|
    else StaticLies(m, at, ds[0]) && StaticsLie(m, at + 4 + SubsSize(ds[0].subs), ds[1..])
  }

  ghost predicate ReuseLies(m: seq<word>, at: nat, d: ReuseDesc) {
    && at + 3 <= |m|
    && m[at] == d.size && m[at + 1] == d.alignBytes && m[at + 2] == |d.subs|
    && SubsLie(m, at + 3, d.subs)
  }

  ghost predicate ReusesLie(m: seq<word>, at: nat, ds: seq<ReuseDesc>)
    decreases |ds|
  {
    if ds == [] then at <= |m|
    else ReuseLies(m, at, ds[0]) && ReusesLie(m, at + 3 + SubsSize(ds[0].subs), ds[1..])
  }

  ghost predicate NodeLies(m: seq<word>, at: nat, n: Node) {
    && at + 4 <= |m|
    && m[at] == n.nodeType && m[at + 1] == n.nextAddrEntryOffset && m[at + 2] == n.nextType
    && m[at + 3] == n.nextOffset
  }

  ghost predicate NodesLie(m: seq<word>, at: nat, ns: seq<Node>)
    decreases |ns|
  {
    if ns == [] then at <= |m| else NodeLies(m, at, ns[0]) && NodesLie(m, at + 4, ns[1..])
  }

  ghost predicate HeaderLies(m: seq<word>, b: Bss) {
    && |m| >= 4
    && m[0] == b.stackSize && m[1] == b.stackAlignBytes && m[2] == |b.statics| && m[3] == |b.reuses|
  }

  ghost predicate ListLies(m: seq<word>, at: nat, ns: seq<Node>) {
    at < |m| && m[at] == |ns| && NodesLie(m, at + 1, ns)
  }

  ghost predicate GraphLies(m: seq<word>, b: Bss, linked: bool) {
    var reuses := 4 + StaticsSize(b.statics);
    var list := reuses + ReusesSize(b.reuses);
    && HeaderLies(m, b) && StaticsLie(m, 4, b.statics) && ReusesLie(m, reuses, b.reuses)
    && (linked ==> ListLies(m, list, b.nodes))
  }

  // ---- The encoder puts them there

  /** `e` lies at `at` exactly if each of its words does. */
  lemma AtByWord(src: Source, at: nat, e: seq<word>)
    ensures At(src, at, e) <==> at + |e| <= |src.mem| && forall i | 0 <= i < |e| :: src.mem[at + i] == e[i]
  {
    if at + |e| <= |src.mem| {
      var w := src.mem[at..at + |e|];
      assert forall i | 0 <= i < |e| :: w[i] == src.mem[at + i];
    }
  }

  lemma {:induction false} WordsConcat(ws: seq<word>)
    ensures Concat(ws, EncodeWord) == ws
  {
    if ws != [] {
      WordsConcat(ws[1..]);
    }
  }

  lemma SubWords(src: Source, at: nat, d: SubDesc)
    ensures |EncodeSub(d)| == 12 + |d.roOffsets|
    ensures |d.roOffsets| < U32 ==> (At(src, at, EncodeSub(d)) <==> SubLies(src.mem, at, d))
  {
    WordsConcat(d.roOffsets);
    AtSplit(src, at, SubHead(d), d.roOffsets);
    SubHeadWords(src, at, d);
    AtByWord(src, at + 12, d.roOffsets);
  }

  lemma SubHeadWords(src: Source, at: nat, d: SubDesc)
    ensures At(src, at, SubHead(d)) <==>
            && at + 12 <= |src.mem|
            && src.mem[at] == d.offset && src.mem[at + 1] == d.size && src.mem[at + 2] == d.tensorType
            && src.mem[at + 3] == d.id && src.mem[at + 4] == d.dtype && src.mem[at + 5] == d.layout
            && src.mem[at + 6] == d.n && src.mem[at + 7] == d.h && src.mem[at + 8] == d.w && src.mem[at + 9] == d.c
            && src.mem[at + 10] == d.addrMask && src.mem[at + 11] == Count(|d.roOffsets|)
  {
    if at + 12 <= |src.mem| {
      var w := src.mem[at..at + 12];
      assert w == [src.mem[at], src.mem[at + 1], src.mem[at + 2], src.mem[at + 3], src.mem[at + 4], src.mem[at + 5],
                   src.mem[at + 6], src.mem[at + 7], src.mem[at + 8], src.mem[at + 9], src.mem[at + 10],
                   src.mem[at + 11]];
    }
  }

  lemma {:induction false} SubsWords(src: Source, at: nat, subs: seq<SubDesc>)
    requires forall d | d in subs :: |d.roOffsets| < U32
    ensures |Concat(subs, EncodeSub)| == SubsSize(subs)
    ensures At(src, at, Concat(subs, EncodeSub)) <==> SubsLie(src.mem, at, subs)
    decreases |subs|
  {
    if subs != [] {
      var d, rest := subs[0], subs[1..];
      var e, es, next := EncodeSub(d), Concat(rest, EncodeSub), at + 12 + |d.roOffsets|;
      assert Concat(subs, EncodeSub) == e + es;
      assert |e| == 12 + |d.roOffsets| && (At(src, at, e) <==> SubLies(src.mem, at, d)) by { SubWords(src, at, d); }
      SubsWords(src, next, rest);
      AtSplit(src, at, e, es);
    }
  }

  lemma StaticWords(src: Source, at: nat, d: StaticDesc)
    requires StaticFits(d)
    ensures |EncodeStatic(d)| == 4 + SubsSize(d.subs)
    ensures At(src, at, EncodeStatic(d)) <==> StaticLies(src.mem, at, d)
  {
    SubsWords(src, at + 4, d.subs);
    AtSplit(src, at, StaticHead(d), Concat(d.subs, EncodeSub));
    StaticHeadWords(src, at, d);
  }

  lemma StaticHeadWords(src: Source, at: nat, d: StaticDesc)
    ensures At(src, at, StaticHead(d)) <==>
            && at + 4 <= |src.mem| && src.mem[at] == d.offsetInFile && src.mem[at + 1] == d.size
            && src.mem[at + 2] == d.alignBytes && src.mem[at + 3] == Count(|d.subs|)
  {
    if at + 4 <= |src.mem| {
      assert src.mem[at..at + 4] == [src.mem[at], src.mem[at + 1], src.mem[at + 2], src.mem[at + 3]];
    }
  }

  lemma ReuseWords(src: Source, at: nat, d: ReuseDesc)
    requires ReuseFits(d)
    ensures |EncodeReuse(d)| == 3 + SubsSize(d.subs)
    ensures At(src, at, EncodeReuse(d)) <==> ReuseLies(src.mem, at, d)
  {
    SubsWords(src, at + 3, d.subs);
    AtSplit(src, at, ReuseHead(d), Concat(d.subs, EncodeSub));
    ReuseHeadWords(src, at, d);
  }

  lemma ReuseHeadWords(src: Source, at: nat, d: ReuseDesc)
    ensures At(src, at, ReuseHead(d)) <==>
            && at + 3 <= |src.mem| && src.mem[at] == d.size && src.mem[at + 1] == d.alignBytes
            && src.mem[at + 2] == Count(|d.subs|)
  {
    if at + 3 <= |src.mem| {
      assert src.mem[at..at + 3] == [src.mem[at], src.mem[at + 1], src.mem[at + 2]];
    }
  }

  lemma {:induction false} StaticsWords(src: Source, at: nat, ds: seq<StaticDesc>)
    requires forall d | d in ds :: StaticFits(d)
    ensures |Concat(ds, EncodeStatic)| == StaticsSize(ds)
    ensures At(src, at, Concat(ds, EncodeStatic)) <==> StaticsLie(src.mem, at, ds)
    decreases |ds|
  {
    if ds != [] {
      var d, rest := ds[0], ds[1..];
      var e, es, next := EncodeStatic(d), Concat(rest, EncodeStatic), at + 4 + SubsSize(d.subs);
      assert Concat(ds, EncodeStatic) == e + es;
      assert |e| == 4 + SubsSize(d.subs) && (At(src, at, e) <==> StaticLies(src.mem, at, d)) by {
        StaticWords(src, at, d);
      }
      StaticsWords(src, next, rest);
      AtSplit(src, at, e, es);
    }
  }

  lemma {:induction false} ReusesWords(src: Source, at: nat, ds: seq<ReuseDesc>)
    requires forall d | d in ds :: ReuseFits(d)
    ensures |Concat(ds, EncodeReuse)| == ReusesSize(ds)
    ensures At(src, at, Concat(ds, EncodeReuse)) <==> ReusesLie(src.mem, at, ds)
    decreases |ds|
  {
    if ds != [] {
      var d, rest := ds[0], ds[1..];
      var e, es, next := EncodeReuse(d), Concat(rest, EncodeReuse), at + 3 + SubsSize(d.subs);
      assert Concat(ds, EncodeReuse) == e + es;
      assert |e| == 3 + SubsSize(d.subs) && (At(src, at, e) <==> ReuseLies(src.mem, at, d)) by {
        ReuseWords(src, at, d);
      }
      ReusesWords(src, next, rest);
      AtSplit(src, at, e, es);
    }
  }

  lemma {:induction false} NodesWords(src: Source, at: nat, ns: seq<Node>)
    ensures |Concat(ns, EncodeNode)| == 4 * |ns|
    ensures At(src, at, Concat(ns, EncodeNode)) <==> NodesLie(src.mem, at, ns)
    decreases |ns|
  {
    if ns != [] {
      NodeWords(src, at, ns[0]);
      NodesWords(src, at + 4, ns[1..]);
      AtSplit(src, at, EncodeNode(ns[0]), Concat(ns[1..], EncodeNode));
    }
  }

  lemma NodeWords(src: Source, at: nat, n: Node)
    ensures At(src, at, EncodeNode(n)) <==> NodeLies(src.mem, at, n)
  {
    AtByWord(src, at, EncodeNode(n));
  }

  lemma ListWordsLie(src: Source, at: nat, b: Bss, linked: bool)
    requires TablesFit(b, linked)
    ensures At(src, at, CountWord(b, linked) + ListWords(V3(), b, linked)) <==>
            if linked then ListLies(src.mem, at, b.nodes) else at <= |src.mem|
  {
    NodesWords(src, at + 1, b.nodes);
    AtSplit(src, at, CountWord(b, linked), ListWords(V3(), b, linked));
    AtByWord(src, at, CountWord(b, linked));
  }

  lemma {:induction false} EndsInside(src: Source, at: nat, ds: seq<ReuseDesc>)
    requires ReusesLie(src.mem, at, ds)
    ensures at + ReusesSize(ds) <= |src.mem|
    decreases |ds|
  {
    if ds != [] {
      EndsInside(src, at + 3 + SubsSize(ds[0].subs), ds[1..]);
    }
  }

  /** An encoding is in memory exactly if every field lies where the format says. */
  lemma EncodingLies(src: Source, b: Bss, linked: bool)
    requires WellFormed(b, linked)
    ensures At(src, 0, Encode(b, linked)) <==> GraphLies(src.mem, b, linked)
    ensures CheckedWords(b, linked) == CheckedSize(b, linked)
  {
    var reuses := 4 + StaticsSize(b.statics);
    var list := reuses + ReusesSize(b.reuses);
    EncodingParts(src, V3(), b, linked);
    StaticsWords(src, 4, b.statics);
    ReusesWords(src, reuses, b.reuses);
    assert StaticsEnd(V3(), b) == reuses && ReusesEnd(V3(), b) == list;
    PartsLie(src, b, linked, reuses, list);
  }

  lemma HeaderAt(src: Source, b: Bss)
    requires |b.statics| < U32 && |b.reuses| < U32
    ensures At(src, 0, Header(b)) <==> HeaderLies(src.mem, b)
  {
    AtByWord(src, 0, Header(b));
  }

  lemma PartsLie(src: Source, b: Bss, linked: bool, reuses: nat, list: nat)
    requires TablesFit(b, linked) && reuses == 4 + StaticsSize(b.statics) && list == reuses + ReusesSize(b.reuses)
    ensures && At(src, 0, Header(b)) && StaticsLie(src.mem, 4, b.statics) && ReusesLie(src.mem, reuses, b.reuses)
            && At(src, list, CountWord(b, linked) + ListWords(V3(), b, linked))
            <==> GraphLies(src.mem, b, linked)
  {
    var st, re := StaticsLie(src.mem, 4, b.statics), ReusesLie(src.mem, reuses, b.reuses);
    if re {
      EndsInside(src, reuses, b.reuses);
    }
    EndsLie(src, b, linked, list, st, re);
  }

  /** Header and list, if `st` and `re` say whether the tables between them lie as they should. */
  lemma EndsLie(src: Source, b: Bss, linked: bool, list: nat, st: bool, re: bool)
    requires TablesFit(b, linked) && (re ==> list <= |src.mem|)
    ensures At(src, 0, Header(b)) && st && re
            && At(src, list, CountWord(b, linked) + ListWords(V3(), b, linked))
            <==> HeaderLies(src.mem, b) && st && re && (linked ==> ListLies(src.mem, list, b.nodes))
  {
    HeaderAt(src, b);
    ListWordsLie(src, list, b, linked);
  }

  /** The parser returns `b` exactly if the graph is well formed, each of its fields lies at
      its word, and the part read under the bound ends below header plus declared size, all
      counted in bytes of 32-bit words. */
  lemma AcceptsWords(src: Source, b: Bss, linked: bool)
    requires src.bssSize > 0
    ensures (exists n :: Decode(src, linked) == Done(b, n)) <==>
            && WellFormed(b, linked) && GraphLies(src.mem, b, linked)
            && 4 * CheckedSize(b, linked) < 16 + src.bssSize
  {
    AcceptsExactly(src, b, linked);
    if WellFormed(b, linked) {
      EncodingLies(src, b, linked);
    }
  }
}
