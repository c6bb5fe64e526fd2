/** How buffer handles, job ids and graph ids are chosen: count up from a start value until
    an unused one is found. Handles and job ids carry their graph's id in the upper half. */
module Identifiers {
  import opened Words
  import opened Sequences

  const IDS_PER_GRAPH: nat := 0x1_0000

  /** The candidate after `n` increments of a 32-bit counter. */
  function Candidate(start: nat, n: nat): (c: nat)
    ensures c < U32
  {
    (start + n) % U32
  }

  /** First handle or job id of a graph: its id shifted into the upper half. */
  function Base(graphId: nat): nat {
    (graphId * IDS_PER_GRAPH) % U32
  }

  /** The graph an id routes back to. */
  function GraphOf(id: nat): nat {
    id / IDS_PER_GRAPH
  }

  /** The counter stops after `n` increments: the first candidate that is not taken. */
  ghost predicate FirstFree(taken: set<nat>, start: nat, n: nat) {
    Candidate(start, n) !in taken && forall m | 0 <= m < n :: Candidate(start, m) in taken
  }

  function Candidates(start: nat, n: nat): (s: seq<nat>)
    ensures |s| == n && forall m | 0 <= m < n :: s[m] == Candidate(start, m)
  {
    seq(n, m requires 0 <= m < n => Candidate(start, m))
  }

  lemma {:induction false} CandidatesDiffer(start: nat, i: nat, j: nat)
    requires i < j < i + U32
    ensures Candidate(start, i) != Candidate(start, j)
  {
    FundamentalDivMod(start + i, U32);
    FundamentalDivMod(start + j, U32);
    var q, q' := (start + i) / U32, (start + j) / U32;
    assert j - i == (q' - q) * U32 + (Candidate(start, j) - Candidate(start, i));
  }

  /** The counter goes past at most as many candidates as there are taken ids. */
  lemma {:induction false} ProbesAreFew(taken: set<nat>, start: nat, n: nat)
    requires n <= U32 && forall m | 0 <= m < n :: Candidate(start, m) in taken
    ensures n <= |taken|
  {
    var s := Candidates(start, n);
    forall i, j | 0 <= i < j < n
      ensures s[i] != s[j]
    {
      CandidatesDiffer(start, i, j);
    }
    DistinctSize(s);
    forall x | x in Elems(s)
      ensures x in taken
    {
      var m :| 0 <= m < n && s[m] == x;
    }
    SubsetSize(Elems(s), taken);
  }

  /** Counts up until an unused id is found; there is one as long as not all are taken. */
  method CreateId(taken: set<nat>, start: nat) returns (id: nat, ghost n: nat)
    requires |taken| < U32 && start < U32
    ensures FirstFree(taken, start, n) && id == Candidate(start, n) && n <= |taken|
    ensures id !in taken && id < U32
  {
    id, n := start, 0;
    DivModUnique(start, U32, 0, start);
    while id in taken
      invariant id == Candidate(start, n) && n <= |taken|
      invariant forall m | 0 <= m < n :: Candidate(start, m) in taken
      decreases |taken| - n
    {
      NextCandidate(start, n);
      assert forall m | 0 <= m < n + 1 :: Candidate(start, m) in taken;
      ProbesAreFew(taken, start, n + 1);
      id := (id + 1) % U32;
      n := n + 1;
    }
  }

  lemma NextCandidate(start: nat, n: nat)
    ensures Candidate(start, n + 1) == (Candidate(start, n) + 1) % U32
  {
    FundamentalDivMod(start + n, U32);
    var c := Candidate(start, n) + 1;
    FundamentalDivMod(c, U32);
    var q := (start + n) / U32 + c / U32;
    assert start + n + 1 == q * U32 + c % U32;
    DivModUnique(start + n + 1, U32, q, c % U32);
  }

  lemma BaseIsExact(graphId: nat)
    requires graphId < IDS_PER_GRAPH
    ensures Base(graphId) == graphId * IDS_PER_GRAPH
  {
    DivModUnique(graphId * IDS_PER_GRAPH, U32, 0, graphId * IDS_PER_GRAPH);
  }

  lemma InBlock(graphId: nat, n: nat)
    requires graphId < IDS_PER_GRAPH && n < IDS_PER_GRAPH
    ensures Candidate(Base(graphId), n) == graphId * IDS_PER_GRAPH + n
    ensures GraphOf(Candidate(Base(graphId), n)) == graphId
  {
    BaseIsExact(graphId);
    var c := graphId * IDS_PER_GRAPH + n;
    DivModUnique(c, U32, 0, c);
    DivModUnique(c, IDS_PER_GRAPH, graphId, n);
  }

  lemma OutOfBlock(graphId: nat, n: nat)
    requires graphId < IDS_PER_GRAPH && IDS_PER_GRAPH <= n < U32
    ensures GraphOf(Candidate(Base(graphId), n)) != graphId
  {
    BaseIsExact(graphId);
    var c := graphId * IDS_PER_GRAPH + n;
    FundamentalDivMod(n, IDS_PER_GRAPH);
    var q, r := graphId + n / IDS_PER_GRAPH, n % IDS_PER_GRAPH;
    assert c == q * IDS_PER_GRAPH + r;
    assert 1 <= n / IDS_PER_GRAPH < IDS_PER_GRAPH;
    if q < IDS_PER_GRAPH {
      DivModUnique(c, U32, 0, c);
      DivModUnique(c, IDS_PER_GRAPH, q, r);
    } else {
      DivModUnique(c, U32, 1, c - U32);
      DivModUnique(c - U32, IDS_PER_GRAPH, q - IDS_PER_GRAPH, r);
    }
  }

  /** The ids that carry the graph's id in their upper half. */
  function OwnId(graphId: nat, m: nat): nat {
    graphId * 0x1_0000 + m
  }

  /** A new id routes back to its own graph exactly if one of the graph's own ids is unused;
      otherwise the counter has run into the ids of another graph. */
  lemma RoutesHome(taken: set<nat>, graphId: nat, n: nat)
    requires graphId < IDS_PER_GRAPH && n < U32 && FirstFree(taken, Base(graphId), n)
    ensures Candidate(Base(graphId), n) / 0x1_0000 == graphId <==>
            exists m: nat :: m < 0x1_0000 && OwnId(graphId, m) !in taken
  {
    if n < IDS_PER_GRAPH {
      InBlock(graphId, n);
      assert OwnId(graphId, n) !in taken;
    } else {
      OutOfBlock(graphId, n);
      forall m: nat | m < IDS_PER_GRAPH
        ensures OwnId(graphId, m) in taken
      {
        InBlock(graphId, m);
        assert Candidate(Base(graphId), m) in taken;
      }
    }
  }

  /** With fewer than 65536 ids taken, a new one always routes home, so ids made for
      different graphs are different. */
  lemma FewIdsRouteHome(taken: set<nat>, graphId: nat, n: nat, taken': set<nat>, graphId': nat, n': nat)
    requires graphId < 0x1_0000 && FirstFree(taken, Base(graphId), n) && n <= |taken| < 0x1_0000
    requires graphId' < 0x1_0000 && FirstFree(taken', Base(graphId'), n') && n' <= |taken'| < 0x1_0000
    ensures Candidate(Base(graphId), n) / 0x1_0000 == graphId
    ensures graphId != graphId' ==> Candidate(Base(graphId), n) != Candidate(Base(graphId'), n')
  {
    InBlock(graphId, n);
    InBlock(graphId', n');
  }

  // ---- Graph ids, reserved while a graph is being loaded

  datatype Slot = Reserved | Loaded

  /** The graph table, and the ids that calls to load_graph in progress hold. */
  datatype Table = Table(graphs: map<nat, Slot>, loading: map<nat, nat>)

  datatype LoadEvent = Begin(call: nat) | Succeed(call: nat) | Fail(call: nat) | Unload(id: nat)

  ghost predicate LoadStep(t: Table, ev: LoadEvent, t': Table) {
    match ev
    case Begin(call) =>
      call !in t.loading && exists n: nat :: BeginStep(t, call, n, t')
    case Succeed(call) =>
      call in t.loading
      && t' == Table(t.graphs[t.loading[call] := Loaded], t.loading - {call})
    case Fail(call) =>
      call in t.loading
      && t' == Table(t.graphs - {t.loading[call]}, t.loading - {call})
    case Unload(id) =>
      t' == if id in t.graphs && t.graphs[id] == Loaded then t.(graphs := t.graphs - {id}) else t
  }

  ghost predicate BeginStep(t: Table, call: nat, n: nat, t': Table) {
    && FirstFree(t.graphs.Keys, 1, n)
    && t' == Table(t.graphs[Candidate(1, n) := Reserved], t.loading[call := Candidate(1, n)])
  }

  /** Every call in progress holds a reserved entry of its own. */
  ghost predicate OwnIds(t: Table) {
    && (forall c | c in t.loading :: t.loading[c] in t.graphs && t.graphs[t.loading[c]] == Reserved)
    && (forall c, d | c in t.loading && d in t.loading && c != d :: t.loading[c] != t.loading[d])
  }

  lemma LoadStepKeeps(t: Table, ev: LoadEvent, t': Table)
    requires OwnIds(t) && LoadStep(t, ev, t')
    ensures OwnIds(t')
  {
    if ev.Begin? {
      var n: nat :| BeginStep(t, ev.call, n, t');
    }
  }

  /** Interleaved loads never share a graph id, and never reuse the id of a loaded graph. */
  lemma {:induction false} LoadsNeverShareIds(ts: seq<Table>, evs: seq<LoadEvent>, k: nat)
    requires |ts| == |evs| + 1 && ts[0] == Table(map[], map[]) && k <= |evs|
    requires forall i | 0 <= i < |evs| :: LoadStep(ts[i], evs[i], ts[i + 1])
    ensures OwnIds(ts[k])
    ensures k < |evs| && evs[k].Begin? ==>
              evs[k].call in ts[k + 1].loading &&
              var id := ts[k + 1].loading[evs[k].call];
              id !in ts[k].graphs && forall c | c in ts[k].loading :: ts[k].loading[c] != id
  {
    if k > 0 {
      LoadsNeverShareIds(ts, evs, k - 1);
      assert LoadStep(ts[k - 1], evs[k - 1], ts[k - 1 + 1]);
      LoadStepKeeps(ts[k - 1], evs[k - 1], ts[k]);
    }
    if k < |evs| && evs[k].Begin? {
      assert LoadStep(ts[k], evs[k], ts[k + 1]);
      var n: nat :| BeginStep(ts[k], evs[k].call, n, ts[k + 1]);
    }
  }

  datatype UnloadStatus = Unloaded | GraphNotExist | UnloadFailed

  /** The graph table of a context. `loading` records which id each call of load_graph in
      progress holds in its local variable. */
  class MainContext {
    var graphs: map<nat, Slot>
    ghost var loading: map<nat, nat>

    ghost function Current(): Table
      reads this
    {
      Table(graphs, loading)
    }

    constructor ()
      ensures Current() == Table(map[], map[]) && OwnIds(Current())
    {
      graphs, loading := map[], map[];
    }

    /** The reservation at the start of load_graph, under the table lock. */
    method ReserveGraphId(ghost call: nat) returns (id: nat)
      requires |graphs| < U32 && OwnIds(Current()) && call !in loading
      modifies this
      ensures LoadStep(old(Current()), Begin(call), Current()) && OwnIds(Current())
      ensures loading == old(loading)[call := id]
      ensures id !in old(graphs) && forall c | c in old(loading) :: old(loading)[c] != id
    {
      ghost var t := Current();
      ghost var n;
      id, n := CreateId(graphs.Keys, 1);
      graphs := graphs[id := Reserved];
      loading := loading[call := id];
      assert BeginStep(t, call, n, Current());
      LoadStepKeeps(t, Begin(call), Current());
    }

    /** The end of load_graph: the reserved entry is filled, or erased if loading failed. No
        other call's reservation is touched. */
    method FinishLoad(ghost call: nat, id: nat, ok: bool)
      requires OwnIds(Current()) && call in loading && loading[call] == id
      modifies this
      ensures LoadStep(old(Current()), if ok then Succeed(call) else Fail(call), Current()) && OwnIds(Current())
      ensures forall c | c in old(loading) && c != call ::
                c in loading && loading[c] == old(loading)[c] != id && graphs[loading[c]] == Reserved
    {
      ghost var t := Current();
      if ok {
        graphs := graphs[id := Loaded];
      } else {
        graphs := graphs - {id};
      }
      loading := loading - {call};
      LoadStepKeeps(t, if ok then Succeed(call) else Fail(call), Current());
    }

    /** A reserved entry holds no graph, so it cannot be unloaded; `destroyed` says whether the
        graph object could be taken down. */
    method UnloadGraph(id: nat, destroyed: bool) returns (st: UnloadStatus)
      requires OwnIds(Current())
      modifies this
      ensures OwnIds(Current()) && loading == old(loading)
      ensures st == Unloaded <==> destroyed && id in old(graphs) && old(graphs)[id] == Loaded
      ensures st == Unloaded ==> LoadStep(old(Current()), Unload(id), Current())
      ensures st != Unloaded ==> graphs == old(graphs)
    {
      if !(id in graphs && graphs[id] == Loaded) {
        return GraphNotExist;
      }
      if !destroyed {
        return UnloadFailed;
      }
      ghost var t := Current();
      graphs := graphs - {id};
      LoadStepKeeps(t, Unload(id), Current());
      st := Unloaded;
    }
  }
}
