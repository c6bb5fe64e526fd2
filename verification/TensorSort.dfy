/** Sorting input and output tensors by id: each tensor is written to the slot its id names. */
module TensorSort {
  import opened Sequences

  datatype Tensor = Tensor(id: nat, section: nat, offset: nat, size: nat, dataType: nat, layout: nat,
                           n: nat, h: nat, w: nat, c: nat)

  function Ids(ts: seq<Tensor>): (u: seq<nat>)
    ensures |u| == |ts| && forall i | 0 <= i < |ts| :: u[i] == ts[i].id
  {
    seq(|ts|, i requires 0 <= i < |ts| => ts[i].id)
  }

  /** Index of the first tensor whose id names no slot, or the number of tensors. */
  function FirstBad(ts: seq<Tensor>, from: nat): (i: nat)
    requires from <= |ts|
    ensures from <= i <= |ts|
    ensures forall k | from <= k < i :: ts[k].id < |ts|
    ensures i < |ts| ==> ts[i].id >= |ts|
    decreases |ts| - from
  {
    if from == |ts| || ts[from].id >= |ts| then from else FirstBad(ts, from + 1)
  }

  /** The list after the first `i` tensors have been written to their slots. */
  function Scatter(ts: seq<Tensor>, i: nat): (s: seq<Tensor>)
    requires i <= FirstBad(ts, 0)
    ensures |s| == |ts|
  {
    if i == 0 then ts
    else
      var s := Scatter(ts, i - 1);
      if ts[i - 1].id != i - 1 then s[ts[i - 1].id := ts[i - 1]] else s
  }

  function Result(ts: seq<Tensor>): (r: seq<Tensor>)
    ensures |r| == |ts|
  {
    Scatter(ts, FirstBad(ts, 0))
  }

  method SortIoTensor(tensors: array<Tensor>) returns (ok: bool)
    modifies tensors
    ensures tensors[..] == Result(old(tensors[..]))
    ensures ok <==> FirstBad(old(tensors[..]), 0) == tensors.Length
  {
    var tmp := tensors[..];
    ok := true;
    for i := 0 to |tmp|
      invariant i <= FirstBad(tmp, 0) && tensors[..] == Scatter(tmp, i) && ok
    {
      if tmp[i].id >= |tmp| {
        ok := false;
        break;
      }
      if tmp[i].id != i {
        tensors[tmp[i].id] := tmp[i];
      }
    }
  }

  ghost predicate Sorted(ts: seq<Tensor>) {
    forall k | 0 <= k < |ts| :: ts[k].id == k
  }

  /** Every tensor names its own slot. */
  ghost predicate OwnSlots(ts: seq<Tensor>) {
    Distinct(Ids(ts)) && forall u | u in Ids(ts) :: u < |ts|
  }

  lemma {:induction false} ScatterKeepsElements(ts: seq<Tensor>, i: nat)
    requires i <= FirstBad(ts, 0)
    ensures forall t | t in Scatter(ts, i) :: t in ts
  {
    if i > 0 {
      ScatterKeepsElements(ts, i - 1);
    }
  }

  /** With distinct ids, the tensors written so far are in their slots and slots nobody has
      named still hold what they held. */
  lemma {:induction false} ScatterPlaces(ts: seq<Tensor>, i: nat)
    requires OwnSlots(ts) && i <= FirstBad(ts, 0)
    ensures Placed(ts, Scatter(ts, i), i) && Untouched(ts, Scatter(ts, i), i)
  {
    if i > 0 {
      ScatterPlaces(ts, i - 1);
      PlaceOne(ts, Scatter(ts, i - 1), i - 1);
    }
  }

  ghost predicate Placed(ts: seq<Tensor>, s: seq<Tensor>, i: nat)
    requires i <= |ts|
  {
    |s| == |ts| && forall j | 0 <= j < i :: ts[j].id < |ts| && s[ts[j].id] == ts[j]
  }

  ghost predicate Untouched(ts: seq<Tensor>, s: seq<Tensor>, i: nat)
    requires i <= |ts|
  {
    |s| == |ts| && forall k | 0 <= k < |ts| && k !in Ids(ts)[..i] :: s[k] == ts[k]
  }

  lemma {:induction false} PlaceOne(ts: seq<Tensor>, s: seq<Tensor>, i: nat)
    requires Distinct(Ids(ts)) && i < |ts| && ts[i].id < |ts| && Placed(ts, s, i) && Untouched(ts, s, i)
    ensures var s' := if ts[i].id != i then s[ts[i].id := ts[i]] else s;
            Placed(ts, s', i + 1) && Untouched(ts, s', i + 1)
  {
    assert Ids(ts)[..i + 1] == Ids(ts)[..i] + [ts[i].id];
    assert forall j | 0 <= j < i :: Ids(ts)[j] != Ids(ts)[i];
    NotYetNamed(ts, i);
  }

  lemma {:induction false} NotYetNamed(ts: seq<Tensor>, i: nat)
    requires Distinct(Ids(ts)) && i < |ts|
    ensures ts[i].id !in Ids(ts)[..i]
  {
    assert forall j | 0 <= j < i :: Ids(ts)[..i][j] == Ids(ts)[j] != Ids(ts)[i];
  }

  lemma {:induction false} OwnSlotsIffAllNamed(ts: seq<Tensor>)
    ensures OwnSlots(ts) <==> forall k: nat | k < |ts| :: k in Ids(ts)
  {
    InjectiveIsSurjective(Ids(ts));
  }

  /** The result is sorted exactly if the ids are distinct and below the number of tensors;
      then nothing is refused and the result is a permutation of the input. */
  lemma {:induction false} SortsExactly(ts: seq<Tensor>)
    ensures Sorted(Result(ts)) <==> OwnSlots(ts)
    ensures OwnSlots(ts) ==> FirstBad(ts, 0) == |ts| && multiset(Result(ts)) == multiset(ts)
  {
    var r := Result(ts);
    OwnSlotsIffAllNamed(ts);
    ScatterKeepsElements(ts, FirstBad(ts, 0));
    if OwnSlots(ts) {
      SortsDistinct(ts);
    } else if Sorted(r) {
      forall k: nat | k < |ts|
        ensures k in Ids(ts)
      {
        assert r[k] in ts;
        var i :| 0 <= i < |ts| && ts[i] == r[k];
        assert Ids(ts)[i] == k;
      }
    }
  }

  lemma {:induction false} SortsDistinct(ts: seq<Tensor>)
    requires OwnSlots(ts)
    ensures Sorted(Result(ts)) && FirstBad(ts, 0) == |ts|
    ensures multiset(Result(ts)) == multiset(ts)
  {
    NoneBad(ts);
    ScatterKeepsElements(ts, |ts|);
    ScatterPlaces(ts, |ts|);
    PlacedIsSorted(ts, Result(ts));
    AllPlaced(ts, Result(ts));
  }

  lemma {:induction false} PlacedIsSorted(ts: seq<Tensor>, r: seq<Tensor>)
    requires OwnSlots(ts) && Placed(ts, r, |ts|)
    ensures Sorted(r)
  {
    OwnSlotsIffAllNamed(ts);
    forall k | 0 <= k < |ts|
      ensures r[k].id == k
    {
      var slot: nat := k;
      assert slot in Ids(ts);
      var j :| 0 <= j < |ts| && Ids(ts)[j] == slot;
      assert r[ts[j].id] == ts[j];
    }
  }

  lemma {:induction false} NoneBad(ts: seq<Tensor>)
    requires OwnSlots(ts)
    ensures FirstBad(ts, 0) == |ts|
  {
    forall i | 0 <= i < |ts|
      ensures ts[i].id < |ts|
    {
      assert Ids(ts)[i] in Ids(ts);
    }
  }

  lemma {:induction false} AllPlaced(ts: seq<Tensor>, r: seq<Tensor>)
    requires Distinct(Ids(ts)) && Sorted(r) && Placed(ts, r, |ts|)
    requires forall t | t in r :: t in ts
    ensures multiset(r) == multiset(ts)
  {
    forall t | t in ts
      ensures t in r
    {
      var j :| 0 <= j < |ts| && ts[j] == t;
      assert r[ts[j].id] == t;
    }
    forall i, j | 0 <= i < j < |ts|
      ensures ts[i] != ts[j]
    {
      assert Ids(ts)[i] != Ids(ts)[j];
    }
    SameElements(r, ts);
  }

  /** What a slot holds in any case: the last tensor in front of the first bad one that names
      it from elsewhere, or else the tensor that was there. */
  lemma {:induction false} SlotHolds(ts: seq<Tensor>, n: nat, k: nat)
    requires n <= FirstBad(ts, 0) && k < |ts|
    ensures var s := Scatter(ts, n);
            || (s[k] == ts[k] && forall i | 0 <= i < n && i != k :: ts[i].id != k)
            || (exists i :: 0 <= i < n && i != k && ts[i].id == k && s[k] == ts[i] &&
                            forall j | i < j < n && j != k :: ts[j].id != k)
  {
    if n > 0 {
      SlotHolds(ts, n - 1, k);
    }
  }
}
