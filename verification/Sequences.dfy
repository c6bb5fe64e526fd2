/** Sequences without repetition, counting their elements, and the pigeonhole principle: on a
    finite range, injective and surjective are the same. */
module Sequences {
  function Elems(s: seq<nat>): set<nat> {
    set x | x in s
  }

  function Below(n: nat): (s: set<nat>)
    ensures forall k: nat :: k in s <==> k < n
  {
    if n == 0 then {} else Below(n - 1) + {n - 1}
  }

  ghost predicate Distinct<T>(s: seq<T>) {
    forall i, j | 0 <= i < j < |s| :: s[i] != s[j]
  }

  lemma {:induction false} BelowSize(n: nat)
    ensures |Below(n)| == n
  {
    if n > 0 {
      BelowSize(n - 1);
    }
  }

  lemma {:induction false} SubsetSize<T>(a: set<T>, b: set<T>)
    requires a <= b
    ensures |a| <= |b|
    ensures |a| == |b| ==> a == b
    decreases |a|
  {
    if a != {} {
      var x :| x in a;
      SubsetSize(a - {x}, b - {x});
      assert a == (a - {x}) + {x} && b == (b - {x}) + {x};
    }
  }

  lemma {:induction false} DistinctSize(s: seq<nat>)
    ensures |Elems(s)| <= |s|
    ensures |Elems(s)| == |s| <==> Distinct(s)
  {
    if s != [] {
      var k := |s| - 1;
      var t, x := s[..k], s[k];
      DistinctSize(t);
      assert s == t + [x];
      assert Elems(s) == Elems(t) + {x};
      if x in t {
        var i :| 0 <= i < k && t[i] == x;
        assert s[i] == s[k] && Elems(s) == Elems(t);
      } else if Distinct(t) {
        assert Distinct(s);
      } else {
        var i, j :| 0 <= i < j < k && t[i] == t[j];
        assert s[i] == s[j];
      }
    }
  }

  /** On `n` slots, being distinct and below `n` is the same as hitting every slot. */
  lemma InjectiveIsSurjective(s: seq<nat>)
    ensures Distinct(s) && (forall x | x in s :: x < |s|) <==> forall k: nat | k < |s| :: k in s
  {
    var e, b := Elems(s), Below(|s|);
    DistinctSize(s);
    BelowSize(|s|);
    if Distinct(s) && (forall x | x in s :: x < |s|) {
      SubsetSize(e, b);
      forall k: nat | k < |s|
        ensures k in s
      {
        assert k in b;
      }
    }
    if forall k: nat | k < |s| :: k in s {
      SubsetSize(b, e);
      forall x | x in s
        ensures x < |s|
      {
        assert x in e;
      }
    }
  }

  /** Sequences without repetition over the same elements are permutations of each other. */
  lemma SameElements<T>(s: seq<T>, t: seq<T>)
    requires Distinct(s) && Distinct(t)
    requires forall x :: x in s <==> x in t
    ensures multiset(s) == multiset(t)
  {
    forall x
      ensures multiset(s)[x] == multiset(t)[x]
    {
      CountDistinct(s, x);
      CountDistinct(t, x);
    }
  }

  lemma {:induction false} CountDistinct<T>(s: seq<T>, x: T)
    requires Distinct(s)
    ensures multiset(s)[x] == if x in s then 1 else 0
  {
    if s != [] {
      var t, y := s[..|s| - 1], s[|s| - 1];
      CountDistinct(t, x);
      assert s == t + [y];
      assert y !in t;
    }
  }

  lemma DistinctByCount<T>(s: seq<T>)
    ensures Distinct(s) <==> forall u | u in s :: multiset(s)[u] == 1
  {
    if Distinct(s) {
      forall u | u in s
        ensures multiset(s)[u] == 1
      {
        CountDistinct(s, u);
      }
    } else {
      var i, j :| 0 <= i < j < |s| && s[i] == s[j];
      CountAt(s, i);
      assert s[i + 1..][j - i - 1] == s[i];
    }
  }

  lemma CountAt<T>(s: seq<T>, i: nat)
    requires i < |s|
    ensures multiset(s)[s[i]] == multiset(s[..i])[s[i]] + 1 + multiset(s[i + 1..])[s[i]]
  {
    assert s == s[..i] + ([s[i]] + s[i + 1..]);
    assert multiset(s) == multiset(s[..i]) + (multiset{s[i]} + multiset(s[i + 1..]));
  }

  lemma Regroup<T>(a: seq<T>, b: seq<T>, c: seq<T>)
    ensures (a + b) + c == a + (b + c)
  {
  }
}
