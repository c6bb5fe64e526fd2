/** Bitwise operations on machine words, bit by bit, and masked fields inside a word. */
module Bitwise {
  import opened Words

  /** `x & y`. */
  function And(x: nat, y: nat): nat {
    if x == 0 then 0
    else 2 * And(x / 2, y / 2) + (if x % 2 == 1 && y % 2 == 1 then 1 else 0)
  }

  /** `x | y`. */
  function Or(x: nat, y: nat): nat
    decreases x + y
  {
    if x == 0 then y
    else 2 * Or(x / 2, y / 2) + (if x % 2 == 1 || y % 2 == 1 then 1 else 0)
  }

  /** Bit `i` of a word. */
  predicate Bit(x: nat, i: nat) {
    if i == 0 then x % 2 == 1 else Bit(x / 2, i - 1)
  }

  lemma {:induction false} ZeroBit(i: nat)
    ensures !Bit(0, i)
  {
    if i > 0 {
      ZeroBit(i - 1);
    }
  }

  lemma {:induction false} AndBit(x: nat, y: nat, i: nat)
    ensures Bit(And(x, y), i) <==> Bit(x, i) && Bit(y, i)
  {
    if x == 0 {
      ZeroBit(i);
    } else if i > 0 {
      AndBit(x / 2, y / 2, i - 1);
    }
  }

  lemma {:induction false} OrBit(x: nat, y: nat, i: nat)
    ensures Bit(Or(x, y), i) <==> Bit(x, i) || Bit(y, i)
  {
    if x == 0 {
      ZeroBit(i);
    } else if i > 0 {
      OrBit(x / 2, y / 2, i - 1);
    }
  }

  lemma {:induction false} AndNotBit(x: nat, y: nat, i: nat)
    ensures Bit(AndNot(x, y), i) <==> Bit(x, i) && !Bit(y, i)
  {
    if x == 0 {
      ZeroBit(i);
    } else if i > 0 {
      AndNotBit(x / 2, y / 2, i - 1);
    }
  }

  /** Words with the same bits are equal. */
  lemma {:induction false} SameBits(x: nat, y: nat)
    requires forall i: nat :: Bit(x, i) == Bit(y, i)
    ensures x == y
  {
    if x != 0 || y != 0 {
      assert Bit(x, 0) == Bit(y, 0);
      forall i: nat
        ensures Bit(x / 2, i) == Bit(y / 2, i)
      {
        assert Bit(x, i + 1) == Bit(y, i + 1);
      }
      SameBits(x / 2, y / 2);
    }
  }

  /** The bits of `v` under the mask `m`, the bits of `o` elsewhere. */
  function Merge(o: nat, v: nat, m: nat): nat {
    Or(And(v, m), AndNot(o, m))
  }

  lemma MergeBit(o: nat, v: nat, m: nat, i: nat)
    ensures Bit(Merge(o, v, m), i) == if Bit(m, i) then Bit(v, i) else Bit(o, i)
  {
    AndBit(v, m, i);
    AndNotBit(o, m, i);
    OrBit(And(v, m), AndNot(o, m), i);
  }

  /** `x` and `y` have the same bits under the mask. */
  ghost predicate AgreeOn(x: nat, y: nat, m: nat) {
    forall i: nat | Bit(m, i) :: Bit(x, i) == Bit(y, i)
  }

  lemma AgreeOnIsAnd(x: nat, y: nat, m: nat)
    ensures AgreeOn(x, y, m) <==> And(x, m) == And(y, m)
  {
    if AgreeOn(x, y, m) {
      forall i: nat
        ensures Bit(And(x, m), i) == Bit(And(y, m), i)
      {
        AndBit(x, m, i);
        AndBit(y, m, i);
      }
      SameBits(And(x, m), And(y, m));
    }
    if And(x, m) == And(y, m) {
      forall i: nat | Bit(m, i)
        ensures Bit(x, i) == Bit(y, i)
      {
        AndBit(x, m, i);
        AndBit(y, m, i);
      }
    }
  }
}
