/** Memory as bytes: 32-bit words at any byte address, least significant byte first, and the
    single bits of memory. */
module Bytes {
  import opened Words
  import opened Bitwise

  type byte = b: nat | b < 256

  /** The number whose bytes are `s`. */
  function FromBytes(s: seq<byte>): nat {
    if s == [] then 0 else s[0] + 256 * FromBytes(s[1..])
  }

  /** The low `n` bytes of a number. */
  function ToBytes(x: nat, n: nat): (s: seq<byte>)
    ensures |s| == n
  {
    if n == 0 then [] else [x % 256] + ToBytes(x / 256, n - 1)
  }

  lemma FourBytes(x: nat)
    ensures ToBytes(x, 4) == [x % 256, x / 256 % 256, x / 256 / 256 % 256, x / 256 / 256 / 256 % 256]
  {
    var y := x / 256 / 256;
    assert ToBytes(y, 2) == [y % 256] + ToBytes(y / 256, 1) == [y % 256, y / 256 % 256];
    assert ToBytes(x, 4) == [x % 256] + ([x / 256 % 256] + ToBytes(y, 2));
  }

  function LoadWord(m: seq<byte>, at: nat): nat
    requires at + 4 <= |m|
  {
    FromBytes(m[at..at + 4])
  }

  function StoreWord(m: seq<byte>, at: nat, x: nat): (r: seq<byte>)
    requires at + 4 <= |m|
    ensures |r| == |m|
  {
    m[..at] + ToBytes(x, 4) + m[at + 4..]
  }

  /** Bit `q` of memory: bit `q % 8` of byte `q / 8`. */
  predicate MemBit(m: seq<byte>, q: nat)
    requires q < 8 * |m|
  {
    Bit(m[q / 8], q % 8)
  }

  lemma NextByteBit(x: nat, i: nat)
    ensures Bit(x, 8 + i) == Bit(x / 256, i)
  {
    var a, b := x / 2 / 2 / 2 / 2, x / 256;
    assert Bit(x, 8 + i) == Bit(x / 2, 7 + i) == Bit(x / 2 / 2, 6 + i) == Bit(x / 2 / 2 / 2, 5 + i) == Bit(a, 4 + i);
    assert Bit(a, 4 + i) == Bit(a / 2, 3 + i) == Bit(a / 2 / 2, 2 + i) == Bit(a / 2 / 2 / 2, 1 + i)
        == Bit(a / 2 / 2 / 2 / 2, i);
    assert a / 2 / 2 / 2 / 2 == b;
  }

  /** The low bits of a number do not depend on what is added above them. */
  lemma {:induction false} LowBit(b: nat, y: nat, k: nat, i: nat)
    requires i < k
    ensures Bit(b + Pow2(k) * y, i) == Bit(b, i)
  {
    var p := Pow2(k - 1);
    assert Pow2(k) * y == 2 * (p * y);
    if i > 0 {
      assert (b + Pow2(k) * y) / 2 == b / 2 + p * y;
      LowBit(b / 2, y, k - 1, i - 1);
    }
  }

  lemma LowByteBit(b: nat, y: nat, i: nat)
    requires i < 8
    ensures Bit(b + 256 * y, i) == Bit(b, i)
  {
    assert Pow2(8) == 256 by { assert Pow2(4) == 16; }
    LowBit(b, y, 8, i);
  }

  /** Past its width a number has no bits. */
  lemma {:induction false} NoHighBit(x: nat, k: nat, i: nat)
    requires x < Pow2(k) && k <= i
    ensures !Bit(x, i)
  {
    if k == 0 {
      ZeroBit(i);
    } else {
      NoHighBit(x / 2, k - 1, i - 1);
    }
  }

  lemma {:induction false} FromBytesBit(s: seq<byte>, q: nat)
    requires q < 8 * |s|
    ensures Bit(FromBytes(s), q) == MemBit(s, q)
  {
    var y := FromBytes(s[1..]);
    if q < 8 {
      LowByteBit(s[0], y, q);
    } else {
      NextByteBit(s[0] + 256 * y, q - 8);
      assert (s[0] + 256 * y) / 256 == y;
      FromBytesBit(s[1..], q - 8);
      assert s[1..][(q - 8) / 8] == s[q / 8];
    }
  }

  lemma {:induction false} FromBytesRange(s: seq<byte>)
    ensures FromBytes(s) < Pow2(8 * |s|)
  {
    if s != [] {
      FromBytesRange(s[1..]);
      var k := 8 * |s| - 8;
      assert Pow2(k + 8) == 256 * Pow2(k) by {
        assert Pow2(k + 8) == 2 * Pow2(k + 7) && Pow2(k + 7) == 2 * Pow2(k + 6) && Pow2(k + 6) == 2 * Pow2(k + 5)
            && Pow2(k + 5) == 2 * Pow2(k + 4) && Pow2(k + 4) == 2 * Pow2(k + 3) && Pow2(k + 3) == 2 * Pow2(k + 2)
            && Pow2(k + 2) == 2 * Pow2(k + 1) && Pow2(k + 1) == 2 * Pow2(k);
      }
    }
  }

  lemma {:induction false} ToBytesBit(x: nat, n: nat, q: nat)
    requires q < 8 * n
    ensures MemBit(ToBytes(x, n), q) == Bit(x, q)
  {
    if q < 8 {
      assert x == x % 256 + 256 * (x / 256);
      LowByteBit(x % 256, x / 256, q);
    } else {
      ToBytesBit(x / 256, n - 1, q - 8);
      NextByteBit(x, q - 8);
      assert ToBytes(x, n)[q / 8] == ToBytes(x / 256, n - 1)[(q - 8) / 8];
    }
  }

  /** The bits of a loaded word are those of memory at its address. */
  lemma LoadBit(m: seq<byte>, at: nat, i: nat)
    requires at + 4 <= |m|
    ensures Bit(LoadWord(m, at), i) == (i < 32 && MemBit(m, 8 * at + i))
  {
    var s := m[at..at + 4];
    if i < 32 {
      FromBytesBit(s, i);
      assert s[i / 8] == m[(8 * at + i) / 8];
    } else {
      FromBytesRange(s);
      NoHighBit(FromBytes(s), 32, i);
    }
  }

  /** A store changes the 32 bits at its address and no other. */
  lemma StoreBit(m: seq<byte>, at: nat, x: nat, q: nat)
    requires at + 4 <= |m| && q < 8 * |m|
    ensures MemBit(StoreWord(m, at, x), q) == if 8 * at <= q < 8 * at + 32 then Bit(x, q - 8 * at) else MemBit(m, q)
  {
    if 8 * at <= q < 8 * at + 32 {
      ToBytesBit(x, 4, q - 8 * at);
      assert StoreWord(m, at, x)[q / 8] == ToBytes(x, 4)[(q - 8 * at) / 8];
    }
  }

  /** Memories with the same bits are equal. */
  lemma SameMemory(m: seq<byte>, r: seq<byte>)
    requires |m| == |r|
    requires forall q: nat | q < 8 * |m| :: MemBit(m, q) == MemBit(r, q)
    ensures m == r
  {
    forall k | 0 <= k < |m|
      ensures m[k] == r[k]
    {
      forall i: nat
        ensures Bit(m[k], i) == Bit(r[k], i)
      {
        if i < 8 {
          assert MemBit(m, 8 * k + i) == MemBit(r, 8 * k + i);
        } else {
          assert Pow2(8) == 256 by { assert Pow2(4) == 16; }
          NoHighBit(m[k], 8, i);
          NoHighBit(r[k], 8, i);
        }
      }
      SameBits(m[k], r[k]);
    }
  }
}
