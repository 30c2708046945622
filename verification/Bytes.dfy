// Bytes, the bits of a byte, and what the other modules share.
module Bytes {

  type byte = b: int | 0 <= b < 256

  const U32 := 0x1_0000_0000

  // A byte of erased flash
  const ERASED: byte := 0xFF

  // Of a device that is asked one thing after another: numbers from, from + 1, ... of them all work
  predicate AllWork(works: nat -> bool, from: nat, count: nat) {
    forall i :: from <= i < from + count ==> works(i)
  }

  lemma AllWorkSum(works: nat -> bool, from: nat, a: nat, b: nat)
    ensures AllWork(works, from, a + b) <==> AllWork(works, from, a) && AllWork(works, from + a, b)
  {
  }

  // hi << 8 | lo
  function Word(hi: byte, lo: byte): nat { 256 * hi as int + lo as int }

  function Min(x: int, y: int): int { if x < y then x else y }

  function Max(x: int, y: int): int { if x < y then y else x }

  lemma MultipleIsBig(d: int, w: nat)
    ensures d >= 1 ==> d * w >= w
    ensures d <= -1 ==> d * w + w <= 0
  {
  }

  // Quotient and remainder are the only way to write a as q * w + r with 0 <= r < w.
  lemma DivUnique(a: int, w: nat, q: int, r: nat)
    requires r < w
    ensures a == q * w + r <==> a / w == q && a % w == r
  {
    assert a == a / w * w + a % w;
    if a == q * w + r {
      assert (a / w - q) * w == a / w * w - q * w;
      MultipleIsBig(a / w - q, w);
    }
  }

  function Pow2(n: nat): nat { if n == 0 then 1 else 2 * Pow2(n - 1) }

  // (v & 1 << j) != 0
  predicate Bit(v: nat, j: nat) {
    if j == 0 then v % 2 == 1 else Bit(v / 2, j - 1)
  }

  // v | 1 << j when `on`, v & ~(1 << j) otherwise
  function WithBit(v: nat, j: nat, on: bool): nat {
    if j == 0 then v / 2 * 2 + (if on then 1 else 0) else 2 * WithBit(v / 2, j - 1, on) + v % 2
  }

  lemma {:induction false} WithBitStays(v: nat, j: nat, on: bool, width: nat)
    requires v < Pow2(width) && j < width
    ensures WithBit(v, j, on) < Pow2(width)
  {
    if j > 0 {
      WithBitStays(v / 2, j - 1, on, width - 1);
    }
  }

  // `byte | mask` or `byte & ~mask` for the mask 1 << j
  function WithByteBit(v: byte, j: nat, on: bool): byte
    requires j < 8
  {
    WithBitStays(v, j, on, 8);
    WithBit(v, j, on)
  }

  // Writing one bit sets that bit and keeps all the others.
  lemma {:induction false} WithBitBits(v: nat, j: nat, on: bool, i: nat)
    ensures Bit(WithBit(v, j, on), i) == if i == j then on else Bit(v, i)
  {
    if j > 0 && i > 0 {
      WithBitBits(v / 2, j - 1, on, i - 1);
    }
  }

  // A number is determined by its bits.
  lemma {:induction false} SameBits(v: nat, w: nat, width: nat)
    requires v < Pow2(width) && w < Pow2(width)
    requires forall j :: 0 <= j < width ==> Bit(v, j) == Bit(w, j)
    ensures v == w
  {
    if width > 0 {
      assert Bit(v, 0) == Bit(w, 0);
      forall j | 0 <= j < width - 1
        ensures Bit(v / 2, j) == Bit(w / 2, j)
      {
        assert Bit(v, j + 1) == Bit(w, j + 1);
      }
      SameBits(v / 2, w / 2, width - 1);
    }
  }
}
