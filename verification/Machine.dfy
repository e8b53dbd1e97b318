/** Fixed-width integers as bounded naturals, the bit operations the sources use on them, and the
    checked arithmetic of the ELF code. */
module Wrappers {
  datatype Option<+T> = None | Some(value: T)
}

module Machine {
  import opened Wrappers

  const TWO_32: nat := 0x1_0000_0000
  const TWO_64: nat := 0x1_0000_0000_0000_0000

  type Byte = x: nat | x < 0x100
  type U16 = x: nat | x < 0x1_0000
  type U32 = x: nat | x < 0x1_0000_0000
  type U64 = x: nat | x < 0x1_0000_0000_0000_0000

  /** Bitwise `x & y`. */
  function And(x: nat, y: nat): nat
    decreases x
  {
    if x == 0 || y == 0 then 0 else 2 * And(x / 2, y / 2) + (if x % 2 == 1 && y % 2 == 1 then 1 else 0)
  }

  /** Bitwise `x | y`. */
  function Or(x: nat, y: nat): nat
    decreases x + y
  {
    if x == 0 then y else if y == 0 then x
    else 2 * Or(x / 2, y / 2) + (if x % 2 == 1 || y % 2 == 1 then 1 else 0)
  }

  /** Bitwise `x ^ y`. */
  function Xor(x: nat, y: nat): nat
    decreases x + y
  {
    if x == 0 then y else if y == 0 then x
    else 2 * Xor(x / 2, y / 2) + (if x % 2 != y % 2 then 1 else 0)
  }

  function Pow2(n: nat): (p: nat)
    ensures p > 0
  {
    if n == 0 then 1 else 2 * Pow2(n - 1)
  }

  function ShiftRight(x: nat, n: nat): (r: nat)
    ensures r <= x
  {
    if n == 0 then x else ShiftRight(x, n - 1) / 2
  }

  lemma {:induction false} AndBelowMask(x: nat, y: nat)
    ensures And(x, y) <= y
  {
    if x != 0 && y != 0 {
      AndBelowMask(x / 2, y / 2);
    }
  }

  /** A word that holds every bit of two masks holds every bit of their union. */
  lemma {:induction false} AndAbsorbsOr(word: nat, a: nat, b: nat)
    requires And(word, a) == a && And(word, b) == b
    ensures And(word, Or(a, b)) == Or(a, b)
    decreases word
  {
    if a != 0 && b != 0 {
      assert word != 0;
      AndParity(word, a);
      AndParity(word, b);
      AndAbsorbsOr(word / 2, a / 2, b / 2);
    }
  }

  lemma AndParity(word: nat, a: nat)
    requires word != 0 && And(word, a) == a
    ensures And(word / 2, a / 2) == a / 2
    ensures a % 2 == 1 ==> word % 2 == 1
  {
  }

  function CheckedAdd(base: U64, offset: U64): (r: Option<U64>)
    ensures r.Some? <==> base + offset < TWO_64
    ensures r.Some? ==> r.value == base + offset
  {
    if base > TWO_64 - 1 - offset then None else Some(base + offset)
  }

  function CheckedMul(left: U64, right: U64): (r: Option<U64>)
    ensures r.Some? <==> left * right < TWO_64
    ensures r.Some? ==> r.value == left * right
  {
    CheckedMulDivides(left, right);
    if left != 0 && right > (TWO_64 - 1) / left then None else Some(left * right)
  }

  lemma CheckedMulDivides(left: U64, right: U64)
    ensures left != 0 ==> (right > (TWO_64 - 1) / left <==> left * right >= TWO_64)
    ensures left == 0 ==> left * right == 0
  {
    if left != 0 {
      var q := (TWO_64 - 1) / left;
      assert q * left <= TWO_64 - 1 < (q + 1) * left;
      if right > q {
        assert right * left >= (q + 1) * left;
      } else {
        assert right * left <= q * left;
      }
    }
  }

  function CheckedMulAdd(base: U64, index: U64, stride: U64): (r: Option<U64>)
    ensures r.Some? <==> base + index * stride < TWO_64
    ensures r.Some? ==> r.value == base + index * stride
  {
    match CheckedMul(index, stride)
    case None => None
    case Some(offset) => CheckedAdd(base, offset)
  }

  function Le16(b: seq<Byte>): U16
    requires |b| == 2
  {
    var b0: nat, b1: nat := b[0], b[1];
    b0 + 0x100 * b1
  }

  function Le32(b: seq<Byte>): U32
    requires |b| == 4
  {
    var b0: nat, b1: nat, b2: nat, b3: nat := b[0], b[1], b[2], b[3];
    b0 + 0x100 * b1 + 0x1_0000 * b2 + 0x100_0000 * b3
  }

  function Le64(b: seq<Byte>): U64
    requires |b| == 8
  {
    var low: nat, high: nat := Le32(b[..4]), Le32(b[4..]);
    low + 0x1_0000_0000 * high
  }
}
