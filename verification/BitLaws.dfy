/** What the bit operations, shifts and little-endian words of Machine mean, bit by bit and byte by byte. */
module BitLaws {
  import opened Machine

  /** Bit `k` of `x`. */
  predicate Bit(x: nat, k: nat) {
    if k == 0 then x % 2 == 1 else Bit(x / 2, k - 1)
  }

  lemma {:induction false} BitIs(x: nat, k: nat)
    ensures Bit(x, k) <==> x / Pow2(k) % 2 == 1
  {
    if k > 0 {
      BitIs(x / 2, k - 1);
      HalveThenDivide(x, Pow2(k - 1));
    }
  }

  /** Halving after dividing. */
  lemma DivideThenHalve(x: nat, b: nat)
    requires b > 0
    ensures x / b / 2 == x / (2 * b)
  {
    var q, r := x / b, x % b;
    var h, o := q / 2, q % 2;
    Distributes(b, h, o);
    assert x == b * q + r;
    QuotientIs(x, 2 * b, h, if o == 0 then r else b + r);
  }

  /** And before. */
  lemma HalveThenDivide(x: nat, b: nat)
    requires b > 0
    ensures x / 2 / b == x / (2 * b)
  {
    var q, r := x / 2 / b, x / 2 % b;
    assert x / 2 == b * q + r;
    Distributes(b, q, 0);
    QuotientIs(x, 2 * b, q, 2 * r + x % 2);
  }

  lemma Distributes(b: nat, h: nat, o: nat)
    ensures b * (2 * h + o) == 2 * b * h + b * o && 2 * (b * h) == 2 * b * h
  {
  }

  lemma QuotientIs(x: nat, d: nat, q: nat, r: nat)
    requires d > 0 && x == d * q + r && r < d
    ensures x / d == q && x % d == r
  {
    Multiples(d, x / d - q);
    assert d * (x / d - q) == r - x % d;
  }

  lemma Multiples(d: nat, e: int)
    ensures e >= 1 ==> d * e >= d
    ensures e <= -1 ==> d * e <= 0 - d
  {
  }

  lemma {:induction false} AndBits(x: nat, y: nat, k: nat)
    ensures Bit(And(x, y), k) <==> Bit(x, k) && Bit(y, k)
    decreases k
  {
    if x == 0 || y == 0 {
      NoBits(k);
    } else if k > 0 {
      AndBits(x / 2, y / 2, k - 1);
    }
  }

  lemma {:induction false} OrBits(x: nat, y: nat, k: nat)
    ensures Bit(Or(x, y), k) <==> Bit(x, k) || Bit(y, k)
    decreases k
  {
    if x == 0 || y == 0 {
      NoBits(k);
    } else if k > 0 {
      OrBits(x / 2, y / 2, k - 1);
    }
  }

  lemma {:induction false} XorBits(x: nat, y: nat, k: nat)
    ensures Bit(Xor(x, y), k) <==> Bit(x, k) != Bit(y, k)
    decreases k
  {
    if x == 0 || y == 0 {
      NoBits(k);
    } else if k > 0 {
      XorBits(x / 2, y / 2, k - 1);
    }
  }

  lemma {:induction false} NoBits(k: nat)
    ensures !Bit(0, k)
  {
    if k > 0 {
      NoBits(k - 1);
    }
  }

  lemma {:induction false} ShiftRightDivides(x: nat, n: nat)
    ensures ShiftRight(x, n) == x / Pow2(n)
  {
    if n > 0 {
      ShiftRightDivides(x, n - 1);
      DivideThenHalve(x, Pow2(n - 1));
    }
  }

  lemma {:induction false} Pow2Adds(a: nat, b: nat)
    ensures Pow2(a + b) == Pow2(a) * Pow2(b)
    decreases b
  {
    if b > 0 {
      Pow2Adds(a, b - 1);
      Doubled(Pow2(a), Pow2(b - 1), 0, Pow2(b));
      assert Pow2(a + b) == 2 * Pow2(a + (b - 1));
    }
  }

  lemma Pow2Values()
    ensures Pow2(0) == 1 && Pow2(1) == 2 && Pow2(4) == 16 && Pow2(6) == 64 && Pow2(8) == 256
    ensures Pow2(24) == 0x100_0000 && Pow2(28) == 0x1000_0000
  {
    Pow2Adds(8, 8);
    Pow2Adds(16, 8);
    Pow2Adds(24, 4);
  }

  lemma OrHalves(x: nat, y: nat)
    ensures Or(x, y) == 2 * Or(x / 2, y / 2) + (if x % 2 == 1 || y % 2 == 1 then 1 else 0)
  {
  }

  /** A power of two has one bit. */
  lemma {:induction false} OneBit(n: nat, k: nat)
    ensures Bit(Pow2(n), k) <==> k == n
    decreases n
  {
    if n == 0 {
      if k > 0 {
        NoBits(k - 1);
      }
    } else if k > 0 {
      OneBit(n - 1, k - 1);
    }
  }

  lemma {:induction false} BitHeld(word: nat, n: nat)
    ensures And(word, Pow2(n)) == Pow2(n) <==> Bit(word, n)
    decreases n
  {
    AndHalves(word, Pow2(n));
    if n > 0 {
      BitHeld(word / 2, n - 1);
    } else {
      AndHalves(word / 2, 0);
    }
  }

  /** A word holds the mask of two bits exactly when it has both. */
  lemma MaskHeld(word: nat, a: nat, b: nat)
    ensures And(word, Or(Pow2(a), Pow2(b))) == Or(Pow2(a), Pow2(b)) <==> Bit(word, a) && Bit(word, b)
  {
    var mask := Or(Pow2(a), Pow2(b));
    BitHeld(word, a);
    BitHeld(word, b);
    if Bit(word, a) && Bit(word, b) {
      AndAbsorbsOr(word, Pow2(a), Pow2(b));
    } else if And(word, mask) == mask {
      MaskBit(word, mask, a, b, a);
      MaskBit(word, mask, a, b, b);
    }
  }

  lemma MaskBit(word: nat, mask: nat, a: nat, b: nat, k: nat)
    requires mask == Or(Pow2(a), Pow2(b)) && And(word, mask) == mask && (k == a || k == b)
    ensures Bit(word, k)
  {
    AndBits(word, mask, k);
    OrBits(Pow2(a), Pow2(b), k);
    OneBit(a, k);
    OneBit(b, k);
  }

  /** Two numbers cut at bit `k` meet part by part. */
  lemma {:induction false} AndSplit(x: nat, y: nat, a: nat, b: nat, c: nat, d: nat, k: nat, p: nat)
    requires p == Pow2(k) && x == a * p + b && y == c * p + d && b < p && d < p
    ensures And(x, y) == And(a, c) * p + And(b, d)
    decreases k
  {
    if k > 0 {
      var half := Pow2(k - 1);
      Halved(x, a, b, half, p);
      Halved(y, c, d, half, p);
      AndSplit(x / 2, y / 2, a, b / 2, c, d / 2, k - 1, half);
      AndStep(x, y, b, d, And(a, c), half, p);
    }
  }

  lemma AndStep(x: nat, y: nat, b: nat, d: nat, m: nat, half: nat, p: nat)
    requires p == 2 * half && x % 2 == b % 2 && y % 2 == d % 2 && And(x / 2, y / 2) == m * half + And(b / 2, d / 2)
    ensures And(x, y) == m * p + And(b, d)
  {
    AndHalves(x, y);
    AndHalves(b, d);
    Doubled(m, half, And(b / 2, d / 2), p);
  }

  lemma AndHalves(x: nat, y: nat)
    ensures And(x, y) == 2 * And(x / 2, y / 2) + (if x % 2 == 1 && y % 2 == 1 then 1 else 0)
  {
  }

  lemma {:induction false} XorSplit(x: nat, y: nat, a: nat, b: nat, c: nat, d: nat, k: nat, p: nat)
    requires p == Pow2(k) && x == a * p + b && y == c * p + d && b < p && d < p
    ensures Xor(x, y) == Xor(a, c) * p + Xor(b, d)
    ensures Xor(b, d) < p
    decreases k
  {
    if k > 0 {
      var half := Pow2(k - 1);
      Halved(x, a, b, half, p);
      Halved(y, c, d, half, p);
      XorSplit(x / 2, y / 2, a, b / 2, c, d / 2, k - 1, half);
      XorStep(x, y, b, d, Xor(a, c), half, p);
    }
  }

  lemma XorStep(x: nat, y: nat, b: nat, d: nat, m: nat, half: nat, p: nat)
    requires p == 2 * half && x % 2 == b % 2 && y % 2 == d % 2 && Xor(x / 2, y / 2) == m * half + Xor(b / 2, d / 2)
    ensures Xor(x, y) == m * p + Xor(b, d)
  {
    XorHalves(x, y);
    XorHalves(b, d);
    Doubled(m, half, Xor(b / 2, d / 2), p);
  }

  lemma XorHalves(x: nat, y: nat)
    ensures Xor(x, y) == 2 * Xor(x / 2, y / 2) + (if x % 2 != y % 2 then 1 else 0)
  {
  }

  lemma Doubled(m: nat, half: nat, q: nat, p: nat)
    requires p == 2 * half
    ensures 2 * (m * half + q) == m * p + 2 * q
  {
  }

  lemma Halved(x: nat, a: nat, b: nat, half: nat, p: nat)
    requires p == 2 * half && x == a * p + b && b < p
    ensures x / 2 == a * half + b / 2 && x % 2 == b % 2 && b / 2 < half
  {
    Doubled(a, half, 0, p);
  }

  /** The low `k` bits. */
  lemma LowMask(x: nat, k: nat)
    ensures And(x, Pow2(k) - 1) == x % Pow2(k)
  {
    var q, r := Divided(x, Pow2(k));
    LowPart(x, q, r, k, Pow2(k));
  }

  lemma LowPart(x: nat, q: nat, r: nat, k: nat, p: nat)
    requires p == Pow2(k) && x == q * p + r && r < p
    ensures And(x, p - 1) == r
  {
    AndSplit(x, p - 1, q, r, 0, p - 1, k, p);
    AndAllOnes(r, k, p);
  }

  lemma Divided(x: nat, p: nat) returns (q: nat, r: nat)
    requires p > 0
    ensures x == q * p + r && r < p && r == x % p && q == x / p
  {
    q, r := x / p, x % p;
  }

  /** A mask of bits from `k` on. */
  lemma HighMask(x: nat, q: nat, r: nat, m: nat, k: nat, p: nat)
    requires p == Pow2(k) && x == q * p + r && r < p
    ensures And(x, m * p) == And(q, m) * p
  {
    AndSplit(x, m * p, q, r, m, 0, k, p);
  }

  /** Two numbers whose bits below `k` are complements share none. */
  lemma {:induction false} AndComplement(x: nat, y: nat, k: nat, p: nat)
    requires p == Pow2(k) && x + y == p - 1
    ensures And(x, y) == 0
    decreases k
  {
    if k > 0 {
      var half := Pow2(k - 1);
      assert x / 2 + y / 2 == half - 1 && x % 2 + y % 2 == 1;
      AndComplement(x / 2, y / 2, k - 1, half);
      AndHalves(x, y);
    }
  }

  lemma {:induction false} AndAllOnes(x: nat, k: nat, p: nat)
    requires p == Pow2(k) && x < p
    ensures And(x, p - 1) == x
    decreases k
  {
    if k > 0 {
      var half := Pow2(k - 1);
      assert p == 2 * half && (p - 1) / 2 == half - 1 && (p - 1) % 2 == 1;
      AndAllOnes(x / 2, k - 1, half);
      AndHalves(x, p - 1);
    }
  }

  /** `x & (x - 1)` is zero exactly for powers of two. */
  lemma {:induction false} PowerOfTwo(x: nat) returns (k: nat)
    requires x > 0 && And(x, x - 1) == 0
    ensures x == Pow2(k)
    decreases x
  {
    AndHalves(x, x - 1);
    if x == 1 {
      k := 0;
    } else {
      AndAgain(x / 2);
      assert x % 2 == 0;
      k := PowerOfTwo(x / 2);
      k := k + 1;
    }
  }

  lemma {:induction false} AndAgain(x: nat)
    ensures And(x, x) == x
  {
    if x > 0 {
      AndAgain(x / 2);
      AndHalves(x, x);
    }
  }

  lemma {:induction false} PowerPasses(k: nat)
    ensures And(Pow2(k), Pow2(k) - 1) == 0
  {
    if k > 0 {
      PowerPasses(k - 1);
      AndHalves(Pow2(k), Pow2(k) - 1);
    }
  }

  // ---- Little-endian words ----

  function Bytes16(x: U16): seq<Byte> {
    [x % 0x100, x / 0x100]
  }

  function Bytes32(x: U32): seq<Byte> {
    [x % 0x100, x / 0x100 % 0x100, x / 0x100 / 0x100 % 0x100, x / 0x100 / 0x100 / 0x100]
  }

  function Bytes64(x: U64): seq<Byte> {
    Bytes32(x % 0x1_0000_0000) + Bytes32(x / 0x1_0000_0000)
  }

  lemma Le16Reads(x: U16)
    ensures Le16(Bytes16(x)) == x
  {
  }

  lemma Le32Reads(x: U32)
    ensures Le32(Bytes32(x)) == x
  {
  }

  lemma Le64Reads(x: U64)
    ensures Le64(Bytes64(x)) == x
  {
    var low, high := Bytes32(x % 0x1_0000_0000), Bytes32(x / 0x1_0000_0000);
    assert (low + high)[..4] == low && (low + high)[4..] == high;
    Le32Reads(x % 0x1_0000_0000);
    Le32Reads(x / 0x1_0000_0000);
  }
}
