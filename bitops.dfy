/**
 * Bitwise operations on unsigned words, for a model that keeps `uint32_t`
 * values as naturals below 2^32. `x >> k` is `x / 2^k`, `x & (2^k - 1)` is
 * `x % 2^k`, and exclusive or is `Xor`, defined one bit at a time from the
 * lowest. The lemmas are the algebra the CRC proofs need: XOR is associative
 * and commutative with 0 as unit and every value its own inverse, it keeps
 * values below a power of two, and it works on the bytes of a word separately.
 */
module BitOps {
  /** `uint8_t`. */
  type Byte = x: int | 0 <= x < 256

  /** 2^32: every 32-bit word, `uint32_t` or the bits of an `int`, lies below it. */
  const Word32Bound: nat := 0x1_0000_0000

  /** 2^k. */
  function Pow2(k: nat): (p: nat)
    ensures p >= 1
  {
    if k == 0 then 1 else 2 * Pow2(k - 1)
  }

  /** Powers of two multiply by adding exponents. */
  lemma {:induction false} Pow2Add(a: nat, b: nat)
    ensures Pow2(a + b) == Pow2(a) * Pow2(b)
  {
    if b > 0 {
      Pow2Add(a, b - 1);
      assert Pow2(a + b) == 2 * Pow2(a + (b - 1));
      assert Pow2(a) * Pow2(b) == 2 * (Pow2(a) * Pow2(b - 1));
    }
  }

  /** Bitwise exclusive or: the low bits differ or not, and the rest is the XOR of the halves. */
  function Xor(a: nat, b: nat): nat
    decreases a + b
  {
    if a == 0 then b
    else if b == 0 then a
    else 2 * Xor(a / 2, b / 2) + (if a % 2 == b % 2 then 0 else 1)
  }

  /** The recursive step of `Xor` holds for every pair, zeros included. */
  lemma XorStep(x: nat, y: nat)
    ensures Xor(x, y) == 2 * Xor(x / 2, y / 2) + (if x % 2 == y % 2 then 0 else 1)
  {
    if x == 0 {
      assert Xor(0, y / 2) == y / 2;
    } else if y == 0 {
      assert Xor(x / 2, 0) == x / 2;
    }
  }

  /** The low bit of a XOR, and its remaining bits. */
  lemma XorHalves(a: nat, b: nat)
    ensures (Xor(a, b) % 2 == 1) == (a % 2 != b % 2)
    ensures Xor(a, b) / 2 == Xor(a / 2, b / 2)
  {
    XorStep(a, b);
  }

  /** Two numbers with the same low bit and the same remaining bits are equal. */
  lemma HalvesEqual(x: nat, y: nat)
    requires (x % 2 == 1) == (y % 2 == 1) && x / 2 == y / 2
    ensures x == y
  {
  }

  /** 0 is the unit of XOR. */
  lemma XorZero(a: nat)
    ensures Xor(a, 0) == a && Xor(0, a) == a
  {
  }

  /** XOR on single bits. */
  lemma XorBits(u: nat, v: nat)
    requires u < 2 && v < 2
    ensures Xor(u, v) == if u == v then 0 else 1
  {
    if u == 1 && v == 1 {
      XorStep(1, 1);
    }
  }

  lemma {:induction false} XorComm(a: nat, b: nat)
    ensures Xor(a, b) == Xor(b, a)
    decreases a + b
  {
    if a != 0 && b != 0 {
      XorComm(a / 2, b / 2);
    }
  }

  /** Every value is its own inverse. */
  lemma {:induction false} XorSelf(a: nat)
    ensures Xor(a, a) == 0
  {
    if a != 0 {
      XorSelf(a / 2);
    }
  }

  lemma {:induction false} XorAssoc(a: nat, b: nat, c: nat)
    ensures Xor(Xor(a, b), c) == Xor(a, Xor(b, c))
    decreases a + b + c
  {
    if a == 0 || b == 0 || c == 0 {
      XorZero(a); XorZero(b); XorZero(c);
      XorZero(Xor(a, b)); XorZero(Xor(b, c));
    } else {
      XorAssoc(a / 2, b / 2, c / 2);
      XorHalves(a, b);
      XorHalves(b, c);
      XorHalves(Xor(a, b), c);
      XorHalves(a, Xor(b, c));
      HalvesEqual(Xor(Xor(a, b), c), Xor(a, Xor(b, c)));
    }
  }

  /** Two `k`-bit values XOR to a `k`-bit value. */
  lemma {:induction false} XorBound(a: nat, b: nat, k: nat)
    requires a < Pow2(k) && b < Pow2(k)
    ensures Xor(a, b) < Pow2(k)
  {
    if k > 0 && a != 0 && b != 0 {
      XorBound(a / 2, b / 2, k - 1);
    }
  }

  /** XOR splits into the XOR of the bits above the lowest and the XOR of the lowest. */
  lemma XorSplit2(x: nat, y: nat)
    ensures Xor(x, y) == 2 * Xor(x / 2, y / 2) + Xor(x % 2, y % 2)
  {
    XorStep(x, y);
    XorBits(x % 2, y % 2);
  }

  lemma XorSplit4(x: nat, y: nat)
    ensures Xor(x, y) == 4 * Xor(x / 4, y / 4) + Xor(x % 4, y % 4)
  {
    XorSplit2(x, y);
    XorSplit2(x / 2, y / 2);
    XorSplit2(x % 4, y % 4);
    assert (x / 2) / 2 == x / 4 && (y / 2) / 2 == y / 4;
    assert (x % 4) / 2 == (x / 2) % 2 && (y % 4) / 2 == (y / 2) % 2;
    assert (x % 4) % 2 == x % 2 && (y % 4) % 2 == y % 2;
  }

  lemma XorSplit16(x: nat, y: nat)
    ensures Xor(x, y) == 16 * Xor(x / 16, y / 16) + Xor(x % 16, y % 16)
  {
    XorSplit4(x, y);
    XorSplit4(x / 4, y / 4);
    XorSplit4(x % 16, y % 16);
    assert (x / 4) / 4 == x / 16 && (y / 4) / 4 == y / 16;
    assert (x % 16) / 4 == (x / 4) % 4 && (y % 16) / 4 == (y / 4) % 4;
    assert (x % 16) % 4 == x % 4 && (y % 16) % 4 == y % 4;
  }

  /** XOR works on the low byte and on the bits above it separately. */
  lemma XorSplit256(x: nat, y: nat)
    ensures Xor(x, y) == 256 * Xor(x / 256, y / 256) + Xor(x % 256, y % 256)
    ensures Xor(x % 256, y % 256) < 256
  {
    XorSplit16(x, y);
    XorSplit16(x / 16, y / 16);
    XorSplit16(x % 256, y % 256);
    assert (x / 16) / 16 == x / 256 && (y / 16) / 16 == y / 256;
    assert (x % 256) / 16 == (x / 16) % 16 && (y % 256) / 16 == (y / 16) % 16;
    assert (x % 256) % 16 == x % 16 && (y % 256) % 16 == y % 16;
    assert Pow2(8) == 256;
    XorBound(x % 256, y % 256, 8);
  }
}
