/**
 * The CRC-32 kernel (src/rnbench.c:241-296): a table-driven CRC over a
 * buffer of random printable bytes.
 *
 * `uint32_t` values are naturals below 2^32 with the operations of `BitOps`.
 * The table entries are complemented in a way that makes a register started
 * at 0, with no final XOR, hold exactly the standard reflected CRC-32 of
 * ISO/IEC 3309 and IEEE 802.3 (as in section 8 of RFC 1952): initial register
 * 0xFFFFFFFF, polynomial 0xEDB88320, final XOR 0xFFFFFFFF. `StdCrc32` is that
 * standard algorithm written bit by bit; `TableMatchesStandard` proves that
 * the source's register agrees with it on every input.
 */
module Crc32 {
  import opened Prng
  import opened BitOps

  /** The reflected CRC-32 polynomial. */
  const Poly: nat := 0xEDB8_8320
  /** All 32 bits set: the standard initial register and final XOR. */
  const Mask32: nat := 0xFFFF_FFFF
  /** The top byte `crc32_for_byte` complements. */
  const TopByte: nat := 0xFF00_0000
  /** The low 24 bits set. */
  const Low24: nat := 0xFF_FFFF
  /** `CRC32_TEST_DATA_SIZE` */
  const TestDataSize: int := 128
  /** `BENCH_CRC32_ITERATIONS` */
  const Iterations: int := 1000

  // ---------------------------------------------------------------------
  // The standard CRC-32, one bit at a time

  /** One bit of the standard reflected CRC: shift right, XOR the polynomial when a 1 falls out. */
  function StdRound(c: nat): nat
  {
    if c % 2 == 1 then Xor(c / 2, Poly) else c / 2
  }

  /** `n` bits of the standard CRC. */
  function StdRounds(c: nat, n: nat): nat
  {
    if n == 0 then c else StdRound(StdRounds(c, n - 1))
  }

  /** The standard register after one more byte. */
  function StdByte(c: nat, b: Byte): nat
  {
    StdRounds(Xor(c, b), 8)
  }

  /** The standard register after `data`, started with all bits set. */
  function StdRegister(data: seq<Byte>): nat
  {
    if |data| == 0 then Mask32
    else StdByte(StdRegister(data[..|data| - 1]), data[|data| - 1])
  }

  /** The standard CRC-32 of `data`: the register complemented at the end. */
  function StdCrc32(data: seq<Byte>): nat
  {
    Xor(StdRegister(data), Mask32)
  }

  // ---------------------------------------------------------------------
  // Algebra of the standard rounds

  lemma XorSwapLast(x: nat, y: nat, p: nat)
    ensures Xor(Xor(x, y), p) == Xor(Xor(x, p), y)
  {
    XorAssoc(x, y, p);
    XorComm(y, p);
    XorAssoc(x, p, y);
  }

  lemma XorCancel(x: nat, y: nat, p: nat)
    ensures Xor(Xor(x, p), Xor(y, p)) == Xor(x, y)
  {
    XorAssoc(x, p, Xor(y, p));
    XorComm(y, p);
    XorAssoc(p, p, y);
    XorSelf(p);
    XorZero(y);
  }

  /** A standard round is linear: it distributes over XOR. */
  lemma StdRoundLinear(a: nat, b: nat)
    ensures StdRound(Xor(a, b)) == Xor(StdRound(a), StdRound(b))
  {
    XorHalves(a, b);
    var u, v := a / 2, b / 2;
    if a % 2 == 1 && b % 2 == 1 {
      XorCancel(u, v, Poly);
    } else if a % 2 == 1 {
      XorSwapLast(u, v, Poly);
    } else if b % 2 == 1 {
      XorAssoc(u, v, Poly);
    }
  }

  /** `n` standard rounds are linear. */
  lemma {:induction false} StdRoundsLinear(a: nat, b: nat, n: nat)
    ensures StdRounds(Xor(a, b), n) == Xor(StdRounds(a, n), StdRounds(b, n))
  {
    if n > 0 {
      StdRoundsLinear(a, b, n - 1);
      StdRoundLinear(StdRounds(a, n - 1), StdRounds(b, n - 1));
    }
  }

  /** A round on an even value only halves it. */
  lemma StdRoundEven(t: nat)
    ensures StdRound(2 * t) == t
  {
  }

  /** Eight rounds on a multiple of 256 only shift it down by a byte. */
  lemma StdRoundsOfHigh(q: nat)
    ensures StdRounds(256 * q, 8) == q
  {
    var t1 := 2 * q;
    var t2 := 2 * t1;
    var t3 := 2 * t2;
    var t4 := 2 * t3;
    var t5 := 2 * t4;
    var t6 := 2 * t5;
    var t7 := 2 * t6;
    assert 256 * q == 2 * t7;
    StdRoundEven(t7);
    assert StdRounds(256 * q, 1) == t7;
    StdRoundEven(t6);
    assert StdRounds(256 * q, 2) == t6;
    StdRoundEven(t5);
    assert StdRounds(256 * q, 3) == t5;
    StdRoundEven(t4);
    assert StdRounds(256 * q, 4) == t4;
    StdRoundEven(t3);
    assert StdRounds(256 * q, 5) == t3;
    StdRoundEven(t2);
    assert StdRounds(256 * q, 6) == t2;
    StdRoundEven(t1);
    assert StdRounds(256 * q, 7) == t1;
    StdRoundEven(q);
  }

  // ---------------------------------------------------------------------
  // The source's table entries

  /** One iteration of the loop of `crc32_for_byte`: the polynomial is XORed when a 0 falls out. */
  function InvRound(r: nat): nat
  {
    Xor(if r % 2 == 1 then 0 else Poly, r / 2)
  }

  /** `n` iterations of that loop. */
  function InvRounds(r: nat, n: nat): nat
  {
    if n == 0 then r else InvRound(InvRounds(r, n - 1))
  }

  /** What `crc32_for_byte` returns: eight iterations, then the top byte complemented. */
  function ForByte(r: nat): nat
  {
    Xor(InvRounds(r, 8), TopByte)
  }

  /**
   * A source round on a value XORed with a mask whose low bit is set is a
   * standard round, the rest of the mask shifted along.
   */
  lemma InvRoundMasked(y: nat, m: nat)
    requires m % 2 == 1
    ensures InvRound(Xor(y, m)) == Xor(StdRound(y), m / 2)
  {
    XorHalves(y, m);
    if y % 2 == 1 {
      XorComm(Poly, Xor(y / 2, m / 2));
      XorSwapLast(y / 2, m / 2, Poly);
    } else {
      XorZero(Xor(y / 2, m / 2));
    }
  }

  lemma InvRoundsMaskedStep(x: nat, k: nat, m: nat)
    requires k >= 1 && m % 2 == 1
    requires InvRounds(Xor(x, 0xFF), k - 1) == Xor(StdRounds(x, k - 1), m)
    ensures InvRounds(Xor(x, 0xFF), k) == Xor(StdRounds(x, k), m / 2)
  {
    InvRoundMasked(StdRounds(x, k - 1), m);
  }

  /** `crc32_for_byte` of a complemented byte is eight standard rounds with the top byte complemented. */
  lemma ForByteStd(x: nat)
    ensures ForByte(Xor(x, 0xFF)) == Xor(StdRounds(x, 8), TopByte)
  {
    InvRoundsMaskedStep(x, 1, 0xFF);
    InvRoundsMaskedStep(x, 2, 0x7F);
    InvRoundsMaskedStep(x, 3, 0x3F);
    InvRoundsMaskedStep(x, 4, 0x1F);
    InvRoundsMaskedStep(x, 5, 0x0F);
    InvRoundsMaskedStep(x, 6, 0x07);
    InvRoundsMaskedStep(x, 7, 0x03);
    InvRoundsMaskedStep(x, 8, 0x01);
    XorZero(StdRounds(x, 8));
  }

  // ---------------------------------------------------------------------
  // The table-driven register

  /** The table index of `crc32`: the register's low byte XOR the data byte. */
  function TableIndex(r: nat, b: Byte): nat
  {
    Xor(r % 256, b)
  }

  /** One step of the loop of `crc32` with a filled table. */
  function TableStep(r: nat, b: Byte): nat
  {
    Xor(ForByte(TableIndex(r, b)), r / 256)
  }

  /** The register of `crc32` after `data`, started at 0. */
  function TableRegister(data: seq<Byte>): nat
  {
    if |data| == 0 then 0
    else TableStep(TableRegister(data[..|data| - 1]), data[|data| - 1])
  }

  /** Gluing a byte below a value whose low byte is clear is addition. */
  lemma XorGlue(h: nat, l: nat)
    requires l < 256
    ensures Xor(256 * h, l) == 256 * h + l
  {
    XorSplit256(256 * h, l);
    assert (256 * h) / 256 == h && (256 * h) % 256 == 0;
    assert l / 256 == 0 && l % 256 == l;
    XorZero(h);
    XorZero(l);
  }

  /** A value with a clear low byte XOR one with a full low byte. */
  lemma XorGlueFull(h: nat, g: nat)
    ensures Xor(256 * h, 256 * g + 255) == 256 * Xor(h, g) + 255
  {
    XorSplit256(256 * h, 256 * g + 255);
    assert (256 * h) / 256 == h && (256 * h) % 256 == 0;
    assert (256 * g + 255) / 256 == g && (256 * g + 255) % 256 == 255;
    XorZero(255);
  }

  lemma LowTwoBytes()
    ensures Xor(0xFF00, 0xFF) == 0xFFFF
  {
    XorGlueFull(0xFF, 0);
    XorZero(0xFF);
  }

  lemma LowThreeBytes()
    ensures Xor(0xFF_0000, 0xFFFF) == 0xFF_FFFF
  {
    XorGlueFull(0xFF00, 0xFF);
    LowTwoBytes();
  }

  /** The top byte and the low 24 bits together make all 32 bits. */
  lemma TopByteAndRest()
    ensures Xor(TopByte, Low24) == Mask32
  {
    XorGlueFull(0xFF_0000, 0xFFFF);
    LowThreeBytes();
  }

  lemma XorRegroup(s: nat, t: nat, a: nat, f: nat)
    ensures Xor(Xor(s, t), Xor(a, f)) == Xor(Xor(s, a), Xor(t, f))
  {
    XorAssoc(s, t, Xor(a, f));
    XorAssoc(t, a, f);
    XorComm(t, a);
    XorAssoc(a, t, f);
    XorAssoc(s, a, Xor(t, f));
  }

  /** The register complemented, split into its low byte and the rest. */
  lemma ComplementSplit(c: nat)
    ensures Xor(c, Mask32) % 256 == Xor(c % 256, 0xFF)
    ensures Xor(c, Mask32) / 256 == Xor(c / 256, Low24)
  {
    assert Mask32 % 256 == 0xFF && Mask32 / 256 == Low24;
    XorSplit256(c, Mask32);
  }

  /** The register XOR a byte: the byte only touches the low byte. */
  lemma ByteSplit(c: nat, b: Byte)
    ensures Xor(c, b) == Xor(Xor(c % 256, b), 256 * (c / 256))
  {
    XorSplit256(c, b);
    XorZero(c / 256);
    var z := Xor(c % 256, b);
    XorGlue(c / 256, z);
    XorComm(z, 256 * (c / 256));
  }

  /** The table side of one step, on a complemented register. */
  lemma TableStepComplement(c: nat, b: Byte)
    ensures TableStep(Xor(c, Mask32), b)
         == Xor(Xor(StdRounds(Xor(c % 256, b), 8), c / 256), Mask32)
  {
    var z := Xor(c % 256, b);
    ComplementSplit(c);
    XorSwapLast(c % 256, 0xFF, b);
    assert TableIndex(Xor(c, Mask32), b) == Xor(z, 0xFF);
    ForByteStd(z);
    XorRegroup(StdRounds(z, 8), TopByte, c / 256, Low24);
    TopByteAndRest();
  }

  /** The standard side of one step: the high bytes only shift down. */
  lemma StdByteSplit(c: nat, b: Byte)
    ensures StdByte(c, b) == Xor(StdRounds(Xor(c % 256, b), 8), c / 256)
  {
    var z := Xor(c % 256, b);
    ByteSplit(c, b);
    StdRoundsLinear(z, 256 * (c / 256), 8);
    StdRoundsOfHigh(c / 256);
  }

  /** On a complemented standard register, one table step is one standard byte step, complemented. */
  lemma TableStepStd(c: nat, b: Byte)
    ensures TableStep(Xor(c, Mask32), b) == Xor(StdByte(c, b), Mask32)
  {
    TableStepComplement(c, b);
    StdByteSplit(c, b);
  }

  /** The CRC-32 of no bytes is 0, on the standard side and on the table side. */
  lemma Crc32Empty()
    ensures StdCrc32([]) == 0 && TableRegister([]) == 0
  {
    XorSelf(Mask32);
  }

  /** `crc32` computes the standard CRC-32 of its data, whatever the data. */
  lemma {:induction false} TableMatchesStandard(data: seq<Byte>)
    ensures TableRegister(data) == StdCrc32(data)
  {
    if |data| == 0 {
      XorSelf(Mask32);
    } else {
      var init := data[..|data| - 1];
      TableMatchesStandard(init);
      TableStepStd(StdRegister(init), data[|data| - 1]);
    }
  }

  // ---------------------------------------------------------------------
  // Everything stays a 32-bit value

  lemma Word32BoundIsPow2()
    ensures Pow2(32) == Word32Bound && Pow2(8) == 256
  {
    assert Pow2(8) == 256;
    Pow2Add(8, 8);
    Pow2Add(16, 16);
  }

  /** Two 32-bit values XOR to a 32-bit value. */
  lemma XorBound32(a: nat, b: nat)
    requires a < Word32Bound && b < Word32Bound
    ensures Xor(a, b) < Word32Bound
  {
    Word32BoundIsPow2();
    XorBound(a, b, 32);
  }

  /** A standard round keeps a 32-bit register within 32 bits. */
  lemma StdRoundBound(c: nat)
    requires c < Word32Bound
    ensures StdRound(c) < Word32Bound
  {
    Word32BoundIsPow2();
    XorBound(c / 2, Poly, 32);
  }

  lemma {:induction false} StdRoundsBound(c: nat, n: nat)
    requires c < Word32Bound
    ensures StdRounds(c, n) < Word32Bound
  {
    if n > 0 {
      StdRoundsBound(c, n - 1);
      StdRoundBound(StdRounds(c, n - 1));
    }
  }

  /** The standard register is always a 32-bit value, and so is the CRC. */
  lemma {:induction false} StdCrc32Bound(data: seq<Byte>)
    ensures StdRegister(data) < Word32Bound
    ensures StdCrc32(data) < Word32Bound
  {
    Word32BoundIsPow2();
    if |data| > 0 {
      var init := data[..|data| - 1];
      StdCrc32Bound(init);
      XorBound(StdRegister(init), data[|data| - 1], 32);
      StdRoundsBound(Xor(StdRegister(init), data[|data| - 1]), 8);
    }
    XorBound(StdRegister(data), Mask32, 32);
  }

  /** The index `crc32` reads the table at is a byte. */
  lemma TableIndexBound(r: nat, b: Byte)
    ensures TableIndex(r, b) < 256
  {
    Word32BoundIsPow2();
    XorBound(r % 256, b, 8);
  }

  // ---------------------------------------------------------------------
  // The kernel

  /** `crc32_for_byte`: eight iterations of its loop, then the top byte complemented. */
  method CrcForByte(r0: nat) returns (r: nat)
    ensures r == ForByte(r0)
  {
    r := r0;
    var j := 0;
    while j < 8
      invariant 0 <= j <= 8 && r == InvRounds(r0, j)
    {
      assert InvRounds(r0, j + 1) == InvRound(r);
      r := Xor(if r % 2 == 1 then 0 else Poly, r / 2);
      j := j + 1;
    }
    r := Xor(r, TopByte);
  }

  /**
   * The table `crc32` keeps in a `static` array across calls. It starts out
   * all zero and is filled with `crc32_for_byte(i)` on the first call that
   * finds its entry 0 still zero.
   */
  class Crc32Table {
    const table: array<nat>

    /** All zero, as before the first call. */
    ghost predicate Zeroed()
      reads this, table
    {
      table.Length == 256 && forall i :: 0 <= i < 256 ==> table[i] == 0
    }

    /** Filled: entry `i` is `crc32_for_byte(i)`. */
    ghost predicate Built()
      reads this, table
    {
      table.Length == 256 && forall i :: 0 <= i < 256 ==> table[i] == ForByte(i)
    }

    /** The two states the table can be in between calls. */
    ghost predicate Valid()
      reads this, table
    {
      Zeroed() || Built()
    }

    /** `static uint32_t table[0x100] = { 0 };` */
    constructor ()
      ensures Zeroed() && fresh(table)
    {
      table := new nat[256](_ => 0);
    }

    /** The fill loop of `crc32`: entry `i` becomes `crc32_for_byte(i)`. */
    method Fill()
      requires table.Length == 256
      modifies table
      ensures Built()
    {
      var i := 0;
      while i < 256
        invariant 0 <= i <= 256
        invariant forall k :: 0 <= k < i ==> table[k] == ForByte(k)
      {
        table[i] := CrcForByte(i);
        i := i + 1;
      }
    }

    /**
     * `crc32`: fill the table if its entry 0 is zero, then run the
     * table-driven loop from a zero register over the first `nBytes` bytes of
     * `data`. The result is the standard CRC-32 of those bytes.
     */
    method Crc32(data: array<Byte>, nBytes: nat) returns (crc: nat)
      requires Valid() && nBytes <= data.Length
      modifies table
      ensures Built()
      ensures crc == StdCrc32(data[..nBytes]) && crc < Word32Bound
    {
      if table[0] == 0 {
        Fill();
      }
      crc := 0;
      var i := 0;
      while i < nBytes
        invariant 0 <= i <= nBytes && Built()
        invariant crc == TableRegister(data[..i])
      {
        var b := data[i];
        var idx := Xor(crc % 256, b);
        TableIndexBound(crc, b);
        assert table[idx] == ForByte(idx);
        assert data[..i + 1] == data[..i] + [b];
        crc := Xor(table[idx], crc / 256);
        i := i + 1;
      }
      assert data[..i] == data[..nBytes];
      TableMatchesStandard(data[..nBytes]);
      StdCrc32Bound(data[..nBytes]);
    }
  }

  /** The `k` printable bytes `crc32_fill_test_data` draws from state `s`. */
  function CrcData(s: int, k: nat): (d: seq<Byte>)
    ensures |d| == k
    ensures forall j :: 0 <= j < k ==> 32 <= d[j] < 126
  {
    if k == 0 then [] else CrcData(s, k - 1) + [Range(StepN(s, k - 1), 32, 126)]
  }

  /** `crc32_fill_test_data`: one draw in [32, 126) per byte. */
  method CrcFillTestData(a: array<Byte>, size: nat, rng: Rng)
    requires size <= a.Length
    modifies a, rng
    ensures a[..size] == CrcData(old(rng.state), size)
    ensures a[size..] == old(a[size..])
    ensures rng.state == StepN(old(rng.state), size)
  {
    ghost var s0 := rng.state;
    var i := 0;
    while i < size
      invariant 0 <= i <= size
      invariant a[..i] == CrcData(s0, i)
      invariant a[size..] == old(a[size..])
      invariant rng.state == StepN(s0, i)
    {
      var v := rng.GetIntRange(32, 126);
      a[i] := v;
      assert a[..i + 1] == a[..i] + [v];
      i := i + 1;
    }
  }

  /** `k` kernel rounds from state `s`: the XOR of their CRCs and the state after them. */
  function CrcRounds(s: int, k: nat): (nat, int)
  {
    if k == 0 then (0, s)
    else
      var before := CrcRounds(s, k - 1);
      (Xor(before.0, StdCrc32(CrcData(before.1, TestDataSize))), StepN(before.1, TestDataSize))
  }

  /** The benchmark's hash is a 32-bit value. */
  lemma {:induction false} CrcRoundsBound(s: int, k: nat)
    ensures CrcRounds(s, k).0 < Word32Bound
  {
    if k > 0 {
      var before := CrcRounds(s, k - 1);
      CrcRoundsBound(s, k - 1);
      StdCrc32Bound(CrcData(before.1, TestDataSize));
      XorBound32(before.0, StdCrc32(CrcData(before.1, TestDataSize)));
    }
  }

  /** One round of `bench_crc32_hashes`: fill the buffer with fresh bytes, then hash it. */
  method CrcRound(rng: Rng, crcTable: Crc32Table, testData: array<Byte>) returns (crc: nat)
    requires crcTable.Valid() && testData.Length == TestDataSize
    modifies rng, crcTable.table, testData
    ensures crcTable.Built()
    ensures crc == StdCrc32(CrcData(old(rng.state), TestDataSize))
    ensures rng.state == StepN(old(rng.state), TestDataSize)
  {
    CrcFillTestData(testData, TestDataSize, rng);
    crc := crcTable.Crc32(testData, TestDataSize);
  }

  /**
   * `bench_crc32_hashes`: 1000 rounds of filling 128 random printable bytes
   * and XOR-ing their CRC-32 into the result.
   */
  method BenchCrc32Hashes(rng: Rng, crcTable: Crc32Table) returns (hash: nat)
    requires crcTable.Valid()
    modifies rng, crcTable.table
    ensures hash == CrcRounds(old(rng.state), Iterations).0
    ensures rng.state == CrcRounds(old(rng.state), Iterations).1
    ensures crcTable.Built()
    ensures hash < Word32Bound
  {
    ghost var s0 := rng.state;
    var testData := new Byte[TestDataSize];
    hash := 0;
    var i := 0;
    while i < Iterations
      invariant 0 <= i <= Iterations && crcTable.Valid()
      invariant i > 0 ==> crcTable.Built()
      invariant hash == CrcRounds(s0, i).0 && rng.state == CrcRounds(s0, i).1
    {
      var crc := CrcRound(rng, crcTable, testData);
      hash := Xor(hash, crc);
      i := i + 1;
    }
    CrcRoundsBound(s0, Iterations);
  }
}
