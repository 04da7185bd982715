/**
 * The run-length kernel (src/rnbench.c:298-373): fill a buffer with random
 * runs of bytes, then run-length encode it.
 *
 * `rle_compress` emits, for every maximal run except the last one, the byte
 * alone when the run is one byte long, and otherwise the byte twice followed
 * by the run length as a little-endian 16-bit count. Nothing is emitted after
 * its loop, so the final run of the input never reaches the output. The run
 * length is kept in a `uint16_t`, so it wraps modulo 65536.
 */
module Rle {
  import opened Prng
  import opened BitOps

  /** `RLE_TEST_DATA_SIZE` */
  const TestDataSize: int := 1024
  /** The size of `compressed_data`. */
  const OutputSize: int := 3 * TestDataSize
  /** `BENCH_RLE_ITERATIONS` */
  const Iterations: int := 250
  /** `same_bytes_num` is a `uint16_t`. */
  const CountModulus: int := 0x1_0000

  /** A run: `length` copies of `value`. */
  datatype Run = Run(value: Byte, length: nat)

  /** `n` copies of `b`. */
  function Repeat(b: Byte, n: nat): (r: seq<Byte>)
    ensures |r| == n && forall k :: 0 <= k < n ==> r[k] == b
  {
    if n == 0 then [] else Repeat(b, n - 1) + [b]
  }

  lemma RepeatCons(b: Byte, n: nat)
    ensures [b] + Repeat(b, n) == Repeat(b, n + 1)
  {
    assert ([b] + Repeat(b, n))[0] == b;
  }

  /** The bytes a sequence of runs stands for. */
  function Expand(rs: seq<Run>): seq<Byte>
  {
    if |rs| == 0 then [] else Repeat(rs[0].value, rs[0].length) + Expand(rs[1..])
  }

  lemma {:induction false} ExpandAppend(a: seq<Run>, b: seq<Run>)
    ensures Expand(a + b) == Expand(a) + Expand(b)
  {
    if |a| == 0 {
      assert a + b == b;
    } else {
      assert (a + b)[1..] == a[1..] + b;
      ExpandAppend(a[1..], b);
    }
  }

  /**
   * The maximal runs of `s`, built from the left the way `rle_compress`
   * reads its input: a byte equal to the last one lengthens the last run,
   * any other byte starts a new run.
   */
  function Runs(s: seq<Byte>): seq<Run>
  {
    if |s| == 0 then []
    else
      var rs := Runs(s[..|s| - 1]);
      var b := s[|s| - 1];
      if |rs| > 0 && rs[|rs| - 1].value == b then rs[..|rs| - 1] + [Run(b, rs[|rs| - 1].length + 1)]
      else rs + [Run(b, 1)]
  }

  /** A non-empty input has runs, and the last run holds its last byte. */
  lemma {:induction false} RunsShape(s: seq<Byte>)
    ensures |Runs(s)| > 0 <==> |s| > 0
    ensures |s| > 0 ==> Runs(s)[|Runs(s)| - 1].value == s[|s| - 1]
  {
    if |s| > 0 {
      RunsShape(s[..|s| - 1]);
    }
  }

  /** The last run of a non-empty input. */
  function LastRun(s: seq<Byte>): (r: Run)
    requires |s| > 0
    ensures r.value == s[|s| - 1]
  {
    RunsShape(s);
    Runs(s)[|Runs(s)| - 1]
  }

  /** Runs are non-empty, no longer than the input, and neighbours differ. */
  ghost predicate MaximalRuns(rs: seq<Run>, bound: nat)
  {
    && (forall i :: 0 <= i < |rs| ==> 1 <= rs[i].length <= bound)
    && (forall i :: 0 <= i < |rs| - 1 ==> rs[i].value != rs[i + 1].value)
  }

  /** The runs of `s` expand back to `s`. */
  lemma {:induction false} RunsExpand(s: seq<Byte>)
    ensures Expand(Runs(s)) == s
  {
    if |s| > 0 {
      var init := s[..|s| - 1];
      var b := s[|s| - 1];
      var rs := Runs(init);
      RunsExpand(init);
      assert init + [b] == s;
      if |rs| > 0 && rs[|rs| - 1].value == b {
        var last := rs[|rs| - 1];
        var front := rs[..|rs| - 1];
        assert rs == front + [last];
        ExpandAppend(front, [last]);
        ExpandAppend(front, [Run(b, last.length + 1)]);
        assert Expand([last]) == Repeat(b, last.length);
        assert Expand([Run(b, last.length + 1)]) == Repeat(b, last.length + 1);
      } else {
        ExpandAppend(rs, [Run(b, 1)]);
        assert Expand([Run(b, 1)]) == [b];
      }
    }
  }

  /** The runs of `s` are maximal: non-empty, no longer than `s`, and neighbours differ. */
  lemma {:induction false} RunsMaximal(s: seq<Byte>)
    ensures MaximalRuns(Runs(s), |s|)
  {
    if |s| > 0 {
      var init, b := s[..|s| - 1], s[|s| - 1];
      var rs := Runs(init);
      RunsMaximal(init);
      if |rs| > 0 && rs[|rs| - 1].value == b {
        var grown := rs[..|rs| - 1] + [Run(b, rs[|rs| - 1].length + 1)];
        assert Runs(s) == grown;
        assert forall i :: 0 <= i < |rs| - 1 ==> grown[i] == rs[i];
        assert grown[|rs| - 1].value == rs[|rs| - 1].value;
      } else {
        var added := rs + [Run(b, 1)];
        assert Runs(s) == added;
        assert forall i :: 0 <= i < |rs| ==> added[i] == rs[i];
      }
    }
  }

  /**
   * What `rle_compress` writes for a run of `b` whose 16-bit count is `w`:
   * the byte alone when the count is 1, otherwise the byte twice, the low
   * byte of the count and its high byte.
   */
  function Emit(b: Byte, w: int): (t: seq<Byte>)
    requires 0 <= w < CountModulus
  {
    if w == 1 then [b] else [b, b, w % 256, w / 256]
  }

  /** The token of a run: its count wraps modulo 65536. */
  function Token(r: Run): seq<Byte>
  {
    Emit(r.value, r.length % CountModulus)
  }

  /** The tokens of a sequence of runs, one after another. */
  function Tokens(rs: seq<Run>): seq<Byte>
  {
    if |rs| == 0 then [] else Token(rs[0]) + Tokens(rs[1..])
  }

  lemma {:induction false} TokensAppend(a: seq<Run>, b: seq<Run>)
    ensures Tokens(a + b) == Tokens(a) + Tokens(b)
  {
    if |a| == 0 {
      assert a + b == b;
    } else {
      assert (a + b)[1..] == a[1..] + b;
      TokensAppend(a[1..], b);
    }
  }

  /** The output of `rle_compress` on a non-empty input: the tokens of all runs but the last. */
  function RleCode(s: seq<Byte>): seq<Byte>
  {
    var rs := Runs(s);
    if |rs| == 0 then [] else Tokens(rs[..|rs| - 1])
  }

  /** One more input byte either lengthens the last run or flushes its token. */
  lemma RleCodeSnoc(s: seq<Byte>, b: Byte)
    requires |s| > 0
    ensures b == LastRun(s).value ==> RleCode(s + [b]) == RleCode(s)
    ensures b == LastRun(s).value ==> LastRun(s + [b]) == Run(b, LastRun(s).length + 1)
    ensures b != LastRun(s).value ==> RleCode(s + [b]) == RleCode(s) + Token(LastRun(s))
    ensures b != LastRun(s).value ==> LastRun(s + [b]) == Run(b, 1)
  {
    assert (s + [b])[..|s|] == s;
    var rs := Runs(s);
    var front := rs[..|rs| - 1];
    if b == LastRun(s).value {
      assert Runs(s + [b])[..|rs| - 1] == front;
    } else {
      assert Runs(s + [b])[..|rs|] == rs;
      assert rs == front + [LastRun(s)];
      TokensAppend(front, [LastRun(s)]);
      assert Tokens([LastRun(s)]) == Token(LastRun(s));
    }
  }

  /** The output only grows as the input is read. */
  lemma {:induction false} RleCodePrefix(s: seq<Byte>, n: nat)
    requires 1 <= n <= |s|
    ensures |RleCode(s[..n])| <= |RleCode(s)|
    decreases |s| - n
  {
    if n < |s| {
      RleCodePrefix(s, n + 1);
      assert s[..n + 1] == s[..n] + [s[n]];
      RleCodeSnoc(s[..n], s[n]);
    }
    else {
      assert s[..n] == s;
    }
  }

  /** Every token is at most twice as long as its run. */
  lemma {:induction false} TokensLength(rs: seq<Run>, bound: nat)
    requires MaximalRuns(rs, bound)
    ensures |Tokens(rs)| <= 2 * |Expand(rs)|
  {
    if |rs| > 0 {
      TokensLength(rs[1..], bound);
    }
  }

  /** The output is at most twice the input, so 2048 bytes fit the 3072-byte output buffer. */
  lemma RleCodeLength(s: seq<Byte>)
    ensures |RleCode(s)| <= 2 * |s|
  {
    RunsExpand(s);
    RunsMaximal(s);
    var rs := Runs(s);
    if |rs| > 0 {
      var front := rs[..|rs| - 1];
      assert rs == front + [rs[|rs| - 1]];
      ExpandAppend(front, [rs[|rs| - 1]]);
      TokensLength(front, |s|);
    }
  }

  /**
   * A reference decoder for the format: a byte followed by the same byte
   * starts a run marker with a little-endian 16-bit count; any other byte
   * stands for itself.
   */
  function Decode(t: seq<Byte>): seq<Byte>
    decreases |t|
  {
    if |t| == 0 then []
    else if |t| >= 4 && t[1] == t[0] then Repeat(t[0], t[2] as int + 256 * t[3] as int) + Decode(t[4..])
    else [t[0]] + Decode(t[1..])
  }

  /** The tokens of a non-empty sequence of runs start with the first run's byte. */
  lemma TokensHead(rs: seq<Run>)
    requires |rs| > 0
    ensures |Tokens(rs)| > 0 && Tokens(rs)[0] == rs[0].value
  {
  }

  /** Tokens of maximal runs shorter than 65536 bytes decode to the runs' bytes. */
  lemma {:induction false} DecodeTokens(rs: seq<Run>)
    requires MaximalRuns(rs, CountModulus - 1)
    ensures Decode(Tokens(rs)) == Expand(rs)
  {
    if |rs| > 0 {
      var r, rest := rs[0], rs[1..];
      var t, tail := Tokens(rs), Tokens(rest);
      assert MaximalRuns(rest, CountModulus - 1);
      DecodeTokens(rest);
      assert r.length % CountModulus == r.length;
      assert t == Emit(r.value, r.length) + tail;
      if r.length == 1 {
        assert t == [r.value] + tail;
        if |rest| > 0 {
          TokensHead(rest);
          assert t[1] == rest[0].value;
        }
        assert t[1..] == tail;
        assert Repeat(r.value, 1) == [r.value];
      } else {
        var lo, hi := r.length % 256, r.length / 256;
        assert t == [r.value, r.value, lo, hi] + tail;
        assert t[4..] == tail;
        assert lo as int + 256 * hi as int == r.length;
      }
    }
  }

  /**
   * Decoding the output of `rle_compress` gives back its input without the
   * final run, for every input shorter than 65536 bytes: the encoder loses
   * nothing else.
   */
  lemma RleRoundTrip(s: seq<Byte>)
    requires 1 <= |s| < CountModulus
    ensures Decode(RleCode(s)) + Repeat(LastRun(s).value, LastRun(s).length) == s
  {
    RunsExpand(s);
    RunsMaximal(s);
    var rs := Runs(s);
    var front := rs[..|rs| - 1];
    assert rs == front + [LastRun(s)];
    ExpandAppend(front, [LastRun(s)]);
    assert MaximalRuns(front, CountModulus - 1);
    DecodeTokens(front);
  }

  /** An input that is a single run encodes to nothing at all: that run is the one dropped. */
  lemma {:induction false} RleSingleRun(b: Byte, n: nat)
    requires n >= 1
    ensures RleCode(Repeat(b, n)) == []
    ensures LastRun(Repeat(b, n)) == Run(b, n)
  {
    var s := Repeat(b, n - 1);
    assert Repeat(b, n) == s + [b];
    if n == 1 {
      assert Runs(s + [b]) == [Run(b, 1)] by {
        assert (s + [b])[..0] == [];
      }
    } else {
      RleSingleRun(b, n - 1);
      RleCodeSnoc(s, b);
    }
  }

  /** Three sevens then a nine: the sevens' marker, and the nine is lost. */
  lemma RleExample()
    ensures RleCode([7, 7, 7, 9]) == [7, 7, 3, 0]
  {
    RleSingleRun(7, 3);
    assert Repeat(7, 3) == [7, 7, 7];
    RleCodeSnoc([7, 7, 7], 9);
    assert [7, 7, 7] + [9] == [7, 7, 7, 9];
  }

  /** Three distinct bytes: the first two are copied as they are, and the last is lost. */
  lemma RleDistinctExample()
    ensures RleCode([1, 2, 3]) == [1, 2]
  {
    RleSingleRun(1, 1);
    assert Repeat(1, 1) == [1];
    RleCodeSnoc([1], 2);
    assert [1] + [2] == [1, 2];
    RleCodeSnoc([1, 2], 3);
    assert [1, 2] + [3] == [1, 2, 3];
  }

  /**
   * The branch of `rle_compress` that ends a run: write its token at
   * `marker` and move the marker past it.
   */
  method WriteToken(output: array<Byte>, marker: nat, b: Byte, same: int) returns (next: nat)
    requires 0 <= same < CountModulus && marker + |Emit(b, same)| <= output.Length
    modifies output
    ensures next == marker + |Emit(b, same)|
    ensures forall k :: 0 <= k < marker ==> output[k] == old(output[k])
    ensures forall k :: marker <= k < next ==> output[k] == Emit(b, same)[k - marker]
    ensures forall k :: next <= k < output.Length ==> output[k] == old(output[k])
  {
    next := marker;
    if same == 1 {
      output[next] := b;
      next := next + 1;
    } else {
      output[next] := b;
      next := next + 1;
      output[next] := b;
      next := next + 1;
      output[next] := same % 256;
      next := next + 1;
      output[next] := same / 256;
      next := next + 1;
    }
  }

  /**
   * One step of `rle_compress`'s loop: with the 16-bit count `same` of the
   * last run, the next byte either bumps the count or flushes that run's token.
   */
  lemma ScanStep(s: seq<Byte>, b: Byte, same: int)
    requires |s| > 0 && same == LastRun(s).length % CountModulus
    ensures LastRun(s + [b]).value == b
    ensures b == LastRun(s).value ==>
      RleCode(s + [b]) == RleCode(s) && LastRun(s + [b]).length % CountModulus == (same + 1) % CountModulus
    ensures b != LastRun(s).value ==>
      RleCode(s + [b]) == RleCode(s) + Emit(LastRun(s).value, same) && LastRun(s + [b]).length == 1
  {
    RleCodeSnoc(s, b);
  }

  /**
   * What `rle_compress` holds after reading the bytes `s`: the tokens of the
   * finished runs at the front of the output buffer, whose rest is as it was
   * (`orig`), the last byte read and the 16-bit count of its run.
   */
  ghost predicate Scanned(s: seq<Byte>, out: seq<Byte>, orig: seq<Byte>, marker: int, lastByte: Byte, same: int)
  {
    && |s| > 0 && |out| == |orig|
    && marker == |RleCode(s)| && marker <= 2 * |s| && marker <= |out|
    && lastByte == LastRun(s).value
    && same == LastRun(s).length % CountModulus
    && out[..marker] == RleCode(s)
    && out[marker..] == orig[marker..]
  }

  /** The body of `rle_compress`'s loop for the byte at index `n`. */
  method CompressByte(input: array<Byte>, n: nat, output: array<Byte>, marker: nat, lastByte: Byte, same: int,
                      ghost orig: seq<Byte>)
    returns (nextMarker: nat, nextSame: int)
    requires n < input.Length && 2 * (n + 1) <= output.Length && input != output
    requires Scanned(input[..n], output[..], orig, marker, lastByte, same)
    modifies output
    ensures Scanned(input[..n + 1], output[..], orig, nextMarker, input[n], nextSame)
  {
    var current := input[n];
    ghost var s := input[..n];
    assert input[..n + 1] == s + [current];
    ScanStep(s, current, same);
    RleCodeLength(s + [current]);
    nextMarker, nextSame := marker, same;
    if current == lastByte {
      nextSame := (same + 1) % CountModulus;
    } else {
      nextMarker := WriteToken(output, marker, lastByte, same);
      nextSame := 1;
      assert output[..nextMarker] == old(output[..marker]) + Emit(lastByte, same);
      assert output[nextMarker..] == orig[nextMarker..] by {
        assert output[nextMarker..] == old(output[nextMarker..]);
        assert old(output[nextMarker..]) == old(output[marker..])[nextMarker - marker..];
      }
    }
  }

  /**
   * `rle_compress`: read the input from its second byte on, counting equal
   * bytes in a 16-bit counter and writing the token of a run when a
   * different byte ends it. The caller reserves room for twice the input,
   * which `RleCodeLength` shows is always enough.
   */
  method RleCompress(input: array<Byte>, inputSize: nat, output: array<Byte>) returns (outputSize: nat)
    requires 1 <= inputSize <= input.Length && 2 * inputSize <= output.Length && input != output
    modifies output
    ensures outputSize <= 2 * inputSize
    ensures outputSize == |RleCode(input[..inputSize])|
    ensures output[..outputSize] == RleCode(input[..inputSize])
    ensures output[outputSize..] == old(output[outputSize..])
  {
    var marker := 0;
    var same := 1;
    var lastByte := input[0];
    var n := 1;
    assert Runs(input[..1]) == [Run(input[0], 1)] by {
      assert input[..1][..0] == [];
    }
    while n < inputSize
      invariant 1 <= n <= inputSize
      invariant Scanned(input[..n], output[..], old(output[..]), marker, lastByte, same)
    {
      var current := input[n];
      marker, same := CompressByte(input, n, output, marker, lastByte, same, old(output[..]));
      lastByte := current;
      n := n + 1;
    }
    assert input[..n] == input[..inputSize];
    outputSize := marker;
  }

  /** The state of `rle_fill_test_data` after `k` bytes. */
  datatype Fill = Fill(data: seq<Byte>, state: int, left: nat, value: Byte, chunks: seq<Run>)

  /**
   * `rle_fill_test_data` from state `s` after `k` bytes: when the current
   * chunk is used up, a length in [1, 64) and a value in [0, 256) are drawn,
   * and the chunk's value is written until its length is used up.
   */
  function RleFill(s: int, k: nat): Fill
  {
    if k == 0 then Fill([], s, 0, 0, [])
    else
      var f := RleFill(s, k - 1);
      if f.left == 0 then
        var len := Range(f.state, 1, 64);
        var v := Range(Step(f.state), 0, 256);
        Fill(f.data + [v], Step(Step(f.state)), len - 1, v, f.chunks + [Run(v, len)])
      else
        Fill(f.data + [f.value], f.state, f.left - 1, f.value, f.chunks)
  }

  /** `k` bytes are written. */
  lemma {:induction false} RleFillLength(s: int, k: nat)
    ensures |RleFill(s, k).data| == k
  {
    if k > 0 {
      RleFillLength(s, k - 1);
    }
  }

  /** Every chunk costs exactly two draws. */
  lemma {:induction false} RleFillState(s: int, k: nat)
    ensures RleFill(s, k).state == StepN(s, 2 * |RleFill(s, k).chunks|)
  {
    if k > 0 {
      var f := RleFill(s, k - 1);
      RleFillState(s, k - 1);
      if f.left == 0 {
        var n := 2 * |f.chunks|;
        assert StepN(s, n + 2) == Step(Step(StepN(s, n)));
      }
    }
  }

  /** Every chunk is 1 to 63 bytes long. */
  lemma {:induction false} RleFillChunkLengths(s: int, k: nat)
    ensures forall i :: 0 <= i < |RleFill(s, k).chunks| ==> 1 <= RleFill(s, k).chunks[i].length <= 63
  {
    if k > 0 {
      RleFillChunkLengths(s, k - 1);
    }
  }

  /**
   * The filled data is the chunks' bytes, the last chunk possibly cut short:
   * `left` more copies of `value` would complete it.
   */
  lemma {:induction false} RleFillChunks(s: int, k: nat)
    ensures Expand(RleFill(s, k).chunks) == RleFill(s, k).data + Repeat(RleFill(s, k).value, RleFill(s, k).left)
  {
    if k > 0 {
      var f := RleFill(s, k - 1);
      RleFillChunks(s, k - 1);
      if f.left == 0 {
        var len := Range(f.state, 1, 64);
        var v := Range(Step(f.state), 0, 256);
        ExpandAppend(f.chunks, [Run(v, len)]);
        assert Expand([Run(v, len)]) == Repeat(v, len);
        RepeatCons(v, len - 1);
        assert f.data + Repeat(v, len) == (f.data + [v]) + Repeat(v, len - 1);
      } else {
        RepeatCons(f.value, f.left - 1);
        assert f.data + Repeat(f.value, f.left) == (f.data + [f.value]) + Repeat(f.value, f.left - 1);
      }
    }
  }

  /** `rle_fill_test_data`: every index below `size` is written. */
  method RleFillTestData(data: array<Byte>, size: nat, rng: Rng)
    requires size <= data.Length
    modifies data, rng
    ensures data[..size] == RleFill(old(rng.state), size).data
    ensures rng.state == RleFill(old(rng.state), size).state
    ensures data[size..] == old(data[size..])
  {
    ghost var s0 := rng.state;
    var nextChunkSize := 0;
    var nextChunkValue: Byte := 0;
    var i := 0;
    while i < size
      invariant 0 <= i <= size
      invariant data[..i] == RleFill(s0, i).data && rng.state == RleFill(s0, i).state
      invariant nextChunkSize == RleFill(s0, i).left && nextChunkValue == RleFill(s0, i).value
      invariant data[size..] == old(data[size..])
    {
      if nextChunkSize == 0 {
        nextChunkSize := rng.GetIntRange(1, 64);
        nextChunkValue := rng.GetIntRange(0, 256);
      }
      data[i] := nextChunkValue;
      nextChunkSize := nextChunkSize - 1;
      assert data[..i + 1] == data[..i] + [nextChunkValue];
      i := i + 1;
    }
  }

  /** The compressed size of one round's data, filled from state `st`. */
  function RoundSize(st: int): (n: nat)
    ensures n <= 2 * TestDataSize
  {
    var d := RleFill(st, TestDataSize).data;
    RleFillLength(st, TestDataSize);
    RleCodeLength(d);
    |RleCode(d)|
  }

  /** The generator state after `k` kernel rounds from state `s`. */
  function RleRoundsState(s: int, k: nat): int
  {
    if k == 0 then s else RleFill(RleRoundsState(s, k - 1), TestDataSize).state
  }

  /** The sum of the compressed sizes of `k` kernel rounds from state `s`. */
  function RleRoundsSize(s: int, k: nat): (total: int)
    ensures 0 <= total <= 2 * TestDataSize * k
  {
    if k == 0 then 0 else RleRoundsSize(s, k - 1) + RoundSize(RleRoundsState(s, k - 1))
  }

  /** One round of `bench_rle_compression`: fill, clear the output buffer, compress. */
  method RleRound(rng: Rng, testData: array<Byte>, compressed: array<Byte>) returns (compressedSize: nat)
    requires testData.Length == TestDataSize && compressed.Length == OutputSize && testData != compressed
    modifies rng, testData, compressed
    ensures compressedSize == RoundSize(old(rng.state))
    ensures rng.state == RleFill(old(rng.state), TestDataSize).state
  {
    ghost var f := RleFill(rng.state, TestDataSize);
    RleFillTestData(testData, TestDataSize, rng);
    ghost var data := testData[..TestDataSize];
    assert data == f.data;
    // rnb_strzero on the output buffer, through a `char *` cast
    forall k | 0 <= k < OutputSize {
      compressed[k] := 0;
    }
    assert testData[..TestDataSize] == data;
    compressedSize := RleCompress(testData, TestDataSize, compressed);
  }

  /**
   * `bench_rle_compression`, integer part: 250 rounds of filling 1024 bytes
   * with random runs and compressing them. The source averages the
   * compression ratios as `double`s; the model returns the sum of the
   * compressed sizes, from which that average is computed.
   */
  method BenchRleCompression(rng: Rng) returns (totalSize: nat)
    modifies rng
    ensures totalSize == RleRoundsSize(old(rng.state), Iterations)
    ensures rng.state == RleRoundsState(old(rng.state), Iterations)
    ensures totalSize <= 2 * TestDataSize * Iterations
  {
    var testData := new Byte[TestDataSize];
    var compressed := new Byte[OutputSize];
    totalSize := RleRoundsLoop(rng, testData, compressed);
  }

  /** The loop of `bench_rle_compression` over its two buffers. */
  method RleRoundsLoop(rng: Rng, testData: array<Byte>, compressed: array<Byte>) returns (totalSize: nat)
    requires testData.Length == TestDataSize && compressed.Length == OutputSize && testData != compressed
    modifies rng, testData, compressed
    ensures totalSize == RleRoundsSize(old(rng.state), Iterations)
    ensures rng.state == RleRoundsState(old(rng.state), Iterations)
  {
    ghost var s0 := rng.state;
    totalSize := 0;
    var i := 0;
    while i < Iterations
      invariant 0 <= i <= Iterations
      invariant totalSize == RleRoundsSize(s0, i) && rng.state == RleRoundsState(s0, i)
    {
      var compressedSize := RleRound(rng, testData, compressed);
      totalSize := totalSize + compressedSize;
      i := i + 1;
    }
  }
}
