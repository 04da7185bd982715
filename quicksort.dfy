/**
 * The quicksort kernel (src/rnbench.c:375-439): fill a 64-entry `int` array
 * with random values below 100, sort it in place with Hoare's partition
 * around the middle element, and add up the sorted array into a `uint32_t`.
 *
 * Array contents are read as sequences (`a[..]`) in the contracts: `Sorted`,
 * `Partitioned` and `PermFrame` describe what `qsort` and its partition step
 * leave behind, and `QSortJoin` shows that the two recursive calls, whose
 * ranges can share one index, leave the whole range sorted.
 */
module QuickSort {
  import opened Prng
  import opened BitOps

  /** `BENCH_QSORT_TEST_DATA_SIZE` */
  const TestDataSize: int := 64
  /** `BENCH_QSORT_ITERATIONS` */
  const Iterations: int := 100
  /** The values drawn are in [0, ValueBound). */
  const ValueBound: int := 100

  /** `s[lo..hi)` is in non-decreasing order. */
  ghost predicate Sorted(s: seq<int>, lo: int, hi: int)
    requires 0 <= lo <= hi <= |s|
  {
    forall p, q :: lo <= p < q < hi ==> s[p] <= s[q]
  }

  /** `t` is a permutation of `s` that agrees with it outside `[lo, hi)`. */
  ghost predicate PermFrame(s: seq<int>, t: seq<int>, lo: int, hi: int)
  {
    && |s| == |t|
    && multiset(s) == multiset(t)
    && forall k :: 0 <= k < |s| && !(lo <= k < hi) ==> s[k] == t[k]
  }

  /**
   * What the partition loop of `qsort(a, l, r)` leaves: `i` passed only
   * entries at most the pivot `x`, `j` passed only entries at least `x`,
   * the two indices have met or crossed, and each moved at least once.
   */
  ghost predicate Partitioned(s: seq<int>, l: int, r: int, i: int, j: int, x: int)
    requires 0 <= l <= r < |s|
  {
    && l < i <= r + 1 && l - 1 <= j < r && j <= i
    && (forall k :: l <= k < i ==> s[k] <= x)
    && (forall k :: j < k <= r ==> s[k] >= x)
  }

  /** `PermFrame` composes, and its range can be widened. */
  lemma PermFrameTrans(s: seq<int>, t: seq<int>, u: seq<int>, lo: int, hi: int, lo': int, hi': int)
    requires PermFrame(s, t, lo, hi) && PermFrame(t, u, lo', hi')
    requires lo <= lo' && hi' <= hi
    ensures PermFrame(s, u, lo, hi)
  {
  }

  /** A permutation that keeps everything outside `[lo, hi)` permutes `[lo, hi)`. */
  lemma RangeMultiset(s: seq<int>, t: seq<int>, lo: int, hi: int)
    requires 0 <= lo <= hi <= |s| && PermFrame(s, t, lo, hi)
    ensures multiset(s[lo..hi]) == multiset(t[lo..hi])
  {
    assert s[..lo] == t[..lo];
    assert s[hi..] == t[hi..];
    assert s == s[..lo] + s[lo..hi] + s[hi..];
    assert t == t[..lo] + t[lo..hi] + t[hi..];
    var front, b, b', back := multiset(s[..lo]), multiset(s[lo..hi]), multiset(t[lo..hi]), multiset(s[hi..]);
    assert front + b + back == front + b' + back;
    forall v
      ensures b[v] == b'[v]
    {
      assert (front + b + back)[v] == (front + b' + back)[v];
    }
  }

  /** Every entry of `t[lo..hi)` comes from `s[lo..hi)` when the two hold the same values. */
  lemma FromRange(s: seq<int>, t: seq<int>, lo: int, hi: int, q: int) returns (k: int)
    requires 0 <= lo <= q < hi <= |s| && hi <= |t|
    requires multiset(s[lo..hi]) == multiset(t[lo..hi])
    ensures lo <= k < hi && t[q] == s[k]
  {
    assert t[q] == t[lo..hi][q - lo];
    assert t[q] in multiset(s[lo..hi]);
    var m :| 0 <= m < hi - lo && s[lo..hi][m] == t[q];
    k := lo + m;
  }

  /** The two recursive calls leave `[l, r]` sorted when the partition indices crossed. */
  lemma JoinCrossed(s1: seq<int>, s2: seq<int>, s3: seq<int>, l: int, r: int, i: int, j: int, x: int)
    requires 0 <= l <= r < |s1| && Partitioned(s1, l, r, i, j, x) && j < i
    requires PermFrame(s1, s2, l, j + 1) && Sorted(s2, l, j + 1)
    requires PermFrame(s2, s3, i, r + 1) && Sorted(s3, i, r + 1)
    ensures Sorted(s3, l, r + 1)
  {
    BelowPivot(s1, s2, s3, l, r, i, j, x);
    AbovePivot(s1, s2, s3, l, r, i, j, x);
  }

  /** After both calls, everything before `i` is still at most the pivot. */
  lemma BelowPivot(s1: seq<int>, s2: seq<int>, s3: seq<int>, l: int, r: int, i: int, j: int, x: int)
    requires 0 <= l <= r < |s1| && Partitioned(s1, l, r, i, j, x) && j < i
    requires PermFrame(s1, s2, l, j + 1) && PermFrame(s2, s3, i, r + 1)
    ensures forall p :: l <= p < i ==> s3[p] <= x
  {
    RangeMultiset(s1, s2, l, j + 1);
    forall p | l <= p < i
      ensures s3[p] <= x
    {
      if p <= j {
        var k := FromRange(s1, s2, l, j + 1, p);
      }
    }
  }

  /** After both calls, everything after `j` is still at least the pivot. */
  lemma AbovePivot(s1: seq<int>, s2: seq<int>, s3: seq<int>, l: int, r: int, i: int, j: int, x: int)
    requires 0 <= l <= r < |s1| && Partitioned(s1, l, r, i, j, x) && j < i
    requires PermFrame(s1, s2, l, j + 1) && PermFrame(s2, s3, i, r + 1)
    ensures forall q :: j < q <= r ==> s3[q] >= x
  {
    RangeMultiset(s2, s3, i, r + 1);
    forall q | j < q <= r
      ensures s3[q] >= x
    {
      if i <= q {
        var k := FromRange(s2, s3, i, r + 1, q);
      }
    }
  }

  /**
   * Sorting `[l, j]` when every entry but the last is at most `x` leaves
   * every entry but the last at most `x`: only one value above `x` is there.
   */
  lemma AllButLast(s1: seq<int>, s2: seq<int>, l: int, j: int, x: int, p: int)
    requires 0 <= l <= p < j < |s1| == |s2|
    requires forall k :: l <= k < j ==> s1[k] <= x
    requires multiset(s1[l..j + 1]) == multiset(s2[l..j + 1]) && Sorted(s2, l, j + 1)
    ensures s2[p] <= x
  {
    var w, y := s2[j], s1[j];
    var m1, m2 := multiset(s1[l..j]), multiset(s2[l..j]);
    assert s1[l..j + 1] == s1[l..j] + [y];
    assert s2[l..j + 1] == s2[l..j] + [w];
    assert m2 + multiset{w} == m1 + multiset{y};
    assert s2[p] in m2 by {
      assert s2[l..j][p - l] == s2[p];
    }
    if w > x {
      BoundedMultiset(s1, l, j, x);
      assert m1[w] == 0;
      assert (m1 + multiset{y})[w] >= 1;
      assert y == w;
      var v := s2[p];
      assert (m2 + multiset{w})[v] == (m1 + multiset{y})[v];
      assert m1[v] == m2[v];
    }
  }

  /** Every value in the multiset of a range bounded by `x` is bounded by `x`. */
  lemma BoundedMultiset(s: seq<int>, lo: int, hi: int, x: int)
    requires 0 <= lo <= hi <= |s|
    requires forall k :: lo <= k < hi ==> s[k] <= x
    ensures forall z :: z in multiset(s[lo..hi]) ==> z <= x
  {
    forall z | z in multiset(s[lo..hi])
      ensures z <= x
    {
      var m :| 0 <= m < hi - lo && s[lo..hi][m] == z;
      assert s[lo + m] == z;
    }
  }

  /** The two recursive calls leave `[l, r]` sorted when the partition indices met. */
  lemma JoinMet(s1: seq<int>, s2: seq<int>, s3: seq<int>, l: int, r: int, j: int, x: int)
    requires 0 <= l <= r < |s1| && Partitioned(s1, l, r, j, j, x)
    requires PermFrame(s1, s2, l, j + 1) && Sorted(s2, l, j + 1)
    requires PermFrame(s2, s3, j, r + 1) && Sorted(s3, j, r + 1)
    ensures Sorted(s3, l, r + 1)
  {
    RangeMultiset(s1, s2, l, j + 1);
    RangeMultiset(s2, s3, j, r + 1);
    forall p, q | l <= p < j <= q <= r
      ensures s3[p] <= s3[q]
    {
      AllButLast(s1, s2, l, j, x, p);
      var k := FromRange(s2, s3, j, r + 1, q);
      assert s3[p] == s2[p];
    }
  }

  /** After the partition and both recursive calls, `[l, r]` is a sorted permutation. */
  lemma QSortJoin(s0: seq<int>, s1: seq<int>, s2: seq<int>, s3: seq<int>, l: int, r: int, i: int, j: int, x: int)
    requires 0 <= l <= r < |s0| && PermFrame(s0, s1, l, r + 1) && Partitioned(s1, l, r, i, j, x)
    requires PermFrame(s1, s2, l, j + 1) && Sorted(s2, l, j + 1)
    requires PermFrame(s2, s3, i, r + 1) && Sorted(s3, i, r + 1)
    ensures PermFrame(s0, s3, l, r + 1) && Sorted(s3, l, r + 1)
  {
    PermFrameTrans(s0, s1, s2, l, r + 1, l, j + 1);
    PermFrameTrans(s0, s2, s3, l, r + 1, i, r + 1);
    if j < i {
      JoinCrossed(s1, s2, s3, l, r, i, j, x);
    } else {
      JoinMet(s1, s2, s3, l, r, j, x);
    }
  }

  /** `qsort_swap`: exchange two entries. */
  method Swap(a: array<int>, i1: int, i2: int)
    requires 0 <= i1 < a.Length && 0 <= i2 < a.Length
    modifies a
    ensures a[i1] == old(a[i2]) && a[i2] == old(a[i1])
    ensures forall k :: 0 <= k < a.Length && k != i1 && k != i2 ==> a[k] == old(a[k])
    ensures multiset(a[..]) == old(multiset(a[..]))
  {
    var aux := a[i1];
    a[i1] := a[i2];
    a[i2] := aux;
  }

  /**
   * The partition loop of `qsort` (its `do ... while(i < j)`), around the
   * middle entry's value. The first pass always swaps, since both scans
   * stop at the middle entry at the latest.
   */
  method Partition(a: array<int>, l: int, r: int) returns (i: int, j: int, x: int)
    requires 0 <= l <= r < a.Length
    modifies a
    ensures x == old(a[l + (r - l) / 2])
    ensures Partitioned(a[..], l, r, i, j, x)
    ensures PermFrame(old(a[..]), a[..], l, r + 1)
  {
    ghost var s0 := a[..];
    i, j := l, r;
    x := a[l + (r - l) / 2];
    // where the scans of `i` and `j` are sure to stop
    ghost var si, sj := l + (r - l) / 2, l + (r - l) / 2;
    ghost var swapped := false;
    while true
      invariant l <= i <= si <= r && l <= sj <= j <= r && i <= j
      invariant a[si] >= x && a[sj] <= x
      invariant forall k :: l <= k < i ==> a[k] <= x
      invariant forall k :: j < k <= r ==> a[k] >= x
      invariant !swapped ==> i == l && j == r && si == sj
      invariant swapped ==> l < i && j < r
      invariant PermFrame(s0, a[..], l, r + 1)
      decreases j - i
    {
      ghost var prev := a[..];
      ghost var moved;
      i, j, si, sj, moved := PartitionPass(a, l, r, i, j, si, sj, x);
      PermFrameTrans(s0, prev, a[..], l, r + 1, l, r + 1);
      swapped := swapped || moved;
      if !(i < j) {
        break;
      }
    }
  }

  /**
   * One pass of the partition loop's body: both scans, then the swap when
   * `i <= j`. `si` and `sj` hold an entry at least and at most `x` that the
   * scans cannot pass; after a swap they are the two entries just exchanged.
   */
  method PartitionPass(a: array<int>, l: int, r: int, i: int, j: int, ghost si: int, ghost sj: int, x: int)
    returns (i': int, j': int, ghost si': int, ghost sj': int, ghost moved: bool)
    requires 0 <= l <= i <= si <= r < a.Length && l <= sj <= j <= r
    requires a[si] >= x && a[sj] <= x
    requires forall k :: l <= k < i ==> a[k] <= x
    requires forall k :: j < k <= r ==> a[k] >= x
    modifies a
    ensures i <= i' <= si + 1 && sj - 1 <= j' <= j
    ensures forall k :: l <= k < i' ==> a[k] <= x
    ensures forall k :: j' < k <= r ==> a[k] >= x
    ensures moved ==> i < i' && j' < j
    ensures !moved ==> j' < i'
    ensures si == sj ==> moved
    ensures i' <= j' ==> i' <= si' <= r && l <= sj' <= j' && a[si'] >= x && a[sj'] <= x
    ensures PermFrame(old(a[..]), a[..], l, r + 1)
  {
    i' := ScanUp(a, l, i, si, x);
    j' := ScanDown(a, r, j, sj, x);
    si', sj', moved := si, sj, false;
    if i' <= j' {
      Swap(a, i', j');
      si', sj' := j', i';
      i', j' := i' + 1, j' - 1;
      moved := true;
    }
  }

  /** `while(array[i] < x) ++i;`: stops at the first entry at least `x`, at `stop` at the latest. */
  method ScanUp(a: array<int>, l: int, i: int, ghost stop: int, x: int) returns (i': int)
    requires 0 <= l <= i <= stop < a.Length && a[stop] >= x
    requires forall k :: l <= k < i ==> a[k] <= x
    ensures i <= i' <= stop && a[i'] >= x
    ensures forall k :: i <= k < i' ==> a[k] < x
    ensures forall k :: l <= k < i' ==> a[k] <= x
  {
    i' := i;
    while a[i'] < x
      invariant i <= i' <= stop && forall k :: l <= k < i' ==> a[k] <= x
      invariant forall k :: i <= k < i' ==> a[k] < x
      decreases stop - i'
    {
      i' := i' + 1;
    }
  }

  /** `while(array[j] > x) --j;`: stops at the first entry at most `x`, at `stop` at the latest. */
  method ScanDown(a: array<int>, r: int, j: int, ghost stop: int, x: int) returns (j': int)
    requires 0 <= stop <= j <= r < a.Length && a[stop] <= x
    requires forall k :: j < k <= r ==> a[k] >= x
    ensures stop <= j' <= j && a[j'] <= x
    ensures forall k :: j' < k <= j ==> a[k] > x
    ensures forall k :: j' < k <= r ==> a[k] >= x
  {
    j' := j;
    while a[j'] > x
      invariant stop <= j' <= j && forall k :: j' < k <= r ==> a[k] >= x
      invariant forall k :: j' < k <= j ==> a[k] > x
      decreases j' - stop
    {
      j' := j' - 1;
    }
  }

  /**
   * `qsort(a, l, r)`: partition, then sort `[l, j]` and `[i, r]` when they
   * hold more than one entry. Both ranges are strictly inside `[l, r]`.
   */
  method QSort(a: array<int>, l: int, r: int)
    requires 0 <= l <= r < a.Length
    modifies a
    ensures Sorted(a[..], l, r + 1)
    ensures PermFrame(old(a[..]), a[..], l, r + 1)
    ensures multiset(a[l..r + 1]) == old(multiset(a[l..r + 1]))
    decreases r - l
  {
    ghost var s0 := a[..];
    var i, j, x := Partition(a, l, r);
    ghost var s1 := a[..];
    if l < j {
      QSort(a, l, j);
    }
    ghost var s2 := a[..];
    if r > i {
      QSort(a, i, r);
    }
    QSortJoin(s0, s1, s2, a[..], l, r, i, j, x);
    RangeMultiset(s0, a[..], l, r + 1);
  }

  /** The exact sum of a sequence, added from the front. */
  function Sum(s: seq<int>): int
  {
    if |s| == 0 then 0 else Sum(s[..|s| - 1]) + s[|s| - 1]
  }

  lemma {:induction false} SumAppend(s: seq<int>, t: seq<int>)
    ensures Sum(s + t) == Sum(s) + Sum(t)
    decreases |t|
  {
    if |t| == 0 {
      assert s + t == s;
    } else {
      var init := t[..|t| - 1];
      assert (s + t)[..|s + t| - 1] == s + init;
      SumAppend(s, init);
    }
  }

  /** Taking one entry out of a sequence takes its value off the sum. */
  lemma SumRemove(t: seq<int>, k: int)
    requires 0 <= k < |t|
    ensures Sum(t) == Sum(t[..k] + t[k + 1..]) + t[k]
  {
    var front, v, back := t[..k], t[k], t[k + 1..];
    assert t == front + ([v] + back);
    SumAppend(front, [v] + back);
    SumAppend([v], back);
    SumAppend(front, back);
    assert Sum([v]) == v by {
      assert [v][..0] == [];
    }
  }

  /** Reordering does not change the sum. */
  lemma {:induction false} SumPermutation(s: seq<int>, t: seq<int>)
    requires multiset(s) == multiset(t)
    ensures Sum(s) == Sum(t)
    decreases |s|
  {
    if |s| > 0 {
      var v := s[|s| - 1];
      var init := s[..|s| - 1];
      assert s == init + [v];
      assert multiset(s) == multiset(init) + multiset{v};
      assert v in multiset(t);
      var k :| 0 <= k < |t| && t[k] == v;
      var rest := t[..k] + t[k + 1..];
      assert t == t[..k] + [v] + t[k + 1..];
      assert multiset(t) == multiset(t[..k]) + multiset{v} + multiset(t[k + 1..]);
      assert multiset(rest) == multiset(t[..k]) + multiset(t[k + 1..]);
      assert multiset(init) == multiset(s) - multiset{v};
      assert multiset(rest) == multiset(t) - multiset{v};
      SumPermutation(init, rest);
      SumRemove(t, k);
      SumAppend(init, [v]);
      assert Sum([v]) == v by {
        assert [v][..0] == [];
      }
    } else {
      assert |t| == |multiset(t)| == 0;
    }
  }

  /** Adding modulo 2^32 after reducing the running value modulo 2^32. */
  lemma AddMod32(a: int, b: int)
    ensures (a % Word32Bound + b) % Word32Bound == (a + b) % Word32Bound
  {
    var q := a / Word32Bound;
    assert a == q * Word32Bound + a % Word32Bound;
    assert a + b == (a % Word32Bound + b) + q * Word32Bound;
  }

  /**
   * `qsort_array_sum`: each `int` entry is converted to `uint32_t` and added
   * with 32-bit wrap-around, so the result is the exact sum modulo 2^32.
   */
  method QsortArraySum(a: array<int>, size: nat) returns (result: int)
    requires size <= a.Length
    ensures result == Sum(a[..size]) % Word32Bound
  {
    result := 0;
    var i := 0;
    while i < size
      invariant 0 <= i <= size
      invariant result == Sum(a[..i]) % Word32Bound
    {
      assert a[..i + 1][..i] == a[..i];
      AddMod32(Sum(a[..i]), a[i]);
      result := (result + a[i]) % Word32Bound;
      i := i + 1;
    }
  }

  /** The `k` values `qsort_fill_test_data` draws from state `s`, each in [0, 100). */
  function QsortData(s: int, k: nat): (d: seq<int>)
    ensures |d| == k
  {
    if k == 0 then [] else QsortData(s, k - 1) + [Range(StepN(s, k - 1), 0, ValueBound)]
  }

  /** Every value drawn is in [0, 100): entry `m` is the `m`-th draw. */
  lemma {:induction false} QsortDataValues(s: int, k: nat, m: nat)
    requires m < k
    ensures QsortData(s, k)[m] == Range(StepN(s, m), 0, ValueBound)
    ensures 0 <= QsortData(s, k)[m] < ValueBound
  {
    if m < k - 1 {
      QsortDataValues(s, k - 1, m);
    }
  }

  /** The data sum is at most 99 per entry. */
  lemma {:induction false} QsortDataSum(s: int, k: nat)
    ensures 0 <= Sum(QsortData(s, k)) <= (ValueBound - 1) * k
  {
    if k > 0 {
      QsortDataSum(s, k - 1);
      assert QsortData(s, k)[..k - 1] == QsortData(s, k - 1);
    }
  }

  /** `qsort_fill_test_data`: one draw in [0, 100) per entry. */
  method QsortFillTestData(a: array<int>, size: nat, rng: Rng)
    requires size <= a.Length
    modifies a, rng
    ensures a[..size] == QsortData(old(rng.state), size)
    ensures a[size..] == old(a[size..])
    ensures rng.state == StepN(old(rng.state), size)
  {
    ghost var s0 := rng.state;
    var i := 0;
    while i < size
      invariant 0 <= i <= size
      invariant a[..i] == QsortData(s0, i)
      invariant a[size..] == old(a[size..])
      invariant rng.state == StepN(s0, i)
    {
      var v := rng.GetIntRange(0, ValueBound);
      a[i] := v;
      assert a[..i + 1] == a[..i] + [v];
      i := i + 1;
    }
  }

  /** The generator state after `k` kernel rounds from state `s`: 64 draws each. */
  function QsortRoundsState(s: int, k: nat): int
  {
    if k == 0 then s else StepN(QsortRoundsState(s, k - 1), TestDataSize)
  }

  /** The exact sum of the data of `k` kernel rounds from state `s`, at most 99 * 64 per round. */
  function QsortRoundsSum(s: int, k: nat): (total: int)
    ensures 0 <= total <= (ValueBound - 1) * TestDataSize * k
  {
    if k == 0 then 0
    else
      QsortDataSum(QsortRoundsState(s, k - 1), TestDataSize);
      QsortRoundsSum(s, k - 1) + Sum(QsortData(QsortRoundsState(s, k - 1), TestDataSize))
  }

  /** One round of `bench_quick_sort`: fill, sort, sum. Sorting keeps the sum of the data. */
  method QsortRound(rng: Rng, a: array<int>) returns (roundSum: int)
    requires a.Length == TestDataSize
    modifies rng, a
    ensures roundSum == Sum(QsortData(old(rng.state), TestDataSize))
    ensures rng.state == StepN(old(rng.state), TestDataSize)
    ensures Sorted(a[..], 0, TestDataSize)
    ensures multiset(a[..]) == multiset(QsortData(old(rng.state), TestDataSize))
  {
    ghost var data := QsortData(rng.state, TestDataSize);
    QsortDataSum(rng.state, TestDataSize);
    QsortFillTestData(a, TestDataSize, rng);
    assert a[..] == data;
    QSort(a, 0, TestDataSize - 1);
    ghost var sorted := a[..];
    SumPermutation(sorted, data);
    assert a[..TestDataSize] == sorted;
    roundSum := QsortArraySum(a, TestDataSize);
    ModSmall(Sum(data));
  }

  /** A value already in [0, 2^32) is its own residue. */
  lemma ModSmall(v: int)
    requires 0 <= v < Word32Bound
    ensures v % Word32Bound == v
  {
  }

  /**
   * `bench_quick_sort`: 100 rounds, adding each sorted array's sum into a
   * `uint32_t`. The total never exceeds 100 * 64 * 99, so it never wraps and
   * equals the exact sum of all the data drawn.
   */
  method BenchQuickSort(rng: Rng) returns (sum: int)
    modifies rng
    ensures sum == QsortRoundsSum(old(rng.state), Iterations)
    ensures rng.state == QsortRoundsState(old(rng.state), Iterations)
    ensures 0 <= sum <= (ValueBound - 1) * TestDataSize * Iterations
  {
    ghost var s0 := rng.state;
    var testArray := new int[TestDataSize];
    sum := 0;
    var i := 0;
    while i < Iterations
      invariant 0 <= i <= Iterations
      invariant sum == QsortRoundsSum(s0, i) && rng.state == QsortRoundsState(s0, i)
    {
      var roundSum := QsortRound(rng, testArray);
      ghost var next := QsortRoundsSum(s0, i + 1);
      assert next == sum + roundSum;
      assert next <= (ValueBound - 1) * TestDataSize * Iterations;
      ModSmall(next);
      sum := (sum + roundSum) % Word32Bound;
      i := i + 1;
    }
  }
}
