/**
 * The benchmark driver (src/rnbench.c:104-120 and 442-539): `rnbench_run`
 * seeds the generator, then runs randomly chosen kernels until 30 seconds
 * have passed, reporting progress to a callback.
 *
 * The clock is an oracle: `times[0]` is the reading taken at the start and
 * `times[k]` the reading taken after the `k`-th kernel, in milliseconds. The
 * callback is a flag saying whether one was passed, and every value it would
 * receive is appended to the returned `log`, in order.
 */
module Scheduler {
  import opened Prng
  import Crc32
  import WordCount
  import Rle
  import QuickSort

  /** `BENCH_RND_SEED` */
  const Seed: int := 2137
  /** `BENCH_TYPE_MAX`: the number of kernels. */
  const KernelCount: int := 5
  /** `BENCH_RND_ITERATIONS` */
  const RandIterations: int := 1000
  /** The 30-second run, in the oracle's milliseconds. */
  const Duration: int := 30000
  /** `RNBENCH_PROGRESS_FINISHED` */
  const Finished: int := 999

  /**
   * `bench_random_numbers`: 1000 draws of `rnd_get_int`. The running average
   * it keeps is a `double` and is not part of this model; what remains is
   * the generator state it leaves.
   */
  method BenchRandomNumbers(rng: Rng)
    modifies rng
    ensures rng.state == StepN(old(rng.state), RandIterations)
  {
    var i := 0;
    while i < RandIterations
      invariant 0 <= i <= RandIterations
      invariant rng.state == StepN(old(rng.state), i)
    {
      var v := rng.GetInt();
      i := i + 1;
    }
  }

  /**
   * The generator state after kernel `choice` (a `bench_type`) runs from
   * state `s`: each kernel draws from the same register the scheduler uses.
   */
  function KernelState(choice: int, s: int): int
    requires 0 <= choice < KernelCount
  {
    if choice == 0 then StepN(s, RandIterations)
    else if choice == 1 then WordCount.WcRounds(s, WordCount.Iterations).1
    else if choice == 2 then Crc32.CrcRounds(s, Crc32.Iterations).1
    else if choice == 3 then Rle.RleRoundsState(s, Rle.Iterations)
    else QuickSort.QsortRoundsState(s, QuickSort.Iterations)
  }

  /** The kernel the scheduler picks from state `s`: `rnd_get_int_range(0, BENCH_TYPE_MAX)`. */
  function Choice(s: int): int
  {
    Range(s, 0, KernelCount)
  }

  /** The generator state after `n` loop iterations from state `s`. */
  function Iterate(s: int, n: nat): int
  {
    if n == 0 then s
    else
      var p := Iterate(s, n - 1);
      KernelState(Choice(p), Step(p))
  }

  /** The kernels picked by the first `n` loop iterations from state `s`. */
  function Choices(s: int, n: nat): (cs: seq<int>)
    ensures |cs| == n
  {
    if n == 0 then [] else Choices(s, n - 1) + [Choice(Iterate(s, n - 1))]
  }

  /** The picks are always valid `bench_type` values, so `results[choice]` is in bounds. */
  lemma {:induction false} ChoicesInRange(s: int, n: nat)
    ensures forall k :: 0 <= k < n ==> 0 <= Choices(s, n)[k] < KernelCount
  {
    if n > 0 {
      ChoicesInRange(s, n - 1);
      assert Choices(s, n)[..n - 1] == Choices(s, n - 1);
    }
  }

  /**
   * The progress after the `k`-th kernel: the elapsed share of the run in
   * percent, truncated, then clamped to [0, 100]. A negative elapsed time
   * (a clock that went back) is clamped to 0 whichever way the division
   * rounds.
   */
  function Percent(times: seq<int>, k: nat): (p: int)
    requires k < |times|
    ensures 0 <= p <= 100
  {
    var p := (times[k] - times[0]) * 100 / Duration;
    if p < 0 then 0 else if p > 100 then 100 else p
  }

  /**
   * The values the callback has received after `n` loop iterations: the
   * initial 0, then each iteration's percent when it differs from the last
   * value reported.
   */
  function Log(times: seq<int>, n: nat): (log: seq<int>)
    requires n < |times|
    ensures |log| > 0 && log[0] == 0
  {
    if n == 0 then [0]
    else
      var prev := Log(times, n - 1);
      if Percent(times, n) != prev[|prev| - 1] then prev + [Percent(times, n)] else prev
  }

  /** Every reported value is a percentage and differs from the one reported before it. */
  lemma {:induction false} LogShape(times: seq<int>, n: nat)
    requires n < |times|
    ensures forall k :: 0 < k < |Log(times, n)| ==> 0 <= Log(times, n)[k] <= 100
    ensures forall k :: 0 < k < |Log(times, n)| ==> Log(times, n)[k] != Log(times, n)[k - 1]
  {
    if n > 0 {
      LogShape(times, n - 1);
    }
  }

  /** A clock that never goes back. */
  predicate Monotone(times: seq<int>)
  {
    forall i, j :: 0 <= i <= j < |times| ==> times[i] <= times[j]
  }

  /** A later reading of a clock that never goes back shows no smaller percent. */
  lemma PercentMonotone(times: seq<int>, i: nat, j: nat)
    requires i <= j < |times| && Monotone(times)
    ensures Percent(times, i) <= Percent(times, j)
  {
    var a, b := (times[i] - times[0]) * 100, (times[j] - times[0]) * 100;
    assert a <= b;
    assert a / Duration <= b / Duration by {
      assert a == Duration * (a / Duration) + a % Duration;
      assert b == Duration * (b / Duration) + b % Duration;
    }
  }

  /**
   * With a clock that never goes back, the last value reported is at most
   * the current percent, so the reported values strictly increase.
   */
  lemma {:induction false} LogIncreasing(times: seq<int>, n: nat)
    requires n < |times| && Monotone(times)
    ensures Log(times, n)[|Log(times, n)| - 1] <= Percent(times, n)
    ensures forall k :: 0 < k < |Log(times, n)| ==> Log(times, n)[k - 1] < Log(times, n)[k]
  {
    if n > 0 {
      LogIncreasing(times, n - 1);
      PercentMonotone(times, n - 1, n);
    }
  }

  /** `results[choice] = bench_...()`: run the chosen kernel on the shared generator. */
  method RunKernel(choice: int, rng: Rng, crcTable: Crc32.Crc32Table)
    requires 0 <= choice < KernelCount && crcTable.Valid()
    modifies rng, crcTable.table
    ensures rng.state == KernelState(choice, old(rng.state))
    ensures crcTable.Valid()
  {
    if choice == 0 {
      BenchRandomNumbers(rng);
    } else if choice == 1 {
      var average := WordCount.BenchWordCount(rng);
    } else if choice == 2 {
      var hash := Crc32.BenchCrc32Hashes(rng, crcTable);
    } else if choice == 3 {
      var totalSize := Rle.BenchRleCompression(rng);
    } else {
      var sum := QuickSort.BenchQuickSort(rng);
    }
  }

  /**
   * `rnbench_run`. The generator is seeded with 2137 before anything else,
   * so even the early return for a missing callback leaves it seeded. With a
   * callback, the loop runs until a clock reading taken after a kernel is
   * 30 seconds past the start; `result` counts the kernels run, `choices`
   * lists them, and `log` is every callback value: 0, the changed
   * percentages, then 999. The oracle must reach the 30-second mark, which
   * is what makes the loop end.
   */
  method RnbenchRun(callback: bool, times: seq<int>, rng: Rng, crcTable: Crc32.Crc32Table)
    returns (result: nat, log: seq<int>, choices: seq<int>)
    requires crcTable.Valid()
    requires callback ==> |times| > 0 && times[|times| - 1] - times[0] >= Duration
    modifies rng, crcTable.table
    ensures crcTable.Valid()
    ensures !callback ==> result == 0 && log == [] && choices == [] && rng.state == Seed
    ensures callback ==> 1 <= result < |times| && times[result] - times[0] >= Duration
    ensures callback ==> forall k :: 1 <= k < result ==> times[k] - times[0] < Duration
    ensures callback ==> log == Log(times, result) + [Finished]
    ensures callback ==> choices == Choices(Seed, result) && rng.state == Iterate(Seed, result)
    ensures callback ==> log[0] == 0 && log[|log| - 1] == Finished
    ensures callback ==> forall k :: 0 < k < |log| - 1 ==> 0 <= log[k] <= 100 && log[k] != log[k - 1]
    ensures callback && Monotone(times) ==> forall k :: 0 < k < |log| - 1 ==> log[k - 1] < log[k]
    ensures forall k :: 0 <= k < |choices| ==> 0 <= choices[k] < KernelCount
  {
    rng.Init(Seed);
    if !callback {
      return 0, [], [];
    }
    result, log, choices := RunLoop(times, rng, crcTable);
    LogShape(times, result);
    if Monotone(times) {
      LogIncreasing(times, result);
    }
    ChoicesInRange(Seed, result);
  }

  /**
   * The progress step at the end of each loop iteration: the percent of the
   * run elapsed at reading `k`, clamped to [0, 100], goes to the callback
   * when it differs from the last value sent.
   */
  method ReportProgress(times: seq<int>, k: nat, log: seq<int>, lastPercent: int)
    returns (log': seq<int>, lastPercent': int)
    requires 0 < k < |times| && log == Log(times, k - 1) && lastPercent == log[|log| - 1]
    ensures log' == Log(times, k) && lastPercent' == log'[|log'| - 1]
  {
    var percent := (times[k] - times[0]) * 100 / Duration;
    if percent < 0 {
      percent := 0;
    }
    if percent > 100 {
      percent := 100;
    }
    log', lastPercent' := log, lastPercent;
    if percent != lastPercent {
      log' := log + [percent];
      lastPercent' := percent;
    }
  }

  /**
   * The state of `rnbench_run` after `result` loop iterations from
   * generator state `s0`: `now` is the latest reading, all the earlier ones
   * after the start were under 30 seconds, and the log, the picks and the
   * generator are what those iterations produce.
   */
  ghost predicate Running(times: seq<int>, s0: int, state: int, result: nat, now: int,
                          log: seq<int>, lastPercent: int, choices: seq<int>)
  {
    && result < |times| && now == times[result]
    && (forall k :: 1 <= k < result ==> times[k] - times[0] < Duration)
    && log == Log(times, result) && lastPercent == log[|log| - 1]
    && choices == Choices(s0, result) && state == Iterate(s0, result)
  }

  /** One pass of the loop of `rnbench_run`: pick and run a kernel, read the clock, report progress. */
  method RunIteration(times: seq<int>, rng: Rng, crcTable: Crc32.Crc32Table, ghost s0: int, result: nat,
                      log: seq<int>, lastPercent: int, choices: seq<int>)
    returns (result': nat, now': int, log': seq<int>, lastPercent': int, choices': seq<int>)
    requires crcTable.Valid() && result < |times| && times[|times| - 1] - times[0] >= Duration
    requires Running(times, s0, rng.state, result, times[result], log, lastPercent, choices)
    requires times[result] - times[0] < Duration
    modifies rng, crcTable.table
    ensures crcTable.Valid() && result' == result + 1
    ensures Running(times, s0, rng.state, result', now', log', lastPercent', choices')
  {
    var choice := rng.GetIntRange(0, KernelCount);
    RunKernel(choice, rng, crcTable);
    choices' := choices + [choice];
    result' := result + 1;
    now' := times[result'];
    log', lastPercent' := ReportProgress(times, result', log, lastPercent);
  }

  /**
   * The part of `rnbench_run` after the callback check: report 0, run
   * kernels while less than 30 seconds have passed, then report 999.
   */
  method RunLoop(times: seq<int>, rng: Rng, crcTable: Crc32.Crc32Table)
    returns (result: nat, log: seq<int>, choices: seq<int>)
    requires crcTable.Valid()
    requires |times| > 0 && times[|times| - 1] - times[0] >= Duration
    modifies rng, crcTable.table
    ensures crcTable.Valid()
    ensures 1 <= result < |times| && times[result] - times[0] >= Duration
    ensures forall k :: 1 <= k < result ==> times[k] - times[0] < Duration
    ensures log == Log(times, result) + [Finished]
    ensures choices == Choices(old(rng.state), result) && rng.state == Iterate(old(rng.state), result)
  {
    ghost var s0 := rng.state;
    var start := times[0];
    var now := start;
    log := [0];
    var lastPercent := 0;
    result, choices := 0, [];
    while now - start < Duration
      invariant start == times[0] && crcTable.Valid()
      invariant Running(times, s0, rng.state, result, now, log, lastPercent, choices)
      decreases |times| - result
    {
      result, now, log, lastPercent, choices := RunIteration(times, rng, crcTable, s0, result, log, lastPercent, choices);
    }
    log := log + [Finished];
  }
}
