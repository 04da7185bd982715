# retro-nano-bench core, modelled in Dafny

retro-nano-bench is a small, portable CPU benchmark. Its engine lives in `src/rnbench.c`. `rnbench_run` seeds a pseudo-random generator with 2137, then runs randomly chosen workload kernels until 30 seconds have passed. It reports progress to a callback and returns the number of kernels it ran. The kernels are:

- a random-number mixer;
- a word counter over generated text;
- a table-driven CRC-32 over random printable bytes;
- a run-length encoder over generated runs;
- a quicksort of random integers.

All five draw from the same generator as the scheduler.

The model has one module per part of the source:

| module | file | source part |
|---|---|---|
| `Prng` | `prng.dfy` | the linear congruential generator, as a class `Rng` with one field |
| `CStrings` | `cstrings.dfy` | the NUL-terminated string helpers, over `array<char>` |
| `BitOps` | `bitops.dfy` | `uint32_t` as naturals below 2^32, with XOR and its algebra |
| `WordCount` | `word_count.dfy` | the word-count kernel |
| `Crc32` | `crc32.dfy` | the CRC-32 kernel; the lazily built table is a class `Crc32Table` |
| `Rle` | `rle.dfy` | the run-length encoding kernel |
| `QuickSort` | `quicksort.dfy` | the quicksort kernel, in place on an `array<int>` |
| `Scheduler` | `scheduler.dfy` | `bench_random_numbers` and `rnbench_run` |

Loops in the source are methods with loop invariants. Each method is proved against a pure function of its inputs and the generator state, for example:

- `WcText` is the text `wc_create_test_text` writes;
- `RleCode` is the output of `rle_compress`;
- `QsortData` holds the values `qsort_fill_test_data` draws;
- `Iterate` and `Choices` give the scheduler's state after n kernels, and its picks.

The lemmas state what those functions mean:

- The CRC equals the standard CRC-32 on every input.
- Decoding the RLE output gives back the input, except its last run.
- Quicksort leaves a sorted permutation.
- The word count counts the words the text was built from.
- The progress log has the shape the callback sees.

Conventions:

- The generator state is an `int`. `rnd_get_int` wraps the product to 32 bits and masks 15 bits. Only the low 15 bits survive, so the wrap does not change the result (`Prng.WrapThenMask`).
- A C `char` is a Dafny `char`, and a byte is `BitOps.Byte`.
- The scratch buffers that are `static` in the source are allocated per call. Each kernel rewrites them completely before reading them, so whether they persist cannot be observed. The CRC table is the exception: it is built once and kept, so it is an object passed in by the caller.
- The clock is an oracle `times: seq<int>` in milliseconds. `times[0]` is the reading at the start, and `times[k]` is the reading after the k-th kernel.
- The progress callback is modelled by two things: a flag saying whether one was passed, and the returned `log`, which lists every value the callback would receive, in order.

Where the code and the behaviour described for it disagree, the model follows the code:

- `wc_count` counts a word only when whitespace follows it (src/rnbench.c:189-198). A word that runs into the terminating NUL is not counted. So `"a b  c"` counts 2 and `"single"` counts 0, not 3 and 1 (`WordCount.WordEndsExamples`). The NUL branch at src/rnbench.c:179-187 cannot run, because the loop condition already stops at the NUL. The texts the kernel builds end with a space, so on them the count is exact (`WordCount.WcTextWordEnds`).
- `rle_compress` writes a run only when a different byte follows it (src/rnbench.c:312-331). The final run is never written. A single run of five `0x41` bytes encodes to nothing, not to `[0x41, 0x41, 5, 0]` (`Rle.RleSingleRun`). `[1, 2, 3]` encodes to `[1, 2]` (`Rle.RleDistinctExample`).
- The run counter is a `uint16_t`, so its value is taken modulo 65536 when it is written.
- `rnbench_run` seeds the generator before it checks the callback (src/rnbench.c:452-458). A call without a callback still leaves the generator seeded with 2137.
- The comment at src/rnbench.c:500 says the kernels do not affect the scheduler's random numbers. They do: every kernel draws from the same register, and `Scheduler.Iterate` shows the consequence.
- Three things in the CRC code together make its result exactly the standard CRC-32 (`Crc32.TableMatchesStandard`), so the kernel's hash is the standard one. First, `crc32_for_byte` XORs the polynomial when the bit shifted out is 0, the reverse of the standard loop (src/rnbench.c:250). This makes entry i the standard entry for i ^ 0xFF, apart from the top byte (`Crc32.ForByteStd`). Second, the top byte is complemented (src/rnbench.c:253). Third, the register starts at 0 and gets no final XOR (src/rnbench.c:266-269). A register started at 0 stands for the complemented standard register started at 0xFFFFFFFF, and each table step keeps that correspondence (`Crc32.TableStepStd`).

## Model

| member | source | states |
|---|---|---|
| Prng.Step | src/rnbench.c:94-97 | the next generator state always lies in [0, 32767] |
| Prng.Range | src/rnbench.c:99-103 | a ranged draw lies in [from, to) whenever from < to |
| Prng.WrapThenMask | src/rnbench.c:95 | wrapping the product to 32 bits before masking 15 bits gives the same state as masking the exact value |
| Prng.StepNAdd | src/rnbench.c:94-97 | m draws followed by n draws leave the state that m + n draws leave |
| Prng.StepNBounded | src/rnbench.c:94-97 | after at least one draw the state lies in [0, 32767], whatever the seed |
| Prng.SeededSequence | src/rnbench.c:33 | from seed 2137 the first four draws are 10680, 411, 17906 and 5357 |
| Prng.Rng.constructor | src/rnbench.c:87 | the register starts at 0 |
| Prng.Rng.Init | src/rnbench.c:90-92 | seeding sets the register to the seed |
| Prng.Rng.GetInt | src/rnbench.c:94-97 | a draw advances the register by one step and returns the new state, in [0, 32767] |
| Prng.Rng.GetIntRange | src/rnbench.c:99-103 | a ranged draw advances the register by one step and returns a value in [from, to) |
| CStrings.IsWhitespace | src/rnbench.c:54-60 | every whitespace character lies after NUL and at most at a space, so the terminator is never whitespace; among the printable characters, exactly the space is whitespace |
| CStrings.CLen | src/rnbench.c:43-52 | the length of a C string is the index of its first NUL |
| CStrings.LexLessAfterPrefix | src/rnbench.c:77-80 | skipping a common prefix does not change the lexicographic order |
| CStrings.StrZero | src/rnbench.c:37-41 | the first size characters become NUL and the rest of the buffer is unchanged |
| CStrings.StrLen | src/rnbench.c:43-52 | the result is the index of the first NUL, which is the length of the C string held |
| CStrings.StrCat | src/rnbench.c:62-74 | txt and its NUL are written over the end of dst's C string and nothing else changes |
| CStrings.CatCString | src/rnbench.c:62-74 | after the append, the buffer holds the concatenation of the two C strings |
| CStrings.StrCmp | src/rnbench.c:76-83 | the result is zero exactly when the strings are equal, and its sign is their lexicographic order, in both directions |
| WordCount.LexiconWords | src/rnbench.c:124-160 | the lexicon has 32 words, each non-empty, free of whitespace and under 12 characters |
| WordCount.WordEndsAppendWord | src/rnbench.c:189-198 | appending characters that are not whitespace adds no word to the count |
| WordCount.WordEndsAppendWordSpace | src/rnbench.c:189-198 | appending a word and a space adds exactly one word to the count |
| WordCount.WordEndsExamples | src/rnbench.c:162-202 | "" and "   " count 0, "single" counts 0, "a b  c" counts 2 and "a b  c " counts 3 |
| WordCount.WcCount | src/rnbench.c:162-202 | a null text counts 0; otherwise the count is the number of words followed by whitespace in the C string |
| WordCount.WcTextShape | src/rnbench.c:204-220 | the generated text has no NUL, ends with a space and fits 12 characters per word |
| WordCount.WcTextWordEnds | src/rnbench.c:204-220 | wc_count on a generated text gives exactly the number of words written |
| WordCount.AppendPadded | src/rnbench.c:213-217 | appending a word keeps the buffer a zero-padded C string whose contents grew by the word |
| WordCount.WcCreateTestText | src/rnbench.c:204-220 | the pre-decrementing loop at line 211 writes number_of_words - 1 random words (none when the number is below 2), each followed by a space; the buffer holds that text as a zero-padded C string, the bytes past max_size are unchanged, and the generator advanced once per word |
| WordCount.WcRounds | src/rnbench.c:231-235 | k rounds count between 15k and 30k words in total |
| WordCount.AverageBounds | src/rnbench.c:237 | the integer average of such a total lies between 15 and 30 |
| WordCount.WordCountRound | src/rnbench.c:232-234 | one round counts the words of the text its draws generate, and advances the generator accordingly |
| WordCount.BenchWordCount | src/rnbench.c:222-239 | the result is the total count divided by 500, lies between 15 and 30, and the generator is left in the state the 500 rounds produce |
| Crc32.ForByteStd | src/rnbench.c:247-254 | a table entry for a complemented byte is eight standard CRC rounds of that byte, with the top byte complemented |
| Crc32.TableStepStd | src/rnbench.c:268 | one table step on a complemented register is one standard byte step, complemented |
| Crc32.Crc32Empty | src/rnbench.c:266-269 | for no bytes, both the table register and the standard CRC are 0 |
| Crc32.TableMatchesStandard | src/rnbench.c:256-270 | for every input, the table-driven register equals the standard CRC-32 |
| Crc32.StdCrc32Bound | src/rnbench.c:256-270 | the CRC fits in 32 bits |
| Crc32.CrcForByte | src/rnbench.c:247-254 | the 8-round loop computes the table entry ForByte |
| Crc32.Crc32Table.constructor | src/rnbench.c:257 | the static table starts all zero |
| Crc32.Crc32Table.Fill | src/rnbench.c:260-264 | after filling, entry i is crc32_for_byte(i) for all 256 entries |
| Crc32.Crc32Table.Crc32 | src/rnbench.c:256-270 | from a zeroed or a built table, the result is the standard CRC-32 of the first n bytes, and the table is built afterwards |
| Crc32.CrcData | src/rnbench.c:272-278 | the test data has the requested size and every byte is printable, in [32, 126) |
| Crc32.CrcFillTestData | src/rnbench.c:272-278 | the buffer prefix holds the drawn bytes, the rest is unchanged, and the generator advanced once per byte |
| Crc32.CrcRoundsBound | src/rnbench.c:288-292 | the XOR accumulation of CRCs stays a 32-bit value |
| Crc32.CrcRound | src/rnbench.c:289-290 | one round hashes 128 freshly drawn bytes with the standard CRC-32 |
| Crc32.BenchCrc32Hashes | src/rnbench.c:280-296 | the result is the XOR of the 1000 rounds' CRCs, fits in 32 bits, and the generator is left as the 1000 rounds of 128 draws leave it |
| Rle.RunsExpand | src/rnbench.c:312-331 | the runs the encoder tracks, written out, give back the input |
| Rle.RunsMaximal | src/rnbench.c:312-331 | neighbouring runs have different bytes, and every run has a length between 1 and the input length |
| Rle.RunsShape | src/rnbench.c:311-330 | a non-empty input has runs, and the last one holds the input's last byte |
| Rle.RleCodeSnoc | src/rnbench.c:314-328 | a repeated byte extends the current run and writes nothing; a new byte writes the finished run's token and starts a run of 1 |
| Rle.RleCodePrefix | src/rnbench.c:312-331 | compressing a prefix of the input never writes more than compressing all of it |
| Rle.RleCodeLength | src/rnbench.c:304-334 | the output is at most twice as long as the input |
| Rle.DecodeTokens | src/rnbench.c:317-325 | for runs shorter than 65536 with distinct neighbours, the doubled-byte marker format decodes back to the runs' bytes |
| Rle.RleRoundTrip | src/rnbench.c:304-334 | for inputs shorter than 65536 bytes, decoding the output and appending the final run gives back the input |
| Rle.RleSingleRun | src/rnbench.c:304-334 | an input that is a single run compresses to nothing |
| Rle.RleExample | src/rnbench.c:304-334 | [7, 7, 7, 9] compresses to [7, 7, 3, 0] |
| Rle.RleDistinctExample | src/rnbench.c:304-334 | [1, 2, 3] compresses to [1, 2] |
| Rle.WriteToken | src/rnbench.c:318-325 | a run of 1 writes its byte, a longer run writes the byte twice and its 16-bit count low byte first, and nothing else changes |
| Rle.CompressByte | src/rnbench.c:313-330 | one loop step keeps the output equal to the code of the input scanned so far |
| Rle.RleCompress | src/rnbench.c:304-334 | the output prefix is the run-length code of the input, at most twice its size, and the rest of the output is unchanged |
| Rle.RleFillLength | src/rnbench.c:336-351 | the fill writes exactly size bytes |
| Rle.RleFillState | src/rnbench.c:336-351 | the fill draws twice per chunk it starts |
| Rle.RleFillChunkLengths | src/rnbench.c:343 | every chunk length lies in [1, 63] |
| Rle.RleFillChunks | src/rnbench.c:336-351 | the written data is the chunks' bytes, cut where the buffer ends |
| Rle.RleFillTestData | src/rnbench.c:336-351 | the buffer prefix holds the generated chunks, the rest is unchanged, and the generator is left as the fill leaves it |
| Rle.RoundSize | src/rnbench.c:364-367 | one round's compressed size is at most 2048 bytes |
| Rle.RleRoundsSize | src/rnbench.c:363-369 | k rounds compress to at most 2048k bytes in total |
| Rle.RleRound | src/rnbench.c:364-367 | one round fills, clears and compresses, giving the size of the fresh data's code |
| Rle.RleRoundsLoop | src/rnbench.c:363-369 | the 250 rounds give the summed compressed sizes and the generator state they leave |
| Rle.BenchRleCompression | src/rnbench.c:353-373 | the summed compressed size over 250 rounds, at most 2048 per round |
| QuickSort.Swap | src/rnbench.c:400-404 | the two entries are exchanged, every other entry is unchanged, and the multiset is kept |
| QuickSort.ScanUp | src/rnbench.c:411 | the scan stops at the first entry from i on that is not below the pivot: every entry it passed is below the pivot, and the one it stops at is not |
| QuickSort.ScanDown | src/rnbench.c:412 | the scan stops at the first entry from j down that is not above the pivot: every entry it passed is above the pivot, and the one it stops at is not |
| QuickSort.PartitionPass | src/rnbench.c:411-417 | one pass of the do-while keeps the partition invariant, stays in bounds, and permutes only a[l..r] |
| QuickSort.Partition | src/rnbench.c:407-418 | Hoare partition around the middle element: the pivot is the value a[l + (r - l) / 2] held on entry, a[l..i) is at most the pivot, a(j..r] at least, and only a[l..r] is permuted |
| QuickSort.QSortJoin | src/rnbench.c:420-421 | sorting the two sides of a partition sorts the whole range |
| QuickSort.QSort | src/rnbench.c:406-422 | a[l..r] ends sorted and a permutation of what it held, and entries outside it are unchanged |
| QuickSort.SumPermutation | src/rnbench.c:433-434 | permuting an array does not change its sum |
| QuickSort.AddMod32 | src/rnbench.c:394 | accumulating with 32-bit wrap-around equals the exact sum taken modulo 2^32 |
| QuickSort.QsortArraySum | src/rnbench.c:389-398 | the result is the sum of the first size entries modulo 2^32 |
| QuickSort.QsortDataValues | src/rnbench.c:381-387 | entry m of the test data is the m-th ranged draw, in [0, 100) |
| QuickSort.QsortDataSum | src/rnbench.c:381-387 | the test data sums to between 0 and 99 per entry |
| QuickSort.QsortFillTestData | src/rnbench.c:381-387 | the buffer prefix holds the drawn values, the rest is unchanged, and the generator advanced once per entry |
| QuickSort.QsortRoundsSum | src/rnbench.c:431-435 | k rounds sum to at most 99 × 64 × k |
| QuickSort.QsortRound | src/rnbench.c:432-434 | the array ends sorted and a permutation of the drawn data, and its sum equals the drawn data's sum |
| QuickSort.BenchQuickSort | src/rnbench.c:424-439 | the result is the sum of the sorted arrays over 100 rounds and the generator is left as those rounds leave it; the sum is at most 99 × 64 × 100, so the uint32 wrap never happens |
| Scheduler.BenchRandomNumbers | src/rnbench.c:105-120 | 1000 draws advance the generator by 1000 steps |
| Scheduler.ChoicesInRange | src/rnbench.c:501 | every kernel pick is a valid bench_type, so results[choice] stays in bounds |
| Scheduler.Percent | src/rnbench.c:527-529 | the reported progress lies in [0, 100] |
| Scheduler.Log | src/rnbench.c:492-533 | the callback's first value is 0 |
| Scheduler.LogShape | src/rnbench.c:526-533 | every value after the first is a percentage and differs from the one before it |
| Scheduler.PercentMonotone | src/rnbench.c:527-529 | with a clock that never goes back, progress never decreases |
| Scheduler.LogIncreasing | src/rnbench.c:526-533 | with a clock that never goes back, the reported percentages strictly increase |
| Scheduler.RunKernel | src/rnbench.c:503-521 | the chosen kernel runs and leaves the generator in that kernel's state |
| Scheduler.ReportProgress | src/rnbench.c:526-533 | the callback gets the clamped percent exactly when it differs from the last value sent |
| Scheduler.RunIteration | src/rnbench.c:495-533 | one loop pass counts one more kernel and keeps the run's state consistent |
| Scheduler.RunLoop | src/rnbench.c:492-536 | the loop ends at the first reading 30 s after the start; the count, picks, generator and log are what that many iterations produce; the log ends with 999 |
| Scheduler.RnbenchRun | src/rnbench.c:442-539 | without a callback: returns 0 and reports nothing, but leaves the generator seeded. With one: the count is the number of kernels run before the first reading 30 s after the start, the picks are the seeded sequence's, and the log is 0, then changing percentages, then 999 |

## Left out

- Floating point. `bench_random_numbers` keeps a `double` running average, `bench_rle_compression` a `double` ratio, and `rnbench_run` a `double` clock. The model keeps only what reaches the generator or an integer result.
- Scheduler.BenchRandomNumbers: only the generator state is modelled, not the `double` average it returns.
- Rle.BenchRleCompression: returns the integer sum of the compressed sizes, not the `double` average ratio times 100 computed from it.
- Scheduler.Percent: elapsed time is in integer milliseconds, not `double` seconds. The source truncates toward zero and the model floors. The two differ only for negative elapsed time, which both clamp to 0.
- Scheduler.RnbenchRun: requires the clock oracle to reach 30 s past the start; the real clock always does. It does not model the 32-bit wrap of the `unsigned int` counter, which would need about 2^32 kernels in 30 s.
- The `results` array in `rnbench_run` is written and never read, so it is not modelled. Its index is proved in bounds (`Scheduler.ChoicesInRange`).
- The `#ifdef DEBUG` verification block (src/rnbench.c:461-490) is not part of this model: it is compiled out of normal builds and only logs.
- `platform_get_time`, `platform_log` and the progress callback's own effects are I/O. They become the `times` oracle and the returned `log`. The platform files (src/platform/) are not part of this model.
- Crc32.Crc32Table.Crc32: the source rebuilds the table whenever entry 0 is zero. Whether `crc32_for_byte(0)` is non-zero, so that the table is built only once, is not proved, because evaluating `Xor` on literals is beyond the solver. The model instead proves the same CRC either way: `Valid` admits a zeroed or a built table.
- Crc32.TableMatchesStandard: the check value of the standard CRC-32 ("123456789" gives 0xCBF43926) is not proved, for the same reason. Equality with the bit-by-bit standard algorithm is proved for every input instead.
- Rle.RleCompress: requires the output to hold at least twice the input and needs a non-empty input. The source reads `input[0]` without checking, and its caller passes 1024 bytes and a 3072-byte output. `Rle.RleCodeLength` proves that twice suffices.
- WordCount.WcCreateTestText: requires the buffer to fit 12 characters per word, which the source leaves to the caller (src/rnbench.c:125). The caller writes at most 30 words, which use at most 360 of its 512 bytes.
- Static scratch buffers are allocated per call, as described above. Aliasing between the kernels' buffers is not modelled: the source never aliases them.
- A C `char` is modelled as a Dafny `char` whose code is the byte. Signedness of `char` plays no part here, because every byte the kernels write is below 128 or is read back as `uint8_t`.
