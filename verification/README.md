# tsc benchmark: a Dafny model of its measurement logic

`tsc` is a small x86-64 Linux benchmark. It measures how much a timestamp
read (rdtscp, rdtsc, lfence;rdtsc, a compare-and-swap memoised rdtsc, or
`clock_gettime`) slows down two synthetic workloads:

- a cache-miss-bound **low-IPC** pointer chase;
- a compute-bound **high-IPC** matrix product.

It can also measure how many timestamp reads per second a source delivers on
its own. A worker thread runs the chosen workload until a controller raises a
`stopping` flag. The worker then turns its loop count and the elapsed
wall-clock time into a rate. In comparison mode, a second run with timestamp
reads disabled gives a slowdown ratio.

This project models the sequential logic of that program and proves
properties of it. There is one module per file:

- `basics.dfy` (`Basics`): 64-bit unsigned words, wrapping modulo 2^64 (`Wrap`), the C `int` range, `Result`/`Option`, and the fatal exits.
- `timeval.dfy` (`TimeInterval`): `tvsub`, `tvdelta`, and the loops-per-second rate computed from them.
- `modes.dfy` (`Modes`): the argument loop of `main`, the three defaulting rules and the dispatch, with `run_mode` as a set of mode bits.
- `reader.dfy` (`Reader`): how `read_tsc` picks a timestamp source, how a counter is assembled from its two register halves, and how a clock reading is flattened.
- `seeding.dfy` (`Seeding`): the cyclic fill of the shared matrix from 2048 random seeds.
- `high_ipc.dfy` (`HighIpc`): the in-place N x N product, with its counter bumped every 500th multiply-accumulate.
- `low_ipc.dfy` (`LowIpc`): the 1024-round pointer chase, its timestamp reads and counter, and the factor-controlled mixing step.

The kernels work on the matrix as a value (`seq<u64>`) and return the new
matrix. Things the kernels cannot compute themselves are inputs:

- the `stopping` flag is an oracle indexed by the point where the kernel tests it;
- timestamp values are an oracle indexed by read number;
- `rand()` and `atoi` are inputs.

## Model

| member | source | states |
|---|---|---|
| TimeInterval.TvSub | tsc.c:93-112 | a returned difference never has a negative field; the process exits with RanBackwards exactly when a borrow still leaves microseconds below zero; on gettimeofday-shaped inputs it never exits, and the result is normalised and equals the elapsed microseconds, or zero when the interval runs backwards |
| TimeInterval.TvDelta | tsc.c:118-128 | fails exactly when tvsub does; on normalised inputs it is the non-negative elapsed microseconds modulo 2^64 |
| TimeInterval.BeforeIsEarlier | tsc.c:107-111 | on normalised timevals, the (sec, usec) lexicographic order is the order of the instants they denote |
| TimeInterval.TvDeltaExact | tsc.c:93-128 | with stop not before start, tvdelta is exactly stop minus start in microseconds, including the borrow case |
| TimeInterval.TvDeltaBackwards | tsc.c:107-111 | for any stop earlier than start, even a non-normalised one, tvsub yields (0, 0) and tvdelta yields 0, never a wrapped negative |
| TimeInterval.RanBackwardsNeedsBadInput | tsc.c:97-104 | the "ran backwards" exit can be reached, but only when some input has microseconds outside [0, 10^6) |
| TimeInterval.RateAsWritten | tsc.c:276 | the unguarded division dies exactly when delta is 0; otherwise the result is the floor of (loops * 10^6 mod 2^64) / delta |
| TimeInterval.RateAsWrittenDividesByZero | tsc.c:274-276 | two gettimeofday readings one second apart in the wrong order give delta 0, and the rate then divides by zero |
| TimeInterval.Rate | tsc.c:276 | the guarded rate is absent exactly when delta is 0; otherwise it is the same floor quotient |
| TimeInterval.RateAgrees | tsc.c:276 | the guarded rate equals the unguarded rate wherever the unguarded one returns, and is absent exactly where it dies |
| TimeInterval.RateOfForwardRun | tsc.c:269-276 | a forward, normalised, in-range interval gives a positive delta and therefore always a rate |
| Modes.Classify | tsc.c:423-470 | an argument is a mode flag only if it spells that mode's keyword; it is a factor setting exactly when it starts with "factor=", with value atoi of the rest; it is unknown exactly when it is neither |
| Modes.KeywordRoundTrip | tsc.c:425-459 | each mode's keyword classifies back to that mode, and no two modes share a keyword |
| Modes.ParseArgs | tsc.c:423-471 | the only way the argument loop fails is the usage exit |
| Modes.ParseArgsMode | tsc.c:423-471 | the loop fails exactly when some argument is unrecognised; otherwise run_mode is exactly the set of bits the arguments name |
| Modes.ModeIgnoresOrder | tsc.c:423-471 | two argument lists with the same elements, in any order and with any repetition, agree on failure and on run_mode |
| Modes.ParseArgsFactor | tsc.c:460-462 | with no factor= argument the factor stays 1; otherwise it is atoi of the last factor= argument |
| Modes.ApplyDefaults | tsc.c:473-487 | defaulting only adds LOW_IPC and RDTSCP; it adds LOW_IPC exactly when nothing runnable, or only cmp without a workload, was named; it adds RDTSCP exactly when no timestamp bit was named; afterwards some timestamp bit is set and cmp implies a workload bit |
| Modes.DefaultsIdempotent | tsc.c:473-487 | applying the defaulting rules to an already defaulted mode changes nothing |
| Modes.Plan | tsc.c:509-545 | LOW_IPC takes precedence over HIGH_IPC; the bare read loop runs only when no workload bit is set and a clock bit is; cmp adds a second run of the same workload with reads skipped; the first run skips reads exactly under notsc with a workload |
| Modes.DefaultedPlanRuns | tsc.c:473-545 | after defaulting, the dispatch always runs at least one phase |
| Modes.Configure | tsc.c:423-545 | the configuration fails with the usage exit exactly when some argument is unrecognised; otherwise at least one phase runs, a timestamp bit is set, and the mode is the named bits plus at most LOW_IPC and RDTSCP |
| Modes.NoArgumentsRunLowIpc | tsc.c:473-487 | with no arguments, one low-IPC run with rdtscp and factor 1 |
| Modes.BareClockRunsReadLoop | tsc.c:543-544 | `rdtsc` alone runs only the bare read loop, with nothing added by defaulting |
| Modes.CompareLowIpc | tsc.c:509-525 | `low_ipc cmp rdtsc` runs low IPC with reads, then again with reads skipped |
| Modes.CompareDefaultsToLowIpc | tsc.c:479-482 | `cmp` alone compares the low-IPC workload, with rdtscp as its source |
| Modes.UnknownArgumentIsUsage | tsc.c:463-469 | an unrecognised argument after a valid one still ends in the usage exit |
| Reader.SelectVariant | tsc.c:183-211 | nothing is read exactly when skip_rdtsc is set; otherwise the chosen source has its bit set (or is the plain fallback), and no source ranked above it has its bit set |
| Reader.PriorityIsUnique | tsc.c:185-211 | at most one source satisfies the priority rule for a given mode |
| Reader.RdtscBitIgnored | tsc.c:183-211 | the MODE_RDTSC bit never changes which source is read |
| Reader.PlainCounterIsFallback | tsc.c:211 | plain rdtsc is read exactly when none of the five other source bits is set |
| Reader.JoinHalves | tsc.c:134 | the 64-bit counter's high 32 bits are edx and its low 32 bits are eax |
| Reader.JoinSplit | tsc.c:134 | every 64-bit value is the join of its own high and low halves |
| Reader.JoinInjective | tsc.c:134 | distinct register pairs give distinct counter values |
| Reader.ClockNanosExact | tsc.c:200 | an in-range clock reading flattens to its exact nanosecond count |
| Reader.ClockNanosMonotone | tsc.c:200 | a later in-range clock reading never flattens to a smaller number |
| Reader.Read | tsc.c:185-211 | the disabled source reads 0; a read dies, with ClockFailed, exactly when the selected clock fails |
| Reader.ReadTsc | tsc.c:183-212 | skip_rdtsc gives 0 whatever the mode; only a failing clock whose bit is set can end the process; rdtscp is read whenever its bit is set and reads are on |
| Reader.ComparisonRerunReadsNothing | tsc.c:515-521 | in every two-phase configuration, the second run reads 0 from the timestamp source whatever the mode |
| Reader.ReadLoopReadsConfiguredClock | tsc.c:543-544 | when the bare read loop is dispatched, its reads are never disabled, even under notsc |
| Seeding.SeedMatrix | tsc.c:505-507 | the filled matrix has the requested length, and entry i holds seed i mod 2048 converted to unsigned long (the seed itself for rand() values) |
| Seeding.SeededIsPeriodic | tsc.c:505-507 | a seeded matrix repeats with period 2048 |
| Seeding.DefaultMatrixFitsKernels | tsc.c:45 | the default 64 Mi-entry matrix meets the kernels' size conditions: the low-IPC indices cannot overflow an `int` at factor 1, and three 105 x 105 blocks fit for the high-IPC product |
| HighIpc.AddTerm | tsc.c:302-304 | adding the product term of step k to the 64-bit sum of k terms gives the 64-bit sum of k + 1 terms |
| HighIpc.Tick | tsc.c:305-309 | after one step, the counter still equals its start plus the number of multiples of 500 passed since the base |
| HighIpc.MultiplyCell | tsc.c:299-312 | only cell (i, j) of m3 is written; the counter advances once per multiple of 500 crossed; the call stops right after the first step that sees the flag; a cell finished without the flag holds its dot product modulo 2^64 |
| HighIpc.NextCell | tsc.c:298-312 | one more cell extends the prefix of finished cells, and m1, m2 and everything past m3 stay unchanged |
| HighIpc.MultiplyRow | tsc.c:298-313 | a row run without the flag leaves every cell of rows 0..i of m3 holding its product entry after exactly (i+1)·N·N steps; m1, m2 and everything past m3 stay unchanged |
| HighIpc.HighIpc | tsc.c:286-315 | m1, m2 and everything past m3 are unchanged; *loops advances by the number of multiples of 500 among the steps done; the flag is tested after every step and the first raised flag ends the call; a call that never sees the flag does N^3 steps and leaves m3 = m1 * m2 modulo 2^64 |
| HighIpc.CellIsPlain | tsc.c:294-295 | the block offsets and row-major cell index used by the model are the source's N*N and i*N+j |
| HighIpc.DotStep | tsc.c:302-304 | each term of the dot product is m1[i*N+k] * m2[k*N+j], both in bounds |
| HighIpc.DefaultCallCount | tsc.c:85 | a complete call at the default N = 105 bumps *loops 105^3 / 500 = 2315 times |
| LowIpc.HitsUpToCounts | tsc.c:234-239 | counting timestamp reads one link at a time gives the size of the set of links j with (i*j) % 500 == 0 |
| LowIpc.SumReadsIsWrappedTotal | tsc.c:237 | the running `val +=` sum is the unbounded sum of the reads modulo 2^64 |
| LowIpc.SkippedReadsSumToZero | tsc.c:185-186 | when every read returns 0, as under skip_rdtsc, the read sum stays 0 |
| LowIpc.HitsUpToBound | tsc.c:236 | among j links at most j read, and link 0 always reads |
| LowIpc.HitsUpToMiss | tsc.c:236 | one link that does not read makes the count fall short of j |
| LowIpc.HitsUpToAll | tsc.c:236 | when every link reads, the count is j |
| LowIpc.MultipleHits | tsc.c:236 | in a round whose index is a multiple of 500, every link reads |
| LowIpc.HitsInRowRange | tsc.c:234-239 | every round does between 1 and 256 reads |
| LowIpc.FullRowIffMultiple | tsc.c:234-239 | a round reads on all 256 links exactly when its index is a multiple of 500 |
| LowIpc.FirstRowReadsEveryLink | tsc.c:236 | round 0 reads on all 256 links |
| LowIpc.HitsBeforeRange | tsc.c:229-239 | c rounds do between c and 256·c reads |
| LowIpc.Link | tsc.c:235 | the next dst of the chase is an index inside the matrix |
| LowIpc.ChaseEnd | tsc.c:234-235 | the end of a chase started in bounds is an index inside the matrix |
| LowIpc.AddRead | tsc.c:237 | `val += read_tsc()` on an accumulator holding the unbounded total of the first count readings modulo 2^64 leaves it holding the total of the first count + 1 readings modulo 2^64 |
| LowIpc.Bump | tsc.c:238 | `*loops += 1` keeps the counter equal to its start plus the reads done, modulo 2^64 |
| LowIpc.Chase | tsc.c:234-240 | the inner loop ends in bounds at the 256-link chase from dst; *loops and the read count each grow by the round's number of reads, and val is the wrapped sum of all reads so far |
| LowIpc.MixStep | tsc.c:247-248 | one update writes only matrix[dst] |
| LowIpc.Mixed | tsc.c:246-248 | any number of updates write only matrix[dst] |
| LowIpc.FirstMixStep | tsc.c:247-248 | the first update sets matrix[dst] to matrix[src] + 2·matrix[dst] modulo 2^64 |
| LowIpc.Mix | tsc.c:246-248 | the k loop performs 2·factor updates, none when factor ≤ 0, and writes only matrix[dst] |
| LowIpc.Round | tsc.c:229-249 | every index used is in bounds; index advances by one modulo the matrix size; dst is the end of the chase from matrix[matrix[index]]; only matrix[dst] changes; the read count, val and *loops advance by the round's reads |
| LowIpc.Rounds | tsc.c:229-251 | the flag is tested only after a full round, and the first raised flag ends the loop; only the cells the rounds ended on change; *loops and val account for exactly the reads of the rounds done |
| LowIpc.LowIpc | tsc.c:215-254 | between 1 and 1024 rounds run, and fewer only when the flag was raised; only the round-end cells change, none when factor ≤ 0; *loops grows by the reads of the rounds done; the result is the last dst cell plus the wrapped read sum |

## Left out

- The bodies of `rdtscp`, `rdtsc` and `rdtsc_lfence` (tsc.c:130-149) are inline assembly. The register pair each would return is an input (`Reader.Sources`); only the join of the halves is modelled.
- `rdtsc_cas` (tsc.c:151-181) is a compare-and-swap and spin-wait protocol between threads. Its result is an input, and its spin loop need not terminate.
- `clock_gettime` and `gettimeofday` are system calls. Their results are inputs, and a failing `clock_gettime` is an absent reading.
- The worker threads and `run_for_secs` (tsc.c:260-390) are threads, `sleep` and a shared volatile flag. Inside the kernels the flag is an oracle. The rate computation the workers perform is modelled in `TimeInterval`.
- The loops of the worker threads that call a kernel until the flag rises are not modelled. Each kernel is modelled for one call.
- Inside the kernels, a timestamp read is an oracle value. A failing clock inside a kernel is the `Reader.ReadTsc` exit and is not threaded through the kernels.
- The comparison ratio (tsc.c:516-524, 533-541) is double-precision floating point.
- `fprintf`, `setlocale` and the `tsc_variant` label affect only what is printed.
- The `malloc` failure path (tsc.c:493-497) is left out. The model starts from an allocated matrix.
- `rand()` and `atoi` are inputs, with `rand()` in [0, RAND_MAX].
- The disabled `#if 0` block (tsc.c:392-413) is not compiled.
- Timeval fields are unbounded integers. Signed 64-bit overflow in `tvsub` would need timestamps hundreds of billions of years apart.
- LowIpc.LowIpc: the signed `int` overflow of `dst + j`, `src + k` and `2 * factor` is undefined behaviour in C. The preconditions rule it out (a matrix below 2^31 entries and a moderate factor) instead of modelling it.
- LowIpc.Mix: `src` and `dst` are C `int`s, so an overflowing `src + k` is excluded by precondition, as for `LowIpc.LowIpc`.
- LowIpc.Chase: `dst + j` overflowing an `int` is excluded by precondition.
- LowIpc.Round: states the written cell and the frame, but not the written value. `LowIpc.Mix` states the exact value as `Mixed`.
- LowIpc.LowIpc: the initial `index == 0` test is always true, so the index is always drawn from `rand()`; the test itself is not modelled.

Where the program's behaviour differs from its description, the model follows the code:

- `high_ipc` bumps `*loops` once per 500 multiply-accumulates, not once per output cell.
- `factor=` accepts any integer that `atoi` yields. Zero or a negative factor skips the mixing loop.
- The loops-per-second division is not guarded against a zero interval (see Findings).
- `low_ipc` draws a fresh start index from `rand()` on every call; no index persists between calls.
- `notsc` alone still runs the low-IPC workload, with reads skipped. With clock bits and no workload bit, the bare read loop runs with reads on; a `notsc` given alongside is ignored, because `skip_rdtsc` is set only in the workload branches (tsc.c:510, tsc.c:527).

## Findings

| source | as written | input that shows it | evidently intended | confidence | as-written member | corrected member |
|---|---|---|---|---|---|---|
| tsc.c:274-276 | `calls_s = (loops * USEC_PER_SEC) / delta` with no check of `delta`; `tvdelta` clamps a backwards interval to 0 | start = (100 s, 0 µs), stop = (99 s, 0 µs), i.e. the wall clock stepped back during the run: `tvdelta` is 0 and the division traps | a zero interval yields no rate instead of killing the process | not executed | TimeInterval.RateAsWrittenDividesByZero | TimeInterval.Rate |

The same unguarded division appears at tsc.c:337 and tsc.c:367. `TimeInterval.RateAsWritten` models the division as written. `TimeInterval.RateAgrees` proves that the guarded `TimeInterval.Rate` agrees with it wherever it returns, and `TimeInterval.RateOfForwardRun` proves that `Rate` returns a value for every forward interval.
