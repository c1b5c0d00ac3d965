# HyperLogLog experiment core, modelled in Dafny

This project models the parts of a C++ HyperLogLog experiment that do not depend on I/O or randomness:

- **The sketch** (`Hll`, hyper_log_log.dfy): a class holding an array of `m = 2^B` one-byte registers.
  - `add` routes a 32-bit hash to register `x >> (32 - B)` and raises that register to the rank of `x << B`.
  - The rank `rho` is one plus the leading-zero count, capped at `33 - B`. It is modelled both as the builtin-clz branch and as the portable shift-and-test loop.
  - `estimate` is the raw `alpha(m) m^2 / sum 2^-v`, over exact reals.
  - The update is specified by a function on register sequences (`AddSpec`, `AddAll`), with these proved about it:
    - one register changes and none decreases;
    - idempotence and commutativity;
    - chunked feeding;
    - registers stay bounded;
    - the sketch depends only on the set of hashes;
    - the estimate never decreases as hashes are added.
- **The seeded key hash** (`Hashing`, hash_func_gen.dfy):
  - 64-bit FNV-1a computed byte by byte, with the FNV prime of draft-eastlake-fnv, section 2.1. The starting state is the code's 1469598103934665603, not the section 2.2 offset basis 14695981039346656037: it is that number with its last digit dropped, and the model keeps the code's value;
  - XOR with the seed;
  - the SplitMix64 finaliser;
  - truncation to 32 bits.

  SplitMix64 is proved to be a bijection: an explicit inverse is proved to undo it on both sides. So different seeds never collide before truncation.
- **The exact distinct counter** (`Exact`, exact.dfy): the set-insertion loop is proved to return the cardinality of the set of keys in the prefix. The model also proves:
  - the count is at most the prefix length;
  - it is independent of order;
  - its snoc behaviour: a repeated key adds nothing, a new key adds exactly one;
  - it is monotone in the prefix length.
- **The stream helpers** (`StreamGen`, random_stream_gen.dfy):
  - the key character filter and the key sanitiser;
  - the prefix view by fraction;
  - the checkpoint index splitter, proved to return exactly the checkpoint lengths of the fractions it visits, each once, in increasing order, ending with n.
- **The experiment driver** (`Experiments`, run_experiments.dfy):
  - `starts_with` and the clamping of step and precision in argument parsing;
  - the checkpoint-fraction generator;
  - the zero-guarded relative error;
  - per-trial seed derivation: distinct trials get distinct seeds;
  - the trial loop, which threads `prev_k` through the checkpoints and feeds only the new keys. At every checkpoint it is proved to record exactly the exact count of the prefix and the estimate of a fresh sketch fed that whole prefix. A ghost log of the stream positions handed to the sketch is proved to be 0, 1, 2, ... up to the last checkpoint: every key is added exactly once, in stream order.

Keys are byte strings (`seq<uint8>`). Bit-level code is written over `bv32`/`bv64`, so wrap-around is that of the source's `uint32_t`/`uint64_t`. Doubles are modelled as exact reals.

The fractions loop in run_experiments.cpp appends 1.0 only when the last multiple of the step is more than 1e-12 away from it, so the list can end just below 1.0. `Experiments.Fractions` returns the list described by `Experiments.FractionsOf`, which pins it down (`Experiments.FractionsUnique`): every multiple of the step below 1.0, in order, then 1.0, except that the list ends on the last multiple when that multiple is within 1e-12 below 1.0 and the next is at least 1e-12 past it. Over exact reals, step 1/3 - 1e-13 gives exactly [1/3 - 1e-13, 2/3 - 2e-13, 1 - 3e-13], and the last checkpoint of a 200000-key stream then covers 199999 keys (`Experiments.ShortLastFraction`). With a step of 0 or below the loop would never end; `fractions` is only called with the parsed step, which the argument clamp has already put into (0, 1], so `Experiments.Fractions` requires a positive step.

## Model

| member | source | states |
|---|---|---|
| Hll.HyperLogLog.constructor | src/hll/HyperLogLog.cpp:5 | the sketch has `m == 2^B` registers, all zero, in a fresh array |
| Hll.HyperLogLog.B | src/hll/HyperLogLog.cpp:7 | the precision of a valid sketch lies in [4, 18] |
| Hll.HyperLogLog.M | src/hll/HyperLogLog.cpp:8 | the register count is 2^B |
| Hll.HyperLogLog.Regs | src/hll/HyperLogLog.cpp:9 | the observed registers number 2^B |
| Hll.Alpha | src/hll/HyperLogLog.cpp:11-16 | the bias constant is positive and below 0.7213 for every register count |
| Hll.ClzNonzero | src/hll/HyperLogLog.cpp:21 | the leading-zero count is below 32 exactly for nonzero words |
| Hll.Rho | src/hll/HyperLogLog.cpp:18-26 | for max_bits < 255 the rank lies in [1, max_bits + 1] |
| Hll.RhoBounds | src/hll/HyperLogLog.cpp:18-26 | the rank lies in [1, max_bits + 1]; it is max_bits + 1 for the zero word; for any other word it is 1 + clz(w) when that is within the cap and max_bits + 1 otherwise |
| Hll.RhoOfZeroWraps | src/hll/HyperLogLog.cpp:19 | with max_bits = 255 the byte cast makes the rank of the zero word 0 |
| Hll.RhoPortable | src/hll/HyperLogLog.cpp:27-35 | the portable shift-and-test loop returns the same rank as the builtin-clz branch, for every word and cap |
| Hll.Index | src/hll/HyperLogLog.cpp:40 | the top B bits of a hash are always a register index below 2^B |
| Hll.IndexBound | src/hll/HyperLogLog.cpp:40 | `x >> (32 - B)` (x div 2^(32-B)) is below 2^B |
| Hll.Rank | src/hll/HyperLogLog.cpp:41-43 | the rank of a hash lies in [1, 33 - B] |
| Hll.AddSpec | src/hll/HyperLogLog.cpp:39-45 | the updated registers still fit B, no register decreases, and the register at the hash's index is at least its rank |
| Hll.HyperLogLog.Add | src/hll/HyperLogLog.cpp:39-45 | the new registers are the update function applied to the old ones; B, m and the array are unchanged |
| Hll.AddRaisesOneRegister | src/hll/HyperLogLog.cpp:43-44 | the indexed register becomes max(old, rank), every other register is unchanged, and no register decreases |
| Hll.AddIdempotent | src/hll/HyperLogLog.cpp:44 | adding the same hash twice leaves the registers of adding it once |
| Hll.AddCommutes | src/hll/HyperLogLog.cpp:44 | two adds in either order leave the same registers |
| Hll.AddAllAppend | src/hll/HyperLogLog.cpp:39-45 | adding xs then ys equals adding xs + ys |
| Hll.AddAllRegister | src/hll/HyperLogLog.cpp:44 | after a sequence of adds, each register is the max of its start value and the largest rank routed to it |
| Hll.MaxRankIsMaximum | src/hll/HyperLogLog.cpp:44 | that largest rank bounds every rank routed to the register and is attained, unless it is 0 |
| Hll.AddAllSameSet | src/hll/HyperLogLog.cpp:39-45 | a fresh sketch's registers depend only on the set of hashes added |
| Hll.AddAllBounded | src/hll/HyperLogLog.cpp:42-44 | registers starting at most 33 - B stay at most 33 - B under any sequence of adds |
| Hll.Weight | src/hll/HyperLogLog.cpp:50 | 2^-v lies in (0, 1] |
| Hll.RegisterSum | src/hll/HyperLogLog.cpp:48-51 | the harmonic sum lies in [0, m] and is positive for a nonempty register array |
| Hll.RegisterSumStep | src/hll/HyperLogLog.cpp:49-51 | summing one more register adds its weight |
| Hll.HyperLogLog.Estimate | src/hll/HyperLogLog.cpp:47-54 | the loop computes alpha(m) m^2 over the harmonic sum of the current registers |
| Hll.FreshEstimate | src/hll/HyperLogLog.cpp:47-54 | the estimate of all-zero registers is alpha(m) m |
| Hll.EstimateAtLeast | src/hll/HyperLogLog.cpp:47-54 | every estimate is at least alpha(m) m |
| Hll.RaiseLowersSum | src/hll/HyperLogLog.cpp:44-51 | raising a register never increases the harmonic sum |
| Hll.AddNeverLowersEstimate | src/hll/HyperLogLog.cpp:39-54 | an add never lowers the estimate |
| Hll.AddAllNeverLowersEstimate | src/hll/HyperLogLog.cpp:39-54 | no sequence of adds lowers the estimate |
| Hashing.Fnv1aSnoc | src/hash/HashFuncGen.cpp:5-12 | FNV-1a of the empty key is the offset basis; each further byte is one XOR-then-multiply round |
| Hashing.Fnv1aBasisNotStandard | src/hash/HashFuncGen.cpp:6 | the empty key does not hash to the standard offset basis 0xcbf29ce484222325; the code's starting state is that basis with its last decimal digit dropped |
| Hashing.Fnv1aFromAppend | src/hash/HashFuncGen.cpp:7-10 | hashing s + t continues from the state after s |
| Hashing.HashFuncGen.Fnv1a64 | src/hash/HashFuncGen.cpp:5-12 | the byte loop computes 64-bit FNV-1a of the key |
| Hashing.GammaInverse | src/hash/HashFuncGen.cpp:15 | adding the golden-ratio increment is undone by subtracting it |
| Hashing.XorShift30Inverse | src/hash/HashFuncGen.cpp:16 | the xor-shift by 30 is invertible |
| Hashing.MulFirstInverse | src/hash/HashFuncGen.cpp:16 | multiplying by 0xbf58476d1ce4e5b9 is invertible modulo 2^64 |
| Hashing.XorShift27Inverse | src/hash/HashFuncGen.cpp:17 | the xor-shift by 27 is invertible |
| Hashing.MulSecondInverse | src/hash/HashFuncGen.cpp:17 | multiplying by 0x94d049bb133111eb is invertible modulo 2^64 |
| Hashing.XorShift31Inverse | src/hash/HashFuncGen.cpp:18 | the xor-shift by 31 is invertible |
| Hashing.SplitMix64RoundTrip | src/hash/HashFuncGen.cpp:14-20 | the inverse stages in reverse order recover the finaliser's input |
| Hashing.GammaRightInverse | src/hash/HashFuncGen.cpp:15 | subtracting the golden-ratio increment is undone by adding it |
| Hashing.XorShift30RightInverse | src/hash/HashFuncGen.cpp:16 | the xor-shift by 30 undoes its inverse |
| Hashing.MulFirstRightInverse | src/hash/HashFuncGen.cpp:16 | multiplying by 0xbf58476d1ce4e5b9 undoes its inverse |
| Hashing.XorShift27RightInverse | src/hash/HashFuncGen.cpp:17 | the xor-shift by 27 undoes its inverse |
| Hashing.MulSecondRightInverse | src/hash/HashFuncGen.cpp:17 | multiplying by 0x94d049bb133111eb undoes its inverse |
| Hashing.XorShift31RightInverse | src/hash/HashFuncGen.cpp:18 | the xor-shift by 31 undoes its inverse |
| Hashing.SplitMix64Onto | src/hash/HashFuncGen.cpp:14-20 | every 64-bit value is a finaliser output: the finaliser applied to the inverse gives the value back |
| Hashing.SplitMix64Injective | src/hash/HashFuncGen.cpp:14-20 | the finaliser maps different inputs to different outputs |
| Hashing.SeedsMixApart | src/hash/HashFuncGen.cpp:22-24 | for a fixed key, two seeds give the same 64-bit mix exactly when they are equal |
| Hashing.HashFuncGen.constructor | src/hash/HashFuncGen.cpp:3 | the seed is stored and never changes |
| Hashing.HashFuncGen.Hash | src/hash/HashFuncGen.cpp:22-26 | the hash is the low 32 bits of SplitMix64(FNV-1a(key) XOR seed) |
| Exact.F0Empty | src/experiments/exact.hpp:24-29 | the empty prefix has no distinct keys |
| Exact.F0Snoc | src/experiments/exact.hpp:27 | a key already present leaves the count unchanged; a new key adds exactly one |
| Exact.F0AtMostLength | src/experiments/exact.hpp:27-28 | the count is at most the prefix length |
| Exact.F0SameKeys | src/experiments/exact.hpp:27 | prefixes with the same keys have the same count |
| Exact.F0Permutation | src/experiments/exact.hpp:27 | a reordered prefix has the same count |
| Exact.F0PrefixMonotone | src/experiments/exact.hpp:24-29 | a longer prefix has at least as many distinct keys |
| Exact.SvEq | src/experiments/exact.hpp:18-22 | keys are equal exactly when they have the same length and the same byte at every position |
| Exact.SvHash | src/experiments/exact.hpp:8-15 | the bucket hash is the same 64-bit FNV-1a as the key hash's first stage |
| Exact.ExactF0 | src/experiments/exact.hpp:24-29 | the set-insertion loop returns the number of distinct keys in the prefix |
| StreamGen.AllowedIsAlphabet | src/stream/RandomStreamGen.cpp:46-52 | a character is allowed exactly when it is one of a-z, A-Z, 0-9, '-', the generator's alphabet |
| StreamGen.SanitizedShape | src/stream/RandomStreamGen.cpp:54-60 | the result has length min(\|s\|, 30); each character is kept if allowed and replaced by '-' otherwise |
| StreamGen.SanitizedAllowed | src/stream/RandomStreamGen.cpp:55-57 | every character of a sanitised key is allowed |
| StreamGen.SanitizedKeepsAllowed | src/stream/RandomStreamGen.cpp:54-60 | a key of at most 30 allowed characters is unchanged |
| StreamGen.SanitizedIdempotent | src/stream/RandomStreamGen.cpp:54-60 | sanitising twice is sanitising once |
| StreamGen.Sanitize | src/stream/RandomStreamGen.cpp:54-60 | the rewrite-in-place loop and the resize produce the sanitised key |
| StreamGen.Clamp01 | src/stream/RandomStreamGen.cpp:36-37 | the clamped fraction lies in [0, 1] and fractions already there are kept |
| StreamGen.PrefixLength | src/stream/RandomStreamGen.cpp:36-39 | the prefix length never exceeds the stream length |
| StreamGen.PrefixLengthIsFloor | src/stream/RandomStreamGen.cpp:38-39 | for a fraction in [0, 1] the prefix length is floor(f n) |
| StreamGen.PrefixLengthMonotone | src/stream/RandomStreamGen.cpp:35-39 | a larger fraction never gives a shorter prefix |
| StreamGen.PrefixLengthEnds | src/stream/RandomStreamGen.cpp:35-39 | fraction 1 gives the whole stream and fraction 0 nothing |
| StreamGen.PrefixViewByFraction | src/stream/RandomStreamGen.cpp:35-44 | the view is exactly the first PrefixLength(f, n) keys, in order |
| StreamGen.NextFraction | src/stream/RandomStreamGen.cpp:27-28 | a fraction below 1.0 moves strictly forward by a positive step and never past 1.0; one at or above 1.0 moves a full step |
| StreamGen.AdvanceNotBack | src/stream/RandomStreamGen.cpp:27-28 | a positive step never moves a fraction backwards |
| StreamGen.LengthAtMonotone | src/stream/RandomStreamGen.cpp:24-28 | the checkpoint lengths of successive visited fractions never decrease |
| StreamGen.Push | src/stream/RandomStreamGen.cpp:26 | the pushed list ends with the new length and holds exactly the old lengths and the new one |
| StreamGen.CollectedNext | src/stream/RandomStreamGen.cpp:24-28 | one more round advances the fraction and pushes its length |
| StreamGen.CollectedMembers | src/stream/RandomStreamGen.cpp:22-30 | after t rounds the list holds exactly the checkpoint lengths of the first t visited fractions |
| StreamGen.CollectedDone | src/stream/RandomStreamGen.cpp:29 | once a visited fraction's length is n, the list holds exactly the lengths of all visited fractions |
| StreamGen.VisitingStep | src/stream/RandomStreamGen.cpp:23-30 | a round whose length is not n keeps the loop state, with one step fewer left to reach 1.0 |
| StreamGen.VisitFraction | src/stream/RandomStreamGen.cpp:24-29 | one round pushes the current fraction's length and advances it; either the length was n or the loop state holds again |
| StreamGen.AdvanceStep | src/stream/RandomStreamGen.cpp:23-29 | while the prefix is not yet the whole stream, a step keeps the fraction in (0, 1], never shortens the prefix, and lowers the termination measure |
| StreamGen.CheckpointLength | src/stream/RandomStreamGen.cpp:24-25 | floor(cur n) capped at n is the prefix length of the fraction |
| StreamGen.FloorCapIsPrefix | src/stream/RandomStreamGen.cpp:24-25 | for a fraction in (0, 1], the floor-then-cap rule equals the clamped prefix length |
| StreamGen.PushDistinct | src/stream/RandomStreamGen.cpp:26 | pushing a length only when it differs from the last keeps the indices strictly increasing and at most n |
| StreamGen.CheckpointLoop | src/stream/RandomStreamGen.cpp:22-30 | the stepping loop terminates; its indices are strictly increasing, at most n, end with n, and are exactly the checkpoint lengths of the visited fractions |
| StreamGen.SplitIndicesByFraction | src/stream/RandomStreamGen.cpp:18-33 | a step <= 0 gives no indices; otherwise (the step capped at 1) the indices are strictly increasing, end at exactly n, and are exactly the lengths floor(f n) of the fractions step, 2 step, ... visited, the last pulled back to 1.0 |
| Experiments.StartsWith | src/experiments/run_experiments.cpp:28-30 | true exactly when p is a prefix of s |
| Experiments.StartsWithIsSplit | src/experiments/run_experiments.cpp:28-30 | s starts with p exactly when s is p followed by some string |
| Experiments.ClampStep | src/experiments/run_experiments.cpp:50-51 | the step ends in (0, 1]: a step <= 0 becomes 0.05, one above 1 becomes 1, others are kept |
| Experiments.ClampPrecision | src/experiments/run_experiments.cpp:52-53 | B ends in [4, 18]: below 4 becomes 4, above 18 becomes 18, others are kept |
| Experiments.ClampArgs | src/experiments/run_experiments.cpp:50-54 | parsing clamps step and B as above and leaves every other setting unchanged |
| Experiments.ClampSettles | src/experiments/run_experiments.cpp:50-53 | clamped settings are usable (0 < step <= 1, valid B), and clamping again changes nothing |
| Experiments.DefaultsUnclamped | src/experiments/run_experiments.cpp:18-26 | the default settings are already inside the clamped ranges |
| Experiments.StepsIsProduct | src/experiments/run_experiments.cpp:64-69 | after i repeated additions of the step, the fraction is i times the step |
| Experiments.StepsIncrease | src/experiments/run_experiments.cpp:64-69 | more steps give a larger fraction |
| Experiments.StepPrefixIncreasing | src/experiments/run_experiments.cpp:64-70 | the fractions pushed inside the loop are strictly increasing and in (0, 1] |
| Experiments.StepsOrder | src/experiments/run_experiments.cpp:64-69 | for a positive step, one accumulated multiple is below another exactly when it has fewer steps |
| Experiments.FractionsLength | src/experiments/run_experiments.cpp:62-73 | two lists that both fit the description of the fractions have the same length |
| Experiments.FractionsUnique | src/experiments/run_experiments.cpp:62-73 | the description of the fractions list determines it: a positive step has exactly one list |
| Experiments.NotEndsShort | src/experiments/run_experiments.cpp:65-71 | when the multiples after the last one below 1.0 stay under 1 + 1e-12, the list does not end short of 1.0 |
| Experiments.FractionsAtBreak | src/experiments/run_experiments.cpp:66-68 | stopping at a multiple in [1, 1 + 1e-12), pulled back to 1.0, yields the described list |
| Experiments.FractionsAtExit | src/experiments/run_experiments.cpp:65-71 | leaving the loop at a multiple at least 1e-12 past 1.0, then appending 1.0 unless the last is within 1e-12 of it, yields the described list |
| Experiments.Fractions | src/experiments/run_experiments.cpp:62-73 | for step > 0 the list is nonempty, strictly increasing and in (0, 1]; every multiple of the step below 1.0 appears in its place; every element but the last is such a multiple; the last is 1.0, or the last multiple exactly when that multiple ends within 1e-12 below 1.0 with the next at least 1e-12 past it |
| Experiments.ShortLastFraction | src/experiments/run_experiments.cpp:62-71 | for step 1/3 - 1e-13 the fractions list is exactly the three multiples below 1 (the fourth is past 1 + 1e-12 and the third is within 1e-12 of 1.0, so 1.0 is not appended), and its last checkpoint of 200000 keys covers only 199999 |
| Experiments.CheckpointsNondecreasing | src/experiments/run_experiments.cpp:129-132 | the checkpoint length floor(frac n), capped at n, never decreases along the fractions |
| Experiments.RelError | src/experiments/run_experiments.cpp:87-88 | 0 when the true count is 0; otherwise est = true (1 + error) |
| Experiments.RelErrorZero | src/experiments/run_experiments.cpp:87-88 | the error is 0 exactly when the true count is 0 or the estimate equals it |
| Experiments.TrialOfStreamSeed | src/experiments/run_experiments.cpp:121 | the trial number is recovered from its stream seed (1000003 is odd, hence invertible modulo 2^64) |
| Experiments.TrialSeedsDistinct | src/experiments/run_experiments.cpp:121-123 | two trials share a stream seed, and likewise a hash seed, exactly when they are the same trial |
| Experiments.HasherHashes | src/experiments/run_experiments.cpp:123 | the hash function of a seed agrees with the seeded key hash on every key |
| Experiments.Hashes | src/experiments/run_experiments.cpp:134-137 | the hashes of the keys, one per key, in stream order |
| Experiments.Sketch | src/experiments/run_experiments.cpp:124-137 | the sketch of a key sequence is a register array of the right length for B |
| Experiments.SketchSnoc | src/experiments/run_experiments.cpp:135-136 | feeding one more key is one add of its hash |
| Experiments.ChunkedFeeding | src/experiments/run_experiments.cpp:128-138 | feeding [0, j) then [j, k) gives the registers of feeding [0, k) at once |
| Experiments.SketchSameKeys | src/experiments/run_experiments.cpp:134-144 | prefixes with the same keys have the same sketch and the same exact count |
| Experiments.FeedKey | src/experiments/run_experiments.cpp:135-136 | hashing key i and adding it turns the sketch of the first i keys into that of the first i + 1, and logs position i after the positions already logged |
| Experiments.Feed | src/experiments/run_experiments.cpp:134-137 | feeding keys [from, to) turns the sketch of the first `from` keys into that of the first `to`; the positions logged are from, from + 1, ..., to - 1, each once, in order |
| Experiments.TruthAtMost | src/experiments/run_experiments.cpp:140-144 | the recorded true count is at most the checkpoint length |
| Experiments.CheckpointSeriesGrows | src/experiments/run_experiments.cpp:128-148 | along the checkpoints, neither the true count nor the estimate decreases |
| Experiments.Checkpoint | src/experiments/run_experiments.cpp:130-145 | one checkpoint feeds exactly the new keys (the log grows by prev_k, ..., k - 1), so the sketch holds the whole prefix; it returns the prefix's exact count and the sketch's estimate |
| Experiments.FedBeforeBound | src/experiments/run_experiments.cpp:128-138 | prev_k never exceeds the next checkpoint length, and becomes it |
| Experiments.RecordedSnoc | src/experiments/run_experiments.cpp:147-148 | recording a checkpoint's two values extends the trial record by that checkpoint |
| Experiments.RecordCheckpoint | src/experiments/run_experiments.cpp:129-148 | one pass of the checkpoint loop keeps the sketch equal to the prefix's sketch, keeps the log equal to 0, ..., k - 1, and extends the record |
| Experiments.RunTrial | src/experiments/run_experiments.cpp:123-149 | for every checkpoint, the recorded count is the exact count of its prefix and the recorded estimate is that of a fresh sketch fed the prefix; the positions handed to the sketch are 0, 1, ... up to the last checkpoint's length, each once, in order |
| Experiments.RunTrialOf | src/experiments/run_experiments.cpp:120-149 | trial s uses the hash seed (seed + 1000003 (s + 1)) XOR 0x9e3779b97f4a7c15 and records and logs as above |
| Experiments.RunAllTrials | src/experiments/run_experiments.cpp:117-149 | one record per trial, each with that trial's own hash function |

## Left out

- The command-line loop of `parse` (src/experiments/run_experiments.cpp:34-49) is not modelled. It uses `stoull`/`stod`/`stoi` library parsing. `ClampArgs` starts from the parsed settings; only `starts_with` and the clamping are modelled.
- `to_mode` and the stream generation modes are not modelled: they only select the random generator.
- The random stream builders are not modelled: `rand_char`, `rand_string`, `dict_like_key`, `hot_key`, `build_stream_uniform`, `build_stream_mixed` and the generator constructor. They depend on `std::mt19937_64`, library distributions and `ostringstream`. Streams are arbitrary key sequences passed in as parameters, and `RunAllTrials` takes one stream per trial.
- Directory creation, the CSV writers and console output are not modelled: they are I/O. Only the relative-error rule of `write_run_csv` is modelled, as `RelError`.
- The aggregation after the trials is not modelled: means, standard deviation, `sqrt`, and the 1.042/sqrt(m) and 1.32/sqrt(m) bounds. These are floating-point statistics.
- Floating point: every `double` is an exact real. Rounding in `frac * n`, in `cur += step` and in `ldexp` is not modelled. A NaN step, which neither clamp catches, cannot arise.
- Hll.HyperLogLog.Estimate, Hll.Alpha: specified over exact reals. Nothing is said about accuracy, which is a statistical property.
- Hll.Rho: the builtin-clz branch is modelled through a bit-by-bit leading-zero count, `Clz`. The branch's `r > max_bits + 1` cap is kept.
- Hll.RhoPortable: the loop's final cap at `max_bits + 1` is omitted. The loop already stops with `r <= max_bits + 1`, so the cap never fires.
- Hll.HyperLogLog.constructor requires 4 <= B <= 18. The class itself does not check this; its only caller clamps B into that range first.
- Hll.Index: `x >> (32 - B)` is modelled as division by 2^(32-B). `1u << B` is modelled as 2^B, which fits in 32 bits for B <= 18.
- Experiments.RunAllTrials: the all_true/all_est tables are built as sequences of rows rather than filled in place in preallocated vectors.
- `HyperLogLog::regs()` returns a reference to the live vector. The model returns a snapshot of the registers, so aliasing through that reference is not captured.
- `std::unordered_set` internals such as bucketing and rehashing are not modelled. Exact.ExactF0 uses a Dafny `set`, and SvHash is stated separately.
