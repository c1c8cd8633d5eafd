# fastree baseline and charge model

A Dafny model of the per-waveform computation in `src/test.cc` of fastree, a
SiPM waveform reducer. Each input line is one waveform. For each waveform the
program does the following:

- It takes a rough baseline from the first `baseline_interval + 1` samples.
- It calls `calculateBaselineAndStdDev` with the detection threshold, which is
  that rough baseline plus the configured offset. The function works in three
  steps:
  - it finds every run of samples above the threshold inside the readout
    window;
  - it averages the samples outside those runs;
  - it computes their Bessel-corrected standard deviation.
- It writes three numbers to the `evt` tree:
  - a signal charge `sigQ`;
  - a background charge `bkgQ`;
  - the deviation `dev`.

The model is organised in four modules, one file each:

- `Numeric` (`numeric.dfy`) covers the C++ arithmetic the code relies on:
  - float-to-int conversion, which truncates toward zero (`TruncToInt`);
  - `int` division (`TruncDiv`);
  - `std::accumulate` with an `int` initial value. Its accumulator truncates
    after every addition (`IntAccumulate`). `WindowSum` is the exact sum it
    approximates.
- `Regions` (`regions.dfy`) covers the region scan, `ScanRegions`, with its
  backward and forward walks. Its result is characterised as the unique run
  decomposition of the window (`IsRunDecomposition`), defined as follows:
  - the regions are maximal runs of above-threshold samples;
  - they come in order and are separated;
  - they cover exactly the above-threshold samples.
- `Baseline` (`baseline.dfy`) covers the two skip passes, `MeanPass` and
  `VariancePass`, and the whole function `CalculateBaselineAndStdDev`. Each is
  proved equal to a region-free definition:
  - `Kept` lists the window indices whose sample is at or below the threshold;
  - `KeptSum` and `KeptSqDev` fold over those indices;
  - `BaselineAndStdDev` is the mean and standard deviation they give.
- `Charge` (`charge.dfy`) covers the loop body of `main` for one decoded
  waveform:
  - the rough baseline and the detection threshold;
  - the inclusive signal and background windows;
  - the baseline subtraction, with the literal `400` for the signal window and
    `baseline_interval` for the background window.

Samples are Dafny `real`s. `std::sqrt` is a parameter `sqrt: real -> real`,
so every statement about the deviation holds for any square-root function.
The code checks no bounds, so the bounds it relies on are preconditions:

- `readoutWindow <= |wave|`;
- `0 < baselineInterval`;
- both inclusive windows lie inside the waveform.

A negative `readoutWindow` is accepted. The loops then do not run and the
result is `(0, 0)`.

Three details of the code shape the results:

- **Whole runs are recorded.** The backward walk starts at the above-threshold
  sample `i` and stops at the first failing index, `start`. The forward walk
  stops at the first failing index, `end`. The recorded region is
  `[start + 1, end - 1]`, which is the whole maximal run. It is not only the
  run's interior. See `Regions.SingleRun`, and `Regions.PulseExample`: a pulse
  at indices 2..4 is recorded as `[2, 4]`.
- **Charges are summed with an `int` accumulator.** `std::accumulate(..., 0)`
  takes its accumulator type from the `int` start value, so every addition of
  a float sample is truncated back to `int`. `IntAccumulate` models this. Its result is within the window length
  of the exact sum, and it is exact when the samples are integral.
- **The subtraction scales are fixed in the code.** The signal window
  subtracts the mean `400` times. The background window sums
  `baseline_interval + 1` samples but subtracts the mean `baseline_interval`
  times. The rough baseline divides `baseline_interval + 1` samples by
  `baseline_interval`. These are modelled as written. `Charge.FlatPedestal`,
  `Charge.FlatPedestalCharges` and `Charge.WindowChargeShift` state the
  consequences: a flat pedestal at `b` gives `bkgQ == b`, not `0`.

## Model

| member | source | states |
|---|---|---|
| Numeric.TruncToInt | src/test.cc:127-128 | converting the float `acc + x` back to the `int` accumulator rounds toward zero: the result is within one unit of the value, on the side of zero |
| Numeric.TruncOfIntegral | src/test.cc:127-128 | an integral value survives the conversion to `int` unchanged |
| Numeric.TruncDiv | src/test.cc:127-128 | `int` division by `baselineinterval` truncates: the remainder has the dividend's sign and is smaller than the divisor in magnitude |
| Numeric.TruncDivBracket | src/test.cc:127-128 | for a positive divisor the truncated quotient brackets the real quotient: rounded down for a non-negative dividend, rounded up for a negative one |
| Numeric.TruncDivNear | src/test.cc:127-128 | the truncated quotient multiplied back by a positive divisor is less than one divisor away from the dividend, for either sign of the dividend |
| Numeric.TruncDivApprox | src/test.cc:127-128 | dividing an `int` within `b + 1` of an exact sum by `b` and multiplying back stays within `2 * b + 1` of that sum |
| Numeric.IntAccumulate | src/test.cc:127-134 | `std::accumulate` with an `int` start value gives `0` on an empty window and otherwise lies strictly within the window length of the exact sum |
| Numeric.IntAccumulateExact | src/test.cc:127-134 | when every sample in the window is integral the `int` accumulator equals the exact sum |
| Regions.WalkBack | src/test.cc:30 | the backward walk stops at `-1` or at a sample at or below the threshold, and every sample it passed is above it |
| Regions.WalkForward | src/test.cc:31 | the forward walk stops at `readoutWindow` or at a sample at or below the threshold, and every sample it passed is above it |
| Regions.ScanRegions | src/test.cc:25-39 | the recorded regions lie in the window, hold only above-threshold samples, are maximal, are ordered with at least one sample between two regions, and cover every above-threshold sample; none are recorded exactly when no window sample exceeds the threshold |
| Regions.ExactlyOneRegion | src/test.cc:25-39 | every above-threshold sample of the window lies in exactly one recorded region, and every other sample lies in none |
| Regions.RunsFromUnique | src/test.cc:25-39 | the run decomposition is unique, so the scan's output is determined by the waveform and the threshold alone |
| Regions.SingleRun | src/test.cc:27-34 | a window whose only above-threshold samples are `[s, e]` is recorded as exactly `[s, e]`, its first and last samples included |
| Regions.PulseExample | src/test.cc:27-34 | the pulse `0 0 50 50 50 0` at threshold 10 is recorded as `[2, 4]`, not `[3, 3]` |
| Baseline.KeptIsBelowSet | src/test.cc:44-52 | the indices the skip passes accumulate are exactly the window indices whose sample is at or below the threshold, each once, in increasing order |
| Baseline.KeptOverRun | src/test.cc:45-47 | jumping from a region's start to its end skips no sample at or below the threshold, so the count, the sum and the squared deviations are unchanged |
| Baseline.KeptSumOfNone | src/test.cc:54-56 | with no point accumulated the sum is `0`, so the skipped division leaves the baseline at `0` |
| Baseline.MeanPass | src/test.cc:42-52 | the mean pass visits exactly the kept indices: `num_points` is their number and the sum is their sum |
| Baseline.VariancePass | src/test.cc:59-67 | the variance pass visits the same indices and accumulates their squared deviations from the mean |
| Baseline.KeptSqDevNonNegative | src/test.cc:59-67 | the accumulated squared deviation is never negative |
| Baseline.SampleVariance | src/test.cc:69-74 | the Bessel-corrected variance is non-negative, and `0` when at most one point is kept |
| Baseline.BaselineAndStdDev | src/test.cc:41-77 | the mean is the kept sum over the kept count (`0` with nothing kept); the deviation is `sqrt` of the sample variance with more than one point kept, and `0` otherwise |
| Baseline.CalculateBaselineAndStdDev | src/test.cc:18-78 | the scan followed by the two skip passes returns exactly `BaselineAndStdDev`, whatever the regions were |
| Baseline.NoPulseBaseline | src/test.cc:25-56 | with no window sample above the threshold the mean is the plain average of the window; an empty or negative window gives `(0, 0)` |
| Baseline.BaselineReadsOnlyWindow | src/test.cc:25-65 | two waveforms that agree on the first `readoutWindow` samples give the same mean and deviation |
| Baseline.BaselineShift | src/test.cc:41-77 | moving every sample and the threshold by `c` keeps the same points, moves the mean by `c` (when any point is kept) and leaves the deviation unchanged |
| Charge.RoughBaseline | src/test.cc:127-128 | `baseline_tmp` times `baselineinterval` is within `2 * baselineinterval + 1` of the exact sum of the first `baselineinterval + 1` samples: it approximates that sum divided by `baselineinterval`, not the mean of those samples |
| Charge.DetectionThreshold | src/test.cc:127-130 | the threshold handed to `calculateBaselineAndStdDev` is a whole number, and its excess over the configured offset, times `baselineinterval`, is within `2 * baselineinterval + 1` of the first `baselineinterval + 1` samples' sum |
| Charge.WindowCharge | src/test.cc:131-134 | an inclusive window's `int` sum minus `mean * scale` is within the window length of the exact baseline-subtracted sum |
| Charge.ChargesFor | src/test.cc:131-135 | for a given mean and deviation, `sigQ` is near the exact signal-window sum minus `mean * 400`, `bkgQ` near the exact `baselineinterval + 1`-sample sum minus `mean * baselineinterval`, and `dev` is the deviation |
| Charge.WaveformCharges | src/test.cc:127-135 | the same bounds for the mean and deviation that `calculateBaselineAndStdDev` returns at the detection threshold |
| Charge.ProcessWaveform | src/test.cc:127-135 | the loop body, through the imperative scan and skip passes, produces `WaveformCharges` |
| Charge.RoughBaselineOfCounts | src/test.cc:127-128 | with integral samples the rough baseline is the exact `baselineinterval + 1`-sample sum divided by `baselineinterval`, truncated |
| Charge.WindowChargeOfCounts | src/test.cc:131-134 | with integral samples a charge is exactly the window sum minus `mean * scale` |
| Charge.WindowChargeShift | src/test.cc:131-134 | shifting integral samples and the mean by an integral `c` shifts a charge by `c * (samples - scale)`, so the subtraction cancels a pedestal only when the scale is the window's sample count |
| Charge.OverDivided | src/test.cc:127-128 | `b * (bi + 1)` divided by `bi` in `int` arithmetic is `b + b / bi`, never below `b` |
| Charge.FlatRoughBaseline | src/test.cc:127-128 | a flat pedestal at `b >= 0` has rough baseline `b + b / baselineinterval` |
| Charge.FlatBelowThreshold | src/test.cc:127-130 | with a non-negative offset no sample of a flat pedestal exceeds the detection threshold |
| Charge.FlatStats | src/test.cc:41-77 | a flat pedestal at or below the threshold has mean `b` and, with more than one point, deviation `sqrt(0)` |
| Charge.FlatPedestal | src/test.cc:127-135 | for a flat pedestal at `b >= 0`: rough baseline `b + b / baselineinterval`, mean `b`, deviation `sqrt(0)` |
| Charge.FlatPedestalCharges | src/test.cc:131-134 | for that pedestal `bkgQ == b` and `sigQ == b * (signalinterval + 1 - 400)` |
| Charge.PedestalCharge | src/test.cc:131-134 | a window of samples all equal to the integer `x`, with mean `x` and integer scale `k`, has charge `x * (samples - k)` |

## Left out

- Reading the configuration through `Options` and YAML (src/test.cc:82-88). The five settings are the fields of `Charge.Config`.
- Opening the input file and decoding each line with `getline` and `istringstream` (src/test.cc:90-126). The model starts from an already decoded `seq<real>`. Each line is processed from scratch because the vector is cleared after each line.
- ROOT output through `TFile`, `TTree`, `Branch`, `Fill` and `Write` (src/test.cc:108-115, 136, 140-146). `Charge.Charges` is the row that would be filled.
- `include/ExceptionV.h` is not part of this model. It only formats exception messages.
- IEEE-754 single-precision rounding. Samples, means and variances are exact reals. Truncation happens only where the code converts to `int`.
- `std::sqrt`. It is a parameter, so statements about `dev` hold for any square root.
- Numeric.IntAccumulate: does not model 32-bit `int` overflow, nor the undefined float-to-`int` conversion of an out-of-range value. The accumulator is unbounded.
- Charge.Admissible: bounds violations are excluded by precondition rather than modelled. The code checks none, and an out-of-range index is undefined behaviour in C++.
