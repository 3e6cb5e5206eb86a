# Stethoscope beat detection, modelled in Dafny

This project models the beat-detection logic of an iOS stethoscope app
(`Managers/CalculatesResults.swift`). It covers three operations:

- `getPeaks` walks the history of per-tick maximum amplitudes. It counts the
  strict local maxima that also lie strictly above a parallel dynamic-average
  sequence.
- `getBPM` multiplies that count by 4.
- `findPeak` looks at the latest per-bin dB values. It accepts a beat when a
  bin in the band 2..8 (about 43–172 Hz) exceeds 125 and more than 0.5 s have
  passed since the last accepted beat. It then records the current time as
  the last accepted beat.

Files:

- `traps.dfy` (module `Traps`) holds the outcome type `Execution<T>`. A call
  either completes with a value or hits a Swift runtime trap: an inverted
  range `1..<count-2`, or an array subscript out of bounds. Each operation's
  error path is modelled this way, and no `requires` clause is used for it.
- `calculates_results.dfy` (module `CalculatesResults`) holds the rest.
  - `Peaks` specifies the peak scan and `GetPeaks` implements it with the
    source's `for` loop.
  - `GetBPM` is built on `GetPeaks`.
  - The class `PeakDetector` owns `latestTimeStamp`, which stands for the
    global `CONSTANTS.VARIABLES.LATEST_TIME_STAMP`. Its method `FindPeak`
    keeps the source's two-stage check: a candidate at 0.5 s, confirmed at
    0.4 s.
  - `FindPeakOutcome` and `Accepts` give the single rule that the two
    stages amount to.
  - `AcceptedTimes` replays `findPeak` over a sequence of ticks, which lets
    properties spanning several calls be stated. `Replay` calls
    `FindPeak` on one detector tick by tick and is proved to accept exactly
    those beats.

The amplitude, average and dB arrays come from a data-manager singleton
(`DataManager`), which is not part of this model. They are parameters here.
All values and timestamps are `real`.

Behaviour of the code worth knowing:

- **Peaks in a 7-sample history.** The loop `1..<count-2` never looks at
  index `count-2`, so `[1,5,2,8,3,9,1]` with zero averages gives 2 (BPM 8)
  although it has 3 interior peaks. See `SkippedPeakExample` and
  `LastInteriorIndexSkipped`.
- **Short histories.** getPeaks traps rather than returning 0 when there are
  fewer than 3 samples. With exactly 3 samples it returns 0.
- **Length of the averages.** The averages need an entry only at local
  maxima in `1..<count-2`. A shorter average sequence traps only when such a
  maximum lies beyond it.
- **Which delay rejects.** The 0.4 s confirmation in findPeak never rejects
  anything, so a candidate at 0.9 s after a beat at 0.6 s is rejected by the
  0.5 s gate.

## Model

| member | source | states |
|---|---|---|
| `CalculatesResults.GetPeaks` | Managers/CalculatesResults.swift:16-35 | the loop over `1..<count-2` returns `Peaks(mic, avg)`: it traps on an inverted range when count < 3, traps on `avg[i]` at the first local maximum with no average entry, and otherwise returns the number of peaks in 1..<count-2 |
| `CalculatesResults.PeaksTraps` | Managers/CalculatesResults.swift:26-29 | getPeaks traps on the range exactly when count < 3, and on a subscript exactly when some local maximum in 1..<count-2 has index >= avg.count |
| `CalculatesResults.PeakCountIsSetSize` | Managers/CalculatesResults.swift:26-31 | the running count over 1..<k equals the size of the set of indices in 1..<k that are strict local maxima above the average |
| `CalculatesResults.PeaksUnderPreconditions` | Managers/CalculatesResults.swift:26-31 | when count >= 3 and avg.count >= count-2, getPeaks completes and returns exactly the number of i in 1..<count-2 with mic[i-1] < mic[i], mic[i] > mic[i+1] and mic[i] > avg[i] |
| `CalculatesResults.NoAdjacentLocalMax` | Managers/CalculatesResults.swift:29 | two neighbouring samples are never both strict local maxima |
| `CalculatesResults.PlateauNotLocalMax` | Managers/CalculatesResults.swift:29 | the comparisons are strict: when mic[i] == mic[i+1], neither i nor i+1 is a local maximum, so plateaus are never counted |
| `CalculatesResults.PeakCountAtMostHalf` | Managers/CalculatesResults.swift:26-31 | at most k/2 of the indices 1..<k are counted |
| `CalculatesResults.PeaksBounded` | Managers/CalculatesResults.swift:26-34 | a completed scan returns at most (count-2)/2 peaks, and so at most count-3 |
| `CalculatesResults.NoPeakNoCount` | Managers/CalculatesResults.swift:29-31 | the count only grows at peak indices: with no peak in 1..<k it is 0 |
| `CalculatesResults.FlatHistoryHasNoPeaks` | Managers/CalculatesResults.swift:29 | the comparisons are strict, so a constant history (a plateau) gives 0 peaks whatever the averages |
| `CalculatesResults.NeverAboveAverageHasNoPeaks` | Managers/CalculatesResults.swift:29 | a history never strictly above its average gives 0 peaks (a sample equal to the average is not counted) |
| `CalculatesResults.ThreeSamplesNoPeaks` | Managers/CalculatesResults.swift:26 | with exactly 3 samples the loop body never runs and the result is 0 |
| `CalculatesResults.PeakCountReadsAverageBelow` | Managers/CalculatesResults.swift:26-29 | the count over 1..<k depends on the averages only at indices below k |
| `CalculatesResults.PeaksIgnoreAverageTail` | Managers/CalculatesResults.swift:26-29 | averages at index count-2 and beyond never change the result of getPeaks |
| `CalculatesResults.LastInteriorIndexSkipped` | Managers/CalculatesResults.swift:26 | getPeaks returns the number of interior peaks (1..<count-1), minus one when index count-2 is a peak |
| `CalculatesResults.SkippedPeakExample` | Managers/CalculatesResults.swift:26-34 | `[1,5,2,8,3,9,1]` with zero averages has 3 interior peaks, but getPeaks returns 2 |
| `CalculatesResults.GetBPM` | Managers/CalculatesResults.swift:38-40 | the BPM is 4 times the peak count, a multiple of 4 and at most 4·((count-2)/2); it traps exactly when getPeaks traps, with the same fault |
| `CalculatesResults.PeakDetector.constructor` | Managers/CalculatesResults.swift:56 | the detector starts from a given last-accepted timestamp |
| `CalculatesResults.PeakDetector.FindPeak` | Managers/CalculatesResults.swift:42-75 | traps when there are fewer than 9 bins, leaving the timestamp alone; otherwise returns true iff some bin 2..8 exceeds 125 and timer > latest + 0.5, so the 0.4 s confirmation never rejects; on true the timestamp becomes timer (more than 0.5 above the old value), on false it is unchanged |
| `CalculatesResults.OnlyBandBinsMatter` | Managers/CalculatesResults.swift:54-55 | two dB frames that agree on bins 2..8 give the same result |
| `CalculatesResults.AcceptedTimesSpaced` | Managers/CalculatesResults.swift:54-70 | over successive calls each accepted beat is more than 0.5 s after the previous one, and the first is more than 0.5 s after the initial timestamp |
| `CalculatesResults.AcceptedTimesRate` | Managers/CalculatesResults.swift:54-70 | n accepted beats end more than 0.5·n s after the initial timestamp, so at most 120 beats per minute are accepted |
| `CalculatesResults.AcceptedTimesStep` | Managers/CalculatesResults.swift:54-70 | one call in a replay: a trap ends it, an accepted beat is recorded and becomes the last accepted time, a rejected one leaves that time alone |
| `CalculatesResults.Replay` | Managers/CalculatesResults.swift:54-70 | successive calls of findPeak on one detector accept exactly the beats `AcceptedTimes` gives from its initial timestamp (stopping at a trap), so consecutive accepted beats are more than 0.5 s apart; afterwards the detector's timestamp is the last accepted beat, or its old value when none was accepted |
| `CalculatesResults.DetectionBandHz` | Managers/CalculatesResults.swift:78-105 | bin 2 is 43.06640625 Hz and bin 8 is 172.265625 Hz at a bin width of 22050/1024 Hz, so the scanned bins 2..8 all lie between 43 and 173 Hz |
| `CalculatesResults.DebounceExample` | Managers/CalculatesResults.swift:54-70 | loud frames at 0.6 s and 0.9 s after a beat at 0 s: the first is accepted and the second is rejected |

## Left out

- The AudioKit filter graph (booster, low-pass, band-pass, equalizers, FFT tap, test player) in `Managers/AudioManager.swift`. It is made of foreign library calls.
- `processFFTData`, which turns FFT output into dB values and bin frequencies. It is floating-point numerics (`sqrt`, `log10`) over AudioKit data. Its dB values enter this model as the `dbValues` parameter. The bin-to-frequency table at the end of `CalculatesResults.swift` survives only as the constants `BandFirstBin`, `BandLastBin` and `BinWidthHz`, and as `DetectionBandHz`, which gives the band's edges.
- Engine start and stop, the 0.05 s, 5 s and 20 s timers that drive the ticks, and the chart and result closures. These are I/O and scheduling. `AcceptedTimes` and `Replay` take the tick sequence as a value.
- `stopStethoscope`. It only empties arrays on the data-manager singleton.
- The `DataManager` singleton and `CONSTANTS.VARIABLES`, which are not part of this model. The arrays are parameters. The initial value of the latest timestamp is a constructor argument.
- The `print` call in `findPeak`. It has no behavioural effect.
- Floating-point behaviour. Timestamps accumulate `timer += 0.05` with rounding drift, and a NaN compares false. All values here are exact reals.
- GetBPM: does not model Swift `Int` overflow of `count * 4`. A peak count is bounded by the array length, so it cannot overflow in practice.
