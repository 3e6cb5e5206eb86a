/** The beat-detection logic of the stethoscope: a count-based peak scan over
    the history of per-tick maximum amplitudes (`getPeaks`), the BPM estimate
    derived from it (`getBPM`), and a threshold-and-debounce detector that
    accepts a beat from the latest per-bin dB values and remembers the time
    of the last accepted beat (`findPeak`).

    Amplitudes, averages, dB values and timestamps are `real`s; only their
    order and the addition of constants matter. The arrays that the source
    pulls from its data-manager singleton are parameters here. */
module CalculatesResults {
  import opened Traps

  /** Beats per minute per counted peak: the observation window is taken to
      be a quarter of a minute. */
  const BpmMultiplier: nat := 4

  /** A bin is loud when its dB value (offset by +200) exceeds this. */
  const PeakThreshold: real := 125.0

  /** Seconds after an accepted beat during which a candidate is ignored, so
      that the second heart sound (S2) is not counted as a beat. */
  const S2Delay: real := 0.5

  /** Seconds after an accepted beat during which a candidate is not
      confirmed. It is shorter than S2Delay, so it never rejects anything. */
  const ConfirmDelay: real := 0.4

  /** The detection band: bins 2 to 8, about 43 Hz to 172 Hz at a bin width
      of 22050 / 1024 Hz. */
  const BandFirstBin: nat := 2
  const BandLastBin: nat := 8
  const BinWidthHz: real := 22050.0 / 1024.0

  /** The centre frequency of an FFT bin, as in the bin table at the end of
      `CalculatesResults.swift`. */
  function BinFrequencyHz(bin: nat): real
  {
    bin as real * BinWidthHz
  }

  /** The band's edges in hertz: bin 2 is 43.06640625 Hz and bin 8 is
      172.265625 Hz, and every bin between lies in 43..173 Hz. */
  lemma DetectionBandHz()
    ensures BinFrequencyHz(BandFirstBin) == 43.06640625
    ensures BinFrequencyHz(BandLastBin) == 172.265625
    ensures forall i: nat :: BandFirstBin <= i <= BandLastBin ==>
      43.0 < BinFrequencyHz(i) < 173.0
  {
  }

  // ---------------------------------------------------------------------
  // getPeaks: the count-based peak scan
  // ---------------------------------------------------------------------

  /** Sample i is strictly above both of its neighbours. */
  predicate LocalMax(mic: seq<real>, i: int)
    requires 1 <= i < |mic| - 1
  {
    mic[i - 1] < mic[i] && mic[i] > mic[i + 1]
  }

  /** The scan over indices 1..<k reads `avg[i]` only where sample i is a
      local maximum (the conjunction short-circuits); this says every such
      read is in bounds. */
  predicate AverageCovers(mic: seq<real>, avg: seq<real>, k: int)
    requires k <= |mic| - 1
  {
    forall i :: 1 <= i < k && LocalMax(mic, i) ==> i < |avg|
  }

  /** Sample i is a counted peak: a strict local maximum strictly above the
      dynamic average at the same index. */
  predicate IsPeak(mic: seq<real>, avg: seq<real>, i: int)
    requires 1 <= i < |mic| - 1
    requires LocalMax(mic, i) ==> i < |avg|
  {
    LocalMax(mic, i) && mic[i] > avg[i]
  }

  /** The number of peaks at indices 1..<k. */
  function PeakCount(mic: seq<real>, avg: seq<real>, k: int): nat
    requires 1 <= k <= |mic| - 1
    requires AverageCovers(mic, avg, k)
    decreases k
  {
    if k == 1 then 0
    else PeakCount(mic, avg, k - 1) + (if IsPeak(mic, avg, k - 1) then 1 else 0)
  }

  /** The indices 1..<k that are peaks: the reference definition of what the
      scan counts. */
  function PeakIndices(mic: seq<real>, avg: seq<real>, k: int): set<int>
    requires 1 <= k <= |mic| - 1
    requires AverageCovers(mic, avg, k)
  {
    set i | 1 <= i < k && IsPeak(mic, avg, i)
  }

  /** What a call of getPeaks does: the range `1..<count-2` traps when
      count < 3; a local maximum at an index with no average entry traps on
      the subscript; otherwise the peaks at 1..<count-2 are counted. The
      last interior index, count-2, is outside the scanned range. */
  function Peaks(mic: seq<real>, avg: seq<real>): Execution<nat>
  {
    if |mic| < 3 then Trapped(InvertedRange)
    else if !AverageCovers(mic, avg, |mic| - 2) then Trapped(IndexOutOfRange)
    else Completed(PeakCount(mic, avg, |mic| - 2))
  }

  /** getPeaks: walks the history and counts the peaks. */
  method GetPeaks(mic: seq<real>, avg: seq<real>) returns (r: Execution<nat>)
    ensures r == Peaks(mic, avg)
  {
    if |mic| < 3 {
      return Trapped(InvertedRange);
    }
    var count := 0;
    for i := 1 to |mic| - 2
      invariant AverageCovers(mic, avg, i)
      invariant count == PeakCount(mic, avg, i)
    {
      if mic[i - 1] < mic[i] && mic[i] > mic[i + 1] {
        if i >= |avg| {
          assert LocalMax(mic, i);
          return Trapped(IndexOutOfRange);
        }
        if mic[i] > avg[i] {
          count := count + 1;
        }
      }
    }
    return Completed(count);
  }

  /** The two faults of getPeaks and exactly when each happens. */
  lemma PeaksTraps(mic: seq<real>, avg: seq<real>)
    ensures Peaks(mic, avg) == Trapped(InvertedRange) <==> |mic| < 3
    ensures Peaks(mic, avg) == Trapped(IndexOutOfRange) <==>
      |mic| >= 3 && exists i :: 1 <= i < |mic| - 2 && LocalMax(mic, i) && i >= |avg|
  {
  }

  /** The count equals the size of the set of peak indices. */
  lemma {:induction false} PeakCountIsSetSize(mic: seq<real>, avg: seq<real>, k: int)
    requires 1 <= k <= |mic| - 1
    requires AverageCovers(mic, avg, k)
    ensures PeakCount(mic, avg, k) == |PeakIndices(mic, avg, k)|
  {
    if k == 1 {
      assert PeakIndices(mic, avg, k) == {};
    } else {
      PeakCountIsSetSize(mic, avg, k - 1);
      if IsPeak(mic, avg, k - 1) {
        assert PeakIndices(mic, avg, k) == PeakIndices(mic, avg, k - 1) + {k - 1};
      } else {
        assert PeakIndices(mic, avg, k) == PeakIndices(mic, avg, k - 1);
      }
    }
  }

  /** With at least three samples and an average at every scanned index,
      getPeaks does not trap and returns exactly the number of indices i in
      1..<count-2 with mic[i-1] < mic[i] > mic[i+1] and mic[i] > avg[i]. */
  lemma PeaksUnderPreconditions(mic: seq<real>, avg: seq<real>)
    requires |mic| >= 3 && |avg| >= |mic| - 2
    ensures Peaks(mic, avg).Completed?
    ensures Peaks(mic, avg).value ==
      |set i | 1 <= i < |mic| - 2 && mic[i - 1] < mic[i] && mic[i] > mic[i + 1] && mic[i] > avg[i]|
  {
    var k := |mic| - 2;
    PeakCountIsSetSize(mic, avg, k);
    assert PeakIndices(mic, avg, k) ==
      set i | 1 <= i < k && mic[i - 1] < mic[i] && mic[i] > mic[i + 1] && mic[i] > avg[i];
  }

  /** Two neighbouring samples cannot both be strict local maxima. */
  lemma NoAdjacentLocalMax(mic: seq<real>, i: int)
    requires 1 <= i && i + 1 < |mic| - 1
    ensures !(LocalMax(mic, i) && LocalMax(mic, i + 1))
  {
  }

  /** A plateau is never a local maximum: two equal neighbouring samples
      are neither of them counted. */
  lemma PlateauNotLocalMax(mic: seq<real>, i: int)
    requires 1 <= i && i + 1 < |mic| - 1
    requires mic[i] == mic[i + 1]
    ensures !LocalMax(mic, i) && !LocalMax(mic, i + 1)
  {
  }

  /** Peaks are never adjacent, so at most half of 1..<k are peaks. */
  lemma {:induction false} PeakCountAtMostHalf(mic: seq<real>, avg: seq<real>, k: int)
    requires 1 <= k <= |mic| - 1
    requires AverageCovers(mic, avg, k)
    ensures PeakCount(mic, avg, k) <= k / 2
  {
    if k > 2 {
      if IsPeak(mic, avg, k - 1) {
        NoAdjacentLocalMax(mic, k - 2);
        PeakCountAtMostHalf(mic, avg, k - 2);
      } else {
        PeakCountAtMostHalf(mic, avg, k - 1);
      }
    }
  }

  /** A completed scan counts at most (count-2)/2 peaks, hence at most
      count-3 (the number of scanned indices). */
  lemma PeaksBounded(mic: seq<real>, avg: seq<real>)
    requires Peaks(mic, avg).Completed?
    ensures Peaks(mic, avg).value <= (|mic| - 2) / 2
    ensures Peaks(mic, avg).value <= |mic| - 3
  {
    PeakCountAtMostHalf(mic, avg, |mic| - 2);
  }

  /** Where no index is a peak, nothing is counted. */
  lemma {:induction false} NoPeakNoCount(mic: seq<real>, avg: seq<real>, k: int)
    requires 1 <= k <= |mic| - 1
    requires AverageCovers(mic, avg, k)
    requires forall i :: 1 <= i < k ==> !IsPeak(mic, avg, i)
    ensures PeakCount(mic, avg, k) == 0
  {
    if k > 1 {
      NoPeakNoCount(mic, avg, k - 1);
    }
  }

  /** The comparisons are strict: a constant history (one long plateau) has
      no peaks, whatever the averages. */
  lemma FlatHistoryHasNoPeaks(mic: seq<real>, avg: seq<real>)
    requires |mic| >= 3
    requires forall i :: 0 <= i < |mic| ==> mic[i] == mic[0]
    ensures Peaks(mic, avg) == Completed(0)
  {
    NoPeakNoCount(mic, avg, |mic| - 2);
  }

  /** A history that never rises strictly above its dynamic average has no
      peaks: a sample equal to its average is not counted. */
  lemma NeverAboveAverageHasNoPeaks(mic: seq<real>, avg: seq<real>)
    requires |mic| >= 3 && |avg| >= |mic| - 2
    requires forall i :: 1 <= i < |mic| - 2 ==> mic[i] <= avg[i]
    ensures Peaks(mic, avg) == Completed(0)
  {
    NoPeakNoCount(mic, avg, |mic| - 2);
  }

  /** With exactly three samples the scanned range is empty. */
  lemma ThreeSamplesNoPeaks(mic: seq<real>, avg: seq<real>)
    requires |mic| == 3
    ensures Peaks(mic, avg) == Completed(0)
  {
  }

  /** Averages at index count-2 and beyond are never read. */
  lemma {:induction false} PeakCountReadsAverageBelow(mic: seq<real>, avg: seq<real>, avg': seq<real>, k: int)
    requires 1 <= k <= |mic| - 1
    requires k <= |avg| && k <= |avg'|
    requires forall i :: 1 <= i < k ==> avg[i] == avg'[i]
    ensures PeakCount(mic, avg, k) == PeakCount(mic, avg', k)
  {
    if k > 1 {
      PeakCountReadsAverageBelow(mic, avg, avg', k - 1);
    }
  }

  /** getPeaks depends on the averages only at the scanned indices. */
  lemma PeaksIgnoreAverageTail(mic: seq<real>, avg: seq<real>, avg': seq<real>)
    requires |mic| >= 3
    requires |avg| >= |mic| - 2 && |avg'| >= |mic| - 2
    requires avg[..|mic| - 2] == avg'[..|mic| - 2]
    ensures Peaks(mic, avg) == Peaks(mic, avg')
  {
    var k := |mic| - 2;
    forall i | 1 <= i < k
      ensures avg[i] == avg'[i]
    {
      assert avg[i] == avg[..k][i] && avg'[i] == avg'[..k][i];
    }
    PeakCountReadsAverageBelow(mic, avg, avg', k);
  }

  /** The last interior index, count-2, is never examined: getPeaks returns
      the number of interior peaks minus one when that index is a peak. */
  lemma LastInteriorIndexSkipped(mic: seq<real>, avg: seq<real>)
    requires |mic| >= 3
    requires AverageCovers(mic, avg, |mic| - 1)
    ensures Peaks(mic, avg) == Completed(
      PeakCount(mic, avg, |mic| - 1) - (if IsPeak(mic, avg, |mic| - 2) then 1 else 0))
  {
  }

  /** On the history [1,5,2,8,3,9,1] with zero averages there are three
      interior peaks (indices 1, 3 and 5) but getPeaks counts two. */
  lemma SkippedPeakExample()
    ensures Peaks([1.0, 5.0, 2.0, 8.0, 3.0, 9.0, 1.0], [0.0, 0.0, 0.0, 0.0, 0.0, 0.0, 0.0]) == Completed(2)
    ensures PeakCount([1.0, 5.0, 2.0, 8.0, 3.0, 9.0, 1.0], [0.0, 0.0, 0.0, 0.0, 0.0, 0.0, 0.0], 6) == 3
  {
    var mic := [1.0, 5.0, 2.0, 8.0, 3.0, 9.0, 1.0];
    var avg := [0.0, 0.0, 0.0, 0.0, 0.0, 0.0, 0.0];
    assert IsPeak(mic, avg, 1) && !IsPeak(mic, avg, 2) && IsPeak(mic, avg, 3);
    assert !IsPeak(mic, avg, 4) && IsPeak(mic, avg, 5);
    LastInteriorIndexSkipped(mic, avg);
  }

  // ---------------------------------------------------------------------
  // getBPM: peaks times four
  // ---------------------------------------------------------------------

  /** getBPM: four beats per minute per counted peak; it traps exactly when
      getPeaks traps. */
  method GetBPM(mic: seq<real>, avg: seq<real>) returns (r: Execution<nat>)
    ensures r.Trapped? <==> Peaks(mic, avg).Trapped?
    ensures r.Trapped? ==> r.fault == Peaks(mic, avg).fault
    ensures r.Completed? ==> r.value == BpmMultiplier * Peaks(mic, avg).value
    ensures r.Completed? ==> r.value % BpmMultiplier == 0
    ensures r.Completed? ==> r.value <= BpmMultiplier * ((|mic| - 2) / 2)
  {
    var peaks := GetPeaks(mic, avg);
    match peaks
    case Trapped(f) =>
      r := Trapped(f);
    case Completed(n) =>
      PeaksBounded(mic, avg);
      r := Completed(n * BpmMultiplier);
  }

  // ---------------------------------------------------------------------
  // findPeak: threshold and debounce
  // ---------------------------------------------------------------------

  /** Some bin of the detection band is above the threshold. */
  predicate ExceedsInBand(db: seq<real>)
    requires |db| > BandLastBin
  {
    exists i :: BandFirstBin <= i <= BandLastBin && db[i] > PeakThreshold
  }

  /** The detector's single acceptance rule: a loud band bin, and more than
      S2Delay seconds since the last accepted beat. */
  predicate Accepts(db: seq<real>, latest: real, timer: real)
    requires |db| > BandLastBin
  {
    ExceedsInBand(db) && timer > latest + S2Delay
  }

  /** What a call of findPeak returns: it reads bins 2 to 8 unconditionally,
      so it traps when there are fewer than nine bins. */
  function FindPeakOutcome(db: seq<real>, latest: real, timer: real): Execution<bool>
  {
    if |db| <= BandLastBin then Trapped(IndexOutOfRange)
    else Completed(Accepts(db, latest, timer))
  }

  /** The detector state: the time of the last accepted beat. One instance
      stands for the process-wide latest-timestamp variable. */
  class PeakDetector {
    var latestTimeStamp: real

    constructor (start: real)
      ensures latestTimeStamp == start
    {
      latestTimeStamp := start;
    }

    /** findPeak: flags a candidate when a band bin is loud and S2Delay has
        passed, confirms it when ConfirmDelay has passed (which it always
        has), and then records the current time as the last accepted beat. */
    method FindPeak(dbValues: seq<real>, timer: real) returns (r: Execution<bool>)
      modifies this
      ensures r == FindPeakOutcome(dbValues, old(latestTimeStamp), timer)
      ensures latestTimeStamp == if r == Completed(true) then timer else old(latestTimeStamp)
      ensures r == Completed(true) ==> latestTimeStamp > old(latestTimeStamp) + S2Delay
      ensures latestTimeStamp >= old(latestTimeStamp)
    {
      var gotPeak := false;
      var validTime := false;
      for i := BandFirstBin to BandLastBin + 1
        invariant i == BandFirstBin || i <= |dbValues|
        invariant gotPeak <==> exists j :: BandFirstBin <= j < i && dbValues[j] > PeakThreshold
                                          && timer > latestTimeStamp + S2Delay
      {
        if i >= |dbValues| {
          return Trapped(IndexOutOfRange);
        }
        if dbValues[i] > PeakThreshold {
          if timer > latestTimeStamp + S2Delay {
            gotPeak := true;
          }
        }
      }
      if gotPeak {
        if timer > latestTimeStamp + ConfirmDelay {
          validTime := true;
          latestTimeStamp := timer;
        }
      }
      return Completed(validTime);
    }
  }

  /** Only bins 2 to 8 affect the detector. */
  lemma OnlyBandBinsMatter(db: seq<real>, db': seq<real>, latest: real, timer: real)
    requires |db| > BandLastBin && |db'| > BandLastBin
    requires forall i :: BandFirstBin <= i <= BandLastBin ==> db[i] == db'[i]
    ensures FindPeakOutcome(db, latest, timer) == FindPeakOutcome(db', latest, timer)
  {
  }

  /** One detector tick: the dB values of the latest frame and the time. */
  datatype Tick = Tick(dbValues: seq<real>, timer: real)

  /** The times of the beats accepted over successive calls of findPeak,
      starting from `latest` as the last accepted time; a trap ends the run. */
  function AcceptedTimes(ticks: seq<Tick>, latest: real): seq<real>
    decreases |ticks|
  {
    if ticks == [] then []
    else
      match FindPeakOutcome(ticks[0].dbValues, latest, ticks[0].timer)
      case Trapped(_) => []
      case Completed(accepted) =>
        if accepted then [ticks[0].timer] + AcceptedTimes(ticks[1..], ticks[0].timer)
        else AcceptedTimes(ticks[1..], latest)
  }

  /** Debounce: every accepted beat is more than S2Delay after the previous
      one (the first one after `latest`). */
  lemma {:induction false} AcceptedTimesSpaced(ticks: seq<Tick>, latest: real)
    ensures forall j :: 0 <= j < |AcceptedTimes(ticks, latest)| ==>
      AcceptedTimes(ticks, latest)[j] > latest + S2Delay
    ensures forall j :: 0 <= j < |AcceptedTimes(ticks, latest)| - 1 ==>
      AcceptedTimes(ticks, latest)[j] + S2Delay < AcceptedTimes(ticks, latest)[j + 1]
    decreases |ticks|
  {
    if ticks != [] {
      var t := ticks[0];
      match FindPeakOutcome(t.dbValues, latest, t.timer)
      case Trapped(_) =>
      case Completed(accepted) =>
        if accepted {
          AcceptedTimesSpaced(ticks[1..], t.timer);
          var rest := AcceptedTimes(ticks[1..], t.timer);
          assert AcceptedTimes(ticks, latest) == [t.timer] + rest;
        } else {
          AcceptedTimesSpaced(ticks[1..], latest);
        }
    }
  }

  /** Rate bound: n accepted beats take more than n * S2Delay seconds, so at
      most 120 beats are accepted per minute. */
  lemma {:induction false} AcceptedTimesRate(ticks: seq<Tick>, latest: real)
    ensures |AcceptedTimes(ticks, latest)| > 0 ==>
      AcceptedTimes(ticks, latest)[|AcceptedTimes(ticks, latest)| - 1]
        > latest + S2Delay * (|AcceptedTimes(ticks, latest)| as real)
    decreases |ticks|
  {
    if ticks != [] {
      var t := ticks[0];
      match FindPeakOutcome(t.dbValues, latest, t.timer)
      case Trapped(_) =>
      case Completed(accepted) =>
        if accepted {
          AcceptedTimesRate(ticks[1..], t.timer);
          var rest := AcceptedTimes(ticks[1..], t.timer);
          assert AcceptedTimes(ticks, latest) == [t.timer] + rest;
        } else {
          AcceptedTimesRate(ticks[1..], latest);
        }
    }
  }

  /** One step of the replay from tick i: the first tick either traps,
      accepts its time, or leaves the last accepted time alone. */
  lemma AcceptedTimesStep(ticks: seq<Tick>, i: int, latest: real)
    requires 0 <= i < |ticks|
    ensures FindPeakOutcome(ticks[i].dbValues, latest, ticks[i].timer).Trapped? ==>
      AcceptedTimes(ticks[i..], latest) == []
    ensures FindPeakOutcome(ticks[i].dbValues, latest, ticks[i].timer) == Completed(true) ==>
      AcceptedTimes(ticks[i..], latest) == [ticks[i].timer] + AcceptedTimes(ticks[i + 1..], ticks[i].timer)
    ensures FindPeakOutcome(ticks[i].dbValues, latest, ticks[i].timer) == Completed(false) ==>
      AcceptedTimes(ticks[i..], latest) == AcceptedTimes(ticks[i + 1..], latest)
  {
    assert ticks[i..][0] == ticks[i] && ticks[i..][1..] == ticks[i + 1..];
  }

  /** Successive calls of findPeak on one detector, one per tick, until the
      ticks run out or a call traps: the beats accepted are exactly
      `AcceptedTimes`, and so are spaced by more than S2Delay. */
  method Replay(d: PeakDetector, ticks: seq<Tick>) returns (accepted: seq<real>)
    modifies d
    ensures accepted == AcceptedTimes(ticks, old(d.latestTimeStamp))
    ensures forall j :: 0 <= j < |accepted| - 1 ==> accepted[j] + S2Delay < accepted[j + 1]
    ensures d.latestTimeStamp ==
      if |accepted| > 0 then accepted[|accepted| - 1] else old(d.latestTimeStamp)
  {
    ghost var start := d.latestTimeStamp;
    accepted := [];
    var i := 0;
    while i < |ticks|
      invariant 0 <= i <= |ticks|
      invariant accepted + AcceptedTimes(ticks[i..], d.latestTimeStamp) == AcceptedTimes(ticks, start)
      invariant d.latestTimeStamp == if |accepted| > 0 then accepted[|accepted| - 1] else start
    {
      ghost var latest := d.latestTimeStamp;
      AcceptedTimesStep(ticks, i, latest);
      var r := d.FindPeak(ticks[i].dbValues, ticks[i].timer);
      if r.Trapped? {
        break;
      }
      if r.value {
        ghost var rest := AcceptedTimes(ticks[i + 1..], ticks[i].timer);
        assert accepted + ([ticks[i].timer] + rest) == (accepted + [ticks[i].timer]) + rest;
        accepted := accepted + [ticks[i].timer];
      }
      i := i + 1;
    }
    if i == |ticks| {
      assert ticks[i..] == [];
    }
    AcceptedTimesSpaced(ticks, start);
  }

  /** Two loud frames at 0.6 s and 0.9 s after a beat at 0 s: the first is
      accepted, the second falls within S2Delay of it and is rejected. */
  lemma DebounceExample(loud: seq<real>)
    requires |loud| > BandLastBin && loud[BandFirstBin] > PeakThreshold
    ensures AcceptedTimes([Tick(loud, 0.6), Tick(loud, 0.9)], 0.0) == [0.6]
  {
    assert ExceedsInBand(loud);
    var ticks := [Tick(loud, 0.6), Tick(loud, 0.9)];
    var second: seq<Tick> := [Tick(loud, 0.9)];
    assert ticks[1..] == second;
    assert second[1..] == [];
    assert AcceptedTimes(second, 0.6) == [];
  }
}
