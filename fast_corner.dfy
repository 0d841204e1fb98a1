/**
 * The FAST-12 corner detector that GenerateImplFastCorner emits, in its 8-bit
 * instantiation (ImplFastCorner12_U8): samples are read with `& 0xFF`, all
 * sums are Java ints (modelled unbounded).
 *
 * For each pixel at least `radius` (3) from every edge, the detector compares
 * the samples on a circle around it with the centre.  A quick test on four
 * compass samples decides whether the pixel can be a dark (-1) or bright (+1)
 * corner; a segment test then looks for a run of `minCont` qualifying circle
 * samples.  Corners get a signed intensity and are appended to a queue; every
 * other examined pixel gets intensity 0.
 */
module FastCorner {
  import opened Images

  // ---------------------------------------------------------------------------
  // The segment test over the circle's differences from the centre

  /** A sample with difference `v` from the centre continues an arc of polarity `action`. */
  predicate Qualifies(v: int, action: int, tol: int) {
    if action == -1 then v < -tol else v > tol
  }

  /** Length of the run of qualifying samples starting at `i`. */
  function Run(d: seq<int>, action: int, tol: int, i: nat): (n: nat)
    ensures n == 0 || i + n <= |d|
    ensures forall k :: i <= k < i + n ==> Qualifies(d[k], action, tol)
    ensures i + n < |d| ==> !Qualifies(d[i + n], action, tol)
    decreases |d| - i
  {
    if i < |d| && Qualifies(d[i], action, tol) then 1 + Run(d, action, tol, i + 1) else 0
  }

  /** Length of the run of qualifying samples that ends just before `j`. */
  function RunBack(d: seq<int>, action: int, tol: int, j: int): (n: nat)
    requires j <= |d|
    ensures n == 0 || n <= j
    ensures forall k :: j - n <= k < j ==> Qualifies(d[k], action, tol)
    ensures 0 <= j - n - 1 ==> !Qualifies(d[j - n - 1], action, tol)
    decreases j
  {
    if 0 < j && Qualifies(d[j - 1], action, tol) then 1 + RunBack(d, action, tol, j - 1) else 0
  }

  /** A run is exactly as long as the qualifying samples that follow `i`. */
  lemma {:induction false} RunExact(d: seq<int>, action: int, tol: int, i: nat, j: nat)
    requires i <= j <= |d|
    requires forall k :: i <= k < j ==> Qualifies(d[k], action, tol)
    requires j < |d| ==> !Qualifies(d[j], action, tol)
    ensures Run(d, action, tol, i) == j - i
    decreases j - i
  {
    if i < j {
      RunExact(d, action, tol, i + 1, j);
    }
  }

  /** The first qualifying sample at or after `i`, or |d| when there is none. */
  function First(d: seq<int>, action: int, tol: int, i: nat): (s: nat)
    requires i <= |d|
    ensures i <= s <= |d|
    ensures s < |d| ==> Qualifies(d[s], action, tol)
    ensures forall k :: i <= k < s ==> !Qualifies(d[k], action, tol)
    decreases |d| - i
  {
    if i == |d| then |d| else if Qualifies(d[i], action, tol) then i else First(d, action, tol, i + 1)
  }

  /** d[i] + ... + d[j - 1]. */
  function Sum(d: seq<int>, i: int, j: int): int
    requires 0 <= i <= j <= |d|
    decreases j - i
  {
    if i == j then 0 else Sum(d, i, j - 1) + d[j - 1]
  }

  lemma {:induction false} SumPrepend(d: seq<int>, i: int, j: int)
    requires 0 <= i < j <= |d|
    ensures Sum(d, i, j) == d[i] + Sum(d, i + 1, j)
    decreases j - i
  {
    if i + 1 < j {
      SumPrepend(d, i, j - 1);
    }
  }

  datatype SegmentResult = SegmentResult(isCorner: bool, totalDiff: int)

  /**
   * The segment test as the source runs it, once it has decided whether to
   * take the wrap-around branch.  In that branch the run from sample 0 and the
   * run ending at the last sample are joined; otherwise only the first run of
   * qualifying samples is measured, and its first sample is not added to the
   * total.
   */
  function SegmentBranch(d: seq<int>, action: int, tol: int, minCont: int, wrap: bool): SegmentResult
    requires |d| > 0
  {
    var n := |d|;
    if wrap then
      var front := 1 + Run(d, action, tol, 1);
      if front < minCont then
        var back := RunBack(d, action, tol, n);
        SegmentResult(back + front >= minCont, Sum(d, 0, front) + Sum(d, n - back, n))
      else
        SegmentResult(true, Sum(d, 0, front))
    else
      var start := First(d, action, tol, 0);
      if start == n then
        SegmentResult(1 >= minCont, 0)
      else
        var stop := start + 1 + Run(d, action, tol, start + 1);
        SegmentResult(stop - start >= minCont, Sum(d, start + 1, stop))
  }

  /** The first-sample test as written: a bright sample 0 passes for either polarity. */
  predicate FirstTestAsWritten(v: int, action: int, tol: int) {
    (action == -1 && v < -tol) || v > tol
  }

  /** The segment test with the first-sample test as written. */
  function SegmentAsWritten(d: seq<int>, action: int, tol: int, minCont: int): SegmentResult
    requires |d| > 0
  {
    SegmentBranch(d, action, tol, minCont, FirstTestAsWritten(d[0], action, tol))
  }

  /** The segment test with sample 0 tested for the polarity being searched. */
  function Segment(d: seq<int>, action: int, tol: int, minCont: int): SegmentResult
    requires |d| > 0
  {
    SegmentBranch(d, action, tol, minCont, Qualifies(d[0], action, tol))
  }

  /** Sample 0 is not a bright sample met during a search for a dark arc. */
  predicate FirstTestsAgree(v: int, action: int, tol: int) {
    !(action == -1 && v > tol)
  }

  /**
   * The two first-sample tests differ only on a bright sample 0 during a dark
   * search; elsewhere the segment test as written is the corrected one.
   */
  lemma AsWrittenAgrees(d: seq<int>, action: int, tol: int, minCont: int)
    requires |d| > 0 && FirstTestsAgree(d[0], action, tol)
    ensures SegmentAsWritten(d, action, tol, minCont) == Segment(d, action, tol, minCont)
  {
    assert FirstTestAsWritten(d[0], action, tol) == Qualifies(d[0], action, tol);
  }

  /** The sample `j` places after `s`, going round the circle, qualifies. */
  predicate QualifiesAfter(d: seq<int>, action: int, tol: int, s: int, j: int)
    requires |d| > 0
  {
    Qualifies(d[(s + j) % |d|], action, tol)
  }

  /** `n` consecutive samples from `s`, going round the circle, all qualify. */
  predicate Arc(d: seq<int>, action: int, tol: int, s: int, n: int)
    requires |d| > 0
  {
    forall j :: 0 <= j < n ==> QualifiesAfter(d, action, tol, s, j)
  }

  /**
   * Soundness: a corner found by the (corrected) segment test has an arc of
   * `minCont` qualifying samples.  The quick test guarantees some sample
   * qualifies; without one, a `minCont` of 1 or less would still report a
   * corner.
   */
  lemma SegmentSound(d: seq<int>, action: int, tol: int, minCont: int)
    requires |d| > 0
    requires exists k :: 0 <= k < |d| && Qualifies(d[k], action, tol)
    requires Segment(d, action, tol, minCont).isCorner
    ensures exists s :: 0 <= s < |d| && Arc(d, action, tol, s, minCont)
  {
    if Qualifies(d[0], action, tol) {
      WrapSoundAny(d, action, tol, minCont);
    } else {
      FirstRunSound(d, action, tol, minCont);
    }
  }

  /** An arc of `m` samples from `s` that takes in sample 0. */
  predicate CoversZero(n: int, s: int, m: int) {
    0 <= s < n && (s == 0 || s + m > n)
  }

  /**
   * When sample 0 qualifies, the wrap-around branch is exact: it reports a
   * corner iff some arc of `minCont` qualifying samples takes in sample 0.
   */
  lemma WrapExact(d: seq<int>, action: int, tol: int, minCont: int)
    requires |d| > 0 && Qualifies(d[0], action, tol) && 0 < minCont <= |d|
    ensures Segment(d, action, tol, minCont).isCorner <==>
            exists s :: CoversZero(|d|, s, minCont) && Arc(d, action, tol, s, minCont)
  {
    if Segment(d, action, tol, minCont).isCorner {
      WrapSound(d, action, tol, minCont);
    }
    if exists s :: CoversZero(|d|, s, minCont) && Arc(d, action, tol, s, minCont) {
      var s :| CoversZero(|d|, s, minCont) && Arc(d, action, tol, s, minCont);
      WrapComplete(d, action, tol, minCont, s);
    }
  }

  lemma WrapSound(d: seq<int>, action: int, tol: int, minCont: int)
    requires |d| > 0 && Qualifies(d[0], action, tol) && 0 < minCont <= |d|
    requires SegmentBranch(d, action, tol, minCont, true).isCorner
    ensures exists s :: CoversZero(|d|, s, minCont) && Arc(d, action, tol, s, minCont)
  {
    var n := |d|;
    var front := 1 + Run(d, action, tol, 1);
    assert front == Run(d, action, tol, 0);
    if front >= minCont {
      assert Arc(d, action, tol, 0, minCont) by {
        forall j | 0 <= j < minCont ensures QualifiesAfter(d, action, tol, 0, j) {
          ModSmall(0 + j, n);
        }
      }
      assert CoversZero(n, 0, minCont);
    } else {
      var back := RunBack(d, action, tol, n);
      var s := n - (minCont - front);
      assert Arc(d, action, tol, s, minCont) by {
        forall j | 0 <= j < minCont ensures QualifiesAfter(d, action, tol, s, j) {
          if s + j < n {
            ModSmall(s + j, n);
          } else {
            ModWrap(s + j, n);
          }
        }
      }
      assert CoversZero(n, s, minCont);
    }
  }

  lemma WrapComplete(d: seq<int>, action: int, tol: int, minCont: int, s: int)
    requires |d| > 0 && 0 < minCont <= |d|
    requires CoversZero(|d|, s, minCont) && Arc(d, action, tol, s, minCont)
    ensures Qualifies(d[0], action, tol)
    ensures SegmentBranch(d, action, tol, minCont, true).isCorner
  {
    var n := |d|;
    if s == 0 {
      forall k | 0 <= k < minCont ensures Qualifies(d[k], action, tol) {
        assert QualifiesAfter(d, action, tol, 0, k);
        ModSmall(0 + k, n);
      }
      RunAtLeast(d, action, tol, 0, minCont);
    } else {
      var m0 := s + minCont - n;
      forall k | 0 <= k < m0 ensures Qualifies(d[k], action, tol) {
        assert QualifiesAfter(d, action, tol, s, k + n - s);
        ModWrap(s + (k + n - s), n);
      }
      forall k | s <= k < n ensures Qualifies(d[k], action, tol) {
        assert QualifiesAfter(d, action, tol, s, k - s);
        ModSmall(s + (k - s), n);
      }
      RunAtLeast(d, action, tol, 0, m0);
      RunBackAtLeast(d, action, tol, n, n - s);
    }
    assert 1 + Run(d, action, tol, 1) == Run(d, action, tol, 0);
  }

  /** A block of `m` qualifying samples from `i` makes the run from `i` at least `m` long. */
  lemma {:induction false} RunAtLeast(d: seq<int>, action: int, tol: int, i: nat, m: nat)
    requires i + m <= |d|
    requires forall k :: i <= k < i + m ==> Qualifies(d[k], action, tol)
    ensures Run(d, action, tol, i) >= m
    decreases m
  {
    if m > 0 {
      RunAtLeast(d, action, tol, i + 1, m - 1);
    }
  }

  /** A block of `m` qualifying samples ending before `j` makes the run back from `j` at least `m` long. */
  lemma {:induction false} RunBackAtLeast(d: seq<int>, action: int, tol: int, j: int, m: nat)
    requires m <= j <= |d|
    requires forall k :: j - m <= k < j ==> Qualifies(d[k], action, tol)
    ensures RunBack(d, action, tol, j) >= m
    decreases m
  {
    if m > 0 {
      RunBackAtLeast(d, action, tol, j - 1, m - 1);
    }
  }

  lemma ModWrap(a: int, n: int)
    requires 0 < n <= a < 2 * n
    ensures a % n == a - n
  {
  }

  /** Soundness of the wrap-around branch for any `minCont`, including one beyond the circle. */
  lemma WrapSoundAny(d: seq<int>, action: int, tol: int, minCont: int)
    requires |d| > 0 && Qualifies(d[0], action, tol)
    requires SegmentBranch(d, action, tol, minCont, true).isCorner
    ensures exists s :: 0 <= s < |d| && Arc(d, action, tol, s, minCont)
  {
    var n := |d|;
    var front := 1 + Run(d, action, tol, 1);
    assert front == Run(d, action, tol, 0);
    if minCont <= 0 {
      assert Arc(d, action, tol, 0, minCont);
    } else if minCont <= n {
      WrapSound(d, action, tol, minCont);
    } else {
      assert front == n;
      AllQualify(d, action, tol);
      assert Arc(d, action, tol, 0, minCont) by {
        forall j | 0 <= j < minCont ensures QualifiesAfter(d, action, tol, 0, j) {
          assert d[(0 + j) % n] == d[j % n];
        }
      }
    }
  }

  lemma FirstRunSound(d: seq<int>, action: int, tol: int, minCont: int)
    requires |d| > 0 && exists k :: 0 <= k < |d| && Qualifies(d[k], action, tol)
    requires SegmentBranch(d, action, tol, minCont, false).isCorner
    ensures exists s :: 0 <= s < |d| && Arc(d, action, tol, s, minCont)
  {
    var n := |d|;
    var start := First(d, action, tol, 0);
    assert start < n;
    var stop := start + 1 + Run(d, action, tol, start + 1);
    assert Arc(d, action, tol, start, minCont) by {
      forall j | 0 <= j < minCont ensures QualifiesAfter(d, action, tol, start, j) {
        ModSmall(start + j, n);
      }
    }
  }

  lemma ModSmall(a: int, n: int)
    requires 0 <= a < n
    ensures a % n == a
  {
  }

  /** When the run from 0 covers the circle, every sample qualifies. */
  lemma AllQualify(d: seq<int>, action: int, tol: int)
    requires |d| > 0 && Run(d, action, tol, 0) == |d|
    ensures forall j :: 0 <= j ==> Qualifies(d[j % |d|], action, tol)
  {
  }

  /**
   * Index arithmetic of the wrap-around arc: it starts `back` samples before
   * the end and continues into the run from 0.
   */
  lemma WrapIndex(n: int, back: int, front: int, j: int)
    requires 0 < n && 0 <= back && 0 <= front && back + front <= n && 0 <= j < back + front
    ensures var s := if back == 0 then 0 else n - back;
            if j < back then (s + j) % n == n - back + j else (s + j) % n == j - back
  {
  }

  /** Every summed sample qualifies, so the total has the sign of the polarity. */
  lemma {:induction false} SumSign(d: seq<int>, action: int, tol: int, i: int, j: int)
    requires 0 <= i <= j <= |d| && 0 <= tol
    requires forall k :: i <= k < j ==> Qualifies(d[k], action, tol)
    ensures action == -1 ==> Sum(d, i, j) <= 0
    ensures action != -1 ==> Sum(d, i, j) >= 0
    decreases j - i
  {
    if i < j {
      SumSign(d, action, tol, i, j - 1);
    }
  }

  /**
   * The total of the corrected segment test has the sign of the polarity, so
   * the intensity a corner receives (the total, negated for dark corners) is
   * never negative.
   */
  lemma SegmentTotalSign(d: seq<int>, action: int, tol: int, minCont: int)
    requires |d| > 0 && 0 <= tol
    ensures action == -1 ==> Segment(d, action, tol, minCont).totalDiff <= 0
    ensures action != -1 ==> Segment(d, action, tol, minCont).totalDiff >= 0
  {
    var n := |d|;
    if Qualifies(d[0], action, tol) {
      var front := 1 + Run(d, action, tol, 1);
      assert front == Run(d, action, tol, 0);
      SumSign(d, action, tol, 0, front);
      var back := RunBack(d, action, tol, n);
      SumSign(d, action, tol, n - back, n);
    } else {
      var start := First(d, action, tol, 0);
      if start < n {
        var stop := start + 1 + Run(d, action, tol, start + 1);
        SumSign(d, action, tol, start + 1, stop);
      }
    }
  }

  /**
   * Soundness of the segment test as written, away from a bright sample 0
   * during a dark search.
   */
  lemma AsWrittenSound(d: seq<int>, action: int, tol: int, minCont: int)
    requires |d| > 0 && FirstTestsAgree(d[0], action, tol)
    requires exists k :: 0 <= k < |d| && Qualifies(d[k], action, tol)
    requires SegmentAsWritten(d, action, tol, minCont).isCorner
    ensures exists s :: 0 <= s < |d| && Arc(d, action, tol, s, minCont)
  {
    AsWrittenAgrees(d, action, tol, minCont);
    SegmentSound(d, action, tol, minCont);
  }

  // ---------------------------------------------------------------------------
  // Two circles that show how the segment test behaves

  /**
   * Differences from a centre of 100 on a 16-sample circle: sample 0 is bright
   * (200), samples 1-8 and 12-15 dark (0), samples 9-11 equal to the centre.
   */
  function BrightFirstSample(): (d: seq<int>)
    ensures |d| == 16
  {
    [100, -100, -100, -100, -100, -100, -100, -100, -100, 0, 0, 0, -100, -100, -100, -100]
  }

  /**
   * With the first-sample test as written, the bright sample 0 opens a dark
   * arc: the circle above is reported as a dark corner of intensity 1100,
   * although no 12 consecutive samples are dark.  The corrected test rejects it.
   */
  lemma BrightFirstSampleCounterexample()
    ensures QuickAction(100, 200, 0, 0, 0, 10) == -1
    ensures SegmentAsWritten(BrightFirstSample(), -1, 10, 12) == SegmentResult(true, -1100)
    ensures !Segment(BrightFirstSample(), -1, 10, 12).isCorner
    ensures forall s :: 0 <= s < 16 ==> !Arc(BrightFirstSample(), -1, 10, s, 12)
  {
    BrightFirstSampleAsWritten();
    BrightFirstSampleRejected();
    BrightFirstSampleNoArc();
  }

  lemma BrightFirstSampleRejected()
    ensures !Segment(BrightFirstSample(), -1, 10, 12).isCorner
  {
    assert First(BrightFirstSample(), -1, 10, 0) == 1;
    RunExact(BrightFirstSample(), -1, 10, 2, 9);
  }

  lemma BrightFirstSampleAsWritten()
    ensures SegmentAsWritten(BrightFirstSample(), -1, 10, 12) == SegmentResult(true, -1100)
  {
    BrightFirstSampleRun();
    BrightFirstSampleRunBack();
    BrightFirstSampleSums();
  }

  lemma BrightFirstSampleRun()
    ensures Run(BrightFirstSample(), -1, 10, 1) == 8
  {
    RunExact(BrightFirstSample(), -1, 10, 1, 9);
  }

  lemma BrightFirstSampleRunBack()
    ensures RunBack(BrightFirstSample(), -1, 10, 16) == 4
  {
    assert RunBack(BrightFirstSample(), -1, 10, 12) == 0;
  }

  lemma BrightFirstSampleNoArc()
    ensures forall s :: 0 <= s < 16 ==> !Arc(BrightFirstSample(), -1, 10, s, 12)
  {
    forall s | 0 <= s < 16 ensures !Arc(BrightFirstSample(), -1, 10, s, 12) {
      var j := if s == 0 || s == 10 || s == 11 then 0 else if s <= 9 then 9 - s else 16 - s;
      assert !QualifiesAfter(BrightFirstSample(), -1, 10, s, j);
    }
  }

  lemma BrightFirstSampleSums()
    ensures Sum(BrightFirstSample(), 0, 9) == -700
    ensures Sum(BrightFirstSample(), 12, 16) == -400
  {
  }

  /**
   * Differences from a centre of 100: sample 0, 2 and 15 equal the centre and
   * every other sample is dark (0).  Samples 3-14 are a dark arc of 12, but
   * sample 0 does not qualify, so only the first run (sample 1 alone) is
   * measured and the pixel is not reported.
   */
  function LateArc(): (d: seq<int>)
    ensures |d| == 16
  {
    [0, -100, 0, -100, -100, -100, -100, -100, -100, -100, -100, -100, -100, -100, -100, 0]
  }

  /**
   * Differences from a centre of 100: sample 0 is 255, samples 1-12 are 89 and
   * samples 13-15 equal the centre.  The quick test finds a dark candidate; the
   * bright sample 0 opens the arc as written, and its +155 outweighs the twelve
   * darker samples, so the dark corner is reported with intensity -23.
   */
  function BrightOpener(): (d: seq<int>)
    ensures |d| == 16
  {
    [155, -11, -11, -11, -11, -11, -11, -11, -11, -11, -11, -11, -11, 0, 0, 0]
  }

  lemma NegativeIntensityAsWritten()
    ensures QuickAction(100, 255, 89, 89, 89, 10) == -1
    ensures SegmentAsWritten(BrightOpener(), -1, 10, 12) == SegmentResult(true, 23)
    ensures Strength(-1, SegmentAsWritten(BrightOpener(), -1, 10, 12)) == -23.0
  {
    RunExact(BrightOpener(), -1, 10, 1, 13);
    BrightOpenerSum();
  }

  lemma BrightOpenerSum()
    ensures Sum(BrightOpener(), 0, 13) == 23
  {
    // the sum unfolds a few samples at a time
    assert Sum(BrightOpener(), 0, 4) == 122;
    assert Sum(BrightOpener(), 0, 8) == 78;
    assert Sum(BrightOpener(), 0, 12) == 34;
  }

  lemma LateArcMissed()
    ensures QuickAction(100, 100, 0, 0, 0, 10) == -1
    ensures Arc(LateArc(), -1, 10, 3, 12)
    ensures !Segment(LateArc(), -1, 10, 12).isCorner
  {
    forall j | 0 <= j < 12 ensures QualifiesAfter(LateArc(), -1, 10, 3, j) {
      ModSmall(3 + j, 16);
    }
  }

  /**
   * Differences from a centre of 100: samples 1 and 14 equal the centre and
   * every other sample is dark (0).  Sample 0 qualifies, so the wrap-around
   * branch measures only the run through sample 0 (samples 15 and 0); the dark
   * arc of samples 2-13 is missed here too.
   */
  function WrapArc(): (d: seq<int>)
    ensures |d| == 16
  {
    [-100, 0, -100, -100, -100, -100, -100, -100, -100, -100, -100, -100, -100, -100, 0, -100]
  }

  lemma WrapArcMissed()
    ensures QuickAction(100, 0, 0, 0, 0, 10) == -1
    ensures Arc(WrapArc(), -1, 10, 2, 12)
    ensures !Segment(WrapArc(), -1, 10, 12).isCorner
    ensures !SegmentAsWritten(WrapArc(), -1, 10, 12).isCorner
  {
    WrapArcIsArc();
    WrapArcRejected();
    AsWrittenAgrees(WrapArc(), -1, 10, 12);
  }

  lemma WrapArcIsArc()
    ensures Arc(WrapArc(), -1, 10, 2, 12)
  {
    forall j | 0 <= j < 12 ensures QualifiesAfter(WrapArc(), -1, 10, 2, j) {
      ModSmall(2 + j, 16);
    }
  }

  lemma WrapArcRejected()
    ensures !Segment(WrapArc(), -1, 10, 12).isCorner
  {
    RunExact(WrapArc(), -1, 10, 1, 1);
    assert RunBack(WrapArc(), -1, 10, 15) == 0;
  }

  // ---------------------------------------------------------------------------
  // The quick test

  /** How many of the four values are below `t`, and how many above. */
  function CountBelow(t: int, a: int, b: int, c: int, d: int): int {
    (if a < t then 1 else 0) + (if b < t then 1 else 0) + (if c < t then 1 else 0) + (if d < t then 1 else 0)
  }

  function CountAbove(t: int, a: int, b: int, c: int, d: int): int {
    (if a > t then 1 else 0) + (if b > t then 1 else 0) + (if c > t then 1 else 0) + (if d > t then 1 else 0)
  }

  /**
   * The quick test on the samples a, b, c, d at circle positions 0, 4, 8 and
   * 12: -1 (possibly a dark corner), 1 (possibly bright) or 0 (not a corner).
   */
  function QuickAction(center: int, a: int, b: int, c: int, d: int, tol: int): (action: int)
    ensures action == -1 || action == 0 || action == 1
    ensures action == -1 <==> CountBelow(center - tol, a, b, c, d) >= 3
    ensures action == 1 ==> CountAbove(center + tol, a, b, c, d) >= 3
    ensures 0 <= tol && CountAbove(center + tol, a, b, c, d) >= 3 ==> action == 1
  {
    var lo := center - tol;
    if a < lo && c < lo then
      if b < lo || d < lo then -1 else 0
    else if b < lo && d < lo then
      if a < lo || c < lo then -1 else 0
    else
      var hi := center + tol;
      if a > hi && c > hi && (d > hi || b > hi) then 1
      else if b > hi && d > hi && (a > hi || c > hi) then 1
      else 0
  }

  // ---------------------------------------------------------------------------
  // The segment test as the detector runs it, on the flat sample store

  /** Every circle sample of the pixel at flat index `index` lies in the store. */
  predicate CircleInStore(data: seq<Int8>, index: int, offsets: seq<int>) {
    forall i :: 0 <= i < |offsets| ==> 0 <= index + offsets[i] < |data|
  }

  /** Differences of the circle samples from the centre value. */
  function Diffs(data: seq<Int8>, index: int, offsets: seq<int>, center: int): (d: seq<int>)
    requires CircleInStore(data, index, offsets)
    ensures |d| == |offsets|
  {
    seq(|offsets|, i requires 0 <= i < |offsets| => Unsigned(data[index + offsets[i]]) - center)
  }

  /**
   * Forward scan from sample `from`: stops at the first sample that does not
   * qualify (or the end of the circle) and adds up the samples it passes.
   */
  method ScanForward(data: seq<Int8>, index: int, offsets: seq<int>, center: int, action: int, tol: int, from: int)
    returns (i: int, total: int)
    requires CircleInStore(data, index, offsets) && 0 <= from
    ensures i == from + Run(Diffs(data, index, offsets, center), action, tol, from)
    ensures from <= |offsets| ==> i <= |offsets| && total == Sum(Diffs(data, index, offsets, center), from, i)
    ensures from > |offsets| ==> total == 0
  {
    ghost var d := Diffs(data, index, offsets, center);
    total := 0;
    i := from;
    while i < |offsets|
      invariant from <= i && (from <= |offsets| ==> i <= |offsets|)
      invariant i - from + Run(d, action, tol, i) == Run(d, action, tol, from)
      invariant from <= |offsets| ==> total == Sum(d, from, i)
      invariant from > |offsets| ==> total == 0
    {
      var val := Unsigned(data[index + offsets[i]]) - center;
      if action == -1 {
        if val >= -tol { break; }
      } else if val <= tol { break; }
      total := total + val;
      i := i + 1;
    }
  }

  /**
   * Backward scan from the last sample: stops at the first sample from the end
   * that does not qualify (or before sample 0) and adds up the samples it passes.
   */
  method ScanBackward(data: seq<Int8>, index: int, offsets: seq<int>, center: int, action: int, tol: int)
    returns (i: int, total: int)
    requires CircleInStore(data, index, offsets)
    ensures i == |offsets| - 1 - RunBack(Diffs(data, index, offsets, center), action, tol, |offsets|)
    ensures -1 <= i && total == Sum(Diffs(data, index, offsets, center), i + 1, |offsets|)
  {
    ghost var d := Diffs(data, index, offsets, center);
    var n := |offsets|;
    total := 0;
    i := n - 1;
    while i >= 0
      invariant -1 <= i <= n - 1
      invariant n - 1 - i + RunBack(d, action, tol, i + 1) == RunBack(d, action, tol, n)
      invariant total == Sum(d, i + 1, n)
    {
      var val := Unsigned(data[index + offsets[i]]) - center;
      if action == -1 {
        if val >= -tol { break; }
      } else if val <= tol { break; }
      SumPrepend(d, i, n);
      total := total + val;
      i := i - 1;
    }
  }

  /** Scan for the first qualifying sample; |offsets| when there is none. */
  method ScanFirst(data: seq<Int8>, index: int, offsets: seq<int>, center: int, action: int, tol: int)
    returns (start: int)
    requires CircleInStore(data, index, offsets)
    ensures start == First(Diffs(data, index, offsets, center), action, tol, 0)
  {
    ghost var d := Diffs(data, index, offsets, center);
    start := 0;
    while start < |offsets|
      invariant 0 <= start <= |offsets|
      invariant First(d, action, tol, start) == First(d, action, tol, 0)
    {
      var val := Unsigned(data[index + offsets[start]]) - center;
      if action == -1 {
        if val < -tol { break; }
      } else if val > tol { break; }
      start := start + 1;
    }
  }

  /** The branch without wrap-around, from the first qualifying sample and the end of its run. */
  lemma FirstRunBranch(d: seq<int>, action: int, tol: int, minCont: int, start: int, stop: int, run: int)
    requires |d| > 0 && start == First(d, action, tol, 0)
    requires stop == start + 1 + Run(d, action, tol, start + 1)
    requires start + 1 <= |d| ==> run == Sum(d, start + 1, stop)
    requires start + 1 > |d| ==> run == 0
    ensures SegmentBranch(d, action, tol, minCont, false) == SegmentResult(stop - start >= minCont, run)
  {
    if start == |d| {
      assert Run(d, action, tol, start + 1) == 0;
    }
  }

  /**
   * The segment test of `process`, from the first-sample test (as written:
   * a bright sample 0 takes the wrap-around branch whatever the polarity) to
   * `isCorner`: the wrap-around branch joins a forward scan from sample 1 with, when that
   * run is too short, a backward scan from the last sample; the other branch
   * finds the first qualifying sample and the end of its run.
   */
  method SegmentTest(data: seq<Int8>, index: int, offsets: seq<int>, center: int, action: int, tol: int, minCont: int)
    returns (isCorner: bool, totalDiff: int)
    requires |offsets| > 0 && CircleInStore(data, index, offsets)
    ensures SegmentResult(isCorner, totalDiff) == SegmentAsWritten(Diffs(data, index, offsets, center), action, tol, minCont)
  {
    ghost var d := Diffs(data, index, offsets, center);
    var n := |offsets|;
    isCorner := false;
    totalDiff := 0;
    var val := Unsigned(data[index + offsets[0]]) - center;
    assert val == d[0];
    if FirstTestAsWritten(val, action, tol) {
      totalDiff := totalDiff + val;
      var i, front := ScanForward(data, index, offsets, center, action, tol, 1);
      SumPrepend(d, 0, i);
      totalDiff := totalDiff + front;
      var frontLength := i;
      assert totalDiff == Sum(d, 0, frontLength);
      if frontLength < minCont {
        var back;
        i, back := ScanBackward(data, index, offsets, center, action, tol);
        totalDiff := totalDiff + back;
        if n - 1 - i + frontLength >= minCont {
          isCorner := true;
        }
        assert SegmentResult(isCorner, totalDiff) == SegmentBranch(d, action, tol, minCont, true);
      } else {
        isCorner := true;
        assert SegmentResult(isCorner, totalDiff) == SegmentBranch(d, action, tol, minCont, true);
      }
    } else {
      var start := ScanFirst(data, index, offsets, center, action, tol);
      var stop, run := ScanForward(data, index, offsets, center, action, tol, start + 1);
      totalDiff := totalDiff + run;
      isCorner := stop - start >= minCont;
      FirstRunBranch(d, action, tol, minCont, start, stop, run);
    }
  }

  // ---------------------------------------------------------------------------
  // The detector on an image

  /** ImplFastCorner12's `radius`: the circle's radius and the frame it skips. */
  const Radius := 3

  /** getCanonicalRadius */
  function CanonicalRadius(): (r: int)
    ensures r == Radius
  {
    Radius
  }

  /** getIgnoreBorder: the width of the frame `process` does not examine. */
  function IgnoreBorder(): (r: int)
    ensures r == CanonicalRadius()
  {
    Radius
  }

  /** A circle sample, as a column and row offset from the centre pixel. */
  datatype Offset = Offset(dx: int, dy: int)

  /**
   * The circle `process` is given: at least 13 samples (it reads positions 0,
   * 4, 8 and 12), none further than `Radius` from the centre in either direction.
   */
  predicate CircleOk(circle: seq<Offset>) {
    |circle| >= 13 &&
    forall i :: 0 <= i < |circle| ==> -Radius <= circle[i].dx <= Radius && -Radius <= circle[i].dy <= Radius
  }

  /** The flat offsets of the circle's samples in an image with the given stride. */
  function ImageOffsets(circle: seq<Offset>, stride: int): (offsets: seq<int>)
    ensures |offsets| == |circle|
  {
    seq(|circle|, i requires 0 <= i < |circle| => circle[i].dy * stride + circle[i].dx)
  }

  /** The pixels `process` examines: at least `Radius` from every edge. */
  predicate Examined(w: int, h: int, x: int, y: int) {
    Radius <= x < w - Radius && Radius <= y < h - Radius
  }

  /** Every circle sample of an examined pixel lies inside the image. */
  lemma IgnoredBorderSuffices(circle: seq<Offset>, w: int, h: int, x: int, y: int, i: int)
    requires CircleOk(circle) && 0 <= i < |circle|
    requires IgnoreBorder() <= x < w - IgnoreBorder() && IgnoreBorder() <= y < h - IgnoreBorder()
    ensures 0 <= x + circle[i].dx < w && 0 <= y + circle[i].dy < h
  {
  }

  /** An 8-bit sample read as `& 0xFF`; 0 outside the image. */
  function Sample(img: GrayU8, x: int, y: int): (v: int)
    ensures 0 <= v < 256
  {
    if img.Valid() && 0 <= x < img.width && 0 <= y < img.height then Unsigned(img.Get(x, y)) else 0
  }

  /** Differences from the centre of the circle samples around (x, y). */
  function CircleDiffs(img: GrayU8, circle: seq<Offset>, x: int, y: int): (d: seq<int>)
    ensures |d| == |circle|
  {
    seq(|circle|, i requires 0 <= i < |circle| => Sample(img, x + circle[i].dx, y + circle[i].dy) - Sample(img, x, y))
  }

  /** The quick test at (x, y). */
  function Action(img: GrayU8, circle: seq<Offset>, tol: int, x: int, y: int): int
    requires |circle| >= 13
  {
    QuickAction(Sample(img, x, y),
                Sample(img, x + circle[0].dx, y + circle[0].dy), Sample(img, x + circle[4].dx, y + circle[4].dy),
                Sample(img, x + circle[8].dx, y + circle[8].dy), Sample(img, x + circle[12].dx, y + circle[12].dy), tol)
  }

  /** (x, y) passes the quick test and the segment test. */
  predicate IsCorner(img: GrayU8, circle: seq<Offset>, tol: int, minCont: int, x: int, y: int)
    requires |circle| >= 13
  {
    Verdict(img, circle, tol, minCont, x, y).corner
  }

  /** The intensity of a segment test result: the total, negated for dark corners; 0 for non-corners. */
  function Strength(action: int, r: SegmentResult): real {
    if r.isCorner then (if action == -1 then -r.totalDiff else r.totalDiff) as real else 0.0
  }

  /** The intensity `process` writes for (x, y); 0 when the quick test rules it out. */
  function CornerIntensity(img: GrayU8, circle: seq<Offset>, tol: int, minCont: int, x: int, y: int): real
    requires |circle| >= 13
  {
    Verdict(img, circle, tol, minCont, x, y).intensity
  }

  /** What `process` decides about (x, y): the intensity it writes and whether it queues the pixel. */
  datatype PixelVerdict = PixelVerdict(intensity: real, corner: bool)

  function Verdict(img: GrayU8, circle: seq<Offset>, tol: int, minCont: int, x: int, y: int): PixelVerdict
    requires |circle| >= 13
  {
    var action := Action(img, circle, tol, x, y);
    if action == 0 then PixelVerdict(0.0, false)
    else
      var r := SegmentAsWritten(CircleDiffs(img, circle, x, y), action, tol, minCont);
      PixelVerdict(Strength(action, r), r.isCorner)
  }

  ghost function IntensityMap(img: GrayU8, circle: seq<Offset>, tol: int, minCont: int): (int, int) -> real
    requires |circle| >= 13
  {
    (x, y) => CornerIntensity(img, circle, tol, minCont, x, y)
  }

  /** At (x, y) the first-sample test as written agrees with the corrected one. */
  predicate FirstSampleAgrees(img: GrayU8, circle: seq<Offset>, tol: int, x: int, y: int)
    requires |circle| >= 13
  {
    FirstTestsAgree(CircleDiffs(img, circle, x, y)[0], Action(img, circle, tol, x, y), tol)
  }

  /**
   * A corner has an arc of `minCont` circle samples all darker than the centre
   * by more than `tol` (dark corner) or all brighter (bright corner), and at
   * least three of the four compass samples agree with it.  This holds for
   * every corner except a dark one whose sample 0 is bright, which the test as
   * written lets through (BrightFirstSampleCounterexample).
   */
  lemma CornerHasArc(img: GrayU8, circle: seq<Offset>, tol: int, minCont: int, x: int, y: int)
    requires |circle| >= 13 && IsCorner(img, circle, tol, minCont, x, y)
    requires FirstSampleAgrees(img, circle, tol, x, y)
    ensures var action, d := Action(img, circle, tol, x, y), CircleDiffs(img, circle, x, y);
            (action == -1 || action == 1) &&
            exists s :: 0 <= s < |d| && Arc(d, action, tol, s, minCont)
  {
    var action, d := Action(img, circle, tol, x, y), CircleDiffs(img, circle, x, y);
    // at least three of the four compass samples qualify, so one of these two does
    assert Qualifies(d[4], action, tol) || Qualifies(d[8], action, tol);
    AsWrittenSound(d, action, tol, minCont);
  }

  /**
   * With a non-negative tolerance, no pixel gets a negative intensity, except
   * a dark corner whose sample 0 is bright (NegativeIntensityAsWritten).
   */
  lemma CornerIntensityNonNegative(img: GrayU8, circle: seq<Offset>, tol: int, minCont: int, x: int, y: int)
    requires |circle| >= 13 && 0 <= tol
    requires FirstSampleAgrees(img, circle, tol, x, y)
    ensures CornerIntensity(img, circle, tol, minCont, x, y) >= 0.0
  {
    var action, d := Action(img, circle, tol, x, y), CircleDiffs(img, circle, x, y);
    AsWrittenAgrees(d, action, tol, minCont);
    SegmentTotalSign(d, action, tol, minCont);
  }

  /** Which pixels are corners, as a map over the image plane. */
  ghost function CornerMap(img: GrayU8, circle: seq<Offset>, tol: int, minCont: int): (int, int) -> bool
    requires |circle| >= 13
  {
    (x, y) => IsCorner(img, circle, tol, minCont, x, y)
  }

  /** The marked pixels of row y with Radius <= x < x1, left to right. */
  ghost function RowPoints(marked: (int, int) -> bool, y: int, x1: int): seq<Point>
    decreases x1
  {
    if x1 <= Radius then []
    else RowPoints(marked, y, x1 - 1) + (if marked(x1 - 1, y) then [Point(x1 - 1, y)] else [])
  }

  /** The marked pixels of rows Radius <= y < y1 and columns [Radius, w - Radius), in row-major order. */
  ghost function ScanPoints(marked: (int, int) -> bool, w: int, y1: int): seq<Point>
    decreases y1
  {
    if y1 <= Radius then []
    else ScanPoints(marked, w, y1 - 1) + RowPoints(marked, y1 - 1, w - Radius)
  }

  /** The corners of rows [Radius, y1), as `process` queues them. */
  ghost function Corners(img: GrayU8, circle: seq<Offset>, tol: int, minCont: int, y1: int): seq<Point>
    requires |circle| >= 13
  {
    ScanPoints(CornerMap(img, circle, tol, minCont), img.width, y1)
  }

  /** p comes before q in a row-by-row scan. */
  predicate ScanBefore(p: Point, q: Point) {
    p.y < q.y || (p.y == q.y && p.x < q.x)
  }

  /** Every point of `ps` comes before the points after it in a row-by-row scan. */
  predicate InScanOrder(ps: seq<Point>) {
    forall i, j :: 0 <= i < j < |ps| ==> ScanBefore(ps[i], ps[j])
  }

  lemma {:induction false} RowPointsMembers(marked: (int, int) -> bool, y: int, x1: int)
    ensures forall p :: p in RowPoints(marked, y, x1) <==> p.y == y && Radius <= p.x < x1 && marked(p.x, y)
    decreases x1
  {
    if x1 > Radius {
      RowPointsMembers(marked, y, x1 - 1);
    }
  }

  lemma RowPointsEnd(marked: (int, int) -> bool, y: int, x: int, w: int)
    requires x == w - Radius || (x == Radius && w - Radius <= Radius)
    ensures RowPoints(marked, y, x) == RowPoints(marked, y, w - Radius)
  {
  }

  /** Every point of `ps` comes before every point of `qs`. */
  predicate AllBefore(ps: seq<Point>, qs: seq<Point>) {
    forall i, j :: 0 <= i < |ps| && 0 <= j < |qs| ==> ScanBefore(ps[i], qs[j])
  }

  lemma AppendInScanOrder(ps: seq<Point>, qs: seq<Point>)
    requires InScanOrder(ps) && InScanOrder(qs) && AllBefore(ps, qs)
    ensures InScanOrder(ps + qs)
  {
    forall i, j | 0 <= i < j < |ps + qs| ensures ScanBefore((ps + qs)[i], (ps + qs)[j]) {
      if j < |ps| {
        assert (ps + qs)[i] == ps[i] && (ps + qs)[j] == ps[j];
      } else if i < |ps| {
        assert (ps + qs)[i] == ps[i] && (ps + qs)[j] == qs[j - |ps|];
      } else {
        assert (ps + qs)[i] == qs[i - |ps|] && (ps + qs)[j] == qs[j - |ps|];
      }
    }
  }

  lemma {:induction false} RowPointsBounds(marked: (int, int) -> bool, y: int, x1: int)
    ensures forall i :: 0 <= i < |RowPoints(marked, y, x1)| ==>
              RowPoints(marked, y, x1)[i].y == y && RowPoints(marked, y, x1)[i].x < x1
    decreases x1
  {
    if x1 > Radius {
      RowPointsBounds(marked, y, x1 - 1);
    }
  }

  lemma {:induction false} RowPointsIncreasing(marked: (int, int) -> bool, y: int, x1: int)
    ensures InScanOrder(RowPoints(marked, y, x1))
    decreases x1
  {
    if x1 > Radius {
      var prev := RowPoints(marked, y, x1 - 1);
      var tail: seq<Point> := if marked(x1 - 1, y) then [Point(x1 - 1, y)] else [];
      RowPointsIncreasing(marked, y, x1 - 1);
      RowPointsBounds(marked, y, x1 - 1);
      AppendInScanOrder(prev, tail);
    }
  }

  lemma {:induction false} ScanPointsBounds(marked: (int, int) -> bool, w: int, y1: int)
    ensures forall i :: 0 <= i < |ScanPoints(marked, w, y1)| ==> ScanPoints(marked, w, y1)[i].y < y1
    decreases y1
  {
    if y1 > Radius {
      var prev: seq<Point> := ScanPoints(marked, w, y1 - 1);
      var row: seq<Point> := RowPoints(marked, y1 - 1, w - Radius);
      ScanPointsBounds(marked, w, y1 - 1);
      RowPointsBounds(marked, y1 - 1, w - Radius);
      forall i | 0 <= i < |prev + row| ensures (prev + row)[i].y < y1 {
        if i >= |prev| {
          assert (prev + row)[i] == row[i - |prev|];
        }
      }
    }
  }

  /** The scan lists exactly the marked pixels of the examined rows. */
  lemma {:induction false} ScanPointsMembers(marked: (int, int) -> bool, w: int, y1: int)
    ensures forall p :: p in ScanPoints(marked, w, y1) <==>
              Radius <= p.y < y1 && Radius <= p.x < w - Radius && marked(p.x, p.y)
    decreases y1
  {
    if y1 > Radius {
      var prev, row := ScanPoints(marked, w, y1 - 1), RowPoints(marked, y1 - 1, w - Radius);
      ScanPointsMembers(marked, w, y1 - 1);
      RowPointsMembers(marked, y1 - 1, w - Radius);
      forall p ensures p in ScanPoints(marked, w, y1) <==>
                         Radius <= p.y < y1 && Radius <= p.x < w - Radius && marked(p.x, p.y) {
        assert ScanPoints(marked, w, y1) == prev + row;
        assert p in prev <==> Radius <= p.y < y1 - 1 && Radius <= p.x < w - Radius && marked(p.x, p.y);
        assert p in row <==> p.y == y1 - 1 && Radius <= p.x < w - Radius && marked(p.x, y1 - 1);
      }
    }
  }

  /** The scan lists the marked pixels in row-major order, each once. */
  lemma {:induction false} ScanPointsOrdered(marked: (int, int) -> bool, w: int, y1: int)
    ensures InScanOrder(ScanPoints(marked, w, y1))
    decreases y1
  {
    if y1 > Radius {
      var prev: seq<Point> := ScanPoints(marked, w, y1 - 1);
      var row: seq<Point> := RowPoints(marked, y1 - 1, w - Radius);
      ScanPointsOrdered(marked, w, y1 - 1);
      ScanPointsBounds(marked, w, y1 - 1);
      RowPointsBounds(marked, y1 - 1, w - Radius);
      RowPointsIncreasing(marked, y1 - 1, w - Radius);
      AppendInScanOrder(prev, row);
    }
  }

  /**
   * The candidates of rows [Radius, y1) are exactly the corners there, each
   * once, in row-major scan order.
   */
  lemma CornersContents(img: GrayU8, circle: seq<Offset>, tol: int, minCont: int, y1: int)
    requires |circle| >= 13
    ensures forall p :: p in Corners(img, circle, tol, minCont, y1) <==>
              Radius <= p.y < y1 && Radius <= p.x < img.width - Radius && IsCorner(img, circle, tol, minCont, p.x, p.y)
    ensures InScanOrder(Corners(img, circle, tol, minCont, y1))
  {
    var marked := CornerMap(img, circle, tol, minCont);
    ScanPointsMembers(marked, img.width, y1);
    ScanPointsOrdered(marked, img.width, y1);
    forall p: Point ensures marked(p.x, p.y) == IsCorner(img, circle, tol, minCont, p.x, p.y) {
    }
  }

  // ---------------------------------------------------------------------------
  // The candidate queue

  datatype Point = Point(x: int, y: int)

  /**
   * QueueCorner, as `process` uses it: a list of pixel coordinates that holds
   * at most `maxSize` entries until it is resized.
   */
  class QueueCorner {
    var points: seq<Point>
    var maxSize: nat

    ghost predicate Valid()
      reads this
    {
      |points| <= maxSize
    }

    constructor (maxSize: nat)
      ensures Valid() && points == [] && this.maxSize == maxSize
    {
      points := [];
      this.maxSize := maxSize;
    }

    predicate IsFull()
      reads this
    {
      |points| >= maxSize
    }

    method Reset()
      modifies this
      ensures Valid() && points == [] && maxSize == old(maxSize)
    {
      points := [];
    }

    method Resize(n: nat)
      requires |points| <= n
      modifies this
      ensures Valid() && points == old(points) && maxSize == n
    {
      maxSize := n;
    }

    method Add(x: int, y: int)
      requires |points| < maxSize
      modifies this
      ensures Valid() && points == old(points) + [Point(x, y)] && maxSize == old(maxSize)
    {
      points := points + [Point(x, y)];
    }
  }

  /** The capacity `process` resizes a full queue to, as written: twice the old one. */
  function GrownCapacityAsWritten(maxSize: nat): nat {
    maxSize * 2
  }

  /** The as-written growth makes room for another corner exactly when the capacity was positive. */
  lemma GrownCapacityAsWrittenRoom(maxSize: nat)
    ensures GrownCapacityAsWritten(maxSize) > maxSize <==> maxSize > 0
  {
  }

  /** Twice the old capacity, and at least 1: a full queue always gains room. */
  function GrownCapacity(maxSize: nat): (c: nat)
    ensures c > maxSize
    ensures maxSize > 0 ==> c == GrownCapacityAsWritten(maxSize)
  {
    if maxSize == 0 then 1 else maxSize * 2
  }

  // ---------------------------------------------------------------------------
  // process: the scan over the image

  /** The intensity cells `process` has written before it reaches pixel (x, y). */
  ghost function ScannedBefore(w: int, y: int, x: int): (int, int) -> bool {
    (a, b) => Radius <= a < w - Radius && (Radius <= b < y || (b == y && a < x))
  }

  /** The flat reads of an examined pixel stay in the store and see its circle. */
  lemma CircleReads(img: GrayU8, circle: seq<Offset>, offsets: seq<int>, x: int, y: int, index: int)
    requires img.Valid() && CircleOk(circle) && offsets == ImageOffsets(circle, img.stride)
    requires Examined(img.width, img.height, x, y) && index == img.Index(x, y)
    ensures 0 <= index < |img.data| && Unsigned(img.data[index]) == Sample(img, x, y)
    ensures CircleInStore(img.data, index, offsets)
    ensures forall i :: 0 <= i < |offsets| ==>
              Unsigned(img.data[index + offsets[i]]) == Sample(img, x + circle[i].dx, y + circle[i].dy)
    ensures Diffs(img.data, index, offsets, Sample(img, x, y)) == CircleDiffs(img, circle, x, y)
  {
    img.IndexInData(x, y);
    forall i | 0 <= i < |offsets|
      ensures 0 <= index + offsets[i] < |img.data|
      ensures Unsigned(img.data[index + offsets[i]]) == Sample(img, x + circle[i].dx, y + circle[i].dy)
    {
      CircleRead(img, circle, offsets, x, y, index, i);
    }
  }

  /** The flat read of circle sample i of an examined pixel sees that sample. */
  lemma CircleRead(img: GrayU8, circle: seq<Offset>, offsets: seq<int>, x: int, y: int, index: int, i: int)
    requires img.Valid() && CircleOk(circle) && offsets == ImageOffsets(circle, img.stride)
    requires Examined(img.width, img.height, x, y) && index == img.Index(x, y) && 0 <= i < |offsets|
    ensures 0 <= index + offsets[i] < |img.data|
    ensures Unsigned(img.data[index + offsets[i]]) == Sample(img, x + circle[i].dx, y + circle[i].dy)
  {
    IgnoredBorderSuffices(circle, img.width, img.height, x, y, i);
    RowShift(img.startIndex, img.stride, x, y, circle[i].dx, circle[i].dy);
    img.IndexInData(x + circle[i].dx, y + circle[i].dy);
  }

  /** The quick test on the compass samples read from the store is the quick test at (x, y). */
  lemma ActionOf(img: GrayU8, circle: seq<Offset>, offsets: seq<int>, tol: int, x: int, y: int, index: int)
    requires img.Valid() && CircleOk(circle) && offsets == ImageOffsets(circle, img.stride)
    requires Examined(img.width, img.height, x, y) && index == img.Index(x, y)
    ensures CircleInStore(img.data, index, offsets) && 0 <= index < |img.data|
    ensures QuickAction(Unsigned(img.data[index]), Unsigned(img.data[index + offsets[0]]),
                        Unsigned(img.data[index + offsets[4]]), Unsigned(img.data[index + offsets[8]]),
                        Unsigned(img.data[index + offsets[12]]), tol)
         == Action(img, circle, tol, x, y)
  {
    CircleReads(img, circle, offsets, x, y, index);
    ActionSamples(img, circle, tol, x, y);
  }

  /** The quick test at (x, y) reads the centre and circle samples 0, 4, 8 and 12. */
  lemma ActionSamples(img: GrayU8, circle: seq<Offset>, tol: int, x: int, y: int)
    requires |circle| >= 13
    ensures Action(img, circle, tol, x, y) ==
            QuickAction(Sample(img, x, y),
                        Sample(img, x + circle[0].dx, y + circle[0].dy), Sample(img, x + circle[4].dx, y + circle[4].dy),
                        Sample(img, x + circle[8].dx, y + circle[8].dy), Sample(img, x + circle[12].dx, y + circle[12].dy), tol)
  {
  }

  /** The corner verdict and intensity of (x, y), from its quick test and segment test results. */
  lemma IntensityOf(img: GrayU8, circle: seq<Offset>, tol: int, minCont: int, x: int, y: int, action: int, r: SegmentResult)
    requires |circle| >= 13 && action == Action(img, circle, tol, x, y)
    requires action != 0 ==> r == SegmentAsWritten(CircleDiffs(img, circle, x, y), action, tol, minCont)
    ensures IsCorner(img, circle, tol, minCont, x, y) == (action != 0 && r.isCorner)
    ensures CornerIntensity(img, circle, tol, minCont, x, y) == if action == 0 then 0.0 else Strength(action, r)
  {
  }

  /**
   * One pixel of the scan: the quick test on the compass samples, then the
   * segment test; returns whether the pixel is a corner and the intensity
   * `process` writes for it.
   */
  method Examine(img: GrayU8, offsets: seq<int>, ghost circle: seq<Offset>, ghost x: int, ghost y: int,
                 index: int, tol: int, minCont: int) returns (isCorner: bool, intensity: real)
    requires img.Valid() && CircleOk(circle) && offsets == ImageOffsets(circle, img.stride)
    requires Examined(img.width, img.height, x, y) && index == img.Index(x, y)
    ensures isCorner == IsCorner(img, circle, tol, minCont, x, y)
    ensures intensity == CornerIntensity(img, circle, tol, minCont, x, y)
  {
    ActionOf(img, circle, offsets, tol, x, y, index);
    CircleReads(img, circle, offsets, x, y, index);
    var center := Unsigned(img.data[index]);
    var a := Unsigned(img.data[index + offsets[0]]);
    var b := Unsigned(img.data[index + offsets[4]]);
    var c := Unsigned(img.data[index + offsets[8]]);
    var e := Unsigned(img.data[index + offsets[12]]);
    var action := QuickAction(center, a, b, c, e, tol);
    if action == 0 {
      IntensityOf(img, circle, tol, minCont, x, y, action, SegmentResult(false, 0));
      return false, 0.0;
    }
    var corner, totalDiff := SegmentTest(img.data, index, offsets, center, action, tol, minCont);
    IntensityOf(img, circle, tol, minCont, x, y, action, SegmentResult(corner, totalDiff));
    isCorner := corner;
    intensity := Strength(action, SegmentResult(corner, totalDiff));
  }

  /**
   * One pixel of the scan: its intensity is written and, when it is a corner,
   * it is appended to the queue, which grows first when it is full.  `value`
   * and `marked` stand for the intensity and the corner verdict of every pixel.
   */
  method ScanPixel(img: GrayU8, offsets: seq<int>, ghost circle: seq<Offset>, tol: int, minCont: int,
                   inten: GrayF32, queue: QueueCorner, x: int, y: int, index: int, intenIndex: int,
                   ghost value: (int, int) -> real, ghost marked: (int, int) -> bool,
                   ghost before: seq<real>, ghost earlier: seq<Point>)
    requires img.Valid() && CircleOk(circle) && offsets == ImageOffsets(circle, img.stride)
    requires inten.Valid() && inten.width == img.width && inten.height == img.height
    requires Examined(img.width, img.height, x, y) && index == img.Index(x, y) && intenIndex == inten.Index(x, y)
    requires Verdict(img, circle, tol, minCont, x, y) == PixelVerdict(value(x, y), marked(x, y))
    requires Painted(inten, inten.data[..], before, value, ScannedBefore(img.width, y, x))
    requires queue.Valid() && queue.points == earlier + RowPoints(marked, y, x)
    modifies inten.data, queue
    ensures Painted(inten, inten.data[..], before, value, ScannedBefore(img.width, y, x + 1))
    ensures queue.Valid() && queue.points == earlier + RowPoints(marked, y, x + 1)
  {
    var isCorner, intensity := Examine(img, offsets, circle, x, y, index, tol, minCont);
    PaintedStep(inten, inten.data[..], before, value, ScannedBefore(img.width, y, x), ScannedBefore(img.width, y, x + 1), x, y);
    inten.data[intenIndex] := intensity;
    if isCorner {
      if queue.IsFull() {
        queue.Resize(GrownCapacity(queue.maxSize));
      }
      queue.Add(x, y);
    }
  }

  /** One iteration of the scan of row y: the pixel at column x = index - rowStart. */
  method ScanStep(img: GrayU8, offsets: seq<int>, ghost circle: seq<Offset>, tol: int, minCont: int,
                  inten: GrayF32, queue: QueueCorner, y: int, rowStart: int, index: int, intenIndex: int, ghost x: int,
                  ghost value: (int, int) -> real, ghost marked: (int, int) -> bool,
                  ghost before: seq<real>, ghost earlier: seq<Point>)
    requires img.Valid() && CircleOk(circle) && offsets == ImageOffsets(circle, img.stride)
    requires inten.Valid() && inten.width == img.width && inten.height == img.height
    requires Radius <= y < img.height - Radius && Radius <= x < img.width - Radius
    requires rowStart == img.startIndex + img.stride * y && index == rowStart + x && intenIndex == inten.Index(x, y)
    requires VerdictsAre(img, circle, tol, minCont, value, marked)
    requires Painted(inten, inten.data[..], before, value, ScannedBefore(img.width, y, x))
    requires queue.Valid() && queue.points == earlier + RowPoints(marked, y, x)
    modifies inten.data, queue
    ensures Painted(inten, inten.data[..], before, value, ScannedBefore(img.width, y, x + 1))
    ensures queue.Valid() && queue.points == earlier + RowPoints(marked, y, x + 1)
  {
    var col := index - rowStart;
    ScanPixel(img, offsets, circle, tol, minCont, inten, queue, col, y, index, intenIndex, value, marked, before, earlier);
  }

  /** Where the scan of a row stops: `width - Radius`, or `Radius` when the row has no examined pixel. */
  function RowEnd(w: int): int {
    if w - Radius <= Radius then Radius else w - Radius
  }

  /** Once the scan passes the last examined pixel of row y, row y is complete. */
  lemma RowFinished(inten: GrayF32, s: seq<real>, before: seq<real>, value: (int, int) -> real,
                    marked: (int, int) -> bool, points: seq<Point>, w: int, y: int, x: int)
    requires inten.Valid() && Radius <= y
    requires x == w - Radius || (x == Radius && w - Radius <= Radius)
    requires Painted(inten, s, before, value, ScannedBefore(w, y, x))
    requires points == ScanPoints(marked, w, y) + RowPoints(marked, y, x)
    ensures Painted(inten, s, before, value, ScannedBefore(w, y + 1, Radius))
    ensures points == ScanPoints(marked, w, y + 1)
  {
    RowPointsEnd(marked, y, x, w);
    PaintedSame(inten, s, before, value, ScannedBefore(w, y, x), ScannedBefore(w, y + 1, Radius));
  }

  /** `value` and `marked` give the intensity and the corner verdict of every pixel. */
  ghost predicate VerdictsAre(img: GrayU8, circle: seq<Offset>, tol: int, minCont: int,
                              value: (int, int) -> real, marked: (int, int) -> bool)
    requires |circle| >= 13
  {
    forall a, b {:trigger Verdict(img, circle, tol, minCont, a, b)} ::
      Verdict(img, circle, tol, minCont, a, b) == PixelVerdict(value(a, b), marked(a, b))
  }

  /**
   * One row of the scan: every examined pixel of row y gets its intensity,
   * and the row's corners are appended to the queue left to right.
   */
  method ScanRow(img: GrayU8, offsets: seq<int>, ghost circle: seq<Offset>, tol: int, minCont: int,
                 inten: GrayF32, queue: QueueCorner, y: int,
                 ghost value: (int, int) -> real, ghost marked: (int, int) -> bool, ghost before: seq<real>)
    requires img.Valid() && CircleOk(circle) && offsets == ImageOffsets(circle, img.stride)
    requires inten.Valid() && inten.width == img.width && inten.height == img.height
    requires Radius <= y < img.height - Radius
    requires VerdictsAre(img, circle, tol, minCont, value, marked)
    requires Painted(inten, inten.data[..], before, value, ScannedBefore(img.width, y, Radius))
    requires queue.Valid() && queue.points == ScanPoints(marked, img.width, y)
    modifies inten.data, queue
    ensures Painted(inten, inten.data[..], before, value, ScannedBefore(img.width, y, RowEnd(img.width)))
    ensures queue.Valid() && queue.points == ScanPoints(marked, img.width, y) + RowPoints(marked, y, RowEnd(img.width))
  {
    ghost var earlier := ScanPoints(marked, img.width, y);
    var rowStart := img.startIndex + img.stride * y;
    var endX := rowStart + img.width - Radius;
    var intenIndex := inten.startIndex + y * inten.stride + Radius;
    var index := rowStart + Radius;
    ghost var x := Radius;
    while index < endX
      invariant index == rowStart + x && Radius <= x && (x <= img.width - Radius || x == Radius)
      invariant intenIndex == inten.Index(x, y)
      invariant Painted(inten, inten.data[..], before, value, ScannedBefore(img.width, y, x))
      invariant queue.Valid() && queue.points == earlier + RowPoints(marked, y, x)
    {
      ScanStep(img, offsets, circle, tol, minCont, inten, queue, y, rowStart, index, intenIndex, x, value, marked, before, earlier);
      index := index + 1;
      intenIndex := intenIndex + 1;
      x := x + 1;
    }
    assert x == RowEnd(img.width);
  }

  /**
   * The scan over every examined row, top to bottom, on an intensity image of
   * the input's size and an emptied queue.
   */
  method ScanImage(img: GrayU8, offsets: seq<int>, ghost circle: seq<Offset>, tol: int, minCont: int,
                   inten: GrayF32, queue: QueueCorner,
                   ghost value: (int, int) -> real, ghost marked: (int, int) -> bool, ghost before: seq<real>)
    requires img.Valid() && CircleOk(circle) && offsets == ImageOffsets(circle, img.stride)
    requires inten.Valid() && inten.width == img.width && inten.height == img.height
    requires VerdictsAre(img, circle, tol, minCont, value, marked)
    requires inten.data[..] == before
    requires queue.Valid() && queue.points == []
    modifies inten.data, queue
    ensures Painted(inten, inten.data[..], before, value, (a, b) => Examined(img.width, img.height, a, b))
    ensures queue.Valid() && queue.points == ScanPoints(marked, img.width, img.height - Radius)
  {
    var yEnd := img.height - Radius;
    PaintedStart(inten, before, value);
    PaintedSame(inten, before, before, value, (a, b) => false, ScannedBefore(img.width, Radius, Radius));
    var y := Radius;
    while y < yEnd
      invariant Radius <= y && (y <= yEnd || y == Radius)
      invariant queue.Valid() && queue.points == ScanPoints(marked, img.width, y)
      invariant Painted(inten, inten.data[..], before, value, ScannedBefore(img.width, y, Radius))
    {
      ScanRow(img, offsets, circle, tol, minCont, inten, queue, y, value, marked, before);
      RowFinished(inten, inten.data[..], before, value, marked, queue.points, img.width, y, RowEnd(img.width));
      y := y + 1;
    }
    PaintedSame(inten, inten.data[..], before, value, ScannedBefore(img.width, y, Radius),
                (a, b) => Examined(img.width, img.height, a, b));
  }

  /**
   * ImplFastCorner12: FAST with a 12-sample arc on a 16-sample circle; it
   * keeps the intensity image and the candidate queue between calls.
   */
  class FastCorner12 {
    var minCont: int
    var pixelTol: int
    var featureIntensity: GrayF32?
    var candidates: QueueCorner?

    ghost predicate Valid()
      reads this, featureIntensity, candidates
    {
      (featureIntensity == null <==> candidates == null) &&
      (featureIntensity != null ==> featureIntensity.Valid() && candidates.Valid())
    }

    constructor (pixelTol: int, minCont: int)
      ensures Valid() && featureIntensity == null && candidates == null
      ensures this.pixelTol == pixelTol && this.minCont == minCont
    {
      this.pixelTol := pixelTol;
      this.minCont := minCont;
      featureIntensity := null;
      candidates := null;
    }

    /**
     * process: sizes the intensity image to the input (declaring it and the
     * queue on the first call), then writes every examined pixel's intensity
     * and queues exactly the corners, in scan order.  The intensity of the
     * frame the scan skips is what the store held before the scan.
     */
    method Process(img: GrayU8, circle: seq<Offset>) returns (ghost before: seq<real>)
      requires Valid() && img.Valid() && CircleOk(circle)
      modifies this, featureIntensity, candidates, (if featureIntensity == null then {} else {featureIntensity.data})
      ensures Valid() && featureIntensity != null && candidates != null
      ensures pixelTol == old(pixelTol) && minCont == old(minCont)
      ensures old(featureIntensity) != null ==> featureIntensity == old(featureIntensity) && candidates == old(candidates)
      ensures featureIntensity.width == img.width && featureIntensity.height == img.height
      ensures candidates.points == Corners(img, circle, pixelTol, minCont, img.height - Radius)
      ensures Painted(featureIntensity, featureIntensity.data[..], before, IntensityMap(img, circle, pixelTol, minCont),
                      (a, b) => Examined(img.width, img.height, a, b))
      ensures old(featureIntensity) != null && featureIntensity.data == old(featureIntensity.data) ==>
                before == old(featureIntensity.data[..])
      ensures fresh(featureIntensity.data) ==> forall k :: 0 <= k < |before| ==> before[k] == 0.0
    {
      if featureIntensity == null {
        featureIntensity := new GrayF32(img.width, img.height);
        candidates := new QueueCorner(img.width);
      } else if featureIntensity.width != img.width || featureIntensity.height != img.height {
        featureIntensity.Reshape(img.width, img.height);
      }
      candidates.Reset();
      var inten, queue := featureIntensity, candidates;
      before := inten.data[..];
      var offsets := ImageOffsets(circle, img.stride);
      ScanImage(img, offsets, circle, pixelTol, minCont, inten, queue,
                IntensityMap(img, circle, pixelTol, minCont), CornerMap(img, circle, pixelTol, minCont), before);
    }
  }
}
