/** The thresholding front half of `detect_blobs`: the 768 samples of a frame
    are read as a 24 x 32 image, rounded to integers, the most frequent rounded
    value (the smallest one on a tie) is taken as the background temperature,
    and a cell is foreground when its raw value lies more than the calibration
    offset above that background. */
module Foreground {
  /** The sensor image size. */
  const Rows: nat := 24
  const Cols: nat := 32
  const FrameSize: nat := Rows * Cols

  /** The default calibration offset above the background temperature. */
  const Calibration: real := 2.0

  /** The two ways the computation fails: the samples cannot be reshaped to
      24 x 32, or a rounded sample is negative and cannot be bin-counted. */
  datatype Error = BadShape | NegativeValue

  datatype Result<T> = Ok(value: T) | Err(error: Error)

  /** `np.round` on one sample: the nearest integer, ties to the even one. */
  function RoundHalfEven(x: real): (n: int)
    ensures n as real - 0.5 <= x <= n as real + 0.5
    ensures (x == n as real - 0.5 || x == n as real + 0.5) ==> n % 2 == 0
  {
    var f := x.Floor;
    var d := x - f as real;
    if d < 0.5 then f
    else if d > 0.5 then f + 1
    else if f % 2 == 0 then f
    else f + 1
  }

  /** No integer is nearer to `x` than its rounding. */
  lemma RoundNearest(x: real, m: int)
    ensures var n := RoundHalfEven(x);
            var dn := if x >= n as real then x - n as real else n as real - x;
            var dm := if x >= m as real then x - m as real else m as real - x;
            dn <= dm
  {
    var n := RoundHalfEven(x);
    if m < n {
      assert m as real <= n as real - 1.0;
    } else if m > n {
      assert m as real >= n as real + 1.0;
    }
  }

  /** The rounded samples, in order. */
  function Rounded(frame: seq<real>): (r: seq<int>)
    ensures |r| == |frame|
    ensures forall i :: 0 <= i < |frame| ==> r[i] == RoundHalfEven(frame[i])
  {
    seq(|frame|, i requires 0 <= i < |frame| => RoundHalfEven(frame[i]))
  }

  predicate NonNegative(vals: seq<int>) {
    forall k :: 0 <= k < |vals| ==> vals[k] >= 0
  }

  /** The largest value of a non-empty sequence. */
  function MaxOf(vals: seq<int>): (m: int)
    requires |vals| > 0
    ensures m in vals
    ensures forall k :: 0 <= k < |vals| ==> vals[k] <= m
  {
    if |vals| == 1 then vals[0]
    else
      var m := MaxOf(vals[..|vals| - 1]);
      assert vals == vals[..|vals| - 1] + [vals[|vals| - 1]];
      if vals[|vals| - 1] > m then vals[|vals| - 1] else m
  }

  /** How often `v` occurs in `vals`. */
  function Frequency(vals: seq<int>, v: int): nat {
    multiset(vals)[v]
  }

  /** `np.bincount`: one bin per value from 0 to the largest, holding how
      often that value occurs. */
  function BinCount(vals: seq<int>): (bins: seq<nat>)
    requires |vals| > 0 && NonNegative(vals)
    ensures |bins| == MaxOf(vals) + 1
  {
    seq(MaxOf(vals) + 1, v requires 0 <= v <= MaxOf(vals) => Frequency(vals, v))
  }

  /** `argmax`: the index of the first largest element. */
  function ArgMax(s: seq<nat>): (i: nat)
    requires |s| > 0
    ensures i < |s|
    ensures forall k :: 0 <= k < |s| ==> s[k] <= s[i]
    ensures forall k :: 0 <= k < i ==> s[k] < s[i]
  {
    if |s| == 1 then 0
    else
      var j := ArgMax(s[..|s| - 1]);
      if s[|s| - 1] > s[j] then |s| - 1 else j
  }

  /** The background temperature: `bincount(...).argmax()`. */
  function Mode(vals: seq<int>): (m: int)
    requires |vals| > 0 && NonNegative(vals)
    ensures 0 <= m <= MaxOf(vals)
  {
    ArgMax(BinCount(vals))
  }

  /** A value above the largest one does not occur. */
  lemma AboveMaxAbsent(vals: seq<int>, v: int)
    requires |vals| > 0 && v > MaxOf(vals)
    ensures Frequency(vals, v) == 0
  {
    assert v !in vals;
  }

  /** A negative value does not occur in non-negative samples. */
  lemma NegativeAbsent(vals: seq<int>, v: int)
    requires NonNegative(vals) && v < 0
    ensures Frequency(vals, v) == 0
  {
    assert v !in vals;
  }

  /** The mode occurs in the samples, no value occurs more often, and every
      smaller value occurs strictly less often: ties go to the smallest value. */
  lemma ModeMostFrequent(vals: seq<int>)
    requires |vals| > 0 && NonNegative(vals)
    ensures Mode(vals) in vals
    ensures forall v :: Frequency(vals, v) <= Frequency(vals, Mode(vals))
    ensures forall v :: v < Mode(vals) ==> Frequency(vals, v) < Frequency(vals, Mode(vals))
  {
    var bins := BinCount(vals);
    var m := Mode(vals);
    var top := MaxOf(vals);
    assert bins[m] == Frequency(vals, m);
    assert vals[0] in multiset(vals);
    assert bins[vals[0]] == Frequency(vals, vals[0]) >= 1;
    assert Frequency(vals, m) >= 1;
    forall v
      ensures Frequency(vals, v) <= Frequency(vals, m)
    {
      if v < 0 {
        NegativeAbsent(vals, v);
      } else if v > top {
        AboveMaxAbsent(vals, v);
      } else {
        assert bins[v] == Frequency(vals, v);
      }
    }
    forall v | v < m
      ensures Frequency(vals, v) < Frequency(vals, m)
    {
      if v < 0 {
        NegativeAbsent(vals, v);
      } else {
        assert bins[v] == Frequency(vals, v);
      }
    }
  }

  /** The two properties of `ModeMostFrequent` single the mode out. */
  lemma ModeUnique(vals: seq<int>, w: int)
    requires |vals| > 0 && NonNegative(vals)
    requires forall v :: Frequency(vals, v) <= Frequency(vals, w)
    requires forall v :: v < w ==> Frequency(vals, v) < Frequency(vals, w)
    ensures w == Mode(vals)
  {
    ModeMostFrequent(vals);
    var m := Mode(vals);
    assert Frequency(vals, m) <= Frequency(vals, w) <= Frequency(vals, m);
    assert !(w < m) && !(m < w);
  }

  /** `arr > dynamic_threshold`, cell by cell in row-major order. */
  function Mask(frame: seq<real>, threshold: real): (mask: seq<bool>)
    ensures |mask| == |frame|
  {
    seq(|frame|, i requires 0 <= i < |frame| => frame[i] > threshold)
  }

  /** The thresholding front half of `detect_blobs`. */
  function ForegroundMask(frame: seq<real>, calibration: real): (r: Result<seq<bool>>)
    ensures r == Err(BadShape) <==> |frame| != FrameSize
    ensures r.Ok? ==> |r.value| == |frame|
  {
    if |frame| != FrameSize then Err(BadShape)
    else
      var rounded := Rounded(frame);
      if !NonNegative(rounded) then Err(NegativeValue)
      else Ok(Mask(frame, Mode(rounded) as real + calibration))
  }

  /** The mask is computed exactly for frames of 768 samples that all round
      to non-negative integers; then it has one cell per sample, and a cell is
      set iff its sample exceeds the most frequent rounded value (smallest on a
      tie) plus the calibration. */
  lemma ForegroundMaskOk(frame: seq<real>, calibration: real)
    ensures ForegroundMask(frame, calibration).Ok?
            <==> |frame| == FrameSize && forall i :: 0 <= i < |frame| ==> RoundHalfEven(frame[i]) >= 0
    ensures ForegroundMask(frame, calibration).Ok? ==>
              var mask := ForegroundMask(frame, calibration).value;
              var rounded := Rounded(frame);
              var mode := Mode(rounded);
              && |mask| == |frame|
              && (forall i :: 0 <= i < |frame| ==> (mask[i] <==> frame[i] > mode as real + calibration))
              && mode in rounded
              && (forall v :: Frequency(rounded, v) <= Frequency(rounded, mode))
              && (forall v :: v < mode ==> Frequency(rounded, v) < Frequency(rounded, mode))
  {
    if |frame| == FrameSize && NonNegative(Rounded(frame)) {
      ModeMostFrequent(Rounded(frame));
    }
  }

  /** A sample rounds below zero exactly when it lies below -0.5: -0.5 itself
      rounds to the even neighbour 0. */
  lemma RoundNegative(x: real)
    ensures RoundHalfEven(x) < 0 <==> x < -0.5
  {
    var n := RoundHalfEven(x);
    if x == -0.5 {
      assert n == 0;
    }
  }

  /** A frame of the wrong size fails the reshape before any sample is looked
      at; a right-sized frame fails the bin count exactly when some sample lies
      below -0.5. */
  lemma ForegroundMaskErrors(frame: seq<real>, calibration: real)
    ensures ForegroundMask(frame, calibration) == Err(BadShape) <==> |frame| != FrameSize
    ensures ForegroundMask(frame, calibration) == Err(NegativeValue)
            <==> |frame| == FrameSize && exists i :: 0 <= i < |frame| && frame[i] < -0.5
  {
    if |frame| == FrameSize {
      if exists i :: 0 <= i < |frame| && frame[i] < -0.5 {
        var i :| 0 <= i < |frame| && frame[i] < -0.5;
        RoundNegative(frame[i]);
        assert Rounded(frame)[i] < 0;
      }
      if !NonNegative(Rounded(frame)) {
        var i :| 0 <= i < |frame| && Rounded(frame)[i] < 0;
        RoundNegative(frame[i]);
      }
    }
  }

  /** A frame of one uniform temperature has no foreground once the
      calibration is at least half a degree, as the default one is. */
  lemma UniformFrame(frame: seq<real>, t: real, calibration: real)
    requires |frame| == FrameSize && t >= -0.5 && calibration >= 0.5
    requires forall i :: 0 <= i < |frame| ==> frame[i] == t
    ensures ForegroundMask(frame, calibration).Ok?
    ensures forall i :: 0 <= i < FrameSize ==> !ForegroundMask(frame, calibration).value[i]
  {
    var rounded := Rounded(frame);
    var n := RoundHalfEven(t);
    assert n >= 0;
    assert forall i :: 0 <= i < |rounded| ==> rounded[i] == n;
    ModeMostFrequent(rounded);
    var m := Mode(rounded);
    var k :| 0 <= k < |rounded| && rounded[k] == m;
    assert m == n;
  }

  /** With the default calibration of 2.0, a uniform frame has no
      foreground. */
  lemma DefaultUniformFrame(frame: seq<real>, t: real)
    requires |frame| == FrameSize && t >= -0.5
    requires forall i :: 0 <= i < |frame| ==> frame[i] == t
    ensures ForegroundMask(frame, Calibration).Ok?
    ensures forall i :: 0 <= i < FrameSize ==> !ForegroundMask(frame, Calibration).value[i]
  {
    UniformFrame(frame, t, Calibration);
  }

  /** The mask only depends on temperature order: a sample at least as warm
      as a foreground sample is foreground too. */
  lemma WarmerIsForeground(frame: seq<real>, calibration: real, i: nat, j: nat)
    requires ForegroundMask(frame, calibration).Ok?
    requires i < |frame| && j < |frame|
    requires ForegroundMask(frame, calibration).value[i] && frame[j] >= frame[i]
    ensures ForegroundMask(frame, calibration).value[j]
  {
  }
}
