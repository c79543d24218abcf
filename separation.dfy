/** The parts of `split_vocals_instruments` that are the program's own code:
    the down-mix to mono, the vocal band edges, the per-row vocal and
    instrumental masks, the peak normalisation of each output, and the two
    output names. The spectral transforms between them belong to librosa. */
module Separation {
  import opened Audio
  import Text

  // ------------------------------------------------------------ down-mix

  function Sum(xs: seq<real>): real
  {
    if |xs| == 0 then 0.0 else Sum(xs[..|xs| - 1]) + xs[|xs| - 1]
  }

  /** Sample i of every channel. */
  function Column(chs: seq<seq<real>>, i: nat): (col: seq<real>)
    requires forall c :: 0 <= c < |chs| ==> i < |chs[c]|
    ensures |col| == |chs|
  {
    seq(|chs|, c requires 0 <= c < |chs| => chs[c][i])
  }

  /** `np.mean(audio_data, axis=0)` for several channels; mono passes through. */
  function ToMono(a: Audio): (m: seq<real>)
    requires a.Rectangular()
    ensures |m| == a.Length()
    ensures a.Mono? ==> m == a.samples
  {
    match a
    case Mono(x) => x
    case Multi(chs) =>
      seq(|chs[0]|, i requires 0 <= i < |chs[0]| => Sum(Column(chs, i)) / |chs| as real)
  }

  lemma {:induction false} SumConstant(xs: seq<real>, v: real)
    requires forall c :: 0 <= c < |xs| ==> xs[c] == v
    ensures Sum(xs) == |xs| as real * v
  {
    if |xs| > 0 {
      SumConstant(xs[..|xs| - 1], v);
    }
  }

  /** A sum of samples that all lie in [lo, hi] lies between the count times
      lo and the count times hi. */
  lemma {:induction false} SumBetween(xs: seq<real>, lo: real, hi: real)
    requires forall c :: 0 <= c < |xs| ==> lo <= xs[c] <= hi
    ensures |xs| as real * lo <= Sum(xs) <= |xs| as real * hi
  {
    if |xs| > 0 {
      SumBetween(xs[..|xs| - 1], lo, hi);
    }
  }

  lemma QuotientBetween(s: real, n: real, lo: real, hi: real)
    requires n > 0.0 && n * lo <= s <= n * hi
    ensures lo <= s / n <= hi
  {
    var q := s / n;
    assert q * n == s;
    assert (q - lo) * n >= 0.0;
    assert (hi - q) * n >= 0.0;
  }

  /** Each down-mixed sample is a mean: when sample i of every channel lies
      in [lo, hi], so does sample i of the mono signal. With lo and hi the
      least and greatest of those samples, the mono sample lies between
      them. */
  lemma ToMonoWithinColumn(a: Audio, i: int, lo: real, hi: real)
    requires a.Rectangular() && a.Multi? && 0 <= i < a.Length()
    requires forall c :: 0 <= c < |a.channels| ==> lo <= a.channels[c][i] <= hi
    ensures lo <= ToMono(a)[i] <= hi
  {
    var chs := a.channels;
    var col := Column(chs, i);
    SumBetween(col, lo, hi);
    QuotientBetween(Sum(col), |chs| as real, lo, hi);
  }

  /** Down-mixing channels that all carry the same signal gives that signal. */
  lemma ToMonoOfCopies(x: seq<real>, count: nat)
    requires count > 0
    ensures Multi(seq(count, _ => x)).Rectangular()
    ensures ToMono(Multi(seq(count, _ => x))) == x
  {
    var chs := seq(count, _ => x);
    var m := ToMono(Multi(chs));
    forall i | 0 <= i < |x| ensures m[i] == x[i] {
      SumConstant(Column(chs, i), x[i]);
    }
  }

  // ------------------------------------------------------------- masks

  /** STFT frame size used for the analysis, and the bins it yields. */
  const FrameSize: nat := 2048
  const FreqBins: nat := 1 + FrameSize / 2

  /** `int(300 * freq_bins / (sample_rate / 2))`. */
  function VocalBandStart(bins: nat, sampleRate: nat): (k: nat)
    requires sampleRate > 0
    ensures k as real <= 600.0 * bins as real / sampleRate as real < k as real + 1.0
  {
    var x := (300 * bins) as real / (sampleRate as real / 2.0);
    assert x == 600.0 * bins as real / sampleRate as real;
    Text.Trunc(x)
  }

  /** `int(3000 * freq_bins / (sample_rate / 2))`. */
  function VocalBandEnd(bins: nat, sampleRate: nat): (k: nat)
    requires sampleRate > 0
    ensures k as real <= 6000.0 * bins as real / sampleRate as real < k as real + 1.0
  {
    var x := (3000 * bins) as real / (sampleRate as real / 2.0);
    assert x == 6000.0 * bins as real / sampleRate as real;
    Text.Trunc(x)
  }

  /** The band edges are 300 Hz and 3000 Hz as bin numbers, rounded down, so
      the band is never empty-by-inversion. */
  lemma VocalBandOrdered(bins: nat, sampleRate: nat)
    requires sampleRate > 0
    ensures VocalBandStart(bins, sampleRate) <= VocalBandEnd(bins, sampleRate)
    ensures VocalBandStart(bins, sampleRate) as real <= 600.0 * bins as real / sampleRate as real
    ensures VocalBandEnd(bins, sampleRate) as real <= 6000.0 * bins as real / sampleRate as real
  {
    var half := sampleRate as real / 2.0;
    var lo := (300 * bins) as real / half;
    var hi := (3000 * bins) as real / half;
    assert lo == 600.0 * bins as real / sampleRate as real;
    assert hi == 6000.0 * bins as real / sampleRate as real;
    assert lo <= hi by {
      assert lo * half == (300 * bins) as real;
      assert hi * half == (3000 * bins) as real;
    }
  }

  /** At 44.1 kHz the 1025-bin analysis puts the vocal band at rows 13..139. */
  lemma VocalBandAt44100()
    ensures FreqBins == 1025
    ensures VocalBandStart(FreqBins, 44100) == 13 && VocalBandEnd(FreqBins, 44100) == 139
  {
    assert (300 * 1025) as real / (44100 as real / 2.0) == 307500.0 / 22050.0;
    assert (3000 * 1025) as real / (44100 as real / 2.0) == 3075000.0 / 22050.0;
  }

  predicate InVocalBand(row: int, start: int, end: int) { start <= row <= end }

  /** Gain the vocal mask gives a frequency row. */
  function VocalGain(row: int, start: int, end: int): real
  {
    if InVocalBand(row, start, end) then 1.5 else 0.4
  }

  /** Gain the instrumental mask gives a frequency row. */
  function InstrumentGain(row: int, start: int, end: int): real
  {
    if InVocalBand(row, start, end) then 0.3 else 1.2
  }

  /** Every row gets exactly one of the two settings: inside the band the
      vocal mask boosts and the instrumental one cuts, outside the reverse. */
  lemma MaskSettings(row: int, start: int, end: int)
    ensures (VocalGain(row, start, end), InstrumentGain(row, start, end)) == (1.5, 0.3)
            <==> start <= row <= end
    ensures (VocalGain(row, start, end), InstrumentGain(row, start, end)) == (0.4, 1.2)
            <==> !(start <= row <= end)
  {
  }

  /** `np.ones_like(magnitude)` twice, then the row loop scaling each row of
      the two masks by the row's pair of gains. */
  method BuildMasks(magnitude: array2<real>, sampleRate: nat)
    returns (vocal: array2<real>, instrumental: array2<real>)
    requires sampleRate > 0
    ensures fresh(vocal) && fresh(instrumental)
    ensures vocal.Length0 == instrumental.Length0 == magnitude.Length0
    ensures vocal.Length1 == instrumental.Length1 == magnitude.Length1
    ensures forall i, j :: 0 <= i < vocal.Length0 && 0 <= j < vocal.Length1 ==>
      vocal[i, j] == VocalGain(i, VocalBandStart(magnitude.Length0, sampleRate), VocalBandEnd(magnitude.Length0, sampleRate))
    ensures forall i, j :: 0 <= i < instrumental.Length0 && 0 <= j < instrumental.Length1 ==>
      instrumental[i, j] == InstrumentGain(i, VocalBandStart(magnitude.Length0, sampleRate), VocalBandEnd(magnitude.Length0, sampleRate))
  {
    var bins, frames := magnitude.Length0, magnitude.Length1;
    vocal := new real[bins, frames]((_, _) => 1.0);
    instrumental := new real[bins, frames]((_, _) => 1.0);
    var start := VocalBandStart(bins, sampleRate);
    var end := VocalBandEnd(bins, sampleRate);
    for i := 0 to bins
      invariant forall r, c :: 0 <= r < i && 0 <= c < frames ==>
        vocal[r, c] == VocalGain(r, start, end) && instrumental[r, c] == InstrumentGain(r, start, end)
      invariant forall r, c :: i <= r < bins && 0 <= c < frames ==>
        vocal[r, c] == 1.0 && instrumental[r, c] == 1.0
    {
      var vg, ig := 0.4, 1.2;
      if start <= i <= end {
        vg, ig := 1.5, 0.3;
      }
      assert vg == VocalGain(i, start, end) && ig == InstrumentGain(i, start, end);
      for j := 0 to frames
        invariant forall r, c :: 0 <= r < i && 0 <= c < frames ==>
          vocal[r, c] == VocalGain(r, start, end) && instrumental[r, c] == InstrumentGain(r, start, end)
        invariant forall c :: 0 <= c < j ==> vocal[i, c] == vg && instrumental[i, c] == ig
        invariant forall r, c :: (i < r < bins && 0 <= c < frames) || (r == i && j <= c < frames) ==>
          vocal[r, c] == 1.0 && instrumental[r, c] == 1.0
      {
        vocal[i, j] := vocal[i, j] * vg;
        instrumental[i, j] := instrumental[i, j] * ig;
      }
    }
  }

  // ------------------------------------------------------- normalisation

  /** `np.max(np.abs(y))`: the largest magnitude, attained by some sample. */
  function Peak(y: seq<real>): (p: real)
    requires |y| > 0
    ensures forall i :: 0 <= i < |y| ==> Abs(y[i]) <= p
    ensures exists i :: 0 <= i < |y| && Abs(y[i]) == p
  {
    if |y| == 1 then Abs(y[0])
    else
      var q := Peak(y[1..]);
      assert forall i :: 1 <= i < |y| ==> y[i] == y[1..][i - 1];
      if Abs(y[0]) >= q then Abs(y[0]) else q
  }

  /** The peak normalisation applied to both separated outputs. A silent
      signal would divide by zero, so it is excluded. */
  function Normalize(y: seq<real>): (r: seq<real>)
    requires |y| > 0 && Peak(y) != 0.0
    ensures |r| == |y|
    ensures forall i :: 0 <= i < |r| ==> Abs(r[i]) <= 0.8
  {
    var p := Peak(y);
    var r := seq(|y|, i requires 0 <= i < |y| => y[i] / p * 0.8);
    assert forall i :: 0 <= i < |r| ==> Abs(r[i]) <= 0.8 by {
      forall i | 0 <= i < |r| ensures Abs(r[i]) <= 0.8 {
        ScaledSample(y[i], p);
      }
    }
    r
  }

  lemma QuotientAbs(v: real, p: real)
    requires p > 0.0
    ensures Abs(v / p) == Abs(v) / p
  {
    if v < 0.0 {
      assert -(v / p) == (-v) / p;
    }
  }

  lemma QuotientAtMostOne(x: real, p: real)
    requires p > 0.0 && x <= p
    ensures x / p <= 1.0
  {
    assert x / p <= p / p;
  }

  lemma ScaledSample(v: real, p: real)
    requires p > 0.0 && Abs(v) <= p
    ensures Abs(v / p * 0.8) <= 0.8
    ensures Abs(v) == p ==> Abs(v / p * 0.8) == 0.8
  {
    QuotientAbs(v, p);
    QuotientAtMostOne(Abs(v), p);
    assert Abs(v / p * 0.8) == Abs(v / p) * 0.8;
  }

  /** After normalisation the loudest sample has magnitude exactly 0.8. */
  lemma NormalizedPeak(y: seq<real>)
    requires |y| > 0 && Peak(y) != 0.0
    ensures Peak(Normalize(y)) == 0.8
  {
    var p := Peak(y);
    var r := Normalize(y);
    forall i | 0 <= i < |y| ensures Abs(r[i]) <= 0.8 {
      ScaledSample(y[i], p);
    }
    var k :| 0 <= k < |y| && Abs(y[k]) == p;
    ScaledSample(y[k], p);
    assert Abs(r[k]) == 0.8;
  }

  /** Normalising a normalised signal changes nothing. */
  lemma NormalizeIdempotent(y: seq<real>)
    requires |y| > 0 && Peak(y) != 0.0
    ensures Peak(Normalize(y)) != 0.0
    ensures Normalize(Normalize(y)) == Normalize(y)
  {
    NormalizedPeak(y);
  }

  lemma ScaledSign(v: real, p: real)
    requires p > 0.0
    ensures v / p * 0.8 > 0.0 <==> v > 0.0
    ensures v / p * 0.8 < 0.0 <==> v < 0.0
  {
    var q := v / p;
    assert q * p == v;
    if v > 0.0 { assert q > 0.0; }
    if v < 0.0 { assert q < 0.0; }
    if v == 0.0 { assert q == 0.0; }
  }

  /** Normalisation keeps every sample's sign and the ratios between samples. */
  lemma NormalizeKeepsShape(y: seq<real>, i: int)
    requires |y| > 0 && Peak(y) != 0.0 && 0 <= i < |y|
    ensures (Normalize(y)[i] > 0.0 <==> y[i] > 0.0) && (Normalize(y)[i] < 0.0 <==> y[i] < 0.0)
    ensures Normalize(y)[i] / 0.8 == y[i] / Peak(y)
  {
    var p := Peak(y);
    assert p > 0.0 by { assert Abs(y[0]) <= p; }
    var v := Normalize(y)[i];
    assert v == y[i] / p * 0.8;
    ScaledSign(y[i], p);
  }

  // -------------------------------------------------------------- names

  /** `f"{base_name}_vocals.wav"` and `f"{base_name}_instruments.wav"`. */
  function SeparationNames(filename: string): (string, string)
  {
    var base := Text.Root(filename);
    (base + "_vocals" + ".wav", base + "_instruments" + ".wav")
  }

  /** Each separated name splits back into the input's base plus its own
      suffix, with the extension ".wav". */
  lemma SeparationNamesSplit(filename: string)
    ensures Text.SplitExt(SeparationNames(filename).0) == (Text.Root(filename) + "_vocals", ".wav")
    ensures Text.SplitExt(SeparationNames(filename).1) == (Text.Root(filename) + "_instruments", ".wav")
  {
    var base := Text.Root(filename);
    Text.SplitExtTagged(base, "_vocals", ".wav");
    Text.SplitExtTagged(base, "_instruments", ".wav");
  }
}
