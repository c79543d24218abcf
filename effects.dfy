/** The sample-array effects of `AudioProcessor` that have a visible body:
    echo (also used for "delay"), chorus and compressor. Each effect is a
    function stating the result sample by sample, and a method that builds
    the result the way the program does, in a zeroed or copied buffer that
    it updates in place, proved equal to that function. */
module Effects {
  import opened Audio
  import Text

  // ---------------------------------------------------------------- echo

  /** `int(delay * sample_rate)`, the echo's shift in samples. A product
      in (-1, 0) truncates to 0; a lower one would give a negative shift,
      on which numpy raises. */
  function DelaySamples(delay: real, sampleRate: nat): (d: nat)
    requires delay * sampleRate as real > -1.0
    ensures delay * sampleRate as real >= 0.0 ==> d as real <= delay * sampleRate as real < d as real + 1.0
    ensures delay * sampleRate as real < 0.0 ==> d == 0
  {
    Text.Trunc(delay * sampleRate as real)
  }

  /** One channel of echo, sample by sample: the first `d` samples are the
      input, every later one adds `decay` times the sample `d` earlier. */
  function Echoed(x: seq<real>, d: nat, decay: real): (r: seq<real>)
    ensures |r| == |x|
  {
    seq(|x|, i requires 0 <= i < |x| => if i < d then x[i] else x[i] + decay * x[i - d])
  }

  /** `temp[:len(x)] = x`. */
  method CopyPrefix(temp: array<real>, x: seq<real>)
    requires |x| <= temp.Length
    modifies temp
    ensures forall k :: 0 <= k < |x| ==> temp[k] == x[k]
    ensures forall k :: |x| <= k < temp.Length ==> temp[k] == old(temp[k])
  {
    for i := 0 to |x|
      invariant forall k :: 0 <= k < i ==> temp[k] == x[k]
      invariant forall k :: i <= k < temp.Length ==> temp[k] == old(temp[k])
    {
      temp[i] := x[i];
    }
  }

  /** `temp[d:d + len(x)] += x * decay` on a buffer of length |x| + d. */
  method AddShifted(temp: array<real>, x: seq<real>, d: nat, decay: real)
    requires temp.Length == |x| + d
    modifies temp
    ensures forall k :: 0 <= k < d ==> temp[k] == old(temp[k])
    ensures forall k :: d <= k < temp.Length ==> temp[k] == old(temp[k]) + decay * x[k - d]
  {
    for i := 0 to |x|
      invariant forall k :: 0 <= k < d ==> temp[k] == old(temp[k])
      invariant forall k :: d <= k < d + i ==> temp[k] == old(temp[k]) + decay * x[k - d]
      invariant forall k :: d + i <= k < temp.Length ==> temp[k] == old(temp[k])
    {
      temp[d + i] := temp[d + i] + decay * x[i];
    }
  }

  /** The zero buffer of length n + d, the copy, the shifted `+=`, and the
      cut back to n samples. */
  method EchoChannel(x: seq<real>, d: nat, decay: real) returns (r: seq<real>)
    ensures r == Echoed(x, d, decay)
  {
    var n := |x|;
    var temp := new real[n + d](_ => 0.0);
    CopyPrefix(temp, x);
    AddShifted(temp, x, d, decay);
    r := temp[..n];
    assert forall k :: 0 <= k < n ==> r[k] == Echoed(x, d, decay)[k];
  }

  /** Echo on every channel independently. */
  function EchoedAudio(a: Audio, d: nat, decay: real): (r: Audio)
    ensures SameShape(a, r)
  {
    match a
    case Mono(x) => Mono(Echoed(x, d, decay))
    case Multi(xs) => Multi(seq(|xs|, c requires 0 <= c < |xs| => Echoed(xs[c], d, decay)))
  }

  /** `apply_echo`: the echo of every channel, mixed with the dry input. */
  method ApplyEcho(a: Audio, sampleRate: nat, delay: real, decay: real, wetLevel: real)
    returns (r: Audio)
    requires delay * sampleRate as real > -1.0
    ensures SameShape(a, EchoedAudio(a, DelaySamples(delay, sampleRate), decay))
    ensures r == Mix(a, EchoedAudio(a, DelaySamples(delay, sampleRate), decay), wetLevel)
  {
    var d := DelaySamples(delay, sampleRate);
    var wet: Audio;
    match a {
      case Mono(x) =>
        var e := EchoChannel(x, d, decay);
        wet := Mono(e);
      case Multi(xs) =>
        var out := new seq<real>[|xs|](_ => []);
        for c := 0 to |xs|
          invariant forall k :: 0 <= k < c ==> out[k] == Echoed(xs[k], d, decay)
        {
          out[c] := EchoChannel(xs[c], d, decay);
        }
        wet := Multi(out[..]);
        assert wet == EchoedAudio(a, d, decay);
    }
    r := Mix(a, wet, wetLevel);
  }

  /** A shift at least as long as the signal leaves it untouched. */
  lemma EchoLongDelay(x: seq<real>, d: nat, decay: real)
    requires d >= |x|
    ensures Echoed(x, d, decay) == x
  {
  }

  /** With no feedback the echo is the input. */
  lemma EchoNoDecay(x: seq<real>, d: nat)
    ensures Echoed(x, d, 0.0) == x
  {
  }

  // -------------------------------------------------------------- chorus

  /** `max(0, i - int(delay_mod))`: the index the chorus reads for sample i. */
  function ReadIndex(i: int, offset: int): (j: nat)
    ensures j >= i - offset && (j == 0 || j == i - offset)
  {
    if i - offset > 0 then i - offset else 0
  }

  /** One channel of chorus: sample i copies the input at its read index when
      that index is inside the signal, and stays 0 otherwise. */
  function Chorused(x: seq<real>, offsets: seq<int>): (r: seq<real>)
    requires |offsets| == |x|
    ensures |r| == |x|
  {
    seq(|x|, i requires 0 <= i < |x| =>
      var j := ReadIndex(i, offsets[i]); if j < |x| then x[j] else 0.0)
  }

  /** The per-sample loop over the LFO writing into a zeroed buffer. */
  method ChorusChannel(x: seq<real>, offsets: seq<int>) returns (r: seq<real>)
    requires |offsets| == |x|
    ensures |r| == |x|
    ensures forall i :: 0 <= i < |x| && ReadIndex(i, offsets[i]) < |x| ==> r[i] == x[ReadIndex(i, offsets[i])]
    ensures forall i :: 0 <= i < |x| && ReadIndex(i, offsets[i]) >= |x| ==> r[i] == 0.0
  {
    var n := |x|;
    var out := new real[n](_ => 0.0);
    for i := 0 to n
      invariant forall k :: 0 <= k < i ==> out[k] == Chorused(x, offsets)[k]
      invariant forall k :: i <= k < n ==> out[k] == 0.0
    {
      var j := ReadIndex(i, offsets[i]);
      if j < n {
        out[i] := x[j];
      }
    }
    r := out[..];
  }

  /** Chorus on every channel, all channels sharing one LFO. */
  function ChorusedAudio(a: Audio, offsets: seq<int>): (r: Audio)
    requires a.Rectangular() && |offsets| == a.Length()
    ensures SameShape(a, r)
  {
    match a
    case Mono(x) => Mono(Chorused(x, offsets))
    case Multi(xs) => Multi(seq(|xs|, c requires 0 <= c < |xs| => Chorused(xs[c], offsets)))
  }

  /** `apply_chorus` with the LFO's per-sample integer offsets given. */
  method ApplyChorus(a: Audio, offsets: seq<int>, wetLevel: real) returns (r: Audio)
    requires a.Rectangular() && |offsets| == a.Length()
    ensures SameShape(a, ChorusedAudio(a, offsets))
    ensures r == Mix(a, ChorusedAudio(a, offsets), wetLevel)
  {
    var wet: Audio;
    match a {
      case Mono(x) =>
        var e := ChorusChannel(x, offsets);
        assert e == Chorused(x, offsets);
        wet := Mono(e);
      case Multi(xs) =>
        var out := new seq<real>[|xs|](_ => []);
        for c := 0 to |xs|
          invariant forall k :: 0 <= k < c ==> out[k] == Chorused(xs[k], offsets)
        {
          out[c] := ChorusChannel(xs[c], offsets);
          assert out[c] == Chorused(xs[c], offsets);
        }
        wet := Multi(out[..]);
        assert wet == ChorusedAudio(a, offsets);
    }
    r := Mix(a, wet, wetLevel);
  }

  /** Offsets that never look ahead never leave the signal: every sample is
      read from an index at or before its own. */
  lemma ChorusLooksBack(x: seq<real>, offsets: seq<int>, i: int)
    requires |offsets| == |x| && 0 <= i < |x| && offsets[i] >= 0
    ensures ReadIndex(i, offsets[i]) <= i
    ensures Chorused(x, offsets)[i] == x[ReadIndex(i, offsets[i])]
  {
  }

  /** A flat LFO makes the chorus the identity. */
  lemma ChorusZeroOffsets(x: seq<real>, offsets: seq<int>)
    requires |offsets| == |x|
    requires forall i :: 0 <= i < |offsets| ==> offsets[i] == 0
    ensures Chorused(x, offsets) == x
  {
  }

  // ---------------------------------------------------------- compressor

  /** The compressor's curve on one sample: a sample whose magnitude is at
      most the threshold passes unchanged, any other becomes
      `threshold + (v - threshold) / ratio`. */
  function Compress(v: real, threshold: real, ratio: real): (r: real)
    requires ratio != 0.0
    ensures Abs(v) <= threshold ==> r == v
    ensures v > threshold && ratio >= 1.0 ==> threshold <= r <= v
  {
    if Abs(v) > threshold then threshold + (v - threshold) / ratio else v
  }

  /** The curve is not mirrored for negative samples: a sample below
      `-threshold` is pulled toward `+threshold`, not toward `-threshold`,
      and can come out with the opposite sign. */
  lemma CompressLoudNegative(v: real, threshold: real, ratio: real)
    requires threshold >= 0.0 && v < -threshold && ratio >= 1.0
    ensures v <= Compress(v, threshold, ratio) <= threshold
    ensures Compress(-1.0, 0.5, 4.0) == 0.125
  {
    var r := Compress(v, threshold, ratio);
    assert (v - threshold) / ratio >= v - threshold by {
      assert (v - threshold) / ratio * ratio == v - threshold;
    }
  }

  /** One channel compressed sample by sample. */
  function Compressed(x: seq<real>, threshold: real, ratio: real): (r: seq<real>)
    requires ratio != 0.0
    ensures |r| == |x|
  {
    seq(|x|, i requires 0 <= i < |x| => Compress(x[i], threshold, ratio))
  }

  /** `np.copy` then the masked assignment, one sample at a time. */
  method CompressChannel(x: seq<real>, threshold: real, ratio: real) returns (r: seq<real>)
    requires ratio != 0.0
    ensures |r| == |x|
    ensures forall i :: 0 <= i < |x| && Abs(x[i]) <= threshold ==> r[i] == x[i]
    ensures forall i :: 0 <= i < |x| && Abs(x[i]) > threshold ==>
      r[i] == threshold + (x[i] - threshold) / ratio
  {
    var compressed := new real[|x|](i requires 0 <= i < |x| => x[i]);
    for i := 0 to |x|
      invariant forall k :: 0 <= k < i ==> compressed[k] == Compress(x[k], threshold, ratio)
      invariant forall k :: i <= k < |x| ==> compressed[k] == x[k]
    {
      if Abs(x[i]) > threshold {
        compressed[i] := threshold + (x[i] - threshold) / ratio;
      }
    }
    r := compressed[..];
  }

  function CompressedAudio(a: Audio, threshold: real, ratio: real): (r: Audio)
    requires ratio != 0.0
    ensures SameShape(a, r)
  {
    match a
    case Mono(x) => Mono(Compressed(x, threshold, ratio))
    case Multi(xs) => Multi(seq(|xs|, c requires 0 <= c < |xs| => Compressed(xs[c], threshold, ratio)))
  }

  /** `apply_compressor`: every channel compressed, mixed with the dry input. */
  method ApplyCompressor(a: Audio, threshold: real, ratio: real, wetLevel: real) returns (r: Audio)
    requires ratio != 0.0
    ensures SameShape(a, CompressedAudio(a, threshold, ratio))
    ensures r == Mix(a, CompressedAudio(a, threshold, ratio), wetLevel)
  {
    var wet: Audio;
    match a {
      case Mono(x) =>
        var e := CompressChannel(x, threshold, ratio);
        assert e == Compressed(x, threshold, ratio);
        wet := Mono(e);
      case Multi(xs) =>
        var out := new seq<real>[|xs|](_ => []);
        for c := 0 to |xs|
          invariant forall k :: 0 <= k < c ==> out[k] == Compressed(xs[k], threshold, ratio)
        {
          out[c] := CompressChannel(xs[c], threshold, ratio);
          assert out[c] == Compressed(xs[c], threshold, ratio);
        }
        wet := Multi(out[..]);
        assert wet == CompressedAudio(a, threshold, ratio);
    }
    r := Mix(a, wet, wetLevel);
  }
}
