/** Sample buffers as `librosa.load(..., mono=False)` hands them to the
    effects: a one-dimensional array for mono, a channels-by-samples array
    otherwise. Samples are idealised as exact reals. */
module Audio {

  datatype Audio = Mono(samples: seq<real>) | Multi(channels: seq<seq<real>>)
  {
    /** A two-dimensional array has at least one row and rows of one length. */
    predicate Rectangular() {
      Multi? ==> |channels| > 0 && forall c :: 0 <= c < |channels| ==> |channels[c]| == |channels[0]|
    }

    /** Samples per channel (`len(audio_data)` or `len(audio_data[0])`). */
    function Length(): nat
      requires Rectangular()
    {
      if Mono? then |samples| else |channels[0]|
    }
  }

  /** Two buffers that numpy can add elementwise. */
  predicate SameShape(a: Audio, b: Audio) {
    match (a, b)
    case (Mono(x), Mono(y)) => |x| == |y|
    case (Multi(xs), Multi(ys)) =>
      |xs| == |ys| && forall c :: 0 <= c < |xs| ==> |xs[c]| == |ys[c]|
    case _ => false
  }

  function Abs(v: real): real { if v < 0.0 then -v else v }

  /** `dry * (1 - wet_level) + wet * wet_level` on one channel. */
  function MixChannel(dry: seq<real>, wet: seq<real>, wetLevel: real): (r: seq<real>)
    requires |dry| == |wet|
    ensures |r| == |dry|
  {
    seq(|dry|, i requires 0 <= i < |dry| => dry[i] * (1.0 - wetLevel) + wet[i] * wetLevel)
  }

  /** The dry/wet mix every effect ends with. */
  function Mix(dry: Audio, wet: Audio, wetLevel: real): (r: Audio)
    requires SameShape(dry, wet)
    ensures SameShape(r, dry)
  {
    match (dry, wet)
    case (Mono(x), Mono(y)) => Mono(MixChannel(x, y, wetLevel))
    case (Multi(xs), Multi(ys)) =>
      Multi(seq(|xs|, c requires 0 <= c < |xs| => MixChannel(xs[c], ys[c], wetLevel)))
  }

  /** For a wet level in [0, 1] each mixed sample lies between the dry and
      the wet sample. */
  lemma MixSampleBetween(dry: real, wet: real, wetLevel: real, v: real)
    requires 0.0 <= wetLevel <= 1.0 && v == dry * (1.0 - wetLevel) + wet * wetLevel
    ensures dry <= wet ==> dry <= v <= wet
    ensures wet <= dry ==> wet <= v <= dry
  {
    assert v - dry == wetLevel * (wet - dry);
    assert wet - v == (1.0 - wetLevel) * (wet - dry);
    if dry <= wet {
      ProductNonNegative(wetLevel, wet - dry);
      ProductNonNegative(1.0 - wetLevel, wet - dry);
    } else {
      ProductNonNegative(wetLevel, dry - wet);
      ProductNonNegative(1.0 - wetLevel, dry - wet);
    }
  }

  lemma ProductNonNegative(a: real, b: real)
    requires a >= 0.0 && b >= 0.0
    ensures a * b >= 0.0
  {
  }

  /** Every sample of a mixed channel lies between its dry and wet samples. */
  lemma MixChannelBetween(dry: seq<real>, wet: seq<real>, wetLevel: real, i: int)
    requires |dry| == |wet| && 0.0 <= wetLevel <= 1.0 && 0 <= i < |dry|
    ensures dry[i] <= wet[i] ==> dry[i] <= MixChannel(dry, wet, wetLevel)[i] <= wet[i]
    ensures wet[i] <= dry[i] ==> wet[i] <= MixChannel(dry, wet, wetLevel)[i] <= dry[i]
  {
    MixSampleBetween(dry[i], wet[i], wetLevel, MixChannel(dry, wet, wetLevel)[i]);
  }

  /** With `wet_level = 0` the mix is the input itself. */
  lemma MixDryOnly(dry: Audio, wet: Audio)
    requires SameShape(dry, wet)
    ensures Mix(dry, wet, 0.0) == dry
  {
    match (dry, wet)
    case (Mono(x), Mono(y)) =>
      assert MixChannel(x, y, 0.0) == x;
    case (Multi(xs), Multi(ys)) =>
      var m := seq(|xs|, c requires 0 <= c < |xs| => MixChannel(xs[c], ys[c], 0.0));
      forall c | 0 <= c < |xs| ensures m[c] == xs[c] {
        assert MixChannel(xs[c], ys[c], 0.0) == xs[c];
      }
      assert m == xs;
  }

  /** With `wet_level = 1` the mix is the processed signal alone. */
  lemma MixWetOnly(dry: Audio, wet: Audio)
    requires SameShape(dry, wet)
    ensures Mix(dry, wet, 1.0) == wet
  {
    match (dry, wet)
    case (Mono(x), Mono(y)) =>
      assert MixChannel(x, y, 1.0) == y;
    case (Multi(xs), Multi(ys)) =>
      var m := seq(|xs|, c requires 0 <= c < |xs| => MixChannel(xs[c], ys[c], 1.0));
      forall c | 0 <= c < |xs| ensures m[c] == ys[c] {
        assert MixChannel(xs[c], ys[c], 1.0) == ys[c];
      }
      assert m == ys;
  }
}
