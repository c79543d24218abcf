/** `AudioProcessor.apply_effect`'s dispatch from an effect name and an
    intensity to one effect call with its parameters, the name it saves the
    result under, and `convert_to_mp3`'s bitrate table and output name. */
module Processor {
  import Text

  datatype Result<T> = Ok(value: T) | Err(message: string)

  /** The names `apply_effect` recognises, in the order it tests them. */
  const EffectNames: seq<string> :=
    ["reverb", "echo", "chorus", "distortion", "compressor", "equalizer", "delay"]

  /** One call of an `apply_*` method with the keyword arguments it gets;
      parameters the dispatch leaves out are at the method's default. */
  datatype EffectCall =
    | Reverb(roomSize: real, damping: real, wetLevel: real)
    | Echo(delay: real, decay: real, wetLevel: real)
    | Chorus(rate: real, depth: real, wetLevel: real)
    | Distortion(gain: real, wetLevel: real)
    | Compressor(threshold: real, ratio: real, wetLevel: real)
    | Equalizer(lowGain: real, midGain: real, highGain: real, wetLevel: real)

  /** The if-chain on `effect_name.lower()`, with `intensity / 100` mapped
      linearly onto each effect's parameters; any other name is a
      `ValueError`. For intensities in [0, 100] every wet level lies in
      [0, 1], the compressor threshold in [0.3, 0.8] and every echo shift is
      positive. */
  function SelectEffect(effectName: string, intensity: real): (r: Result<EffectCall>)
    ensures r.Ok? <==> Text.Lower(effectName) in EffectNames
    ensures r.Err? ==> r.message == "Unknown effect: " + effectName
    ensures r.Ok? && r.value.Reverb? <==> Text.Lower(effectName) == "reverb"
    ensures r.Ok? && r.value.Echo? <==> Text.Lower(effectName) == "echo" || Text.Lower(effectName) == "delay"
    ensures r.Ok? && r.value.Chorus? <==> Text.Lower(effectName) == "chorus"
    ensures r.Ok? && r.value.Distortion? <==> Text.Lower(effectName) == "distortion"
    ensures r.Ok? && r.value.Compressor? <==> Text.Lower(effectName) == "compressor"
    ensures r.Ok? && r.value.Equalizer? <==> Text.Lower(effectName) == "equalizer"
    ensures r.Ok? && 0.0 <= intensity <= 100.0 ==> 0.0 <= r.value.wetLevel <= 1.0
    ensures r.Ok? && r.value.Compressor? && 0.0 <= intensity <= 100.0 ==>
      0.3 <= r.value.threshold <= 0.8 && r.value.ratio == 4.0
    ensures r.Ok? && r.value.Echo? && 0.0 <= intensity ==> r.value.delay >= 0.2
  {
    var name := Text.Lower(effectName);
    var level := intensity / 100.0;
    if name == "reverb" then
      Ok(Reverb(level, 0.5, level * 0.5))
    else if name == "echo" then
      Ok(Echo(0.2 + level * 0.5, 0.5, level * 0.6))
    else if name == "chorus" then
      Ok(Chorus(1.0 + level * 2.0, 0.002, level * 0.7))
    else if name == "distortion" then
      Ok(Distortion(1.0 + level * 4.0, level))
    else if name == "compressor" then
      Ok(Compressor(0.8 - level * 0.5, 4.0, level))
    else if name == "equalizer" then
      Ok(Equalizer(0.5 + level, 1.0 + (level - 0.5) * 0.5, 0.7 + level * 0.6, level))
    else if name == "delay" then
      Ok(Echo(0.5 + level * 1.0, 0.3 + level * 0.4, level * 0.5))
    else
      Err("Unknown effect: " + effectName)
  }

  /** The effect name is matched without regard to ASCII case. */
  lemma SelectEffectIgnoresCase(effectName: string, intensity: real)
    ensures SelectEffect(effectName, intensity).Ok? == SelectEffect(Text.Lower(effectName), intensity).Ok?
    ensures SelectEffect(effectName, intensity).Ok? ==>
      SelectEffect(effectName, intensity) == SelectEffect(Text.Lower(effectName), intensity)
  {
    Text.LowerIdempotent(effectName);
  }

  /** Turning the intensity up never makes an effect drier, and never raises
      the compressor's threshold. */
  lemma IntensityMonotone(effectName: string, lo: real, hi: real)
    requires lo <= hi
    requires SelectEffect(effectName, lo).Ok?
    ensures SelectEffect(effectName, hi).Ok?
    ensures SelectEffect(effectName, lo).value.wetLevel <= SelectEffect(effectName, hi).value.wetLevel
    ensures SelectEffect(effectName, lo).value.Compressor? ==>
      SelectEffect(effectName, hi).value.threshold <= SelectEffect(effectName, lo).value.threshold
  {
  }

  /** "delay" is the echo with a longer shift and a different decay. */
  lemma DelayIsLongerEcho(intensity: real)
    requires 0.0 <= intensity <= 100.0
    ensures SelectEffect("delay", intensity).Ok? && SelectEffect("delay", intensity).value.Echo?
    ensures SelectEffect("echo", intensity).Ok? && SelectEffect("echo", intensity).value.Echo?
    ensures SelectEffect("delay", intensity).value.delay > SelectEffect("echo", intensity).value.delay
    ensures 0.3 <= SelectEffect("delay", intensity).value.decay <= 0.7
  {
    assert Text.Lower("delay") == "delay";
    assert Text.Lower("echo") == "echo";
  }

  /** `_{effect_name}_{int(intensity)}`: the effect name as given (not
      lower-cased) and the intensity truncated. */
  function EffectTag(effectName: string, intensity: real): (tag: string)
    ensures |tag| > 0 && Text.IsDigit(tag[|tag| - 1])
  {
    var digits := Text.IntToString(Text.Trunc(intensity));
    var tag := "_" + effectName + "_" + digits;
    assert tag[|tag| - 1] == digits[|digits| - 1];
    tag
  }

  /** `f"{base_name}_{effect_name}_{int(intensity)}.wav"`. */
  function EffectOutputName(filename: string, effectName: string, intensity: real): (r: string)
    ensures Text.SplitExt(r) == (Text.Root(filename) + EffectTag(effectName, intensity), ".wav")
  {
    var base := Text.Root(filename);
    var tag := EffectTag(effectName, intensity);
    Text.SplitExtTagged(base, tag, ".wav");
    base + tag + ".wav"
  }

  /** `apply_effect` after loading: the selected call and the output name, or
      the `ValueError` for an unknown effect. */
  function ApplyEffect(filename: string, effectName: string, intensity: real): (r: Result<(EffectCall, string)>)
    ensures r.Ok? <==> Text.Lower(effectName) in EffectNames
    ensures r.Ok? ==> r.value.0 == SelectEffect(effectName, intensity).value
    ensures r.Ok? ==>
      Text.SplitExt(r.value.1) == (Text.Root(filename) + EffectTag(effectName, intensity), ".wav")
    ensures r.Err? ==> r.message == "Unknown effect: " + effectName
  {
    match SelectEffect(effectName, intensity)
    case Ok(call) => Ok((call, EffectOutputName(filename, effectName, intensity)))
    case Err(message) => Err(message)
  }

  /** The intensity in the name is the digits of its integer part. */
  lemma OutputNameDigits(intensity: real)
    requires intensity >= 0.0
    ensures Text.IntToString(Text.Trunc(intensity)) == Text.NatToString(intensity.Floor)
    ensures Text.DecimalValue(Text.NatToString(intensity.Floor)) as real <= intensity
  {
    Text.DecimalRoundTrip(intensity.Floor);
  }

  // ------------------------------------------------------- convert_to_mp3

  /** The default arguments `intensity=50` of `apply_effect` and
      `quality='high'` of `convert_to_mp3`. */
  const DefaultIntensity: real := 50.0
  const DefaultQuality: string := "high"

  /** With the default intensity the output is tagged `_<effect>_50`. */
  lemma DefaultIntensityTag(effectName: string)
    ensures EffectTag(effectName, DefaultIntensity) == "_" + effectName + "_50"
  {
    assert Text.Trunc(DefaultIntensity) == 50;
    assert Text.NatToString(5) == "5";
    assert Text.NatToString(50) == "50";
  }

  const BitrateMap: map<string, string> := map["low" := "128k", "medium" := "192k", "high" := "320k"]

  /** `bitrate_map.get(quality, '192k')`. */
  function Bitrate(quality: string): (b: string)
    ensures quality == "low" ==> b == "128k"
    ensures quality == "medium" ==> b == "192k"
    ensures quality == "high" ==> b == "320k"
    ensures quality !in {"low", "medium", "high"} ==> b == "192k"
  {
    if quality in BitrateMap then BitrateMap[quality] else "192k"
  }

  /** With the default quality the MP3 is written at 320k. */
  lemma DefaultQualityBitrate()
    ensures Bitrate(DefaultQuality) == "320k"
  {
  }

  /** Any quality the table does not know, including a differently-cased
      known one, gets the same bitrate as "medium". */
  lemma UnknownQualityIsMedium(quality: string)
    requires quality !in BitrateMap
    ensures Bitrate(quality) == Bitrate("medium")
    ensures Bitrate("HIGH") == "192k"
  {
    assert "HIGH" !in BitrateMap by {
      assert "HIGH" != "high";
    }
  }

  /** `os.path.splitext(wav_filename)[0] + '.mp3'`. */
  function Mp3Name(wavFilename: string): (r: string)
    ensures |r| >= 4 && r[|r| - 4..] == ".mp3"
  {
    Text.Root(wavFilename) + ".mp3"
  }

  /** A file name that has an extension keeps its base and gets ".mp3" in
      place of that extension. */
  lemma Mp3NameReplacesExtension(wavFilename: string)
    requires Text.SplitExt(wavFilename).1 != []
    ensures Text.SplitExt(Mp3Name(wavFilename)) == (Text.Root(wavFilename), ".mp3")
  {
    Text.SplitExtExtension(wavFilename);
    Text.SplitExtRoot(wavFilename);
    Text.SplitExtAppend(Text.Root(wavFilename), ".mp3");
  }
}
