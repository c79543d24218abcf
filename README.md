# LionsFlute audio core, modelled in Dafny

LionsFlute is a small Flask service. It accepts audio uploads, applies
effects to the audio, separates vocals from the instrumental, and hands out
download links. This project models the parts of that code that the program
itself computes:

- **`AudioProcessor` sample loops** (`audio_processor.py`):
  - the echo, mono and multi-channel; "delay" reuses it;
  - the chorus read-index loop;
  - the compressor's masked assignment;
  - the final dry/wet mix all three end with.
- **Vocal separation**, the program's own steps in `split_vocals_instruments`:
  - the down-mix to mono;
  - the 300 Hz–3000 Hz band edges;
  - the per-row mask loop;
  - the peak normalisation to 0.8;
  - the output names.
- **`apply_effect` dispatch**: the if-chain on the lower-cased effect name, the
  mapping from intensity to parameters, and the output name.
- **`convert_to_mp3`**: the bitrate table and the `.mp3` name.
- **Request handlers** (`app.py`):
  - `allowed_file`;
  - the validation chains and replies of `/upload`, `/split`, `/apply_fx`
    and `/download`.

Modules:

- `Text` (`text.dfy`): the Python runtime pieces the code relies on.
  - `str.lower`, ASCII only.
  - `os.path.splitext`, POSIX rules.
  - `str.rsplit('.', 1)`.
  - `int()` on a float.
  - Decimal formatting of an `int`.
- `Audio` (`audio.dfy`): sample buffers and the dry/wet mix.
- `Effects` (`effects.dfy`): echo, chorus and compressor. Each effect is a
  specification function, sample by sample, plus a method that does what the
  program does. The method fills a zeroed or copied array in place, channel
  by channel, and is proved equal to the function.
- `Separation` (`separation.dfy`): down-mix, band edges, masks (an `array2`
  filled by nested loops), normalisation and names.
- `Processor` (`processor.dfy`): `apply_effect` and `convert_to_mp3`.
- `App` (`app.dfy`): the handlers. `/split`, `/apply_fx` and `/download`
  are functions from the request's content to the status code and JSON
  object they reply with. `/upload` is modelled up to its decision: save the
  file under its sanitised name, or reject the request with a status and a
  message.

Samples are exact reals. Where the program truncates with `int(...)`, the
model truncates toward zero explicitly (`Text.Trunc`).

### Behaviour worth knowing

- **Peak normalisation.**
  - It happens only in `split_vocals_instruments`.
  - It always rescales to a peak of exactly 0.8, quiet signals included.
  - It rescales loud and quiet signals alike; it is not a clamp.
- **Intensity is never clamped.** Values outside 0..100 flow straight into the
  parameters. The range facts in `Processor.SelectEffect` are stated for
  intensities in 0..100.
- **`/apply_fx` and `/split` do not process anything.** They validate the
  request and build names. The names differ from those `AudioProcessor`
  would produce: `_processed.mp3` in place of `_<intensity>.wav`, and
  `_music` in place of `_instruments`.
- **There is no background task engine.** Every operation is a direct call.

### Compressor on negative samples

The compressor is not mirrored for negative samples. A sample below
`-threshold` is selected by the `abs(x) > threshold` mask. It is then mapped to
`threshold + (x - threshold) / ratio`, which lies between the sample and
`+threshold`. So a loud negative sample can come out positive; for example,
-1.0 with threshold 0.5 and ratio 4 becomes 0.125. The model keeps this
behaviour as written, and `Effects.CompressLoudNegative` states it.

## Model

| member | source | states |
|---|---|---|
| Text.LowerChar | app.py:33 | an upper-case ASCII letter becomes its lower-case partner, every other character stays, and no upper-case letter remains |
| Text.Lower | app.py:33 | lower-casing keeps the length; `LowerUnchanged` states when it leaves a string as it is |
| Text.LowerUnchanged | app.py:33 | a string is unchanged by lower-casing exactly when it has no upper-case ASCII letter |
| Text.LowerIdempotent | app.py:124 | lower-casing twice equals lower-casing once |
| Text.LastIndexOf | app.py:33 | the result is -1 or an index of the character, and no later index holds it |
| Text.SplitExt | audio_processor.py:124 | root and extension concatenate back to the path |
| Text.SplitExtExtension | audio_processor.py:385 | the extension is empty or a '.' followed by characters other than '.' and '/' |
| Text.SplitExtRoot | audio_processor.py:385 | when an extension is split off, the root's last component is not all dots |
| Text.LastIndexOfAppend | audio_processor.py:434 | after appending an extension, the last '.' is the extension's own and the last '/' is unchanged |
| Text.SplitExtAppend | audio_processor.py:434 | appending an extension to a name that has a name character is exactly undone by splitext |
| Text.SplitExtTagged | audio_processor.py:385-386 | base + tag + extension splits into (base + tag, extension) whenever the tag ends in an ordinary character |
| Text.ContainsIffFound | app.py:32 | a name contains '.' exactly when a last '.' is found |
| Text.AfterLastDot | app.py:33 | `rsplit('.', 1)[1]` is the suffix that directly follows a '.', and contains no '.' |
| Text.LowerKeepsLastDot | app.py:33 | lower-casing a name does not move its last '.' |
| Text.NatToString | audio_processor.py:386 | the decimal text of an int is non-empty, all digits, and starts with '0' only for zero |
| Text.DecimalRoundTrip | audio_processor.py:386 | reading the printed digits back gives the number |
| Text.IntToString | audio_processor.py:386 | the text ends in a digit and starts with '-' exactly for negative numbers; the digits (after the '-' for a negative number) read back as the number's magnitude |
| Text.Trunc | audio_processor.py:180 | `int()` of a real truncates toward zero: the floor for non-negative values, the ceiling for negative ones |
| Audio.MixChannel | audio_processor.py:198 | one mixed sample per dry sample |
| Audio.Mix | audio_processor.py:198 | the mix has the dry input's shape, mono or channel by channel |
| Audio.MixSampleBetween | audio_processor.py:198 | for a wet level in [0, 1] a mixed sample lies between its dry and its wet sample |
| Audio.MixChannelBetween | audio_processor.py:198 | every sample of a mixed channel lies between its dry and wet samples, for a wet level in [0, 1] |
| Audio.MixDryOnly | audio_processor.py:198 | with wet level 0 the mix returns the dry input |
| Audio.MixWetOnly | audio_processor.py:198 | with wet level 1 the mix returns the processed signal |
| Effects.DelaySamples | audio_processor.py:180 | for a non-negative product the shift is the largest integer not above delay × sample rate; a product in (-1, 0) truncates to a shift of 0 |
| Effects.Echoed | audio_processor.py:184-187 | the reference echo of one channel, sample by sample, has one output sample per input sample |
| Effects.CopyPrefix | audio_processor.py:185 | the first len(x) cells of the buffer hold x and the rest are unchanged |
| Effects.AddShifted | audio_processor.py:186 | cells from d on gain decay × the input sample d earlier; cells before d are unchanged |
| Effects.EchoChannel | audio_processor.py:184-187 | the zeroed buffer, the copy, the shifted add and the cut compute exactly `Echoed`: the first d samples are the input and every later one adds decay × the sample d earlier |
| Effects.EchoedAudio | audio_processor.py:182-195 | the mono branch echoes the one channel and the multi-channel branch each row; the result has the input's shape |
| Effects.ApplyEcho | audio_processor.py:175-198 | the result is the dry input mixed with the echo of every channel, mono or multi-channel, at the truncated delay |
| Effects.EchoLongDelay | audio_processor.py:186-187 | a shift at least as long as the signal leaves it unchanged |
| Effects.EchoNoDecay | audio_processor.py:186 | zero decay leaves the signal unchanged |
| Effects.ReadIndex | audio_processor.py:218 | the read index is `i - offset` clamped below at 0 |
| Effects.Chorused | audio_processor.py:216-220 | the reference chorus of one channel, sample by sample, has one output sample per input sample |
| Effects.ChorusChannel | audio_processor.py:216-220 | sample i copies the input at its read index when that index is inside the signal and is 0 otherwise |
| Effects.ChorusedAudio | audio_processor.py:214-228 | the mono branch applies the chorus to the one channel and the multi-channel branch to each row with the same offsets; the result has the input's shape |
| Effects.ApplyChorus | audio_processor.py:210-231 | the result is the dry input mixed with the chorus of every channel, all channels reading through the same LFO offsets |
| Effects.ChorusLooksBack | audio_processor.py:218-220 | with a non-negative offset every sample is read from its own index or an earlier one |
| Effects.ChorusZeroOffsets | audio_processor.py:217-220 | a flat LFO makes the chorus the identity |
| Effects.Compress | audio_processor.py:261-262 | samples whose magnitude is at most the threshold pass unchanged; with a ratio of at least 1, samples above it land between the threshold and themselves, for any threshold |
| Effects.CompressLoudNegative | audio_processor.py:261-262 | a sample below -threshold comes out between itself and +threshold, e.g. -1.0 → 0.125 at threshold 0.5 and ratio 4 |
| Effects.Compressed | audio_processor.py:257-262 | the reference compression of one channel, sample by sample, has one output sample per input sample |
| Effects.CompressChannel | audio_processor.py:257-262 | after the copy and the masked loop every sample is unchanged or compressed, exactly as the mask decides |
| Effects.CompressedAudio | audio_processor.py:259-267 | the mono branch compresses the one channel and the multi-channel branch each row; the result has the input's shape |
| Effects.ApplyCompressor | audio_processor.py:252-270 | the result is the dry input mixed with the compressed version of every channel |
| Separation.ToMono | audio_processor.py:77-80 | the down-mix has one sample per frame, and a mono input passes through unchanged |
| Separation.SumConstant | audio_processor.py:78 | summing n copies of v gives n × v |
| Separation.SumBetween | audio_processor.py:78 | a sum of n samples in [lo, hi] lies between n × lo and n × hi |
| Separation.ToMonoWithinColumn | audio_processor.py:77-78 | each down-mixed sample is a mean: it lies between the least and greatest sample of its frame across the channels |
| Separation.ToMonoOfCopies | audio_processor.py:77-78 | down-mixing identical channels gives that channel |
| Separation.VocalBandStart | audio_processor.py:97 | the start row is 300 Hz as a bin number, 600 × bins / sample rate, rounded down |
| Separation.VocalBandEnd | audio_processor.py:98 | the end row is 3000 Hz as a bin number, 6000 × bins / sample rate, rounded down |
| Separation.VocalBandOrdered | audio_processor.py:97-98 | the band start never exceeds the band end, and neither exceeds its frequency converted to bins |
| Separation.VocalBandAt44100 | audio_processor.py:92-98 | with 1025 bins at 44100 Hz the vocal band is rows 13 through 139 |
| Separation.MaskSettings | audio_processor.py:101-109 | a row gets vocal 1.5 and instrumental 0.3 exactly when it is in the band, and 0.4 and 1.2 exactly when it is not |
| Separation.BuildMasks | audio_processor.py:92-109 | both masks have the spectrum's shape, and every cell of a row holds that row's gain |
| Separation.Peak | audio_processor.py:120 | the peak bounds every sample's magnitude and is attained by some sample |
| Separation.Normalize | audio_processor.py:120-121 | normalising keeps the length, and no sample's magnitude exceeds 0.8 |
| Separation.NormalizedPeak | audio_processor.py:120-121 | after normalisation the largest magnitude is exactly 0.8 |
| Separation.NormalizeIdempotent | audio_processor.py:120-121 | normalising a normalised signal changes nothing |
| Separation.NormalizeKeepsShape | audio_processor.py:120-121 | every sample keeps its sign, and its value relative to the peak |
| Separation.SeparationNames | audio_processor.py:124-126 | the two output names; `SeparationNamesSplit` states their shape |
| Separation.SeparationNamesSplit | audio_processor.py:124-126 | each output name splits into the input's root plus `_vocals` or `_instruments`, with extension `.wav` |
| Processor.SelectEffect | audio_processor.py:330-382 | the name is accepted exactly when its lower-cased form is one of the seven effects, otherwise `Unknown effect: <name>`; each effect is selected exactly by its own names, "echo" and "delay" both selecting the echo; for intensities 0..100 every wet level is in [0, 1], the compressor threshold in [0.3, 0.8] with ratio 4, and the echo delay at least 0.2 s |
| Processor.SelectEffectIgnoresCase | audio_processor.py:333-374 | the name's case does not change whether it is accepted or what it selects |
| Processor.IntensityMonotone | audio_processor.py:330-380 | raising the intensity never lowers the wet level and never raises the compressor threshold |
| Processor.DelayIsLongerEcho | audio_processor.py:338-343 | for the same intensity "delay" shifts further than "echo", with decay between 0.3 and 0.7 |
| Processor.EffectTag | audio_processor.py:386 | the tag `_<effect>_<int(intensity)>` is non-empty and ends in a digit |
| Processor.EffectOutputName | audio_processor.py:385-386 | the output name splits into the input's root followed by `_<effect>_<int(intensity)>`, with the effect name as given, and `.wav` |
| Processor.ApplyEffect | audio_processor.py:321-386 | it succeeds exactly for the known effects, with the selected call and a name that splits into `<base>_<effect>_<int(intensity)>` and `.wav`; otherwise it fails with `Unknown effect: <name>` |
| Processor.OutputNameDigits | audio_processor.py:386 | for a non-negative intensity the number in the name is its integer part and does not exceed it |
| Processor.Bitrate | audio_processor.py:441-446 | low, medium and high map to 128k, 192k and 320k, and anything else to 192k |
| Processor.UnknownQualityIsMedium | audio_processor.py:446 | an unknown quality, including an upper-case "HIGH", gets the medium bitrate |
| Processor.DefaultIntensityTag | audio_processor.py:321-386 | with the default intensity 50 the output tag is `_<effect>_50` |
| Processor.DefaultQualityBitrate | audio_processor.py:430-446 | with the default quality "high" the bitrate is 320k |
| Processor.Mp3Name | audio_processor.py:434 | the MP3 name ends in `.mp3` |
| Processor.Mp3NameReplacesExtension | audio_processor.py:434 | a name with an extension keeps its root and gets `.mp3` in place of that extension |
| App.LastDotIsLastIndex | app.py:33 | the last '.' of a name is the position `rsplit` splits at |
| App.AllowedFile | app.py:30-33 | an allowed name contains a '.' and does not end in one |
| App.AllowedFileMeans | app.py:30-33 | a name is allowed exactly when it has a '.' and the lower-cased text after its last '.' is mp3, wav, flac, aac or m4a |
| App.AllowedFileAccepts | app.py:21-33 | `a.WAV` and `mix.final.Flac` pass |
| App.AllowedFileRejects | app.py:21-33 | `wav`, `a.`, `song.mp3.txt` and the empty name do not pass |
| App.AllowedExtensionIgnoresCase | app.py:33 | lower-casing an extension does not change whether it is allowed |
| App.AllowedFileByTail | app.py:32-33 | once the last '.' is found, only the text after it decides |
| App.AllowedFileIgnoresCase | app.py:33 | lower-casing a name does not change whether it is allowed |
| App.Upload | app.py:42-70 | the file is saved, under its sanitised name, exactly when the part exists, is named and is allowed; every other outcome is a 400, the first failing check deciding which: "No file part in request", then "No file selected" for an empty name, then the file-type message listing MP3, WAV, FLAC, AAC and M4A |
| App.Split | app.py:76-100 | 200 exactly for a non-empty body whose filename is a string, with the two derived names and the original; a missing body or filename is the 400; a non-string filename, on which splitext raises, is the 500 "Audio splitting failed" |
| App.SplitNames | app.py:86-94 | the vocal and music names; `SplitNamesShareBase` states their shape |
| App.SplitNamesShareBase | app.py:86-94 | both derived names split into the input's root plus `_vocals` or `_music`, with extension `.mp3` |
| App.ApplyFx | app.py:102-140 | the checks run in the order body, effect, filename, supported effect; 200 exactly when all pass, with the output name, the effect as given and the intensity defaulting to 50; an unsupported effect is the 400 listing the supported ones; a non-string effect, or a non-string filename with a supported effect, is the 500 "Effect application failed" |
| App.ApplyFxReportsEffectFirst | app.py:111-115 | a request missing both the effect and the filename is answered "Effect name required" |
| App.FxOutputName | app.py:129-130 | the output name; `FxOutputNameSplits` states its shape |
| App.FxOutputNameSplits | app.py:129-130 | the output name splits into the input's root, the effect as given and `_processed`, with extension `.mp3` |
| App.SupportedMatchesProcessor | app.py:122-124 | the handler accepts exactly the effect names `apply_effect` can dispatch |
| App.Download | app.py:146-165 | 200 exactly when the sanitised name is allowed, with the link being the fixed prefix followed by that name; otherwise "Invalid filename" |
| App.DownloadLinkShape | app.py:157-163 | every link handed out is the prefix followed by an allowed file name |

## Left out

- Loading and saving files, pydub export, logging and the Flask plumbing:
  these are I/O. The handlers are modelled on the request content they read.
- `secure_filename` is a parameter (`sanitize`) with no assumed behaviour,
  because its code is not part of this model.
- The file size in the `/upload` reply is not modelled, because it comes
  from the file system.
- Reverb, distortion and the equalizer are not modelled. Their bodies are
  SciPy's `signal.convolve` with an `np.random.normal` impulse response,
  `np.tanh`, and Butterworth filters from SciPy. Their
  parameters from the dispatch are modelled in `Processor.SelectEffect`.
- The spectral part of separation is not modelled: hpss, stft, istft, and
  applying the masks to magnitude and phase. These are librosa and complex
  floating point. The masks and the steps around them are modelled.
- `demo_generator.py`, `get_audio_info`, `/status` and the home page are not
  part of this model.
- Samples are exact reals, so float rounding, NaN and infinities are not
  modelled.
- Effects.ApplyChorus: the sine LFO is computed with `np.sin`. Its per-sample
  integer offsets are therefore a parameter, not computed from rate, depth and
  sample rate.
- Effects.DelaySamples and Effects.ApplyEcho: require delay × sample rate
  above -1. Intensity is never clamped, so a caller can pass a negative
  delay. A product in (-1, 0) truncates to 0 and is modelled. A lower one
  gives a negative shift: numpy then raises, either when copying the input
  into the shorter zero buffer or in `np.zeros` when the shift exceeds the
  length, and `apply_echo` re-raises. That failure path is not modelled.
- Effects.Compress, Effects.CompressChannel and Effects.ApplyCompressor:
  require a non-zero ratio. With a zero ratio numpy produces infinities,
  which reals cannot represent.
- Separation.Peak and Separation.Normalize: require a non-empty signal. On an
  empty one (any input shorter than 512 samples) `np.max` raises ValueError,
  which `split_vocals_instruments` re-raises. That failure path is not
  modelled.
- Separation.Normalize: requires a signal with a non-zero peak. A silent
  signal makes numpy divide zero by zero, giving NaN samples, which reals
  cannot represent.
- Separation.VocalBandStart, Separation.VocalBandEnd and
  Separation.BuildMasks: require a positive sample rate, because the program
  divides by it.
- Processor.ApplyEffect: returns the selected effect call and the output
  name instead of running the effect and saving the result. The effects
  with visible bodies are modelled in `Effects`.
- Text.LowerChar and Text.Lower: lower-case ASCII letters only. Python's full Unicode
  case mapping is not modelled.
- App.Split and App.ApplyFx:
  - Only JSON objects, or no usable JSON at all, are modelled. An array or
    scalar body, and the exceptions it raises, are not.
  - A non-string effect or filename is modelled as the handler's 500 reply.
  - A `request.get_json()` that raises is not modelled. Flask 2.1 and later
    raise on a body that is not JSON-typed or is malformed, and the handler's
    `except` turns that into its 500 reply ("Audio splitting failed" or
    "Effect application failed"). The model's `NoJson` covers only the cases
    where `get_json()` returns `None`.
