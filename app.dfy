/** The request handlers of the Flask application: the upload-extension
    check, and the validation chains and name building of `/upload`,
    `/split`, `/apply_fx` and `/download`. The JSON handlers are functions
    from the request's content to the status and JSON object they reply
    with; `/upload` is modelled up to its decision to save or reject. */
module App {
  import Text
  import Processor

  // ------------------------------------------------------------ requests

  /** A JSON value as far as the handlers look into it. */
  datatype Json = JString(text: string) | JNumber(number: real) | JOther

  /** What `request.get_json()` returned: `None` (no body, or a body Flask
      declines to parse silently), or a JSON object. A `get_json()` that
      raises is not modelled. */
  datatype Body = NoJson | Object(fields: map<string, Json>)

  /** `not data` is false only for a non-empty object. */
  predicate Present(body: Body) { body.Object? && |body.fields| > 0 }

  /** A `jsonify(...)` reply with its status code. */
  datatype Reply = Reply(status: nat, fields: map<string, Json>)

  function ErrorReply(status: nat, message: string): Reply
  {
    Reply(status, map["error" := JString(message)])
  }

  // -------------------------------------------------------- allowed_file

  const AllowedExtensions: set<string> := {"mp3", "wav", "flac", "aac", "m4a"}

  /** `'.' in filename and filename.rsplit('.', 1)[1].lower() in
      ALLOWED_EXTENSIONS`, where `'.' in filename` is written as finding a
      last '.' (the two agree by `Text.ContainsIffFound`). */
  function AllowedFile(filename: string): (b: bool)
    ensures b ==> '.' in filename && filename[|filename| - 1] != '.'
  {
    Text.ContainsIffFound(filename, '.');
    Text.LastIndexOf(filename, '.') >= 0 && AllowedExtension(Text.AfterLastDot(filename))
  }

  /** The extension, lower-cased, is one of the five. */
  predicate AllowedExtension(ext: string)
  {
    Text.Lower(ext) in AllowedExtensions
  }

  lemma AllowedExtensionIgnoresCase(ext: string)
    ensures AllowedExtension(Text.Lower(ext)) == AllowedExtension(ext)
  {
    Text.LowerIdempotent(ext);
  }

  /** Position k holds the last '.' of the name. */
  predicate LastDotAt(filename: string, k: int)
  {
    0 <= k < |filename| && filename[k] == '.' && '.' !in filename[k + 1..]
  }

  lemma LastDotIsLastIndex(filename: string, k: int)
    requires LastDotAt(filename, k)
    ensures Text.LastIndexOf(filename, '.') == k
  {
    forall i | k < i < |filename| ensures filename[i] != '.' {
      assert filename[i] == filename[k + 1..][i - k - 1];
    }
    Text.LastIndexOfUnique(filename, '.', k);
  }

  /** A name is accepted exactly when it has a '.' and the text after its
      last '.', lower-cased, is one of the five extensions. */
  lemma AllowedFileMeans(filename: string)
    ensures AllowedFile(filename) <==>
      exists k :: LastDotAt(filename, k) && Text.Lower(filename[k + 1..]) in AllowedExtensions
  {
    var k := Text.LastIndexOf(filename, '.');
    if k >= 0 {
      assert Text.AfterLastDot(filename) == filename[k + 1..];
      assert LastDotAt(filename, k);
      forall j | LastDotAt(filename, j) ensures j == k {
        LastDotIsLastIndex(filename, j);
      }
    }
  }

  /** Upper-case extensions pass, and only the text after the last '.' counts. */
  lemma AllowedFileAccepts()
    ensures AllowedFile("a.WAV")
    ensures AllowedFile("mix.final.Flac")
  {
    LastDotIsLastIndex("a.WAV", 1);
    assert "a.WAV"[2..] == "WAV" && Text.Lower("WAV") == "wav";
    LastDotIsLastIndex("mix.final.Flac", 9);
    assert "mix.final.Flac"[10..] == "Flac" && Text.Lower("Flac") == "flac";
  }

  /** A name without '.', with nothing after the last '.', or with another
      extension after an allowed one, does not pass. */
  lemma AllowedFileRejects()
    ensures !AllowedFile("wav")
    ensures !AllowedFile("a.")
    ensures !AllowedFile("song.mp3.txt")
    ensures !AllowedFile("")
  {
    Text.LastIndexOfUnique("wav", '.', -1);
    LastDotIsLastIndex("a.", 1);
    assert Text.Lower("") == "";
    LastDotIsLastIndex("song.mp3.txt", 8);
    assert "song.mp3.txt"[9..] == "txt" && Text.Lower("txt")[0] == 't';
  }

  /** Once the last '.' is known, only the text after it decides. */
  lemma AllowedFileByTail(filename: string, k: int)
    requires k >= 0 && Text.LastIndexOf(filename, '.') == k
    ensures AllowedFile(filename) == AllowedExtension(filename[k + 1..])
  {
    assert Text.AfterLastDot(filename) == filename[k + 1..];
  }

  /** The check does not depend on the case of the name. */
  lemma AllowedFileIgnoresCase(filename: string)
    ensures AllowedFile(Text.Lower(filename)) == AllowedFile(filename)
  {
    var low := Text.Lower(filename);
    var k := Text.LastIndexOf(filename, '.');
    Text.LowerKeepsLastDot(filename);
    if k >= 0 {
      LowerNameTail(filename, k);
    }
  }

  /** With its last '.' at k, the lower-cased name is allowed exactly when the
      name is. */
  lemma LowerNameTail(filename: string, k: int)
    requires k >= 0 && Text.LastIndexOf(filename, '.') == k
    requires Text.LastIndexOf(Text.Lower(filename), '.') == k
    ensures AllowedFile(Text.Lower(filename)) == AllowedFile(filename)
  {
    var tail := filename[k + 1..];
    var low := Text.Lower(filename);
    Text.LowerSuffix(filename, k + 1);
    AllowedExtensionIgnoresCase(tail);
    assert AllowedExtension(low[k + 1..]) == AllowedExtension(tail);
    AllowedFileByTail(filename, k);
    AllowedFileByTail(low, k);
  }

  // ------------------------------------------------------------- /upload

  /** What `/upload` decides before touching the disk. */
  datatype UploadDecision = UploadRejected(status: nat, error: string) | SaveAs(name: string)

  /** The file part must exist, have a name, and have an allowed extension;
      the file is then stored under the sanitised name. */
  function Upload(hasFilePart: bool, filename: string, sanitize: string -> string): (d: UploadDecision)
    ensures d.SaveAs? <==> hasFilePart && filename != [] && AllowedFile(filename)
    ensures d.SaveAs? ==> d.name == sanitize(filename)
    ensures d.UploadRejected? ==> d.status == 400
    ensures !hasFilePart ==> d == UploadRejected(400, "No file part in request")
    ensures hasFilePart && filename == [] ==> d == UploadRejected(400, "No file selected")
    ensures hasFilePart && filename != [] && !AllowedFile(filename) ==>
      d == UploadRejected(400, "File type not allowed. Supported formats: MP3, WAV, FLAC, AAC, M4A")
  {
    if !hasFilePart then UploadRejected(400, "No file part in request")
    else if filename == [] then UploadRejected(400, "No file selected")
    else if !AllowedFile(filename) then
      UploadRejected(400, "File type not allowed. Supported formats: MP3, WAV, FLAC, AAC, M4A")
    else SaveAs(sanitize(filename))
  }

  // -------------------------------------------------------------- /split

  /** `/split`: a body with a file name gets the two derived names back. */
  function Split(body: Body): (r: Reply)
    ensures r.status == 200 <==> Present(body) && "filename" in body.fields && body.fields["filename"].JString?
    ensures !(Present(body) && "filename" in body.fields) ==>
      r == ErrorReply(400, "Filename required in request body")
    ensures Present(body) && "filename" in body.fields && !body.fields["filename"].JString? ==>
      r == ErrorReply(500, "Audio splitting failed")
    ensures r.status == 200 ==>
      var names := SplitNames(body.fields["filename"].text);
      && "vocals" in r.fields && r.fields["vocals"] == JString(names.0)
      && "music" in r.fields && r.fields["music"] == JString(names.1)
      && "original" in r.fields && r.fields["original"] == body.fields["filename"]
  {
    if !Present(body) || "filename" !in body.fields then
      ErrorReply(400, "Filename required in request body")
    else
      match body.fields["filename"]
      case JString(filename) =>
        var names := SplitNames(filename);
        Reply(200, map[
          "message" := JString("Audio split successfully"),
          "vocals" := JString(names.0),
          "music" := JString(names.1),
          "original" := JString(filename)])
      case _ =>
        // os.path.splitext raises on a non-string, caught by the handler
        ErrorReply(500, "Audio splitting failed")
  }

  /** `f'{base_name}_vocals.mp3'` and `f'{base_name}_music.mp3'`. */
  function SplitNames(filename: string): (string, string)
  {
    var base := Text.Root(filename);
    (base + "_vocals" + ".mp3", base + "_music" + ".mp3")
  }

  /** Both names come from the same base and split back into it. */
  lemma SplitNamesShareBase(filename: string)
    ensures Text.SplitExt(SplitNames(filename).0) == (Text.Root(filename) + "_vocals", ".mp3")
    ensures Text.SplitExt(SplitNames(filename).1) == (Text.Root(filename) + "_music", ".mp3")
  {
    var base := Text.Root(filename);
    Text.SplitExtTagged(base, "_vocals", ".mp3");
    Text.SplitExtTagged(base, "_music", ".mp3");
  }

  // ----------------------------------------------------------- /apply_fx

  /** `supported_effects`, in the order the error message lists them. */
  const SupportedEffects: seq<string> :=
    ["reverb", "echo", "distortion", "chorus", "delay", "compressor", "equalizer"]

  /** The 400 answer for an effect outside `supported_effects`, which
      lists the names joined by ", ". */
  const UnsupportedMessage: string :=
    "Effect not supported. Available effects: reverb, echo, distortion, chorus, delay, compressor, equalizer"

  /** The request is complete enough for `/apply_fx` to answer 200. */
  predicate FxAccepted(body: Body)
  {
    && Present(body)
    && "effect" in body.fields && "filename" in body.fields
    && body.fields["effect"].JString? && Text.Lower(body.fields["effect"].text) in SupportedEffects
    && body.fields["filename"].JString?
  }

  /** `f'{base_name}_{effect_name}_processed.mp3'`. */
  function FxOutputName(filename: string, effect: string): string
  {
    Text.Root(filename) + "_" + effect + "_processed" + ".mp3"
  }

  /** The output name splits back into the input's base, the effect as
      given, and ".mp3". */
  lemma FxOutputNameSplits(filename: string, effect: string)
    ensures Text.SplitExt(FxOutputName(filename, effect)) ==
      (Text.Root(filename) + "_" + effect + "_processed", ".mp3")
  {
    Text.SplitExtTagged(Text.Root(filename) + "_" + effect, "_processed", ".mp3");
  }

  /** `/apply_fx`: no JSON, then no effect, then no file name, then an
      unsupported effect; the first failing check decides the error. The
      intensity is not checked and defaults to 50. A non-string effect or
      file name makes the handler's own code raise, which it reports as a
      500. */
  function ApplyFx(body: Body): (r: Reply)
    ensures r.status == 200 <==> FxAccepted(body)
    ensures !Present(body) ==> r == ErrorReply(400, "JSON data required")
    ensures Present(body) && "effect" !in body.fields ==> r == ErrorReply(400, "Effect name required")
    ensures Present(body) && "effect" in body.fields && "filename" !in body.fields ==>
      r == ErrorReply(400, "Filename required")
    ensures Present(body) && "effect" in body.fields && "filename" in body.fields ==>
      var effect := body.fields["effect"];
      && (!effect.JString? ==> r == ErrorReply(500, "Effect application failed"))
      && (effect.JString? && Text.Lower(effect.text) !in SupportedEffects ==> r == ErrorReply(400, UnsupportedMessage))
      && (effect.JString? && Text.Lower(effect.text) in SupportedEffects && !body.fields["filename"].JString? ==>
            r == ErrorReply(500, "Effect application failed"))
    ensures r.status == 200 ==>
      var effect := body.fields["effect"].text;
      && "output_file" in r.fields
      && r.fields["output_file"] == JString(FxOutputName(body.fields["filename"].text, effect))
      && "effect" in r.fields && r.fields["effect"] == JString(effect)
      && "intensity" in r.fields && r.fields["intensity"] == (if "intensity" in body.fields then body.fields["intensity"] else JNumber(50.0))
  {
    if !Present(body) then ErrorReply(400, "JSON data required")
    else if "effect" !in body.fields then ErrorReply(400, "Effect name required")
    else if "filename" !in body.fields then ErrorReply(400, "Filename required")
    else
      var effectValue := body.fields["effect"];
      var filenameValue := body.fields["filename"];
      var intensity := if "intensity" in body.fields then body.fields["intensity"] else JNumber(50.0);
      if !effectValue.JString? then
        // `.lower()` on a non-string raises, caught by the handler
        ErrorReply(500, "Effect application failed")
      else if Text.Lower(effectValue.text) !in SupportedEffects then
        ErrorReply(400, UnsupportedMessage)
      else if !filenameValue.JString? then
        // os.path.splitext raises on a non-string, caught by the handler
        ErrorReply(500, "Effect application failed")
      else
        var effect := effectValue.text;
        Reply(200, map[
          "message" := JString(effect + " applied successfully"),
          "output_file" := JString(FxOutputName(filenameValue.text, effect)),
          "effect" := JString(effect),
          "intensity" := intensity,
          "original_file" := filenameValue])
  }

  /** A request missing both the effect and the file name is reported as
      missing the effect. */
  lemma ApplyFxReportsEffectFirst(fields: map<string, Json>)
    requires |fields| > 0 && "effect" !in fields && "filename" !in fields
    ensures ApplyFx(Object(fields)) == ErrorReply(400, "Effect name required")
  {
  }

  /** The web layer accepts exactly the effect names the processor can
      apply, though it lists them in another order. */
  lemma SupportedMatchesProcessor(effect: string, intensity: real)
    ensures Text.Lower(effect) in SupportedEffects <==> Processor.SelectEffect(effect, intensity).Ok?
  {
    assert forall n :: n in SupportedEffects <==> n in Processor.EffectNames;
  }

  // ----------------------------------------------------------- /download

  const DownloadPrefix: string := "https://example.com/static/"

  /** `/download/<filename>`: the sanitised name must be non-empty and have
      an allowed extension; the link is the fixed prefix and that name. */
  function Download(filename: string, sanitize: string -> string): (r: Reply)
    ensures r.status == 200 <==> AllowedFile(sanitize(filename))
    ensures r.status != 200 ==> r == ErrorReply(400, "Invalid filename")
    ensures r.status == 200 ==>
      && "download_url" in r.fields && r.fields["download_url"] == JString(DownloadPrefix + sanitize(filename))
      && "filename" in r.fields && r.fields["filename"] == JString(sanitize(filename))
  {
    var secureName := sanitize(filename);
    if secureName == [] || !AllowedFile(secureName) then
      ErrorReply(400, "Invalid filename")
    else
      Reply(200, map[
        "download_url" := JString(DownloadPrefix + secureName),
        "filename" := JString(secureName),
        "message" := JString("Download link generated successfully")])
  }

  /** Every link handed out ends in the name and starts with the prefix. */
  lemma DownloadLinkShape(filename: string, sanitize: string -> string)
    requires Download(filename, sanitize).status == 200
    ensures var url := Download(filename, sanitize).fields["download_url"].text;
      |url| > |DownloadPrefix| && url[..|DownloadPrefix|] == DownloadPrefix
      && AllowedFile(url[|DownloadPrefix|..])
  {
    var name := sanitize(filename);
    var url := DownloadPrefix + name;
    assert url[|DownloadPrefix|..] == name;
    assert name != [];
  }
}
