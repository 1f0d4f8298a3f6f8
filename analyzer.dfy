/**
 * The caption generator and batch runner of image_analyzer.py: the prompt
 * built from an image's metadata, the result record of one analysis, the
 * loop over a folder listing that re-saves the sidecar after every image,
 * and the mapping of results to sidecar records.
 *
 * The vision-model call is the parameter `api`, the EXIF parser the
 * parameter `load`, the formatting of a float the parameter `show` and the
 * clock the parameter `clock`.
 */
module Analyzer {
  import opened Wrappers
  import opened PyStr
  import opened Metadata
  import Caption

  /** The fixed three-part instruction that starts every prompt. */
  const Instruction: string :=
    "For this image, provide:\n1. A detailed description\n2. Location guess based on the image\n3. Start with 'Instagram Reel Caption:' followed by a catchy caption with relevant hashtags"

  const DateOpening: string := "This photo was taken on "
  const CoordinateOpening: string := "The location coordinates are Latitude "

  /** `metadata.get("date_time")` is truthy. */
  predicate HasDate(md: ImageMetadata) {
    md.Extracted? && md.dateTime.Some? && md.dateTime.value != ""
  }

  /** `metadata.get("latitude") and metadata.get("longitude")` is truthy: both present and non-zero. */
  predicate HasCoordinates(md: ImageMetadata) {
    md.Extracted? && md.latitude.Some? && md.latitude.value != 0.0 &&
    md.longitude.Some? && md.longitude.value != 0.0
  }

  function DateSentence(dateTime: string): string {
    DateOpening + dateTime + "."
  }

  function CoordinateSentence(lat: real, lon: real, show: real -> string): string {
    CoordinateOpening + show(lat) + ", Longitude " + show(lon) + "."
  }

  /** What the date adds to the prompt: a space and the date sentence when the date is truthy. */
  function DatePart(md: ImageMetadata): string {
    if HasDate(md) then " " + DateSentence(md.dateTime.value) else ""
  }

  /** What the coordinates add to the prompt: a space and the coordinate sentence when both are truthy. */
  function CoordinatePart(md: ImageMetadata, show: real -> string): string {
    if HasCoordinates(md) then " " + CoordinateSentence(md.latitude.value, md.longitude.value, show) else ""
  }

  /**
   * The prompt for an image: the instruction, then the date sentence when
   * the date is truthy, then the coordinate sentence when both coordinates
   * are truthy, each added after a single space.
   */
  function PromptOf(md: ImageMetadata, show: real -> string): string {
    Instruction + DatePart(md) + CoordinatePart(md, show)
  }

  /** The prompt-building part of `analyze_image`: appends the applicable sentences to a list and joins it with spaces. */
  method BuildPrompt(md: ImageMetadata, show: real -> string) returns (prompt: string)
    ensures prompt == PromptOf(md, show)
  {
    var parts := [Instruction];
    if HasDate(md) {
      var sentence := DateSentence(md.dateTime.value);
      JoinAppend(" ", parts, sentence);
      parts := parts + [sentence];
    } else {
      assert Instruction + DatePart(md) == Instruction;
    }
    assert Join(" ", parts) == Instruction + DatePart(md);
    if HasCoordinates(md) {
      var sentence := CoordinateSentence(md.latitude.value, md.longitude.value, show);
      JoinAppend(" ", parts, sentence);
      parts := parts + [sentence];
    } else {
      assert PromptOf(md, show) == Instruction + DatePart(md);
    }
    prompt := Join(" ", parts);
  }

  /** Every prompt starts with the instruction. */
  lemma PromptStartsWithInstruction(md: ImageMetadata, show: real -> string)
    ensures StartsWith(PromptOf(md, show), Instruction)
  {
    assert PromptOf(md, show)[..|Instruction|] == Instruction;
  }

  /** What follows the instruction in a prompt: the date part, then the coordinate part. */
  lemma PromptAfterInstruction(md: ImageMetadata, show: real -> string)
    ensures |Instruction| <= |PromptOf(md, show)|
    ensures PromptOf(md, show)[|Instruction|..] == DatePart(md) + CoordinatePart(md, show)
  {
    DropPrefix(Instruction, DatePart(md), CoordinatePart(md, show));
  }

  lemma DropPrefix(a: string, b: string, c: string)
    ensures |a| <= |a + b + c| && (a + b + c)[|a|..] == b + c
  {
    assert a + b + c == a + (b + c);
  }

  /** The two sentences differ at their third character ("This" against "The "). */
  lemma OpeningsDiffer()
    ensures |DateOpening| > 2 && |CoordinateOpening| > 2 && DateOpening[2] != CoordinateOpening[2]
  {
  }

  /** A text built as `p + ((q + x) + y) + z` starts with `p + q`. */
  lemma StartsWithBuilt(p: string, q: string, x: string, y: string, z: string)
    ensures StartsWith(p + ((q + x) + y) + z, p + q)
  {
    assert p + ((q + x) + y) + z == (p + q) + (x + y + z);
  }

  /** Character `|p| + i` of `p + ((q + x) + y)` is `q[i]`. */
  lemma CharOfBuilt(p: string, q: string, x: string, y: string, i: nat)
    requires i < |q|
    ensures (p + ((q + x) + y))[|p| + i] == q[i]
  {
  }

  /** With a truthy date the text after the instruction starts with the date sentence. */
  lemma DateCase(md: ImageMetadata, show: real -> string)
    requires HasDate(md)
    ensures StartsWith(DatePart(md) + CoordinatePart(md, show), " " + DateOpening)
  {
    StartsWithBuilt(" ", DateOpening, md.dateTime.value, ".", CoordinatePart(md, show));
  }

  /** Without a date, a coordinate sentence there does not start like the date sentence. */
  lemma CoordinateCase(md: ImageMetadata, show: real -> string)
    requires !HasDate(md) && HasCoordinates(md)
    ensures !StartsWith(DatePart(md) + CoordinatePart(md, show), " " + DateOpening)
  {
    var lat, lon := md.latitude.value, md.longitude.value;
    var rest := DatePart(md) + CoordinatePart(md, show);
    assert rest == " " + ((CoordinateOpening + show(lat)) + ", Longitude ") + show(lon) + ".";
    OpeningsDiffer();
    CharOfBuilt(" ", CoordinateOpening + show(lat), ", Longitude ", show(lon) + ".", 2);
    CharOfBuilt(" ", DateOpening, [], [], 2);
    var key := " " + DateOpening;
    assert |key| > 3 && |rest| > 3 && rest[..|key|][3] == rest[3] != key[3];
  }

  /** The date sentence follows the instruction exactly when the date is truthy. */
  lemma DateSentenceIffDate(md: ImageMetadata, show: real -> string)
    ensures StartsWith(PromptOf(md, show)[|Instruction|..], " " + DateOpening) <==> HasDate(md)
  {
    PromptAfterInstruction(md, show);
    if HasDate(md) {
      DateCase(md, show);
    } else if HasCoordinates(md) {
      CoordinateCase(md, show);
    }
  }

  /** Without truthy metadata (also after a failed extraction, `{}`) the prompt is the instruction alone. */
  lemma PromptWithoutMetadata(md: ImageMetadata, show: real -> string)
    requires !HasDate(md) && !HasCoordinates(md)
    ensures PromptOf(md, show) == Instruction
  {
  }

  /** A latitude or longitude of exactly 0.0 is falsy and suppresses the coordinate sentence. */
  lemma ZeroCoordinateSuppressed(md: ImageMetadata, show: real -> string)
    requires md.Extracted? && (md.latitude == Some(0.0) || md.longitude == Some(0.0))
    ensures PromptOf(md, show) == PromptOf(md.(latitude := None, longitude := None), show)
  {
  }

  /** The outcome of one analysis: the `analysis` part or the `error` part, never both. */
  datatype Outcome =
    | Analysis(description: string, caption: Option<string>)
    | ApiError(message: string)

  /** The record `analyze_image` returns. */
  datatype AnalysisResult = AnalysisResult(fileName: string, metadata: ImageMetadata, outcome: Outcome)

  /**
   * The chat-completions call for (prompt, image URL): the reply's message
   * content (`None` when the message has none), or the text of the exception.
   */
  type Api = (string, string) -> Result<Option<string>, string>

  /** The text of the `TypeError` that `extract_insta_caption(None)` raises. */
  const NoContentError: string := "argument of type 'NoneType' is not iterable"

  /**
   * `analyze_image(file_name, metadata)`: the file name and metadata
   * unchanged; `analysis` with the whole reply as description and the
   * extracted caption when the call returns text; `error` with the exception
   * text otherwise.
   */
  function AnalysisOf(fileName: string, md: ImageMetadata, baseUrl: string, api: Api, show: real -> string): (r: AnalysisResult)
    ensures r.fileName == fileName && r.metadata == md
    ensures var reply := api(PromptOf(md, show), baseUrl + fileName);
      (r.outcome.Analysis? <==> reply.Success? && reply.value.Some?) &&
      (r.outcome.Analysis? ==>
         r.outcome.description == reply.value.value &&
         r.outcome.caption == Caption.ExtractInstaCaption(reply.value.value)) &&
      (reply.Failure? ==> r.outcome == ApiError(reply.error)) &&
      (reply == Success(None) ==> r.outcome == ApiError(NoContentError))
    ensures r.outcome.Analysis? && r.outcome.caption.Some? ==> Caption.IsCleanCaption(r.outcome.caption.value)
  {
    var reply := api(PromptOf(md, show), baseUrl + fileName);
    var outcome := match reply
      case Failure(e) => ApiError(e)
      case Success(None) => ApiError(NoContentError)
      case Success(Some(text)) => Analysis(text, Caption.ExtractInstaCaption(text));
    AnalysisResult(fileName, md, outcome)
  }

  /** `analyze_image`: builds the prompt and the image URL, calls the model and shapes the record. */
  method AnalyzeImage(fileName: string, md: ImageMetadata, baseUrl: string, api: Api, show: real -> string)
    returns (r: AnalysisResult)
    ensures r == AnalysisOf(fileName, md, baseUrl, api, show)
  {
    var imageUrl := baseUrl + fileName;
    var prompt := BuildPrompt(md, show);
    var reply := api(prompt, imageUrl);
    match reply
    case Failure(e) =>
      r := AnalysisResult(fileName, md, ApiError(e));
    case Success(None) =>
      r := AnalysisResult(fileName, md, ApiError(NoContentError));
    case Success(Some(text)) =>
      r := AnalysisResult(fileName, md, Analysis(text, Caption.ExtractInstaCaption(text)));
  }

  const ImageExtensions: seq<string> := [".jpg", ".jpeg", ".png", ".gif", ".bmp"]

  /** `file_name.lower().endswith(image_extensions)`. */
  predicate IsImageFile(name: string) {
    exists i :: 0 <= i < |ImageExtensions| && EndsWith(AsciiLower(name), ImageExtensions[i])
  }

  /** The names of a listing that pass the extension filter, in listing order. */
  function ImageFiles(listing: seq<string>): (files: seq<string>)
    ensures forall k :: 0 <= k < |files| ==> IsImageFile(files[k])
    ensures |files| <= |listing|
  {
    if listing == [] then []
    else
      var init := ImageFiles(listing[..|listing| - 1]);
      var last := listing[|listing| - 1];
      if IsImageFile(last) then init + [last] else init
  }

  /** A name is kept exactly when it is listed and has an image extension. */
  lemma {:induction false} ImageFilesMembership(listing: seq<string>, name: string)
    ensures name in ImageFiles(listing) <==> name in listing && IsImageFile(name)
  {
    if listing != [] {
      var init := listing[..|listing| - 1];
      ImageFilesMembership(init, name);
      assert listing == init + [listing[|listing| - 1]];
    }
  }

  /** The filter keeps listing order: filtering a concatenation concatenates the filtered parts. */
  lemma {:induction false} ImageFilesAppend(a: seq<string>, b: seq<string>)
    ensures ImageFiles(a + b) == ImageFiles(a) + ImageFiles(b)
  {
    if b != [] {
      var b' := b[..|b| - 1];
      assert (a + b)[..|a + b| - 1] == a + b';
      ImageFilesAppend(a, b');
    } else {
      assert a + b == a;
    }
  }

  /** The results `process_folder` accumulates for a listing: one per kept name, in listing order. */
  function ResultsOf(listing: seq<string>, load: string -> Option<ExifDict>, baseUrl: string, api: Api, show: real -> string)
    : seq<AnalysisResult>
  {
    if listing == [] then []
    else
      var init := ResultsOf(listing[..|listing| - 1], load, baseUrl, api, show);
      var last := listing[|listing| - 1];
      if IsImageFile(last) then init + [AnalysisOf(last, ExtractMetadata(load(last)), baseUrl, api, show)] else init
  }

  /** The `k`-th result is the analysis of the `k`-th kept name, with that file's extracted metadata. */
  lemma {:induction false} ResultsFollowListing(listing: seq<string>, load: string -> Option<ExifDict>, baseUrl: string, api: Api, show: real -> string)
    ensures var rs, files := ResultsOf(listing, load, baseUrl, api, show), ImageFiles(listing);
      |rs| == |files| &&
      forall k :: 0 <= k < |rs| ==> rs[k] == AnalysisOf(files[k], ExtractMetadata(load(files[k])), baseUrl, api, show)
  {
    if listing != [] {
      ResultsFollowListing(listing[..|listing| - 1], load, baseUrl, api, show);
    }
  }

  /** A record of the sidecar's `images` list. */
  datatype SidecarRecord = SidecarRecord(
    fileName: string,
    imageUrl: string,
    description: Option<string>,
    instaReelCaption: Option<string>,
    metadata: ImageMetadata,
    error: Option<string>)

  /** The sidecar document: `generated_at`, `ngrok_base_url` and `images`. */
  datatype Sidecar = Sidecar(generatedAt: string, ngrokBaseUrl: string, images: seq<SidecarRecord>)

  /** One element of the `images` comprehension of `save_results`. */
  function ToRecord(r: AnalysisResult, baseUrl: string): SidecarRecord {
    SidecarRecord(
      r.fileName,
      baseUrl + r.fileName,
      if r.outcome.Analysis? then Some(r.outcome.description) else None,
      if r.outcome.Analysis? then r.outcome.caption else None,
      r.metadata,
      if r.outcome.ApiError? then Some(r.outcome.message) else None)
  }

  /** A sidecar record carries its result: URL from the base, description and caption only on success, error only on failure. */
  predicate RecordOf(rec: SidecarRecord, r: AnalysisResult, baseUrl: string) {
    rec.fileName == r.fileName && rec.imageUrl == baseUrl + r.fileName && rec.metadata == r.metadata &&
    (rec.description.None? <==> r.outcome.ApiError?) &&
    (rec.error.None? <==> r.outcome.Analysis?) &&
    (r.outcome.Analysis? ==> rec.description == Some(r.outcome.description) && rec.instaReelCaption == r.outcome.caption) &&
    (r.outcome.ApiError? ==> rec.instaReelCaption.None? && rec.error == Some(r.outcome.message))
  }

  /** `save_results(results)`, without the file write: one record per result, in order. */
  function SaveResults(results: seq<AnalysisResult>, baseUrl: string, generatedAt: string): (s: Sidecar)
    ensures s.generatedAt == generatedAt && s.ngrokBaseUrl == baseUrl
    ensures |s.images| == |results|
    ensures forall k :: 0 <= k < |results| ==> RecordOf(s.images[k], results[k], baseUrl)
  {
    Sidecar(generatedAt, baseUrl, seq(|results|, k requires 0 <= k < |results| => ToRecord(results[k], baseUrl)))
  }

  /** Reading a result back from its sidecar record. */
  function FromRecord(rec: SidecarRecord): AnalysisResult {
    AnalysisResult(rec.fileName, rec.metadata,
      if rec.error.Some? then ApiError(rec.error.value)
      else Analysis(if rec.description.Some? then rec.description.value else "", rec.instaReelCaption))
  }

  /** No information is lost in a sidecar record: the result can be read back from it. */
  lemma RecordRoundTrip(r: AnalysisResult, baseUrl: string)
    ensures FromRecord(ToRecord(r, baseUrl)) == r
  {
  }

  /**
   * `process_folder()`: for each listed name that passes the filter, extracts
   * the metadata, analyses the image, appends the result and re-saves the
   * sidecar; `saves[k]` is the sidecar written after the `k`-th image, which
   * holds exactly the first `k + 1` results.
   */
  method ProcessFolder(
    listing: seq<string>, load: string -> Option<ExifDict>, baseUrl: string, api: Api,
    show: real -> string, clock: nat -> string)
    returns (results: seq<AnalysisResult>, saves: seq<Sidecar>)
    ensures results == ResultsOf(listing, load, baseUrl, api, show)
    ensures |saves| == |results|
    ensures forall k :: 0 <= k < |saves| ==> saves[k] == SaveResults(results[..k + 1], baseUrl, clock(k))
  {
    results, saves := [], [];
    for i := 0 to |listing|
      invariant results == ResultsOf(listing[..i], load, baseUrl, api, show)
      invariant |saves| == |results|
      invariant forall k :: 0 <= k < |saves| ==> saves[k] == SaveResults(results[..k + 1], baseUrl, clock(k))
    {
      assert listing[..i + 1][..i] == listing[..i];
      var fileName := listing[i];
      if IsImageFile(fileName) {
        var metadata := ExtractMetadata(load(fileName));
        var result := AnalyzeImage(fileName, metadata, baseUrl, api, show);
        results := results + [result];
        saves := saves + [SaveResults(results, baseUrl, clock(|saves|))];
      }
    }
    assert listing[..|listing|] == listing;
  }
}
