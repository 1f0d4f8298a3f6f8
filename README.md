# instagram-reel-generator, modelled in Dafny

The system turns a folder of photos into a short vertical video. A batch
runner (`image_analyzer.py`) walks the folder listing and keeps the image
files. For each image it reads the EXIF capture time and GPS position, asks
a vision model for a description and a social caption, and re-saves a JSON
sidecar after every image. A reel assembler (`movie_maker.py`) loads the
sidecar, sorts its entries by capture time and builds one clip per entry,
with a caption overlay when there is a caption. It writes a video only when
at least one clip was built.

This project models the logic inside that pipeline and proves properties of
it:

- `pystr.dfy` (module `PyStr`) covers the parts of Python's `str` that the
  code relies on: `isspace`, `strip`, `in`, `split(sep)[0]` and
  `split(sep)[1]`, `replace(c, '')`, `endswith`, `lower`, `join` and the
  ordering `<`.
- `caption.dfy` (module `Caption`) is the caption extractor, with its fixed
  marker order and its clean-up.
- `utf8.dfy` (module `Utf8`) is `bytes.decode()` as strict UTF-8, with an
  encoder and both round trips.
- `metadata.dfy` (module `Metadata`) is `extract_metadata` and
  `dms_to_decimal` over the dictionary that `piexif.load` returns.
- `analyzer.dfy` (module `Analyzer`) holds the prompt construction and the
  result record of `analyze_image`, the `process_folder` loop and the record
  mapping of `save_results`.
- `reel.dfy` (module `Reel`) holds `create_reel`:
  - the sort key and the in-place stable sort, as an insertion sort on an
    array;
  - the clip loop, which skips entries that raise;
  - the caption-overlay branch;
  - the non-empty-clips guard.
- `wrappers.dfy` (module `Wrappers`) provides `Option` and `Result`.

Anything outside the code's reach is a parameter:

- `api` is the chat-completions call. It returns the reply text, a missing
  content (`None`), or the exception text.
- `load` is `piexif.load`. `None` stands for a load that raises.
- `show` is the float formatting used in the prompt.
- `clock` gives the `generated_at` time of each save.
- `builds` is whether an entry's download and rendering succeed.

Behaviour of the code worth knowing:

- A failed metadata extraction yields the empty dictionary `{}`
  (`NoMetadata`). Every field is then lost, including a date that could be
  read. For example, a GPS block without a
  latitude tag discards the date too.
- The sidecar keys are the ones the code writes: `ngrok_base_url` and
  `insta_reel_caption`.
- `create_reel` sorts the loaded `data['images']` list in place.
- The prompt tests coordinates for truthiness, so a latitude or longitude of
  exactly `0.0` drops the coordinate sentence.
- `dms_to_decimal` negates South and West values. A zero value therefore
  stays zero (exact reals have no `-0.0`), so "South or West is negative"
  holds only for non-zero values.
- A reply whose message content is `None` makes `extract_insta_caption`
  raise a `TypeError`. The result is then an `error` record.

## Model

| member | source | states |
|---|---|---|
| PyStr.Strip | image_analyzer.py:119 | `strip()` keeps the slice between a whitespace prefix and a whitespace suffix; both dropped ends are all whitespace (Python's `isspace` set) and the kept text neither starts nor ends with whitespace |
| PyStr.FindFrom | image_analyzer.py:116 | the search behind `marker in content` returns the first index at or after the start where the marker occurs, and no earlier index holds it |
| PyStr.AfterFirst | image_analyzer.py:117-119 | `content.split(marker)[1]` is the segment that starts right after the first occurrence and ends at the next occurrence or the end of the text: no occurrence starts inside it, and it never contains the marker |
| PyStr.Before | image_analyzer.py:123 | `split('\n\n')[0]` is the prefix up to the first blank line (or all of the text): no blank line starts inside it |
| PyStr.RemoveChar | image_analyzer.py:121 | `replace(c, '')` deletes every `c`: the result lacks `c`, is shorter by the number of `c`s, keeps the count of every other character, and leaves a single other character alone |
| PyStr.RemoveCharAppend | image_analyzer.py:121 | deleting distributes over concatenation, so with the one-character case the kept characters stay in their order |
| PyStr.JoinAppend | image_analyzer.py:77 | joining one more part with `" ".join` appends the separator and that part |
| PyStr.StrLtIrreflexive | movie_maker.py:23 | no key sorts before itself |
| PyStr.StrLtTransitive | movie_maker.py:23 | the string order used by the sort is transitive |
| PyStr.StrLtTotal | movie_maker.py:23 | any two different keys are ordered one way or the other |
| PyStr.EmptyIsLeast | movie_maker.py:23 | the empty key sorts before every non-empty key and after none |
| Caption.FirstMarker | image_analyzer.py:127-134 | returns the first marker in trying order that occurs in the reply; no earlier marker occurs |
| Caption.ExtractInstaCaption | image_analyzer.py:113-143 | `None` exactly when the reply contains neither `**Instagram Reel Caption**:` nor `Instagram Reel Caption:`; otherwise a clean caption (no `*`, no `"`, no blank line, no surrounding whitespace), possibly empty |
| Caption.NumberedMarkersContainPlainOnes | image_analyzer.py:116-131 | a reply holding a numbered label also holds the un-numbered label inside it |
| Caption.NumberedPlainNeverWins | image_analyzer.py:127-131 | the `3. Instagram Reel Caption:` variant is never the winning marker |
| Caption.MarkerPriority | image_analyzer.py:116-140 | when the k-th marker is the first one present, the caption is the cleaned segment after its first occurrence up to its next occurrence |
| Caption.NothingAfterLabel | image_analyzer.py:127-140 | for every reply whose winning label is followed only by whitespace (up to its next occurrence or the end), the caption is empty, not `None` |
| Caption.CleanIsClean | image_analyzer.py:119-123 | strip, delete `*` and `"`, strip, keep the first paragraph, strip: the result is always clean |
| Utf8.Decode | image_analyzer.py:52 | every decoded character takes one to four bytes: the text is no longer than the bytes and at least a quarter as long |
| Utf8.DecodeEncode | image_analyzer.py:52 | `s.encode().decode() == s` for every text |
| Utf8.EncodeDecode | image_analyzer.py:52 | every byte string that `decode()` accepts is exactly the encoding of what it returns |
| Utf8.DecodeAscii | image_analyzer.py:52 | ASCII bytes (as in an EXIF date) always decode, one character per byte with the same code |
| Metadata.DmsToDecimal | image_analyzer.py:37-44 | succeeds exactly when the tag holds at least three rationals with non-zero denominators, and then equals d + m/60 + s/3600, negated exactly when the reference is `b'S'` or `b'W'` |
| Metadata.SouthWestNegates | image_analyzer.py:42-43 | a South or West reference gives the negation of what any other reference gives |
| Metadata.SignOfDecimal | image_analyzer.py:37-44 | with non-negative rationals the value is non-negative for any reference but `b'S'`/`b'W'` (a missing one included) and non-positive for those |
| Metadata.DecodeDate | image_analyzer.py:52 | a date exactly when the tag is truthy; it raises exactly when a truthy tag is not valid UTF-8 bytes; a decoded date is non-empty and encodes back to the tag's bytes |
| Metadata.ExtractMetadata | image_analyzer.py:24-58 | `{}` exactly when the load fails, a non-empty GPS block lacks a well-formed latitude or longitude, or the date does not decode; otherwise the date is the decoded tag (present exactly when the tag is truthy), and the coordinates are present exactly when the GPS block is non-empty and are then the converted latitude and longitude tags |
| Metadata.EmptyGpsKeepsDate | image_analyzer.py:48-55 | an empty GPS block gives `None` coordinates and still reports the date |
| Metadata.MissingCoordinateEmptiesAll | image_analyzer.py:31-58 | a non-empty GPS block without a latitude or longitude tag makes the whole result `{}` |
| Metadata.ZeroDenominatorEmptiesAll | image_analyzer.py:37-58 | a zero denominator in a coordinate makes the whole result `{}` |
| Metadata.CoordinatesAreConverted | image_analyzer.py:46-47 | extracted coordinates are the converted GPS tags |
| Metadata.SanFranciscoExample | image_analyzer.py:37-44 | 37 deg 46' 26.4" N converts to 37.774 and 122 deg 25' 9.6" W to about -122.419 |
| Analyzer.BuildPrompt | image_analyzer.py:64-77 | the parts list joined with spaces is the instruction, then the date sentence when the date is truthy, then the coordinate sentence when both coordinates are truthy |
| Analyzer.PromptStartsWithInstruction | image_analyzer.py:64-69 | every prompt starts with the fixed three-part instruction |
| Analyzer.DateSentenceIffDate | image_analyzer.py:71-72 | the date sentence follows the instruction exactly when the date is truthy |
| Analyzer.PromptWithoutMetadata | image_analyzer.py:64-77 | without a truthy date and truthy coordinates (also for `{}`) the prompt is the instruction alone |
| Analyzer.ZeroCoordinateSuppressed | image_analyzer.py:74-75 | a latitude or longitude of 0.0 gives the same prompt as no coordinates |
| Analyzer.AnalysisOf | image_analyzer.py:82-111 | file name and metadata unchanged; an `analysis` exactly when the call returns text, with the whole reply as description and the extracted caption; an `error` with the exception text when the call raises, and the `TypeError` text when the content is `None` |
| Analyzer.AnalyzeImage | image_analyzer.py:60-111 | builds the prompt and URL, calls the model and returns the record `AnalysisOf` describes |
| Analyzer.ImageFiles | image_analyzer.py:147-150 | every kept name has an image extension, and there are no more of them than listed names |
| Analyzer.ImageFilesMembership | image_analyzer.py:147-150 | a name is kept exactly when it is listed and its lower-case form ends with `.jpg`, `.jpeg`, `.png`, `.gif` or `.bmp` |
| Analyzer.ImageFilesAppend | image_analyzer.py:149-154 | the filter keeps listing order |
| Analyzer.ResultsFollowListing | image_analyzer.py:149-154 | one result per kept name, in listing order, each the analysis of that file with its extracted metadata |
| Analyzer.ProcessFolder | image_analyzer.py:145-159 | returns those results, and the k-th save holds exactly the first k+1 results |
| Analyzer.SaveResults | image_analyzer.py:164-177 | one record per result in the same order; `image_url` is base + file name; description and caption only with an analysis; error exactly without one |
| Analyzer.RecordRoundTrip | image_analyzer.py:167-177 | a result can be read back from its sidecar record, so no field is lost |
| Reel.SortKeyMeaning | movie_maker.py:23 | `date_time or ''`: the key is empty exactly when the entry has no truthy date, and otherwise it is that date |
| Reel.KeyLeTotal | movie_maker.py:23 | any two entries are comparable by sort key |
| Reel.KeyLeTransitive | movie_maker.py:23 | the key order is transitive |
| Reel.InsertPermutation | movie_maker.py:23 | one insertion step adds the entry and keeps the others |
| Reel.InsertSorted | movie_maker.py:23 | one insertion step keeps a sorted list sorted |
| Reel.StableSortPermutation | movie_maker.py:23 | after the sort `images` is a permutation of the loaded list |
| Reel.StableSortSorted | movie_maker.py:23 | the sorted list is non-decreasing by `date_time or ''` |
| Reel.StableSortStable | movie_maker.py:23 | entries with equal keys keep their sidecar order |
| Reel.SortedUnique | movie_maker.py:23 | two sorted lists with the same per-key order are equal, so the model's sort is the one `list.sort` produces |
| Reel.UndatedFirst | movie_maker.py:23 | in the sorted list every undated entry precedes every dated one |
| Reel.UndatedBeforeDated | movie_maker.py:23 | a dated entry followed by an undated one swaps places |
| Reel.InsertAt | movie_maker.py:23 | one pass of the in-place sort inserts an entry into the sorted rest of the array |
| Reel.SortImages | movie_maker.py:22-23 | the array ends as the stable sort of its old contents |
| Reel.ClipOf | movie_maker.py:32-74 | a clip shows the entry's image and carries an overlay exactly when its caption is truthy |
| Reel.ClipsOfAppend | movie_maker.py:29-82 | clips come in entry order |
| Reel.ClipsOfMembership | movie_maker.py:29-82 | a clip is there exactly when some entry builds without raising |
| Reel.NoClipsIffAllFail | movie_maker.py:85-104 | no clip at all exactly when every entry raises |
| Reel.CollectClips | movie_maker.py:25-82 | the loop returns the clips of the entries that build, in order |
| Reel.CreateReel | movie_maker.py:22-104 | sorts in place, and the video is written from the clips exactly when there is at least one clip |
| Reel.OverlayIffCaptionExtracted | movie_maker.py:33-48 | an entry's clip has an overlay exactly when its analysis succeeded with a non-empty caption |

## Left out

- The OpenAI client and the chat-completions request are left out; the
  request is the `api` parameter. The model, token limit and message layout
  are not modelled.
- Environment loading and configuration globals are left out; the base URL
  is a parameter. The folder path is left out, since only names from the
  listing are used.
- `piexif.load` is not modelled. Its result is the input, and tag values
  other than byte strings and rational tuples are not represented.
- File and JSON I/O are left out: `os.listdir`, `open`, `json.dump` and
  `json.load`. The listing and the sidecar are values, and `save_results`
  returns its document instead of writing it.
- Analyzer.SaveResults: `generated_at` is the `clock` parameter, not
  `datetime.now().isoformat()`.
- All moviepy, PIL and requests work is left out, since it is library code:
  download, resize, text clip, fades, concatenation timing, background
  audio and encoding. `textwrap.fill` is also left out. A clip is reduced
  to its image URL and overlay text.
- Reel.CollectClips: whether an entry raises is the `builds` predicate of
  the entry. The model therefore assumes that the same entry fails or
  succeeds the same way each time.
- Metadata.DmsToDecimal: exact `real` arithmetic instead of floating point,
  so rounding and `-0.0` are not modelled.
- Analyzer.CoordinateSentence: `str(float)` formatting is the `show`
  parameter.
- PyStr.AsciiLower: `str.lower()` is modelled for ASCII letters only. For
  the extension filter this loses nothing. Only two non-ASCII characters
  lower to text containing ASCII: U+0130 lowers to `i` followed by the
  non-ASCII U+0307, and U+212A lowers to `k`. Neither can complete `.jpg`,
  `.jpeg`, `.png`, `.gif` or `.bmp`. So testing the extension on
  `AsciiLower(name)` gives the same answer as on `name.lower()`.
- Diagnostics printed with `print` are left out.
- The text of the `TypeError` that `in` raises on `None` (the constant
  `NoContentError`) is one CPython release's wording; other releases word it
  differently, so the exact message is not a property of the code.
