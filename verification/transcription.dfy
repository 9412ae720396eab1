/**
 The upload endpoints (backend/app/routers/transcription.py): file-name
 validation, the placeholder result of `/upload`, the events of
 `/upload/stream` and the lookup that always misses.

 The settings are those `get_settings()` returned when the router module was
 loaded; the id and the clock readings are parameters.
 */
module Transcription {
  import opened Wrappers
  import opened Text
  import opened Models
  import Config

  /** An `HTTPException`. */
  datatype HttpError = HttpError(status: int, detail: string)

  // ---------------------------------------------------------------------------
  // pathlib.PurePosixPath(filename).suffix
  // ---------------------------------------------------------------------------

  /** The last of the path's components, skipping empty and "." ones, as
      `PurePosixPath` normalises them away. */
  function LastComponent(parts: seq<string>): (r: string)
    ensures r != "."
    ensures r != "" ==> r in parts
  {
    if parts == [] then ""
    else
      var last := parts[|parts| - 1];
      if last == "" || last == "." then LastComponent(parts[..|parts| - 1]) else last
  }

  /** `PurePosixPath(p).name`. */
  function PathName(p: string): (r: string)
    ensures '/' !in r && r != "."
  {
    var parts := Split(p, '/');
    var r := LastComponent(parts);
    assert r != "" ==> r in parts;
    r
  }

  /** `s.rfind(c)`: the index of the last `c`, or -1. */
  function RFind(s: string, c: char): (r: int)
    ensures -1 <= r < |s|
    ensures r >= 0 ==> s[r] == c
    ensures forall j :: r < j < |s| ==> s[j] != c
  {
    if s == [] then -1
    else if s[|s| - 1] == c then |s| - 1
    else RFind(s[..|s| - 1], c)
  }

  /** `PurePath.suffix` of a name: from its last dot, unless that dot starts
      the name or ends it. */
  function NameSuffix(name: string): (r: string)
    ensures r == [] || (|r| >= 2 && r[0] == '.' && '.' !in r[1..] && |r| < |name| && r == name[|name| - |r|..])
  {
    var i := RFind(name, '.');
    if 0 < i < |name| - 1 then
      assert '.' !in name[i + 1..] by {
        forall j | i + 1 <= j < |name| ensures name[j] != '.' { }
      }
      name[i..]
    else []
  }

  /** `Path(filename).suffix`. */
  function Suffix(filename: string): string {
    NameSuffix(PathName(filename))
  }

  /** `Path(filename).suffix.lower()`, the extension that is checked. */
  function Extension(filename: string): string {
    Lower(Suffix(filename))
  }

  // ---------------------------------------------------------------------------
  // validate_audio_file
  // ---------------------------------------------------------------------------

  const NoFilename := HttpError(400, "No filename provided")

  function NotAllowed(settings: Config.Settings, ext: string): HttpError {
    HttpError(400, "File type '" + ext + "' not allowed. Allowed types: " + settings.allowedAudioExtensions)
  }

  /** `validate_audio_file`: a missing or empty name is refused; otherwise the
      lower-cased suffix must be one of the allowed extensions. */
  function ValidateAudioFile(settings: Config.Settings, filename: Option<string>): (r: Result<(), HttpError>)
    ensures (filename.None? || filename.value == "") ==> r == Err(NoFilename)
    ensures filename.Some? && filename.value != "" ==>
      (r.Ok? <==> Extension(filename.value) in Config.AllowedExtensionsList(settings))
    ensures filename.Some? && filename.value != "" && r.Err? ==>
      r.error == NotAllowed(settings, Extension(filename.value))
  {
    if filename.None? || filename.value == "" then Err(NoFilename)
    else
      var ext := Extension(filename.value);
      if ext in Config.AllowedExtensionsList(settings) then Ok(()) else Err(NotAllowed(settings, ext))
  }

  /** A plain file name "stem.ext" has suffix ".ext". */
  lemma SuffixOfPlainName(stem: string, ext: string)
    requires stem != [] && ext != []
    requires '/' !in stem && '/' !in ext && '.' !in ext
    ensures Suffix(stem + "." + ext) == "." + ext
  {
    var name := stem + "." + ext;
    assert '/' !in name;
    PathNameOfName(name);
    SuffixAfterLastDot(stem, ext, name);
  }

  /** A name without '/' other than "" and "." is its own `name`. */
  lemma PathNameOfName(name: string)
    requires '/' !in name && name != "" && name != "."
    ensures PathName(name) == name
  {
    SplitOfPiece(name, '/');
    assert LastComponent([name]) == name;
  }

  lemma SuffixAfterLastDot(stem: string, ext: string, name: string)
    requires stem != [] && ext != [] && '.' !in ext
    requires name == stem + "." + ext
    ensures NameSuffix(name) == "." + ext
  {
    var k := |stem|;
    assert name[k] == '.';
    forall j | k < j < |name| ensures name[j] != '.' {
      assert name[j] == ext[j - k - 1];
    }
    assert RFind(name, '.') == k;
    assert name[k..] == "." + ext;
  }

  /** Upper and lower case make no difference to validation. */
  lemma ValidationIgnoresCase(settings: Config.Settings, filename: string)
    ensures ValidateAudioFile(settings, Some(filename)) == ValidateAudioFile(settings, Some(Lower(filename)))
  {
    ExtensionIgnoresCase(filename);
  }

  lemma ExtensionIgnoresCase(filename: string)
    ensures Extension(Lower(filename)) == Extension(filename)
  {
    var name := PathName(filename);
    NameIgnoresCase(filename);
    SuffixIgnoresCase(name);
    LowerIdempotent(NameSuffix(name));
  }

  lemma NameIgnoresCase(filename: string)
    ensures PathName(Lower(filename)) == Lower(PathName(filename))
  {
    LowerSplit(filename, '/');
    LowerLastComponent(Split(filename, '/'));
  }

  lemma SuffixIgnoresCase(name: string)
    ensures NameSuffix(Lower(name)) == Lower(NameSuffix(name))
  {
    LowerRFind(name, '.');
    var i := RFind(name, '.');
    if 0 < i < |name| - 1 {
      LowerSuffix(name, i);
    } else {
      assert Lower([]) == [];
    }
  }

  function LowerAll(parts: seq<string>): (r: seq<string>)
    ensures |r| == |parts| && forall i :: 0 <= i < |r| ==> r[i] == Lower(parts[i])
  {
    seq(|parts|, i requires 0 <= i < |parts| => Lower(parts[i]))
  }

  /** Lower-casing leaves every character that is not an ASCII letter where
      it was, so splitting on such a character commutes with it. */
  lemma {:induction false} LowerSplit(s: string, sep: char)
    requires !('A' <= sep <= 'Z') && !('a' <= sep <= 'z')
    ensures Split(Lower(s), sep) == LowerAll(Split(s, sep))
    decreases |s|
  {
    if s != [] {
      var pre, c := s[..|s| - 1], s[|s| - 1];
      LowerSplit(pre, sep);
      LastRestores(s, pre, c);
      if c == sep {
        LowerSplitAtSeparator(pre, sep);
      } else {
        LowerSplitInPiece(pre, c, sep);
      }
    }
  }

  lemma LowerSplitAtSeparator(pre: string, sep: char)
    requires !('A' <= sep <= 'Z') && !('a' <= sep <= 'z')
    requires Split(Lower(pre), sep) == LowerAll(Split(pre, sep))
    ensures Split(Lower(pre + [sep]), sep) == LowerAll(Split(pre + [sep], sep))
  {
    LowerSnoc(pre, sep);
    SplitSnocSeparator(pre, sep);
    SplitSnocSeparator(Lower(pre), sep);
    LowerAllSnoc(Split(pre, sep), []);
  }

  lemma LowerSplitInPiece(pre: string, c: char, sep: char)
    requires !('A' <= sep <= 'Z') && !('a' <= sep <= 'z') && c != sep
    requires Split(Lower(pre), sep) == LowerAll(Split(pre, sep))
    ensures Split(Lower(pre + [c]), sep) == LowerAll(Split(pre + [c], sep))
  {
    LowerSnoc(pre, c);
    SplitSnoc(pre, c, sep);
    SplitSnoc(Lower(pre), LowerChar(c), sep);
    LowerAllGrowLast(Split(pre, sep), c);
  }

  lemma LowerAllGrowLast(parts: seq<string>, c: char)
    requires parts != []
    ensures LowerAll(GrowLast(parts, c)) == GrowLast(LowerAll(parts), LowerChar(c))
  {
    var k := |parts|;
    LowerAllSnoc(parts[..k - 1], parts[k - 1] + [c]);
    LowerSnoc(parts[k - 1], c);
    assert LowerAll(parts[..k - 1]) == LowerAll(parts)[..k - 1];
  }

  lemma LowerSnoc(s: string, c: char)
    ensures Lower(s + [c]) == Lower(s) + [LowerChar(c)]
  {
  }

  lemma LowerAllSnoc(init: seq<string>, last: string)
    ensures LowerAll(init + [last]) == LowerAll(init) + [Lower(last)]
  {
    assert forall i :: 0 <= i < |init| ==> (init + [last])[i] == init[i];
  }

  lemma {:induction false} LowerLastComponent(parts: seq<string>)
    ensures LastComponent(LowerAll(parts)) == Lower(LastComponent(parts))
    decreases |parts|
  {
    if parts != [] {
      var last := parts[|parts| - 1];
      assert Lower(last) == "" <==> last == "";
      assert Lower(last) == "." <==> last == "." by {
        if |last| == 1 {
          assert Lower(last)[0] == LowerChar(last[0]);
        }
      }
      assert LowerAll(parts)[..|parts| - 1] == LowerAll(parts[..|parts| - 1]);
      LowerLastComponent(parts[..|parts| - 1]);
    } else {
      assert Lower("") == "";
    }
  }

  lemma {:induction false} LowerRFind(s: string, c: char)
    requires !('A' <= c <= 'Z') && !('a' <= c <= 'z')
    ensures RFind(Lower(s), c) == RFind(s, c)
    decreases |s|
  {
    if s != [] {
      assert Lower(s)[..|s| - 1] == Lower(s[..|s| - 1]);
      LowerRFind(s[..|s| - 1], c);
    }
  }

  /** With the default settings, "name.ext" passes exactly when its extension,
      in any case, is one of the seven audio extensions; a name with no
      extension is refused. */
  lemma DefaultValidation(stem: string, ext: string)
    requires stem != [] && ext != []
    requires '/' !in stem && '/' !in ext && '.' !in ext
    ensures ValidateAudioFile(Config.Defaults, Some(stem + "." + ext)).Ok?
      <==> Lower("." + ext) in Config.DefaultExtensions
  {
    SuffixOfPlainName(stem, ext);
    Config.DefaultExtensionsList();
  }

  // ---------------------------------------------------------------------------
  // The endpoints
  // ---------------------------------------------------------------------------

  /** The text `/upload` returns in place of a transcription. */
  function PlaceholderText(filename: string): string {
    "[Transcription placeholder for " + filename + "]"
  }

  /** `transcribe_audio`: validation comes first; an accepted file gets a
      completed result with the placeholder text, zero duration and that
      text's word count. */
  function TranscribeAudio(
    settings: Config.Settings,
    filename: Option<string>,
    id: string,
    startTime: int,
    processingTime: real): (r: Result<TranscriptionResult, HttpError>)
    ensures r.Err? <==> ValidateAudioFile(settings, filename).Err?
    ensures r.Err? ==> r.error == ValidateAudioFile(settings, filename).error
    ensures r.Ok? ==>
      && r.value.id == id
      && r.value.status == Completed
      && r.value.text == PlaceholderText(filename.value)
      && r.value.durationSeconds == 0.0
      && r.value.wordCount == WordCount(r.value.text)
      && r.value.processingTimeSeconds == processingTime
      && r.value.createdAt == startTime
  {
    var v := ValidateAudioFile(settings, filename);
    if v.Err? then Err(v.error)
    else
      var text := PlaceholderText(filename.value);
      Ok(TranscriptionResult(id, Completed, text, 0.0, WordCount(text), processingTime, startTime))
  }

  /** The placeholder has three fixed words before the name, and the name
      ends in "]" so it adds at least one more; a name without whitespace
      adds exactly one. */
  lemma PlaceholderWordCount(filename: string)
    ensures WordCount(PlaceholderText(filename)) == 3 + WordCount(filename + "]")
    ensures WordCount(PlaceholderText(filename)) >= 4
    ensures NoSpace(filename) ==> WordCount(PlaceholderText(filename)) == 4
  {
    PlaceholderShape(filename, PlaceholderText(filename));
    HeadsAreWords();
    WordsThen(PlaceholderHead, filename + "]");
    BracketWords(filename);
  }

  const PlaceholderHead: seq<string> := ["[Transcription", "placeholder", "for"]
  const StreamHead: seq<string> := ["[Streaming", "transcription", "placeholder", "for"]

  lemma PlaceholderShape(filename: string, text: string)
    requires text == "[Transcription placeholder for " + filename + "]"
    ensures text == Join(" ", PlaceholderHead) + " " + (filename + "]")
  {
    var ws := PlaceholderHead;
    assert ws[..1] == ["[Transcription"];
    JoinStep(" ", ws, 1);
    assert Join(" ", ws[..2]) == "[Transcription placeholder";
    JoinStep(" ", ws, 2);
    assert ws[..3] == ws;
  }

  lemma StreamShape(filename: string, text: string)
    requires text == "[Streaming transcription placeholder for " + filename + "]"
    ensures text == Join(" ", StreamHead) + " " + (filename + "]")
  {
    var ws := StreamHead;
    assert ws[..1] == ["[Streaming"];
    JoinStep(" ", ws, 1);
    assert Join(" ", ws[..2]) == "[Streaming transcription";
    JoinStep(" ", ws, 2);
    assert Join(" ", ws[..3]) == "[Streaming transcription placeholder";
    JoinStep(" ", ws, 3);
    assert ws[..4] == ws;
  }

  /** The fixed words of the placeholder texts hold no whitespace. */
  lemma HeadsAreWords()
    ensures PlaceholderHead != [] && forall i :: 0 <= i < |PlaceholderHead| ==> IsWord(PlaceholderHead[i])
    ensures StreamHead != [] && forall i :: 0 <= i < |StreamHead| ==> IsWord(StreamHead[i])
  {
    PlaceholderHeadWords();
    StreamHeadWords();
  }

  lemma PlaceholderHeadWords()
    ensures forall i :: 0 <= i < |PlaceholderHead| ==> IsWord(PlaceholderHead[i])
  {
    PrintableWord("[Transcription");
    PrintableWord("placeholder");
    PrintableWord("for");
  }

  lemma StreamHeadWords()
    ensures forall i :: 0 <= i < |StreamHead| ==> IsWord(StreamHead[i])
  {
    PrintableWord("[Streaming");
    PrintableWord("transcription");
    PrintableWord("placeholder");
    PrintableWord("for");
  }

  /** `get_transcription`: no transcription is ever stored, so every lookup
      fails with 404. */
  function GetTranscription(id: string): (r: Result<TranscriptionResult, HttpError>)
    ensures r.Err? && r.error.status == 404 && r.error.detail == "Transcription not found"
  {
    Err(HttpError(404, "Transcription not found"))
  }

  // ---------------------------------------------------------------------------
  // /upload/stream
  // ---------------------------------------------------------------------------

  /** The two server-sent events of `/upload/stream`. */
  datatype StreamEvent =
    | ProgressEvent(progress: TranscriptionProgress)
    | CompleteEvent(result: TranscriptionResult)

  function StreamText(filename: string): string {
    "[Streaming transcription placeholder for " + filename + "]"
  }

  /** `transcribe_audio_stream` as written: validation first, then a
      "processing" event and a completion event whose word count is the
      constant 5. */
  function TranscribeAudioStream(
    settings: Config.Settings,
    filename: Option<string>,
    id: string,
    now: int): (r: Result<seq<StreamEvent>, HttpError>)
    ensures r.Err? <==> ValidateAudioFile(settings, filename).Err?
    ensures r.Err? ==> r.error == ValidateAudioFile(settings, filename).error
    ensures r.Ok? ==> |r.value| == 2 && r.value[0].ProgressEvent? && r.value[1].CompleteEvent?
    ensures r.Ok? ==> ValidProgress(r.value[0].progress) && r.value[0].progress.status == Processing
    ensures r.Ok? ==> r.value[1].result.text == StreamText(filename.value) && r.value[1].result.wordCount == 5
  {
    var v := ValidateAudioFile(settings, filename);
    if v.Err? then Err(v.error)
    else
      var start := TranscriptionProgress(Processing, 0.0, 0, 1, "Starting transcription...", "");
      var result := TranscriptionResult(id, Completed, StreamText(filename.value), 0.0, 5, 0.1, now);
      Ok([ProgressEvent(start), CompleteEvent(result)])
  }

  /** The constant is right only for names without whitespace: an accepted
      name made of two words, such as "my recording.wav", gets a text of six
      words. */
  lemma StreamWordCountIsWrong(settings: Config.Settings, first: string, second: string)
    requires IsWord(first) && IsWord(second)
    requires ValidateAudioFile(settings, Some(first + " " + second)).Ok?
    ensures var r := TranscribeAudioStream(settings, Some(first + " " + second), "id", 0);
      r.Ok? && r.value[1].result.wordCount == 5 && WordCount(r.value[1].result.text) == 6
  {
    var name := first + " " + second;
    StreamWordCount(name);
    assert name + "]" == first + [' '] + (second + "]");
    CountAround(first, ' ', second + "]");
    CountOfWord(first);
    BracketWords(second);
  }

  /** The stream's completion event with the word count of its own text. */
  function TranscribeAudioStreamCounted(
    settings: Config.Settings,
    filename: Option<string>,
    id: string,
    now: int): (r: Result<seq<StreamEvent>, HttpError>)
    ensures r.Err? <==> ValidateAudioFile(settings, filename).Err?
    ensures r.Ok? ==> |r.value| == 2 && r.value[1].CompleteEvent?
    ensures r.Ok? ==> r.value[1].result.wordCount == WordCount(r.value[1].result.text)
    ensures r.Ok? ==> r.value[1].result.wordCount == 4 + WordCount(filename.value + "]")
    ensures r.Ok? && NoSpace(filename.value) ==> r.value[1].result.wordCount == 5
  {
    var v := ValidateAudioFile(settings, filename);
    if v.Err? then Err(v.error)
    else
      var start := TranscriptionProgress(Processing, 0.0, 0, 1, "Starting transcription...", "");
      var text := StreamText(filename.value);
      StreamWordCount(filename.value);
      var result := TranscriptionResult(id, Completed, text, 0.0, WordCount(text), 0.1, now);
      Ok([ProgressEvent(start), CompleteEvent(result)])
  }

  lemma StreamWordCount(filename: string)
    ensures WordCount(StreamText(filename)) == 4 + WordCount(filename + "]")
    ensures NoSpace(filename) ==> WordCount(StreamText(filename)) == 5
  {
    StreamShape(filename, StreamText(filename));
    HeadsAreWords();
    WordsThen(StreamHead, filename + "]");
    BracketWords(filename);
  }
}
