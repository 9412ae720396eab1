/**
 Application settings (backend/app/config.py): the `Settings` record with its
 defaults, the two derived properties and the cached `get_settings`.

 Reading environment variables and the `.env` file is left to the caller:
 `GetSettings` is handed the `Settings` value that construction would produce.
 */
module Config {
  import opened Wrappers
  import opened Text
  import Lazy

  datatype Settings = Settings(
    appEnv: string,
    debug: bool,
    logLevel: string,
    apiHost: string,
    apiPort: int,
    frontendUrl: string,
    awsProfile: string,
    awsRegion: string,
    whisperModelId: string,
    whisperLanguage: string,
    whisperChunkLengthS: int,
    bedrockModelId: string,
    bedrockMaxTokens: int,
    maxUploadSizeMb: int,
    allowedAudioExtensions: string,
    recordingsDir: string)

  /** The value of every field when no environment variable overrides it. */
  const Defaults: Settings := Settings(
    appEnv := "development",
    debug := true,
    logLevel := "INFO",
    apiHost := "0.0.0.0",
    apiPort := 8000,
    frontendUrl := "http://localhost:5173",
    awsProfile := "nice-dev",
    awsRegion := "eu-west-1",
    whisperModelId := "NbAiLab/nb-whisper-large",
    whisperLanguage := "no",
    whisperChunkLengthS := 30,
    bedrockModelId := "eu.anthropic.claude-sonnet-4-5-20250929-v1:0",
    bedrockMaxTokens := 2000,
    maxUploadSizeMb := 500,
    allowedAudioExtensions := ".m4a,.wav,.mp3,.aac,.flac,.ogg,.webm",
    recordingsDir := "./backend/recordings")

  const DefaultExtensions: seq<string> := [".m4a", ".wav", ".mp3", ".aac", ".flac", ".ogg", ".webm"]

  const BytesPerMegabyte: int := 1024 * 1024

  /** `Settings.allowed_extensions_list`: the comma-separated setting, each
      piece stripped of surrounding whitespace, in order. */
  function AllowedExtensionsList(s: Settings): (r: seq<string>)
    ensures |r| == Occurrences(s.allowedAudioExtensions, ',') + 1
    ensures forall i :: 0 <= i < |r| ==> ',' !in r[i]
    ensures forall i :: 0 <= i < |r| ==> IsStripOf(r[i], Split(s.allowedAudioExtensions, ',')[i])
  {
    var pieces := Split(s.allowedAudioExtensions, ',');
    seq(|pieces|, i requires 0 <= i < |pieces| => Strip(pieces[i]))
  }

  /** `Settings.max_upload_size_bytes`. */
  function MaxUploadSizeBytes(s: Settings): (r: int)
    ensures r % BytesPerMegabyte == 0
    ensures r / BytesPerMegabyte == s.maxUploadSizeMb
  {
    s.maxUploadSizeMb * 1024 * 1024
  }

  /** `get_settings()`: the first call builds the settings (from `built`),
      every later call returns that same value. */
  function GetSettings(slot: Option<Settings>, built: Settings): (r: Lazy.Got<Settings>)
    ensures r.slot == Some(r.value)
    ensures slot.Some? ==> r.value == slot.value
    ensures slot.None? ==> r.value == built
  {
    Lazy.Get(slot, built)
  }

  lemma GetSettingsIsCached(slot: Option<Settings>, built: seq<Settings>)
    requires built != []
    ensures forall i :: 0 <= i < |built| ==>
      Lazy.Calls(slot, built)[i] == (if slot.Some? then slot.value else built[0])
  {
    Lazy.SameInstance(slot, built);
  }

  lemma StripOfWord(w: string)
    requires IsWord(w)
    ensures Strip(w) == w
  {
    assert TrimEnd(w) == w;
    assert TrimStart(w) == w;
  }

  /** Reading the list back from a setting written as the comma-joined list
      gives the list: pieces that carry no comma and no surrounding
      whitespace come back unchanged and in order. */
  lemma {:induction false} ExtensionsListOfJoin(s: Settings, exts: seq<string>)
    requires exts != []
    requires forall i :: 0 <= i < |exts| ==> ',' !in exts[i] && IsWord(exts[i])
    requires s.allowedAudioExtensions == Join(",", exts)
    ensures AllowedExtensionsList(s) == exts
  {
    SplitJoin(exts, ',');
    var r := AllowedExtensionsList(s);
    forall i | 0 <= i < |exts| ensures r[i] == exts[i] {
      StripOfWord(exts[i]);
    }
  }

  /** Conversely, a setting without whitespace is the comma-join of its list. */
  lemma ExtensionsListJoinsBack(s: Settings)
    requires NoSpace(s.allowedAudioExtensions)
    ensures Join(",", AllowedExtensionsList(s)) == s.allowedAudioExtensions
  {
    var pieces := Split(s.allowedAudioExtensions, ',');
    var r := AllowedExtensionsList(s);
    NoSpaceInPieces(s.allowedAudioExtensions);
    forall i | 0 <= i < |pieces| ensures r[i] == pieces[i] {
      if pieces[i] != [] {
        StripOfWord(pieces[i]);
      }
    }
    assert r == pieces;
    JoinSplit(s.allowedAudioExtensions, ',');
  }

  lemma {:induction false} NoSpaceInPieces(text: string)
    requires NoSpace(text)
    ensures forall i :: 0 <= i < |Split(text, ',')| ==> NoSpace(Split(text, ',')[i])
    decreases |text|
  {
    if text != [] {
      var pre := text[..|text| - 1];
      assert NoSpace(pre) by {
        forall k | 0 <= k < |pre| ensures !IsSpace(pre[k]) {
          assert pre[k] == text[k];
        }
      }
      NoSpaceInPieces(pre);
      var init := Split(pre, ',');
      var c := text[|text| - 1];
      if c != ',' {
        var last := init[|init| - 1] + [c];
        assert NoSpace(last) by {
          forall k | 0 <= k < |last| ensures !IsSpace(last[k]) {
            if k < |last| - 1 {
              assert last[k] == init[|init| - 1][k];
            }
          }
        }
      }
    }
  }

  /** With no overrides the list is exactly the seven audio extensions. */
  lemma DefaultExtensionsList()
    ensures AllowedExtensionsList(Defaults) == DefaultExtensions
  {
    var e := DefaultExtensions;
    DefaultExtensionsJoin();
    DefaultExtensionsAreWords();
    ExtensionsListOfJoin(Defaults, e);
  }

  lemma DefaultExtensionsJoin()
    ensures Join(",", DefaultExtensions) == Defaults.allowedAudioExtensions
  {
    var e := DefaultExtensions;
    assert e[..1] == [".m4a"];
    JoinStep(",", e, 1);
    assert Join(",", e[..2]) == ".m4a,.wav";
    JoinStep(",", e, 2);
    assert Join(",", e[..3]) == ".m4a,.wav,.mp3";
    JoinStep(",", e, 3);
    assert Join(",", e[..4]) == ".m4a,.wav,.mp3,.aac";
    JoinStep(",", e, 4);
    assert Join(",", e[..5]) == ".m4a,.wav,.mp3,.aac,.flac";
    JoinStep(",", e, 5);
    assert Join(",", e[..6]) == ".m4a,.wav,.mp3,.aac,.flac,.ogg";
    JoinStep(",", e, 6);
    assert e[..7] == e;
  }

  lemma DefaultExtensionsAreWords()
    ensures forall i :: 0 <= i < |DefaultExtensions| ==> ',' !in DefaultExtensions[i] && IsWord(DefaultExtensions[i])
  {
    forall i | 0 <= i < |DefaultExtensions|
      ensures ',' !in DefaultExtensions[i] && IsWord(DefaultExtensions[i])
    {
      PrintableWord(DefaultExtensions[i]);
    }
  }

  lemma DefaultMaxUploadSize()
    ensures MaxUploadSizeBytes(Defaults) == 524288000
  {
  }
}
