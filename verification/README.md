# Thale backend core in Dafny

Thale is a Norwegian speech-to-text web application. Its Python backend
transcribes uploaded and live-streamed audio with NB-Whisper and summarises
text with Claude on AWS Bedrock. This project models the logic of that
backend that does not depend on the neural decoder or the network:

- `whisper.dfy` (`Whisper`): the speech-to-text service. It covers the load
  and unload protocol, `_format_time`, and the cutting of a waveform into
  fixed-size windows. It also covers the decoding loop with its progress
  reports, the joining of the decoded pieces, the word count and the
  `get_whisper_service` singleton. The decoder is a function parameter.
- `streaming.dfy` (`Streaming`): the live-transcription websocket as a state
  machine. Its state is the temporary file, the frame counter and the
  connection phase. Each event is a received frame, a text frame or a
  disconnect. Transcribing the whole file is a function parameter.
- `transcription.dfy` (`Transcription`): upload validation. This means the
  `pathlib` suffix of the file name, lower-cased and looked up in the allowed
  list. It also covers the placeholder results of `/upload` and
  `/upload/stream`, and the lookup that always answers 404.
- `config.dfy` (`Config`): the settings defaults, the parsed
  extension list, the upload limit in bytes and the cached `get_settings`.
- `models.dfy` (`Models`): the pydantic schemas. Each has a validating
  constructor that applies field bounds and defaults.
- `bedrock.dfy` (`Bedrock`): the summarisation client. It covers
  availability, prompt templates with their fallback, and the 15000-character
  truncation. It also covers the request body, the reading of the model's
  JSON answer, the fixed fallback and error strings, and the singleton.
  `invoke_model` is a function parameter that returns a JSON value or an
  exception message.
- `summarization.dfy` (`Summarization`): the `/summarize` placeholder with
  its word counts.
- `text.dfy` (`Text`): the Python string operations used above, each defined
  once. These are `str.split()` (the word count), `str.strip()`,
  `str.split(sep)`, `sep.join`, `str.lower()` and `str(n)`.
- `lazy.dfy` (`Lazy`): the memoised accessor behind `lru_cache` and the
  module-level singletons.
- `wrappers.dfy` (`Wrappers`): `Option` and `Result`.

The websocket decodes on every fifth binary frame. It awaits each decode
inside the receive loop, so the decodes of one connection never overlap.
Each decode therefore sees a prefix of the audio received so far, and later
decodes see prefixes that extend the earlier ones
(`Streaming.DecodedAreGrowingPrefixes`).

## Model

| member | source | states |
|---|---|---|
| Whisper.NewWhisperService | backend/app/services/whisper_service.py:51-65 | A new service keeps the configuration it was given and has nothing loaded: no model, no processor, no device, loaded flag clear |
| Whisper.DefaultWhisperService | backend/app/services/whisper_service.py:51-56 | The constructor defaults are NB-Whisper large, language "no" and 30-second windows |
| Whisper.DeviceName | backend/app/services/whisper_service.py:72-77 | The name is "not loaded" exactly when no device has been chosen, and otherwise `str` of the device: "cuda" or "cpu" |
| Whisper.LoadModel | backend/app/services/whisper_service.py:79-108 | Loading is a no-op when already loaded. Otherwise the device is chosen first, and the call succeeds iff both the processor and the model load. On success the model and processor come from the service's model id and the flag is set; on failure the flag stays clear. The flag never claims a model that is absent, and the configuration never changes |
| Whisper.UnloadModel | backend/app/services/whisper_service.py:110-118 | Unloading drops the model and processor and clears the flag; the device and configuration stay |
| Whisper.LoadIsIdempotent | backend/app/services/whisper_service.py:85-87 | Loading an already loaded service, on any machine, returns it unchanged |
| Whisper.UnloadThenLoad | backend/app/services/whisper_service.py:79-118 | After an unload, a load is not skipped and really reloads the weights |
| Whisper.Trunc | backend/app/services/whisper_service.py:128 | `int(x)` truncates toward zero: the result is the integer nearest zero that lies within 1 of x |
| Whisper.FormatTime | backend/app/services/whisper_service.py:126-128 | Under one day, the text has the H:MM:SS shape (7 or 8 characters with colons at fixed places from the end) and reads back as the truncated seconds |
| Whisper.ClockRoundTrip | backend/app/services/whisper_service.py:126-128 | For 0 <= n < 86400 seconds, `str(timedelta)` parses back to n and has the H:MM:SS shape |
| Whisper.ParseClockCanonical | backend/app/services/whisper_service.py:126-128 | The clock reader accepts only what `str(timedelta)` prints: hours without a leading zero, minutes and seconds as two digits below 60. Any accepted string is the printed form of its own value, so distinct strings never read as the same time |
| Whisper.ChunkCount | backend/app/services/whisper_service.py:245-246 | For a positive window size the count n is the ceiling: (n-1)·C < L <= n·C. For a negative size the count is not positive |
| Whisper.WindowStart | backend/app/services/whisper_service.py:254 | Window i starts at i·C, inside the waveform |
| Whisper.WindowEnd | backend/app/services/whisper_service.py:255 | Window i ends after its start and no later than the waveform's end |
| Whisper.Windows | backend/app/services/whisper_service.py:252-256 | There is one window per loop iteration, ceil(L/C) in all |
| Whisper.WindowShape | backend/app/services/whisper_service.py:252-256 | Every window is non-empty and holds at most C samples. All but the last hold exactly C, each ends where the next starts, and the last ends at the waveform's end |
| Whisper.WindowsCoverWaveform | backend/app/services/whisper_service.py:252-256 | The windows laid end to end are the waveform: nothing is lost, repeated or reordered |
| Whisper.WindowCount | backend/app/services/whisper_service.py:245-246 | The number of windows times C covers the waveform, and one window fewer would not |
| Whisper.Outputs | backend/app/services/whisper_service.py:277-281 | The i-th output is the decoder's answer for the i-th window |
| Whisper.FirstFailure | backend/app/services/whisper_service.py:252-284 | The index where the loop stops: every earlier window decoded, and that window raised unless it is the window count |
| Whisper.Pieces | backend/app/services/whisper_service.py:283-284 | The gathered pieces are never blank and are already stripped, and there are no more of them than decoder texts |
| Whisper.PiecesAreKeptTexts | backend/app/services/whisper_service.py:283-284 | The pieces are the decoder texts that are not blank once stripped, each stripped, in window order. The k-th piece is the stripped text at the k-th such position; these positions strictly increase, and every non-blank text's position is among them |
| Whisper.PiecesPrefix | backend/app/services/whisper_service.py:283-284 | Later decoder texts never change the pieces already gathered |
| Whisper.PiecesKeepWords | backend/app/services/whisper_service.py:283-288 | The word count of the space-joined pieces is the sum of the word counts of all decoder texts, blank ones included |
| Whisper.TranscriptWordCount | backend/app/services/whisper_service.py:287-288 | A run in which every window decodes reports as its word count the sum of the decoders' word counts |
| Whisper.Percent | backend/app/services/whisper_service.py:259 | The percentage lies in (0, 100] and the last window reports exactly 100 |
| Whisper.SecondsOfSamples | backend/app/services/whisper_service.py:260-261 | `int(samples / 16000)` is the floor quotient of the sample offset |
| Whisper.WindowMessageFormatsTime | backend/app/services/whisper_service.py:260-268 | The progress message is "Processing" followed by `_format_time` of the window's start and end in seconds |
| Whisper.ReportsOrdered | backend/app/services/whisper_service.py:263-270 | Reports number the windows 1..n against the same total n. Their percentage never falls and stays in (0, 100], and each partial text extends the previous one |
| Whisper.TranscribeWaveform | backend/app/services/whisper_service.py:233-297 | A zero window size raises before any report. An empty waveform gives "", 0 words and 0 windows, and a negative window size gives no windows. Otherwise there is one report per window, issued before that window is decoded and carrying the pieces of the windows before it. The first decoder exception ends the run; with no exception the text is the space-join of the stripped non-blank pieces in window order, with its word count and the window count |
| Whisper.DecodeWindows | backend/app/services/whisper_service.py:252-297 | With a positive window size the run reports windows up to and including the first that raises, and succeeds with the joined text, its word count and the window count when none raises |
| Whisper.DecodeUntilFailure | backend/app/services/whisper_service.py:252-284 | The loop stops at the first window whose decode raises, or after the last. It keeps every earlier text, the reports for each window it started and the pieces of those texts |
| Whisper.DecodeWindow | backend/app/services/whisper_service.py:253-284 | One iteration issues the report for window i before decoding exactly that window's samples, and a successful text joins the pieces as `Pieces` prescribes |
| Whisper.IssuedExtend | backend/app/services/whisper_service.py:263-270 | A report only sees the texts of earlier windows, so a new text leaves the reports already issued unchanged |
| Whisper.GetWhisperService | backend/app/services/whisper_service.py:334-345 | The first call builds the service from the cached settings' model, language and window length. Later calls return the stored instance without reading the settings |
| Whisper.SameWhisperService | backend/app/services/whisper_service.py:331-345 | A second call, whatever the environment then says, returns exactly what the first call returned |
| Whisper.DefaultWindowSize | backend/app/config.py:29-31 | With default settings the service uses NB-Whisper large, language "no" and windows of 480000 samples (30 s at 16 kHz) |
| Streaming.Reply | backend/app/routers/streaming.py:82-93 | A message is sent iff transcription succeeded with a non-blank text, and it carries that text verbatim with `is_final` false. Failures send nothing |
| Streaming.Open | backend/app/routers/streaming.py:34-50 | A connection starts with an empty file and count 0. When the model is not loaded, "loading_model" is sent first and then "ready" if loading succeeds. If loading fails, the socket closes with 1011 and the file is removed |
| Streaming.Step | backend/app/routers/streaming.py:55-110 | A binary frame is appended to the file and counted. The whole file is transcribed exactly when the new count is a multiple of 5 and the file exceeds 10240 bytes, and only then can a message go out. A text frame closes with 1011, a disconnect ends quietly, and both remove the file. After the loop ends nothing changes. The file exists exactly while the connection is served |
| Streaming.Run | backend/app/routers/streaming.py:55-93 | A run transcribes at most once per event and sends at most one message per transcription, and the file exists exactly while serving |
| Streaming.Replies | backend/app/routers/streaming.py:82-87 | Every message the loop sends is a non-final transcription |
| Streaming.FileIsAllFrames | backend/app/routers/streaming.py:58-64 | After n binary frames the file is the old content followed by the frames in arrival order, and the count has grown by n |
| Streaming.SentAreReplies | backend/app/routers/streaming.py:80-93 | The messages sent are exactly the replies to the transcriptions made, in the order made; nothing else is sent |
| Streaming.DecodedAreGrowingPrefixes | backend/app/routers/streaming.py:55-87 | Each transcribed content extends the one before and is a prefix of the current file: decodes are serial over a growing file |
| Streaming.DecodeSchedule | backend/app/routers/streaming.py:64-80 | From a fresh connection, the n-th frame triggers a transcription iff n is a multiple of 5 and the concatenated frames exceed 10240 bytes, and that transcription covers all frames received |
| Streaming.StateIgnoresTranscriber | backend/app/routers/streaming.py:89-93 | What transcription returns, success, blank or exception, never changes the file, the count, the phase or which contents get transcribed |
| Streaming.ClosedIsFinal | backend/app/routers/streaming.py:95-110 | Once the loop has ended the file is gone, and later events change nothing |
| Streaming.SessionMessages | backend/app/routers/streaming.py:46-50 | The status messages come first: none when the model was loaded, two when it loaded, one when loading failed. Everything after them is a transcription, and a failed load looks at no frame |
| Config.AllowedExtensionsList | backend/app/config.py:42-45 | The list has one element more than the setting has commas. No element holds a comma, and the i-th element is the i-th comma-separated piece with surrounding whitespace stripped |
| Config.MaxUploadSizeBytes | backend/app/config.py:47-50 | The byte limit is a whole number of mebibytes, namely the configured number of megabytes |
| Config.GetSettings | backend/app/config.py:58-61 | The first call stores and returns the freshly built settings; later calls return the stored ones |
| Config.GetSettingsIsCached | backend/app/config.py:58-61 | Every call of a sequence returns the same settings value, the one the first call built |
| Config.ExtensionsListOfJoin | backend/app/config.py:45 | A setting written as the comma-join of whitespace-free, comma-free extensions parses back to exactly those extensions, in order |
| Config.ExtensionsListJoinsBack | backend/app/config.py:45 | A setting without whitespace is the comma-join of its parsed list |
| Config.DefaultExtensionsList | backend/app/config.py:39-45 | By default the list is exactly .m4a, .wav, .mp3, .aac, .flac, .ogg, .webm |
| Config.DefaultMaxUploadSize | backend/app/config.py:38-50 | The default 500 MB limit is 524288000 bytes |
| Lazy.Get | backend/app/config.py:58-61 | The value handed out is the one in the slot if there is one, or else the newly created one, which is then stored |
| Lazy.SameInstance | backend/app/services/whisper_service.py:331-345 | Every call in a sequence hands out the same value: the stored one, or the one the first call created |
| Transcription.NameSuffix | backend/app/routers/transcription.py:34 | The suffix is empty, or it is a tail of the name that starts with the name's last dot, has no further dot and is shorter than the name |
| Transcription.ValidateAudioFile | backend/app/routers/transcription.py:29-39 | A missing or empty name is refused with 400 "No filename provided". Otherwise the file passes iff its lower-cased suffix is in the allowed list, and a refusal is 400 naming that extension and the configured list |
| Transcription.SuffixOfPlainName | backend/app/routers/transcription.py:34 | The suffix of "stem.ext" is ".ext" |
| Transcription.ExtensionIgnoresCase | backend/app/routers/transcription.py:34 | The checked extension of a name equals that of the lower-cased name |
| Transcription.ValidationIgnoresCase | backend/app/routers/transcription.py:34-39 | Validation gives the same verdict for a name and its lower-cased form |
| Transcription.DefaultValidation | backend/app/routers/transcription.py:34-35 | With default settings "stem.ext" passes iff ".ext", lower-cased, is one of the seven default audio extensions |
| Transcription.TranscribeAudio | backend/app/routers/transcription.py:42-82 | Validation comes first and its error is the endpoint's error. An accepted file gets status completed, duration 0.0, the placeholder text naming the file, that text's word count, the given id and the given times |
| Transcription.PlaceholderWordCount | backend/app/routers/transcription.py:70-79 | The placeholder's word count is 3 plus the words of the name with its closing bracket. It is at least 4, and exactly 4 for a name without whitespace |
| Transcription.GetTranscription | backend/app/routers/transcription.py:135-143 | Every lookup fails with 404 "Transcription not found" |
| Transcription.TranscribeAudioStream | backend/app/routers/transcription.py:85-132 | Validation comes first. An accepted file gets a valid "processing" progress event and then a completion event with the placeholder text and the constant word count 5 |
| Transcription.StreamWordCountIsWrong | backend/app/routers/transcription.py:124-126 | For an accepted name of two words, such as "my recording.wav", the stream reports 5 words for a text of 6 |
| Transcription.StreamWordCount | backend/app/routers/transcription.py:124-126 | The stream placeholder has 4 words plus those of the name with its bracket, which is 5 only for a name without whitespace |
| Transcription.TranscribeAudioStreamCounted | backend/app/routers/transcription.py:119-130 | The corrected stream: validation comes first, and the completion's word count is that of its own text, which is 5 for a name without whitespace |
| Models.ParseStatus | backend/app/models.py:11-16 | A status value parses iff it is one of the four values, and parses to the member with that value |
| Models.StatusRoundTrip | backend/app/models.py:11-16 | Every status survives the trip to its value and back, so the four values are distinct |
| Models.NewTranscriptionProgress | backend/app/models.py:25-32 | A progress record validates iff status and progress_percent are both given and 0 <= percent <= 100. The chunk counters default to 0 and the texts to "", and every supplied value is kept. On failure, "status" is named exactly when it is missing and "progress_percent" exactly when it is missing or out of range |
| Models.NewSummarizationRequest | backend/app/models.py:46-51 | A request validates iff the text is given and has at least 10 characters and max_length, if given, lies in [100, 2000]. Style defaults to "meeting_notes", max_length to 500 and prompt to None. On failure, "text" is named exactly when it is missing or too short, and "max_length" exactly when it is out of range |
| Models.DefaultsAreValid | backend/app/models.py:48-51 | With all defaults only the text decides validity: it must be present and at least 10 characters long |
| Models.NewErrorResponse | backend/app/models.py:71-75 | An error response validates iff error and code are present. Detail is optional: it defaults to None and a supplied detail is kept. On failure exactly the missing required fields are named, and nothing else |
| Bedrock.TemplateFor | backend/app/services/bedrock_service.py:108 | A known style selects its own template; any other style falls back to meeting notes |
| Bedrock.Truncate | backend/app/services/bedrock_service.py:109 | The substituted text is a prefix of the input of at most 15000 characters, and is the whole input when the input is that short |
| Bedrock.PromptSeesOnlyTheHead | backend/app/services/bedrock_service.py:109 | Two texts with the same first 15000 characters give the same prompt, whose length is the template's plus 15000 |
| Bedrock.PromptRoundTrip | backend/app/services/bedrock_service.py:108-109 | The (truncated) text can be read back from between the template's two halves of the prompt |
| Bedrock.NewBedrockService | backend/app/services/bedrock_service.py:61-85 | Construction never raises. The service is available iff the session and client could be created, and it keeps the model id and token limit |
| Bedrock.DefaultBedrockService | backend/app/services/bedrock_service.py:61-67 | The constructor defaults are the EU Bedrock model id given in the source and 1000 tokens |
| Bedrock.Contains | backend/app/services/bedrock_service.py:134 | Python's `in` is key lookup on a dict and element test on a list, and it raises on a value that is not a container |
| Bedrock.Index | backend/app/services/bedrock_service.py:134 | Indexing a dict by a present key gives its value; indexing anything but a dict by a string raises |
| Bedrock.TextParts | backend/app/services/bedrock_service.py:135-138 | The item loop succeeds iff every item is a dict, and it collects at most one part per item |
| Bedrock.JoinStrings | backend/app/services/bedrock_service.py:139 | The newline join succeeds iff every part is a string |
| Bedrock.Extract | backend/app/services/bedrock_service.py:133-141 | A dict answer without a "content" list yields the no-response text. An answer that is not a container raises |
| Bedrock.ExtractTextItems | backend/app/services/bedrock_service.py:134-139 | An answer whose content is a list of text items reads back as exactly those texts, in order, joined by newlines |
| Bedrock.SkipsOtherItems | backend/app/services/bedrock_service.py:136-138 | Inserting a dict item that is not a text item anywhere in the content list changes neither the collected parts nor the error raised |
| Bedrock.TextFieldsSnoc | backend/app/services/bedrock_service.py:136-138 | The front-to-back reference reading grows by the "text" value of an appended item exactly when that item is a text item |
| Bedrock.TextPartsAreTextFields | backend/app/services/bedrock_service.py:135-138 | For any content list of dicts, text items and others mixed, the collected parts are exactly the "text" values of the text items, in list order |
| Bedrock.ExtractContent | backend/app/services/bedrock_service.py:133-139 | An answer whose "content" is a list of dicts reads back as the "\n"-join of the "text" values of its text items, in order, with every other dict skipped |
| Bedrock.NonDictItemRaises | backend/app/services/bedrock_service.py:137 | Any item that is not a dict makes extraction raise |
| Bedrock.Exchange | backend/app/services/bedrock_service.py:124-145 | A raised exception, or one raised while reading the answer, becomes the error prefix plus its message. Otherwise the extracted text is returned |
| Bedrock.Summarize | backend/app/services/bedrock_service.py:87-145 | Without a client nothing is sent and the fixed "not configured" text is returned. Otherwise one request goes out to the service's model carrying one user message with the prompt, temperature 0.3 and the service's token limit |
| Bedrock.SummarizeIgnoresMaxLength | backend/app/services/bedrock_service.py:87-109 | The requested summary length has no effect on what is sent or returned |
| Bedrock.UnknownStyleIsMeetingNotes | backend/app/services/bedrock_service.py:108 | An unknown style is summarised exactly as "meeting_notes" is |
| Bedrock.SummarizeFailuresAreText | backend/app/services/bedrock_service.py:143-145 | With a client, every failure shows as returned text that starts with "Feil ved oppsummering: "; nothing is raised |
| Bedrock.Chat | backend/app/services/bedrock_service.py:147-188 | Without a client nothing is sent and the fixed "not configured" text is returned. Otherwise the caller's messages go out at temperature 0.7 and the service's token limit, and failures become "Feil: " text |
| Bedrock.ChatMessages | backend/app/services/bedrock_service.py:161-166 | The messages go out one JSON object per message, in order, with the same keys, each mapped to its own string value |
| Bedrock.GetBedrockService | backend/app/services/bedrock_service.py:195-207 | The first call builds the service from the cached settings' model id and token limit; later calls return the stored instance |
| Bedrock.DefaultTokenLimit | backend/app/services/bedrock_service.py:195-207 | With default settings the shared service asks for 2000 tokens, while the bare constructor default is 1000 |
| Summarization.SummarizeText | backend/app/routers/summarization.py:17-42 | The original count is the text's word count and the style is echoed unchanged. The summary names the style and that count, and its own word count is 9 plus the words of the style with its bracket: 10 for a style without whitespace |
| Summarization.SummaryWords | backend/app/routers/summarization.py:35-40 | The placeholder summary has 9 fixed words plus those of the bracketed style |
| Summarization.SummaryDependsOnCountAndStyle | backend/app/routers/summarization.py:32-41 | Requests with the same style and the same word count get the same answer; the prompt and max_length play no part |
| Summarization.SummaryNamesTheCount | backend/app/routers/summarization.py:35 | The numeral inside the summary is all digits and reads back as the original word count |
| Text.Strip | backend/app/services/whisper_service.py:283-284 | The result is what remains after removing a whitespace prefix and a whitespace suffix, with non-space ends; it is empty iff the text is all whitespace |
| Text.StripIdempotent | backend/app/services/whisper_service.py:283-284 | Stripping a stripped text changes nothing |
| Text.WordsOfJoinSpace | backend/app/services/whisper_service.py:287-288 | The word count of texts joined with spaces is the sum of their word counts |
| Text.Split | backend/app/config.py:45 | Splitting on a separator gives one piece more than there are separators, none holding it |
| Text.JoinSplit | backend/app/config.py:45 | Joining the pieces with the separator restores the text |
| Text.SplitJoin | backend/app/config.py:45 | Splitting the join of separator-free pieces gives back those pieces |
| Text.Lower | backend/app/routers/transcription.py:34 | Lower-casing keeps the length, leaves no upper-case ASCII letter and changes exactly the upper-case ASCII letters, each into its lower-case letter |
| Text.NatToString | backend/app/routers/summarization.py:35 | The numeral is non-empty, all digits, without a leading zero, and reads back as the number |
| Text.CanonicalNumeral | backend/app/routers/summarization.py:35 | Every numeral without a leading zero is the printed form of its own value, so the printed form is the only such spelling of a number |

## Left out

- Audio I/O is not modelled. `transcribe_file` and `transcribe_bytes` (whisper_service.py:130-231) only load, downmix and resample audio with librosa/soundfile before calling `_transcribe_waveform`. The waveform is an abstract sequence of samples, and the duration is a parameter.
- Neural decoding is a parameter. `_transcribe_chunk` (whisper_service.py:299-327) runs the processor and `generate` in torch; here it is the function `decode`, which returns a text or an exception message.
- Whisper.LoadModel: the torch and transformers calls are replaced by a record of whether CUDA is present and whether each `from_pretrained` succeeds. Logging and `torch.cuda.empty_cache` are omitted.
- Whisper.TranscribeWaveform: the progress callback is modelled as always present; with no callback the reports are simply not delivered. Terminal logging is omitted, and `run_in_executor` is a plain call.
- Whisper.Percent and Models.NewTranscriptionProgress use exact reals, not IEEE doubles. Rounding in `(i + 1) / num_chunks * 100` is not modelled.
- Whisper.FormatTime: the contract covers 0 <= seconds < 86400. Negative seconds and durations of a day or more are modelled by the function (with the "D day(s), " prefix) but carry no contract.
- Streaming: the temporary file's path, the websocket transport and the log lines are not modelled. A failure to send a message (streaming.py:83-87, swallowed by the `except` at 89) is not modelled. The router is not mounted in `main.py`; the model describes the endpoint as written.
- Streaming.Open: loading the model is reduced to "loads or raises", and the load's own state change is not tracked here (see Whisper.LoadModel).
- Transcription: the SSE framing of `/upload/stream`, `uuid4`, `datetime.utcnow`, the `language` and `generate_summary` form fields (accepted and unused), and the size logging are not modelled. The id and times are parameters.
- Config: reading environment variables and `.env` is the caller's job, since `GetSettings` receives the value construction would produce. `max_upload_size_bytes` is never enforced by any endpoint, so no endpoint checks it here either.
- Models: `TranscriptionRequest`, `TranscriptionResult`, `SummarizationResult` and `HealthResponse` are plain records with no constraints; `TranscriptionRequest` and `HealthResponse` are not used by the modelled endpoints and are omitted. Pydantic's type coercion (for example a numeric string for an int) is not modelled.
- Text.Lower: only ASCII letters are lower-cased, whereas Python's `str.lower` folds all of Unicode.
- Bedrock: the boto3 session and `invoke_model` (including reading and JSON-decoding the body) are the parameter `invoke`. `json.dumps` of the request is kept as a JSON value. Exception messages raised on malformed answers follow CPython 3.11's wording.
- Bedrock.Contains: the substring case of `in` on a string is modelled, but it carries no contract beyond "does not raise".
- Bedrock.Extract: the contract gives the fallback and raising cases; the content-list case is stated by Bedrock.ExtractContent (any list of dicts, against the reference Bedrock.TextFields) and Bedrock.NonDictItemRaises (a non-dict item).
- Logging, FastAPI wiring, CORS and the root and health endpoints (`main.py`) are not modelled.
- The client-side recording state machine, recording persistence and session restore have no backend code, so they are not modelled.

## Findings

| source | as written | input that shows it | evidently intended | confidence | as-written member | corrected member |
|---|---|---|---|---|---|---|
| backend/app/routers/transcription.py:124-126 | The `/upload/stream` completion event reports `word_count=5` for the text "[Streaming transcription placeholder for {filename}]" | filename "my recording.wav": the text has 6 words but 5 is reported | `word_count=len(text.split())`, as `/upload` does at line 79 | not executed | Transcription.StreamWordCountIsWrong | Transcription.TranscribeAudioStreamCounted |
