/**
 The request and response schemas of the HTTP API (backend/app/models.py).

 Each schema is a datatype; each schema whose fields carry a constraint or a
 default gets a constructor function in the role of pydantic validation:
 it takes the fields the client supplied (`None` for an absent field),
 fills in defaults, and either returns the record or the names of the
 fields that fail validation, in declaration order.
 */
module Models {
  import opened Wrappers

  datatype TranscriptionStatus = Pending | Processing | Completed | Failed {
    /** The string value of the enum member, as it appears in JSON. */
    function Value(): string {
      match this
      case Pending => "pending"
      case Processing => "processing"
      case Completed => "completed"
      case Failed => "failed"
    }
  }

  /** `TranscriptionStatus(v)`: the member whose value is `v`, if any. */
  function ParseStatus(v: string): (r: Option<TranscriptionStatus>)
    ensures r.Some? ==> r.value.Value() == v
    ensures r.Some? <==> v in {"pending", "processing", "completed", "failed"}
  {
    if v == "pending" then Some(Pending)
    else if v == "processing" then Some(Processing)
    else if v == "completed" then Some(Completed)
    else if v == "failed" then Some(Failed)
    else None
  }

  /** Every member survives the trip to its JSON value and back, so the four
      values are pairwise distinct. */
  lemma StatusRoundTrip(st: TranscriptionStatus)
    ensures ParseStatus(st.Value()) == Some(st)
  {
  }

  /** Field names that failed validation. */
  type ValidationErrors = seq<string>

  datatype TranscriptionProgress = TranscriptionProgress(
    status: TranscriptionStatus,
    progressPercent: real,
    currentChunk: int,
    totalChunks: int,
    message: string,
    partialText: string)

  /** The constraint pydantic enforces on a progress record. */
  predicate ValidProgress(p: TranscriptionProgress) {
    0.0 <= p.progressPercent <= 100.0
  }

  /** Validating a `TranscriptionProgress`: `status` and `progress_percent`
      are required and the percentage must lie in [0, 100]; chunk counters
      default to 0 and texts to "". */
  function NewTranscriptionProgress(
    status: Option<TranscriptionStatus>,
    progressPercent: Option<real>,
    currentChunk: Option<int>,
    totalChunks: Option<int>,
    message: Option<string>,
    partialText: Option<string>): (r: Result<TranscriptionProgress, ValidationErrors>)
    ensures r.Ok? <==> status.Some? && progressPercent.Some? && 0.0 <= progressPercent.value <= 100.0
    ensures r.Ok? ==> ValidProgress(r.value)
    ensures r.Ok? ==> r.value.status == status.value && r.value.progressPercent == progressPercent.value
    ensures r.Ok? && currentChunk.None? ==> r.value.currentChunk == 0
    ensures r.Ok? && totalChunks.None? ==> r.value.totalChunks == 0
    ensures r.Ok? && message.None? ==> r.value.message == ""
    ensures r.Ok? && partialText.None? ==> r.value.partialText == ""
    ensures r.Ok? && currentChunk.Some? ==> r.value.currentChunk == currentChunk.value
    ensures r.Ok? && totalChunks.Some? ==> r.value.totalChunks == totalChunks.value
    ensures r.Ok? && message.Some? ==> r.value.message == message.value
    ensures r.Ok? && partialText.Some? ==> r.value.partialText == partialText.value
    ensures r.Err? ==> ("status" in r.error <==> status.None?)
    ensures r.Err? ==> ("progress_percent" in r.error <==>
      progressPercent.None? || !(0.0 <= progressPercent.value <= 100.0))
    ensures r.Err? ==> forall e :: e in r.error ==> e in {"status", "progress_percent"}
  {
    var errors :=
      (if status.None? then ["status"] else [])
      + (if progressPercent.Some? && 0.0 <= progressPercent.value <= 100.0 then [] else ["progress_percent"]);
    if errors == [] then
      Ok(TranscriptionProgress(
        status.value, progressPercent.value,
        GetOr(currentChunk, 0), GetOr(totalChunks, 0),
        GetOr(message, ""), GetOr(partialText, "")))
    else
      Err(errors)
  }

  function GetOr<T>(o: Option<T>, default: T): T {
    if o.Some? then o.value else default
  }

  datatype TranscriptionResult = TranscriptionResult(
    id: string,
    status: TranscriptionStatus,
    text: string,
    durationSeconds: real,
    wordCount: int,
    processingTimeSeconds: real,
    createdAt: int)

  const SummaryMinTextLength := 10
  const SummaryMaxLengthLow := 100
  const SummaryMaxLengthHigh := 2000
  const DefaultStyle := "meeting_notes"
  const DefaultMaxLength := 500

  datatype SummarizationRequest = SummarizationRequest(
    text: string,
    style: string,
    maxLength: int,
    prompt: Option<string>)

  predicate ValidSummarizationRequest(q: SummarizationRequest) {
    && |q.text| >= SummaryMinTextLength
    && SummaryMaxLengthLow <= q.maxLength <= SummaryMaxLengthHigh
  }

  /** Validating a `SummarizationRequest`. The text is required and must hold
      at least ten characters; `max_length` must lie in [100, 2000]; absent
      fields take the defaults "meeting_notes", 500 and `None`. Every failing
      field is reported. */
  function NewSummarizationRequest(
    text: Option<string>,
    style: Option<string>,
    maxLength: Option<int>,
    prompt: Option<Option<string>>): (r: Result<SummarizationRequest, ValidationErrors>)
    ensures r.Ok? <==> text.Some? && |text.value| >= 10 && (maxLength.None? || 100 <= maxLength.value <= 2000)
    ensures r.Ok? ==> ValidSummarizationRequest(r.value) && r.value.text == text.value
    ensures r.Ok? ==> r.value.style == (if style.Some? then style.value else "meeting_notes")
    ensures r.Ok? ==> r.value.maxLength == (if maxLength.Some? then maxLength.value else 500)
    ensures r.Ok? ==> r.value.prompt == (if prompt.Some? then prompt.value else None)
    ensures r.Err? ==> ("text" in r.error <==> text.None? || |text.value| < 10)
    ensures r.Err? ==> ("max_length" in r.error <==> maxLength.Some? && !(100 <= maxLength.value <= 2000))
    ensures r.Err? ==> forall e :: e in r.error ==> e in {"text", "max_length"}
  {
    var length := GetOr(maxLength, DefaultMaxLength);
    var errors :=
      (if text.Some? && |text.value| >= SummaryMinTextLength then [] else ["text"])
      + (if SummaryMaxLengthLow <= length <= SummaryMaxLengthHigh then [] else ["max_length"]);
    if errors == [] then
      Ok(SummarizationRequest(text.value, GetOr(style, DefaultStyle), length, GetOr(prompt, None)))
    else
      Err(errors)
  }

  /** The defaults alone never fail validation: only the text can. */
  lemma DefaultsAreValid(text: Option<string>)
    ensures NewSummarizationRequest(text, None, None, None).Ok? <==> text.Some? && |text.value| >= 10
  {
  }

  datatype SummarizationResult = SummarizationResult(
    summary: string,
    originalWordCount: int,
    summaryWordCount: int,
    style: string)

  datatype ErrorResponse = ErrorResponse(error: string, detail: Option<string>, code: string)

  /** Validating an `ErrorResponse`: `error` and `code` are required, `detail`
      is optional and defaults to `None`. */
  function NewErrorResponse(
    error: Option<string>,
    detail: Option<Option<string>>,
    code: Option<string>): (r: Result<ErrorResponse, ValidationErrors>)
    ensures r.Ok? <==> error.Some? && code.Some?
    ensures r.Ok? ==> r.value.error == error.value && r.value.code == code.value
    ensures r.Ok? && detail.None? ==> r.value.detail.None?
    ensures r.Ok? && detail.Some? ==> r.value.detail == detail.value
    ensures r.Err? ==> ("error" in r.error <==> error.None?) && ("code" in r.error <==> code.None?)
    ensures r.Err? ==> forall e :: e in r.error ==> e in {"error", "code"}
  {
    var missing := (if error.None? then ["error"] else []) + (if code.None? then ["code"] else []);
    if missing == [] then Ok(ErrorResponse(error.value, GetOr(detail, None), code.value))
    else Err(missing)
  }
}
