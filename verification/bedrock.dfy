/**
 The summarisation client (backend/app/services/bedrock_service.py): prompt
 templates, availability, the request body sent to the model, the reading of
 the model's answer and the strings returned in its place when something
 goes wrong.

 Creating the boto3 session and calling `invoke_model` are collaborators:
 construction is told whether the client could be created, and `invoke` is
 what the call (including reading and JSON-decoding the response body)
 yields, a JSON value or the message of the exception it raised.
 */
module Bedrock {
  import opened Wrappers
  import opened Text
  import Config
  import Lazy

  /** A decoded JSON value, as `json.loads` returns it. */
  datatype Json =
    | JNull
    | JBool(b: bool)
    | JInt(i: int)
    | JFloat(f: real)
    | JStr(s: string)
    | JArr(items: seq<Json>)
    | JObj(fields: map<string, Json>)
  {
    /** `type(v).__name__`. */
    function TypeName(): string {
      match this
      case JNull => "NoneType"
      case JBool(_) => "bool"
      case JInt(_) => "int"
      case JFloat(_) => "float"
      case JStr(_) => "str"
      case JArr(_) => "list"
      case JObj(_) => "dict"
    }
  }

  // ---------------------------------------------------------------------------
  // Prompt templates
  // ---------------------------------------------------------------------------

  /** A template is the text around its single `{text}` placeholder. */
  datatype Template = Template(before: string, after: string)

  const MeetingNotes := Template(
    "Du er en ekspert på å lage strukturerte møtereferater. \n"
    + "Analyser følgende transkripsjon av et møte og lag et profesjonelt møtereferat på norsk.\n"
    + "\n"
    + "Strukturer referatet slik:\n"
    + "1. **Hovedtemaer diskutert**\n"
    + "2. **Viktige beslutninger**\n"
    + "3. **Handlingspunkter** (hvem gjør hva, med frister hvis nevnt)\n"
    + "4. **Oppfølgingssaker**\n"
    + "\n"
    + "Hold referatet konsist men fullstendig.\n"
    + "\n"
    + "TRANSKRIPSJON:\n",
    "\n\nMØTEREFERAT:")

  const BulletPoints := Template(
    "Oppsummer følgende tekst som konsise kulepunkter på norsk.\n"
    + "Fokuser på de viktigste poengene og konklusjonene.\n"
    + "Maks 10 kulepunkter.\n"
    + "\n"
    + "TEKST:\n",
    "\n\nOPPSUMMERING:")

  const ExecutiveSummary := Template(
    "Lag en kort ledersammendrag (executive summary) på norsk av følgende tekst.\n"
    + "Sammendraget skal være 2-3 avsnitt og dekke:\n"
    + "- Hovedbudskapet/konklusjonen\n"
    + "- Viktigste funn eller beslutninger\n"
    + "- Anbefalte neste steg\n"
    + "\n"
    + "TEKST:\n",
    "\n\nLEDERSAMMENDRAG:")

  /** `SUMMARY_PROMPTS`. */
  const SummaryPrompts: map<string, Template> := map[
    "meeting_notes" := MeetingNotes,
    "bullet_points" := BulletPoints,
    "executive_summary" := ExecutiveSummary]

  /** Characters of the input that reach the prompt. */
  const MaxInputChars: nat := 15000

  /** `SUMMARY_PROMPTS.get(style, SUMMARY_PROMPTS["meeting_notes"])`. */
  function TemplateFor(style: string): (t: Template)
    ensures style in SummaryPrompts ==> t == SummaryPrompts[style]
    ensures style !in SummaryPrompts ==> t == MeetingNotes
  {
    if style in SummaryPrompts then SummaryPrompts[style] else MeetingNotes
  }

  /** `text[:15000]`. */
  function Truncate(text: string): (r: string)
    ensures |r| <= MaxInputChars && r <= text
    ensures |text| <= MaxInputChars ==> r == text
  {
    if |text| <= MaxInputChars then text else text[..MaxInputChars]
  }

  /** `template.format(text=text[:15000])`: the truncated text, verbatim, in
      place of the placeholder. */
  function Prompt(style: string, text: string): string {
    var t := TemplateFor(style);
    t.before + Truncate(text) + t.after
  }

  /** Only the first 15000 characters of the text can influence the prompt,
      and the prompt never grows past them. */
  lemma PromptSeesOnlyTheHead(style: string, a: string, b: string)
    requires |a| >= MaxInputChars && |b| >= MaxInputChars
    requires a[..MaxInputChars] == b[..MaxInputChars]
    ensures Prompt(style, a) == Prompt(style, b)
    ensures |Prompt(style, a)| == |TemplateFor(style).before| + MaxInputChars + |TemplateFor(style).after|
  {
    assert Truncate(a) == Truncate(b);
    var t := TemplateFor(style);
    assert |Prompt(style, a)| == |t.before| + |Truncate(a)| + |t.after|;
  }

  /** A prompt gives back the (truncated) text it was made from: the
      templates are told apart by their opening and the text sits between
      the template's two halves. */
  lemma PromptRoundTrip(style: string, text: string)
    ensures var p := Prompt(style, text);
      var t := TemplateFor(style);
      p[|t.before|..|p| - |t.after|] == Truncate(text)
  {
    var p := Prompt(style, text);
    var t := TemplateFor(style);
    assert p[|t.before|..|p| - |t.after|] == (t.before + Truncate(text) + t.after)[|t.before|..|t.before| + |Truncate(text)|];
  }

  // ---------------------------------------------------------------------------
  // The service
  // ---------------------------------------------------------------------------

  /** `client` stands for the boto3 runtime client. */
  datatype Client = Client(region: string, profile: string)

  datatype BedrockService = BedrockService(
    modelId: string,
    maxTokens: int,
    client: Option<Client>,
    initialized: bool)

  /** `BedrockService(...)`: `sessionOk` says whether creating the session
      and client succeeds. A failure is logged and swallowed. */
  function NewBedrockService(profile: string, region: string, modelId: string, maxTokens: int, sessionOk: bool)
    : (svc: BedrockService)
    ensures svc.modelId == modelId && svc.maxTokens == maxTokens
    ensures IsAvailable(svc) <==> sessionOk
  {
    if sessionOk then BedrockService(modelId, maxTokens, Some(Client(region, profile)), true)
    else BedrockService(modelId, maxTokens, None, false)
  }

  /** The constructor's defaults. */
  function DefaultBedrockService(sessionOk: bool): (svc: BedrockService)
    ensures svc.maxTokens == 1000
    ensures svc.modelId == "eu.anthropic.claude-sonnet-4-5-20250929-v1:0"
    ensures IsAvailable(svc) <==> sessionOk
  {
    NewBedrockService("nice-dev", "eu-west-1", "eu.anthropic.claude-sonnet-4-5-20250929-v1:0", 1000, sessionOk)
  }

  /** `is_available`. */
  predicate IsAvailable(svc: BedrockService) {
    svc.initialized && svc.client.Some?
  }

  // ---------------------------------------------------------------------------
  // Request and response
  // ---------------------------------------------------------------------------

  /** One `invoke_model` call: the body is sent as `json.dumps(body)`. */
  datatype Request = Request(modelId: string, contentType: string, accept: string, body: Json)

  /** What `invoke_model` and reading its response yield. */
  datatype Invoked = Raised(message: string) | Responded(body: Json)

  type Invoker = Request -> Invoked

  const AnthropicVersion := "bedrock-2023-05-31"

  function RequestBody(maxTokens: int, temperature: real, messages: Json): Json {
    JObj(map[
      "anthropic_version" := JStr(AnthropicVersion),
      "max_tokens" := JInt(maxTokens),
      "temperature" := JFloat(temperature),
      "messages" := messages])
  }

  function MakeRequest(svc: BedrockService, body: Json): Request {
    Request(svc.modelId, "application/json", "application/json", body)
  }

  /** Python's `key in v`: key lookup in a dict, element test in a list,
      substring test in a str; anything else raises. */
  function Contains(v: Json, key: string): (r: Result<bool, string>)
    ensures r.Err? <==> !(v.JObj? || v.JArr? || v.JStr?)
    ensures v.JObj? ==> r == Ok(key in v.fields)
    ensures v.JArr? ==> r == Ok(JStr(key) in v.items)
  {
    match v
    case JObj(m) => Ok(key in m)
    case JArr(xs) => Ok(JStr(key) in xs)
    case JStr(s) => Ok(IsSubstring(key, s))
    case _ => Err("argument of type '" + v.TypeName() + "' is not iterable")
  }

  predicate IsSubstring(key: string, s: string) {
    exists i :: 0 <= i <= |s| - |key| && OccursAt(key, s, i)
  }

  predicate OccursAt(key: string, s: string, i: int)
    requires 0 <= i <= |s| - |key|
  {
    s[i..i + |key|] == key
  }

  /** Python's `v[key]` for a string key, on a value where `key in v` held. */
  function Index(v: Json, key: string): (r: Result<Json, string>)
    ensures v.JObj? && key in v.fields ==> r == Ok(v.fields[key])
    ensures !v.JObj? ==> r.Err?
  {
    match v
    case JObj(m) => if key in m then Ok(m[key]) else Err("'" + key + "'")
    case JArr(_) => Err("list indices must be integers or slices, not str")
    case JStr(_) => Err("string indices must be integers, not 'str'")
    case _ => Err("'" + v.TypeName() + "' object is not subscriptable")
  }

  /** A content item that contributes: a dict whose "type" is "text" and that
      has a "text" key. */
  predicate IsTextItem(item: Json) {
    item.JObj? && "type" in item.fields && item.fields["type"] == JStr("text") && "text" in item.fields
  }

  /** The loop over the content items: `item.get(...)` raises on anything but
      a dict; text items contribute their "text" value, in order. */
  function TextParts(items: seq<Json>): (r: Result<seq<Json>, string>)
    ensures r.Ok? <==> forall i :: 0 <= i < |items| ==> items[i].JObj?
    ensures r.Ok? ==> |r.value| <= |items|
  {
    if items == [] then Ok([])
    else
      var init := TextParts(items[..|items| - 1]);
      var item := items[|items| - 1];
      if init.Err? then init
      else if !item.JObj? then Err("'" + item.TypeName() + "' object has no attribute 'get'")
      else if IsTextItem(item) then Ok(init.value + [item.fields["text"]])
      else init
  }

  /** `"\n".join(parts)`: every part must be a str. */
  function JoinStrings(sep: string, parts: seq<Json>): (r: Result<string, string>)
    ensures r.Ok? <==> forall i :: 0 <= i < |parts| ==> parts[i].JStr?
  {
    var k := FirstNonString(parts);
    if k < |parts| then Err("sequence item " + NatToString(k) + ": expected str instance, " + parts[k].TypeName() + " found")
    else Ok(Join(sep, Strings(parts)))
  }

  function FirstNonString(parts: seq<Json>): (k: nat)
    ensures k <= |parts|
    ensures forall i :: 0 <= i < k ==> parts[i].JStr?
    ensures k < |parts| ==> !parts[k].JStr?
  {
    if parts == [] then 0
    else if !parts[0].JStr? then 0
    else 1 + FirstNonString(parts[1..])
  }

  function Strings(parts: seq<Json>): (ss: seq<string>)
    requires forall i :: 0 <= i < |parts| ==> parts[i].JStr?
    ensures |ss| == |parts| && forall i :: 0 <= i < |ss| ==> ss[i] == parts[i].s
  {
    seq(|parts|, i requires 0 <= i < |parts| => parts[i].s)
  }

  /** Reading the model's answer: the "\n"-join of the text items of a
      "content" list, `noResponse` when there is no such list, or the message
      of the exception raised on the way. */
  function Extract(body: Json, noResponse: string): (r: Result<string, string>)
    ensures body.JObj? && ("content" !in body.fields || !body.fields["content"].JArr?) ==> r == Ok(noResponse)
    ensures !(body.JObj? || body.JArr? || body.JStr?) ==> r.Err?
  {
    var has := Contains(body, "content");
    if has.Err? then Err(has.error)
    else if !has.value then Ok(noResponse)
    else
      var content := Index(body, "content");
      if content.Err? then Err(content.error)
      else if !content.value.JArr? then Ok(noResponse)
      else
        var parts := TextParts(content.value.items);
        if parts.Err? then Err(parts.error) else JoinStrings("\n", parts.value)
  }

  /** The content item the model uses for a piece of text. */
  function TextItem(t: string): Json {
    JObj(map["type" := JStr("text"), "text" := JStr(t)])
  }

  /** An answer whose content is a list of text items reads back as those
      texts, in order, joined by newlines. */
  lemma ExtractTextItems(texts: seq<string>, noResponse: string)
    ensures var items := seq(|texts|, i requires 0 <= i < |texts| => TextItem(texts[i]));
      Extract(JObj(map["content" := JArr(items)]), noResponse) == Ok(Join("\n", texts))
  {
    var items := seq(|texts|, i requires 0 <= i < |texts| => TextItem(texts[i]));
    var parts := seq(|texts|, i requires 0 <= i < |texts| => JStr(texts[i]));
    TextPartsOfTextItems(texts);
    assert Strings(parts) == texts;
  }

  lemma {:induction false} TextPartsOfTextItems(texts: seq<string>)
    ensures TextParts(seq(|texts|, i requires 0 <= i < |texts| => TextItem(texts[i])))
      == Ok(seq(|texts|, i requires 0 <= i < |texts| => JStr(texts[i])))
    decreases |texts|
  {
    var items := seq(|texts|, i requires 0 <= i < |texts| => TextItem(texts[i]));
    var parts := seq(|texts|, i requires 0 <= i < |texts| => JStr(texts[i]));
    if texts == [] {
      assert items == [];
      assert parts == [];
    } else {
      var init := texts[..|texts| - 1];
      TextPartsOfTextItems(init);
      var prevItems := seq(|init|, i requires 0 <= i < |init| => TextItem(init[i]));
      var prevParts := seq(|init|, i requires 0 <= i < |init| => JStr(init[i]));
      assert TextParts(prevItems) == Ok(prevParts);
      assert items[..|items| - 1] == prevItems;
      var last := TextItem(texts[|texts| - 1]);
      assert items[|items| - 1] == last;
      assert last.JObj? && IsTextItem(last) && last.fields["text"] == JStr(texts[|texts| - 1]);
      assert TextParts(items) == Ok(prevParts + [JStr(texts[|texts| - 1])]);
      assert parts == prevParts + [JStr(texts[|texts| - 1])];
    }
  }

  /** Dict items that are not text items are skipped: inserting one anywhere
      in the content list changes nothing, not even which error is raised. */
  lemma {:induction false} SkipsOtherItems(xs: seq<Json>, item: Json, ys: seq<Json>)
    requires item.JObj? && !IsTextItem(item)
    ensures TextParts(xs + [item] + ys) == TextParts(xs + ys)
    decreases |ys|
  {
    if ys == [] {
      SkipLast(xs, item, ys);
    } else {
      SkipsOtherItems(xs, item, ys[..|ys| - 1]);
      SkipStep(xs, item, ys);
    }
  }

  lemma SkipLast(xs: seq<Json>, item: Json, ys: seq<Json>)
    requires item.JObj? && !IsTextItem(item) && ys == []
    ensures TextParts(xs + [item] + ys) == TextParts(xs + ys)
  {
    assert xs + [item] + ys == xs + [item];
    assert (xs + [item])[..|xs|] == xs;
    assert xs + ys == xs;
  }

  lemma SkipStep(xs: seq<Json>, item: Json, ys: seq<Json>)
    requires ys != []
    requires TextParts(xs + [item] + ys[..|ys| - 1]) == TextParts(xs + ys[..|ys| - 1])
    ensures TextParts(xs + [item] + ys) == TextParts(xs + ys)
  {
    var init, y := ys[..|ys| - 1], ys[|ys| - 1];
    SnocRegroup(xs + [item], ys);
    SnocRegroup(xs, ys);
    SameLastItem(xs + [item] + init, xs + init, y);
  }

  lemma SnocRegroup<T>(p: seq<T>, ys: seq<T>)
    requires ys != []
    ensures p + ys == (p + ys[..|ys| - 1]) + [ys[|ys| - 1]]
  {
    assert ys == ys[..|ys| - 1] + [ys[|ys| - 1]];
  }

  /** The loop's result on a list depends only on its result on all but the
      last item, and on that item. */
  lemma SameLastItem(a: seq<Json>, b: seq<Json>, y: Json)
    requires TextParts(a) == TextParts(b)
    ensures TextParts(a + [y]) == TextParts(b + [y])
  {
    assert (a + [y])[..|a|] == a;
    assert (b + [y])[..|b|] == b;
  }

  /** The reference reading of a content list, front to back: the "text"
      value of every text item, in order, other items left out. */
  function TextFields(items: seq<Json>): (parts: seq<Json>)
    ensures |parts| <= |items|
  {
    if items == [] then []
    else (if IsTextItem(items[0]) then [items[0].fields["text"]] else []) + TextFields(items[1..])
  }

  lemma {:induction false} TextFieldsSnoc(xs: seq<Json>, x: Json)
    ensures TextFields(xs + [x]) == TextFields(xs) + (if IsTextItem(x) then [x.fields["text"]] else [])
    decreases |xs|
  {
    if xs == [] {
      assert xs + [x] == [x];
      assert [x][1..] == [];
    } else {
      TextFieldsSnoc(xs[1..], x);
      assert (xs + [x])[0] == xs[0];
      assert (xs + [x])[1..] == xs[1..] + [x];
    }
  }

  /** When every item is a dict, the back-to-front loop of the service
      collects exactly the reference reading. */
  lemma {:induction false} TextPartsAreTextFields(items: seq<Json>)
    requires forall i :: 0 <= i < |items| ==> items[i].JObj?
    ensures TextParts(items) == Ok(TextFields(items))
    decreases |items|
  {
    if items != [] {
      var init := items[..|items| - 1];
      var last := items[|items| - 1];
      TextPartsAreTextFields(init);
      TextFieldsSnoc(init, last);
      assert init + [last] == items;
      assert last.JObj?;
      if IsTextItem(last) {
        assert TextParts(items) == Ok(TextFields(init) + [last.fields["text"]]);
      } else {
        assert TextFields(init) + [] == TextFields(init);
        assert TextParts(items) == Ok(TextFields(init));
      }
    }
  }

  /** A "content" list of dicts, text items and others mixed in any order,
      reads back as the "\n"-join of the text items' "text" values. */
  lemma ExtractContent(fields: map<string, Json>, items: seq<Json>, noResponse: string)
    requires "content" in fields && fields["content"] == JArr(items)
    requires forall i :: 0 <= i < |items| ==> items[i].JObj?
    ensures Extract(JObj(fields), noResponse) == JoinStrings("\n", TextFields(items))
  {
    TextPartsAreTextFields(items);
  }

  /** Anything but a dict in the content list raises. */
  lemma NonDictItemRaises(items: seq<Json>, k: nat)
    requires k < |items| && !items[k].JObj?
    ensures TextParts(items).Err?
  {
  }

  /** What `summarize` and `chat` return, with the request they sent. */
  datatype Answer = Answer(request: Option<Request>, text: string)

  const SummaryUnavailable := "Feil: AWS Bedrock er ikke konfigurert. Sjekk AWS-legitimasjon."
  const SummaryNoResponse := "Ingen respons fra AI-modellen."
  const SummaryErrorPrefix := "Feil ved oppsummering: "
  const ChatUnavailable := "Feil: AWS Bedrock er ikke konfigurert."
  const ChatNoResponse := "Ingen respons."
  const ChatErrorPrefix := "Feil: "

  /** One `invoke_model` round: the answer's text, the fallback when there is
      none, or the exception's message behind `errorPrefix`. */
  function Exchange(req: Request, invoke: Invoker, noResponse: string, errorPrefix: string): (r: Answer)
    ensures r.request == Some(req)
    ensures invoke(req).Raised? ==> r.text == errorPrefix + invoke(req).message
    ensures invoke(req).Responded? && Extract(invoke(req).body, noResponse).Ok? ==>
      r.text == Extract(invoke(req).body, noResponse).value
    ensures invoke(req).Responded? && Extract(invoke(req).body, noResponse).Err? ==>
      r.text == errorPrefix + Extract(invoke(req).body, noResponse).error
  {
    match invoke(req)
    case Raised(m) => Answer(Some(req), errorPrefix + m)
    case Responded(b) =>
      var e := Extract(b, noResponse);
      Answer(Some(req), if e.Ok? then e.value else errorPrefix + e.error)
  }

  /** `summarize`. Without a client nothing is sent and a fixed message is
      returned; otherwise one request carries one user message holding the
      prompt, at temperature 0.3 and the service's token limit. `max_length`
      is accepted and ignored. */
  function Summarize(svc: BedrockService, text: string, style: string, maxLength: int, invoke: Invoker): (r: Answer)
    ensures !IsAvailable(svc) ==> r == Answer(None, SummaryUnavailable)
    ensures IsAvailable(svc) ==> r.request.Some? && r.request.value.modelId == svc.modelId
    ensures IsAvailable(svc) ==> r.request.value.body == RequestBody(svc.maxTokens, 0.3,
      JArr([JObj(map["role" := JStr("user"), "content" := JStr(Prompt(style, text))])]))
    ensures IsAvailable(svc) ==> r == Exchange(r.request.value, invoke, SummaryNoResponse, SummaryErrorPrefix)
  {
    if !IsAvailable(svc) then Answer(None, SummaryUnavailable)
    else
      var message := JObj(map["role" := JStr("user"), "content" := JStr(Prompt(style, text))]);
      var req := MakeRequest(svc, RequestBody(svc.maxTokens, 0.3, JArr([message])));
      Exchange(req, invoke, SummaryNoResponse, SummaryErrorPrefix)
  }

  /** The requested length has no effect on what is sent or returned. */
  lemma SummarizeIgnoresMaxLength(svc: BedrockService, text: string, style: string, a: int, b: int, invoke: Invoker)
    ensures Summarize(svc, text, style, a, invoke) == Summarize(svc, text, style, b, invoke)
  {
  }

  /** An unknown style is summarised exactly as "meeting_notes" is. */
  lemma UnknownStyleIsMeetingNotes(svc: BedrockService, text: string, style: string, n: int, invoke: Invoker)
    requires style !in SummaryPrompts
    ensures Summarize(svc, text, style, n, invoke) == Summarize(svc, text, "meeting_notes", n, invoke)
  {
  }

  /** When the client is there, every way a summary can fail shows as a
      returned text starting with the error prefix; nothing is raised. */
  lemma SummarizeFailuresAreText(svc: BedrockService, text: string, style: string, n: int, invoke: Invoker)
    requires IsAvailable(svc)
    ensures var r := Summarize(svc, text, style, n, invoke);
      var out := invoke(r.request.value);
      (out.Raised? || Extract(out.body, SummaryNoResponse).Err?) ==> SummaryErrorPrefix <= r.text
  {
  }

  /** `chat`: the caller's messages go out as given, at temperature 0.7. */
  function Chat(svc: BedrockService, messages: seq<map<string, string>>, invoke: Invoker): (r: Answer)
    ensures !IsAvailable(svc) ==> r == Answer(None, ChatUnavailable)
    ensures IsAvailable(svc) ==> r.request.Some? && r.request.value.modelId == svc.modelId
    ensures IsAvailable(svc) ==> r.request.value.body == RequestBody(svc.maxTokens, 0.7, ChatMessages(messages))
    ensures IsAvailable(svc) ==> r == Exchange(r.request.value, invoke, ChatNoResponse, ChatErrorPrefix)
  {
    if !IsAvailable(svc) then Answer(None, ChatUnavailable)
    else
      var req := MakeRequest(svc, RequestBody(svc.maxTokens, 0.7, ChatMessages(messages)));
      Exchange(req, invoke, ChatNoResponse, ChatErrorPrefix)
  }

  /** The messages as JSON: a list of objects of strings, in order. */
  function ChatMessages(messages: seq<map<string, string>>): (j: Json)
    ensures j.JArr? && |j.items| == |messages|
    ensures forall i :: 0 <= i < |messages| ==>
      j.items[i].JObj? && j.items[i].fields.Keys == messages[i].Keys
    ensures forall i, k :: 0 <= i < |messages| && k in messages[i] ==>
      j.items[i].fields[k] == JStr(messages[i][k])
  {
    JArr(seq(|messages|, i requires 0 <= i < |messages| => JObj(map k | k in messages[i] :: JStr(messages[i][k]))))
  }

  // ---------------------------------------------------------------------------
  // get_bedrock_service
  // ---------------------------------------------------------------------------

  datatype Access = Access(service: BedrockService, slot: Option<BedrockService>, settingsSlot: Option<Config.Settings>)

  /** `get_bedrock_service()`: the first call builds the service from the
      settings (profile, region, model and token limit); later calls hand out
      the stored one. */
  function GetBedrockService(
    slot: Option<BedrockService>,
    settingsSlot: Option<Config.Settings>,
    env: Config.Settings,
    sessionOk: bool): (r: Access)
    ensures r.slot == Some(r.service)
    ensures slot.Some? ==> r.service == slot.value && r.settingsSlot == settingsSlot
    ensures slot.None? ==>
      var st := Config.GetSettings(settingsSlot, env).value;
      && r.service.modelId == st.bedrockModelId
      && r.service.maxTokens == st.bedrockMaxTokens
      && (IsAvailable(r.service) <==> sessionOk)
      && r.settingsSlot == Some(st)
  {
    if slot.Some? then Access(slot.value, slot, settingsSlot)
    else
      var got := Config.GetSettings(settingsSlot, env);
      var st := got.value;
      var svc := NewBedrockService(st.awsProfile, st.awsRegion, st.bedrockModelId, st.bedrockMaxTokens, sessionOk);
      var g := Lazy.Get(slot, svc);
      Access(g.value, g.slot, got.slot)
  }

  /** With default settings the shared service asks for up to 2000 tokens, not
      the constructor's 1000. */
  lemma DefaultTokenLimit(sessionOk: bool)
    ensures GetBedrockService(None, None, Config.Defaults, sessionOk).service.maxTokens == 2000
    ensures DefaultBedrockService(sessionOk).maxTokens == 1000
  {
  }
}
