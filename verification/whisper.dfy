/**
 The speech-to-text service (backend/app/services/whisper_service.py).

 The neural decoder (`_transcribe_chunk`: processor, `generate`,
 `batch_decode`) is a function parameter `decode` from a window of samples to
 the text it yields, or to the message of the exception it raised. The
 sample type `S` is left abstract: the model never looks inside a sample.
 Loading weights is replaced by a `Machine` record saying whether CUDA is
 present and whether each of the two `from_pretrained` calls succeeds.
 */
module Whisper {
  import opened Wrappers
  import opened Text
  import Config
  import Lazy

  /** `self.sample_rate`: fixed, never read from configuration. */
  const SampleRate: int := 16000

  /** The torch device `load_model` picks. */
  datatype Device = Cuda | Cpu {
    /** `str(torch.device(...))`. */
    function Name(): string {
      if Cuda? then "cuda" else "cpu"
    }
  }

  datatype WhisperService = WhisperService(
    modelId: string,
    language: string,
    chunkLengthS: int,
    device: Option<Device>,
    model: Option<string>,      // the id the loaded weights came from
    processor: Option<string>,  // the id the loaded processor came from
    isLoaded: bool)

  /** `WhisperService(model_id, language, chunk_length_s)`: nothing loaded. */
  function NewWhisperService(modelId: string, language: string, chunkLengthS: int): (r: WhisperService)
    ensures !r.isLoaded && r.model.None? && r.processor.None? && r.device.None?
    ensures r.modelId == modelId && r.language == language && r.chunkLengthS == chunkLengthS
  {
    WhisperService(modelId, language, chunkLengthS, None, None, None, false)
  }

  /** The constructor defaults: NB-Whisper large, Norwegian, 30 s windows. */
  function DefaultWhisperService(): (r: WhisperService)
    ensures r.modelId == "NbAiLab/nb-whisper-large" && r.language == "no" && r.chunkLengthS == 30
    ensures !r.isLoaded
  {
    NewWhisperService("NbAiLab/nb-whisper-large", "no", 30)
  }

  /** `device_name`. */
  function DeviceName(svc: WhisperService): (r: string)
    ensures svc.device.None? <==> r == "not loaded"
    ensures svc.device == Some(Cuda) ==> r == "cuda"
    ensures svc.device == Some(Cpu) ==> r == "cpu"
  {
    if svc.device.None? then "not loaded" else svc.device.value.Name()
  }

  // ---------------------------------------------------------------------------
  // load_model / unload_model
  // ---------------------------------------------------------------------------

  /** What the host offers to `load_model`. */
  datatype Machine = Machine(cudaAvailable: bool, processorLoads: bool, modelLoads: bool)

  /** The service after `load_model`, and whether the call returned (`ok`) or
      raised (`!ok`). */
  datatype LoadOutcome = LoadOutcome(service: WhisperService, ok: bool)

  /** The loaded flag is set only with model, processor and device present. */
  predicate Coherent(svc: WhisperService) {
    svc.isLoaded ==> svc.model.Some? && svc.processor.Some? && svc.device.Some?
  }

  predicate SameConfig(a: WhisperService, b: WhisperService) {
    a.modelId == b.modelId && a.language == b.language && a.chunkLengthS == b.chunkLengthS
  }

  /** `load_model`: a no-op when already loaded; otherwise chooses the device,
      loads processor then model, and only then sets the loaded flag. A
      failing `from_pretrained` raises with the flag still clear. */
  function LoadModel(svc: WhisperService, m: Machine): (r: LoadOutcome)
    ensures svc.isLoaded ==> r == LoadOutcome(svc, true)
    ensures r.ok <==> svc.isLoaded || (m.processorLoads && m.modelLoads)
    ensures r.ok ==> r.service.isLoaded
    ensures !svc.isLoaded && r.ok ==> r.service.model == Some(svc.modelId) && r.service.processor == Some(svc.modelId)
    ensures !r.ok ==> !r.service.isLoaded && r.service.model == svc.model
    ensures !svc.isLoaded ==> r.service.device == Some(if m.cudaAvailable then Cuda else Cpu)
    ensures Coherent(svc) ==> Coherent(r.service)
    ensures SameConfig(r.service, svc)
  {
    if svc.isLoaded then LoadOutcome(svc, true)
    else
      var withDevice := svc.(device := Some(if m.cudaAvailable then Cuda else Cpu));
      if !m.processorLoads then LoadOutcome(withDevice, false)
      else
        var withProcessor := withDevice.(processor := Some(svc.modelId));
        if !m.modelLoads then LoadOutcome(withProcessor, false)
        else LoadOutcome(withProcessor.(model := Some(svc.modelId), isLoaded := true), true)
  }

  /** `unload_model`: drops model and processor and clears the loaded flag;
      the device and the configuration stay. */
  function UnloadModel(svc: WhisperService): (r: WhisperService)
    ensures !r.isLoaded && r.model.None? && r.processor.None?
    ensures r.device == svc.device && SameConfig(r, svc)
    ensures Coherent(r)
  {
    svc.(model := None, processor := None, isLoaded := false)
  }

  /** Loading twice is loading once. */
  lemma LoadIsIdempotent(svc: WhisperService, m: Machine, m': Machine)
    requires LoadModel(svc, m).ok
    ensures LoadModel(LoadModel(svc, m).service, m') == LoadModel(svc, m)
  {
  }

  /** After an unload, a load really loads again (it is not skipped). */
  lemma UnloadThenLoad(svc: WhisperService, m: Machine)
    requires m.processorLoads && m.modelLoads
    ensures var r := LoadModel(UnloadModel(svc), m);
      r.ok && r.service.isLoaded && r.service.model == Some(svc.modelId)
  {
  }

  // ---------------------------------------------------------------------------
  // _format_time: str(timedelta(seconds=int(seconds)))
  // ---------------------------------------------------------------------------

  /** Python's `int(x)`: truncation toward zero. */
  function Trunc(x: real): (r: int)
    ensures x >= 0.0 ==> r >= 0 && r as real <= x < r as real + 1.0
    ensures x < 0.0 ==> r <= 0 && r as real - 1.0 < x <= r as real
  {
    if x >= 0.0 then x.Floor else -((-x).Floor)
  }

  function Pad2(n: nat): (r: string)
    requires n < 100
    ensures |r| == 2 && AllDigits(r) && DecimalValue(r) == n
  {
    var r := [DigitChar(n / 10), DigitChar(n % 10)];
    assert r[..1] == [DigitChar(n / 10)];
    assert r[..1][..0] == [];
    assert DecimalValue(r[..1]) == n / 10;
    r
  }

  const SecondsPerDay: int := 86400

  /** `str(timedelta(seconds=total))`: "H:MM:SS", preceded by
      "D day, " / "D days, " when the floor-divided day count is not zero. */
  function TimedeltaString(total: int): string {
    var days := total / SecondsPerDay;
    var secs := total % SecondsPerDay;
    var clock := NatToString(secs / 3600) + ":" + Pad2(secs / 60 % 60) + ":" + Pad2(secs % 60);
    if days == 0 then clock
    else IntToString(days) + " day" + (if days == 1 || days == -1 then "" else "s") + ", " + clock
  }

  /** Reads "H:MM:SS" back into seconds: the hours as `str` prints them,
      minutes and seconds as two digits below 60. Any other spelling of a
      time is rejected. */
  function ParseClock(s: string): Option<int> {
    if |s| < 7 || s[|s| - 3] != ':' || s[|s| - 6] != ':' then None
    else ClockValue(s[..|s| - 6], s[|s| - 5..|s| - 3], s[|s| - 2..])
  }

  function ClockValue(h: string, m: string, sec: string): Option<int> {
    if IsCanonicalNumeral(h) && AllDigits(m) && AllDigits(sec)
      && DecimalValue(m) < 60 && DecimalValue(sec) < 60
    then
      Some(DecimalValue(h) * 3600 + DecimalValue(m) * 60 + DecimalValue(sec))
    else None
  }

  /** Only the canonical clock text of a time reads back to it: whatever
      `ParseClock` accepts is exactly what `str(timedelta)` prints. */
  lemma ParseClockCanonical(s: string, n: int)
    requires ParseClock(s) == Some(n)
    ensures n >= 0
    ensures s == NatToString(n / 3600) + ":" + Pad2(n / 60 % 60) + ":" + Pad2(n % 60)
    ensures n < 86400 ==> s == TimedeltaString(n)
  {
    var h, m, sec := s[..|s| - 6], s[|s| - 5..|s| - 3], s[|s| - 2..];
    var hv, mv, sv := DecimalValue(h), DecimalValue(m), DecimalValue(sec);
    assert n == hv * 3600 + mv * 60 + sv && mv < 60 && sv < 60;
    ClockParts(n, hv, mv, sv);
    CanonicalNumeral(h);
    Pad2OfDigits(m);
    Pad2OfDigits(sec);
    ClockJoin(s);
    if n < 86400 {
      ClockOnly(n);
    }
  }

  /** The seconds of "H:MM:SS" split back into H, MM and SS. */
  lemma ClockParts(n: int, hv: nat, mv: nat, sv: nat)
    requires mv < 60 && sv < 60 && n == hv * 3600 + mv * 60 + sv
    ensures n / 3600 == hv && n / 60 % 60 == mv && n % 60 == sv
  {
    var q := hv * 60 + mv;
    assert n == q * 60 + sv;
    assert n / 60 == q && n % 60 == sv;
    assert q / 60 == hv && q % 60 == mv;
    assert n == hv * 3600 + (mv * 60 + sv) && mv * 60 + sv < 3600;
  }

  /** Two digits are the zero-padded numeral of their value. */
  lemma Pad2OfDigits(d: string)
    requires |d| == 2 && AllDigits(d)
    ensures DecimalValue(d) < 100 && Pad2(DecimalValue(d)) == d
  {
    var first := d[..1];
    assert first[..0] == [] && first[0] == d[0] && |first| == 1;
    assert IsDigit(d[0]) && IsDigit(d[1]);
    assert DecimalValue(first) == d[0] as int - '0' as int;
    assert d[..|d| - 1] == first;
    var v := DecimalValue(d);
    assert v == 10 * (d[0] as int - '0' as int) + (d[1] as int - '0' as int);
    assert v / 10 == d[0] as int - '0' as int && v % 10 == d[1] as int - '0' as int;
    assert DigitChar(v / 10) == d[0] && DigitChar(v % 10) == d[1];
  }

  /** A string with colons at the clock positions is its three fields joined. */
  lemma ClockJoin(s: string)
    requires |s| >= 7 && s[|s| - 3] == ':' && s[|s| - 6] == ':'
    ensures s == s[..|s| - 6] + ":" + s[|s| - 5..|s| - 3] + ":" + s[|s| - 2..]
  {
  }

  /** `_format_time`: under one day the text is "H:MM:SS" of the truncated
      seconds, hours unpadded, and reads back to exactly those seconds. */
  function FormatTime(seconds: real): (r: string)
    ensures 0.0 <= seconds < 86400.0 ==> ParseClock(r) == Some(Trunc(seconds))
    ensures 0.0 <= seconds < 86400.0 ==> 7 <= |r| <= 8 && r[|r| - 3] == ':' && r[|r| - 6] == ':'
  {
    var n := Trunc(seconds);
    if 0 <= n < SecondsPerDay then ClockRoundTrip(n); TimedeltaString(n)
    else TimedeltaString(n)
  }

  lemma ClockRoundTrip(n: int)
    requires 0 <= n < 86400
    ensures ParseClock(TimedeltaString(n)) == Some(n)
    ensures 7 <= |TimedeltaString(n)| <= 8
    ensures TimedeltaString(n)[|TimedeltaString(n)| - 3] == ':' && TimedeltaString(n)[|TimedeltaString(n)| - 6] == ':'
  {
    var hh, mm, ss := n / 3600, n / 60 % 60, n % 60;
    ClockArithmetic(n);
    var h := NatToString(hh);
    HoursFit(hh);
    ClockOnly(n);
    ClockSplit(TimedeltaString(n), h, Pad2(mm), Pad2(ss));
    ClockValueOfParts(hh, mm, ss);
  }

  /** Under one day there is no day count in front of the clock. */
  lemma ClockOnly(n: int)
    requires 0 <= n < 86400
    ensures TimedeltaString(n) == NatToString(n / 3600) + ":" + Pad2(n / 60 % 60) + ":" + Pad2(n % 60)
  {
    assert n / SecondsPerDay == 0 && n % SecondsPerDay == n;
  }

  lemma ClockValueOfParts(hh: nat, mm: nat, ss: nat)
    requires mm < 60 && ss < 60
    ensures ClockValue(NatToString(hh), Pad2(mm), Pad2(ss)) == Some(hh * 3600 + mm * 60 + ss)
  {
  }

  lemma HoursFit(hh: nat)
    requires hh < 100
    ensures |NatToString(hh)| <= 2
  {
    if hh >= 10 {
      assert NatToString(hh / 10) == [DigitChar(hh / 10)];
    }
  }

  lemma ClockSplit(s: string, h: string, m: string, sec: string)
    requires 1 <= |h| <= 2 && |m| == 2 && |sec| == 2
    requires s == h + ":" + m + ":" + sec
    ensures 7 <= |s| <= 8 && s[|s| - 3] == ':' && s[|s| - 6] == ':'
    ensures ParseClock(s) == ClockValue(h, m, sec)
  {
    var k := |h|;
    assert |s| == k + 6;
    assert s[k] == ':' && s[k + 3] == ':';
    assert s[..|s| - 6] == h;
    assert s[|s| - 5..|s| - 3] == m;
    assert s[|s| - 2..] == sec;
  }

  lemma ClockArithmetic(n: int)
    requires 0 <= n < 86400
    ensures n / 3600 * 3600 + (n / 60 % 60) * 60 + n % 60 == n
    ensures n / 3600 < 24
  {
    var q := n / 60;
    assert n == q * 60 + n % 60;
    assert q == q / 60 * 60 + q % 60;
    assert q / 60 == n / 3600;
  }

  // ---------------------------------------------------------------------------
  // Windowing: chunk_samples, num_chunks and the slices of the loop
  // ---------------------------------------------------------------------------

  /** `chunk_samples = chunk_length_s * sample_rate`. */
  function ChunkSamples(svc: WhisperService): int {
    svc.chunkLengthS * SampleRate
  }

  /** `int(np.ceil(length / chunk_samples))` for a non-zero divisor. */
  function ChunkCount(length: nat, chunkSamples: int): (n: int)
    requires chunkSamples != 0
    ensures chunkSamples > 0 ==> n >= 0 && (n - 1) * chunkSamples < length <= n * chunkSamples
    ensures chunkSamples < 0 ==> n <= 0
  {
    if chunkSamples > 0 then
      var n := (length + chunkSamples - 1) / chunkSamples;
      CeilingBounds(length, chunkSamples);
      n
    else
      -(length / -chunkSamples)
  }

  lemma CeilingBounds(length: nat, c: int)
    requires c > 0
    ensures var n := (length + c - 1) / c; (n - 1) * c < length <= n * c
  {
    var a := length + c - 1;
    var n := a / c;
    assert a == n * c + a % c;
    assert (n - 1) * c == n * c - c;
  }

  function Min(a: int, b: int): int {
    if a <= b then a else b
  }

  lemma MulMonotone(a: int, b: int, c: int)
    requires a <= b && c >= 0
    ensures a * c <= b * c
  {
    assert b * c - a * c == (b - a) * c;
  }

  /** Start of window `i`: `i * chunk_samples`, inside the waveform. */
  function WindowStart(length: nat, c: int, i: int): (s: nat)
    requires c > 0 && 0 <= i < ChunkCount(length, c)
    ensures s == i * c && s < length
  {
    MulMonotone(i, ChunkCount(length, c) - 1, c);
    i * c
  }

  /** End of window `i`: `min((i + 1) * chunk_samples, len(waveform))`. */
  function WindowEnd(length: nat, c: int, i: int): (e: nat)
    requires c > 0 && 0 <= i < ChunkCount(length, c)
    ensures WindowStart(length, c, i) < e <= length
  {
    Min((i + 1) * c, length)
  }

  /** `waveform_np[start_sample:end_sample]` for window `i`. */
  function Window<S>(w: seq<S>, c: int, i: int): seq<S>
    requires c > 0 && 0 <= i < ChunkCount(|w|, c)
  {
    w[WindowStart(|w|, c, i)..WindowEnd(|w|, c, i)]
  }

  /** The windows in loop order. */
  function Windows<S>(w: seq<S>, c: int): (ws: seq<seq<S>>)
    requires c > 0
    ensures |ws| == ChunkCount(|w|, c)
  {
    seq(ChunkCount(|w|, c), i requires 0 <= i < ChunkCount(|w|, c) => Window(w, c, i))
  }

  /** Every window holds `c` samples except the last, which holds between
      1 and `c`; consecutive windows abut. */
  lemma WindowShape<S>(w: seq<S>, c: int, i: int)
    requires c > 0 && 0 <= i < ChunkCount(|w|, c)
    ensures 0 < |Window(w, c, i)| <= c
    ensures i < ChunkCount(|w|, c) - 1 ==> |Window(w, c, i)| == c
    ensures i < ChunkCount(|w|, c) - 1 ==> WindowEnd(|w|, c, i) == WindowStart(|w|, c, i + 1)
    ensures i == ChunkCount(|w|, c) - 1 ==> WindowEnd(|w|, c, i) == |w|
  {
    var n := ChunkCount(|w|, c);
    if i < n - 1 {
      MulMonotone(i + 1, n - 1, c);
    } else {
      assert (i + 1) * c == n * c;
    }
  }

  /** The windows, laid end to end, are the waveform: no sample is lost,
      repeated or reordered. */
  lemma WindowsCoverWaveform<S>(w: seq<S>, c: int)
    requires c > 0
    ensures Concat(Windows(w, c)) == w
  {
    var n := ChunkCount(|w|, c);
    if n == 0 {
      assert |w| == 0;
    } else {
      WindowsFrom(w, c, 0);
      assert Windows(w, c)[0..] == Windows(w, c);
    }
  }

  lemma {:induction false} WindowsFrom<S>(w: seq<S>, c: int, k: int)
    requires c > 0 && 0 <= k < ChunkCount(|w|, c)
    ensures Concat(Windows(w, c)[k..]) == w[WindowStart(|w|, c, k)..]
    decreases ChunkCount(|w|, c) - k
  {
    var ws := Windows(w, c);
    var n := ChunkCount(|w|, c);
    WindowShape(w, c, k);
    assert ws[k..][1..] == ws[k + 1..];
    if k == n - 1 {
      assert ws[k + 1..] == [];
    } else {
      WindowsFrom(w, c, k + 1);
      var s := WindowStart(|w|, c, k);
      var e := WindowEnd(|w|, c, k);
      assert w[s..] == w[s..e] + w[e..];
    }
  }

  /** The number of windows is the ceiling of length over window size. */
  lemma WindowCount<S>(w: seq<S>, c: int)
    requires c > 0
    ensures |Windows(w, c)| * c >= |w| > (|Windows(w, c)| - 1) * c
  {
  }

  // ---------------------------------------------------------------------------
  // _transcribe_waveform
  // ---------------------------------------------------------------------------

  /** The service's `TranscriptionProgress` dataclass. */
  datatype Progress = Progress(
    currentChunk: int,
    totalChunks: int,
    progressPercent: real,
    message: string,
    partialText: string)

  /** The service's `TranscriptionResult` dataclass. */
  datatype Transcript = Transcript(
    text: string,
    durationSeconds: real,
    wordCount: int,
    chunksProcessed: int)

  datatype TranscribeError =
    | ZeroDivision               // chunk_length_s == 0
    | DecoderRaised(message: string)

  type Decoder<!S> = seq<S> -> Result<string, string>

  /** The decoder's answer for every window, in order. */
  function Outputs<S>(w: seq<S>, c: int, decode: Decoder<S>): (outs: seq<Result<string, string>>)
    requires c > 0
    ensures |outs| == ChunkCount(|w|, c)
    ensures forall i :: 0 <= i < |outs| ==> outs[i] == decode(Window(w, c, i))
  {
    seq(ChunkCount(|w|, c), i requires 0 <= i < ChunkCount(|w|, c) => decode(Window(w, c, i)))
  }

  /** Texts of more windows extend the texts of fewer. */
  lemma TextsPrefix(outs: seq<Result<string, string>>, j: nat, k: nat)
    requires j <= k <= |outs| && forall m :: 0 <= m < k ==> outs[m].Ok?
    ensures Texts(outs, j) == Texts(outs, k)[..j]
  {
  }

  /** Index of the first window whose decode raised, or the window count. */
  function FirstFailure(outs: seq<Result<string, string>>): (k: nat)
    ensures k <= |outs|
    ensures forall j :: 0 <= j < k ==> outs[j].Ok?
    ensures k < |outs| ==> outs[k].Err?
  {
    if outs == [] then 0
    else if outs[0].Err? then 0
    else 1 + FirstFailure(outs[1..])
  }

  predicate AllDecoded(outs: seq<Result<string, string>>) {
    forall j :: 0 <= j < |outs| ==> outs[j].Ok?
  }

  /** The texts of the first `k` windows, all of which decoded. */
  function Texts(outs: seq<Result<string, string>>, k: nat): (ts: seq<string>)
    requires k <= |outs| && forall j :: 0 <= j < k ==> outs[j].Ok?
    ensures |ts| == k
  {
    seq(k, j requires 0 <= j < k => outs[j].value)
  }

  /** The stripped, non-blank decoder texts, in window order. */
  function Pieces(texts: seq<string>): (ps: seq<string>)
    ensures |ps| <= |texts|
    ensures forall j :: 0 <= j < |ps| ==> ps[j] != [] && Strip(ps[j]) == ps[j]
  {
    if texts == [] then []
    else
      var init := Pieces(texts[..|texts| - 1]);
      var t := Strip(texts[|texts| - 1]);
      StripIdempotent(texts[|texts| - 1]);
      if t == [] then init else init + [t]
  }

  /** The positions of the decoder texts that are not blank once stripped,
      in increasing order. */
  function Kept(texts: seq<string>): (idx: seq<nat>)
    ensures forall k :: 0 <= k < |idx| ==> idx[k] < |texts|
  {
    if texts == [] then []
    else
      var init := Kept(texts[..|texts| - 1]);
      if Strip(texts[|texts| - 1]) == [] then init else init + [|texts| - 1]
  }

  /** `idx` lists, in strictly increasing order, exactly the positions of
      `texts` whose stripped text is not blank. */
  predicate KeptPositions(texts: seq<string>, idx: seq<nat>) {
    && (forall k :: 0 <= k < |idx| ==> idx[k] < |texts| && Strip(texts[idx[k]]) != [])
    && (forall a, b :: 0 <= a < b < |idx| ==> idx[a] < idx[b])
    && (forall i :: 0 <= i < |texts| && Strip(texts[i]) != [] ==> i in idx)
  }

  /** The pieces are the stripped decoder texts that are not blank, in
      window order: the k-th piece is the stripped text at the k-th such
      position, and every other text is left out. */
  lemma {:induction false} PiecesAreKeptTexts(texts: seq<string>)
    ensures KeptPositions(texts, Kept(texts))
    ensures |Pieces(texts)| == |Kept(texts)|
    ensures forall k :: 0 <= k < |Kept(texts)| ==> Pieces(texts)[k] == Strip(texts[Kept(texts)[k]])
    decreases |texts|
  {
    if texts != [] {
      var n := |texts|;
      var init := texts[..n - 1];
      PiecesAreKeptTexts(init);
      KeptSnoc(texts, init, Kept(init));
    }
  }

  /** One more text keeps the positions found so far and adds its own
      exactly when it is not blank. */
  lemma KeptSnoc(texts: seq<string>, init: seq<string>, idx: seq<nat>)
    requires texts != [] && init == texts[..|texts| - 1]
    requires KeptPositions(init, idx) && idx == Kept(init)
    requires |Pieces(init)| == |idx|
    requires forall k :: 0 <= k < |idx| ==> Pieces(init)[k] == Strip(init[idx[k]])
    ensures KeptPositions(texts, Kept(texts))
    ensures |Pieces(texts)| == |Kept(texts)|
    ensures forall k :: 0 <= k < |Kept(texts)| ==> Pieces(texts)[k] == Strip(texts[Kept(texts)[k]])
  {
    var t := texts[|texts| - 1];
    assert texts == init + [t];
    var ps := Pieces(init);
    if Strip(t) == [] {
      assert Kept(texts) == idx && Pieces(texts) == ps;
    } else {
      assert Kept(texts) == idx + [|init|] && Pieces(texts) == ps + [Strip(t)];
    }
    PositionsSnoc(init, t, idx);
    PickedSnoc(init, t, idx, ps);
  }

  lemma PositionsSnoc(init: seq<string>, t: string, idx: seq<nat>)
    requires KeptPositions(init, idx)
    ensures KeptPositions(init + [t], if Strip(t) == [] then idx else idx + [|init|])
  {
    var idx' := if Strip(t) == [] then idx else idx + [|init|];
    PositionsSnocPicked(init, t, idx, idx');
    PositionsSnocComplete(init, t, idx, idx');
  }

  lemma PositionsSnocPicked(init: seq<string>, t: string, idx: seq<nat>, idx': seq<nat>)
    requires forall k :: 0 <= k < |idx| ==> idx[k] < |init| && Strip(init[idx[k]]) != []
    requires forall a, b :: 0 <= a < b < |idx| ==> idx[a] < idx[b]
    requires idx' == if Strip(t) == [] then idx else idx + [|init|]
    ensures forall k :: 0 <= k < |idx'| ==> idx'[k] < |init + [t]| && Strip((init + [t])[idx'[k]]) != []
    ensures forall a, b :: 0 <= a < b < |idx'| ==> idx'[a] < idx'[b]
  {
    forall k | 0 <= k < |idx'|
      ensures idx'[k] < |init + [t]| && Strip((init + [t])[idx'[k]]) != []
    {
      if k < |idx| {
        assert idx'[k] == idx[k] && (init + [t])[idx[k]] == init[idx[k]];
      }
    }
  }

  lemma PositionsSnocComplete(init: seq<string>, t: string, idx: seq<nat>, idx': seq<nat>)
    requires forall i :: 0 <= i < |init| && Strip(init[i]) != [] ==> i in idx
    requires idx' == if Strip(t) == [] then idx else idx + [|init|]
    ensures forall i :: 0 <= i < |init + [t]| && Strip((init + [t])[i]) != [] ==> i in idx'
  {
    var texts := init + [t];
    forall i | 0 <= i < |texts| && Strip(texts[i]) != []
      ensures i in idx'
    {
      if i < |init| {
        assert texts[i] == init[i] && i in idx;
      } else {
        assert idx'[|idx'| - 1] == i;
      }
    }
  }

  lemma PickedSnoc(init: seq<string>, t: string, idx: seq<nat>, ps: seq<string>)
    requires forall k :: 0 <= k < |idx| ==> idx[k] < |init|
    requires |ps| == |idx| && forall k :: 0 <= k < |idx| ==> ps[k] == Strip(init[idx[k]])
    ensures var idx', ps' := (if Strip(t) == [] then idx else idx + [|init|]),
                             (if Strip(t) == [] then ps else ps + [Strip(t)]);
      |ps'| == |idx'| && forall k :: 0 <= k < |idx'| ==> ps'[k] == Strip((init + [t])[idx'[k]])
  {
    var texts := init + [t];
    forall k | 0 <= k < |idx| ensures texts[idx[k]] == init[idx[k]] {
    }
  }

  /** Blank texts contribute nothing and the rest keep their words: the word
      count of the joined pieces is the sum of the decoders' word counts. */
  lemma {:induction false} PiecesKeepWords(texts: seq<string>)
    ensures WordCount(JoinSpace(Pieces(texts))) == TotalWords(texts)
  {
    PiecesTotal(texts);
    WordsOfJoinSpace(Pieces(texts));
  }

  lemma {:induction false} PiecesTotal(texts: seq<string>)
    ensures TotalWords(Pieces(texts)) == TotalWords(texts)
    decreases |texts|
  {
    if texts != [] {
      var init := texts[..|texts| - 1];
      var last := texts[|texts| - 1];
      PiecesTotal(init);
      PieceWords(Pieces(init), last);
    }
  }

  /** Appending one decoder text to the pieces adds exactly its words. */
  lemma PieceWords(ps: seq<string>, t: string)
    ensures TotalWords(if Strip(t) == [] then ps else ps + [Strip(t)]) == TotalWords(ps) + WordCount(t)
  {
    WordsOfStrip(t);
    if Strip(t) == [] {
      WordsOfAllSpace(t);
    } else {
      assert (ps + [Strip(t)])[..|ps|] == ps;
    }
  }

  /** Later decoder texts never change the pieces gathered from earlier ones. */
  lemma {:induction false} PiecesPrefix(texts: seq<string>, k: nat)
    requires k <= |texts|
    ensures Pieces(texts[..k]) <= Pieces(texts)
    decreases |texts|
  {
    if k < |texts| {
      var init := texts[..|texts| - 1];
      PiecesPrefix(init, k);
      assert init[..k] == texts[..k];
    } else {
      assert texts[..k] == texts;
    }
  }

  /** `(i + 1) / num_chunks * 100`. */
  function Percent(i: nat, n: nat): (p: real)
    requires i < n
    ensures 0.0 < p <= 100.0
    ensures i == n - 1 ==> p == 100.0
  {
    var f := (i + 1) as real / n as real;
    Fraction((i + 1) as real, n as real);
    f * 100.0
  }

  lemma Fraction(a: real, b: real)
    requires 0.0 < a <= b
    ensures 0.0 < a / b <= 1.0
    ensures a == b ==> a / b == 1.0
  {
  }

  /** `f"Processing {start} - {end}"`, the sample offsets rendered as whole
      seconds; `WindowMessageFormatsTime` shows this is what `_format_time`
      makes of `start_sample / sample_rate`. */
  function WindowMessage(start: nat, end: nat): string {
    "Processing " + TimedeltaString(start / SampleRate) + " - " + TimedeltaString(end / SampleRate)
  }

  lemma WindowMessageFormatsTime(start: nat, end: nat)
    ensures WindowMessage(start, end)
      == "Processing " + FormatTime(start as real / SampleRate as real) + " - "
        + FormatTime(end as real / SampleRate as real)
  {
    SecondsOfSamples(start);
    SecondsOfSamples(end);
  }

  /** `int(samples / sample_rate)` is the floor quotient. */
  lemma SecondsOfSamples(samples: nat)
    ensures Trunc(samples as real / SampleRate as real) == samples / SampleRate
  {
    var q := samples / SampleRate;
    var x := samples as real / SampleRate as real;
    assert samples == q * SampleRate + samples % SampleRate;
    assert x == q as real + (samples % SampleRate) as real / SampleRate as real;
  }

  /** The report issued before window `j` is decoded, `sofar` being what the
      decoder said for the windows before it. */
  function Report<S>(w: seq<S>, c: int, j: nat, sofar: seq<string>): Progress
    requires c > 0 && j < ChunkCount(|w|, c)
  {
    var n := ChunkCount(|w|, c);
    Progress(j + 1, n, Percent(j, n), WindowMessage(WindowStart(|w|, c, j), WindowEnd(|w|, c, j)),
      JoinSpace(Pieces(sofar)))
  }

  /** The first `m` reports of a run whose decoder said `texts` for the
      windows it got through: the `j`-th report carries the first `j` texts. */
  function Reports<S>(w: seq<S>, c: int, texts: seq<string>, m: nat): (rs: seq<Progress>)
    requires c > 0 && m <= ChunkCount(|w|, c) && m <= |texts| + 1
  {
    seq(m, j requires 0 <= j < m => Report(w, c, j, texts[..j]))
  }

  /** Reports count the windows 1..n against the same total, their percentage
      never falls, and each partial text extends the one before it. */
  lemma ReportsOrdered<S>(w: seq<S>, c: int, texts: seq<string>, m: nat, j: nat, j': nat)
    requires c > 0 && m <= ChunkCount(|w|, c) && m <= |texts| + 1
    requires j <= j' < m
    ensures var rs := Reports(w, c, texts, m);
      && rs[j].currentChunk == j + 1
      && rs[j].totalChunks == ChunkCount(|w|, c)
      && 0.0 < rs[j].progressPercent <= rs[j'].progressPercent <= 100.0
      && rs[j].partialText <= rs[j'].partialText
  {
    var rs := Reports(w, c, texts, m);
    var n := ChunkCount(|w|, c);
    assert rs[j] == Report(w, c, j, texts[..j]);
    assert rs[j'] == Report(w, c, j', texts[..j']);
    PercentMonotone(j, j', n);
    PartialTextsGrow(texts, j, j');
  }

  lemma PercentMonotone(i: nat, i': nat, n: nat)
    requires i <= i' < n
    ensures Percent(i, n) <= Percent(i', n)
  {
    DivMonotone((i + 1) as real, (i' + 1) as real, n as real);
  }

  lemma PartialTextsGrow(texts: seq<string>, j: nat, j': nat)
    requires j <= j' <= |texts|
    ensures JoinSpace(Pieces(texts[..j])) <= JoinSpace(Pieces(texts[..j']))
  {
    var later := texts[..j'];
    assert later[..j] == texts[..j];
    PiecesPrefix(later, j);
    JoinPrefix(" ", Pieces(texts[..j]), Pieces(later));
  }

  lemma DivMonotone(a: real, b: real, d: real)
    requires a <= b && d > 0.0
    ensures a / d <= b / d
  {
  }

  /** `_transcribe_waveform`. A zero window size raises before anything is
      reported; a negative one yields no windows and an empty transcript;
      otherwise the windows are decoded as `DecodeWindows` states. */
  method TranscribeWaveform<S>(svc: WhisperService, waveform: seq<S>, duration: real, decode: Decoder<S>)
    returns (progress: seq<Progress>, outcome: Result<Transcript, TranscribeError>)
    ensures ChunkSamples(svc) == 0 ==> progress == [] && outcome == Err(ZeroDivision)
    ensures ChunkSamples(svc) != 0 && waveform == [] ==>
      progress == [] && outcome == Ok(Transcript("", duration, 0, 0))
    ensures ChunkSamples(svc) < 0 ==>
      progress == [] && outcome == Ok(Transcript("", duration, 0, ChunkCount(|waveform|, ChunkSamples(svc))))
    ensures ChunkSamples(svc) > 0 ==>
      var c := ChunkSamples(svc);
      var n := ChunkCount(|waveform|, c);
      var outs := Outputs(waveform, c, decode);
      var k := FirstFailure(outs);
      && |progress| == (if k < n then k + 1 else n)
      && progress == Reports(waveform, c, Texts(outs, k), |progress|)
      && (k < n ==> outcome == Err(DecoderRaised(outs[k].error)))
      && (k == n ==>
            var text := JoinSpace(Pieces(Texts(outs, n)));
            outcome == Ok(Transcript(text, duration, WordCount(text), n)))
  {
    var c := svc.chunkLengthS * SampleRate;
    if c == 0 {
      return [], Err(ZeroDivision);
    }
    if c < 0 {
      var n := ChunkCount(|waveform|, c);
      return [], Ok(Transcript("", duration, 0, n));
    }
    progress, outcome := DecodeWindows(waveform, c, duration, decode);
  }

  /** The loop of `_transcribe_waveform` for a positive window size. One
      progress report per window, issued before that window is decoded and
      carrying the text gathered so far; the decoder texts are stripped,
      blank ones dropped, the rest joined with single spaces. A decoder
      exception ends the run with the reports issued up to and including
      that window. */
  method DecodeWindows<S>(waveform: seq<S>, c: int, duration: real, decode: Decoder<S>)
    returns (progress: seq<Progress>, outcome: Result<Transcript, TranscribeError>)
    requires c > 0
    ensures
      var n := ChunkCount(|waveform|, c);
      var outs := Outputs(waveform, c, decode);
      var k := FirstFailure(outs);
      && |progress| == (if k < n then k + 1 else n)
      && progress == Reports(waveform, c, Texts(outs, k), |progress|)
      && (k < n ==> outcome == Err(DecoderRaised(outs[k].error)))
      && (k == n ==>
            var text := JoinSpace(Pieces(Texts(outs, n)));
            outcome == Ok(Transcript(text, duration, WordCount(text), n)))
  {
    var n := ChunkCount(|waveform|, c);
    ghost var outs := Outputs(waveform, c, decode);
    var pieces, stop, failure;
    ghost var texts;
    progress, pieces, stop, failure, texts := DecodeUntilFailure(waveform, c, decode, outs);
    FirstFailureAt(outs, stop);
    TextsOf(outs, texts);
    if failure.Some? {
      outcome := Err(DecoderRaised(failure.value));
    } else {
      var text := JoinSpace(pieces);
      outcome := Ok(Transcript(text, duration, WordCount(text), n));
    }
  }

  /** `texts` are the texts of the windows that decoded before the first
      failure. */
  lemma TextsOf(outs: seq<Result<string, string>>, texts: seq<string>)
    requires |texts| <= |outs| && forall j :: 0 <= j < |texts| ==> outs[j] == Ok(texts[j])
    ensures Texts(outs, |texts|) == texts
  {
  }

  /** The loop proper: windows are reported and decoded in order until one
      raises (`stop` is its index and `failure` its message) or all are
      done (`stop` is the window count). `texts` are the decoder's texts
      for the windows before `stop`. */
  method DecodeUntilFailure<S>(waveform: seq<S>, c: int, decode: Decoder<S>, ghost outs: seq<Result<string, string>>)
    returns (progress: seq<Progress>, pieces: seq<string>, stop: nat, failure: Option<string>, ghost texts: seq<string>)
    requires c > 0 && |outs| == ChunkCount(|waveform|, c)
    requires forall i :: 0 <= i < |outs| ==> outs[i] == decode(Window(waveform, c, i))
    ensures stop == |texts| <= |outs|
    ensures forall j :: 0 <= j < stop ==> outs[j] == Ok(texts[j])
    ensures failure.Some? <==> stop < |outs|
    ensures stop < |outs| ==> outs[stop] == Err(failure.value)
    ensures progress == Reports(waveform, c, texts, if stop < |outs| then stop + 1 else stop)
    ensures pieces == Pieces(texts)
  {
    var n := ChunkCount(|waveform|, c);
    progress, pieces, texts := [], [], [];
    var i := 0;
    while i < n
      invariant 0 <= i <= n && |texts| == i
      invariant forall j :: 0 <= j < i ==> outs[j] == Ok(texts[j])
      invariant pieces == Pieces(texts)
      invariant Issued(waveform, c, progress, texts) && |progress| == i
    {
      var t, pieces';
      progress, t, pieces' := DecodeWindow(waveform, c, decode, progress, pieces, texts);
      if t.Err? {
        IssuedAreReports(waveform, c, progress, texts);
        return progress, pieces, i, Some(t.error), texts;
      }
      IssuedExtend(waveform, c, progress, texts, t.value);
      assert outs[i] == Ok(t.value);
      DecodedExtend(outs, texts, t.value);
      texts := texts + [t.value];
      pieces := pieces';
      i := i + 1;
    }
    IssuedAreReports(waveform, c, progress, texts);
    return progress, pieces, n, None, texts;
  }

  lemma DecodedExtend(outs: seq<Result<string, string>>, texts: seq<string>, t: string)
    requires |texts| < |outs| && outs[|texts|] == Ok(t)
    requires forall j :: 0 <= j < |texts| ==> outs[j] == Ok(texts[j])
    ensures forall j :: 0 <= j < |texts| + 1 ==> outs[j] == Ok((texts + [t])[j])
  {
  }

  /** One turn of the loop: report window `i` (the number of texts so far),
      then decode it; a text that is not blank once stripped joins the
      pieces. */
  method DecodeWindow<S>(waveform: seq<S>, c: int, decode: Decoder<S>,
                         progress: seq<Progress>, pieces: seq<string>, ghost sofar: seq<string>)
    returns (progress': seq<Progress>, t: Result<string, string>, pieces': seq<string>)
    requires c > 0 && |sofar| < ChunkCount(|waveform|, c) && pieces == Pieces(sofar)
    requires Issued(waveform, c, progress, sofar) && |progress| == |sofar|
    ensures Issued(waveform, c, progress', sofar) && |progress'| == |sofar| + 1
    ensures t == decode(Window(waveform, c, |sofar|))
    ensures t.Ok? ==> pieces' == Pieces(sofar + [t.value])
  {
    var i := |progress|;
    var start := i * c;
    var end := Min((i + 1) * c, |waveform|);
    assert start == WindowStart(|waveform|, c, i) && end == WindowEnd(|waveform|, c, i);
    var chunk := waveform[start..end];
    var report := NextReport(waveform, c, i, start, end, pieces, sofar);
    IssueNext(waveform, c, progress, sofar);
    progress' := progress + [report];
    t := decode(chunk);
    pieces' := pieces;
    if t.Ok? {
      var s := Strip(t.value);
      PiecesStep(sofar, t.value);
      if s != [] {
        pieces' := pieces + [s];
      }
    }
  }

  /** The report for window `j`, built from the loop's own variables. */
  method NextReport<S>(w: seq<S>, c: int, j: nat, start: nat, end: nat, pieces: seq<string>, ghost sofar: seq<string>)
    returns (r: Progress)
    requires c > 0 && j < ChunkCount(|w|, c)
    requires start == WindowStart(|w|, c, j) && end == WindowEnd(|w|, c, j) && pieces == Pieces(sofar)
    ensures r == Report(w, c, j, sofar)
  {
    var n := ChunkCount(|w|, c);
    r := Progress(j + 1, n, Percent(j, n), WindowMessage(start, end), JoinSpace(pieces));
  }

  /** `progress` holds the reports issued before windows 0, 1, ... in turn,
      each computed from the texts of the windows before it. */
  ghost predicate Issued<S>(w: seq<S>, c: int, progress: seq<Progress>, texts: seq<string>)
    requires c > 0
  {
    && |progress| <= ChunkCount(|w|, c) && |progress| <= |texts| + 1
    && forall j :: 0 <= j < |progress| ==> progress[j] == Report(w, c, j, texts[..j])
  }

  lemma IssueNext<S>(w: seq<S>, c: int, progress: seq<Progress>, texts: seq<string>)
    requires c > 0 && Issued(w, c, progress, texts)
    requires |progress| == |texts| < ChunkCount(|w|, c)
    ensures Issued(w, c, progress + [Report(w, c, |texts|, texts)], texts)
  {
    var r := Report(w, c, |texts|, texts);
    var longer := progress + [r];
    forall j | 0 <= j < |longer| ensures longer[j] == Report(w, c, j, texts[..j]) {
      if j < |progress| {
        assert longer[j] == progress[j];
      } else {
        assert texts[..j] == texts;
      }
    }
  }

  /** A report only sees the texts before its window, so texts that arrive
      later leave the reports already issued unchanged. */
  lemma IssuedExtend<S>(w: seq<S>, c: int, progress: seq<Progress>, texts: seq<string>, t: string)
    requires c > 0 && Issued(w, c, progress, texts)
    ensures Issued(w, c, progress, texts + [t])
  {
    var longer := texts + [t];
    forall j | 0 <= j < |progress| ensures longer[..j] == texts[..j] {
    }
  }

  lemma IssuedAreReports<S>(w: seq<S>, c: int, progress: seq<Progress>, texts: seq<string>)
    requires c > 0 && Issued(w, c, progress, texts)
    ensures progress == Reports(w, c, texts, |progress|)
  {
  }

  lemma PiecesStep(texts: seq<string>, t: string)
    ensures Pieces(texts + [t]) == if Strip(t) == [] then Pieces(texts) else Pieces(texts) + [Strip(t)]
  {
    assert (texts + [t])[..|texts|] == texts;
  }

  lemma {:induction false} FirstFailureAt(outs: seq<Result<string, string>>, i: nat)
    requires i <= |outs|
    requires forall j :: 0 <= j < i ==> outs[j].Ok?
    requires i < |outs| ==> outs[i].Err?
    ensures FirstFailure(outs) == i
    decreases i
  {
    if i > 0 {
      FirstFailureAt(outs[1..], i - 1);
    }
  }

  /** The word count reported by a successful run is the sum of the word
      counts of what the decoder said for each window. */
  lemma TranscriptWordCount<S>(w: seq<S>, c: int, decode: Decoder<S>)
    requires c > 0
    requires AllDecoded(Outputs(w, c, decode))
    ensures var texts := Texts(Outputs(w, c, decode), ChunkCount(|w|, c));
      WordCount(JoinSpace(Pieces(texts))) == TotalWords(texts)
  {
    PiecesKeepWords(Texts(Outputs(w, c, decode), ChunkCount(|w|, c)));
  }

  // ---------------------------------------------------------------------------
  // get_whisper_service
  // ---------------------------------------------------------------------------

  datatype Access = Access(service: WhisperService, slot: Option<WhisperService>, settingsSlot: Option<Config.Settings>)

  /** `get_whisper_service()`: builds the service from `get_settings()` on the
      first call and hands out the stored instance afterwards (without
      consulting the settings again). `env` is what constructing `Settings`
      would read. */
  function GetWhisperService(
    slot: Option<WhisperService>,
    settingsSlot: Option<Config.Settings>,
    env: Config.Settings): (r: Access)
    ensures r.slot == Some(r.service)
    ensures slot.Some? ==> r.service == slot.value && r.settingsSlot == settingsSlot
    ensures slot.None? ==>
      var st := Config.GetSettings(settingsSlot, env).value;
      && r.service == NewWhisperService(st.whisperModelId, st.whisperLanguage, st.whisperChunkLengthS)
      && r.settingsSlot == Some(st)
  {
    if slot.Some? then Access(slot.value, slot, settingsSlot)
    else
      var got := Config.GetSettings(settingsSlot, env);
      var svc := NewWhisperService(got.value.whisperModelId, got.value.whisperLanguage, got.value.whisperChunkLengthS);
      var g := Lazy.Get(slot, svc);
      Access(g.value, g.slot, got.slot)
  }

  /** Every call after the first hands out the instance the first one
      created, whatever the environment says by then. */
  lemma SameWhisperService(
    slot: Option<WhisperService>,
    settingsSlot: Option<Config.Settings>,
    env1: Config.Settings,
    env2: Config.Settings)
    ensures var first := GetWhisperService(slot, settingsSlot, env1);
      GetWhisperService(first.slot, first.settingsSlot, env2) == first
  {
  }

  /** With default settings the service uses 30-second windows of 480000
      samples. */
  lemma DefaultWindowSize()
    ensures var svc := NewWhisperService(Config.Defaults.whisperModelId, Config.Defaults.whisperLanguage,
                                         Config.Defaults.whisperChunkLengthS);
      ChunkSamples(svc) == 480000 && svc.modelId == "NbAiLab/nb-whisper-large" && svc.language == "no"
  {
  }
}
