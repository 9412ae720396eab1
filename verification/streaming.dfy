/**
 The live-transcription websocket (backend/app/routers/streaming.py) as a
 state machine.

 A connection owns a temporary file that the received binary frames are
 appended to; here the file is its byte content, `Some(bytes)` while the
 connection is served and `None` once the file has been removed. The socket
 is a list of incoming events and a list of outgoing JSON messages.
 `transcribe_file` is the parameter `transcribe`: what transcribing the whole
 file holding the given bytes yields, its text or the exception it raises.
 */
module Streaming {
  import opened Wrappers
  import opened Text

  newtype byte = x: int | 0 <= x < 256

  /** `TRANSCRIPTION_INTERVAL`: frames between two transcription attempts. */
  const Interval: nat := 5

  /** The file must hold more than this many bytes (10 KB) to be transcribed. */
  const MinDecodeBytes: nat := 10 * 1024

  /** The close code sent after an unexpected exception. */
  const InternalError: int := 1011

  type Transcriber = seq<byte> -> Result<string, string>

  /** What the client does next. */
  datatype Event =
    | Frame(data: seq<byte>)    // a binary frame
    | TextFrame(text: string)   // a text frame: `receive_bytes` fails on it
    | Disconnect                // the client went away

  /** The JSON objects the server sends. */
  datatype Message =
    | Status(status: string, message: string)
    | Transcription(text: string, isFinal: bool)

  datatype Phase =
    | Serving
    | Closed(code: Option<int>)   // `None`: the client left; `Some(1011)`: the server closed

  datatype Conn = Conn(file: Option<seq<byte>>, chunkCount: nat, phase: Phase)

  /** What one event produced: the new state, the file content handed to
      `transcribe_file` (if any) and the message sent (if any). */
  datatype Stepped = Stepped(conn: Conn, decoded: Option<seq<byte>>, sent: Option<Message>)

  /** A connection is served while its file exists, and only then. */
  predicate Valid(c: Conn) {
    c.phase.Serving? <==> c.file.Some?
  }

  /** Whether the frame that brings the count to `count` and the file to
      `file` triggers a transcription. */
  predicate DecodeDue(count: nat, file: seq<byte>) {
    count % Interval == 0 && |file| > MinDecodeBytes
  }

  /** The message a transcription result gives rise to: only a non-blank text
      is sent, verbatim; failures are swallowed. */
  function Reply(r: Result<string, string>): (m: Option<Message>)
    ensures m.Some? <==> r.Ok? && !IsBlank(r.value)
    ensures m.Some? ==> m.value == Transcription(r.value, false)
  {
    if r.Ok? && !IsBlank(r.value) then Some(Transcription(r.value, false)) else None
  }

  /** Opening the connection: the accepted socket gets an empty file. When
      the model is not loaded yet, the client is told so, the model is loaded
      (`loads` says whether that succeeds) and the client is told it is ready;
      a failing load closes the socket with 1011 and removes the file. */
  function Open(loaded: bool, loads: bool): (r: (Conn, seq<Message>))
    ensures Valid(r.0) && r.0.chunkCount == 0
    ensures r.0.phase.Serving? <==> loaded || loads
    ensures r.0.phase.Serving? ==> r.0.file == Some([])
    ensures !r.0.phase.Serving? ==> r.0.phase == Closed(Some(InternalError))
    ensures loaded ==> r.1 == []
    ensures !loaded ==> r.1 != [] && r.1[0] == Status("loading_model", "Loading Whisper model...")
    ensures !loaded && loads ==> r.1 == [r.1[0], Status("ready", "Model loaded")]
    ensures !loaded && !loads ==> |r.1| == 1
  {
    if loaded then (Conn(Some([]), 0, Serving), [])
    else
      var loading := Status("loading_model", "Loading Whisper model...");
      if loads then (Conn(Some([]), 0, Serving), [loading, Status("ready", "Model loaded")])
      else (Conn(None, 0, Closed(Some(InternalError))), [loading])
  }

  /** One turn of the receive loop. A binary frame is appended to the file
      and counted; on every fifth frame a file over 10 KB is transcribed as a
      whole, and a non-blank text is sent. A text frame makes
      `receive_bytes` raise, which closes the socket with 1011; a disconnect
      ends the loop quietly. Either way the file is removed. Once the loop
      has ended nothing more happens. */
  function Step(c: Conn, ev: Event, transcribe: Transcriber): (r: Stepped)
    requires Valid(c)
    ensures Valid(r.conn)
    ensures !c.phase.Serving? ==> r == Stepped(c, None, None)
    ensures c.phase.Serving? && ev.Frame? ==>
      && r.conn.phase == Serving
      && r.conn.file == Some(c.file.value + ev.data)
      && r.conn.chunkCount == c.chunkCount + 1
    ensures r.decoded.Some? <==>
      c.phase.Serving? && ev.Frame? && DecodeDue(c.chunkCount + 1, c.file.value + ev.data)
    ensures r.decoded.Some? ==> Some(r.decoded.value) == r.conn.file
    ensures r.sent.Some? ==> r.decoded.Some?
    ensures r.decoded.Some? ==> r.sent == Reply(transcribe(r.decoded.value))
    ensures c.phase.Serving? && ev.TextFrame? ==> r.conn == Conn(None, c.chunkCount, Closed(Some(InternalError)))
    ensures c.phase.Serving? && ev.Disconnect? ==> r.conn == Conn(None, c.chunkCount, Closed(None))
  {
    if !c.phase.Serving? then Stepped(c, None, None)
    else
      match ev
      case Frame(data) =>
        var file := c.file.value + data;
        var count := c.chunkCount + 1;
        var next := Conn(Some(file), count, Serving);
        if DecodeDue(count, file) then Stepped(next, Some(file), Reply(transcribe(file)))
        else Stepped(next, None, None)
      case TextFrame(_) => Stepped(Conn(None, c.chunkCount, Closed(Some(InternalError))), None, None)
      case Disconnect => Stepped(Conn(None, c.chunkCount, Closed(None)), None, None)
  }

  /** A run of the loop: the final state, the file contents transcribed and
      the messages sent, in order. */
  datatype Trace = Trace(conn: Conn, decoded: seq<seq<byte>>, sent: seq<Message>)

  function Run(c: Conn, evs: seq<Event>, transcribe: Transcriber): (r: Trace)
    requires Valid(c)
    ensures Valid(r.conn)
    ensures |r.decoded| <= |evs| && |r.sent| <= |r.decoded|
  {
    if evs == [] then Trace(c, [], [])
    else
      var prev := Run(c, evs[..|evs| - 1], transcribe);
      var s := Step(prev.conn, evs[|evs| - 1], transcribe);
      Trace(s.conn,
        prev.decoded + (if s.decoded.Some? then [s.decoded.value] else []),
        prev.sent + (if s.sent.Some? then [s.sent.value] else []))
  }

  /** The messages that transcribing `files` in order gives rise to. */
  function Replies(files: seq<seq<byte>>, transcribe: Transcriber): (ms: seq<Message>)
    ensures |ms| <= |files|
    ensures forall i :: 0 <= i < |ms| ==> ms[i].Transcription? && !ms[i].isFinal
  {
    if files == [] then []
    else
      var last := Reply(transcribe(files[|files| - 1]));
      Replies(files[..|files| - 1], transcribe) + (if last.Some? then [last.value] else [])
  }

  predicate AllFrames(evs: seq<Event>) {
    forall i :: 0 <= i < |evs| ==> evs[i].Frame?
  }

  /** The payloads of a run of binary frames. */
  function Payloads(evs: seq<Event>): (ds: seq<seq<byte>>)
    requires AllFrames(evs)
    ensures |ds| == |evs|
  {
    seq(|evs|, i requires 0 <= i < |evs| => evs[i].data)
  }

  // ---------------------------------------------------------------------------
  // Properties of a run
  // ---------------------------------------------------------------------------

  /** While only binary frames arrive, the file is everything received, in
      order, and the count is the number of frames. */
  lemma {:induction false} FileIsAllFrames(c: Conn, evs: seq<Event>, transcribe: Transcriber)
    requires Valid(c) && c.phase.Serving? && AllFrames(evs)
    ensures Run(c, evs, transcribe).conn
      == Conn(Some(c.file.value + Concat(Payloads(evs))), c.chunkCount + |evs|, Serving)
    decreases |evs|
  {
    if evs == [] {
      assert c.file.value + Concat(Payloads(evs)) == c.file.value;
    } else {
      var init, last := evs[..|evs| - 1], evs[|evs| - 1];
      FramesBefore(evs);
      FileIsAllFrames(c, init, transcribe);
      PayloadsSnoc(evs);
      ConcatAppend(Payloads(init), last.data);
      AppendAssoc(c.file.value, Concat(Payloads(init)), last.data);
    }
  }

  lemma FramesBefore(evs: seq<Event>)
    requires evs != [] && AllFrames(evs)
    ensures AllFrames(evs[..|evs| - 1]) && evs[|evs| - 1].Frame?
  {
    var init := evs[..|evs| - 1];
    forall i | 0 <= i < |init| ensures init[i].Frame? {
      assert init[i] == evs[i];
    }
  }

  lemma PayloadsSnoc(evs: seq<Event>)
    requires evs != [] && AllFrames(evs)
    ensures AllFrames(evs[..|evs| - 1])
    ensures Payloads(evs) == Payloads(evs[..|evs| - 1]) + [evs[|evs| - 1].data]
  {
    FramesBefore(evs);
  }

  /** The messages of a run are exactly the replies to the transcriptions it
      made, in the order they were made: nothing else is sent. */
  lemma {:induction false} SentAreReplies(c: Conn, evs: seq<Event>, transcribe: Transcriber)
    requires Valid(c)
    ensures Run(c, evs, transcribe).sent == Replies(Run(c, evs, transcribe).decoded, transcribe)
    decreases |evs|
  {
    if evs != [] {
      var init := evs[..|evs| - 1];
      SentAreReplies(c, init, transcribe);
      var prev := Run(c, init, transcribe);
      var s := Step(prev.conn, evs[|evs| - 1], transcribe);
      var r := Run(c, evs, transcribe);
      if s.decoded.Some? {
        var ds := prev.decoded + [s.decoded.value];
        assert r.decoded == ds;
        assert ds[..|ds| - 1] == prev.decoded;
        assert ds[|ds| - 1] == s.decoded.value;
        assert Replies(ds, transcribe) == Replies(prev.decoded, transcribe)
          + (if s.sent.Some? then [s.sent.value] else []);
      } else {
        assert r.decoded == prev.decoded;
        assert r.sent == prev.sent;
      }
    }
  }

  /** Every transcribed file content is a prefix of the current file (while
      the file exists), and each one extends the one before: the loop only
      ever re-transcribes a growing file. */
  lemma {:induction false} DecodedAreGrowingPrefixes(c: Conn, evs: seq<Event>, transcribe: Transcriber)
    requires Valid(c)
    ensures var r := Run(c, evs, transcribe);
      r.conn.file.Some? ==> forall i :: 0 <= i < |r.decoded| ==> r.decoded[i] <= r.conn.file.value
    ensures var r := Run(c, evs, transcribe);
      forall i, j :: 0 <= i <= j < |r.decoded| ==> r.decoded[i] <= r.decoded[j]
    decreases |evs|
  {
    if evs != [] {
      var init := evs[..|evs| - 1];
      DecodedAreGrowingPrefixes(c, init, transcribe);
      var prev := Run(c, init, transcribe);
      var ev := evs[|evs| - 1];
      var s := Step(prev.conn, ev, transcribe);
      var r := Run(c, evs, transcribe);
      assert r.conn == s.conn;
      if prev.conn.phase.Serving? && ev.Frame? {
        var f := prev.conn.file.value;
        var g := f + ev.data;
        assert s.conn.file == Some(g);
        forall i | 0 <= i < |prev.decoded|
          ensures prev.decoded[i] <= g
        {
          PrefixExtend(prev.decoded[i], f, ev.data);
        }
        if s.decoded.Some? {
          assert r.decoded == prev.decoded + [g];
          forall i, j | 0 <= i <= j < |r.decoded| ensures r.decoded[i] <= r.decoded[j] {
            if j == |prev.decoded| {
              if i < j {
                assert r.decoded[i] == prev.decoded[i];
              }
            } else {
              assert r.decoded[i] == prev.decoded[i] && r.decoded[j] == prev.decoded[j];
            }
          }
        } else {
          assert r.decoded == prev.decoded;
        }
      } else {
        assert r.decoded == prev.decoded;
        forall i, j | 0 <= i <= j < |r.decoded| ensures r.decoded[i] <= r.decoded[j] {
          assert r.decoded[i] == prev.decoded[i] && r.decoded[j] == prev.decoded[j];
        }
      }
    }
  }

  lemma PrefixExtend<T>(a: seq<T>, b: seq<T>, x: seq<T>)
    requires a <= b
    ensures a <= b + x
  {
    assert (b + x)[..|a|] == b[..|a|];
  }

  /** A transcription is attempted exactly on the frames that bring the count
      to a multiple of five with more than 10 KB received. */
  lemma {:induction false} DecodeSchedule(c: Conn, evs: seq<Event>, transcribe: Transcriber)
    requires Valid(c) && c.phase.Serving? && c.file == Some([]) && c.chunkCount == 0 && AllFrames(evs)
    requires evs != []
    ensures var prev := Run(c, evs[..|evs| - 1], transcribe);
      var data := Concat(Payloads(evs));
      && |Run(c, evs, transcribe).decoded| == |prev.decoded| + (if DecodeDue(|evs|, data) then 1 else 0)
      && (DecodeDue(|evs|, data) ==> Run(c, evs, transcribe).decoded[|prev.decoded|] == data)
  {
    var init := evs[..|evs| - 1];
    FileIsAllFrames(c, init, transcribe);
    FileIsAllFrames(c, evs, transcribe);
    assert [] + Concat(Payloads(evs)) == Concat(Payloads(evs));
  }

  /** What a transcription returns never influences the state: a failing or
      blank transcription leaves the loop exactly where a successful one
      would. */
  lemma {:induction false} StateIgnoresTranscriber(c: Conn, evs: seq<Event>, t1: Transcriber, t2: Transcriber)
    requires Valid(c)
    ensures Run(c, evs, t1).conn == Run(c, evs, t2).conn
    ensures Run(c, evs, t1).decoded == Run(c, evs, t2).decoded
    decreases |evs|
  {
    if evs != [] {
      var init := evs[..|evs| - 1];
      StateIgnoresTranscriber(c, init, t1, t2);
      var p1 := Run(c, init, t1);
      var p2 := Run(c, init, t2);
      var s1 := Step(p1.conn, evs[|evs| - 1], t1);
      var s2 := Step(p2.conn, evs[|evs| - 1], t2);
      assert s1.conn == s2.conn && s1.decoded == s2.decoded;
    }
  }

  /** Once the loop has ended, the file is gone and later events change
      nothing. */
  lemma {:induction false} ClosedIsFinal(c: Conn, evs: seq<Event>, more: seq<Event>, transcribe: Transcriber)
    requires Valid(c) && !Run(c, evs, transcribe).conn.phase.Serving?
    ensures Run(c, evs + more, transcribe) == Run(c, evs, transcribe)
    ensures Run(c, evs, transcribe).conn.file.None?
    decreases |more|
  {
    if more == [] {
      assert evs + more == evs;
    } else {
      var init := more[..|more| - 1];
      ClosedIsFinal(c, evs, init, transcribe);
      assert (evs + more)[..|evs + more| - 1] == evs + init;
    }
  }

  /** A whole connection: what opening sends, then what the loop sends. */
  function Session(loaded: bool, loads: bool, evs: seq<Event>, transcribe: Transcriber): (r: (Trace, seq<Message>))
    ensures var start := Open(loaded, loads);
      r.1 == start.1 + r.0.sent && r.0 == Run(start.0, evs, transcribe)
  {
    var start := Open(loaded, loads);
    var t := Run(start.0, evs, transcribe);
    (t, start.1 + t.sent)
  }

  /** Status messages come first and only when the model had to be loaded;
      everything after them is a transcription, and when loading fails no
      frame is looked at. */
  lemma SessionMessages(loaded: bool, loads: bool, evs: seq<Event>, transcribe: Transcriber)
    ensures var r := Session(loaded, loads, evs, transcribe);
      var k := |r.1| - |r.0.sent|;
      && k == (if loaded then 0 else if loads then 2 else 1)
      && (forall i :: 0 <= i < k ==> r.1[i].Status?)
      && (forall i :: k <= i < |r.1| ==> r.1[i].Transcription?)
      && (!loaded && !loads ==> r.0.decoded == [] && r.0.conn.file.None?)
  {
    var start := Open(loaded, loads);
    var r := Session(loaded, loads, evs, transcribe);
    SentAreReplies(start.0, evs, transcribe);
    if !loaded && !loads {
      ClosedIsFinal(start.0, [], evs, transcribe);
      assert [] + evs == evs;
    }
  }
}
