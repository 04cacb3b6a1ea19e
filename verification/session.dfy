/**
 * The two speech handlers. Both segment the request text, hand the chunks
 * to the synthesis model one at a time in order, and collect the audio
 * units (one per file the model writes) it yields. `generate` answers
 * with the concatenated audio -- complete, partial after a failure, or an
 * error -- and reports progress while it works; `stream-binary` sends each
 * unit as an SPKR chunk message the moment it is read and closes the
 * stream with an end or an error message. The model is a parameter.
 */
module Session {
  import opened Common
  import opened Segmenter
  import opened Protocol
  import Spkr

  /** One audio file the model wrote: its sample rate and its samples as
      32-bit float words. */
  datatype Unit = Unit(rate: nat, samples: seq<u32>)

  /** Synthesising one chunk: every unit it yields, or the units read
      before an exception was raised and that exception's message. */
  datatype ChunkOutcome =
    | Produced(units: seq<Unit>)
    | Failed(units: seq<Unit>, reason: string)

  /** The model, with the request's voice, speed and temperature fixed:
      chunk index and chunk text to outcome. */
  type Synth = (nat, string) -> ChunkOutcome

  const NoTextMessage: string := "No text provided"
  const NoAudioMessage: string := "No audio generated"

  /** What Python reports when the duration is divided by a zero rate. */
  const ZeroDivisionMessage: string := "division by zero"

  // ---------------------------------------------------------------------------
  // The chunk loop shared by both handlers
  // ---------------------------------------------------------------------------

  /** The loop from chunk i on: every unit collected, the failure that
      stopped it (if any), and the count of characters done when each
      attempted chunk started (`chars_done` grows by the chunk's length
      for every unit the chunk yields). */
  datatype Run = Run(units: seq<Unit>, failure: Option<string>, starts: seq<nat>)

  function RunFrom(chunks: seq<string>, synth: Synth, i: nat, charsDone: nat): (r: Run)
    requires i <= |chunks|
    ensures |r.starts| <= |chunks| - i
    decreases |chunks| - i
  {
    if i == |chunks| then Run([], None, [])
    else
      match synth(i, chunks[i])
      case Failed(saved, reason) => Run(saved, Some(reason), [charsDone])
      case Produced(us) =>
        var r := RunFrom(chunks, synth, i + 1, charsDone + |chunks[i]| * |us|);
        Run(us + r.units, r.failure, [charsDone] + r.starts)
  }

  /** The first chunk at or after i whose synthesis fails, or |chunks|. */
  function FirstFailure(chunks: seq<string>, synth: Synth, i: nat): (k: nat)
    requires i <= |chunks|
    ensures i <= k <= |chunks|
    ensures forall j :: i <= j < k ==> synth(j, chunks[j]).Produced?
    ensures k < |chunks| ==> synth(k, chunks[k]).Failed?
    decreases |chunks| - i
  {
    if i == |chunks| || synth(i, chunks[i]).Failed? then i else FirstFailure(chunks, synth, i + 1)
  }

  /** The end of the attempted chunks: up to and including the first failure. */
  function AttemptedEnd(chunks: seq<string>, synth: Synth, i: nat): nat
    requires i <= |chunks|
  {
    var k := FirstFailure(chunks, synth, i);
    if k < |chunks| then k + 1 else k
  }

  /** The units chunks i..k-1 yield, in order. */
  function UnitsIn(chunks: seq<string>, synth: Synth, i: nat, k: nat): seq<Unit>
    requires i <= k <= |chunks|
    decreases k - i
  {
    if i == k then [] else synth(i, chunks[i]).units + UnitsIn(chunks, synth, i + 1, k)
  }

  /** The characters counted for chunks i..k-1: each chunk's length once per unit. */
  function CharsIn(chunks: seq<string>, synth: Synth, i: nat, k: nat): nat
    requires i <= k <= |chunks|
    decreases k - i
  {
    if i == k then 0 else |chunks[i]| * |synth(i, chunks[i]).units| + CharsIn(chunks, synth, i + 1, k)
  }

  /** The loop attempts chunks in order up to the first failure, collects
      every unit they yield, stops with that failure's message, and starts
      chunk j with the characters of the chunks before it counted. */
  lemma {:induction false} RunFromCharacterized(chunks: seq<string>, synth: Synth, i: nat, charsDone: nat)
    requires i <= |chunks|
    ensures var k := FirstFailure(chunks, synth, i);
      var n := AttemptedEnd(chunks, synth, i);
      var r := RunFrom(chunks, synth, i, charsDone);
      && r.units == UnitsIn(chunks, synth, i, n)
      && r.failure == (if k < |chunks| then Some(synth(k, chunks[k]).reason) else None)
      && |r.starts| == n - i
      && forall j :: 0 <= j < |r.starts| ==> r.starts[j] == charsDone + CharsIn(chunks, synth, i, i + j)
    decreases |chunks| - i
  {
    if i == |chunks| {
    } else {
      match synth(i, chunks[i])
      case Failed(saved, reason) =>
        assert UnitsIn(chunks, synth, i + 1, i + 1) == [];
        assert saved + [] == saved;
      case Produced(us) =>
        var c := charsDone + |chunks[i]| * |us|;
        RunFromCharacterized(chunks, synth, i + 1, c);
        var rest := RunFrom(chunks, synth, i + 1, c);
        var r := RunFrom(chunks, synth, i, charsDone);
        assert r == Run(us + rest.units, rest.failure, [charsDone] + rest.starts);
        forall j | 0 <= j < |r.starts|
          ensures r.starts[j] == charsDone + CharsIn(chunks, synth, i, i + j)
        {
          if j > 0 {
            assert r.starts[j] == rest.starts[j - 1];
          }
        }
    }
  }

  /** The samples of the units, concatenated in order. */
  function Samples(units: seq<Unit>): (s: seq<u32>)
    decreases |units|
  {
    if |units| == 0 then [] else units[0].samples + Samples(units[1..])
  }

  // ---------------------------------------------------------------------------
  // generate
  // ---------------------------------------------------------------------------

  /** The response body once the loop is over. A zero first rate makes the
      duration division raise after the audio is saved, so the result is
      reported as partial with Python's division message. */
  function Outcome(run: Run, total: nat): Body {
    if run.units == [] then
      if run.failure.None? then Error(NoAudioCode, NoAudioMessage)
      else Error(GenerationFailedCode, run.failure.value)
    else
      var rate := run.units[0].rate;
      var reason := if run.failure.Some? then run.failure else if rate == 0 then Some(ZeroDivisionMessage) else None;
      Result(Audio(rate, Samples(run.units), reason.None?, |run.units|, total, reason))
  }

  function ProgressEvents(id: string, starts: seq<nat>, total: nat, charsTotal: nat): (ps: seq<Output>)
    ensures |ps| == |starts|
    ensures forall j :: 0 <= j < |ps| ==> ps[j] == Progress(id, j + 1, total, starts[j], charsTotal)
  {
    seq(|starts|, j requires 0 <= j < |starts| => Progress(id, j + 1, total, starts[j], charsTotal))
  }

  /** `handle_generate`: the events written while working and the response
      body. `loaded` is the model name the process last loaded; a request
      asking for streaming is passed to the JSON streaming handler. */
  function Generate(id: string, params: Params, loaded: Option<string>, synth: Synth,
                    streamJson: (string, Params) -> (seq<Output>, Body)): (r: (seq<Output>, Body))
    ensures params.text.GetOr("") == "" ==> r == ([], Error(NoTextCode, NoTextMessage))
    ensures params.text.GetOr("") != "" && params.stream ==> r == streamJson(id, params)
  {
    var text := params.text.GetOr("");
    if text == "" then ([], Error(NoTextCode, NoTextMessage))
    else if params.stream then streamJson(id, params)
    else
      var modelName := params.model.GetOr(DefaultModel);
      var status := if loaded != Some(modelName) then [Status(id, LoadingModel(modelName))] else [];
      var chunks := Segment(text, MaxChunkChars);
      var run := RunFrom(chunks, synth, 0, 0);
      (status + ProgressEvents(id, run.starts, |chunks|, |text|), Outcome(run, |chunks|))
  }

  /** The request is handled by the chunk loop (text present, no streaming). */
  predicate Synthesises(params: Params) {
    params.text.GetOr("") != "" && !params.stream
  }

  /** Events: a loading status exactly when the requested model is not the
      one last loaded, then one progress event per attempted chunk, in
      order, with the chunk count, the characters counted so far and the
      length of the request text. */
  lemma GenerateEvents(id: string, params: Params, loaded: Option<string>, synth: Synth,
                       streamJson: (string, Params) -> (seq<Output>, Body))
    requires Synthesises(params)
    ensures var text := params.text.value;
      var chunks := Segment(text, MaxChunkChars);
      var modelName := params.model.GetOr(DefaultModel);
      var events := Generate(id, params, loaded, synth, streamJson).0;
      var s := if loaded != Some(modelName) then 1 else 0;
      && |events| == s + AttemptedEnd(chunks, synth, 0)
      && (s == 1 ==> events[0] == Status(id, LoadingModel(modelName)))
      && forall j :: 0 <= j < |events| - s ==>
           events[s + j] == Progress(id, j + 1, |chunks|, CharsIn(chunks, synth, 0, j), |text|)
  {
    var text := params.text.value;
    var chunks := Segment(text, MaxChunkChars);
    var modelName := params.model.GetOr(DefaultModel);
    var status := if loaded != Some(modelName) then [Status(id, LoadingModel(modelName))] else [];
    GenerateUnfold(id, params, loaded, synth, streamJson);
    ProgressFor(id, status, chunks, synth, |text|);
  }

  /** The progress events of the chunk loop, after the given status events. */
  lemma ProgressFor(id: string, status: seq<Output>, chunks: seq<string>, synth: Synth, charsTotal: nat)
    ensures var run := RunFrom(chunks, synth, 0, 0);
      var events := status + ProgressEvents(id, run.starts, |chunks|, charsTotal);
      && |events| == |status| + AttemptedEnd(chunks, synth, 0)
      && forall j :: 0 <= j < |events| - |status| ==>
           events[|status| + j] == Progress(id, j + 1, |chunks|, CharsIn(chunks, synth, 0, j), charsTotal)
  {
    var run := RunFrom(chunks, synth, 0, 0);
    var progress := ProgressEvents(id, run.starts, |chunks|, charsTotal);
    var events := status + progress;
    RunFromCharacterized(chunks, synth, 0, 0);
    forall j | 0 <= j < |events| - |status|
      ensures events[|status| + j] == Progress(id, j + 1, |chunks|, CharsIn(chunks, synth, 0, j), charsTotal)
    {
      assert events[|status| + j] == progress[j];
    }
  }

  lemma GenerateUnfold(id: string, params: Params, loaded: Option<string>, synth: Synth,
                       streamJson: (string, Params) -> (seq<Output>, Body))
    requires Synthesises(params)
    ensures var text := params.text.value;
      var chunks := Segment(text, MaxChunkChars);
      var modelName := params.model.GetOr(DefaultModel);
      var run := RunFrom(chunks, synth, 0, 0);
      Generate(id, params, loaded, synth, streamJson) ==
        ((if loaded != Some(modelName) then [Status(id, LoadingModel(modelName))] else [])
           + ProgressEvents(id, run.starts, |chunks|, |text|),
         Outcome(run, |chunks|))
  {
  }

  /** The body: an error when no unit was collected (code 3 if nothing
      failed, code 2 with the failure's message otherwise); else audio made
      of every collected unit in order, at the first unit's rate, complete
      exactly when no chunk failed and that rate is not zero. */
  lemma GenerateBody(id: string, params: Params, loaded: Option<string>, synth: Synth,
                     streamJson: (string, Params) -> (seq<Output>, Body))
    requires Synthesises(params)
    ensures var chunks := Segment(params.text.value, MaxChunkChars);
      var k := FirstFailure(chunks, synth, 0);
      var units := UnitsIn(chunks, synth, 0, AttemptedEnd(chunks, synth, 0));
      var body := Generate(id, params, loaded, synth, streamJson).1;
      && (units == [] && k == |chunks| ==> body == Error(NoAudioCode, NoAudioMessage))
      && (units == [] && k < |chunks| ==> body == Error(GenerationFailedCode, synth(k, chunks[k]).reason))
      && (units != [] ==>
            && body.Result? && body.payload.Audio?
            && body.payload.sampleRate == units[0].rate
            && body.payload.audio == Samples(units)
            && body.payload.chunksGenerated == |units|
            && body.payload.chunksTotal == |chunks|
            && (body.payload.complete <==> k == |chunks| && units[0].rate != 0)
            && (k < |chunks| ==> body.payload.reason == Some(synth(k, chunks[k]).reason))
            && (k == |chunks| && units[0].rate == 0 ==> body.payload.reason == Some(ZeroDivisionMessage)))
  {
    var chunks := Segment(params.text.value, MaxChunkChars);
    RunFromCharacterized(chunks, synth, 0, 0);
  }

  // ---------------------------------------------------------------------------
  // stream-binary
  // ---------------------------------------------------------------------------

  /** A unit whose sample count and rate fit the header's 32-bit fields. */
  predicate UnitFits(u: Unit) {
    InU32(|u.samples|) && InU32(u.rate)
  }

  /** A unit the loop sends and goes on from: its header packs, and the
      log line after it can divide its length by its rate. */
  predicate UnitStreams(u: Unit) {
    UnitFits(u) && u.rate != 0
  }

  /** What sending the units as chunk messages wrote, how many were sent,
      and the exception that stopped the sending, if one did. */
  datatype Sent = Sent(bytes: seq<byte>, count: nat, error: Option<string>)

  /** `write_chunk` with the stream left out: the bytes of one chunk message
      for an id, samples and rate, or the packing error. The sending loop
      takes it as a parameter, and StreamBinary passes Spkr.WriteChunk, so
      that the facts about the loop hold apart from the header encoding. */
  type ChunkWriter = (int, seq<u32>, int) -> Result<seq<byte>, string>

  /** The loop's `write_chunk` calls, ids counting up from `nextId`, until
      one raises. A unit with rate 0 is written, and then the duration in
      the log line after it divides by zero (server.py:492): the sending
      stops there, the unit counted as sent but the id not advanced. */
  function SendUnits(units: seq<Unit>, nextId: nat, write: ChunkWriter): (s: Sent)
    ensures s.count <= |units|
    ensures s.error.None? ==> s.count == |units|
    decreases |units|
  {
    if |units| == 0 then Sent([], 0, None)
    else
      match write(nextId, units[0].samples, units[0].rate)
      case Failure(e) => Sent([], 0, Some(e))
      case Success(b) =>
        if units[0].rate == 0 then Sent(b, 1, Some(ZeroDivisionMessage))
        else
          var rest := SendUnits(units[1..], nextId + 1, write);
          Sent(b + rest.bytes, rest.count + 1, rest.error)
  }

  /** The sending stops at the first unit the writer refuses, with the
      writer's error, or right after the first unit with rate 0, with the
      division error; the writer accepted every unit sent, every unit sent
      but the last had a non-zero rate, and the sending is complete exactly
      when every unit went out and none had rate 0. */
  lemma {:induction false} SendUnitsStopsAtFirstFailure(units: seq<Unit>, nextId: nat, write: ChunkWriter)
    ensures var s := SendUnits(units, nextId, write);
      && (forall j :: 0 <= j < s.count ==> write(nextId + j, units[j].samples, units[j].rate).Success?)
      && (forall j :: 0 <= j < s.count - 1 ==> units[j].rate != 0)
      && (s.error.None? <==> s.count == |units| && forall j :: 0 <= j < |units| ==> units[j].rate != 0)
      && (s.error.Some? ==>
            || (&& s.count < |units|
                && (s.count == 0 || units[s.count - 1].rate != 0)
                && write(nextId + s.count, units[s.count].samples, units[s.count].rate) == Failure(s.error.value))
            || (0 < s.count && units[s.count - 1].rate == 0 && s.error.value == ZeroDivisionMessage))
    decreases |units|
  {
    if |units| > 0 && write(nextId, units[0].samples, units[0].rate).Success? && units[0].rate != 0 {
      SendUnitsStopsAtFirstFailure(units[1..], nextId + 1, write);
      var rest := SendUnits(units[1..], nextId + 1, write);
      var s := SendUnits(units, nextId, write);
      assert s.count == rest.count + 1 && s.error == rest.error;
      forall j | 1 <= j < s.count
        ensures write(nextId + j, units[j].samples, units[j].rate).Success?
      {
        assert units[j] == units[1..][j - 1];
      }
      forall j | 1 <= j < s.count - 1
        ensures units[j].rate != 0
      {
        assert units[j] == units[1..][j - 1];
      }
      if s.count > 1 {
        assert units[s.count - 1] == units[1..][rest.count - 1];
      }
      if s.error.None? {
        forall j | 1 <= j < |units|
          ensures units[j].rate != 0
        {
          assert units[j] == units[1..][j - 1];
        }
      } else if s.count < |units| {
        assert units[s.count] == units[1..][rest.count];
      }
    }
  }

  /** Reading one message: the message and the bytes after it. */
  type MessageReader = seq<byte> -> Result<(Spkr.Message, seq<byte>), Spkr.DecodeError>

  /** Reading a whole stream. */
  type StreamReader = seq<byte> -> Result<seq<Spkr.Message>, Spkr.DecodeError>

  /** What a reader needs of a chunk writer: for an id below the reserved
      markers, what it writes is not empty and reads back as that chunk
      message, whatever follows it in the stream. */
  ghost predicate ReadsBackWith(write: ChunkWriter, readOne: MessageReader) {
    forall id: int, samples: seq<u32>, rate: int ::
      0 <= id < Spkr.ErrorMarker && write(id, samples, rate).Success? ==>
        && write(id, samples, rate).value != []
        && forall after: seq<byte> ::
             readOne(write(id, samples, rate).value + after) == Success((Spkr.Chunk(id, samples, rate), after))
  }

  ghost predicate ReadsBack(write: ChunkWriter) {
    ReadsBackWith(write, Spkr.ReadMessage)
  }

  /** A stream reader that reads the first message and then the rest. */
  ghost predicate ReadsInTurn(readOne: MessageReader, readAll: StreamReader) {
    forall s: seq<byte> ::
      s != [] && readOne(s).Success? && readAll(readOne(s).value.1).Success? ==>
        readAll(s) == Success([readOne(s).value.0] + readAll(readOne(s).value.1).value)
  }

  /** The SPKR reader reads a stream message by message. */
  lemma ReadAllInTurn()
    ensures ReadsInTurn(Spkr.ReadMessage, Spkr.ReadAll)
  {
    forall s: seq<byte> |
      s != [] && Spkr.ReadMessage(s).Success? && Spkr.ReadAll(Spkr.ReadMessage(s).value.1).Success?
      ensures Spkr.ReadAll(s) ==
        Success([Spkr.ReadMessage(s).value.0] + Spkr.ReadAll(Spkr.ReadMessage(s).value.1).value)
    {
      var (m, rest) := Spkr.ReadMessage(s).value;
      Spkr.ReadFirst(s, m, rest, Spkr.ReadAll(rest).value);
    }
  }

  /** The header writer is such a writer, and it refuses exactly the chunks
      whose id, length or rate does not fit in 32 bits. */
  lemma WriteChunkReadsBack()
    ensures ReadsBack(Spkr.WriteChunk)
    ensures forall id: int, samples: seq<u32>, rate: int ::
      Spkr.WriteChunk(id, samples, rate).Success? <==> InU32(id) && InU32(|samples|) && InU32(rate)
  {
    forall id: int, samples: seq<u32>, rate: int |
      0 <= id < Spkr.ErrorMarker && Spkr.WriteChunk(id, samples, rate).Success?
      ensures Spkr.WriteChunk(id, samples, rate).value != []
      ensures forall after: seq<byte> ::
        Spkr.ReadMessage(Spkr.WriteChunk(id, samples, rate).value + after)
          == Success((Spkr.Chunk(id, samples, rate), after))
    {
      forall after: seq<byte>
        ensures Spkr.ReadMessage(Spkr.WriteChunk(id, samples, rate).value + after)
          == Success((Spkr.Chunk(id, samples, rate), after))
      {
        Spkr.ChunkRoundTrip(id, samples, rate, after);
      }
    }
  }

  /** `write_error` inside the handler's exception handler, where a failure
      to write is ignored. */
  function ErrorMessageOrNothing(message: string): seq<byte> {
    match Spkr.WriteError(Spkr.Utf8(message))
    case Success(b) => b
    case Failure(_) => []
  }

  /** `handle_stream_binary`: the bytes written to the connection. */
  function StreamBinary(params: Params, synth: Synth): (bytes: seq<byte>)
    ensures params.text.GetOr("") == "" ==>
      Spkr.ReadAll(bytes) == Success([Spkr.Error(Spkr.Utf8(NoTextMessage))])
  {
    var text := params.text.GetOr("");
    if text == "" then
      var message := Spkr.Utf8(NoTextMessage);
      var w := Spkr.WriteError(message);
      Spkr.ErrorRoundTrip(message, []);
      assert w.value + [] == w.value;
      Spkr.LoneMessage(w.value, Spkr.Error(message));
      w.value
    else
      var run := RunFrom(Segment(text, MaxChunkChars), synth, 0, 0);
      var sent := SendUnits(run.units, 0, Spkr.WriteChunk);
      if sent.error.Some? then sent.bytes + ErrorMessageOrNothing(sent.error.value)
      else if run.failure.Some? then sent.bytes + ErrorMessageOrNothing(run.failure.value)
      else
        match Spkr.WriteEnd(sent.count)
        case Success(b) => sent.bytes + b
        case Failure(e) => sent.bytes + ErrorMessageOrNothing(e)
  }

  /** The chunk messages a reader sees for units sent from id `firstId` on. */
  function ChunkMessages(units: seq<Unit>, firstId: nat): seq<Spkr.Message>
    decreases |units|
  {
    if |units| == 0 then []
    else [Spkr.Chunk(firstId, units[0].samples, units[0].rate)] + ChunkMessages(units[1..], firstId + 1)
  }

  /** The frames the writer produces for the units, ids counting up from
      `firstId`, concatenated; defined when the writer accepts every unit. */
  function Frames(units: seq<Unit>, firstId: nat, write: ChunkWriter): seq<byte>
    requires forall j :: 0 <= j < |units| ==> write(firstId + j, units[j].samples, units[j].rate).Success?
    decreases |units|
  {
    if |units| == 0 then []
    else write(firstId, units[0].samples, units[0].rate).value + Frames(units[1..], firstId + 1, write)
  }

  /** What the loop sends is the frames of the units it sent. */
  lemma {:induction false} SentFrames(units: seq<Unit>, firstId: nat, write: ChunkWriter)
    ensures var sent := SendUnits(units, firstId, write);
      && (forall j :: 0 <= j < sent.count ==>
            write(firstId + j, units[..sent.count][j].samples, units[..sent.count][j].rate).Success?)
      && sent.bytes == Frames(units[..sent.count], firstId, write)
    decreases |units|
  {
    SendUnitsStopsAtFirstFailure(units, firstId, write);
    var sent := SendUnits(units, firstId, write);
    if sent.count > 0 && units[0].rate == 0 {
      var b := write(firstId, units[0].samples, units[0].rate).value;
      assert sent.bytes == b;
      assert units[..sent.count][1..] == [];
      assert Frames(units[..sent.count], firstId, write) == b + [];
    } else if sent.count > 0 {
      SentFrames(units[1..], firstId + 1, write);
      var rest := SendUnits(units[1..], firstId + 1, write);
      var b := write(firstId, units[0].samples, units[0].rate).value;
      assert sent == Sent(b + rest.bytes, rest.count + 1, rest.error);
      assert units[..sent.count][1..] == units[1..][..rest.count];
    }
  }

  /** Frames read back as their chunk messages, in order, ids counting up,
      followed by whatever the rest of the stream holds, for any readers
      that read the writer's frames back and a stream message by message. */
  lemma {:induction false} FramesDecode(units: seq<Unit>, firstId: nat, write: ChunkWriter,
                                        readOne: MessageReader, readAll: StreamReader,
                                        tail: seq<byte>, tailMessages: seq<Spkr.Message>)
    requires ReadsBackWith(write, readOne) && ReadsInTurn(readOne, readAll)
    requires firstId + |units| <= Spkr.ErrorMarker
    requires forall j :: 0 <= j < |units| ==> write(firstId + j, units[j].samples, units[j].rate).Success?
    requires readAll(tail) == Success(tailMessages)
    ensures readAll(Frames(units, firstId, write) + tail) == Success(ChunkMessages(units, firstId) + tailMessages)
    decreases |units|
  {
    if |units| == 0 {
      assert Frames(units, firstId, write) + tail == tail;
      assert [] + tailMessages == tailMessages;
    } else {
      FramesDecode(units[1..], firstId + 1, write, readOne, readAll, tail, tailMessages);
      FrameThenFrames(units, firstId, write, readOne, readAll, tail, tailMessages);
    }
  }

  /** The inductive step: the first frame, then the frames of the others. */
  lemma FrameThenFrames(units: seq<Unit>, firstId: nat, write: ChunkWriter,
                        readOne: MessageReader, readAll: StreamReader,
                        tail: seq<byte>, tailMessages: seq<Spkr.Message>)
    requires ReadsBackWith(write, readOne) && ReadsInTurn(readOne, readAll)
    requires 0 < |units| && firstId + |units| <= Spkr.ErrorMarker
    requires forall j :: 0 <= j < |units| ==> write(firstId + j, units[j].samples, units[j].rate).Success?
    requires readAll(Frames(units[1..], firstId + 1, write) + tail) ==
      Success(ChunkMessages(units[1..], firstId + 1) + tailMessages)
    ensures readAll(Frames(units, firstId, write) + tail) == Success(ChunkMessages(units, firstId) + tailMessages)
  {
    FramesHead(units, firstId, write);
    var b := write(firstId, units[0].samples, units[0].rate).value;
    var m := Spkr.Chunk(firstId, units[0].samples, units[0].rate);
    var more := Frames(units[1..], firstId + 1, write);
    var later := ChunkMessages(units[1..], firstId + 1);
    assert Frames(units, firstId, write) + tail == b + (more + tail);
    assert ChunkMessages(units, firstId) + tailMessages == [m] + (later + tailMessages);
    assert readAll(b + (more + tail)) == Success([m] + (later + tailMessages)) by {
      FrameReadsBack(write, readOne, firstId, units[0].samples, units[0].rate, more + tail);
      ReadInTurn(readOne, readAll, b, m, more + tail, later + tailMessages);
    }
  }

  /** The frames of non-empty units are the first unit's frame, then the rest's. */
  lemma FramesHead(units: seq<Unit>, firstId: nat, write: ChunkWriter)
    requires 0 < |units|
    requires forall j :: 0 <= j < |units| ==> write(firstId + j, units[j].samples, units[j].rate).Success?
    ensures forall j :: 0 <= j < |units| - 1 ==> write(firstId + 1 + j, units[1..][j].samples, units[1..][j].rate).Success?
    ensures Frames(units, firstId, write) ==
      write(firstId, units[0].samples, units[0].rate).value + Frames(units[1..], firstId + 1, write)
  {
    forall j | 0 <= j < |units| - 1
      ensures write(firstId + 1 + j, units[1..][j].samples, units[1..][j].rate).Success?
    {
      assert units[1..][j] == units[j + 1];
    }
  }

  /** One frame the writer produced reads back as its chunk, whatever follows it. */
  lemma FrameReadsBack(write: ChunkWriter, readOne: MessageReader,
                       id: int, samples: seq<u32>, rate: int, after: seq<byte>)
    requires ReadsBackWith(write, readOne)
    requires 0 <= id < Spkr.ErrorMarker && write(id, samples, rate).Success?
    ensures write(id, samples, rate).value != []
    ensures readOne(write(id, samples, rate).value + after) == Success((Spkr.Chunk(id, samples, rate), after))
  {
  }

  lemma ReadInTurn(readOne: MessageReader, readAll: StreamReader,
                   b: seq<byte>, m: Spkr.Message, after: seq<byte>, ms: seq<Spkr.Message>)
    requires ReadsInTurn(readOne, readAll)
    requires b != [] && readOne(b + after) == Success((m, after))
    requires readAll(after) == Success(ms)
    ensures readAll(b + after) == Success([m] + ms)
  {
    assert b + after != [];
  }

  /** The units sent read back as chunk messages, in order, ids counting
      up, followed by whatever the rest of the stream holds. */
  lemma SendUnitsDecodes(units: seq<Unit>, firstId: nat, write: ChunkWriter,
                         tail: seq<byte>, tailMessages: seq<Spkr.Message>)
    requires ReadsBack(write)
    requires firstId + |units| <= Spkr.ErrorMarker
    requires Spkr.ReadAll(tail) == Success(tailMessages)
    ensures var sent := SendUnits(units, firstId, write);
      Spkr.ReadAll(sent.bytes + tail) == Success(ChunkMessages(units[..sent.count], firstId) + tailMessages)
  {
    var sent := SendUnits(units, firstId, write);
    SentFrames(units, firstId, write);
    ReadAllInTurn();
    FramesDecode(units[..sent.count], firstId, write, Spkr.ReadMessage, Spkr.ReadAll, tail, tailMessages);
  }

  /** A reader of the stream sees one chunk message per unit sent, ids 0,
      1, 2, ... in order, then exactly one closing message: an end message
      carrying the number of chunks when every chunk was synthesised and
      every unit packed, otherwise an error message carrying the exception's
      text. Every unit is sent and the stream ends well exactly when every
      unit's header packs and no unit has rate 0. */
  lemma StreamBinaryDecodes(params: Params, synth: Synth)
    requires params.text.GetOr("") != ""
    requires var run := RunFrom(Segment(params.text.value, MaxChunkChars), synth, 0, 0);
      && |run.units| < Spkr.ErrorMarker
      && (run.failure.Some? ==> InU32(|Spkr.Utf8(run.failure.value)|))
    ensures var run := RunFrom(Segment(params.text.value, MaxChunkChars), synth, 0, 0);
      var sent := SendUnits(run.units, 0, Spkr.WriteChunk);
      && (sent.error.None? <==> forall j :: 0 <= j < |run.units| ==> UnitStreams(run.units[j]))
      && Spkr.ReadAll(StreamBinary(params, synth)) ==
           Success(ChunkMessages(run.units[..sent.count], 0) +
             [if sent.error.Some? then Spkr.Error(Spkr.Utf8(sent.error.value))
              else if run.failure.Some? then Spkr.Error(Spkr.Utf8(run.failure.value))
              else Spkr.End(sent.count)])
  {
    var run := RunFrom(Segment(params.text.value, MaxChunkChars), synth, 0, 0);
    var sent := SendUnits(run.units, 0, Spkr.WriteChunk);
    SentFitting(run.units);
    WriteChunkReadsBack();
    var last :=
      if sent.error.Some? then Spkr.Error(Spkr.Utf8(sent.error.value))
      else if run.failure.Some? then Spkr.Error(Spkr.Utf8(run.failure.value))
      else Spkr.End(sent.count);
    var tail: seq<byte>;
    if sent.error.Some? {
      var message := Spkr.Utf8(sent.error.value);
      assert |sent.error.value| < 100;
      tail := Spkr.WriteError(message).value;
      Spkr.ErrorRoundTrip(message, []);
    } else if run.failure.Some? {
      tail := Spkr.WriteError(Spkr.Utf8(run.failure.value)).value;
      Spkr.ErrorRoundTrip(Spkr.Utf8(run.failure.value), []);
    } else {
      tail := Spkr.WriteEnd(sent.count).value;
      Spkr.EndRoundTrip(sent.count, []);
    }
    assert tail + [] == tail;
    Spkr.LoneMessage(tail, last);
    SendUnitsDecodes(run.units, 0, Spkr.WriteChunk, tail, [last]);
  }

  /** A writer that refuses exactly the chunks with a field outside 32
      bits, with a short message. */
  ghost predicate RefusesExactlyUnfit(write: ChunkWriter) {
    forall id: int, samples: seq<u32>, rate: int ::
      && (write(id, samples, rate).Success? <==> InU32(id) && InU32(|samples|) && InU32(rate))
      && (write(id, samples, rate).Failure? ==> |write(id, samples, rate).error| < 100)
  }

  lemma WriteChunkRefusesExactlyUnfit()
    ensures RefusesExactlyUnfit(Spkr.WriteChunk)
  {
    assert |Spkr.ArgumentRangeMessage| < 100 && |Spkr.FieldRangeMessage| < 100;
  }

  /** With ids below 2^32 and the header writer, the sending stops early
      exactly when some unit's length or rate does not fit in 32 bits or
      some unit has rate 0, and what stops it is a short message. */
  lemma SentFitting(units: seq<Unit>)
    requires |units| < Spkr.ErrorMarker
    ensures var sent := SendUnits(units, 0, Spkr.WriteChunk);
      && (sent.error.None? <==> forall j :: 0 <= j < |units| ==> UnitStreams(units[j]))
      && (sent.error.Some? ==> |sent.error.value| < 100)
  {
    WriteChunkRefusesExactlyUnfit();
    SentFittingWith(units, Spkr.WriteChunk);
  }

  lemma SentFittingWith(units: seq<Unit>, write: ChunkWriter)
    requires |units| < Spkr.ErrorMarker && RefusesExactlyUnfit(write)
    ensures var sent := SendUnits(units, 0, write);
      && (sent.error.None? <==> forall j :: 0 <= j < |units| ==> UnitStreams(units[j]))
      && (sent.error.Some? ==> |sent.error.value| < 100)
  {
    SendUnitsStopsAtFirstFailure(units, 0, write);
    StopsWhereUnitFails(units, SendUnits(units, 0, write), write);
  }

  /** SentFitting for any sending that stopped as SendUnits stops. */
  lemma StopsWhereUnitFails(units: seq<Unit>, sent: Sent, write: ChunkWriter)
    requires |units| < Spkr.ErrorMarker && sent.count <= |units| && RefusesExactlyUnfit(write)
    requires forall j :: 0 <= j < sent.count ==> write(j, units[j].samples, units[j].rate).Success?
    requires forall j :: 0 <= j < sent.count - 1 ==> units[j].rate != 0
    requires sent.error.None? <==> sent.count == |units| && forall j :: 0 <= j < |units| ==> units[j].rate != 0
    requires sent.error.Some? ==>
      || (&& sent.count < |units|
          && (sent.count == 0 || units[sent.count - 1].rate != 0)
          && write(sent.count, units[sent.count].samples, units[sent.count].rate) == Failure(sent.error.value))
      || (0 < sent.count && units[sent.count - 1].rate == 0 && sent.error.value == ZeroDivisionMessage)
    ensures sent.error.None? <==> forall j :: 0 <= j < |units| ==> UnitStreams(units[j])
    ensures sent.error.Some? ==> |sent.error.value| < 100
  {
    if sent.error.Some? {
      var k := sent.count;
      if 0 < k && units[k - 1].rate == 0 {
        assert !UnitStreams(units[k - 1]);
      } else {
        assert !UnitFits(units[k]);
      }
    } else {
      forall j | 0 <= j < |units|
        ensures UnitStreams(units[j])
      {
        assert write(j, units[j].samples, units[j].rate).Success?;
      }
    }
  }
}
