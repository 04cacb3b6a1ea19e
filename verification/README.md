# speak TTS server core, modelled in Dafny

The `speak` server is a local text-to-speech daemon. It listens on a Unix
socket and reads requests as newline-delimited JSON objects. It answers
`generate` with a WAV path and can stream audio as SPKR binary frames
(`stream-binary`). It shuts down on request or after an hour with no
speech work. This project models the server's core:

- `segmenter.dfy` (module `Segmenter`) models `split_text_into_chunks`:
  - whitespace normalisation as `' '.join(text.split())`;
  - the sentence and clause splits (`re.split` after `.!?` and `,;:-`);
  - the greedy packing of pieces into chunks of at most 250 characters,
    except that a single clause with no boundary inside it is emitted whole,
    however long it is.
- `spkr.dfy` (module `Spkr`) models the SPKR framing. Every frame has a
  16-byte header: the magic `SPKR`, then three little-endian 32-bit fields.
  - The writers are `write_chunk`, `write_end` and `write_error`. Their
    `struct.pack` range errors are modelled.
  - The reader is `read_chunk` on a byte stream.
- `protocol.dfy` (module `Protocol`) holds the request and response data,
  the error codes, and the router `handle_request`.
- `framing.dfy` (module `Framing`) models one connection of the accept
  loop:
  - the receive buffer and the cut at newlines;
  - `strip`, skipping blank lines, parse-error replies and shutdown;
  - dropping the connection on an unusable line.
- `session.dfy` (module `Session`) models the two speech handlers.
  - `handle_generate`: the loading status, the progress events, and a
    complete, partial or error response.
  - `handle_stream_binary`: chunk frames, then an end or an error frame.
  - The synthesis model is a function parameter from chunk index and text
    to the audio units it wrote, or to a failure after some of them.
- `idle.dfy` (module `IdleTimer`) models the idle shutdown of
  `run_server`. Clock readings are parameters.
- `common.dfy` (module `Common`) holds `Option`, `Result`, bytes, the
  32-bit range and `Flatten`. It also defines stripping a whitespace set
  from both ends once (`StripBy`), says what that means (`IsStripped`),
  and proves that this has exactly one answer. Text and byte lines each
  use it with their own whitespace set.

Each model is paired with an independent reference or an inverse:

| Model | Partner |
|---|---|
| Segmenter | the words of the text, and the joined chunks |
| SPKR writers | the reader |
| UTF-8 encoder | a strict decoder |
| `strip()` on text and on bytes | the stretch between whitespace runs, which is unique |
| One line's handling | the router's contract |
| Router | each method's own handler, and nothing else |
| Chunk loop | a characterisation by its first failure |
| Receive loop | the lines of all received bytes |
| Idle loop | its first stopping pass |

Where the descriptive documentation and the code disagree, the model
follows the code. The documentation says a connection switches to the
binary protocol for good after `stream-binary`. In the code, the
connection's loop keeps reading JSON lines after the stream ends
(server.py:639-642 returns to the loop at 721-730). The model does the
same: `Framing.HandleLine` handles the lines after a `stream-binary`
request like any others.

## Model

| member | source | states |
|---|---|---|
| Segmenter.Normalize | src/python/server.py:55 | the result has the same words in the same order, separated by single spaces only |
| Segmenter.NormalizeIdempotent | src/python/server.py:55 | normalising normalised text changes nothing |
| Segmenter.StripStrips | src/python/server.py:68 | `strip()` leaves the stretch of the text that has only whitespace (Python's `isspace` set) before and after it and none at its own ends; the result is empty exactly when the text is all whitespace |
| Segmenter.StripUnique | src/python/server.py:68 | any such stretch is the stripped text: stripping has one answer |
| Segmenter.SplitAfter | src/python/server.py:64 | the pieces joined with single spaces give the text back; no piece contains a split point; every piece but the last ends with a punctuation mark of the set |
| Segmenter.PackSound | src/python/server.py:60-102 | the packing loop loses and reorders nothing (the chunks joined are the text); every chunk is non-empty, trimmed, and within the bound unless it is one clause that cannot be cut |
| Segmenter.PackCutsAtMarks | src/python/server.py:64-102 | the packing loop emits a chunk only when a further sentence or clause follows, so every chunk but the last ends with `.!?` or `,;:-` |
| Segmenter.Segment | src/python/server.py:45-102 | short text is one chunk (the normalised text); otherwise every chunk is non-empty and trimmed; the chunks joined with spaces are the normalised text; every chunk fits the bound or cannot be cut; every chunk but the last ends with a sentence mark `.!?` or a clause mark `,;:-`, so chunks are cut only at sentence or clause boundaries |
| Segmenter.UnsplittableTextIsOneChunk | src/python/server.py:79-96 | too-long text with no sentence or clause boundary is emitted whole, as one oversized chunk |
| Spkr.LE32RoundTrip | src/python/binary_protocol.py:47 | unpacking a packed `<I` field gives the value back |
| Spkr.ReadLE32RoundTrip | src/python/binary_protocol.py:124 | packing an unpacked field gives the four bytes back |
| Spkr.WordsRoundTrip | src/python/binary_protocol.py:50 | decoding the sample bytes gives the samples back |
| Spkr.WriteChunk | src/python/binary_protocol.py:28-58 | fails exactly when the id, the sample count or the rate is outside 32 bits, with the error of the first such field; otherwise a 16-byte header with those three fields plus 4 bytes per sample |
| Spkr.WriteEnd | src/python/binary_protocol.py:61-78 | fails exactly when the count is outside 32 bits; otherwise a lone header carrying the end marker and the count |
| Spkr.WriteError | src/python/binary_protocol.py:81-100 | fails exactly when the message is too long; otherwise a header carrying the error marker and the message length, then the message bytes |
| Spkr.Utf8 | src/python/binary_protocol.py:92 | one to four bytes per character, and ASCII text is its own encoding |
| Spkr.Utf8Append | src/python/binary_protocol.py:92 | the encoding of joined texts is the joined encodings |
| Spkr.Utf8RoundTrip | src/python/binary_protocol.py:92 | strict UTF-8 decoding, as `bytes.decode('utf-8')` does it, gives every encoded text back, so no two texts share an encoding |
| Spkr.ErrorTextRoundTrip | src/python/binary_protocol.py:81-100 | the message bytes of an error frame written for a text decode back to that text |
| Spkr.ReadMessage | src/python/binary_protocol.py:103-159 | fewer than 16 bytes is the incomplete-header error; a wrong magic is the invalid-magic error; a message read leaves a suffix of the stream after its header |
| Spkr.ReadConsumesExactly | src/python/binary_protocol.py:113-150 | a stream holding the whole body its header announces is read exactly to the end of that body |
| Spkr.ChunkRoundTrip | src/python/binary_protocol.py:143-159 | a written chunk with an unreserved id reads back as that chunk, whatever follows it |
| Spkr.EndRoundTrip | src/python/binary_protocol.py:129-131 | a written end frame reads back with its count, whatever follows it |
| Spkr.ErrorRoundTrip | src/python/binary_protocol.py:133-141 | a written error frame reads back with its message bytes, whatever follows it |
| Spkr.ReservedChunkIdReadsAsEnd | src/python/binary_protocol.py:129-131 | a chunk written with id 0xFFFFFFFF is accepted by the writer but reads back as an end frame |
| Protocol.Route | src/python/server.py:627-651 | each known method is answered by its own handler: `generate` by the generate handler's events and body, `stream-binary` by one binary write of its stream and no response, `health` and `list-models` by their handler's body with nothing written; only `generate` and `stream-binary` count as speech work; only `stream-binary` leaves no response to send; every response carries the request id, or "unknown" without one; an unknown method gets code -1 and "Unknown method: " plus the name |
| Protocol.RouteUsesOnlyItsHandler | src/python/server.py:627-651 | routing consults only the handler of the request's own method: handlers that agree on it route the request identically |
| Framing.SplitLines | src/python/server.py:700-704 | the lines, each followed by a newline, plus the remainder make up the buffer; no line and no remainder contains a newline |
| Framing.SplitLinesUnique | src/python/server.py:703-704 | any newline-free lines and newline-free tail that make up the buffer are exactly what the cut returns |
| Framing.CutsJoin | src/python/server.py:700-704 | the lines cut from a buffer, then the lines cut from its leftover continued by new bytes, are newline-free lines that with the last leftover make up the buffer plus the new bytes |
| Framing.SplitLinesAppend | src/python/server.py:694-704 | receiving more bytes keeps the complete lines and continues the buffered remainder |
| Framing.PartialLineIgnored | src/python/server.py:700-704 | bytes with no newline added to a buffer add no line |
| Framing.StripBytesStrips | src/python/server.py:705 | `line.strip()` leaves the stretch of the line that has only ASCII whitespace before and after it and none at its own ends; the result is empty exactly when the line is all ASCII whitespace |
| Framing.StripBytesUnique | src/python/server.py:705 | any such stretch is the stripped line |
| Framing.HandleLine | src/python/server.py:705-739 | a blank line does nothing; a malformed line gets a parse error reply without an id and the connection stays open; a line that is not a usable JSON object drops the connection with nothing written; the connection shuts down exactly on a `shutdown` request, after one reply carrying the request's own id; any other request is routed: what its handler wrote, then the response when the router returns one, one speech flag, and the connection stays open; the flag is set exactly for `generate` and `stream-binary` |
| Framing.RequestLineContinues | src/python/server.py:720-730 | after a routed request's output and response, the following lines are still handled, and its speech flag comes first among the connection's flags |
| Framing.MalformedLineContinues | src/python/server.py:732-734 | after the parse error reply, the following lines are still handled |
| Framing.BlankLineSkipped | src/python/server.py:705-707 | a line of nothing but ASCII whitespace leaves the handling of the rest unchanged |
| Framing.ShutdownStops | src/python/server.py:713-718 | nothing after a shutdown request is handled |
| Framing.ServeIgnoresChunking | src/python/server.py:694-704 | however the bytes were split into receives, serving handles the complete lines of all of them, in order |
| Framing.TrailingBytesDiscarded | src/python/server.py:694-698 | a last receive with no newline changes nothing the connection does |
| Session.Generate | src/python/server.py:202-214 | missing or empty text gives error code 1 "No text provided" and no events; a streaming request goes to the streaming handler |
| Session.RunFromCharacterized | src/python/server.py:256-309 | the chunk loop attempts chunks in order up to the first failure, collects every unit they yield, stops with that failure's message, and starts chunk j with the characters counted for the chunks before it |
| Session.GenerateEvents | src/python/server.py:221-275 | a loading status exactly when the requested model is not the loaded one, then one progress event per attempted chunk with its number, the chunk total, the characters counted so far and the text length |
| Session.GenerateBody | src/python/server.py:310-404 | no unit gives error 3, or error 2 with the failure's message; otherwise the audio of every unit in order at the first unit's rate, with unit and chunk counts, complete exactly when no chunk failed and the rate is not zero, with the failure (or the division error) as reason |
| Session.StreamBinary | src/python/server.py:417-420 | missing or empty text reads back as exactly one error frame, "No text provided" |
| Session.SendUnitsStopsAtFirstFailure | src/python/server.py:473-499 | sending stops at the first unit the writer refuses, with the writer's error, or right after the first unit with rate 0 is written, with "division by zero" from the duration in the log line; every unit sent was accepted, every unit sent before the last had a non-zero rate, and sending is complete exactly when every unit went out and none had rate 0 |
| Session.WriteChunkReadsBack | src/python/binary_protocol.py:47 | the chunk writer refuses exactly the chunks whose fields do not fit 32 bits, and what it writes for an unreserved id reads back as that chunk |
| Session.SentFrames | src/python/server.py:473-493 | the bytes the loop has sent are the writer's frames for exactly the units it sent, each of which the writer accepted |
| Session.FramesDecode | src/python/server.py:473-493 | for any writer whose frames read back as their chunks, a run of frames followed by a readable stream reads back as those chunks, ids counting up, then that stream's messages |
| Session.SendUnitsDecodes | src/python/server.py:473-493 | the bytes sent read back as one chunk frame per unit sent, ids counting up, followed by whatever the stream holds after them |
| Session.SentFitting | src/python/server.py:489-492 | with ids below 2^32, sending stops early exactly when some unit's sample count or rate does not fit 32 bits or some unit has rate 0, and the message that stops it is short |
| Session.StreamBinaryDecodes | src/python/server.py:443-515 | a reader sees the chunk frames with ids 0, 1, 2, ... then exactly one closing frame: the end frame with the chunk count only when every unit fits 32 bits, no unit has rate 0 and synthesis did not fail; otherwise an error frame with the exception's text, including "division by zero" right after a rate-0 chunk |
| IdleTimer.AfterRequestsIsLast | src/python/server.py:721-725 | updating the timer request by request leaves the time of the last speech request |
| IdleTimer.LoopCharacterized | src/python/server.py:673-687 | the loop stops at the first pass that finds more than an hour since the last speech request, or whose client asked to shut down, idle first when both hold in one pass; a loop that never stops holds the last speech request's time |
| IdleTimer.ServeCharacterized | src/python/server.py:673-718 | the same for a whole run of the server from its start time |
| IdleTimer.UnusedServerStopsAfterAnHour | src/python/server.py:676-687 | a server nobody connects to, checking once per 60-second wait, stops at pass index 61: its 62nd idle check, after the 61st wait, at start + 3660 s |
| IdleTimer.NonSpeechConnectionKeepsTimer | src/python/server.py:721-725 | a connection whose routed requests are none of them speech work leaves the idle timer where it was |

## Left out

- Segmenter.Segment: states where chunks are cut but not that the packing
  is greedy in general. The source does not pack greedily at clause
  level: the chunk before an over-long sentence is emitted without trying
  to fit that sentence's first clause into it (server.py:73-87).
- Sockets, `select`, `accept`, `send` and `sendall` are not modelled. The
  model works on the bytes written and received, and on the sequence of
  passes of the accept loop.
- The `recv` loops of `read_chunk` are not modelled. The reader is
  modelled on a file-like stream, where a short read happens only at the
  end of the stream. On a socket that closes early the source loops
  forever.
- Audio is one channel: `Unit.samples` is a one-dimensional sample array.
  For multi-channel WAV data (server.py:477) the count field written at
  binary_protocol.py:47 is the number of frames, while the body written at
  binary_protocol.py:50 holds frames × channels words, so the two disagree;
  the model does not represent that case.
- Samples are opaque 32-bit words. The float32 conversion and the int16
  and int32 normalisation (server.py:480-486) are left out, because
  floating point is out of scope.
- Durations, the real-time factor, timestamps, temporary file names,
  `os.remove` and the WAV writes are left out. They are I/O and floating
  point. Two divisions among them do change what is sent, and both are
  modelled: a rate of 0 makes the duration at server.py:320 raise
  "division by zero", which becomes the partial result's reason
  (`Session.GenerateBody`), and makes the log line at server.py:492 raise
  right after the chunk is written, which ends the binary stream with an
  error frame (`Session.SendUnits`). The values of the durations are not
  modelled.
- JSON text is not modelled. Parsing a line is a parameter returning an
  object, a malformed-line error detail, or "unusable". Unusable covers
  invalid UTF-8 and JSON that is not an object; both end the connection.
  Ids, methods and text are modelled as strings or missing; other JSON
  types for them are left out.
- `handle_generate_stream` (the JSON streaming mode) is a parameter of
  `Session.Generate`. It lies outside the modelled core.
- `handle_health` and `handle_list_models` are parameters of the router.
  Their payloads are a version string and a fixed catalogue. The
  `Health` and `ModelCatalogue` payloads exist for them, and no modelled
  member builds either.
- `load_model` and its `model_loaded` status are not modelled: the two
  speech handlers never call it, and synthesis is a parameter.
- The idle loop's `Client(requests, shutdown)` is an input of
  `IdleTimer.Serve`. `IdleTimer.ClientActivity` builds it from a
  connection's `Framing.Transcript` and the clock after each request.
  No lemma shows that every served connection yields such a pass.
- Temperature, speed, the voice file and the model name beyond the
  loading status reach only the synthesis model. The model is a
  parameter, so they are folded into it.
- Failures inside the partial-save path of `handle_generate`
  (server.py:398-399) are left out. They come from file I/O.
- Errors while sending progress or status events are ignored by the
  source (server.py:233-234, 274-275) and are not modelled.
- `Spkr.ReadMessage` returns an error frame's message as raw bytes. The
  decoding at binary_protocol.py:141 is `Spkr.Utf8Decode`, kept apart
  from the reader. `Spkr.ErrorTextRoundTrip` joins the two for frames
  written from text. The reader's failure on invalid UTF-8 is not
  modelled.
- `Spkr.Utf8` encodes Unicode scalar values. Lone surrogates, which make
  Python's encoder raise, cannot occur in a Dafny string.
- Session.StreamBinaryDecodes: requires fewer than 0xFFFFFFFE units and an
  encodable failure message. Beyond that the ids reach the reserved
  markers, which `Spkr.ReservedChunkIdReadsAsEnd` covers separately.
- Session.GenerateEvents: `chars_done` grows by a chunk's length once per
  unit it yields (server.py:307), so the count can pass the text length
  when a chunk writes several files. The contract states this behaviour.
  It is not treated as a bug, since one file per chunk is the usual case.
