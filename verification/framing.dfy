/**
 * One connection of the accept loop in run_server: received bytes are
 * buffered, cut at each newline, stripped, and every non-blank line is
 * parsed and handled in order. Bytes after the last newline wait in the
 * buffer and are discarded when the peer closes.
 */
module Framing {
  import opened Common
  import opened Protocol

  const Newline: byte := 0x0A

  /** The whitespace `bytes.strip()` removes. */
  predicate IsAsciiSpace(b: byte) {
    b == 0x20 || (0x09 <= b <= 0x0D)
  }

  predicate NoNewline(b: seq<byte>) {
    forall i :: 0 <= i < |b| ==> b[i] != Newline
  }

  // ---------------------------------------------------------------------------
  // Cutting the buffer into lines
  // ---------------------------------------------------------------------------

  /** The index of the first newline at or after i, or |b|. */
  function NextNewline(b: seq<byte>, i: nat): (k: nat)
    requires i <= |b|
    ensures i <= k <= |b|
    ensures k < |b| ==> b[k] == Newline
    ensures forall j :: i <= j < k ==> b[j] != Newline
    decreases |b| - i
  {
    if i == |b| || b[i] == Newline then i else NextNewline(b, i + 1)
  }

  /** Lines each followed by its newline, concatenated. */
  function Terminated(lines: seq<seq<byte>>): seq<byte>
    decreases |lines|
  {
    if |lines| == 0 then [] else lines[0] + [Newline] + Terminated(lines[1..])
  }

  /** The inner loop's repeated split of the buffer at its first newline:
      the complete lines, in order, and the bytes after the last newline. */
  function SplitLines(b: seq<byte>): (r: (seq<seq<byte>>, seq<byte>))
    ensures Terminated(r.0) + r.1 == b
    ensures forall i :: 0 <= i < |r.0| ==> NoNewline(r.0[i])
    ensures NoNewline(r.1)
    decreases |b|
  {
    var k := NextNewline(b, 0);
    if k == |b| then ([], b)
    else
      var rest := SplitLines(b[k + 1..]);
      CutFront(b, k, rest.0, rest.1);
      ([b[..k]] + rest.0, rest.1)
  }

  /** The line before the first newline, put in front of the cut of what
      follows that newline, is a cut of the whole. */
  lemma CutFront(b: seq<byte>, k: nat, lines: seq<seq<byte>>, tail: seq<byte>)
    requires k < |b| && b[k] == Newline
    requires forall j :: 0 <= j < k ==> b[j] != Newline
    requires Terminated(lines) + tail == b[k + 1..]
    requires forall i :: 0 <= i < |lines| ==> NoNewline(lines[i])
    ensures Terminated([b[..k]] + lines) + tail == b
    ensures forall i :: 0 <= i < |[b[..k]] + lines| ==> NoNewline(([b[..k]] + lines)[i])
  {
    var all := [b[..k]] + lines;
    assert all[1..] == lines;
    assert Terminated(all) == b[..k] + [Newline] + Terminated(lines);
    assert b == b[..k] + [Newline] + b[k + 1..];
    forall i | 0 <= i < |all|
      ensures NoNewline(all[i])
    {
      if i > 0 {
        assert all[i] == lines[i - 1];
      }
    }
  }

  lemma {:induction false} TerminatedAppend(xs: seq<seq<byte>>, ys: seq<seq<byte>>)
    ensures Terminated(xs + ys) == Terminated(xs) + Terminated(ys)
    decreases |xs|
  {
    if |xs| == 0 {
      assert xs + ys == ys;
    } else {
      assert (xs + ys)[1..] == xs[1..] + ys;
      TerminatedAppend(xs[1..], ys);
    }
  }

  /** Cutting is unique: newline-free lines and a newline-free tail that
      concatenate to b are exactly what SplitLines returns. */
  lemma {:induction false} SplitLinesUnique(b: seq<byte>, lines: seq<seq<byte>>, tail: seq<byte>)
    requires Terminated(lines) + tail == b
    requires forall i :: 0 <= i < |lines| ==> NoNewline(lines[i])
    requires NoNewline(tail)
    ensures SplitLines(b) == (lines, tail)
    decreases |lines|
  {
    if |lines| == 0 {
      assert b == tail;
    } else {
      var l := lines[0];
      var more := Terminated(lines[1..]) + tail;
      assert b == l + [Newline] + more;
      assert b[|l|] == Newline;
      assert forall j :: 0 <= j < |l| ==> b[j] == l[j];
      assert NextNewline(b, 0) == |l|;
      assert b[..|l|] == l;
      assert b[|l| + 1..] == more;
      SplitLinesUnique(more, lines[1..], tail);
      assert lines == [l] + lines[1..];
    }
  }

  /** Receiving more bytes never changes the lines already complete: the
      buffer's tail is simply continued. */
  lemma SplitLinesAppend(a: seq<byte>, b: seq<byte>)
    ensures SplitLines(a + b) ==
      (SplitLines(a).0 + SplitLines(SplitLines(a).1 + b).0, SplitLines(SplitLines(a).1 + b).1)
  {
    var first := SplitLines(a);
    var second := SplitLines(first.1 + b);
    CutsJoin(a, b, first.0, first.1, second.0, second.1);
    SplitLinesUnique(a + b, first.0 + second.0, second.1);
  }

  /** Two cuts glued at the tail of the first are a cut of the whole. */
  lemma CutsJoin(a: seq<byte>, b: seq<byte>, l1: seq<seq<byte>>, r1: seq<byte>, l2: seq<seq<byte>>, r2: seq<byte>)
    requires Terminated(l1) + r1 == a && Terminated(l2) + r2 == r1 + b
    requires forall i :: 0 <= i < |l1| ==> NoNewline(l1[i])
    requires forall i :: 0 <= i < |l2| ==> NoNewline(l2[i])
    ensures Terminated(l1 + l2) + r2 == a + b
    ensures forall i :: 0 <= i < |l1 + l2| ==> NoNewline((l1 + l2)[i])
  {
    TerminatedAppend(l1, l2);
    CutRemainder(Terminated(l1), Terminated(l2), r1, r2, a, b);
    LinesJoin(l1, l2);
  }

  /** The byte-level half of CutsJoin, kept apart from the line facts so
      that the sequence reasoning stays small. */
  lemma CutRemainder(t1: seq<byte>, t2: seq<byte>, r1: seq<byte>, r2: seq<byte>, a: seq<byte>, b: seq<byte>)
    requires t1 + r1 == a && t2 + r2 == r1 + b
    ensures (t1 + t2) + r2 == a + b
  {
    assert (t1 + t2) + r2 == t1 + (r1 + b);
  }

  lemma LinesJoin(l1: seq<seq<byte>>, l2: seq<seq<byte>>)
    requires forall i :: 0 <= i < |l1| ==> NoNewline(l1[i])
    requires forall i :: 0 <= i < |l2| ==> NoNewline(l2[i])
    ensures forall i :: 0 <= i < |l1 + l2| ==> NoNewline((l1 + l2)[i])
  {
    forall i | 0 <= i < |l1 + l2|
      ensures NoNewline((l1 + l2)[i])
    {
      if i < |l1| {
        assert (l1 + l2)[i] == l1[i];
      } else {
        assert (l1 + l2)[i] == l2[i - |l1|];
      }
    }
  }

  /** A trailing partial line never yields a line. */
  lemma PartialLineIgnored(b: seq<byte>, partial: seq<byte>)
    requires NoNewline(partial)
    ensures SplitLines(b + partial).0 == SplitLines(b).0
  {
    SplitLinesAppend(b, partial);
    var r := SplitLines(b).1;
    assert NoNewline(r + partial) by {
      forall i | 0 <= i < |r + partial|
        ensures (r + partial)[i] != Newline
      {
        if i < |r| {
          assert (r + partial)[i] == r[i];
        } else {
          assert (r + partial)[i] == partial[i - |r|];
        }
      }
    }
    SplitLinesUnique(r + partial, [], r + partial);
  }

  // ---------------------------------------------------------------------------
  // Stripping and handling one line
  // ---------------------------------------------------------------------------

  /** `line.strip()` on bytes: no ASCII whitespace is left at either end,
      and a line with none there is returned unchanged; StripBytesStrips
      says what was cut. */
  function StripBytes(b: seq<byte>): (r: seq<byte>)
    ensures |r| == 0 || (!IsAsciiSpace(r[0]) && !IsAsciiSpace(r[|r| - 1]))
    ensures (|b| == 0 || (!IsAsciiSpace(b[0]) && !IsAsciiSpace(b[|b| - 1]))) ==> r == b
  {
    StripBy(b, IsAsciiSpace)
  }

  /** StripBytes cuts the ASCII whitespace from both ends of the line and
      nothing else, and leaves nothing exactly when the line is all
      whitespace. */
  lemma StripBytesStrips(b: seq<byte>)
    ensures IsStripped(b, StripBytes(b), IsAsciiSpace)
    ensures StripBytes(b) == [] <==> All(b, IsAsciiSpace)
  {
    StripByStrips(b, IsAsciiSpace);
  }

  /** Any stretch of the line with only ASCII whitespace around it and none
      at its ends is StripBytes of the line. */
  lemma StripBytesUnique(b: seq<byte>, stripped: seq<byte>)
    requires IsStripped(b, stripped, IsAsciiSpace)
    ensures StripBytes(b) == stripped
  {
    StripByUnique(b, stripped, IsAsciiSpace);
  }

  /** What decoding a line as UTF-8 JSON yields. `Unusable` covers invalid
      UTF-8 and JSON that is not an object: both raise outside the parse
      error handler and end the connection. */
  datatype Parsed = Object(req: Request) | Malformed(detail: string) | Unusable

  /** How far a connection got: still open, shut down on request, or
      dropped by an error. */
  datatype State = Open | ShutDown | Dropped

  /** What a connection wrote, the idle-timer flag of every routed request,
      and how it ended. */
  datatype Transcript = Transcript(outputs: seq<Output>, tts: seq<bool>, state: State)

  /** Sequencing: the second part only happens while the connection is open. */
  function Then(t1: Transcript, t2: Transcript): Transcript {
    if t1.state != Open then t1
    else Transcript(t1.outputs + t2.outputs, t1.tts + t2.tts, t2.state)
  }

  lemma ThenAssoc(a: Transcript, b: Transcript, c: Transcript)
    ensures Then(Then(a, b), c) == Then(a, Then(b, c))
  {
    if a.state == Open && b.state == Open {
      assert (a.outputs + b.outputs) + c.outputs == a.outputs + (b.outputs + c.outputs);
      assert (a.tts + b.tts) + c.tts == a.tts + (b.tts + c.tts);
    }
  }

  const Idle: Transcript := Transcript([], [], Open)

  function ParseErrorReply(detail: string): Output {
    Reply(Response(None, Error(ParseErrorCode, "Parse error: " + detail)))
  }

  /** The body of the inner loop for one line. */
  function HandleLine(raw: seq<byte>, parse: seq<byte> -> Parsed, h: Handlers): (t: Transcript)
    ensures StripBytes(raw) == [] ==> t == Idle
    ensures StripBytes(raw) != [] && parse(StripBytes(raw)).Malformed? ==>
      t == Transcript([ParseErrorReply(parse(StripBytes(raw)).detail)], [], Open)
    ensures StripBytes(raw) != [] && parse(StripBytes(raw)).Unusable? ==> t == Transcript([], [], Dropped)
    ensures t.state == ShutDown <==>
      StripBytes(raw) != [] && parse(StripBytes(raw)).Object? &&
      parse(StripBytes(raw)).req.methodName == Some("shutdown")
    ensures t.state == ShutDown ==>
      t.outputs == [Reply(Response(parse(StripBytes(raw)).req.id, Result(ShuttingDown)))]
    ensures t.state == Dropped <==> StripBytes(raw) != [] && parse(StripBytes(raw)).Unusable?
    ensures |t.tts| == 1 <==>
      StripBytes(raw) != [] && parse(StripBytes(raw)).Object? &&
      parse(StripBytes(raw)).req.methodName != Some("shutdown")
    ensures |t.tts| == 1 ==>
      var r := Route(parse(StripBytes(raw)).req, h);
      && t.outputs == r.written + (if r.response.Some? then [Reply(r.response.value)] else [])
      && t.tts == [r.isTts]
      && t.state == Open
    ensures t.tts == [true] <==>
      StripBytes(raw) != [] && parse(StripBytes(raw)).Object? &&
      parse(StripBytes(raw)).req.methodName in {Some("generate"), Some("stream-binary")}
    ensures |t.tts| <= 1
  {
    var line := StripBytes(raw);
    if line == [] then Idle
    else
      match parse(line)
      case Malformed(detail) => Transcript([ParseErrorReply(detail)], [], Open)
      case Unusable => Transcript([], [], Dropped)
      case Object(req) =>
        if req.methodName == Some("shutdown") then
          Transcript([Reply(Response(req.id, Result(ShuttingDown)))], [], ShutDown)
        else
          var r := Route(req, h);
          var sent := if r.response.Some? then [Reply(r.response.value)] else [];
          Transcript(r.written + sent, [r.isTts], Open)
  }

  /** The complete lines in order, stopping at a shutdown or a dropped connection. */
  function HandleLines(lines: seq<seq<byte>>, parse: seq<byte> -> Parsed, h: Handlers): Transcript
    decreases |lines|
  {
    if |lines| == 0 then Idle
    else Then(HandleLine(lines[0], parse, h), HandleLines(lines[1..], parse, h))
  }

  lemma {:induction false} HandleLinesAppend(xs: seq<seq<byte>>, ys: seq<seq<byte>>, parse: seq<byte> -> Parsed, h: Handlers)
    ensures HandleLines(xs + ys, parse, h) == Then(HandleLines(xs, parse, h), HandleLines(ys, parse, h))
    decreases |xs|
  {
    if |xs| == 0 {
      assert xs + ys == ys;
      var t := HandleLines(ys, parse, h);
      assert Then(Idle, t) == t;
    } else {
      assert (xs + ys)[1..] == xs[1..] + ys;
      HandleLinesAppend(xs[1..], ys, parse, h);
      ThenAssoc(HandleLine(xs[0], parse, h), HandleLines(xs[1..], parse, h), HandleLines(ys, parse, h));
    }
  }

  /** A malformed line is answered with a parse error that has no id, and
      the lines after it are still handled. */
  lemma MalformedLineContinues(raw: seq<byte>, rest: seq<seq<byte>>, parse: seq<byte> -> Parsed, h: Handlers)
    requires StripBytes(raw) != [] && parse(StripBytes(raw)).Malformed?
    ensures var later := HandleLines(rest, parse, h);
      HandleLines([raw] + rest, parse, h) ==
        Transcript([ParseErrorReply(parse(StripBytes(raw)).detail)] + later.outputs, later.tts, later.state)
  {
    assert ([raw] + rest)[1..] == rest;
  }

  /** A line of nothing but ASCII whitespace is skipped. */
  lemma BlankLineSkipped(raw: seq<byte>, rest: seq<seq<byte>>, parse: seq<byte> -> Parsed, h: Handlers)
    requires All(raw, IsAsciiSpace)
    ensures HandleLines([raw] + rest, parse, h) == HandleLines(rest, parse, h)
  {
    StripBytesStrips(raw);
    assert ([raw] + rest)[1..] == rest;
    var t := HandleLines(rest, parse, h);
    assert Then(Idle, t) == t;
  }

  /** A request line other than shutdown is routed: the handler's output
      and the response go out, its speech flag is recorded, and the lines
      after it are still handled. */
  lemma RequestLineContinues(raw: seq<byte>, rest: seq<seq<byte>>, parse: seq<byte> -> Parsed, h: Handlers)
    requires StripBytes(raw) != [] && parse(StripBytes(raw)).Object?
    requires parse(StripBytes(raw)).req.methodName != Some("shutdown")
    ensures var r := Route(parse(StripBytes(raw)).req, h);
      var later := HandleLines(rest, parse, h);
      HandleLines([raw] + rest, parse, h) ==
        Transcript(r.written + (if r.response.Some? then [Reply(r.response.value)] else []) + later.outputs,
                   [r.isTts] + later.tts, later.state)
  {
    assert ([raw] + rest)[1..] == rest;
  }

  /** After a shutdown request nothing more is handled. */
  lemma ShutdownStops(raw: seq<byte>, rest: seq<seq<byte>>, parse: seq<byte> -> Parsed, h: Handlers)
    requires StripBytes(raw) != [] && parse(StripBytes(raw)).Object?
    requires parse(StripBytes(raw)).req.methodName == Some("shutdown")
    ensures HandleLines([raw] + rest, parse, h) == HandleLine(raw, parse, h)
    ensures HandleLines([raw] + rest, parse, h).state == ShutDown
  {
    assert ([raw] + rest)[1..] == rest;
  }

  // ---------------------------------------------------------------------------
  // The receive loop
  // ---------------------------------------------------------------------------

  /** The receive loop of one connection: `received` are the successive
      results of recv, each appended to the buffer before its complete lines
      are handled; an empty one means the peer closed. A transcript that ends Open ended because the peer closed,
      and whatever was left in the buffer is discarded. */
  function Serve(buffer: seq<byte>, received: seq<seq<byte>>, parse: seq<byte> -> Parsed, h: Handlers): Transcript
    decreases |received|
  {
    if |received| == 0 || received[0] == [] then Idle
    else
      var (lines, rest) := SplitLines(buffer + received[0]);
      Then(HandleLines(lines, parse, h), Serve(rest, received[1..], parse, h))
  }

  /** How the data was cut into recv results does not matter: serving is
      handling the complete lines of everything received, in order. */
  lemma {:induction false} ServeIgnoresChunking(buffer: seq<byte>, received: seq<seq<byte>>, parse: seq<byte> -> Parsed, h: Handlers)
    requires NoNewline(buffer)
    requires forall i :: 0 <= i < |received| ==> received[i] != []
    ensures Serve(buffer, received, parse, h) == HandleLines(SplitLines(buffer + Flatten(received)).0, parse, h)
    decreases |received|
  {
    if |received| == 0 {
      assert buffer + Flatten(received) == buffer;
      SplitLinesUnique(buffer, [], buffer);
    } else {
      var cut := SplitLines(buffer + received[0]);
      ServeIgnoresChunking(cut.1, received[1..], parse, h);
      ServeMore(buffer, received, parse, h);
    }
  }

  /** The inductive step: serving the first receive, then the rest as the
      complete lines of everything after it. */
  lemma ServeMore(buffer: seq<byte>, received: seq<seq<byte>>, parse: seq<byte> -> Parsed, h: Handlers)
    requires |received| > 0 && received[0] != []
    requires var cut := SplitLines(buffer + received[0]);
      Serve(cut.1, received[1..], parse, h) ==
        HandleLines(SplitLines(cut.1 + Flatten(received[1..])).0, parse, h)
    ensures Serve(buffer, received, parse, h) == HandleLines(SplitLines(buffer + Flatten(received)).0, parse, h)
  {
    ServeStep(buffer, received, parse, h);
    FlattenFront(buffer, received);
    HandleContinued(buffer + received[0], Flatten(received[1..]), buffer + Flatten(received), parse, h);
  }

  /** Concatenation bookkeeping for ServeMore, kept apart so
      that its proof stays small. */
  lemma FlattenFront(buffer: seq<byte>, received: seq<seq<byte>>)
    requires |received| > 0
    ensures buffer + Flatten(received) == (buffer + received[0]) + Flatten(received[1..])
  {
  }

  lemma ServeStep(buffer: seq<byte>, received: seq<seq<byte>>, parse: seq<byte> -> Parsed, h: Handlers)
    requires |received| > 0 && received[0] != []
    ensures var cut := SplitLines(buffer + received[0]);
      Serve(buffer, received, parse, h) ==
        Then(HandleLines(cut.0, parse, h), Serve(cut.1, received[1..], parse, h))
  {
  }

  /** Handling the complete lines of a buffer, then those of its tail
      continued by more bytes, is handling the lines of the continued buffer. */
  lemma HandleContinued(a: seq<byte>, b: seq<byte>, whole: seq<byte>, parse: seq<byte> -> Parsed, h: Handlers)
    requires whole == a + b
    ensures var cut := SplitLines(a);
      Then(HandleLines(cut.0, parse, h), HandleLines(SplitLines(cut.1 + b).0, parse, h)) ==
        HandleLines(SplitLines(whole).0, parse, h)
  {
    var cut := SplitLines(a);
    var cutRest := SplitLines(cut.1 + b);
    HandleLinesAppend(cut.0, cutRest.0, parse, h);
    SplitLinesAppend(a, b);
  }

  /** Bytes received after the last newline are never handled. */
  lemma TrailingBytesDiscarded(data: seq<byte>, partial: seq<byte>, parse: seq<byte> -> Parsed, h: Handlers)
    requires data != [] && partial != [] && NoNewline(partial)
    ensures Serve([], [data, partial], parse, h) == Serve([], [data], parse, h)
  {
    var none: seq<byte> := [];
    var both := [data, partial];
    var one := [data];
    ServeIgnoresChunking(none, both, parse, h);
    ServeIgnoresChunking(none, one, parse, h);
    FlattenPair(data, partial);
    PartialLineIgnored(data, partial);
  }

  /** Concatenation bookkeeping for TrailingBytesDiscarded, kept apart so
      that its proof stays small. */
  lemma FlattenPair(a: seq<byte>, b: seq<byte>)
    ensures [] + Flatten([a, b]) == a + b
    ensures [] + Flatten([a]) == a
  {
    var e: seq<seq<byte>> := [];
    assert [a, b][1..] == [b];
    assert [b][1..] == e && [a][1..] == e;
    assert Flatten(e) == [];
    assert Flatten([b]) == b + Flatten(e);
    assert Flatten([a]) == a + Flatten(e);
    assert Flatten([a, b]) == a + Flatten([b]);
  }
}
