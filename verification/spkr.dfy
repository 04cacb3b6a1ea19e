/**
 * The SPKR binary framing used by the binary streaming mode. Every message
 * is a 16-byte header -- the magic "SPKR" and three little-endian unsigned
 * 32-bit fields (tag, count, rate) -- followed by a body whose length the
 * tag and count determine. Samples are opaque 32-bit words.
 */
module Spkr {
  import opened Common

  /** "SPKR" in ASCII. */
  const Magic: seq<byte> := [0x53, 0x50, 0x4B, 0x52]
  const EndMarker: int := 0xFFFF_FFFF
  const ErrorMarker: int := 0xFFFF_FFFE
  const HeaderSize: int := 16

  /** What `struct.pack` raises for a field of format `I` that does not
      fit: a value that cannot even be read as an unsigned machine long
      (negative, or 64 bits or more) gets the first message, any other
      value above the field's maximum the second. */
  const ArgumentRangeMessage: string := "argument out of range"
  const FieldRangeMessage: string := "'I' format requires 0 <= number <= 4294967295"

  function PackError(x: int): string {
    if x < 0 || x >= 0x1_0000_0000_0000_0000 then ArgumentRangeMessage else FieldRangeMessage
  }

  // ---------------------------------------------------------------------------
  // Little-endian 32-bit fields
  // ---------------------------------------------------------------------------

  /** `struct.pack('<I', x)`. */
  function LE32(x: int): (b: seq<byte>)
    requires InU32(x)
    ensures |b| == 4
  {
    var q1 := x / 256;
    var q2 := q1 / 256;
    var q3 := q2 / 256;
    [(x % 256) as byte, (q1 % 256) as byte, (q2 % 256) as byte, (q3 % 256) as byte]
  }

  /** `struct.unpack('<I', b)`. */
  function ReadLE32(b: seq<byte>): (x: int)
    requires |b| == 4
    ensures InU32(x)
  {
    b[0] as int + 256 * (b[1] as int + 256 * (b[2] as int + 256 * b[3] as int))
  }

  lemma LE32RoundTrip(x: int)
    requires InU32(x)
    ensures ReadLE32(LE32(x)) == x
  {
    var q1 := x / 256;
    var q2 := q1 / 256;
    var q3 := q2 / 256;
    assert q1 < 0x100_0000;
    assert q2 < 0x1_0000;
    assert q3 < 0x100;
    assert q2 == q2 % 256 + 256 * q3;
    assert q1 == q1 % 256 + 256 * q2;
    assert x == x % 256 + 256 * q1;
  }

  lemma ReadLE32RoundTrip(b: seq<byte>)
    requires |b| == 4
    ensures LE32(ReadLE32(b)) == b
  {
    var x := ReadLE32(b);
    var b0, b1, b2, b3 := b[0] as int, b[1] as int, b[2] as int, b[3] as int;
    var q1 := b1 + 256 * (b2 + 256 * b3);
    var q2 := b2 + 256 * b3;
    assert x == b0 + 256 * q1;
    assert x % 256 == b0 && x / 256 == q1;
    assert q1 % 256 == b1 && q1 / 256 == q2;
    assert q2 % 256 == b2 && q2 / 256 == b3;
    assert b3 % 256 == b3;
  }

  // ---------------------------------------------------------------------------
  // Sample bodies
  // ---------------------------------------------------------------------------

  /** `samples.tobytes()` for 32-bit samples on a little-endian host. */
  function EncodeWords(ws: seq<u32>): (b: seq<byte>)
    ensures |b| == 4 * |ws|
    decreases |ws|
  {
    if |ws| == 0 then [] else LE32(ws[0] as int) + EncodeWords(ws[1..])
  }

  /** `np.frombuffer(b, dtype=np.float32)` on a buffer whose size is a multiple of 4. */
  function DecodeWords(b: seq<byte>): (ws: seq<u32>)
    requires |b| % 4 == 0
    ensures |ws| == |b| / 4
    decreases |b|
  {
    if |b| == 0 then [] else [ReadLE32(b[..4]) as u32] + DecodeWords(b[4..])
  }

  lemma {:induction false} WordsRoundTrip(ws: seq<u32>)
    ensures DecodeWords(EncodeWords(ws)) == ws
    decreases |ws|
  {
    if |ws| > 0 {
      var b := EncodeWords(ws);
      assert b[..4] == LE32(ws[0] as int);
      assert b[4..] == EncodeWords(ws[1..]);
      LE32RoundTrip(ws[0] as int);
      WordsRoundTrip(ws[1..]);
    }
  }

  // ---------------------------------------------------------------------------
  // Writers
  // ---------------------------------------------------------------------------

  /** `struct.pack('<4sIII', MAGIC, tag, count, rate)`. */
  function Header(tag: int, count: int, rate: int): (h: seq<byte>)
    requires InU32(tag) && InU32(count) && InU32(rate)
    ensures |h| == HeaderSize
  {
    Magic + LE32(tag) + LE32(count) + LE32(rate)
  }

  /** The three fields of a header read back are the ones packed. */
  lemma HeaderFields(tag: int, count: int, rate: int, body: seq<byte>)
    requires InU32(tag) && InU32(count) && InU32(rate)
    ensures var s := Header(tag, count, rate) + body;
      && s[..4] == Magic
      && ReadLE32(s[4..8]) == tag
      && ReadLE32(s[8..12]) == count
      && ReadLE32(s[12..16]) == rate
      && s[HeaderSize..] == body
  {
    var s := Header(tag, count, rate) + body;
    assert s[4..8] == LE32(tag);
    assert s[8..12] == LE32(count);
    assert s[12..16] == LE32(rate);
    LE32RoundTrip(tag);
    LE32RoundTrip(count);
    LE32RoundTrip(rate);
  }

  /** `write_chunk(stream, chunk_id, samples, sample_rate)`: the bytes sent,
      or the packing error when a field does not fit 32 bits. */
  function WriteChunk(chunkId: int, samples: seq<u32>, sampleRate: int): (r: Result<seq<byte>, string>)
    ensures r.Success? <==> InU32(chunkId) && InU32(|samples|) && InU32(sampleRate)
    ensures !InU32(chunkId) ==> r == Failure(PackError(chunkId))
    ensures InU32(chunkId) && !InU32(|samples|) ==> r == Failure(PackError(|samples|))
    ensures InU32(chunkId) && InU32(|samples|) && !InU32(sampleRate) ==> r == Failure(PackError(sampleRate))
    ensures r.Success? ==>
      && |r.value| == HeaderSize + 4 * |samples|
      && r.value[..4] == Magic
      && ReadLE32(r.value[4..8]) == chunkId
      && ReadLE32(r.value[8..12]) == |samples|
      && ReadLE32(r.value[12..16]) == sampleRate
  {
    if InU32(chunkId) && InU32(|samples|) && InU32(sampleRate) then
      HeaderFields(chunkId, |samples|, sampleRate, EncodeWords(samples));
      Success(Header(chunkId, |samples|, sampleRate) + EncodeWords(samples))
    else if !InU32(chunkId) then Failure(PackError(chunkId))
    else if !InU32(|samples|) then Failure(PackError(|samples|))
    else Failure(PackError(sampleRate))
  }

  /** `write_end(stream, total_chunks)`: a header with no body. */
  function WriteEnd(totalChunks: int): (r: Result<seq<byte>, string>)
    ensures r.Success? <==> InU32(totalChunks)
    ensures r.Failure? ==> r.error == PackError(totalChunks)
    ensures r.Success? ==>
      && |r.value| == HeaderSize
      && r.value[..4] == Magic
      && ReadLE32(r.value[4..8]) == EndMarker
      && ReadLE32(r.value[8..12]) == totalChunks
      && ReadLE32(r.value[12..16]) == 0
  {
    if InU32(totalChunks) then
      HeaderFields(EndMarker, totalChunks, 0, []);
      assert Header(EndMarker, totalChunks, 0) + [] == Header(EndMarker, totalChunks, 0);
      Success(Header(EndMarker, totalChunks, 0))
    else
      Failure(PackError(totalChunks))
  }

  /** The UTF-8 encoding of one Unicode scalar value. */
  function Utf8Char(c: char): (b: seq<byte>)
    ensures 1 <= |b| <= 4
    ensures (c as int) < 0x80 <==> |b| == 1
    ensures |b| == 1 ==> b[0] as int == c as int
  {
    var n := c as int;
    if n < 0x80 then [n as byte]
    else if n < 0x800 then [(0xC0 + n / 0x40) as byte, (0x80 + n % 0x40) as byte]
    else if n < 0x1_0000 then
      [(0xE0 + n / 0x1000) as byte, (0x80 + (n / 0x40) % 0x40) as byte, (0x80 + n % 0x40) as byte]
    else
      [(0xF0 + n / 0x4_0000) as byte, (0x80 + (n / 0x1000) % 0x40) as byte,
       (0x80 + (n / 0x40) % 0x40) as byte, (0x80 + n % 0x40) as byte]
  }

  /** `message.encode('utf-8')`: at least one and at most four bytes per
      character, and ASCII text is its own encoding. */
  function Utf8(s: string): (b: seq<byte>)
    ensures |s| <= |b| <= 4 * |s|
    ensures (forall i :: 0 <= i < |s| ==> (s[i] as int) < 0x80) ==>
      |b| == |s| && forall i :: 0 <= i < |s| ==> b[i] as int == s[i] as int
    decreases |s|
  {
    if |s| == 0 then [] else Utf8Char(s[0]) + Utf8(s[1..])
  }

  /** Encoding is character by character. */
  lemma {:induction false} Utf8Append(a: string, b: string)
    ensures Utf8(a + b) == Utf8(a) + Utf8(b)
    decreases |a|
  {
    if |a| > 0 {
      assert (a + b)[0] == a[0];
      assert (a + b)[1..] == a[1..] + b;
      Utf8Append(a[1..], b);
    } else {
      assert a + b == b;
    }
  }

  predicate IsContinuation(b: byte) {
    0x80 <= b < 0xC0
  }

  /** Strict UTF-8 decoding of the first character, as `bytes.decode('utf-8')`
      does it: the character and the number of bytes it took, or None for a
      bad lead byte, a missing or wrong continuation byte, an overlong form,
      a surrogate or a value past U+10FFFF. */
  function Utf8DecodeChar(b: seq<byte>): (r: Option<(char, nat)>)
    ensures r.Some? ==> 1 <= r.value.1 <= |b|
  {
    if |b| == 0 then None
    else
      var b0 := b[0] as int;
      if b0 < 0x80 then Some((b0 as char, 1))
      else if 0xC0 <= b0 < 0xE0 && |b| >= 2 && IsContinuation(b[1]) then
        var n := (b0 - 0xC0) * 0x40 + (b[1] as int - 0x80);
        if n < 0x80 then None else Some((n as char, 2))
      else if 0xE0 <= b0 < 0xF0 && |b| >= 3 && IsContinuation(b[1]) && IsContinuation(b[2]) then
        var n := (b0 - 0xE0) * 0x1000 + (b[1] as int - 0x80) * 0x40 + (b[2] as int - 0x80);
        if n < 0x800 || (0xD800 <= n < 0xE000) then None else Some((n as char, 3))
      else if 0xF0 <= b0 < 0xF8 && |b| >= 4 && IsContinuation(b[1]) && IsContinuation(b[2]) && IsContinuation(b[3]) then
        var n := (b0 - 0xF0) * 0x4_0000 + (b[1] as int - 0x80) * 0x1000
                 + (b[2] as int - 0x80) * 0x40 + (b[3] as int - 0x80);
        if n < 0x1_0000 || n > 0x10_FFFF then None else Some((n as char, 4))
      else None
  }

  /** `bytes.decode('utf-8')`: the text, or None when the bytes are not UTF-8. */
  function Utf8Decode(b: seq<byte>): Option<string>
    decreases |b|
  {
    if |b| == 0 then Some("")
    else
      match Utf8DecodeChar(b)
      case None => None
      case Some((c, k)) =>
        match Utf8Decode(b[k..])
        case None => None
        case Some(rest) => Some([c] + rest)
  }

  /** One encoded character decodes back to itself, whatever follows it. */
  lemma Utf8CharDecodes(c: char, rest: seq<byte>)
    ensures Utf8DecodeChar(Utf8Char(c) + rest) == Some((c, |Utf8Char(c)|))
  {
    var n := c as int;
    var b := Utf8Char(c) + rest;
    if n < 0x80 {
      assert b[0] as int == n;
    } else if n < 0x800 {
      Digits2(n);
      Decode2(b, n / 0x40, n % 0x40);
    } else if n < 0x1_0000 {
      Digits3(n);
      Decode3(b, n / 0x1000, (n / 0x40) % 0x40, n % 0x40);
    } else {
      Digits4(n);
      Decode4(b, n / 0x4_0000, (n / 0x1000) % 0x40, (n / 0x40) % 0x40, n % 0x40);
    }
  }

  lemma Digits2(n: int)
    requires 0x80 <= n < 0x800
    ensures 2 <= n / 0x40 < 0x20 && (n / 0x40) * 0x40 + n % 0x40 == n
  {
  }

  lemma Digits3(n: int)
    requires 0x800 <= n < 0x1_0000
    ensures 0 <= n / 0x1000 < 0x10
    ensures (n / 0x1000) * 0x1000 + ((n / 0x40) % 0x40) * 0x40 + n % 0x40 == n
  {
    assert n / 0x40 == (n / 0x1000) * 0x40 + (n / 0x40) % 0x40;
  }

  lemma Digits4(n: int)
    requires 0x1_0000 <= n < 0x11_0000
    ensures 0 <= n / 0x4_0000 < 0x5
    ensures (n / 0x4_0000) * 0x4_0000 + ((n / 0x1000) % 0x40) * 0x1000
            + ((n / 0x40) % 0x40) * 0x40 + n % 0x40 == n
  {
    assert n / 0x1000 == (n / 0x4_0000) * 0x40 + (n / 0x1000) % 0x40;
    assert n / 0x40 == (n / 0x1000) * 0x40 + (n / 0x40) % 0x40;
  }

  lemma Decode2(b: seq<byte>, x: int, y: int)
    requires 2 <= x < 0x20 && 0 <= y < 0x40 && |b| >= 2
    requires b[0] as int == 0xC0 + x && b[1] as int == 0x80 + y
    ensures Utf8DecodeChar(b) == Some(((x * 0x40 + y) as char, 2))
  {
  }

  lemma Decode3(b: seq<byte>, x: int, y: int, z: int)
    requires 0 <= x < 0x10 && 0 <= y < 0x40 && 0 <= z < 0x40 && |b| >= 3
    requires var n := x * 0x1000 + y * 0x40 + z; 0x800 <= n && !(0xD800 <= n < 0xE000)
    requires b[0] as int == 0xE0 + x && b[1] as int == 0x80 + y && b[2] as int == 0x80 + z
    ensures Utf8DecodeChar(b) == Some(((x * 0x1000 + y * 0x40 + z) as char, 3))
  {
  }

  lemma Decode4(b: seq<byte>, w: int, x: int, y: int, z: int)
    requires 0 <= w < 0x8 && 0 <= x < 0x40 && 0 <= y < 0x40 && 0 <= z < 0x40 && |b| >= 4
    requires var n := w * 0x4_0000 + x * 0x1000 + y * 0x40 + z; 0x1_0000 <= n <= 0x10_FFFF
    requires b[0] as int == 0xF0 + w && b[1] as int == 0x80 + x
    requires b[2] as int == 0x80 + y && b[3] as int == 0x80 + z
    ensures Utf8DecodeChar(b) == Some(((w * 0x4_0000 + x * 0x1000 + y * 0x40 + z) as char, 4))
  {
  }

  /** Decoding undoes encoding: the bytes of an error frame's message give
      the text back, so no two texts share an encoding. */
  lemma {:induction false} Utf8RoundTrip(s: string)
    ensures Utf8Decode(Utf8(s)) == Some(s)
    decreases |s|
  {
    if |s| > 0 {
      var head := Utf8Char(s[0]);
      var rest := Utf8(s[1..]);
      assert Utf8(s) == head + rest;
      Utf8CharDecodes(s[0], rest);
      assert (head + rest)[|head|..] == rest;
      Utf8RoundTrip(s[1..]);
      assert s == [s[0]] + s[1..];
    }
  }

  /** `write_error(stream, message)`, the message already UTF-8 encoded. */
  function WriteError(message: seq<byte>): (r: Result<seq<byte>, string>)
    ensures r.Success? <==> InU32(|message|)
    ensures r.Failure? ==> r.error == PackError(|message|)
    ensures r.Success? ==>
      && |r.value| == HeaderSize + |message|
      && r.value[..4] == Magic
      && ReadLE32(r.value[4..8]) == ErrorMarker
      && ReadLE32(r.value[8..12]) == |message|
      && ReadLE32(r.value[12..16]) == 0
      && r.value[HeaderSize..] == message
  {
    if InU32(|message|) then
      HeaderFields(ErrorMarker, |message|, 0, message);
      Success(Header(ErrorMarker, |message|, 0) + message)
    else
      Failure(PackError(|message|))
  }

  // ---------------------------------------------------------------------------
  // Reader
  // ---------------------------------------------------------------------------

  /** The dictionaries `read_chunk` returns. */
  datatype Message =
    | Chunk(id: int, samples: seq<u32>, rate: int)
    | End(totalChunks: int)
    | Error(message: seq<byte>)

  datatype DecodeError =
    | IncompleteHeader             // IOError("Incomplete header")
    | InvalidMagic(magic: seq<byte>) // ValueError("Invalid magic: ...")
    | BadSampleBuffer              // numpy: buffer size not a multiple of 4

  /** The number of body bytes a header announces. */
  function BodyLength(tag: int, count: int): int {
    if tag == EndMarker then 0 else if tag == ErrorMarker then count else 4 * count
  }

  /** `read_chunk` on a file-like stream holding the bytes `s`: a read of n
      bytes returns fewer only at the end of the stream. The result is the
      message and the bytes left unread. */
  function ReadMessage(s: seq<byte>): (r: Result<(Message, seq<byte>), DecodeError>)
    ensures |s| < HeaderSize ==> r == Failure(IncompleteHeader)
    ensures |s| >= HeaderSize && s[..4] != Magic ==> r == Failure(InvalidMagic(s[..4]))
    ensures r.Success? ==> |r.value.1| <= |s| - HeaderSize && r.value.1 == s[|s| - |r.value.1|..]
  {
    if |s| < HeaderSize then Failure(IncompleteHeader)
    else if s[..4] != Magic then Failure(InvalidMagic(s[..4]))
    else
      var tag := ReadLE32(s[4..8]);
      var count := ReadLE32(s[8..12]);
      var rate := ReadLE32(s[12..16]);
      var body := s[HeaderSize..];
      if tag == EndMarker then
        Success((End(count), body))
      else if tag == ErrorMarker then
        var n := Min(count, |body|);
        assert body[n..] == s[|s| - |body[n..]|..];
        Success((Error(body[..n]), body[n..]))
      else
        var n := Min(4 * count, |body|);
        if n % 4 != 0 then Failure(BadSampleBuffer)
        else
          assert body[n..] == s[|s| - |body[n..]|..];
          Success((Chunk(tag, DecodeWords(body[..n]), rate), body[n..]))
  }

  /** A stream holding a header and all the body it announces is read
      exactly up to the end of that body: the rest is left untouched. */
  lemma ReadConsumesExactly(s: seq<byte>)
    requires |s| >= HeaderSize && s[..4] == Magic
    requires |s| >= HeaderSize + BodyLength(ReadLE32(s[4..8]), ReadLE32(s[8..12]))
    ensures ReadMessage(s).Success?
    ensures ReadMessage(s).value.1 == s[HeaderSize + BodyLength(ReadLE32(s[4..8]), ReadLE32(s[8..12]))..]
  {
    var tag := ReadLE32(s[4..8]);
    var count := ReadLE32(s[8..12]);
    var n := BodyLength(tag, count);
    var body := s[HeaderSize..];
    assert n <= |body|;
    assert body[n..] == s[HeaderSize + n..];
    if tag != EndMarker && tag != ErrorMarker {
      assert Min(4 * count, |body|) == 4 * count;
      assert (4 * count) % 4 == 0;
    }
  }

  lemma ChunkRoundTrip(chunkId: int, samples: seq<u32>, sampleRate: int, rest: seq<byte>)
    requires InU32(chunkId) && InU32(|samples|) && InU32(sampleRate)
    requires chunkId != EndMarker && chunkId != ErrorMarker
    ensures WriteChunk(chunkId, samples, sampleRate).Success?
    ensures ReadMessage(WriteChunk(chunkId, samples, sampleRate).value + rest)
            == Success((Chunk(chunkId, samples, sampleRate), rest))
  {
    var body := EncodeWords(samples);
    var s := Header(chunkId, |samples|, sampleRate) + body + rest;
    assert s == Header(chunkId, |samples|, sampleRate) + (body + rest);
    HeaderFields(chunkId, |samples|, sampleRate, body + rest);
    assert s[HeaderSize..][..4 * |samples|] == body;
    assert s[HeaderSize..][4 * |samples|..] == rest;
    WordsRoundTrip(samples);
  }

  lemma EndRoundTrip(totalChunks: int, rest: seq<byte>)
    requires InU32(totalChunks)
    ensures WriteEnd(totalChunks).Success?
    ensures ReadMessage(WriteEnd(totalChunks).value + rest) == Success((End(totalChunks), rest))
  {
    HeaderFields(EndMarker, totalChunks, 0, rest);
  }

  lemma ErrorRoundTrip(message: seq<byte>, rest: seq<byte>)
    requires InU32(|message|)
    ensures WriteError(message).Success?
    ensures ReadMessage(WriteError(message).value + rest) == Success((Error(message), rest))
  {
    var s := Header(ErrorMarker, |message|, 0) + message + rest;
    assert s == Header(ErrorMarker, |message|, 0) + (message + rest);
    HeaderFields(ErrorMarker, |message|, 0, message + rest);
    assert s[HeaderSize..][..|message|] == message;
    assert s[HeaderSize..][|message|..] == rest;
  }

  /** A text sent with `write_error` comes back from the frame: the reader
      returns its UTF-8 bytes, and decoding them gives the text. */
  lemma ErrorTextRoundTrip(text: string, rest: seq<byte>)
    requires InU32(|Utf8(text)|)
    ensures WriteError(Utf8(text)).Success?
    ensures var m := ReadMessage(WriteError(Utf8(text)).value + rest);
      && m.Success? && m.value.0.Error? && m.value.1 == rest
      && Utf8Decode(m.value.0.message) == Some(text)
  {
    ErrorRoundTrip(Utf8(text), rest);
    Utf8RoundTrip(text);
  }


  /** A chunk written with a reserved id reads back as an end marker: the
      writer does not refuse the two reserved values. */
  lemma ReservedChunkIdReadsAsEnd(samples: seq<u32>, sampleRate: int)
    requires InU32(|samples|) && InU32(sampleRate)
    ensures WriteChunk(EndMarker, samples, sampleRate).Success?
    ensures ReadMessage(WriteChunk(EndMarker, samples, sampleRate).value)
            == Success((End(|samples|), EncodeWords(samples)))
  {
    HeaderFields(EndMarker, |samples|, sampleRate, EncodeWords(samples));
  }

  /** Reading a stream message after message until it is exhausted. */
  function ReadAll(s: seq<byte>): (r: Result<seq<Message>, DecodeError>)
    ensures |s| > 0 && ReadMessage(s).Failure? ==> r == Failure(ReadMessage(s).error)
    decreases |s|
  {
    if |s| == 0 then Success([])
    else
      match ReadMessage(s)
      case Failure(e) => Failure(e)
      case Success((m, rest)) =>
        match ReadAll(rest)
        case Failure(e) => Failure(e)
        case Success(ms) => Success([m] + ms)
  }

  /** A stream holding exactly one message reads as that message alone. */
  lemma LoneMessage(encoded: seq<byte>, m: Message)
    requires encoded != []
    requires ReadMessage(encoded) == Success((m, []))
    ensures ReadAll(encoded) == Success([m])
  {
    var empty: seq<byte> := [];
    assert ReadAll(empty) == Success([]);
    assert [m] + [] == [m];
  }

  /** Reading a stream is reading its first message, then the rest. */
  lemma ReadFirst(s: seq<byte>, m: Message, rest: seq<byte>, ms: seq<Message>)
    requires s != []
    requires ReadMessage(s) == Success((m, rest))
    requires ReadAll(rest) == Success(ms)
    ensures ReadAll(s) == Success([m] + ms)
  {
  }
}
