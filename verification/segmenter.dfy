/**
 * The text segmenter (split_text_into_chunks): whitespace normalisation,
 * sentence splitting, greedy packing into chunks of bounded length and the
 * clause-level fallback for sentences that are too long on their own.
 */
module Segmenter {
  import opened Common

  /** Default bound on a chunk's length. */
  const MaxChunkChars: int := 250

  /** Punctuation that ends a sentence when followed by whitespace. */
  const SentenceEnds: set<char> := {'.', '!', '?'}

  /** Punctuation that ends a clause when followed by whitespace. */
  const ClauseEnds: set<char> := {',', ';', ':', '-'}

  // ---------------------------------------------------------------------------
  // Whitespace
  // ---------------------------------------------------------------------------

  /** The characters Python's `str.isspace` accepts; `str.split()`,
      `str.strip()` and the regex class `\s` all use this set. */
  predicate IsSpace(c: char) {
    var n := c as int;
    (0x09 <= n <= 0x0D) || (0x1C <= n <= 0x20) || n == 0x85 || n == 0xA0
    || n == 0x1680 || (0x2000 <= n <= 0x200A) || n == 0x2028 || n == 0x2029
    || n == 0x202F || n == 0x205F || n == 0x3000
  }

  /** A maximal run of non-whitespace characters. */
  predicate IsWord(w: string) {
    |w| > 0 && forall i :: 0 <= i < |w| ==> !IsSpace(w[i])
  }

  /** No whitespace at either end. */
  predicate Trimmed(s: string) {
    |s| == 0 || (!IsSpace(s[0]) && !IsSpace(s[|s| - 1]))
  }

  /** Whitespace-normalised text: the only whitespace is single spaces
      strictly between two non-whitespace characters. */
  predicate Normal(t: string) {
    forall i :: 0 <= i < |t| && IsSpace(t[i]) ==> t[i] == ' ' && 0 < i < |t| - 1 && !IsSpace(t[i + 1])
  }

  lemma NormalIsTrimmed(t: string)
    requires Normal(t)
    ensures Trimmed(t)
  {
    if |t| > 0 {
      assert !IsSpace(t[0]);
      assert !IsSpace(t[|t| - 1]);
    }
  }

  // ---------------------------------------------------------------------------
  // Joining with single spaces
  // ---------------------------------------------------------------------------

  /** `' '.join(xs)`. */
  function Join(xs: seq<string>): string
    decreases |xs|
  {
    if |xs| == 0 then "" else if |xs| == 1 then xs[0] else xs[0] + " " + Join(xs[1..])
  }

  /** Joining two already-joined texts, skipping an empty side. */
  function Glue(a: string, b: string): string {
    if a == "" then b else if b == "" then a else a + " " + b
  }

  predicate AllNonEmpty(xs: seq<string>) {
    forall i :: 0 <= i < |xs| ==> xs[i] != ""
  }

  lemma JoinEmptyIff(xs: seq<string>)
    requires AllNonEmpty(xs)
    ensures Join(xs) == "" <==> xs == []
  {
    if |xs| > 1 {
      assert |Join(xs)| >= |xs[0]| > 0;
    } else if |xs| == 1 {
      assert xs[0] != "";
    }
  }

  lemma GlueAssoc(a: string, b: string, c: string)
    ensures Glue(Glue(a, b), c) == Glue(a, Glue(b, c))
  {
    if a != "" && b != "" && c != "" {
      assert (a + " " + b) + " " + c == a + " " + (b + " " + c);
    }
  }

  lemma {:induction false} JoinAppend(xs: seq<string>, ys: seq<string>)
    requires AllNonEmpty(xs) && AllNonEmpty(ys)
    ensures Join(xs + ys) == Glue(Join(xs), Join(ys))
    decreases |xs|
  {
    JoinEmptyIff(ys);
    if |xs| == 0 {
      assert xs + ys == ys;
    } else if |xs| == 1 {
      if |ys| == 0 {
        assert xs + ys == xs;
      } else {
        assert (xs + ys)[1..] == ys;
      }
    } else {
      assert (xs + ys)[1..] == xs[1..] + ys;
      JoinAppend(xs[1..], ys);
      JoinEmptyIff(xs[1..]);
      GlueAssoc(xs[0], Join(xs[1..]), Join(ys));
    }
  }

  lemma JoinSnoc(xs: seq<string>, a: string)
    requires AllNonEmpty(xs) && a != ""
    ensures Join(xs + [a]) == Glue(Join(xs), a)
  {
    JoinAppend(xs, [a]);
  }

  // ---------------------------------------------------------------------------
  // Normalisation: ' '.join(text.split())
  // ---------------------------------------------------------------------------

  /** The end of the run of non-whitespace starting at i. */
  function WordEnd(s: string, i: nat): (k: nat)
    requires i <= |s|
    ensures i <= k <= |s|
    ensures forall j :: i <= j < k ==> !IsSpace(s[j])
    ensures k < |s| ==> IsSpace(s[k])
    decreases |s| - i
  {
    if i == |s| || IsSpace(s[i]) then i else WordEnd(s, i + 1)
  }

  /** `text.split()`: the maximal non-whitespace runs, in order. */
  function Words(s: string): (ws: seq<string>)
    ensures forall i :: 0 <= i < |ws| ==> IsWord(ws[i])
    decreases |s|
  {
    if |s| == 0 then []
    else if IsSpace(s[0]) then Words(s[1..])
    else
      var k := WordEnd(s, 0);
      [s[..k]] + Words(s[k..])
  }

  lemma {:induction false} WordEndOf(s: string, i: nat, k: nat)
    requires i <= k <= |s|
    requires forall j :: i <= j < k ==> !IsSpace(s[j])
    requires k == |s| || IsSpace(s[k])
    ensures WordEnd(s, i) == k
    decreases k - i
  {
    if i < k {
      WordEndOf(s, i + 1, k);
    }
  }

  /** A word followed by nothing or by whitespace is split off whole. */
  lemma WordsCons(w: string, tail: string)
    requires IsWord(w)
    requires tail == "" || IsSpace(tail[0])
    ensures Words(w + tail) == [w] + Words(tail)
  {
    var s := w + tail;
    WordEndOf(s, 0, |w|);
    assert s[..|w|] == w;
    assert s[|w|..] == tail;
  }

  lemma {:induction false} JoinWordsNormal(ws: seq<string>)
    requires forall i :: 0 <= i < |ws| ==> IsWord(ws[i])
    ensures Normal(Join(ws))
    ensures ws != [] ==> Join(ws) != "" && !IsSpace(Join(ws)[0])
    decreases |ws|
  {
    if |ws| == 1 {
      var w := ws[0];
      assert Join(ws) == w;
    } else if |ws| > 1 {
      var w := ws[0];
      var r := Join(ws[1..]);
      JoinWordsNormal(ws[1..]);
      var t := w + " " + r;
      assert Join(ws) == t;
      forall i | 0 <= i < |t| && IsSpace(t[i])
        ensures t[i] == ' ' && 0 < i < |t| - 1 && !IsSpace(t[i + 1])
      {
        assert i >= |w|;
        if i == |w| {
          assert t[i + 1] == r[0];
        } else {
          assert t[i] == r[i - |w| - 1];
          assert t[i + 1] == r[i - |w|];
        }
      }
      assert t[0] == w[0];
    }
  }

  lemma {:induction false} WordsOfJoin(ws: seq<string>)
    requires forall i :: 0 <= i < |ws| ==> IsWord(ws[i])
    ensures Words(Join(ws)) == ws
    decreases |ws|
  {
    if |ws| == 1 {
      WordsCons(ws[0], "");
      assert ws[0] + "" == ws[0];
    } else if |ws| > 1 {
      var r := Join(ws[1..]);
      WordsOfJoin(ws[1..]);
      WordsCons(ws[0], " " + r);
      assert ws[0] + (" " + r) == ws[0] + " " + r;
      assert (" " + r)[1..] == r;
      assert ws == [ws[0]] + ws[1..];
    }
  }

  /** `' '.join(text.split())`: the same words, in the same order,
      separated by single spaces and nothing else. */
  function Normalize(text: string): (t: string)
    ensures Normal(t)
    ensures Words(t) == Words(text)
  {
    JoinWordsNormal(Words(text));
    WordsOfJoin(Words(text));
    Join(Words(text))
  }

  /** Normalising twice changes nothing. */
  lemma NormalizeIdempotent(text: string)
    ensures Normalize(Normalize(text)) == Normalize(text)
  {
  }

  // ---------------------------------------------------------------------------
  // Stripping: str.strip()
  // ---------------------------------------------------------------------------

  /** `s.strip()`: no whitespace is left at either end, and a string that
      has none there already is returned unchanged; StripStrips says what
      was cut. */
  function Strip(s: string): (r: string)
    ensures Trimmed(r)
    ensures Trimmed(s) ==> r == s
  {
    StripBy(s, IsSpace)
  }

  /** Strip cuts the whitespace from both ends of s and nothing else, and
      leaves nothing exactly when s is all whitespace. */
  lemma StripStrips(s: string)
    ensures IsStripped(s, Strip(s), IsSpace)
    ensures Strip(s) == "" <==> All(s, IsSpace)
  {
    StripByStrips(s, IsSpace);
  }

  /** Strip is the only way to strip: any stretch of s with only whitespace
      around it and none at its ends is Strip(s). */
  lemma StripUnique(s: string, stripped: string)
    requires IsStripped(s, stripped, IsSpace)
    ensures Strip(s) == stripped
  {
    StripByUnique(s, stripped, IsSpace);
  }

  // ---------------------------------------------------------------------------
  // Splitting after punctuation: re.split(r'(?<=[P])\s+', t) on normal text
  // ---------------------------------------------------------------------------

  /** Index i is a split point: a space right after a mark of p. On
      whitespace-normalised text this is exactly where the regex matches. */
  predicate BoundaryAt(t: string, p: set<char>, i: int) {
    0 < i < |t| && t[i] == ' ' && t[i - 1] in p
  }

  predicate NoBoundary(t: string, p: set<char>) {
    forall i :: 0 < i < |t| ==> !BoundaryAt(t, p, i)
  }

  /** A clause that neither sentence nor clause splitting can cut. */
  predicate Unsplittable(c: string) {
    NoBoundary(c, SentenceEnds) && NoBoundary(c, ClauseEnds)
  }

  /** The first split point at or after i, or |t| if none. */
  function NextBoundary(t: string, p: set<char>, i: nat): (k: nat)
    requires 1 <= i <= |t|
    ensures i <= k <= |t|
    ensures k < |t| ==> BoundaryAt(t, p, k)
    ensures forall j :: i <= j < k ==> !BoundaryAt(t, p, j)
    decreases |t| - i
  {
    if i == |t| || BoundaryAt(t, p, i) then i else NextBoundary(t, p, i + 1)
  }

  /** Cut t at every split point, dropping the space there. Joining the
      pieces gives t back; no piece contains a split point; every piece but
      the last ends with a mark of p. */
  function SplitAfter(t: string, p: set<char>): (pieces: seq<string>)
    ensures |pieces| >= 1
    ensures Join(pieces) == t
    ensures forall k :: 0 <= k < |pieces| ==> NoBoundary(pieces[k], p)
    ensures forall k :: 0 <= k < |pieces| - 1 ==> |pieces[k]| > 0 && pieces[k][|pieces[k]| - 1] in p
    decreases |t|
  {
    if |t| == 0 then [t]
    else
      var k := NextBoundary(t, p, 1);
      if k == |t| then
        assert forall j :: 0 < j < |t| ==> !BoundaryAt(t, p, j);
        [t]
      else
        var head := t[..k];
        var rest := SplitAfter(t[k + 1..], p);
        assert forall j :: 0 < j < |head| ==> BoundaryAt(head, p, j) == BoundaryAt(t, p, j);
        assert t == head + " " + t[k + 1..];
        assert ([head] + rest)[1..] == rest;
        [head] + rest
  }

  /** Cutting normal text at a space leaves normal text on the left... */
  lemma NormalBeforeSpace(t: string, k: nat)
    requires Normal(t) && k < |t| && IsSpace(t[k])
    ensures Normal(t[..k])
  {
    var head := t[..k];
    forall i | 0 <= i < |head| && IsSpace(head[i])
      ensures head[i] == ' ' && 0 < i < |head| - 1 && !IsSpace(head[i + 1])
    {
      assert head[i] == t[i];
      assert i != k - 1;
      assert head[i + 1] == t[i + 1];
    }
  }

  /** ... and on the right. */
  lemma NormalAfterSpace(t: string, k: nat)
    requires Normal(t) && k < |t| && IsSpace(t[k])
    ensures Normal(t[k + 1..]) && t[k + 1..] != ""
  {
    var tail := t[k + 1..];
    forall i | 0 <= i < |tail| && IsSpace(tail[i])
      ensures tail[i] == ' ' && 0 < i < |tail| - 1 && !IsSpace(tail[i + 1])
    {
      assert tail[i] == t[k + 1 + i];
      assert tail[i + 1] == t[k + 2 + i];
    }
  }

  /** Pieces of non-empty normal text are non-empty and normal. */
  lemma {:induction false} SplitNormalPieces(t: string, p: set<char>)
    requires Normal(t) && t != ""
    ensures forall k :: 0 <= k < |SplitAfter(t, p)| ==>
      SplitAfter(t, p)[k] != "" && Normal(SplitAfter(t, p)[k])
    decreases |t|
  {
    var k := NextBoundary(t, p, 1);
    if k < |t| {
      NormalBeforeSpace(t, k);
      NormalAfterSpace(t, k);
      SplitNormalPieces(t[k + 1..], p);
      assert SplitAfter(t, p) == [t[..k]] + SplitAfter(t[k + 1..], p);
    }
  }

  /** Splitting never creates a split point of another kind. */
  lemma {:induction false} SplitKeepsNoBoundary(t: string, p: set<char>, q: set<char>)
    requires NoBoundary(t, q)
    ensures forall k :: 0 <= k < |SplitAfter(t, p)| ==> NoBoundary(SplitAfter(t, p)[k], q)
    decreases |t|
  {
    if |t| > 0 {
      var k := NextBoundary(t, p, 1);
      if k < |t| {
        var head := t[..k];
        var tail := t[k + 1..];
        assert forall j :: 0 < j < |head| ==> BoundaryAt(head, q, j) == BoundaryAt(t, q, j);
        assert forall j :: 0 < j < |tail| ==> BoundaryAt(tail, q, j) == BoundaryAt(t, q, k + 1 + j);
        SplitKeepsNoBoundary(tail, p, q);
        assert SplitAfter(t, p) == [head] + SplitAfter(tail, p);
      }
    }
  }

  // ---------------------------------------------------------------------------
  // Greedy packing
  // ---------------------------------------------------------------------------

  /** The loop state: chunks emitted so far and the chunk being built. */
  datatype Packer = Packer(chunks: seq<string>, current: string)

  /** Emit the chunk being built, stripped, unless nothing is being built. */
  function Flushed(st: Packer): seq<string> {
    if st.current != "" then st.chunks + [Strip(st.current)] else st.chunks
  }

  /** Append a piece to the chunk being built, with one space between. */
  function Extend(st: Packer, piece: string): Packer {
    Packer(st.chunks, if st.current != "" then Strip(st.current + " " + piece) else piece)
  }

  /** One clause of an over-long sentence. */
  function AddClause(st: Packer, clause: string, maxChars: int): Packer {
    var c := Strip(clause);
    if c == "" then st
    else if |st.current| + |c| + 1 > maxChars then Packer(Flushed(st), c)
    else Extend(st, c)
  }

  function AddClauses(st: Packer, clauses: seq<string>, maxChars: int): Packer
    decreases |clauses|
  {
    if |clauses| == 0 then st
    else AddClauses(AddClause(st, clauses[0], maxChars), clauses[1..], maxChars)
  }

  /** One sentence: extend the current chunk if it fits; otherwise emit it
      and start afresh, falling back to clauses for an over-long sentence. */
  function AddSentence(st: Packer, sentence: string, maxChars: int): Packer {
    var s := Strip(sentence);
    if s == "" then st
    else if |st.current| + |s| + 1 > maxChars then
      var restart := Packer(Flushed(st), "");
      if |s| > maxChars then AddClauses(restart, SplitAfter(s, ClauseEnds), maxChars)
      else Packer(restart.chunks, s)
    else Extend(st, s)
  }

  function AddSentences(st: Packer, sentences: seq<string>, maxChars: int): Packer
    decreases |sentences|
  {
    if |sentences| == 0 then st
    else AddSentences(AddSentence(st, sentences[0], maxChars), sentences[1..], maxChars)
  }

  /** A chunk respects the bound unless it is a single clause that cannot be cut. */
  predicate Fits(c: string, maxChars: int) {
    |c| <= maxChars || Unsplittable(c)
  }

  /** Everything the packer has seen so far, emitted or pending. */
  function Pending(st: Packer): seq<string> {
    if st.current != "" then st.chunks + [st.current] else st.chunks
  }

  function Content(st: Packer): string {
    Join(Pending(st))
  }

  /** What every emitted chunk satisfies. */
  predicate GoodChunk(c: string, maxChars: int) {
    c != "" && Trimmed(c) && Fits(c, maxChars)
  }

  /** The loop invariant of the packing loops. */
  predicate Good(st: Packer, maxChars: int) {
    && (forall i :: 0 <= i < |st.chunks| ==> GoodChunk(st.chunks[i], maxChars))
    && Trimmed(st.current)
    && Fits(st.current, maxChars)
  }

  lemma GoodPending(st: Packer, maxChars: int)
    requires Good(st, maxChars)
    ensures Flushed(st) == Pending(st)
    ensures forall i :: 0 <= i < |Pending(st)| ==> GoodChunk(Pending(st)[i], maxChars)
  {
    if st.current != "" {
      assert Strip(st.current) == st.current;
      var p := st.chunks + [st.current];
      forall i | 0 <= i < |p|
        ensures GoodChunk(p[i], maxChars)
      {
        if i == |st.chunks| {
          assert p[i] == st.current;
        } else {
          assert p[i] == st.chunks[i];
        }
      }
    }
  }

  lemma GoodChunksNonEmpty(xs: seq<string>, maxChars: int)
    requires forall i :: 0 <= i < |xs| ==> GoodChunk(xs[i], maxChars)
    ensures AllNonEmpty(xs)
  {
    forall i | 0 <= i < |xs|
      ensures xs[i] != ""
    {
      assert GoodChunk(xs[i], maxChars);
    }
  }

  /** Emitting the pending chunk leaves the content unchanged. */
  lemma FlushSound(st: Packer, maxChars: int)
    requires Good(st, maxChars)
    ensures Good(Packer(Flushed(st), ""), maxChars)
    ensures Content(Packer(Flushed(st), "")) == Content(st)
  {
    GoodPending(st, maxChars);
    assert Pending(Packer(Flushed(st), "")) == Flushed(st);
  }

  /** Extending the current chunk when the piece fits. */
  lemma ExtendSound(st: Packer, piece: string, maxChars: int)
    requires Good(st, maxChars)
    requires piece != "" && Trimmed(piece)
    requires |st.current| + |piece| + 1 <= maxChars
    ensures Good(Extend(st, piece), maxChars)
    ensures Content(Extend(st, piece)) == Glue(Content(st), piece)
  {
    GoodChunksNonEmpty(st.chunks, maxChars);
    if st.current != "" {
      var joined := st.current + " " + piece;
      assert joined[0] == st.current[0];
      assert joined[|joined| - 1] == piece[|piece| - 1];
      assert Trimmed(joined);
      assert Extend(st, piece) == Packer(st.chunks, joined);
      assert Pending(Extend(st, piece)) == st.chunks + [joined];
      assert Pending(st) == st.chunks + [st.current];
      JoinSnoc(st.chunks, joined);
      JoinSnoc(st.chunks, st.current);
      GlueAssoc(Join(st.chunks), st.current, piece);
    } else {
      assert Extend(st, piece) == Packer(st.chunks, piece);
      assert Pending(Extend(st, piece)) == st.chunks + [piece];
      assert Pending(st) == st.chunks;
      JoinSnoc(st.chunks, piece);
    }
  }

  /** Starting a new chunk with the piece. */
  lemma RestartSound(st: Packer, piece: string, maxChars: int)
    requires Good(st, maxChars)
    requires piece != "" && Trimmed(piece) && Fits(piece, maxChars)
    ensures Good(Packer(Flushed(st), piece), maxChars)
    ensures Content(Packer(Flushed(st), piece)) == Glue(Content(st), piece)
  {
    GoodPending(st, maxChars);
    var chunks := Pending(st);
    GoodChunksNonEmpty(chunks, maxChars);
    assert Pending(Packer(chunks, piece)) == chunks + [piece];
    JoinSnoc(chunks, piece);
  }

  lemma AddClauseSound(st: Packer, clause: string, maxChars: int)
    requires Good(st, maxChars)
    requires clause != "" && Normal(clause) && Unsplittable(clause)
    ensures Good(AddClause(st, clause, maxChars), maxChars)
    ensures Content(AddClause(st, clause, maxChars)) == Glue(Content(st), clause)
  {
    NormalIsTrimmed(clause);
    assert Strip(clause) == clause;
    if |st.current| + |clause| + 1 > maxChars {
      assert AddClause(st, clause, maxChars) == Packer(Flushed(st), clause);
      RestartSound(st, clause, maxChars);
    } else {
      assert AddClause(st, clause, maxChars) == Extend(st, clause);
      ExtendSound(st, clause, maxChars);
    }
  }

  predicate CleanPieces(xs: seq<string>) {
    forall i :: 0 <= i < |xs| ==> xs[i] != "" && Normal(xs[i])
  }

  lemma {:induction false} AddClausesSound(st: Packer, clauses: seq<string>, maxChars: int)
    requires Good(st, maxChars)
    requires CleanPieces(clauses)
    requires forall i :: 0 <= i < |clauses| ==> Unsplittable(clauses[i])
    ensures Good(AddClauses(st, clauses, maxChars), maxChars)
    ensures Content(AddClauses(st, clauses, maxChars)) == Glue(Content(st), Join(clauses))
    decreases |clauses|
  {
    if |clauses| > 0 {
      var c := clauses[0];
      var st1 := AddClause(st, c, maxChars);
      AddClauseSound(st, c, maxChars);
      AddClausesSound(st1, clauses[1..], maxChars);
      GlueAssoc(Content(st), c, Join(clauses[1..]));
      JoinEmptyIff(clauses[1..]);
    }
  }

  lemma AddSentenceSound(st: Packer, sentence: string, maxChars: int)
    requires Good(st, maxChars)
    requires sentence != "" && Normal(sentence) && NoBoundary(sentence, SentenceEnds)
    ensures Good(AddSentence(st, sentence, maxChars), maxChars)
    ensures Content(AddSentence(st, sentence, maxChars)) == Glue(Content(st), sentence)
  {
    NormalIsTrimmed(sentence);
    var s := sentence;
    assert Strip(s) == s;
    if |st.current| + |s| + 1 > maxChars {
      var restart := Packer(Flushed(st), "");
      FlushSound(st, maxChars);
      if |s| > maxChars {
        var clauses := SplitAfter(s, ClauseEnds);
        assert AddSentence(st, s, maxChars) == AddClauses(restart, clauses, maxChars);
        SplitNormalPieces(s, ClauseEnds);
        SplitKeepsNoBoundary(s, ClauseEnds, SentenceEnds);
        AddClausesSound(restart, clauses, maxChars);
      } else {
        assert AddSentence(st, s, maxChars) == Packer(Flushed(restart), s);
        RestartSound(restart, s, maxChars);
      }
    } else {
      assert AddSentence(st, s, maxChars) == Extend(st, s);
      ExtendSound(st, s, maxChars);
    }
  }

  lemma {:induction false} AddSentencesSound(st: Packer, sentences: seq<string>, maxChars: int)
    requires Good(st, maxChars)
    requires CleanPieces(sentences)
    requires forall i :: 0 <= i < |sentences| ==> NoBoundary(sentences[i], SentenceEnds)
    ensures Good(AddSentences(st, sentences, maxChars), maxChars)
    ensures Content(AddSentences(st, sentences, maxChars)) == Glue(Content(st), Join(sentences))
    decreases |sentences|
  {
    if |sentences| > 0 {
      var s := sentences[0];
      AddSentenceSound(st, s, maxChars);
      AddSentencesSound(AddSentence(st, s, maxChars), sentences[1..], maxChars);
      GlueAssoc(Content(st), s, Join(sentences[1..]));
      JoinEmptyIff(sentences[1..]);
    }
  }

  /** The packing loop over the sentences of non-empty normal text keeps
      every chunk non-empty, trimmed and within bound (or unsplittable),
      and loses or reorders nothing; PackCutsAtMarks says where it cuts. */
  lemma PackSound(t: string, maxChars: int)
    requires Normal(t)
    ensures var chunks := Flushed(AddSentences(Packer([], ""), SplitAfter(t, SentenceEnds), maxChars));
      && Join(chunks) == t
      && (forall i :: 0 <= i < |chunks| ==>
            chunks[i] != "" && Trimmed(chunks[i]) && Fits(chunks[i], maxChars))
  {
    var sentences := SplitAfter(t, SentenceEnds);
    var st := AddSentences(Packer([], ""), sentences, maxChars);
    if t == "" {
      assert sentences == [""];
      assert AddSentence(Packer([], ""), "", maxChars) == Packer([], "");
      assert st == Packer([], "");
    } else {
      SplitNormalPieces(t, SentenceEnds);
      AddSentencesSound(Packer([], ""), sentences, maxChars);
      GoodPending(st, maxChars);
    }
  }

  // ---------------------------------------------------------------------------
  // Where chunks are cut
  // ---------------------------------------------------------------------------

  /** A chunk that ends with a sentence or clause mark. */
  predicate EndsAtMark(c: string) {
    c != "" && c[|c| - 1] in SentenceEnds + ClauseEnds
  }

  predicate AllEndAtMarks(xs: seq<string>) {
    forall i :: 0 <= i < |xs| ==> EndsAtMark(xs[i])
  }

  /** Every emitted chunk, and the chunk being built, ends at a mark. */
  predicate CutAtMarks(st: Packer) {
    AllEndAtMarks(st.chunks) && (st.current == "" || EndsAtMark(st.current))
  }

  /** The joined pieces end as the last piece does. */
  lemma JoinLast(xs: seq<string>)
    requires AllNonEmpty(xs) && |xs| > 0
    ensures Join(xs) != "" && Join(xs)[|Join(xs)| - 1] == xs[|xs| - 1][|xs[|xs| - 1]| - 1]
  {
    var init := xs[..|xs| - 1];
    var last := xs[|xs| - 1];
    assert xs == init + [last];
    JoinSnoc(init, last);
  }

  /** Emitting a chunk that ends at a mark keeps every chunk ending at one. */
  lemma FlushAtMark(st: Packer, maxChars: int)
    requires Good(st, maxChars) && CutAtMarks(st)
    ensures AllEndAtMarks(Flushed(st))
  {
    GoodPending(st, maxChars);
  }

  /** Extending the chunk being built leaves it ending as the piece does. */
  lemma ExtendEndsWithPiece(st: Packer, piece: string)
    requires Trimmed(st.current) && piece != "" && Trimmed(piece)
    ensures Extend(st, piece).chunks == st.chunks
    ensures Extend(st, piece).current != ""
    ensures Extend(st, piece).current[|Extend(st, piece).current| - 1] == piece[|piece| - 1]
  {
    if st.current != "" {
      var joined := st.current + " " + piece;
      assert joined[0] == st.current[0];
      assert joined[|joined| - 1] == piece[|piece| - 1];
      assert Strip(joined) == joined;
    }
  }

  /** After one clause, the chunk being built ends as the clause does. */
  lemma AddClauseCuts(st: Packer, clause: string, maxChars: int)
    requires Good(st, maxChars) && CutAtMarks(st)
    requires clause != "" && Normal(clause)
    ensures AllEndAtMarks(AddClause(st, clause, maxChars).chunks)
    ensures var cur := AddClause(st, clause, maxChars).current;
      cur != "" && cur[|cur| - 1] == clause[|clause| - 1]
  {
    NormalIsTrimmed(clause);
    assert Strip(clause) == clause;
    if |st.current| + |clause| + 1 > maxChars {
      FlushAtMark(st, maxChars);
    } else {
      ExtendEndsWithPiece(st, clause);
    }
  }

  /** After the clauses, every chunk emitted ends at a mark and the chunk
      being built ends as the last clause does. */
  lemma {:induction false} AddClausesCuts(st: Packer, clauses: seq<string>, maxChars: int)
    requires Good(st, maxChars) && CutAtMarks(st)
    requires CleanPieces(clauses) && |clauses| > 0
    requires forall i :: 0 <= i < |clauses| ==> Unsplittable(clauses[i])
    requires forall i :: 0 <= i < |clauses| - 1 ==> clauses[i][|clauses[i]| - 1] in ClauseEnds
    ensures AllEndAtMarks(AddClauses(st, clauses, maxChars).chunks)
    ensures var cur := AddClauses(st, clauses, maxChars).current;
      var last := clauses[|clauses| - 1];
      cur != "" && cur[|cur| - 1] == last[|last| - 1]
    decreases |clauses|
  {
    if |clauses| > 1 {
      var c := clauses[0];
      var st1 := AddClause(st, c, maxChars);
      ClauseStep(st, c, maxChars);
      ClausesTail(clauses);
      AddClausesCuts(st1, clauses[1..], maxChars);
      assert AddClauses(st, clauses, maxChars) == AddClauses(st1, clauses[1..], maxChars);
      assert clauses[1..][|clauses| - 2] == clauses[|clauses| - 1];
    } else {
      LastClauseCuts(st, clauses[0], maxChars);
      assert clauses == [clauses[0]];
    }
  }

  /** A lone clause: the chunk being built ends as the clause does. */
  lemma LastClauseCuts(st: Packer, clause: string, maxChars: int)
    requires Good(st, maxChars) && CutAtMarks(st)
    requires clause != "" && Normal(clause)
    ensures AllEndAtMarks(AddClauses(st, [clause], maxChars).chunks)
    ensures var cur := AddClauses(st, [clause], maxChars).current;
      cur != "" && cur[|cur| - 1] == clause[|clause| - 1]
  {
    var st1 := AddClause(st, clause, maxChars);
    AddClauseCuts(st, clause, maxChars);
    assert [clause][1..] == [];
    assert AddClauses(st, [clause], maxChars) == AddClauses(st1, [], maxChars) == st1;
  }

  /** A clause that ends with a clause mark keeps the packer sound and cut at marks. */
  lemma ClauseStep(st: Packer, clause: string, maxChars: int)
    requires Good(st, maxChars) && CutAtMarks(st)
    requires clause != "" && Normal(clause) && Unsplittable(clause)
    requires clause[|clause| - 1] in ClauseEnds
    ensures Good(AddClause(st, clause, maxChars), maxChars)
    ensures CutAtMarks(AddClause(st, clause, maxChars))
  {
    AddClauseSound(st, clause, maxChars);
    AddClauseCuts(st, clause, maxChars);
  }

  /** The tail of clean clauses ending at clause marks is such clauses again. */
  lemma ClausesTail(clauses: seq<string>)
    requires CleanPieces(clauses) && |clauses| > 1
    requires forall i :: 0 <= i < |clauses| ==> Unsplittable(clauses[i])
    requires forall i :: 0 <= i < |clauses| - 1 ==> clauses[i][|clauses[i]| - 1] in ClauseEnds
    ensures var rest := clauses[1..];
      && CleanPieces(rest) && |rest| > 0
      && (forall i :: 0 <= i < |rest| ==> Unsplittable(rest[i]))
      && (forall i :: 0 <= i < |rest| - 1 ==> rest[i][|rest[i]| - 1] in ClauseEnds)
  {
    var rest := clauses[1..];
    forall i | 0 <= i < |rest|
      ensures rest[i] == clauses[i + 1]
    {
    }
  }

  /** After one sentence, every chunk emitted ends at a mark and the chunk
      being built ends as the sentence does. */
  lemma AddSentenceCuts(st: Packer, sentence: string, maxChars: int)
    requires Good(st, maxChars) && CutAtMarks(st)
    requires sentence != "" && Normal(sentence) && NoBoundary(sentence, SentenceEnds)
    ensures AllEndAtMarks(AddSentence(st, sentence, maxChars).chunks)
    ensures var cur := AddSentence(st, sentence, maxChars).current;
      cur != "" && cur[|cur| - 1] == sentence[|sentence| - 1]
  {
    NormalIsTrimmed(sentence);
    var s := sentence;
    assert Strip(s) == s;
    var r := AddSentence(st, s, maxChars);
    if |st.current| + |s| + 1 > maxChars {
      var restart := Packer(Flushed(st), "");
      FlushAtMark(st, maxChars);
      if |s| > maxChars {
        assert r == AddClauses(restart, SplitAfter(s, ClauseEnds), maxChars);
        FlushSound(st, maxChars);
        OverlongSentenceCuts(restart, s, maxChars);
      } else {
        assert r == Packer(Flushed(st), s);
      }
    } else {
      assert r == Extend(st, s);
      ExtendEndsWithPiece(st, s);
    }
  }

  /** An over-long sentence packed clause by clause from a fresh chunk. */
  lemma OverlongSentenceCuts(restart: Packer, s: string, maxChars: int)
    requires Good(restart, maxChars) && CutAtMarks(restart)
    requires s != "" && Normal(s) && NoBoundary(s, SentenceEnds)
    ensures var r := AddClauses(restart, SplitAfter(s, ClauseEnds), maxChars);
      && AllEndAtMarks(r.chunks)
      && r.current != "" && r.current[|r.current| - 1] == s[|s| - 1]
  {
    var clauses := SplitAfter(s, ClauseEnds);
    SplitNormalPieces(s, ClauseEnds);
    SplitKeepsNoBoundary(s, ClauseEnds, SentenceEnds);
    AddClausesCuts(restart, clauses, maxChars);
    JoinLast(clauses);
  }

  /** Over sentences each but the last of which ends with a sentence mark,
      every chunk emitted ends at a mark. */
  lemma {:induction false} AddSentencesCuts(st: Packer, sentences: seq<string>, maxChars: int)
    requires Good(st, maxChars) && CutAtMarks(st)
    requires CleanPieces(sentences)
    requires forall i :: 0 <= i < |sentences| ==> NoBoundary(sentences[i], SentenceEnds)
    requires forall i :: 0 <= i < |sentences| - 1 ==> sentences[i][|sentences[i]| - 1] in SentenceEnds
    ensures AllEndAtMarks(AddSentences(st, sentences, maxChars).chunks)
    decreases |sentences|
  {
    if |sentences| > 1 {
      var s := sentences[0];
      var st1 := AddSentence(st, s, maxChars);
      SentenceStep(st, s, maxChars);
      SentencesTail(sentences);
      AddSentencesCuts(st1, sentences[1..], maxChars);
      assert AddSentences(st, sentences, maxChars) == AddSentences(st1, sentences[1..], maxChars);
    } else if |sentences| == 1 {
      LastSentenceCuts(st, sentences[0], maxChars);
      assert sentences == [sentences[0]];
    }
  }

  /** A sentence that ends with a sentence mark keeps the packer sound and cut at marks. */
  lemma SentenceStep(st: Packer, sentence: string, maxChars: int)
    requires Good(st, maxChars) && CutAtMarks(st)
    requires sentence != "" && Normal(sentence) && NoBoundary(sentence, SentenceEnds)
    requires sentence[|sentence| - 1] in SentenceEnds
    ensures Good(AddSentence(st, sentence, maxChars), maxChars)
    ensures CutAtMarks(AddSentence(st, sentence, maxChars))
  {
    AddSentenceSound(st, sentence, maxChars);
    AddSentenceCuts(st, sentence, maxChars);
  }

  /** A lone last sentence leaves every emitted chunk ending at a mark. */
  lemma LastSentenceCuts(st: Packer, sentence: string, maxChars: int)
    requires Good(st, maxChars) && CutAtMarks(st)
    requires sentence != "" && Normal(sentence) && NoBoundary(sentence, SentenceEnds)
    ensures AllEndAtMarks(AddSentences(st, [sentence], maxChars).chunks)
  {
    var st1 := AddSentence(st, sentence, maxChars);
    AddSentenceCuts(st, sentence, maxChars);
    assert [sentence][1..] == [];
    assert AddSentences(st, [sentence], maxChars) == AddSentences(st1, [], maxChars) == st1;
  }

  /** The tail of clean sentences ending at sentence marks is such sentences again. */
  lemma SentencesTail(sentences: seq<string>)
    requires CleanPieces(sentences) && |sentences| > 1
    requires forall i :: 0 <= i < |sentences| ==> NoBoundary(sentences[i], SentenceEnds)
    requires forall i :: 0 <= i < |sentences| - 1 ==> sentences[i][|sentences[i]| - 1] in SentenceEnds
    ensures var rest := sentences[1..];
      && CleanPieces(rest)
      && (forall i :: 0 <= i < |rest| ==> NoBoundary(rest[i], SentenceEnds))
      && (forall i :: 0 <= i < |rest| - 1 ==> rest[i][|rest[i]| - 1] in SentenceEnds)
  {
    var rest := sentences[1..];
    forall i | 0 <= i < |rest|
      ensures rest[i] == sentences[i + 1]
    {
    }
  }

  /** The packing cuts only after a sentence or clause mark: every chunk
      but the last ends with one of `.!?` or `,;:-`. */
  lemma PackCutsAtMarks(t: string, maxChars: int)
    requires Normal(t)
    ensures var chunks := Flushed(AddSentences(Packer([], ""), SplitAfter(t, SentenceEnds), maxChars));
      forall i :: 0 <= i < |chunks| - 1 ==> EndsAtMark(chunks[i])
  {
    var sentences := SplitAfter(t, SentenceEnds);
    var st := AddSentences(Packer([], ""), sentences, maxChars);
    if t == "" {
      assert sentences == [""];
      assert AddSentence(Packer([], ""), "", maxChars) == Packer([], "");
      assert st == Packer([], "");
    } else {
      SplitNormalPieces(t, SentenceEnds);
      AddSentencesCuts(Packer([], ""), sentences, maxChars);
    }
  }

  // ---------------------------------------------------------------------------
  // The segmenter
  // ---------------------------------------------------------------------------

  /** `split_text_into_chunks(text, max_chars)`. */
  function Segment(text: string, maxChars: int): (chunks: seq<string>)
    ensures |Normalize(text)| <= maxChars ==> chunks == [Normalize(text)]
    ensures Join(chunks) == Normalize(text)
    ensures |Normalize(text)| > maxChars ==>
      forall i :: 0 <= i < |chunks| ==> chunks[i] != "" && Trimmed(chunks[i])
    ensures forall i :: 0 <= i < |chunks| ==> Fits(chunks[i], maxChars)
    ensures forall i :: 0 <= i < |chunks| - 1 ==> EndsAtMark(chunks[i])
  {
    var t := Normalize(text);
    if |t| <= maxChars then [t]
    else
      PackSound(t, maxChars);
      PackCutsAtMarks(t, maxChars);
      Flushed(AddSentences(Packer([], ""), SplitAfter(t, SentenceEnds), maxChars))
  }

  /** Text with no sentence or clause boundary at all that is too long is
      emitted as one oversized chunk, never cut mid-word and never dropped. */
  lemma UnsplittableTextIsOneChunk(text: string, maxChars: int)
    requires Unsplittable(Normalize(text))
    requires Normalize(text) != ""
    ensures Segment(text, maxChars) == [Normalize(text)]
  {
    var t := Normalize(text);
    if |t| > maxChars {
      var empty := Packer([], "");
      assert NextBoundary(t, SentenceEnds, 1) == |t|;
      assert NextBoundary(t, ClauseEnds, 1) == |t|;
      assert SplitAfter(t, SentenceEnds) == [t];
      assert SplitAfter(t, ClauseEnds) == [t];
      NormalIsTrimmed(t);
      assert Strip(t) == t;
      assert AddClauses(empty, [t], maxChars) == AddClause(empty, t, maxChars) == Packer([], t);
      assert AddSentence(empty, t, maxChars) == Packer([], t);
      assert AddSentences(empty, [t], maxChars) == Packer([], t);
      assert Flushed(Packer([], t)) == [t];
    }
  }
}
