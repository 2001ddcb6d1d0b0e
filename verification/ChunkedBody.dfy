/**
 * Chunked bodies as the decoder understands them. The grammar below describes exactly the byte
 * strings on which decoding completes; it is wider than section 7.1 of RFC 9112 in one place: the
 * two bytes behind the data of a chunk are not looked at.
 */
module ChunkedBody {
  import opened Common
  import opened Crlf
  import opened Numbers
  import opened HttpFrames
  import opened ResponseCodec
  import opened Fragmentation

  /** A chunk on the wire: its size line, its data, and whatever two bytes follow. */
  datatype WireChunk = WireChunk(line: Bytes, data: Bytes, terminator: Bytes)

  datatype WireBody = WireBody(chunks: seq<WireChunk>, lastLine: Bytes, trailers: seq<Bytes>)

  function EncodeChunk(c: WireChunk): Bytes {
    c.line + CRLF + (c.data + c.terminator)
  }

  function EncodeChunks(cs: seq<WireChunk>): Bytes {
    if cs == [] then [] else EncodeChunk(cs[0]) + EncodeChunks(cs[1..])
  }

  /** Lines, each closed by a line end, and the empty line behind them. */
  function EncodeLines(lines: seq<Bytes>): Bytes {
    if lines == [] then CRLF else lines[0] + CRLF + EncodeLines(lines[1..])
  }

  function EncodeBody(w: WireBody): Bytes {
    EncodeChunks(w.chunks) + (w.lastLine + CRLF + EncodeLines(w.trailers))
  }

  function ChunkData(cs: seq<WireChunk>): Bytes {
    if cs == [] then [] else cs[0].data + ChunkData(cs[1..])
  }

  /**
   * A size line, taken apart: white space, perhaps a plus sign, hexadecimal digits, white space, and then nothing
   * or a semicolon and whatever follows it.
   */
  ghost predicate SizeParts(text: Text, n: nat, before: Text, sign: Text, digits: Text, after: Text, tail: Text) {
    && text == before + (sign + digits) + after + tail
    && AllWhite(before) && AllWhite(after)
    && (sign == [] || sign == ['+' as nat])
    && digits != [] && AllDigits(digits, 16) && ValueOf(digits, 16) == n && n < USIZE_LIMIT
    && (tail != [] ==> tail[0] == ';' as nat)
  }

  ghost predicate SpellsSize(line: Bytes, n: nat) {
    DecodeUtf8(line).Some? &&
    exists before, sign, digits, after, tail :: SizeParts(DecodeUtf8(line).value, n, before, sign, digits, after, tail)
  }

  lemma DigitsAreNoSpace(digits: Text)
    requires AllDigits(digits, 16)
    ensures forall i :: 0 <= i < |digits| ==> !IsWhitespace(digits[i]) && digits[i] != ';' as nat && digits[i] != '+' as nat
  {
    forall i | 0 <= i < |digits| ensures !IsWhitespace(digits[i]) && digits[i] != ';' as nat && digits[i] != '+' as nat {
      assert IsDigit(digits[i], 16);
      DigitExactly(digits[i], DigitValue(digits[i]).value);
    }
  }

  lemma PartsAreParsed(text: Text, n: nat, before: Text, sign: Text, digits: Text, after: Text, tail: Text)
    requires SizeParts(text, n, before, sign, digits, after, tail)
    ensures ParseUsize(Trim(BeforeFirst(0x3B, text)), 16) == Some(n)
  {
    hide ParseUsize, Trim, BeforeFirst, ValueOf;
    DigitsAreNoSpace(digits);
    var core := sign + digits;
    BeforeFirstSplits(0x3B, before + core + after, tail);
    TrimExact(before, core, after);
    assert core[|core| - 1] == digits[|digits| - 1];
    assert (if core[0] == '+' as nat then core[1..] else core) == digits;
    ParseUsizeExact(core, 16, n);
  }

  lemma ParsedHasParts(text: Text, n: nat) returns (before: Text, sign: Text, digits: Text, after: Text, tail: Text)
    requires ParseUsize(Trim(BeforeFirst(0x3B, text)), 16) == Some(n)
    ensures SizeParts(text, n, before, sign, digits, after, tail)
  {
    hide ParseUsize, Trim, BeforeFirst, ValueOf;
    tail := BeforeFirstIs(0x3B, text);
    before, after := TrimSplits(BeforeFirst(0x3B, text));
    var core := Trim(BeforeFirst(0x3B, text));
    ParseUsizeExact(core, 16, n);
    sign := if core != [] && core[0] == '+' as nat then [core[0]] else [];
    digits := if core != [] && core[0] == '+' as nat then core[1..] else core;
    assert core == sign + digits;
  }

  /** Which size lines announce a size, and which one: every line is covered. */
  lemma ChunkSizeExactly(line: Bytes, n: nat)
    ensures ChunkSize(line) == Size(n) <==> SpellsSize(line, n)
    ensures ChunkSize(line) == Bad(ChunkLineNotText) <==> forall t :: AllScalars(t) ==> EncodeUtf8(t) != line
  {
    if ChunkSize(line) == Size(n) {
      var before, sign, digits, after, tail := ParsedHasParts(DecodeUtf8(line).value, n);
    }
    if SpellsSize(line, n) {
      var before, sign, digits, after, tail :| SizeParts(DecodeUtf8(line).value, n, before, sign, digits, after, tail);
      PartsAreParsed(DecodeUtf8(line).value, n, before, sign, digits, after, tail);
    }
    if DecodeUtf8(line).Some? {
      DecodeUtf8Exactly(line, DecodeUtf8(line).value);
    }
    forall t | AllScalars(t) && EncodeUtf8(t) == line ensures DecodeUtf8(line).Some? {
      DecodeUtf8Exactly(line, t);
    }
  }

  /** A size line that announces `n` bytes. */
  ghost predicate Announces(line: Bytes, n: nat) {
    NoCrlf(line) && ChunkSize(line) == Size(n)
  }

  ghost predicate WellFormedChunk(c: WireChunk) {
    c.data != [] && |c.terminator| == 2 && Announces(c.line, |c.data|)
  }

  ghost predicate WellFormedBody(w: WireBody) {
    && (forall i :: 0 <= i < |w.chunks| ==> WellFormedChunk(w.chunks[i]))
    && Announces(w.lastLine, 0)
    && (forall i :: 0 <= i < |w.trailers| ==> Line(w.trailers[i]))
  }

  // ----- everything in the grammar is read -----

  /** `bytes`, of which `payload` is content, and then everything in `t`. */
  function Emit(bytes: Bytes, payload: Bytes, t: Trace): Trace {
    Trace(t.frames, bytes + t.body, payload + t.payload, t.codec, t.rest, t.error)
  }

  lemma EmitTwice(x: Bytes, p: Bytes, y: Bytes, q: Bytes, t: Trace)
    ensures Emit(x, p, Emit(y, q, t)) == Emit(x + y, p + q, t)
  {
    assert x + (y + t.body) == x + y + t.body;
    assert p + (q + t.payload) == p + q + t.payload;
  }

  function AfterSize(c: Codec, n: nat): Codec {
    c.(body := InChunks(if n == 0 then TrailerOrEnd else Data(n)))
  }

  lemma DrainSizeLine(c: Codec, line: Bytes, n: nat, rest: Bytes)
    requires c.Valid() && c.body == InChunks(ExpectSize) && Announces(line, n)
    ensures AfterSize(c, n).Valid()
    ensures Drain(c, line + CRLF + rest) == Emit(line + CRLF, [], Drain(AfterSize(c, n), rest))
  {
    FindCrlfLine(line, rest);
    CutLine(line, rest);
    ChunkSizeFits(line);
  }

  /** The two bytes behind chunk data are consumed whatever they are. */
  lemma TerminatorUnchecked(c: Codec, terminator: Bytes, rest: Bytes)
    requires c.Valid() && c.body == InChunks(ExpectDataCrlf) && |terminator| == 2
    ensures Drain(c, terminator + rest) == Emit(terminator, [], Drain(c.(body := InChunks(ExpectSize)), rest))
  {
    assert (terminator + rest)[..2] == terminator && (terminator + rest)[2..] == rest;
  }

  lemma DrainData(c: Codec, data: Bytes, rest: Bytes, mid: Codec)
    requires c.Valid() && data != [] && c.body == InChunks(Data(|data|))
    requires mid == c.(body := InChunks(ExpectDataCrlf))
    ensures Drain(c, data + rest) == Prepend(c.body, BodyItem(data), Drain(mid, rest))
  {
    DrainContent(c, data + rest, data, mid, rest);
  }

  lemma DrainChunkData(c: Codec, data: Bytes, terminator: Bytes, rest: Bytes, mid: Codec, end: Codec)
    requires c.Valid() && data != [] && c.body == InChunks(Data(|data|)) && |terminator| == 2
    requires mid == c.(body := InChunks(ExpectDataCrlf)) && mid.Valid()
    requires end == c.(body := InChunks(ExpectSize)) && end == mid.(body := InChunks(ExpectSize)) && end.Valid()
    ensures Drain(c, data + (terminator + rest)) == Emit(data + terminator, data, Drain(end, rest))
  {
    var t := Drain(end, rest);
    DrainData(c, data, terminator + rest, mid);
    TerminatorUnchecked(mid, terminator, rest);
    DataThenTerminator(c.body, data, terminator, t);
  }

  lemma DataThenTerminator(b: BodyState, data: Bytes, terminator: Bytes, t: Trace)
    requires CarriesPayload(b)
    ensures Prepend(b, BodyItem(data), Emit(terminator, [], t)) == Emit(data + terminator, data, t)
  {
    assert data + (terminator + t.body) == data + terminator + t.body;
    assert data + ([] + t.payload) == data + t.payload;
  }

  lemma DrainChunk(c: Codec, chunk: WireChunk, rest: Bytes)
    requires c.Valid() && c.body == InChunks(ExpectSize) && WellFormedChunk(chunk)
    ensures Drain(c, EncodeChunk(chunk) + rest) == Emit(EncodeChunk(chunk), chunk.data, Drain(c, rest))
  {
    var n := |chunk.data|;
    var behind := chunk.data + (chunk.terminator + rest);
    assert EncodeChunk(chunk) + rest == chunk.line + CRLF + behind;
    DrainSizeLine(c, chunk.line, n, behind);
    DrainChunkData(AfterSize(c, n), chunk.data, chunk.terminator, rest, c.(body := InChunks(ExpectDataCrlf)), c);
    EmitTwice(chunk.line + CRLF, [], chunk.data + chunk.terminator, chunk.data, Drain(c, rest));
    assert [] + chunk.data == chunk.data;
  }

  lemma {:induction false} DrainChunks(c: Codec, cs: seq<WireChunk>, rest: Bytes)
    requires c.Valid() && c.body == InChunks(ExpectSize)
    requires forall i :: 0 <= i < |cs| ==> WellFormedChunk(cs[i])
    ensures Drain(c, EncodeChunks(cs) + rest) == Emit(EncodeChunks(cs), ChunkData(cs), Drain(c, rest))
  {
    if cs == [] {
      assert EncodeChunks(cs) + rest == rest;
    } else {
      var more := EncodeChunks(cs[1..]);
      assert EncodeChunks(cs) + rest == EncodeChunk(cs[0]) + (more + rest);
      DrainChunk(c, cs[0], more + rest);
      DrainChunks(c, cs[1..], rest);
      EmitTwice(EncodeChunk(cs[0]), cs[0].data, more, ChunkData(cs[1..]), Drain(c, rest));
    }
  }

  lemma DrainTrailer(c: Codec, line: Bytes, rest: Bytes)
    requires c.Valid() && c.body == InChunks(TrailerOrEnd) && NoCrlf(line)
    ensures Drain(c, line + CRLF + rest) ==
            Emit(line + CRLF, [], Drain(if line == [] then c.(body := Done) else c, rest))
  {
    FindCrlfLine(line, rest);
    CutLine(line, rest);
  }

  lemma DrainDone(c: Codec, tail: Bytes)
    requires c.Valid() && c.body == Done
    ensures Drain(c, tail) == Trace([], [], [], c, tail, None)
  {
  }

  lemma {:induction false} DrainTrailers(c: Codec, trailers: seq<Bytes>, tail: Bytes)
    requires c.Valid() && c.body == InChunks(TrailerOrEnd)
    requires forall i :: 0 <= i < |trailers| ==> Line(trailers[i])
    ensures Drain(c, EncodeLines(trailers) + tail) ==
            Trace([], EncodeLines(trailers), [], c.(body := Done), tail, None)
  {
    hide Drain;
    if trailers == [] {
      DrainTrailer(c, [], tail);
      DrainDone(c.(body := Done), tail);
      assert [] + CRLF == CRLF && CRLF + [] == CRLF;
    } else {
      var line, more := trailers[0], EncodeLines(trailers[1..]);
      assert EncodeLines(trailers) + tail == line + CRLF + (more + tail);
      DrainTrailer(c, line, more + tail);
      DrainTrailers(c, trailers[1..], tail);
    }
  }

  /**
   * Every body of the grammar is read up to exactly its end: the chunk data come out as content,
   * every byte is passed on, and the tail stays unread.
   */
  lemma BodyIsRead(c: Codec, w: WireBody, tail: Bytes)
    requires c.Valid() && c.body == InChunks(ExpectSize) && WellFormedBody(w)
    ensures Drain(c, EncodeBody(w) + tail) ==
            Trace([], EncodeBody(w), ChunkData(w.chunks), c.(body := Done), tail, None)
  {
    hide Drain, EncodeChunks, EncodeLines, ChunkData;
    var line, lines := w.lastLine, EncodeLines(w.trailers);
    assert EncodeBody(w) + tail == EncodeChunks(w.chunks) + (line + CRLF + (lines + tail));
    DrainChunks(c, w.chunks, line + CRLF + (lines + tail));
    DrainSizeLine(c, line, 0, lines + tail);
    DrainTrailers(AfterSize(c, 0), w.trailers, tail);
    assert ChunkData(w.chunks) + ([] + []) == ChunkData(w.chunks);
  }

  // ----- nothing else completes -----

  /** A buffer with a line end starts with a line. */
  lemma SplitLine(src: Bytes) returns (line: Bytes, rest: Bytes)
    requires FindCrlf(src).Some?
    ensures NoCrlf(line) && |line| == FindCrlf(src).value && src == line + CRLF + rest
  {
    var pos := FindCrlf(src).value;
    line, rest := src[..pos], src[pos + 2..];
    forall j | 0 <= j < |line| ensures !CrlfAt(line, j) {
      assert CrlfAt(line, j) ==> CrlfAt(src, j);
    }
  }

  /** The decoder reaches the end of the body. */
  predicate Completes(c: Codec, src: Bytes)
    requires c.Valid()
  {
    Drain(c, src).codec.body == Done
  }

  lemma {:induction false} TrailersWereRead(c: Codec, src: Bytes) returns (trailers: seq<Bytes>, tail: Bytes)
    requires c.Valid() && c.body == InChunks(TrailerOrEnd) && Completes(c, src)
    ensures forall i :: 0 <= i < |trailers| ==> Line(trailers[i])
    ensures src == EncodeLines(trailers) + tail
    decreases |src|
  {
    var line, rest := SplitLine(src);
    DrainTrailer(c, line, rest);
    if line == [] {
      trailers, tail := [], rest;
      assert src == CRLF + rest;
    } else {
      var more;
      more, tail := TrailersWereRead(c, rest);
      trailers := [line] + more;
      assert trailers[1..] == more;
      assert src == line + CRLF + EncodeLines(more) + tail;
    }
  }

  /** Chunk data that is cut short, or lacks the two bytes behind it, keeps the decoder waiting. */
  lemma DataMissing(c: Codec, src: Bytes)
    requires c.Valid() && c.body.InChunks? && c.body.state.Data? && |src| < c.body.state.remaining + 2
    ensures !Completes(c, src)
  {
    var n := c.body.state.remaining;
    if src == [] {
      EmptyBufferNeedsMore(c);
    } else if |src| < n {
      DrainContent(c, src, src, c.(body := AfterTaking(c.body, |src|)), []);
      EmptyBufferNeedsMore(c.(body := AfterTaking(c.body, |src|)));
    } else {
      var mid := c.(body := InChunks(ExpectDataCrlf));
      DrainContent(c, src, src[..n], mid, src[n..]);
    }
  }

  lemma DataWasThere(c: Codec, src: Bytes)
    requires c.Valid() && c.body.InChunks? && c.body.state.Data? && Completes(c, src)
    ensures |src| >= c.body.state.remaining + 2
  {
    if |src| < c.body.state.remaining + 2 {
      DataMissing(c, src);
    }
  }

  lemma SizeLineThere(c: Codec, src: Bytes)
    requires c.Valid() && c.body == InChunks(ExpectSize) && Completes(c, src)
    ensures FindCrlf(src).Some? && ChunkSize(src[..FindCrlf(src).value]).Size?
  {
  }

  lemma {:induction false} BodyWasRead(c: Codec, src: Bytes) returns (w: WireBody, tail: Bytes)
    requires c.Valid() && c.body == InChunks(ExpectSize) && Completes(c, src)
    ensures WellFormedBody(w) && src == EncodeBody(w) + tail
    decreases |src|
  {
    hide ChunkSize, Drain, EncodeLines;
    SizeLineThere(c, src);
    var line, rest := SplitLine(src);
    CutLine(line, rest);
    var n := ChunkSize(line).n;
    DrainSizeLine(c, line, n, rest);
    if n == 0 {
      var trailers;
      trailers, tail := TrailersWereRead(AfterSize(c, 0), rest);
      w := WireBody([], line, trailers);
      assert line + CRLF + (EncodeLines(trailers) + tail) == [] + (line + CRLF + EncodeLines(trailers)) + tail;
    } else {
      DataWasThere(AfterSize(c, n), rest);
      var chunk, behind := CutChunk(line, n, rest);
      DrainChunk(c, chunk, behind);
      var v;
      v, tail := BodyWasRead(c, behind);
      w := v.(chunks := [chunk] + v.chunks);
      AddChunk(chunk, v, tail);
    }
  }

  lemma CutChunk(line: Bytes, n: nat, rest: Bytes) returns (chunk: WireChunk, behind: Bytes)
    requires 0 < n && n + 2 <= |rest| && Announces(line, n)
    ensures WellFormedChunk(chunk) && line + CRLF + rest == EncodeChunk(chunk) + behind
  {
    chunk, behind := WireChunk(line, rest[..n], rest[n..n + 2]), rest[n + 2..];
    assert rest == chunk.data + chunk.terminator + behind;
  }

  lemma AddChunk(chunk: WireChunk, v: WireBody, tail: Bytes)
    requires WellFormedChunk(chunk) && WellFormedBody(v)
    ensures var w := v.(chunks := [chunk] + v.chunks);
            WellFormedBody(w) && EncodeBody(w) + tail == EncodeChunk(chunk) + (EncodeBody(v) + tail)
  {
    var w := v.(chunks := [chunk] + v.chunks);
    assert w.chunks[1..] == v.chunks;
    Regrouped(EncodeChunk(chunk), EncodeChunks(v.chunks), v.lastLine + CRLF + EncodeLines(v.trailers), tail);
  }

  lemma Regrouped(a: Bytes, b: Bytes, c: Bytes, d: Bytes)
    ensures a + b + c + d == a + (b + c + d)
  {
  }

  /** Decoding completes on exactly the byte strings that start with a body of the grammar. */
  lemma CompletesExactly(c: Codec, src: Bytes)
    requires c.Valid() && c.body == InChunks(ExpectSize)
    ensures Completes(c, src) <==> exists w, tail :: WellFormedBody(w) && src == EncodeBody(w) + tail
  {
    if Completes(c, src) {
      var w, tail := BodyWasRead(c, src);
    }
    if w, tail :| WellFormedBody(w) && src == EncodeBody(w) + tail {
      BodyIsRead(c, w, tail);
    }
  }
}
