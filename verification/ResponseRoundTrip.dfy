/**
 * Responses written in the wire format and read back: heads, bodies with a length, chunked bodies
 * with extensions and trailers, responses without a body, and bodies that end with the connection.
 */
module ResponseRoundTrip {
  import opened Common
  import opened Crlf
  import opened Numbers
  import opened HttpFrames
  import opened Matchers
  import opened Deriver
  import opened HttpDerive
  import opened ResponseCodec
  import opened Fragmentation
  import opened ChunkedBody

  /** How a size is written: white space, zeros in front, white space, and extensions (from the `;` on). */
  datatype SizeText = SizeText(before: Bytes, zeros: nat, after: Bytes, extension: Bytes)

  /** One chunk: its data, and how its size is written. */
  datatype Chunk = Chunk(data: Bytes, size: SizeText)

  datatype Content =
    | Sized(bytes: Bytes)
    | Chunks(chunks: seq<Chunk>, last: SizeText, trailers: seq<Bytes>)
    | Nothing

  datatype Response = Response(status: Bytes, headers: seq<Bytes>, content: Content)

  // ----- the wire format -----

  function SizeLine(n: nat, t: SizeText): Bytes {
    t.before + (Zeros(t.zeros) + Digits(n, 16)) + t.after + t.extension
  }

  function OnTheWire(c: Chunk): WireChunk {
    WireChunk(SizeLine(|c.data|, c.size), c.data, CRLF)
  }

  function WireChunks(cs: seq<Chunk>): seq<WireChunk> {
    seq(|cs|, i requires 0 <= i < |cs| => OnTheWire(cs[i]))
  }

  function WireContent(content: Content): WireBody
    requires content.Chunks?
  {
    WireBody(WireChunks(content.chunks), SizeLine(0, content.last), content.trailers)
  }

  function EncodeContent(content: Content): Bytes {
    match content
    case Sized(bytes) => bytes
    case Chunks(_, _, _) => EncodeBody(WireContent(content))
    case Nothing => []
  }

  function Encode(r: Response): Bytes {
    EncodeLines([r.status] + r.headers) + EncodeContent(r.content)
  }

  /** The payload: the data of every chunk, in order. */
  function Payloads(cs: seq<Chunk>): seq<Bytes> {
    seq(|cs|, i requires 0 <= i < |cs| => cs[i].data)
  }

  function ContentBytes(content: Content): Bytes {
    match content
    case Sized(bytes) => bytes
    case Chunks(cs, _, _) => Concat(Payloads(cs))
    case Nothing => []
  }

  // ----- what may be written -----

  /** Chunk extensions: nothing, or text without a line end that starts at a semicolon. */
  ghost predicate Extension(e: Bytes) {
    e != [] ==> e[0] == 0x3B && NoCrlf(e) && DecodeUtf8(e).Some?
  }

  ghost predicate Writable(t: SizeText) {
    AllOws(t.before) && AllOws(t.after) && Extension(t.extension)
  }

  ghost predicate Printable(c: Chunk) {
    0 < |c.data| < USIZE_LIMIT && Writable(c.size)
  }

  ghost predicate WellFormed(r: Response) {
    && Line(r.status)
    && (forall i :: 0 <= i < |r.headers| ==> Line(r.headers[i]) && !IsOws(r.headers[i][0]))
    && (r.content.Chunks? ==>
          && (forall i :: 0 <= i < |r.content.chunks| ==> Printable(r.content.chunks[i]))
          && Writable(r.content.last)
          && (forall i :: 0 <= i < |r.content.trailers| ==> Line(r.content.trailers[i])))
  }

  function HeaderLog(headers: seq<Bytes>): seq<Fed> {
    seq(|headers|, i requires 0 <= i < |headers| => Fed(HttpPhase.Header, headers[i] + CRLF))
  }

  /** The lines the decoder's session is fed while it reads a head. */
  function HeadLog(status: Bytes, headers: seq<Bytes>): seq<Fed> {
    [Fed(StatusLine, status + CRLF), Fed(RequestLine, SyntheticRequestLine(status + CRLF))] + HeaderLog(headers)
  }

  function AnnouncedFraming(r: Response): BodyFramingMode {
    ResolveAll(SessionAfter(HeadLog(r.status, r.headers))).bodyFraming
  }

  /** The head announces the body that follows it. */
  predicate Announced(r: Response) {
    match r.content
    case Sized(bytes) => AnnouncedFraming(r) == Fixed(|bytes|)
    case Chunks(_, _, _) => AnnouncedFraming(r) == Chunked
    case Nothing => AnnouncedFraming(r) == NoBody
  }

  // ----- reading chunks -----

  lemma NoCrlfJoin(a: Bytes, b: Bytes)
    requires CR !in a && NoCrlf(b)
    ensures NoCrlf(a + b)
  {
    forall i | 0 <= i < |a + b| ensures !CrlfAt(a + b, i) {
      if i < |a| {
        assert (a + b)[i] in a;
      } else {
        assert CrlfAt(a + b, i) == CrlfAt(b, i - |a|);
      }
    }
  }

  lemma HexIsPlain(zeros: nat, n: nat)
    ensures var t := Zeros(zeros) + Digits(n, 16);
            forall i :: 0 <= i < |t| ==> 0x30 <= t[i] < 0x7B && t[i] != 0x3B
  {
    assert forall c: nat :: IsDigit(c, 16) ==> 0x30 <= c < 0x7B && c != 0x3B;
    var digits := Digits(n, 16);
    assert forall i :: 0 <= i < |digits| ==> IsDigit(digits[i], 16);
  }

  /** Size text in front of any extension is what the decoder parses, whatever white space surrounds it. */
  lemma PlainSizeText(before: Bytes, size: Bytes, after: Bytes, extension: Bytes)
    requires AllOws(before) && AllOws(after)
    requires size != [] && forall i :: 0 <= i < |size| ==> 0x30 <= size[i] < 0x7B && size[i] != 0x3B
    requires Extension(extension)
    ensures NoCrlf(before + size + after + extension)
    ensures ChunkSize(before + size + after + extension) ==
            match ParseUsize(size, 16) case None => ChunkLine.Bad(ChunkSizeNotHex) case Some(n) => Size(n)
  {
    var front := before + size + after;
    assert forall i :: 0 <= i < |front| ==> front[i] < 0x7B && front[i] != CR && front[i] != 0x3B;
    NoCrlfJoin(front, extension);
    DecodeAsciiPrefix(front, extension);
    SemicolonFirst(extension);
    BeforeFirstSplits(0x3B, front, DecodeUtf8(extension).value);
    TrimExact(before, size, after);
  }

  lemma SemicolonFirst(extension: Bytes)
    requires Extension(extension)
    ensures DecodeUtf8(extension).Some?
    ensures DecodeUtf8(extension).value != [] ==> DecodeUtf8(extension).value[0] == 0x3B
  {
  }

  lemma SizeLineParses(n: nat, t: SizeText)
    requires n < USIZE_LIMIT && Writable(t)
    ensures NoCrlf(SizeLine(n, t))
    ensures ChunkSize(SizeLine(n, t)) == Size(n)
  {
    HexIsPlain(t.zeros, n);
    PlainSizeText(t.before, Zeros(t.zeros) + Digits(n, 16), t.after, t.extension);
    ParsePrinted(t.zeros, n, 16);
  }

  lemma {:induction false} WirePayload(cs: seq<Chunk>)
    ensures ChunkData(WireChunks(cs)) == Concat(Payloads(cs))
  {
    if cs != [] {
      assert WireChunks(cs)[1..] == WireChunks(cs[1..]);
      assert Payloads(cs)[1..] == Payloads(cs[1..]);
      WirePayload(cs[1..]);
    }
  }

  /**
   * Any non-empty chunks with any white space and padding, extensions and trailers are read up to exactly their end:
   * the content comes back, the framing is passed on untouched, and the tail stays unread.
   */
  lemma ChunkedRoundTrip(c: Codec, content: Content, tail: Bytes)
    requires c.Valid() && c.body == InChunks(ExpectSize) && content.Chunks?
    requires forall i :: 0 <= i < |content.chunks| ==> Printable(content.chunks[i])
    requires Writable(content.last)
    requires forall i :: 0 <= i < |content.trailers| ==> Line(content.trailers[i])
    ensures Drain(c, EncodeContent(content) + tail) ==
            Trace([], EncodeContent(content), ContentBytes(content), c.(body := Done), tail, None)
  {
    var w := WireContent(content);
    forall i | 0 <= i < |w.chunks| ensures WellFormedChunk(w.chunks[i]) {
      var chunk := content.chunks[i];
      SizeLineParses(|chunk.data|, chunk.size);
    }
    SizeLineParses(0, content.last);
    WirePayload(content.chunks);
    BodyIsRead(c, w, tail);
  }

  // ----- reading heads -----

  function HeaderFrames(headers: seq<Bytes>): seq<HttpFrame> {
    seq(|headers|, i requires 0 <= i < |headers| => HeaderFrame(headers[i] + CRLF))
  }

  function HeadFrames(status: Bytes, headers: seq<Bytes>): seq<HttpFrame> {
    [StatusLineFrame(status + CRLF)] + HeaderFrames(headers) + [END_OF_HEADERS]
  }

  function EmitFrames(frames: seq<HttpFrame>, t: Trace): Trace {
    t.(frames := frames + t.frames)
  }

  /** Feeding front to back. */
  lemma {:induction false} FeedAllJoin(s: Session, a: seq<Fed>, b: seq<Fed>)
    requires s.Valid()
    ensures FeedAll(s, a + b) == FeedAll(FeedAll(s, a), b)
  {
    if b == [] {
      assert a + b == a;
    } else {
      assert (a + b)[..|a + b| - 1] == a + b[..|b| - 1];
      FeedAllJoin(s, a, b[..|b| - 1]);
    }
  }

  /** The decoder at the end of a head whose session is `s`. */
  function HeadDone(c: Codec, s: Session): (r: Codec)
    requires c.Valid() && s.Valid()
    ensures r.Valid()
  {
    FramingFits(s);
    var framing := ResolveAll(s).bodyFraming;
    c.(firstLine := false, session := s, framing := Some(framing), body := AfterHeaders(framing))
  }

  lemma DrainHeaderLine(c: Codec, line: Bytes, rest: Bytes)
    requires c.Valid() && c.body == Headers && !c.firstLine
    requires Line(line) && !IsOws(line[0])
    ensures Drain(c, line + CRLF + rest) ==
            EmitFrames([HeaderFrame(line + CRLF)],
                       Drain(c.(session := c.session.Feed(Fed(HttpPhase.Header, line + CRLF))), rest))
  {
    FindCrlfLine(line, rest);
    CutLine(line, rest);
  }

  lemma DrainHeadEnd(c: Codec, rest: Bytes)
    requires c.Valid() && c.body == Headers && !c.firstLine
    ensures Drain(c, CRLF + rest) == EmitFrames([END_OF_HEADERS], Drain(HeadDone(c, c.session), rest))
  {
    FindCrlfLine([], rest);
    CutLine([], rest);
    assert [] + CRLF + rest == CRLF + rest;
  }

  lemma EmitFramesTwice(a: seq<HttpFrame>, b: seq<HttpFrame>, t: Trace)
    ensures EmitFrames(a, EmitFrames(b, t)) == EmitFrames(a + b, t)
  {
    assert a + (b + t.frames) == a + b + t.frames;
  }

  lemma HeaderFramesSplit(headers: seq<Bytes>)
    requires headers != []
    ensures [HeaderFrame(headers[0] + CRLF)] + (HeaderFrames(headers[1..]) + [END_OF_HEADERS]) ==
            HeaderFrames(headers) + [END_OF_HEADERS]
  {
  }

  lemma HeaderLogSplits(s: Session, headers: seq<Bytes>)
    requires s.Valid() && headers != []
    ensures var fed := Fed(HttpPhase.Header, headers[0] + CRLF);
            FeedAll(s, HeaderLog(headers)) == FeedAll(s.Feed(fed), HeaderLog(headers[1..]))
  {
    var fed := Fed(HttpPhase.Header, headers[0] + CRLF);
    assert HeaderLog(headers) == [fed] + HeaderLog(headers[1..]);
    FeedAllJoin(s, [fed], HeaderLog(headers[1..]));
    assert [fed][..0] == [];
    assert FeedAll(s, [fed]) == FeedAll(s, []).Feed(fed);
  }

  lemma {:induction false} DrainHeaders(c: Codec, headers: seq<Bytes>, rest: Bytes)
    requires c.Valid() && c.body == Headers && !c.firstLine
    requires forall i :: 0 <= i < |headers| ==> Line(headers[i]) && !IsOws(headers[i][0])
    ensures Drain(c, EncodeLines(headers) + rest) ==
            EmitFrames(HeaderFrames(headers) + [END_OF_HEADERS],
                       Drain(HeadDone(c, FeedAll(c.session, HeaderLog(headers))), rest))
    decreases |headers|
  {
    if headers == [] {
      DrainHeadEnd(c, rest);
      assert HeaderFrames(headers) + [END_OF_HEADERS] == [END_OF_HEADERS];
    } else {
      var line, more, fed := headers[0], headers[1..], Fed(HttpPhase.Header, headers[0] + CRLF);
      assert EncodeLines(headers) + rest == line + CRLF + (EncodeLines(more) + rest);
      DrainHeaderLine(c, line, EncodeLines(more) + rest);
      var next := c.(session := c.session.Feed(fed));
      DrainHeaders(next, more, rest);
      HeaderLogSplits(c.session, headers);
      var end := HeadDone(c, FeedAll(c.session, HeaderLog(headers)));
      EmitFramesTwice([HeaderFrame(line + CRLF)], HeaderFrames(more) + [END_OF_HEADERS], Drain(end, rest));
      HeaderFramesSplit(headers);
    }
  }

  lemma DrainStatusLine(c: Codec, line: Bytes, rest: Bytes)
    requires c.Valid() && c.body == Headers && c.firstLine && Line(line)
    ensures Drain(c, line + CRLF + rest) ==
            EmitFrames([StatusLineFrame(line + CRLF)],
                       Drain(c.(firstLine := false, session := FeedStatusLine(c.session, line + CRLF)), rest))
  {
    FindCrlfLine(line, rest);
    CutLine(line, rest);
  }

  lemma HeadLogSession(status: Bytes, headers: seq<Bytes>)
    ensures FeedAll(FeedStatusLine(NewSession(AllMatchers()), status + CRLF), HeaderLog(headers)) ==
            SessionAfter(HeadLog(status, headers))
  {
    SessionOfHead(NewSession(AllMatchers()), status, headers);
  }

  lemma SessionOfHead(s: Session, status: Bytes, headers: seq<Bytes>)
    requires s.Valid()
    ensures FeedAll(FeedStatusLine(s, status + CRLF), HeaderLog(headers)) == FeedAll(s, HeadLog(status, headers))
  {
    var a, b := Fed(StatusLine, status + CRLF), Fed(RequestLine, SyntheticRequestLine(status + CRLF));
    assert HeadLog(status, headers) == [a, b] + HeaderLog(headers);
    FeedAllJoin(s, [a, b], HeaderLog(headers));
    assert [a, b][..1] == [a] && [a][..0] == [];
    assert FeedAll(s, [a]) == FeedAll(s, []).Feed(a);
    assert FeedAll(s, [a, b]) == FeedAll(s, [a]).Feed(b);
  }

  /** The state behind a head. */
  function AfterHead(r: Response): (c: Codec)
    ensures c.Valid()
  {
    HeadDone(NewCodec(), SessionAfter(HeadLog(r.status, r.headers)))
  }

  lemma HeadRoundTrip(r: Response, rest: Bytes)
    requires WellFormed(r)
    ensures Drain(NewCodec(), EncodeLines([r.status] + r.headers) + rest) ==
            EmitFrames(HeadFrames(r.status, r.headers), Drain(AfterHead(r), rest))
  {
    HeadFrom(NewCodec(), r, rest);
    HeadLogSession(r.status, r.headers);
  }

  lemma HeadFrom(c: Codec, r: Response, rest: Bytes)
    requires c.Valid() && c.body == Headers && c.firstLine && WellFormed(r)
    ensures Drain(c, EncodeLines([r.status] + r.headers) + rest) ==
            EmitFrames(HeadFrames(r.status, r.headers),
                       Drain(HeadDone(c, FeedAll(FeedStatusLine(c.session, r.status + CRLF), HeaderLog(r.headers))), rest))
  {
    var lines := [r.status] + r.headers;
    assert lines[1..] == r.headers;
    assert EncodeLines(lines) + rest == r.status + CRLF + (EncodeLines(r.headers) + rest);
    DrainStatusLine(c, r.status, EncodeLines(r.headers) + rest);
    var next := c.(firstLine := false, session := FeedStatusLine(c.session, r.status + CRLF));
    DrainHeaders(next, r.headers, rest);
    var end := HeadDone(c, FeedAll(next.session, HeaderLog(r.headers)));
    EmitFramesTwice([StatusLineFrame(r.status + CRLF)], HeaderFrames(r.headers) + [END_OF_HEADERS], Drain(end, rest));
    assert [StatusLineFrame(r.status + CRLF)] + (HeaderFrames(r.headers) + [END_OF_HEADERS]) == HeadFrames(r.status, r.headers);
  }

  // ----- whole responses -----

  /** Content `content`, read in the state a head with this framing leads to. */
  lemma ContentFrom(c: Codec, content: Content, tail: Bytes)
    requires c.Valid()
    requires match content
             case Sized(bytes) => c.body == AfterHeaders(Fixed(|bytes|))
             case Chunks(cs, last, trailers) =>
               && c.body == InChunks(ExpectSize)
               && (forall i :: 0 <= i < |cs| ==> Printable(cs[i]))
               && Writable(last)
               && (forall i :: 0 <= i < |trailers| ==> Line(trailers[i]))
             case Nothing => c.body == Done
    ensures Drain(c, EncodeContent(content) + tail) ==
            Trace([], EncodeContent(content), ContentBytes(content), c.(body := Done), tail, None)
  {
    match content
    case Sized(bytes) =>
      if bytes == [] {
        assert bytes + tail == tail;
      } else {
        DrainContent(c, bytes + tail, bytes, c.(body := Done), tail);
        assert bytes + [] == bytes;
      }
    case Chunks(_, _, _) => ChunkedRoundTrip(c, content, tail);
    case Nothing =>
      assert [] + tail == tail;
  }

  lemma ContentRoundTrip(r: Response, tail: Bytes)
    requires WellFormed(r) && Announced(r)
    ensures Drain(AfterHead(r), EncodeContent(r.content) + tail) ==
            Trace([], EncodeContent(r.content), ContentBytes(r.content), AfterHead(r).(body := Done), tail, None)
  {
    ContentFrom(AfterHead(r), r.content, tail);
  }

  /** An announced response is decoded into its head frames, its content and nothing else. */
  lemma WholeResponse(r: Response, tail: Bytes)
    requires WellFormed(r) && Announced(r)
    ensures Drain(NewCodec(), Encode(r) + tail) ==
            Trace(HeadFrames(r.status, r.headers), EncodeContent(r.content), ContentBytes(r.content),
                  AfterHead(r).(body := Done), tail, None)
  {
    var content := EncodeContent(r.content) + tail;
    EncodeSplits(r, tail);
    HeadRoundTrip(r, content);
    ContentRoundTrip(r, tail);
    OnlyHeadFrames(HeadFrames(r.status, r.headers), Drain(AfterHead(r), content));
  }

  lemma EncodeSplits(r: Response, tail: Bytes)
    ensures Encode(r) + tail == EncodeLines([r.status] + r.headers) + (EncodeContent(r.content) + tail)
  {
  }

  lemma OnlyHeadFrames(frames: seq<HttpFrame>, t: Trace)
    requires t.frames == []
    ensures EmitFrames(frames, t) == t.(frames := frames)
  {
    assert frames + [] == frames;
  }

  /**
   * Whatever the reads look like, an announced response is decoded into its head frames, its content
   * and nothing else; the decoder is done and the bytes behind the response are still unread.
   */
  lemma ResponseRoundTrips(r: Response, tail: Bytes, pieces: seq<Bytes>)
    requires WellFormed(r) && Announced(r)
    requires Concat(pieces) == Encode(r) + tail
    ensures ExtendAll(Start(NewCodec()), pieces) ==
            Trace(HeadFrames(r.status, r.headers), EncodeContent(r.content), ContentBytes(r.content),
                  AfterHead(r).(body := Done), tail, None)
  {
    WholeResponse(r, tail);
    AnyCut(NewCodec(), pieces, Drain(NewCodec(), Encode(r) + tail));
  }

  lemma AnyCut(c: Codec, pieces: seq<Bytes>, t: Trace)
    requires c.Valid() && Drain(c, Concat(pieces)) == t
    ensures ExtendAll(Start(c), pieces) == t
  {
    FragmentationInvariance(c, pieces);
  }

  // ----- bodies that end with the connection -----

  lemma DrainOpenEnded(c: Codec, bytes: Bytes)
    requires c.Valid() && c.body == UntilEof
    ensures Drain(c, bytes) == Trace([], bytes, bytes, c, [], None)
  {
    if bytes == [] {
      EmptyBufferNeedsMore(c);
    } else {
      DrainContent(c, bytes, bytes, c, []);
      EmptyBufferNeedsMore(c);
      assert bytes + [] == bytes;
    }
  }

  lemma WholeOpenEnded(r: Response, bytes: Bytes)
    requires WellFormed(r) && (AnnouncedFraming(r) == UntilClose || AnnouncedFraming(r) == Invalid)
    ensures Drain(NewCodec(), EncodeLines([r.status] + r.headers) + bytes) ==
            Trace(HeadFrames(r.status, r.headers), bytes, bytes, AfterHead(r), [], None)
  {
    HeadRoundTrip(r, bytes);
    DrainOpenEnded(AfterHead(r), bytes);
    OnlyHeadFrames(HeadFrames(r.status, r.headers), Drain(AfterHead(r), bytes));
  }

  lemma FinishOpenEnded(c: Codec, pieces: seq<Bytes>, t: Trace)
    requires c.Valid() && t.codec.Valid()
    requires Drain(c, Concat(pieces)) == t && t.error.None? && t.codec.body == UntilEof
    ensures Finish(ExtendAll(Start(c), pieces)) == t.(codec := t.codec.(body := Done))
  {
    AnyCut(c, pieces, t);
    FinishOnlyCompletes(c, Concat(pieces));
  }

  /** Without a usable length the body is everything up to the end of the connection. */
  lemma OpenEndedRoundTrips(r: Response, bytes: Bytes, pieces: seq<Bytes>)
    requires WellFormed(r) && (AnnouncedFraming(r) == UntilClose || AnnouncedFraming(r) == Invalid)
    requires Concat(pieces) == EncodeLines([r.status] + r.headers) + bytes
    ensures Finish(ExtendAll(Start(NewCodec()), pieces)) ==
            Trace(HeadFrames(r.status, r.headers), bytes, bytes, AfterHead(r).(body := Done), [], None)
  {
    WholeOpenEnded(r, bytes);
    FinishOpenEnded(NewCodec(), pieces, Drain(NewCodec(), Concat(pieces)));
  }

  // ----- which body a head announces -----

  /** What a matcher makes of the first header it hits. */
  function FirstHeader(m: Matcher, headers: seq<Bytes>): Option<Bytes> {
    if headers == [] then None
    else if TryMatch(m, headers[0] + CRLF).Some? then TryMatch(m, headers[0] + CRLF)
    else FirstHeader(m, headers[1..])
  }

  lemma {:induction false} FirstHeaderAt(m: Matcher, headers: seq<Bytes>, i: nat)
    requires i < |headers| && TryMatch(m, headers[i] + CRLF).Some?
    requires forall j :: 0 <= j < i ==> TryMatch(m, headers[j] + CRLF).None?
    ensures FirstHeader(m, headers) == TryMatch(m, headers[i] + CRLF)
  {
    if i > 0 {
      assert headers[1..][i - 1] == headers[i];
      assert forall j :: 0 <= j < i - 1 ==> headers[1..][j] == headers[j + 1];
      hide TryMatch;
      FirstHeaderAt(m, headers[1..], i - 1);
    }
  }

  lemma {:induction false} HeaderLogHit(m: Matcher, headers: seq<Bytes>)
    requires m.HeaderName?
    ensures FirstHit(m, HeaderLog(headers)) == FirstHeader(m, headers)
  {
    hide TryMatch;
    if headers != [] {
      HeaderLogHit(m, headers[1..]);
      assert HeaderLog(headers)[1..] == HeaderLog(headers[1..]);
    }
  }

  lemma LaterHit(m: Matcher, e: Fed, log: seq<Fed>)
    requires m.Phase() != e.phase
    ensures FirstHit(m, [e] + log) == FirstHit(m, log)
  {
    assert ([e] + log)[1..] == log;
  }

  lemma HeadLogHit(m: Matcher, status: Bytes, headers: seq<Bytes>)
    requires m.HeaderName?
    ensures FirstHit(m, HeadLog(status, headers)) == FirstHeader(m, headers)
  {
    hide FirstHit, SyntheticRequestLine, HeaderLog, FirstHeader, TryMatch;
    var a, b := Fed(StatusLine, status + CRLF), Fed(RequestLine, SyntheticRequestLine(status + CRLF));
    LaterHit(m, a, [b] + HeaderLog(headers));
    LaterHit(m, b, HeaderLog(headers));
    assert HeadLog(status, headers) == [a] + ([b] + HeaderLog(headers));
    HeaderLogHit(m, headers);
  }

  /** The version matcher sees the version of the status line through the synthetic request line. */
  lemma VersionSeen(line: Bytes)
    ensures TryMatch(RequestLineVersion, SyntheticRequestLine(line)) == Some(StatusLineVersion(line))
  {
    var version := StatusLineVersion(line);
    MemrchrSplits(SP, GET_SLASH[..5], version + CRLF);
    assert GET_SLASH + version + CRLF == GET_SLASH[..5] + [SP] + (version + CRLF);
    assert StripCrlf(version + CRLF) == version;
  }

  lemma VersionOfHead(status: Bytes, headers: seq<Bytes>)
    ensures FirstHit(RequestLineVersion, HeadLog(status, headers)) == Some(StatusLineVersion(status + CRLF))
  {
    hide TryMatch, StatusLineVersion;
    VersionSeen(status + CRLF);
    var log := HeadLog(status, headers);
    assert log[0].phase == StatusLine && log[1].phase == RequestLine;
    FirstHitAt(RequestLineVersion, log, 1);
  }

  predicate Http10(status: Bytes) {
    StatusLineVersion(status + CRLF) == HTTP_1_0
  }

  /** A response counts as HTTP/1.0 exactly when its status line starts with that version and a space. */
  lemma Http10Exactly(status: Bytes)
    ensures Http10(status) <==> HTTP_1_0 + [SP] <= status
  {
    var line := status + CRLF;
    if HTTP_1_0 + [SP] <= status {
      assert line == HTTP_1_0 + [SP] + line[9..];
      MemchrSplits(SP, HTTP_1_0, line[9..]);
    }
    if Http10(status) {
      assert Memchr(SP, line).Some? by {
        assert line[|line| - 1] == LF && HTTP_1_0[7] != LF;
      }
      assert line[..8] == HTTP_1_0 && line[8] == SP;
      assert forall i :: 0 <= i < 9 ==> line[i] == (HTTP_1_0 + [SP])[i];
      assert |status| >= 9 by {
        assert line[|line| - 2] == CR && line[|line| - 1] == LF;
      }
    }
  }

  /** The framing of a head: its first Content-Length, its first Transfer-Encoding, and its version. */
  lemma FramingOfHead(r: Response)
    ensures AnnouncedFraming(r) ==
            if Lists(FirstHeader(HeaderName(TRANSFER_ENCODING), r.headers), CHUNKED) then Chunked
            else match FirstHeader(HeaderName(CONTENT_LENGTH), r.headers)
                 case Some(value) => ResolveLength(value)
                 case None => if Http10(r.status) then UntilClose else NoBody
  {
    hide FirstHeader, ResolveLength, StatusLineVersion, FirstHit, HeadLog;
    HeadLogHit(HeaderName(CONTENT_LENGTH), r.status, r.headers);
    HeadLogHit(HeaderName(TRANSFER_ENCODING), r.status, r.headers);
    VersionOfHead(r.status, r.headers);
    ResolveAllMeaning(HeadLog(r.status, r.headers));
    ChunkedExactly(HeadLog(r.status, r.headers));
  }

  // ----- each framing, end to end -----

  /**
   * A response whose first Content-Length resolves to the length of the body, and whose first
   * Transfer-Encoding does not list `chunked`, is read as exactly that body; bytes behind it stay unread.
   */
  lemma ContentLengthEndToEnd(status: Bytes, headers: seq<Bytes>, value: Bytes, body: Bytes, tail: Bytes, pieces: seq<Bytes>)
    requires FirstHeader(HeaderName(CONTENT_LENGTH), headers) == Some(value) && ResolveLength(value) == Fixed(|body|)
    requires !Lists(FirstHeader(HeaderName(TRANSFER_ENCODING), headers), CHUNKED)
    requires WellFormed(Response(status, headers, Sized(body)))
    requires Concat(pieces) == Encode(Response(status, headers, Sized(body))) + tail
    ensures var t := ExtendAll(Start(NewCodec()), pieces);
            && t.frames == HeadFrames(status, headers)
            && t.payload == t.body == body
            && t.codec.body == Done && t.rest == tail && t.error == None
  {
    var r := Response(status, headers, Sized(body));
    FramingOfHead(r);
    hide AnnouncedFraming, FirstHeader, ResolveLength;
    ResponseRoundTrips(r, tail, pieces);
  }

  /** A Content-Length header as text, without its line end. */
  function LengthHeader(name: Bytes, before: Bytes, zeros: nat, n: nat, after: Bytes): Bytes {
    name + [0x3A] + (before + (Zeros(zeros) + Digits(n, 10)) + after)
  }

  /** However a length is spelled, the first header that spells it decides: it is that length, or not a length at all. */
  lemma SpelledLength(headers: seq<Bytes>, i: nat, name: Bytes, before: Bytes, zeros: nat, n: nat, after: Bytes)
    requires i < |headers| && headers[i] == LengthHeader(name, before, zeros, n, after)
    requires SameName(name, CONTENT_LENGTH) && AllOws(before) && AllOws(after)
    requires forall j :: 0 <= j < i ==> TryMatch(HeaderName(CONTENT_LENGTH), headers[j] + CRLF).None?
    ensures var value := FirstHeader(HeaderName(CONTENT_LENGTH), headers);
            value.Some? && ResolveLength(value.value) == if n < USIZE_LIMIT then Fixed(n) else Invalid
  {
    assert headers[i] + CRLF == HeaderLine(name, before, Zeros(zeros) + Digits(n, 10), after);
    ContentLengthResolves(name, before, zeros, n, after);
    FirstHeaderAt(HeaderName(CONTENT_LENGTH), headers, i);
  }

  /**
   * A Content-Length whose value is no length (`ResolveLengthExactly`) is not an error: the body runs to
   * the end of the connection.
   */
  lemma InvalidLengthRunsToEof(status: Bytes, headers: seq<Bytes>, value: Bytes, bytes: Bytes, pieces: seq<Bytes>)
    requires FirstHeader(HeaderName(CONTENT_LENGTH), headers) == Some(value) && ResolveLength(value) == Invalid
    requires !Lists(FirstHeader(HeaderName(TRANSFER_ENCODING), headers), CHUNKED)
    requires WellFormed(Response(status, headers, Nothing))
    requires Concat(pieces) == EncodeLines([status] + headers) + bytes
    ensures var t := Finish(ExtendAll(Start(NewCodec()), pieces));
            && t.frames == HeadFrames(status, headers)
            && t.payload == bytes && t.codec.body == Done && t.rest == [] && t.error == None
  {
    var r := Response(status, headers, Nothing);
    FramingOfHead(r);
    hide AnnouncedFraming, FirstHeader, ResolveLength;
    OpenEndedRoundTrips(r, bytes, pieces);
  }

  /**
   * A response whose first Transfer-Encoding lists `chunked` is read chunk by chunk to exactly its
   * end, also when it carries a Content-Length.
   */
  lemma ChunkedEndToEnd(status: Bytes, headers: seq<Bytes>, content: Content, tail: Bytes, pieces: seq<Bytes>)
    requires Lists(FirstHeader(HeaderName(TRANSFER_ENCODING), headers), CHUNKED)
    requires content.Chunks? && WellFormed(Response(status, headers, content))
    requires Concat(pieces) == Encode(Response(status, headers, content)) + tail
    ensures var t := ExtendAll(Start(NewCodec()), pieces);
            && t.frames == HeadFrames(status, headers)
            && t.payload == ContentBytes(content) && t.body == EncodeContent(content)
            && t.codec.body == Done && t.rest == tail && t.error == None
  {
    var r := Response(status, headers, content);
    FramingOfHead(r);
    hide AnnouncedFraming, FirstHeader, ResolveLength;
    ResponseRoundTrips(r, tail, pieces);
  }

  ghost predicate Unframed(headers: seq<Bytes>) {
    && FirstHeader(HeaderName(CONTENT_LENGTH), headers) == None
    && !Lists(FirstHeader(HeaderName(TRANSFER_ENCODING), headers), CHUNKED)
  }

  /** Without a framing header the body of an HTTP/1.0 response runs to the end of the connection. */
  lemma UnframedHttp10(status: Bytes, headers: seq<Bytes>, bytes: Bytes, pieces: seq<Bytes>)
    requires Unframed(headers) && Http10(status) && WellFormed(Response(status, headers, Nothing))
    requires Concat(pieces) == EncodeLines([status] + headers) + bytes
    ensures var t := Finish(ExtendAll(Start(NewCodec()), pieces));
            && t.frames == HeadFrames(status, headers)
            && t.payload == bytes && t.codec.body == Done && t.rest == [] && t.error == None
  {
    var r := Response(status, headers, Nothing);
    FramingOfHead(r);
    hide AnnouncedFraming, FirstHeader;
    OpenEndedRoundTrips(r, bytes, pieces);
  }

  /** Any other response without one is complete at the end of its head; what is behind it stays unread. */
  lemma UnframedEndsAtHead(status: Bytes, headers: seq<Bytes>, tail: Bytes, pieces: seq<Bytes>)
    requires Unframed(headers) && !Http10(status) && WellFormed(Response(status, headers, Nothing))
    requires Concat(pieces) == EncodeLines([status] + headers) + tail
    ensures var t := ExtendAll(Start(NewCodec()), pieces);
            && t.frames == HeadFrames(status, headers)
            && t.payload == [] && t.codec.body == Done && t.rest == tail && t.error == None
  {
    var r := Response(status, headers, Nothing);
    FramingOfHead(r);
    hide AnnouncedFraming, FirstHeader;
    NoBodyRoundTrips(r, tail, pieces);
  }

  lemma NoBodyRoundTrips(r: Response, tail: Bytes, pieces: seq<Bytes>)
    requires WellFormed(r) && r.content == Nothing && AnnouncedFraming(r) == NoBody
    requires Concat(pieces) == EncodeLines([r.status] + r.headers) + tail
    ensures var t := ExtendAll(Start(NewCodec()), pieces);
            && t.frames == HeadFrames(r.status, r.headers)
            && t.payload == [] && t.codec.body == Done && t.rest == tail && t.error == None
  {
    assert EncodeLines([r.status] + r.headers) + [] == EncodeLines([r.status] + r.headers);
    assert Encode(r) == EncodeLines([r.status] + r.headers) && ContentBytes(r.content) == [];
    ResponseRoundTrips(r, tail, pieces);
  }
}
