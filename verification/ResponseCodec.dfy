/**
 * The streaming response decoder: header lines, then a body framed by length, by chunks, by the end
 * of the connection, or not at all. It consumes a buffer in place and can stop after any byte.
 */
module ResponseCodec {
  import opened Common
  import opened Crlf
  import opened Numbers
  import opened HttpFrames
  import opened Matchers
  import opened Deriver
  import opened HttpDerive

  datatype ChunkedState = ExpectSize | Data(remaining: nat) | ExpectDataCrlf | TrailerOrEnd

  datatype BodyState = Headers | FixedLength(remaining: nat) | InChunks(state: ChunkedState) | UntilEof | Done

  datatype DecodeError = ObsFold | ChunkLineNotText | ChunkSizeNotHex

  datatype Item = FrameItem(frame: HttpFrame) | BodyItem(bytes: Bytes)

  datatype Outcome = Produced(item: Item) | NeedMore | Failed(error: DecodeError)

  /** The value of a decoder. */
  datatype Codec = Codec(
    body: BodyState,
    firstLine: bool,
    session: Session,
    framing: Option<BodyFramingMode>)
  {
    /** Holds in every reachable state: a body that is being counted down has something left. */
    predicate Valid() {
      && session.Valid()
      && (body.FixedLength? ==> 0 < body.remaining < USIZE_LIMIT)
      && (body.InChunks? && body.state.Data? ==> 0 < body.state.remaining < USIZE_LIMIT)
      && (framing.Some? && framing.value.Fixed? ==> framing.value.length < USIZE_LIMIT)
    }
  }

  /** One decode call: what it returns, the decoder after it, and the buffer after it. */
  datatype Step = Step(outcome: Outcome, codec: Codec, rest: Bytes)

  function NewCodec(): (c: Codec)
    ensures c.Valid()
  {
    Codec(Headers, true, NewSession(AllMatchers()), None)
  }

  const GET_SLASH: Bytes := [0x47, 0x45, 0x54, 0x20, 0x2F, 0x20]

  /** The status line up to its first space. */
  function StatusLineVersion(line: Bytes): Bytes {
    match Memchr(SP, line)
    case None => line
    case Some(i) => line[..i]
  }

  /** The request line a status line is turned into, so that the version matcher can see it. */
  function SyntheticRequestLine(line: Bytes): Bytes {
    GET_SLASH + StatusLineVersion(line) + CRLF
  }

  function FeedStatusLine(s: Session, line: Bytes): (r: Session)
    requires s.Valid()
    ensures r.Valid()
  {
    s.Feed(Fed(StatusLine, line)).Feed(Fed(RequestLine, SyntheticRequestLine(line)))
  }

  lemma FramingFits(s: Session)
    requires s.Valid()
    ensures var f := ResolveAll(s).bodyFraming; f.Fixed? ==> f.length < USIZE_LIMIT
  {
    var cl := Get(s.ResultsFor(BODY_FRAMING_MATCHERS), 0);
    if cl.Some? { LengthFits(cl.value); }
  }

  lemma LengthFits(value: Bytes)
    ensures ResolveLength(value).Fixed? ==> ResolveLength(value).length < USIZE_LIMIT
  {
    match DecodeUtf8(value)
    case None =>
    case Some(text) =>
      if ParseUsize(Trim(text), 10).Some? {
        ParseUsizeExact(Trim(text), 10, ParseUsize(Trim(text), 10).value);
      }
  }

  function AfterHeaders(framing: BodyFramingMode): BodyState {
    match framing
    case Fixed(n) => if n == 0 then Done else FixedLength(n)
    case NoBody => Done
    case Chunked => InChunks(ExpectSize)
    case UntilClose | Invalid => UntilEof
  }

  function StepHeaders(c: Codec, src: Bytes): (r: Step)
    requires c.Valid()
    ensures r.codec.Valid()
    ensures r.outcome.Produced? ==> |r.rest| < |src|
  {
    match FindCrlf(src)
    case None => Step(NeedMore, c, src)
    case Some(pos) =>
      if pos == 0 then
        FramingFits(c.session);
        var framing := ResolveAll(c.session).bodyFraming;
        Step(Produced(FrameItem(END_OF_HEADERS)), c.(framing := Some(framing), body := AfterHeaders(framing)), src[2..])
      else if !c.firstLine && IsOws(src[0]) then Step(Failed(ObsFold), c, src)
      else
        var line := src[..pos + 2];
        if c.firstLine then
          Step(Produced(FrameItem(StatusLineFrame(line))),
               c.(firstLine := false, session := FeedStatusLine(c.session, line)), src[pos + 2..])
        else
          Step(Produced(FrameItem(HeaderFrame(line))), c.(session := c.session.Feed(Fed(HttpPhase.Header, line))), src[pos + 2..])
  }

  function StepFixedLength(c: Codec, src: Bytes): (r: Step)
    requires c.Valid() && c.body.FixedLength?
    ensures r.codec.Valid()
    ensures r.outcome.Produced? ==> |r.rest| < |src|
  {
    if src == [] then Step(NeedMore, c, src)
    else
      var take := Min(c.body.remaining, |src|);
      var left := c.body.remaining - take;
      Step(Produced(BodyItem(src[..take])), c.(body := if left == 0 then Done else FixedLength(left)), src[take..])
  }

  /** The size a chunk-size line announces: the text before any `;`, trimmed, in hexadecimal. */
  function ChunkSize(line: Bytes): ChunkLine {
    match DecodeUtf8(line)
    case None => Bad(ChunkLineNotText)
    case Some(text) =>
      match ParseUsize(Trim(BeforeFirst(0x3B, text)), 16)
      case None => Bad(ChunkSizeNotHex)
      case Some(n) => Size(n)
  }

  datatype ChunkLine = Size(n: nat) | Bad(error: DecodeError)

  lemma ChunkSizeFits(line: Bytes)
    ensures ChunkSize(line).Size? ==> ChunkSize(line).n < USIZE_LIMIT
  {
    match DecodeUtf8(line)
    case None =>
    case Some(text) =>
      var t := Trim(BeforeFirst(0x3B, text));
      if ParseUsize(t, 16).Some? {
        ParseUsizeExact(t, 16, ParseUsize(t, 16).value);
      }
  }

  function StepChunked(c: Codec, src: Bytes): (r: Step)
    requires c.Valid() && c.body.InChunks?
    ensures r.codec.Valid()
    ensures r.outcome.Produced? ==> |r.rest| < |src|
  {
    match c.body.state
    case ExpectSize =>
      (match FindCrlf(src)
       case None => Step(NeedMore, c, src)
       case Some(pos) =>
         ChunkSizeFits(src[..pos]);
         match ChunkSize(src[..pos])
         case Bad(e) => Step(Failed(e), c, src)
         case Size(n) =>
           Step(Produced(BodyItem(src[..pos + 2])), c.(body := InChunks(if n == 0 then TrailerOrEnd else Data(n))), src[pos + 2..]))
    case Data(remaining) =>
      if src == [] then Step(NeedMore, c, src)
      else
        var take := Min(remaining, |src|);
        var left := remaining - take;
        Step(Produced(BodyItem(src[..take])), c.(body := InChunks(if left == 0 then ExpectDataCrlf else Data(left))), src[take..])
    case ExpectDataCrlf =>
      if |src| < 2 then Step(NeedMore, c, src)
      else Step(Produced(BodyItem(src[..2])), c.(body := InChunks(ExpectSize)), src[2..])
    case TrailerOrEnd =>
      (match FindCrlf(src)
       case None => Step(NeedMore, c, src)
       case Some(pos) =>
         Step(Produced(BodyItem(src[..pos + 2])), if pos == 0 then c.(body := Done) else c, src[pos + 2..]))
  }

  function StepDecode(c: Codec, src: Bytes): (r: Step)
    requires c.Valid()
    ensures r.codec.Valid()
    ensures r.outcome.Produced? ==> |r.rest| < |src|
  {
    match c.body
    case Headers => StepHeaders(c, src)
    case FixedLength(_) => StepFixedLength(c, src)
    case InChunks(_) => StepChunked(c, src)
    case UntilEof => if src == [] then Step(NeedMore, c, src) else Step(Produced(BodyItem(src)), c, [])
    case Done => Step(NeedMore, c, src)
  }

  /** The call made instead of `decode` once the connection has ended. */
  function StepEof(c: Codec, src: Bytes): (r: Step)
    requires c.Valid()
    ensures r.codec.Valid()
    ensures r.outcome.Produced? ==> |r.rest| < |src|
  {
    match c.body
    case UntilEof =>
      if src == [] then Step(NeedMore, c.(body := Done), src) else Step(Produced(BodyItem(src)), c.(body := Done), [])
    case Done => Step(NeedMore, c, src)
    case _ => StepDecode(c, src)
  }

  // ----- the decoder object -----

  class ResponseDecoder {
    var bodyState: BodyState
    var firstLine: bool
    const session: DeriverSession
    var bodyFraming: Option<BodyFramingMode>

    ghost function View(): Codec
      reads this, session
    {
      Codec(bodyState, firstLine, session.View(), bodyFraming)
    }

    ghost predicate Valid()
      reads this, session
    {
      View().Valid()
    }

    constructor ()
      ensures Valid() && fresh(session) && View() == NewCodec()
    {
      bodyState := Headers;
      firstLine := true;
      session := new DeriverSession(AllMatchers());
      bodyFraming := None;
    }

    method IsResponseComplete() returns (done: bool)
      ensures done <==> bodyState == Done
    {
      done := bodyState == Done;
    }

    method DecodeHeaders(src: BytesMut) returns (r: Outcome)
      requires Valid() && bodyState == Headers
      modifies this, session, src
      ensures Valid()
      ensures Step(r, View(), src.data) == StepHeaders(old(View()), old(src.data))
    {
      if src.data == [] {
        return NeedMore;
      }
      var crlf := ScanCrlf(src.data);
      if crlf.None? {
        return NeedMore;
      }
      var pos := crlf.value;
      if pos == 0 {
        src.Advance(2);
        var derived := ResolveAll(session.View());
        FramingFits(session.View());
        bodyFraming := Some(derived.bodyFraming);
        bodyState := match derived.bodyFraming {
          case Fixed(n) => if n == 0 then Done else FixedLength(n)
          case NoBody => Done
          case Chunked => InChunks(ExpectSize)
          case UntilClose | Invalid => UntilEof
        };
        return Produced(FrameItem(END_OF_HEADERS));
      }
      var isStatus := firstLine;
      firstLine := false;
      if !isStatus && (src.data[0] == SP || src.data[0] == HT) {
        return Failed(ObsFold);
      }
      var line := src.SplitTo(pos + 2);
      if isStatus {
        session.Feed(StatusLine, line);
        var version := StatusLineVersion(line);
        session.Feed(RequestLine, GET_SLASH + version + CRLF);
        return Produced(FrameItem(StatusLineFrame(line)));
      }
      session.Feed(HttpPhase.Header, line);
      return Produced(FrameItem(HeaderFrame(line)));
    }

    method DecodeFixedLength(src: BytesMut, remaining: nat) returns (r: Outcome)
      requires Valid() && bodyState == FixedLength(remaining)
      modifies this`bodyState, src
      ensures Valid()
      ensures Step(r, View(), src.data) == StepFixedLength(old(View()), old(src.data))
    {
      if src.data == [] {
        return NeedMore;
      }
      var toTake := Min(remaining, |src.data|);
      var chunk := src.SplitTo(toTake);
      var newRemaining := remaining - toTake;
      if newRemaining == 0 {
        bodyState := Done;
      } else {
        bodyState := FixedLength(newRemaining);
      }
      return Produced(BodyItem(chunk));
    }

    method DecodeChunked(src: BytesMut, state: ChunkedState) returns (r: Outcome)
      requires Valid() && bodyState == InChunks(state)
      modifies this`bodyState, src
      ensures Valid()
      ensures Step(r, View(), src.data) == StepChunked(old(View()), old(src.data))
    {
      match state
      case ExpectSize =>
        var crlf := ScanCrlf(src.data);
        if crlf.None? {
          return NeedMore;
        }
        ChunkSizeFits(src.data[..crlf.value]);
        match ChunkSize(src.data[..crlf.value]) {
          case Bad(e) =>
            return Failed(e);
          case Size(size) =>
            var chunkHeader := src.SplitTo(crlf.value + 2);
            if size == 0 {
              bodyState := InChunks(TrailerOrEnd);
              return Produced(BodyItem(chunkHeader));
            }
            bodyState := InChunks(Data(size));
            return Produced(BodyItem(chunkHeader));
        }
      case Data(remaining) =>
        if src.data == [] {
          return NeedMore;
        }
        var toTake := Min(remaining, |src.data|);
        var chunk := src.SplitTo(toTake);
        var newRemaining := remaining - toTake;
        if newRemaining == 0 {
          bodyState := InChunks(ExpectDataCrlf);
        } else {
          bodyState := InChunks(Data(newRemaining));
        }
        return Produced(BodyItem(chunk));
      case ExpectDataCrlf =>
        if |src.data| < 2 {
          return NeedMore;
        }
        var crlf := src.SplitTo(2);
        bodyState := InChunks(ExpectSize);
        return Produced(BodyItem(crlf));
      case TrailerOrEnd =>
        var crlf := ScanCrlf(src.data);
        if crlf.None? {
          return NeedMore;
        }
        var trailer := src.SplitTo(crlf.value + 2);
        if crlf.value == 0 {
          bodyState := Done;
        }
        return Produced(BodyItem(trailer));
    }

    method Decode(src: BytesMut) returns (r: Outcome)
      requires Valid()
      modifies this, session, src
      ensures Valid()
      ensures Step(r, View(), src.data) == StepDecode(old(View()), old(src.data))
    {
      match bodyState
      case Headers =>
        r := DecodeHeaders(src);
      case FixedLength(remaining) =>
        r := DecodeFixedLength(src, remaining);
      case InChunks(state) =>
        r := DecodeChunked(src, state);
      case UntilEof =>
        if src.data == [] {
          return NeedMore;
        }
        var chunk := src.Split();
        return Produced(BodyItem(chunk));
      case Done =>
        return NeedMore;
    }

    method DecodeEof(src: BytesMut) returns (r: Outcome)
      requires Valid()
      modifies this, session, src
      ensures Valid()
      ensures Step(r, View(), src.data) == StepEof(old(View()), old(src.data))
    {
      match bodyState
      case UntilEof =>
        if src.data == [] {
          bodyState := Done;
          return NeedMore;
        }
        var chunk := src.Split();
        bodyState := Done;
        return Produced(BodyItem(chunk));
      case Done =>
        return NeedMore;
      case _ =>
        r := Decode(src);
    }
  }
}
