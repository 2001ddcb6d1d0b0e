/**
 * An answer as the driver is given it: the response decoder behind an upstream socket. Items come out until the
 * response is complete or the socket is at its end; both look the same to whoever polls.
 */
module AnswerStream {
  import opened Common
  import opened HttpFrames
  import opened Events
  import opened ResponseCodec
  import opened Fragmentation
  import Driver

  type Polled = Event<HttpFrame>

  function AsData(item: ResponseCodec.Item): ParsedData<HttpFrame> {
    match item
    case FrameItem(frame) => Parsed(frame)
    case BodyItem(bytes) => Passthrough(bytes)
  }

  // ----- one poll -----

  /** The decoder over a socket. The script holds the reads to come; behind it the socket is at its end. */
  datatype Reader = Reader(codec: Codec, buffer: Bytes, script: seq<Bytes>, readable: bool, eof: bool, errored: bool) {
    ghost predicate Valid() {
      codec.Valid() && NoEmptyRead(script) && (eof ==> script == [])
    }

    /** Bytes that were not handed out yet. */
    function Pending(): Bytes {
      buffer + Concat(script)
    }
  }

  /** One call of the decoder, which is told when the socket has ended. */
  function Decoded(r: Reader): (s: Step)
    requires r.Valid()
    ensures s.codec.Valid()
    ensures s.outcome.Produced? ==> |s.rest| < |r.buffer|
  {
    if r.eof then StepEof(r.codec, r.buffer) else StepDecode(r.codec, r.buffer)
  }

  function PollReader(r: Reader): (result: (Polled, Reader))
    requires r.Valid()
    ensures result.1.Valid()
    ensures result.0.Item? ==> |result.1.Pending()| < |r.Pending()|
    decreases |r.script|, !r.eof, r.readable
  {
    if r.errored then (End, r.(readable := false, errored := false))
    else if r.readable then
      var s := Decoded(r);
      match s.outcome
      case Produced(item) => (Event.Item(AsData(item)), r.(codec := s.codec, buffer := s.rest))
      case Failed(_) => (Broken(Io), r.(codec := s.codec, buffer := s.rest, errored := true))
      case NeedMore =>
        var next := r.(codec := s.codec, buffer := s.rest, readable := false);
        if r.eof then (End, next) else PollReader(next)
    else if r.script != [] then
      PollReader(r.(buffer := r.buffer + r.script[0], script := r.script[1..], readable := true, eof := false))
    else if !r.eof then PollReader(r.(readable := true, eof := true))
    else (End, r)
  }

  /** The stream stops by itself behind the item that completes the response. */
  datatype Stream = Stream(inner: Reader, done: bool)

  function PollStream(s: Stream): (result: (Polled, Stream))
    requires s.inner.Valid()
    ensures result.1.inner.Valid()
    ensures result.0.Item? ==> |result.1.inner.Pending()| < |s.inner.Pending()|
  {
    if s.done then (End, s)
    else
      var (r, inner) := PollReader(s.inner);
      (r, Stream(inner, r.Item? && inner.codec.body == Done))
  }

  function FreshStream(script: seq<Bytes>): Stream {
    Stream(Reader(NewCodec(), [], script, false, false, false), false)
  }

  // ----- the reader and the stream -----

  class FramedRead {
    const decoder: ResponseDecoder
    const buffer: BytesMut
    var script: seq<Bytes>
    var readable: bool
    var eof: bool
    var errored: bool

    ghost function View(): Reader
      reads this, decoder, decoder.session, buffer
    {
      Reader(decoder.View(), buffer.data, script, readable, eof, errored)
    }

    constructor (script: seq<Bytes>)
      ensures fresh(decoder) && fresh(decoder.session) && fresh(buffer)
      ensures View() == FreshStream(script).inner
    {
      decoder := new ResponseDecoder();
      buffer := new BytesMut();
      this.script := script;
      readable, eof, errored := false, false, false;
    }

    method PollNext() returns (r: Polled)
      requires View().Valid()
      modifies this, decoder, decoder.session, buffer
      ensures (r, View()) == PollReader(old(View()))
    {
      hide StepDecode, StepEof, NoEmptyRead;
      if errored {
        readable, errored := false, false;
        return End;
      }
      while true
        invariant View().Valid() && !errored
        invariant PollReader(View()) == PollReader(old(View()))
        decreases |script|, !eof, readable
      {
        if readable {
          var o: Outcome;
          if eof {
            o := decoder.DecodeEof(buffer);
          } else {
            o := decoder.Decode(buffer);
          }
          match o
          case Produced(item) =>
            return Event.Item(AsData(item));
          case Failed(_) =>
            errored := true;
            return Broken(Io);
          case NeedMore =>
            readable := false;
            if eof {
              return End;
            }
        }
        if script != [] {
          buffer.ExtendFromSlice(script[0]);
          NextReads(script);
          script := script[1..];
          eof := false;
        } else {
          if eof {
            return End;
          }
          eof := true;
        }
        readable := true;
      }
    }
  }

  lemma NextReads(script: seq<Bytes>)
    requires script != [] && NoEmptyRead(script)
    ensures NoEmptyRead(script[1..])
  {
  }

  class ResponseFrameStream {
    const inner: FramedRead
    var done: bool

    ghost function View(): Stream
      reads this, inner, inner.decoder, inner.decoder.session, inner.buffer
    {
      Stream(inner.View(), done)
    }

    constructor (script: seq<Bytes>)
      ensures fresh(inner) && fresh(inner.decoder) && fresh(inner.decoder.session) && fresh(inner.buffer)
      ensures View() == FreshStream(script)
    {
      inner := new FramedRead(script);
      done := false;
    }

    method PollNext() returns (r: Polled)
      requires View().inner.Valid()
      modifies this, inner, inner.decoder, inner.decoder.session, inner.buffer
      ensures (r, View()) == PollStream(old(View()))
    {
      hide PollReader;
      if done {
        return End;
      }
      r := inner.PollNext();
      if r.Item? {
        var complete := inner.decoder.IsResponseComplete();
        if complete {
          done := true;
        }
      }
    }
  }

  // ----- a poll is the next step of draining all reads -----

  lemma DrainNext(c: Codec, buffer: Bytes, more: Bytes)
    requires c.Valid() && !StepDecode(c, buffer).outcome.NeedMore?
    ensures var s := StepDecode(c, buffer);
            match s.outcome
            case Produced(item) => Drain(c, buffer + more) == Prepend(c.body, item, Drain(s.codec, s.rest + more))
            case Failed(e) => Drain(c, buffer + more) == Trace([], [], [], s.codec, s.rest + more, Some(e))
            case NeedMore => true
  {
    var s := StepDecode(c, buffer);
    DrainSplit(c, buffer, more);
    if s.outcome.Produced? {
      hide StepDecode;
      DrainSplit(s.codec, s.rest, more);
      PrependExtend(c.body, s.outcome.item, Drain(s.codec, s.rest), more);
    }
  }

  /** Nothing was left undecoded in front of a read; at the end of the socket nothing more can be decoded. */
  ghost predicate Waiting(r: Reader) {
    && r.Valid() && !r.errored && (r.eof ==> r.readable)
    && (!r.readable || r.eof ==> StepDecode(r.codec, r.buffer).outcome.NeedMore?)
  }

  /** What the end of the socket makes of a decoder that waits for more. */
  function Ended(c: Codec): Codec {
    if c.body == UntilEof then c.(body := Done) else c
  }

  lemma EndOfWaiting(c: Codec, buffer: Bytes)
    requires c.Valid() && StepDecode(c, buffer).outcome.NeedMore?
    ensures StepDecode(c, buffer) == Step(NeedMore, c, buffer)
    ensures StepEof(c, buffer) == Step(NeedMore, Ended(c), buffer)
    ensures Drain(c, buffer) == Trace([], [], [], c, buffer, None)
  {
    NeedMoreKeeps(c, buffer);
  }

  /** What a poll says about the trace of everything still to come. */
  ghost predicate IsNext(e: Polled, r: Reader, next: Reader)
    requires r.Valid()
  {
    next.Valid() &&
    var all := Drain(r.codec, r.Pending());
    match e
    case Item(d) =>
      && !next.eof && next.readable && !next.errored
      && exists item: ResponseCodec.Item :: AsData(item) == d && all == Prepend(r.codec.body, item, Drain(next.codec, next.Pending()))
    case Broken(kind) => kind == Io && !next.eof && all.error.Some? && all.(codec := next.codec, rest := [], error := None) == Start(next.codec)
    case End => next.eof && all == Trace([], [], [], r.codec, r.Pending(), None) && next.codec == Ended(r.codec)
  }

  lemma ReadKeepsPending(r: Reader)
    requires r.script != []
    ensures r.(buffer := r.buffer + r.script[0], script := r.script[1..], readable := true, eof := false).Pending() == r.Pending()
  {
    assert r.buffer + (r.script[0] + Concat(r.script[1..])) == r.buffer + r.script[0] + Concat(r.script[1..]);
  }

  lemma {:induction false} PollIsNext(r: Reader)
    requires Waiting(r)
    ensures IsNext(PollReader(r).0, r, PollReader(r).1)
    decreases |r.script|, !r.eof, r.readable
  {
    if r.readable {
      if StepDecode(r.codec, r.buffer).outcome.NeedMore? {
        EndOfWaiting(r.codec, r.buffer);
        if !r.eof {
          PollIsNext(r.(readable := false));
        } else {
          assert r.buffer + [] == r.buffer;
        }
      } else {
        DrainNext(r.codec, r.buffer, Concat(r.script));
      }
    } else if r.script != [] {
      ReadKeepsPending(r);
      PollIsNext(r.(buffer := r.buffer + r.script[0], script := r.script[1..], readable := true, eof := false));
    } else {
      PollIsNext(r.(readable := true, eof := true));
    }
  }

  // ----- whole answers -----

  /** Poll until something other than an item comes out. */
  function ReadAnswer(s: Stream): (result: (seq<ParsedData<HttpFrame>>, Polled, Stream))
    requires s.inner.Valid()
    ensures result.2.inner.Valid() && !result.1.Item?
    decreases |s.inner.Pending()|
  {
    var (r, t) := PollStream(s);
    if r.Item? then
      var (items, end, u) := ReadAnswer(t);
      ([r.data] + items, end, u)
    else ([], r, t)
  }

  function PassedThrough(items: seq<ParsedData<HttpFrame>>): Bytes {
    if items == [] then []
    else (if items[0].Passthrough? then items[0].bytes else []) + PassedThrough(items[1..])
  }

  /** The items are a trace, and say how it ended; the end of the socket is read exactly when the trace is not complete. */
  ghost predicate Tells(items: seq<ParsedData<HttpFrame>>, end: Polled, atEnd: bool, all: Trace) {
    && Driver.Frames(items) == all.frames && PassedThrough(items) == all.body
    && end == (if all.error.Some? then Broken(Io) else End)
    && (atEnd <==> all.error.None? && all.codec.body != Done)
  }

  lemma TellsMore(b: BodyState, item: ResponseCodec.Item, items: seq<ParsedData<HttpFrame>>, end: Polled, atEnd: bool, all: Trace)
    requires Tells(items, end, atEnd, all)
    ensures Tells([AsData(item)] + items, end, atEnd, Prepend(b, item, all))
  {
    assert ([AsData(item)] + items)[1..] == items;
  }

  lemma {:induction false} AnswerIsTrace(s: Stream)
    requires Waiting(s.inner) && !s.done && s.inner.codec.body != Done
    ensures var (items, end, t) := ReadAnswer(s);
            Tells(items, end, t.inner.eof, Drain(s.inner.codec, s.inner.Pending()))
    decreases |s.inner.Pending()|
  {
    hide PollReader, StepDecode, Drain, Prepend, Tells;
    PollIsNext(s.inner);
    var (r, t) := PollStream(s);
    var all := Drain(s.inner.codec, s.inner.Pending());
    match r
    case Item(d) =>
      var item: ResponseCodec.Item :| AsData(item) == d && all == Prepend(s.inner.codec.body, item, Drain(t.inner.codec, t.inner.Pending()));
      var (items, end, u) := ReadAnswer(t);
      if t.done {
        NothingBehindDone(t.inner.codec, t.inner.Pending());
      } else {
        AnswerIsTrace(t);
      }
      TellsMore(s.inner.codec.body, item, items, end, u.inner.eof, Drain(t.inner.codec, t.inner.Pending()));
    case Broken(_) =>
      NothingTold(Broken(Io), false, all);
    case End =>
      NothingTold(End, true, all);
  }

  lemma NothingBehindDone(c: Codec, rest: Bytes)
    requires c.Valid() && c.body == Done
    ensures Tells([], End, false, Drain(c, rest))
  {
  }

  lemma NothingTold(end: Polled, atEnd: bool, all: Trace)
    requires all.frames == [] && all.body == []
    requires end == (if all.error.Some? then Broken(Io) else End) && (atEnd <==> all.error.None? && all.codec.body != Done)
    ensures Tells([], end, atEnd, all)
  {
  }

  /**
   * Whatever the reads look like, the driver is given the frames and the body bytes that the decoder makes of all
   * of them, and an error if that fails. The end of the socket is reached exactly when the decoder is not done by
   * then: an answer that is complete leaves its socket open, and one that is not ends without a word.
   */
  lemma AnswerOfReads(script: seq<Bytes>)
    requires NoEmptyRead(script)
    ensures var (items, end, t) := ReadAnswer(FreshStream(script));
            Tells(items, end, t.inner.eof, Drain(NewCodec(), Concat(script)))
  {
    var s := FreshStream(script);
    EmptyBufferNeedsMore(NewCodec());
    assert [] + Concat(script) == Concat(script);
    AnswerIsTrace(s);
  }
}
