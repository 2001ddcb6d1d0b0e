/**
 * Draining the response decoder. However the bytes of a response are cut into reads, the frames,
 * the body bytes, the payload, the final state or error and the unread bytes are the same.
 */
module Fragmentation {
  import opened Common
  import opened Crlf
  import opened HttpFrames
  import opened HttpDerive
  import opened Matchers
  import opened ResponseCodec

  /**
   * What an observer has seen: the frames, the body bytes (chunk framing included), the bytes that
   * were emitted as content, and where the decoder and its buffer ended up.
   */
  datatype Trace = Trace(
    frames: seq<HttpFrame>,
    body: Bytes,
    payload: Bytes,
    codec: Codec,
    rest: Bytes,
    error: Option<DecodeError>)

  /** States whose items are content rather than framing. */
  predicate CarriesPayload(b: BodyState) {
    b.FixedLength? || b.UntilEof? || (b.InChunks? && b.state.Data?)
  }

  function Payload(b: BodyState, item: Item): Bytes {
    if item.BodyItem? && CarriesPayload(b) then item.bytes else []
  }

  function Start(c: Codec): Trace {
    Trace([], [], [], c, [], None)
  }

  /** `item`, produced in body state `b`, and then everything in `t`. */
  function Prepend(b: BodyState, item: Item, t: Trace): Trace {
    match item
    case FrameItem(f) => t.(frames := [f] + t.frames)
    case BodyItem(bytes) => t.(body := bytes + t.body, payload := Payload(b, item) + t.payload)
  }

  /** Decode until the decoder asks for more or fails. */
  function Drain(c: Codec, src: Bytes): (t: Trace)
    requires c.Valid()
    ensures t.codec.Valid()
    decreases |src|
  {
    var s := StepDecode(c, src);
    match s.outcome
    case NeedMore => Trace([], [], [], s.codec, s.rest, None)
    case Failed(e) => Trace([], [], [], s.codec, s.rest, Some(e))
    case Produced(item) => Prepend(c.body, item, Drain(s.codec, s.rest))
  }

  function Join(t: Trace, u: Trace): Trace {
    Trace(t.frames + u.frames, t.body + u.body, t.payload + u.payload, u.codec, u.rest, u.error)
  }

  /** One more read: after an error the bytes stay where they are, otherwise draining goes on. */
  function Extend(t: Trace, read: Bytes): (r: Trace)
    requires t.codec.Valid()
    ensures r.codec.Valid()
  {
    if t.error.Some? then t.(rest := t.rest + read)
    else Join(t, Drain(t.codec, t.rest + read))
  }

  function ExtendAll(t: Trace, pieces: seq<Bytes>): (r: Trace)
    requires t.codec.Valid()
    ensures r.codec.Valid()
  {
    if pieces == [] then t else Extend(ExtendAll(t, pieces[..|pieces| - 1]), pieces[|pieces| - 1])
  }

  // ----- one step against a longer buffer -----

  /** Outside counted and open-ended bodies a step does not look past what it consumes. */
  lemma StepIgnoresMore(c: Codec, a: Bytes, b: Bytes)
    requires c.Valid() && !CarriesPayload(c.body) && !StepDecode(c, a).outcome.NeedMore?
    ensures var s := StepDecode(c, a);
            StepDecode(c, a + b) == Step(s.outcome, s.codec, s.rest + b)
  {
    hide FindCrlf, ChunkSize, FeedStatusLine, ResolveAll, AfterHeaders;
    if FindCrlf(a).Some? {
      FindCrlfExtends(a, b);
      var pos := FindCrlf(a).value;
      assert (a + b)[..pos + 2] == a[..pos + 2];
      assert (a + b)[..pos] == a[..pos];
      assert (a + b)[pos + 2..] == a[pos + 2..] + b;
    }
    if |a| >= 2 {
      assert (a + b)[..2] == a[..2];
      assert (a + b)[2..] == a[2..] + b;
    }
  }

  lemma NeedMoreKeeps(c: Codec, a: Bytes)
    requires c.Valid() && StepDecode(c, a).outcome.NeedMore?
    ensures StepDecode(c, a) == Step(NeedMore, c, a)
  {
  }

  /** How much a content state takes from a non-empty buffer. */
  function TakenFrom(b: BodyState, n: nat): nat
    requires CarriesPayload(b)
  {
    match b
    case FixedLength(remaining) => Min(remaining, n)
    case InChunks(state) => Min(state.remaining, n)
    case UntilEof => n
  }

  function AfterTaking(b: BodyState, k: nat): BodyState
    requires CarriesPayload(b)
    requires k <= TakenFrom(b, k)
  {
    match b
    case FixedLength(remaining) => if remaining == k then Done else FixedLength(remaining - k)
    case InChunks(state) => InChunks(if state.remaining == k then ExpectDataCrlf else Data(state.remaining - k))
    case UntilEof => UntilEof
  }

  lemma ContentStep(c: Codec, a: Bytes)
    requires c.Valid() && CarriesPayload(c.body) && a != []
    ensures var k := TakenFrom(c.body, |a|);
            && 0 < k <= |a|
            && StepDecode(c, a) == Step(Produced(BodyItem(a[..k])), c.(body := AfterTaking(c.body, k)), a[k..])
  {
    assert a[..|a|] == a && a[|a|..] == [];
  }

  lemma DrainContent(c: Codec, a: Bytes, head: Bytes, end: Codec, tail: Bytes)
    requires c.Valid() && CarriesPayload(c.body) && a != []
    requires a == head + tail && |head| == TakenFrom(c.body, |a|)
    requires end == c.(body := AfterTaking(c.body, |head|))
    ensures end.Valid()
    ensures Drain(c, a) == Prepend(c.body, BodyItem(head), Drain(end, tail))
  {
    ContentStep(c, a);
    assert a[..|head|] == head && a[|head|..] == tail;
  }

  lemma JoinNothing(t: Trace)
    ensures forall c, rest, e :: Join(t, Trace([], [], [], c, rest, e)) == Trace(t.frames, t.body, t.payload, c, rest, e)
  {
    assert t.frames + [] == t.frames && t.body + [] == t.body && t.payload + [] == t.payload;
  }

  lemma PrependJoin(b: BodyState, item: Item, t: Trace, u: Trace)
    ensures Join(Prepend(b, item, t), u) == Prepend(b, item, Join(t, u))
  {
    match item
    case FrameItem(f) => assert [f] + t.frames + u.frames == [f] + (t.frames + u.frames);
    case BodyItem(bytes) =>
      assert bytes + t.body + u.body == bytes + (t.body + u.body);
      assert Payload(b, item) + t.payload + u.payload == Payload(b, item) + (t.payload + u.payload);
  }

  lemma PrependExtend(b: BodyState, item: Item, t: Trace, more: Bytes)
    requires t.codec.Valid()
    ensures Extend(Prepend(b, item, t), more) == Prepend(b, item, Extend(t, more))
  {
    if t.error.None? {
      PrependJoin(b, item, t, Drain(t.codec, t.rest + more));
    }
  }

  /** The decoder used up its buffer in the middle of a body. */
  predicate Unfinished(c: Codec, n: nat) {
    && CarriesPayload(c.body) && TakenFrom(c.body, n) == n
    && AfterTaking(c.body, n) != Done && AfterTaking(c.body, n) != InChunks(ExpectDataCrlf)
  }

  lemma DrainUnfinished(c: Codec, a: Bytes)
    requires c.Valid() && a != [] && Unfinished(c, |a|)
    ensures var mid := c.(body := AfterTaking(c.body, |a|));
            mid.Valid() && Drain(c, a) == Trace([], a, a, mid, [], None)
  {
    assert a + [] == a;
    DrainContent(c, a, a, c.(body := AfterTaking(c.body, |a|)), []);
  }

  lemma PrependTwice(b: BodyState, b': BodyState, x: Bytes, y: Bytes, t: Trace)
    requires CarriesPayload(b) && CarriesPayload(b')
    ensures Prepend(b, BodyItem(x), Prepend(b', BodyItem(y), t)) == Prepend(b, BodyItem(x + y), t)
  {
    assert x + (y + t.body) == x + y + t.body;
    assert x + (y + t.payload) == x + y + t.payload;
  }

  /** Taking `n` bytes and then `k` more is taking `n + k` at once. */
  lemma TakingAdds(c: Codec, n: nat, m: nat)
    requires c.Valid() && n > 0 && m > 0 && Unfinished(c, n)
    ensures var mid := AfterTaking(c.body, n);
            && c.(body := mid).Valid() && CarriesPayload(mid)
            && TakenFrom(c.body, n + m) == n + TakenFrom(mid, m)
            && c.(body := AfterTaking(c.body, n + TakenFrom(mid, m))) ==
               c.(body := mid).(body := AfterTaking(mid, TakenFrom(mid, m)))
  {
  }

  lemma CutBehind(a: Bytes, b: Bytes, k: nat)
    requires k <= |b|
    ensures b == b[..k] + b[k..] && a + b == a + b[..k] + b[k..]
  {
  }

  lemma TakesAcross(c: Codec, a: Bytes, b: Bytes, mid: Codec, k: nat)
    requires c.Valid() && a != [] && b != [] && Unfinished(c, |a|)
    requires mid == c.(body := AfterTaking(c.body, |a|))
    requires CarriesPayload(mid.body) ==> k == TakenFrom(mid.body, |b|)
    ensures mid.Valid() && CarriesPayload(mid.body) && k <= |b|
    ensures |a + b[..k]| == TakenFrom(c.body, |a + b|)
    ensures mid.(body := AfterTaking(mid.body, |b[..k]|)) == c.(body := AfterTaking(c.body, |a + b[..k]|))
  {
    TakingAdds(c, |a|, |b|);
  }

  /** A content state that used up the whole first read goes on as if both reads had come at once. */
  lemma ContentAcrossReads(c: Codec, a: Bytes, b: Bytes, mid: Codec)
    requires c.Valid() && a != [] && b != [] && Unfinished(c, |a|)
    requires mid == c.(body := AfterTaking(c.body, |a|)) && mid.Valid()
    ensures Prepend(c.body, BodyItem(a), Drain(mid, b)) == Drain(c, a + b)
  {
    TakingAdds(c, |a|, |b|);
    var k := TakenFrom(mid.body, |b|);
    TakesAcross(c, a, b, mid, k);
    var head, tail := b[..k], b[k..];
    var end := mid.(body := AfterTaking(mid.body, |head|));
    CutBehind(a, b, k);
    DrainContent(mid, b, head, end, tail);
    DrainContent(c, a + b, a + head, end, tail);
    PrependTwice(c.body, mid.body, a, head, Drain(end, tail));
  }

  lemma UnfinishedSplit(c: Codec, a: Bytes, b: Bytes)
    requires c.Valid() && a != [] && Unfinished(c, |a|)
    ensures Extend(Drain(c, a), b) == Drain(c, a + b)
  {
    DrainUnfinished(c, a);
    var mid := c.(body := AfterTaking(c.body, |a|));
    assert [] + b == b;
    if b == [] {
      assert a + b == a;
      EmptyBufferNeedsMore(mid);
      JoinNothing(Drain(c, a));
    } else {
      ContentAcrossReads(c, a, b, mid);
    }
  }

  /** Draining one read and then the next is draining both together. */
  lemma {:induction false} DrainSplit(c: Codec, a: Bytes, b: Bytes)
    requires c.Valid()
    ensures Extend(Drain(c, a), b) == Drain(c, a + b)
    decreases |a|
  {
    var s := StepDecode(c, a);
    if s.outcome.NeedMore? {
      NeedMoreKeeps(c, a);
      var u := Drain(c, a + b);
      assert [] + u.frames == u.frames && [] + u.body == u.body && [] + u.payload == u.payload;
    } else if !CarriesPayload(c.body) {
      StepIgnoresMore(c, a, b);
      if s.outcome.Produced? {
        DrainSplit(s.codec, s.rest, b);
        PrependExtend(c.body, s.outcome.item, Drain(s.codec, s.rest), b);
      }
    } else {
      ContentStep(c, a);
      var k := TakenFrom(c.body, |a|);
      if Unfinished(c, |a|) {
        UnfinishedSplit(c, a, b);
      } else {
        assert k == TakenFrom(c.body, |a + b|);
        ContentStep(c, a + b);
        assert (a + b)[..k] == a[..k] && (a + b)[k..] == a[k..] + b;
        DrainSplit(s.codec, s.rest, b);
        PrependExtend(c.body, s.outcome.item, Drain(s.codec, s.rest), b);
      }
    }
  }

  lemma EmptyBufferNeedsMore(c: Codec)
    requires c.Valid()
    ensures Drain(c, []) == Start(c)
  {
    assert FindCrlf([]).None?;
  }

  /** Every way of cutting a byte string into reads decodes like the whole string. */
  lemma {:induction false} FragmentationInvariance(c: Codec, pieces: seq<Bytes>)
    requires c.Valid()
    ensures ExtendAll(Start(c), pieces) == Drain(c, Concat(pieces))
  {
    EmptyBufferNeedsMore(c);
    if pieces != [] {
      var init, last := pieces[..|pieces| - 1], pieces[|pieces| - 1];
      assert pieces == init + [last];
      ConcatSnoc(init, last);
      FragmentationInvariance(c, init);
      DrainSplit(c, Concat(init), last);
    }
  }

  // ----- the end of the connection -----

  function DrainEof(c: Codec, src: Bytes): (t: Trace)
    requires c.Valid()
    ensures t.codec.Valid()
    decreases |src|
  {
    var s := StepEof(c, src);
    match s.outcome
    case NeedMore => Trace([], [], [], s.codec, s.rest, None)
    case Failed(e) => Trace([], [], [], s.codec, s.rest, Some(e))
    case Produced(item) => Prepend(c.body, item, DrainEof(s.codec, s.rest))
  }

  /** The connection ends after everything in `t` was decoded. */
  function Finish(t: Trace): (r: Trace)
    requires t.codec.Valid()
    ensures r.codec.Valid()
  {
    if t.error.Some? then t else Join(t, DrainEof(t.codec, t.rest))
  }

  /** A drained decoder would still ask for more, unless it failed; an open-ended body left nothing behind. */
  lemma {:induction false} DrainedNeedsMore(c: Codec, src: Bytes)
    requires c.Valid()
    ensures var t := Drain(c, src);
            && (t.error.None? ==> StepDecode(t.codec, t.rest).outcome.NeedMore?)
            && (t.error.None? && t.codec.body.UntilEof? ==> t.rest == [])
    decreases |src|
  {
    var s := StepDecode(c, src);
    if s.outcome.Produced? {
      DrainedNeedsMore(s.codec, s.rest);
    }
  }

  lemma FinishIdle(t: Trace)
    requires t.codec.Valid() && t.error.None?
    requires StepDecode(t.codec, t.rest).outcome.NeedMore?
    requires t.codec.body.UntilEof? ==> t.rest == []
    ensures Finish(t) == if t.codec.body == UntilEof then t.(codec := t.codec.(body := Done)) else t
  {
    JoinNothing(t);
    NeedMoreKeeps(t.codec, t.rest);
  }

  /**
   * The end of the connection adds nothing to what was decoded; it only completes an open-ended
   * body. A truncated length or chunk stays incomplete, without an error.
   */
  lemma FinishOnlyCompletes(c: Codec, src: Bytes)
    requires c.Valid()
    ensures var t := Drain(c, src);
            Finish(t) == if t.error.None? && t.codec.body == UntilEof then t.(codec := t.codec.(body := Done)) else t
  {
    DrainedNeedsMore(c, src);
    if Drain(c, src).error.None? {
      FinishIdle(Drain(c, src));
    }
  }

  // ----- conservation -----

  lemma {:induction false} NoFramesInBody(c: Codec, src: Bytes)
    requires c.Valid() && c.body != Headers
    ensures Drain(c, src).frames == [] && Drain(c, src).codec.body != Headers
    decreases |src|
  {
    var s := StepDecode(c, src);
    if s.outcome.Produced? {
      NoFramesInBody(s.codec, s.rest);
    }
  }

  /** Bytes an item puts on the wire again. */
  function ItemBytes(item: Item): Bytes {
    match item
    case FrameItem(f) => f.data
    case BodyItem(bytes) => bytes
  }

  /** The bytes a step gives out are the ones it takes from the buffer. */
  ghost predicate Conserves(c: Codec, src: Bytes, s: Step) {
    var k := |src| - |s.rest|;
    && 0 <= k && s.rest == src[k..]
    && (s.outcome.Produced? ==> k > 0 && ItemBytes(s.outcome.item) == src[..k])
    && (s.outcome.Produced? && s.outcome.item.BodyItem? ==> s.codec.body != Headers)
    && (!s.outcome.Produced? ==> k == 0 && s.codec == c)
  }

  lemma HeadersConserve(c: Codec, src: Bytes)
    requires c.Valid()
    ensures Conserves(c, src, StepHeaders(c, src))
  {
    hide FindCrlf, FeedStatusLine, ResolveAll;
    if FindCrlf(src) == Some(0) {
      assert src[..2] == CRLF;
    }
  }

  lemma ChunksConserve(c: Codec, src: Bytes)
    requires c.Valid() && c.body.InChunks?
    ensures Conserves(c, src, StepChunked(c, src))
  {
    hide FindCrlf, ChunkSize;
  }

  /** A step emits exactly the bytes it removes; a failed or waiting step removes none. */
  lemma StepConserves(c: Codec, src: Bytes)
    requires c.Valid()
    ensures Conserves(c, src, StepDecode(c, src))
  {
    match c.body
    case Headers =>
      HeadersConserve(c, src);
    case InChunks(_) =>
      ChunksConserve(c, src);
    case UntilEof =>
      assert src[..|src|] == src && src[|src|..] == [];
    case _ =>
  }

  /** Decoding fails exactly on a folded header line, and on a chunk-size line that announces no size. */
  lemma FailsExactly(c: Codec, src: Bytes)
    requires c.Valid()
    ensures StepDecode(c, src).outcome.Failed? <==>
            exists pos: nat :: FirstCrlf(src, pos) &&
              match c.body
              case Headers => 0 < pos && !c.firstLine && IsOws(src[0])
              case InChunks(ExpectSize) => forall n :: ChunkSize(src[..pos]) != Size(n)
              case _ => false
  {
    hide FindCrlf, ChunkSize, FeedStatusLine, ResolveAll, AfterHeaders;
    if FindCrlf(src).Some? {
      var pos := FindCrlf(src).value;
      forall i: nat | FirstCrlf(src, i) ensures i == pos {
        FirstCrlfUnique(src, i);
      }
    }
  }

  /** A response decodes to a status line, headers and the end of the head; nothing else becomes a frame. */
  lemma {:induction false} FramePhases(c: Codec, src: Bytes)
    requires c.Valid()
    ensures forall f :: f in Drain(c, src).frames ==> f.phase in {StatusLine, HttpPhase.Header, EndOfHeaders} && !f.routing
    decreases |src|
  {
    hide FindCrlf, ChunkSize, FeedStatusLine, ResolveAll, AfterHeaders;
    var s := StepDecode(c, src);
    if s.outcome.Produced? {
      FramePhases(s.codec, s.rest);
    }
  }

  /** Everything a trace accounts for, in order. */
  function Emitted(t: Trace): Bytes {
    FrameBytes(t.frames) + t.body + t.rest
  }

  lemma PrependConserves(b: BodyState, item: Item, u: Trace)
    requires item.BodyItem? ==> u.frames == []
    ensures var t := Prepend(b, item, u);
            Emitted(t) == ItemBytes(item) + Emitted(u)
  {
    match item
    case FrameItem(f) =>
      assert ([f] + u.frames)[1..] == u.frames;
    case BodyItem(bytes) =>
  }

  /** Frames, body and leftover are the input again: nothing is lost, added or moved. */
  lemma {:induction false} DrainConserves(c: Codec, src: Bytes)
    requires c.Valid()
    ensures Emitted(Drain(c, src)) == src
    decreases |src|
  {
    StepConserves(c, src);
    var s := StepDecode(c, src);
    if s.outcome.Produced? {
      DrainConserves(s.codec, s.rest);
      if s.outcome.item.BodyItem? {
        NoFramesInBody(s.codec, s.rest);
      }
      PrependConserves(c.body, s.outcome.item, Drain(s.codec, s.rest));
    }
  }

  /** A complete response, or a failed decoder, leaves every later byte alone. */
  lemma DoneIsAbsorbing(t: Trace, more: Bytes)
    requires t.codec.Valid()
    requires t.error.Some? || t.codec.body == Done
    ensures Extend(t, more) == t.(rest := t.rest + more)
  {
    JoinNothing(t);
  }

  // ----- the decoder behind a socket -----

  /** `FramedRead` around the decoder: a buffer that reads append to, drained after each of them. */
  class ResponseReader {
    const decoder: ResponseDecoder
    const buffer: BytesMut
    var frames: seq<HttpFrame>
    var body: Bytes
    var payload: Bytes
    var error: Option<DecodeError>

    ghost predicate Valid()
      reads this, decoder, decoder.session
    {
      decoder.Valid()
    }

    ghost function View(): Trace
      reads this, decoder, decoder.session, buffer
    {
      Trace(frames, body, payload, decoder.View(), buffer.data, error)
    }

    constructor ()
      ensures Valid() && fresh(decoder) && fresh(decoder.session) && fresh(buffer)
      ensures View() == Start(NewCodec())
    {
      decoder := new ResponseDecoder();
      buffer := new BytesMut();
      frames, body, payload, error := [], [], [], None;
    }

    method Feed(read: Bytes)
      requires Valid()
      modifies this, decoder, decoder.session, buffer
      ensures Valid()
      ensures View() == Extend(old(View()), read)
    {
      buffer.ExtendFromSlice(read);
      if error.Some? {
        return;
      }
      ghost var goal := Extend(old(View()), read);
      while true
        invariant Valid() && error.None?
        invariant goal == Join(View(), Drain(decoder.View(), buffer.data))
        decreases |buffer.data|
      {
        ghost var t, c, src := View(), decoder.View(), buffer.data;
        ghost var s := StepDecode(c, src);
        var state := decoder.bodyState;
        var r := decoder.Decode(buffer);
        match r
        case NeedMore =>
          assert goal == Join(t, Trace([], [], [], s.codec, s.rest, None));
          return;
        case Failed(e) =>
          error := Some(e);
          return;
        case Produced(item) =>
          match item {
            case FrameItem(f) =>
              frames := frames + [f];
            case BodyItem(bytes) =>
              body := body + bytes;
              payload := payload + if CarriesPayload(state) then bytes else [];
          }
          JoinSnoc(t, state, item, View(), Drain(s.codec, s.rest));
      }
    }

    /** Any schedule of reads leaves the reader where decoding the whole response at once would. */
    method Run(pieces: seq<Bytes>)
      requires Valid() && View() == Start(NewCodec())
      modifies this, decoder, decoder.session, buffer
      ensures Valid()
      ensures View() == Drain(NewCodec(), Concat(pieces))
    {
      for i := 0 to |pieces|
        invariant Valid()
        invariant View() == ExtendAll(Start(NewCodec()), pieces[..i])
      {
        assert pieces[..i + 1][..i] == pieces[..i];
        Feed(pieces[i]);
      }
      assert pieces[..|pieces|] == pieces;
      FragmentationInvariance(NewCodec(), pieces);
    }
  }

  lemma JoinSnoc(t: Trace, b: BodyState, item: Item, t': Trace, u: Trace)
    requires t'.frames == t.frames + (if item.FrameItem? then [item.frame] else [])
    requires t'.body == t.body + (if item.BodyItem? then item.bytes else [])
    requires t'.payload == t.payload + Payload(b, item)
    ensures Join(t, Prepend(b, item, u)) == Join(t', u)
  {
    match item
    case FrameItem(f) =>
      assert t.frames + ([f] + u.frames) == t'.frames + u.frames;
    case BodyItem(bytes) =>
      assert t.body + (bytes + u.body) == t'.body + u.body;
      assert t.payload + (Payload(b, item) + u.payload) == t'.payload + u.payload;
  }
}
