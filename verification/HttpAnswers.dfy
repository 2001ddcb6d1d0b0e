/**
 * Which pooled connections are still open: the driver with its answer streams. Whoever releases a connection only
 * knows that the answer stream said it was over, and it says so at the end of the socket too.
 */
module HttpAnswers {
  import opened Common
  import opened Crlf
  import opened HttpFrames
  import opened Deriver
  import opened HttpDerive
  import opened Events
  import opened Driver
  import opened DriverSafety
  import opened HttpDriver
  import opened AnswerStream
  import opened Fragmentation
  import opened ChunkedBody
  import opened ResponseRoundTrip
  import opened Numbers
  import opened Hook
  import Matchers
  import ResponseCodec

  /** The response script of a cycle whose upstream socket delivers these reads and then ends. */
  function AnswerEvents(script: seq<Bytes>): seq<Event<HttpFrame>>
    requires NoEmptyRead(script)
  {
    StartIsValid(script);
    var (items, end, t) := ReadAnswer(FreshStream(script));
    AsItems(items) + [end]
  }

  lemma StartIsValid(script: seq<Bytes>)
    ensures NoEmptyRead(script) ==> FreshStream(script).inner.Valid()
  {
  }

  /** The end of the upstream socket was read before the answer stream ended. */
  predicate ReachesEnd(script: seq<Bytes>)
    requires NoEmptyRead(script)
  {
    StartIsValid(script);
    ReadAnswer(FreshStream(script)).2.inner.eof
  }

  /** What the decoder makes of everything the socket delivers. */
  function Decoding(script: seq<Bytes>): (t: Trace)
    ensures t.codec.Valid()
  {
    Drain(ResponseCodec.NewCodec(), Concat(script))
  }

  /** The answer is complete when the socket has delivered everything. */
  predicate AnswerDone(script: seq<Bytes>) {
    Decoding(script).codec.body == ResponseCodec.Done
  }

  lemma AnswerItems(script: seq<Bytes>) returns (m: nat)
    requires NoEmptyRead(script)
    ensures var events := AnswerEvents(script);
            && ResponseEnd(events, m) && m < |events|
            && Frames(Data(events[..m])) == Decoding(script).frames
            && (events[m].End? <==> Decoding(script).error.None?)
    ensures ReachesEnd(script) <==> Decoding(script).error.None? && !AnswerDone(script)
  {
    AnswerOfReads(script);
    var (items, end, t) := ReadAnswer(FreshStream(script));
    m := |items|;
    assert (AsItems(items) + [end])[..m] == AsItems(items);
  }

  lemma DeliveredExactly(cfg: Config<HttpFrame>, side: ResponseSide<HttpFrame>, w: World<HttpFrame>, m: nat)
    requires ResponseEnd(w.response, m) && m < |w.response|
    ensures var r := RelayItems(cfg, side, w.clientOk, w.response, [], 0);
            && (r.end == Delivered ==> w.response[m].End?)
            && (w.response[m].End? && (forall k: nat :: w.clientOk(k)) ==> r.end == Delivered)
  {
    var k := RelayContent(cfg, side, w.clientOk, w.response, [], 0);
    RelayWrites(cfg, side, w.clientOk, w.response, [], 0);
    hide RelayItems;
    if RelayItems(cfg, side, w.clientOk, w.response, [], 0).end != WriteFailed {
      EndReach(w.response, m, k);
      EndReach(w.response, k, m);
    }
  }

  /**
   * A cycle pools its connection exactly when there is a pool, everything was written and relayed, the request
   * derives keep-alive and the decoded answer does not list `close`. The connection that is pooled has reached
   * its end exactly when the decoder was not done by then.
   */
  lemma PooledIsOpenExactly(cfg: Config<HttpFrame>, w: World<HttpFrame>, first: bool, events: seq<Event<HttpFrame>>,
                            r: nat, n: nat, key: Bytes, dest: Dest, script: seq<Bytes>)
    requires UsesHook(cfg) && Authorised(cfg, w, events, r, n, dest) && Key(cfg, events[r].data) == Some(key)
    requires NoEmptyRead(script) && w.response == AnswerEvents(script)
    ensures var delivered := RelayItems(cfg, cfg.responses.value, w.clientOk, w.response, [], 0).end == Delivered;
            && (Release(key, dest) in RunCycle(cfg, w, first, events).effects <==>
                && cfg.pooled && w.upstreamOk && delivered
                && Mode(Frames(RequestItems(events, r, n))) == KeepAlive && !ListsClose(Decoding(script).frames))
            && (delivered ==> Decoding(script).error.None? && (ReachesEnd(script) <==> !AnswerDone(script)))
            && (Decoding(script).error.None? && (forall k: nat :: w.clientOk(k)) ==> delivered)
  {
    hide RunCycle, RelayItems, ReachesEnd, AnswerDone, Decoding, AnswerEvents, Mode, ListsClose, ResponseEnd, RawLength, Frames,
         Destination;
    var m := AnswerItems(script);
    DecodedIsAnswer(ResponseCodec.NewCodec(), Concat(script));
    DeliveredExactly(cfg, cfg.responses.value, w, m);
    IsDecoding(script);
    PooledExactly(cfg, w, first, events, r, n, m, key, dest, Frames(RequestItems(events, r, n)), Decoding(script).frames);
  }

  lemma IsDecoding(script: seq<Bytes>)
    ensures Decoding(script) == Drain(ResponseCodec.NewCodec(), Concat(script))
  {
  }

  // ----- when an answer is done -----

  /** The bytes behind a head complete what it announces. */
  ghost predicate CompletesFraming(framing: BodyFramingMode, rest: Bytes) {
    match framing
    case Fixed(n) => |rest| >= n
    case NoBody => true
    case Chunked => exists w, tail :: WellFormedBody(w) && rest == EncodeBody(w) + tail
    case UntilClose | Invalid => false
  }

  lemma CountedBody(c: ResponseCodec.Codec, rest: Bytes)
    requires c.Valid() && c.body.FixedLength?
    ensures Drain(c, rest).error.None? && (Drain(c, rest).codec.body == ResponseCodec.Done <==> |rest| >= c.body.remaining)
  {
    var n := c.body.remaining;
    if |rest| >= n {
      assert rest == rest[..n] + rest[n..];
      DrainContent(c, rest, rest[..n], c.(body := ResponseCodec.Done), rest[n..]);
    } else if rest == [] {
      EmptyBufferNeedsMore(c);
    } else {
      DrainUnfinished(c, rest);
    }
  }

  lemma BodyDone(c: ResponseCodec.Codec, framing: BodyFramingMode, rest: Bytes)
    requires c.Valid() && c.body == ResponseCodec.AfterHeaders(framing)
    ensures Drain(c, rest).codec.body == ResponseCodec.Done <==> CompletesFraming(framing, rest)
    ensures !framing.Chunked? ==> Drain(c, rest).error.None?
    ensures Drain(c, rest).frames == []
  {
    NoFramesInBody(c, rest);
    match framing
    case Fixed(n) =>
      if n > 0 {
        CountedBody(c, rest);
      }
    case NoBody =>
    case Chunked =>
      CompletesExactly(c, rest);
    case UntilClose | Invalid =>
      DrainOpenEnded(c, rest);
  }

  /**
   * The answer with this head is done exactly when its framing is completed: a counted body that has arrived, a
   * chunked one of the grammar, or none at all. A body that runs to the end of its connection never is.
   */
  lemma DoneByFraming(head: Response, rest: Bytes, script: seq<Bytes>)
    requires WellFormed(head) && Concat(script) == EncodeLines([head.status] + head.headers) + rest
    ensures AnswerDone(script) <==> CompletesFraming(AnnouncedFraming(head), rest)
    ensures Decoding(script).frames == HeadFrames(head.status, head.headers)
    ensures !AnnouncedFraming(head).Chunked? ==> Decoding(script).error.None?
  {
    HeadRoundTrip(head, rest);
    hide AnnouncedFraming, HeadFrames;
    BodyDone(AfterHead(head), AnnouncedFraming(head), rest);
    OnlyHeadFrames(HeadFrames(head.status, head.headers), Drain(AfterHead(head), rest));
  }

  // ----- pooled at its end -----

  /** Everything but the answer is in favour of pooling. */
  ghost predicate Poolable(cfg: Config<HttpFrame>, w: World<HttpFrame>, events: seq<Event<HttpFrame>>, r: nat, n: nat, key: Bytes, dest: Dest) {
    && UsesHook(cfg) && cfg.pooled && w.upstreamOk && (forall k: nat :: w.clientOk(k))
    && Authorised(cfg, w, events, r, n, dest) && Key(cfg, events[r].data) == Some(key)
    && Mode(Frames(RequestItems(events, r, n))) == KeepAlive
  }

  ghost predicate AsksToClose(headers: seq<Bytes>) {
    Lists(FirstHeader(Matchers.HeaderName(CONNECTION), headers), CLOSE)
  }

  /**
   * An answer that does not ask to close, and whose framing is not completed when its socket ends: the
   * connection is pooled although its end was reached.
   */
  lemma EndedIsPooled(cfg: Config<HttpFrame>, w: World<HttpFrame>, first: bool, events: seq<Event<HttpFrame>>,
                      r: nat, n: nat, key: Bytes, dest: Dest, head: Response, rest: Bytes, script: seq<Bytes>)
    requires Poolable(cfg, w, events, r, n, key, dest)
    requires WellFormed(head) && !AsksToClose(head.headers)
    requires !AnnouncedFraming(head).Chunked? && !CompletesFraming(AnnouncedFraming(head), rest)
    requires NoEmptyRead(script) && Concat(script) == EncodeLines([head.status] + head.headers) + rest
    requires w.response == AnswerEvents(script)
    ensures Release(key, dest) in RunCycle(cfg, w, first, events).effects && ReachesEnd(script)
  {
    hide RunCycle, RelayItems, ReachesEnd, AnswerDone, Decoding, AnswerEvents, Mode, Authorised, HeadFrames, AnnouncedFraming,
         CompletesFraming, Lists, FirstHeader, FirstHit, Lines;
    DoneByFraming(head, rest, script);
    PooledIsOpenExactly(cfg, w, first, events, r, n, key, dest, script);
    AnswerHeadCloses(head.status, head.headers);
    AnswerClosesExactly(HeadFrames(head.status, head.headers));
  }

  /** So is every HTTP/1.0 answer without a length, however it is cut: its body is over when its connection is. */
  lemma OpenEndedIsPooled(cfg: Config<HttpFrame>, w: World<HttpFrame>, first: bool, events: seq<Event<HttpFrame>>,
                          r: nat, n: nat, key: Bytes, dest: Dest, status: Bytes, headers: seq<Bytes>, rest: Bytes, script: seq<Bytes>)
    requires Poolable(cfg, w, events, r, n, key, dest)
    requires WellFormed(Response(status, headers, Nothing)) && ResponseRoundTrip.Http10(status) && Unframed(headers) && !AsksToClose(headers)
    requires NoEmptyRead(script) && Concat(script) == EncodeLines([status] + headers) + rest
    requires w.response == AnswerEvents(script)
    ensures Release(key, dest) in RunCycle(cfg, w, first, events).effects && ReachesEnd(script)
  {
    hide *;
    var head := Response(status, headers, Nothing);
    UnframedIsOpen(status, headers, rest);
    EndedIsPooled(cfg, w, first, events, r, n, key, dest, head, rest, script);
  }

  lemma UnframedIsOpen(status: Bytes, headers: seq<Bytes>, rest: Bytes)
    requires ResponseRoundTrip.Http10(status) && Unframed(headers)
    ensures var framing := AnnouncedFraming(Response(status, headers, Nothing)); !framing.Chunked? && !CompletesFraming(framing, rest)
  {
    FramingOfHead(Response(status, headers, Nothing));
    hide AnnouncedFraming, FirstHeader, Lists;
  }

  /** And so is every answer that announces more body bytes than its socket delivers. */
  lemma TruncatedIsPooled(cfg: Config<HttpFrame>, w: World<HttpFrame>, first: bool, events: seq<Event<HttpFrame>>,
                          r: nat, n: nat, key: Bytes, dest: Dest,
                          status: Bytes, headers: seq<Bytes>, value: Bytes, length: nat, rest: Bytes, script: seq<Bytes>)
    requires Poolable(cfg, w, events, r, n, key, dest)
    requires WellFormed(Response(status, headers, Nothing)) && !AsksToClose(headers)
    requires FirstHeader(Matchers.HeaderName(CONTENT_LENGTH), headers) == Some(value) && ResolveLength(value) == Fixed(length)
    requires !Lists(FirstHeader(Matchers.HeaderName(TRANSFER_ENCODING), headers), CHUNKED) && |rest| < length
    requires NoEmptyRead(script) && Concat(script) == EncodeLines([status] + headers) + rest
    requires w.response == AnswerEvents(script)
    ensures Release(key, dest) in RunCycle(cfg, w, first, events).effects && ReachesEnd(script)
  {
    hide *;
    CountedIsOpen(status, headers, value, length, rest);
    EndedIsPooled(cfg, w, first, events, r, n, key, dest, Response(status, headers, Nothing), rest, script);
  }

  lemma CountedIsOpen(status: Bytes, headers: seq<Bytes>, value: Bytes, length: nat, rest: Bytes)
    requires FirstHeader(Matchers.HeaderName(CONTENT_LENGTH), headers) == Some(value) && ResolveLength(value) == Fixed(length)
    requires !Lists(FirstHeader(Matchers.HeaderName(TRANSFER_ENCODING), headers), CHUNKED) && |rest| < length
    ensures var framing := AnnouncedFraming(Response(status, headers, Nothing)); !framing.Chunked? && !CompletesFraming(framing, rest)
  {
    hide AnnouncedFraming, FirstHeader, Lists, ResolveLength;
    FramingOfHead(Response(status, headers, Nothing));
  }

  /** A header is not found under a name of another length. */
  lemma OtherHeader(name: Bytes, value: Bytes, watched: Bytes)
    requires 0x3A !in name && |name| != |watched|
    ensures FirstHeader(Matchers.HeaderName(watched), [name + [0x3A] + value]) == None
  {
    var line := name + [0x3A] + value + CRLF;
    assert line == name + [0x3A] + (value + CRLF);
    MemchrSplits(0x3A, name, value + CRLF);
    assert [name + [0x3A] + value][1..] == [];
  }

  lemma PlainHeader(name: Bytes, value: Bytes)
    requires name != [] && CR !in name && CR !in value
    ensures Line(name + [0x3A] + value) && (name + [0x3A] + value)[0] == name[0]
  {
    var line := name + [0x3A] + value;
    assert forall i :: 0 <= i < |line| ==> line[i] in name || line[i] == 0x3A || line[i] in value;
  }

  function LoneLength(length: nat): Bytes {
    LengthHeader(CONTENT_LENGTH, [SP], 0, length, [])
  }

  lemma LoneLengthText(length: nat) returns (value: Bytes)
    ensures LoneLength(length) == CONTENT_LENGTH + [0x3A] + value && CR !in value
  {
    value := [SP] + (Zeros(0) + Digits(length, 10)) + [];
    assert forall c: nat :: IsDigit(c, 10) ==> c != CR;
    assert forall i :: 0 <= i < |Digits(length, 10)| ==> IsDigit(Digits(length, 10)[i], 10);
  }

  lemma LoneLengthIsRead(length: nat)
    requires length < USIZE_LIMIT
    ensures var value := FirstHeader(Matchers.HeaderName(CONTENT_LENGTH), [LoneLength(length)]);
            value.Some? && ResolveLength(value.value) == Fixed(length)
  {
    hide FirstHeader, ResolveLength, Matchers.TryMatch;
    SpelledLength([LoneLength(length)], 0, CONTENT_LENGTH, [SP], 0, length, []);
  }

  function ShortAnswer(status: Bytes, length: nat, rest: Bytes): seq<Event<HttpFrame>> {
    AnswerEvents([EncodeLines([status] + [LoneLength(length)]) + rest])
  }

  /** Concretely: any status line, one Content-Length, and fewer bytes behind the head than it says. */
  lemma ShortAnswerIsPooled(cfg: Config<HttpFrame>, w: World<HttpFrame>, first: bool, events: seq<Event<HttpFrame>>,
                            r: nat, n: nat, key: Bytes, dest: Dest, status: Bytes, length: nat, rest: Bytes)
    requires Poolable(cfg, w, events, r, n, key, dest)
    requires Line(status) && |rest| < length < USIZE_LIMIT
    requires w.response == ShortAnswer(status, length, rest)
    ensures Release(key, dest) in RunCycle(cfg, w, first, events).effects
    ensures ReachesEnd([EncodeLines([status] + [LoneLength(length)]) + rest])
  {
    hide *;
    var headers, script := [LoneLength(length)], [EncodeLines([status] + [LoneLength(length)]) + rest];
    ShortAnswerHead(status, length, rest);
    var value := LoneLengthResponse(status, length);
    TruncatedIsPooled(cfg, w, first, events, r, n, key, dest, status, headers, value, length, rest, script);
  }

  lemma ShortAnswerHead(status: Bytes, length: nat, rest: Bytes)
    ensures var script := [EncodeLines([status] + [LoneLength(length)]) + rest];
            && NoEmptyRead(script) && Concat(script) == EncodeLines([status] + [LoneLength(length)]) + rest
            && ShortAnswer(status, length, rest) == AnswerEvents(script)
  {
    var all := EncodeLines([status] + [LoneLength(length)]) + rest;
    assert all + [] == all;
  }

  /** A response whose only header is a Content-Length. */
  lemma LoneLengthResponse(status: Bytes, length: nat) returns (value: Bytes)
    requires Line(status) && length < USIZE_LIMIT
    ensures var headers := [LoneLength(length)];
            && WellFormed(Response(status, headers, Nothing)) && !AsksToClose(headers)
            && FirstHeader(Matchers.HeaderName(CONTENT_LENGTH), headers) == Some(value) && ResolveLength(value) == Fixed(length)
            && !Lists(FirstHeader(Matchers.HeaderName(TRANSFER_ENCODING), headers), CHUNKED)
  {
    hide FirstHeader, ResolveLength, LoneLength, Line;
    var text := LoneLengthText(length);
    OtherHeader(CONTENT_LENGTH, text, CONNECTION);
    OtherHeader(CONTENT_LENGTH, text, TRANSFER_ENCODING);
    PlainHeader(CONTENT_LENGTH, text);
    LoneLengthIsRead(length);
    value := FirstHeader(Matchers.HeaderName(CONTENT_LENGTH), [LoneLength(length)]).value;
  }
}
