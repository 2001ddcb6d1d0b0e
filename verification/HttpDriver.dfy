/** The driver with the HTTP hook in it: which requests an HTTP proxy lets through. */
module HttpDriver {
  import opened Common
  import opened HttpFrames
  import opened Deriver
  import opened HttpDerive
  import opened Hook
  import opened Events
  import opened Driver
  import opened DriverSafety
  import Matchers
  import Fragmentation
  import ResponseCodec
  import ResponseRoundTrip

  /** The hook's verdict as the driver sees it. */
  function HookError(frames: seq<HttpFrame>): Option<ErrorKind> {
    if Validate(SessionAfter(Lines(frames))) == Accepted then None else Some(ParseError)
  }

  function HookCloses(frames: seq<HttpFrame>): bool {
    WantsClose(SessionAfter(Lines(frames)))
  }

  /** The hook checks requests, and may ask to close after a request or after a response. */
  ghost predicate UsesHook(cfg: Config<HttpFrame>) {
    && cfg.responses.Some? && cfg.responses.value.closes.Some?
    && forall frames :: HookAt(cfg, frames)
  }

  predicate HookAt(cfg: Config<HttpFrame>, frames: seq<HttpFrame>)
    requires cfg.responses.Some? && cfg.responses.value.closes.Some?
  {
    && cfg.validate(frames) == HookError(frames)
    && cfg.closes(frames) == cfg.responses.value.closes.value(frames) == HookCloses(frames)
  }

  /** The separator between head and body is not a routing frame. */
  predicate NoKeyAtEnd(cfg: Config<HttpFrame>) {
    cfg.keyOf(END_OF_HEADERS).None?
  }

  /** Requests are routed by the bytes of their routing frame. */
  ghost predicate KeyedByFrame(cfg: Config<HttpFrame>) {
    forall f: HttpFrame :: KeyAt(cfg, f)
  }

  predicate KeyAt(cfg: Config<HttpFrame>, f: HttpFrame) {
    cfg.keyOf(f) == if f.routing then Some(f.data) else None
  }

  /** An HTTP proxy: any header rewriting, any limits, with response parsing and hooks on both sides. */
  function HttpConfig(
    process: HttpFrame -> HttpFrame, processResponse: HttpFrame -> HttpFrame,
    maxPreRoute: nat, maxPostRoute: nat, errorBytes: Option<Failure -> Bytes>, pooled: bool): (cfg: Config<HttpFrame>)
    ensures UsesHook(cfg) && NoKeyAtEnd(cfg) && KeyedByFrame(cfg)
  {
    Config(
      (f: HttpFrame) => f.data, (f: HttpFrame) => f.RoutingKey(), process,
      (frames: seq<HttpFrame>) => HookError(frames), (frames: seq<HttpFrame>) => HookCloses(frames),
      maxPreRoute, maxPostRoute, errorBytes,
      Some(ResponseSide(processResponse, Some((frames: seq<HttpFrame>) => HookCloses(frames)))), pooled)
  }

  /** Two header lines of the request give header `name` different values. */
  ghost predicate Contradicts(name: Bytes, frames: seq<HttpFrame>) {
    Disagree(Matchers.HeaderName(name), Lines(frames))
  }

  /**
   * Whatever goes upstream, on any connection, under any script of the client, the router and the
   * upstream, is the request its cycle starts with, and the parsed frames of that request do not carry
   * both Content-Length and Transfer-Encoding, nor two different values of either, or of Connection.
   * Bytes passed through behind the head are not inspected (`HttpForwarding.UncheckedExactly`).
   */
  lemma NothingAmbiguousGoesUpstream(cfg: Config<HttpFrame>, world: nat -> World<HttpFrame>, events: seq<Event<HttpFrame>>,
                                     dest: Dest, bytes: Bytes)
    returns (j: nat, skipped: nat, r: nat, n: nat)
    requires UsesHook(cfg)
    requires Upstream(dest, bytes) in AllEffects(Run(cfg, world, events))
    ensures var cs := Run(cfg, world, events);
            && j < |cs| && skipped == Offset(cs, j) <= |events|
            && cs[j] == RunCycle(cfg, world(j), j == 0, events[skipped..])
            && OneUpstream(cs[j].effects, Upstream(dest, bytes))
    ensures Authorised(cfg, world(j), events[skipped..], r, n, dest)
    ensures bytes == Outgoing(cfg, RequestItems(events[skipped..], r, n))
    ensures Unambiguous(Frames(RequestItems(events[skipped..], r, n)))
  {
    hide RunCycle, Run;
    j, skipped, r, n := ConnectionUpstreamSafety(cfg, world, events, dest, bytes);
    assert HookAt(cfg, Frames(RequestItems(events[skipped..], r, n)));
    AcceptedIsUnambiguous(Frames(RequestItems(events[skipped..], r, n)));
  }

  ghost predicate Unambiguous(frames: seq<HttpFrame>) {
    && !(Present(CONTENT_LENGTH, Lines(frames)) && Present(TRANSFER_ENCODING, Lines(frames)))
    && !Contradicts(CONTENT_LENGTH, frames) && !Contradicts(TRANSFER_ENCODING, frames) && !Contradicts(CONNECTION, frames)
  }

  lemma AcceptedIsUnambiguous(frames: seq<HttpFrame>)
    requires HookError(frames).None?
    ensures Unambiguous(frames)
  {
    ValidateMeaning(Lines(frames));
  }

  // ----- which upstream connections are pooled -----

  ghost function Mode(frames: seq<HttpFrame>): ConnectionMode {
    DerivedFrom(Lines(frames)).connection
  }

  /**
   * A connection that is pooled has carried the request its cycle starts with, and everything in front of the
   * end of the response stream was relayed; both derive keep-alive. Whether that end was the end of the answer
   * or the end of the connection is `HttpAnswers.PooledIsOpenExactly`.
   */
  lemma OnlyKeepAliveIsPooled(cfg: Config<HttpFrame>, w: World<HttpFrame>, first: bool, events: seq<Event<HttpFrame>>, key: Bytes, dest: Dest)
    returns (r: nat, n: nat, m: nat, request: seq<HttpFrame>, answer: seq<HttpFrame>)
    requires UsesHook(cfg)
    requires Release(key, dest) in RunCycle(cfg, w, first, events).effects
    ensures Mode(request) == KeepAlive && Mode(answer) == KeepAlive
    ensures Exchange(cfg, w, events, RunCycle(cfg, w, first, events).effects, key, dest, r, n, m)
    ensures request == Frames(RequestItems(events, r, n)) && answer == Frames(Data(w.response[..m]))
  {
    hide RunCycle, Outgoing;
    r, n, m := ReleasedExchange(cfg, w, first, events, key, dest);
    request, answer := Frames(RequestItems(events, r, n)), Frames(Data(w.response[..m]));
    assert HookAt(cfg, request) && HookAt(cfg, answer);
    ClosesByMode(request);
    ClosesByMode(answer);
  }

  lemma ClosesByMode(frames: seq<HttpFrame>)
    ensures HookCloses(frames) <==> Mode(frames) == Close
  {
    ResolveAllMeaning(Lines(frames));
  }

  /** The frames of an answer: none of them is a request line. */
  ghost predicate IsAnswer(frames: seq<HttpFrame>) {
    forall f :: f in frames ==> f.phase != RequestLine
  }

  lemma DecodedIsAnswer(c: ResponseCodec.Codec, src: Bytes)
    requires c.Valid()
    ensures IsAnswer(Fragmentation.Drain(c, src).frames)
  {
    Fragmentation.FramePhases(c, src);
  }

  ghost predicate ListsClose(frames: seq<HttpFrame>) {
    Lists(FirstHit(Matchers.HeaderName(CONNECTION), Lines(frames)), CLOSE)
  }

  /**
   * The hook never learns the version of an answer, since a status line feeds no watched matcher: an
   * answer asks to close exactly when its first Connection header lists `close`, in HTTP/1.0 too.
   */
  lemma AnswerClosesExactly(frames: seq<HttpFrame>)
    requires IsAnswer(frames)
    ensures HookCloses(frames) <==> ListsClose(frames)
  {
    var log := Lines(frames);
    forall e | e in log ensures Hit(Matchers.RequestLineVersion, e).None? {
      LinesHave(frames, e);
    }
    assert FirstHit(Matchers.RequestLineVersion, log).None?;
    CloseExactly(log);
    ClosesByMode(frames);
  }

  lemma SeenIsAnswer(cfg: Config<HttpFrame>, w: World<HttpFrame>, m: nat)
    requires cfg.responses.Some? && ResponseEnd(w.response, m)
    ensures var log := RelayItems(cfg, cfg.responses.value, w.clientOk, w.response, [], 0);
            log.end == Delivered ==> log.seen == Frames(Data(w.response[..m]))
  {
    var k := RelayContent(cfg, cfg.responses.value, w.clientOk, w.response, [], 0);
    if RelayItems(cfg, cfg.responses.value, w.clientOk, w.response, [], 0).end == Delivered {
      EndReach(w.response, m, k);
      EndReach(w.response, k, m);
    }
  }

  lemma EndReach<F>(events: seq<Event<F>>, m: nat, k: nat)
    requires ResponseEnd(events, m)
    ensures ResponseEnd(events, k) ==> m <= k
  {
    assert forall i :: 0 <= i < m ==> events[..m][i] == events[i];
  }

  /**
   * An authorised cycle pools its connection exactly when there is a pool, everything was written and
   * relayed, the request derives keep-alive, and the answer does not list `close`.
   */
  lemma PooledExactly(cfg: Config<HttpFrame>, w: World<HttpFrame>, first: bool, events: seq<Event<HttpFrame>>,
                      r: nat, n: nat, m: nat, key: Bytes, dest: Dest, request: seq<HttpFrame>, answer: seq<HttpFrame>)
    requires UsesHook(cfg) && IsAnswer(answer)
    requires Authorised(cfg, w, events, r, n, dest) && Key(cfg, events[r].data) == Some(key)
    requires ResponseEnd(w.response, m)
    requires request == Frames(RequestItems(events, r, n)) && answer == Frames(Data(w.response[..m]))
    ensures Release(key, dest) in RunCycle(cfg, w, first, events).effects <==>
            && cfg.pooled && w.upstreamOk
            && RelayItems(cfg, cfg.responses.value, w.clientOk, w.response, [], 0).end == Delivered
            && Mode(request) == KeepAlive
            && !ListsClose(answer)
  {
    hide RunCycle, RelayItems, HookCloses, ListsClose, Mode;
    ReleaseWithAuthority(cfg, w, first, events, r, n, dest);
    SeenIsAnswer(cfg, w, m);
    assert HookAt(cfg, request) && HookAt(cfg, answer);
    ClosesByMode(request);
    AnswerClosesExactly(answer);
  }

  lemma {:induction false} LinesAppend(a: seq<HttpFrame>, b: seq<HttpFrame>)
    ensures Lines(a + b) == Lines(a) + Lines(b)
  {
    if b == [] {
      assert a + b == a;
    } else {
      assert (a + b)[..|a + b| - 1] == a + b[..|b| - 1];
      LinesAppend(a, b[..|b| - 1]);
    }
  }

  lemma {:induction false} LinesOfHeaders(headers: seq<Bytes>)
    ensures Lines(ResponseRoundTrip.HeaderFrames(headers)) == ResponseRoundTrip.HeaderLog(headers)
  {
    if headers != [] {
      var n := |headers| - 1;
      LinesOfHeaders(headers[..n]);
      assert ResponseRoundTrip.HeaderFrames(headers)[..n] == ResponseRoundTrip.HeaderFrames(headers[..n]);
    }
  }

  lemma LinesOfHead(status: Bytes, headers: seq<Bytes>)
    ensures var frames := ResponseRoundTrip.HeadFrames(status, headers);
            Lines(frames) == [Fed(StatusLine, status + CRLF)] + ResponseRoundTrip.HeaderLog(headers)
  {
    var first, middle, end := [StatusLineFrame(status + CRLF)], ResponseRoundTrip.HeaderFrames(headers), [END_OF_HEADERS];
    assert first[..0] == [] && Lines(first) == [Fed(StatusLine, status + CRLF)];
    assert end[..0] == [] && Lines(end) == [];
    LinesOfHeaders(headers);
    hide Lines;
    LinesAppend(first + middle, end);
    LinesAppend(first, middle);
    var log := Lines(first) + Lines(middle);
    assert log + [] == log;
  }

  lemma HeadIsAnswer(status: Bytes, headers: seq<Bytes>)
    ensures IsAnswer(ResponseRoundTrip.HeadFrames(status, headers))
  {
  }

  /**
   * A decoded answer asks to close exactly when its first Connection header lists `close`, whatever its
   * version and its framing: one whose body runs to the end of its connection is no exception.
   */
  lemma AnswerHeadCloses(status: Bytes, headers: seq<Bytes>)
    ensures var frames := ResponseRoundTrip.HeadFrames(status, headers);
            && IsAnswer(frames)
            && (HookCloses(frames) <==> Lists(ResponseRoundTrip.FirstHeader(Matchers.HeaderName(CONNECTION), headers), CLOSE))
  {
    HeadIsAnswer(status, headers);
    LinesOfHead(status, headers);
    hide ResponseRoundTrip.HeadFrames, ResponseRoundTrip.HeaderLog, ResponseRoundTrip.FirstHeader, Lists, HookCloses, IsAnswer, Lines;
    AnswerClosesExactly(ResponseRoundTrip.HeadFrames(status, headers));
    FirstOfHead(status, headers);
  }

  lemma FirstOfHead(status: Bytes, headers: seq<Bytes>)
    ensures var m := Matchers.HeaderName(CONNECTION);
            FirstHit(m, [Fed(StatusLine, status + CRLF)] + ResponseRoundTrip.HeaderLog(headers)) == ResponseRoundTrip.FirstHeader(m, headers)
  {
    var m := Matchers.HeaderName(CONNECTION);
    hide FirstHit, ResponseRoundTrip.HeaderLog, ResponseRoundTrip.FirstHeader;
    ResponseRoundTrip.LaterHit(m, Fed(StatusLine, status + CRLF), ResponseRoundTrip.HeaderLog(headers));
    ResponseRoundTrip.HeaderLogHit(m, headers);
  }
}
