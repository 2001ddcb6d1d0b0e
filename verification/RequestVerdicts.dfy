/** What the hook makes of a request head, read off its lines: whether it is refused, and whether it asks to close. */
module RequestVerdicts {
  import opened Common
  import opened Crlf
  import opened Events
  import opened HttpFrames
  import opened Matchers
  import opened Deriver
  import opened HttpDerive
  import opened Hook
  import opened ResponseRoundTrip
  import HttpDriver
  import RequestCodec

  /** The frames of a request line and headers, as they are. */
  function RequestFrames(line: Bytes, headers: seq<Bytes>): seq<HttpFrame> {
    [HttpFrame(line + CRLF, RequestLine, true)] + HeaderFrames(headers)
  }

  lemma {:induction false} HeadersDecode(c: RequestCodec.Codec, headers: seq<Bytes>)
    requires !c.firstLine && forall i :: 0 <= i < |headers| ==> RequestCodec.Untouched(c.matchers, headers[i])
    ensures RequestCodec.LineFrames(c, headers) == HeaderFrames(headers)
  {
    if headers != [] {
      hide RequestCodec.Untouched, RequestCodec.LineFrame;
      RequestCodec.FrameOfLine(c, headers[0]);
      HeadersDecode(c, headers[1..]);
      assert c.(firstLine := false) == c;
      assert HeaderFrames(headers) == [HeaderFrame(headers[0] + CRLF)] + HeaderFrames(headers[1..]);
    }
  }

  /** They are what a head is decoded to when no replacement applies to its headers. */
  lemma HeadDecodes(ms: seq<RequestCodec.Replacement>, line: Bytes, headers: seq<Bytes>)
    requires forall i :: 0 <= i < |headers| ==> RequestCodec.Untouched(ms, headers[i])
    ensures RequestCodec.LineFrames(RequestCodec.NewCodec(ms), [line] + headers) == RequestFrames(line, headers)
  {
    hide RequestCodec.Untouched, HeaderFrames;
    var c := RequestCodec.NewCodec(ms);
    assert ([line] + headers)[1..] == headers;
    RequestCodec.FrameOfLine(c, line);
    HeadersDecode(c.(firstLine := false), headers);
  }

  /** The lines the hook is fed: all of them. */
  function RequestLog(line: Bytes, headers: seq<Bytes>): seq<Fed> {
    [Fed(RequestLine, line + CRLF)] + HeaderLog(headers)
  }

  lemma LinesOfRequest(line: Bytes, headers: seq<Bytes>)
    ensures Lines(RequestFrames(line, headers)) == RequestLog(line, headers)
  {
    var first := [HttpFrame(line + CRLF, RequestLine, true)];
    assert first[..0] == [] && Lines(first) == [Fed(RequestLine, line + CRLF)];
    HttpDriver.LinesOfHeaders(headers);
    HttpDriver.LinesAppend(first, HeaderFrames(headers));
  }

  /** A header of this name is among the lines. */
  ghost predicate Given(name: Bytes, headers: seq<Bytes>) {
    exists h :: h in headers && TryMatch(HeaderName(name), h + CRLF).Some?
  }

  /** Two headers of this name have different values. */
  ghost predicate Differ(name: Bytes, headers: seq<Bytes>) {
    exists g, h :: g in headers && h in headers
                   && TryMatch(HeaderName(name), g + CRLF).Some? && TryMatch(HeaderName(name), h + CRLF).Some?
                   && TryMatch(HeaderName(name), g + CRLF) != TryMatch(HeaderName(name), h + CRLF)
  }

  /** A fed line that a header matcher hits is one of the headers. */
  lemma HitIsHeader(line: Bytes, headers: seq<Bytes>, name: Bytes, e: Fed) returns (h: Bytes)
    requires e in RequestLog(line, headers) && Hit(HeaderName(name), e).Some?
    ensures h in headers && Hit(HeaderName(name), e) == TryMatch(HeaderName(name), h + CRLF)
  {
    hide TryMatch;
    var log := RequestLog(line, headers);
    var i :| 0 <= i < |log| && log[i] == e;
    h := headers[i - 1];
  }

  lemma HeaderIsFed(line: Bytes, headers: seq<Bytes>, name: Bytes, h: Bytes) returns (e: Fed)
    requires h in headers
    ensures e in RequestLog(line, headers) && Hit(HeaderName(name), e) == TryMatch(HeaderName(name), h + CRLF)
  {
    hide TryMatch;
    var i :| 0 <= i < |headers| && headers[i] == h;
    e := RequestLog(line, headers)[i + 1];
  }

  lemma GivenIsPresent(line: Bytes, headers: seq<Bytes>, name: Bytes)
    ensures Present(name, RequestLog(line, headers)) <==> Given(name, headers)
  {
    hide TryMatch, Hit, RequestLog;
    var log := RequestLog(line, headers);
    if e :| e in log && Hit(HeaderName(name), e).Some? {
      var h := HitIsHeader(line, headers, name, e);
    }
    if h :| h in headers && TryMatch(HeaderName(name), h + CRLF).Some? {
      var e := HeaderIsFed(line, headers, name, h);
    }
  }

  lemma DifferIsDisagree(line: Bytes, headers: seq<Bytes>, name: Bytes)
    ensures Disagree(HeaderName(name), RequestLog(line, headers)) <==> Differ(name, headers)
  {
    hide TryMatch, Hit, RequestLog;
    var m, log := HeaderName(name), RequestLog(line, headers);
    if a, b :| a in log && b in log && Hit(m, a).Some? && Hit(m, b).Some? && Hit(m, a) != Hit(m, b) {
      var g := HitIsHeader(line, headers, name, a);
      var h := HitIsHeader(line, headers, name, b);
    }
    if g, h :| g in headers && h in headers && TryMatch(m, g + CRLF).Some? && TryMatch(m, h + CRLF).Some?
               && TryMatch(m, g + CRLF) != TryMatch(m, h + CRLF) {
      var a := HeaderIsFed(line, headers, name, g);
      var b := HeaderIsFed(line, headers, name, h);
    }
  }

  /** There is only one request line to take the version from. */
  lemma OneVersion(line: Bytes, headers: seq<Bytes>)
    ensures !Disagree(RequestLineVersion, RequestLog(line, headers))
    ensures FirstHit(RequestLineVersion, RequestLog(line, headers)) == TryMatch(RequestLineVersion, line + CRLF)
  {
    hide TryMatch;
    var log := RequestLog(line, headers);
    assert log[0] == Fed(RequestLine, line + CRLF);
    assert forall i :: 0 < i < |log| ==> log[i].phase == HttpPhase.Header;
    if Hit(RequestLineVersion, log[0]).Some? {
      FirstHitAt(RequestLineVersion, log, 0);
    }
  }

  /**
   * A request head is refused, as one that cannot be parsed, exactly when it carries both Content-Length and
   * Transfer-Encoding, or two different values of one of them or of Connection.
   */
  lemma RefusedExactly(line: Bytes, headers: seq<Bytes>)
    ensures var length, encoding, connection := Spelled("Content-Length"), Spelled("Transfer-Encoding"), Spelled("Connection");
            HttpDriver.HookError(RequestFrames(line, headers)) ==
            if (Given(length, headers) && Given(encoding, headers))
               || Differ(length, headers) || Differ(encoding, headers) || Differ(connection, headers)
            then Some(ParseError) else None
  {
    hide RequestFrames, RequestLog, Given, Differ, Lines, Validate, Present, Disagree;
    WatchedNames();
    LinesOfRequest(line, headers);
    ValidateMeaning(RequestLog(line, headers));
    GivenIsPresent(line, headers, CONTENT_LENGTH);
    GivenIsPresent(line, headers, TRANSFER_ENCODING);
    DifferIsDisagree(line, headers, CONTENT_LENGTH);
    DifferIsDisagree(line, headers, TRANSFER_ENCODING);
    DifferIsDisagree(line, headers, CONNECTION);
    OneVersion(line, headers);
  }

  /**
   * A request asks to close exactly when its first Connection header lists `close`, or when it is HTTP/1.0 and that
   * header does not list `keep-alive`. The version is what follows the last space of the request line.
   */
  lemma RequestClosesExactly(front: Bytes, version: Bytes, headers: seq<Bytes>)
    requires SP !in version
    ensures var connection := FirstHeader(HeaderName(Spelled("Connection")), headers);
            HttpDriver.HookCloses(RequestFrames(front + [SP] + version, headers)) <==>
            Lists(connection, Spelled("close"))
            || (version == Spelled("HTTP/1.0") && !Lists(connection, Spelled("keep-alive")))
  {
    var line, m := front + [SP] + version, HeaderName(CONNECTION);
    hide RequestFrames, HeaderLog, FirstHeader, Lists, Lines, FirstHit, TryMatch, Disagree;
    WatchedNames();
    LinesOfRequest(line, headers);
    HttpDriver.ClosesByMode(RequestFrames(line, headers));
    CloseExactly(RequestLog(line, headers));
    LaterHit(m, Fed(RequestLine, line + CRLF), HeaderLog(headers));
    HeaderLogHit(m, headers);
    OneVersion(line, headers);
    assert line + CRLF == front + [SP] + (version + CRLF);
    VersionLast(front, version);
  }
}
