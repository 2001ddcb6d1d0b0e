/**
 * What the request side means for the bytes: which written requests are whole, which bytes go upstream
 * unchecked, and what an unchanged connection looks like from the upstream.
 */
module HttpForwarding {
  import opened Common
  import opened Crlf
  import opened Events
  import opened HttpFrames
  import opened Deriver
  import opened HttpDerive
  import opened Hook
  import opened RequestStream
  import opened RequestHeads
  import opened RequestRuns
  import opened Driver
  import opened DriverSafety
  import opened HttpDriver
  import opened HttpRuns
  import DriverOutcomes
  import RequestCodec

  // ----- which written requests are whole -----

  lemma FirstWrite(cfg: Config<HttpFrame>, world: nat -> World<HttpFrame>, i: nat, matchers: seq<Replacement>, script: seq<Bytes>)
    returns (more: seq<Effect>)
    requires FromReads(cfg, world, i, matchers, script) != []
    ensures Sends(cfg, world(i), HeadItems(matchers, script))
    ensures FromReads(cfg, world, i, matchers, script) ==
            [Upstream(Destination(cfg, world(i)).value, Outgoing(cfg, HeadItems(matchers, script)))] + more
    ensures more == [] || (Complete(script) && more == FromReads(cfg, world, i + 1, matchers, Later(script)))
  {
    hide HeadItems, Complete, Reusable, Outgoing, Frames;
    more := FromReads(cfg, world, i, matchers, script)[1..];
  }

  /** Write number `j` of a connection is a head that starts with some read; only the last one can lack its end. */
  lemma {:induction false} WriteOfHead(cfg: Config<HttpFrame>, world: nat -> World<HttpFrame>, i: nat, matchers: seq<Replacement>,
                                       script: seq<Bytes>, j: nat) returns (begin: nat)
    requires j < |FromReads(cfg, world, i, matchers, script)|
    ensures begin <= |script| && Sends(cfg, world(i + j), HeadItems(matchers, script[begin..]))
    ensures var writes := FromReads(cfg, world, i, matchers, script);
            && writes[j] == Upstream(Destination(cfg, world(i + j)).value, Outgoing(cfg, HeadItems(matchers, script[begin..])))
            && (j < |writes| - 1 ==> Complete(script[begin..]))
    decreases j
  {
    hide FromReads, HeadItems, Complete, Outgoing;
    var more := FirstWrite(cfg, world, i, matchers, script);
    if j == 0 {
      begin := 0;
      assert script[0..] == script;
    } else {
      var k := CompletingRead(script);
      var l := WriteOfHead(cfg, world, i + 1, matchers, script[k..], j - 1);
      begin := k + l;
      assert script[k..][l..] == script[k + l..];
    }
  }

  ghost predicate HoldsEnd(items: seq<ParsedData<HttpFrame>>) {
    exists p :: Passthrough(p) in items
  }

  lemma EndIsHeld(matchers: seq<Replacement>, script: seq<Bytes>)
    ensures HoldsEnd(HeadItems(matchers, script)) <==> Complete(script)
  {
    var lines := LineItems(matchers, FirstLines(script));
    if Complete(script) {
      assert Passthrough(CRLF + Extra(script)) in HeadItems(matchers, script);
    } else {
      assert HeadItems(matchers, script) == lines;
      assert forall d :: d in lines ==> d.Parsed?;
    }
  }

  /**
   * A request that was written upstream holds a whole head exactly when its head ended in an empty line. One
   * that was cut short, by the end of the connection or by a folded line, is written without its end, and
   * it is the last one of its connection.
   */
  lemma WrittenIsWholeExactly(cfg: Config<HttpFrame>, world: nat -> World<HttpFrame>, matchers: seq<Replacement>, script: seq<Bytes>,
                              n: nat, j: nat) returns (begin: nat)
    requires NoKeyAtEnd(cfg) && NoEmptyRead(script) && n > |script|
    requires j < |SentUpstream(cfg, world, matchers, script, n)|
    ensures begin <= |script| && Sends(cfg, world(j), HeadItems(matchers, script[begin..]))
    ensures var writes, later := SentUpstream(cfg, world, matchers, script, n), script[begin..];
            var items := HeadItems(matchers, later);
            && writes[j] == Upstream(Destination(cfg, world(j)).value, Outgoing(cfg, items))
            && Outgoing(cfg, items) == Outgoing(cfg, LineItems(matchers, FirstLines(later))) + (if Complete(later) then CRLF + Extra(later) else [])
            && (HoldsEnd(items) <==> Complete(later))
            && (j < |writes| - 1 ==> Complete(later))
  {
    hide *;
    ConnectionFromReads(cfg, world, matchers, script, n);
    begin := WriteOfHead(cfg, world, 0, matchers, script, j);
    HeadIsWritten(cfg, matchers, script[begin..]);
    EndIsHeld(matchers, script[begin..]);
  }

  // ----- without rewriting -----

  /** A pipeline that leaves frames as they are. */
  ghost predicate Plain(cfg: Config<HttpFrame>) {
    forall f :: Unchanged(cfg, f)
  }

  predicate Unchanged(cfg: Config<HttpFrame>, f: HttpFrame) {
    cfg.bytesOf(cfg.process(f)) == f.data
  }

  /** No replacement applies to any header among these lines. */
  ghost predicate LinesUntouched(firstLine: bool, ms: seq<Replacement>, lines: seq<Bytes>) {
    forall i :: 0 <= i < |lines| && !(i == 0 && firstLine) ==> RequestCodec.Untouched(ms, lines[i])
  }

  lemma {:induction false} PlainLines(cfg: Config<HttpFrame>, c: RequestCodec.Codec, lines: seq<Bytes>)
    requires Plain(cfg) && LinesUntouched(c.firstLine, c.matchers, lines)
    ensures Outgoing(cfg, ParsedItems(RequestCodec.LineFrames(c, lines))) == RequestCodec.Joined(lines)
    decreases |lines|
  {
    if lines != [] {
      assert forall i :: 0 <= i < |lines[1..]| ==> lines[1..][i] == lines[i + 1];
      PlainLines(cfg, c.(firstLine := false), lines[1..]);
      RequestCodec.FrameOfLine(c, lines[0]);
      var f, fs := RequestCodec.LineFrame(c, lines[0] + CRLF), RequestCodec.LineFrames(c.(firstLine := false), lines[1..]);
      assert ParsedItems([f] + fs)[0] == Parsed(f) && ParsedItems([f] + fs)[1..] == ParsedItems(fs);
      assert Unchanged(cfg, f);
    }
  }

  /** Where no replacement applies, a whole head goes upstream read by read: exactly the reads up to the one that completes it. */
  lemma PlainHead(cfg: Config<HttpFrame>, matchers: seq<Replacement>, script: seq<Bytes>)
    requires Plain(cfg) && LinesUntouched(true, matchers, FirstLines(script))
    ensures Outgoing(cfg, HeadItems(matchers, script)) ==
            if Complete(script) then HeadReads(script).0 else RequestCodec.Joined(FirstLines(script))
    ensures Complete(script) ==> HeadReads(script).0 == RequestCodec.Joined(FirstLines(script)) + (CRLF + Extra(script))
  {
    hide Plain, Outgoing, HeadItems, FirstLines, Complete, Extra, HeadReads, LinesUntouched;
    PlainLines(cfg, RequestCodec.NewCodec(matchers), FirstLines(script));
    HeadIsWritten(cfg, matchers, script);
    if Complete(script) {
      HeadInFront(script);
    }
  }

  lemma {:induction false} NoNeedleInLines(ms: seq<Replacement>, lines: seq<Bytes>, rest: Bytes)
    requires RequestCodec.NoNeedle(ms, RequestCodec.Joined(lines) + rest)
    ensures LinesUntouched(false, ms, lines)
  {
    hide RequestCodec.NoNeedle, RequestCodec.Untouched;
    if lines != [] {
      var line, more := lines[0], RequestCodec.Joined(lines[1..]) + rest;
      assert RequestCodec.Joined(lines) + rest == [] + line + (CRLF + more) == line + CRLF + more + [];
      RequestCodec.PartWithoutNeedle(ms, [], line, CRLF + more);
      RequestCodec.PartWithoutNeedle(ms, line + CRLF, more, []);
      RequestCodec.NoNeedleInLine(ms, line);
      NoNeedleInLines(ms, lines[1..], rest);
      assert forall i :: 0 < i < |lines| ==> lines[i] == lines[1..][i - 1];
    }
  }

  lemma NoNeedleInHead(ms: seq<Replacement>, script: seq<Bytes>)
    requires RequestCodec.NoNeedle(ms, Concat(script))
    ensures LinesUntouched(true, ms, FirstLines(script))
  {
    var lines, rest, e := RequestCodec.EveryInputIsAHead(true, Concat(script));
    NoNeedleInLines(ms, lines, rest);
  }

  lemma HeadInFront(script: seq<Bytes>)
    requires Complete(script)
    ensures HeadReads(script).0 == RequestCodec.Joined(FirstLines(script)) + (CRLF + Extra(script))
  {
    var lines, rest, e := RequestCodec.EveryInputIsAHead(true, Concat(script));
    var k := CompletingRead(script);
    var (b, m) := HeadReads(script);
    ConcatAppend(script[..k], script[k..]);
    assert script == script[..k] + script[k..];
    FrontOfHead(RequestCodec.Joined(lines), rest, b, Concat(script[k..]));
  }

  lemma FrontOfHead(joined: Bytes, rest: Bytes, b: Bytes, more: Bytes)
    requires joined + rest == b + more && CRLF <= rest && |b| >= |joined| + 2
    ensures b == joined + (CRLF + b[|joined| + 2..])
  {
    assert rest == CRLF + rest[2..];
    assert b[..|joined|] == (joined + rest)[..|joined|] == joined;
    assert b[|joined|..|joined| + 2] == (joined + rest)[|joined|..|joined| + 2] == CRLF;
  }

  /** Read back, what was written is a whole head exactly when the client's was. */
  lemma PlainWriteIsHead(cfg: Config<HttpFrame>, matchers: seq<Replacement>, script: seq<Bytes>)
    requires Plain(cfg) && LinesUntouched(true, matchers, FirstLines(script))
    ensures var (lines, rest, e) := RequestCodec.SplitHead(true, Outgoing(cfg, HeadItems(matchers, script)));
            lines == FirstLines(script) && (e == RequestCodec.EmptyLine <==> Complete(script))
  {
    var lines, rest, e := RequestCodec.EveryInputIsAHead(true, Concat(script));
    hide Plain, Outgoing, HeadItems, Extra, HeadReads, Concat, RequestCodec.Joined, RequestCodec.HeadLines, LinesUntouched;
    PlainHead(cfg, matchers, script);
    if Complete(script) {
      RequestCodec.SplitsOnce(true, lines, CRLF + Extra(script), RequestCodec.EmptyLine);
    } else {
      assert RequestCodec.Joined(lines) + [] == RequestCodec.Joined(lines);
      RequestCodec.SplitsOnce(true, lines, [], RequestCodec.Incomplete);
    }
  }

  function Written(writes: seq<Effect>): Bytes {
    if writes == [] then []
    else (if writes[0].Upstream? then writes[0].bytes else []) + Written(writes[1..])
  }

  /** Unchanged, what goes upstream of a connection in which no needle occurs is the front of what the client sent. */
  lemma {:induction false} PlainWritesAreInput(cfg: Config<HttpFrame>, world: nat -> World<HttpFrame>, i: nat,
                                               matchers: seq<Replacement>, script: seq<Bytes>)
    requires Plain(cfg) && RequestCodec.NoNeedle(matchers, Concat(script))
    ensures Written(FromReads(cfg, world, i, matchers, script)) <= Concat(script)
    decreases |script|
  {
    hide FromReads, Plain, HeadItems, Outgoing, Complete, Extra, HeadReads, Concat, Later, FirstLines, RequestCodec.Joined,
         RequestCodec.NoNeedle, LinesUntouched;
    if FromReads(cfg, world, i, matchers, script) != [] {
      var more := FirstWrite(cfg, world, i, matchers, script);
      NoNeedleInHead(matchers, script);
      PlainHead(cfg, matchers, script);
      InputSplits(script);
      var write := Upstream(Destination(cfg, world(i)).value, Outgoing(cfg, HeadItems(matchers, script)));
      assert ([write] + more)[1..] == more;
      if more != [] {
        assert Concat(script) == HeadReads(script).0 + Concat(Later(script)) + [];
        RequestCodec.PartWithoutNeedle(matchers, HeadReads(script).0, Concat(Later(script)), []);
        PlainWritesAreInput(cfg, world, i + 1, matchers, Later(script));
      }
    }
  }

  /** The reads up to the one that completes the head, and those behind it; or the good lines, and what is behind them. */
  lemma InputSplits(script: seq<Bytes>)
    ensures if Complete(script) then Concat(script) == HeadReads(script).0 + Concat(Later(script))
            else RequestCodec.Joined(FirstLines(script)) <= Concat(script)
  {
    hide Complete, HeadReads, Later, Extra;
    if Complete(script) {
      var k := CompletingRead(script);
      ConcatAppend(script[..k], script[k..]);
      assert script == script[..k] + script[k..];
    } else {
      var lines, rest, e := RequestCodec.EveryInputIsAHead(true, Concat(script));
    }
  }

  // ----- what is passed through unchecked -----

  /**
   * The hook checks the lines of a head. Unchecked behind them goes what is left of the read that completes
   * the head, number `k`, and nothing else: bytes of a later request go upstream unchecked exactly when that
   * read holds some of them.
   */
  lemma UncheckedExactly(cfg: Config<HttpFrame>, matchers: seq<Replacement>, script: seq<Bytes>) returns (k: nat)
    requires Complete(script)
    ensures var m := |RequestCodec.Joined(FirstLines(script))| + 2;
            && 0 < k <= |script| && |Concat(script[..k - 1])| < m <= |Concat(script[..k])|
            && var extra := Concat(script[..k])[m..];
            && Frames(HeadItems(matchers, script)) == RequestCodec.LineFrames(RequestCodec.NewCodec(matchers), FirstLines(script))
            && Outgoing(cfg, HeadItems(matchers, script)) == Outgoing(cfg, LineItems(matchers, FirstLines(script))) + CRLF + extra
            && Later(script) == script[k..]
            && (extra != [] <==> |Concat(script[..k])| > m)
  {
    k := CompletingRead(script);
    HeadIsWritten(cfg, matchers, script);
    var sent := Outgoing(cfg, LineItems(matchers, FirstLines(script)));
    hide Outgoing, HeadItems, LineItems, FirstLines, Frames;
    assert sent + (CRLF + Extra(script)) == sent + CRLF + Extra(script);
  }

  /** A first read that holds a whole head and some more. */
  lemma FirstReadHolds(lines: seq<Bytes>, extra: Bytes, more: seq<Bytes>)
    requires RequestCodec.HeadLines(true, lines)
    ensures var script := [RequestCodec.Joined(lines) + CRLF + extra] + more;
            FirstLines(script) == lines && Complete(script) && Extra(script) == extra && Later(script) == more
  {
    var joined := RequestCodec.Joined(lines);
    var first := joined + CRLF + extra;
    var script := [first] + more;
    assert script[1..] == more;
    Regroup(joined, CRLF, extra, Concat(more));
    RequestCodec.SplitsOnce(true, lines, CRLF + (extra + Concat(more)), RequestCodec.EmptyLine);
    TakeFirst(first, more, |joined| + 2);
    assert first[|joined| + 2..] == extra;
  }

  lemma LongEndAllowsShort(cfg: Config<HttpFrame>, w: World<HttpFrame>, items: seq<ParsedData<HttpFrame>>, long: Bytes, short: Bytes)
    requires Sends(cfg, w, items + [Passthrough(long)]) && |short| <= |long|
    ensures Sends(cfg, w, items + [Passthrough(short)])
  {
    var x: ParsedData<HttpFrame>, y: ParsedData<HttpFrame> := Passthrough(long), Passthrough(short);
    var a, b := items + [x], items + [y];
    var r: nat, d: Dest :| Acceptable(cfg, w, a, r, d);
    assert r < |items| by {
      assert Key(cfg, x).None?;
    }
    assert a[..r + 1] == b[..r + 1] && a[r + 1..] == items[r + 1..] + [x] && b[r + 1..] == items[r + 1..] + [y];
    assert forall i :: 0 <= i <= r ==> a[i] == b[i];
    RawLengthAppend(cfg, items[r + 1..], [x]);
    RawLengthAppend(cfg, items[r + 1..], [y]);
    FramesAppend(items, [x]);
    FramesAppend(items, [y]);
    assert [x][1..] == [] && [y][1..] == [];
    assert Acceptable(cfg, w, b, r, d);
  }

  /** Nothing is sent of reads that hold no line. */
  lemma NothingOfNothing(cfg: Config<HttpFrame>, world: nat -> World<HttpFrame>, i: nat, matchers: seq<Replacement>)
    ensures FromReads(cfg, world, i, matchers, []) == []
  {
    NoKeyNoSend(cfg, world(i), HeadItems(matchers, []));
  }

  /**
   * The same two requests, the second one unacceptable, in one read and in two: in one read both go upstream,
   * the second as bytes behind the first; in two reads only the first does.
   */
  lemma CuttingDecides(cfg: Config<HttpFrame>, world: nat -> World<HttpFrame>, matchers: seq<Replacement>,
                       lines: seq<Bytes>, second: seq<Bytes>, dest: Dest)
    requires RequestCodec.HeadLines(true, lines) && RequestCodec.HeadLines(true, second)
    requires var behind := RequestCodec.Joined(second) + CRLF;
             Sends(cfg, world(0), LineItems(matchers, lines) + [Passthrough(CRLF + behind)])
    requires Destination(cfg, world(0)) == Some(dest)
    requires cfg.validate(RequestCodec.LineFrames(RequestCodec.NewCodec(matchers), second)).Some?
    ensures var head, behind := RequestCodec.Joined(lines) + CRLF, RequestCodec.Joined(second) + CRLF;
            var sent := Outgoing(cfg, LineItems(matchers, lines));
            && FromReads(cfg, world, 0, matchers, [head + behind]) == [Upstream(dest, sent + (CRLF + behind))]
            && FromReads(cfg, world, 0, matchers, [head, behind]) == [Upstream(dest, sent + CRLF)]
  {
    var head, behind := RequestCodec.Joined(lines) + CRLF, RequestCodec.Joined(second) + CRLF;
    OnlyFirstSent(cfg, world, matchers, lines, behind, []);
    NothingOfNothing(cfg, world, 1, matchers);
    assert [head + behind] + [] == [head + behind];
    LongEndAllowsShort(cfg, world(0), LineItems(matchers, lines), CRLF + behind, CRLF);
    assert CRLF + [] == CRLF && head + [] == head && [head] + [behind] == [head, behind];
    OnlyFirstSent(cfg, world, matchers, lines, [], [behind]);
    RejectedIsNotSent(cfg, world, 1, matchers, second);
  }

  lemma RejectedIsNotSent(cfg: Config<HttpFrame>, world: nat -> World<HttpFrame>, i: nat, matchers: seq<Replacement>, lines: seq<Bytes>)
    requires RequestCodec.HeadLines(true, lines)
    requires cfg.validate(RequestCodec.LineFrames(RequestCodec.NewCodec(matchers), lines)).Some?
    ensures FromReads(cfg, world, i, matchers, [RequestCodec.Joined(lines) + CRLF]) == []
  {
    var script := [RequestCodec.Joined(lines) + CRLF];
    assert RequestCodec.Joined(lines) + CRLF + [] == RequestCodec.Joined(lines) + CRLF && script + [] == script;
    FirstReadHolds(lines, [], []);
    HeadIsWritten(cfg, matchers, script);
  }

  lemma OnlyFirstSent(cfg: Config<HttpFrame>, world: nat -> World<HttpFrame>, matchers: seq<Replacement>, lines: seq<Bytes>,
                      extra: Bytes, more: seq<Bytes>)
    requires RequestCodec.HeadLines(true, lines) && Sends(cfg, world(0), LineItems(matchers, lines) + [Passthrough(CRLF + extra)])
    ensures var script := [RequestCodec.Joined(lines) + CRLF + extra] + more;
            var write := Upstream(Destination(cfg, world(0)).value, Outgoing(cfg, LineItems(matchers, lines)) + (CRLF + extra));
            FromReads(cfg, world, 1, matchers, more) == [] ==> FromReads(cfg, world, 0, matchers, script) == [write]
  {
    FirstReadHolds(lines, extra, more);
    HeadIsWritten(cfg, matchers, [RequestCodec.Joined(lines) + CRLF + extra] + more);
  }

  // ----- what a request is routed by -----

  lemma {:induction false} OnlyFirstRoutes(c: RequestCodec.Codec, lines: seq<Bytes>, i: nat)
    requires i < |RequestCodec.LineFrames(c, lines)| && RequestCodec.LineFrames(c, lines)[i].routing
    ensures i == 0 && c.firstLine && lines != [] && RequestCodec.LineFrames(c, lines)[0].data == lines[0] + CRLF
    decreases |lines|
  {
    if i > 0 {
      OnlyFirstRoutes(c.(firstLine := false), lines[1..], i - 1);
    }
  }

  lemma RoutingItem(cfg: Config<HttpFrame>, matchers: seq<Replacement>, script: seq<Bytes>, i: nat)
    requires KeyedByFrame(cfg) && i < |HeadItems(matchers, script)| && Key(cfg, HeadItems(matchers, script)[i]).Some?
    ensures FirstLines(script) != [] && Key(cfg, HeadItems(matchers, script)[i]) == Some(FirstLines(script)[0] + CRLF)
  {
    var d := HeadItems(matchers, script)[i];
    assert d.Parsed? && KeyAt(cfg, d.frame);
    OnlyFirstRoutes(RequestCodec.NewCodec(matchers), FirstLines(script), i);
  }

  /** The pool, the router and a release are all given the request line of the head, with its line end, as the key. */
  lemma KeyIsRequestLine(cfg: Config<HttpFrame>, w: World<HttpFrame>, first: bool, s: Stream, n: nat, e: Effect)
    requires KeyedByFrame(cfg) && AtHead(s) && n > 0
    requires e in RunCycle(cfg, w, first, ClientScript(s, n)).effects && (e.Acquire? || e.Route? || e.Release?)
    ensures FirstLines(s.inner.script) != [] && e.key == FirstLines(s.inner.script)[0] + CRLF
  {
    hide RunCycle, ClientScript, HeadItems, PollsOfHead, StrayLineEnd, Complete, Over, FirstLines;
    var events, script, matchers := ClientScript(s, n), s.inner.script, s.inner.codec.matchers;
    var r := DriverOutcomes.KeyIsRouted(cfg, w, first, events, e);
    var t := HeadOfScript(s, n);
    var more := ClientScript(t, n - 1);
    if StrayLineEnd(s.headersDone, script) {
      NoKeyInStray(cfg, matchers, s.headersDone, script, more, r);
    } else {
      var last := PollsAreItems(matchers, s.headersDone, script);
      FirstRouted(cfg, HeadItems(matchers, script), last, more, r);
      RoutingItem(cfg, matchers, script, r);
    }
  }

  lemma FirstRouted(cfg: Config<HttpFrame>, items: seq<ParsedData<HttpFrame>>, last: Polled, more: seq<Polled>, r: nat)
    requires !last.Item? && RoutedAt(cfg, cfg.maxPreRoute, AsItems(items) + [last] + more, r)
    ensures r < |items| && (AsItems(items) + [last] + more)[r] == Item(items[r])
  {
    var events := AsItems(items) + [last] + more;
    assert events[|items|] == last;
    if r >= |items| {
      NoItemsPast(events, |items|, r + 1);
    }
  }

  lemma NoKeyInStray(cfg: Config<HttpFrame>, matchers: seq<Replacement>, again: bool, script: seq<Bytes>, more: seq<Polled>, r: nat)
    requires KeyedByFrame(cfg) && StrayLineEnd(again, script)
    ensures !RoutedAt(cfg, cfg.maxPreRoute, PollsOfHead(matchers, again, script) + more, r)
  {
    var end: ParsedData<HttpFrame> := Parsed(END_OF_HEADERS);
    var polls: seq<Polled> := [Item(end), End];
    assert AsItems([end]) + [End] == polls && KeyAt(cfg, END_OF_HEADERS);
    if RoutedAt(cfg, cfg.maxPreRoute, PollsOfHead(matchers, again, script) + more, r) {
      FirstRouted(cfg, [end], End, more, r);
    }
  }

  // ----- a request that is cut short -----

  /** A request line on its own is nothing the hook objects to. */
  lemma LoneLineAccepted(line: Bytes)
    ensures HookError([RequestLineFrame(line)]) == None
  {
    hide Validate, SessionAfter, ResolveAll;
    var frames, fed := [RequestLineFrame(line)], Fed(RequestLine, line);
    assert frames[..0] == [] && Lines(frames) == [fed];
    ValidateMeaning(Lines(frames));
    assert forall e :: e in [fed] ==> e == fed;
  }

  lemma LoneLineIsSent(cfg: Config<HttpFrame>, w: World<HttpFrame>, frame: HttpFrame, dest: Dest)
    requires UsesHook(cfg) && frame.phase == RequestLine && frame.routing
    requires cfg.keyOf(frame).Some? && |cfg.bytesOf(frame)| <= cfg.maxPreRoute && Destination(cfg, w) == Some(dest)
    ensures Sends(cfg, w, [Parsed(frame)])
  {
    hide Destination, HookError, HookCloses;
    var d: ParsedData<HttpFrame> := Parsed(frame);
    assert frame == RequestLineFrame(frame.data);
    LoneLineAccepted(frame.data);
    assert HookAt(cfg, [frame]);
    OneItem(cfg, d, [Item(d)]);
    assert [d][..1] == [d] && [d][1..] == [];
    assert Acceptable(cfg, w, [d], 0, dest);
  }

  lemma LoneHead(matchers: seq<Replacement>, line: Bytes, rest: Bytes, e: RequestCodec.Ending)
    requires Line(line) && RequestCodec.GoesOn(false, rest, e) && e != RequestCodec.EmptyLine
    ensures var script := [line + CRLF + rest];
            && FirstLines(script) == [line] && !Complete(script) && RequestCodec.Joined([line]) == line + CRLF
            && HeadItems(matchers, script) == [Parsed(RequestLineFrame(line + CRLF))]
  {
    assert RequestCodec.Joined([line]) == line + CRLF + RequestCodec.Joined([]) == line + CRLF;
    assert Concat([line + CRLF + rest]) == line + CRLF + rest;
    RequestCodec.SplitsOnce(true, [line], rest, e);
    assert [line][1..] == [] && RequestCodec.LineFrames(RequestCodec.NewCodec(matchers), [line]) == [RequestLineFrame(line + CRLF)];
  }

  /**
   * A concrete request that goes upstream without its end: a request line, and then part of a header and the
   * end of the connection, or a folded line.
   */
  lemma CutShortHeadIsWritten(cfg: Config<HttpFrame>, world: nat -> World<HttpFrame>, matchers: seq<Replacement>,
                              line: Bytes, rest: Bytes, e: RequestCodec.Ending, dest: Dest)
    requires UsesHook(cfg) && NoKeyAtEnd(cfg) && Plain(cfg)
    requires var frame := RequestLineFrame(line + CRLF);
             cfg.keyOf(frame).Some? && |cfg.bytesOf(frame)| <= cfg.maxPreRoute
    requires Destination(cfg, world(0)) == Some(dest)
    requires Line(line) && RequestCodec.GoesOn(false, rest, e) && e != RequestCodec.EmptyLine
    ensures NoEmptyRead([line + CRLF + rest])
    ensures SentUpstream(cfg, world, matchers, [line + CRLF + rest], 2) == [Upstream(dest, line + CRLF)]
  {
    hide UsesHook, NoKeyAtEnd, Plain, Line, RequestCodec.GoesOn, SentUpstream, HeadItems, Outgoing, Complete, FirstLines, Sends;
    var script := [line + CRLF + rest];
    LoneHead(matchers, line, rest, e);
    ConnectionFromReads(cfg, world, matchers, script, 2);
    PlainHead(cfg, matchers, script);
    LoneLineIsSent(cfg, world(0), RequestLineFrame(line + CRLF), dest);
  }

  function Same(f: HttpFrame): HttpFrame {
    f
  }

  /** An HTTP proxy that changes nothing. */
  lemma PlainProxy(maxPreRoute: nat, maxPostRoute: nat, errorBytes: Option<Failure -> Bytes>, pooled: bool)
    ensures var cfg := HttpConfig(Same, Same, maxPreRoute, maxPostRoute, errorBytes, pooled);
            && UsesHook(cfg) && NoKeyAtEnd(cfg) && Plain(cfg) && cfg.maxPreRoute == maxPreRoute
            && KeyedByFrame(cfg) && forall f: HttpFrame :: cfg.bytesOf(f) == f.data
  {
  }

  /** That proxy, and a client that closes in the middle of its first header. */
  lemma ClosedInHeaderIsWritten(maxPreRoute: nat, maxPostRoute: nat, errorBytes: Option<Failure -> Bytes>, pooled: bool,
                                world: nat -> World<HttpFrame>, matchers: seq<Replacement>,
                                line: Bytes, partial: Bytes, dest: Dest)
    requires Line(line) && NoCrlf(partial) && |line| + 2 <= maxPreRoute
    requires Destination(HttpConfig(Same, Same, maxPreRoute, maxPostRoute, errorBytes, pooled), world(0)) == Some(dest)
    ensures var cfg := HttpConfig(Same, Same, maxPreRoute, maxPostRoute, errorBytes, pooled);
            && NoEmptyRead([line + CRLF + partial])
            && SentUpstream(cfg, world, matchers, [line + CRLF + partial], 2) == [Upstream(dest, line + CRLF)]
  {
    var cfg := HttpConfig(Same, Same, maxPreRoute, maxPostRoute, errorBytes, pooled);
    hide Plain, UsesHook, NoKeyAtEnd, SentUpstream, HttpConfig;
    PlainProxy(maxPreRoute, maxPostRoute, errorBytes, pooled);
    assert KeyAt(cfg, RequestLineFrame(line + CRLF));
    CutShortHeadIsWritten(cfg, world, matchers, line, partial, RequestCodec.Incomplete, dest);
  }
}
