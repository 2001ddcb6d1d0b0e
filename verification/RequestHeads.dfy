/**
 * What a request stream hands out for one request, as a function of the bytes of its head and of how
 * they are cut into reads.
 */
module RequestHeads {
  import opened Common
  import opened Crlf
  import opened Events
  import opened HttpFrames
  import opened Matchers
  import opened RequestCodec
  import opened RequestStream

  /** Poll until something other than an item comes out: the polls of one request. */
  function ReadRequest(s: Stream): (result: (seq<Polled>, Stream))
    requires s.Valid()
    ensures result.1.Valid()
    ensures result.0 != [] && !result.0[|result.0| - 1].Item?
    ensures forall i :: 0 <= i < |result.0| - 1 ==> result.0[i].Item?
    decreases |s.Pending()|
  {
    var (r, t) := PollStream(s);
    if r.Item? then
      var (more, u) := ReadRequest(t);
      ([r] + more, u)
    else ([r], t)
  }

  lemma OneMorePoll(s: Stream, r: Polled, t: Stream)
    requires s.Valid() && PollStream(s) == (r, t) && r.Item?
    ensures ReadRequest(s) == ([r] + ReadRequest(t).0, ReadRequest(t).1)
  {
  }

  // ----- within a head -----

  /** In the middle of a head, with nothing buffered that could have been decoded. */
  ghost predicate Mid(s: Stream) {
    && s.Valid() && !s.headersDone && !s.inner.errored && !s.inner.codec.done
    && (!s.inner.readable ==> NoCrlf(s.inner.buffer))
  }

  /** The frames of good lines, polled one by one. */
  function Shown(c: Codec, lines: seq<Bytes>): (polls: seq<Polled>)
    ensures |polls| == |lines|
    decreases |lines|
  {
    if lines == [] then []
    else [Item(Parsed(LineFrame(c, lines[0] + CRLF)))] + Shown(c.(firstLine := false), lines[1..])
  }

  function AfterLines(c: Codec, lines: seq<Bytes>): Codec {
    if lines == [] then c else c.(firstLine := false)
  }

  /** The stream behind good lines: no more has been read than they needed. */
  function BehindLines(s: Stream, lines: seq<Bytes>): Stream
    requires |s.Pending()| >= |Joined(lines)|
  {
    var (b, left) := Take(s.inner.buffer, s.inner.script, |Joined(lines)|);
    Stream(Reader(AfterLines(s.inner.codec, lines), b[|Joined(lines)|..], left,
                  s.inner.readable || lines != [], s.inner.eof, s.inner.errored),
           false, false)
  }

  lemma {:induction false} TakeKeepsReads(buffer: Bytes, script: seq<Bytes>, m: nat)
    requires NoEmptyRead(script)
    ensures NoEmptyRead(Take(buffer, script, m).1) && (script == [] ==> Take(buffer, script, m).1 == [])
    decreases |script|
  {
    if |buffer| < m && script != [] {
      TakeKeepsReads(buffer + script[0], script[1..], m);
    }
  }

  lemma PendingBehind(buffer: Bytes, script: seq<Bytes>, m: nat)
    requires |buffer + Concat(script)| >= m
    ensures var (b, left) := Take(buffer, script, m);
            b[m..] + Concat(left) == (buffer + Concat(script))[m..]
  {
    var k := TakeIsMinimal(buffer, script, m);
    var (b, left) := Take(buffer, script, m);
    assert (b + Concat(left))[m..] == b[m..] + Concat(left);
  }

  /** A line is stepped over whatever follows it in the buffer. */
  lemma LineStep(c: Codec, line: Bytes, behind: Bytes)
    requires !c.done && Line(line) && (c.firstLine || !IsOws(line[0]))
    ensures StepDecode(c, line + CRLF + behind) ==
            Step(Produced(LineFrame(c, line + CRLF)), c.(firstLine := false), behind)
    ensures LineFrame(c, line + CRLF).phase != EndOfHeaders
  {
    FindCrlfLine(line, behind);
    CutLine(line, behind);
    assert (line + CRLF + behind)[0] == line[0];
  }

  /** One good line: one poll, which reads just enough for it. */
  lemma LineIsRead(s: Stream, line: Bytes, more: Bytes)
    requires Mid(s) && Line(line) && (s.inner.codec.firstLine || !IsOws(line[0]))
    requires s.Pending() == line + CRLF + more
    ensures var t := BehindLines(s, [line]);
            && PollStream(s) == (Item(Parsed(LineFrame(s.inner.codec, line + CRLF))), t)
            && Mid(t) && t.Pending() == more && t.inner.codec == s.inner.codec.(firstLine := false)
  {
    var m := |line| + 2;
    JoinedFirst(line, []);
    assert [line] + [] == [line];
    FindCrlfLine(line, more);
    NotYetBuffered(s.inner, m);
    PollTakes(s.inner, m);
    var (b, left) := Take(s.inner.buffer, s.inner.script, m);
    LineTaken(s.inner, line, more);
    LineStep(s.inner.codec, line, b[m..]);
    hide PollReader, StepDecode, FindCrlf, Take, LineFrame;
    TakeKeepsReads(s.inner.buffer, s.inner.script, m);
  }

  /** Reads up to the end of a line begin with the line, and the rest is still to come. */
  lemma LineTaken(r: Reader, line: Bytes, more: Bytes)
    requires r.Pending() == line + CRLF + more
    ensures var m := |line| + 2;
            var (b, left) := Take(r.buffer, r.script, m);
            |b| >= m && b == line + CRLF + b[m..] && b[m..] + Concat(left) == more
  {
    var m := |line| + 2;
    var k := TakeIsMinimal(r.buffer, r.script, m);
    PendingBehind(r.buffer, r.script, m);
    hide Take;
    var (b, left) := Take(r.buffer, r.script, m);
    assert b[..m] == (b + Concat(left))[..m] == (line + CRLF + more)[..m] == line + CRLF;
    assert (line + CRLF + more)[m..] == more;
  }

  lemma NotYetBuffered(r: Reader, m: nat)
    requires m >= 2 && FindCrlf(r.Pending()) == Some(m - 2)
    ensures NoCrlf(r.buffer) ==> |r.buffer| < m
  {
    if |r.buffer| >= m {
      assert CrlfAt(r.buffer, m - 2);
    }
  }

  lemma JoinedFirst(line: Bytes, more: seq<Bytes>)
    ensures Joined([line] + more) == line + CRLF + Joined(more)
  {
    assert ([line] + more)[1..] == more;
  }

  lemma BehindTwice(s: Stream, line: Bytes, more: seq<Bytes>)
    requires |s.Pending()| >= |Joined([line] + more)| && |s.Pending()| >= |Joined([line])|
    requires |BehindLines(s, [line]).Pending()| >= |Joined(more)|
    ensures BehindLines(BehindLines(s, [line]), more) == BehindLines(s, [line] + more)
  {
    var m, n := |line| + 2, |Joined(more)|;
    JoinedFirst(line, more);
    JoinedFirst(line, []);
    assert [line] + [] == [line];
    TakeTwice(s.inner.buffer, s.inner.script, m, n);
    hide Take, Joined, Concat;
    var (b, left) := Take(s.inner.buffer, s.inner.script, m + n);
    assert b[m..][n..] == b[m + n..];
  }

  lemma NoLinesAreRead(s: Stream)
    requires Mid(s)
    ensures BehindLines(s, []) == s && ReadRequest(s) == ([] + ReadRequest(s).0, ReadRequest(s).1)
  {
    assert s.inner.buffer[0..] == s.inner.buffer && [] + ReadRequest(s).0 == ReadRequest(s).0;
  }

  lemma ShownFirst(c: Codec, line: Bytes, more: seq<Bytes>, others: seq<Polled>)
    ensures [Item(Parsed(LineFrame(c, line + CRLF)))] + (Shown(c.(firstLine := false), more) + others) ==
            Shown(c, [line] + more) + others
  {
    assert ([line] + more)[1..] == more;
  }

  lemma HeadLinesFirst(first: bool, line: Bytes, more: seq<Bytes>)
    requires HeadLines(first, [line] + more)
    ensures Line(line) && (first || !IsOws(line[0])) && HeadLines(false, more)
  {
    var lines := [line] + more;
    assert lines[0] == line && forall i :: 0 <= i < |more| ==> more[i] == lines[i + 1];
  }

  lemma JoinedSplits(line: Bytes, more: seq<Bytes>, rest: Bytes)
    ensures Joined([line] + more) + rest == line + CRLF + (Joined(more) + rest)
  {
    JoinedFirst(line, more);
    assert line + CRLF + Joined(more) + rest == line + CRLF + (Joined(more) + rest);
  }

  /** All good lines of a head: one poll each, and nothing read beyond what they need. */
  lemma {:induction false} LinesAreRead(s: Stream, lines: seq<Bytes>, rest: Bytes)
    requires Mid(s) && HeadLines(s.inner.codec.firstLine, lines) && s.Pending() == Joined(lines) + rest
    ensures var t := BehindLines(s, lines);
            && Mid(t) && t.Pending() == rest
            && ReadRequest(s) == (Shown(s.inner.codec, lines) + ReadRequest(t).0, ReadRequest(t).1)
    decreases |lines|
  {
    if lines == [] {
      NoLinesAreRead(s);
      assert [] + rest == rest;
    } else {
      var line, more := lines[0], lines[1..];
      assert lines == [line] + more;
      HeadLinesFirst(s.inner.codec.firstLine, line, more);
      JoinedSplits(line, more, rest);
      hide HeadLines, Line, Shown, PollStream, ReadRequest, LineFrame, Joined, Take, Mid;
      LineIsRead(s, line, Joined(more) + rest);
      var t := BehindLines(s, [line]);
      LinesAreRead(t, more, rest);
      BehindTwice(s, line, more);
      hide BehindLines;
      OneMorePoll(s, Item(Parsed(LineFrame(s.inner.codec, line + CRLF))), t);
      ShownFirst(s.inner.codec, line, more, ReadRequest(BehindLines(t, more)).0);
    }
  }

  // ----- how a head ends -----

  lemma EndStep(c: Codec, b: Bytes)
    requires !c.done && CRLF <= b
    ensures StepDecode(c, b) == Step(Produced(END_OF_HEADERS), c.(done := true), b[2..])
  {
    FirstCrlfOf(b);
  }

  /** The end of a head is decoded as soon as its two bytes are there. */
  lemma EndIsDecoded(r: Reader)
    requires r.Valid() && !r.errored && !r.codec.done && CRLF <= r.Pending() && (!r.readable ==> |r.buffer| < 2)
    ensures var (b, left) := Take(r.buffer, r.script, 2);
            && |b| >= 2
            && PollReader(r) == (Item(Parsed(END_OF_HEADERS)), Reader(r.codec.(done := true), b[2..], left, true, r.eof, false))
  {
    FirstCrlfOf(r.Pending());
    PollTakes(r, 2);
    hide PollReader, StepDecode;
    var k := TakeIsMinimal(r.buffer, r.script, 2);
    var (b, left) := Take(r.buffer, r.script, 2);
    assert CRLF <= b by {
      assert b[..2] == (b + Concat(left))[..2] == r.Pending()[..2];
    }
    EndStep(r.codec, b);
  }

  lemma EndIsPolled(s: Stream, rest: Bytes)
    requires Mid(s) && s.Pending() == rest && CRLF <= rest
    ensures var (b, left) := Take(s.inner.buffer, s.inner.script, 2);
            && |b| >= 2 && NoEmptyRead(left) && (s.inner.eof ==> left == [])
            && PollStream(s) == (Item(Passthrough(CRLF + b[2..])),
                                 Stream(Reader(s.inner.codec.(done := true), [], left, true, s.inner.eof, false), true, false))
  {
    FirstCrlfOf(rest);
    NotYetBuffered(s.inner, 2);
    EndIsDecoded(s.inner);
    TakeKeepsReads(s.inner.buffer, s.inner.script, 2);
    hide PollReader, Take;
  }

  lemma MarkerIsPolled(r: Reader)
    requires r.Valid() && !r.errored && r.buffer == []
    ensures ReadRequest(Stream(r, true, false)) == ([End], Stream(r, true, true))
  {
  }

  /** The end of a head is passed through with what is left of the read it was found in. */
  lemma EmptyLineEnds(s: Stream, rest: Bytes)
    requires Mid(s) && s.Pending() == rest && CRLF <= rest
    ensures var (b, left) := Take(s.inner.buffer, s.inner.script, 2);
            && |b| >= 2
            && ReadRequest(s) == ([Item(Passthrough(CRLF + b[2..])), End],
                                  Stream(Reader(s.inner.codec.(done := true), [], left, true, s.inner.eof, false), true, true))
  {
    EndIsPolled(s, rest);
    hide PollStream, Take;
    var (b, left) := Take(s.inner.buffer, s.inner.script, 2);
    var r, item: Polled := Reader(s.inner.codec.(done := true), [], left, true, s.inner.eof, false), Item(Passthrough(CRLF + b[2..]));
    MarkerIsPolled(r);
    OneMorePoll(s, item, Stream(r, true, false));
    assert [item] + [End] == [item, End];
  }

  lemma ConnectionEnds(s: Stream, rest: Bytes)
    requires Mid(s) && s.Pending() == rest && NoCrlf(rest)
    ensures ReadRequest(s) == ([End], Stream(Reader(s.inner.codec, rest, [], false, true, false), false, false))
  {
    assert FindCrlf(rest).None?;
    PollEnds(s.inner);
  }

  /** How many bytes behind the good lines the decoder has to see to find the end. */
  function EndLength(rest: Bytes, e: Ending): nat {
    match e
    case Incomplete => 0
    case EmptyLine => 2
    case FoldedLine => if FindCrlf(rest).Some? then FindCrlf(rest).value + 2 else 0
  }

  lemma FoldedLineEnds(s: Stream, rest: Bytes)
    requires Mid(s) && s.Pending() == rest && GoesOn(s.inner.codec.firstLine, rest, FoldedLine)
    ensures var (b, left) := Take(s.inner.buffer, s.inner.script, EndLength(rest, FoldedLine));
            ReadRequest(s) == ([Broken(Io)], Stream(Reader(s.inner.codec, b, left, true, s.inner.eof, true), false, false))
  {
    var m := EndLength(rest, FoldedLine);
    NotYetBuffered(s.inner, m);
    PollTakes(s.inner, m);
    var k := TakeIsMinimal(s.inner.buffer, s.inner.script, m);
    var (b, left) := Take(s.inner.buffer, s.inner.script, m);
    FirstLineDecides(s.inner.codec, rest, |b|);
    hide PollReader, Take, FindCrlf;
    FoldedStep(s.inner.codec, b, rest);
  }

  lemma FoldedStep(c: Codec, b: Bytes, rest: Bytes)
    requires !c.done && GoesOn(c.firstLine, rest, FoldedLine) && b <= rest && FindCrlf(b) == FindCrlf(rest)
    ensures StepDecode(c, b) == Step(ObsFold, c, b)
  {
  }

  // ----- whole heads -----

  /** Where a head starts: on a new connection, or behind an end marker. */
  ghost predicate AtHead(s: Stream) {
    && s.Valid() && !s.inner.errored && s.inner.buffer == []
    && if s.headersDone then s.yieldedNone else s.inner.codec == NewCodec(s.inner.codec.matchers)
  }

  function Restarted(s: Stream): Stream {
    Stream(s.inner.(codec := NewCodec(s.inner.codec.matchers)), false, false)
  }

  /** Behind an end marker a head is read like the first one, unless it has no line at all. */
  lemma SameAsFirst(s: Stream)
    requires AtHead(s) && !(s.headersDone && CRLF <= s.Pending())
    ensures Mid(Restarted(s)) && Restarted(s).Pending() == s.Pending()
    ensures ReadRequest(s) == ReadRequest(Restarted(s))
  {
    var inner := Restarted(s).inner;
    if s.headersDone {
      PollIsStep(inner);
      NoEmptyHead(inner.codec, inner.Pending());
      hide PollReader, StepDecode;
      assert PollStream(s) == PollStream(Restarted(s));
    } else {
      assert Restarted(s) == s;
    }
  }

  lemma NoEmptyHead(c: Codec, src: Bytes)
    requires !(CRLF <= src)
    ensures var o := StepDecode(c, src).outcome; o.Produced? ==> o.frame.phase != EndOfHeaders
  {
    assert FindCrlf(src) == Some(0) ==> CRLF <= src by {
      assert |src| >= 2 ==> (CRLF <= src <==> src[0] == CR && src[1] == LF);
    }
  }

  /** What one head becomes: its polls, and the stream behind them. */
  ghost function HeadResult(s: Stream, lines: seq<Bytes>, rest: Bytes, e: Ending): (seq<Polled>, Stream)
    requires AtHead(s) && |s.Pending()| >= |Joined(lines)| + EndLength(rest, e)
  {
    var c, head := NewCodec(s.inner.codec.matchers), |Joined(lines)|;
    var end := AfterLines(c, lines);
    var (b, left) := Take(s.inner.buffer, s.inner.script, head + EndLength(rest, e));
    match e
    case Incomplete => (Shown(c, lines) + [End], Stream(Reader(end, rest, [], false, true, false), false, false))
    case FoldedLine =>
      (Shown(c, lines) + [Broken(Io)], Stream(Reader(end, b[head..], left, true, s.inner.eof, true), false, false))
    case EmptyLine =>
      (Shown(c, lines) + [Item(Passthrough(CRLF + b[head + 2..])), End],
       Stream(Reader(end.(done := true), [], left, true, s.inner.eof, false), true, true))
  }

  /** The head is an empty line where the stream hands the first step out as it is. */
  predicate WedgedStart(s: Stream, lines: seq<Bytes>, e: Ending) {
    s.headersDone && lines == [] && e == EmptyLine
  }

  /**
   * Every head, on any reads: its good lines come out one frame each; the end of the head comes out with
   * the rest of the read it was found in, followed by an end marker, and the stream is at the next head; a
   * folded line breaks the stream; and at the end of the connection an unfinished line is left over.
   */
  lemma HeadIsRead(s: Stream, lines: seq<Bytes>, rest: Bytes, e: Ending)
    requires AtHead(s) && s.Pending() == Joined(lines) + rest
    requires HeadLines(true, lines) && GoesOn(lines == [], rest, e) && !WedgedStart(s, lines, e)
    ensures ReadRequest(s) == HeadResult(s, lines, rest, e)
    ensures e == EmptyLine ==> AtHead(ReadRequest(s).1)
  {
    var first := Restarted(s);
    NotEmptyAgain(s, lines, rest, e);
    SameAsFirst(s);
    LinesAreRead(first, lines, rest);
    var t := BehindLines(first, lines);
    hide ReadRequest, PollStream, Shown, HeadLines, Joined, Take;
    match e
    case Incomplete =>
      ConnectionEnds(t, rest);
    case FoldedLine =>
      FoldedLineEnds(t, rest);
      FoldedLineBehind(first, lines, rest, ReadRequest(t).0, ReadRequest(t).1);
    case EmptyLine =>
      EmptyLineEnds(t, rest);
      EmptyLineBehind(first, lines, rest, ReadRequest(t).0, ReadRequest(t).1);
  }

  lemma FoldedLineBehind(s: Stream, lines: seq<Bytes>, rest: Bytes, polls: seq<Polled>, end: Stream)
    requires AtHead(s) && !s.headersDone && s.Pending() == Joined(lines) + rest && FindCrlf(rest).Some?
    requires var t := BehindLines(s, lines).inner;
             var (b, left) := Take(t.buffer, t.script, EndLength(rest, FoldedLine));
             (polls, end) == ([Broken(Io)], Stream(Reader(t.codec, b, left, true, t.eof, true), false, false))
    ensures HeadResult(s, lines, rest, FoldedLine) == (Shown(s.inner.codec, lines) + polls, end)
  {
    TakeMore(s.inner.buffer, s.inner.script, |Joined(lines)|, EndLength(rest, FoldedLine));
    hide Shown, Joined, Take, Concat, FindCrlf, EndLength;
  }

  lemma EmptyLineBehind(s: Stream, lines: seq<Bytes>, rest: Bytes, polls: seq<Polled>, end: Stream)
    requires AtHead(s) && !s.headersDone && s.Pending() == Joined(lines) + rest && CRLF <= rest
    requires var t := BehindLines(s, lines).inner;
             var (b, left) := Take(t.buffer, t.script, 2);
             && |b| >= 2
             && (polls, end) == ([Item(Passthrough(CRLF + b[2..])), End],
                                 Stream(Reader(t.codec.(done := true), [], left, true, t.eof, false), true, true))
    ensures HeadResult(s, lines, rest, EmptyLine) == (Shown(s.inner.codec, lines) + polls, end)
    ensures AtHead(end)
  {
    TakeMore(s.inner.buffer, s.inner.script, |Joined(lines)|, 2);
    TakeKeepsReads(s.inner.buffer, s.inner.script, |Joined(lines)| + 2);
    hide Shown, Joined, Take, Concat;
  }

  lemma TakeMore(buffer: Bytes, script: seq<Bytes>, n: nat, m: nat)
    requires |buffer + Concat(script)| >= n + m
    ensures var (b, left) := Take(buffer, script, n);
            var (b', left') := Take(buffer, script, n + m);
            && |b| >= n && |b'| >= n + m
            && Take(b[n..], left, m) == (b'[n..], left') && b'[n..][m..] == b'[n + m..]
  {
    TakeTwice(buffer, script, n, m);
  }

  lemma NotEmptyAgain(s: Stream, lines: seq<Bytes>, rest: Bytes, e: Ending)
    requires s.Pending() == Joined(lines) + rest
    requires HeadLines(true, lines) && GoesOn(lines == [], rest, e) && !WedgedStart(s, lines, e)
    ensures s.headersDone ==> !(CRLF <= s.Pending())
  {
    if lines == [] {
      assert [] + rest == rest;
      if CRLF <= rest {
        FirstCrlfOf(rest);
      }
    } else {
      var all := Joined(lines) + rest;
      assert all == lines[0] + CRLF + (Joined(lines[1..]) + rest);
      FindCrlfLine(lines[0], Joined(lines[1..]) + rest);
      if CRLF <= all {
        FirstCrlfOf(all);
      }
    }
  }

  // ----- what is passed through behind a head -----

  /**
   * The bytes passed through behind a head are the rest of the read that completes it, and no other: number
   * `k` is the first read with which the whole head has arrived.
   */
  lemma PassedThroughExactly(s: Stream, lines: seq<Bytes>, rest: Bytes) returns (k: nat)
    requires AtHead(s) && s.Pending() == Joined(lines) + rest && CRLF <= rest
    requires HeadLines(true, lines) && !WedgedStart(s, lines, EmptyLine)
    ensures var head := |Joined(lines)| + 2;
            var script := s.inner.script;
            && 0 < k <= |script| && |Concat(script[..k - 1])| < head <= |Concat(script[..k])|
            && var (polls, t) := ReadRequest(s);
               && polls == Shown(NewCodec(s.inner.codec.matchers), lines) + [Item(Passthrough(CRLF + Concat(script[..k])[head..])), End]
               && AtHead(t) && t.inner.script == script[k..]
  {
    HeadIsRead(s, lines, rest, EmptyLine);
    hide ReadRequest, HeadLines, Take, Shown;
    assert s.Pending() == [] + Concat(s.inner.script) == Concat(s.inner.script);
    k := FirstReads(s.inner.script, |Joined(lines)| + 2);
  }

  /** A first read that holds a whole head: what it holds behind the head is passed through. */
  lemma HeadInOneRead(matchers: seq<Replacement>, lines: seq<Bytes>, extra: Bytes, later: seq<Bytes>)
    requires HeadLines(true, lines) && NoEmptyRead(later)
    ensures NoEmptyRead([Joined(lines) + CRLF + extra] + later)
    ensures var (polls, t) := ReadRequest(FreshStream(matchers, [Joined(lines) + CRLF + extra] + later));
            && polls == Shown(NewCodec(matchers), lines) + [Item(Passthrough(CRLF + extra)), End]
            && AtHead(t) && t.headersDone && t.inner.script == later
  {
    hide ReadRequest, HeadLines, Joined, Shown;
    var first := Joined(lines) + CRLF + extra;
    var rest := CRLF + (extra + Concat(later));
    FirstPending(matchers, Joined(lines), extra, later);
    HeadIsRead(FreshStream(matchers, [first] + later), lines, rest, EmptyLine);
    TakeFirst(first, later, |Joined(lines)| + 2);
    hide Take;
    assert first[|Joined(lines)| + 2..] == extra;
  }

  lemma FirstPending(matchers: seq<Replacement>, head: Bytes, extra: Bytes, later: seq<Bytes>)
    ensures FreshStream(matchers, [head + CRLF + extra] + later).Pending() == head + (CRLF + (extra + Concat(later)))
  {
    ConcatHead([], [head + CRLF + extra] + later);
    hide Concat;
    assert ([head + CRLF + extra] + later)[1..] == later;
    Regroup(head, CRLF, extra, Concat(later));
    assert [] + (head + CRLF + extra) == head + CRLF + extra;
  }

  lemma Regroup(a: Bytes, b: Bytes, c: Bytes, d: Bytes)
    ensures a + b + c + d == a + (b + (c + d))
  {
  }

  lemma TakeFirst(first: Bytes, later: seq<Bytes>, m: nat)
    requires 0 < m <= |first|
    ensures Take([], [first] + later, m) == (first, later)
  {
    assert ([first] + later)[1..] == later && [] + first == first;
  }

  /** The same bytes, cut behind the head or not: in one read the rest is passed through, in two it starts the next head. */
  lemma TwoCuttings(matchers: seq<Replacement>, lines: seq<Bytes>, more: Bytes)
    requires HeadLines(true, lines) && more != []
    ensures var head, frames := Joined(lines) + CRLF, Shown(NewCodec(matchers), lines);
            var (polls, t) := ReadRequest(FreshStream(matchers, [head + more]));
            var (polls', t') := ReadRequest(FreshStream(matchers, [head, more]));
            && polls == frames + [Item(Passthrough(CRLF + more)), End] && t.inner.script == []
            && polls' == frames + [Item(Passthrough(CRLF)), End] && t'.inner.script == [more]
            && AtHead(t') && t'.headersDone
  {
    var head := Joined(lines) + CRLF;
    assert [head + more] + [] == [head + more] && [head] + [more] == [head, more];
    assert head + [] == head && CRLF + [] == CRLF;
    HeadInOneRead(matchers, lines, more, []);
    HeadInOneRead(matchers, lines, [], [more]);
  }

  // ----- an empty line where a later head should start -----

  /** The decoder has seen the end of a head, but the stream has not. */
  ghost predicate Wedged(s: Stream) {
    s.Valid() && !s.headersDone && s.inner.codec.done
  }

  /** That happens exactly when the first line behind an end marker is empty, with whatever read it comes. */
  lemma WedgesExactly(s: Stream)
    requires s.Valid() && !Wedged(s)
    ensures Wedged(PollStream(s).1) <==> s.headersDone && s.yieldedNone && s.inner.buffer == [] && CRLF <= s.Pending()
  {
    if s.headersDone {
      if s.inner.buffer == [] && s.yieldedNone {
        var inner := Restarted(s).inner;
        assert inner.Pending() == s.Pending();
        if CRLF <= s.Pending() {
          EndIsDecoded(inner);
        } else {
          PollIsStep(inner);
          NoEmptyHead(inner.codec, inner.Pending());
          DoneByEnd(inner.codec, inner.Pending());
        }
      }
    } else {
      PollIsStep(s.inner);
      DoneByEnd(s.inner.codec, s.inner.Pending());
      EndIsSeparator(s.inner.codec, s.inner.Pending());
    }
  }

  lemma DoneByEnd(c: Codec, src: Bytes)
    requires !c.done
    ensures var s := StepDecode(c, src); s.codec.done ==> s.outcome.Produced? && s.outcome.frame.phase == EndOfHeaders
  {
  }

  /** From then on the connection is stuck: every poll is an end marker and no byte comes out any more. */
  lemma {:induction false} WedgedForever(s: Stream, n: nat)
    requires Wedged(s)
    ensures var (polls, t) := Polls(s, n);
            && Wedged(t) && t.Pending() == s.Pending()
            && forall i :: 0 <= i < n ==> polls[i] == End
  {
    if n > 0 {
      WedgedForever(s, n - 1);
      var (before, t) := Polls(s, n - 1);
      PollIsStep(t.inner);
      NothingWhenDone(t.inner.codec, t.Pending());
    }
  }

  lemma NothingWhenDone(c: Codec, src: Bytes)
    requires c.done
    ensures StepDecode(c, src) == Step(NeedMore, c, src)
  {
  }

  /** A concrete connection that gets stuck: a head, and in the next read an empty line and anything else. */
  lemma StrayLineEndWedges(matchers: seq<Replacement>, lines: seq<Bytes>, more: Bytes)
    requires HeadLines(true, lines)
    ensures var (polls, t) := ReadRequest(FreshStream(matchers, [Joined(lines) + CRLF, CRLF + more]));
            && t.inner.script == [CRLF + more]
            && Wedged(PollStream(t).1)
  {
    TwoCuttings(matchers, lines, CRLF + more);
    var (polls, t) := ReadRequest(FreshStream(matchers, [Joined(lines) + CRLF, CRLF + more]));
    hide ReadRequest, PollStream;
    assert [] + [CRLF + more] == [CRLF + more];
    ConcatSnoc([], CRLF + more);
    assert t.Pending() == [] + (CRLF + more);
    WedgesExactly(t);
  }
}
