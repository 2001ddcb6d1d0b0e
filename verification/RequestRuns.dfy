/** The request stream over a whole keep-alive connection: one head after another. */
module RequestRuns {
  import opened Common
  import opened Crlf
  import opened Events
  import opened HttpFrames
  import opened RequestCodec
  import opened RequestStream
  import opened RequestHeads

  /** The polls of `n` requests: what a driver that reads request after request is given. */
  function ClientScript(s: Stream, n: nat): seq<Polled>
    requires s.Valid()
    decreases n
  {
    if n == 0 then []
    else
      var (polls, t) := ReadRequest(s);
      polls + ClientScript(t, n - 1)
  }

  // ----- the first head of a connection -----

  ghost predicate Complete(script: seq<Bytes>) {
    SplitHead(true, Concat(script)).2 == EmptyLine
  }

  lemma HeadFits(src: Bytes)
    ensures var (lines, rest, e) := SplitHead(true, src);
            |Joined(lines)| + EndLength(rest, e) <= |src|
  {
    var lines, rest, e := EveryInputIsAHead(true, src);
  }

  lemma TakesSome(script: seq<Bytes>, m: nat)
    requires 0 < m <= |Concat(script)|
    ensures |Take([], script, m).1| < |script|
  {
    var k := FirstReads(script, m);
  }

  /** The reads up to the one that completes the head, and how long the head is. */
  ghost function HeadReads(script: seq<Bytes>): (result: (Bytes, nat))
    requires Complete(script)
    ensures result.1 <= |result.0|
  {
    var m := |Joined(SplitHead(true, Concat(script)).0)| + 2;
    HeadFits(Concat(script));
    assert [] + Concat(script) == Concat(script);
    (Take([], script, m).0, m)
  }

  /** What that read holds behind the head. */
  ghost function Extra(script: seq<Bytes>): Bytes
    requires Complete(script)
  {
    var (b, m) := HeadReads(script);
    b[m..]
  }

  /** The reads behind it. */
  ghost function Later(script: seq<Bytes>): (later: seq<Bytes>)
    requires Complete(script)
    ensures |later| < |script|
  {
    var m := |Joined(SplitHead(true, Concat(script)).0)| + 2;
    HeadFits(Concat(script));
    TakesSome(script, m);
    Take([], script, m).1
  }

  /** Number `k` is the first read with which the whole head has arrived: it alone is cut. */
  lemma CompletingRead(script: seq<Bytes>) returns (k: nat)
    requires Complete(script)
    ensures var m := HeadReads(script).1;
            && 0 < k <= |script| && |Concat(script[..k - 1])| < m <= |Concat(script[..k])|
            && HeadReads(script).0 == Concat(script[..k])
            && Extra(script) == Concat(script[..k])[m..] && Later(script) == script[k..]
  {
    HeadFits(Concat(script));
    k := FirstReads(script, HeadReads(script).1);
  }

  /** The first head behind an end marker has no line at all. */
  ghost predicate StrayLineEnd(again: bool, script: seq<Bytes>) {
    again && Complete(script) && SplitHead(true, Concat(script)).0 == []
  }

  ghost function PollsOfHead(matchers: seq<Replacement>, again: bool, script: seq<Bytes>): seq<Polled> {
    var (lines, rest, e) := SplitHead(true, Concat(script));
    if StrayLineEnd(again, script) then [Item(Parsed(END_OF_HEADERS)), End]
    else
      Shown(NewCodec(matchers), lines) +
      match e
      case Incomplete => [End]
      case FoldedLine => [Broken(Io)]
      case EmptyLine => [Item(Passthrough(CRLF + Extra(script))), End]
  }

  /** An empty line where a later head should start comes out as a frame, and no later request does. */
  lemma WedgedHead(s: Stream)
    requires AtHead(s) && s.headersDone && CRLF <= s.Pending()
    ensures ReadRequest(s).0 == [Item(Parsed(END_OF_HEADERS)), End] && Wedged(ReadRequest(s).1)
  {
    var inner := Restarted(s).inner;
    assert inner.Pending() == s.Pending();
    EndIsDecoded(inner);
    var item: Polled, r := Item(Parsed(END_OF_HEADERS)), PollReader(inner).1;
    PollEnds(r);
    OneMorePoll(s, item, Stream(r, false, false));
    assert [item] + [End] == [item, End];
  }

  /** Where a connection has no further request: at its end, broken, or stuck. */
  ghost predicate Over(s: Stream) {
    s.Valid() && !s.headersDone && (s.inner.errored || Wedged(s) || (s.inner.eof && !s.inner.readable))
  }

  /** The first head as it is polled, and where the stream is behind it. */
  lemma FirstHead(s: Stream)
    requires AtHead(s)
    ensures var (polls, t) := ReadRequest(s);
            var script := s.inner.script;
            && polls == PollsOfHead(s.inner.codec.matchers, s.headersDone, script)
            && if Complete(script) && !StrayLineEnd(s.headersDone, script) then
                 AtHead(t) && t.headersDone && t.inner.script == Later(script) && t.inner.codec.matchers == s.inner.codec.matchers
               else Over(t)
  {
    var script := s.inner.script;
    var lines, rest, e := EveryInputIsAHead(true, Concat(script));
    assert s.Pending() == [] + Concat(script) == Concat(script);
    if StrayLineEnd(s.headersDone, script) {
      assert [] + rest == rest;
      WedgedHead(s);
    } else {
      HeadFits(Concat(script));
      HeadIsRead(s, lines, rest, e);
      hide ReadRequest, SplitHead, HeadLines, GoesOn, Joined, Take, Shown, Concat, HeadResult;
      ResultIsPolls(s, lines, rest, e);
    }
  }

  lemma ResultIsPolls(s: Stream, lines: seq<Bytes>, rest: Bytes, e: Ending)
    requires AtHead(s) && (lines, rest, e) == SplitHead(true, Concat(s.inner.script)) && !StrayLineEnd(s.headersDone, s.inner.script)
    requires |s.Pending()| >= |Joined(lines)| + EndLength(rest, e) && HeadResult(s, lines, rest, e).1.Valid()
    ensures var (polls, t) := HeadResult(s, lines, rest, e);
            && polls == PollsOfHead(s.inner.codec.matchers, s.headersDone, s.inner.script)
            && if e == EmptyLine then
                 t.headersDone && t.inner.script == Later(s.inner.script) && t.inner.codec.matchers == s.inner.codec.matchers
               else Over(t)
  {
    hide SplitHead, Joined, Take, Shown, Concat, NoEmptyRead;
  }

  /** The first head in front of the other requests of a script. */
  lemma HeadOfScript(s: Stream, n: nat) returns (t: Stream)
    requires AtHead(s) && n > 0
    ensures t.Valid() && ClientScript(s, n) == PollsOfHead(s.inner.codec.matchers, s.headersDone, s.inner.script) + ClientScript(t, n - 1)
    ensures if Complete(s.inner.script) && !StrayLineEnd(s.headersDone, s.inner.script) then
              AtHead(t) && t.headersDone && t.inner.script == Later(s.inner.script) && t.inner.codec.matchers == s.inner.codec.matchers
            else Over(t)
  {
    FirstHead(s);
    t := ReadRequest(s).1;
  }

  /** A connection that is over only says so, once more for every poll. */
  lemma OverStays(s: Stream)
    requires Over(s)
    ensures ReadRequest(s).0 == [End]
  {
    if Wedged(s) && !s.inner.errored {
      PollEnds(s.inner);
    }
  }

  // ----- all heads of a connection -----

  /**
   * What a connection shows, as a function of its reads alone. Behind a head that ends in an empty line the
   * rest of the read that completes it is passed through, and the next head starts with the next read. That
   * goes on up to the end of the connection, a folded line, or an empty line where a later head should start.
   */
  ghost function HeadByHead(matchers: seq<Replacement>, again: bool, script: seq<Bytes>): seq<Polled>
    decreases |script|
  {
    PollsOfHead(matchers, again, script) +
    if Complete(script) && !StrayLineEnd(again, script) then HeadByHead(matchers, true, Later(script)) else []
  }

  /** How many heads a connection has up to there. */
  ghost function HeadCount(again: bool, script: seq<Bytes>): nat
    decreases |script|
  {
    1 + if Complete(script) && !StrayLineEnd(again, script) then HeadCount(true, Later(script)) else 0
  }

  /** A connection shows one head after another, each as if it were the first, however the bytes are cut into reads. */
  lemma {:induction false} ConnectionIsHeads(s: Stream)
    requires AtHead(s)
    ensures ClientScript(s, HeadCount(s.headersDone, s.inner.script)) ==
            HeadByHead(s.inner.codec.matchers, s.headersDone, s.inner.script)
    decreases |s.inner.script|
  {
    hide PollsOfHead, StrayLineEnd, Complete, AtHead, Over, NoEmptyRead, PollStream, ReadRequest, Concat, SplitHead;
    var t := HeadOfScript(s, HeadCount(s.headersDone, s.inner.script));
    if Complete(s.inner.script) && !StrayLineEnd(s.headersDone, s.inner.script) {
      ConnectionIsHeads(t);
    } else {
      assert ClientScript(t, 0) == [];
    }
  }
}
