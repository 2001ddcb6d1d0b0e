/**
 * Client bytes to upstream bytes: the request stream in front of the driver. What goes upstream is a
 * function of the client's bytes and of how they are cut into reads.
 */
module HttpRuns {
  import opened Common
  import opened Crlf
  import opened Events
  import opened HttpFrames
  import opened Deriver
  import opened Hook
  import opened RequestStream
  import opened RequestHeads
  import opened RequestRuns
  import opened Driver
  import opened DriverSafety
  import opened HttpDriver
  import RequestCodec

  type Replacement = RequestCodec.Replacement

  // ----- the items of a head -----

  function ParsedItems(frames: seq<HttpFrame>): (items: seq<ParsedData<HttpFrame>>)
    ensures |items| == |frames|
  {
    seq(|frames|, i requires 0 <= i < |frames| => Parsed(frames[i]))
  }

  /** The good lines a connection starts with. */
  function FirstLines(script: seq<Bytes>): seq<Bytes> {
    RequestCodec.SplitHead(true, Concat(script)).0
  }

  function LineItems(matchers: seq<Replacement>, lines: seq<Bytes>): seq<ParsedData<HttpFrame>> {
    ParsedItems(RequestCodec.LineFrames(RequestCodec.NewCodec(matchers), lines))
  }

  /** What the driver is given of the first head: its lines, and its end if it has one, with the rest of that read. */
  ghost function HeadItems(matchers: seq<Replacement>, script: seq<Bytes>): seq<ParsedData<HttpFrame>> {
    LineItems(matchers, FirstLines(script)) + if Complete(script) then [Passthrough(CRLF + Extra(script))] else []
  }

  lemma {:induction false} ShownIsItems(c: RequestCodec.Codec, lines: seq<Bytes>)
    ensures Shown(c, lines) == AsItems(ParsedItems(RequestCodec.LineFrames(c, lines)))
    decreases |lines|
  {
    if lines != [] {
      ShownIsItems(c.(firstLine := false), lines[1..]);
      var f, fs := RequestCodec.LineFrame(c, lines[0] + CRLF), RequestCodec.LineFrames(c.(firstLine := false), lines[1..]);
      assert AsItems(ParsedItems([f] + fs)) == [Item(Parsed(f))] + AsItems(ParsedItems(fs));
    }
  }

  lemma PollsAreItems(matchers: seq<Replacement>, again: bool, script: seq<Bytes>) returns (last: Polled)
    requires !StrayLineEnd(again, script)
    ensures !last.Item? && PollsOfHead(matchers, again, script) == AsItems(HeadItems(matchers, script)) + [last]
  {
    var lines := FirstLines(script);
    var shown := AsItems(LineItems(matchers, lines));
    ShownIsItems(RequestCodec.NewCodec(matchers), lines);
    match RequestCodec.SplitHead(true, Concat(script)).2
    case Incomplete =>
      last := End;
      assert LineItems(matchers, lines) + [] == LineItems(matchers, lines);
    case FoldedLine =>
      last := Broken(Io);
      assert LineItems(matchers, lines) + [] == LineItems(matchers, lines);
    case EmptyLine =>
      last := End;
      var end: ParsedData<HttpFrame> := Passthrough(CRLF + Extra(script));
      assert AsItems(LineItems(matchers, lines) + [end]) == shown + [Item(end)];
      assert shown + [Item(end), End] == shown + [Item(end)] + [End];
  }

  lemma {:induction false} FramesOfItems(frames: seq<HttpFrame>)
    ensures Frames(ParsedItems(frames)) == frames
  {
    if frames != [] {
      FramesOfItems(frames[1..]);
      assert ParsedItems(frames)[1..] == ParsedItems(frames[1..]);
    }
  }

  /** The hook sees the lines of a head and nothing else; what is written is the lines, and the passed-through end. */
  lemma HeadIsWritten(cfg: Config<HttpFrame>, matchers: seq<Replacement>, script: seq<Bytes>)
    ensures Frames(HeadItems(matchers, script)) == RequestCodec.LineFrames(RequestCodec.NewCodec(matchers), FirstLines(script))
    ensures Outgoing(cfg, HeadItems(matchers, script)) ==
            Outgoing(cfg, LineItems(matchers, FirstLines(script))) + if Complete(script) then CRLF + Extra(script) else []
  {
    var lines := LineItems(matchers, FirstLines(script));
    FramesOfItems(RequestCodec.LineFrames(RequestCodec.NewCodec(matchers), FirstLines(script)));
    if Complete(script) {
      var end: ParsedData<HttpFrame> := Passthrough(CRLF + Extra(script));
      OutgoingAppend(cfg, lines, [end]);
      FramesAppend(lines, [end]);
      assert [end][1..] == [] && CRLF + Extra(script) + [] == CRLF + Extra(script);
      assert Frames(lines) + [] == Frames(lines);
    } else {
      assert lines + [] == lines;
    }
  }

  // ----- from reads to upstream writes -----

  /**
   * Everything that goes upstream of a connection. The first head is sent if it has a routing key, keeps its
   * budgets, is accepted and has a destination. Only behind a head that ended in an empty line is there another
   * one: it starts with the read behind the one that completed its predecessor.
   */
  ghost function FromReads(cfg: Config<HttpFrame>, world: nat -> World<HttpFrame>, i: nat, matchers: seq<Replacement>,
                           script: seq<Bytes>): seq<Effect>
    decreases |script|
  {
    var items := HeadItems(matchers, script);
    if !Sends(cfg, world(i), items) then []
    else
      [Upstream(Destination(cfg, world(i)).value, Outgoing(cfg, items))] +
      if Complete(script) && Reusable(cfg, world(i), Frames(items)) then FromReads(cfg, world, i + 1, matchers, Later(script)) else []
  }

  lemma NoKeyNoSend(cfg: Config<HttpFrame>, w: World<HttpFrame>, items: seq<ParsedData<HttpFrame>>)
    requires forall i :: 0 <= i < |items| ==> Key(cfg, items[i]).None?
    ensures !Sends(cfg, w, items)
  {
  }

  lemma NothingToSend(cfg: Config<HttpFrame>, world: nat -> World<HttpFrame>, i: nat, items: seq<ParsedData<HttpFrame>>,
                      last: Polled, more: seq<Polled>)
    requires !last.Item? && forall k :: 0 <= k < |items| ==> Key(cfg, items[k]).None?
    ensures Requests(cfg, world, i, AsItems(items) + [last] + more) == []
  {
    NoKeyNoSend(cfg, world(i), items);
    hide Sends, Requests;
    RequestsOfItems(cfg, world, i, items, last, more);
  }

  lemma NothingBehindTheEnd(cfg: Config<HttpFrame>, world: nat -> World<HttpFrame>, i: nat, s: Stream, n: nat)
    requires Over(s)
    ensures Requests(cfg, world, i, ClientScript(s, n)) == []
  {
    if n == 0 {
      NothingWithoutEvents(cfg, world, i);
    } else {
      OverStays(s);
      hide Requests, ReadRequest, Over;
      var more := ClientScript(ReadRequest(s).1, n - 1);
      assert AsItems([]) + [End] + more == [End] + more;
      NothingToSend(cfg, world, i, [], End, more);
    }
  }

  lemma NothingWithoutEvents(cfg: Config<HttpFrame>, world: nat -> World<HttpFrame>, i: nat)
    ensures Requests(cfg, world, i, []) == []
  {
  }

  /** An empty line where a head should start is never sent. */
  lemma StrayIsNotSent(cfg: Config<HttpFrame>, world: nat -> World<HttpFrame>, i: nat, matchers: seq<Replacement>, again: bool,
                       script: seq<Bytes>, more: seq<Polled>)
    requires NoKeyAtEnd(cfg) && StrayLineEnd(again, script)
    ensures Requests(cfg, world, i, PollsOfHead(matchers, again, script) + more) == []
    ensures FromReads(cfg, world, i, matchers, script) == []
  {
    var end: ParsedData<HttpFrame> := Parsed(END_OF_HEADERS);
    var polls: seq<Polled> := [Item(end), End];
    assert AsItems([end]) + [End] == polls;
    NothingToSend(cfg, world, i, [end], End, more);
    NoKeyNoSend(cfg, world(i), HeadItems(matchers, script));
  }

  /** One head that is sent or not, and what is sent behind it. */
  lemma RequestOfHead(cfg: Config<HttpFrame>, world: nat -> World<HttpFrame>, i: nat, matchers: seq<Replacement>, again: bool,
                      script: seq<Bytes>, more: seq<Polled>)
    requires !StrayLineEnd(again, script)
    requires Requests(cfg, world, i + 1, more) ==
             if Complete(script) then FromReads(cfg, world, i + 1, matchers, Later(script)) else []
    ensures Requests(cfg, world, i, PollsOfHead(matchers, again, script) + more) == FromReads(cfg, world, i, matchers, script)
  {
    hide PollsOfHead, HeadItems, Requests, Complete, Sends, Reusable, Outgoing, Frames;
    var last := PollsAreItems(matchers, again, script);
    RequestsOfItems(cfg, world, i, HeadItems(matchers, script), last, more);
  }

  /** Reading, framing, checking and writing put together, from any head of a connection on. */
  lemma {:induction false} RequestsOfReads(cfg: Config<HttpFrame>, world: nat -> World<HttpFrame>, i: nat, s: Stream, n: nat)
    requires NoKeyAtEnd(cfg) && AtHead(s) && n > |s.inner.script|
    ensures Requests(cfg, world, i, ClientScript(s, n)) == FromReads(cfg, world, i, s.inner.codec.matchers, s.inner.script)
    decreases n
  {
    hide *;
    var t := HeadOfScript(s, n);
    var matchers, script, more := s.inner.codec.matchers, s.inner.script, ClientScript(t, n - 1);
    if StrayLineEnd(s.headersDone, script) {
      StrayIsNotSent(cfg, world, i, matchers, s.headersDone, script, more);
    } else {
      if Complete(script) {
        RequestsOfReads(cfg, world, i + 1, t, n - 1);
      } else {
        NothingBehindTheEnd(cfg, world, i + 1, t, n - 1);
      }
      RequestOfHead(cfg, world, i, matchers, s.headersDone, script, more);
    }
  }

  /** What a connection sends upstream while the first `n` requests of its stream are polled. */
  ghost function SentUpstream(cfg: Config<HttpFrame>, world: nat -> World<HttpFrame>, matchers: seq<Replacement>, script: seq<Bytes>,
                              n: nat): seq<Effect>
    requires NoEmptyRead(script)
  {
    UpstreamWrites(AllEffects(Run(cfg, world, ClientScript(FreshStream(matchers, script), n))))
  }

  /**
   * The whole request side: what a connection sends upstream is decided by the client's bytes and their reads.
   * One poll round for every read, and one more, show everything; further rounds change nothing.
   */
  lemma ConnectionFromReads(cfg: Config<HttpFrame>, world: nat -> World<HttpFrame>, matchers: seq<Replacement>, script: seq<Bytes>, n: nat)
    requires NoKeyAtEnd(cfg) && NoEmptyRead(script) && n > |script|
    ensures SentUpstream(cfg, world, matchers, script, n) == FromReads(cfg, world, 0, matchers, script)
  {
    hide Run, Requests, FromReads, ClientScript;
    ConnectionUpstreamExactly(cfg, world, ClientScript(FreshStream(matchers, script), n));
    RequestsOfReads(cfg, world, 0, FreshStream(matchers, script), n);
  }
}
