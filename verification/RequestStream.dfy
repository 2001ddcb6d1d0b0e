/**
 * The request side of a keep-alive connection: heads come out frame by frame, whatever is already
 * buffered behind a head is passed through, and an end marker separates requests.
 *
 * `PollReader` and `PollStream` say what one poll does with what has been read and what is still to be
 * read; the classes at the end are the reader and the stream themselves.
 */
module RequestStream {
  import opened Common
  import opened Crlf
  import opened Events
  import opened HttpFrames
  import opened RequestCodec

  type Polled = Event<HttpFrame>

  /** Bytes handed out by a poll. */
  function Carried(r: Polled): Bytes {
    match r
    case Item(Parsed(frame)) => frame.data
    case Item(Passthrough(bytes)) => bytes
    case _ => []
  }

  /** A request line: the frame requests are routed by. */
  predicate Routes(r: Polled) {
    r.Item? && r.data.Parsed? && r.data.frame.routing
  }

  // ----- one poll -----

  /** A codec over a socket. The script holds the reads to come; behind it the socket is at its end. */
  datatype Reader = Reader(codec: Codec, buffer: Bytes, script: seq<Bytes>, readable: bool, eof: bool, errored: bool) {
    /** Bytes that were not handed out yet: buffered ones and those still to be read. */
    function Pending(): Bytes {
      buffer + Concat(script)
    }

    ghost predicate Valid() {
      NoEmptyRead(script) && (eof ==> script == [])
    }
  }

  /**
   * Decode what is buffered, read when that is not enough, and note the end of the socket once. Behind a
   * failure there is one end marker, and then another read before anything else is decoded.
   */
  function PollReader(r: Reader): (result: (Polled, Reader))
    requires r.Valid()
    ensures result.1.Valid() && |result.1.Pending()| <= |r.Pending()|
    ensures result.0.Item? ==> |result.1.Pending()| < |r.Pending()|
    decreases |r.script|, !r.eof, r.readable
  {
    if r.errored then (End, r.(readable := false, errored := false))
    else if r.readable then
      var s := StepDecode(r.codec, r.buffer);
      match s.outcome
      case Produced(frame) => (Item(Parsed(frame)), r.(codec := s.codec, buffer := s.rest))
      case ObsFold => (Broken(Io), r.(errored := true))
      case NeedMore => if r.eof then (End, r.(readable := false)) else PollReader(r.(readable := false))
    else if r.script != [] then
      PollReader(r.(buffer := r.buffer + r.script[0], script := r.script[1..], readable := true, eof := false))
    else if !r.eof then PollReader(r.(readable := true, eof := true))
    else (End, r)
  }

  /** A framed reader, and where its stream is: behind a head, and behind the end marker of that head. */
  datatype Stream = Stream(inner: Reader, headersDone: bool, yieldedNone: bool) {
    function Pending(): Bytes {
      inner.Pending()
    }

    ghost predicate Valid() {
      inner.Valid() && (yieldedNone ==> headersDone) && (headersDone ==> !inner.errored)
    }
  }

  /**
   * Behind a head the buffered bytes come first, then one end marker; the poll after the marker resets
   * the codec and hands out its first step as it is. Within a head the end of the head is passed through
   * together with whatever is buffered behind it.
   */
  function PollStream(s: Stream): (result: (Polled, Stream))
    requires s.Valid()
    ensures result.1.Valid() && |result.1.Pending()| <= |s.Pending()|
    ensures result.0.Item? ==> |result.1.Pending()| < |s.Pending()|
  {
    if s.headersDone && s.inner.buffer != [] then
      (Item(Passthrough(s.inner.buffer)), s.(inner := s.inner.(buffer := [])))
    else if s.headersDone && !s.yieldedNone then (End, s.(yieldedNone := true))
    else if s.headersDone then
      var (r, inner) := PollReader(s.inner.(codec := NewCodec(s.inner.codec.matchers)));
      (r, Stream(inner, false, false))
    else
      var (r, inner) := PollReader(s.inner);
      if r.Item? && r.data.Parsed? && r.data.frame.phase == EndOfHeaders then
        NotErrored(s.inner);
        (Item(Passthrough(CRLF + inner.buffer)), Stream(inner.(buffer := []), true, false))
      else (r, s.(inner := inner))
  }

  lemma {:induction false} NotErrored(r: Reader)
    requires r.Valid() && PollReader(r).0.Item?
    ensures !PollReader(r).1.errored
    decreases |r.script|, !r.eof, r.readable
  {
    if !r.errored {
      if r.readable {
        if StepDecode(r.codec, r.buffer).outcome.NeedMore? && !r.eof {
          NotErrored(r.(readable := false));
        }
      } else if r.script != [] {
        NotErrored(r.(buffer := r.buffer + r.script[0], script := r.script[1..], readable := true, eof := false));
      } else if !r.eof {
        NotErrored(r.(readable := true, eof := true));
      }
    }
  }

  function FreshReader(matchers: seq<Replacement>, script: seq<Bytes>): Reader {
    Reader(NewCodec(matchers), [], script, false, false, false)
  }

  function FreshStream(matchers: seq<Replacement>, script: seq<Bytes>): Stream {
    Stream(FreshReader(matchers, script), false, false)
  }

  // ----- the reader and the stream -----

  class FramedRead {
    const codec: HttpStreamingCodec
    const buffer: BytesMut
    var script: seq<Bytes>
    var readable: bool
    var eof: bool
    var errored: bool

    ghost function View(): Reader
      reads this, codec, buffer
    {
      Reader(codec.View(), buffer.data, script, readable, eof, errored)
    }

    constructor (matchers: seq<Replacement>, script: seq<Bytes>)
      ensures fresh(codec) && fresh(buffer) && View() == FreshReader(matchers, script)
    {
      codec := new HttpStreamingCodec(matchers);
      buffer := new BytesMut();
      this.script := script;
      readable, eof, errored := false, false, false;
    }

    method PollNext() returns (r: Polled)
      requires View().Valid()
      modifies this, codec, buffer
      ensures (r, View()) == PollReader(old(View()))
    {
      if errored {
        readable, errored := false, false;
        return End;
      }
      while true
        invariant View().Valid() && !errored
        invariant PollReader(View()) == PollReader(old(View()))
        decreases |script|, !eof, readable
      {
        if readable {
          ghost var before := View();
          var o: Outcome;
          if eof {
            o := codec.DecodeEof(buffer);
          } else {
            o := codec.Decode(buffer);
          }
          match o
          case Produced(frame) =>
            return Item(Parsed(frame));
          case ObsFold =>
            NeedMoreKeeps(before.codec, before.buffer);
            errored := true;
            return Broken(Io);
          case NeedMore =>
            NeedMoreKeeps(before.codec, before.buffer);
            readable := false;
            if eof {
              return End;
            }
        }
        if script != [] {
          buffer.ExtendFromSlice(script[0]);
          script := script[1..];
          eof := false;
        } else {
          if eof {
            return End;
          }
          eof := true;
        }
        readable := true;
      }
    }
  }

  class HttpFrameStream {
    const inner: FramedRead
    var headersDone: bool
    var yieldedNone: bool

    ghost function View(): Stream
      reads this, inner, inner.codec, inner.buffer
    {
      Stream(inner.View(), headersDone, yieldedNone)
    }

    constructor (matchers: seq<Replacement>, script: seq<Bytes>)
      ensures fresh(inner) && fresh(inner.codec) && fresh(inner.buffer)
      ensures View() == FreshStream(matchers, script)
    {
      inner := new FramedRead(matchers, script);
      headersDone, yieldedNone := false, false;
    }

    method PollNext() returns (r: Polled)
      requires View().Valid()
      modifies this, inner, inner.codec, inner.buffer
      ensures (r, View()) == PollStream(old(View()))
    {
      hide PollReader;
      if headersDone {
        if inner.buffer.data != [] {
          var chunk := inner.buffer.Split();
          return Item(Passthrough(chunk));
        }
        if !yieldedNone {
          yieldedNone := true;
          return End;
        }
        headersDone := false;
        yieldedNone := false;
        inner.codec.Reset();
        r := inner.PollNext();
        return;
      }
      r := inner.PollNext();
      if r.Item? && r.data.Parsed? && r.data.frame.phase == EndOfHeaders {
        headersDone := true;
        if inner.buffer.data == [] {
          assert CRLF + [] == CRLF;
          return Item(Passthrough(CRLF));
        }
        var body := inner.buffer.Split();
        return Item(Passthrough(CRLF + body));
      }
    }
  }

  // ----- a poll is the next step on everything still to come -----

  /**
   * What a poll of the reader says, with the codec in state `c` and `pending` still to come, and the codec
   * in state `c'` and `pending'` to come afterwards.
   */
  ghost predicate IsStep(r: Polled, c: Codec, pending: Bytes, c': Codec, pending': Bytes) {
    var s := StepDecode(c, pending);
    match r
    case Item(Parsed(frame)) => s == Step(Produced(frame), c', pending')
    case Item(Passthrough(_)) => false
    case Broken(_) => s.outcome == ObsFold && c' == c && pending' == pending
    case End => c' == c && pending' == pending
  }

  lemma BufferedStep(c: Codec, buffered: Bytes, more: Bytes)
    requires !StepDecode(c, buffered).outcome.NeedMore?
    ensures var s := StepDecode(c, buffered);
            StepDecode(c, buffered + more) == Step(s.outcome, s.codec, s.rest + more)
  {
    StepIgnoresMore(c, buffered, more);
  }

  lemma ReadKeepsPending(r: Reader)
    requires r.script != []
    ensures r.(buffer := r.buffer + r.script[0], script := r.script[1..], readable := true, eof := false).Pending() == r.Pending()
  {
    assert r.buffer + (r.script[0] + Concat(r.script[1..])) == r.buffer + r.script[0] + Concat(r.script[1..]);
  }

  /** However few bytes have been read, a poll decodes as if all of them were there. */
  lemma {:induction false} PollIsStep(r: Reader)
    requires r.Valid()
    ensures var (result, t) := PollReader(r);
            IsStep(result, r.codec, r.Pending(), t.codec, t.Pending())
    decreases |r.script|, !r.eof, r.readable
  {
    if !r.errored {
      if r.readable {
        if StepDecode(r.codec, r.buffer).outcome.NeedMore? {
          if !r.eof {
            PollIsStep(r.(readable := false));
          }
        } else {
          BufferedStep(r.codec, r.buffer, Concat(r.script));
        }
      } else if r.script != [] {
        ReadKeepsPending(r);
        PollIsStep(r.(buffer := r.buffer + r.script[0], script := r.script[1..], readable := true, eof := false));
      } else if !r.eof {
        PollIsStep(r.(readable := true, eof := true));
      }
    }
  }

  lemma ReaderConserves(r: Reader)
    requires r.Valid() && NextUntouched(r.codec, r.Pending())
    ensures var (result, t) := PollReader(r);
            && t.codec.matchers == r.codec.matchers && r.Pending() == Carried(result) + t.Pending()
            && (result.Item? && result.data.Parsed? && result.data.frame.phase == EndOfHeaders ==> Carried(result) == CRLF)
  {
    PollIsStep(r);
    StepConserves(r.codec, r.Pending());
    EndIsSeparator(r.codec, r.Pending());
    hide PollReader, StepDecode;
    assert PollReader(r).0.Broken? || PollReader(r).0.End? ==> [] + r.Pending() == r.Pending();
  }

  /** Taking the buffer out is handing out its bytes. */
  lemma SplitConserves(head: Bytes, r: Reader)
    ensures head + r.Pending() == head + r.buffer + r.(buffer := []).Pending()
  {
    assert [] + Concat(r.script) == Concat(r.script);
    assert head + (r.buffer + Concat(r.script)) == head + r.buffer + Concat(r.script);
  }

  /** The codec the next line is decoded with. */
  function NextCodec(s: Stream): Codec {
    if s.headersDone then NewCodec(s.inner.codec.matchers) else s.inner.codec
  }

  /** Unless a replacement applies, a poll hands out the next bytes of the connection and drops none. */
  lemma PollConserves(s: Stream)
    requires s.Valid() && NextUntouched(NextCodec(s), s.Pending())
    ensures var (r, t) := PollStream(s);
            t.inner.codec.matchers == s.inner.codec.matchers && s.Pending() == Carried(r) + t.Pending()
  {
    var inner := s.inner.(codec := NextCodec(s));
    var r := PollReader(inner).1;
    ReaderConserves(inner);
    SplitConserves([], s.inner);
    SplitConserves(CRLF, r);
    hide PollReader, Concat, NextUntouched;
    assert [] + s.inner.Pending() == s.inner.Pending() && [] + s.inner.buffer == s.inner.buffer;
    assert inner.Pending() == s.inner.Pending();
  }

  /** The only frame in the phase of the end of a head is the separator. */
  lemma EndIsSeparator(c: Codec, src: Bytes)
    ensures var o := StepDecode(c, src).outcome;
            o.Produced? && o.frame.phase == EndOfHeaders ==> o.frame == END_OF_HEADERS && StepDecode(c, src).codec.done
  {
    hide FindCrlf, RewriteHeader;
  }

  /** A request line only comes first in a head, and a head only starts behind an end marker. */
  lemma PollRoutes(s: Stream)
    requires s.Valid()
    ensures var (r, t) := PollStream(s);
            && (Routes(r) ==> (s.inner.codec.firstLine || s.yieldedNone) && !t.yieldedNone && !t.inner.codec.firstLine)
            && (t.yieldedNone ==> r == End || s.yieldedNone)
            && (t.inner.codec.firstLine ==> s.inner.codec.firstLine || s.yieldedNone)
  {
    var inner := if s.headersDone then s.inner.(codec := NewCodec(s.inner.codec.matchers)) else s.inner;
    PollIsStep(inner);
    RoutingStep(inner.codec, inner.Pending());
    hide PollReader, StepDecode;
  }

  lemma RoutingStep(c: Codec, src: Bytes)
    ensures var s := StepDecode(c, src);
            && (s.outcome.Produced? && s.outcome.frame.routing ==> c.firstLine && !s.codec.firstLine)
            && (s.codec.firstLine ==> c.firstLine)
  {
    hide FindCrlf, RewriteHeader;
  }

  // ----- many polls -----

  function Polls(s: Stream, n: nat): (result: (seq<Polled>, Stream))
    requires s.Valid()
    ensures |result.0| == n && result.1.Valid()
  {
    if n == 0 then ([], s)
    else
      var (before, t) := Polls(s, n - 1);
      var (r, u) := PollStream(t);
      (before + [r], u)
  }

  function AllCarried(polls: seq<Polled>): Bytes {
    if polls == [] then [] else AllCarried(polls[..|polls| - 1]) + Carried(polls[|polls| - 1])
  }

  /**
   * Over a whole connection in whose bytes no needle occurs, the bytes handed out, followed by those still to
   * come, are its bytes.
   */
  lemma {:induction false} PollsConserve(s: Stream, n: nat)
    requires s.Valid() && NoNeedle(s.inner.codec.matchers, s.Pending())
    ensures var (polls, t) := Polls(s, n);
            t.inner.codec.matchers == s.inner.codec.matchers && s.Pending() == AllCarried(polls) + t.Pending()
  {
    hide PollStream, NoNeedle, NextUntouched;
    if n > 0 {
      PollsConserve(s, n - 1);
      var (before, t) := Polls(s, n - 1);
      assert AllCarried(before) + t.Pending() + [] == s.Pending();
      PartWithoutNeedle(s.inner.codec.matchers, AllCarried(before), t.Pending(), []);
      NoNeedleAhead(NextCodec(t), t.Pending());
      PollConserves(t);
      var (r, u) := PollStream(t);
      assert (before + [r])[..n - 1] == before;
      assert AllCarried(before) + (Carried(r) + u.Pending()) == AllCarried(before) + Carried(r) + u.Pending();
    }
  }

  /** Every request line polled so far is behind an end marker. */
  ghost predicate Settled(polls: seq<Polled>) {
    forall i :: 0 <= i < |polls| && Routes(polls[i]) ==> EndBehind(polls, i)
  }

  ghost predicate EndBehind(polls: seq<Polled>, i: nat) {
    exists k :: i < k < |polls| && polls[k] == End
  }

  lemma SettledSnoc(polls: seq<Polled>, r: Polled)
    requires r == End || (Settled(polls) && !Routes(r))
    ensures Settled(polls + [r])
  {
    var all := polls + [r];
    forall i | 0 <= i < |all| && Routes(all[i]) ensures EndBehind(all, i) {
      if r == End {
        assert all[|polls|] == End;
      } else {
        var k :| i < k < |polls| && polls[k] == End;
        assert all[k] == End;
      }
    }
  }

  /** Two request lines always have an end marker between them. */
  ghost predicate Separated(polls: seq<Polled>) {
    forall j :: 0 <= j < |polls| && Routes(polls[j]) ==> Settled(polls[..j])
  }

  lemma SeparatedSnoc(polls: seq<Polled>, r: Polled)
    requires Separated(polls) && (Routes(r) ==> Settled(polls))
    ensures Separated(polls + [r])
  {
    var all := polls + [r];
    forall j | 0 <= j < |all| && Routes(all[j]) ensures Settled(all[..j]) {
      assert all[..j] == polls[..j];
      assert polls[..|polls|] == polls;
    }
  }

  /** Request lines of a connection are always separated by end markers, on any reads. */
  lemma {:induction false} PollsSeparated(matchers: seq<Replacement>, script: seq<Bytes>, n: nat)
    requires NoEmptyRead(script)
    ensures var (polls, t) := Polls(FreshStream(matchers, script), n);
            Separated(polls) && (t.yieldedNone || t.inner.codec.firstLine ==> Settled(polls))
  {
    hide PollStream;
    if n > 0 {
      PollsSeparated(matchers, script, n - 1);
      var (before, t) := Polls(FreshStream(matchers, script), n - 1);
      PollRoutes(t);
      var (r, u) := PollStream(t);
      if r == End || (Settled(before) && !Routes(r)) {
        SettledSnoc(before, r);
      }
      SeparatedSnoc(before, r);
    }
  }

  // ----- how far the reader reads -----

  /** Take reads into the buffer until it holds `m` bytes. */
  function Take(buffer: Bytes, script: seq<Bytes>, m: nat): (result: (Bytes, seq<Bytes>))
    ensures |result.0| >= |buffer|
    ensures |buffer + Concat(script)| >= m ==> |result.0| >= m
    decreases |script|
  {
    if |buffer| >= m || script == [] then (buffer, script) else Take(buffer + script[0], script[1..], m)
  }

  /** Nothing is read that is not needed: one read less, and the buffer would hold fewer than `m` bytes. */
  lemma {:induction false} TakeIsMinimal(buffer: Bytes, script: seq<Bytes>, m: nat) returns (k: nat)
    ensures k <= |script|
    ensures Take(buffer, script, m) == (buffer + Concat(script[..k]), script[k..])
    ensures k > 0 ==> |buffer + Concat(script[..k - 1])| < m
    ensures Take(buffer, script, m).0 + Concat(Take(buffer, script, m).1) == buffer + Concat(script)
    decreases |script|
  {
    if |buffer| >= m || script == [] {
      k := 0;
      assert buffer + [] == buffer && script[0..] == script;
    } else {
      var j := TakeIsMinimal(buffer + script[0], script[1..], m);
      k := j + 1;
      ConcatHead(buffer, script[..k]);
      ConcatHead(buffer, script);
      assert script[..k][1..] == script[1..][..j] && script[k..] == script[1..][j..];
      if j > 0 {
        ConcatHead(buffer, script[..j]);
        assert script[..j][1..] == script[1..][..j - 1];
      } else {
        assert buffer + [] == buffer;
      }
    }
  }

  /** With nothing buffered, reads are taken up to the first one with which `m` bytes have arrived. */
  lemma FirstReads(script: seq<Bytes>, m: nat) returns (k: nat)
    requires 0 < m <= |Concat(script)|
    ensures 0 < k <= |script| && |Concat(script[..k - 1])| < m <= |Concat(script[..k])|
    ensures Take([], script, m) == (Concat(script[..k]), script[k..])
  {
    assert [] + Concat(script) == Concat(script);
    k := TakeIsMinimal([], script, m);
    assert [] + Concat(script[..k]) == Concat(script[..k]);
    if k > 0 {
      assert [] + Concat(script[..k - 1]) == Concat(script[..k - 1]);
    }
  }

  lemma ConcatHead(buffer: Bytes, script: seq<Bytes>)
    requires script != []
    ensures buffer + Concat(script) == buffer + script[0] + Concat(script[1..])
  {
  }

  lemma {:induction false} TakeTwice(buffer: Bytes, script: seq<Bytes>, m: nat, n: nat)
    requires |Take(buffer, script, m).0| >= m
    ensures var (b, left) := Take(buffer, script, m);
            var (b', left') := Take(buffer, script, m + n);
            |b'| >= m && Take(b[m..], left, n) == (b'[m..], left')
    decreases |script|
  {
    if |buffer| >= m {
      TakeBehind(buffer, script, m, n);
    } else if script != [] {
      TakeTwice(buffer + script[0], script[1..], m, n);
    }
  }

  lemma {:induction false} TakeBehind(buffer: Bytes, script: seq<Bytes>, m: nat, n: nat)
    requires |buffer| >= m
    ensures var (b, left) := Take(buffer, script, m + n);
            |b| >= m && Take(buffer[m..], script, n) == (b[m..], left)
    decreases |script|
  {
    if |buffer| < m + n && script != [] {
      TakeBehind(buffer + script[0], script[1..], m, n);
      assert buffer[m..] + script[0] == (buffer + script[0])[m..];
    }
  }

  /** Bytes up to the first line end decide a step; fewer are not enough. */
  lemma FirstLineDecides(c: Codec, all: Bytes, n: nat)
    requires !c.done && FindCrlf(all).Some? && n <= |all|
    ensures n < FindCrlf(all).value + 2 ==> StepDecode(c, all[..n]) == Step(NeedMore, c, all[..n])
    ensures FindCrlf(all).value + 2 <= n ==> FindCrlf(all[..n]) == FindCrlf(all)
  {
    LineWithin(all, n);
    hide FindCrlf;
  }

  lemma LineWithin(all: Bytes, n: nat)
    requires FindCrlf(all).Some? && n <= |all|
    ensures FindCrlf(all[..n]) == if FindCrlf(all).value + 2 <= n then FindCrlf(all) else None
  {
    var pos, front := FindCrlf(all).value, all[..n];
    assert forall i :: 0 <= i < n ==> CrlfAt(front, i) ==> CrlfAt(all, i);
    if pos + 2 <= n {
      FirstCrlfUnique(front, pos);
    }
  }

  lemma NoLineDecides(c: Codec, all: Bytes, n: nat)
    requires (c.done || FindCrlf(all).None?) && n <= |all|
    ensures StepDecode(c, all[..n]) == Step(NeedMore, c, all[..n])
  {
    assert all == all[..n] + all[n..];
    if FindCrlf(all[..n]).Some? {
      FindCrlfExtends(all[..n], all[n..]);
    }
  }

  /** Behind a poll that was decided by the first `m` bytes. */
  function Decided(s: Step, left: seq<Bytes>, eof: bool): (Polled, Reader) {
    match s.outcome
    case Produced(frame) => (Item(Parsed(frame)), Reader(s.codec, s.rest, left, true, eof, false))
    case ObsFold => (Broken(Io), Reader(s.codec, s.rest, left, true, eof, true))
    case NeedMore => (End, Reader(s.codec, s.rest, left, true, eof, false))
  }

  /** A line that is not buffered yet is still to be read; one that is can be decoded. */
  lemma LineBuffered(r: Reader, m: nat)
    requires r.Valid() && !r.codec.done && m >= 2 && FindCrlf(r.Pending()) == Some(m - 2)
    ensures |r.buffer| < m ==> StepDecode(r.codec, r.buffer).outcome.NeedMore? && r.script != [] && !r.eof
    ensures |r.buffer| >= m ==> !StepDecode(r.codec, r.buffer).outcome.NeedMore?
  {
    var all := r.Pending();
    assert all[..|r.buffer|] == r.buffer;
    FirstLineDecides(r.codec, all, |r.buffer|);
    assert r.script == [] ==> all == r.buffer;
  }

  lemma DecidedNow(r: Reader)
    requires r.Valid() && !r.errored && r.readable && !StepDecode(r.codec, r.buffer).outcome.NeedMore?
    ensures PollReader(r) == Decided(StepDecode(r.codec, r.buffer), r.script, r.eof)
  {
    if StepDecode(r.codec, r.buffer).outcome == ObsFold {
      NeedMoreKeeps(r.codec, r.buffer);
    }
  }

  /** A poll reads exactly until the next line is complete, and decodes that. */
  lemma {:induction false} PollTakes(r: Reader, m: nat)
    requires r.Valid() && !r.errored && !r.codec.done && m >= 2 && FindCrlf(r.Pending()) == Some(m - 2)
    requires !r.readable ==> |r.buffer| < m
    ensures var (b, left) := Take(r.buffer, r.script, m);
            |b| >= m && PollReader(r) == Decided(StepDecode(r.codec, b), left, r.eof)
    decreases |r.script|, !r.eof, r.readable
  {
    LineBuffered(r, m);
    if |r.buffer| >= m {
      DecidedNow(r);
    } else if r.readable {
      PollTakes(r.(readable := false), m);
    } else {
      ReadKeepsPending(r);
      PollTakes(r.(buffer := r.buffer + r.script[0], script := r.script[1..], readable := true, eof := false), m);
    }
  }

  /** When no line can be completed any more, a poll reads everything, and ends. */
  lemma {:induction false} PollEnds(r: Reader)
    requires r.Valid() && !r.errored && (r.codec.done || FindCrlf(r.Pending()).None?)
    ensures PollReader(r) == (End, Reader(r.codec, r.Pending(), [], false, true, false))
    decreases |r.script|, !r.eof, r.readable
  {
    var all := r.Pending();
    assert all[..|r.buffer|] == r.buffer;
    NoLineDecides(r.codec, all, |r.buffer|);
    if r.readable {
      if !r.eof {
        PollEnds(r.(readable := false));
      } else {
        assert all == r.buffer;
      }
    } else if r.script != [] {
      ReadKeepsPending(r);
      PollEnds(r.(buffer := r.buffer + r.script[0], script := r.script[1..], readable := true, eof := false));
    } else if !r.eof {
      PollEnds(r.(readable := true, eof := true));
    } else {
      assert all == r.buffer;
    }
  }
}
