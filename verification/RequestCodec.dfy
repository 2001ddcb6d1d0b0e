/**
 * The streaming decoder of request heads: CRLF-terminated lines up to the first empty one, with
 * header values replaced on the fly, stopping at the first folded line.
 */
module RequestCodec {
  import opened Common
  import opened Crlf
  import opened HttpFrames
  import opened Matchers
  import HttpDerive

  /** A header whose name contains `needle` gets value `value`. */
  datatype Replacement = Replacement(needle: Bytes, value: Bytes)

  datatype Outcome = Produced(frame: HttpFrame) | NeedMore | ObsFold

  datatype Codec = Codec(done: bool, firstLine: bool, matchers: seq<Replacement>)

  datatype Step = Step(outcome: Outcome, codec: Codec, rest: Bytes)

  function NewCodec(matchers: seq<Replacement>): Codec {
    Codec(false, true, matchers)
  }

  const COLON: byte := 0x3A

  /** `memmem`: `needle` occurs in `hay`. */
  predicate Contains(hay: Bytes, needle: Bytes) {
    needle <= hay || (hay != [] && Contains(hay[1..], needle))
  }

  /** The first replacement whose needle occurs in the name, if the line has a colon at all. */
  function FirstReplacement(ms: seq<Replacement>, name: Bytes): Option<Bytes> {
    if ms == [] then None
    else if Contains(name, ms[0].needle) then Some(ms[0].value)
    else FirstReplacement(ms[1..], name)
  }

  function RewriteHeader(ms: seq<Replacement>, line: Bytes): Bytes
    requires |line| >= 2
  {
    var header := line[..|line| - 2];
    match Memchr(COLON, header)
    case None => line
    case Some(sep) =>
      match FirstReplacement(ms, header[..sep])
      case None => line
      case Some(value) => header[..sep] + [COLON, SP] + value + CRLF
  }

  lemma {:induction false} ContainsExactly(hay: Bytes, needle: Bytes)
    ensures Contains(hay, needle) <==> exists i :: 0 <= i <= |hay| && needle <= hay[i..]
  {
    if needle <= hay {
      assert hay[0..] == hay;
    } else if hay != [] {
      ContainsExactly(hay[1..], needle);
      if Contains(hay[1..], needle) {
        var k :| 0 <= k <= |hay[1..]| && needle <= hay[1..][k..];
        assert hay[k + 1..] == hay[1..][k..];
      }
      if i :| 0 <= i <= |hay| && needle <= hay[i..] {
        assert i > 0 by {
          assert hay[0..] == hay;
        }
        assert hay[1..][i - 1..] == hay[i..];
      }
    }
  }

  /** The parallel search returns the value of the first replacement whose needle occurs in the name. */
  lemma {:induction false} FirstReplacementExactly(ms: seq<Replacement>, name: Bytes, value: Bytes)
    ensures FirstReplacement(ms, name) == Some(value) <==>
            exists i :: 0 <= i < |ms| && Contains(name, ms[i].needle) && ms[i].value == value
                        && forall j :: 0 <= j < i ==> !Contains(name, ms[j].needle)
    ensures FirstReplacement(ms, name) == None <==> forall i :: 0 <= i < |ms| ==> !Contains(name, ms[i].needle)
  {
    if ms != [] && !Contains(name, ms[0].needle) {
      FirstReplacementExactly(ms[1..], name, value);
      assert forall i :: 0 < i < |ms| ==> ms[i] == ms[1..][i - 1];
      if FirstReplacement(ms[1..], name) == Some(value) {
        var k :| 0 <= k < |ms[1..]| && Contains(name, ms[1..][k].needle) && ms[1..][k].value == value
                 && forall j :: 0 <= j < k ==> !Contains(name, ms[1..][j].needle);
        assert ms[k + 1] == ms[1..][k];
        assert forall j :: 0 < j < k + 1 ==> ms[j] == ms[1..][j - 1];
      }
    }
  }

  /** A rewritten header keeps its name, and a matcher for that name now finds the replacement value, trimmed. */
  lemma RewrittenReads(ms: seq<Replacement>, name: Bytes, rest: Bytes, watched: Bytes, value: Bytes)
    requires FirstReplacement(ms, name) == Some(value)
    requires SameName(name, watched) && COLON !in watched
    ensures TryMatch(HeaderName(watched), RewriteHeader(ms, name + [COLON] + rest + CRLF)) == Some(TrimOws(value))
  {
    hide TryMatch, RewriteHeader, HttpDerive.HeaderLine, TrimOws;
    HttpDerive.NoColon(name, watched);
    KeepsName(ms, name, rest, value);
    HttpDerive.HeaderLineMatches(name, watched, [SP], value, []);
  }

  lemma KeepsName(ms: seq<Replacement>, name: Bytes, rest: Bytes, value: Bytes)
    requires FirstReplacement(ms, name) == Some(value) && COLON !in name
    ensures RewriteHeader(ms, name + [COLON] + rest + CRLF) == HttpDerive.HeaderLine(name, [SP], value, [])
  {
    hide FirstReplacement, Memchr;
    var header := name + [COLON] + rest;
    MemchrSplits(COLON, name, rest);
    assert (header + CRLF)[..|header + CRLF| - 2] == header;
    assert name + [COLON, SP] + value + CRLF == name + [COLON] + ([SP] + value + []) + CRLF;
  }

  /** No replacement applies to a line: it has no colon, or no needle occurs in front of its first one. */
  ghost predicate Untouched(ms: seq<Replacement>, line: Bytes) {
    forall name, rest, i, p ::
      line == name + [COLON] + rest && COLON !in name && 0 <= i < |ms| && 0 <= p <= |name| ==> !(ms[i].needle <= name[p..])
  }

  /** Whatever replacements there are, a line that none of them applies to stays as it is. */
  lemma UntouchedStays(ms: seq<Replacement>, line: Bytes)
    requires Untouched(ms, line)
    ensures RewriteHeader(ms, line + CRLF) == line + CRLF
  {
    assert (line + CRLF)[..|line + CRLF| - 2] == line;
    if Memchr(COLON, line).Some? {
      var sep := Memchr(COLON, line).value;
      var name, rest := line[..sep], line[sep + 1..];
      assert line == name + [COLON] + rest;
      forall i | 0 <= i < |ms| ensures !Contains(name, ms[i].needle) {
        ContainsExactly(name, ms[i].needle);
      }
      FirstReplacementExactly(ms, name, []);
    }
  }

  /** The frame a complete line becomes. */
  function LineFrame(c: Codec, line: Bytes): HttpFrame
    requires |line| >= 2
  {
    if c.firstLine then RequestLineFrame(line) else HeaderFrame(RewriteHeader(c.matchers, line))
  }

  /** A request line, and a header no replacement applies to, become frames of exactly their bytes. */
  lemma FrameOfLine(c: Codec, line: Bytes)
    requires c.firstLine || Untouched(c.matchers, line)
    ensures LineFrame(c, line + CRLF) ==
            HttpFrame(line + CRLF, if c.firstLine then RequestLine else HttpPhase.Header, c.firstLine)
  {
    if !c.firstLine {
      UntouchedStays(c.matchers, line);
    }
  }

  function StepDecode(c: Codec, src: Bytes): (r: Step)
    ensures r.outcome.Produced? ==> |r.rest| < |src|
  {
    if c.done || src == [] then Step(NeedMore, c, src)
    else
      match FindCrlf(src)
      case None => Step(NeedMore, c, src)
      case Some(pos) =>
        if pos == 0 then Step(Produced(END_OF_HEADERS), c.(done := true), src[2..])
        else if !c.firstLine && IsOws(src[0]) then Step(ObsFold, c, src)
        else Step(Produced(LineFrame(c, src[..pos + 2])), c.(firstLine := false), src[pos + 2..])
  }

  class HttpStreamingCodec {
    var done: bool
    var firstLine: bool
    const matchers: seq<Replacement>

    function View(): Codec
      reads this
    {
      Codec(done, firstLine, matchers)
    }

    constructor (matchers: seq<Replacement>)
      ensures View() == NewCodec(matchers)
    {
      done := false;
      firstLine := true;
      this.matchers := matchers;
    }

    method Reset()
      modifies this
      ensures View() == NewCodec(matchers)
    {
      done := false;
      firstLine := true;
    }

    method Decode(src: BytesMut) returns (r: Outcome)
      modifies this, src
      ensures Step(r, View(), src.data) == StepDecode(old(View()), old(src.data))
    {
      if done || src.data == [] {
        return NeedMore;
      }
      var crlf := ScanCrlf(src.data);
      if crlf.None? {
        return NeedMore;
      }
      var pos := crlf.value;
      if pos == 0 {
        src.Advance(2);
        done := true;
        return Produced(END_OF_HEADERS);
      }
      var isRequestLine := firstLine;
      firstLine := false;
      if !isRequestLine && (src.data[0] == SP || src.data[0] == HT) {
        return ObsFold;
      }
      var line := src.SplitTo(pos + 2);
      if isRequestLine {
        return Produced(RequestLineFrame(line));
      }
      return Produced(HeaderFrame(RewriteHeader(matchers, line)));
    }

    method DecodeEof(src: BytesMut) returns (r: Outcome)
      modifies this, src
      ensures Step(r, View(), src.data) == StepDecode(old(View()), old(src.data))
    {
      if done {
        return NeedMore;
      }
      r := Decode(src);
    }
  }

  // ----- draining -----

  datatype Trace = Trace(frames: seq<HttpFrame>, codec: Codec, rest: Bytes, failed: bool)

  function Drain(c: Codec, src: Bytes): Trace
    decreases |src|
  {
    var s := StepDecode(c, src);
    match s.outcome
    case NeedMore => Trace([], s.codec, s.rest, false)
    case ObsFold => Trace([], s.codec, s.rest, true)
    case Produced(f) => var t := Drain(s.codec, s.rest); t.(frames := [f] + t.frames)
  }

  /** One more read after `t`; a failed decoder is not called again. */
  function Extend(t: Trace, read: Bytes): Trace {
    if t.failed then t.(rest := t.rest + read)
    else var u := Drain(t.codec, t.rest + read); u.(frames := t.frames + u.frames)
  }

  function ExtendAll(t: Trace, pieces: seq<Bytes>): Trace {
    if pieces == [] then t else Extend(ExtendAll(t, pieces[..|pieces| - 1]), pieces[|pieces| - 1])
  }

  lemma StepIgnoresMore(c: Codec, a: Bytes, b: Bytes)
    requires !StepDecode(c, a).outcome.NeedMore?
    ensures var s := StepDecode(c, a);
            StepDecode(c, a + b) == Step(s.outcome, s.codec, s.rest + b)
  {
    FindCrlfExtends(a, b);
    var pos := FindCrlf(a).value;
    assert (a + b)[..pos + 2] == a[..pos + 2];
    assert (a + b)[pos + 2..] == a[pos + 2..] + b;
  }

  lemma NeedMoreKeeps(c: Codec, a: Bytes)
    requires !StepDecode(c, a).outcome.Produced?
    ensures StepDecode(c, a).codec == c && StepDecode(c, a).rest == a
  {
  }

  lemma {:induction false} DrainSplit(c: Codec, a: Bytes, b: Bytes)
    ensures Extend(Drain(c, a), b) == Drain(c, a + b)
    decreases |a|
  {
    var s := StepDecode(c, a);
    if s.outcome.NeedMore? {
      var u := Drain(c, a + b);
      assert [] + u.frames == u.frames;
    } else {
      StepIgnoresMore(c, a, b);
      if s.outcome.Produced? {
        DrainSplit(s.codec, s.rest, b);
        var t := Drain(s.codec, s.rest);
        if !t.failed {
          var u := Drain(t.codec, t.rest + b);
          assert [s.outcome.frame] + t.frames + u.frames == [s.outcome.frame] + (t.frames + u.frames);
        }
      }
    }
  }

  /** Every way of cutting a request head into reads decodes like the whole head. */
  lemma {:induction false} FragmentationInvariance(c: Codec, pieces: seq<Bytes>)
    ensures ExtendAll(Trace([], c, [], false), pieces) == Drain(c, Concat(pieces))
  {
    if pieces != [] {
      var init, last := pieces[..|pieces| - 1], pieces[|pieces| - 1];
      assert pieces == init + [last];
      ConcatSnoc(init, last);
      FragmentationInvariance(c, init);
      DrainSplit(c, Concat(init), last);
    }
  }

  // ----- what a head is -----

  /** Lines each followed by a line end. */
  function Joined(lines: seq<Bytes>): Bytes {
    if lines == [] then [] else lines[0] + CRLF + Joined(lines[1..])
  }

  /** Non-empty lines none of which, except perhaps the first, starts with white space. */
  ghost predicate HeadLines(firstLine: bool, lines: seq<Bytes>) {
    && (forall i :: 0 <= i < |lines| ==> Line(lines[i]))
    && (forall i :: 0 <= i < |lines| && !(i == 0 && firstLine) ==> !IsOws(lines[i][0]))
  }

  datatype Ending = Incomplete | EmptyLine | FoldedLine

  /** How the bytes behind the last good line go on. */
  ghost predicate GoesOn(first: bool, rest: Bytes, e: Ending) {
    match e
    case Incomplete => NoCrlf(rest)
    case EmptyLine => CRLF <= rest
    case FoldedLine => !first && FindCrlf(rest).Some? && IsOws(rest[0]) && FindCrlf(rest).value > 0
  }

  function LineFrames(c: Codec, lines: seq<Bytes>): seq<HttpFrame>
    decreases |lines|
  {
    if lines == [] then []
    else [LineFrame(c, lines[0] + CRLF)] + LineFrames(c.(firstLine := false), lines[1..])
  }

  lemma FirstCrlfOf(rest: Bytes)
    requires CRLF <= rest
    ensures FindCrlf(rest) == Some(0)
  {
    FirstCrlfUnique(rest, 0);
  }

  /** What the decoder makes of good lines `lines` followed by `rest`. */
  ghost function HeadTrace(c: Codec, lines: seq<Bytes>, rest: Bytes, e: Ending): Trace
    requires e == EmptyLine ==> |rest| >= 2
  {
    var end := if lines == [] then c else c.(firstLine := false);
    match e
    case Incomplete => Trace(LineFrames(c, lines), end, rest, false)
    case EmptyLine => Trace(LineFrames(c, lines) + [END_OF_HEADERS], end.(done := true), rest[2..], false)
    case FoldedLine => Trace(LineFrames(c, lines), end, rest, true)
  }

  lemma DrainLine(c: Codec, line: Bytes, behind: Bytes)
    requires !c.done && Line(line) && (c.firstLine || !IsOws(line[0]))
    ensures var t := Drain(c.(firstLine := false), behind);
            Drain(c, line + CRLF + behind) == t.(frames := [LineFrame(c, line + CRLF)] + t.frames)
  {
    FindCrlfLine(line, behind);
    CutLine(line, behind);
  }

  lemma HeadTraceUnfolds(c: Codec, lines: seq<Bytes>, rest: Bytes, e: Ending)
    requires lines != [] && (e == EmptyLine ==> |rest| >= 2)
    ensures var t := HeadTrace(c.(firstLine := false), lines[1..], rest, e);
            HeadTrace(c, lines, rest, e) == t.(frames := [LineFrame(c, lines[0] + CRLF)] + t.frames)
  {
    var f, fs := LineFrame(c, lines[0] + CRLF), LineFrames(c.(firstLine := false), lines[1..]);
    assert [f] + (fs + [END_OF_HEADERS]) == [f] + fs + [END_OF_HEADERS];
  }

  /** The decoder on any head, split into its good lines and what stops it. */
  lemma {:induction false} DrainHead(c: Codec, lines: seq<Bytes>, rest: Bytes, e: Ending)
    requires !c.done && HeadLines(c.firstLine, lines)
    requires GoesOn(c.firstLine && lines == [], rest, e)
    ensures Drain(c, Joined(lines) + rest) == HeadTrace(c, lines, rest, e)
    decreases |lines|
  {
    if lines == [] {
      assert Joined(lines) + rest == rest;
      if e == EmptyLine { FirstCrlfOf(rest); }
    } else {
      var line, more := lines[0], lines[1..];
      assert Joined(lines) + rest == line + CRLF + (Joined(more) + rest);
      DrainLine(c, line, Joined(more) + rest);
      DrainHead(c.(firstLine := false), more, rest, e);
      HeadTraceUnfolds(c, lines, rest, e);
    }
  }

  /** The good lines a byte string starts with, what is behind them, and how that goes on. */
  function SplitHead(first: bool, src: Bytes): (head: (seq<Bytes>, Bytes, Ending))
    decreases |src|
  {
    match FindCrlf(src)
    case None => ([], src, Incomplete)
    case Some(pos) =>
      if pos == 0 then ([], src, EmptyLine)
      else if !first && IsOws(src[0]) then ([], src, FoldedLine)
      else
        var (lines, rest, e) := SplitHead(false, src[pos + 2..]);
        ([src[..pos]] + lines, rest, e)
  }

  lemma LineInFront(src: Bytes)
    requires FindCrlf(src).Some? && FindCrlf(src).value > 0
    ensures var pos := FindCrlf(src).value;
            Line(src[..pos]) && src == src[..pos] + CRLF + src[pos + 2..]
  {
    var pos := FindCrlf(src).value;
    assert forall j :: 0 <= j < pos ==> CrlfAt(src[..pos], j) ==> CrlfAt(src, j);
  }

  lemma OneMoreLine(first: bool, line: Bytes, lines: seq<Bytes>, rest: Bytes)
    requires Line(line) && (first || !IsOws(line[0])) && HeadLines(false, lines)
    ensures HeadLines(first, [line] + lines)
    ensures Joined([line] + lines) + rest == line + CRLF + (Joined(lines) + rest)
  {
    assert ([line] + lines)[1..] == lines;
    assert line + CRLF + Joined(lines) + rest == line + CRLF + (Joined(lines) + rest);
  }

  /** Every byte string is such a head: some good lines, and one of the three endings. */
  lemma {:induction false} EveryInputIsAHead(first: bool, src: Bytes) returns (lines: seq<Bytes>, rest: Bytes, e: Ending)
    ensures (lines, rest, e) == SplitHead(first, src)
    ensures HeadLines(first, lines) && GoesOn(first && lines == [], rest, e)
    ensures src == Joined(lines) + rest
    decreases |src|
  {
    lines, rest, e := [], src, EmptyLine;
    match FindCrlf(src)
    case None =>
      e := Incomplete;
    case Some(pos) =>
      if pos > 0 {
        LineInFront(src);
        var line, behind := src[..pos], src[pos + 2..];
        if !first && IsOws(src[0]) {
          e := FoldedLine;
        } else {
          lines, rest, e := EveryInputIsAHead(false, behind);
          hide HeadLines, Line, FindCrlf, Joined;
          OneMoreLine(first, line, lines, rest);
          lines := [line] + lines;
        }
      }
  }

  /** There is only one way to split a byte string like that. */
  lemma {:induction false} SplitsOnce(first: bool, lines: seq<Bytes>, rest: Bytes, e: Ending)
    requires HeadLines(first, lines) && GoesOn(first && lines == [], rest, e)
    ensures SplitHead(first, Joined(lines) + rest) == (lines, rest, e)
    decreases |lines|
  {
    if lines == [] {
      assert Joined(lines) + rest == rest;
      if e == EmptyLine { FirstCrlfOf(rest); }
    } else {
      var line, more := lines[0], lines[1..];
      assert lines == [line] + more;
      SplitsOnce(false, more, rest, e);
      SplitFirst(first, line, Joined(more) + rest);
      OneMoreLine(first, line, more, rest);
    }
  }

  lemma SplitFirst(first: bool, line: Bytes, behind: Bytes)
    requires Line(line) && (first || !IsOws(line[0]))
    ensures var (lines, rest, e) := SplitHead(false, behind);
            SplitHead(first, line + CRLF + behind) == ([line] + lines, rest, e)
  {
    FindCrlfLine(line, behind);
    CutLine(line, behind);
    hide FindCrlf;
    assert (line + CRLF + behind)[0] == line[0];
  }

  /**
   * Decoding fails exactly when a complete folded line comes before the end of the head, and reaches
   * the end of the head exactly when an empty line comes first.
   */
  lemma HeadVerdict(c: Codec, src: Bytes)
    requires !c.done
    ensures Drain(c, src).failed <==>
            exists lines, rest :: HeadLines(c.firstLine, lines) && GoesOn(c.firstLine && lines == [], rest, FoldedLine) && src == Joined(lines) + rest
    ensures Drain(c, src).codec.done <==>
            exists lines, rest :: HeadLines(c.firstLine, lines) && GoesOn(c.firstLine && lines == [], rest, EmptyLine) && src == Joined(lines) + rest
  {
    var lines, rest, e := EveryInputIsAHead(c.firstLine, src);
    DrainHead(c, lines, rest, e);
    if ls, r :| HeadLines(c.firstLine, ls) && GoesOn(c.firstLine && ls == [], r, FoldedLine) && src == Joined(ls) + r {
      DrainHead(c, ls, r, FoldedLine);
    }
    if ls, r :| HeadLines(c.firstLine, ls) && GoesOn(c.firstLine && ls == [], r, EmptyLine) && src == Joined(ls) + r {
      DrainHead(c, ls, r, EmptyLine);
    }
  }

  /** No replacement applies to the next line, or it is a request line. */
  ghost predicate NextUntouched(c: Codec, src: Bytes) {
    forall line, rest :: Line(line) && src == line + CRLF + rest ==> c.firstLine || Untouched(c.matchers, line)
  }

  /** Unless a replacement applies, a step passes on exactly the bytes it removes. */
  lemma StepConserves(c: Codec, src: Bytes)
    requires NextUntouched(c, src)
    ensures var s := StepDecode(c, src);
            && s.codec.matchers == c.matchers
            && src == (if s.outcome.Produced? then s.outcome.frame.data else []) + s.rest
  {
    if FindCrlf(src) == Some(0) {
      assert src[..2] == CRLF;
    } else if FindCrlf(src).Some? {
      LineInFront(src);
      FrameOfLine(c, src[..FindCrlf(src).value]);
    }
  }

  /** No needle occurs in any of these bytes. */
  ghost predicate NoNeedle(ms: seq<Replacement>, src: Bytes) {
    forall i, p :: 0 <= i < |ms| && 0 <= p <= |src| ==> !(ms[i].needle <= src[p..])
  }

  lemma PartWithoutNeedle(ms: seq<Replacement>, a: Bytes, b: Bytes, c: Bytes)
    requires NoNeedle(ms, a + b + c)
    ensures NoNeedle(ms, b)
  {
    forall i, p | 0 <= i < |ms| && 0 <= p <= |b| ensures !(ms[i].needle <= b[p..]) {
      assert (a + b + c)[|a| + p..] == b[p..] + c;
      assert !(ms[i].needle <= (a + b + c)[|a| + p..]);
    }
  }

  lemma NoNeedleInLine(ms: seq<Replacement>, line: Bytes)
    requires NoNeedle(ms, line)
    ensures Untouched(ms, line)
  {
    forall name, rest, i, p
      | line == name + [COLON] + rest && COLON !in name && 0 <= i < |ms| && 0 <= p <= |name|
      ensures !(ms[i].needle <= name[p..])
    {
      assert [] + name + ([COLON] + rest) == line;
      PartWithoutNeedle(ms, [], name, [COLON] + rest);
    }
  }

  lemma NoNeedleAhead(c: Codec, src: Bytes)
    requires NoNeedle(c.matchers, src)
    ensures NextUntouched(c, src)
  {
    forall line, rest | Line(line) && src == line + CRLF + rest ensures Untouched(c.matchers, line) {
      assert src == [] + line + (CRLF + rest);
      PartWithoutNeedle(c.matchers, [], line, CRLF + rest);
      NoNeedleInLine(c.matchers, line);
    }
  }
}
