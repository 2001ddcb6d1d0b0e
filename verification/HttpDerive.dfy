/** The HTTP formulas: version, body framing and connection mode, resolved from one shared session. */
module HttpDerive {
  import opened Common
  import opened Crlf
  import opened Numbers
  import opened HttpFrames
  import opened Matchers
  import opened Deriver

  datatype HttpVersion = Http10 | Http11

  datatype BodyFramingMode = Fixed(length: nat) | Chunked | UntilClose | NoBody | Invalid

  datatype ConnectionMode = KeepAlive | Close

  const CONTENT_LENGTH: Bytes := [0x43, 0x6F, 0x6E, 0x74, 0x65, 0x6E, 0x74, 0x2D, 0x4C, 0x65, 0x6E, 0x67, 0x74, 0x68]
  const TRANSFER_ENCODING: Bytes := [0x54, 0x72, 0x61, 0x6E, 0x73, 0x66, 0x65, 0x72, 0x2D, 0x45, 0x6E, 0x63, 0x6F, 0x64, 0x69, 0x6E, 0x67]
  const CONNECTION: Bytes := [0x43, 0x6F, 0x6E, 0x6E, 0x65, 0x63, 0x74, 0x69, 0x6F, 0x6E]
  const CHUNKED: Bytes := [0x63, 0x68, 0x75, 0x6E, 0x6B, 0x65, 0x64]
  const CLOSE: Bytes := [0x63, 0x6C, 0x6F, 0x73, 0x65]
  const KEEP_ALIVE: Bytes := [0x6B, 0x65, 0x65, 0x70, 0x2D, 0x61, 0x6C, 0x69, 0x76, 0x65]
  const HTTP_1_0: Bytes := [0x48, 0x54, 0x54, 0x50, 0x2F, 0x31, 0x2E, 0x30]

  const VERSION_MATCHERS: seq<Matcher> := [RequestLineVersion]
  const BODY_FRAMING_MATCHERS: seq<Matcher> := [HeaderName(CONTENT_LENGTH), HeaderName(TRANSFER_ENCODING), RequestLineVersion]
  const CONNECTION_MATCHERS: seq<Matcher> := [HeaderName(CONNECTION), RequestLineVersion]

  function AllMatchers(): seq<Matcher> {
    VERSION_MATCHERS + BODY_FRAMING_MATCHERS + CONNECTION_MATCHERS
  }

  /** `matched.get(i)`, flattened. */
  function Get(matched: seq<Option<Bytes>>, i: nat): Option<Bytes> {
    if i < |matched| then matched[i] else None
  }

  function VersionOf(version: Option<Bytes>): HttpVersion {
    if version == Some(HTTP_1_0) then Http10 else Http11
  }

  function ResolveVersion(matched: seq<Option<Bytes>>): HttpVersion {
    VersionOf(Get(matched, 0))
  }

  /** The value of a Content-Length header. */
  function ResolveLength(value: Bytes): BodyFramingMode {
    match DecodeUtf8(value)
    case None => Invalid
    case Some(text) =>
      match ParseUsize(Trim(text), 10)
      case None => Invalid
      case Some(n) => Fixed(n)
  }

  function FramingOf(cl: Option<Bytes>, te: Option<Bytes>, version: Option<Bytes>): BodyFramingMode {
    if te.Some? && HasToken(te.value, CHUNKED) then Chunked
    else if cl.Some? then ResolveLength(cl.value)
    else if version == Some(HTTP_1_0) then UntilClose
    else NoBody
  }

  function ResolveBodyFraming(matched: seq<Option<Bytes>>): BodyFramingMode {
    FramingOf(Get(matched, 0), Get(matched, 1), Get(matched, 2))
  }

  function ModeOf(connection: Option<Bytes>, version: Option<Bytes>): ConnectionMode {
    if connection.Some? && HasToken(connection.value, CLOSE) then Close
    else if connection.Some? && HasToken(connection.value, KEEP_ALIVE) then KeepAlive
    else if version == Some(HTTP_1_0) then Close
    else KeepAlive
  }

  function ResolveConnection(matched: seq<Option<Bytes>>): ConnectionMode {
    ModeOf(Get(matched, 0), Get(matched, 1))
  }

  datatype Derived = Derived(
    version: HttpVersion,
    bodyFraming: BodyFramingMode,
    connection: ConnectionMode,
    hasConflicts: bool,
    clTeConflict: bool)

  function ResolveAll(s: Session): Derived
    requires s.Valid()
  {
    var bf := s.ResultsFor(BODY_FRAMING_MATCHERS);
    Derived(
      ResolveVersion(s.ResultsFor(VERSION_MATCHERS)),
      ResolveBodyFraming(bf),
      ResolveConnection(s.ResultsFor(CONNECTION_MATCHERS)),
      s.HasConflictsFor(BODY_FRAMING_MATCHERS) || s.HasConflictsFor(CONNECTION_MATCHERS),
      Get(bf, 0).Some? && Get(bf, 1).Some?)
  }

  /** What the session of a fresh hook or codec holds after the given lines. */
  function SessionAfter(log: seq<Fed>): (s: Session)
    ensures s.Valid()
  {
    FeedAll(NewSession(AllMatchers()), log)
  }

  // ----- the same verdicts, read off the lines -----

  function ContentLengths(log: seq<Fed>): Option<Bytes> {
    FirstHit(HeaderName(CONTENT_LENGTH), log)
  }

  function TransferEncodings(log: seq<Fed>): Option<Bytes> {
    FirstHit(HeaderName(TRANSFER_ENCODING), log)
  }

  /** Some watched header or the version takes two different values. */
  ghost predicate Ambiguous(log: seq<Fed>) {
    || Disagree(HeaderName(CONTENT_LENGTH), log)
    || Disagree(HeaderName(TRANSFER_ENCODING), log)
    || Disagree(HeaderName(CONNECTION), log)
    || Disagree(RequestLineVersion, log)
  }

  /** For matcher `m`, session `s` holds the first match in `log` and knows whether two matches differ. */
  ghost predicate Faithful(s: Session, log: seq<Fed>, m: Matcher)
    requires s.Valid()
  {
    s.ResultOf(m) == FirstHit(m, log) && (s.ConflictOf(m) <==> Disagree(m, log))
  }

  ghost predicate FaithfulToAll(s: Session, log: seq<Fed>)
    requires s.Valid()
  {
    && Faithful(s, log, RequestLineVersion)
    && Faithful(s, log, HeaderName(CONTENT_LENGTH))
    && Faithful(s, log, HeaderName(TRANSFER_ENCODING))
    && Faithful(s, log, HeaderName(CONNECTION))
  }

  lemma AllMatchersCover()
    ensures RequestLineVersion in AllMatchers()
    ensures HeaderName(CONTENT_LENGTH) in AllMatchers()
    ensures HeaderName(TRANSFER_ENCODING) in AllMatchers()
    ensures HeaderName(CONNECTION) in AllMatchers()
  {
    var all := AllMatchers();
    assert all[0] == RequestLineVersion && all[1] == HeaderName(CONTENT_LENGTH);
    assert all[2] == HeaderName(TRANSFER_ENCODING) && all[4] == HeaderName(CONNECTION);
  }

  lemma SharedSessionFaithful(ms: seq<Matcher>, log: seq<Fed>)
    requires RequestLineVersion in ms && HeaderName(CONTENT_LENGTH) in ms
    requires HeaderName(TRANSFER_ENCODING) in ms && HeaderName(CONNECTION) in ms
    ensures FaithfulToAll(FeedAll(NewSession(ms), log), log)
  {
    SessionMeaning(ms, log, RequestLineVersion);
    SessionMeaning(ms, log, HeaderName(CONTENT_LENGTH));
    SessionMeaning(ms, log, HeaderName(TRANSFER_ENCODING));
    SessionMeaning(ms, log, HeaderName(CONNECTION));
  }

  lemma ConflictsOfPair(s: Session, a: Matcher, b: Matcher)
    requires s.Valid()
    ensures s.HasConflictsFor([a, b]) <==> s.ConflictOf(a) || s.ConflictOf(b)
  {
    var ms := [a, b];
    assert s.ConflictOf(ms[0]) || s.ConflictOf(ms[1]) <==> s.HasConflictsFor(ms);
  }

  lemma ConflictsOfTriple(s: Session, a: Matcher, b: Matcher, c: Matcher)
    requires s.Valid()
    ensures s.HasConflictsFor([a, b, c]) <==> s.ConflictOf(a) || s.ConflictOf(b) || s.ConflictOf(c)
  {
    var ms := [a, b, c];
    assert s.ConflictOf(ms[0]) || s.ConflictOf(ms[1]) || s.ConflictOf(ms[2]) <==> s.HasConflictsFor(ms);
  }

  lemma ConflictsFaithful(s: Session, log: seq<Fed>)
    requires s.Valid() && FaithfulToAll(s, log)
    ensures ResolveAll(s).hasConflicts <==> Ambiguous(log)
  {
    ConflictsOfTriple(s, HeaderName(CONTENT_LENGTH), HeaderName(TRANSFER_ENCODING), RequestLineVersion);
    ConflictsOfPair(s, HeaderName(CONNECTION), RequestLineVersion);
  }

  lemma ResultsOfPair(s: Session, a: Matcher, b: Matcher)
    requires s.Valid()
    ensures s.ResultsFor([a, b]) == [s.ResultOf(a), s.ResultOf(b)]
  {
  }

  lemma ResultsOfTriple(s: Session, a: Matcher, b: Matcher, c: Matcher)
    requires s.Valid()
    ensures s.ResultsFor([a, b, c]) == [s.ResultOf(a), s.ResultOf(b), s.ResultOf(c)]
  {
  }

  lemma ResolveFaithful(s: Session, log: seq<Fed>)
    requires s.Valid() && FaithfulToAll(s, log)
    ensures ResolveAll(s) == DerivedFrom(log)
  {
    ConflictsFaithful(s, log);
    assert s.ResultsFor(VERSION_MATCHERS) == [s.ResultOf(RequestLineVersion)];
    ResultsOfTriple(s, HeaderName(CONTENT_LENGTH), HeaderName(TRANSFER_ENCODING), RequestLineVersion);
    ResultsOfPair(s, HeaderName(CONNECTION), RequestLineVersion);
  }

  function FramingFrom(log: seq<Fed>): BodyFramingMode {
    FramingOf(ContentLengths(log), TransferEncodings(log), FirstHit(RequestLineVersion, log))
  }

  /** The verdict read directly off the lines: first matches and disagreements, no session. */
  ghost function DerivedFrom(log: seq<Fed>): Derived {
    var version := FirstHit(RequestLineVersion, log);
    Derived(
      VersionOf(version),
      FramingFrom(log),
      ModeOf(FirstHit(HeaderName(CONNECTION), log), version),
      Ambiguous(log),
      ContentLengths(log).Some? && TransferEncodings(log).Some?)
  }

  /** The names and tokens the formulas look for, spelled out. */
  lemma WatchedNames()
    ensures CONTENT_LENGTH == Spelled("Content-Length") && TRANSFER_ENCODING == Spelled("Transfer-Encoding")
    ensures CONNECTION == Spelled("Connection") && HTTP_1_0 == Spelled("HTTP/1.0")
    ensures CHUNKED == Spelled("chunked") && CLOSE == Spelled("close") && KEEP_ALIVE == Spelled("keep-alive")
  {
  }

  lemma WatchedTokens()
    ensures Token(CHUNKED) && Token(CLOSE) && Token(KEEP_ALIVE)
  {
    assert !AllOws([CHUNKED[0]]) && !AllOws([CHUNKED[6]]) by {
      assert [CHUNKED[0]][0] == 0x63 && [CHUNKED[6]][0] == 0x64;
    }
    assert !AllOws([CLOSE[0]]) && !AllOws([CLOSE[4]]) by {
      assert [CLOSE[0]][0] == 0x63 && [CLOSE[4]][0] == 0x65;
    }
    assert !AllOws([KEEP_ALIVE[0]]) && !AllOws([KEEP_ALIVE[9]]) by {
      assert [KEEP_ALIVE[0]][0] == 0x6B && [KEEP_ALIVE[9]][0] == 0x65;
    }
  }

  /** A list header names the token in one of its elements. */
  ghost predicate Lists(value: Option<Bytes>, token: Bytes) {
    value.Some? && exists i, j :: Element(value.value, i, j) && Names(value.value[i..j], token)
  }

  /** The framing is chunked exactly when the first Transfer-Encoding lists the token, whatever else is there. */
  lemma ChunkedExactly(log: seq<Fed>)
    ensures FramingFrom(log) == Chunked <==>
            Lists(TransferEncodings(log), CHUNKED)
  {
    WatchedTokens();
    if TransferEncodings(log).Some? {
      HasTokenExact(TransferEncodings(log).value, CHUNKED);
    }
  }

  /** The mode is close exactly when `close` is listed, or the version is HTTP/1.0 without `keep-alive`. */
  lemma CloseExactly(log: seq<Fed>)
    ensures var connection := FirstHit(HeaderName(CONNECTION), log);
            DerivedFrom(log).connection == Close <==>
            Lists(connection, CLOSE) || (FirstHit(RequestLineVersion, log) == Some(HTTP_1_0) && !Lists(connection, KEEP_ALIVE))
  {
    var connection := FirstHit(HeaderName(CONNECTION), log);
    WatchedTokens();
    if connection.Some? {
      HasTokenExact(connection.value, CLOSE);
      HasTokenExact(connection.value, KEEP_ALIVE);
    }
  }

  /** The version is HTTP/1.0 exactly when the first version found says so; anything else counts as HTTP/1.1. */
  lemma VersionExactly(log: seq<Fed>)
    ensures var spelled := Some(Spelled("HTTP/1.0"));
            && (DerivedFrom(log).version == Http10 <==> FirstHit(RequestLineVersion, log) == spelled)
            && (DerivedFrom(log).version == Http11 <==> FirstHit(RequestLineVersion, log) != spelled)
  {
    hide FirstHit, FramingFrom, ModeOf, Ambiguous;
    WatchedNames();
  }

  /** Resolving the shared session is the same as reading the verdict off the lines. */
  lemma ResolveAllMeaning(log: seq<Fed>)
    ensures ResolveAll(SessionAfter(log)) == DerivedFrom(log)
  {
    AllMatchersCover();
    SharedSessionFaithful(AllMatchers(), log);
    ResolveFaithful(SessionAfter(log), log);
  }

  /** Reordering or repeating lines changes neither conflict flag; without ambiguity it changes nothing. */
  lemma ResolveAllOrderIrrelevant(a: seq<Fed>, b: seq<Fed>)
    requires SameLines(a, b)
    ensures var d, e := ResolveAll(SessionAfter(a)), ResolveAll(SessionAfter(b));
            && d.hasConflicts == e.hasConflicts
            && d.clTeConflict == e.clTeConflict
            && (!d.hasConflicts ==> d == e)
  {
    ResolveAllMeaning(a);
    ResolveAllMeaning(b);
    OrderIrrelevant(HeaderName(CONTENT_LENGTH), a, b);
    OrderIrrelevant(HeaderName(TRANSFER_ENCODING), a, b);
    OrderIrrelevant(HeaderName(CONNECTION), a, b);
    OrderIrrelevant(RequestLineVersion, a, b);
  }

  // ----- Content-Length, end to end -----

  /** A header line as it arrives from the wire. */
  function HeaderLine(name: Bytes, before: Bytes, value: Bytes, after: Bytes): Bytes {
    name + [0x3A] + (before + value + after) + CRLF
  }

  /** A header line is found under its name in any case, with its trimmed value, and under no other name. */
  lemma HeaderLineMatches(name: Bytes, watched: Bytes, before: Bytes, value: Bytes, after: Bytes)
    requires 0x3A !in name && AllOws(before) && AllOws(after)
    ensures TryMatch(HeaderName(watched), HeaderLine(name, before, value, after)) ==
            if SameName(name, watched) then Some(TrimOws(value)) else None
  {
    var field := before + value + after;
    EqualNamesExactly(name, watched);
    MemchrSplits(0x3A, name, field + CRLF);
    assert HeaderLine(name, before, value, after) == name + [0x3A] + (field + CRLF);
    assert StripCrlf(field + CRLF) == field;
    TrimOwsExact(before, value, after);
  }

  lemma NoColon(name: Bytes, watched: Bytes)
    requires SameName(name, watched) && 0x3A !in watched
    ensures 0x3A !in name
  {
    forall i | 0 <= i < |name| ensures name[i] != 0x3A {
      assert watched[i] in watched;
      assert SameLetter(name[i], watched[i]);
    }
  }

  /** Which header values are a length, and which one; every other value is `Invalid`. */
  lemma ResolveLengthExactly(value: Bytes, n: nat)
    ensures ResolveLength(value) == Fixed(n) <==>
            var text := DecodeUtf8(value);
            && text.Some?
            && var t := Trim(text.value);
               var digits := if t != [] && t[0] == '+' as nat then t[1..] else t;
               digits != [] && AllDigits(digits, 10) && ValueOf(digits, 10) == n && n < USIZE_LIMIT
    ensures ResolveLength(value) == Invalid <==> forall k :: ResolveLength(value) != Fixed(k)
  {
    var text := DecodeUtf8(value);
    if text.Some? {
      ParseUsizeExact(Trim(text.value), 10, n);
    }
  }

  lemma DecimalIsPlain(k: nat, n: nat)
    ensures var value := Zeros(k) + Digits(n, 10);
            forall i :: 0 <= i < |value| ==> 0x30 <= value[i] <= 0x39
  {
    assert forall c: nat :: IsDigit(c, 10) ==> 0x30 <= c <= 0x39;
    var digits := Digits(n, 10);
    assert forall i :: 0 <= i < |digits| ==> IsDigit(digits[i], 10);
  }

  /** Digits survive decoding and trimming. */
  lemma ResolvePlainLength(value: Bytes)
    requires forall i :: 0 <= i < |value| ==> 0x30 <= value[i] <= 0x39
    ensures ResolveLength(value) == match ParseUsize(value, 10) case None => Invalid case Some(n) => Fixed(n)
  {
    DecodeAscii(value);
    TrimNothing(value);
  }

  lemma PlainLengthLine(name: Bytes, before: Bytes, value: Bytes, after: Bytes)
    requires SameName(name, CONTENT_LENGTH) && AllOws(before) && AllOws(after)
    requires value != [] && forall i :: 0 <= i < |value| ==> 0x30 <= value[i] <= 0x39
    ensures TryMatch(HeaderName(CONTENT_LENGTH), HeaderLine(name, before, value, after)) == Some(value)
  {
    NoColon(name, CONTENT_LENGTH);
    HeaderLineMatches(name, CONTENT_LENGTH, before, value, after);
    TrimOwsExact([], value, []);
  }

  /**
   * A Content-Length line, whatever its case, white space and leading zeros, resolves to the number
   * it spells when that is a `usize`, and to `Invalid` when it is larger.
   */
  lemma ContentLengthResolves(name: Bytes, before: Bytes, k: nat, n: nat, after: Bytes)
    requires SameName(name, CONTENT_LENGTH) && AllOws(before) && AllOws(after)
    ensures var line := HeaderLine(name, before, Zeros(k) + Digits(n, 10), after);
            var value := TryMatch(HeaderName(CONTENT_LENGTH), line);
            value.Some? && ResolveLength(value.value) == if n < USIZE_LIMIT then Fixed(n) else Invalid
  {
    var value := Zeros(k) + Digits(n, 10);
    DecimalIsPlain(k, n);
    PlainLengthLine(name, before, value, after);
    ResolvePlainLength(value);
    ParsePrinted(k, n, 10);
  }
}
