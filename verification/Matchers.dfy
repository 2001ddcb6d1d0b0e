/** What a single matcher sees in a single line. */
module Matchers {
  import opened Common
  import opened Crlf
  import opened HttpFrames

  datatype Matcher =
    | HeaderName(name: Bytes)
    | RequestLineVersion
    | RequestLineMethod
    | RequestLineUri
    | StatusCode
  {
    function Phase(): HttpPhase {
      match this
      case HeaderName(_) => HttpPhase.Header
      case RequestLineVersion | RequestLineMethod | RequestLineUri => RequestLine
      case StatusCode => StatusLine
    }
  }

  function Lower(b: byte): byte {
    if 0x41 <= b <= 0x5A then b + 0x20 else b
  }

  predicate EqIgnoreAsciiCase(a: Bytes, b: Bytes) {
    |a| == |b| && forall i :: 0 <= i < |a| ==> Lower(a[i]) == Lower(b[i])
  }

  /** The same byte, or the same letter in the other case. */
  predicate SameLetter(a: byte, b: byte) {
    a == b || (0x41 <= a <= 0x5A && b == a + 0x20) || (0x41 <= b <= 0x5A && a == b + 0x20)
  }

  /** Names that differ at most in the case of their letters. */
  ghost predicate SameName(a: Bytes, b: Bytes) {
    |a| == |b| && forall i :: 0 <= i < |a| ==> SameLetter(a[i], b[i])
  }

  /** The comparison of lower-cased bytes is equality up to the case of letters, and nothing else. */
  lemma EqualNamesExactly(a: Bytes, b: Bytes)
    ensures EqIgnoreAsciiCase(a, b) <==> SameName(a, b)
  {
    assert forall x: byte, y: byte :: Lower(x) == Lower(y) <==> SameLetter(x, y);
  }

  predicate IsOws(b: byte) {
    b == SP || b == HT
  }

  /** Index of the first byte that is not OWS; the length when there is none. */
  function FirstNonOws(v: Bytes): (r: nat)
    ensures r <= |v|
    ensures forall i :: 0 <= i < r ==> IsOws(v[i])
    ensures r < |v| ==> !IsOws(v[r])
  {
    if v != [] && IsOws(v[0]) then 1 + FirstNonOws(v[1..]) else 0
  }

  /** One past the last byte that is not OWS; 0 when there is none. */
  function EndNonOws(v: Bytes): (r: nat)
    ensures r <= |v|
    ensures forall i :: r <= i < |v| ==> IsOws(v[i])
    ensures r > 0 ==> !IsOws(v[r - 1])
  {
    if v != [] && IsOws(v[|v| - 1]) then EndNonOws(v[..|v| - 1]) else |v|
  }

  function TrimOws(v: Bytes): Bytes {
    var start := FirstNonOws(v);
    var end := if EndNonOws(v) == 0 then start else EndNonOws(v);
    assert start < |v| ==> start < EndNonOws(v);
    v[start..end]
  }

  /** Only the byte before the last is looked at. */
  function StripCrlf(data: Bytes): Bytes {
    if |data| >= 2 && data[|data| - 2] == CR then data[..|data| - 2] else data
  }

  function TryMatch(m: Matcher, data: Bytes): Option<Bytes> {
    match m
    case HeaderName(name) =>
      (match Memchr(0x3A, data)
       case None => None
       case Some(sep) =>
         if EqIgnoreAsciiCase(data[..sep], name) then Some(TrimOws(StripCrlf(data[sep + 1..]))) else None)
    case RequestLineVersion =>
      (match Memrchr(SP, data)
       case None => None
       case Some(last) => Some(StripCrlf(data[last + 1..])))
    case RequestLineMethod =>
      (match Memchr(SP, data)
       case None => None
       case Some(space) => Some(data[..space]))
    case RequestLineUri =>
      (match Memchr(SP, data)
       case None => None
       case Some(first) =>
         var rest := data[first + 1..];
         match Memchr(SP, rest)
         case None => None
         case Some(second) => Some(rest[..second]))
    case StatusCode =>
      (match Memchr(SP, data)
       case None => None
       case Some(first) =>
         var rest := data[first + 1..];
         match Memchr(SP, rest)
         case None => Some(rest)
         case Some(end) => Some(rest[..end]))
  }

  // ----- comma-separated lists -----

  const COMMA: byte := 0x2C

  predicate IsToken(piece: Bytes, token: Bytes) {
    EqIgnoreAsciiCase(TrimOws(piece), token)
  }

  /** `split(',').any(p)`, which stops at the first piece that fits. */
  predicate AnyPiece(v: Bytes, p: Bytes -> bool) {
    match Memchr(COMMA, v)
    case None => p(v)
    case Some(c) => p(v[..c]) || AnyPiece(v[c + 1..], p)
  }

  predicate HasToken(v: Bytes, token: Bytes) {
    AnyPiece(v, piece => IsToken(piece, token))
  }

  /** A maximal comma-free stretch of `v`. */
  ghost predicate Element(v: Bytes, i: int, j: int) {
    && 0 <= i <= j <= |v|
    && (i > 0 ==> v[i - 1] == COMMA)
    && (j < |v| ==> v[j] == COMMA)
    && (forall k :: i <= k < j ==> v[k] != COMMA)
  }

  /** An element either stops at the first comma or lies behind it. */
  lemma ElementCases(v: Bytes, c: nat, i: int, j: int)
    requires Memchr(COMMA, v) == Some(c)
    ensures Element(v, i, j) <==> (i == 0 && j == c) || (c < i && Element(v[c + 1..], i - c - 1, j - c - 1))
  {
    assert forall k :: 0 <= k < c ==> v[k] == v[..c][k];
    var tail := v[c + 1..];
    if c < i <= j <= |v| {
      assert forall k :: i <= k < j ==> v[k] == tail[k - c - 1];
      assert forall k :: i - c - 1 <= k < j - c - 1 ==> tail[k] == v[k + c + 1];
    }
  }

  /** An element of what lies behind a comma is an element of the whole. */
  lemma ElementBehind(v: Bytes, n: nat, k: int, l: int)
    requires 0 < n <= |v| && v[n - 1] == COMMA && Element(v[n..], k, l)
    ensures 0 <= k <= l <= |v| - n && Element(v, k + n, l + n) && v[k + n..l + n] == v[n..][k..l]
  {
    var tail := v[n..];
    assert k > 0 ==> tail[k - 1] == v[k + n - 1];
    assert l < |tail| ==> tail[l] == v[l + n];
    forall m | k + n <= m < l + n ensures v[m] != COMMA {
      assert tail[m - n] == v[m];
    }
    assert Element(v, k + n, l + n);
    var x, y := v[k + n..l + n], tail[k..l];
    assert |x| == |y| && forall i :: 0 <= i < |x| ==> x[i] == tail[k + i] == y[i];
  }

  lemma {:induction false} PieceIsElement(v: Bytes, p: Bytes -> bool) returns (i: int, j: int)
    requires AnyPiece(v, p)
    ensures Element(v, i, j) && p(v[i..j])
  {
    match Memchr(COMMA, v)
    case None =>
      i, j := 0, |v|;
      assert v[i..j] == v;
    case Some(c) =>
      if p(v[..c]) {
        i, j := 0, c;
        ElementCases(v, c, 0, c);
        assert v[0..c] == v[..c];
      } else {
        var k, l := PieceIsElement(v[c + 1..], p);
        i, j := k + c + 1, l + c + 1;
        ElementBehind(v, c + 1, k, l);
      }
  }

  lemma {:induction false} ElementIsPiece(v: Bytes, i: int, j: int, p: Bytes -> bool)
    requires Element(v, i, j) && p(v[i..j])
    ensures AnyPiece(v, p)
    decreases |v|
  {
    match Memchr(COMMA, v)
    case None =>
      assert v[i..j] == v;
    case Some(c) =>
      ElementCases(v, c, i, j);
      if i == 0 {
        assert v[i..j] == v[..c];
      } else {
        assert v[i..j] == v[c + 1..][i - c - 1..j - c - 1];
        ElementIsPiece(v[c + 1..], i - c - 1, j - c - 1, p);
      }
  }

  /** The token search finds exactly the list elements that are the token up to case and white space. */
  lemma HasTokenExact(v: Bytes, token: Bytes)
    requires Token(token)
    ensures HasToken(v, token) <==> exists i, j :: Element(v, i, j) && Names(v[i..j], token)
  {
    var p := piece => IsToken(piece, token);
    if HasToken(v, token) {
      var i, j := PieceIsElement(v, p);
      IsTokenExactly(v[i..j], token);
    }
    if i, j :| Element(v, i, j) && Names(v[i..j], token) {
      IsTokenExactly(v[i..j], token);
      ElementIsPiece(v, i, j, p);
    }
  }

  // ----- request and status lines -----

  /** What the matchers find in a request line whose parts hold no space. */
  lemma RequestLineParts(method_: Bytes, uri: Bytes, version: Bytes)
    requires SP !in method_ && SP !in uri && SP !in version
    ensures var line := method_ + [SP] + uri + [SP] + version + CRLF;
            && TryMatch(RequestLineMethod, line) == Some(method_)
            && TryMatch(RequestLineUri, line) == Some(uri)
            && TryMatch(RequestLineVersion, line) == Some(version)
  {
    hide Memchr, Memrchr, StripCrlf;
    var line := method_ + [SP] + uri + [SP] + version + CRLF;
    var last := version + CRLF;
    assert line == method_ + [SP] + (uri + [SP] + last);
    assert line == method_ + [SP] + uri + [SP] + last;
    MethodAndUri(method_, uri, last);
    VersionLast(method_ + [SP] + uri, version);
  }

  lemma MethodAndUri(method_: Bytes, uri: Bytes, last: Bytes)
    requires SP !in method_ && SP !in uri
    ensures var line := method_ + [SP] + (uri + [SP] + last);
            TryMatch(RequestLineMethod, line) == Some(method_) && TryMatch(RequestLineUri, line) == Some(uri)
  {
    hide Memchr, Memrchr, StripCrlf;
    MemchrSplits(SP, method_, uri + [SP] + last);
    MemchrSplits(SP, uri, last);
  }

  /** The version is what follows the last space, whatever stands in front of it. */
  lemma VersionLast(front: Bytes, version: Bytes)
    requires SP !in version
    ensures TryMatch(RequestLineVersion, front + [SP] + (version + CRLF)) == Some(version)
  {
    MemrchrSplits(SP, front, version + CRLF);
    assert StripCrlf(version + CRLF) == version;
  }

  /** The status code is what stands between the first two spaces of a status line. */
  lemma StatusLineCode(version: Bytes, code: Bytes, reason: Bytes)
    requires SP !in version && SP !in code
    ensures TryMatch(StatusCode, version + [SP] + code + [SP] + reason) == Some(code)
    ensures TryMatch(StatusCode, version + [SP] + code) == Some(code)
  {
    MemchrSplits(SP, version, code + [SP] + reason);
    assert version + [SP] + code + [SP] + reason == version + [SP] + (code + [SP] + reason);
    MemchrSplits(SP, code, reason);
    MemchrSplits(SP, version, code);
  }

  /** Spaces and tabs only. */
  ghost predicate AllOws(s: Bytes) {
    forall i :: 0 <= i < |s| ==> s[i] == 0x20 || s[i] == 0x09
  }

  lemma TrimBlank(v: Bytes)
    requires AllOws(v)
    ensures TrimOws(v) == []
  {
  }

  lemma TrimBetween(v: Bytes, start: nat, end: nat)
    requires start < end <= |v| && AllOws(v[..start]) && AllOws(v[end..])
    requires !IsOws(v[start]) && !IsOws(v[end - 1])
    ensures TrimOws(v) == v[start..end]
  {
    assert forall i :: 0 <= i < start ==> v[i] == v[..start][i];
    assert forall i :: end <= i < |v| ==> v[i] == v[end..][i - end];
    hide FirstNonOws, EndNonOws;
    assert FirstNonOws(v) == start && EndNonOws(v) == end;
  }

  /**
   * Optional white space around a value is invisible to a header matcher, also around a blank one; and a
   * value that neither starts nor ends with white space is not touched.
   */
  lemma TrimOwsExact(before: Bytes, core: Bytes, after: Bytes)
    requires AllOws(before) && AllOws(after)
    ensures TrimOws(before + core + after) == TrimOws(core)
    ensures AllOws(core) ==> TrimOws(core) == []
    ensures core != [] && !IsOws(core[0]) && !IsOws(core[|core| - 1]) ==> TrimOws(core) == core
  {
    var v := before + core + after;
    hide FirstNonOws, EndNonOws, TrimOws;
    if AllOws(core) {
      TrimBlank(core);
      TrimBlank(v);
    } else {
      TrimAround(before, core, after, FirstNonOws(core), EndNonOws(core));
      if !IsOws(core[0]) && !IsOws(core[|core| - 1]) {
        TrimBetween(core, 0, |core|);
        assert core[0..|core|] == core;
      }
    }
  }

  /** A value is what is left of it between white space. */
  lemma TrimSplits(v: Bytes) returns (before: Bytes, after: Bytes)
    ensures AllOws(before) && AllOws(after) && v == before + TrimOws(v) + after
  {
    var start := FirstNonOws(v);
    var end := if EndNonOws(v) == 0 then start else EndNonOws(v);
    assert start < |v| ==> start < EndNonOws(v);
    before, after := v[..start], v[end..];
  }

  /** `piece` is the token, in any case and with any white space around it. */
  ghost predicate Names(piece: Bytes, token: Bytes) {
    exists before, core, after ::
      AllOws(before) && AllOws(after) && SameName(core, token) && piece == before + core + after
  }

  /** A token has something in it, and neither starts nor ends with white space. */
  ghost predicate Token(t: Bytes) {
    t != [] && !AllOws([t[0]]) && !AllOws([t[|t| - 1]])
  }

  lemma IsTokenExactly(piece: Bytes, token: Bytes)
    requires Token(token)
    ensures IsToken(piece, token) <==> Names(piece, token)
  {
    var core := TrimOws(piece);
    EqualNamesExactly(core, token);
    if IsToken(piece, token) {
      var before, after := TrimSplits(piece);
      assert Names(piece, token);
    }
    if Names(piece, token) {
      var before, inner, after :| AllOws(before) && AllOws(after) && SameName(inner, token) && piece == before + inner + after;
      hide TrimOws;
      assert SameLetter(inner[0], token[0]) && SameLetter(inner[|inner| - 1], token[|token| - 1]);
      assert AllOws([token[0]]) <==> token[0] == 0x20 || token[0] == 0x09;
      assert AllOws([token[|token| - 1]]) <==> token[|token| - 1] == 0x20 || token[|token| - 1] == 0x09;
      TrimOwsExact(before, inner, after);
      EqualNamesExactly(inner, token);
    }
  }

  lemma TrimAround(before: Bytes, core: Bytes, after: Bytes, start: nat, end: nat)
    requires AllOws(before) && AllOws(after)
    requires start < end <= |core| && AllOws(core[..start]) && AllOws(core[end..])
    requires !IsOws(core[start]) && !IsOws(core[end - 1])
    ensures TrimOws(before + core + after) == TrimOws(core)
  {
    hide TrimOws;
    var v := before + core + after;
    assert v[..|before| + start] == before + core[..start];
    assert v[|before| + end..] == core[end..] + after;
    assert v[|before| + start] == core[start] && v[|before| + end - 1] == core[end - 1];
    TrimBetween(core, start, end);
    TrimBetween(v, |before| + start, |before| + end);
    assert v[|before| + start..|before| + end] == core[start..end];
  }
}
