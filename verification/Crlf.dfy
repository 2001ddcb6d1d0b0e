/** Byte search: the first occurrence of a byte, and the CRLF scan both HTTP codecs share. */
module Crlf {
  import opened Common

  /** `memchr`: the index of the first `needle`. */
  function Memchr(needle: byte, s: Bytes): (r: Option<nat>)
    ensures r.Some? ==> r.value < |s| && s[r.value] == needle && needle !in s[..r.value]
    ensures r.None? ==> needle !in s
  {
    if s == [] then None
    else if s[0] == needle then Some(0)
    else
      match Memchr(needle, s[1..])
      case None => None
      case Some(i) =>
        assert s[..i + 1] == [s[0]] + s[1..][..i];
        Some(i + 1)
  }

  /** `memrchr`: the index of the last `needle`. */
  function Memrchr(needle: byte, s: Bytes): (r: Option<nat>)
    ensures r.Some? ==> r.value < |s| && s[r.value] == needle && needle !in s[r.value + 1..]
    ensures r.None? ==> needle !in s
  {
    if s == [] then None
    else if s[|s| - 1] == needle then Some(|s| - 1)
    else
      match Memrchr(needle, s[..|s| - 1])
      case None => None
      case Some(i) =>
        assert s[i + 1..] == s[..|s| - 1][i + 1..] + [s[|s| - 1]];
        Some(i)
  }

  lemma MemchrSplits(needle: byte, a: Bytes, b: Bytes)
    requires needle !in a
    ensures var s := a + [needle] + b;
            Memchr(needle, s) == Some(|a|) && s[..|a|] == a && s[|a| + 1..] == b
  {
    hide Memchr;
    var s := a + [needle] + b;
    assert s[|a|] == needle;
    var i := Memchr(needle, s).value;
    assert forall j :: 0 <= j < |a| ==> s[j] == a[j];
    assert forall j :: 0 <= j < i ==> s[j] == s[..i][j];
  }

  lemma MemrchrSplits(needle: byte, a: Bytes, b: Bytes)
    requires needle !in b
    ensures var s := a + [needle] + b;
            Memrchr(needle, s) == Some(|a|) && s[..|a|] == a && s[|a| + 1..] == b
  {
    hide Memrchr;
    var s := a + [needle] + b;
    assert s[|a|] == needle;
    var i := Memrchr(needle, s).value;
    assert forall j :: |a| < j < |s| ==> s[j] == b[j - |a| - 1];
    assert forall j :: i < j < |s| ==> s[j] == s[i + 1..][j - i - 1];
  }

  predicate CrlfAt(s: Bytes, i: int) {
    0 <= i && i + 1 < |s| && s[i] == CR && s[i + 1] == LF
  }

  ghost predicate NoCrlf(s: Bytes) {
    forall i :: 0 <= i < |s| ==> !CrlfAt(s, i)
  }

  ghost predicate FirstCrlf(s: Bytes, i: nat) {
    CrlfAt(s, i) && forall j :: 0 <= j < i ==> !CrlfAt(s, j)
  }

  /** Specification of `find_crlf`: the position of the first CR LF pair. */
  function FindCrlf(s: Bytes): (r: Option<nat>)
    ensures r.Some? ==> FirstCrlf(s, r.value)
    ensures r.None? ==> NoCrlf(s)
  {
    if |s| < 2 then None
    else if CrlfAt(s, 0) then Some(0)
    else
      match FindCrlf(s[1..])
      case None =>
        assert forall j :: 1 <= j < |s| ==> CrlfAt(s, j) == CrlfAt(s[1..], j - 1);
        None
      case Some(i) =>
        assert forall j :: 1 <= j < |s| ==> CrlfAt(s, j) == CrlfAt(s[1..], j - 1);
        Some(i + 1)
  }

  /** The scan of the source: hop from LF to LF until one has a CR in front of it. */
  method ScanCrlf(buf: Bytes) returns (r: Option<nat>)
    ensures r == FindCrlf(buf)
  {
    var start := 0;
    while true
      invariant 0 <= start <= |buf|
      invariant forall j :: 0 <= j < start - 1 ==> !CrlfAt(buf, j)
      invariant start > 0 ==> buf[start - 1] == LF
      decreases |buf| - start
    {
      match Memchr(LF, buf[start..])
      case None =>
        assert forall j :: start <= j < |buf| ==> buf[j] == buf[start..][j - start];
        assert NoCrlf(buf);
        return None;
      case Some(pos) =>
        var abs := start + pos;
        assert forall j :: start <= j < abs ==> buf[j] == buf[start..][..pos][j - start];
        if abs > 0 && buf[abs - 1] == CR {
          assert FirstCrlf(buf, abs - 1);
          FirstCrlfUnique(buf, abs - 1);
          return Some(abs - 1);
        }
        start := abs + 1;
    }
  }

  lemma FirstCrlfUnique(s: Bytes, i: nat)
    requires FirstCrlf(s, i)
    ensures FindCrlf(s) == Some(i)
  {
    var r := FindCrlf(s);
    if r.Some? {
      assert !(r.value < i) && !(i < r.value);
    }
  }

  /** Bytes that arrive later never move a line end that is already in the buffer. */
  lemma FindCrlfExtends(a: Bytes, b: Bytes)
    requires FindCrlf(a).Some?
    ensures FindCrlf(a + b) == FindCrlf(a)
  {
    var i := FindCrlf(a).value;
    assert forall j :: 0 <= j <= i ==> CrlfAt(a + b, j) == CrlfAt(a, j);
    FirstCrlfUnique(a + b, i);
  }

  /** A line without a CR LF pair ends exactly at the CR LF written behind it. */
  lemma FindCrlfLine(line: Bytes, rest: Bytes)
    requires NoCrlf(line)
    ensures FindCrlf(line + CRLF + rest) == Some(|line|)
  {
    var s := line + CRLF + rest;
    assert forall j :: 0 <= j < |line| - 1 ==> CrlfAt(s, j) == CrlfAt(line, j);
    assert FirstCrlf(s, |line|);
    FirstCrlfUnique(s, |line|);
  }

  /** The text of a line that is not empty. */
  ghost predicate Line(l: Bytes) {
    l != [] && NoCrlf(l)
  }

  lemma CutLine(line: Bytes, rest: Bytes)
    ensures var src := line + CRLF + rest;
            src[..|line|] == line && src[..|line| + 2] == line + CRLF && src[|line| + 2..] == rest
  {
  }
}
