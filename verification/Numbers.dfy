/**
 * Text handling the codecs borrow from Rust's standard library: `str::from_utf8`, `str::trim` and
 * `usize::from_str_radix`, together with the printer they are inverse to.
 */
module Numbers {
  import opened Common

  /** Decoded text: one number per Unicode scalar value. */
  type Text = seq<nat>

  predicate Continuation(b: byte) {
    0x80 <= b < 0xC0
  }

  /** The payload bits of a UTF-8 byte whose marker is `marker`. */
  function Bits(b: byte, marker: nat): nat
    requires marker <= b
  {
    b - marker
  }

  function Cons(c: nat, rest: Option<Text>): Option<Text> {
    match rest
    case None => None
    case Some(t) => Some([c] + t)
  }

  /** Strict UTF-8 decoding: no overlong forms, no surrogates, nothing above U+10FFFF. */
  function DecodeUtf8(s: Bytes): Option<Text> {
    if s == [] then Some([])
    else if s[0] < 0x80 then Cons(s[0], DecodeUtf8(s[1..]))
    else if 0xC2 <= s[0] < 0xE0 && |s| >= 2 && Continuation(s[1]) then
      Cons(Bits(s[0], 0xC0) * 0x40 + Bits(s[1], 0x80), DecodeUtf8(s[2..]))
    else if 0xE0 <= s[0] < 0xF0 && |s| >= 3 && Continuation(s[1]) && Continuation(s[2]) then
      var c := Bits(s[0], 0xE0) * 0x1000 + Bits(s[1], 0x80) * 0x40 + Bits(s[2], 0x80);
      if c < 0x800 || 0xD800 <= c < 0xE000 then None else Cons(c, DecodeUtf8(s[3..]))
    else if 0xF0 <= s[0] < 0xF5 && |s| >= 4 && Continuation(s[1]) && Continuation(s[2]) && Continuation(s[3]) then
      var c := Bits(s[0], 0xF0) * 0x4_0000 + Bits(s[1], 0x80) * 0x1000 + Bits(s[2], 0x80) * 0x40 + Bits(s[3], 0x80);
      if c < 0x1_0000 || 0x10_FFFF < c then None else Cons(c, DecodeUtf8(s[4..]))
    else None
  }

  // ----- what decoding means -----

  /** A Unicode scalar value: a code point that is no surrogate. */
  predicate Scalar(c: nat) {
    c < 0xD800 || 0xE000 <= c < 0x11_0000
  }

  ghost predicate AllScalars(t: Text) {
    forall i :: 0 <= i < |t| ==> Scalar(t[i])
  }

  /** The UTF-8 form of a scalar value (section 3 of RFC 3629). */
  function EncodeScalar(c: nat): (r: Bytes)
    requires Scalar(c)
    ensures r != []
  {
    if c < 0x80 then [c]
    else if c < 0x800 then [0xC0 + c / 0x40, 0x80 + c % 0x40]
    else if c < 0x1_0000 then [0xE0 + c / 0x1000, 0x80 + c / 0x40 % 0x40, 0x80 + c % 0x40]
    else [0xF0 + c / 0x4_0000, 0x80 + c / 0x1000 % 0x40, 0x80 + c / 0x40 % 0x40, 0x80 + c % 0x40]
  }

  function EncodeUtf8(t: Text): Bytes
    requires AllScalars(t)
  {
    if t == [] then [] else EncodeScalar(t[0]) + EncodeUtf8(t[1..])
  }

  lemma DecodeOne(a: byte, rest: Bytes)
    requires a < 0x80
    ensures DecodeUtf8([a] + rest) == Cons(a, DecodeUtf8(rest))
  {
    assert ([a] + rest)[1..] == rest;
  }

  lemma DecodeTwo(a: byte, b: byte, rest: Bytes)
    requires 0xC2 <= a < 0xE0 && Continuation(b)
    ensures DecodeUtf8([a, b] + rest) == Cons(Bits(a, 0xC0) * 0x40 + Bits(b, 0x80), DecodeUtf8(rest))
  {
    assert ([a, b] + rest)[2..] == rest;
  }

  lemma DecodeThree(a: byte, b: byte, c: byte, rest: Bytes)
    requires 0xE0 <= a < 0xF0 && Continuation(b) && Continuation(c)
    requires Scalar(Bits(a, 0xE0) * 0x1000 + Bits(b, 0x80) * 0x40 + Bits(c, 0x80)) && (a > 0xE0 || b >= 0xA0)
    ensures DecodeUtf8([a, b, c] + rest) == Cons(Bits(a, 0xE0) * 0x1000 + Bits(b, 0x80) * 0x40 + Bits(c, 0x80), DecodeUtf8(rest))
  {
    assert ([a, b, c] + rest)[3..] == rest;
  }

  lemma DecodeFour(a: byte, b: byte, c: byte, d: byte, rest: Bytes)
    requires 0xF0 <= a < 0xF5 && Continuation(b) && Continuation(c) && Continuation(d)
    requires 0x1_0000 <= Bits(a, 0xF0) * 0x4_0000 + Bits(b, 0x80) * 0x1000 + Bits(c, 0x80) * 0x40 + Bits(d, 0x80) < 0x11_0000
    ensures DecodeUtf8([a, b, c, d] + rest) ==
            Cons(Bits(a, 0xF0) * 0x4_0000 + Bits(b, 0x80) * 0x1000 + Bits(c, 0x80) * 0x40 + Bits(d, 0x80), DecodeUtf8(rest))
  {
    assert ([a, b, c, d] + rest)[4..] == rest;
  }

  /** A number in groups of six bits. */
  lemma Sixes(c: nat)
    ensures c == c / 0x40 * 0x40 + c % 0x40
    ensures c / 0x40 == c / 0x1000 * 0x40 + c / 0x40 % 0x40
    ensures c / 0x1000 == c / 0x4_0000 * 0x40 + c / 0x1000 % 0x40
  {
  }

  /** One scalar value at the front decodes to itself, whatever follows. */
  lemma DecodeScalar(c: nat, rest: Bytes)
    requires Scalar(c)
    ensures DecodeUtf8(EncodeScalar(c) + rest) == Cons(c, DecodeUtf8(rest))
  {
    hide DecodeUtf8;
    Sixes(c);
    if c < 0x80 {
      DecodeOne(c, rest);
    } else if c < 0x800 {
      DecodeTwo(0xC0 + c / 0x40, 0x80 + c % 0x40, rest);
    } else if c < 0x1_0000 {
      DecodeThree(0xE0 + c / 0x1000, 0x80 + c / 0x40 % 0x40, 0x80 + c % 0x40, rest);
    } else {
      DecodeFour(0xF0 + c / 0x4_0000, 0x80 + c / 0x1000 % 0x40, 0x80 + c / 0x40 % 0x40, 0x80 + c % 0x40, rest);
    }
  }

  lemma SixesOf(q: nat, d: nat)
    requires d < 0x40
    ensures (q * 0x40 + d) / 0x40 == q && (q * 0x40 + d) % 0x40 == d
  {
  }

  lemma Nested(n: nat)
    ensures n / 0x1000 == n / 0x40 / 0x40 && n / 0x4_0000 == n / 0x1000 / 0x40
  {
  }

  /** The bytes of a scalar value from its six-bit groups. */
  lemma EncodeTwo(c: nat, d: nat)
    requires 2 <= c < 0x20 && d < 0x40
    ensures EncodeScalar(c * 0x40 + d) == [0xC0 + c, 0x80 + d]
  {
    SixesOf(c, d);
  }

  lemma EncodeThree(b: nat, c: nat, d: nat)
    requires b < 0x10 && c < 0x40 && d < 0x40
    requires var n := b * 0x1000 + c * 0x40 + d; n >= 0x800 && Scalar(n)
    ensures EncodeScalar(b * 0x1000 + c * 0x40 + d) == [0xE0 + b, 0x80 + c, 0x80 + d]
  {
    var n, q := b * 0x1000 + c * 0x40 + d, b * 0x40 + c;
    assert n == q * 0x40 + d;
    SixesOf(q, d);
    SixesOf(b, c);
    Nested(n);
  }

  lemma EncodeFour(a: nat, b: nat, c: nat, d: nat)
    requires b < 0x40 && c < 0x40 && d < 0x40
    requires 0x1_0000 <= a * 0x4_0000 + b * 0x1000 + c * 0x40 + d < 0x11_0000
    ensures a < 5
    ensures EncodeScalar(a * 0x4_0000 + b * 0x1000 + c * 0x40 + d) == [0xF0 + a, 0x80 + b, 0x80 + c, 0x80 + d]
  {
    var n, q, p := a * 0x4_0000 + b * 0x1000 + c * 0x40 + d, a * 0x1000 + b * 0x40 + c, a * 0x40 + b;
    assert n == q * 0x40 + d && q == p * 0x40 + c;
    SixesOf(q, d);
    SixesOf(p, c);
    SixesOf(a, b);
    Nested(n);
  }

  /** Bytes that decode start with the UTF-8 form of a scalar value. */
  lemma WasScalar(s: Bytes) returns (c: nat, rest: Bytes)
    requires s != [] && DecodeUtf8(s).Some?
    ensures Scalar(c) && s == EncodeScalar(c) + rest && |rest| < |s|
  {
    if s[0] < 0x80 {
      c, rest := s[0], s[1..];
      assert s == [s[0]] + s[1..];
    } else if s[0] < 0xE0 {
      EncodeTwo(Bits(s[0], 0xC0), Bits(s[1], 0x80));
      c, rest := Bits(s[0], 0xC0) * 0x40 + Bits(s[1], 0x80), s[2..];
      assert s == [s[0], s[1]] + s[2..];
    } else if s[0] < 0xF0 {
      EncodeThree(Bits(s[0], 0xE0), Bits(s[1], 0x80), Bits(s[2], 0x80));
      c, rest := Bits(s[0], 0xE0) * 0x1000 + Bits(s[1], 0x80) * 0x40 + Bits(s[2], 0x80), s[3..];
      assert s == [s[0], s[1], s[2]] + s[3..];
    } else {
      EncodeFour(Bits(s[0], 0xF0), Bits(s[1], 0x80), Bits(s[2], 0x80), Bits(s[3], 0x80));
      c, rest := Bits(s[0], 0xF0) * 0x4_0000 + Bits(s[1], 0x80) * 0x1000 + Bits(s[2], 0x80) * 0x40 + Bits(s[3], 0x80), s[4..];
      assert s == [s[0], s[1], s[2], s[3]] + s[4..];
    }
  }

  /** Decoding is the inverse of encoding, and accepts nothing else: no overlong form, no surrogate, nothing too large. */
  lemma {:induction false} DecodeUtf8Exactly(s: Bytes, t: Text)
    ensures DecodeUtf8(s) == Some(t) <==> AllScalars(t) && EncodeUtf8(t) == s
    decreases |s| + |t|
  {
    if DecodeUtf8(s) == Some(t) && s != [] {
      var c, rest := WasScalar(s);
      DecodeScalar(c, rest);
      DecodeUtf8Exactly(rest, t[1..]);
      assert t == [c] + t[1..];
    }
    if t != [] && AllScalars(t) && EncodeUtf8(t) == s {
      DecodeScalar(t[0], EncodeUtf8(t[1..]));
      DecodeUtf8Exactly(EncodeUtf8(t[1..]), t[1..]);
      assert t == [t[0]] + t[1..];
    }
  }

  /** The Unicode White_Space property. */
  predicate IsWhitespace(c: nat) {
    || 0x09 <= c <= 0x0D || c == 0x20 || c == 0x85 || c == 0xA0 || c == 0x1680
    || 0x2000 <= c <= 0x200A || c == 0x2028 || c == 0x2029 || c == 0x202F || c == 0x205F || c == 0x3000
  }

  /** The 25 characters with the Unicode White_Space property, one by one. */
  const WHITE_SPACE: Text := [
    0x09, 0x0A, 0x0B, 0x0C, 0x0D, 0x20, 0x85, 0xA0, 0x1680, 0x2000, 0x2001, 0x2002, 0x2003, 0x2004, 0x2005, 0x2006,
    0x2007, 0x2008, 0x2009, 0x200A, 0x2028, 0x2029, 0x202F, 0x205F, 0x3000]

  lemma WhiteSpaceExactly(c: nat)
    ensures IsWhitespace(c) <==> c in WHITE_SPACE
  {
    if 0x09 <= c <= 0x0D {
      assert WHITE_SPACE[c - 0x09] == c;
    } else if c == 0x20 {
      assert WHITE_SPACE[5] == c;
    } else if c == 0x85 {
      assert WHITE_SPACE[6] == c;
    } else if c == 0xA0 {
      assert WHITE_SPACE[7] == c;
    } else if c == 0x1680 {
      assert WHITE_SPACE[8] == c;
    } else if 0x2000 <= c <= 0x200A {
      assert WHITE_SPACE[c - 0x2000 + 9] == c;
    } else if c == 0x2028 || c == 0x2029 {
      assert WHITE_SPACE[c - 0x2028 + 20] == c;
    } else if c == 0x202F {
      assert WHITE_SPACE[22] == c;
    } else if c == 0x205F {
      assert WHITE_SPACE[23] == c;
    } else if c == 0x3000 {
      assert WHITE_SPACE[24] == c;
    }
  }

  function TrimStart(t: Text): Text {
    if t != [] && IsWhitespace(t[0]) then TrimStart(t[1..]) else t
  }

  function TrimEnd(t: Text): Text {
    if t != [] && IsWhitespace(t[|t| - 1]) then TrimEnd(t[..|t| - 1]) else t
  }

  function Trim(t: Text): Text {
    TrimEnd(TrimStart(t))
  }

  ghost predicate AllWhite(t: Text) {
    forall i :: 0 <= i < |t| ==> IsWhitespace(t[i])
  }

  /** White space at neither end. */
  ghost predicate Trimmed(t: Text) {
    t != [] ==> !IsWhitespace(t[0]) && !IsWhitespace(t[|t| - 1])
  }

  lemma {:induction false} TrimStartSplits(t: Text) returns (before: Text)
    ensures AllWhite(before) && t == before + TrimStart(t)
    ensures TrimStart(t) != [] ==> !IsWhitespace(TrimStart(t)[0])
  {
    if t != [] && IsWhitespace(t[0]) {
      var b := TrimStartSplits(t[1..]);
      before := [t[0]] + b;
      assert t == [t[0]] + t[1..];
    } else {
      before := [];
      assert t == [] + t;
    }
  }

  lemma {:induction false} TrimEndSplits(t: Text) returns (after: Text)
    ensures AllWhite(after) && t == TrimEnd(t) + after
    ensures TrimEnd(t) != [] ==> !IsWhitespace(TrimEnd(t)[|TrimEnd(t)| - 1])
  {
    if t != [] && IsWhitespace(t[|t| - 1]) {
      var a := TrimEndSplits(t[..|t| - 1]);
      after := a + [t[|t| - 1]];
      assert t == t[..|t| - 1] + [t[|t| - 1]];
    } else {
      after := [];
      assert t == t + [];
    }
  }

  /** A text is its trimmed form between white space. */
  lemma TrimSplits(t: Text) returns (before: Text, after: Text)
    ensures AllWhite(before) && AllWhite(after) && Trimmed(Trim(t)) && t == before + Trim(t) + after
  {
    before := TrimStartSplits(t);
    after := TrimEndSplits(TrimStart(t));
    var core := Trim(t);
    assert core != [] ==> core[0] == TrimStart(t)[0];
    assert before + (core + after) == before + core + after;
  }

  lemma {:induction false} TrimStartOf(before: Text, t: Text)
    requires AllWhite(before) && (t != [] ==> !IsWhitespace(t[0]))
    ensures TrimStart(before + t) == t
  {
    if before == [] {
      assert before + t == t;
    } else {
      assert (before + t)[1..] == before[1..] + t;
      TrimStartOf(before[1..], t);
    }
  }

  lemma {:induction false} TrimEndOf(t: Text, after: Text)
    requires AllWhite(after) && (t != [] ==> !IsWhitespace(t[|t| - 1]))
    ensures TrimEnd(t + after) == t
  {
    if after == [] {
      assert t + after == t;
    } else {
      var n := |after| - 1;
      assert (t + after)[..|t| + n] == t + after[..n];
      TrimEndOf(t, after[..n]);
    }
  }

  /** White space around a text that has none at its ends is what trimming takes away. */
  lemma TrimExact(before: Text, core: Text, after: Text)
    requires AllWhite(before) && AllWhite(after) && core != [] && Trimmed(core)
    ensures Trim(before + core + after) == core
  {
    assert before + core + after == before + (core + after);
    TrimStartOf(before, core + after);
    TrimEndOf(core, after);
  }

  /** `split(sep).next()`: the text in front of the first separator, all of it when there is none. */
  function BeforeFirst(sep: nat, t: Text): Text {
    if t == [] || t[0] == sep then [] else [t[0]] + BeforeFirst(sep, t[1..])
  }

  // ----- parsing -----

  function DigitValue(c: nat): Option<nat> {
    if 0x30 <= c <= 0x39 then Some(c - 0x30)
    else if 0x41 <= c <= 0x5A then Some(c - 0x41 + 10)
    else if 0x61 <= c <= 0x7A then Some(c - 0x61 + 10)
    else None
  }

  /** Digits are the ten figures and the letters in either case, and nothing else. */
  lemma DigitExactly(c: nat, d: nat)
    ensures DigitValue(c) == Some(d) <==>
            (d < 10 && c == '0' as nat + d) || (10 <= d < 36 && (c == 'a' as nat + (d - 10) || c == 'A' as nat + (d - 10)))
  {
  }

  predicate IsDigit(c: nat, radix: nat) {
    DigitValue(c).Some? && DigitValue(c).value < radix
  }

  predicate AllDigits(t: Text, radix: nat) {
    forall i :: 0 <= i < |t| ==> IsDigit(t[i], radix)
  }

  /** The accumulator of `from_str_radix` after the digits `t`; gone after a bad digit or an overflow. */
  function Accumulate(t: Text, radix: nat): Option<nat> {
    if t == [] then Some(0)
    else
      var last := t[|t| - 1];
      match Accumulate(t[..|t| - 1], radix)
      case None => None
      case Some(acc) =>
        if !IsDigit(last, radix) then None
        else
          var next := acc * radix + DigitValue(last).value;
          if next < USIZE_LIMIT then Some(next) else None
  }

  /** `usize::from_str_radix`: an optional `+`, at least one digit, no overflow. */
  function ParseUsize(t: Text, radix: nat): Option<nat> {
    if t == [] then None
    else if t[0] == '+' as nat then (if |t| == 1 then None else Accumulate(t[1..], radix))
    else Accumulate(t, radix)
  }

  // ----- what the parser means -----

  /** Positional value, without any bound. */
  function ValueOf(t: Text, radix: nat): nat
    requires AllDigits(t, radix)
  {
    if t == [] then 0
    else ValueOf(t[..|t| - 1], radix) * radix + DigitValue(t[|t| - 1]).value
  }

  lemma ShiftGrows(v: nat, radix: nat)
    requires 2 <= radix
    ensures v <= v * radix
  {
  }

  /** The checked accumulator finds the positional value exactly when it fits a `usize`. */
  lemma {:induction false} AccumulateIsValue(t: Text, radix: nat)
    requires 2 <= radix
    ensures Accumulate(t, radix) ==
            if AllDigits(t, radix) && ValueOf(t, radix) < USIZE_LIMIT then Some(ValueOf(t, radix)) else None
  {
    if t != [] {
      var init, last := t[..|t| - 1], t[|t| - 1];
      AccumulateIsValue(init, radix);
      assert AllDigits(t, radix) <==> AllDigits(init, radix) && IsDigit(last, radix) by {
        assert t == init + [last];
      }
      if AllDigits(init, radix) && IsDigit(last, radix) {
        ShiftGrows(ValueOf(init, radix), radix);
      }
    }
  }

  /** Which texts are a `usize`, and which one: every text is covered. */
  lemma ParseUsizeExact(t: Text, radix: nat, n: nat)
    requires 2 <= radix <= 36
    ensures ParseUsize(t, radix) == Some(n) <==>
            var digits := if t != [] && t[0] == '+' as nat then t[1..] else t;
            digits != [] && AllDigits(digits, radix) && ValueOf(digits, radix) == n && n < USIZE_LIMIT
  {
    var digits := if t != [] && t[0] == '+' as nat then t[1..] else t;
    AccumulateIsValue(digits, radix);
  }

  // ----- printing -----

  function DigitByte(d: nat): byte
    requires d < 16
  {
    if d < 10 then 0x30 + d else 0x61 + (d - 10)
  }

  /** Canonical digits of `n`, most significant first. */
  function Digits(n: nat, radix: nat): (r: Bytes)
    requires 2 <= radix <= 16
    ensures r != [] && forall i :: 0 <= i < |r| ==> r[i] < 0x80 && IsDigit(r[i], radix)
  {
    if n < radix then [DigitByte(n)] else Digits(n / radix, radix) + [DigitByte(n % radix)]
  }

  function Zeros(k: nat): (r: Bytes)
    ensures |r| == k && forall i :: 0 <= i < k ==> r[i] == 0x30
  {
    seq(k, _ => 0x30)
  }

  lemma {:induction false} ValueOfZeros(k: nat, radix: nat)
    requires 2 <= radix
    ensures AllDigits(Zeros(k), radix) && ValueOf(Zeros(k), radix) == 0
  {
    if k > 0 {
      ValueOfZeros(k - 1, radix);
      assert Zeros(k)[..k - 1] == Zeros(k - 1);
      assert 0 * radix == 0;
    }
  }

  lemma ValueOfSnoc(init: Text, d: nat, radix: nat)
    requires 2 <= radix <= 16 && d < radix
    requires AllDigits(init, radix)
    ensures var t := init + [DigitByte(d) as nat];
            AllDigits(t, radix) && ValueOf(t, radix) == ValueOf(init, radix) * radix + d
  {
    assert (init + [DigitByte(d) as nat])[..|init|] == init;
  }

  lemma DivModRebuilds(n: nat, radix: nat)
    requires 2 <= radix <= n
    ensures n / radix < n && n % radix < radix
    ensures n / radix * radix + n % radix == n
  {
  }

  lemma {:induction false} ValueOfDigits(k: nat, n: nat, radix: nat)
    requires 2 <= radix <= 16
    ensures AllDigits(Zeros(k) + Digits(n, radix), radix)
    ensures ValueOf(Zeros(k) + Digits(n, radix), radix) == n
    decreases n
  {
    if n < radix {
      ValueOfZeros(k, radix);
      assert Digits(n, radix) == [DigitByte(n)];
      ValueOfSnoc(Zeros(k), n, radix);
      assert 0 * radix == 0;
    } else {
      DivModRebuilds(n, radix);
      var q, d := n / radix, n % radix;
      var init := Zeros(k) + Digits(q, radix);
      ValueOfDigits(k, q, radix);
      ValueOfSnoc(init, d, radix);
      assert Zeros(k) + Digits(n, radix) == init + [DigitByte(d)] by {
        assert Digits(n, radix) == Digits(q, radix) + [DigitByte(d)];
      }
    }
  }

  /** Reading back a printed number, leading zeros allowed: exact below 2^64, refused from there on. */
  lemma ParsePrinted(k: nat, n: nat, radix: nat)
    requires 2 <= radix <= 16
    ensures ParseUsize(Zeros(k) + Digits(n, radix), radix) == if n < USIZE_LIMIT then Some(n) else None
  {
    var t := Zeros(k) + Digits(n, radix);
    ValueOfDigits(k, n, radix);
    AccumulateIsValue(t, radix);
    assert IsDigit(t[0], radix);
  }

  // ----- text helpers -----

  ghost predicate Ascii(s: Bytes) {
    forall i :: 0 <= i < |s| ==> s[i] < 0x80
  }

  lemma {:induction false} DecodeAsciiPrefix(a: Bytes, b: Bytes)
    requires Ascii(a)
    ensures DecodeUtf8(a + b) == match DecodeUtf8(b) case None => None case Some(t) => Some(a + t)
  {
    if a == [] {
      assert a + b == b;
      if DecodeUtf8(b).Some? { assert a + DecodeUtf8(b).value == DecodeUtf8(b).value; }
    } else {
      assert (a + b)[1..] == a[1..] + b;
      DecodeAsciiPrefix(a[1..], b);
      if DecodeUtf8(b).Some? {
        var t := DecodeUtf8(b).value;
        assert [a[0]] + (a[1..] + t) == a + t;
      }
    }
  }

  lemma DecodeAscii(a: Bytes)
    requires Ascii(a)
    ensures DecodeUtf8(a) == Some(a)
  {
    DecodeAsciiPrefix(a, []);
    assert a + [] == a;
  }

  /** Text without white space at either end is left alone. */
  lemma TrimNothing(t: Text)
    requires t != [] ==> !IsWhitespace(t[0]) && !IsWhitespace(t[|t| - 1])
    ensures Trim(t) == t
  {
  }

  /** The text in front of the first separator, and what is behind it. */
  lemma {:induction false} BeforeFirstIs(sep: nat, t: Text) returns (tail: Text)
    ensures sep !in BeforeFirst(sep, t) && t == BeforeFirst(sep, t) + tail && (tail != [] ==> tail[0] == sep)
  {
    if t == [] || t[0] == sep {
      tail := t;
      assert [] + t == t;
    } else {
      tail := BeforeFirstIs(sep, t[1..]);
      assert t == [t[0]] + t[1..];
    }
  }

  lemma {:induction false} BeforeFirstSplits(sep: nat, head: Text, tail: Text)
    requires sep !in head
    requires tail != [] ==> tail[0] == sep
    ensures BeforeFirst(sep, head + tail) == head
  {
    if head == [] {
      assert head + tail == tail;
    } else {
      assert (head + tail)[1..] == head[1..] + tail;
      BeforeFirstSplits(sep, head[1..], tail);
    }
  }
}
