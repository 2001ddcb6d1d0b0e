/**
 * The server name in a TLS ClientHello: the walk over the record with explicit offsets, the grammar
 * it follows (section 4.1.2 of RFC 8446, section 3 of RFC 6066), and the proof that they agree.
 */
module Sni {
  import opened Common

  datatype TlsRecordType = ChangeCipherSpec | Alert | Handshake | ApplicationData {
    function AsU8(): byte {
      match this
      case ChangeCipherSpec => 20
      case Alert => 21
      case Handshake => 22
      case ApplicationData => 23
    }
  }

  function FromU8(b: byte): (r: Option<TlsRecordType>)
    ensures r.Some? ==> r.value.AsU8() == b
    ensures r.None? ==> forall t: TlsRecordType :: t.AsU8() != b
  {
    if b == 20 then Some(ChangeCipherSpec)
    else if b == 21 then Some(Alert)
    else if b == 22 then Some(Handshake)
    else if b == 23 then Some(ApplicationData)
    else None
  }

  /** A two-byte length, most significant byte first. */
  function Be16(hi: byte, lo: byte): (n: nat)
    ensures n < 0x1_0000
  {
    (hi as int) * 0x100 + lo as int
  }

  function U8(b: byte): (n: nat)
    ensures n < 0x100
  {
    b
  }

  // ----- the grammar as a parser over what is left -----

  /** A vector with a one-byte length: what follows it. */
  function SkipVec8(s: Bytes): Option<Bytes> {
    if |s| < 1 || |s| < 1 + U8(s[0]) then None else Some(s[1 + U8(s[0])..])
  }

  /** A vector with a two-byte length: its contents and what follows it. */
  function TakeVec16(s: Bytes): Option<(Bytes, Bytes)> {
    if |s| < 2 || |s| < 2 + Be16(s[0], s[1]) then None
    else var n := Be16(s[0], s[1]); Some((s[2..2 + n], s[2 + n..]))
  }

  /** The first host name in a server name list. */
  function FindHost(list: Bytes): Option<Bytes> {
    if |list| < 3 then None
    else
      var n := Be16(list[1], list[2]);
      if 3 + n > |list| then None
      else if list[0] == 0 then Some(list[3..3 + n])
      else FindHost(list[3 + n..])
  }

  /** The body of a server name extension. */
  function SniName(body: Bytes): Option<Bytes> {
    match TakeVec16(body)
    case None => None
    case Some((list, _)) => FindHost(list)
  }

  /** The host name in the first server name extension; extensions behind it are not looked at. */
  function FindSni(exts: Bytes): Option<Bytes> {
    if |exts| < 4 then None
    else
      var n := Be16(exts[2], exts[3]);
      if 4 + n > |exts| then None
      else if Be16(exts[0], exts[1]) == 0 then
        SniName(exts[4..4 + n])
      else FindSni(exts[4 + n..])
  }

  /** Compression methods, extensions. */
  function ParseTail(s: Bytes): Option<Bytes> {
    match SkipVec8(s)
    case None => None
    case Some(afterCompression) =>
      match TakeVec16(afterCompression)
      case None => None
      case Some((exts, _)) => FindSni(exts)
  }

  /** Session id, cipher suites, and the rest. */
  function ParseVectors(s: Bytes): Option<Bytes> {
    match SkipVec8(s)
    case None => None
    case Some(afterSession) =>
      match TakeVec16(afterSession)
      case None => None
      case Some((_, afterCiphers)) => ParseTail(afterCiphers)
  }

  /** Version and random are 34 bytes. */
  function ParseBody(s: Bytes): Option<Bytes> {
    if |s| < 34 then None else ParseVectors(s[34..])
  }

  function ParseHello(d: Bytes): Option<Bytes> {
    if |d| < 4 || d[0] != 1 then None else ParseBody(d[4..])
  }

  /** The record header is stripped when the first byte looks like one. */
  function HandshakePayload(d: Bytes): Bytes {
    if |d| >= 6 && FromU8(d[0]).Some? then d[5..] else d
  }

  function SniOf(data: Bytes, recordType: TlsRecordType): Option<Bytes> {
    if recordType != Handshake then None else ParseHello(HandshakePayload(data))
  }

  // ----- the walk -----

  lemma SliceOfSlice(d: Bytes, pos: nat, end: nat, a: nat, b: nat)
    requires a <= b && pos + b <= end <= |d|
    ensures d[pos..end][a..b] == d[pos + a..pos + b]
    ensures d[pos..end][b..] == d[pos + b..end]
  {
    var x, y := d[pos..end][a..b], d[pos + a..pos + b];
    assert |x| == |y| && forall i :: 0 <= i < |x| ==> x[i] == d[pos..end][a + i] == y[i];
  }

  /** One name, in offsets. */
  lemma NameAt(d: Bytes, pos: nat, end: nat)
    requires pos + 3 <= end <= |d|
    ensures var next := pos + 3 + Be16(d[pos + 1], d[pos + 2]);
            FindHost(d[pos..end]) ==
            if next > end then None
            else if d[pos] == 0 then Some(d[pos + 3..next])
            else FindHost(d[next..end])
  {
    var n := Be16(d[pos + 1], d[pos + 2]);
    if pos + 3 + n <= end {
      SliceOfSlice(d, pos, end, 3, 3 + n);
    }
  }

  /** Walk the server name list in `d[pos..end]`. */
  method WalkNames(d: Bytes, pos: nat, end: nat) returns (r: Option<Bytes>)
    requires pos <= end <= |d|
    ensures r == FindHost(d[pos..end])
  {
    var listPos := pos;
    while listPos + 3 <= end
      invariant pos <= listPos <= end
      invariant FindHost(d[pos..end]) == FindHost(d[listPos..end])
    {
      var nameType := d[listPos];
      var nameLen := Be16(d[listPos + 1], d[listPos + 2]);
      NameAt(d, listPos, end);
      listPos := listPos + 3;
      if listPos + nameLen > end {
        return None;
      }
      if nameType == 0 {
        return Some(d[listPos..listPos + nameLen]);
      }
      listPos := listPos + nameLen;
    }
    return None;
  }

  /** One extension, in offsets. */
  lemma ExtensionAt(d: Bytes, pos: nat, end: nat)
    requires pos + 4 <= end <= |d|
    ensures var kind, next := Be16(d[pos], d[pos + 1]), pos + 4 + Be16(d[pos + 2], d[pos + 3]);
            FindSni(d[pos..end]) ==
            if next > end then None
            else if kind == 0 then SniName(d[pos + 4..next])
            else FindSni(d[next..end])
  {
    var exts, n := d[pos..end], Be16(d[pos + 2], d[pos + 3]);
    if pos + 4 + n <= end {
      SliceOfSlice(d, pos, end, 4, 4 + n);
    }
  }

  lemma Vec16At(d: Bytes, pos: nat, end: nat)
    requires pos <= end <= |d|
    ensures TakeVec16(d[pos..end]) ==
            if end < pos + 2 || end < pos + 2 + Be16(d[pos], d[pos + 1]) then None
            else var n := Be16(d[pos], d[pos + 1]); Some((d[pos + 2..pos + 2 + n], d[pos + 2 + n..end]))
  {
    if pos + 2 <= end && pos + 2 + Be16(d[pos], d[pos + 1]) <= end {
      SliceOfSlice(d, pos, end, 2, 2 + Be16(d[pos], d[pos + 1]));
    }
  }

  lemma Vec8At(d: Bytes, pos: nat)
    requires pos <= |d|
    ensures SkipVec8(d[pos..]) ==
            if |d| < pos + 1 || |d| < pos + 1 + U8(d[pos]) then None else Some(d[pos + 1 + U8(d[pos])..])
  {
    if pos + 1 <= |d| && pos + 1 + U8(d[pos]) <= |d| {
      assert d[pos..][1 + U8(d[pos])..] == d[pos + 1 + U8(d[pos])..];
    }
  }

  /** `FindSni` in offsets. */
  ghost function SniFrom(d: Bytes, pos: nat, end: nat): Option<Bytes>
    requires pos <= end <= |d|
    decreases end - pos
  {
    if pos + 4 > end then None
    else
      var next := pos + 4 + Be16(d[pos + 2], d[pos + 3]);
      if next > end then None
      else if Be16(d[pos], d[pos + 1]) == 0 then SniName(d[pos + 4..next])
      else SniFrom(d, next, end)
  }

  lemma {:induction false} SniFromIsFindSni(d: Bytes, pos: nat, end: nat)
    requires pos <= end <= |d|
    ensures SniFrom(d, pos, end) == FindSni(d[pos..end])
    decreases end - pos
  {
    if pos + 4 <= end {
      ExtensionAt(d, pos, end);
      var next := pos + 4 + Be16(d[pos + 2], d[pos + 3]);
      if next <= end {
        SniFromIsFindSni(d, next, end);
      }
    }
  }

  /** Walk the extensions in `d[start..end]`. */
  method WalkExtensions(d: Bytes, start: nat, end: nat) returns (r: Option<Bytes>)
    requires start <= end <= |d|
    ensures r == FindSni(d[start..end])
  {
    SniFromIsFindSni(d, start, end);
    var pos := start;
    while pos + 4 <= end
      invariant start <= pos <= end
      invariant SniFrom(d, start, end) == SniFrom(d, pos, end)
    {
      var extType := Be16(d[pos], d[pos + 1]);
      var extDataLen := Be16(d[pos + 2], d[pos + 3]);
      pos := pos + 4;
      if pos + extDataLen > end {
        return None;
      }
      if extType == 0 {
        r := WalkServerName(d, pos, extDataLen);
        return;
      }
      pos := pos + extDataLen;
    }
    return None;
  }

  /** Walk the body of a server name extension. */
  method WalkServerName(d: Bytes, pos: nat, extDataLen: nat) returns (r: Option<Bytes>)
    requires pos + extDataLen <= |d|
    ensures r == SniName(d[pos..pos + extDataLen])
  {
    Vec16At(d, pos, pos + extDataLen);
    if extDataLen < 2 {
      return None;
    }
    var listLen := Be16(d[pos], d[pos + 1]);
    var listPos := pos + 2;
    var listEnd := listPos + listLen;
    if listEnd > pos + extDataLen {
      return None;
    }
    r := WalkNames(d, listPos, listEnd);
  }

  /** The offset walk computes what the grammar says, on all byte strings, with every index in bounds. */
  method ExtractSni(data: Bytes, recordType: TlsRecordType) returns (r: Option<Bytes>)
    ensures r == SniOf(data, recordType)
  {
    if recordType != Handshake {
      return None;
    }
    var d := HandshakePayload(data);
    if |d| < 4 {
      return None;
    }
    if d[0] != 1 {
      return None;
    }
    var pos := 4;
    if |d| < pos + 2 + 32 {
      return None;
    }
    pos := pos + 2 + 32;
    assert d[4..][34..] == d[pos..];
    r := WalkBody(d, pos);
  }

  /** The first two vectors, in offsets. */
  lemma VectorsAt(d: Bytes, pos: nat, afterSession: nat)
    requires pos < |d| && afterSession == pos + 1 + U8(d[pos])
    ensures ParseVectors(d[pos..]) ==
            if |d| < afterSession + 2 then None
            else
              var afterCiphers := afterSession + 2 + Be16(d[afterSession], d[afterSession + 1]);
              if |d| < afterCiphers then None else ParseTail(d[afterCiphers..])
  {
    Vec8At(d, pos);
    if afterSession <= |d| {
      Vec16At(d, afterSession, |d|);
      assert d[afterSession..|d|] == d[afterSession..];
      if afterSession + 2 <= |d| {
        var afterCiphers := afterSession + 2 + Be16(d[afterSession], d[afterSession + 1]);
        if afterCiphers <= |d| {
          assert d[afterCiphers..|d|] == d[afterCiphers..];
        }
      }
    }
  }

  /** Session id and cipher suites. */
  method WalkBody(d: Bytes, start: nat) returns (r: Option<Bytes>)
    requires start <= |d|
    ensures r == ParseVectors(d[start..])
  {
    hide Be16, U8, TakeVec16, ParseTail;
    var pos := start;
    if |d| < pos + 1 {
      return None;
    }
    var sessionIdLen := U8(d[pos]);
    VectorsAt(d, pos, pos + 1 + sessionIdLen);
    pos := pos + 1;
    if |d| < pos + sessionIdLen {
      return None;
    }
    pos := pos + sessionIdLen;
    if |d| < pos + 2 {
      return None;
    }
    var cipherSuitesLen := Be16(d[pos], d[pos + 1]);
    pos := pos + 2;
    if |d| < pos + cipherSuitesLen {
      return None;
    }
    pos := pos + cipherSuitesLen;
    r := WalkTail(d, pos);
  }

  /** Compression methods and extensions. */
  method WalkTail(d: Bytes, start: nat) returns (r: Option<Bytes>)
    requires start <= |d|
    ensures r == ParseTail(d[start..])
  {
    hide Be16, U8, SkipVec8, TakeVec16, FindSni;
    var pos := start;
    Vec8At(d, pos);
    if |d| < pos + 1 {
      return None;
    }
    var compressionLen := U8(d[pos]);
    pos := pos + 1;
    if |d| < pos + compressionLen {
      return None;
    }
    pos := pos + compressionLen;
    Vec16At(d, pos, |d|);
    assert d[pos..|d|] == d[pos..];
    if |d| < pos + 2 {
      return None;
    }
    var extensionsLen := Be16(d[pos], d[pos + 1]);
    pos := pos + 2;
    var extensionsEnd := pos + extensionsLen;
    if |d| < extensionsEnd {
      return None;
    }
    r := WalkExtensions(d, pos, extensionsEnd);
  }

  // ----- the grammar as a printer -----

  datatype Extension = Extension(kind: nat, data: Bytes)

  datatype Name = Name(kind: byte, data: Bytes)

  /** A ClientHello around its first host name; whatever is never looked at is plain bytes. */
  datatype Hello = Hello(
    length: Bytes,
    prelude: Bytes,
    session: Bytes,
    ciphers: Bytes,
    compression: Bytes,
    extensions: seq<Extension>,
    names: seq<Name>,
    host: Bytes,
    moreNames: Bytes,
    moreSni: Bytes,
    moreExtensions: Bytes,
    trailing: Bytes)

  function Enc16(n: nat): Bytes
    requires n < 0x1_0000
  {
    [n / 0x100, n % 0x100]
  }

  function EncodeNames(names: seq<Name>): Bytes
    requires forall i :: 0 <= i < |names| ==> |names[i].data| < 0x1_0000
  {
    if names == [] then []
    else [names[0].kind] + Enc16(|names[0].data|) + names[0].data + EncodeNames(names[1..])
  }

  function EncodeExtensions(exts: seq<Extension>): Bytes
    requires forall i :: 0 <= i < |exts| ==> exts[i].kind < 0x1_0000 && |exts[i].data| < 0x1_0000
  {
    if exts == [] then []
    else Enc16(exts[0].kind) + Enc16(|exts[0].data|) + exts[0].data + EncodeExtensions(exts[1..])
  }

  /** Names in front of the host name have another type. */
  predicate OtherNames(names: seq<Name>) {
    forall i :: 0 <= i < |names| ==> names[i].kind != 0 && |names[i].data| < 0x1_0000
  }

  /** Extensions in front of the server name extension have another type. */
  predicate OtherExtensions(exts: seq<Extension>) {
    forall i :: 0 <= i < |exts| ==> 0 < exts[i].kind < 0x1_0000 && |exts[i].data| < 0x1_0000
  }

  function NameList(h: Hello): Bytes
    requires OtherNames(h.names) && |h.host| < 0x1_0000
  {
    EncodeNames(h.names) + ([0] + Enc16(|h.host|) + h.host) + h.moreNames
  }

  function SniBody(h: Hello): Bytes
    requires OtherNames(h.names) && |h.host| < 0x1_0000 && |NameList(h)| < 0x1_0000
  {
    Enc16(|NameList(h)|) + NameList(h) + h.moreSni
  }

  function ExtensionBlock(h: Hello): Bytes
    requires OtherNames(h.names) && |h.host| < 0x1_0000 && |NameList(h)| < 0x1_0000
    requires |SniBody(h)| < 0x1_0000 && OtherExtensions(h.extensions)
  {
    EncodeExtensions(h.extensions) + (Enc16(0) + Enc16(|SniBody(h)|) + SniBody(h)) + h.moreExtensions
  }

  /** Every part fits its length field. */
  predicate Fits(h: Hello) {
    && |h.length| == 3 && |h.prelude| == 34
    && |h.session| < 0x100 && |h.ciphers| < 0x1_0000 && |h.compression| < 0x100
    && OtherNames(h.names) && OtherExtensions(h.extensions)
    && |h.host| < 0x1_0000 && |NameList(h)| < 0x1_0000 && |SniBody(h)| < 0x1_0000
    && |ExtensionBlock(h)| < 0x1_0000
  }

  function Vec8(data: Bytes): Bytes
    requires |data| < 0x100
  {
    [|data|] + data
  }

  function Vec16(data: Bytes): Bytes
    requires |data| < 0x1_0000
  {
    Enc16(|data|) + data
  }

  function EncodeHello(h: Hello): Bytes
    requires Fits(h)
  {
    [1] + h.length +
    (h.prelude + (Vec8(h.session) + (Vec16(h.ciphers) + (Vec8(h.compression) + (Vec16(ExtensionBlock(h)) + h.trailing)))))
  }

  // ----- printing, then parsing -----

  lemma Be16OfEnc(n: nat)
    requires n < 0x1_0000
    ensures Be16(Enc16(n)[0], Enc16(n)[1]) == n
  {
  }

  lemma SkipPrinted8(data: Bytes, rest: Bytes)
    requires |data| < 0x100
    ensures SkipVec8(Vec8(data) + rest) == Some(rest)
  {
    var s := Vec8(data) + rest;
    assert s[0] == |data|;
    assert s[1 + |data|..] == rest;
  }

  lemma TakePrinted16(data: Bytes, rest: Bytes)
    requires |data| < 0x1_0000
    ensures TakeVec16(Vec16(data) + rest) == Some((data, rest))
  {
    var s := Vec16(data) + rest;
    Be16OfEnc(|data|);
    assert s[0] == Enc16(|data|)[0] && s[1] == Enc16(|data|)[1];
    assert s[2..2 + |data|] == data && s[2 + |data|..] == rest;
  }

  lemma PrintedName(kind: byte, data: Bytes, rest: Bytes)
    requires |data| < 0x1_0000
    ensures FindHost([kind] + Enc16(|data|) + data + rest) == if kind == 0 then Some(data) else FindHost(rest)
  {
    var s := [kind] + Enc16(|data|) + data + rest;
    Be16OfEnc(|data|);
    assert s[1] == Enc16(|data|)[0] && s[2] == Enc16(|data|)[1];
    assert s[3..3 + |data|] == data && s[3 + |data|..] == rest;
  }

  lemma {:induction false} PrintedNames(names: seq<Name>, rest: Bytes)
    requires OtherNames(names)
    ensures FindHost(EncodeNames(names) + rest) == FindHost(rest)
  {
    if names == [] {
      assert EncodeNames(names) + rest == rest;
    } else {
      var first, more := names[0], EncodeNames(names[1..]);
      assert EncodeNames(names) + rest == [first.kind] + Enc16(|first.data|) + first.data + (more + rest);
      PrintedName(first.kind, first.data, more + rest);
      PrintedNames(names[1..], rest);
    }
  }

  lemma PrintedExtension(kind: nat, data: Bytes, rest: Bytes)
    requires kind < 0x1_0000 && |data| < 0x1_0000
    ensures FindSni(Enc16(kind) + Enc16(|data|) + data + rest) ==
            if kind != 0 then FindSni(rest)
            else SniName(data)
  {
    Be16OfEnc(kind);
    Be16OfEnc(|data|);
    FieldsOfExtension(Enc16(kind), Enc16(|data|), data, rest);
    hide Enc16, Be16, SniName;
  }

  lemma FieldsOfExtension(kind: Bytes, length: Bytes, data: Bytes, rest: Bytes)
    requires |kind| == 2 && |length| == 2
    ensures var s := kind + length + data + rest;
            && s[0] == kind[0] && s[1] == kind[1] && s[2] == length[0] && s[3] == length[1]
            && s[4..4 + |data|] == data && s[4 + |data|..] == rest
  {
  }

  lemma {:induction false} PrintedExtensions(exts: seq<Extension>, rest: Bytes)
    requires OtherExtensions(exts)
    ensures FindSni(EncodeExtensions(exts) + rest) == FindSni(rest)
  {
    if exts == [] {
      assert EncodeExtensions(exts) + rest == rest;
    } else {
      var first, more := exts[0], EncodeExtensions(exts[1..]);
      assert EncodeExtensions(exts) + rest == Enc16(first.kind) + Enc16(|first.data|) + first.data + (more + rest);
      PrintedExtension(first.kind, first.data, more + rest);
      PrintedExtensions(exts[1..], rest);
    }
  }

  lemma PrintedBlock(h: Hello)
    requires Fits(h)
    ensures FindSni(ExtensionBlock(h)) == Some(h.host)
  {
    hide Enc16, FindSni, SniName, EncodeExtensions, NameList, OtherNames;
    var body := SniBody(h);
    PrintedBody(h);
    var sni := Enc16(0) + Enc16(|body|) + body;
    assert ExtensionBlock(h) == EncodeExtensions(h.extensions) + (sni + h.moreExtensions);
    PrintedExtensions(h.extensions, sni + h.moreExtensions);
    PrintedExtension(0, body, h.moreExtensions);
  }

  lemma PrintedBody(h: Hello)
    requires OtherNames(h.names) && |h.host| < 0x1_0000 && |NameList(h)| < 0x1_0000
    ensures SniName(SniBody(h)) == Some(h.host)
  {
    hide Enc16, FindHost, EncodeNames, TakeVec16;
    var entry := [0 as byte] + Enc16(|h.host|) + h.host;
    assert NameList(h) == EncodeNames(h.names) + (entry + h.moreNames);
    PrintedNames(h.names, entry + h.moreNames);
    PrintedName(0, h.host, h.moreNames);
    TakePrinted16(NameList(h), h.moreSni);
  }

  lemma PrintedTail(compression: Bytes, exts: Bytes, trailing: Bytes)
    requires |compression| < 0x100 && |exts| < 0x1_0000
    ensures ParseTail(Vec8(compression) + (Vec16(exts) + trailing)) == FindSni(exts)
  {
    SkipPrinted8(compression, Vec16(exts) + trailing);
    TakePrinted16(exts, trailing);
  }

  lemma PrintedVectors(session: Bytes, ciphers: Bytes, rest: Bytes)
    requires |session| < 0x100 && |ciphers| < 0x1_0000
    ensures ParseVectors(Vec8(session) + (Vec16(ciphers) + rest)) == ParseTail(rest)
  {
    SkipPrinted8(session, Vec16(ciphers) + rest);
    TakePrinted16(ciphers, rest);
  }

  lemma PrintedFrame(length: Bytes, prelude: Bytes, rest: Bytes)
    requires |length| == 3 && |prelude| == 34
    ensures ParseHello([1] + length + (prelude + rest)) == ParseVectors(rest)
  {
    var d := [1] + length + (prelude + rest);
    assert d[4..] == prelude + rest;
    assert (prelude + rest)[34..] == rest;
  }

  /** From every built ClientHello the host name comes back. */
  lemma PrintedHello(h: Hello)
    requires Fits(h)
    ensures ParseHello(EncodeHello(h)) == Some(h.host)
  {
    var tail := Vec8(h.compression) + (Vec16(ExtensionBlock(h)) + h.trailing);
    PrintedFrame(h.length, h.prelude, Vec8(h.session) + (Vec16(h.ciphers) + tail));
    PrintedVectors(h.session, h.ciphers, tail);
    PrintedTail(h.compression, ExtensionBlock(h), h.trailing);
    PrintedBlock(h);
  }

  // ----- parsing, then printing -----

  lemma EncOfBe16(hi: byte, lo: byte)
    ensures Enc16(Be16(hi, lo)) == [hi, lo]
  {
  }

  lemma WasVec8(s: Bytes) returns (data: Bytes)
    requires SkipVec8(s).Some?
    ensures |data| < 0x100 && s == Vec8(data) + SkipVec8(s).value
  {
    data := s[1..1 + U8(s[0])];
  }

  lemma WasVec16(s: Bytes)
    requires TakeVec16(s).Some?
    ensures var (data, rest) := TakeVec16(s).value;
            |data| < 0x1_0000 && s == Vec16(data) + rest
  {
    EncOfBe16(s[0], s[1]);
  }

  lemma WasName(list: Bytes) returns (data: Bytes, rest: Bytes)
    requires |list| >= 3 && 3 + Be16(list[1], list[2]) <= |list|
    ensures |data| < 0x1_0000 && list == [list[0]] + Enc16(|data|) + data + rest
    ensures |rest| < |list|
    ensures data == list[3..3 + Be16(list[1], list[2])] && rest == list[3 + Be16(list[1], list[2])..]
  {
    var n := Be16(list[1], list[2]);
    data, rest := list[3..3 + n], list[3 + n..];
    EncOfBe16(list[1], list[2]);
    assert list == [list[0]] + [list[1], list[2]] + data + rest;
  }

  lemma {:induction false} WasNames(list: Bytes, host: Bytes) returns (names: seq<Name>, more: Bytes)
    requires FindHost(list) == Some(host)
    ensures OtherNames(names) && |host| < 0x1_0000
    ensures list == EncodeNames(names) + ([0] + Enc16(|host|) + host) + more
    decreases |list|
  {
    var data, rest := WasName(list);
    if list[0] == 0 {
      names, more := [], rest;
      assert list == [] + ([0] + Enc16(|host|) + host) + more;
    } else {
      var others;
      others, more := WasNames(rest, host);
      names := [Name(list[0], data)] + others;
      AddName(list[0], data, others, [0] + Enc16(|host|) + host, more);
    }
  }

  lemma AddName(kind: byte, data: Bytes, others: seq<Name>, entry: Bytes, more: Bytes)
    requires kind != 0 && |data| < 0x1_0000 && OtherNames(others)
    ensures var names := [Name(kind, data)] + others;
            && OtherNames(names)
            && [kind] + Enc16(|data|) + data + (EncodeNames(others) + entry + more) == EncodeNames(names) + entry + more
  {
    var names := [Name(kind, data)] + others;
    assert names[1..] == others;
    var head := [kind] + Enc16(|data|) + data;
    assert EncodeNames(names) == head + EncodeNames(others);
  }

  lemma WasExtension(exts: Bytes) returns (data: Bytes, rest: Bytes)
    requires |exts| >= 4 && 4 + Be16(exts[2], exts[3]) <= |exts|
    ensures |data| < 0x1_0000 && exts == Enc16(Be16(exts[0], exts[1])) + Enc16(|data|) + data + rest
    ensures |rest| < |exts|
    ensures data == exts[4..4 + Be16(exts[2], exts[3])] && rest == exts[4 + Be16(exts[2], exts[3])..]
  {
    var n := Be16(exts[2], exts[3]);
    data, rest := exts[4..4 + n], exts[4 + n..];
    EncOfBe16(exts[0], exts[1]);
    EncOfBe16(exts[2], exts[3]);
    assert exts == [exts[0], exts[1]] + [exts[2], exts[3]] + data + rest;
  }

  lemma {:induction false} WasExtensions(exts: Bytes, host: Bytes) returns (others: seq<Extension>, body: Bytes, more: Bytes)
    requires FindSni(exts) == Some(host)
    ensures OtherExtensions(others) && |body| < 0x1_0000 && SniName(body) == Some(host)
    ensures exts == EncodeExtensions(others) + (Enc16(0) + Enc16(|body|) + body) + more
    decreases |exts|
  {
    hide Enc16, SniName;
    var kind := Be16(exts[0], exts[1]);
    var data, rest := WasExtension(exts);
    if kind == 0 {
      others, body, more := [], data, rest;
      assert [] + (Enc16(0) + Enc16(|body|) + body) == Enc16(0) + Enc16(|body|) + body;
    } else {
      var behind;
      behind, body, more := WasExtensions(rest, host);
      others := [Extension(kind, data)] + behind;
      assert others[1..] == behind;
      AddExtension(kind, data, behind, Enc16(0) + Enc16(|body|) + body, more);
    }
  }

  lemma AddExtension(kind: nat, data: Bytes, behind: seq<Extension>, sni: Bytes, more: Bytes)
    requires 0 < kind < 0x1_0000 && |data| < 0x1_0000 && OtherExtensions(behind)
    ensures var others := [Extension(kind, data)] + behind;
            && OtherExtensions(others)
            && Enc16(kind) + Enc16(|data|) + data + (EncodeExtensions(behind) + sni + more) == EncodeExtensions(others) + sni + more
  {
    var others := [Extension(kind, data)] + behind;
    assert others[1..] == behind;
    var head := Enc16(kind) + Enc16(|data|) + data;
    assert EncodeExtensions(others) == head + EncodeExtensions(behind);
  }

  /** Any block with a server name is one of the printed ones. */
  lemma WasBlock(exts: Bytes, host: Bytes) returns (h: Hello)
    requires |exts| < 0x1_0000 && FindSni(exts) == Some(host)
    ensures h.host == host && OtherNames(h.names) && OtherExtensions(h.extensions)
    ensures |h.host| < 0x1_0000 && |NameList(h)| < 0x1_0000 && |SniBody(h)| < 0x1_0000 && ExtensionBlock(h) == exts
  {
    var others, body, more := WasExtensions(exts, host);
    WasVec16(body);
    var (list, moreSni) := TakeVec16(body).value;
    var names, moreNames := WasNames(list, host);
    h := Hello([], [], [], [], [], others, names, host, moreNames, moreSni, more, []);
    assert NameList(h) == list;
    assert SniBody(h) == body;
  }

  lemma WasTail(s: Bytes, host: Bytes) returns (compression: Bytes, exts: Bytes, trailing: Bytes)
    requires ParseTail(s) == Some(host)
    ensures |compression| < 0x100 && |exts| < 0x1_0000 && FindSni(exts) == Some(host)
    ensures s == Vec8(compression) + (Vec16(exts) + trailing)
  {
    compression := WasVec8(s);
    var rest := SkipVec8(s).value;
    WasVec16(rest);
    exts, trailing := TakeVec16(rest).value.0, TakeVec16(rest).value.1;
  }

  lemma WasVectors(s: Bytes, host: Bytes) returns (session: Bytes, ciphers: Bytes, rest: Bytes)
    requires ParseVectors(s) == Some(host)
    ensures |session| < 0x100 && |ciphers| < 0x1_0000 && ParseTail(rest) == Some(host)
    ensures s == Vec8(session) + (Vec16(ciphers) + rest)
  {
    session := WasVec8(s);
    var behind := SkipVec8(s).value;
    WasVec16(behind);
    ciphers, rest := TakeVec16(behind).value.0, TakeVec16(behind).value.1;
  }

  lemma WasFrame(d: Bytes, host: Bytes) returns (length: Bytes, prelude: Bytes, rest: Bytes)
    requires ParseHello(d) == Some(host)
    ensures |length| == 3 && |prelude| == 34 && ParseVectors(rest) == Some(host)
    ensures d == [1] + length + (prelude + rest)
  {
    length, prelude, rest := d[1..4], d[4..38], d[4..][34..];
    assert d[4..] == prelude + rest;
    assert d == [d[0]] + d[1..4] + d[4..];
  }

  /** Every byte string a host name is found in is a printed ClientHello with that host name. */
  lemma HelloWasPrinted(d: Bytes, host: Bytes) returns (h: Hello)
    requires ParseHello(d) == Some(host)
    ensures Fits(h) && h.host == host && EncodeHello(h) == d
  {
    var length, prelude, vectors := WasFrame(d, host);
    var session, ciphers, tail := WasVectors(vectors, host);
    var compression, exts, trailing := WasTail(tail, host);
    var g := WasBlock(exts, host);
    h := g.(length := length, prelude := prelude, session := session, ciphers := ciphers, compression := compression, trailing := trailing);
    SameBlock(g, h);
  }

  lemma SameBlock(g: Hello, h: Hello)
    requires h.names == g.names && h.host == g.host && h.moreNames == g.moreNames && h.moreSni == g.moreSni
    requires h.extensions == g.extensions && h.moreExtensions == g.moreExtensions
    requires OtherNames(g.names) && OtherExtensions(g.extensions)
    requires |g.host| < 0x1_0000 && |NameList(g)| < 0x1_0000 && |SniBody(g)| < 0x1_0000
    ensures NameList(h) == NameList(g) && SniBody(h) == SniBody(g) && ExtensionBlock(h) == ExtensionBlock(g)
  {
  }

  /** A handshake record carries ClientHello `h`, with or without its record header. */
  ghost predicate Carries(data: Bytes, h: Hello) {
    Fits(h) && (data == EncodeHello(h) ||
                (|data| >= 6 && 20 <= data[0] <= 23 && data[5..] == EncodeHello(h)))
  }

  lemma EncodedStart(h: Hello)
    requires Fits(h)
    ensures |EncodeHello(h)| >= 38 && EncodeHello(h)[0] == 1
  {
  }

  lemma FoundInCarrier(data: Bytes, h: Hello)
    requires Carries(data, h)
    ensures HandshakePayload(data) == EncodeHello(h)
  {
    EncodedStart(h);
  }

  /**
   * Extraction is exact: a name is returned for exactly the records that carry a ClientHello with that
   * first host name, whatever stands in front of it and behind it.
   */
  lemma SniExactly(data: Bytes, host: Bytes)
    ensures SniOf(data, Handshake) == Some(host) <==> exists h :: Carries(data, h) && h.host == host
  {
    hide Fits, EncodeHello, ParseHello;
    if SniOf(data, Handshake) == Some(host) {
      var h := HelloWasPrinted(HandshakePayload(data), host);
      assert Carries(data, h);
    }
    if h :| Carries(data, h) && h.host == host {
      FoundInCarrier(data, h);
      PrintedHello(h);
    }
  }

  lemma PayloadOfMore(data: Bytes, more: Bytes)
    requires |HandshakePayload(data)| >= 6
    ensures HandshakePayload(data + more) == HandshakePayload(data) + more
  {
    assert |data| >= 6 ==> (data + more)[5..] == data[5..] + more;
  }

  /** A name that was found stays the same when more bytes arrive behind the record. */
  lemma SniStable(data: Bytes, recordType: TlsRecordType, more: Bytes)
    requires SniOf(data, recordType).Some?
    ensures SniOf(data + more, recordType) == SniOf(data, recordType)
  {
    hide ParseHello, EncodeHello, Fits;
    var h := HelloWasPrinted(HandshakePayload(data), SniOf(data, recordType).value);
    var g := h.(trailing := h.trailing + more);
    EncodedStart(h);
    SameBlock(h, g);
    Trailing(h, more);
    PrintedHello(g);
    PayloadOfMore(data, more);
  }

  lemma Trailing(h: Hello, more: Bytes)
    requires Fits(h) && Fits(h.(trailing := h.trailing + more))
    ensures EncodeHello(h.(trailing := h.trailing + more)) == EncodeHello(h) + more
  {
    var g := h.(trailing := h.trailing + more);
    SameBlock(h, g);
    var a, b := Vec8(h.session), Vec16(h.ciphers);
    var c, e := Vec8(h.compression), Vec16(ExtensionBlock(h));
    assert e + (h.trailing + more) == e + h.trailing + more;
    assert c + (e + h.trailing + more) == c + (e + h.trailing) + more;
    assert b + (c + (e + h.trailing) + more) == b + (c + (e + h.trailing)) + more;
    assert a + (b + (c + (e + h.trailing)) + more) == a + (b + (c + (e + h.trailing))) + more;
    var s := a + (b + (c + (e + h.trailing)));
    assert h.prelude + (s + more) == h.prelude + s + more;
    assert [1] + h.length + (h.prelude + s + more) == [1] + h.length + (h.prelude + s) + more;
  }
}
