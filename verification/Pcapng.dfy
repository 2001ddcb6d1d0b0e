/**
 * The capture file format: the three kinds of block the writer produces, and a reader that walks a
 * file by block lengths (sections 3.1 and 4.3 of draft-ietf-opsawg-pcapng), little endian.
 */
module Pcapng {
  import opened Common
  import opened Crlf
  import opened Numbers

  const U16: nat := 0x1_0000
  const U32: nat := 0x1_0000_0000
  const U64: nat := 0x1_0000_0000_0000_0000

  type u64 = n: nat | n < U64

  // ----- little-endian integers -----

  function Le16(n: nat): (r: Bytes)
    requires n < U16
    ensures |r| == 2
  {
    [n % 0x100, n / 0x100]
  }

  function Le32(n: nat): (r: Bytes)
    requires n < U32
    ensures |r| == 4
  {
    Le16(n % U16) + Le16(n / U16)
  }

  function Le64(n: nat): (r: Bytes)
    requires n < U64
    ensures |r| == 8
  {
    Le32(n % U32) + Le32(n / U32)
  }

  function Get16(s: Bytes, i: nat): nat
    requires i + 2 <= |s|
  {
    (s[i] as int) + (s[i + 1] as int) * 0x100
  }

  function Get32(s: Bytes, i: nat): (n: nat)
    requires i + 4 <= |s|
  {
    Get16(s, i) + Get16(s, i + 2) * U16
  }

  lemma Get16Of(n: nat)
    requires n < U16
    ensures Get16(Le16(n), 0) == n
  {
  }

  lemma Get32Of(n: nat)
    requires n < U32
    ensures Get32(Le32(n), 0) == n
  {
    Get16Of(n % U16);
    Get16Of(n / U16);
  }

  // ----- the blocks -----

  const SHB_TYPE: nat := 0x0A0D0D0A
  const IDB_TYPE: nat := 1
  const EPB_TYPE: nat := 6

  /** Zero bytes up to the next multiple of four. */
  function Pad(n: nat): nat {
    (4 - n % 4) % 4
  }

  function ZeroBytes(n: nat): (r: Bytes)
    ensures |r| == n
  {
    seq(n, _ => 0)
  }

  function Padded(data: Bytes): (r: Bytes)
    ensures |r| == |data| + Pad(|data|) && |r| % 4 == 0
  {
    data + ZeroBytes(Pad(|data|))
  }

  /** A block: its kind, its whole length in front and behind, cut to 32 bits. */
  function Framed(kind: nat, body: Bytes): (r: Bytes)
    requires kind < U32
    ensures |r| == |body| + 12
  {
    Le32(kind) + Le32((|body| + 12) % U32) + body + Le32((|body| + 12) % U32)
  }

  /** The bodies of the two header blocks. */
  function ShbBody(): (r: Bytes)
    ensures |r| == 16
  {
    Le32(0x1A2B3C4D) + Le16(1) + Le16(0) + Le64(U64 - 1)
  }

  function IdbBody(): (r: Bytes)
    ensures |r| == 8
  {
    Le16(147) + Le16(0) + Le32(0)
  }

  /** Section header: byte order magic, version 1.0, section length -1. */
  function Shb(): Bytes {
    Framed(SHB_TYPE, ShbBody())
  }

  /** Interface description: link type 147, no snap length. */
  function Idb(): Bytes {
    Framed(IDB_TYPE, IdbBody())
  }

  const CONN: Bytes := [0x20, 0x63, 0x6F, 0x6E, 0x6E, 0x3D]

  /** The comment that goes with an event: its direction and connection. */
  function Comment(direction: Bytes, connection: u64): Bytes {
    direction + CONN + Digits(connection, 10)
  }

  /** One captured packet. */
  datatype Event = Event(timestamp: u64, data: Bytes, comment: Bytes)

  function PacketFields(interfaceId: nat, timestamp: u64, length: nat): (r: Bytes)
    requires interfaceId < U32 && length < U32
    ensures |r| == 20
  {
    Le32(interfaceId) + Le32(timestamp / U32) + Le32(timestamp % U32) + Le32(length) + Le32(length)
  }

  function Options(comment: Bytes): (r: Bytes)
    ensures |r| == 8 + |Padded(comment)|
  {
    Le16(1) + Le16(|comment| % U16) + Padded(comment) + Le16(0) + Le16(0)
  }

  function EpbLength(e: Event): (n: nat)
    ensures n % 4 == 0
  {
    32 + |Padded(e.data)| + |Options(e.comment)|
  }

  function EpbBody(interfaceId: nat, e: Event): (r: Bytes)
    requires interfaceId < U32
    ensures |r| + 12 == EpbLength(e)
  {
    PacketFields(interfaceId, e.timestamp, |e.data| % U32) + Padded(e.data) + Options(e.comment)
  }

  /** Lengths are stored in 32 and 16 bits; longer ones are cut off, as the casts in the writer do. */
  function Epb(interfaceId: nat, e: Event): (r: Bytes)
    requires interfaceId < U32
    ensures |r| == EpbLength(e)
  {
    Framed(EPB_TYPE, EpbBody(interfaceId, e))
  }

  // ----- the writer -----

  class Writer {
    var bytes: Bytes

    constructor ()
      ensures bytes == []
    {
      bytes := [];
    }

    method WriteAll(more: Bytes)
      modifies this
      ensures bytes == old(bytes) + more
    {
      bytes := bytes + more;
    }
  }

  method WriteShb(w: Writer)
    modifies w
    ensures w.bytes == old(w.bytes) + Shb()
  {
    w.WriteAll(Le32(0x0A0D0D0A));
    w.WriteAll(Le32(28));
    w.WriteAll(Le32(0x1A2B3C4D));
    w.WriteAll(Le16(1));
    w.WriteAll(Le16(0));
    w.WriteAll(Le64(U64 - 1));
    w.WriteAll(Le32(28));
  }

  method WriteIdb(w: Writer)
    modifies w
    ensures w.bytes == old(w.bytes) + Idb()
  {
    w.WriteAll(Le32(1));
    w.WriteAll(Le32(20));
    w.WriteAll(Le16(147));
    w.WriteAll(Le16(0));
    w.WriteAll(Le32(0));
    w.WriteAll(Le32(20));
  }

  method WriteFields(w: Writer, interfaceId: nat, timestamp: u64, length: nat)
    requires interfaceId < U32 && length < U32
    modifies w
    ensures w.bytes == old(w.bytes) + PacketFields(interfaceId, timestamp, length)
  {
    w.WriteAll(Le32(interfaceId));
    w.WriteAll(Le32(timestamp / U32));
    w.WriteAll(Le32(timestamp % U32));
    w.WriteAll(Le32(length));
    w.WriteAll(Le32(length));
    FiveWrites(old(w.bytes), Le32(interfaceId), Le32(timestamp / U32), Le32(timestamp % U32), Le32(length), Le32(length));
  }

  lemma FiveWrites(start: Bytes, a: Bytes, b: Bytes, c: Bytes, d: Bytes, e: Bytes)
    ensures start + a + b + c + d + e == start + (a + b + c + d + e)
  {
  }

  method WritePadded(w: Writer, data: Bytes, pad: nat)
    requires pad == Pad(|data|)
    modifies w
    ensures w.bytes == old(w.bytes) + Padded(data)
  {
    w.WriteAll(data);
    if pad > 0 {
      w.WriteAll(ZeroBytes(pad));
    }
    assert old(w.bytes) + data + ZeroBytes(pad) == old(w.bytes) + Padded(data);
  }

  method WriteOptions(w: Writer, comment: Bytes, pad: nat)
    requires pad == Pad(|comment|)
    modifies w
    ensures w.bytes == old(w.bytes) + Options(comment)
  {
    w.WriteAll(Le16(1));
    w.WriteAll(Le16(|comment| % U16));
    WritePadded(w, comment, pad);
    w.WriteAll(Le16(0));
    w.WriteAll(Le16(0));
    FiveWrites(old(w.bytes), Le16(1), Le16(|comment| % U16), Padded(comment), Le16(0), Le16(0));
  }

  method WriteEpb(w: Writer, interfaceId: nat, timestamp: u64, data: Bytes, direction: Bytes, connection: u64)
    requires interfaceId < U32
    modifies w
    ensures w.bytes == old(w.bytes) + Epb(interfaceId, Event(timestamp, data, Comment(direction, connection)))
  {
    var pad := (4 - |data| % 4) % 4;
    var paddedDataLen := |data| + pad;
    var comment := Comment(direction, connection);
    var commentPad := (4 - |comment| % 4) % 4;
    var paddedCommentLen := |comment| + commentPad;
    var optionsLen := 4 + paddedCommentLen + 4;
    var totalLength := (32 + paddedDataLen + optionsLen) % U32;
    w.WriteAll(Le32(EPB_TYPE));
    w.WriteAll(Le32(totalLength));
    WriteFields(w, interfaceId, timestamp, |data| % U32);
    WritePadded(w, data, pad);
    WriteOptions(w, comment, commentPad);
    w.WriteAll(Le32(totalLength));
    ghost var e := Event(timestamp, data, comment);
    assert totalLength == EpbLength(e) % U32;
    SixWrites(old(w.bytes), Le32(EPB_TYPE), Le32(totalLength), PacketFields(interfaceId, timestamp, |data| % U32),
              Padded(data), Options(comment), Le32(totalLength));
  }

  lemma SixWrites(start: Bytes, a: Bytes, b: Bytes, c: Bytes, d: Bytes, e: Bytes, f: Bytes)
    ensures start + a + b + c + d + e + f == start + (a + b + (c + d + e) + f)
  {
    FiveWrites(start, a, b, c, d, e);
    assert a + b + (c + d + e) == a + b + c + d + e;
  }

  // ----- the reader -----

  datatype Block = Block(kind: nat, body: Bytes)

  /** A block whose two length fields agree, are a multiple of four, and stay inside the file. */
  predicate BlockAt(s: Bytes) {
    && |s| >= 12
    && var n := Get32(s, 4);
       n % 4 == 0 && 12 <= n <= |s| && Get32(s, n - 4) == n
  }

  function Before(first: Block, more: Option<seq<Block>>): Option<seq<Block>> {
    if more.Some? then Some([first] + more.value) else None
  }

  /** Walk a file by block lengths. */
  function ReadBlocks(s: Bytes): Option<seq<Block>>
    decreases |s|
  {
    if s == [] then Some([])
    else if !BlockAt(s) then None
    else
      var n := Get32(s, 4);
      Before(Block(Get32(s, 0), s[8..n - 4]), ReadBlocks(s[n..]))
  }

  /** The comment in front of a list of options. */
  function ReadComment(options: Bytes): Option<Bytes> {
    if |options| < 4 || Get16(options, 0) != 1 then None
    else
      var m := Get16(options, 2);
      if |options| < 4 + m then None else Some(options[4..4 + m])
  }

  /** The event in the body of an enhanced packet block whose first option is a comment. */
  function ReadEvent(body: Bytes): Option<Event> {
    if |body| < 20 then None
    else
      var n, rest := Get32(body, 12), body[20..];
      if |rest| < n + Pad(n) then None
      else
        match ReadComment(rest[n + Pad(n)..])
        case None => None
        case Some(comment) => Some(Event(Get32(body, 4) * U32 + Get32(body, 8), rest[..n], comment))
  }

  // ----- round trips -----

  lemma WordAt(a: Bytes, word: Bytes, b: Bytes, i: nat)
    requires |word| == 4 && |a| == i
    ensures Get32(a + word + b, i) == Get32(word, 0)
  {
    var s := a + word + b;
    assert forall k :: 0 <= k < 4 ==> s[i + k] == word[k];
  }

  /** The fields of a block laid out as kind, length, body, length. */
  lemma BlockFields(s: Bytes, kind: Bytes, length: Bytes, body: Bytes, rest: Bytes)
    requires |kind| == 4 && |length| == 4 && s == kind + length + body + length + rest
    ensures |s| == |body| + 12 + |rest|
    ensures Get32(s, 0) == Get32(kind, 0) && Get32(s, 4) == Get32(length, 0)
    ensures Get32(s, |body| + 8) == Get32(length, 0)
  {
    assert s == [] + kind + (length + body + length + rest);
    WordAt([], kind, length + body + length + rest, 0);
    assert s == kind + length + (body + length + rest);
    WordAt(kind, length, body + length + rest, 4);
    WordAt(kind + length + body, length, rest, |body| + 8);
  }

  lemma BlockBody(s: Bytes, kind: Bytes, length: Bytes, body: Bytes, rest: Bytes)
    requires |kind| == 4 && |length| == 4 && s == kind + length + body + length + rest
    ensures s[8..|body| + 8] == body && s[|body| + 12..] == rest
  {
  }

  lemma ReadStep(s: Bytes, n: nat, body: Bytes, rest: Bytes)
    requires |s| == n + |rest| && n == |body| + 12 && n % 4 == 0
    requires Get32(s, 4) == n && Get32(s, n - 4) == n
    requires s[8..n - 4] == body && s[n..] == rest
    ensures ReadBlocks(s) ==
            Before(Block(Get32(s, 0), body), ReadBlocks(rest))
  {
    assert BlockAt(s);
  }

  lemma BlockStep(s: Bytes, kind: Bytes, length: Bytes, body: Bytes, rest: Bytes)
    requires |kind| == 4 && |length| == 4 && s == kind + length + body + length + rest
    requires |body| % 4 == 0 && Get32(length, 0) == |body| + 12
    ensures ReadBlocks(s) == Before(Block(Get32(kind, 0), body), ReadBlocks(rest))
  {
    hide ReadBlocks, Before, Get32;
    BlockFields(s, kind, length, body, rest);
    BlockBody(s, kind, length, body, rest);
    ReadStep(s, |body| + 12, body, rest);
  }

  lemma FramedLayout(kind: nat, body: Bytes) returns (word: Bytes, length: Bytes)
    requires kind < U32 && |body| + 12 < U32
    ensures |word| == 4 && |length| == 4 && Get32(word, 0) == kind && Get32(length, 0) == |body| + 12
    ensures Framed(kind, body) == word + length + body + length
  {
    hide Le32, Get32;
    word, length := Le32(kind), Le32(|body| + 12);
    Get32Of(kind);
    Get32Of(|body| + 12);
  }

  /** A block is read back, and reading goes on behind it. */
  lemma BlockReads(kind: nat, body: Bytes, rest: Bytes)
    requires kind < U32 && |body| % 4 == 0 && |body| + 12 < U32
    ensures ReadBlocks(Framed(kind, body) + rest) == Before(Block(kind, body), ReadBlocks(rest))
  {
    var word, length := FramedLayout(kind, body);
    BlockStep(Framed(kind, body) + rest, word, length, body, rest);
  }

  /** The length fields of a block agree, and tell the truth exactly below 2^32 bytes. */
  lemma LengthFields(kind: nat, body: Bytes)
    requires kind < U32
    ensures var s := Framed(kind, body);
            && (Get32(s, 4) == |s| <==> |s| < U32)
            && Get32(s, |s| - 4) == Get32(s, 4)
  {
    var length := Le32((|body| + 12) % U32);
    Get32Of((|body| + 12) % U32);
    assert Framed(kind, body) == Le32(kind) + length + body + length + [];
    BlockFields(Framed(kind, body), Le32(kind), length, body, []);
  }

  /** Small enough for every length field. */
  predicate Storable(e: Event) {
    EpbLength(e) < U32 && |e.comment| < U16
  }

  predicate AllStorable(events: seq<Event>) {
    forall i :: 0 <= i < |events| ==> Storable(events[i])
  }

  lemma FiveWords(s: Bytes, a: Bytes, b: Bytes, c: Bytes, d: Bytes)
    requires |a| == 4 && |b| == 4 && |c| == 4 && |d| == 4 && s == a + b + c + d + d
    ensures Get32(s, 0) == Get32(a, 0) && Get32(s, 4) == Get32(b, 0) && Get32(s, 8) == Get32(c, 0)
    ensures Get32(s, 12) == Get32(d, 0) && Get32(s, 16) == Get32(d, 0)
  {
    assert s == [] + a + (b + c + d + d);
    WordAt([], a, b + c + d + d, 0);
    assert s == a + b + (c + d + d);
    WordAt(a, b, c + d + d, 4);
    assert s == a + b + c + (d + d);
    WordAt(a + b, c, d + d, 8);
    WordAt(a + b + c, d, d, 12);
    assert s == a + b + c + d + d + [];
    WordAt(a + b + c + d, d, [], 16);
  }

  lemma FieldsRead(interfaceId: nat, timestamp: u64, length: nat)
    requires interfaceId < U32 && length < U32
    ensures var s := PacketFields(interfaceId, timestamp, length);
            && Get32(s, 0) == interfaceId && Get32(s, 4) * U32 + Get32(s, 8) == timestamp
            && Get32(s, 12) == length && Get32(s, 16) == length
  {
    hide Le32, Get32;
    var s := PacketFields(interfaceId, timestamp, length);
    FiveWords(s, Le32(interfaceId), Le32(timestamp / U32), Le32(timestamp % U32), Le32(length));
    Get32Of(interfaceId);
    Get32Of(timestamp / U32);
    Get32Of(timestamp % U32);
    Get32Of(length);
  }

  lemma CommentFieldsRead(a: Bytes, b: Bytes, comment: Bytes, rest: Bytes)
    requires |a| == 2 && |b| == 2
    ensures var s := a + b + comment + rest;
            && |s| == 4 + |comment| + |rest| && s[4..4 + |comment|] == comment
            && Get16(s, 0) == Get16(a, 0) && Get16(s, 2) == Get16(b, 0)
  {
  }

  lemma CommentReads(comment: Bytes)
    requires |comment| < U16
    ensures ReadComment(Options(comment)) == Some(comment)
  {
    hide Get16, Le16;
    var behind := ZeroBytes(Pad(|comment|)) + Le16(0) + Le16(0);
    OptionsLayout(Le16(1), Le16(|comment|), comment, ZeroBytes(Pad(|comment|)), Le16(0));
    CommentFieldsRead(Le16(1), Le16(|comment|), comment, behind);
    Get16Of(1);
    Get16Of(|comment|);
  }

  lemma OptionsLayout(a: Bytes, b: Bytes, comment: Bytes, zeros: Bytes, end: Bytes)
    ensures a + b + (comment + zeros) + end + end == a + b + comment + (zeros + end + end)
  {
  }

  lemma PrefixFields(fields: Bytes, rest: Bytes, body: Bytes)
    requires |fields| == 20 && body == fields + rest
    ensures body[20..] == rest
    ensures Get32(body, 4) == Get32(fields, 4) && Get32(body, 8) == Get32(fields, 8) && Get32(body, 12) == Get32(fields, 12)
  {
  }

  lemma BodyReads(body: Bytes, timestamp: u64, data: Bytes, comment: Bytes)
    requires |comment| < U16 && |body| >= 20 && body[20..] == Padded(data) + Options(comment)
    requires Get32(body, 4) * U32 + Get32(body, 8) == timestamp && Get32(body, 12) == |data|
    ensures ReadEvent(body) == Some(Event(timestamp, data, comment))
  {
    PaddedPrefix(data, Options(comment));
    CommentReads(comment);
  }

  lemma PacketReads(body: Bytes, fields: Bytes, timestamp: u64, data: Bytes, comment: Bytes)
    requires |comment| < U16 && |fields| == 20 && body == fields + Padded(data) + Options(comment)
    requires Get32(fields, 4) * U32 + Get32(fields, 8) == timestamp && Get32(fields, 12) == |data|
    ensures ReadEvent(body) == Some(Event(timestamp, data, comment))
  {
    assert body == fields + (Padded(data) + Options(comment));
    PrefixFields(fields, Padded(data) + Options(comment), body);
    BodyReads(body, timestamp, data, comment);
  }

  lemma BodyLayout(interfaceId: nat, e: Event) returns (body: Bytes, fields: Bytes)
    requires interfaceId < U32 && Storable(e)
    ensures body == EpbBody(interfaceId, e) == fields + Padded(e.data) + Options(e.comment)
    ensures |fields| == 20
    ensures Get32(fields, 4) * U32 + Get32(fields, 8) == e.timestamp && Get32(fields, 12) == |e.data|
  {
    hide PacketFields, Options, Padded, Get32;
    body, fields := EpbBody(interfaceId, e), PacketFields(interfaceId, e.timestamp, |e.data|);
    FieldsRead(interfaceId, e.timestamp, |e.data|);
  }

  /** Timestamp, data and comment come back from the body of a block. */
  lemma EventReads(interfaceId: nat, e: Event)
    requires interfaceId < U32 && Storable(e)
    ensures ReadEvent(EpbBody(interfaceId, e)) == Some(e)
  {
    var body, fields := BodyLayout(interfaceId, e);
    PacketReads(body, fields, e.timestamp, e.data, e.comment);
  }

  lemma PaddedPrefix(data: Bytes, rest: Bytes)
    ensures var s := Padded(data) + rest;
            s[..|data|] == data && s[|data| + Pad(|data|)..] == rest
  {
  }

  lemma WordsInside(head: Bytes, fields: Bytes, rest: Bytes)
    requires |head| == 8 && |fields| == 20
    ensures var s := head + fields + rest;
            && |s| == 28 + |rest|
            && Get32(s, 8) == Get32(fields, 0) && Get32(s, 12) == Get32(fields, 4) && Get32(s, 16) == Get32(fields, 8)
            && Get32(s, 20) == Get32(fields, 12) && Get32(s, 24) == Get32(fields, 16)
  {
  }

  /**
   * The fields of any packet block: its type, the interface, the time in two words, the captured and
   * the original length, which are the same, and the end of the options in front of the last length.
   */
  lemma PacketBlockFields(interfaceId: nat, e: Event)
    requires interfaceId < U32
    ensures var s := Epb(interfaceId, e);
            && Get32(s, 0) == 6
            && Get32(s, 8) == interfaceId && Get32(s, 12) * U32 + Get32(s, 16) == e.timestamp
            && Get32(s, 20) == |e.data| % U32 && Get32(s, 24) == |e.data| % U32
            && Get32(s, |s| - 8) == 0
  {
    hide PacketFields, Padded, Le32, Get32, Le16;
    var s, n := Epb(interfaceId, e), EpbLength(e);
    var kind, length, fields := Le32(EPB_TYPE), Le32(n % U32), PacketFields(interfaceId, e.timestamp, |e.data| % U32);
    var options := Le16(1) + Le16(|e.comment| % U16) + Padded(e.comment);
    var behind := Padded(e.data) + Options(e.comment) + length;
    assert s == [] + kind + (length + fields + behind);
    WordAt([], kind, length + fields + behind, 0);
    Get32Of(EPB_TYPE);
    assert s == kind + length + fields + behind;
    WordsInside(kind + length, fields, behind);
    FieldsRead(interfaceId, e.timestamp, |e.data| % U32);
    var front := kind + length + fields + Padded(e.data) + options;
    assert s == front + (Le16(0) + Le16(0)) + length;
    WordAt(front, Le16(0) + Le16(0), length, |s| - 8);
    NoOptions();
  }

  /** `n`, or the next multiple of four. */
  function UpTo4(n: nat): (r: nat)
    ensures n <= r < n + 4 && r % 4 == 0
  {
    (n + 3) / 4 * 4
  }

  lemma PaddedWith(data: Bytes)
    ensures |Padded(data)| == UpTo4(|data|) && Padded(data)[..|data|] == data
    ensures forall i :: |data| <= i < |Padded(data)| ==> Padded(data)[i] == 0
  {
  }

  lemma PacketBlockParts(interfaceId: nat, e: Event) returns (front: Bytes, header: Bytes, back: Bytes)
    requires interfaceId < U32
    ensures |front| == 28 && header == Le16(1) + Le16(|e.comment| % U16) && |back| == 8
    ensures Epb(interfaceId, e) == front + Padded(e.data) + header + Padded(e.comment) + back
  {
    hide PacketFields, Padded, Le32, Le16;
    var length := Le32(EpbLength(e) % U32);
    front := Le32(EPB_TYPE) + length + PacketFields(interfaceId, e.timestamp, |e.data| % U32);
    header, back := Le16(1) + Le16(|e.comment| % U16), Le16(0) + Le16(0) + length;
  }

  lemma ContentParts(front: Bytes, data: Bytes, header: Bytes, comment: Bytes, back: Bytes, n: nat, m: nat)
    requires n <= |data| && m <= |comment|
    ensures var s, a, b := front + data + header + comment + back, |front|, |front| + |data| + |header|;
            && |s| == b + |comment| + |back|
            && s[a..a + n] == data[..n] && (forall i :: a <= i < a + |data| ==> s[i] == data[i - a])
            && s[b..b + m] == comment[..m] && (forall i :: b <= i < b + |comment| ==> s[i] == comment[i - b])
  {
  }

  lemma HeaderParts(s: Bytes, front: Bytes, a: Bytes, b: Bytes, behind: Bytes)
    requires |a| == 2 && |b| == 2 && s == front + (a + b) + behind
    ensures |front| + 4 <= |s| && Get16(s, |front|) == Get16(a, 0) && Get16(s, |front| + 2) == Get16(b, 0)
  {
  }

  /**
   * What else a packet block holds: the data, the comment option with its length, and the comment, data and
   * comment each filled up with as few zeros as possible.
   */
  lemma PacketBlockContent(interfaceId: nat, e: Event)
    requires interfaceId < U32
    ensures var s, n, m := Epb(interfaceId, e), UpTo4(|e.data|), UpTo4(|e.comment|);
            && |s| == 40 + n + m
            && s[28..28 + |e.data|] == e.data && (forall i :: 28 + |e.data| <= i < 28 + n ==> s[i] == 0)
            && s[32 + n..32 + n + |e.comment|] == e.comment && (forall i :: 32 + n + |e.comment| <= i < 32 + n + m ==> s[i] == 0)
  {
    hide Padded, Epb, Le16;
    var front, header, back := PacketBlockParts(interfaceId, e);
    PaddedWith(e.data);
    PaddedWith(e.comment);
    ContentParts(front, Padded(e.data), header, Padded(e.comment), back, |e.data|, |e.comment|);
  }

  lemma CommentOption(interfaceId: nat, e: Event)
    requires interfaceId < U32
    ensures var s, n := Epb(interfaceId, e), UpTo4(|e.data|);
            |s| >= 32 + n && Get16(s, 28 + n) == 1 && Get16(s, 30 + n) == |e.comment| % U16
  {
    hide Padded, Epb, Le16, Get16;
    var front, header, back := PacketBlockParts(interfaceId, e);
    PaddedWith(e.data);
    Get16Of(1);
    Get16Of(|e.comment| % U16);
    var s := Epb(interfaceId, e);
    assert s == front + Padded(e.data) + header + (Padded(e.comment) + back);
    HeaderParts(s, front + Padded(e.data), Le16(1), Le16(|e.comment| % U16), Padded(e.comment) + back);
  }

  lemma NoOptions()
    ensures Get32(Le16(0) + Le16(0), 0) == 0
  {
  }

  // ----- whole files -----

  /** The packet blocks of a file. */
  function Packets(events: seq<Event>): Bytes {
    if events == [] then [] else Epb(0, events[0]) + Packets(events[1..])
  }

  lemma {:induction false} PacketsAppend(events: seq<Event>, e: Event)
    ensures Packets(events + [e]) == Packets(events) + Epb(0, e)
  {
    hide Epb;
    if events == [] {
      assert events + [e] == [e] && [e][1..] == [];
      assert Packets([e]) == Epb(0, e) + Packets([]);
    } else {
      PacketsAppend(events[1..], e);
      assert (events + [e])[1..] == events[1..] + [e];
      assert Epb(0, events[0]) + (Packets(events[1..]) + Epb(0, e)) == Epb(0, events[0]) + Packets(events[1..]) + Epb(0, e);
    }
  }

  function FileHeader(): Bytes {
    Shb() + Idb()
  }

  lemma HeaderWords()
    ensures Le32(0x0A0D0D0A) == [0x0A, 0x0D, 0x0D, 0x0A] && Le32(0x1A2B3C4D) == [0x4D, 0x3C, 0x2B, 0x1A]
    ensures Le32(28) == [28, 0, 0, 0] && Le16(1) == [1, 0] && Le16(0) == [0, 0]
  {
  }

  lemma NoLength()
    ensures Le64(U64 - 1) == [0xFF, 0xFF, 0xFF, 0xFF, 0xFF, 0xFF, 0xFF, 0xFF]
  {
    assert Le32(U32 - 1) == [0xFF, 0xFF, 0xFF, 0xFF];
  }

  lemma SectionBody()
    ensures ShbBody() == [0x4D, 0x3C, 0x2B, 0x1A, 1, 0, 0, 0, 0xFF, 0xFF, 0xFF, 0xFF, 0xFF, 0xFF, 0xFF, 0xFF]
  {
    hide Le16, Le32, Le64;
    HeaderWords();
    NoLength();
  }

  /** The first 28 bytes of every file, section 4.1 of draft-ietf-opsawg-pcapng. */
  lemma SectionHeaderBytes()
    ensures Shb() == [
              0x0A, 0x0D, 0x0D, 0x0A, 28, 0, 0, 0, 0x4D, 0x3C, 0x2B, 0x1A, 1, 0, 0, 0,
              0xFF, 0xFF, 0xFF, 0xFF, 0xFF, 0xFF, 0xFF, 0xFF, 28, 0, 0, 0]
  {
    hide Le32, ShbBody;
    HeaderWords();
    SectionBody();
  }

  /** The 20 bytes behind them, section 4.2. */
  lemma InterfaceBytes()
    ensures Idb() == [1, 0, 0, 0, 20, 0, 0, 0, 147, 0, 0, 0, 0, 0, 0, 0, 20, 0, 0, 0]
  {
    assert Le32(20) == [20, 0, 0, 0];
  }

  function PacketBlocks(events: seq<Event>): (r: seq<Block>)
    ensures |r| == |events|
  {
    seq(|events|, i requires 0 <= i < |events| => Block(EPB_TYPE, EpbBody(0, events[i])))
  }

  lemma EpbReads(e: Event, rest: Bytes)
    requires Storable(e)
    ensures ReadBlocks(Epb(0, e) + rest) ==
            Before(Block(EPB_TYPE, EpbBody(0, e)), ReadBlocks(rest))
  {
    hide Framed, EpbBody, ReadBlocks;
    BlockReads(EPB_TYPE, EpbBody(0, e), rest);
  }

  lemma PacketBlocksCons(events: seq<Event>)
    requires events != []
    ensures PacketBlocks(events) == [Block(EPB_TYPE, EpbBody(0, events[0]))] + PacketBlocks(events[1..])
  {
  }

  lemma {:induction false} PacketsRead(events: seq<Event>)
    requires AllStorable(events)
    ensures ReadBlocks(Packets(events)) == Some(PacketBlocks(events))
  {
    if events != [] {
      PacketsRead(events[1..]);
      EpbReads(events[0], Packets(events[1..]));
      PacketBlocksCons(events);
    }
  }

  lemma TwoHeaders(shb: Bytes, idb: Bytes, packets: Bytes, first: Block, second: Block, more: seq<Block>)
    requires ReadBlocks(packets) == Some(more)
    requires ReadBlocks(idb + packets) == Some([second] + more)
    requires ReadBlocks(shb + (idb + packets)) == Some([first] + ([second] + more))
    ensures ReadBlocks(shb + idb + packets) == Some([first, second] + more)
  {
    assert shb + idb + packets == shb + (idb + packets);
    assert [first] + ([second] + more) == [first, second] + more;
  }

  /** Walking any written file finds the two header blocks and then every event, in order. */
  lemma FileReads(events: seq<Event>)
    requires AllStorable(events)
    ensures ReadBlocks(FileHeader() + Packets(events)) ==
            Some([Block(SHB_TYPE, ShbBody()), Block(IDB_TYPE, IdbBody())] + PacketBlocks(events))
  {
    var packets := Packets(events);
    PacketsRead(events);
    BlockReads(IDB_TYPE, IdbBody(), packets);
    BlockReads(SHB_TYPE, ShbBody(), Idb() + packets);
    TwoHeaders(Shb(), Idb(), packets, Block(SHB_TYPE, ShbBody()), Block(IDB_TYPE, IdbBody()), PacketBlocks(events));
  }

  function ReadEvents(blocks: seq<Block>): Option<seq<Event>> {
    if blocks == [] then Some([])
    else
      match (ReadEvent(blocks[0].body), ReadEvents(blocks[1..]))
      case (Some(e), Some(more)) => Some([e] + more)
      case _ => None
  }

  /** The events of a file: what the blocks behind the two headers hold. */
  function ReadFile(s: Bytes): Option<seq<Event>> {
    match ReadBlocks(s)
    case None => None
    case Some(blocks) => if |blocks| < 2 then None else ReadEvents(blocks[2..])
  }

  lemma EventsCons(first: Block, rest: seq<Block>, e: Event, events: seq<Event>)
    requires ReadEvent(first.body) == Some(e) && ReadEvents(rest) == Some(events)
    ensures ReadEvents([first] + rest) == Some([e] + events)
  {
    assert ([first] + rest)[1..] == rest;
  }

  lemma {:induction false} EventsInPackets(events: seq<Event>)
    requires AllStorable(events)
    ensures ReadEvents(PacketBlocks(events)) == Some(events)
  {
    if events != [] {
      EventReads(0, events[0]);
      EventsInPackets(events[1..]);
      PacketBlocksCons(events);
      EventsCons(Block(EPB_TYPE, EpbBody(0, events[0])), PacketBlocks(events[1..]), events[0], events[1..]);
      assert events == [events[0]] + events[1..];
    }
  }

  lemma DropTwo(a: Block, b: Block, more: seq<Block>)
    ensures ([a, b] + more)[2..] == more
  {
  }

  /** Every event comes back from the file, in order, with its timestamp, data and comment. */
  lemma EventsComeBack(events: seq<Event>)
    requires AllStorable(events)
    ensures ReadFile(FileHeader() + Packets(events)) == Some(events)
  {
    FileReads(events);
    EventsInPackets(events);
    DropTwo(Block(SHB_TYPE, ShbBody()), Block(IDB_TYPE, IdbBody()), PacketBlocks(events));
  }

  // ----- the comment -----

  function Power10(k: nat): (p: nat)
    ensures p >= 1
  {
    if k == 0 then 1 else 10 * Power10(k - 1)
  }

  lemma {:induction false} DigitsShort(n: nat, k: nat)
    requires k >= 1 && n < Power10(k)
    ensures |Digits(n, 10)| <= k
  {
    if n >= 10 {
      assert k > 1 by {
        assert Power10(1) == 10 * Power10(0);
      }
      DigitsShort(n / 10, k - 1);
    }
  }

  lemma Power10Five(k: nat)
    ensures Power10(k + 5) == 100_000 * Power10(k)
  {
    assert Power10(k + 5) == 10 * Power10(k + 4);
    assert Power10(k + 4) == 10 * Power10(k + 3);
    assert Power10(k + 3) == 10 * Power10(k + 2);
    assert Power10(k + 2) == 10 * Power10(k + 1);
  }

  /** A connection number takes at most 20 digits, so only an enormous direction could overflow the option. */
  lemma CommentFits(direction: Bytes, connection: u64)
    requires |direction| + 26 < U16
    ensures |Comment(direction, connection)| < U16
  {
    Power10Five(0);
    Power10Five(5);
    Power10Five(10);
    Power10Five(15);
    DigitsShort(connection, 20);
  }

  /**
   * The comment is the direction, ` conn=` and the decimal connection number; both come back by
   * cutting at the last space, so that two different pairs have two different comments.
   */
  lemma CommentReadsBack(direction: Bytes, connection: u64)
    ensures var c := Comment(direction, connection);
            && Memrchr(SP, c) == Some(|direction|) && c[..|direction|] == direction
            && |c| >= |direction| + 6 && c[|direction|..|direction| + 6] == Spelled(" conn=")
            && ParseUsize(c[|direction| + 6..], 10) == Some(connection)
  {
    hide ParseUsize, Memrchr;
    var word, digits, c := Spelled("conn="), Digits(connection, 10), Comment(direction, connection);
    assert CONN == Spelled(" conn=") == [SP] + word;
    assert SP !in digits by {
      assert !IsDigit(SP, 10);
    }
    assert c == direction + [SP] + (word + digits);
    MemrchrSplits(SP, direction, word + digits);
    assert c[|direction| + 6..] == Zeros(0) + digits;
    ParsePrinted(0, connection, 10);
  }

  /** Different connections, or different directions, never share a comment. */
  lemma CommentsDiffer(direction: Bytes, connection: u64, other: Bytes, number: u64)
    requires Comment(direction, connection) == Comment(other, number)
    ensures direction == other && connection == number
  {
    hide Comment, ParseUsize, Memrchr;
    CommentReadsBack(direction, connection);
    CommentReadsBack(other, number);
  }
}
