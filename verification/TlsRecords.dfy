/** Cutting a TLS byte stream into records, however short the reads are. */
module TlsRecords {
  import opened Common
  import opened Sni

  const HEADER_LEN := 5
  const MAX_PAYLOAD := 16384

  datatype Record = Record(data: Bytes, recordType: TlsRecordType)

  datatype Ending = Clean | IncompleteHeader | UnknownType(kind: byte) | TooLong(length: nat) | IncompletePayload | ReadFailed

  datatype Outcome = Outcome(records: seq<Record>, ending: Ending)

  function PayloadLength(header: Bytes): nat
    requires |header| >= HEADER_LEN
  {
    Be16(header[3], header[4])
  }

  /** The records of a whole byte string, and what stops behind them. */
  function Records(input: Bytes): Outcome {
    if input == [] then Outcome([], Clean)
    else if |input| < HEADER_LEN then Outcome([], IncompleteHeader)
    else
      match FromU8(input[0])
      case None => Outcome([], UnknownType(input[0]))
      case Some(recordType) =>
        var end := HEADER_LEN + PayloadLength(input);
        if PayloadLength(input) > MAX_PAYLOAD then Outcome([], TooLong(PayloadLength(input)))
        else if |input| < end then Outcome([], IncompletePayload)
        else
          var more := Records(input[end..]);
          Outcome([Record(input[..end], recordType)] + more.records, more.ending)
  }

  // ----- the reader and the loop -----

  datatype Read = Got(bytes: Bytes) | Error

  /**
   * A socket holding `input`. The schedule says how much each read returns, never more than asked
   * for and never nothing before the end, or that it fails.
   */
  class Reader {
    const input: Bytes
    const schedule: nat -> Option<nat>
    var pos: nat
    var calls: nat

    constructor (input: Bytes, schedule: nat -> Option<nat>)
      ensures this.input == input && this.schedule == schedule && pos == 0
    {
      this.input, this.schedule := input, schedule;
      pos, calls := 0, 0;
    }

    method ReadBuf(spare: nat) returns (r: Read)
      requires pos <= |input| && spare > 0
      modifies this
      ensures old(pos) <= pos <= |input|
      ensures r.Got? ==> r.bytes == input[old(pos)..pos] && |r.bytes| <= spare
      ensures r.Got? ==> (r.bytes == [] <==> old(pos) == |input|)
      ensures r.Error? ==> pos == old(pos) && schedule(old(calls)).None?
    {
      var size := schedule(calls);
      calls := calls + 1;
      if size.None? {
        return Error;
      }
      if pos == |input| {
        return Got([]);
      }
      var available := Min(spare, |input| - pos);
      var n := 1 + size.value % available;
      var start := pos;
      pos := pos + n;
      return Got(input[start..pos]);
    }
  }

  /** Fill a buffer of `want` bytes with as many reads as it takes. */
  method Fill(reader: Reader, want: nat) returns (buf: Bytes, failed: bool, eof: bool)
    requires reader.pos <= |reader.input|
    modifies reader
    ensures old(reader.pos) <= reader.pos <= |reader.input|
    ensures buf == reader.input[old(reader.pos)..reader.pos] && |buf| <= want
    ensures !(failed && eof) && (!failed && !eof ==> |buf| == want)
    ensures eof ==> |buf| < want && reader.pos == |reader.input|
    ensures failed ==> |buf| < want && exists k :: reader.schedule(k).None?
  {
    buf, failed, eof := [], false, false;
    while |buf| < want
      invariant old(reader.pos) <= reader.pos <= |reader.input|
      invariant buf == reader.input[old(reader.pos)..reader.pos] && |buf| <= want
      decreases want - |buf|
    {
      var r := reader.ReadBuf(want - |buf|);
      if r.Error? {
        failed := true;
        return;
      }
      if r.bytes == [] {
        eof := true;
        return;
      }
      buf := buf + r.bytes;
    }
  }

  /** The type byte of a record, section 5.1 of RFC 8446. */
  ghost predicate HasCode(b: byte, t: TlsRecordType) {
    match t
    case ChangeCipherSpec => b == 20
    case Alert => b == 21
    case Handshake => b == 22
    case ApplicationData => b == 23
  }

  lemma CodeExactly(b: byte)
    ensures FromU8(b).Some? <==> 20 <= b <= 23
    ensures forall t: TlsRecordType :: FromU8(b) == Some(t) <==> HasCode(b, t)
  {
  }

  /** Bytes 3 and 4 of a record as one number, most significant byte first. */
  ghost function LengthField(s: Bytes): nat
    requires |s| >= 5
  {
    (s[3] as int) * 0x100 + s[4] as int
  }

  /** A complete record of a known type: five bytes, and as many as their length field says, at most 2^14. */
  ghost predicate GoodRecord(r: Record) {
    && |r.data| >= 5
    && HasCode(r.data[0], r.recordType)
    && LengthField(r.data) <= 16384
    && |r.data| == 5 + LengthField(r.data)
  }

  ghost predicate GoodRecords(rs: seq<Record>) {
    forall i :: 0 <= i < |rs| ==> GoodRecord(rs[i])
  }

  function RecordBytes(rs: seq<Record>): Bytes {
    if rs == [] then [] else rs[0].data + RecordBytes(rs[1..])
  }

  lemma {:induction false} RecordBytesSnoc(rs: seq<Record>, r: Record)
    ensures RecordBytes(rs + [r]) == RecordBytes(rs) + r.data
  {
    if rs == [] {
      assert rs + [r] == [r];
      assert RecordBytes([r]) == r.data + [];
    } else {
      assert (rs + [r])[1..] == rs[1..] + [r];
      RecordBytesSnoc(rs[1..], r);
    }
  }

  datatype Next = One(record: Record) | Stop(ending: Ending)

  ghost predicate HarmlessEnding(e: Ending) {
    e == Clean || e == IncompleteHeader || e == IncompletePayload
  }

  /** One turn of the loop: the header, its checks, and the payload. */
  method NextRecord(reader: Reader) returns (n: Next)
    requires reader.pos <= |reader.input|
    modifies reader
    ensures old(reader.pos) <= reader.pos <= |reader.input|
    ensures n.One? ==> GoodRecord(n.record) && n.record.data == reader.input[old(reader.pos)..reader.pos]
    ensures n.Stop? && n.ending != ReadFailed ==> Records(reader.input[old(reader.pos)..]) == Outcome([], n.ending)
    ensures n == Stop(ReadFailed) ==>
              && (exists k :: reader.schedule(k).None?)
              && var read := Records(reader.input[old(reader.pos)..reader.pos]);
                 read.records == [] && HarmlessEnding(read.ending)
  {
    var start := reader.pos;
    ghost var rest := reader.input[start..];
    var header, failed, eof := Fill(reader, HEADER_LEN);
    assert header == rest[..|header|];
    if failed {
      return Stop(ReadFailed);
    }
    if eof {
      assert header == rest;
      return Stop(if header == [] then Clean else IncompleteHeader);
    }
    var recordType := FromU8(header[0]);
    if recordType.None? {
      return Stop(UnknownType(header[0]));
    }
    var payloadLen := PayloadLength(header);
    if payloadLen > MAX_PAYLOAD {
      return Stop(TooLong(payloadLen));
    }
    var payload;
    payload, failed, eof := Fill(reader, payloadLen);
    assert header + payload == reader.input[start..reader.pos];
    if failed {
      return Stop(ReadFailed);
    }
    if eof {
      assert header + payload == rest;
      return Stop(IncompletePayload);
    }
    return One(Record(header + payload, recordType.value));
  }

  /**
   * The stream of records. Whatever the reads look like, the result is a function of the bytes alone;
   * if a read fails, what came out before are the records of the bytes read so far.
   */
  method Parse(reader: Reader) returns (o: Outcome)
    requires reader.pos == 0
    modifies reader
    ensures reader.pos <= |reader.input|
    ensures o.ending != ReadFailed ==> o == Records(reader.input)
    ensures o.ending == ReadFailed ==>
              && (exists k :: reader.schedule(k).None?)
              && var read := Records(reader.input[..reader.pos]);
                 o.records == read.records && HarmlessEnding(read.ending)
  {
    var out: seq<Record> := [];
    while true
      invariant reader.pos <= |reader.input|
      invariant GoodRecords(out) && RecordBytes(out) == reader.input[..reader.pos]
      decreases |reader.input| - reader.pos
    {
      ghost var start := reader.pos;
      var n := NextRecord(reader);
      match n
      case Stop(ending) =>
        assert out + [] == out;
        if ending == ReadFailed {
          Progress(reader.input, out, start, reader.pos);
        } else {
          Progress(reader.input, out, start, |reader.input|);
        }
        return Outcome(out, ending);
      case One(record) =>
        RecordBytesSnoc(out, record);
        assert reader.input[..start] + reader.input[start..reader.pos] == reader.input[..reader.pos];
        out := out + [record];
    }
  }

  /** Records already cut off do not change what the rest is cut into. */
  lemma Progress(input: Bytes, out: seq<Record>, start: nat, end: nat)
    requires start <= end <= |input| && GoodRecords(out) && RecordBytes(out) == input[..start]
    ensures var rest := Records(input[start..end]);
            Records(input[..end]) == Outcome(out + rest.records, rest.ending)
    ensures end == |input| ==> input[..end] == input && input[start..end] == input[start..]
  {
    assert input[..end] == input[..start] + input[start..end];
    RecordsOfPrefix(out, input[start..end]);
  }

  lemma OneRecord(input: Bytes, r: Record, end: nat)
    requires |input| >= 5 && FromU8(input[0]) == Some(r.recordType) && PayloadLength(input) <= 16384
    requires end == 5 + PayloadLength(input) <= |input| && input[..end] == r.data
    ensures var more := Records(input[end..]);
            Records(input) == Outcome([r] + more.records, more.ending)
  {
  }

  lemma RecordFirst(r: Record, rest: Bytes)
    requires GoodRecord(r)
    ensures var more := Records(rest);
            Records(r.data + rest) == Outcome([r] + more.records, more.ending)
  {
    hide Records, FromU8;
    var input := r.data + rest;
    CodeExactly(r.data[0]);
    assert input[0] == r.data[0] && input[3] == r.data[3] && input[4] == r.data[4];
    assert input[..|r.data|] == r.data && input[|r.data|..] == rest;
    OneRecord(input, r, |r.data|);
  }

  lemma FirstBack(rs: seq<Record>, more: seq<Record>)
    requires rs != []
    ensures [rs[0]] + (rs[1..] + more) == rs + more
  {
  }

  lemma {:induction false} RecordsOfPrefix(rs: seq<Record>, rest: Bytes)
    requires GoodRecords(rs)
    ensures Records(RecordBytes(rs) + rest) == Outcome(rs + Records(rest).records, Records(rest).ending)
  {
    var more := Records(rest).records;
    if rs == [] {
      assert RecordBytes(rs) + rest == rest;
      assert [] + more == more;
    } else {
      var behind := RecordBytes(rs[1..]) + rest;
      assert RecordBytes(rs) + rest == rs[0].data + behind;
      RecordsOfPrefix(rs[1..], rest);
      RecordFirst(rs[0], behind);
      FirstBack(rs, more);
    }
  }

  predicate HasRecord(input: Bytes) {
    && |input| >= HEADER_LEN && FromU8(input[0]).Some? && PayloadLength(input) <= MAX_PAYLOAD
    && HEADER_LEN + PayloadLength(input) <= |input|
  }

  lemma CutRecord(input: Bytes) returns (r: Record, rest: Bytes)
    requires HasRecord(input)
    ensures GoodRecord(r) && input == r.data + rest && |rest| < |input|
    ensures Records(input) == Outcome([r] + Records(rest).records, Records(rest).ending)
  {
    var end := HEADER_LEN + PayloadLength(input);
    r, rest := Record(input[..end], FromU8(input[0]).value), input[end..];
    assert PayloadLength(r.data) == PayloadLength(input);
  }

  lemma GoodFirst(r: Record, rs: seq<Record>, rest: Bytes)
    requires GoodRecord(r) && GoodRecords(rs)
    ensures GoodRecords([r] + rs) && RecordBytes([r] + rs) + rest == r.data + (RecordBytes(rs) + rest)
  {
    assert ([r] + rs)[1..] == rs;
  }

  /** What stops the stream, read off the bytes behind the last record. */
  ghost predicate StoppedBy(rest: Bytes, e: Ending) {
    match e
    case Clean => rest == []
    case IncompleteHeader => 0 < |rest| < 5
    case UnknownType(kind) => |rest| >= 5 && rest[0] == kind && !(20 <= kind <= 23)
    case TooLong(n) => |rest| >= 5 && 20 <= rest[0] <= 23 && n == LengthField(rest) > 16384
    case IncompletePayload =>
      && |rest| >= 5 && 20 <= rest[0] <= 23
      && LengthField(rest) <= 16384 && |rest| < 5 + LengthField(rest)
    case ReadFailed => false
  }

  /**
   * Every record is complete and bounded, together they are the front of the input, and what is left
   * says why the stream stopped there.
   */
  lemma {:induction false} RecordsAreInput(input: Bytes) returns (rest: Bytes)
    ensures var o := Records(input);
            && GoodRecords(o.records)
            && input == RecordBytes(o.records) + rest
            && StoppedBy(rest, o.ending)
    decreases |input|
  {
    if HasRecord(input) {
      var first, behind := CutRecord(input);
      rest := RecordsAreInput(behind);
      GoodFirst(first, Records(behind).records, rest);
    } else {
      rest := input;
      assert [] + rest == rest;
    }
  }

  /** The stream ends without an error for exactly the concatenations of complete, bounded, known records. */
  lemma CleanExactly(input: Bytes)
    ensures Records(input).ending == Clean <==> exists rs :: GoodRecords(rs) && input == RecordBytes(rs)
  {
    if Records(input).ending == Clean {
      var rest := RecordsAreInput(input);
      assert input == RecordBytes(Records(input).records);
    }
    if rs :| GoodRecords(rs) && input == RecordBytes(rs) {
      RecordsOfPrefix(rs, []);
      assert RecordBytes(rs) + [] == input;
    }
  }

  /**
   * A ClientHello that fits into one record: the record is cut out of the stream as it is, its
   * server name is found in it, and the stream goes on behind it.
   */
  lemma HelloThroughRecords(h: Hello, major: byte, minor: byte, more: Bytes) returns (r: Record)
    requires Fits(h) && |EncodeHello(h)| <= 16384
    ensures r.data == [22, major, minor] + Enc16(|EncodeHello(h)|) + EncodeHello(h)
    ensures Records(r.data + more) == Outcome([r] + Records(more).records, Records(more).ending)
    ensures SniOf(r.data, r.recordType) == Some(h.host)
  {
    hide Fits, EncodeHello, ParseHello, Records;
    var hello := EncodeHello(h);
    r := Record([22, major, minor] + Enc16(|hello|) + hello, Handshake);
    assert r.data[5..] == hello;
    EncodedStart(h);
    PrintedHello(h);
    RecordFirst(r, more);
  }
}
