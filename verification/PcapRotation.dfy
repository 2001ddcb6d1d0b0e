/**
 * The capture destination: events go to the open capture file, and a file is closed behind the first
 * response that finds ten requests in it.
 */
module PcapRotation {
  import opened Common
  import opened Numbers
  import opened Pcapng

  const REQ: Bytes := [0x72, 0x65, 0x71]
  const RESP: Bytes := [0x72, 0x65, 0x73, 0x70]
  const REQUESTS_PER_FILE: nat := 10

  datatype Direction = Request | Response {
    function Label(): Bytes {
      if Request? then REQ else RESP
    }
  }

  function Turn(isRequest: bool): Direction {
    if isRequest then Request else Response
  }

  /** One captured write, and how many microseconds after its file was opened it came. */
  datatype Record = Record(data: Bytes, direction: Direction, connection: u64, elapsed: u64)

  /** A record, and whether a new file could be opened for it if none was open. */
  datatype Call = Call(record: Record, opens: bool)

  /** A capture file: the number in its name, and what was recorded in it. */
  datatype File = File(index: nat, records: seq<Record>)

  datatype State = State(closed: seq<File>, current: Option<File>, requestCount: nat, fileIndex: nat)

  function ToEvent(r: Record): Event {
    Event(r.elapsed, r.data, Comment(r.direction.Label(), r.connection))
  }

  function Events(records: seq<Record>): (r: seq<Event>)
    ensures |r| == |records|
  {
    seq(|records|, i requires 0 <= i < |records| => ToEvent(records[i]))
  }

  // ----- one event -----

  function Append(st: State, file: File, r: Record): State {
    var written := File(file.index, file.records + [r]);
    var count := st.requestCount + if r.direction == Request then 1 else 0;
    if r.direction == Response && count >= REQUESTS_PER_FILE then State(st.closed + [written], None, 0, st.fileIndex)
    else State(st.closed, Some(written), count, st.fileIndex)
  }

  /** A number is used up by every attempt to open a file; the event of a failed attempt is lost. */
  function Next(st: State, c: Call): State {
    if st.current.Some? then Append(st, st.current.value, c.record)
    else if c.opens then Append(st.(fileIndex := st.fileIndex + 1), File(st.fileIndex, []), c.record)
    else st.(fileIndex := st.fileIndex + 1)
  }

  predicate Accepts(st: State, c: Call) {
    st.current.Some? || c.opens
  }

  function Run(calls: seq<Call>): State {
    if calls == [] then State([], None, 0, 0)
    else Next(Run(calls[..|calls| - 1]), calls[|calls| - 1])
  }

  // ----- when a file is closed -----

  function Requests(records: seq<Record>): (n: nat)
    ensures n <= |records|
  {
    if records == [] then 0
    else Requests(records[..|records| - 1]) + if records[|records| - 1].direction == Request then 1 else 0
  }

  /** No response in the file came after ten requests. */
  ghost predicate Unfinished(records: seq<Record>) {
    forall j :: 0 <= j < |records| && records[j].direction == Response ==> Requests(records[..j]) < REQUESTS_PER_FILE
  }

  /** The last record, and no earlier one, is a response after ten requests. */
  ghost predicate Finished(records: seq<Record>) {
    && records != []
    && records[|records| - 1].direction == Response
    && Requests(records) >= REQUESTS_PER_FILE
    && Unfinished(records[..|records| - 1])
  }

  function Files(st: State): seq<File> {
    st.closed + if st.current.Some? then [st.current.value] else []
  }

  ghost predicate Numbered(files: seq<File>, limit: nat) {
    && (forall i :: 0 <= i < |files| ==> files[i].index < limit)
    && (forall i, j :: 0 <= i < j < |files| ==> files[i].index < files[j].index)
  }

  ghost predicate Good(st: State) {
    && (forall i :: 0 <= i < |st.closed| ==> Finished(st.closed[i].records))
    && (st.current.Some? ==> st.current.value.records != [] && Unfinished(st.current.value.records))
    && st.requestCount == (if st.current.Some? then Requests(st.current.value.records) else 0)
    && Numbered(Files(st), st.fileIndex)
  }

  lemma UnfinishedSnoc(records: seq<Record>, r: Record)
    requires Unfinished(records) && (r.direction == Response ==> Requests(records) < REQUESTS_PER_FILE)
    ensures Unfinished(records + [r])
  {
    var longer := records + [r];
    forall j | 0 <= j < |longer| && longer[j].direction == Response ensures Requests(longer[..j]) < REQUESTS_PER_FILE {
      assert longer[..j] == records[..j];
    }
    assert records[..|records|] == records;
  }

  /** Writing to the last file does not change its number. */
  lemma NumberedAgain(closed: seq<File>, index: nat, records: seq<Record>, more: seq<Record>, limit: nat)
    requires Numbered(closed + [File(index, records)], limit)
    ensures Numbered(closed + [File(index, more)], limit)
    ensures Numbered(closed + [File(index, more)] + [], limit)
  {
    var before, after := closed + [File(index, records)], closed + [File(index, more)];
    assert forall i :: 0 <= i < |before| ==> before[i].index == after[i].index;
    assert after + [] == after;
  }

  lemma AppendKeepsGood(st: State, file: File, r: Record)
    requires forall i :: 0 <= i < |st.closed| ==> Finished(st.closed[i].records)
    requires Unfinished(file.records) && st.requestCount == Requests(file.records)
    requires Numbered(st.closed + [file], st.fileIndex)
    ensures Good(Append(st, file, r))
  {
    var written := File(file.index, file.records + [r]);
    NumberedAgain(st.closed, file.index, file.records, written.records, st.fileIndex);
    hide Numbered;
    assert written.records[..|file.records|] == file.records;
    if !(r.direction == Response && Requests(written.records) >= REQUESTS_PER_FILE) {
      UnfinishedSnoc(file.records, r);
    }
  }

  lemma NumberedSnoc(files: seq<File>, limit: nat)
    requires Numbered(files, limit)
    ensures Numbered(files, limit + 1) && Numbered(files + [File(limit, [])], limit + 1)
  {
  }

  lemma NextKeepsGood(st: State, c: Call)
    requires Good(st)
    ensures Good(Next(st, c))
  {
    if st.current.Some? {
      assert Files(st) == st.closed + [st.current.value];
      AppendKeepsGood(st, st.current.value, c.record);
    } else {
      assert Files(st) == st.closed;
      NumberedSnoc(st.closed, st.fileIndex);
      if c.opens {
        AppendKeepsGood(st.(fileIndex := st.fileIndex + 1), File(st.fileIndex, []), c.record);
      }
    }
  }

  /**
   * In every run each closed file ends at its first response after ten requests and the open one has none,
   * the counter is exact, and file numbers only go up, so no file is ever truncated by a later one.
   */
  lemma {:induction false} RunIsGood(calls: seq<Call>)
    ensures Good(Run(calls))
  {
    if calls != [] {
      RunIsGood(calls[..|calls| - 1]);
      NextKeepsGood(Run(calls[..|calls| - 1]), calls[|calls| - 1]);
    }
  }

  // ----- nothing is lost but the events of failed openings -----

  function Flatten(files: seq<File>): seq<Record> {
    if files == [] then [] else Flatten(files[..|files| - 1]) + files[|files| - 1].records
  }

  /** The records of the calls that reported success. */
  function Recorded(calls: seq<Call>): seq<Record> {
    if calls == [] then []
    else
      var init, last := calls[..|calls| - 1], calls[|calls| - 1];
      Recorded(init) + if Accepts(Run(init), last) then [last.record] else []
  }

  lemma FlattenSnoc(files: seq<File>, file: File)
    ensures Flatten(files + [file]) == Flatten(files) + file.records
  {
    assert (files + [file])[..|files|] == files;
  }

  lemma FilesOfAppend(st: State, file: File, r: Record)
    ensures Files(Append(st, file, r)) == st.closed + [File(file.index, file.records + [r])]
  {
  }

  lemma NextConserves(st: State, c: Call)
    ensures Flatten(Files(Next(st, c))) == Flatten(Files(st)) + if Accepts(st, c) then [c.record] else []
  {
    if Accepts(st, c) {
      var file := if st.current.Some? then st.current.value else File(st.fileIndex, []);
      FilesOfAppend(if st.current.Some? then st else st.(fileIndex := st.fileIndex + 1), file, c.record);
      FlattenSnoc(st.closed, File(file.index, file.records + [c.record]));
      if st.current.Some? {
        FlattenSnoc(st.closed, file);
      } else {
        assert Files(st) == st.closed;
      }
    }
  }

  /** The files hold exactly the accepted records, in order, each once. */
  lemma {:induction false} RunConserves(calls: seq<Call>)
    ensures Flatten(Files(Run(calls))) == Recorded(calls)
  {
    if calls != [] {
      RunConserves(calls[..|calls| - 1]);
      NextConserves(Run(calls[..|calls| - 1]), calls[|calls| - 1]);
    }
  }

  // ----- alternating writes -----

  function Records(calls: seq<Call>): (r: seq<Record>)
    ensures |r| == |calls|
  {
    seq(|calls|, i requires 0 <= i < |calls| => calls[i].record)
  }

  /** What `write` makes of a series of writes: requests and responses in turn. */
  predicate InTurn(calls: seq<Call>) {
    forall i :: 0 <= i < |calls| ==> calls[i].record.direction == Turn(i % 2 == 0)
  }

  /** A file can be opened for every twentieth call. */
  predicate OpensWhenNeeded(calls: seq<Call>) {
    forall i :: 0 <= i < |calls| && i % 20 == 0 ==> calls[i].opens
  }

  /** The first files of a run: twenty records each, numbered from 0. */
  function FullFiles(records: seq<Record>, full: nat): (r: seq<File>)
    requires 20 * full <= |records|
    ensures |r| == full
  {
    seq(full, k requires 0 <= k < full => File(k, records[20 * k..20 * k + 20]))
  }

  /** `full` files of twenty records, and one with the other `k` records if there are any. */
  function ChunksAt(records: seq<Record>, full: nat, k: nat): State
    requires |records| == 20 * full + k
  {
    State(FullFiles(records, full),
          if k == 0 then None else Some(File(full, records[20 * full..])),
          (k + 1) / 2,
          if k == 0 then full else full + 1)
  }

  /** The state after alternating writes. */
  function Chunks(records: seq<Record>): State {
    ChunksAt(records, |records| / 20, |records| % 20)
  }

  lemma FullFilesExtend(records: seq<Record>, r: Record, full: nat)
    requires 20 * full <= |records|
    ensures FullFiles(records + [r], full) == FullFiles(records, full)
  {
    assert forall k :: 0 <= k < full ==> records[20 * k..20 * k + 20] == (records + [r])[20 * k..20 * k + 20];
  }

  lemma FullFilesSnoc(records: seq<Record>, full: nat)
    requires |records| == 20 * full + 20
    ensures FullFiles(records, full + 1) == FullFiles(records, full) + [File(full, records[20 * full..])]
  {
    assert records[20 * full..20 * full + 20] == records[20 * full..];
  }

  lemma ChunkGrows(records: seq<Record>, c: Call, full: nat, k: nat)
    requires |records| == 20 * full + k && k < 19 && (k == 0 ==> c.opens)
    requires c.record.direction == Turn(k % 2 == 0)
    ensures Next(ChunksAt(records, full, k), c) == ChunksAt(records + [c.record], full, k + 1)
  {
    var r := c.record;
    FullFilesExtend(records, r, full);
    assert records[20 * full..] + [r] == (records + [r])[20 * full..];
  }

  lemma ChunkEnds(records: seq<Record>, c: Call, full: nat)
    requires |records| == 20 * full + 19 && c.record.direction == Response
    ensures Next(ChunksAt(records, full, 19), c) == ChunksAt(records + [c.record], full + 1, 0)
  {
    var r := c.record;
    FullFilesExtend(records, r, full);
    assert records[20 * full..] + [r] == (records + [r])[20 * full..];
    FullFilesSnoc(records + [r], full);
  }

  lemma OneMore(n: nat)
    ensures n % 20 < 19 ==> (n + 1) / 20 == n / 20 && (n + 1) % 20 == n % 20 + 1
    ensures n % 20 == 19 ==> (n + 1) / 20 == n / 20 + 1 && (n + 1) % 20 == 0
    ensures n % 20 % 2 == n % 2
  {
  }

  lemma ChunksSnoc(records: seq<Record>, c: Call)
    requires c.record.direction == Turn(|records| % 2 == 0) && (|records| % 20 == 0 ==> c.opens)
    ensures Next(Chunks(records), c) == Chunks(records + [c.record])
  {
    hide ChunksAt, Next;
    OneMore(|records|);
    var full, k := |records| / 20, |records| % 20;
    if k < 19 {
      ChunkGrows(records, c, full, k);
    } else {
      ChunkEnds(records, c, full);
    }
  }

  /** Rotation under alternating writes: ceil(n / 20) files, cut from the input twenty by twenty. */
  lemma {:induction false} AlternatingRun(calls: seq<Call>)
    requires InTurn(calls) && OpensWhenNeeded(calls)
    ensures Run(calls) == Chunks(Records(calls))
  {
    if calls == [] {
      assert Chunks([]) == State([], None, 0, 0);
    } else {
      var init, last := calls[..|calls| - 1], calls[|calls| - 1];
      AlternatingRun(init);
      ChunksSnoc(Records(init), last);
      RecordsSnoc(init, last);
      assert calls == init + [last];
    }
  }

  lemma {:induction false} FullFilesFlat(records: seq<Record>, full: nat)
    requires 20 * full <= |records|
    ensures Flatten(FullFiles(records, full)) == records[..20 * full]
  {
    if full > 0 {
      var n := full - 1;
      FullFilesFlat(records, n);
      assert FullFiles(records, full) == FullFiles(records, n) + [File(n, records[20 * n..20 * n + 20])];
      FlattenSnoc(FullFiles(records, n), File(n, records[20 * n..20 * n + 20]));
      assert records[..20 * n] + records[20 * n..20 * n + 20] == records[..20 * full];
    }
  }

  lemma ChunksFlat(records: seq<Record>)
    ensures Flatten(Files(Chunks(records))) == records
  {
    var full := |records| / 20;
    FullFilesFlat(records, full);
    if |records| % 20 != 0 {
      FlattenSnoc(FullFiles(records, full), File(full, records[20 * full..]));
      assert records[..20 * full] + records[20 * full..] == records;
    } else {
      assert FullFiles(records, full) + [] == FullFiles(records, full);
      assert records[..20 * full] == records;
    }
  }

  /** If no event was lost, every twentieth call could open its file. */
  lemma {:induction false} NothingLost(calls: seq<Call>)
    requires InTurn(calls)
    ensures |Recorded(calls)| <= |calls|
    ensures |Recorded(calls)| == |calls| ==> OpensWhenNeeded(calls)
  {
    if calls != [] {
      var init, last := calls[..|calls| - 1], calls[|calls| - 1];
      NothingLost(init);
      if |Recorded(calls)| == |calls| {
        AlternatingRun(init);
        assert Accepts(Chunks(Records(init)), last);
      }
    }
  }

  /** The files hold the input twenty by twenty if and only if a file could be opened for every twentieth call. */
  lemma LayoutExactly(calls: seq<Call>)
    requires InTurn(calls)
    ensures Run(calls) == Chunks(Records(calls)) <==> OpensWhenNeeded(calls)
  {
    if OpensWhenNeeded(calls) {
      AlternatingRun(calls);
    }
    if Run(calls) == Chunks(Records(calls)) {
      RunConserves(calls);
      ChunksFlat(Records(calls));
      NothingLost(calls);
    }
  }

  // ----- files after failed openings -----

  /** Requests and responses in turn, from either of them on. */
  predicate TakesTurns(records: seq<Record>) {
    forall i :: 0 <= i < |records| - 1 ==> records[i].direction != records[i + 1].direction
  }

  lemma {:induction false} RequestsInTurn(records: seq<Record>)
    requires TakesTurns(records) && records != []
    ensures Requests(records) == (|records| + if records[0].direction == Request then 1 else 0) / 2
    ensures records[|records| - 1].direction == records[0].direction <==> |records| % 2 == 1
  {
    var init := records[..|records| - 1];
    if init == [] {
      assert Requests(init) == 0;
    } else {
      RequestsInTurn(init);
      assert records[|records| - 2].direction != records[|records| - 1].direction;
    }
  }

  /** A closed file of alternating writes holds 20 events if it starts with a request, and 21 otherwise. */
  lemma FinishedLength(records: seq<Record>)
    requires Finished(records) && TakesTurns(records)
    ensures |records| == if records[0].direction == Request then 20 else 21
  {
    var n := |records|;
    RequestsInTurn(records);
    var init := records[..n - 1];
    if n > 2 {
      RequestsInTurn(records[..n - 2]);
      assert records[n - 3].direction != records[n - 2].direction && records[n - 2].direction != records[n - 1].direction;
      if n > 3 {
        RequestsInTurn(records[..n - 3]);
      }
      assert init[n - 3] == records[n - 3] && init[..n - 3] == records[..n - 3];
      assert Requests(init[..n - 3]) < REQUESTS_PER_FILE;
    }
  }

  ghost predicate FilesTakeTurns(st: State, n: nat) {
    && (forall i :: 0 <= i < |st.closed| ==> TakesTurns(st.closed[i].records))
    && (st.current.Some? ==>
          var records := st.current.value.records;
          TakesTurns(records) && records != [] && n > 0 && records[|records| - 1].direction == Turn((n - 1) % 2 == 0))
  }

  lemma {:induction false} RunTakesTurns(calls: seq<Call>)
    requires InTurn(calls)
    ensures FilesTakeTurns(Run(calls), |calls|)
  {
    if calls != [] {
      RunTakesTurns(calls[..|calls| - 1]);
    }
  }

  /** Every closed file of alternating writes, whatever openings failed: its length tells how it starts. */
  lemma ClosedFileLength(calls: seq<Call>, i: nat)
    requires InTurn(calls) && i < |Run(calls).closed|
    ensures var records := Run(calls).closed[i].records;
            records != [] && |records| == if records[0].direction == Request then 20 else 21
  {
    RunIsGood(calls);
    RunTakesTurns(calls);
    FinishedLength(Run(calls).closed[i].records);
  }

  /** Forty-two alternating writes of which only number 20, the first of the second file, cannot open one. */
  predicate OnlySecondFails(calls: seq<Call>) {
    InTurn(calls) && |calls| == 42 && forall i :: 0 <= i < |calls| ==> (calls[i].opens <==> i != 20)
  }

  /** A run in which only the opening of the second file fails: the next one starts with a response and takes 21 events. */
  lemma LateFile(calls: seq<Call>)
    requires OnlySecondFails(calls)
    ensures var records := Records(calls);
            Run(calls) == State([File(0, records[..20]), File(2, records[21..])], None, 0, 3)
  {
    LateRun(calls, 20);
    assert calls[..41] == calls[..21 + 20];
    var records := Records(calls);
    assert records[21..41] + [records[41]] == records[21..];
    assert [File(0, records[..20])] + [File(2, records[21..])] == [File(0, records[..20]), File(2, records[21..])];
  }

  /** One full file, a lost record, and `k` records behind it in the next file. */
  function LateState(records: seq<Record>, k: nat): State
    requires 21 + k <= |records|
  {
    State([File(0, records[..20])],
          if k == 0 then None else Some(File(2, records[21..21 + k])),
          k / 2,
          if k == 0 then 2 else 3)
  }

  lemma LateStart(records: seq<Record>)
    requires |records| >= 21
    ensures Next(Chunks(records[..20]), Call(records[20], false)) == LateState(records, 0)
  {
    assert records[..20][0..20] == records[..20];
  }

  lemma LateStep(records: seq<Record>, c: Call, k: nat)
    requires 0 < k <= 20 && 21 + k <= |records| && c.record == records[20 + k]
    requires c.record.direction == Turn(k % 2 == 0) && (k == 1 ==> c.opens)
    ensures Next(LateState(records, k - 1), c) == LateState(records, k)
  {
    assert records[21..21 + (k - 1)] + [records[20 + k]] == records[21..21 + k];
    assert k == 1 ==> records[21..21 + (k - 1)] == [];
  }

  lemma {:induction false} LateRun(calls: seq<Call>, k: nat)
    requires OnlySecondFails(calls) && k <= 20
    ensures Run(calls[..21 + k]) == LateState(Records(calls), k)
  {
    hide Next, LateState, Chunks;
    var records, n := Records(calls), 21 + k;
    assert calls[..n][..n - 1] == calls[..n - 1] && calls[..n][n - 1] == calls[n - 1];
    if k == 0 {
      AlternatingRun(calls[..20]);
      assert Records(calls[..20]) == records[..20];
      assert calls[20] == Call(records[20], false);
      LateStart(records);
    } else {
      LateRun(calls, k - 1);
      LateStep(records, calls[n - 1], k);
    }
  }

  lemma RecordsSnoc(calls: seq<Call>, c: Call)
    ensures Records(calls + [c]) == Records(calls) + [c.record]
  {
  }

  /** The number of files after `n` alternating writes. */
  lemma FileCount(records: seq<Record>)
    ensures |Files(Chunks(records))| == (|records| + 19) / 20
  {
  }

  // ----- files on disk -----

  datatype DiskFile = DiskFile(index: nat, bytes: Bytes)

  function Image(file: File): DiskFile {
    DiskFile(file.index, FileHeader() + Packets(Events(file.records)))
  }

  function Images(files: seq<File>): (r: seq<DiskFile>)
    ensures |r| == |files|
  {
    seq(|files|, i requires 0 <= i < |files| => Image(files[i]))
  }

  /** The events of all files, file after file. */
  function ReadAll(files: seq<DiskFile>): Option<seq<Event>> {
    if files == [] then Some([])
    else
      match (ReadAll(files[..|files| - 1]), ReadFile(files[|files| - 1].bytes))
      case (Some(before), Some(last)) => Some(before + last)
      case _ => None
  }

  predicate AllRecordsStorable(records: seq<Record>) {
    forall i :: 0 <= i < |records| ==> Storable(ToEvent(records[i]))
  }

  lemma StorableParts(a: seq<Record>, b: seq<Record>)
    requires AllRecordsStorable(a + b)
    ensures AllRecordsStorable(a) && AllRecordsStorable(b)
  {
    assert forall i :: 0 <= i < |a| ==> a[i] == (a + b)[i];
    assert forall i :: 0 <= i < |b| ==> b[i] == (a + b)[|a| + i];
  }

  lemma EventsAppend(a: seq<Record>, b: seq<Record>)
    ensures Events(a + b) == Events(a) + Events(b)
  {
  }

  lemma ReadAllSnoc(files: seq<DiskFile>, file: DiskFile, before: seq<Event>, last: seq<Event>)
    requires ReadAll(files) == Some(before) && ReadFile(file.bytes) == Some(last)
    ensures ReadAll(files + [file]) == Some(before + last)
  {
    assert (files + [file])[..|files|] == files;
  }

  lemma ImageReads(file: File)
    requires AllRecordsStorable(file.records)
    ensures ReadFile(Image(file).bytes) == Some(Events(file.records))
  {
    EventsComeBack(Events(file.records));
  }

  /** Only the size of the data can keep a record from being stored faithfully. */
  lemma RecordStorable(r: Record)
    ensures Storable(ToEvent(r)) <==> EpbLength(ToEvent(r)) < U32
  {
    CommentFits(r.direction.Label(), r.connection);
  }

  lemma {:induction false} ImagesRead(files: seq<File>)
    requires AllRecordsStorable(Flatten(files))
    ensures ReadAll(Images(files)) == Some(Events(Flatten(files)))
  {
    if files != [] {
      var init, last := files[..|files| - 1], files[|files| - 1];
      assert files == init + [last];
      StorableParts(Flatten(init), last.records);
      ImagesRead(init);
      ImageReads(last);
      ImagesSnoc(init, last);
      ReadAllSnoc(Images(init), Image(last), Events(Flatten(init)), Events(last.records));
      EventsAppend(Flatten(init), last.records);
    }
  }

  /** Reading all files of any run, in order, gives back every accepted event. */
  lemma CaptureComesBack(calls: seq<Call>)
    requires AllRecordsStorable(Recorded(calls))
    ensures ReadAll(Images(Files(Run(calls)))) == Some(Events(Recorded(calls)))
  {
    RunConserves(calls);
    ImagesRead(Files(Run(calls)));
  }

  /** An event that was read says what was recorded: its bytes, its time, its direction and its connection. */
  ghost predicate Says(e: Event, r: Record) {
    var name := (if r.direction.Request? then Spelled("req") else Spelled("resp")) + Spelled(" conn=");
    && e.data == r.data && e.timestamp == r.elapsed
    && name <= e.comment && ParseUsize(e.comment[|name|..], 10) == Some(r.connection)
  }

  lemma EventSays(r: Record)
    ensures Says(ToEvent(r), r)
  {
    hide ParseUsize, Comment;
    var name := r.direction.Label();
    assert REQ == Spelled("req") && RESP == Spelled("resp");
    CommentReadsBack(name, r.connection);
    var c := ToEvent(r).comment;
    assert c[..|name| + 6] == c[..|name|] + c[|name|..|name| + 6];
  }

  /** What comes back from the files of any run says, event by event, what was recorded. */
  lemma CaptureSays(calls: seq<Call>) returns (events: seq<Event>)
    requires AllRecordsStorable(Recorded(calls))
    ensures ReadAll(Images(Files(Run(calls)))) == Some(events)
    ensures |events| == |Recorded(calls)| && forall i :: 0 <= i < |events| ==> Says(events[i], Recorded(calls)[i])
  {
    hide Says, ReadAll, Images, Files, Run, Recorded, ToEvent;
    CaptureComesBack(calls);
    var records := Recorded(calls);
    events := Events(records);
    forall i | 0 <= i < |events| ensures Says(events[i], records[i]) {
      EventSays(records[i]);
    }
  }

  // ----- the destination -----

  /** What the destination holds: finished files, the open one, and its two counters. */
  datatype Disk = Disk(closed: seq<DiskFile>, current: Option<DiskFile>, requestCount: nat, fileIndex: nat)

  function DiskAppend(d: Disk, file: DiskFile, r: Record): Disk {
    var written := DiskFile(file.index, file.bytes + Epb(0, ToEvent(r)));
    var count := d.requestCount + if r.direction == Request then 1 else 0;
    if r.direction == Response && count >= REQUESTS_PER_FILE then Disk(d.closed + [written], None, 0, d.fileIndex)
    else Disk(d.closed, Some(written), count, d.fileIndex)
  }

  function DiskNext(d: Disk, c: Call): Disk {
    if d.current.Some? then DiskAppend(d, d.current.value, c.record)
    else if c.opens then DiskAppend(d.(fileIndex := d.fileIndex + 1), DiskFile(d.fileIndex, FileHeader()), c.record)
    else d.(fileIndex := d.fileIndex + 1)
  }

  function DiskRun(calls: seq<Call>): Disk {
    if calls == [] then Disk([], None, 0, 0)
    else DiskNext(DiskRun(calls[..|calls| - 1]), calls[|calls| - 1])
  }

  function Picture(st: State): Disk {
    Disk(Images(st.closed), if st.current.Some? then Some(Image(st.current.value)) else None, st.requestCount, st.fileIndex)
  }

  lemma EmptyImage(index: nat)
    ensures Image(File(index, [])) == DiskFile(index, FileHeader())
  {
    assert FileHeader() + Packets([]) == FileHeader();
  }

  lemma ImageSnoc(file: File, r: Record)
    ensures Image(File(file.index, file.records + [r])) ==
            DiskFile(file.index, Image(file).bytes + Epb(0, ToEvent(r)))
  {
    hide Packets, Epb;
    assert Events(file.records + [r]) == Events(file.records) + [ToEvent(r)];
    PacketsAppend(Events(file.records), ToEvent(r));
  }

  lemma ImagesSnoc(files: seq<File>, file: File)
    ensures Images(files + [file]) == Images(files) + [Image(file)]
  {
  }

  lemma AppendPicture(st: State, file: File, r: Record)
    ensures Picture(Append(st, file, r)) == DiskAppend(Picture(st), Image(file), r)
  {
    ImageSnoc(file, r);
    ImagesSnoc(st.closed, File(file.index, file.records + [r]));
  }

  lemma NextPicture(st: State, c: Call)
    ensures Picture(Next(st, c)) == DiskNext(Picture(st), c)
  {
    if st.current.Some? {
      AppendPicture(st, st.current.value, c.record);
    } else if c.opens {
      EmptyImage(st.fileIndex);
      AppendPicture(st.(fileIndex := st.fileIndex + 1), File(st.fileIndex, []), c.record);
    }
  }

  /** After any calls the files hold, byte for byte, a header and the packets of their records. */
  lemma {:induction false} DiskRunIsPicture(calls: seq<Call>)
    ensures DiskRun(calls) == Picture(Run(calls))
  {
    if calls == [] {
      assert Images([]) == [];
    } else {
      DiskRunIsPicture(calls[..|calls| - 1]);
      NextPicture(Run(calls[..|calls| - 1]), calls[|calls| - 1]);
    }
  }

  function DiskFiles(d: Disk): seq<DiskFile> {
    d.closed + if d.current.Some? then [d.current.value] else []
  }

  lemma FileOfChunks(records: seq<Record>, k: nat)
    requires k < |Files(Chunks(records))|
    ensures 20 * k <= |records| && Files(Chunks(records))[k].records == records[20 * k..Min(20 * k + 20, |records|)]
  {
  }

  /**
   * `n` alternating writes leave ceil(n / 20) files on disk, and reading file `k` gives back the events
   * from number 20k on, up to twenty of them, with their directions, data and times.
   */
  lemma CaptureOfWrites(calls: seq<Call>, k: nat)
    requires InTurn(calls) && OpensWhenNeeded(calls) && AllRecordsStorable(Records(calls))
    ensures var files := DiskFiles(DiskRun(calls));
            && |files| == (|calls| + 19) / 20
            && (k < |files| ==>
                  ReadFile(files[k].bytes) == Some(Events(Records(calls)[20 * k..Min(20 * k + 20, |calls|)])))
  {
    hide Chunks, Next, ReadFile, InTurn, OpensWhenNeeded, Image, Events;
    var records := Records(calls);
    AlternatingRun(calls);
    DiskRunIsPicture(calls);
    FileCount(records);
    var files := Files(Chunks(records));
    if k < |files| {
      FileOfChunks(records, k);
      assert AllRecordsStorable(files[k].records);
      ImageReads(files[k]);
    }
  }

  class PcapDestination {
    var closed: seq<DiskFile>
    var writer: Writer?
    var openIndex: nat
    var requestCount: nat
    var nextIsRequest: bool
    var fileIndex: nat

    function View(): Disk
      reads this, writer
    {
      Disk(closed, if writer == null then None else Some(DiskFile(openIndex, writer.bytes)), requestCount, fileIndex)
    }

    constructor ()
      ensures View() == DiskRun([]) && nextIsRequest
    {
      closed, writer, openIndex := [], null, 0;
      requestCount, nextIsRequest, fileIndex := 0, true, 0;
    }

    /** `opens` says whether the file system lets the file be created. */
    method OpenFile(opens: bool) returns (ok: bool)
      modifies this`writer, this`openIndex, this`fileIndex
      ensures ok == opens && fileIndex == old(fileIndex) + 1
      ensures ok ==> writer != null && fresh(writer) && openIndex == old(fileIndex) && writer.bytes == FileHeader()
      ensures !ok ==> writer == old(writer) && openIndex == old(openIndex)
    {
      var index := fileIndex;
      fileIndex := fileIndex + 1;
      if !opens {
        return false;
      }
      var w := new Writer();
      WriteShb(w);
      WriteIdb(w);
      writer, openIndex := w, index;
      ok := true;
    }

    method WriteEvent(data: Bytes, direction: Direction, connection: u64, elapsed: u64, opens: bool) returns (ok: bool)
      modifies this, writer
      ensures View() == DiskNext(old(View()), Call(Record(data, direction, connection, elapsed), opens))
      ensures ok == (old(writer) != null || opens) && nextIsRequest == old(nextIsRequest)
      ensures writer == old(writer) || writer == null || fresh(writer)
    {
      if writer == null {
        ok := OpenFile(opens);
        if !ok {
          return;
        }
      }
      WriteEpb(writer, 0, elapsed, data, direction.Label(), connection);
      if direction == Request {
        requestCount := requestCount + 1;
      }
      if direction == Response && requestCount >= REQUESTS_PER_FILE {
        closed := closed + [DiskFile(openIndex, writer.bytes)];
        writer := null;
        requestCount := 0;
      }
      ok := true;
    }

    /** The next write, taken as a request or a response in turn. */
    method Write(bytes: Bytes, elapsed: u64, opens: bool) returns (ok: bool)
      modifies this, writer
      ensures View() == DiskNext(old(View()), Call(Record(bytes, Turn(old(nextIsRequest)), 0, elapsed), opens))
      ensures ok == (old(writer) != null || opens) && nextIsRequest == !old(nextIsRequest)
      ensures writer == old(writer) || writer == null || fresh(writer)
    {
      var direction := Turn(nextIsRequest);
      nextIsRequest := !nextIsRequest;
      ok := WriteEvent(bytes, direction, 0, elapsed, opens);
    }
  }
}
