/** A buffer of frames and raw bytes tagged with phases, which can be put into phase order. */
module PhasedBuffer {
  import opened Common

  /** Phases are compared, nothing else. */
  type Phase = nat

  datatype Entry =
    | Framed(phase: Phase, data: Bytes)
    | Passthrough(phase: Phase, data: Bytes)

  function DataOf(entries: seq<Entry>): Bytes {
    if entries == [] then [] else entries[0].data + DataOf(entries[1..])
  }

  /** The entries of one phase, in push order. */
  function Only(entries: seq<Entry>, p: Phase): seq<Entry> {
    if entries == [] then []
    else (if entries[0].phase == p then [entries[0]] else []) + Only(entries[1..], p)
  }

  ghost predicate Sorted(entries: seq<Entry>) {
    forall i, j :: 0 <= i < j < |entries| ==> entries[i].phase <= entries[j].phase
  }

  /** What `sort_by` with a phase comparison promises: order by phase, ties left alone. */
  ghost predicate StablySorted(before: seq<Entry>, after: seq<Entry>) {
    Sorted(after) && forall p :: Only(after, p) == Only(before, p)
  }

  // ----- the stable sort -----

  function Insert(e: Entry, entries: seq<Entry>): seq<Entry> {
    if entries == [] || e.phase <= entries[0].phase then [e] + entries
    else [entries[0]] + Insert(e, entries[1..])
  }

  function StableSort(entries: seq<Entry>): seq<Entry> {
    if entries == [] then [] else Insert(entries[0], StableSort(entries[1..]))
  }

  lemma {:induction false} OnlyAppend(a: seq<Entry>, b: seq<Entry>, p: Phase)
    ensures Only(a + b, p) == Only(a, p) + Only(b, p)
  {
    if a == [] {
      assert a + b == b;
    } else {
      OnlyAppend(a[1..], b, p);
      assert a + b == [a[0]] + (a[1..] + b) && a == [a[0]] + a[1..];
      OnlyFirst(a[0], a[1..] + b, p);
      OnlyFirst(a[0], a[1..], p);
    }
  }

  lemma OnlyFirst(e: Entry, entries: seq<Entry>, p: Phase)
    ensures Only([e] + entries, p) == (if e.phase == p then [e] else []) + Only(entries, p)
  {
    assert ([e] + entries)[1..] == entries;
  }

  lemma {:induction false} OnlyEmpty(entries: seq<Entry>, p: Phase)
    ensures Only(entries, p) == [] <==> forall i :: 0 <= i < |entries| ==> entries[i].phase != p
  {
    if entries != [] {
      OnlyEmpty(entries[1..], p);
      assert forall i :: 0 < i < |entries| ==> entries[i] == entries[1..][i - 1];
    }
  }

  lemma {:induction false} InsertSorts(e: Entry, entries: seq<Entry>)
    requires Sorted(entries)
    ensures Sorted(Insert(e, entries))
    ensures forall x :: x in Insert(e, entries) <==> x == e || x in entries
  {
    if entries != [] && e.phase > entries[0].phase {
      var tail := Insert(e, entries[1..]);
      InsertSorts(e, entries[1..]);
      assert forall x :: x in entries <==> x == entries[0] || x in entries[1..];
      forall i | 0 <= i < |tail| ensures entries[0].phase <= tail[i].phase {
        assert tail[i] in tail;
      }
    }
  }

  lemma {:induction false} InsertKeepsPhases(e: Entry, entries: seq<Entry>, p: Phase)
    requires Sorted(entries)
    ensures Only(Insert(e, entries), p) == Only([e] + entries, p)
  {
    assert ([e] + entries)[1..] == entries;
    if entries != [] && e.phase > entries[0].phase {
      var tail := Insert(e, entries[1..]);
      assert ([entries[0]] + tail)[1..] == tail;
      assert ([e] + entries[1..])[1..] == entries[1..];
      InsertKeepsPhases(e, entries[1..], p);
    }
  }

  /** The sort keeps its promise... */
  lemma {:induction false} SortIsStable(entries: seq<Entry>)
    ensures StablySorted(entries, StableSort(entries))
  {
    if entries != [] {
      var tail := StableSort(entries[1..]);
      SortIsStable(entries[1..]);
      InsertSorts(entries[0], tail);
      forall p ensures Only(StableSort(entries), p) == Only(entries, p) {
        InsertKeepsPhases(entries[0], tail, p);
        assert ([entries[0]] + tail)[1..] == tail;
      }
    }
  }

  lemma OnlyHead(entries: seq<Entry>)
    requires entries != []
    ensures var own := Only(entries, entries[0].phase); own != [] && own[0] == entries[0]
  {
  }

  lemma HeadIsLeast(entries: seq<Entry>, p: Phase)
    requires Sorted(entries) && Only(entries, p) != []
    ensures entries != [] && entries[0].phase <= p
  {
    OnlyEmpty(entries, p);
  }

  lemma SortedHead(a: seq<Entry>, b: seq<Entry>)
    requires Sorted(a) && Sorted(b) && a != []
    requires forall p :: Only(a, p) == Only(b, p)
    ensures b != [] && a[0] == b[0]
  {
    OnlyHead(a);
    HeadIsLeast(b, a[0].phase);
    OnlyHead(b);
    HeadIsLeast(a, b[0].phase);
  }

  /** ... and there is only one way to keep it. */
  lemma {:induction false} StableSortUnique(a: seq<Entry>, b: seq<Entry>)
    requires Sorted(a) && Sorted(b)
    requires forall p :: Only(a, p) == Only(b, p)
    ensures a == b
  {
    if a == [] {
      if b != [] {
        SortedHead(b, a);
      }
    } else {
      SortedHead(a, b);
      forall p ensures Only(a[1..], p) == Only(b[1..], p) {
        var head := if a[0].phase == p then [a[0]] else [];
        assert Only(a, p) == head + Only(a[1..], p) && Only(b, p) == head + Only(b[1..], p);
        assert Only(a, p)[|head|..] == Only(a[1..], p) && Only(b, p)[|head|..] == Only(b[1..], p);
      }
      StableSortUnique(a[1..], b[1..]);
      assert a == [a[0]] + a[1..] && b == [b[0]] + b[1..];
    }
  }

  /** Reordering twice is reordering once. */
  lemma SortIdempotent(entries: seq<Entry>)
    ensures StableSort(StableSort(entries)) == StableSort(entries)
  {
    SortIsStable(entries);
    SortIsStable(StableSort(entries));
    StableSortUnique(StableSort(StableSort(entries)), StableSort(entries));
  }

  // ----- phases and bytes of a sorted buffer -----

  /** Consecutive repetitions removed. */
  function DedupPhases(entries: seq<Entry>): seq<Phase> {
    if entries == [] then []
    else if |entries| > 1 && entries[1].phase == entries[0].phase then DedupPhases(entries[1..])
    else [entries[0].phase] + DedupPhases(entries[1..])
  }

  /** `runs[i]` is the place of the phase of entry `i` in `phases`, which starts anew at every change of phase. */
  ghost predicate Runs(entries: seq<Entry>, phases: seq<Phase>, runs: seq<nat>) {
    && |runs| == |entries|
    && (entries == [] ==> phases == [])
    && (entries != [] ==> runs[0] == 0 && runs[|runs| - 1] == |phases| - 1)
    && (forall i :: 0 <= i < |runs| ==> runs[i] < |phases| && phases[runs[i]] == entries[i].phase)
    && (forall i :: 0 < i < |runs| ==>
          runs[i] == runs[i - 1] + if entries[i].phase == entries[i - 1].phase then 0 else 1)
  }

  lemma RunsMore(e: Entry, entries: seq<Entry>, phases: seq<Phase>, runs: seq<nat>)
    requires Runs(entries, phases, runs)
    ensures entries != [] && entries[0].phase == e.phase ==> Runs([e] + entries, phases, [0] + runs)
    ensures entries == [] || entries[0].phase != e.phase ==>
              Runs([e] + entries, [e.phase] + phases, [0] + seq(|runs|, i requires 0 <= i < |runs| => runs[i] + 1))
  {
  }

  /** One phase for each run of entries with the same phase, in order. */
  lemma {:induction false} DedupIsRuns(entries: seq<Entry>) returns (runs: seq<nat>)
    ensures Runs(entries, DedupPhases(entries), runs)
  {
    if entries == [] {
      runs := [];
    } else {
      hide Runs;
      var rest := DedupIsRuns(entries[1..]);
      RunsMore(entries[0], entries[1..], DedupPhases(entries[1..]), rest);
      assert entries == [entries[0]] + entries[1..];
      runs := [0] + if |entries| > 1 && entries[1].phase == entries[0].phase then rest
                    else seq(|rest|, i requires 0 <= i < |rest| => rest[i] + 1);
    }
  }

  lemma {:induction false} RunsGrow(entries: seq<Entry>, phases: seq<Phase>, runs: seq<nat>, i: nat)
    requires Runs(entries, phases, runs) && 1 <= i < |runs|
    ensures runs[1] <= runs[i]
  {
    if i > 1 {
      RunsGrow(entries, phases, runs, i - 1);
    }
  }

  lemma RunsLess(entries: seq<Entry>, phases: seq<Phase>, runs: seq<nat>) returns (rest: seq<nat>)
    requires |entries| > 1 && Runs(entries, phases, runs)
    ensures phases != [] && phases[0] == entries[0].phase
    ensures Runs(entries[1..], if entries[1].phase == entries[0].phase then phases else phases[1..], rest)
  {
    forall i | 1 <= i < |runs| ensures runs[1] <= runs[i] {
      RunsGrow(entries, phases, runs, i);
    }
    rest := seq(|runs| - 1, i requires 0 <= i < |runs| - 1 => runs[i + 1] - runs[1]);
  }

  lemma OneRun(entries: seq<Entry>, phases: seq<Phase>, runs: seq<nat>)
    requires |entries| == 1 && Runs(entries, phases, runs)
    ensures phases == [entries[0].phase]
  {
    assert phases[0] == phases[runs[0]];
  }

  /** Exact: no other list of phases has such runs. */
  lemma {:induction false} RunsAreDedup(entries: seq<Entry>, phases: seq<Phase>, runs: seq<nat>)
    requires Runs(entries, phases, runs)
    ensures phases == DedupPhases(entries)
  {
    if |entries| == 1 {
      hide Runs;
      OneRun(entries, phases, runs);
    } else if |entries| > 1 {
      hide Runs;
      var rest := RunsLess(entries, phases, runs);
      if entries[1].phase == entries[0].phase {
        RunsAreDedup(entries[1..], phases, rest);
      } else {
        RunsAreDedup(entries[1..], phases[1..], rest);
        assert phases == [phases[0]] + phases[1..];
      }
    }
  }

  /** Every phase of an entry and no other is in the list, and no phase follows itself. */
  lemma {:induction false} DedupMeets(entries: seq<Entry>)
    ensures forall p :: p in DedupPhases(entries) <==> exists e :: e in entries && e.phase == p
    ensures entries != [] ==> DedupPhases(entries) != [] && DedupPhases(entries)[0] == entries[0].phase
    ensures forall i :: 0 < i < |DedupPhases(entries)| ==> DedupPhases(entries)[i] != DedupPhases(entries)[i - 1]
  {
    if entries != [] {
      DedupMeets(entries[1..]);
      assert entries == [entries[0]] + entries[1..];
    }
  }

  function BytesByPhase(entries: seq<Entry>, phases: seq<Phase>): Bytes {
    if phases == [] then [] else DataOf(Only(entries, phases[0])) + BytesByPhase(entries, phases[1..])
  }

  ghost predicate Increasing(phases: seq<Phase>) {
    forall i, j :: 0 <= i < j < |phases| ==> phases[i] < phases[j]
  }

  lemma {:induction false} DedupOfSorted(entries: seq<Entry>)
    requires Sorted(entries)
    ensures Increasing(DedupPhases(entries))
    ensures forall p :: p in DedupPhases(entries) <==> exists i :: 0 <= i < |entries| && entries[i].phase == p
    ensures entries != [] ==> DedupPhases(entries) != [] && DedupPhases(entries)[0] == entries[0].phase
  {
    DedupMeets(entries);
    if |entries| > 1 {
      var tail := entries[1..];
      DedupOfSorted(tail);
      if tail[0].phase != entries[0].phase {
        forall k | 0 <= k < |DedupPhases(tail)| ensures entries[0].phase < DedupPhases(tail)[k] {
          LaterIsMore(entries, DedupPhases(tail)[k]);
        }
      }
    }
  }

  lemma LaterIsMore(entries: seq<Entry>, p: Phase)
    requires Sorted(entries) && |entries| > 1 && entries[1].phase != entries[0].phase && p in DedupPhases(entries[1..])
    ensures entries[0].phase < p
  {
    DedupMeets(entries[1..]);
    var e :| e in entries[1..] && e.phase == p;
    var i :| 1 <= i < |entries| && entries[i] == e;
    assert entries[1].phase <= entries[i].phase;
  }

  lemma {:induction false} DataOfAppend(a: seq<Entry>, b: seq<Entry>)
    ensures DataOf(a + b) == DataOf(a) + DataOf(b)
  {
    if a == [] {
      assert a + b == b;
    } else {
      assert (a + b)[1..] == a[1..] + b;
      DataOfAppend(a[1..], b);
    }
  }

  /** An entry in front only shows up in its own phase. */
  lemma {:induction false} BytesWithout(e: Entry, entries: seq<Entry>, phases: seq<Phase>)
    requires e.phase !in phases
    ensures BytesByPhase([e] + entries, phases) == BytesByPhase(entries, phases)
  {
    if phases != [] {
      assert ([e] + entries)[1..] == entries;
      assert [] + Only(entries, phases[0]) == Only(entries, phases[0]);
      BytesWithout(e, entries, phases[1..]);
    }
  }

  /** The bytes of a sorted buffer are those of its phases, one phase after the other. */
  lemma {:induction false} SortedBytes(entries: seq<Entry>)
    requires Sorted(entries)
    ensures DataOf(entries) == BytesByPhase(entries, DedupPhases(entries))
  {
    if entries != [] {
      var e, tail := entries[0], entries[1..];
      var phases := DedupPhases(tail);
      assert entries == [e] + tail;
      SortedBytes(tail);
      DedupOfSorted(tail);
      if tail != [] && tail[0].phase == e.phase {
        OldPhase(e, tail, phases);
      } else {
        NewPhase(e, tail);
      }
    }
  }

  lemma OldPhase(e: Entry, tail: seq<Entry>, phases: seq<Phase>)
    requires phases != [] && phases[0] == e.phase && e.phase !in phases[1..]
    requires DataOf(tail) == BytesByPhase(tail, phases)
    ensures DataOf([e] + tail) == BytesByPhase([e] + tail, phases)
  {
    PhaseFirst([e] + tail, e.phase, phases[1..]);
    PhaseFirst(tail, e.phase, phases[1..]);
    assert phases == [e.phase] + phases[1..];
    hide DataOf, Only, BytesByPhase;
    BytesWithout(e, tail, phases[1..]);
    OneMoreOf(e, tail);
    Reassociate(e.data, DataOf(Only(tail, e.phase)), BytesByPhase(tail, phases[1..]));
  }

  lemma OneMoreOf(e: Entry, tail: seq<Entry>)
    ensures DataOf(Only([e] + tail, e.phase)) == e.data + DataOf(Only(tail, e.phase))
    ensures DataOf([e] + tail) == e.data + DataOf(tail)
  {
    assert ([e] + tail)[1..] == tail;
    assert ([e] + Only(tail, e.phase))[1..] == Only(tail, e.phase);
  }

  lemma Reassociate(a: Bytes, b: Bytes, c: Bytes)
    ensures a + (b + c) == a + b + c
  {
  }

  lemma NewPhase(e: Entry, tail: seq<Entry>)
    requires Sorted([e] + tail) && Sorted(tail) && (tail != [] ==> tail[0].phase != e.phase)
    requires DataOf(tail) == BytesByPhase(tail, DedupPhases(tail))
    ensures DataOf([e] + tail) == BytesByPhase([e] + tail, [e.phase] + DedupPhases(tail))
  {
    assert DataOf([]) == [];
    hide DataOf, Only, BytesByPhase, DedupPhases, Sorted;
    var phases := DedupPhases(tail);
    PhaseIsNew(e, tail);
    BytesWithout(e, tail, phases);
    OneMoreOf(e, tail);
    PhaseFirst([e] + tail, e.phase, phases);
  }

  lemma PhaseFirst(entries: seq<Entry>, p: Phase, phases: seq<Phase>)
    ensures BytesByPhase(entries, [p] + phases) == DataOf(Only(entries, p)) + BytesByPhase(entries, phases)
  {
    assert ([p] + phases)[1..] == phases;
  }

  lemma PhaseIsNew(e: Entry, tail: seq<Entry>)
    requires Sorted([e] + tail) && Sorted(tail) && (tail != [] ==> tail[0].phase != e.phase)
    ensures Only(tail, e.phase) == [] && e.phase !in DedupPhases(tail)
  {
    DedupOfSorted(tail);
    if tail != [] {
      assert ([e] + tail)[0] == e && ([e] + tail)[1] == tail[0];
      assert e.phase < tail[0].phase;
      assert forall i :: 0 <= i < |tail| ==> tail[0].phase <= tail[i].phase;
    }
    OnlyEmpty(tail, e.phase);
  }

  // ----- the buffer -----

  class Buffer {
    var entries: seq<Entry>
    var byteCount: nat

    ghost predicate Valid()
      reads this
    {
      byteCount == |DataOf(entries)|
    }

    constructor ()
      ensures Valid() && entries == []
    {
      entries := [];
      byteCount := 0;
    }

    method PushFrame(phase: Phase, data: Bytes)
      requires Valid()
      modifies this
      ensures Valid() && entries == old(entries) + [Framed(phase, data)]
    {
      byteCount := byteCount + |data|;
      DataOfAppend(entries, [Framed(phase, data)]);
      assert DataOf([Framed(phase, data)]) == data + DataOf([]);
      entries := entries + [Framed(phase, data)];
    }

    method PushPassthrough(phase: Phase, data: Bytes)
      requires Valid()
      modifies this
      ensures Valid() && entries == old(entries) + [Passthrough(phase, data)]
    {
      byteCount := byteCount + |data|;
      DataOfAppend(entries, [Passthrough(phase, data)]);
      assert DataOf([Passthrough(phase, data)]) == data + DataOf([]);
      entries := entries + [Passthrough(phase, data)];
    }

    /** Phase order, push order within a phase; the same bytes in all. */
    method Reorder()
      requires Valid()
      modifies this
      ensures Valid() && entries == StableSort(old(entries))
      ensures StablySorted(old(entries), entries) && byteCount == old(byteCount)
    {
      SortIsStable(entries);
      SortKeepsLength(entries);
      entries := StableSort(entries);
    }

    /** The frozen bytes; as many as the byte count says. */
    method Freeze() returns (buf: Bytes)
      requires Valid()
      ensures buf == DataOf(entries) && |buf| == byteCount
    {
      buf := [];
      for i := 0 to |entries|
        invariant buf == DataOf(entries[..i])
      {
        assert entries[..i + 1] == entries[..i] + [entries[i]];
        DataOfAppend(entries[..i], [entries[i]]);
        assert DataOf([entries[i]]) == entries[i].data + DataOf([]);
        buf := buf + entries[i].data;
      }
      assert entries[..|entries|] == entries;
    }

    /** The phases met, in order, without consecutive repetitions. */
    function PhasesPresent(): (phases: seq<Phase>)
      reads this
      ensures forall p :: p in phases <==> exists e :: e in entries && e.phase == p
      ensures forall i :: 0 < i < |phases| ==> phases[i] != phases[i - 1]
    {
      DedupMeets(entries);
      DedupPhases(entries)
    }
  }

  lemma {:induction false} InsertLength(e: Entry, entries: seq<Entry>)
    ensures |DataOf(Insert(e, entries))| == |e.data| + |DataOf(entries)|
  {
    if entries == [] || e.phase <= entries[0].phase {
      assert ([e] + entries)[1..] == entries;
    } else {
      InsertLength(e, entries[1..]);
      assert ([entries[0]] + Insert(e, entries[1..]))[1..] == Insert(e, entries[1..]);
    }
  }

  lemma {:induction false} SortKeepsLength(entries: seq<Entry>)
    ensures |DataOf(StableSort(entries))| == |DataOf(entries)|
  {
    if entries != [] {
      SortKeepsLength(entries[1..]);
      InsertLength(entries[0], StableSort(entries[1..]));
    }
  }

  /**
   * Freezing a reordered buffer gives the bytes phase by phase, each phase in push order; the phases
   * then come in strictly increasing order, and are exactly those that were pushed.
   */
  lemma ReorderedFreeze(entries: seq<Entry>)
    ensures var after := StableSort(entries);
            var phases := DedupPhases(after);
            && Increasing(phases)
            && (forall p :: p in phases <==> Only(entries, p) != [])
            && DataOf(after) == BytesByPhase(entries, phases)
  {
    var after := StableSort(entries);
    var phases := DedupPhases(after);
    SortIsStable(entries);
    DedupOfSorted(after);
    SortedBytes(after);
    SamePhaseBytes(after, entries, phases);
    forall p ensures p in phases <==> Only(entries, p) != [] {
      OnlyEmpty(after, p);
    }
  }

  lemma {:induction false} SamePhaseBytes(a: seq<Entry>, b: seq<Entry>, phases: seq<Phase>)
    requires forall p :: Only(a, p) == Only(b, p)
    ensures BytesByPhase(a, phases) == BytesByPhase(b, phases)
  {
    if phases != [] {
      SamePhaseBytes(a, b, phases[1..]);
    }
  }
}
