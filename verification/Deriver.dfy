/**
 * The derive session: one deduplicated list of matchers that records, per matcher, the first value
 * it saw and whether a later line disagreed with it.
 */
module Deriver {
  import opened Common
  import opened HttpFrames
  import opened Matchers

  /** One call of `feed`. */
  datatype Fed = Fed(phase: HttpPhase, data: Bytes)

  /** What a matcher makes of a fed line; lines of another phase are skipped. */
  function Hit(m: Matcher, e: Fed): Option<Bytes> {
    if m.Phase() == e.phase then TryMatch(m, e.data) else None
  }

  /** The value of a session. */
  datatype Session = Session(matchers: seq<Matcher>, results: seq<Option<Bytes>>, conflicts: seq<bool>) {
    predicate Valid() {
      |results| == |matchers| && |conflicts| == |matchers|
    }

    function Feed(e: Fed): (r: Session)
      requires Valid()
      ensures r.Valid() && r.matchers == matchers
    {
      Session(matchers,
              seq(|matchers|, i requires 0 <= i < |matchers| => FeedResult(matchers[i], results[i], e)),
              seq(|matchers|, i requires 0 <= i < |matchers| => FeedConflict(matchers[i], results[i], conflicts[i], e)))
    }

    /** The stored value of `m`, when the session watches `m` at all. */
    function ResultOf(m: Matcher): Option<Bytes>
      requires Valid()
    {
      match Position(matchers, m)
      case None => None
      case Some(i) => results[i]
    }

    predicate ConflictOf(m: Matcher)
      requires Valid()
    {
      match Position(matchers, m)
      case None => false
      case Some(i) => conflicts[i]
    }

    function ResultsFor(ms: seq<Matcher>): seq<Option<Bytes>>
      requires Valid()
    {
      seq(|ms|, i requires 0 <= i < |ms| => ResultOf(ms[i]))
    }

    predicate HasConflictsFor(ms: seq<Matcher>)
      requires Valid()
    {
      exists i :: 0 <= i < |ms| && ConflictOf(ms[i])
    }
  }

  function FeedResult(m: Matcher, result: Option<Bytes>, e: Fed): Option<Bytes> {
    if result.None? then Hit(m, e) else result
  }

  predicate FeedConflict(m: Matcher, result: Option<Bytes>, conflict: bool, e: Fed) {
    conflict || (result.Some? && Hit(m, e).Some? && Hit(m, e) != result)
  }

  function Position(ms: seq<Matcher>, m: Matcher): (r: Option<nat>)
    ensures r.Some? ==> r.value < |ms| && ms[r.value] == m
    ensures r.None? ==> m !in ms
  {
    if ms == [] then None
    else if ms[0] == m then Some(0)
    else match Position(ms[1..], m)
      case None => None
      case Some(i) => Some(i + 1)
  }

  /** First occurrences only, in order. */
  function Dedup(ms: seq<Matcher>): (r: seq<Matcher>)
    ensures forall m :: m in r <==> m in ms
    ensures forall i, j :: 0 <= i < j < |r| ==> r[i] != r[j]
  {
    if ms == [] then []
    else
      var init, last := ms[..|ms| - 1], ms[|ms| - 1];
      assert ms == init + [last];
      if last in init then Dedup(init) else Dedup(init) + [last]
  }

  function NewSession(ms: seq<Matcher>): (r: Session)
    ensures r.Valid()
  {
    var d := Dedup(ms);
    Session(d, seq(|d|, _ => None), seq(|d|, _ => false))
  }

  function FeedAll(s: Session, log: seq<Fed>): (r: Session)
    requires s.Valid()
    ensures r.Valid() && r.matchers == s.matchers
  {
    if log == [] then s else FeedAll(s, log[..|log| - 1]).Feed(log[|log| - 1])
  }

  // ----- the session object -----

  class DeriverSession {
    const matchers: seq<Matcher>
    var results: seq<Option<Bytes>>
    var conflicts: seq<bool>

    function View(): Session
      reads this
    {
      Session(matchers, results, conflicts)
    }

    ghost predicate Valid()
      reads this
    {
      View().Valid()
    }

    constructor (ms: seq<Matcher>)
      ensures Valid() && View() == NewSession(ms)
    {
      var deduped := DedupInto(ms);
      matchers := deduped;
      results := seq(|deduped|, _ => None);
      conflicts := seq(|deduped|, _ => false);
    }

    static method DedupInto(ms: seq<Matcher>) returns (r: seq<Matcher>)
      ensures r == Dedup(ms)
    {
      var seen: set<Matcher> := {};
      r := [];
      for i := 0 to |ms|
        invariant r == Dedup(ms[..i])
        invariant seen == set m | m in ms[..i]
      {
        assert ms[..i + 1] == ms[..i] + [ms[i]];
        if ms[i] !in seen {
          r := r + [ms[i]];
          seen := seen + {ms[i]};
        }
      }
      assert ms[..|ms|] == ms;
    }

    method Feed(phase: HttpPhase, data: Bytes)
      requires Valid()
      modifies this
      ensures Valid()
      ensures View() == old(View()).Feed(Fed(phase, data))
    {
      ghost var e := Fed(phase, data);
      for i := 0 to |matchers|
        invariant Valid()
        invariant forall j :: 0 <= j < i ==> results[j] == FeedResult(matchers[j], old(results)[j], e)
        invariant forall j :: 0 <= j < i ==> conflicts[j] == FeedConflict(matchers[j], old(results)[j], old(conflicts)[j], e)
        invariant forall j :: i <= j < |matchers| ==> results[j] == old(results)[j] && conflicts[j] == old(conflicts)[j]
      {
        if matchers[i].Phase() != phase {
          continue;
        }
        var found := TryMatch(matchers[i], data);
        match results[i]
        case None =>
          results := results[i := found];
        case Some(existing) =>
          if found.Some? && found.value != existing {
            conflicts := conflicts[i := true];
          }
      }
    }
  }

  // ----- what a session means -----

  /** The value of the first fed line the matcher hits. */
  function FirstHit(m: Matcher, log: seq<Fed>): (r: Option<Bytes>)
    ensures r.None? <==> forall e :: e in log ==> Hit(m, e).None?
    ensures r.Some? ==> exists i :: 0 <= i < |log| && Hit(m, log[i]) == r && forall j :: 0 <= j < i ==> Hit(m, log[j]).None?
  {
    if log == [] then None
    else if Hit(m, log[0]).Some? then Hit(m, log[0])
    else
      var r := FirstHit(m, log[1..]);
      assert forall e :: e in log <==> e == log[0] || e in log[1..];
      assert r.Some? ==> exists i :: 0 < i < |log| && Hit(m, log[i]) == r && forall j :: 0 <= j < i ==> Hit(m, log[j]).None? by {
        if r.Some? {
          var k :| 0 <= k < |log[1..]| && Hit(m, log[1..][k]) == r && forall j :: 0 <= j < k ==> Hit(m, log[1..][j]).None?;
          assert Hit(m, log[k + 1]) == r;
          assert forall j :: 0 < j < k + 1 ==> log[j] == log[1..][j - 1];
        }
      }
      r
  }

  lemma {:induction false} FirstHitAt(m: Matcher, log: seq<Fed>, i: nat)
    requires i < |log| && Hit(m, log[i]).Some?
    requires forall j :: 0 <= j < i ==> Hit(m, log[j]).None?
    ensures FirstHit(m, log) == Hit(m, log[i])
  {
    if i > 0 {
      FirstHitAt(m, log[1..], i - 1);
    }
  }

  /** Two fed lines give the matcher different values. */
  ghost predicate Disagree(m: Matcher, log: seq<Fed>) {
    exists a, b :: a in log && b in log && Hit(m, a).Some? && Hit(m, b).Some? && Hit(m, a) != Hit(m, b)
  }

  lemma {:induction false} FirstHitSnoc(m: Matcher, log: seq<Fed>, e: Fed)
    ensures FirstHit(m, log + [e]) == if FirstHit(m, log).Some? then FirstHit(m, log) else Hit(m, e)
  {
    if log == [] {
      assert log + [e] == [e];
    } else {
      assert (log + [e])[1..] == log[1..] + [e];
      FirstHitSnoc(m, log[1..], e);
    }
  }

  lemma DisagreeGrows(m: Matcher, log: seq<Fed>, e: Fed, i: nat)
    requires i < |log| && Hit(m, log[i]).Some?
    requires Disagree(m, log) || (Hit(m, e).Some? && Hit(m, e) != Hit(m, log[i]))
    ensures Disagree(m, log + [e])
  {
    hide Hit;
    assert forall x :: x in log ==> x in log + [e];
    assert e in log + [e] && log[i] in log + [e];
  }

  lemma DisagreeShrinks(m: Matcher, log: seq<Fed>, e: Fed, i: nat)
    requires i < |log| && Hit(m, log[i]).Some?
    requires Disagree(m, log + [e]) && !(Hit(m, e).Some? && Hit(m, e) != Hit(m, log[i]))
    ensures Disagree(m, log)
  {
    hide Hit;
    var a, b :| a in log + [e] && b in log + [e] && Hit(m, a).Some? && Hit(m, b).Some? && Hit(m, a) != Hit(m, b);
    var a', b' := if a in log then a else log[i], if b in log then b else log[i];
    assert log[i] in log && Hit(m, a') != Hit(m, b');
  }

  lemma DisagreeSnoc(m: Matcher, log: seq<Fed>, e: Fed)
    ensures Disagree(m, log + [e]) <==>
            Disagree(m, log) || (FirstHit(m, log).Some? && Hit(m, e).Some? && Hit(m, e) != FirstHit(m, log))
  {
    if FirstHit(m, log).Some? {
      var i :| 0 <= i < |log| && Hit(m, log[i]) == FirstHit(m, log);
      if Disagree(m, log + [e]) {
        if Hit(m, e).None? || Hit(m, e) == FirstHit(m, log) {
          DisagreeShrinks(m, log, e, i);
        }
      } else if Disagree(m, log) || (Hit(m, e).Some? && Hit(m, e) != FirstHit(m, log)) {
        DisagreeGrows(m, log, e, i);
      }
    } else {
      assert forall x :: x in log + [e] <==> x in log || x == e;
    }
  }

  lemma {:induction false} SessionAt(ms: seq<Matcher>, log: seq<Fed>, i: nat)
    requires i < |Dedup(ms)|
    ensures var s := FeedAll(NewSession(ms), log);
            && s.matchers == Dedup(ms)
            && s.results[i] == FirstHit(Dedup(ms)[i], log)
            && (s.conflicts[i] <==> Disagree(Dedup(ms)[i], log))
  {
    if log != [] {
      var init, e := log[..|log| - 1], log[|log| - 1];
      assert log == init + [e];
      SessionAt(ms, init, i);
      FirstHitSnoc(Dedup(ms)[i], init, e);
      DisagreeSnoc(Dedup(ms)[i], init, e);
    }
  }

  /** After any feeds: the stored value is the first match, and the flag says two matches differ. */
  lemma SessionMeaning(ms: seq<Matcher>, log: seq<Fed>, m: Matcher)
    requires m in ms
    ensures var s := FeedAll(NewSession(ms), log);
            s.ResultOf(m) == FirstHit(m, log) && (s.ConflictOf(m) <==> Disagree(m, log))
  {
    var d := Dedup(ms);
    var i := Position(d, m).value;
    SessionAt(ms, log, i);
  }

  /** A formula reads from a shared session what a session of its own would have told it. */
  lemma NonInterference(shared: seq<Matcher>, own: seq<Matcher>, log: seq<Fed>)
    requires forall m :: m in own ==> m in shared
    ensures var s, t := FeedAll(NewSession(shared), log), FeedAll(NewSession(own), log);
            && s.ResultsFor(own) == t.ResultsFor(own)
            && (s.HasConflictsFor(own) <==> t.HasConflictsFor(own))
  {
    var s, t := FeedAll(NewSession(shared), log), FeedAll(NewSession(own), log);
    forall i | 0 <= i < |own|
      ensures s.ResultOf(own[i]) == t.ResultOf(own[i]) && (s.ConflictOf(own[i]) <==> t.ConflictOf(own[i]))
    {
      SessionMeaning(shared, log, own[i]);
      SessionMeaning(own, log, own[i]);
    }
  }

  /** The same lines, in any order and any number. */
  ghost predicate SameLines(a: seq<Fed>, b: seq<Fed>) {
    forall e :: e in a <==> e in b
  }

  /** Conflicts do not depend on order, and without a conflict neither do the values. */
  lemma OrderIrrelevant(m: Matcher, a: seq<Fed>, b: seq<Fed>)
    requires SameLines(a, b)
    ensures Disagree(m, a) <==> Disagree(m, b)
    ensures FirstHit(m, a).Some? <==> FirstHit(m, b).Some?
    ensures !Disagree(m, a) ==> FirstHit(m, a) == FirstHit(m, b)
  {
    if FirstHit(m, a).Some? && FirstHit(m, b).Some? {
      var i :| 0 <= i < |a| && Hit(m, a[i]) == FirstHit(m, a);
      var j :| 0 <= j < |b| && Hit(m, b[j]) == FirstHit(m, b);
      assert a[i] in a && b[j] in b;
    }
  }
}
