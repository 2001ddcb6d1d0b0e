/** The connection hook that inspects request heads before anything is written upstream. */
module Hook {
  import opened Common
  import opened HttpFrames
  import opened Matchers
  import opened Deriver
  import opened HttpDerive

  datatype Verdict = Accepted | LengthAndEncoding | ConflictingValues

  predicate Inspected(frame: HttpFrame) {
    frame.phase != EndOfHeaders && frame.phase != HttpPhase.Body
  }

  /** The lines the hook feeds its session for a run of frames. */
  function Lines(frames: seq<HttpFrame>): seq<Fed> {
    if frames == [] then []
    else
      var last := frames[|frames| - 1];
      Lines(frames[..|frames| - 1]) + if Inspected(last) then [Fed(last.phase, last.data)] else []
  }

  function Validate(s: Session): Verdict
    requires s.Valid()
  {
    var d := ResolveAll(s);
    if d.clTeConflict then LengthAndEncoding
    else if d.hasConflicts then ConflictingValues
    else Accepted
  }

  predicate WantsClose(s: Session)
    requires s.Valid()
  {
    ResolveAll(s).connection == Close
  }

  class HttpDeriverHook {
    var session: DeriverSession
    ghost var seen: seq<HttpFrame>

    ghost predicate Valid()
      reads this, session
    {
      session.Valid() && session.View() == SessionAfter(Lines(seen))
    }

    constructor ()
      ensures Valid() && fresh(session) && seen == []
    {
      session := new DeriverSession(AllMatchers());
      seen := [];
    }

    method OnFrame(frame: HttpFrame)
      requires Valid()
      modifies this`seen, session
      ensures Valid() && session == old(session)
      ensures seen == old(seen) + [frame]
    {
      seen := seen + [frame];
      assert seen[..|seen| - 1] == old(seen);
      if frame.phase == EndOfHeaders || frame.phase == HttpPhase.Body {
        assert Lines(seen) == Lines(old(seen));
        return;
      }
      session.Feed(frame.phase, frame.data);
      FeedAllSnoc(NewSession(AllMatchers()), Lines(old(seen)), Fed(frame.phase, frame.data));
    }

    method Validate() returns (v: Verdict)
      requires Valid()
      ensures v == VerdictOn(Lines(seen))
    {
      var d := ResolveAll(session.View());
      ValidateMeaning(Lines(seen));
      if d.clTeConflict {
        return LengthAndEncoding;
      }
      if d.hasConflicts {
        return ConflictingValues;
      }
      return Accepted;
    }

    method Reset()
      requires Valid()
      modifies this
      ensures Valid() && fresh(session) && seen == []
    {
      session := new DeriverSession(AllMatchers());
      seen := [];
    }

    method ShouldCloseConnection() returns (close: bool)
      requires Valid()
      ensures close == WantsClose(SessionAfter(Lines(seen)))
    {
      var d := ResolveAll(session.View());
      close := d.connection == Close;
    }
  }

  lemma FeedAllSnoc(s: Session, log: seq<Fed>, e: Fed)
    requires s.Valid()
    ensures FeedAll(s, log + [e]) == FeedAll(s, log).Feed(e)
  {
    assert (log + [e])[..|log|] == log;
  }

  // ----- what acceptance means -----

  ghost predicate Present(name: Bytes, log: seq<Fed>) {
    exists e :: e in log && Hit(HeaderName(name), e).Some?
  }

  /** The verdict, stated on the lines alone. */
  ghost function VerdictOn(log: seq<Fed>): Verdict {
    if Present(CONTENT_LENGTH, log) && Present(TRANSFER_ENCODING, log) then LengthAndEncoding
    else if Ambiguous(log) then ConflictingValues
    else Accepted
  }

  lemma PresentIsHit(name: Bytes, log: seq<Fed>)
    ensures Present(name, log) <==> FirstHit(HeaderName(name), log).Some?
  {
  }

  /**
   * A request head is accepted exactly when it does not carry both Content-Length and
   * Transfer-Encoding and no watched header (or the version) has two different values.
   */
  lemma ValidateMeaning(log: seq<Fed>)
    ensures Validate(SessionAfter(log)) == VerdictOn(log)
  {
    ResolveAllMeaning(log);
    PresentIsHit(CONTENT_LENGTH, log);
    PresentIsHit(TRANSFER_ENCODING, log);
  }

  lemma {:induction false} LinesHave(frames: seq<HttpFrame>, e: Fed)
    ensures e in Lines(frames) <==> exists f :: f in frames && Inspected(f) && Fed(f.phase, f.data) == e
  {
    if frames != [] {
      var init, last := frames[..|frames| - 1], frames[|frames| - 1];
      assert frames == init + [last];
      LinesHave(init, e);
    }
  }

  /** Permuting the head changes neither the verdict nor, once accepted, anything derived from it. */
  lemma HeaderOrderIrrelevant(a: seq<HttpFrame>, b: seq<HttpFrame>)
    requires multiset(a) == multiset(b)
    ensures var s, t := SessionAfter(Lines(a)), SessionAfter(Lines(b));
            && Validate(s) == Validate(t)
            && (Validate(s) == Accepted ==> ResolveAll(s) == ResolveAll(t))
            && (Validate(s) == Accepted ==> WantsClose(s) == WantsClose(t))
  {
    forall e
      ensures e in Lines(a) <==> e in Lines(b)
    {
      LinesHave(a, e);
      LinesHave(b, e);
      forall f
        ensures f in a <==> f in b
      {
        assert f in a <==> f in multiset(a);
        assert f in b <==> f in multiset(b);
      }
    }
    ResolveAllOrderIrrelevant(Lines(a), Lines(b));
  }
}
