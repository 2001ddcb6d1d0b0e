/** The driver as it runs: one loop over requests, with its buffers, counters and exits. */
module DriverLoop {
  import opened Common
  import opened Events
  import opened Driver

  // ----- what the loops have done so far -----

  /** Taking one more item moves it from what is left to what is done. */
  lemma AcceptSnoc<F>(cfg: Config<F>, taken: seq<ParsedData<F>>, d: ParsedData<F>, s: Scan<F>)
    ensures AcceptAll(cfg, taken, Accept(cfg, d, s)) == AcceptAll(cfg, taken + [d], s)
    ensures RawLength(cfg, taken + [d]) == RawLength(cfg, taken) + |Raw(cfg, d)|
  {
    assert taken + ([d] + s.taken) == taken + [d] + s.taken;
    TakenSnoc(cfg, taken, d);
  }

  lemma TakenSnoc<F>(cfg: Config<F>, taken: seq<ParsedData<F>>, d: ParsedData<F>)
    ensures RawLength(cfg, taken + [d]) == RawLength(cfg, taken) + |Raw(cfg, d)|
    ensures Outgoing(cfg, taken + [d]) == Outgoing(cfg, taken) + Processed(cfg, d)
    ensures Frames(taken + [d]) == Frames(taken) + Show(d)
  {
    RawLengthAppend(cfg, taken, [d]);
    FramesAppend(taken, [d]);
    OutgoingAppend(cfg, taken, [d]);
    assert [d][1..] == [];
    assert Outgoing(cfg, [d]) == Processed(cfg, d) + [];
  }

  /** The scan of `events`, known to end in `goal`, with `taken` already accepted. */
  ghost predicate Remaining<F>(cfg: Config<F>, max: nat, stopAtKey: bool, events: seq<Event<F>>, taken: seq<ParsedData<F>>, goal: Scan<F>) {
    goal == AcceptAll(cfg, taken, ScanItems(cfg, max, stopAtKey, events, RawLength(cfg, taken)))
  }

  lemma NothingRead<F>(cfg: Config<F>, max: nat, stopAtKey: bool, events: seq<Event<F>>)
    ensures Remaining(cfg, max, stopAtKey, events, [], ScanItems(cfg, max, stopAtKey, events, 0))
    ensures Holds(cfg, [], [], [], 0, 0)
  {
    var scan := ScanItems(cfg, max, stopAtKey, events, 0);
    assert [] + scan.taken == scan.taken;
  }

  lemma StopsHere<F>(cfg: Config<F>, max: nat, stopAtKey: bool, events: seq<Event<F>>, taken: seq<ParsedData<F>>, goal: Scan<F>)
    requires Remaining(cfg, max, stopAtKey, events, taken, goal)
    ensures var raw, frames := RawLength(cfg, taken), |Frames(taken)|;
            && (events == [] ==> goal == Scan(taken, |taken|, raw, frames, Ended))
            && (events != [] && events[0].End? ==> goal == Scan(taken, |taken| + 1, raw, frames, Ended))
            && (events != [] && events[0].Broken? ==> goal == Scan(taken, |taken| + 1, raw, frames, BrokenBy(events[0].kind)))
  {
    assert taken + [] == taken;
  }

  lemma GoesOver<F>(cfg: Config<F>, max: nat, stopAtKey: bool, events: seq<Event<F>>, d: ParsedData<F>, taken: seq<ParsedData<F>>, goal: Scan<F>)
    requires Remaining(cfg, max, stopAtKey, events, taken, goal)
    requires events != [] && events[0] == Item(d) && RawLength(cfg, taken) + |Raw(cfg, d)| > max
    ensures goal == Scan(taken, |taken| + 1, RawLength(cfg, taken) + |Raw(cfg, d)|, |Frames(taken)| + One(d), Overflow)
  {
    assert taken + [] == taken;
  }

  lemma StopsBehindKey<F>(cfg: Config<F>, max: nat, events: seq<Event<F>>, d: ParsedData<F>, taken: seq<ParsedData<F>>, goal: Scan<F>)
    requires Remaining(cfg, max, true, events, taken, goal)
    requires events != [] && events[0] == Item(d) && RawLength(cfg, taken) + |Raw(cfg, d)| <= max && Key(cfg, d).Some?
    ensures var all := taken + [d];
            goal == Scan(all, |all|, RawLength(cfg, all), |Frames(all)|, Routed(Key(cfg, d).value))
  {
    var stop := Routed(Key(cfg, d).value);
    AcceptSnoc(cfg, taken, d, Scan([], 0, 0, 0, stop));
    assert [d] + [] == [d] && taken + [d] + [] == taken + [d];
    assert goal == AcceptAll(cfg, taken, Accept(cfg, d, Scan([], 0, 0, 0, stop)));
  }

  lemma GoesOn<F>(cfg: Config<F>, max: nat, stopAtKey: bool, events: seq<Event<F>>, d: ParsedData<F>, taken: seq<ParsedData<F>>, goal: Scan<F>)
    requires Remaining(cfg, max, stopAtKey, events, taken, goal)
    requires events != [] && events[0] == Item(d) && RawLength(cfg, taken) + |Raw(cfg, d)| <= max && !(stopAtKey && Key(cfg, d).Some?)
    ensures Remaining(cfg, max, stopAtKey, events[1..], taken + [d], goal)
  {
    AcceptSnoc(cfg, taken, d, ScanItems(cfg, max, stopAtKey, events[1..], RawLength(cfg, taken) + |Raw(cfg, d)|));
    hide AcceptAll, Accept, Raw, RawLength, Frames, Key;
  }

  /** An item is taken, unless it goes over the budget; reading stops there, and behind a routing key. */
  lemma ItemRead<F>(cfg: Config<F>, max: nat, stopAtKey: bool, events: seq<Event<F>>, d: ParsedData<F>, taken: seq<ParsedData<F>>, goal: Scan<F>,
                    buf: seq<Bytes>, seen: seq<F>, raw: nat, frames: nat)
    requires Remaining(cfg, max, stopAtKey, events, taken, goal) && Holds(cfg, taken, buf, seen, raw, frames)
    requires events != [] && events[0] == Item(d)
    ensures var all, raw', frames' := taken + [d], raw + |Raw(cfg, d)|, frames + One(d);
            if raw' > max then goal == Scan(taken, |taken| + 1, raw', frames', Overflow)
            else
              && Holds(cfg, all, buf + [Processed(cfg, d)], if d.Parsed? then seen + [d.frame] else seen, raw', frames')
              && if stopAtKey && Key(cfg, d).Some? then goal == Scan(all, |all|, raw', frames', Routed(Key(cfg, d).value))
                 else Remaining(cfg, max, stopAtKey, events[1..], all, goal)
  {
    hide Remaining, Raw, Processed, Key, One;
    HoldsOneMore(cfg, taken, d, buf, seen, raw, frames);
    if raw + |Raw(cfg, d)| > max {
      GoesOver(cfg, max, stopAtKey, events, d, taken, goal);
    } else if stopAtKey && Key(cfg, d).Some? {
      StopsBehindKey(cfg, max, events, d, taken, goal);
    } else {
      GoesOn(cfg, max, stopAtKey, events, d, taken, goal);
    }
  }

  /** The buffer, the hook's frames and both counts belong to the items taken. */
  ghost predicate Holds<F>(cfg: Config<F>, taken: seq<ParsedData<F>>, buf: seq<Bytes>, seen: seq<F>, raw: nat, frames: nat) {
    && Concat(buf) == Outgoing(cfg, taken) && |buf| == |taken|
    && seen == Frames(taken) && frames == |Frames(taken)|
    && raw == RawLength(cfg, taken)
  }

  lemma HoldsOneMore<F>(cfg: Config<F>, taken: seq<ParsedData<F>>, d: ParsedData<F>, buf: seq<Bytes>, seen: seq<F>, raw: nat, frames: nat)
    requires Holds(cfg, taken, buf, seen, raw, frames)
    ensures Holds(cfg, taken + [d], buf + [Processed(cfg, d)], if d.Parsed? then seen + [d.frame] else seen,
                  raw + |Raw(cfg, d)|, frames + One(d))
  {
    TakenSnoc(cfg, taken, d);
    ConcatSnoc(buf, Processed(cfg, d));
    assert seen + [] == seen;
  }

  function Before<F>(writes: seq<Bytes>, size: nat, seen: seq<F>, r: RelayLog<F>): RelayLog<F> {
    RelayLog(writes + r.writes, size + r.size, seen + r.seen, r.end)
  }

  lemma BeforeSnoc<F>(writes: seq<Bytes>, size: nat, seen: seq<F>, bytes: Bytes, d: ParsedData<F>, more: seq<Bytes>, r: RelayLog<F>)
    ensures Before(writes, size, seen, Relayed(bytes, d, more, r)) == Before(writes + more, size + |bytes|, seen + Show(d), r)
  {
    assert writes + (more + r.writes) == writes + more + r.writes;
    assert seen + (Show(d) + r.seen) == seen + Show(d) + r.seen;
  }

  /** The relay of `events`, known to end in `goal`, with some writes made and `batch` unsent. */
  ghost predicate StillToRelay<F>(cfg: Config<F>, side: ResponseSide<F>, ok: nat -> bool, events: seq<Event<F>>, batch: Bytes,
                                  writes: seq<Bytes>, size: nat, seen: seq<F>, goal: RelayLog<F>) {
    goal == Before(writes, size, seen, RelayItems(cfg, side, ok, events, batch, |writes|))
  }

  lemma RelayGoesOn<F>(cfg: Config<F>, side: ResponseSide<F>, ok: nat -> bool, events: seq<Event<F>>, d: ParsedData<F>, batch: Bytes,
                       writes: seq<Bytes>, size: nat, seen: seq<F>, goal: RelayLog<F>)
    requires StillToRelay(cfg, side, ok, events, batch, writes, size, seen, goal)
    requires events != [] && events[0] == Item(d)
    ensures var bytes := ProcessedResponse(cfg, side, d);
            var full := batch + bytes;
            if |full| <= BATCH_LIMIT then StillToRelay(cfg, side, ok, events[1..], full, writes, size + |bytes|, seen + Show(d), goal)
            else if ok(|writes|) then StillToRelay(cfg, side, ok, events[1..], [], writes + [full], size + |bytes|, seen + Show(d), goal)
            else goal == RelayLog(writes + [full], size + |bytes|, seen + Show(d), WriteFailed)
  {
    var bytes := ProcessedResponse(cfg, side, d);
    var full := batch + bytes;
    if |full| <= BATCH_LIMIT {
      BeforeSnoc(writes, size, seen, bytes, d, [], RelayItems(cfg, side, ok, events[1..], full, |writes|));
      assert writes + [] == writes;
    } else if ok(|writes|) {
      BeforeSnoc(writes, size, seen, bytes, d, [full], RelayItems(cfg, side, ok, events[1..], [], |writes| + 1));
    }
  }

  lemma RelayStops<F>(cfg: Config<F>, side: ResponseSide<F>, ok: nat -> bool, events: seq<Event<F>>, batch: Bytes,
                      writes: seq<Bytes>, size: nat, seen: seq<F>, goal: RelayLog<F>)
    requires StillToRelay(cfg, side, ok, events, batch, writes, size, seen, goal)
    requires events == [] || !events[0].Item?
    ensures goal.writes == (if batch == [] then writes else writes + [batch]) && goal.size == size && goal.seen == seen
    ensures goal.end == if events != [] && events[0].Broken? then StreamBroken(events[0].kind)
                        else if batch != [] && !ok(|writes|) then WriteFailed else Delivered
  {
    assert writes + [] == writes && seen + [] == seen;
  }

  lemma ClientsSnoc(before: seq<Effect>, writes: seq<Bytes>, x: Bytes)
    ensures before + Clients(writes + [x]) == before + Clients(writes) + [Client(x)]
  {
    assert Clients(writes + [x]) == Clients(writes) + [Client(x)];
  }

  lemma NextSuffix<T>(s: seq<T>, k: nat)
    requires k < |s|
    ensures s[k..] != [] && s[k..][0] == s[k] && s[k..][1..] == s[k + 1..]
  {
  }

  /** One client connection. */
  class Connection<F(!new)> {
    const cfg: Config<F>
    const world: nat -> World<F>
    const script: seq<Event<F>>
    var pos: nat
    var effects: seq<Effect>

    constructor (cfg: Config<F>, world: nat -> World<F>, script: seq<Event<F>>)
      ensures this.cfg == cfg && this.world == world && this.script == script
      ensures pos == 0 && effects == []
    {
      this.cfg, this.world, this.script := cfg, world, script;
      pos, effects := 0, [];
    }

    /** The next item of the frame stream; an exhausted stream keeps saying so. */
    method NextFrame() returns (e: Event<F>)
      requires pos <= |script|
      modifies this`pos
      ensures old(pos) < |script| ==> e == script[old(pos)] && pos == old(pos) + 1
      ensures old(pos) == |script| ==> e == End && pos == old(pos)
    {
      if pos == |script| {
        return End;
      }
      e := script[pos];
      pos := pos + 1;
    }

    /**
     * Read items into a buffer, showing frames to the hook: up to the routing key in front of the
     * routing decision, up to the end marker behind it.
     */
    method ReadItems(max: nat, stopAtKey: bool)
      returns (buf: seq<Bytes>, seen: seq<F>, raw: nat, frames: nat, stop: Stop, ghost scan: Scan<F>)
      requires pos <= |script|
      modifies this`pos
      ensures scan == ScanItems(cfg, max, stopAtKey, script[old(pos)..], 0)
      ensures pos == old(pos) + scan.consumed && pos <= |script|
      ensures raw == scan.raw && frames == scan.frames && stop == scan.stop
      ensures Concat(buf) == Outgoing(cfg, scan.taken) && seen == Frames(scan.taken) && |buf| == |scan.taken|
    {
      buf, seen, raw, frames := [], [], 0, 0;
      ghost var taken: seq<ParsedData<F>> := [];
      scan := ScanItems(cfg, max, stopAtKey, script[pos..], 0);
      NothingRead(cfg, max, stopAtKey, script[pos..]);
      hide ScanItems, Remaining, RawLength, Outgoing, Frames, Concat, Raw, Processed, Key, One;
      while true
        invariant old(pos) <= pos <= |script| && pos == old(pos) + |taken|
        invariant Remaining(cfg, max, stopAtKey, script[pos..], taken, scan)
        invariant Holds(cfg, taken, buf, seen, raw, frames)
        decreases |script| - pos
      {
        ghost var events := script[pos..];
        StopsHere(cfg, max, stopAtKey, events, taken, scan);
        var event := NextFrame();
        match event
        case End =>
          stop := Ended;
          return;
        case Broken(kind) =>
          stop := BrokenBy(kind);
          return;
        case Item(d) =>
          assert events[1..] == script[pos..];
          ItemRead(cfg, max, stopAtKey, events, d, taken, scan, buf, seen, raw, frames);
          frames := frames + One(d);
          raw := raw + |Raw(cfg, d)|;
          if raw > max {
            stop := Overflow;
            return;
          }
          if d.Parsed? {
            seen := seen + [d.frame];
          }
          buf := buf + [Processed(cfg, d)];
          taken := taken + [d];
          if stopAtKey && Key(cfg, d).Some? {
            stop := Routed(Key(cfg, d).value);
            return;
          }
      }
    }

    method WriteErrorResponse(f: Failure)
      modifies this`effects
      ensures effects == old(effects) + ErrorEffects(cfg, f)
    {
      if cfg.errorBytes.Some? {
        effects := effects + [ErrorResponse(cfg.errorBytes.value(f))];
      }
    }

    /** Relay the response in batches. */
    method RelayResponse(side: ResponseSide<F>, w: World<F>) returns (size: nat, seen: seq<F>, end: RelayEnd)
      modifies this`effects
      ensures var r := RelayItems(cfg, side, w.clientOk, w.response, [], 0);
              && effects == old(effects) + Clients(r.writes)
              && size == r.size && seen == r.seen && end == r.end
    {
      size, seen := 0, [];
      var batch: Bytes := [];
      var sent, next := 0, 0;
      ghost var writes: seq<Bytes> := [];
      ghost var goal := RelayItems(cfg, side, w.clientOk, w.response, [], 0);
      assert w.response[0..] == w.response && [] + goal.writes == goal.writes && [] + goal.seen == goal.seen;
      assert Clients(writes) == [] && StillToRelay(cfg, side, w.clientOk, w.response, batch, writes, size, seen, goal);
      hide StillToRelay, RelayItems, ProcessedResponse, Clients, Show;
      while next < |w.response| && w.response[next].Item?
        invariant next <= |w.response| && sent == |writes|
        invariant effects == old(effects) + Clients(writes)
        invariant StillToRelay(cfg, side, w.clientOk, w.response[next..], batch, writes, size, seen, goal)
      {
        var d := w.response[next].data;
        var bytes := ProcessedResponse(cfg, side, d);
        NextSuffix(w.response, next);
        RelayGoesOn(cfg, side, w.clientOk, w.response[next..], d, batch, writes, size, seen, goal);
        seen := seen + Show(d);
        size := size + |bytes|;
        batch := batch + bytes;
        next := next + 1;
        if |batch| > BATCH_LIMIT {
          ClientsSnoc(old(effects), writes, batch);
          effects := effects + [Client(batch)];
          writes := writes + [batch];
          if !w.clientOk(sent) {
            end := WriteFailed;
            return;
          }
          sent := sent + 1;
          batch := [];
        }
      }
      RelayStops(cfg, side, w.clientOk, w.response[next..], batch, writes, size, seen, goal);
      ClientsSnoc(old(effects), writes, batch);
      if batch != [] {
        effects := effects + [Client(batch)];
      }
      if next < |w.response| && w.response[next].Broken? {
        end := StreamBroken(w.response[next].kind);
      } else {
        end := if batch != [] && !w.clientOk(sent) then WriteFailed else Delivered;
      }
    }

    /** The response side: relay, then keep or drop the upstream connection. */
    method Relay(w: World<F>, key: Bytes, dest: Dest, hook: seq<F>, ghost consumed: nat, counted: Counters) returns (verdict: Verdict, cr: Counters)
      modifies this`effects
      ensures var c := RelayPhase(cfg, w, key, dest, hook, consumed, counted);
              effects == old(effects) + c.effects && verdict == c.verdict && cr == c.counters
    {
      cr := counted;
      match cfg.responses
      case None =>
        effects := effects + [Client(w.copied)];
        if !w.copyOk {
          return Failed(Failure(Io, Phase.Relay)), cr;
        }
        return Finished, cr.(responseBytes := |w.copied|);
      case Some(side) =>
        var size, seen, end := RelayResponse(side, w);
        cr := cr.(responseBytes := size);
        if end == WriteFailed {
          return Failed(Failure(Io, Phase.Relay)), cr;
        }
        if end.StreamBroken? {
          return Failed(Failure(end.kind, Phase.Relay)), cr;
        }
        var shouldClose := cfg.closes(hook) || (side.closes.Some? && side.closes.value(seen));
        if shouldClose {
          return Finished, cr;
        }
        if cfg.pooled {
          effects := effects + [Release(key, dest)];
        }
        return Again, cr;
    }

    /** The exits between a complete request and its response. */
    method SubmitRequest(w: World<F>, key: Bytes, overflow: bool, hook: seq<F>, request: Bytes, ghost consumed: nat, counted: Counters)
      returns (verdict: Verdict, cr: Counters, ghost c: Cycle)
      modifies this`effects
      ensures c == Submit(cfg, w, key, overflow, hook, request, consumed, counted)
      ensures effects == old(effects) + c.effects && verdict == c.verdict && cr == c.counters
    {
      c := Submit(cfg, w, key, overflow, hook, request, consumed, counted);
      cr := counted;
      if overflow {
        var f := Failure(BufferLimitExceeded, Phase.Forward);
        WriteErrorResponse(f);
        return Failed(f), cr, c;
      }
      var invalid := cfg.validate(hook);
      if invalid.Some? {
        var f := Failure(invalid.value, Parse);
        WriteErrorResponse(f);
        return Failed(f), cr, c;
      }
      var dest := Destination(cfg, w);
      if dest.None? {
        var f := Failure(w.routeError, Routing);
        WriteErrorResponse(f);
        return Failed(f), cr, c;
      }
      cr := cr.(routed := true);
      effects := effects + [Upstream(dest.value, request)];
      if !w.upstreamOk {
        return Failed(Failure(Io, Phase.Forward)), cr, c;
      }
      verdict, cr := Relay(w, key, dest.value, hook, consumed, cr);
    }

    /** The request side behind the routing key: look up, read on, submit. */
    method Forward(w: World<F>, key: Bytes, pre: seq<Bytes>, preSeen: seq<F>, preRaw: nat, preFrames: nat, ghost scan: Scan<F>)
      returns (verdict: Verdict, cr: Counters, ghost c: Cycle)
      requires pos <= |script|
      requires Concat(pre) == Outgoing(cfg, scan.taken) && preSeen == Frames(scan.taken)
      requires preRaw == scan.raw && preFrames == scan.frames
      modifies this`pos, this`effects
      ensures pos <= |script| && old(pos) <= pos
      ensures var post := ScanItems(cfg, cfg.maxPostRoute, false, script[old(pos)..], 0);
              pos == old(pos) + post.consumed && c == ForwardPhase(cfg, w, key, scan, post)
      ensures effects == old(effects) + c.effects && verdict == c.verdict && cr == c.counters
    {
      effects := effects + Lookups(cfg, w, key);
      var post, postSeen, postRaw, postFrames, stop;
      ghost var postScan;
      post, postSeen, postRaw, postFrames, stop, postScan := ReadItems(cfg.maxPostRoute, false);
      var counted := Counters(preFrames + postFrames, preRaw + postRaw, 0, false);
      var hook, request := preSeen + postSeen, Concat(pre + post);
      ConcatAppend(pre, post);
      ghost var consumed := scan.consumed + postScan.consumed;
      assert request == Outgoing(cfg, scan.taken) + Outgoing(cfg, postScan.taken);
      ghost var submitted;
      verdict, cr, submitted := SubmitRequest(w, key, stop == Overflow, hook, request, consumed, counted);
      c := ForwardIsSubmit(cfg, w, key, scan, postScan, hook, request, consumed, counted, submitted, old(effects));
    }

    /** One turn of the loop. */
    method Serve(i: nat) returns (verdict: Verdict, cr: Counters)
      requires pos <= |script|
      modifies this`pos, this`effects
      ensures old(pos) <= pos <= |script|
      ensures var c := RunCycle(cfg, world(i), i == 0, script[old(pos)..]);
              && pos == old(pos) + c.consumed
              && effects == old(effects) + c.effects && verdict == c.verdict && cr == c.counters
    {
      var firstCycle := i == 0;
      var buf, seen, raw, frames, stop;
      ghost var scan;
      buf, seen, raw, frames, stop, scan := ReadItems(cfg.maxPreRoute, true);
      assert effects + [] == effects;
      match stop
      case Overflow =>
        var f := Failure(BufferLimitExceeded, Parse);
        WriteErrorResponse(f);
        return Failed(f), Counters(frames, raw, 0, false);
      case BrokenBy(kind) =>
        if !firstCycle && kind == ConnectionClosed {
          return Finished, NOTHING;
        }
        var f := Failure(kind, Parse);
        WriteErrorResponse(f);
        return Failed(f), Counters(frames, raw, 0, false);
      case Ended =>
        if !firstCycle && buf == [] {
          return Finished, NOTHING;
        }
        var f := Failure(NoRoutingFrame, Parse);
        WriteErrorResponse(f);
        return Failed(f), Counters(frames, raw, 0, false);
      case Routed(key) =>
        assert script[pos..] == script[old(pos)..][scan.consumed..];
        ForwardConsumes(cfg, world(i), key, scan, ScanItems(cfg, cfg.maxPostRoute, false, script[pos..], 0));
        ghost var forwarded;
        verdict, cr, forwarded := Forward(world(i), key, buf, seen, raw, frames, scan);
    }

    /** Serve requests until one of them ends the connection. */
    method DoConnection() returns (total: Counters, verdict: Verdict)
      requires pos == 0 && effects == []
      modifies this
      ensures var cs := Run(cfg, world, script);
              && effects == AllEffects(cs) && total == Totals(cs) && verdict == cs[|cs| - 1].verdict
    {
      hide RunCycle, Run, Cycles, AllEffects, Totals;
      total := NOTHING;
      verdict := Again;
      var i := 0;
      ghost var done: seq<Cycle> := [];
      NoCycleYet(cfg, world, script);
      hide Progress, Tally;
      while verdict == Again
        invariant pos <= |script| && Progress(cfg, world, script, i, pos, done, verdict)
        invariant Tally(done, effects, total)
        decreases verdict == Again, |script| - pos
      {
        ghost var begin, before := pos, effects;
        var cr;
        verdict, cr := Serve(i);
        done := CycleDone(cfg, world, script, i, begin, done, before, total, pos, effects, verdict, cr);
        total := total.Plus(cr);
        i := i + 1;
      }
      AllCyclesDone(cfg, world, script, i, pos, done, effects, total, verdict);
    }
  }

  ghost predicate Tally(done: seq<Cycle>, effects: seq<Effect>, total: Counters) {
    effects == AllEffects(done) && total == Totals(done)
  }

  /** After `i` cycles: what is done, and what the rest of the script still holds. */
  ghost predicate Progress<F>(cfg: Config<F>, world: nat -> World<F>, script: seq<Event<F>>, i: nat, pos: nat,
                              done: seq<Cycle>, verdict: Verdict) {
    && pos <= |script|
    && Run(cfg, world, script) == (if verdict == Again then done + Cycles(Step(cfg, world), i, script[pos..]) else done)
    && (verdict != Again ==> done != [] && done[|done| - 1].verdict == verdict)
  }

  lemma NoCycleYet<F>(cfg: Config<F>, world: nat -> World<F>, script: seq<Event<F>>)
    ensures Progress(cfg, world, script, 0, 0, [], Again) && Tally([], [], NOTHING)
  {
    assert script[0..] == script && [] + Run(cfg, world, script) == Run(cfg, world, script);
  }

  lemma AllCyclesDone<F>(cfg: Config<F>, world: nat -> World<F>, script: seq<Event<F>>, i: nat, pos: nat, done: seq<Cycle>,
                         effects: seq<Effect>, total: Counters, verdict: Verdict)
    requires Progress(cfg, world, script, i, pos, done, verdict) && Tally(done, effects, total) && verdict != Again
    ensures var cs := Run(cfg, world, script);
            cs != [] && effects == AllEffects(cs) && total == Totals(cs) && verdict == cs[|cs| - 1].verdict
  {
  }

  lemma ProgressStep<F>(cfg: Config<F>, world: nat -> World<F>, script: seq<Event<F>>, i: nat, pos: nat, done: seq<Cycle>)
    requires Progress(cfg, world, script, i, pos, done, Again)
    ensures var c := RunCycle(cfg, world(i), i == 0, script[pos..]);
            && Progress(cfg, world, script, i + 1, pos + c.consumed, done + [c], c.verdict)
            && (c.verdict == Again ==> c.consumed > 0)
  {
    hide RunCycle;
    var events := script[pos..];
    var c := RunCycle(cfg, world(i), i == 0, events);
    CycleConsumes(cfg, world(i), i == 0, events);
    CyclesGoOn(Step(cfg, world), i, events, done, Run(cfg, world, script));
    assert script[pos + c.consumed..] == events[c.consumed..];
  }

  lemma CycleDone<F>(cfg: Config<F>, world: nat -> World<F>, script: seq<Event<F>>, i: nat, begin: nat, done: seq<Cycle>,
                     before: seq<Effect>, total: Counters, pos: nat, effects: seq<Effect>, verdict: Verdict, cr: Counters)
    returns (more: seq<Cycle>)
    requires Progress(cfg, world, script, i, begin, done, Again) && Tally(done, before, total)
    requires var c := RunCycle(cfg, world(i), i == 0, script[begin..]);
             pos == begin + c.consumed && effects == before + c.effects && verdict == c.verdict && cr == c.counters
    ensures Progress(cfg, world, script, i + 1, pos, more, verdict) && Tally(more, effects, total.Plus(cr))
    ensures verdict == Again ==> begin < pos
  {
    hide RunCycle;
    var c := RunCycle(cfg, world(i), i == 0, script[begin..]);
    ProgressStep(cfg, world, script, i, begin, done);
    DoneSnoc(done, c);
    more := done + [c];
  }

  /** Pieces read one after the other are submitted as one request. */
  lemma ForwardIsSubmit<F>(cfg: Config<F>, w: World<F>, key: Bytes, pre: Scan<F>, post: Scan<F>, hook: seq<F>, request: Bytes,
                           consumed: nat, counted: Counters, submitted: Cycle, before: seq<Effect>) returns (c: Cycle)
    requires hook == Frames(pre.taken) + Frames(post.taken)
    requires request == Outgoing(cfg, pre.taken) + Outgoing(cfg, post.taken)
    requires consumed == pre.consumed + post.consumed
    requires counted == Counters(pre.frames + post.frames, pre.raw + post.raw, 0, false)
    requires submitted == Submit(cfg, w, key, post.stop == Overflow, hook, request, consumed, counted)
    ensures c == ForwardPhase(cfg, w, key, pre, post)
    ensures before + c.effects == before + Lookups(cfg, w, key) + submitted.effects
    ensures c.verdict == submitted.verdict && c.counters == submitted.counters
  {
    hide Submit;
    FramesAppend(pre.taken, post.taken);
    OutgoingAppend(cfg, pre.taken, post.taken);
    c := After(Lookups(cfg, w, key), submitted);
  }

  lemma ForwardConsumes<F>(cfg: Config<F>, w: World<F>, key: Bytes, pre: Scan<F>, post: Scan<F>)
    ensures ForwardPhase(cfg, w, key, pre, post).consumed == pre.consumed + post.consumed
  {
  }

  /** The next cycle moves from what is left of the connection to what is done. */
  lemma CyclesGoOn<F>(step: (nat, seq<Event<F>>) -> Cycle, i: nat, events: seq<Event<F>>, done: seq<Cycle>, all: seq<Cycle>)
    requires all == done + Cycles(step, i, events)
    requires step(i, events).consumed <= |events|
    requires step(i, events).verdict == Again ==> step(i, events).consumed > 0
    ensures var c := step(i, events);
            all == if c.verdict == Again then done + [c] + Cycles(step, i + 1, events[c.consumed..]) else done + [c]
  {
    var c := step(i, events);
    if c.verdict == Again {
      var more := Cycles(step, i + 1, events[c.consumed..]);
      assert done + ([c] + more) == done + [c] + more;
    }
  }

  lemma {:induction false} DoneSnoc(done: seq<Cycle>, c: Cycle)
    ensures AllEffects(done + [c]) == AllEffects(done) + c.effects
    ensures Totals(done + [c]) == Totals(done).Plus(c.counters)
  {
    if done == [] {
      assert done + [c] == [c];
      assert c.effects + [] == c.effects;
    } else {
      assert (done + [c])[1..] == done[1..] + [c];
      DoneSnoc(done[1..], c);
    }
  }
}
