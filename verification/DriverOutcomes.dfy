/** Where the connection of a cycle comes from, and how every kind of cycle ends. */
module DriverOutcomes {
  import opened Common
  import opened Events
  import opened Driver
  import opened DriverSafety

  // ----- where the connection comes from -----

  lemma SubmitEffects<F>(cfg: Config<F>, w: World<F>, key: Bytes, overflow: bool, frames: seq<F>, request: Bytes,
                         consumed: nat, counted: Counters)
    ensures var c := Submit(cfg, w, key, overflow, frames, request, consumed, counted);
            && (forall e :: e in c.effects ==> !IsLookup(e))
            && (forall e :: e in c.effects && e.Upstream? ==> Destination(cfg, w) == Some(e.dest))
            && (forall e :: e in c.effects && e.Release? ==> e.key == key && Destination(cfg, w) == Some(e.dest))
            && (Destination(cfg, w).Some? && c.verdict.Failed? ==> c.verdict.failure.phase != Routing)
  {
    if Destination(cfg, w).Some? {
      RelayEffects(cfg, w, key, Destination(cfg, w).value, frames, consumed, counted.(routed := true));
    }
  }

  /** Behind the lookups of a cycle: no further lookup, and nothing but the connection they gave. */
  ghost predicate Behind<F>(cfg: Config<F>, w: World<F>, key: Bytes, c: Cycle, tail: seq<Effect>) {
    && c.effects == Lookups(cfg, w, key) + tail
    && (forall e :: e in tail ==> !IsLookup(e))
    && (forall e :: e in tail && (e.Upstream? || e.Release?) ==> Destination(cfg, w) == Some(e.dest))
    && (forall e :: e in tail && e.Release? ==> e.key == key)
    && (Destination(cfg, w).Some? && c.verdict.Failed? ==> c.verdict.failure.phase != Routing)
  }

  lemma RoutedParts<F>(cfg: Config<F>, w: World<F>, first: bool, events: seq<Event<F>>) returns (tail: seq<Effect>)
    requires ScanItems(cfg, cfg.maxPreRoute, true, events, 0).stop.Routed?
    ensures Behind(cfg, w, ScanItems(cfg, cfg.maxPreRoute, true, events, 0).stop.key, RunCycle(cfg, w, first, events), tail)
  {
    hide RunCycle, ScanItems, Submit, Lookups, Outgoing, Frames, Destination, IsLookup;
    RoutedCycle(cfg, w, first, events);
    var pre := ScanItems(cfg, cfg.maxPreRoute, true, events, 0);
    var post := ScanItems(cfg, cfg.maxPostRoute, false, events[pre.consumed..], 0);
    var items := pre.taken + post.taken;
    var counted := Counters(pre.frames + post.frames, pre.raw + post.raw, 0, false);
    SubmitEffects(cfg, w, pre.stop.key, post.stop == Overflow, Frames(items), Outgoing(cfg, items), pre.consumed + post.consumed, counted);
    tail := Submit(cfg, w, pre.stop.key, post.stop == Overflow, Frames(items), Outgoing(cfg, items), pre.consumed + post.consumed, counted).effects;
  }

  lemma UnroutedParts<F>(cfg: Config<F>, w: World<F>, first: bool, events: seq<Event<F>>)
    requires !ScanItems(cfg, cfg.maxPreRoute, true, events, 0).stop.Routed?
    ensures forall e :: e in RunCycle(cfg, w, first, events).effects ==> e.ErrorResponse?
  {
  }

  /** A cycle that does more than answer with an error found a routing key. */
  lemma CycleParts<F>(cfg: Config<F>, w: World<F>, first: bool, events: seq<Event<F>>, e: Effect)
    returns (key: Bytes, tail: seq<Effect>)
    requires e in RunCycle(cfg, w, first, events).effects && !e.ErrorResponse?
    ensures ScanItems(cfg, cfg.maxPreRoute, true, events, 0).stop == Stop.Routed(key)
    ensures Behind(cfg, w, key, RunCycle(cfg, w, first, events), tail)
  {
    hide RunCycle, ScanItems, Behind;
    if !ScanItems(cfg, cfg.maxPreRoute, true, events, 0).stop.Routed? {
      UnroutedParts(cfg, w, first, events);
    }
    key := ScanItems(cfg, cfg.maxPreRoute, true, events, 0).stop.key;
    tail := RoutedParts(cfg, w, first, events);
  }

  /** Every key a cycle uses is that of the first item that has one. */
  lemma KeyIsRouted<F>(cfg: Config<F>, w: World<F>, first: bool, events: seq<Event<F>>, e: Effect) returns (r: nat)
    requires e in RunCycle(cfg, w, first, events).effects && (e.Acquire? || e.Route? || e.Release?)
    ensures r < |events| && events[r].Item? && RoutedAt(cfg, cfg.maxPreRoute, events, r)
    ensures Key(cfg, events[r].data) == Some(e.key)
  {
    hide RunCycle, ScanItems, RoutedAt;
    var key, tail := CycleParts(cfg, w, first, events, e);
    r := ScanRoutedAt(cfg, cfg.maxPreRoute, events, 0);
    RoutedScan(cfg, cfg.maxPreRoute, events, 0, r);
    KeyThere(cfg, events, r);
  }

  lemma KeyThere<F>(cfg: Config<F>, events: seq<Event<F>>, r: nat)
    requires RoutedAt(cfg, cfg.maxPreRoute, events, r)
    ensures r < |events| && events[r].Item? && Key(cfg, events[r].data).Some?
  {
  }

  /** A connection the pool or the router handed out; the router only when the pool had none. */
  ghost predicate Obtained(before: seq<Effect>, dest: Dest) {
    || (exists key :: Acquire(key, Some(dest)) in before)
    || ((exists key :: Route(key, Some(dest)) in before) && forall e :: e in before && e.Acquire? ==> e.got == None)
  }

  /** A request only goes to a connection that the pool or the router handed out in front of it, in the same cycle. */
  lemma WrittenToObtained<F>(cfg: Config<F>, w: World<F>, first: bool, events: seq<Event<F>>, dest: Dest, bytes: Bytes) returns (i: nat)
    requires Upstream(dest, bytes) in RunCycle(cfg, w, first, events).effects
    ensures var effects := RunCycle(cfg, w, first, events).effects;
            i < |effects| && effects[i] == Upstream(dest, bytes) && Obtained(effects[..i], dest)
  {
    hide RunCycle;
    var key, tail := CycleParts(cfg, w, first, events, Upstream(dest, bytes));
    var before := Lookups(cfg, w, key);
    LookupEffects(cfg, w, key);
    var j :| 0 <= j < |tail| && tail[j] == Upstream(dest, bytes);
    i := |before| + j;
    assert RunCycle(cfg, w, first, events).effects[..i] == before + tail[..j];
    ObtainedInFront(cfg, w, key, dest, tail[..j]);
  }

  lemma ObtainedInFront<F>(cfg: Config<F>, w: World<F>, key: Bytes, dest: Dest, more: seq<Effect>)
    requires Destination(cfg, w) == Some(dest) && forall e :: e in more ==> !IsLookup(e)
    ensures Obtained(Lookups(cfg, w, key) + more, dest)
  {
    var before := Lookups(cfg, w, key);
    if cfg.pooled && w.acquired.Some? {
      assert before[0] == Acquire(key, Some(dest)) && before[0] in before + more;
    } else {
      assert before[|before| - 1] == Route(key, Some(dest)) && before[|before| - 1] in before + more;
    }
  }

  /** A connection the pool hands out is used: the router is not asked, and nothing else is written to or pooled. */
  lemma PoolHitIsUsed<F>(cfg: Config<F>, w: World<F>, first: bool, events: seq<Event<F>>, key: Bytes, dest: Dest)
    requires Acquire(key, Some(dest)) in RunCycle(cfg, w, first, events).effects
    ensures var c := RunCycle(cfg, w, first, events);
            && (forall e :: e in c.effects ==> !e.Route?)
            && (forall e :: e in c.effects && (e.Upstream? || e.Release?) ==> e.dest == dest)
            && (c.verdict.Failed? ==> c.verdict.failure.phase != Routing)
  {
    hide RunCycle, ScanItems;
    var k, tail := CycleParts(cfg, w, first, events, Acquire(key, Some(dest)));
  }

  /** The pool is asked whenever there is one, and the router exactly when it had nothing; both under the routing key. */
  lemma LookupsExactly<F>(cfg: Config<F>, w: World<F>, first: bool, events: seq<Event<F>>, r: nat)
    requires RoutedAt(cfg, cfg.maxPreRoute, events, r)
    ensures var effects, key := RunCycle(cfg, w, first, events).effects, Key(cfg, events[r].data).value;
            && (forall k, got :: Acquire(k, got) in effects <==> cfg.pooled && k == key && got == w.acquired)
            && (forall k, got :: Route(k, got) in effects <==> !(cfg.pooled && w.acquired.Some?) && k == key && got == w.routed)
            && (forall e :: e in effects && e.Release? ==> e.key == key)
  {
    hide RunCycle, ScanItems;
    RoutedScan(cfg, cfg.maxPreRoute, events, 0, r);
    var tail := RoutedParts(cfg, w, first, events);
  }

  // ----- how a cycle ends -----

  lemma AcceptTwice<F>(cfg: Config<F>, d: ParsedData<F>, taken: seq<ParsedData<F>>, s: Scan<F>)
    ensures Accept(cfg, d, AcceptAll(cfg, taken, s)) == AcceptAll(cfg, [d] + taken, s)
  {
    CountFirst(cfg, d, taken);
    assert [d] + (taken + s.taken) == [d] + taken + s.taken;
  }

  lemma ScanOne<F>(cfg: Config<F>, max: nat, stopAtKey: bool, events: seq<Event<F>>, already: nat, d: ParsedData<F>)
    requires events != [] && events[0] == Item(d) && already + |Raw(cfg, d)| <= max && (stopAtKey ==> Key(cfg, d).None?)
    ensures ScanItems(cfg, max, stopAtKey, events, already) ==
            Accept(cfg, d, ScanItems(cfg, max, stopAtKey, events[1..], already + |Raw(cfg, d)|))
  {
  }

  lemma NoneAccepted<F>(cfg: Config<F>, s: Scan<F>)
    ensures AcceptAll(cfg, [], s) == s
  {
    assert [] + s.taken == s.taken;
  }

  lemma FirstOfItems<F>(events: seq<Event<F>>, n: nat)
    requires 0 < n <= |events| && AllItems(events[..n])
    ensures AllItems(events[1..][..n - 1]) && Data(events[..n]) == [events[0].data] + Data(events[1..][..n - 1])
    ensures events[1..][n - 1..] == events[n..]
  {
    assert events[..n] == [events[0]] + events[1..][..n - 1];
    DataSplits(events[..n]);
  }

  /** A scan over items that neither stop it nor exceed the budget. */
  lemma {:induction false} ScanBehind<F>(cfg: Config<F>, max: nat, stopAtKey: bool, events: seq<Event<F>>, already: nat, n: nat)
    requires n <= |events| && AllItems(events[..n])
    requires stopAtKey ==> forall i :: 0 <= i < n ==> Key(cfg, events[i].data).None?
    requires already + RawLength(cfg, Data(events[..n])) <= max
    ensures ScanItems(cfg, max, stopAtKey, events, already) ==
            AcceptAll(cfg, Data(events[..n]), ScanItems(cfg, max, stopAtKey, events[n..], already + RawLength(cfg, Data(events[..n]))))
    decreases n
  {
    hide ScanItems, Accept, AcceptAll, Frames, Raw, Key;
    if n == 0 {
      assert events[0..] == events;
      NoneAccepted(cfg, ScanItems(cfg, max, stopAtKey, events, already));
    } else {
      var d, more := events[0].data, events[1..];
      FirstOfItems(events, n);
      CountFirst(cfg, d, Data(more[..n - 1]));
      ScanOne(cfg, max, stopAtKey, events, already, d);
      ScanBehind(cfg, max, stopAtKey, more, already + |Raw(cfg, d)|, n - 1);
      AcceptTwice(cfg, d, Data(more[..n - 1]),
                  ScanItems(cfg, max, stopAtKey, events[n..], already + RawLength(cfg, Data(events[..n]))));
    }
  }

  /** Items within the budget, and one more that exceeds it. */
  ghost predicate OverflowsAt<F>(cfg: Config<F>, max: nat, events: seq<Event<F>>, n: nat) {
    && n < |events| && AllItems(events[..n + 1])
    && RawLength(cfg, Data(events[..n])) <= max < RawLength(cfg, Data(events[..n + 1]))
  }

  lemma ScanOverflows<F>(cfg: Config<F>, max: nat, stopAtKey: bool, events: seq<Event<F>>, n: nat)
    requires OverflowsAt(cfg, max, events, n)
    requires stopAtKey ==> forall i :: 0 <= i < n ==> Key(cfg, events[i].data).None?
    ensures var s, seen := ScanItems(cfg, max, stopAtKey, events, 0), Data(events[..n + 1]);
            s.stop == Overflow && s.consumed == n + 1 && s.raw == RawLength(cfg, seen) && s.frames == |Frames(seen)|
  {
    var front, d := Data(events[..n]), events[n].data;
    assert events[..n] == events[..n + 1][..n];
    assert Data(events[..n + 1]) == front + [d];
    RawLengthAppend(cfg, front, [d]);
    FramesAppend(front, [d]);
    CountFirst(cfg, d, []);
    assert [d] + [] == [d] && RawLength(cfg, []) == 0 && Frames<F>([]) == [];
    ScanBehind(cfg, max, stopAtKey, events, 0, n);
  }

  /** What a cycle that fails before its upstream write does behind its lookups: at most an error response. */
  ghost predicate FailsWith<F>(cfg: Config<F>, c: Cycle, lookups: seq<Effect>, f: Failure, seen: seq<ParsedData<F>>) {
    && c.verdict == Failed(f)
    && c.effects == lookups + (if cfg.errorBytes.Some? then [ErrorResponse(cfg.errorBytes.value(f))] else [])
    && c.counters == Counters(|Frames(seen)|, RawLength(cfg, seen), 0, false)
  }

  /** Too many bytes in front of the routing key: the request is given up as unparsable. */
  lemma PreRouteOverflow<F>(cfg: Config<F>, w: World<F>, first: bool, events: seq<Event<F>>, n: nat)
    requires OverflowsAt(cfg, cfg.maxPreRoute, events, n) && forall i :: 0 <= i < n ==> Key(cfg, events[i].data).None?
    ensures FailsWith(cfg, RunCycle(cfg, w, first, events), [], Failure(BufferLimitExceeded, Parse), Data(events[..n + 1]))
  {
    ScanOverflows(cfg, cfg.maxPreRoute, true, events, n);
    hide ScanItems;
    var effects := RunCycle(cfg, w, first, events).effects;
    assert [] + effects == effects;
  }

  /**
   * Items without a routing key, and then an end or an error. A later cycle ends the connection in silence when
   * nothing came, or when its client has closed; everything else is an error, with its kind.
   */
  lemma UnroutedEnds<F>(cfg: Config<F>, w: World<F>, first: bool, events: seq<Event<F>>, n: nat)
    requires ItemsUpTo(cfg, cfg.maxPreRoute, events, n) && forall i :: 0 <= i < n ==> Key(cfg, events[i].data).None?
    ensures var c := RunCycle(cfg, w, first, events);
            var broken := n < |events| && events[n].Broken?;
            if !first && (if broken then events[n].kind == ConnectionClosed else n == 0) then
              c.verdict == Finished && c.effects == [] && c.counters == Counters(0, 0, 0, false)
            else FailsWith(cfg, c, [], Failure(if broken then events[n].kind else NoRoutingFrame, Parse), Data(events[..n]))
  {
    ScanBehind(cfg, cfg.maxPreRoute, true, events, 0, n);
    assert Data(events[..n]) + [] == Data(events[..n]);
    var effects := RunCycle(cfg, w, first, events).effects;
    assert [] + effects == effects;
  }

  /** Too many bytes behind the routing key: nothing is written, though the connection was already looked up. */
  lemma PostRouteOverflow<F>(cfg: Config<F>, w: World<F>, first: bool, events: seq<Event<F>>, r: nat, n: nat)
    requires RoutedAt(cfg, cfg.maxPreRoute, events, r) && OverflowsAt(cfg, cfg.maxPostRoute, events[r + 1..], n)
    ensures var seen := Data(events[..r + 1]) + Data(events[r + 1..][..n + 1]);
            FailsWith(cfg, RunCycle(cfg, w, first, events), Lookups(cfg, w, Key(cfg, events[r].data).value),
                      Failure(BufferLimitExceeded, Forward), seen)
  {
    RoutedScan(cfg, cfg.maxPreRoute, events, 0, r);
    ScanOverflows(cfg, cfg.maxPostRoute, false, events[r + 1..], n);
    RawLengthAppend(cfg, Data(events[..r + 1]), Data(events[r + 1..][..n + 1]));
    FramesAppend(Data(events[..r + 1]), Data(events[r + 1..][..n + 1]));
    RoutedCycle(cfg, w, first, events);
    hide ScanItems, RunCycle, Lookups, RawLength, Frames, Outgoing, Destination;
  }

  /** A request the hook objects to, and one that has nowhere to go. */
  lemma RefusedRequest<F>(cfg: Config<F>, w: World<F>, first: bool, events: seq<Event<F>>, r: nat, n: nat)
    requires IsRequest(cfg, events, r, n)
    ensures var items := RequestItems(events, r, n);
            var lookups, c := Lookups(cfg, w, Key(cfg, events[r].data).value), RunCycle(cfg, w, first, events);
            && (cfg.validate(Frames(items)).Some? ==> FailsWith(cfg, c, lookups, Failure(cfg.validate(Frames(items)).value, Parse), items))
            && (cfg.validate(Frames(items)).None? && Destination(cfg, w).None? ==>
                  FailsWith(cfg, c, lookups, Failure(w.routeError, Routing), items))
  {
    hide RunCycle, ScanItems, RawLength, Frames, Outgoing, Lookups, Destination;
    var pre, post := ForwardsRequest(cfg, w, first, events, r, n);
    RawLengthAppend(cfg, pre.taken, post.taken);
    FramesAppend(pre.taken, post.taken);
    assert post.stop != Overflow;
  }

  /** An authorised request: whether it was written, how its answer ended, and what comes next. */
  lemma SentRequest<F>(cfg: Config<F>, w: World<F>, first: bool, events: seq<Event<F>>, r: nat, n: nat, dest: Dest)
    requires Authorised(cfg, w, events, r, n, dest)
    ensures var items := RequestItems(events, r, n);
            var c, before := RunCycle(cfg, w, first, events), UpToWrite(cfg, w, Key(cfg, events[r].data).value, items, dest);
            && c.counters.(responseBytes := 0) == Counters(|Frames(items)|, RawLength(cfg, items), 0, true)
            && (!w.upstreamOk ==> c.verdict == Failed(Failure(Io, Forward)) && c.effects == before)
            && (w.upstreamOk && cfg.responses.None? ==>
                  && c.verdict == (if w.copyOk then Finished else Failed(Failure(Io, Relay)))
                  && c.effects == before + [Client(w.copied)]
                  && c.counters.responseBytes == if w.copyOk then |w.copied| else 0)
            && (w.upstreamOk && cfg.responses.Some? ==>
                  match RelayItems(cfg, cfg.responses.value, w.clientOk, w.response, [], 0).end
                  case WriteFailed => c.verdict == Failed(Failure(Io, Relay))
                  case StreamBroken(kind) => c.verdict == Failed(Failure(kind, Relay))
                  case Delivered => c.verdict == Finished || c.verdict == Again)
  {
    hide RunCycle, RawLength, Frames, Outgoing, Lookups, RelayItems, UpToWrite;
    WithAuthority(cfg, w, first, events, r, n, dest);
  }

  // ----- what the bytes are -----

  /** One part for each item: the bytes of its frame behind `process`, or passed-through bytes as they are. */
  ghost predicate Rendered<F>(bytesOf: F -> Bytes, process: F -> F, items: seq<ParsedData<F>>, parts: seq<Bytes>) {
    && |parts| == |items|
    && forall i :: 0 <= i < |items| ==>
         parts[i] == if items[i].Parsed? then bytesOf(process(items[i].frame)) else items[i].bytes
  }

  lemma {:induction false} OutgoingIs<F>(cfg: Config<F>, items: seq<ParsedData<F>>) returns (parts: seq<Bytes>)
    ensures Rendered(cfg.bytesOf, cfg.process, items, parts) && Outgoing(cfg, items) == Concat(parts)
  {
    if items == [] {
      parts := [];
    } else {
      var more := OutgoingIs(cfg, items[1..]);
      parts := [Processed(cfg, items[0])] + more;
      ConcatFirst(Processed(cfg, items[0]), more);
      assert forall i :: 0 < i < |items| ==> items[i] == items[1..][i - 1] && parts[i] == more[i - 1];
    }
  }

  lemma {:induction false} ResponseIs<F>(cfg: Config<F>, side: ResponseSide<F>, items: seq<ParsedData<F>>) returns (parts: seq<Bytes>)
    ensures Rendered(cfg.bytesOf, side.process, items, parts) && ResponseBytes(cfg, side, items) == Concat(parts)
  {
    if items == [] {
      parts := [];
    } else {
      var more := ResponseIs(cfg, side, items[1..]);
      parts := [ProcessedResponse(cfg, side, items[0])] + more;
      ConcatFirst(ProcessedResponse(cfg, side, items[0]), more);
      assert forall i :: 0 < i < |items| ==> items[i] == items[1..][i - 1] && parts[i] == more[i - 1];
    }
  }

  /** What the budgets count: the bytes of the items before any processing. */
  lemma {:induction false} RawLengthIs<F>(cfg: Config<F>, items: seq<ParsedData<F>>) returns (parts: seq<Bytes>)
    ensures Rendered(cfg.bytesOf, (f: F) => f, items, parts) && RawLength(cfg, items) == |Concat(parts)|
  {
    if items == [] {
      parts := [];
    } else {
      var more := RawLengthIs(cfg, items[1..]);
      parts := [Raw(cfg, items[0])] + more;
      ConcatFirst(Raw(cfg, items[0]), more);
      assert forall i :: 0 < i < |items| ==> items[i] == items[1..][i - 1] && parts[i] == more[i - 1];
    }
  }

  /**
   * What is written upstream: the items of one request within the budgets, each as the request processor
   * leaves it, in order and without a gap.
   */
  lemma WrittenContent<F>(cfg: Config<F>, w: World<F>, first: bool, events: seq<Event<F>>, dest: Dest, bytes: Bytes)
    returns (r: nat, n: nat, parts: seq<Bytes>)
    requires Upstream(dest, bytes) in RunCycle(cfg, w, first, events).effects
    ensures IsRequest(cfg, events, r, n)
    ensures Rendered(cfg.bytesOf, cfg.process, RequestItems(events, r, n), parts) && bytes == Concat(parts)
  {
    hide RunCycle, Outgoing;
    UpstreamExactly(cfg, w, first, events, dest, bytes);
    r, n :| Authorised(cfg, w, events, r, n, dest) && bytes == Outgoing(cfg, RequestItems(events, r, n));
    parts := OutgoingIs(cfg, RequestItems(events, r, n));
  }

  /**
   * What the client gets: the first items of the response, each as the response processor leaves it, in
   * order and without a gap; they are what is counted, and their frames, as they came, are what the hook saw.
   */
  lemma RelayedContent<F>(cfg: Config<F>, side: ResponseSide<F>, ok: nat -> bool, events: seq<Event<F>>)
    returns (m: nat, parts: seq<Bytes>)
    ensures m <= |events| && AllItems(events[..m])
    ensures var r := RelayItems(cfg, side, ok, events, [], 0);
            && StopsAt(r.end, events, m)
            && Rendered(cfg.bytesOf, side.process, Data(events[..m]), parts)
            && Concat(r.writes) == Concat(parts) && r.size == |Concat(parts)|
            && r.seen == Frames(Data(events[..m]))
  {
    hide RelayItems, ResponseBytes, Frames, Rendered;
    m := RelayContent(cfg, side, ok, events, [], 0);
    parts := ResponseIs(cfg, side, Data(events[..m]));
    assert [] + ResponseBytes(cfg, side, Data(events[..m])) == ResponseBytes(cfg, side, Data(events[..m]));
  }

  // ----- totals -----

  function Sum(ns: seq<nat>): nat {
    if ns == [] then 0 else ns[0] + Sum(ns[1..])
  }

  /** The counters of a connection are the sums over its cycles. */
  lemma {:induction false} TotalsAreSums(cs: seq<Cycle>)
    ensures var t := Totals(cs);
            && t.frames == Sum(seq(|cs|, i requires 0 <= i < |cs| => cs[i].counters.frames))
            && t.requestBytes == Sum(seq(|cs|, i requires 0 <= i < |cs| => cs[i].counters.requestBytes))
            && t.responseBytes == Sum(seq(|cs|, i requires 0 <= i < |cs| => cs[i].counters.responseBytes))
            && (t.routed <==> exists i :: 0 <= i < |cs| && cs[i].counters.routed)
  {
    if cs != [] {
      var more := cs[1..];
      TotalsAreSums(more);
      assert seq(|cs|, i requires 0 <= i < |cs| => cs[i].counters.frames)[1..] == seq(|more|, i requires 0 <= i < |more| => more[i].counters.frames);
      assert seq(|cs|, i requires 0 <= i < |cs| => cs[i].counters.requestBytes)[1..] ==
             seq(|more|, i requires 0 <= i < |more| => more[i].counters.requestBytes);
      assert seq(|cs|, i requires 0 <= i < |cs| => cs[i].counters.responseBytes)[1..] ==
             seq(|more|, i requires 0 <= i < |more| => more[i].counters.responseBytes);
      assert forall i :: 0 < i < |cs| ==> cs[i] == more[i - 1];
      if Totals(more).routed {
        var i :| 0 <= i < |more| && more[i].counters.routed;
        assert cs[i + 1].counters.routed;
      }
    }
  }
}
