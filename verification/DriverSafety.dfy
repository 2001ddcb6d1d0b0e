/** What the driver guarantees, cycle by cycle and over whole connections, for every script. */
module DriverSafety {
  import opened Common
  import opened Events
  import opened Driver

  // ----- which events are a request -----

  ghost predicate AllItems<F>(events: seq<Event<F>>) {
    forall i :: 0 <= i < |events| ==> events[i].Item?
  }

  function Data<F>(events: seq<Event<F>>): seq<ParsedData<F>>
    requires AllItems(events)
  {
    seq(|events|, i requires 0 <= i < |events| => events[i].data)
  }

  /** `events[r]` is the first item with a routing key, and no more than `max` raw bytes lead up to its end. */
  ghost predicate RoutedAt<F>(cfg: Config<F>, max: nat, events: seq<Event<F>>, r: nat) {
    && r < |events| && AllItems(events[..r + 1])
    && (forall i :: 0 <= i < r ==> Key(cfg, events[i].data).None?)
    && Key(cfg, events[r].data).Some?
    && RawLength(cfg, Data(events[..r + 1])) <= max
  }

  /** The first `n` events are items of at most `max` raw bytes, and no item follows them. */
  ghost predicate ItemsUpTo<F>(cfg: Config<F>, max: nat, events: seq<Event<F>>, n: nat) {
    && n <= |events| && AllItems(events[..n])
    && (n == |events| || !events[n].Item?)
    && RawLength(cfg, Data(events[..n])) <= max
  }

  /**
   * The events start with one request: items up to the first routing key within the first budget, and
   * all items behind it, up to an end marker or a broken stream, within the second.
   */
  ghost predicate IsRequest<F>(cfg: Config<F>, events: seq<Event<F>>, r: nat, n: nat) {
    && RoutedAt(cfg, cfg.maxPreRoute, events, r)
    && ItemsUpTo(cfg, cfg.maxPostRoute, events[r + 1..], n)
  }

  /** Items and the event that ends them, if there is one. */
  function Upto<F>(events: seq<Event<F>>, n: nat): nat {
    if n < |events| then n + 1 else n
  }

  /** Why reading stops behind `n` items: an end marker and the end of the stream are the same. */
  function StopAt<F>(events: seq<Event<F>>, n: nat): Stop
    requires n < |events| ==> !events[n].Item?
  {
    if n < |events| && events[n].Broken? then BrokenBy(events[n].kind) else Ended
  }

  function RequestItems<F>(events: seq<Event<F>>, r: nat, n: nat): seq<ParsedData<F>>
    requires r < |events| && AllItems(events[..r + 1])
    requires n <= |events[r + 1..]| && AllItems(events[r + 1..][..n])
  {
    Data(events[..r + 1]) + Data(events[r + 1..][..n])
  }

  lemma DataSplits<F>(events: seq<Event<F>>)
    requires events != [] && AllItems(events)
    ensures AllItems(events[1..]) && Data(events) == [events[0].data] + Data(events[1..])
  {
  }

  lemma CountFirst<F>(cfg: Config<F>, d: ParsedData<F>, more: seq<ParsedData<F>>)
    ensures RawLength(cfg, [d] + more) == |Raw(cfg, d)| + RawLength(cfg, more)
    ensures |Frames([d] + more)| == One(d) + |Frames(more)|
  {
    assert ([d] + more)[1..] == more;
  }

  lemma {:induction false} RoutedScan<F>(cfg: Config<F>, max: nat, events: seq<Event<F>>, already: nat, r: nat)
    requires already <= max && RoutedAt(cfg, max - already, events, r)
    ensures var s := ScanItems(cfg, max, true, events, already);
            && s.taken == Data(events[..r + 1]) && s.consumed == r + 1 && s.stop == Routed(Key(cfg, events[r].data).value)
            && s.raw == RawLength(cfg, s.taken) && s.frames == |Frames(s.taken)|
    decreases r
  {
    var head, more := events[..r + 1], events[1..];
    DataSplits(head);
    assert head[1..] == more[..r];
    CountFirst(cfg, events[0].data, Data(more[..r]));
    assert RawLength(cfg, []) == 0 && Frames<F>([]) == [];
    hide RawLength, Frames;
    if r > 0 {
      RoutedScan(cfg, max, more, already + |Raw(cfg, events[0].data)|, r - 1);
    }
  }

  lemma {:induction false} ScanRoutedAt<F>(cfg: Config<F>, max: nat, events: seq<Event<F>>, already: nat) returns (r: nat)
    requires already <= max && ScanItems(cfg, max, true, events, already).stop.Routed?
    ensures RoutedAt(cfg, max - already, events, r)
    decreases |events|
  {
    var d, more := events[0].data, events[1..];
    if Key(cfg, d).Some? {
      r := 0;
      DataSplits(events[..1]);
      assert RawLength(cfg, Data(events[..1][1..])) == 0;
    } else {
      var k := ScanRoutedAt(cfg, max, more, already + |Raw(cfg, d)|);
      r := k + 1;
      assert events[..r + 1] == [events[0]] + more[..k + 1];
      DataSplits(events[..r + 1]);
      assert forall i :: 0 < i < r ==> events[i] == more[i - 1];
    }
  }

  lemma {:induction false} ItemsScan<F>(cfg: Config<F>, max: nat, events: seq<Event<F>>, already: nat, n: nat)
    requires already <= max && ItemsUpTo(cfg, max - already, events, n)
    ensures var s := ScanItems(cfg, max, false, events, already);
            && s.taken == Data(events[..n]) && s.consumed == Upto(events, n) && s.stop == StopAt(events, n)
            && s.raw == RawLength(cfg, s.taken) && s.frames == |Frames(s.taken)|
    decreases n
  {
    if n > 0 {
      var head, more := events[..n], events[1..];
      DataSplits(head);
      assert head[1..] == more[..n - 1];
      CountFirst(cfg, events[0].data, Data(more[..n - 1]));
      hide RawLength, Frames;
      ItemsScan(cfg, max, more, already + |Raw(cfg, events[0].data)|, n - 1);
    }
  }

  lemma {:induction false} ScanItemsUpTo<F>(cfg: Config<F>, max: nat, events: seq<Event<F>>, already: nat) returns (n: nat)
    requires already <= max && ScanItems(cfg, max, false, events, already).stop != Overflow
    ensures ItemsUpTo(cfg, max - already, events, n)
    decreases |events|
  {
    if events == [] || !events[0].Item? {
      n := 0;
    } else {
      var more := events[1..];
      var k := ScanItemsUpTo(cfg, max, more, already + |Raw(cfg, events[0].data)|);
      n := k + 1;
      assert events[..n] == [events[0]] + more[..k];
      DataSplits(events[..n]);
    }
  }

  // ----- the upstream write -----

  /** Everything that has to be true before a byte goes upstream. */
  ghost predicate Authorised<F>(cfg: Config<F>, w: World<F>, events: seq<Event<F>>, r: nat, n: nat, dest: Dest) {
    && IsRequest(cfg, events, r, n)
    && cfg.validate(Frames(RequestItems(events, r, n))).None?
    && Destination(cfg, w) == Some(dest)
  }

  predicate IsLookup(e: Effect) {
    e.Acquire? || e.Route?
  }

  lemma LookupEffects<F>(cfg: Config<F>, w: World<F>, key: Bytes)
    ensures forall e :: e in Lookups(cfg, w, key) ==> IsLookup(e)
  {
  }

  /** A request that was never authorised leaves no trace upstream or in the pool, only an error response. */
  lemma WithoutAuthority<F>(cfg: Config<F>, w: World<F>, first: bool, events: seq<Event<F>>) returns (lookups: seq<Effect>)
    requires forall r: nat, n: nat, d: Dest :: !Authorised(cfg, w, events, r, n, d)
    ensures forall e :: e in lookups ==> IsLookup(e)
    ensures var counters := RunCycle(cfg, w, first, events).counters; !counters.routed && counters.responseBytes == 0
    ensures var c := RunCycle(cfg, w, first, events);
            match c.verdict
            case Again => false
            case Finished => c.effects == []
            case Failed(f) => c.effects == lookups + ErrorEffects(cfg, f)
  {
    lookups := [];
    var pre := ScanItems(cfg, cfg.maxPreRoute, true, events, 0);
    if !pre.stop.Routed? {
      var effects := RunCycle(cfg, w, first, events).effects;
      assert [] + effects == effects;
    } else {
      lookups := Lookups(cfg, w, pre.stop.key);
      LookupEffects(cfg, w, pre.stop.key);
      var r := ScanRoutedAt(cfg, cfg.maxPreRoute, events, 0);
      RoutedScan(cfg, cfg.maxPreRoute, events, 0, r);
      var rest := events[r + 1..];
      if ScanItems(cfg, cfg.maxPostRoute, false, rest, 0).stop != Overflow {
        var n := ScanItemsUpTo(cfg, cfg.maxPostRoute, rest, 0);
        ItemsScan(cfg, cfg.maxPostRoute, rest, 0, n);
        assert Destination(cfg, w).Some? ==> !Authorised(cfg, w, events, r, n, Destination(cfg, w).value);
      }
    }
  }

  /** What an authorised cycle has done once the request is written. */
  function UpToWrite<F>(cfg: Config<F>, w: World<F>, key: Bytes, items: seq<ParsedData<F>>, dest: Dest): seq<Effect> {
    Lookups(cfg, w, key) + [Upstream(dest, Outgoing(cfg, items))]
  }

  /** The events a request takes up: its items and what ends them. */
  function RequestSpan<F>(events: seq<Event<F>>, r: nat, n: nat): nat
    requires r < |events|
  {
    r + 1 + Upto(events[r + 1..], n)
  }

  /** What is counted of a request that was sent: its frames and its raw bytes. */
  function RequestCounters<F>(cfg: Config<F>, items: seq<ParsedData<F>>): Counters {
    Counters(|Frames(items)|, RawLength(cfg, items), 0, true)
  }

  lemma RoutedCycle<F>(cfg: Config<F>, w: World<F>, first: bool, events: seq<Event<F>>)
    requires ScanItems(cfg, cfg.maxPreRoute, true, events, 0).stop.Routed?
    ensures var pre := ScanItems(cfg, cfg.maxPreRoute, true, events, 0);
            var post := ScanItems(cfg, cfg.maxPostRoute, false, events[pre.consumed..], 0);
            RunCycle(cfg, w, first, events) == ForwardPhase(cfg, w, pre.stop.key, pre, post)
  {
  }

  /** The two scans of a request, and that its cycle goes on to forward it. */
  lemma ForwardsRequest<F>(cfg: Config<F>, w: World<F>, first: bool, events: seq<Event<F>>, r: nat, n: nat)
    returns (pre: Scan<F>, post: Scan<F>)
    requires IsRequest(cfg, events, r, n)
    ensures var a, b := Data(events[..r + 1]), Data(events[r + 1..][..n]);
            && pre == Scan(a, r + 1, RawLength(cfg, a), |Frames(a)|, Routed(Key(cfg, events[r].data).value))
            && post == Scan(b, Upto(events[r + 1..], n), RawLength(cfg, b), |Frames(b)|, StopAt(events[r + 1..], n))
            && RunCycle(cfg, w, first, events) == ForwardPhase(cfg, w, pre.stop.key, pre, post)
  {
    hide RunCycle, ScanItems, ForwardPhase, Frames, RawLength;
    RoutedScan(cfg, cfg.maxPreRoute, events, 0, r);
    ItemsScan(cfg, cfg.maxPostRoute, events[r + 1..], 0, n);
    RoutedCycle(cfg, w, first, events);
    pre := ScanItems(cfg, cfg.maxPreRoute, true, events, 0);
    post := ScanItems(cfg, cfg.maxPostRoute, false, events[r + 1..], 0);
  }

  /** The cycle of an authorised request: lookups, one write with all its items, then the response. */
  lemma WithAuthority<F>(cfg: Config<F>, w: World<F>, first: bool, events: seq<Event<F>>, r: nat, n: nat, dest: Dest)
    requires Authorised(cfg, w, events, r, n, dest)
    ensures var items := RequestItems(events, r, n);
            var key := Key(cfg, events[r].data).value;
            var before := UpToWrite(cfg, w, key, items, dest);
            var span, counted := RequestSpan(events, r, n), RequestCounters(cfg, items);
            RunCycle(cfg, w, first, events) ==
            if !w.upstreamOk then Cycle(span, before, Failed(Failure(Io, Forward)), counted)
            else After(before, RelayPhase(cfg, w, key, dest, Frames(items), span, counted))
  {
    hide RunCycle, ScanItems, ForwardPhase, RelayPhase, Outgoing, Frames, RawLength, Lookups;
    var pre, post := ForwardsRequest(cfg, w, first, events, r, n);
    RawLengthAppend(cfg, pre.taken, post.taken);
    FramesAppend(pre.taken, post.taken);
    ForwardAuthorised(cfg, w, pre.stop.key, pre, post, RequestItems(events, r, n), dest);
  }

  lemma ForwardAuthorised<F>(cfg: Config<F>, w: World<F>, key: Bytes, pre: Scan<F>, post: Scan<F>, items: seq<ParsedData<F>>, dest: Dest)
    requires post.stop != Overflow && items == pre.taken + post.taken
    requires cfg.validate(Frames(items)).None? && Destination(cfg, w) == Some(dest)
    ensures var before := UpToWrite(cfg, w, key, items, dest);
            var span, counted := pre.consumed + post.consumed, Counters(pre.frames + post.frames, pre.raw + post.raw, 0, true);
            ForwardPhase(cfg, w, key, pre, post) ==
            if !w.upstreamOk then Cycle(span, before, Failed(Failure(Io, Forward)), counted)
            else After(before, RelayPhase(cfg, w, key, dest, Frames(items), span, counted))
  {
    var span, counted := pre.consumed + post.consumed, Counters(pre.frames + post.frames, pre.raw + post.raw, 0, true);
    var write, relay := [Upstream(dest, Outgoing(cfg, items))], RelayPhase(cfg, w, key, dest, Frames(items), span, counted);
    assert Lookups(cfg, w, key) + (write + relay.effects) == UpToWrite(cfg, w, key, items, dest) + relay.effects;
  }

  /** Behind the write there are only client writes, and possibly a release as the very last effect. */
  lemma RelayEffects<F>(cfg: Config<F>, w: World<F>, key: Bytes, dest: Dest, request: seq<F>, consumed: nat, counted: Counters)
    ensures var c := RelayPhase(cfg, w, key, dest, request, consumed, counted);
            var tail := c.effects;
            && (forall i :: 0 <= i < |tail| ==> tail[i].Client? || (i == |tail| - 1 && tail[i] == Release(key, dest)))
            && ((exists i :: 0 <= i < |tail| && tail[i].Release?) <==> c.verdict == Again && cfg.pooled)
  {
    var c := RelayPhase(cfg, w, key, dest, request, consumed, counted);
    if c.verdict == Again && cfg.pooled {
      assert c.effects[|c.effects| - 1].Release?;
    }
  }

  ghost predicate OneUpstream(effects: seq<Effect>, e: Effect) {
    && e in effects
    && (forall x :: x in effects && x.Upstream? ==> x == e)
    && (forall i, j :: 0 <= i < j < |effects| ==> !(effects[i].Upstream? && effects[j].Upstream?))
  }

  lemma OneInTheMiddle(a: seq<Effect>, e: Effect, b: seq<Effect>)
    requires forall x :: x in a ==> !x.Upstream?
    requires forall i :: 0 <= i < |b| ==> !b[i].Upstream?
    ensures e.Upstream? ==> OneUpstream(a + [e] + b, e)
  {
    var all := a + [e] + b;
    assert all[|a|] == e;
    assert forall i :: 0 <= i < |a| ==> all[i] == a[i] && a[i] in a;
    assert forall i :: |a| < i < |all| ==> all[i] == b[i - |a| - 1];
    forall x | x in all && x.Upstream? ensures x == e {
      var i :| 0 <= i < |all| && all[i] == x;
    }
  }

  lemma AuthorisedWrite<F>(cfg: Config<F>, w: World<F>, first: bool, events: seq<Event<F>>, r: nat, n: nat, dest: Dest)
    requires Authorised(cfg, w, events, r, n, dest)
    ensures OneUpstream(RunCycle(cfg, w, first, events).effects, Upstream(dest, Outgoing(cfg, RequestItems(events, r, n))))
  {
    var key := Key(cfg, events[r].data).value;
    var before, tail := AuthorisedEffects(cfg, w, first, events, r, n, dest);
    LookupEffects(cfg, w, key);
    OneInTheMiddle(Lookups(cfg, w, key), Upstream(dest, Outgoing(cfg, RequestItems(events, r, n))), tail);
  }

  /** Everything in one cycle: at most one upstream write, and it is the authorised request. */
  lemma UpstreamExactly<F>(cfg: Config<F>, w: World<F>, first: bool, events: seq<Event<F>>, dest: Dest, bytes: Bytes)
    ensures var effects := RunCycle(cfg, w, first, events).effects;
            && (Upstream(dest, bytes) in effects <==>
                exists r: nat, n: nat :: Authorised(cfg, w, events, r, n, dest) && bytes == Outgoing(cfg, RequestItems(events, r, n)))
            && (forall i, j :: 0 <= i < j < |effects| ==> !(effects[i].Upstream? && effects[j].Upstream?))
  {
    if r: nat, n: nat, d: Dest :| Authorised(cfg, w, events, r, n, d) {
      AuthorisedWrite(cfg, w, first, events, r, n, d);
      RequestUnique(cfg, events, r, n);
    } else {
      var lookups := WithoutAuthority(cfg, w, first, events);
      var effects := RunCycle(cfg, w, first, events).effects;
      assert forall e :: e in effects ==> IsLookup(e) || e.ErrorResponse?;
      assert forall i :: 0 <= i < |effects| ==> effects[i] in effects;
    }
  }

  lemma AuthorisedEffects<F>(cfg: Config<F>, w: World<F>, first: bool, events: seq<Event<F>>, r: nat, n: nat, dest: Dest)
    returns (before: seq<Effect>, tail: seq<Effect>)
    requires Authorised(cfg, w, events, r, n, dest)
    ensures before == UpToWrite(cfg, w, Key(cfg, events[r].data).value, RequestItems(events, r, n), dest)
    ensures RunCycle(cfg, w, first, events).effects == before + tail
    ensures forall i :: 0 <= i < |tail| ==> tail[i].Client? || tail[i].Release?
  {
    var items, key := RequestItems(events, r, n), Key(cfg, events[r].data).value;
    before := UpToWrite(cfg, w, key, items, dest);
    var consumed, counted := RequestSpan(events, r, n), RequestCounters(cfg, items);
    WithAuthority(cfg, w, first, events, r, n, dest);
    if w.upstreamOk {
      RelayEffects(cfg, w, key, dest, Frames(items), consumed, counted);
      tail := RelayPhase(cfg, w, key, dest, Frames(items), consumed, counted).effects;
    } else {
      tail := [];
    }
  }

  /** A script starts with at most one request. */
  lemma RequestUnique<F>(cfg: Config<F>, events: seq<Event<F>>, r: nat, n: nat)
    requires IsRequest(cfg, events, r, n)
    ensures forall r': nat, n': nat :: IsRequest(cfg, events, r', n') ==> r' == r && n' == n
  {
    forall r': nat, n': nat | IsRequest(cfg, events, r', n') ensures r' == r && n' == n {
      ItemsReach(cfg, cfg.maxPostRoute, events[r + 1..], n, n');
      ItemsReach(cfg, cfg.maxPostRoute, events[r + 1..], n', n);
    }
  }

  lemma ItemsReach<F>(cfg: Config<F>, max: nat, events: seq<Event<F>>, n: nat, n': nat)
    requires ItemsUpTo(cfg, max, events, n)
    ensures ItemsUpTo(cfg, max, events, n') ==> n <= n'
  {
    assert forall i :: 0 <= i < n ==> events[..n][i] == events[i];
  }

  // ----- error responses -----

  /**
   * An error response goes out exactly when the cycle fails before the upstream write and there is a
   * responder; it renders that failure, and it is the last thing the cycle does.
   */
  lemma ErrorResponseExactly<F>(cfg: Config<F>, w: World<F>, first: bool, events: seq<Event<F>>)
    ensures var c := RunCycle(cfg, w, first, events);
            && ((exists e :: e in c.effects && e.ErrorResponse?) <==>
                c.verdict.Failed? && cfg.errorBytes.Some? && forall r: nat, n: nat, d: Dest :: !Authorised(cfg, w, events, r, n, d))
            && (forall i :: 0 <= i < |c.effects| && c.effects[i].ErrorResponse? ==>
                  && i == |c.effects| - 1 && c.verdict.Failed?
                  && c.effects[i] == ErrorResponse(cfg.errorBytes.value(c.verdict.failure))
                  && forall j :: 0 <= j < i ==> IsLookup(c.effects[j]))
  {
    var c := RunCycle(cfg, w, first, events);
    if r: nat, n: nat, d: Dest :| Authorised(cfg, w, events, r, n, d) {
      var key := Key(cfg, events[r].data).value;
      var before, tail := AuthorisedEffects(cfg, w, first, events, r, n, d);
      LookupEffects(cfg, w, key);
      NoErrorResponse(Lookups(cfg, w, key), Upstream(d, Outgoing(cfg, RequestItems(events, r, n))), tail);
    } else {
      var lookups := WithoutAuthority(cfg, w, first, events);
      if c.verdict.Failed? {
        ErrorBehind(lookups, ErrorEffects(cfg, c.verdict.failure));
      }
    }
  }

  lemma NoErrorResponse(a: seq<Effect>, e: Effect, b: seq<Effect>)
    requires forall x :: x in a ==> IsLookup(x)
    requires e.Upstream? && forall i :: 0 <= i < |b| ==> b[i].Client? || b[i].Release?
    ensures forall x :: x in a + [e] + b ==> !x.ErrorResponse?
    ensures forall i :: 0 <= i < |a + [e] + b| ==> !(a + [e] + b)[i].ErrorResponse?
  {
    assert forall i :: 0 <= i < |a| ==> a[i] in a;
  }

  lemma ErrorBehind(lookups: seq<Effect>, errors: seq<Effect>)
    requires forall x :: x in lookups ==> IsLookup(x)
    requires |errors| <= 1 && forall i :: 0 <= i < |errors| ==> errors[i].ErrorResponse?
    ensures var all := lookups + errors;
            && ((exists e :: e in all && e.ErrorResponse?) <==> errors != [])
            && forall i :: 0 <= i < |all| && all[i].ErrorResponse? ==>
               i == |all| - 1 && all[i] == errors[0] && forall j :: 0 <= j < i ==> IsLookup(all[j])
  {
    var all := lookups + errors;
    assert forall i :: 0 <= i < |lookups| ==> all[i] == lookups[i] && lookups[i] in lookups;
    if errors != [] {
      assert all[|lookups|] == errors[0] && errors[0] in all;
    }
    if e :| e in all && e.ErrorResponse? {
      assert e in lookups || e in errors;
    }
  }

  // ----- the response -----

  /** Response bytes as the client should see them. */
  function ResponseBytes<F>(cfg: Config<F>, side: ResponseSide<F>, items: seq<ParsedData<F>>): Bytes {
    if items == [] then [] else ProcessedResponse(cfg, side, items[0]) + ResponseBytes(cfg, side, items[1..])
  }

  /** The items in front of the end of the response stream, or of the error that breaks it. */
  ghost predicate ResponseEnd<F>(events: seq<Event<F>>, m: nat) {
    m <= |events| && AllItems(events[..m]) && (m == |events| || !events[m].Item?)
  }

  /** The log accounts for exactly these items, behind an unsent batch. */
  ghost predicate Accounts<F>(cfg: Config<F>, side: ResponseSide<F>, r: RelayLog<F>, batch: Bytes, items: seq<ParsedData<F>>) {
    && Concat(r.writes) == batch + ResponseBytes(cfg, side, items)
    && r.size == |ResponseBytes(cfg, side, items)|
    && r.seen == Frames(items)
  }

  /** The relay only stops early when a client write failed. */
  ghost predicate StopsAt<F>(end: RelayEnd, events: seq<Event<F>>, m: nat)
    requires m <= |events|
  {
    match end
    case Delivered => m == |events| || events[m].End?
    case StreamBroken(kind) => m < |events| && events[m] == Broken(kind)
    case WriteFailed => true
  }

  lemma AccountsNothing<F>(cfg: Config<F>, side: ResponseSide<F>, ok: nat -> bool, events: seq<Event<F>>, batch: Bytes, sent: nat)
    requires events == [] || !events[0].Item?
    ensures Accounts(cfg, side, RelayItems(cfg, side, ok, events, batch, sent), batch, [])
  {
    assert batch + [] == batch;
    ConcatFirst(batch, []);
    assert [batch] + [] == [batch];
  }

  lemma AccountsMore<F>(cfg: Config<F>, side: ResponseSide<F>, batch: Bytes, d: ParsedData<F>,
                        items: seq<ParsedData<F>>, writes: seq<Bytes>, unsent: Bytes, r: RelayLog<F>)
    requires Accounts(cfg, side, r, unsent, items)
    requires Concat(writes) + unsent == batch + ProcessedResponse(cfg, side, d)
    ensures Accounts(cfg, side, Relayed(ProcessedResponse(cfg, side, d), d, writes, r), batch, [d] + items)
  {
    assert ([d] + items)[1..] == items;
    ConcatAppend(writes, r.writes);
    var bytes, rest := ProcessedResponse(cfg, side, d), ResponseBytes(cfg, side, items);
    assert Concat(writes) + (unsent + rest) == Concat(writes) + unsent + rest;
    assert batch + bytes + rest == batch + (bytes + rest);
  }

  /** The first step of the relay on an item. */
  lemma RelayOne<F>(cfg: Config<F>, side: ResponseSide<F>, ok: nat -> bool, events: seq<Event<F>>, batch: Bytes, sent: nat)
    requires events != [] && events[0].Item?
    ensures var d := events[0].data;
            var bytes := ProcessedResponse(cfg, side, d);
            var full := batch + bytes;
            RelayItems(cfg, side, ok, events, batch, sent) ==
            if |full| <= BATCH_LIMIT then Relayed(bytes, d, [], RelayItems(cfg, side, ok, events[1..], full, sent))
            else if ok(sent) then Relayed(bytes, d, [full], RelayItems(cfg, side, ok, events[1..], [], sent + 1))
            else Relayed(bytes, d, [full], RelayLog([], 0, [], WriteFailed))
  {
    assert [batch + ProcessedResponse(cfg, side, events[0].data)] + [] == [batch + ProcessedResponse(cfg, side, events[0].data)];
    assert Show(events[0].data) + [] == Show(events[0].data);
  }

  /**
   * Batching is invisible: what the relay writes is the in-order concatenation of the processed items
   * it has counted and shown to the hook, and those are all items unless a client write failed.
   */
  lemma {:induction false} RelayContent<F>(cfg: Config<F>, side: ResponseSide<F>, ok: nat -> bool,
                                           events: seq<Event<F>>, batch: Bytes, sent: nat) returns (m: nat)
    ensures m <= |events| && AllItems(events[..m])
    ensures var r := RelayItems(cfg, side, ok, events, batch, sent);
            Accounts(cfg, side, r, batch, Data(events[..m])) && StopsAt(r.end, events, m)
    decreases |events|
  {
    if events == [] || !events[0].Item? {
      m := 0;
      AccountsNothing(cfg, side, ok, events, batch, sent);
      assert Data(events[..0]) == [];
    } else {
      var d, more := events[0].data, events[1..];
      var full := batch + ProcessedResponse(cfg, side, d);
      RelayOne(cfg, side, ok, events, batch, sent);
      ConcatFirst(full, []);
      assert [full] + [] == [full] && full + [] == full && [] + full == full;
      if |full| <= BATCH_LIMIT {
        var k := RelayContent(cfg, side, ok, more, full, sent);
        m := k + 1;
        FirstItem(events, k);
        AccountsMore(cfg, side, batch, d, Data(more[..k]), [], full, RelayItems(cfg, side, ok, more, full, sent));
      } else if ok(sent) {
        var k := RelayContent(cfg, side, ok, more, [], sent + 1);
        m := k + 1;
        FirstItem(events, k);
        AccountsMore(cfg, side, batch, d, Data(more[..k]), [full], [], RelayItems(cfg, side, ok, more, [], sent + 1));
      } else {
        m := 1;
        FirstItem(events, 0);
        assert Data(more[..0]) == [];
        AccountsMore(cfg, side, batch, d, [], [full], [], RelayLog([], 0, [], WriteFailed));
      }
    }
  }

  /** Nothing is written below the limit, except what is left at the end. */
  ghost predicate Batched(writes: seq<Bytes>) {
    forall i :: 0 <= i < |writes| ==> writes[i] != [] && (i < |writes| - 1 ==> |writes[i]| > 32768)
  }

  ghost predicate AllOk(ok: nat -> bool, begin: nat, end: nat) {
    forall k :: begin <= k < end ==> ok(k)
  }

  /** Every write but the last succeeds and exceeds the limit; a failed write is the last one. */
  ghost predicate SoundWrites<F>(r: RelayLog<F>, ok: nat -> bool, sent: nat) {
    var last := sent + |r.writes| - 1;
    && Batched(r.writes)
    && (r.writes != [] ==> AllOk(ok, sent, last))
    && (r.end == WriteFailed ==> r.writes != [] && !ok(last))
    && (r.end == Delivered && r.writes != [] ==> ok(last))
  }

  lemma SoundAfterWrite<F>(full: Bytes, bytes: Bytes, d: ParsedData<F>, r: RelayLog<F>, ok: nat -> bool, sent: nat)
    requires |full| > BATCH_LIMIT && ok(sent) && SoundWrites(r, ok, sent + 1)
    ensures SoundWrites(Relayed(bytes, d, [full], r), ok, sent)
  {
    var all := [full] + r.writes;
    assert forall i :: 1 <= i < |all| ==> all[i] == r.writes[i - 1];
  }

  lemma SoundWithoutWrite<F>(bytes: Bytes, d: ParsedData<F>, r: RelayLog<F>, ok: nat -> bool, sent: nat)
    requires SoundWrites(r, ok, sent)
    ensures SoundWrites(Relayed(bytes, d, [], r), ok, sent)
  {
    assert [] + r.writes == r.writes;
  }

  lemma SoundFailure<F>(full: Bytes, bytes: Bytes, d: ParsedData<F>, ok: nat -> bool, sent: nat)
    requires full != [] && !ok(sent)
    ensures SoundWrites(Relayed(bytes, d, [full], RelayLog([], 0, [], WriteFailed)), ok, sent)
  {
    assert [full] + [] == [full];
  }

  lemma {:induction false} RelayWrites<F>(cfg: Config<F>, side: ResponseSide<F>, ok: nat -> bool,
                                          events: seq<Event<F>>, batch: Bytes, sent: nat)
    ensures SoundWrites(RelayItems(cfg, side, ok, events, batch, sent), ok, sent)
    decreases |events|
  {
    if events != [] && events[0].Item? {
      var d, more := events[0].data, events[1..];
      var bytes := ProcessedResponse(cfg, side, d);
      var full := batch + bytes;
      RelayOne(cfg, side, ok, events, batch, sent);
      if |full| <= BATCH_LIMIT {
        RelayWrites(cfg, side, ok, more, full, sent);
        SoundWithoutWrite(bytes, d, RelayItems(cfg, side, ok, more, full, sent), ok, sent);
      } else if ok(sent) {
        RelayWrites(cfg, side, ok, more, [], sent + 1);
        SoundAfterWrite(full, bytes, d, RelayItems(cfg, side, ok, more, [], sent + 1), ok, sent);
      } else {
        SoundFailure(full, bytes, d, ok, sent);
      }
    }
  }

  lemma ConcatFirst(x: Bytes, xs: seq<Bytes>)
    ensures Concat([x] + xs) == x + Concat(xs)
  {
    assert ([x] + xs)[1..] == xs;
  }

  lemma FirstItem<F>(events: seq<Event<F>>, k: nat)
    requires events != [] && events[0].Item? && k <= |events[1..]| && AllItems(events[1..][..k])
    ensures AllItems(events[..k + 1]) && Data(events[..k + 1]) == [events[0].data] + Data(events[1..][..k])
  {
    assert events[..k + 1] == [events[0]] + events[1..][..k];
  }

  // ----- the fate of the upstream connection -----

  /** Everything in front of the end of the response stream got through and nobody wants to close. */
  ghost predicate Reusable<F>(cfg: Config<F>, w: World<F>, request: seq<F>) {
    && w.upstreamOk && cfg.responses.Some?
    && var side := cfg.responses.value;
       var r := RelayItems(cfg, side, w.clientOk, w.response, [], 0);
       && r.end == Delivered
       && !cfg.closes(request)
       && !(side.closes.Some? && side.closes.value(r.seen))
  }

  /**
   * The upstream connection goes back to the pool, once, last, and under the key of its request,
   * exactly when there is a pool, the response stream was relayed to its end and neither hook asked to close;
   * this is also exactly when the connection serves another request.
   */
  lemma ReleaseExactly<F>(cfg: Config<F>, w: World<F>, first: bool, events: seq<Event<F>>, key: Bytes, dest: Dest)
    ensures var c := RunCycle(cfg, w, first, events);
            && (Release(key, dest) in c.effects <==>
                cfg.pooled && exists r: nat, n: nat ::
                  (&& Authorised(cfg, w, events, r, n, dest)
                   && Reusable(cfg, w, Frames(RequestItems(events, r, n)))
                   && Key(cfg, events[r].data) == Some(key)))
            && (forall i :: 0 <= i < |c.effects| && c.effects[i].Release? ==> i == |c.effects| - 1)
            && (c.verdict == Again <==> exists r: nat, n: nat, d: Dest ::
                  Authorised(cfg, w, events, r, n, d) && Reusable(cfg, w, Frames(RequestItems(events, r, n))))
  {
    if r: nat, n: nat, d: Dest :| Authorised(cfg, w, events, r, n, d) {
      ReleaseWithAuthority(cfg, w, first, events, r, n, d);
      RequestUnique(cfg, events, r, n);
    } else {
      var lookups := WithoutAuthority(cfg, w, first, events);
      var effects := RunCycle(cfg, w, first, events).effects;
      assert forall e :: e in effects ==> IsLookup(e) || e.ErrorResponse?;
      assert forall i :: 0 <= i < |effects| ==> effects[i] in effects;
    }
  }

  lemma ReleaseWithAuthority<F>(cfg: Config<F>, w: World<F>, first: bool, events: seq<Event<F>>, r: nat, n: nat, dest: Dest)
    requires Authorised(cfg, w, events, r, n, dest)
    ensures var c := RunCycle(cfg, w, first, events);
            var key := Key(cfg, events[r].data).value;
            var reusable := Reusable(cfg, w, Frames(RequestItems(events, r, n)));
            && (c.verdict == Again <==> reusable)
            && (forall k, d :: Release(k, d) in c.effects <==> cfg.pooled && reusable && k == key && d == dest)
            && (forall i :: 0 <= i < |c.effects| && c.effects[i].Release? ==> i == |c.effects| - 1)
  {
    var items, key := RequestItems(events, r, n), Key(cfg, events[r].data).value;
    var before := UpToWrite(cfg, w, key, items, dest);
    var consumed, counted := RequestSpan(events, r, n), RequestCounters(cfg, items);
    WithAuthority(cfg, w, first, events, r, n, dest);
    LookupEffects(cfg, w, key);
    assert forall e :: e in before ==> !e.Release?;
    if w.upstreamOk {
      RelayEffects(cfg, w, key, dest, Frames(items), consumed, counted);
      OnlyLastRelease(before, RelayPhase(cfg, w, key, dest, Frames(items), consumed, counted).effects, Release(key, dest));
    } else {
      assert before + [] == before;
      OnlyLastRelease(before, [], Release(key, dest));
    }
  }

  lemma OnlyLastRelease(before: seq<Effect>, tail: seq<Effect>, release: Effect)
    requires forall e :: e in before ==> !e.Release?
    requires release.Release?
    requires forall i :: 0 <= i < |tail| ==> tail[i].Client? || (i == |tail| - 1 && tail[i] == release)
    ensures var all := before + tail;
            && (forall i :: 0 <= i < |all| && all[i].Release? ==> i == |all| - 1)
            && (forall e :: e in all && e.Release? <==> e == release && exists i :: 0 <= i < |tail| && tail[i].Release?)
  {
    var all := before + tail;
    assert forall i :: 0 <= i < |before| ==> all[i] == before[i] && before[i] in before;
    assert forall i :: |before| <= i < |all| ==> all[i] == tail[i - |before|];
    if i :| 0 <= i < |tail| && tail[i].Release? {
      assert all[|before| + i] == release;
    }
    forall e | e in all && e.Release?
      ensures e == release && exists i :: 0 <= i < |tail| && tail[i].Release?
    {
      var i :| 0 <= i < |all| && all[i] == e;
      assert tail[i - |before|] == e;
    }
  }

  // ----- counting the response -----

  /** Everything the client was sent of upstream responses. */
  function ClientBytes(effects: seq<Effect>): Bytes {
    if effects == [] then []
    else (if effects[0].Client? then effects[0].bytes else []) + ClientBytes(effects[1..])
  }

  lemma {:induction false} ClientBytesAppend(a: seq<Effect>, b: seq<Effect>)
    ensures ClientBytes(a + b) == ClientBytes(a) + ClientBytes(b)
  {
    if a == [] {
      assert a + b == b;
    } else {
      assert (a + b)[1..] == a[1..] + b;
      ClientBytesAppend(a[1..], b);
    }
  }

  lemma {:induction false} NoClientBytes(effects: seq<Effect>)
    requires forall e :: e in effects ==> !e.Client?
    ensures ClientBytes(effects) == []
  {
    if effects != [] {
      assert effects[0] in effects;
      NoClientBytes(effects[1..]);
    }
  }

  lemma {:induction false} ClientsBytes(writes: seq<Bytes>)
    ensures ClientBytes(Clients(writes)) == Concat(writes)
  {
    if writes != [] {
      assert Clients(writes)[1..] == Clients(writes[1..]);
      ClientsBytes(writes[1..]);
    }
  }

  lemma RelayPhaseBytes<F>(cfg: Config<F>, w: World<F>, key: Bytes, dest: Dest, request: seq<F>, consumed: nat, counted: Counters)
    requires cfg.responses.Some?
    ensures var c := RelayPhase(cfg, w, key, dest, request, consumed, counted);
            var r := RelayItems(cfg, cfg.responses.value, w.clientOk, w.response, [], 0);
            ClientBytes(c.effects) == Concat(r.writes) && c.counters.responseBytes == r.size
  {
    var c := RelayPhase(cfg, w, key, dest, request, consumed, counted);
    var writes := RelayItems(cfg, cfg.responses.value, w.clientOk, w.response, [], 0).writes;
    ClientsBytes(writes);
    if c.verdict == Again {
      ClientsThenRelease(writes, if cfg.pooled then [Release(key, dest)] else []);
    }
  }

  lemma ClientsThenRelease(writes: seq<Bytes>, tail: seq<Effect>)
    requires forall e :: e in tail ==> !e.Client?
    ensures ClientBytes(Clients(writes) + tail) == Concat(writes)
  {
    ClientsBytes(writes);
    ClientBytesAppend(Clients(writes), tail);
    NoClientBytes(tail);
  }

  /**
   * With a response parser, what a cycle counts as response bytes is what it sent the client; and when
   * the cycle succeeded after writing upstream, that is everything the response stream handed out,
   * processed and in order.
   */
  lemma ResponseAccounting<F>(cfg: Config<F>, w: World<F>, first: bool, events: seq<Event<F>>)
    requires cfg.responses.Some?
    ensures var c := RunCycle(cfg, w, first, events);
            && c.counters.responseBytes == |ClientBytes(c.effects)|
            && (c.counters.routed && !c.verdict.Failed? ==> exists m: nat ::
                  (&& ResponseEnd(w.response, m)
                   && ClientBytes(c.effects) == ResponseBytes(cfg, cfg.responses.value, Data(w.response[..m]))))
  {
    var side := cfg.responses.value;
    if r: nat, n: nat, d: Dest :| Authorised(cfg, w, events, r, n, d) {
      SentOfAuthorised(cfg, w, first, events, r, n, d);
      var m := RelayContent(cfg, side, w.clientOk, w.response, [], 0);
      var bytes := ResponseBytes(cfg, side, Data(w.response[..m]));
      assert [] + bytes == bytes;
    } else {
      NothingSent(cfg, w, first, events);
    }
  }

  lemma SentOfAuthorised<F>(cfg: Config<F>, w: World<F>, first: bool, events: seq<Event<F>>, r: nat, n: nat, dest: Dest)
    requires cfg.responses.Some? && Authorised(cfg, w, events, r, n, dest)
    ensures var c := RunCycle(cfg, w, first, events);
            var relay := RelayItems(cfg, cfg.responses.value, w.clientOk, w.response, [], 0);
            && ClientBytes(c.effects) == (if w.upstreamOk then Concat(relay.writes) else [])
            && c.counters.responseBytes == (if w.upstreamOk then relay.size else 0)
            && (!w.upstreamOk ==> c.verdict.Failed?)
            && (relay.end != Delivered ==> c.verdict.Failed?)
  {
    var items, key := RequestItems(events, r, n), Key(cfg, events[r].data).value;
    var before := UpToWrite(cfg, w, key, items, dest);
    var consumed, counted := RequestSpan(events, r, n), RequestCounters(cfg, items);
    WithAuthority(cfg, w, first, events, r, n, dest);
    LookupEffects(cfg, w, key);
    NoClientBytes(before);
    if w.upstreamOk {
      RelayPhaseBytes(cfg, w, key, dest, Frames(items), consumed, counted);
      ClientBytesAppend(before, RelayPhase(cfg, w, key, dest, Frames(items), consumed, counted).effects);
    }
  }

  lemma NothingSent<F>(cfg: Config<F>, w: World<F>, first: bool, events: seq<Event<F>>)
    requires forall r: nat, n: nat, d: Dest :: !Authorised(cfg, w, events, r, n, d)
    ensures var c := RunCycle(cfg, w, first, events);
            ClientBytes(c.effects) == [] && c.counters.responseBytes == 0 && !c.counters.routed
  {
    var lookups := WithoutAuthority(cfg, w, first, events);
    NoClientBytes(RunCycle(cfg, w, first, events).effects);
  }

  /**
   * One exchange: the only upstream write is the processed request that `events` start with, under
   * key `key`, and the client was sent the processed answer, all of the `m` items in front of
   * the end of the response stream.
   */
  ghost predicate Exchange<F>(cfg: Config<F>, w: World<F>, events: seq<Event<F>>, effects: seq<Effect>,
                              key: Bytes, dest: Dest, r: nat, n: nat, m: nat) {
    && cfg.responses.Some?
    && Authorised(cfg, w, events, r, n, dest) && Key(cfg, events[r].data) == Some(key)
    && ResponseEnd(w.response, m) && (m == |w.response| || w.response[m].End?)
    && OneUpstream(effects, Upstream(dest, Outgoing(cfg, RequestItems(events, r, n))))
    && ClientBytes(effects) == ResponseBytes(cfg, cfg.responses.value, Data(w.response[..m]))
  }

  /** A cycle that pools its connection has had one exchange over it, and neither hook objected. */
  lemma ReleasedExchange<F>(cfg: Config<F>, w: World<F>, first: bool, events: seq<Event<F>>, key: Bytes, dest: Dest)
    returns (r: nat, n: nat, m: nat)
    requires Release(key, dest) in RunCycle(cfg, w, first, events).effects
    ensures Exchange(cfg, w, events, RunCycle(cfg, w, first, events).effects, key, dest, r, n, m)
    ensures !cfg.closes(Frames(RequestItems(events, r, n)))
    ensures cfg.responses.value.closes.Some? ==> !cfg.responses.value.closes.value(Frames(Data(w.response[..m])))
  {
    hide RunCycle, Outgoing;
    ReleaseExactly(cfg, w, first, events, key, dest);
    r, n :| Authorised(cfg, w, events, r, n, dest) && Reusable(cfg, w, Frames(RequestItems(events, r, n)))
            && Key(cfg, events[r].data) == Some(key);
    AuthorisedWrite(cfg, w, first, events, r, n, dest);
    m := DeliveredAnswer(cfg, w, first, events, r, n, dest);
  }

  lemma DeliveredAnswer<F>(cfg: Config<F>, w: World<F>, first: bool, events: seq<Event<F>>, r: nat, n: nat, dest: Dest)
    returns (m: nat)
    requires Authorised(cfg, w, events, r, n, dest) && Reusable(cfg, w, Frames(RequestItems(events, r, n)))
    ensures ResponseEnd(w.response, m) && (m == |w.response| || w.response[m].End?)
    ensures var answer := Data(w.response[..m]);
            && ClientBytes(RunCycle(cfg, w, first, events).effects) == ResponseBytes(cfg, cfg.responses.value, answer)
            && RelayItems(cfg, cfg.responses.value, w.clientOk, w.response, [], 0).seen == Frames(answer)
  {
    var side := cfg.responses.value;
    m := RelayContent(cfg, side, w.clientOk, w.response, [], 0);
    var bytes := ResponseBytes(cfg, side, Data(w.response[..m]));
    assert [] + bytes == bytes;
    SentOfAuthorised(cfg, w, first, events, r, n, dest);
  }

  // ----- requests that are cut short -----

  /**
   * A stream that breaks behind the routing key is not noticed: the cycle is the one an end marker in
   * the same place gives, so a request cut short is validated, sent and answered like any other.
   */
  lemma BreakIsEnd<F>(cfg: Config<F>, w: World<F>, first: bool, events: seq<Event<F>>, r: nat, n: nat)
    requires IsRequest(cfg, events, r, n) && n < |events[r + 1..]| && events[r + 1..][n].Broken?
    ensures RunCycle(cfg, w, first, events) == RunCycle(cfg, w, first, events[r + 1 + n := End])
    ensures IsRequest(cfg, events[r + 1 + n := End], r, n)
  {
    var ended := events[r + 1 + n := End];
    var a, b := events[r + 1..], ended[r + 1..];
    assert events[..r + 1] == ended[..r + 1] && a[..n] == b[..n] && b == a[n := End];
    assert ended[r] == events[r];
    assert forall i :: 0 <= i < r ==> ended[i] == events[i];
    hide RunCycle, ForwardPhase, RawLength, Frames;
    var pre, post := ForwardsRequest(cfg, w, first, events, r, n);
    var pre', post' := ForwardsRequest(cfg, w, first, ended, r, n);
    StopIrrelevant(cfg, w, pre.stop.key, pre, pre', post, post');
  }

  lemma StopIrrelevant<F>(cfg: Config<F>, w: World<F>, key: Bytes, pre: Scan<F>, pre': Scan<F>, post: Scan<F>, post': Scan<F>)
    requires pre == pre' && post.(stop := Ended) == post'.(stop := Ended)
    requires post.stop != Overflow && post'.stop != Overflow
    ensures ForwardPhase(cfg, w, key, pre, post) == ForwardPhase(cfg, w, key, pre', post')
  {
  }

  /** A concrete request that goes upstream although its stream broke right behind the routing key. */
  lemma CutShortIsWritten<F>(cfg: Config<F>, w: World<F>, frame: F, kind: ErrorKind, dest: Dest)
    requires cfg.keyOf(frame).Some? && |cfg.bytesOf(frame)| <= cfg.maxPreRoute
    requires cfg.validate([frame]).None? && Destination(cfg, w) == Some(dest)
    ensures var events := [Item(Parsed(frame)), Broken(kind)];
            Upstream(dest, cfg.bytesOf(cfg.process(frame))) in RunCycle(cfg, w, true, events).effects
  {
    hide RunCycle;
    var d: ParsedData<F> := Parsed(frame);
    var events := [Item(d), Broken(kind)];
    OneItem(cfg, d, events[..1]);
    assert Data(events[1..][..0]) == [] && RequestItems(events, 0, 0) == [d];
    AuthorisedWrite(cfg, w, true, events, 0, 0, dest);
  }

  /** Passed-through bytes are not shown to the hook: they go upstream as they are, whatever they hold. */
  lemma PassthroughUnchecked<F>(cfg: Config<F>, w: World<F>, frame: F, bytes: Bytes, dest: Dest)
    requires cfg.keyOf(frame).Some? && |cfg.bytesOf(frame)| <= cfg.maxPreRoute && |bytes| <= cfg.maxPostRoute
    requires cfg.validate([frame]).None? && Destination(cfg, w) == Some(dest)
    ensures var events := [Item(Parsed(frame)), Item(Passthrough(bytes)), End];
            Upstream(dest, cfg.bytesOf(cfg.process(frame)) + bytes) in RunCycle(cfg, w, true, events).effects
  {
    hide RunCycle;
    var d: ParsedData<F>, p: ParsedData<F> := Parsed(frame), Passthrough(bytes);
    var events := [Item(d), Item(p), End];
    OneItem(cfg, d, events[..1]);
    OneItem(cfg, p, events[1..][..1]);
    assert RequestItems(events, 0, 1) == [d, p];
    CountFirst(cfg, d, [p]);
    FramesAppend([d], [p]);
    OutgoingAppend(cfg, [d], [p]);
    assert [d] + [p] == [d, p] && [frame] + [] == [frame];
    AuthorisedWrite(cfg, w, true, events, 0, 1, dest);
  }

  lemma OneItem<F>(cfg: Config<F>, d: ParsedData<F>, events: seq<Event<F>>)
    requires events == [Item(d)]
    ensures AllItems(events) && Data(events) == [d] && RawLength(cfg, [d]) == |Raw(cfg, d)|
    ensures Frames([d]) == Show(d) && Outgoing(cfg, [d]) == Processed(cfg, d)
  {
    assert [d][1..] == [] && Processed(cfg, d) + [] == Processed(cfg, d) && Show(d) + [] == Show(d);
  }

  // ----- whole connections -----

  /** A cycle uses up no more events than there are, and a cycle that is followed by another some. */
  ghost predicate Progresses<F>(step: (nat, seq<Event<F>>) -> Cycle, i: nat, events: seq<Event<F>>) {
    var c := step(i, events);
    c.consumed <= |events| && (c.verdict == Again ==> c.consumed > 0)
  }

  /** How many events the first `j` cycles have used up. */
  function Offset(cs: seq<Cycle>, j: nat): nat
    requires j <= |cs|
  {
    if j == 0 then 0 else cs[0].consumed + Offset(cs[1..], j - 1)
  }

  ghost predicate Progressive<F(!new)>(step: (nat, seq<Event<F>>) -> Cycle) {
    forall k, events :: Progresses(step, k, events)
  }

  lemma CyclesFirst<F>(step: (nat, seq<Event<F>>) -> Cycle, i: nat, events: seq<Event<F>>)
    requires Progresses(step, i, events)
    ensures var c, cs := step(i, events), Cycles(step, i, events);
            && cs != [] && cs[0] == c
            && (if c.verdict == Again then cs[1..] == Cycles(step, i + 1, events[c.consumed..]) != [] else cs[1..] == [])
  {
  }

  /** Cycle `j` runs on the events its predecessors left, and only the last one stops. */
  ghost predicate RunsInOrder<F>(step: (nat, seq<Event<F>>) -> Cycle, i: nat, events: seq<Event<F>>, cs: seq<Cycle>, j: nat)
    requires j < |cs|
  {
    && Offset(cs, j) <= |events|
    && cs[j] == step(i + j, events[Offset(cs, j)..])
    && (cs[j].verdict == Again <==> j < |cs| - 1)
  }

  lemma OneLater<F>(step: (nat, seq<Event<F>>) -> Cycle, i: nat, events: seq<Event<F>>, c: Cycle, rest: seq<Cycle>, j: nat)
    requires j < |rest| && c.consumed <= |events|
    requires RunsInOrder(step, i + 1, events[c.consumed..], rest, j)
    ensures RunsInOrder(step, i, events, [c] + rest, j + 1)
  {
    assert ([c] + rest)[1..] == rest;
    assert events[c.consumed..][Offset(rest, j)..] == events[c.consumed + Offset(rest, j)..];
  }

  lemma {:induction false} CycleOf<F(!new)>(step: (nat, seq<Event<F>>) -> Cycle, i: nat, events: seq<Event<F>>, j: nat)
    requires Progressive(step) && j < |Cycles(step, i, events)|
    ensures RunsInOrder(step, i, events, Cycles(step, i, events), j)
    decreases j
  {
    assert Progresses(step, i, events);
    hide Progressive;
    CyclesFirst(step, i, events);
    hide Cycles;
    var c := step(i, events);
    if j == 0 {
      assert events[0..] == events;
    } else {
      hide RunsInOrder;
      var rest := Cycles(step, i + 1, events[c.consumed..]);
      assert Cycles(step, i, events) == [c] + rest;
      CycleOf(step, i + 1, events[c.consumed..], j - 1);
      OneLater(step, i, events, c, rest, j - 1);
    }
  }

  lemma CycleOfRun<F(!new)>(cfg: Config<F>, world: nat -> World<F>, events: seq<Event<F>>, j: nat)
    requires j < |Run(cfg, world, events)|
    ensures var cs := Run(cfg, world, events);
            && Offset(cs, j) <= |events|
            && cs[j] == RunCycle(cfg, world(j), j == 0, events[Offset(cs, j)..])
            && (cs[j].verdict == Again <==> j < |cs| - 1)
  {
    hide RunCycle;
    forall k, evs ensures Progresses(Step(cfg, world), k, evs) {
      CycleConsumes(cfg, world(k), k == 0, evs);
    }
    CycleOf(Step(cfg, world), 0, events, j);
  }

  lemma {:induction false} EffectOfCycle(cs: seq<Cycle>, e: Effect) returns (j: nat)
    requires e in AllEffects(cs)
    ensures j < |cs| && e in cs[j].effects
  {
    if e in cs[0].effects {
      j := 0;
    } else {
      var k := EffectOfCycle(cs[1..], e);
      j := k + 1;
    }
  }

  /**
   * Over a whole connection nothing goes upstream except in-budget, validated requests: each is the
   * one its own cycle starts with, on the events its predecessors left, processed in order and sent to
   * the destination of that cycle.
   */
  lemma ConnectionUpstreamSafety<F(!new)>(cfg: Config<F>, world: nat -> World<F>, events: seq<Event<F>>, dest: Dest, bytes: Bytes)
    returns (j: nat, skipped: nat, r: nat, n: nat)
    requires Upstream(dest, bytes) in AllEffects(Run(cfg, world, events))
    ensures var cs := Run(cfg, world, events);
            && j < |cs| && skipped == Offset(cs, j) <= |events|
            && cs[j] == RunCycle(cfg, world(j), j == 0, events[skipped..])
            && OneUpstream(cs[j].effects, Upstream(dest, bytes))
    ensures Authorised(cfg, world(j), events[skipped..], r, n, dest)
    ensures bytes == Outgoing(cfg, RequestItems(events[skipped..], r, n))
  {
    hide RunCycle, Run;
    var cs := Run(cfg, world, events);
    j := EffectOfCycle(cs, Upstream(dest, bytes));
    skipped := Offset(cs, j);
    CycleOfRun(cfg, world, events, j);
    UpstreamExactly(cfg, world(j), j == 0, events[skipped..], dest, bytes);
    r, n :| Authorised(cfg, world(j), events[skipped..], r, n, dest) && bytes == Outgoing(cfg, RequestItems(events[skipped..], r, n));
    AuthorisedWrite(cfg, world(j), j == 0, events[skipped..], r, n, dest);
  }

  /** The upstream writes among effects, in order. */
  function UpstreamWrites(effects: seq<Effect>): seq<Effect> {
    if effects == [] then []
    else (if effects[0].Upstream? then [effects[0]] else []) + UpstreamWrites(effects[1..])
  }

  lemma {:induction false} UpstreamWritesAppend(a: seq<Effect>, b: seq<Effect>)
    ensures UpstreamWrites(a + b) == UpstreamWrites(a) + UpstreamWrites(b)
  {
    if a == [] {
      assert a + b == b;
    } else {
      UpstreamWritesAppend(a[1..], b);
      assert a + b == [a[0]] + (a[1..] + b);
      UpstreamFirst(a[0], a[1..] + b);
    }
  }

  lemma UpstreamFirst(e: Effect, more: seq<Effect>)
    ensures UpstreamWrites([e] + more) == (if e.Upstream? then [e] else []) + UpstreamWrites(more)
  {
    assert ([e] + more)[1..] == more;
  }

  lemma {:induction false} NoUpstreamWrites(effects: seq<Effect>)
    requires forall i :: 0 <= i < |effects| ==> !effects[i].Upstream?
    ensures UpstreamWrites(effects) == []
  {
    if effects != [] {
      NoUpstreamWrites(effects[1..]);
    }
  }

  ghost predicate Sendable<F>(cfg: Config<F>, w: World<F>, events: seq<Event<F>>) {
    exists r: nat, n: nat, d: Dest :: Authorised(cfg, w, events, r, n, d)
  }

  /**
   * What a connection has to send, read off its script alone: the request it starts with, if that one is
   * authorised; and behind the events of that request the same again, if its connection is reusable.
   */
  ghost function Requests<F>(cfg: Config<F>, world: nat -> World<F>, i: nat, events: seq<Event<F>>): seq<Effect>
    decreases |events|
  {
    if !Sendable(cfg, world(i), events) then []
    else
      var r: nat, n: nat, d: Dest :| Authorised(cfg, world(i), events, r, n, d);
      var items := RequestItems(events, r, n);
      [Upstream(d, Outgoing(cfg, items))] +
      if Reusable(cfg, world(i), Frames(items)) then Requests(cfg, world, i + 1, events[RequestSpan(events, r, n)..]) else []
  }

  lemma WritesOfCycle<F>(cfg: Config<F>, w: World<F>, first: bool, events: seq<Event<F>>)
    ensures var c := RunCycle(cfg, w, first, events);
            && (!Sendable(cfg, w, events) ==> UpstreamWrites(c.effects) == [] && c.verdict != Again)
            && (forall r: nat, n: nat, d: Dest :: Authorised(cfg, w, events, r, n, d) ==>
                  && UpstreamWrites(c.effects) == [Upstream(d, Outgoing(cfg, RequestItems(events, r, n)))]
                  && c.consumed == RequestSpan(events, r, n)
                  && (c.verdict == Again <==> Reusable(cfg, w, Frames(RequestItems(events, r, n)))))
  {
    var c := RunCycle(cfg, w, first, events);
    if !Sendable(cfg, w, events) {
      var lookups := WithoutAuthority(cfg, w, first, events);
      assert forall e :: e in c.effects ==> IsLookup(e) || e.ErrorResponse?;
      assert forall i :: 0 <= i < |c.effects| ==> c.effects[i] in c.effects;
      NoUpstreamWrites(c.effects);
    }
    forall r: nat, n: nat, d: Dest | Authorised(cfg, w, events, r, n, d)
      ensures UpstreamWrites(c.effects) == [Upstream(d, Outgoing(cfg, RequestItems(events, r, n)))]
      ensures c.consumed == RequestSpan(events, r, n)
      ensures c.verdict == Again <==> Reusable(cfg, w, Frames(RequestItems(events, r, n)))
    {
      WritesOfAuthorised(cfg, w, first, events, r, n, d);
    }
  }

  lemma WritesOfAuthorised<F>(cfg: Config<F>, w: World<F>, first: bool, events: seq<Event<F>>, r: nat, n: nat, dest: Dest)
    requires Authorised(cfg, w, events, r, n, dest)
    ensures var c := RunCycle(cfg, w, first, events);
            && UpstreamWrites(c.effects) == [Upstream(dest, Outgoing(cfg, RequestItems(events, r, n)))]
            && c.consumed == RequestSpan(events, r, n)
            && (c.verdict == Again <==> Reusable(cfg, w, Frames(RequestItems(events, r, n))))
  {
    var key, write := Key(cfg, events[r].data).value, Upstream(dest, Outgoing(cfg, RequestItems(events, r, n)));
    var before, tail := AuthorisedEffects(cfg, w, first, events, r, n, dest);
    LookupEffects(cfg, w, key);
    WithAuthority(cfg, w, first, events, r, n, dest);
    ReleaseWithAuthority(cfg, w, first, events, r, n, dest);
    hide RunCycle, Outgoing, Lookups;
    OnlyOneWrite(Lookups(cfg, w, key), write, tail);
  }

  lemma OnlyOneWrite(a: seq<Effect>, e: Effect, b: seq<Effect>)
    requires forall x :: x in a ==> IsLookup(x)
    requires e.Upstream? && forall i :: 0 <= i < |b| ==> b[i].Client? || b[i].Release?
    ensures UpstreamWrites(a + [e] + b) == [e]
  {
    assert forall i :: 0 <= i < |a| ==> a[i] in a;
    NoUpstreamWrites(a);
    NoUpstreamWrites(b);
    UpstreamWritesAppend(a + [e], b);
    UpstreamWritesAppend(a, [e]);
    assert UpstreamWrites([e]) == [e] + UpstreamWrites([]);
  }

  /** The script decides everything that goes upstream, in which order, and where each request begins. */
  lemma ConnectionUpstreamExactly<F(!new)>(cfg: Config<F>, world: nat -> World<F>, events: seq<Event<F>>)
    ensures UpstreamWrites(AllEffects(Run(cfg, world, events))) == Requests(cfg, world, 0, events)
  {
    WritesFrom(cfg, world, 0, events);
  }

  lemma WritesOfCycles<F>(step: (nat, seq<Event<F>>) -> Cycle, i: nat, events: seq<Event<F>>)
    requires Progresses(step, i, events)
    ensures var c := step(i, events);
            UpstreamWrites(AllEffects(Cycles(step, i, events))) ==
            UpstreamWrites(c.effects) +
            if c.verdict == Again then UpstreamWrites(AllEffects(Cycles(step, i + 1, events[c.consumed..]))) else []
  {
    var c := step(i, events);
    if c.verdict == Again {
      var more := Cycles(step, i + 1, events[c.consumed..]);
      assert ([c] + more)[1..] == more;
      UpstreamWritesAppend(c.effects, AllEffects(more));
    } else {
      assert [c][1..] == [] && c.effects + [] == c.effects;
    }
  }

  lemma {:induction false} WritesFrom<F(!new)>(cfg: Config<F>, world: nat -> World<F>, i: nat, events: seq<Event<F>>)
    ensures UpstreamWrites(AllEffects(Cycles(Step(cfg, world), i, events))) == Requests(cfg, world, i, events)
    decreases |events|
  {
    hide RunCycle, Outgoing, Cycles, AllEffects, UpstreamWrites, RequestItems, RequestSpan, Reusable, Frames;
    var c := RunCycle(cfg, world(i), i == 0, events);
    CycleConsumes(cfg, world(i), i == 0, events);
    WritesOfCycles(Step(cfg, world), i, events);
    WritesOfCycle(cfg, world(i), i == 0, events);
    if c.verdict == Again {
      WritesFrom(cfg, world, i + 1, events[c.consumed..]);
    }
  }

  // ----- scripts made of requests -----

  function AsItems<F>(items: seq<ParsedData<F>>): (events: seq<Event<F>>)
    ensures |events| == |items| && AllItems(events) && Data(events) == items
  {
    seq(|items|, i requires 0 <= i < |items| => Item(items[i]))
  }

  /** The items of a request that is sent: `r` is the first with a routing key. */
  ghost predicate Acceptable<F>(cfg: Config<F>, w: World<F>, items: seq<ParsedData<F>>, r: nat, dest: Dest) {
    && r < |items|
    && (forall i :: 0 <= i < r ==> Key(cfg, items[i]).None?)
    && Key(cfg, items[r]).Some?
    && RawLength(cfg, items[..r + 1]) <= cfg.maxPreRoute
    && RawLength(cfg, items[r + 1..]) <= cfg.maxPostRoute
    && cfg.validate(Frames(items)).None?
    && Destination(cfg, w) == Some(dest)
  }

  ghost predicate Sends<F>(cfg: Config<F>, w: World<F>, items: seq<ParsedData<F>>) {
    exists r: nat, d: Dest :: Acceptable(cfg, w, items, r, d)
  }

  lemma PartsOfItems<F>(items: seq<ParsedData<F>>, last: Event<F>, more: seq<Event<F>>, r: nat)
    requires r < |items|
    ensures var events, n := AsItems(items) + [last] + more, |items| - r - 1;
            && AllItems(events[..r + 1]) && Data(events[..r + 1]) == items[..r + 1]
            && AllItems(events[r + 1..][..n]) && Data(events[r + 1..][..n]) == items[r + 1..]
            && events[r + 1..][n] == last && events[|items| + 1..] == more
            && items[..r + 1] + items[r + 1..] == items
  {
    var events, n := AsItems(items) + [last] + more, |items| - r - 1;
    assert events[..r + 1] == AsItems(items)[..r + 1];
    assert events[r + 1..][..n] == AsItems(items)[r + 1..];
  }

  /** A script of items and something that ends them starts with a request exactly when the items are acceptable. */
  lemma RequestOfItems<F>(cfg: Config<F>, w: World<F>, items: seq<ParsedData<F>>, last: Event<F>, more: seq<Event<F>>,
                          r: nat, n: nat, dest: Dest)
    requires !last.Item?
    ensures var events := AsItems(items) + [last] + more;
            && (Authorised(cfg, w, events, r, n, dest) <==> Acceptable(cfg, w, items, r, dest) && n == |items| - r - 1)
            && (Authorised(cfg, w, events, r, n, dest) ==>
                  && RequestItems(events, r, n) == items
                  && RequestSpan(events, r, n) == |items| + 1
                  && events[RequestSpan(events, r, n)..] == more)
  {
    var events := AsItems(items) + [last] + more;
    hide Frames, RawLength, Destination, RequestSpan;
    assert events[|items|] == last && forall i :: 0 <= i < |items| ==> events[i] == Item(items[i]);
    if r < |items| {
      PartsOfItems(items, last, more, r);
      EndOfItems(cfg, cfg.maxPostRoute, events[r + 1..], n, |items| - r - 1);
      SpanOfItems(events, r, |items|);
    } else if r < |events| {
      NoItemsPast(events, |items|, r + 1);
    }
  }

  lemma NoItemsPast<F>(events: seq<Event<F>>, k: nat, n: nat)
    requires k < n <= |events| && !events[k].Item?
    ensures !AllItems(events[..n])
  {
    assert events[..n][k] == events[k];
  }

  lemma SpanOfItems<F>(events: seq<Event<F>>, r: nat, k: nat)
    requires r < k < |events|
    ensures RequestSpan(events, r, k - r - 1) == k + 1
  {
  }

  lemma EndOfItems<F>(cfg: Config<F>, max: nat, events: seq<Event<F>>, n: nat, k: nat)
    requires k < |events| && !events[k].Item? && AllItems(events[..k])
    ensures ItemsUpTo(cfg, max, events, n) ==> n == k
  {
    assert forall i :: 0 <= i < k ==> events[..k][i] == events[i];
    if k < n <= |events| {
      assert events[..n][k] == events[k];
    }
  }

  /** What goes upstream of a script of requests is said request by request. */
  lemma RequestsOfItems<F>(cfg: Config<F>, world: nat -> World<F>, i: nat, items: seq<ParsedData<F>>, last: Event<F>, more: seq<Event<F>>)
    requires !last.Item?
    ensures Requests(cfg, world, i, AsItems(items) + [last] + more) ==
            if !Sends(cfg, world(i), items) then []
            else [Upstream(Destination(cfg, world(i)).value, Outgoing(cfg, items))] +
                 if Reusable(cfg, world(i), Frames(items)) then Requests(cfg, world, i + 1, more) else []
  {
    var events := AsItems(items) + [last] + more;
    forall r: nat, n: nat, d: Dest {
      RequestOfItems(cfg, world(i), items, last, more, r, n, d);
    }
    hide Authorised, RequestItems, RequestSpan, Reusable, Outgoing, Frames;
    if r: nat, d: Dest :| Acceptable(cfg, world(i), items, r, d) {
      assert Authorised(cfg, world(i), events, r, |items| - r - 1, d);
    }
  }

  /** An error response is the last effect of a cycle that fails. */
  ghost predicate ErrorLast(c: Cycle) {
    forall i :: 0 <= i < |c.effects| && c.effects[i].ErrorResponse? ==> i == |c.effects| - 1 && c.verdict.Failed?
  }

  lemma {:induction false} ErrorLastOfAll(cs: seq<Cycle>, k: nat)
    requires forall j :: 0 <= j < |cs| ==> ErrorLast(cs[j]) && (j < |cs| - 1 ==> cs[j].verdict == Again)
    requires k < |AllEffects(cs)| && AllEffects(cs)[k].ErrorResponse?
    ensures k == |AllEffects(cs)| - 1
  {
    var head, more := cs[0].effects, AllEffects(cs[1..]);
    if k < |head| {
      assert head[k].ErrorResponse? && ErrorLast(cs[0]);
      assert cs[1..] == [];
    } else {
      ErrorLastOfAll(cs[1..], k - |head|);
    }
  }

  /** A connection sends at most one error response, and nothing happens after it. */
  lemma ErrorResponseEndsConnection<F(!new)>(cfg: Config<F>, world: nat -> World<F>, events: seq<Event<F>>, k: nat)
    requires k < |AllEffects(Run(cfg, world, events))| && AllEffects(Run(cfg, world, events))[k].ErrorResponse?
    ensures k == |AllEffects(Run(cfg, world, events))| - 1
  {
    var cs := Run(cfg, world, events);
    forall j | 0 <= j < |cs| ensures ErrorLast(cs[j]) && (j < |cs| - 1 ==> cs[j].verdict == Again) {
      CycleOfRun(cfg, world, events, j);
      ErrorResponseExactly(cfg, world(j), j == 0, events[Offset(cs, j)..]);
    }
    ErrorLastOfAll(cs, k);
  }

  lemma {:induction false} SumOfResponses(cs: seq<Cycle>)
    requires forall j :: 0 <= j < |cs| ==> cs[j].counters.responseBytes == |ClientBytes(cs[j].effects)|
    ensures Totals(cs).responseBytes == |ClientBytes(AllEffects(cs))|
  {
    if cs != [] {
      SumOfResponses(cs[1..]);
      ClientBytesAppend(cs[0].effects, AllEffects(cs[1..]));
    }
  }

  /** Over a whole connection the response byte count is the number of response bytes sent. */
  lemma ConnectionResponseAccounting<F(!new)>(cfg: Config<F>, world: nat -> World<F>, events: seq<Event<F>>)
    requires cfg.responses.Some?
    ensures Totals(Run(cfg, world, events)).responseBytes == |ClientBytes(AllEffects(Run(cfg, world, events)))|
  {
    var cs := Run(cfg, world, events);
    forall j | 0 <= j < |cs| ensures cs[j].counters.responseBytes == |ClientBytes(cs[j].effects)| {
      CycleOfRun(cfg, world, events, j);
      ResponseAccounting(cfg, world(j), j == 0, events[Offset(cs, j)..]);
    }
    SumOfResponses(cs);
  }
}
