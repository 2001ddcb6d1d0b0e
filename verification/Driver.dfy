/**
 * The connection driver: read a request until it can be routed, read the rest of it, check it, write
 * it upstream in one piece, relay the response in batches, and decide what becomes of the upstream
 * connection; then the next request.
 *
 * Sockets, parser, router, pool and hooks enter as scripts and functions. `RunCycle` and `Run` say
 * what the driver does with them; `DriverLoop` is the driver itself.
 */
module Driver {
  import opened Common
  import opened Events

  type Dest = nat

  datatype Phase = Parse | Routing | Forward | Relay

  datatype Failure = Failure(kind: ErrorKind, phase: Phase)

  /** What the driver is built from. Hooks are functions of the frames they have been shown. */
  datatype Config<!F> = Config(
    bytesOf: F -> Bytes,
    keyOf: F -> Option<Bytes>,
    process: F -> F,
    validate: seq<F> -> Option<ErrorKind>,
    closes: seq<F> -> bool,
    maxPreRoute: nat,
    maxPostRoute: nat,
    errorBytes: Option<Failure -> Bytes>,
    responses: Option<ResponseSide<F>>,
    pooled: bool)

  datatype ResponseSide<!F> = ResponseSide(process: F -> F, closes: Option<seq<F> -> bool>)

  /** What the outside world does in one cycle. */
  datatype World<F> = World(
    acquired: Option<Dest>,
    routed: Option<Dest>,
    routeError: ErrorKind,
    upstreamOk: bool,
    response: seq<Event<F>>,
    clientOk: nat -> bool,
    copied: Bytes,
    copyOk: bool)

  datatype Effect =
    | Acquire(key: Bytes, got: Option<Dest>)
    | Route(key: Bytes, got: Option<Dest>)
    | Upstream(dest: Dest, bytes: Bytes)
    | Client(bytes: Bytes)
    | ErrorResponse(bytes: Bytes)
    | Release(key: Bytes, dest: Dest)

  datatype Verdict = Again | Finished | Failed(failure: Failure)

  datatype Counters = Counters(frames: nat, requestBytes: nat, responseBytes: nat, routed: bool) {
    function Plus(other: Counters): Counters {
      Counters(frames + other.frames, requestBytes + other.requestBytes, responseBytes + other.responseBytes, routed || other.routed)
    }
  }

  const NOTHING := Counters(0, 0, 0, false)

  // ----- items -----

  function Raw<F>(cfg: Config<F>, d: ParsedData<F>): Bytes {
    match d
    case Parsed(frame) => cfg.bytesOf(frame)
    case Passthrough(bytes) => bytes
  }

  function Processed<F>(cfg: Config<F>, d: ParsedData<F>): Bytes {
    match d
    case Parsed(frame) => cfg.bytesOf(cfg.process(frame))
    case Passthrough(bytes) => bytes
  }

  function Key<F>(cfg: Config<F>, d: ParsedData<F>): Option<Bytes> {
    match d
    case Parsed(frame) => cfg.keyOf(frame)
    case Passthrough(_) => None
  }

  function One<F>(d: ParsedData<F>): nat {
    if d.Parsed? then 1 else 0
  }

  /** The bytes of processed items, in order. */
  function Outgoing<F>(cfg: Config<F>, items: seq<ParsedData<F>>): Bytes {
    if items == [] then [] else Processed(cfg, items[0]) + Outgoing(cfg, items[1..])
  }

  /** The frames among the items: what a hook gets to see. */
  function Frames<F>(items: seq<ParsedData<F>>): seq<F> {
    if items == [] then []
    else (if items[0].Parsed? then [items[0].frame] else []) + Frames(items[1..])
  }

  function RawLength<F>(cfg: Config<F>, items: seq<ParsedData<F>>): nat {
    if items == [] then 0 else |Raw(cfg, items[0])| + RawLength(cfg, items[1..])
  }

  lemma {:induction false} OutgoingAppend<F>(cfg: Config<F>, a: seq<ParsedData<F>>, b: seq<ParsedData<F>>)
    ensures Outgoing(cfg, a + b) == Outgoing(cfg, a) + Outgoing(cfg, b)
  {
    if a == [] {
      assert a + b == b;
    } else {
      assert (a + b)[1..] == a[1..] + b;
      OutgoingAppend(cfg, a[1..], b);
    }
  }

  lemma {:induction false} FramesAppend<F>(a: seq<ParsedData<F>>, b: seq<ParsedData<F>>)
    ensures Frames(a + b) == Frames(a) + Frames(b)
  {
    if a == [] {
      assert a + b == b;
    } else {
      assert a + b == [a[0]] + (a[1..] + b);
      FramesFirst(a[0], a[1..] + b);
      FramesAppend(a[1..], b);
    }
  }

  lemma FramesFirst<F>(d: ParsedData<F>, more: seq<ParsedData<F>>)
    ensures Frames([d] + more) == (if d.Parsed? then [d.frame] else []) + Frames(more)
  {
    assert ([d] + more)[1..] == more;
  }

  lemma {:induction false} RawLengthAppend<F>(cfg: Config<F>, a: seq<ParsedData<F>>, b: seq<ParsedData<F>>)
    ensures RawLength(cfg, a + b) == RawLength(cfg, a) + RawLength(cfg, b)
  {
    if a == [] {
      assert a + b == b;
    } else {
      assert (a + b)[1..] == a[1..] + b;
      RawLengthAppend(cfg, a[1..], b);
    }
  }

  // ----- reading a request -----

  datatype Stop = Routed(key: Bytes) | Overflow | BrokenBy(kind: ErrorKind) | Ended

  /** Items that were accepted, events used up, raw bytes and frames counted, and why reading stopped. */
  datatype Scan<F> = Scan(taken: seq<ParsedData<F>>, consumed: nat, raw: nat, frames: nat, stop: Stop)

  function Accept<F>(cfg: Config<F>, d: ParsedData<F>, s: Scan<F>): Scan<F> {
    Scan([d] + s.taken, s.consumed + 1, |Raw(cfg, d)| + s.raw, One(d) + s.frames, s.stop)
  }

  /** Items accepted in front of a scan. */
  function AcceptAll<F>(cfg: Config<F>, taken: seq<ParsedData<F>>, s: Scan<F>): Scan<F> {
    Scan(taken + s.taken, |taken| + s.consumed, RawLength(cfg, taken) + s.raw, |Frames(taken)| + s.frames, s.stop)
  }

  /** Read items while `already` plus their raw size stays within `max`; maybe stop behind a routing key. */
  function ScanItems<F>(cfg: Config<F>, max: nat, stopAtKey: bool, events: seq<Event<F>>, already: nat): (s: Scan<F>)
    ensures s.consumed <= |events|
  {
    if events == [] then Scan([], 0, 0, 0, Ended)
    else
      match events[0]
      case End => Scan([], 1, 0, 0, Ended)
      case Broken(kind) => Scan([], 1, 0, 0, BrokenBy(kind))
      case Item(d) =>
        var size := already + |Raw(cfg, d)|;
        if size > max then Scan([], 1, |Raw(cfg, d)|, One(d), Overflow)
        else if stopAtKey && Key(cfg, d).Some? then Scan([d], 1, |Raw(cfg, d)|, One(d), Routed(Key(cfg, d).value))
        else Accept(cfg, d, ScanItems(cfg, max, stopAtKey, events[1..], size))
  }

  // ----- relaying a response -----

  datatype RelayEnd = Delivered | StreamBroken(kind: ErrorKind) | WriteFailed

  /** Client writes, bytes counted, frames shown to the response hook, and how the relay ended. */
  datatype RelayLog<F> = RelayLog(writes: seq<Bytes>, size: nat, seen: seq<F>, end: RelayEnd)

  const BATCH_LIMIT := 32768

  function ProcessedResponse<F>(cfg: Config<F>, side: ResponseSide<F>, d: ParsedData<F>): Bytes {
    match d
    case Parsed(frame) => cfg.bytesOf(side.process(frame))
    case Passthrough(bytes) => bytes
  }

  function Show<F>(d: ParsedData<F>): seq<F> {
    if d.Parsed? then [d.frame] else []
  }

  function Relayed<F>(bytes: Bytes, d: ParsedData<F>, writes: seq<Bytes>, r: RelayLog<F>): RelayLog<F> {
    RelayLog(writes + r.writes, |bytes| + r.size, Show(d) + r.seen, r.end)
  }

  /** Relay `events` with `batch` still unsent and `sent` client writes already made. */
  function RelayItems<F>(cfg: Config<F>, side: ResponseSide<F>, ok: nat -> bool,
                         events: seq<Event<F>>, batch: Bytes, sent: nat): RelayLog<F>
    decreases |events|
  {
    if events == [] || events[0].End? then
      if batch == [] then RelayLog([], 0, [], Delivered)
      else RelayLog([batch], 0, [], if ok(sent) then Delivered else WriteFailed)
    else
      match events[0]
      case Broken(kind) => RelayLog(if batch == [] then [] else [batch], 0, [], StreamBroken(kind))
      case Item(d) =>
        var bytes := ProcessedResponse(cfg, side, d);
        var full := batch + bytes;
        if |full| <= BATCH_LIMIT then Relayed(bytes, d, [], RelayItems(cfg, side, ok, events[1..], full, sent))
        else if ok(sent) then Relayed(bytes, d, [full], RelayItems(cfg, side, ok, events[1..], [], sent + 1))
        else RelayLog([full], |bytes|, Show(d), WriteFailed)
  }

  // ----- one cycle -----

  datatype Cycle = Cycle(consumed: nat, effects: seq<Effect>, verdict: Verdict, counters: Counters)

  function ErrorEffects<F>(cfg: Config<F>, f: Failure): seq<Effect> {
    match cfg.errorBytes
    case None => []
    case Some(render) => [ErrorResponse(render(f))]
  }

  /** Give up before anything was written upstream. */
  function Reject<F>(cfg: Config<F>, consumed: nat, f: Failure, counters: Counters): Cycle {
    Cycle(consumed, ErrorEffects(cfg, f), Failed(f), counters)
  }

  /** Where the request goes, and the pool and router calls that decided it. */
  function Destination<F>(cfg: Config<F>, w: World<F>): Option<Dest> {
    if cfg.pooled && w.acquired.Some? then w.acquired else w.routed
  }

  function Lookups<F>(cfg: Config<F>, w: World<F>, key: Bytes): seq<Effect> {
    (if cfg.pooled then [Acquire(key, w.acquired)] else [])
    + (if cfg.pooled && w.acquired.Some? then [] else [Route(key, w.routed)])
  }

  function Clients(writes: seq<Bytes>): seq<Effect> {
    seq(|writes|, i requires 0 <= i < |writes| => Client(writes[i]))
  }

  /** Put effects in front of those of a cycle. */
  function After(effects: seq<Effect>, c: Cycle): Cycle {
    c.(effects := effects + c.effects)
  }

  /** The response side of a cycle whose request was written to `dest`. */
  function RelayPhase<F>(cfg: Config<F>, w: World<F>, key: Bytes, dest: Dest, request: seq<F>,
                         consumed: nat, counted: Counters): Cycle {
    match cfg.responses
    case None =>
      if w.copyOk then Cycle(consumed, [Client(w.copied)], Finished, counted.(responseBytes := |w.copied|))
      else Cycle(consumed, [Client(w.copied)], Failed(Failure(Io, Relay)), counted)
    case Some(side) =>
      var r := RelayItems(cfg, side, w.clientOk, w.response, [], 0);
      var counters := counted.(responseBytes := r.size);
      match r.end
      case WriteFailed => Cycle(consumed, Clients(r.writes), Failed(Failure(Io, Relay)), counters)
      case StreamBroken(kind) => Cycle(consumed, Clients(r.writes), Failed(Failure(kind, Relay)), counters)
      case Delivered =>
        if cfg.closes(request) || (side.closes.Some? && side.closes.value(r.seen)) then
          Cycle(consumed, Clients(r.writes), Finished, counters)
        else
          Cycle(consumed, Clients(r.writes) + (if cfg.pooled then [Release(key, dest)] else []), Again, counters)
  }

  /** The checks between reading a request and writing it upstream, in the driver's order. */
  function Submit<F>(cfg: Config<F>, w: World<F>, key: Bytes, overflow: bool, frames: seq<F>, request: Bytes,
                     consumed: nat, counted: Counters): Cycle {
    if overflow then Reject(cfg, consumed, Failure(BufferLimitExceeded, Forward), counted)
    else if cfg.validate(frames).Some? then Reject(cfg, consumed, Failure(cfg.validate(frames).value, Parse), counted)
    else
      match Destination(cfg, w)
      case None => Reject(cfg, consumed, Failure(w.routeError, Routing), counted)
      case Some(dest) =>
        var write, routed := [Upstream(dest, request)], counted.(routed := true);
        if !w.upstreamOk then Cycle(consumed, write, Failed(Failure(Io, Forward)), routed)
        else After(write, RelayPhase(cfg, w, key, dest, frames, consumed, routed))
  }

  /** Once a routing key is known. */
  function ForwardPhase<F>(cfg: Config<F>, w: World<F>, key: Bytes, pre: Scan<F>, post: Scan<F>): Cycle {
    var items := pre.taken + post.taken;
    After(Lookups(cfg, w, key),
          Submit(cfg, w, key, post.stop == Overflow, Frames(items), Outgoing(cfg, items), pre.consumed + post.consumed,
                 Counters(pre.frames + post.frames, pre.raw + post.raw, 0, false)))
  }

  function RunCycle<F>(cfg: Config<F>, w: World<F>, first: bool, events: seq<Event<F>>): Cycle {
    var pre := ScanItems(cfg, cfg.maxPreRoute, true, events, 0);
    var counted := Counters(pre.frames, pre.raw, 0, false);
    match pre.stop
    case Overflow => Reject(cfg, pre.consumed, Failure(BufferLimitExceeded, Parse), counted)
    case BrokenBy(kind) =>
      if !first && kind == ConnectionClosed then Cycle(pre.consumed, [], Finished, NOTHING)
      else Reject(cfg, pre.consumed, Failure(kind, Parse), counted)
    case Ended =>
      if !first && pre.taken == [] then Cycle(pre.consumed, [], Finished, NOTHING)
      else Reject(cfg, pre.consumed, Failure(NoRoutingFrame, Parse), counted)
    case Routed(key) =>
      ForwardPhase(cfg, w, key, pre, ScanItems(cfg, cfg.maxPostRoute, false, events[pre.consumed..], 0))
  }

  // ----- a whole connection -----

  /** Cycles until one of them stops; `step(i, events)` is cycle number `i` on `events`. */
  function Cycles<F>(step: (nat, seq<Event<F>>) -> Cycle, i: nat, events: seq<Event<F>>): seq<Cycle>
    decreases |events|
  {
    var c := step(i, events);
    if c.verdict == Again && 0 < c.consumed <= |events| then [c] + Cycles(step, i + 1, events[c.consumed..]) else [c]
  }

  /** Cycle number `i` of the driver; the first one is less forgiving about a silent client. */
  function Step<F>(cfg: Config<F>, world: nat -> World<F>): (nat, seq<Event<F>>) -> Cycle {
    (i: nat, events: seq<Event<F>>) => RunCycle(cfg, world(i), i == 0, events)
  }

  /** The cycles of a connection. */
  function Run<F>(cfg: Config<F>, world: nat -> World<F>, events: seq<Event<F>>): seq<Cycle> {
    Cycles(Step(cfg, world), 0, events)
  }

  lemma CycleConsumes<F>(cfg: Config<F>, w: World<F>, first: bool, events: seq<Event<F>>)
    ensures var c := RunCycle(cfg, w, first, events);
            c.consumed <= |events| && (c.verdict == Again ==> c.consumed > 0)
  {
  }

  function AllEffects(cs: seq<Cycle>): seq<Effect> {
    if cs == [] then [] else cs[0].effects + AllEffects(cs[1..])
  }

  function Totals(cs: seq<Cycle>): Counters {
    if cs == [] then NOTHING else cs[0].counters.Plus(Totals(cs[1..]))
  }
}
