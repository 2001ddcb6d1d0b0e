/** Whole runs of the pool: what no run can break, and why the background reaper cannot be noticed. */
module StablingRuns {
  import opened Common
  import opened Stabling

  /** One operation and when it happens; a reaper pass looks at each connection at its own instant. */
  datatype Op =
    | Acquire(key: Bytes, now: nat)
    | Release(key: Bytes, dest: ConnId, now: nat)
    | Reap(begin: nat, end: nat, checks: Schedule)
  {
    function Begin(): nat {
      if Reap? then begin else now
    }

    function End(): nat {
      if Reap? then end else now
    }
  }

  /** The clock never runs backwards, within an operation or between two. */
  ghost predicate Timed(ops: seq<Op>, since: nat) {
    ops != [] ==>
      && since <= ops[0].Begin() <= ops[0].End()
      && (ops[0].Reap? ==> Within(ops[0].checks, ops[0].begin, ops[0].end))
      && Timed(ops[1..], ops[0].End())
  }

  /** A reaper schedule has one instant for every connection; one that does not fit is filled up. */
  function Fit(checks: Schedule, idle: Idle, now: nat): (r: Schedule)
    ensures Covers(r, idle)
  {
    map k | k in idle :: if k in checks && |checks[k]| == |idle[k]| then checks[k] else seq(|idle[k]|, _ => now)
  }

  function Apply(cfg: Config, idle: Idle, op: Op): Idle {
    match op
    case Acquire(key, now) => AcquireAt(cfg, idle, key, now).1
    case Release(key, dest, now) => ReleaseAt(cfg, idle, key, dest, now)
    case Reap(_, end, checks) => Stabling.Reap(cfg, idle, Fit(checks, idle, end))
  }

  function Run(cfg: Config, idle: Idle, ops: seq<Op>): Idle
    decreases |ops|
  {
    if ops == [] then idle else Run(cfg, Apply(cfg, idle, ops[0]), ops[1..])
  }

  /** What the acquires of a run return, in order. */
  function Acquired(cfg: Config, idle: Idle, ops: seq<Op>): seq<Option<ConnId>>
    decreases |ops|
  {
    if ops == [] then []
    else
      (if ops[0].Acquire? then [AcquireAt(cfg, idle, ops[0].key, ops[0].now).0] else [])
      + Acquired(cfg, Apply(cfg, idle, ops[0]), ops[1..])
  }

  /** The same run without the reaper. */
  function Unreaped(ops: seq<Op>): seq<Op> {
    if ops == [] then []
    else (if ops[0].Reap? then [] else [ops[0]]) + Unreaped(ops[1..])
  }

  lemma ApplyKeepsGood(cfg: Config, idle: Idle, op: Op, since: nat)
    requires Good(cfg, idle, since) && Timed([op], since)
    ensures Good(cfg, Apply(cfg, idle, op), op.End())
  {
    LaterIsGood(cfg, idle, since, op.End());
    match op
    case Acquire(key, now) => AcquireKeepsGood(cfg, idle, key, now);
    case Release(key, dest, now) => ReleaseKeepsGood(cfg, idle, key, dest, now);
    case Reap(_, end, checks) => ReapKeepsGood(cfg, idle, Fit(checks, idle, end), end);
  }

  function EndOf(ops: seq<Op>, since: nat): nat {
    if ops == [] then since else EndOf(ops[1..], ops[0].End())
  }

  /** Every pool a run can reach has sorted, bounded, non-empty queues. */
  lemma {:induction false} RunKeepsGood(cfg: Config, idle: Idle, ops: seq<Op>, since: nat)
    requires Good(cfg, idle, since) && Timed(ops, since)
    ensures Good(cfg, Run(cfg, idle, ops), EndOf(ops, since))
    decreases |ops|
  {
    if ops != [] {
      assert Timed([ops[0]], since);
      ApplyKeepsGood(cfg, idle, ops[0], since);
      RunKeepsGood(cfg, Apply(cfg, idle, ops[0]), ops[1..], ops[0].End());
    }
  }

  // ----- the reaper is invisible -----

  /** Two pools hold the same live connections in the same order, whatever expired ones they still keep. */
  ghost predicate SameLive(cfg: Config, a: Idle, b: Idle, now: nat) {
    forall k :: LiveOf(cfg, QueueOf(a, k), now) == LiveOf(cfg, QueueOf(b, k), now)
  }

  lemma {:induction false} LiveLater(cfg: Config, q: Queue, now: nat, later: nat)
    requires now <= later && forall i :: 0 <= i < |q| ==> q[i].stabledAt <= now
    ensures LiveOf(cfg, LiveOf(cfg, q, now), later) == LiveOf(cfg, q, later)
  {
    if q != [] {
      LiveLater(cfg, q[1..], now, later);
      LiveOfAppend(cfg, if Live(cfg, q[0], now) then [q[0]] else [], LiveOf(cfg, q[1..], now), later);
    }
  }

  lemma SameLiveLater(cfg: Config, a: Idle, b: Idle, now: nat, later: nat)
    requires Good(cfg, a, now) && Good(cfg, b, now) && now <= later
    requires SameLive(cfg, a, b, now)
    ensures SameLive(cfg, a, b, later)
  {
    forall k ensures LiveOf(cfg, QueueOf(a, k), later) == LiveOf(cfg, QueueOf(b, k), later) {
      LiveLater(cfg, QueueOf(a, k), now, later);
      LiveLater(cfg, QueueOf(b, k), now, later);
    }
  }

  /** An acquire hands out the newest live connection of its key and takes nothing else away. */
  lemma LiveAfterAcquire(cfg: Config, idle: Idle, key: Bytes, now: nat)
    requires Good(cfg, idle, now)
    ensures var (r, next) := AcquireAt(cfg, idle, key, now);
            var live := LiveOf(cfg, QueueOf(idle, key), now);
            && (cfg.enabled ==> r == if live == [] then None else Some(live[|live| - 1].dest))
            && (cfg.enabled ==> LiveOf(cfg, QueueOf(next, key), now) == if live == [] then [] else live[..|live| - 1])
            && (!cfg.enabled ==> r == None && next == idle)
            && forall k :: k != key ==> QueueOf(next, k) == QueueOf(idle, k)
  {
    if cfg.enabled && key in idle {
      PopLiveExact(cfg, idle[key], now);
    }
  }

  /** A release adds its connection as the newest one of its key, at the cost of at most the oldest. */
  lemma LiveAfterRelease(cfg: Config, idle: Idle, key: Bytes, dest: ConnId, now: nat)
    requires Good(cfg, idle, now)
    ensures var next := ReleaseAt(cfg, idle, key, dest, now);
            && (cfg.enabled ==>
                  LiveOf(cfg, QueueOf(next, key), now) ==
                  PopFrontIfFull(LiveOf(cfg, QueueOf(idle, key), now), cfg.maxIdlePerHost) + LiveOf(cfg, [Stabled(dest, now)], now))
            && (!cfg.enabled ==> next == idle)
            && forall k :: k != key ==> QueueOf(next, k) == QueueOf(idle, k)
  {
    var q := QueueOf(idle, key);
    EvictionCommutes(cfg, q, now);
    LiveOfAppend(cfg, PopFrontIfFull(q, cfg.maxIdlePerHost), [Stabled(dest, now)], now);
  }

  lemma LiveAfterReap(cfg: Config, idle: Idle, op: Op, k: Bytes)
    requires op.Reap? && Within(op.checks, op.begin, op.end)
    ensures LiveOf(cfg, QueueOf(Apply(cfg, idle, op), k), op.end) == LiveOf(cfg, QueueOf(idle, k), op.end)
  {
    if k in idle {
      ReapKeepsLive(cfg, idle[k], Fit(op.checks, idle, op.end)[k], op.end);
    }
  }

  /** One operation other than the reaper treats pools with the same live connections alike. */
  lemma StepSameLive(cfg: Config, a: Idle, b: Idle, op: Op)
    requires Good(cfg, a, op.Begin()) && Good(cfg, b, op.Begin()) && !op.Reap?
    requires SameLive(cfg, a, b, op.Begin())
    ensures op.Acquire? ==> AcquireAt(cfg, a, op.key, op.now).0 == AcquireAt(cfg, b, op.key, op.now).0
    ensures SameLive(cfg, Apply(cfg, a, op), Apply(cfg, b, op), op.now)
  {
    hide LiveOf, PopLive, PopFrontIfFull, Good, Live, QueueOf;
    match op
    case Acquire(key, now) =>
      LiveAfterAcquire(cfg, a, key, now);
      LiveAfterAcquire(cfg, b, key, now);
    case Release(key, dest, now) =>
      if cfg.enabled {
        LiveAfterRelease(cfg, a, key, dest, now);
        LiveAfterRelease(cfg, b, key, dest, now);
      }
  }

  lemma {:induction false} SimulateUnreaped(cfg: Config, a: Idle, b: Idle, ops: seq<Op>, since: nat)
    requires Good(cfg, a, since) && Good(cfg, b, since) && SameLive(cfg, a, b, since)
    requires Timed(ops, since)
    ensures Acquired(cfg, a, ops) == Acquired(cfg, b, Unreaped(ops))
    decreases |ops|
  {
    if ops != [] {
      var op, more := ops[0], ops[1..];
      assert Timed([op], since);
      ApplyKeepsGood(cfg, a, op, since);
      SameLiveLater(cfg, a, b, since, op.End());
      if op.Reap? {
        LaterIsGood(cfg, b, since, op.End());
        forall k ensures LiveOf(cfg, QueueOf(Apply(cfg, a, op), k), op.end) == LiveOf(cfg, QueueOf(b, k), op.end) {
          LiveAfterReap(cfg, a, op, k);
        }
        SimulateUnreaped(cfg, Apply(cfg, a, op), b, more, op.End());
        assert Unreaped(ops) == Unreaped(more);
      } else {
        ApplyKeepsGood(cfg, b, op, since);
        LaterIsGood(cfg, a, since, op.End());
        LaterIsGood(cfg, b, since, op.End());
        StepSameLive(cfg, a, b, op);
        SimulateUnreaped(cfg, Apply(cfg, a, op), Apply(cfg, b, op), more, op.End());
        assert Unreaped(ops) == [op] + Unreaped(more);
      }
    }
  }

  /** Reaper passes inserted anywhere into a run change no result of any acquire. */
  lemma ReaperInvisible(cfg: Config, ops: seq<Op>)
    requires Timed(ops, 0)
    ensures Acquired(cfg, map[], ops) == Acquired(cfg, map[], Unreaped(ops))
  {
    SimulateUnreaped(cfg, map[], map[], ops, 0);
  }

  // ----- accounting -----

  /** Connections a run puts into the pool and takes out of it, by reason. */
  datatype Tally = Tally(released: nat, acquired: nat, evicted: nat, expired: nat) {
    function Balance(): int {
      released - acquired - evicted - expired
    }
  }

  /** How many connections of a queue are past their time when each is looked at. */
  function Dead(cfg: Config, q: Queue, times: seq<nat>): nat
    requires |times| == |q|
  {
    if q == [] then 0
    else (if Live(cfg, q[0], times[0]) then 0 else 1) + Dead(cfg, q[1..], times[1..])
  }

  /** The same over the whole pool. */
  ghost function DeadInPool(cfg: Config, idle: Idle, checks: Schedule): nat
    requires Covers(checks, idle)
  {
    if idle == map[] then 0
    else
      var k :| k in idle;
      Dead(cfg, idle[k], checks[k]) + DeadInPool(cfg, idle - {k}, checks)
  }

  function AllAt(n: nat, now: nat): (r: seq<nat>)
    ensures |r| == n
  {
    seq(n, _ => now)
  }

  lemma {:induction false} DeadOrKept(cfg: Config, q: Queue, times: seq<nat>)
    requires |times| == |q|
    ensures |ReapQueue(cfg, q, times)| + Dead(cfg, q, times) == |q|
  {
    if q != [] {
      DeadOrKept(cfg, q[1..], times[1..]);
    }
  }

  lemma {:induction false} DeadOrLive(cfg: Config, q: Queue, now: nat)
    ensures |LiveOf(cfg, q, now)| + Dead(cfg, q, AllAt(|q|, now)) == |q|
  {
    if q != [] {
      assert AllAt(|q|, now)[1..] == AllAt(|q| - 1, now);
      DeadOrLive(cfg, q[1..], now);
    }
  }

  /** A reaper pass over a pool is one over a queue and one over the rest. */
  lemma ReapSplits(cfg: Config, idle: Idle, checks: Schedule, k: Bytes)
    requires Covers(checks, idle) && k in idle
    ensures Total(Stabling.Reap(cfg, idle, checks)) ==
            |ReapQueue(cfg, idle[k], checks[k])| + Total(Stabling.Reap(cfg, idle - {k}, checks))
  {
    var reaped := Stabling.Reap(cfg, idle, checks);
    assert reaped - {k} == Stabling.Reap(cfg, idle - {k}, checks);
    hide ReapQueue;
    if k in reaped {
      TotalSplits(reaped, k);
    } else {
      assert reaped - {k} == reaped;
    }
  }

  lemma {:induction false} ReapBalances(cfg: Config, idle: Idle, checks: Schedule)
    requires Covers(checks, idle)
    ensures Total(Stabling.Reap(cfg, idle, checks)) + DeadInPool(cfg, idle, checks) == Total(idle)
    decreases |idle|
  {
    if idle == map[] {
      assert Stabling.Reap(cfg, idle, checks) == map[];
    } else {
      var k :| k in idle && DeadInPool(cfg, idle, checks) == Dead(cfg, idle[k], checks[k]) + DeadInPool(cfg, idle - {k}, checks);
      ReapBalances(cfg, idle - {k}, checks);
      DeadOrKept(cfg, idle[k], checks[k]);
      TotalSplits(idle, k);
      ReapSplits(cfg, idle, checks, k);
    }
  }

  /** One operation, booked: by the live or dead connections of the queues it meets, not by the result. */
  ghost function Book(cfg: Config, idle: Idle, op: Op, t: Tally): Tally {
    match op
    case Acquire(key, now) =>
      var q := QueueOf(idle, key);
      if !cfg.enabled then t
      else if LiveOf(cfg, q, now) != [] then t.(acquired := t.acquired + 1)
      else t.(expired := t.expired + Dead(cfg, q, AllAt(|q|, now)))
    case Release(key, _, _) =>
      if !cfg.enabled then t
      else
        var full := QueueOf(idle, key) != [] && |QueueOf(idle, key)| >= cfg.maxIdlePerHost;
        t.(released := t.released + 1, evicted := t.evicted + if full then 1 else 0)
    case Reap(_, end, checks) => t.(expired := t.expired + DeadInPool(cfg, idle, Fit(checks, idle, end)))
  }

  ghost function Books(cfg: Config, idle: Idle, ops: seq<Op>, t: Tally): Tally
    decreases |ops|
  {
    if ops == [] then t else Books(cfg, Apply(cfg, idle, ops[0]), ops[1..], Book(cfg, idle, ops[0], t))
  }

  lemma TotalAfter(cfg: Config, idle: Idle, op: Op, t: Tally)
    requires Good(cfg, idle, op.Begin())
    ensures Total(Apply(cfg, idle, op)) - Book(cfg, idle, op, t).Balance() == Total(idle) - t.Balance()
  {
    match op
    case Acquire(key, now) =>
      if cfg.enabled {
        var q := QueueOf(idle, key);
        PopLiveExact(cfg, q, now);
        DeadOrLive(cfg, q, now);
        TotalUpdate(idle, key, PopLive(cfg, q, now).1);
        if key !in idle { assert idle - {key} == idle; }
      }
    case Release(key, dest, now) =>
      if cfg.enabled {
        TotalUpdate(idle, key, QueueOf(ReleaseAt(cfg, idle, key, dest, now), key));
      }
    case Reap(_, end, checks) => ReapBalances(cfg, idle, Fit(checks, idle, end));
  }

  lemma {:induction false} BalanceFrom(cfg: Config, idle: Idle, ops: seq<Op>, since: nat, t: Tally)
    requires Good(cfg, idle, since) && Timed(ops, since)
    ensures Total(Run(cfg, idle, ops)) - Books(cfg, idle, ops, t).Balance() == Total(idle) - t.Balance()
    decreases |ops|
  {
    if ops != [] {
      assert Timed([ops[0]], since);
      LaterIsGood(cfg, idle, since, ops[0].Begin());
      TotalAfter(cfg, idle, ops[0], t);
      ApplyKeepsGood(cfg, idle, ops[0], since);
      BalanceFrom(cfg, Apply(cfg, idle, ops[0]), ops[1..], ops[0].End(), Book(cfg, idle, ops[0], t));
    }
  }

  /** In every run the idle count is releases minus acquires, evictions and expiries. */
  lemma IdleCountBalances(cfg: Config, ops: seq<Op>)
    requires Timed(ops, 0)
    ensures Total(Run(cfg, map[], ops)) == Books(cfg, map[], ops, Tally(0, 0, 0, 0)).Balance()
  {
    BalanceFrom(cfg, map[], ops, 0, Tally(0, 0, 0, 0));
  }
}
