/**
 * The pool of idle upstream connections: one queue per routing key, newest connection first out,
 * oldest evicted when a host has enough, expired ones dropped on the way or by a background reaper.
 */
module Stabling {
  import opened Common

  /** Connections are told apart by number. */
  type ConnId = nat

  /** `maxTotalIdle` is configured but never consulted. */
  datatype Config = Config(maxIdlePerHost: nat, maxTotalIdle: nat, idleTimeout: nat, enabled: bool)

  datatype Stabled = Stabled(dest: ConnId, stabledAt: nat)

  type Queue = seq<Stabled>

  type Idle = map<Bytes, Queue>

  /** `elapsed`, which is zero for an instant in the future. */
  function Elapsed(since: nat, now: nat): nat {
    if since <= now then now - since else 0
  }

  predicate Live(cfg: Config, c: Stabled, now: nat) {
    Elapsed(c.stabledAt, now) < cfg.idleTimeout
  }

  function QueueOf(idle: Idle, key: Bytes): Queue {
    if key in idle then idle[key] else []
  }

  // ----- the operations on values -----

  /** Pop from the back until something is live. */
  function PopLive(cfg: Config, q: Queue, now: nat): (Option<ConnId>, Queue) {
    if q == [] then (None, [])
    else if Live(cfg, q[|q| - 1], now) then (Some(q[|q| - 1].dest), q[..|q| - 1])
    else PopLive(cfg, q[..|q| - 1], now)
  }

  /** An emptied queue is removed together with its key. */
  function WithQueue(idle: Idle, key: Bytes, q: Queue): Idle {
    if q == [] then idle - {key} else idle[key := q]
  }

  function AcquireAt(cfg: Config, idle: Idle, key: Bytes, now: nat): (Option<ConnId>, Idle) {
    if !cfg.enabled || key !in idle then (None, idle)
    else
      var (r, q) := PopLive(cfg, idle[key], now);
      (r, WithQueue(idle, key, q))
  }

  function PopFrontIfFull(q: Queue, max: nat): Queue {
    if |q| >= max && q != [] then q[1..] else q
  }

  function ReleaseAt(cfg: Config, idle: Idle, key: Bytes, dest: ConnId, now: nat): Idle {
    if !cfg.enabled then idle
    else idle[key := PopFrontIfFull(QueueOf(idle, key), cfg.maxIdlePerHost) + [Stabled(dest, now)]]
  }

  /** Keep the connections that are live when each is looked at. */
  function ReapQueue(cfg: Config, q: Queue, times: seq<nat>): Queue
    requires |times| == |q|
  {
    if q == [] then []
    else (if Live(cfg, q[0], times[0]) then [q[0]] else []) + ReapQueue(cfg, q[1..], times[1..])
  }

  /** When each connection is looked at by one reaper pass. */
  type Schedule = map<Bytes, seq<nat>>

  ghost predicate Covers(checks: Schedule, idle: Idle) {
    forall k :: k in idle ==> k in checks && |checks[k]| == |idle[k]|
  }

  ghost predicate Within(checks: Schedule, begin: nat, end: nat) {
    forall k, i :: k in checks && 0 <= i < |checks[k]| ==> begin <= checks[k][i] <= end
  }

  function Reap(cfg: Config, idle: Idle, checks: Schedule): Idle
    requires Covers(checks, idle)
  {
    map k | k in idle && ReapQueue(cfg, idle[k], checks[k]) != [] :: ReapQueue(cfg, idle[k], checks[k])
  }

  // ----- the pool invariant -----

  ghost predicate Sorted(q: Queue) {
    forall i, j :: 0 <= i < j < |q| ==> q[i].stabledAt <= q[j].stabledAt
  }

  function Bound(cfg: Config): nat {
    if cfg.maxIdlePerHost == 0 then 1 else cfg.maxIdlePerHost
  }

  /** Oldest first, nothing from the future, never more than the bound. */
  ghost predicate GoodQueue(cfg: Config, q: Queue, now: nat) {
    && Sorted(q)
    && |q| <= Bound(cfg)
    && forall i :: 0 <= i < |q| ==> q[i].stabledAt <= now
  }

  /** Every reachable pool: good queues, and no empty ones. */
  ghost predicate Good(cfg: Config, idle: Idle, now: nat) {
    forall k :: k in idle ==> idle[k] != [] && GoodQueue(cfg, idle[k], now)
  }

  /** Live connections, oldest first. */
  function LiveOf(cfg: Config, q: Queue, now: nat): Queue {
    if q == [] then []
    else (if Live(cfg, q[0], now) then [q[0]] else []) + LiveOf(cfg, q[1..], now)
  }

  lemma {:induction false} LiveOfAppend(cfg: Config, a: Queue, b: Queue, now: nat)
    ensures LiveOf(cfg, a + b, now) == LiveOf(cfg, a, now) + LiveOf(cfg, b, now)
  {
    if a == [] {
      assert a + b == b;
    } else {
      assert (a + b)[1..] == a[1..] + b;
      LiveOfAppend(cfg, a[1..], b, now);
    }
  }

  lemma {:induction false} AllLive(cfg: Config, q: Queue, now: nat)
    requires forall i :: 0 <= i < |q| ==> Live(cfg, q[i], now)
    ensures LiveOf(cfg, q, now) == q
  {
    if q != [] {
      AllLive(cfg, q[1..], now);
    }
  }

  lemma {:induction false} LiveOfShrinks(cfg: Config, q: Queue, now: nat)
    ensures |LiveOf(cfg, q, now)| <= |q|
    ensures forall c :: c in LiveOf(cfg, q, now) <==> c in q && Live(cfg, c, now)
  {
    if q != [] {
      LiveOfShrinks(cfg, q[1..], now);
      assert forall c :: c in q <==> c == q[0] || c in q[1..];
    }
  }

  /**
   * Acquiring takes the newest live connection and nothing else from in front of it; without a live
   * one it empties the queue. With the queue sorted, whatever it drops has expired.
   */
  lemma {:induction false} PopLiveExact(cfg: Config, q: Queue, now: nat)
    requires Sorted(q)
    ensures var (r, rest) := PopLive(cfg, q, now);
            var live := LiveOf(cfg, q, now);
            && r == (if live == [] then None else Some(live[|live| - 1].dest))
            && LiveOf(cfg, rest, now) == (if live == [] then [] else live[..|live| - 1])
            && rest == (if live == [] then [] else q[..|q| - 1])
  {
    if q != [] {
      var init, last := q[..|q| - 1], q[|q| - 1];
      assert q == init + [last];
      LiveOfAppend(cfg, init, [last], now);
      if !Live(cfg, last, now) {
        PopLiveExact(cfg, init, now);
        NoneLive(cfg, q, now);
      } else {
        assert LiveOf(cfg, [last], now) == [last] + LiveOf(cfg, [], now);
        assert (LiveOf(cfg, init, now) + [last])[..|LiveOf(cfg, init, now)|] == LiveOf(cfg, init, now);
      }
    }
  }

  /** In a sorted queue an expired newest connection means that all have expired. */
  lemma NoneLive(cfg: Config, q: Queue, now: nat)
    requires Sorted(q) && q != [] && !Live(cfg, q[|q| - 1], now)
    ensures LiveOf(cfg, q, now) == []
  {
    AllDead(cfg, q, now);
  }

  lemma {:induction false} AllDead(cfg: Config, q: Queue, now: nat)
    requires forall i :: 0 <= i < |q| ==> !Live(cfg, q[i], now)
    ensures LiveOf(cfg, q, now) == []
  {
    if q != [] {
      AllDead(cfg, q[1..], now);
    }
  }

  /** Evicting the oldest and then forgetting the expired is forgetting the expired and then evicting. */
  lemma EvictionCommutes(cfg: Config, q: Queue, now: nat)
    requires GoodQueue(cfg, q, now)
    ensures LiveOf(cfg, PopFrontIfFull(q, cfg.maxIdlePerHost), now) ==
            PopFrontIfFull(LiveOf(cfg, q, now), cfg.maxIdlePerHost)
  {
    if q != [] {
      LiveOfShrinks(cfg, q[1..], now);
      if Live(cfg, q[0], now) {
        AllLive(cfg, q, now);
        AllLive(cfg, q[1..], now);
      }
    }
  }

  lemma {:induction false} ReapKeepsLive(cfg: Config, q: Queue, times: seq<nat>, end: nat)
    requires |times| == |q| && forall i :: 0 <= i < |times| ==> times[i] <= end
    ensures LiveOf(cfg, ReapQueue(cfg, q, times), end) == LiveOf(cfg, q, end)
  {
    if q != [] {
      var head := if Live(cfg, q[0], times[0]) then [q[0]] else [];
      ReapKeepsLive(cfg, q[1..], times[1..], end);
      LiveOfAppend(cfg, head, ReapQueue(cfg, q[1..], times[1..]), end);
    }
  }

  lemma {:induction false} ReapIsPart(cfg: Config, q: Queue, times: seq<nat>)
    requires |times| == |q|
    ensures forall c :: c in ReapQueue(cfg, q, times) ==> c in q
  {
    if q != [] {
      ReapIsPart(cfg, q[1..], times[1..]);
    }
  }

  lemma {:induction false} ReapIsSubsequence(cfg: Config, q: Queue, times: seq<nat>)
    requires |times| == |q| && Sorted(q)
    ensures var r := ReapQueue(cfg, q, times);
            |r| <= |q| && Sorted(r)
  {
    if q != [] {
      var tail := ReapQueue(cfg, q[1..], times[1..]);
      ReapIsSubsequence(cfg, q[1..], times[1..]);
      ReapIsPart(cfg, q[1..], times[1..]);
      forall c | c in tail ensures q[0].stabledAt <= c.stabledAt {
        assert c in q[1..];
      }
    }
  }

  // ----- every operation keeps the invariant -----

  lemma LaterIsGood(cfg: Config, idle: Idle, now: nat, later: nat)
    requires Good(cfg, idle, now) && now <= later
    ensures Good(cfg, idle, later)
  {
  }

  lemma AcquireKeepsGood(cfg: Config, idle: Idle, key: Bytes, now: nat)
    requires Good(cfg, idle, now)
    ensures Good(cfg, AcquireAt(cfg, idle, key, now).1, now)
  {
    if key in idle {
      PopLiveExact(cfg, idle[key], now);
    }
  }

  lemma ReleaseKeepsGood(cfg: Config, idle: Idle, key: Bytes, dest: ConnId, now: nat)
    requires Good(cfg, idle, now)
    ensures Good(cfg, ReleaseAt(cfg, idle, key, dest, now), now)
  {
  }

  lemma ReapKeepsGood(cfg: Config, idle: Idle, checks: Schedule, now: nat)
    requires Good(cfg, idle, now) && Covers(checks, idle)
    ensures Good(cfg, Reap(cfg, idle, checks), now)
  {
    forall k | k in Reap(cfg, idle, checks)
      ensures GoodQueue(cfg, ReapQueue(cfg, idle[k], checks[k]), now)
    {
      ReapIsPart(cfg, idle[k], checks[k]);
      ReapIsSubsequence(cfg, idle[k], checks[k]);
      var r := ReapQueue(cfg, idle[k], checks[k]);
      forall i | 0 <= i < |r| ensures r[i].stabledAt <= now {
        assert r[i] in r;
      }
    }
  }

  // ----- counting -----

  /** The number of idle connections, over all keys. */
  ghost function Total(idle: Idle): nat {
    if idle == map[] then 0
    else
      var k :| k in idle;
      |idle[k]| + Total(idle - {k})
  }

  lemma {:induction false} TotalSplits(idle: Idle, key: Bytes)
    requires key in idle
    ensures Total(idle) == |idle[key]| + Total(idle - {key})
    decreases |idle|
  {
    var k :| k in idle && Total(idle) == |idle[k]| + Total(idle - {k});
    if k != key {
      TotalSplits(idle - {k}, key);
      TotalSplits(idle - {key}, k);
      assert idle - {k} - {key} == idle - {key} - {k};
    }
  }

  lemma TotalUpdate(idle: Idle, key: Bytes, q: Queue)
    ensures Total(WithQueue(idle, key, q)) == Total(idle) - |QueueOf(idle, key)| + |q|
  {
    if key in idle {
      TotalSplits(idle, key);
    } else {
      assert idle - {key} == idle;
    }
    if q != [] {
      TotalSplits(idle[key := q], key);
      assert idle[key := q] - {key} == idle - {key};
    }
  }

  // ----- the pool object -----

  /** A clock that never runs backwards; any time may pass between two readings. */
  class Clock {
    var now: nat

    constructor ()
    {
      now := 0;
    }

    method Now() returns (t: nat)
      modifies this
      ensures t == now && old(now) <= now
    {
      var passed: nat :| passed >= 0;
      now := now + passed;
      t := now;
    }
  }

  class Pool {
    const config: Config
    const clock: Clock
    var idle: Idle

    ghost predicate Valid()
      reads this, clock
    {
      Good(config, idle, clock.now)
    }

    constructor (config: Config, clock: Clock)
      ensures Valid() && this.config == config && this.clock == clock && idle == map[]
    {
      this.config := config;
      this.clock := clock;
      idle := map[];
    }

    /** The clock may advance between two pops; only the first reading `t` decides. */
    method Acquire(key: Bytes) returns (r: Option<ConnId>, ghost t: nat)
      requires Valid()
      modifies this, clock
      ensures Valid()
      ensures old(clock.now) <= t <= clock.now
      ensures (r, idle) == AcquireAt(config, old(idle), key, t)
    {
      t := clock.now;
      if !config.enabled || key !in idle {
        return None, t;
      }
      var queue := idle[key];
      ghost var first := true;
      AcquireKeepsGood(config, idle, key, t);
      while queue != []
        invariant idle == old(idle) && key in idle && clock.now >= old(clock.now)
        invariant first ==> queue == idle[key] && t == clock.now
        invariant !first ==> old(clock.now) <= t <= clock.now && !Live(config, idle[key][|idle[key]| - 1], t)
        invariant |queue| <= |idle[key]| && queue == idle[key][..|queue|]
        decreases |queue|
      {
        var conn := queue[|queue| - 1];
        queue := queue[..|queue| - 1];
        var now := clock.Now();
        if first {
          t := now;
        }
        if Elapsed(conn.stabledAt, now) < config.idleTimeout {
          assert first;
          LaterIsGood(config, idle, old(clock.now), now);
          AcquireKeepsGood(config, idle, key, now);
          if queue == [] {
            idle := idle - {key};
          } else {
            idle := idle[key := queue];
          }
          return Some(conn.dest), t;
        }
        first := false;
      }
      AllExpired(config, idle[key], t);
      idle := idle - {key};
      return None, t;
    }

    method Release(key: Bytes, dest: ConnId) returns (ghost t: nat)
      requires Valid()
      modifies this, clock
      ensures Valid()
      ensures old(clock.now) <= t <= clock.now
      ensures idle == ReleaseAt(config, old(idle), key, dest, t)
    {
      t := clock.now;
      if !config.enabled {
        return;
      }
      var queue := if key in idle then idle[key] else [];
      if |queue| >= config.maxIdlePerHost && queue != [] {
        queue := queue[1..];
      }
      var now := clock.Now();
      t := now;
      LaterIsGood(config, idle, old(clock.now), now);
      ReleaseKeepsGood(config, idle, key, dest, now);
      idle := idle[key := queue + [Stabled(dest, now)]];
    }

    /** One pass over every queue, reading the clock for every connection. */
    method ReapExpired() returns (ghost checks: Schedule)
      requires Valid()
      modifies this, clock
      ensures Valid()
      ensures Covers(checks, old(idle)) && Within(checks, old(clock.now), clock.now)
      ensures idle == Reap(config, old(idle), checks)
    {
      hide ReapQueue, GoodQueue;
      checks := map[];
      var todo := idle.Keys;
      var kept: Idle := map[];
      while todo != {}
        invariant todo <= idle.Keys && idle == old(idle) && old(clock.now) <= clock.now
        invariant checks.Keys == idle.Keys - todo
        invariant forall k :: k in checks ==> |checks[k]| == |idle[k]|
        invariant Within(checks, old(clock.now), clock.now)
        invariant forall k :: k in kept <==> k in checks && ReapQueue(config, idle[k], checks[k]) != []
        invariant forall k :: k in kept ==> kept[k] == ReapQueue(config, idle[k], checks[k])
        decreases todo
      {
        var key :| key in todo;
        ghost var times;
        var queue;
        queue, times := Retain(idle[key]);
        checks := checks[key := times];
        if queue != [] {
          kept := kept[key := queue];
        }
        todo := todo - {key};
      }
      LaterIsGood(config, idle, old(clock.now), clock.now);
      ReapKeepsGood(config, idle, checks, clock.now);
      assert kept == Reap(config, idle, checks);
      idle := kept;
    }

    method Retain(queue: Queue) returns (kept: Queue, ghost times: seq<nat>)
      modifies clock
      ensures old(clock.now) <= clock.now
      ensures |times| == |queue| && forall i :: 0 <= i < |times| ==> old(clock.now) <= times[i] <= clock.now
      ensures kept == ReapQueue(config, queue, times)
    {
      kept, times := [], [];
      for i := 0 to |queue|
        invariant old(clock.now) <= clock.now
        invariant |times| == i && forall j :: 0 <= j < i ==> old(clock.now) <= times[j] <= clock.now
        invariant kept == ReapQueue(config, queue[..i], times)
      {
        var now := clock.Now();
        ReapSnoc(config, queue[..i], times, queue[i], now);
        assert queue[..i + 1] == queue[..i] + [queue[i]];
        times := times + [now];
        if Elapsed(queue[i].stabledAt, now) < config.idleTimeout {
          kept := kept + [queue[i]];
        }
      }
      assert queue[..|queue|] == queue;
    }

    method IdleCount() returns (n: nat)
      ensures n == Total(idle)
    {
      n := 0;
      var rest := idle;
      while rest != map[]
        invariant n + Total(rest) == Total(idle)
        decreases |rest|
      {
        var key :| key in rest;
        TotalSplits(rest, key);
        n := n + |rest[key]|;
        rest := rest - {key};
      }
    }
  }

  lemma {:induction false} ReapSnoc(cfg: Config, q: Queue, times: seq<nat>, c: Stabled, t: nat)
    requires |times| == |q|
    ensures ReapQueue(cfg, q + [c], times + [t]) == ReapQueue(cfg, q, times) + if Live(cfg, c, t) then [c] else []
  {
    if q == [] {
      assert q + [c] == [c] && times + [t] == [t];
    } else {
      assert (q + [c])[1..] == q[1..] + [c] && (times + [t])[1..] == times[1..] + [t];
      ReapSnoc(cfg, q[1..], times[1..], c, t);
    }
  }

  lemma AllExpired(cfg: Config, q: Queue, t: nat)
    requires Sorted(q) && q != [] && !Live(cfg, q[|q| - 1], t)
    ensures PopLive(cfg, q, t) == (None, [])
  {
    PopLiveExact(cfg, q, t);
    NoneLive(cfg, q, t);
  }
}
