/** When a pooled connection expires: what acquires and reaper passes do with it, by its age alone. */
module StablingExpiry {
  import opened Common
  import opened Stabling
  import opened StablingRuns

  function Newest(q: Queue): Stabled
    requires q != []
  {
    q[|q| - 1]
  }

  /** On a good pool an acquire takes the newest connection of its key if that is younger than the timeout, and none otherwise. */
  lemma NewestIsHandedOut(cfg: Config, idle: Idle, key: Bytes, now: nat)
    requires Good(cfg, idle, now)
    ensures var q := QueueOf(idle, key);
            AcquireAt(cfg, idle, key, now).0 ==
            if cfg.enabled && q != [] && now - Newest(q).stabledAt < cfg.idleTimeout then Some(Newest(q).dest) else None
  {
    var q := QueueOf(idle, key);
    if cfg.enabled && q != [] && !Live(cfg, Newest(q), now) {
      AllExpired(cfg, q, now);
    }
  }

  // ----- where the entries of a pool come from -----

  lemma EntryAfter(cfg: Config, idle: Idle, op: Op, key: Bytes, c: Stabled)
    requires c in QueueOf(Apply(cfg, idle, op), key)
    ensures c in QueueOf(idle, key) || op == Release(key, c.dest, c.stabledAt)
  {
    match op
    case Acquire(k, now) =>
      if cfg.enabled && k in idle {
        PopIsPart(cfg, idle[k], now);
      }
    case Release(k, dest, now) =>
    case Reap(_, end, checks) =>
      ReapIsPart(cfg, idle[key], Fit(checks, idle, end)[key]);
  }

  lemma {:induction false} PopIsPart(cfg: Config, q: Queue, now: nat)
    ensures forall c :: c in PopLive(cfg, q, now).1 ==> c in q
  {
    if q != [] && !Live(cfg, q[|q| - 1], now) {
      PopIsPart(cfg, q[..|q| - 1], now);
    }
  }

  /** Every connection in a pool was put there by a release under its key, at the time it carries. */
  lemma {:induction false} EntriesAreReleases(cfg: Config, idle: Idle, ops: seq<Op>, key: Bytes, c: Stabled)
    requires c in QueueOf(Run(cfg, idle, ops), key)
    ensures c in QueueOf(idle, key) || Release(key, c.dest, c.stabledAt) in ops
    decreases |ops|
  {
    if ops != [] {
      EntriesAreReleases(cfg, Apply(cfg, idle, ops[0]), ops[1..], key, c);
      if c in QueueOf(Apply(cfg, idle, ops[0]), key) {
        EntryAfter(cfg, idle, ops[0], key, c);
      }
    }
  }

  // ----- runs in time -----

  lemma {:induction false} TimedPrefix(ops: seq<Op>, since: nat, j: nat)
    requires Timed(ops, since) && j <= |ops|
    ensures Timed(ops[..j], since) && since <= EndOf(ops[..j], since)
    ensures j < |ops| ==> EndOf(ops[..j], since) <= ops[j].Begin()
    decreases j
  {
    if j > 0 {
      TimedPrefix(ops[1..], ops[0].End(), j - 1);
      assert ops[..j][1..] == ops[1..][..j - 1];
    }
  }

  lemma {:induction false} TimedOrder(ops: seq<Op>, since: nat, i: nat, j: nat)
    requires Timed(ops, since) && i < j < |ops|
    ensures ops[i].End() <= ops[j].Begin()
    decreases i
  {
    if i > 0 {
      TimedOrder(ops[1..], ops[0].End(), i - 1, j - 1);
    } else {
      TimedPrefix(ops[1..], ops[0].End(), j - 1);
    }
  }

  /** The pool in front of operation `j` of a run. */
  function PoolAt(cfg: Config, ops: seq<Op>, j: nat): Idle
    requires j <= |ops|
  {
    Run(cfg, map[], ops[..j])
  }

  lemma PoolIsGood(cfg: Config, ops: seq<Op>, j: nat)
    requires Timed(ops, 0) && j < |ops|
    ensures Good(cfg, PoolAt(cfg, ops, j), ops[j].Begin())
  {
    TimedPrefix(ops, 0, j);
    RunKeepsGood(cfg, map[], ops[..j], 0);
    LaterIsGood(cfg, PoolAt(cfg, ops, j), EndOf(ops[..j], 0), ops[j].Begin());
  }

  /** What acquire number `j` of a run returns. */
  function ResultAt(cfg: Config, ops: seq<Op>, j: nat): Option<ConnId>
    requires j < |ops| && ops[j].Acquire?
  {
    AcquireAt(cfg, PoolAt(cfg, ops, j), ops[j].key, ops[j].now).0
  }

  predicate Releases(op: Op, key: Bytes, dest: ConnId) {
    op.Release? && op.key == key && op.dest == dest
  }

  lemma {:induction false} LastRelease(ops: seq<Op>, key: Bytes, dest: ConnId, j: nat, i: nat) returns (last: nat)
    requires i < j <= |ops| && Releases(ops[i], key, dest)
    ensures i <= last < j && Releases(ops[last], key, dest)
    ensures forall k :: last < k < j ==> !Releases(ops[k], key, dest)
    decreases j
  {
    if Releases(ops[j - 1], key, dest) {
      last := j - 1;
    } else {
      last := LastRelease(ops, key, dest, j - 1, i);
    }
  }

  /** In every run, a connection is only handed out if its last release under that key is younger than the timeout. */
  lemma HandedOutIsYoung(cfg: Config, ops: seq<Op>, j: nat, dest: ConnId) returns (i: nat)
    requires Timed(ops, 0) && j < |ops| && ops[j].Acquire? && ResultAt(cfg, ops, j) == Some(dest)
    ensures i < j && Releases(ops[i], ops[j].key, dest) && ops[j].now - ops[i].now < cfg.idleTimeout
    ensures forall k :: i < k < j ==> !Releases(ops[k], ops[j].key, dest)
  {
    var key, now := ops[j].key, ops[j].now;
    PoolIsGood(cfg, ops, j);
    NewestIsHandedOut(cfg, PoolAt(cfg, ops, j), key, now);
    var c := Newest(QueueOf(PoolAt(cfg, ops, j), key));
    EntriesAreReleases(cfg, map[], ops[..j], key, c);
    var k :| 0 <= k < j && ops[..j][k] == Release(key, c.dest, c.stabledAt);
    i := LastRelease(ops, key, dest, j, k);
    if k < i {
      TimedOrder(ops, 0, k, i);
    }
  }

  /** In every run, the newest connection of a key is handed out if it is younger than the timeout; otherwise none is. */
  lemma HandedOutExactly(cfg: Config, ops: seq<Op>, j: nat)
    requires Timed(ops, 0) && j < |ops| && ops[j].Acquire?
    ensures var q := QueueOf(PoolAt(cfg, ops, j), ops[j].key);
            ResultAt(cfg, ops, j) ==
            if cfg.enabled && q != [] && ops[j].now - Newest(q).stabledAt < cfg.idleTimeout then Some(Newest(q).dest) else None
  {
    PoolIsGood(cfg, ops, j);
    NewestIsHandedOut(cfg, PoolAt(cfg, ops, j), ops[j].key, ops[j].now);
  }

  // ----- a release and the next acquire of its key -----

  /** Nothing here takes from the queue of `key` or puts into it, except the reaper. */
  ghost predicate Elsewhere(ops: seq<Op>, key: Bytes) {
    forall op :: op in ops ==> op.Reap? || op.key != key
  }

  lemma ReapKeepsNewest(cfg: Config, q: Queue, times: seq<nat>, until: nat)
    requires q != [] && |times| == |q| && times[|q| - 1] <= until && Newest(q).stabledAt <= until
    requires until - Newest(q).stabledAt < cfg.idleTimeout
    ensures var r := ReapQueue(cfg, q, times); r != [] && Newest(r) == Newest(q)
  {
    var n := |q| - 1;
    ReapSnoc(cfg, q[..n], times[..n], q[n], times[n]);
    hide ReapQueue;
    assert q == q[..n] + [q[n]] && times == times[..n] + [times[n]];
  }

  lemma {:induction false} NewestStays(cfg: Config, idle: Idle, ops: seq<Op>, since: nat, key: Bytes, until: nat)
    requires Timed(ops, since) && Elsewhere(ops, key) && EndOf(ops, since) <= until
    requires QueueOf(idle, key) != [] && Newest(QueueOf(idle, key)).stabledAt <= until
    requires until - Newest(QueueOf(idle, key)).stabledAt < cfg.idleTimeout
    ensures var q := QueueOf(Run(cfg, idle, ops), key);
            q != [] && Newest(q) == Newest(QueueOf(idle, key))
    decreases |ops|
  {
    if ops != [] {
      var op, more := ops[0], ops[1..];
      TimedPrefix(more, op.End(), |more|);
      assert more[..|more|] == more;
      if op.Reap? {
        var times := Fit(op.checks, idle, op.end)[key];
        assert times[|times| - 1] <= op.end;
        ReapKeepsNewest(cfg, idle[key], times, until);
      }
      NewestStays(cfg, Apply(cfg, idle, op), more, op.End(), key, until);
    }
  }

  lemma {:induction false} RunAppend(cfg: Config, idle: Idle, a: seq<Op>, b: seq<Op>)
    ensures Run(cfg, idle, a + b) == Run(cfg, Run(cfg, idle, a), b)
    decreases |a|
  {
    if a == [] {
      assert a + b == b;
    } else {
      assert (a + b)[1..] == a[1..] + b;
      RunAppend(cfg, Apply(cfg, idle, a[0]), a[1..], b);
    }
  }

  lemma {:induction false} TimedSuffix(ops: seq<Op>, since: nat, j: nat)
    requires Timed(ops, since) && j <= |ops|
    ensures Timed(ops[j..], EndOf(ops[..j], since))
    decreases j
  {
    hide Within, Op.Begin, Op.End;
    if j == 0 {
      assert ops[0..] == ops;
    } else {
      TimedSuffix(ops[1..], ops[0].End(), j - 1);
      assert ops[..j][1..] == ops[1..][..j - 1] && ops[1..][j - 1..] == ops[j..];
    }
  }

  lemma {:induction false} DisabledIsEmpty(cfg: Config, ops: seq<Op>)
    requires !cfg.enabled
    ensures Run(cfg, map[], ops) == map[]
    decreases |ops|
  {
    if ops != [] {
      assert Apply(cfg, map[], ops[0]) == map[];
      DisabledIsEmpty(cfg, ops[1..]);
    }
  }

  /**
   * A release at `s` and the next acquire of its key at `t`, whatever else the run does before and in between:
   * the connection is handed out exactly when fewer than `idleTimeout` units of time have passed, and no older
   * one is handed out instead.
   */
  lemma ReleaseThenAcquire(cfg: Config, before: seq<Op>, key: Bytes, dest: ConnId, s: nat, between: seq<Op>, t: nat)
    requires Timed(before + [Release(key, dest, s)] + between + [Acquire(key, t)], 0) && Elsewhere(between, key)
    ensures var ops := before + [Release(key, dest, s)] + between + [Acquire(key, t)];
            ResultAt(cfg, ops, |ops| - 1) == if cfg.enabled && t - s < cfg.idleTimeout then Some(dest) else None
  {
    var released := before + [Release(key, dest, s)];
    var ops := released + between + [Acquire(key, t)];
    var j := |ops| - 1;
    assert ops[..j] == released + between && ops[..|released|] == released && ops[|released|..j] == between;
    if !cfg.enabled {
      DisabledIsEmpty(cfg, ops[..j]);
    } else {
      var mid := Run(cfg, map[], released);
      RunAppend(cfg, map[], before, [Release(key, dest, s)]);
      RunAppend(cfg, map[], released, between);
      HandedOutExactly(cfg, ops, j);
      var since := EndOf(released, 0);
      BetweenIsTimed(ops, released, between, t);
      assert Newest(QueueOf(mid, key)) == Stabled(dest, s);
      TimedOrder(ops, 0, |before|, j);
      assert ops[|before|] == Release(key, dest, s);
      if t - s < cfg.idleTimeout {
        NewestStays(cfg, mid, between, since, key, t);
      } else if QueueOf(PoolAt(cfg, ops, j), key) != [] {
        var c := Newest(QueueOf(PoolAt(cfg, ops, j), key));
        EntriesAreReleases(cfg, mid, between, key, c);
        RunKeepsGood(cfg, map[], released, 0);
        assert c in QueueOf(mid, key) && c.stabledAt <= s;
      }
    }
  }

  lemma BetweenIsTimed(ops: seq<Op>, released: seq<Op>, between: seq<Op>, t: nat)
    requires Timed(ops, 0) && |ops| == |released| + |between| + 1 && ops[|released| + |between|].Begin() == t
    requires ops[..|released|] == released && ops[|released|..|released| + |between|] == between
    ensures Timed(released, 0) && Timed(between, EndOf(released, 0)) && EndOf(between, EndOf(released, 0)) <= t
  {
    var n, rest := |released|, ops[|released|..];
    TimedPrefix(ops, 0, n);
    TimedSuffix(ops, 0, n);
    TimedPrefix(rest, EndOf(released, 0), |between|);
    assert rest[..|between|] == between && rest[|between|] == ops[n + |between|];
  }

  // ----- the reaper -----

  /** The connection at position `i` is younger than the timeout when it is looked at. */
  ghost predicate Young(cfg: Config, q: Queue, times: seq<nat>, i: nat) {
    i < |q| == |times| && times[i] - q[i].stabledAt < cfg.idleTimeout
  }

  ghost predicate Increasing(kept: seq<nat>) {
    forall a, b :: 0 <= a < b < |kept| ==> kept[a] < kept[b]
  }

  /** The connections at some positions. */
  function Pick(q: Queue, kept: seq<nat>): (r: Queue)
    requires forall k :: k in kept ==> k < |q|
    ensures |r| == |kept|
  {
    seq(|kept|, a requires 0 <= a < |kept| => assert kept[a] in kept; q[kept[a]])
  }

  lemma PickSnoc(init: Queue, c: Stabled, kept: seq<nat>)
    requires forall k :: k in kept ==> k < |init|
    ensures forall k :: k in kept ==> k < |init + [c]|
    ensures Pick(init + [c], kept) == Pick(init, kept)
    ensures Pick(init + [c], kept + [|init|]) == Pick(init, kept) + [c]
  {
    assert forall a :: 0 <= a < |kept| ==> kept[a] in kept;
  }

  /** A pass over a queue keeps exactly the young connections, in their order. */
  lemma {:induction false} KeptExactly(cfg: Config, q: Queue, times: seq<nat>) returns (kept: seq<nat>)
    requires |times| == |q| && forall i :: 0 <= i < |q| ==> q[i].stabledAt <= times[i]
    ensures Increasing(kept) && forall i: nat :: i in kept <==> Young(cfg, q, times, i)
    ensures forall k :: k in kept ==> k < |q|
    ensures ReapQueue(cfg, q, times) == Pick(q, kept)
  {
    if q == [] {
      kept := [];
    } else {
      var n := |q| - 1;
      var init := q[..n];
      var before := KeptExactly(cfg, init, times[..n]);
      ReapSnoc(cfg, init, times[..n], q[n], times[n]);
      assert q == init + [q[n]] && times == times[..n] + [times[n]];
      hide ReapQueue, Pick;
      PickSnoc(init, q[n], before);
      kept := if Young(cfg, q, times, n) then before + [n] else before;
      YoungSnoc(cfg, q, times, before);
      assert forall a :: 0 <= a < |before| ==> before[a] in before;
    }
  }

  lemma YoungSnoc(cfg: Config, q: Queue, times: seq<nat>, before: seq<nat>)
    requires |times| == |q| > 0 && forall i: nat :: i in before <==> Young(cfg, q[..|q| - 1], times[..|q| - 1], i)
    ensures var n := |q| - 1;
            var kept := if Young(cfg, q, times, n) then before + [n] else before;
            forall i: nat :: i in kept <==> Young(cfg, q, times, i)
  {
    var n := |q| - 1;
    assert forall i: nat :: i < n ==> (Young(cfg, q, times, i) <==> Young(cfg, q[..n], times[..n], i));
  }

  /** In every run, behind a reaper pass each queue holds what was young when it was looked at, in order, and no more. */
  lemma ReapedExactly(cfg: Config, ops: seq<Op>, j: nat, key: Bytes) returns (kept: seq<nat>)
    requires Timed(ops, 0) && j < |ops| && ops[j].Reap? && key in PoolAt(cfg, ops, j)
    ensures var q, times := PoolAt(cfg, ops, j)[key], Fit(ops[j].checks, PoolAt(cfg, ops, j), ops[j].end)[key];
            && Increasing(kept) && (forall i: nat :: i in kept <==> Young(cfg, q, times, i))
            && (forall k :: k in kept ==> k < |q|)
            && QueueOf(Apply(cfg, PoolAt(cfg, ops, j), ops[j]), key) == Pick(q, kept)
  {
    var idle := PoolAt(cfg, ops, j);
    PoolIsGood(cfg, ops, j);
    ReapIsTimed(ops, 0, j);
    kept := KeptExactly(cfg, idle[key], Fit(ops[j].checks, idle, ops[j].end)[key]);
  }

  lemma {:induction false} ReapIsTimed(ops: seq<Op>, since: nat, j: nat)
    requires Timed(ops, since) && j < |ops| && ops[j].Reap?
    ensures Within(ops[j].checks, ops[j].begin, ops[j].end) && ops[j].begin <= ops[j].end
    decreases j
  {
    if j > 0 {
      ReapIsTimed(ops[1..], ops[0].End(), j - 1);
    }
  }
}
