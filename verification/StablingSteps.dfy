/**
 * The pool under concurrency. Queues are only touched under the guard of their key, so the steps of
 * different requests interleave per key; but `acquire` gives up its guard before it removes an
 * emptied queue, so its two halves are separate steps.
 */
module StablingSteps {
  import opened Common
  import opened Stabling

  datatype Step =
    | Connect(dest: ConnId)
    | Close(dest: ConnId)
    | ReleaseUnder(key: Bytes, dest: ConnId, now: nat)
    | Pop(key: Bytes, now: nat)
    | Remove(key: Bytes)
    | ReapKey(key: Bytes, times: seq<nat>)

  datatype State = State(
    idle: Idle,
    held: set<ConnId>,
    closed: set<ConnId>,
    known: set<ConnId>,
    removals: multiset<Bytes>,
    lastKey: map<ConnId, Bytes>)

  const INITIAL := State(map[], {}, {}, {}, multiset{}, map[])

  function Dests(q: Queue): set<ConnId> {
    set c | c in q :: c.dest
  }

  /** When a step can happen at all. */
  predicate Enabled(s: State, step: Step) {
    match step
    case Connect(d) => d !in s.known
    case Close(d) => d in s.held
    case ReleaseUnder(_, d, _) => d in s.held
    case Pop(_, _) => true
    case Remove(key) => key in s.removals
    case ReapKey(key, times) => |times| == |QueueOf(s.idle, key)|
  }

  /** What the first half of an acquire takes out of the queue. */
  function Popped(cfg: Config, s: State, key: Bytes, now: nat): Option<ConnId> {
    if cfg.enabled then PopLive(cfg, QueueOf(s.idle, key), now).0 else None
  }

  function Next(cfg: Config, s: State, step: Step): State
    requires Enabled(s, step)
  {
    match step
    case Connect(d) => s.(held := s.held + {d}, known := s.known + {d})
    case Close(d) => s.(held := s.held - {d}, closed := s.closed + {d})
    case ReleaseUnder(key, d, now) =>
      if !cfg.enabled then s.(held := s.held - {d}, closed := s.closed + {d})
      else
        var q := QueueOf(s.idle, key);
        var kept := PopFrontIfFull(q, cfg.maxIdlePerHost);
        s.(idle := s.idle[key := kept + [Stabled(d, now)]],
           held := s.held - {d},
           closed := s.closed + (Dests(q) - Dests(kept)),
           lastKey := s.lastKey[d := key])
    case Pop(key, now) =>
      if !cfg.enabled || key !in s.idle then s
      else
        var q := s.idle[key];
        var (r, rest) := PopLive(cfg, q, now);
        var taken := if r.Some? then {r.value} else {};
        s.(idle := s.idle[key := rest],
           held := s.held + taken,
           closed := s.closed + (Dests(q) - Dests(rest) - taken),
           removals := if rest == [] then s.removals + multiset{key} else s.removals)
    case Remove(key) =>
      s.(idle := s.idle - {key},
         closed := s.closed + Dests(QueueOf(s.idle, key)),
         removals := s.removals - multiset{key})
    case ReapKey(key, times) =>
      var q := QueueOf(s.idle, key);
      var kept := ReapQueue(cfg, q, times);
      s.(idle := WithQueue(s.idle, key, kept), closed := s.closed + (Dests(q) - Dests(kept)))
  }

  // ----- ownership -----

  ghost predicate NoDuplicates(q: Queue) {
    forall i, j :: 0 <= i < j < |q| ==> q[i].dest != q[j].dest
  }

  ghost predicate IdleUnder(s: State, d: ConnId, key: Bytes) {
    d in Dests(QueueOf(s.idle, key))
  }

  /**
   * Idle connections are known, neither held nor closed, in one place, and under the key they were
   * last released with; every known connection is held, closed or idle.
   */
  ghost predicate Owned(s: State) {
    && s.held !! s.closed
    && s.held <= s.known && s.closed <= s.known
    && (forall k :: NoDuplicates(QueueOf(s.idle, k)))
    && (forall k, d :: IdleUnder(s, d, k) ==>
          d in s.known && d !in s.held && d !in s.closed && d in s.lastKey && s.lastKey[d] == k)
    && (forall d :: d in s.known && d !in s.held && d !in s.closed ==> d in s.lastKey && IdleUnder(s, d, s.lastKey[d]))
  }

  lemma {:induction false} PopLiveSplits(cfg: Config, q: Queue, now: nat)
    requires NoDuplicates(q)
    ensures var (r, rest) := PopLive(cfg, q, now);
            && NoDuplicates(rest) && Dests(rest) <= Dests(q)
            && (r.Some? ==> r.value in Dests(q) && r.value !in Dests(rest))
  {
    if q != [] {
      var init, last := q[..|q| - 1], q[|q| - 1];
      assert q == init + [last];
      if Live(cfg, last, now) {
        assert last in q;
        assert forall c :: c in init ==> c.dest != last.dest;
      } else {
        PopLiveSplits(cfg, init, now);
        assert Dests(init) <= Dests(q);
      }
    }
  }

  lemma {:induction false} ReapSplits(cfg: Config, q: Queue, times: seq<nat>)
    requires NoDuplicates(q) && |times| == |q|
    ensures NoDuplicates(ReapQueue(cfg, q, times))
  {
    if q != [] {
      ReapIsPart(cfg, q[1..], times[1..]);
      ReapSplits(cfg, q[1..], times[1..]);
      assert forall c :: c in q[1..] ==> c.dest != q[0].dest;
    }
  }

  /** Replacing one queue keeps ownership when what leaves it is accounted for. */
  lemma QueueReplaced(s: State, t: State, key: Bytes)
    requires Owned(s)
    requires NoDuplicates(QueueOf(t.idle, key)) && Dests(QueueOf(t.idle, key)) <= Dests(QueueOf(s.idle, key))
    requires forall k :: k != key ==> QueueOf(t.idle, k) == QueueOf(s.idle, k)
    requires t.known == s.known && t.lastKey == s.lastKey
    requires s.held <= t.held && s.closed <= t.closed && t.held !! t.closed
    requires t.held + t.closed == s.held + s.closed + (Dests(QueueOf(s.idle, key)) - Dests(QueueOf(t.idle, key)))
    ensures Owned(t)
  {
    assert forall d :: d in Dests(QueueOf(s.idle, key)) ==> IdleUnder(s, d, key);
    forall k, d | IdleUnder(t, d, k)
      ensures d in t.known && d !in t.held && d !in t.closed && d in t.lastKey && t.lastKey[d] == k
    {
      assert IdleUnder(s, d, k);
      if d in Dests(QueueOf(s.idle, key)) { assert IdleUnder(s, d, key); }
    }
    forall d | d in t.known && d !in t.held && d !in t.closed
      ensures d in t.lastKey && IdleUnder(t, d, t.lastKey[d])
    {
      assert IdleUnder(s, d, s.lastKey[d]);
    }
    forall k ensures NoDuplicates(QueueOf(t.idle, k)) {
      assert NoDuplicates(QueueOf(s.idle, k));
    }
  }

  /** A held connection goes to the back of a queue it is not in. */
  lemma QueueExtended(s: State, t: State, key: Bytes, c: Stabled)
    requires Owned(s) && c.dest in s.held
    requires QueueOf(t.idle, key) == QueueOf(s.idle, key) + [c]
    requires forall k :: k != key ==> QueueOf(t.idle, k) == QueueOf(s.idle, k)
    requires t.known == s.known && t.lastKey == s.lastKey[c.dest := key]
    requires t.held == s.held - {c.dest} && t.closed == s.closed
    ensures Owned(t)
  {
    var q := QueueOf(s.idle, key);
    assert forall x :: x in q + [c] <==> x in q || x == c;
    assert Dests(q + [c]) == Dests(q) + {c.dest};
    forall k, d | IdleUnder(t, d, k)
      ensures d in t.known && d !in t.held && d !in t.closed && d in t.lastKey && t.lastKey[d] == k
    {
      if !(k == key && d == c.dest) { assert IdleUnder(s, d, k); }
    }
    forall d | d in t.known && d !in t.held && d !in t.closed
      ensures d in t.lastKey && IdleUnder(t, d, t.lastKey[d])
    {
      if d != c.dest { assert IdleUnder(s, d, s.lastKey[d]); }
    }
    forall k ensures NoDuplicates(QueueOf(t.idle, k)) {
      assert NoDuplicates(QueueOf(s.idle, k));
      if k == key && c.dest in Dests(q) { assert IdleUnder(s, c.dest, key); }
      assert forall x :: x in q ==> x.dest in Dests(q);
    }
  }

  lemma EvictionSplits(q: Queue, max: nat)
    requires NoDuplicates(q)
    ensures NoDuplicates(PopFrontIfFull(q, max)) && Dests(PopFrontIfFull(q, max)) <= Dests(q)
  {
    assert forall c :: c in PopFrontIfFull(q, max) ==> c in q;
  }

  lemma ReleaseKeepsOwned(cfg: Config, s: State, key: Bytes, d: ConnId, now: nat)
    requires Owned(s) && d in s.held && cfg.enabled
    ensures Owned(Next(cfg, s, ReleaseUnder(key, d, now)))
  {
    var q := QueueOf(s.idle, key);
    var kept := PopFrontIfFull(q, cfg.maxIdlePerHost);
    EvictionSplits(q, cfg.maxIdlePerHost);
    var mid := s.(idle := s.idle[key := kept], closed := s.closed + (Dests(q) - Dests(kept)));
    assert forall e :: e in Dests(q) ==> IdleUnder(s, e, key);
    QueueReplaced(s, mid, key);
    var t := Next(cfg, s, ReleaseUnder(key, d, now));
    QueueExtended(mid, t, key, Stabled(d, now));
  }

  lemma PopKeepsOwned(cfg: Config, s: State, key: Bytes, now: nat)
    requires Owned(s)
    ensures Owned(Next(cfg, s, Pop(key, now)))
  {
    if cfg.enabled && key in s.idle {
      var q := QueueOf(s.idle, key);
      PopLiveSplits(cfg, q, now);
      assert forall d :: d in Dests(q) ==> IdleUnder(s, d, key);
      QueueReplaced(s, Next(cfg, s, Pop(key, now)), key);
    }
  }

  lemma ReapKeepsOwned(cfg: Config, s: State, key: Bytes, times: seq<nat>)
    requires Owned(s) && Enabled(s, ReapKey(key, times))
    ensures Owned(Next(cfg, s, ReapKey(key, times)))
  {
    var q := QueueOf(s.idle, key);
    ReapSplits(cfg, q, times);
    ReapIsPart(cfg, q, times);
    assert forall d :: d in Dests(q) ==> IdleUnder(s, d, key);
    var t := Next(cfg, s, ReapKey(key, times));
    assert QueueOf(t.idle, key) == ReapQueue(cfg, q, times);
    QueueReplaced(s, t, key);
  }

  lemma RemoveKeepsOwned(cfg: Config, s: State, key: Bytes)
    requires Owned(s) && Enabled(s, Remove(key))
    ensures Owned(Next(cfg, s, Remove(key)))
  {
    assert forall d :: d in Dests(QueueOf(s.idle, key)) ==> IdleUnder(s, d, key);
    QueueReplaced(s, Next(cfg, s, Remove(key)), key);
  }

  /** Nothing moved between queues. */
  lemma QueuesUntouched(s: State, t: State)
    requires Owned(s) && t.idle == s.idle && t.lastKey == s.lastKey
    requires t.held !! t.closed && t.held + t.closed <= t.known && s.known <= t.known
    requires s.held + s.closed <= t.held + t.closed
    requires (t.held + t.closed) - (s.held + s.closed) == t.known - s.known
    ensures Owned(t)
  {
    assert forall k, d :: IdleUnder(t, d, k) == IdleUnder(s, d, k);
    forall d | d in t.known && d !in t.held && d !in t.closed
      ensures d in t.lastKey && IdleUnder(t, d, t.lastKey[d])
    {
      assert d !in (t.held + t.closed) - (s.held + s.closed);
      assert d in s.known;
    }
  }

  /** Every step of every request keeps ownership. */
  lemma NextKeepsOwned(cfg: Config, s: State, step: Step)
    requires Owned(s) && Enabled(s, step)
    ensures Owned(Next(cfg, s, step))
  {
    match step
    case Connect(d) => QueuesUntouched(s, Next(cfg, s, step));
    case Close(d) => QueuesUntouched(s, Next(cfg, s, step));
    case ReleaseUnder(key, d, now) =>
      if cfg.enabled {
        ReleaseKeepsOwned(cfg, s, key, d, now);
      } else {
        QueuesUntouched(s, Next(cfg, s, step));
      }
    case Pop(key, now) => PopKeepsOwned(cfg, s, key, now);
    case Remove(key) => RemoveKeepsOwned(cfg, s, key);
    case ReapKey(key, times) => ReapKeepsOwned(cfg, s, key, times);
  }

  // ----- runs -----

  /** The state after a run, when every step of it was possible. */
  function Run(cfg: Config, s: State, steps: seq<Step>): Option<State> {
    if steps == [] then Some(s)
    else
      match Run(cfg, s, steps[..|steps| - 1])
      case None => None
      case Some(t) => if Enabled(t, steps[|steps| - 1]) then Some(Next(cfg, t, steps[|steps| - 1])) else None
  }

  lemma {:induction false} RunKeepsOwned(cfg: Config, s: State, steps: seq<Step>)
    requires Owned(s) && Run(cfg, s, steps).Some?
    ensures Owned(Run(cfg, s, steps).value)
  {
    if steps != [] {
      RunKeepsOwned(cfg, s, steps[..|steps| - 1]);
      NextKeepsOwned(cfg, Run(cfg, s, steps[..|steps| - 1]).value, steps[|steps| - 1]);
    }
  }

  /** In how many of the three places a connection is. */
  ghost function Places(s: State, d: ConnId): nat {
    (if d in s.held then 1 else 0) + (if d in s.closed then 1 else 0) + (if exists k :: IdleUnder(s, d, k) then 1 else 0)
  }

  /**
   * Under every interleaving each connection is in exactly one place, idle under at most one key, and
   * a request for a key is only ever handed a connection last released under that key.
   */
  lemma Ownership(cfg: Config, steps: seq<Step>, key: Bytes, now: nat)
    requires Run(cfg, INITIAL, steps).Some?
    ensures var s := Run(cfg, INITIAL, steps).value;
            && (forall d :: d in s.known ==> Places(s, d) == 1)
            && (forall d, k, k' :: IdleUnder(s, d, k) && IdleUnder(s, d, k') ==> k == k')
            && (Popped(cfg, s, key, now).Some? ==>
                  var d := Popped(cfg, s, key, now).value;
                  d in s.lastKey && s.lastKey[d] == key && d in Next(cfg, s, Pop(key, now)).held && d !in s.held)
  {
    assert forall d, k :: !IdleUnder(INITIAL, d, k);
    RunKeepsOwned(cfg, INITIAL, steps);
    var s := Run(cfg, INITIAL, steps).value;
    if Popped(cfg, s, key, now).Some? {
      PopLiveSplits(cfg, QueueOf(s.idle, key), now);
      assert IdleUnder(s, Popped(cfg, s, key, now).value, key);
    }
  }

  // ----- the gap between the halves of an acquire -----

  /** Without anything in between, the two halves are the sequential acquire. */
  lemma AtomicWhenUninterrupted(cfg: Config, s: State, key: Bytes, now: nat)
    requires cfg.enabled && key in s.idle
    ensures var t := Next(cfg, s, Pop(key, now));
            && (Popped(cfg, s, key, now), if QueueOf(t.idle, key) == [] then t.idle - {key} else t.idle) ==
               AcquireAt(cfg, s.idle, key, now)
            && (QueueOf(t.idle, key) == [] ==>
                  Enabled(t, Remove(key)) && Next(cfg, t, Remove(key)).idle == AcquireAt(cfg, s.idle, key, now).1
                  && Next(cfg, t, Remove(key)).closed == t.closed)
  {
    var q := PopLive(cfg, s.idle[key], now).1;
    assert s.idle[key := q] - {key} == s.idle - {key};
  }

  lemma QueueAfterStep(cfg: Config, s: State, step: Step, key: Bytes, d: ConnId)
    requires Enabled(s, step) && IdleUnder(Next(cfg, s, step), d, key)
    ensures IdleUnder(s, d, key) || (step.ReleaseUnder? && step.key == key && step.dest == d)
  {
    var t := Next(cfg, s, step);
    var c :| c in QueueOf(t.idle, key) && c.dest == d;
    match step
    case ReleaseUnder(k, e, now) =>
      if cfg.enabled && k == key {
        var kept := PopFrontIfFull(QueueOf(s.idle, key), cfg.maxIdlePerHost);
        assert c in kept || c == Stabled(e, now);
      }
    case Pop(k, now) =>
      if cfg.enabled && k == key && k in s.idle {
        PopIsPrefix(cfg, s.idle[k], now);
      }
    case ReapKey(k, times) =>
      if k == key {
        assert QueueOf(t.idle, key) == ReapQueue(cfg, QueueOf(s.idle, key), times);
        ReapIsPart(cfg, QueueOf(s.idle, key), times);
      }
    case _ =>
  }

  lemma {:induction false} PopIsPrefix(cfg: Config, q: Queue, now: nat)
    ensures PopLive(cfg, q, now).1 <= q
  {
    if q != [] && !Live(cfg, q[|q| - 1], now) {
      PopIsPrefix(cfg, q[..|q| - 1], now);
    }
  }

  // ----- what a late removal closes -----

  /** What one step makes of the queue of `key`. */
  function StepQueue(cfg: Config, q: Queue, step: Step, key: Bytes): Queue {
    match step
    case ReleaseUnder(k, d, now) =>
      if k == key && cfg.enabled then PopFrontIfFull(q, cfg.maxIdlePerHost) + [Stabled(d, now)] else q
    case Pop(k, now) => if k == key && cfg.enabled then PopLive(cfg, q, now).1 else q
    case Remove(k) => if k == key then [] else q
    case ReapKey(k, times) => if k == key && |times| == |q| then ReapQueue(cfg, q, times) else q
    case _ => q
  }

  function QueueAfter(cfg: Config, q: Queue, steps: seq<Step>, key: Bytes): Queue {
    if steps == [] then q
    else StepQueue(cfg, QueueAfter(cfg, q, steps[..|steps| - 1], key), steps[|steps| - 1], key)
  }

  /** A queue is the work of the steps on its own key, whatever happens to the others in between. */
  lemma {:induction false} QueueIsOwnWork(cfg: Config, s: State, steps: seq<Step>, key: Bytes)
    requires Run(cfg, s, steps).Some?
    ensures QueueOf(Run(cfg, s, steps).value.idle, key) == QueueAfter(cfg, QueueOf(s.idle, key), steps, key)
  {
    if steps != [] {
      var init, last := steps[..|steps| - 1], steps[|steps| - 1];
      QueueIsOwnWork(cfg, s, init, key);
      var t := Run(cfg, s, init).value;
      assert QueueOf(Next(cfg, t, last).idle, key) == StepQueue(cfg, QueueOf(t.idle, key), last, key);
    }
  }

  predicate Releases(step: Step, key: Bytes) {
    step.ReleaseUnder? && step.key == key
  }

  /** The step leaves some of a queue: a pop takes the newest live connection and all expired ones behind it. */
  predicate LeavesSome(cfg: Config, q: Queue, step: Step, key: Bytes) {
    match step
    case Pop(k, now) => k == key && cfg.enabled ==> exists i :: 1 <= i < |q| && Live(cfg, q[i], now)
    case Remove(k) => k != key
    case ReapKey(k, times) => k == key && |times| == |q| ==> exists i :: 0 <= i < |q| && Live(cfg, q[i], times[i])
    case _ => true
  }

  lemma {:induction false} PopLeaves(cfg: Config, q: Queue, now: nat)
    ensures PopLive(cfg, q, now).1 != [] <==> exists i :: 1 <= i < |q| && Live(cfg, q[i], now)
  {
    if q != [] && !Live(cfg, q[|q| - 1], now) {
      PopLeaves(cfg, q[..|q| - 1], now);
    }
  }

  lemma {:induction false} ReapLeaves(cfg: Config, q: Queue, times: seq<nat>)
    requires |times| == |q|
    ensures ReapQueue(cfg, q, times) != [] <==> exists i :: 0 <= i < |q| && Live(cfg, q[i], times[i])
  {
    if q != [] {
      ReapLeaves(cfg, q[1..], times[1..]);
      assert forall i :: 0 < i < |q| ==> q[i] == q[1..][i - 1] && times[i] == times[1..][i - 1];
    }
  }

  lemma StepLeaves(cfg: Config, q: Queue, step: Step, key: Bytes)
    requires cfg.enabled
    ensures StepQueue(cfg, q, step, key) != [] <==> Releases(step, key) || (q != [] && LeavesSome(cfg, q, step, key))
  {
    match step
    case Pop(k, now) =>
      PopLeaves(cfg, q, now);
    case ReapKey(k, times) =>
      if |times| == |q| {
        ReapLeaves(cfg, q, times);
      }
    case _ =>
  }

  /** After release number `i` no step leaves the queue of the key empty. */
  ghost predicate KeptSince(cfg: Config, q: Queue, steps: seq<Step>, key: Bytes, i: nat) {
    && i < |steps| && Releases(steps[i], key)
    && forall k :: i < k < |steps| ==>
         Releases(steps[k], key) || LeavesSome(cfg, QueueAfter(cfg, q, steps[..k], key), steps[k], key)
  }

  /** One more step: a release counts from itself on, and anything else has to leave some of the queue. */
  lemma KeptSinceSnoc(cfg: Config, init: seq<Step>, last: Step, key: Bytes, i: nat)
    ensures var q := QueueAfter(cfg, [], init, key);
            KeptSince(cfg, [], init + [last], key, i) <==>
            if i < |init| then KeptSince(cfg, [], init, key, i) && (Releases(last, key) || LeavesSome(cfg, q, last, key))
            else i == |init| && Releases(last, key)
  {
    hide QueueAfter, LeavesSome, Releases;
    var steps := init + [last];
    assert forall k :: 0 <= k <= |init| ==> steps[..k] == init[..k];
    assert init[..|init|] == init && forall k :: 0 <= k < |init| ==> steps[k] == init[k];
    if i < |init| && KeptSince(cfg, [], steps, key, i) {
      assert steps[|init|] == last && steps[..|init|] == init;
    }
  }

  lemma {:induction false} NonEmptyExactly(cfg: Config, steps: seq<Step>, key: Bytes)
    requires cfg.enabled
    ensures QueueAfter(cfg, [], steps, key) != [] <==> exists i: nat :: KeptSince(cfg, [], steps, key, i)
  {
    hide LeavesSome, Releases, StepQueue;
    if steps != [] {
      var n := |steps| - 1;
      var init, last := steps[..n], steps[n];
      var q := QueueAfter(cfg, [], init, key);
      assert steps == init + [last];
      NonEmptyExactly(cfg, init, key);
      StepLeaves(cfg, q, last, key);
      forall i: nat
        ensures KeptSince(cfg, [], steps, key, i) <==>
                if i < n then KeptSince(cfg, [], init, key, i) && (Releases(last, key) || LeavesSome(cfg, q, last, key))
                else i == n && Releases(last, key)
      {
        KeptSinceSnoc(cfg, init, last, key, i);
      }
      if Releases(last, key) {
        assert KeptSince(cfg, [], steps, key, n);
      } else if q != [] && LeavesSome(cfg, q, last, key) {
        var i: nat :| KeptSince(cfg, [], init, key, i);
        assert KeptSince(cfg, [], steps, key, i);
      }
    }
  }

  lemma SomeDest(q: Queue)
    ensures Dests(q) == {} <==> q == []
  {
    if q != [] {
      assert q[0] in q && q[0].dest in Dests(q);
    }
  }

  /**
   * A removal that comes late closes something exactly when a connection was released under its key
   * after the queue had been emptied, and every later pop, pass of the reaper and removal of the key left
   * some of the queue.
   */
  lemma LateRemovalExactly(cfg: Config, s: State, between: seq<Step>, key: Bytes)
    requires Owned(s) && cfg.enabled && QueueOf(s.idle, key) == []
    requires Run(cfg, s, between).Some? && Enabled(Run(cfg, s, between).value, Remove(key))
    ensures var t := Run(cfg, s, between).value;
            && (Next(cfg, t, Remove(key)).closed != t.closed <==> exists i: nat :: KeptSince(cfg, [], between, key, i))
            && Next(cfg, t, Remove(key)).closed - t.closed == Dests(QueueAfter(cfg, [], between, key))
  {
    var t := Run(cfg, s, between).value;
    RunKeepsOwned(cfg, s, between);
    QueueIsOwnWork(cfg, s, between, key);
    NonEmptyExactly(cfg, between, key);
    RemovalClosesExactly(cfg, t, key);
  }

  /** A removal closes what is in the queue at that moment, and nothing if and only if that is nothing. */
  lemma RemovalClosesExactly(cfg: Config, t: State, key: Bytes)
    requires Owned(t) && Enabled(t, Remove(key))
    ensures Next(cfg, t, Remove(key)).closed == t.closed <==> QueueOf(t.idle, key) == []
    ensures Next(cfg, t, Remove(key)).closed - t.closed == Dests(QueueOf(t.idle, key))
  {
    SomeDest(QueueOf(t.idle, key));
    forall d | d in Dests(QueueOf(t.idle, key)) ensures d !in t.closed {
      assert IdleUnder(t, d, key);
    }
  }

  predicate TakesFrom(step: Step, key: Bytes) {
    && (step.Pop? || step.Remove? || step.ReapKey?) && step.key == key
  }

  /** With nothing else taking from the queue in between, that is any release under the key. */
  lemma LateRemovalAfterReleases(cfg: Config, s: State, between: seq<Step>, key: Bytes)
    requires Owned(s) && cfg.enabled && QueueOf(s.idle, key) == []
    requires Run(cfg, s, between).Some? && Enabled(Run(cfg, s, between).value, Remove(key))
    requires forall k :: 0 <= k < |between| ==> !TakesFrom(between[k], key)
    ensures var t := Run(cfg, s, between).value;
            Next(cfg, t, Remove(key)).closed != t.closed <==> exists i: nat :: i < |between| && Releases(between[i], key)
  {
    LateRemovalExactly(cfg, s, between, key);
    if i: nat :| i < |between| && Releases(between[i], key) {
      assert KeptSince(cfg, [], between, key, i);
    }
  }

  /** Whatever a late removal closes was released under that key after the queue was emptied. */
  lemma {:induction false} RemovalOnlyHitsReleases(cfg: Config, s: State, between: seq<Step>, key: Bytes, d: ConnId)
    requires QueueOf(s.idle, key) == []
    requires Run(cfg, s, between).Some? && IdleUnder(Run(cfg, s, between).value, d, key)
    ensures exists i :: 0 <= i < |between| && between[i].ReleaseUnder? && between[i].key == key && between[i].dest == d
  {
    var init, last := between[..|between| - 1], between[|between| - 1];
    var t := Run(cfg, s, init).value;
    QueueAfterStep(cfg, t, last, key, d);
    if IdleUnder(t, d, key) {
      RemovalOnlyHitsReleases(cfg, s, init, key, d);
      var i :| 0 <= i < |init| && init[i].ReleaseUnder? && init[i].key == key && init[i].dest == d;
      assert between[i] == init[i];
    }
  }

  /**
   * The gap is real: a connection released between the halves of another request's acquire is closed
   * by the second half, although it is neither expired nor evicted.
   */
  lemma RemovalCanCloseLive(cfg: Config, key: Bytes)
    requires cfg.enabled && cfg.idleTimeout > 0
    ensures var steps := [Connect(0), Connect(1), ReleaseUnder(key, 0, 0), Pop(key, 0), ReleaseUnder(key, 1, 0)];
            && Run(cfg, INITIAL, steps).Some?
            && var s := Run(cfg, INITIAL, steps).value;
            && QueueOf(s.idle, key) == [Stabled(1, 0)] && Live(cfg, Stabled(1, 0), 0)
            && Enabled(s, Remove(key)) && 1 in Next(cfg, s, Remove(key)).closed
  {
    var l0, s0 := RunOne(cfg, [], INITIAL, Connect(0));
    var l1, s1 := RunOne(cfg, l0, s0, Connect(1));
    var l2, s2 := RunOne(cfg, l1, s1, ReleaseUnder(key, 0, 0));
    assert s2.idle[key] == [Stabled(0, 0)];
    var l3, s3 := RunOne(cfg, l2, s2, Pop(key, 0));
    assert s3.idle[key] == [] && key in s3.removals;
    var l4, s4 := RunOne(cfg, l3, s3, ReleaseUnder(key, 1, 0));
    assert s4.idle[key] == [Stabled(1, 0)];
    assert Stabled(1, 0) in QueueOf(s4.idle, key);
    assert l4 == [Connect(0), Connect(1), ReleaseUnder(key, 0, 0), Pop(key, 0), ReleaseUnder(key, 1, 0)];
  }

  lemma RunOne(cfg: Config, steps: seq<Step>, t: State, step: Step) returns (more: seq<Step>, u: State)
    requires Run(cfg, INITIAL, steps) == Some(t) && Enabled(t, step)
    ensures more == steps + [step] && u == Next(cfg, t, step) && Run(cfg, INITIAL, more) == Some(u)
  {
    assert (steps + [step])[..|steps|] == steps;
    more, u := steps + [step], Next(cfg, t, step);
  }
}
