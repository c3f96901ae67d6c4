/** The router's reconnect queue with exponential backoff, and its
    reconciliation with registry snapshots (crates/dlep-router/src/lib.rs:298-438).
 */
module Reconnect {
  import opened Types
  import opened Registry

  const SECOND: nat := 1_000_000_000

  function Min(a: nat, b: nat): nat { if a < b then a else b }

  /** One second doubled per attempt, the shift and the result both capped. */
  function Backoff(attempts: u32): nat {
    Min(SECOND * Pow2(Min(attempts, 16)), 30 * SECOND)
  }

  lemma {:induction false} Pow2Grows(m: nat, n: nat)
    requires m <= n
    ensures Pow2(m) <= Pow2(n)
  {
    if m < n { Pow2Grows(m, n - 1); }
  }

  /** The cap on the shift never shows: the delay is min(2^attempts, 30) seconds. */
  lemma BackoffIs(attempts: u32)
    ensures Backoff(attempts) == Min(Pow2(attempts), 30) * SECOND
  {
    assert Pow2(5) == 32 by { assert Pow2(3) == 8; }
    if attempts >= 5 {
      Pow2Grows(5, attempts);
      Pow2Grows(5, Min(attempts, 16));
    }
  }

  datatype QueueEntry = QueueEntry(attempts: u32, due: Option<Instant>)
  type Queue = map<Peer, QueueEntry>

  function Schedule(q: Queue, p: Peer, now: Instant): Queue {
    if p !in q then q[p := QueueEntry(0, Some(now + Backoff(0)))]
    else if q[p].due.None? then q[p := q[p].(due := Some(now + Backoff(q[p].attempts)))]
    else q
  }

  function Suspend(q: Queue, p: Peer): Queue {
    if p in q then q[p := q[p].(due := None)] else q
  }

  function Forget(q: Queue, p: Peer): Queue { q - {p} }

  predicate IsDue(q: Queue, now: Instant, p: Peer) { p in q && q[p].due.Some? && q[p].due.value <= now }

  /** Waiting longer, ties broken by address. */
  predicate Before(q: Queue, a: Peer, b: Peer)
    requires a in q && q[a].due.Some? && b in q && q[b].due.Some?
  {
    q[a].due.value < q[b].due.value || (q[a].due.value == q[b].due.value && a <= b)
  }

  /** The handed-out peers: the longest waiting, in order, as many as allowed. */
  ghost predicate LongestWaiting(q: Queue, now: Instant, limit: nat, out: seq<Peer>) {
    && (forall i :: 0 <= i < |out| ==> IsDue(q, now, out[i]))
    && (forall i, j :: 0 <= i < j < |out| ==> out[i] != out[j] && Before(q, out[i], out[j]))
    && (forall p, i :: IsDue(q, now, p) && p !in out && 0 <= i < |out| ==> Before(q, out[i], p))
    && |out| <= limit
    && (|out| < limit ==> forall p :: IsDue(q, now, p) ==> p in out)
  }

  function Handed(e: QueueEntry, now: Instant): QueueEntry {
    var attempts: u32 := if e.attempts == 0xFFFF_FFFF then e.attempts else e.attempts + 1;
    QueueEntry(attempts, Some(now + Backoff(attempts)))
  }

  function TakeAll(q: Queue, now: Instant, out: seq<Peer>): Queue {
    map p | p in q :: if p in out then Handed(q[p], now) else q[p]
  }

  ghost predicate Sorted(q: Queue, now: Instant, s: seq<Peer>) {
    && (forall i :: 0 <= i < |s| ==> IsDue(q, now, s[i]))
    && (forall i, j :: 0 <= i < j < |s| ==> s[i] != s[j] && Before(q, s[i], s[j]))
  }

  /** Put a due peer in its place. */
  method Insert(q: Queue, now: Instant, s: seq<Peer>, p: Peer) returns (r: seq<Peer>)
    requires Sorted(q, now, s) && IsDue(q, now, p) && p !in s
    ensures Sorted(q, now, r) && forall x :: x in r <==> x in s || x == p
  {
    var k := 0;
    while k < |s| && Before(q, s[k], p)
      invariant 0 <= k <= |s|
      invariant forall i :: 0 <= i < k ==> Before(q, s[i], p)
    {
      k := k + 1;
    }
    r := s[..k] + [p] + s[k..];
    assert forall x :: x in s <==> x in s[..k] || x in s[k..];
  }

  class ReconnectQueue {
    var entries: Queue

    constructor ()
      ensures entries == map[]
    {
      entries := map[];
    }

    method ScheduleAt(p: Peer, now: Instant)
      modifies this
      ensures entries == Schedule(old(entries), p, now)
    {
      if p in entries {
        if entries[p].due.None? {
          entries := entries[p := entries[p].(due := Some(now + Backoff(entries[p].attempts)))];
        }
      } else {
        entries := entries[p := QueueEntry(0, Some(now + Backoff(0)))];
      }
    }

    method SuspendPeer(p: Peer)
      modifies this
      ensures entries == Suspend(old(entries), p)
    {
      if p in entries {
        entries := entries[p := entries[p].(due := None)];
      }
    }

    method ForgetPeer(p: Peer)
      modifies this
      ensures entries == Forget(old(entries), p)
    {
      entries := entries - {p};
    }

    /** All due peers, longest waiting first. */
    method CollectDue(now: Instant) returns (due: seq<Peer>)
      ensures Sorted(entries, now, due) && forall p :: IsDue(entries, now, p) ==> p in due
    {
      due := [];
      var todo := entries.Keys;
      while todo != {}
        invariant todo <= entries.Keys
        invariant Sorted(entries, now, due)
        invariant forall p :: p in due ==> p !in todo
        invariant forall p :: IsDue(entries, now, p) ==> p in due || p in todo
        decreases |todo|
      {
        var p: Peer :| p in todo;
        todo := todo - {p};
        if IsDue(entries, now, p) {
          due := Insert(entries, now, due, p);
        }
      }
    }

    method TakeDueLimited(now: Instant, limit: nat) returns (out: seq<Peer>)
      modifies this
      ensures LongestWaiting(old(entries), now, limit, out)
      ensures entries == TakeAll(old(entries), now, out)
    {
      var due := CollectDue(now);
      out := if |due| <= limit then due else due[..limit];
      TruncatedIsLongestWaiting(entries, now, limit, due, out);
      ghost var before := entries;
      for i := 0 to |out|
        invariant entries.Keys == before.Keys
        invariant forall p :: p in before ==>
          entries[p] == if p in out[..i] then Handed(before[p], now) else before[p]
        invariant LongestWaiting(before, now, limit, out)
      {
        var p := out[i];
        assert p !in out[..i];
        assert out[..i + 1] == out[..i] + [p];
        entries := entries[p := Handed(entries[p], now)];
      }
      assert out[..|out|] == out;
    }
  }

  lemma TruncatedIsLongestWaiting(q: Queue, now: Instant, limit: nat, due: seq<Peer>, out: seq<Peer>)
    requires Sorted(q, now, due) && forall p :: IsDue(q, now, p) ==> p in due
    requires out == if |due| <= limit then due else due[..limit]
    ensures LongestWaiting(q, now, limit, out)
  {
    forall p, i | IsDue(q, now, p) && p !in out && 0 <= i < |out| ensures Before(q, out[i], p) {
      var j :| 0 <= j < |due| && due[j] == p;
      assert j >= |out|;
      assert due[i] == out[i];
    }
  }

  // --- Spacing of hand-outs -------------------------------------------------

  datatype Op =
    | ScheduleOp(peer: Peer, now: Instant)
    | SuspendOp(peer: Peer)
    | ForgetOp(peer: Peer)
    | TakeOp(now: Instant, limit: nat, out: seq<Peer>)

  /** `handed` remembers when a queued peer was last handed out. */
  datatype Watched = Watched(queue: Queue, clock: Instant, handed: map<Peer, Instant>)

  ghost predicate Steps(w: Watched, op: Op, v: Watched) {
    match op
    case ScheduleOp(p, now) =>
      now >= w.clock && v == Watched(Schedule(w.queue, p, now), now, w.handed)
    case SuspendOp(p) => v == w.(queue := Suspend(w.queue, p))
    case ForgetOp(p) => v == w.(queue := Forget(w.queue, p), handed := w.handed - {p})
    case TakeOp(now, limit, out) =>
      && now >= w.clock && LongestWaiting(w.queue, now, limit, out)
      && v == Watched(TakeAll(w.queue, now, out), now,
                      map p | p in w.queue && (p in out || p in w.handed) :: if p in out then now else w.handed[p])
  }

  ghost predicate Spaced(w: Watched) {
    forall p :: p in w.handed ==>
      && p in w.queue && w.handed[p] <= w.clock
      && (w.queue[p].due.Some? ==> w.queue[p].due.value >= w.handed[p] + Backoff(w.queue[p].attempts))
  }

  lemma StepKeepsSpacing(w: Watched, op: Op, v: Watched)
    requires Spaced(w) && Steps(w, op, v)
    ensures Spaced(v)
    ensures op.TakeOp? ==> forall p :: p in op.out && p in w.handed ==>
              p in w.queue && op.now - w.handed[p] >= Min(Pow2(w.queue[p].attempts), 30) * SECOND
  {
    hide Backoff;
    if op.TakeOp? {
      forall p | p in op.out && p in w.handed
        ensures p in w.queue && op.now - w.handed[p] >= Min(Pow2(w.queue[p].attempts), 30) * SECOND {
        BackoffIs(w.queue[p].attempts);
        var i :| 0 <= i < |op.out| && op.out[i] == p;
        assert IsDue(w.queue, op.now, op.out[i]);
      }
    }
  }

  ghost predicate IsRun(states: seq<Watched>, ops: seq<Op>) {
    && |states| == |ops| + 1 && states[0] == Watched(map[], 0, map[])
    && forall i :: 0 <= i < |ops| ==> Steps(states[i], ops[i], states[i + 1])
  }

  lemma {:induction false} RunSpaced(states: seq<Watched>, ops: seq<Op>, i: nat)
    requires IsRun(states, ops) && i < |states|
    ensures Spaced(states[i])
  {
    hide Steps;
    if i > 0 {
      RunSpaced(states, ops, i - 1);
      assert Steps(states[i - 1], ops[i - 1], states[i]);
      StepKeepsSpacing(states[i - 1], ops[i - 1], states[i]);
    }
  }

  /** Over every run on a clock that does not go back: a peer that stayed queued
      is handed out again no sooner than min(2^attempts, 30) seconds later. */
  lemma HandOutsAreSpaced(states: seq<Watched>, ops: seq<Op>, i: nat, p: Peer)
    requires IsRun(states, ops) && i < |ops| && ops[i].TakeOp? && p in ops[i].out && p in states[i].handed
    ensures p in states[i].queue
    ensures ops[i].now - states[i].handed[p] >= Min(Pow2(states[i].queue[p].attempts), 30) * SECOND
  {
    RunSpaced(states, ops, i);
    StepKeepsSpacing(states[i], ops[i], states[i + 1]);
  }

  // --- Reconciliation -------------------------------------------------------

  datatype Book = Book(seen: map<Peer, nat>, connected: set<Peer>, queue: Queue)

  function Seen(b: Book, p: Peer): nat { if p in b.seen then b.seen[p] else 0 }

  /** The effect of one peer's snapshot entry. */
  function Reconcile1(b: Book, p: Peer, s: PeerState, now: Instant): Book {
    var queue := if Seen(b, p) != s.establishment then Forget(b.queue, p) else b.queue;
    var seen := b.seen[p := s.establishment];
    if s.active > 0 then Book(seen, b.connected + {p}, Suspend(queue, p))
    else Book(seen, b.connected - {p}, Schedule(queue, p, now))
  }

  /** Two books agree about one peer. */
  ghost predicate SameFor(a: Book, b: Book, p: Peer) {
    && (p in a.seen <==> p in b.seen) && (p in a.seen ==> a.seen[p] == b.seen[p])
    && (p in a.connected <==> p in b.connected)
    && (p in a.queue <==> p in b.queue) && (p in a.queue ==> a.queue[p] == b.queue[p])
  }

  /** What a snapshot entry means for its peer: it counts as connected exactly
      while it has a session, and then no retry is ever due; idle, it has one. */
  ghost predicate Follows(b: Book, p: Peer, s: PeerState) {
    && (p in b.connected <==> s.active > 0)
    && (s.active > 0 ==> forall now :: !IsDue(b.queue, now, p))
    && (s.active == 0 ==> exists now :: IsDue(b.queue, now, p))
    && Seen(b, p) == s.establishment
  }

  lemma EntryFollowed(b: Book, p: Peer, s: PeerState, now: Instant)
    ensures Follows(Reconcile1(b, p, s, now), p, s)
  {
    hide Backoff;
    var q := Reconcile1(b, p, s, now).queue;
    if s.active == 0 { assert IsDue(q, q[p].due.value, p); }
  }

  lemma FollowsAlike(a: Book, b: Book, p: Peer, s: PeerState)
    requires SameFor(a, b, p) && Follows(b, p, s)
    ensures Follows(a, p, s)
  {
    forall now | IsDue(a.queue, now, p) ensures IsDue(b.queue, now, p) {}
    if s.active == 0 {
      var now :| IsDue(b.queue, now, p);
      assert IsDue(a.queue, now, p);
    }
  }

  lemma Elsewhere(b: Book, p: Peer, s: PeerState, now: Instant, x: Peer)
    requires x != p
    ensures SameFor(Reconcile1(b, p, s, now), b, x)
  {
    hide Backoff;
  }

  lemma Depends(a: Book, b: Book, p: Peer, s: PeerState, now: Instant)
    requires SameFor(a, b, p)
    ensures SameFor(Reconcile1(a, p, s, now), Reconcile1(b, p, s, now), p)
  {
    hide Backoff;
  }

  lemma SameTrans(a: Book, b: Book, c: Book, p: Peer)
    requires SameFor(a, b, p) && SameFor(b, c, p)
    ensures SameFor(a, c, p)
  {
  }

  /** The whole snapshot, one entry after the other; the order does not matter. */
  method Reconcile(states: map<Peer, PeerState>, before: Book, now: Instant) returns (b: Book)
    ensures forall p :: p in states ==> SameFor(b, Reconcile1(before, p, states[p], now), p)
    ensures forall p :: p !in states ==> SameFor(b, before, p)
    ensures forall p :: p in states ==> Follows(b, p, states[p])
  {
    b := before;
    var todo := states.Keys;
    assert forall p :: SameFor(b, before, p);
    hide SameFor, Reconcile1;
    while todo != {}
      invariant todo <= states.Keys
      invariant forall p :: p in states && p !in todo ==> SameFor(b, Reconcile1(before, p, states[p], now), p)
      invariant forall p :: p !in states || p in todo ==> SameFor(b, before, p)
      decreases |todo|
    {
      var p: Peer :| p in todo;
      var next := Reconcile1(b, p, states[p], now);
      Depends(b, before, p, states[p], now);
      forall x | x != p && (x !in states || x in todo) ensures SameFor(next, before, x) {
        Elsewhere(b, p, states[p], now, x);
        SameTrans(next, b, before, x);
      }
      forall x | x in states && x !in todo ensures SameFor(next, Reconcile1(before, x, states[x], now), x) {
        Elsewhere(b, p, states[p], now, x);
        SameTrans(next, b, Reconcile1(before, x, states[x], now), x);
      }
      todo := todo - {p};
      b := next;
    }
    hide Follows;
    forall p | p in states ensures Follows(b, p, states[p]) {
      EntryFollowed(before, p, states[p], now);
      FollowsAlike(b, Reconcile1(before, p, states[p], now), p, states[p]);
    }
  }

  /** A snapshot with a generation not seen before starts a fresh backoff. */
  lemma NewGenerationResets(b: Book, p: Peer, s: PeerState, now: Instant)
    requires Seen(b, p) != s.establishment
    ensures var after := Reconcile1(b, p, s, now);
            if s.active > 0 then p !in after.queue
            else p in after.queue && after.queue[p] == QueueEntry(0, Some(now + SECOND))
  {
    BackoffIs(0);
  }

  /** Without one, the attempts made so far are kept. */
  lemma OldGenerationKeepsAttempts(b: Book, p: Peer, s: PeerState, now: Instant)
    requires Seen(b, p) == s.establishment && p in b.queue
    ensures var after := Reconcile1(b, p, s, now);
            p in after.queue && after.queue[p].attempts == b.queue[p].attempts
  {
  }

  /** Reset: an active peer leaves the queue, an idle one waits the first delay. */
  predicate StartsAfresh(b: Book, p: Peer, active: bool, now: Instant) {
    if active then p !in b.queue else p in b.queue && b.queue[p] == QueueEntry(0, Some(now + SECOND))
  }

  /** Snapshots may be coalesced. However many operations lie between two reads of
      a run, a peer established between them starts afresh if its record has
      lasted since an establishment, or if the earlier read showed one. Otherwise
      the reader cannot tell, and keeps the attempts. */
  lemma CoalescedEstablishmentResets(worlds: seq<World>, ops: seq<Registry.Op>, limits: Limits, i: nat, j: nat,
                                     k: nat, b: Book, p: Peer, now: Instant)
    requires Registry.IsRun(worlds, ops, limits) && i <= j < k < |worlds| && ops[j] == Registry.EstablishOp(p)
    requires Seen(b, p) == Number(worlds[i], p) && p in worlds[k].history.states
    ensures var s := worlds[k].history.states[p];
            var after := Reconcile1(b, p, s, now);
            if Seen(b, p) > 0 || exists n: nat :: Current(worlds, ops, limits, p, n, k)
            then StartsAfresh(after, p, s.active > 0, now)
            else p in b.queue ==> p in after.queue && after.queue[p].attempts == b.queue[p].attempts
  {
    var s := worlds[k].history.states[p];
    hide Reconcile1, StartsAfresh, Registry.Steps, Inv, Current;
    EstablishmentIsNews(worlds, ops, limits, i, j, k, p, p);
    if Seen(b, p) > 0 || exists n: nat :: Current(worlds, ops, limits, p, n, k) {
      assert Seen(b, p) != s.establishment;
      NewGenerationResets(b, p, s, now);
    } else if p in b.queue {
      OldGenerationKeepsAttempts(b, p, s, now);
    }
  }

  lemma RegistersAlone(w: World, limits: Limits, p: Peer, now: Instant, v: World)
    requires Prune(w.history, limits, now).states == map[] && limits.capacity > 0
    requires v == World(Admit(Prune(w.history, limits, now), p, now), w.live + multiset{p})
    ensures Registry.Steps(w, limits, Registry.RegisterOp(p, now), v)
  {
    hide Admit;
    assert Unpinned(Prune(w.history, limits, now), limits) == {};
    assert Registry.Registers(w.history, limits, p, now, v.history, true);
  }

  const ONE_SLOT := Limits({}, 1, 1)

  /** Peer 7 alone on record. */
  function Alone(active: nat, number: nat, since: map<Peer, Instant>, next: nat, live: multiset<Peer>): World {
    World(History(map[7 := PeerState(active, number)], since, next), live)
  }

  lemma UnseenStart()
    ensures Registry.Steps(World(NO_HISTORY, multiset{}), ONE_SLOT, Registry.RegisterOp(7, 0),
                           Alone(1, 0, map[7 := 0], 0, multiset{7}))
    ensures Registry.Steps(Alone(1, 0, map[7 := 0], 0, multiset{7}), ONE_SLOT, Registry.EstablishOp(7),
                           Alone(1, 1, map[], 1, multiset{7}))
  {
    var w, v := Alone(1, 0, map[7 := 0], 0, multiset{7}), Alone(1, 1, map[], 1, multiset{7});
    assert Prune(NO_HISTORY, ONE_SLOT, 0) == NO_HISTORY;
    assert Establish(w.history, 7) == v.history;
    RegistersAlone(World(NO_HISTORY, multiset{}), ONE_SLOT, 7, 0, w);
    hide Prune, Registry.Registers;
  }

  lemma UnseenEnd()
    ensures Registry.Steps(Alone(1, 1, map[], 1, multiset{7}), ONE_SLOT, Registry.DropOp(7, 0, 0),
                           Alone(0, 1, map[7 := 0], 1, multiset{}))
    ensures Registry.Steps(Alone(0, 1, map[7 := 0], 1, multiset{}), ONE_SLOT, Registry.RegisterOp(7, 1),
                           Alone(1, 0, map[7 := 1], 1, multiset{7}))
  {
    var w, v := Alone(1, 1, map[], 1, multiset{7}), Alone(0, 1, map[7 := 0], 1, multiset{});
    assert Release(w.history, 7, 0) == v.history;
    assert Prune(v.history, ONE_SLOT, 0) == v.history;
    assert Prune(v.history, ONE_SLOT, 1) == History(map[], map[], 1);
    assert w.live - multiset{7} == multiset{};
    hide Prune, Registry.Registers;
    RegistersAlone(v, ONE_SLOT, 7, 1, Alone(1, 0, map[7 := 1], 1, multiset{7}));
  }

  /** Such a run: peer 7 is on record at every read but the first, yet its
      registration finds the record expired, and the establishment goes unseen. */
  lemma EstablishmentUnseen()
    ensures exists worlds: seq<World>, ops: seq<Registry.Op> ::
              && Registry.IsRun(worlds, ops, ONE_SLOT) && |ops| == 4 && ops[1] == Registry.EstablishOp(7)
              && (forall m :: 1 <= m <= 4 ==> 7 in worlds[m].history.states)
              && Number(worlds[4], 7) == Number(worlds[0], 7)
  {
    var ops := [Registry.RegisterOp(7, 0), Registry.EstablishOp(7), Registry.DropOp(7, 0, 0),
                Registry.RegisterOp(7, 1)];
    var worlds := [World(NO_HISTORY, multiset{}), Alone(1, 0, map[7 := 0], 0, multiset{7}),
                   Alone(1, 1, map[], 1, multiset{7}), Alone(0, 1, map[7 := 0], 1, multiset{}),
                   Alone(1, 0, map[7 := 1], 1, multiset{7})];
    UnseenStart();
    UnseenEnd();
    hide Registry.Steps;
    assert Registry.IsRun(worlds, ops, ONE_SLOT);
    assert Number(worlds[4], 7) == Number(worlds[0], 7);
  }

  /** Expired peers are dropped from the books; pinned ones keep their retries. */
  method PruneBook(states: map<Peer, PeerState>, pinned: set<Peer>, before: Book) returns (b: Book)
    ensures forall p :: p in states ==> SameFor(b, before, p)
    ensures forall p :: p !in states ==> p !in b.seen && p !in b.connected
    ensures forall p :: p in b.queue <==> p in before.queue && (p in states || p in pinned)
    ensures forall p :: p in b.queue ==> b.queue[p] == before.queue[p]
  {
    b := Book(map p | p in before.seen && p in states :: before.seen[p],
              set p | p in before.connected && p in states,
              map p | p in before.queue && (p in states || p in pinned) :: before.queue[p]);
  }
}
