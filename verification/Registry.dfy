/** Connection history with bounded capacity (crates/dlep-daemon/src/connections.rs:58-181).
    A peer is a number, ordered as socket addresses are; an instant is a number too.
 */
module Registry {
  import opened Types

  type Peer = nat
  type Instant = nat

  datatype PeerState = PeerState(active: nat, establishment: nat)

  datatype History = History(states: map<Peer, PeerState>, inactiveSince: map<Peer, Instant>, next: nat)

  datatype Limits = Limits(pinned: set<Peer>, capacity: nat, retention: nat)

  const NO_HISTORY := History(map[], map[], 0)

  // --- The four operations --------------------------------------------------

  /** Within its retention window, or not being timed at all. */
  predicate Retained(h: History, limits: Limits, now: Instant, p: Peer) {
    p !in h.inactiveSince || (if now < h.inactiveSince[p] then 0 else now - h.inactiveSince[p]) < limits.retention
  }

  predicate Kept(h: History, limits: Limits, now: Instant, p: Peer)
    requires p in h.states
  {
    p in limits.pinned || h.states[p].active > 0 || Retained(h, limits, now, p)
  }

  function Prune(h: History, limits: Limits, now: Instant): History {
    var states := map p | p in h.states && Kept(h, limits, now, p) :: h.states[p];
    History(states, map p | p in h.inactiveSince && p in states :: h.inactiveSince[p], h.next)
  }

  function Unpinned(h: History, limits: Limits): set<Peer> { h.states.Keys - limits.pinned }

  predicate Evictable(h: History, limits: Limits, p: Peer) {
    p in h.inactiveSince && p !in limits.pinned && p in h.states && h.states[p].active == 0
  }

  /** Idle longest, ties broken by address. */
  ghost predicate Oldest(h: History, limits: Limits, p: Peer) {
    && Evictable(h, limits, p)
    && forall q :: Evictable(h, limits, q) ==>
         h.inactiveSince[p] < h.inactiveSince[q] || (h.inactiveSince[p] == h.inactiveSince[q] && p <= q)
  }

  function Without(h: History, p: Peer): History {
    h.(states := h.states - {p}, inactiveSince := h.inactiveSince - {p})
  }

  function Admit(h: History, p: Peer, now: Instant): History {
    if p in h.states then h.(states := h.states[p := h.states[p].(active := h.states[p].active + 1)])
    else h.(states := h.states[p := PeerState(1, 0)], inactiveSince := h.inactiveSince[p := now])
  }

  predicate NeedsRoom(h: History, limits: Limits, p: Peer) {
    p !in h.states && p !in limits.pinned && |Unpinned(h, limits)| >= limits.capacity
  }

  function Establish(h: History, p: Peer): History
    requires p in h.states
  {
    History(h.states[p := h.states[p].(establishment := h.next + 1)], h.inactiveSince - {p}, h.next + 1)
  }

  function Release(h: History, p: Peer, now: Instant): History
    requires p in h.states && h.states[p].active > 0
  {
    var s := h.states[p].(active := h.states[p].active - 1);
    h.(states := h.states[p := s],
       inactiveSince := if s.active == 0 && p !in h.inactiveSince then h.inactiveSince[p := now] else h.inactiveSince)
  }

  // --- Invariant ------------------------------------------------------------

  /** The counts are those of the live trackers; whoever is idle is being timed. */
  ghost predicate Inv(h: History, limits: Limits, live: multiset<Peer>) {
    && (forall p :: p in live ==> p in h.states)
    && (forall p :: p in h.states ==> h.states[p].active == live[p])
    && (forall p :: p in h.inactiveSince ==> p in h.states)
    && (forall p :: p in h.states && h.states[p].active == 0 ==> p in h.inactiveSince)
    && (forall p :: p in h.states ==> h.states[p].establishment <= h.next)
    && |Unpinned(h, limits)| <= limits.capacity
  }

  lemma Smaller(a: set<Peer>, b: set<Peer>)
    requires a <= b
    ensures |a| <= |b|
    decreases b
  {
    if b != {} {
      var x :| x in b;
      Smaller(a - {x}, b - {x});
    }
  }

  /** Pruning removes only idle, unpinned peers whose window is over. */
  lemma PruneKeeps(h: History, limits: Limits, live: multiset<Peer>, now: Instant)
    requires Inv(h, limits, live)
    ensures Inv(Prune(h, limits, now), limits, live)
    ensures forall p :: p in h.states && (p in limits.pinned || h.states[p].active > 0) ==>
              p in Prune(h, limits, now).states && Prune(h, limits, now).states[p] == h.states[p]
  {
    var after := Prune(h, limits, now);
    assert Unpinned(after, limits) <= Unpinned(h, limits);
    Smaller(Unpinned(after, limits), Unpinned(h, limits));
    forall p | p in live ensures p in after.states { assert h.states[p].active == live[p]; }
  }

  lemma AdmitKeeps(h: History, limits: Limits, live: multiset<Peer>, p: Peer, now: Instant)
    requires Inv(h, limits, live) && !NeedsRoom(h, limits, p)
    ensures Inv(Admit(h, p, now), limits, live + multiset{p})
  {
    var after := Admit(h, p, now);
    if p in h.states || p in limits.pinned {
      assert Unpinned(after, limits) == Unpinned(h, limits);
    } else {
      assert Unpinned(after, limits) == Unpinned(h, limits) + {p};
    }
  }

  lemma EvictKeeps(h: History, limits: Limits, live: multiset<Peer>, p: Peer)
    requires Inv(h, limits, live) && Evictable(h, limits, p)
    ensures Inv(Without(h, p), limits, live) && |Unpinned(Without(h, p), limits)| < limits.capacity
  {
    assert Unpinned(Without(h, p), limits) == Unpinned(h, limits) - {p};
    assert p in Unpinned(h, limits);
  }

  lemma EstablishKeeps(h: History, limits: Limits, live: multiset<Peer>, p: Peer)
    requires Inv(h, limits, live) && p in live
    ensures Inv(Establish(h, p), limits, live)
  {
    assert Unpinned(Establish(h, p), limits) == Unpinned(h, limits);
    assert h.states[p].active == live[p];
  }

  lemma ReleaseKeeps(h: History, limits: Limits, live: multiset<Peer>, p: Peer, now: Instant)
    requires Inv(h, limits, live) && p in live
    ensures p in h.states && h.states[p].active > 0
    ensures Inv(Release(h, p, now), limits, live - multiset{p})
  {
    assert h.states[p].active == live[p];
    assert Unpinned(Release(h, p, now), limits) == Unpinned(h, limits);
  }

  /** With nobody left to evict, every unpinned entry is active. */
  lemma FullMeansActive(h: History, limits: Limits, live: multiset<Peer>)
    requires Inv(h, limits, live) && forall q :: !Evictable(h, limits, q)
    ensures forall p :: p in Unpinned(h, limits) ==> h.states[p].active > 0
  {
    forall p | p in Unpinned(h, limits) ensures h.states[p].active > 0 {
      assert !Evictable(h, limits, p);
    }
  }

  /** A tracker's peer is on record; a timed peer is too. */
  lemma OnRecord(h: History, limits: Limits, live: multiset<Peer>)
    requires Inv(h, limits, live)
    ensures forall p :: p in live ==> p in h.states && h.states[p].active > 0
    ensures forall p :: p in h.inactiveSince ==> p in h.states
  {
    forall p | p in live ensures p in h.states && h.states[p].active > 0 { assert h.states[p].active == live[p]; }
  }

  lemma TrackerOnRecord(h: History, limits: Limits, live: multiset<Peer>, p: Peer)
    requires Inv(h, limits, live) && p in live
    ensures p in h.states && h.states[p].active > 0
  {
    OnRecord(h, limits, live);
  }

  lemma OldestIsEvictable(h: History, limits: Limits, p: Peer)
    requires Oldest(h, limits, p)
    ensures Evictable(h, limits, p)
  {
  }

  lemma RoomMade(h: History, limits: Limits, p: Peer)
    requires |Unpinned(h, limits)| < limits.capacity
    ensures !NeedsRoom(h, limits, p)
  {
  }

  lemma NothingYet(limits: Limits)
    ensures Inv(NO_HISTORY, limits, multiset{})
  {
    assert Unpinned(NO_HISTORY, limits) == {};
  }

  // --- The registry ---------------------------------------------------------

  class ConnectionRegistry {
    const limits: Limits
    var states: map<Peer, PeerState>
    var inactiveSince: map<Peer, Instant>
    var nextEstablishment: nat
    /** The latest snapshot subscribers can see. */
    var published: map<Peer, PeerState>
    /** The trackers that exist, one for each registration not yet dropped. */
    ghost var live: multiset<Peer>

    function View(): History
      reads this
    {
      History(states, inactiveSince, nextEstablishment)
    }

    ghost predicate Valid()
      reads this
    {
      Inv(View(), limits, live) && published == states
    }

    constructor (limits: Limits)
      ensures Valid() && View() == NO_HISTORY && this.limits == limits && live == multiset{}
    {
      this.limits := limits;
      states := map[];
      inactiveSince := map[];
      nextEstablishment := 0;
      published := map[];
      live := multiset{};
      new;
      NothingYet(limits);
    }

    /** The body of `retain` on both maps; true if anything went. */
    method PruneLocked(now: Instant) returns (changed: bool)
      modifies this`states, this`inactiveSince
      ensures View() == Prune(old(View()), limits, now)
      ensures !changed ==> states == old(states)
    {
      var before := states;
      var was := History(before, inactiveSince, nextEstablishment);
      states := map p | p in before && Kept(was, limits, now, p) :: before[p];
      inactiveSince := map p | p in inactiveSince && p in states :: inactiveSince[p];
      changed := |states| != |before|;
      if !changed { SameSize(states, before); }
    }

    method PruneNow(now: Instant)
      requires Valid()
      modifies this
      ensures Valid() && live == old(live)
      ensures View() == Prune(old(View()), limits, now)
    {
      hide Inv, Prune;
      PruneKeeps(View(), limits, live, now);
      var changed := PruneLocked(now);
      if changed { published := states; }
    }

    /** The minimum over the idle unpinned peers. */
    method FindOldest() returns (oldest: Option<Peer>)
      requires forall p :: p in inactiveSince ==> p in states
      ensures oldest.Some? ==> Oldest(View(), limits, oldest.value)
      ensures oldest.None? ==> forall q :: !Evictable(View(), limits, q)
    {
      oldest := None;
      var todo := inactiveSince.Keys;
      while todo != {}
        invariant todo <= inactiveSince.Keys
        invariant oldest.None? ==> forall q :: Evictable(View(), limits, q) ==> q in todo
        invariant oldest.Some? ==>
          && Evictable(View(), limits, oldest.value)
          && forall q :: Evictable(View(), limits, q) && q !in todo ==>
               inactiveSince[oldest.value] < inactiveSince[q]
               || (inactiveSince[oldest.value] == inactiveSince[q] && oldest.value <= q)
        decreases |todo|
      {
        var p: Peer :| p in todo;
        todo := todo - {p};
        if p !in limits.pinned && states[p].active == 0 {
          if oldest.None? || inactiveSince[p] < inactiveSince[oldest.value]
             || (inactiveSince[p] == inactiveSince[oldest.value] && p <= oldest.value) {
            oldest := Some(p);
          }
        }
      }
    }

    /** Evict the longest idle peer; false if every unpinned entry is in use. */
    method MakeRoom() returns (ok: bool, ghost evicted: Peer)
      requires Inv(View(), limits, live)
      modifies this`states, this`inactiveSince
      ensures !ok ==> View() == old(View()) && forall q :: !Evictable(View(), limits, q)
      ensures ok ==> Inv(View(), limits, live) && |Unpinned(View(), limits)| < limits.capacity
      ensures ok ==> Oldest(old(View()), limits, evicted) && View() == Without(old(View()), evicted)
    {
      hide Inv;
      OnRecord(View(), limits, live);
      var oldest := FindOldest();
      evicted := 0;
      if oldest.None? { return false, evicted; }
      evicted := oldest.value;
      OldestIsEvictable(View(), limits, oldest.value);
      EvictKeeps(View(), limits, live, oldest.value);
      states := states - {oldest.value};
      inactiveSince := inactiveSince - {oldest.value};
      assert View() == Without(old(View()), oldest.value);
      return true, evicted;
    }

    method Enter(p: Peer, now: Instant)
      requires Inv(View(), limits, live) && !NeedsRoom(View(), limits, p)
      modifies this
      ensures Valid() && live == old(live) + multiset{p}
      ensures View() == Admit(old(View()), p, now)
    {
      hide Inv;
      AdmitKeeps(View(), limits, live, p, now);
      if p !in states {
        inactiveSince := inactiveSince[p := now];
        states := states[p := PeerState(1, 0)];
      } else {
        states := states[p := states[p].(active := states[p].active + 1)];
      }
      assert View() == Admit(old(View()), p, now);
      published := states;
      live := live + multiset{p};
    }

    /** None of the source's lookups can fail; a refusal means every unpinned
        entry is in use. */
    method Register(p: Peer, now: Instant) returns (ok: bool)
      requires Valid()
      modifies this
      ensures Valid()
      ensures live == old(live) + if ok then multiset{p} else multiset{}
      ensures Registers(old(View()), limits, p, now, View(), ok)
    {
      hide Inv, Prune, Evictable, Oldest, Without, Admit;
      PruneKeeps(View(), limits, live, now);
      var _ := PruneLocked(now);
      ghost var pruned := View();
      if p !in states && p !in limits.pinned && |states.Keys - limits.pinned| >= limits.capacity {
        assert NeedsRoom(pruned, limits, p);
        hide NeedsRoom;
        var room, evicted := MakeRoom();
        if !room {
          published := states;
          assert View() == pruned;
          return false;
        }
        assert !NeedsRoom(View(), limits, p) by { RoomMade(View(), limits, p); }
        Enter(p, now);
        assert Oldest(pruned, limits, evicted) && View() == Admit(Without(pruned, evicted), p, now);
      } else {
        Enter(p, now);
      }
      return true;
    }

    /** Called through a live tracker. */
    method Established(p: Peer)
      requires Valid() && p in live
      modifies this
      ensures Valid() && live == old(live)
      ensures p in old(states) && View() == Establish(old(View()), p)
    {
      hide Inv;
      TrackerOnRecord(View(), limits, live, p);
      EstablishKeeps(View(), limits, live, p);
      nextEstablishment := nextEstablishment + 1;
      states := states[p := states[p].(establishment := nextEstablishment)];
      inactiveSince := inactiveSince - {p};
      assert View() == Establish(old(View()), p);
      published := states;
    }

    /** The tracker is dropped; the clock is read once for the idle window and
        once more for the pruning. */
    method Drop(p: Peer, now: Instant, later: Instant)
      requires Valid() && p in live
      modifies this
      ensures Valid() && live == old(live) - multiset{p}
      ensures p in old(states) && old(states)[p].active > 0
      ensures View() == Prune(Release(old(View()), p, now), limits, later)
    {
      hide Inv, Prune;
      ReleaseKeeps(View(), limits, live, p, now);
      states := states[p := states[p].(active := states[p].active - 1)];
      if states[p].active == 0 && p !in inactiveSince {
        inactiveSince := inactiveSince[p := now];
      }
      live := live - multiset{p};
      assert View() == Release(old(View()), p, now);
      PruneKeeps(View(), limits, live, later);
      var _ := PruneLocked(later);
      published := states;
    }
  }

  /** A map filtered to its own size is unchanged. */
  lemma SameSize(a: map<Peer, PeerState>, b: map<Peer, PeerState>)
    requires a.Keys <= b.Keys && |a| == |b| && forall p :: p in a ==> a[p] == b[p]
    ensures a == b
  {
    assert |a.Keys| == |a| && |b.Keys| == |b|;
    if a.Keys != b.Keys {
      var x :| x in b.Keys && x !in a.Keys;
      Smaller(a.Keys, b.Keys - {x});
    }
  }

  /** What a registration may do: admit as is, admit after evicting the oldest
      idle unpinned peer, or refuse because there is none. */
  ghost predicate Registers(h: History, limits: Limits, p: Peer, now: Instant, after: History, ok: bool) {
    var pruned := Prune(h, limits, now);
    if !NeedsRoom(pruned, limits, p) then ok && after == Admit(pruned, p, now)
    else if ok then exists q :: Oldest(pruned, limits, q) && after == Admit(Without(pruned, q), p, now)
    else after == pruned && forall q :: !Evictable(pruned, limits, q)
  }

  // --- Runs -----------------------------------------------------------------

  datatype Op =
    | RegisterOp(peer: Peer, now: Instant)
    | EstablishOp(peer: Peer)
    | DropOp(peer: Peer, now: Instant, later: Instant)
    | PruneOp(now: Instant)

  datatype World = World(history: History, live: multiset<Peer>)

  ghost predicate Steps(w: World, limits: Limits, op: Op, v: World) {
    match op
    case RegisterOp(p, now) =>
      || (Registers(w.history, limits, p, now, v.history, true) && v.live == w.live + multiset{p})
      || (Registers(w.history, limits, p, now, v.history, false) && v.live == w.live)
    case EstablishOp(p) => p in w.live && p in w.history.states && v == w.(history := Establish(w.history, p))
    case DropOp(p, now, later) =>
      && p in w.live && p in w.history.states && w.history.states[p].active > 0
      && v == World(Prune(Release(w.history, p, now), limits, later), w.live - multiset{p})
    case PruneOp(now) => v == w.(history := Prune(w.history, limits, now))
  }

  ghost predicate IsRun(worlds: seq<World>, ops: seq<Op>, limits: Limits) {
    && |worlds| == |ops| + 1 && worlds[0] == World(NO_HISTORY, multiset{})
    && forall i :: 0 <= i < |ops| ==> Steps(worlds[i], limits, ops[i], worlds[i + 1])
  }

  lemma RegisterKeeps(h: History, limits: Limits, live: multiset<Peer>, p: Peer, now: Instant, after: History, ok: bool)
    requires Inv(h, limits, live) && Registers(h, limits, p, now, after, ok)
    ensures Inv(after, limits, if ok then live + multiset{p} else live)
    ensures !ok ==> forall q :: q in Unpinned(after, limits) ==> after.states[q].active > 0
    ensures !ok ==> |Unpinned(after, limits)| == limits.capacity
  {
    var pruned := Prune(h, limits, now);
    PruneKeeps(h, limits, live, now);
    hide Prune, Inv, Admit;
    if !NeedsRoom(pruned, limits, p) {
      AdmitKeeps(pruned, limits, live, p, now);
    } else if ok {
      var q :| Oldest(pruned, limits, q) && after == Admit(Without(pruned, q), p, now);
      EvictKeeps(pruned, limits, live, q);
      AdmitKeeps(Without(pruned, q), limits, live, p, now);
    } else {
      FullMeansActive(pruned, limits, live);
      Capacity(pruned, limits, live);
    }
  }

  lemma Capacity(h: History, limits: Limits, live: multiset<Peer>)
    requires Inv(h, limits, live)
    ensures |Unpinned(h, limits)| <= limits.capacity
  {
  }

  lemma PruneSpares(h: History, limits: Limits, live: multiset<Peer>, now: Instant, p: Peer)
    requires Inv(h, limits, live) && p in h.states && (p in limits.pinned || p in live)
    ensures p in Prune(h, limits, now).states
  {
    OnRecord(h, limits, live);
    PruneKeeps(h, limits, live, now);
  }

  lemma EvictSpares(h: History, limits: Limits, live: multiset<Peer>, q: Peer, p: Peer)
    requires Inv(h, limits, live) && p in h.states && (p in limits.pinned || p in live) && Evictable(h, limits, q)
    ensures p in Without(h, q).states
  {
    OnRecord(h, limits, live);
  }

  /** Active or pinned peers survive every operation. */
  lemma NeverEvicted(w: World, limits: Limits, op: Op, v: World, p: Peer)
    requires Inv(w.history, limits, w.live) && Steps(w, limits, op, v)
    requires p in w.history.states && (p in limits.pinned || (p in w.live && p in v.live))
    ensures p in v.history.states
  {
    hide Inv, Prune;
    match op
    case RegisterOp(q, now) =>
      PruneSpares(w.history, limits, w.live, now, p);
      PruneKeeps(w.history, limits, w.live, now);
      var pruned := Prune(w.history, limits, now);
      if NeedsRoom(pruned, limits, q) && Registers(w.history, limits, q, now, v.history, true) {
        var x :| Oldest(pruned, limits, x) && v.history == Admit(Without(pruned, x), q, now);
        EvictSpares(pruned, limits, w.live, x, p);
      }
    case EstablishOp(q) =>
    case DropOp(q, now, later) =>
      ReleaseKeeps(w.history, limits, w.live, q, now);
      PruneSpares(Release(w.history, q, now), limits, w.live - multiset{q}, later, p);
    case PruneOp(now) => PruneSpares(w.history, limits, w.live, now, p);
  }

  lemma StepKeeps(w: World, limits: Limits, op: Op, v: World)
    requires Inv(w.history, limits, w.live) && Steps(w, limits, op, v)
    ensures Inv(v.history, limits, v.live) && v.history.next >= w.history.next
    ensures op.EstablishOp? ==> v.history.next == w.history.next + 1 && op.peer in v.history.states
                                && v.history.states[op.peer].establishment == v.history.next
  {
    hide Inv, Prune;
    match op
    case RegisterOp(p, now) =>
      if Registers(w.history, limits, p, now, v.history, true) && v.live == w.live + multiset{p} {
        RegisterKeeps(w.history, limits, w.live, p, now, v.history, true);
      } else {
        RegisterKeeps(w.history, limits, w.live, p, now, v.history, false);
      }
      PruneNext(w.history, limits, now);
    case EstablishOp(p) => EstablishKeeps(w.history, limits, w.live, p);
    case DropOp(p, now, later) =>
      ReleaseKeeps(w.history, limits, w.live, p, now);
      PruneKeeps(Release(w.history, p, now), limits, w.live - multiset{p}, later);
      PruneNext(Release(w.history, p, now), limits, later);
    case PruneOp(now) =>
      PruneKeeps(w.history, limits, w.live, now);
      PruneNext(w.history, limits, now);
  }

  lemma PruneNext(h: History, limits: Limits, now: Instant)
    ensures Prune(h, limits, now).next == h.next
  {
  }

  /** Over every run: counts are those of the live trackers, the limit holds,
      and generations only rise. */
  lemma {:induction false} RunKeeps(worlds: seq<World>, ops: seq<Op>, limits: Limits, i: nat)
    requires IsRun(worlds, ops, limits) && i < |worlds|
    ensures Inv(worlds[i].history, limits, worlds[i].live)
  {
    hide Steps, Inv;
    if i == 0 {
      NothingYet(limits);
    } else {
      assert Steps(worlds[i - 1], limits, ops[i - 1], worlds[i]);
      RunKeeps(worlds, ops, limits, i - 1);
      StepKeeps(worlds[i - 1], limits, ops[i - 1], worlds[i]);
    }
  }

  lemma {:induction false} GenerationsRise(worlds: seq<World>, ops: seq<Op>, limits: Limits, i: nat, j: nat)
    requires IsRun(worlds, ops, limits) && i <= j < |worlds|
    ensures worlds[i].history.next <= worlds[j].history.next
  {
    hide Steps, Inv;
    if i < j {
      assert Steps(worlds[j - 1], limits, ops[j - 1], worlds[j]);
      GenerationsRise(worlds, ops, limits, i, j - 1);
      RunKeeps(worlds, ops, limits, j - 1);
      StepKeeps(worlds[j - 1], limits, ops[j - 1], worlds[j]);
    }
  }

  // --- How long an establishment number lasts -------------------------------

  /** The record of a peer goes: it is pruned or evicted, or its own registration
      finds it expired and starts it afresh. */
  ghost predicate Loses(w: World, limits: Limits, op: Op, v: World, p: Peer) {
    p in w.history.states
    && (p !in v.history.states || (op.RegisterOp? && op.peer == p && !Kept(w.history, limits, op.now, p)))
  }

  function Number(w: World, p: Peer): nat {
    if p in w.history.states then w.history.states[p].establishment else 0
  }

  lemma PrunedNumber(h: History, limits: Limits, now: Instant, p: Peer)
    ensures var after := Prune(h, limits, now);
            && (p in after.states <==> p in h.states && Kept(h, limits, now, p))
            && (p in after.states ==> after.states[p] == h.states[p])
  {
  }

  /** One operation: an establishment sets the number above all before it, a lost
      record has none, and every other number stays. */
  lemma NumberStep(w: World, limits: Limits, op: Op, v: World, p: Peer)
    requires Inv(w.history, limits, w.live) && Steps(w, limits, op, v)
    ensures Number(v, p) == if op == EstablishOp(p) then w.history.next + 1
                            else if Loses(w, limits, op, v, p) then 0 else Number(w, p)
    ensures op == EstablishOp(p) ==> p in w.history.states && p in v.history.states
  {
    hide Inv, Prune, Kept;
    match op
    case RegisterOp(q, now) =>
      PrunedNumber(w.history, limits, now, p);
      PrunedNumber(w.history, limits, now, q);
    case EstablishOp(q) =>
    case DropOp(q, now, later) => PrunedNumber(Release(w.history, q, now), limits, later, p);
    case PruneOp(now) => PrunedNumber(w.history, limits, now, p);
  }

  /** From `n` up to `k` nothing loses the record of the peer. */
  ghost predicate Held(worlds: seq<World>, ops: seq<Op>, limits: Limits, p: Peer, n: nat, k: nat)
    requires k < |worlds| && |worlds| == |ops| + 1
  {
    forall m :: n <= m < k ==> !Loses(worlds[m], limits, ops[m], worlds[m + 1], p)
  }

  /** The peer was established and its record has lasted since. */
  ghost predicate Current(worlds: seq<World>, ops: seq<Op>, limits: Limits, p: Peer, n: nat, k: nat)
    requires k < |worlds| && |worlds| == |ops| + 1
  {
    n < k && ops[n] == EstablishOp(p) && Held(worlds, ops, limits, p, n + 1, k)
  }

  /** While the record lasts, the number stays above all given before. */
  lemma {:induction false} NumberLasts(worlds: seq<World>, ops: seq<Op>, limits: Limits, p: Peer, n: nat, k: nat)
    requires IsRun(worlds, ops, limits) && k < |worlds| && Current(worlds, ops, limits, p, n, k)
    ensures p in worlds[k].history.states && Number(worlds[k], p) > worlds[n].history.next
  {
    hide Steps, Inv, Loses;
    assert Steps(worlds[k - 1], limits, ops[k - 1], worlds[k]);
    RunKeeps(worlds, ops, limits, k - 1);
    NumberStep(worlds[k - 1], limits, ops[k - 1], worlds[k], p);
    if n < k - 1 {
      assert Current(worlds, ops, limits, p, n, k - 1);
      NumberLasts(worlds, ops, limits, p, n, k - 1);
      GenerationsRise(worlds, ops, limits, n, k - 1);
      assert !Loses(worlds[k - 1], limits, ops[k - 1], worlds[k], p);
      HeldStays(worlds[k - 1], limits, ops[k - 1], worlds[k], p);
    }
  }

  lemma HeldStays(w: World, limits: Limits, op: Op, v: World, p: Peer)
    requires p in w.history.states && !Loses(w, limits, op, v, p)
    ensures p in v.history.states
  {
  }

  /** A number stands for an establishment whose record has lasted, and no number
      for none: in every state of every run. */
  lemma {:induction false} NumberMeans(worlds: seq<World>, ops: seq<Op>, limits: Limits, p: Peer, k: nat)
    requires IsRun(worlds, ops, limits) && k < |worlds|
    ensures Number(worlds[k], p) > 0 <==> exists n: nat :: Current(worlds, ops, limits, p, n, k)
  {
    hide Steps, Inv, Loses;
    if exists n: nat :: Current(worlds, ops, limits, p, n, k) {
      var n: nat :| Current(worlds, ops, limits, p, n, k);
      NumberLasts(worlds, ops, limits, p, n, k);
    }
    if k > 0 && Number(worlds[k], p) > 0 {
      assert Steps(worlds[k - 1], limits, ops[k - 1], worlds[k]);
      RunKeeps(worlds, ops, limits, k - 1);
      NumberStep(worlds[k - 1], limits, ops[k - 1], worlds[k], p);
      if ops[k - 1] == EstablishOp(p) {
        assert Current(worlds, ops, limits, p, k - 1, k);
      } else {
        NumberMeans(worlds, ops, limits, p, k - 1);
        var n: nat :| Current(worlds, ops, limits, p, n, k - 1);
        assert Current(worlds, ops, limits, p, n, k);
      }
    }
  }

  /** An establishment between two reads: the later read shows a number that no
      peer had at the earlier one, or none at all. */
  lemma EstablishmentIsNews(worlds: seq<World>, ops: seq<Op>, limits: Limits, i: nat, j: nat, k: nat, p: Peer, q: Peer)
    requires IsRun(worlds, ops, limits) && i <= j < k < |worlds| && ops[j] == EstablishOp(p)
    ensures if exists n: nat :: Current(worlds, ops, limits, p, n, k)
            then p in worlds[k].history.states && Number(worlds[k], p) > Number(worlds[i], q)
            else Number(worlds[k], p) == 0
  {
    hide Steps, Inv, Loses, Current;
    NumberMeans(worlds, ops, limits, p, k);
    if exists n: nat :: Current(worlds, ops, limits, p, n, k) {
      var n: nat :| Current(worlds, ops, limits, p, n, k);
      var last := if n < j then j else n;
      assert Current(worlds, ops, limits, p, last, k) by { LaterCurrent(worlds, ops, limits, p, n, j, k); }
      NumberLasts(worlds, ops, limits, p, last, k);
      GenerationsRise(worlds, ops, limits, i, last) by { CurrentBefore(worlds, ops, limits, p, last, k); }
      NumberBound(worlds, ops, limits, i, q);
    }
  }

  lemma CurrentBefore(worlds: seq<World>, ops: seq<Op>, limits: Limits, p: Peer, n: nat, k: nat)
    requires k < |worlds| && |worlds| == |ops| + 1 && Current(worlds, ops, limits, p, n, k)
    ensures n < k && ops[n] == EstablishOp(p)
  {
  }

  lemma LaterCurrent(worlds: seq<World>, ops: seq<Op>, limits: Limits, p: Peer, n: nat, j: nat, k: nat)
    requires j < k < |worlds| && |worlds| == |ops| + 1 && ops[j] == EstablishOp(p)
    requires Current(worlds, ops, limits, p, n, k)
    ensures Current(worlds, ops, limits, p, if n < j then j else n, k)
  {
    hide Loses;
  }

  lemma NumberBound(worlds: seq<World>, ops: seq<Op>, limits: Limits, i: nat, q: Peer)
    requires IsRun(worlds, ops, limits) && i < |worlds|
    ensures Number(worlds[i], q) <= worlds[i].history.next
  {
    RunKeeps(worlds, ops, limits, i);
  }
}
