/** Updates the modem holds back, against the same updates sent one by one to a
    router that keeps what its ownership rule lets it
    (crates/dlep-fsm/src/session_router.rs:353-384, 685-723). They are held back
    while a Destination Up is pending and then sent as one update, or while the
    router has withdrawn its interest and then sent in the answer to its announce
    (crates/dlep-fsm/src/session_modem.rs:334-416, 514-547).
 */
module Coalescing {
  import opened Types
  import opened Addresses
  import opened Messages
  import opened Transactions
  import opened Conformance
  import opened Session
  import opened RouterSpec
  import opened ModemSpec
  import RouterInvariant

  // --- One family -----------------------------------------------------------

  ghost predicate Throughout<T>(states: seq<seq<T>>, x: T) {
    forall i :: 0 <= i < |states| ==> x in states[i]
  }

  /** What is held after following `states`: the last one's members, of which
      those never absent are held as at first and the others only if free. */
  ghost predicate Follows<T(!new)>(states: seq<seq<T>>, first: seq<T>, taken: set<T>, held: seq<T>)
    requires |states| > 0
  {
    forall x :: x in held <==>
      x in states[|states| - 1] && (if Throughout(states, x) then x in first else x !in taken)
  }

  /** What a router makes of the difference between two states. */
  function Patch<T(==)>(sent: seq<T>, to: seq<T>, taken: set<T>, held: seq<T>): seq<T> {
    Apply(held, RetainFree(Minus(to, sent), Minus(sent, to), taken), Minus(sent, to))
  }

  lemma FollowsFirst<T(!new)>(start: seq<T>, first: seq<T>, taken: set<T>)
    requires Sub(first, start)
    ensures Follows([start], first, taken, first)
  {
    forall x ensures Throughout([start], x) <==> x in start {
      if x in start { assert Throughout([start], x); } else { assert x !in [start][0]; }
    }
  }

  lemma ThroughoutMore<T>(states: seq<seq<T>>, to: seq<T>, x: T)
    ensures Throughout(states + [to], x) <==> Throughout(states, x) && x in to
  {
    var more := states + [to];
    if Throughout(more, x) {
      assert more[|states|] == to;
      forall i | 0 <= i < |states| ensures x in states[i] { assert more[i] == states[i]; }
    }
  }

  lemma FollowsNext<T(!new)>(states: seq<seq<T>>, first: seq<T>, taken: set<T>, held: seq<T>, sent: seq<T>, to: seq<T>)
    requires |states| > 0 && Follows(states, first, taken, held) && SameMembers(sent, states[|states| - 1])
    ensures Follows(states + [to], first, taken, Patch(sent, to, taken, held))
  {
    var add, remove := Minus(to, sent), Minus(sent, to);
    MinusMembers(to, sent);
    MinusMembers(sent, to);
    RetainFreeMembers(add, remove, taken);
    ApplyMembers(held, RetainFree(add, remove, taken), remove);
    var after := Patch(sent, to, taken, held);
    assert after == Apply(held, RetainFree(add, remove, taken), remove);
    hide Throughout, Minus, RetainFree, Apply, Patch;
    forall x ensures x in after <==> x in to && (if Throughout(states + [to], x) then x in first else x !in taken) {
      ThroughoutMore(states, to, x);
      LastIsIn(states, x);
    }
  }

  lemma LastIsIn<T>(states: seq<seq<T>>, x: T)
    requires |states| > 0
    ensures Throughout(states, x) ==> x in states[|states| - 1]
  {
  }

  lemma FollowsSame<T(!new)>(states: seq<seq<T>>, first: seq<T>, taken: set<T>, held: seq<T>, to: seq<T>)
    requires |states| > 0 && Follows(states, first, taken, held) && SameMembers(to, states[|states| - 1])
    ensures Follows(states + [to], first, taken, held)
  {
    hide Throughout;
    forall x ensures x in held <==> x in to && (if Throughout(states + [to], x) then x in first else x !in taken) {
      ThroughoutMore(states, to, x);
      LastIsIn(states, x);
    }
  }

  /** Every address that stays from first to last but is absent in between is held
      exactly if it is free. */
  ghost predicate Undisturbed<T(!new)>(states: seq<seq<T>>, first: seq<T>, taken: set<T>)
    requires |states| > 0
  {
    forall x :: x in states[0] && x in states[|states| - 1] && !Throughout(states, x) ==> (x in first <==> x !in taken)
  }

  lemma OnceOrEach<T(!new)>(states: seq<seq<T>>, first: seq<T>, taken: set<T>, each: seq<T>, once: seq<T>)
    requires |states| > 0 && Follows(states, first, taken, each)
    requires Follows([states[0]] + [states[|states| - 1]], first, taken, once)
    ensures SameMembers(each, once) <==> Undisturbed(states, first, taken)
  {
    var ends := [states[0]] + [states[|states| - 1]];
    hide Throughout;
    forall x ensures Throughout(ends, x) <==> x in states[0] && x in states[|states| - 1] {
      ThroughoutMore([states[0]], states[|states| - 1], x);
      ThroughoutMore([], states[0], x);
      assert [] + [states[0]] == [states[0]];
      NothingThroughout(x);
    }
    forall x ensures Throughout(states, x) ==> x in states[0] && x in states[|states| - 1] { EndsIn(states, x); }
  }

  lemma NothingThroughout<T>(x: T)
    ensures Throughout([], x)
  {
  }

  lemma EndsIn<T>(states: seq<seq<T>>, x: T)
    requires |states| > 0
    ensures Throughout(states, x) ==> x in states[0] && x in states[|states| - 1]
  {
  }

  // --- All four families ----------------------------------------------------

  function In4(trail: seq<DestinationAddrs>): seq<seq<u32>> {
    seq(|trail|, i requires 0 <= i < |trail| => trail[i].v4)
  }
  function In6(trail: seq<DestinationAddrs>): seq<seq<u128>> {
    seq(|trail|, i requires 0 <= i < |trail| => trail[i].v6)
  }
  function InNet4(trail: seq<DestinationAddrs>): seq<seq<Ipv4Net>> {
    seq(|trail|, i requires 0 <= i < |trail| => trail[i].v4Subnets)
  }
  function InNet6(trail: seq<DestinationAddrs>): seq<seq<Ipv6Net>> {
    seq(|trail|, i requires 0 <= i < |trail| => trail[i].v6Subnets)
  }

  /** A router that held `r`'s addresses for the destination has followed a trail. */
  ghost predicate FollowsTrail(trail: seq<DestinationAddrs>, r: Router, mac: MacAddress, held: DestinationAddrs)
    requires |trail| > 0 && mac in r.destinations
  {
    var first := r.destinations[mac].addrs;
    && Follows(In4(trail), first.v4, Taken4(r, mac), held.v4)
    && Follows(In6(trail), first.v6, Taken6(r, mac), held.v6)
    && Follows(InNet4(trail), first.v4Subnets, TakenNet4(r, mac), held.v4Subnets)
    && Follows(InNet6(trail), first.v6Subnets, TakenNet6(r, mac), held.v6Subnets)
  }

  ghost predicate UndisturbedTrail(trail: seq<DestinationAddrs>, r: Router, mac: MacAddress)
    requires |trail| > 0 && mac in r.destinations
  {
    var first := r.destinations[mac].addrs;
    && Undisturbed(In4(trail), first.v4, Taken4(r, mac))
    && Undisturbed(In6(trail), first.v6, Taken6(r, mac))
    && Undisturbed(InNet4(trail), first.v4Subnets, TakenNet4(r, mac))
    && Undisturbed(InNet6(trail), first.v6Subnets, TakenNet6(r, mac))
  }

  lemma TrailMore(trail: seq<DestinationAddrs>, to: DestinationAddrs)
    ensures In4(trail + [to]) == In4(trail) + [to.v4] && In6(trail + [to]) == In6(trail) + [to.v6]
    ensures InNet4(trail + [to]) == InNet4(trail) + [to.v4Subnets]
    ensures InNet6(trail + [to]) == InNet6(trail) + [to.v6Subnets]
  {
  }

  lemma TrailFirst(start: DestinationAddrs, r: Router, mac: MacAddress)
    requires mac in r.destinations && Within(r.destinations[mac].addrs, start)
    ensures FollowsTrail([start], r, mac, r.destinations[mac].addrs)
  {
    var first := r.destinations[mac].addrs;
    FollowsFirst(start.v4, first.v4, Taken4(r, mac));
    FollowsFirst(start.v6, first.v6, Taken6(r, mac));
    FollowsFirst(start.v4Subnets, first.v4Subnets, TakenNet4(r, mac));
    FollowsFirst(start.v6Subnets, first.v6Subnets, TakenNet6(r, mac));
    hide Follows, Taken4, Taken6, TakenNet4, TakenNet6;
    TrailMore([], start);
    assert [] + [start] == [start];
    assert In4([start]) == [start.v4] && In6([start]) == [start.v6];
    assert InNet4([start]) == [start.v4Subnets] && InNet6([start]) == [start.v6Subnets];
  }

  /** Two routers that differ, if at all, in what they hold for one destination. */
  ghost predicate SameBut(r: Router, t: Router, mac: MacAddress) {
    t.peerAddresses == r.peerAddresses && t.destinations - {mac} == r.destinations - {mac}
  }

  lemma TakenUnchanged(r: Router, t: Router, mac: MacAddress)
    requires SameBut(r, t, mac)
    ensures Taken4(t, mac) == Taken4(r, mac) && Taken6(t, mac) == Taken6(r, mac)
    ensures TakenNet4(t, mac) == TakenNet4(r, mac) && TakenNet6(t, mac) == TakenNet6(r, mac)
  {
    var a, b := r.destinations - {mac}, t.destinations - {mac};
    assert forall m :: m in r.destinations && m != mac <==> m in a;
    assert forall m :: m in t.destinations && m != mac <==> m in b;
    assert forall m :: m in a ==> t.destinations[m] == r.destinations[m];
  }

  /** One update, read as the difference between what was advertised and `to`. */
  lemma UpdatePatches(t: Router, mac: MacAddress, msg: Message, sent: DestinationAddrs, to: DestinationAddrs)
    requires mac in t.destinations && FromItems(msg.items) == Between(sent, to)
    ensures var u := RouterUpdate(t, mac, msg).0;
            var before, after := t.destinations[mac].addrs, u.destinations[mac].addrs;
            && u.destinations.Keys == t.destinations.Keys && SameBut(t, u, mac)
            && after.v4 == Patch(sent.v4, to.v4, Taken4(t, mac), before.v4)
            && after.v6 == Patch(sent.v6, to.v6, Taken6(t, mac), before.v6)
            && after.v4Subnets == Patch(sent.v4Subnets, to.v4Subnets, TakenNet4(t, mac), before.v4Subnets)
            && after.v6Subnets == Patch(sent.v6Subnets, to.v6Subnets, TakenNet6(t, mac), before.v6Subnets)
  {
    RouterInvariant.OwnedCanonical(t, mac, msg);
    hide Taken4, Taken6, TakenNet4, TakenNet6, Merge, HasMetrics, Canonical, RetainFree, Apply, Minus;
    var u := RouterUpdate(t, mac, msg).0;
    assert u.destinations - {mac} == t.destinations - {mac};
  }

  lemma TrailNext(trail: seq<DestinationAddrs>, r: Router, t: Router, mac: MacAddress, msg: Message,
                  sent: DestinationAddrs, to: DestinationAddrs)
    requires |trail| > 0 && mac in r.destinations && mac in t.destinations && SameBut(r, t, mac)
    requires FollowsTrail(trail, r, mac, t.destinations[mac].addrs) && SameAddrs(sent, trail[|trail| - 1])
    requires FromItems(msg.items) == Between(sent, to)
    ensures var u := RouterUpdate(t, mac, msg).0;
            mac in u.destinations && SameBut(r, u, mac) && FollowsTrail(trail + [to], r, mac, u.destinations[mac].addrs)
  {
    var first, before := r.destinations[mac].addrs, t.destinations[mac].addrs;
    TakenUnchanged(r, t, mac);
    UpdatePatches(t, mac, msg, sent, to);
    TrailMore(trail, to);
    hide Taken4, Taken6, TakenNet4, TakenNet6, RouterUpdate, Between, FromItems, Follows, SameMembers, Patch;
    FollowsNext(In4(trail), first.v4, Taken4(r, mac), before.v4, sent.v4, to.v4);
    FollowsNext(In6(trail), first.v6, Taken6(r, mac), before.v6, sent.v6, to.v6);
    FollowsNext(InNet4(trail), first.v4Subnets, TakenNet4(r, mac), before.v4Subnets, sent.v4Subnets, to.v4Subnets);
    FollowsNext(InNet6(trail), first.v6Subnets, TakenNet6(r, mac), before.v6Subnets, sent.v6Subnets, to.v6Subnets);
  }

  lemma TrailSame(trail: seq<DestinationAddrs>, r: Router, mac: MacAddress, held: DestinationAddrs,
                  to: DestinationAddrs)
    requires |trail| > 0 && mac in r.destinations
    requires FollowsTrail(trail, r, mac, held) && SameAddrs(to, trail[|trail| - 1])
    ensures FollowsTrail(trail + [to], r, mac, held)
  {
    var first := r.destinations[mac].addrs;
    TrailMore(trail, to);
    hide Taken4, Taken6, TakenNet4, TakenNet6, Follows, SameMembers;
    FollowsSame(In4(trail), first.v4, Taken4(r, mac), held.v4, to.v4);
    FollowsSame(In6(trail), first.v6, Taken6(r, mac), held.v6, to.v6);
    FollowsSame(InNet4(trail), first.v4Subnets, TakenNet4(r, mac), held.v4Subnets, to.v4Subnets);
    FollowsSame(InNet6(trail), first.v6Subnets, TakenNet6(r, mac), held.v6Subnets, to.v6Subnets);
  }

  lemma OnceOrEachTrail(trail: seq<DestinationAddrs>, r: Router, mac: MacAddress, each: DestinationAddrs,
                        once: DestinationAddrs)
    requires |trail| > 0 && mac in r.destinations && FollowsTrail(trail, r, mac, each)
    requires FollowsTrail([trail[0]] + [trail[|trail| - 1]], r, mac, once)
    ensures SameAddrs(each, once) <==> UndisturbedTrail(trail, r, mac)
  {
    var first := r.destinations[mac].addrs;
    TrailMore([trail[0]], trail[|trail| - 1]);
    assert In4([trail[0]]) == [trail[0].v4] && In6([trail[0]]) == [trail[0].v6];
    assert InNet4([trail[0]]) == [trail[0].v4Subnets] && InNet6([trail[0]]) == [trail[0].v6Subnets];
    hide Taken4, Taken6, TakenNet4, TakenNet6, Follows, SameMembers, Undisturbed;
    OnceOrEach(In4(trail), first.v4, Taken4(r, mac), each.v4, once.v4);
    OnceOrEach(In6(trail), first.v6, Taken6(r, mac), each.v6, once.v6);
    OnceOrEach(InNet4(trail), first.v4Subnets, TakenNet4(r, mac), each.v4Subnets, once.v4Subnets);
    OnceOrEach(InNet6(trail), first.v6Subnets, TakenNet6(r, mac), each.v6Subnets, once.v6Subnets);
  }

  // --- The two machines -----------------------------------------------------

  /** What the application tells the modem about a destination. */
  datatype Update = NewMetrics(metrics: LinkMetrics) | NewAddresses(changes: AddressChanges)

  function UpdateCommand(m: Modem, mac: MacAddress, u: Update): (r: ModemSpec.Outcome)
    requires mac in m.destinations
    ensures mac in r.0.destinations
  {
    match u
    case NewMetrics(metrics) => ModemUpdateMetrics(m, mac, metrics)
    case NewAddresses(changes) => ModemUpdateAddresses(m, mac, changes)
  }

  /** A run of such commands, and what the modem sends meanwhile. */
  function Commands(m: Modem, mac: MacAddress, updates: seq<Update>): (r: (Modem, seq<Message>))
    requires mac in m.destinations
    ensures mac in r.0.destinations
  {
    if |updates| == 0 then (m, []) else
      var (before, sent) := Commands(m, mac, updates[..|updates| - 1]);
      var (after, actions) := UpdateCommand(before, mac, updates[|updates| - 1]);
      (after, sent + Sent(actions))
  }

  /** A router that reads updates for one destination. */
  function Feed(r: Router, mac: MacAddress, q: seq<Message>): (t: Router)
    requires mac in r.destinations
    ensures mac in t.destinations
  {
    if |q| == 0 then r else RouterUpdate(Feed(r, mac, q[..|q| - 1]), mac, q[|q| - 1]).0
  }

  function NextAddrs(u: Update, a: DestinationAddrs): DestinationAddrs {
    if u.NewAddresses? then ApplyLenient(u.changes, a) else a
  }

  function NextMetrics(u: Update, m: LinkMetrics): LinkMetrics {
    if u.NewMetrics? then Overlay(u.metrics, m) else m
  }

  function AddrsAfter(updates: seq<Update>, a: DestinationAddrs): DestinationAddrs {
    if |updates| == 0 then a else NextAddrs(updates[|updates| - 1], AddrsAfter(updates[..|updates| - 1], a))
  }

  function MetricsAfter(updates: seq<Update>, m: LinkMetrics): LinkMetrics {
    if |updates| == 0 then m else NextMetrics(updates[|updates| - 1], MetricsAfter(updates[..|updates| - 1], m))
  }

  lemma {:induction false} AfterIsClean(updates: seq<Update>, start: DestinationAddrs)
    requires CleanAddrs(start)
    ensures CleanAddrs(AddrsAfter(updates, start))
  {
    if |updates| > 0 {
      var front, last := updates[..|updates| - 1], updates[|updates| - 1];
      AfterIsClean(front, start);
      if last.NewAddresses? { LenientKeepsClean(last.changes, AddrsAfter(front, start)); }
    }
  }

  /** The states the modem's addresses go through. */
  function Trail(updates: seq<Update>, start: DestinationAddrs): seq<DestinationAddrs> {
    if |updates| == 0 then [start]
    else Trail(updates[..|updates| - 1], start) + [AddrsAfter(updates, start)]
  }

  lemma {:induction false} TrailEnds(updates: seq<Update>, start: DestinationAddrs)
    ensures var t := Trail(updates, start);
            |t| == |updates| + 1 && t[0] == start && t[|t| - 1] == AddrsAfter(updates, start)
  {
    if |updates| > 0 { TrailEnds(updates[..|updates| - 1], start); }
  }

  lemma {:induction false} TrailIsStates(updates: seq<Update>, start: DestinationAddrs, i: nat)
    requires i <= |updates|
    ensures |Trail(updates, start)| == |updates| + 1 && Trail(updates, start)[i] == AddrsAfter(updates[..i], start)
  {
    TrailEnds(updates, start);
    if i < |updates| {
      var front := updates[..|updates| - 1];
      TrailIsStates(front, start, i);
      assert front[..i] == updates[..i];
    } else {
      assert updates[..i] == updates;
    }
  }

  /** What a clean difference says when read from either form of the update. */
  lemma UpdateReads(mac: MacAddress, m: LinkMetrics, c: AddressChanges)
    requires IsCanonical(c.added) && IsCanonical(c.removed)
    ensures FromItems([Mac(mac)] + ChangeItems(c)) == c
    ensures FromItems(BuildDestinationUpdate(mac, m).items + ChangeItems(c)) == c
  {
    CanonicalFixed(c.added);
    CanonicalFixed(c.removed);
    hide ChangeItems, FromItems;
    WriteThenRead([Mac(mac)], c);
    WriteThenRead(BuildDestinationUpdate(mac, m).items, c);
  }

  /** And what either form makes of the metrics. */
  lemma UpdateMerges(mac: MacAddress, m: LinkMetrics, c: AddressChanges, base: LinkMetrics)
    ensures Merge([Mac(mac)] + ChangeItems(c), base) == base
    ensures Merge(BuildDestinationUpdate(mac, m).items + ChangeItems(c), base) == Overlay(m, base)
    ensures Merge(BuildDestinationUpdate(mac, m).items, base) == Overlay(m, base)
  {
    ChangesAreNotMetrics(c);
    hide ChangeItems, MetricItems, Overlay, Merge;
    MergeNothing([Mac(mac)], base);
    MergeConcat([Mac(mac)], ChangeItems(c), base);
    MergeNothing(ChangeItems(c), base);
    MergeConcat([Mac(mac)], MetricItems(m), base);
    MergeBuilt(m, base);
    MergeConcat(BuildDestinationUpdate(mac, m).items, ChangeItems(c), base);
    MergeNothing(ChangeItems(c), Overlay(m, base));
  }

  lemma ListingIsNotMetrics(add: bool, a: DestinationAddrs)
    ensures forall i :: 0 <= i < |Listing(add, a)| ==> !IsMetricItem(Listing(add, a)[i]) && !Listing(add, a)[i].Status?
  {
  }

  lemma ChangesAreNotMetrics(c: AddressChanges)
    ensures forall i :: 0 <= i < |ChangeItems(c)| ==> !IsMetricItem(ChangeItems(c)[i])
  {
    ListingIsNotMetrics(false, CanonicalAddrs(c.removed));
    ListingIsNotMetrics(true, CanonicalAddrs(c.added));
    hide Listing, CanonicalAddrs, IsMetricItem;
  }

  ghost predicate Told(d: ModemDestination) {
    CleanAddrs(d.addrs) && CleanAddrs(d.advertised) && SameAddrs(d.advertised, d.addrs)
  }

  ghost predicate TellsAtOnce(m: Modem, mac: MacAddress) {
    mac in m.destinations && m.destinations[mac].announced && mac !in m.tx.perDestination && Told(m.destinations[mac])
  }

  /** One command while announced: the message it sends, if any, and the effect. */
  lemma CommandTells(m: Modem, mac: MacAddress, u: Update)
    requires TellsAtOnce(m, mac)
    ensures var (n, actions) := UpdateCommand(m, mac, u);
            var d, e := m.destinations[mac], n.destinations[mac];
            && TellsAtOnce(n, mac) && e.addrs == NextAddrs(u, d.addrs) && e.metrics == NextMetrics(u, d.metrics)
            && |Sent(actions)| <= 1
            && (Sent(actions) == [] ==> SameAddrs(e.addrs, d.addrs) && u.NewAddresses?)
            && (Sent(actions) != [] ==> FromItems(Sent(actions)[0].items) == Between(d.advertised, e.addrs))
            && (Sent(actions) != [] ==> forall b :: Merge(Sent(actions)[0].items, b) == NextMetrics(u, b))
  {
    var (n, actions) := UpdateCommand(m, mac, u);
    var d, e := m.destinations[mac], n.destinations[mac];
    assert CleanAddrs(e.addrs) by { if u.NewAddresses? { LenientKeepsClean(u.changes, d.addrs); } }
    EmptyDifference(d.advertised, e.addrs);
    BetweenIsClean(d.advertised, e.addrs);
    var metrics := if u.NewMetrics? then u.metrics else d.metrics;
    var c := Between(d.advertised, e.addrs);
    UpdateReads(mac, metrics, c);
    forall b ensures Merge([Mac(mac)] + ChangeItems(c), b) == b
             ensures Merge(BuildDestinationUpdate(mac, metrics).items, b) == Overlay(metrics, b) {
      UpdateMerges(mac, metrics, c, b);
    }
    NothingToChange(mac, metrics);
    hide CleanAddrs, Between, ChangeItems, FromItems, ApplyLenient, Sent, SameMembers, Merge, BuildDestinationUpdate;
    AgreeTrans(d.advertised, d.addrs, e.addrs);
    if actions == [] { SentNone(); } else { SentOne(actions[0].msg); }
  }

  lemma NothingToChange(mac: MacAddress, m: LinkMetrics)
    ensures FromItems(BuildDestinationUpdate(mac, m).items) == NO_CHANGES
  {
    hide FromItems, MetricItems;
    MetricsAreNotAddresses(m);
    NothingRead([Mac(mac)] + MetricItems(m));
  }

  lemma AgreeTrans(a: DestinationAddrs, b: DestinationAddrs, c: DestinationAddrs)
    requires SameAddrs(a, b)
    ensures SameAddrs(a, c) <==> SameAddrs(c, b)
    ensures SameAddrs(c, c)
  {
  }

  lemma SentNone()
    ensures Sent([]) == []
  {
  }

  lemma SentOne(msg: Message)
    ensures Sent([SendMessage(msg)]) == [msg]
  {
    FoldOne(PushSent, [], SendMessage(msg));
  }

  lemma {:induction false} FeedConcat(r: Router, mac: MacAddress, p: seq<Message>, q: seq<Message>)
    requires mac in r.destinations
    ensures Feed(r, mac, p + q) == Feed(Feed(r, mac, p), mac, q)
  {
    hide RouterUpdate;
    if |q| == 0 {
      assert p + q == p;
    } else {
      assert (p + q)[..|p + q| - 1] == p + q[..|q| - 1];
      FeedConcat(r, mac, p, q[..|q| - 1]);
    }
  }

  lemma FeedOne(r: Router, mac: MacAddress, q: seq<Message>)
    requires mac in r.destinations && |q| == 1
    ensures Feed(r, mac, q) == RouterUpdate(r, mac, q[0]).0
  {
    assert q[..0] == [];
  }

  /** Sent one by one, every state of the modem is followed. */
  lemma {:induction false} EachFollows(r: Router, mac: MacAddress, m: Modem, updates: seq<Update>)
    requires mac in r.destinations && TellsAtOnce(m, mac)
    requires Within(r.destinations[mac].addrs, m.destinations[mac].addrs)
    ensures var start := m.destinations[mac].addrs;
            var (n, q) := Commands(m, mac, updates);
            && TellsAtOnce(n, mac) && n.destinations[mac].addrs == AddrsAfter(updates, start)
            && |Trail(updates, start)| > 0
            && SameBut(r, Feed(r, mac, q), mac)
            && FollowsTrail(Trail(updates, start), r, mac, Feed(r, mac, q).destinations[mac].addrs)
  {
    var start := m.destinations[mac].addrs;
    TrailEnds(updates, start);
    if |updates| == 0 {
      TrailFirst(start, r, mac);
    } else {
      var front, last := updates[..|updates| - 1], updates[|updates| - 1];
      EachFollows(r, mac, m, front);
      TrailEnds(front, start);
      var (n, q) := Commands(m, mac, front);
      var (o, actions) := UpdateCommand(n, mac, last);
      CommandTells(n, mac, last);
      FeedConcat(r, mac, q, Sent(actions));
      hide TellsAtOnce, UpdateCommand, RouterUpdate, Sent, FollowsTrail, Within, SameBut, NextAddrs, SameAddrs, Merge;
      var t, to := Feed(r, mac, q), o.destinations[mac].addrs;
      var trail := Trail(front, start);
      assert Trail(updates, start) == trail + [to];
      if Sent(actions) == [] {
        TrailSame(trail, r, mac, t.destinations[mac].addrs, to);
        assert q + [] == q;
      } else {
        FeedOne(t, mac, Sent(actions));
        ToldSame(n, mac);
        TrailNext(trail, r, t, mac, Sent(actions)[0], n.destinations[mac].advertised, to);
      }
    }
  }

  lemma ToldSame(m: Modem, mac: MacAddress)
    requires TellsAtOnce(m, mac)
    ensures mac in m.destinations && SameAddrs(m.destinations[mac].advertised, m.destinations[mac].addrs)
  {
  }

  lemma UpdateMetricsOf(r: Router, mac: MacAddress, msg: Message)
    requires mac in r.destinations
    ensures var d := RouterUpdate(r, mac, msg).0.destinations[mac];
            d.up == r.destinations[mac].up && d.metrics == Merge(msg.items, r.destinations[mac].metrics)
  {
    hide Merge, ApplyLenient, OwnedChanges, Between, HasMetrics;
  }

  /** And so are its metrics, on whatever the router had. */
  lemma {:induction false} EachMerges(r: Router, mac: MacAddress, m: Modem, updates: seq<Update>)
    requires mac in r.destinations && TellsAtOnce(m, mac)
    ensures var (n, q) := Commands(m, mac, updates);
            && TellsAtOnce(n, mac) && n.destinations[mac].metrics == MetricsAfter(updates, m.destinations[mac].metrics)
            && Feed(r, mac, q).destinations[mac].up == r.destinations[mac].up
            && Feed(r, mac, q).destinations[mac].metrics == MetricsAfter(updates, r.destinations[mac].metrics)
  {
    if |updates| > 0 {
      var front, last := updates[..|updates| - 1], updates[|updates| - 1];
      EachMerges(r, mac, m, front);
      var (n, q) := Commands(m, mac, front);
      var (o, actions) := UpdateCommand(n, mac, last);
      CommandTells(n, mac, last);
      FeedConcat(r, mac, q, Sent(actions));
      hide TellsAtOnce, UpdateCommand, RouterUpdate, Sent, NextAddrs, SameAddrs, Merge;
      var t := Feed(r, mac, q);
      if Sent(actions) == [] {
        assert q + [] == q;
      } else {
        FeedOne(t, mac, Sent(actions));
        UpdateMetricsOf(t, mac, Sent(actions)[0]);
      }
    }
  }

  lemma HeldStep(m: Modem, mac: MacAddress, u: Update)
    requires mac in m.destinations && !m.destinations[mac].announced
    ensures var (n, actions) := UpdateCommand(m, mac, u);
            var d, e := m.destinations[mac], n.destinations[mac];
            && actions == [] && n.tx == m.tx
            && e == d.(addrs := NextAddrs(u, d.addrs), metrics := NextMetrics(u, d.metrics),
                       pendingMetrics := d.pendingMetrics || u.NewMetrics?)
  {
    hide ApplyLenient, Between;
  }

  /** While the destination is not announced nothing is sent and all is kept. */
  lemma {:induction false} HeldBack(m: Modem, mac: MacAddress, updates: seq<Update>)
    requires mac in m.destinations && !m.destinations[mac].announced
    ensures var d := m.destinations[mac];
            var (n, q) := Commands(m, mac, updates);
            var e := n.destinations[mac];
            && q == [] && n.tx == m.tx
            && e == d.(addrs := AddrsAfter(updates, d.addrs), metrics := MetricsAfter(updates, d.metrics),
                       pendingMetrics := e.pendingMetrics)
            && (!e.pendingMetrics ==> e.metrics == d.metrics)
  {
    if |updates| > 0 {
      var front := updates[..|updates| - 1];
      HeldBack(m, mac, front);
      HeldStep(Commands(m, mac, front).0, mac, updates[|updates| - 1]);
      hide UpdateCommand, NextAddrs, Overlay;
      SentNone();
    }
  }

  // --- Held back while an Up is pending --------------------------------------

  /** Sent at once, only the first and the last state are followed. */
  lemma OnceFollows(r: Router, mac: MacAddress, d: ModemDestination, start: DestinationAddrs)
    requires mac in r.destinations && Within(r.destinations[mac].addrs, start)
    requires CleanAddrs(d.addrs) && CleanAddrs(d.advertised) && SameAddrs(d.advertised, start)
    ensures FollowsTrail([start] + [d.addrs], r, mac, Feed(r, mac, CatchUp(mac, d)).destinations[mac].addrs)
  {
    hide CleanAddrs, FollowsTrail, SameAddrs, Within, RouterUpdate, BuildDestinationUpdate, ChangeItems, FromItems,
         Between;
    var late, c := CatchUp(mac, d), Between(d.advertised, d.addrs);
    TrailFirst(start, r, mac);
    EmptyDifference(d.advertised, d.addrs);
    BetweenIsClean(d.advertised, d.addrs);
    UpdateReads(mac, d.metrics, c);
    AgreeTrans(d.advertised, start, d.addrs);
    if late == [] {
      TrailSame([start], r, mac, r.destinations[mac].addrs, d.addrs);
    } else {
      FeedOne(r, mac, late);
      TrailNext([start], r, r, mac, late[0], d.advertised, d.addrs);
    }
  }

  lemma OnceMerges(r: Router, mac: MacAddress, d: ModemDestination)
    requires mac in r.destinations
    ensures Feed(r, mac, CatchUp(mac, d)).destinations[mac].metrics
         == if d.pendingMetrics then Overlay(d.metrics, r.destinations[mac].metrics) else r.destinations[mac].metrics
  {
    var late := CatchUp(mac, d);
    UpdateMerges(mac, d.metrics, Between(d.advertised, d.addrs), r.destinations[mac].metrics);
    hide RouterUpdate, BuildDestinationUpdate, ChangeItems, Between, Merge;
    if late != [] {
      FeedOne(r, mac, late);
      UpdateMetricsOf(r, mac, late[0]);
    }
  }

  /** A destination whose Up the router has read and not yet answered here. */
  ghost predicate UpPending(m: Modem, mac: MacAddress) {
    && mac in m.destinations && !m.destinations[mac].announced && Told(m.destinations[mac])
    && Slot(m.tx, DestinationScope(mac)) == Some(DestinationUp)
  }

  predicate Affirms(msg: Message) { ExtractStatus(msg.items) == None || ExtractStatus(msg.items) == Some(SUCCESS) }

  /** What the modem sends once the Up is answered, after updates held back. */
  function Late(held: Modem, mac: MacAddress, updates: seq<Update>, answer: Message): seq<Message>
    requires mac in held.destinations
  {
    Sent(ModemUpResponse(Commands(held, mac, updates).0, mac, answer).1)
  }

  lemma LateIsCatchUp(m: Modem, mac: MacAddress, answer: Message)
    requires mac in m.destinations && Affirms(answer)
    ensures Sent(ModemUpResponse(m, mac, answer).1) == CatchUp(mac, m.destinations[mac])
  {
    var late := CatchUp(mac, m.destinations[mac]);
    hide CatchUp, ExtractStatus;
    FoldConcat(PushSent, [], Sending(late), ResetAction(m.peerHeartbeat));
    assert |late| <= 1 by { CatchUpShort(mac, m.destinations[mac]); }
    if late == [] {
      assert Sending(late) == [];
      SentNone();
    } else {
      assert late == [late[0]] && Sending(late) == [SendMessage(late[0])];
      SentOne(late[0]);
    }
    if ResetAction(m.peerHeartbeat) != [] { FoldOne(PushSent, late, ResetAction(m.peerHeartbeat)[0]); }
  }

  lemma CatchUpShort(mac: MacAddress, d: ModemDestination)
    ensures |CatchUp(mac, d)| <= 1
  {
  }

  lemma LateFollows(r: Router, mac: MacAddress, held: Modem, updates: seq<Update>, answer: Message)
    requires mac in r.destinations && UpPending(held, mac) && Affirms(answer)
    requires Within(r.destinations[mac].addrs, held.destinations[mac].addrs)
    ensures var start := held.destinations[mac].addrs;
            var once := Feed(r, mac, Late(held, mac, updates, answer)).destinations[mac];
            && FollowsTrail([start] + [AddrsAfter(updates, start)], r, mac, once.addrs)
            && (r.destinations[mac].metrics == held.destinations[mac].metrics ==>
                  once.metrics == MetricsAfter(updates, r.destinations[mac].metrics))
  {
    hide FollowsTrail, Feed, Commands, CatchUp, AddrsAfter, MetricsAfter, CleanAddrs, SameMembers, Within, Affirms,
         ModemUpResponse, Overlay, Sent, Slot;
    var d := held.destinations[mac];
    HeldBack(held, mac, updates);
    AfterIsClean(updates, d.addrs);
    AfterOverlays(updates, d.metrics);
    var e := Commands(held, mac, updates).0.destinations[mac];
    OnceFollows(r, mac, e, d.addrs);
    OnceMerges(r, mac, e);
    LateIsCatchUp(Commands(held, mac, updates).0, mac, answer);
  }

  /** A full set that grew from another overlays it entirely. */
  lemma {:induction false} AfterOverlays(updates: seq<Update>, m: LinkMetrics)
    ensures Overlay(MetricsAfter(updates, m), m) == MetricsAfter(updates, m)
  {
    if |updates| > 0 { AfterOverlays(updates[..|updates| - 1], m); }
  }

  /** The same commands given while the destination is announced and while its Up
      is pending. The router ends with the same addresses for it if and only if
      every address that the modem took away and gave back meanwhile was held by
      the router exactly when nobody else holds it. The metrics always agree. */
  lemma CoalescedExactly(r: Router, mac: MacAddress, told: Modem, held: Modem, updates: seq<Update>, answer: Message)
    requires mac in r.destinations && TellsAtOnce(told, mac) && UpPending(held, mac) && Affirms(answer)
    requires held.destinations[mac].addrs == told.destinations[mac].addrs
    requires Within(r.destinations[mac].addrs, told.destinations[mac].addrs)
    ensures var trail := Trail(updates, told.destinations[mac].addrs);
            var each := Feed(r, mac, Commands(told, mac, updates).1).destinations[mac];
            var once := Feed(r, mac, Late(held, mac, updates, answer)).destinations[mac];
            && |trail| > 0
            && (SameAddrs(each.addrs, once.addrs) <==> UndisturbedTrail(trail, r, mac))
            && (r.destinations[mac].metrics == held.destinations[mac].metrics ==> each.metrics == once.metrics)
  {
    var start := told.destinations[mac].addrs;
    hide FollowsTrail, SameAddrs, UndisturbedTrail, Feed, Commands, Late, AddrsAfter, MetricsAfter, Told, Within,
         Affirms, Slot, TellsAtOnce;
    EachFollows(r, mac, told, updates);
    EachMerges(r, mac, told, updates);
    TrailEnds(updates, start);
    LateFollows(r, mac, held, updates, answer);
    OnceOrEachTrail(Trail(updates, start), r, mac, Feed(r, mac, Commands(told, mac, updates).1).destinations[mac].addrs,
                    Feed(r, mac, Late(held, mac, updates, answer)).destinations[mac].addrs);
  }

  // --- Held back while the router's interest is withdrawn --------------------

  ghost predicate FreeOf<T(!new)>(held: seq<T>, all: seq<T>, taken: set<T>) {
    forall x :: x in held <==> x in all && x !in taken
  }

  /** The addresses of `all` that neither the peer nor another destination holds. */
  ghost predicate HoldsFree(held: DestinationAddrs, all: DestinationAddrs, r: Router, mac: MacAddress) {
    && FreeOf(held.v4, all.v4, Taken4(r, mac)) && FreeOf(held.v6, all.v6, Taken6(r, mac))
    && FreeOf(held.v4Subnets, all.v4Subnets, TakenNet4(r, mac))
    && FreeOf(held.v6Subnets, all.v6Subnets, TakenNet6(r, mac))
  }

  lemma FreshFamily<T(!new)>(all: seq<T>, taken: set<T>)
    ensures FreeOf(Apply([], RetainFree(all, [], taken), []), all, taken)
  {
    RetainFreeMembers(all, [], taken);
    ApplyMembers([], RetainFree(all, [], taken), []);
  }

  lemma FreeThroughout<T(!new)>(states: seq<seq<T>>, first: seq<T>, taken: set<T>, held: seq<T>)
    requires |states| > 0 && Follows(states, first, taken, held) && FreeOf(first, states[0], taken)
    ensures FreeOf(held, states[|states| - 1], taken)
  {
    hide Throughout;
    forall x ensures x in held <==> x in states[|states| - 1] && x !in taken { EndsIn(states, x); }
  }

  lemma FreeTrail(trail: seq<DestinationAddrs>, r: Router, mac: MacAddress, held: DestinationAddrs)
    requires |trail| > 0 && mac in r.destinations && FollowsTrail(trail, r, mac, held)
    requires HoldsFree(r.destinations[mac].addrs, trail[0], r, mac)
    ensures HoldsFree(held, trail[|trail| - 1], r, mac)
  {
    var first := r.destinations[mac].addrs;
    hide Taken4, Taken6, TakenNet4, TakenNet6, Follows, FreeOf;
    FreeThroughout(In4(trail), first.v4, Taken4(r, mac), held.v4);
    FreeThroughout(In6(trail), first.v6, Taken6(r, mac), held.v6);
    FreeThroughout(InNet4(trail), first.v4Subnets, TakenNet4(r, mac), held.v4Subnets);
    FreeThroughout(InNet6(trail), first.v6Subnets, TakenNet6(r, mac), held.v6Subnets);
  }

  /** Interest withdrawn: known here, not announced, nothing open. */
  ghost predicate Withdrawn(m: Modem, mac: MacAddress) {
    mac in m.destinations && !m.destinations[mac].announced && mac !in m.tx.perDestination
    && CleanAddrs(m.destinations[mac].addrs)
  }

  /** The answer to an announce, and the router that reads it. */
  function Answered(r: Router, m: Modem, mac: MacAddress, request: Message): Router
    requires Sent(ModemAnnounce(m, mac, request).1) != []
  {
    RouterAnnounceResponse(r, mac, Sent(ModemAnnounce(m, mac, request).1)[0]).0
  }

  lemma AnswerSent(m: Modem, mac: MacAddress, request: Message)
    requires mac in m.destinations
    ensures var d := m.destinations[mac];
            Sent(ModemAnnounce(m, mac, request).1) == [BuildAnnounceAccepted(mac, d.metrics, d.addrs)]
  {
    var d := m.destinations[mac];
    var a := SendMessage(BuildAnnounceAccepted(mac, d.metrics, d.addrs));
    var b := Emit(DestinationAnnounced(mac, FromItems(request.items)));
    hide BuildAnnounceAccepted, FromItems;
    FoldConcat(PushSent, [], [a, b], ResetAction(m.peerHeartbeat));
    FoldTwo(PushSent, [], a, b);
    if ResetAction(m.peerHeartbeat) != [] { FoldOne(PushSent, [a.msg], ResetAction(m.peerHeartbeat)[0]); }
  }

  lemma AnswerMerges(mac: MacAddress, m: LinkMetrics, a: DestinationAddrs, base: LinkMetrics)
    ensures Merge(BuildAnnounceAccepted(mac, m, a).items, base) == Overlay(m, base)
    ensures ExtractStatus(BuildAnnounceAccepted(mac, m, a).items) == Some(SUCCESS)
  {
    var head, last := [Mac(mac)] + Listing(true, a), Status(SUCCESS, []);
    ListingIsNotMetrics(true, a);
    MetricsAreNotStatus(m);
    hide Listing, MetricItems, Merge, Overlay, ExtractStatusItem, IsMetricItem;
    StatusLast(head + MetricItems(m), last);
    HeadMerges(head, base) by { assert !IsMetricItem(Mac(mac)) by { MacIsNotMetric(mac); } }
    MergeConcat(head + MetricItems(m), [last], base);
    MergeConcat(head, MetricItems(m), base);
    MergeBuilt(m, base);
    HeadMerges([last], Overlay(m, base)) by { assert !IsMetricItem(last) by { StatusIsNotMetric(last); } }
  }

  lemma HeadMerges(items: seq<DataItem>, base: LinkMetrics)
    requires forall i :: 0 <= i < |items| ==> !IsMetricItem(items[i])
    ensures Merge(items, base) == base
  {
    MergeNothing(items, base);
  }

  lemma MacIsNotMetric(mac: MacAddress)
    ensures !IsMetricItem(Mac(mac))
  {
  }

  lemma StatusIsNotMetric(x: DataItem)
    requires x.Status?
    ensures !IsMetricItem(x)
  {
  }

  lemma MetricsAreNotStatus(m: LinkMetrics)
    ensures forall i :: 0 <= i < |MetricItems(m)| ==> !MetricItems(m)[i].Status?
  {
  }

  /** The entry an answer creates: the free addresses, and the metrics over those
      of the session. */
  lemma AnswerCreates(r: Router, m: Modem, mac: MacAddress, request: Message)
    requires mac in m.destinations && CleanAddrs(m.destinations[mac].addrs)
    ensures Sent(ModemAnnounce(m, mac, request).1) != []
    ensures var d, t := m.destinations[mac], Answered(r, m, mac, request);
            && mac in t.destinations && SameBut(r, t, mac) && t.destinations[mac].up
            && HoldsFree(t.destinations[mac].addrs, d.addrs, r, mac)
            && t.destinations[mac].metrics == Overlay(d.metrics, r.sessionMetrics)
  {
    var d := m.destinations[mac];
    var msg := BuildAnnounceAccepted(mac, d.metrics, d.addrs);
    AnswerSent(m, mac, request);
    AnswerMerges(mac, d.metrics, d.addrs, r.sessionMetrics);
    UpRead(mac, d.metrics, d.addrs);
    RouterInvariant.OwnedCanonical(r, mac, msg);
    hide BuildAnnounceAccepted, FromItems, ExtractStatus, Merge, CleanAddrs, Taken4, Taken6, TakenNet4, TakenNet6,
         Canonical, RetainFree, Apply, FreeOf, ModemAnnounce;
    FreshFamily(d.addrs.v4, Taken4(r, mac));
    FreshFamily(d.addrs.v6, Taken6(r, mac));
    FreshFamily(d.addrs.v4Subnets, TakenNet4(r, mac));
    FreshFamily(d.addrs.v6Subnets, TakenNet6(r, mac));
    var t := RouterAnnounceResponse(r, mac, msg).0;
    assert t.destinations - {mac} == r.destinations - {mac};
  }

  lemma AnnounceTells(m: Modem, mac: MacAddress, request: Message)
    requires Withdrawn(m, mac)
    ensures var n := ModemAnnounce(m, mac, request).0;
            TellsAtOnce(n, mac) && n.destinations[mac].addrs == m.destinations[mac].addrs
            && n.destinations[mac].metrics == m.destinations[mac].metrics
  {
    hide CleanAddrs;
  }

  /** Overlays compose: first onto the session's metrics or last, the same. */
  lemma {:induction false} AfterOnto(updates: seq<Update>, m: LinkMetrics, base: LinkMetrics)
    ensures MetricsAfter(updates, Overlay(m, base)) == Overlay(MetricsAfter(updates, m), base)
  {
    if |updates| > 0 { AfterOnto(updates[..|updates| - 1], m, base); }
  }

  lemma FreeUnder(held: DestinationAddrs, all: DestinationAddrs, r: Router, t: Router, mac: MacAddress)
    requires SameBut(r, t, mac)
    ensures HoldsFree(held, all, r, mac) <==> HoldsFree(held, all, t, mac)
    ensures HoldsFree(held, all, r, mac) ==> Within(held, all)
  {
    TakenUnchanged(r, t, mac);
    hide Taken4, Taken6, TakenNet4, TakenNet6;
  }

  lemma FreeAgree(a: DestinationAddrs, b: DestinationAddrs, all: DestinationAddrs, r: Router, mac: MacAddress)
    requires HoldsFree(a, all, r, mac) && HoldsFree(b, all, r, mac)
    ensures SameAddrs(a, b)
  {
    hide Taken4, Taken6, TakenNet4, TakenNet6;
  }

  /** The router has withdrawn and asks again. Whether it is answered before the
      modem's updates, which then follow one by one, or after them, it ends with
      the same entry: the modem's metrics over those of the session, and the
      modem's addresses without those the peer or another destination holds. */
  lemma WithdrawnAlike(r: Router, m: Modem, mac: MacAddress, updates: seq<Update>, request: Message)
    requires Withdrawn(m, mac)
    ensures var (late, nothing) := Commands(m, mac, updates);
            && nothing == [] && late.destinations[mac].addrs == AddrsAfter(updates, m.destinations[mac].addrs)
            && late.destinations[mac].metrics == MetricsAfter(updates, m.destinations[mac].metrics)
            && Sent(ModemAnnounce(m, mac, request).1) != [] && Sent(ModemAnnounce(late, mac, request).1) != []
            && mac in ModemAnnounce(m, mac, request).0.destinations
            && mac in Answered(r, m, mac, request).destinations && mac in Answered(r, late, mac, request).destinations
            && var q := Commands(ModemAnnounce(m, mac, request).0, mac, updates).1;
               var each := Feed(Answered(r, m, mac, request), mac, q).destinations[mac];
               var once := Answered(r, late, mac, request).destinations[mac];
               && SameAddrs(each.addrs, once.addrs) && each.metrics == once.metrics && each.up && once.up
               && HoldsFree(once.addrs, late.destinations[mac].addrs, r, mac)
               && once.metrics == Overlay(late.destinations[mac].metrics, r.sessionMetrics)
  {
    var d := m.destinations[mac];
    hide FollowsTrail, Feed, Commands, AddrsAfter, MetricsAfter, CleanAddrs, SameAddrs, Within, HoldsFree,
         ModemAnnounce, Overlay, Answered, SameBut, TellsAtOnce, Sent;
    HeldBack(m, mac, updates);
    AfterIsClean(updates, d.addrs);
    AnnounceTells(m, mac, request);
    var late := Commands(m, mac, updates).0;
    AnswerCreates(r, m, mac, request);
    AnswerCreates(r, late, mac, request);
    var n, t := ModemAnnounce(m, mac, request).0, Answered(r, m, mac, request);
    FreeUnder(t.destinations[mac].addrs, d.addrs, r, t, mac);
    TellsKnows(n, mac);
    EachFollows(t, mac, n, updates);
    EachMerges(t, mac, n, updates);
    AfterOnto(updates, d.metrics, r.sessionMetrics);
    TrailEnds(updates, d.addrs);
    var each := Feed(t, mac, Commands(n, mac, updates).1).destinations[mac];
    FreeTrail(Trail(updates, d.addrs), t, mac, each.addrs);
    FreeUnder(each.addrs, AddrsAfter(updates, d.addrs), r, t, mac);
    FreeAgree(each.addrs, Answered(r, late, mac, request).destinations[mac].addrs, AddrsAfter(updates, d.addrs), r,
              mac);
  }

  lemma TellsKnows(m: Modem, mac: MacAddress)
    requires TellsAtOnce(m, mac)
    ensures mac in m.destinations
  {
  }
}
