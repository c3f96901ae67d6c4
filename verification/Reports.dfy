/** What the router tells its application: every event carries the values the
    machine then holds, every change is reported, and an application that only
    listens has the same picture as the machine, after any run against any peer.
 */
module Reports {
  import opened Types
  import opened Addresses
  import opened Messages
  import opened Transactions
  import opened Session
  import opened RouterSpec
  import RI = RouterInvariant

  // --- One step -------------------------------------------------------------

  /** The event fits the step from `s` to `t`. */
  ghost predicate Tells(s: Router, t: Router, event: EmittedEvent) {
    match event
    case DestinationUpEvent(mac, metrics, addrs) =>
      && mac !in s.destinations && mac in t.destinations
      && t.destinations[mac].metrics == metrics && t.destinations[mac].addrs == addrs
    case DestinationUpdateEvent(mac, metrics) =>
      mac in s.destinations && mac in t.destinations && t.destinations[mac].metrics == metrics
    case LinkCharacteristicsResponse(mac, _, _, metrics) =>
      && mac in s.destinations && mac in t.destinations && t.destinations[mac].metrics == metrics
      && Slot(s.tx, DestinationScope(mac)) == Some(LinkCharacteristicsKind)
      && Slot(t.tx, DestinationScope(mac)).None?
    case DestinationAddressesUpdate(mac, changes, addrs) =>
      && mac in s.destinations && mac in t.destinations && t.destinations[mac].addrs == addrs
      && changes != NO_CHANGES && ApplyStrict(changes, s.destinations[mac].addrs) == Some(addrs)
    case DestinationDownEvent(mac, _) => mac in s.destinations && mac !in t.destinations
    case SessionMetricsUpdate(metrics) => t.sessionMetrics == metrics
    case SessionAddressesUpdate(changes, addrs) =>
      t.peerAddresses == addrs && changes != NO_CHANGES && ApplyStrict(changes, s.peerAddresses) == Some(addrs)
    case SessionUp(extensions) => s.phase.Initializing? && t.phase.InSession? && t.peerExtensions == extensions
    case SessionDown(_) => !s.phase.Terminated? && t.phase.Terminated?
    case CommandRejected(_, _) => t == s
    case _ => false
  }

  predicate TellsAddresses(event: EmittedEvent, mac: MacAddress) {
    event.DestinationAddressesUpdate? && event.mac == mac
  }

  predicate TellsMetrics(event: EmittedEvent, mac: MacAddress) {
    ((event.DestinationUpdateEvent? || event.LinkCharacteristicsResponse?) && event.mac == mac)
    || event.SessionMetricsUpdate?
  }

  predicate TellsUp(event: EmittedEvent, mac: MacAddress) { event.DestinationUpEvent? && event.mac == mac }

  predicate TellsDown(event: EmittedEvent, mac: MacAddress) { event.DestinationDownEvent? && event.mac == mac }

  /** Whatever changed is among the events. */
  ghost predicate Complete(s: Router, t: Router, events: seq<EmittedEvent>) {
    && (forall mac :: mac in t.destinations && mac !in s.destinations ==> exists x :: x in events && TellsUp(x, mac))
    && (forall mac :: mac in s.destinations && mac !in t.destinations ==> exists x :: x in events && TellsDown(x, mac))
    && (forall mac :: mac in s.destinations && mac in t.destinations ==>
          && (s.destinations[mac].addrs != t.destinations[mac].addrs ==>
                exists x :: x in events && TellsAddresses(x, mac))
          && (s.destinations[mac].metrics != t.destinations[mac].metrics ==>
                exists x :: x in events && TellsMetrics(x, mac)))
    && (s.sessionMetrics != t.sessionMetrics ==> exists x :: x in events && x.SessionMetricsUpdate?)
    && (s.peerAddresses != t.peerAddresses ==> exists x :: x in events && x.SessionAddressesUpdate?)
    && (s.phase.InSession? != t.phase.InSession? && t.phase.InSession? ==> exists x :: x in events && x.SessionUp?)
  }

  // --- The listener's picture -----------------------------------------------

  /** What the application knows of a destination. Metrics are unknown from a
      session-wide update until the next report about the destination. */
  datatype Seen = Seen(metrics: Option<LinkMetrics>, addrs: DestinationAddrs)

  /** What the application knows; `Confused` is final. */
  datatype Picture =
    | Picture(destinations: map<MacAddress, Seen>, session: Option<LinkMetrics>, peer: DestinationAddrs)
    | Confused

  const NOTHING_SEEN := Picture(map[], None, NO_ADDRS)

  function See(p: Picture, event: EmittedEvent): Picture {
    if p.Confused? then p
    else match event
      case DestinationUpEvent(mac, metrics, addrs) =>
        if mac in p.destinations then Confused
        else p.(destinations := p.destinations[mac := Seen(Some(metrics), addrs)])
      case DestinationDownEvent(mac, _) =>
        if mac !in p.destinations then Confused else p.(destinations := p.destinations - {mac})
      case DestinationUpdateEvent(mac, metrics) => SeeMetrics(p, mac, metrics)
      case LinkCharacteristicsResponse(mac, _, _, metrics) => SeeMetrics(p, mac, metrics)
      case DestinationAddressesUpdate(mac, changes, addrs) =>
        if mac !in p.destinations || ApplyStrict(changes, p.destinations[mac].addrs) != Some(addrs) then Confused
        else p.(destinations := p.destinations[mac := p.destinations[mac].(addrs := addrs)])
      case SessionMetricsUpdate(metrics) =>
        p.(session := Some(metrics),
           destinations := map m | m in p.destinations :: p.destinations[m].(metrics := None))
      case SessionAddressesUpdate(changes, addrs) =>
        if ApplyStrict(changes, p.peer) != Some(addrs) then Confused else p.(peer := addrs)
      case _ => p
  }

  function SeeMetrics(p: Picture, mac: MacAddress, metrics: LinkMetrics): Picture
    requires p.Picture?
  {
    if mac !in p.destinations then Confused
    else p.(destinations := p.destinations[mac := p.destinations[mac].(metrics := Some(metrics))])
  }

  function SeeAll(p: Picture, events: seq<EmittedEvent>): Picture {
    if |events| == 0 then p else See(SeeAll(p, events[..|events| - 1]), events[|events| - 1])
  }

  lemma {:induction false} SeeConcat(p: Picture, a: seq<EmittedEvent>, b: seq<EmittedEvent>)
    ensures SeeAll(p, a + b) == SeeAll(SeeAll(p, a), b)
  {
    if |b| == 0 {
      assert a + b == a;
    } else {
      assert (a + b)[..|a + b| - 1] == a + b[..|b| - 1];
      SeeConcat(p, a, b[..|b| - 1]);
    }
  }

  lemma SeeOne(p: Picture, a: EmittedEvent)
    ensures SeeAll(p, [a]) == See(p, a)
  {
    hide See;
    assert [a][..0] == [];
  }

  lemma SeeIf(p: Picture, present: bool, a: EmittedEvent)
    ensures SeeAll(p, if present then [a] else []) == if present then See(p, a) else p
  {
    hide See;
    SeeOne(p, a);
  }

  /** The picture is the machine's: the same destinations with the same addresses,
      every metric that is known current, and the same session values. */
  ghost predicate InView(s: Router, p: Picture) {
    && p.Picture?
    && p.destinations.Keys == s.destinations.Keys
    && (forall mac :: mac in s.destinations ==> AsSeen(s.destinations[mac], p.destinations[mac]))
    && (p.session.Some? ==> p.session.value == s.sessionMetrics)
    && (s.phase.InSession? ==> p.session.Some?)
    && (Rank(s.phase) < 2 ==> p == NOTHING_SEEN)
    && p.peer == s.peerAddresses
  }

  ghost predicate AsSeen(d: RouterDestination, seen: Seen) {
    d.addrs == seen.addrs && (seen.metrics.Some? ==> seen.metrics.value == d.metrics)
  }

  ghost predicate Keeps(s: Router, t: Router, events: seq<EmittedEvent>, p: Picture) {
    InView(s, p) ==> InView(t, SeeAll(p, events))
  }

  ghost predicate AllTell(s: Router, t: Router, events: seq<EmittedEvent>) {
    forall x :: x in events ==> Tells(s, t, x)
  }

  /** A step tells the truth, all of it, and keeps the listener's picture. */
  ghost predicate Honest(s: Router, r: Outcome, p: Picture) {
    var events := Emitted(r.1);
    AllTell(s, r.0, events) && Complete(s, r.0, events) && Keeps(s, r.0, events, p)
  }

  /** A step that changes neither what is known nor the session. */
  lemma SilentHonest(s: Router, r: Outcome, p: Picture)
    requires Emitted(r.1) == []
    requires r.0 == s.(phase := r.0.phase, tx := r.0.tx, localAddresses := r.0.localAddresses,
                       terminationReason := r.0.terminationReason)
    requires Rank(r.0.phase) >= Rank(s.phase) && (r.0.phase.InSession? ==> s.phase.InSession?)
    ensures Honest(s, r, p)
  {
  }

  lemma RejectHonest(s: Router, e: Event, error: CommandError, p: Picture)
    requires Command(e).Some?
    ensures Honest(s, (s, Reject(e, error)), p)
  {
    hide Emitted, Command, AllTell, Complete, Keeps;
    var x := CommandRejected(Command(e).value, error);
    EmittedOne(Emit(x));
    RejectTells(s, x, p);
  }

  lemma RejectTells(s: Router, x: EmittedEvent, p: Picture)
    requires x.CommandRejected?
    ensures AllTell(s, s, [x]) && Complete(s, s, [x]) && Keeps(s, s, [x], p)
  {
    hide InView;
    SeeOne(p, x);
  }

  lemma DownHonest(s: Router, r: Outcome, p: Picture, reason: u8)
    requires Emitted(r.1) == [SessionDown(reason)]
    requires r.0 == s.(phase := Terminated, terminationReason := r.0.terminationReason) && !s.phase.Terminated?
    ensures Honest(s, r, p)
  {
    SeeOne(p, SessionDown(reason));
  }

  lemma UpHonest(s: Router, r: Outcome, mac: MacAddress, d: RouterDestination, p: Picture)
    requires mac !in s.destinations && Rank(s.phase) >= 2
    requires Emitted(r.1) == [DestinationUpEvent(mac, d.metrics, d.addrs)]
    requires r.0 == s.(destinations := s.destinations[mac := d], tx := r.0.tx)
    ensures Honest(s, r, p)
  {
    var x := DestinationUpEvent(mac, d.metrics, d.addrs);
    SeeOne(p, x);
    assert x in [x] && TellsUp(x, mac);
  }

  lemma GoneHonest(s: Router, r: Outcome, mac: MacAddress, reason: u8, p: Picture)
    requires mac in s.destinations && Rank(s.phase) >= 2
    requires Emitted(r.1) == [DestinationDownEvent(mac, reason)]
    requires r.0 == s.(destinations := s.destinations - {mac}, tx := r.0.tx)
    ensures Honest(s, r, p)
  {
    var x := DestinationDownEvent(mac, reason);
    SeeOne(p, x);
    assert x in [x] && TellsDown(x, mac);
  }

  lemma UpdateEmits(s: Router, mac: MacAddress, msg: Message)
    requires mac in s.destinations
    ensures var d := s.destinations[mac];
            var addrs := ApplyLenient(OwnedChanges(s, mac, msg), d.addrs);
            var changes := Between(d.addrs, addrs);
            Emitted(RouterUpdate(s, mac, msg).1)
            == (if HasMetrics(msg.items) then [DestinationUpdateEvent(mac, Merge(msg.items, d.metrics))] else [])
            + (if changes != NO_CHANGES then [DestinationAddressesUpdate(mac, changes, addrs)] else [])
  {
    hide ApplyLenient, OwnedChanges, Merge, Between, ResetAction, HasMetrics, Fold;
    var d := s.destinations[mac];
    var addrs := ApplyLenient(OwnedChanges(s, mac, msg), d.addrs);
    var changes := Between(d.addrs, addrs);
    var x := Emit(DestinationUpdateEvent(mac, Merge(msg.items, d.metrics)));
    var y := Emit(DestinationAddressesUpdate(mac, changes, addrs));
    var a := if HasMetrics(msg.items) then [x] else [];
    var b := if changes != NO_CHANGES then [y] else [];
    EmittedIf(HasMetrics(msg.items), x);
    EmittedIf(changes != NO_CHANGES, y);
    EmittedConcat(a, b);
    EmittedConcat(a + b, ResetAction(s.peerHeartbeat));
    ResetEmitsNothing(s.peerHeartbeat);
    assert RouterUpdate(s, mac, msg).1 == a + b + ResetAction(s.peerHeartbeat);
  }

  lemma NoMetricsNoChange(items: seq<DataItem>, m: LinkMetrics)
    requires !HasMetrics(items)
    ensures Merge(items, m) == m
  {
    MergeNothing(items, m);
  }

  /** An entry replaced, its metrics and addresses each reported if at all. */
  ghost predicate Replaces(s: Router, t: Router, mac: MacAddress, x: EmittedEvent, y: EmittedEvent) {
    && mac in s.destinations && mac in t.destinations && Rank(s.phase) >= 2
    && t == s.(destinations := s.destinations[mac := t.destinations[mac]])
    && x == DestinationUpdateEvent(mac, t.destinations[mac].metrics)
    && y.DestinationAddressesUpdate? && y.mac == mac && y.addresses == t.destinations[mac].addrs
  }

  function Some2(metrics: bool, x: EmittedEvent, addresses: bool, y: EmittedEvent): seq<EmittedEvent> {
    (if metrics then [x] else []) + (if addresses then [y] else [])
  }

  lemma SeeSome(p: Picture, metrics: bool, x: EmittedEvent, addresses: bool, y: EmittedEvent)
    ensures var q := if metrics then See(p, x) else p;
            SeeAll(p, Some2(metrics, x, addresses, y)) == if addresses then See(q, y) else q
  {
    hide See;
    var a, b := if metrics then [x] else [], if addresses then [y] else [];
    SeeConcat(p, a, b);
    SeeIf(p, metrics, x);
    SeeIf(SeeAll(p, a), addresses, y);
  }

  lemma EntryTells(s: Router, t: Router, mac: MacAddress, metrics: bool, x: EmittedEvent, addresses: bool,
                   y: EmittedEvent)
    requires Replaces(s, t, mac, x, y)
    requires t.destinations[mac].metrics != s.destinations[mac].metrics ==> metrics
    requires t.destinations[mac].addrs != s.destinations[mac].addrs ==> addresses
    requires addresses ==>
               y.changes != NO_CHANGES && ApplyStrict(y.changes, s.destinations[mac].addrs) == Some(y.addresses)
    ensures AllTell(s, t, Some2(metrics, x, addresses, y)) && Complete(s, t, Some2(metrics, x, addresses, y))
  {
    hide ApplyStrict;
    var events := Some2(metrics, x, addresses, y);
    assert metrics ==> x in events && TellsMetrics(x, mac);
    assert addresses ==> y in events && TellsAddresses(y, mac);
    assert forall z :: z in events ==> (z == x && metrics) || (z == y && addresses);
    hide Some2;
  }

  lemma EntrySeen(s: Router, t: Router, mac: MacAddress, metrics: bool, x: EmittedEvent, addresses: bool,
                  y: EmittedEvent, p: Picture)
    requires Replaces(s, t, mac, x, y)
    requires t.destinations[mac].metrics != s.destinations[mac].metrics ==> metrics
    requires t.destinations[mac].addrs != s.destinations[mac].addrs ==> addresses
    requires addresses ==> ApplyStrict(y.changes, s.destinations[mac].addrs) == Some(y.addresses)
    ensures Keeps(s, t, Some2(metrics, x, addresses, y), p)
  {
    hide ApplyStrict;
    SeeSome(p, metrics, x, addresses, y);
    hide Some2;
  }

  lemma UpdateHonest(s: Router, mac: MacAddress, msg: Message, p: Picture)
    requires mac in s.destinations && Rank(s.phase) >= 2 && RouterOwnership(s)
    ensures Honest(s, RouterUpdate(s, mac, msg), p)
  {
    var d := s.destinations[mac];
    var c := OwnedChanges(s, mac, msg);
    var addrs := ApplyLenient(c, d.addrs);
    var changes := Between(d.addrs, addrs);
    assert CleanAddrs(d.addrs);
    hide ApplyLenient, ApplyStrict, OwnedChanges, Merge, Between, ResetAction, HasMetrics, Emitted, CleanAddrs,
         AllTell, Complete, Keeps, RouterOwnership;
    UpdateEmits(s, mac, msg);
    EffectiveChangeMirrors(c, d.addrs);
    NoChangeApplies(d.addrs);
    if !HasMetrics(msg.items) { NoMetricsNoChange(msg.items, d.metrics); }
    var x := DestinationUpdateEvent(mac, Merge(msg.items, d.metrics));
    var y := DestinationAddressesUpdate(mac, changes, addrs);
    EntryTells(s, RouterUpdate(s, mac, msg).0, mac, HasMetrics(msg.items), x, changes != NO_CHANGES, y);
    EntrySeen(s, RouterUpdate(s, mac, msg).0, mac, HasMetrics(msg.items), x, changes != NO_CHANGES, y, p);
  }

  lemma LinkTells(s: Router, t: Router, mac: MacAddress, x: EmittedEvent, p: Picture)
    requires mac in s.destinations && mac in t.destinations && Rank(s.phase) >= 2
    requires t == s.(tx := t.tx, destinations := s.destinations[mac := t.destinations[mac]])
    requires t.destinations[mac] == s.destinations[mac].(metrics := t.destinations[mac].metrics)
    requires Slot(s.tx, DestinationScope(mac)) == Some(LinkCharacteristicsKind)
    requires Slot(t.tx, DestinationScope(mac)).None?
    requires x.LinkCharacteristicsResponse? && x.mac == mac && x.metrics == t.destinations[mac].metrics
    ensures AllTell(s, t, [x]) && Complete(s, t, [x]) && Keeps(s, t, [x], p)
  {
    SeeOne(p, x);
    assert x in [x] && TellsMetrics(x, mac);
  }

  lemma LinkHonest(s: Router, mac: MacAddress, msg: Message, p: Picture)
    requires mac in s.destinations && Rank(s.phase) >= 2 && ExtractStatusItem(msg.items).Some?
    requires Slot(s.tx, DestinationScope(mac)) == Some(LinkCharacteristicsKind)
    ensures Honest(s, RouterLinkResponse(s, mac, msg), p)
  {
    hide Merge, ExtractStatusItem, ResetAction, Emitted, AllTell, Complete, Keeps;
    var status := ExtractStatusItem(msg.items).value;
    var x := LinkCharacteristicsResponse(mac, status.code, status.text, Merge(msg.items, s.destinations[mac].metrics));
    ResetEmitsNothing(s.peerHeartbeat);
    EmitsOnly([], x, ResetAction(s.peerHeartbeat));
    assert [] + [Emit(x)] + ResetAction(s.peerHeartbeat) == RouterLinkResponse(s, mac, msg).1;
    LinkTells(s, RouterLinkResponse(s, mac, msg).0, mac, x, p);
  }

  lemma SessionUpdateEmits(s: Router, msg: Message)
    requires ApplyStrict(FromItems(msg.items), s.peerAddresses).Some?
    ensures var changes := FromItems(msg.items);
            var addrs := ApplyStrict(changes, s.peerAddresses).value;
            Emitted(RouterSessionUpdate(s, msg).1)
            == (if changes != NO_CHANGES then [SessionAddressesUpdate(changes, addrs)] else [])
            + (if HasMetrics(msg.items) then [SessionMetricsUpdate(Merge(msg.items, s.sessionMetrics))] else [])
  {
    hide ApplyStrict, FromItems, Merge, ResetAction, HasMetrics, Fold;
    var changes := FromItems(msg.items);
    var addrs := ApplyStrict(changes, s.peerAddresses).value;
    var x := Emit(SessionAddressesUpdate(changes, addrs));
    var y := Emit(SessionMetricsUpdate(Merge(msg.items, s.sessionMetrics)));
    var a := [SendMessage(BuildSessionUpdateResponse(SUCCESS))];
    var b := if changes != NO_CHANGES then [x] else [];
    var c := if HasMetrics(msg.items) then [y] else [];
    EmittedIf(changes != NO_CHANGES, x);
    EmittedIf(HasMetrics(msg.items), y);
    EmittedConcat(b, c);
    ResetEmitsNothing(s.peerHeartbeat);
    EmittedAround(a, b + c, ResetAction(s.peerHeartbeat));
    assert RouterSessionUpdate(s, msg).1 == a + (b + c) + ResetAction(s.peerHeartbeat);
  }

  /** Session values replaced; with the metrics, those of every destination. */
  ghost predicate SessionReplaced(s: Router, t: Router, x: EmittedEvent, y: EmittedEvent) {
    && Rank(s.phase) >= 2 && t.destinations.Keys == s.destinations.Keys
    && t == s.(peerAddresses := t.peerAddresses, sessionMetrics := t.sessionMetrics, destinations := t.destinations)
    && (forall m :: m in s.destinations ==>
          t.destinations[m] == s.destinations[m].(metrics := t.destinations[m].metrics))
    && x.SessionAddressesUpdate? && x.addresses == t.peerAddresses
    && y == SessionMetricsUpdate(t.sessionMetrics)
  }

  lemma SessionTells(s: Router, t: Router, addresses: bool, x: EmittedEvent, metrics: bool, y: EmittedEvent)
    requires SessionReplaced(s, t, x, y)
    requires !metrics ==> t.sessionMetrics == s.sessionMetrics && t.destinations == s.destinations
    requires !addresses ==> t.peerAddresses == s.peerAddresses
    requires addresses ==> x.changes != NO_CHANGES && ApplyStrict(x.changes, s.peerAddresses) == Some(x.addresses)
    ensures AllTell(s, t, Some2(addresses, x, metrics, y)) && Complete(s, t, Some2(addresses, x, metrics, y))
  {
    hide ApplyStrict;
    var events := Some2(addresses, x, metrics, y);
    assert addresses ==> x in events;
    assert metrics ==> y in events && forall mac :: TellsMetrics(y, mac);
    assert forall z :: z in events ==> (z == x && addresses) || (z == y && metrics);
    hide Some2;
  }

  lemma SessionSeen(s: Router, t: Router, addresses: bool, x: EmittedEvent, metrics: bool, y: EmittedEvent, p: Picture)
    requires SessionReplaced(s, t, x, y)
    requires !metrics ==> t.sessionMetrics == s.sessionMetrics && t.destinations == s.destinations
    requires !addresses ==> t.peerAddresses == s.peerAddresses
    requires addresses ==> ApplyStrict(x.changes, s.peerAddresses) == Some(x.addresses)
    ensures Keeps(s, t, Some2(addresses, x, metrics, y), p)
  {
    hide ApplyStrict;
    SeeSome(p, addresses, x, metrics, y);
    hide Some2;
  }

  lemma SessionUpdateHonest(s: Router, msg: Message, p: Picture)
    requires Rank(s.phase) >= 2 && ApplyStrict(FromItems(msg.items), s.peerAddresses).Some?
    ensures Honest(s, RouterSessionUpdate(s, msg), p)
  {
    hide ApplyStrict, FromItems, Merge, ResetAction, HasMetrics, Emitted, AllTell, Complete, Keeps;
    SessionUpdateEmits(s, msg);
    NoChangeApplies(s.peerAddresses);
    if !HasMetrics(msg.items) { NoMetricsNoChange(msg.items, s.sessionMetrics); }
    var t := RouterSessionUpdate(s, msg).0;
    var changes := FromItems(msg.items);
    var x, y := SessionAddressesUpdate(changes, t.peerAddresses), SessionMetricsUpdate(t.sessionMetrics);
    SessionTells(s, t, changes != NO_CHANGES, x, HasMetrics(msg.items), y);
    SessionSeen(s, t, changes != NO_CHANGES, x, HasMetrics(msg.items), y, p);
  }

  lemma ArrivesHonest(s: Router, mac: MacAddress, msg: Message, p: Picture)
    requires mac !in s.destinations && Rank(s.phase) >= 2
    ensures Honest(s, RouterUp(s, mac, msg), p) && Honest(s, RouterAnnounceResponse(s, mac, msg), p)
  {
    hide NewDestination, ResetAction, Emitted, Honest, ExtractStatus;
    var d := NewDestination(s, mac, msg);
    var x := DestinationUpEvent(mac, d.metrics, d.addrs);
    var a := SendMessage(BuildDestinationUpResponse(mac, SUCCESS));
    ResetEmitsNothing(s.peerHeartbeat);
    EmitsOnly([a], x, ResetAction(s.peerHeartbeat));
    EmitsOnly([], x, ResetAction(s.peerHeartbeat));
    assert [a, Emit(x)] == [a] + [Emit(x)] && [] + [Emit(x)] == [Emit(x)];
    UpHonest(s, RouterUp(s, mac, msg), mac, d, p);
    if ExtractStatus(msg.items) == Some(SUCCESS) { UpHonest(s, RouterAnnounceResponse(s, mac, msg), mac, d, p); }
    else { SilentHonest(s, RouterAnnounceResponse(s, mac, msg), p); }
  }

  lemma LeavesHonest(s: Router, mac: MacAddress, msg: Message, p: Picture)
    requires mac in s.destinations && Rank(s.phase) >= 2
    ensures Honest(s, RouterDown(s, mac, msg), p)
    ensures ExtractStatus(msg.items).Some? ==> Honest(s, RouterDownResponse(s, mac, msg), p)
  {
    hide ResetAction, Emitted, Honest, ExtractStatus;
    var status := ExtractStatus(msg.items);
    var x := DestinationDownEvent(mac, if status.Some? then status.value else SUCCESS);
    var a := SendMessage(BuildDestinationDownResponse(mac, SUCCESS));
    ResetEmitsNothing(s.peerHeartbeat);
    EmitsOnly([a], x, ResetAction(s.peerHeartbeat));
    EmitsOnly([], x, ResetAction(s.peerHeartbeat));
    assert [a, Emit(x)] == [a] + [Emit(x)] && [] + [Emit(x)] == [Emit(x)];
    GoneHonest(s, RouterDown(s, mac, msg), mac, x.reason, p);
    if status.Some? { GoneHonest(s, RouterDownResponse(s, mac, msg), mac, x.reason, p); }
  }

  lemma PeerTerminatesHonest(s: Router, msg: Message, p: Picture)
    requires s.phase.InSession?
    ensures Honest(s, RouterPeerTerminates(s, msg), p)
  {
    hide Emitted, Honest, ExtractStatus;
    var r := RouterPeerTerminates(s, msg);
    EndsWith(r.1, r.1[4].event.reason);
    DownHonest(s, r, p, r.1[4].event.reason);
  }

  lemma AcceptHonest(s: Router, msg: Message, p: Picture)
    requires RouterInv(s) && s.phase.InSession? && RouterCheck(s, msg).None?
    ensures Honest(s, RouterAccept(s, msg), p)
  {
    AcceptedMessage(s, msg);
    hide RouterUp, RouterDown, RouterDownResponse, RouterAnnounceResponse, RouterLinkResponse, RouterCheck,
         RouterSessionUpdate, RouterUpdate, ResetAction, RouterPeerTerminates, Honest, ExtractStatus, Emitted,
         RouterOwnership;
    ResetEmitsNothing(s.peerHeartbeat);
    var mt := msg.messageType;
    if mt == SESSION_UPDATE { SessionUpdateHonest(s, msg, p); }
    else if mt == SESSION_UPDATE_RESPONSE || mt == HEARTBEAT { SilentHonest(s, RouterAccept(s, msg), p); }
    else if mt == SESSION_TERMINATION { PeerTerminatesHonest(s, msg, p); }
    else {
      var mac := ExtractMac(msg.items).value;
      if mt == DESTINATION_UP || mt == DESTINATION_ANNOUNCE_RESPONSE { ArrivesHonest(s, mac, msg, p); }
      else if mt == DESTINATION_UPDATE { UpdateHonest(s, mac, msg, p); }
      else if mt == DESTINATION_DOWN { LeavesHonest(s, mac, msg, p); }
      else if mt == DESTINATION_DOWN_RESPONSE {
        RI.StatusOf(msg.items);
        LeavesHonest(s, mac, msg, p);
      }
      else {
        LinkSlot(s, msg);
        LinkHonest(s, mac, msg, p);
      }
    }
  }

  lemma LinkSlot(s: Router, msg: Message)
    requires s.phase.InSession? && RouterCheck(s, msg).None?
    requires msg.messageType == LINK_CHARACTERISTICS_RESPONSE && ExtractMac(msg.items).Some?
    ensures Slot(s.tx, DestinationScope(ExtractMac(msg.items).value)) == Some(LinkCharacteristicsKind)
  {
    hide RouterContent, ExtractMac;
  }

  // --- The handshake --------------------------------------------------------

  lemma EstablishEmits(s: Router, msg: Message)
    ensures var t := RouterEstablish(s, msg).0;
            Emitted(RouterEstablish(s, msg).1)
            == [SessionUp(t.peerExtensions)]
               + Some2(true, SessionMetricsUpdate(t.sessionMetrics), t.peerAddresses != NO_ADDRS,
                       SessionAddressesUpdate(AddressChanges(t.peerAddresses, NO_ADDRS), t.peerAddresses))
  {
    hide FromItems, Merge, ResetAction, MetricTypes, ExtractHeartbeat, ExtractExtensions, Fold;
    var t := RouterEstablish(s, msg).0;
    var x := CancelTimer(TIMER_SESSION_INIT);
    var y := StartTimer(TIMER_HEARTBEAT, HeartbeatTimer, LocalHeartbeat(s.config), true);
    var u, v := Emit(SessionUp(t.peerExtensions)), Emit(SessionMetricsUpdate(t.sessionMetrics));
    var w := Emit(SessionAddressesUpdate(AddressChanges(t.peerAddresses, NO_ADDRS), t.peerAddresses));
    var head := [x, y] + ResetAction(t.peerHeartbeat);
    var c := if t.peerAddresses != NO_ADDRS then [w] else [];
    ResetEmitsNothing(t.peerHeartbeat);
    EmittedAround(head, [u, v] + c, []);
    EmittedConcat([u, v], c);
    assert [u, v] == [u] + [v];
    EmittedConcat([u], [v]);
    EmittedOne(u);
    EmittedOne(v);
    EmittedIf(t.peerAddresses != NO_ADDRS, w);
    assert RouterEstablish(s, msg).1 == head + ([u, v] + c) + [];
  }

  lemma EstablishTells(s: Router, t: Router, x: EmittedEvent, y: EmittedEvent, z: EmittedEvent)
    requires s.phase.Initializing? && Blank(s) && t.phase.InSession? && t.destinations == s.destinations
    requires x == SessionUp(t.peerExtensions) && y == SessionMetricsUpdate(t.sessionMetrics)
    requires z == SessionAddressesUpdate(AddressChanges(t.peerAddresses, NO_ADDRS), t.peerAddresses)
    requires CleanAddrs(t.peerAddresses)
    ensures var events := [x] + Some2(true, y, t.peerAddresses != NO_ADDRS, z);
            AllTell(s, t, events) && Complete(s, t, events)
  {
    FreshApplies(t.peerAddresses);
    hide ApplyStrict, CleanAddrs;
    var events := [x] + Some2(true, y, t.peerAddresses != NO_ADDRS, z);
    assert events[0] == x && events[1] == y;
    assert t.peerAddresses != NO_ADDRS ==> events[2] == z;
    assert forall e :: e in events ==> e == x || e == y || (e == z && t.peerAddresses != NO_ADDRS);
    hide Some2;
  }

  lemma EstablishSeen(s: Router, t: Router, x: EmittedEvent, y: EmittedEvent, z: EmittedEvent, p: Picture)
    requires s.phase.Initializing? && Blank(s) && t.phase.InSession? && t.destinations == s.destinations
    requires x == SessionUp(t.peerExtensions) && y == SessionMetricsUpdate(t.sessionMetrics)
    requires z == SessionAddressesUpdate(AddressChanges(t.peerAddresses, NO_ADDRS), t.peerAddresses)
    requires CleanAddrs(t.peerAddresses)
    ensures Keeps(s, t, [x] + Some2(true, y, t.peerAddresses != NO_ADDRS, z), p)
  {
    FreshApplies(t.peerAddresses);
    hide ApplyStrict, CleanAddrs, Some2;
    SeeConcat(p, [x], Some2(true, y, t.peerAddresses != NO_ADDRS, z));
    SeeOne(p, x);
    SeeSome(p, true, y, t.peerAddresses != NO_ADDRS, z);
  }

  lemma EstablishHonest(s: Router, msg: Message, p: Picture)
    requires RouterInv(s) && s.phase.Initializing? && RouterCheck(s, msg).None?
    requires msg.messageType == SESSION_INITIALIZATION_RESPONSE
    ensures Honest(s, RouterEstablish(s, msg), p)
  {
    var t := RouterEstablish(s, msg).0;
    assert CleanAddrs(t.peerAddresses) by { RI.EstablishKept(s, msg); }
    hide RouterCheck, FromItems, Merge, ResetAction, MetricTypes, ExtractHeartbeat, ExtractExtensions, Emitted,
         AllTell, Complete, Keeps, CleanAddrs, Some2, RouterOwnership, RouterSlots;
    EstablishEmits(s, msg);
    var x, y := SessionUp(t.peerExtensions), SessionMetricsUpdate(t.sessionMetrics);
    var z := SessionAddressesUpdate(AddressChanges(t.peerAddresses, NO_ADDRS), t.peerAddresses);
    EstablishTells(s, t, x, y, z);
    EstablishSeen(s, t, x, y, z, p);
  }

  lemma FailHonest(s: Router, status: DataItem, p: Picture)
    requires status.Status?
    ensures Honest(s, RouterFail(s, status), p)
  {
    EmittedNothing(RouterFail(s, status).1);
    hide Honest, Emitted;
    SilentHonest(s, RouterFail(s, status), p);
  }

  lemma CloseHonest(s: Router, reason: u8, cancels: seq<Action>, p: Picture)
    requires !s.phase.Terminated? && forall i :: 0 <= i < |cancels| ==> !cancels[i].Emit?
    ensures Honest(s, RouterSpec.Close(s, reason, cancels), p)
  {
    hide Honest, Emitted;
    var r := RouterSpec.Close(s, reason, cancels);
    EndsWith(r.1, reason);
    DownHonest(s, r, p, reason);
  }

  lemma StillHonest(s: Router, p: Picture)
    ensures Honest(s, (s, []), p)
  {
    EmittedNothing([]);
    hide Honest, Emitted;
    SilentHonest(s, (s, []), p);
  }

  lemma ReceiveHonest(s: Router, msg: Message, p: Picture)
    requires RouterInv(s)
    ensures Honest(s, RouterReceive(s, msg), p)
  {
    hide RouterAccept, RouterEstablish, RouterCheck, RouterFail, RouterSpec.Close, FatalStatus, ExtractStatus,
         InitFailedText, Honest, RouterInv;
    assert RouterSlots(s) by { RI.SlotsOf(s); }
    hide RouterSlots;
    StillHonest(s, p);
    if RouterVerdict(s, msg).Some? { FailHonest(s, RouterVerdict(s, msg).value, p); }
    else if s.phase.Initializing? {
      FailHonest(s, Status(UNEXPECTED_MESSAGE, InitFailedText()), p);
      CloseHonest(s, INVALID_DATA, [CancelTimer(TIMER_SESSION_INIT)], p);
      if msg.messageType == SESSION_INITIALIZATION_RESPONSE { EstablishHonest(s, msg, p); }
    }
    else if s.phase.InSession? { AcceptHonest(s, msg, p); }
    else if s.phase.Terminating? { CloseHonest(s, s.terminationReason, [CancelTimer(TIMER_TERMINATION)], p); }
  }

  lemma CommandHonest(s: Router, e: Event, p: Picture)
    requires Command(e).Some? && RouterCommandError(s, e).None?
    ensures Honest(s, RouterCommand(s, e), p)
  {
    hide ApplyLenient, LocalChange, LocalUpdateOk, BuildAddressUpdate, BuildLinkRequest, Honest, Emitted,
         MessageEncodable;
    EmittedNothing(RouterCommand(s, e).1);
    SilentHonest(s, RouterCommand(s, e), p);
  }

  lemma LocalHonest(s: Router, e: Event, p: Picture)
    ensures Honest(s, RouterLocal(s, e), p)
  {
    hide RouterSpec.Close, Honest, Emitted, ResetAction, BuildInitialization, StartTermination, RouterTerminate;
    StillHonest(s, p);
    ResetEmitsNothing(s.peerHeartbeat);
    var r := RouterLocal(s, e);
    match (s.phase, e)
    case (Initializing, TimerExpired(_, SessionInitTimer)) => CloseHonest(s, TIMED_OUT, [], p);
    case (Initializing, TcpClosed) => LocalEnds(s, r, TIMED_OUT, p);
    case (Initializing, AppShutdown(reason)) => CloseHonest(s, reason, [CancelTimer(TIMER_SESSION_INIT)], p);
    case (InSession, TcpClosed) => LocalEnds(s, r, TIMED_OUT, p);
    case (InSession, TimerExpired(_, HeartbeatMissedTimer)) =>
      TerminateHonest(s, TIMED_OUT, [CancelTimer(TIMER_HEARTBEAT)], p);
    case (InSession, AppShutdown(reason)) =>
      TerminateHonest(s, reason, [CancelTimer(TIMER_HEARTBEAT), CancelTimer(TIMER_HEARTBEAT_MISSED)], p);
    case (Terminating, TimerExpired(_, TerminationTimer)) => CloseHonest(s, TIMED_OUT, [], p);
    case (Terminating, TcpClosed) => LocalEnds(s, r, s.terminationReason, p);
    case (Unconnected, TcpConnected) => LocalSilent(s, r, p);
    case (Unconnected, AppShutdown(_)) => LocalSilent(s, r, p);
    case (Unconnected, TcpClosed) => LocalSilent(s, r, p);
    case (InSession, RecvExtensionMessage) => LocalSilent(s, r, p);
    case (InSession, TimerExpired(_, HeartbeatTimer)) => LocalSilent(s, r, p);
    case _ =>
  }

  lemma LocalEnds(s: Router, r: Outcome, reason: u8, p: Picture)
    requires !s.phase.Terminated? && r.0 == s.(phase := Terminated)
    requires |r.1| > 0 && r.1[|r.1| - 1] == Emit(SessionDown(reason))
    requires forall i :: 0 <= i < |r.1| - 1 ==> !r.1[i].Emit?
    ensures Honest(s, r, p)
  {
    hide Honest, Emitted;
    EndsWith(r.1, reason);
    DownHonest(s, r, p, reason);
  }

  lemma LocalSilent(s: Router, r: Outcome, p: Picture)
    requires r.0 == s.(phase := r.0.phase) && Rank(r.0.phase) >= Rank(s.phase)
    requires r.0.phase.InSession? ==> s.phase.InSession?
    requires forall i :: 0 <= i < |r.1| ==> !r.1[i].Emit?
    ensures Honest(s, r, p)
  {
    hide Honest, Emitted;
    EmittedNothing(r.1);
    SilentHonest(s, r, p);
  }

  lemma TerminateHonest(s: Router, reason: u8, cancels: seq<Action>, p: Picture)
    requires s.phase.InSession? && forall i :: 0 <= i < |cancels| ==> !cancels[i].Emit?
    ensures Honest(s, RouterTerminate(s, reason, cancels), p)
  {
    hide Honest, Emitted;
    EmittedNothing(RouterTerminate(s, reason, cancels).1);
    SilentHonest(s, RouterTerminate(s, reason, cancels), p);
  }

  /** For any event in any state of the invariant: every event emitted carries the
      resulting values, every change is reported, and a listener whose picture was
      right still has it right. */
  lemma StepHonest(s: Router, e: Event, p: Picture)
    requires RouterInv(s)
    ensures RouterSlots(s) && Honest(s, RouterStep(s, e), p)
  {
    hide RouterReceive, RouterCommand, RouterLocal, RouterCommandError, RouterInv, RouterFail, Reject, Honest;
    assert RouterSlots(s) by { RI.SlotsOf(s); }
    hide RouterSlots;
    if Command(e).Some? {
      if RouterCommandError(s, e).None? { CommandHonest(s, e, p); }
      else { RejectHonest(s, e, RouterCommandError(s, e).value, p); }
    }
    else if e.RecvMessage? { ReceiveHonest(s, e.msg, p); }
    else if e.ProtocolError? { FailHonest(s, Status(e.code, []), p); }
    else { LocalHonest(s, e, p); }
  }

  /** Over every run with any peer: an application that only listens knows the
      destinations, their addresses, the session's metrics and the peer's addresses
      exactly, is never told a change that does not apply to what it knows, and
      every destination metric it knows is current. */
  lemma {:induction false} ListenerAgrees(config: SessionConfig, events: seq<Event>)
    ensures var (t, actions) := RI.RunFromNew(config, events); InView(t, SeeAll(NOTHING_SEEN, Emitted(actions)))
  {
    RI.NewRouterOk(config);
    var s := NewRouter(config);
    hide RouterStep, RouterInv, InView, See;
    if |events| == 0 {
      EmittedNothing([]);
      NewInView(config);
    } else {
      var front, e := events[..|events| - 1], events[|events| - 1];
      ListenerAgrees(config, front);
      var (t, before) := RI.RouterRun(s, front);
      var p := SeeAll(NOTHING_SEEN, Emitted(before));
      StepHonest(t, e, p);
      var actions := RouterStep(t, e).1;
      assert Keeps(t, RouterStep(t, e).0, Emitted(actions), p);
      EmittedConcat(before, actions);
      SeeConcat(NOTHING_SEEN, Emitted(before), Emitted(actions));
    }
  }

  lemma NewInView(config: SessionConfig)
    ensures InView(NewRouter(config), NOTHING_SEEN)
  {
  }
}
