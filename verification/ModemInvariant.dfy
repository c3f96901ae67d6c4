/** Properties of the modem machine against any router and any application: its
    invariant and its timers.
 */
module ModemInvariant {
  import opened Types
  import opened Addresses
  import opened Messages
  import opened Transactions
  import opened Validation
  import opened Session
  import opened ModemSpec

  ghost predicate Kept(s: Modem, t: Modem) {
    ModemInv(t) && t.config == s.config && Rank(t.phase) >= Rank(s.phase)
  }

  /** Changing one destination, or none. */
  lemma OneChanged(s: Modem, t: Modem, mac: MacAddress)
    requires ModemInv(s) && s.phase.InSession? && t.phase.InSession?
    requires t.config == s.config && t.peerHeartbeat == s.peerHeartbeat
    requires t.sessionMetrics == s.sessionMetrics
    requires CleanAddrs(t.peerAddresses) && CleanAddrs(t.localAddresses)
    requires forall m :: m in t.destinations && m != mac ==>
               m in s.destinations && t.destinations[m] == s.destinations[m]
    requires mac in t.destinations ==> DestinationOk(t.destinations[mac], s.config.initialMetrics)
    requires ModemSlots(t)
    ensures Kept(s, t)
  {
    hide DestinationOk, CleanAddrs;
  }

  lemma PhaseOnly(s: Modem, t: Modem)
    requires ModemInv(s)
    requires t == s.(phase := t.phase, terminationReason := t.terminationReason)
    requires Rank(t.phase) >= 3 && Rank(t.phase) >= Rank(s.phase)
    ensures Kept(s, t)
  {
    hide DestinationOk, CleanAddrs;
  }

  lemma SupportKept(delta: LinkMetrics, base: LinkMetrics, initial: LinkMetrics)
    requires SupportedBy(delta, initial) && SameSupport(base, initial)
    ensures SameSupport(Overlay(delta, base), initial)
    ensures MetricsEncodable(delta) && MetricsEncodable(base) ==> MetricsEncodable(Overlay(delta, base))
  {
  }

  /** A peer that receives each delta in turn. */
  function MergeEach(deltas: seq<LinkMetrics>, held: LinkMetrics): LinkMetrics {
    if |deltas| == 0 then held
    else Merge(MetricItems(deltas[|deltas| - 1]), MergeEach(deltas[..|deltas| - 1], held))
  }

  /** Deltas held back and sent once, as the full set they add up to, leave a peer
      where sending each in turn would have. */
  lemma {:induction false} CoalescedMetrics(deltas: seq<LinkMetrics>, held: LinkMetrics, initial: LinkMetrics)
    requires SameSupport(held, initial)
    requires forall i :: 0 <= i < |deltas| ==> SupportedBy(deltas[i], initial)
    ensures SameSupport(MergeEach(deltas, held), initial)
    ensures Merge(MetricItems(MergeEach(deltas, held)), held) == MergeEach(deltas, held)
  {
    hide Merge, MetricItems, Overlay;
    if |deltas| > 0 {
      var front, last := deltas[..|deltas| - 1], deltas[|deltas| - 1];
      CoalescedMetrics(front, held, initial);
      MergeBuilt(last, MergeEach(front, held));
      SupportKept(last, MergeEach(front, held), initial);
    }
    MergeBuilt(MergeEach(deltas, held), held);
    OverlayReplaces(MergeEach(deltas, held), held);
  }

  /** A metric set that can be sent is in range. */
  lemma SendableMetrics(m: LinkMetrics)
    requires MessageEncodable(BuildSessionUpdate(m))
    ensures MetricsEncodable(m)
  {
    hide MetricItems, MessageEncodable;
    MetricsHeld(m);
    AllFit(BuildSessionUpdate(m));
  }

  lemma AllFit(msg: Message)
    requires MessageEncodable(msg)
    ensures forall x :: x in msg.items ==> Encodable(x)
  {
    hide Encodable, BodyLength;
  }

  lemma MetricsHeld(m: LinkMetrics)
    ensures var items := MetricItems(m);
            && Latency(m.latency) in items
            && (m.resources.Some? ==> Resources(m.resources.value) in items)
            && (m.rlqRx.Some? ==> RelativeLinkQualityReceive(m.rlqRx.value) in items)
            && (m.rlqTx.Some? ==> RelativeLinkQualityTransmit(m.rlqTx.value) in items)
  {
    assert MandatoryItems(m)[4] == Latency(m.latency);
    forall x | x in MandatoryItems(m) || x in OptionalItems(m) ensures x in MetricItems(m) {}
    hide MetricItems, MandatoryItems;
    OptionalHeld(m);
  }

  lemma OptionalHeld(m: LinkMetrics)
    ensures var items := OptionalItems(m);
            && (m.resources.Some? ==> Resources(m.resources.value) in items)
            && (m.rlqRx.Some? ==> RelativeLinkQualityReceive(m.rlqRx.value) in items)
            && (m.rlqTx.Some? ==> RelativeLinkQualityTransmit(m.rlqTx.value) in items)
  {
  }

  lemma UpResponseKept(s: Modem, mac: MacAddress, msg: Message)
    requires ModemInv(s) && s.phase.InSession? && mac in s.destinations
    requires mac in s.tx.perDestination && s.tx.perDestination[mac] == DestinationUp
    ensures Kept(s, ModemUpResponse(s, mac, msg).0)
  {
    hide ExtractStatus, CleanAddrs, SameAddrs, Between;
    var t := ModemUpResponse(s, mac, msg).0;
    var d := s.destinations[mac];
    EmptyDifference(d.advertised, d.addrs);
    assert SameAddrs(d.addrs, d.addrs) by { SameItself(d.addrs); }
    OneChanged(s, t, mac);
  }

  lemma SameItself(a: DestinationAddrs)
    ensures SameAddrs(a, a)
  {
  }

  lemma DownKept(s: Modem, mac: MacAddress)
    requires ModemInv(s) && s.phase.InSession? && mac in s.destinations
    requires mac !in s.tx.perDestination && mac !in s.pendingLinks
    ensures Kept(s, ModemDown(s, mac).0)
  {
    hide CleanAddrs, SameAddrs;
    OneChanged(s, ModemDown(s, mac).0, mac);
  }

  lemma DownResponseKept(s: Modem, mac: MacAddress)
    requires ModemInv(s) && s.phase.InSession? && mac in s.tx.perDestination
    ensures Kept(s, ModemDownResponse(s, mac).0)
  {
    hide CleanAddrs, SameAddrs;
    OneChanged(s, ModemDownResponse(s, mac).0, mac);
  }

  lemma SessionUpdateKept(s: Modem, msg: Message)
    requires ModemInv(s) && s.phase.InSession? && ApplyStrict(FromItems(msg.items), s.peerAddresses).Some?
    ensures Kept(s, ModemSessionUpdate(s, msg).0)
  {
    hide CleanAddrs, DestinationOk, ApplyLenient, FromItems, Validate, StrictlyApplies, Canonical;
    LenientKeepsClean(Canonical(FromItems(msg.items)), s.peerAddresses);
  }

  lemma AnnounceKept(s: Modem, mac: MacAddress, msg: Message)
    requires ModemInv(s) && s.phase.InSession? && mac !in s.tx.perDestination
    ensures Kept(s, ModemAnnounce(s, mac, msg).0)
  {
    hide CleanAddrs, SameAddrs, FromItems;
    if mac in s.destinations {
      SameItself(s.destinations[mac].addrs);
      OneChanged(s, ModemAnnounce(s, mac, msg).0, mac);
    }
  }

  lemma LinkRequestKept(s: Modem, mac: MacAddress, msg: Message)
    requires ModemInv(s) && s.phase.InSession? && mac in s.destinations
    requires s.destinations[mac].announced && mac !in s.tx.perDestination
    ensures Kept(s, ModemLinkRequest(s, mac, msg).0)
  {
    hide CleanAddrs, DestinationOk;
  }

  lemma EstablishKept(s: Modem, msg: Message)
    requires ModemInv(s) && s.phase.Initializing? && ModemCheck(s, msg).None?
    ensures Kept(s, ModemEstablish(s, msg).0)
  {
    hide DestinationOk;
    ValidatedIsClean(msg.items);
    HeartbeatRequired(s, msg);
  }

  lemma HeartbeatRequired(s: Modem, msg: Message)
    requires s.phase.Initializing? && ModemCheck(s, msg).None?
    ensures LiveInterval(ExtractHeartbeat(msg.items))
  {
    hide ApplyStrict;
    HeartbeatPresent(msg.items);
    assert HasType(msg.items, HEARTBEAT_INTERVAL);
    var x :| x in msg.items && !x.Unknown? && TypeId(x) == HEARTBEAT_INTERVAL;
    var i :| 0 <= i < |msg.items| && msg.items[i] == x;
    assert msg.items[i].HeartbeatInterval?;
    EncodableIntervalIsLive(ExtractHeartbeat(msg.items).value);
  }

  /** What the transaction check settled about an accepted message. */
  lemma Settled(s: Modem, msg: Message)
    requires s.phase.InSession? && ModemCheck(s, msg).None? && ExtractMac(msg.items).Some?
    ensures var mt, mac := msg.messageType, ExtractMac(msg.items).value;
            && (mt == DESTINATION_UP_RESPONSE ==> Slot(s.tx, DestinationScope(mac)) == Some(DestinationUp))
            && (mt == DESTINATION_DOWN_RESPONSE ==> Slot(s.tx, DestinationScope(mac)) == Some(DestinationDown))
            && (mt == DESTINATION_ANNOUNCE ==> mac !in s.tx.perDestination && !Known(s, Some(mac)))
            && (mt == DESTINATION_DOWN || mt == LINK_CHARACTERISTICS_REQUEST ==>
                  mac !in s.tx.perDestination && mac !in s.pendingLinks && Known(s, Some(mac)))
  {
    hide ModemContent;
  }

  lemma AcceptKept(s: Modem, msg: Message)
    requires ModemInv(s) && s.phase.InSession? && ModemCheck(s, msg).None?
    ensures Kept(s, ModemAccept(s, msg).0)
  {
    hide ModemData, ModemUpResponse, ModemDown, ModemDownResponse, ModemAnnounce, ModemLinkRequest, ModemSessionUpdate;
    AcceptedMessage(s, msg);
    if ExtractMac(msg.items).Some? { Settled(s, msg); }
    hide ModemCheck;
    var mt, mac := msg.messageType, ExtractMac(msg.items);
    if mt == SESSION_TERMINATION { PhaseOnly(s, ModemAccept(s, msg).0); }
    else if mt == SESSION_UPDATE { SessionUpdateKept(s, msg); }
    else if mt == SESSION_UPDATE_RESPONSE || mt == HEARTBEAT { TxOnly(s, ModemAccept(s, msg).0); }
    else if mt == DESTINATION_UP_RESPONSE { UpResponseKept(s, mac.value, msg); }
    else if mt == DESTINATION_ANNOUNCE { AnnounceKept(s, mac.value, msg); }
    else if mt == DESTINATION_DOWN { DownKept(s, mac.value); }
    else if mt == DESTINATION_DOWN_RESPONSE { DownResponseKept(s, mac.value); }
    else { LinkRequestKept(s, mac.value, msg); }
  }

  lemma TxOnly(s: Modem, t: Modem)
    requires ModemInv(s) && t == s.(tx := t.tx) && ModemSlots(t) && s.phase.InSession?
    ensures Kept(s, t)
  {
    hide CleanAddrs, DestinationOk;
  }

  lemma ReceiveKept(s: Modem, msg: Message)
    requires ModemInv(s)
    ensures Kept(s, ModemReceive(s, msg).0)
  {
    hide ModemAccept, ModemEstablish, ModemCheck, ModemData;
    var t := ModemReceive(s, msg).0;
    if ModemVerdict(s, msg).Some? { PhaseOnly(s, t); }
    else if s.phase.Initializing? {
      if msg.messageType == SESSION_INITIALIZATION { EstablishKept(s, msg); } else { PhaseOnly(s, t); }
    }
    else if s.phase.InSession? { AcceptKept(s, msg); }
    else if s.phase.Terminating? || s.phase.Terminated? { PhaseOnly(s, t); }
  }

  lemma AddKept(s: Modem, mac: MacAddress, metrics: LinkMetrics, addrs: DestinationAddrs)
    requires ModemInv(s) && s.phase.InSession? && mac !in s.destinations
    requires ValidMetrics(s, metrics) && Validate(AddressChanges(addrs, NO_ADDRS))
    ensures Kept(s, ModemAdd(s, mac, metrics, addrs).0)
  {
    hide CleanAddrs, SameAddrs, CanonicalAddrs, Validate, Overlay, SameSupport, MetricsEncodable, MessageEncodable;
    SendableMetrics(metrics);
    SupportKept(metrics, s.sessionMetrics, s.config.initialMetrics);
    AddedIsClean(addrs);
    SameItself(CanonicalAddrs(CanonicalAddrs(addrs)));
    OneChanged(s, ModemAdd(s, mac, metrics, addrs).0, mac);
  }

  lemma AddedIsClean(addrs: DestinationAddrs)
    requires Validate(AddressChanges(addrs, NO_ADDRS))
    ensures CleanAddrs(CanonicalAddrs(addrs))
    ensures CanonicalAddrs(CanonicalAddrs(addrs)) == CanonicalAddrs(addrs)
  {
    CanonicalTwice(addrs);
    var a, n := CanonicalAddrs(addrs), CanonicalAddrs(NO_ADDRS);
    ValidFamilyMeans(a.v4, n.v4);
    ValidFamilyMeans(a.v6, n.v6);
    ValidFamilyMeans(a.v4Subnets, n.v4Subnets);
    ValidFamilyMeans(a.v6Subnets, n.v6Subnets);
  }

  lemma DropKept(s: Modem, mac: MacAddress)
    requires ModemInv(s) && s.phase.InSession? && mac in s.destinations
    requires mac !in s.pendingLinks && mac !in s.tx.perDestination
    ensures Kept(s, ModemDrop(s, mac).0)
  {
    hide CleanAddrs, SameAddrs;
    OneChanged(s, ModemDrop(s, mac).0, mac);
  }

  lemma UpdateMetricsKept(s: Modem, mac: MacAddress, metrics: LinkMetrics)
    requires ModemInv(s) && s.phase.InSession? && mac in s.destinations && ValidMetrics(s, metrics)
    requires mac in s.tx.perDestination ==> s.tx.perDestination[mac] == DestinationUp
    ensures Kept(s, ModemUpdateMetrics(s, mac, metrics).0)
  {
    hide CleanAddrs, SameAddrs, Overlay, SameSupport, MetricsEncodable, MessageEncodable, Merge, BuildSessionUpdate,
         BuildDestinationUpdate;
    var t := ModemUpdateMetrics(s, mac, metrics).0;
    assert DestinationOk(t.destinations[mac], s.config.initialMetrics) by {
      NewMetricsOk(s.destinations[mac], t.destinations[mac], metrics, s.config.initialMetrics);
    }
    hide DestinationOk, ValidMetrics, ModemSlots;
    MetricsSlots(s, mac, metrics);
    OneChanged(s, t, mac);
  }

  lemma MetricsSlots(s: Modem, mac: MacAddress, metrics: LinkMetrics)
    requires ModemSlots(s) && mac in s.destinations
    requires mac in s.tx.perDestination ==> s.tx.perDestination[mac] == DestinationUp
    ensures ModemSlots(ModemUpdateMetrics(s, mac, metrics).0)
  {
    hide Overlay, Merge, BuildDestinationUpdate;
  }

  lemma NewMetricsOk(d: ModemDestination, e: ModemDestination, metrics: LinkMetrics, initial: LinkMetrics)
    requires DestinationOk(d, initial) && SupportedBy(metrics, initial) && MessageEncodable(BuildSessionUpdate(metrics))
    requires e == d.(metrics := Overlay(metrics, d.metrics), pendingMetrics := e.pendingMetrics)
    ensures DestinationOk(e, initial)
  {
    hide CleanAddrs, SameAddrs, Overlay, SameSupport, MetricsEncodable, MessageEncodable;
    SendableMetrics(metrics);
    SupportKept(metrics, d.metrics, initial);
  }

  lemma UpdateAddressesKept(s: Modem, mac: MacAddress, changes: AddressChanges)
    requires ModemInv(s) && s.phase.InSession? && mac in s.destinations
    requires mac in s.tx.perDestination ==> s.tx.perDestination[mac] == DestinationUp
    ensures Kept(s, ModemUpdateAddresses(s, mac, changes).0)
  {
    hide CleanAddrs, SameAddrs, ApplyLenient, Between;
    var d := s.destinations[mac];
    var desired := ApplyLenient(changes, d.addrs);
    LenientKeepsClean(changes, d.addrs);
    EmptyDifference(d.advertised, desired);
    SameItself(desired);
    var t := ModemUpdateAddresses(s, mac, changes).0;
    assert t.destinations[mac] == d.(addrs := desired)
           || t.destinations[mac] == d.(addrs := desired, advertised := desired);
    assert DestinationOk(t.destinations[mac], s.config.initialMetrics);
    assert t == s.(destinations := s.destinations[mac := t.destinations[mac]]);
    SameFlags(s, t, mac);
    hide ModemUpdateAddresses, DestinationOk;
    OneChanged(s, t, mac);
  }

  /** Slots depend on the flags of a destination only. */
  lemma SameFlags(s: Modem, t: Modem, mac: MacAddress)
    requires ModemSlots(s) && mac in s.destinations && mac in t.destinations
    requires t == s.(destinations := s.destinations[mac := t.destinations[mac]])
    requires t.destinations[mac].announced == s.destinations[mac].announced
    requires t.destinations[mac].pendingMetrics == s.destinations[mac].pendingMetrics
    ensures ModemSlots(t)
  {
  }

  lemma UpdateSessionKept(s: Modem, metrics: LinkMetrics)
    requires ModemInv(s) && s.phase.InSession? && ValidMetrics(s, metrics)
    ensures Kept(s, ModemUpdateSession(s, metrics).0)
  {
    hide CleanAddrs, SameAddrs, Overlay, SameSupport, MetricsEncodable, MessageEncodable;
    var t := ModemUpdateSession(s, metrics).0;
    SendableMetrics(metrics);
    SupportKept(metrics, s.sessionMetrics, s.config.initialMetrics);
    forall m | m in t.destinations ensures DestinationOk(t.destinations[m], s.config.initialMetrics) {
      SupportKept(metrics, s.destinations[m].metrics, s.config.initialMetrics);
    }
  }

  lemma AnswerKept(s: Modem, mac: MacAddress, status: u8, text: Text, reported: Option<LinkMetrics>)
    requires ModemInv(s) && s.phase.InSession? && mac in s.pendingLinks
    requires reported.Some? ==> ValidMetrics(s, reported.value)
    ensures Kept(s, ModemAnswer(s, mac, status, text, reported).0)
  {
    hide CleanAddrs, SameAddrs, Overlay, SameSupport, MetricsEncodable, MessageEncodable;
    if reported.Some? {
      SendableMetrics(reported.value);
      SupportKept(reported.value, s.destinations[mac].metrics, s.config.initialMetrics);
    }
    OneChanged(s, ModemAnswer(s, mac, status, text, reported).0, mac);
  }

  lemma LocalKept(s: Modem, changes: AddressChanges)
    requires ModemInv(s) && s.phase.InSession?
    ensures var (tx, local, _) := LocalUpdate(s.tx, s.localAddresses, changes);
            Kept(s, s.(tx := tx, localAddresses := local))
  {
    hide CleanAddrs, DestinationOk, ApplyLenient, LocalUpdateOk, LocalChange;
    LenientKeepsClean(changes, s.localAddresses);
  }

  /** What preflight settled about an accepted command. */
  lemma CommandSettled(s: Modem, e: Event)
    requires ModemSlots(s) && Command(e).Some? && ModemCommandError(s, e).None?
    ensures s.phase.InSession?
    ensures e.AppAddDestination? ==>
              && e.mac !in s.destinations && e.mac !in s.tx.perDestination && Accepts(s.config.macFormat, e.mac)
              && ValidMetrics(s, e.metrics) && Validate(AddressChanges(e.addrs, NO_ADDRS))
    ensures e.AppDropDestination? ==>
              e.mac in s.destinations && e.mac !in s.pendingLinks && e.mac !in s.tx.perDestination
              && Accepts(s.config.macFormat, e.mac)
    ensures e.AppUpdateMetrics? ==>
              e.mac in s.destinations && ValidMetrics(s, e.metrics) && Accepts(s.config.macFormat, e.mac)
    ensures e.AppUpdateAddresses? ==> e.mac in s.destinations && Accepts(s.config.macFormat, e.mac)
    ensures (e.AppUpdateMetrics? || e.AppUpdateAddresses?) && e.mac in s.tx.perDestination ==>
              s.tx.perDestination[e.mac] == DestinationUp
    ensures e.AppSessionUpdate? ==> ValidMetrics(s, e.metrics) && s.tx.session.None?
    ensures e.AppSessionAddresses? ==> s.tx.session.None? && LocalUpdateOk(s.localAddresses, e.changes)
    ensures e.AppLinkCharacteristicsResponse? ==>
              && e.mac in s.pendingLinks && e.mac in s.destinations && Accepts(s.config.macFormat, e.mac)
              && !TerminatesSession(e.status)
              && (e.reported.Some? ==> ValidMetrics(s, e.reported.value))
              && var metrics := Reported(s.destinations[e.mac].metrics, e.reported);
                 MessageEncodable(BuildLinkResponse(e.mac, e.status, e.text, metrics))
    ensures !e.AppAnnounceDestination? && !e.AppRequestLinkCharacteristics?
  {
    hide ValidMetrics, Validate, MessageEncodable, ApplyLenient, BuildDestinationUp, BuildLinkResponse, LocalUpdateOk;
  }

  lemma CommandKept(s: Modem, e: Event)
    requires ModemInv(s) && Command(e).Some? && ModemCommandError(s, e).None?
    ensures Kept(s, ModemCommand(s, e).0)
  {
    hide ModemInv, ModemAdd, ModemDrop, ModemUpdateMetrics, ModemUpdateAddresses, ModemUpdateSession, ModemAnswer,
      LocalUpdate, ValidMetrics, Validate, MessageEncodable, LocalUpdateOk;
    SlotsOf(s);
    CommandSettled(s, e);
    match e
    case AppAddDestination(mac, metrics, addrs) => AddKept(s, mac, metrics, addrs);
    case AppDropDestination(mac, _) => DropKept(s, mac);
    case AppUpdateMetrics(mac, metrics) => UpdateMetricsKept(s, mac, metrics);
    case AppUpdateAddresses(mac, changes) => UpdateAddressesKept(s, mac, changes);
    case AppSessionUpdate(metrics) => UpdateSessionKept(s, metrics);
    case AppLinkCharacteristicsResponse(mac, status, text, reported) => AnswerKept(s, mac, status, text, reported);
    case AppSessionAddresses(changes) => LocalKept(s, changes);
    case AppAnnounceDestination(mac) =>
    case AppRequestLinkCharacteristics(mac, requested) =>
  }

  lemma LocalEventKept(s: Modem, e: Event)
    requires ModemInv(s)
    ensures Kept(s, ModemLocal(s, e).0)
  {
    hide ModemData;
    var t := ModemLocal(s, e).0;
    if Rank(t.phase) >= 3 { PhaseOnly(s, t); } else { SameData(s, t); }
  }

  lemma SameData(s: Modem, t: Modem)
    requires ModemData(s) && t == s.(phase := t.phase)
    ensures ModemData(t)
  {
    hide CleanAddrs, DestinationOk;
  }

  lemma FailKept(s: Modem, status: DataItem)
    requires ModemInv(s) && status.Status?
    ensures Kept(s, ModemFail(s, status).0)
  {
    hide ModemData;
    if Rank(s.phase) < 3 { PhaseOnly(s, ModemFail(s, status).0); }
  }

  /** Every step keeps the invariant, for every event and every message: open
      requests and deferred answers stay tied to announced destinations, no
      update is held back once announced, and what is advertised is current. */
  lemma ModemStepKeepsInvariant(s: Modem, e: Event)
    requires ModemInv(s)
    ensures ModemInv(ModemStep(s, e).0)
    ensures ModemStep(s, e).0.config == s.config
    ensures Rank(ModemStep(s, e).0.phase) >= Rank(s.phase)
  {
    hide ModemReceive, ModemCommand, ModemLocal, ModemCommandError, ModemInv, ModemFail;
    if Command(e).Some? {
      assert ModemSlots(s) by { SlotsOf(s); }
      if ModemCommandError(s, e).None? { CommandKept(s, e); }
    } else if e.RecvMessage? {
      ReceiveKept(s, e.msg);
    } else if e.ProtocolError? {
      FailKept(s, Status(e.code, []));
    } else {
      LocalEventKept(s, e);
    }
  }

  lemma SlotsOf(s: Modem)
    requires ModemInv(s)
    ensures ModemSlots(s)
  {
  }

  lemma NewModemOk(config: SessionConfig)
    ensures ModemInv(NewModem(config))
  {
  }

  ghost function ModemRun(s: Modem, events: seq<Event>): Outcome
    requires ModemInv(s)
    ensures ModemInv(ModemRun(s, events).0)
  {
    if |events| == 0 then (s, []) else
      var (t, before) := ModemRun(s, events[..|events| - 1]);
      ModemStepKeepsInvariant(t, events[|events| - 1]);
      var (u, actions) := ModemStep(t, events[|events| - 1]);
      (u, before + actions)
  }

  ghost function RunFromNew(config: SessionConfig, events: seq<Event>): Outcome {
    NewModemOk(config);
    ModemRun(NewModem(config), events)
  }

  // --- Timers ---------------------------------------------------------------

  ghost predicate Timed(s: Modem, armed: Armed) {
    TimersFor(s.phase, s.config, s.peerHeartbeat, armed)
  }

  ghost predicate OutcomeTimed(r: Outcome, armed: Armed) { Timed(r.0, ArmAll(armed, r.1)) }

  lemma AcceptedMessageRearms(s: Modem, msg: Message)
    requires ModemInv(s) && s.phase.InSession? && ModemCheck(s, msg).None? && msg.messageType != SESSION_TERMINATION
    ensures var (t, actions) := ModemAccept(s, msg);
            && t.phase.InSession? && t.peerHeartbeat == s.peerHeartbeat && s.peerHeartbeat.Some?
            && |actions| > 0
            && actions == actions[..|actions| - 1] + ResetAction(s.peerHeartbeat)
            && NoTimers(actions[..|actions| - 1])
            && actions[|actions| - 1] == ResetHeartbeat(TIMER_HEARTBEAT_MISSED, 2 * s.peerHeartbeat.value)
  {
    hide ModemData, Between, ExtractStatus, FromItems, CatchUp, ApplyStrict, ExtractLinkCharacteristics;
    AcceptedMessage(s, msg);
    hide ModemCheck;
  }

  lemma AcceptTimed(s: Modem, msg: Message, armed: Armed)
    requires ModemInv(s) && s.phase.InSession? && ModemCheck(s, msg).None? && Timed(s, armed)
    ensures OutcomeTimed(ModemAccept(s, msg), armed)
  {
    hide ModemData, ModemCheck, ArmAll;
    if msg.messageType != SESSION_TERMINATION {
      AcceptedMessageRearms(s, msg);
      var (t, actions) := ModemAccept(s, msg);
      hide ModemAccept;
      AcceptKept(s, msg);
      ArmThenReset(armed, actions[..|actions| - 1], s.config, s.peerHeartbeat);
    } else {
      EndTimed(s, msg, armed);
    }
  }

  lemma EndTimed(s: Modem, msg: Message, armed: Armed)
    requires s.phase.InSession? && Timed(s, armed)
    ensures OutcomeTimed(ModemPeerTerminates(s, msg), armed)
  {
    hide ArmAll, ExtractStatus;
    var actions := ModemPeerTerminates(s, msg).1;
    assert actions == [CancelTimer(TIMER_HEARTBEAT), CancelTimer(TIMER_HEARTBEAT_MISSED)] + actions[2..];
    ArmCancelTwo(armed, TIMER_HEARTBEAT, TIMER_HEARTBEAT_MISSED, actions[2..]);
  }

  lemma EstablishTimed(s: Modem, msg: Message, armed: Armed)
    requires s.phase.Initializing? && ModemCheck(s, msg).None? && Timed(s, armed)
    ensures OutcomeTimed(ModemEstablish(s, msg), armed)
  {
    HeartbeatRequired(s, msg);
    hide ModemCheck, FromItems, ExtractHeartbeat, ExtractExtensions, BuildInitializationResponse, ArmAll;
    var (t, actions) := ModemEstablish(s, msg);
    var tail := actions[4..];
    assert actions == [CancelTimer(TIMER_SESSION_INIT), SendMessage(BuildInitializationResponse(s.config)),
                       StartTimer(TIMER_HEARTBEAT, HeartbeatTimer, LocalHeartbeat(s.config), true)]
                      + ResetAction(t.peerHeartbeat) + tail;
    ArmJoined(armed, s.config, MissedDeadline(t.peerHeartbeat).value, tail);
  }

  lemma ArmJoined(armed: Armed, config: SessionConfig, d: Duration, tail: seq<Action>)
    requires armed == map[TIMER_SESSION_INIT := config.initTimeout] && NoTimers(tail)
    ensures ArmAll(armed, [CancelTimer(TIMER_SESSION_INIT), SendMessage(BuildInitializationResponse(config)),
                           StartTimer(TIMER_HEARTBEAT, HeartbeatTimer, LocalHeartbeat(config), true)]
                          + [ResetHeartbeat(TIMER_HEARTBEAT_MISSED, d)] + tail)
         == map[TIMER_HEARTBEAT := LocalHeartbeat(config), TIMER_HEARTBEAT_MISSED := d]
  {
    hide BuildInitializationResponse;
    var x, y := CancelTimer(TIMER_SESSION_INIT), SendMessage(BuildInitializationResponse(config));
    var z := StartTimer(TIMER_HEARTBEAT, HeartbeatTimer, LocalHeartbeat(config), true);
    var r := [ResetHeartbeat(TIMER_HEARTBEAT_MISSED, d)];
    FoldConcat(Arm, armed, [x, y, z] + r, tail);
    FoldConcat(Arm, armed, [x, y, z], r);
    FoldThree(Arm, armed, x, y, z);
    FoldOne(Arm, Fold(Arm, armed, [x, y, z]), r[0]);
    ArmNothing(ArmAll(armed, [x, y, z] + r), tail);
    assert armed - {TIMER_SESSION_INIT} == map[];
  }

  lemma FailTimed(s: Modem, status: DataItem, armed: Armed)
    requires status.Status? && Timed(s, armed)
    ensures OutcomeTimed(ModemFail(s, status), armed)
  {
    hide ArmAll;
    if s.phase.Unconnected? || s.phase.InSession? {
      ArmFailure(armed, s.phase, s.config, s.peerHeartbeat, Message(SESSION_TERMINATION, [status]));
    } else if s.phase.Initializing? {
      var tail := [CloseTcp, Emit(SessionDown(status.code))];
      ArmCancelOne(armed, TIMER_SESSION_INIT, tail);
      assert ModemFail(s, status).1 == [CancelTimer(TIMER_SESSION_INIT)] + tail;
    } else {
      ArmNothing(armed, []);
    }
  }

  lemma ReceiveTimed(s: Modem, msg: Message, armed: Armed)
    requires ModemInv(s) && Timed(s, armed)
    ensures OutcomeTimed(ModemReceive(s, msg), armed)
  {
    hide ModemAccept, ModemEstablish, ModemCheck, ModemData, ModemFail, ArmAll;
    ArmNothing(armed, []);
    if ModemVerdict(s, msg).Some? { FailTimed(s, ModemVerdict(s, msg).value, armed); }
    else if s.phase.Initializing? {
      EstablishTimed(s, msg, armed);
      var tail := [CloseTcp, Emit(SessionDown(INVALID_DATA))];
      ArmCancelOne(armed, TIMER_SESSION_INIT, tail);
      assert [CancelTimer(TIMER_SESSION_INIT)] + tail
          == [CancelTimer(TIMER_SESSION_INIT), CloseTcp, Emit(SessionDown(INVALID_DATA))];
    }
    else if s.phase.InSession? { AcceptTimed(s, msg, armed); }
    else if s.phase.Terminating? {
      var tail := [CloseTcp, Emit(SessionDown(s.terminationReason))];
      ArmCancelOne(armed, TIMER_TERMINATION, tail);
      assert [CancelTimer(TIMER_TERMINATION)] + tail
          == [CancelTimer(TIMER_TERMINATION), CloseTcp, Emit(SessionDown(s.terminationReason))];
    }
  }

  lemma CommandTimed(s: Modem, e: Event, armed: Armed)
    requires ModemSlots(s) && Command(e).Some? && Timed(s, armed)
    ensures ModemCommandError(s, e).Some? ==> ArmAll(armed, Reject(e, ModemCommandError(s, e).value)) == armed
    ensures ModemCommandError(s, e).None? ==> OutcomeTimed(ModemCommand(s, e), armed)
  {
    hide ApplyLenient, LocalChange, LocalUpdateOk, BuildAddressUpdate, ArmAll, ValidMetrics, Validate, MessageEncodable;
    if ModemCommandError(s, e).Some? { ArmNothing(armed, Reject(e, ModemCommandError(s, e).value)); }
    else { CommandSettled(s, e); ArmNothing(armed, ModemCommand(s, e).1); }
  }

  lemma SessionTimed(s: Modem, e: Event, armed: Armed)
    requires s.phase.InSession? && Timed(s, armed) && Plausible(armed, e)
    ensures OutcomeTimed(ModemLocal(s, e), AfterExpiry(armed, e))
  {
    hide ArmAll;
    var left := AfterExpiry(armed, e);
    if e.RecvExtensionMessage? {
      ArmThenReset(armed, [], s.config, s.peerHeartbeat);
      assert [] + ResetAction(s.peerHeartbeat) == ResetAction(s.peerHeartbeat);
    } else if e.TimerExpired? && e.kind.HeartbeatMissedTimer? {
      ArmTermination(left, [CancelTimer(TIMER_HEARTBEAT)], BuildTermination(TIMED_OUT), s.config);
    } else if e.AppShutdown? {
      ArmTermination(armed, [CancelTimer(TIMER_HEARTBEAT), CancelTimer(TIMER_HEARTBEAT_MISSED)],
                     BuildTermination(e.reason), s.config);
    } else if e.TcpClosed? {
      var actions := ModemLocal(s, e).1;
      assert actions == [CancelTimer(TIMER_HEARTBEAT), CancelTimer(TIMER_HEARTBEAT_MISSED)] + actions[2..];
      ArmCancelTwo(armed, TIMER_HEARTBEAT, TIMER_HEARTBEAT_MISSED, actions[2..]);
    } else {
      ArmNothing(left, ModemLocal(s, e).1);
    }
  }

  lemma AcceptConnectionTimed(s: Modem)
    requires s.phase.Unconnected?
    ensures OutcomeTimed(ModemLocal(s, TcpAccepted), map[])
  {
    var none: Armed := map[];
    FoldOne(Arm, none, StartTimer(TIMER_SESSION_INIT, SessionInitTimer, s.config.initTimeout, false));
  }

  lemma CloseTimed(s: Modem, e: Event, armed: Armed)
    requires Timed(s, armed) && !s.phase.InSession? && (e.TcpClosed? || e.AppShutdown?)
    ensures OutcomeTimed(ModemLocal(s, e), armed)
  {
    hide ArmAll;
    var a := ModemLocal(s, e).1;
    if s.phase.Initializing? {
      assert a == [CancelTimer(TIMER_SESSION_INIT)] + a[1..];
      ArmCancelOne(armed, TIMER_SESSION_INIT, a[1..]);
    } else if s.phase.Terminating? && e.TcpClosed? {
      assert a == [CancelTimer(TIMER_TERMINATION)] + a[1..];
      ArmCancelOne(armed, TIMER_TERMINATION, a[1..]);
    } else {
      ArmNothing(armed, a);
    }
  }

  lemma LocalTimed(s: Modem, e: Event, armed: Armed)
    requires Timed(s, armed) && Plausible(armed, e)
    ensures OutcomeTimed(ModemLocal(s, e), AfterExpiry(armed, e))
  {
    hide ModemTerminate, ArmAll;
    var left := AfterExpiry(armed, e);
    if s.phase.Unconnected? && e.TcpAccepted? {
      AcceptConnectionTimed(s);
    } else if s.phase.InSession? {
      SessionTimed(s, e, armed);
    } else if e.TcpClosed? || e.AppShutdown? {
      CloseTimed(s, e, armed);
    } else {
      ArmNothing(left, ModemLocal(s, e).1);
    }
  }

  lemma StepTimed(s: Modem, e: Event, armed: Armed)
    requires ModemInv(s) && Timed(s, armed) && Plausible(armed, e)
    ensures OutcomeTimed(ModemStep(s, e), AfterExpiry(armed, e))
  {
    hide ModemReceive, ModemCommand, ModemLocal, ModemCommandError, ModemData, ModemFail, Reject, ArmAll, Timed;
    if Command(e).Some? { CommandTimed(s, e, armed); }
    else if e.RecvMessage? { ReceiveTimed(s, e.msg, armed); }
    else if e.ProtocolError? { FailTimed(s, Status(e.code, []), armed); }
    else { LocalTimed(s, e, armed); }
  }

  ghost function TimersOf(config: SessionConfig, events: seq<Event>): Armed {
    if |events| == 0 then map[] else
      var front, e := events[..|events| - 1], events[|events| - 1];
      ArmAll(AfterExpiry(TimersOf(config, front), e), ModemStep(RunFromNew(config, front).0, e).1)
  }

  ghost predicate Genuine(config: SessionConfig, events: seq<Event>) {
    |events| == 0
    || (Genuine(config, events[..|events| - 1])
        && Plausible(TimersOf(config, events[..|events| - 1]), events[|events| - 1]))
  }

  /** Along every run in which a timer only expires when armed, a state has
      exactly the timers it needs. */
  lemma {:induction false} ModemTimers(config: SessionConfig, events: seq<Event>)
    requires Genuine(config, events)
    ensures Timed(RunFromNew(config, events).0, TimersOf(config, events))
  {
    if |events| > 0 {
      var front := events[..|events| - 1];
      ModemTimers(config, front);
      StepTimed(RunFromNew(config, front).0, events[|events| - 1], TimersOf(config, front));
    }
  }

  /** The timers a live state needs include one whose expiry ends it. */
  lemma DeadlineArmed(s: Modem, armed: Armed)
    requires ModemInv(s) && Timed(s, armed) && 1 <= Rank(s.phase) <= 3
    ensures exists id :: id in armed && Plausible(armed, TimerExpired(id, KindOf(id)))
                         && Rank(ModemStep(s, TimerExpired(id, KindOf(id))).0.phase) > Rank(s.phase)
  {
    hide ModemData;
    var id := if s.phase.Initializing? then TIMER_SESSION_INIT
              else if s.phase.InSession? then TIMER_HEARTBEAT_MISSED else TIMER_TERMINATION;
    assert id in armed;
    var e := TimerExpired(id, KindOf(id));
    assert Plausible(armed, e);
    assert ModemStep(s, e) == ModemLocal(s, e);
  }

  /** So whatever run led to a state that is neither new nor final, a timer is armed
      whose expiry takes it further. */
  lemma ModemDeadline(config: SessionConfig, events: seq<Event>)
    requires Genuine(config, events) && 1 <= Rank(RunFromNew(config, events).0.phase) <= 3
    ensures var s, armed := RunFromNew(config, events).0, TimersOf(config, events);
            exists id :: id in armed && Plausible(armed, TimerExpired(id, KindOf(id)))
                         && Rank(ModemStep(s, TimerExpired(id, KindOf(id))).0.phase) > Rank(s.phase)
  {
    ModemTimers(config, events);
    hide ModemInv, ModemStep, ModemSlots, Timed, Genuine, TimersOf, Plausible;
    DeadlineArmed(RunFromNew(config, events).0, TimersOf(config, events));
  }
}
