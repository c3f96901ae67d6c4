/** The router's session machine (crates/dlep-fsm/src/session_router.rs) as a
    total step function on values. Every map access and every `expect` of the
    source is a proof obligation, here or in the object that follows it step by
    step, discharged from `RouterInv`.
 */
module RouterSpec {
  import opened Types
  import opened Addresses
  import opened Messages
  import opened Transactions
  import opened Validation
  import opened Session

  datatype RouterDestination = RouterDestination(up: bool, metrics: LinkMetrics, addrs: DestinationAddrs)

  datatype Router = Router(
    phase: Phase,
    tx: Tx,
    destinations: map<MacAddress, RouterDestination>,
    sessionMetrics: LinkMetrics,
    metricTypes: set<u16>,
    peerAddresses: DestinationAddrs,
    localAddresses: DestinationAddrs,
    config: SessionConfig,
    terminationReason: u8,
    peerHeartbeat: Option<Duration>,
    peerExtensions: seq<u16>)

  type Outcome = (Router, seq<Action>)

  function NewRouter(config: SessionConfig): Router {
    Router(Unconnected, IDLE, map[], DEFAULT_METRICS, {}, NO_ADDRS, NO_ADDRS, config, SUCCESS, None, [])
  }

  // --- Invariant ------------------------------------------------------------

  /** Nothing is known before the handshake completes. */
  ghost predicate Blank(s: Router) {
    && s.destinations == map[] && s.tx == IDLE
    && s.sessionMetrics == DEFAULT_METRICS && s.metricTypes == {}
    && s.peerAddresses == NO_ADDRS && s.localAddresses == NO_ADDRS
  }

  /** Down and Link Characteristics are open only for a known destination,
      Announce only for an unknown one. */
  ghost predicate RouterSlots(s: Router) {
    && (s.tx.session.Some? ==> s.tx.session.value == SessionUpdate)
    && (forall mac :: mac in s.tx.perDestination ==>
          var k := s.tx.perDestination[mac];
          if mac in s.destinations then k == DestinationDown || k == LinkCharacteristicsKind
          else k == DestinationAnnounce)
    && (forall mac :: mac in s.destinations ==> s.destinations[mac].up)
  }

  ghost predicate RouterLive(s: Router) {
    && (Rank(s.phase) < 2 ==> Blank(s))
    && (s.phase.InSession? ==> LiveInterval(s.peerHeartbeat))
  }

  /** Address lists are clean, and no two destinations share an address. */
  ghost predicate RouterOwnership(s: Router) {
    && (forall mac :: mac in s.destinations ==> CleanAddrs(s.destinations[mac].addrs))
    && (forall m, n :: m in s.destinations && n in s.destinations && m != n ==>
          DisjointAddrs(s.destinations[m].addrs, s.destinations[n].addrs))
    && CleanAddrs(s.peerAddresses) && CleanAddrs(s.localAddresses)
  }

  ghost predicate RouterInv(s: Router) {
    RouterSlots(s) && RouterLive(s) && RouterOwnership(s)
  }

  // --- Checks ---------------------------------------------------------------

  predicate Known(s: Router, mac: Option<MacAddress>) {
    mac.Some? && mac.value in s.destinations && s.destinations[mac.value].up
  }

  /** The content of a message, before its transaction is looked at. */
  function RouterContent(s: Router, msg: Message): Option<u8> {
    var initializing := s.phase.Initializing?;
    var grammar := ValidateMessage(msg, true, initializing, s.config.extensions);
    if grammar.Some? then grammar
    else if !MacFormatOk(msg, s.config.macFormat) then Some(INVALID_DATA)
    else if (initializing || msg.messageType == SESSION_UPDATE)
            && ApplyStrict(FromItems(msg.items), s.peerAddresses).None? then Some(INVALID_DATA)
    else if initializing then None
    else if !(MetricTypes(msg.items) <= s.metricTypes) then Some(INVALID_DATA)
    else if msg.messageType == LINK_CHARACTERISTICS_RESPONSE && MetricTypes(msg.items) != s.metricTypes
    then Some(INVALID_DATA)
    else None
  }

  function RouterCheck(s: Router, msg: Message): Option<u8> {
    var content := RouterContent(s, msg);
    if content.Some? || s.phase.Initializing? then content
    else ValidateTransaction(msg.messageType, ExtractMac(msg.items), s.tx, Known(s, ExtractMac(msg.items)))
  }

  function RouterCommandError(s: Router, e: Event): Option<CommandError>
    requires Command(e).Some?
  {
    if !s.phase.InSession? then Some(NotReady)
    else if !(e.AppDropDestination? || e.AppAnnounceDestination? || e.AppRequestLinkCharacteristics?
              || e.AppSessionAddresses?) then Some(Unsupported)
    else
      var destination := Command(e).value.destination;
      if destination.Some? && !Accepts(s.config.macFormat, destination.value) then Some(MacAddressFormatMismatch)
      else if destination.Some? && destination.value in s.tx.perDestination then Some(Busy)
      else if destination.None? && s.tx.session.Some? then Some(Busy)
      else match e
        case AppDropDestination(mac, _) =>
          if !Known(s, Some(mac)) then Some(UnknownDestination) else None
        case AppRequestLinkCharacteristics(mac, requested) =>
          if !Known(s, Some(mac)) then Some(UnknownDestination)
          else if requested == LinkCharacteristics(None, None, None) then Some(InvalidInput)
          else if !MessageEncodable(BuildLinkRequest(mac, requested)) then Some(InvalidInput)
          else None
        case AppAnnounceDestination(mac) =>
          if Known(s, Some(mac)) then Some(AlreadyExists) else None
        case AppSessionAddresses(changes) =>
          if !LocalUpdateOk(s.localAddresses, changes) then Some(InvalidInput) else None
        case _ => Some(Unsupported)
  }

  // --- Step functions -------------------------------------------------------

  /** Begin termination, echoing the given status. */
  function RouterFail(s: Router, status: DataItem): Outcome
    requires status.Status?
  {
    if s.phase.Terminating? || s.phase.Terminated? then (s, [])
    else (s.(phase := Terminating, terminationReason := status.code),
          [CancelTimer(TIMER_SESSION_INIT), CancelTimer(TIMER_HEARTBEAT), CancelTimer(TIMER_HEARTBEAT_MISSED),
           SendMessage(Message(SESSION_TERMINATION, [status])), StartTermination(s.config)])
  }

  function Close(s: Router, reason: u8, cancels: seq<Action>): Outcome {
    (s.(phase := Terminated), cancels + [CloseTcp, Emit(SessionDown(reason))])
  }

  /** "initialization did not succeed" */
  function InitFailedText(): Text {
    var s: seq<u8> := [0x69, 0x6e, 0x69, 0x74, 0x69, 0x61, 0x6c, 0x69, 0x7a, 0x61, 0x74, 0x69, 0x6f, 0x6e, 0x20, 0x64,
                       0x69, 0x64, 0x20, 0x6e, 0x6f, 0x74, 0x20, 0x73, 0x75, 0x63, 0x63, 0x65, 0x65, 0x64];
    AsciiIsUtf8(s);
    s
  }

  function RouterEstablish(s: Router, msg: Message): Outcome {
    var items := msg.items;
    var s' := s.(phase := InSession,
                 peerAddresses := FromItems(items).added,
                 sessionMetrics := Merge(items, s.sessionMetrics),
                 metricTypes := MetricTypes(items),
                 peerHeartbeat := ExtractHeartbeat(items),
                 peerExtensions := ExtractExtensions(items));
    (s', [CancelTimer(TIMER_SESSION_INIT), StartTimer(TIMER_HEARTBEAT, HeartbeatTimer, LocalHeartbeat(s.config), true)]
         + ResetAction(s'.peerHeartbeat)
         + [Emit(SessionUp(s'.peerExtensions)), Emit(SessionMetricsUpdate(s'.sessionMetrics))]
         + (if s'.peerAddresses == NO_ADDRS then []
            else [Emit(SessionAddressesUpdate(AddressChanges(s'.peerAddresses, NO_ADDRS), s'.peerAddresses))]))
  }

  function RouterHandshake(s: Router, msg: Message): Outcome {
    if msg.messageType != SESSION_INITIALIZATION_RESPONSE then
      Close(s, INVALID_DATA, [CancelTimer(TIMER_SESSION_INIT)])
    else if ExtractStatus(msg.items).Some? && ExtractStatus(msg.items).value != SUCCESS then
      RouterFail(s, Status(UNEXPECTED_MESSAGE, InitFailedText()))
    else RouterEstablish(s, msg)
  }

  /** Addresses taken in this session by the peer or by another destination. */
  function Taken4(s: Router, mac: MacAddress): set<u32> {
    (set a | a in s.peerAddresses.v4)
    + (set m, a | m in s.destinations && m != mac && a in s.destinations[m].addrs.v4 :: a)
  }
  function Taken6(s: Router, mac: MacAddress): set<u128> {
    (set a | a in s.peerAddresses.v6)
    + (set m, a | m in s.destinations && m != mac && a in s.destinations[m].addrs.v6 :: a)
  }
  function TakenNet4(s: Router, mac: MacAddress): set<Ipv4Net> {
    (set a | a in s.peerAddresses.v4Subnets)
    + (set m, a | m in s.destinations && m != mac && a in s.destinations[m].addrs.v4Subnets :: a)
  }
  function TakenNet6(s: Router, mac: MacAddress): set<Ipv6Net> {
    (set a | a in s.peerAddresses.v6Subnets)
    + (set m, a | m in s.destinations && m != mac && a in s.destinations[m].addrs.v6Subnets :: a)
  }

  /** The change a message asks for, without the addresses it would steal. */
  function OwnedChanges(s: Router, mac: MacAddress, msg: Message): AddressChanges {
    var c := FromItems(msg.items);
    c.(added := DestinationAddrs(
                  RetainFree(c.added.v4, c.removed.v4, Taken4(s, mac)),
                  RetainFree(c.added.v6, c.removed.v6, Taken6(s, mac)),
                  RetainFree(c.added.v4Subnets, c.removed.v4Subnets, TakenNet4(s, mac)),
                  RetainFree(c.added.v6Subnets, c.removed.v6Subnets, TakenNet6(s, mac))))
  }

  /** The entry a Destination Up or an accepted Announce creates. */
  function NewDestination(s: Router, mac: MacAddress, msg: Message): RouterDestination {
    RouterDestination(true, Merge(msg.items, s.sessionMetrics), ApplyLenient(OwnedChanges(s, mac, msg), NO_ADDRS))
  }

  function RouterUp(s: Router, mac: MacAddress, msg: Message): Outcome {
    var d := NewDestination(s, mac, msg);
    (s.(destinations := s.destinations[mac := d]),
     [SendMessage(BuildDestinationUpResponse(mac, SUCCESS)), Emit(DestinationUpEvent(mac, d.metrics, d.addrs))]
     + ResetAction(s.peerHeartbeat))
  }

  function RouterUpdate(s: Router, mac: MacAddress, msg: Message): Outcome
    requires mac in s.destinations
  {
    var d := s.destinations[mac];
    var addrs := ApplyLenient(OwnedChanges(s, mac, msg), d.addrs);
    var changes := Between(d.addrs, addrs);
    var metrics := Merge(msg.items, d.metrics);
    (s.(destinations := s.destinations[mac := d.(metrics := metrics, addrs := addrs)]),
     (if HasMetrics(msg.items) then [Emit(DestinationUpdateEvent(mac, metrics))] else [])
     + (if changes == NO_CHANGES then [] else [Emit(DestinationAddressesUpdate(mac, changes, addrs))])
     + ResetAction(s.peerHeartbeat))
  }

  function RouterDown(s: Router, mac: MacAddress, msg: Message): Outcome {
    var reason := if ExtractStatus(msg.items).Some? then ExtractStatus(msg.items).value else SUCCESS;
    (s.(destinations := s.destinations - {mac}),
     [SendMessage(BuildDestinationDownResponse(mac, SUCCESS)), Emit(DestinationDownEvent(mac, reason))]
     + ResetAction(s.peerHeartbeat))
  }

  function RouterDownResponse(s: Router, mac: MacAddress, msg: Message): Outcome
    requires ExtractStatus(msg.items).Some?
  {
    (s.(tx := Transactions.Close(s.tx, DestinationScope(mac)), destinations := s.destinations - {mac}),
     [Emit(DestinationDownEvent(mac, ExtractStatus(msg.items).value))] + ResetAction(s.peerHeartbeat))
  }

  function RouterSessionUpdate(s: Router, msg: Message): Outcome
    requires ApplyStrict(FromItems(msg.items), s.peerAddresses).Some?
  {
    var changes := FromItems(msg.items);
    var addrs := ApplyStrict(changes, s.peerAddresses).value;
    var found := HasMetrics(msg.items);
    var metrics := Merge(msg.items, s.sessionMetrics);
    (s.(peerAddresses := addrs,
        sessionMetrics := metrics,
        destinations := if found then map m | m in s.destinations ::
                          s.destinations[m].(metrics := Merge(msg.items, s.destinations[m].metrics))
                        else s.destinations),
     [SendMessage(BuildSessionUpdateResponse(SUCCESS))]
     + (if changes == NO_CHANGES then [] else [Emit(SessionAddressesUpdate(changes, addrs))])
     + (if found then [Emit(SessionMetricsUpdate(metrics))] else [])
     + ResetAction(s.peerHeartbeat))
  }

  function RouterAnnounceResponse(s: Router, mac: MacAddress, msg: Message): Outcome {
    var tx := Transactions.Close(s.tx, DestinationScope(mac));
    if ExtractStatus(msg.items) == Some(SUCCESS) then
      var d := NewDestination(s, mac, msg);
      (s.(tx := tx, destinations := s.destinations[mac := d]),
       [Emit(DestinationUpEvent(mac, d.metrics, d.addrs))] + ResetAction(s.peerHeartbeat))
    else (s.(tx := tx), ResetAction(s.peerHeartbeat))
  }

  function RouterLinkResponse(s: Router, mac: MacAddress, msg: Message): Outcome
    requires mac in s.destinations && ExtractStatusItem(msg.items).Some?
  {
    var d := s.destinations[mac];
    var metrics := Merge(msg.items, d.metrics);
    var status := ExtractStatusItem(msg.items).value;
    (s.(tx := Transactions.Close(s.tx, DestinationScope(mac)),
        destinations := s.destinations[mac := d.(metrics := metrics)]),
     [Emit(LinkCharacteristicsResponse(mac, status.code, status.text, metrics))] + ResetAction(s.peerHeartbeat))
  }

  function RouterPeerTerminates(s: Router, msg: Message): Outcome {
    var status := if ExtractStatus(msg.items).Some? then ExtractStatus(msg.items).value else SHUTTING_DOWN;
    (s.(phase := Terminated),
     [CancelTimer(TIMER_HEARTBEAT), CancelTimer(TIMER_HEARTBEAT_MISSED),
      SendMessage(BuildTerminationResponse()), CloseTcp, Emit(SessionDown(status))])
  }

  /** Required items are there to be extracted. */
  lemma RequiredPresent(msg: Message, router: bool, local: seq<u16>)
    requires Grammar(msg, router, false, local)
    ensures MAC_ADDRESS in RequiredTypes(msg.messageType) ==> ExtractMac(msg.items).Some?
    ensures STATUS in RequiredTypes(msg.messageType) ==> ExtractStatusItem(msg.items).Some?
  {
    assert MAC_ADDRESS in RequiredTypes(msg.messageType) ==> HasType(msg.items, MAC_ADDRESS);
    assert STATUS in RequiredTypes(msg.messageType) ==> HasType(msg.items, STATUS);
    hide Grammar, RequiredTypes, ExtractMac, ExtractStatusItem;
    if HasType(msg.items, MAC_ADDRESS) { MacHere(msg.items); }
    if HasType(msg.items, STATUS) { StatusHere(msg.items); }
  }

  lemma MacHere(items: seq<DataItem>)
    requires HasType(items, MAC_ADDRESS)
    ensures ExtractMac(items).Some?
  {
    MacPresent(items);
    var x :| x in items && !x.Unknown? && TypeId(x) == MAC_ADDRESS;
    var i :| 0 <= i < |items| && items[i] == x;
    assert items[i].Mac?;
  }

  lemma StatusHere(items: seq<DataItem>)
    requires HasType(items, STATUS)
    ensures ExtractStatusItem(items).Some?
  {
    StatusPresent(items);
    var x :| x in items && !x.Unknown? && TypeId(x) == STATUS;
    var i :| 0 <= i < |items| && items[i] == x;
    assert items[i].Status?;
  }

  /** What an accepted message with a MAC provides to the handlers. */
  lemma AcceptedMessage(s: Router, msg: Message)
    requires s.phase.InSession? && RouterCheck(s, msg).None? && RouterSlots(s)
    ensures MAC_ADDRESS in RequiredTypes(msg.messageType) ==> ExtractMac(msg.items).Some?
    ensures STATUS in RequiredTypes(msg.messageType) ==> ExtractStatusItem(msg.items).Some?
    ensures msg.messageType == SESSION_UPDATE ==> ApplyStrict(FromItems(msg.items), s.peerAddresses).Some?
    ensures ExtractMac(msg.items).Some?
            && (msg.messageType == DESTINATION_UPDATE || msg.messageType == DESTINATION_DOWN
                || msg.messageType == LINK_CHARACTERISTICS_RESPONSE || msg.messageType == DESTINATION_DOWN_RESPONSE)
            ==> ExtractMac(msg.items).value in s.destinations
    ensures ExtractMac(msg.items).Some?
            && (msg.messageType == DESTINATION_UP || msg.messageType == DESTINATION_ANNOUNCE_RESPONSE)
            ==> ExtractMac(msg.items).value !in s.destinations
  {
    hide Grammar, MacFormatOk, MetricTypes, FromItems, ApplyStrict, ExtractMac, ExtractStatusItem;
    RequiredPresent(msg, true, s.config.extensions);
  }

  /** An accepted message in session, dispatched on its type. */
  function RouterAccept(s: Router, msg: Message): Outcome
    requires s.phase.InSession? && RouterCheck(s, msg).None? && RouterSlots(s)
  {
    AcceptedMessage(s, msg);
    var mt := msg.messageType;
    if mt == SESSION_TERMINATION then RouterPeerTerminates(s, msg)
    else if mt == SESSION_UPDATE then RouterSessionUpdate(s, msg)
    else if mt == SESSION_UPDATE_RESPONSE then
      (s.(tx := Transactions.Close(s.tx, SessionScope)), ResetAction(s.peerHeartbeat))
    else if mt == HEARTBEAT then (s, ResetAction(s.peerHeartbeat))
    else if mt == DESTINATION_UP then RouterUp(s, ExtractMac(msg.items).value, msg)
    else if mt == DESTINATION_UPDATE then RouterUpdate(s, ExtractMac(msg.items).value, msg)
    else if mt == DESTINATION_DOWN then RouterDown(s, ExtractMac(msg.items).value, msg)
    else if mt == DESTINATION_DOWN_RESPONSE then RouterDownResponse(s, ExtractMac(msg.items).value, msg)
    else if mt == DESTINATION_ANNOUNCE_RESPONSE then RouterAnnounceResponse(s, ExtractMac(msg.items).value, msg)
    else RouterLinkResponse(s, ExtractMac(msg.items).value, msg)
  }

  /** The status with which a message is refused, if it is. */
  function RouterVerdict(s: Router, msg: Message): (r: Option<DataItem>)
    ensures r.Some? ==> r.value.Status?
  {
    if !(s.phase.Initializing? || s.phase.InSession?) then None
    else if msg.messageType != SESSION_TERMINATION && FatalStatus(msg.items).Some? then FatalStatus(msg.items)
    else match RouterCheck(s, msg)
      case Some(code) => Some(Status(code, []))
      case None => None
  }

  /** Every refusal carries a status that ends sessions, so that the peer's own
      reading of it ends the session there too; an accepted message has none. */
  lemma RefusalEnds(s: Router, msg: Message)
    ensures RouterVerdict(s, msg).Some? ==> EndsSession(RouterVerdict(s, msg).value)
    ensures RouterVerdict(s, msg).None? && (s.phase.Initializing? || s.phase.InSession?) ==>
              msg.messageType == SESSION_TERMINATION || forall i :: 0 <= i < |msg.items| ==> !EndsSession(msg.items[i])
  {
    FirstFatal(msg.items);
    hide Grammar, MacFormatOk, MetricTypes, FromItems, ApplyStrict, ExtractMac, FatalStatus;
  }

  function RouterReceive(s: Router, msg: Message): Outcome
    requires RouterSlots(s)
  {
    var verdict := RouterVerdict(s, msg);
    if verdict.Some? then RouterFail(s, verdict.value)
    else match s.phase
      case Initializing => RouterHandshake(s, msg)
      case InSession => RouterAccept(s, msg)
      case Terminating =>
        if msg.messageType == SESSION_TERMINATION_RESPONSE then
          Close(s, s.terminationReason, [CancelTimer(TIMER_TERMINATION)])
        else (s, [])
      case _ => (s, [])
  }

  /** An accepted command: open the slot, then send the request. */
  function RouterCommand(s: Router, e: Event): Outcome
    requires Command(e).Some? && RouterCommandError(s, e).None?
  {
    match e
    case AppDropDestination(mac, _) =>
      (s.(tx := Open(s.tx, DestinationScope(mac), DestinationDown)), [SendMessage(BuildDestinationDown(mac))])
    case AppAnnounceDestination(mac) =>
      (s.(tx := Open(s.tx, DestinationScope(mac), DestinationAnnounce)), [SendMessage(BuildDestinationAnnounce(mac))])
    case AppRequestLinkCharacteristics(mac, requested) =>
      (s.(tx := Open(s.tx, DestinationScope(mac), LinkCharacteristicsKind)),
       [SendMessage(BuildLinkRequest(mac, requested))])
    case AppSessionAddresses(changes) =>
      var (tx, local, actions) := LocalUpdate(s.tx, s.localAddresses, changes);
      (s.(tx := tx, localAddresses := local), actions)
  }

  /** In-session ends begun by this side. */
  function RouterTerminate(s: Router, reason: u8, cancels: seq<Action>): Outcome {
    (s.(phase := Terminating, terminationReason := reason),
     cancels + [SendMessage(BuildTermination(reason)), StartTermination(s.config)])
  }

  /** Transport, timer and shutdown events. */
  function RouterLocal(s: Router, e: Event): Outcome {
    match (s.phase, e)
    case (Unconnected, TcpConnected) =>
      (s.(phase := Initializing),
       [SendMessage(BuildInitialization(s.config)),
        StartTimer(TIMER_SESSION_INIT, SessionInitTimer, s.config.initTimeout, false)])
    case (Unconnected, AppShutdown(_)) => (s.(phase := Terminated), [])
    case (Unconnected, TcpClosed) => (s.(phase := Terminated), [])
    case (Initializing, TimerExpired(_, SessionInitTimer)) => Close(s, TIMED_OUT, [])
    case (Initializing, TcpClosed) => (s.(phase := Terminated), [Emit(SessionDown(TIMED_OUT))])
    case (Initializing, AppShutdown(reason)) => Close(s, reason, [CancelTimer(TIMER_SESSION_INIT)])
    case (InSession, RecvExtensionMessage) => (s, ResetAction(s.peerHeartbeat))
    case (InSession, TimerExpired(_, HeartbeatTimer)) => (s, [SendMessage(BuildHeartbeat())])
    case (InSession, TimerExpired(_, HeartbeatMissedTimer)) =>
      RouterTerminate(s, TIMED_OUT, [CancelTimer(TIMER_HEARTBEAT)])
    case (InSession, AppShutdown(reason)) =>
      RouterTerminate(s, reason, [CancelTimer(TIMER_HEARTBEAT), CancelTimer(TIMER_HEARTBEAT_MISSED)])
    case (InSession, TcpClosed) =>
      (s.(phase := Terminated),
       [CancelTimer(TIMER_HEARTBEAT), CancelTimer(TIMER_HEARTBEAT_MISSED), Emit(SessionDown(TIMED_OUT))])
    case (Terminating, TimerExpired(_, TerminationTimer)) => Close(s, TIMED_OUT, [])
    case (Terminating, TcpClosed) =>
      (s.(phase := Terminated), [CancelTimer(TIMER_TERMINATION), Emit(SessionDown(s.terminationReason))])
    case _ => (s, [])
  }

  /** One step: `RouterSessionFsm::step`. */
  function RouterStep(s: Router, e: Event): Outcome
    requires RouterSlots(s)
  {
    if Command(e).Some? then
      match RouterCommandError(s, e)
      case Some(error) => (s, Reject(e, error))
      case None => RouterCommand(s, e)
    else match e
      case RecvMessage(msg) => RouterReceive(s, msg)
      case ProtocolError(code) => RouterFail(s, Status(code, []))
      case _ => RouterLocal(s, e)
  }
}
