/** The modem's session machine (crates/dlep-fsm/src/session_modem.rs) as a total
    step function on values, in the same style as the router's.
 */
module ModemSpec {
  import opened Types
  import opened Addresses
  import opened Messages
  import opened Transactions
  import opened Validation
  import opened Session

  datatype ModemDestination = ModemDestination(
    announced: bool, pendingMetrics: bool, metrics: LinkMetrics, addrs: DestinationAddrs, advertised: DestinationAddrs)

  datatype Modem = Modem(
    phase: Phase,
    tx: Tx,
    destinations: map<MacAddress, ModemDestination>,
    peerAddresses: DestinationAddrs,
    localAddresses: DestinationAddrs,
    sessionMetrics: LinkMetrics,
    config: SessionConfig,
    terminationReason: u8,
    peerHeartbeat: Option<Duration>,
    peerExtensions: seq<u16>,
    pendingLinks: set<MacAddress>)

  type Outcome = (Modem, seq<Action>)

  function NewModem(config: SessionConfig): Modem {
    Modem(Unconnected, IDLE, map[], NO_ADDRS, NO_ADDRS, config.initialMetrics, config, SUCCESS, None, [], {})
  }

  // --- Invariant ------------------------------------------------------------

  ghost predicate Blank(s: Modem) {
    && s.destinations == map[] && s.tx == IDLE && s.pendingLinks == {}
    && s.sessionMetrics == s.config.initialMetrics
    && s.peerAddresses == NO_ADDRS && s.localAddresses == NO_ADDRS
  }

  /** Open requests, deferred answers and held-back updates fit the announcements. */
  ghost predicate ModemSlots(s: Modem) {
    && (s.tx.session.Some? ==> s.tx.session.value == SessionUpdate)
    && (forall mac :: mac in s.tx.perDestination ==>
          && mac in s.destinations
          && (if s.destinations[mac].announced then s.tx.perDestination[mac] == DestinationDown
              else s.tx.perDestination[mac] == DestinationUp))
    && (forall mac :: mac in s.pendingLinks ==>
          mac in s.destinations && s.destinations[mac].announced && mac !in s.tx.perDestination)
    && (forall mac :: mac in s.destinations && s.destinations[mac].pendingMetrics ==> !s.destinations[mac].announced)
  }

  ghost predicate ModemLive(s: Modem) {
    && (Rank(s.phase) < 2 ==> Blank(s))
    && (s.phase.InSession? ==> LiveInterval(s.peerHeartbeat))
  }

  /** Once announced, the peer has been told the current addresses. */
  ghost predicate DestinationOk(d: ModemDestination, initial: LinkMetrics) {
    && CleanAddrs(d.addrs) && CleanAddrs(d.advertised)
    && (d.announced ==> SameAddrs(d.advertised, d.addrs))
    && SameSupport(d.metrics, initial)
    && (MetricsEncodable(initial) ==> MetricsEncodable(d.metrics))
  }

  ghost predicate ModemData(s: Modem) {
    && (forall mac :: mac in s.destinations ==> DestinationOk(s.destinations[mac], s.config.initialMetrics))
    && CleanAddrs(s.peerAddresses) && CleanAddrs(s.localAddresses)
    && SameSupport(s.sessionMetrics, s.config.initialMetrics)
    && (MetricsEncodable(s.config.initialMetrics) ==> MetricsEncodable(s.sessionMetrics))
  }

  ghost predicate ModemInv(s: Modem) {
    ModemSlots(s) && ModemLive(s) && ModemData(s)
  }

  // --- Checks ---------------------------------------------------------------

  predicate Known(s: Modem, mac: Option<MacAddress>) {
    mac.Some? && mac.value in s.destinations && s.destinations[mac.value].announced
  }

  function ModemContent(s: Modem, msg: Message): Option<u8> {
    var initializing := s.phase.Initializing?;
    var grammar := ValidateMessage(msg, false, initializing, s.config.extensions);
    if grammar.Some? then grammar
    else if !MacFormatOk(msg, s.config.macFormat) then Some(INVALID_DATA)
    else if (initializing || msg.messageType == SESSION_UPDATE)
            && ApplyStrict(FromItems(msg.items), s.peerAddresses).None? then Some(INVALID_DATA)
    else None
  }

  function ModemCheck(s: Modem, msg: Message): Option<u8> {
    var content := ModemContent(s, msg);
    var mac := ExtractMac(msg.items);
    if content.Some? || s.phase.Initializing? then content
    else if mac.Some? && mac.value in s.pendingLinks
            && (msg.messageType == DESTINATION_DOWN || msg.messageType == LINK_CHARACTERISTICS_REQUEST)
    then Some(UNEXPECTED_MESSAGE)
    else ValidateTransaction(msg.messageType, mac, s.tx, Known(s, mac))
  }

  predicate ValidMetrics(s: Modem, m: LinkMetrics) {
    SupportedBy(m, s.config.initialMetrics) && MessageEncodable(BuildSessionUpdate(m))
  }

  /** Busy, or out of turn, in the scope of the command. */
  function ScopeError(s: Modem, e: Event): Option<CommandError>
    requires Command(e).Some?
  {
    var destination := Command(e).value.destination;
    if destination.None? then (if s.tx.session.Some? then Some(Busy) else None)
    else
      var mac := destination.value;
      if !Accepts(s.config.macFormat, mac) then Some(MacAddressFormatMismatch)
      else if e.AppLinkCharacteristicsResponse? && mac !in s.pendingLinks then Some(NoPendingRequest)
      else if e.AppDropDestination? && mac in s.pendingLinks then Some(Busy)
      else if mac in s.tx.perDestination
              && !((e.AppUpdateMetrics? || e.AppUpdateAddresses?) && s.tx.perDestination[mac] == DestinationUp)
      then Some(Busy)
      else None
  }

  function ModemCommandError(s: Modem, e: Event): Option<CommandError>
    requires Command(e).Some? && ModemSlots(s)
  {
    if !s.phase.InSession? then Some(NotReady)
    else if e.AppAnnounceDestination? || e.AppRequestLinkCharacteristics? then Some(Unsupported)
    else if ScopeError(s, e).Some? then ScopeError(s, e)
    else match e
      case AppAddDestination(mac, metrics, addrs) =>
        if mac in s.destinations then Some(AlreadyExists)
        else if !ValidMetrics(s, metrics) then Some(InvalidInput)
        else if !Validate(AddressChanges(addrs, NO_ADDRS)) then Some(InvalidInput)
        else if !MessageEncodable(BuildDestinationUp(mac, Absorb(metrics, s.sessionMetrics), addrs))
        then Some(InvalidInput)
        else None
      case AppDropDestination(mac, _) => if mac !in s.destinations then Some(UnknownDestination) else None
      case AppUpdateMetrics(mac, metrics) =>
        if mac !in s.destinations then Some(UnknownDestination)
        else if !ValidMetrics(s, metrics) then Some(InvalidInput)
        else None
      case AppUpdateAddresses(mac, changes) =>
        if mac !in s.destinations then Some(UnknownDestination)
        else if !Validate(changes) then Some(InvalidInput)
        else
          var d := s.destinations[mac];
          if !MessageEncodable(BuildDestinationUp(mac, d.metrics, ApplyLenient(changes, d.addrs)))
          then Some(InvalidInput)
          else None
      case AppSessionUpdate(metrics) => if !ValidMetrics(s, metrics) then Some(InvalidInput) else None
      case AppLinkCharacteristicsResponse(mac, status, text, reported) =>
        if TerminatesSession(status) then Some(InvalidInput)
        else if reported.Some? && !ValidMetrics(s, reported.value) then Some(InvalidInput)
        else
          var metrics := Reported(s.destinations[mac].metrics, reported);
          if !MessageEncodable(BuildLinkResponse(mac, status, text, metrics)) then Some(InvalidInput) else None
      case AppSessionAddresses(changes) =>
        if !LocalUpdateOk(s.localAddresses, changes) then Some(InvalidInput) else None
      case _ => Some(Unsupported)
  }

  /** The metrics a deferred answer leaves in place. */
  function Reported(current: LinkMetrics, reported: Option<LinkMetrics>): LinkMetrics {
    if reported.Some? then Absorb(reported.value, current) else current
  }

  // --- Step functions -------------------------------------------------------

  function ModemFail(s: Modem, status: DataItem): Outcome
    requires status.Status?
  {
    if s.phase.Terminating? || s.phase.Terminated? then (s, [])
    else if s.phase.Initializing? then
      (s.(phase := Terminated), [CancelTimer(TIMER_SESSION_INIT), CloseTcp, Emit(SessionDown(status.code))])
    else (s.(phase := Terminating, terminationReason := status.code),
          [CancelTimer(TIMER_SESSION_INIT), CancelTimer(TIMER_HEARTBEAT), CancelTimer(TIMER_HEARTBEAT_MISSED),
           SendMessage(Message(SESSION_TERMINATION, [status])), StartTermination(s.config)])
  }

  function ModemEstablish(s: Modem, msg: Message): Outcome {
    var items := msg.items;
    var s' := s.(phase := InSession,
                 peerAddresses := FromItems(items).added,
                 peerHeartbeat := ExtractHeartbeat(items),
                 peerExtensions := ExtractExtensions(items));
    (s', [CancelTimer(TIMER_SESSION_INIT), SendMessage(BuildInitializationResponse(s.config)),
          StartTimer(TIMER_HEARTBEAT, HeartbeatTimer, LocalHeartbeat(s.config), true)]
         + ResetAction(s'.peerHeartbeat)
         + [Emit(SessionUp(s'.peerExtensions))]
         + (if s'.peerAddresses == NO_ADDRS then []
            else [Emit(SessionAddressesUpdate(AddressChanges(s'.peerAddresses, NO_ADDRS), s'.peerAddresses))]))
  }

  function ModemHandshake(s: Modem, msg: Message): Outcome {
    if msg.messageType == SESSION_INITIALIZATION then ModemEstablish(s, msg)
    else (s.(phase := Terminated), [CancelTimer(TIMER_SESSION_INIT), CloseTcp, Emit(SessionDown(INVALID_DATA))])
  }

  /** The update that brings a freshly announced destination up to date. */
  function CatchUp(mac: MacAddress, d: ModemDestination): seq<Message> {
    var changes := Between(d.advertised, d.addrs);
    if d.pendingMetrics then
      [Message(DESTINATION_UPDATE, BuildDestinationUpdate(mac, d.metrics).items + ChangeItems(changes))]
    else if changes != NO_CHANGES then
      [Message(DESTINATION_UPDATE, [Mac(mac)] + ChangeItems(changes))]
    else []
  }

  function Sending(messages: seq<Message>): seq<Action> {
    seq(|messages|, i requires 0 <= i < |messages| => SendMessage(messages[i]))
  }

  function ModemUpResponse(s: Modem, mac: MacAddress, msg: Message): Outcome
    requires mac in s.destinations
  {
    var d := s.destinations[mac];
    var tx := Close(s.tx, DestinationScope(mac));
    if ExtractStatus(msg.items).Some? && ExtractStatus(msg.items).value != SUCCESS then
      (s.(tx := tx, destinations := s.destinations[mac := d.(announced := false)]), ResetAction(s.peerHeartbeat))
    else
      var late := CatchUp(mac, d);
      var d' := if late == [] then d.(announced := true)
                else d.(announced := true, pendingMetrics := false, advertised := d.addrs);
      (s.(tx := tx, destinations := s.destinations[mac := d']), Sending(late) + ResetAction(s.peerHeartbeat))
  }

  function ModemDown(s: Modem, mac: MacAddress): Outcome
    requires mac in s.destinations
  {
    (s.(destinations := s.destinations[mac := s.destinations[mac].(announced := false, pendingMetrics := false)]),
     [SendMessage(BuildDestinationDownResponse(mac, SUCCESS)), Emit(DestinationDownEvent(mac, SUCCESS))]
     + ResetAction(s.peerHeartbeat))
  }

  function ModemDownResponse(s: Modem, mac: MacAddress): Outcome {
    (s.(tx := Close(s.tx, DestinationScope(mac)), destinations := s.destinations - {mac}), ResetAction(s.peerHeartbeat))
  }

  function ModemSessionUpdate(s: Modem, msg: Message): Outcome
    requires ApplyStrict(FromItems(msg.items), s.peerAddresses).Some?
  {
    var changes := FromItems(msg.items);
    var addrs := ApplyStrict(changes, s.peerAddresses).value;
    (s.(peerAddresses := addrs),
     [SendMessage(BuildSessionUpdateResponse(SUCCESS))]
     + (if changes == NO_CHANGES then [] else [Emit(SessionAddressesUpdate(changes, addrs))])
     + ResetAction(s.peerHeartbeat))
  }

  function ModemAnnounce(s: Modem, mac: MacAddress, msg: Message): Outcome {
    var event := Emit(DestinationAnnounced(mac, FromItems(msg.items)));
    if mac in s.destinations then
      var d := s.destinations[mac];
      (s.(destinations := s.destinations[mac := d.(announced := true, pendingMetrics := false, advertised := d.addrs)]),
       [SendMessage(BuildAnnounceAccepted(mac, d.metrics, d.addrs)), event] + ResetAction(s.peerHeartbeat))
    else (s, [SendMessage(BuildAnnounceDenied(mac)), event] + ResetAction(s.peerHeartbeat))
  }

  function ModemLinkRequest(s: Modem, mac: MacAddress, msg: Message): Outcome
    requires mac in s.destinations
  {
    var metrics := s.destinations[mac].metrics;
    var event := Emit(LinkCharacteristicsRequested(mac, ExtractLinkCharacteristics(msg.items), metrics,
                                                   s.config.deferLinkCharacteristics));
    if s.config.deferLinkCharacteristics then
      (s.(pendingLinks := s.pendingLinks + {mac}), [event] + ResetAction(s.peerHeartbeat))
    else (s, [SendMessage(BuildLinkResponse(mac, REQUEST_DENIED, [], metrics)), event] + ResetAction(s.peerHeartbeat))
  }

  function ModemPeerTerminates(s: Modem, msg: Message): Outcome {
    var status := if ExtractStatus(msg.items).Some? then ExtractStatus(msg.items).value else SHUTTING_DOWN;
    (s.(phase := Terminated),
     [CancelTimer(TIMER_HEARTBEAT), CancelTimer(TIMER_HEARTBEAT_MISSED),
      SendMessage(BuildTerminationResponse()), CloseTcp, Emit(SessionDown(status))])
  }

  lemma MacRequired(msg: Message, local: seq<u16>)
    requires Grammar(msg, false, false, local) && MAC_ADDRESS in RequiredTypes(msg.messageType)
    ensures ExtractMac(msg.items).Some?
  {
    MacPresent(msg.items);
    assert HasType(msg.items, MAC_ADDRESS);
    var x :| x in msg.items && !x.Unknown? && TypeId(x) == MAC_ADDRESS;
    var i :| 0 <= i < |msg.items| && msg.items[i] == x;
    assert msg.items[i].Mac?;
  }

  lemma AcceptedMessage(s: Modem, msg: Message)
    requires s.phase.InSession? && ModemCheck(s, msg).None? && ModemSlots(s)
    ensures MAC_ADDRESS in RequiredTypes(msg.messageType) ==> ExtractMac(msg.items).Some?
    ensures msg.messageType == SESSION_UPDATE ==> ApplyStrict(FromItems(msg.items), s.peerAddresses).Some?
    ensures ExtractMac(msg.items).Some?
            && (msg.messageType == DESTINATION_UP_RESPONSE || msg.messageType == DESTINATION_DOWN_RESPONSE
                || msg.messageType == DESTINATION_DOWN || msg.messageType == LINK_CHARACTERISTICS_REQUEST)
            ==> ExtractMac(msg.items).value in s.destinations
  {
    hide Grammar, MacFormatOk, FromItems, ApplyStrict, ExtractMac;
    if MAC_ADDRESS in RequiredTypes(msg.messageType) { MacRequired(msg, s.config.extensions); }
  }

  function ModemAccept(s: Modem, msg: Message): Outcome
    requires s.phase.InSession? && ModemCheck(s, msg).None? && ModemSlots(s)
  {
    AcceptedMessage(s, msg);
    var mt := msg.messageType;
    if mt == SESSION_TERMINATION then ModemPeerTerminates(s, msg)
    else if mt == SESSION_UPDATE then ModemSessionUpdate(s, msg)
    else if mt == SESSION_UPDATE_RESPONSE then (s.(tx := Close(s.tx, SessionScope)), ResetAction(s.peerHeartbeat))
    else if mt == HEARTBEAT then (s, ResetAction(s.peerHeartbeat))
    else if mt == DESTINATION_UP_RESPONSE then ModemUpResponse(s, ExtractMac(msg.items).value, msg)
    else if mt == DESTINATION_ANNOUNCE then ModemAnnounce(s, ExtractMac(msg.items).value, msg)
    else if mt == DESTINATION_DOWN then ModemDown(s, ExtractMac(msg.items).value)
    else if mt == DESTINATION_DOWN_RESPONSE then ModemDownResponse(s, ExtractMac(msg.items).value)
    else ModemLinkRequest(s, ExtractMac(msg.items).value, msg)
  }

  function ModemVerdict(s: Modem, msg: Message): (r: Option<DataItem>)
    ensures r.Some? ==> r.value.Status?
  {
    if !(s.phase.Initializing? || s.phase.InSession?) then None
    else if msg.messageType != SESSION_TERMINATION && FatalStatus(msg.items).Some? then FatalStatus(msg.items)
    else match ModemCheck(s, msg)
      case Some(code) => Some(Status(code, []))
      case None => None
  }

  lemma RefusalEnds(s: Modem, msg: Message)
    ensures ModemVerdict(s, msg).Some? ==> EndsSession(ModemVerdict(s, msg).value)
    ensures ModemVerdict(s, msg).None? && (s.phase.Initializing? || s.phase.InSession?) ==>
              msg.messageType == SESSION_TERMINATION || forall i :: 0 <= i < |msg.items| ==> !EndsSession(msg.items[i])
  {
    FirstFatal(msg.items);
    hide Grammar, MacFormatOk, FromItems, ApplyStrict, ExtractMac, FatalStatus;
  }

  function ModemReceive(s: Modem, msg: Message): Outcome
    requires ModemSlots(s)
  {
    var verdict := ModemVerdict(s, msg);
    if verdict.Some? then ModemFail(s, verdict.value)
    else match s.phase
      case Initializing => ModemHandshake(s, msg)
      case InSession => ModemAccept(s, msg)
      case Terminating =>
        if msg.messageType == SESSION_TERMINATION_RESPONSE then
          (s.(phase := Terminated), [CancelTimer(TIMER_TERMINATION), CloseTcp, Emit(SessionDown(s.terminationReason))])
        else (s, [])
      case _ => (s, [])
  }

  function ModemAdd(s: Modem, mac: MacAddress, metrics: LinkMetrics, addrs: DestinationAddrs): Outcome {
    var effective := Absorb(metrics, s.sessionMetrics);
    var a := CanonicalAddrs(addrs);
    (s.(tx := Open(s.tx, DestinationScope(mac), DestinationUp),
        destinations := s.destinations[mac := ModemDestination(false, false, effective, CanonicalAddrs(a),
                                                               CanonicalAddrs(a))]),
     [SendMessage(BuildDestinationUp(mac, effective, a))])
  }

  function ModemDrop(s: Modem, mac: MacAddress): Outcome
    requires mac in s.destinations
  {
    if !s.destinations[mac].announced && mac !in s.tx.perDestination then
      (s.(destinations := s.destinations - {mac}), [])
    else
      (s.(tx := Open(s.tx, DestinationScope(mac), DestinationDown)), [SendMessage(BuildDestinationDown(mac))])
  }

  /** Held back until announced, sent as a delta afterwards. */
  function ModemUpdateMetrics(s: Modem, mac: MacAddress, metrics: LinkMetrics): Outcome
    requires mac in s.destinations
  {
    var d := s.destinations[mac].(metrics := Absorb(metrics, s.destinations[mac].metrics));
    if !d.announced || mac in s.tx.perDestination then
      (s.(destinations := s.destinations[mac := d.(pendingMetrics := true)]), [])
    else
      (s.(destinations := s.destinations[mac := d]), [SendMessage(BuildDestinationUpdate(mac, metrics))])
  }

  function ModemUpdateAddresses(s: Modem, mac: MacAddress, changes: AddressChanges): Outcome
    requires mac in s.destinations
  {
    var d := s.destinations[mac].(addrs := ApplyLenient(changes, s.destinations[mac].addrs));
    var effective := Between(d.advertised, d.addrs);
    if !d.announced || mac in s.tx.perDestination || effective == NO_CHANGES then
      (s.(destinations := s.destinations[mac := d]), [])
    else
      (s.(destinations := s.destinations[mac := d.(advertised := d.addrs)]),
       [SendMessage(Message(DESTINATION_UPDATE, [Mac(mac)] + ChangeItems(effective)))])
  }

  function ModemUpdateSession(s: Modem, metrics: LinkMetrics): Outcome {
    (s.(tx := Open(s.tx, SessionScope, SessionUpdate),
        sessionMetrics := Absorb(metrics, s.sessionMetrics),
        destinations := map m | m in s.destinations ::
          s.destinations[m].(metrics := Absorb(metrics, s.destinations[m].metrics))),
     [SendMessage(BuildSessionUpdate(metrics))])
  }

  function ModemAnswer(s: Modem, mac: MacAddress, status: u8, text: Text, reported: Option<LinkMetrics>): Outcome
    requires mac in s.destinations
  {
    var metrics := Reported(s.destinations[mac].metrics, reported);
    (s.(pendingLinks := s.pendingLinks - {mac},
        destinations := s.destinations[mac := s.destinations[mac].(metrics := metrics)]),
     [SendMessage(BuildLinkResponse(mac, status, text, metrics))])
  }

  function ModemCommand(s: Modem, e: Event): Outcome
    requires Command(e).Some? && ModemSlots(s) && ModemCommandError(s, e).None?
  {
    match e
    case AppAddDestination(mac, metrics, addrs) => ModemAdd(s, mac, metrics, addrs)
    case AppDropDestination(mac, _) => ModemDrop(s, mac)
    case AppUpdateMetrics(mac, metrics) => ModemUpdateMetrics(s, mac, metrics)
    case AppUpdateAddresses(mac, changes) => ModemUpdateAddresses(s, mac, changes)
    case AppSessionUpdate(metrics) => ModemUpdateSession(s, metrics)
    case AppLinkCharacteristicsResponse(mac, status, text, reported) => ModemAnswer(s, mac, status, text, reported)
    case AppSessionAddresses(changes) =>
      var (tx, local, actions) := LocalUpdate(s.tx, s.localAddresses, changes);
      (s.(tx := tx, localAddresses := local), actions)
  }

  function ModemTerminate(s: Modem, reason: u8, cancels: seq<Action>): Outcome {
    (s.(phase := Terminating, terminationReason := reason),
     cancels + [SendMessage(BuildTermination(reason)), StartTermination(s.config)])
  }

  function ModemLocal(s: Modem, e: Event): Outcome {
    match (s.phase, e)
    case (Unconnected, TcpAccepted) =>
      (s.(phase := Initializing), [StartTimer(TIMER_SESSION_INIT, SessionInitTimer, s.config.initTimeout, false)])
    case (Unconnected, AppShutdown(_)) => (s.(phase := Terminated), [])
    case (Unconnected, TcpClosed) => (s.(phase := Terminated), [])
    case (Initializing, TimerExpired(_, SessionInitTimer)) =>
      (s.(phase := Terminated), [CloseTcp, Emit(SessionDown(TIMED_OUT))])
    case (Initializing, TcpClosed) =>
      (s.(phase := Terminated), [CancelTimer(TIMER_SESSION_INIT), Emit(SessionDown(TIMED_OUT))])
    case (Initializing, AppShutdown(reason)) =>
      (s.(phase := Terminated), [CancelTimer(TIMER_SESSION_INIT), CloseTcp, Emit(SessionDown(reason))])
    case (InSession, RecvExtensionMessage) => (s, ResetAction(s.peerHeartbeat))
    case (InSession, TimerExpired(_, HeartbeatTimer)) => (s, [SendMessage(BuildHeartbeat())])
    case (InSession, TimerExpired(_, HeartbeatMissedTimer)) =>
      ModemTerminate(s, TIMED_OUT, [CancelTimer(TIMER_HEARTBEAT)])
    case (InSession, AppShutdown(reason)) =>
      ModemTerminate(s, reason, [CancelTimer(TIMER_HEARTBEAT), CancelTimer(TIMER_HEARTBEAT_MISSED)])
    case (InSession, TcpClosed) =>
      (s.(phase := Terminated),
       [CancelTimer(TIMER_HEARTBEAT), CancelTimer(TIMER_HEARTBEAT_MISSED), Emit(SessionDown(TIMED_OUT))])
    case (Terminating, TimerExpired(_, TerminationTimer)) =>
      (s.(phase := Terminated), [CloseTcp, Emit(SessionDown(TIMED_OUT))])
    case (Terminating, TcpClosed) =>
      (s.(phase := Terminated), [CancelTimer(TIMER_TERMINATION), Emit(SessionDown(s.terminationReason))])
    case _ => (s, [])
  }

  /** One step: `ModemSessionFsm::step`. */
  function ModemStep(s: Modem, e: Event): Outcome
    requires ModemSlots(s)
  {
    if Command(e).Some? then
      match ModemCommandError(s, e)
      case Some(error) => (s, Reject(e, error))
      case None => ModemCommand(s, e)
    else match e
      case RecvMessage(msg) => ModemReceive(s, msg)
      case ProtocolError(code) => ModemFail(s, Status(code, []))
      case _ => ModemLocal(s, e)
  }
}
