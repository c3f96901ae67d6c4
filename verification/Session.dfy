/** Events, actions and commands of the session machines
    (crates/dlep-fsm/src/events.rs, commands.rs and timers.rs), with the helpers
    both roles share.
 */
module Session {
  import opened Types
  import opened Addresses
  import opened Messages
  import opened Transactions

  /** Closed/Listening, SessionInitPending/AwaitingSessionInit, InSession,
      Terminating and Terminated: the two roles' states run in parallel. */
  datatype Phase = Unconnected | Initializing | InSession | Terminating | Terminated

  function Rank(p: Phase): nat {
    match p
    case Unconnected => 0
    case Initializing => 1
    case InSession => 2
    case Terminating => 3
    case Terminated => 4
  }

  datatype TimerKind = HeartbeatTimer | HeartbeatMissedTimer | SessionInitTimer | TerminationTimer

  const TIMER_SESSION_INIT: u32 := 1
  const TIMER_TERMINATION: u32 := 2
  const TIMER_HEARTBEAT: u32 := 3
  const TIMER_HEARTBEAT_MISSED: u32 := 4

  datatype Event =
    | RecvMessage(msg: Message)
    | RecvExtensionMessage
    | ProtocolError(code: u8)
    | TcpConnected
    | TcpAccepted
    | TcpClosed
    | TimerExpired(id: u32, kind: TimerKind)
    | AppAddDestination(mac: MacAddress, metrics: LinkMetrics, addrs: DestinationAddrs)
    | AppDropDestination(mac: MacAddress, reason: u8)
    | AppUpdateMetrics(mac: MacAddress, metrics: LinkMetrics)
    | AppUpdateAddresses(mac: MacAddress, changes: AddressChanges)
    | AppSessionAddresses(changes: AddressChanges)
    | AppAnnounceDestination(mac: MacAddress)
    | AppSessionUpdate(metrics: LinkMetrics)
    | AppRequestLinkCharacteristics(mac: MacAddress, requested: LinkCharacteristics)
    | AppLinkCharacteristicsResponse(mac: MacAddress, status: u8, text: Text, reported: Option<LinkMetrics>)
    | AppShutdown(reason: u8)

  datatype CommandKind =
    | AddDestination | DropDestination | UpdateMetrics | UpdateAddresses | SessionAddresses | SessionMetrics
    | AnnounceDestination | LinkCharacteristicsCommand | LinkCharacteristicsAnswer

  datatype CommandInfo = CommandInfo(kind: CommandKind, destination: Option<MacAddress>)

  datatype CommandError =
    | Busy | NotReady | UnknownDestination | AlreadyExists | Unsupported | InvalidInput | NoPendingRequest
    | MacAddressFormatMismatch

  /** None for everything but an application command; shutdown is not one. */
  function Command(e: Event): Option<CommandInfo> {
    match e
    case AppAddDestination(mac, _, _) => Some(CommandInfo(AddDestination, Some(mac)))
    case AppDropDestination(mac, _) => Some(CommandInfo(DropDestination, Some(mac)))
    case AppUpdateMetrics(mac, _) => Some(CommandInfo(UpdateMetrics, Some(mac)))
    case AppUpdateAddresses(mac, _) => Some(CommandInfo(UpdateAddresses, Some(mac)))
    case AppSessionAddresses(_) => Some(CommandInfo(SessionAddresses, None))
    case AppSessionUpdate(_) => Some(CommandInfo(SessionMetrics, None))
    case AppAnnounceDestination(mac) => Some(CommandInfo(AnnounceDestination, Some(mac)))
    case AppRequestLinkCharacteristics(mac, _) => Some(CommandInfo(LinkCharacteristicsCommand, Some(mac)))
    case AppLinkCharacteristicsResponse(mac, _, _, _) => Some(CommandInfo(LinkCharacteristicsAnswer, Some(mac)))
    case _ => None
  }

  datatype EmittedEvent =
    | CommandRejected(command: CommandInfo, error: CommandError)
    | SessionUp(peerExtensions: seq<u16>)
    | SessionDown(reason: u8)
    | DestinationUpEvent(mac: MacAddress, metrics: LinkMetrics, addrs: DestinationAddrs)
    | DestinationDownEvent(mac: MacAddress, reason: u8)
    | DestinationUpdateEvent(mac: MacAddress, metrics: LinkMetrics)
    | DestinationAddressesUpdate(mac: MacAddress, changes: AddressChanges, addresses: DestinationAddrs)
    | SessionAddressesUpdate(changes: AddressChanges, addresses: DestinationAddrs)
    | LinkCharacteristicsResponse(mac: MacAddress, status: u8, text: Text, metrics: LinkMetrics)
    | LinkCharacteristicsRequested(mac: MacAddress, requested: LinkCharacteristics, metrics: LinkMetrics, pending: bool)
    | SessionMetricsUpdate(metrics: LinkMetrics)
    | DestinationAnnounced(mac: MacAddress, requestedAddresses: AddressChanges)

  datatype Action =
    | SendMessage(msg: Message)
    | StartTimer(id: u32, kind: TimerKind, duration: Duration, periodic: bool)
    | CancelTimer(id: u32)
    | ResetHeartbeat(id: u32, missedDeadline: Duration)
    | CloseTcp
    | Emit(event: EmittedEvent)

  function Reject(e: Event, error: CommandError): seq<Action>
    requires Command(e).Some?
  {
    [Emit(CommandRejected(Command(e).value, error))]
  }

  /** Re-arm the missed-heartbeat deadline at twice the peer's interval. */
  function ResetAction(peer: Option<Duration>): seq<Action> {
    match MissedDeadline(peer)
    case None => []
    case Some(d) => [ResetHeartbeat(TIMER_HEARTBEAT_MISSED, d)]
  }

  function StartTermination(config: SessionConfig): Action {
    StartTimer(TIMER_TERMINATION, TerminationTimer, TerminationDeadline(config), false)
  }

  /** A peer interval for which the missed-heartbeat deadline exists. */
  predicate LiveInterval(peer: Option<Duration>) { MissedDeadline(peer).Some? }

  lemma EncodableIntervalIsLive(d: Duration)
    requires Encodable(HeartbeatInterval(d))
    ensures LiveInterval(Some(d))
  {
  }

  // --- Local session addresses ----------------------------------------------

  function LocalChange(local: DestinationAddrs, changes: AddressChanges): AddressChanges {
    Between(local, ApplyLenient(changes, local))
  }

  /** What `validate_local_address_update` accepts. */
  predicate LocalUpdateOk(local: DestinationAddrs, changes: AddressChanges) {
    Validate(changes) && MessageEncodable(BuildAddressUpdate(LocalChange(local, changes)))
  }

  /** Only an effective change opens the session slot and goes on the wire. */
  function LocalUpdate(tx: Tx, local: DestinationAddrs, changes: AddressChanges): (Tx, DestinationAddrs, seq<Action>) {
    if tx.session.Some? then (tx, local, Reject(AppSessionAddresses(changes), Busy))
    else if !LocalUpdateOk(local, changes) then (tx, local, Reject(AppSessionAddresses(changes), InvalidInput))
    else if LocalChange(local, changes) == NO_CHANGES then (tx, local, [])
    else (Open(tx, SessionScope, SessionUpdate), ApplyLenient(changes, local),
          [SendMessage(BuildAddressUpdate(LocalChange(local, changes)))])
  }

  // --- Reading an action list -----------------------------------------------

  /** Run `f` over an action list, in order. */
  function Fold<S>(f: (S, Action) -> S, s: S, actions: seq<Action>): S {
    if |actions| == 0 then s else f(Fold(f, s, actions[..|actions| - 1]), actions[|actions| - 1])
  }

  lemma {:induction false} FoldConcat<S>(f: (S, Action) -> S, s: S, a: seq<Action>, b: seq<Action>)
    ensures Fold(f, s, a + b) == Fold(f, Fold(f, s, a), b)
  {
    if |b| == 0 {
      assert a + b == a;
    } else {
      assert (a + b)[..|a + b| - 1] == a + b[..|b| - 1];
      FoldConcat(f, s, a, b[..|b| - 1]);
    }
  }

  /** Short lists, spelled out. */
  lemma FoldOne<S>(f: (S, Action) -> S, s: S, a: Action)
    ensures Fold(f, s, [a]) == f(s, a)
  {
    assert [a][..0] == [];
  }

  lemma FoldTwo<S>(f: (S, Action) -> S, s: S, a: Action, b: Action)
    ensures Fold(f, s, [a, b]) == f(f(s, a), b)
  {
    assert [a, b][..1] == [a];
    FoldOne(f, s, a);
  }

  lemma FoldThree<S>(f: (S, Action) -> S, s: S, a: Action, b: Action, c: Action)
    ensures Fold(f, s, [a, b, c]) == f(f(f(s, a), b), c)
  {
    assert [a, b, c][..2] == [a, b];
    FoldTwo(f, s, a, b);
  }

  lemma FoldFive<S>(f: (S, Action) -> S, s: S, a: Action, b: Action, c: Action, d: Action, e: Action)
    ensures Fold(f, s, [a, b, c, d, e]) == f(f(f(f(f(s, a), b), c), d), e)
  {
    assert [a, b, c, d, e] == [a, b, c] + [d, e];
    FoldConcat(f, s, [a, b, c], [d, e]);
    FoldThree(f, s, a, b, c);
    FoldTwo(f, f(f(f(s, a), b), c), d, e);
  }

  function PushSent(sent: seq<Message>, a: Action): seq<Message> {
    if a.SendMessage? then sent + [a.msg] else sent
  }

  /** The messages an action list sends, in order. */
  function Sent(actions: seq<Action>): seq<Message> {
    Fold(PushSent, [], actions)
  }

  lemma {:induction false} SentConcat(a: seq<Action>, b: seq<Action>)
    ensures Sent(a + b) == Sent(a) + Sent(b)
  {
    if |b| == 0 {
      assert a + b == a;
    } else {
      assert (a + b)[..|a + b| - 1] == a + b[..|b| - 1];
      SentConcat(a, b[..|b| - 1]);
    }
  }

  lemma {:induction false} SentNothing(actions: seq<Action>)
    requires forall i :: 0 <= i < |actions| ==> !actions[i].SendMessage?
    ensures Sent(actions) == []
  {
    if |actions| > 0 {
      SentNothing(actions[..|actions| - 1]);
    }
  }

  function PushEvent(events: seq<EmittedEvent>, a: Action): seq<EmittedEvent> {
    if a.Emit? then events + [a.event] else events
  }

  /** The events an action list emits, in order. */
  function Emitted(actions: seq<Action>): seq<EmittedEvent> {
    Fold(PushEvent, [], actions)
  }

  lemma {:induction false} EmittedConcat(a: seq<Action>, b: seq<Action>)
    ensures Emitted(a + b) == Emitted(a) + Emitted(b)
  {
    if |b| == 0 {
      assert a + b == a;
    } else {
      assert (a + b)[..|a + b| - 1] == a + b[..|b| - 1];
      EmittedConcat(a, b[..|b| - 1]);
    }
  }

  lemma EmittedOne(a: Action)
    ensures Emitted([a]) == if a.Emit? then [a.event] else []
  {
    FoldOne(PushEvent, [], a);
  }

  lemma {:induction false} EmittedNothing(actions: seq<Action>)
    requires forall i :: 0 <= i < |actions| ==> !actions[i].Emit?
    ensures Emitted(actions) == []
  {
    if |actions| > 0 { EmittedNothing(actions[..|actions| - 1]); }
  }

  lemma EmittedIf(present: bool, a: Action)
    requires a.Emit?
    ensures Emitted(if present then [a] else []) == if present then [a.event] else []
  {
    EmittedOne(a);
  }

  /** Events in the middle of an action list that emits nothing else. */
  lemma EmittedAround(head: seq<Action>, middle: seq<Action>, tail: seq<Action>)
    requires forall i :: 0 <= i < |head| ==> !head[i].Emit?
    requires forall i :: 0 <= i < |tail| ==> !tail[i].Emit?
    ensures Emitted(head + middle + tail) == Emitted(middle)
  {
    EmittedConcat(head + middle, tail);
    EmittedConcat(head, middle);
    EmittedNothing(head);
    EmittedNothing(tail);
  }

  lemma ResetEmitsNothing(peer: Option<Duration>)
    ensures forall i :: 0 <= i < |ResetAction(peer)| ==> !ResetAction(peer)[i].Emit?
    ensures Emitted(ResetAction(peer)) == []
  {
    EmittedNothing(ResetAction(peer));
  }

  lemma EmitsOnly(head: seq<Action>, x: EmittedEvent, tail: seq<Action>)
    requires forall i :: 0 <= i < |head| ==> !head[i].Emit?
    requires forall i :: 0 <= i < |tail| ==> !tail[i].Emit?
    ensures Emitted(head + [Emit(x)] + tail) == [x]
  {
    EmittedAround(head, [Emit(x)], tail);
    EmittedOne(Emit(x));
  }

  /** An action list whose last action is the only event. */
  lemma EndsWith(actions: seq<Action>, reason: u8)
    requires |actions| > 0 && actions[|actions| - 1] == Emit(SessionDown(reason))
    requires forall i :: 0 <= i < |actions| - 1 ==> !actions[i].Emit?
    ensures Emitted(actions) == [SessionDown(reason)]
  {
    var head := actions[..|actions| - 1];
    assert actions == head + [Emit(SessionDown(reason))] + [];
    EmitsOnly(head, SessionDown(reason), []);
  }

  // --- Timers ---------------------------------------------------------------

  /** The timers the runtime has armed, each with its duration. */
  type Armed = map<u32, Duration>

  function Arm(armed: Armed, a: Action): Armed {
    match a
    case StartTimer(id, _, d, _) => armed[id := d]
    case CancelTimer(id) => armed - {id}
    case ResetHeartbeat(id, d) => armed[id := d]
    case _ => armed
  }

  ghost function ArmAll(armed: Armed, actions: seq<Action>): Armed {
    Fold(Arm, armed, actions)
  }

  function KindOf(id: u32): TimerKind {
    if id == TIMER_SESSION_INIT then SessionInitTimer
    else if id == TIMER_TERMINATION then TerminationTimer
    else if id == TIMER_HEARTBEAT then HeartbeatTimer
    else HeartbeatMissedTimer
  }

  /** An expiry comes from an armed timer; a one-shot timer is then forgotten. */
  predicate Plausible(armed: Armed, e: Event) {
    e.TimerExpired? ==> e.id in armed && e.kind == KindOf(e.id)
  }

  function AfterExpiry(armed: Armed, e: Event): Armed {
    if e.TimerExpired? && !e.kind.HeartbeatTimer? then armed - {e.id} else armed
  }

  /** Exactly the timers a state needs: each live one has a deadline, and nothing
      is left armed at the end. */
  ghost predicate TimersFor(phase: Phase, config: SessionConfig, peer: Option<Duration>, armed: Armed) {
    match phase
    case Unconnected => armed == map[]
    case Initializing => armed == map[TIMER_SESSION_INIT := config.initTimeout]
    case InSession =>
      MissedDeadline(peer).Some? &&
      armed == map[TIMER_HEARTBEAT := LocalHeartbeat(config), TIMER_HEARTBEAT_MISSED := MissedDeadline(peer).value]
    case Terminating => armed == map[TIMER_TERMINATION := TerminationDeadline(config)]
    case Terminated => armed == map[]
  }

  predicate NoTimers(actions: seq<Action>) {
    forall i :: 0 <= i < |actions| ==> actions[i].SendMessage? || actions[i].Emit? || actions[i].CloseTcp?
  }

  lemma {:induction false} ArmNothing(armed: Armed, actions: seq<Action>)
    requires NoTimers(actions)
    ensures ArmAll(armed, actions) == armed
  {
    if |actions| > 0 {
      ArmNothing(armed, actions[..|actions| - 1]);
    }
  }

  /** Re-arming an already armed deadline to the same value changes nothing. */
  lemma ArmThenReset(armed: Armed, actions: seq<Action>, config: SessionConfig, peer: Option<Duration>)
    requires NoTimers(actions) && TimersFor(InSession, config, peer, armed)
    ensures ArmAll(armed, actions + ResetAction(peer)) == armed
  {
    FoldConcat(Arm, armed, actions, ResetAction(peer));
    ArmNothing(armed, actions);
    FoldOne(Arm, armed, ResetAction(peer)[0]);
  }

  /** The end of a session cancels what is armed. */
  lemma ArmCancelOne(armed: Armed, id: u32, tail: seq<Action>)
    requires armed.Keys <= {id} && NoTimers(tail)
    ensures ArmAll(armed, [CancelTimer(id)] + tail) == map[]
  {
    FoldConcat(Arm, armed, [CancelTimer(id)], tail);
    FoldOne(Arm, armed, CancelTimer(id));
    assert armed - {id} == map[];
    ArmNothing(armed - {id}, tail);
  }

  lemma ArmCancelTwo(armed: Armed, a: u32, b: u32, tail: seq<Action>)
    requires armed.Keys <= {a, b} && NoTimers(tail)
    ensures ArmAll(armed, [CancelTimer(a), CancelTimer(b)] + tail) == map[]
  {
    FoldConcat(Arm, armed, [CancelTimer(a), CancelTimer(b)], tail);
    FoldTwo(Arm, armed, CancelTimer(a), CancelTimer(b));
    assert armed - {a} - {b} == map[];
    ArmNothing(armed - {a} - {b}, tail);
  }

  /** The five actions with which either role begins termination. */
  lemma ArmFailure(armed: Armed, phase: Phase, config: SessionConfig, peer: Option<Duration>, msg: Message)
    requires TimersFor(phase, config, peer, armed) && Rank(phase) < 3
    ensures ArmAll(armed, [CancelTimer(TIMER_SESSION_INIT), CancelTimer(TIMER_HEARTBEAT),
                           CancelTimer(TIMER_HEARTBEAT_MISSED), SendMessage(msg), StartTermination(config)])
         == map[TIMER_TERMINATION := TerminationDeadline(config)]
  {
    FoldFive(Arm, armed, CancelTimer(TIMER_SESSION_INIT), CancelTimer(TIMER_HEARTBEAT),
             CancelTimer(TIMER_HEARTBEAT_MISSED), SendMessage(msg), StartTermination(config));
    var left := armed - {TIMER_SESSION_INIT} - {TIMER_HEARTBEAT} - {TIMER_HEARTBEAT_MISSED};
    assert left == map[];
  }

  /** Termination from an established session, with the missed deadline either
      just expired or cancelled along with the rest. */
  lemma ArmTermination(armed: Armed, cancels: seq<Action>, msg: Message, config: SessionConfig)
    requires cancels == [CancelTimer(TIMER_HEARTBEAT)]
             || cancels == [CancelTimer(TIMER_HEARTBEAT), CancelTimer(TIMER_HEARTBEAT_MISSED)]
    requires armed.Keys <= {TIMER_HEARTBEAT, TIMER_HEARTBEAT_MISSED}
    requires |cancels| == 1 ==> TIMER_HEARTBEAT_MISSED !in armed
    ensures ArmAll(armed, cancels + [SendMessage(msg), StartTermination(config)])
         == map[TIMER_TERMINATION := TerminationDeadline(config)]
  {
    FoldConcat(Arm, armed, cancels, [SendMessage(msg), StartTermination(config)]);
    FoldOne(Arm, armed, CancelTimer(TIMER_HEARTBEAT));
    FoldTwo(Arm, armed, CancelTimer(TIMER_HEARTBEAT), CancelTimer(TIMER_HEARTBEAT_MISSED));
    var left := ArmAll(armed, cancels);
    assert left == map[];
    FoldTwo(Arm, left, SendMessage(msg), StartTermination(config));
  }
}
