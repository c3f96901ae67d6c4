/** What the modem tells its application: every event carries the values the
    machine then holds and quotes the input it answers, every change of those
    values is reported, and a listener knows the peer's addresses after any run.
 */
module ModemReports {
  import opened Types
  import opened Addresses
  import opened Messages
  import opened Session
  import opened ModemSpec
  import MI = ModemInvariant

  predicate Announced(s: Modem, mac: MacAddress) { mac in s.destinations && s.destinations[mac].announced }

  /** The event fits the step from `s` to `t` on the input `e`. */
  ghost predicate Tells(s: Modem, e: Event, t: Modem, event: EmittedEvent) {
    match event
    case SessionUp(extensions) => s.phase.Initializing? && t.phase.InSession? && t.peerExtensions == extensions
    case SessionAddressesUpdate(changes, addrs) =>
      t.peerAddresses == addrs && changes != NO_CHANGES && ApplyStrict(changes, s.peerAddresses) == Some(addrs)
    case DestinationDownEvent(mac, reason) =>
      && e.RecvMessage? && Mac(mac) in e.msg.items && reason == SUCCESS
      && Announced(s, mac) && !Announced(t, mac) && mac in t.destinations
    case DestinationAnnounced(mac, requested) =>
      && e.RecvMessage? && Mac(mac) in e.msg.items && requested == FromItems(e.msg.items)
      && !Announced(s, mac) && (Announced(t, mac) <==> mac in s.destinations)
    case LinkCharacteristicsRequested(mac, requested, metrics, pending) =>
      && e.RecvMessage? && Mac(mac) in e.msg.items && requested == ExtractLinkCharacteristics(e.msg.items)
      && Announced(s, mac) && s.destinations[mac].metrics == metrics
      && mac !in s.pendingLinks && (mac in t.pendingLinks <==> pending)
    case SessionDown(reason) =>
      !s.phase.Terminated? && t.phase.Terminated? && Why(s, e, reason)
    case CommandRejected(command, _) => t == s && Command(e) == Some(command)
    case _ => false
  }

  /** A session ends for the reason given by the peer or the application, by the
      code this side had sent or refused the peer with, or because a deadline or
      the connection was lost. */
  ghost predicate Why(s: Modem, e: Event, reason: u8) {
    match e
    case AppShutdown(asked) => s.phase.Initializing? && reason == asked
    case ProtocolError(code) => s.phase.Initializing? && reason == code
    case RecvMessage(msg) =>
      if s.phase.Terminating? then msg.messageType == SESSION_TERMINATION_RESPONSE && reason == s.terminationReason
      else if s.phase.InSession? then msg.messageType == SESSION_TERMINATION && Gives(msg.items, reason, SHUTTING_DOWN)
      else if ModemVerdict(s, msg).Some? then reason == ModemVerdict(s, msg).value.code
      else msg.messageType != SESSION_INITIALIZATION && reason == INVALID_DATA
    case TcpClosed => reason == if s.phase.Terminating? then s.terminationReason else TIMED_OUT
    case TimerExpired(_, _) => reason == TIMED_OUT
    case _ => false
  }

  predicate TellsDown(event: EmittedEvent, mac: MacAddress) { event.DestinationDownEvent? && event.mac == mac }

  predicate TellsOwed(event: EmittedEvent, mac: MacAddress) {
    event.LinkCharacteristicsRequested? && event.mac == mac && event.pending
  }

  /** Whatever the peer or the session changed is among the events. */
  ghost predicate Complete(s: Modem, t: Modem, events: seq<EmittedEvent>) {
    && (forall mac :: Announced(s, mac) && mac in t.destinations && !Announced(t, mac) ==>
          exists x :: x in events && TellsDown(x, mac))
    && (forall mac :: mac in t.pendingLinks && mac !in s.pendingLinks ==> exists x :: x in events && TellsOwed(x, mac))
    && (s.peerAddresses != t.peerAddresses ==> exists x :: x in events && x.SessionAddressesUpdate?)
    && (t.phase.InSession? && !s.phase.InSession? ==> exists x :: x in events && x.SessionUp?)
  }

  /** The peer's addresses as a listener has them; None once a change did not
      apply to what it knew. */
  function Hear(known: Option<DestinationAddrs>, event: EmittedEvent): Option<DestinationAddrs> {
    if known.None? || !event.SessionAddressesUpdate? then known
    else if ApplyStrict(event.changes, known.value) != Some(event.addresses) then None
    else Some(event.addresses)
  }

  function HearAll(known: Option<DestinationAddrs>, events: seq<EmittedEvent>): Option<DestinationAddrs> {
    if |events| == 0 then known else Hear(HearAll(known, events[..|events| - 1]), events[|events| - 1])
  }

  lemma {:induction false} HearConcat(known: Option<DestinationAddrs>, a: seq<EmittedEvent>, b: seq<EmittedEvent>)
    ensures HearAll(known, a + b) == HearAll(HearAll(known, a), b)
  {
    if |b| == 0 {
      assert a + b == a;
    } else {
      assert (a + b)[..|a + b| - 1] == a + b[..|b| - 1];
      HearConcat(known, a, b[..|b| - 1]);
    }
  }

  lemma HearOne(known: Option<DestinationAddrs>, a: EmittedEvent)
    ensures HearAll(known, [a]) == Hear(known, a)
  {
    hide Hear;
    assert [a][..0] == [];
  }

  ghost predicate Keeps(s: Modem, t: Modem, events: seq<EmittedEvent>) {
    HearAll(Some(s.peerAddresses), events) == Some(t.peerAddresses)
  }

  ghost predicate AllTell(s: Modem, e: Event, t: Modem, events: seq<EmittedEvent>) {
    forall x :: x in events ==> Tells(s, e, t, x)
  }

  /** A step tells the truth, all of it, and keeps what a listener knows. */
  ghost predicate Honest(s: Modem, e: Event, r: Outcome) {
    var events := Emitted(r.1);
    AllTell(s, e, r.0, events) && Complete(s, r.0, events) && Keeps(s, r.0, events)
  }

  /** Nothing the listener is owed changes. */
  ghost predicate Quiet(s: Modem, t: Modem) {
    && t.peerAddresses == s.peerAddresses && t.pendingLinks <= s.pendingLinks
    && (forall mac :: Announced(s, mac) && mac in t.destinations ==> Announced(t, mac))
    && (t.phase.InSession? ==> s.phase.InSession?)
  }

  lemma SilentHonest(s: Modem, e: Event, r: Outcome)
    requires Quiet(s, r.0) && forall i :: 0 <= i < |r.1| ==> !r.1[i].Emit?
    ensures Honest(s, e, r)
  {
    EmittedNothing(r.1);
  }

  lemma OneHonest(s: Modem, e: Event, r: Outcome, x: EmittedEvent)
    requires Quiet(s, r.0) && Emitted(r.1) == [x] && Tells(s, e, r.0, x) && !x.SessionAddressesUpdate?
    ensures Honest(s, e, r)
  {
    hide Tells;
    HearOne(Some(s.peerAddresses), x);
  }

  lemma EndHonest(s: Modem, e: Event, r: Outcome, reason: u8)
    requires |r.1| > 0 && r.1[|r.1| - 1] == Emit(SessionDown(reason))
    requires forall i :: 0 <= i < |r.1| - 1 ==> !r.1[i].Emit?
    requires r.0 == s.(phase := Terminated) && !s.phase.Terminated? && Why(s, e, reason)
    ensures Honest(s, e, r)
  {
    hide Emitted, Honest, Why;
    EndsWith(r.1, reason);
    OneHonest(s, e, r, SessionDown(reason));
  }

  lemma UpResponseHonest(s: Modem, mac: MacAddress, msg: Message, e: Event)
    requires mac in s.destinations && !s.destinations[mac].announced
    ensures Honest(s, e, ModemUpResponse(s, mac, msg))
  {
    hide ResetAction, CatchUp, ExtractStatus, Honest;
    ResetEmitsNothing(s.peerHeartbeat);
    SilentHonest(s, e, ModemUpResponse(s, mac, msg));
  }

  lemma DownHonest(s: Modem, mac: MacAddress, msg: Message)
    requires Announced(s, mac) && Mac(mac) in msg.items
    ensures Honest(s, RecvMessage(msg), ModemDown(s, mac))
  {
    hide ResetAction, Emitted;
    var x := DestinationDownEvent(mac, SUCCESS);
    var a := SendMessage(BuildDestinationDownResponse(mac, SUCCESS));
    ResetEmitsNothing(s.peerHeartbeat);
    EmitsOnly([a], x, ResetAction(s.peerHeartbeat));
    assert [a] + [Emit(x)] + ResetAction(s.peerHeartbeat) == ModemDown(s, mac).1;
    HearOne(Some(s.peerAddresses), x);
    assert x in [x] && TellsDown(x, mac);
  }

  lemma AnnounceHonest(s: Modem, mac: MacAddress, msg: Message)
    requires !Announced(s, mac) && Mac(mac) in msg.items
    ensures Honest(s, RecvMessage(msg), ModemAnnounce(s, mac, msg))
  {
    hide ResetAction, Emitted, Honest, BuildAnnounceAccepted, FromItems;
    var r := ModemAnnounce(s, mac, msg);
    var x := DestinationAnnounced(mac, FromItems(msg.items));
    ResetEmitsNothing(s.peerHeartbeat);
    EmitsOnly([r.1[0]], x, ResetAction(s.peerHeartbeat));
    assert [r.1[0]] + [Emit(x)] + ResetAction(s.peerHeartbeat) == r.1;
    OneHonest(s, RecvMessage(msg), r, x);
  }

  lemma LinkRequestHonest(s: Modem, mac: MacAddress, msg: Message)
    requires Announced(s, mac) && Mac(mac) in msg.items && mac !in s.pendingLinks
    ensures Honest(s, RecvMessage(msg), ModemLinkRequest(s, mac, msg))
  {
    hide ResetAction, Emitted, BuildLinkResponse, ExtractLinkCharacteristics;
    var r := ModemLinkRequest(s, mac, msg);
    var deferred := s.config.deferLinkCharacteristics;
    var metrics := s.destinations[mac].metrics;
    var x := LinkCharacteristicsRequested(mac, ExtractLinkCharacteristics(msg.items), metrics, deferred);
    var head := if deferred then [] else [SendMessage(BuildLinkResponse(mac, REQUEST_DENIED, [], metrics))];
    ResetEmitsNothing(s.peerHeartbeat);
    EmitsOnly(head, x, ResetAction(s.peerHeartbeat));
    assert head + [Emit(x)] + ResetAction(s.peerHeartbeat) == r.1;
    HearOne(Some(s.peerAddresses), x);
    assert x in [x] && (deferred ==> TellsOwed(x, mac));
  }

  /** A new list of the peer's addresses, reported as a change of the old one. */
  lemma AddressesHonest(s: Modem, e: Event, t: Modem, x: EmittedEvent)
    requires t == s.(peerAddresses := t.peerAddresses) && x.SessionAddressesUpdate? && x.addresses == t.peerAddresses
    requires x.changes != NO_CHANGES && ApplyStrict(x.changes, s.peerAddresses) == Some(t.peerAddresses)
    ensures AllTell(s, e, t, [x]) && Complete(s, t, [x]) && Keeps(s, t, [x])
  {
    hide ApplyStrict;
    HearOne(Some(s.peerAddresses), x);
    assert x in [x];
  }

  lemma SessionUpdateHonest(s: Modem, msg: Message)
    requires ApplyStrict(FromItems(msg.items), s.peerAddresses).Some?
    ensures Honest(s, RecvMessage(msg), ModemSessionUpdate(s, msg))
  {
    hide ApplyStrict, FromItems, ResetAction, Emitted, AllTell, Complete, Keeps;
    var r, changes := ModemSessionUpdate(s, msg), FromItems(msg.items);
    var x := SessionAddressesUpdate(changes, ApplyStrict(changes, s.peerAddresses).value);
    var a := SendMessage(BuildSessionUpdateResponse(SUCCESS));
    ResetEmitsNothing(s.peerHeartbeat);
    if changes == NO_CHANGES {
      NoChangeApplies(s.peerAddresses);
      SilentHonest(s, RecvMessage(msg), r);
    } else {
      EmitsOnly([a], x, ResetAction(s.peerHeartbeat));
      assert [a] + [Emit(x)] + ResetAction(s.peerHeartbeat) == r.1;
      AddressesHonest(s, RecvMessage(msg), r.0, x);
    }
  }

  lemma PeerTerminatesHonest(s: Modem, msg: Message)
    requires s.phase.InSession? && msg.messageType == SESSION_TERMINATION
    ensures Honest(s, RecvMessage(msg), ModemPeerTerminates(s, msg))
  {
    hide ExtractStatus, Honest, Gives;
    GivesStatus(msg.items, SHUTTING_DOWN);
    var r := ModemPeerTerminates(s, msg);
    EndHonest(s, RecvMessage(msg), r, r.1[4].event.reason);
  }

  lemma AcceptHonest(s: Modem, msg: Message)
    requires ModemSlots(s) && s.phase.InSession? && ModemCheck(s, msg).None?
    ensures Honest(s, RecvMessage(msg), ModemAccept(s, msg))
  {
    AcceptedMessage(s, msg);
    if ExtractMac(msg.items).Some? { Turns(s, msg); }
    hide ModemCheck, ModemUpResponse, ModemDown, ModemDownResponse, ModemAnnounce, ModemLinkRequest, ModemSessionUpdate,
      ModemPeerTerminates, ResetAction, Honest, ExtractMac, ModemSlots;
    MacPresent(msg.items);
    ResetEmitsNothing(s.peerHeartbeat);
    var mt := msg.messageType;
    if mt == SESSION_UPDATE { SessionUpdateHonest(s, msg); }
    else if mt == SESSION_UPDATE_RESPONSE || mt == HEARTBEAT { SilentHonest(s, RecvMessage(msg), ModemAccept(s, msg)); }
    else if mt == SESSION_TERMINATION { PeerTerminatesHonest(s, msg); }
    else {
      var mac := ExtractMac(msg.items).value;
      if mt == DESTINATION_UP_RESPONSE { UpResponseHonest(s, mac, msg, RecvMessage(msg)); }
      else if mt == DESTINATION_ANNOUNCE { AnnounceHonest(s, mac, msg); }
      else if mt == DESTINATION_DOWN { DownHonest(s, mac, msg); }
      else if mt == DESTINATION_DOWN_RESPONSE { DownResponseHonest(s, mac, RecvMessage(msg)); }
      else { LinkRequestHonest(s, mac, msg); }
    }
  }

  lemma DownResponseHonest(s: Modem, mac: MacAddress, e: Event)
    ensures Honest(s, e, ModemDownResponse(s, mac))
  {
    hide ResetAction, Honest;
    ResetEmitsNothing(s.peerHeartbeat);
    SilentHonest(s, e, ModemDownResponse(s, mac));
  }

  /** What the transaction rules guarantee an accepted message's destination. */
  lemma Turns(s: Modem, msg: Message)
    requires ModemSlots(s) && s.phase.InSession? && ModemCheck(s, msg).None? && ExtractMac(msg.items).Some?
    ensures var mac := ExtractMac(msg.items).value;
            && (msg.messageType == DESTINATION_UP_RESPONSE ==> mac in s.destinations && !Announced(s, mac))
            && (msg.messageType == DESTINATION_DOWN ==> Announced(s, mac))
            && (msg.messageType == DESTINATION_ANNOUNCE ==> !Announced(s, mac))
            && (msg.messageType == LINK_CHARACTERISTICS_REQUEST ==> Announced(s, mac) && mac !in s.pendingLinks)
  {
    hide ModemContent, ExtractMac;
  }

  // --- The handshake --------------------------------------------------------

  lemma EstablishEmits(s: Modem, msg: Message)
    ensures var t := ModemEstablish(s, msg).0;
            Emitted(ModemEstablish(s, msg).1)
            == [SessionUp(t.peerExtensions)]
               + (if t.peerAddresses != NO_ADDRS
                  then [SessionAddressesUpdate(AddressChanges(t.peerAddresses, NO_ADDRS), t.peerAddresses)] else [])
  {
    hide FromItems, ResetAction, ExtractHeartbeat, ExtractExtensions, Fold, BuildInitializationResponse;
    var r := ModemEstablish(s, msg);
    var t := r.0;
    var u := Emit(SessionUp(t.peerExtensions));
    var w := Emit(SessionAddressesUpdate(AddressChanges(t.peerAddresses, NO_ADDRS), t.peerAddresses));
    var head := [r.1[0], r.1[1], r.1[2]] + ResetAction(t.peerHeartbeat);
    var c := if t.peerAddresses != NO_ADDRS then [w] else [];
    ResetEmitsNothing(t.peerHeartbeat);
    EmittedAround(head, [u] + c, []);
    EmittedConcat([u], c);
    EmittedOne(u);
    EmittedIf(t.peerAddresses != NO_ADDRS, w);
    assert r.1 == head + ([u] + c) + [];
  }

  lemma JoinTells(s: Modem, e: Event, t: Modem, x: EmittedEvent, y: EmittedEvent)
    requires s.phase.Initializing? && Blank(s) && t.phase.InSession? && CleanAddrs(t.peerAddresses)
    requires t.destinations == s.destinations && t.pendingLinks == s.pendingLinks
    requires x == SessionUp(t.peerExtensions)
    requires y == SessionAddressesUpdate(AddressChanges(t.peerAddresses, NO_ADDRS), t.peerAddresses)
    ensures var events := [x] + (if t.peerAddresses != NO_ADDRS then [y] else []);
            AllTell(s, e, t, events) && Complete(s, t, events)
  {
    hide ApplyStrict, CleanAddrs, Why, FromItems, ExtractLinkCharacteristics, Announced;
    FreshApplies(t.peerAddresses);
    var events := [x] + (if t.peerAddresses != NO_ADDRS then [y] else []);
    assert events[0] == x;
    assert t.peerAddresses != NO_ADDRS ==> events[1] == y;
    assert forall z :: z in events ==> z == x || (z == y && t.peerAddresses != NO_ADDRS);
  }

  lemma JoinHeard(s: Modem, t: Modem, x: EmittedEvent, y: EmittedEvent)
    requires s.phase.Initializing? && Blank(s) && t.phase.InSession? && CleanAddrs(t.peerAddresses)
    requires t.destinations == s.destinations && t.pendingLinks == s.pendingLinks
    requires x == SessionUp(t.peerExtensions)
    requires y == SessionAddressesUpdate(AddressChanges(t.peerAddresses, NO_ADDRS), t.peerAddresses)
    ensures Keeps(s, t, [x] + (if t.peerAddresses != NO_ADDRS then [y] else []))
  {
    FreshApplies(t.peerAddresses);
    hide ApplyStrict, CleanAddrs;
    HearConcat(Some(s.peerAddresses), [x], if t.peerAddresses != NO_ADDRS then [y] else []);
    HearOne(Some(s.peerAddresses), x);
    HearOne(Some(s.peerAddresses), y);
  }

  lemma EstablishHonest(s: Modem, msg: Message)
    requires ModemInv(s) && s.phase.Initializing? && ModemCheck(s, msg).None?
    requires msg.messageType == SESSION_INITIALIZATION
    ensures Honest(s, RecvMessage(msg), ModemEstablish(s, msg))
  {
    var t := ModemEstablish(s, msg).0;
    assert CleanAddrs(t.peerAddresses) by { MI.EstablishKept(s, msg); }
    hide ModemCheck, FromItems, ResetAction, ExtractHeartbeat, ExtractExtensions, Emitted, AllTell, Complete, Keeps,
      CleanAddrs, ModemData, ModemSlots, BuildInitializationResponse;
    EstablishEmits(s, msg);
    var x := SessionUp(t.peerExtensions);
    var y := SessionAddressesUpdate(AddressChanges(t.peerAddresses, NO_ADDRS), t.peerAddresses);
    JoinTells(s, RecvMessage(msg), t, x, y);
    JoinHeard(s, t, x, y);
  }

  lemma FailHonest(s: Modem, e: Event, status: DataItem)
    requires status.Status? && (s.phase.Initializing? ==> Why(s, e, status.code))
    ensures Honest(s, e, ModemFail(s, status))
  {
    hide Honest, Why;
    if s.phase.Initializing? { EndHonest(s, e, ModemFail(s, status), status.code); }
    else { SilentHonest(s, e, ModemFail(s, status)); }
  }

  lemma ReceiveHonest(s: Modem, msg: Message)
    requires ModemInv(s)
    ensures Honest(s, RecvMessage(msg), ModemReceive(s, msg))
  {
    hide ModemAccept, ModemEstablish, ModemCheck, FatalStatus, Honest, ModemInv, Gives;
    assert ModemSlots(s) by { MI.SlotsOf(s); }
    hide ModemSlots;
    var e, r := RecvMessage(msg), ModemReceive(s, msg);
    if ModemVerdict(s, msg).Some? { FailHonest(s, e, ModemVerdict(s, msg).value); }
    else if s.phase.Initializing? {
      if msg.messageType == SESSION_INITIALIZATION { EstablishHonest(s, msg); }
      else { EndHonest(s, e, r, INVALID_DATA); }
    }
    else if s.phase.InSession? { AcceptHonest(s, msg); }
    else if s.phase.Terminating? && msg.messageType == SESSION_TERMINATION_RESPONSE {
      EndHonest(s, e, r, s.terminationReason);
    }
    else { SilentHonest(s, e, r); }
  }

  lemma CommandHonest(s: Modem, e: Event)
    requires ModemSlots(s) && Command(e).Some? && ModemCommandError(s, e).None?
    ensures Honest(s, e, ModemCommand(s, e))
  {
    hide ApplyLenient, LocalChange, BuildAddressUpdate, Honest, MessageEncodable, Absorb, BuildDestinationUp, Between,
      CanonicalAddrs, BuildLinkResponse, Reported, BuildSessionUpdate, BuildDestinationUpdate, ValidMetrics, Validate,
      LocalUpdateOk;
    SilentHonest(s, e, ModemCommand(s, e));
  }

  lemma LocalHonest(s: Modem, e: Event)
    requires !e.RecvMessage? && !e.ProtocolError?
    ensures Honest(s, e, ModemLocal(s, e))
  {
    hide Honest, ResetAction, TerminationDeadline, BuildTermination;
    ResetEmitsNothing(s.peerHeartbeat);
    var r := ModemLocal(s, e);
    if |r.1| > 0 && r.1[|r.1| - 1].Emit? { EndHonest(s, e, r, r.1[|r.1| - 1].event.reason); }
    else { SilentHonest(s, e, r); }
  }

  lemma RejectHonest(s: Modem, e: Event, error: CommandError)
    requires Command(e).Some?
    ensures Honest(s, e, (s, Reject(e, error)))
  {
    hide Honest, Emitted;
    EmittedOne(Reject(e, error)[0]);
    OneHonest(s, e, (s, Reject(e, error)), CommandRejected(Command(e).value, error));
  }

  /** For any input in any state of the invariant: every event emitted carries the
      resulting values and quotes the input, every change is reported, and a
      listener that knew the peer's addresses still does. */
  lemma StepHonest(s: Modem, e: Event)
    requires ModemInv(s)
    ensures ModemSlots(s) && Honest(s, e, ModemStep(s, e))
  {
    hide ModemReceive, ModemCommand, ModemLocal, ModemCommandError, ModemInv, ModemFail, Reject, Honest;
    assert ModemSlots(s) by { MI.SlotsOf(s); }
    hide ModemSlots;
    if Command(e).Some? {
      if ModemCommandError(s, e).None? { CommandHonest(s, e); }
      else { RejectHonest(s, e, ModemCommandError(s, e).value); }
    }
    else if e.RecvMessage? { ReceiveHonest(s, e.msg); }
    else if e.ProtocolError? { FailHonest(s, e, Status(e.code, [])); }
    else { LocalHonest(s, e); }
  }

  /** Over every run with any peer, a listener knows the peer's addresses, in
      order, and is never told a change that does not apply to what it knows. */
  lemma {:induction false} ListenerAgrees(config: SessionConfig, events: seq<Event>)
    ensures var (t, actions) := MI.RunFromNew(config, events);
            HearAll(Some(NO_ADDRS), Emitted(actions)) == Some(t.peerAddresses)
  {
    MI.NewModemOk(config);
    var s := NewModem(config);
    hide ModemStep, ModemInv, Hear;
    if |events| == 0 {
      EmittedNothing([]);
    } else {
      var front, e := events[..|events| - 1], events[|events| - 1];
      ListenerAgrees(config, front);
      var (t, before) := MI.ModemRun(s, front);
      StepHonest(t, e);
      var actions := ModemStep(t, e).1;
      EmittedConcat(before, actions);
      HearConcat(Some(NO_ADDRS), Emitted(before), Emitted(actions));
    }
  }
}
