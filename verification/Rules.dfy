/** The receive rules read the other way round: item by item which messages may
    and must carry it, slot by slot which messages are in turn, code by code which
    messages are refused with it; and the timing both sides agree on in the
    handshake.
 */
module Rules {
  import opened Types
  import opened Addresses
  import opened Messages
  import opened Transactions
  import opened Validation
  import opened Session
  import R = RouterSpec
  import M = ModemSpec
  import RI = RouterInvariant
  import MI = ModemInvariant
  import RP = RouterPlay
  import MP = ModemPlay

  // --- Messages, by their numbers in section 12 of RFC 8175 -----------------

  /** What arrives at each role: 1 and 2 open the session, 3 to 5 and 16 go both
      ways, as do 11 and 12; the rest has one direction. */
  predicate Arrives(mt: u16, router: bool, initializing: bool) {
    if initializing then mt == if router then 2 else 1
    else mt in {3, 4, 5, 11, 12, 16} || mt in (if router then {7, 10, 13, 15} else {8, 9, 14})
  }

  /** The messages that may carry an item type. */
  function Carriers(t: u16, router: bool): set<u16> {
    if t == 1 then {2, 4, 5, 8, 10, 12, 15}
    else if t == 4 || t == 5 || t == 6 then {1, 2}
    else if t == 7 then {7, 8, 9, 10, 11, 12, 13, 14, 15}
    else if t == 8 || t == 9 then {1, 2, 3, 7, 9, 10, 13}
    else if t == 10 || t == 11 then {1, 2, 3, 7, 10, 13}
    else if 12 <= t <= 20 then
      {2, 7, 10, 13, 15} + (if router then {3} else {}) + (if 14 <= t <= 16 then {14} else {})
    else {}
  }

  /** The messages that must carry an item type. */
  function Demanders(t: u16): set<u16> {
    if t == 1 then {2, 4, 5, 8, 10, 12, 15}
    else if t == 4 || t == 5 then {1, 2}
    else if t == 7 then {7, 8, 9, 10, 11, 12, 13, 14, 15}
    else if 12 <= t <= 16 then {2}
    else {}
  }

  /** The grammar tables, transposed. */
  lemma TablesTransposed(mt: u16, router: bool, initializing: bool, t: u16)
    ensures Expected(mt, router, initializing) <==> Arrives(mt, router, initializing)
    ensures AllowedType(mt, router, t) <==> mt in Carriers(t, router)
    ensures t in RequiredTypes(mt) <==> mt in Demanders(t)
    ensures t in RequiredTypes(mt) ==> AllowedType(mt, router, t)
  {
  }

  // --- Turns ----------------------------------------------------------------

  /** The request a response closes, by the response's number. */
  function Closes(mt: u16): Option<RequestKind> {
    if mt == 8 then Some(DestinationUp) else if mt == 10 then Some(DestinationAnnounce)
    else if mt == 12 then Some(DestinationDown) else if mt == 15 then Some(LinkCharacteristicsKind) else None
  }

  /** A message is in turn exactly when a session update finds the session slot
      free and its response finds it open; a response about a destination closes
      the request that is open; a request finds the slot free; and the destination
      is up for 11, 13 and 14, not up for 7 and 9. A destination that should be up
      and is not has its own code; everything else out of turn is unexpected. */
  lemma TurnExactly(mt: u16, mac: MacAddress, tx: Tx, up: bool)
    ensures var slot := Slot(tx, DestinationScope(mac));
            var verdict := ValidateTransaction(mt, Some(mac), tx, up);
            var session := (mt == 3 ==> tx.session.None?) && (mt == 4 ==> tx.session == Some(SessionUpdate));
            var free := (mt in {7, 9, 11, 14} ==> slot.None?) && (Closes(mt).Some? ==> slot == Closes(mt));
            && (verdict.None? <==> session && free && (mt in {11, 13, 14} ==> up) && (mt in {7, 9} ==> !up))
            && (verdict == Some(INVALID_DESTINATION) <==> session && free && mt in {11, 13, 14} && !up)
            && (verdict.Some? ==> verdict.value == INVALID_DESTINATION || verdict.value == UNEXPECTED_MESSAGE)
    ensures ValidateTransaction(mt, None, tx, up)
         == if (mt == 3 ==> tx.session.None?) && (mt == 4 ==> tx.session == Some(SessionUpdate)) then None
            else Some(UNEXPECTED_MESSAGE)
  {
  }

  // --- Refusals -------------------------------------------------------------

  /** The verdict on a message, code by code, while a router listens. A status that
      ends sessions is echoed; otherwise a number outside 1 to 16 is unknown, one
      not expected here or out of turn is unexpected, a destination that is not up
      is invalid, and whatever else fails is invalid data. */
  lemma RouterCodes(s: R.Router, msg: Message)
    requires s.phase.InSession?
    requires msg.messageType != SESSION_TERMINATION ==> FatalStatus(msg.items).None?
    ensures var verdict := R.RouterVerdict(s, msg);
            var mt, mac := msg.messageType, ExtractMac(msg.items);
            var known := Arrives(mt, true, false);
            var sound := && Grammar(msg, true, false, s.config.extensions)
                         && MacFormatOk(msg, s.config.macFormat)
                         && (mt == 3 ==> ApplyStrict(FromItems(msg.items), s.peerAddresses).Some?)
                         && MetricTypes(msg.items) <= s.metricTypes
                         && (mt == 15 ==> MetricTypes(msg.items) == s.metricTypes);
            var turn := ValidateTransaction(mt, mac, s.tx, R.Known(s, mac));
            && (verdict.None? <==> known && sound && turn.None?)
            && (verdict == Some(Status(UNKNOWN_MESSAGE, [])) <==> !(1 <= mt <= 16))
            && (verdict == Some(Status(UNEXPECTED_MESSAGE, [])) <==>
                  1 <= mt <= 16 && (!known || (sound && turn == Some(UNEXPECTED_MESSAGE))))
            && (verdict == Some(Status(INVALID_DESTINATION, [])) <==>
                  known && sound && turn == Some(INVALID_DESTINATION))
            && (verdict == Some(Status(INVALID_DATA, [])) <==> known && !sound)
  {
    TablesTransposed(msg.messageType, true, false, 0);
    hide Grammar, MacFormatOk, MetricTypes, FromItems, ApplyStrict, ExtractMac, FatalStatus, Expected, Arrives;
    var mac := ExtractMac(msg.items);
    if mac.Some? { TurnExactly(msg.messageType, mac.value, s.tx, R.Known(s, mac)); }
    else { TurnExactly(msg.messageType, Eui48(0), s.tx, R.Known(s, mac)); }
    hide ValidateTransaction;
  }

  lemma ModemCodes(s: M.Modem, msg: Message)
    requires s.phase.InSession?
    requires msg.messageType != SESSION_TERMINATION ==> FatalStatus(msg.items).None?
    ensures var verdict := M.ModemVerdict(s, msg);
            var mt, mac := msg.messageType, ExtractMac(msg.items);
            var known := Arrives(mt, false, false);
            var sound := && Grammar(msg, false, false, s.config.extensions)
                         && MacFormatOk(msg, s.config.macFormat)
                         && (mt == 3 ==> ApplyStrict(FromItems(msg.items), s.peerAddresses).Some?);
            var owed := mac.Some? && mac.value in s.pendingLinks && mt in {11, 14};
            var turn := ValidateTransaction(mt, mac, s.tx, M.Known(s, mac));
            && (verdict.None? <==> known && sound && !owed && turn.None?)
            && (verdict == Some(Status(UNKNOWN_MESSAGE, [])) <==> !(1 <= mt <= 16))
            && (verdict == Some(Status(UNEXPECTED_MESSAGE, [])) <==>
                  1 <= mt <= 16 && (!known || (sound && (owed || turn == Some(UNEXPECTED_MESSAGE)))))
            && (verdict == Some(Status(INVALID_DESTINATION, [])) <==>
                  known && sound && !owed && turn == Some(INVALID_DESTINATION))
            && (verdict == Some(Status(INVALID_DATA, [])) <==> known && !sound)
  {
    TablesTransposed(msg.messageType, false, false, 0);
    hide Grammar, MacFormatOk, FromItems, ApplyStrict, ExtractMac, FatalStatus, Expected, Arrives;
    var mac := ExtractMac(msg.items);
    if mac.Some? { TurnExactly(msg.messageType, mac.value, s.tx, M.Known(s, mac)); }
    else { TurnExactly(msg.messageType, Eui48(0), s.tx, M.Known(s, mac)); }
    hide ValidateTransaction;
  }

  lemma GoodbyeSent(a: Action, b: Action, c: Action, msg: Message, timer: Action)
    requires !a.SendMessage? && !b.SendMessage? && !c.SendMessage? && !timer.SendMessage?
    ensures Sent([a, b, c, SendMessage(msg), timer]) == [msg]
  {
    FoldFive(PushSent, [], a, b, c, SendMessage(msg), timer);
  }

  /** A refused message ends the session with its verdict on the wire, and changes
      nothing else. */
  lemma RefusedWith(s: R.Router, msg: Message)
    requires R.RouterSlots(s) && R.RouterVerdict(s, msg).Some?
    ensures var (t, actions) := R.RouterStep(s, RecvMessage(msg));
            var status := R.RouterVerdict(s, msg).value;
            && Sent(actions) == [Message(SESSION_TERMINATION, [status])]
            && t == s.(phase := Terminating, terminationReason := status.code)
  {
    hide R.RouterCheck, FatalStatus, Sent;
    var actions := R.RouterStep(s, RecvMessage(msg)).1;
    GoodbyeSent(actions[0], actions[1], actions[2], actions[3].msg, actions[4]);
    assert actions == [actions[0], actions[1], actions[2], actions[3], actions[4]];
  }

  /** The modem does the same in session; during the handshake it closes at once. */
  lemma ModemRefusedWith(s: M.Modem, msg: Message)
    requires M.ModemSlots(s) && M.ModemVerdict(s, msg).Some?
    ensures var (t, actions) := M.ModemStep(s, RecvMessage(msg));
            var status := M.ModemVerdict(s, msg).value;
            if s.phase.InSession? then
              && Sent(actions) == [Message(SESSION_TERMINATION, [status])]
              && t == s.(phase := Terminating, terminationReason := status.code)
            else
              && Sent(actions) == [] && CloseTcp in actions && Emit(SessionDown(status.code)) in actions
              && t == s.(phase := Terminated)
  {
    hide M.ModemCheck, FatalStatus, Sent;
    var actions := M.ModemStep(s, RecvMessage(msg)).1;
    if s.phase.InSession? {
      GoodbyeSent(actions[0], actions[1], actions[2], actions[3].msg, actions[4]);
      assert actions == [actions[0], actions[1], actions[2], actions[3], actions[4]];
    } else {
      SentNothing(actions);
    }
  }

  // --- Timing ---------------------------------------------------------------

  /** The local interval is the configured one, but a second at least; giving up on
      a goodbye takes the configured time, or four intervals. */
  lemma Intervals(config: SessionConfig)
    ensures LocalHeartbeat(config) >= 1_000_000_000 && LocalHeartbeat(config) >= config.heartbeatMs * 1_000_000
    ensures LocalHeartbeat(config) == 1_000_000_000 || LocalHeartbeat(config) == config.heartbeatMs * 1_000_000
    ensures config.terminationTimeout.Some? ==> TerminationDeadline(config) == config.terminationTimeout.value
    ensures config.terminationTimeout.None? && config.heartbeatMs >= 1_000 ==>
              TerminationDeadline(config) == config.heartbeatMs * 4_000_000
    ensures config.terminationTimeout.None? && config.heartbeatMs < 1_000 ==>
              TerminationDeadline(config) == 4_000_000_000
  {
  }

  lemma {:induction false} ExtensionsFound(items: seq<DataItem>, ids: seq<u16>, rest: seq<DataItem>)
    requires forall i :: 0 <= i < |items| ==> !items[i].ExtensionsSupported?
    requires forall i :: 0 <= i < |rest| ==> !rest[i].ExtensionsSupported?
    ensures ExtractExtensions(items + ExtensionItems(ids) + rest) == ids
  {
    if |items| > 0 {
      assert (items + ExtensionItems(ids) + rest)[1..] == items[1..] + ExtensionItems(ids) + rest;
      ExtensionsFound(items[1..], ids, rest);
    } else if |ids| == 0 {
      assert items + ExtensionItems(ids) + rest == rest;
      ExtensionsPresent(rest);
    } else {
      assert (items + ExtensionItems(ids) + rest)[0] == ExtensionsSupported(ids);
    }
  }

  lemma MetricsOnly(m: LinkMetrics)
    ensures forall i :: 0 <= i < |MetricItems(m)| ==> !MetricItems(m)[i].ExtensionsSupported?
  {
  }

  lemma ResponseReads(config: SessionConfig)
    ensures ExtractHeartbeat(BuildInitializationResponse(config).items) == Some(LocalHeartbeat(config))
    ensures ExtractExtensions(BuildInitializationResponse(config).items) == config.extensions
  {
    hide LocalHeartbeat, MetricItems;
    MetricsOnly(config.initialMetrics);
    var items := BuildInitializationResponse(config).items;
    assert items[0] == Status(SUCCESS, []) && items[1] == HeartbeatInterval(LocalHeartbeat(config));
    assert items[1..][0] == items[1];
    ExtensionsFound(items[..3], config.extensions, MetricItems(config.initialMetrics));
    assert items == items[..3] + ExtensionItems(config.extensions) + MetricItems(config.initialMetrics);
  }

  lemma InitializationReads(config: SessionConfig)
    ensures ExtractHeartbeat(BuildInitialization(config).items) == Some(LocalHeartbeat(config))
    ensures ExtractExtensions(BuildInitialization(config).items) == config.extensions
  {
    hide LocalHeartbeat;
    var items := BuildInitialization(config).items;
    assert items[0] == HeartbeatInterval(LocalHeartbeat(config));
    ExtensionsFound(items[..2], config.extensions, []);
    assert items == items[..2] + ExtensionItems(config.extensions) + [];
  }

  lemma RouterTakes(r: R.Router, msg: Message)
    ensures var t := R.RouterEstablish(r, msg).0;
            && t.phase.InSession? && t.peerHeartbeat == ExtractHeartbeat(msg.items)
            && t.peerExtensions == ExtractExtensions(msg.items)
  {
    hide FromItems, Merge, MetricTypes, ExtractHeartbeat, ExtractExtensions, ResetAction;
  }

  lemma ModemTakes(m: M.Modem, msg: Message)
    ensures var t := M.ModemEstablish(m, msg).0;
            && t.phase.InSession? && t.peerHeartbeat == ExtractHeartbeat(msg.items)
            && t.peerExtensions == ExtractExtensions(msg.items)
  {
    hide FromItems, ExtractHeartbeat, ExtractExtensions, ResetAction, BuildInitializationResponse;
  }

  lemma Patience(peer: SessionConfig)
    ensures MissedDeadline(Some(LocalHeartbeat(peer))) == Some(2 * LocalHeartbeat(peer))
  {
  }

  /** What the handshake agrees on: each side waits for the other twice the period
      at which the other really sends, and knows the other's extensions. */
  lemma RouterHearsInTime(r: R.Router, peer: SessionConfig)
    requires r.phase.Initializing? && R.RouterInv(r) && ConfigEncodable(peer)
    ensures R.RouterSlots(r)
    ensures var t := R.RouterStep(r, RecvMessage(BuildInitializationResponse(peer))).0;
            && t.phase.InSession? && t.peerExtensions == peer.extensions
            && MissedDeadline(t.peerHeartbeat) == Some(2 * LocalHeartbeat(peer))
  {
    hide R.RouterStep, R.RouterInv, R.RouterEstablish, BuildInitializationResponse, ExtractHeartbeat, ExtractExtensions,
      ConfigEncodable, LocalHeartbeat, MissedDeadline, R.RouterSlots;
    RI.SlotsOf(r);
    RP.Welcomed(r, peer);
    RouterTakes(r, BuildInitializationResponse(peer));
    ResponseReads(peer);
    Patience(peer);
  }

  lemma ModemHearsInTime(m: M.Modem, peer: SessionConfig)
    requires m.phase.Initializing? && M.ModemInv(m) && ConfigEncodable(peer)
    ensures M.ModemSlots(m)
    ensures var t := M.ModemStep(m, RecvMessage(BuildInitialization(peer))).0;
            && t.phase.InSession? && t.peerExtensions == peer.extensions
            && MissedDeadline(t.peerHeartbeat) == Some(2 * LocalHeartbeat(peer))
  {
    hide M.ModemStep, M.ModemInv, M.ModemEstablish, BuildInitialization, ExtractHeartbeat, ExtractExtensions,
      ConfigEncodable, LocalHeartbeat, MissedDeadline, M.ModemSlots;
    MI.SlotsOf(m);
    MP.Welcomed(m, peer);
    ModemTakes(m, BuildInitialization(peer));
    InitializationReads(peer);
    Patience(peer);
  }
}
