/** What one router step does to the queues: while it stays in session, an
    accepted message is reflected exactly and answered by the rules of its
    transaction; otherwise the router falls silent.
 */
module RouterPlay {
  import opened Types
  import opened Addresses
  import opened Messages
  import opened Transactions
  import opened Validation
  import opened Conformance
  import opened Session
  import opened RouterSpec
  import opened ProtocolSpec
  import opened Exchange

  ghost predicate Speaks(out: seq<Message>, format: MacAddressFormat) {
    forall i :: 0 <= i < |out| ==>
      GoodForModem(out[i], format) && Affirmative(out[i]) && out[i].messageType != SESSION_TERMINATION
  }

  /** A turn of the router: answer by the rules, reflect what was taken, say
      what was changed, and leave less to be delivered. */
  ghost predicate Exchanges(r: Router, taken: seq<Message>, t: Router, out: seq<Message>) {
    && (forall scope :: RouterTurn(Lane(taken, scope), Lane(out, scope), Slot(r.tx, scope), Slot(t.tx, scope)))
    && (forall mac :: MirrorOf(t, mac) == ReflectAll(MirrorOf(r, mac), taken, mac))
    && Readdress(Some(r.peerAddresses), taken) == Some(t.peerAddresses)
    && Readdress(Some(r.localAddresses), out) == Some(t.localAddresses)
    && Speaks(out, r.config.macFormat)
    && (taken != [] ==> Load(out) < Load(taken))
    && t.config == r.config
  }

  ghost predicate Plays(r: Router, taken: seq<Message>, t: Router, out: seq<Message>) {
    Exchanges(r, taken, t, out) && t.phase == r.phase && t.metricTypes == r.metricTypes
  }

  /** The last words of a side that stops listening. */
  ghost predicate Farewell(out: seq<Message>) {
    out == [] || (|out| == 1 && (out[0].messageType == SESSION_TERMINATION
                                 || out[0].messageType == SESSION_TERMINATION_RESPONSE))
  }

  ghost predicate Quits(r: Router, t: Router, out: seq<Message>) {
    && !Listening(t.phase) && t.config == r.config
    && Farewell(out)
  }

  // --- Sent -----------------------------------------------------------------

  lemma SentReset(head: seq<Action>, peer: Option<Duration>, k: nat)
    requires k < |head| && head[k].SendMessage?
    requires forall i :: 0 <= i < |head| && i != k ==> !head[i].SendMessage?
    ensures Sent(head + ResetAction(peer)) == [head[k].msg]
  {
    hide Sent;
    SentSingle(head + ResetAction(peer), k);
  }

  lemma SilentReset(head: seq<Action>, peer: Option<Duration>)
    requires forall i :: 0 <= i < |head| ==> !head[i].SendMessage?
    ensures Sent(head + ResetAction(peer)) == []
  {
    hide Sent;
    SentNothing(head + ResetAction(peer));
  }

  // --- Assembling `Plays` ---------------------------------------------------

  lemma QuietTurn(r: Router, msg: Message, t: Router)
    requires forall scope :: RouterTurn(TagOf(msg, scope), [], Slot(r.tx, scope), Slot(t.tx, scope))
    requires forall mac :: MirrorOf(t, mac) == Reflect(MirrorOf(r, mac), msg, mac)
    requires msg.messageType != SESSION_UPDATE && t.peerAddresses == r.peerAddresses
    requires t.localAddresses == r.localAddresses
    requires t.phase == r.phase && t.metricTypes == r.metricTypes && t.config == r.config
    ensures Plays(r, [msg], t, [])
  {
    hide TagOf, RouterTurn, Reflect, MirrorOf;
    forall scope ensures RouterTurn(Lane([msg], scope), Lane([], scope), Slot(r.tx, scope), Slot(t.tx, scope)) {
      LaneOne(msg, scope);
    }
    forall mac ensures MirrorOf(t, mac) == ReflectAll(MirrorOf(r, mac), [msg], mac) {
      ReflectOne(MirrorOf(r, mac), msg, mac);
    }
    ReaddressOne(r.peerAddresses, msg);
    LoadOne(msg);
  }

  lemma AnsweringTurn(r: Router, msg: Message, t: Router, answer: Message)
    requires forall scope :: RouterTurn(TagOf(msg, scope), TagOf(answer, scope), Slot(r.tx, scope), Slot(t.tx, scope))
    requires forall mac :: MirrorOf(t, mac) == Reflect(MirrorOf(r, mac), msg, mac)
    requires (if msg.messageType == SESSION_UPDATE then ApplyStrict(FromItems(msg.items), r.peerAddresses)
              else Some(r.peerAddresses)) == Some(t.peerAddresses)
    requires answer.messageType != SESSION_UPDATE && t.localAddresses == r.localAddresses
    requires Speaks([answer], r.config.macFormat) && Weight(answer) < Weight(msg)
    requires t.phase == r.phase && t.metricTypes == r.metricTypes && t.config == r.config
    ensures Plays(r, [msg], t, [answer])
  {
    hide TagOf, RouterTurn, Reflect, MirrorOf, Speaks, ApplyStrict, FromItems;
    forall scope ensures RouterTurn(Lane([msg], scope), Lane([answer], scope), Slot(r.tx, scope), Slot(t.tx, scope)) {
      LaneOne(msg, scope);
      LaneOne(answer, scope);
    }
    forall mac ensures MirrorOf(t, mac) == ReflectAll(MirrorOf(r, mac), [msg], mac) {
      ReflectOne(MirrorOf(r, mac), msg, mac);
    }
    ReaddressOne(r.peerAddresses, msg);
    ReaddressOne(r.localAddresses, answer);
    LoadOne(msg);
    LoadOne(answer);
  }

  // --- One accepted message -------------------------------------------------

  ghost predicate Takes(r: Router, msg: Message, mt: u16) {
    && r.phase.InSession? && RouterSlots(r)
    && msg.messageType == mt && RouterCheck(r, msg).None?
  }

  ghost predicate PlaysOn(r: Router, msg: Message)
    requires r.phase.InSession? && RouterCheck(r, msg).None? && RouterSlots(r)
  {
    var (t, actions) := RouterAccept(r, msg);
    t.phase.InSession? && Plays(r, [msg], t, Sent(actions))
  }

  lemma SessionUpdatePlays(r: Router, msg: Message)
    requires Takes(r, msg, SESSION_UPDATE)
    ensures PlaysOn(r, msg)
  {
    var t := RouterAccept(r, msg).0;
    var answer := BuildSessionUpdateResponse(SUCCESS);
    SentAnswer(r, msg);
    assert r.tx.session.None?;
    StatusOnly(SESSION_UPDATE_RESPONSE, SUCCESS, DEFAULT_METRICS, r.config.macFormat);
    forall mac ensures MirrorOf(t, mac) == Reflect(MirrorOf(r, mac), msg, mac) {
      SessionUpdateReflected(r, msg, mac);
    }
    assert Speaks([answer], r.config.macFormat);
    forall scope ensures RouterTurn(TagOf(msg, scope), TagOf(answer, scope), Slot(r.tx, scope), Slot(t.tx, scope)) {
    }
    hide RouterTurn, TagOf, Reflect, MirrorOf, Plays, ApplyStrict, FromItems;
    AnsweringTurn(r, msg, t, answer);
  }

  lemma SentAnswer(r: Router, msg: Message)
    requires Takes(r, msg, SESSION_UPDATE)
    ensures Sent(RouterAccept(r, msg).1) == [BuildSessionUpdateResponse(SUCCESS)]
  {
    hide Sent;
    SentSingle(RouterAccept(r, msg).1, 0);
  }

  lemma SessionUpdateReflected(r: Router, msg: Message, mac: MacAddress)
    requires msg.messageType == SESSION_UPDATE && ApplyStrict(FromItems(msg.items), r.peerAddresses).Some?
    ensures MirrorOf(RouterSessionUpdate(r, msg).0, mac) == Reflect(MirrorOf(r, mac), msg, mac)
  {
    hide Merge, ApplyStrict, FromItems;
    if !HasMetrics(msg.items) && mac in r.destinations {
      MergeNothing(msg.items, r.destinations[mac].metrics);
    }
  }

  lemma AnswerTaken(r: Router, msg: Message)
    requires Takes(r, msg, SESSION_UPDATE_RESPONSE)
    ensures r.tx.session == Some(SessionUpdate)
    ensures RouterAccept(r, msg)
         == (r.(tx := Transactions.Close(r.tx, SessionScope)), [] + ResetAction(r.peerHeartbeat))
  {
    assert [] + ResetAction(r.peerHeartbeat) == ResetAction(r.peerHeartbeat);
    hide RouterContent, RouterSlots, ExtractMac, ResetAction, RouterSpec.Known;
  }

  lemma AnswerTurn(r: Router, msg: Message)
    requires msg.messageType == SESSION_UPDATE_RESPONSE && r.tx.session == Some(SessionUpdate)
    ensures var t := r.(tx := Transactions.Close(r.tx, SessionScope));
            && (forall scope :: RouterTurn(TagOf(msg, scope), [], Slot(r.tx, scope), Slot(t.tx, scope)))
            && (forall m :: MirrorOf(t, m) == Reflect(MirrorOf(r, m), msg, m))
  {
    hide ExtractMac, Merge;
  }

  lemma UpdateAnswered(r: Router, msg: Message)
    requires Takes(r, msg, SESSION_UPDATE_RESPONSE)
    ensures PlaysOn(r, msg)
  {
    hide RouterCheck, RouterSlots, RouterAccept, TagOf, Reflect, MirrorOf, RouterTurn, Plays, Sent, ResetAction;
    AnswerTaken(r, msg);
    SilentReset([], r.peerHeartbeat);
    AnswerTurn(r, msg);
    QuietTurn(r, msg, r.(tx := Transactions.Close(r.tx, SessionScope)));
  }

  lemma HeartbeatPlays(r: Router, msg: Message)
    requires Takes(r, msg, HEARTBEAT)
    ensures PlaysOn(r, msg)
  {
    var (t, actions) := RouterAccept(r, msg);
    assert t == r && actions == [] + ResetAction(r.peerHeartbeat);
    SilentReset([], r.peerHeartbeat);
    hide RouterAccept, RouterCheck, Sent, TagOf, Reflect;
    forall scope ensures RouterTurn(TagOf(msg, scope), [], Slot(r.tx, scope), Slot(t.tx, scope)) {
      NeutralTag(msg, scope);
    }
    forall mac ensures MirrorOf(t, mac) == Reflect(MirrorOf(r, mac), msg, mac) {
      NeutralReflect(MirrorOf(r, mac), msg, mac);
    }
    QuietTurn(r, msg, t);
  }

  /** Facts about an accepted message of a destination. */
  lemma Addressed(r: Router, msg: Message)
    requires r.phase.InSession? && RouterSlots(r) && RouterCheck(r, msg).None?
    requires MAC_ADDRESS in RequiredTypes(msg.messageType)
    ensures ExtractMac(msg.items).Some?
    ensures Accepts(r.config.macFormat, ExtractMac(msg.items).value)
    ensures var mac := ExtractMac(msg.items).value;
            && (DestinationRequestKind(msg.messageType).Some? ==> mac !in r.tx.perDestination)
            && (ResponseKind(msg.messageType).Some? ==>
                  Slot(r.tx, DestinationScope(mac)) == ResponseKind(msg.messageType))
  {
    AcceptedMessage(r, msg);
    MacPresent(msg.items);
  }

  /** Up is answered at once: its scope is free before and after. */
  lemma UpTurn(r: Router, mac: MacAddress, msg: Message, answer: Message)
    requires msg.messageType == DESTINATION_UP && ExtractMac(msg.items) == Some(mac)
    requires mac !in r.tx.perDestination && mac !in r.destinations
    requires answer.messageType == DESTINATION_UP_RESPONSE && ExtractMac(answer.items) == Some(mac)
    ensures var t := RouterUp(r, mac, msg).0;
            && (forall scope ::
                  RouterTurn(TagOf(msg, scope), TagOf(answer, scope), Slot(r.tx, scope), Slot(t.tx, scope)))
            && (forall m :: MirrorOf(t, m) == Reflect(MirrorOf(r, m), msg, m))
  {
    hide Merge, ExtractMac, ApplyLenient, OwnedChanges, FromItems;
  }

  lemma UpTaken(r: Router, msg: Message)
    requires Takes(r, msg, DESTINATION_UP)
    ensures ExtractMac(msg.items).Some? && Accepts(r.config.macFormat, ExtractMac(msg.items).value)
    ensures var mac := ExtractMac(msg.items).value;
            && mac !in r.tx.perDestination && mac !in r.destinations
            && RouterAccept(r, msg) == RouterUp(r, mac, msg)
  {
    Addressed(r, msg);
    AcceptedMessage(r, msg);
    hide RouterCheck, RouterSlots, RouterUp, ExtractMac, FromItems, ApplyStrict;
  }

  lemma UpPlays(r: Router, msg: Message)
    requires Takes(r, msg, DESTINATION_UP)
    ensures PlaysOn(r, msg)
  {
    hide RouterCheck, RouterSlots, RouterAccept, ExtractMac, FromItems, ApplyStrict, NewDestination, TagOf, Reflect,
         MirrorOf, RouterTurn, Plays, Speaks, Sent, Merge;
    UpTaken(r, msg);
    var mac := ExtractMac(msg.items).value;
    var t := RouterUp(r, mac, msg).0;
    var answer := BuildDestinationUpResponse(mac, SUCCESS);
    SentReset([SendMessage(answer),
               Emit(DestinationUpEvent(mac, t.destinations[mac].metrics, t.destinations[mac].addrs))],
              r.peerHeartbeat, 0);
    AnswerSpeaks(mac, r.config.macFormat);
    FirstMac(mac, Status(SUCCESS, []));
    UpTurn(r, mac, msg, answer);
    AnsweringTurn(r, msg, t, answer);
  }

  lemma AnswerSpeaks(mac: MacAddress, format: MacAddressFormat)
    requires Accepts(format, mac)
    ensures Speaks([BuildDestinationUpResponse(mac, SUCCESS)], format)
  {
    hide GoodForModem, GoodForRouter, Merge, ExtractStatus;
    MacAndStatus(DESTINATION_UP_RESPONSE, mac, SUCCESS, DEFAULT_METRICS, format);
  }

  lemma FirstMac(mac: MacAddress, x: DataItem)
    ensures ExtractMac([Mac(mac), x]) == Some(mac)
  {
  }

  lemma UpdatePlays(r: Router, msg: Message)
    requires Takes(r, msg, DESTINATION_UPDATE)
    ensures PlaysOn(r, msg)
  {
    Addressed(r, msg);
    AcceptedMessage(r, msg);
    var t := RouterAccept(r, msg).0;
    UpdateSilent(r, msg);
    hide Merge, OwnedChanges, ExtractMac, ApplyLenient, Between;
    QuietTurn(r, msg, t);
  }

  lemma UpdateSilent(r: Router, msg: Message)
    requires Takes(r, msg, DESTINATION_UPDATE)
    ensures Sent(RouterAccept(r, msg).1) == []
  {
    Addressed(r, msg);
    AcceptedMessage(r, msg);
    var (_, actions) := RouterUpdate(r, ExtractMac(msg.items).value, msg);
    assert RouterAccept(r, msg).1 == actions;
    hide Sent, RouterAccept, RouterCheck, Merge, Between, ApplyLenient, OwnedChanges, HasMetrics;
    SentNothing(actions);
  }

  lemma DownPlays(r: Router, msg: Message)
    requires Takes(r, msg, DESTINATION_DOWN)
    ensures PlaysOn(r, msg)
  {
    Addressed(r, msg);
    AcceptedMessage(r, msg);
    var mac := ExtractMac(msg.items).value;
    var t, actions := RouterAccept(r, msg).0, RouterAccept(r, msg).1;
    var answer := BuildDestinationDownResponse(mac, SUCCESS);
    SentReset(actions[..2], r.peerHeartbeat, 0);
    assert actions == actions[..2] + ResetAction(r.peerHeartbeat);
    MacAndStatus(DESTINATION_DOWN_RESPONSE, mac, SUCCESS, DEFAULT_METRICS, r.config.macFormat);
    assert Speaks([answer], r.config.macFormat);
    FirstMac(mac, Status(SUCCESS, []));
    hide Merge, ExtractMac, FromItems, ApplyStrict;
    AnsweringTurn(r, msg, t, answer);
  }

  lemma DownAnswered(r: Router, msg: Message)
    requires Takes(r, msg, DESTINATION_DOWN_RESPONSE)
    ensures PlaysOn(r, msg)
  {
    Addressed(r, msg);
    AcceptedMessage(r, msg);
    var t, actions := RouterAccept(r, msg).0, RouterAccept(r, msg).1;
    SilentReset(actions[..1], r.peerHeartbeat);
    assert actions == actions[..1] + ResetAction(r.peerHeartbeat);
    hide Merge, ExtractMac;
    QuietTurn(r, msg, t);
  }

  lemma AnnounceAnswered(r: Router, msg: Message)
    requires Takes(r, msg, DESTINATION_ANNOUNCE_RESPONSE)
    ensures PlaysOn(r, msg)
  {
    Addressed(r, msg);
    AcceptedMessage(r, msg);
    var t := RouterAccept(r, msg).0;
    AnnounceSilent(r, msg);
    hide Merge, OwnedChanges, ExtractMac, ApplyLenient;
    QuietTurn(r, msg, t);
  }

  lemma AnnounceSilent(r: Router, msg: Message)
    requires Takes(r, msg, DESTINATION_ANNOUNCE_RESPONSE)
    ensures Sent(RouterAccept(r, msg).1) == []
  {
    hide Sent;
    SentNothing(RouterAccept(r, msg).1);
  }

  lemma LinkAnswered(r: Router, msg: Message)
    requires Takes(r, msg, LINK_CHARACTERISTICS_RESPONSE)
    ensures PlaysOn(r, msg)
  {
    Addressed(r, msg);
    AcceptedMessage(r, msg);
    var t, actions := RouterAccept(r, msg).0, RouterAccept(r, msg).1;
    SilentReset(actions[..1], r.peerHeartbeat);
    assert actions == actions[..1] + ResetAction(r.peerHeartbeat);
    hide Merge, ExtractMac;
    QuietTurn(r, msg, t);
  }

  lemma AcceptPlays(r: Router, msg: Message)
    requires r.phase.InSession? && RouterSlots(r) && RouterCheck(r, msg).None? && msg.messageType != SESSION_TERMINATION
    ensures PlaysOn(r, msg)
  {
    var mt := msg.messageType;
    assert Expected(mt, true, false);
    hide RouterCheck, RouterAccept, RouterSlots, PlaysOn;
    if mt == SESSION_UPDATE { SessionUpdatePlays(r, msg); }
    else if mt == SESSION_UPDATE_RESPONSE { UpdateAnswered(r, msg); }
    else if mt == HEARTBEAT { HeartbeatPlays(r, msg); }
    else if mt == DESTINATION_UP { UpPlays(r, msg); }
    else if mt == DESTINATION_UPDATE { UpdatePlays(r, msg); }
    else if mt == DESTINATION_DOWN { DownPlays(r, msg); }
    else if mt == DESTINATION_DOWN_RESPONSE { DownAnswered(r, msg); }
    else if mt == DESTINATION_ANNOUNCE_RESPONSE { AnnounceAnswered(r, msg); }
    else { LinkAnswered(r, msg); }
  }

  // --- A whole step ---------------------------------------------------------

  /** Nothing said, or a termination the peer will accept. */
  ghost predicate Goodbye(out: seq<Message>, format: MacAddressFormat) {
    out == [] || (|out| == 1 && out[0].messageType == SESSION_TERMINATION && GoodForModem(out[0], format))
  }

  lemma FailQuits(r: Router, code: u8)
    ensures var (t, actions) := RouterFail(r, Status(code, []));
            Quits(r, t, Sent(actions)) && Goodbye(Sent(actions), r.config.macFormat)
  {
    var actions := RouterFail(r, Status(code, [])).1;
    if |actions| == 0 { SentNothing(actions); } else { SentSingle(actions, 3); }
    StatusOnly(SESSION_TERMINATION, code, DEFAULT_METRICS, r.config.macFormat);
  }

  lemma PeerTerminatesQuits(r: Router, msg: Message)
    ensures var (t, actions) := RouterPeerTerminates(r, msg); Quits(r, t, Sent(actions))
  {
    SentSingle(RouterPeerTerminates(r, msg).1, 2);
  }

  /** A message in session is either played or ends the session. */
  lemma ReceivePlays(r: Router, msg: Message)
    requires r.phase.InSession? && RouterSlots(r)
    requires msg.messageType != SESSION_TERMINATION ==> FatalStatus(msg.items).None?
    ensures var (t, actions) := RouterStep(r, RecvMessage(msg));
            || (msg.messageType != SESSION_TERMINATION && Plays(r, [msg], t, Sent(actions)))
            || (Quits(r, t, Sent(actions))
                && (msg.messageType != SESSION_TERMINATION ==> Goodbye(Sent(actions), r.config.macFormat)))
  {
    hide RouterCheck, RouterAccept, Sent, FatalStatus, Plays, Quits, Goodbye, RouterSlots, RouterFail,
         RouterPeerTerminates;
    if RouterCheck(r, msg).Some? {
      FailQuits(r, RouterCheck(r, msg).value);
    } else if msg.messageType == SESSION_TERMINATION {
      PeerTerminatesQuits(r, msg);
      TerminationAccepted(r, msg);
    } else {
      AcceptPlays(r, msg);
    }
  }

  lemma TerminationAccepted(r: Router, msg: Message)
    requires Takes(r, msg, SESSION_TERMINATION)
    ensures RouterAccept(r, msg) == RouterPeerTerminates(r, msg)
  {
  }

  // --- Commands and local events --------------------------------------------

  /** A turn in which nothing was received. */
  ghost predicate Acts(r: Router, t: Router, out: seq<Message>) {
    Plays(r, [], t, out) && t.destinations == r.destinations
  }

  lemma Idle(r: Router, t: Router, out: seq<Message>)
    requires forall scope :: RouterTurn([], Lane(out, scope), Slot(r.tx, scope), Slot(t.tx, scope))
    requires t == r.(tx := t.tx, localAddresses := t.localAddresses)
    requires Readdress(Some(r.localAddresses), out) == Some(t.localAddresses)
    requires Speaks(out, r.config.macFormat)
    ensures Acts(r, t, out)
  {
    hide RouterTurn, Speaks, Slot;
    forall scope ensures RouterTurn(Lane([], scope), Lane(out, scope), Slot(r.tx, scope), Slot(t.tx, scope)) {
      assert Lane([], scope) == [];
    }
  }

  lemma NothingHappens(r: Router)
    ensures Acts(r, r, [])
  {
    forall scope ensures RouterTurn([], Lane([], scope), Slot(r.tx, scope), Slot(r.tx, scope)) {
      assert Lane([], scope) == [];
    }
    hide RouterTurn, Slot;
    Idle(r, r, []);
  }

  /** A request for a destination whose slot is free. */
  lemma Requests(r: Router, mac: MacAddress, kind: RequestKind, msg: Message)
    requires mac !in r.tx.perDestination
    requires DestinationRequestKind(msg.messageType) == Some(kind) && ExtractMac(msg.items) == Some(mac)
    requires GoodForModem(msg, r.config.macFormat)
    ensures Acts(r, r.(tx := Open(r.tx, DestinationScope(mac), kind)), [msg])
  {
    var t := r.(tx := Open(r.tx, DestinationScope(mac), kind));
    hide GoodForModem, ExtractMac, ApplyStrict, FromItems;
    forall scope ensures RouterTurn([], Lane([msg], scope), Slot(r.tx, scope), Slot(t.tx, scope)) {
      LaneOne(msg, scope);
    }
    ReaddressOne(r.localAddresses, msg);
    assert Speaks([msg], r.config.macFormat);
    hide RouterTurn, Slot, Speaks;
    Idle(r, t, [msg]);
  }

  lemma OneSent(msg: Message)
    ensures Sent([SendMessage(msg)]) == [msg]
  {
    SentSingle([SendMessage(msg)], 0);
  }

  /** A local address update travels as the change it makes. */
  lemma Readdressed(local: DestinationAddrs, changes: AddressChanges, format: MacAddressFormat, initial: LinkMetrics)
    requires CleanAddrs(local)
    ensures var msg := BuildAddressUpdate(LocalChange(local, changes));
            && GoodForModem(msg, format) && GoodForRouter(msg, initial, format)
            && Readdress(Some(local), [msg]) == Some(ApplyLenient(changes, local))
            && forall m :: Merge(msg.items, m) == m
  {
    var c := LocalChange(local, changes);
    LenientKeepsClean(changes, local);
    BetweenIsClean(local, ApplyLenient(changes, local));
    SessionAddressesGood(c, initial, format);
    EffectiveChangeMirrors(changes, local);
    hide ApplyStrict, FromItems, GoodForModem, GoodForRouter, Merge;
    ReaddressOne(local, BuildAddressUpdate(c));
  }

  lemma RequestsUpdate(r: Router, local: DestinationAddrs, msg: Message)
    requires r.tx.session.None? && msg.messageType == SESSION_UPDATE && GoodForModem(msg, r.config.macFormat)
    requires Readdress(Some(r.localAddresses), [msg]) == Some(local)
    ensures Acts(r, r.(tx := Open(r.tx, SessionScope, SessionUpdate), localAddresses := local), [msg])
  {
    var t := r.(tx := Open(r.tx, SessionScope, SessionUpdate), localAddresses := local);
    hide GoodForModem, ExtractMac, Readdress;
    assert Speaks([msg], r.config.macFormat);
    forall scope ensures RouterTurn([], Lane([msg], scope), Slot(r.tx, scope), Slot(t.tx, scope)) {
      LaneOne(msg, scope);
    }
    hide RouterTurn, Slot, Speaks, Lane;
    Idle(r, t, [msg]);
  }

  lemma AddressCommand(r: Router, changes: AddressChanges)
    requires CleanAddrs(r.localAddresses) && r.tx.session.None?
    ensures var (tx, local, actions) := LocalUpdate(r.tx, r.localAddresses, changes);
            Acts(r, r.(tx := tx, localAddresses := local), Sent(actions))
  {
    var (tx, local, actions) := LocalUpdate(r.tx, r.localAddresses, changes);
    hide LocalUpdateOk, LocalChange, ApplyLenient, Acts, Sent, CleanAddrs, GoodForModem, GoodForRouter, Readdress;
    if LocalUpdateOk(r.localAddresses, changes) && LocalChange(r.localAddresses, changes) != NO_CHANGES {
      var msg := BuildAddressUpdate(LocalChange(r.localAddresses, changes));
      OneSent(msg);
      Readdressed(r.localAddresses, changes, r.config.macFormat, DEFAULT_METRICS);
      RequestsUpdate(r, local, msg);
    } else {
      SentNothing(actions);
      NothingHappens(r);
      assert r.(tx := tx, localAddresses := local) == r;
    }
  }

  lemma CommandActs(r: Router, e: Event)
    requires RouterInv(r) && Command(e).Some? && RouterCommandError(r, e).None?
    ensures var (t, actions) := RouterCommand(r, e); Acts(r, t, Sent(actions))
  {
    var format := r.config.macFormat;
    hide Acts, GoodForModem, MessageEncodable;
    match e
    case AppDropDestination(mac, _) =>
      OneSent(BuildDestinationDown(mac));
      MacOnly(DESTINATION_DOWN, mac, DEFAULT_METRICS, format);
      Requests(r, mac, DestinationDown, BuildDestinationDown(mac));
    case AppAnnounceDestination(mac) =>
      OneSent(BuildDestinationAnnounce(mac));
      MacOnly(DESTINATION_ANNOUNCE, mac, DEFAULT_METRICS, format);
      Requests(r, mac, DestinationAnnounce, BuildDestinationAnnounce(mac));
    case AppRequestLinkCharacteristics(mac, requested) =>
      OneSent(BuildLinkRequest(mac, requested));
      RequestLatency(mac, requested);
      LinkRequestGood(mac, requested, format);
      Requests(r, mac, LinkCharacteristicsKind, BuildLinkRequest(mac, requested));
    case AppSessionAddresses(changes) =>
      AddressCommand(r, changes);
  }

  lemma RequestLatency(mac: MacAddress, requested: LinkCharacteristics)
    requires MessageEncodable(BuildLinkRequest(mac, requested))
    ensures requested.latency.Some? ==> Encodable(Latency(requested.latency.value))
  {
    if requested.latency.Some? {
      var items := BuildLinkRequest(mac, requested).items;
      assert items[|items| - 1] == Latency(requested.latency.value);
    }
  }

  lemma HeartbeatActs(r: Router)
    ensures Acts(r, r, [BuildHeartbeat()])
  {
    var msg := BuildHeartbeat();
    HeartbeatGood(DEFAULT_METRICS, r.config.macFormat);
    forall scope ensures RouterTurn([], Lane([msg], scope), Slot(r.tx, scope), Slot(r.tx, scope)) {
      LaneOne(msg, scope);
      NeutralTag(msg, scope);
    }
    assert Speaks([msg], r.config.macFormat) by { hide GoodForModem; }
    hide RouterTurn, Slot, Speaks, GoodForModem, Lane;
    ReaddressOne(r.localAddresses, msg);
    Idle(r, r, [msg]);
  }

  ghost predicate Moves(r: Router, t: Router, out: seq<Message>) {
    && (!r.phase.InSession? ==> out == [])
    && ((Listening(r.phase) && Acts(r, t, out)) || (Quits(r, t, out) && Goodbye(out, r.config.macFormat)))
  }

  lemma SilentQuits(r: Router, t: Router, actions: seq<Action>)
    requires !Listening(t.phase) && t.config == r.config
    requires forall i :: 0 <= i < |actions| ==> !actions[i].SendMessage?
    ensures Moves(r, t, Sent(actions))
  {
    SentNothing(actions);
  }

  lemma TerminateQuits(r: Router, reason: u8, cancels: seq<Action>)
    requires forall i :: 0 <= i < |cancels| ==> cancels[i].CancelTimer?
    requires r.phase.InSession?
    ensures var (t, actions) := RouterTerminate(r, reason, cancels); Moves(r, t, Sent(actions))
  {
    var actions := RouterTerminate(r, reason, cancels).1;
    assert actions[|cancels|] == SendMessage(BuildTermination(reason));
    SentSingle(actions, |cancels|);
    StatusOnly(SESSION_TERMINATION, reason, DEFAULT_METRICS, r.config.macFormat);
  }

  lemma LocalMoves(r: Router, e: Event)
    requires !r.phase.Unconnected?
    ensures var (t, actions) := RouterLocal(r, e); Moves(r, t, Sent(actions))
  {
    var (t, actions) := RouterLocal(r, e);
    if Listening(t.phase) {
      if e.TimerExpired? && e.kind.HeartbeatTimer? && r.phase.InSession? {
        OneSent(BuildHeartbeat());
        HeartbeatActs(r);
      } else {
        SentNothing(actions);
        NothingHappens(r);
      }
    } else if r.phase.InSession? && t.phase.Terminating? {
      if e.AppShutdown? {
        TerminateQuits(r, e.reason, [CancelTimer(TIMER_HEARTBEAT), CancelTimer(TIMER_HEARTBEAT_MISSED)]);
      } else {
        TerminateQuits(r, TIMED_OUT, [CancelTimer(TIMER_HEARTBEAT)]);
      }
    } else {
      hide Sent, Moves;
      SilentQuits(r, t, actions);
    }
  }

  /** Every local event. */
  lemma StepMoves(r: Router, e: Event)
    requires RouterInv(r) && !r.phase.Unconnected? && IsLocal(e)
    ensures var (t, actions) := RouterStep(r, e); Moves(r, t, Sent(actions))
  {
    if Command(e).Some? {
      hide RouterInv, RouterSlots;
      if RouterCommandError(r, e).Some? {
        SentNothing(RouterStep(r, e).1);
        if Listening(r.phase) { NothingHappens(r); }
      } else {
        hide Sent, RouterCommand;
        CommandActs(r, e);
      }
    } else {
      hide Sent, Moves, RouterLocal, RouterSlots;
      LocalMoves(r, e);
    }
  }

  /** A side that has stopped listening says nothing more. */
  lemma DeafRouter(r: Router, msg: Message)
    requires RouterSlots(r) && !Listening(r.phase) && !r.phase.Unconnected?
    ensures var (t, actions) := RouterStep(r, RecvMessage(msg)); Moves(r, t, Sent(actions)) && Sent(actions) == []
  {
    SentNothing(RouterStep(r, RecvMessage(msg)).1);
  }

  // --- The handshake --------------------------------------------------------

  /** A conforming modem's response is always accepted, and gives the router
      exactly the modem's metrics. */
  lemma Establishes(r: Router, peer: SessionConfig)
    requires r.phase.Initializing? && RouterInv(r) && ConfigEncodable(peer)
    ensures var msg := BuildInitializationResponse(peer);
            var (t, actions) := RouterStep(r, RecvMessage(msg));
            && t.phase.InSession? && t.metricTypes == SupportTypes(peer.initialMetrics)
            && Sent(actions) == [] && Exchanges(r, [msg], t, [])
  {
    BlankFirst(r);
    hide RouterInv, RouterSlots, RouterStep, Sent, Exchanges, ConfigEncodable, BuildInitializationResponse, FromItems,
         Merge, MetricTypes, SupportTypes, FatalStatus, ValidateMessage, ExtractHeartbeat, ExtractStatus,
         ExtractExtensions;
    var msg := BuildInitializationResponse(peer);
    Welcomed(r, peer);
    InitializationResponseGood(peer, r.config.extensions);
    EstablishSilent(r, msg);
    Named(peer);
    Established(r, msg, RouterEstablish(r, msg).0);
  }

  lemma BlankFirst(r: Router)
    requires RouterInv(r) && r.phase.Initializing?
    ensures Blank(r) && RouterSlots(r)
  {
    hide RouterSlots, RouterOwnership;
  }

  lemma Named(peer: SessionConfig)
    ensures BuildInitializationResponse(peer).messageType == SESSION_INITIALIZATION_RESPONSE
  {
  }

  lemma FirstCheck(r: Router, msg: Message)
    requires r.phase.Initializing? && r.peerAddresses == NO_ADDRS
    requires ValidateMessage(msg, true, true, r.config.extensions).None?
    requires FromItems(msg.items) == NO_CHANGES && forall x :: x in msg.items ==> !x.Mac?
    ensures RouterCheck(r, msg).None?
  {
    NoChangeApplies(NO_ADDRS);
    hide ValidateMessage, FromItems, ApplyStrict;
  }

  lemma FirstStep(r: Router, msg: Message)
    requires r.phase.Initializing? && RouterSlots(r) && RouterVerdict(r, msg).None?
    requires msg.messageType == SESSION_INITIALIZATION_RESPONSE && ExtractStatus(msg.items) == Some(SUCCESS)
    ensures RouterStep(r, RecvMessage(msg)) == RouterEstablish(r, msg)
  {
    hide RouterVerdict, RouterSlots, ExtractStatus, RouterEstablish;
  }

  lemma Invited(r: Router, peer: SessionConfig)
    requires r.phase.Initializing? && RouterInv(r) && ConfigEncodable(peer)
    ensures RouterVerdict(r, BuildInitializationResponse(peer)).None?
  {
    BlankFirst(r);
    hide RouterInv, RouterSlots, RouterCheck, ConfigEncodable, BuildInitializationResponse, FromItems, Merge,
         MetricTypes, SupportTypes, FatalStatus, ValidateMessage, ExtractHeartbeat, ExtractStatus;
    InitializationResponseGood(peer, r.config.extensions);
    FirstCheck(r, BuildInitializationResponse(peer));
  }

  lemma Welcomed(r: Router, peer: SessionConfig)
    requires r.phase.Initializing? && RouterInv(r) && ConfigEncodable(peer)
    ensures RouterStep(r, RecvMessage(BuildInitializationResponse(peer)))
         == RouterEstablish(r, BuildInitializationResponse(peer))
  {
    BlankFirst(r);
    hide RouterInv, RouterSlots, RouterStep, RouterEstablish, RouterVerdict, ConfigEncodable,
         BuildInitializationResponse, FromItems, Merge, MetricTypes, SupportTypes, FatalStatus, ValidateMessage,
         ExtractHeartbeat, ExtractStatus;
    InitializationResponseGood(peer, r.config.extensions);
    Named(peer);
    Invited(r, peer);
    FirstStep(r, BuildInitializationResponse(peer));
  }

  lemma EstablishSilent(r: Router, msg: Message)
    ensures Sent(RouterEstablish(r, msg).1) == []
  {
    hide FromItems, Merge, MetricTypes, ExtractHeartbeat, ExtractExtensions, Sent;
    SentNothing(RouterEstablish(r, msg).1);
  }

  lemma Established(r: Router, msg: Message, t: Router)
    requires msg.messageType == SESSION_INITIALIZATION_RESPONSE && r.destinations == map[] && t.destinations == map[]
    requires t.tx == r.tx && t.peerAddresses == r.peerAddresses && t.localAddresses == r.localAddresses
    requires t.sessionMetrics == Merge(msg.items, r.sessionMetrics) && t.config == r.config
    ensures Exchanges(r, [msg], t, [])
  {
    hide ExtractMac, Merge, ApplyStrict, FromItems;
    forall scope ensures RouterTurn(Lane([msg], scope), Lane([], scope), Slot(r.tx, scope), Slot(t.tx, scope)) {
      LaneOne(msg, scope);
      assert Lane([], scope) == [];
    }
    forall mac ensures MirrorOf(t, mac) == ReflectAll(MirrorOf(r, mac), [msg], mac) {
      ReflectOne(MirrorOf(r, mac), msg, mac);
    }
    ReaddressOne(r.peerAddresses, msg);
    LoadOne(msg);
  }
}
