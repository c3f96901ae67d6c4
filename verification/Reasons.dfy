/** Why the router says what it says: every event quotes the input it answers, and
    a session this side ended is reported down for the reason it sent.
 */
module Reasons {
  import opened Types
  import opened Addresses
  import opened Messages
  import opened Session
  import opened RouterSpec
  import opened Reports
  import RI = RouterInvariant

  // --- Why ------------------------------------------------------------------

  /** The event quotes the input it answers: its destination, its status and text;
      a session ends for the reason given by the peer, by the application, by the
      code this side had sent, or because a deadline or the connection was lost. */
  ghost predicate Quotes(s: Router, e: Event, event: EmittedEvent) {
    match event
    case DestinationUpEvent(mac, _, _) => e.RecvMessage? && Mac(mac) in e.msg.items
    case DestinationUpdateEvent(mac, _) => e.RecvMessage? && Mac(mac) in e.msg.items
    case DestinationAddressesUpdate(mac, _, _) => e.RecvMessage? && Mac(mac) in e.msg.items
    case DestinationDownEvent(mac, reason) =>
      e.RecvMessage? && Mac(mac) in e.msg.items && Gives(e.msg.items, reason, SUCCESS)
    case LinkCharacteristicsResponse(mac, code, text, _) =>
      e.RecvMessage? && Mac(mac) in e.msg.items && Status(code, text) in e.msg.items
    case SessionDown(reason) =>
      (match e
       case AppShutdown(asked) => s.phase.Initializing? && reason == asked
       case RecvMessage(msg) =>
         if s.phase.Terminating? then msg.messageType == SESSION_TERMINATION_RESPONSE && reason == s.terminationReason
         else if s.phase.InSession?
         then msg.messageType == SESSION_TERMINATION && Gives(msg.items, reason, SHUTTING_DOWN)
         else reason == INVALID_DATA
       case TcpClosed => reason == if s.phase.Terminating? then s.terminationReason else TIMED_OUT
       case TimerExpired(_, _) => reason == TIMED_OUT
       case _ => false)
    case CommandRejected(command, _) => Command(e) == Some(command)
    case _ => true
  }

  ghost predicate AllQuote(s: Router, e: Event, events: seq<EmittedEvent>) {
    forall x :: x in events ==> Quotes(s, e, x)
  }

  lemma UpdateQuotes(s: Router, mac: MacAddress, msg: Message)
    requires mac in s.destinations && Mac(mac) in msg.items
    ensures AllQuote(s, RecvMessage(msg), Emitted(RouterUpdate(s, mac, msg).1))
  {
    hide ApplyLenient, OwnedChanges, Merge, Between, HasMetrics, Emitted, RouterUpdate;
    UpdateEmits(s, mac, msg);
  }

  lemma SessionUpdateQuotes(s: Router, msg: Message)
    requires ApplyStrict(FromItems(msg.items), s.peerAddresses).Some?
    ensures AllQuote(s, RecvMessage(msg), Emitted(RouterSessionUpdate(s, msg).1))
  {
    hide ApplyStrict, FromItems, Merge, HasMetrics, Emitted, RouterSessionUpdate;
    SessionUpdateEmits(s, msg);
  }

  lemma EventQuotes(s: Router, e: Event, head: seq<Action>, x: EmittedEvent, tail: seq<Action>)
    requires forall i :: 0 <= i < |head| ==> !head[i].Emit?
    requires forall i :: 0 <= i < |tail| ==> !tail[i].Emit?
    requires Quotes(s, e, x)
    ensures AllQuote(s, e, Emitted(head + [Emit(x)] + tail))
  {
    hide Emitted, Quotes;
    EmitsOnly(head, x, tail);
  }

  lemma ArrivesQuotes(s: Router, mac: MacAddress, msg: Message)
    requires Mac(mac) in msg.items
    ensures AllQuote(s, RecvMessage(msg), Emitted(RouterUp(s, mac, msg).1))
    ensures AllQuote(s, RecvMessage(msg), Emitted(RouterAnnounceResponse(s, mac, msg).1))
  {
    hide NewDestination, ResetAction, Emitted, AllQuote, ExtractStatus;
    var d := NewDestination(s, mac, msg);
    var x := DestinationUpEvent(mac, d.metrics, d.addrs);
    var a := SendMessage(BuildDestinationUpResponse(mac, SUCCESS));
    var tail := ResetAction(s.peerHeartbeat);
    ResetEmitsNothing(s.peerHeartbeat);
    EventQuotes(s, RecvMessage(msg), [a], x, tail);
    EventQuotes(s, RecvMessage(msg), [], x, tail);
    SilentQuotes(s, RecvMessage(msg), tail);
    assert [a] + [Emit(x)] + tail == RouterUp(s, mac, msg).1;
    assert [] + [Emit(x)] + tail == [Emit(x)] + tail;
  }

  lemma LeavesQuotes(s: Router, mac: MacAddress, msg: Message)
    requires Mac(mac) in msg.items
    ensures AllQuote(s, RecvMessage(msg), Emitted(RouterDown(s, mac, msg).1))
    ensures ExtractStatus(msg.items).Some? ==>
              AllQuote(s, RecvMessage(msg), Emitted(RouterDownResponse(s, mac, msg).1))
  {
    hide ResetAction, Emitted, AllQuote, ExtractStatus, Gives;
    var status := ExtractStatus(msg.items);
    var x := DestinationDownEvent(mac, if status.Some? then status.value else SUCCESS);
    var a := SendMessage(BuildDestinationDownResponse(mac, SUCCESS));
    var tail := ResetAction(s.peerHeartbeat);
    GivesStatus(msg.items, SUCCESS);
    ResetEmitsNothing(s.peerHeartbeat);
    EventQuotes(s, RecvMessage(msg), [a], x, tail);
    EventQuotes(s, RecvMessage(msg), [], x, tail);
    assert [a] + [Emit(x)] + tail == RouterDown(s, mac, msg).1;
    assert [] + [Emit(x)] + tail == [Emit(x)] + tail;
  }

  lemma LinkQuotes(s: Router, mac: MacAddress, msg: Message)
    requires Mac(mac) in msg.items && mac in s.destinations && ExtractStatusItem(msg.items).Some?
    ensures AllQuote(s, RecvMessage(msg), Emitted(RouterLinkResponse(s, mac, msg).1))
  {
    hide ResetAction, Emitted, AllQuote, ExtractStatusItem, Merge;
    StatusPresent(msg.items);
    var status := ExtractStatusItem(msg.items).value;
    assert status == Status(status.code, status.text);
    var x := LinkCharacteristicsResponse(mac, status.code, status.text, Merge(msg.items, s.destinations[mac].metrics));
    var tail := ResetAction(s.peerHeartbeat);
    ResetEmitsNothing(s.peerHeartbeat);
    EventQuotes(s, RecvMessage(msg), [], x, tail);
    assert [] + [Emit(x)] + tail == RouterLinkResponse(s, mac, msg).1;
  }

  lemma SilentQuotes(s: Router, e: Event, actions: seq<Action>)
    requires forall i :: 0 <= i < |actions| ==> !actions[i].Emit?
    ensures AllQuote(s, e, Emitted(actions))
  {
    EmittedNothing(actions);
  }

  lemma EndQuotes(s: Router, e: Event, actions: seq<Action>, reason: u8)
    requires |actions| > 0 && actions[|actions| - 1] == Emit(SessionDown(reason))
    requires forall i :: 0 <= i < |actions| - 1 ==> !actions[i].Emit?
    requires Quotes(s, e, SessionDown(reason))
    ensures AllQuote(s, e, Emitted(actions))
  {
    hide Emitted, Quotes;
    EndsWith(actions, reason);
  }

  lemma AcceptQuotes(s: Router, msg: Message)
    requires RouterSlots(s) && s.phase.InSession? && RouterCheck(s, msg).None?
    ensures AllQuote(s, RecvMessage(msg), Emitted(RouterAccept(s, msg).1))
  {
    AcceptedMessage(s, msg);
    hide RouterUp, RouterDown, RouterDownResponse, RouterAnnounceResponse, RouterLinkResponse, RouterCheck,
      RouterSessionUpdate, RouterUpdate, ResetAction, AllQuote, ExtractStatus, Emitted, ExtractMac, Gives;
    MacPresent(msg.items);
    ResetEmitsNothing(s.peerHeartbeat);
    var mt := msg.messageType;
    if mt == SESSION_UPDATE { SessionUpdateQuotes(s, msg); }
    else if mt == SESSION_UPDATE_RESPONSE || mt == HEARTBEAT {
      SilentQuotes(s, RecvMessage(msg), ResetAction(s.peerHeartbeat));
    }
    else if mt == SESSION_TERMINATION {
      GivesStatus(msg.items, SHUTTING_DOWN);
      var actions := RouterPeerTerminates(s, msg).1;
      EndQuotes(s, RecvMessage(msg), actions, actions[4].event.reason);
    }
    else {
      var mac := ExtractMac(msg.items).value;
      if mt == DESTINATION_UP || mt == DESTINATION_ANNOUNCE_RESPONSE { ArrivesQuotes(s, mac, msg); }
      else if mt == DESTINATION_UPDATE { UpdateQuotes(s, mac, msg); }
      else if mt == DESTINATION_DOWN { LeavesQuotes(s, mac, msg); }
      else if mt == DESTINATION_DOWN_RESPONSE {
        RI.StatusOf(msg.items);
        LeavesQuotes(s, mac, msg);
      }
      else { LinkQuotes(s, mac, msg); }
    }
  }

  lemma ReceiveQuotes(s: Router, msg: Message)
    requires RouterSlots(s)
    ensures AllQuote(s, RecvMessage(msg), Emitted(RouterReceive(s, msg).1))
  {
    hide RouterAccept, RouterEstablish, RouterCheck, FatalStatus, ExtractStatus, InitFailedText, AllQuote, RouterSlots,
      Emitted;
    var e, actions := RecvMessage(msg), RouterReceive(s, msg).1;
    if RouterVerdict(s, msg).None? && s.phase.InSession? { AcceptQuotes(s, msg); }
    else if |actions| > 0 && actions[|actions| - 1].Emit? && !s.phase.Initializing? {
      EndQuotes(s, e, actions, s.terminationReason);
    }
    else if s.phase.Initializing? && RouterVerdict(s, msg).None? { HandshakeQuotes(s, msg); }
    else { SilentQuotes(s, e, actions); }
  }

  lemma HandshakeQuotes(s: Router, msg: Message)
    requires s.phase.Initializing?
    ensures AllQuote(s, RecvMessage(msg), Emitted(RouterHandshake(s, msg).1))
  {
    hide RouterEstablish, ExtractStatus, InitFailedText, Emitted, AllQuote;
    var e, actions := RecvMessage(msg), RouterHandshake(s, msg).1;
    if msg.messageType != SESSION_INITIALIZATION_RESPONSE { EndQuotes(s, e, actions, INVALID_DATA); }
    else if ExtractStatus(msg.items).Some? && ExtractStatus(msg.items).value != SUCCESS { SilentQuotes(s, e, actions); }
    else { EstablishQuotes(s, msg); }
  }

  lemma EstablishQuotes(s: Router, msg: Message)
    ensures AllQuote(s, RecvMessage(msg), Emitted(RouterEstablish(s, msg).1))
  {
    hide RouterEstablish, Emitted;
    EstablishEmits(s, msg);
  }

  lemma LocalQuotes(s: Router, e: Event)
    ensures AllQuote(s, e, Emitted(RouterLocal(s, e).1))
  {
    hide Emitted, ResetAction, BuildInitialization, TerminationDeadline, AllQuote, BuildTermination;
    ResetEmitsNothing(s.peerHeartbeat);
    var actions := RouterLocal(s, e).1;
    if |actions| > 0 && actions[|actions| - 1].Emit? {
      EndQuotes(s, e, actions, actions[|actions| - 1].event.reason);
    } else {
      SilentQuotes(s, e, actions);
    }
  }

  lemma CommandQuotes(s: Router, e: Event)
    requires Command(e).Some? && RouterCommandError(s, e).None?
    ensures AllQuote(s, e, Emitted(RouterCommand(s, e).1))
  {
    hide ApplyLenient, LocalChange, LocalUpdateOk, BuildAddressUpdate, BuildLinkRequest, Emitted, MessageEncodable,
      AllQuote;
    SilentQuotes(s, e, RouterCommand(s, e).1);
  }

  /** Every event of every step quotes the input it answers. */
  lemma StepQuotes(s: Router, e: Event)
    requires RouterSlots(s)
    ensures AllQuote(s, e, Emitted(RouterStep(s, e).1))
  {
    hide RouterReceive, RouterCommand, RouterLocal, RouterCommandError, RouterSlots, Emitted;
    if Command(e).Some? {
      if RouterCommandError(s, e).None? { CommandQuotes(s, e); }
      else { EmittedOne(Reject(e, RouterCommandError(s, e).value)[0]); }
    }
    else if e.RecvMessage? { ReceiveQuotes(s, e.msg); }
    else if e.ProtocolError? { SilentQuotes(s, e, RouterFail(s, Status(e.code, [])).1); }
    else { LocalQuotes(s, e); }
  }

  // --- The last word --------------------------------------------------------

  /** What was sent last is a termination with this code. */
  ghost predicate LastWord(sent: seq<Message>, code: u8) {
    |sent| > 0 && exists text :: sent[|sent| - 1] == Message(SESSION_TERMINATION, [Status(code, text)])
  }

  lemma SaysGoodbye(head: seq<Action>, msg: Message, timer: Action, code: u8, text: Text)
    requires forall i :: 0 <= i < |head| ==> !head[i].SendMessage?
    requires !timer.SendMessage? && msg == Message(SESSION_TERMINATION, [Status(code, text)])
    ensures LastWord(Sent(head + [SendMessage(msg), timer]), code)
  {
    SentConcat(head, [SendMessage(msg), timer]);
    SentNothing(head);
    FoldTwo(PushSent, [], SendMessage(msg), timer);
  }

  lemma FailSays(s: Router, status: DataItem)
    requires status.Status? && Rank(s.phase) < 3
    ensures LastWord(Sent(RouterFail(s, status).1), status.code)
  {
    hide LastWord, Sent;
    var a := RouterFail(s, status).1;
    SaysGoodbye(a[..3], a[3].msg, a[4], status.code, status.text);
    assert a == a[..3] + [a[3], a[4]];
  }

  lemma TerminateSays(s: Router, reason: u8, cancels: seq<Action>)
    requires forall i :: 0 <= i < |cancels| ==> !cancels[i].SendMessage?
    ensures LastWord(Sent(RouterTerminate(s, reason, cancels).1), reason)
  {
    hide LastWord, Sent;
    SaysGoodbye(cancels, BuildTermination(reason), StartTermination(s.config), reason, []);
  }

  /** Beginning to terminate says why; from then on nothing more is said and the
      reason stands. */
  ghost predicate Parts(s: Router, r: Outcome) {
    r.0.phase.Terminating? ==>
      if s.phase.Terminating? then r.0.terminationReason == s.terminationReason && Sent(r.1) == []
      else LastWord(Sent(r.1), r.0.terminationReason)
  }

  lemma ReceiveParts(s: Router, msg: Message)
    requires RouterSlots(s)
    ensures Parts(s, RouterReceive(s, msg))
  {
    hide RouterAccept, RouterEstablish, RouterCheck, FatalStatus, ExtractStatus, InitFailedText, LastWord, RouterSlots,
      Sent, RouterFail;
    SentNothing([]);
    if RouterVerdict(s, msg).Some? { FailParts(s, RouterVerdict(s, msg).value); }
    else if s.phase.Initializing? {
      FailParts(s, Status(UNEXPECTED_MESSAGE, InitFailedText()));
      assert RouterEstablish(s, msg).0.phase.InSession? by { EstablishPhase(s, msg); }
    }
    else if s.phase.InSession? { AcceptParts(s, msg); }
  }

  lemma FailParts(s: Router, status: DataItem)
    requires status.Status?
    ensures Parts(s, RouterFail(s, status))
  {
    hide LastWord, Sent;
    SentNothing([]);
    if Rank(s.phase) < 3 { FailSays(s, status); }
  }

  lemma EstablishPhase(s: Router, msg: Message)
    ensures RouterEstablish(s, msg).0.phase.InSession?
  {
    hide FromItems, Merge, ResetAction, MetricTypes, ExtractHeartbeat, ExtractExtensions;
  }

  lemma AcceptParts(s: Router, msg: Message)
    requires RouterSlots(s) && s.phase.InSession? && RouterCheck(s, msg).None?
    ensures !RouterAccept(s, msg).0.phase.Terminating?
  {
    AcceptedMessage(s, msg);
    hide RouterCheck, NewDestination, ResetAction, Merge, FromItems, ApplyStrict, ApplyLenient, OwnedChanges, Between,
      HasMetrics, ExtractMac, ExtractStatus, ExtractStatusItem;
  }

  lemma LocalParts(s: Router, e: Event)
    ensures Parts(s, RouterLocal(s, e))
  {
    hide LastWord, Sent, RouterTerminate, RouterSpec.Close, ResetAction, BuildInitialization;
    SentNothing([]);
    if s.phase.InSession? {
      TerminateIs(s, TIMED_OUT, [CancelTimer(TIMER_HEARTBEAT)]);
      if e.AppShutdown? {
        TerminateIs(s, e.reason, [CancelTimer(TIMER_HEARTBEAT), CancelTimer(TIMER_HEARTBEAT_MISSED)]);
      }
    } else {
      ClosePhase(s);
    }
  }

  lemma ClosePhase(s: Router)
    ensures forall reason, cancels :: RouterSpec.Close(s, reason, cancels).0.phase.Terminated?
  {
  }

  lemma TerminateIs(s: Router, reason: u8, cancels: seq<Action>)
    requires forall i :: 0 <= i < |cancels| ==> !cancels[i].SendMessage?
    ensures var r := RouterTerminate(s, reason, cancels);
            r.0.terminationReason == reason && LastWord(Sent(r.1), reason)
  {
    hide LastWord, Sent;
    TerminateSays(s, reason, cancels);
  }

  lemma CommandParts(s: Router, e: Event)
    requires Command(e).Some? && RouterCommandError(s, e).None?
    ensures RouterCommand(s, e).0.phase.InSession?
  {
    hide LocalUpdate, BuildLinkRequest, MessageEncodable, LocalUpdateOk;
  }

  lemma StepParts(s: Router, e: Event)
    requires RouterSlots(s)
    ensures Parts(s, RouterStep(s, e))
  {
    hide RouterReceive, RouterCommand, RouterLocal, RouterCommandError, RouterSlots, Sent, LastWord, RouterFail;
    if Command(e).Some? {
      if RouterCommandError(s, e).None? { CommandParts(s, e); }
      else { SentNothing(Reject(e, RouterCommandError(s, e).value)); }
    }
    else if e.RecvMessage? { ReceiveParts(s, e.msg); }
    else if e.ProtocolError? { FailParts(s, Status(e.code, [])); }
    else { LocalParts(s, e); }
  }

  /** Over every run: while terminating, the last message sent was a termination
      with the recorded code. */
  lemma {:induction false} SaidWhy(config: SessionConfig, events: seq<Event>)
    ensures var (t, actions) := RI.RunFromNew(config, events);
            t.phase.Terminating? ==> LastWord(Sent(actions), t.terminationReason)
  {
    RI.NewRouterOk(config);
    var s := NewRouter(config);
    hide RouterStep, RouterInv, LastWord, Sent;
    if |events| > 0 {
      var front, e := events[..|events| - 1], events[|events| - 1];
      SaidWhy(config, front);
      var (t, before) := RI.RouterRun(s, front);
      RI.SlotsOf(t);
      StepParts(t, e);
      SentConcat(before, RouterStep(t, e).1);
      JoinWord(Sent(before), Sent(RouterStep(t, e).1), RouterStep(t, e).0.terminationReason);
    }
  }

  lemma JoinWord(a: seq<Message>, b: seq<Message>, code: u8)
    ensures LastWord(b, code) ==> LastWord(a + b, code)
    ensures b == [] ==> a + b == a
  {
  }

  /** Over every run: a session that was terminating goes down for the code this
      side sent, unless the answer never came. */
  lemma DownAsSaid(config: SessionConfig, events: seq<Event>, e: Event, reason: u8)
    requires var s := RI.RunFromNew(config, events).0;
             s.phase.Terminating? && RouterSlots(s) && SessionDown(reason) in Emitted(RouterStep(s, e).1)
    ensures LastWord(Sent(RI.RunFromNew(config, events).1), reason) || (e.TimerExpired? && reason == TIMED_OUT)
  {
    hide RI.RunFromNew, RouterStep, RouterSlots, LastWord, Sent, Emitted;
    SaidWhy(config, events);
    StepQuotes(RI.RunFromNew(config, events).0, e);
  }
}
