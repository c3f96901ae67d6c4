/** The router's session machine as the object the source has: fields updated in
    place, the transaction tracker beside them, and `Step` proved equal to the
    step function whose properties are established elsewhere.
 */
module RouterFsm {
  import opened Types
  import opened Addresses
  import opened Messages
  import opened Transactions
  import opened Validation
  import opened Session
  import opened RouterSpec
  import RouterInvariant

  /** Apply a change leniently, one vector after the other. */
  method ApplyAddresses(c: AddressChanges, current: DestinationAddrs) returns (r: DestinationAddrs)
    ensures r == ApplyLenient(c, current)
  {
    var k := Canonical(c);
    var v4 := ApplyInPlace(current.v4, k.added.v4, k.removed.v4);
    var v6 := ApplyInPlace(current.v6, k.added.v6, k.removed.v6);
    var n4 := ApplyInPlace(current.v4Subnets, k.added.v4Subnets, k.removed.v4Subnets);
    var n6 := ApplyInPlace(current.v6Subnets, k.added.v6Subnets, k.removed.v6Subnets);
    r := DestinationAddrs(v4, v6, n4, n6);
  }

  /** What a new destination holds does not depend on the open requests. */
  lemma SameTaken(s: Router, tx: Tx, mac: MacAddress, msg: Message)
    ensures NewDestination(s.(tx := tx), mac, msg) == NewDestination(s, mac, msg)
  {
    hide FromItems, Merge, ApplyLenient, RetainFree;
    var t := s.(tx := tx);
    assert Taken4(t, mac) == Taken4(s, mac);
    assert Taken6(t, mac) == Taken6(s, mac);
    assert TakenNet4(t, mac) == TakenNet4(s, mac);
    assert TakenNet6(t, mac) == TakenNet6(s, mac);
  }

  class RouterSession {
    var state: Phase
    const tx: TransactionTracker
    var destinations: map<MacAddress, RouterDestination>
    var sessionMetrics: LinkMetrics
    var metricTypes: set<u16>
    var peerAddresses: DestinationAddrs
    var localAddresses: DestinationAddrs
    const config: SessionConfig
    var terminationReason: u8
    var peerHeartbeat: Option<Duration>
    var peerExtensions: seq<u16>

    function View(): Router
      reads this, tx
    {
      Router(state, tx.View(), destinations, sessionMetrics, metricTypes, peerAddresses, localAddresses, config,
             terminationReason, peerHeartbeat, peerExtensions)
    }

    ghost predicate Valid()
      reads this, tx
    {
      RouterInv(View())
    }

    constructor (config: SessionConfig)
      ensures Valid() && View() == NewRouter(config) && fresh(tx)
    {
      this.state := Unconnected;
      this.tx := new TransactionTracker();
      this.destinations := map[];
      this.sessionMetrics := DEFAULT_METRICS;
      this.metricTypes := {};
      this.peerAddresses := NO_ADDRS;
      this.localAddresses := NO_ADDRS;
      this.config := config;
      this.terminationReason := SUCCESS;
      this.peerHeartbeat := None;
      this.peerExtensions := [];
      new;
      RouterInvariant.NewRouterOk(config);
    }

    /** Any event in any state, from any peer: no lookup of the source can fail,
        and the object does what the step function says. */
    method Step(e: Event) returns (actions: seq<Action>)
      requires Valid()
      modifies this, tx
      ensures Valid()
      ensures (View(), actions) == RouterStep(old(View()), e)
    {
      RouterInvariant.RouterStepKeepsInvariant(View(), e);
      hide RouterInv, RouterSlots;
      if Command(e).Some? {
        var error := CheckCommand(e);
        if error.Some? {
          actions := Reject(e, error.value);
        } else {
          actions := OnCommand(e);
        }
      } else if e.RecvMessage? {
        actions := OnMessage(e.msg);
      } else if e.ProtocolError? {
        actions := Fail(Status(e.code, []));
      } else {
        actions := OnLocal(e);
      }
    }

    method CheckCommand(e: Event) returns (error: Option<CommandError>)
      requires Command(e).Some?
      ensures error == RouterCommandError(View(), e)
    {
      error := RouterCommandError(View(), e);
    }

    method Fail(status: DataItem) returns (actions: seq<Action>)
      requires status.Status?
      modifies this
      ensures (View(), actions) == RouterFail(old(View()), status)
    {
      if state.Terminating? || state.Terminated? {
        return [];
      }
      state := Terminating;
      terminationReason := status.code;
      actions := [CancelTimer(TIMER_SESSION_INIT), CancelTimer(TIMER_HEARTBEAT), CancelTimer(TIMER_HEARTBEAT_MISSED),
                  SendMessage(Message(SESSION_TERMINATION, [status])), StartTermination(config)];
    }

    method Reset() returns (actions: seq<Action>)
      ensures actions == ResetAction(peerHeartbeat)
    {
      var deadline := MissedDeadline(peerHeartbeat);
      actions := if deadline.Some? then [ResetHeartbeat(TIMER_HEARTBEAT_MISSED, deadline.value)] else [];
    }

    // --- Messages -----------------------------------------------------------

    /** The checks at the top of the step, in the source's order. */
    method CheckReceived(msg: Message) returns (code: Option<u8>)
      requires state.Initializing? || state.InSession?
      ensures code == RouterCheck(View(), msg)
    {
      var initializing := state.Initializing?;
      code := CheckMessage(msg, true, initializing, config.extensions);
      if code.Some? { return; }
      if !MacFormatOk(msg, config.macFormat) { return Some(INVALID_DATA); }
      if initializing || msg.messageType == SESSION_UPDATE {
        var changes := FromMessage(msg);
        if ApplyStrict(changes, peerAddresses).None? { return Some(INVALID_DATA); }
      }
      if initializing { return None; }
      var received := MetricTypes(msg.items);
      if !(received <= metricTypes) { return Some(INVALID_DATA); }
      if msg.messageType == LINK_CHARACTERISTICS_RESPONSE && received != metricTypes { return Some(INVALID_DATA); }
      var mac := ExtractMac(msg.items);
      code := ValidateTransaction(msg.messageType, mac, tx.View(), Known(View(), mac));
    }

    method OnMessage(msg: Message) returns (actions: seq<Action>)
      requires Valid()
      modifies this, tx
      ensures (View(), actions) == RouterReceive(old(View()), msg)
    {
      if state.Initializing? || state.InSession? {
        var fatal := FatalStatus(msg.items);
        if msg.messageType != SESSION_TERMINATION && fatal.Some? {
          actions := Fail(fatal.value);
          return;
        }
        var code := CheckReceived(msg);
        if code.Some? {
          actions := Fail(Status(code.value, []));
        } else if state.Initializing? {
          hide RouterCheck, FatalStatus;
          actions := OnHandshake(msg);
        } else {
          hide RouterAccept, FatalStatus;
          actions := OnAccepted(msg);
        }
      } else if state.Terminating? && msg.messageType == SESSION_TERMINATION_RESPONSE {
        state := Terminated;
        actions := [CancelTimer(TIMER_TERMINATION)] + [CloseTcp, Emit(SessionDown(terminationReason))];
      } else {
        actions := [];
      }
    }

    method OnHandshake(msg: Message) returns (actions: seq<Action>)
      modifies this
      ensures (View(), actions) == RouterHandshake(old(View()), msg)
    {
      if msg.messageType != SESSION_INITIALIZATION_RESPONSE {
        state := Terminated;
        return [CancelTimer(TIMER_SESSION_INIT)] + [CloseTcp, Emit(SessionDown(INVALID_DATA))];
      }
      var status := ExtractStatus(msg.items);
      if status.Some? && status.value != SUCCESS {
        actions := Fail(Status(UNEXPECTED_MESSAGE, InitFailedText()));
        return;
      }
      var changes := FromMessage(msg);
      peerAddresses := changes.added;
      var metrics, found := MergeLinkMetrics(msg, sessionMetrics);
      sessionMetrics := metrics;
      metricTypes := MetricTypes(msg.items);
      peerHeartbeat := ExtractHeartbeat(msg.items);
      peerExtensions := ExtractExtensions(msg.items);
      state := InSession;
      actions := [CancelTimer(TIMER_SESSION_INIT),
                  StartTimer(TIMER_HEARTBEAT, HeartbeatTimer, LocalHeartbeat(config), true)];
      var reset := Reset();
      actions := actions + reset;
      actions := actions + [Emit(SessionUp(peerExtensions)), Emit(SessionMetricsUpdate(sessionMetrics))];
      actions := actions +
        (if peerAddresses == NO_ADDRS then []
         else [Emit(SessionAddressesUpdate(AddressChanges(peerAddresses, NO_ADDRS), peerAddresses))]);
    }

    /** The change a message asks for, without the addresses it would steal. */
    method DestinationAddressChanges(mac: MacAddress, msg: Message) returns (c: AddressChanges)
      ensures c == OwnedChanges(View(), mac, msg)
    {
      c := FromMessage(msg);
      var v := View();
      var v4 := RetainInPlace(c.added.v4, c.removed.v4, Taken4(v, mac));
      var v6 := RetainInPlace(c.added.v6, c.removed.v6, Taken6(v, mac));
      var n4 := RetainInPlace(c.added.v4Subnets, c.removed.v4Subnets, TakenNet4(v, mac));
      var n6 := RetainInPlace(c.added.v6Subnets, c.removed.v6Subnets, TakenNet6(v, mac));
      c := c.(added := DestinationAddrs(v4, v6, n4, n6));
    }

    method Create(mac: MacAddress, msg: Message) returns (d: RouterDestination)
      modifies this`destinations
      ensures d == NewDestination(old(View()), mac, msg)
      ensures destinations == old(destinations)[mac := d]
    {
      var metrics, _ := MergeLinkMetrics(msg, sessionMetrics);
      var changes := DestinationAddressChanges(mac, msg);
      var addrs := ApplyAddresses(changes, NO_ADDRS);
      d := RouterDestination(true, metrics, addrs);
      destinations := destinations[mac := d];
    }

    method OnUp(mac: MacAddress, msg: Message) returns (actions: seq<Action>)
      modifies this
      ensures (View(), actions) == RouterUp(old(View()), mac, msg)
    {
      var d := Create(mac, msg);
      var reset := Reset();
      actions := [SendMessage(BuildDestinationUpResponse(mac, SUCCESS)),
                  Emit(DestinationUpEvent(mac, d.metrics, d.addrs))]
                 + reset;
    }

    method OnUpdate(mac: MacAddress, msg: Message) returns (actions: seq<Action>)
      requires mac in destinations
      modifies this
      ensures (View(), actions) == RouterUpdate(old(View()), mac, msg)
    {
      var owned := DestinationAddressChanges(mac, msg);
      var d := destinations[mac];
      var addrs := ApplyAddresses(owned, d.addrs);
      var changes := Between(d.addrs, addrs);
      var metrics, found := MergeLinkMetrics(msg, d.metrics);
      destinations := destinations[mac := d.(metrics := metrics, addrs := addrs)];
      actions := if found then [Emit(DestinationUpdateEvent(mac, metrics))] else [];
      actions := actions + (if changes == NO_CHANGES then []
                            else [Emit(DestinationAddressesUpdate(mac, changes, addrs))]);
      var reset := Reset();
      actions := actions + reset;
    }

    method OnDown(mac: MacAddress, msg: Message) returns (actions: seq<Action>)
      modifies this
      ensures (View(), actions) == RouterDown(old(View()), mac, msg)
    {
      var status := ExtractStatus(msg.items);
      destinations := destinations - {mac};
      var reset := Reset();
      actions := [SendMessage(BuildDestinationDownResponse(mac, SUCCESS)),
                  Emit(DestinationDownEvent(mac, if status.Some? then status.value else SUCCESS))] + reset;
    }

    method OnDownResponse(mac: MacAddress, msg: Message) returns (actions: seq<Action>)
      requires ExtractStatus(msg.items).Some?
      modifies this, tx
      ensures (View(), actions) == RouterDownResponse(old(View()), mac, msg)
    {
      var _ := tx.CloseDestination(mac);
      destinations := destinations - {mac};
      var reset := Reset();
      actions := [Emit(DestinationDownEvent(mac, ExtractStatus(msg.items).value))] + reset;
    }

    /** Every destination absorbs the session metrics, one after the other. */
    method MergeAll(msg: Message)
      modifies this`destinations
      ensures destinations == map m | m in old(destinations) ::
                old(destinations)[m].(metrics := Merge(msg.items, old(destinations)[m].metrics))
    {
      ghost var before := destinations;
      var todo := destinations.Keys;
      while todo != {}
        invariant todo <= before.Keys && destinations.Keys == before.Keys
        invariant forall m :: m in before ==>
          destinations[m] == if m in todo then before[m]
                             else before[m].(metrics := Merge(msg.items, before[m].metrics))
        decreases |todo|
      {
        var m :| m in todo;
        var metrics, _ := MergeLinkMetrics(msg, destinations[m].metrics);
        destinations := destinations[m := destinations[m].(metrics := metrics)];
        todo := todo - {m};
      }
    }

    method OnSessionUpdate(msg: Message) returns (actions: seq<Action>)
      requires ApplyStrict(FromItems(msg.items), peerAddresses).Some?
      modifies this
      ensures (View(), actions) == RouterSessionUpdate(old(View()), msg)
    {
      actions := [SendMessage(BuildSessionUpdateResponse(SUCCESS))];
      var changes := FromMessage(msg);
      peerAddresses := ApplyStrict(changes, peerAddresses).value;
      actions := actions + (if changes == NO_CHANGES then []
                            else [Emit(SessionAddressesUpdate(changes, peerAddresses))]);
      var metrics, found := MergeLinkMetrics(msg, sessionMetrics);
      sessionMetrics := metrics;
      if found { MergeAll(msg); }
      assert destinations == RouterSessionUpdate(old(View()), msg).0.destinations;
      actions := actions + (if found then [Emit(SessionMetricsUpdate(sessionMetrics))] else []);
      var reset := Reset();
      actions := actions + reset;
    }

    method OnAnnounceResponse(mac: MacAddress, msg: Message) returns (actions: seq<Action>)
      modifies this, tx
      ensures (View(), actions) == RouterAnnounceResponse(old(View()), mac, msg)
    {
      var _ := tx.CloseDestination(mac);
      actions := [];
      if ExtractStatus(msg.items) == Some(SUCCESS) {
        SameTaken(old(View()), tx.View(), mac, msg);
        var d := Create(mac, msg);
        actions := [Emit(DestinationUpEvent(mac, d.metrics, d.addrs))];
      }
      var reset := Reset();
      assert [] + reset == reset;
      actions := actions + reset;
    }

    method OnLinkResponse(mac: MacAddress, msg: Message) returns (actions: seq<Action>)
      requires mac in destinations && ExtractStatusItem(msg.items).Some?
      modifies this, tx
      ensures (View(), actions) == RouterLinkResponse(old(View()), mac, msg)
    {
      var metrics, _ := MergeLinkMetrics(msg, destinations[mac].metrics);
      destinations := destinations[mac := destinations[mac].(metrics := metrics)];
      var status := ExtractStatusItem(msg.items).value;
      var _ := tx.CloseDestination(mac);
      var reset := Reset();
      actions := [Emit(LinkCharacteristicsResponse(mac, status.code, status.text, metrics))] + reset;
    }

    method OnPeerTermination(msg: Message) returns (actions: seq<Action>)
      modifies this
      ensures (View(), actions) == RouterPeerTerminates(old(View()), msg)
    {
      var status := ExtractStatus(msg.items);
      state := Terminated;
      actions := [CancelTimer(TIMER_HEARTBEAT), CancelTimer(TIMER_HEARTBEAT_MISSED),
                  SendMessage(BuildTerminationResponse()), CloseTcp,
                  Emit(SessionDown(if status.Some? then status.value else SHUTTING_DOWN))];
    }

    /** An accepted message: every lookup the source makes succeeds. */
    method OnAccepted(msg: Message) returns (actions: seq<Action>)
      requires Valid() && state.InSession? && RouterCheck(View(), msg).None?
      modifies this, tx
      ensures RouterSlots(old(View())) && (View(), actions) == RouterAccept(old(View()), msg)
    {
      assert RouterSlots(View()) by { hide RouterLive, RouterOwnership; }
      AcceptedMessage(View(), msg);
      assert Expected(msg.messageType, true, false);
      hide RouterInv, RouterSlots, RouterCheck, RouterUp, RouterUpdate, RouterDown, RouterDownResponse,
           RouterSessionUpdate, RouterAnnounceResponse, RouterLinkResponse, RouterPeerTerminates, ResetAction,
           FromItems, ApplyStrict;
      var mt, mac := msg.messageType, ExtractMac(msg.items);
      if mt == SESSION_TERMINATION { actions := OnPeerTermination(msg); }
      else if mt == SESSION_UPDATE { actions := OnSessionUpdate(msg); }
      else if mt == SESSION_UPDATE_RESPONSE {
        var _ := tx.CloseSession();
        actions := Reset();
      }
      else if mt == HEARTBEAT { actions := Reset(); }
      else if mt == DESTINATION_UP { actions := OnUp(mac.value, msg); }
      else if mt == DESTINATION_UPDATE { actions := OnUpdate(mac.value, msg); }
      else if mt == DESTINATION_DOWN { actions := OnDown(mac.value, msg); }
      else if mt == DESTINATION_DOWN_RESPONSE { actions := OnDownResponse(mac.value, msg); }
      else if mt == DESTINATION_ANNOUNCE_RESPONSE { actions := OnAnnounceResponse(mac.value, msg); }
      else { actions := OnLinkResponse(mac.value, msg); }
    }

    // --- Commands and local events ------------------------------------------

    method OnCommand(e: Event) returns (actions: seq<Action>)
      requires Command(e).Some? && RouterCommandError(View(), e).None?
      modifies this, tx
      ensures (View(), actions) == RouterCommand(old(View()), e)
    {
      hide MessageEncodable;
      match e
      case AppDropDestination(mac, _) =>
        var existing := tx.OpenDestination(mac, DestinationDown);
        assert existing.None?;
        actions := [SendMessage(BuildDestinationDown(mac))];
      case AppAnnounceDestination(mac) =>
        var existing := tx.OpenDestination(mac, DestinationAnnounce);
        assert existing.None?;
        actions := [SendMessage(BuildDestinationAnnounce(mac))];
      case AppRequestLinkCharacteristics(mac, requested) =>
        var existing := tx.OpenDestination(mac, LinkCharacteristicsKind);
        assert existing.None?;
        actions := [SendMessage(BuildLinkRequest(mac, requested))];
      case AppSessionAddresses(changes) =>
        actions := OnLocalAddresses(changes);
    }

    method OnLocalAddresses(changes: AddressChanges) returns (actions: seq<Action>)
      modifies this, tx
      ensures View() == old(View()).(tx := tx.View(), localAddresses := localAddresses)
      ensures (tx.View(), localAddresses, actions) == LocalUpdate(old(tx.View()), old(localAddresses), changes)
    {
      if tx.SessionBusy() {
        return Reject(AppSessionAddresses(changes), Busy);
      }
      if !LocalUpdateOk(localAddresses, changes) {
        return Reject(AppSessionAddresses(changes), InvalidInput);
      }
      var desired := ApplyAddresses(changes, localAddresses);
      var effective := Between(localAddresses, desired);
      if effective == NO_CHANGES {
        return [];
      }
      var existing := tx.OpenSession(SessionUpdate);
      assert existing.None?;
      localAddresses := desired;
      actions := [SendMessage(BuildAddressUpdate(effective))];
    }

    method OnLocal(e: Event) returns (actions: seq<Action>)
      modifies this
      ensures (View(), actions) == RouterLocal(old(View()), e)
    {
      hide BuildInitialization, BuildTermination, StartTermination, BuildHeartbeat, ResetAction;
      match (state, e)
      case (Unconnected, TcpConnected) =>
        state := Initializing;
        actions := [SendMessage(BuildInitialization(config)),
                    StartTimer(TIMER_SESSION_INIT, SessionInitTimer, config.initTimeout, false)];
      case (Unconnected, AppShutdown(_)) => state := Terminated; actions := [];
      case (Unconnected, TcpClosed) => state := Terminated; actions := [];
      case (Initializing, TimerExpired(_, SessionInitTimer)) =>
        state := Terminated;
        actions := [] + [CloseTcp, Emit(SessionDown(TIMED_OUT))];
      case (Initializing, TcpClosed) => state := Terminated; actions := [Emit(SessionDown(TIMED_OUT))];
      case (Initializing, AppShutdown(reason)) =>
        state := Terminated;
        actions := [CancelTimer(TIMER_SESSION_INIT)] + [CloseTcp, Emit(SessionDown(reason))];
      case (InSession, RecvExtensionMessage) => actions := Reset();
      case (InSession, TimerExpired(_, HeartbeatTimer)) => actions := [SendMessage(BuildHeartbeat())];
      case (InSession, TimerExpired(_, HeartbeatMissedTimer)) =>
        terminationReason := TIMED_OUT;
        state := Terminating;
        actions := [CancelTimer(TIMER_HEARTBEAT)] +
                   [SendMessage(BuildTermination(TIMED_OUT)), StartTermination(config)];
      case (InSession, AppShutdown(reason)) =>
        terminationReason := reason;
        state := Terminating;
        actions := [CancelTimer(TIMER_HEARTBEAT), CancelTimer(TIMER_HEARTBEAT_MISSED)] +
                   [SendMessage(BuildTermination(reason)), StartTermination(config)];
      case (InSession, TcpClosed) =>
        state := Terminated;
        actions := [CancelTimer(TIMER_HEARTBEAT), CancelTimer(TIMER_HEARTBEAT_MISSED), Emit(SessionDown(TIMED_OUT))];
      case (Terminating, TimerExpired(_, TerminationTimer)) =>
        state := Terminated;
        actions := [] + [CloseTcp, Emit(SessionDown(TIMED_OUT))];
      case (Terminating, TcpClosed) =>
        state := Terminated;
        actions := [CancelTimer(TIMER_TERMINATION), Emit(SessionDown(terminationReason))];
      case _ => actions := [];
    }
  }
}
