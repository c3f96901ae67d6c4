/** The modem's session machine as an object, proved equal to its step function. */
module ModemFsm {
  import opened Types
  import opened Addresses
  import opened Messages
  import opened Transactions
  import opened Validation
  import opened Session
  import opened ModemSpec
  import ModemInvariant
  import RouterFsm

  /** Absorbing metrics is merging the message that carries them. */
  lemma SameMerge(destinations: map<MacAddress, ModemDestination>, metrics: LinkMetrics)
    ensures (map m | m in destinations ::
               destinations[m].(metrics := Merge(BuildSessionUpdate(metrics).items, destinations[m].metrics)))
         == (map m | m in destinations :: destinations[m].(metrics := Absorb(metrics, destinations[m].metrics)))
  {
    hide Merge, MetricItems, Overlay;
    forall m | m in destinations
      ensures Merge(BuildSessionUpdate(metrics).items, destinations[m].metrics)
           == Absorb(metrics, destinations[m].metrics) {
      MergeBuilt(metrics, destinations[m].metrics);
    }
  }

  class ModemSession {
    var state: Phase
    const tx: TransactionTracker
    var destinations: map<MacAddress, ModemDestination>
    var peerAddresses: DestinationAddrs
    var localAddresses: DestinationAddrs
    var sessionMetrics: LinkMetrics
    const config: SessionConfig
    var terminationReason: u8
    var peerHeartbeat: Option<Duration>
    var peerExtensions: seq<u16>
    var pendingLinks: set<MacAddress>

    function View(): Modem
      reads this, tx
    {
      Modem(state, tx.View(), destinations, peerAddresses, localAddresses, sessionMetrics, config, terminationReason,
            peerHeartbeat, peerExtensions, pendingLinks)
    }

    ghost predicate Valid()
      reads this, tx
    {
      ModemInv(View())
    }

    constructor (config: SessionConfig)
      ensures Valid() && View() == NewModem(config) && fresh(tx)
    {
      this.state := Unconnected;
      this.tx := new TransactionTracker();
      this.destinations := map[];
      this.peerAddresses := NO_ADDRS;
      this.localAddresses := NO_ADDRS;
      this.sessionMetrics := config.initialMetrics;
      this.config := config;
      this.terminationReason := SUCCESS;
      this.peerHeartbeat := None;
      this.peerExtensions := [];
      this.pendingLinks := {};
      new;
      ModemInvariant.NewModemOk(config);
    }

    /** Any event in any state, from any peer: no lookup of the source can fail,
        and the object does what the step function says. */
    method Step(e: Event) returns (actions: seq<Action>)
      requires Valid()
      modifies this, tx
      ensures Valid()
      ensures ModemSlots(old(View())) && (View(), actions) == ModemStep(old(View()), e)
    {
      ModemInvariant.SlotsOf(View());
      ModemInvariant.ModemStepKeepsInvariant(View(), e);
      hide ModemInv, ModemSlots;
      if Command(e).Some? {
        var error := ModemCommandError(View(), e);
        if error.Some? {
          actions := Reject(e, error.value);
        } else {
          hide ModemCommandError, ModemCommand;
          actions := OnCommand(e);
        }
      } else if e.RecvMessage? {
        actions := OnMessage(e.msg);
      } else if e.ProtocolError? {
        actions := Fail(Status(e.code, []));
      } else {
        actions := OnLocal(e);
      }
    }

    method Fail(status: DataItem) returns (actions: seq<Action>)
      requires status.Status?
      modifies this
      ensures (View(), actions) == ModemFail(old(View()), status)
    {
      if state.Terminating? || state.Terminated? {
        return [];
      }
      if state.Initializing? {
        state := Terminated;
        return [CancelTimer(TIMER_SESSION_INIT), CloseTcp, Emit(SessionDown(status.code))];
      }
      state := Terminating;
      terminationReason := status.code;
      actions := [CancelTimer(TIMER_SESSION_INIT), CancelTimer(TIMER_HEARTBEAT), CancelTimer(TIMER_HEARTBEAT_MISSED),
                  SendMessage(Message(SESSION_TERMINATION, [status])), StartTermination(config)];
    }

    method Reset() returns (actions: seq<Action>)
      ensures actions == ResetAction(peerHeartbeat)
    {
      var deadline := MissedDeadline(peerHeartbeat);
      actions := if deadline.Some? then [ResetHeartbeat(TIMER_HEARTBEAT_MISSED, deadline.value)] else [];
    }

    // --- Messages -----------------------------------------------------------

    method CheckReceived(msg: Message) returns (code: Option<u8>)
      requires state.Initializing? || state.InSession?
      ensures code == ModemCheck(View(), msg)
    {
      var initializing := state.Initializing?;
      code := CheckMessage(msg, false, initializing, config.extensions);
      if code.Some? { return; }
      if !MacFormatOk(msg, config.macFormat) { return Some(INVALID_DATA); }
      if initializing || msg.messageType == SESSION_UPDATE {
        var changes := FromMessage(msg);
        if ApplyStrict(changes, peerAddresses).None? { return Some(INVALID_DATA); }
      }
      if initializing { return None; }
      var mac := ExtractMac(msg.items);
      if mac.Some? && mac.value in pendingLinks
         && (msg.messageType == DESTINATION_DOWN || msg.messageType == LINK_CHARACTERISTICS_REQUEST) {
        return Some(UNEXPECTED_MESSAGE);
      }
      code := ValidateTransaction(msg.messageType, mac, tx.View(), Known(View(), mac));
    }

    method OnMessage(msg: Message) returns (actions: seq<Action>)
      requires Valid()
      modifies this, tx
      ensures ModemSlots(old(View())) && (View(), actions) == ModemReceive(old(View()), msg)
    {
      ModemInvariant.SlotsOf(View());
      hide ModemInv, ModemSlots;
      if state.Initializing? || state.InSession? {
        var fatal := FatalStatus(msg.items);
        if msg.messageType != SESSION_TERMINATION && fatal.Some? {
          actions := Fail(fatal.value);
          return;
        }
        var code := CheckReceived(msg);
        hide ModemCheck, FatalStatus, ModemAccept;
        if code.Some? {
          actions := Fail(Status(code.value, []));
        } else if state.Initializing? {
          actions := OnHandshake(msg);
        } else {
          actions := OnAccepted(msg);
        }
      } else if state.Terminating? && msg.messageType == SESSION_TERMINATION_RESPONSE {
        state := Terminated;
        actions := [CancelTimer(TIMER_TERMINATION), CloseTcp, Emit(SessionDown(terminationReason))];
      } else {
        actions := [];
      }
    }

    method OnHandshake(msg: Message) returns (actions: seq<Action>)
      modifies this
      ensures (View(), actions) == ModemHandshake(old(View()), msg)
    {
      if msg.messageType != SESSION_INITIALIZATION {
        state := Terminated;
        return [CancelTimer(TIMER_SESSION_INIT), CloseTcp, Emit(SessionDown(INVALID_DATA))];
      }
      var changes := FromMessage(msg);
      peerAddresses := changes.added;
      peerHeartbeat := ExtractHeartbeat(msg.items);
      peerExtensions := ExtractExtensions(msg.items);
      state := InSession;
      actions := [CancelTimer(TIMER_SESSION_INIT), SendMessage(BuildInitializationResponse(config)),
                  StartTimer(TIMER_HEARTBEAT, HeartbeatTimer, LocalHeartbeat(config), true)];
      var reset := Reset();
      actions := actions + reset;
      actions := actions + [Emit(SessionUp(peerExtensions))];
      actions := actions +
        (if peerAddresses == NO_ADDRS then []
         else [Emit(SessionAddressesUpdate(AddressChanges(peerAddresses, NO_ADDRS), peerAddresses))]);
    }

    /** Announce, and send what was held back while the answer was awaited. */
    method OnUpResponse(mac: MacAddress, msg: Message) returns (actions: seq<Action>)
      requires mac in destinations
      modifies this, tx
      ensures (View(), actions) == ModemUpResponse(old(View()), mac, msg)
    {
      var status := ExtractStatus(msg.items);
      var _ := tx.CloseDestination(mac);
      var d := destinations[mac];
      actions := [];
      if status.None? || status.value == SUCCESS {
        var changes := Between(d.advertised, d.addrs);
        d := d.(announced := true);
        if d.pendingMetrics || changes != NO_CHANGES {
          var head := if d.pendingMetrics then BuildDestinationUpdate(mac, d.metrics)
                      else Message(DESTINATION_UPDATE, [Mac(mac)]);
          var update := AppendTo(changes, head);
          actions := Sending([update]);
          d := d.(pendingMetrics := false, advertised := d.addrs);
        }
      } else {
        d := d.(announced := false);
      }
      destinations := destinations[mac := d];
      var reset := Reset();
      assert [] + reset == reset;
      assert Sending([]) == [];
      actions := actions + reset;
    }

    method OnDown(mac: MacAddress) returns (actions: seq<Action>)
      requires mac in destinations
      modifies this
      ensures (View(), actions) == ModemDown(old(View()), mac)
    {
      destinations := destinations[mac := destinations[mac].(announced := false, pendingMetrics := false)];
      var reset := Reset();
      actions := [SendMessage(BuildDestinationDownResponse(mac, SUCCESS)),
                  Emit(DestinationDownEvent(mac, SUCCESS))] + reset;
    }

    method OnDownResponse(mac: MacAddress) returns (actions: seq<Action>)
      modifies this, tx
      ensures (View(), actions) == ModemDownResponse(old(View()), mac)
    {
      var _ := tx.CloseDestination(mac);
      destinations := destinations - {mac};
      actions := Reset();
    }

    method OnSessionUpdate(msg: Message) returns (actions: seq<Action>)
      requires ApplyStrict(FromItems(msg.items), peerAddresses).Some?
      modifies this
      ensures (View(), actions) == ModemSessionUpdate(old(View()), msg)
    {
      actions := [SendMessage(BuildSessionUpdateResponse(SUCCESS))];
      var changes := FromMessage(msg);
      peerAddresses := ApplyStrict(changes, peerAddresses).value;
      actions := actions + (if changes == NO_CHANGES then []
                            else [Emit(SessionAddressesUpdate(changes, peerAddresses))]);
      var reset := Reset();
      actions := actions + reset;
    }

    method OnAnnounce(mac: MacAddress, msg: Message) returns (actions: seq<Action>)
      modifies this
      ensures (View(), actions) == ModemAnnounce(old(View()), mac, msg)
    {
      var response := BuildAnnounceDenied(mac);
      if mac in destinations {
        var d := destinations[mac];
        response := BuildAnnounceAccepted(mac, d.metrics, d.addrs);
        destinations := destinations[mac := d.(announced := true, pendingMetrics := false, advertised := d.addrs)];
      }
      var requested := FromMessage(msg);
      var reset := Reset();
      actions := [SendMessage(response), Emit(DestinationAnnounced(mac, requested))] + reset;
    }

    method OnLinkRequest(mac: MacAddress, msg: Message) returns (actions: seq<Action>)
      requires mac in destinations
      modifies this
      ensures (View(), actions) == ModemLinkRequest(old(View()), mac, msg)
    {
      var metrics := destinations[mac].metrics;
      var requested := ExtractLinkCharacteristics(msg.items);
      var event := Emit(LinkCharacteristicsRequested(mac, requested, metrics, config.deferLinkCharacteristics));
      if config.deferLinkCharacteristics {
        pendingLinks := pendingLinks + {mac};
        actions := [event];
      } else {
        actions := [SendMessage(BuildLinkResponse(mac, REQUEST_DENIED, [], metrics)), event];
      }
      var reset := Reset();
      actions := actions + reset;
    }

    method OnPeerTermination(msg: Message) returns (actions: seq<Action>)
      modifies this
      ensures (View(), actions) == ModemPeerTerminates(old(View()), msg)
    {
      var status := ExtractStatus(msg.items);
      state := Terminated;
      actions := [CancelTimer(TIMER_HEARTBEAT), CancelTimer(TIMER_HEARTBEAT_MISSED),
                  SendMessage(BuildTerminationResponse()), CloseTcp,
                  Emit(SessionDown(if status.Some? then status.value else SHUTTING_DOWN))];
    }

    method OnAccepted(msg: Message) returns (actions: seq<Action>)
      requires Valid() && state.InSession? && ModemCheck(View(), msg).None?
      modifies this, tx
      ensures ModemSlots(old(View())) && (View(), actions) == ModemAccept(old(View()), msg)
    {
      ModemInvariant.SlotsOf(View());
      AcceptedMessage(View(), msg);
      assert Expected(msg.messageType, false, false);
      hide ModemInv, ModemSlots, ModemCheck, ModemUpResponse, ModemDown, ModemDownResponse, ModemSessionUpdate,
           ModemAnnounce, ModemLinkRequest, ModemPeerTerminates, ResetAction, FromItems, ApplyStrict;
      var mt, mac := msg.messageType, ExtractMac(msg.items);
      if mt == SESSION_TERMINATION { actions := OnPeerTermination(msg); }
      else if mt == SESSION_UPDATE { actions := OnSessionUpdate(msg); }
      else if mt == SESSION_UPDATE_RESPONSE {
        var _ := tx.CloseSession();
        actions := Reset();
      }
      else if mt == HEARTBEAT { actions := Reset(); }
      else if mt == DESTINATION_UP_RESPONSE { actions := OnUpResponse(mac.value, msg); }
      else if mt == DESTINATION_ANNOUNCE { actions := OnAnnounce(mac.value, msg); }
      else if mt == DESTINATION_DOWN { actions := OnDown(mac.value); }
      else if mt == DESTINATION_DOWN_RESPONSE { actions := OnDownResponse(mac.value); }
      else { actions := OnLinkRequest(mac.value, msg); }
    }

    // --- Commands -----------------------------------------------------------

    method OnCommand(e: Event) returns (actions: seq<Action>)
      requires Valid() && Command(e).Some? && ModemSlots(View()) && ModemCommandError(View(), e).None?
      modifies this, tx
      ensures ModemSlots(old(View())) && ModemCommandError(old(View()), e).None?
      ensures (View(), actions) == ModemCommand(old(View()), e)
    {
      ModemInvariant.CommandSettled(View(), e);
      hide ModemInv, ModemSlots, ModemCommandError, ModemAdd, ModemDrop, ModemUpdateMetrics, ModemUpdateAddresses,
           ModemUpdateSession, ModemAnswer, LocalUpdate, ValidMetrics, Validate, MessageEncodable, LocalUpdateOk;
      match e
      case AppAddDestination(mac, metrics, addrs) => actions := OnAdd(mac, metrics, addrs);
      case AppDropDestination(mac, _) => actions := OnDrop(mac);
      case AppUpdateMetrics(mac, metrics) => actions := OnUpdateMetrics(mac, metrics);
      case AppUpdateAddresses(mac, changes) => actions := OnUpdateAddresses(mac, changes);
      case AppSessionUpdate(metrics) => actions := OnSessionMetrics(metrics);
      case AppLinkCharacteristicsResponse(mac, status, text, reported) =>
        actions := OnAnswer(mac, status, text, reported);
      case AppSessionAddresses(changes) => actions := OnLocalAddresses(changes);
      case AppAnnounceDestination(mac) => actions := [];
      case AppRequestLinkCharacteristics(mac, requested) => actions := [];
    }

    method OnAdd(mac: MacAddress, metrics: LinkMetrics, addrs: DestinationAddrs) returns (actions: seq<Action>)
      requires mac !in tx.perDestination
      modifies this, tx
      ensures (View(), actions) == ModemAdd(old(View()), mac, metrics, addrs)
    {
      var effective := Absorb(metrics, sessionMetrics);
      var a := CanonicalAddrs(addrs);
      var existing := tx.OpenDestination(mac, DestinationUp);
      assert existing.None?;
      destinations := destinations[mac := ModemDestination(false, false, effective, CanonicalAddrs(a),
                                                           CanonicalAddrs(a))];
      actions := [SendMessage(BuildDestinationUp(mac, effective, a))];
    }

    method OnDrop(mac: MacAddress) returns (actions: seq<Action>)
      requires mac in destinations && mac !in tx.perDestination
      modifies this, tx
      ensures (View(), actions) == ModemDrop(old(View()), mac)
    {
      if !destinations[mac].announced && !tx.DestinationBusy(mac) {
        destinations := destinations - {mac};
        return [];
      }
      var existing := tx.OpenDestination(mac, DestinationDown);
      assert existing.None?;
      actions := [SendMessage(BuildDestinationDown(mac))];
    }

    method OnUpdateMetrics(mac: MacAddress, metrics: LinkMetrics) returns (actions: seq<Action>)
      requires mac in destinations
      modifies this
      ensures (View(), actions) == ModemUpdateMetrics(old(View()), mac, metrics)
    {
      var d := destinations[mac];
      d := d.(metrics := Absorb(metrics, d.metrics));
      if !d.announced || tx.DestinationBusy(mac) {
        destinations := destinations[mac := d.(pendingMetrics := true)];
        return [];
      }
      destinations := destinations[mac := d];
      actions := [SendMessage(BuildDestinationUpdate(mac, metrics))];
    }

    method OnUpdateAddresses(mac: MacAddress, changes: AddressChanges) returns (actions: seq<Action>)
      requires mac in destinations
      modifies this
      ensures (View(), actions) == ModemUpdateAddresses(old(View()), mac, changes)
    {
      var d := destinations[mac];
      var desired := RouterFsm.ApplyAddresses(changes, d.addrs);
      d := d.(addrs := desired);
      destinations := destinations[mac := d];
      if !d.announced || tx.DestinationBusy(mac) {
        return [];
      }
      var effective := Between(d.advertised, d.addrs);
      if effective == NO_CHANGES {
        return [];
      }
      destinations := destinations[mac := d.(advertised := d.addrs)];
      assert destinations == old(destinations)[mac := d.(advertised := d.addrs)];
      var update := AppendTo(effective, Message(DESTINATION_UPDATE, [Mac(mac)]));
      actions := [SendMessage(update)];
    }

    /** Every destination absorbs the session metrics, one after the other. */
    method MergeAll(msg: Message)
      modifies this`destinations
      ensures destinations == map m | m in old(destinations) ::
                old(destinations)[m].(metrics := Merge(msg.items, old(destinations)[m].metrics))
    {
      ghost var before := destinations;
      var todo := destinations.Keys;
      while todo != {}
        invariant todo <= before.Keys && destinations.Keys == before.Keys
        invariant forall m :: m in before ==>
          destinations[m] == if m in todo then before[m]
                             else before[m].(metrics := Merge(msg.items, before[m].metrics))
        decreases |todo|
      {
        var m :| m in todo;
        var metrics, _ := MergeLinkMetrics(msg, destinations[m].metrics);
        destinations := destinations[m := destinations[m].(metrics := metrics)];
        todo := todo - {m};
      }
    }

    method OnSessionMetrics(metrics: LinkMetrics) returns (actions: seq<Action>)
      requires tx.sessionPending.None?
      modifies this, tx
      ensures (View(), actions) == ModemUpdateSession(old(View()), metrics)
    {
      var existing := tx.OpenSession(SessionUpdate);
      assert existing.None?;
      var message := BuildSessionUpdate(metrics);
      var merged, _ := MergeLinkMetrics(message, sessionMetrics);
      sessionMetrics := merged;
      MergeAll(message);
      MergeBuilt(metrics, old(sessionMetrics));
      SameMerge(old(destinations), metrics);
      hide Merge, MetricItems, Overlay;
      actions := [SendMessage(message)];
    }

    method OnAnswer(mac: MacAddress, status: u8, text: Text, reported: Option<LinkMetrics>)
      returns (actions: seq<Action>)
      requires mac in destinations
      modifies this
      ensures (View(), actions) == ModemAnswer(old(View()), mac, status, text, reported)
    {
      pendingLinks := pendingLinks - {mac};
      var d := destinations[mac];
      if reported.Some? {
        d := d.(metrics := Absorb(reported.value, d.metrics));
      }
      destinations := destinations[mac := d];
      actions := [SendMessage(BuildLinkResponse(mac, status, text, d.metrics))];
    }

    method OnLocalAddresses(changes: AddressChanges) returns (actions: seq<Action>)
      modifies this, tx
      ensures View() == old(View()).(tx := tx.View(), localAddresses := localAddresses)
      ensures (tx.View(), localAddresses, actions) == LocalUpdate(old(tx.View()), old(localAddresses), changes)
    {
      if tx.SessionBusy() {
        return Reject(AppSessionAddresses(changes), Busy);
      }
      if !LocalUpdateOk(localAddresses, changes) {
        return Reject(AppSessionAddresses(changes), InvalidInput);
      }
      var desired := RouterFsm.ApplyAddresses(changes, localAddresses);
      var effective := Between(localAddresses, desired);
      if effective == NO_CHANGES {
        return [];
      }
      var existing := tx.OpenSession(SessionUpdate);
      assert existing.None?;
      localAddresses := desired;
      actions := [SendMessage(BuildAddressUpdate(effective))];
    }

    // --- Local events -------------------------------------------------------

    method OnLocal(e: Event) returns (actions: seq<Action>)
      modifies this
      ensures (View(), actions) == ModemLocal(old(View()), e)
    {
      hide BuildTermination, StartTermination, BuildHeartbeat, ResetAction;
      match (state, e)
      case (Unconnected, TcpAccepted) =>
        state := Initializing;
        actions := [StartTimer(TIMER_SESSION_INIT, SessionInitTimer, config.initTimeout, false)];
      case (Unconnected, AppShutdown(_)) => state := Terminated; actions := [];
      case (Unconnected, TcpClosed) => state := Terminated; actions := [];
      case (Initializing, TimerExpired(_, SessionInitTimer)) =>
        state := Terminated;
        actions := [CloseTcp, Emit(SessionDown(TIMED_OUT))];
      case (Initializing, TcpClosed) =>
        state := Terminated;
        actions := [CancelTimer(TIMER_SESSION_INIT), Emit(SessionDown(TIMED_OUT))];
      case (Initializing, AppShutdown(reason)) =>
        state := Terminated;
        actions := [CancelTimer(TIMER_SESSION_INIT), CloseTcp, Emit(SessionDown(reason))];
      case (InSession, RecvExtensionMessage) => actions := Reset();
      case (InSession, TimerExpired(_, HeartbeatTimer)) => actions := [SendMessage(BuildHeartbeat())];
      case (InSession, TimerExpired(_, HeartbeatMissedTimer)) =>
        terminationReason := TIMED_OUT;
        state := Terminating;
        actions := [CancelTimer(TIMER_HEARTBEAT)] +
                   [SendMessage(BuildTermination(TIMED_OUT)), StartTermination(config)];
      case (InSession, AppShutdown(reason)) =>
        terminationReason := reason;
        state := Terminating;
        actions := [CancelTimer(TIMER_HEARTBEAT), CancelTimer(TIMER_HEARTBEAT_MISSED)] +
                   [SendMessage(BuildTermination(reason)), StartTermination(config)];
      case (InSession, TcpClosed) =>
        state := Terminated;
        actions := [CancelTimer(TIMER_HEARTBEAT), CancelTimer(TIMER_HEARTBEAT_MISSED), Emit(SessionDown(TIMED_OUT))];
      case (Terminating, TimerExpired(_, TerminationTimer)) =>
        state := Terminated;
        actions := [CloseTcp, Emit(SessionDown(TIMED_OUT))];
      case (Terminating, TcpClosed) =>
        state := Terminated;
        actions := [CancelTimer(TIMER_TERMINATION), Emit(SessionDown(terminationReason))];
      case _ => actions := [];
    }
  }
}
