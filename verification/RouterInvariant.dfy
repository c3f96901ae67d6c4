/** Properties of the router machine against any peer and any application: its
    invariant, the traces of events it emits, and its timers.
 */
module RouterInvariant {
  import opened Types
  import opened Addresses
  import opened Messages
  import opened Transactions
  import opened Validation
  import opened Session
  import opened RouterSpec

  // --- Ownership of addresses -----------------------------------------------

  /** A list that only gains free addresses stays disjoint from what is taken. */
  lemma OwnedFamily<T(!new)>(old_: seq<T>, added: seq<T>, removed: seq<T>, taken: set<T>, other: seq<T>)
    requires Disjoint(old_, other)
    requires forall x :: x in other ==> x in taken
    ensures Disjoint(Apply(old_, RetainFree(added, removed, taken), removed), other)
  {
    RetainFreeMembers(added, removed, taken);
    ApplyMembers(old_, RetainFree(added, removed, taken), removed);
  }

  lemma OwnedCanonical(s: Router, mac: MacAddress, msg: Message)
    ensures var c := OwnedChanges(s, mac, msg); IsCanonical(c.added) && Canonical(c) == c
  {
    var c, o := FromItems(msg.items), OwnedChanges(s, mac, msg);
    FromItemsCanonical(msg.items);
    RetainFreeMembers(c.added.v4Subnets, c.removed.v4Subnets, TakenNet4(s, mac));
    RetainFreeMembers(c.added.v6Subnets, c.removed.v6Subnets, TakenNet6(s, mac));
    CanonicalByMembers(c.added, c.added, o.added);
    CanonicalFixed(o.added);
    CanonicalFixed(o.removed);
  }

  lemma OwnedStaysDisjoint(s: Router, mac: MacAddress, msg: Message, old_: DestinationAddrs, n: MacAddress)
    requires n in s.destinations && n != mac
    requires DisjointAddrs(old_, s.destinations[n].addrs)
    ensures DisjointAddrs(ApplyLenient(OwnedChanges(s, mac, msg), old_), s.destinations[n].addrs)
  {
    OwnedCanonical(s, mac, msg);
    var c, other := FromItems(msg.items), s.destinations[n].addrs;
    OwnedFamily(old_.v4, c.added.v4, c.removed.v4, Taken4(s, mac), other.v4);
    OwnedFamily(old_.v6, c.added.v6, c.removed.v6, Taken6(s, mac), other.v6);
    OwnedFamily(old_.v4Subnets, c.added.v4Subnets, c.removed.v4Subnets, TakenNet4(s, mac), other.v4Subnets);
    OwnedFamily(old_.v6Subnets, c.added.v6Subnets, c.removed.v6Subnets, TakenNet6(s, mac), other.v6Subnets);
  }

  lemma DisjointSymmetric(a: DestinationAddrs, b: DestinationAddrs)
    requires DisjointAddrs(a, b)
    ensures DisjointAddrs(b, a)
  {
  }

  /** Replacing one entry by one grown only through owned changes. */
  lemma ReplaceOwned(s: Router, mac: MacAddress, msg: Message, old_: DestinationAddrs, d: RouterDestination, t: Router)
    requires RouterOwnership(s) && CleanAddrs(old_)
    requires forall n :: n in s.destinations && n != mac ==> DisjointAddrs(old_, s.destinations[n].addrs)
    requires d.addrs == ApplyLenient(OwnedChanges(s, mac, msg), old_)
    requires t.destinations == s.destinations[mac := d]
    requires t.peerAddresses == s.peerAddresses && t.localAddresses == s.localAddresses
    ensures RouterOwnership(t)
  {
    hide CleanAddrs, DisjointAddrs, ApplyLenient, OwnedChanges;
    LenientKeepsClean(OwnedChanges(s, mac, msg), old_);
    forall n | n in s.destinations && n != mac
      ensures DisjointAddrs(d.addrs, t.destinations[n].addrs) && DisjointAddrs(t.destinations[n].addrs, d.addrs)
    {
      OwnedStaysDisjoint(s, mac, msg, old_, n);
      DisjointSymmetric(d.addrs, s.destinations[n].addrs);
    }
  }

  /** Fewer entries, or entries with the same addresses, own no more. */
  lemma ShrinkOwned(s: Router, t: Router)
    requires RouterOwnership(s)
    requires forall m :: m in t.destinations ==>
               m in s.destinations && t.destinations[m].addrs == s.destinations[m].addrs
    requires CleanAddrs(t.peerAddresses) && CleanAddrs(t.localAddresses)
    ensures RouterOwnership(t)
  {
    hide CleanAddrs, DisjointAddrs;
  }

  lemma NothingOwned()
    ensures CleanAddrs(NO_ADDRS)
    ensures forall a :: DisjointAddrs(NO_ADDRS, a)
  {
  }

  // --- Each handler keeps the invariant -------------------------------------

  ghost predicate Kept(s: Router, t: Router) {
    RouterInv(t) && t.config == s.config && Rank(t.phase) >= Rank(s.phase)
  }

  lemma PhaseOnly(s: Router, t: Router)
    requires RouterInv(s)
    requires t == s.(phase := t.phase, terminationReason := t.terminationReason)
    requires Rank(t.phase) >= 3 && Rank(t.phase) >= Rank(s.phase)
    ensures Kept(s, t)
  {
    hide CleanAddrs, DisjointAddrs;
  }

  lemma UpKept(s: Router, mac: MacAddress, msg: Message)
    requires RouterInv(s) && s.phase.InSession? && mac !in s.destinations && mac !in s.tx.perDestination
    ensures Kept(s, RouterUp(s, mac, msg).0)
  {
    hide CleanAddrs, DisjointAddrs, ApplyLenient, OwnedChanges, Merge;
    NothingOwned();
    ReplaceOwned(s, mac, msg, NO_ADDRS, NewDestination(s, mac, msg), RouterUp(s, mac, msg).0);
  }

  lemma AnnounceResponseKept(s: Router, mac: MacAddress, msg: Message)
    requires RouterInv(s) && s.phase.InSession? && mac !in s.destinations
    ensures Kept(s, RouterAnnounceResponse(s, mac, msg).0)
  {
    hide CleanAddrs, DisjointAddrs, ApplyLenient, OwnedChanges, Merge;
    NothingOwned();
    if ExtractStatus(msg.items) == Some(SUCCESS) {
      ReplaceOwned(s, mac, msg, NO_ADDRS, NewDestination(s, mac, msg), RouterAnnounceResponse(s, mac, msg).0);
    } else {
      ShrinkOwned(s, RouterAnnounceResponse(s, mac, msg).0);
    }
  }

  lemma UpdateKept(s: Router, mac: MacAddress, msg: Message)
    requires RouterInv(s) && s.phase.InSession? && mac in s.destinations
    ensures Kept(s, RouterUpdate(s, mac, msg).0)
  {
    hide CleanAddrs, DisjointAddrs, ApplyLenient, OwnedChanges, Merge, Between;
    var t := RouterUpdate(s, mac, msg).0;
    ReplaceOwned(s, mac, msg, s.destinations[mac].addrs, t.destinations[mac], t);
  }

  lemma RemovalKept(s: Router, mac: MacAddress, t: Router)
    requires RouterInv(s) && s.phase.InSession?
    requires t == s.(destinations := s.destinations - {mac}, tx := t.tx)
    requires t.tx == Transactions.Close(s.tx, DestinationScope(mac)) || (t.tx == s.tx && mac !in s.tx.perDestination)
    ensures Kept(s, t)
  {
    hide CleanAddrs, DisjointAddrs;
    ShrinkOwned(s, t);
  }

  lemma LinkResponseKept(s: Router, mac: MacAddress, msg: Message)
    requires RouterInv(s) && s.phase.InSession? && mac in s.destinations && ExtractStatusItem(msg.items).Some?
    ensures Kept(s, RouterLinkResponse(s, mac, msg).0)
  {
    hide CleanAddrs, DisjointAddrs, Merge;
    ShrinkOwned(s, RouterLinkResponse(s, mac, msg).0);
  }

  lemma SessionUpdateKept(s: Router, msg: Message)
    requires RouterInv(s) && s.phase.InSession? && ApplyStrict(FromItems(msg.items), s.peerAddresses).Some?
    ensures Kept(s, RouterSessionUpdate(s, msg).0)
  {
    hide CleanAddrs, DisjointAddrs, Merge, ApplyLenient, FromItems, Validate, StrictlyApplies, Canonical;
    LenientKeepsClean(Canonical(FromItems(msg.items)), s.peerAddresses);
    ShrinkOwned(s, RouterSessionUpdate(s, msg).0);
  }

  lemma EstablishKept(s: Router, msg: Message)
    requires RouterInv(s) && s.phase.Initializing? && RouterCheck(s, msg).None?
    requires msg.messageType == SESSION_INITIALIZATION_RESPONSE
    ensures Kept(s, RouterEstablish(s, msg).0)
  {
    var t := RouterEstablish(s, msg).0;
    ValidatedIsClean(msg.items);
    HeartbeatRequired(s, msg);
    ShrinkOwned(s, t);
  }

  lemma HeartbeatRequired(s: Router, msg: Message)
    requires s.phase.Initializing? && RouterCheck(s, msg).None?
    ensures LiveInterval(ExtractHeartbeat(msg.items))
  {
    hide ApplyStrict;
    HeartbeatPresent(msg.items);
    assert HasType(msg.items, HEARTBEAT_INTERVAL);
    var x :| x in msg.items && !x.Unknown? && TypeId(x) == HEARTBEAT_INTERVAL;
    var i :| 0 <= i < |msg.items| && msg.items[i] == x;
    assert msg.items[i].HeartbeatInterval?;
    EncodableIntervalIsLive(ExtractHeartbeat(msg.items).value);
  }

  lemma LocalKept(s: Router, changes: AddressChanges)
    requires RouterInv(s) && s.phase.InSession?
    ensures var (tx, local, _) := LocalUpdate(s.tx, s.localAddresses, changes);
            Kept(s, s.(tx := tx, localAddresses := local))
  {
    hide CleanAddrs, DisjointAddrs, ApplyLenient, LocalUpdateOk, LocalChange;
    LenientKeepsClean(changes, s.localAddresses);
    var (tx, local, _) := LocalUpdate(s.tx, s.localAddresses, changes);
    ShrinkOwned(s, s.(tx := tx, localAddresses := local));
  }

  lemma AcceptKept(s: Router, msg: Message)
    requires RouterInv(s) && s.phase.InSession? && RouterCheck(s, msg).None?
    ensures Kept(s, RouterAccept(s, msg).0)
  {
    hide RouterOwnership, RouterUp, RouterUpdate, RouterAnnounceResponse, RouterLinkResponse, RouterSessionUpdate;
    AcceptedMessage(s, msg);
    NotBusy(s, msg);
    hide RouterCheck;
    var mt, mac := msg.messageType, ExtractMac(msg.items);
    if mt == SESSION_TERMINATION { PhaseOnly(s, RouterAccept(s, msg).0); }
    else if mt == SESSION_UPDATE { SessionUpdateKept(s, msg); }
    else if mt == SESSION_UPDATE_RESPONSE || mt == HEARTBEAT { ShrinkOwned2(s, RouterAccept(s, msg).0); }
    else if mt == DESTINATION_UP { UpKept(s, mac.value, msg); }
    else if mt == DESTINATION_UPDATE { UpdateKept(s, mac.value, msg); }
    else if mt == DESTINATION_DOWN { RemovalKept(s, mac.value, RouterAccept(s, msg).0); }
    else if mt == DESTINATION_DOWN_RESPONSE { RemovalKept(s, mac.value, RouterAccept(s, msg).0); }
    else if mt == DESTINATION_ANNOUNCE_RESPONSE { AnnounceResponseKept(s, mac.value, msg); }
    else { LinkResponseKept(s, mac.value, msg); }
  }

  lemma ShrinkOwned2(s: Router, t: Router)
    requires RouterInv(s) && t == s.(tx := t.tx) && RouterSlots(t) && s.phase.InSession?
    ensures Kept(s, t)
  {
    hide CleanAddrs, DisjointAddrs;
  }

  lemma NotBusy(s: Router, msg: Message)
    requires s.phase.InSession? && RouterCheck(s, msg).None?
    ensures ExtractMac(msg.items).Some? && (msg.messageType == DESTINATION_UP || msg.messageType == DESTINATION_DOWN)
            ==> ExtractMac(msg.items).value !in s.tx.perDestination
  {
  }

  lemma ReceiveKept(s: Router, msg: Message)
    requires RouterInv(s)
    ensures Kept(s, RouterReceive(s, msg).0)
  {
    hide RouterAccept, RouterEstablish, RouterCheck, RouterOwnership, FatalStatus, ExtractStatus, InitFailedText;
    var t := RouterReceive(s, msg).0;
    if RouterVerdict(s, msg).Some? { PhaseOnly(s, t); }
    else if s.phase.Initializing? {
      if msg.messageType == SESSION_INITIALIZATION_RESPONSE
         && (ExtractStatus(msg.items).None? || ExtractStatus(msg.items).value == SUCCESS) {
        EstablishKept(s, msg);
      } else {
        PhaseOnly(s, t);
      }
    }
    else if s.phase.InSession? { AcceptKept(s, msg); }
    else if s.phase.Terminating? || s.phase.Terminated? { PhaseOnly(s, t); }
  }

  lemma CommandKept(s: Router, e: Event)
    requires RouterInv(s) && Command(e).Some? && RouterCommandError(s, e).None?
    ensures Kept(s, RouterCommand(s, e).0)
  {
    hide RouterOwnership, LocalUpdate, LocalUpdateOk;
    if e.AppSessionAddresses? { LocalKept(s, e.changes); }
    else { ShrinkOwned2(s, RouterCommand(s, e).0); }
  }

  lemma LocalEventKept(s: Router, e: Event)
    requires RouterInv(s)
    ensures Kept(s, RouterLocal(s, e).0)
  {
    hide RouterOwnership;
    var t := RouterLocal(s, e).0;
    if Rank(t.phase) >= 3 { PhaseOnly(s, t); } else { SameOwnership(s, t); }
  }

  lemma SameOwnership(s: Router, t: Router)
    requires RouterOwnership(s) && t == s.(phase := t.phase)
    ensures RouterOwnership(t)
  {
  }

  /** The invariant holds initially and every step keeps it, for every event and
      every message: the state rank never falls, the configuration never changes,
      and no two destinations ever share an address. */
  lemma RouterStepKeepsInvariant(s: Router, e: Event)
    requires RouterInv(s)
    ensures RouterInv(RouterStep(s, e).0)
    ensures RouterStep(s, e).0.config == s.config
    ensures Rank(RouterStep(s, e).0.phase) >= Rank(s.phase)
  {
    hide RouterReceive, RouterCommand, RouterLocal, RouterCommandError, RouterInv;
    if Command(e).Some? {
      if RouterCommandError(s, e).None? { CommandKept(s, e); }
    } else if e.RecvMessage? {
      ReceiveKept(s, e.msg);
    } else if e.ProtocolError? {
      FailKept(s, Status(e.code, []));
    } else {
      LocalEventKept(s, e);
    }
  }

  lemma FailKept(s: Router, status: DataItem)
    requires RouterInv(s) && status.Status?
    ensures Kept(s, RouterFail(s, status).0)
  {
    if Rank(s.phase) < 3 { PhaseOnly(s, RouterFail(s, status).0); }
  }

  lemma SlotsOf(s: Router)
    requires RouterInv(s)
    ensures RouterSlots(s)
  {
  }

  lemma NewRouterOk(config: SessionConfig)
    ensures RouterInv(NewRouter(config))
  {
    NothingOwned();
  }

  // --- Runs -----------------------------------------------------------------

  /** A whole run: the final state and every action taken, in order. */
  ghost function RouterRun(s: Router, events: seq<Event>): Outcome
    requires RouterInv(s)
    ensures RouterInv(RouterRun(s, events).0)
  {
    if |events| == 0 then (s, []) else
      var (t, before) := RouterRun(s, events[..|events| - 1]);
      RouterStepKeepsInvariant(t, events[|events| - 1]);
      var (u, actions) := RouterStep(t, events[|events| - 1]);
      (u, before + actions)
  }

  ghost function RunFromNew(config: SessionConfig, events: seq<Event>): Outcome {
    NewRouterOk(config);
    RouterRun(NewRouter(config), events)
  }

  // --- Traces of emitted events ---------------------------------------------

  datatype SessionMark = NotYet | Open | Closed

  /** An observer of the event stream: how far the session got, and which
      destinations are up. `Violation` is final. */
  datatype Observer = Observer(session: SessionMark, up: set<MacAddress>) | Violation

  function Observe(o: Observer, a: Action): Observer {
    if o.Violation? || !a.Emit? then o
    else match a.event
      case CommandRejected(_, _) => o
      case SessionUp(_) => if o.session.NotYet? then o.(session := Open) else Violation
      case SessionDown(_) => if o.session.Closed? then Violation else o.(session := Closed)
      case DestinationUpEvent(mac, _, _) =>
        if o.session.Open? && mac !in o.up then o.(up := o.up + {mac}) else Violation
      case DestinationDownEvent(mac, _) =>
        if o.session.Open? && mac in o.up then o.(up := o.up - {mac}) else Violation
      case DestinationUpdateEvent(mac, _) => if o.session.Open? && mac in o.up then o else Violation
      case DestinationAddressesUpdate(mac, _, _) => if o.session.Open? && mac in o.up then o else Violation
      case LinkCharacteristicsResponse(mac, _, _, _) => if o.session.Open? && mac in o.up then o else Violation
      case SessionAddressesUpdate(_, _) => if o.session.Open? then o else Violation
      case SessionMetricsUpdate(_) => if o.session.Open? then o else Violation
      case _ => Violation
  }

  ghost function Watch(o: Observer, actions: seq<Action>): Observer {
    Fold(Observe, o, actions)
  }

  /** The observer agrees with the machine. */
  ghost predicate InStep(s: Router, o: Observer) {
    && o.Observer?
    && o.up == s.destinations.Keys
    && (Rank(s.phase) < 2 ==> o.session.NotYet?)
    && (s.phase.InSession? ==> o.session.Open?)
    && (s.phase.Terminating? ==> !o.session.Closed?)
  }

  lemma WatchOne(o: Observer, a: Action)
    ensures Watch(o, [a]) == Observe(o, a)
  {
    FoldOne(Observe, o, a);
  }

  lemma WatchTwo(o: Observer, a: Action, b: Action)
    ensures Watch(o, [a, b]) == Observe(Observe(o, a), b)
  {
    FoldTwo(Observe, o, a, b);
  }

  lemma WatchConcat(o: Observer, a: seq<Action>, b: seq<Action>)
    ensures Watch(o, a + b) == Watch(Watch(o, a), b)
  {
    FoldConcat(Observe, o, a, b);
  }

  lemma WatchReset(o: Observer, peer: Option<Duration>)
    ensures Watch(o, ResetAction(peer)) == o
  {
    if MissedDeadline(peer).Some? { WatchOne(o, ResetAction(peer)[0]); }
  }

  /** A list that emits at most its parts, then re-arms the heartbeat. */
  lemma WatchThenReset(o: Observer, actions: seq<Action>, peer: Option<Duration>)
    ensures Watch(o, actions + ResetAction(peer)) == Watch(o, actions)
  {
    WatchConcat(o, actions, ResetAction(peer));
    WatchReset(Watch(o, actions), peer);
  }

  lemma WatchIf(o: Observer, present: bool, a: Action)
    ensures Watch(o, if present then [a] else []) == if present then Observe(o, a) else o
  {
    WatchOne(o, a);
  }

  ghost predicate OutcomeInStep(r: Outcome, o: Observer) { InStep(r.0, Watch(o, r.1)) }

  lemma UpInStep(s: Router, mac: MacAddress, msg: Message, o: Observer)
    requires s.phase.InSession? && mac !in s.destinations && InStep(s, o)
    ensures OutcomeInStep(RouterUp(s, mac, msg), o)
  {
    hide NewDestination, ResetAction, Watch;
    var d := NewDestination(s, mac, msg);
    var a := SendMessage(BuildDestinationUpResponse(mac, SUCCESS));
    var b := Emit(DestinationUpEvent(mac, d.metrics, d.addrs));
    WatchTwo(o, a, b);
    WatchThenReset(o, [a, b], s.peerHeartbeat);
  }

  lemma DownInStep(s: Router, mac: MacAddress, msg: Message, o: Observer)
    requires s.phase.InSession? && mac in s.destinations && InStep(s, o)
    ensures OutcomeInStep(RouterDown(s, mac, msg), o)
  {
    hide ResetAction, Watch, ExtractStatus;
    var reason := if ExtractStatus(msg.items).Some? then ExtractStatus(msg.items).value else SUCCESS;
    var a, b := SendMessage(BuildDestinationDownResponse(mac, SUCCESS)), Emit(DestinationDownEvent(mac, reason));
    WatchTwo(o, a, b);
    WatchThenReset(o, [a, b], s.peerHeartbeat);
  }

  lemma DownResponseInStep(s: Router, mac: MacAddress, msg: Message, o: Observer)
    requires s.phase.InSession? && mac in s.destinations && ExtractStatus(msg.items).Some? && InStep(s, o)
    ensures OutcomeInStep(RouterDownResponse(s, mac, msg), o)
  {
    hide ResetAction, Watch, ExtractStatus;
    var a := Emit(DestinationDownEvent(mac, ExtractStatus(msg.items).value));
    WatchOne(o, a);
    WatchThenReset(o, [a], s.peerHeartbeat);
  }

  lemma AnnounceResponseInStep(s: Router, mac: MacAddress, msg: Message, o: Observer)
    requires s.phase.InSession? && mac !in s.destinations && InStep(s, o)
    ensures OutcomeInStep(RouterAnnounceResponse(s, mac, msg), o)
  {
    hide ResetAction, Watch, ExtractStatus, NewDestination;
    var d := NewDestination(s, mac, msg);
    var a := Emit(DestinationUpEvent(mac, d.metrics, d.addrs));
    WatchOne(o, a);
    WatchReset(o, s.peerHeartbeat);
    WatchThenReset(o, [a], s.peerHeartbeat);
  }

  lemma LinkResponseInStep(s: Router, mac: MacAddress, msg: Message, o: Observer)
    requires s.phase.InSession? && mac in s.destinations && ExtractStatusItem(msg.items).Some? && InStep(s, o)
    ensures OutcomeInStep(RouterLinkResponse(s, mac, msg), o)
  {
    hide ResetAction, Watch, Merge, ExtractStatusItem;
    var status := ExtractStatusItem(msg.items).value;
    var a := Emit(LinkCharacteristicsResponse(mac, status.code, status.text,
                                              Merge(msg.items, s.destinations[mac].metrics)));
    WatchOne(o, a);
    WatchThenReset(o, [a], s.peerHeartbeat);
  }

  lemma PeerTerminatesInStep(s: Router, msg: Message, o: Observer)
    requires s.phase.InSession? && InStep(s, o)
    ensures OutcomeInStep(RouterPeerTerminates(s, msg), o)
  {
    hide ExtractStatus;
    var a := RouterPeerTerminates(s, msg).1;
    FoldFive(Observe, o, a[0], a[1], a[2], a[3], a[4]);
    assert a == [a[0], a[1], a[2], a[3], a[4]];
  }

  lemma UpdateInStep(s: Router, mac: MacAddress, msg: Message, o: Observer)
    requires s.phase.InSession? && mac in s.destinations && InStep(s, o)
    ensures OutcomeInStep(RouterUpdate(s, mac, msg), o)
  {
    hide ApplyLenient, OwnedChanges, Merge, Between, ResetAction, HasMetrics, Watch;
    var d := s.destinations[mac];
    var addrs := ApplyLenient(OwnedChanges(s, mac, msg), d.addrs);
    var changes := Between(d.addrs, addrs);
    var x := Emit(DestinationUpdateEvent(mac, Merge(msg.items, d.metrics)));
    var y := Emit(DestinationAddressesUpdate(mac, changes, addrs));
    var a := if HasMetrics(msg.items) then [x] else [];
    var b := if changes != NO_CHANGES then [y] else [];
    WatchIf(o, HasMetrics(msg.items), x);
    WatchIf(o, changes != NO_CHANGES, y);
    WatchConcat(o, a, b);
    WatchThenReset(o, a + b, s.peerHeartbeat);
  }

  lemma SessionUpdateInStep(s: Router, msg: Message, o: Observer)
    requires s.phase.InSession? && ApplyStrict(FromItems(msg.items), s.peerAddresses).Some? && InStep(s, o)
    ensures OutcomeInStep(RouterSessionUpdate(s, msg), o)
  {
    hide ApplyStrict, FromItems, Merge, ResetAction, HasMetrics, Watch;
    var changes := FromItems(msg.items);
    var addrs := ApplyStrict(changes, s.peerAddresses).value;
    var x := Emit(SessionAddressesUpdate(changes, addrs));
    var y := Emit(SessionMetricsUpdate(Merge(msg.items, s.sessionMetrics)));
    var a := [SendMessage(BuildSessionUpdateResponse(SUCCESS))];
    var b := if changes != NO_CHANGES then [x] else [];
    var c := if HasMetrics(msg.items) then [y] else [];
    WatchOne(o, a[0]);
    WatchIf(o, changes != NO_CHANGES, x);
    WatchIf(o, HasMetrics(msg.items), y);
    WatchConcat(o, a, b);
    WatchConcat(o, a + b, c);
    WatchThenReset(o, a + b + c, s.peerHeartbeat);
    assert RouterSessionUpdate(s, msg).0.destinations.Keys == s.destinations.Keys;
  }

  lemma AcceptInStep(s: Router, msg: Message, o: Observer)
    requires RouterInv(s) && s.phase.InSession? && RouterCheck(s, msg).None? && InStep(s, o)
    ensures OutcomeInStep(RouterAccept(s, msg), o)
  {
    hide RouterOwnership, RouterUp, RouterDown, RouterDownResponse, RouterAnnounceResponse, RouterLinkResponse,
      RouterSessionUpdate, RouterUpdate, ResetAction, RouterPeerTerminates, Watch, ExtractStatus;
    AcceptedMessage(s, msg);
    hide RouterCheck;
    var mt := msg.messageType;
    if mt == SESSION_UPDATE { SessionUpdateInStep(s, msg, o); }
    else if mt == SESSION_UPDATE_RESPONSE || mt == HEARTBEAT { WatchReset(o, s.peerHeartbeat); }
    else if mt == SESSION_TERMINATION { PeerTerminatesInStep(s, msg, o); }
    else {
      var mac := ExtractMac(msg.items).value;
      if mt == DESTINATION_UP { UpInStep(s, mac, msg, o); }
      else if mt == DESTINATION_UPDATE { UpdateInStep(s, mac, msg, o); }
      else if mt == DESTINATION_DOWN { DownInStep(s, mac, msg, o); }
      else if mt == DESTINATION_DOWN_RESPONSE {
        assert ExtractStatus(msg.items).Some? by { StatusOf(msg.items); }
        DownResponseInStep(s, mac, msg, o);
      }
      else if mt == DESTINATION_ANNOUNCE_RESPONSE { AnnounceResponseInStep(s, mac, msg, o); }
      else { LinkResponseInStep(s, mac, msg, o); }
    }
  }

  lemma StatusOf(items: seq<DataItem>)
    requires ExtractStatusItem(items).Some?
    ensures ExtractStatus(items).Some?
  {
  }

  lemma EstablishInStep(s: Router, msg: Message, o: Observer)
    requires RouterInv(s) && s.phase.Initializing? && InStep(s, o)
    ensures OutcomeInStep(RouterEstablish(s, msg), o)
  {
    hide FromItems, Merge, ResetAction, MetricTypes, ExtractHeartbeat, ExtractExtensions, RouterOwnership, Watch;
    var t := RouterEstablish(s, msg).0;
    var x := CancelTimer(TIMER_SESSION_INIT);
    var y := StartTimer(TIMER_HEARTBEAT, HeartbeatTimer, LocalHeartbeat(s.config), true);
    var u, v := Emit(SessionUp(t.peerExtensions)), Emit(SessionMetricsUpdate(t.sessionMetrics));
    var w := Emit(SessionAddressesUpdate(AddressChanges(t.peerAddresses, NO_ADDRS), t.peerAddresses));
    var r := ResetAction(t.peerHeartbeat);
    var c := if t.peerAddresses != NO_ADDRS then [w] else [];
    WatchTwo(o, x, y);
    WatchThenReset(o, [x, y], t.peerHeartbeat);
    WatchConcat(o, [x, y] + r, [u, v]);
    WatchTwo(o, u, v);
    var p := o.(session := Open);
    assert Watch(o, [x, y] + r + [u, v]) == p;
    WatchConcat(o, [x, y] + r + [u, v], c);
    WatchIf(p, t.peerAddresses != NO_ADDRS, w);
    assert RouterEstablish(s, msg).1 == [x, y] + r + [u, v] + c;
  }

  lemma FailInStep(s: Router, status: DataItem, o: Observer)
    requires status.Status? && InStep(s, o)
    ensures OutcomeInStep(RouterFail(s, status), o)
  {
    if Rank(s.phase) < 3 {
      var a := RouterFail(s, status).1;
      FoldFive(Observe, o, a[0], a[1], a[2], a[3], a[4]);
      assert a == [a[0], a[1], a[2], a[3], a[4]];
    }
  }

  lemma CloseInStep(s: Router, reason: u8, cancels: seq<Action>, o: Observer)
    requires InStep(s, o) && !s.phase.Terminated? && !o.session.Closed?
    requires cancels == [] || exists id :: cancels == [CancelTimer(id)]
    ensures OutcomeInStep(RouterSpec.Close(s, reason, cancels), o)
  {
    hide Watch;
    WatchConcat(o, cancels, [CloseTcp, Emit(SessionDown(reason))]);
    WatchTwo(o, CloseTcp, Emit(SessionDown(reason)));
    if cancels == [] { assert Watch(o, []) == o by { WatchEmpty(o); } } else { WatchOne(o, cancels[0]); }
  }

  lemma WatchEmpty(o: Observer)
    ensures Watch(o, []) == o
  {
  }

  lemma ReceiveInStep(s: Router, msg: Message, o: Observer)
    requires RouterInv(s) && InStep(s, o)
    ensures OutcomeInStep(RouterReceive(s, msg), o)
  {
    hide RouterAccept, RouterEstablish, RouterCheck, RouterOwnership, RouterFail, RouterSpec.Close, Watch, FatalStatus,
         ExtractStatus, InitFailedText;
    WatchEmpty(o);
    if RouterVerdict(s, msg).Some? { FailInStep(s, RouterVerdict(s, msg).value, o); }
    else if s.phase.Initializing? {
      EstablishInStep(s, msg, o);
      FailInStep(s, Status(UNEXPECTED_MESSAGE, InitFailedText()), o);
      CloseInStep(s, INVALID_DATA, [CancelTimer(TIMER_SESSION_INIT)], o);
    }
    else if s.phase.InSession? { AcceptInStep(s, msg, o); }
    else if s.phase.Terminating? { CloseInStep(s, s.terminationReason, [CancelTimer(TIMER_TERMINATION)], o); }
  }

  lemma CommandInStep(s: Router, e: Event, o: Observer)
    requires Command(e).Some? && InStep(s, o)
    ensures RouterCommandError(s, e).Some? ==> Watch(o, Reject(e, RouterCommandError(s, e).value)) == o
    ensures RouterCommandError(s, e).None? ==> OutcomeInStep(RouterCommand(s, e), o)
  {
    hide ApplyLenient, LocalChange, LocalUpdateOk, BuildAddressUpdate, Watch;
    WatchEmpty(o);
    if RouterCommandError(s, e).Some? { WatchOne(o, Reject(e, RouterCommandError(s, e).value)[0]); }
    else if |RouterCommand(s, e).1| > 0 {
      var a := RouterCommand(s, e).1;
      assert a == [a[0]];
      WatchOne(o, a[0]);
    }
  }

  lemma SessionInStep(s: Router, e: Event, o: Observer)
    requires InStep(s, o) && s.phase.InSession?
    ensures OutcomeInStep(RouterLocal(s, e), o)
  {
    hide ResetAction, RouterTerminate, Watch;
    WatchEmpty(o);
    WatchReset(o, s.peerHeartbeat);
    TerminateInStep(s, TIMED_OUT, [CancelTimer(TIMER_HEARTBEAT)], o);
    if e.AppShutdown? {
      TerminateInStep(s, e.reason, [CancelTimer(TIMER_HEARTBEAT), CancelTimer(TIMER_HEARTBEAT_MISSED)], o);
    }
    WatchOne(o, SendMessage(BuildHeartbeat()));
    DroppedInStep(s, o);
  }

  lemma DroppedInStep(s: Router, o: Observer)
    requires InStep(s, o) && s.phase.InSession?
    ensures OutcomeInStep(RouterLocal(s, TcpClosed), o)
  {
    FoldThree(Observe, o, CancelTimer(TIMER_HEARTBEAT), CancelTimer(TIMER_HEARTBEAT_MISSED),
              Emit(SessionDown(TIMED_OUT)));
  }

  lemma LocalInStep(s: Router, e: Event, o: Observer)
    requires InStep(s, o)
    ensures OutcomeInStep(RouterLocal(s, e), o)
  {
    hide RouterSpec.Close, RouterTerminate, Watch;
    WatchEmpty(o);
    if s.phase.InSession? { SessionInStep(s, e, o); }
    else if s.phase.Unconnected? {
      WatchTwo(o, SendMessage(BuildInitialization(s.config)),
               StartTimer(TIMER_SESSION_INIT, SessionInitTimer, s.config.initTimeout, false));
    }
    else if s.phase.Initializing? {
      CloseInStep(s, TIMED_OUT, [], o);
      WatchOne(o, Emit(SessionDown(TIMED_OUT)));
      if e.AppShutdown? { CloseInStep(s, e.reason, [CancelTimer(TIMER_SESSION_INIT)], o); }
    }
    else if s.phase.Terminating? {
      CloseInStep(s, TIMED_OUT, [], o);
      WatchTwo(o, CancelTimer(TIMER_TERMINATION), Emit(SessionDown(s.terminationReason)));
    }
  }

  lemma TerminateInStep(s: Router, reason: u8, cancels: seq<Action>, o: Observer)
    requires InStep(s, o) && s.phase.InSession?
    requires cancels == [CancelTimer(TIMER_HEARTBEAT)]
             || cancels == [CancelTimer(TIMER_HEARTBEAT), CancelTimer(TIMER_HEARTBEAT_MISSED)]
    ensures OutcomeInStep(RouterTerminate(s, reason, cancels), o)
  {
    hide Watch;
    WatchConcat(o, cancels, [SendMessage(BuildTermination(reason)), StartTermination(s.config)]);
    WatchTwo(o, SendMessage(BuildTermination(reason)), StartTermination(s.config));
    WatchOne(o, CancelTimer(TIMER_HEARTBEAT));
    WatchTwo(o, CancelTimer(TIMER_HEARTBEAT), CancelTimer(TIMER_HEARTBEAT_MISSED));
  }

  lemma StepInStep(s: Router, e: Event, o: Observer)
    requires RouterInv(s) && InStep(s, o)
    ensures OutcomeInStep(RouterStep(s, e), o)
  {
    hide RouterReceive, RouterCommand, RouterLocal, RouterCommandError, RouterInv, RouterFail, Reject, Watch;
    if Command(e).Some? { CommandInStep(s, e, o); }
    else if e.RecvMessage? { ReceiveInStep(s, e.msg, o); }
    else if e.ProtocolError? { FailInStep(s, Status(e.code, []), o); }
    else { LocalInStep(s, e, o); }
  }

  /** Over every run with any peer, each MAC's events alternate up and down with
      updates only in between, all of them between one SessionUp and one
      SessionDown, and a MAC is stored exactly when its last bracket is open. */
  lemma {:induction false} RouterTraces(config: SessionConfig, events: seq<Event>)
    ensures var (t, actions) := RunFromNew(config, events); InStep(t, Watch(Observer(NotYet, {}), actions))
  {
    NewRouterOk(config);
    var s := NewRouter(config);
    var start := Observer(NotYet, {});
    if |events| > 0 {
      var front, e := events[..|events| - 1], events[|events| - 1];
      RouterTraces(config, front);
      var (t, before) := RouterRun(s, front);
      StepInStep(t, e, Watch(start, before));
      WatchConcat(start, before, RouterStep(t, e).1);
    }
  }

  // --- Timers ---------------------------------------------------------------

  ghost predicate Timed(s: Router, armed: Armed) {
    TimersFor(s.phase, s.config, s.peerHeartbeat, armed)
  }

  ghost predicate OutcomeTimed(r: Outcome, armed: Armed) { Timed(r.0, ArmAll(armed, r.1)) }

  /** Every accepted message in session, a termination apart, ends by re-arming
      the missed-heartbeat deadline to twice the peer's interval, and leaves the
      session established. */
  lemma AcceptedMessageRearms(s: Router, msg: Message)
    requires RouterInv(s) && s.phase.InSession? && RouterCheck(s, msg).None? && msg.messageType != SESSION_TERMINATION
    ensures var (t, actions) := RouterAccept(s, msg);
            && t.phase.InSession? && t.peerHeartbeat == s.peerHeartbeat && s.peerHeartbeat.Some?
            && |actions| > 0
            && actions == actions[..|actions| - 1] + ResetAction(s.peerHeartbeat)
            && NoTimers(actions[..|actions| - 1])
            && actions[|actions| - 1] == ResetHeartbeat(TIMER_HEARTBEAT_MISSED, 2 * s.peerHeartbeat.value)
  {
    hide RouterOwnership, ApplyLenient, OwnedChanges, Merge, Between, HasMetrics, NewDestination, ExtractStatus;
    AcceptedMessage(s, msg);
    hide RouterCheck;
  }

  lemma AcceptTimed(s: Router, msg: Message, armed: Armed)
    requires RouterInv(s) && s.phase.InSession? && RouterCheck(s, msg).None? && Timed(s, armed)
    ensures OutcomeTimed(RouterAccept(s, msg), armed)
  {
    hide RouterOwnership, RouterCheck, ArmAll;
    if msg.messageType != SESSION_TERMINATION {
      AcceptedMessageRearms(s, msg);
      var (t, actions) := RouterAccept(s, msg);
      hide RouterAccept;
      AcceptKept(s, msg);
      ArmThenReset(armed, actions[..|actions| - 1], s.config, s.peerHeartbeat);
    } else {
      EndTimed(s, msg, armed);
    }
  }

  lemma EndTimed(s: Router, msg: Message, armed: Armed)
    requires s.phase.InSession? && Timed(s, armed)
    ensures OutcomeTimed(RouterPeerTerminates(s, msg), armed)
  {
    hide ArmAll, ExtractStatus;
    var actions := RouterPeerTerminates(s, msg).1;
    assert actions == [CancelTimer(TIMER_HEARTBEAT), CancelTimer(TIMER_HEARTBEAT_MISSED)] + actions[2..];
    ArmCancelTwo(armed, TIMER_HEARTBEAT, TIMER_HEARTBEAT_MISSED, actions[2..]);
  }

  /** The two timers of a new session, from the one that was running. */
  lemma ArmEstablished(armed: Armed, config: SessionConfig, d: Duration, tail: seq<Action>)
    requires armed == map[TIMER_SESSION_INIT := config.initTimeout] && NoTimers(tail)
    ensures ArmAll(armed, [CancelTimer(TIMER_SESSION_INIT),
                           StartTimer(TIMER_HEARTBEAT, HeartbeatTimer, LocalHeartbeat(config), true)]
                          + [ResetHeartbeat(TIMER_HEARTBEAT_MISSED, d)] + tail)
         == map[TIMER_HEARTBEAT := LocalHeartbeat(config), TIMER_HEARTBEAT_MISSED := d]
  {
    var x := CancelTimer(TIMER_SESSION_INIT);
    var y := StartTimer(TIMER_HEARTBEAT, HeartbeatTimer, LocalHeartbeat(config), true);
    var r := [ResetHeartbeat(TIMER_HEARTBEAT_MISSED, d)];
    FoldConcat(Arm, armed, [x, y] + r, tail);
    FoldConcat(Arm, armed, [x, y], r);
    FoldTwo(Arm, armed, x, y);
    FoldOne(Arm, Fold(Arm, armed, [x, y]), r[0]);
    ArmNothing(ArmAll(armed, [x, y] + r), tail);
    assert armed - {TIMER_SESSION_INIT} == map[];
  }

  lemma EstablishTimed(s: Router, msg: Message, armed: Armed)
    requires s.phase.Initializing? && RouterCheck(s, msg).None? && Timed(s, armed)
    ensures OutcomeTimed(RouterEstablish(s, msg), armed)
  {
    HeartbeatRequired(s, msg);
    hide RouterCheck, FromItems, Merge, MetricTypes, ExtractHeartbeat, ExtractExtensions, ArmAll;
    var (t, actions) := RouterEstablish(s, msg);
    var tail := actions[3..];
    assert actions == [CancelTimer(TIMER_SESSION_INIT),
                       StartTimer(TIMER_HEARTBEAT, HeartbeatTimer, LocalHeartbeat(s.config), true)]
                      + ResetAction(t.peerHeartbeat) + tail;
    ArmEstablished(armed, s.config, MissedDeadline(t.peerHeartbeat).value, tail);
  }

  lemma FailTimed(s: Router, status: DataItem, armed: Armed)
    requires status.Status? && Timed(s, armed)
    ensures OutcomeTimed(RouterFail(s, status), armed)
  {
    hide ArmAll;
    if Rank(s.phase) < 3 {
      ArmFailure(armed, s.phase, s.config, s.peerHeartbeat, Message(SESSION_TERMINATION, [status]));
    } else {
      ArmNothing(armed, []);
    }
  }

  lemma CloseTimed(s: Router, reason: u8, id: u32, armed: Armed)
    requires Timed(s, armed)
    requires (s.phase.Initializing? && id == TIMER_SESSION_INIT) || (s.phase.Terminating? && id == TIMER_TERMINATION)
    ensures OutcomeTimed(RouterSpec.Close(s, reason, [CancelTimer(id)]), armed)
  {
    hide ArmAll;
    ArmCancelOne(armed, id, [CloseTcp, Emit(SessionDown(reason))]);
  }

  lemma HandshakeTimed(s: Router, msg: Message, armed: Armed)
    requires s.phase.Initializing? && RouterCheck(s, msg).None? && Timed(s, armed)
    ensures OutcomeTimed(RouterHandshake(s, msg), armed)
  {
    hide RouterEstablish, RouterCheck, RouterFail, RouterSpec.Close, ExtractStatus, Timed, ArmAll;
    CloseTimed(s, INVALID_DATA, TIMER_SESSION_INIT, armed);
    FailTimed(s, Status(UNEXPECTED_MESSAGE, InitFailedText()), armed);
    EstablishTimed(s, msg, armed);
  }

  lemma ReceiveTimed(s: Router, msg: Message, armed: Armed)
    requires RouterInv(s) && Timed(s, armed)
    ensures OutcomeTimed(RouterReceive(s, msg), armed)
  {
    hide RouterAccept, RouterHandshake, RouterCheck, RouterOwnership, RouterFail, ArmAll, RouterSpec.Close, Timed;
    ArmNothing(armed, []);
    if RouterVerdict(s, msg).Some? { FailTimed(s, RouterVerdict(s, msg).value, armed); }
    else if s.phase.Initializing? { HandshakeTimed(s, msg, armed); }
    else if s.phase.InSession? { AcceptTimed(s, msg, armed); }
    else if s.phase.Terminating? { CloseTimed(s, s.terminationReason, TIMER_TERMINATION, armed); }
  }

  lemma CommandTimed(s: Router, e: Event, armed: Armed)
    requires Command(e).Some? && Timed(s, armed)
    ensures RouterCommandError(s, e).Some? ==> ArmAll(armed, Reject(e, RouterCommandError(s, e).value)) == armed
    ensures RouterCommandError(s, e).None? ==> OutcomeTimed(RouterCommand(s, e), armed)
  {
    hide ApplyLenient, LocalChange, LocalUpdateOk, BuildAddressUpdate, ArmAll;
    if RouterCommandError(s, e).Some? { ArmNothing(armed, Reject(e, RouterCommandError(s, e).value)); }
    else { ArmNothing(armed, RouterCommand(s, e).1); }
  }

  /** The one end that leaves a timer behind: the transport closes while the
      router waits for the handshake. */
  predicate Abandons(s: Router, e: Event) { s.phase.Initializing? && e.TcpClosed? }

  lemma LocalTimed(s: Router, e: Event, armed: Armed)
    requires Timed(s, armed) && Plausible(armed, e) && !Abandons(s, e)
    ensures OutcomeTimed(RouterLocal(s, e), AfterExpiry(armed, e))
  {
    hide RouterTerminate, ArmAll;
    var left := AfterExpiry(armed, e);
    var a := RouterLocal(s, e).1;
    if s.phase.Unconnected? && e.TcpConnected? {
      assert OutcomeTimed(RouterLocal(s, e), left) by { ConnectTimed(s); }
    } else if s.phase.InSession? {
      SessionTimed(s, e, armed);
    } else if s.phase.Terminating? && e.TcpClosed? {
      assert a == [CancelTimer(TIMER_TERMINATION)] + a[1..];
      ArmCancelOne(armed, TIMER_TERMINATION, a[1..]);
    } else if s.phase.Initializing? && e.AppShutdown? {
      ArmCancelOne(armed, TIMER_SESSION_INIT, a[1..]);
    } else {
      ArmNothing(left, a);
    }
  }

  lemma ConnectTimed(s: Router)
    requires s.phase.Unconnected?
    ensures OutcomeTimed(RouterLocal(s, TcpConnected), map[])
  {
    var none: Armed := map[];
    FoldTwo(Arm, none, SendMessage(BuildInitialization(s.config)),
            StartTimer(TIMER_SESSION_INIT, SessionInitTimer, s.config.initTimeout, false));
  }

  lemma SessionTimed(s: Router, e: Event, armed: Armed)
    requires s.phase.InSession? && Timed(s, armed) && Plausible(armed, e)
    ensures OutcomeTimed(RouterLocal(s, e), AfterExpiry(armed, e))
  {
    hide ArmAll;
    var left := AfterExpiry(armed, e);
    if e.RecvExtensionMessage? {
      ArmThenReset(armed, [], s.config, s.peerHeartbeat);
      assert [] + ResetAction(s.peerHeartbeat) == ResetAction(s.peerHeartbeat);
    } else if e.TimerExpired? && e.kind.HeartbeatMissedTimer? {
      ArmTermination(left, [CancelTimer(TIMER_HEARTBEAT)], BuildTermination(TIMED_OUT), s.config);
    } else if e.AppShutdown? {
      ArmTermination(armed, [CancelTimer(TIMER_HEARTBEAT), CancelTimer(TIMER_HEARTBEAT_MISSED)],
                     BuildTermination(e.reason), s.config);
    } else if e.TcpClosed? {
      var actions := RouterLocal(s, e).1;
      assert actions == [CancelTimer(TIMER_HEARTBEAT), CancelTimer(TIMER_HEARTBEAT_MISSED)] + actions[2..];
      ArmCancelTwo(armed, TIMER_HEARTBEAT, TIMER_HEARTBEAT_MISSED, actions[2..]);
    } else {
      ArmNothing(left, RouterLocal(s, e).1);
    }
  }

  lemma StepTimed(s: Router, e: Event, armed: Armed)
    requires RouterInv(s) && Timed(s, armed) && Plausible(armed, e) && !Abandons(s, e)
    ensures OutcomeTimed(RouterStep(s, e), AfterExpiry(armed, e))
  {
    hide RouterReceive, RouterCommand, RouterLocal, RouterCommandError, RouterInv, RouterFail, Reject, ArmAll, Timed;
    if Command(e).Some? { CommandTimed(s, e, armed); }
    else if e.RecvMessage? { ReceiveTimed(s, e.msg, armed); }
    else if e.ProtocolError? { FailTimed(s, Status(e.code, []), armed); }
    else { LocalTimed(s, e, armed); }
  }

  /** Runs in which a timer only expires when it is armed. */
  ghost function TimersOf(config: SessionConfig, events: seq<Event>): Armed {
    if |events| == 0 then map[] else
      var front, e := events[..|events| - 1], events[|events| - 1];
      ArmAll(AfterExpiry(TimersOf(config, front), e), RouterStep(RunFromNew(config, front).0, e).1)
  }

  ghost predicate Genuine(config: SessionConfig, events: seq<Event>) {
    |events| == 0
    || (Genuine(config, events[..|events| - 1])
        && Plausible(TimersOf(config, events[..|events| - 1]), events[|events| - 1]))
  }

  /** The handshake was abandoned and its timer has not expired since. */
  ghost predicate Abandoned(config: SessionConfig, events: seq<Event>) {
    |events| > 0 &&
    var front, e := events[..|events| - 1], events[|events| - 1];
    Abandons(RunFromNew(config, front).0, e) || (Abandoned(config, front) && !e.TimerExpired?)
  }

  ghost predicate LeftArmed(s: Router, armed: Armed) {
    s.phase.Terminated? && armed == map[TIMER_SESSION_INIT := s.config.initTimeout]
  }

  lemma AbandonTimed(s: Router, armed: Armed)
    requires RouterInv(s) && s.phase.Initializing? && Timed(s, armed)
    ensures var (t, actions) := RouterStep(s, TcpClosed); LeftArmed(t, ArmAll(armed, actions))
  {
    ArmNothing(armed, RouterStep(s, TcpClosed).1);
  }

  lemma NothingAfterEnd(s: Router, e: Event)
    requires RouterInv(s) && s.phase.Terminated?
    ensures RouterStep(s, e).0 == s && NoTimers(RouterStep(s, e).1)
  {
    hide RouterOwnership, RouterLive, RouterCheck, RouterAccept, RouterHandshake, RouterCommand, FatalStatus;
  }

  lemma LeftTimed(s: Router, e: Event, armed: Armed)
    requires RouterInv(s) && LeftArmed(s, armed) && Plausible(armed, e)
    ensures var (t, actions) := RouterStep(s, e);
            var left := ArmAll(AfterExpiry(armed, e), actions);
            if e.TimerExpired? then Timed(t, left) else LeftArmed(t, left)
  {
    NothingAfterEnd(s, e);
    hide ArmAll, RouterInv, RouterSlots, RouterStep;
    ArmNothing(AfterExpiry(armed, e), RouterStep(s, e).1);
  }

  /** Along every such run a state has exactly the timers it needs; only an
      abandoned handshake leaves its own behind. */
  lemma {:induction false} RouterTimers(config: SessionConfig, events: seq<Event>)
    requires Genuine(config, events)
    ensures var s, armed := RunFromNew(config, events).0, TimersOf(config, events);
            if Abandoned(config, events) then LeftArmed(s, armed) else Timed(s, armed)
  {
    assert Timed(NewRouter(config), map[]);
    hide Timed, LeftArmed, RouterInv, RouterStep, RouterSlots;
    if |events| > 0 {
      var front, e := events[..|events| - 1], events[|events| - 1];
      RouterTimers(config, front);
      var s, armed := RunFromNew(config, front).0, TimersOf(config, front);
      if Abandoned(config, front) { LeftTimed(s, e, armed); LeftTerminated(s, armed); }
      else if Abandons(s, e) { AbandonTimed(s, armed); }
      else { StepTimed(s, e, armed); }
    }
  }

  lemma LeftTerminated(s: Router, armed: Armed)
    requires LeftArmed(s, armed)
    ensures s.phase.Terminated?
  {
  }

  /** The timers a live state needs include one whose expiry ends it. */
  lemma DeadlineArmed(s: Router, armed: Armed)
    requires RouterInv(s) && Timed(s, armed) && 1 <= Rank(s.phase) <= 3
    ensures exists id :: id in armed && Plausible(armed, TimerExpired(id, KindOf(id)))
                         && Rank(RouterStep(s, TimerExpired(id, KindOf(id))).0.phase) > Rank(s.phase)
  {
    hide RouterOwnership;
    var id := if s.phase.Initializing? then TIMER_SESSION_INIT
              else if s.phase.InSession? then TIMER_HEARTBEAT_MISSED else TIMER_TERMINATION;
    assert id in armed;
    var e := TimerExpired(id, KindOf(id));
    assert Plausible(armed, e);
    assert RouterStep(s, e) == RouterLocal(s, e);
  }

  /** So whatever run led to a state that is neither new nor final, a timer is armed
      whose expiry takes it further. */
  lemma RouterDeadline(config: SessionConfig, events: seq<Event>)
    requires Genuine(config, events) && 1 <= Rank(RunFromNew(config, events).0.phase) <= 3
    ensures var s, armed := RunFromNew(config, events).0, TimersOf(config, events);
            exists id :: id in armed && Plausible(armed, TimerExpired(id, KindOf(id)))
                         && Rank(RouterStep(s, TimerExpired(id, KindOf(id))).0.phase) > Rank(s.phase)
  {
    RouterTimers(config, events);
    hide RouterInv, RouterStep, RouterSlots, Timed, Genuine, TimersOf, Plausible;
    DeadlineArmed(RunFromNew(config, events).0, TimersOf(config, events));
  }
}
