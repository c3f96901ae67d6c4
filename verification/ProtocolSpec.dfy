/** One router and one modem joined by two first-in first-out queues of messages,
    under arbitrary application commands, timers and transport losses, and the
    invariant that makes the two sides agree.

    A message that cannot be encoded ends its sender's session, as in the runtime
    (crates/dlep-daemon/src/session.rs:365-383, 593-617).
 */
module ProtocolSpec {
  import opened Types
  import opened Addresses
  import opened Messages
  import opened Transactions
  import opened Validation
  import opened Conformance
  import opened Session
  import opened RouterSpec
  import opened ModemSpec

  datatype System = System(router: Router, modem: Modem, toModem: seq<Message>, toRouter: seq<Message>)

  datatype Move =
    | DeliverToRouter
    | DeliverToModem
    | AtRouter(event: Event)
    | AtModem(event: Event)

  /** Commands, timers, transport and shutdown; messages only arrive by delivery,
      and a conforming peer causes no codec error. */
  predicate IsLocal(e: Event) { !e.RecvMessage? && !e.ProtocolError? }

  predicate AllEncodable(out: seq<Message>) {
    forall i :: 0 <= i < |out| ==> MessageEncodable(out[i])
  }

  ghost predicate SlotsOk(sys: System) { RouterSlots(sys.router) && ModemSlots(sys.modem) }

  ghost function StepRouter(sys: System, e: Event): System
    requires RouterSlots(sys.router)
  {
    var (r, actions) := RouterStep(sys.router, e);
    var out := Sent(actions);
    if AllEncodable(out) then sys.(router := r, toModem := sys.toModem + out)
    else sys.(router := r.(phase := Terminated))
  }

  ghost function StepModem(sys: System, e: Event): System
    requires ModemSlots(sys.modem)
  {
    var (m, actions) := ModemStep(sys.modem, e);
    var out := Sent(actions);
    if AllEncodable(out) then sys.(modem := m, toRouter := sys.toRouter + out)
    else sys.(modem := m.(phase := Terminated))
  }

  ghost function Next(sys: System, move: Move): System
    requires SlotsOk(sys)
  {
    match move
    case DeliverToRouter =>
      if sys.toRouter == [] then sys
      else StepRouter(sys.(toRouter := sys.toRouter[1..]), RecvMessage(sys.toRouter[0]))
    case DeliverToModem =>
      if sys.toModem == [] then sys
      else StepModem(sys.(toModem := sys.toModem[1..]), RecvMessage(sys.toModem[0]))
    case AtRouter(e) => if IsLocal(e) then StepRouter(sys, e) else sys
    case AtModem(e) => if IsLocal(e) then StepModem(sys, e) else sys
  }

  /** The connection has just been made: the router's initialization is in flight. */
  function Start(router: SessionConfig, modem: SessionConfig): System {
    System(NewRouter(router).(phase := Initializing), NewModem(modem).(phase := Initializing),
           [BuildInitialization(router)], [])
  }

  // --- Transaction lanes ----------------------------------------------------

  datatype Tag = Request(kind: RequestKind) | Response(kind: RequestKind)

  /** The part a message plays in the transaction of a scope, if any. */
  function TagOf(msg: Message, scope: Scope): seq<Tag> {
    var mt := msg.messageType;
    match scope
    case SessionScope =>
      if mt == SESSION_UPDATE then [Request(SessionUpdate)]
      else if mt == SESSION_UPDATE_RESPONSE then [Response(SessionUpdate)]
      else []
    case DestinationScope(mac) =>
      if ExtractMac(msg.items) != Some(mac) then []
      else if DestinationRequestKind(mt).Some? then [Request(DestinationRequestKind(mt).value)]
      else if ResponseKind(mt).Some? then [Response(ResponseKind(mt).value)]
      else []
  }

  /** The transaction messages of one scope, oldest first. */
  function Lane(q: seq<Message>, scope: Scope): seq<Tag> {
    if |q| == 0 then [] else Lane(q[..|q| - 1], scope) + TagOf(q[|q| - 1], scope)
  }

  predicate HasResponse(lane: seq<Tag>) { |lane| > 0 && lane[0].Response? }
  predicate HasRequest(lane: seq<Tag>) { |lane| > 0 && lane[|lane| - 1].Request? }

  /** What waits for a side with this open slot: at most the answer it awaits,
      then at most one request of its peer. */
  predicate InboxOk(lane: seq<Tag>, slot: Option<RequestKind>) {
    && |lane| <= 2
    && (|lane| == 2 ==> lane[0].Response? && lane[1].Request?)
    && (HasResponse(lane) ==> slot == Some(lane[0].kind))
  }

  function One(b: bool): nat { if b then 1 else 0 }

  /** Conservation: an open slot is matched by exactly one of its request in
      flight, its response in flight, or a deferred answer; a free slot by none. */
  ghost predicate Conserved(toModem: seq<Tag>, toRouter: seq<Tag>, router: Option<RequestKind>,
                            modem: Option<RequestKind>, deferred: bool) {
    && One(router.Some?) == One(HasRequest(toModem)) + One(HasResponse(toRouter)) + One(deferred)
    && One(modem.Some?) == One(HasRequest(toRouter)) + One(HasResponse(toModem))
    && (HasRequest(toModem) ==> router == Some(toModem[|toModem| - 1].kind))
    && (HasRequest(toRouter) ==> modem == Some(toRouter[|toRouter| - 1].kind))
    && (deferred ==> router == Some(LinkCharacteristicsKind))
    && (HasResponse(toModem) ==> !HasResponse(toRouter) && !deferred)
  }

  predicate Deferred(m: Modem, scope: Scope) {
    scope.DestinationScope? && scope.mac in m.pendingLinks
  }

  /** A router request in flight suits the modem as it will then be, unless the
      modem has a request of its own open: a genuine crossing. */
  ghost predicate Fits(m: Modem, mac: MacAddress, lane: seq<Tag>) {
    var slot := Slot(m.tx, DestinationScope(mac));
    && (|lane| == 1 && lane[0].Request? && slot.None? ==>
          if lane[0].kind == DestinationAnnounce then !ModemSpec.Known(m, Some(mac))
          else ModemSpec.Known(m, Some(mac)) && mac !in m.pendingLinks)
    && (|lane| == 2 ==> (lane[1].kind == DestinationAnnounce <==> lane[0].kind == DestinationDown))
  }

  // --- The router as it will be once its queue is drained -------------------

  /** What the router holds for one destination, or `Broken` if a message in the
      queue did not suit it. */
  datatype Mirror = Mirror(session: LinkMetrics, dest: Option<LinkMetrics>) | Broken

  function MirrorOf(r: Router, mac: MacAddress): Mirror {
    Mirror(r.sessionMetrics, if mac in r.destinations then Some(r.destinations[mac].metrics) else None)
  }

  function Reflect(f: Mirror, msg: Message, mac: MacAddress): Mirror {
    var mt := msg.messageType;
    if f.Broken? then f
    else if mt == SESSION_INITIALIZATION_RESPONSE || mt == SESSION_UPDATE then
      Mirror(Merge(msg.items, f.session),
             if f.dest.Some? then Some(Merge(msg.items, f.dest.value)) else None)
    else if ExtractMac(msg.items) != Some(mac) then f
    else if mt == DESTINATION_UP then
      if f.dest.Some? then Broken else f.(dest := Some(Merge(msg.items, f.session)))
    else if mt == DESTINATION_ANNOUNCE_RESPONSE then
      if f.dest.Some? then Broken
      else if ExtractStatus(msg.items) == Some(SUCCESS) then f.(dest := Some(Merge(msg.items, f.session)))
      else f
    else if mt == DESTINATION_UPDATE || mt == LINK_CHARACTERISTICS_RESPONSE then
      if f.dest.None? then Broken else f.(dest := Some(Merge(msg.items, f.dest.value)))
    else if mt == DESTINATION_DOWN || mt == DESTINATION_DOWN_RESPONSE then
      if f.dest.None? then Broken else f.(dest := None)
    else f
  }

  function ReflectAll(f: Mirror, q: seq<Message>, mac: MacAddress): Mirror {
    if |q| == 0 then f else Reflect(ReflectAll(f, q[..|q| - 1], mac), q[|q| - 1], mac)
  }

  /** The modem counts on the router holding this destination: it is announced,
      or being announced, and not being taken down. */
  predicate Expects(m: Modem, mac: MacAddress) {
    mac in m.destinations &&
    (if m.destinations[mac].announced then mac !in m.tx.perDestination else mac in m.tx.perDestination)
  }

  ghost predicate Matches(f: Mirror, m: Modem, mac: MacAddress) {
    && f.Mirror?
    && f.session == m.sessionMetrics
    && f.dest.Some? == Expects(m, mac)
    && (f.dest.Some? ==> SameSupport(f.dest.value, m.config.initialMetrics))
    && (f.dest.Some? && !m.destinations[mac].pendingMetrics ==> f.dest.value == m.destinations[mac].metrics)
  }

  // --- Session addresses ----------------------------------------------------

  /** A side's record of its peer's addresses once its queue is drained, or None
      if an update in the queue would be rejected. */
  function Readdress(peer: Option<DestinationAddrs>, q: seq<Message>): Option<DestinationAddrs> {
    if |q| == 0 || peer.None? then peer else
      var before := Readdress(peer, q[..|q| - 1]);
      if before.Some? && q[|q| - 1].messageType == SESSION_UPDATE then
        ApplyStrict(FromItems(q[|q| - 1].items), before.value)
      else before
  }

  // --- Progress -------------------------------------------------------------

  /** How much traffic a message can still cause: a request its response, the
      response to Destination Up an update, a crossed request a termination. */
  function Weight(msg: Message): nat {
    var mt := msg.messageType;
    if mt == SESSION_INITIALIZATION || mt == SESSION_UPDATE || DestinationRequestKind(mt).Some? then 3
    else if mt == DESTINATION_UP_RESPONSE || mt == SESSION_TERMINATION then 2
    else 1
  }

  function Load(q: seq<Message>): nat {
    if |q| == 0 then 0 else Load(q[..|q| - 1]) + Weight(q[|q| - 1])
  }

  // --- The invariant --------------------------------------------------------

  predicate Listening(p: Phase) { p.Initializing? || p.InSession? }

  /** The two configurations suit each other. */
  ghost predicate Compatible(router: SessionConfig, modem: SessionConfig) {
    && router.macFormat == modem.macFormat
    && ConfigEncodable(router) && ConfigEncodable(modem)
  }

  ghost predicate SidesOk(sys: System) {
    && RouterInv(sys.router) && ModemInv(sys.modem)
    && Compatible(sys.router.config, sys.modem.config)
    && !sys.router.phase.Unconnected? && !sys.modem.phase.Unconnected?
  }

  /** A response to Destination Up from this router is always a success. */
  ghost predicate Affirmative(msg: Message) {
    msg.messageType == DESTINATION_UP_RESPONSE ==> ExtractStatus(msg.items) == Some(SUCCESS)
  }

  ghost predicate ToModemOk(sys: System) {
    && (sys.modem.phase.Initializing? ==>
          sys.toModem == [BuildInitialization(sys.router.config)] && sys.toRouter == [])
    && (sys.modem.phase.InSession? ==>
          forall i :: 0 <= i < |sys.toModem| ==>
            GoodForModem(sys.toModem[i], sys.modem.config.macFormat) && Affirmative(sys.toModem[i]))
    && (Listening(sys.router.phase) ==>
          forall i :: 0 <= i < |sys.toModem| ==> sys.toModem[i].messageType != SESSION_TERMINATION)
  }

  ghost predicate ToRouterOk(sys: System) {
    var r, initial := sys.router, sys.modem.config.initialMetrics;
    && (r.phase.InSession? ==>
          && r.metricTypes == SupportTypes(initial) && !sys.modem.phase.Initializing?
          && forall i :: 0 <= i < |sys.toRouter| ==> GoodForRouter(sys.toRouter[i], initial, r.config.macFormat))
    && (r.phase.Initializing? ==>
          if sys.toRouter == [] then !sys.modem.phase.InSession?
          else
            && !sys.modem.phase.Initializing?
            && sys.toRouter[0] == BuildInitializationResponse(sys.modem.config)
            && (sys.modem.phase.InSession? ==> sys.toModem == [])
            && forall i :: 1 <= i < |sys.toRouter| ==> GoodForRouter(sys.toRouter[i], initial, r.config.macFormat))
    && (sys.modem.phase.InSession? ==>
          forall i :: 0 <= i < |sys.toRouter| ==> sys.toRouter[i].messageType != SESSION_TERMINATION)
  }

  ghost predicate LaneOk(sys: System, scope: Scope) {
    var a, b := Lane(sys.toModem, scope), Lane(sys.toRouter, scope);
    var rs, ms := Slot(sys.router.tx, scope), Slot(sys.modem.tx, scope);
    && (Listening(sys.router.phase) ==> InboxOk(b, rs))
    && (sys.modem.phase.InSession? ==> InboxOk(a, ms) && (scope.DestinationScope? ==> Fits(sys.modem, scope.mac, a)))
    && (Listening(sys.router.phase) && sys.modem.phase.InSession? ==>
          Conserved(a, b, rs, ms, Deferred(sys.modem, scope)))
  }

  ghost predicate MirrorOk(sys: System, mac: MacAddress) {
    Listening(sys.router.phase) ==>
      var f := ReflectAll(MirrorOf(sys.router, mac), sys.toRouter, mac);
      f.Mirror? && (sys.modem.phase.InSession? ==> Matches(f, sys.modem, mac))
  }

  ghost predicate AddressesOk(sys: System) {
    && (Listening(sys.router.phase) ==>
          var p := Readdress(Some(sys.router.peerAddresses), sys.toRouter);
          p.Some? && (sys.modem.phase.InSession? ==> p.value == sys.modem.localAddresses))
    && (sys.modem.phase.InSession? ==>
          var p := Readdress(Some(sys.modem.peerAddresses), sys.toModem);
          p.Some? && (Listening(sys.router.phase) ==> p.value == sys.router.localAddresses))
  }

  ghost predicate SystemInv(sys: System) {
    && SidesOk(sys) && ToModemOk(sys) && ToRouterOk(sys)
    && (forall scope :: LaneOk(sys, scope))
    && (forall mac :: MirrorOk(sys, mac))
    && AddressesOk(sys)
  }

  // --- Folding queues -------------------------------------------------------

  lemma {:induction false} LaneConcat(p: seq<Message>, q: seq<Message>, scope: Scope)
    ensures Lane(p + q, scope) == Lane(p, scope) + Lane(q, scope)
  {
    hide TagOf;
    if |q| == 0 {
      assert p + q == p && Lane(q, scope) == [];
    } else {
      var front, last := q[..|q| - 1], q[|q| - 1];
      assert (p + q)[..|p + q| - 1] == p + front;
      LaneConcat(p, front, scope);
      var x, y, t := Lane(p, scope), Lane(front, scope), TagOf(last, scope);
      assert (x + y) + t == x + (y + t);
    }
  }

  lemma LaneOne(msg: Message, scope: Scope)
    ensures Lane([msg], scope) == TagOf(msg, scope)
  {
    assert [msg][..0] == [];
  }

  lemma {:induction false} ReflectConcat(f: Mirror, p: seq<Message>, q: seq<Message>, mac: MacAddress)
    ensures ReflectAll(f, p + q, mac) == ReflectAll(ReflectAll(f, p, mac), q, mac)
  {
    if |q| == 0 {
      assert p + q == p;
    } else {
      assert (p + q)[..|p + q| - 1] == p + q[..|q| - 1];
      ReflectConcat(f, p, q[..|q| - 1], mac);
    }
  }

  lemma ReflectOne(f: Mirror, msg: Message, mac: MacAddress)
    ensures ReflectAll(f, [msg], mac) == Reflect(f, msg, mac)
  {
    assert [msg][..0] == [];
  }

  lemma {:induction false} ReaddressConcat(peer: Option<DestinationAddrs>, p: seq<Message>, q: seq<Message>)
    ensures Readdress(peer, p + q) == Readdress(Readdress(peer, p), q)
  {
    hide ApplyStrict, FromItems;
    if |q| == 0 {
      assert p + q == p;
    } else if peer.Some? {
      assert (p + q)[..|p + q| - 1] == p + q[..|q| - 1];
      ReaddressConcat(peer, p, q[..|q| - 1]);
      if Readdress(peer, p).None? { ReaddressNone(q[..|q| - 1]); }
    }
  }

  lemma ReaddressNone(q: seq<Message>)
    ensures Readdress(None, q) == None
  {
  }

  lemma ReaddressOne(peer: DestinationAddrs, msg: Message)
    ensures Readdress(Some(peer), [msg])
         == if msg.messageType == SESSION_UPDATE then ApplyStrict(FromItems(msg.items), peer) else Some(peer)
  {
    assert [msg][..0] == [];
  }

  lemma {:induction false} LoadConcat(p: seq<Message>, q: seq<Message>)
    ensures Load(p + q) == Load(p) + Load(q)
  {
    hide Weight;
    if |q| == 0 {
      assert p + q == p;
    } else {
      assert (p + q)[..|p + q| - 1] == p + q[..|q| - 1];
      LoadConcat(p, q[..|q| - 1]);
    }
  }

  lemma LoadOne(msg: Message)
    ensures Load([msg]) == Weight(msg)
  {
    assert [msg][..0] == [];
  }

  /** Heartbeats and terminations take no part in any of this. */
  predicate Neutral(msg: Message) {
    msg.messageType == HEARTBEAT || msg.messageType == SESSION_TERMINATION
    || msg.messageType == SESSION_TERMINATION_RESPONSE
  }

  lemma NeutralTag(msg: Message, scope: Scope)
    requires Neutral(msg)
    ensures TagOf(msg, scope) == []
  {
    hide ExtractMac;
  }

  lemma NeutralReflect(f: Mirror, msg: Message, mac: MacAddress)
    requires Neutral(msg)
    ensures Reflect(f, msg, mac) == f
  {
    hide ExtractMac, Merge;
  }

  // --- What an action list sends --------------------------------------------

  lemma {:induction false} SentSingle(actions: seq<Action>, k: nat)
    requires k < |actions| && actions[k].SendMessage?
    requires forall i :: 0 <= i < |actions| && i != k ==> !actions[i].SendMessage?
    ensures Sent(actions) == [actions[k].msg]
  {
    var front := actions[..|actions| - 1];
    if k == |actions| - 1 { SentNothing(front); } else { SentSingle(front, k); }
  }
}
