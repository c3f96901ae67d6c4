/** The main results about a conforming router and modem, over every run. */
module Protocol {
  import opened Types
  import opened Addresses
  import opened Messages
  import opened Transactions
  import opened Validation
  import opened Conformance
  import opened Session
  import opened RouterSpec
  import opened ModemSpec
  import opened ProtocolSpec
  import opened Exchange
  import opened Agreement
  import RouterInvariant
  import ModemInvariant
  import RouterPlay
  import ModemPlay

  // --- Every reachable state ------------------------------------------------

  /** The initial state is what the machines do on a new connection. */
  lemma StartIsConnected(rc: SessionConfig, mc: SessionConfig)
    ensures RouterSlots(NewRouter(rc)) && ModemSlots(NewModem(mc))
    ensures RouterStep(NewRouter(rc), TcpConnected).0 == Start(rc, mc).router
    ensures Sent(RouterStep(NewRouter(rc), TcpConnected).1) == Start(rc, mc).toModem
    ensures ModemStep(NewModem(mc), TcpAccepted).0 == Start(rc, mc).modem
    ensures Sent(ModemStep(NewModem(mc), TcpAccepted).1) == Start(rc, mc).toRouter
  {
    hide BuildInitialization, Sent;
    SentSingle(RouterStep(NewRouter(rc), TcpConnected).1, 0);
    SentNothing(ModemStep(NewModem(mc), TcpAccepted).1);
  }

  lemma StartOk(rc: SessionConfig, mc: SessionConfig)
    requires Compatible(rc, mc)
    ensures SystemInv(Start(rc, mc))
  {
    var sys := Start(rc, mc);
    hide Compatible, BuildInitialization;
    RouterInvariant.NewRouterOk(rc);
    ModemInvariant.NewModemOk(mc);
    assert RouterInv(sys.router);
    assert ModemInv(sys.modem);
    assert SidesOk(sys);
    assert BuildInitialization(rc).messageType != SESSION_TERMINATION by { ModemPlay.NameInitialization(rc); }
    assert ToModemOk(sys) && ToRouterOk(sys);
    forall scope ensures LaneOk(sys, scope) { assert Lane([], scope) == []; }
    forall mac ensures MirrorOk(sys, mac) { assert ReflectAll(MirrorOf(sys.router, mac), [], mac).Mirror?; }
    assert AddressesOk(sys);
    hide SidesOk, ToModemOk, ToRouterOk, LaneOk, MirrorOk, AddressesOk;
    Assembled(sys);
  }

  lemma RouterStepIs(sys: System, rest: seq<Message>, e: Event)
    requires RouterSlots(sys.router)
    ensures var (t, actions) := RouterStep(sys.router, e);
            StepRouter(sys.(toRouter := rest), e) == RouterResult(sys, rest, t, Sent(actions))
  {
    hide RouterStep, Sent, AllEncodable, RouterSlots;
    assert sys.toModem + [] == sys.toModem;
  }

  lemma ModemStepIs(sys: System, rest: seq<Message>, e: Event)
    requires ModemSlots(sys.modem)
    ensures var (t, actions) := ModemStep(sys.modem, e);
            StepModem(sys.(toModem := rest), e) == ModemResult(sys, rest, t, Sent(actions))
  {
    hide ModemStep, Sent, AllEncodable, ModemSlots;
    assert sys.toRouter + [] == sys.toRouter;
  }

  lemma JoinResult(sys: System, t: Modem, out: seq<Message>)
    requires SystemInv(sys) && sys.modem.phase.Initializing? && ModemInv(t)
    requires t == sys.modem.(phase := InSession, peerHeartbeat := t.peerHeartbeat, peerExtensions := t.peerExtensions)
    requires out == [BuildInitializationResponse(t.config)]
    ensures |sys.toModem| == 1 && SystemInv(ModemResult(sys, [], t, out))
  {
    Parts(sys);
    hide SystemInv, ModemInv, RouterInv, RouterSlots, ModemSlots, AllEncodable, ToRouterOk, BuildInitialization,
         BuildInitializationResponse, ConfigEncodable;
    if AllEncodable(out) {
      ModemJoins(sys, t);
    } else {
      ModemGone(t);
      NothingSaid();
      assert sys.toModem[1..] == [];
      ModemLeaves(sys, [], t.(phase := Terminated), []);
    }
  }

  lemma ModemJoinsKeeps(sys: System)
    requires SystemInv(sys) && sys.modem.phase.Initializing? && SlotsOk(sys)
    ensures sys.toModem != [] && SystemInv(Next(sys, DeliverToModem))
  {
    hide SystemInv, ModemInv, RouterInv, RouterSlots, ModemSlots, Sent, ModemStep, ToRouterOk, BuildInitialization,
         BuildInitializationResponse, ConfigEncodable, ModemResult, StepModem;
    Parts(sys);
    var e := RecvMessage(BuildInitialization(sys.router.config));
    ModemPlay.Establishes(sys.modem, sys.router.config);
    ModemInvariant.ModemStepKeepsInvariant(sys.modem, e);
    assert sys.toModem[0] == e.msg && sys.toModem[1..] == [];
    ModemStepIs(sys, [], e);
    JoinResult(sys, ModemStep(sys.modem, e).0, Sent(ModemStep(sys.modem, e).1));
  }

  /** Every move of the system keeps the invariant. */
  lemma NextKeepsInvariant(sys: System, move: Move)
    requires SystemInv(sys)
    ensures SlotsOk(sys) && SystemInv(Next(sys, move))
  {
    hide SystemInv, ModemInv, RouterInv, RouterSlots, ModemSlots, Sent, ModemStep, RouterStep, ToRouterOk, ToModemOk,
         Compatible, RouterOutcome, ModemOutcome, RouterResult, ModemResult, StepRouter, StepModem;
    Parts(sys);
    assert SlotsOk(sys);
    match move
    case DeliverToRouter =>
      if sys.toRouter != [] {
        var e := RecvMessage(sys.toRouter[0]);
        ToRouterOutcome(sys);
        RouterOutcomeKeeps(sys, [sys.toRouter[0]], sys.toRouter[1..], RouterStep(sys.router, e).0,
                           Sent(RouterStep(sys.router, e).1));
        RouterStepIs(sys, sys.toRouter[1..], e);
      }
    case DeliverToModem =>
      if sys.modem.phase.Initializing? {
        ModemJoinsKeeps(sys);
      } else if sys.toModem != [] {
        var e := RecvMessage(sys.toModem[0]);
        ToModemOutcome(sys);
        ModemOutcomeKeeps(sys, [sys.toModem[0]], sys.toModem[1..], ModemStep(sys.modem, e).0,
                          Sent(ModemStep(sys.modem, e).1));
        ModemStepIs(sys, sys.toModem[1..], e);
      }
    case AtRouter(e) =>
      if IsLocal(e) {
        AtRouterOutcome(sys, e);
        RouterOutcomeKeeps(sys, [], sys.toRouter, RouterStep(sys.router, e).0, Sent(RouterStep(sys.router, e).1));
        RouterStepIs(sys, sys.toRouter, e);
        assert sys.(toRouter := sys.toRouter) == sys;
      }
    case AtModem(e) =>
      if IsLocal(e) {
        AtModemOutcome(sys, e);
        ModemOutcomeKeeps(sys, [], sys.toModem, ModemStep(sys.modem, e).0, Sent(ModemStep(sys.modem, e).1));
        ModemStepIs(sys, sys.toModem, e);
        assert sys.(toModem := sys.toModem) == sys;
      }
  }

  // --- What a conforming peer can be refused for ----------------------------

  /** The receiver has a request of its own open in the scope of this request. */
  predicate Crossed(tx: Tx, msg: Message) {
    || (msg.messageType == SESSION_UPDATE && tx.session.Some?)
    || (DestinationRequestKind(msg.messageType).Some? && ExtractMac(msg.items).Some?
        && ExtractMac(msg.items).value in tx.perDestination)
  }

  /** Refused as unexpected, or not at all. */
  function Ruling(crossed: bool): Option<DataItem> {
    if crossed then Some(Status(UNEXPECTED_MESSAGE, [])) else None
  }

  lemma HeadTag(q: seq<Message>, scope: Scope)
    requires q != []
    ensures Lane(q, scope) == TagOf(q[0], scope) + Lane(q[1..], scope)
  {
    hide TagOf;
    assert q == [q[0]] + q[1..];
    LaneConcat([q[0]], q[1..], scope);
    LaneOne(q[0], scope);
  }

  lemma HeadReaddressed(peer: DestinationAddrs, q: seq<Message>)
    requires q != [] && Readdress(Some(peer), q).Some?
    ensures q[0].messageType == SESSION_UPDATE ==> ApplyStrict(FromItems(q[0].items), peer).Some?
  {
    hide ApplyStrict, FromItems;
    assert q == [q[0]] + q[1..];
    ReaddressConcat(Some(peer), [q[0]], q[1..]);
    ReaddressOne(peer, q[0]);
    ReaddressNone(q[1..]);
  }

  lemma {:induction false} BrokenStays(q: seq<Message>, mac: MacAddress)
    ensures ReflectAll(Broken, q, mac) == Broken
  {
    if |q| > 0 { BrokenStays(q[..|q| - 1], mac); }
  }

  lemma HeadReflected(f: Mirror, q: seq<Message>, mac: MacAddress)
    requires q != [] && ReflectAll(f, q, mac).Mirror?
    ensures Reflect(f, q[0], mac).Mirror?
  {
    hide Reflect;
    assert q == [q[0]] + q[1..];
    ReflectConcat(f, [q[0]], q[1..], mac);
    ReflectOne(f, q[0], mac);
    BrokenStays(q[1..], mac);
  }

  lemma RouterContentOk(r: Router, msg: Message, initial: LinkMetrics)
    requires r.phase.InSession? && GoodForRouter(msg, initial, r.config.macFormat)
    requires r.metricTypes == SupportTypes(initial)
    requires msg.messageType == SESSION_UPDATE ==> ApplyStrict(FromItems(msg.items), r.peerAddresses).Some?
    ensures RouterContent(r, msg).None?
  {
    GrammarIgnoresExtensions(msg, true, r.config.extensions);
    hide Grammar, FromItems, ApplyStrict, MetricTypes, SupportTypes, MacFormatOk, FatalStatus;
  }

  /** A response answers the open request of its scope. */
  predicate Due(tags: seq<Tag>, slot: Option<RequestKind>) {
    |tags| == 1 && tags[0].Response? ==> slot == Some(tags[0].kind)
  }

  lemma HeadDue(q: seq<Message>, slot: Option<RequestKind>, scope: Scope)
    requires q != [] && InboxOk(Lane(q, scope), slot)
    ensures Due(TagOf(q[0], scope), slot)
  {
    HeadTag(q, scope);
    hide Lane, TagOf;
  }

  lemma RouterTransactionOk(r: Router, msg: Message)
    requires RouterSlots(r) && Expected(msg.messageType, true, false)
    requires forall scope :: Due(TagOf(msg, scope), Slot(r.tx, scope))
    requires forall mac :: Reflect(MirrorOf(r, mac), msg, mac).Mirror?
    ensures ValidateTransaction(msg.messageType, ExtractMac(msg.items), r.tx,
                                RouterSpec.Known(r, ExtractMac(msg.items)))
         == if Crossed(r.tx, msg) then Some(UNEXPECTED_MESSAGE) else None
  {
    hide ExtractMac, Merge;
    assert Due(TagOf(msg, SessionScope), Slot(r.tx, SessionScope));
    if ExtractMac(msg.items).Some? {
      var mac := ExtractMac(msg.items).value;
      assert Due(TagOf(msg, DestinationScope(mac)), Slot(r.tx, DestinationScope(mac)));
      assert Reflect(MirrorOf(r, mac), msg, mac).Mirror?;
    }
  }

  /** In every reachable state the router refuses the next message exactly when
      it crosses an open request of its own, and then as an unexpected one. */
  lemma RouterRefusesOnlyCrossings(sys: System)
    requires SystemInv(sys) && sys.toRouter != [] && Listening(sys.router.phase)
    ensures RouterVerdict(sys.router, sys.toRouter[0])
         == Ruling(sys.router.phase.InSession? && Crossed(sys.router.tx, sys.toRouter[0]))
  {
    var r, h := sys.router, sys.toRouter[0];
    Parts(sys);
    forall scope ensures Due(TagOf(h, scope), Slot(r.tx, scope)) {
      assert LaneOk(sys, scope);
      HeadDue(sys.toRouter, Slot(r.tx, scope), scope);
    }
    forall mac ensures Reflect(MirrorOf(r, mac), h, mac).Mirror? {
      assert MirrorOk(sys, mac);
      HeadReflected(MirrorOf(r, mac), sys.toRouter, mac);
    }
    assert AddressesOk(sys);
    HeadReaddressed(r.peerAddresses, sys.toRouter);
    hide SystemInv, RouterInv, ModemInv, ModemSlots, ToModemOk, ConfigEncodable, TagOf, Slot, Reflect, MirrorOf,
         AddressesOk, BuildInitializationResponse, RouterSlots, Crossed, ApplyStrict, FromItems;
    if r.phase.InSession? {
      RouterAccepts(r, h, sys.modem.config.initialMetrics);
    } else {
      RouterPlay.Invited(r, sys.modem.config);
    }
  }

  lemma RouterAccepts(r: Router, msg: Message, initial: LinkMetrics)
    requires r.phase.InSession? && GoodForRouter(msg, initial, r.config.macFormat)
    requires r.metricTypes == SupportTypes(initial) && RouterSlots(r)
    requires msg.messageType == SESSION_UPDATE ==> ApplyStrict(FromItems(msg.items), r.peerAddresses).Some?
    requires forall scope :: Due(TagOf(msg, scope), Slot(r.tx, scope))
    requires forall mac :: Reflect(MirrorOf(r, mac), msg, mac).Mirror?
    ensures RouterVerdict(r, msg) == if Crossed(r.tx, msg) then Some(Status(UNEXPECTED_MESSAGE, [])) else None
  {
    hide TagOf, Slot, Reflect, MirrorOf, RouterSlots, Crossed, ApplyStrict, FromItems, SupportTypes, RouterContent,
         ValidateTransaction, ExtractMac, Grammar, MetricTypes, MacFormatOk, FatalStatus;
    RouterContentOk(r, msg, initial);
    RouterTransactionOk(r, msg);
  }

  lemma HeadFits(m: Modem, q: seq<Message>, mac: MacAddress)
    requires q != [] && InboxOk(Lane(q, DestinationScope(mac)), Slot(m.tx, DestinationScope(mac)))
    requires Fits(m, mac, Lane(q, DestinationScope(mac)))
    ensures var tags := TagOf(q[0], DestinationScope(mac)); |tags| == 1 && tags[0].Request? ==> Fits(m, mac, tags)
  {
    var tags, rest := TagOf(q[0], DestinationScope(mac)), Lane(q[1..], DestinationScope(mac));
    HeadTag(q, DestinationScope(mac));
    hide Lane, Fits;
    if |tags| == 1 && tags[0].Request? {
      Split(tags, rest, Slot(m.tx, DestinationScope(mac)));
      assert tags + rest == tags;
    }
  }

  /** A request that is next in line, if there is one, fits. */
  ghost predicate FitsNow(m: Modem, msg: Message, mac: MacAddress) {
    var tags := TagOf(msg, DestinationScope(mac));
    SlotFits(m, mac) && (|tags| == 1 && tags[0].Request? ==> Fits(m, mac, tags))
  }

  lemma ModemTransactionOk(m: Modem, msg: Message)
    requires m.phase.InSession? && Expected(msg.messageType, false, false) && ModemContent(m, msg).None?
    requires forall scope :: Due(TagOf(msg, scope), Slot(m.tx, scope))
    requires forall mac :: FitsNow(m, msg, mac)
    ensures ModemCheck(m, msg) == if Crossed(m.tx, msg) then Some(UNEXPECTED_MESSAGE) else None
  {
    hide ExtractMac, ModemContent;
    assert Due(TagOf(msg, SessionScope), Slot(m.tx, SessionScope));
    if ExtractMac(msg.items).Some? {
      var mac := ExtractMac(msg.items).value;
      assert Due(TagOf(msg, DestinationScope(mac)), Slot(m.tx, DestinationScope(mac)));
      assert FitsNow(m, msg, mac);
    }
  }

  lemma ModemContentOk(m: Modem, msg: Message)
    requires m.phase.InSession? && GoodForModem(msg, m.config.macFormat)
    requires msg.messageType == SESSION_UPDATE ==> ApplyStrict(FromItems(msg.items), m.peerAddresses).Some?
    ensures ModemContent(m, msg).None?
  {
    GrammarIgnoresExtensions(msg, false, m.config.extensions);
    hide Grammar, FromItems, ApplyStrict, MacFormatOk, FatalStatus;
  }

  lemma ModemAccepts(m: Modem, msg: Message)
    requires m.phase.InSession? && GoodForModem(msg, m.config.macFormat)
    requires msg.messageType == SESSION_UPDATE ==> ApplyStrict(FromItems(msg.items), m.peerAddresses).Some?
    requires forall scope :: Due(TagOf(msg, scope), Slot(m.tx, scope))
    requires forall mac :: FitsNow(m, msg, mac)
    ensures ModemVerdict(m, msg) == if Crossed(m.tx, msg) then Some(Status(UNEXPECTED_MESSAGE, [])) else None
  {
    hide TagOf, Slot, FitsNow, Crossed, ApplyStrict, FromItems, ModemContent, ExtractMac, Grammar, MacFormatOk,
         FatalStatus, ModemCheck;
    ModemContentOk(m, msg);
    ModemTransactionOk(m, msg);
  }

  /** The same for the modem; the handshake is never refused. */
  lemma ModemRefusesOnlyCrossings(sys: System)
    requires SystemInv(sys) && sys.toModem != [] && Listening(sys.modem.phase)
    ensures ModemVerdict(sys.modem, sys.toModem[0])
         == Ruling(sys.modem.phase.InSession? && Crossed(sys.modem.tx, sys.toModem[0]))
  {
    var m, h := sys.modem, sys.toModem[0];
    Parts(sys);
    if m.phase.InSession? {
      forall scope ensures Due(TagOf(h, scope), Slot(m.tx, scope)) {
        assert LaneOk(sys, scope);
        HeadDue(sys.toModem, Slot(m.tx, scope), scope);
      }
      forall mac ensures FitsNow(m, h, mac) {
        assert LaneOk(sys, DestinationScope(mac));
        ModemFitsSlots(m, mac);
        HeadFits(m, sys.toModem, mac);
      }
      assert AddressesOk(sys);
      HeadReaddressed(m.peerAddresses, sys.toModem);
      hide SystemInv, RouterInv, ModemInv, ModemSlots, ToRouterOk, ConfigEncodable, TagOf, Slot, AddressesOk, FitsNow,
           RouterSlots, Crossed, ApplyStrict, FromItems, ModemVerdict;
      ModemAccepts(m, h);
    } else {
      hide SystemInv, RouterInv, ModemInv, ModemSlots, ToRouterOk, ConfigEncodable, Crossed, ModemVerdict, RouterSlots,
           BuildInitialization;
      ModemPlay.Invited(m, sys.router.config);
    }
  }

  // --- Agreement at rest ----------------------------------------------------

  /** No request is open but those the modem has deferred. */
  ghost predicate NoneOpen(r: Router, m: Modem, mac: MacAddress) {
    && mac !in m.tx.perDestination
    && (mac in r.tx.perDestination <==> mac in m.pendingLinks)
    && (mac in r.tx.perDestination ==> r.tx.perDestination[mac] == LinkCharacteristicsKind)
  }

  /** The router knows a destination just when it is announced, by its metrics. */
  ghost predicate SameView(r: Router, m: Modem, mac: MacAddress) {
    && (mac in r.destinations <==> mac in m.destinations && m.destinations[mac].announced)
    && (mac in r.destinations ==> r.destinations[mac].metrics == m.destinations[mac].metrics)
  }

  /** The two sides tell the same story. */
  ghost predicate Agree(r: Router, m: Modem) {
    && r.sessionMetrics == m.sessionMetrics
    && r.peerAddresses == m.localAddresses && m.peerAddresses == r.localAddresses
    && r.tx.session.None? && m.tx == IDLE
    && (forall mac :: SameView(r, m, mac) && NoneOpen(r, m, mac))
  }

  lemma RestSlots(sys: System, scope: Scope)
    requires LaneOk(sys, scope) && sys.router.phase.InSession? && sys.modem.phase.InSession?
    requires sys.toModem == [] && sys.toRouter == []
    ensures Slot(sys.modem.tx, scope).None?
    ensures Slot(sys.router.tx, scope) == if Deferred(sys.modem, scope) then Some(LinkCharacteristicsKind) else None
  {
    assert Lane([], scope) == [];
  }

  lemma RestMirror(sys: System, mac: MacAddress)
    requires MirrorOk(sys, mac) && sys.router.phase.InSession? && sys.modem.phase.InSession? && sys.toRouter == []
    requires mac !in sys.modem.tx.perDestination
    requires mac in sys.modem.destinations && sys.modem.destinations[mac].announced ==>
               !sys.modem.destinations[mac].pendingMetrics
    ensures sys.router.sessionMetrics == sys.modem.sessionMetrics
    ensures mac in sys.router.destinations <==>
              mac in sys.modem.destinations && sys.modem.destinations[mac].announced
    ensures mac in sys.router.destinations ==>
              sys.router.destinations[mac].metrics == sys.modem.destinations[mac].metrics
  {
    assert ReflectAll(MirrorOf(sys.router, mac), [], mac) == MirrorOf(sys.router, mac);
  }

  lemma NotPending(m: Modem, mac: MacAddress)
    requires ModemSlots(m) && mac in m.destinations && m.destinations[mac].announced
    ensures !m.destinations[mac].pendingMetrics
  {
  }

  ghost predicate BothIdle(sys: System) {
    && sys.router.phase.InSession? && sys.modem.phase.InSession?
    && sys.toModem == [] && sys.toRouter == []
  }

  lemma RestTransactions(sys: System)
    requires SystemInv(sys) && BothIdle(sys)
    ensures sys.router.tx.session.None? && sys.modem.tx == IDLE
    ensures forall mac :: NoneOpen(sys.router, sys.modem, mac)
  {
    hide SidesOk, ToModemOk, ToRouterOk, LaneOk, MirrorOk, AddressesOk;
    assert LaneOk(sys, SessionScope);
    RestSlots(sys, SessionScope);
    forall mac ensures NoneOpen(sys.router, sys.modem, mac) {
      assert LaneOk(sys, DestinationScope(mac));
      RestSlots(sys, DestinationScope(mac));
    }
    forall mac ensures mac !in sys.modem.tx.perDestination { assert NoneOpen(sys.router, sys.modem, mac); }
    assert sys.modem.tx.perDestination == map[];
  }

  lemma RestView(sys: System, mac: MacAddress)
    requires SystemInv(sys) && BothIdle(sys)
    ensures SameView(sys.router, sys.modem, mac) && sys.router.sessionMetrics == sys.modem.sessionMetrics
  {
    Parts(sys);
    RestTransactions(sys);
    assert MirrorOk(sys, mac);
    assert NoneOpen(sys.router, sys.modem, mac);
    hide SystemInv, RouterInv, ModemInv, RouterSlots, ModemSlots, ToModemOk, ToRouterOk, Compatible, MirrorOk;
    if mac in sys.modem.destinations && sys.modem.destinations[mac].announced { NotPending(sys.modem, mac); }
    RestMirror(sys, mac);
  }

  /** With nothing in flight, both sides in session agree. */
  lemma AtRest(sys: System)
    requires SystemInv(sys) && BothIdle(sys)
    ensures Agree(sys.router, sys.modem)
  {
    assert AddressesOk(sys);
    RestTransactions(sys);
    hide SystemInv, NoneOpen, SameView;
    forall mac ensures SameView(sys.router, sys.modem, mac) && NoneOpen(sys.router, sys.modem, mac) {
      RestView(sys, mac);
    }
    RestView(sys, Eui48(0));
  }

  // --- Delivery comes to rest -----------------------------------------------

  ghost function InFlight(sys: System): nat { Load(sys.toModem) + Load(sys.toRouter) }

  lemma RouterSaysLess(r: Router, msg: Message)
    requires r.phase.InSession? && RouterSlots(r)
    requires RouterVerdict(r, msg).Some? ==> Weight(msg) == 3
    ensures Load(Sent(RouterStep(r, RecvMessage(msg)).1)) < Weight(msg)
  {
    var verdict := RouterVerdict(r, msg);
    hide RouterCheck, RouterAccept, Sent, FatalStatus, RouterSlots, RouterPlay.Plays, RouterPlay.PlaysOn;
    LoadOne(msg);
    if verdict.Some? {
      var out := Message(SESSION_TERMINATION, [verdict.value]);
      SentSingle(RouterFail(r, verdict.value).1, 3);
      LoadOne(out);
    } else if msg.messageType == SESSION_TERMINATION {
      RouterPlay.TerminationAccepted(r, msg);
      SentSingle(RouterPeerTerminates(r, msg).1, 2);
      LoadOne(BuildTerminationResponse());
    } else {
      RouterPlay.AcceptPlays(r, msg);
      PlayedLess(r, msg);
    }
  }

  lemma PlayedLess(r: Router, msg: Message)
    requires r.phase.InSession? && RouterSlots(r) && RouterCheck(r, msg).None? && RouterPlay.PlaysOn(r, msg)
    ensures Load(Sent(RouterAccept(r, msg).1)) < Weight(msg)
  {
    hide RouterCheck, RouterAccept, Sent, RouterSlots, Lane, RouterTurn, MirrorOf, ReflectAll, Readdress;
    LoadOne(msg);
  }

  lemma ModemSaysLess(m: Modem, msg: Message)
    requires m.phase.InSession? && ModemInv(m) && ConfigEncodable(m.config) && Affirmative(msg)
    requires ModemVerdict(m, msg).Some? ==> Weight(msg) == 3
    ensures ModemSlots(m) && Load(Sent(ModemStep(m, RecvMessage(msg)).1)) < Weight(msg)
  {
    hide ModemInv, ModemSlots, ModemCheck, ModemAccept, Sent, FatalStatus, ModemPlay.TurnAt, ModemPlay.Follows,
         ModemPlay.Reflects, ModemPlay.Speaks, Readdress, ConfigEncodable;
    ModemInvariant.SlotsOf(m);
    var verdict := ModemVerdict(m, msg);
    LoadOne(msg);
    if verdict.Some? {
      var out := Message(SESSION_TERMINATION, [verdict.value]);
      SentSingle(ModemFail(m, verdict.value).1, 3);
      LoadOne(out);
    } else if msg.messageType == SESSION_TERMINATION {
      ModemPlay.TerminationAccepted(m, msg);
      SentSingle(ModemPeerTerminates(m, msg).1, 2);
      LoadOne(BuildTerminationResponse());
    } else {
      ModemPlay.AcceptPlays(m, msg);
    }
  }

  lemma CrossedWeighs(tx: Tx, msg: Message)
    requires Crossed(tx, msg)
    ensures Weight(msg) == 3
  {
    hide ExtractMac;
  }

  lemma ResultLoad(p: seq<Message>, out: seq<Message>, h: Message, rest: seq<Message>, q: seq<Message>)
    requires q != [] && q[0] == h && rest == q[1..] && Load(out) < Weight(h)
    ensures Load(p + out) + Load(rest) < Load(p) + Load(q) && Load(p) + Load(rest) < Load(p) + Load(q)
  {
    hide Weight;
    assert q == [h] + rest;
    LoadConcat([h], rest);
    LoadOne(h);
    LoadConcat(p, out);
  }

  /** Each delivery leaves less in flight than before. */
  lemma RouterDelivery(sys: System)
    requires SystemInv(sys) && sys.toRouter != [] && SlotsOk(sys)
    ensures InFlight(Next(sys, DeliverToRouter)) < InFlight(sys)
  {
    hide SystemInv, RouterInv, ModemInv, RouterSlots, ModemSlots, ToModemOk, ToRouterOk, Compatible, RouterStep, Sent,
         RouterVerdict, Crossed, Weight, Load;
    Parts(sys);
    var h, rest := sys.toRouter[0], sys.toRouter[1..];
    var out := Sent(RouterStep(sys.router, RecvMessage(h)).1);
    assert Load(out) < Weight(h) by { RouterReplyWeighs(sys); }
    RouterStepIs(sys, rest, RecvMessage(h));
    ResultLoad(sys.toModem, out, h, rest, sys.toRouter);
    hide StepRouter;
    assert sys.toModem + [] == sys.toModem;
  }

  lemma RouterReplyWeighs(sys: System)
    requires SystemInv(sys) && sys.toRouter != [] && RouterSlots(sys.router)
    ensures Load(Sent(RouterStep(sys.router, RecvMessage(sys.toRouter[0])).1)) < Weight(sys.toRouter[0])
  {
    Parts(sys);
    var h := sys.toRouter[0];
    hide SystemInv, RouterInv, ModemInv, RouterSlots, ModemSlots, ToModemOk, Compatible, RouterStep, Sent,
         RouterVerdict, Crossed, GoodForRouter, BuildInitializationResponse, SupportTypes;
    if sys.router.phase.InSession? {
      RouterRefusesOnlyCrossings(sys);
      if Crossed(sys.router.tx, h) { CrossedWeighs(sys.router.tx, h); }
      RouterSaysLess(sys.router, h);
    } else if sys.router.phase.Initializing? {
      assert Compatible(sys.router.config, sys.modem.config);
      RouterPlay.Establishes(sys.router, sys.modem.config);
    } else {
      RouterPlay.DeafRouter(sys.router, h);
    }
  }

  lemma ModemDelivery(sys: System)
    requires SystemInv(sys) && sys.toModem != [] && SlotsOk(sys)
    ensures InFlight(Next(sys, DeliverToModem)) < InFlight(sys)
  {
    hide SystemInv, RouterInv, ModemInv, RouterSlots, ModemSlots, ToModemOk, ToRouterOk, Compatible, ModemStep, Sent,
         ModemVerdict, Crossed, Weight, Load;
    Parts(sys);
    var h, rest := sys.toModem[0], sys.toModem[1..];
    var out := Sent(ModemStep(sys.modem, RecvMessage(h)).1);
    assert Load(out) < Weight(h) by { ModemReplyWeighs(sys); }
    ModemStepIs(sys, rest, RecvMessage(h));
    ResultLoad(sys.toRouter, out, h, rest, sys.toModem);
    hide StepModem;
    assert sys.toRouter + [] == sys.toRouter;
  }

  lemma ModemReplyWeighs(sys: System)
    requires SystemInv(sys) && sys.toModem != [] && ModemSlots(sys.modem)
    ensures Load(Sent(ModemStep(sys.modem, RecvMessage(sys.toModem[0])).1)) < Weight(sys.toModem[0])
  {
    Parts(sys);
    hide SystemInv, RouterInv, ModemInv, RouterSlots, ModemSlots, ToRouterOk, ModemStep, Sent, ModemVerdict, Weight,
         Load, Crossed, GoodForModem, BuildInitialization, ConfigEncodable;
    var h := sys.toModem[0];
    if sys.modem.phase.InSession? {
      ModemRefusesOnlyCrossings(sys);
      if Crossed(sys.modem.tx, h) { CrossedWeighs(sys.modem.tx, h); }
      ModemSaysLess(sys.modem, h);
    } else if sys.modem.phase.Initializing? {
      JoinWeighs(sys.modem, sys.router.config);
    } else {
      ModemPlay.DeafModem(sys.modem, h);
      NothingWeighs(h);
    }
  }

  lemma NothingWeighs(msg: Message)
    ensures Load([]) < Weight(msg)
  {
  }

  lemma JoinWeighs(m: Modem, peer: SessionConfig)
    requires m.phase.Initializing? && ModemInv(m) && ConfigEncodable(peer)
    ensures ModemSlots(m)
    ensures var h := BuildInitialization(peer); Load(Sent(ModemStep(m, RecvMessage(h)).1)) < Weight(h)
  {
    ModemInvariant.SlotsOf(m);
    hide ModemInv, ModemSlots, ModemStep, Sent, BuildInitialization, BuildInitializationResponse, ConfigEncodable;
    ModemPlay.Establishes(m, peer);
    ModemPlay.NameInitialization(peer);
    RouterPlay.Named(m.config);
    LoadOne(BuildInitializationResponse(m.config));
  }

  /** Deliver everything, the router's queue first. */
  ghost function Drain(sys: System): (after: System)
    requires SystemInv(sys)
    ensures SystemInv(after) && after.toModem == [] && after.toRouter == []
    decreases InFlight(sys)
  {
    if sys.toRouter != [] then
      NextKeepsInvariant(sys, DeliverToRouter);
      RouterDelivery(sys);
      Drain(Next(sys, DeliverToRouter))
    else if sys.toModem != [] then
      NextKeepsInvariant(sys, DeliverToModem);
      ModemDelivery(sys);
      Drain(Next(sys, DeliverToModem))
    else sys
  }

  // --- Main results ---------------------------------------------------------

  ghost function Run(sys: System, moves: seq<Move>): (after: System)
    requires SystemInv(sys)
    ensures SystemInv(after)
    decreases |moves|
  {
    if moves == [] then sys else
      NextKeepsInvariant(sys, moves[0]);
      Run(Next(sys, moves[0]), moves[1..])
  }

  /** Any run of a compatible pair. */
  ghost function Reached(rc: SessionConfig, mc: SessionConfig, moves: seq<Move>): (sys: System)
    requires Compatible(rc, mc)
    ensures SystemInv(sys)
  {
    StartOk(rc, mc);
    Run(Start(rc, mc), moves)
  }

  /** At rest in session, the two sides agree, whatever happened before. */
  lemma QuiescentAgreement(rc: SessionConfig, mc: SessionConfig, moves: seq<Move>)
    requires Compatible(rc, mc)
    ensures var sys := Reached(rc, mc, moves); BothIdle(sys) ==> Agree(sys.router, sys.modem)
  {
    var sys := Reached(rc, mc, moves);
    hide Compatible, Agree, SystemInv, Reached;
    if BothIdle(sys) { AtRest(sys); }
  }

  /** A delivery that has something to deliver. */
  predicate Deliverable(sys: System, move: Move) {
    match move
    case DeliverToRouter => sys.toRouter != []
    case DeliverToModem => sys.toModem != []
    case _ => false
  }

  /** A schedule of deliveries, in any order, each of a message in flight. */
  ghost predicate Effective(sys: System, deliveries: seq<Move>)
    requires SystemInv(sys)
    decreases |deliveries|
  {
    deliveries == [] ||
    (Deliverable(sys, deliveries[0]) &&
     (NextKeepsInvariant(sys, deliveries[0]);
      Effective(Next(sys, deliveries[0]), deliveries[1..])))
  }

  /** Whatever the order, each delivery uses up some of the traffic. */
  lemma {:induction false} DeliveriesEnd(sys: System, deliveries: seq<Move>)
    requires SystemInv(sys) && Effective(sys, deliveries)
    ensures |deliveries| + InFlight(Run(sys, deliveries)) <= InFlight(sys)
    decreases |deliveries|
  {
    hide SystemInv, InFlight, Next;
    if deliveries != [] {
      NextKeepsInvariant(sys, deliveries[0]);
      if deliveries[0].DeliverToRouter? { RouterDelivery(sys); } else { ModemDelivery(sys); }
      DeliveriesEnd(Next(sys, deliveries[0]), deliveries[1..]);
    }
  }

  ghost predicate AtEnd(sys: System) {
    && sys.toModem == [] && sys.toRouter == []
    && (sys.router.phase.InSession? && sys.modem.phase.InSession? ==> Agree(sys.router, sys.modem))
  }

  lemma EmptyIsEnd(sys: System)
    requires SystemInv(sys) && sys.toModem == [] && sys.toRouter == []
    ensures AtEnd(sys)
  {
    hide SystemInv, Agree;
    if BothIdle(sys) { AtRest(sys); }
  }

  /** The schedule is bounded by the traffic it starts from. If it cannot go on it
      has come to its end; if it can, it can be continued to one. */
  ghost predicate Converges(sys: System, deliveries: seq<Move>)
    requires SystemInv(sys)
  {
    var after := Run(sys, deliveries);
    && |deliveries| <= InFlight(sys)
    && ((forall move :: !Deliverable(after, move)) ==> AtEnd(after))
    && AtEnd(Drain(after))
  }

  lemma ScheduleConverges(sys: System, deliveries: seq<Move>)
    requires SystemInv(sys) && Effective(sys, deliveries)
    ensures Converges(sys, deliveries)
  {
    hide SystemInv, Run, Effective, AtEnd, Drain, InFlight, Next, RouterInv, ModemInv, SidesOk;
    var after := Run(sys, deliveries);
    DeliveriesEnd(sys, deliveries);
    if forall move :: !Deliverable(after, move) {
      assert !Deliverable(after, DeliverToRouter) && !Deliverable(after, DeliverToModem);
      EmptyIsEnd(after);
    }
    EmptyIsEnd(Drain(after));
  }

  /** From any reachable state, every order of delivering what is in flight comes
      to rest, with the two sides in agreement unless one has left the session. */
  lemma Convergence(rc: SessionConfig, mc: SessionConfig, moves: seq<Move>, deliveries: seq<Move>)
    requires Compatible(rc, mc) && Effective(Reached(rc, mc, moves), deliveries)
    ensures Converges(Reached(rc, mc, moves), deliveries)
  {
    hide *;
    ScheduleConverges(Reached(rc, mc, moves), deliveries);
  }

  /** A conforming peer is refused only for a genuine crossing of requests. */
  lemma OnlyCrossingsRefused(rc: SessionConfig, mc: SessionConfig, moves: seq<Move>)
    requires Compatible(rc, mc)
    ensures var sys := Reached(rc, mc, moves);
            && (sys.toRouter != [] && Listening(sys.router.phase) ==>
                  var h := sys.toRouter[0];
                  RouterVerdict(sys.router, h) == Ruling(sys.router.phase.InSession? && Crossed(sys.router.tx, h)))
            && (sys.toModem != [] && Listening(sys.modem.phase) ==>
                  var h := sys.toModem[0];
                  ModemVerdict(sys.modem, h) == Ruling(sys.modem.phase.InSession? && Crossed(sys.modem.tx, h)))
  {
    var sys := Reached(rc, mc, moves);
    hide Compatible, SystemInv, Reached, Crossed, RouterVerdict, ModemVerdict;
    if sys.toRouter != [] && Listening(sys.router.phase) { RouterRefusesOnlyCrossings(sys); }
    if sys.toModem != [] && Listening(sys.modem.phase) { ModemRefusesOnlyCrossings(sys); }
  }

  /** Session addresses are mirrored at all times, in both directions: what a side
      will have recorded once it has read its queue is what its peer has now, order
      included, and no update on the way will be rejected. */
  lemma SessionAddressesMirrored(rc: SessionConfig, mc: SessionConfig, moves: seq<Move>)
    requires Compatible(rc, mc)
    ensures var sys := Reached(rc, mc, moves);
            var atRouter := Readdress(Some(sys.router.peerAddresses), sys.toRouter);
            var atModem := Readdress(Some(sys.modem.peerAddresses), sys.toModem);
            && (Listening(sys.router.phase) ==> atRouter.Some?)
            && (sys.modem.phase.InSession? ==> atModem.Some?)
            && (Listening(sys.router.phase) && sys.modem.phase.InSession? ==>
                  atRouter == Some(sys.modem.localAddresses) && atModem == Some(sys.router.localAddresses))
  {
    var sys := Reached(rc, mc, moves);
    hide Compatible, Reached, SidesOk, ToModemOk, ToRouterOk, MirrorOk, LaneOk, Readdress;
    assert AddressesOk(sys);
  }

  function RequestsIn(lane: seq<Tag>): nat {
    if |lane| == 0 then 0 else RequestsIn(lane[..|lane| - 1]) + One(lane[|lane| - 1].Request?)
  }

  function ResponsesIn(lane: seq<Tag>): nat {
    if |lane| == 0 then 0 else ResponsesIn(lane[..|lane| - 1]) + One(lane[|lane| - 1].Response?)
  }

  /** Every message in flight belongs to the slot it was opened for: a request to
      its sender's, a response to its reader's. */
  ghost predicate OfTheSlots(lane: seq<Tag>, sender: Option<RequestKind>, reader: Option<RequestKind>) {
    forall tag :: tag in lane ==> (if tag.Request? then sender else reader) == Some(tag.kind)
  }

  /** Requests in flight, responses in flight and deferred answers together
      number one for an open slot and none for a free one. */
  ghost predicate Balanced(toModem: seq<Tag>, toRouter: seq<Tag>, router: Option<RequestKind>,
                           modem: Option<RequestKind>, deferred: bool) {
    && RequestsIn(toModem) + ResponsesIn(toRouter) + One(deferred) == One(router.Some?)
    && RequestsIn(toRouter) + ResponsesIn(toModem) == One(modem.Some?)
    && OfTheSlots(toModem, router, modem) && OfTheSlots(toRouter, modem, router)
    && (deferred ==> router == Some(LinkCharacteristicsKind))
  }

  lemma LaneCounts(lane: seq<Tag>, slot: Option<RequestKind>)
    requires InboxOk(lane, slot)
    ensures RequestsIn(lane) == One(HasRequest(lane)) && ResponsesIn(lane) == One(HasResponse(lane))
  {
    if |lane| > 0 { assert |lane[..|lane| - 1]| == |lane| - 1; }
    if |lane| == 2 { assert lane[..1][..0] == []; }
  }

  lemma ConservedBalances(a: seq<Tag>, b: seq<Tag>, router: Option<RequestKind>, modem: Option<RequestKind>,
                          deferred: bool)
    requires InboxOk(b, router) && InboxOk(a, modem) && Conserved(a, b, router, modem, deferred)
    ensures Balanced(a, b, router, modem, deferred)
  {
    LaneCounts(a, modem);
    LaneCounts(b, router);
  }

  /** Requests are conserved: while both sides take part, every open slot is
      accounted for by exactly one message in flight or one deferred answer, of
      the slot's kind, and every transaction message in flight by a slot. */
  lemma RequestsConserved(rc: SessionConfig, mc: SessionConfig, moves: seq<Move>, scope: Scope)
    requires Compatible(rc, mc)
    ensures var sys := Reached(rc, mc, moves);
            Listening(sys.router.phase) && sys.modem.phase.InSession? ==>
              Balanced(Lane(sys.toModem, scope), Lane(sys.toRouter, scope), Slot(sys.router.tx, scope),
                       Slot(sys.modem.tx, scope), Deferred(sys.modem, scope))
  {
    var sys := Reached(rc, mc, moves);
    hide Compatible, Reached, SidesOk, ToModemOk, ToRouterOk, MirrorOk, AddressesOk;
    assert LaneOk(sys, scope);
    hide SystemInv, Lane, Conserved, InboxOk, Balanced;
    if Listening(sys.router.phase) && sys.modem.phase.InSession? {
      ConservedBalances(Lane(sys.toModem, scope), Lane(sys.toRouter, scope), Slot(sys.router.tx, scope),
                        Slot(sys.modem.tx, scope), Deferred(sys.modem, scope));
    }
  }
}
