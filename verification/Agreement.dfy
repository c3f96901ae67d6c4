/** The invariant of the composed system holds in every reachable state. */
module Agreement {
  import opened Types
  import opened Addresses
  import opened Messages
  import opened Transactions
  import opened Validation
  import opened Conformance
  import opened Session
  import opened RouterSpec
  import opened ModemSpec
  import opened ProtocolSpec
  import opened Exchange
  import RouterInvariant
  import ModemInvariant
  import RouterPlay
  import ModemPlay

  // --- Router turns ---------------------------------------------------------

  function AfterRouter(sys: System, rest: seq<Message>, t: Router, out: seq<Message>): System {
    System(t, sys.modem, sys.toModem + out, rest)
  }

  lemma RouterLaneKept(sys: System, taken: seq<Message>, rest: seq<Message>, t: Router, out: seq<Message>, scope: Scope)
    requires sys.toRouter == taken + rest && Listening(sys.router.phase) && LaneOk(sys, scope)
    requires RouterTurn(Lane(taken, scope), Lane(out, scope), Slot(sys.router.tx, scope), Slot(t.tx, scope))
    requires scope.DestinationScope? && sys.modem.phase.InSession? ==>
               Fits(sys.modem, scope.mac, Lane(sys.toModem, scope) + Lane(out, scope))
    ensures LaneOk(AfterRouter(sys, rest, t, out), scope)
  {
    LaneConcat(taken, rest, scope);
    LaneConcat(sys.toModem, out, scope);
    hide Lane, InboxOk, Conserved, RouterTurn, Fits;
    RouterExchange(Lane(sys.toModem, scope), Lane(taken, scope), Lane(rest, scope), Lane(out, scope),
                   Slot(sys.router.tx, scope), Slot(t.tx, scope), Slot(sys.modem.tx, scope),
                   Deferred(sys.modem, scope));
  }

  /** Without transaction messages in the queue, nothing appears or disappears. */
  lemma {:induction false} PresenceKept(f: Mirror, q: seq<Message>, mac: MacAddress)
    requires Lane(q, DestinationScope(mac)) == [] && ReflectAll(f, q, mac).Mirror?
    ensures f.Mirror? && f.dest.Some? == ReflectAll(f, q, mac).dest.Some?
  {
    if |q| > 0 {
      var front, last := q[..|q| - 1], q[|q| - 1];
      assert Lane(front, DestinationScope(mac)) == [] && TagOf(last, DestinationScope(mac)) == [];
      hide Merge, ExtractMac, ExtractStatus;
      PresenceKept(f, front, mac);
    }
  }

  /** What the modem's own slot for a destination says about the destination. */
  ghost predicate SlotFits(m: Modem, mac: MacAddress) {
    && (mac in m.tx.perDestination ==>
          && mac in m.destinations
          && (if m.destinations[mac].announced then m.tx.perDestination[mac] == DestinationDown
              else m.tx.perDestination[mac] == DestinationUp))
    && (mac in m.pendingLinks ==>
          mac in m.destinations && m.destinations[mac].announced && mac !in m.tx.perDestination)
  }

  lemma TagFits(m: Modem, mac: MacAddress, a: seq<Tag>, c: seq<Tag>, rest: seq<Tag>, o: seq<Tag>,
                before: Option<RequestKind>, after: Option<RequestKind>)
    requires SlotFits(m, mac)
    requires InboxOk(c + rest, before) && InboxOk(a, Slot(m.tx, DestinationScope(mac)))
    requires Conserved(a, c + rest, before, Slot(m.tx, DestinationScope(mac)), mac in m.pendingLinks)
    requires RouterTurn(c, o, before, after) && Fits(m, mac, a)
    requires c + rest == [] && |o| == 1 && o[0].Request? ==> (o[0].kind == DestinationAnnounce <==> !Expects(m, mac))
    ensures Fits(m, mac, a + o)
  {
    Split(c, rest, before);
    if o == [] {
      assert a + o == a;
    } else if o[0].Response? {
      assert a == [];
      assert a + o == o;
    } else if a == [] {
      assert a + o == o;
    } else {
      assert |a| == 1 && a[0].Response?;
      assert a + o == [a[0], o[0]];
    }
  }

  /** The router holds just what the modem expects, if nothing is under way. */
  lemma Present(sys: System, rest: seq<Message>, t: Router, mac: MacAddress)
    requires Lane(rest, DestinationScope(mac)) == []
    requires var f := ReflectAll(MirrorOf(t, mac), rest, mac); Matches(f, sys.modem, mac)
    ensures mac in t.destinations <==> Expects(sys.modem, mac)
  {
    PresenceKept(MirrorOf(t, mac), rest, mac);
  }

  /** A request the router may make suits the modem, or crosses one of its own. */
  lemma RequestFits(sys: System, taken: seq<Message>, rest: seq<Message>, t: Router, out: seq<Message>, mac: MacAddress)
    requires sys.toRouter == taken + rest && Listening(sys.router.phase) && sys.modem.phase.InSession?
    requires LaneOk(sys, DestinationScope(mac)) && MirrorOk(sys, mac)
    requires SlotFits(sys.modem, mac)
    requires mac in t.tx.perDestination ==>
               (t.tx.perDestination[mac] == DestinationAnnounce <==> mac !in t.destinations)
    requires var scope := DestinationScope(mac);
             RouterTurn(Lane(taken, scope), Lane(out, scope), Slot(sys.router.tx, scope), Slot(t.tx, scope))
    requires MirrorOf(t, mac) == ReflectAll(MirrorOf(sys.router, mac), taken, mac)
    ensures Fits(sys.modem, mac, Lane(sys.toModem, DestinationScope(mac)) + Lane(out, DestinationScope(mac)))
  {
    var scope := DestinationScope(mac);
    var a, c, rb, o := Lane(sys.toModem, scope), Lane(taken, scope), Lane(rest, scope), Lane(out, scope);
    LaneConcat(taken, rest, scope);
    ReflectConcat(MirrorOf(sys.router, mac), taken, rest, mac);
    hide Lane, ReflectAll, MirrorOf, Matches, Fits, InboxOk, Conserved, Expects, SlotFits;
    if c + rb == [] && |o| == 1 && o[0].Request? {
      assert rb == [];
      Present(sys, rest, t, mac);
    }
    TagFits(sys.modem, mac, a, c, rb, o, Slot(sys.router.tx, scope), Slot(t.tx, scope));
  }

  lemma RouterMirrorKept(sys: System, taken: seq<Message>, rest: seq<Message>, t: Router, out: seq<Message>,
                         mac: MacAddress)
    requires sys.toRouter == taken + rest && Listening(sys.router.phase) && MirrorOk(sys, mac)
    requires MirrorOf(t, mac) == ReflectAll(MirrorOf(sys.router, mac), taken, mac)
    ensures MirrorOk(AfterRouter(sys, rest, t, out), mac)
  {
    ReflectConcat(MirrorOf(sys.router, mac), taken, rest, mac);
    hide ReflectAll, MirrorOf, Matches;
  }

  lemma RouterAddressesKept(sys: System, taken: seq<Message>, rest: seq<Message>, t: Router, out: seq<Message>)
    requires sys.toRouter == taken + rest && Listening(sys.router.phase) && AddressesOk(sys)
    requires Readdress(Some(sys.router.peerAddresses), taken) == Some(t.peerAddresses)
    requires Readdress(Some(sys.router.localAddresses), out) == Some(t.localAddresses)
    ensures AddressesOk(AfterRouter(sys, rest, t, out))
  {
    ReaddressConcat(Some(sys.router.peerAddresses), taken, rest);
    ReaddressConcat(Some(sys.modem.peerAddresses), sys.toModem, out);
    hide Readdress;
  }

  lemma RouterQueuesKept(sys: System, taken: seq<Message>, rest: seq<Message>, t: Router, out: seq<Message>)
    requires sys.toRouter == taken + rest && Listening(sys.router.phase) && ToModemOk(sys) && ToRouterOk(sys)
    requires Compatible(sys.router.config, sys.modem.config) && t.config == sys.router.config
    requires RouterPlay.Speaks(out, t.config.macFormat)
    requires sys.router.phase.Initializing? ==> out == []
    requires t.phase.InSession? ==>
               t.metricTypes == SupportTypes(sys.modem.config.initialMetrics) && !sys.modem.phase.Initializing?
    requires t.phase.Initializing? ==> sys.router.phase.Initializing? && taken == []
    requires t.phase.InSession? && sys.router.phase.Initializing? ==> |taken| == 1
    ensures ToModemOk(AfterRouter(sys, rest, t, out)) && ToRouterOk(AfterRouter(sys, rest, t, out))
  {
    hide GoodForModem, GoodForRouter, Affirmative, BuildInitialization, BuildInitializationResponse, SupportTypes,
         ConfigEncodable;
    assert taken == [] ==> rest == sys.toRouter;
    assert out == [] ==> sys.toModem + out == sys.toModem;
    assert forall i :: 0 <= i < |rest| ==> rest[i] == sys.toRouter[|taken| + i];
    if sys.modem.phase.Initializing? {
      assert sys.router.phase.Initializing?;
      assert rest == [];
    }
  }

  lemma ModemFitsSlots(m: Modem, mac: MacAddress)
    requires ModemInv(m)
    ensures SlotFits(m, mac)
  {
    ModemInvariant.SlotsOf(m);
    hide ModemInv;
  }

  lemma RouterSlotKind(t: Router, mac: MacAddress)
    requires RouterInv(t)
    ensures mac in t.tx.perDestination ==>
              (t.tx.perDestination[mac] == DestinationAnnounce <==> mac !in t.destinations)
  {
    hide RouterLive, RouterOwnership;
  }

  /** A turn of a listening router keeps the invariant. */
  lemma RouterKeeps(sys: System, taken: seq<Message>, rest: seq<Message>, t: Router, out: seq<Message>)
    requires SystemInv(sys) && sys.toRouter == taken + rest && Listening(sys.router.phase) && Listening(t.phase)
    requires RouterInv(t) && RouterPlay.Exchanges(sys.router, taken, t, out)
    requires sys.router.phase.Initializing? ==> out == []
    requires t.phase.InSession? ==>
               t.metricTypes == SupportTypes(sys.modem.config.initialMetrics) && !sys.modem.phase.Initializing?
    requires t.phase.Initializing? ==> sys.router.phase.Initializing? && taken == []
    requires t.phase.InSession? && sys.router.phase.Initializing? ==> |taken| == 1
    ensures SystemInv(AfterRouter(sys, rest, t, out))
  {
    hide LaneOk, MirrorOk, AddressesOk, ToModemOk, ToRouterOk, RouterInv, ModemInv, RouterTurn, Lane, Slot, MirrorOf,
         ReflectAll, Readdress, RouterPlay.Speaks, SupportTypes, Compatible, Fits, SlotFits, Load;
    var after := AfterRouter(sys, rest, t, out);
    RouterQueuesKept(sys, taken, rest, t, out);
    RouterAddressesKept(sys, taken, rest, t, out);
    forall scope ensures LaneOk(after, scope) {
      if scope.DestinationScope? && sys.modem.phase.InSession? {
        ModemFitsSlots(sys.modem, scope.mac);
        RouterSlotKind(t, scope.mac);
        assert MirrorOk(sys, scope.mac);
        RequestFits(sys, taken, rest, t, out, scope.mac);
      }
      assert LaneOk(sys, scope);
      RouterLaneKept(sys, taken, rest, t, out, scope);
    }
    forall mac ensures MirrorOk(after, mac) {
      assert MirrorOk(sys, mac);
      RouterMirrorKept(sys, taken, rest, t, out, mac);
    }
  }

  /** Words that only end the session leave the modem's books alone. */
  lemma {:induction false} FarewellLane(out: seq<Message>, scope: Scope)
    requires RouterPlay.Farewell(out)
    ensures Lane(out, scope) == []
  {
    if |out| == 1 {
      LaneOne(out[0], scope);
      NeutralTag(out[0], scope);
      assert out == [out[0]];
    }
  }

  lemma FarewellReaddress(peer: DestinationAddrs, out: seq<Message>)
    requires RouterPlay.Farewell(out)
    ensures Readdress(Some(peer), out) == Some(peer)
  {
    if |out| == 1 {
      ReaddressOne(peer, out[0]);
      assert out == [out[0]];
    }
  }

  lemma GoodbyeGood(out: seq<Message>, format: MacAddressFormat)
    requires RouterPlay.Goodbye(out, format)
    ensures forall i :: 0 <= i < |out| ==> GoodForModem(out[i], format) && Affirmative(out[i])
  {
    hide GoodForModem;
  }

  /** A router that stops listening keeps the invariant. */
  lemma RouterLeaves(sys: System, rest: seq<Message>, t: Router, out: seq<Message>)
    requires SystemInv(sys) && RouterInv(t) && !t.phase.Unconnected?
    requires rest == sys.toRouter || (sys.toRouter != [] && rest == sys.toRouter[1..])
    requires RouterPlay.Quits(sys.router, t, out)
    requires sys.modem.phase.Initializing? ==> out == []
    requires sys.modem.phase.InSession? ==> RouterPlay.Goodbye(out, t.config.macFormat)
    ensures SystemInv(AfterRouter(sys, rest, t, out))
  {
    var after := AfterRouter(sys, rest, t, out);
    if sys.modem.phase.InSession? { GoodbyeGood(out, t.config.macFormat); }
    assert t.config.macFormat == sys.modem.config.macFormat by { hide RouterInv, ModemInv; }
    hide RouterInv, ModemInv, Compatible, GoodForModem, GoodForRouter, Affirmative, RouterPlay.Farewell,
         ConfigEncodable, BuildInitialization, BuildInitializationResponse, Readdress, Lane, InboxOk, Fits, Conserved,
         SupportTypes, Matches, ReflectAll, MirrorOf, Slot;
    assert out == [] ==> sys.toModem + out == sys.toModem;
    assert Compatible(t.config, sys.modem.config);
    forall scope ensures LaneOk(after, scope) {
      assert LaneOk(sys, scope);
      LaneConcat(sys.toModem, out, scope);
      FarewellLane(out, scope);
      assert Lane(sys.toModem, scope) + [] == Lane(sys.toModem, scope);
    }
    assert AddressesOk(after) by {
      ReaddressConcat(Some(sys.modem.peerAddresses), sys.toModem, out);
      if sys.modem.phase.InSession? {
        FarewellReaddress(Readdress(Some(sys.modem.peerAddresses), sys.toModem).value, out);
      }
    }
    assert ToModemOk(after);
    assert ToRouterOk(after);
  }

  // --- Modem turns ----------------------------------------------------------

  function AfterModem(sys: System, rest: seq<Message>, t: Modem, out: seq<Message>): System {
    System(sys.router, t, rest, sys.toRouter + out)
  }

  /** Consuming or acting leaves the next request fitting. */
  lemma FitsKept(m: Modem, t: Modem, mac: MacAddress, c: seq<Tag>, rest: seq<Tag>, o: seq<Tag>)
    requires InboxOk(c + rest, Slot(m.tx, DestinationScope(mac))) && Fits(m, mac, c + rest)
    requires ModemTurn(c, o, Slot(m.tx, DestinationScope(mac)), Slot(t.tx, DestinationScope(mac)),
                       mac in m.pendingLinks, mac in t.pendingLinks)
    requires ModemPlay.Follows(m, t, mac, c) && SlotFits(m, mac)
    ensures Fits(t, mac, rest)
  {
    Split(c, rest, Slot(m.tx, DestinationScope(mac)));
    if |c| == 1 && c[0].Response? && rest != [] {
      assert c + rest == [c[0], rest[0]];
      assert c == [c[0]];
    }
  }

  lemma ModemLaneKept(sys: System, taken: seq<Message>, rest: seq<Message>, t: Modem, out: seq<Message>, scope: Scope)
    requires sys.toModem == taken + rest && sys.modem.phase.InSession? && LaneOk(sys, scope)
    requires ModemPlay.TurnAt(sys.modem, taken, t, out, scope)
    requires scope.DestinationScope? ==>
               ModemPlay.Follows(sys.modem, t, scope.mac, Lane(taken, scope)) && SlotFits(sys.modem, scope.mac)
    ensures LaneOk(AfterModem(sys, rest, t, out), scope)
  {
    LaneConcat(taken, rest, scope);
    LaneConcat(sys.toRouter, out, scope);
    hide Lane, InboxOk, Conserved, ModemTurn, Fits, ModemPlay.Follows, SlotFits;
    var c, r, o := Lane(taken, scope), Lane(rest, scope), Lane(out, scope);
    ModemExchange(c, r, Lane(sys.toRouter, scope), o, Slot(sys.router.tx, scope), Slot(sys.modem.tx, scope),
                  Slot(t.tx, scope), Deferred(sys.modem, scope), Deferred(t, scope));
    if scope.DestinationScope? { FitsKept(sys.modem, t, scope.mac, c, r, o); }
  }

  lemma ModemMirrorKept(sys: System, rest: seq<Message>, t: Modem, out: seq<Message>, mac: MacAddress)
    requires sys.modem.phase.InSession? && MirrorOk(sys, mac) && ModemPlay.Reflects(sys.modem, t, out, mac)
    ensures MirrorOk(AfterModem(sys, rest, t, out), mac)
  {
    ReflectConcat(MirrorOf(sys.router, mac), sys.toRouter, out, mac);
    hide ReflectAll, MirrorOf;
  }

  lemma ModemAddressesKept(sys: System, taken: seq<Message>, rest: seq<Message>, t: Modem, out: seq<Message>)
    requires sys.toModem == taken + rest && sys.modem.phase.InSession? && AddressesOk(sys)
    requires Readdress(Some(sys.modem.peerAddresses), taken) == Some(t.peerAddresses)
    requires Readdress(Some(sys.modem.localAddresses), out) == Some(t.localAddresses)
    ensures AddressesOk(AfterModem(sys, rest, t, out))
  {
    ReaddressConcat(Some(sys.modem.peerAddresses), taken, rest);
    ReaddressConcat(Some(sys.router.peerAddresses), sys.toRouter, out);
    hide Readdress;
  }

  lemma ModemQueuesKept(sys: System, taken: seq<Message>, rest: seq<Message>, t: Modem, out: seq<Message>)
    requires sys.toModem == taken + rest && sys.modem.phase.InSession? && ToModemOk(sys) && ToRouterOk(sys)
    requires Compatible(sys.router.config, sys.modem.config) && t.config == sys.modem.config && t.phase.InSession?
    requires ModemPlay.Speaks(out, t.config)
    ensures ToModemOk(AfterModem(sys, rest, t, out)) && ToRouterOk(AfterModem(sys, rest, t, out))
  {
    hide GoodForModem, GoodForRouter, Affirmative, BuildInitialization, BuildInitializationResponse, SupportTypes,
         ConfigEncodable;
    assert forall i :: 0 <= i < |rest| ==> rest[i] == sys.toModem[|taken| + i];
    assert sys.toModem == [] ==> rest == [];
  }

  /** A turn of the modem in session keeps the invariant. */
  lemma ModemKeeps(sys: System, taken: seq<Message>, rest: seq<Message>, t: Modem, out: seq<Message>)
    requires SystemInv(sys) && sys.toModem == taken + rest && sys.modem.phase.InSession?
    requires ModemInv(t) && ModemPlay.Plays(sys.modem, taken, t, out)
    ensures SystemInv(AfterModem(sys, rest, t, out))
  {
    hide LaneOk, MirrorOk, AddressesOk, ToModemOk, ToRouterOk, RouterInv, ModemInv, ModemPlay.TurnAt, Lane, Slot,
         MirrorOf, ReflectAll, Readdress, ModemPlay.Speaks, SupportTypes, Compatible, Fits, SlotFits, Load,
         ModemPlay.Follows, ModemPlay.Reflects;
    var after := AfterModem(sys, rest, t, out);
    ModemQueuesKept(sys, taken, rest, t, out);
    ModemAddressesKept(sys, taken, rest, t, out);
    forall scope ensures LaneOk(after, scope) {
      assert LaneOk(sys, scope);
      assert ModemPlay.TurnAt(sys.modem, taken, t, out, scope);
      if scope.DestinationScope? {
        ModemFitsSlots(sys.modem, scope.mac);
        assert ModemPlay.Follows(sys.modem, t, scope.mac, Lane(taken, DestinationScope(scope.mac)));
      }
      ModemLaneKept(sys, taken, rest, t, out, scope);
    }
    forall mac ensures MirrorOk(after, mac) {
      assert MirrorOk(sys, mac);
      assert ModemPlay.Reflects(sys.modem, t, out, mac);
      ModemMirrorKept(sys, rest, t, out, mac);
    }
  }

  lemma FarewellReflect(f: Mirror, out: seq<Message>, mac: MacAddress)
    requires RouterPlay.Farewell(out)
    ensures ReflectAll(f, out, mac) == f
  {
    if |out| == 1 {
      ReflectOne(f, out[0], mac);
      NeutralReflect(f, out[0], mac);
      assert out == [out[0]];
    }
  }

  /** A modem that stops listening keeps the invariant. */
  lemma ModemLeaves(sys: System, rest: seq<Message>, t: Modem, out: seq<Message>)
    requires SystemInv(sys) && ModemInv(t) && !t.phase.Unconnected?
    requires rest == sys.toModem || (sys.toModem != [] && rest == sys.toModem[1..])
    requires ModemPlay.Quits(sys.modem, t, out)
    requires !sys.modem.phase.InSession? ==> out == []
    requires Listening(sys.router.phase) ==> ModemPlay.Goodbye(out, t.config)
    ensures SystemInv(AfterModem(sys, rest, t, out))
  {
    var after := AfterModem(sys, rest, t, out);
    assert sys.router.config.macFormat == t.config.macFormat by { hide RouterInv, ModemInv; }
    hide RouterInv, ModemInv, Compatible, GoodForModem, GoodForRouter, Affirmative, RouterPlay.Farewell,
         ConfigEncodable, BuildInitialization, BuildInitializationResponse, Readdress, Lane, InboxOk, Fits, Conserved,
         SupportTypes, Matches, ReflectAll, MirrorOf, Slot;
    assert out == [] ==> sys.toRouter + out == sys.toRouter;
    assert Compatible(sys.router.config, t.config);
    forall scope ensures LaneOk(after, scope) {
      assert LaneOk(sys, scope);
      LaneConcat(sys.toRouter, out, scope);
      FarewellLane(out, scope);
      assert Lane(sys.toRouter, scope) + [] == Lane(sys.toRouter, scope);
    }
    assert AddressesOk(after) by {
      ReaddressConcat(Some(sys.router.peerAddresses), sys.toRouter, out);
      if Listening(sys.router.phase) {
        FarewellReaddress(Readdress(Some(sys.router.peerAddresses), sys.toRouter).value, out);
      }
    }
    forall mac ensures MirrorOk(after, mac) {
      assert MirrorOk(sys, mac);
      ReflectConcat(MirrorOf(sys.router, mac), sys.toRouter, out, mac);
      FarewellReflect(ReflectAll(MirrorOf(sys.router, mac), sys.toRouter, mac), out, mac);
    }
    assert ToModemOk(after);
    assert ToRouterOk(after);
  }

  // --- Every move -----------------------------------------------------------

  lemma Parts(sys: System)
    requires SystemInv(sys)
    ensures RouterInv(sys.router) && ModemInv(sys.modem) && RouterSlots(sys.router) && ModemSlots(sys.modem)
    ensures Compatible(sys.router.config, sys.modem.config) && ToModemOk(sys) && ToRouterOk(sys)
    ensures !sys.router.phase.Unconnected? && !sys.modem.phase.Unconnected?
  {
    hide RouterSlots, ModemSlots, ToModemOk, ToRouterOk, LaneOk, MirrorOk, AddressesOk, RouterLive, RouterOwnership,
         ModemLive, ModemData, Compatible;
  }

  ghost predicate RouterStays(sys: System, taken: seq<Message>, t: Router, out: seq<Message>) {
    && Listening(sys.router.phase) && Listening(t.phase) && RouterPlay.Exchanges(sys.router, taken, t, out)
    && (t.phase.InSession? ==>
          t.metricTypes == SupportTypes(sys.modem.config.initialMetrics) && !sys.modem.phase.Initializing?)
    && (t.phase.Initializing? ==> sys.router.phase.Initializing? && taken == [])
    && (t.phase.InSession? && sys.router.phase.Initializing? ==> |taken| == 1)
  }

  ghost predicate RouterEnds(sys: System, t: Router, out: seq<Message>) {
    && RouterPlay.Quits(sys.router, t, out)
    && (sys.modem.phase.InSession? ==> RouterPlay.Goodbye(out, t.config.macFormat))
  }

  /** Either a turn of a listening router, or its end. */
  ghost predicate RouterOutcome(sys: System, taken: seq<Message>, rest: seq<Message>, t: Router, out: seq<Message>) {
    && RouterInv(t) && !t.phase.Unconnected? && t.config == sys.router.config
    && |taken| <= 1 && sys.toRouter == taken + rest
    && (!sys.router.phase.InSession? ==> out == [])
    && (RouterStays(sys, taken, t, out) || RouterEnds(sys, t, out))
  }

  lemma {:induction false} Remainder<T>(q: seq<T>, taken: seq<T>, rest: seq<T>)
    requires q == taken + rest && |taken| <= 1
    ensures rest == q || (q != [] && rest == q[1..])
  {
    if |taken| == 0 { assert taken + rest == rest; }
  }

  lemma RouterGone(t: Router)
    requires RouterInv(t)
    ensures RouterInv(t.(phase := Terminated))
  {
    hide CleanAddrs, DisjointAddrs;
  }

  ghost function RouterResult(sys: System, rest: seq<Message>, t: Router, out: seq<Message>): System {
    if AllEncodable(out) then AfterRouter(sys, rest, t, out) else AfterRouter(sys, rest, t.(phase := Terminated), [])
  }

  lemma RouterOutcomeKeeps(sys: System, taken: seq<Message>, rest: seq<Message>, t: Router, out: seq<Message>)
    requires SystemInv(sys) && RouterOutcome(sys, taken, rest, t, out)
    ensures SystemInv(RouterResult(sys, rest, t, out))
  {
    hide SystemInv, RouterInv, RouterPlay.Exchanges, RouterPlay.Goodbye, AllEncodable, SupportTypes,
         RouterPlay.Farewell;
    Remainder(sys.toRouter, taken, rest);
    SilentBefore(sys);
    if !AllEncodable(out) {
      hide RouterStays, RouterEnds, AfterRouter;
      RouterGone(t);
      NothingSaid();
      RouterLeaves(sys, rest, t.(phase := Terminated), []);
    } else if RouterStays(sys, taken, t, out) {
      RouterKeeps(sys, taken, rest, t, out);
    } else {
      RouterLeaves(sys, rest, t, out);
    }
  }

  lemma NothingSaid()
    ensures RouterPlay.Farewell([])
    ensures forall format :: RouterPlay.Goodbye([], format)
    ensures forall config :: ModemPlay.Goodbye([], config)
  {
  }

  lemma SilentBefore(sys: System)
    requires SystemInv(sys)
    ensures sys.modem.phase.Initializing? ==> !sys.router.phase.InSession?
  {
    hide RouterInv, ModemInv, ToModemOk, LaneOk, MirrorOk, AddressesOk;
  }

  lemma AtRouterOutcome(sys: System, e: Event)
    requires SystemInv(sys) && IsLocal(e)
    ensures var (t, actions) := RouterStep(sys.router, e); RouterOutcome(sys, [], sys.toRouter, t, Sent(actions))
  {
    hide SystemInv, RouterInv, ModemInv, RouterPlay.Exchanges, RouterPlay.Goodbye, Sent, RouterStep, SupportTypes,
         GoodForRouter, RouterSlots, ModemSlots, Compatible, ToModemOk, RouterPlay.Farewell;
    Parts(sys);
    RouterInvariant.RouterStepKeepsInvariant(sys.router, e);
    RouterPlay.StepMoves(sys.router, e);
    assert sys.toRouter == [] + sys.toRouter;
  }

  lemma ToRouterOutcome(sys: System)
    requires SystemInv(sys) && sys.toRouter != []
    ensures var (t, actions) := RouterStep(sys.router, RecvMessage(sys.toRouter[0]));
            RouterOutcome(sys, [sys.toRouter[0]], sys.toRouter[1..], t, Sent(actions))
  {
    hide SystemInv, RouterInv, ModemInv, RouterPlay.Exchanges, RouterPlay.Goodbye, Sent, RouterStep, SupportTypes,
         RouterSlots, ModemSlots, ToModemOk, BuildInitializationResponse, RouterPlay.Farewell, ConfigEncodable;
    Parts(sys);
    var h := sys.toRouter[0];
    RouterInvariant.RouterStepKeepsInvariant(sys.router, RecvMessage(h));
    assert sys.toRouter == [h] + sys.toRouter[1..];
    if sys.router.phase.Initializing? {
      RouterPlay.Establishes(sys.router, sys.modem.config);
    } else if sys.router.phase.InSession? {
      RouterPlay.ReceivePlays(sys.router, h);
    } else {
      RouterPlay.DeafRouter(sys.router, h);
    }
  }

  ghost predicate ModemEnds(sys: System, t: Modem, out: seq<Message>) {
    && ModemPlay.Quits(sys.modem, t, out)
    && (Listening(sys.router.phase) ==> ModemPlay.Goodbye(out, t.config))
  }

  /** A turn in session, the end, or nothing at all while waiting. */
  ghost predicate ModemOutcome(sys: System, taken: seq<Message>, rest: seq<Message>, t: Modem, out: seq<Message>) {
    && ModemInv(t) && !t.phase.Unconnected? && t.config == sys.modem.config
    && |taken| <= 1 && sys.toModem == taken + rest
    && (!sys.modem.phase.InSession? ==> out == [])
    && (|| (sys.modem.phase.InSession? && ModemPlay.Plays(sys.modem, taken, t, out))
        || (sys.modem.phase.Initializing? && t.phase.Initializing? && taken == [])
        || ModemEnds(sys, t, out))
  }

  lemma ModemGone(t: Modem)
    requires ModemInv(t)
    ensures ModemInv(t.(phase := Terminated))
  {
    hide CleanAddrs, SameAddrs;
  }

  ghost function ModemResult(sys: System, rest: seq<Message>, t: Modem, out: seq<Message>): System {
    if AllEncodable(out) then AfterModem(sys, rest, t, out) else AfterModem(sys, rest, t.(phase := Terminated), [])
  }

  /** While the modem waits for the handshake its other fields do not matter. */
  lemma ModemWaits(sys: System, t: Modem)
    requires SystemInv(sys) && ModemInv(t) && t.config == sys.modem.config
    requires sys.modem.phase.Initializing? && t.phase.Initializing?
    ensures SystemInv(sys.(modem := t))
  {
    var after := sys.(modem := t);
    hide RouterInv, ModemInv, Compatible, GoodForModem, GoodForRouter, Affirmative, ConfigEncodable,
         BuildInitialization, BuildInitializationResponse, Readdress, Lane, InboxOk, Fits, Conserved, SupportTypes,
         Matches, ReflectAll, MirrorOf, Slot;
    forall scope ensures LaneOk(after, scope) { assert LaneOk(sys, scope); }
    forall mac ensures MirrorOk(after, mac) { assert MirrorOk(sys, mac); }
  }

  lemma ModemOutcomeKeeps(sys: System, taken: seq<Message>, rest: seq<Message>, t: Modem, out: seq<Message>)
    requires SystemInv(sys) && ModemOutcome(sys, taken, rest, t, out)
    ensures SystemInv(ModemResult(sys, rest, t, out))
  {
    hide SystemInv, ModemInv, ModemPlay.Plays, ModemPlay.Goodbye, AllEncodable, RouterPlay.Farewell;
    Remainder(sys.toModem, taken, rest);
    if !AllEncodable(out) {
      hide ModemEnds, AfterModem;
      ModemGone(t);
      NothingSaid();
      ModemLeaves(sys, rest, t.(phase := Terminated), []);
    } else if sys.modem.phase.InSession? && ModemPlay.Plays(sys.modem, taken, t, out) {
      ModemKeeps(sys, taken, rest, t, out);
    } else if ModemEnds(sys, t, out) {
      ModemLeaves(sys, rest, t, out);
    } else {
      assert AfterModem(sys, rest, t, out) == sys.(modem := t) by {
        assert sys.toRouter + [] == sys.toRouter;
      }
      ModemWaits(sys, t);
    }
  }

  lemma AtModemOutcome(sys: System, e: Event)
    requires SystemInv(sys) && IsLocal(e)
    ensures var (t, actions) := ModemStep(sys.modem, e); ModemOutcome(sys, [], sys.toModem, t, Sent(actions))
  {
    hide SystemInv, RouterInv, ModemInv, ModemPlay.Goodbye, Sent, ModemStep, RouterSlots, ModemSlots, ToModemOk,
         ToRouterOk, RouterPlay.Farewell, ConfigEncodable, ModemPlay.Plays;
    Parts(sys);
    ModemInvariant.ModemStepKeepsInvariant(sys.modem, e);
    ModemPlay.StepMoves(sys.modem, e);
    var (t, actions) := ModemStep(sys.modem, e);
    if ModemPlay.Plays(sys.modem, [], t, Sent(actions)) { SamePhase(sys.modem, [], t, Sent(actions)); }
    assert sys.toModem == [] + sys.toModem;
  }

  lemma SamePhase(m: Modem, taken: seq<Message>, t: Modem, out: seq<Message>)
    requires ModemPlay.Plays(m, taken, t, out)
    ensures t.phase == m.phase
  {
  }

  lemma ToModemOutcome(sys: System)
    requires SystemInv(sys) && sys.toModem != [] && !sys.modem.phase.Initializing?
    ensures var (t, actions) := ModemStep(sys.modem, RecvMessage(sys.toModem[0]));
            ModemOutcome(sys, [sys.toModem[0]], sys.toModem[1..], t, Sent(actions))
  {
    hide SystemInv, RouterInv, ModemInv, ModemPlay.Plays, ModemPlay.Goodbye, Sent, ModemStep, RouterSlots, ModemSlots,
         ToRouterOk, RouterPlay.Farewell, ConfigEncodable;
    Parts(sys);
    var h := sys.toModem[0];
    ModemInvariant.ModemStepKeepsInvariant(sys.modem, RecvMessage(h));
    assert sys.toModem == [h] + sys.toModem[1..];
    if sys.modem.phase.InSession? {
      ModemPlay.ReceivePlays(sys.modem, h);
    } else {
      ModemPlay.DeafModem(sys.modem, h);
    }
  }

  // --- The modem joins the session ------------------------------------------

  lemma JoinedLane(sys: System, t: Modem, scope: Scope)
    requires sys.toModem == [] && t.tx == IDLE && t.pendingLinks == {}
    requires sys.toRouter == [BuildInitializationResponse(t.config)] && sys.modem == t
    requires Listening(sys.router.phase) ==> sys.router.tx == IDLE
    ensures LaneOk(sys, scope)
  {
    LaneOne(sys.toRouter[0], scope);
    assert sys.toRouter[0].messageType == SESSION_INITIALIZATION_RESPONSE;
    hide BuildInitializationResponse, ExtractMac;
    assert Lane(sys.toRouter, scope) == [] && Lane(sys.toModem, scope) == [];
  }

  lemma JoinedMirror(sys: System, mac: MacAddress)
    requires sys.toRouter == [BuildInitializationResponse(sys.modem.config)] && ConfigEncodable(sys.modem.config)
    requires sys.modem.destinations == map[] && sys.modem.sessionMetrics == sys.modem.config.initialMetrics
    requires Listening(sys.router.phase) ==>
               sys.router.destinations == map[] && sys.router.sessionMetrics == DEFAULT_METRICS
    ensures MirrorOk(sys, mac)
  {
    var msg := sys.toRouter[0];
    InitializationResponseGood(sys.modem.config, []);
    RouterPlay.Named(sys.modem.config);
    hide BuildInitializationResponse, ConfigEncodable, ExtractMac, Merge, ValidateMessage, FromItems, MetricTypes,
         ExtractHeartbeat, ExtractStatus, FatalStatus;
    ReflectOne(MirrorOf(sys.router, mac), msg, mac);
  }

  lemma JoinedAddresses(sys: System)
    requires sys.toRouter == [BuildInitializationResponse(sys.modem.config)] && sys.toModem == []
    requires sys.modem.peerAddresses == NO_ADDRS && sys.modem.localAddresses == NO_ADDRS
    requires Listening(sys.router.phase) ==>
               sys.router.peerAddresses == NO_ADDRS && sys.router.localAddresses == NO_ADDRS
    ensures AddressesOk(sys)
  {
    ReaddressOne(sys.router.peerAddresses, sys.toRouter[0]);
  }

  lemma FreshRouter(sys: System)
    requires SystemInv(sys) && sys.modem.phase.Initializing?
    ensures !sys.router.phase.InSession?
    ensures sys.router.phase.Initializing? ==> RouterSpec.Blank(sys.router)
    ensures ModemSpec.Blank(sys.modem)
  {
    SilentBefore(sys);
    Parts(sys);
    hide SystemInv, RouterSlots, RouterOwnership, ModemSlots, ModemData, Compatible, ToModemOk, ToRouterOk;
  }

  lemma ModemJoins(sys: System, t: Modem)
    requires SystemInv(sys) && sys.modem.phase.Initializing?
    requires t == sys.modem.(phase := InSession, peerHeartbeat := t.peerHeartbeat, peerExtensions := t.peerExtensions)
    requires ModemInv(t)
    ensures SystemInv(AfterModem(sys, [], t, [BuildInitializationResponse(t.config)]))
  {
    Parts(sys);
    FreshRouter(sys);
    var after := AfterModem(sys, [], t, [BuildInitializationResponse(t.config)]);
    assert sys.toRouter == [] by { hide SystemInv, ToRouterOk, RouterSlots, ModemSlots; }
    hide SystemInv, RouterInv, ModemInv, RouterSlots, ModemSlots, ConfigEncodable, BuildInitializationResponse,
         GoodForModem, GoodForRouter, LaneOk, MirrorOk, AddressesOk, SupportTypes;
    RouterPlay.Named(t.config);
    assert after.toRouter == [BuildInitializationResponse(t.config)];
    forall scope ensures LaneOk(after, scope) { JoinedLane(after, t, scope); }
    forall mac ensures MirrorOk(after, mac) { JoinedMirror(after, mac); }
    JoinedAddresses(after);
    assert ToModemOk(after) && ToRouterOk(after);
    hide ToModemOk, ToRouterOk;
    Assembled(after);
  }

  lemma Assembled(sys: System)
    requires SidesOk(sys) && ToModemOk(sys) && ToRouterOk(sys) && AddressesOk(sys)
    requires (forall scope :: LaneOk(sys, scope)) && (forall mac :: MirrorOk(sys, mac))
    ensures SystemInv(sys)
  {
    hide SidesOk, ToModemOk, ToRouterOk, AddressesOk, LaneOk, MirrorOk;
  }
}
