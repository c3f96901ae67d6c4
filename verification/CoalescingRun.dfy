/** Two runs of the composed system that differ only in when the router's answer to
    a Destination Up arrives, and leave the router with different addresses. The
    modem takes an address away and gives it back: sent as two updates the router
    refuses it the second time, because the peer holds it by then; held back, it
    never learns (crates/dlep-fsm/src/session_router.rs:685-723,
    crates/dlep-fsm/src/session_modem.rs:345-373).
 */
module CoalescingRun {
  import opened Types
  import opened Addresses
  import opened Messages
  import opened Transactions
  import opened Validation
  import opened Conformance
  import opened Session
  import opened RouterSpec
  import opened ModemSpec
  import opened ProtocolSpec
  import opened Agreement
  import opened Protocol
  import Coalescing
  import RouterPlay
  import ModemPlay

  // --- One address ----------------------------------------------------------

  function Only(x: u32): DestinationAddrs { NO_ADDRS.(v4 := [x]) }
  function Adding(x: u32): AddressChanges { AddressChanges(Only(x), NO_ADDRS) }
  function Removing(x: u32): AddressChanges { AddressChanges(NO_ADDRS, Only(x)) }

  lemma OnlyIsClean(x: u32)
    ensures CleanAddrs(Only(x)) && CleanAddrs(NO_ADDRS)
    ensures CanonicalAddrs(Only(x)) == Only(x) && CanonicalAddrs(NO_ADDRS) == NO_ADDRS
    ensures Canonical(Removing(x)) == Removing(x) && Canonical(Adding(x)) == Adding(x)
  {
    CanonicalFixed(Only(x));
    CanonicalFixed(NO_ADDRS);
    hide CanonicalAddrs;
  }

  lemma OneApplied<T>(x: T, taken: set<T>)
    ensures Apply([x], [], [x]) == [] && Apply([], [x], []) == [x] && Apply<T>([], [], []) == []
    ensures RetainFree([x], [], taken) == if x in taken then [] else [x]
    ensures RetainFree<T>([], [], taken) == [] && RetainFree([], [x], taken) == []
    ensures Minus([x], []) == [x] && Minus([], [x]) == [] && Minus<T>([], []) == [] && Minus([x], [x]) == []
  {
    assert [x][..0] == [];
    assert Keep([x][..0], [], [x]) == [] && Keep([], [x], []) == [];
    var none: seq<T> := [];
    assert PushNew(none, [x][..0], []) == none;
    assert RetainFree([x][..0], [], taken) == [];
    assert Minus([x][..0], []) == [] && Minus([x][..0], [x]) == [];
  }

  lemma NoneApplied<T>(taken: set<T>)
    ensures Apply<T>([], [], []) == [] && RetainFree<T>([], [], taken) == [] && Minus<T>([], []) == []
  {
  }

  lemma OnlyApplied(x: u32)
    ensures ApplyLenient(Removing(x), Only(x)) == NO_ADDRS && ApplyLenient(Adding(x), NO_ADDRS) == Only(x)
    ensures Between(Only(x), NO_ADDRS) == Removing(x) && Between(NO_ADDRS, Only(x)) == Adding(x)
    ensures Between(Only(x), Only(x)) == NO_CHANGES
  {
    hide Apply, Canonical, RetainFree, Minus;
    OnlyIsClean(x);
    OneApplied(x, {});
    NoneApplied<u128>({});
    NoneApplied<Ipv4Net>({});
    NoneApplied<Ipv6Net>({});
  }

  lemma OnlyValid(x: u32)
    ensures Validate(Adding(x)) && Validate(Removing(x)) && ApplyStrict(Adding(x), NO_ADDRS) == Some(Only(x))
  {
    hide ApplyLenient, Canonical;
    OnlyIsClean(x);
    OnlyApplied(x);
  }

  // --- Short messages -------------------------------------------------------

  lemma OnlyListed(add: bool, x: u32)
    ensures Listing(add, Only(x)) == [Ipv4Address(add, x)] && Listing(add, NO_ADDRS) == []
  {
  }

  lemma ChangeListed(x: u32)
    ensures ChangeItems(Adding(x)) == [Ipv4Address(true, x)] && ChangeItems(Removing(x)) == [Ipv4Address(false, x)]
  {
    OnlyIsClean(x);
    hide Listing, CanonicalAddrs;
    OnlyListed(true, x);
    OnlyListed(false, x);
  }

  /** The messages of the two runs. */
  function Up(mac: MacAddress, m: LinkMetrics, x: u32): Message { BuildDestinationUp(mac, m, Only(x)) }
  function Told(mac: MacAddress,
                c: AddressChanges): Message { Message(DESTINATION_UPDATE, [Mac(mac)] + ChangeItems(c)) }

  lemma UpFits(mac: MacAddress, m: LinkMetrics, x: u32)
    requires MetricsEncodable(m)
    ensures MessageEncodable(Up(mac, m, x)) && MessageEncodable(BuildDestinationUp(mac, m, NO_ADDRS))
    ensures MessageEncodable(BuildSessionUpdate(m))
  {
    MetricsFit(m);
    OnlyListed(true, x);
    hide Listing, MetricItems, MessageEncodable;
    ShortFits(Up(mac, m, x));
    ShortFits(BuildDestinationUp(mac, m, NO_ADDRS));
    ShortFits(BuildSessionUpdate(m));
  }

  lemma RestFits(mac: MacAddress, x: u32)
    ensures MessageEncodable(BuildAddressUpdate(Adding(x)))
    ensures MessageEncodable(Told(mac, Adding(x))) && MessageEncodable(Told(mac, Removing(x)))
    ensures MessageEncodable(BuildDestinationUpResponse(mac, SUCCESS))
    ensures MessageEncodable(BuildSessionUpdateResponse(SUCCESS))
  {
    ChangeListed(x);
    hide ChangeItems, MessageEncodable;
    ShortFits(BuildAddressUpdate(Adding(x)));
    ShortFits(Told(mac, Adding(x)));
    ShortFits(Told(mac, Removing(x)));
    ShortFits(BuildDestinationUpResponse(mac, SUCCESS));
    ShortFits(BuildSessionUpdateResponse(SUCCESS));
  }

  lemma Reads(mac: MacAddress, m: LinkMetrics, x: u32)
    ensures FromItems(Up(mac, m, x).items) == Adding(x) && ExtractMac(Up(mac, m, x).items) == Some(mac)
    ensures FromItems(BuildAddressUpdate(Adding(x)).items) == Adding(x)
    ensures FromItems(Told(mac, Adding(x)).items) == Adding(x) && ExtractMac(Told(mac, Adding(x)).items) == Some(mac)
    ensures FromItems(Told(mac, Removing(x)).items) == Removing(x)
    ensures ExtractMac(Told(mac, Removing(x)).items) == Some(mac)
  {
    OnlyIsClean(x);
    hide Listing, MetricItems, ChangeItems, FromItems, CleanAddrs, Canonical;
    UpRead(mac, m, Only(x));
    WriteThenRead([], Adding(x));
    assert [] + ChangeItems(Adding(x)) == ChangeItems(Adding(x));
    WriteThenRead([Mac(mac)], Adding(x));
    WriteThenRead([Mac(mac)], Removing(x));
    assert Up(mac, m, x).items[0] == Mac(mac);
  }

  // --- What the router does -------------------------------------------------

  ghost predicate RouterAt(r: Router, mac: MacAddress, dest: Option<DestinationAddrs>, peer: DestinationAddrs) {
    && r.phase.InSession? && r.tx == IDLE && r.peerAddresses == peer
    && (dest.None? ==> r.destinations == map[])
    && (dest.Some? ==> r.destinations.Keys == {mac} && r.destinations[mac].addrs == dest.value)
  }

  /** The handlers apply, given that the message is accepted. */
  ghost predicate Reading(r: Router, msg: Message) { RouterSlots(r) && RouterCheck(r, msg).None? }

  lemma Dispatched(r: Router, msg: Message)
    requires r.phase.InSession? && Reading(r, msg)
    ensures msg.messageType == SESSION_UPDATE ==>
              && ApplyStrict(FromItems(msg.items), r.peerAddresses).Some?
              && RouterAccept(r, msg) == RouterSessionUpdate(r, msg)
    ensures msg.messageType == DESTINATION_UP && ExtractMac(msg.items).Some? ==>
              RouterAccept(r, msg) == RouterUp(r, ExtractMac(msg.items).value, msg)
    ensures msg.messageType == DESTINATION_UPDATE && ExtractMac(msg.items).Some? ==>
              && ExtractMac(msg.items).value in r.destinations
              && RouterAccept(r, msg) == RouterUpdate(r, ExtractMac(msg.items).value, msg)
  {
    RouterSpec.AcceptedMessage(r, msg);
    hide RouterCheck, RouterSlots, RouterUp, RouterUpdate, RouterSessionUpdate, ExtractMac, FromItems, ApplyStrict,
         ExtractStatusItem;
  }

  lemma RouterReadsUp(r: Router, mac: MacAddress, m: LinkMetrics, x: u32)
    requires RouterAt(r, mac, None, NO_ADDRS) && Reading(r, Up(mac, m, x))
    ensures var (t, actions) := RouterAccept(r, Up(mac, m, x));
            RouterAt(t, mac, Some(Only(x)), NO_ADDRS) && Sent(actions) == [BuildDestinationUpResponse(mac, SUCCESS)]
  {
    hide RouterAccept, RouterCheck, RouterSlots, Merge, ApplyLenient, FromItems, OwnedChanges, Sent, Listing,
         MetricItems, ExtractMac;
    var msg := Up(mac, m, x);
    Dispatched(r, msg);
    Reads(mac, m, x);
    FreeToAdd(r, mac, msg, x);
    OnlyApplied(x);
    SentSingle(RouterUp(r, mac, msg).1, 0);
  }

  lemma FreeToAdd(r: Router, mac: MacAddress, msg: Message, x: u32)
    requires r.peerAddresses == NO_ADDRS && r.destinations == map[] && FromItems(msg.items) == Adding(x)
    ensures OwnedChanges(r, mac, msg) == Adding(x)
  {
    assert Taken4(r, mac) == {} && Taken6(r, mac) == {} && TakenNet4(r, mac) == {} && TakenNet6(r, mac) == {};
    OneApplied(x, {});
    NoneApplied<u128>({});
    NoneApplied<Ipv4Net>({});
    NoneApplied<Ipv6Net>({});
    hide FromItems, RetainFree, Taken4, Taken6, TakenNet4, TakenNet6, Apply, Minus;
  }

  lemma RouterReadsSession(r: Router, mac: MacAddress, x: u32)
    requires RouterAt(r, mac, Some(Only(x)), NO_ADDRS) && Reading(r, BuildAddressUpdate(Adding(x)))
    ensures var (t, actions) := RouterAccept(r, BuildAddressUpdate(Adding(x)));
            RouterAt(t, mac, Some(Only(x)), Only(x)) && Sent(actions) == [BuildSessionUpdateResponse(SUCCESS)]
  {
    hide RouterAccept, RouterCheck, RouterSlots, Merge, ApplyStrict, FromItems, HasMetrics, Sent, ChangeItems;
    var msg := BuildAddressUpdate(Adding(x));
    Dispatched(r, msg);
    Reads(mac, DEFAULT_METRICS, x);
    OnlyValid(x);
    SentSingle(RouterSessionUpdate(r, msg).1, 0);
  }

  /** Away it goes; back again it is refused, for the peer holds it. */
  lemma RouterReadsChange(r: Router, mac: MacAddress, from: DestinationAddrs, to: DestinationAddrs, x: u32)
    requires (from == Only(x) && to == NO_ADDRS) || (from == NO_ADDRS && to == Only(x))
    requires RouterAt(r, mac, Some(from), Only(x)) && Reading(r, Told(mac, Between(from, to)))
    ensures var (t, actions) := RouterAccept(r, Told(mac, Between(from, to)));
            RouterAt(t, mac, Some(NO_ADDRS), Only(x)) && Sent(actions) == []
  {
    hide RouterAccept, RouterCheck, RouterSlots, FromItems, Sent, ChangeItems, ExtractMac, Between;
    var msg := Told(mac, Between(from, to));
    OnlyApplied(x);
    Reads(mac, DEFAULT_METRICS, x);
    Dispatched(r, msg);
    Refused(r, mac, msg, from, to, x);
    Quiet(r, mac, msg);
  }

  lemma Quiet(r: Router, mac: MacAddress, msg: Message)
    requires mac in r.destinations
    ensures var (t, actions) := RouterUpdate(r, mac, msg);
            && Sent(actions) == [] && t == r.(destinations := t.destinations)
            && t.destinations.Keys == r.destinations.Keys
  {
    hide Merge, ApplyLenient, OwnedChanges, Sent, HasMetrics, Between;
    SentNothing(RouterUpdate(r, mac, msg).1);
  }

  lemma Refused(r: Router, mac: MacAddress, msg: Message, from: DestinationAddrs, to: DestinationAddrs, x: u32)
    requires (from == Only(x) && to == NO_ADDRS) || (from == NO_ADDRS && to == Only(x))
    requires RouterAt(r, mac, Some(from), Only(x)) && FromItems(msg.items) == Between(from, to)
    ensures RouterUpdate(r, mac, msg).0.destinations[mac].addrs == NO_ADDRS
  {
    Coalescing.UpdatePatches(r, mac, msg, from, to);
    assert x in Taken4(r, mac);
    hide RouterUpdate, FromItems, Taken4, Taken6, TakenNet4, TakenNet6, Apply, RetainFree, Minus, Between;
    OneApplied(x, Taken4(r, mac));
    NoneApplied(Taken6(r, mac));
    NoneApplied(TakenNet4(r, mac));
    NoneApplied(TakenNet6(r, mac));
  }

  // --- What the modem does --------------------------------------------------

  /** Unchanging metrics: only addresses matter here. */
  function Entry(config: SessionConfig, announced: bool, addrs: DestinationAddrs, advertised: DestinationAddrs)
    : ModemDestination
  {
    ModemDestination(announced, false, config.initialMetrics, addrs, advertised)
  }

  ghost predicate ModemAt(m: Modem, config: SessionConfig, mac: MacAddress, d: Option<ModemDestination>, tx: Tx,
                          local: DestinationAddrs) {
    && m.phase.InSession? && m.tx == tx && m.pendingLinks == {} && m.localAddresses == local
    && m.config == config && m.sessionMetrics == config.initialMetrics
    && m.destinations == (if d.Some? then map[mac := d.value] else map[])
  }

  function UpOpen(mac: MacAddress): Tx { Open(IDLE, DestinationScope(mac), DestinationUp) }
  function BothOpen(mac: MacAddress): Tx { Open(UpOpen(mac), SessionScope, SessionUpdate) }
  function SessionOpen(): Tx { Open(IDLE, SessionScope, SessionUpdate) }

  lemma AddPasses(m: Modem, config: SessionConfig, mac: MacAddress, x: u32)
    requires ModemAt(m, config, mac, None, IDLE, NO_ADDRS) && ModemSlots(m)
    requires MetricsEncodable(config.initialMetrics) && Accepts(config.macFormat, mac)
    ensures ModemCommandError(m, AppAddDestination(mac, config.initialMetrics, Only(x))).None?
  {
    var metrics := config.initialMetrics;
    hide MessageEncodable, Validate, BuildDestinationUp, BuildSessionUpdate, Overlay, ModemSlots, MetricsEncodable;
    UpFits(mac, metrics, x);
    OnlyValid(x);
    OverlayReplaces(metrics, metrics);
  }

  lemma ModemAdds(m: Modem, config: SessionConfig, mac: MacAddress, x: u32)
    requires ModemAt(m, config, mac, None, IDLE, NO_ADDRS)
    ensures var (t, actions) := ModemAdd(m, mac, config.initialMetrics, Only(x));
            && ModemAt(t, config, mac, Some(Entry(config, false, Only(x), Only(x))), UpOpen(mac), NO_ADDRS)
            && Sent(actions) == [Up(mac, config.initialMetrics, x)]
  {
    hide CanonicalAddrs, Overlay, Sent, BuildDestinationUp;
    OnlyIsClean(x);
    OverlayReplaces(config.initialMetrics, config.initialMetrics);
    SentSingle(ModemAdd(m, mac, config.initialMetrics, Only(x)).1, 0);
  }

  lemma ModemDeclares(m: Modem, config: SessionConfig, mac: MacAddress, d: ModemDestination, x: u32)
    requires ModemAt(m, config, mac, Some(d), UpOpen(mac), NO_ADDRS) && ModemSlots(m)
    ensures var e := AppSessionAddresses(Adding(x));
            && ModemCommandError(m, e).None?
            && var (t, actions) := ModemCommand(m, e);
               && ModemAt(t, config, mac, Some(d), BothOpen(mac), Only(x))
               && Sent(actions) == [BuildAddressUpdate(Adding(x))]
  {
    hide MessageEncodable, Validate, ApplyLenient, Between, Sent, ChangeItems, ModemSlots;
    OnlyValid(x);
    OnlyApplied(x);
    RestFits(mac, x);
    SentSingle(ModemCommand(m, AppSessionAddresses(Adding(x))).1, 0);
  }

  /** An address change while the Up is pending: nothing is sent. */
  lemma ModemHolds(m: Modem, config: SessionConfig, mac: MacAddress, from: DestinationAddrs, c: AddressChanges, x: u32)
    requires ModemAt(m, config, mac, Some(Entry(config, false, from, Only(x))), BothOpen(mac), Only(x)) && ModemSlots(m)
    requires MetricsEncodable(config.initialMetrics) && Accepts(config.macFormat, mac)
    requires (from == Only(x) && c == Removing(x)) || (from == NO_ADDRS && c == Adding(x))
    ensures var e, to := AppUpdateAddresses(mac, c), if from == NO_ADDRS then Only(x) else NO_ADDRS;
            && ModemCommandError(m, e).None?
            && var (t, actions) := ModemCommand(m, e);
               && ModemAt(t, config, mac, Some(Entry(config, false, to, Only(x))), BothOpen(mac), Only(x))
               && Sent(actions) == []
  {
    hide MessageEncodable, Validate, ApplyLenient, Between, Sent, BuildDestinationUp, ModemSlots, MetricsEncodable;
    OnlyValid(x);
    OnlyApplied(x);
    UpFits(mac, config.initialMetrics, x);
    SentNothing([]);
  }

  /** The same change once announced: the difference is sent. */
  lemma ModemTells(m: Modem, config: SessionConfig, mac: MacAddress, from: DestinationAddrs, c: AddressChanges, x: u32)
    requires ModemAt(m, config, mac, Some(Entry(config, true, from, from)), IDLE, Only(x)) && ModemSlots(m)
    requires MetricsEncodable(config.initialMetrics) && Accepts(config.macFormat, mac)
    requires (from == Only(x) && c == Removing(x)) || (from == NO_ADDRS && c == Adding(x))
    ensures var e, to := AppUpdateAddresses(mac, c), if from == NO_ADDRS then Only(x) else NO_ADDRS;
            && ModemCommandError(m, e).None?
            && var (t, actions) := ModemCommand(m, e);
               && ModemAt(t, config, mac, Some(Entry(config, true, to, to)), IDLE, Only(x))
               && Sent(actions) == [Told(mac, c)]
  {
    hide MessageEncodable, Validate, ApplyLenient, Between, Sent, BuildDestinationUp, ModemSlots, MetricsEncodable,
         ChangeItems;
    OnlyValid(x);
    OnlyApplied(x);
    UpFits(mac, config.initialMetrics, x);
    SentSingle(ModemCommand(m, AppUpdateAddresses(mac, c)).1, 0);
  }

  ghost predicate Hearing(m: Modem, msg: Message) { ModemSlots(m) && ModemCheck(m, msg).None? }

  lemma Heard(m: Modem, msg: Message)
    requires m.phase.InSession? && Hearing(m, msg)
    ensures msg.messageType == SESSION_UPDATE_RESPONSE ==>
              ModemAccept(m, msg) == (m.(tx := Transactions.Close(m.tx, SessionScope)), ResetAction(m.peerHeartbeat))
    ensures msg.messageType == DESTINATION_UP_RESPONSE && ExtractMac(msg.items).Some? ==>
              && ExtractMac(msg.items).value in m.destinations
              && ModemAccept(m, msg) == ModemUpResponse(m, ExtractMac(msg.items).value, msg)
  {
    ModemSpec.AcceptedMessage(m, msg);
    hide ModemCheck, ModemSlots, ModemUpResponse, ExtractMac, FromItems, ApplyStrict;
  }

  lemma ResponseReads(mac: MacAddress)
    ensures var items := BuildDestinationUpResponse(mac, SUCCESS).items;
            ExtractMac(items) == Some(mac) && ExtractStatus(items) == Some(SUCCESS)
  {
    StatusLast([Mac(mac)], Status(SUCCESS, []));
    assert [Mac(mac)] + [Status(SUCCESS, [])] == BuildDestinationUpResponse(mac, SUCCESS).items;
  }

  /** The Up is answered with the addresses as they were told: nothing is late. */
  lemma ModemAnnounced(m: Modem, config: SessionConfig, mac: MacAddress, x: u32)
    requires ModemAt(m, config, mac, Some(Entry(config, false, Only(x), Only(x))), BothOpen(mac), Only(x))
    requires Hearing(m, BuildDestinationUpResponse(mac, SUCCESS))
    ensures var (t, actions) := ModemAccept(m, BuildDestinationUpResponse(mac, SUCCESS));
            && ModemAt(t, config, mac, Some(Entry(config, true, Only(x), Only(x))), SessionOpen(), Only(x))
            && Sent(actions) == []
  {
    var msg := BuildDestinationUpResponse(mac, SUCCESS);
    ResponseReads(mac);
    hide ModemAccept, ModemCheck, ModemSlots, Between, Sent, ExtractMac, ExtractStatus;
    Heard(m, msg);
    OnlyApplied(x);
    assert UpOpen(mac).perDestination - {mac} == map[];
    SentNothing(ModemUpResponse(m, mac, msg).1);
  }

  lemma ModemReleased(m: Modem, config: SessionConfig, mac: MacAddress, d: ModemDestination, local: DestinationAddrs)
    requires ModemAt(m, config, mac, Some(d), SessionOpen(), local)
    requires Hearing(m, BuildSessionUpdateResponse(SUCCESS))
    ensures var (t, actions) := ModemAccept(m, BuildSessionUpdateResponse(SUCCESS));
            ModemAt(t, config, mac, Some(d), IDLE, local) && Sent(actions) == []
  {
    hide ModemAccept, ModemCheck, ModemSlots, Sent;
    Heard(m, BuildSessionUpdateResponse(SUCCESS));
    SentNothing(ResetAction(m.peerHeartbeat));
  }

  // --- One move at a time ---------------------------------------------------

  ghost function RouterTook(sys: System, t: Router, out: seq<Message>): System
    requires sys.toRouter != []
  {
    sys.(router := t, toRouter := sys.toRouter[1..], toModem := sys.toModem + out)
  }

  ghost function ModemTook(sys: System, t: Modem, out: seq<Message>): System
    requires sys.toModem != []
  {
    sys.(modem := t, toModem := sys.toModem[1..], toRouter := sys.toRouter + out)
  }

  /** A message that crosses nothing is accepted and handled. */
  lemma RouterHandles(sys: System)
    requires SystemInv(sys) && sys.router.phase.InSession? && sys.toRouter != []
    requires !Crossed(sys.router.tx, sys.toRouter[0])
    ensures SlotsOk(sys) && Reading(sys.router, sys.toRouter[0])
    ensures var (t, actions) := RouterAccept(sys.router, sys.toRouter[0]);
            AllEncodable(Sent(actions)) ==> Next(sys, DeliverToRouter) == RouterTook(sys, t, Sent(actions))
  {
    hide SystemInv, RouterInv, ModemInv, RouterSlots, ModemSlots, ToModemOk, ToRouterOk, Compatible, Crossed,
         RouterCheck, RouterAccept, Sent, AllEncodable, FatalStatus;
    Parts(sys);
    RouterRefusesOnlyCrossings(sys);
  }

  lemma ModemHandles(sys: System)
    requires SystemInv(sys) && sys.modem.phase.InSession? && sys.toModem != []
    requires !Crossed(sys.modem.tx, sys.toModem[0])
    ensures SlotsOk(sys) && Hearing(sys.modem, sys.toModem[0])
    ensures var (t, actions) := ModemAccept(sys.modem, sys.toModem[0]);
            AllEncodable(Sent(actions)) ==> Next(sys, DeliverToModem) == ModemTook(sys, t, Sent(actions))
  {
    hide SystemInv, RouterInv, ModemInv, RouterSlots, ModemSlots, ToModemOk, ToRouterOk, Compatible, Crossed,
         ModemCheck, ModemAccept, Sent, AllEncodable, FatalStatus;
    Parts(sys);
    ModemRefusesOnlyCrossings(sys);
  }

  lemma ModemObeys(sys: System, e: Event)
    requires SystemInv(sys) && Command(e).Some? && ModemSlots(sys.modem) && ModemCommandError(sys.modem, e).None?
    ensures SlotsOk(sys)
    ensures var (t, actions) := ModemCommand(sys.modem, e);
            AllEncodable(Sent(actions)) ==>
              Next(sys, AtModem(e)) == sys.(modem := t, toRouter := sys.toRouter + Sent(actions))
  {
    hide SystemInv, RouterInv, ModemInv, RouterSlots, ModemSlots, ToModemOk, ToRouterOk, Compatible, ModemCommandError,
         ModemCommand, Sent, AllEncodable;
    Parts(sys);
  }

  // --- Two runs -------------------------------------------------------------

  /** Two configurations, a destination and an address. */
  datatype Setting = Setting(rc: SessionConfig, mc: SessionConfig, mac: MacAddress, x: u32)

  ghost predicate Suits(c: Setting) {
    && Compatible(c.rc, c.mc) && MessageEncodable(BuildInitializationResponse(c.mc))
    && Accepts(c.mc.macFormat, c.mac)
  }

  ghost function At(c: Setting, moves: seq<Move>): (sys: System)
    requires Suits(c)
    ensures SystemInv(sys)
  {
    Reached(c.rc, c.mc, moves)
  }

  lemma {:induction false} RunMore(sys: System, moves: seq<Move>, move: Move)
    requires SystemInv(sys)
    ensures SlotsOk(Run(sys, moves)) && Run(sys, moves + [move]) == Next(Run(sys, moves), move)
    decreases |moves|
  {
    hide SystemInv, Next;
    NextKeepsInvariant(Run(sys, moves), move);
    if moves == [] {
      assert ([] + [move])[1..] == [];
    } else {
      NextKeepsInvariant(sys, moves[0]);
      assert (moves + [move])[1..] == moves[1..] + [move];
      RunMore(Next(sys, moves[0]), moves[1..], move);
    }
  }

  lemma AtMore(c: Setting, moves: seq<Move>, move: Move)
    requires Suits(c)
    ensures SlotsOk(At(c, moves)) && At(c, moves + [move]) == Next(At(c, moves), move)
  {
    hide SystemInv, Next, Compatible, Start, Run, Suits;
    assert Compatible(c.rc, c.mc) by { SuitsMeans(c); }
    StartOk(c.rc, c.mc);
    RunMore(Start(c.rc, c.mc), moves, move);
  }

  lemma SuitsMeans(c: Setting)
    requires Suits(c)
    ensures Compatible(c.rc, c.mc) && ConfigEncodable(c.rc) && ConfigEncodable(c.mc)
    ensures MetricsEncodable(c.mc.initialMetrics) && Accepts(c.mc.macFormat, c.mac)
    ensures MessageEncodable(BuildInitializationResponse(c.mc))
  {
    hide MessageEncodable;
  }

  ghost predicate Scene(sys: System, c: Setting, dest: Option<DestinationAddrs>, peer: DestinationAddrs,
                        d: Option<ModemDestination>, tx: Tx, local: DestinationAddrs) {
    RouterAt(sys.router, c.mac, dest, peer) && ModemAt(sys.modem, c.mc, c.mac, d, tx, local)
  }

  /** The handshake. */
  lemma Joined(c: Setting)
    requires Suits(c)
    ensures var sys := At(c, [DeliverToModem, DeliverToRouter]);
            Scene(sys, c, None, NO_ADDRS, None, IDLE, NO_ADDRS) && sys.toModem == [] && sys.toRouter == []
  {
    hide At, Suits, Compatible, ConfigEncodable, SystemInv, Next, SlotsOk, Scene, Halfway;
    AtStart(c);
    AtMore(c, [], DeliverToModem);
    assert [] + [DeliverToModem] == [DeliverToModem];
    Invited(c, At(c, []));
    AtMore(c, [DeliverToModem], DeliverToRouter);
    assert [DeliverToModem] + [DeliverToRouter] == [DeliverToModem, DeliverToRouter];
    Welcomed(c, At(c, [DeliverToModem]));
  }

  lemma AtStart(c: Setting)
    requires Suits(c)
    ensures At(c, []) == Start(c.rc, c.mc)
  {
    hide SystemInv, Compatible, Next;
  }

  ghost predicate Halfway(c: Setting, sys: System) {
    && sys.router == NewRouter(c.rc).(phase := Initializing)
    && ModemAt(sys.modem, c.mc, c.mac, None, IDLE, NO_ADDRS)
    && sys.toModem == [] && sys.toRouter == [BuildInitializationResponse(c.mc)]
  }

  lemma Invited(c: Setting, sys: System)
    requires Suits(c) && SystemInv(sys) && sys == Start(c.rc, c.mc) && SlotsOk(sys)
    ensures Halfway(c, Next(sys, DeliverToModem))
  {
    hide SystemInv, RouterInv, ModemInv, RouterSlots, ModemSlots, ToModemOk, ToRouterOk, Compatible, ModemStep, Sent,
         BuildInitialization, BuildInitializationResponse, ConfigEncodable, MessageEncodable, Suits;
    Parts(sys);
    SuitsMeans(c);
    ModemPlay.Establishes(sys.modem, c.rc);
  }

  lemma RouterEstablishes(r: Router, c: Setting)
    requires ConfigEncodable(c.mc) && RouterInv(r) && RouterSlots(r) && r == NewRouter(c.rc).(phase := Initializing)
    ensures var (t, actions) := RouterStep(r, RecvMessage(BuildInitializationResponse(c.mc)));
            RouterAt(t, c.mac, None, NO_ADDRS) && Sent(actions) == []
  {
    var msg := BuildInitializationResponse(c.mc);
    hide RouterInv, RouterSlots, RouterStep, Sent, BuildInitializationResponse, ConfigEncodable, Merge, MetricTypes,
         FromItems, ExtractHeartbeat, ExtractExtensions, ValidateMessage, FatalStatus, ExtractStatus, SupportTypes;
    RouterPlay.Welcomed(r, c.mc);
    RouterPlay.EstablishSilent(r, msg);
    InitializationResponseGood(c.mc, r.config.extensions);
  }

  lemma Welcomed(c: Setting, sys: System)
    requires Suits(c) && SystemInv(sys) && SlotsOk(sys) && Halfway(c, sys)
    ensures var after := Next(sys, DeliverToRouter);
            Scene(after, c, None, NO_ADDRS, None, IDLE, NO_ADDRS) && after.toModem == [] && after.toRouter == []
  {
    hide SystemInv, RouterInv, ModemInv, RouterSlots, ModemSlots, ToModemOk, ToRouterOk, Compatible, RouterStep, Sent,
         BuildInitializationResponse, ConfigEncodable, MessageEncodable, Suits, RouterAt, ModemAt;
    Parts(sys);
    SuitsMeans(c);
    RouterEstablishes(sys.router, c);
  }

  // The modem's commands.

  lemma StepAdds(c: Setting, sys: System)
    requires Suits(c) && SystemInv(sys) && Scene(sys, c, None, NO_ADDRS, None, IDLE, NO_ADDRS)
    requires sys.toModem == [] && sys.toRouter == []
    ensures SlotsOk(sys)
    ensures var after := Next(sys, AtModem(AppAddDestination(c.mac, c.mc.initialMetrics, Only(c.x))));
            && Scene(after, c, None, NO_ADDRS, Some(Entry(c.mc, false, Only(c.x), Only(c.x))), UpOpen(c.mac), NO_ADDRS)
            && after.toModem == [] && after.toRouter == [Up(c.mac, c.mc.initialMetrics, c.x)]
  {
    hide SystemInv, RouterInv, ModemInv, RouterSlots, ModemSlots, ToModemOk, ToRouterOk, Compatible, Sent, Suits,
         RouterAt, ModemAt, MetricsEncodable, ConfigEncodable, MessageEncodable, ModemCommandError, ModemAdd, Up, Next;
    Parts(sys);
    SuitsMeans(c);
    AddPasses(sys.modem, c.mc, c.mac, c.x);
    ModemAdds(sys.modem, c.mc, c.mac, c.x);
    UpFits(c.mac, c.mc.initialMetrics, c.x);
    ModemObeys(sys, AppAddDestination(c.mac, c.mc.initialMetrics, Only(c.x)));
  }

  lemma StepDeclares(c: Setting, sys: System, d: ModemDestination, q: seq<Message>)
    requires Suits(c) && SystemInv(sys) && Scene(sys, c, None, NO_ADDRS, Some(d), UpOpen(c.mac), NO_ADDRS)
    requires sys.toModem == [] && sys.toRouter == q
    ensures SlotsOk(sys)
    ensures var after := Next(sys, AtModem(AppSessionAddresses(Adding(c.x))));
            && Scene(after, c, None, NO_ADDRS, Some(d), BothOpen(c.mac), Only(c.x))
            && after.toModem == [] && after.toRouter == q + [BuildAddressUpdate(Adding(c.x))]
  {
    hide SystemInv, RouterInv, ModemInv, RouterSlots, ModemSlots, ToModemOk, ToRouterOk, Compatible, Sent, Suits,
         RouterAt, ModemAt, MessageEncodable, ModemCommandError, ModemCommand, BuildAddressUpdate, Next;
    Parts(sys);
    ModemDeclares(sys.modem, c.mc, c.mac, d, c.x);
    RestFits(c.mac, c.x);
    ModemObeys(sys, AppSessionAddresses(Adding(c.x)));
  }

  lemma StepHolds(c: Setting, sys: System, from: DestinationAddrs, change: AddressChanges, q: seq<Message>)
    requires Suits(c) && SystemInv(sys)
    requires Scene(sys, c, Some(Only(c.x)), Only(c.x), Some(Entry(c.mc, false, from, Only(c.x))), BothOpen(c.mac),
                   Only(c.x))
    requires (from == Only(c.x) && change == Removing(c.x)) || (from == NO_ADDRS && change == Adding(c.x))
    requires sys.toModem == q && sys.toRouter == []
    ensures SlotsOk(sys)
    ensures var after, to := Next(sys, AtModem(AppUpdateAddresses(c.mac, change))),
                             if from == NO_ADDRS then Only(c.x) else NO_ADDRS;
            && Scene(after, c, Some(Only(c.x)), Only(c.x), Some(Entry(c.mc, false, to, Only(c.x))), BothOpen(c.mac),
                     Only(c.x))
            && after.toModem == q && after.toRouter == []
  {
    hide SystemInv, RouterInv, ModemInv, RouterSlots, ModemSlots, ToModemOk, ToRouterOk, Compatible, Sent, Suits,
         RouterAt, ModemAt, MessageEncodable, ModemCommandError, ModemCommand, MetricsEncodable, ConfigEncodable, Next;
    Parts(sys);
    SuitsMeans(c);
    ModemHolds(sys.modem, c.mc, c.mac, from, change, c.x);
    ModemObeys(sys, AppUpdateAddresses(c.mac, change));
  }

  lemma StepTells(c: Setting, sys: System, dest: DestinationAddrs, from: DestinationAddrs, change: AddressChanges)
    requires Suits(c) && SystemInv(sys)
    requires Scene(sys, c, Some(dest), Only(c.x), Some(Entry(c.mc, true, from, from)), IDLE, Only(c.x))
    requires (from == Only(c.x) && change == Removing(c.x)) || (from == NO_ADDRS && change == Adding(c.x))
    requires sys.toModem == [] && sys.toRouter == []
    ensures SlotsOk(sys)
    ensures var after, to := Next(sys, AtModem(AppUpdateAddresses(c.mac, change))),
                             if from == NO_ADDRS then Only(c.x) else NO_ADDRS;
            && Scene(after, c, Some(dest), Only(c.x), Some(Entry(c.mc, true, to, to)), IDLE, Only(c.x))
            && after.toModem == [] && after.toRouter == [Told(c.mac, change)]
  {
    hide SystemInv, RouterInv, ModemInv, RouterSlots, ModemSlots, ToModemOk, ToRouterOk, Compatible, Sent, Suits,
         RouterAt, ModemAt, MessageEncodable, ModemCommandError, ModemCommand, MetricsEncodable, ConfigEncodable, Told,
         Next;
    Parts(sys);
    SuitsMeans(c);
    ModemTells(sys.modem, c.mc, c.mac, from, change, c.x);
    RestFits(c.mac, c.x);
    ModemObeys(sys, AppUpdateAddresses(c.mac, change));
  }

  // The deliveries.

  lemma NotCrossed(tx: Tx, msg: Message)
    ensures tx == IDLE ==> !Crossed(tx, msg)
    ensures msg.messageType == DESTINATION_UP_RESPONSE || msg.messageType == SESSION_UPDATE_RESPONSE ==>
              !Crossed(tx, msg)
  {
    hide ExtractMac;
  }

  lemma RouterIdle(sys: System, c: Setting, dest: Option<DestinationAddrs>, peer: DestinationAddrs)
    requires RouterAt(sys.router, c.mac, dest, peer)
    ensures sys.router.phase.InSession? && sys.router.tx == IDLE
  {
  }

  lemma StepReadsUp(c: Setting, sys: System, d: Option<ModemDestination>, tx: Tx, local: DestinationAddrs,
                    q: seq<Message>)
    requires Suits(c) && SystemInv(sys) && Scene(sys, c, None, NO_ADDRS, d, tx, local)
    requires sys.toModem == [] && sys.toRouter == [Up(c.mac, c.mc.initialMetrics, c.x)] + q
    ensures SlotsOk(sys)
    ensures var after := Next(sys, DeliverToRouter);
            && Scene(after, c, Some(Only(c.x)), NO_ADDRS, d, tx, local)
            && after.toModem == [BuildDestinationUpResponse(c.mac, SUCCESS)] && after.toRouter == q
  {
    hide SystemInv, RouterAt, ModemAt, MessageEncodable, Sent, Suits, Reading, Up, BuildDestinationUpResponse,
         RouterAccept, Next, SlotsOk, Crossed;
    RouterIdle(sys, c, None, NO_ADDRS);
    NotCrossed(sys.router.tx, sys.toRouter[0]);
    RouterHandles(sys);
    RouterReadsUp(sys.router, c.mac, c.mc.initialMetrics, c.x);
    RestFits(c.mac, c.x);
  }

  lemma StepReadsSession(c: Setting, sys: System, d: Option<ModemDestination>, tx: Tx, local: DestinationAddrs,
                         p: seq<Message>)
    requires Suits(c) && SystemInv(sys) && Scene(sys, c, Some(Only(c.x)), NO_ADDRS, d, tx, local)
    requires sys.toModem == p && sys.toRouter == [BuildAddressUpdate(Adding(c.x))]
    ensures SlotsOk(sys)
    ensures var after := Next(sys, DeliverToRouter);
            && Scene(after, c, Some(Only(c.x)), Only(c.x), d, tx, local)
            && after.toModem == p + [BuildSessionUpdateResponse(SUCCESS)] && after.toRouter == []
  {
    hide SystemInv, RouterAt, ModemAt, MessageEncodable, Sent, Suits, Reading, BuildAddressUpdate,
         BuildSessionUpdateResponse, RouterAccept, Next, SlotsOk, Crossed;
    RouterIdle(sys, c, Some(Only(c.x)), NO_ADDRS);
    NotCrossed(sys.router.tx, sys.toRouter[0]);
    RouterHandles(sys);
    RouterReadsSession(sys.router, c.mac, c.x);
    RestFits(c.mac, c.x);
  }

  lemma StepReadsChange(c: Setting, sys: System, from: DestinationAddrs, change: AddressChanges,
                        d: Option<ModemDestination>, tx: Tx, local: DestinationAddrs)
    requires Suits(c) && SystemInv(sys) && Scene(sys, c, Some(from), Only(c.x), d, tx, local)
    requires (from == Only(c.x) && change == Removing(c.x)) || (from == NO_ADDRS && change == Adding(c.x))
    requires sys.toModem == [] && sys.toRouter == [Told(c.mac, change)]
    ensures SlotsOk(sys)
    ensures var after := Next(sys, DeliverToRouter);
            && Scene(after, c, Some(NO_ADDRS), Only(c.x), d, tx, local)
            && after.toModem == [] && after.toRouter == []
  {
    hide SystemInv, RouterAt, ModemAt, MessageEncodable, Sent, Suits, Reading, Told, RouterAccept, Next, SlotsOk,
         Crossed, Between;
    RouterIdle(sys, c, Some(from), Only(c.x));
    NotCrossed(sys.router.tx, sys.toRouter[0]);
    RouterHandles(sys);
    OnlyApplied(c.x);
    RouterReadsChange(sys.router, c.mac, from, if from == NO_ADDRS then Only(c.x) else NO_ADDRS, c.x);
  }

  lemma ModemInSession(sys: System, c: Setting, d: Option<ModemDestination>, tx: Tx, local: DestinationAddrs)
    requires ModemAt(sys.modem, c.mc, c.mac, d, tx, local)
    ensures sys.modem.phase.InSession?
  {
  }

  lemma StepAnnounced(c: Setting, sys: System, q: seq<Message>)
    requires Suits(c) && SystemInv(sys)
    requires Scene(sys, c, Some(Only(c.x)), Only(c.x), Some(Entry(c.mc, false, Only(c.x), Only(c.x))), BothOpen(c.mac),
                   Only(c.x))
    requires sys.toModem == [BuildDestinationUpResponse(c.mac, SUCCESS)] + q && sys.toRouter == []
    ensures SlotsOk(sys)
    ensures var after := Next(sys, DeliverToModem);
            && Scene(after, c, Some(Only(c.x)), Only(c.x), Some(Entry(c.mc, true, Only(c.x), Only(c.x))), SessionOpen(),
                     Only(c.x))
            && after.toModem == q && after.toRouter == []
  {
    hide SystemInv, RouterAt, ModemAt, MessageEncodable, Sent, Suits, Hearing, ModemAccept, Next, SlotsOk, Crossed;
    ModemInSession(sys, c, Some(Entry(c.mc, false, Only(c.x), Only(c.x))), BothOpen(c.mac), Only(c.x));
    NotCrossed(sys.modem.tx, sys.toModem[0]);
    ModemHandles(sys);
    ModemAnnounced(sys.modem, c.mc, c.mac, c.x);
  }

  lemma StepReleased(c: Setting, sys: System, dest: DestinationAddrs, d: ModemDestination)
    requires Suits(c) && SystemInv(sys)
    requires Scene(sys, c, Some(dest), Only(c.x), Some(d), SessionOpen(), Only(c.x))
    requires sys.toModem == [BuildSessionUpdateResponse(SUCCESS)] && sys.toRouter == []
    ensures SlotsOk(sys)
    ensures var after := Next(sys, DeliverToModem);
            && Scene(after, c, Some(dest), Only(c.x), Some(d), IDLE, Only(c.x))
            && after.toModem == [] && after.toRouter == []
  {
    hide SystemInv, RouterAt, ModemAt, MessageEncodable, Sent, Suits, Hearing, ModemAccept, Next, SlotsOk, Crossed;
    ModemInSession(sys, c, Some(d), SessionOpen(), Only(c.x));
    NotCrossed(sys.modem.tx, sys.toModem[0]);
    ModemHandles(sys);
    ModemReleased(sys.modem, c.mc, c.mac, d, Only(c.x));
  }

  // The runs themselves.

  /** Handshake, destination, session addresses; the router reads both and its
      answers are on their way. */
  function Shared(c: Setting): seq<Move> {
    [DeliverToModem, DeliverToRouter, AtModem(AppAddDestination(c.mac, c.mc.initialMetrics, Only(c.x))),
     AtModem(AppSessionAddresses(Adding(c.x))), DeliverToRouter, DeliverToRouter]
  }

  function Away(c: Setting): Move { AtModem(AppUpdateAddresses(c.mac, Removing(c.x))) }
  function Back(c: Setting): Move { AtModem(AppUpdateAddresses(c.mac, Adding(c.x))) }

  /** The address goes and comes back before the answers arrive. */
  function Once(c: Setting): seq<Move> { Shared(c) + [Away(c)] + [Back(c)] + [DeliverToModem] + [DeliverToModem] }

  /** The same after they have arrived, each update read in turn. */
  function Each(c: Setting): seq<Move> {
    Shared(c) + [DeliverToModem] + [DeliverToModem] + [Away(c)] + [DeliverToRouter] + [Back(c)] + [DeliverToRouter]
  }

  lemma SharedScene(c: Setting)
    requires Suits(c)
    ensures var sys := At(c, Shared(c));
            && Scene(sys, c, Some(Only(c.x)), Only(c.x), Some(Entry(c.mc, false, Only(c.x), Only(c.x))),
                     BothOpen(c.mac), Only(c.x))
            && sys.toModem == [BuildDestinationUpResponse(c.mac, SUCCESS)] + [BuildSessionUpdateResponse(SUCCESS)]
            && sys.toRouter == []
  {
    hide SystemInv, Suits, At, Scene, SlotsOk, Next, Up, BuildAddressUpdate, BuildDestinationUpResponse,
         BuildSessionUpdateResponse, Entry, Only, Adding;
    var all := Shared(c);
    var d, up, su := Entry(c.mc, false, Only(c.x), Only(c.x)), Up(c.mac, c.mc.initialMetrics, c.x),
                     BuildAddressUpdate(Adding(c.x));
    Joined(c);
    assert all[..2] == [DeliverToModem, DeliverToRouter];
    assert all[..3] == all[..2] + [all[2]] && all[..4] == all[..3] + [all[3]];
    assert all[..5] == all[..4] + [all[4]] && all == all[..5] + [all[5]];
    AtMore(c, all[..2], all[2]);
    StepAdds(c, At(c, all[..2]));
    AtMore(c, all[..3], all[3]);
    StepDeclares(c, At(c, all[..3]), d, [up]);
    AtMore(c, all[..4], all[4]);
    StepReadsUp(c, At(c, all[..4]), Some(d), BothOpen(c.mac), Only(c.x), [su]);
    AtMore(c, all[..5], all[5]);
    StepReadsSession(c, At(c, all[..5]), Some(d), BothOpen(c.mac), Only(c.x),
                     [BuildDestinationUpResponse(c.mac, SUCCESS)]);
  }

  lemma OnceScene(c: Setting)
    requires Suits(c)
    ensures var sys := At(c, Once(c));
            && Scene(sys, c, Some(Only(c.x)), Only(c.x), Some(Entry(c.mc, true, Only(c.x), Only(c.x))), IDLE, Only(c.x))
            && sys.toModem == [] && sys.toRouter == []
  {
    hide SystemInv, Suits, At, Scene, SlotsOk, Next, Shared, BuildDestinationUpResponse, BuildSessionUpdateResponse;
    var upr, sur := BuildDestinationUpResponse(c.mac, SUCCESS), BuildSessionUpdateResponse(SUCCESS);
    SharedScene(c);
    var m0 := Shared(c);
    var m1, m2 := m0 + [Away(c)], m0 + [Away(c)] + [Back(c)];
    AtMore(c, m0, Away(c));
    StepHolds(c, At(c, m0), Only(c.x), Removing(c.x), [upr] + [sur]);
    AtMore(c, m1, Back(c));
    StepHolds(c, At(c, m1), NO_ADDRS, Adding(c.x), [upr] + [sur]);
    AtMore(c, m2, DeliverToModem);
    StepAnnounced(c, At(c, m2), [sur]);
    AtMore(c, m2 + [DeliverToModem], DeliverToModem);
    StepReleased(c, At(c, m2 + [DeliverToModem]), Only(c.x), Entry(c.mc, true, Only(c.x), Only(c.x)));
  }

  lemma EachScene(c: Setting)
    requires Suits(c)
    ensures var sys := At(c, Each(c));
            && Scene(sys, c, Some(NO_ADDRS), Only(c.x), Some(Entry(c.mc, true, Only(c.x), Only(c.x))), IDLE, Only(c.x))
            && sys.toModem == [] && sys.toRouter == []
  {
    hide SystemInv, Suits, At, Scene, SlotsOk, Next, Shared, BuildDestinationUpResponse, BuildSessionUpdateResponse,
         Told;
    var sur := BuildSessionUpdateResponse(SUCCESS);
    var here, gone := Entry(c.mc, true, Only(c.x), Only(c.x)), Entry(c.mc, true, NO_ADDRS, NO_ADDRS);
    SharedScene(c);
    var m0 := Shared(c);
    var m1 := m0 + [DeliverToModem];
    var m2 := m1 + [DeliverToModem];
    var m3 := m2 + [Away(c)];
    var m4 := m3 + [DeliverToRouter];
    var m5 := m4 + [Back(c)];
    AtMore(c, m0, DeliverToModem);
    StepAnnounced(c, At(c, m0), [sur]);
    AtMore(c, m1, DeliverToModem);
    StepReleased(c, At(c, m1), Only(c.x), here);
    AtMore(c, m2, Away(c));
    StepTells(c, At(c, m2), Only(c.x), Only(c.x), Removing(c.x));
    AtMore(c, m3, DeliverToRouter);
    StepReadsChange(c, At(c, m3), Only(c.x), Removing(c.x), Some(gone), IDLE, Only(c.x));
    AtMore(c, m4, Back(c));
    StepTells(c, At(c, m4), NO_ADDRS, NO_ADDRS, Adding(c.x));
    AtMore(c, m5, DeliverToRouter);
    StepReadsChange(c, At(c, m5), NO_ADDRS, Adding(c.x), Some(here), IDLE, Only(c.x));
  }

  /** Same commands, every message accepted, both runs at rest in session with the
      modem's entry the same; but one router holds the address and one does not. */
  lemma CoalescingMatters(c: Setting)
    requires Suits(c)
    ensures var once, each := Reached(c.rc, c.mc, Once(c)), Reached(c.rc, c.mc, Each(c));
            && BothIdle(once) && BothIdle(each)
            && c.mac in once.modem.destinations && c.mac in each.modem.destinations
            && once.modem.destinations[c.mac] == each.modem.destinations[c.mac]
            && once.modem.destinations[c.mac].addrs == Only(c.x)
            && c.mac in once.router.destinations && c.mac in each.router.destinations
            && c.x in once.router.destinations[c.mac].addrs.v4
            && c.x !in each.router.destinations[c.mac].addrs.v4
  {
    hide SystemInv, Suits, Reached, Once, Each, Compatible;
    OnceScene(c);
    EachScene(c);
  }

  /** There is such a pair. */
  lemma SuitablePair()
    ensures exists c :: Suits(c)
  {
    var config := SessionConfig(FormatEui48, [], DEFAULT_METRICS, 60_000, 5 * 1_000_000_000, None, [], false);
    var c := Setting(config, config, Eui48(1), 1);
    MetricsFit(DEFAULT_METRICS);
    var msg := BuildInitializationResponse(config);
    hide MetricItems;
    ShortFits(msg);
    hide MessageEncodable;
    assert Suits(c);
  }
}
