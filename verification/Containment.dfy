/** In the composed system the router holds no address of a destination that the
    modem has not advertised: what it refuses because of a clash is only ever
    missing, never extra.
 */
module Containment {
  import opened Types
  import opened Addresses
  import opened Messages
  import opened Validation
  import opened Conformance
  import opened Session
  import opened RouterSpec
  import opened ModemSpec
  import opened ProtocolSpec
  import opened Agreement
  import opened Protocol
  import RouterPlay
  import ModemPlay
  import ModemInvariant

  // --- Applying changes -----------------------------------------------------

  lemma ApplyMono<T(!new)>(s: seq<T>, t: seq<T>, few: seq<T>, add: seq<T>, remove: seq<T>)
    requires Sub(s, t) && Sub(few, add)
    ensures Sub(Apply(s, few, remove), Apply(t, add, remove))
  {
    ApplyMembers(s, few, remove);
    ApplyMembers(t, add, remove);
  }

  /** More addresses to begin with, or more added, never gives fewer. */
  lemma LenientMono(a: DestinationAddrs, b: DestinationAddrs, c: AddressChanges)
    requires Within(a, b)
    ensures Within(ApplyLenient(c, a), ApplyLenient(c, b))
  {
    var k := Canonical(c);
    ApplyMono(a.v4, b.v4, k.added.v4, k.added.v4, k.removed.v4);
    ApplyMono(a.v6, b.v6, k.added.v6, k.added.v6, k.removed.v6);
    ApplyMono(a.v4Subnets, b.v4Subnets, k.added.v4Subnets, k.added.v4Subnets, k.removed.v4Subnets);
    ApplyMono(a.v6Subnets, b.v6Subnets, k.added.v6Subnets, k.added.v6Subnets, k.removed.v6Subnets);
  }

  /** What the router takes is within what the message offers. */
  lemma OwnedWithin(r: Router, mac: MacAddress, msg: Message, a: DestinationAddrs)
    ensures Within(ApplyLenient(OwnedChanges(r, mac, msg), a), ApplyLenient(FromItems(msg.items), a))
  {
    var c, o := FromItems(msg.items), OwnedChanges(r, mac, msg);
    FromItemsCanonical(msg.items);
    RetainFreeMembers(c.added.v4, c.removed.v4, Taken4(r, mac));
    RetainFreeMembers(c.added.v6, c.removed.v6, Taken6(r, mac));
    RetainFreeMembers(c.added.v4Subnets, c.removed.v4Subnets, TakenNet4(r, mac));
    RetainFreeMembers(c.added.v6Subnets, c.removed.v6Subnets, TakenNet6(r, mac));
    hide FromItems, RetainFree, Taken4, Taken6, TakenNet4, TakenNet6, Apply, TruncAll4, TruncAll6;
    assert Canonical(o) == o by { OwnedCanonical(c, o); }
    ApplyMono(a.v4, a.v4, o.added.v4, c.added.v4, c.removed.v4);
    ApplyMono(a.v6, a.v6, o.added.v6, c.added.v6, c.removed.v6);
    ApplyMono(a.v4Subnets, a.v4Subnets, o.added.v4Subnets, c.added.v4Subnets, c.removed.v4Subnets);
    ApplyMono(a.v6Subnets, a.v6Subnets, o.added.v6Subnets, c.added.v6Subnets, c.removed.v6Subnets);
  }

  lemma OwnedCanonical(c: AddressChanges, o: AddressChanges)
    requires IsCanonical(c.added) && IsCanonical(c.removed) && o.removed == c.removed
    requires Sub(o.added.v4Subnets, c.added.v4Subnets) && Sub(o.added.v6Subnets, c.added.v6Subnets)
    ensures Canonical(o) == o
  {
    CanonicalByMembers(c.added, c.added, o.added);
    CanonicalFixed(o.added);
    CanonicalFixed(o.removed);
  }

  lemma WithinItself(a: DestinationAddrs)
    ensures Within(a, a) && Within(NO_ADDRS, a)
  {
  }

  lemma WithinTrans(a: DestinationAddrs, b: DestinationAddrs, c: DestinationAddrs)
    requires Within(a, b) && Within(b, c)
    ensures Within(a, c)
  {
  }

  // --- The queue ------------------------------------------------------------

  /** An upper bound for the router's addresses of `mac` after one message. */
  function Offer(a: DestinationAddrs, msg: Message, mac: MacAddress): DestinationAddrs {
    var mt := msg.messageType;
    if ExtractMac(msg.items) != Some(mac) then a
    else if mt == DESTINATION_UP
         || (mt == DESTINATION_ANNOUNCE_RESPONSE && ExtractStatus(msg.items) == Some(SUCCESS)) then
      ApplyLenient(FromItems(msg.items), NO_ADDRS)
    else if mt == DESTINATION_UPDATE then ApplyLenient(FromItems(msg.items), a)
    else if mt == DESTINATION_DOWN || mt == DESTINATION_DOWN_RESPONSE then NO_ADDRS
    else a
  }

  function OfferAll(a: DestinationAddrs, q: seq<Message>, mac: MacAddress): DestinationAddrs {
    if |q| == 0 then a else Offer(OfferAll(a, q[..|q| - 1], mac), q[|q| - 1], mac)
  }

  lemma {:induction false} OfferConcat(a: DestinationAddrs, p: seq<Message>, q: seq<Message>, mac: MacAddress)
    ensures OfferAll(a, p + q, mac) == OfferAll(OfferAll(a, p, mac), q, mac)
  {
    hide Offer;
    if |q| == 0 {
      assert p + q == p;
    } else {
      assert (p + q)[..|p + q| - 1] == p + q[..|q| - 1];
      OfferConcat(a, p, q[..|q| - 1], mac);
    }
  }

  lemma OfferOne(a: DestinationAddrs, msg: Message, mac: MacAddress)
    ensures OfferAll(a, [msg], mac) == Offer(a, msg, mac)
  {
    assert [msg][..0] == [];
  }

  lemma {:induction false} OfferMono(a: DestinationAddrs, b: DestinationAddrs, q: seq<Message>, mac: MacAddress)
    requires Within(a, b)
    ensures Within(OfferAll(a, q, mac), OfferAll(b, q, mac))
  {
    hide Within, ApplyLenient, FromItems, ExtractMac, ExtractStatus;
    if |q| > 0 {
      OfferMono(a, b, q[..|q| - 1], mac);
      var x, y, msg := OfferAll(a, q[..|q| - 1], mac), OfferAll(b, q[..|q| - 1], mac), q[|q| - 1];
      LenientMono(x, y, FromItems(msg.items));
      WithinItself(NO_ADDRS);
      WithinItself(ApplyLenient(FromItems(msg.items), NO_ADDRS));
    }
  }

  function AddrsOf(r: Router, mac: MacAddress): DestinationAddrs {
    if mac in r.destinations then r.destinations[mac].addrs else NO_ADDRS
  }

  /** What the modem has told the router about a destination it counts on. */
  function Told(m: Modem, mac: MacAddress): DestinationAddrs {
    if Expects(m, mac) then m.destinations[mac].advertised else NO_ADDRS
  }

  ghost predicate BoundOk(sys: System, mac: MacAddress) {
    Listening(sys.router.phase) && sys.modem.phase.InSession? ==>
      Within(OfferAll(AddrsOf(sys.router, mac), sys.toRouter, mac), Told(sys.modem, mac))
  }

  // --- Router steps ---------------------------------------------------------

  lemma AcceptWithin(r: Router, msg: Message, mac: MacAddress)
    requires r.phase.InSession? && RouterSlots(r) && RouterCheck(r, msg).None?
    ensures Within(AddrsOf(RouterAccept(r, msg).0, mac), Offer(AddrsOf(r, mac), msg, mac))
  {
    RouterSpec.AcceptedMessage(r, msg);
    assert Expected(msg.messageType, true, false);
    hide RouterCheck, RouterSlots, Within, ApplyLenient, FromItems, ExtractMac, OwnedChanges, Merge, ApplyStrict,
         Between, ExtractStatus, ExtractStatusItem, ResetAction;
    WithinItself(AddrsOf(r, mac));
    WithinItself(NO_ADDRS);
    if ExtractMac(msg.items) == Some(mac) && MAC_ADDRESS in RequiredTypes(msg.messageType) {
      OwnedWithin(r, mac, msg, AddrsOf(r, mac));
      OwnedWithin(r, mac, msg, NO_ADDRS);
    } else {
      UntouchedWithin(r, msg, mac);
    }
  }

  /** Messages about the session, or about another destination. */
  lemma UntouchedWithin(r: Router, msg: Message, mac: MacAddress)
    requires r.phase.InSession? && RouterSlots(r) && RouterCheck(r, msg).None?
    requires ExtractMac(msg.items) != Some(mac) || MAC_ADDRESS !in RequiredTypes(msg.messageType)
    ensures AddrsOf(RouterAccept(r, msg).0, mac) == AddrsOf(r, mac)
    ensures Offer(AddrsOf(r, mac), msg, mac) == AddrsOf(r, mac)
  {
    RouterSpec.AcceptedMessage(r, msg);
    assert Expected(msg.messageType, true, false);
    hide RouterCheck, RouterSlots, ApplyLenient, FromItems, ExtractMac, OwnedChanges, Merge, ApplyStrict, Between,
         ExtractStatus, ExtractStatusItem, ResetAction;
  }

  // --- Messages of the modem ------------------------------------------------

  lemma NewWithin(a: DestinationAddrs)
    requires CleanAddrs(a)
    ensures Within(ApplyLenient(AddressChanges(a, NO_ADDRS), NO_ADDRS), a)
  {
    CanonicalFixed(a);
    ApplyMembers([], a.v4, []);
    ApplyMembers([], a.v6, []);
    ApplyMembers([], a.v4Subnets, []);
    ApplyMembers([], a.v6Subnets, []);
    hide Apply, TruncAll4, TruncAll6;
    assert CanonicalAddrs(NO_ADDRS) == NO_ADDRS by { CanonicalFixed(NO_ADDRS); }
  }

  /** A difference takes whatever lies within the old within the new. */
  lemma PatchWithin(a: DestinationAddrs, told: DestinationAddrs, now: DestinationAddrs)
    requires CleanAddrs(told) && CleanAddrs(now) && Within(a, told)
    ensures Within(ApplyLenient(Between(told, now), a), now)
  {
    var c := Between(told, now);
    LenientMono(a, told, c);
    DiffThenPatch(told, now);
    StrictAgreesWithLenient(c, told);
    hide ApplyLenient, ApplyStrict, Between, CleanAddrs;
  }

  lemma NoPatch(a: DestinationAddrs)
    ensures ApplyLenient(NO_CHANGES, a) == a
  {
    NoChangeApplies(a);
    StrictAgreesWithLenient(NO_CHANGES, a);
  }

  // --- Modem steps ----------------------------------------------------------

  /** Sending `out` keeps the bound as the modem moves from `m` to `t`. */
  ghost predicate Bounds(m: Modem, t: Modem, out: seq<Message>, mac: MacAddress) {
    forall a :: Within(a, Told(m, mac)) ==> Within(OfferAll(a, out, mac), Told(t, mac))
  }

  lemma AboutOffer(a: DestinationAddrs, out: seq<Message>, mac: MacAddress, other: MacAddress)
    requires ModemPlay.About(out, mac) && other != mac
    ensures OfferAll(a, out, other) == a
  {
    hide ExtractMac, ApplyLenient, FromItems;
    if |out| == 1 { OfferOne(a, out[0], other); assert out == [out[0]]; }
  }

  lemma ElsewhereBounds(m: Modem, t: Modem, out: seq<Message>, mac: MacAddress, other: MacAddress)
    requires ModemPlay.SameElsewhere(m, t, mac) && ModemPlay.About(out, mac) && other != mac
    ensures Bounds(m, t, out, other)
  {
    assert Told(t, other) == Told(m, other);
    hide Told, Within, ModemPlay.About;
    forall a ensures OfferAll(a, out, other) == a { AboutOffer(a, out, mac, other); }
  }

  /** Nothing said about addresses, nothing changed about them. */
  lemma SilentBounds(m: Modem, t: Modem, out: seq<Message>, mac: MacAddress)
    requires Told(t, mac) == Told(m, mac)
    requires |out| <= 1
    requires |out| == 1 ==>
               || out[0].messageType == SESSION_UPDATE || out[0].messageType == SESSION_UPDATE_RESPONSE
               || out[0].messageType == HEARTBEAT || out[0].messageType == LINK_CHARACTERISTICS_RESPONSE
               || out[0].messageType == SESSION_INITIALIZATION_RESPONSE
               || (out[0].messageType == DESTINATION_UPDATE && FromItems(out[0].items) == NO_CHANGES)
               || (out[0].messageType == DESTINATION_ANNOUNCE_RESPONSE && ExtractStatus(out[0].items) != Some(SUCCESS))
    ensures Bounds(m, t, out, mac)
  {
    hide Within, Told, ApplyLenient, FromItems, ExtractMac, ExtractStatus;
    forall a ensures OfferAll(a, out, mac) == a {
      if |out| == 1 {
        OfferOne(a, out[0], mac);
        NoPatch(a);
        assert out == [out[0]];
      }
    }
  }

  lemma GoneBounds(m: Modem, t: Modem, msg: Message, mac: MacAddress)
    requires msg.messageType == DESTINATION_DOWN || msg.messageType == DESTINATION_DOWN_RESPONSE
    requires ExtractMac(msg.items) == Some(mac)
    ensures Bounds(m, t, [msg], mac)
  {
    hide Told, ExtractMac, ApplyLenient, FromItems;
    forall a ensures OfferAll(a, [msg], mac) == NO_ADDRS { OfferOne(a, msg, mac); }
    WithinItself(Told(t, mac));
    hide Within;
  }

  lemma NewBounds(m: Modem, t: Modem, msg: Message, mac: MacAddress)
    requires msg.messageType == DESTINATION_UP
             || (msg.messageType == DESTINATION_ANNOUNCE_RESPONSE && ExtractStatus(msg.items) == Some(SUCCESS))
    requires ExtractMac(msg.items) == Some(mac)
    requires CleanAddrs(Told(t, mac)) && FromItems(msg.items) == AddressChanges(Told(t, mac), NO_ADDRS)
    ensures Bounds(m, t, [msg], mac)
  {
    NewWithin(Told(t, mac));
    hide Told, ExtractMac, ApplyLenient, FromItems, Within, ExtractStatus, CleanAddrs;
    forall a ensures OfferAll(a, [msg], mac) == ApplyLenient(FromItems(msg.items), NO_ADDRS) { OfferOne(a, msg, mac); }
  }

  lemma PatchBounds(m: Modem, t: Modem, msg: Message, mac: MacAddress)
    requires msg.messageType == DESTINATION_UPDATE && ExtractMac(msg.items) == Some(mac)
    requires CleanAddrs(Told(m, mac)) && CleanAddrs(Told(t, mac))
    requires FromItems(msg.items) == Between(Told(m, mac), Told(t, mac))
    ensures Bounds(m, t, [msg], mac)
  {
    hide Told, ExtractMac, ApplyLenient, FromItems, Within, CleanAddrs, Between;
    forall a | Within(a, Told(m, mac)) ensures Within(OfferAll(a, [msg], mac), Told(t, mac)) {
      OfferOne(a, msg, mac);
      PatchWithin(a, Told(m, mac), Told(t, mac));
    }
  }

  ghost predicate AllBounds(m: Modem, t: Modem, out: seq<Message>) {
    forall mac :: Bounds(m, t, out, mac)
  }

  /** A turn about one destination. */
  lemma OneBounds(m: Modem, t: Modem, out: seq<Message>, mac: MacAddress)
    requires ModemPlay.SameElsewhere(m, t, mac) && ModemPlay.About(out, mac) && Bounds(m, t, out, mac)
    ensures AllBounds(m, t, out)
  {
    hide Bounds, ModemPlay.SameElsewhere, ModemPlay.About;
    forall other ensures Bounds(m, t, out, other) {
      if other != mac { ElsewhereBounds(m, t, out, mac, other); }
    }
  }

  lemma CatchUpRead(mac: MacAddress, d: ModemDestination, config: SessionConfig)
    requires Accepts(config.macFormat, mac) && ModemPlay.Sound(d, config)
    ensures var late := CatchUp(mac, d);
            && |late| <= 1 && ModemPlay.About(late, mac)
            && (|late| == 1 ==> late[0].messageType == DESTINATION_UPDATE
                                && FromItems(late[0].items) == Between(d.advertised, d.addrs))
  {
    var c := Between(d.advertised, d.addrs);
    BetweenIsClean(d.advertised, d.addrs);
    hide Between, GoodForRouter, Merge, CleanAddrs, FromItems, ChangeItems, Overlay;
    if d.pendingMetrics {
      DestinationMetricsGood(mac, d.metrics, c, config.initialMetrics, config.macFormat);
    } else {
      DestinationAddressesGood(mac, c, config.initialMetrics, config.macFormat);
    }
    hide BuildDestinationUpdate, ExtractMac, MetricsEncodable;
  }

  lemma UpResponseBounds(m: Modem, msg: Message, mac: MacAddress)
    requires ModemPlay.Described(m, mac) && ExtractStatus(msg.items) == Some(SUCCESS)
    requires !m.destinations[mac].announced && mac in m.tx.perDestination
    ensures var (t, actions) := ModemUpResponse(m, mac, msg); AllBounds(m, t, Sent(actions))
  {
    var t, d := ModemUpResponse(m, mac, msg).0, m.destinations[mac];
    var late := CatchUp(mac, d);
    CatchUpRead(mac, d, m.config);
    ModemPlay.UpSent(m, msg, mac);
    hide CatchUp, Sent, FromItems, Between, CleanAddrs, ResetAction, Sending, AllBounds, ExtractStatus, Within,
         ModemPlay.About;
    if late == [] {
      SilentBounds(m, t, late, mac);
    } else {
      assert late == [late[0]];
      assert ExtractMac(late[0].items) == Some(mac) by { AboutMac(late, mac); }
      PatchBounds(m, t, late[0], mac);
    }
    hide Bounds;
    OneBounds(m, t, late, mac);
  }

  lemma AboutMac(out: seq<Message>, mac: MacAddress)
    requires ModemPlay.About(out, mac) && |out| == 1
    ensures ExtractMac(out[0].items) == Some(mac)
  {
  }

  lemma AnnounceBounds(m: Modem, msg: Message, mac: MacAddress)
    requires mac in m.destinations ==> ModemPlay.Described(m, mac)
    requires mac !in m.tx.perDestination && Accepts(m.config.macFormat, mac)
    ensures var (t, actions) := ModemAnnounce(m, mac, msg); AllBounds(m, t, Sent(actions))
  {
    var t := ModemAnnounce(m, mac, msg).0;
    ModemPlay.AnnounceSent(m, msg, mac);
    hide Sent, FromItems, CleanAddrs, AllBounds, Within, GoodForRouter, GoodForModem, Merge, Overlay;
    if mac in m.destinations {
      var d := m.destinations[mac];
      var answer := BuildAnnounceAccepted(mac, d.metrics, d.addrs);
      AnnounceAcceptedGood(mac, d.metrics, d.addrs, m.config.initialMetrics, m.config.macFormat);
      UpRead(mac, d.metrics, d.addrs);
      assert answer.messageType == DESTINATION_ANNOUNCE_RESPONSE;
      hide BuildAnnounceAccepted, BuildDestinationUp, ExtractMac, ExtractStatus, MetricsEncodable;
      NewBounds(m, t, answer, mac);
      hide Bounds;
      OneBounds(m, t, [answer], mac);
    } else {
      var answer := BuildAnnounceDenied(mac);
      RouterPlay.FirstMac(mac, Status(REQUEST_DENIED, []));
      MacAndStatus(DESTINATION_ANNOUNCE_RESPONSE, mac, REQUEST_DENIED, m.config.initialMetrics, m.config.macFormat);
      hide ExtractMac, ExtractStatus;
      SilentBounds(m, t, [answer], mac);
      hide Bounds;
      OneBounds(m, t, [answer], mac);
    }
  }

  lemma DownBounds(m: Modem, mac: MacAddress)
    requires mac in m.destinations
    ensures var (t, actions) := ModemDown(m, mac); AllBounds(m, t, Sent(actions))
  {
    var (t, actions) := ModemDown(m, mac);
    var answer := BuildDestinationDownResponse(mac, SUCCESS);
    RouterPlay.SentReset(actions[..2], m.peerHeartbeat, 0);
    assert actions == actions[..2] + ResetAction(m.peerHeartbeat);
    RouterPlay.FirstMac(mac, Status(SUCCESS, []));
    hide Sent, ResetAction, ExtractMac, AllBounds, Bounds;
    GoneBounds(m, t, answer, mac);
    OneBounds(m, t, [answer], mac);
  }

  lemma ResetSent(peer: Option<Duration>)
    ensures Sent(ResetAction(peer)) == []
  {
    SentNothing(ResetAction(peer));
  }

  lemma GoneTold(m: Modem, mac: MacAddress)
    requires mac in m.destinations && m.destinations[mac].announced && mac in m.tx.perDestination
    ensures var t := ModemDownResponse(m, mac).0;
            ModemPlay.SameElsewhere(m, t, mac) && Told(m, mac) == NO_ADDRS && Told(t, mac) == NO_ADDRS
  {
  }

  lemma DownResponseBounds(m: Modem, mac: MacAddress)
    requires mac in m.destinations && m.destinations[mac].announced && mac in m.tx.perDestination
    ensures var (t, actions) := ModemDownResponse(m, mac); AllBounds(m, t, Sent(actions))
  {
    var t := ModemDownResponse(m, mac).0;
    assert ModemPlay.About([], mac);
    hide Sent, ResetAction, AllBounds, Bounds, Told, ModemPlay.SameElsewhere, ModemPlay.About;
    ResetSent(m.peerHeartbeat);
    GoneTold(m, mac);
    SilentBounds(m, t, [], mac);
    OneBounds(m, t, [], mac);
  }

  /** Requests answered or deferred leave the addresses alone. */
  lemma LinkRequestBounds(m: Modem, msg: Message, mac: MacAddress)
    requires mac in m.destinations
    ensures var (t, actions) := ModemLinkRequest(m, mac, msg); AllBounds(m, t, Sent(actions))
  {
    var (t, actions) := ModemLinkRequest(m, mac, msg);
    hide AllBounds;
    if m.config.deferLinkCharacteristics {
      RouterPlay.SilentReset(actions[..1], m.peerHeartbeat);
      assert actions == actions[..1] + ResetAction(m.peerHeartbeat);
      hide Sent, ResetAction, BuildLinkResponse;
      SameTold(m, t, []);
    } else {
      RouterPlay.SentReset(actions[..2], m.peerHeartbeat, 0);
      assert actions == actions[..2] + ResetAction(m.peerHeartbeat);
      hide Sent, ResetAction;
      SameTold(m, t, Sent(actions));
    }
  }

  ghost predicate Plain(out: seq<Message>) {
    |out| <= 1 && (|out| == 1 ==>
      || out[0].messageType == SESSION_UPDATE || out[0].messageType == SESSION_UPDATE_RESPONSE
      || out[0].messageType == HEARTBEAT || out[0].messageType == LINK_CHARACTERISTICS_RESPONSE)
  }

  lemma SameTold(m: Modem, t: Modem, out: seq<Message>)
    requires Plain(out) && t.tx.perDestination.Keys == m.tx.perDestination.Keys
    requires t.destinations.Keys == m.destinations.Keys
    requires forall mac :: mac in m.destinations ==>
               && t.destinations[mac].announced == m.destinations[mac].announced
               && t.destinations[mac].advertised == m.destinations[mac].advertised
    ensures AllBounds(m, t, out)
  {
    forall mac ensures Bounds(m, t, out, mac) {
      assert Told(t, mac) == Told(m, mac) by {
        assert mac in t.destinations <==> mac in t.destinations.Keys;
        assert mac in t.tx.perDestination <==> mac in t.tx.perDestination.Keys;
      }
      hide Told, FromItems, ExtractStatus, Bounds;
      SilentBounds(m, t, out, mac);
    }
  }

  lemma AcceptBounds(m: Modem, msg: Message)
    requires ModemInv(m) && ConfigEncodable(m.config) && m.phase.InSession? && ModemCheck(m, msg).None?
    requires msg.messageType != SESSION_TERMINATION && Affirmative(msg)
    ensures var (t, actions) := ModemAccept(m, msg); AllBounds(m, t, Sent(actions))
  {
    ModemInvariant.SlotsOf(m);
    assert Expected(msg.messageType, false, false) by { hide ModemInv, ModemSlots; }
    hide ModemInv, ModemSlots, ModemCheck, ModemAccept, AllBounds, Sent, ConfigEncodable, Affirmative;
    if MAC_ADDRESS in RequiredTypes(msg.messageType) {
      DestinationBounds(m, msg);
    } else {
      SessionBounds(m, msg);
    }
  }

  lemma UpdateSent(m: Modem, msg: Message)
    requires ApplyStrict(FromItems(msg.items), m.peerAddresses).Some?
    ensures Sent(ModemSessionUpdate(m, msg).1) == [BuildSessionUpdateResponse(SUCCESS)]
  {
    hide FromItems, ApplyStrict, Sent;
    SentSingle(ModemSessionUpdate(m, msg).1, 0);
  }

  lemma SessionBounds(m: Modem, msg: Message)
    requires ModemSlots(m) && m.phase.InSession? && ModemCheck(m, msg).None?
    requires msg.messageType == SESSION_UPDATE || msg.messageType == SESSION_UPDATE_RESPONSE
             || msg.messageType == HEARTBEAT
    ensures var (t, actions) := ModemAccept(m, msg); AllBounds(m, t, Sent(actions))
  {
    ModemSpec.AcceptedMessage(m, msg);
    hide AllBounds, Sent, ApplyStrict, FromItems, ModemCheck, ModemSlots, ExtractMac, ResetAction;
    var (t, actions) := ModemAccept(m, msg);
    ResetSent(m.peerHeartbeat);
    if msg.messageType == SESSION_UPDATE { UpdateSent(m, msg); }
    SameTold(m, t, Sent(actions));
  }

  lemma DestinationBounds(m: Modem, msg: Message)
    requires ModemInv(m) && ConfigEncodable(m.config) && m.phase.InSession? && ModemCheck(m, msg).None?
    requires MAC_ADDRESS in RequiredTypes(msg.messageType)
    requires Expected(msg.messageType, false, false) && Affirmative(msg)
    ensures var (t, actions) := ModemAccept(m, msg); AllBounds(m, t, Sent(actions))
  {
    ModemSpec.AcceptedMessage(m, msg);
    var mt, mac := msg.messageType, ExtractMac(msg.items).value;
    ModemInvariant.Settled(m, msg);
    ModemPlay.FormatChecked(m, msg);
    ModemInvariant.SlotsOf(m);
    if mac in m.destinations { ModemPlay.Describe(m, mac); }
    assert ModemAccept(m, msg) ==
      if mt == DESTINATION_UP_RESPONSE then ModemUpResponse(m, mac, msg)
      else if mt == DESTINATION_ANNOUNCE then ModemAnnounce(m, mac, msg)
      else if mt == DESTINATION_DOWN then ModemDown(m, mac)
      else if mt == DESTINATION_DOWN_RESPONSE then ModemDownResponse(m, mac)
      else ModemLinkRequest(m, mac, msg);
    hide AllBounds, Sent, ModemCheck, ModemUpResponse, ModemAnnounce, ModemDown, ModemDownResponse, ModemLinkRequest,
         ModemInv, ExtractMac, ModemPlay.Described, ModemAccept;
    if mt == DESTINATION_UP_RESPONSE { UpResponseBounds(m, msg, mac); }
    else if mt == DESTINATION_ANNOUNCE { AnnounceBounds(m, msg, mac); }
    else if mt == DESTINATION_DOWN { DownBounds(m, mac); }
    else if mt == DESTINATION_DOWN_RESPONSE { DownResponseBounds(m, mac); }
    else { LinkRequestBounds(m, msg, mac); }
  }

  // --- Commands -------------------------------------------------------------

  lemma AddBounds(m: Modem, mac: MacAddress, metrics: LinkMetrics, addrs: DestinationAddrs)
    requires mac !in m.destinations && mac !in m.tx.perDestination && Accepts(m.config.macFormat, mac)
    requires MetricsEncodable(metrics) && SupportedBy(metrics, m.config.initialMetrics)
    requires MetricsEncodable(m.sessionMetrics) && SameSupport(m.sessionMetrics, m.config.initialMetrics)
    requires CleanAddrs(CanonicalAddrs(addrs))
    ensures var (t, actions) := ModemAdd(m, mac, metrics, addrs); AllBounds(m, t, Sent(actions))
  {
    hide CleanAddrs, GoodForRouter, CanonicalAddrs, AllBounds, FromItems, Sent, Reflect, Overlay;
    var (t, actions) := ModemAdd(m, mac, metrics, addrs);
    var effective, a := Absorb(metrics, m.sessionMetrics), CanonicalAddrs(addrs);
    var msg := BuildDestinationUp(mac, effective, a);
    RouterPlay.OneSent(msg);
    ModemInvariant.SupportKept(metrics, m.sessionMetrics, m.config.initialMetrics);
    CanonicalTwice(addrs);
    ModemPlay.UpOk(mac, effective, a, m.config);
    UpRead(mac, effective, a);
    assert msg.messageType == DESTINATION_UP;
    hide MetricsEncodable, BuildDestinationUp, BuildAnnounceAccepted, ExtractMac, SameSupport, SupportedBy;
    assert Told(t, mac) == a;
    NewBounds(m, t, msg, mac);
    hide Bounds, ModemPlay.About;
    OneBounds(m, t, [msg], mac);
  }

  lemma DropBounds(m: Modem, mac: MacAddress)
    requires mac in m.destinations && mac !in m.tx.perDestination
    ensures var (t, actions) := ModemDrop(m, mac); AllBounds(m, t, Sent(actions))
  {
    var (t, actions) := ModemDrop(m, mac);
    hide AllBounds;
    if m.destinations[mac].announced {
      var msg := BuildDestinationDown(mac);
      RouterPlay.OneSent(msg);
      assert ModemPlay.About([msg], mac);
      hide Sent, Bounds;
      GoneBounds(m, t, msg, mac);
      OneBounds(m, t, [msg], mac);
    } else {
      SentNothing(actions);
      assert ModemPlay.About([], mac);
      assert Told(t, mac) == Told(m, mac);
      hide Sent, Bounds, Told;
      SilentBounds(m, t, [], mac);
      OneBounds(m, t, [], mac);
    }
  }

  lemma MetricsCommandBounds(m: Modem, mac: MacAddress, metrics: LinkMetrics)
    requires mac in m.destinations && Accepts(m.config.macFormat, mac)
    requires MetricsEncodable(metrics) && SupportedBy(metrics, m.config.initialMetrics)
    ensures var (t, actions) := ModemUpdateMetrics(m, mac, metrics); AllBounds(m, t, Sent(actions))
  {
    var (t, actions) := ModemUpdateMetrics(m, mac, metrics);
    var msg := BuildDestinationUpdate(mac, metrics);
    hide AllBounds, Overlay;
    if !m.destinations[mac].announced || mac in m.tx.perDestination {
      SentNothing(actions);
      hide Sent;
      SameTold(m, t, []);
    } else {
      RouterPlay.OneSent(msg);
      hide Sent, GoodForRouter, Merge, FromItems, Bounds;
      PlainUpdateGood(mac, metrics, m.config.initialMetrics, m.config.macFormat);
      assert msg.messageType == DESTINATION_UPDATE;
      hide BuildDestinationUpdate, ExtractMac, MetricsEncodable;
      assert ModemPlay.About([msg], mac);
      assert Told(t, mac) == Told(m, mac);
      hide Told;
      SilentBounds(m, t, [msg], mac);
      OneBounds(m, t, [msg], mac);
    }
  }

  lemma AddressesCommandBounds(m: Modem, mac: MacAddress, changes: AddressChanges)
    requires ModemPlay.Described(m, mac)
    ensures var (t, actions) := ModemUpdateAddresses(m, mac, changes); AllBounds(m, t, Sent(actions))
  {
    var (t, actions) := ModemUpdateAddresses(m, mac, changes);
    var d := m.destinations[mac];
    var now := ApplyLenient(changes, d.addrs);
    var c := Between(d.advertised, now);
    LenientKeepsClean(changes, d.addrs);
    hide AllBounds, ApplyLenient, Between, CleanAddrs, SameSupport, MetricsEncodable, ChangeItems;
    if !d.announced || mac in m.tx.perDestination || c == NO_CHANGES {
      SentNothing(actions);
      hide Sent;
      SameTold(m, t, []);
    } else {
      RouterPlay.OneSent(Message(DESTINATION_UPDATE, [Mac(mac)] + ChangeItems(c)));
      assert ModemPlay.SameElsewhere(m, t, mac) && Told(m, mac) == d.advertised && Told(t, mac) == now;
      hide Sent, Told, ModemPlay.SameElsewhere;
      AdvertiseBounds(m, t, mac, c);
    }
  }

  lemma AdvertiseBounds(m: Modem, t: Modem, mac: MacAddress, c: AddressChanges)
    requires ModemPlay.SameElsewhere(m, t, mac) && Accepts(m.config.macFormat, mac)
    requires CleanAddrs(Told(m, mac)) && CleanAddrs(Told(t, mac)) && c == Between(Told(m, mac), Told(t, mac))
    ensures AllBounds(m, t, [Message(DESTINATION_UPDATE, [Mac(mac)] + ChangeItems(c))])
  {
    var msg := Message(DESTINATION_UPDATE, [Mac(mac)] + ChangeItems(c));
    BetweenIsClean(Told(m, mac), Told(t, mac));
    hide ModemPlay.SameElsewhere, Told, Between, CleanAddrs, ChangeItems, GoodForRouter, Merge, FromItems, Bounds,
         AllBounds;
    DestinationAddressesGood(mac, c, m.config.initialMetrics, m.config.macFormat);
    hide ExtractMac;
    assert ModemPlay.About([msg], mac);
    PatchBounds(m, t, msg, mac);
    hide ModemPlay.About;
    OneBounds(m, t, [msg], mac);
  }

  lemma OtherCommandBounds(m: Modem, e: Event)
    requires ModemSlots(m) && Command(e).Some? && ModemCommandError(m, e).None?
    requires e.AppSessionUpdate? || e.AppLinkCharacteristicsResponse? || e.AppSessionAddresses?
    ensures var (t, actions) := ModemCommand(m, e); AllBounds(m, t, Sent(actions))
  {
    hide AllBounds, ModemCommandError, ModemSlots, ValidMetrics, LocalUpdateOk, LocalChange, ApplyLenient, ChangeItems,
         MetricItems, MessageEncodable, Validate, Overlay;
    ModemInvariant.CommandSettled(m, e);
    var (t, actions) := ModemCommand(m, e);
    if |actions| == 1 && actions[0].SendMessage? {
      SentSingle(actions, 0);
    } else {
      SentNothing(actions);
    }
    hide Sent;
    SameTold(m, t, Sent(actions));
  }

  lemma CommandBounds(m: Modem, e: Event)
    requires ModemInv(m) && ConfigEncodable(m.config)
    requires Command(e).Some? && ModemSlots(m) && ModemCommandError(m, e).None?
    ensures var (t, actions) := ModemCommand(m, e); AllBounds(m, t, Sent(actions))
  {
    ModemInvariant.CommandSettled(m, e);
    ModemPlay.SessionSound(m);
    if e.AppUpdateAddresses? { ModemPlay.Describe(m, e.mac); }
    if e.AppSessionUpdate? || e.AppLinkCharacteristicsResponse? || e.AppSessionAddresses? {
      hide AllBounds, Sent, ModemInv, ModemCommand;
      OtherCommandBounds(m, e);
    } else {
      hide AllBounds, Sent, ModemInv, ModemPlay.Described, ModemAdd, ModemDrop, ModemUpdateMetrics,
           ModemUpdateAddresses, Validate, MessageEncodable, CleanAddrs, SupportedBy, LocalUpdateOk, ModemSlots,
           ModemCommandError, MetricsEncodable, SameSupport;
      match e
      case AppAddDestination(mac, metrics, addrs) =>
        ModemInvariant.SendableMetrics(metrics);
        ModemInvariant.AddedIsClean(addrs);
        AddBounds(m, mac, metrics, addrs);
      case AppDropDestination(mac, _) => DropBounds(m, mac);
      case AppUpdateMetrics(mac, metrics) =>
        ModemInvariant.SendableMetrics(metrics);
        MetricsCommandBounds(m, mac, metrics);
      case AppUpdateAddresses(mac, changes) => AddressesCommandBounds(m, mac, changes);
      case AppAnnounceDestination(mac) =>
      case AppRequestLinkCharacteristics(mac, requested) =>
    }
  }

  // --- Every move -----------------------------------------------------------

  lemma RouterKeepsBound(sys: System, taken: seq<Message>, rest: seq<Message>, t: Router, out: seq<Message>,
                         mac: MacAddress)
    requires BoundOk(sys, mac) && sys.toRouter == taken + rest && Listening(sys.router.phase)
    requires Within(AddrsOf(t, mac), OfferAll(AddrsOf(sys.router, mac), taken, mac))
    ensures BoundOk(AfterRouter(sys, rest, t, out), mac)
  {
    OfferConcat(AddrsOf(sys.router, mac), taken, rest, mac);
    OfferMono(AddrsOf(t, mac), OfferAll(AddrsOf(sys.router, mac), taken, mac), rest, mac);
    hide OfferAll, AddrsOf, Told;
    if sys.modem.phase.InSession? {
      WithinTrans(OfferAll(AddrsOf(t, mac), rest, mac), OfferAll(AddrsOf(sys.router, mac), sys.toRouter, mac),
                  Told(sys.modem, mac));
    }
  }

  lemma ModemKeepsBound(sys: System, rest: seq<Message>, t: Modem, out: seq<Message>, mac: MacAddress)
    requires BoundOk(sys, mac) && sys.modem.phase.InSession? && Bounds(sys.modem, t, out, mac)
    ensures BoundOk(AfterModem(sys, rest, t, out), mac)
  {
    OfferConcat(AddrsOf(sys.router, mac), sys.toRouter, out, mac);
    hide OfferAll, AddrsOf, Told, Within;
  }

  ghost predicate AllBound(sys: System) { forall mac :: BoundOk(sys, mac) }

  /** A router still in session after a message has accepted it. */
  lemma StillListening(r: Router, msg: Message)
    requires r.phase.InSession? && RouterSlots(r) && Listening(RouterStep(r, RecvMessage(msg)).0.phase)
    ensures RouterCheck(r, msg).None? && RouterStep(r, RecvMessage(msg)) == RouterAccept(r, msg)
  {
    hide RouterCheck, RouterAccept, FatalStatus, RouterSlots;
  }

  lemma RouterReadOne(sys: System, t: Router, out: seq<Message>, mac: MacAddress)
    requires sys.toRouter != [] && BoundOk(sys, mac)
    requires Listening(t.phase) ==>
               && Listening(sys.router.phase)
               && Within(AddrsOf(t, mac), OfferAll(AddrsOf(sys.router, mac), [sys.toRouter[0]], mac))
    ensures BoundOk(RouterResult(sys, sys.toRouter[1..], t, out), mac)
  {
    hide BoundOk, AddrsOf, OfferAll, Within, AllEncodable;
    var rest := sys.toRouter[1..];
    assert sys.toRouter == [sys.toRouter[0]] + rest;
    if Listening(RouterResult(sys, rest, t, out).router.phase) {
      RouterKeepsBound(sys, [sys.toRouter[0]], rest, t, out, mac);
    } else {
      Deaf(RouterResult(sys, rest, t, out), mac);
    }
  }

  lemma RouterReadKeepsBound(sys: System)
    requires SystemInv(sys) && AllBound(sys) && sys.toRouter != [] && SlotsOk(sys)
    ensures AllBound(Next(sys, DeliverToRouter))
  {
    hide SystemInv, RouterSlots, ModemSlots, RouterStep, Sent, BoundOk, AddrsOf, OfferAll, Within, RouterResult;
    var e := RecvMessage(sys.toRouter[0]);
    var (t, actions) := RouterStep(sys.router, e);
    RouterStepIs(sys, sys.toRouter[1..], e);
    hide StepRouter;
    forall mac ensures BoundOk(Next(sys, DeliverToRouter), mac) {
      assert BoundOk(sys, mac);
      if Listening(t.phase) { ReadWithin(sys, mac); }
      RouterReadOne(sys, t, Sent(actions), mac);
    }
  }

  lemma Deaf(sys: System, mac: MacAddress)
    requires !Listening(sys.router.phase) || !sys.modem.phase.InSession?
    ensures BoundOk(sys, mac)
  {
  }

  lemma ReadWithin(sys: System, mac: MacAddress)
    requires SystemInv(sys) && sys.toRouter != [] && RouterSlots(sys.router)
    requires Listening(RouterStep(sys.router, RecvMessage(sys.toRouter[0])).0.phase)
    ensures Listening(sys.router.phase)
    ensures var r, h := sys.router, sys.toRouter[0];
            Within(AddrsOf(RouterStep(r, RecvMessage(h)).0, mac), OfferAll(AddrsOf(r, mac), [h], mac))
  {
    Parts(sys);
    var r, h := sys.router, sys.toRouter[0];
    hide SystemInv, RouterInv, ModemInv, RouterSlots, ModemSlots, ToModemOk, RouterStep, Within, GoodForRouter,
         BuildInitializationResponse, SupportTypes, ConfigEncodable;
    OfferOne(AddrsOf(r, mac), h, mac);
    if r.phase.InSession? {
      StillListening(r, h);
      AcceptWithin(r, h, mac);
    } else if r.phase.Initializing? {
      hide Offer, AddrsOf;
      EstablishWithin(r, sys.modem.config, mac);
    } else {
      RouterPlay.DeafRouter(r, h);
    }
  }

  lemma EstablishWithin(r: Router, peer: SessionConfig, mac: MacAddress)
    requires r.phase.Initializing? && RouterInv(r) && ConfigEncodable(peer)
    ensures var msg := BuildInitializationResponse(peer);
            RouterSlots(r) && Within(AddrsOf(RouterStep(r, RecvMessage(msg)).0, mac), Offer(AddrsOf(r, mac), msg, mac))
  {
    RouterPlay.BlankFirst(r);
    hide RouterInv, RouterStep, ConfigEncodable, BuildInitializationResponse, RouterSlots, ApplyLenient, FromItems,
         ExtractMac, Merge, MetricTypes, ExtractHeartbeat, ExtractExtensions, ExtractStatus, Within;
    RouterPlay.Welcomed(r, peer);
    RouterPlay.Named(peer);
    WithinItself(AddrsOf(r, mac));
  }

  lemma SameDestinations(r: Router, e: Event)
    requires RouterInv(r) && RouterSlots(r) && !r.phase.Unconnected? && IsLocal(e)
    ensures var t := RouterStep(r, e).0;
            Listening(t.phase) ==> Listening(r.phase) && t.destinations == r.destinations
  {
    hide RouterInv, RouterSlots, RouterStep, Sent, RouterPlay.Plays, RouterPlay.Goodbye, RouterPlay.Farewell;
    RouterPlay.StepMoves(r, e);
  }

  lemma NothingOffered(a: DestinationAddrs, mac: MacAddress)
    ensures Within(a, OfferAll(a, [], mac))
  {
    WithinItself(a);
  }

  lemma AtRouterIs(sys: System, e: Event)
    requires SlotsOk(sys) && IsLocal(e)
    ensures var (t, actions) := RouterStep(sys.router, e);
            Next(sys, AtRouter(e)) == RouterResult(sys, sys.toRouter, t, Sent(actions))
  {
    hide RouterStep, Sent, AllEncodable, RouterSlots, ModemSlots, RouterResult;
    RouterStepIs(sys, sys.toRouter, e);
    assert sys.(toRouter := sys.toRouter) == sys;
  }

  /** A router whose destinations a local event leaves alone. */
  lemma LocalKeepsBound(sys: System, t: Router, out: seq<Message>, mac: MacAddress)
    requires BoundOk(sys, mac)
    requires Listening(t.phase) ==> Listening(sys.router.phase) && t.destinations == sys.router.destinations
    ensures BoundOk(RouterResult(sys, sys.toRouter, t, out), mac)
  {
    hide BoundOk, AllEncodable, Within, OfferAll;
    var after := RouterResult(sys, sys.toRouter, t, out);
    if Listening(after.router.phase) {
      assert sys.toRouter == [] + sys.toRouter;
      NothingOffered(AddrsOf(sys.router, mac), mac);
      RouterKeepsBound(sys, [], sys.toRouter, t, out, mac);
    } else {
      Deaf(after, mac);
    }
  }

  lemma AtRouterKeepsBound(sys: System, e: Event)
    requires SystemInv(sys) && AllBound(sys) && SlotsOk(sys)
    ensures AllBound(Next(sys, AtRouter(e)))
  {
    if IsLocal(e) {
      hide SystemInv, RouterInv, ModemInv, RouterSlots, ModemSlots, ToModemOk, ToRouterOk, Compatible, RouterStep,
           Sent, BoundOk, Command, RouterResult, Next;
      Parts(sys);
      AtRouterIs(sys, e);
      SameDestinations(sys.router, e);
      var (t, actions) := RouterStep(sys.router, e);
      forall mac ensures BoundOk(Next(sys, AtRouter(e)), mac) {
        LocalKeepsBound(sys, t, Sent(actions), mac);
      }
    }
  }

  /** A modem still in session after a message has accepted it. */
  lemma StillInSession(m: Modem, msg: Message)
    requires m.phase.InSession? && ModemSlots(m) && ModemStep(m, RecvMessage(msg)).0.phase.InSession?
    ensures ModemCheck(m, msg).None? && ModemStep(m, RecvMessage(msg)) == ModemAccept(m, msg)
    ensures msg.messageType != SESSION_TERMINATION
  {
    hide ModemCheck, FatalStatus, ModemSlots;
    if ModemCheck(m, msg).None? && msg.messageType == SESSION_TERMINATION {
      ModemPlay.TerminationAccepted(m, msg);
    }
    hide ModemAccept;
  }

  lemma ModemReadKeepsBound(sys: System)
    requires SystemInv(sys) && AllBound(sys) && sys.toModem != [] && SlotsOk(sys) && !sys.modem.phase.Initializing?
    ensures AllBound(Next(sys, DeliverToModem))
  {
    hide SystemInv, RouterInv, ModemInv, RouterSlots, ModemSlots, ToRouterOk, ModemStep, Sent, AllEncodable, BoundOk,
         GoodForModem, Affirmative, ConfigEncodable, Bounds;
    Parts(sys);
    var m, h, rest := sys.modem, sys.toModem[0], sys.toModem[1..];
    var (t, actions) := ModemStep(m, RecvMessage(h));
    ModemStepIs(sys, rest, RecvMessage(h));
    var after := Next(sys, DeliverToModem);
    if after.modem.phase.InSession? {
      ModemInvariant.ModemStepKeepsInvariant(m, RecvMessage(h));
      assert m.phase.InSession? by { DeafStays(m, h); }
      StillInSession(m, h);
      AcceptBounds(m, h);
    }
    forall mac ensures BoundOk(after, mac) {
      assert BoundOk(sys, mac);
      if after.modem.phase.InSession? {
        assert Bounds(m, t, Sent(actions), mac);
        ModemKeepsBound(sys, rest, t, Sent(actions), mac);
      } else {
        Deaf(after, mac);
      }
    }
  }

  lemma DeafStays(m: Modem, msg: Message)
    requires ModemSlots(m) && !m.phase.Initializing? && !m.phase.Unconnected?
    ensures !m.phase.InSession? ==> !ModemStep(m, RecvMessage(msg)).0.phase.InSession?
  {
    hide ModemSlots, ModemAccept, ModemCheck, FatalStatus;
  }

  lemma JoinKeepsBound(sys: System)
    requires SystemInv(sys) && sys.modem.phase.Initializing? && SlotsOk(sys)
    ensures AllBound(Next(sys, DeliverToModem))
  {
    hide SystemInv, RouterInv, ModemInv, RouterSlots, ModemSlots, ToRouterOk, ModemStep, Sent, AllEncodable,
         ConfigEncodable, BuildInitialization, BuildInitializationResponse, BoundOk;
    Parts(sys);
    FreshRouter(sys);
    var h, rest := sys.toModem[0], sys.toModem[1..];
    var (t, actions) := ModemStep(sys.modem, RecvMessage(h));
    ModemPlay.Establishes(sys.modem, sys.router.config);
    ModemStepIs(sys, rest, RecvMessage(h));
    RouterPlay.Named(sys.modem.config);
    var after := Next(sys, DeliverToModem);
    forall mac ensures BoundOk(after, mac) {
      if Listening(after.router.phase) && after.modem.phase.InSession? {
        assert after.toRouter == [BuildInitializationResponse(sys.modem.config)] by {
          assert sys.toRouter == [];
        }
        Untold(after, mac);
      } else {
        Deaf(after, mac);
      }
    }
  }

  lemma Untold(sys: System, mac: MacAddress)
    requires |sys.toRouter| == 1 && sys.toRouter[0].messageType == SESSION_INITIALIZATION_RESPONSE
    requires sys.router.destinations == map[]
    ensures BoundOk(sys, mac)
  {
    OfferOne(NO_ADDRS, sys.toRouter[0], mac);
    assert sys.toRouter == [sys.toRouter[0]];
    WithinItself(Told(sys.modem, mac));
    hide ApplyLenient, FromItems, ExtractMac, Told, Within;
  }

  lemma AtModemKeepsBound(sys: System, e: Event)
    requires SystemInv(sys) && AllBound(sys) && SlotsOk(sys)
    ensures AllBound(Next(sys, AtModem(e)))
  {
    if IsLocal(e) {
      hide SystemInv, RouterInv, ModemInv, RouterSlots, ModemSlots, ToModemOk, ToRouterOk, ModemStep, Sent,
           AllEncodable, BoundOk, Bounds, ConfigEncodable;
      Parts(sys);
      var m := sys.modem;
      var (t, actions) := ModemStep(m, e);
      ModemStepIs(sys, sys.toModem, e);
      assert sys.(toModem := sys.toModem) == sys;
      var after := Next(sys, AtModem(e));
      if after.modem.phase.InSession? { LocalBounds(m, e); }
      forall mac ensures BoundOk(after, mac) {
        assert BoundOk(sys, mac);
        if after.modem.phase.InSession? {
          assert Bounds(m, t, Sent(actions), mac);
          ModemKeepsBound(sys, sys.toModem, t, Sent(actions), mac);
        } else {
          Deaf(after, mac);
        }
      }
    }
  }

  lemma LocalBounds(m: Modem, e: Event)
    requires ModemInv(m) && ModemSlots(m) && ConfigEncodable(m.config) && IsLocal(e) && !m.phase.Unconnected?
    requires ModemStep(m, e).0.phase.InSession?
    ensures m.phase.InSession?
    ensures var (t, actions) := ModemStep(m, e); AllBounds(m, t, Sent(actions))
  {
    hide ModemInv, ModemSlots, ConfigEncodable, AllBounds, Sent, ModemCommandError, ModemCommand, ModemLocal;
    if Command(e).Some? {
      if ModemCommandError(m, e).Some? {
        RejectSent(e, ModemCommandError(m, e).value);
        SameTold(m, m, []);
      } else {
        ModemInvariant.CommandSettled(m, e);
        CommandBounds(m, e);
      }
    } else {
      TimerBounds(m, e);
    }
  }

  lemma RejectSent(e: Event, error: CommandError)
    requires Command(e).Some?
    ensures Sent(Reject(e, error)) == []
  {
    SentNothing(Reject(e, error));
  }

  lemma TimerBounds(m: Modem, e: Event)
    requires ModemLocal(m, e).0.phase.InSession?
    ensures m.phase.InSession?
    ensures var (t, actions) := ModemLocal(m, e); AllBounds(m, t, Sent(actions))
  {
    var (t, actions) := ModemLocal(m, e);
    assert m.phase.InSession? && t == m;
    hide AllBounds, Sent;
    if e.TimerExpired? && e.kind.HeartbeatTimer? {
      RouterPlay.OneSent(BuildHeartbeat());
      SameTold(m, t, [BuildHeartbeat()]);
    } else {
      SentNothing(actions);
      SameTold(m, t, []);
    }
  }

  lemma NextKeepsBound(sys: System, move: Move)
    requires SystemInv(sys) && AllBound(sys)
    ensures SlotsOk(sys) && AllBound(Next(sys, move))
  {
    NextKeepsInvariant(sys, move);
    hide SystemInv, AllBound, SlotsOk, StepRouter, StepModem;
    match move
    case DeliverToRouter => if sys.toRouter != [] { RouterReadKeepsBound(sys); }
    case DeliverToModem =>
      if sys.modem.phase.Initializing? { JoinKeepsBound(sys); }
      else if sys.toModem != [] { ModemReadKeepsBound(sys); }
    case AtRouter(e) => AtRouterKeepsBound(sys, e);
    case AtModem(e) => AtModemKeepsBound(sys, e);
  }

  // --- Main result ----------------------------------------------------------

  lemma {:induction false} RunKeepsBound(sys: System, moves: seq<Move>)
    requires SystemInv(sys) && AllBound(sys)
    ensures AllBound(Run(sys, moves))
    decreases |moves|
  {
    hide SystemInv, AllBound, Next;
    if moves != [] {
      NextKeepsInvariant(sys, moves[0]);
      NextKeepsBound(sys, moves[0]);
      RunKeepsBound(Next(sys, moves[0]), moves[1..]);
    }
  }

  /** At rest in session, each destination's addresses at the router are among
      those the modem has for it. */
  lemma AddressesContained(rc: SessionConfig, mc: SessionConfig, moves: seq<Move>, mac: MacAddress)
    requires Compatible(rc, mc)
    ensures var sys := Reached(rc, mc, moves);
            BothIdle(sys) && mac in sys.router.destinations ==>
              && mac in sys.modem.destinations
              && Within(sys.router.destinations[mac].addrs, sys.modem.destinations[mac].addrs)
  {
    StartOk(rc, mc);
    var start := Start(rc, mc);
    assert AllBound(start) by {
      forall mac ensures BoundOk(start, mac) { Deaf(start, mac); }
    }
    RunKeepsBound(start, moves);
    var sys := Reached(rc, mc, moves);
    hide Compatible, SystemInv, Reached, Run, Start;
    if BothIdle(sys) && mac in sys.router.destinations {
      assert BoundOk(sys, mac);
      AtRest(sys);
      assert SameView(sys.router, sys.modem, mac) && NoneOpen(sys.router, sys.modem, mac);
      Advertised(sys, mac);
    }
  }

  lemma Advertised(sys: System, mac: MacAddress)
    requires SystemInv(sys) && BothIdle(sys) && BoundOk(sys, mac) && mac in sys.router.destinations
    requires mac in sys.modem.destinations && sys.modem.destinations[mac].announced
    requires mac !in sys.modem.tx.perDestination
    ensures Within(sys.router.destinations[mac].addrs, sys.modem.destinations[mac].addrs)
  {
    Parts(sys);
    var d := sys.modem.destinations[mac];
    assert SameAddrs(d.advertised, d.addrs) by { AnnouncedIsTold(sys.modem, mac); }
    assert Told(sys.modem, mac) == d.advertised;
    assert OfferAll(AddrsOf(sys.router, mac), [], mac) == sys.router.destinations[mac].addrs;
    hide SystemInv, RouterInv, ModemInv, RouterSlots, ModemSlots, ToModemOk, ToRouterOk, Compatible;
  }

  lemma AnnouncedIsTold(m: Modem, mac: MacAddress)
    requires ModemInv(m) && mac in m.destinations && m.destinations[mac].announced
    ensures SameAddrs(m.destinations[mac].advertised, m.destinations[mac].addrs)
  {
    hide CleanAddrs, SameAddrs;
  }
}
