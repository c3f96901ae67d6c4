/** What one modem step does to the queues: the router, once it has read all that
    was sent, holds what the modem counts on.
 */
module ModemPlay {
  import opened Types
  import opened Addresses
  import opened Messages
  import opened Transactions
  import opened Validation
  import opened Conformance
  import opened Session
  import opened ModemSpec
  import opened ProtocolSpec
  import opened Exchange
  import opened ModemInvariant
  import RouterPlay

  ghost predicate Speaks(out: seq<Message>, config: SessionConfig) {
    forall i :: 0 <= i < |out| ==>
      GoodForRouter(out[i], config.initialMetrics, config.macFormat) && out[i].messageType != SESSION_TERMINATION
  }

  /** Sending `out` takes a matching router to one that matches `t`. */
  ghost predicate Reflects(m: Modem, t: Modem, out: seq<Message>, mac: MacAddress) {
    forall f :: Matches(f, m, mac) ==> Matches(ReflectAll(f, out, mac), t, mac)
  }

  /** How the announcement of a destination follows its own transaction. */
  ghost predicate Follows(m: Modem, t: Modem, mac: MacAddress, c: seq<Tag>) {
    var scope := DestinationScope(mac);
    && (c == [] && Slot(t.tx, scope).None? ==>
          && Slot(m.tx, scope).None? && Known(t, Some(mac)) == Known(m, Some(mac))
          && (mac in t.pendingLinks ==> mac in m.pendingLinks))
    && (c == [Response(DestinationUp)] ==> Known(t, Some(mac)))
    && (c == [Response(DestinationDown)] ==> !Known(t, Some(mac)))
  }

  ghost predicate TurnAt(m: Modem, taken: seq<Message>, t: Modem, out: seq<Message>, scope: Scope) {
    ModemTurn(Lane(taken, scope), Lane(out, scope), Slot(m.tx, scope), Slot(t.tx, scope),
              Deferred(m, scope), Deferred(t, scope))
  }

  ghost predicate Plays(m: Modem, taken: seq<Message>, t: Modem, out: seq<Message>) {
    && (forall scope :: TurnAt(m, taken, t, out, scope))
    && (forall mac :: Follows(m, t, mac, Lane(taken, DestinationScope(mac))))
    && (forall mac :: Reflects(m, t, out, mac))
    && Readdress(Some(m.peerAddresses), taken) == Some(t.peerAddresses)
    && Readdress(Some(m.localAddresses), out) == Some(t.localAddresses)
    && Speaks(out, m.config)
    && (taken != [] ==> Load(out) < Load(taken))
    && t.phase == m.phase && t.config == m.config
  }

  // --- Turns about one destination ------------------------------------------

  /** At most one message, about one destination only. */
  ghost predicate About(q: seq<Message>, mac: MacAddress) {
    |q| <= 1 && (|q| == 1 ==>
      && ExtractMac(q[0].items) == Some(mac)
      && q[0].messageType != SESSION_UPDATE && q[0].messageType != SESSION_UPDATE_RESPONSE
      && q[0].messageType != SESSION_INITIALIZATION_RESPONSE)
  }

  lemma AboutLane(q: seq<Message>, mac: MacAddress, scope: Scope)
    requires About(q, mac) && scope != DestinationScope(mac)
    ensures Lane(q, scope) == []
  {
    hide ExtractMac;
    if |q| == 1 { LaneOne(q[0], scope); assert q == [q[0]]; }
  }

  lemma AboutReflect(f: Mirror, q: seq<Message>, mac: MacAddress, other: MacAddress)
    requires About(q, mac) && other != mac
    ensures ReflectAll(f, q, other) == f
  {
    hide ExtractMac, Merge;
    if |q| == 1 { ReflectOne(f, q[0], other); assert q == [q[0]]; }
  }

  lemma AboutReaddress(a: DestinationAddrs, q: seq<Message>, mac: MacAddress)
    requires About(q, mac)
    ensures Readdress(Some(a), q) == Some(a)
  {
    hide ExtractMac, ApplyStrict, FromItems;
    if |q| == 1 { ReaddressOne(a, q[0]); assert q == [q[0]]; }
  }

  /** Both states agree on every destination but one. */
  ghost predicate SameElsewhere(m: Modem, t: Modem, mac: MacAddress) {
    && t == m.(tx := t.tx, destinations := t.destinations, pendingLinks := t.pendingLinks)
    && t.tx.session == m.tx.session
    && (forall x :: x != mac ==>
          && (x in t.destinations <==> x in m.destinations)
          && (x in t.tx.perDestination <==> x in m.tx.perDestination)
          && (x in t.pendingLinks <==> x in m.pendingLinks)
          && (x in m.destinations ==> t.destinations[x] == m.destinations[x])
          && (x in m.tx.perDestination ==> t.tx.perDestination[x] == m.tx.perDestination[x]))
  }

  lemma Elsewhere(m: Modem, taken: seq<Message>, t: Modem, out: seq<Message>, mac: MacAddress, scope: Scope)
    requires SameElsewhere(m, t, mac) && About(taken, mac) && About(out, mac) && scope != DestinationScope(mac)
    ensures TurnAt(m, taken, t, out, scope)
    ensures scope.DestinationScope? ==> Follows(m, t, scope.mac, Lane(taken, scope)) && Reflects(m, t, out, scope.mac)
  {
    AboutLane(taken, mac, scope);
    AboutLane(out, mac, scope);
    if scope.DestinationScope? {
      hide Lane, About;
      forall f | Matches(f, m, scope.mac) ensures Matches(ReflectAll(f, out, scope.mac), t, scope.mac) {
        AboutReflect(f, out, mac, scope.mac);
      }
    }
  }

  lemma Touches(m: Modem, taken: seq<Message>, t: Modem, out: seq<Message>, mac: MacAddress)
    requires SameElsewhere(m, t, mac) && About(taken, mac) && About(out, mac)
    requires TurnAt(m, taken, t, out, DestinationScope(mac))
    requires Follows(m, t, mac, Lane(taken, DestinationScope(mac)))
    requires Reflects(m, t, out, mac)
    requires Speaks(out, m.config)
    requires taken != [] ==> Load(out) < Load(taken)
    ensures Plays(m, taken, t, out)
  {
    hide TurnAt, Reflects, Follows, Lane, Speaks, About;
    AboutReaddress(m.peerAddresses, taken, mac);
    AboutReaddress(m.localAddresses, out, mac);
    forall scope ensures TurnAt(m, taken, t, out, scope) {
      if scope != DestinationScope(mac) { Elsewhere(m, taken, t, out, mac, scope); }
    }
    forall x ensures Follows(m, t, x, Lane(taken, DestinationScope(x))) && Reflects(m, t, out, x) {
      if x != mac { Elsewhere(m, taken, t, out, mac, DestinationScope(x)); }
    }
  }

  // --- Requests and responses about a destination ---------------------------

  /** A destination whose record the handshake metrics cover. */
  ghost predicate Described(m: Modem, mac: MacAddress) {
    && mac in m.destinations && Sound(m.destinations[mac], m.config)
    && SameSupport(m.sessionMetrics, m.config.initialMetrics)
    && Accepts(m.config.macFormat, mac)
  }

  ghost predicate Sound(d: ModemDestination, config: SessionConfig) {
    && MetricsEncodable(d.metrics) && SameSupport(d.metrics, config.initialMetrics)
    && CleanAddrs(d.addrs) && CleanAddrs(d.advertised)
  }

  lemma Describe(m: Modem, mac: MacAddress)
    requires ModemInv(m) && ConfigEncodable(m.config) && mac in m.destinations && Accepts(m.config.macFormat, mac)
    ensures Described(m, mac)
  {
    hide CleanAddrs, SameAddrs;
  }

  /** Answering a request about `mac`. */
  lemma Answers(m: Modem, msg: Message, t: Modem, answer: Message, mac: MacAddress, kind: RequestKind)
    requires SameElsewhere(m, t, mac) && About([msg], mac) && About([answer], mac)
    requires DestinationRequestKind(msg.messageType) == Some(kind) && ResponseKind(answer.messageType) == Some(kind)
    requires mac !in m.tx.perDestination && mac !in t.tx.perDestination
    requires mac !in m.pendingLinks && mac !in t.pendingLinks
    requires GoodForRouter(answer, m.config.initialMetrics, m.config.macFormat)
    requires forall f :: Matches(f, m, mac) ==> Matches(Reflect(f, answer, mac), t, mac)
    ensures Plays(m, [msg], t, [answer])
  {
    hide SameElsewhere, GoodForRouter, ExtractMac, Matches, Reflect;
    LaneOne(msg, DestinationScope(mac));
    LaneOne(answer, DestinationScope(mac));
    forall f | Matches(f, m, mac) ensures Matches(ReflectAll(f, [answer], mac), t, mac) {
      ReflectOne(f, answer, mac);
    }
    LoadOne(msg);
    LoadOne(answer);
    assert Speaks([answer], m.config);
    assert TurnAt(m, [msg], t, [answer], DestinationScope(mac));
    hide Lane, ReflectAll, TurnAt, Speaks, About, Plays;
    Touches(m, [msg], t, [answer], mac);
  }

  /** Taking the response to an own request, perhaps with an update to follow. */
  lemma Completes(m: Modem, msg: Message, t: Modem, out: seq<Message>, mac: MacAddress, kind: RequestKind)
    requires SameElsewhere(m, t, mac) && About([msg], mac) && About(out, mac)
    requires ResponseKind(msg.messageType) == Some(kind) && (out == [] || kind == DestinationUp)
    requires Slot(m.tx, DestinationScope(mac)) == Some(kind) && mac !in t.tx.perDestination
    requires t.pendingLinks == m.pendingLinks
    requires kind == DestinationUp ==> Known(t, Some(mac))
    requires kind == DestinationDown ==> !Known(t, Some(mac))
    requires |out| == 1 ==> out[0].messageType == DESTINATION_UPDATE
    requires Speaks(out, m.config)
    requires Reflects(m, t, out, mac)
    ensures Plays(m, [msg], t, out)
  {
    hide SameElsewhere, Speaks, ExtractMac, Reflects;
    LaneOne(msg, DestinationScope(mac));
    assert Lane(out, DestinationScope(mac)) == [] by {
      if |out| == 1 { LaneOne(out[0], DestinationScope(mac)); assert out == [out[0]]; }
    }
    LoadOne(msg);
    if |out| == 1 { LoadOne(out[0]); assert out == [out[0]]; }
    assert TurnAt(m, [msg], t, out, DestinationScope(mac));
    hide Lane, TurnAt, About, Plays;
    Touches(m, [msg], t, out, mac);
  }

  lemma DownPlays(m: Modem, msg: Message, mac: MacAddress)
    requires Described(m, mac) && About([msg], mac) && msg.messageType == DESTINATION_DOWN
    requires m.destinations[mac].announced && mac !in m.tx.perDestination && mac !in m.pendingLinks
    ensures var (t, actions) := ModemDown(m, mac); Plays(m, [msg], t, Sent(actions))
  {
    var (t, actions) := ModemDown(m, mac);
    var answer := BuildDestinationDownResponse(mac, SUCCESS);
    hide Described, About, Plays;
    RouterPlay.SentReset(actions[..2], m.peerHeartbeat, 0);
    assert actions == actions[..2] + ResetAction(m.peerHeartbeat);
    hide Sent, ResetAction;
    assert GoodForRouter(answer, m.config.initialMetrics, m.config.macFormat) && About([answer], mac) by {
      assert Described(m, mac);
      hide GoodForRouter;
      MacAndStatus(DESTINATION_DOWN_RESPONSE, mac, SUCCESS, m.config.initialMetrics, m.config.macFormat);
      RouterPlay.FirstMac(mac, Status(SUCCESS, []));
    }
    hide GoodForRouter, Merge;
    Answers(m, msg, t, answer, mac, DestinationDown);
  }

  lemma DownAnswered(m: Modem, msg: Message, mac: MacAddress)
    requires About([msg], mac) && msg.messageType == DESTINATION_DOWN_RESPONSE
    requires mac in m.destinations && m.destinations[mac].announced
    requires Slot(m.tx, DestinationScope(mac)) == Some(DestinationDown)
    ensures var (t, actions) := ModemDownResponse(m, mac); Plays(m, [msg], t, Sent(actions))
  {
    var (t, actions) := ModemDownResponse(m, mac);
    assert About([], mac);
    hide About, Plays;
    RouterPlay.SilentReset([], m.peerHeartbeat);
    assert actions == [] + ResetAction(m.peerHeartbeat);
    hide Sent, ResetAction, Lane;
    Completes(m, msg, t, [], mac, DestinationDown);
  }

  lemma LinkResponseOk(m: Modem, mac: MacAddress, code: u8, text: Text, metrics: LinkMetrics)
    requires Accepts(m.config.macFormat, mac) && MetricsEncodable(metrics)
    requires SameSupport(metrics, m.config.initialMetrics)
    requires !TerminatesSession(code) && Encodable(Status(code, text))
    ensures var answer := BuildLinkResponse(mac, code, text, metrics);
            && GoodForRouter(answer, m.config.initialMetrics, m.config.macFormat) && About([answer], mac)
            && (forall f: Mirror :: f.Mirror? && f.dest.Some? && SameSupport(f.dest.value, m.config.initialMetrics) ==>
                  Reflect(f, answer, mac) == f.(dest := Some(metrics)))
  {
    hide GoodForRouter, Merge;
    LinkResponseGood(mac, code, text, metrics, m.config.initialMetrics, m.config.macFormat);
    var answer := BuildLinkResponse(mac, code, text, metrics);
    assert answer.messageType == LINK_CHARACTERISTICS_RESPONSE;
    hide BuildLinkResponse, ExtractMac;
  }

  lemma LinkRequestAnswered(m: Modem, msg: Message, mac: MacAddress)
    requires Described(m, mac) && About([msg], mac) && msg.messageType == LINK_CHARACTERISTICS_REQUEST
    requires m.destinations[mac].announced && mac !in m.tx.perDestination && mac !in m.pendingLinks
    requires !m.destinations[mac].pendingMetrics && !m.config.deferLinkCharacteristics
    ensures var (t, actions) := ModemLinkRequest(m, mac, msg); Plays(m, [msg], t, Sent(actions))
  {
    var (t, actions) := ModemLinkRequest(m, mac, msg);
    var metrics := m.destinations[mac].metrics;
    var answer := BuildLinkResponse(mac, REQUEST_DENIED, [], metrics);
    hide Plays, About, GoodForRouter, Reflect;
    LinkResponseOk(m, mac, REQUEST_DENIED, [], metrics);
    RouterPlay.SentReset(actions[..2], m.peerHeartbeat, 0);
    assert actions == actions[..2] + ResetAction(m.peerHeartbeat);
    hide Sent, ResetAction;
    assert answer.messageType == LINK_CHARACTERISTICS_RESPONSE;
    hide BuildLinkResponse, Sound;
    Answers(m, msg, t, answer, mac, LinkCharacteristicsKind);
  }

  lemma LinkRequestDeferred(m: Modem, msg: Message, mac: MacAddress)
    requires mac in m.destinations && About([msg], mac) && msg.messageType == LINK_CHARACTERISTICS_REQUEST
    requires mac !in m.tx.perDestination && mac !in m.pendingLinks
    requires m.config.deferLinkCharacteristics
    ensures var (t, actions) := ModemLinkRequest(m, mac, msg); Plays(m, [msg], t, Sent(actions))
  {
    var (t, actions) := ModemLinkRequest(m, mac, msg);
    RouterPlay.SilentReset(actions[..1], m.peerHeartbeat);
    assert actions == actions[..1] + ResetAction(m.peerHeartbeat);
    hide Sent, ResetAction;
    LaneOne(msg, DestinationScope(mac));
    assert Lane([], DestinationScope(mac)) == [];
    LoadOne(msg);
    assert TurnAt(m, [msg], t, [], DestinationScope(mac));
    assert Follows(m, t, mac, Lane([msg], DestinationScope(mac)));
    assert Reflects(m, t, [], mac);
    hide Lane, TurnAt, Follows, Reflects, Plays;
    Touches(m, [msg], t, [], mac);
  }

  lemma AnnounceSent(m: Modem, msg: Message, mac: MacAddress)
    ensures Sent(ModemAnnounce(m, mac, msg).1)
         == [if mac in m.destinations
             then BuildAnnounceAccepted(mac, m.destinations[mac].metrics, m.destinations[mac].addrs)
             else BuildAnnounceDenied(mac)]
  {
    var actions := ModemAnnounce(m, mac, msg).1;
    RouterPlay.SentReset(actions[..2], m.peerHeartbeat, 0);
    assert actions == actions[..2] + ResetAction(m.peerHeartbeat);
  }

  lemma AnnounceAccepted(m: Modem, msg: Message, mac: MacAddress)
    requires Described(m, mac) && About([msg], mac) && msg.messageType == DESTINATION_ANNOUNCE
    requires !m.destinations[mac].announced && mac !in m.tx.perDestination && mac !in m.pendingLinks
    ensures var (t, actions) := ModemAnnounce(m, mac, msg); Plays(m, [msg], t, Sent(actions))
  {
    var (t, actions) := ModemAnnounce(m, mac, msg);
    var d, initial := m.destinations[mac], m.config.initialMetrics;
    var answer := BuildAnnounceAccepted(mac, d.metrics, d.addrs);
    AnnounceSent(m, msg, mac);
    hide Plays, GoodForRouter, CleanAddrs, Merge, Sent;
    AnnounceAcceptedGood(mac, d.metrics, d.addrs, initial, m.config.macFormat);
    assert answer.messageType == DESTINATION_ANNOUNCE_RESPONSE;
    hide BuildAnnounceAccepted, ExtractMac, ExtractStatus;
    assert About([answer], mac);
    hide About;
    Answers(m, msg, t, answer, mac, DestinationAnnounce);
  }

  lemma AnnounceDenied(m: Modem, msg: Message, mac: MacAddress)
    requires mac !in m.destinations && About([msg], mac) && msg.messageType == DESTINATION_ANNOUNCE
    requires mac !in m.tx.perDestination && mac !in m.pendingLinks && Accepts(m.config.macFormat, mac)
    ensures var (t, actions) := ModemAnnounce(m, mac, msg); Plays(m, [msg], t, Sent(actions))
  {
    var answer := BuildAnnounceDenied(mac);
    AnnounceSent(m, msg, mac);
    hide Plays, GoodForRouter, GoodForModem, Merge, Sent;
    MacAndStatus(DESTINATION_ANNOUNCE_RESPONSE, mac, REQUEST_DENIED, m.config.initialMetrics, m.config.macFormat);
    RouterPlay.FirstMac(mac, Status(REQUEST_DENIED, []));
    hide ExtractMac, ExtractStatus;
    assert About([answer], mac);
    hide About;
    Answers(m, msg, m, answer, mac, DestinationAnnounce);
  }

  /** An update the router takes without breaking, and what it then holds. */
  ghost predicate Update(msg: Message, mac: MacAddress, config: SessionConfig) {
    && msg.messageType == DESTINATION_UPDATE && About([msg], mac)
    && GoodForRouter(msg, config.initialMetrics, config.macFormat)
  }

  lemma MetricsUpdate(mac: MacAddress, metrics: LinkMetrics, c: AddressChanges, config: SessionConfig)
    requires Accepts(config.macFormat, mac) && MetricsEncodable(metrics) && SupportedBy(metrics, config.initialMetrics)
    requires CleanAddrs(c.added) && CleanAddrs(c.removed)
    ensures var msg := Message(DESTINATION_UPDATE, BuildDestinationUpdate(mac, metrics).items + ChangeItems(c));
            && Update(msg, mac, config)
            && forall f: Mirror :: f.Mirror? && f.dest.Some? ==>
                 Reflect(f, msg, mac) == f.(dest := Some(Overlay(metrics, f.dest.value)))
  {
    hide GoodForRouter, Merge, CleanAddrs, Overlay, FromItems;
    DestinationMetricsGood(mac, metrics, c, config.initialMetrics, config.macFormat);
    var msg := Message(DESTINATION_UPDATE, BuildDestinationUpdate(mac, metrics).items + ChangeItems(c));
    hide ExtractMac, ChangeItems, BuildDestinationUpdate;
  }

  lemma AddressUpdate(mac: MacAddress, c: AddressChanges, config: SessionConfig)
    requires Accepts(config.macFormat, mac) && CleanAddrs(c.added) && CleanAddrs(c.removed)
    ensures var msg := Message(DESTINATION_UPDATE, [Mac(mac)] + ChangeItems(c));
            && Update(msg, mac, config)
            && forall f: Mirror :: f.Mirror? && f.dest.Some? ==> Reflect(f, msg, mac) == f
  {
    hide GoodForRouter, Merge, CleanAddrs, FromItems;
    DestinationAddressesGood(mac, c, config.initialMetrics, config.macFormat);
    var msg := Message(DESTINATION_UPDATE, [Mac(mac)] + ChangeItems(c));
    hide ExtractMac, ChangeItems;
  }

  ghost predicate Behind(f: Mirror, d: ModemDestination) {
    && f.Mirror? && f.dest.Some? && SameSupport(f.dest.value, d.metrics)
    && (!d.pendingMetrics ==> f.dest.value == d.metrics)
  }

  lemma CatchUpOk(mac: MacAddress, d: ModemDestination, config: SessionConfig)
    requires Accepts(config.macFormat, mac) && Sound(d, config)
    ensures var late := CatchUp(mac, d);
            && |late| <= 1 && (|late| == 1 ==> Update(late[0], mac, config))
            && forall f :: Behind(f, d) ==> ReflectAll(f, late, mac) == f.(dest := Some(d.metrics))
  {
    var late, c := CatchUp(mac, d), Between(d.advertised, d.addrs);
    BetweenIsClean(d.advertised, d.addrs);
    hide GoodForRouter, CleanAddrs, Between, ChangeItems, Update, Reflect, BuildDestinationUpdate;
    if d.pendingMetrics {
      MetricsUpdate(mac, d.metrics, c, config);
    } else {
      AddressUpdate(mac, c, config);
    }
    forall f | Behind(f, d) ensures ReflectAll(f, late, mac) == f.(dest := Some(d.metrics)) {
      if |late| == 1 { ReflectOne(f, late[0], mac); assert late == [late[0]]; }
    }
  }

  /** Once answered, a new destination is exactly as the modem has it. */
  lemma UpReflects(m: Modem, msg: Message, mac: MacAddress)
    requires Described(m, mac) && ExtractStatus(msg.items) == Some(SUCCESS)
    requires !m.destinations[mac].announced && mac in m.tx.perDestination
    ensures Reflects(m, ModemUpResponse(m, mac, msg).0, CatchUp(mac, m.destinations[mac]), mac)
  {
    var t, d := ModemUpResponse(m, mac, msg).0, m.destinations[mac];
    CatchUpOk(mac, d, m.config);
    hide CatchUp, ReflectAll, CleanAddrs, Update, ExtractStatus, ResetAction, Sending, MetricsEncodable;
    forall f | Matches(f, m, mac) ensures Matches(ReflectAll(f, CatchUp(mac, d), mac), t, mac) {
      assert Behind(f, d);
    }
  }

  lemma UpAnswered(m: Modem, msg: Message, mac: MacAddress)
    requires Described(m, mac) && About([msg], mac) && msg.messageType == DESTINATION_UP_RESPONSE && Affirmative(msg)
    requires !m.destinations[mac].announced && Slot(m.tx, DestinationScope(mac)) == Some(DestinationUp)
    ensures var (t, actions) := ModemUpResponse(m, mac, msg); Plays(m, [msg], t, Sent(actions))
  {
    CatchUpOk(mac, m.destinations[mac], m.config);
    hide Plays, CatchUp, About, Sent, ModemUpResponse, Reflects, Update, ExtractStatus;
    UpSent(m, msg, mac);
    UpReflects(m, msg, mac);
    UpCompletes(m, msg, mac, ModemUpResponse(m, mac, msg).0, CatchUp(mac, m.destinations[mac]));
  }

  lemma UpSent(m: Modem, msg: Message, mac: MacAddress)
    requires mac in m.destinations && ExtractStatus(msg.items) == Some(SUCCESS)
    requires |CatchUp(mac, m.destinations[mac])| <= 1
    ensures Sent(ModemUpResponse(m, mac, msg).1) == CatchUp(mac, m.destinations[mac])
  {
    var late := CatchUp(mac, m.destinations[mac]);
    var head := Sending(late);
    hide CatchUp, Sent;
    if |late| == 1 {
      RouterPlay.SentReset(head, m.peerHeartbeat, 0);
      assert late == [late[0]];
    } else {
      RouterPlay.SilentReset(head, m.peerHeartbeat);
    }
  }

  lemma UpCompletes(m: Modem, msg: Message, mac: MacAddress, t: Modem, late: seq<Message>)
    requires mac in m.destinations && About([msg], mac) && msg.messageType == DESTINATION_UP_RESPONSE
    requires Slot(m.tx, DestinationScope(mac)) == Some(DestinationUp) && ExtractStatus(msg.items) == Some(SUCCESS)
    requires t == ModemUpResponse(m, mac, msg).0
    requires |late| <= 1 && (|late| == 1 ==> Update(late[0], mac, m.config))
    requires Reflects(m, t, late, mac)
    ensures Plays(m, [msg], t, late)
  {
    hide CatchUp, ExtractStatus, GoodForRouter, ExtractMac, Reflects, ResetAction, Sending;
    assert |late| == 1 ==> late == [late[0]];
    assert About(late, mac) && Speaks(late, m.config);
    hide Speaks, About, Update, Plays;
    Completes(m, msg, t, late, mac, DestinationUp);
  }

  // --- Turns about the session ----------------------------------------------

  /** At most one message, about no destination. */
  ghost predicate Sessional(q: seq<Message>) {
    |q| <= 1 && (|q| == 1 ==>
      || q[0].messageType == SESSION_UPDATE || q[0].messageType == SESSION_UPDATE_RESPONSE
      || q[0].messageType == HEARTBEAT)
  }

  lemma SessionalLane(q: seq<Message>, mac: MacAddress)
    requires Sessional(q)
    ensures Lane(q, DestinationScope(mac)) == []
  {
    hide ExtractMac;
    if |q| == 1 { LaneOne(q[0], DestinationScope(mac)); assert q == [q[0]]; }
  }

  lemma SessionTurns(m: Modem, taken: seq<Message>, t: Modem, out: seq<Message>)
    requires Sessional(taken) && Sessional(out)
    requires t.tx.perDestination == m.tx.perDestination && t.pendingLinks == m.pendingLinks
    requires forall mac :: Known(t, Some(mac)) == Known(m, Some(mac))
    requires TurnAt(m, taken, t, out, SessionScope)
    requires forall mac :: Reflects(m, t, out, mac)
    requires Readdress(Some(m.peerAddresses), taken) == Some(t.peerAddresses)
    requires Readdress(Some(m.localAddresses), out) == Some(t.localAddresses)
    requires Speaks(out, m.config) && t.phase == m.phase && t.config == m.config
    requires taken != [] ==> Load(out) < Load(taken)
    ensures Plays(m, taken, t, out)
  {
    hide Lane, Reflects, Readdress, Speaks, Sessional, Known;
    forall scope ensures TurnAt(m, taken, t, out, scope) {
      if scope.DestinationScope? {
        SessionalLane(taken, scope.mac);
        SessionalLane(out, scope.mac);
      }
    }
    forall mac ensures Follows(m, t, mac, Lane(taken, DestinationScope(mac))) {
      SessionalLane(taken, mac);
    }
  }

  /** Nothing the router mirrors has changed, and nothing was said about it. */
  lemma Unreflected(m: Modem, t: Modem, out: seq<Message>)
    requires t.destinations == m.destinations && t.tx.perDestination == m.tx.perDestination
    requires t.sessionMetrics == m.sessionMetrics && t.config == m.config
    requires |out| <= 1
    requires |out| == 1 ==> out[0].messageType == SESSION_UPDATE_RESPONSE || out[0].messageType == HEARTBEAT
                            || (out[0].messageType == SESSION_UPDATE && forall x :: Merge(out[0].items, x) == x)
    ensures forall mac :: Reflects(m, t, out, mac)
  {
    hide ExtractMac, Merge, Matches;
    forall mac, f: Mirror ensures Matches(f, m, mac) ==> ReflectAll(f, out, mac) == f && Matches(f, t, mac) {
      if Matches(f, m, mac) {
        SameMatch(f, m, t, mac);
        if |out| == 1 {
          ReflectOne(f, out[0], mac);
          Unmoved(f, out[0], mac);
          assert out == [out[0]];
        }
      }
    }
  }

  lemma Unmoved(f: Mirror, msg: Message, mac: MacAddress)
    requires msg.messageType == SESSION_UPDATE_RESPONSE || msg.messageType == HEARTBEAT
             || (msg.messageType == SESSION_UPDATE && forall x :: Merge(msg.items, x) == x)
    ensures Reflect(f, msg, mac) == f
  {
    hide Merge, ExtractMac;
    if f.Mirror? && msg.messageType == SESSION_UPDATE {
      assert Merge(msg.items, f.session) == f.session;
      if f.dest.Some? { assert Merge(msg.items, f.dest.value) == f.dest.value; }
    }
  }

  lemma SameMatch(f: Mirror, m: Modem, t: Modem, mac: MacAddress)
    requires t.destinations == m.destinations && t.tx.perDestination == m.tx.perDestination
    requires t.sessionMetrics == m.sessionMetrics && t.config == m.config
    ensures Matches(f, m, mac) == Matches(f, t, mac)
  {
  }

  lemma SessionUpdatePlays(m: Modem, msg: Message)
    requires msg.messageType == SESSION_UPDATE && ApplyStrict(FromItems(msg.items), m.peerAddresses).Some?
    requires m.tx.session.None?
    ensures var (t, actions) := ModemSessionUpdate(m, msg); Plays(m, [msg], t, Sent(actions))
  {
    var (t, actions) := ModemSessionUpdate(m, msg);
    var answer := BuildSessionUpdateResponse(SUCCESS);
    SentSingle(actions, 0);
    hide Sent, FromItems, ApplyStrict, Plays, ExtractMac, ModemInv;
    StatusOnly(SESSION_UPDATE_RESPONSE, SUCCESS, m.config.initialMetrics, m.config.macFormat);
    hide GoodForRouter, GoodForModem;
    assert Speaks([answer], m.config);
    Unreflected(m, t, [answer]);
    LaneOne(msg, SessionScope);
    LaneOne(answer, SessionScope);
    ReaddressOne(m.peerAddresses, msg);
    ReaddressOne(m.localAddresses, answer);
    LoadOne(msg);
    LoadOne(answer);
    hide Lane, Reflects, Readdress, Speaks;
    SessionTurns(m, [msg], t, [answer]);
  }

  lemma UpdateAnswered(m: Modem, msg: Message)
    requires msg.messageType == SESSION_UPDATE_RESPONSE
    ensures Plays(m, [msg], m.(tx := Close(m.tx, SessionScope)), [])
  {
    var t := m.(tx := Close(m.tx, SessionScope));
    hide FromItems, ApplyStrict, Plays, ExtractMac;
    Unreflected(m, t, []);
    LaneOne(msg, SessionScope);
    assert Lane([], SessionScope) == [];
    ReaddressOne(m.peerAddresses, msg);
    LoadOne(msg);
    hide Lane, Reflects;
    SessionTurns(m, [msg], t, []);
  }

  lemma HeartbeatPlays(m: Modem, msg: Message)
    requires msg.messageType == HEARTBEAT
    ensures Plays(m, [msg], m, [])
  {
    hide FromItems, ApplyStrict, Plays, ExtractMac;
    Unreflected(m, m, []);
    LaneOne(msg, SessionScope);
    assert Lane([], SessionScope) == [];
    ReaddressOne(m.peerAddresses, msg);
    LoadOne(msg);
    hide Lane, Reflects;
    SessionTurns(m, [msg], m, []);
  }

  lemma Idles(m: Modem)
    ensures Plays(m, [], m, [])
  {
    hide Plays;
    Unreflected(m, m, []);
    assert Lane([], SessionScope) == [];
    hide Reflects;
    SessionTurns(m, [], m, []);
  }

  lemma HeartbeatActs(m: Modem)
    ensures Plays(m, [], m, [BuildHeartbeat()])
  {
    var msg := BuildHeartbeat();
    HeartbeatGood(m.config.initialMetrics, m.config.macFormat);
    hide Plays, GoodForRouter, GoodForModem, FromItems, ApplyStrict;
    assert Speaks([msg], m.config);
    Unreflected(m, m, [msg]);
    LaneOne(msg, SessionScope);
    assert Lane([], SessionScope) == [];
    ReaddressOne(m.localAddresses, msg);
    hide Reflects, Lane, Speaks;
    SessionTurns(m, [], m, [msg]);
  }

  /** A Session Update request, with what it makes of metrics and addresses. */
  lemma Requests(m: Modem, t: Modem, msg: Message)
    requires msg.messageType == SESSION_UPDATE && m.tx.session.None?
    requires t.tx == Open(m.tx, SessionScope, SessionUpdate)
    requires t.pendingLinks == m.pendingLinks && t.peerAddresses == m.peerAddresses
    requires t.phase == m.phase && t.config == m.config
    requires forall mac :: Known(t, Some(mac)) == Known(m, Some(mac))
    requires forall mac :: Reflects(m, t, [msg], mac)
    requires GoodForRouter(msg, m.config.initialMetrics, m.config.macFormat)
    requires ApplyStrict(FromItems(msg.items), m.localAddresses) == Some(t.localAddresses)
    ensures Plays(m, [], t, [msg])
  {
    hide Plays, GoodForRouter, FromItems, ApplyStrict, Known, Reflects, ExtractMac;
    assert Speaks([msg], m.config);
    LaneOne(msg, SessionScope);
    assert Lane([], SessionScope) == [];
    ReaddressOne(m.localAddresses, msg);
    hide Lane, Speaks;
    SessionTurns(m, [], t, [msg]);
  }

  /** Every record absorbs the session metrics, here and at the router. */
  lemma SessionMetricsReflected(m: Modem, metrics: LinkMetrics, mac: MacAddress)
    requires SupportedBy(metrics, m.config.initialMetrics)
    ensures Reflects(m, ModemUpdateSession(m, metrics).0, [BuildSessionUpdate(metrics)], mac)
  {
    var msg := BuildSessionUpdate(metrics);
    var t := ModemUpdateSession(m, metrics).0;
    hide Merge, MetricItems;
    forall f | Matches(f, m, mac) ensures Matches(ReflectAll(f, [msg], mac), t, mac) {
      ReflectOne(f, msg, mac);
      MergeBuilt(metrics, f.session);
      if f.dest.Some? {
        MergeBuilt(metrics, f.dest.value);
        SupportKept(metrics, f.dest.value, m.config.initialMetrics);
      }
    }
  }

  lemma SessionMetricsPlays(m: Modem, metrics: LinkMetrics)
    requires ValidMetrics(m, metrics) && m.tx.session.None?
    ensures var (t, actions) := ModemUpdateSession(m, metrics); Plays(m, [], t, Sent(actions))
  {
    var (t, actions) := ModemUpdateSession(m, metrics);
    var msg := BuildSessionUpdate(metrics);
    SendableMetrics(metrics);
    SessionMetricsGood(metrics, m.config.initialMetrics, m.config.macFormat);
    RouterPlay.OneSent(msg);
    NoChangeApplies(m.localAddresses);
    forall mac ensures Reflects(m, t, [msg], mac) { SessionMetricsReflected(m, metrics, mac); }
    hide Plays, GoodForRouter, FromItems, ApplyStrict, Reflects, MetricItems, MessageEncodable;
    Requests(m, t, msg);
  }

  lemma AddressCommand(m: Modem, changes: AddressChanges)
    requires CleanAddrs(m.localAddresses) && m.tx.session.None?
    ensures var (tx, local, actions) := LocalUpdate(m.tx, m.localAddresses, changes);
            Plays(m, [], m.(tx := tx, localAddresses := local), Sent(actions))
  {
    var (tx, local, actions) := LocalUpdate(m.tx, m.localAddresses, changes);
    var t := m.(tx := tx, localAddresses := local);
    hide LocalUpdateOk, LocalChange, ApplyLenient, Plays, Sent, CleanAddrs, GoodForModem, GoodForRouter, Merge,
         ApplyStrict, FromItems, ChangeItems;
    if LocalUpdateOk(m.localAddresses, changes) && LocalChange(m.localAddresses, changes) != NO_CHANGES {
      var msg := BuildAddressUpdate(LocalChange(m.localAddresses, changes));
      RouterPlay.OneSent(msg);
      RouterPlay.Readdressed(m.localAddresses, changes, m.config.macFormat, m.config.initialMetrics);
      ReaddressOne(m.localAddresses, msg);
      Unreflected(m, t, [msg]);
      hide Reflects, Readdress;
      Requests(m, t, msg);
    } else {
      SentNothing(actions);
      Idles(m);
      assert t == m;
    }
  }

  // --- Commands about a destination -----------------------------------------

  /** A new request about `mac`. */
  lemma Asks(m: Modem, t: Modem, msg: Message, mac: MacAddress, kind: RequestKind)
    requires SameElsewhere(m, t, mac) && About([msg], mac)
    requires DestinationRequestKind(msg.messageType) == Some(kind)
    requires mac !in m.tx.perDestination && Slot(t.tx, DestinationScope(mac)) == Some(kind)
    requires t.pendingLinks == m.pendingLinks
    requires GoodForRouter(msg, m.config.initialMetrics, m.config.macFormat)
    requires forall f :: Matches(f, m, mac) ==> Matches(Reflect(f, msg, mac), t, mac)
    ensures Plays(m, [], t, [msg])
  {
    hide SameElsewhere, GoodForRouter, ExtractMac, Matches, Reflect;
    LaneOne(msg, DestinationScope(mac));
    assert Lane([], DestinationScope(mac)) == [];
    forall f | Matches(f, m, mac) ensures Matches(ReflectAll(f, [msg], mac), t, mac) {
      ReflectOne(f, msg, mac);
    }
    assert Speaks([msg], m.config);
    assert TurnAt(m, [], t, [msg], DestinationScope(mac));
    assert About([], mac);
    hide Lane, ReflectAll, TurnAt, Speaks, About, Plays;
    Touches(m, [], t, [msg], mac);
  }

  /** A silent change of the record, or one sent along as an update. */
  lemma Revises(m: Modem, t: Modem, out: seq<Message>, mac: MacAddress)
    requires SameElsewhere(m, t, mac) && t.tx == m.tx && t.pendingLinks == m.pendingLinks
    requires Known(t, Some(mac)) == Known(m, Some(mac))
    requires |out| <= 1 && (|out| == 1 ==> Update(out[0], mac, m.config))
    requires forall f :: Matches(f, m, mac) ==> Matches(if |out| == 1 then Reflect(f, out[0], mac) else f, t, mac)
    ensures Plays(m, [], t, out)
  {
    hide SameElsewhere, GoodForRouter, ExtractMac, Matches, Reflect, Known;
    var scope := DestinationScope(mac);
    assert Lane([], scope) == [];
    assert |out| == 1 ==> out == [out[0]];
    if |out| == 1 { LaneOne(out[0], scope); }
    forall f | Matches(f, m, mac) ensures Matches(ReflectAll(f, out, mac), t, mac) {
      if |out| == 1 { ReflectOne(f, out[0], mac); }
    }
    assert Speaks(out, m.config);
    assert TurnAt(m, [], t, out, scope);
    assert About([], mac) && About(out, mac);
    hide Lane, ReflectAll, TurnAt, Speaks, About, Plays;
    Touches(m, [], t, out, mac);
  }

  lemma UpOk(mac: MacAddress, metrics: LinkMetrics, a: DestinationAddrs, config: SessionConfig)
    requires Accepts(config.macFormat, mac) && MetricsEncodable(metrics) && SupportedBy(metrics, config.initialMetrics)
    requires CleanAddrs(a)
    ensures var msg := BuildDestinationUp(mac, metrics, a);
            && GoodForRouter(msg, config.initialMetrics, config.macFormat) && About([msg], mac)
            && forall f: Mirror :: f.Mirror? && f.dest.None? ==>
                 Reflect(f, msg, mac) == f.(dest := Some(Overlay(metrics, f.session)))
  {
    hide GoodForRouter, Merge, CleanAddrs, MetricsEncodable, Overlay;
    DestinationUpGood(mac, metrics, a, config.initialMetrics, config.macFormat);
    assert BuildDestinationUp(mac, metrics, a).messageType == DESTINATION_UP;
    hide BuildDestinationUp, ExtractMac;
  }

  lemma AddPlays(m: Modem, mac: MacAddress, metrics: LinkMetrics, addrs: DestinationAddrs)
    requires mac !in m.destinations && mac !in m.tx.perDestination && Accepts(m.config.macFormat, mac)
    requires MetricsEncodable(metrics) && SupportedBy(metrics, m.config.initialMetrics)
    requires MetricsEncodable(m.sessionMetrics) && SameSupport(m.sessionMetrics, m.config.initialMetrics)
    requires CleanAddrs(CanonicalAddrs(addrs))
    ensures var (t, actions) := ModemAdd(m, mac, metrics, addrs); Plays(m, [], t, Sent(actions))
  {
    var (t, actions) := ModemAdd(m, mac, metrics, addrs);
    var effective, a := Absorb(metrics, m.sessionMetrics), CanonicalAddrs(addrs);
    var msg := BuildDestinationUp(mac, effective, a);
    hide CleanAddrs, GoodForRouter, CanonicalAddrs, Reflect, About, Plays;
    RouterPlay.OneSent(msg);
    SupportKept(metrics, m.sessionMetrics, m.config.initialMetrics);
    UpOk(mac, effective, a, m.config);
    assert msg.messageType == DESTINATION_UP;
    hide MetricsEncodable, Sent, BuildDestinationUp;
    AddReflected(m, t, mac, effective, msg);
    hide Matches, SameSupport, Overlay;
    Asks(m, t, msg, mac, DestinationUp);
  }

  lemma AddReflected(m: Modem, t: Modem, mac: MacAddress, effective: LinkMetrics, msg: Message)
    requires mac !in m.destinations && SameSupport(effective, m.config.initialMetrics)
    requires SameSupport(m.sessionMetrics, m.config.initialMetrics)
    requires t.sessionMetrics == m.sessionMetrics && t.config == m.config
    requires mac in t.destinations && mac in t.tx.perDestination
    requires !t.destinations[mac].announced && t.destinations[mac].metrics == effective
    requires forall f: Mirror :: f.Mirror? && f.dest.None? ==>
               Reflect(f, msg, mac) == f.(dest := Some(Overlay(effective, f.session)))
    ensures forall f :: Matches(f, m, mac) ==> Matches(Reflect(f, msg, mac), t, mac)
  {
    hide Reflect;
  }

  lemma DropPlays(m: Modem, mac: MacAddress)
    requires mac in m.destinations && mac !in m.tx.perDestination && Accepts(m.config.macFormat, mac)
    ensures var (t, actions) := ModemDrop(m, mac); Plays(m, [], t, Sent(actions))
  {
    var (t, actions) := ModemDrop(m, mac);
    if m.destinations[mac].announced {
      var msg := BuildDestinationDown(mac);
      RouterPlay.OneSent(msg);
      hide GoodForRouter, GoodForModem, Sent, Merge;
      MacOnly(DESTINATION_DOWN, mac, m.config.initialMetrics, m.config.macFormat);
      assert About([msg], mac);
      hide About, Plays;
      Asks(m, t, msg, mac, DestinationDown);
    } else {
      hide Plays;
      Revises(m, t, [], mac);
    }
  }

  lemma MetricsCommand(m: Modem, mac: MacAddress, metrics: LinkMetrics)
    requires mac in m.destinations && Accepts(m.config.macFormat, mac)
    requires MetricsEncodable(metrics) && SupportedBy(metrics, m.config.initialMetrics)
    requires m.destinations[mac].announced ==> !m.destinations[mac].pendingMetrics
    requires mac in m.tx.perDestination ==> !m.destinations[mac].announced
    ensures var (t, actions) := ModemUpdateMetrics(m, mac, metrics); Plays(m, [], t, Sent(actions))
  {
    var (t, actions) := ModemUpdateMetrics(m, mac, metrics);
    if !m.destinations[mac].announced {
      hide Plays;
      Revises(m, t, [], mac);
    } else {
      var msg := BuildDestinationUpdate(mac, metrics);
      RouterPlay.OneSent(msg);
      hide Plays, Sent, GoodForRouter, Merge, FromItems;
      PlainUpdateGood(mac, metrics, m.config.initialMetrics, m.config.macFormat);
      assert msg.messageType == DESTINATION_UPDATE;
      hide BuildDestinationUpdate, ExtractMac, MetricsEncodable;
      forall f | Matches(f, m, mac) ensures Matches(Reflect(f, msg, mac), t, mac) {
        SupportKept(metrics, f.dest.value, m.config.initialMetrics);
      }
      hide Matches, Reflect;
      Revises(m, t, [msg], mac);
    }
  }

  lemma SameRecord(m: Modem, t: Modem, mac: MacAddress)
    requires mac in m.destinations && t == m.(destinations := t.destinations) && mac in t.destinations
    requires var d := m.destinations[mac];
             t.destinations[mac] == d.(addrs := t.destinations[mac].addrs, advertised := t.destinations[mac].advertised)
    ensures forall f :: Matches(f, m, mac) ==> Matches(f, t, mac)
    ensures forall f :: Matches(f, m, mac) && m.destinations[mac].announced && mac !in m.tx.perDestination ==>
              f.Mirror? && f.dest.Some?
  {
  }

  lemma AddressesCommand(m: Modem, mac: MacAddress, changes: AddressChanges)
    requires Described(m, mac)
    requires mac in m.tx.perDestination ==> !m.destinations[mac].announced
    ensures var (t, actions) := ModemUpdateAddresses(m, mac, changes); Plays(m, [], t, Sent(actions))
  {
    var (t, actions) := ModemUpdateAddresses(m, mac, changes);
    var d := m.destinations[mac];
    var c := Between(d.advertised, ApplyLenient(changes, d.addrs));
    LenientKeepsClean(changes, d.addrs);
    BetweenIsClean(d.advertised, ApplyLenient(changes, d.addrs));
    hide ApplyLenient, Between, Plays, CleanAddrs, ChangeItems, GoodForRouter, SameSupport, MetricsEncodable, Matches,
         Update, Reflect;
    SameRecord(m, t, mac);
    if !d.announced || c == NO_CHANGES {
      Revises(m, t, [], mac);
    } else {
      var msg := Message(DESTINATION_UPDATE, [Mac(mac)] + ChangeItems(c));
      RouterPlay.OneSent(msg);
      AddressUpdate(mac, c, m.config);
      hide Sent;
      Revises(m, t, [msg], mac);
    }
  }

  lemma AnswerReflected(m: Modem, t: Modem, mac: MacAddress, msg: Message)
    requires mac in m.destinations && mac !in m.tx.perDestination && t.tx == m.tx
    requires m.destinations[mac].announced && !m.destinations[mac].pendingMetrics
    requires t.sessionMetrics == m.sessionMetrics && t.config == m.config
    requires mac in t.destinations && t.destinations[mac].announced
    requires SameSupport(t.destinations[mac].metrics, m.config.initialMetrics)
    requires forall f: Mirror :: f.Mirror? && f.dest.Some? && SameSupport(f.dest.value, m.config.initialMetrics) ==>
               Reflect(f, msg, mac) == f.(dest := Some(t.destinations[mac].metrics))
    ensures forall f :: Matches(f, m, mac) ==> Matches(Reflect(f, msg, mac), t, mac)
  {
    hide Reflect;
  }

  lemma AnswerPlays(m: Modem, mac: MacAddress, status: u8, text: Text, reported: Option<LinkMetrics>)
    requires Described(m, mac) && mac in m.pendingLinks && mac !in m.tx.perDestination
    requires m.destinations[mac].announced && !m.destinations[mac].pendingMetrics
    requires reported.Some? ==> MetricsEncodable(reported.value) && SupportedBy(reported.value, m.config.initialMetrics)
    requires !TerminatesSession(status) && Encodable(Status(status, text))
    ensures var (t, actions) := ModemAnswer(m, mac, status, text, reported); Plays(m, [], t, Sent(actions))
  {
    var metrics := Reported(m.destinations[mac].metrics, reported);
    var msg := BuildLinkResponse(mac, status, text, metrics);
    RouterPlay.OneSent(msg);
    hide CleanAddrs, Plays, Sent;
    assert MetricsEncodable(metrics) && SameSupport(metrics, m.config.initialMetrics) by {
      if reported.Some? { SupportKept(reported.value, m.destinations[mac].metrics, m.config.initialMetrics); }
    }
    hide MetricsEncodable, SameSupport, Encodable, BuildLinkResponse, SupportedBy;
    AnswerSent(m, mac, status, text, metrics);
  }

  lemma AnswerSent(m: Modem, mac: MacAddress, status: u8, text: Text, metrics: LinkMetrics)
    requires mac in m.destinations && mac in m.pendingLinks && mac !in m.tx.perDestination
    requires m.destinations[mac].announced && !m.destinations[mac].pendingMetrics && Accepts(m.config.macFormat, mac)
    requires MetricsEncodable(metrics) && SameSupport(metrics, m.config.initialMetrics)
    requires !TerminatesSession(status) && Encodable(Status(status, text))
    ensures Plays(m, [], m.(pendingLinks := m.pendingLinks - {mac},
                            destinations := m.destinations[mac := m.destinations[mac].(metrics := metrics)]),
                  [BuildLinkResponse(mac, status, text, metrics)])
  {
    var t := m.(pendingLinks := m.pendingLinks - {mac},
                destinations := m.destinations[mac := m.destinations[mac].(metrics := metrics)]);
    var msg := BuildLinkResponse(mac, status, text, metrics);
    assert msg.messageType == LINK_CHARACTERISTICS_RESPONSE;
    hide GoodForRouter, Encodable, About, Plays, Reflect, Matches, BuildLinkResponse, MetricsEncodable, SameSupport;
    LinkResponseOk(m, mac, status, text, metrics);
    AnswerReflected(m, t, mac, msg);
    Gives(m, t, msg, mac);
  }

  /** A deferred answer, at last. */
  lemma Gives(m: Modem, t: Modem, msg: Message, mac: MacAddress)
    requires SameElsewhere(m, t, mac) && About([msg], mac) && msg.messageType == LINK_CHARACTERISTICS_RESPONSE
    requires t.tx == m.tx && mac !in m.tx.perDestination && mac in m.pendingLinks && mac !in t.pendingLinks
    requires Known(t, Some(mac)) == Known(m, Some(mac))
    requires GoodForRouter(msg, m.config.initialMetrics, m.config.macFormat)
    requires forall f :: Matches(f, m, mac) ==> Matches(Reflect(f, msg, mac), t, mac)
    ensures Plays(m, [], t, [msg])
  {
    hide SameElsewhere, GoodForRouter, ExtractMac, Matches, Reflect, Known;
    LaneOne(msg, DestinationScope(mac));
    assert Lane([], DestinationScope(mac)) == [];
    forall f | Matches(f, m, mac) ensures Matches(ReflectAll(f, [msg], mac), t, mac) {
      ReflectOne(f, msg, mac);
    }
    assert Speaks([msg], m.config);
    assert TurnAt(m, [], t, [msg], DestinationScope(mac));
    assert About([], mac);
    hide Lane, ReflectAll, TurnAt, Speaks, About, Plays;
    Touches(m, [], t, [msg], mac);
  }

  // --- A whole step ---------------------------------------------------------

  /** An accepted message is played. */
  lemma AcceptPlays(m: Modem, msg: Message)
    requires ModemInv(m) && ConfigEncodable(m.config) && m.phase.InSession? && ModemCheck(m, msg).None?
    requires msg.messageType != SESSION_TERMINATION && Affirmative(msg)
    ensures var (t, actions) := ModemAccept(m, msg); Plays(m, [msg], t, Sent(actions))
  {
    AcceptedMessage(m, msg);
    var mt := msg.messageType;
    assert Expected(mt, false, false);
    if MAC_ADDRESS in RequiredTypes(mt) {
      DestinationAccepted(m, msg);
    } else {
      SessionAccepted(m, msg);
    }
  }

  lemma SessionFree(m: Modem, msg: Message)
    requires m.phase.InSession? && ModemCheck(m, msg).None?
    ensures msg.messageType == SESSION_UPDATE ==> m.tx.session.None?
  {
    hide ModemContent, ExtractMac;
  }

  lemma SessionAccepted(m: Modem, msg: Message)
    requires ModemSlots(m) && m.phase.InSession? && ModemCheck(m, msg).None?
    requires msg.messageType == SESSION_UPDATE || msg.messageType == SESSION_UPDATE_RESPONSE
             || msg.messageType == HEARTBEAT
    ensures var (t, actions) := ModemAccept(m, msg); Plays(m, [msg], t, Sent(actions))
  {
    hide Plays, Sent, ApplyStrict, FromItems, ModemCheck, ModemSlots, ModemSessionUpdate, ExtractMac, ModemUpResponse,
         ModemAnnounce, ModemDown, ModemDownResponse, ModemLinkRequest;
    AcceptedMessage(m, msg);
    SessionFree(m, msg);
    RouterPlay.SilentReset([], m.peerHeartbeat);
    assert [] + ResetAction(m.peerHeartbeat) == ResetAction(m.peerHeartbeat);
    hide ResetAction;
    if msg.messageType == SESSION_UPDATE { SessionUpdatePlays(m, msg); }
    else if msg.messageType == SESSION_UPDATE_RESPONSE { UpdateAnswered(m, msg); }
    else { HeartbeatPlays(m, msg); }
  }

  lemma DestinationAccepted(m: Modem, msg: Message)
    requires ModemInv(m) && ConfigEncodable(m.config) && m.phase.InSession? && ModemCheck(m, msg).None?
    requires MAC_ADDRESS in RequiredTypes(msg.messageType)
    requires Expected(msg.messageType, false, false) && Affirmative(msg)
    ensures var (t, actions) := ModemAccept(m, msg); Plays(m, [msg], t, Sent(actions))
  {
    AcceptedMessage(m, msg);
    var mt, mac := msg.messageType, ExtractMac(msg.items).value;
    Settled(m, msg);
    FormatChecked(m, msg);
    SlotsOf(m);
    assert About([msg], mac);
    if mac in m.destinations { Describe(m, mac); }
    assert ModemAccept(m, msg) ==
      if mt == DESTINATION_UP_RESPONSE then ModemUpResponse(m, mac, msg)
      else if mt == DESTINATION_ANNOUNCE then ModemAnnounce(m, mac, msg)
      else if mt == DESTINATION_DOWN then ModemDown(m, mac)
      else if mt == DESTINATION_DOWN_RESPONSE then ModemDownResponse(m, mac)
      else ModemLinkRequest(m, mac, msg);
    hide Plays, Sent, ModemCheck, ModemUpResponse, ModemAnnounce, ModemDown, ModemDownResponse, ModemLinkRequest,
         ModemInv, About, ExtractMac, Described, ModemAccept;
    if mt == DESTINATION_UP_RESPONSE { UpAnswered(m, msg, mac); }
    else if mt == DESTINATION_ANNOUNCE {
      if mac in m.destinations { AnnounceAccepted(m, msg, mac); } else { AnnounceDenied(m, msg, mac); }
    }
    else if mt == DESTINATION_DOWN { DownPlays(m, msg, mac); }
    else if mt == DESTINATION_DOWN_RESPONSE { DownAnswered(m, msg, mac); }
    else if m.config.deferLinkCharacteristics { LinkRequestDeferred(m, msg, mac); }
    else { LinkRequestAnswered(m, msg, mac); }
  }

  lemma FormatChecked(m: Modem, msg: Message)
    requires m.phase.InSession? && ModemCheck(m, msg).None? && ExtractMac(msg.items).Some?
    ensures Accepts(m.config.macFormat, ExtractMac(msg.items).value)
  {
    MacPresent(msg.items);
  }

  ghost predicate Quits(m: Modem, t: Modem, out: seq<Message>) {
    && !Listening(t.phase) && t.config == m.config
    && RouterPlay.Farewell(out)
  }

  ghost predicate Goodbye(out: seq<Message>, config: SessionConfig) {
    out == [] || (|out| == 1 && out[0].messageType == SESSION_TERMINATION
                  && GoodForRouter(out[0], config.initialMetrics, config.macFormat))
  }

  lemma FailQuits(m: Modem, code: u8)
    requires m.phase.InSession?
    ensures var (t, actions) := ModemFail(m, Status(code, []));
            Quits(m, t, Sent(actions)) && Goodbye(Sent(actions), m.config)
  {
    SentSingle(ModemFail(m, Status(code, [])).1, 3);
    StatusOnly(SESSION_TERMINATION, code, m.config.initialMetrics, m.config.macFormat);
  }

  lemma PeerTerminatesQuits(m: Modem, msg: Message)
    ensures var (t, actions) := ModemPeerTerminates(m, msg); Quits(m, t, Sent(actions))
  {
    SentSingle(ModemPeerTerminates(m, msg).1, 2);
  }

  lemma TerminationAccepted(m: Modem, msg: Message)
    requires m.phase.InSession? && ModemSlots(m) && ModemCheck(m, msg).None? && msg.messageType == SESSION_TERMINATION
    ensures ModemAccept(m, msg) == ModemPeerTerminates(m, msg)
  {
  }

  lemma ReceivePlays(m: Modem, msg: Message)
    requires ModemInv(m) && ConfigEncodable(m.config) && m.phase.InSession? && Affirmative(msg)
    requires msg.messageType != SESSION_TERMINATION ==> FatalStatus(msg.items).None?
    ensures var (t, actions) := ModemStep(m, RecvMessage(msg));
            || (msg.messageType != SESSION_TERMINATION && Plays(m, [msg], t, Sent(actions)))
            || (Quits(m, t, Sent(actions))
                && (msg.messageType != SESSION_TERMINATION ==> Goodbye(Sent(actions), m.config)))
  {
    SlotsOf(m);
    hide ModemCheck, ModemAccept, Sent, FatalStatus, Plays, Quits, Goodbye, ModemInv, ModemFail, ModemPeerTerminates,
         ModemSlots;
    if ModemCheck(m, msg).Some? {
      FailQuits(m, ModemCheck(m, msg).value);
    } else if msg.messageType == SESSION_TERMINATION {
      PeerTerminatesQuits(m, msg);
      TerminationAccepted(m, msg);
    } else {
      AcceptPlays(m, msg);
    }
  }

  lemma CommandPlays(m: Modem, e: Event)
    requires ModemInv(m) && ConfigEncodable(m.config) && Command(e).Some? && ModemCommandError(m, e).None?
    ensures var (t, actions) := ModemCommand(m, e); Plays(m, [], t, Sent(actions))
  {
    hide Plays, Sent, ModemInv, Described, ModemAdd, ModemDrop, ModemUpdateMetrics, ModemUpdateAddresses,
         ModemUpdateSession, ModemAnswer, LocalUpdate, Validate, MessageEncodable, CleanAddrs, SupportedBy,
         LocalUpdateOk, ModemCommandError, MetricsEncodable, SameSupport;
    SlotsOf(m);
    CommandSettled(m, e);
    SessionSound(m);
    if e.AppDropDestination? || e.AppUpdateMetrics? || e.AppUpdateAddresses? || e.AppLinkCharacteristicsResponse? {
      Describe(m, e.mac);
    }
    match e
    case AppAddDestination(mac, metrics, addrs) =>
      SendableMetrics(metrics);
      AddedIsClean(addrs);
      AddPlays(m, mac, metrics, addrs);
    case AppDropDestination(mac, _) => DropPlays(m, mac);
    case AppUpdateMetrics(mac, metrics) =>
      SendableMetrics(metrics);
      MetricsCommand(m, mac, metrics);
    case AppUpdateAddresses(mac, changes) => AddressesCommand(m, mac, changes);
    case AppSessionUpdate(metrics) => SessionMetricsPlays(m, metrics);
    case AppLinkCharacteristicsResponse(mac, status, text, reported) =>
      if reported.Some? { SendableMetrics(reported.value); }
      AnswerEncodable(mac, status, text, Reported(m.destinations[mac].metrics, reported));
      AnswerPlays(m, mac, status, text, reported);
    case AppSessionAddresses(changes) => AddressCommand(m, changes);
    case AppAnnounceDestination(mac) =>
    case AppRequestLinkCharacteristics(mac, requested) =>
  }

  lemma SessionSound(m: Modem)
    requires ModemInv(m) && ConfigEncodable(m.config)
    ensures MetricsEncodable(m.sessionMetrics) && SameSupport(m.sessionMetrics, m.config.initialMetrics)
    ensures CleanAddrs(m.localAddresses)
  {
    hide CleanAddrs;
  }

  lemma AnswerEncodable(mac: MacAddress, status: u8, text: Text, metrics: LinkMetrics)
    requires MessageEncodable(BuildLinkResponse(mac, status, text, metrics))
    ensures Encodable(Status(status, text))
  {
    hide MetricItems, Encodable;
    var msg := BuildLinkResponse(mac, status, text, metrics);
    assert msg.items[1] == Status(status, text);
  }

  ghost predicate Moves(m: Modem, t: Modem, out: seq<Message>) {
    && (!m.phase.InSession? ==> out == [])
    && ((Listening(m.phase) && Plays(m, [], t, out)) || (Quits(m, t, out) && Goodbye(out, m.config)))
  }

  lemma SilentQuits(m: Modem, t: Modem, actions: seq<Action>)
    requires !Listening(t.phase) && t.config == m.config
    requires forall i :: 0 <= i < |actions| ==> !actions[i].SendMessage?
    ensures Moves(m, t, Sent(actions))
  {
    SentNothing(actions);
  }

  lemma TerminateQuits(m: Modem, reason: u8, cancels: seq<Action>)
    requires forall i :: 0 <= i < |cancels| ==> cancels[i].CancelTimer?
    requires m.phase.InSession?
    ensures var (t, actions) := ModemTerminate(m, reason, cancels); Moves(m, t, Sent(actions))
  {
    var actions := ModemTerminate(m, reason, cancels).1;
    assert actions[|cancels|] == SendMessage(BuildTermination(reason));
    SentSingle(actions, |cancels|);
    StatusOnly(SESSION_TERMINATION, reason, m.config.initialMetrics, m.config.macFormat);
  }

  lemma LocalMoves(m: Modem, e: Event)
    requires !m.phase.Unconnected?
    ensures var (t, actions) := ModemLocal(m, e); Moves(m, t, Sent(actions))
  {
    var (t, actions) := ModemLocal(m, e);
    hide Plays;
    if Listening(t.phase) {
      if e.TimerExpired? && e.kind.HeartbeatTimer? && m.phase.InSession? {
        RouterPlay.OneSent(BuildHeartbeat());
        HeartbeatActs(m);
      } else {
        SentNothing(actions);
        Idles(m);
      }
    } else if m.phase.InSession? && t.phase.Terminating? {
      if e.AppShutdown? {
        TerminateQuits(m, e.reason, [CancelTimer(TIMER_HEARTBEAT), CancelTimer(TIMER_HEARTBEAT_MISSED)]);
      } else {
        TerminateQuits(m, TIMED_OUT, [CancelTimer(TIMER_HEARTBEAT)]);
      }
    } else {
      hide Sent, Moves;
      SilentQuits(m, t, actions);
    }
  }

  /** Every local event. */
  lemma StepMoves(m: Modem, e: Event)
    requires ModemInv(m) && ConfigEncodable(m.config) && !m.phase.Unconnected? && IsLocal(e)
    ensures var (t, actions) := ModemStep(m, e); Moves(m, t, Sent(actions))
  {
    SlotsOf(m);
    hide ModemInv, ModemSlots, ConfigEncodable, Plays;
    if Command(e).Some? {
      if ModemCommandError(m, e).Some? {
        SentNothing(ModemStep(m, e).1);
        if Listening(m.phase) { Idles(m); }
      } else {
        CommandSettled(m, e);
        hide Sent, ModemCommand, ModemCommandError;
        CommandPlays(m, e);
      }
    } else {
      hide Sent, Moves, ModemLocal;
      LocalMoves(m, e);
    }
  }

  lemma DeafModem(m: Modem, msg: Message)
    requires ModemSlots(m) && !Listening(m.phase) && !m.phase.Unconnected?
    ensures var (t, actions) := ModemStep(m, RecvMessage(msg)); Moves(m, t, Sent(actions)) && Sent(actions) == []
  {
    SentNothing(ModemStep(m, RecvMessage(msg)).1);
  }

  // --- The handshake --------------------------------------------------------

  lemma BlankFirst(m: Modem)
    requires ModemInv(m) && m.phase.Initializing?
    ensures Blank(m) && ModemSlots(m)
  {
    hide ModemSlots, ModemData;
  }

  lemma FirstCheck(m: Modem, msg: Message)
    requires m.phase.Initializing? && m.peerAddresses == NO_ADDRS
    requires ValidateMessage(msg, false, true, m.config.extensions).None?
    requires FromItems(msg.items) == NO_CHANGES && forall x :: x in msg.items ==> !x.Mac?
    ensures ModemCheck(m, msg).None?
  {
    NoChangeApplies(NO_ADDRS);
    hide ValidateMessage, FromItems, ApplyStrict;
  }

  lemma Invited(m: Modem, peer: SessionConfig)
    requires m.phase.Initializing? && ModemInv(m) && ConfigEncodable(peer)
    ensures ModemVerdict(m, BuildInitialization(peer)).None?
  {
    BlankFirst(m);
    hide ModemInv, ModemSlots, ModemCheck, ConfigEncodable, BuildInitialization, FromItems, FatalStatus,
         ValidateMessage, ExtractHeartbeat;
    InitializationGood(peer, m.config.extensions);
    FirstCheck(m, BuildInitialization(peer));
  }

  lemma FirstStep(m: Modem, msg: Message)
    requires m.phase.Initializing? && ModemSlots(m) && ModemVerdict(m, msg).None?
    requires msg.messageType == SESSION_INITIALIZATION
    ensures ModemStep(m, RecvMessage(msg)) == ModemEstablish(m, msg)
  {
    hide ModemVerdict, ModemSlots, ModemEstablish;
  }

  lemma Welcomed(m: Modem, peer: SessionConfig)
    requires m.phase.Initializing? && ModemInv(m) && ConfigEncodable(peer)
    ensures ModemStep(m, RecvMessage(BuildInitialization(peer))) == ModemEstablish(m, BuildInitialization(peer))
  {
    BlankFirst(m);
    hide ModemInv, ModemSlots, ModemVerdict, ModemStep, ModemEstablish, ConfigEncodable, BuildInitialization, FromItems,
         FatalStatus, ValidateMessage, ExtractHeartbeat, ExtractExtensions;
    InitializationGood(peer, m.config.extensions);
    NameInitialization(peer);
    Invited(m, peer);
    FirstStep(m, BuildInitialization(peer));
  }

  /** A conforming router's initialization is always accepted. */
  lemma Establishes(m: Modem, peer: SessionConfig)
    requires m.phase.Initializing? && ModemInv(m) && ConfigEncodable(peer)
    ensures var (t, actions) := ModemStep(m, RecvMessage(BuildInitialization(peer)));
            && t == m.(phase := InSession, peerHeartbeat := t.peerHeartbeat, peerExtensions := t.peerExtensions)
            && Sent(actions) == [BuildInitializationResponse(m.config)]
  {
    BlankFirst(m);
    hide ModemInv, ModemSlots, ModemVerdict, ModemStep, Sent, ConfigEncodable, BuildInitialization, FromItems,
         FatalStatus, ValidateMessage, ExtractHeartbeat, ExtractExtensions, BuildInitializationResponse;
    InitializationGood(peer, m.config.extensions);
    Welcomed(m, peer);
    EstablishSent(m, BuildInitialization(peer));
  }

  lemma NameInitialization(peer: SessionConfig)
    ensures BuildInitialization(peer).messageType == SESSION_INITIALIZATION
  {
  }

  lemma EstablishSent(m: Modem, msg: Message)
    ensures Sent(ModemEstablish(m, msg).1) == [BuildInitializationResponse(m.config)]
  {
    hide FromItems, BuildInitializationResponse;
    SentSingle(ModemEstablish(m, msg).1, 1);
  }
}
