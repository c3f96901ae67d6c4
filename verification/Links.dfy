/** Link characteristics from the router's application to the modem's and back:
    what is asked for is what the radio is told, and what the radio answers is
    what the router's application hears.
 */
module Links {
  import opened Types
  import opened Addresses
  import opened Messages
  import opened Validation
  import opened Session
  import R = RouterSpec
  import M = ModemSpec

  // --- What a request asks for ----------------------------------------------

  lemma AskLast(items: seq<DataItem>, item: DataItem)
    ensures var r, before := ExtractLinkCharacteristics(items + [item]), ExtractLinkCharacteristics(items);
            && r.currentRx == (if item.CurrentDataRateReceive? then Some(item.bps) else before.currentRx)
            && r.currentTx == (if item.CurrentDataRateTransmit? then Some(item.bps) else before.currentTx)
            && r.latency == (if item.Latency? then Some(item.latency) else before.latency)
  {
    assert (items + [item])[..|items|] == items;
  }

  /** In any item list the last value of each characteristic counts, and one that
      is not there is not asked for. */
  lemma {:induction false} AskedMeans(items: seq<DataItem>)
    ensures var r := ExtractLinkCharacteristics(items);
            && (r.currentRx.Some? ==> CurrentDataRateReceive(r.currentRx.value) in items)
            && (r.currentTx.Some? ==> CurrentDataRateTransmit(r.currentTx.value) in items)
            && (r.latency.Some? ==> Latency(r.latency.value) in items)
            && (r.currentRx.None? ==> forall x :: x in items ==> !x.CurrentDataRateReceive?)
            && (r.currentTx.None? ==> forall x :: x in items ==> !x.CurrentDataRateTransmit?)
            && (r.latency.None? ==> forall x :: x in items ==> !x.Latency?)
  {
    if |items| > 0 {
      var front, last := items[..|items| - 1], items[|items| - 1];
      AskedMeans(front);
      assert items == front + [last];
      AskLast(front, last);
      hide ExtractLinkCharacteristics;
    }
  }

  /** What a list of items asks for, characteristic by characteristic. */
  ghost predicate AsksExactly(items: seq<DataItem>, r: LinkCharacteristics) {
    && (forall v: u64 :: r.currentRx == Some(v) <==> CurrentDataRateReceive(v) in items)
    && (forall v: u64 :: r.currentTx == Some(v) <==> CurrentDataRateTransmit(v) in items)
    && (forall d: Duration :: r.latency == Some(d) <==> Latency(d) in items)
  }

  /** Of the items of an acceptable message, exactly those are asked for that are
      there. */
  lemma ReadsWhatIsAsked(items: seq<DataItem>)
    requires Distinct(items)
    ensures AsksExactly(items, ExtractLinkCharacteristics(items))
  {
    AskedMeans(items);
    hide ExtractLinkCharacteristics, Distinct;
    var r := ExtractLinkCharacteristics(items);
    forall v: u64 | CurrentDataRateReceive(v) in items ensures r.currentRx == Some(v) {
      OneOfAType(items, CurrentDataRateReceive(v), CurrentDataRateReceive(r.currentRx.value));
    }
    forall v: u64 | CurrentDataRateTransmit(v) in items ensures r.currentTx == Some(v) {
      OneOfAType(items, CurrentDataRateTransmit(v), CurrentDataRateTransmit(r.currentTx.value));
    }
    forall d: Duration | Latency(d) in items ensures r.latency == Some(d) {
      OneOfAType(items, Latency(d), Latency(r.latency.value));
    }
  }

  lemma AskIf(items: seq<DataItem>, present: bool, item: DataItem)
    ensures var r, before := ExtractLinkCharacteristics(items + if present then [item] else []),
                             ExtractLinkCharacteristics(items);
            && r.currentRx == (if present && item.CurrentDataRateReceive? then Some(item.bps) else before.currentRx)
            && r.currentTx == (if present && item.CurrentDataRateTransmit? then Some(item.bps) else before.currentTx)
            && r.latency == (if present && item.Latency? then Some(item.latency) else before.latency)
  {
    if present { AskLast(items, item); } else { assert items + [] == items; }
  }

  /** Reading undoes writing, for every request. */
  lemma WriteThenRead(mac: MacAddress, r: LinkCharacteristics)
    ensures ExtractLinkCharacteristics(BuildLinkRequest(mac, r).items) == r
  {
    var rx := if r.currentRx.Some? then r.currentRx.value else 0;
    var tx := if r.currentTx.Some? then r.currentTx.value else 0;
    var latency := if r.latency.Some? then r.latency.value else 0;
    var a := [Mac(mac)];
    var b := a + if r.currentRx.Some? then [CurrentDataRateReceive(rx)] else [];
    var c := b + if r.currentTx.Some? then [CurrentDataRateTransmit(tx)] else [];
    var d := c + if r.latency.Some? then [Latency(latency)] else [];
    assert BuildLinkRequest(mac, r).items == d;
    assert [] + a == a;
    AskLast([], Mac(mac));
    AskIf(a, r.currentRx.Some?, CurrentDataRateReceive(rx));
    AskIf(b, r.currentTx.Some?, CurrentDataRateTransmit(tx));
    AskIf(c, r.latency.Some?, Latency(latency));
  }

  // --- The request at the modem ---------------------------------------------

  lemma EmittedThenReset(actions: seq<Action>, peer: Option<Duration>)
    ensures Emitted(actions + ResetAction(peer)) == Emitted(actions)
    ensures Sent(actions + ResetAction(peer)) == Sent(actions)
  {
    FoldConcat(PushEvent, [], actions, ResetAction(peer));
    FoldConcat(PushSent, [], actions, ResetAction(peer));
    if MissedDeadline(peer).Some? {
      FoldOne(PushEvent, Emitted(actions), ResetAction(peer)[0]);
      FoldOne(PushSent, Sent(actions), ResetAction(peer)[0]);
    }
  }

  ghost predicate Accepts(s: M.Modem, msg: Message) {
    s.phase.InSession? && M.ModemSlots(s) && M.ModemVerdict(s, msg).None?
  }

  /** An accepted request is reported once, with what it asks for, the metrics of
      its destination, and `pending` exactly when the answer is left to the
      application; otherwise the answer goes out at once. */
  lemma RequestReported(s: M.Modem, msg: Message)
    requires Accepts(s, msg) && msg.messageType == LINK_CHARACTERISTICS_REQUEST
    ensures ExtractMac(msg.items).Some? && ExtractMac(msg.items).value in s.destinations
    ensures var (t, actions) := M.ModemStep(s, RecvMessage(msg));
            var mac := ExtractMac(msg.items).value;
            var asked := ExtractLinkCharacteristics(msg.items);
            var deferred := mac in t.pendingLinks;
            && AsksExactly(msg.items, asked)
            && Emitted(actions) == [LinkCharacteristicsRequested(mac, asked, s.destinations[mac].metrics, deferred)]
            && Sent(actions) == (if deferred then []
                                 else [BuildLinkResponse(mac, REQUEST_DENIED, [], s.destinations[mac].metrics)])
            && deferred == s.config.deferLinkCharacteristics
            && t == s.(pendingLinks := if deferred then s.pendingLinks + {mac} else s.pendingLinks)
  {
    assert Distinct(msg.items) && M.ModemCheck(s, msg).None? && (ExtractMac(msg.items).Some? ==>
      ExtractMac(msg.items).value !in s.pendingLinks);
    M.AcceptedMessage(s, msg);
    hide Grammar, MacFormatOk, FromItems, ApplyStrict, ExtractMac, FatalStatus, ExtractLinkCharacteristics, AsksExactly,
      Distinct, ResetAction, M.ModemCheck;
    ReadsWhatIsAsked(msg.items);
    var mac := ExtractMac(msg.items).value;
    LinkRequestSays(s, mac, msg);
  }

  lemma LinkRequestSays(s: M.Modem, mac: MacAddress, msg: Message)
    requires mac in s.destinations
    ensures var actions := M.ModemLinkRequest(s, mac, msg).1;
            var metrics := s.destinations[mac].metrics;
            var deferred := s.config.deferLinkCharacteristics;
            && Emitted(actions) == [LinkCharacteristicsRequested(mac, ExtractLinkCharacteristics(msg.items), metrics,
                                                                 deferred)]
            && Sent(actions) == if deferred then [] else [BuildLinkResponse(mac, REQUEST_DENIED, [], metrics)]
  {
    hide ExtractLinkCharacteristics, ResetAction, Fold;
    var metrics := s.destinations[mac].metrics;
    var deferred := s.config.deferLinkCharacteristics;
    var event := Emit(LinkCharacteristicsRequested(mac, ExtractLinkCharacteristics(msg.items), metrics, deferred));
    var answer := SendMessage(BuildLinkResponse(mac, REQUEST_DENIED, [], metrics));
    if deferred {
      EmittedThenReset([event], s.peerHeartbeat);
      FoldOne(PushEvent, [], event);
      FoldOne(PushSent, [], event);
    } else {
      EmittedThenReset([answer, event], s.peerHeartbeat);
      FoldTwo(PushEvent, [], answer, event);
      FoldTwo(PushSent, [], answer, event);
    }
  }

  // --- End to end -----------------------------------------------------------

  lemma RequestSent(r: R.Router, mac: MacAddress, requested: LinkCharacteristics)
    requires R.RouterSlots(r) && R.RouterCommandError(r, AppRequestLinkCharacteristics(mac, requested)).None?
    ensures Sent(R.RouterStep(r, AppRequestLinkCharacteristics(mac, requested)).1) == [BuildLinkRequest(mac, requested)]
    ensures BuildLinkRequest(mac, requested).messageType == LINK_CHARACTERISTICS_REQUEST
    ensures ExtractMac(BuildLinkRequest(mac, requested).items) == Some(mac)
  {
    hide R.RouterCommandError;
    var msg := BuildLinkRequest(mac, requested);
    FoldOne(PushSent, [], SendMessage(msg));
    assert msg.items[0] == Mac(mac);
  }

  /** Whatever the router's application asks for, a modem that accepts the request
      tells its own application exactly that. */
  lemma AskedIsTold(r: R.Router, mac: MacAddress, requested: LinkCharacteristics, s: M.Modem)
    requires R.RouterSlots(r) && R.RouterCommandError(r, AppRequestLinkCharacteristics(mac, requested)).None?
    requires Accepts(s, BuildLinkRequest(mac, requested))
    ensures var sent := Sent(R.RouterStep(r, AppRequestLinkCharacteristics(mac, requested)).1);
            && sent == [BuildLinkRequest(mac, requested)]
            && mac in s.destinations
            && Emitted(M.ModemStep(s, RecvMessage(sent[0])).1)
            == [LinkCharacteristicsRequested(mac, requested, s.destinations[mac].metrics,
                                             s.config.deferLinkCharacteristics)]
  {
    hide R.RouterCommandError, R.RouterStep, M.ModemStep, AsksExactly, ExtractLinkCharacteristics, M.ModemVerdict,
      BuildLinkRequest, Emitted;
    var msg := BuildLinkRequest(mac, requested);
    RequestSent(r, mac, requested);
    RequestReported(s, msg);
    WriteThenRead(mac, requested);
  }

  lemma AnswerItems(mac: MacAddress, code: u8, text: Text, m: LinkMetrics, base: LinkMetrics)
    ensures var items := BuildLinkResponse(mac, code, text, m).items;
            ExtractMac(items) == Some(mac) && ExtractStatusItem(items) == Some(Status(code, text))
            && Merge(items, base) == Overlay(m, base)
  {
    hide Merge, MetricItems, Overlay;
    var items := BuildLinkResponse(mac, code, text, m).items;
    assert items[0] == Mac(mac) && items[1] == Status(code, text) && items[1..][0] == items[1];
    var head := [Mac(mac), Status(code, text)];
    MergeConcat(head, MetricItems(m), base);
    MergeNothing(head, base);
    MergeBuilt(m, base);
  }

  lemma AnswerSent(s: M.Modem, e: Event)
    requires e.AppLinkCharacteristicsResponse? && M.ModemSlots(s) && M.ModemCommandError(s, e).None?
    ensures e.mac in s.destinations
    ensures var (t, actions) := M.ModemStep(s, e);
            && e.mac in t.destinations
            && t.destinations[e.mac].metrics
               == (if e.reported.Some? then Overlay(e.reported.value, s.destinations[e.mac].metrics)
                   else s.destinations[e.mac].metrics)
            && Sent(actions) == [BuildLinkResponse(e.mac, e.status, e.text, t.destinations[e.mac].metrics)]
  {
    assert e.mac in s.pendingLinks;
    hide M.ModemCommandError;
    FoldOne(PushSent, [], M.ModemStep(s, e).1[0]);
  }

  lemma AnswerHeard(r: R.Router, mac: MacAddress, code: u8, text: Text, m: LinkMetrics)
    requires r.phase.InSession? && R.RouterSlots(r)
    requires R.RouterVerdict(r, BuildLinkResponse(mac, code, text, m)).None?
    ensures mac in r.destinations
    ensures var (u, heard) := R.RouterStep(r, RecvMessage(BuildLinkResponse(mac, code, text, m)));
            && mac in u.destinations
            && u.destinations[mac].metrics == Overlay(m, r.destinations[mac].metrics)
            && Emitted(heard) == [LinkCharacteristicsResponse(mac, code, text, u.destinations[mac].metrics)]
  {
    var msg := BuildLinkResponse(mac, code, text, m);
    hide R.RouterContent, FatalStatus, ResetAction, Merge, ExtractMac, ExtractStatusItem, MetricItems, Overlay, Fold;
    R.AcceptedMessage(r, msg);
    hide R.RouterCheck;
    AnswerItems(mac, code, text, m, DEFAULT_METRICS);
    AnswerItems(mac, code, text, m, r.destinations[mac].metrics);
    var event := Emit(LinkCharacteristicsResponse(mac, code, text, Overlay(m, r.destinations[mac].metrics)));
    EmittedThenReset([event], r.peerHeartbeat);
    FoldOne(PushEvent, [], event);
  }

  /** Whatever the radio answers, with whatever status and text, a router that
      accepts the response tells its application exactly that, with the metrics the
      destination then has. */
  lemma AnsweredIsTold(s: M.Modem, e: Event, r: R.Router)
    requires e.AppLinkCharacteristicsResponse? && M.ModemSlots(s) && M.ModemCommandError(s, e).None?
    requires r.phase.InSession? && R.RouterSlots(r)
    requires forall msg :: msg in Sent(M.ModemStep(s, e).1) ==> R.RouterVerdict(r, msg).None?
    ensures var (t, actions) := M.ModemStep(s, e);
            && e.mac in s.destinations && e.mac in t.destinations && e.mac in r.destinations
            && t.destinations[e.mac].metrics
               == (if e.reported.Some? then Overlay(e.reported.value, s.destinations[e.mac].metrics)
                   else s.destinations[e.mac].metrics)
            && |Sent(actions)| == 1
            && var (u, heard) := R.RouterStep(r, RecvMessage(Sent(actions)[0]));
               && e.mac in u.destinations
               && u.destinations[e.mac].metrics == Overlay(t.destinations[e.mac].metrics, r.destinations[e.mac].metrics)
               && Emitted(heard)
                  == [LinkCharacteristicsResponse(e.mac, e.status, e.text, u.destinations[e.mac].metrics)]
  {
    hide M.ModemCommandError, M.ModemStep, R.RouterStep, R.RouterVerdict, Emitted, Sent, BuildLinkResponse, Overlay;
    AnswerSent(s, e);
    AnswerHeard(r, e.mac, e.status, e.text, M.ModemStep(s, e).0.destinations[e.mac].metrics);
  }
}
