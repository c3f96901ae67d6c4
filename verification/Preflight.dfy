/** When a command is accepted: an if-and-only-if over what the caller can see,
    for both roles. A command depends on the slot of its own scope and on its own
    destination, never on what is open elsewhere.
 */
module Preflight {
  import opened Types
  import opened Addresses
  import opened Messages
  import opened Transactions
  import opened Validation
  import opened Session
  import R = RouterSpec
  import M = ModemSpec
  import RI = RouterInvariant
  import MI = ModemInvariant

  /** The slot a command would use. */
  function ScopeOf(e: Event): Scope
    requires Command(e).Some?
  {
    match Command(e).value.destination
    case Some(mac) => DestinationScope(mac)
    case None => SessionScope
  }

  predicate Addressable(format: MacAddressFormat, e: Event)
    requires Command(e).Some?
  {
    ScopeOf(e).DestinationScope? ==> Accepts(format, ScopeOf(e).mac)
  }

  // --- What fits a message, in octets ---------------------------------------

  function MacOctets(mac: MacAddress): nat { if mac.Eui48? then 10 else 12 }

  function AddressOctets(a: DestinationAddrs): nat {
    9 * |a.v4| + 21 * |a.v6| + 10 * |a.v4Subnets| + 22 * |a.v6Subnets|
  }

  function MetricOctets(m: LinkMetrics): nat {
    60 + (if m.resources.Some? then 5 else 0) + (if m.rlqRx.Some? then 5 else 0)
    + (if m.rlqTx.Some? then 5 else 0) + (if m.mtu.Some? then 6 else 0)
  }

  lemma {:induction false} LengthConcat(a: seq<DataItem>, b: seq<DataItem>)
    ensures BodyLength(a + b) == BodyLength(a) + BodyLength(b)
  {
    if |b| == 0 {
      assert a + b == a;
    } else {
      assert (a + b)[..|a + b| - 1] == a + b[..|b| - 1];
      LengthConcat(a, b[..|b| - 1]);
    }
  }

  lemma {:induction false} LengthUniform(items: seq<DataItem>, n: nat)
    requires forall i :: 0 <= i < |items| ==> ValueLength(items[i]) == n
    ensures BodyLength(items) == (4 + n) * |items|
  {
    hide ValueLength;
    if |items| > 0 { LengthUniform(items[..|items| - 1], n); }
  }

  lemma LengthIf(present: bool, item: DataItem)
    ensures BodyLength(if present then [item] else []) == if present then 4 + ValueLength(item) else 0
  {
    hide ValueLength;
    assert [item][..0] == [];
  }

  lemma ListingLength(add: bool, a: DestinationAddrs)
    ensures BodyLength(Listing(add, a)) == AddressOctets(a)
    ensures forall i :: 0 <= i < |Listing(add, a)| ==> Encodable(Listing(add, a)[i])
  {
    hide BodyLength;
    var p, q := Items4(add, a.v4), Items6(add, a.v6);
    var u, v := ItemsNet4(add, a.v4Subnets), ItemsNet6(add, a.v6Subnets);
    LengthUniform(p, 5);
    LengthUniform(q, 17);
    LengthUniform(u, 6);
    LengthUniform(v, 18);
    LengthConcat(p, q);
    LengthConcat(p + q, u);
    LengthConcat(p + q + u, v);
  }

  lemma OptionalLength(m: LinkMetrics)
    ensures BodyLength(OptionalItems(m)) == MetricOctets(m) - 60
  {
    hide BodyLength;
    var r0 := if m.resources.Some? then m.resources.value else 0;
    var r1 := if m.rlqRx.Some? then m.rlqRx.value else 0;
    var r2 := if m.rlqTx.Some? then m.rlqTx.value else 0;
    var r3 := if m.mtu.Some? then m.mtu.value else 0;
    var a := if m.resources.Some? then [Resources(r0)] else [];
    var b := if m.rlqRx.Some? then [RelativeLinkQualityReceive(r1)] else [];
    var c := if m.rlqTx.Some? then [RelativeLinkQualityTransmit(r2)] else [];
    var d := if m.mtu.Some? then [Mtu(r3)] else [];
    assert OptionalItems(m) == a + b + c + d;
    LengthIf(m.resources.Some?, Resources(r0));
    LengthIf(m.rlqRx.Some?, RelativeLinkQualityReceive(r1));
    LengthIf(m.rlqTx.Some?, RelativeLinkQualityTransmit(r2));
    LengthIf(m.mtu.Some?, Mtu(r3));
    LengthConcat(a, b);
    LengthConcat(a + b, c);
    LengthConcat(a + b + c, d);
  }

  lemma MetricLength(m: LinkMetrics)
    ensures BodyLength(MetricItems(m)) == MetricOctets(m)
    ensures (forall i :: 0 <= i < |MetricItems(m)| ==> Encodable(MetricItems(m)[i])) <==> MetricsEncodable(m)
  {
    assert MetricItems(m) == MandatoryItems(m) + OptionalItems(m);
    assert |MandatoryItems(m)| == 5;
    assert forall i :: 0 <= i < 5 ==> ValueLength(MandatoryItems(m)[i]) == 8;
    hide MetricItems, MandatoryItems, OptionalItems, BodyLength, ValueLength;
    LengthUniform(MandatoryItems(m), 8);
    OptionalLength(m);
    LengthConcat(MandatoryItems(m), OptionalItems(m));
    hide Encodable, MetricsEncodable, MetricOctets;
    if MetricsEncodable(m) { MetricsFit(m); }
    if forall i :: 0 <= i < |MetricItems(m)| ==> Encodable(MetricItems(m)[i]) { InRange(m); }
  }

  lemma InRange(m: LinkMetrics)
    requires forall i :: 0 <= i < |MetricItems(m)| ==> Encodable(MetricItems(m)[i])
    ensures MetricsEncodable(m)
  {
    hide MetricItems;
    MI.MetricsHeld(m);
    assert forall x :: x in MetricItems(m) ==> Encodable(x) by { hide Encodable; }
  }

  /** A list in three parts is encodable when the parts are and the whole fits. */
  lemma EncodableParts(mt: u16, a: seq<DataItem>, b: seq<DataItem>, c: seq<DataItem>)
    ensures MessageEncodable(Message(mt, a + b + c)) <==>
              && (forall i :: 0 <= i < |a| ==> Encodable(a[i]))
              && (forall i :: 0 <= i < |b| ==> Encodable(b[i]))
              && (forall i :: 0 <= i < |c| ==> Encodable(c[i]))
              && BodyLength(a) + BodyLength(b) + BodyLength(c) < 0x1_0000
  {
    hide Encodable, BodyLength;
    LengthConcat(a, b);
    LengthConcat(a + b, c);
    var all := a + b + c;
    assert forall i :: 0 <= i < |a| ==> all[i] == a[i];
    assert forall i :: 0 <= i < |b| ==> all[|a| + i] == b[i];
    assert forall i :: 0 <= i < |c| ==> all[|a| + |b| + i] == c[i];
    forall i | 0 <= i < |all|
      ensures all[i] == if i < |a| then a[i] else if i < |a| + |b| then b[i - |a|] else c[i - |a| - |b|]
    {}
  }

  /** A Destination Up can be sent exactly when its metrics are in range and its
      list fits one message. */
  lemma UpFits(mac: MacAddress, m: LinkMetrics, a: DestinationAddrs)
    ensures MessageEncodable(BuildDestinationUp(mac, m, a)) <==>
              MetricsEncodable(m) && MacOctets(mac) + AddressOctets(a) + MetricOctets(m) < 0x1_0000
  {
    hide MetricItems, Listing, MessageEncodable, MetricsEncodable;
    EncodableParts(DESTINATION_UP, [Mac(mac)], Listing(true, a), MetricItems(m));
    LengthUniform([Mac(mac)], MacOctets(mac) - 4);
    ListingLength(true, a);
    MetricLength(m);
  }

  lemma SessionUpdateFits(m: LinkMetrics)
    ensures MessageEncodable(BuildSessionUpdate(m)) <==> MetricsEncodable(m)
  {
    hide MetricItems, MessageEncodable, MetricsEncodable;
    EncodableParts(SESSION_UPDATE, [], [], MetricItems(m));
    assert [] + [] + MetricItems(m) == MetricItems(m);
    MetricLength(m);
  }

  lemma CanonicalLength(a: DestinationAddrs)
    ensures AddressOctets(CanonicalAddrs(a)) == AddressOctets(a)
  {
  }

  lemma AddressUpdateFits(c: AddressChanges)
    ensures MessageEncodable(BuildAddressUpdate(c)) <==> AddressOctets(c.added) + AddressOctets(c.removed) < 0x1_0000
  {
    hide Listing, MessageEncodable;
    var gone, new_ := CanonicalAddrs(c.removed), CanonicalAddrs(c.added);
    EncodableParts(SESSION_UPDATE, Listing(false, gone), Listing(true, new_), []);
    assert Listing(false, gone) + Listing(true, new_) + [] == ChangeItems(c);
    ListingLength(false, gone);
    ListingLength(true, new_);
    CanonicalLength(c.removed);
    CanonicalLength(c.added);
  }

  lemma LinkResponseFits(mac: MacAddress, code: u8, text: Text, m: LinkMetrics)
    ensures MessageEncodable(BuildLinkResponse(mac, code, text, m)) <==>
              MetricsEncodable(m) && MacOctets(mac) + 5 + |text| + MetricOctets(m) < 0x1_0000
  {
    hide MetricItems, MessageEncodable, MetricsEncodable;
    EncodableParts(LINK_CHARACTERISTICS_RESPONSE, [Mac(mac)], [Status(code, text)], MetricItems(m));
    assert [Mac(mac), Status(code, text)] == [Mac(mac)] + [Status(code, text)];
    LengthUniform([Mac(mac)], MacOctets(mac) - 4);
    LengthUniform([Status(code, text)], 1 + |text|);
    MetricLength(m);
  }

  lemma LinkRequestFits(mac: MacAddress, r: LinkCharacteristics)
    ensures MessageEncodable(BuildLinkRequest(mac, r)) <==> (r.latency.Some? ==> Encodable(Latency(r.latency.value)))
  {
    var items := BuildLinkRequest(mac, r).items;
    if r.latency.Some? {
      assert items[|items| - 1] == Latency(r.latency.value);
    }
    if r.latency.Some? ==> Encodable(Latency(r.latency.value)) { ShortFits(BuildLinkRequest(mac, r)); }
  }

  // --- The router -----------------------------------------------------------

  predicate RouterCommands(e: Event) {
    e.AppDropDestination? || e.AppAnnounceDestination? || e.AppRequestLinkCharacteristics? || e.AppSessionAddresses?
  }

  /** The input of a command is one that can be sent. */
  ghost predicate RouterInput(s: R.Router, e: Event) {
    match e
    case AppRequestLinkCharacteristics(_, r) =>
      && (r.currentRx.Some? || r.currentTx.Some? || r.latency.Some?)
      && (r.latency.Some? ==> r.latency.value / NANOS_PER_MICRO < 0x1_0000_0000_0000_0000)
    case AppSessionAddresses(c) =>
      && Validate(c)
      && var told := LocalChange(s.localAddresses, c);
         AddressOctets(told.added) + AddressOctets(told.removed) < 0x1_0000
    case _ => true
  }

  /** Known for a drop or a request, unknown for an announcement. */
  predicate RouterPresence(s: R.Router, e: Event) {
    match e
    case AppDropDestination(mac, _) => mac in s.destinations
    case AppRequestLinkCharacteristics(mac, _) => mac in s.destinations
    case AppAnnounceDestination(mac) => mac !in s.destinations
    case _ => true
  }

  /** Which answer a command gets, as an if-and-only-if for each: it is accepted
      exactly in session, for a command of this role, with an address of the
      configured format, its own slot free, its destination present or absent as
      it must be, and sendable input; and the first of these that fails decides
      the refusal. */
  lemma RouterAnswers(s: R.Router, e: Event)
    requires R.RouterSlots(s) && Command(e).Some?
    ensures var error := R.RouterCommandError(s, e);
            var ours := s.phase.InSession? && RouterCommands(e);
            var free := ours && Addressable(s.config.macFormat, e) && Slot(s.tx, ScopeOf(e)).None?;
            && (error.None? <==> free && RouterPresence(s, e) && RouterInput(s, e))
            && (error == Some(NotReady) <==> !s.phase.InSession?)
            && (error == Some(Unsupported) <==> s.phase.InSession? && !RouterCommands(e))
            && (error == Some(MacAddressFormatMismatch) <==> ours && !Addressable(s.config.macFormat, e))
            && (error == Some(Busy) <==>
                  ours && Addressable(s.config.macFormat, e) && Slot(s.tx, ScopeOf(e)).Some?)
            && (error == Some(AlreadyExists) <==> free && !RouterPresence(s, e) && e.AppAnnounceDestination?)
            && (error == Some(UnknownDestination) <==> free && !RouterPresence(s, e) && !e.AppAnnounceDestination?)
            && (error == Some(InvalidInput) <==> free && RouterPresence(s, e) && !RouterInput(s, e))
  {
    hide MessageEncodable, Validate, LocalChange, BuildLinkRequest, BuildAddressUpdate;
    match e
    case AppRequestLinkCharacteristics(mac, r) => LinkRequestFits(mac, r);
    case AppSessionAddresses(c) => AddressUpdateFits(LocalChange(s.localAddresses, c));
    case _ =>
  }

  /** Two routers alike in the phase, the format, the command's own slot, the
      presence of its destination and the addresses announced so far. */
  ghost predicate RouterAlike(s: R.Router, t: R.Router, e: Event)
    requires Command(e).Some?
  {
    && s.phase == t.phase && s.config.macFormat == t.config.macFormat
    && Slot(s.tx, ScopeOf(e)) == Slot(t.tx, ScopeOf(e))
    && (ScopeOf(e).DestinationScope? ==> (ScopeOf(e).mac in s.destinations <==> ScopeOf(e).mac in t.destinations))
    && (e.AppSessionAddresses? ==> s.localAddresses == t.localAddresses)
  }

  /** What else is open, known or configured makes no difference. */
  lemma RouterAnswersLocally(s: R.Router, t: R.Router, e: Event)
    requires R.RouterSlots(s) && R.RouterSlots(t) && Command(e).Some? && RouterAlike(s, t, e)
    ensures R.RouterCommandError(s, e) == R.RouterCommandError(t, e)
  {
    hide MessageEncodable, LocalUpdateOk, BuildLinkRequest;
  }

  /** The request each command of the router makes of its destination. */
  function RouterRequest(e: Event): (RequestKind, Message)
    requires Command(e).Some? && RouterCommands(e) && !e.AppSessionAddresses?
  {
    match e
    case AppDropDestination(mac, _) => (DestinationDown, BuildDestinationDown(mac))
    case AppAnnounceDestination(mac) => (DestinationAnnounce, BuildDestinationAnnounce(mac))
    case AppRequestLinkCharacteristics(mac, r) => (LinkCharacteristicsKind, BuildLinkRequest(mac, r))
  }

  /** In session, with the slot free and the destination as it must be, the request
      goes out and is tracked, and nothing else changes. */
  lemma RouterRequestGoesOut(s: R.Router, e: Event)
    requires R.RouterSlots(s) && s.phase.InSession? && Command(e).Some? && RouterCommands(e) && !e.AppSessionAddresses?
    requires Addressable(s.config.macFormat, e) && Slot(s.tx, ScopeOf(e)).None?
    requires RouterPresence(s, e) && RouterInput(s, e)
    ensures var (t, actions) := R.RouterStep(s, e);
            var (kind, request) := RouterRequest(e);
            && actions == [SendMessage(request)]
            && t == s.(tx := t.tx)
            && Slot(t.tx, ScopeOf(e)) == Some(kind)
            && (forall scope :: scope != ScopeOf(e) ==> Slot(t.tx, scope) == Slot(s.tx, scope))
  {
    hide RouterInput, R.RouterCommandError, BuildLinkRequest;
    RouterAnswers(s, e);
  }

  // --- The modem ------------------------------------------------------------

  /** A metric set the modem takes: only declared types, all values in range. */
  ghost predicate MetricInput(s: M.Modem, m: LinkMetrics) {
    && (m.resources.Some? ==> s.config.initialMetrics.resources.Some? && m.resources.value <= 100)
    && (m.rlqRx.Some? ==> s.config.initialMetrics.rlqRx.Some? && m.rlqRx.value <= 100)
    && (m.rlqTx.Some? ==> s.config.initialMetrics.rlqTx.Some? && m.rlqTx.value <= 100)
    && (m.mtu.Some? ==> s.config.initialMetrics.mtu.Some?)
    && m.latency / NANOS_PER_MICRO < 0x1_0000_0000_0000_0000
  }

  lemma MetricInputMeans(s: M.Modem, m: LinkMetrics)
    ensures M.ValidMetrics(s, m) <==> MetricInput(s, m)
  {
    hide MessageEncodable, BuildSessionUpdate;
    SessionUpdateFits(m);
  }

  predicate ModemCommands(e: Event) { !e.AppAnnounceDestination? && !e.AppRequestLinkCharacteristics? }

  /** The slot of the command allows it: free, or for an update still waiting for
      the Destination Up; and a link answer is owed exactly for a link command. */
  predicate ModemTurn(s: M.Modem, e: Event)
    requires Command(e).Some?
  {
    match e
    case AppUpdateMetrics(_, _) => Slot(s.tx, ScopeOf(e)) in {None, Some(DestinationUp)}
    case AppUpdateAddresses(_, _) => Slot(s.tx, ScopeOf(e)) in {None, Some(DestinationUp)}
    case AppDropDestination(mac, _) => Slot(s.tx, ScopeOf(e)).None? && mac !in s.pendingLinks
    case _ => Slot(s.tx, ScopeOf(e)).None?
  }

  /** Unknown for an addition, known for what changes a destination. */
  predicate ModemPresence(s: M.Modem, e: Event) {
    match e
    case AppAddDestination(mac, _, _) => mac !in s.destinations
    case AppDropDestination(mac, _) => mac in s.destinations
    case AppUpdateMetrics(mac, _) => mac in s.destinations
    case AppUpdateAddresses(mac, _) => mac in s.destinations
    case _ => true
  }

  /** A link answer is owed. */
  predicate Owed(s: M.Modem, e: Event) {
    e.AppLinkCharacteristicsResponse? ==> e.mac in s.pendingLinks
  }

  ghost predicate ModemInput(s: M.Modem, e: Event) {
    match e
    case AppAddDestination(mac, m, a) =>
      && MetricInput(s, m) && Validate(AddressChanges(a, NO_ADDRS))
      && var total := Overlay(m, s.sessionMetrics);
         MetricsEncodable(total) && MacOctets(mac) + AddressOctets(a) + MetricOctets(total) < 0x1_0000
    case AppUpdateMetrics(_, m) => MetricInput(s, m)
    case AppUpdateAddresses(mac, c) =>
      && Validate(c)
      && (mac in s.destinations ==>
            var d := s.destinations[mac];
            && MetricsEncodable(d.metrics)
            && MacOctets(mac) + AddressOctets(ApplyLenient(c, d.addrs)) + MetricOctets(d.metrics) < 0x1_0000)
    case AppSessionUpdate(m) => MetricInput(s, m)
    case AppLinkCharacteristicsResponse(mac, code, text, m) =>
      && !TerminatesSession(code)
      && (m.Some? ==> MetricInput(s, m.value))
      && (mac in s.destinations ==>
            var total := if m.Some? then Overlay(m.value, s.destinations[mac].metrics) else s.destinations[mac].metrics;
            MetricsEncodable(total) && MacOctets(mac) + 5 + |text| + MetricOctets(total) < 0x1_0000)
    case AppSessionAddresses(c) =>
      && Validate(c)
      && var told := LocalChange(s.localAddresses, c);
         AddressOctets(told.added) + AddressOctets(told.removed) < 0x1_0000
    case _ => true
  }

  lemma ScopeAnswers(s: M.Modem, e: Event)
    requires M.ModemSlots(s) && Command(e).Some?
    ensures var error := M.ScopeError(s, e);
            && (error.None? <==> Addressable(s.config.macFormat, e) && Owed(s, e) && ModemTurn(s, e))
            && (error == Some(MacAddressFormatMismatch) <==> !Addressable(s.config.macFormat, e))
            && (error == Some(NoPendingRequest) <==> Addressable(s.config.macFormat, e) && !Owed(s, e))
            && (error == Some(Busy) <==> Addressable(s.config.macFormat, e) && Owed(s, e) && !ModemTurn(s, e))
  {
  }

  lemma ModemInputMeans(s: M.Modem, e: Event)
    ensures e.AppAddDestination? ==>
              (ModemInput(s, e) <==>
                 && M.ValidMetrics(s, e.metrics) && Validate(AddressChanges(e.addrs, NO_ADDRS))
                 && MessageEncodable(BuildDestinationUp(e.mac, Absorb(e.metrics, s.sessionMetrics), e.addrs)))
    ensures e.AppUpdateMetrics? ==> (ModemInput(s, e) <==> M.ValidMetrics(s, e.metrics))
    ensures e.AppSessionUpdate? ==> (ModemInput(s, e) <==> M.ValidMetrics(s, e.metrics))
    ensures e.AppUpdateAddresses? && e.mac in s.destinations ==>
              var d := s.destinations[e.mac];
              (ModemInput(s, e) <==>
                 && Validate(e.changes)
                 && MessageEncodable(BuildDestinationUp(e.mac, d.metrics, ApplyLenient(e.changes, d.addrs))))
    ensures e.AppLinkCharacteristicsResponse? && e.mac in s.destinations ==>
              var total := M.Reported(s.destinations[e.mac].metrics, e.reported);
              (ModemInput(s, e) <==>
                 && !TerminatesSession(e.status)
                 && (e.reported.Some? ==> M.ValidMetrics(s, e.reported.value))
                 && MessageEncodable(BuildLinkResponse(e.mac, e.status, e.text, total)))
    ensures e.AppSessionAddresses? ==> (ModemInput(s, e) <==> LocalUpdateOk(s.localAddresses, e.changes))
  {
    hide MessageEncodable, Validate, LocalChange, BuildDestinationUp, BuildAddressUpdate, BuildLinkResponse, Overlay,
         MetricInput, M.ValidMetrics, MetricsEncodable, MetricOctets, AddressOctets, MacOctets, ApplyLenient;
    match e
    case AppAddDestination(mac, m, a) =>
      MetricInputMeans(s, m);
      UpFits(mac, Overlay(m, s.sessionMetrics), a);
    case AppUpdateMetrics(_, m) => MetricInputMeans(s, m);
    case AppSessionUpdate(m) => MetricInputMeans(s, m);
    case AppUpdateAddresses(mac, c) =>
      if mac in s.destinations {
        UpFits(mac, s.destinations[mac].metrics, ApplyLenient(c, s.destinations[mac].addrs));
      }
    case AppLinkCharacteristicsResponse(mac, code, text, m) =>
      if m.Some? { MetricInputMeans(s, m.value); }
      if mac in s.destinations { LinkResponseFits(mac, code, text, M.Reported(s.destinations[mac].metrics, m)); }
    case AppSessionAddresses(c) => AddressUpdateFits(LocalChange(s.localAddresses, c));
    case _ =>
  }

  /** Which answer a command gets at the modem, as an if-and-only-if for each. */
  lemma ModemAnswers(s: M.Modem, e: Event)
    requires M.ModemSlots(s) && Command(e).Some?
    ensures var error := M.ModemCommandError(s, e);
            var ours := s.phase.InSession? && ModemCommands(e);
            var due := ours && Addressable(s.config.macFormat, e) && Owed(s, e);
            var free := due && ModemTurn(s, e);
            && (error.None? <==> free && ModemPresence(s, e) && ModemInput(s, e))
            && (error == Some(NotReady) <==> !s.phase.InSession?)
            && (error == Some(Unsupported) <==> s.phase.InSession? && !ModemCommands(e))
            && (error == Some(MacAddressFormatMismatch) <==> ours && !Addressable(s.config.macFormat, e))
            && (error == Some(NoPendingRequest) <==> ours && Addressable(s.config.macFormat, e) && !Owed(s, e))
            && (error == Some(Busy) <==> due && !ModemTurn(s, e))
            && (error == Some(AlreadyExists) <==> free && !ModemPresence(s, e) && e.AppAddDestination?)
            && (error == Some(UnknownDestination) <==> free && !ModemPresence(s, e) && !e.AppAddDestination?)
            && (error == Some(InvalidInput) <==> free && ModemPresence(s, e) && !ModemInput(s, e))
  {
    ScopeAnswers(s, e);
    hide MessageEncodable, Validate, BuildDestinationUp, BuildLinkResponse, M.ValidMetrics, ModemInput, ApplyLenient,
         LocalUpdateOk, ModemTurn, Addressable, M.ScopeError, Absorb, M.Reported;
    ModemInputMeans(s, e);
  }

  /** Two modems alike in the phase, the configuration, the command's own slot and
      debt, the entry of its destination and, where the command reads them, the
      session's own values. */
  ghost predicate ModemAlike(s: M.Modem, t: M.Modem, e: Event)
    requires Command(e).Some?
  {
    && s.phase == t.phase && s.config == t.config
    && Slot(s.tx, ScopeOf(e)) == Slot(t.tx, ScopeOf(e))
    && (ScopeOf(e).DestinationScope? ==>
          var mac := ScopeOf(e).mac;
          && (mac in s.pendingLinks <==> mac in t.pendingLinks)
          && (mac in s.destinations <==> mac in t.destinations)
          && (mac in s.destinations ==>
                s.destinations[mac].metrics == t.destinations[mac].metrics
                && s.destinations[mac].addrs == t.destinations[mac].addrs))
    && (e.AppAddDestination? ==> s.sessionMetrics == t.sessionMetrics)
    && (e.AppSessionAddresses? ==> s.localAddresses == t.localAddresses)
  }

  /** What else is open, owed or known makes no difference. */
  lemma ModemAnswersLocally(s: M.Modem, t: M.Modem, e: Event)
    requires M.ModemSlots(s) && M.ModemSlots(t) && Command(e).Some? && ModemAlike(s, t, e)
    ensures M.ModemCommandError(s, e) == M.ModemCommandError(t, e)
  {
    hide MessageEncodable, LocalUpdateOk, BuildLinkResponse, BuildDestinationUp, BuildSessionUpdate, Validate,
         SupportedBy, Absorb, ApplyLenient;
  }

  /** A drop of a known destination with its slot free and no answer owed: an
      announced one is asked down, one the peer never took is forgotten. */
  lemma DropGoesOut(s: M.Modem, mac: MacAddress, reason: u8)
    requires M.ModemSlots(s) && s.phase.InSession? && Accepts(s.config.macFormat, mac)
    requires Slot(s.tx, DestinationScope(mac)).None? && mac !in s.pendingLinks && mac in s.destinations
    ensures var (t, actions) := M.ModemStep(s, AppDropDestination(mac, reason));
            if s.destinations[mac].announced
            then actions == [SendMessage(BuildDestinationDown(mac))]
                 && t == s.(tx := Open(s.tx, DestinationScope(mac), DestinationDown))
            else actions == [] && t == s.(destinations := s.destinations - {mac})
  {
    hide M.ModemCommandError;
    ModemAnswers(s, AppDropDestination(mac, reason));
  }

  /** An addition of an unknown destination with sendable input goes out, whatever
      is open for other destinations. */
  lemma AddGoesOut(s: M.Modem, mac: MacAddress, m: LinkMetrics, a: DestinationAddrs)
    requires M.ModemSlots(s) && s.phase.InSession? && Accepts(s.config.macFormat, mac) && mac !in s.destinations
    requires ModemInput(s, AppAddDestination(mac, m, a))
    ensures var (t, actions) := M.ModemStep(s, AppAddDestination(mac, m, a));
            && actions == [SendMessage(BuildDestinationUp(mac, Overlay(m, s.sessionMetrics), CanonicalAddrs(a)))]
            && t.tx == Open(s.tx, DestinationScope(mac), DestinationUp)
            && mac in t.destinations && t.destinations[mac].metrics == Overlay(m, s.sessionMetrics)
            && (forall n :: n in s.destinations ==> n in t.destinations && t.destinations[n] == s.destinations[n])
  {
    hide M.ModemCommandError, ModemInput, BuildDestinationUp, Overlay;
    ModemAnswers(s, AppAddDestination(mac, m, a));
  }

  // --- Over every run -------------------------------------------------------

  ghost predicate RouterFits(s: R.Router) {
    forall mac :: mac in s.destinations ==> Accepts(s.config.macFormat, mac)
  }

  lemma MacFits(s: R.Router, msg: Message)
    requires s.phase.InSession? && R.RouterCheck(s, msg).None? && ExtractMac(msg.items).Some?
    ensures Accepts(s.config.macFormat, ExtractMac(msg.items).value)
  {
    assert MacFormatOk(msg, s.config.macFormat);
    hide R.RouterCheck;
    MacPresent(msg.items);
  }

  /** Only an accepted message adds a destination, and only its own. */
  lemma AcceptAdds(s: R.Router, msg: Message)
    requires s.phase.InSession? && R.RouterCheck(s, msg).None? && R.RouterSlots(s)
    ensures var t := R.RouterAccept(s, msg).0;
            && t.config == s.config
            && forall mac :: mac in t.destinations && mac !in s.destinations ==> ExtractMac(msg.items) == Some(mac)
  {
    R.AcceptedMessage(s, msg);
    hide R.RouterCheck, R.NewDestination, ResetAction, Merge, FromItems, ApplyStrict, ApplyLenient, R.OwnedChanges,
         Between, HasMetrics, ExtractMac, ExtractStatus, ExtractStatusItem;
  }

  lemma CommandAddsNone(s: R.Router, e: Event)
    requires Command(e).Some? && R.RouterCommandError(s, e).None?
    ensures var t := R.RouterCommand(s, e).0; t.config == s.config && t.destinations == s.destinations
  {
    hide R.RouterCommandError, LocalUpdate, BuildLinkRequest;
  }

  lemma LocalAddsNone(s: R.Router, e: Event)
    ensures var t := R.RouterLocal(s, e).0; t.config == s.config && t.destinations == s.destinations
  {
    hide ResetAction, BuildInitialization, StartTermination;
  }

  lemma HandshakeAddsNone(s: R.Router, msg: Message)
    ensures var t := R.RouterHandshake(s, msg).0; t.config == s.config && t.destinations == s.destinations
  {
    hide ResetAction, ExtractStatus, FromItems, Merge, MetricTypes, ExtractHeartbeat, ExtractExtensions,
         R.InitFailedText;
  }

  /** Apart from accepted messages in session, no event touches the destinations. */
  lemma AddsNone(s: R.Router, e: Event)
    requires R.RouterSlots(s)
    requires !(e.RecvMessage? && s.phase.InSession? && R.RouterVerdict(s, e.msg).None?)
    ensures var t := R.RouterStep(s, e).0; t.config == s.config && t.destinations == s.destinations
  {
    hide R.RouterCommand, R.RouterCommandError, R.RouterLocal, R.RouterHandshake, R.RouterVerdict, R.RouterAccept;
    if Command(e).Some? {
      if R.RouterCommandError(s, e).None? { CommandAddsNone(s, e); }
    } else if e.RecvMessage? {
      HandshakeAddsNone(s, e.msg);
    } else {
      LocalAddsNone(s, e);
    }
  }

  lemma RouterStepFits(s: R.Router, e: Event)
    requires R.RouterSlots(s) && RouterFits(s)
    ensures RouterFits(R.RouterStep(s, e).0)
  {
    hide R.RouterAccept, R.RouterCheck, ExtractMac, FatalStatus, R.RouterFail, R.RouterHandshake, R.RouterSlots,
         R.RouterLocal, R.RouterCommand, R.RouterCommandError;
    if e.RecvMessage? && s.phase.InSession? && R.RouterVerdict(s, e.msg).None? {
      AcceptAdds(s, e.msg);
      if ExtractMac(e.msg.items).Some? { MacFits(s, e.msg); }
    } else {
      hide R.RouterStep, R.RouterVerdict;
      AddsNone(s, e);
    }
  }

  lemma {:induction false} RouterRunFits(config: SessionConfig, events: seq<Event>)
    ensures RouterFits(RI.RunFromNew(config, events).0)
  {
    hide R.RouterStep, R.RouterInv, RouterFits;
    if |events| == 0 {
      NewRouterFits(config);
    } else {
      var before := RI.RunFromNew(config, events[..|events| - 1]).0;
      RouterRunFits(config, events[..|events| - 1]);
      RI.SlotsOf(before);
      RouterStepFits(before, events[|events| - 1]);
    }
  }

  lemma NewRouterFits(config: SessionConfig)
    ensures RouterFits(R.NewRouter(config))
  {
  }

  /** After any run against any peer: in session a known destination whose slot is
      free can be dropped, and the request goes out. */
  lemma KnownCanBeDropped(config: SessionConfig, events: seq<Event>, mac: MacAddress, reason: u8)
    requires var s := RI.RunFromNew(config, events).0;
             s.phase.InSession? && mac in s.destinations && Slot(s.tx, DestinationScope(mac)).None?
    ensures var s := RI.RunFromNew(config, events).0;
            && R.RouterSlots(s)
            && var (t, actions) := R.RouterStep(s, AppDropDestination(mac, reason));
               && actions == [SendMessage(BuildDestinationDown(mac))]
               && t == s.(tx := Open(s.tx, DestinationScope(mac), DestinationDown))
  {
    var s := RI.RunFromNew(config, events).0;
    assert R.RouterInv(s);
    hide R.RouterCommandError, RI.RunFromNew, R.RouterInv;
    RouterRunFits(config, events);
    RI.SlotsOf(s);
    RouterAnswers(s, AppDropDestination(mac, reason));
  }
}
