/** What both session machines share (crates/dlep-fsm/src/session_common.rs):
    configuration, message builders and extractors, and metric merging.
 */
module Messages {
  import opened Types
  import opened Addresses

  datatype SessionConfig = SessionConfig(
    macFormat: MacAddressFormat,
    peerDescription: Text,
    initialMetrics: LinkMetrics,
    heartbeatMs: u32,
    initTimeout: Duration,
    terminationTimeout: Option<Duration>,
    extensions: seq<u16>,
    deferLinkCharacteristics: bool)

  const MAX_DURATION: Duration := 0x1_0000_0000_0000_0000 * 1_000_000_000 - 1

  /** The local interval, never below the one-second minimum. */
  function LocalHeartbeat(config: SessionConfig): (d: Duration)
    ensures Encodable(HeartbeatInterval(d))
  {
    var ms := if config.heartbeatMs < MIN_HEARTBEAT_INTERVAL_MS then MIN_HEARTBEAT_INTERVAL_MS else config.heartbeatMs;
    ms * NANOS_PER_MILLI
  }

  function TerminationDeadline(config: SessionConfig): Duration {
    match config.terminationTimeout
    case Some(d) => d
    case None => 4 * LocalHeartbeat(config)
  }

  /** Twice the peer's interval, unless it is missing, too short or overflows. */
  function MissedDeadline(peer: Option<Duration>): Option<Duration> {
    match peer
    case None => None
    case Some(d) =>
      if d < MIN_HEARTBEAT_INTERVAL_MS * NANOS_PER_MILLI || 2 * d > MAX_DURATION then None else Some(2 * d)
  }

  // --- Metrics --------------------------------------------------------------

  function OptionalItems(m: LinkMetrics): seq<DataItem> {
    (if m.resources.Some? then [Resources(m.resources.value)] else []) +
    (if m.rlqRx.Some? then [RelativeLinkQualityReceive(m.rlqRx.value)] else []) +
    (if m.rlqTx.Some? then [RelativeLinkQualityTransmit(m.rlqTx.value)] else []) +
    (if m.mtu.Some? then [Mtu(m.mtu.value)] else [])
  }

  function MandatoryItems(m: LinkMetrics): seq<DataItem> {
    [MaxDataRateReceive(m.maxRx), MaxDataRateTransmit(m.maxTx),
     CurrentDataRateReceive(m.currentRx), CurrentDataRateTransmit(m.currentTx), Latency(m.latency)]
  }

  function MetricItems(m: LinkMetrics): seq<DataItem> {
    MandatoryItems(m) + OptionalItems(m)
  }

  predicate IsMetricType(t: u16) { 12 <= t <= 20 }
  predicate IsAddressType(t: u16) { 8 <= t <= 11 }

  predicate IsMetricItem(item: DataItem) { IsMetricType(TypeId(item)) && !item.Unknown? }

  function MergeItem(item: DataItem, m: LinkMetrics): LinkMetrics {
    match item
    case MaxDataRateReceive(v) => m.(maxRx := v)
    case MaxDataRateTransmit(v) => m.(maxTx := v)
    case CurrentDataRateReceive(v) => m.(currentRx := v)
    case CurrentDataRateTransmit(v) => m.(currentTx := v)
    case Latency(v) => m.(latency := v)
    case Resources(v) => m.(resources := Some(v))
    case RelativeLinkQualityReceive(v) => m.(rlqRx := Some(v))
    case RelativeLinkQualityTransmit(v) => m.(rlqTx := Some(v))
    case Mtu(v) => m.(mtu := Some(v))
    case _ => m
  }

  /** Apply only the supplied fields, keeping all others. */
  function Merge(items: seq<DataItem>, m: LinkMetrics): LinkMetrics {
    if |items| == 0 then m else MergeItem(items[|items| - 1], Merge(items[..|items| - 1], m))
  }

  predicate HasMetrics(items: seq<DataItem>) {
    exists i :: 0 <= i < |items| && IsMetricItem(items[i])
  }

  method MergeLinkMetrics(msg: Message, m: LinkMetrics) returns (r: LinkMetrics, found: bool)
    ensures r == Merge(msg.items, m)
    ensures found == HasMetrics(msg.items)
  {
    r, found := m, false;
    for i := 0 to |msg.items|
      invariant r == Merge(msg.items[..i], m)
      invariant found == HasMetrics(msg.items[..i])
    {
      var front := msg.items[..i];
      var upto := msg.items[..i + 1];
      assert upto[..i] == front && upto[i] == msg.items[i];
      assert HasMetrics(upto) <==> HasMetrics(front) || IsMetricItem(msg.items[i]) by {
        if HasMetrics(front) {
          var k :| 0 <= k < |front| && IsMetricItem(front[k]);
          assert IsMetricItem(upto[k]);
        }
        if IsMetricItem(msg.items[i]) { assert IsMetricItem(upto[i]); }
        if HasMetrics(upto) {
          var k :| 0 <= k < |upto| && IsMetricItem(upto[k]);
          if k < i { assert IsMetricItem(front[k]); }
        }
      }
      r := MergeItem(msg.items[i], r);
      found := found || IsMetricItem(msg.items[i]);
    }
    assert msg.items[..|msg.items|] == msg.items;
  }

  /** The fields `delta` supplies, over `base`. */
  function Overlay(delta: LinkMetrics, base: LinkMetrics): LinkMetrics {
    LinkMetrics(delta.maxRx, delta.maxTx, delta.currentRx, delta.currentTx, delta.latency,
                if delta.resources.Some? then delta.resources else base.resources,
                if delta.rlqRx.Some? then delta.rlqRx else base.rlqRx,
                if delta.rlqTx.Some? then delta.rlqTx else base.rlqTx,
                if delta.mtu.Some? then delta.mtu else base.mtu)
  }

  ghost predicate SameSupport(a: LinkMetrics, b: LinkMetrics) {
    && a.resources.Some? == b.resources.Some?
    && a.rlqRx.Some? == b.rlqRx.Some?
    && a.rlqTx.Some? == b.rlqTx.Some?
    && a.mtu.Some? == b.mtu.Some?
  }

  ghost predicate MetricsEncodable(m: LinkMetrics) {
    && Encodable(Latency(m.latency))
    && (m.resources.Some? ==> m.resources.value <= 100)
    && (m.rlqRx.Some? ==> m.rlqRx.value <= 100)
    && (m.rlqTx.Some? ==> m.rlqTx.value <= 100)
  }

  lemma {:induction false} MergeConcat(a: seq<DataItem>, b: seq<DataItem>, m: LinkMetrics)
    ensures Merge(a + b, m) == Merge(b, Merge(a, m))
  {
    if |b| == 0 {
      assert a + b == a;
    } else {
      assert (a + b)[..|a + b| - 1] == a + b[..|b| - 1];
      MergeConcat(a, b[..|b| - 1], m);
    }
  }

  lemma MergeOne(item: DataItem, m: LinkMetrics)
    ensures Merge([item], m) == MergeItem(item, m)
  {
    assert [item][..0] == [];
    assert Merge([], m) == m;
  }

  lemma {:induction false} MergeNothing(items: seq<DataItem>, m: LinkMetrics)
    requires forall i :: 0 <= i < |items| ==> !IsMetricItem(items[i])
    ensures Merge(items, m) == m
  {
    if |items| > 0 {
      MergeNothing(items[..|items| - 1], m);
    }
  }

  lemma MergeIf(present: bool, item: DataItem, m: LinkMetrics)
    ensures Merge(if present then [item] else [], m) == if present then MergeItem(item, m) else m
  {
    if present { MergeOne(item, m); }
  }

  lemma MergeOptional(d: LinkMetrics, m: LinkMetrics)
    ensures Merge(OptionalItems(d), m)
         == m.(resources := if d.resources.Some? then d.resources else m.resources,
               rlqRx := if d.rlqRx.Some? then d.rlqRx else m.rlqRx,
               rlqTx := if d.rlqTx.Some? then d.rlqTx else m.rlqTx,
               mtu := if d.mtu.Some? then d.mtu else m.mtu)
  {
    hide Merge;
    var a := if d.resources.Some? then [Resources(d.resources.value)] else [];
    var b := if d.rlqRx.Some? then [RelativeLinkQualityReceive(d.rlqRx.value)] else [];
    var c := if d.rlqTx.Some? then [RelativeLinkQualityTransmit(d.rlqTx.value)] else [];
    var e := if d.mtu.Some? then [Mtu(d.mtu.value)] else [];
    MergeConcat(a + b + c, e, m);
    MergeConcat(a + b, c, m);
    MergeConcat(a, b, m);
    var r0 := if d.resources.Some? then d.resources.value else 0;
    var r1 := if d.rlqRx.Some? then d.rlqRx.value else 0;
    var r2 := if d.rlqTx.Some? then d.rlqTx.value else 0;
    var r3 := if d.mtu.Some? then d.mtu.value else 0;
    MergeIf(d.resources.Some?, Resources(r0), m);
    MergeIf(d.rlqRx.Some?, RelativeLinkQualityReceive(r1), Merge(a, m));
    MergeIf(d.rlqTx.Some?, RelativeLinkQualityTransmit(r2), Merge(b, Merge(a, m)));
    MergeIf(d.mtu.Some?, Mtu(r3), Merge(c, Merge(b, Merge(a, m))));
  }

  lemma MergeMandatory(d: LinkMetrics, m: LinkMetrics)
    ensures Merge(MandatoryItems(d), m)
         == m.(maxRx := d.maxRx, maxTx := d.maxTx, currentRx := d.currentRx, currentTx := d.currentTx,
               latency := d.latency)
  {
    var i := MandatoryItems(d);
    assert i[..5] == i;
    assert i[..5][..4] == i[..4];
    assert i[..4][..3] == i[..3];
    assert i[..3][..2] == i[..2];
    assert i[..2][..1] == i[..1];
    assert i[..1][..0] == [];
    assert Merge(i[..1], m) == m.(maxRx := d.maxRx);
    assert Merge(i[..2], m) == m.(maxRx := d.maxRx, maxTx := d.maxTx);
    assert Merge(i[..3], m) == m.(maxRx := d.maxRx, maxTx := d.maxTx, currentRx := d.currentRx);
    assert Merge(i[..4], m) == m.(maxRx := d.maxRx, maxTx := d.maxTx, currentRx := d.currentRx,
                                  currentTx := d.currentTx);
  }

  /** Merging the items built from `d` overlays exactly the fields `d` supplies. */
  lemma MergeBuilt(d: LinkMetrics, m: LinkMetrics)
    ensures Merge(MetricItems(d), m) == Overlay(d, m)
  {
    MergeConcat(MandatoryItems(d), OptionalItems(d), m);
    MergeMandatory(d, m);
    MergeOptional(d, Merge(MandatoryItems(d), m));
  }

  /** Merge a metric set as if it arrived in a Session Update. */
  function Absorb(delta: LinkMetrics, base: LinkMetrics): (r: LinkMetrics)
    ensures r == Overlay(delta, base)
  {
    MergeBuilt(delta, base);
    Merge(MetricItems(delta), base)
  }

  /** With equal support the overlay replaces everything. */
  lemma OverlayReplaces(d: LinkMetrics, m: LinkMetrics)
    requires SameSupport(d, m)
    ensures Overlay(d, m) == d
  {
  }

  // --- Builders -------------------------------------------------------------

  function BuildTermination(reason: u8): Message {
    Message(SESSION_TERMINATION, [Status(reason, [])])
  }
  function BuildTerminationResponse(): Message { Message(SESSION_TERMINATION_RESPONSE, []) }
  function BuildHeartbeat(): Message { Message(HEARTBEAT, []) }
  function BuildSessionUpdate(m: LinkMetrics): Message { Message(SESSION_UPDATE, MetricItems(m)) }
  function BuildSessionUpdateResponse(code: u8): Message {
    Message(SESSION_UPDATE_RESPONSE, [Status(code, [])])
  }
  function BuildAddressUpdate(c: AddressChanges): Message { Message(SESSION_UPDATE, ChangeItems(c)) }
  function BuildDestinationUp(mac: MacAddress, m: LinkMetrics, a: DestinationAddrs): Message {
    Message(DESTINATION_UP, [Mac(mac)] + Listing(true, a) + MetricItems(m))
  }
  function BuildDestinationUpResponse(mac: MacAddress, code: u8): Message {
    Message(DESTINATION_UP_RESPONSE, [Mac(mac), Status(code, [])])
  }
  function BuildDestinationUpdate(mac: MacAddress, m: LinkMetrics): Message {
    Message(DESTINATION_UPDATE, [Mac(mac)] + MetricItems(m))
  }
  function BuildDestinationDown(mac: MacAddress): Message { Message(DESTINATION_DOWN, [Mac(mac)]) }
  function BuildDestinationDownResponse(mac: MacAddress, code: u8): Message {
    Message(DESTINATION_DOWN_RESPONSE, [Mac(mac), Status(code, [])])
  }
  function BuildDestinationAnnounce(mac: MacAddress): Message { Message(DESTINATION_ANNOUNCE, [Mac(mac)]) }
  function BuildAnnounceDenied(mac: MacAddress): Message {
    Message(DESTINATION_ANNOUNCE_RESPONSE, [Mac(mac), Status(REQUEST_DENIED, [])])
  }
  function BuildAnnounceAccepted(mac: MacAddress, m: LinkMetrics, a: DestinationAddrs): Message {
    Message(DESTINATION_ANNOUNCE_RESPONSE, BuildDestinationUp(mac, m, a).items + [Status(SUCCESS, [])])
  }
  function BuildLinkRequest(mac: MacAddress, r: LinkCharacteristics): Message {
    Message(LINK_CHARACTERISTICS_REQUEST,
            [Mac(mac)] +
            (if r.currentRx.Some? then [CurrentDataRateReceive(r.currentRx.value)] else []) +
            (if r.currentTx.Some? then [CurrentDataRateTransmit(r.currentTx.value)] else []) +
            (if r.latency.Some? then [Latency(r.latency.value)] else []))
  }
  function BuildLinkResponse(mac: MacAddress, code: u8, text: Text, m: LinkMetrics): Message {
    Message(LINK_CHARACTERISTICS_RESPONSE, [Mac(mac), Status(code, text)] + MetricItems(m))
  }
  function ExtensionItems(ids: seq<u16>): seq<DataItem> {
    if |ids| == 0 then [] else [ExtensionsSupported(ids)]
  }
  function BuildInitialization(config: SessionConfig): Message {
    Message(SESSION_INITIALIZATION,
            [HeartbeatInterval(LocalHeartbeat(config)), PeerType(false, config.peerDescription)]
            + ExtensionItems(config.extensions))
  }
  function BuildInitializationResponse(config: SessionConfig): Message {
    Message(SESSION_INITIALIZATION_RESPONSE,
            [Status(SUCCESS, []), HeartbeatInterval(LocalHeartbeat(config)), PeerType(false, config.peerDescription)]
            + ExtensionItems(config.extensions) + MetricItems(config.initialMetrics))
  }

  // --- Extractors: the first item of the kind, if any -----------------------

  function ExtractMac(items: seq<DataItem>): Option<MacAddress> {
    if |items| == 0 then None else if items[0].Mac? then Some(items[0].mac) else ExtractMac(items[1..])
  }
  function ExtractStatusItem(items: seq<DataItem>): (r: Option<DataItem>)
    ensures r.Some? ==> r.value.Status?
  {
    if |items| == 0 then None else if items[0].Status? then Some(items[0]) else ExtractStatusItem(items[1..])
  }
  function ExtractStatus(items: seq<DataItem>): Option<u8> {
    match ExtractStatusItem(items) case None => None case Some(s) => Some(s.code)
  }
  function ExtractHeartbeat(items: seq<DataItem>): Option<Duration> {
    if |items| == 0 then None
    else if items[0].HeartbeatInterval? then Some(items[0].interval) else ExtractHeartbeat(items[1..])
  }
  function ExtractExtensions(items: seq<DataItem>): seq<u16> {
    if |items| == 0 then []
    else if items[0].ExtensionsSupported? then items[0].ids else ExtractExtensions(items[1..])
  }
  /** The last value of each requested characteristic. */
  function ExtractLinkCharacteristics(items: seq<DataItem>): LinkCharacteristics {
    if |items| == 0 then LinkCharacteristics(None, None, None) else
      var r := ExtractLinkCharacteristics(items[..|items| - 1]);
      match items[|items| - 1]
      case CurrentDataRateReceive(v) => r.(currentRx := Some(v))
      case CurrentDataRateTransmit(v) => r.(currentTx := Some(v))
      case Latency(v) => r.(latency := Some(v))
      case _ => r
  }
  /** First status that ends a session (codes from 128). */
  function FatalStatus(items: seq<DataItem>): (r: Option<DataItem>)
    ensures r.Some? ==> r.value.Status? && TerminatesSession(r.value.code)
  {
    if |items| == 0 then None
    else if items[0].Status? && TerminatesSession(items[0].code) then Some(items[0])
    else FatalStatus(items[1..])
  }
  /** The metric types a message carries. */
  function MetricTypes(items: seq<DataItem>): set<u16> {
    set i | 0 <= i < |items| && IsMetricType(TypeId(items[i])) :: TypeId(items[i])
  }

  lemma {:induction false} MacPresent(items: seq<DataItem>)
    ensures ExtractMac(items).Some? <==> exists i :: 0 <= i < |items| && items[i].Mac?
    ensures ExtractMac(items).Some? ==> Mac(ExtractMac(items).value) in items
  {
    if |items| > 0 {
      MacPresent(items[1..]);
      assert forall i :: 1 <= i < |items| ==> items[i] == items[1..][i - 1];
      if !items[0].Mac? && ExtractMac(items[1..]).Some? {
        var k :| 0 <= k < |items[1..]| && items[1..][k].Mac?;
        assert items[k + 1].Mac?;
      }
    }
  }

  lemma {:induction false} StatusPresent(items: seq<DataItem>)
    ensures ExtractStatusItem(items).Some? <==> exists i :: 0 <= i < |items| && items[i].Status?
    ensures ExtractStatusItem(items).Some? ==> ExtractStatusItem(items).value in items
  {
    if |items| > 0 {
      StatusPresent(items[1..]);
      assert forall i :: 1 <= i < |items| ==> items[i] == items[1..][i - 1];
      if !items[0].Status? && ExtractStatusItem(items[1..]).Some? {
        var k :| 0 <= k < |items[1..]| && items[1..][k].Status?;
        assert items[k + 1].Status?;
      }
    }
  }

  /** The status a message gives, `otherwise` if it gives none. */
  ghost predicate Gives(items: seq<DataItem>, code: u8, otherwise: u8) {
    (exists x :: x in items && x.Status? && x.code == code)
    || (code == otherwise && forall x :: x in items ==> !x.Status?)
  }

  lemma GivesStatus(items: seq<DataItem>, otherwise: u8)
    ensures var status := ExtractStatus(items);
            Gives(items, if status.Some? then status.value else otherwise, otherwise)
  {
    StatusPresent(items);
    hide ExtractStatusItem;
    if ExtractStatusItem(items).None? {
      forall x | x in items ensures !x.Status? {
        var i :| 0 <= i < |items| && items[i] == x;
      }
    }
  }

  lemma {:induction false} HeartbeatPresent(items: seq<DataItem>)
    ensures ExtractHeartbeat(items).Some? <==> exists i :: 0 <= i < |items| && items[i].HeartbeatInterval?
    ensures ExtractHeartbeat(items).Some? ==> HeartbeatInterval(ExtractHeartbeat(items).value) in items
  {
    if |items| > 0 {
      HeartbeatPresent(items[1..]);
      assert forall i :: 1 <= i < |items| ==> items[i] == items[1..][i - 1];
      if !items[0].HeartbeatInterval? && ExtractHeartbeat(items[1..]).Some? {
        var k :| 0 <= k < |items[1..]| && items[1..][k].HeartbeatInterval?;
        assert items[k + 1].HeartbeatInterval?;
      }
    }
  }

  lemma {:induction false} ExtensionsPresent(items: seq<DataItem>)
    ensures (forall i :: 0 <= i < |items| ==> !items[i].ExtensionsSupported?) ==> ExtractExtensions(items) == []
    ensures (exists i :: 0 <= i < |items| && items[i].ExtensionsSupported?) ==>
              ExtensionsSupported(ExtractExtensions(items)) in items
  {
    if |items| > 0 {
      ExtensionsPresent(items[1..]);
      assert forall i :: 1 <= i < |items| ==> items[i] == items[1..][i - 1];
      if !items[0].ExtensionsSupported? && exists i :: 0 <= i < |items| && items[i].ExtensionsSupported? {
        var i :| 0 <= i < |items| && items[i].ExtensionsSupported?;
        assert items[1..][i - 1].ExtensionsSupported?;
      }
    }
  }

  predicate EndsSession(item: DataItem) { item.Status? && TerminatesSession(item.code) }

  /** The status reported is the first that ends a session; without one, none is. */
  lemma {:induction false} FirstFatal(items: seq<DataItem>)
    ensures FatalStatus(items).None? <==> forall i :: 0 <= i < |items| ==> !EndsSession(items[i])
    ensures FatalStatus(items).Some? ==>
              exists k :: 0 <= k < |items| && items[k] == FatalStatus(items).value && EndsSession(items[k])
                          && forall i :: 0 <= i < k ==> !EndsSession(items[i])
  {
    if |items| > 0 {
      var rest := items[1..];
      FirstFatal(rest);
      assert forall i :: 1 <= i < |items| ==> items[i] == rest[i - 1];
      if EndsSession(items[0]) {
        assert items[0] == FatalStatus(items).value;
      } else if FatalStatus(rest).Some? {
        var k :| 0 <= k < |rest| && rest[k] == FatalStatus(rest).value && EndsSession(rest[k])
                 && forall i :: 0 <= i < k ==> !EndsSession(rest[i]);
        assert items[k + 1] == FatalStatus(items).value;
      }
    }
  }

  lemma {:induction false} NoFatal(items: seq<DataItem>)
    requires forall i :: 0 <= i < |items| && items[i].Status? ==> !TerminatesSession(items[i].code)
    ensures FatalStatus(items).None?
  {
    if |items| > 0 {
      NoFatal(items[1..]);
    }
  }

  lemma {:induction false} StatusLast(items: seq<DataItem>, last: DataItem)
    requires forall i :: 0 <= i < |items| ==> !items[i].Status?
    requires last.Status?
    ensures ExtractStatusItem(items + [last]) == Some(last)
  {
    if |items| > 0 {
      assert (items + [last])[1..] == items[1..] + [last];
      StatusLast(items[1..], last);
    }
  }

  // --- Short messages -------------------------------------------------------

  lemma {:induction false} ShortBody(items: seq<DataItem>)
    requires forall i :: 0 <= i < |items| ==> ValueLength(items[i]) <= 8
    ensures BodyLength(items) <= 12 * |items|
  {
    hide ValueLength;
    if |items| > 0 { ShortBody(items[..|items| - 1]); }
  }

  lemma ShortFits(msg: Message)
    requires |msg.items| <= 100
    requires forall i :: 0 <= i < |msg.items| ==> Encodable(msg.items[i]) && ValueLength(msg.items[i]) <= 8
    ensures MessageEncodable(msg)
  {
    hide Encodable, ValueLength;
    ShortBody(msg.items);
  }

  lemma MetricsFit(m: LinkMetrics)
    requires MetricsEncodable(m)
    ensures |MetricItems(m)| <= 9
    ensures forall i :: 0 <= i < |MetricItems(m)| ==>
              Encodable(MetricItems(m)[i]) && ValueLength(MetricItems(m)[i]) <= 8
  {
  }

  /** What a configuration must satisfy for its handshake message to be sendable. */
  ghost predicate ConfigEncodable(config: SessionConfig) {
    && Encodable(PeerType(false, config.peerDescription))
    && 2 * |config.extensions| < 0x1_0000
    && MetricsEncodable(config.initialMetrics)
  }
}
