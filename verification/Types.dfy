/** The values that DLEP messages carry (crates/dlep-core): identifiers, link
    metrics, typed data items and whole messages.

    Fixed-width integers are subset types of `nat`. A fixed array of octets (a
    MAC or IP address) is the big-endian number its octets spell. Durations
    count nanoseconds. A text field is the UTF-8 octets of the source's `String`.
 */
module Types {

  type u8 = x: nat | x < 0x100
  type u16 = x: nat | x < 0x1_0000
  type u32 = x: nat | x < 0x1_0000_0000
  type u48 = x: nat | x < 0x1_0000_0000_0000
  type u64 = x: nat | x < 0x1_0000_0000_0000_0000
  type u128 = x: nat | x < 0x1_0000_0000_0000_0000_0000_0000_0000_0000

  datatype Option<+T> = None | Some(value: T)

  /** The range of `std::time::Duration`: up to u64::MAX whole seconds. */
  type Duration = d: nat | d < 0x1_0000_0000_0000_0000 * 1_000_000_000
  const NANOS_PER_MILLI: nat := 1_000_000
  const NANOS_PER_MICRO: nat := 1_000
  const MIN_HEARTBEAT_INTERVAL_MS: u32 := 1_000

  // --- Text -----------------------------------------------------------------

  predicate IsContinuation(b: u8) { 0x80 <= b < 0xC0 }

  /** Octet count of the well-formed UTF-8 sequence starting `s`, 0 if none. */
  function Utf8Lead(s: seq<u8>): (n: nat)
    requires |s| > 0
    ensures n <= 4 && n <= |s|
  {
    var b := s[0];
    if b < 0x80 then 1
    else if 0xC2 <= b < 0xE0 then
      if |s| >= 2 && IsContinuation(s[1]) then 2 else 0
    else if 0xE0 <= b < 0xF0 then
      if |s| >= 3 && IsContinuation(s[1]) && IsContinuation(s[2])
         && (b == 0xE0 ==> s[1] >= 0xA0) && (b == 0xED ==> s[1] < 0xA0)
      then 3 else 0
    else if 0xF0 <= b < 0xF5 then
      if |s| >= 4 && IsContinuation(s[1]) && IsContinuation(s[2]) && IsContinuation(s[3])
         && (b == 0xF0 ==> s[1] >= 0x90) && (b == 0xF4 ==> s[1] < 0x90)
      then 4 else 0
    else 0
  }

  /** What `String::from_utf8` accepts (RFC 3629). */
  predicate ValidUtf8(s: seq<u8>) {
    |s| == 0 || (Utf8Lead(s) > 0 && ValidUtf8(s[Utf8Lead(s)..]))
  }

  type Text = s: seq<u8> | ValidUtf8(s)

  lemma {:induction false} AsciiIsUtf8(s: seq<u8>)
    requires forall i :: 0 <= i < |s| ==> s[i] < 0x80
    ensures ValidUtf8(s)
  {
    if |s| > 0 {
      AsciiIsUtf8(s[1..]);
    }
  }

  // --- Addresses ------------------------------------------------------------

  datatype MacAddress = Eui48(octets48: u48) | Eui64(octets64: u64)
  datatype MacAddressFormat = FormatEui48 | FormatEui64

  predicate Accepts(format: MacAddressFormat, mac: MacAddress) {
    format.FormatEui48? == mac.Eui48?
  }

  type Prefix4 = p: nat | p <= 32
  type Prefix6 = p: nat | p <= 128
  datatype Ipv4Net = Ipv4Net(addr: u32, prefix: Prefix4)
  datatype Ipv6Net = Ipv6Net(addr: u128, prefix: Prefix6)

  /** Zero the low `hostBits` bits of `addr`. */
  function ClearHostBits(addr: nat, hostBits: nat): (r: nat)
    ensures r <= addr
  {
    if hostBits == 0 then addr else 2 * ClearHostBits(addr / 2, hostBits - 1)
  }

  function Trunc4(net: Ipv4Net): Ipv4Net {
    net.(addr := ClearHostBits(net.addr, 32 - net.prefix))
  }

  function Trunc6(net: Ipv6Net): Ipv6Net {
    net.(addr := ClearHostBits(net.addr, 128 - net.prefix))
  }

  function Pow2(n: nat): (r: nat)
    ensures r > 0
  {
    if n == 0 then 1 else 2 * Pow2(n - 1)
  }

  lemma SmallerFactor(p: nat, x: int, y: int)
    requires p > 0 && p * x < p * y
    ensures x < y
  {
    assert p * (y - x) == p * y - p * x;
  }

  lemma Quotient(a: nat, p: nat, q: nat)
    requires p > 0 && p * q <= a < p * (q + 1)
    ensures a / p == q
  {
    var r := a / p;
    assert p * r <= a < p * (r + 1);
    SmallerFactor(p, r, q + 1);
    SmallerFactor(p, q, r + 1);
  }

  lemma HalfQuotient(a: nat, p: nat)
    requires p > 0
    ensures a / 2 / p == a / (2 * p)
  {
    var q := a / (2 * p);
    assert 2 * p * q <= a < 2 * p * (q + 1);
    assert 2 * (p * q) <= a < 2 * (p * (q + 1));
    Quotient(a / 2, p, q);
  }

  /** Clearing host bits rounds down to a multiple of the network's size. */
  lemma {:induction false} ClearedIs(addr: nat, hostBits: nat)
    ensures ClearHostBits(addr, hostBits) == addr / Pow2(hostBits) * Pow2(hostBits)
  {
    if hostBits > 0 {
      var p := Pow2(hostBits - 1);
      ClearedIs(addr / 2, hostBits - 1);
      HalfQuotient(addr, p);
      assert 2 * (addr / (2 * p) * p) == addr / (2 * p) * (2 * p);
    }
  }

  lemma MultiplesEqual(a: nat, b: nat, p: nat)
    requires p > 0
    ensures a / p * p == b / p * p <==> a / p == b / p
  {
    Quotient(a / p * p, p, a / p);
    Quotient(b / p * p, p, b / p);
  }

  /** Two subnets are one network exactly when prefix and prefix bits agree. */
  lemma SameNetwork4(a: Ipv4Net, b: Ipv4Net)
    ensures Trunc4(a) == Trunc4(b) <==>
              a.prefix == b.prefix && a.addr / Pow2(32 - a.prefix) == b.addr / Pow2(32 - b.prefix)
  {
    ClearedIs(a.addr, 32 - a.prefix);
    ClearedIs(b.addr, 32 - b.prefix);
    hide ClearHostBits, Pow2;
    MultiplesEqual(a.addr, b.addr, Pow2(32 - a.prefix));
  }

  lemma SameNetwork6(a: Ipv6Net, b: Ipv6Net)
    ensures Trunc6(a) == Trunc6(b) <==>
              a.prefix == b.prefix && a.addr / Pow2(128 - a.prefix) == b.addr / Pow2(128 - b.prefix)
  {
    ClearedIs(a.addr, 128 - a.prefix);
    ClearedIs(b.addr, 128 - b.prefix);
    hide ClearHostBits, Pow2;
    MultiplesEqual(a.addr, b.addr, Pow2(128 - a.prefix));
  }

  /** The network keeps its prefix bits and has no others. */
  lemma NetworkKeepsPrefix(net4: Ipv4Net, net6: Ipv6Net)
    ensures var p := Pow2(32 - net4.prefix); Trunc4(net4).addr == net4.addr - net4.addr % p
    ensures var p := Pow2(128 - net6.prefix); Trunc6(net6).addr == net6.addr - net6.addr % p
    ensures Trunc4(net4).prefix == net4.prefix && Trunc6(net6).prefix == net6.prefix
  {
    ClearedIs(net4.addr, 32 - net4.prefix);
    ClearedIs(net6.addr, 128 - net6.prefix);
    hide ClearHostBits, Pow2;
    RoundedDown(net4.addr, Pow2(32 - net4.prefix));
    RoundedDown(net6.addr, Pow2(128 - net6.prefix));
  }

  lemma RoundedDown(a: nat, p: nat)
    requires p > 0
    ensures a / p * p == a - a % p
  {
  }

  lemma {:induction false} ClearedTwice(addr: nat, hostBits: nat)
    ensures ClearHostBits(ClearHostBits(addr, hostBits), hostBits) == ClearHostBits(addr, hostBits)
  {
    if hostBits > 0 {
      ClearedTwice(addr / 2, hostBits - 1);
      assert ClearHostBits(addr, hostBits) / 2 == ClearHostBits(addr / 2, hostBits - 1);
    }
  }

  lemma TruncTwice4(net: Ipv4Net)
    ensures Trunc4(Trunc4(net)) == Trunc4(net)
  {
    ClearedTwice(net.addr, 32 - net.prefix);
  }

  lemma TruncTwice6(net: Ipv6Net)
    ensures Trunc6(Trunc6(net)) == Trunc6(net)
  {
    ClearedTwice(net.addr, 128 - net.prefix);
  }

  // --- Metrics --------------------------------------------------------------

  datatype LinkMetrics = LinkMetrics(
    maxRx: u64, maxTx: u64, currentRx: u64, currentTx: u64, latency: Duration,
    resources: Option<u8>, rlqRx: Option<u8>, rlqTx: Option<u8>, mtu: Option<u16>)

  const DEFAULT_METRICS := LinkMetrics(0, 0, 0, 0, 0, None, None, None, None)

  /** Every optional field supplied by `m` was declared by `initial`. */
  predicate SupportedBy(m: LinkMetrics, initial: LinkMetrics) {
    && (m.resources.None? || initial.resources.Some?)
    && (m.rlqRx.None? || initial.rlqRx.Some?)
    && (m.rlqTx.None? || initial.rlqTx.Some?)
    && (m.mtu.None? || initial.mtu.Some?)
  }

  datatype LinkCharacteristics = LinkCharacteristics(
    currentRx: Option<u64>, currentTx: Option<u64>, latency: Option<Duration>)

  // --- Data items and messages ----------------------------------------------

  datatype DataItem =
    | Status(code: u8, text: Text)
    | Ipv4ConnectionPoint(useTls: bool, addr4: u32, port: Option<u16>)
    | Ipv6ConnectionPoint(useTls: bool, addr6: u128, port: Option<u16>)
    | PeerType(smi: bool, description: Text)
    | HeartbeatInterval(interval: Duration)
    | ExtensionsSupported(ids: seq<u16>)
    | Mac(mac: MacAddress)
    | Ipv4Address(add: bool, addr4: u32)
    | Ipv6Address(add: bool, addr6: u128)
    | Ipv4AttachedSubnet(add: bool, net4: Ipv4Net)
    | Ipv6AttachedSubnet(add: bool, net6: Ipv6Net)
    | MaxDataRateReceive(bps: u64)
    | MaxDataRateTransmit(bps: u64)
    | CurrentDataRateReceive(bps: u64)
    | CurrentDataRateTransmit(bps: u64)
    | Latency(latency: Duration)
    | Resources(percent: u8)
    | RelativeLinkQualityReceive(percent: u8)
    | RelativeLinkQualityTransmit(percent: u8)
    | Mtu(mtu: u16)
    | Unknown(typeId: u16, value: seq<u8>)

  datatype Message = Message(messageType: u16, items: seq<DataItem>)

  const STATUS: u16 := 1
  const PEER_TYPE: u16 := 4
  const HEARTBEAT_INTERVAL: u16 := 5
  const EXTENSIONS_SUPPORTED: u16 := 6
  const MAC_ADDRESS: u16 := 7
  const IPV4_ADDRESS: u16 := 8
  const IPV6_ADDRESS: u16 := 9
  const MAXIMUM_DATA_RATE_RECEIVE: u16 := 12
  const MAXIMUM_DATA_RATE_TRANSMIT: u16 := 13
  const CURRENT_DATA_RATE_RECEIVE: u16 := 14
  const CURRENT_DATA_RATE_TRANSMIT: u16 := 15
  const LATENCY: u16 := 16

  function TypeId(item: DataItem): u16 {
    match item
    case Status(_, _) => 1
    case Ipv4ConnectionPoint(_, _, _) => 2
    case Ipv6ConnectionPoint(_, _, _) => 3
    case PeerType(_, _) => 4
    case HeartbeatInterval(_) => 5
    case ExtensionsSupported(_) => 6
    case Mac(_) => 7
    case Ipv4Address(_, _) => 8
    case Ipv6Address(_, _) => 9
    case Ipv4AttachedSubnet(_, _) => 10
    case Ipv6AttachedSubnet(_, _) => 11
    case MaxDataRateReceive(_) => 12
    case MaxDataRateTransmit(_) => 13
    case CurrentDataRateReceive(_) => 14
    case CurrentDataRateTransmit(_) => 15
    case Latency(_) => 16
    case Resources(_) => 17
    case RelativeLinkQualityReceive(_) => 18
    case RelativeLinkQualityTransmit(_) => 19
    case Mtu(_) => 20
    case Unknown(t, _) => t
  }

  /** Values that fit the wire format (`DataItem::encode` succeeds). */
  predicate Encodable(item: DataItem) {
    match item
    case Status(_, text) => 1 + |text| < 0x1_0000
    case PeerType(_, description) => 1 + |description| < 0x1_0000
    case HeartbeatInterval(d) =>
      MIN_HEARTBEAT_INTERVAL_MS <= d / NANOS_PER_MILLI < 0x1_0000_0000
    case ExtensionsSupported(ids) => 2 * |ids| < 0x1_0000
    case Latency(d) => d / NANOS_PER_MICRO < 0x1_0000_0000_0000_0000
    case Resources(p) => p <= 100
    case RelativeLinkQualityReceive(p) => p <= 100
    case RelativeLinkQualityTransmit(p) => p <= 100
    case Unknown(_, value) => |value| < 0x1_0000
    case _ => true
  }

  /** Octets of the value of an item on the wire, its 4-octet header excluded. */
  function ValueLength(item: DataItem): nat {
    match item
    case Status(_, text) => 1 + |text|
    case Ipv4ConnectionPoint(_, _, port) => if port.Some? then 7 else 5
    case Ipv6ConnectionPoint(_, _, port) => if port.Some? then 19 else 17
    case PeerType(_, description) => 1 + |description|
    case HeartbeatInterval(_) => 4
    case ExtensionsSupported(ids) => 2 * |ids|
    case Mac(mac) => if mac.Eui48? then 6 else 8
    case Ipv4Address(_, _) => 5
    case Ipv6Address(_, _) => 17
    case Ipv4AttachedSubnet(_, _) => 6
    case Ipv6AttachedSubnet(_, _) => 18
    case Resources(_) => 1
    case RelativeLinkQualityReceive(_) => 1
    case RelativeLinkQualityTransmit(_) => 1
    case Mtu(_) => 2
    case Unknown(_, value) => |value|
    case _ => 8
  }

  function BodyLength(items: seq<DataItem>): nat {
    if |items| == 0 then 0 else BodyLength(items[..|items| - 1]) + 4 + ValueLength(items[|items| - 1])
  }

  /** `Message::encode` succeeds: every item fits, and so does the whole body. */
  predicate MessageEncodable(msg: Message) {
    (forall i :: 0 <= i < |msg.items| ==> Encodable(msg.items[i])) && BodyLength(msg.items) < 0x1_0000
  }

  /** The item with the host bits of a subnet cleared, as it is written. */
  function CanonicalItem(item: DataItem): DataItem {
    match item
    case Ipv4AttachedSubnet(add, net) => Ipv4AttachedSubnet(add, Trunc4(net))
    case Ipv6AttachedSubnet(add, net) => Ipv6AttachedSubnet(add, Trunc6(net))
    case _ => item
  }

  // --- Message types and status codes ---------------------------------------

  const SESSION_INITIALIZATION: u16 := 1
  const SESSION_INITIALIZATION_RESPONSE: u16 := 2
  const SESSION_UPDATE: u16 := 3
  const SESSION_UPDATE_RESPONSE: u16 := 4
  const SESSION_TERMINATION: u16 := 5
  const SESSION_TERMINATION_RESPONSE: u16 := 6
  const DESTINATION_UP: u16 := 7
  const DESTINATION_UP_RESPONSE: u16 := 8
  const DESTINATION_ANNOUNCE: u16 := 9
  const DESTINATION_ANNOUNCE_RESPONSE: u16 := 10
  const DESTINATION_DOWN: u16 := 11
  const DESTINATION_DOWN_RESPONSE: u16 := 12
  const DESTINATION_UPDATE: u16 := 13
  const LINK_CHARACTERISTICS_REQUEST: u16 := 14
  const LINK_CHARACTERISTICS_RESPONSE: u16 := 15
  const HEARTBEAT: u16 := 16

  const SUCCESS: u8 := 0
  const REQUEST_DENIED: u8 := 2
  const UNKNOWN_MESSAGE: u8 := 128
  const UNEXPECTED_MESSAGE: u8 := 129
  const INVALID_DATA: u8 := 130
  const INVALID_DESTINATION: u8 := 131
  const TIMED_OUT: u8 := 132
  const SHUTTING_DOWN: u8 := 255

  predicate TerminatesSession(code: u8) { code >= 128 }
}
