/** The wire format of data items, messages and signals
    (crates/dlep-core/src/codec.rs; sections 11 and 13 of RFC 8175).
 */
module Codec {
  import opened Types
  import opened Wire

  datatype Field =
    | Flags | HeartbeatMs | LatencyUs | ResourcesField | RlqReceive | RlqTransmit | Prefix4Field | Prefix6Field
    | ItemLength | SignalLength | MessageLength

  datatype CodecError =
    | Truncated(needed: nat, have: nat)
    | LengthMismatch(declared: nat, remaining: nat)
    | InvalidItemLength(kind: u16, got: nat)
    | OutOfRange(field: Field, value: nat)
    | InvalidUtf8
    | MissingSignalPrefix

  datatype Result<+T> = Ok(value: T) | Err(error: CodecError)

  const MAX_U64: nat := 0xFFFF_FFFF_FFFF_FFFF

  // --- Encoding one item ----------------------------------------------------

  /** Why an item cannot be written, if it cannot. */
  function EncodeError(item: DataItem): (r: Option<CodecError>)
    ensures r.None? <==> Encodable(item)
  {
    match item
    case Status(_, text) => TooLong(1 + |text|)
    case PeerType(_, description) => TooLong(1 + |description|)
    case ExtensionsSupported(ids) => TooLong(2 * |ids|)
    case Unknown(_, value) => TooLong(|value|)
    case HeartbeatInterval(d) =>
      var ms := d / NANOS_PER_MILLI;
      if ms < MIN_HEARTBEAT_INTERVAL_MS || ms >= 0x1_0000_0000
      then Some(OutOfRange(HeartbeatMs, if ms > MAX_U64 then MAX_U64 else ms))
      else None
    case Latency(d) => if d / NANOS_PER_MICRO > MAX_U64 then Some(OutOfRange(LatencyUs, MAX_U64)) else None
    case Resources(p) => if p > 100 then Some(OutOfRange(ResourcesField, p)) else None
    case RelativeLinkQualityReceive(p) => if p > 100 then Some(OutOfRange(RlqReceive, p)) else None
    case RelativeLinkQualityTransmit(p) => if p > 100 then Some(OutOfRange(RlqTransmit, p)) else None
    case _ => None
  }

  function TooLong(length: nat): Option<CodecError> {
    if length < 0x1_0000 then None else Some(OutOfRange(ItemLength, length))
  }

  function Flag(b: bool): u8 { if b then 1 else 0 }

  function PutIds(ids: seq<u16>): (s: Bytes)
    ensures |s| == 2 * |ids|
  {
    if |ids| == 0 then [] else PutIds(ids[..|ids| - 1]) + Put(ids[|ids| - 1], 2)
  }

  function PutPort(port: Option<u16>): Bytes {
    if port.Some? then Put(port.value, 2) else []
  }

  /** The value octets of an item. */
  function Value(item: DataItem): (s: Bytes)
    ensures |s| == ValueLength(item)
  {
    match item
    case Status(code, text) => [code] + text
    case Ipv4ConnectionPoint(tls, addr, port) => [Flag(tls)] + Put(addr, 4) + PutPort(port)
    case Ipv6ConnectionPoint(tls, addr, port) => [Flag(tls)] + Put(addr, 16) + PutPort(port)
    case PeerType(smi, description) => [Flag(smi)] + description
    case HeartbeatInterval(d) => Put(d / NANOS_PER_MILLI, 4)
    case ExtensionsSupported(ids) => PutIds(ids)
    case Mac(mac) => if mac.Eui48? then Put(mac.octets48, 6) else Put(mac.octets64, 8)
    case Ipv4Address(add, addr) => [Flag(add)] + Put(addr, 4)
    case Ipv6Address(add, addr) => [Flag(add)] + Put(addr, 16)
    case Ipv4AttachedSubnet(add, net) => [Flag(add)] + Put(Trunc4(net).addr, 4) + [net.prefix]
    case Ipv6AttachedSubnet(add, net) => [Flag(add)] + Put(Trunc6(net).addr, 16) + [net.prefix]
    case MaxDataRateReceive(bps) => Put(bps, 8)
    case MaxDataRateTransmit(bps) => Put(bps, 8)
    case CurrentDataRateReceive(bps) => Put(bps, 8)
    case CurrentDataRateTransmit(bps) => Put(bps, 8)
    case Latency(d) => Put(d / NANOS_PER_MICRO, 8)
    case Resources(p) => [p]
    case RelativeLinkQualityReceive(p) => [p]
    case RelativeLinkQualityTransmit(p) => [p]
    case Mtu(mtu) => Put(mtu, 2)
    case Unknown(_, value) => value
  }

  /** Type, length, value. */
  function Tlv(item: DataItem): (s: Bytes)
    ensures |s| == 4 + ValueLength(item)
  {
    Put(TypeId(item), 2) + Put(ValueLength(item), 2) + Value(item)
  }

  function Body(items: seq<DataItem>): (s: Bytes)
    ensures |s| == BodyLength(items)
  {
    if |items| == 0 then [] else Body(items[..|items| - 1]) + Tlv(items[|items| - 1])
  }

  // --- What is on the wire --------------------------------------------------

  /** The number of each item in section 13 of RFC 8175. */
  function Registered(item: DataItem): nat {
    match item
    case Status(_, _) => 1
    case Ipv4ConnectionPoint(_, _, _) => 2
    case Ipv6ConnectionPoint(_, _, _) => 3
    case PeerType(_, _) => 4
    case HeartbeatInterval(_) => 5
    case ExtensionsSupported(_) => 6
    case Mac(_) => 7
    case Ipv4Address(_, _) => 8
    case Ipv6Address(_, _) => 9
    case Ipv4AttachedSubnet(_, _) => 10
    case Ipv6AttachedSubnet(_, _) => 11
    case MaxDataRateReceive(_) => 12
    case MaxDataRateTransmit(_) => 13
    case CurrentDataRateReceive(_) => 14
    case CurrentDataRateTransmit(_) => 15
    case Latency(_) => 16
    case Resources(_) => 17
    case RelativeLinkQualityReceive(_) => 18
    case RelativeLinkQualityTransmit(_) => 19
    case Mtu(_) => 20
    case Unknown(t, _) => t
  }

  /** Two octets of type, two of length, most significant first, then the value. */
  lemma HeaderOctets(item: DataItem)
    requires Encodable(item)
    ensures var s := Tlv(item);
            && s[0] as nat * 256 + s[1] as nat == Registered(item)
            && s[2] as nat * 256 + s[3] as nat == |s| - 4
            && s[4..] == Value(item)
  {
    hide Value, Get, Put;
    var s := Tlv(item);
    assert TypeId(item) as nat == Registered(item);
    assert ValueLength(item) < 0x1_0000;
    hide TypeId, Registered, ValueLength, Encodable;
    Put16(TypeId(item));
    Put16(ValueLength(item));
    TwoOctets(Put(TypeId(item), 2));
    TwoOctets(Put(ValueLength(item), 2));
    assert s[0..2] == Put(TypeId(item), 2) && s[2..4] == Put(ValueLength(item), 2);
  }

  /** A flag octet is 1 for an addition, TLS or a secured medium, 0 otherwise. */
  lemma FlagOctet(item: DataItem)
    ensures item.Ipv4Address? || item.Ipv6Address? || item.Ipv4AttachedSubnet? || item.Ipv6AttachedSubnet? ==>
              Value(item)[0] == if item.add then 1 else 0
    ensures item.Ipv4ConnectionPoint? || item.Ipv6ConnectionPoint? ==> Value(item)[0] == if item.useTls then 1 else 0
    ensures item.PeerType? ==> Value(item)[0] == if item.smi then 1 else 0
    ensures item.Status? ==> Value(item)[0] == item.code && Value(item)[1..] == item.text
  {
  }

  /** The number an item carries, in the units of the wire: milliseconds,
      microseconds, bits per second, percent, octets. */
  function Quantity(item: DataItem): Option<nat> {
    match item
    case HeartbeatInterval(d) => Some(d / 1_000_000)
    case Latency(d) => Some(d / 1_000)
    case MaxDataRateReceive(bps) => Some(bps)
    case MaxDataRateTransmit(bps) => Some(bps)
    case CurrentDataRateReceive(bps) => Some(bps)
    case CurrentDataRateTransmit(bps) => Some(bps)
    case Resources(p) => Some(p)
    case RelativeLinkQualityReceive(p) => Some(p)
    case RelativeLinkQualityTransmit(p) => Some(p)
    case Mtu(n) => Some(n)
    case Mac(mac) => Some(if mac.Eui48? then mac.octets48 else mac.octets64)
    case _ => None
  }

  /** Read as one big-endian number, the value is that quantity. */
  lemma ValueOctets(item: DataItem)
    requires Encodable(item) && Quantity(item).Some?
    ensures Get(Value(item)) == Quantity(item).value
  {
    Widths();
    assert [Quantity(item).value][..0] == [];
    hide Get, Put;
    match item
    case HeartbeatInterval(d) => GetPut(d / NANOS_PER_MILLI, 4);
    case Latency(d) => GetPut(d / NANOS_PER_MICRO, 8);
    case MaxDataRateReceive(bps) => GetPut(bps, 8);
    case MaxDataRateTransmit(bps) => GetPut(bps, 8);
    case CurrentDataRateReceive(bps) => GetPut(bps, 8);
    case CurrentDataRateTransmit(bps) => GetPut(bps, 8);
    case Resources(p) => OneOctet(p);
    case RelativeLinkQualityReceive(p) => OneOctet(p);
    case RelativeLinkQualityTransmit(p) => OneOctet(p);
    case Mtu(n) => GetPut(n, 2);
    case Mac(mac) => if mac.Eui48? { GetPut(mac.octets48, 6); } else { GetPut(mac.octets64, 8); }
    case _ =>
  }

  lemma OneOctet(p: u8)
    ensures Get([p]) == p
  {
    assert [p][..0] == [];
  }

  /** An address is its octets, most significant first; a subnet is its network
      address and its prefix length. */
  lemma AddressOctets(item: DataItem)
    ensures item.Ipv4Address? ==> Get(Value(item)[1..]) == item.addr4
    ensures item.Ipv6Address? ==> Get(Value(item)[1..]) == item.addr6
    ensures item.Ipv4AttachedSubnet? ==>
              Get(Value(item)[1..5]) == item.net4.addr / Pow2(32 - item.net4.prefix) * Pow2(32 - item.net4.prefix)
              && Value(item)[5] == item.net4.prefix
    ensures item.Ipv6AttachedSubnet? ==>
              Get(Value(item)[1..17]) == item.net6.addr / Pow2(128 - item.net6.prefix) * Pow2(128 - item.net6.prefix)
              && Value(item)[17] == item.net6.prefix
  {
    Widths();
    hide Get, Put, ClearHostBits, Pow2;
    match item
    case Ipv4Address(add, a) =>
      GetPut(a, 4);
      assert Value(item)[1..] == Put(a, 4);
    case Ipv6Address(add, a) =>
      GetPut(a, 16);
      assert Value(item)[1..] == Put(a, 16);
    case Ipv4AttachedSubnet(add, net) =>
      GetPut(Trunc4(net).addr, 4);
      ClearedIs(net.addr, 32 - net.prefix);
      assert Value(item)[1..5] == Put(Trunc4(net).addr, 4);
    case Ipv6AttachedSubnet(add, net) =>
      GetPut(Trunc6(net).addr, 16);
      ClearedIs(net.addr, 128 - net.prefix);
      assert Value(item)[1..17] == Put(Trunc6(net).addr, 16);
    case _ =>
  }

  // --- Decoding one item ----------------------------------------------------

  function GetIds(v: Bytes): (ids: seq<u16>)
    requires |v| % 2 == 0
    ensures |ids| == |v| / 2
  {
    if |v| == 0 then [] else GetIds(v[..|v| - 2]) + [GetU16(v[|v| - 2..])]
  }

  function BadFlags(b: u8): CodecError { OutOfRange(Flags, b) }

  function DecodePoint(kind: u16, v: Bytes): Result<DataItem>
    requires kind == 2 || kind == 3
  {
    var n := if kind == 2 then 5 else 17;
    if |v| != n && |v| != n + 2 then Err(InvalidItemLength(kind, |v|))
    else if v[0] > 1 then Err(BadFlags(v[0]))
    else
      var port := if |v| == n then None else Some(GetU16(v[n..]));
      if kind == 2 then Ok(Ipv4ConnectionPoint(v[0] == 1, GetU32(v[1..5]), port))
      else Ok(Ipv6ConnectionPoint(v[0] == 1, GetU128(v[1..17]), port))
  }

  function DecodeAddress(kind: u16, v: Bytes): Result<DataItem>
    requires 8 <= kind <= 11
  {
    var n := if kind == 8 then 5 else if kind == 9 then 17 else if kind == 10 then 6 else 18;
    if |v| != n then Err(InvalidItemLength(kind, |v|))
    else if v[0] > 1 then Err(BadFlags(v[0]))
    else if kind == 8 then Ok(Ipv4Address(v[0] == 1, GetU32(v[1..])))
    else if kind == 9 then Ok(Ipv6Address(v[0] == 1, GetU128(v[1..])))
    else if kind == 10 then
      if v[5] > 32 then Err(OutOfRange(Prefix4Field, v[5]))
      else Ok(Ipv4AttachedSubnet(v[0] == 1, Trunc4(Ipv4Net(GetU32(v[1..5]), v[5]))))
    else if v[17] > 128 then Err(OutOfRange(Prefix6Field, v[17]))
    else Ok(Ipv6AttachedSubnet(v[0] == 1, Trunc6(Ipv6Net(GetU128(v[1..17]), v[17]))))
  }

  function DecodeMetric(kind: u16, v: Bytes): Result<DataItem>
    requires 12 <= kind <= 20
  {
    var n := if kind <= 16 then 8 else if kind <= 19 then 1 else 2;
    if |v| != n then Err(InvalidItemLength(kind, |v|))
    else if kind <= 16 then
      var x := GetU64(v);
      if kind == 12 then Ok(MaxDataRateReceive(x))
      else if kind == 13 then Ok(MaxDataRateTransmit(x))
      else if kind == 14 then Ok(CurrentDataRateReceive(x))
      else if kind == 15 then Ok(CurrentDataRateTransmit(x))
      else Ok(Latency(x * NANOS_PER_MICRO))
    else if kind <= 19 then
      if v[0] > 100 then
        Err(OutOfRange(if kind == 17 then ResourcesField else if kind == 18 then RlqReceive else RlqTransmit, v[0]))
      else if kind == 17 then Ok(Resources(v[0]))
      else if kind == 18 then Ok(RelativeLinkQualityReceive(v[0]))
      else Ok(RelativeLinkQualityTransmit(v[0]))
    else Ok(Mtu(GetU16(v)))
  }

  /** `DataItem::decode` on a type and a value. */
  function DecodeItem(kind: u16, v: Bytes): Result<DataItem> {
    if kind == 1 then
      if |v| < 1 then Err(InvalidItemLength(kind, |v|))
      else if !ValidUtf8(v[1..]) then Err(InvalidUtf8)
      else Ok(Status(v[0], v[1..]))
    else if kind == 2 || kind == 3 then DecodePoint(kind, v)
    else if kind == 4 then
      if |v| < 1 then Err(InvalidItemLength(kind, |v|))
      else if v[0] > 1 then Err(BadFlags(v[0]))
      else if !ValidUtf8(v[1..]) then Err(InvalidUtf8)
      else Ok(PeerType(v[0] == 1, v[1..]))
    else if kind == 5 then
      if |v| != 4 then Err(InvalidItemLength(kind, |v|))
      else if GetU32(v) < MIN_HEARTBEAT_INTERVAL_MS then Err(OutOfRange(HeartbeatMs, GetU32(v)))
      else Ok(HeartbeatInterval(GetU32(v) * NANOS_PER_MILLI))
    else if kind == 6 then
      if |v| % 2 != 0 then Err(InvalidItemLength(kind, |v|)) else Ok(ExtensionsSupported(GetIds(v)))
    else if kind == 7 then
      if |v| == 6 then Ok(Mac(Eui48(GetU48(v))))
      else if |v| == 8 then Ok(Mac(Eui64(GetU64(v))))
      else Err(InvalidItemLength(kind, |v|))
    else if 8 <= kind <= 11 then DecodeAddress(kind, v)
    else if 12 <= kind <= 20 then DecodeMetric(kind, v)
    else Ok(Unknown(kind, v))
  }

  // --- Round trips of one item ----------------------------------------------

  /** The item as the wire carries it: host bits cleared, durations in whole
      milliseconds or microseconds. */
  function Normal(item: DataItem): DataItem {
    match item
    case Ipv4AttachedSubnet(add, net) => Ipv4AttachedSubnet(add, Trunc4(net))
    case Ipv6AttachedSubnet(add, net) => Ipv6AttachedSubnet(add, Trunc6(net))
    case HeartbeatInterval(d) => HeartbeatInterval(d / NANOS_PER_MILLI * NANOS_PER_MILLI)
    case Latency(d) => Latency(d / NANOS_PER_MICRO * NANOS_PER_MICRO)
    case _ => item
  }

  /** Not an opaque item under a type number the codec knows. */
  predicate Typed(item: DataItem) { item.Unknown? ==> !(1 <= item.typeId <= 20) }

  predicate Canonical(item: DataItem) { Encodable(item) && Typed(item) && Normal(item) == item }

  lemma {:induction false} IdsBack(ids: seq<u16>)
    ensures GetIds(PutIds(ids)) == ids
  {
    hide GetU16, GetIds, PutIds, Put;
    if |ids| == 0 {
      NoIds();
    } else {
      var front, last := ids[..|ids| - 1], ids[|ids| - 1];
      assert front + [last] == ids;
      IdsBack(front);
      PutOneMore(front, last);
      GetOneMore(PutIds(front), Put(last, 2));
      Put16(last);
    }
  }

  lemma PutOneMore(ids: seq<u16>, id: u16)
    ensures PutIds(ids + [id]) == PutIds(ids) + Put(id, 2)
  {
    hide Put;
    assert (ids + [id])[..|ids|] == ids;
  }

  lemma GetOneMore(v: Bytes, w: Bytes)
    requires |v| % 2 == 0 && |w| == 2
    ensures GetIds(v + w) == GetIds(v) + [GetU16(w)]
  {
    hide GetU16;
    assert (v + w)[..|v|] == v && (v + w)[|v|..] == w;
  }

  /** By the number of identifiers, so that no remainder gets in the way. */
  lemma {:induction false} IdsForth(v: Bytes, n: nat)
    requires |v| == 2 * n
    ensures PutIds(GetIds(v)) == v
  {
    hide GetU16, GetIds, PutIds, Put;
    if n == 0 {
      assert v == [];
      NoIds();
    } else {
      var front, last := v[..2 * (n - 1)], v[2 * (n - 1)..];
      assert v == front + last;
      IdsForth(front, n - 1);
      GetOneMore(front, last);
      PutOneMore(GetIds(front), GetU16(last));
      IdBack(last);
    }
  }

  lemma NoIds()
    ensures PutIds([]) == [] && GetIds([]) == []
  {
  }

  lemma IdBack(w: Bytes)
    requires |w| == 2
    ensures Put(GetU16(w), 2) == w
  {
    PutGet(w);
  }

  lemma PointDecodesBack(item: DataItem)
    requires item.Ipv4ConnectionPoint? || item.Ipv6ConnectionPoint?
    ensures DecodePoint(TypeId(item), Value(item)) == Ok(item)
  {
    var v := Value(item);
    hide Put, Get;
    if item.Ipv4ConnectionPoint? {
      Put32(item.addr4);
      assert v[1..5] == Put(item.addr4, 4) && v[5..] == PutPort(item.port);
    } else {
      Put128(item.addr6);
      assert v[1..17] == Put(item.addr6, 16) && v[17..] == PutPort(item.port);
    }
    if item.port.Some? { Put16(item.port.value); }
  }

  lemma AddressDecodesBack(item: DataItem)
    requires item.Ipv4Address? || item.Ipv6Address? || item.Ipv4AttachedSubnet? || item.Ipv6AttachedSubnet?
    ensures DecodeAddress(TypeId(item), Value(item)) == Ok(Normal(item))
  {
    var v := Value(item);
    hide Put, Get, ClearHostBits;
    match item
    case Ipv4Address(_, addr) =>
      Put32(addr);
      assert v[1..] == Put(addr, 4);
    case Ipv6Address(_, addr) =>
      Put128(addr);
      assert v[1..] == Put(addr, 16);
    case Ipv4AttachedSubnet(_, net) =>
      Put32(Trunc4(net).addr);
      TruncTwice4(net);
      assert v[1..5] == Put(Trunc4(net).addr, 4);
    case Ipv6AttachedSubnet(_, net) =>
      Put128(Trunc6(net).addr);
      TruncTwice6(net);
      assert v[1..17] == Put(Trunc6(net).addr, 16);
  }

  lemma MetricDecodesBack(item: DataItem)
    requires 12 <= TypeId(item) <= 20 && !item.Unknown? && Encodable(item)
    ensures DecodeMetric(TypeId(item), Value(item)) == Ok(Normal(item))
  {
    hide Put, Get;
    match item
    case MaxDataRateReceive(bps) => Put64(bps);
    case MaxDataRateTransmit(bps) => Put64(bps);
    case CurrentDataRateReceive(bps) => Put64(bps);
    case CurrentDataRateTransmit(bps) => Put64(bps);
    case Latency(d) => Put64(d / NANOS_PER_MICRO);
    case Mtu(mtu) => Put16(mtu);
    case Resources(_) =>
    case RelativeLinkQualityReceive(_) =>
    case RelativeLinkQualityTransmit(_) =>
  }

  /** Decoding what was written gives the item in wire form. */
  lemma ItemDecodesBack(item: DataItem)
    requires Encodable(item) && Typed(item)
    ensures DecodeItem(TypeId(item), Value(item)) == Ok(Normal(item))
  {
    var v := Value(item);
    hide Put, Get, ClearHostBits, DecodeMetric, DecodeAddress, DecodePoint, ValidUtf8, GetIds, PutIds;
    if 12 <= TypeId(item) <= 20 { MetricDecodesBack(item); }
    else if 8 <= TypeId(item) <= 11 { AddressDecodesBack(item); }
    else if 2 <= TypeId(item) <= 3 { PointDecodesBack(item); }
    else {
      match item
      case Status(_, text) => assert v[1..] == text;
      case PeerType(_, text) => assert v[1..] == text;
      case HeartbeatInterval(d) => Put32(d / NANOS_PER_MILLI);
      case ExtensionsSupported(ids) => IdsBack(ids);
      case Mac(mac) => if mac.Eui48? { Put48(mac.octets48); } else { Put64(mac.octets64); }
      case Unknown(_, _) =>
    }
  }

  /** `w` is `v` with the host bits of an attached subnet cleared, and nothing else. */
  ghost predicate Cleared(kind: u16, v: Bytes, w: Bytes) {
    && |w| == |v|
    && (if kind == 10 && |v| == 6 && v[5] <= 32 then
          && w[0] == v[0] && w[5] == v[5]
          && Get(w[1..5]) == Get(v[1..5]) / Pow2(32 - v[5]) * Pow2(32 - v[5])
        else if kind == 11 && |v| == 18 && v[17] <= 128 then
          && w[0] == v[0] && w[17] == v[17]
          && Get(w[1..17]) == Get(v[1..17]) / Pow2(128 - v[17]) * Pow2(128 - v[17])
        else w == v)
  }

  lemma PointReencodes(kind: u16, v: Bytes)
    requires (kind == 2 || kind == 3) && DecodePoint(kind, v).Ok?
    ensures Value(DecodePoint(kind, v).value) == v
  {
    var item := DecodePoint(kind, v).value;
    var n := if kind == 2 then 5 else 17;
    PutGet(v[1..n]);
    if item.port.Some? { PutGet(v[n..]); }
    hide Put, Get;
    assert v[..1] == [Flag(item.useTls)];
    assert v == v[..1] + v[1..n] + v[n..];
  }

  lemma PlainAddressReencodes(kind: u16, v: Bytes)
    requires 8 <= kind <= 9 && DecodeAddress(kind, v).Ok?
    ensures Value(DecodeAddress(kind, v).value) == v
  {
    var item := DecodeAddress(kind, v).value;
    PutGet(v[1..]);
    hide Put, Get;
    assert v[..1] == [Flag(item.add)] && v == v[..1] + v[1..];
  }

  lemma Subnet4Reencodes(v: Bytes)
    requires DecodeAddress(10, v).Ok?
    ensures var item := DecodeAddress(10, v).value; Normal(item) == item && Cleared(10, v, Value(item))
  {
    hide Put, Get, ClearHostBits, Pow2;
    var item := DecodeAddress(10, v).value;
    TruncTwice4(Ipv4Net(GetU32(v[1..5]), v[5]));
    ClearedIs(GetU32(v[1..5]), 32 - v[5]);
    Put32(item.net4.addr);
    assert Value(item)[1..5] == Put(item.net4.addr, 4);
  }

  lemma Subnet6Reencodes(v: Bytes)
    requires DecodeAddress(11, v).Ok?
    ensures var item := DecodeAddress(11, v).value; Normal(item) == item && Cleared(11, v, Value(item))
  {
    hide Put, Get, ClearHostBits, Pow2;
    var item := DecodeAddress(11, v).value;
    TruncTwice6(Ipv6Net(GetU128(v[1..17]), v[17]));
    ClearedIs(GetU128(v[1..17]), 128 - v[17]);
    Put128(item.net6.addr);
    assert Value(item)[1..17] == Put(item.net6.addr, 16);
  }

  lemma MetricReencodes(kind: u16, v: Bytes)
    requires 12 <= kind <= 20 && DecodeMetric(kind, v).Ok?
    ensures var item := DecodeMetric(kind, v).value;
            TypeId(item) == kind && Canonical(item) && Value(item) == v
  {
    PutGet(v);
    hide Put, Get;
  }

  lemma OtherReencodes(kind: u16, v: Bytes)
    requires kind == 1 || 4 <= kind <= 7 || kind == 0 || kind > 20
    requires |v| < 0x1_0000 && DecodeItem(kind, v).Ok?
    ensures var item := DecodeItem(kind, v).value;
            TypeId(item) == kind && Canonical(item) && Value(item) == v
  {
    hide Put, Get, ValidUtf8, GetIds, PutIds;
    if kind == 1 || kind == 4 {
      assert v[..1] == [v[0]] && v == v[..1] + v[1..];
    } else if kind == 6 {
      IdsForth(v, |v| / 2);
    } else {
      PutGet(v);
    }
  }

  lemma AddressFits(kind: u16, v: Bytes)
    requires 8 <= kind <= 11 && DecodeAddress(kind, v).Ok?
    ensures var item := DecodeAddress(kind, v).value; TypeId(item) == kind && Encodable(item) && Typed(item)
    ensures kind <= 9 ==> Normal(DecodeAddress(kind, v).value) == DecodeAddress(kind, v).value
  {
    hide ClearHostBits, Get;
  }

  lemma PointFits(kind: u16, v: Bytes)
    requires (kind == 2 || kind == 3) && DecodePoint(kind, v).Ok?
    ensures var item := DecodePoint(kind, v).value; TypeId(item) == kind && Canonical(item)
  {
    hide Get;
  }

  lemma Dispatch(kind: u16, v: Bytes)
    ensures 12 <= kind <= 20 ==> DecodeItem(kind, v) == DecodeMetric(kind, v)
    ensures 8 <= kind <= 11 ==> DecodeItem(kind, v) == DecodeAddress(kind, v)
    ensures kind == 2 || kind == 3 ==> DecodeItem(kind, v) == DecodePoint(kind, v)
  {
    hide DecodeMetric, DecodeAddress, DecodePoint;
  }

  lemma Uncleared(kind: u16, v: Bytes)
    requires kind != 10 && kind != 11
    ensures Cleared(kind, v, v)
  {
  }

  /** An accepted value is that of a canonical item, up to host bits. */
  lemma ItemReencodes(kind: u16, v: Bytes)
    requires |v| < 0x1_0000 && DecodeItem(kind, v).Ok?
    ensures var item := DecodeItem(kind, v).value;
            TypeId(item) == kind && Canonical(item) && Cleared(kind, v, Value(item))
  {
    Dispatch(kind, v);
    hide Value, DecodeItem, DecodeMetric, DecodeAddress, DecodePoint, Encodable, Typed, Normal, Cleared;
    if kind != 10 && kind != 11 { Uncleared(kind, v); }
    if 12 <= kind <= 20 { MetricReencodes(kind, v); }
    else if 8 <= kind <= 11 {
      AddressFits(kind, v);
      if kind <= 9 { PlainAddressReencodes(kind, v); }
      else if kind == 10 { Subnet4Reencodes(v); }
      else { Subnet6Reencodes(v); }
    }
    else if 2 <= kind <= 3 { PointReencodes(kind, v); PointFits(kind, v); }
    else { OtherReencodes(kind, v); }
  }

  // --- Bodies ---------------------------------------------------------------

  datatype Raw = Raw(kind: u16, value: Bytes, rest: Bytes)

  /** `RawDataItem::decode`: the first item of a body, and what follows it. */
  function SplitItem(b: Bytes): (r: Result<Raw>)
    ensures r.Ok? ==> |r.value.value| < 0x1_0000 && |b| == 4 + |r.value.value| + |r.value.rest|
  {
    if |b| < 4 then Err(Truncated(4, |b|))
    else
      var length := GetU16(b[2..4]);
      if |b| - 4 < length then Err(Truncated(length, |b| - 4))
      else Ok(Raw(GetU16(b[..2]), b[4..4 + length], b[4 + length..]))
  }

  function DecodeBody(b: Bytes): Result<seq<DataItem>>
    decreases |b|
  {
    if b == [] then Ok([]) else
      var raw := SplitItem(b);
      if raw.Err? then Err(raw.error) else
        var item := DecodeItem(raw.value.kind, raw.value.value);
        if item.Err? then Err(item.error) else
          var rest := DecodeBody(raw.value.rest);
          if rest.Err? then Err(rest.error) else Ok([item.value] + rest.value)
  }

  /** Type, length, value and rest, cut apart again. */
  lemma CutApart(kind: Bytes, length: Bytes, v: Bytes, rest: Bytes)
    requires |kind| == 2 && |length| == 2
    ensures var b := kind + length + v + rest;
            && b[..2] == kind && b[2..4] == length
            && b[4..4 + |v|] == v && b[4 + |v|..] == rest
  {
    var b := kind + length + v + rest;
    assert b[..2] == kind;
    forall i | 0 <= i < 2 ensures b[2..4][i] == length[i] { assert b[2 + i] == length[i]; }
    assert b[2..4] == length;
  }

  lemma SplitBack(item: DataItem, rest: Bytes)
    requires Encodable(item)
    ensures SplitItem(Tlv(item) + rest) == Ok(Raw(TypeId(item), Value(item), rest))
  {
    Put16(TypeId(item));
    assert ValueLength(item) < 0x1_0000;
    Put16(ValueLength(item));
    hide Put, Get, Value;
    CutApart(Put(TypeId(item), 2), Put(ValueLength(item), 2), Value(item), rest);
    assert Tlv(item) + rest == Put(TypeId(item), 2) + Put(ValueLength(item), 2) + Value(item) + rest;
  }

  function NormalAll(items: seq<DataItem>): (r: seq<DataItem>)
    ensures |r| == |items|
  {
    seq(|items|, i requires 0 <= i < |items| => Normal(items[i]))
  }

  ghost predicate AllTyped(items: seq<DataItem>) {
    forall i :: 0 <= i < |items| ==> Encodable(items[i]) && Typed(items[i])
  }

  ghost predicate AllCanonical(items: seq<DataItem>) {
    forall i :: 0 <= i < |items| ==> Canonical(items[i])
  }

  lemma {:induction false} BodyConcat(a: seq<DataItem>, b: seq<DataItem>)
    ensures Body(a + b) == Body(a) + Body(b)
  {
    hide Tlv;
    if |b| == 0 {
      assert a + b == a;
    } else {
      var front, last := b[..|b| - 1], b[|b| - 1];
      assert (a + b)[..|a + b| - 1] == a + front;
      BodyConcat(a, front);
      var x, y, z := Body(a), Body(front), Tlv(last);
      assert (x + y) + z == x + (y + z);
    }
  }

  lemma BodyFirst(items: seq<DataItem>)
    requires items != []
    ensures Body(items) == Tlv(items[0]) + Body(items[1..])
  {
    hide Tlv;
    assert items == [items[0]] + items[1..];
    BodyConcat([items[0]], items[1..]);
    assert [items[0]][..0] == [];
    assert Body([items[0]]) == [] + Tlv(items[0]);
    assert [] + Tlv(items[0]) == Tlv(items[0]);
  }

  lemma FirstDecodesBack(item: DataItem, rest: Bytes)
    requires Encodable(item) && Typed(item) && DecodeBody(rest).Ok?
    ensures DecodeBody(Tlv(item) + rest) == Ok([Normal(item)] + DecodeBody(rest).value)
  {
    var b := Tlv(item) + rest;
    assert |b| >= 4;
    SplitBack(item, rest);
    ItemDecodesBack(item);
    hide Tlv, Value, DecodeItem, SplitItem, Encodable, Typed, Normal;
  }

  lemma {:induction false} BodyDecodesBack(items: seq<DataItem>)
    requires AllTyped(items)
    ensures DecodeBody(Body(items)) == Ok(NormalAll(items))
  {
    if items != [] {
      var rest := items[1..];
      hide Tlv, Encodable, Typed, Normal, DecodeBody, Body, NormalAll;
      BodyFirst(items);
      BodyDecodesBack(rest);
      FirstDecodesBack(items[0], Body(rest));
      NormalFirst(items);
    }
  }

  lemma NormalFirst(items: seq<DataItem>)
    requires items != []
    ensures NormalAll(items) == [Normal(items[0])] + NormalAll(items[1..])
  {
    hide Normal;
  }

  /** Item by item, two bodies differ in subnet host bits only. */
  ghost predicate ClearedBody(b: Bytes, c: Bytes)
    decreases |b|
  {
    if b == [] then c == [] else
      var x, y := SplitItem(b), SplitItem(c);
      && x.Ok? && y.Ok? && x.value.kind == y.value.kind
      && Cleared(x.value.kind, x.value.value, y.value.value)
      && ClearedBody(x.value.rest, y.value.rest)
  }

  lemma {:induction false} BodyReencodes(b: Bytes)
    requires DecodeBody(b).Ok?
    ensures var items := DecodeBody(b).value;
            AllCanonical(items) && |Body(items)| == |b| && ClearedBody(b, Body(items))
    decreases |b|
  {
    if b != [] {
      var raw := SplitItem(b).value;
      var item := DecodeItem(raw.kind, raw.value).value;
      var items := DecodeBody(b).value;
      hide Tlv, Value, DecodeItem, SplitItem, Encodable, Typed, Normal, Canonical, Cleared;
      ItemReencodes(raw.kind, raw.value);
      BodyReencodes(raw.rest);
      assert items[1..] == DecodeBody(raw.rest).value;
      BodyFirst(items);
      CanonicalFits(item);
      SplitBack(item, Body(items[1..]));
      TlvLength(item, raw.kind, raw.value);
    }
  }

  lemma CanonicalFits(item: DataItem)
    requires Canonical(item)
    ensures Encodable(item) && Typed(item) && Normal(item) == item
  {
  }

  lemma TlvLength(item: DataItem, kind: u16, v: Bytes)
    requires Cleared(kind, v, Value(item))
    ensures |Tlv(item)| == 4 + |v|
  {
  }

  lemma NormalIsSame(items: seq<DataItem>)
    requires AllCanonical(items)
    ensures NormalAll(items) == items && AllTyped(items)
  {
    hide Encodable, Normal;
  }

  // --- Messages -------------------------------------------------------------

  /** The first item that cannot be written. */
  function FirstError(items: seq<DataItem>): (r: Option<CodecError>)
    ensures r.None? <==> forall i :: 0 <= i < |items| ==> Encodable(items[i])
  {
    if |items| == 0 then None else
      var before := FirstError(items[..|items| - 1]);
      if before.Some? then before else EncodeError(items[|items| - 1])
  }

  function EncodeMessage(msg: Message): (r: Result<Bytes>)
    ensures r.Ok? <==> MessageEncodable(msg)
    ensures r.Ok? ==> |r.value| == 4 + BodyLength(msg.items)
  {
    var error := FirstError(msg.items);
    if error.Some? then Err(error.value)
    else if BodyLength(msg.items) >= 0x1_0000 then Err(OutOfRange(MessageLength, BodyLength(msg.items)))
    else Ok(Put(msg.messageType, 2) + Put(BodyLength(msg.items), 2) + Body(msg.items))
  }

  /** Octets after the declared length are ignored. */
  function DecodeMessage(src: Bytes): Result<Message> {
    if |src| < 4 then Err(Truncated(4, |src|))
    else
      var declared := GetU16(src[2..4]);
      if |src| - 4 < declared then Err(LengthMismatch(declared, |src| - 4))
      else
        var items := DecodeBody(src[4..4 + declared]);
        if items.Err? then Err(items.error) else Ok(Message(GetU16(src[..2]), items.value))
  }

  function NormalMessage(msg: Message): Message { Message(msg.messageType, NormalAll(msg.items)) }

  function Declared(src: Bytes): nat
    requires |src| >= 4
  {
    GetU16(src[2..4])
  }

  lemma HeaderBack(kind: u16, body: Bytes, trailing: Bytes)
    requires |body| < 0x1_0000
    ensures var src := Put(kind, 2) + Put(|body|, 2) + body + trailing;
            && |src| >= 4 && GetU16(src[..2]) == kind && Declared(src) == |body|
            && src[4..4 + |body|] == body
  {
    var src := Put(kind, 2) + Put(|body|, 2) + body + trailing;
    Put16(kind);
    Put16(|body|);
    assert src[..2] == Put(kind, 2) && src[2..4] == Put(|body|, 2) && src[4..4 + |body|] == body;
  }

  /** Decoding what was encoded gives the message in wire form, whatever follows. */
  lemma MessageRoundTrip(msg: Message, trailing: Bytes)
    requires MessageEncodable(msg) && AllTyped(msg.items)
    ensures DecodeMessage(EncodeMessage(msg).value + trailing) == Ok(NormalMessage(msg))
  {
    hide Put, Get, Body, DecodeBody, Normal, Encodable, Typed;
    HeaderBack(msg.messageType, Body(msg.items), trailing);
    BodyDecodesBack(msg.items);
  }

  /** On canonical messages decoding undoes encoding. */
  lemma CanonicalRoundTrip(msg: Message)
    requires MessageEncodable(msg) && AllCanonical(msg.items)
    ensures DecodeMessage(EncodeMessage(msg).value) == Ok(msg)
  {
    NormalIsSame(msg.items);
    MessageRoundTrip(msg, []);
    hide EncodeMessage, DecodeMessage;
    assert EncodeMessage(msg).value + [] == EncodeMessage(msg).value;
  }

  /** Two messages share their octets just when they share their wire form. */
  lemma SameBytes(a: Message, b: Message)
    requires MessageEncodable(a) && MessageEncodable(b) && AllTyped(a.items) && AllTyped(b.items)
    ensures EncodeMessage(a) == EncodeMessage(b) <==> NormalMessage(a) == NormalMessage(b)
  {
    MessageRoundTrip(a, []);
    MessageRoundTrip(b, []);
    hide DecodeMessage;
    if NormalMessage(a) == NormalMessage(b) {
      NormalBody(a.items);
      NormalBody(b.items);
    }
  }

  lemma NormalValue(item: DataItem)
    requires Encodable(item)
    ensures Tlv(Normal(item)) == Tlv(item)
  {
    hide ClearHostBits, Put;
    match item
    case Ipv4AttachedSubnet(_, net) => TruncTwice4(net);
    case Ipv6AttachedSubnet(_, net) => TruncTwice6(net);
    case _ =>
  }

  lemma AddressNormal(item: DataItem)
    requires 8 <= TypeId(item) <= 11 && !item.Unknown?
    ensures Encodable(item) && Typed(item) && Normal(item) == CanonicalItem(item)
  {
  }

  /** The octets that validation uses as the key of an address item identify it
      up to host bits. */
  lemma SameKey(a: DataItem, b: DataItem)
    requires 8 <= TypeId(a) <= 11 && !a.Unknown? && 8 <= TypeId(b) <= 11 && !b.Unknown?
    ensures Tlv(a) == Tlv(b) <==> CanonicalItem(a) == CanonicalItem(b)
  {
    hide *;
    AddressNormal(a);
    AddressNormal(b);
    SplitBack(a, []);
    SplitBack(b, []);
    ItemDecodesBack(a);
    ItemDecodesBack(b);
    NormalValue(a);
    NormalValue(b);
  }

  lemma {:induction false} NormalBody(items: seq<DataItem>)
    requires forall i :: 0 <= i < |items| ==> Encodable(items[i])
    ensures Body(NormalAll(items)) == Body(items)
  {
    hide Tlv, Encodable, Normal;
    if |items| > 0 {
      var front := items[..|items| - 1];
      NormalBody(front);
      NormalValue(items[|items| - 1]);
      assert NormalAll(items)[..|items| - 1] == NormalAll(front);
    }
  }

  /** Whatever is accepted can be written again: the same header, the same body
      up to subnet host bits, and the same message when read back. */
  lemma AcceptedReencodes(src: Bytes)
    requires DecodeMessage(src).Ok?
    ensures var msg := DecodeMessage(src).value;
            && MessageEncodable(msg) && AllCanonical(msg.items)
            && var out := EncodeMessage(msg).value;
               && |out| == 4 + Declared(src) && out[..4] == src[..4]
               && ClearedBody(src[4..4 + Declared(src)], out[4..])
               && DecodeMessage(out) == Ok(msg)
  {
    var msg := DecodeMessage(src).value;
    var body := src[4..4 + Declared(src)];
    BodyReencodes(body);
    AllFit(msg.items);
    CanonicalRoundTrip(msg);
    var out := EncodeMessage(msg).value;
    PutGet(src[..2]);
    PutGet(src[2..4]);
    hide Put, Get, Body, DecodeBody, DecodeMessage, ClearedBody, AllCanonical;
    assert out[4..] == Body(msg.items);
    assert src[..4] == src[..2] + src[2..4];
    assert out[..4] == Put(msg.messageType, 2) + Put(BodyLength(msg.items), 2);
  }

  lemma AllFit(items: seq<DataItem>)
    requires AllCanonical(items)
    ensures forall i :: 0 <= i < |items| ==> Encodable(items[i])
  {
  }

  /** A re-encoded message has the length of its source exactly when nothing
      follows the declared body. */
  lemma SameLength(src: Bytes)
    requires DecodeMessage(src).Ok?
    ensures EncodeMessage(DecodeMessage(src).value).Ok?
    ensures |EncodeMessage(DecodeMessage(src).value).value| == |src| <==> |src| == 4 + Declared(src)
  {
    AcceptedReencodes(src);
  }

  /** A heartbeat followed by a stray octet is accepted, and comes out shorter. */
  lemma TrailingOctetLost()
    ensures var src := [0, 16, 0, 0, 7];
            && DecodeMessage(src) == Ok(Message(HEARTBEAT, []))
            && EncodeMessage(Message(HEARTBEAT, [])) == Ok([0, 16, 0, 0])
  {
    var src: Bytes := [0, 16, 0, 0, 7];
    assert src[..2] == [0, 16] && src[2..4] == [0, 0] && src[4..4] == [];
    assert Put(16, 2) == [0, 16] && Put(0, 2) == [0, 0];
    Put16(16);
    Put16(0);
    assert Put(16, 2) + Put(0, 2) + Body([]) == [0, 16, 0, 0];
  }

  // --- Signals --------------------------------------------------------------

  datatype Signal = Signal(signalType: u16, items: seq<DataItem>)

  /** "DLEP" */
  const SIGNAL_PREFIX: Bytes := [0x44, 0x4C, 0x45, 0x50]

  function EncodeSignal(signal: Signal): (r: Result<Bytes>)
    ensures r.Ok? <==> MessageEncodable(Message(signal.signalType, signal.items))
  {
    var error := FirstError(signal.items);
    if error.Some? then Err(error.value)
    else if BodyLength(signal.items) >= 0x1_0000 then Err(OutOfRange(SignalLength, BodyLength(signal.items)))
    else Ok(SIGNAL_PREFIX + Put(signal.signalType, 2) + Put(BodyLength(signal.items), 2) + Body(signal.items))
  }

  /** A datagram must be exactly as long as it declares. */
  function DecodeSignal(src: Bytes): Result<Signal> {
    if |src| < 8 then Err(Truncated(8, |src|))
    else if src[..4] != SIGNAL_PREFIX then Err(MissingSignalPrefix)
    else
      var declared := GetU16(src[6..8]);
      if |src| - 8 != declared then Err(LengthMismatch(declared, |src| - 8))
      else
        var items := DecodeBody(src[8..]);
        if items.Err? then Err(items.error) else Ok(Signal(GetU16(src[4..6]), items.value))
  }

  /** A signal is a prefixed message of exactly the declared length. */
  lemma SignalIsMessage(src: Bytes)
    requires |src| >= 8 && src[..4] == SIGNAL_PREFIX && |src| == 8 + Declared(src[4..])
    ensures DecodeSignal(src).Ok? <==> DecodeMessage(src[4..]).Ok?
    ensures DecodeSignal(src).Ok? ==>
              var signal, msg := DecodeSignal(src).value, DecodeMessage(src[4..]).value;
              Message(signal.signalType, signal.items) == msg
  {
    var rest := src[4..];
    assert rest[..2] == src[4..6] && rest[2..4] == src[6..8];
    assert rest[4..4 + Declared(rest)] == src[8..];
    hide DecodeBody, Get;
  }

  lemma SignalRoundTrip(signal: Signal)
    requires EncodeSignal(signal).Ok? && AllTyped(signal.items)
    ensures DecodeSignal(EncodeSignal(signal).value) == Ok(Signal(signal.signalType, NormalAll(signal.items)))
  {
    var msg := Message(signal.signalType, signal.items);
    var out := EncodeSignal(signal).value;
    var inner := EncodeMessage(msg).value;
    hide Put, Get, Body, DecodeBody, Normal, Encodable, Typed;
    MessageRoundTrip(msg, []);
    HeaderBack(msg.messageType, Body(msg.items), []);
    assert inner + [] == inner;
    assert out[..4] == SIGNAL_PREFIX && out[4..] == inner;
    SignalIsMessage(out);
  }

  /** For datagrams the length law holds without exception. */
  lemma SignalReencodes(src: Bytes)
    requires DecodeSignal(src).Ok?
    ensures var signal := DecodeSignal(src).value;
            && EncodeSignal(signal).Ok? && AllCanonical(signal.items)
            && |EncodeSignal(signal).value| == |src|
            && DecodeSignal(EncodeSignal(signal).value) == Ok(signal)
  {
    var signal := DecodeSignal(src).value;
    assert src[4..][2..4] == src[6..8];
    hide DecodeBody, Get, Body, Put, DecodeMessage;
    SignalIsMessage(src);
    AcceptedReencodes(src[4..]);
    NormalIsSame(signal.items);
    hide AllCanonical, ClearedBody, DecodeSignal, AllTyped;
    SignalRoundTrip(signal);
  }
}
