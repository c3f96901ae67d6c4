/** Every message the builders produce is accepted by the peer's grammar, and
    reading it back yields what was put in.
 */
module Conformance {
  import opened Types
  import opened Addresses
  import opened Messages
  import opened Validation

  // --- Lists of items -------------------------------------------------------

  lemma DistinctConcat(a: seq<DataItem>, b: seq<DataItem>)
    requires Distinct(a) && Distinct(b)
    requires forall x, y :: x in a && y in b ==> !Conflict(x, y)
    ensures Distinct(a + b)
  {
    var s := a + b;
    forall i, j | 0 <= i < j < |s| ensures !Conflict(s[i], s[j]) {
      if j < |a| { assert s[i] == a[i] && s[j] == a[j]; }
      else if i >= |a| { assert s[i] == b[i - |a|] && s[j] == b[j - |a|]; }
      else { assert s[i] in a && s[j] in b; }
    }
  }

  /** The item types of a list. */
  ghost function TypeSet(items: seq<DataItem>): set<u16> {
    set x | x in items :: TypeId(x)
  }

  /** A list of known, encodable, compatible items with exactly these types. */
  ghost predicate Profile(items: seq<DataItem>, types: set<u16>) {
    && Distinct(items)
    && TypeSet(items) == types
    && (forall x :: x in items ==> !x.Unknown? && Encodable(x))
  }

  ghost function MetricPart(types: set<u16>): set<u16> {
    set t | t in types && IsMetricType(t)
  }

  lemma ProfileSingle(x: DataItem)
    requires !x.Unknown? && Encodable(x)
    ensures Profile([x], {TypeId(x)})
  {
    assert x in [x];
  }

  lemma ProfileConcat(a: seq<DataItem>, b: seq<DataItem>, s: set<u16>, t: set<u16>)
    requires Profile(a, s) && Profile(b, t) && s !! t
    ensures Profile(a + b, s + t)
  {
    forall x, y | x in a && y in b ensures !Conflict(x, y) {
      assert TypeId(x) in TypeSet(a) && TypeId(y) in TypeSet(b);
    }
    DistinctConcat(a, b);
    assert forall x :: x in a + b <==> x in a || x in b;
    assert TypeSet(a + b) == TypeSet(a) + TypeSet(b);
  }

  lemma ProfileType(items: seq<DataItem>, types: set<u16>, x: DataItem)
    requires Profile(items, types) && x in items
    ensures TypeId(x) in types
  {
    assert TypeId(x) in TypeSet(items);
  }

  /** Without metric types nothing is merged; without address types nothing read. */
  lemma ProfileWithout(items: seq<DataItem>, types: set<u16>)
    requires Profile(items, types)
    ensures (forall t :: t in types ==> !IsMetricType(t)) ==> forall m :: Merge(items, m) == m
    ensures (forall t :: t in types ==> !IsAddressType(t)) ==> forall x :: x in items ==> !IsAddressItem(x)
  {
    forall i | 0 <= i < |items| ensures TypeId(items[i]) in types { ProfileType(items, types, items[i]); }
    if forall t :: t in types ==> !IsMetricType(t) {
      forall m ensures Merge(items, m) == m { MergeNothing(items, m); }
    }
  }

  /** The only status and the only MAC of a list with one of each. */
  lemma ProfileOne(items: seq<DataItem>, types: set<u16>, x: DataItem)
    requires Profile(items, types) && x in items && !IsAddressItem(x)
    ensures forall y :: y in items && TypeId(y) == TypeId(x) ==> y == x
  {
    forall y | y in items && TypeId(y) == TypeId(x) ensures y == x {
      var i :| 0 <= i < |items| && items[i] == x;
      var j :| 0 <= j < |items| && items[j] == y;
    }
  }

  /** The metric types a session with these initial metrics reports. */
  function SupportTypes(m: LinkMetrics): set<u16> {
    {12, 13, 14, 15, 16}
    + (if m.resources.Some? then {17} else {}) + (if m.rlqRx.Some? then {18} else {})
    + (if m.rlqTx.Some? then {19} else {}) + (if m.mtu.Some? then {20} else {})
  }

  lemma ProfileEmpty()
    ensures Profile([], {})
  {
  }

  lemma MandatoryProfile(m: LinkMetrics)
    requires MetricsEncodable(m)
    ensures Profile(MandatoryItems(m), {12, 13, 14, 15, 16})
  {
    hide Profile;
    var a := MandatoryItems(m);
    ProfileSingle(a[0]); ProfileSingle(a[1]); ProfileSingle(a[2]); ProfileSingle(a[3]); ProfileSingle(a[4]);
    ProfileConcat([a[0]], [a[1]], {12}, {13});
    ProfileConcat([a[0]] + [a[1]], [a[2]], {12, 13}, {14});
    ProfileConcat([a[0]] + [a[1]] + [a[2]], [a[3]], {12, 13, 14}, {15});
    ProfileConcat([a[0]] + [a[1]] + [a[2]] + [a[3]], [a[4]], {12, 13, 14, 15}, {16});
    assert a == [a[0]] + [a[1]] + [a[2]] + [a[3]] + [a[4]];
    assert {12, 13, 14, 15} + {16} == {12, 13, 14, 15, 16} && {12, 13, 14} + {15} == {12, 13, 14, 15}
        && {12, 13} + {14} == {12, 13, 14} && {12} + {13} == {12, 13};
  }

  lemma OneOptional(present: bool, x: DataItem)
    requires present ==> !x.Unknown? && Encodable(x)
    ensures Profile(if present then [x] else [], if present then {TypeId(x)} else {})
  {
    if present { ProfileSingle(x); } else { ProfileEmpty(); }
  }

  lemma OptionalProfile(m: LinkMetrics)
    requires MetricsEncodable(m)
    ensures Profile(OptionalItems(m),
                    (if m.resources.Some? then {17} else {}) + (if m.rlqRx.Some? then {18} else {})
                    + (if m.rlqTx.Some? then {19} else {}) + (if m.mtu.Some? then {20} else {}))
  {
    hide Profile;
    var a := if m.resources.Some? then [Resources(m.resources.value)] else [];
    var b := if m.rlqRx.Some? then [RelativeLinkQualityReceive(m.rlqRx.value)] else [];
    var c := if m.rlqTx.Some? then [RelativeLinkQualityTransmit(m.rlqTx.value)] else [];
    var d := if m.mtu.Some? then [Mtu(m.mtu.value)] else [];
    var s, t := if m.resources.Some? then {17} else {}, if m.rlqRx.Some? then {18} else {};
    var u, v := if m.rlqTx.Some? then {19} else {}, if m.mtu.Some? then {20} else {};
    if m.resources.Some? { OneOptional(true, a[0]); } else { ProfileEmpty(); }
    if m.rlqRx.Some? { OneOptional(true, b[0]); } else { ProfileEmpty(); }
    if m.rlqTx.Some? { OneOptional(true, c[0]); } else { ProfileEmpty(); }
    if m.mtu.Some? { OneOptional(true, d[0]); } else { ProfileEmpty(); }
    ProfileConcat(a, b, s, t);
    ProfileConcat(a + b, c, s + t, u);
    ProfileConcat(a + b + c, d, s + t + u, v);
  }

  lemma MetricProfile(m: LinkMetrics)
    requires MetricsEncodable(m)
    ensures Profile(MetricItems(m), SupportTypes(m))
  {
    hide Profile;
    MandatoryProfile(m);
    OptionalProfile(m);
    var o := (if m.resources.Some? then {17} else {}) + (if m.rlqRx.Some? then {18} else {})
           + (if m.rlqTx.Some? then {19} else {}) + (if m.mtu.Some? then {20} else {});
    ProfileConcat(MandatoryItems(m), OptionalItems(m), {12, 13, 14, 15, 16}, o);
    assert {12, 13, 14, 15, 16} + o == SupportTypes(m);
  }

  lemma AddressesDistinct(add: bool, a: DestinationAddrs)
    requires CleanAddrs(a)
    ensures Distinct(Items4(add, a.v4)) && Distinct(Items6(add, a.v6))
    ensures forall x :: x in Items4(add, a.v4) ==> x.Ipv4Address? && x.add == add
    ensures forall x :: x in Items6(add, a.v6) ==> x.Ipv6Address? && x.add == add
  {
  }

  lemma SubnetsDistinct(add: bool, a: DestinationAddrs)
    requires CleanAddrs(a)
    ensures Distinct(ItemsNet4(add, a.v4Subnets)) && Distinct(ItemsNet6(add, a.v6Subnets))
    ensures forall x :: x in ItemsNet4(add, a.v4Subnets) ==> x.Ipv4AttachedSubnet? && x.add == add
    ensures forall x :: x in ItemsNet6(add, a.v6Subnets) ==> x.Ipv6AttachedSubnet? && x.add == add
  {
    var n4, n6 := ItemsNet4(add, a.v4Subnets), ItemsNet6(add, a.v6Subnets);
    hide Trunc4, Trunc6;
    forall i, j | 0 <= i < j < |n4| ensures !Conflict(n4[i], n4[j]) {
      assert n4[i].net4 == a.v4Subnets[i] && n4[j].net4 == a.v4Subnets[j];
    }
    forall i, j | 0 <= i < j < |n6| ensures !Conflict(n6[i], n6[j]) {
      assert n6[i].net6 == a.v6Subnets[i] && n6[j].net6 == a.v6Subnets[j];
    }
  }

  lemma ListingShape(add: bool, a: DestinationAddrs)
    requires CleanAddrs(a)
    ensures Distinct(Listing(add, a))
    ensures forall x :: x in Listing(add, a) ==> IsAddressItem(x) && x.add == add && Encodable(x)
  {
    var i4, i6 := Items4(add, a.v4), Items6(add, a.v6);
    var n4, n6 := ItemsNet4(add, a.v4Subnets), ItemsNet6(add, a.v6Subnets);
    AddressesDistinct(add, a);
    SubnetsDistinct(add, a);
    hide Items4, Items6, ItemsNet4, ItemsNet6, Distinct, CleanAddrs;
    DistinctConcat(i4, i6);
    DistinctConcat(i4 + i6, n4);
    DistinctConcat(i4 + i6 + n4, n6);
  }

  lemma ChangeItemsShape(c: AddressChanges)
    requires CleanAddrs(c.added) && CleanAddrs(c.removed)
    ensures Distinct(ChangeItems(c))
    ensures forall x :: x in ChangeItems(c) ==> IsAddressItem(x) && Encodable(x)
  {
    CanonicalFixed(c.added);
    CanonicalFixed(c.removed);
    ListingShape(false, c.removed);
    ListingShape(true, c.added);
    DistinctConcat(Listing(false, c.removed), Listing(true, c.added));
  }

  lemma ListingProfile(add: bool, a: DestinationAddrs)
    requires CleanAddrs(a)
    ensures Profile(Listing(add, a), TypeSet(Listing(add, a)))
    ensures TypeSet(Listing(add, a)) <= {8, 9, 10, 11}
  {
    ListingShape(add, a);
  }

  lemma ChangeProfile(c: AddressChanges)
    requires CleanAddrs(c.added) && CleanAddrs(c.removed)
    ensures Profile(ChangeItems(c), TypeSet(ChangeItems(c)))
    ensures TypeSet(ChangeItems(c)) <= {8, 9, 10, 11}
  {
    ChangeItemsShape(c);
  }

  // --- What a conforming peer sends -----------------------------------------

  /** Passes every check a router makes on content, whatever its transactions:
      the grammar, the MAC format, and the fixed set of metric types. */
  ghost predicate GoodForRouter(msg: Message, initial: LinkMetrics, format: MacAddressFormat) {
    && Expected(msg.messageType, true, false)
    && Grammar(msg, true, false, [])
    && MacFormatOk(msg, format)
    && MetricTypes(msg.items) <= SupportTypes(initial)
    && (msg.messageType == LINK_CHARACTERISTICS_RESPONSE ==> MetricTypes(msg.items) == SupportTypes(initial))
    && (msg.messageType != SESSION_TERMINATION ==> FatalStatus(msg.items).None?)
  }

  ghost predicate GoodForModem(msg: Message, format: MacAddressFormat) {
    && Expected(msg.messageType, false, false)
    && Grammar(msg, false, false, [])
    && MacFormatOk(msg, format)
    && (msg.messageType != SESSION_TERMINATION ==> FatalStatus(msg.items).None?)
  }

  /** Once in session the grammar does not depend on the local extensions. */
  lemma GrammarIgnoresExtensions(msg: Message, router: bool, local: seq<u16>)
    ensures Grammar(msg, router, false, local) == Grammar(msg, router, false, [])
  {
  }

  ghost predicate TypesFit(mt: u16, router: bool, types: set<u16>) {
    && (forall t :: t in types ==> AllowedType(mt, router, t))
    && (forall t :: t in RequiredTypes(mt) ==> t in types)
    && (mt == LINK_CHARACTERISTICS_REQUEST ==> 14 in types || 15 in types || 16 in types)
  }

  lemma GrammarByProfile(msg: Message, router: bool, initializing: bool, local: seq<u16>, types: set<u16>)
    requires Profile(msg.items, types) && TypesFit(msg.messageType, router, types)
    requires initializing ==> forall x :: x in msg.items ==> !IsAddressItem(x)
    ensures Grammar(msg, router, initializing, local)
    ensures MetricTypes(msg.items) == MetricPart(types)
  {
    forall x | x in msg.items ensures TypeId(x) in types { ProfileType(msg.items, types, x); }
    forall t | t in types ensures HasType(msg.items, t) {
      var x :| x in msg.items && TypeId(x) == t;
    }
    MetricTypesByProfile(msg.items, types);
  }

  lemma MetricTypesByProfile(items: seq<DataItem>, types: set<u16>)
    requires Profile(items, types)
    ensures MetricTypes(items) == MetricPart(types)
  {
    forall t | t in types && IsMetricType(t) ensures t in MetricTypes(items) {
      var x :| x in items && TypeId(x) == t;
      var i :| 0 <= i < |items| && items[i] == x;
    }
    forall t | t in MetricTypes(items) ensures t in types {
      var i :| 0 <= i < |items| && IsMetricType(TypeId(items[i])) && TypeId(items[i]) == t;
      ProfileType(items, types, items[i]);
    }
  }

  /** A list with at most one status, known and harmless, has no fatal one. */
  lemma HarmlessByProfile(items: seq<DataItem>, types: set<u16>, code: Option<DataItem>)
    requires Profile(items, types)
    requires code.None? ==> STATUS !in types
    requires code.Some? ==> code.value in items && code.value.Status? && !TerminatesSession(code.value.code)
    ensures FatalStatus(items).None?
  {
    if code.Some? { ProfileOne(items, types, code.value); }
    forall i | 0 <= i < |items| && items[i].Status? ensures !TerminatesSession(items[i].code) {
      ProfileType(items, types, items[i]);
    }
    NoFatal(items);
  }

  lemma MacFormatByProfile(msg: Message, types: set<u16>, mac: Option<MacAddress>, format: MacAddressFormat)
    requires Profile(msg.items, types)
    requires mac.None? ==> MAC_ADDRESS !in types
    requires mac.Some? ==> Mac(mac.value) in msg.items && Accepts(format, mac.value)
    ensures MacFormatOk(msg, format)
  {
    if mac.Some? { ProfileOne(msg.items, types, Mac(mac.value)); }
    forall x | x in msg.items && x.Mac? ensures Accepts(format, x.mac) {
      ProfileType(msg.items, types, x);
    }
  }

  lemma GoodByProfile(msg: Message, types: set<u16>, mac: Option<MacAddress>, status: Option<DataItem>,
                      initial: LinkMetrics, format: MacAddressFormat)
    requires Profile(msg.items, types)
    requires if mac.None? then MAC_ADDRESS !in types else Mac(mac.value) in msg.items && Accepts(format, mac.value)
    requires status.None? ==> STATUS !in types
    requires status.Some? ==> status.value in msg.items && status.value.Status?
    requires status.Some? && msg.messageType != SESSION_TERMINATION ==> !TerminatesSession(status.value.code)
    ensures Expected(msg.messageType, true, false) && TypesFit(msg.messageType, true, types)
            && (forall t :: t in types && IsMetricType(t) ==> t in SupportTypes(initial))
            && (msg.messageType == LINK_CHARACTERISTICS_RESPONSE ==> SupportTypes(initial) <= types)
            ==> GoodForRouter(msg, initial, format)
    ensures Expected(msg.messageType, false, false) && TypesFit(msg.messageType, false, types)
            ==> GoodForModem(msg, format)
  {
    MacFormatByProfile(msg, types, mac, format);
    if msg.messageType != SESSION_TERMINATION { HarmlessByProfile(msg.items, types, status); }
    if TypesFit(msg.messageType, true, types) { GrammarByProfile(msg, true, false, [], types); }
    if TypesFit(msg.messageType, false, types) { GrammarByProfile(msg, false, false, [], types); }
    SupportAreMetrics(initial);
  }

  lemma SupportAreMetrics(m: LinkMetrics)
    ensures forall t :: t in SupportTypes(m) ==> IsMetricType(t)
  {
  }

  lemma SupportMonotone(m: LinkMetrics, initial: LinkMetrics)
    ensures SupportedBy(m, initial) ==> SupportTypes(m) <= SupportTypes(initial)
    ensures SameSupport(m, initial) ==> SupportTypes(m) == SupportTypes(initial)
  {
  }

  /** Which type sets the larger messages may carry. */
  lemma LargeMessagesFit(types: set<u16>)
    requires forall t :: t in types ==> t == 7 || t == 1 || IsAddressType(t) || IsMetricType(t)
    ensures 7 !in types && 1 !in types ==> TypesFit(SESSION_UPDATE, true, types)
    ensures types <= {8, 9, 10, 11} ==> TypesFit(SESSION_UPDATE, false, types)
    ensures 7 in types && 1 !in types ==>
              TypesFit(DESTINATION_UP, true, types) && TypesFit(DESTINATION_UPDATE, true, types)
    ensures 7 in types && 1 in types ==> TypesFit(DESTINATION_ANNOUNCE_RESPONSE, true, types)
    ensures 7 in types && 1 in types && (forall t :: t in types ==> !IsAddressType(t)) ==>
              TypesFit(LINK_CHARACTERISTICS_RESPONSE, true, types)
  {
  }

  lemma NothingRead(items: seq<DataItem>)
    requires forall x :: x in items ==> !IsAddressItem(x)
    ensures FromItems(items) == NO_CHANGES
  {
    CollectNothing(NO_CHANGES, items);
  }

  lemma ReadChange(prefix: seq<DataItem>, types: set<u16>, c: AddressChanges)
    requires Profile(prefix, types) && forall t :: t in types ==> !IsAddressType(t)
    requires CleanAddrs(c.added) && CleanAddrs(c.removed)
    ensures FromItems(prefix + ChangeItems(c)) == c
  {
    ProfileWithout(prefix, types);
    WriteThenRead(prefix, c);
    CanonicalFixed(c.added);
    CanonicalFixed(c.removed);
  }

  lemma MetricsAreNotAddresses(m: LinkMetrics)
    ensures forall x :: x in MetricItems(m) ==> !IsAddressItem(x)
  {
  }

  /** A listing, between items that are not addresses, reads as what it lists. */
  lemma ListingRead(head: seq<DataItem>, a: DestinationAddrs, tail: seq<DataItem>)
    requires (forall x :: x in head ==> !IsAddressItem(x)) && (forall x :: x in tail ==> !IsAddressItem(x))
    requires CleanAddrs(a)
    ensures FromItems(head + Listing(true, a) + tail) == AddressChanges(a, NO_ADDRS)
  {
    hide Listing, Collect;
    CollectConcat(NO_CHANGES, head + Listing(true, a), tail);
    CollectConcat(NO_CHANGES, head, Listing(true, a));
    CollectNothing(NO_CHANGES, head);
    CollectListing(NO_CHANGES, true, a);
    CollectNothing(ExtendSide(NO_CHANGES, true, CanonicalAddrs(a)), tail);
    CanonicalFixed(a);
  }

  lemma UpRead(mac: MacAddress, m: LinkMetrics, a: DestinationAddrs)
    requires CleanAddrs(a)
    ensures FromItems(BuildDestinationUp(mac, m, a).items) == AddressChanges(a, NO_ADDRS)
    ensures FromItems(BuildAnnounceAccepted(mac, m, a).items) == AddressChanges(a, NO_ADDRS)
  {
    hide Listing, FromItems, MetricItems;
    MetricsAreNotAddresses(m);
    ListingRead([Mac(mac)], a, MetricItems(m));
    ListingRead([Mac(mac)], a, MetricItems(m) + [Status(SUCCESS, [])]);
    var x, y, z, w := [Mac(mac)], Listing(true, a), MetricItems(m), [Status(SUCCESS, [])];
    assert (x + y + z) + w == x + y + (z + w);
  }

  // --- One lemma per builder ------------------------------------------------

  lemma StatusOnly(mt: u16, code: u8, initial: LinkMetrics, format: MacAddressFormat)
    requires mt == SESSION_UPDATE_RESPONSE || mt == SESSION_TERMINATION
    requires mt == SESSION_UPDATE_RESPONSE ==> !TerminatesSession(code)
    ensures GoodForRouter(Message(mt, [Status(code, [])]), initial, format)
    ensures GoodForModem(Message(mt, [Status(code, [])]), format)
  {
    var x := Status(code, []);
    ProfileSingle(x);
    GoodByProfile(Message(mt, [x]), {1}, None, Some(x), initial, format);
  }

  lemma HeartbeatGood(initial: LinkMetrics, format: MacAddressFormat)
    ensures GoodForRouter(BuildHeartbeat(), initial, format)
    ensures GoodForModem(BuildHeartbeat(), format)
  {
    ProfileEmpty();
    GoodByProfile(BuildHeartbeat(), {}, None, None, initial, format);
  }

  lemma MacOnly(mt: u16, mac: MacAddress, initial: LinkMetrics, format: MacAddressFormat)
    requires mt == DESTINATION_DOWN || mt == DESTINATION_ANNOUNCE
    requires Accepts(format, mac)
    ensures mt == DESTINATION_DOWN ==> GoodForRouter(Message(mt, [Mac(mac)]), initial, format)
    ensures GoodForModem(Message(mt, [Mac(mac)]), format)
  {
    ProfileSingle(Mac(mac));
    GoodByProfile(Message(mt, [Mac(mac)]), {7}, Some(mac), None, initial, format);
  }

  lemma AnswerFits(mt: u16)
    requires mt == DESTINATION_UP_RESPONSE || mt == DESTINATION_DOWN_RESPONSE || mt == DESTINATION_ANNOUNCE_RESPONSE
    ensures mt != DESTINATION_UP_RESPONSE ==> Expected(mt, true, false) && TypesFit(mt, true, {7} + {1})
    ensures mt != DESTINATION_ANNOUNCE_RESPONSE ==> Expected(mt, false, false) && TypesFit(mt, false, {7} + {1})
    ensures forall t :: t in {7 as u16} + {1} ==> !IsMetricType(t)
  {
  }

  lemma MacAndStatus(mt: u16, mac: MacAddress, code: u8, initial: LinkMetrics, format: MacAddressFormat)
    requires mt == DESTINATION_UP_RESPONSE || mt == DESTINATION_DOWN_RESPONSE || mt == DESTINATION_ANNOUNCE_RESPONSE
    requires Accepts(format, mac) && !TerminatesSession(code)
    ensures mt != DESTINATION_UP_RESPONSE ==> GoodForRouter(Message(mt, [Mac(mac), Status(code, [])]), initial, format)
    ensures mt != DESTINATION_ANNOUNCE_RESPONSE ==> GoodForModem(Message(mt, [Mac(mac), Status(code, [])]), format)
    ensures ExtractStatus([Mac(mac), Status(code, [])]) == Some(code)
    ensures forall m :: Merge([Mac(mac), Status(code, [])], m) == m
  {
    hide Profile, GoodForRouter, GoodForModem, Merge, ExtractStatusItem, TypesFit;
    var x, y := Mac(mac), Status(code, []);
    AnswerFits(mt);
    ProfileSingle(x);
    ProfileSingle(y);
    ProfileConcat([x], [y], {7}, {1});
    assert [x] + [y] == [x, y];
    GoodByProfile(Message(mt, [x, y]), {7} + {1}, Some(mac), Some(y), initial, format);
    ProfileWithout([x, y], {7} + {1});
    StatusLast([x], y);
  }

  lemma SessionMetricsGood(m: LinkMetrics, initial: LinkMetrics, format: MacAddressFormat)
    requires MetricsEncodable(m) && SupportedBy(m, initial)
    ensures GoodForRouter(BuildSessionUpdate(m), initial, format)
    ensures FromItems(BuildSessionUpdate(m).items) == NO_CHANGES
  {
    hide Profile, GoodForRouter, GoodForModem, TypesFit, CleanAddrs, ChangeItems, FromItems, Merge, Overlay, TypeSet;
    MetricProfile(m);
    SupportAreMetrics(m);
    SupportMonotone(m, initial);
    LargeMessagesFit(SupportTypes(m));
    GoodByProfile(BuildSessionUpdate(m), SupportTypes(m), None, None, initial, format);
    ProfileWithout(MetricItems(m), SupportTypes(m));
    assert FromItems(MetricItems(m)) == NO_CHANGES by { NothingRead(MetricItems(m)); }
  }

  lemma SessionAddressesGood(c: AddressChanges, initial: LinkMetrics, format: MacAddressFormat)
    requires CleanAddrs(c.added) && CleanAddrs(c.removed)
    ensures GoodForRouter(BuildAddressUpdate(c), initial, format)
    ensures GoodForModem(BuildAddressUpdate(c), format)
    ensures FromItems(BuildAddressUpdate(c).items) == c
    ensures forall m :: Merge(BuildAddressUpdate(c).items, m) == m
  {
    hide Profile, GoodForRouter, GoodForModem, TypesFit, CleanAddrs, ChangeItems, FromItems, Merge, Overlay, TypeSet;
    var types := TypeSet(ChangeItems(c));
    ChangeProfile(c);
    LargeMessagesFit(types);
    GoodByProfile(BuildAddressUpdate(c), types, None, None, initial, format);
    ProfileWithout(ChangeItems(c), types);
    ProfileEmpty();
    ReadChange([], {}, c);
    assert [] + ChangeItems(c) == ChangeItems(c);
  }

  lemma MergeAfter(head: seq<DataItem>, types: set<u16>, m: LinkMetrics)
    requires Profile(head, types) && forall t :: t in types ==> !IsMetricType(t)
    ensures forall base :: Merge(head + MetricItems(m), base) == Overlay(m, base)
  {
    ProfileWithout(head, types);
    forall base ensures Merge(head + MetricItems(m), base) == Overlay(m, base) {
      MergeConcat(head, MetricItems(m), base);
      MergeBuilt(m, base);
    }
  }

  lemma MergeBefore(front: seq<DataItem>, tail: seq<DataItem>, types: set<u16>)
    requires Profile(tail, types) && forall t :: t in types ==> !IsMetricType(t)
    ensures forall base :: Merge(front + tail, base) == Merge(front, base)
  {
    ProfileWithout(tail, types);
    forall base ensures Merge(front + tail, base) == Merge(front, base) { MergeConcat(front, tail, base); }
  }

  lemma UpProfile(mac: MacAddress, m: LinkMetrics, a: DestinationAddrs)
    requires MetricsEncodable(m) && CleanAddrs(a)
    ensures var types := {7} + TypeSet(Listing(true, a)) + SupportTypes(m);
            && Profile(BuildDestinationUp(mac, m, a).items, types)
            && (forall t :: t in types ==> t == 7 || IsAddressType(t) || t in SupportTypes(m))
    ensures forall base :: Merge(BuildDestinationUp(mac, m, a).items, base) == Overlay(m, base)
  {
    hide Profile;
    var list := Listing(true, a);
    ListingProfile(true, a);
    ProfileSingle(Mac(mac));
    MetricProfile(m);
    SupportAreMetrics(m);
    ProfileConcat([Mac(mac)], list, {7}, TypeSet(list));
    ProfileConcat([Mac(mac)] + list, MetricItems(m), {7} + TypeSet(list), SupportTypes(m));
    MergeAfter([Mac(mac)] + list, {7} + TypeSet(list), m);
  }

  lemma DestinationUpGood(mac: MacAddress, m: LinkMetrics, a: DestinationAddrs, initial: LinkMetrics,
                          format: MacAddressFormat)
    requires Accepts(format, mac) && MetricsEncodable(m) && SupportedBy(m, initial) && CleanAddrs(a)
    ensures GoodForRouter(BuildDestinationUp(mac, m, a), initial, format)
    ensures ExtractMac(BuildDestinationUp(mac, m, a).items) == Some(mac)
    ensures forall base :: Merge(BuildDestinationUp(mac, m, a).items, base) == Overlay(m, base)
  {
    hide Profile, GoodForRouter, GoodForModem, TypesFit, CleanAddrs, ChangeItems, FromItems, Merge, Overlay, TypeSet;
    UpProfile(mac, m, a);
    SupportAreMetrics(m);
    SupportMonotone(m, initial);
    var types := {7} + TypeSet(Listing(true, a)) + SupportTypes(m);
    LargeMessagesFit(types);
    assert BuildDestinationUp(mac, m, a).items[0] == Mac(mac);
    GoodByProfile(BuildDestinationUp(mac, m, a), types, Some(mac), None, initial, format);
  }

  lemma AnnounceAcceptedGood(mac: MacAddress, m: LinkMetrics, a: DestinationAddrs, initial: LinkMetrics,
                             format: MacAddressFormat)
    requires Accepts(format, mac) && MetricsEncodable(m) && SupportedBy(m, initial) && CleanAddrs(a)
    ensures GoodForRouter(BuildAnnounceAccepted(mac, m, a), initial, format)
    ensures ExtractMac(BuildAnnounceAccepted(mac, m, a).items) == Some(mac)
    ensures ExtractStatus(BuildAnnounceAccepted(mac, m, a).items) == Some(SUCCESS)
    ensures forall base :: Merge(BuildAnnounceAccepted(mac, m, a).items, base) == Overlay(m, base)
  {
    hide Profile, GoodForRouter, GoodForModem, TypesFit, CleanAddrs, ChangeItems, FromItems, Merge, Overlay, TypeSet;
    var up := BuildDestinationUp(mac, m, a).items;
    var last := Status(SUCCESS, []);
    var types := {7} + TypeSet(Listing(true, a)) + SupportTypes(m);
    UpProfile(mac, m, a);
    SupportAreMetrics(m);
    SupportMonotone(m, initial);
    ProfileSingle(last);
    ProfileConcat(up, [last], types, {1});
    LargeMessagesFit(types + {1});
    assert (up + [last])[0] == Mac(mac) && last in up + [last];
    GoodByProfile(BuildAnnounceAccepted(mac, m, a), types + {1}, Some(mac), Some(last), initial, format);
    forall i | 0 <= i < |up| ensures !up[i].Status? { ProfileType(up, types, up[i]); }
    StatusLast(up, last);
    MergeBefore(up, [last], {1});
  }

  lemma UpdateProfile(mac: MacAddress, m: LinkMetrics)
    requires MetricsEncodable(m)
    ensures Profile(BuildDestinationUpdate(mac, m).items, {7} + SupportTypes(m))
    ensures forall base :: Merge(BuildDestinationUpdate(mac, m).items, base) == Overlay(m, base)
  {
    ProfileSingle(Mac(mac));
    MetricProfile(m);
    SupportAreMetrics(m);
    ProfileConcat([Mac(mac)], MetricItems(m), {7}, SupportTypes(m));
    MergeAfter([Mac(mac)], {7}, m);
  }

  lemma DestinationMetricsGood(mac: MacAddress, m: LinkMetrics, c: AddressChanges, initial: LinkMetrics,
                               format: MacAddressFormat)
    requires Accepts(format, mac) && MetricsEncodable(m) && SupportedBy(m, initial)
    requires CleanAddrs(c.added) && CleanAddrs(c.removed)
    ensures var msg := Message(DESTINATION_UPDATE, BuildDestinationUpdate(mac, m).items + ChangeItems(c));
            && GoodForRouter(msg, initial, format)
            && ExtractMac(msg.items) == Some(mac)
            && (forall base :: Merge(msg.items, base) == Overlay(m, base))
            && FromItems(msg.items) == c
  {
    hide Profile, GoodForRouter, GoodForModem, TypesFit, CleanAddrs, ChangeItems, FromItems, Merge, Overlay, TypeSet,
         SupportTypes, MetricItems;
    var head := BuildDestinationUpdate(mac, m).items;
    var tail := ChangeItems(c);
    var types := {7} + SupportTypes(m) + TypeSet(tail);
    UpdateProfile(mac, m);
    ChangeProfile(c);
    SupportAreMetrics(m);
    SupportMonotone(m, initial);
    ProfileConcat(head, tail, {7} + SupportTypes(m), TypeSet(tail));
    LargeMessagesFit(types);
    assert (head + tail)[0] == Mac(mac);
    GoodByProfile(Message(DESTINATION_UPDATE, head + tail), types, Some(mac), None, initial, format);
    ReadChange(head, {7} + SupportTypes(m), c);
    MergeBefore(head, tail, TypeSet(tail));
  }

  lemma PlainUpdateGood(mac: MacAddress, m: LinkMetrics, initial: LinkMetrics, format: MacAddressFormat)
    requires Accepts(format, mac) && MetricsEncodable(m) && SupportedBy(m, initial)
    ensures var msg := BuildDestinationUpdate(mac, m);
            && GoodForRouter(msg, initial, format)
            && ExtractMac(msg.items) == Some(mac)
            && (forall base :: Merge(msg.items, base) == Overlay(m, base))
            && FromItems(msg.items) == NO_CHANGES
  {
    DestinationMetricsGood(mac, m, NO_CHANGES, initial, format);
    assert ChangeItems(NO_CHANGES) == [];
    assert BuildDestinationUpdate(mac, m).items + [] == BuildDestinationUpdate(mac, m).items;
  }

  lemma DestinationAddressesGood(mac: MacAddress, c: AddressChanges, initial: LinkMetrics, format: MacAddressFormat)
    requires Accepts(format, mac) && CleanAddrs(c.added) && CleanAddrs(c.removed)
    ensures var msg := Message(DESTINATION_UPDATE, [Mac(mac)] + ChangeItems(c));
            && GoodForRouter(msg, initial, format)
            && ExtractMac(msg.items) == Some(mac)
            && (forall base :: Merge(msg.items, base) == base)
            && FromItems(msg.items) == c
  {
    hide Profile, GoodForRouter, GoodForModem, TypesFit, CleanAddrs, ChangeItems, FromItems, Merge, Overlay, TypeSet;
    var tail := ChangeItems(c);
    var items := [Mac(mac)] + tail;
    ChangeProfile(c);
    ProfileSingle(Mac(mac));
    ProfileConcat([Mac(mac)], tail, {7}, TypeSet(tail));
    LargeMessagesFit({7} + TypeSet(tail));
    assert items[0] == Mac(mac);
    GoodByProfile(Message(DESTINATION_UPDATE, items), {7} + TypeSet(tail), Some(mac), None, initial, format);
    ReadChange([Mac(mac)], {7}, c);
    ProfileWithout(items, {7} + TypeSet(tail));
  }

  lemma LinkResponseGood(mac: MacAddress, code: u8, text: Text, m: LinkMetrics, initial: LinkMetrics,
                         format: MacAddressFormat)
    requires Accepts(format, mac) && MetricsEncodable(m) && SameSupport(m, initial)
    requires !TerminatesSession(code) && Encodable(Status(code, text))
    ensures var msg := BuildLinkResponse(mac, code, text, m);
            && GoodForRouter(msg, initial, format)
            && ExtractMac(msg.items) == Some(mac)
            && (forall base :: Merge(msg.items, base) == Overlay(m, base))
  {
    hide Profile, GoodForRouter, GoodForModem, TypesFit, CleanAddrs, ChangeItems, FromItems, Merge, Overlay, TypeSet,
         SupportTypes, MetricItems;
    var x, y := Mac(mac), Status(code, text);
    var items := [x, y] + MetricItems(m);
    var types := {7} + {1} + SupportTypes(m);
    ProfileSingle(x);
    ProfileSingle(y);
    ProfileConcat([x], [y], {7}, {1});
    assert [x] + [y] == [x, y];
    MetricProfile(m);
    SupportAreMetrics(m);
    SupportMonotone(m, initial);
    ProfileConcat([x, y], MetricItems(m), {7} + {1}, SupportTypes(m));
    LargeMessagesFit(types);
    assert items[0] == x && items[1] == y;
    GoodByProfile(Message(LINK_CHARACTERISTICS_RESPONSE, items), types, Some(mac), Some(y), initial, format);
    MergeAfter([x, y], {7} + {1}, m);
  }

  lemma LinkRequestGood(mac: MacAddress, r: LinkCharacteristics, format: MacAddressFormat)
    requires Accepts(format, mac)
    requires r.currentRx.Some? || r.currentTx.Some? || r.latency.Some?
    requires r.latency.Some? ==> Encodable(Latency(r.latency.value))
    ensures GoodForModem(BuildLinkRequest(mac, r), format)
    ensures ExtractMac(BuildLinkRequest(mac, r).items) == Some(mac)
  {
    hide Profile, GoodForModem, GoodForRouter;
    var a := if r.currentRx.Some? then [CurrentDataRateReceive(r.currentRx.value)] else [];
    var b := if r.currentTx.Some? then [CurrentDataRateTransmit(r.currentTx.value)] else [];
    var c := if r.latency.Some? then [Latency(r.latency.value)] else [];
    var s, t := if r.currentRx.Some? then {14} else {}, if r.currentTx.Some? then {15} else {};
    var u := if r.latency.Some? then {16} else {};
    ProfileEmpty();
    ProfileSingle(Mac(mac));
    if r.currentRx.Some? { ProfileSingle(a[0]); }
    if r.currentTx.Some? { ProfileSingle(b[0]); }
    if r.latency.Some? { ProfileSingle(c[0]); }
    ProfileConcat([Mac(mac)], a, {7}, s);
    ProfileConcat([Mac(mac)] + a, b, {7} + s, t);
    ProfileConcat([Mac(mac)] + a + b, c, {7} + s + t, u);
    var items := [Mac(mac)] + a + b + c;
    assert BuildLinkRequest(mac, r).items == items;
    assert items[0] == Mac(mac);
    RequestTypes({7} + s + t + u);
    GoodByProfile(BuildLinkRequest(mac, r), {7} + s + t + u, Some(mac), None, DEFAULT_METRICS, format);
  }

  lemma RequestTypes(types: set<u16>)
    requires 7 in types && types <= {7, 14, 15, 16} && types != {7}
    ensures TypesFit(LINK_CHARACTERISTICS_REQUEST, false, types)
  {
  }

  // --- The handshake --------------------------------------------------------

  lemma HandshakeHead(config: SessionConfig)
    requires ConfigEncodable(config)
    ensures var head := [HeartbeatInterval(LocalHeartbeat(config)), PeerType(false, config.peerDescription)];
            exists e: set<u16> :: e <= {6} && Profile(head + ExtensionItems(config.extensions), {5} + {4} + e)
  {
    var x, y := HeartbeatInterval(LocalHeartbeat(config)), PeerType(false, config.peerDescription);
    ProfileSingle(x);
    ProfileSingle(y);
    ProfileConcat([x], [y], {5}, {4});
    assert [x] + [y] == [x, y];
    var tail := ExtensionItems(config.extensions);
    if |config.extensions| == 0 {
      ProfileEmpty();
      var e: set<u16> := {};
      ProfileConcat([x, y], tail, {5} + {4}, e);
      assert e <= {6};
    } else {
      ProfileSingle(tail[0]);
      ProfileConcat([x, y], tail, {5} + {4}, {6});
    }
  }

  lemma InitializationGood(config: SessionConfig, local: seq<u16>)
    requires ConfigEncodable(config)
    ensures var msg := BuildInitialization(config);
            && ValidateMessage(msg, false, true, local).None?
            && FatalStatus(msg.items).None?
            && FromItems(msg.items) == NO_CHANGES
            && ExtractHeartbeat(msg.items) == Some(LocalHeartbeat(config))
            && (forall x :: x in msg.items ==> !x.Mac?)
  {
    hide Profile;
    var msg := BuildInitialization(config);
    HandshakeHead(config);
    var e: set<u16> :| e <= {6} && Profile(msg.items, {5} + {4} + e);
    var types := {5} + {4} + e;
    ProfileWithout(msg.items, types);
    GrammarByProfile(msg, false, true, local, types);
    HarmlessByProfile(msg.items, types, None);
    CollectNothing(NO_CHANGES, msg.items);
    forall x | x in msg.items ensures !x.Mac? { ProfileType(msg.items, types, x); }
  }

  lemma ResponseTypes(t: u16, m: LinkMetrics)
    requires t == 1 || t == 4 || t == 5 || t == 6 || IsMetricType(t)
    ensures AllowedType(SESSION_INITIALIZATION_RESPONSE, true, t)
  {
  }

  lemma RequiredOf(mt: u16, types: set<u16>)
    requires mt == SESSION_INITIALIZATION_RESPONSE
    requires 1 in types && 4 in types && 5 in types
    requires 12 in types && 13 in types && 14 in types && 15 in types && 16 in types
    ensures forall t :: t in RequiredTypes(mt) ==> t in types
  {
  }

  lemma ResponseFits(types: set<u16>, e: set<u16>, m: LinkMetrics)
    requires e <= {6} && types == {1} + ({5} + {4} + e) + SupportTypes(m)
    ensures TypesFit(SESSION_INITIALIZATION_RESPONSE, true, types)
    ensures MetricPart(types) == SupportTypes(m)
  {
    SupportAreMetrics(m);
    forall t | t in types ensures AllowedType(SESSION_INITIALIZATION_RESPONSE, true, t) {
      assert t in {1, 4, 5, 6} || t in SupportTypes(m);
      ResponseTypes(t, m);
    }
    RequiredOf(SESSION_INITIALIZATION_RESPONSE, types);
  }

  ghost predicate ResponseHas(config: SessionConfig, types: set<u16>) {
    && Profile(BuildInitializationResponse(config).items, types)
    && TypesFit(SESSION_INITIALIZATION_RESPONSE, true, types)
    && MetricPart(types) == SupportTypes(config.initialMetrics)
    && (forall t :: t in types ==> t == 1 || t == 4 || t == 5 || t == 6 || IsMetricType(t))
  }

  function ResponseFront(config: SessionConfig): seq<DataItem> {
    [Status(SUCCESS, [])] + ([HeartbeatInterval(LocalHeartbeat(config)), PeerType(false, config.peerDescription)]
                             + ExtensionItems(config.extensions))
  }

  lemma ResponseSplits(config: SessionConfig)
    ensures BuildInitializationResponse(config).items == ResponseFront(config) + MetricItems(config.initialMetrics)
  {
    hide MetricItems, LocalHeartbeat, ExtensionItems;
  }

  /** What precedes the metrics: status, heartbeat, peer type, perhaps extensions. */
  lemma FrontProfile(config: SessionConfig) returns (e: set<u16>)
    requires ConfigEncodable(config)
    ensures e <= {6} && Profile(ResponseFront(config), {1} + ({5} + {4} + e))
  {
    hide Profile;
    var s := Status(SUCCESS, []);
    var tail := [HeartbeatInterval(LocalHeartbeat(config)), PeerType(false, config.peerDescription)]
                + ExtensionItems(config.extensions);
    HandshakeHead(config);
    e :| e <= {6} && Profile(tail, {5} + {4} + e);
    ProfileSingle(s);
    ProfileConcat([s], tail, {1}, {5} + {4} + e);
  }

  lemma FrontTypes(e: set<u16>, m: LinkMetrics)
    requires e <= {6}
    ensures var front := {1} + ({5} + {4} + e);
            && (forall t :: t in front ==> !IsMetricType(t)) && front !! SupportTypes(m)
            && (forall t :: t in front + SupportTypes(m) ==> t == 1 || t == 4 || t == 5 || t == 6 || IsMetricType(t))
  {
    SupportAreMetrics(m);
    hide SupportTypes;
    assert forall t :: t in {1} + ({5} + {4} + e) ==> t == 1 || t == 4 || t == 5 || t == 6;
  }

  /** The handshake response, as a list of items with a known set of types. */
  lemma ResponseProfile(config: SessionConfig)
    requires ConfigEncodable(config)
    ensures exists types :: ResponseHas(config, types)
    ensures Merge(BuildInitializationResponse(config).items, DEFAULT_METRICS) == config.initialMetrics
  {
    hide Profile, TypesFit, Merge, Overlay, ResponseFront, MetricItems, SupportTypes, MetricPart,
         BuildInitializationResponse;
    var m := config.initialMetrics;
    var e := FrontProfile(config);
    var front, frontTypes := ResponseFront(config), {1} + ({5} + {4} + e);
    FrontTypes(e, m);
    ResponseFits(frontTypes + SupportTypes(m), e, m);
    ResponseSplits(config);
    MetricProfile(m);
    ProfileConcat(front, MetricItems(m), frontTypes, SupportTypes(m));
    MergeAfter(front, frontTypes, m);
    OverlayDefault(m);
    assert ResponseHas(config, frontTypes + SupportTypes(m));
  }

  lemma OverlayDefault(m: LinkMetrics)
    ensures Overlay(m, DEFAULT_METRICS) == m
  {
  }

  lemma HeartbeatSecond(items: seq<DataItem>)
    requires |items| >= 2 && !items[0].HeartbeatInterval? && items[1].HeartbeatInterval?
    ensures ExtractHeartbeat(items) == Some(items[1].interval)
  {
    assert items[1..][0] == items[1];
  }

  lemma ResponseType(config: SessionConfig)
    ensures BuildInitializationResponse(config).messageType == SESSION_INITIALIZATION_RESPONSE
  {
  }

  lemma ResponseHead(config: SessionConfig)
    ensures var items := BuildInitializationResponse(config).items;
            |items| >= 3 && items[0] == Status(SUCCESS, []) && items[1] == HeartbeatInterval(LocalHeartbeat(config))
  {
  }

  lemma ResponseContent(config: SessionConfig, items: seq<DataItem>, types: set<u16>)
    requires Profile(items, types) && |items| >= 3
    requires items[0] == Status(SUCCESS, []) && items[1] == HeartbeatInterval(LocalHeartbeat(config))
    requires forall t :: t in types ==> t == 1 || t == 4 || t == 5 || t == 6 || IsMetricType(t)
    ensures forall x :: x in items ==> !x.Mac? && !IsAddressItem(x)
    ensures FatalStatus(items).None? && FromItems(items) == NO_CHANGES
    ensures ExtractHeartbeat(items) == Some(LocalHeartbeat(config)) && ExtractStatus(items) == Some(SUCCESS)
  {
    hide Profile, FromItems, FatalStatus, LocalHeartbeat;
    forall x | x in items ensures !x.Mac? && !IsAddressItem(x) { ProfileType(items, types, x); }
    HarmlessByProfile(items, types, Some(items[0]));
    NothingRead(items);
    HeartbeatSecond(items);
  }

  lemma InitializationResponseGood(config: SessionConfig, local: seq<u16>)
    requires ConfigEncodable(config)
    ensures var msg := BuildInitializationResponse(config);
            && ValidateMessage(msg, true, true, local).None?
            && FatalStatus(msg.items).None?
            && FromItems(msg.items) == NO_CHANGES
            && ExtractHeartbeat(msg.items) == Some(LocalHeartbeat(config))
            && ExtractStatus(msg.items) == Some(SUCCESS)
            && MetricTypes(msg.items) == SupportTypes(config.initialMetrics)
            && Merge(msg.items, DEFAULT_METRICS) == config.initialMetrics
            && (forall x :: x in msg.items ==> !x.Mac?)
  {
    hide Profile, TypesFit, Merge, Grammar, MetricTypes, FromItems, FatalStatus, BuildInitializationResponse,
         LocalHeartbeat, ExtractStatus, ExtractHeartbeat, MetricPart, SupportTypes;
    var msg := BuildInitializationResponse(config);
    ResponseProfile(config);
    var types :| ResponseHas(config, types);
    ResponseHead(config);
    ResponseContent(config, msg.items, types);
    assert msg.messageType == SESSION_INITIALIZATION_RESPONSE by { ResponseType(config); }
    GrammarByProfile(msg, true, true, local, types);
  }
}
