/** The message grammar (crates/dlep-fsm/src/validation.rs), sections 12.5 to
    12.20 of RFC 8175, as a declarative predicate on the items of a message; the
    loop of the source is proved to decide exactly that predicate.
 */
module Validation {
  import opened Types
  import opened Addresses
  import opened Messages
  import opened Transactions

  /** Message types a role accepts. */
  predicate Expected(mt: u16, router: bool, initializing: bool) {
    if initializing then
      mt == (if router then SESSION_INITIALIZATION_RESPONSE else SESSION_INITIALIZATION)
    else
      || mt == SESSION_UPDATE || mt == SESSION_UPDATE_RESPONSE
      || mt == SESSION_TERMINATION || mt == HEARTBEAT
      || (if router then
            || mt == DESTINATION_UP || mt == DESTINATION_ANNOUNCE_RESPONSE
            || mt == DESTINATION_DOWN || mt == DESTINATION_DOWN_RESPONSE
            || mt == DESTINATION_UPDATE || mt == LINK_CHARACTERISTICS_RESPONSE
          else
            || mt == DESTINATION_UP_RESPONSE || mt == DESTINATION_ANNOUNCE
            || mt == DESTINATION_DOWN || mt == DESTINATION_DOWN_RESPONSE
            || mt == LINK_CHARACTERISTICS_REQUEST)
  }

  /** Item types a message type may carry. */
  predicate AllowedType(mt: u16, router: bool, t: u16) {
    var address := IsAddressType(t);
    var metric := IsMetricType(t);
    if mt == SESSION_INITIALIZATION then
      t == PEER_TYPE || t == HEARTBEAT_INTERVAL || t == EXTENSIONS_SUPPORTED || address
    else if mt == SESSION_INITIALIZATION_RESPONSE then
      t == STATUS || t == PEER_TYPE || t == HEARTBEAT_INTERVAL || t == EXTENSIONS_SUPPORTED || address || metric
    else if mt == SESSION_UPDATE then address || (router && metric)
    else if mt == SESSION_UPDATE_RESPONSE || mt == SESSION_TERMINATION then t == STATUS
    else if mt == DESTINATION_UP || mt == DESTINATION_UPDATE then t == MAC_ADDRESS || address || metric
    else if mt == DESTINATION_UP_RESPONSE || mt == DESTINATION_DOWN_RESPONSE then t == MAC_ADDRESS || t == STATUS
    else if mt == DESTINATION_ANNOUNCE then t == MAC_ADDRESS || t == IPV4_ADDRESS || t == IPV6_ADDRESS
    else if mt == DESTINATION_ANNOUNCE_RESPONSE then t == MAC_ADDRESS || t == STATUS || address || metric
    else if mt == LINK_CHARACTERISTICS_RESPONSE then t == MAC_ADDRESS || t == STATUS || metric
    else if mt == DESTINATION_DOWN then t == MAC_ADDRESS
    else if mt == LINK_CHARACTERISTICS_REQUEST then
      t == MAC_ADDRESS || t == CURRENT_DATA_RATE_RECEIVE || t == CURRENT_DATA_RATE_TRANSMIT || t == LATENCY
    else false
  }

  function RequiredTypes(mt: u16): seq<u16> {
    if mt == SESSION_INITIALIZATION then [PEER_TYPE, HEARTBEAT_INTERVAL]
    else if mt == SESSION_INITIALIZATION_RESPONSE then
      [STATUS, PEER_TYPE, HEARTBEAT_INTERVAL, MAXIMUM_DATA_RATE_RECEIVE, MAXIMUM_DATA_RATE_TRANSMIT,
       CURRENT_DATA_RATE_RECEIVE, CURRENT_DATA_RATE_TRANSMIT, LATENCY]
    else if mt == SESSION_UPDATE_RESPONSE || mt == SESSION_TERMINATION then [STATUS]
    else if mt == DESTINATION_UP_RESPONSE || mt == DESTINATION_ANNOUNCE_RESPONSE
            || mt == DESTINATION_DOWN_RESPONSE || mt == LINK_CHARACTERISTICS_RESPONSE then [MAC_ADDRESS, STATUS]
    else if mt == DESTINATION_UP || mt == DESTINATION_ANNOUNCE || mt == DESTINATION_DOWN
            || mt == DESTINATION_UPDATE || mt == LINK_CHARACTERISTICS_REQUEST then [MAC_ADDRESS]
    else []
  }

  predicate Unrecognized(items: seq<DataItem>, local: seq<u16>) {
    exists x :: x in items && x.ExtensionsSupported? && exists id :: id in x.ids && id !in local
  }

  /** An item that may stand in the message by itself. */
  predicate ItemOk(mt: u16, router: bool, initializing: bool, unrecognized: bool, x: DataItem) {
    if x.Unknown? then initializing && unrecognized
    else
      && AllowedType(mt, router, TypeId(x))
      && Encodable(x)
      && (initializing && IsAddressItem(x) ==> x.add)
  }

  /** Two items that may not stand together: equal addresses, or one type twice. */
  predicate Conflict(x: DataItem, y: DataItem) {
    && !x.Unknown? && !y.Unknown?
    && TypeId(x) == TypeId(y)
    && (IsAddressItem(x) ==> CanonicalItem(x) == CanonicalItem(y))
  }

  predicate Distinct(items: seq<DataItem>) {
    forall i, j :: 0 <= i < j < |items| ==> !Conflict(items[i], items[j])
  }

  lemma OneOfAType(items: seq<DataItem>, x: DataItem, y: DataItem)
    requires Distinct(items) && x in items && y in items
    requires !x.Unknown? && !y.Unknown? && TypeId(x) == TypeId(y) && !IsAddressItem(x)
    ensures x == y
  {
    hide Distinct;
    if x != y { ApartIn(items, x, y); }
  }

  predicate HasType(items: seq<DataItem>, t: u16) {
    exists x :: x in items && !x.Unknown? && TypeId(x) == t
  }

  predicate Grammar(msg: Message, router: bool, initializing: bool, local: seq<u16>) {
    var items := msg.items;
    && (forall x :: x in items ==>
          ItemOk(msg.messageType, router, initializing, Unrecognized(items, local), x))
    && Distinct(items)
    && (forall t :: t in RequiredTypes(msg.messageType) ==> HasType(items, t))
    && (msg.messageType == LINK_CHARACTERISTICS_REQUEST ==>
          HasType(items, CURRENT_DATA_RATE_RECEIVE) || HasType(items, CURRENT_DATA_RATE_TRANSMIT)
          || HasType(items, LATENCY))
  }

  /** The status code a message is rejected with, None when it is accepted. */
  function ValidateMessage(msg: Message, router: bool, initializing: bool, local: seq<u16>): Option<u8> {
    if !(1 <= msg.messageType <= 16) then Some(UNKNOWN_MESSAGE)
    else if !Expected(msg.messageType, router, initializing) then Some(UNEXPECTED_MESSAGE)
    else if !Grammar(msg, router, initializing, local) then Some(INVALID_DATA)
    else None
  }

  // --- The source's loop decides the grammar --------------------------------

  function KeysOf(items: seq<DataItem>): set<DataItem> {
    set i | 0 <= i < |items| && IsAddressItem(items[i]) :: CanonicalItem(items[i])
  }

  function TypesOf(items: seq<DataItem>): set<u16> {
    set i | 0 <= i < |items| && !IsAddressItem(items[i]) && !items[i].Unknown? :: TypeId(items[i])
  }

  /** An address conflicts only with an address, another item only with its type. */
  lemma ConflictMeans(y: DataItem, x: DataItem)
    ensures Conflict(y, x) <==>
              && !x.Unknown?
              && if IsAddressItem(x) then IsAddressItem(y) && CanonicalItem(y) == CanonicalItem(x)
                 else !IsAddressItem(y) && !y.Unknown? && TypeId(y) == TypeId(x)
  {
  }

  lemma DistinctLast(items: seq<DataItem>, x: DataItem)
    requires Distinct(items)
    ensures Distinct(items + [x]) <==> forall i :: 0 <= i < |items| ==> !Conflict(items[i], x)
  {
    hide Conflict;
    var all := items + [x];
    assert all[|items|] == x && forall i :: 0 <= i < |items| ==> all[i] == items[i];
    if Distinct(all) {
      forall i | 0 <= i < |items| ensures !Conflict(items[i], x) { assert !Conflict(all[i], all[|items|]); }
    }
  }

  lemma ExtendDistinct(items: seq<DataItem>, x: DataItem)
    requires Distinct(items)
    ensures Distinct(items + [x]) <==>
            x.Unknown? ||
            (if IsAddressItem(x) then CanonicalItem(x) !in KeysOf(items) else TypeId(x) !in TypesOf(items))
  {
    hide Conflict, IsAddressItem, CanonicalItem, TypeId, Distinct;
    DistinctLast(items, x);
    forall i | 0 <= i < |items|
      ensures Conflict(items[i], x) <==>
                && !x.Unknown?
                && if IsAddressItem(x) then IsAddressItem(items[i]) && CanonicalItem(items[i]) == CanonicalItem(x)
                   else !IsAddressItem(items[i]) && !items[i].Unknown? && TypeId(items[i]) == TypeId(x)
    {
      ConflictMeans(items[i], x);
    }
    NotUnknown(x);
  }

  lemma NotUnknown(x: DataItem)
    ensures IsAddressItem(x) ==> !x.Unknown?
  {
  }

  lemma ExtendKeys(items: seq<DataItem>, x: DataItem)
    ensures KeysOf(items + [x]) == KeysOf(items) + (if IsAddressItem(x) then {CanonicalItem(x)} else {})
    ensures TypesOf(items + [x]) == TypesOf(items) + (if IsAddressItem(x) || x.Unknown? then {} else {TypeId(x)})
  {
    var all := items + [x];
    assert forall i :: 0 <= i < |items| ==> all[i] == items[i];
    assert all[|items|] == x;
  }

  lemma PrefixDistinct(items: seq<DataItem>, n: nat)
    requires n <= |items| && Distinct(items)
    ensures Distinct(items[..n])
  {
  }

  lemma TypesMeanHasType(items: seq<DataItem>, t: u16)
    requires !IsAddressType(t)
    ensures t in TypesOf(items) <==> HasType(items, t)
  {
    if t in TypesOf(items) {
      var i :| 0 <= i < |items| && !IsAddressItem(items[i]) && !items[i].Unknown? && TypeId(items[i]) == t;
      assert items[i] in items;
    }
  }

  method CheckMessage(msg: Message, router: bool, initializing: bool, local: seq<u16>) returns (code: Option<u8>)
    ensures code == ValidateMessage(msg, router, initializing, local)
  {
    var mt := msg.messageType;
    if !(1 <= mt <= 16) { return Some(UNKNOWN_MESSAGE); }
    if !Expected(mt, router, initializing) { return Some(UNEXPECTED_MESSAGE); }
    var types: set<u16>, addresses: set<DataItem> := {}, {};
    var unrecognized := Unrecognized(msg.items, local);
    assert msg.items[..0] == [];
    for i := 0 to |msg.items|
      invariant types == TypesOf(msg.items[..i])
      invariant addresses == KeysOf(msg.items[..i])
      invariant Distinct(msg.items[..i])
      invariant forall x :: x in msg.items[..i] ==> ItemOk(mt, router, initializing, unrecognized, x)
    {
      var item := msg.items[i];
      var t := TypeId(item);
      var front := msg.items[..i];
      assert msg.items[..i + 1] == front + [item];
      ExtendDistinct(front, item);
      ExtendKeys(front, item);
      assert item in msg.items;
      if item.Unknown? {
        if !(initializing && unrecognized) { return Some(INVALID_DATA); }
        continue;
      }
      if !AllowedType(mt, router, t) || !Encodable(item) { return Some(INVALID_DATA); }
      if IsAddressItem(item) {
        if CanonicalItem(item) in addresses {
          assert !Distinct(msg.items[..i + 1]);
          assert !Distinct(msg.items) by { if Distinct(msg.items) { PrefixDistinct(msg.items, i + 1); } }
          return Some(INVALID_DATA);
        }
        addresses := addresses + {CanonicalItem(item)};
        if initializing && !item.add { return Some(INVALID_DATA); }
      } else {
        if t in types {
          assert !Distinct(msg.items[..i + 1]);
          assert !Distinct(msg.items) by { if Distinct(msg.items) { PrefixDistinct(msg.items, i + 1); } }
          return Some(INVALID_DATA);
        }
        types := types + {t};
      }
    }
    assert msg.items[..|msg.items|] == msg.items;
    var required := RequiredTypes(mt);
    forall t | t in required ensures t in types <==> HasType(msg.items, t) {
      TypesMeanHasType(msg.items, t);
    }
    TypesMeanHasType(msg.items, CURRENT_DATA_RATE_RECEIVE);
    TypesMeanHasType(msg.items, CURRENT_DATA_RATE_TRANSMIT);
    TypesMeanHasType(msg.items, LATENCY);
    if exists t :: t in required && t !in types { return Some(INVALID_DATA); }
    if mt == LINK_CHARACTERISTICS_REQUEST
       && CURRENT_DATA_RATE_RECEIVE !in types && CURRENT_DATA_RATE_TRANSMIT !in types && LATENCY !in types {
      return Some(INVALID_DATA);
    }
    return None;
  }

  // --- Order of the items does not matter -----------------------------------

  ghost predicate Permutation(a: seq<DataItem>, b: seq<DataItem>) { multiset(a) == multiset(b) }

  lemma {:induction false} TwiceInMultiset(s: seq<DataItem>, x: DataItem)
    ensures multiset(s)[x] >= 2 <==> exists i, j :: 0 <= i < j < |s| && s[i] == x && s[j] == x
  {
    if |s| > 0 {
      var front, last := s[..|s| - 1], s[|s| - 1];
      assert s == front + [last];
      TwiceInMultiset(front, x);
      if last == x && multiset(front)[x] >= 1 {
        assert x in front;
        var i :| 0 <= i < |front| && front[i] == x;
        assert s[i] == x && s[|s| - 1] == x;
      }
      if exists i, j :: 0 <= i < j < |s| && s[i] == x && s[j] == x {
        var i, j :| 0 <= i < j < |s| && s[i] == x && s[j] == x;
        assert x in front by { assert front[i] == x; }
        if j < |s| - 1 { assert front[j] == x; }
      }
    }
  }

  lemma PermutedMembers(a: seq<DataItem>, b: seq<DataItem>)
    requires Permutation(a, b)
    ensures forall x :: x in a <==> x in b
  {
    forall x ensures x in a <==> x in b {
      assert x in a <==> x in multiset(a);
      assert x in b <==> x in multiset(b);
    }
  }

  lemma ConflictSymmetric(x: DataItem, y: DataItem)
    ensures Conflict(x, y) <==> Conflict(y, x)
  {
    ConflictMeans(x, y);
    ConflictMeans(y, x);
  }

  lemma ApartIn(a: seq<DataItem>, x: DataItem, y: DataItem)
    requires Distinct(a) && x in a && y in a && x != y
    ensures !Conflict(x, y)
  {
    hide Conflict;
    var p :| 0 <= p < |a| && a[p] == x;
    var q :| 0 <= q < |a| && a[q] == y;
    assert p < q || q < p;
    ConflictSymmetric(x, y);
  }

  lemma PermutedDistinct(a: seq<DataItem>, b: seq<DataItem>)
    requires Permutation(a, b) && Distinct(a)
    ensures Distinct(b)
  {
    PermutedMembers(a, b);
    hide Conflict;
    forall i, j | 0 <= i < j < |b| ensures !Conflict(b[i], b[j]) {
      assert b[i] in b && b[j] in b;
      if b[i] == b[j] { OnceIn(a, b, i, j); } else { ApartIn(a, b[i], b[j]); }
    }
  }

  /** What stands twice in one list stands twice in the other. */
  lemma OnceIn(a: seq<DataItem>, b: seq<DataItem>, i: nat, j: nat)
    requires Permutation(a, b) && Distinct(a) && i < j < |b| && b[i] == b[j]
    ensures !Conflict(b[i], b[j])
  {
    hide Conflict, Distinct;
    TwiceInMultiset(b, b[i]);
    TwiceInMultiset(a, b[i]);
    assert multiset(a)[b[i]] == multiset(b)[b[i]];
    assert exists p, q :: 0 <= p < q < |a| && a[p] == b[i] && a[q] == b[i];
    var p, q :| 0 <= p < q < |a| && a[p] == b[i] && a[q] == b[i];
    assert !Conflict(a[p], a[q]) by { DistinctAt(a, p, q); }
  }

  lemma DistinctAt(a: seq<DataItem>, p: nat, q: nat)
    requires Distinct(a) && p < q < |a|
    ensures !Conflict(a[p], a[q])
  {
  }

  /** The whole result, accepting or not, is independent of item order. */
  lemma OrderIndependent(a: Message, b: Message, router: bool, initializing: bool, local: seq<u16>)
    requires a.messageType == b.messageType && Permutation(a.items, b.items)
    ensures ValidateMessage(a, router, initializing, local) == ValidateMessage(b, router, initializing, local)
  {
    PermutedMembers(a.items, b.items);
    if Distinct(a.items) { PermutedDistinct(a.items, b.items); }
    if Distinct(b.items) { PermutedDistinct(b.items, a.items); }
    assert Unrecognized(a.items, local) == Unrecognized(b.items, local);
    assert forall t :: HasType(a.items, t) == HasType(b.items, t);
  }

  /** `r` holds the value of item `x`. */
  ghost predicate Reports(x: DataItem, r: LinkMetrics) { MergeItem(x, r) == r }

  /** `r` and `m` agree on the field of metric type `t`. */
  ghost predicate SameField(t: u16, r: LinkMetrics, m: LinkMetrics) {
    && (t == 12 ==> r.maxRx == m.maxRx) && (t == 13 ==> r.maxTx == m.maxTx)
    && (t == 14 ==> r.currentRx == m.currentRx) && (t == 15 ==> r.currentTx == m.currentTx)
    && (t == 16 ==> r.latency == m.latency) && (t == 17 ==> r.resources == m.resources)
    && (t == 18 ==> r.rlqRx == m.rlqRx) && (t == 19 ==> r.rlqTx == m.rlqTx) && (t == 20 ==> r.mtu == m.mtu)
  }

  /** A further item sets its own field and leaves what others reported. */
  lemma ReportStep(x: DataItem, last: DataItem, before: LinkMetrics)
    requires Reports(x, before) && !Conflict(x, last)
    ensures Reports(x, MergeItem(last, before))
  {
  }

  lemma ReportLast(last: DataItem, before: LinkMetrics)
    ensures Reports(last, MergeItem(last, before))
    ensures forall t :: IsMetricType(t) && (last.Unknown? || TypeId(last) != t) ==>
              SameField(t, MergeItem(last, before), before)
  {
  }

  /** From an accepted message each metric item sets its own field, and no other is touched. */
  lemma {:induction false} MergeDetermined(items: seq<DataItem>, m: LinkMetrics)
    requires Distinct(items)
    ensures forall x :: x in items ==> Reports(x, Merge(items, m))
    ensures forall t :: IsMetricType(t) && !HasType(items, t) ==> SameField(t, Merge(items, m), m)
  {
    if |items| > 0 {
      var front, last := items[..|items| - 1], items[|items| - 1];
      assert items == front + [last];
      MergeDetermined(front, m);
      var before, after := Merge(front, m), Merge(items, m);
      hide Reports, MergeItem, Conflict;
      ReportLast(last, before);
      forall x | x in items ensures Reports(x, after) {
        if x in front {
          var i :| 0 <= i < |front| && front[i] == x;
          assert !Conflict(items[i], items[|items| - 1]);
          ReportStep(x, last, before);
        }
      }
      forall t | IsMetricType(t) && !HasType(items, t) ensures SameField(t, after, m) {
        assert last in items;
        assert SameField(t, before, m);
      }
    }
  }

  lemma SameFieldsEqual(r: LinkMetrics, s: LinkMetrics)
    requires forall t :: IsMetricType(t) ==> SameField(t, r, s)
    ensures r == s
  {
    assert SameField(12, r, s) && SameField(13, r, s) && SameField(14, r, s) && SameField(15, r, s)
        && SameField(16, r, s) && SameField(17, r, s) && SameField(18, r, s) && SameField(19, r, s)
        && SameField(20, r, s);
  }

  /** A field set by an item that both lists hold, or by neither, comes out the same. */
  lemma SameReport(a: seq<DataItem>, b: seq<DataItem>, r: LinkMetrics, s: LinkMetrics, m: LinkMetrics, t: u16)
    requires IsMetricType(t) && forall x :: x in a <==> x in b
    requires (forall x :: x in a ==> Reports(x, r)) && (forall x :: x in b ==> Reports(x, s))
    requires !HasType(a, t) ==> SameField(t, r, m)
    requires !HasType(b, t) ==> SameField(t, s, m)
    ensures SameField(t, r, s)
  {
    if HasType(a, t) {
      var x :| x in a && !x.Unknown? && TypeId(x) == t;
      assert Reports(x, r) && Reports(x, s);
    } else {
      assert !HasType(b, t);
    }
  }

  /** Metrics merged from an accepted message do not depend on item order. */
  lemma MergeOrderIndependent(a: seq<DataItem>, b: seq<DataItem>, m: LinkMetrics)
    requires Permutation(a, b) && Distinct(a)
    ensures Merge(a, m) == Merge(b, m)
  {
    PermutedMembers(a, b);
    PermutedDistinct(a, b);
    hide Merge, Distinct, HasType, Reports, SameField, Permutation;
    MergeDetermined(a, m);
    MergeDetermined(b, m);
    var r, s := Merge(a, m), Merge(b, m);
    forall t | IsMetricType(t) ensures SameField(t, r, s) {
      SameReport(a, b, r, s, m, t);
    }
    SameFieldsEqual(r, s);
  }

  /** Membership of the lists read from a message, which order cannot change. */
  lemma {:induction false} FromItemsMembers(items: seq<DataItem>)
    ensures forall a :: a in FromItems(items).added.v4 <==> Ipv4Address(true, a) in items
    ensures forall a :: a in FromItems(items).removed.v4 <==> Ipv4Address(false, a) in items
    ensures forall a :: a in FromItems(items).added.v6 <==> Ipv6Address(true, a) in items
    ensures forall a :: a in FromItems(items).removed.v6 <==> Ipv6Address(false, a) in items
  {
    if |items| > 0 {
      FromItemsMembers(items[..|items| - 1]);
      assert items == items[..|items| - 1] + [items[|items| - 1]];
    }
  }

  predicate Carries4(items: seq<DataItem>, add: bool, n: Ipv4Net) {
    exists x :: x in items && x.Ipv4AttachedSubnet? && x.add == add && Trunc4(x.net4) == n
  }

  predicate Carries6(items: seq<DataItem>, add: bool, n: Ipv6Net) {
    exists x :: x in items && x.Ipv6AttachedSubnet? && x.add == add && Trunc6(x.net6) == n
  }

  lemma CarriesStep(front: seq<DataItem>, last: DataItem)
    ensures forall add, n :: Carries4(front + [last], add, n) <==> Carries4(front, add, n) || Carries4([last], add, n)
    ensures forall add, n :: Carries6(front + [last], add, n) <==> Carries6(front, add, n) || Carries6([last], add, n)
    ensures forall add, n :: Carries4([last], add, n) <==>
              last.Ipv4AttachedSubnet? && last.add == add && Trunc4(last.net4) == n
    ensures forall add, n :: Carries6([last], add, n) <==>
              last.Ipv6AttachedSubnet? && last.add == add && Trunc6(last.net6) == n
  {
    assert forall x :: x in front + [last] <==> x in front || x in [last];
    assert last in [last];
  }

  lemma {:induction false} FromItemsSubnets(items: seq<DataItem>)
    ensures forall n :: n in FromItems(items).added.v4Subnets <==> Carries4(items, true, n)
    ensures forall n :: n in FromItems(items).removed.v4Subnets <==> Carries4(items, false, n)
    ensures forall n :: n in FromItems(items).added.v6Subnets <==> Carries6(items, true, n)
    ensures forall n :: n in FromItems(items).removed.v6Subnets <==> Carries6(items, false, n)
  {
    if |items| > 0 {
      var front, last := items[..|items| - 1], items[|items| - 1];
      FromItemsSubnets(front);
      assert items == front + [last];
      CarriesStep(front, last);
    }
  }

  lemma AddressesOrderIndependent(a: seq<DataItem>, b: seq<DataItem>)
    requires Permutation(a, b)
    ensures SameAddrs(FromItems(a).added, FromItems(b).added)
    ensures SameAddrs(FromItems(a).removed, FromItems(b).removed)
  {
    PermutedMembers(a, b);
    FromItemsMembers(a);
    FromItemsMembers(b);
    FromItemsSubnets(a);
    FromItemsSubnets(b);
    assert forall add, n :: Carries4(a, add, n) == Carries4(b, add, n);
    assert forall add, n :: Carries6(a, add, n) == Carries6(b, add, n);
  }

  // --- MAC format and transactions ------------------------------------------

  predicate MacFormatOk(msg: Message, format: MacAddressFormat) {
    forall x :: x in msg.items && x.Mac? ==> Accepts(format, x.mac)
  }

  /** The request a message type answers. */
  function ResponseKind(mt: u16): Option<RequestKind> {
    if mt == DESTINATION_UP_RESPONSE then Some(DestinationUp)
    else if mt == DESTINATION_DOWN_RESPONSE then Some(DestinationDown)
    else if mt == DESTINATION_ANNOUNCE_RESPONSE then Some(DestinationAnnounce)
    else if mt == LINK_CHARACTERISTICS_RESPONSE then Some(LinkCharacteristicsKind)
    else None
  }

  /** The destination request a message type makes. */
  function DestinationRequestKind(mt: u16): Option<RequestKind> {
    if mt == DESTINATION_UP then Some(DestinationUp)
    else if mt == DESTINATION_ANNOUNCE then Some(DestinationAnnounce)
    else if mt == DESTINATION_DOWN then Some(DestinationDown)
    else if mt == LINK_CHARACTERISTICS_REQUEST then Some(LinkCharacteristicsKind)
    else None
  }

  function ValidateTransaction(mt: u16, mac: Option<MacAddress>, tx: Tx, up: bool): Option<u8> {
    if mt == SESSION_UPDATE && tx.session.Some? then Some(UNEXPECTED_MESSAGE)
    else if mt == SESSION_UPDATE_RESPONSE && tx.session != Some(SessionUpdate) then Some(UNEXPECTED_MESSAGE)
    else if mac.None? then None
    else if ResponseKind(mt).Some? then
      if Slot(tx, DestinationScope(mac.value)) != ResponseKind(mt) then Some(UNEXPECTED_MESSAGE) else None
    else if DestinationRequestKind(mt).Some? && mac.value in tx.perDestination then Some(UNEXPECTED_MESSAGE)
    else if (mt == DESTINATION_UPDATE || mt == DESTINATION_DOWN || mt == LINK_CHARACTERISTICS_REQUEST) && !up
    then Some(INVALID_DESTINATION)
    else if (mt == DESTINATION_UP || mt == DESTINATION_ANNOUNCE) && up then Some(UNEXPECTED_MESSAGE)
    else None
  }
}
