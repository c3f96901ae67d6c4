/** Data items may come in any order: two messages that differ only in the order
    of their items are judged alike by either machine and, once accepted, leave it
    in the same state up to the order of address lists
    (crates/dlep-fsm/src/session_router.rs:318-560, session_modem.rs:300-612).
 */
module Reordering {
  import opened Types
  import opened Addresses
  import opened Messages
  import opened Validation
  import opened Session
  import opened RouterSpec
  import opened ModemSpec
  import RouterInvariant
  import ModemInvariant

  // --- What the handlers read -----------------------------------------------

  ghost predicate Reordered(a: Message, b: Message) {
    a.messageType == b.messageType && Permutation(a.items, b.items)
  }

  ghost predicate SameChanges(c: AddressChanges, d: AddressChanges) {
    SameAddrs(c.added, d.added) && SameAddrs(c.removed, d.removed)
  }

  /** Everything a handler takes from a message, address lists up to order. */
  ghost predicate SameReadings(a: seq<DataItem>, b: seq<DataItem>) {
    && ExtractMac(a) == ExtractMac(b)
    && ExtractStatusItem(a) == ExtractStatusItem(b)
    && ExtractHeartbeat(a) == ExtractHeartbeat(b) && ExtractExtensions(a) == ExtractExtensions(b)
    && (HasMetrics(a) == HasMetrics(b) && MetricTypes(a) == MetricTypes(b))
    && (forall m :: Merge(a, m) == Merge(b, m))
    && SameChanges(FromItems(a), FromItems(b))
  }

  lemma OnlyOne(items: seq<DataItem>, x: DataItem, y: DataItem)
    requires Distinct(items) && x in items && y in items
    requires !x.Unknown? && !y.Unknown? && TypeId(x) == TypeId(y) && !IsAddressItem(x)
    ensures x == y
  {
    var i :| 0 <= i < |items| && items[i] == x;
    var j :| 0 <= j < |items| && items[j] == y;
    assert Conflict(x, y) && Conflict(y, x);
    assert i == j;
  }

  lemma SameMac(a: seq<DataItem>, b: seq<DataItem>)
    requires Distinct(a) && forall x :: x in a <==> x in b
    ensures ExtractMac(a) == ExtractMac(b)
  {
    hide Distinct, ExtractMac;
    MacPresent(a);
    MacPresent(b);
    if ExtractMac(a).Some? {
      var x := Mac(ExtractMac(a).value);
      var i :| 0 <= i < |b| && b[i] == x;
      OnlyOne(a, x, Mac(ExtractMac(b).value));
    }
  }

  lemma SameStatus(a: seq<DataItem>, b: seq<DataItem>)
    requires Distinct(a) && forall x :: x in a <==> x in b
    ensures ExtractStatusItem(a) == ExtractStatusItem(b)
  {
    hide Distinct, ExtractStatusItem;
    StatusPresent(a);
    StatusPresent(b);
    if ExtractStatusItem(a).Some? {
      var x := ExtractStatusItem(a).value;
      var i :| 0 <= i < |b| && b[i] == x;
      OnlyOne(a, x, ExtractStatusItem(b).value);
    }
  }

  lemma SameHeartbeat(a: seq<DataItem>, b: seq<DataItem>)
    requires Distinct(a) && forall x :: x in a <==> x in b
    ensures ExtractHeartbeat(a) == ExtractHeartbeat(b)
  {
    hide Distinct, ExtractHeartbeat;
    HeartbeatPresent(a);
    HeartbeatPresent(b);
    if ExtractHeartbeat(a).Some? {
      var x := HeartbeatInterval(ExtractHeartbeat(a).value);
      var i :| 0 <= i < |b| && b[i] == x;
      OnlyOne(a, x, HeartbeatInterval(ExtractHeartbeat(b).value));
    }
  }

  lemma SameExtensions(a: seq<DataItem>, b: seq<DataItem>)
    requires Distinct(a) && forall x :: x in a <==> x in b
    ensures ExtractExtensions(a) == ExtractExtensions(b)
  {
    hide Distinct, ExtractExtensions;
    ExtensionsPresent(a);
    ExtensionsPresent(b);
    if i :| 0 <= i < |a| && a[i].ExtensionsSupported? {
      assert a[i] in b;
      var j :| 0 <= j < |b| && b[j] == a[i];
      OnlyOne(a, ExtensionsSupported(ExtractExtensions(a)), ExtensionsSupported(ExtractExtensions(b)));
    } else {
      forall j | 0 <= j < |b| ensures !b[j].ExtensionsSupported? { assert b[j] in a; }
    }
  }

  lemma SameMetricTypes(a: seq<DataItem>, b: seq<DataItem>)
    requires forall x :: x in a <==> x in b
    ensures HasMetrics(a) == HasMetrics(b) && MetricTypes(a) == MetricTypes(b)
  {
    MetricsWithin(a, b);
    MetricsWithin(b, a);
  }

  lemma MetricsWithin(a: seq<DataItem>, b: seq<DataItem>)
    requires forall x :: x in a ==> x in b
    ensures (HasMetrics(a) ==> HasMetrics(b)) && MetricTypes(a) <= MetricTypes(b)
  {
    if HasMetrics(a) {
      var i :| 0 <= i < |a| && IsMetricItem(a[i]);
      assert a[i] in b;
      var j :| 0 <= j < |b| && b[j] == a[i];
      assert IsMetricItem(b[j]);
    }
    forall t | t in MetricTypes(a) ensures t in MetricTypes(b) {
      var i :| 0 <= i < |a| && IsMetricType(TypeId(a[i])) && TypeId(a[i]) == t;
      assert a[i] in b;
      var j :| 0 <= j < |b| && b[j] == a[i];
      assert IsMetricType(TypeId(b[j]));
    }
  }

  lemma ReadAlike(a: seq<DataItem>, b: seq<DataItem>)
    requires Permutation(a, b) && Distinct(a)
    ensures SameReadings(a, b)
  {
    PermutedMembers(a, b);
    hide Permutation, Distinct, SameAddrs;
    SameMac(a, b);
    SameStatus(a, b);
    SameHeartbeat(a, b);
    SameExtensions(a, b);
    hide ExtractMac, ExtractStatusItem, ExtractHeartbeat, ExtractExtensions;
    SameMetricTypes(a, b);
    hide HasMetrics, MetricTypes;
    forall m ensures Merge(a, m) == Merge(b, m) { MergeOrderIndependent(a, b, m); }
    AddressesOrderIndependent(a, b);
  }

  // --- Applying what was read -----------------------------------------------

  lemma SameApplied<T(!new)>(c: seq<T>, add: seq<T>, remove: seq<T>, d: seq<T>, add2: seq<T>, remove2: seq<T>)
    requires SameMembers(c, d) && SameMembers(add, add2) && SameMembers(remove, remove2)
    ensures SameMembers(Apply(c, add, remove), Apply(d, add2, remove2))
  {
    ApplyMembers(c, add, remove);
    ApplyMembers(d, add2, remove2);
    hide Apply;
  }

  lemma SameRetained<T(!new)>(add: seq<T>, remove: seq<T>, add2: seq<T>, remove2: seq<T>, taken: set<T>)
    requires SameMembers(add, add2) && SameMembers(remove, remove2)
    ensures SameMembers(RetainFree(add, remove, taken), RetainFree(add2, remove2, taken))
  {
    RetainFreeMembers(add, remove, taken);
    RetainFreeMembers(add2, remove2, taken);
    hide RetainFree;
  }

  lemma LenientAlike(c: AddressChanges, d: AddressChanges, a: DestinationAddrs, b: DestinationAddrs)
    requires Canonical(c) == c && Canonical(d) == d && SameChanges(c, d) && SameAddrs(a, b)
    ensures SameAddrs(ApplyLenient(c, a), ApplyLenient(d, b))
  {
    hide Apply, SameMembers, Canonical;
    SameApplied(a.v4, c.added.v4, c.removed.v4, b.v4, d.added.v4, d.removed.v4);
    SameApplied(a.v6, c.added.v6, c.removed.v6, b.v6, d.added.v6, d.removed.v6);
    SameApplied(a.v4Subnets, c.added.v4Subnets, c.removed.v4Subnets, b.v4Subnets, d.added.v4Subnets,
                d.removed.v4Subnets);
    SameApplied(a.v6Subnets, c.added.v6Subnets, c.removed.v6Subnets, b.v6Subnets, d.added.v6Subnets,
                d.removed.v6Subnets);
  }

  /** The lists read from distinct items have no duplicates. */
  ghost predicate NoDupAddrs(a: DestinationAddrs) {
    NoDup(a.v4) && NoDup(a.v6) && NoDup(a.v4Subnets) && NoDup(a.v6Subnets)
  }

  lemma NoDupMore<T>(s: seq<T>, x: T)
    requires NoDup(s) && x !in s
    ensures NoDup(s + [x])
  {
  }

  lemma {:induction false} DistinctLists(items: seq<DataItem>)
    requires Distinct(items)
    ensures NoDupAddrs(FromItems(items).added) && NoDupAddrs(FromItems(items).removed)
  {
    if |items| > 0 {
      var front, last := items[..|items| - 1], items[|items| - 1];
      DistinctLists(front);
      FromItemsMembers(front);
      FromItemsSubnets(front);
      NotYetRead(items);
      var c := FromItems(front);
      hide NoDup, Distinct, Carries4, Carries6;
      match last
      case Ipv4Address(add, a) => NoDupMore(if add then c.added.v4 else c.removed.v4, a);
      case Ipv6Address(add, a) => NoDupMore(if add then c.added.v6 else c.removed.v6, a);
      case Ipv4AttachedSubnet(add, n) => NoDupMore(if add then c.added.v4Subnets else c.removed.v4Subnets, Trunc4(n));
      case Ipv6AttachedSubnet(add, n) => NoDupMore(if add then c.added.v6Subnets else c.removed.v6Subnets, Trunc6(n));
      case _ =>
    }
  }

  lemma NotYetRead(items: seq<DataItem>)
    requires |items| > 0 && Distinct(items)
    ensures var front, last := items[..|items| - 1], items[|items| - 1];
            && (last.Ipv4Address? || last.Ipv6Address? ==> last !in front)
            && (last.Ipv4AttachedSubnet? ==> !Carries4(front, last.add, Trunc4(last.net4)))
            && (last.Ipv6AttachedSubnet? ==> !Carries6(front, last.add, Trunc6(last.net6)))
            && Distinct(front)
  {
    var front, last := items[..|items| - 1], items[|items| - 1];
    forall x | x in front ensures !Conflict(x, last) {
      var i :| 0 <= i < |front| && front[i] == x;
      assert !Conflict(items[i], items[|items| - 1]);
    }
  }

  lemma ValidAlike<T(!new)>(add: seq<T>, remove: seq<T>, add2: seq<T>, remove2: seq<T>, c: seq<T>, d: seq<T>)
    requires NoDup(add) && NoDup(remove) && NoDup(add2) && NoDup(remove2)
    requires SameMembers(add, add2) && SameMembers(remove, remove2) && SameMembers(c, d)
    ensures ValidFamily(add, remove) == ValidFamily(add2, remove2)
    ensures StrictFamily(c, add, remove) == StrictFamily(d, add2, remove2)
  {
    ValidFamilyMeans(add, remove);
    ValidFamilyMeans(add2, remove2);
    hide ValidFamily, NoDup;
    StrictMeans(c, add, remove);
    StrictMeans(d, add2, remove2);
    hide StrictFamily;
  }

  lemma StrictMeans<T(!new)>(c: seq<T>, add: seq<T>, remove: seq<T>)
    ensures StrictFamily(c, add, remove) <==> (forall x :: x in add ==> x !in c) && (forall x :: x in remove ==> x in c)
  {
    assert forall n :: 0 <= n < |add| ==> add[n] in add;
    assert forall n :: 0 <= n < |remove| ==> remove[n] in remove;
  }

  /** A strict change is accepted or not whatever the order, and to the same effect. */
  lemma StrictAlike(c: AddressChanges, d: AddressChanges, a: DestinationAddrs, b: DestinationAddrs)
    requires Canonical(c) == c && Canonical(d) == d && SameChanges(c, d) && SameAddrs(a, b)
    requires NoDupAddrs(c.added) && NoDupAddrs(c.removed) && NoDupAddrs(d.added) && NoDupAddrs(d.removed)
    ensures ApplyStrict(c, a).Some? == ApplyStrict(d, b).Some?
    ensures ApplyStrict(c, a).Some? ==> SameAddrs(ApplyStrict(c, a).value, ApplyStrict(d, b).value)
  {
    LenientAlike(c, d, a, b);
    hide NoDup, SameMembers, ValidFamily, StrictFamily, Canonical, ApplyLenient;
    ValidAlike(c.added.v4, c.removed.v4, d.added.v4, d.removed.v4, a.v4, b.v4);
    ValidAlike(c.added.v6, c.removed.v6, d.added.v6, d.removed.v6, a.v6, b.v6);
    ValidAlike(c.added.v4Subnets, c.removed.v4Subnets, d.added.v4Subnets, d.removed.v4Subnets, a.v4Subnets,
               b.v4Subnets);
    ValidAlike(c.added.v6Subnets, c.removed.v6Subnets, d.added.v6Subnets, d.removed.v6Subnets, a.v6Subnets,
               b.v6Subnets);
  }

  lemma SessionAddressesAlike(a: seq<DataItem>, b: seq<DataItem>, p: DestinationAddrs, q: DestinationAddrs)
    requires Permutation(a, b) && Distinct(a) && SameAddrs(p, q)
    ensures var x, y := ApplyStrict(FromItems(a), p), ApplyStrict(FromItems(b), q);
            x.Some? == y.Some? && (x.Some? ==> SameAddrs(x.value, y.value))
  {
    PermutedDistinct(a, b);
    DistinctLists(a);
    DistinctLists(b);
    AddressesOrderIndependent(a, b);
    FromItemsCanonical(a);
    FromItemsCanonical(b);
    hide FromItems, Distinct, NoDupAddrs, SameAddrs, IsCanonical, Canonical, ApplyStrict;
    StrictAlike(FromItems(a), FromItems(b), p, q);
  }

  // --- The router -----------------------------------------------------------

  ghost predicate SameDestination(d: RouterDestination, e: RouterDestination) {
    d.up == e.up && d.metrics == e.metrics && SameAddrs(d.addrs, e.addrs)
  }

  ghost predicate SameDestinations(d: map<MacAddress, RouterDestination>, e: map<MacAddress, RouterDestination>) {
    d.Keys == e.Keys && forall m :: m in d ==> SameDestination(d[m], e[m])
  }

  /** Equal states, the address lists up to order. */
  ghost predicate SameRouter(r: Router, s: Router) {
    && s == r.(peerAddresses := s.peerAddresses, destinations := s.destinations)
    && SameAddrs(r.peerAddresses, s.peerAddresses) && SameDestinations(r.destinations, s.destinations)
  }

  lemma TakenAlike(r: Router, s: Router, mac: MacAddress)
    requires SameRouter(r, s)
    ensures Taken4(r, mac) == Taken4(s, mac) && Taken6(r, mac) == Taken6(s, mac)
    ensures TakenNet4(r, mac) == TakenNet4(s, mac) && TakenNet6(r, mac) == TakenNet6(s, mac)
  {
    TakenWithin(r, s, mac);
    SameRouterBack(r, s);
    TakenWithin(s, r, mac);
    hide Taken4, Taken6, TakenNet4, TakenNet6, SameRouter;
  }

  lemma SameRouterBack(r: Router, s: Router)
    requires SameRouter(r, s)
    ensures SameRouter(s, r)
  {
  }

  lemma TakenWithin(r: Router, s: Router, mac: MacAddress)
    requires SameRouter(r, s)
    ensures Taken4(r, mac) <= Taken4(s, mac) && Taken6(r, mac) <= Taken6(s, mac)
    ensures TakenNet4(r, mac) <= TakenNet4(s, mac) && TakenNet6(r, mac) <= TakenNet6(s, mac)
  {
    assert forall m :: m in r.destinations ==>
      m in s.destinations && SameDestination(r.destinations[m], s.destinations[m]);
    hide SameRouter, SameDestinations;
    forall x | x in Taken4(r, mac) ensures x in Taken4(s, mac) {}
    forall x | x in Taken6(r, mac) ensures x in Taken6(s, mac) {}
    forall x | x in TakenNet4(r, mac) ensures x in TakenNet4(s, mac) {}
    forall x | x in TakenNet6(r, mac) ensures x in TakenNet6(s, mac) {}
  }

  lemma OwnedAlike(r: Router, s: Router, mac: MacAddress, a: Message, b: Message, x: DestinationAddrs,
                   y: DestinationAddrs)
    requires SameRouter(r, s) && SameReadings(a.items, b.items) && SameAddrs(x, y)
    ensures SameAddrs(ApplyLenient(OwnedChanges(r, mac, a), x), ApplyLenient(OwnedChanges(s, mac, b), y))
  {
    TakenAlike(r, s, mac);
    RouterInvariant.OwnedCanonical(r, mac, a);
    RouterInvariant.OwnedCanonical(s, mac, b);
    var c, d := FromItems(a.items), FromItems(b.items);
    hide FromItems, RetainFree, SameMembers, Taken4, Taken6, TakenNet4, TakenNet6, ApplyLenient, Canonical,
         IsCanonical;
    SameRetained(c.added.v4, c.removed.v4, d.added.v4, d.removed.v4, Taken4(r, mac));
    SameRetained(c.added.v6, c.removed.v6, d.added.v6, d.removed.v6, Taken6(r, mac));
    SameRetained(c.added.v4Subnets, c.removed.v4Subnets, d.added.v4Subnets, d.removed.v4Subnets, TakenNet4(r, mac));
    SameRetained(c.added.v6Subnets, c.removed.v6Subnets, d.added.v6Subnets, d.removed.v6Subnets, TakenNet6(r, mac));
    LenientAlike(OwnedChanges(r, mac, a), OwnedChanges(s, mac, b), x, y);
  }

  lemma EqualAddrs(a: DestinationAddrs)
    ensures SameAddrs(a, a)
  {
  }

  /** Replacing one destination, or changing nothing else. */
  lemma ReplaceAlike(r: Router, s: Router, mac: MacAddress, d: RouterDestination, e: RouterDestination)
    requires SameRouter(r, s) && SameDestination(d, e)
    ensures SameRouter(r.(destinations := r.destinations[mac := d]), s.(destinations := s.destinations[mac := e]))
  {
    hide SameAddrs;
  }

  lemma CreateAlike(r: Router, s: Router, mac: MacAddress, a: Message, b: Message)
    requires SameRouter(r, s) && SameReadings(a.items, b.items)
    ensures SameDestination(NewDestination(r, mac, a), NewDestination(s, mac, b))
  {
    EqualAddrs(NO_ADDRS);
    OwnedAlike(r, s, mac, a, b, NO_ADDRS, NO_ADDRS);
    hide SameAddrs, ApplyLenient, OwnedChanges, SameDestinations;
  }

  lemma UpdateAlike(r: Router, s: Router, mac: MacAddress, a: Message, b: Message)
    requires SameRouter(r, s) && SameReadings(a.items, b.items) && mac in r.destinations
    ensures mac in s.destinations && SameRouter(RouterUpdate(r, mac, a).0, RouterUpdate(s, mac, b).0)
  {
    assert SameDestination(r.destinations[mac], s.destinations[mac]);
    var d, e := r.destinations[mac], s.destinations[mac];
    OwnedAlike(r, s, mac, a, b, d.addrs, e.addrs);
    var x := ApplyLenient(OwnedChanges(r, mac, a), d.addrs);
    var y := ApplyLenient(OwnedChanges(s, mac, b), e.addrs);
    hide SameAddrs, ApplyLenient, OwnedChanges, SameDestinations;
    ReplaceAlike(r, s, mac, d.(metrics := Merge(a.items, d.metrics), addrs := x),
                 e.(metrics := Merge(b.items, e.metrics), addrs := y));
  }

  lemma LinkResponseAlike(r: Router, s: Router, mac: MacAddress, a: Message, b: Message)
    requires SameRouter(r, s) && SameReadings(a.items, b.items) && mac in r.destinations
    requires ExtractStatusItem(a.items).Some?
    ensures mac in s.destinations && SameRouter(RouterLinkResponse(r, mac, a).0, RouterLinkResponse(s, mac, b).0)
  {
    assert SameDestination(r.destinations[mac], s.destinations[mac]);
    var d, e := r.destinations[mac], s.destinations[mac];
    hide SameAddrs, SameDestinations, Merge;
    ReplaceAlike(r, s, mac, d.(metrics := Merge(a.items, d.metrics)), e.(metrics := Merge(b.items, e.metrics)));
  }

  lemma SessionUpdateAlike(r: Router, s: Router, a: Message, b: Message)
    requires SameRouter(r, s) && SameReadings(a.items, b.items) && Permutation(a.items, b.items) && Distinct(a.items)
    requires ApplyStrict(FromItems(a.items), r.peerAddresses).Some?
    ensures ApplyStrict(FromItems(b.items), s.peerAddresses).Some?
    ensures SameRouter(RouterSessionUpdate(r, a).0, RouterSessionUpdate(s, b).0)
  {
    SessionAddressesAlike(a.items, b.items, r.peerAddresses, s.peerAddresses);
    hide SameAddrs, ApplyStrict, FromItems, Merge, HasMetrics, Distinct;
  }

  lemma RemoveAlike(r: Router, s: Router, mac: MacAddress)
    requires SameRouter(r, s)
    ensures SameRouter(r.(destinations := r.destinations - {mac}), s.(destinations := s.destinations - {mac}))
  {
    hide SameAddrs;
  }

  /** The verdict is the same. */
  lemma RouterJudgesAlike(r: Router, s: Router, a: Message, b: Message)
    requires SameRouter(r, s) && Reordered(a, b)
    ensures RouterCheck(r, a) == RouterCheck(s, b)
    ensures RouterVerdict(r, a).None? == RouterVerdict(s, b).None?
  {
    OrderIndependent(a, b, true, r.phase.Initializing?, r.config.extensions);
    PermutedMembers(a.items, b.items);
    FatalAlike(a.items, b.items);
    FormatAlike(a, b, r.config.macFormat);
    if ValidateMessage(a, true, r.phase.Initializing?, r.config.extensions).None? {
      hide ApplyStrict, FromItems, SameAddrs, Merge, FatalStatus, MacFormatOk, Distinct, ExtractMac, ExtractStatusItem;
      ReadAlike(a.items, b.items);
      SessionAddressesAlike(a.items, b.items, r.peerAddresses, s.peerAddresses);
      KnownAlike(r, s, ExtractMac(a.items));
      hide ValidateMessage, MetricTypes, SameReadings, RouterSpec.Known, SameRouter;
    }
  }

  lemma KnownAlike(r: Router, s: Router, mac: Option<MacAddress>)
    requires SameRouter(r, s)
    ensures RouterSpec.Known(r, mac) == RouterSpec.Known(s, mac)
  {
    if mac.Some? && mac.value in r.destinations {
      assert SameDestination(r.destinations[mac.value], s.destinations[mac.value]);
    }
  }

  lemma FormatAlike(a: Message, b: Message, format: MacAddressFormat)
    requires forall x :: x in a.items <==> x in b.items
    ensures MacFormatOk(a, format) == MacFormatOk(b, format)
  {
  }

  lemma FatalAlike(a: seq<DataItem>, b: seq<DataItem>)
    requires forall x :: x in a <==> x in b
    ensures FatalStatus(a).None? == FatalStatus(b).None?
  {
    FirstFatal(a);
    FirstFatal(b);
    hide FatalStatus, EndsSession;
    if forall i :: 0 <= i < |a| ==> !EndsSession(a[i]) {
      forall i | 0 <= i < |b| ensures !EndsSession(b[i]) { assert b[i] in a; }
    }
    if forall i :: 0 <= i < |b| ==> !EndsSession(b[i]) {
      forall i | 0 <= i < |a| ensures !EndsSession(a[i]) { assert a[i] in b; }
    }
  }

  /** Accepted alike, and with the same effect. */
  lemma RouterOrderIndependent(r: Router, s: Router, a: Message, b: Message)
    requires SameRouter(r, s) && Reordered(a, b)
    requires r.phase.InSession? && RouterSlots(r) && RouterCheck(r, a).None?
    ensures RouterSlots(s) && RouterCheck(s, b).None?
    ensures SameRouter(RouterAccept(r, a).0, RouterAccept(s, b).0)
  {
    RouterJudgesAlike(r, s, a, b);
    SlotsAlike(r, s);
    RouterSpec.AcceptedMessage(r, a);
    RouterSpec.AcceptedMessage(s, b);
    assert Distinct(a.items);
    ReadAlike(a.items, b.items);
    hide Distinct, RouterCheck, RouterSlots;
    AcceptAlike(r, s, a, b);
  }

  lemma SlotsAlike(r: Router, s: Router)
    requires SameRouter(r, s) && RouterSlots(r)
    ensures RouterSlots(s)
  {
    forall mac | mac in s.destinations ensures s.destinations[mac].up {
      assert SameDestination(r.destinations[mac], s.destinations[mac]);
    }
  }

  lemma CreatedAlike(r: Router, s: Router, mac: MacAddress, a: Message, b: Message)
    requires SameRouter(r, s) && SameReadings(a.items, b.items)
    ensures SameRouter(RouterUp(r, mac, a).0, RouterUp(s, mac, b).0)
    ensures SameRouter(RouterAnnounceResponse(r, mac, a).0, RouterAnnounceResponse(s, mac, b).0)
  {
    hide NewDestination, SameReadings, SameDestination, SameDestinations, SameAddrs;
    CreateAlike(r, s, mac, a, b);
    var d, e := NewDestination(r, mac, a), NewDestination(s, mac, b);
    ReplaceAlike(r, s, mac, d, e);
    assert ExtractStatus(a.items) == ExtractStatus(b.items) by { StatusAlike(a.items, b.items); }
    hide ExtractStatus;
  }

  lemma StatusAlike(a: seq<DataItem>, b: seq<DataItem>)
    requires SameReadings(a, b)
    ensures ExtractStatus(a) == ExtractStatus(b)
  {
  }

  lemma MacAlike(a: seq<DataItem>, b: seq<DataItem>)
    requires SameReadings(a, b)
    ensures ExtractMac(a) == ExtractMac(b)
  {
  }

  lemma RemovedAlike(r: Router, s: Router, mac: MacAddress, a: Message, b: Message)
    requires SameRouter(r, s) && SameReadings(a.items, b.items)
    ensures SameRouter(RouterDown(r, mac, a).0, RouterDown(s, mac, b).0)
    ensures ExtractStatus(a.items) == ExtractStatus(b.items)
    ensures ExtractStatus(a.items).Some? ==>
              SameRouter(RouterDownResponse(r, mac, a).0, RouterDownResponse(s, mac, b).0)
  {
    StatusAlike(a.items, b.items);
    RemoveAlike(r, s, mac);
    hide ExtractStatus, SameReadings, SameDestinations, SameAddrs;
  }

  lemma AcceptAlike(r: Router, s: Router, a: Message, b: Message)
    requires SameRouter(r, s) && Reordered(a, b) && SameReadings(a.items, b.items) && Distinct(a.items)
    requires r.phase.InSession? && RouterSlots(r) && RouterCheck(r, a).None?
    requires RouterSlots(s) && RouterCheck(s, b).None?
    ensures SameRouter(RouterAccept(r, a).0, RouterAccept(s, b).0)
  {
    RouterSpec.AcceptedMessage(r, a);
    RouterSpec.AcceptedMessage(s, b);
    MacAlike(a.items, b.items);
    hide RouterCheck, RouterSlots, SameAddrs, SameDestinations, RouterUpdate, RouterLinkResponse, RouterSessionUpdate,
         RouterUp, RouterAnnounceResponse, RouterDown, RouterDownResponse, Distinct, Permutation, FromItems,
         ApplyStrict, Merge, ExtractMac, ExtractStatusItem, SameReadings, ResetAction;
    var mt := a.messageType;
    if mt == SESSION_UPDATE {
      hide SameRouter;
      SessionUpdateAlike(r, s, a, b);
    } else if ExtractMac(a.items).Some? && mt >= DESTINATION_UP && mt != HEARTBEAT {
      hide SameRouter;
      var mac := ExtractMac(a.items).value;
      if mt == DESTINATION_UPDATE { UpdateAlike(r, s, mac, a, b); }
      else if mt == DESTINATION_UP || mt == DESTINATION_ANNOUNCE_RESPONSE { CreatedAlike(r, s, mac, a, b); }
      else if mt == DESTINATION_DOWN || mt == DESTINATION_DOWN_RESPONSE { RemovedAlike(r, s, mac, a, b); }
      else if mt == LINK_CHARACTERISTICS_RESPONSE { LinkResponseAlike(r, s, mac, a, b); }
    }
  }

  lemma AcceptedCheck(r: Router, msg: Message)
    requires (r.phase.Initializing? || r.phase.InSession?) && RouterVerdict(r, msg).None?
    ensures RouterCheck(r, msg).None?
  {
    hide RouterCheck;
  }

  lemma CheckedDistinct(r: Router, msg: Message)
    requires RouterCheck(r, msg).None?
    ensures Distinct(msg.items)
  {
    hide Distinct, MacFormatOk, FromItems, ApplyStrict, MetricTypes, ExtractMac, ValidateTransaction;
  }

  lemma EstablishAlike(r: Router, s: Router, a: Message, b: Message)
    requires SameRouter(r, s) && SameReadings(a.items, b.items)
    ensures SameRouter(RouterEstablish(r, a).0, RouterEstablish(s, b).0)
  {
    hide SameAddrs, SameDestinations, FromItems, Merge, MetricTypes, HasMetrics, ExtractHeartbeat, ExtractExtensions,
         ExtractMac, ExtractStatusItem, ResetAction;
  }

  /** The message that first brings metrics and addresses counts alike too. */
  lemma HandshakeAlike(r: Router, s: Router, a: Message, b: Message)
    requires SameRouter(r, s) && Reordered(a, b) && SameReadings(a.items, b.items)
    ensures SameRouter(RouterHandshake(r, a).0, RouterHandshake(s, b).0)
  {
    hide RouterEstablish, SameReadings, SameAddrs, SameDestinations, ExtractStatus, InitFailedText, Permutation;
    EstablishAlike(r, s, a, b);
    StatusAlike(a.items, b.items);
  }

  /** In every phase: a message that is not refused has the same effect in any
      order of its items. */
  lemma RouterReceiveAlike(r: Router, s: Router, a: Message, b: Message)
    requires SameRouter(r, s) && Reordered(a, b) && RouterSlots(r) && RouterVerdict(r, a).None?
    ensures RouterSlots(s) && RouterVerdict(s, b).None?
    ensures SameRouter(RouterReceive(r, a).0, RouterReceive(s, b).0)
  {
    hide RouterVerdict, RouterCheck, RouterSlots, RouterAccept, RouterHandshake, SameAddrs, SameDestinations,
         Permutation, SameReadings, Distinct;
    RouterJudgesAlike(r, s, a, b);
    SlotsAlike(r, s);
    if r.phase.Initializing? {
      AcceptedCheck(r, a);
      CheckedDistinct(r, a);
      ReadAlike(a.items, b.items);
      HandshakeAlike(r, s, a, b);
    } else if r.phase.InSession? {
      AcceptedCheck(r, a);
      RouterOrderIndependent(r, s, a, b);
    }
  }

  /** Reading a queue; None once a message is refused. */
  ghost function RouterReads(r: Router, q: seq<Message>): (after: Option<Router>)
    requires RouterInv(r)
    ensures after.Some? ==> RouterInv(after.value)
  {
    if |q| == 0 then Some(r) else
      match RouterReads(r, q[..|q| - 1])
      case None => None
      case Some(t) =>
        var msg := q[|q| - 1];
        if RouterVerdict(t, msg).None? then
          RouterInvariant.ReceiveKept(t, msg);
          Some(RouterReceive(t, msg).0)
        else None
  }

  ghost predicate AllReordered(p: seq<Message>, q: seq<Message>) {
    |p| == |q| && forall i :: 0 <= i < |p| ==> Reordered(p[i], q[i])
  }

  lemma SameRouterSelf(r: Router)
    ensures SameRouter(r, r)
  {
  }

  /** Over whole queues, from the handshake on: reordering items anywhere changes
      nothing but the order of address lists. */
  lemma {:induction false} RouterQueueOrderIndependent(r: Router, p: seq<Message>, q: seq<Message>)
    requires RouterInv(r) && AllReordered(p, q)
    ensures var x, y := RouterReads(r, p), RouterReads(r, q);
            x.Some? == y.Some? && (x.Some? ==> SameRouter(x.value, y.value))
  {
    if |p| == 0 {
      SameRouterSelf(r);
    } else {
      var front, last := p[..|p| - 1], p[|p| - 1];
      var front2, last2 := q[..|q| - 1], q[|q| - 1];
      RouterQueueOrderIndependent(r, front, front2);
      hide RouterInv, RouterSlots, RouterVerdict, RouterReceive, Reordered, SameRouter;
      if RouterReads(r, front).Some? {
        var t, u := RouterReads(r, front).value, RouterReads(r, front2).value;
        RouterJudgesAlike(t, u, last, last2);
        if RouterVerdict(t, last).None? {
          InvSlots(t);
          RouterReceiveAlike(t, u, last, last2);
        }
      }
    }
  }

  lemma InvSlots(r: Router)
    requires RouterInv(r)
    ensures RouterSlots(r)
  {
  }

  // --- The modem ------------------------------------------------------------

  /** Equal states, the record of the peer's addresses up to order. */
  ghost predicate SameModem(m: Modem, n: Modem) {
    n == m.(peerAddresses := n.peerAddresses) && SameAddrs(m.peerAddresses, n.peerAddresses)
  }

  lemma ModemJudgesAlike(m: Modem, n: Modem, a: Message, b: Message)
    requires SameModem(m, n) && Reordered(a, b)
    ensures ModemCheck(m, a) == ModemCheck(n, b)
    ensures ModemVerdict(m, a).None? == ModemVerdict(n, b).None?
  {
    OrderIndependent(a, b, false, m.phase.Initializing?, m.config.extensions);
    PermutedMembers(a.items, b.items);
    FatalAlike(a.items, b.items);
    FormatAlike(a, b, m.config.macFormat);
    if ValidateMessage(a, false, m.phase.Initializing?, m.config.extensions).None? {
      hide ApplyStrict, FromItems, SameAddrs, Merge, FatalStatus, MacFormatOk, Distinct, ExtractMac, ExtractStatusItem;
      ReadAlike(a.items, b.items);
      MacAlike(a.items, b.items);
      hide ValidateMessage, SameReadings, Reordered, Permutation;
      SessionAddressesAlike(a.items, b.items, m.peerAddresses, n.peerAddresses);
    }
  }

  lemma ModemOrderIndependent(m: Modem, n: Modem, a: Message, b: Message)
    requires SameModem(m, n) && Reordered(a, b)
    requires m.phase.InSession? && ModemSlots(m) && ModemCheck(m, a).None?
    ensures ModemSlots(n) && ModemCheck(n, b).None?
    ensures SameModem(ModemAccept(m, a).0, ModemAccept(n, b).0)
  {
    ModemJudgesAlike(m, n, a, b);
    ModemSpec.AcceptedMessage(m, a);
    ModemSpec.AcceptedMessage(n, b);
    assert Distinct(a.items);
    hide Distinct, ModemCheck, SameAddrs, ApplyStrict, FromItems, ExtractMac, ExtractStatus, SameReadings, Permutation,
         RequiredTypes, ModemSlots, ModemUpResponse, ModemAnnounce, ModemDown, ModemDownResponse, ModemLinkRequest;
    ReadAlike(a.items, b.items);
    MacAlike(a.items, b.items);
    if a.messageType == SESSION_UPDATE {
      SessionAddressesAlike(a.items, b.items, m.peerAddresses, n.peerAddresses);
    } else if ExtractMac(a.items).Some? {
      HandlersAlike(m, n, ExtractMac(a.items).value, a, b);
    }
  }

  lemma HandlersAlike(m: Modem, n: Modem, mac: MacAddress, a: Message, b: Message)
    requires SameModem(m, n) && SameReadings(a.items, b.items)
    ensures SameModem(ModemAnnounce(m, mac, a).0, ModemAnnounce(n, mac, b).0)
    ensures SameModem(ModemDownResponse(m, mac).0, ModemDownResponse(n, mac).0)
    ensures mac in m.destinations ==>
              && SameModem(ModemUpResponse(m, mac, a).0, ModemUpResponse(n, mac, b).0)
              && SameModem(ModemDown(m, mac).0, ModemDown(n, mac).0)
              && SameModem(ModemLinkRequest(m, mac, a).0, ModemLinkRequest(n, mac, b).0)
  {
    StatusAlike(a.items, b.items);
    hide SameAddrs, FromItems, ExtractStatus, CatchUp, SameReadings, BuildLinkResponse, BuildAnnounceAccepted,
         ResetAction, ExtractLinkCharacteristics;
  }

  lemma ModemAcceptedCheck(m: Modem, msg: Message)
    requires (m.phase.Initializing? || m.phase.InSession?) && ModemVerdict(m, msg).None?
    ensures ModemCheck(m, msg).None?
  {
    hide ModemCheck;
  }

  lemma ModemCheckedDistinct(m: Modem, msg: Message)
    requires ModemCheck(m, msg).None?
    ensures Distinct(msg.items)
  {
    hide Distinct, MacFormatOk, FromItems, ApplyStrict, ExtractMac, ValidateTransaction;
  }

  lemma ModemHandshakeAlike(m: Modem, n: Modem, a: Message, b: Message)
    requires SameModem(m, n) && Reordered(a, b) && SameReadings(a.items, b.items)
    ensures SameModem(ModemHandshake(m, a).0, ModemHandshake(n, b).0)
  {
    hide SameAddrs, FromItems, Merge, MetricTypes, HasMetrics, ExtractHeartbeat, ExtractExtensions, ExtractMac,
         ExtractStatusItem, ResetAction, Permutation, BuildInitializationResponse;
  }

  lemma ModemReceiveAlike(m: Modem, n: Modem, a: Message, b: Message)
    requires SameModem(m, n) && Reordered(a, b) && ModemSlots(m) && ModemVerdict(m, a).None?
    ensures ModemSlots(n) && ModemVerdict(n, b).None?
    ensures SameModem(ModemReceive(m, a).0, ModemReceive(n, b).0)
  {
    hide ModemVerdict, ModemCheck, ModemAccept, ModemHandshake, SameAddrs, Permutation, SameReadings, Distinct;
    ModemJudgesAlike(m, n, a, b);
    if m.phase.Initializing? {
      ModemAcceptedCheck(m, a);
      ModemCheckedDistinct(m, a);
      ReadAlike(a.items, b.items);
      ModemHandshakeAlike(m, n, a, b);
    } else if m.phase.InSession? {
      ModemAcceptedCheck(m, a);
      ModemOrderIndependent(m, n, a, b);
    }
  }

  ghost function ModemReads(m: Modem, q: seq<Message>): (after: Option<Modem>)
    requires ModemInv(m)
    ensures after.Some? ==> ModemInv(after.value)
  {
    if |q| == 0 then Some(m) else
      match ModemReads(m, q[..|q| - 1])
      case None => None
      case Some(t) =>
        var msg := q[|q| - 1];
        if ModemVerdict(t, msg).None? then
          ModemInvariant.ReceiveKept(t, msg);
          Some(ModemReceive(t, msg).0)
        else None
  }

  lemma SameModemSelf(m: Modem)
    ensures SameModem(m, m)
  {
  }

  lemma {:induction false} ModemQueueOrderIndependent(m: Modem, p: seq<Message>, q: seq<Message>)
    requires ModemInv(m) && AllReordered(p, q)
    ensures var x, y := ModemReads(m, p), ModemReads(m, q);
            x.Some? == y.Some? && (x.Some? ==> SameModem(x.value, y.value))
  {
    if |p| == 0 {
      SameModemSelf(m);
    } else {
      var front, last := p[..|p| - 1], p[|p| - 1];
      var front2, last2 := q[..|q| - 1], q[|q| - 1];
      ModemQueueOrderIndependent(m, front, front2);
      hide ModemInv, ModemSlots, ModemVerdict, ModemReceive, Reordered, SameModem;
      if ModemReads(m, front).Some? {
        var t, u := ModemReads(m, front).value, ModemReads(m, front2).value;
        ModemJudgesAlike(t, u, last, last2);
        if ModemVerdict(t, last).None? {
          ModemInvariant.SlotsOf(t);
          ModemReceiveAlike(t, u, last, last2);
        }
      }
    }
  }
}
