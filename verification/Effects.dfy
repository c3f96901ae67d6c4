/** What an accepted message of any peer does, item by item: which fields it sets,
    which addresses come and go, which entries appear and vanish, how it is
    answered, and that nothing else changes.
 */
module Effects {
  import opened Types
  import opened Addresses
  import opened Messages
  import opened Transactions
  import opened Validation
  import opened Session
  import R = RouterSpec
  import M = ModemSpec
  import RI = RouterInvariant
  import MI = ModemInvariant

  // --- Items ----------------------------------------------------------------

  /** Every metric item sets its own field and every other field stays. */
  ghost predicate MetricsObey(items: seq<DataItem>, before: LinkMetrics, after: LinkMetrics) {
    && (forall x :: x in items ==> Reports(x, after))
    && (forall t :: IsMetricType(t) && !HasType(items, t) ==> SameField(t, after, before))
  }

  lemma MergeObeys(items: seq<DataItem>, before: LinkMetrics)
    requires Distinct(items)
    ensures MetricsObey(items, before, Merge(items, before))
  {
    hide Merge, Distinct, Reports, SameField, HasType;
    MergeDetermined(items, before);
  }

  /** What the peer has added is there, what it has dropped is not, the rest is as
      it was. */
  ghost predicate PeerObeys(items: seq<DataItem>, before: DestinationAddrs, after: DestinationAddrs) {
    && (forall a: u32 :: a in after.v4 <==>
          Ipv4Address(true, a) in items || (a in before.v4 && Ipv4Address(false, a) !in items))
    && (forall a: u128 :: a in after.v6 <==>
          Ipv6Address(true, a) in items || (a in before.v6 && Ipv6Address(false, a) !in items))
    && (forall n :: n in after.v4Subnets <==>
          Carries4(items, true, n) || (n in before.v4Subnets && !Carries4(items, false, n)))
    && (forall n :: n in after.v6Subnets <==>
          Carries6(items, true, n) || (n in before.v6Subnets && !Carries6(items, false, n)))
  }

  lemma StrictFamilyObeys<T(!new)>(current: seq<T>, add: seq<T>, remove: seq<T>)
    requires ValidFamily(add, remove)
    ensures forall x :: x in Apply(current, add, remove) <==> x in add || (x in current && x !in remove)
  {
    hide Apply;
    ValidFamilyMeans(add, remove);
    ApplyMembers(current, add, remove);
  }

  lemma StrictObeys(items: seq<DataItem>, before: DestinationAddrs)
    requires ApplyStrict(FromItems(items), before).Some?
    ensures PeerObeys(items, before, ApplyStrict(FromItems(items), before).value)
  {
    var c := FromItems(items);
    FromItemsCanonical(items);
    CanonicalFixed(c.added);
    CanonicalFixed(c.removed);
    assert Canonical(c) == c;
    hide Apply, ValidFamily, StrictFamily, Canonical, FromItems, Carries4, Carries6;
    StrictFamilyObeys(before.v4, c.added.v4, c.removed.v4);
    StrictFamilyObeys(before.v6, c.added.v6, c.removed.v6);
    StrictFamilyObeys(before.v4Subnets, c.added.v4Subnets, c.removed.v4Subnets);
    StrictFamilyObeys(before.v6Subnets, c.added.v6Subnets, c.removed.v6Subnets);
    FromItemsMembers(items);
    FromItemsSubnets(items);
  }

  /** Whether a destination holds an address afterwards: one that is only dropped
      goes, one that is only added comes if nobody else has it, any other stays as
      it was. */
  predicate Lands(held: bool, added: bool, dropped: bool, free: bool) {
    if dropped then added && held else held || (added && free)
  }

  ghost predicate Free4(s: R.Router, mac: MacAddress, a: u32) {
    a !in s.peerAddresses.v4 && forall m :: m in s.destinations && m != mac ==> a !in s.destinations[m].addrs.v4
  }
  ghost predicate Free6(s: R.Router, mac: MacAddress, a: u128) {
    a !in s.peerAddresses.v6 && forall m :: m in s.destinations && m != mac ==> a !in s.destinations[m].addrs.v6
  }
  ghost predicate FreeNet4(s: R.Router, mac: MacAddress, n: Ipv4Net) {
    && n !in s.peerAddresses.v4Subnets
    && forall m :: m in s.destinations && m != mac ==> n !in s.destinations[m].addrs.v4Subnets
  }
  ghost predicate FreeNet6(s: R.Router, mac: MacAddress, n: Ipv6Net) {
    && n !in s.peerAddresses.v6Subnets
    && forall m :: m in s.destinations && m != mac ==> n !in s.destinations[m].addrs.v6Subnets
  }

  ghost predicate EntryObeys(s: R.Router, mac: MacAddress, items: seq<DataItem>, before: DestinationAddrs,
                             after: DestinationAddrs) {
    && (forall a: u32 :: a in after.v4 <==>
          Lands(a in before.v4, Ipv4Address(true, a) in items, Ipv4Address(false, a) in items, Free4(s, mac, a)))
    && (forall a: u128 :: a in after.v6 <==>
          Lands(a in before.v6, Ipv6Address(true, a) in items, Ipv6Address(false, a) in items, Free6(s, mac, a)))
    && (forall n :: n in after.v4Subnets <==>
          Lands(n in before.v4Subnets, Carries4(items, true, n), Carries4(items, false, n), FreeNet4(s, mac, n)))
    && (forall n :: n in after.v6Subnets <==>
          Lands(n in before.v6Subnets, Carries6(items, true, n), Carries6(items, false, n), FreeNet6(s, mac, n)))
  }

  lemma OwnedFamilyObeys<T(!new)>(before: seq<T>, added: seq<T>, removed: seq<T>, taken: set<T>)
    ensures forall x :: x in Apply(before, RetainFree(added, removed, taken), removed) <==>
              Lands(x in before, x in added, x in removed, x !in taken)
  {
    hide Apply, RetainFree;
    RetainFreeMembers(added, removed, taken);
    ApplyMembers(before, RetainFree(added, removed, taken), removed);
  }

  lemma TakenMeans(s: R.Router, mac: MacAddress)
    ensures forall a :: a !in R.Taken4(s, mac) <==> Free4(s, mac, a)
    ensures forall a :: a !in R.Taken6(s, mac) <==> Free6(s, mac, a)
    ensures forall n :: n !in R.TakenNet4(s, mac) <==> FreeNet4(s, mac, n)
    ensures forall n :: n !in R.TakenNet6(s, mac) <==> FreeNet6(s, mac, n)
  {
  }

  lemma OwnedObeys(s: R.Router, mac: MacAddress, msg: Message, before: DestinationAddrs)
    ensures EntryObeys(s, mac, msg.items, before, ApplyLenient(R.OwnedChanges(s, mac, msg), before))
  {
    RI.OwnedCanonical(s, mac, msg);
    var c := FromItems(msg.items);
    hide Apply, RetainFree, Canonical, FromItems, Carries4, Carries6, R.Taken4, R.Taken6, R.TakenNet4, R.TakenNet6,
         Free4, Free6, FreeNet4, FreeNet6, Lands, IsCanonical;
    TakenMeans(s, mac);
    OwnedFamilyObeys(before.v4, c.added.v4, c.removed.v4, R.Taken4(s, mac));
    OwnedFamilyObeys(before.v6, c.added.v6, c.removed.v6, R.Taken6(s, mac));
    OwnedFamilyObeys(before.v4Subnets, c.added.v4Subnets, c.removed.v4Subnets, R.TakenNet4(s, mac));
    OwnedFamilyObeys(before.v6Subnets, c.added.v6Subnets, c.removed.v6Subnets, R.TakenNet6(s, mac));
    FromItemsMembers(msg.items);
    FromItemsSubnets(msg.items);
  }

  // --- The router -----------------------------------------------------------

  /** The entry of `mac` follows the items, from what was known before. */
  ghost predicate EntryFollows(s: R.Router, t: R.Router, mac: MacAddress, items: seq<DataItem>, metrics: LinkMetrics,
                               addrs: DestinationAddrs) {
    && mac in t.destinations && t.destinations[mac].up
    && MetricsObey(items, metrics, t.destinations[mac].metrics)
    && EntryObeys(s, mac, items, addrs, t.destinations[mac].addrs)
  }

  ghost predicate OthersStay(s: R.Router, t: R.Router, mac: MacAddress) {
    forall m :: m != mac ==>
      && (m in t.destinations <==> m in s.destinations)
      && (m in s.destinations ==> t.destinations[m] == s.destinations[m])
  }

  /** What each accepted message does, by its number in section 12 of RFC 8175. */
  ghost predicate RouterEffect(s: R.Router, msg: Message, t: R.Router) {
    var mt, items := msg.messageType, msg.items;
    if mt == 3 then
      && t == s.(peerAddresses := t.peerAddresses, sessionMetrics := t.sessionMetrics, destinations := t.destinations)
      && PeerObeys(items, s.peerAddresses, t.peerAddresses)
      && MetricsObey(items, s.sessionMetrics, t.sessionMetrics)
      && t.destinations.Keys == s.destinations.Keys
      && (forall m :: m in s.destinations ==>
            && t.destinations[m] == s.destinations[m].(metrics := t.destinations[m].metrics)
            && MetricsObey(items, s.destinations[m].metrics, t.destinations[m].metrics))
    else if mt == 4 then t == s.(tx := Close(s.tx, SessionScope))
    else if mt == 5 then t == s.(phase := Terminated)
    else if mt == 16 then t == s
    else
      ExtractMac(items).Some? &&
      var mac := ExtractMac(items).value;
      && t == s.(tx := t.tx, destinations := t.destinations) && OthersStay(s, t, mac)
      && t.tx == (if mt in {10, 12, 15} then Close(s.tx, DestinationScope(mac)) else s.tx)
      && (mt == 7 || (mt == 10 && Gives(items, SUCCESS, SUCCESS)) ==>
            mac !in s.destinations && EntryFollows(s, t, mac, items, s.sessionMetrics, NO_ADDRS))
      && (mt == 10 && !Gives(items, SUCCESS, SUCCESS) ==> t.destinations == s.destinations)
      && (mt == 13 ==>
            && mac in s.destinations
            && EntryFollows(s, t, mac, items, s.destinations[mac].metrics, s.destinations[mac].addrs))
      && (mt == 15 ==>
            && mac in s.destinations && mac in t.destinations
            && t.destinations[mac] == s.destinations[mac].(metrics := t.destinations[mac].metrics)
            && MetricsObey(items, s.destinations[mac].metrics, t.destinations[mac].metrics))
      && (mt == 11 || mt == 12 ==> mac in s.destinations && mac !in t.destinations)
  }

  lemma SessionEffect(s: R.Router, msg: Message)
    requires msg.messageType == 3 && Distinct(msg.items) && ApplyStrict(FromItems(msg.items), s.peerAddresses).Some?
    ensures RouterEffect(s, msg, R.RouterSessionUpdate(s, msg).0)
  {
    hide ApplyStrict, FromItems, Merge, HasMetrics, Distinct, PeerObeys, MetricsObey, ResetAction, Gives, EntryFollows,
         ExtractMac;
    StrictObeys(msg.items, s.peerAddresses);
    MergeObeys(msg.items, s.sessionMetrics);
    forall m | m in s.destinations
      ensures MetricsObey(msg.items, s.destinations[m].metrics, Merge(msg.items, s.destinations[m].metrics))
      ensures !HasMetrics(msg.items) ==> Merge(msg.items, s.destinations[m].metrics) == s.destinations[m].metrics
    {
      MergeObeys(msg.items, s.destinations[m].metrics);
      if !HasMetrics(msg.items) { Unmerged(msg.items, s.destinations[m].metrics); }
    }
  }

  lemma Unmerged(items: seq<DataItem>, m: LinkMetrics)
    requires !HasMetrics(items)
    ensures Merge(items, m) == m
  {
    MergeNothing(items, m);
  }

  lemma NewEntry(s: R.Router, mac: MacAddress, msg: Message, t: R.Router)
    requires Distinct(msg.items) && mac in t.destinations && t.destinations[mac] == R.NewDestination(s, mac, msg)
    ensures EntryFollows(s, t, mac, msg.items, s.sessionMetrics, NO_ADDRS)
  {
    hide Merge, ApplyLenient, R.OwnedChanges, MetricsObey, EntryObeys, Distinct;
    MergeObeys(msg.items, s.sessionMetrics);
    OwnedObeys(s, mac, msg, NO_ADDRS);
  }

  lemma ChangedEntry(s: R.Router, mac: MacAddress, msg: Message)
    requires Distinct(msg.items) && mac in s.destinations && s.destinations[mac].up
    ensures EntryFollows(s, R.RouterUpdate(s, mac, msg).0, mac, msg.items, s.destinations[mac].metrics,
                         s.destinations[mac].addrs)
  {
    hide Merge, ApplyLenient, R.OwnedChanges, MetricsObey, EntryObeys, Distinct, Between, HasMetrics, ResetAction;
    MergeObeys(msg.items, s.destinations[mac].metrics);
    OwnedObeys(s, mac, msg, s.destinations[mac].addrs);
  }

  /** A message with one status gives exactly that. */
  lemma StatusGiven(items: seq<DataItem>)
    requires Distinct(items) && ExtractStatusItem(items).Some?
    ensures Gives(items, SUCCESS, SUCCESS) <==> ExtractStatus(items) == Some(SUCCESS)
  {
    hide ExtractStatusItem, Distinct;
    StatusPresent(items);
    var x := ExtractStatusItem(items).value;
    forall y | y in items && y.Status? ensures y == x { OneOfAType(items, x, y); }
  }

  lemma UpEffect(s: R.Router, mac: MacAddress, msg: Message)
    requires msg.messageType == 7 && Distinct(msg.items) && ExtractMac(msg.items) == Some(mac) && mac !in s.destinations
    ensures RouterEffect(s, msg, R.RouterUp(s, mac, msg).0)
  {
    hide R.NewDestination, ResetAction, ExtractMac, EntryFollows, Distinct, Gives, PeerObeys, MetricsObey;
    NewEntry(s, mac, msg, R.RouterUp(s, mac, msg).0);
  }

  lemma AnnouncedEffect(s: R.Router, mac: MacAddress, msg: Message)
    requires msg.messageType == 10 && Distinct(msg.items) && ExtractMac(msg.items) == Some(mac)
    requires mac !in s.destinations && ExtractStatusItem(msg.items).Some?
    ensures RouterEffect(s, msg, R.RouterAnnounceResponse(s, mac, msg).0)
  {
    hide R.NewDestination, ResetAction, ExtractMac, EntryFollows, Distinct, Gives, PeerObeys, MetricsObey,
         ExtractStatus;
    StatusGiven(msg.items);
    if ExtractStatus(msg.items) == Some(SUCCESS) { NewEntry(s, mac, msg, R.RouterAnnounceResponse(s, mac, msg).0); }
  }

  lemma UpdateEffect(s: R.Router, mac: MacAddress, msg: Message)
    requires msg.messageType == 13 && Distinct(msg.items) && ExtractMac(msg.items) == Some(mac)
    requires mac in s.destinations && s.destinations[mac].up
    ensures RouterEffect(s, msg, R.RouterUpdate(s, mac, msg).0)
  {
    hide R.RouterUpdate, ExtractMac, EntryFollows, Distinct, Gives, PeerObeys, MetricsObey;
    ChangedEntry(s, mac, msg);
    UpdateFrame(s, mac, msg);
  }

  lemma UpdateFrame(s: R.Router, mac: MacAddress, msg: Message)
    requires mac in s.destinations
    ensures var t := R.RouterUpdate(s, mac, msg).0; t == s.(destinations := t.destinations) && OthersStay(s, t, mac)
  {
    hide Merge, ApplyLenient, R.OwnedChanges, Between, HasMetrics, ResetAction;
  }

  lemma LinkEffect(s: R.Router, mac: MacAddress, msg: Message)
    requires msg.messageType == 15 && Distinct(msg.items) && ExtractMac(msg.items) == Some(mac)
    requires mac in s.destinations && ExtractStatusItem(msg.items).Some?
    ensures RouterEffect(s, msg, R.RouterLinkResponse(s, mac, msg).0)
  {
    hide ResetAction, ExtractMac, EntryFollows, Distinct, Gives, PeerObeys, MetricsObey, ExtractStatusItem, Merge;
    MergeObeys(msg.items, s.destinations[mac].metrics);
  }

  lemma GoneEffect(s: R.Router, mac: MacAddress, msg: Message)
    requires ExtractMac(msg.items) == Some(mac) && mac in s.destinations
    ensures msg.messageType == 11 ==> RouterEffect(s, msg, R.RouterDown(s, mac, msg).0)
    ensures msg.messageType == 12 && ExtractStatus(msg.items).Some? ==>
              RouterEffect(s, msg, R.RouterDownResponse(s, mac, msg).0)
  {
    hide ResetAction, ExtractMac, EntryFollows, Gives, PeerObeys, MetricsObey, ExtractStatus;
  }

  lemma QuietEffect(s: R.Router, msg: Message)
    ensures msg.messageType == 4 ==> RouterEffect(s, msg, s.(tx := Close(s.tx, SessionScope)))
    ensures msg.messageType == 16 ==> RouterEffect(s, msg, s)
    ensures msg.messageType == 5 ==> RouterEffect(s, msg, R.RouterPeerTerminates(s, msg).0)
  {
    hide ExtractMac, EntryFollows, Gives, PeerObeys, MetricsObey, ExtractStatus;
  }

  lemma AcceptObeys(s: R.Router, msg: Message)
    requires R.RouterSlots(s) && s.phase.InSession? && R.RouterCheck(s, msg).None?
    ensures RouterEffect(s, msg, R.RouterAccept(s, msg).0)
  {
    assert Distinct(msg.items);
    R.AcceptedMessage(s, msg);
    hide R.RouterCheck, R.RouterUp, R.RouterUpdate, R.RouterSessionUpdate, R.RouterDown, R.RouterDownResponse,
         R.RouterAnnounceResponse, R.RouterLinkResponse, R.RouterPeerTerminates, ResetAction, FromItems, ApplyStrict,
         ExtractMac, ExtractStatus, ExtractStatusItem, Distinct, RouterEffect;
    var mt := msg.messageType;
    QuietEffect(s, msg);
    if mt == 3 { SessionEffect(s, msg); }
    else if mt !in {4, 5, 16} {
      var mac := ExtractMac(msg.items).value;
      if mt == 7 { UpEffect(s, mac, msg); }
      else if mt == 10 { AnnouncedEffect(s, mac, msg); }
      else if mt == 11 { GoneEffect(s, mac, msg); }
      else if mt == 12 { RI.StatusOf(msg.items); GoneEffect(s, mac, msg); }
      else if mt == 13 { UpdateEffect(s, mac, msg); }
      else { LinkEffect(s, mac, msg); }
    }
  }

  /** Every message the router accepts in session has exactly that effect. */
  lemma RouterObeys(s: R.Router, msg: Message)
    requires R.RouterSlots(s) && s.phase.InSession? && R.RouterVerdict(s, msg).None?
    ensures RouterEffect(s, msg, R.RouterStep(s, RecvMessage(msg)).0)
  {
    hide R.RouterCheck, R.RouterAccept, FatalStatus, RouterEffect, R.RouterSlots;
    AcceptObeys(s, msg);
  }

  /** The handshake: what the peer says of itself is what is known afterwards. */
  ghost predicate Adopts(s: R.Router, items: seq<DataItem>, t: R.Router) {
    && t.phase.InSession?
    && PeerObeys(items, NO_ADDRS, t.peerAddresses)
    && MetricsObey(items, s.sessionMetrics, t.sessionMetrics)
    && t.metricTypes == (set x | x in items && 12 <= TypeId(x) <= 20 :: TypeId(x))
    && t.peerHeartbeat.Some? && HeartbeatInterval(t.peerHeartbeat.value) in items
    && (if exists x :: x in items && x.ExtensionsSupported? then ExtensionsSupported(t.peerExtensions) in items
        else t.peerExtensions == [])
    && t.destinations == s.destinations && t.tx == s.tx && t.localAddresses == s.localAddresses && t.config == s.config
  }

  lemma TypesCarried(items: seq<DataItem>)
    ensures MetricTypes(items) == set x | x in items && 12 <= TypeId(x) <= 20 :: TypeId(x)
  {
    forall t | t in (set x | x in items && 12 <= TypeId(x) <= 20 :: TypeId(x)) ensures t in MetricTypes(items) {
      var x :| x in items && 12 <= TypeId(x) <= 20 && TypeId(x) == t;
      var i :| 0 <= i < |items| && items[i] == x;
    }
  }

  lemma Introduced(items: seq<DataItem>)
    ensures ExtractHeartbeat(items).Some? ==> HeartbeatInterval(ExtractHeartbeat(items).value) in items
    ensures if exists x :: x in items && x.ExtensionsSupported?
            then ExtensionsSupported(ExtractExtensions(items)) in items
            else ExtractExtensions(items) == []
  {
    hide ExtractHeartbeat, ExtractExtensions;
    HeartbeatPresent(items);
    ExtensionsPresent(items);
    if x :| x in items && x.ExtensionsSupported? {
      var i :| 0 <= i < |items| && items[i] == x;
    }
  }

  /** Only additions are read from the items of a handshake. */
  lemma {:induction false} OnlyAdded(items: seq<DataItem>)
    requires forall x :: x in items && IsAddressItem(x) ==> x.add
    ensures FromItems(items).removed == NO_ADDRS
  {
    if |items| > 0 {
      var front := items[..|items| - 1];
      assert items == front + [items[|items| - 1]];
      assert items[|items| - 1] in items;
      OnlyAdded(front);
    }
  }

  lemma FirstAddresses(items: seq<DataItem>)
    requires forall x :: x in items && IsAddressItem(x) ==> x.add
    requires ApplyStrict(FromItems(items), NO_ADDRS).Some?
    ensures PeerObeys(items, NO_ADDRS, FromItems(items).added)
  {
    hide FromItems, ApplyStrict, PeerObeys;
    OnlyAdded(items);
    Validated(FromItems(items));
    ValidatedIsClean(items);
    FreshApplies(FromItems(items).added);
    assert FromItems(items) == AddressChanges(FromItems(items).added, NO_ADDRS);
    StrictObeys(items, NO_ADDRS);
  }

  lemma Validated(c: AddressChanges)
    requires ApplyStrict(c, NO_ADDRS).Some?
    ensures Validate(c)
  {
  }

  lemma FirstItems(s: R.Router, msg: Message)
    requires s.phase.Initializing? && R.RouterCheck(s, msg).None? && s.peerAddresses == NO_ADDRS
    ensures Distinct(msg.items) && ApplyStrict(FromItems(msg.items), NO_ADDRS).Some?
    ensures forall x :: x in msg.items && IsAddressItem(x) ==> x.add
  {
    hide FromItems, ApplyStrict, MacFormatOk;
  }

  /** A handshake the router accepts is adopted as it was said. */
  lemma RouterAdopts(s: R.Router, msg: Message)
    requires R.RouterInv(s) && s.phase.Initializing? && R.RouterCheck(s, msg).None?
    ensures Adopts(s, msg.items, R.RouterEstablish(s, msg).0)
  {
    assert R.Blank(s);
    FirstItems(s, msg);
    RI.HeartbeatRequired(s, msg);
    hide R.RouterCheck, R.RouterInv, R.Blank, FromItems, ApplyStrict, Merge, MetricTypes, ExtractHeartbeat,
         ExtractExtensions, PeerObeys, MetricsObey, Distinct, ResetAction;
    FirstAddresses(msg.items);
    MergeObeys(msg.items, s.sessionMetrics);
    TypesCarried(msg.items);
    Introduced(msg.items);
  }

  // --- Replies --------------------------------------------------------------

  /** How the router answers: requests of the peer by the response of their kind,
      with SUCCESS, a termination by its response, and nothing else at all. */
  ghost function RouterReply(msg: Message): seq<Message> {
    var mt, mac := msg.messageType, ExtractMac(msg.items);
    if mt == 3 then [Message(4, [Status(0, [])])]
    else if mt == 5 then [Message(6, [])]
    else if mt == 7 && mac.Some? then [Message(8, [Mac(mac.value), Status(0, [])])]
    else if mt == 11 && mac.Some? then [Message(12, [Mac(mac.value), Status(0, [])])]
    else []
  }

  lemma SentFirst(msg: Message, rest: seq<Action>)
    requires forall i :: 0 <= i < |rest| ==> !rest[i].SendMessage?
    ensures Sent([SendMessage(msg)] + rest) == [msg]
  {
    SentConcat([SendMessage(msg)], rest);
    SentNothing(rest);
    FoldOne(PushSent, [], SendMessage(msg));
  }

  lemma ResetSendsNothing(peer: Option<Duration>)
    ensures forall i :: 0 <= i < |ResetAction(peer)| ==> !ResetAction(peer)[i].SendMessage?
  {
  }

  /** A reply, then whatever is emitted. */
  lemma SentThenReset(msg: Message, events: seq<Action>, peer: Option<Duration>)
    requires forall i :: 0 <= i < |events| ==> events[i].Emit?
    ensures Sent([SendMessage(msg)] + events + ResetAction(peer)) == [msg]
    ensures Sent(events + ResetAction(peer)) == []
  {
    hide ResetAction, Sent;
    ResetSendsNothing(peer);
    SentFirst(msg, events + ResetAction(peer));
    SentNothing(events + ResetAction(peer));
    assert [SendMessage(msg)] + events + ResetAction(peer) == [SendMessage(msg)] + (events + ResetAction(peer));
  }

  lemma GoodbyeAnswered(actions: seq<Action>, msg: Message)
    requires |actions| == 5 && actions[2] == SendMessage(msg)
    requires forall i :: 0 <= i < 5 && i != 2 ==> !actions[i].SendMessage?
    ensures Sent(actions) == [msg]
  {
    hide Sent;
    var head, rest := actions[..2], actions[3..];
    SentConcat(head, [actions[2]] + rest);
    SentNothing(head);
    SentFirst(msg, rest);
    assert actions == head + ([actions[2]] + rest);
  }

  lemma MovesReplied(s: R.Router, mac: MacAddress, msg: Message)
    ensures Sent(R.RouterUp(s, mac, msg).1) == [Message(8, [Mac(mac), Status(0, [])])]
    ensures Sent(R.RouterDown(s, mac, msg).1) == [Message(12, [Mac(mac), Status(0, [])])]
  {
    hide R.NewDestination, ResetAction, Sent, ExtractStatus;
    var up, down := R.RouterUp(s, mac, msg).1, R.RouterDown(s, mac, msg).1;
    SentThenReset(up[0].msg, [up[1]], s.peerHeartbeat);
    SentThenReset(down[0].msg, [down[1]], s.peerHeartbeat);
    assert [up[0], up[1]] == [up[0]] + [up[1]] && [down[0], down[1]] == [down[0]] + [down[1]];
  }

  lemma SessionReplied(s: R.Router, msg: Message)
    requires ApplyStrict(FromItems(msg.items), s.peerAddresses).Some?
    ensures Sent(R.RouterSessionUpdate(s, msg).1) == [Message(4, [Status(0, [])])]
  {
    hide ApplyStrict, FromItems, Merge, HasMetrics, ResetAction, Sent;
    var changes := FromItems(msg.items);
    var a := if changes == NO_CHANGES then []
             else [Emit(SessionAddressesUpdate(changes, ApplyStrict(changes, s.peerAddresses).value))];
    var b := if HasMetrics(msg.items) then [Emit(SessionMetricsUpdate(Merge(msg.items, s.sessionMetrics)))] else [];
    var reply := BuildSessionUpdateResponse(SUCCESS);
    SentThenReset(reply, a + b, s.peerHeartbeat);
    assert R.RouterSessionUpdate(s, msg).1 == [SendMessage(reply)] + (a + b) + ResetAction(s.peerHeartbeat);
  }

  lemma Unanswered(s: R.Router, mac: MacAddress, msg: Message)
    ensures mac in s.destinations ==> Sent(R.RouterUpdate(s, mac, msg).1) == []
    ensures ExtractStatus(msg.items).Some? ==> Sent(R.RouterDownResponse(s, mac, msg).1) == []
    ensures Sent(R.RouterAnnounceResponse(s, mac, msg).1) == []
    ensures mac in s.destinations && ExtractStatusItem(msg.items).Some? ==>
              Sent(R.RouterLinkResponse(s, mac, msg).1) == []
  {
    hide ApplyLenient, R.OwnedChanges, Merge, Between, HasMetrics, ResetAction, Sent, ExtractStatus, ExtractStatusItem,
         R.NewDestination;
    ResetSendsNothing(s.peerHeartbeat);
    if mac in s.destinations { SentNothing(R.RouterUpdate(s, mac, msg).1); }
    if ExtractStatus(msg.items).Some? { SentNothing(R.RouterDownResponse(s, mac, msg).1); }
    SentNothing(R.RouterAnnounceResponse(s, mac, msg).1);
    if mac in s.destinations && ExtractStatusItem(msg.items).Some? { SentNothing(R.RouterLinkResponse(s, mac, msg).1); }
  }

  lemma AcceptReplies(s: R.Router, msg: Message)
    requires R.RouterSlots(s) && s.phase.InSession? && R.RouterCheck(s, msg).None?
    ensures Sent(R.RouterAccept(s, msg).1) == RouterReply(msg)
  {
    R.AcceptedMessage(s, msg);
    hide R.RouterCheck, R.RouterUp, R.RouterUpdate, R.RouterSessionUpdate, R.RouterDown, R.RouterDownResponse,
         R.RouterAnnounceResponse, R.RouterLinkResponse, ResetAction, FromItems, ApplyStrict, ExtractMac,
         ExtractStatus, ExtractStatusItem, Sent;
    var mt := msg.messageType;
    ResetSendsNothing(s.peerHeartbeat);
    if mt == 3 { SessionReplied(s, msg); }
    else if mt == 5 { GoodbyeAnswered(R.RouterPeerTerminates(s, msg).1, BuildTerminationResponse()); }
    else if mt == 4 || mt == 16 { SentNothing(ResetAction(s.peerHeartbeat)); }
    else {
      var mac := ExtractMac(msg.items).value;
      MovesReplied(s, mac, msg);
      Unanswered(s, mac, msg);
      if mt == 12 { RI.StatusOf(msg.items); }
    }
  }

  /** Every message the router accepts in session is answered just so. */
  lemma RouterReplies(s: R.Router, msg: Message)
    requires R.RouterSlots(s) && s.phase.InSession? && R.RouterVerdict(s, msg).None?
    ensures Sent(R.RouterStep(s, RecvMessage(msg)).1) == RouterReply(msg)
  {
    hide R.RouterCheck, R.RouterAccept, FatalStatus, RouterReply, R.RouterSlots, Sent;
    AcceptReplies(s, msg);
  }

  // --- The modem ------------------------------------------------------------

  ghost predicate ModemOthersStay(s: M.Modem, t: M.Modem, mac: MacAddress) {
    forall m :: m != mac ==>
      && (m in t.destinations <==> m in s.destinations)
      && (m in s.destinations ==> t.destinations[m] == s.destinations[m])
  }

  /** What each message the modem accepts does: a peer's session update changes what
      is known of the peer; a destination is announced by a successful response or
      by the router's interest, withdrawn by a refusal or a Down, and removed by the
      response to its own Down, its metrics and addresses staying what they were. */
  ghost predicate ModemEffect(s: M.Modem, msg: Message, t: M.Modem) {
    var mt, items := msg.messageType, msg.items;
    if mt == 3 then
      t == s.(peerAddresses := t.peerAddresses) && PeerObeys(items, s.peerAddresses, t.peerAddresses)
    else if mt == 4 then t == s.(tx := Close(s.tx, SessionScope))
    else if mt == 5 then t == s.(phase := Terminated)
    else if mt == 16 then t == s
    else
      ExtractMac(items).Some? &&
      var mac := ExtractMac(items).value;
      && t == s.(tx := t.tx, destinations := t.destinations, pendingLinks := t.pendingLinks)
      && ModemOthersStay(s, t, mac)
      && t.tx == (if mt == 8 || mt == 12 then Close(s.tx, DestinationScope(mac)) else s.tx)
      && t.pendingLinks == (if mt == 14 && s.config.deferLinkCharacteristics then s.pendingLinks + {mac}
                            else s.pendingLinks)
      && (mt == 12 ==> mac !in t.destinations)
      && (mt != 12 ==>
            && (mac in t.destinations <==> mac in s.destinations)
            && (mac in s.destinations ==>
                  && t.destinations[mac].metrics == s.destinations[mac].metrics
                  && t.destinations[mac].addrs == s.destinations[mac].addrs
                  && t.destinations[mac].announced ==
                     (if mt == 8 then Gives(items, SUCCESS, SUCCESS) else if mt == 9 then true
                      else if mt == 11 then false else s.destinations[mac].announced)))
      && (mt == 14 ==> t.destinations == s.destinations)
  }

  lemma UpResponseEffect(s: M.Modem, mac: MacAddress, msg: Message)
    requires msg.messageType == 8 && Distinct(msg.items) && ExtractMac(msg.items) == Some(mac) && mac in s.destinations
    requires ExtractStatusItem(msg.items).Some?
    ensures ModemEffect(s, msg, M.ModemUpResponse(s, mac, msg).0)
  {
    hide M.CatchUp, ResetAction, ExtractMac, Gives, PeerObeys, Distinct, ExtractStatus;
    StatusGiven(msg.items);
    RI.StatusOf(msg.items);
  }

  lemma ModemSessionEffect(s: M.Modem, msg: Message)
    requires msg.messageType == 3 && ApplyStrict(FromItems(msg.items), s.peerAddresses).Some?
    ensures ModemEffect(s, msg, M.ModemSessionUpdate(s, msg).0)
  {
    hide ApplyStrict, FromItems, PeerObeys, ResetAction, Gives, ExtractMac;
    StrictObeys(msg.items, s.peerAddresses);
  }

  lemma ModemPlainEffect(s: M.Modem, mac: MacAddress, msg: Message)
    requires ExtractMac(msg.items) == Some(mac)
    ensures msg.messageType == 9 ==> ModemEffect(s, msg, M.ModemAnnounce(s, mac, msg).0)
    ensures msg.messageType == 11 && mac in s.destinations ==> ModemEffect(s, msg, M.ModemDown(s, mac).0)
    ensures msg.messageType == 12 ==> ModemEffect(s, msg, M.ModemDownResponse(s, mac).0)
    ensures msg.messageType == 14 && mac in s.destinations ==> ModemEffect(s, msg, M.ModemLinkRequest(s, mac, msg).0)
  {
    hide ResetAction, ExtractMac, Gives, PeerObeys, FromItems, ExtractLinkCharacteristics, BuildAnnounceAccepted,
         BuildLinkResponse;
  }

  lemma ModemQuietEffect(s: M.Modem, msg: Message)
    ensures msg.messageType == 4 ==> ModemEffect(s, msg, s.(tx := Close(s.tx, SessionScope)))
    ensures msg.messageType == 16 ==> ModemEffect(s, msg, s)
    ensures msg.messageType == 5 ==> ModemEffect(s, msg, M.ModemPeerTerminates(s, msg).0)
  {
    hide ExtractMac, Gives, PeerObeys, ExtractStatus;
  }

  lemma StatusRequired(s: M.Modem, msg: Message)
    requires s.phase.InSession? && M.ModemCheck(s, msg).None? && msg.messageType == 8
    ensures ExtractStatusItem(msg.items).Some? && Distinct(msg.items)
  {
    R.RequiredPresent(msg, false, s.config.extensions);
  }

  lemma ModemAcceptObeys(s: M.Modem, msg: Message)
    requires M.ModemSlots(s) && s.phase.InSession? && M.ModemCheck(s, msg).None?
    ensures ModemEffect(s, msg, M.ModemAccept(s, msg).0)
  {
    M.AcceptedMessage(s, msg);
    if msg.messageType == 8 { StatusRequired(s, msg); }
    hide M.ModemCheck, M.ModemUpResponse, M.ModemSessionUpdate, M.ModemAnnounce, M.ModemDown, M.ModemDownResponse,
         M.ModemLinkRequest, M.ModemPeerTerminates, ResetAction, FromItems, ApplyStrict, ExtractMac, ExtractStatusItem,
         Distinct, ModemEffect;
    var mt := msg.messageType;
    ModemQuietEffect(s, msg);
    if mt == 3 { ModemSessionEffect(s, msg); }
    else if mt !in {4, 5, 16} {
      var mac := ExtractMac(msg.items).value;
      if mt == 8 { UpResponseEffect(s, mac, msg); } else { ModemPlainEffect(s, mac, msg); }
    }
  }

  /** Every message the modem accepts in session has exactly that effect. */
  lemma ModemObeys(s: M.Modem, msg: Message)
    requires M.ModemSlots(s) && s.phase.InSession? && M.ModemVerdict(s, msg).None?
    ensures ModemEffect(s, msg, M.ModemStep(s, RecvMessage(msg)).0)
  {
    hide M.ModemCheck, M.ModemAccept, FatalStatus, ModemEffect, M.ModemSlots;
    ModemAcceptObeys(s, msg);
  }

  /** How the modem answers. A successful response to a Destination Up may be
      followed by the one update that was held back; an announcement is answered
      from what is known of the destination, or denied. */
  ghost predicate ModemReply(s: M.Modem, msg: Message, sent: seq<Message>) {
    var mt, mac := msg.messageType, ExtractMac(msg.items);
    if mt == 3 then sent == [Message(4, [Status(0, [])])]
    else if mt == 5 then sent == [Message(6, [])]
    else if mt == 8 && mac.Some? then
      |sent| <= 1 && (sent != [] ==> sent[0].messageType == 13 && ExtractMac(sent[0].items) == mac)
    else if mt == 9 && mac.Some? then
      if mac.value in s.destinations
      then var d := s.destinations[mac.value];
           sent == [Message(10, [Mac(mac.value)] + Listing(true, d.addrs) + MetricItems(d.metrics) + [Status(0, [])])]
      else sent == [Message(10, [Mac(mac.value), Status(2, [])])]
    else if mt == 11 && mac.Some? then sent == [Message(12, [Mac(mac.value), Status(0, [])])]
    else if mt == 14 && mac.Some? && mac.value in s.destinations && !s.config.deferLinkCharacteristics then
      sent == [Message(15, [Mac(mac.value), Status(2, [])] + MetricItems(s.destinations[mac.value].metrics))]
    else sent == []
  }

  lemma CaughtUp(s: M.Modem, mac: MacAddress, msg: Message)
    requires mac in s.destinations
    ensures var sent := Sent(M.ModemUpResponse(s, mac, msg).1);
            |sent| <= 1 && (sent != [] ==> sent[0].messageType == 13 && ExtractMac(sent[0].items) == Some(mac))
  {
    hide ExtractStatus, MissedDeadline, Sent, Between, ChangeItems, MetricItems;
    var actions := M.ModemUpResponse(s, mac, msg).1;
    if |actions| > 0 && actions[0].SendMessage? {
      SentFirst(actions[0].msg, actions[1..]);
      assert actions == [actions[0]] + actions[1..];
      assert actions[0].msg.items[0] == Mac(mac);
    } else {
      SentNothing(actions);
    }
  }

  lemma ModemReplied(s: M.Modem, mac: MacAddress, msg: Message)
    requires ExtractMac(msg.items) == Some(mac)
    ensures msg.messageType == 9 ==> ModemReply(s, msg, Sent(M.ModemAnnounce(s, mac, msg).1))
    ensures msg.messageType == 11 && mac in s.destinations ==> ModemReply(s, msg, Sent(M.ModemDown(s, mac).1))
    ensures msg.messageType == 14 && mac in s.destinations ==>
              ModemReply(s, msg, Sent(M.ModemLinkRequest(s, mac, msg).1))
    ensures msg.messageType == 12 ==> ModemReply(s, msg, Sent(M.ModemDownResponse(s, mac).1))
  {
    hide FromItems, ExtractMac, Sent, ResetAction, ExtractLinkCharacteristics, Listing, MetricItems;
    var announce := M.ModemAnnounce(s, mac, msg).1;
    SentThenReset(announce[0].msg, [announce[1]], s.peerHeartbeat);
    assert [announce[0], announce[1]] == [announce[0]] + [announce[1]];
    ResetSendsNothing(s.peerHeartbeat);
    SentNothing(ResetAction(s.peerHeartbeat));
    if mac in s.destinations {
      var down, link := M.ModemDown(s, mac).1, M.ModemLinkRequest(s, mac, msg).1;
      SentThenReset(down[0].msg, [down[1]], s.peerHeartbeat);
      assert [down[0], down[1]] == [down[0]] + [down[1]];
      if s.config.deferLinkCharacteristics {
        SentThenReset(down[0].msg, [link[0]], s.peerHeartbeat);
      } else {
        SentThenReset(link[0].msg, [link[1]], s.peerHeartbeat);
        assert [link[0], link[1]] == [link[0]] + [link[1]];
      }
    }
  }

  lemma ModemSessionReplied(s: M.Modem, msg: Message)
    requires msg.messageType == 3 && ApplyStrict(FromItems(msg.items), s.peerAddresses).Some?
    ensures ModemReply(s, msg, Sent(M.ModemSessionUpdate(s, msg).1))
  {
    hide ApplyStrict, FromItems, ResetAction, Sent, ExtractMac, Listing, MetricItems;
    var changes := FromItems(msg.items);
    var a := if changes == NO_CHANGES then []
             else [Emit(SessionAddressesUpdate(changes, ApplyStrict(changes, s.peerAddresses).value))];
    SentThenReset(BuildSessionUpdateResponse(SUCCESS), a, s.peerHeartbeat);
  }

  lemma ModemAcceptReplies(s: M.Modem, msg: Message)
    requires M.ModemSlots(s) && s.phase.InSession? && M.ModemCheck(s, msg).None?
    ensures ModemReply(s, msg, Sent(M.ModemAccept(s, msg).1))
  {
    M.AcceptedMessage(s, msg);
    hide M.ModemCheck, M.ModemUpResponse, M.ModemSessionUpdate, M.ModemAnnounce, M.ModemDown, M.ModemDownResponse,
         M.ModemLinkRequest, ResetAction, FromItems, ApplyStrict, ExtractMac, ExtractStatus, Sent, Listing,
         MetricItems;
    var mt := msg.messageType;
    ResetSendsNothing(s.peerHeartbeat);
    if mt == 3 { ModemSessionReplied(s, msg); }
    else if mt == 5 { GoodbyeAnswered(M.ModemPeerTerminates(s, msg).1, BuildTerminationResponse()); }
    else if mt == 4 || mt == 16 { SentNothing(ResetAction(s.peerHeartbeat)); }
    else {
      var mac := ExtractMac(msg.items).value;
      if mt == 8 { CaughtUp(s, mac, msg); }
      hide ModemReply;
      ModemReplied(s, mac, msg);
    }
  }

  /** Every message the modem accepts in session is answered just so. */
  lemma ModemReplies(s: M.Modem, msg: Message)
    requires M.ModemSlots(s) && s.phase.InSession? && M.ModemVerdict(s, msg).None?
    ensures ModemReply(s, msg, Sent(M.ModemStep(s, RecvMessage(msg)).1))
  {
    hide M.ModemCheck, M.ModemAccept, FatalStatus, ModemReply, M.ModemSlots, Sent;
    ModemAcceptReplies(s, msg);
  }

  ghost predicate ModemAdoptsAll(s: M.Modem, items: seq<DataItem>, t: M.Modem) {
    && t == s.(phase := InSession, peerAddresses := t.peerAddresses, peerHeartbeat := t.peerHeartbeat,
               peerExtensions := t.peerExtensions)
    && PeerObeys(items, NO_ADDRS, t.peerAddresses)
    && t.peerHeartbeat.Some? && HeartbeatInterval(t.peerHeartbeat.value) in items
    && (if exists x :: x in items && x.ExtensionsSupported? then ExtensionsSupported(t.peerExtensions) in items
        else t.peerExtensions == [])
  }

  lemma ModemFirstItems(s: M.Modem, msg: Message)
    requires s.phase.Initializing? && M.ModemCheck(s, msg).None? && s.peerAddresses == NO_ADDRS
    ensures ApplyStrict(FromItems(msg.items), NO_ADDRS).Some?
    ensures forall x :: x in msg.items && IsAddressItem(x) ==> x.add
  {
    hide FromItems, ApplyStrict, MacFormatOk;
  }

  /** A handshake the modem accepts is adopted as it was said. */
  lemma ModemAdopts(s: M.Modem, msg: Message)
    requires M.ModemInv(s) && s.phase.Initializing? && M.ModemCheck(s, msg).None?
    ensures ModemAdoptsAll(s, msg.items, M.ModemEstablish(s, msg).0)
  {
    assert M.Blank(s);
    ModemFirstItems(s, msg);
    MI.HeartbeatRequired(s, msg);
    hide M.ModemCheck, M.ModemInv, M.Blank, FromItems, ApplyStrict, ExtractHeartbeat, ExtractExtensions, PeerObeys,
         ResetAction, BuildInitializationResponse;
    FirstAddresses(msg.items);
    Introduced(msg.items);
  }
}
