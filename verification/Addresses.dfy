/** Address and attached-subnet sets (crates/dlep-fsm/src/addresses.rs): four
    families of duplicate-free lists, and the changes between two such sets.

    The first half is about one family, a `seq<T>`; the second lifts each law to
    all four families at once.
 */
module Addresses {
  import opened Types

  // --- One family -----------------------------------------------------------

  ghost predicate NoDup<T>(s: seq<T>) {
    forall i, j :: 0 <= i < j < |s| ==> s[i] != s[j]
  }

  ghost predicate SameMembers<T(!new)>(s: seq<T>, t: seq<T>) {
    forall x :: x in s <==> x in t
  }

  ghost predicate Sub<T(!new)>(s: seq<T>, t: seq<T>) { forall x :: x in s ==> x in t }

  ghost predicate Disjoint<T(!new)>(s: seq<T>, t: seq<T>) {
    forall x :: x in s ==> x !in t
  }

  /** The elements of `s` that `t` lacks, in order. */
  function Minus<T(==)>(s: seq<T>, t: seq<T>): seq<T> {
    if |s| == 0 then [] else
      var rest := Minus(s[..|s| - 1], t);
      if s[|s| - 1] in t then rest else rest + [s[|s| - 1]]
  }

  /** Drop what is removed, unless the same change also adds it. */
  function Keep<T(==)>(current: seq<T>, add: seq<T>, remove: seq<T>): seq<T> {
    if |current| == 0 then [] else
      var last := current[|current| - 1];
      var rest := Keep(current[..|current| - 1], add, remove);
      if last in remove && last !in add then rest else rest + [last]
  }

  /** Push each new address that is not removed and not yet present. */
  function PushNew<T(==)>(current: seq<T>, add: seq<T>, remove: seq<T>): seq<T> {
    if |add| == 0 then current else
      var before := PushNew(current, add[..|add| - 1], remove);
      var last := add[|add| - 1];
      if last !in remove && last !in before then before + [last] else before
  }

  function Apply<T(==)>(current: seq<T>, add: seq<T>, remove: seq<T>): seq<T> {
    PushNew(Keep(current, add, remove), add, remove)
  }

  /** The source's in-place application, one vector at a time. */
  method ApplyInPlace<T(==)>(current: seq<T>, add: seq<T>, remove: seq<T>) returns (r: seq<T>)
    ensures r == Apply(current, add, remove)
  {
    r := [];
    for i := 0 to |current|
      invariant r == Keep(current[..i], add, remove)
    {
      assert current[..i + 1][..i] == current[..i];
      if current[i] !in remove || current[i] in add {
        r := r + [current[i]];
      }
    }
    assert current[..|current|] == current;
    ghost var kept := r;
    for i := 0 to |add|
      invariant r == PushNew(kept, add[..i], remove)
    {
      assert add[..i + 1][..i] == add[..i];
      if add[i] !in remove && add[i] !in r {
        r := r + [add[i]];
      }
    }
    assert add[..|add|] == add;
  }

  predicate ValidFamily<T(==)>(add: seq<T>, remove: seq<T>) {
    && (forall n :: 0 <= n < |add| ==> add[n] !in add[..n] && add[n] !in remove)
    && (forall n :: 0 <= n < |remove| ==> remove[n] !in remove[..n])
  }

  predicate StrictFamily<T(==)>(current: seq<T>, add: seq<T>, remove: seq<T>) {
    && (forall n :: 0 <= n < |add| ==> add[n] !in current)
    && (forall n :: 0 <= n < |remove| ==> remove[n] in current)
  }

  lemma ValidFamilyMeans<T(!new)>(add: seq<T>, remove: seq<T>)
    ensures ValidFamily(add, remove) <==> NoDup(add) && NoDup(remove) && Disjoint(add, remove)
  {
    if NoDup(add) && NoDup(remove) && Disjoint(add, remove) {
      assert forall n :: 0 <= n < |add| ==> add[n] in add;
    }
    if ValidFamily(add, remove) {
      forall i, j | 0 <= i < j < |add| ensures add[i] != add[j] {
        assert add[j] !in add[..j];
        assert add[..j][i] == add[i];
      }
      forall i, j | 0 <= i < j < |remove| ensures remove[i] != remove[j] { assert remove[..j][i] == remove[i]; }
    }
  }

  lemma {:induction false} MinusMembers<T>(s: seq<T>, t: seq<T>)
    ensures forall x :: x in Minus(s, t) <==> x in s && x !in t
    ensures NoDup(s) ==> NoDup(Minus(s, t))
  {
    if |s| > 0 {
      var front := s[..|s| - 1];
      MinusMembers(front, t);
      assert s == front + [s[|s| - 1]];
      if NoDup(s) {
        assert forall x :: x in front ==> x != s[|s| - 1];
      }
    }
  }

  lemma {:induction false} KeepMembers<T>(current: seq<T>, add: seq<T>, remove: seq<T>)
    ensures forall x :: x in Keep(current, add, remove) <==> x in current && (x !in remove || x in add)
    ensures NoDup(current) ==> NoDup(Keep(current, add, remove))
  {
    if |current| > 0 {
      var front := current[..|current| - 1];
      KeepMembers(front, add, remove);
      assert current == front + [current[|current| - 1]];
      if NoDup(current) {
        assert forall x :: x in front ==> x != current[|current| - 1];
      }
    }
  }

  /** PushNew only appends, and appends exactly the fresh additions. */
  lemma {:induction false} PushNewMembers<T>(current: seq<T>, add: seq<T>, remove: seq<T>)
    ensures var r := PushNew(current, add, remove);
            && current <= r
            && (forall x :: x in r <==> x in current || (x in add && x !in remove))
            && (forall x :: x in r[|current|..] ==> x !in current)
            && (NoDup(current) ==> NoDup(r))
  {
    if |add| > 0 {
      var front := add[..|add| - 1];
      PushNewMembers(current, front, remove);
      assert add == front + [add[|add| - 1]];
      var before := PushNew(current, front, remove);
      var last := add[|add| - 1];
      if last !in remove && last !in before {
        assert (before + [last])[|current|..] == before[|current|..] + [last];
      }
    }
  }

  lemma ApplyMembers<T>(current: seq<T>, add: seq<T>, remove: seq<T>)
    ensures forall x :: x in Apply(current, add, remove) <==>
              (x in current && (x !in remove || x in add)) || (x in add && x !in remove)
    ensures NoDup(current) ==> NoDup(Apply(current, add, remove))
  {
    KeepMembers(current, add, remove);
    PushNewMembers(Keep(current, add, remove), add, remove);
  }

  lemma {:induction false} KeepDependsOnMembers<T>(
    current: seq<T>, add: seq<T>, remove: seq<T>, add2: seq<T>, remove2: seq<T>)
    requires forall x :: x in current ==> ((x !in remove || x in add) <==> (x !in remove2 || x in add2))
    ensures Keep(current, add, remove) == Keep(current, add2, remove2)
  {
    if |current| > 0 {
      assert current[|current| - 1] in current;
      KeepDependsOnMembers(current[..|current| - 1], add, remove, add2, remove2);
    }
  }

  lemma {:induction false} PushAllNew<T>(current: seq<T>, add: seq<T>, remove: seq<T>)
    requires NoDup(add)
    requires forall x :: x in add ==> x !in remove && x !in current
    ensures PushNew(current, add, remove) == current + add
  {
    if |add| > 0 {
      var front := add[..|add| - 1];
      var last := add[|add| - 1];
      assert add == front + [last];
      PushAllNew(current, front, remove);
      assert last !in front;
      assert last in add;
      assert current + add == (current + front) + [last];
    }
  }

  lemma {:induction false} MinusOfExtension<T>(base: seq<T>, kept: seq<T>, tail: seq<T>)
    requires forall x :: x in kept ==> x in base
    requires forall x :: x in tail ==> x !in base
    ensures Minus(kept + tail, base) == tail
  {
    if |tail| > 0 {
      var front := tail[..|tail| - 1];
      assert (kept + tail)[..|kept + tail| - 1] == kept + front;
      assert tail[|tail| - 1] in tail;
      MinusOfExtension(base, kept, front);
      assert tail == front + [tail[|tail| - 1]];
    } else {
      assert kept + tail == kept;
      MinusOfSubset(base, kept);
    }
  }

  lemma {:induction false} MinusOfSubset<T>(base: seq<T>, kept: seq<T>)
    requires forall x :: x in kept ==> x in base
    ensures Minus(kept, base) == []
  {
    if |kept| > 0 {
      assert kept[|kept| - 1] in kept;
      MinusOfSubset(base, kept[..|kept| - 1]);
    }
  }

  lemma ApplyIs<T>(current: seq<T>, add: seq<T>, remove: seq<T>)
    ensures Apply(current, add, remove) == PushNew(Keep(current, add, remove), add, remove)
  {
  }

  lemma NoDupTail<T>(s: seq<T>, n: nat)
    requires n <= |s| && NoDup(s)
    ensures NoDup(s[n..])
  {
  }

  /** What a change appends is exactly what the current list lacks. */
  lemma Appended<T(!new)>(current: seq<T>, add: seq<T>, remove: seq<T>, kept: seq<T>, tail: seq<T>)
    requires kept == Keep(current, add, remove) && kept + tail == PushNew(kept, add, remove)
    ensures Minus(kept + tail, current) == tail
    ensures forall x :: x in tail ==> x !in current
  {
    hide Keep, PushNew, Minus;
    KeepMembers(current, add, remove);
    PushNewMembers(kept, add, remove);
    assert (kept + tail)[|kept|..] == tail;
    forall x | x in tail ensures x !in current { assert x in kept + tail; }
    MinusOfExtension(current, kept, tail);
  }

  /** The effective difference keeps what the change kept. */
  lemma SameKept<T(!new)>(current: seq<T>, add: seq<T>, remove: seq<T>, kept: seq<T>, tail: seq<T>)
    requires kept == Keep(current, add, remove) && forall x :: x in tail ==> x !in current
    ensures Keep(current, tail, Minus(current, kept + tail)) == kept
  {
    hide Keep, Minus;
    KeepMembers(current, add, remove);
    MinusMembers(current, kept + tail);
    KeepDependsOnMembers(current, tail, Minus(current, kept + tail), add, remove);
  }

  /** And appends what the change appended. */
  lemma SameTail<T(!new)>(current: seq<T>, kept: seq<T>, tail: seq<T>)
    requires NoDup(kept + tail)
    ensures PushNew(kept, tail, Minus(current, kept + tail)) == kept + tail
  {
    hide PushNew, Minus;
    MinusMembers(current, kept + tail);
    NoDupTail(kept + tail, |kept|);
    assert (kept + tail)[|kept|..] == tail;
    forall x | x in tail ensures x !in kept && x !in Minus(current, kept + tail) { NotInFront(kept, tail, x); }
    hide NoDup;
    PushAllNew(kept, tail, Minus(current, kept + tail));
  }

  lemma NotInFront<T>(front: seq<T>, tail: seq<T>, x: T)
    requires NoDup(front + tail) && x in tail
    ensures x !in front && x in front + tail
  {
    var i :| 0 <= i < |tail| && tail[i] == x;
    assert (front + tail)[|front| + i] == x;
    forall j | 0 <= j < |front| ensures front[j] != x { assert (front + tail)[j] == front[j]; }
  }

  lemma KeptFirst<T>(current: seq<T>, add: seq<T>, remove: seq<T>)
    requires NoDup(current)
    ensures NoDup(Apply(current, add, remove)) && Keep(current, add, remove) <= Apply(current, add, remove)
  {
    hide Apply, Keep, PushNew, NoDup;
    ApplyMembers(current, add, remove);
    ApplyIs(current, add, remove);
    PushNewMembers(Keep(current, add, remove), add, remove);
  }

  /** Strictly applying the effective difference rebuilds the very same list. */
  lemma EffectiveRebuilds<T(!new)>(current: seq<T>, add: seq<T>, remove: seq<T>)
    requires NoDup(current)
    ensures var desired := Apply(current, add, remove);
            var add2, remove2 := Minus(desired, current), Minus(current, desired);
            && ValidFamily(add2, remove2)
            && StrictFamily(current, add2, remove2)
            && Apply(current, add2, remove2) == desired
  {
    hide Apply, Keep, PushNew, Minus, ValidFamily, StrictFamily, NoDup, SameMembers;
    var desired := Apply(current, add, remove);
    var kept := Keep(current, add, remove);
    KeptFirst(current, add, remove);
    DifferenceIsStrict(current, desired);
    ApplyIs(current, add, remove);
    var tail := desired[|kept|..];
    assert desired == kept + tail;
    Appended(current, add, remove, kept, tail);
    SameKept(current, add, remove, kept, tail);
    SameTail(current, kept, tail);
    ApplyIs(current, tail, Minus(current, desired));
  }

  /** Keep an addition that is not taken elsewhere, or that is also removed. */
  function RetainFree<T(==)>(added: seq<T>, removed: seq<T>, taken: set<T>): seq<T> {
    if |added| == 0 then [] else
      var last := added[|added| - 1];
      var rest := RetainFree(added[..|added| - 1], removed, taken);
      if last in removed || last !in taken then rest + [last] else rest
  }

  method RetainInPlace<T(==)>(added: seq<T>, removed: seq<T>, taken: set<T>) returns (r: seq<T>)
    ensures r == RetainFree(added, removed, taken)
  {
    r := [];
    for i := 0 to |added|
      invariant r == RetainFree(added[..i], removed, taken)
    {
      assert added[..i + 1][..i] == added[..i];
      if added[i] in removed || added[i] !in taken {
        r := r + [added[i]];
      }
    }
    assert added[..|added|] == added;
  }

  lemma {:induction false} RetainFreeMembers<T>(added: seq<T>, removed: seq<T>, taken: set<T>)
    ensures forall x :: x in RetainFree(added, removed, taken) <==> x in added && (x in removed || x !in taken)
  {
    if |added| > 0 {
      RetainFreeMembers(added[..|added| - 1], removed, taken);
      assert added == added[..|added| - 1] + [added[|added| - 1]];
    }
  }

  /** The difference of two duplicate-free lists is a valid strict change. */
  lemma DifferenceIsStrict<T(!new)>(old_: seq<T>, new_: seq<T>)
    requires NoDup(old_) && NoDup(new_)
    ensures ValidFamily(Minus(new_, old_), Minus(old_, new_))
    ensures StrictFamily(old_, Minus(new_, old_), Minus(old_, new_))
    ensures SameMembers(Apply(old_, Minus(new_, old_), Minus(old_, new_)), new_)
  {
    var add, remove := Minus(new_, old_), Minus(old_, new_);
    MinusMembers(new_, old_);
    MinusMembers(old_, new_);
    ValidFamilyMeans(add, remove);
    forall n | 0 <= n < |add| ensures add[n] !in old_ { assert add[n] in add; }
    forall n | 0 <= n < |remove| ensures remove[n] in old_ { assert remove[n] in remove; }
    ApplyMembers(old_, add, remove);
  }

  // --- All four families ----------------------------------------------------

  datatype DestinationAddrs = DestinationAddrs(
    v4: seq<u32>, v6: seq<u128>, v4Subnets: seq<Ipv4Net>, v6Subnets: seq<Ipv6Net>)

  datatype AddressChanges = AddressChanges(added: DestinationAddrs, removed: DestinationAddrs)

  const NO_ADDRS := DestinationAddrs([], [], [], [])
  const NO_CHANGES := AddressChanges(NO_ADDRS, NO_ADDRS)

  function TruncAll4(s: seq<Ipv4Net>): seq<Ipv4Net> {
    seq(|s|, i requires 0 <= i < |s| => Trunc4(s[i]))
  }

  function TruncAll6(s: seq<Ipv6Net>): seq<Ipv6Net> {
    seq(|s|, i requires 0 <= i < |s| => Trunc6(s[i]))
  }

  /** Subnets identify networks, whatever their host bits. */
  function CanonicalAddrs(a: DestinationAddrs): DestinationAddrs {
    a.(v4Subnets := TruncAll4(a.v4Subnets), v6Subnets := TruncAll6(a.v6Subnets))
  }

  function Canonical(c: AddressChanges): AddressChanges {
    AddressChanges(CanonicalAddrs(c.added), CanonicalAddrs(c.removed))
  }

  predicate Validate(c: AddressChanges) {
    var k := Canonical(c);
    && ValidFamily(k.added.v4, k.removed.v4)
    && ValidFamily(k.added.v6, k.removed.v6)
    && ValidFamily(k.added.v4Subnets, k.removed.v4Subnets)
    && ValidFamily(k.added.v6Subnets, k.removed.v6Subnets)
  }

  predicate StrictlyApplies(c: AddressChanges, current: DestinationAddrs) {
    var k := Canonical(c);
    && StrictFamily(current.v4, k.added.v4, k.removed.v4)
    && StrictFamily(current.v6, k.added.v6, k.removed.v6)
    && StrictFamily(current.v4Subnets, k.added.v4Subnets, k.removed.v4Subnets)
    && StrictFamily(current.v6Subnets, k.added.v6Subnets, k.removed.v6Subnets)
  }

  function ApplyLenient(c: AddressChanges, current: DestinationAddrs): DestinationAddrs {
    var k := Canonical(c);
    DestinationAddrs(
      Apply(current.v4, k.added.v4, k.removed.v4),
      Apply(current.v6, k.added.v6, k.removed.v6),
      Apply(current.v4Subnets, k.added.v4Subnets, k.removed.v4Subnets),
      Apply(current.v6Subnets, k.added.v6Subnets, k.removed.v6Subnets))
  }

  /** None is the source's INVALID_DATA rejection. */
  function ApplyStrict(c: AddressChanges, current: DestinationAddrs): Option<DestinationAddrs> {
    if Validate(c) && StrictlyApplies(c, current)
    then Some(ApplyLenient(Canonical(c), current))
    else None
  }

  function Difference(a: DestinationAddrs, b: DestinationAddrs): DestinationAddrs {
    DestinationAddrs(Minus(a.v4, b.v4), Minus(a.v6, b.v6),
                     Minus(a.v4Subnets, b.v4Subnets), Minus(a.v6Subnets, b.v6Subnets))
  }

  function Between(old_: DestinationAddrs, new_: DestinationAddrs): AddressChanges {
    AddressChanges(Difference(new_, old_), Difference(old_, new_))
  }

  ghost predicate IsCanonical(a: DestinationAddrs) {
    && (forall i :: 0 <= i < |a.v4Subnets| ==> Trunc4(a.v4Subnets[i]) == a.v4Subnets[i])
    && (forall i :: 0 <= i < |a.v6Subnets| ==> Trunc6(a.v6Subnets[i]) == a.v6Subnets[i])
  }

  /** Duplicate-free lists of canonical addresses: what both machines store. */
  ghost predicate CleanAddrs(a: DestinationAddrs) {
    && NoDup(a.v4) && NoDup(a.v6) && NoDup(a.v4Subnets) && NoDup(a.v6Subnets)
    && IsCanonical(a)
  }

  ghost predicate SameAddrs(a: DestinationAddrs, b: DestinationAddrs) {
    && SameMembers(a.v4, b.v4) && SameMembers(a.v6, b.v6)
    && SameMembers(a.v4Subnets, b.v4Subnets) && SameMembers(a.v6Subnets, b.v6Subnets)
  }

  ghost predicate Within(a: DestinationAddrs, b: DestinationAddrs) {
    Sub(a.v4, b.v4) && Sub(a.v6, b.v6) && Sub(a.v4Subnets, b.v4Subnets) && Sub(a.v6Subnets, b.v6Subnets)
  }

  ghost predicate DisjointAddrs(a: DestinationAddrs, b: DestinationAddrs) {
    && Disjoint(a.v4, b.v4) && Disjoint(a.v6, b.v6)
    && Disjoint(a.v4Subnets, b.v4Subnets) && Disjoint(a.v6Subnets, b.v6Subnets)
  }

  lemma CanonicalFixed(a: DestinationAddrs)
    requires IsCanonical(a)
    ensures CanonicalAddrs(a) == a
  {
    assert TruncAll4(a.v4Subnets) == a.v4Subnets;
    assert TruncAll6(a.v6Subnets) == a.v6Subnets;
  }

  lemma CanonicalTwice(a: DestinationAddrs)
    ensures IsCanonical(CanonicalAddrs(a))
    ensures CanonicalAddrs(CanonicalAddrs(a)) == CanonicalAddrs(a)
  {
    forall i | 0 <= i < |a.v4Subnets| ensures Trunc4(TruncAll4(a.v4Subnets)[i]) == TruncAll4(a.v4Subnets)[i] {
      TruncTwice4(a.v4Subnets[i]);
    }
    forall i | 0 <= i < |a.v6Subnets| ensures Trunc6(TruncAll6(a.v6Subnets)[i]) == TruncAll6(a.v6Subnets)[i] {
      TruncTwice6(a.v6Subnets[i]);
    }
    CanonicalFixed(CanonicalAddrs(a));
  }

  /** Every list keeps members that are canonical whenever its sources do. */
  lemma CanonicalByMembers(a: DestinationAddrs, b: DestinationAddrs, c: DestinationAddrs)
    requires IsCanonical(a) && IsCanonical(b)
    requires forall x :: x in c.v4Subnets ==> x in a.v4Subnets || x in b.v4Subnets
    requires forall x :: x in c.v6Subnets ==> x in a.v6Subnets || x in b.v6Subnets
    ensures IsCanonical(c)
  {
    assert forall x :: x in a.v4Subnets ==> Trunc4(x) == x;
    assert forall x :: x in b.v4Subnets ==> Trunc4(x) == x;
    assert forall x :: x in a.v6Subnets ==> Trunc6(x) == x;
    assert forall x :: x in b.v6Subnets ==> Trunc6(x) == x;
  }

  /** Lenient application never breaks a clean set, however odd the change. */
  lemma LenientKeepsClean(c: AddressChanges, current: DestinationAddrs)
    requires CleanAddrs(current)
    ensures CleanAddrs(ApplyLenient(c, current))
  {
    var k := Canonical(c);
    ApplyMembers(current.v4, k.added.v4, k.removed.v4);
    ApplyMembers(current.v6, k.added.v6, k.removed.v6);
    ApplyMembers(current.v4Subnets, k.added.v4Subnets, k.removed.v4Subnets);
    ApplyMembers(current.v6Subnets, k.added.v6Subnets, k.removed.v6Subnets);
    CanonicalTwice(c.added);
    CanonicalByMembers(current, CanonicalAddrs(c.added), ApplyLenient(c, current));
  }

  lemma BetweenIsClean(old_: DestinationAddrs, new_: DestinationAddrs)
    requires CleanAddrs(old_) && CleanAddrs(new_)
    ensures var c := Between(old_, new_); CleanAddrs(c.added) && CleanAddrs(c.removed) && Canonical(c) == c
  {
    DifferenceIsClean(new_, old_);
    DifferenceIsClean(old_, new_);
    CanonicalFixed(Difference(new_, old_));
    CanonicalFixed(Difference(old_, new_));
  }

  lemma DifferenceIsClean(a: DestinationAddrs, b: DestinationAddrs)
    requires CleanAddrs(a)
    ensures CleanAddrs(Difference(a, b))
  {
    MinusMembers(a.v4, b.v4);
    MinusMembers(a.v6, b.v6);
    MinusMembers(a.v4Subnets, b.v4Subnets);
    MinusMembers(a.v6Subnets, b.v6Subnets);
    CanonicalByMembers(a, a, Difference(a, b));
  }

  /** Diff, then patch: applying `between(old, new)` strictly to `old` always
      succeeds and yields the members of `new`. */
  lemma DiffThenPatch(old_: DestinationAddrs, new_: DestinationAddrs)
    requires CleanAddrs(old_) && CleanAddrs(new_)
    ensures var r := ApplyStrict(Between(old_, new_), old_);
            r.Some? && SameAddrs(r.value, new_) && CleanAddrs(r.value)
  {
    BetweenIsClean(old_, new_);
    DifferenceIsStrict(old_.v4, new_.v4);
    DifferenceIsStrict(old_.v6, new_.v6);
    DifferenceIsStrict(old_.v4Subnets, new_.v4Subnets);
    DifferenceIsStrict(old_.v6Subnets, new_.v6Subnets);
    LenientKeepsClean(Between(old_, new_), old_);
  }

  /** A command's effective change rebuilds the sender's own list, order included. */
  lemma EffectiveChangeMirrors(c: AddressChanges, current: DestinationAddrs)
    requires CleanAddrs(current)
    ensures ApplyStrict(Between(current, ApplyLenient(c, current)), current)
         == Some(ApplyLenient(c, current))
  {
    var k := Canonical(c);
    var desired := ApplyLenient(c, current);
    LenientKeepsClean(c, current);
    BetweenIsClean(current, desired);
    EffectiveRebuilds(current.v4, k.added.v4, k.removed.v4);
    EffectiveRebuilds(current.v6, k.added.v6, k.removed.v6);
    EffectiveRebuilds(current.v4Subnets, k.added.v4Subnets, k.removed.v4Subnets);
    EffectiveRebuilds(current.v6Subnets, k.added.v6Subnets, k.removed.v6Subnets);
  }

  /** A strict success is exactly the lenient result. */
  lemma StrictAgreesWithLenient(c: AddressChanges, current: DestinationAddrs)
    requires ApplyStrict(c, current).Some?
    ensures ApplyStrict(c, current).value == ApplyLenient(c, current)
  {
    CanonicalTwice(c.added);
    CanonicalTwice(c.removed);
  }

  lemma {:induction false} KeepAll<T>(s: seq<T>)
    ensures Keep(s, [], []) == s
  {
    if |s| > 0 {
      KeepAll(s[..|s| - 1]);
      assert s[..|s| - 1] + [s[|s| - 1]] == s;
    }
  }

  lemma NoChangeApplies(a: DestinationAddrs)
    ensures ApplyStrict(NO_CHANGES, a) == Some(a)
  {
    KeepAll(a.v4);
    KeepAll(a.v6);
    KeepAll(a.v4Subnets);
    KeepAll(a.v6Subnets);
    assert Canonical(NO_CHANGES) == NO_CHANGES;
  }

  lemma FreshFamily<T(!new)>(a: seq<T>)
    requires NoDup(a)
    ensures Apply([], a, []) == a && StrictFamily([], a, []) && ValidFamily(a, [])
  {
    ApplyIs([], a, []);
    PushAllNew([], a, []);
    ValidFamilyMeans(a, []);
  }

  /** A first list is a strict change from nothing. */
  lemma FreshApplies(a: DestinationAddrs)
    requires CleanAddrs(a)
    ensures ApplyStrict(AddressChanges(a, NO_ADDRS), NO_ADDRS) == Some(a)
  {
    CanonicalFixed(a);
    CanonicalFixed(NO_ADDRS);
    assert Canonical(AddressChanges(a, NO_ADDRS)) == AddressChanges(a, NO_ADDRS);
    hide Apply, StrictFamily, ValidFamily, NoDup, Canonical, CanonicalAddrs;
    FreshFamily(a.v4);
    FreshFamily(a.v6);
    FreshFamily(a.v4Subnets);
    FreshFamily(a.v6Subnets);
  }

  /** An empty difference means the same members. */
  lemma EmptyDifference(a: DestinationAddrs, b: DestinationAddrs)
    ensures Between(a, b) == NO_CHANGES <==> SameAddrs(a, b)
  {
    EmptyFamily(a.v4, b.v4);
    EmptyFamily(a.v6, b.v6);
    EmptyFamily(a.v4Subnets, b.v4Subnets);
    EmptyFamily(a.v6Subnets, b.v6Subnets);
  }

  lemma EmptyFamily<T(!new)>(a: seq<T>, b: seq<T>)
    ensures Minus(a, b) == [] && Minus(b, a) == [] <==> SameMembers(a, b)
  {
    MinusMembers(a, b);
    MinusMembers(b, a);
    if Minus(a, b) != [] { assert Minus(a, b)[0] in Minus(a, b); }
    if Minus(b, a) != [] { assert Minus(b, a)[0] in Minus(b, a); }
  }

  // --- Reading and writing address items ------------------------------------

  predicate IsAddressItem(item: DataItem) {
    item.Ipv4Address? || item.Ipv6Address? || item.Ipv4AttachedSubnet? || item.Ipv6AttachedSubnet?
  }

  function PushItem(c: AddressChanges, item: DataItem): AddressChanges {
    match item
    case Ipv4Address(add, a) =>
      if add then c.(added := c.added.(v4 := c.added.v4 + [a]))
      else c.(removed := c.removed.(v4 := c.removed.v4 + [a]))
    case Ipv6Address(add, a) =>
      if add then c.(added := c.added.(v6 := c.added.v6 + [a]))
      else c.(removed := c.removed.(v6 := c.removed.v6 + [a]))
    case Ipv4AttachedSubnet(add, n) =>
      if add then c.(added := c.added.(v4Subnets := c.added.v4Subnets + [Trunc4(n)]))
      else c.(removed := c.removed.(v4Subnets := c.removed.v4Subnets + [Trunc4(n)]))
    case Ipv6AttachedSubnet(add, n) =>
      if add then c.(added := c.added.(v6Subnets := c.added.v6Subnets + [Trunc6(n)]))
      else c.(removed := c.removed.(v6Subnets := c.removed.v6Subnets + [Trunc6(n)]))
    case _ => c
  }

  /** Collect the address items of `items` after those already in `c`. */
  function Collect(c: AddressChanges, items: seq<DataItem>): AddressChanges {
    if |items| == 0 then c else PushItem(Collect(c, items[..|items| - 1]), items[|items| - 1])
  }

  function FromItems(items: seq<DataItem>): AddressChanges {
    Collect(NO_CHANGES, items)
  }

  method FromMessage(msg: Message) returns (changes: AddressChanges)
    ensures changes == FromItems(msg.items)
  {
    changes := NO_CHANGES;
    for i := 0 to |msg.items|
      invariant changes == FromItems(msg.items[..i])
    {
      assert msg.items[..i + 1][..i] == msg.items[..i];
      changes := PushItem(changes, msg.items[i]);
    }
    assert msg.items[..|msg.items|] == msg.items;
  }

  function Items4(add: bool, s: seq<u32>): seq<DataItem> {
    seq(|s|, i requires 0 <= i < |s| => Ipv4Address(add, s[i]))
  }
  function Items6(add: bool, s: seq<u128>): seq<DataItem> {
    seq(|s|, i requires 0 <= i < |s| => Ipv6Address(add, s[i]))
  }
  function ItemsNet4(add: bool, s: seq<Ipv4Net>): seq<DataItem> {
    seq(|s|, i requires 0 <= i < |s| => Ipv4AttachedSubnet(add, s[i]))
  }
  function ItemsNet6(add: bool, s: seq<Ipv6Net>): seq<DataItem> {
    seq(|s|, i requires 0 <= i < |s| => Ipv6AttachedSubnet(add, s[i]))
  }

  function Listing(add: bool, a: DestinationAddrs): seq<DataItem> {
    Items4(add, a.v4) + Items6(add, a.v6) + ItemsNet4(add, a.v4Subnets) + ItemsNet6(add, a.v6Subnets)
  }

  /** The items `append_to` pushes: removals first, subnets truncated. */
  function ChangeItems(c: AddressChanges): seq<DataItem> {
    Listing(false, CanonicalAddrs(c.removed)) + Listing(true, CanonicalAddrs(c.added))
  }

  method Append4(items: seq<DataItem>, add: bool, s: seq<u32>) returns (r: seq<DataItem>)
    ensures r == items + Items4(add, s)
  {
    r := items;
    for i := 0 to |s|
      invariant r == items + Items4(add, s)[..i]
    {
      r := r + [Ipv4Address(add, s[i])];
    }
  }

  method Append6(items: seq<DataItem>, add: bool, s: seq<u128>) returns (r: seq<DataItem>)
    ensures r == items + Items6(add, s)
  {
    r := items;
    for i := 0 to |s|
      invariant r == items + Items6(add, s)[..i]
    {
      r := r + [Ipv6Address(add, s[i])];
    }
  }

  method AppendNet4(items: seq<DataItem>, add: bool, s: seq<Ipv4Net>) returns (r: seq<DataItem>)
    ensures r == items + ItemsNet4(add, TruncAll4(s))
  {
    r := items;
    for i := 0 to |s|
      invariant r == items + ItemsNet4(add, TruncAll4(s))[..i]
    {
      r := r + [Ipv4AttachedSubnet(add, Trunc4(s[i]))];
    }
  }

  method AppendNet6(items: seq<DataItem>, add: bool, s: seq<Ipv6Net>) returns (r: seq<DataItem>)
    ensures r == items + ItemsNet6(add, TruncAll6(s))
  {
    r := items;
    for i := 0 to |s|
      invariant r == items + ItemsNet6(add, TruncAll6(s))[..i]
    {
      r := r + [Ipv6AttachedSubnet(add, Trunc6(s[i]))];
    }
  }

  /** One family after the other. */
  method AppendListing(items: seq<DataItem>, add: bool, a: DestinationAddrs) returns (r: seq<DataItem>)
    ensures r == items + Listing(add, CanonicalAddrs(a))
  {
    hide Items4, Items6, ItemsNet4, ItemsNet6, TruncAll4, TruncAll6;
    r := Append4(items, add, a.v4);
    r := Append6(r, add, a.v6);
    r := AppendNet4(r, add, a.v4Subnets);
    r := AppendNet6(r, add, a.v6Subnets);
    var c := CanonicalAddrs(a);
    assert r == items + Items4(add, c.v4) + Items6(add, c.v6)
                + ItemsNet4(add, c.v4Subnets) + ItemsNet6(add, c.v6Subnets);
  }

  method AppendTo(c: AddressChanges, msg: Message) returns (r: Message)
    ensures r == Message(msg.messageType, msg.items + ChangeItems(c))
  {
    var items := AppendListing(msg.items, false, c.removed);
    items := AppendListing(items, true, c.added);
    r := Message(msg.messageType, items);
  }

  lemma {:induction false} CollectConcat(c: AddressChanges, a: seq<DataItem>, b: seq<DataItem>)
    ensures Collect(c, a + b) == Collect(Collect(c, a), b)
  {
    if |b| == 0 {
      assert a + b == a;
    } else {
      assert (a + b)[..|a + b| - 1] == a + b[..|b| - 1];
      CollectConcat(c, a, b[..|b| - 1]);
    }
  }

  lemma {:induction false} CollectNothing(c: AddressChanges, items: seq<DataItem>)
    requires forall i :: 0 <= i < |items| ==> !IsAddressItem(items[i])
    ensures Collect(c, items) == c
  {
    if |items| > 0 {
      CollectNothing(c, items[..|items| - 1]);
    }
  }

  lemma PushItemCanonical(c: AddressChanges, item: DataItem)
    requires IsCanonical(c.added) && IsCanonical(c.removed)
    ensures IsCanonical(PushItem(c, item).added) && IsCanonical(PushItem(c, item).removed)
  {
    if item.Ipv4AttachedSubnet? { TruncTwice4(item.net4); }
    if item.Ipv6AttachedSubnet? { TruncTwice6(item.net6); }
  }

  /** What is read from a message is canonical, host bits or not. */
  lemma {:induction false} FromItemsCanonical(items: seq<DataItem>)
    ensures var c := FromItems(items); IsCanonical(c.added) && IsCanonical(c.removed) && Canonical(c) == c
  {
    if |items| > 0 {
      FromItemsCanonical(items[..|items| - 1]);
      PushItemCanonical(FromItems(items[..|items| - 1]), items[|items| - 1]);
    }
    CanonicalFixed(FromItems(items).added);
    CanonicalFixed(FromItems(items).removed);
  }

  /** The additions of a change that validates are clean. */
  lemma ValidatedIsClean(items: seq<DataItem>)
    requires Validate(FromItems(items))
    ensures CleanAddrs(FromItems(items).added)
  {
    var c := FromItems(items);
    FromItemsCanonical(items);
    ValidFamilyMeans(c.added.v4, c.removed.v4);
    ValidFamilyMeans(c.added.v6, c.removed.v6);
    ValidFamilyMeans(c.added.v4Subnets, c.removed.v4Subnets);
    ValidFamilyMeans(c.added.v6Subnets, c.removed.v6Subnets);
  }

  function Extend(a: DestinationAddrs, b: DestinationAddrs): DestinationAddrs {
    DestinationAddrs(a.v4 + b.v4, a.v6 + b.v6, a.v4Subnets + b.v4Subnets, a.v6Subnets + b.v6Subnets)
  }

  function ExtendSide(c: AddressChanges, add: bool, a: DestinationAddrs): AddressChanges {
    if add then c.(added := Extend(c.added, a)) else c.(removed := Extend(c.removed, a))
  }

  lemma {:induction false} CollectItems4(c: AddressChanges, add: bool, s: seq<u32>)
    ensures Collect(c, Items4(add, s)) == ExtendSide(c, add, NO_ADDRS.(v4 := s))
  {
    if |s| == 0 {
      assert c.added == Extend(c.added, NO_ADDRS.(v4 := s)) && c.removed == Extend(c.removed, NO_ADDRS.(v4 := s));
    } else {
      var front := s[..|s| - 1];
      assert Items4(add, s)[..|s| - 1] == Items4(add, front);
      CollectItems4(c, add, front);
      assert s == front + [s[|s| - 1]];
      assert c.added.v4 + s == c.added.v4 + front + [s[|s| - 1]];
      assert c.removed.v4 + s == c.removed.v4 + front + [s[|s| - 1]];
    }
  }

  lemma {:induction false} CollectItems6(c: AddressChanges, add: bool, s: seq<u128>)
    ensures Collect(c, Items6(add, s)) == ExtendSide(c, add, NO_ADDRS.(v6 := s))
  {
    if |s| == 0 {
      assert c.added == Extend(c.added, NO_ADDRS.(v6 := s)) && c.removed == Extend(c.removed, NO_ADDRS.(v6 := s));
    } else {
      var front := s[..|s| - 1];
      assert Items6(add, s)[..|s| - 1] == Items6(add, front);
      CollectItems6(c, add, front);
      assert s == front + [s[|s| - 1]];
      assert c.added.v6 + s == c.added.v6 + front + [s[|s| - 1]];
      assert c.removed.v6 + s == c.removed.v6 + front + [s[|s| - 1]];
    }
  }

  lemma {:induction false} CollectItemsNet4(c: AddressChanges, add: bool, s: seq<Ipv4Net>)
    ensures Collect(c, ItemsNet4(add, s)) == ExtendSide(c, add, NO_ADDRS.(v4Subnets := TruncAll4(s)))
  {
    if |s| == 0 {
      assert TruncAll4(s) == [];
      assert c.added == Extend(c.added, NO_ADDRS) && c.removed == Extend(c.removed, NO_ADDRS);
    } else {
      var front := s[..|s| - 1];
      var last := Trunc4(s[|s| - 1]);
      assert ItemsNet4(add, s)[..|s| - 1] == ItemsNet4(add, front);
      CollectItemsNet4(c, add, front);
      assert TruncAll4(s) == TruncAll4(front) + [last];
      assert c.added.v4Subnets + TruncAll4(s) == c.added.v4Subnets + TruncAll4(front) + [last];
      assert c.removed.v4Subnets + TruncAll4(s) == c.removed.v4Subnets + TruncAll4(front) + [last];
    }
  }

  lemma {:induction false} CollectItemsNet6(c: AddressChanges, add: bool, s: seq<Ipv6Net>)
    ensures Collect(c, ItemsNet6(add, s)) == ExtendSide(c, add, NO_ADDRS.(v6Subnets := TruncAll6(s)))
  {
    if |s| == 0 {
      assert TruncAll6(s) == [];
      assert c.added == Extend(c.added, NO_ADDRS) && c.removed == Extend(c.removed, NO_ADDRS);
    } else {
      var front := s[..|s| - 1];
      var last := Trunc6(s[|s| - 1]);
      assert ItemsNet6(add, s)[..|s| - 1] == ItemsNet6(add, front);
      CollectItemsNet6(c, add, front);
      assert TruncAll6(s) == TruncAll6(front) + [last];
      assert c.added.v6Subnets + TruncAll6(s) == c.added.v6Subnets + TruncAll6(front) + [last];
      assert c.removed.v6Subnets + TruncAll6(s) == c.removed.v6Subnets + TruncAll6(front) + [last];
    }
  }

  lemma ExtendTwice(c: AddressChanges, add: bool, a: DestinationAddrs, b: DestinationAddrs)
    ensures ExtendSide(ExtendSide(c, add, a), add, b) == ExtendSide(c, add, Extend(a, b))
  {
    var x := if add then c.added else c.removed;
    assert Extend(Extend(x, a), b) == Extend(x, Extend(a, b));
  }

  lemma CollectListing(c: AddressChanges, add: bool, a: DestinationAddrs)
    ensures Collect(c, Listing(add, a)) == ExtendSide(c, add, CanonicalAddrs(a))
  {
    var i4, i6 := Items4(add, a.v4), Items6(add, a.v6);
    var n4, n6 := ItemsNet4(add, a.v4Subnets), ItemsNet6(add, a.v6Subnets);
    var x4, x6 := NO_ADDRS.(v4 := a.v4), NO_ADDRS.(v6 := a.v6);
    var y4, y6 := NO_ADDRS.(v4Subnets := TruncAll4(a.v4Subnets)), NO_ADDRS.(v6Subnets := TruncAll6(a.v6Subnets));
    calc {
      Collect(c, Listing(add, a));
      { CollectConcat(c, i4 + i6 + n4, n6); }
      Collect(Collect(c, i4 + i6 + n4), n6);
      { CollectConcat(c, i4 + i6, n4); }
      Collect(Collect(Collect(c, i4 + i6), n4), n6);
      { CollectConcat(c, i4, i6); CollectItems4(c, add, a.v4); }
      Collect(Collect(Collect(ExtendSide(c, add, x4), i6), n4), n6);
      { CollectItems6(ExtendSide(c, add, x4), add, a.v6); ExtendTwice(c, add, x4, x6); }
      Collect(Collect(ExtendSide(c, add, Extend(x4, x6)), n4), n6);
      { CollectItemsNet4(ExtendSide(c, add, Extend(x4, x6)), add, a.v4Subnets);
        ExtendTwice(c, add, Extend(x4, x6), y4); }
      Collect(ExtendSide(c, add, Extend(Extend(x4, x6), y4)), n6);
      { CollectItemsNet6(ExtendSide(c, add, Extend(Extend(x4, x6), y4)), add, a.v6Subnets);
        ExtendTwice(c, add, Extend(Extend(x4, x6), y4), y6); }
      ExtendSide(c, add, Extend(Extend(Extend(x4, x6), y4), y6));
      { assert Extend(Extend(Extend(x4, x6), y4), y6) == CanonicalAddrs(a); }
      ExtendSide(c, add, CanonicalAddrs(a));
    }
  }

  /** Reading back what was written returns the canonical change exactly. */
  lemma WriteThenRead(prefix: seq<DataItem>, c: AddressChanges)
    requires forall i :: 0 <= i < |prefix| ==> !IsAddressItem(prefix[i])
    ensures FromItems(prefix + ChangeItems(c)) == Canonical(c)
  {
    var removals := Listing(false, CanonicalAddrs(c.removed));
    var additions := Listing(true, CanonicalAddrs(c.added));
    hide Listing, Collect;
    assert prefix + ChangeItems(c) == (prefix + removals) + additions;
    CollectConcat(NO_CHANGES, prefix + removals, additions);
    CollectConcat(NO_CHANGES, prefix, removals);
    CollectNothing(NO_CHANGES, prefix);
    CollectListing(NO_CHANGES, false, CanonicalAddrs(c.removed));
    CollectListing(Collect(NO_CHANGES, removals), true, CanonicalAddrs(c.added));
    CanonicalTwice(c.added);
    CanonicalTwice(c.removed);
  }

  /** A run of lenient changes, one after the other. */
  function ApplyAll(changes: seq<AddressChanges>, current: DestinationAddrs): DestinationAddrs {
    if |changes| == 0 then current
    else ApplyLenient(changes[|changes| - 1], ApplyAll(changes[..|changes| - 1], current))
  }

  /** What a peer that records session addresses ends with when each effective
      change is sent in turn; None if it refuses one. */
  function SendEach(changes: seq<AddressChanges>, current: DestinationAddrs, peer: DestinationAddrs)
    : Option<DestinationAddrs>
  {
    if |changes| == 0 then Some(peer) else
      var front := changes[..|changes| - 1];
      var before := ApplyAll(front, current);
      match SendEach(front, current, peer)
      case None => None
      case Some(p) => ApplyStrict(Between(before, ApplyLenient(changes[|changes| - 1], before)), p)
  }

  /** Session addresses: sent in turn, every change is accepted and the record
      ends equal to the sender's list; the one difference over the whole run is
      accepted too and gives the same members. */
  lemma {:induction false} SessionRecordFollows(changes: seq<AddressChanges>, start: DestinationAddrs)
    requires CleanAddrs(start)
    ensures CleanAddrs(ApplyAll(changes, start))
    ensures SendEach(changes, start, start) == Some(ApplyAll(changes, start))
    ensures var once := ApplyStrict(Between(start, ApplyAll(changes, start)), start);
            once.Some? && SameAddrs(once.value, SendEach(changes, start, start).value)
  {
    if |changes| > 0 {
      var front := changes[..|changes| - 1];
      SessionRecordFollows(front, start);
      var before := ApplyAll(front, start);
      LenientKeepsClean(changes[|changes| - 1], before);
      EffectiveChangeMirrors(changes[|changes| - 1], before);
    }
    DiffThenPatch(start, ApplyAll(changes, start));
  }
}
