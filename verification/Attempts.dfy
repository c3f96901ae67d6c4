/** The table of running connection attempts and the endpoints they reserve
    (crates/dlep-router/src/connect.rs:26-119). The futures themselves are not
    part of this model; which of them is ready is a parameter.
 */
module Attempts {
  import opened Types
  import Registry

  type Peer = Registry.Peer

  const MAX_CONNECT_ATTEMPTS: nat := 8

  datatype Attempt = Attempt(endpoints: seq<Peer>, retryPeer: Option<Peer>)

  function Held(attempts: seq<Attempt>): set<Peer> {
    set i, p | 0 <= i < |attempts| && p in attempts[i].endpoints :: p
  }

  /** No endpoint is tried by two attempts at once. */
  ghost predicate Exclusive(attempts: seq<Attempt>) {
    forall i, j, p :: 0 <= i < j < |attempts| && p in attempts[i].endpoints ==> p !in attempts[j].endpoints
  }

  /** What `retain` leaves. */
  function Retained(attempts: seq<Attempt>, keep: set<Peer>): seq<Attempt> {
    if |attempts| == 0 then [] else
      var front, last := Retained(attempts[..|attempts| - 1], keep), attempts[|attempts| - 1];
      if last.retryPeer.None? || last.retryPeer.value in keep then front + [last] else front
  }

  lemma {:induction false} RetainedAre(attempts: seq<Attempt>, keep: set<Peer>)
    ensures forall a :: a in Retained(attempts, keep) <==>
              a in attempts && (a.retryPeer.None? || a.retryPeer.value in keep)
    ensures |Retained(attempts, keep)| <= |attempts|
  {
    if |attempts| > 0 {
      RetainedAre(attempts[..|attempts| - 1], keep);
      assert attempts == attempts[..|attempts| - 1] + [attempts[|attempts| - 1]];
    }
  }

  lemma {:induction false} RetainedExclusive(attempts: seq<Attempt>, keep: set<Peer>)
    requires Exclusive(attempts)
    ensures Exclusive(Retained(attempts, keep))
  {
    if |attempts| > 0 {
      var front, last := attempts[..|attempts| - 1], attempts[|attempts| - 1];
      RetainedExclusive(front, keep);
      RetainedAre(front, keep);
      var kept := Retained(front, keep);
      forall i, p | 0 <= i < |kept| && p in kept[i].endpoints ensures p !in last.endpoints {
        assert kept[i] in front;
        var k :| 0 <= k < |front| && front[k] == kept[i];
        assert attempts[k] == kept[i];
      }
    }
  }

  /** `a` was the first ready attempt, and the others keep their order. */
  ghost predicate TakenAt(before: seq<Attempt>, ready: set<nat>, i: nat, a: Attempt, after: seq<Attempt>) {
    && i < |before| && i in ready && (forall j :: 0 <= j < i ==> j !in ready)
    && before[i] == a && after == before[..i] + before[i + 1..]
  }

  class ConnectAttempts {
    var attempts: seq<Attempt>
    var reserved: set<Peer>

    /** The reservations are exactly the endpoints of the running attempts. */
    ghost predicate Valid()
      reads this
    {
      |attempts| <= MAX_CONNECT_ATTEMPTS && reserved == Held(attempts) && Exclusive(attempts)
    }

    constructor ()
      ensures Valid() && attempts == [] && reserved == {}
    {
      attempts := [];
      reserved := {};
    }

    /** Accepted just when there is room, something to try, and no overlap. */
    method Insert(endpoints: seq<Peer>, retryPeer: Option<Peer>) returns (ok: bool)
      requires Valid()
      modifies this
      ensures Valid()
      ensures ok <==> |old(attempts)| < MAX_CONNECT_ATTEMPTS && endpoints != []
                      && forall p :: p in endpoints ==> p !in old(reserved)
      ensures attempts == old(attempts) + if ok then [Attempt(endpoints, retryPeer)] else []
    {
      if MAX_CONNECT_ATTEMPTS - |attempts| == 0 || endpoints == [] || exists p :: p in endpoints && p in reserved {
        return false;
      }
      var attempt := Attempt(endpoints, retryPeer);
      InsertHeld(attempts, attempt);
      reserved := reserved + set p | p in endpoints;
      attempts := attempts + [attempt];
      return true;
    }

    /** Cancel the retries that are no longer wanted, and free what they held. */
    method RetainRetries(keep: set<Peer>)
      requires Valid()
      modifies this
      ensures Valid()
      ensures attempts == Retained(old(attempts), keep)
    {
      var kept := [];
      assert kept + attempts[0..] == attempts;
      for i := 0 to |attempts|
        invariant attempts == old(attempts)
        invariant kept == Retained(attempts[..i], keep)
        invariant reserved == Held(kept + attempts[i..])
      {
        var a := attempts[i];
        assert attempts[..i + 1][..i] == attempts[..i];
        var retain := a.retryPeer.None? || a.retryPeer.value in keep;
        if retain {
          assert kept + attempts[i..] == (kept + [a]) + attempts[i + 1..];
          kept := kept + [a];
        } else {
          StillExclusive(attempts, keep, i);
          RemoveHeld(kept, a, attempts[i + 1..]);
          assert kept + attempts[i..] == kept + [a] + attempts[i + 1..];
          reserved := reserved - set p | p in a.endpoints;
        }
      }
      assert attempts[..|attempts|] == attempts && kept + attempts[|attempts|..] == kept;
      RetainedAre(attempts, keep);
      RetainedExclusive(attempts, keep);
      attempts := kept;
    }

    /** The first attempt that is ready leaves the table. */
    method Complete(ready: set<nat>) returns (done: Option<Attempt>)
      requires Valid()
      modifies this
      ensures Valid()
      ensures done.None? <==> forall i :: 0 <= i < |old(attempts)| ==> i !in ready
      ensures done.None? ==> attempts == old(attempts)
      ensures done.Some? ==> exists i :: TakenAt(old(attempts), ready, i, done.value, attempts)
    {
      for i := 0 to |attempts|
        invariant attempts == old(attempts) && reserved == old(reserved)
        invariant forall j :: 0 <= j < i ==> j !in ready
      {
        if i in ready {
          var a := attempts[i];
          assert attempts == attempts[..i] + [a] + attempts[i + 1..];
          RemoveHeld(attempts[..i], a, attempts[i + 1..]);
          reserved := reserved - set p | p in a.endpoints;
          attempts := attempts[..i] + attempts[i + 1..];
          assert TakenAt(old(attempts), ready, i, a, attempts);
          return Some(a);
        }
      }
      return None;
    }
  }

  lemma InsertHeld(attempts: seq<Attempt>, a: Attempt)
    requires Exclusive(attempts) && forall p :: p in a.endpoints ==> p !in Held(attempts)
    ensures Held(attempts + [a]) == Held(attempts) + (set p | p in a.endpoints)
    ensures Exclusive(attempts + [a])
  {
    var after := attempts + [a];
    forall p ensures p in Held(after) <==> p in Held(attempts) || p in a.endpoints {
      if p in Held(attempts) {
        var i :| 0 <= i < |attempts| && p in attempts[i].endpoints;
        assert after[i] == attempts[i];
      }
      if p in a.endpoints { assert after[|attempts|] == a; }
    }
  }

  /** Exclusive attempts can be taken out without touching the others' reservations. */
  lemma RemoveHeld(front: seq<Attempt>, a: Attempt, back: seq<Attempt>)
    requires Exclusive(front + [a] + back)
    ensures Held(front + [a] + back) - (set p | p in a.endpoints) == Held(front + back)
    ensures Exclusive(front + back)
  {
    var all, rest := front + [a] + back, front + back;
    var k := |front|;
    assert all[k] == a;
    assert forall i :: 0 <= i < |rest| ==> rest[i] == all[if i < k then i else i + 1];
    forall p ensures p in Held(rest) <==> p in Held(all) && p !in a.endpoints {
      if p in Held(rest) {
        var i :| 0 <= i < |rest| && p in rest[i].endpoints;
        assert p in all[if i < k then i else i + 1].endpoints;
      }
      if p in Held(all) && p !in a.endpoints {
        var i :| 0 <= i < |all| && p in all[i].endpoints;
        assert i != k;
        assert rest[if i < k then i else i - 1] == all[i];
      }
    }
  }

  lemma StillExclusive(attempts: seq<Attempt>, keep: set<Peer>, i: nat)
    requires Exclusive(attempts) && i < |attempts|
    ensures Exclusive(Retained(attempts[..i], keep) + [attempts[i]] + attempts[i + 1..])
  {
    var front := attempts[..i];
    var kept := Retained(front, keep);
    var back := [attempts[i]] + attempts[i + 1..];
    assert Exclusive(front);
    RetainedExclusive(front, keep);
    RetainedAre(front, keep);
    forall x, y, p | 0 <= x < |kept| && 0 <= y < |back| && p in kept[x].endpoints ensures p !in back[y].endpoints {
      assert kept[x] in front;
      var k :| 0 <= k < |front| && front[k] == kept[x];
      assert attempts[k] == kept[x] && attempts[i + y] == back[y];
    }
    forall x, y, p | 0 <= x < y < |back| && p in back[x].endpoints ensures p !in back[y].endpoints {
      assert attempts[i + x] == back[x] && attempts[i + y] == back[y];
    }
    var all := kept + [attempts[i]] + attempts[i + 1..];
    assert all == kept + back;
  }
}
