/** The session task's timer table and its filter for stale expiries
    (crates/dlep-daemon/src/session.rs:209-277, 541-565, 623-674).

    An expiry carries the generation of its arming. Aborting a sleeper cannot
    recall an expiry already in the channel, and nothing is assumed here about
    when or how often a sleeper fires.
 */
module Timers {
  import opened Types

  const WRAP: nat := 0x1_0000_0000_0000_0000

  datatype Entry = Entry(periodic: bool, generation: u64)
  datatype Table = Table(handles: map<u32, Entry>, last: map<u32, u64>)

  const EMPTY := Table(map[], map[])

  function NextGeneration(t: Table, id: u32): u64 {
    ((if id in t.last then t.last[id] else 0) + 1) % WRAP
  }

  function Armed(t: Table, id: u32, periodic: bool): Table {
    var g := NextGeneration(t, id);
    Table(t.handles[id := Entry(periodic, g)], t.last[id := g])
  }

  function Cancelled(t: Table, id: u32): Table { t.(handles := t.handles - {id}) }

  predicate IsCurrent(t: Table, id: u32, generation: u64) {
    id in t.handles && t.handles[id].generation == generation
  }

  function Forgotten(t: Table, id: u32): Table {
    if id in t.handles && !t.handles[id].periodic then t.(handles := t.handles - {id}) else t
  }

  class TimerSet {
    var handles: map<u32, Entry>
    var lastGenerations: map<u32, u64>

    function View(): Table
      reads this
    {
      Table(handles, lastGenerations)
    }

    constructor ()
      ensures View() == EMPTY
    {
      handles := map[];
      lastGenerations := map[];
    }

    method NextGenerationFor(id: u32) returns (generation: u64)
      modifies this`lastGenerations
      ensures generation == NextGeneration(old(View()), id)
      ensures lastGenerations == old(lastGenerations)[id := generation]
    {
      var last: nat := if id in lastGenerations then lastGenerations[id] else 0;
      generation := (last + 1) % WRAP;
      lastGenerations := lastGenerations[id := generation];
    }

    /** Take a generation and install it; the old sleeper, if any, is aborted. */
    method Arm(id: u32, periodic: bool) returns (generation: u64)
      modifies this
      ensures generation == NextGeneration(old(View()), id)
      ensures View() == Armed(old(View()), id, periodic)
    {
      generation := NextGenerationFor(id);
      handles := handles[id := Entry(periodic, generation)];
    }

    method Cancel(id: u32)
      modifies this
      ensures View() == Cancelled(old(View()), id)
    {
      handles := handles - {id};
    }

    method Forget(id: u32)
      modifies this
      ensures View() == Forgotten(old(View()), id)
    {
      if id in handles && !handles[id].periodic {
        handles := handles - {id};
      }
    }

    /** The head of the select arm: an expiry that passes is taken off the table. */
    method Accept(id: u32, generation: u64) returns (accepted: bool)
      modifies this
      ensures accepted == IsCurrent(old(View()), id, generation)
      ensures View() == if accepted then Forgotten(old(View()), id) else old(View())
    {
      accepted := id in handles && handles[id].generation == generation;
      if accepted { Forget(id); }
    }
  }

  // --- Runs -----------------------------------------------------------------

  datatype Arming = Arming(id: u32, periodic: bool, generation: u64)

  /** What the channel carries, with the arming it came from (which the program
      cannot see). */
  datatype Expiry = Expiry(id: u32, generation: u64, origin: nat)

  /** `current` is the latest uncancelled arming of an id; `delivered` lists the
      armings whose expiries reached the machine. */
  datatype Runtime = Runtime(table: Table, armings: seq<Arming>, channel: seq<Expiry>,
                             current: map<u32, nat>, delivered: seq<nat>)

  datatype Move = ArmMove(id: u32, periodic: bool) | CancelMove(id: u32) | FireMove(origin: nat) | DeliverMove

  const FRESH := Runtime(EMPTY, [], [], map[], [])

  predicate Passes(rt: Runtime) {
    rt.channel != [] && IsCurrent(rt.table, rt.channel[0].id, rt.channel[0].generation)
  }

  function Next(rt: Runtime, move: Move): Runtime {
    match move
    case ArmMove(id, periodic) =>
      rt.(table := Armed(rt.table, id, periodic),
          armings := rt.armings + [Arming(id, periodic, NextGeneration(rt.table, id))],
          current := rt.current[id := |rt.armings|])
    case CancelMove(id) => rt.(table := Cancelled(rt.table, id), current := rt.current - {id})
    case FireMove(origin) =>
      if origin < |rt.armings| then
        var a := rt.armings[origin];
        rt.(channel := rt.channel + [Expiry(a.id, a.generation, origin)])
      else rt
    case DeliverMove =>
      if rt.channel == [] then rt
      else if Passes(rt) then
        rt.(table := Forgotten(rt.table, rt.channel[0].id), channel := rt.channel[1..],
            delivered := rt.delivered + [rt.channel[0].origin])
      else rt.(channel := rt.channel[1..])
  }

  function Run(rt: Runtime, moves: seq<Move>): Runtime {
    if |moves| == 0 then rt else Next(Run(rt, moves[..|moves| - 1]), moves[|moves| - 1])
  }

  /** How often an id was armed. */
  function Count(armings: seq<Arming>, id: u32): nat {
    if |armings| == 0 then 0
    else Count(armings[..|armings| - 1], id) + if armings[|armings| - 1].id == id then 1 else 0
  }

  /** Fewer armings of any id than there are generations. */
  ghost predicate Bounded(armings: seq<Arming>) {
    forall id :: Count(armings, id) < WRAP
  }

  /** The n-th arming of an id has generation n, modulo the wrap. */
  ghost predicate Numbered(armings: seq<Arming>) {
    forall i :: 0 <= i < |armings| ==> armings[i].generation == Count(armings[..i + 1], armings[i].id) % WRAP
  }

  ghost predicate TableOk(rt: Runtime) {
    && Numbered(rt.armings)
    && (forall id :: Count(rt.armings, id) % WRAP == if id in rt.table.last then rt.table.last[id] else 0)
    && (forall id :: id in rt.current ==> rt.current[id] < |rt.armings| && rt.armings[rt.current[id]].id == id)
    && (forall id :: id in rt.table.handles ==>
          && id in rt.current
          && rt.table.handles[id].generation == rt.armings[rt.current[id]].generation
          && rt.table.handles[id].periodic == rt.armings[rt.current[id]].periodic)
  }

  ghost predicate ChannelOk(rt: Runtime) {
    forall i :: 0 <= i < |rt.channel| ==>
      var e := rt.channel[i];
      && e.origin < |rt.armings| && rt.armings[e.origin].id == e.id
      && rt.armings[e.origin].generation == e.generation
  }

  /** A one-shot that was delivered is no longer on the table. */
  ghost predicate DeliveredOk(rt: Runtime) {
    && (forall i :: 0 <= i < |rt.delivered| ==> rt.delivered[i] < |rt.armings|)
    && (forall i, j :: 0 <= i < j < |rt.delivered| && !rt.armings[rt.delivered[i]].periodic ==>
          rt.delivered[i] != rt.delivered[j])
    && (forall id, i :: id in rt.table.handles && 0 <= i < |rt.delivered| ==>
          id in rt.current && (rt.armings[rt.delivered[i]].periodic || rt.delivered[i] != rt.current[id]))
  }

  lemma {:induction false} CountMonotone(armings: seq<Arming>, id: u32, i: nat)
    requires i <= |armings|
    ensures Count(armings[..i], id) <= Count(armings, id)
  {
    if i == |armings| {
      assert armings[..i] == armings;
    } else {
      var front := armings[..|armings| - 1];
      assert armings[..i] == front[..i];
      CountMonotone(front, id, i);
    }
  }

  lemma CountStep(armings: seq<Arming>, id: u32, i: nat)
    requires i < |armings|
    ensures Count(armings[..i + 1], id) == Count(armings[..i], id) + if armings[i].id == id then 1 else 0
  {
    assert armings[..i + 1][..i] == armings[..i];
  }

  /** Two armings of an id share a generation exactly when their numbers are a
      whole number of wraps apart; so below the bound, never. */
  lemma GenerationsDiffer(armings: seq<Arming>, i: nat, j: nat)
    requires Numbered(armings) && i < j < |armings| && armings[i].id == armings[j].id
    ensures armings[i].generation == armings[j].generation <==>
              (Count(armings[..j + 1], armings[i].id) - Count(armings[..i + 1], armings[i].id)) % WRAP == 0
    ensures Bounded(armings) ==> armings[i].generation != armings[j].generation
  {
    var id := armings[i].id;
    var a, b := Count(armings[..i + 1], id), Count(armings[..j + 1], id);
    CountStep(armings, id, j);
    assert armings[..j][..i + 1] == armings[..i + 1];
    CountMonotone(armings[..j], id, i + 1);
    CountMonotone(armings, id, j + 1);
    SameResidue(a, b);
  }

  lemma SameResidue(a: nat, b: nat)
    requires a < b
    ensures a % WRAP == b % WRAP <==> (b - a) % WRAP == 0
  {
  }

  lemma NextResidue(n: nat)
    ensures (n % WRAP + 1) % WRAP == (n + 1) % WRAP
  {
  }

  /** Arming counts: one more for the id, the same for the rest. */
  lemma ArmCounts(armings: seq<Arming>, a: Arming, id: u32)
    ensures Count(armings + [a], id) == Count(armings, id) + if a.id == id then 1 else 0
  {
    assert (armings + [a])[..|armings|] == armings;
  }

  lemma ArmNumbers(armings: seq<Arming>, a: Arming)
    requires Numbered(armings) && a.generation == (Count(armings, a.id) + 1) % WRAP
    ensures Numbered(armings + [a])
  {
    var after := armings + [a];
    forall i | 0 <= i < |after| ensures after[i].generation == Count(after[..i + 1], after[i].id) % WRAP {
      if i < |armings| {
        assert after[..i + 1] == armings[..i + 1];
      } else {
        assert after[..i + 1] == after;
        ArmCounts(armings, a, a.id);
      }
    }
  }

  lemma ArmGeneration(rt: Runtime, id: u32)
    requires TableOk(rt)
    ensures NextGeneration(rt.table, id) == (Count(rt.armings, id) + 1) % WRAP
  {
    hide Numbered, Count;
    NextResidue(Count(rt.armings, id));
  }

  lemma ArmKeepsTable(rt: Runtime, id: u32, periodic: bool)
    requires TableOk(rt)
    ensures TableOk(Next(rt, ArmMove(id, periodic)))
  {
    hide Numbered, Count, NextGeneration;
    var after := Next(rt, ArmMove(id, periodic));
    var a := Arming(id, periodic, NextGeneration(rt.table, id));
    ArmGeneration(rt, id);
    ArmNumbers(rt.armings, a);
    forall k ensures Count(after.armings, k) % WRAP == if k in after.table.last then after.table.last[k] else 0 {
      ArmCounts(rt.armings, a, k);
    }
  }

  lemma NextKeepsChannel(rt: Runtime, move: Move)
    requires ChannelOk(rt)
    ensures ChannelOk(Next(rt, move))
  {
    hide NextGeneration;
  }

  lemma NextKeepsTable(rt: Runtime, move: Move)
    requires TableOk(rt) && ChannelOk(rt)
    ensures TableOk(Next(rt, move)) && ChannelOk(Next(rt, move))
  {
    hide Numbered, Count, NextGeneration, ChannelOk;
    NextKeepsChannel(rt, move);
    if move.ArmMove? {
      hide TableOk, Next;
      ArmKeepsTable(rt, move.id, move.periodic);
    }
  }

  /** Below the bound, an expiry passes the filter only if it came from the
      latest uncancelled arming of its id. */
  lemma OnlyLatestPasses(rt: Runtime)
    requires TableOk(rt) && ChannelOk(rt) && Bounded(rt.armings) && Passes(rt)
    ensures var e := rt.channel[0]; e.id in rt.current && rt.current[e.id] == e.origin
  {
    var e := rt.channel[0];
    var c := rt.current[e.id];
    hide Bounded, Numbered;
    if c < e.origin { GenerationsDiffer(rt.armings, c, e.origin); }
    else if e.origin < c { GenerationsDiffer(rt.armings, e.origin, c); }
  }

  lemma NextKeepsDelivered(rt: Runtime, move: Move)
    requires TableOk(rt) && ChannelOk(rt) && DeliveredOk(rt) && Bounded(rt.armings)
    ensures DeliveredOk(Next(rt, move))
  {
    if move.DeliverMove? && Passes(rt) { OnlyLatestPasses(rt); }
    hide Bounded, Numbered;
  }

  /** The latest arming of an id is on the table until it is cancelled or, if it
      is a one-shot, delivered. */
  ghost predicate LiveOk(rt: Runtime) {
    forall id :: id in rt.current && rt.current[id] < |rt.armings| && Live(rt, rt.current[id]) ==>
      id in rt.table.handles
  }

  predicate Live(rt: Runtime, k: nat)
    requires k < |rt.armings|
  {
    rt.armings[k].periodic || k !in rt.delivered
  }

  lemma NextKeepsLive(rt: Runtime, move: Move)
    requires TableOk(rt) && ChannelOk(rt) && DeliveredOk(rt) && LiveOk(rt) && Bounded(rt.armings)
    ensures LiveOk(Next(rt, move))
  {
    hide Bounded, Numbered, NextGeneration;
    if move.DeliverMove? && Passes(rt) {
      OnlyLatestPasses(rt);
      assert rt.channel[0].origin in Next(rt, move).delivered by {
        assert Next(rt, move).delivered[|rt.delivered|] == rt.channel[0].origin;
      }
    }
  }

  /** An expiry of the latest arming of its id, uncancelled and not a one-shot
      already delivered, passes. */
  lemma LivePasses(rt: Runtime)
    requires TableOk(rt) && ChannelOk(rt) && LiveOk(rt) && rt.channel != []
    requires var e := rt.channel[0]; e.id in rt.current && rt.current[e.id] == e.origin && Live(rt, e.origin)
    ensures Passes(rt)
  {
    hide Numbered, Count;
  }

  lemma {:induction false} ArmingsGrow(moves: seq<Move>, n: nat)
    requires n <= |moves|
    ensures Run(FRESH, moves[..n]).armings <= Run(FRESH, moves).armings
  {
    if n == |moves| {
      assert moves[..n] == moves;
    } else {
      var front := moves[..|moves| - 1];
      assert moves[..n] == front[..n];
      ArmingsGrow(front, n);
    }
  }

  lemma BoundedEarlier(a: seq<Arming>, b: seq<Arming>)
    requires a <= b && Bounded(b)
    ensures Bounded(a)
  {
    forall id ensures Count(a, id) < WRAP {
      assert b[..|a|] == a;
      CountMonotone(b, id, |a|);
    }
  }

  lemma FreshOk()
    ensures TableOk(FRESH) && ChannelOk(FRESH) && DeliveredOk(FRESH) && LiveOk(FRESH)
  {
  }

  lemma {:induction false} RunOk(moves: seq<Move>)
    requires Bounded(Run(FRESH, moves).armings)
    ensures var rt := Run(FRESH, moves); TableOk(rt) && ChannelOk(rt) && DeliveredOk(rt) && LiveOk(rt)
  {
    hide TableOk, ChannelOk, DeliveredOk, LiveOk, Bounded, Next;
    if |moves| == 0 {
      FreshOk();
    } else {
      var front := moves[..|moves| - 1];
      ArmingsGrow(moves, |moves| - 1);
      BoundedEarlier(Run(FRESH, front).armings, Run(FRESH, moves).armings);
      RunOk(front);
      NextKeepsTable(Run(FRESH, front), moves[|moves| - 1]);
      NextKeepsDelivered(Run(FRESH, front), moves[|moves| - 1]);
      NextKeepsLive(Run(FRESH, front), moves[|moves| - 1]);
    }
  }

  /** Over every interleaving of arming, firing, cancelling and delivery with
      fewer than 2^64 armings of an id: an expiry passes exactly when it comes from
      the latest uncancelled arming of its id and that is not a one-shot already
      delivered; and a one-shot arming is delivered at most once. */
  lemma StaleExpiriesFiltered(moves: seq<Move>)
    requires Bounded(Run(FRESH, moves).armings)
    ensures var rt := Run(FRESH, moves);
            && (forall i :: 0 <= i < |rt.channel| ==> rt.channel[i].origin < |rt.armings|)
            && (rt.channel != [] ==>
                  var e := rt.channel[0];
                  Passes(rt) <==> e.id in rt.current && rt.current[e.id] == e.origin && Live(rt, e.origin))
            && (forall i :: 0 <= i < |rt.delivered| ==> rt.delivered[i] < |rt.armings|)
            && (forall i, j :: 0 <= i < j < |rt.delivered| && !rt.armings[rt.delivered[i]].periodic ==>
                  rt.delivered[i] != rt.delivered[j])
  {
    RunOk(moves);
    var rt := Run(FRESH, moves);
    hide Bounded, Numbered, Count, LiveOk, Run;
    if Passes(rt) {
      OnlyLatestPasses(rt);
    } else if rt.channel != [] {
      var e := rt.channel[0];
      if e.id in rt.current && rt.current[e.id] == e.origin && Live(rt, e.origin) { LivePasses(rt); }
    }
  }

  function Deliveries(moves: seq<Move>): nat {
    if |moves| == 0 then 0
    else Deliveries(moves[..|moves| - 1]) + if moves[|moves| - 1].DeliverMove? then 1 else 0
  }

  /** Neither armed again nor cancelled meanwhile. */
  predicate LeavesAlone(moves: seq<Move>, id: u32) {
    forall i :: 0 <= i < |moves| ==> moves[i] != CancelMove(id) && !(moves[i].ArmMove? && moves[i].id == id)
  }

  /** The expiry of arming `k` is `ahead` places from the head of the channel. */
  ghost predicate Waiting(rt: Runtime, id: u32, k: nat, ahead: nat) {
    && id in rt.current && rt.current[id] == k && ahead < |rt.channel|
    && rt.channel[ahead].origin == k && rt.channel[ahead].id == id
  }

  lemma WaitingStep(rt: Runtime, move: Move, id: u32, k: nat, ahead: nat)
    requires TableOk(rt) && ChannelOk(rt) && LiveOk(rt) && LeavesAlone([move], id) && Waiting(rt, id, k, ahead)
    ensures var after := Next(rt, move);
            if !move.DeliverMove? then Waiting(after, id, k, ahead)
            else if ahead > 0 then Waiting(after, id, k, ahead - 1) || k in after.delivered
            else k in after.delivered
  {
    assert [move][0] == move;
    hide Numbered, Count, NextGeneration;
    var after := Next(rt, move);
    if move.DeliverMove? && ahead == 0 {
      if Live(rt, k) {
        LivePasses(rt);
        assert after.delivered[|rt.delivered|] == k;
      } else {
        DeliveredStays(rt, move, k);
      }
    }
  }

  lemma DeliveredStays(rt: Runtime, move: Move, k: nat)
    requires k in rt.delivered
    ensures k in Next(rt, move).delivered
  {
  }

  /** Where the expiry of arming `k` is after some deliveries. */
  ghost predicate OnItsWay(rt: Runtime, id: u32, k: nat, ahead: nat, taken: nat) {
    k in rt.delivered || (taken <= ahead && Waiting(rt, id, k, ahead - taken))
  }

  lemma OnItsWayStep(rt: Runtime, move: Move, id: u32, k: nat, ahead: nat, taken: nat)
    requires TableOk(rt) && ChannelOk(rt) && LiveOk(rt) && LeavesAlone([move], id) && OnItsWay(rt, id, k, ahead, taken)
    ensures OnItsWay(Next(rt, move), id, k, ahead, if move.DeliverMove? then taken + 1 else taken)
  {
    hide TableOk, ChannelOk, LiveOk, LeavesAlone, Next, Waiting;
    if k in rt.delivered { DeliveredStays(rt, move, k); }
    else { WaitingStep(rt, move, id, k, ahead - taken); }
  }

  lemma {:induction false} StaysOnItsWay(fired: seq<Move>, rest: seq<Move>, id: u32, k: nat, ahead: nat)
    requires OnItsWay(Run(FRESH, fired), id, k, ahead, 0) && LeavesAlone(rest, id)
    requires Bounded(Run(FRESH, fired + rest).armings)
    ensures OnItsWay(Run(FRESH, fired + rest), id, k, ahead, Deliveries(rest))
  {
    hide OnItsWay, Bounded, TableOk, ChannelOk, DeliveredOk, LiveOk, Next, Waiting;
    var all := fired + rest;
    if |rest| == 0 {
      assert all == fired;
    } else {
      var front, move := rest[..|rest| - 1], rest[|rest| - 1];
      assert all[..|all| - 1] == fired + front && all[|all| - 1] == move;
      Earlier(all, |all| - 1);
      StaysOnItsWay(fired, front, id, k, ahead);
      assert LeavesAlone([move], id);
      OnItsWayStep(Run(FRESH, fired + front), move, id, k, ahead, Deliveries(front));
    }
  }

  /** A fired arming that is left alone reaches the machine once the expiries ahead
      of it have been taken, whatever else happens meanwhile. */
  lemma FiredIsDelivered(moves: seq<Move>, id: u32, rest: seq<Move>)
    requires id in Run(FRESH, moves).current && LeavesAlone(rest, id)
    requires var k := Run(FRESH, moves).current[id]; Bounded(Run(FRESH, moves + [FireMove(k)] + rest).armings)
    ensures var k := Run(FRESH, moves).current[id];
            var after := Run(FRESH, moves + [FireMove(k)] + rest);
            Deliveries(rest) > |Run(FRESH, moves).channel| ==> k in after.delivered
  {
    hide Bounded, TableOk, ChannelOk, DeliveredOk, LiveOk, Next, Waiting, LeavesAlone, Deliveries;
    var rt := Run(FRESH, moves);
    var k, ahead := rt.current[id], |rt.channel|;
    var fired := moves + [FireMove(k)];
    assert fired[..|moves|] == moves && (fired + rest)[..|moves|] == moves;
    Earlier(fired + rest, |moves|);
    CurrentIs(rt, id);
    FiredWaits(rt, id);
    StaysOnItsWay(fired, rest, id, k, ahead);
  }

  /** Any earlier point of a bounded run is sound. */
  lemma Earlier(all: seq<Move>, n: nat)
    requires n <= |all| && Bounded(Run(FRESH, all).armings)
    ensures var rt := Run(FRESH, all[..n]);
            TableOk(rt) && ChannelOk(rt) && DeliveredOk(rt) && LiveOk(rt) && Bounded(rt.armings)
  {
    hide Bounded, TableOk, ChannelOk, DeliveredOk, LiveOk, Run;
    ArmingsGrow(all, n);
    BoundedEarlier(Run(FRESH, all[..n]).armings, Run(FRESH, all).armings);
    RunOk(all[..n]);
  }

  lemma CurrentIs(rt: Runtime, id: u32)
    requires TableOk(rt) && id in rt.current
    ensures rt.current[id] < |rt.armings| && rt.armings[rt.current[id]].id == id
  {
  }

  lemma FiredWaits(rt: Runtime, id: u32)
    requires id in rt.current && rt.current[id] < |rt.armings| && rt.armings[rt.current[id]].id == id
    ensures Waiting(Next(rt, FireMove(rt.current[id])), id, rt.current[id], |rt.channel|)
  {
  }
}
