/** Transaction tracking (crates/dlep-fsm/src/transaction.rs): at most one open
    request for the session and one per destination (section 8 of RFC 8175).
 */
module Transactions {
  import opened Types

  datatype RequestKind =
    SessionUpdate | DestinationUp | DestinationAnnounce | DestinationDown | LinkCharacteristicsKind

  /** The value of a tracker. */
  datatype Tx = Tx(session: Option<RequestKind>, perDestination: map<MacAddress, RequestKind>)

  const IDLE := Tx(None, map[])

  /** A slot is addressed by its scope: the session, or one destination. */
  datatype Scope = SessionScope | DestinationScope(mac: MacAddress)

  function Slot(tx: Tx, scope: Scope): Option<RequestKind> {
    match scope
    case SessionScope => tx.session
    case DestinationScope(mac) => if mac in tx.perDestination then Some(tx.perDestination[mac]) else None
  }

  function Open(tx: Tx, scope: Scope, kind: RequestKind): Tx {
    match scope
    case SessionScope => tx.(session := Some(kind))
    case DestinationScope(mac) => tx.(perDestination := tx.perDestination[mac := kind])
  }

  function Close(tx: Tx, scope: Scope): Tx {
    match scope
    case SessionScope => tx.(session := None)
    case DestinationScope(mac) => tx.(perDestination := tx.perDestination - {mac})
  }

  /** Opening and closing touch one slot only, and closing undoes opening. */
  lemma SlotsAreIndependent(tx: Tx, scope: Scope, kind: RequestKind, other: Scope)
    ensures Slot(Open(tx, scope, kind), other) == if other == scope then Some(kind) else Slot(tx, other)
    ensures Slot(Close(tx, scope), other) == if other == scope then None else Slot(tx, other)
    ensures Slot(tx, scope) == None ==> Close(Open(tx, scope, kind), scope) == tx
  {
    if scope.DestinationScope? && Slot(tx, scope) == None {
      assert tx.perDestination[scope.mac := kind] - {scope.mac} == tx.perDestination;
    }
  }

  class TransactionTracker {
    var sessionPending: Option<RequestKind>
    var perDestination: map<MacAddress, RequestKind>

    function View(): Tx
      reads this
    {
      Tx(sessionPending, perDestination)
    }

    constructor ()
      ensures View() == IDLE
    {
      sessionPending := None;
      perDestination := map[];
    }

    predicate SessionBusy()
      reads this
    {
      sessionPending.Some?
    }

    predicate DestinationBusy(mac: MacAddress)
      reads this
    {
      mac in perDestination
    }

    /** None on success; the request already open otherwise. */
    method OpenSession(kind: RequestKind) returns (existing: Option<RequestKind>)
      modifies this
      ensures existing == Slot(old(View()), SessionScope)
      ensures View() == if existing.None? then Open(old(View()), SessionScope, kind) else old(View())
    {
      existing := sessionPending;
      if existing.None? {
        sessionPending := Some(kind);
      }
    }

    method CloseSession() returns (closed: Option<RequestKind>)
      modifies this
      ensures closed == Slot(old(View()), SessionScope)
      ensures View() == Close(old(View()), SessionScope)
    {
      closed := sessionPending;
      sessionPending := None;
    }

    method OpenDestination(mac: MacAddress, kind: RequestKind) returns (existing: Option<RequestKind>)
      modifies this
      ensures existing == Slot(old(View()), DestinationScope(mac))
      ensures View() == if existing.None? then Open(old(View()), DestinationScope(mac), kind) else old(View())
    {
      if mac in perDestination {
        existing := Some(perDestination[mac]);
      } else {
        existing := None;
        perDestination := perDestination[mac := kind];
      }
    }

    method CloseDestination(mac: MacAddress) returns (closed: Option<RequestKind>)
      modifies this
      ensures closed == Slot(old(View()), DestinationScope(mac))
      ensures View() == Close(old(View()), DestinationScope(mac))
    {
      closed := if mac in perDestination then Some(perDestination[mac]) else None;
      perDestination := perDestination - {mac};
    }
  }
}
