# DLEP session protocol, codec and runtime bookkeeping, verified

A Dafny model of a Rust implementation of the Dynamic Link Exchange Protocol
(RFC 8175), in three layers, with proofs about every input, every run and every
reachable state.

**The session protocol.** `RouterSpec` and `ModemSpec` are the two session machines
as step functions; `RouterFsm` and `ModemFsm` are the same machines as objects with
fields updated in place, proved equal to them. `Messages`, `Addresses`,
`Transactions`, `Validation` and `Session` are what they share. `RouterInvariant` and
`ModemInvariant` prove what each machine keeps against any peer and any application:
the slot and address invariants, the shape of the router's event traces, and which
timers are armed. `Reports`, `ModemReports` and `Reasons` prove that what a machine
tells its application is what it holds, all of it, and why; `Preflight` when a command
is accepted, `Rules` when a message is, and `Effects` what a message then does; `Links`
follows a link characteristics request from one application to the other and back.
`Conformance` proves that every message a machine builds passes its peer's content
checks. `ProtocolSpec` joins the two by first-in first-out queues,
and `Exchange`, `RouterPlay`, `ModemPlay`, `Agreement`, `Protocol` and `Containment`
prove what holds of the pair over all runs. `Coalescing` compares updates held
back with updates sent in turn, `CoalescingRun` gives two runs that differ by it, and
`Reordering` proves that the order of data items does not matter.

**The wire.** `Wire` and `Codec` are the octets of data items, messages and signals
with their round trips; `Buffers` is the length-patching encoder and the consuming
decoder; `Framing` is the incremental frame splitter.

**Around the session.** `Timers` is the generation filter for stale expiries,
`Registry` the bounded connection history, `Reconnect` the backoff queue that reads
its snapshots, `Attempts` the table of running connection attempts, and `PacketWalk`
the IPv4 and IPv6 header walker with the kernel filter in front of it.

Conventions. Fixed-width integers are subset types. An address or MAC is the
big-endian number its octets spell. Durations count nanoseconds. A text is the octets
of a valid UTF-8 string. The clock, the kernel's answers, which future is ready and
which sleeper fires are parameters or moves of a run. In the composed system a message
that cannot be encoded ends its sender's session, as the session task does when a
write fails (crates/dlep-daemon/src/session.rs:365-383), and a peer's messages arrive
only through its queue.

Where a natural statement is false of the code, the code is kept and the exact
condition is proved, beside an input that fails it.

- `Message::decode` accepts octets after the declared body, so a message re-encodes to
  the length of its source if and only if nothing follows that body
  (`Codec.SameLength`, `Codec.TrailingOctetLost`); for signals the law has no exception.
- Address changes held back while a Destination Up is pending do not always leave the
  router where sending each in turn would: its ownership rule judges a re-added address
  anew (`Coalescing.CoalescedExactly`, `CoalescingRun.CoalescingMatters`). Held back
  while the router's interest is withdrawn they do (`Coalescing.WithdrawnAlike`), and
  metrics agree in both cases.
- A coalesced snapshot does not always show an establishment: a registration that finds
  its own peer expired starts the record afresh (`Reconnect.CoalescedEstablishmentResets`,
  `Reconnect.EstablishmentUnseen`).
- The router leaves SESSION_INIT armed when the transport closes during the handshake;
  every other end leaves nothing armed (`RouterInvariant.RouterTimers`).

## Model

| member | source | states |
|---|---|---|
| Protocol.QuiescentAgreement | crates/dlep-fsm/src/session_modem.rs:300-662 | After any run of a compatible pair, if both sides are in session and nothing is in flight, the router knows exactly the MACs the modem marks announced, with equal metrics; session metrics are equal; each side records exactly the other's local addresses, order included; no request is open except those the modem has deferred |
| Protocol.Convergence | crates/dlep-fsm/src/session_router.rs:318-560 | From any reachable state, every order of delivering what is in flight is bounded by that traffic; an order that cannot go on has come to rest, in agreement unless a side has left the session, and any other can be continued to such an end |
| Protocol.DeliveriesEnd | crates/dlep-fsm/src/session_modem.rs:300-612 | Along every schedule of deliveries the remaining traffic shrinks by at least one per delivery |
| Protocol.OnlyCrossingsRefused | crates/dlep-fsm/src/validation.rs:193-245 | In every reachable state a side refuses the next message of its conforming peer if and only if it has its own request open in that message's scope, and then with UNEXPECTED_MESSAGE; INVALID_DATA and INVALID_DESTINATION never occur, and neither handshake message is ever refused |
| Protocol.RequestsConserved | crates/dlep-fsm/src/transaction.rs:34-70 | While both sides take part, requests in flight, responses in flight and deferred answers together number exactly one for an open slot and none for a free one, and every one of them is of the kind of the slot it belongs to |
| Protocol.SessionAddressesMirrored | crates/dlep-fsm/src/session_common.rs:119-170 | In every reachable state, in both directions: what a side will have recorded of its peer's addresses once it has read its queue is what the peer has now, order included, and no update on the way will be rejected |
| Protocol.NextKeepsInvariant | crates/dlep-fsm/src/session_modem.rs:113-733 | Every delivery, command, timer, transport loss or shutdown at either side keeps the invariant of the composed system: what each queue holds per scope, what the router will hold once it has read its queue, and what each side will record of the other's addresses |
| Protocol.StartIsConnected | crates/dlep-daemon/src/session.rs:365-367 | The initial state of the composed system is what the two machines do on TcpConnected and TcpAccepted, with the initialization message in flight |
| Protocol.StartOk | crates/dlep-fsm/src/session_router.rs:184-195 | That state satisfies the invariant for every pair of configurations with the same MAC format and encodable handshake messages |
| Protocol.Drain | crates/dlep-daemon/src/session.rs:577-591 | Delivering the queues message by message terminates with both empty and the invariant intact |
| Protocol.RouterDelivery | crates/dlep-fsm/src/session_router.rs:318-560 | Each delivery to the router leaves strictly less traffic to come, counting what a message can still cause |
| Protocol.ModemDelivery | crates/dlep-fsm/src/session_modem.rs:300-612 | Each delivery to the modem does too |
| Protocol.RouterRefusesOnlyCrossings | crates/dlep-fsm/src/session_router.rs:119-175 | The router's verdict on the next queued message: accepted unless it crosses an open request of the same scope |
| Protocol.ModemRefusesOnlyCrossings | crates/dlep-fsm/src/session_modem.rs:121-173 | The modem's verdict on the next queued message, deferred link requests included |
| Protocol.AtRest | crates/dlep-fsm/src/transaction.rs:34-70 | The invariant with empty queues implies agreement and free slots |
| Containment.AddressesContained | crates/dlep-fsm/src/session_router.rs:685-723 | After any run, at rest in session, every address the router holds for a destination is among those the modem has for it |
| Containment.RunKeepsBound | crates/dlep-fsm/src/session_modem.rs:300-612 | In every state of every run, reading the queue never takes the router beyond the addresses the modem has advertised |
| Containment.NextKeepsBound | crates/dlep-fsm/src/session_modem.rs:300-612 | Each delivery, command, timer or loss at either side keeps that bound |
| Containment.OwnedWithin | crates/dlep-fsm/src/session_router.rs:685-723 | Filtering out addresses owned elsewhere only ever removes |
| Containment.PatchWithin | crates/dlep-fsm/src/session_modem.rs:395-416 | A difference applied to a subset of the advertised addresses lands within the new ones |
| Agreement.RouterKeeps | crates/dlep-fsm/src/session_router.rs:318-560 | A turn of a listening router keeps the composed invariant |
| Agreement.ModemKeeps | crates/dlep-fsm/src/session_modem.rs:300-662 | A turn of the modem in session keeps the composed invariant |
| Agreement.ModemJoins | crates/dlep-fsm/src/session_modem.rs:201-246 | Entering the session on the initialization message establishes agreement on an empty state |
| Agreement.RouterLeaves | crates/dlep-fsm/src/session_router.rs:781-809 | A router that stops listening, by error, termination, loss or an unencodable message, leaves the modem's side consistent |
| Agreement.ModemLeaves | crates/dlep-fsm/src/session_modem.rs:863-898 | The same for the modem |
| Agreement.RequestFits | crates/dlep-fsm/src/session_router.rs:725-778 | A request that passed the router's preflight suits the modem when it arrives, unless it crosses one of the modem's own |
| Exchange.RouterExchange | crates/dlep-fsm/src/transaction.rs:34-70 | Whatever a router turn does in a scope (take an answer, answer, ask, nothing) keeps the conservation of requests |
| Exchange.ModemExchange | crates/dlep-fsm/src/transaction.rs:34-70 | The same for modem turns, including deferring a link answer and giving it later |
| RouterPlay.AcceptPlays | crates/dlep-fsm/src/session_router.rs:318-560 | Each accepted message changes the router exactly as the queue semantics predicts, closes or leaves slots by its kind, and is answered as its transaction requires |
| RouterPlay.CommandActs | crates/dlep-fsm/src/session_router.rs:409-610 | Each accepted command opens one free slot and sends one request its peer will find well formed |
| RouterPlay.Establishes | crates/dlep-fsm/src/session_router.rs:205-264 | A conforming modem's response is accepted and gives the router exactly the modem's initial metrics and metric types |
| RouterPlay.StepMoves | crates/dlep-fsm/src/session_router.rs:184-289 | Every local event is a turn of a listening router or its orderly end |
| ModemPlay.AcceptPlays | crates/dlep-fsm/src/session_modem.rs:338-584 | Each accepted message moves the modem so that a router that has read everything sent so far, and reads what is sent now, still matches it |
| ModemPlay.CommandPlays | crates/dlep-fsm/src/session_modem.rs:300-661 | Each accepted command keeps that match: updates held back are marked, updates sent are exactly the difference |
| ModemPlay.UpReflects | crates/dlep-fsm/src/session_modem.rs:338-373 | On a successful Destination Up Response the catch-up message leaves the router with the modem's current metrics |
| ModemPlay.SessionMetricsReflected | crates/dlep-fsm/src/session_modem.rs:649-661 | A session metric update reaches every destination on both sides alike |
| ModemPlay.Establishes | crates/dlep-fsm/src/session_modem.rs:201-246 | A conforming router's initialization is accepted and answered with the modem's own |
| ModemPlay.StepMoves | crates/dlep-fsm/src/session_modem.rs:182-284 | Every local event is a turn of the modem or its orderly end |
| RouterFsm.RouterSession.Step | crates/dlep-fsm/src/session_router.rs:111-680 | For any event in any state reached with any peer, no lookup of the source can fail, the object does what the step function says, and the invariant holds again |
| RouterFsm.RouterSession.constructor | crates/dlep-fsm/src/session_router.rs:87-101 | A new machine: unconnected, empty, invariant established |
| RouterFsm.RouterSession.CheckReceived | crates/dlep-fsm/src/session_router.rs:132-168 | The checks in the source's order decide exactly the specified verdict |
| RouterFsm.RouterSession.OnMessage | crates/dlep-fsm/src/session_router.rs:119-175 | Fatal statuses are echoed, other faults reported, and accepted messages dispatched |
| RouterFsm.RouterSession.OnHandshake | crates/dlep-fsm/src/session_router.rs:205-264 | The initialization response establishes the session or ends it |
| RouterFsm.RouterSession.DestinationAddressChanges | crates/dlep-fsm/src/session_router.rs:685-723 | The in-place filters compute the change without addresses held by the peer or another destination |
| RouterFsm.RouterSession.OnAccepted | crates/dlep-fsm/src/session_router.rs:308-560 | Every expect and map lookup of the in-session handlers succeeds on an accepted message |
| RouterFsm.RouterSession.OnUp | crates/dlep-fsm/src/session_router.rs:318-350 | Destination Up creates the entry and answers SUCCESS |
| RouterFsm.RouterSession.OnUpdate | crates/dlep-fsm/src/session_router.rs:353-384 | Destination Update merges metrics and owned addresses and reports only effective changes |
| RouterFsm.RouterSession.OnSessionUpdate | crates/dlep-fsm/src/session_router.rs:440-470 | The loop over destinations merges the same metrics into each, once |
| RouterFsm.RouterSession.OnCommand | crates/dlep-fsm/src/session_router.rs:409-610 | An accepted command opens its slot and sends its request |
| RouterInvariant.RouterStepKeepsInvariant | crates/dlep-fsm/src/session_router.rs:111-680 | Any event keeps: slots fit the destinations, clean and pairwise disjoint address lists, nothing known before the handshake, a live heartbeat deadline in session; the state rank never falls and the configuration never changes |
| RouterInvariant.RouterTraces | crates/dlep-fsm/src/session_router.rs:205-664 | Over every run with any peer: each MAC's events alternate Up and Down with updates only in between, all inside at most one SessionUp and one SessionDown, and a MAC is known exactly while its bracket is open |
| Reports.ListenerAgrees | crates/dlep-fsm/src/session_router.rs:205-664 | Over every run with any peer: an application that only folds the emitted events knows exactly the router's destinations, their addresses in order, the session metrics and the peer's addresses, is never told a change that does not apply to what it knows, and every destination metric it knows is the router's |
| Reports.StepHonest | crates/dlep-fsm/src/session_router.rs:205-664 | For any event in any state of the invariant: every event emitted carries the resulting metrics, addresses or session values, with a change that strictly turns the old list into the new; and every new, lost or changed entry and session value is reported |
| Reports.UpdateHonest | crates/dlep-fsm/src/session_router.rs:353-384 | In particular for a Destination Update: the metrics after the merge and the addresses after the filter |
| Reasons.StepQuotes | crates/dlep-fsm/src/session_router.rs:205-664 | Every event names the destination, status and text of the input it answers, and a session goes down for the reason given by the peer, the application, the code sent, or the loss |
| Reasons.DownAsSaid | crates/dlep-fsm/src/session_router.rs:582-664 | Over every run: a terminating session is reported down with the code of the termination this side sent last, unless the answer timed out |
| RouterInvariant.RouterTimers | crates/dlep-fsm/src/session_router.rs:182-289 | Over every run: initialising has exactly SESSION_INIT armed, in session exactly HEARTBEAT and HEARTBEAT_MISSED, terminating exactly TERMINATION, and at the end nothing, except that a transport closed during the handshake leaves SESSION_INIT armed until it expires |
| RouterInvariant.RouterDeadline | crates/dlep-fsm/src/session_router.rs:265-289 | Whatever run led to a state that is neither new nor final, a timer is armed whose expiry takes it further |
| RouterInvariant.AcceptedMessageRearms | crates/dlep-fsm/src/session_common.rs:304-317 | Every accepted message re-arms the missed deadline to twice the peer interval |
| RouterInvariant.OwnedStaysDisjoint | crates/dlep-fsm/src/session_router.rs:685-723 | The filtered change keeps a destination's addresses apart from every other destination's |
| RouterInvariant.ReplaceOwned | crates/dlep-fsm/src/session_router.rs:318-384 | Replacing one entry by owned addresses keeps all entries pairwise disjoint |
| RouterSpec.AcceptedMessage | crates/dlep-fsm/src/session_router.rs:322-361 | An accepted message provides the MAC, status and destination entry its handler expects |
| RouterSpec.RefusalEnds | crates/dlep-fsm/src/session_router.rs:119-175 | Every refusal carries a session-ending status, and an accepted message other than a termination has none |
| Effects.RouterObeys | crates/dlep-fsm/src/session_router.rs:318-560 | What any message accepted in session does, item by item, from any peer: each metric item sets its own field and no other, an address that is only dropped goes, one only added comes if nobody else has it, entries appear and vanish by message type, responses close their slot, and nothing else changes |
| Effects.RouterAdopts | crates/dlep-fsm/src/session_router.rs:205-264 | An accepted handshake is adopted as it was said: the addresses, metrics, metric types, interval and extensions of its items |
| Effects.RouterReplies | crates/dlep-fsm/src/session_router.rs:318-560 | Each accepted message is answered by the response of its kind with SUCCESS, a termination by its response, and everything else by nothing |
| Effects.ModemObeys | crates/dlep-fsm/src/session_modem.rs:334-584 | The same for the modem: the peer's addresses follow the items, announcements follow responses, interest and withdrawal, and a destination's metrics and addresses stay |
| Effects.ModemAdopts | crates/dlep-fsm/src/session_modem.rs:201-246 | An accepted handshake is adopted as it was said |
| Effects.ModemReplies | crates/dlep-fsm/src/session_modem.rs:334-584 | Each accepted message is answered as its kind requires: an announcement from what is known or denied, a link request with the stored metrics unless deferred, a successful response to a Destination Up by at most the one update held back |
| Effects.OwnedObeys | crates/dlep-fsm/src/session_router.rs:685-723 | Which addresses a destination holds after a change, address by address, over the declarative meaning of taken |
| Preflight.RouterAnswers | crates/dlep-fsm/src/session_router.rs:725-778 | A command is accepted if and only if the router is in session, the command is one of its own, the MAC fits the format, the slot of its own scope is free, its destination is known (or unknown, for an announcement) and the input can be sent; and each refusal occurs exactly when its condition is the first to fail |
| Preflight.RouterAnswersLocally | crates/dlep-fsm/src/session_router.rs:742-750 | Two routers alike in phase, format, that slot, that destination's presence and their announced addresses give the same answer, whatever else is open |
| Preflight.RouterRequestGoesOut | crates/dlep-fsm/src/session_router.rs:409-610 | Under that condition the request goes out and is tracked in its slot, and nothing else changes |
| Preflight.KnownCanBeDropped | crates/dlep-fsm/src/session_router.rs:725-778 | After any run with any peer, in session, a known destination whose slot is free can be dropped |
| Preflight.ModemAnswers | crates/dlep-fsm/src/session_modem.rs:735-861 | The same if-and-only-if for each answer of the modem, with the updates allowed while a Destination Up is pending and the answers owed |
| Preflight.ModemAnswersLocally | crates/dlep-fsm/src/session_modem.rs:735-861 | Two modems alike in what concerns the command give the same answer, whatever else is open or owed |
| Preflight.DropGoesOut | crates/dlep-fsm/src/session_modem.rs:424-434 | A known destination with its slot free and no answer owed is asked down, or forgotten if it was never announced |
| Preflight.AddGoesOut | crates/dlep-fsm/src/session_modem.rs:300-333 | An unknown destination with sendable input is announced, whatever is open for others |
| Preflight.UpFits | crates/dlep-fsm/src/session_common.rs:322-355 | A Destination Up can be sent exactly when its metrics are in range and its octets, counted from the address lists, fit |
| Rules.RouterCodes | crates/dlep-fsm/src/session_router.rs:119-175 | The verdict on a message in session, code by code: accepted, unknown, unexpected, invalid destination or invalid data, each if and only if |
| Rules.ModemCodes | crates/dlep-fsm/src/session_modem.rs:121-173 | The same at the modem, a destination that is owed a link answer included |
| Rules.RefusedWith | crates/dlep-fsm/src/session_router.rs:781-809 | A refused message ends the session with its verdict on the wire and changes nothing else |
| Rules.ModemRefusedWith | crates/dlep-fsm/src/session_modem.rs:863-898 | The same at the modem; during the handshake it closes without a message |
| ModemFsm.ModemSession.Step | crates/dlep-fsm/src/session_modem.rs:113-733 | For any event in any state reached with any peer, no lookup of the source can fail, the object does what the step function says, and the invariant holds again |
| ModemFsm.ModemSession.constructor | crates/dlep-fsm/src/session_modem.rs:84-98 | A new machine: listening, empty, invariant established |
| ModemFsm.ModemSession.CheckReceived | crates/dlep-fsm/src/session_modem.rs:132-165 | The checks in the source's order decide exactly the specified verdict, a pending link request occupying its destination |
| ModemFsm.ModemSession.OnUpResponse | crates/dlep-fsm/src/session_modem.rs:338-373 | Announce, then send what was held back, or respect the refusal |
| ModemFsm.ModemSession.OnAnnounce | crates/dlep-fsm/src/session_modem.rs:517-547 | Answer from retained knowledge or deny |
| ModemFsm.ModemSession.OnLinkRequest | crates/dlep-fsm/src/session_modem.rs:552-583 | Defer to the application or answer with the stored metrics |
| ModemFsm.ModemSession.OnAccepted | crates/dlep-fsm/src/session_modem.rs:287-584 | Every expect and map lookup of the in-session handlers succeeds on an accepted message |
| ModemFsm.ModemSession.OnCommand | crates/dlep-fsm/src/session_modem.rs:300-661 | Every lookup of the command handlers succeeds after preflight |
| ModemFsm.ModemSession.OnUpdateMetrics | crates/dlep-fsm/src/session_modem.rs:378-394 | Hold back until announced, send the delta afterwards |
| ModemFsm.ModemSession.OnUpdateAddresses | crates/dlep-fsm/src/session_modem.rs:395-416 | Send only the effective difference to what was advertised |
| ModemFsm.ModemSession.OnSessionMetrics | crates/dlep-fsm/src/session_modem.rs:649-661 | The loop over destinations merges the same metrics into each, once |
| ModemFsm.ModemSession.OnAnswer | crates/dlep-fsm/src/session_modem.rs:586-611 | A deferred answer stores and reports the metrics after processing |
| ModemInvariant.ModemStepKeepsInvariant | crates/dlep-fsm/src/session_modem.rs:113-733 | Any event keeps: pending links among announced destinations without open requests, Up pending only while unannounced, Down only while announced, held-back metrics only while unannounced, announced means advertised and current addresses are the same sets, metric support never changes |
| ModemInvariant.CommandSettled | crates/dlep-fsm/src/session_modem.rs:735-861 | What preflight guarantees the handler of each accepted command |
| ModemInvariant.Settled | crates/dlep-fsm/src/session_modem.rs:146-165 | What the transaction check guarantees the handler of each accepted message |
| ModemInvariant.ModemTimers | crates/dlep-fsm/src/session_modem.rs:180-284 | Over every run: exactly the timers of the state are armed, and none at the end |
| ModemInvariant.ModemDeadline | crates/dlep-fsm/src/session_modem.rs:688-711 | Whatever run led to a state that is neither new nor final, a timer is armed whose expiry takes it further |
| ModemReports.StepHonest | crates/dlep-fsm/src/session_modem.rs:201-584 | For any event in any state of the invariant: every event the modem emits carries the resulting values and quotes the input it answers, and every address change, withdrawal, deferred request and session start is reported |
| ModemReports.ListenerAgrees | crates/dlep-fsm/src/session_modem.rs:201-584 | Over every run with any peer, folding the modem's events gives the peer's addresses, in order |
| ModemInvariant.AcceptedMessageRearms | crates/dlep-fsm/src/session_common.rs:304-317 | Every accepted message re-arms the missed deadline to twice the peer interval |
| ModemInvariant.CoalescedMetrics | crates/dlep-fsm/src/session_modem.rs:338-394 | Metric deltas held back and sent once as a full set leave the peer where sending each in turn would have |
| ModemSpec.RefusalEnds | crates/dlep-fsm/src/session_modem.rs:121-173 | Every refusal carries a session-ending status, and an accepted message other than a termination has none |
| ModemSpec.AcceptedMessage | crates/dlep-fsm/src/session_modem.rs:441-445 | An accepted message provides the MAC and destination entry its handler expects |
| Transactions.TransactionTracker.OpenSession | crates/dlep-fsm/src/transaction.rs:43-49 | Opens the session slot only if it is free, and says what was open otherwise |
| Transactions.TransactionTracker.CloseSession | crates/dlep-fsm/src/transaction.rs:51-53 | Frees the session slot, returning what was open |
| Transactions.TransactionTracker.OpenDestination | crates/dlep-fsm/src/transaction.rs:55-65 | Opens a destination's slot only if it is free |
| Transactions.TransactionTracker.CloseDestination | crates/dlep-fsm/src/transaction.rs:67-69 | Frees a destination's slot, returning what was open |
| Transactions.SlotsAreIndependent | crates/dlep-fsm/src/transaction.rs:34-70 | Opening or closing one scope touches no other, and closing undoes opening |
| Validation.CheckMessage | crates/dlep-fsm/src/validation.rs:27-191 | The item loop with its two sets accepts exactly the declarative grammar: allowed types, required types, encodable values, distinct types and distinct addresses |
| Rules.TablesTransposed | crates/dlep-fsm/src/validation.rs:27-191 | The tables of expected messages and allowed and required items, read item by item in the numbers of RFC 8175 |
| Rules.TurnExactly | crates/dlep-fsm/src/validation.rs:193-245 | A message is in turn if and only if the session and destination slots and the destination's state are as its kind requires, and which code it is refused with otherwise |
| Validation.OrderIndependent | crates/dlep-fsm/src/validation.rs:27-191 | The whole result of validation is unchanged by any permutation of the data items |
| Validation.MergeOrderIndependent | crates/dlep-fsm/src/session_common.rs:407-451 | Metrics merged from items without conflicts do not depend on their order |
| Validation.MergeDetermined | crates/dlep-fsm/src/session_common.rs:407-451 | Each metric item determines its own field and no other |
| Validation.AddressesOrderIndependent | crates/dlep-fsm/src/addresses.rs:55-95 | The addresses read from permuted items are the same sets |
| Reordering.RouterOrderIndependent | crates/dlep-fsm/src/session_router.rs:318-560 | Permuting the items of an accepted message, at a router in the same state up to the order of address lists, gives an accepted message and the same resulting state up to that order |
| Reordering.RouterJudgesAlike | crates/dlep-fsm/src/session_router.rs:119-175 | The router accepts or refuses permuted messages alike, with the same code from the checks |
| Reordering.RouterReceiveAlike | crates/dlep-fsm/src/session_router.rs:119-303 | The same for any message that is not refused, in any phase, the handshake included |
| Reordering.RouterQueueOrderIndependent | crates/dlep-fsm/src/session_router.rs:119-175 | The same over every queue of messages, each permuted anyhow, from the handshake on |
| Reordering.ModemOrderIndependent | crates/dlep-fsm/src/session_modem.rs:334-584 | The same for one message at the modem |
| Reordering.ModemReceiveAlike | crates/dlep-fsm/src/session_modem.rs:121-284 | The same for any message that is not refused, in any phase, the handshake included |
| Reordering.ModemQueueOrderIndependent | crates/dlep-fsm/src/session_modem.rs:121-173 | The same over every queue at the modem |
| Reordering.OwnedAlike | crates/dlep-fsm/src/session_router.rs:685-723 | The ownership filter and the change it lets through do not depend on item order |
| Reordering.StrictAlike | crates/dlep-fsm/src/addresses.rs:150-199 | Neither does strict application, its refusals included |
| Reordering.DistinctLists | crates/dlep-fsm/src/addresses.rs:55-95 | Items without conflicts give address lists without duplicates |
| Validation.ExtendDistinct | crates/dlep-fsm/src/validation.rs:77-146 | The two sets detect exactly the conflicts between a new item and the earlier ones |
| Codec.SameKey | crates/dlep-fsm/src/validation.rs:128-135 | Two address items have the same encoded octets exactly when they are equal up to host bits |
| Conformance.DestinationUpGood | crates/dlep-fsm/src/session_common.rs:322-355 | A built Destination Up is accepted by the router's content checks, names its MAC and overlays exactly its metrics |
| Conformance.AnnounceAcceptedGood | crates/dlep-fsm/src/session_modem.rs:522-533 | So is an accepted Destination Announce Response |
| Conformance.DestinationMetricsGood | crates/dlep-fsm/src/session_modem.rs:347-360 | So is a combined metric and address update, which reads back as the difference it was built from |
| Conformance.DestinationAddressesGood | crates/dlep-fsm/src/session_modem.rs:408-415 | So is an address-only update |
| Conformance.LinkResponseGood | crates/dlep-fsm/src/session_common.rs:215-232 | So is a link characteristics response, with exactly the session's metric types |
| Conformance.LinkRequestGood | crates/dlep-fsm/src/session_common.rs:173-194 | A built link characteristics request is accepted by the modem's content checks |
| Links.WriteThenRead | crates/dlep-fsm/src/session_common.rs:173-213 | Reading a built link characteristics request gives what was asked, for every request |
| Links.ReadsWhatIsAsked | crates/dlep-fsm/src/session_common.rs:196-213 | Of the items of an acceptable message a characteristic is asked for with a value if and only if that item is there |
| Links.RequestReported | crates/dlep-fsm/src/session_modem.rs:552-583 | An accepted request emits exactly one event, with what is asked, the metrics of its destination, and pending exactly when the answer is deferred; otherwise it is answered at once |
| Links.AskedIsTold | crates/dlep-fsm/src/session_modem.rs:552-583 | End to end: what the router's application asks for is what a modem that accepts the request tells its own |
| Links.AnsweredIsTold | crates/dlep-fsm/src/session_router.rs:529-560 | End to end: status, text and metrics of a deferred answer are what a router that accepts it tells its application |
| Conformance.SessionAddressesGood | crates/dlep-fsm/src/session_common.rs:138-170 | An address update is accepted by either side and reads back as itself |
| Conformance.SessionMetricsGood | crates/dlep-fsm/src/session_common.rs:105-107 | A session metric update is accepted and carries no addresses |
| Conformance.InitializationGood | crates/dlep-fsm/src/session_router.rs:812-822 | A built initialization passes the modem's checks whatever extensions either side has |
| Conformance.InitializationResponseGood | crates/dlep-fsm/src/session_modem.rs:201-246 | A built initialization response passes the router's checks and carries exactly the initial metrics |
| Messages.MergeLinkMetrics | crates/dlep-fsm/src/session_common.rs:407-451 | The item loop merges exactly the metric items and reports whether there was one |
| Messages.MergeBuilt | crates/dlep-fsm/src/session_common.rs:461-485 | Merging the items pushed for a metric set overlays exactly the fields it supplies |
| Messages.LocalHeartbeat | crates/dlep-fsm/src/session_common.rs:80-87 | The local interval is always encodable |
| Rules.Intervals | crates/dlep-fsm/src/session_common.rs:71-87 | The interval is the configured one, a second at least; the termination deadline is the configured one or four intervals |
| Rules.RouterHearsInTime | crates/dlep-fsm/src/session_router.rs:205-264 | After the handshake the router waits exactly twice the period at which its peer sends heartbeats, and knows its extensions |
| Rules.ModemHearsInTime | crates/dlep-fsm/src/session_modem.rs:201-246 | So does the modem |
| Messages.FirstFatal | crates/dlep-fsm/src/session_router.rs:127-131 | The status found ends sessions and no earlier one does; none is found exactly when there is none |
| Session.ArmFailure | crates/dlep-fsm/src/session_router.rs:781-809 | Starting a termination leaves exactly the termination timer armed |
| Session.ArmThenReset | crates/dlep-fsm/src/session_common.rs:304-317 | Re-arming the deadline keeps the timers of an established session |
| Addresses.ApplyInPlace | crates/dlep-fsm/src/addresses.rs:179-191 | The in-place application of one vector is the specified function |
| Addresses.RetainInPlace | crates/dlep-fsm/src/session_router.rs:687-694 | The in-place filter is the specified function |
| Addresses.ApplyMembers | crates/dlep-fsm/src/addresses.rs:179-191 | Membership after a lenient change, and no duplicates |
| Addresses.LenientKeepsClean | crates/dlep-fsm/src/addresses.rs:177-199 | Lenient changes keep lists duplicate-free and canonical |
| Addresses.ValidFamilyMeans | crates/dlep-fsm/src/addresses.rs:126-148 | The positional check is: no duplicates, and nothing both added and removed |
| Addresses.DiffThenPatch | crates/dlep-fsm/src/addresses.rs:150-225 | For clean sets, strictly applying between(old, new) to old always succeeds and yields new |
| Addresses.EffectiveChangeMirrors | crates/dlep-fsm/src/session_common.rs:138-170 | Strictly applying the effective change rebuilds the sender's own list, order included |
| Addresses.StrictAgreesWithLenient | crates/dlep-fsm/src/addresses.rs:150-199 | When the strict form succeeds the two agree |
| Addresses.EmptyDifference | crates/dlep-fsm/src/addresses.rs:202-225 | The difference is empty exactly when the sets are the same |
| Addresses.FromMessage | crates/dlep-fsm/src/addresses.rs:55-95 | The item loop collects exactly the canonical additions and removals |
| Addresses.AppendTo | crates/dlep-fsm/src/addresses.rs:97-124 | The loops push removals first, then additions, subnets truncated |
| Addresses.WriteThenRead | crates/dlep-fsm/src/addresses.rs:55-124 | Reading back what was appended returns the canonical change exactly |
| Addresses.SessionRecordFollows | crates/dlep-fsm/src/session_common.rs:138-170 | Any run of session address changes sent in turn is accepted throughout and leaves the record equal to the sender's list; the one difference over the run is accepted too and gives the same members |
| Coalescing.CoalescedExactly | crates/dlep-fsm/src/session_modem.rs:334-416 | Metric and address commands given while a destination is announced, delivered one update each, and the same commands held back while its Up is pending and delivered as one: the router ends with the same metrics always, and with the same addresses if and only if every address taken away and given back meanwhile was held by the router exactly when neither the peer nor another destination holds it |
| Coalescing.WithdrawnAlike | crates/dlep-fsm/src/session_modem.rs:514-547 | Commands held back while the router has withdrawn its interest, and sent in the answer to its next announce, always leave it with the same entry as answering first and sending each in turn: the metrics over those of the session, and exactly the addresses of the modem that neither the peer nor another destination holds |
| Coalescing.AnswerCreates | crates/dlep-fsm/src/session_router.rs:482-514 | The entry an accepted announce creates: the modem's free addresses and its metrics over those of the session |
| Coalescing.HeldBack | crates/dlep-fsm/src/session_modem.rs:378-416 | While a destination is not announced nothing is sent and every command is kept |
| CoalescingRun.CoalescingMatters | crates/dlep-fsm/src/session_router.rs:685-723 | Two runs from the start of any compatible pair, with the same commands and every message accepted, that end at rest with the modem's entry the same and an address at one router only: taken away and given back after or before the answer to the Up |
| CoalescingRun.SuitablePair | crates/dlep-fsm/src/session_common.rs:53-66 | There is a pair of configurations for those runs |
| Coalescing.EachMerges | crates/dlep-fsm/src/session_router.rs:353-384 | After updates in turn the router's metrics are the modem's deltas over what it had |
| Coalescing.EachFollows | crates/dlep-fsm/src/session_router.rs:685-723 | After updates in turn the router holds, of the modem's current addresses, those never absent as at first and the others only if free |
| Coalescing.OnceFollows | crates/dlep-fsm/src/session_modem.rs:334-373 | After one coalesced update only the first and the last state count |
| Coalescing.UpdatePatches | crates/dlep-fsm/src/session_router.rs:353-384 | One update read as a difference: removals go, additions come unless taken elsewhere, all other entries stay |
| Codec.ItemDecodesBack | crates/dlep-core/src/codec.rs:89-465 | Decoding an encoded item gives the item in wire form |
| Codec.ItemReencodes | crates/dlep-core/src/codec.rs:257-465 | An accepted value is that of a canonical item of the same type and length, differing at most in subnet host bits |
| Codec.EncodeError | crates/dlep-core/src/codec.rs:89-246 | Encoding fails exactly on the values the wire cannot carry |
| Codec.HeaderOctets | crates/dlep-core/src/codec.rs:114-119 | On the wire an item is its number in section 13 of RFC 8175 and its length, two octets each, most significant first, then its value |
| Codec.ValueOctets | crates/dlep-core/src/codec.rs:120-229 | Read as one big-endian number a value is the quantity in wire units: milliseconds, microseconds, bits per second, percent |
| Codec.AddressOctets | crates/dlep-core/src/codec.rs:168-185 | An address is written octet by octet, a subnet as its network address and prefix length |
| Codec.FlagOctet | crates/dlep-core/src/codec.rs:120-185 | A flag octet is 1 exactly for an addition, TLS or a secured medium; a status is its code, then its text |
| Wire.OctetAt | crates/dlep-core/src/codec.rs:574-578 | Each octet of a number on the wire is that digit of it to base 256 |
| Types.ClearedIs | crates/dlep-core/src/codec.rs:176-185 | Clearing host bits is rounding down to a multiple of a power of two |
| Types.SameNetwork4 | crates/dlep-core/src/codec.rs:176-180 | Two IPv4 subnets are the same network exactly when prefix length and prefix bits agree |
| Types.SameNetwork6 | crates/dlep-core/src/codec.rs:181-185 | The same for IPv6 |
| Codec.MessageRoundTrip | crates/dlep-core/src/codec.rs:518-551 | Decoding an encoded message, whatever follows it, gives the message in wire form |
| Codec.CanonicalRoundTrip | crates/dlep-core/src/codec.rs:518-551 | On canonical messages decoding undoes encoding |
| Codec.SameBytes | crates/dlep-core/src/codec.rs:518-529 | Two messages have the same octets exactly when they have the same wire form |
| Codec.AcceptedReencodes | crates/dlep-core/src/codec.rs:531-551 | Whatever is accepted re-encodes with the same header and the same body up to subnet host bits, and decodes to the same message |
| Codec.SameLength | crates/dlep-core/src/codec.rs:531-551 | The re-encoded message has the length of its source if and only if nothing follows the declared body |
| Codec.TrailingOctetLost | crates/dlep-core/src/codec.rs:531-551 | A heartbeat with one stray octet is accepted and comes out shorter |
| Codec.SignalRoundTrip | crates/dlep-core/src/codec.rs:472-511 | Decoding an encoded signal gives the signal in wire form |
| Codec.SignalReencodes | crates/dlep-core/src/codec.rs:486-511 | An accepted datagram re-encodes to the same length and decodes to the same signal |
| Codec.BodyReencodes | crates/dlep-core/src/codec.rs:62-69 | An accepted body re-encodes to the same length, item by item |
| Buffers.EncodeItem | crates/dlep-core/src/codec.rs:89-98 | Appends type, length and value, or restores the buffer on every error |
| Buffers.WritePatched | crates/dlep-core/src/codec.rs:100-229 | Writing a placeholder and patching it gives the length of the value |
| Buffers.EncodeRaw | crates/dlep-core/src/codec.rs:54-60 | An opaque item is written whole or not at all |
| Buffers.EncodeMessageBytes | crates/dlep-core/src/codec.rs:518-529 | The item loop produces the encoding or the first error |
| Buffers.ReadIds | crates/dlep-core/src/codec.rs:339-344 | The loop reads the extension identifiers two octets at a time |
| Buffers.TakeRaw | crates/dlep-core/src/codec.rs:62-69 | A raw item is split off the buffer, or the error names what is missing |
| Buffers.DecodeItems | crates/dlep-core/src/codec.rs:541-546 | The body loop decodes exactly the body and consumes it |
| Framing.Decode | crates/dlep-net/src/framed.rs:19-32 | Waits without consuming on a partial frame; consumes exactly one frame otherwise, malformed or not |
| Framing.DrainBuffer | crates/dlep-daemon/src/session.rs:577-591 | Calling the decoder until it waits delivers every complete frame in order |
| Framing.ChunkingIndependent | crates/dlep-daemon/src/session.rs:577-591 | However any octet stream is cut into reads, the outcome is that of reading it at once |
| Framing.StreamSurvivesChunking | crates/dlep-net/src/framed.rs:19-32 | Every list of encodable messages, cut anyhow, is delivered in order with nothing left over |
| Framing.BadFrameConsumed | crates/dlep-net/src/framed.rs:30-31 | A malformed body yields its error, is consumed whole, and later frames stay aligned |
| Timers.StaleExpiriesFiltered | crates/dlep-daemon/src/session.rs:541-565 | Over every interleaving of arming, firing, cancelling and delivery with fewer than 2^64 armings per id: an expiry passes if and only if it comes from the latest uncancelled arming of its id and that is periodic or not yet delivered; and a one-shot arming is delivered at most once |
| Timers.FiredIsDelivered | crates/dlep-daemon/src/session.rs:541-565 | Over every such run: an arming that fires and is then neither cancelled nor armed anew reaches the machine once the expiries ahead of it have been taken, whatever happens meanwhile |
| Timers.GenerationsDiffer | crates/dlep-daemon/src/session.rs:225-234 | Two armings of an id share a generation exactly when they are a whole number of wraps apart |
| Timers.TimerSet.NextGenerationFor | crates/dlep-daemon/src/session.rs:225-234 | The next generation, wrapping at 2^64 |
| Timers.TimerSet.Arm | crates/dlep-daemon/src/session.rs:236-247 | Installs the new arming in place of any old one |
| Timers.TimerSet.Accept | crates/dlep-daemon/src/session.rs:541-553 | Passes an expiry exactly on the current generation, then forgets a one-shot |
| Registry.ConnectionRegistry.Register | crates/dlep-daemon/src/connections.rs:81-121 | Prune, evict the longest idle unpinned peer if there is no room, and count the new tracker; refuse only when nobody can be evicted |
| Registry.ConnectionRegistry.MakeRoom | crates/dlep-daemon/src/connections.rs:99-114 | The evicted peer is idle, unpinned and the longest so; refusal means there is none |
| Registry.ConnectionRegistry.FindOldest | crates/dlep-daemon/src/connections.rs:99-106 | The minimum by idle time, then address |
| Registry.ConnectionRegistry.PruneNow | crates/dlep-daemon/src/connections.rs:74-79 | Drops expired entries; the published snapshot is always the current state |
| Registry.ConnectionRegistry.Established | crates/dlep-daemon/src/connections.rs:152-163 | Gives the peer a generation above all before it |
| Registry.ConnectionRegistry.Drop | crates/dlep-daemon/src/connections.rs:167-180 | Never underflows, starts the idle window at the last drop by one clock reading, and prunes by the next |
| Registry.RunKeeps | crates/dlep-daemon/src/connections.rs:58-181 | Over every run: session counts are those of the live trackers, idle peers are timed, unpinned entries never exceed the limit |
| Registry.RegisterKeeps | crates/dlep-daemon/src/connections.rs:81-121 | A refusal happens only with the limit reached and every unpinned entry active |
| Registry.NeverEvicted | crates/dlep-daemon/src/connections.rs:58-72 | Active or pinned peers survive every operation |
| Registry.GenerationsRise | crates/dlep-daemon/src/connections.rs:152-163 | Establishment generations never fall |
| Registry.EstablishmentIsNews | crates/dlep-daemon/src/connections.rs:152-163 | With an establishment between two reads of a run, the later read shows a number above every number of the earlier one if the record has lasted since an establishment, and none otherwise |
| Registry.NumberMeans | crates/dlep-daemon/src/connections.rs:58-181 | In every state of every run a peer has a number exactly when it was established and its record has lasted since |
| Registry.NumberLasts | crates/dlep-daemon/src/connections.rs:58-181 | While the record lasts the number stays above all given before, whatever drops, prunes and registrations follow |
| Registry.NumberStep | crates/dlep-daemon/src/connections.rs:81-121 | One operation sets the number, loses it with the record, or leaves it; a registration that finds its own peer expired loses it |
| Reconnect.BackoffIs | crates/dlep-router/src/lib.rs:364-370 | The capped shift gives min(2^attempts, 30) seconds for every attempt count |
| Reconnect.HandOutsAreSpaced | crates/dlep-router/src/lib.rs:376-415 | Over every run on a monotonic clock, a peer that stayed queued is handed out again no sooner than its backoff |
| Reconnect.ReconnectQueue.ScheduleAt | crates/dlep-router/src/lib.rs:376-389 | A queued peer keeps its attempts and deadline; a suspended one resumes from now |
| Reconnect.ReconnectQueue.TakeDueLimited | crates/dlep-router/src/lib.rs:398-415 | Hands out the longest waiting due peers in order, as many as allowed, each with a longer deadline |
| Reconnect.Reconcile | crates/dlep-router/src/lib.rs:315-337 | The loop treats each peer of the snapshot once, in whatever order; afterwards a peer of the snapshot counts as connected if and only if it is active, has no retry due at any time while active, and has one while idle |
| Reconnect.CoalescedEstablishmentResets | crates/dlep-router/src/lib.rs:312-337 | For any two reads of a run with an establishment between them: the peer starts a fresh backoff, or none while connected, if the earlier read showed an establishment or the record has lasted since one; otherwise its attempts are kept |
| Reconnect.EstablishmentUnseen | crates/dlep-router/src/lib.rs:312-337 | A run where a peer on record throughout is established unseen, because its own registration found the record expired |
| Reconnect.PruneBook | crates/dlep-router/src/lib.rs:298-310 | Expired peers leave the books; pinned ones keep their retries |
| Attempts.ConnectAttempts.Insert | crates/dlep-router/src/connect.rs:64-83 | Accepted exactly when there is room, something to try and no reserved endpoint |
| Attempts.ConnectAttempts.RetainRetries | crates/dlep-router/src/connect.rs:87-97 | Drops unwanted retries and frees exactly what they reserved |
| Attempts.ConnectAttempts.Complete | crates/dlep-router/src/connect.rs:99-118 | The first ready attempt leaves; the reservations stay those of the rest |
| PacketWalk.OptionsPassed | crates/dlep-net/src/tcp_monitor.rs:268-290 | Every IPv4 packet with TTL below 255, whole or a first fragment, with any options before TCP, is recognised with the addresses at octets 12 and 16 and the ports behind the options |
| PacketWalk.PassedOptions | crates/dlep-net/src/tcp_monitor.rs:268-290 | Conversely every IPv4 match exhibits its options and its segment |
| PacketWalk.TrailerIgnored4 | crates/dlep-net/src/tcp_monitor.rs:272-278 | Octets past the declared length of an IPv4 packet play no part |
| PacketWalk.ChainFound | crates/dlep-net/src/tcp_monitor.rs:266-355 | Every well-formed chain of IPv6 extension headers before TCP, with hop limit below 255, is recognised with the ports of its TCP header |
| PacketWalk.FoundChain | crates/dlep-net/src/tcp_monitor.rs:293-332 | Conversely every IPv6 match exhibits such a chain and segment |
| PacketWalk.TrailerIgnored | crates/dlep-net/src/tcp_monitor.rs:297-300 | Octets past the declared length play no part |
| PacketWalk.WalkHeaders | crates/dlep-net/src/tcp_monitor.rs:301-327 | The loop terminates and finds what the recursive walk finds |
| PacketWalk.Inspect | crates/dlep-net/src/tcp_monitor.rs:266-355 | The packet inspection computes the specified connection |
| PacketWalk.FilterMeans | crates/dlep-net/src/tcp_monitor.rs:126-145 | The filter program passes exactly the IPv4 and IPv6 packets with a TTL or hop limit below 255 |
| PacketWalk.MatchesPassFilter | crates/dlep-net/src/tcp_monitor.rs:126-145 | Every packet the walker matches is passed by the filter |

## Left out

- Sockets, TLS, GTSM socket options, interface resolution, process signals and the asynchronous runtime: foreign calls and I/O; which bytes, expiries or completions arrive, and when, is arbitrary in the model.
- Command-line handling, configuration files and their field checks: easy range checks.
- The radio adapter bridge (crates/dlep-modem/src/radio.rs): best-effort replay over process I/O without an intended invariant.
- The discovery machines and offers (crates/dlep-fsm/src/discovery_common.rs and its siblings): few states and easy claims.
- Extension plug-ins: user code; their traffic is the event RecvExtensionMessage, which only refreshes liveness.
- The daemon's public events and broadcast lag: a one-to-one mapping onto channels.
- Protocol.QuiescentAgreement: the queues of the composed system carry typed messages, so a latency is the sender's own and not its whole microseconds; Codec.CanonicalRoundTrip covers the octets of canonical messages. The two configurations must share a MAC format and have encodable handshake messages.
- Reports.ListenerAgrees: a session-wide metric update is reported as the session's metrics only, so a listener does not know a destination's own metrics from then until the next report about it.
- Containment.AddressesContained: containment, not equality, because the router drops addresses another destination or the peer already holds.
- Coalescing.CoalescedExactly: every address moved by a run of updates is judged against the same other entries, those of the router at the start; the updates go through the router's handler; that a conforming router accepts them first is Conformance.DestinationAddressesGood and Conformance.DestinationMetricsGood. The router's list must lie within the addresses the modem starts from, as Containment.RunKeepsBound shows of a conforming pair.
- Reordering.RouterReceiveAlike: states are compared, not the order of addresses inside emitted events; of a refused message only the refusal is, since the first of several session-ending statuses is the one reported.
- The total encoded size of coalesced updates and announce responses is not bounded by preflight in the source; an unencodable message ends the session in the model.
- Registry.ConnectionRegistry.Established: the establishment counter is unbounded; overflow of a 64-bit counter is not modelled. The mutex is not modelled: each operation holds it from start to end.
- Reconnect.ReconnectQueue.TakeDueLimited: instants are unbounded numbers, so overflow of the platform clock is not modelled.
- Attempts.ConnectAttempts.Complete: which attempts are ready is a parameter; the results of the futures are not modelled.
- Codec.EncodeError: error values carry the field and the number reported, not the textual messages or the permitted lengths.
- Events emitted for logging only (tracing) and the wording of error messages.
