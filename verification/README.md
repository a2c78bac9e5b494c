# roq-udp-subscriber: reassembly buffer and object synchroniser

A Dafny model of the two stateful parts of the UDP subscriber, with proofs.

**The reassembly buffer** (`src/roq/udp_subscriber/tools/buffer.hpp`, `buffer.cpp`) takes datagrams in
any order, with losses and duplicates, and calls back with whole messages in sequence order. It uses a
ring of 16 slots, 32-bit sequence numbers that wrap, a flat byte buffer per slot that is never cleared, a
fast path for unfragmented frames, and two ways of recovering from a gap.

**The object synchroniser** (the `parse` closures in `src/roq/udp_subscriber/gateway/incremental.cpp` and
`snapshot.cpp`) decides, over a map shared by an incremental and a snapshot channel, which messages of the
snapshot channel are let through.

## How the model is built

| file | content |
|---|---|
| `Wire.dfy`, `Serial.dfy` | frames, messages, senders; 32-bit sequence arithmetic |
| `Buffer.dfy` | classes `Item` and `Buffer`: fields updated in place, byte arrays, loops, as in the program |
| `Ring.dfy` | the same buffer as a value; every method of `Buffer` is proved to compute the function of the same name |
| `Stream.dfy`, `Delivery.dfy` | the specification (unbounded indices, a map from index to fragments, a log of deliveries and gaps) and its laws |
| `Reassembly.dfy`, `Refinement.dfy`, `Runs.dfy`, `Sessions.dfy` | one slot; the ring refines the specification, per call, per session, and over many sessions |
| `Paths.dfy` | what each path of a call does to any ring with any frame, slot by slot and byte by byte, and exactly when a call is healthy |
| `Calls.dfy`, `StaleWindow.dfy` | what holds for any frames at all, exactly when it fails, and a run that makes it fail |
| `Bisimulation.dfy`, `Restart.dfy`, `Rotation.dfy` | indistinguishable rings; session changes; translation invariance |
| `Sync.dfy` | the synchroniser: transitions, non-interference, an object's state in terms of its history |
| `System.dfy`, `Gateway.dfy` | both channels together: composition, and the handlers as classes |

Modelling decisions:

- The callback is an append to an output sequence; the gap warnings of the log are outputs too, so that
  skipped indices can be accounted for. Other logging is not modelled.
- The asserts of a debug build and the fatal "buffer is full" do not stop the model: each call returns
  `healthy`, true exactly if every assert of `update` on its path held and the fatal line was not reached
  (`Paths.HealthyExactly` says when). The asserts of the drain loop and of `get_item` always hold: they are
  proved where the code makes them.
- `MAX_PAYLOAD` is an arbitrary positive constant. A payload has at most that many bytes, which is what the
  code relies on when it copies a payload into the flat buffer.
- The encoding and the snapshot flag are decoded from the control byte by code that is not part of this
  model; a frame carries them decoded.
- A sender is any function from unbounded indices to messages of 1 to 256 chunks, all full except possibly
  the last. Its datagrams carry the index cut to 32 bits. A run is any sequence of its packets, so losses,
  duplicates and overtaking need no further description. What is proved about arbitrary frames
  (everything in `Paths.dfy`, `Calls.dfy`, `Bisimulation.dfy` and `Rotation.dfy`, and
  `Restart.ReachableIsSane`) needs no sender.
- The bitset of a slot is a set of fragment numbers; the shared map and its key are a Dafny map and a pair.
  The callbacks of a call are handled after its drain instead of during it; they do not touch the buffer.

## What the code does not do

Where a natural expectation is false of the code, the exact condition is proved.

- A change of session sets the expected number but leaves the slots as they are. The buffer then
  behaves like a new one under every continuation (well-formed or not, with further sessions) if and only if
  the new session is not 0 and no slot held anything (`Restart.FreshStartExactly`).
- In a session whose first expected slot is not ready, as after a clean start, that stays so between calls,
  "buffer is full" is never reached and no call makes more than 16 callbacks, whatever the frames
  (`Calls.OneSessionRun`). A change of session to a slot left ready breaks all three: the exact conditions are
  `Calls.ReadyAfterCallExactly`, `Calls.AbortsExactly` (16 ahead of sixteen ready slots) and
  `Calls.CallbacksExactly` (the fast path over sixteen ready slots makes 17), and a new buffer can be brought
  there (`StaleWindow.FullIsReached`). From the first point of a session at which the expected slot is not
  ready, the rest of it is orderly again (`Calls.OrderlyFrom`).
- A new buffer has session 0 and expects number 0, so a first frame of session 0 does not synchronise it;
  shifting all sequence numbers is unobservable if and only if the first session is not 0
  (`Rotation.InvarianceExactly`).
- A run reports a gap if and only if some packet is 16 or more ahead of the expected index when it arrives
  (`Delivery.GapIffOverflow`).
- 32 bits identify an index if and only if it is fewer than 2^30 behind or at most 3·2^30 ahead
  (`Serial.UnwrapExact`), and the buffer does what the specification says for exactly those, over almost a full
  cycle on both sides (`Refinement.ReceiveRefinesExactly`).
- The snapshot handler logs "OBJECT READY" but never makes an object ready; an object is ready if and only if
  an incremental message with the snapshot flag came since the last change of session (`Sync.ObjectState`).

## Model

| member | source | states |
|---|---|---|
| Serial.DiffIsModular | src/roq/udp_subscriber/tools/buffer.cpp:125-145 | in every width, `diff` is subtraction modulo the width and no intermediate value leaves the type |
| Serial.UnwrapExact | src/roq/udp_subscriber/tools/buffer.cpp:148-156 | replay test and distance recover a 32-bit truncated index if and only if it is in reach; in reach, replay means behind and distance is the true distance |
| Buffer.Item.Reset | src/roq/udp_subscriber/tools/buffer.cpp:194-199 | forgets the fragments and keeps bytes and header |
| Buffer.Item.Complete | src/roq/udp_subscriber/tools/buffer.cpp:65-76 | the slot becomes ready and takes over the header, nothing else changes |
| Buffer.Item.Store | src/roq/udp_subscriber/tools/buffer.cpp:54-81 | stores one fragment in place, ignores a duplicate, marks the slot ready and takes over the header on the last missing one; reports whether the asserts held |
| Buffer.Buffer.constructor | src/roq/udp_subscriber/tools/buffer.cpp:24-25 | sixteen different empty slots, session 0, expected number 0 |
| Buffer.Buffer.Advance | src/roq/udp_subscriber/tools/buffer.cpp:158-166 | increments the expected number with wrap; the asserts hold exactly if the slot passed over is vacant |
| Buffer.Buffer.Reset | src/roq/udp_subscriber/tools/buffer.cpp:183-187 | resets every slot and nothing else |
| Buffer.Buffer.Process | src/roq/udp_subscriber/tools/buffer.cpp:173-181 | reaches the slot exactly if the distance is below 16, otherwise changes nothing |
| Buffer.Buffer.KeepSuffix | src/roq/udp_subscriber/tools/buffer.cpp:87-100 | the reverse scan finds the start of the longest ready suffix and resets exactly what is before it |
| Buffer.Buffer.Update | src/roq/udp_subscriber/tools/buffer.cpp:27-121 | new state, status, gap warning and asserts of every path are those of `Ring.Update` |
| Buffer.Buffer.Deliver | src/roq/udp_subscriber/tools/buffer.hpp:55-72 | one turn of the drain loop delivers the expected slot, resets it and advances; the asserts of `advance` always hold here |
| Buffer.Buffer.DrainAll | src/roq/udp_subscriber/tools/buffer.hpp:50-71 | the drain loop terminates and delivers what `Ring.Drain` says |
| Buffer.Buffer.Receive | src/roq/udp_subscriber/tools/buffer.hpp:29-74 | one call computes `Ring.Receive`; the result says whether there was any callback |
| Reassembly.StoreHolds | src/roq/udp_subscriber/tools/buffer.cpp:53-81 | a slot that holds a set of fragments of a message holds one more afterwards, whatever else is in its byte buffer; no assert fails; it completes exactly if this was the last one missing |
| Reassembly.ReadyDeliversBody | src/roq/udp_subscriber/tools/buffer.hpp:59-68 | a ready slot delivers exactly the bytes and header of its message; no stale byte is visible |
| Reassembly.Confluence | src/roq/udp_subscriber/tools/buffer.cpp:53-82 | a slot is a function of the set of fragments received: any orders and duplications turn the same vacant slot into the same slot, to the last byte, complete or not |
| Reassembly.ConfluenceOverStaleBytes | src/roq/udp_subscriber/tools/buffer.cpp:194-199 | from slots with different stale bytes, flag, count, available set and size agree, every chunk received is in place in both, and what is delivered when complete is equal |
| Stream.SuffixIsLongest | src/roq/udp_subscriber/tools/buffer.cpp:88-100 | the suffix kept after an overflow is complete and cannot be longer |
| Delivery.DrainDelivers | src/roq/udp_subscriber/tools/buffer.hpp:54-73 | draining delivers the complete prefix of the window, in order, and stops at the first incomplete message |
| Delivery.Conservation | src/roq/udp_subscriber/tools/buffer.cpp:41-111 | over any run, every index from the start to the expected one is in exactly one event, delivered or skipped, no other index is in any, and events are in increasing order |
| Delivery.OnlyReceived | src/roq/udp_subscriber/tools/buffer.cpp:51-118 | over any run, only messages all of whose fragments arrived are delivered |
| Delivery.OnlineIsBatch | src/roq/udp_subscriber/tools/buffer.cpp:27-121 | without overflow exactly the messages from the start to the first one that did not arrive completely are delivered, in order |
| Delivery.OrderDoesNotMatter | src/roq/udp_subscriber/tools/buffer.cpp:27-121 | runs without overflow that have the same start and the same set of packets end in the same state with the same deliveries |
| Delivery.GapIffOverflow | src/roq/udp_subscriber/tools/buffer.cpp:85-111 | a run has a gap event if and only if some packet was 16 or more ahead on arrival |
| Delivery.GapOfOne | src/roq/udp_subscriber/tools/buffer.cpp:87-116 | exactly 16 ahead: jump to the start of the longest complete suffix, deliver all of it; what remains is the packet at most |
| Delivery.GapOfMany | src/roq/udp_subscriber/tools/buffer.cpp:106-116 | further ahead: the window is dropped and restarts at the packet |
| Refinement.DirectRefines | src/roq/udp_subscriber/tools/buffer.cpp:45-50 | the fast path, which bypasses the ring, does what storing and draining would do |
| Refinement.InWindowRefines | src/roq/udp_subscriber/tools/buffer.cpp:51-84 | a frame inside the window is added to the slot of its index, which no other index of the window shares |
| Refinement.BeyondWindowRefines | src/roq/udp_subscriber/tools/buffer.cpp:85-118 | both recoveries make room, agree with the specification, and the second attempt to store always succeeds |
| Refinement.ReceiveRefines | src/roq/udp_subscriber/tools/buffer.hpp:29-74 | each call of the ring on a frame in reach is one step of the unbounded map, across the 32-bit wrap, with the same outputs; no assert fails and "buffer is full" is not reached |
| Refinement.ReceiveRefinesExactly | src/roq/udp_subscriber/tools/buffer.cpp:148-156 | for indices from 2^32 - 16 behind to less than 2^32 ahead, a call is a step of the specification if and only if the index is in reach |
| Runs.SessionRefines | src/roq/udp_subscriber/tools/buffer.cpp:34-121 | from a clean start, a whole run within reach makes the callbacks of the specification with the original headers and bytes, reports its gaps, and no assert fails |
| Sessions.SessionsRefine | src/roq/udp_subscriber/tools/buffer.cpp:33-121 | any number of sessions through one ring, each starting clean: the outputs are those of the specification session after session, no assert ever fails and "buffer is full" is never reached |
| Sessions.CleanAfter | src/roq/udp_subscriber/tools/buffer.cpp:33-40 | a session leaves the ring clean for the next one if and only if its window is empty |
| Runs.SessionIsBatch | src/roq/udp_subscriber/tools/buffer.hpp:29-74 | online equals batch for the ring: without overflow and within reach, the callbacks are the original messages up to the first incomplete one |
| Runs.SessionOrderDoesNotMatter | src/roq/udp_subscriber/tools/buffer.hpp:29-74 | two buffers with different stale bytes and different orders of the same packets make the same callbacks, if neither overflows and both stay within reach |
| Runs.RingGapOfOne | src/roq/udp_subscriber/tools/buffer.cpp:87-116 | the same recovery seen on the ring: warning, callbacks, and expected number N+17 or N+16 |
| Runs.RingGapOfMany | src/roq/udp_subscriber/tools/buffer.cpp:106-116 | recovery from a larger gap seen on the ring |
| Paths.StoreExactly | src/roq/udp_subscriber/tools/buffer.cpp:53-81 | any slot, any frame: a fragment the slot has changes nothing; a new one sets its bit, raises the count, writes its own bytes and no others, sets the size only if last, and makes the slot ready with the header of the frame exactly if the count reaches the number of fragments |
| Paths.BecomesReadyExactly | src/roq/udp_subscriber/tools/buffer.cpp:63-66 | a slot becomes ready if and only if the fragment is new and with it the set has as many as the frame says; fragments left over from another message count |
| Paths.LeftoversCount | src/roq/udp_subscriber/tools/buffer.cpp:33-66 | a change of session over leftover fragments: the first frame of a fragmented message makes a callback if and only if it completes that number together with what is left in the slot |
| Paths.DrainExactly | src/roq/udp_subscriber/tools/buffer.hpp:53-73 | any ring: delivers the ready slots from the expected one on, in order, each with its own number, header and bytes, up to the first that is not ready; resets exactly these |
| Paths.ReplayIgnored | src/roq/udp_subscriber/tools/buffer.cpp:41-44 | a frame fewer than 2^30 behind the expected number changes nothing and delivers nothing, whatever the slots hold |
| Paths.SessionChangeExactly | src/roq/udp_subscriber/tools/buffer.cpp:33-40 | a frame of another session is handled as if the buffer had been in that session and expected it, with the slots as they are |
| Paths.FastPathExactly | src/roq/udp_subscriber/tools/buffer.cpp:45-50 | an expected unfragmented frame is handed over at once, then what waits behind it; healthy if and only if its slot held nothing |
| Paths.DuplicateIgnored | src/roq/udp_subscriber/tools/buffer.cpp:56-80 | inside the window a fragment the slot has leaves the whole ring as it is and delivers nothing |
| Paths.NewFragmentExactly | src/roq/udp_subscriber/tools/buffer.cpp:51-84 | inside the window a new fragment goes to the slot of its number only; there are callbacks exactly if it completes the expected slot; healthy if and only if the slot was not ready |
| Paths.OverflowOfOneExactly | src/roq/udp_subscriber/tools/buffer.cpp:87-116 | sixteen ahead of a ring that is not full: skip to the longest ready suffix, store in the slot vacated first, deliver after the warning; healthy |
| Paths.OverflowOfManyExactly | src/roq/udp_subscriber/tools/buffer.cpp:106-116 | further ahead: all slots are given up, the frame is stored as the expected one and delivered at once if unfragmented; healthy |
| Paths.HealthyExactly | src/roq/udp_subscriber/tools/buffer.cpp:45-117 | any reachable ring, any frame: a call fails an assert or reaches "buffer is full" if and only if it takes the fast path over a slot that holds something, brings a new fragment for a ready slot, or is sixteen ahead of sixteen ready slots |
| Calls.DrainAccounts | src/roq/udp_subscriber/tools/buffer.hpp:53-72 | each callback of a drain empties one ready slot, and the expected slot is not ready afterwards |
| Calls.OneCall | src/roq/udp_subscriber/tools/buffer.hpp:29-74 | one call within a session, any frame: if the expected slot was not ready it is not afterwards, recovery makes room, and there are at most 16 callbacks |
| Calls.OneSessionRun | src/roq/udp_subscriber/tools/buffer.hpp:29-74 | runs of any frames of one session, well-formed or not, whose first expected slot is not ready: it is never ready between calls, "buffer is full" is never reached, and no call makes more than 16 callbacks |
| Calls.OrderlyFrom | src/roq/udp_subscriber/tools/buffer.hpp:29-74 | the same for the rest of any session, whatever the slots held when it began, from any point at which the expected slot is not ready |
| Calls.CallbacksExactly | src/roq/udp_subscriber/tools/buffer.hpp:36-71 | any ring and frame: at most 17 callbacks, more than 16 if and only if the frame takes the fast path over sixteen ready slots, and then an assert fails |
| StaleWindow.FullIsReached | src/roq/udp_subscriber/tools/buffer.cpp:33-40 | a new buffer, 16 packets of one session and two frames of another: the next frame reaches "buffer is full", and another makes 17 callbacks |
| Calls.ReadyAfterCallExactly | src/roq/udp_subscriber/tools/buffer.cpp:33-78 | after a call the expected slot is ready if and only if the call changed the session to a slot still ready from the old one and neither took the fast path nor completed the slot |
| Calls.AbortsExactly | src/roq/udp_subscriber/tools/buffer.cpp:87-116 | "buffer is full" is reached if and only if the frame is 16 ahead and all sixteen slots are ready |
| Runs.HoleFilled | src/roq/udp_subscriber/tools/buffer.hpp:36-71 | the fast path and its fall-through deliver the expected message with all complete ones waiting behind it, up to the first incomplete one |
| Runs.CallbacksFromNew | src/roq/udp_subscriber/tools/buffer.hpp:36-71 | from a new buffer a run ends with a call that makes n callbacks, for every n up to 16: the bound is attained |
| Restart.ReachableIsSane | src/roq/udp_subscriber/tools/buffer.cpp:56-70 | after any run of any frames in any sessions, the count of a slot is the number of its available bits |
| Bisimulation.RunSame | src/roq/udp_subscriber/tools/buffer.cpp:27-121 | rings that agree up to stale bytes stay so under any datagrams, with equal callbacks (up to bytes that were there before), warnings and health |
| Restart.FreshStartExactly | src/roq/udp_subscriber/tools/buffer.cpp:33-40 | a new session behaves like a new buffer under every sequence of datagrams, and to the last byte for well-formed senders, if and only if it is not session 0 and no slot holds a fragment |
| Rotation.RunShift | src/roq/udp_subscriber/tools/buffer.cpp:123-187 | runs from rotated states on shifted frames stay rotated, with shifted outputs and equal health |
| Rotation.TranslationInvariance | src/roq/udp_subscriber/tools/buffer.cpp:91-97 | adding any constant to all sequence numbers shifts the numbers in the output and changes nothing else |
| Rotation.InvarianceExactly | src/roq/udp_subscriber/tools/buffer.hpp:113-114 | translation invariance holds for all continuations if and only if the first session is not 0 |
| Sync.NonInterference | src/roq/udp_subscriber/gateway/snapshot.cpp:100-137 | over any interleaving, an object's state and whether a message about it is dispatched depend on its own history since the last change of session only |
| Sync.DifferentObjectsCommute | src/roq/udp_subscriber/gateway/incremental.cpp:109-136 | messages about different objects commute within a session, in state and in what is dispatched |
| Sync.ObjectState | src/roq/udp_subscriber/gateway/incremental.cpp:114-136 | ready if and only if opened by an incremental snapshot; waiting: the maximum of the first number and all snapshot numbers; ready: the last incremental number |
| Sync.UnfilteredObjectState | src/roq/udp_subscriber/gateway/snapshot.cpp:108-110 | objects of type zero are never filtered; their number is that of the last message once ready, before that of the last snapshot or else of the very first message |
| Sync.SnapshotDispatch | src/roq/udp_subscriber/gateway/snapshot.cpp:103-124 | over runs with any session changes, a snapshot of a non-zero type is dispatched if and only if its session is current, its object is not opened in it, and its number reaches all earlier ones of it |
| Sync.SnapshotsAreMonotonic | src/roq/udp_subscriber/gateway/snapshot.cpp:107-126 | over runs with any session changes, snapshots of an object dispatched in one session have non-decreasing numbers, come before anything in it opens the object, and reach the incremental message that came first |
| Sync.SessionSafety | src/roq/udp_subscriber/gateway/incremental.cpp:103-107 | the shared session is that of the last incremental message, dispatched snapshots are of it, and every map entry has a number |
| System.ReadAllIsRun | src/roq/udp_subscriber/gateway/snapshot.cpp:138-142 | any gateway, any interleaving: the buffer of either channel has done what its own datagrams alone make it do, its messages are the callbacks of that run, and the shared state is the synchroniser's run over all messages as completed |
| System.EventsOfExactly | src/roq/udp_subscriber/tools/buffer.hpp:36-71 | the messages of a call are its callbacks, each once, in order, with header and bytes |
| System.DispatchesExactly | src/roq/udp_subscriber/gateway/snapshot.cpp:103-134 | the dispatched messages are all messages at the increasing positions at which the state found there lets the message through |
| System.IncrementalAlwaysDispatched | src/roq/udp_subscriber/gateway/incremental.cpp:109-113 | over any run, what is dispatched of the incremental channel is all its messages, in order |
| System.ChannelInOrder | src/roq/udp_subscriber/gateway/snapshot.cpp:138-142 | in any session of either channel, both interleaved, its messages are the delivered indices in increasing order, each with the header and bytes of the original |
| System.IncrementalInOrder | src/roq/udp_subscriber/gateway/incremental.cpp:138-141 | in any session of a running gateway, with both channels interleaved, incremental messages are the delivered indices in increasing order with the original headers and bytes, and all of them are dispatched; the shared session is that one once there is a message |
| System.ReadyObjectsFollowDelivery | src/roq/udp_subscriber/gateway/incremental.cpp:103-119 | in any session, whatever the map held before, the number of a ready object is that of the latest message about it delivered by the incremental buffer |
| System.ReadyObjectsStay | src/roq/udp_subscriber/gateway/snapshot.cpp:111-113 | in any session, once ready, an object stays ready and the snapshot channel dispatches nothing about it, whatever it receives |
| System.ReadyObjectsAdvance | src/roq/udp_subscriber/gateway/incremental.cpp:114-119 | between two points of any session the index behind a ready object's number never falls and grows exactly if a message about it was delivered |
| Gateway.Shared.ParseIncremental | src/roq/udp_subscriber/gateway/incremental.cpp:101-137 | the closure updates the shared fields as `Sync.Step` says |
| Gateway.Shared.ParseSnapshot | src/roq/udp_subscriber/gateway/snapshot.cpp:100-137 | the closure updates the shared fields and dispatches as `Sync.Step` and `Sync.Dispatched` say |
| Gateway.Handler.Read | src/roq/udp_subscriber/gateway/incremental.cpp:138-142 | a datagram changes the handler's own buffer and the shared state, and dispatches, as `Ring.Receive` followed by the synchroniser says |
| Gateway.Controller.constructor | src/roq/udp_subscriber/gateway/controller.cpp:21-24 | two handlers with separate new buffers over one shared state |
| Gateway.Controller.Read | src/roq/udp_subscriber/gateway/incremental.cpp:138-142 | a datagram on either channel is one step of the composed system; the other handler's buffer is not touched |

## Left out

- Runs.SessionRefines: asks that each packet is fewer than 2^30 behind or at most 3·2^30 ahead of the expected index on arrival, because 32-bit numbers identify an index exactly then (`Serial.UnwrapExact`, `Refinement.ReceiveRefinesExactly`).
- System.ChannelInOrder: asks that the buffer of the channel holds nothing when the session starts, for the reason given for the next member.
- System.IncrementalInOrder: asks that the incremental buffer holds nothing when the session starts, because otherwise what is left of the old session shows (`Restart.FreshStartExactly`).
- Delivery.OnlineIsBatch: asks that no packet overflows the window, because exactly then nothing is skipped (`Delivery.GapIffOverflow`).
- Buffer.Buffer.Update: after the fatal "buffer is full" the program ends; the model returns an unhealthy result and goes on.
- Gateway.Handler.Read: one class serves both channels, where the program has one class per channel that differ in their closure.
- The market-by-price sequencer calls in both handlers: the algorithm is in a library that is not part of this model.
- Flatbuffers decoding and the table of message types: a dispatch is an output event.
- The rest of the controller (it forwards events and published messages), configuration, settings, application, sockets and the datagram reader: forwarding, start-up and I/O.
- Stream status, heartbeat timer, support masks, metrics and log lines other than the gap warning.
- The bit layout of the control byte: carried decoded.
