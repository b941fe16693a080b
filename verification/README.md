# Verified models of sockrocket

Dafny models of the stateful core of sockrocket and of its TLS library craftls, with proofs of what that
code keeps over every run. `dafny verify dfyconfig.toml` checks the whole project.

Each component has a value-level description of its steps. Where the source updates state in place there is
also a class whose methods are proved equal to those steps. The theorems are about all runs, all
interleavings or all inputs of the description.

- **System-proxy journal** (`ProxyJournal`, `SystemProxy`). The OS setting and the journal file are two
  durable cells. Owners, the guardian, startup recovery, the user and faults between any two writes act on
  them. The platform is a parameter in the first module and the desktop backend in the second.
- **Ticket keys** (`Ticketer`). The three lock sections of `maybe_roll`, interleaved by any number of
  threads, each with its own clock reading and a generator that may fail.
- **TLS sending** (`Records`, `VecBuf`, `RecordLayer`, `SendPath`, `SendStream`, `Delivery`,
  `RecordProtection`, `CommonState`). From the bytes an application hands over to the bytes a peer recovers
  from any cut of the record stream. Ciphers are arbitrary functions. `Delivery.EndToEnd` ties the modules
  together, and `RecordProtection` shows that the records of both protocol versions meet its hypothesis over
  any invertible encryption.
- **TLS receiving** (`ConnCore`). The error latch, fatal alerts and dropped ChangeCipherSpec messages.
- **QUIC handshake queue** (`QuicQueue`) and **session cache** (`LimitedCache`).
- **Configuration** (`ConfigApply`, `RuleOrder`, `DesktopRules`). Overlapping reload attempts, the effective
  order of routing rules under moves and insertions, and the desktop editor's round trip.
- **Codecs** (`Der`, `HttpHead`, `ProxyHttp`, `ChunkedCoding`, `HttpResponse`). DER elements and exactly which
  certificates are accepted; SOCKS and HTTP responses read from an arbitrarily split stream, and what whole
  responses decode to; the chunked transfer coding.
- `Prelude`, `Sorting` and `Text` hold shared types, a stable sort and the string operations used.

## Where the code does not meet its promise

The models follow the code. The lemmas named show the failure or say exactly when the promise holds.

- A wildcard host with surrounding spaces is recorded as one endpoint and applied as another; the restore
  then drops the record (`SystemProxy.PaddedWildcardLosesTheSetting`, `SystemProxy.EndpointFaithful`).
- An owner that moves to another endpoint records it before the OS changes
  (`ProxyJournal.CrashWhileMovingEndpoint`). A previous setting that cannot be written back is lost on the
  second restore (`SystemProxy.WildcardPreviousIsLost`, `ProxyJournal.RetryDropsUnrestorableRecord`).
- A choice the user makes while `enable` runs can be lost (`ProxyJournal.RacingChoice`).
- The ticketer documents acceptance for at most twice the lifetime (`Ticketer.IdleSwitcherAcceptsLate`,
  `Ticketer.AcceptedTwiceTheLifetime`).
- `process_new_packets` documents that later calls return the same error; they return a placeholder after a
  deframer error (`ConnCore.SameErrorIff`).
- The constant for dropped ChangeCipherSpec messages is 2, but the test lets a third one through
  (`ConnCore.ThreeCcsDropped`, `ConnCore.CcsDroppedIff`, `ConnCore.NamedMaximumKeptIff`).
- At the soft sequence limit a send calls itself without end, so a write returns only below it
  (`SendPath.SoftLimitRecursion`, `SendPath.WriteReturnsIff`).
- A message encrypted while a key-update notice waits overtakes it (`SendStream.OrderKeptIffSlotEmpty`).
- A moved list with tagged mappings, or items that are not mappings, may be out of its own order
  (`RuleOrder.MoveWritesEffectiveOrder`).
- A must-encrypt QUIC message at the front of the queue leaves before the handshake keys. The caller has to
  feed handshake data before it has taken those keys for this to happen, which a QUIC stack that decrypts
  with them cannot (`QuicQueue.FinishedAheadOfKeys`, `QuicQueue.KeysBeforeProtectedMessages`).
- A chunk size line with white space before its extension is refused, though section 7.1.1 of RFC 9112
  admits it (`ChunkedCoding.PaddedExtensionRefused`, `ChunkedCoding.LineSize`).

## Model

| member | source | states |
|---|---|---|
| `ProxyJournal.ProxyHost.Enable` | crates/sockrocket-core/src/managed_proxy.rs:51-107 | the journal and OS setting after `enable`, for every owner, endpoint and point at which it crashes or fails |
| `ProxyJournal.ProxyHost.Restore` | crates/sockrocket-core/src/managed_proxy.rs:115-172 | the same for `restore_owned`, covering owner restore, guardian restore and startup recovery |
| `ProxyJournal.StepKeepsSound` | crates/sockrocket-core/src/managed_proxy.rs:51-183 | every admissible step, crashes included, keeps: no record means the OS holds the user's setting; a held record has the user's setting as `previous` |
| `ProxyJournal.RunKeepsSound` | crates/sockrocket-core/src/managed_proxy.rs:51-183 | the same over every run |
| `ProxyJournal.AnyRunRecovers` | crates/sockrocket-core/src/managed_proxy.rs:111-183 | after any run with faults anywhere, one undisturbed restore by the recorded owner or its guardian succeeds, drops the record and leaves the user's setting |
| `ProxyJournal.StartupRecovers` | crates/sockrocket-core/src/managed_proxy.rs:115-200 | after any such run startup recovery restores the user's setting if and only if the recorded host is local and nobody listens there; otherwise it changes nothing |
| `ProxyJournal.EnableSucceedsIff` | crates/sockrocket-core/src/managed_proxy.rs:51-107 | an undisturbed `enable` succeeds if and only if no other owner holds the proxy and the backend writes the endpoint as recorded; then the OS holds it and the record leads back to the user's setting |
| `ProxyJournal.OnlyTheOwnerRestores` | crates/sockrocket-core/src/managed_proxy.rs:115-145 | a restore for a process that does not own the record, or a recovery while the endpoint may be served, changes nothing |
| `ProxyJournal.CrashWhileMovingEndpoint` | crates/sockrocket-core/src/managed_proxy.rs:79-100 | a crash while an owner moves to another endpoint is recovered if and only if the endpoints, or the OS and the user's setting, compare equal |
| `ProxyJournal.EnableThenRestore` | crates/sockrocket-core/src/managed_proxy.rs:51-172 | enable then restore returns the user's setting if and only if the backend writes the endpoint as recorded, or writes what the user already had |
| `ProxyJournal.RestoreSucceedsIffRestorable` | crates/sockrocket-core/src/managed_proxy.rs:161-172 | a held record is restored if and only if its previous setting survives being written |
| `ProxyJournal.RetryDropsUnrestorableRecord` | crates/sockrocket-core/src/managed_proxy.rs:115-172 | a second attempt reports success and drops the record with the setting not back, if and only if the OS accepts the previous setting, turns it into another, and that is not the endpoint |
| `ProxyJournal.PartialWrite` | crates/sockrocket-core/src/managed_proxy.rs:91-105 | after a backend write torn part-way the setting comes back if and only if what was left compares equal to the endpoint or to the user's setting |
| `ProxyJournal.RacingChoice` | crates/sockrocket-core/src/managed_proxy.rs:62-105 | for a user's choice at each point inside `enable`: before the OS write it comes back if and only if it equals the choice before it; after the OS write it stays if and only if it differs from the endpoint or equals that choice |
| `SystemProxy.CompareMeaning` | crates/sockrocket-core/src/managed_proxy.rs:31-47 | `same_proxy` ignores exactly host case, the order, case, padding and empty parts of the bypass list, and everything but the switch when off |
| `SystemProxy.BypassSeparates` | crates/sockrocket-core/src/managed_proxy.rs:32-39 | commas and semicolons separate bypass entries |
| `SystemProxy.BypassPart` | crates/sockrocket-core/src/managed_proxy.rs:32-39 | nothing else does: such a part is one trimmed lower-case entry, or none if blank |
| `SystemProxy.WriteMeaning` | crates/sockrocket-core/src/system_proxy.rs:83-145 | what the backend writes, field by field, and which setting it refuses |
| `SystemProxy.EndpointMeaning` | crates/sockrocket-core/src/managed_proxy.rs:73-90 | the host, port and bypass list recorded, and which endpoints are refused |
| `SystemProxy.RestorableMeaning` | crates/sockrocket-core/src/system_proxy.rs:83-145 | a setting survives being written if and only if it is off or names a trimmed, non-empty host that is not a wildcard |
| `SystemProxy.DesktopSettles` | crates/sockrocket-core/src/system_proxy.rs:83-145 | what the OS holds after a faithful write can itself be written back |
| `SystemProxy.EndpointFaithful` | crates/sockrocket-core/src/managed_proxy.rs:73-90 | the endpoint recorded by `enable` is the one applied if and only if the host is a bare wildcard or does not trim to one |
| `SystemProxy.CheckedIffAdmissible` | crates/sockrocket-core/src/managed_proxy.rs:51-107 | those checks are exactly the conditions under which the journal keeps its promise |
| `SystemProxy.DesktopRecovers` | crates/sockrocket-core/src/managed_proxy.rs:51-183 | the recovery theorem for the desktop backend, over runs whose events pass concrete checks |
| `SystemProxy.DesktopStartupRecovers` | crates/sockrocket-core/src/managed_proxy.rs:176-200 | startup recovery for the desktop backend, with its exact condition |
| `SystemProxy.PaddedWildcardLosesTheSetting` | crates/sockrocket-core/src/managed_proxy.rs:73-159 | a wildcard host with surrounding spaces leaves the proxy on after a restore that reports success |
| `SystemProxy.PaddedWildcard` | crates/sockrocket-core/src/managed_proxy.rs:73-77 | either wildcard behind a space is such a host |
| `SystemProxy.WildcardPreviousIsLost` | crates/sockrocket-core/src/system_proxy.rs:83-97 | a previous setting with a wildcard host is lost at the second restore, which reports success |
| `Ticketer.TicketSwitcher.MaybeRoll` | crates/craftls/src/ticketer.rs:65-134 | without interference a guard is returned exactly when the needed generator calls succeeded, with the slots shifted once, and its reading is not past the switch time |
| `Ticketer.StepInv` | crates/craftls/src/ticketer.rs:65-134 | every lock section of every thread keeps: slots are the last two rotations, each key is in one place, each rotation read a clock past the previous switch time |
| `Ticketer.ReachableInv` | crates/craftls/src/ticketer.rs:65-134 | the same over every interleaving, and the history of rotations only grows |
| `Ticketer.EveryInterleaving` | crates/craftls/src/ticketer.rs:65-134 | from the start, in every interleaving: guards are timely, switch times strictly increase exactly at rotations, ticketers only move forward |
| `Ticketer.GuardIsTimely` | crates/craftls/src/ticketer.rs:67-133 | whenever a call returns its guard, its reading is not past the switch time in the guarded state |
| `Ticketer.SwitchTimeAdvances` | crates/craftls/src/ticketer.rs:94-133 | the switch time changes only at rotations, and then strictly upwards |
| `Ticketer.StagesAdvance` | crates/craftls/src/ticketer.rs:98-133 | a ticketer moves only forward (pending, current, previous, gone) and is never in two slots |
| `Ticketer.TicketLife` | crates/craftls/src/ticketer.rs:146-165 | a ticket is decryptable until the second rotation after its issue and never again; that rotation reads a clock more than a lifetime after the issue |
| `Ticketer.AcceptedTwiceTheLifetime` | crates/craftls/src/ticketer.rs:34-37 | in any later state the documented bound of twice the lifetime holds if and only if the key is gone or the latest rotation read at most one lifetime after the issue (or the clock ends first) |
| `Ticketer.IdleSwitcherAcceptsLate` | crates/craftls/src/ticketer.rs:34-37 | a counterexample family: an idle switcher accepts a ticket at any later reading |
| `Records.ReadEncode` | crates/craftls/src/msgs/message.rs:117-172 | reading back an encoded record returns it, whatever follows, if and only if it is well formed |
| `Records.ReadCut` | crates/craftls/src/msgs/message.rs:117-157 | a proper prefix of a well-formed record reads as incomplete, never as invalid |
| `Records.InvalidIff` | crates/craftls/src/msgs/message.rs:117-157 | a header is invalid if and only if its type, version or length is out of range, each as soon as its bytes are there |
| `Records.ParseCut` | crates/craftls/src/msgs/message.rs:117-172 | any cut of a stream of records parses to a prefix of the records, the whole stream to all |
| `VecBuf.DroppedFlat` | crates/craftls/src/vecbuf.rs:131-148 | dropping bytes from the chunk list drops them from the flat queue and leaves no empty chunk |
| `VecBuf.ChunkVecBuffer.IsEmpty` | crates/craftls/src/vecbuf.rs:46-48 | empty if and only if the byte queue is empty if and only if the cached length is 0 |
| `VecBuf.ChunkVecBuffer.IsFull` | crates/craftls/src/vecbuf.rs:50-54 | full if and only if more bytes are held than the limit |
| `VecBuf.ChunkVecBuffer.AppendLimitedCopy` | crates/craftls/src/vecbuf.rs:64-79 | appends the allowed prefix, and the length never exceeds the larger of its old value and the limit |
| `VecBuf.ChunkVecBuffer.Append` | crates/craftls/src/vecbuf.rs:82-91 | appends all bytes; an empty append adds no chunk |
| `VecBuf.ChunkVecBuffer.Pop` | crates/craftls/src/vecbuf.rs:95-99 | takes the first chunk, which is the front of the queue |
| `VecBuf.ChunkVecBuffer.Read` | crates/craftls/src/vecbuf.rs:103-116 | copies and removes exactly the front of the queue that fits the buffer |
| `VecBuf.ChunkVecBuffer.Consume` | crates/craftls/src/vecbuf.rs:131-148 | removes exactly the first `used` bytes |
| `VecBuf.ChunkVecBuffer.WriteTo` | crates/craftls/src/vecbuf.rs:151-164 | hands the writer a prefix of the queue and keeps the rest, for every partial count and for errors |
| `RecordLayer.NoncesNeverRepeat` | crates/craftls/src/record_layer.rs:109-156 | in every run (epoch, sequence number) pairs never repeat, each epoch uses an initial segment, the current one exactly those below the counter, which never passes the hard limit |
| `RecordLayer.WriteStepCounting` | crates/craftls/src/record_layer.rs:109-156 | every step keeps the counting invariant behind it |
| `RecordLayer.RecordLayer.DecryptIncoming` | crates/craftls/src/record_layer.rs:61-103 | delivers, drops within the budget, or fails; only delivered records advance the counter |
| `RecordLayer.TrialBudget` | crates/craftls/src/record_layer.rs:61-103 | over any stretch of records the dropped early data is charged to the budget exactly and never exceeds it |
| `RecordLayer.DecryptMeaning` | crates/craftls/src/record_layer.rs:61-103 | what happens to one record for each answer of the decrypter, and when a close is wanted |
| `RecordLayer.DropsWholeIff` | crates/craftls/src/record_layer.rs:61-103 | records that do not decrypt are all dropped if and only if together they fit the budget |
| `RecordLayer.DeliversBeforeKey` | crates/craftls/src/record_layer.rs:61-66 | before a key records are delivered as they are |
| `RecordLayer.PreparedIsNotUsed` | crates/craftls/src/record_layer.rs:121-140 | a prepared key encrypts nothing until it is started |
| `SendPath.FragmentsExact` | crates/craftls/src/msgs/fragmenter.rs:26-49 | for every message type fragments are non-empty, within the bound and join to exactly the payload |
| `SendPath.SendFragmentsExact` | crates/craftls/src/common_state.rs:221-273 | below the hard limit every fragment is encrypted under consecutive numbers and queued once, in order |
| `SendPath.SoftLimitRecursion` | crates/craftls/src/common_state.rs:255-273 | `send_single_fragment` returns, from any stack depth, if and only if the counter is not at the soft limit |
| `SendPath.WriteConserves` | crates/craftls/src/common_state.rs:231-273 | the bytes accepted by a write that stays below the soft limit are all encrypted, in order |
| `SendPath.WriteReturnsIff` | crates/craftls/src/common_state.rs:231-273 | a write returns, from any stack depth, if and only if its records stay below the soft limit, and then every accepted byte is encrypted |
| `SendPath.StepReturnsIff` | crates/craftls/src/common_state.rs:187-586 | every operation returns if and only if it fits below the soft limit, and leaves the counter at or below it |
| `SendPath.FlushExact` | crates/craftls/src/common_state.rs:305-373 | flushing encrypts the buffered plaintext in order, once, and empties the buffer |
| `SendPath.ClearSent` | crates/craftls/src/common_state.rs:408-418 | fragments sent in clear are on the stream one by one, with their type, version and payload |
| `SendPath.StepAccounted` | crates/craftls/src/common_state.rs:187-422 | every operation keeps the account of accepted bytes |
| `SendPath.AcceptedBytesConserved` | crates/craftls/src/common_state.rs:187-373 | over every run below the soft limit the accepted bytes are, in order and once, the buffered plaintext before the start and the encrypted application data after it |
| `SendPath.ReturningRunConserves` | crates/craftls/src/common_state.rs:187-373 | in every run whose calls return, the counter never passes the soft limit and the accepted bytes are conserved |
| `SendPath.ShortWriteFills` | crates/craftls/src/common_state.rs:231-303 | a write accepted in part leaves the buffer full, and a full buffer accepts nothing and stays full |
| `SendPath.VectoredWriteTakesAPrefix` | crates/craftls/src/conn.rs:248-254 | `write_vectored` accepts exactly the returned length as a prefix of the concatenated buffers, before and after the handshake and under any limit |
| `SendStream.StepSeen` | crates/craftls/src/common_state.rs:187-586 | every operation acts on what the peer can see as a queued notice followed by fresh records |
| `SendStream.StepKeepsFramed` | crates/craftls/src/common_state.rs:381-389 | the outgoing bytes always are the framing of the records sent |
| `SendStream.StepKeepsConserved` | crates/craftls/src/common_state.rs:559-586 | with the key-update guard every encrypted record stays on the stream or in the slot |
| `SendStream.StepKeepsOrdered` | crates/craftls/src/common_state.rs:559-586 | if nothing else is encrypted while the slot is full, stream order is encryption order |
| `SendStream.OrderOverRuns` | crates/craftls/src/common_state.rs:221-273 | over every disciplined run, clear messages and key changes included, stream order is encryption order and the stream parses back |
| `SendStream.OrderKeptIffSlotEmpty` | crates/craftls/src/common_state.rs:221-228 | encrypting a message keeps the order if and only if the slot is empty |
| `SendStream.NoticeKeptIffSlotEmpty` | crates/craftls/src/common_state.rs:559-580 | enqueueing a notice loses no record if and only if the slot is empty |
| `SendStream.RecordsExactlyOnce` | crates/craftls/src/common_state.rs:221-273 | over every guarded run each encrypted record is in exactly one place, and the stream parses back into the records sent |
| `Delivery.PeerFollowsRecords` | crates/craftls/src/record_layer.rs:61-103 | a peer with matching counters opens a run of records to the messages sealed |
| `Delivery.StepDeliverable` | crates/craftls/src/tls13/key_schedule.rs:465-474 | every operation, key updates included, keeps the peer able to follow what is new on the stream |
| `Delivery.EndToEnd` | crates/craftls/src/common_state.rs:187-586 | from the application key on, whatever is still queued, for every run and every cut of the new stream every record opens and the data received is a prefix of the bytes accepted; the whole stream gives them all |
| `RecordProtection.Tls13Matches` | crates/craftls/src/crypto/ring/tls13.rs:182-223 | TLS 1.3 records over any invertible encryption meet what delivery asks of a cipher, though the version is lost |
| `RecordProtection.Tls12Matches` | crates/craftls/src/crypto/ring/tls12.rs:239-292 | so do TLS 1.2 records |
| `RecordProtection.UnpadSealed` | crates/craftls/src/msgs/message.rs:194-240 | removing the padding of a sealed TLS 1.3 payload gives back type and payload |
| `RecordProtection.Tls13Delivers` | crates/craftls/src/crypto/ring/tls13.rs:182-223 | end-to-end delivery for TLS 1.3 records |
| `CommonState.CommonState.SendSingleFragment` | crates/craftls/src/common_state.rs:255-273 | encrypts and queues one fragment, or drops it past the hard limit |
| `CommonState.CommonState.SendMsgEncrypt` | crates/craftls/src/common_state.rs:221-228 | sends all fragments of a message |
| `CommonState.CommonState.SendMsgClear` | crates/craftls/src/common_state.rs:408-418 | queues all fragments of a message in clear |
| `CommonState.CommonState.SendSomePlaintext` | crates/craftls/src/common_state.rs:187-303 | buffers before the handshake and encrypts after it, within the limit |
| `CommonState.CommonState.StartOutgoingTraffic` | crates/craftls/src/common_state.rs:305-373 | starts traffic and flushes the buffered plaintext |
| `CommonState.CommonState.UpdateEncrypterAndNotify` | crates/craftls/src/tls13/key_schedule.rs:465-469 | the notice is encrypted under the old key into the slot, then the key changes |
| `CommonState.CommonState.ShouldUpdateKey` | crates/craftls/src/common_state.rs:559-571 | the answer to each kind of request; an unknown one sends the fatal alert, the others change nothing |
| `CommonState.CommonState.WriteVectored` | crates/craftls/src/conn.rs:248-254 | writes the buffers in turn and returns the sum |
| `ConnCore.ConnectionCore.ProcessNewPackets` | crates/craftls/src/conn.rs:629-650 | the state, alerts and error after processing any list of deframer answers |
| `ConnCore.LoopError` | crates/craftls/src/conn.rs:629-698 | an error latches the state: the error itself from a message, the placeholder from the deframer |
| `ConnCore.LatchedForever` | crates/craftls/src/conn.rs:629-640 | after an error every later call errs with the latched error and does nothing else |
| `ConnCore.SameErrorIff` | crates/craftls/src/conn.rs:472-474 | later calls return the same error if and only if it did not come from the deframer, or was the placeholder |
| `ConnCore.AlertMeaning` | crates/craftls/src/common_state.rs:446-475 | which alerts are an error, which are answered with a fatal alert, and which close the connection |
| `ConnCore.PayloadMeaning` | crates/craftls/src/common_state.rs:149-180 | a payload goes to the handler, except a renegotiation, which is only warned about |
| `ConnCore.UndecodableMeaning` | crates/craftls/src/conn.rs:700-747 | a message that does not decode is fatal |
| `ConnCore.CcsMeaning` | crates/craftls/src/conn.rs:700-725 | when a ChangeCipherSpec message is dropped, fatal, or left to the handler |
| `ConnCore.DeframeMeaning` | crates/craftls/src/conn.rs:653-698 | which deframer errors are announced to the peer |
| `ConnCore.FatalAlertEnds` | crates/craftls/src/conn.rs:629-650 | wherever a fatal alert arrives, processing stops with its description, and so does every later call |
| `ConnCore.ClosedIff` | crates/craftls/src/common_state.rs:455-460 | the end of data is noted if and only if a close-notify of known level was processed |
| `ConnCore.AtMostOneFatalAlert` | crates/craftls/src/common_state.rs:446-498 | with handlers that announce at most their own error, at most one fatal alert is ever sent over any calls |
| `ConnCore.EagerHandlerSendsTwo` | crates/craftls/src/common_state.rs:149-180 | two are sent exactly when a handler itself announces an inappropriate message |
| `ConnCore.DroppedCcsBounded` | crates/craftls/src/conn.rs:700-725 | over any calls the ChangeCipherSpec counter never passes one more than the named maximum |
| `ConnCore.CcsDroppedIff` | crates/craftls/src/conn.rs:700-725 | of k valid messages in a row all are dropped if and only if counter and k together are at most one more than the named maximum; the first beyond is fatal |
| `ConnCore.NamedMaximumKeptIff` | crates/craftls/src/conn.rs:305-308 | no more than the named maximum are dropped if and only if no more arrive |
| `ConnCore.ThreeCcsDropped` | crates/craftls/src/conn.rs:700-725 | three are dropped without an error |
| `RuleOrder.MoveRule` | crates/sockrocket-cli/src/cgi.rs:2695-2767 | the moved list, or the reason for refusing, as a function of the list |
| `RuleOrder.MoveRefusedIff` | crates/sockrocket-cli/src/cgi.rs:2700-2757 | exactly when a move is refused, and why |
| `RuleOrder.EffectiveOrderMeaning` | crates/sockrocket-cli/src/cgi.rs:2722-2746 | the effective order in terms of source, catch-all, priority and place |
| `RuleOrder.MoveSwapsNeighbours` | crates/sockrocket-cli/src/cgi.rs:2720-2767 | a move swaps the rule with its same-phase neighbour in the effective order, conserves all other fields and renumbers downwards |
| `RuleOrder.MoveWritesEffectiveOrder` | crates/sockrocket-cli/src/cgi.rs:2720-2767 | the written list is in its own effective order if and only if no item that renumbering passes over is out of rank in its phase |
| `RuleOrder.StrandedUntagged` | crates/sockrocket-cli/src/cgi.rs:2758-2766 | without tagged mappings: if and only if no global mapping follows an item that is not a mapping |
| `RuleOrder.EffectiveFixesInOrder` | crates/sockrocket-cli/src/cgi.rs:2720-2740 | the effective order leaves a list alone if and only if it is in phase and priority order |
| `RuleOrder.RouterFollowsMove` | crates/sockrocket-core/src/router/engine.rs:147-156 | after a move of untagged mappings the router tries the enabled rules in exactly the order written |
| `RuleOrder.EnabledMeaning` | crates/sockrocket-core/src/router/engine.rs:151-156 | the router keeps exactly the enabled rules |
| `RuleOrder.AddRule` | crates/sockrocket-cli/src/cgi.rs:2505-2560 | refuses exactly the duplicates, else inserts before the first rule of no higher priority |
| `RuleOrder.AddedTwice` | crates/sockrocket-cli/src/cgi.rs:2505-2525 | a rule is a duplicate of one just added if and only if group, type, pattern and source agree |
| `RuleOrder.AddedRuleOrder` | crates/sockrocket-cli/src/cgi.rs:2505-2560 | the new rule precedes exactly the rules of its phase it equals or outranks, and all other order is unchanged |
| `ConfigApply.ApplyAttempt.PolicyFinished` | crates/sockrocket-cli/src/config_apply.rs:92-95 | reports the policy result, and the drop that follows adds nothing |
| `ConfigApply.StatusIsTruthful` | crates/sockrocket-cli/src/config_apply.rs:25-105 | in every interleaving Validating and PolicyPending hold exactly for the newest live attempt, the other phases tell which revision runs, and with no attempt alive the phase is terminal |
| `ConfigApply.PhaseTellsTheStory` | crates/sockrocket-cli/src/config_apply.rs:25-105 | in every interleaving each phase holds if and only if the newest attempt had the matching history, with restart fields told apart |
| `ConfigApply.StoriesFollowEvents` | crates/sockrocket-cli/src/config_apply.rs:69-105 | that history follows the reports and drops |
| `ConfigApply.NoRestartIff` | crates/sockrocket-cli/src/config_apply.rs:73-79 | no restart is needed if and only if no field but the IPv6 mode changed |
| `ConfigApply.OnlyTheNewestReports` | crates/sockrocket-cli/src/config_apply.rs:25-61 | only the newest attempt can change the status |
| `ConfigApply.PolicyReportSoundIffPublished` | crates/sockrocket-cli/src/config_apply.rs:92-95 | a policy report keeps the status truthful if and only if its attempt has published or is not the newest |
| `ConfigApply.DroppingAllTerminates` | crates/sockrocket-cli/src/config_apply.rs:97-105 | from every reachable state, dropping the live attempts in any order is possible and ends in a terminal phase |
| `Der.Asn1Wrap` | crates/craftls/src/x509.rs:5-39 | the wrapped bytes, with the length octets stripped of leading zeros |
| `Der.StrippedIsMinimal` | crates/craftls/src/x509.rs:5-39 | stripping the eight-byte length gives the shortest form |
| `Der.DerReader.ReadTlv` | crates/craftls/src/reality.rs:336-361 | moves past the element read, and stays put when there is none |
| `Der.ReadWrapped` | crates/craftls/src/reality.rs:336-361 | reading back a wrapped element returns its tag and content and stops just past it, whatever follows, if and only if the content is under 2^32 bytes |
| `Der.ReadIff` | crates/craftls/src/reality.rs:336-361 | the reader returns an element if and only if one stands at the front, with any length form it takes |
| `Der.WrapOctets` | crates/craftls/src/x509.rs:5-39 | the octets of a wrapped element by the size of its content |
| `Der.ParseAssembled` | crates/craftls/src/reality.rs:364-396 | parsing an assembled certificate recovers its to-be-signed part and signature |
| `Der.ParsedIff` | crates/craftls/src/reality.rs:364-396 | the parser accepts exactly a SEQUENCE of SEQUENCE, SEQUENCE and BIT STRING, and finds their parts |
| `Der.SpkiKey` | crates/craftls/src/reality.rs:400-421 | behind the prefix exactly a 33-byte BIT STRING is accepted, and its 32 key bytes returned |
| `Der.FoundSpki` | crates/craftls/src/reality.rs:442-444 | the search finds the first prefix, and none only when there is none |
| `Der.KeyInMeaning` | crates/craftls/src/reality.rs:434-455 | the key is the 32 bytes behind the first prefix with a 33-byte BIT STRING; without a prefix there is none |
| `Der.AssembledAcceptedIff` | crates/craftls/src/reality.rs:434-468 | an assembled certificate that carries the key is accepted if and only if it is signed with the keyed hash of that key |
| `Der.AcceptedIff` | crates/craftls/src/reality.rs:434-468 | for every input: accepted if and only if it has that shape, its first key record holds an Ed25519 key, and the signature is the keyed hash of that key |
| `Der.KeylessRefused` | crates/craftls/src/reality.rs:442-454 | a certificate without such a record is refused, whatever its signature |
| `HttpHead.ReadFields` | crates/sockrocket-cli/src/proxy_http.rs:101-119 | the field loop |
| `HttpHead.FramingMeaning` | crates/sockrocket-cli/src/proxy_http.rs:101-119 | fields are accepted if and only if each is acceptable and no two declare a length; the result names that length and whether any says chunked |
| `HttpHead.HeadMeaning` | crates/sockrocket-cli/src/proxy_http.rs:90-122 | a response other than 204 is accepted if and only if its fields are consistent and not both sized and chunked |
| `HttpResponse.StatusMeaning` | crates/sockrocket-cli/src/proxy_http.rs:91-97 | a status line of either version is read as its code, if that fits 16 bits |
| `HttpResponse.OtherStatusRefused` | crates/sockrocket-cli/src/proxy_http.rs:93-96 | a line with any other first word is refused |
| `HttpResponse.FieldMeaning` | crates/sockrocket-cli/src/proxy_http.rs:103-118 | what a header line says, by its name in any case |
| `HttpResponse.LengthFieldMeaning` | crates/sockrocket-cli/src/proxy_http.rs:105-109 | a padded decimal length is read as its value |
| `HttpResponse.DecReadsBack` | crates/sockrocket-cli/src/proxy_http.rs:97-107 | every number is read back from its decimal form |
| `HttpResponse.NumberMeaning` | crates/sockrocket-cli/src/proxy_http.rs:97-138 | one plus sign is allowed; nothing, a sign alone or an overflow is no number |
| `HttpResponse.HeadOfLines` | crates/sockrocket-cli/src/proxy_http.rs:90-122 | a head built from a status line and fields is read as their meaning |
| `ProxyHttp.Connection.ReadExact` | crates/sockrocket-cli/src/proxy_http.rs:30-37 | fills the buffer from any split of the stream, or reports that the server closed |
| `ProxyHttp.Connection.ReadSocks` | crates/sockrocket-cli/src/proxy_http.rs:54-80 | decodes the SOCKS replies and all three address types |
| `HttpResponse.SocksMeaning` | crates/sockrocket-cli/src/proxy_http.rs:54-80 | which replies are accepted and where each ends, byte by byte; how the others are refused |
| `HttpResponse.SocksRoundTrip` | crates/sockrocket-cli/src/proxy_http.rs:54-80 | a success reply is consumed exactly, for IPv4, IPv6 and domain addresses |
| `ProxyHttp.Connection.ReadUntil` | crates/sockrocket-cli/src/proxy_http.rs:84-89 | reads up to and including the mark, within the limit |
| `HttpResponse.ReadingHead` | crates/sockrocket-cli/src/proxy_http.rs:83-89 | a head of non-empty lines is read whole and no further, if and only if it has at most 16384 bytes |
| `ProxyHttp.Connection.ReadChunks` | crates/sockrocket-cli/src/proxy_http.rs:120-149 | decodes a chunked body |
| `HttpResponse.ChunkMeaning` | crates/sockrocket-cli/src/proxy_http.rs:142-148 | what must follow a chunk size |
| `ProxyHttp.Connection.ReadToClose` | crates/sockrocket-cli/src/proxy_http.rs:153-163 | the rest of the stream if it fits, an error otherwise, whatever the read sizes |
| `ProxyHttp.Connection.Get` | crates/sockrocket-cli/src/proxy_http.rs:54-165 | the result is one function of the stream, independent of how the network splits it |
| `ProxyHttp.SameWhateverTheSplit` | crates/sockrocket-cli/src/proxy_http.rs:26-37 | two networks that deliver the same stream in different pieces give the same result |
| `ProxyHttp.Decode` | crates/sockrocket-cli/src/proxy_http.rs:120-165 | no accepted body exceeds 65536 bytes |
| `ChunkedCoding.LineSize` | crates/sockrocket-cli/src/proxy_http.rs:131-138 | a size line, its size in any spelling, is read as its size if and only if no white space stands before an extension and the size fits 64 bits |
| `ChunkedCoding.UntilFinds` | crates/sockrocket-cli/src/proxy_http.rs:124-130 | a size line is found if and only if it has at most 126 bytes before its end |
| `ChunkedCoding.DecodesConcatenation` | crates/sockrocket-cli/src/proxy_http.rs:123-149 | the chunked coding of a chunk list, sizes in any spelling, decodes to its concatenation if and only if that is within 65536 bytes and every size line fits; otherwise it is refused |
| `ChunkedCoding.PaddedExtensionRefused` | crates/sockrocket-cli/src/proxy_http.rs:131-138 | every conforming body with white space before an extension is refused |
| `HttpResponse.ResponseDecodes` | crates/sockrocket-cli/src/proxy_http.rs:54-165 | a whole response is taken apart into SOCKS reply, head and body, and each decoded |
| `HttpResponse.SizedResponse` | crates/sockrocket-cli/src/proxy_http.rs:150-152 | a response with one Content-Length gives exactly that many bytes |
| `HttpResponse.ChunkedResponse` | crates/sockrocket-cli/src/proxy_http.rs:120-149 | a chunked response gives its concatenation, with the exact condition |
| `HttpResponse.ClosedResponse` | crates/sockrocket-cli/src/proxy_http.rs:153-163 | a response with neither gives all up to the close, within the limit |
| `HttpResponse.EmptyResponse` | crates/sockrocket-cli/src/proxy_http.rs:98-100 | a 204 response has no body |
| `QuicQueue.Quic.WriteHs` | crates/craftls/src/quic.rs:419-449 | the bytes appended, the state left and the key change returned |
| `QuicQueue.TakenMeaning` | crates/craftls/src/quic.rs:420-428 | with handshake keys pending a call stops before the first must-encrypt message behind the front one, otherwise it empties the queue |
| `QuicQueue.NothingLost` | crates/craftls/src/quic.rs:419-449 | in every run the messages written followed by those queued are the messages pushed, in order |
| `QuicQueue.OneRttOnce` | crates/craftls/src/quic.rs:436-446 | 1-RTT keys are returned at most once |
| `QuicQueue.KeysAreTheLatest` | crates/craftls/src/quic.rs:430-446 | the keys returned belong to the secrets derived last, and 1-RTT keys come with the secrets one update on |
| `QuicQueue.ChangeIff` | crates/craftls/src/quic.rs:430-446 | when a call returns which keys |
| `QuicQueue.OneRttLeavesNothingQueued` | crates/craftls/src/quic.rs:436-446 | the call that returns them has written every message pushed |
| `QuicQueue.ProtectedIffCareful` | crates/craftls/src/quic.rs:419-449 | no must-encrypt message precedes the handshake keys if and only if no call finds one it would take too early |
| `QuicQueue.KeysBeforeProtectedMessages` | crates/craftls/src/quic.rs:419-449 | when such messages follow the secrets: if and only if no call finds one at the front while those keys are pending |
| `QuicQueue.FinishedAheadOfKeys` | crates/craftls/src/quic.rs:419-434 | a caller that feeds handshake data before taking the keys makes Finished leave ahead of them |
| `LimitedCache.Cache.Insert` | crates/craftls/src/limited_cache.rs:58-81 | refines insertion into the bounded ordered list |
| `LimitedCache.Cache.GetOrInsertDefaultAndEdit` | crates/craftls/src/limited_cache.rs:35-56 | the same with an edit of the present or default value |
| `LimitedCache.Cache.Get` | crates/craftls/src/limited_cache.rs:83-89 | the value of the key in that list |
| `LimitedCache.Cache.Remove` | crates/craftls/src/limited_cache.rs:99-115 | removes the key from map and order queue together |
| `LimitedCache.LookupAfterPut` | crates/craftls/src/limited_cache.rs:35-81 | putting a key gives the chosen value and leaves every other key, but for the oldest when a new key fills the cache |
| `LimitedCache.LookupAfterRemove` | crates/craftls/src/limited_cache.rs:99-115 | removing a key leaves exactly the others |
| `LimitedCache.StepOrdered` | crates/craftls/src/limited_cache.rs:35-115 | every operation keeps keys distinct, in order of birth, and fewer than the capacity |
| `LimitedCache.EndsOnlyTheOldest` | crates/craftls/src/limited_cache.rs:35-115 | an entry ends if and only if it is removed, or is the oldest when a new key fills the cache; updates keep its age |
| `LimitedCache.KeepsTheMostRecent` | crates/craftls/src/limited_cache.rs:35-81 | without removals the cache holds exactly the most recent insertions that fit |
| `DesktopRules.Split` | crates/sockrocket-gui/src/desktop_rules.rs:5-16 | the global rules, and the scoped rows with their indices |
| `DesktopRules.SplitSeparates` | crates/sockrocket-gui/src/desktop_rules.rs:5-16 | rules are separated by their source, in order, with their places |
| `DesktopRules.ForStorage` | crates/sockrocket-gui/src/desktop_rules.rs:18-32 | the woven list |
| `DesktopRules.StorageUndoesSplit` | crates/sockrocket-gui/src/desktop_rules.rs:5-32 | saving what was split gives back every list |
| `DesktopRules.SplitIncreasing` | crates/sockrocket-gui/src/desktop_rules.rs:5-16 | the saved indices are strictly increasing |
| `DesktopRules.EditedPlaces` | crates/sockrocket-gui/src/desktop_rules.rs:18-32 | for any edited list each scoped row lands on its own index, or just behind the last global rule when too few remain, and never later; global rules fill the rest |
| `DesktopRules.PlacesDiffer` | crates/sockrocket-gui/src/desktop_rules.rs:18-32 | both lists keep their order and no two rules share a place |

## Left out

- Cryptographic primitives, key derivation and certificate chains: encryption, decryption, the key update and the keyed hash are parameters, and additional authenticated data is not modelled.
- Handshake states and the deframer: handlers are any function, and the deframer's answers are an input.
- That two installed encrypters hold different keys: an epoch stands for one installation.
- Early data on the sending side; on the receiving side only its drop budget is modelled.
- Overflow of the 64-bit read counter and of the revision counters: both are unbounded here.
- The macOS branch of the proxy journal, file locks, file permissions and process spawning.
- Lower-casing of hosts and bypass entries beyond ASCII.
- Windows bracketing of IPv6 hosts and the PAC setting.
- The web interface around rule editing: parsing of requests, the stale-request test (an input here) and saving the file.
- `requested_rule_priority` and the other checks of a submitted rule: `RuleOrder.AddRule` takes a complete rule.
- QUIC alerts and early secrets, and packet protection.
- Sending of the SOCKS and HTTP requests, deadlines and socket errors other than a close: the responses alone decide the result here.
- UTF-8 decoding: a parameter of `ProxyHttp`, which the laws of `ChunkedCoding` and `HttpResponse` need to read ASCII as itself; those laws are about heads and size lines in ASCII.
- Hash-map allocation in the session cache; growth of a zero-capacity order queue is a parameter.
- The router's pattern matching, GeoIP data, subscriptions, updates and speed tests.
- CommonState.CommonState.SendSingleFragment: requires a counter away from the soft limit, because the source does not return there; see SoftLimitRecursion.
- CommonState.CommonState.SendMsgEncrypt: requires that the fragments do not meet the soft limit, for the same reason.
- CommonState.CommonState.SendSomePlaintext: requires that the write does not meet the soft limit, for the same reason.
- CommonState.CommonState.ShouldUpdateKey: requires that the alert for an unknown request does not meet the soft limit, for the same reason.
- CommonState.CommonState.StartOutgoingTraffic: requires that the flush stays below the soft limit, for the same reason.
- CommonState.CommonState.UpdateEncrypterAndNotify: requires a counter below the hard limit, which the source asserts.
- RecordLayer.RecordLayer.EncryptOutgoing: requires an active key and a counter below the hard limit, which the source asserts.
- Der.ParseAssembled: requires content that fits the address space.
