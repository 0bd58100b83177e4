# A verified model of the 3GPP test server

The server plays a radio access node (gNB or eNB) and its subscribers against a core network. This
Dafny project models the parts of it that hold state and logic of their own and proves what a user of
the server relies on:

* **The mailbox of received messages** (`mailbox*.dfy`, `ngap_matcher.dfy`, `endpoint.dfy`). One
  goroutine files decoded frames by type or TEID, any number of waiters take the first match, and each
  waiter has a goroutine that wakes it when its context expires. It is modelled twice: as classes whose
  queues change in place, and as a transition system over the interleavings of all goroutines, which
  uses the same functions. Proved for every interleaving: no lost wake-up, exactly-once delivery, the
  right frame or a justified timeout, a bounded number of steps to rest, order of arrival for requests by
  type alone, and that clients whose requests do not overlap are served as if each had a mailbox of its own.
* **The NAS security context** (`nas_count.dfy`, `nas_security.dfy`, `ue_context.dfy`, `nas_runs.dfy`,
  `eps_context.dfy`, `eps_runs.dfy`, `key_runs.dfy`). A class per context with the fields the code updates, a function for each method,
  and theorems over whole runs: coherent keys, numbered uplink messages, and end-to-end reading of
  everything the network sends while the two COUNTs stay in step.
* **The GTP-U codec** (`gtpu_elements.dfy`, `gtpu_message.dfy`, `gtpu_wire.dfy`), proved against an encoder
  written from TS 29.281 and TS 38.415: extension header chains, session containers and element lists of any
  length, and the octets of what is sent.
* **IP, UDP and ICMP with Internet checksums** (`checksum.dfy`, `ip_packets.dfy`, `ip_receiver.dfy`), proved
  against a receiver that trusts lengths and checksums, and the whole path
  from built packet through tunnel to parsed packet (`tunnel.dfy`).
* **Downlink TEIDs** (`downlink_isolation.dfy`), over every history of one gNB.
* **Digit, label and element codecs** (`bcd.dfy`, `suci.dfy`, `splitting.dfy`, `apn.dfy`, `access_type.dfy`).

`words.dfy`, `bits.dfy`, `buffers.dfy` and `element_lists.dfy` hold octets, XOR, buffer filling and element lists. A method that changes state
promises the new state as a function of the old one; what the source promises is then proved about that
function. Cryptographic primitives, the NAS content decoder and the 4G wrapper are arbitrary functions,
of which only the stated equations are used: XOR is its own inverse, Diffie-Hellman commutes, outputs
have their lengths.

## Where the code does not keep a promise

The model follows the code in each case, and the property is stated with the condition under which it holds.

* Distinct RAN and AMF IDs do not make the NGAP matchers disjoint: a message that carries the RAN ID of
  one UE and the AMF ID of another, or no ID at all, is accepted by both, and by both exactly then
  (`OverlapExactly`, `MatchersMayOverlap`).
* Processing a Security Mode Command sets the downlink COUNT to 0 instead of to the command's COUNT. A
  retransmitted command followed by 254 losses puts the UE out of step (`RetransmittedCommandLosesStep`),
  and a later procedure is read correctly exactly when the stored COUNT is 0 or above 0xffffff00
  (`LaterProcedure`).
* If the library's key derivation reports an error in an active context, the algorithms are replaced and
  the keys are not. Keys and algorithms then belong together exactly when the last command names the
  algorithms of the last one that could be followed (`CoherenceExactly`, `EPSCoherenceExactly`, `FailedDerivationLosesCoherence`).
* The decoder follows a chain of extension headers when any optional flag is set, not just the E flag
  (`PayloadWithoutExtensionFlag`, `ChainWithoutExtensionFlag`). It follows it past the declared length too, so
  that octets behind the end can set the PDU session; `TrailingOctets` says exactly when they matter.
* The checksum's 32-bit accumulator loses carries: below a word sum of 65535 times 2^32 the checksum is
  right exactly when none is lost (`AccumulatorIsExact`, and `ChecksumIsRight` for messages of any length).
  It suffices for 65537 words and not for 65538 (`AccumulatorSuffices`, `AccumulatorOverflows`).
* A label of an access point name is recovered exactly when it has at most 255 octets (`LabelsRoundTrip`).
* Sessions with the same ID, established under RAN IDs that agree modulo 2^24, share their TEID, and no
  others do (`StoredTEIDsCollide`); this can happen as soon as 2^24 + 1 RAN IDs are allocated (`TEIDsWrap`).
* Building a SUCI with a protection profile dereferences nil if the text of the SUCI cannot carry a field,
  such as the key ID "007", which is read as the octet 7 (`KeyIDIsRefused`), or if the public key is missing.
  `ConcealedSuciExactly` has the exact condition.

## Model

| member | source | states |
|---|---|---|
| `Mailbox.Framed.Deliver` | internal/transport/framed.go:107-111 | the frame becomes the last of its own type's queue; no other queue changes |
| `Mailbox.Framed.Scan` | internal/transport/framed.go:162-177 | one pass takes out in place the earliest match of the first listed type that has one, a frame of a requested type, and leaves everything alone exactly when nothing matches |
| `Mailbox.SearchIsChoice` | internal/transport/framed.go:162-177 | the nested search fails if and only if no listed type holds an accepted frame, and otherwise finds the frame a selective receive owes its caller |
| `Mailbox.ChoiceIsUnique` | internal/transport/framed.go:162-177 | buffer and request determine that frame |
| `MailboxProtocol.StepKeepsInv` | internal/transport/framed.go:107-185 | every step of receiver, waiters and expiry goroutines keeps lock ownership, tidy queues, searched-and-found-nothing, owed broadcasts and the frame accounts |
| `MailboxProtocol.NoLostWakeup` | internal/transport/framed.go:107-185 | in every interleaving a parked waiter has no matching frame buffered, and if its context has expired its broadcast is still to come |
| `MailboxProtocol.FramesAreConserved` | internal/transport/framed.go:107-177 | in every interleaving, counted with multiplicity, delivered frames are returned frames plus frames buffered under their own type |
| `MailboxProtocol.OutcomesAreRight` | internal/transport/framed.go:162-184 | in every interleaving a returned frame is the earliest match of the first listed type that has one, the others keep their order, and a timeout means an expired context and no match buffered |
| `MailboxProtocol.ExpiryIsReal` | internal/transport/framed.go:149-181 | in every interleaving a pending wait is taken for expired if and only if its context has expired since the wait began |
| `MailboxProtocol.RestIsFair` | internal/transport/framed.go:149-184 | when no goroutine can move, every remaining wait has an unexpired context and nothing to take |
| `MailboxProtocol.InternalRunsEnd` | internal/transport/framed.go:149-184 | waiters and expiry goroutines come to rest within a bound computed from their states, under every scheduling |
| `MailboxIsolation.StepRefines` | internal/transport/framed.go:107-184 | each step of the shared mailbox is, to the client considered, a step of a private mailbox or nothing |
| `MailboxIsolation.ArrivalsAreOwnDeliveries` | internal/transport/framed.go:107-111 | a client's private mailbox is fed exactly its own frames, in order of delivery |
| `MailboxIsolation.RequestsAreAnswered` | internal/transport/framed.go:144-185 | in every interleaving the requests a client has made are those its private mailbox has answered, in order, and the one still open |
| `MailboxIsolation.ClientsAreIsolated` | internal/transport/framed.go:107-184 | non-interference in every interleaving: a client whose wanted frames nobody else could take gets the outcomes, in order, of a private mailbox that is fed exactly those frames and answers exactly its own requests, whatever else is delivered or asked for |
| `MailboxOrder.TypesAreServedInOrder` | internal/transport/framed.go:140-177 | for any number of waiters that ask by type alone, in every interleaving: the frames of a type handed out, then those buffered, are those delivered, as sequences |
| `MailboxOrder.SoleAskerIsServedInOrder` | internal/transport/framed.go:140-177 | a client that alone asks for a type, and only for it, is served apart and in order, whatever the others ask for |
| `NgapMatcher.OverlapExactly` | internal/api/gnb_await_handlers.go:18-36 | for UEs with distinct IDs, both accept a message if and only if it names no UE or mixes their IDs |
| `NgapMatcher.MatchersMayOverlap` | internal/api/gnb_await_handlers.go:18-36 | a UE-associated message that two UEs with distinct IDs both accept |
| `NgapMatcher.AcceptsExactly` | internal/api/gnb_await_handlers.go:19-34 | over the fields: a message with the RAN ID of the UE, or its assigned AMF ID, or no ID is accepted whatever the other field says; one that names only foreign IDs is not |
| `NgapMatcher.OwnMessageIsServed` | internal/api/gnb_await_handlers.go:18-36 | in every interleaving a wait of a UE whose own message is buffered under a requested type does not time out, and is not left over when nothing is left to run |
| `NgapMatcher.UEsAreIsolated` | internal/api/gnb_await_handlers.go:18-36 | UEs whose identifiers change between waits, and other clients, on one association: a UE whose identifiers are distinct from the others' has its own requests answered in order as from a mailbox of its own messages, whatever messages of types not asked for by two clients are delivered |
| `Endpoints.Endpoint.Deliver` | internal/gtpu/transport.go:73-82 | the message joins the queue of its TEID, or of its type if it is no G-PDU; the two maps act as one mailbox |
| `Endpoints.Endpoint.TakeDownlink` | internal/gtpu/transport.go:129-144 | takes the oldest packet queued for the TEID, a G-PDU with exactly this TEID, if there is one |
| `Endpoints.Endpoint.TakeControl` | internal/gtpu/transport.go:166-176 | takes the oldest message queued for the type, of exactly this type, although an emptied queue keeps its map entry |
| `Words.NetworkByteOrder` | internal/gtpu/message.go:69-70 | words are written with the most significant octet first |
| `NasCount.EstimateIsLeast` | internal/store/gnb_ue_context.go:221-229 | short of the wrap, the estimate is the least COUNT not below the stored one with the received low octet |
| `NasCount.EstimateIsRight` | internal/store/enb_ue_context.go:95-103 | for all stored and sent COUNTs, the estimate is the sent one if and only if that lies in the window of 256 from the stored one, modulo 2^32 |
| `NasCount.EstimatesFollow` | internal/store/gnb_ue_context.go:221-229 | along any non-decreasing run with steps below 256 the receiver reconstructs every COUNT |
| `NasSecurity.Protect` | internal/nas5gs/security.go:44-77 | canonical message, enciphered in place, in the wrapper of clause 9.1.1 of TS 24.501; error exactly when decoding, ciphering or MAC fails |
| `NasSecurity.Unprotect` | internal/nas5gs/security.go:79-108 | failure, mismatch with the deciphered message, or verified message, in the cases of the code |
| `NasSecurity.NASEncrypt` | internal/nas5gs/security.go:61-65 | the payload is replaced in place by its XOR with the key stream |
| `NasSecurity.UnwrapInvertsWrap` | internal/nas5gs/security.go:44-108 | with the same keys, COUNT and direction every wrapped message, ciphered or not, is verified and recovered |
| `NasSecurity.InvertedMACIsRefused` | internal/api/gnb_security.go:39-42 | inverting the first MAC octet makes that receiver refuse an otherwise acceptable message |
| `NasSecurity.WireOctets` | internal/nas5gs/security.go:61-76 | every octet and bit sent: 0x7e, header type, MAC over all that follows, low octet of the COUNT, and the message XOR key stream for header types 2 and 4, in clear otherwise |
| `NasSecurity.ForgedMACIsRefused` | internal/nas5gs/security.go:91-107 | with any other MAC the message is refused and its deciphered contents returned |
| `Bits.XorByBits` | internal/api/gnb_security.go:41 | each bit of an exclusive or, and inversion by 0xff |
| `UEContexts.UEContext.constructor` | internal/store/gnb_ue_context.go:184-209 | a new UE has no root key, zero keys and COUNTs and no active context |
| `UEContexts.UEContext.NextUL` | internal/store/gnb_ue_context.go:214-219 | returns the stored COUNT and advances it modulo 2^32 |
| `UEContexts.UEContext.NextDL` | internal/store/gnb_ue_context.go:221-229 | stores and returns the estimate for the sequence number |
| `UEContexts.UEContext.EncodeUplink` | internal/api/gnb_security.go:18-47 | octets sent and every field afterwards, for any override: what is refused, what resets COUNTs, which failure still consumes a COUNT |
| `UEContexts.UEContext.EstablishContext` | internal/api/gnb_security.go:101-118 | every field after a command, including a derivation that fails |
| `UEContexts.UEContext.DecodeDownlink` | internal/api/gnb_security.go:52-99 | result and every field after arbitrary received octets |
| `KeyRuns.OriginOfContext` | internal/api/gnb_security.go:101-118 | over every history of root keys and commands, failing derivations included: a context is active once a command could be followed, its algorithms are those of the last command and its keys those of the last one that could be followed |
| `KeyRuns.KeysAreCoherent` | internal/api/gnb_security.go:101-118 | keys and algorithms of an active context come from one command and the root key in force there, unless an active context was switched to algorithms whose derivation fails |
| `KeyRuns.CoherenceExactly` | internal/api/enb_security.go:64-82 | if no two commands of the history with different algorithms derive the same keys: an active context is coherent if and only if the last command names the algorithms of the last one that could be followed |
| `KeyRuns.VainSwitchLosesCoherence` | internal/api/enb_security.go:69-75 | whenever one pair of algorithms can be derived and another cannot, two commands lose coherence |
| `NasRuns.RunProjects` | internal/api/gnb_security.go:18-118 | in every 5G run with uplink messages, forgeries and re-authentications, the key state is that of its history of root keys and commands |
| `NasRuns.KeysAreCoherent` | internal/api/gnb_security.go:67-118 | key coherence of every 5G run in which no active context is switched in vain |
| `NasRuns.CoherenceExactly` | internal/api/gnb_security.go:106-117 | exactly when an active context is coherent, over every 5G run whose derived keys tell algorithms apart |
| `NasRuns.FailedDerivationLosesCoherence` | internal/api/gnb_security.go:106-112 | a 5G run of two commands after which keys and algorithms belong to no command of the run together |
| `NasRuns.UplinkCountsAllocations` | internal/api/gnb_security.go:18-32 | over every run the stored uplink COUNT is the number of messages since the last reset, modulo 2^32, whatever overrides were requested |
| `NasRuns.UplinksAreNumbered` | internal/api/gnb_security.go:18-47 | the k-th message since a reset consumes COUNT k modulo 2^32 and, without an override, carries k modulo 256 |
| `NasRuns.UplinkIsReadable` | internal/api/gnb_security.go:23-46 | at the COUNT the request names, or else 0 for header types 3 and 4 and the stored one for others, a network with the same keys reads every uplink message, and rejects the corrupted one, whose first MAC octet is inverted |
| `NasRuns.UplinkIsSentExactly` | internal/api/gnb_security.go:19-37 | with available algorithms an uplink message is sent if and only if there is an active context or a root key and the library can encode it |
| `NasRuns.LastUplinkIsKept` | internal/api/gnb_security.go:44 | over every run the recorded uplink is the last one sent, as sent |
| `NasRuns.PlainIsReadAsSent` | internal/api/gnb_security.go:58-61 | a plain message is read as sent, without a verdict, in every state, and changes no field |
| `NasRuns.ShortIsDropped` | internal/api/gnb_security.go:53-65 | a message too short for its header is dropped and changes no field |
| `NasRuns.UnkeyedIsReadUnverified` | internal/api/gnb_security.go:67-88 | without an active context and a command that can be followed, a protected message is read from octet 7 without a verdict, and only the COUNT moves |
| `NasRuns.CommandIsFollowed` | internal/api/gnb_security.go:69-77 | every field after a command with header type 3 or 4, before any check of its MAC |
| `NasRuns.ForgedIsReadAsFalse` | internal/api/gnb_security.go:90-98 | a forged message in an active context yields its deciphered contents with the verdict false |
| `NasRuns.UncomputableIsDropped` | internal/nas5gs/security.go:91-101 | a message whose MAC or key stream cannot be computed is dropped, its COUNT kept |
| `NasRuns.ReceiptIsExact` | internal/api/gnb_security.go:52-99 | a network message, the keying command included, is read as sent when its COUNT is within 256 of the stored one, and not otherwise unless the MACs of two COUNTs coincide |
| `NasRuns.InStepIsRead` | internal/api/gnb_security.go:52-118 | over whole two-party runs with plain messages, losses, commands and uplink traffic, every delivered message is verified and read exactly as sent, plain ones without a verdict, while deliveries stay in step |
| `NasRuns.ReadExactlyInStep` | internal/api/gnb_security.go:52-118 | if no COUNT wrongly estimated in the run gives a message the same MAC: a whole run is read as sent if and only if every delivery finds or brings the keys and lies in the window of 256, modulo 2^32 |
| `NasRuns.ProcedureIsRead` | internal/api/gnb_security.go:52-118 | plain traffic, then one procedure from COUNT 0 with its answer and traffic in both directions, deliveries in order, fewer than 255 consecutive losses: every delivered message is read |
| `NasRuns.RetransmittedCommandLosesStep` | internal/api/gnb_security.go:114-117 | after a command with COUNT 1 and 254 losses the next message is not read |
| `NasRuns.LaterProcedure` | internal/api/gnb_security.go:67-77 | a later command with COUNT 0 is estimated right if and only if the stored COUNT is 0 or above 0xffffff00 |
| `EPSContexts.UEEPSContext.EncodeUplink` | internal/api/enb_security.go:16-37 | octets sent and every field afterwards in 4G |
| `EPSContexts.UEEPSContext.EstablishContext` | internal/api/enb_security.go:62-82 | every field after a 4G command, which resets both COUNTs |
| `EPSContexts.UEEPSContext.NextDL` | internal/store/enb_ue_context.go:95-103 | the same estimate as the 5G context |
| `EPSContexts.UEEPSContext.DecodeDownlink` | internal/api/enb_security.go:84-134 | result and every field after arbitrary received octets in 4G |
| `EPSContexts.EPSRunProjects` | internal/api/enb_security.go:16-134 | in every 4G run the key state is that of its history of root keys and commands |
| `EPSContexts.EPSKeysAreCoherent` | internal/api/enb_security.go:62-134 | key coherence of every 4G run in which no active context is switched in vain |
| `EPSContexts.EPSCoherenceExactly` | internal/api/enb_security.go:62-134 | exactly when an active context is coherent, over every 4G run whose derived keys tell algorithms apart |
| `EPSContexts.EPSUplinkCountsAllocations` | internal/api/enb_security.go:21-24 | over every 4G run the uplink COUNT is the number of messages since the last established context, modulo 2^32 |
| `EPSRuns.EPSUplinkIsSentExactly` | internal/api/enb_security.go:17-29 | a 4G uplink message is sent if and only if there is an active context or a root key, the algorithms are 0 to 2 and the library can protect it |
| `EPSRuns.EPSUplinkIsReadable` | internal/api/enb_security.go:21-36 | the network verifies it at the COUNT the request names, or else at the stored one, and refuses the corrupted one, whose octet 1 is inverted |
| `EPSRuns.EPSUplinksAreNumbered` | internal/api/enb_security.go:21-26 | after any run the k-th message since the last established context is verified by the network at COUNT k modulo 2^32, or at the one it was given |
| `EPSRuns.EPSPlainIsReadAsSent` | internal/api/enb_security.go:94-97 | a plain 4G message is read as sent, without a verdict, in every state |
| `EPSRuns.EPSMalformedIsDropped` | internal/api/enb_security.go:89-101 | empty, foreign and short messages are dropped and change no field |
| `EPSRuns.EPSUnkeyedIsReadUnverified` | internal/api/enb_security.go:103-123 | without an active context and a command that can be followed, a protected message is read without a verdict |
| `EPSRuns.EPSCommandIsFollowed` | internal/api/enb_security.go:105-112 | every field after a 4G command with header type 3 or 4 |
| `EPSRuns.EPSVerdict` | internal/api/enb_security.go:125-133 | in an active context a message without command is handed over with the verdict at the estimated COUNT, or dropped |
| `EPSRuns.EPSReceiptIsExact` | internal/api/enb_security.go:88-133 | a network message is read as sent exactly when it verifies at the estimated COUNT, which is its own exactly in the window of 256 |
| `EPSRuns.EPSInStepIsRead` | internal/api/enb_security.go:62-134 | over whole two-party 4G runs, plain messages included, every delivered message is read as sent while deliveries stay in step |
| `EPSRuns.EPSReadExactlyInStep` | internal/api/enb_security.go:62-134 | if no message verifies at a wrong COUNT estimated in the run: a whole 4G run is read as sent if and only if its deliveries stay in step |
| `EPSContexts.EPSCorruptionIsOneOctet` | internal/api/enb_security.go:31-34 | a corrupted 4G uplink differs from the honest one in octet 1 alone |
| `GtpuMessages.Message.SetIE` | internal/gtpu/message.go:225-241 | records the element that counts and never reads past its value |
| `GtpuMessages.Message.DecodeIEs` | internal/gtpu/message.go:195-223 | terminates on any octets with the elements the reading function determines |
| `GtpuElements.ReadsExactlyTheList` | internal/gtpu/message.go:195-241 | for every list of known fixed-length and arbitrary TLV elements: the last Recovery, the last TEID and the last address of legal length are kept, up to the first unreadable octet |
| `ElementLists.EveryStringSplits` | internal/gtpu/message.go:195-223 | in any format whose measured elements can be written, every string is a list of elements and an unreadable tail |
| `GtpuElements.WhatIsRead` | internal/gtpu/message.go:195-241 | any octets are such a list followed by an unreadable tail, and exactly the list counts |
| `GtpuElements.PeerAddressIsReported` | internal/gtpu/message.go:235-239 | the last address of 4 or 16 octets is reported as it is, an IPv4-mapped one as its last four octets |
| `GtpuMessages.DecodeOptional` | internal/gtpu/message.go:123-154 | sequence number only under its flag; where the chain ends and which container it leaves |
| `GtpuMessages.Decode` | internal/gtpu/message.go:104-172 | refines the functional decoder on every input: same error or same message |
| `GtpuMessages.WalkFollowsChain` | internal/gtpu/message.go:134-153 | the loop ends right behind a chain of any number of headers of any legal length, with the last container |
| `GtpuMessages.ChainIsSkipped` | internal/gtpu/message.go:104-172 | decoding a message written as TS 29.281 prescribes returns exactly its payload, sequence number and last PDU Session Container, ignoring trailing octets |
| `GtpuMessages.TrailingOctets` | internal/gtpu/message.go:119-165 | for any octets received, exactly when those behind the declared length change nothing |
| `GtpuMessages.ContainerBehindTheEnd` | internal/gtpu/message.go:137-153 | every message whose declared length ends with its optional part takes the session container of a chain behind its end |
| `GtpuMessages.PayloadWithoutExtensionFlag` | internal/gtpu/message.go:123-165 | exactly when the payload of a message without the E flag starts right behind the optional part |
| `GtpuMessages.ChainWithoutExtensionFlag` | internal/gtpu/message.go:123-165 | for every chain of headers in front of a payload, a message without the E flag loses the chain from its payload and gets a session container from it |
| `GtpuMessages.EncodeGPDU` | internal/gtpu/message.go:65-74 | the filled buffer is the G-PDU of section 5.1 of TS 29.281 |
| `GtpuMessages.EncodeGPDUWithQFI` | internal/gtpu/message.go:77-91 | the filled buffer is a G-PDU with one uplink PDU Session Container |
| `GtpuMessages.EncodeEchoRequest` | internal/gtpu/message.go:93-101 | the filled buffer is an Echo Request with sequence number |
| `GtpuWire.GPDUOctets` | internal/gtpu/message.go:65-74 | flags 0x30, type 255, the number of octets behind the header modulo 2^16, TEID in network order, payload |
| `GtpuWire.GPDUWithQFIOctets` | internal/gtpu/message.go:77-91 | flags 0x34, type 255, length, TEID, then 0 0 0 85 1 10 qfi 0 and the payload |
| `GtpuWire.EchoRequestOctets` | internal/gtpu/message.go:93-101 | flags 0x32, type 1, length 4, TEID 0, sequence number, 0 0 |
| `GtpuWire.RefusedExactly` | internal/gtpu/message.go:105-127 | exactly which octets are refused, and how |
| `GtpuWire.PlainMessageIsDecoded` | internal/gtpu/message.go:114-171 | a message of any type without optional part is decoded to exactly the payload of its length |
| `GtpuWire.PlainControlRoundTrip` | internal/gtpu/message.go:167-169 | such a control message gives the elements that count |
| `GtpuWire.ShortDatagram` | internal/gtpu/message.go:156-165 | a declared length beyond the datagram is read as its own |
| `GtpuWire.UnreadableHeaderIsPayload` | internal/gtpu/message.go:137-145 | an extension header that cannot be read belongs to the payload |
| `GtpuWire.SessionIsReported` | internal/gtpu/message.go:175-192 | the last session container of a chain, downlink or uplink with any flags and further fields: PDU type, QFI and, in the downlink only, RQI are the ones written |
| `GtpuMessages.GPDURoundTrip` | internal/gtpu/message.go:65-172 | decoding returns TEID and payload and nothing else, for every payload that fits the length field |
| `GtpuMessages.GPDUWithQFIRoundTrip` | internal/gtpu/message.go:77-172 | decoding also returns PDU type 1 and the low six bits of the QFI |
| `GtpuMessages.EchoRequestRoundTrip` | internal/gtpu/message.go:93-172 | decoding returns every sequence number |
| `GtpuMessages.ControlRoundTrip` | internal/gtpu/message.go:104-241 | decoding a control message with any element list returns the elements that count |
| `Checksums.OnesComplementSum` | internal/gtpu/ip.go:26-42 | refines the mathematical sum folded modulo 65535; the folding loop terminates |
| `Checksums.ChecksumIsComplement` | internal/gtpu/ip.go:26-42 | the checksum is the complement of the end-around-carry sum of section 2 of RFC 1071, with odd lengths padded by a zero octet |
| `Checksums.ChecksumIsRight` | internal/gtpu/ip.go:26-42 | for messages of any length, exactly which lost carries leave the checksum right |
| `Checksums.AccumulatorIsExact` | internal/gtpu/ip.go:27-35 | for every message with a word sum below 65535 times 2^32, the checksum is right if and only if no carry leaves the accumulator |
| `Checksums.AccumulatorSuffices` | internal/gtpu/ip.go:27-35 | up to 65537 words no carry leaves the 32-bit accumulator |
| `Checksums.AccumulatorOverflows` | internal/gtpu/ip.go:27-35 | with 65538 words a carry is lost and the checksum is wrong |
| `Checksums.FieldMakesChecksumZero` | internal/gtpu/ip.go:44-96 | storing the checksum, or 0xffff for 0, in any even-aligned field makes the message verify |
| `IPPackets.BuildICMPEcho` | internal/gtpu/ip.go:44-60 | the packet of the standards for either address family, an error exactly for mixed or missing ones |
| `IPPackets.BuildUDP` | internal/gtpu/ip.go:62-77 | likewise for UDP |
| `IPPackets.BuildIPv4` | internal/gtpu/ip.go:79-96 | the filled buffer is the header with its own checksum, then the payload |
| `IPPackets.BuildIPv6` | internal/gtpu/ip6.go:37-51 | the filled buffer is the IPv6 header and the payload |
| `IPPackets.ChecksumIPv6` | internal/gtpu/ip6.go:22-35 | the checksum over the pseudo-header of section 8.1 of RFC 8200 and the upper layer |
| `IPPackets.IPv4HeaderVerifies` | internal/gtpu/ip.go:79-96 | every built IPv4 header verifies |
| `IPPackets.EchoV4Verifies` | internal/gtpu/ip.go:44-54 | every built ICMP message verifies, odd lengths included |
| `IPPackets.EchoV6Verifies` | internal/gtpu/ip6.go:53-62 | every built ICMPv6 message verifies under the pseudo-header |
| `IPPackets.UDPv6Verifies` | internal/gtpu/ip6.go:64-79 | every UDP datagram over IPv6 verifies and its checksum field is never zero |
| `IPReceivers.HeaderOctets` | internal/gtpu/ip.go:80-93 | the IPv4 header octet by octet: 45 0, total length, no identification, flags or offset, 64, protocol, addresses |
| `IPReceivers.IPv6IsReceived` | internal/gtpu/ip6.go:37-51 | a receiver of the built IPv6 packet gets addresses, next header, hop limit 64 and the upper layer; traffic class and flow label are 0 |
| `IPReceivers.UDPIsReceived` | internal/gtpu/ip.go:62-96 | a receiver that takes data by total, payload and UDP length, checks the IPv4 header sum and the UDP checksum over IPv6, gets addresses, hop limit 64, ports and exactly the payload |
| `IPReceivers.EchoIsReceived` | internal/gtpu/ip6.go:37-62 | such a receiver gets type, code 0, identifier, sequence number and payload of every echo request, with a checksum that verifies |
| `IPReceivers.ParserRefusesExactly` | internal/gtpu/ip6.go:115-128 | exactly which packets the parser refuses, and how |
| `IPReceivers.OptionsAreSkipped` | internal/gtpu/ip.go:114-133 | in an IPv4 packet with any options the upper layer starts behind them |
| `IPReceivers.IPv6IsParsed` | internal/gtpu/ip6.go:81-95 | an IPv6 packet of any traffic class and flow label |
| `IPReceivers.TransportIsReported` | internal/gtpu/ip.go:135-148 | octet by octet what is reported of ICMP, UDP, other protocols and short packets |
| `IPPackets.EchoRoundTrip` | internal/gtpu/ip.go:44-151 | parsing recovers addresses, identifier and sequence number for both IP versions |
| `IPPackets.UDPRoundTrip` | internal/gtpu/ip6.go:37-128 | parsing recovers addresses, ports and payload for both IP versions |
| `Tunnel.UDPThroughTunnel` | internal/gtpu/message.go:65-172 | build, encapsulate, decode, parse: TEID, QFI, addresses, ports and payload arrive unchanged, 4G and 5G form, IPv4 and IPv6 |
| `Tunnel.EchoThroughTunnel` | internal/gtpu/message.go:65-172 | the same for echo requests |
| `DownlinkIsolation.GNBContext.AllocateRANUENGAPID` | internal/store/gnb_context.go:52-54 | IDs are issued once, counting from 1 |
| `DownlinkIsolation.GNBContext.CreateUE` | internal/api/gnb_ue_handlers.go:43-73 | a new UE is stored under the RAN ID it was given, the others are untouched |
| `DownlinkIsolation.GNBContext.DeleteUE` | internal/store/gnb_context.go:70-85 | removes exactly this UE and reports whether it was there |
| `DownlinkIsolation.GNBContext.ServiceRequest` | internal/api/gnb_nas_handlers.go:644-647 | a new connection replaces the RAN ID and keeps the stored TEIDs |
| `DownlinkIsolation.GNBContext.EstablishSession` | internal/api/gnb_pdu_session_handlers.go:150-171 | the session is stored with the TEID of the current RAN ID and of the session ID the request resolves to |
| `DownlinkIsolation.TEIDValue` | internal/api/gnb_pdu_session_handlers.go:155 | the TEID is 256 times the RAN ID modulo 2^24, plus the session ID |
| `DownlinkIsolation.TEIDsCollide` | internal/api/gnb_pdu_session_handlers.go:155 | two TEIDs are equal if and only if the session IDs are and the RAN IDs agree modulo 2^24 |
| `DownlinkIsolation.StoredTEIDsCollide` | internal/api/gnb_pdu_session_handlers.go:155-170 | in every reachable state two stored TEIDs are equal if and only if the session IDs are and the RAN IDs the sessions were established under agree modulo 2^24 |
| `DownlinkIsolation.TEIDsAreDistinct` | internal/api/gnb_pdu_session_handlers.go:155-170 | in every reachable state with at most 2^24 allocations, stored TEIDs are equal only for the same UE and session |
| `DownlinkIsolation.TEIDsWrap` | internal/api/gnb_pdu_session_handlers.go:155 | the bound is sharp: a run with 2^24 + 1 allocations after which two UEs have stored the same TEID |
| `DownlinkIsolation.SessionsAreServedApart` | internal/gtpu/transport.go:112-147 | a session that alone waits for its TEID is answered as by a separate endpoint, and the packets handed to it, then those buffered for it, are the packets that arrived for its TEID, as sequences; others may wait for other TEIDs and for control messages |
| `DownlinkIsolation.StoredSessionsAreServedApart` | internal/gtpu/transport.go:75-180 | the same for all sessions stored after any history of the gNB with at most 2^24 allocations, next to any control waits |
| `BCD.SwapPairs` | internal/crypto/suci.go:88-90 | every two characters exchanged in place |
| `BCD.Tbcd` | internal/crypto/suci.go:82-98 | padding, exchange and the removal of a trailing filler, for every non-empty string |
| `BCD.HexRoundTrip` | internal/crypto/suci.go:179 | octets survive their hexadecimal form |
| `BCD.HexAlphabet` | internal/crypto/suci.go:179 | small letters are written, small and capital letters are read, and nothing else |
| `BCD.TbcdRoundTrip` | internal/crypto/suci.go:82-98 | every non-empty digit string of either parity survives TBCD, hexadecimal decoding and reading by semi-octets |
| `Suci.AnsiX963KDF` | internal/crypto/suci.go:269-285 | the counted hashes of ANSI X9.63, the counter wrapping at 2^32, for any lengths |
| `Suci.KeysCoverKeyData` | internal/crypto/suci.go:159-162 | two rounds are computed, and encryption key, counter block and MAC key cover them end to end without overlap |
| `Suci.ProfileEncrypt` | internal/crypto/suci.go:139-183 | ephemeral key, cipher text and tag in hexadecimal, or an error exactly for an MSIN that is not hexadecimal after TBCD |
| `Suci.ConcealRoundTrip` | internal/crypto/suci.go:139-228 | in profiles A and B the home network of Annex C.3 of TS 33.501 verifies the tag and recovers every MSIN |
| `Suci.GetRoutingIndicatorInOctets` | internal/crypto/suci_encode.go:98-116 | filler, exchange, and an error for more than four digits |
| `Suci.RoutingExactly` | internal/crypto/suci_encode.go:98-116 | a digit string is refused if and only if it has more than four digits; the empty one is 0 with filler |
| `Suci.ParseOctetExactly` | internal/crypto/suci_encode.go:35-43 | which decimal numbers are read as an octet, and their value, with any number of leading zeros |
| `Suci.CipherSuci` | internal/crypto/suci.go:100-137 | for all strings: length check, scheme, missing public key, index into an empty MSIN, scheme output, and the fields the regular expression reads from the text, or nil |
| `Suci.TextRoundTrip` | internal/crypto/suci.go:59-79 | a text made of any strings, hyphens included, is parsed back to exactly them if they have the form of the regular expression, and to nil otherwise |
| `Suci.TextIsSpelled` | internal/crypto/suci.go:125-134 | the text letter by letter |
| `Suci.NullCipherExactly` | internal/crypto/suci.go:108-109 | under the null scheme the text carries the MSIN and is parsed if and only if its fields have their form |
| `Suci.KeyIDsInText` | internal/crypto/suci.go:59-61 | of the key IDs that are numbers up to 255, the text takes exactly those of at most two characters or of three without a leading zero |
| `Suci.EncodeSuci` | internal/crypto/suci_encode.go:34-82 | for all strings: the filled buffer, the first error in the order of the code, the dereference of nil or the index out of range |
| `Suci.FirstFailureIsReported` | internal/crypto/suci_encode.go:34-75 | which failure is reported when several apply |
| `Suci.SuciReadsBack` | internal/crypto/suci_encode.go:34-124 | for every scheme the octets give back MCC, MNC of either length, routing indicator, scheme, key ID and scheme output |
| `Suci.NullSuciRoundTrip` | internal/crypto/suci_encode.go:34-82 | under the null scheme they give back the MSIN too |
| `Suci.ConcealedSuciExactly` | internal/crypto/suci_encode.go:34-82 | for a scheme other than null and every string of digits, exactly which inputs are errors, which fail at run time and which yield octets, from which the home network reads the fields and recovers the MSIN |
| `Suci.KeyIDIsRefused` | internal/crypto/suci_encode.go:40-61 | for every subscriber the key ID "007" is read as 7 and leads to the nil dereference |
| `AccessType.ReleaseCommandHasAccessType` | internal/nas5gs/pdu_session.go:382-430 | terminates on every input without reading out of range, with the answer of the specified scan |
| `AccessType.ScanFindsAccessType` | internal/nas5gs/pdu_session.go:392-427 | on every well-formed list the answer is true if and only if an Access type element is among them |
| `AccessType.CommandIsAnswered` | internal/nas5gs/pdu_session.go:382-430 | for five mandatory octets and any list of elements, those with two length octets being 0x72, 0x78 and 0x7b: true if and only if some half-octet element has identifier 0xD |
| `AccessType.AnswerOnAnyMessage` | internal/nas5gs/pdu_session.go:382-430 | fewer than five octets have none; behind the fifth any octets are such a list and an unreadable tail, and only the list decides |
| `AccessPointNames.EncodeAPN` | internal/naseps/esm.go:63-76 | every label behind one length octet; nothing for the empty name |
| `Splitting.JoinInvertsSplit` | internal/naseps/esm.go:70 | the labels joined by dots are the name |
| `AccessPointNames.LabelsRoundTrip` | internal/naseps/esm.go:70-73 | length-driven reading recovers the labels if and only if none exceeds 255 octets |
| `AccessPointNames.APNRoundTrip` | internal/naseps/esm.go:63-76 | every non-empty name is recovered, its labels being what stands between the dots, under exactly that condition |

## Left out

- NasSecurity.Protect: the library's decoding and re-encoding of the plain message is an open function, so a message read back is the re-encoded one.
- NasRuns.KeysAreCoherent: not for runs in which an active context is switched to algorithms whose derivation fails, where it is false; NasRuns.CoherenceExactly has the condition.
- EPSContexts.EPSKeysAreCoherent: likewise; EPSContexts.EPSCoherenceExactly has the condition.
- Mailbox.Framed.Scan: one pass of the wait loop; blocking, waking and expiry are the steps of MailboxProtocol.
- Endpoints.Endpoint.TakeDownlink: one pass of the wait loop, as above.
- Suci.AnsiX963KDF: the floating-point ceiling of the round count is an integer ceiling.
- Suci.ProfileEncrypt: the ephemeral key is a parameter; key generation and its errors, and errors of the primitives, are not modelled.
- Suci.CipherSuci: the alternative of the regular expression for network-specific identifiers, which no text of CipherSuci can take, is not modelled.
- DownlinkIsolation.GNBContext.EstablishSession: of a stored session only its downlink TEID is kept; a node without N3 endpoint stores none. UEs are values in the map instead of shared objects, and the RAN ID counter is unbounded where the code has 64 bits.
- DownlinkIsolation.TEIDsAreDistinct: on one gNB without handover; MigrateUE may overwrite a UE of the target node, since each node numbers its own.
- GtpuMessages.Decode: slices that share memory with the received buffer are values here, and so are the octets kept as the last uplink message.
- Text forms of addresses, octets and identifiers: octet sequences are compared instead.
- ParseSUPI, DeriveSNN and BuildSuciString: single slices and concatenations.
- HTTP handlers, routing and JSON: plumbing around the state changes cited above.
- NGAP, S1AP and NAS message builders and decoders: field copying into library types.
- Milenage, AES, SNOW 3G, SHA-256, HMAC, the curves and the key derivation functions: open functions.
- SCTP and UDP sockets, dialling and real time: delivery and expiry are steps that may happen at any moment.
- PLMN, S-TMSI, bitmap and cause encoders outside the SUCI: finite tables and single branches.
