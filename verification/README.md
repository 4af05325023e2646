# Verified models of the vendored transport and encoding code

The shopping list application is a thin layer over its vendored pods. The logic that is hard to get right lives in two of
them: BoringSSL (the DTLS handshake transport, the TLS write path, the client handshake, the server's cipher choice and the
lock-free reference count) and nanopb (the Protocol Buffers codec). This project models those parts in Dafny and proves
what they are for. `dafny verify dfyconfig.toml` checks all of it.

## The parts

**DTLS handshake transport** (RFC 6347, sections 4.1.2.6 and 4.2.2 to 4.2.4). `ReplayWindow` is the 64-entry replay window,
`HandshakeFragment` the message format, `Reassembly` the byte array and bit mask of one message, `HandshakeReceive` and
`HandshakeReceiver` the 7-slot ring, `HandshakeReplay` and `HandshakeEvents` what holds in every run of the receiver,
`HandshakeArrivals` records arriving one after the other while the handshake takes messages in between, `HandshakeSend`
and `HandshakeSender` the flight with its cuts and packets, and `HandshakeDatagram` those packets read back byte by byte.
`HandshakeTransport` puts sender, network and receiver together: the network may deliver any sealed record at any time, any
number of times or never, and the sender may recut the flight at any packet budget. `HandshakeFlight` says which messages a
whole pass brings through it, `HandshakeCiphers` ties every record to the cipher of its epoch, and `HandshakeWrap` says what
happens when message numbers run out.

**nanopb** (Protocol Buffers encoding specification: Base 128 Varints, Signed Integers, Length-Delimited Records, Packed
Repeated Fields). `PbWire` is the wire format, `PbCodec` the descriptors, struct values and both directions as functions,
`PbRoundTrip` the theorems about them. `PbPresence` says what is left out of an encoding, `PbMerge` what decoding into a
struct that is not empty does, and `PbVarints` and `PbExact` what becomes of any bytes and of any struct. `PbIterator`,
`PbEncoder`, `PbRequired`, `PbDecoder` and `PbBuffers` are the streams, the two-pass submessage encoder, the cyclic field
iterator and the bit set of required fields as they run. The configuration is 64-bit support, 32-bit field descriptors,
memory buffers and static allocation.

**TLS write path.** `TlsWrite` has the pending flight and the write buffer draining into a transport that accepts any
prefix or fails.

**Client handshake** (RFC 5246, section 7.3). `ClientHandshake` is the state machine for TLS 1.2 and below, with its
suspensions; parsing, callbacks and cryptography may have any outcome. Its history records the events of every state, and
`choices` what has been decided besides the parameters of the connection: whether there was a cookie, a CertificateStatus
and a ServerKeyExchange, and whether the client had a certificate at each of the two states that ask.

**Cipher choice and reference count.** `ChooseCipher` is the pass over equal-preference groups against the declarative
optimum, `RefCount` the compare-and-swap loops of any number of threads against the locked count.

A specification is a function on values; classes with the source's fields and arrays are proved equal to it through a
`View`, `State` or `Rest` function, and the theorems are about the functions. What the outside does (a transport, an AEAD, a
peer, a callback, the allocator's addresses) is a parameter or an arbitrary choice, so every result holds for all of it.

## Where the code and its documentation part

- `d1_both.cc:380-385` says that fragments too far in the future are ignored. The code lets the number read_seq + 7 through
  and then fails on it in lines 267-271 (`HandshakeReceive.OutsideWindow`).
- `d1_both.cc:805-814` restores the cursor after a failed write. A sealing failure in lines 797-803 does not, so that a
  resumed pass skips what was already sealed into the packet: exactly then, by `HandshakeSend.SkipsNothingExactly`; never
  under the guard of `HandshakeSend.GuardedPassSkipsNothing`; and concretely in `HandshakeSend.RefusedFlightSkips`.
- The replay window protects fewer than 2^16 epochs; the epoch counter wraps without a check
  (`HandshakeReplay.EpochLimitIsExact`).
- Message numbers wrap at 2^16 without a check. A run that also changes the read keys 2^16 times, so that the replay window
  is empty in an epoch it has seen before, is offered its first message again in place of the next one
  (`HandshakeWrap.OrderLimitIsExact`).
- The nanopb encoder accepts a text that fills its buffer without a terminator; the decoder does not
  (`PbRoundTrip.TextRoundTripsExactly`).
- `internal.h:1873-1876` marks the last element of a group with a clear flag. With a set flag on the last element of the
  list, the acceptable ciphers of that unfinished group are never chosen (`ChooseCipher.Choose`).
- A sealing failure in `do_ssl3_write` leaves an unsent flight in the write buffer with no flight pending; a flush then
  reports success without writing it (`TlsWrite.FlushWithoutWriting`; exactly when, by `TlsWrite.Connection.FlushFlight`),
  and every further record is refused until a new flight is flushed (`TlsWrite.StrandedRefuses`,
  `TlsWrite.NewFlightDrains`).
- A TLS write repeated with less data than already sealed is refused, but resets the progress kept for the next attempt
  (exactly then, by `TlsWrite.Connection.WriteAppData`), so that bytes can be sealed twice
  (`TlsWrite.ShorterRetrySealsTwice`).
- `s3_pkt.cc:401-402` says that an alert is dispatched later if something is being written. If that is an application
  record, it is not: repeating the write is refused because of the shutdown, and the alert because of its type
  (`TlsWrite.AlertNeverLeaves`).
- A client that was asked for a certificate proves its possession only if it still has one: `handshake_client.cc` asks in
  line 1192 for the Certificate and again in line 1376 for the CertificateVerify. A certificate that the application
  withdraws in between, in a callback or while a private key operation is pending, has been sent and is never proved
  (`ClientHandshake.WithdrawnIsNotProved`; exactly then, by `ClientHandshake.ProvedIffShown`).
- A handshake record of another epoch is dropped although its flight is under way (`dtls_record.cc:225-239`): a pass
  completes only the messages of the read epoch, and those of the next one only when they are sent again
  (`HandshakeFlight.OthersBringNothing`, `HandshakeFlight.NextEpochArrives`).

## Model

| member | source | states |
|---|---|---|
| `ReplayWindow.RecordRepresents` | Shopping List/Pods/BoringSSL/ssl/dtls_record.cc:155-175 | recording any number, new, repeated or stale, turns the window of a set of numbers into the window of that set with the number added |
| `ReplayWindow.DiscardsExactly` | Shopping List/Pods/BoringSSL/ssl/dtls_record.cc:140-150 | a window discards exactly the numbers it has recorded and those at least 64 below the largest of them |
| `ReplayWindow.WindowIsExact` | Shopping List/Pods/BoringSSL/ssl/dtls_record.cc:140-175 | the same after any sequence of recorded numbers, from the empty window |
| `HandshakeReplay.NoRecordAcceptedTwice` | Shopping List/Pods/BoringSSL/ssl/dtls_record.cc:225-259 | over any run of the receiver - any records, forged ones included, any reads, any key changes - with fewer than 2^16 changes of the read epoch no (epoch, sequence number) is accepted twice |
| `HandshakeReplay.EpochWrapAcceptsTwice` | Shopping List/Pods/BoringSSL/ssl/dtls_method.cc:89-91 | 2^16 epoch changes bring the 16-bit epoch back with an empty window: a concrete run accepts one record twice |
| `HandshakeReplay.EpochLimitIsExact` | Shopping List/Pods/BoringSSL/ssl/dtls_method.cc:89-91 | the guarantee holds for all runs with n epoch changes if and only if n is below 2^16 |
| `HandshakeReplay.FifthWarningFails` | Shopping List/Pods/BoringSSL/ssl/tls_record.cc:551-600 | over any run of the receiver, up to the first such answer: a record is answered with the error of too many warnings if and only if it is an accepted warning alert and four accepted ones came before it without an accepted record of another type in between |
| `ReplayWindow.ToU64BE` | Shopping List/Pods/BoringSSL/ssl/dtls_record.cc:128-136 | the byte loop reads the eight sequence bytes as one big-endian number |
| `ReplayWindow.Bitmap.Discards` | Shopping List/Pods/BoringSSL/ssl/dtls_record.cc:140-150 | the in-place bitmap answers for exactly the set of numbers accepted since it was zeroed |
| `ReplayWindow.Bitmap.Accept` | Shopping List/Pods/BoringSSL/ssl/dtls_record.cc:155-175 | the in-place update adds exactly the accepted number to that set |
| `ReplayWindow.Bitmap.Reset` | Shopping List/Pods/BoringSSL/ssl/dtls_method.cc:89-91 | zeroing the bitmap forgets every number |
| `HandshakeFragment.ParseSerialize` | Shopping List/Pods/BoringSSL/ssl/d1_both.cc:459-473 | a serialized fragment parses back to itself, whatever bytes follow |
| `HandshakeFragment.SerializeParse` | Shopping List/Pods/BoringSSL/ssl/d1_both.cc:459-473 | whatever parses is the serialization of the fragment found followed by the rest |
| `HandshakeFragment.ParseExactly` | Shopping List/Pods/BoringSSL/ssl/d1_both.cc:459-473 | of any bytes: a fragment is read if and only if its twelve header bytes and the length they state are there; type, lengths, number and offset are the big-endian numbers at their places |
| `HandshakeFragment.FinishMessage` | Shopping List/Pods/BoringSSL/ssl/d1_both.cc:511-537 | patching the length fields in place turns the message under construction into the header and body of one whole fragment |
| `Reassembly.BitOfRange` | Shopping List/Pods/BoringSSL/ssl/d1_both.cc:203-205 | `bit_range(start, end)` has exactly the bits from start up to end set |
| `Reassembly.MarkedByteShows` | Shopping List/Pods/BoringSSL/ssl/d1_both.cc:211-236 | or-ing one byte of the mask adds exactly the positions of the range that fall into that byte, in the first, the last and the whole bytes between |
| `Reassembly.MarkBits` | Shopping List/Pods/BoringSSL/ssl/d1_both.cc:211-236 | the loop over the mask gives every byte exactly its share of the range and stays inside the array |
| `Reassembly.IsFull` | Shopping List/Pods/BoringSSL/ssl/d1_both.cc:238-250 | the scan finds the mask full exactly when every byte and the partial last byte are full |
| `Reassembly.FullMask` | Shopping List/Pods/BoringSSL/ssl/d1_both.cc:238-250 | a full mask means that the positions received are all positions of the message and no others |
| `Reassembly.HmFragment.Mark` | Shopping List/Pods/BoringSSL/ssl/d1_both.cc:211-251 | marking a range adds exactly its positions to the received set, and the mask is released exactly when every byte of the message has been covered |
| `Reassembly.HmFragment.CopyIn` | Shopping List/Pods/BoringSSL/ssl/d1_both.cc:393-402 | a fragment's bytes replace exactly their positions of the body |
| `Reassembly.HmFragment.constructor` | Shopping List/Pods/BoringSSL/ssl/d1_both.cc:152-199 | a new fragment buffer has received nothing; an empty message is complete at once |
| `HandshakeReceive.FragmentKeepsRing` | Shopping List/Pods/BoringSSL/ssl/d1_both.cc:265-295 | any fragment, valid or not, leaves every used slot with a message of the window at the index of its number; a refused one changes nothing |
| `HandshakeReceive.RecordKeepsRing` | Shopping List/Pods/BoringSSL/ssl/d1_both.cc:297-406 | the same for any record, opened or not, malformed or not |
| `HandshakeReceive.GetKeepsRing` | Shopping List/Pods/BoringSSL/ssl/d1_both.cc:408-424 | handing out a message keeps the ring; a message is marked as handed out only when it is complete |
| `HandshakeReceive.NextKeepsRing` | Shopping List/Pods/BoringSSL/ssl/d1_both.cc:426-438 | consuming the current message keeps the ring; at number 0xffff no other slot can be in use, so the wrap to 0 leaves none behind |
| `HandshakeReceive.SetReadStateKeepsRing` | Shopping List/Pods/BoringSSL/ssl/dtls_method.cc:81-95 | after a successful change of read epoch only the current message's slot is in use; a refused change changes nothing |
| `HandshakeReceive.RingInEveryRun` | Shopping List/Pods/BoringSSL/ssl/d1_both.cc:265-438 | in every state of every run from the start - any records, forged ones included, any reads, any key changes, past message number 0xffff - every used slot holds a message of the window at the index of its number, and the assertions of lines 276, 391, 397, 428 and 449 hold |
| `HandshakeReceive.StoredInItsSlot` | Shopping List/Pods/BoringSSL/ssl/d1_both.cc:387-397 | a fragment that is stored finds or leaves a slot with its own type, number and length |
| `HandshakeReceive.OpenRecordFrame` | Shopping List/Pods/BoringSSL/ssl/dtls_record.cc:177-272 | opening a record touches nothing of the receiver but window, shutdown flag and warning count |
| `HandshakeReceive.WindowAfter` | Shopping List/Pods/BoringSSL/ssl/dtls_record.cc:225-259 | the window moves with the accepted records and with nothing else |
| `HandshakeReceive.OutsideWindow` | Shopping List/Pods/BoringSSL/ssl/d1_both.cc:380-385 | of the numbers outside the window exactly read_seq + 7 is a fatal error and all others are ignored, without any effect on the ring |
| `HandshakeReceive.HonestFragment` | Shopping List/Pods/BoringSSL/ssl/d1_both.cc:387-402 | a piece of a sender's message adds exactly its positions, with the sender's bytes, to the slot of its number |
| `HandshakeReceive.OpenEachExactly` | Shopping List/Pods/BoringSSL/ssl/d1_both.cc:355-403 | after any list of such pieces each slot holds exactly the positions the pieces of its message cover, with the sender's bytes |
| `HandshakeReceive.OrderIrrelevant` | Shopping List/Pods/BoringSSL/ssl/d1_both.cc:355-403 | two lists with the same pieces, in any order and with any repetitions, lead to the same receiver |
| `HandshakeReceive.CompleteIffCovered` | Shopping List/Pods/BoringSSL/ssl/d1_both.cc:255-259 | the current message is complete if and only if a piece of it has arrived and every byte is covered, and it is then the sender's raw message |
| `HandshakeReceive.RecordOfFragments` | Shopping List/Pods/BoringSSL/ssl/d1_both.cc:355-403 | a record of several fragments acts like the fragments one after the other |
| `HandshakeReceive.FragmentAnswered` | Shopping List/Pods/BoringSSL/ssl/d1_both.cc:265-385 | every fragment, whoever made it: illegal_parameter if and only if it exceeds its message or the limit, or differs in type or length from the message of its number in the ring; unexpected_message for another than the next message in epoch 1; an internal error for number read_seq + 7; accepted otherwise |
| `HandshakeReceive.AnyRecordBody` | Shopping List/Pods/BoringSSL/ssl/d1_both.cc:355-403 | any bytes at all are fragments one after the other, followed by nothing or by bytes that begin none |
| `HandshakeReceive.RecordBreaksOff` | Shopping List/Pods/BoringSSL/ssl/d1_both.cc:355-403 | a record that ends within a fragment is answered with decode_error, after the fragments before it have taken effect |
| `HandshakeReceive.AssembledIsRaw` | Shopping List/Pods/BoringSSL/ssl/d1_both.cc:408-424 | a complete slot yields the bytes the sender put into its transcript, with the unfragmented header |
| `HandshakeReceiver.DtlsReceiver.GetIncomingMessage` | Shopping List/Pods/BoringSSL/ssl/d1_both.cc:265-295 | the slot for a fragment in the window, created on demand; a clash of type or length and a number past the window are reported |
| `HandshakeReceiver.DtlsReceiver.OpenOne` | Shopping List/Pods/BoringSSL/ssl/d1_both.cc:355-403 | one fragment has the effect of the specification on the slots, byte arrays and masks in place |
| `HandshakeReceiver.DtlsReceiver.OpenAll` | Shopping List/Pods/BoringSSL/ssl/d1_both.cc:355-403 | the fragments of a record up to the first bad one have the effect of the specification |
| `HandshakeReceiver.DtlsReceiver.OpenRecord` | Shopping List/Pods/BoringSSL/ssl/dtls_record.cc:177-272 | shutdown and empty input first; an incomplete or malformed header or a wrong version drops all of the input, every other record is used up; then the epoch, replay, decryption and length checks in this order, the window updated only for an accepted record, alerts handed on and the warning count reset by everything else |
| `HandshakeReceiver.DtlsReceiver.OpenHandshake` | Shopping List/Pods/BoringSSL/ssl/d1_both.cc:297-406 | for every input the new receiver, the answer and the number of bytes used up are those of the specification, which over whole runs means: what `HandshakeEvents.AnsweredExactly`, `ChangeCipherSpecWaitsExactly`, `ClosedExactly`, `EveryByteWasReceived` and `LimitsHold` say of it without naming it |
| `HandshakeReceiver.DtlsReceiver.OpenChangeCipherSpec` | Shopping List/Pods/BoringSSL/ssl/d1_both.cc:475-490 | a ChangeCipherSpec that is waiting is taken without reading anything; otherwise one record is opened first |
| `HandshakeReceiver.DtlsReceiver.GetMessage` | Shopping List/Pods/BoringSSL/ssl/d1_both.cc:408-424 | returns the reassembled current message exactly when it is complete |
| `HandshakeReceiver.DtlsReceiver.NextMessage` | Shopping List/Pods/BoringSSL/ssl/d1_both.cc:426-438 | frees the current slot, advances the 16-bit number, and notes that a flight that is out has been answered |
| `HandshakeReceiver.DtlsReceiver.HasUnprocessedData` | Shopping List/Pods/BoringSSL/ssl/d1_both.cc:440-457 | true exactly when a ChangeCipherSpec or a slot other than the current message's is waiting |
| `HandshakeReceiver.DtlsReceiver.SetReadState` | Shopping List/Pods/BoringSSL/ssl/dtls_method.cc:81-95 | advances the epoch and zeroes the window, or refuses without a change while data is waiting |
| `HandshakeDatagram.FrameOfRecord` | Shopping List/Pods/BoringSSL/ssl/dtls_record.cc:191-224 | the bytes of a sealed record, whatever follows them, are read back as its type, epoch, number and body |
| `HandshakeDatagram.RecordBytesOpen` | Shopping List/Pods/BoringSSL/ssl/dtls_record.cc:177-272 | opening the bytes of a record that can be read is opening the record, and uses up exactly its bytes |
| `HandshakeDatagram.DatagramIsArrivals` | Shopping List/Pods/BoringSSL/ssl/d1_both.cc:297-406 | a datagram of such records does what the records do arriving one after the other, up to an error or the end of the connection |
| `HandshakeDatagram.PacketArrives` | Shopping List/Pods/BoringSSL/ssl/d1_both.cc:739-780 | every packet the sender fills is such a datagram for a receiver whose read cipher undoes the write cipher of its epoch |
| `HandshakeDatagram.FrameExactly` | Shopping List/Pods/BoringSSL/ssl/dtls_record.cc:191-224 | of any bytes: a header is refused if and only if fewer than 13 bytes are there, the stated length runs past the input or past 16704, or the version is wrong - its major byte while there is no cipher, all of it afterwards; otherwise type, epoch and number are what RFC 6347, section 4.1, puts at their places |
| `HandshakeDatagram.UsesUpExactly` | Shopping List/Pods/BoringSSL/ssl/d1_both.cc:297-406 | a refused header costs the whole rest of the datagram and changes nothing, any other record exactly its own bytes |
| `HandshakeDatagram.ChangeCipherSpecOpens` | Shopping List/Pods/BoringSSL/ssl/d1_both.cc:475-490 | asking for a ChangeCipherSpec succeeds if and only if one is waiting or the record at the front of the input brings one, accepted, without a cipher and with body 1; none is waiting afterwards |
| `HandshakeEvents.ChangeCipherSpecWaitsExactly` | Shopping List/Pods/BoringSSL/ssl/d1_both.cc:475-490 | in every state of every run of the receiver the handshake is told of a ChangeCipherSpec if and only if an accepted record of that type with body 1 has come before the first change of read keys and since it last asked |
| `HandshakeEvents.NullCipherExactly` | Shopping List/Pods/BoringSSL/ssl/dtls_method.cc:81-95 | in every run there is no read cipher exactly until the first change of read keys |
| `HandshakeEvents.ClosedExactly` | Shopping List/Pods/BoringSSL/ssl/tls_record.cc:551-600 | in every run reading is shut down exactly when an accepted close_notify has come |
| `HandshakeEvents.AnsweredExactly` | Shopping List/Pods/BoringSSL/ssl/d1_both.cc:297-406 | in every run: a record that is not accepted is dropped, unless reading is shut down or it is too long; an accepted alert, ChangeCipherSpec, application data or other record is answered as a table over its type, its body and the presence of a cipher says |
| `HandshakeEvents.ReplyExactly` | Shopping List/Pods/BoringSSL/ssl/d1_both.cc:426-438 | in every run a flight counts as answered exactly when a message has been taken since it went out |
| `HandshakeEvents.KeysChangeExactly` | Shopping List/Pods/BoringSSL/ssl/dtls_method.cc:81-95 | in every run the read keys can be changed exactly when no ChangeCipherSpec is waiting and nothing but the message on offer is in the ring |
| `HandshakeEvents.EveryByteWasReceived` | Shopping List/Pods/BoringSSL/ssl/d1_both.cc:355-403 | in every run, forged and malformed records included, every byte in the ring is that of a fragment of an accepted record, at the same position of a message of the same type, number and length |
| `HandshakeEvents.LimitsHold` | Shopping List/Pods/BoringSSL/ssl/d1_both.cc:265-438 | in every run no message of the ring exceeds the largest length ever allowed, and in read epoch 1 the ring holds the current message only |
| `HandshakeCiphers.RunCiphers` | Shopping List/Pods/BoringSSL/ssl/dtls_method.cc:97-107 | in every run of the system the sender's two ciphers are those given to the last two epochs: the null cipher, then the argument of each key change in turn |
| `HandshakeCiphers.RunSealsUnder` | Shopping List/Pods/BoringSSL/ssl/dtls_record.cc:294-351 | in every run the bytes of every record sealed are a header with its epoch and number and the ciphertext of the cipher that was given to that epoch |
| `HandshakeCiphers.RunPacketArrives` | Shopping List/Pods/BoringSSL/ssl/d1_both.cc:739-780 | in every run a packet, as bytes, does at a receiver what its records do, if the receiver's read cipher undoes the one given to its epoch; nothing is asked of records of other epochs |
| `HandshakeCiphers.RunQueue` | Shopping List/Pods/BoringSSL/ssl/d1_both.cc:555-594 | in every run the queue is the last part of all that was put into it, in order, each message and ChangeCipherSpec under the number of key changes made before it |
| `HandshakeCiphers.RunEpochs` | Shopping List/Pods/BoringSSL/ssl/d1_both.cc:644-734 | in every run, while message numbers last, every record of a message, however cut and repeated, has the epoch of the key changes made before the message was sent |
| `HandshakeCiphers.RunInSequence` | Shopping List/Pods/BoringSSL/ssl/dtls_record.cc:294-351 | in every run in which no number is lost to a failed seal the records of every epoch carry the numbers 0, 1, 2 and so on in the order in which they were sealed |
| `HandshakeArrivals.RecordLostExactly` | Shopping List/Pods/BoringSSL/ssl/dtls_record.cc:225-251 | a record is discarded without any effect if and only if it cannot be opened, is of another epoch, was seen before, or is 64 or more below the largest number seen; any other is recorded |
| `HandshakeArrivals.OpenRecordsExactly` | Shopping List/Pods/BoringSSL/ssl/d1_both.cc:297-406 | any number of records that can be opened and are harmless, in any order, with repetitions and among forgeries: none is an error, and the ring is what the fragments of the records kept make of it |
| `HandshakeArrivals.KeptIsHeld` | Shopping List/Pods/BoringSSL/ssl/d1_both.cc:355-403 | over any records and any reads by the handshake in between: unless a record was answered with an error or ended the connection, the piece in every record kept is held at the end, or its message has been taken |
| `HandshakeArrivals.RunTakesInOrder` | Shopping List/Pods/BoringSSL/ssl/d1_both.cc:297-438 | over the same, the handshake takes exactly the next messages of the sender, raw and in order |
| `HandshakeArrivals.HarmlessSucceeds` | Shopping List/Pods/BoringSSL/ssl/d1_both.cc:297-406 | no record that can be opened is answered with an error if each is harmless to the receiver it meets |
| `HandshakeArrivals.GetsThroughExactly` | Shopping List/Pods/BoringSSL/ssl/dtls_record.cc:225-251 | a record is kept if and only if its number is new and it arrives at least once in the read epoch and less than 64 below every number seen before |
| `HandshakeSend.SealRecordFrame` | Shopping List/Pods/BoringSSL/ssl/dtls_record.cc:294-351 | sealing uses the epoch and the next number of the chosen write state and changes nothing but that counter; the record fits its overhead |
| `HandshakeSend.SealNextFragment` | Shopping List/Pods/BoringSSL/ssl/d1_both.cc:685-733 | the piece sealed next starts at the cursor, is as long as the budget allows, is not empty unless the message is, and fits |
| `HandshakeSend.SealNextExactly` | Shopping List/Pods/BoringSSL/ssl/d1_both.cc:644-734 | what one call does, for every message and budget: an epoch other than the last two is refused; nothing is done if not even one byte fits; otherwise all that is left of the message, or as much as headers and cipher leave room for, is sealed under the cipher of the message's epoch |
| `HandshakeSend.SealNextConserves` | Shopping List/Pods/BoringSSL/ssl/d1_both.cc:644-734 | the record takes its bytes off the front of what was pending, and is sealed under the epoch its message was queued in |
| `HandshakeSend.PacketConserves` | Shopping List/Pods/BoringSSL/ssl/d1_both.cc:739-780 | a packet takes exactly its bytes off the front of what was pending, fits the budget, keeps each message's epoch, and a finished packet makes progress |
| `HandshakeSend.MtuTooSmallExactly` | Shopping List/Pods/BoringSSL/ssl/d1_both.cc:739-780 | a packet stays empty exactly when the next piece does not fit: one byte, its header of 12 and the overhead of its record |
| `HandshakeSend.NeverTooSmallLater` | Shopping List/Pods/BoringSSL/ssl/d1_both.cc:739-780 | once a packet holds something it is never reported as too small |
| `HandshakeSend.FlightConserves` | Shopping List/Pods/BoringSSL/ssl/d1_both.cc:782-827 | whatever the transport does, packets handed over and what is still pending make up what was to send; a pass that completes has sent everything, in packets within the MTU, and a failed write loses nothing |
| `HandshakeSend.SkipsNothingExactly` | Shopping List/Pods/BoringSSL/ssl/d1_both.cc:782-827 | what was handed over and what is left make up what was to send if and only if no packet of the pass failed after a record had been sealed into it |
| `HandshakeSend.GuardedPassSkipsNothing` | Shopping List/Pods/BoringSSL/ssl/d1_both.cc:644-827 | if before the pass every queued epoch is alive, both ciphers seal the records still to come and both counters have room for them, nothing is skipped, and no pass fails but for an MTU that is too small |
| `HandshakeSend.RefusedFinishedSkips` | Shopping List/Pods/BoringSSL/ssl/d1_both.cc:739-803 | a message and a ChangeCipherSpec in the previous epoch and Finished in the new one: if the new cipher refuses Finished, the pass fails and a resumed one starts behind the two records that were thrown away |
| `HandshakeSend.RefusedFlightSkips` | Shopping List/Pods/BoringSSL/ssl/d1_both.cc:739-803 | a concrete such flight |
| `HandshakeSend.FlightTerminates` | Shopping List/Pods/BoringSSL/ssl/d1_both.cc:782-827 | with a transport that accepts packets every pass ends, sent or failed |
| `HandshakeSend.AnswersDecide` | Shopping List/Pods/BoringSSL/ssl/d1_both.cc:782-827 | a pass that does not fail ends blocked or unflushed exactly at the first result of 0 or less; every packet handed over had a positive one, and it counts as sent only if the flush had one too |
| `HandshakeSend.FlightHoldsSeven` | Shopping List/Pods/BoringSSL/ssl/d1_both.cc:555-594 | the first message behind a complete flight begins a new one, which takes seven in order under the current epoch and refuses the eighth without a change |
| `HandshakeSender.SequenceUpdate` | Shopping List/Pods/BoringSSL/ssl/tls_record.cc:154-163 | the carry loop over the last six bytes adds one to the 48-bit number they are, and fails exactly when that wraps to 0 |
| `HandshakeSender.SealWith` | Shopping List/Pods/BoringSSL/ssl/dtls_record.cc:312-351 | header, ciphertext and length are written at `out`: type, version, epoch, number bytes and length as in RFC 6347, section 4.1, and nothing before `out` changes |
| `HandshakeSender.DtlsSender.AddOutgoing` | Shopping List/Pods/BoringSSL/ssl/d1_both.cc:555-594 | the message goes into the array behind the others under the current epoch, a complete flight is freed first, and an eighth message is refused |
| `HandshakeSender.DtlsSender.SealRecord` | Shopping List/Pods/BoringSSL/ssl/dtls_record.cc:294-351 | a misplaced input and a short buffer are refused; otherwise the bytes at `out` are the record of the specification, read from the input in place, under the chosen epoch's cipher and number bytes |
| `HandshakeSender.DtlsSender.SealPiece` | Shopping List/Pods/BoringSSL/ssl/d1_both.cc:702-733 | the fragment assembled behind the prefix and sealed there in place is the next piece of the message |
| `HandshakeSender.DtlsSender.SealNextMessage` | Shopping List/Pods/BoringSSL/ssl/d1_both.cc:644-734 | cursor, counters and the bytes in the packet are those of the specification |
| `HandshakeSender.DtlsSender.SealNextPacket` | Shopping List/Pods/BoringSSL/ssl/d1_both.cc:739-780 | the loop fills the packet with the records of the specification, one behind the other |
| `HandshakeSender.DtlsSender.SendFlight` | Shopping List/Pods/BoringSSL/ssl/d1_both.cc:782-827 | the datagrams the transport took are the packets of the specification; the result is positive if and only if all were sent and flushed; nothing is sent after shutdown |
| `HandshakeSender.DtlsSender.FlushFlight` | Shopping List/Pods/BoringSSL/ssl/d1_both.cc:829-834 | the flight is complete and a pass is made from the cursor on: packets, cursor and result are those of the pass, nothing is written after shutdown; a positive result means that everything pending was handed over, and short of a sealing failure what was handed over and what is pending make up what was |
| `HandshakeSender.DtlsSender.Retransmit` | Shopping List/Pods/BoringSSL/ssl/d1_both.cc:836-845 | the same for the whole flight from its first message |
| `HandshakeSender.DtlsSender.SetWriteState` | Shopping List/Pods/BoringSSL/ssl/dtls_method.cc:97-107 | the number bytes become those of the previous epoch with its cipher, and the new epoch starts from zeros; over whole runs, `HandshakeCiphers.RunCiphers` and `RunSealsUnder` |
| `HandshakeTransport.MessagesArriveInOrderOnce` | Shopping List/Pods/BoringSSL/ssl/d1_both.cc:297-438 | while fewer than 2^16 messages have been sent, in every run of sender, network and receiver, with any cuts, retransmissions, losses, repetitions and reorderings, the messages consumed are exactly the first messages of the sender's transcript, byte for byte, each once and in order, and the next one handed out is the next one of it |
| `HandshakeWrap.OrderLimitIsExact` | Shopping List/Pods/BoringSSL/ssl/d1_both.cc:426-438 | messages are taken in order in all reachable states with n messages if and only if n is below 2^16: the 16-bit number wraps, and once the 16-bit read epoch has wrapped as well the record of the first message is accepted again and offered as the next |
| `HandshakeTransport.RunNumbers` | Shopping List/Pods/BoringSSL/ssl/dtls_record.cc:225-351 | the ring, the record numbers and the window keep their invariants in every run, also past message number 0xffff |
| `HandshakeTransport.RecordNumbersUnique` | Shopping List/Pods/BoringSSL/ssl/dtls_record.cc:294-351 | in every run up to the first reported wraparound no two sealed records share epoch and number |
| `HandshakeTransport.WrapReusesNumbers` | Shopping List/Pods/BoringSSL/ssl/dtls_record.cc:294-351 | sealing on after the reported wraparound reuses number 0 of an epoch that has a record 0: numbers are no longer unique |
| `HandshakeTransport.StepKeepsContent` | Shopping List/Pods/BoringSSL/ssl/d1_both.cc:555-594 | every step of the system keeps queue, network and ring made of pieces of the transcript only |
| `HandshakeTransport.StepKeepsNumbers` | Shopping List/Pods/BoringSSL/ssl/dtls_record.cc:294-351 | every step keeps all numbers sealed so far below the counters of the two live epochs |
| `HandshakeTransport.StepKeepsWindow` | Shopping List/Pods/BoringSSL/ssl/dtls_record.cc:225-259 | every step keeps the window that of the numbers accepted in the read epoch, all of them sealed by the sender |
| `HandshakeFlight.PassCovers` | Shopping List/Pods/BoringSSL/ssl/d1_both.cc:782-827 | the records of one whole pass carry every byte of every message of the flight |
| `HandshakeFlight.FlightArrives` | Shopping List/Pods/BoringSSL/ssl/d1_both.cc:297-438 | from any state of any run: if all records of a whole pass that carry a message of the window get through - they arrive in the read epoch and less than 64 below what was seen, in any order, with repetitions, among other records and forgeries, and with messages taken in between - the message is complete at the receiver or has been taken, unless a record was answered with an error or ended the connection |
| `HandshakeFlight.OthersBringNothing` | Shopping List/Pods/BoringSSL/ssl/dtls_record.cc:225-240 | a message of whose records none is kept stays as it was: another epoch, repetitions and records behind the window bring nothing |
| `HandshakeFlight.NextEpochArrives` | Shopping List/Pods/BoringSSL/ssl/dtls_method.cc:81-95 | after a change of read keys no number counts as seen, and a pass in the new epoch completes the message the old epoch lost |
| `HandshakeFlight.FlightIsTaken` | Shopping List/Pods/BoringSSL/ssl/d1_both.cc:297-438 | if the next k messages are queued and their records get through, the handshake takes exactly these, raw and in order, some of them between the arrivals and the rest afterwards |
| `HandshakeFlight.FirstMessageIsTaken` | Shopping List/Pods/BoringSSL/ssl/d1_both.cc:297-438 | a run that meets what these results ask for: the first message of a connection is sent, arrives and is taken |
| `HandshakeFlight.CompleteMessagesAreTaken` | Shopping List/Pods/BoringSSL/ssl/d1_both.cc:408-438 | messages complete in the ring are handed out, raw and in order |
| `PbWire.EncodeVarintMinimal` | Shopping List/Pods/nanopb/pb_encode.c:574-594 | a varint has as few bytes as seven bits a byte allow |
| `PbWire.EncodeVarintFits` | Shopping List/Pods/nanopb/pb_encode.c:574-594 | no 64-bit value needs more than the ten bytes of the buffer |
| `PbWire.VarintRoundTrip` | Shopping List/Pods/nanopb/pb_decode.c:250-270 | every 64-bit value decodes from its encoding, whatever follows |
| `PbWire.Varint32RoundTrip` | Shopping List/Pods/nanopb/pb_decode.c:182-242 | every 32-bit value decodes from its encoding, whatever follows |
| `PbWire.DecodersAgree` | Shopping List/Pods/nanopb/pb_decode.c:182-270 | on any input that both decoders accept they consume the same bytes and the 32-bit one returns the low half |
| `PbWire.ZigZagRoundTrip` | Shopping List/Pods/nanopb/pb_encode.c:596-605 | zigzag is a bijection between the signed and the unsigned 64-bit integers |
| `PbWire.LittleEndianRoundTrip` | Shopping List/Pods/nanopb/pb_encode.c:607-632 | fixed-width integers come back from their bytes |
| `PbWire.SubstreamOfDelimited` | Shopping List/Pods/nanopb/pb_decode.c:367-380 | a length-delimited value opens as exactly its bytes and leaves what follows |
| `PbWire.KeyRoundTrip` | Shopping List/Pods/nanopb/pb_decode.c:293-314 | the key of a tag below 2^29 decodes to that tag and wire type |
| `PbWire.SkipOneVarint` | Shopping List/Pods/nanopb/pb_decode.c:273-282 | skipping a varint consumes precisely its bytes |
| `PbVarints.VarintExactly` | Shopping List/Pods/nanopb/pb_decode.c:250-270 | of any bytes: a 64-bit varint is read if and only if one of the first ten bytes ends it, padded or not; its value is that of the seven-bit groups, least significant first, modulo 2^64 |
| `PbVarints.Varint32Exactly` | Shopping List/Pods/nanopb/pb_decode.c:182-242 | of any bytes that end within 37: a 32-bit varint is accepted if and only if nothing but zeros or the sign extension of a negative number lies above its 32 bits; its value is that of the first five groups modulo 2^32 |
| `PbVarints.Varint32Ends` | Shopping List/Pods/nanopb/pb_decode.c:182-242 | without a byte that ends it nothing is accepted |
| `PbRoundTrip.NumberRoundTrip` | Shopping List/Pods/nanopb/pb_decode.c:1289-1389 | every number the struct member's C type holds comes back, negative ones included, and a decoder without the field skips exactly its bytes |
| `PbRoundTrip.TextRoundTripsExactly` | Shopping List/Pods/nanopb/pb_decode.c:1428-1461 | a text that fits its buffer encodes, and decodes if and only if it leaves room for the terminator |
| `PbRoundTrip.PackedRoundTrip` | Shopping List/Pods/nanopb/pb_decode.c:401-437 | a packed array within bounds comes back item by item |
| `PbRoundTrip.SkipMember` | Shopping List/Pods/nanopb/pb_decode.c:316-326 | a decoder without a field consumes precisely the bytes the field occupies, for every kind of field |
| `PbRoundTrip.StoreMember` | Shopping List/Pods/nanopb/pb_decode.c:401-475 | a member that is written arrives at its place and nowhere else, or ends the decoding if a nested required field is unknown to the writer |
| `PbRoundTrip.AbsentIsInitial` | Shopping List/Pods/nanopb/pb_encode.c:215-303 | a member the encoder leaves out has the value the decoder starts from |
| `PbRoundTrip.ValueRoundTrip` | Shopping List/Pods/nanopb/pb_decode.c:1289-1508 | every value decodes to the part of it the reader's type can see, nested messages included, if the reader knows the required fields it checks there, and not at all otherwise |
| `PbRoundTrip.MessageEncodes` | Shopping List/Pods/nanopb/pb_encode.c:494-516 | every conforming struct encodes |
| `PbRoundTrip.MessageRoundTrip` | Shopping List/Pods/nanopb/pb_decode.c:901-1049 | a reader whose common fields agree with the writer's, each side having any further fields at any depth, gets exactly its part of the message; it fails if and only if one of the first 64 required fields it checks, in the message or in a submessage that is written at any depth, is unknown to the writer |
| `PbRoundTrip.DecodeOfEncode` | Shopping List/Pods/nanopb/pb_decode.c:1051-1063 | decoding the encoding of any conforming message gives the message back |
| `PbRoundTrip.DecodeOfNullTerminated` | Shopping List/Pods/nanopb/pb_decode.c:1095-1099 | the same with a terminating zero byte: what follows it stays in the stream |
| `PbRoundTrip.FieldStep` | Shopping List/Pods/nanopb/pb_decode.c:919-1000 | one encoded field takes the reader's struct from the projection of the fields before it to the projection including it; the oneof members it clears were not selected; a written member with an unknown required field inside ends the decoding |
| `PbPresence.LeftOutExactly` | Shopping List/Pods/nanopb/pb_encode.c:215-303 | a conforming member leaves no bytes if and only if it is the one the decoder starts from and nothing of it has to be written: inline arrays that are not empty and required members, of submessages at any depth, always are |
| `PbPresence.EmptyExactly` | Shopping List/Pods/nanopb/pb_encode.c:494-516 | a conforming message has an empty encoding if and only if it is the default message and every member of it may be left out |
| `PbMerge.LastOneIsSelected` | Shopping List/Pods/nanopb/pb_decode.c:401-475 | decoding any bytes into a struct with at most one member of each oneof selected leaves it so, the one whose field came last; a member of any kind whose field did not come has not changed |
| `PbMerge.MessageMerges` | Shopping List/Pods/nanopb/pb_decode.c:901-1049 | decoding a message into a struct that already holds one gives the merge of both: scalars replaced, arrays appended, submessages merged, oneofs switched - and it fails exactly where an array has no room |
| `PbMerge.ConcatenationMerges` | Shopping List/Pods/nanopb/pb_decode.c:1051-1063 | two encodings back to back decode to the merge of the two messages |
| `PbExact.NumberExactly` | Shopping List/Pods/nanopb/pb_decode.c:1289-1389 | of any bytes: a varint field is read if and only if a varint is there and the member's C type holds the number it stands for - modulo 2^64 or 2^32 for a signed type, zigzag, or itself |
| `PbExact.FixedExactly` | Shopping List/Pods/nanopb/pb_decode.c:1254-1285 | fixed-width numbers are read with the least significant byte first, if four or eight bytes are there |
| `PbExact.SkipExactly` | Shopping List/Pods/nanopb/pb_decode.c:273-326 | what skipping uses up for every wire type and any bytes; the group types and the unassigned ones are errors |
| `PbExact.UnknownFails` | Shopping List/Pods/nanopb/pb_decode.c:919-1000 | an unknown field of such a type, or tag zero in a message without fields, ends the decoding whatever follows |
| `PbExact.UnfinishedFails` | Shopping List/Pods/nanopb/pb_decode.c:182-242 | bytes that break off within a key are never a message |
| `PbExact.WireTypeMatters` | Shopping List/Pods/nanopb/pb_decode.c:401-475 | the wire type of a known field decides only whether an array of numbers is packed |
| `PbExact.ItemIsAppended` | Shopping List/Pods/nanopb/pb_decode.c:449-459 | a number of an array that comes by itself is appended, if there is room |
| `PbExact.TextExactly` | Shopping List/Pods/nanopb/pb_decode.c:1428-1461 | of any bytes: a text is accepted exactly if it leaves room for the terminator, and ends at its first NUL |
| `PbExact.InlineExactly` | Shopping List/Pods/nanopb/pb_decode.c:1487-1508 | an inline array takes exactly its size, or nothing, which zeroes it |
| `PbExact.SubmessageEndsEarly` | Shopping List/Pods/nanopb/pb_decode.c:1463-1485 | a zero key ends a submessage, and the rest of its bytes is ignored |
| `PbExact.DecodedConforms` | Shopping List/Pods/nanopb/pb_decode.c:901-1049 | any bytes, decoded into a struct that conforms, leave one that does: no number, text, byte array or count exceeds its place, at any depth |
| `PbExact.AcceptedIsEncodable` | Shopping List/Pods/nanopb/pb_decode.c:1051-1063 | whatever bytes were accepted, the struct can be encoded, and that encoding decodes to it again |
| `PbExact.RequiredExactly` | Shopping List/Pods/nanopb/pb_decode.c:1004-1046 | of any bytes whose fields can be read: the message is accepted if and only if each of the first 64 required fields is among them, wherever it comes |
| `PbExact.MessageExactly` | Shopping List/Pods/nanopb/pb_encode.c:494-516 | the encoder reports no error if and only if byte arrays and arrays are within their capacities and every number written has a width it knows, at every depth |
| `PbIterator.FieldIter.Next` | Shopping List/Pods/nanopb/pb_common.c:20-76 | steps to the next field or wraps, and the required index stays the number of required fields before the position |
| `PbIterator.FieldIter.Find` | Shopping List/Pods/nanopb/pb_common.c:78-95 | the cyclic search succeeds exactly when the tag exists, and with distinct tags ends at the same place wherever it starts |
| `PbRequired.MarkRecords` | Shopping List/Pods/nanopb/pb_decode.c:988-993 | setting the bit of a required field's rank records that field and no other |
| `PbRequired.WordIsFull` | Shopping List/Pods/nanopb/pb_decode.c:1029-1045 | comparing a word with n ones checks exactly the n ranks it holds |
| `PbRequired.CheckIsExact` | Shopping List/Pods/nanopb/pb_decode.c:1004-1046 | comparing the two words with all ones succeeds if and only if each of the first 64 required fields was seen |
| `PbRequired.CheckRequired` | Shopping List/Pods/nanopb/pb_decode.c:1004-1046 | running the iterator to its end from wherever the last search left it finds the number of required fields, and the word comparisons follow |
| `PbEncoder.OutStream.Write` | Shopping List/Pods/nanopb/pb_encode.c:101-119 | writes the bytes at the position and nothing else, or fails untouched when they do not fit; a counting stream always succeeds |
| `PbEncoder.OutStream.FillVarint` | Shopping List/Pods/nanopb/pb_encode.c:574-594 | the buffer loop produces the varint and stays inside its ten bytes |
| `PbEncoder.OutStream.EncodeNumber` | Shopping List/Pods/nanopb/pb_encode.c:734-808 | the bytes of the number for its size, or an error for an impossible size |
| `PbEncoder.OutStream.EncodeSubmessage` | Shopping List/Pods/nanopb/pb_encode.c:682-730 | the second pass always writes the size the first one counted: the size-changed error cannot occur at any depth |
| `PbEncoder.OutStream.EncodePackedArray` | Shopping List/Pods/nanopb/pb_encode.c:133-178 | the size announced is the size of the items, whether multiplied or counted |
| `PbEncoder.OutStream.EncodeValue` | Shopping List/Pods/nanopb/pb_encode.c:734-868 | the value's bytes, or an error exactly where the specification has none |
| `PbEncoder.CheckSubmessage` | Shopping List/Pods/nanopb/pb_encode.c:215-281 | the iterator loop and its recursion into submessages find a struct to be the default exactly when every member of it is; which members these are, `PbPresence.LeftOutExactly` says without the check |
| `PbEncoder.OutStream.EncodeField` | Shopping List/Pods/nanopb/pb_encode.c:307-392 | the member's bytes or none, by rule and presence |
| `PbEncoder.OutStream.Encode` | Shopping List/Pods/nanopb/pb_encode.c:494-516 | the message's bytes are written if and only if they exist and fit; sizing and writing agree for every message |
| `PbEncoder.OutStream.EncodeNullTerminated` | Shopping List/Pods/nanopb/pb_encode.c:523-531 | the message's bytes and a zero byte |
| `PbEncoder.GetEncodedSize` | Shopping List/Pods/nanopb/pb_encode.c:533-542 | reports the length of the encoding, or fails exactly where encoding does |
| `PbEncoder.EncodeInto` | Shopping List/Pods/nanopb/pb_encode.c:84-119 | encoding to a buffer succeeds exactly when the size fits, and leaves the rest of the buffer alone |
| `PbDecoder.InStream.DecodeVarint` | Shopping List/Pods/nanopb/pb_decode.c:250-270 | the accumulating loop on 64 bits returns the value and the rest that the groups give; the tenth group keeps one bit |
| `PbDecoder.InStream.DecodeVarint32` | Shopping List/Pods/nanopb/pb_decode.c:182-242 | the 32-bit loop with its sign-extension and overflow checks, for any input |
| `PbDecoder.InStream.SkipField` | Shopping List/Pods/nanopb/pb_decode.c:316-326 | consumes what the specification consumes, for every wire type |
| `PbDecoder.InStream.MakeSubstream` | Shopping List/Pods/nanopb/pb_decode.c:367-395 | splits the stream into the announced bytes and the rest, or fails when they are not there |
| `PbDecoder.InStream.DecodeNumber` | Shopping List/Pods/nanopb/pb_decode.c:1289-1389 | value and rest of the specification, with the range check of the member's size |
| `PbDecoder.InStream.DecodePacked` | Shopping List/Pods/nanopb/pb_decode.c:410-437 | fills the array until the substream is used up; leftover bytes and overflow fail |
| `PbDecoder.InStream.DecodeValue` | Shopping List/Pods/nanopb/pb_decode.c:1391-1508 | value and rest of the specification for byte, text, inline and submessage fields |
| `PbDecoder.InStream.DecodeMember` | Shopping List/Pods/nanopb/pb_decode.c:401-475 | the member after one occurrence, by rule and wire type |
| `PbDecoder.InStream.DecodeOneField` | Shopping List/Pods/nanopb/pb_decode.c:919-1000 | one pass of the loop: found fields are decoded and recorded, unknown ones skipped |
| `PbDecoder.InStream.DecodeMessage` | Shopping List/Pods/nanopb/pb_decode.c:901-1049 | struct and rest of the specification: the result exists if and only if the loop succeeds and each of the first 64 required fields occurred |
| `PbDecoder.AddGroup64IsSum` | Shopping List/Pods/nanopb/pb_decode.c:264 | or-ing a shifted group into the 64-bit result adds its value; of the tenth group one bit remains |
| `PbBuffers.Transfer` | Shopping List/Pods/nanopb/pb_decode.c:1051-1063 | encoding into a buffer and decoding what was written, by any reader that agrees, gives exactly the reader's part of the message, from real buffers and streams |
| `TlsWrite.SSLBuffer.EnsureCap` | Shopping List/Pods/BoringSSL/ssl/ssl_buffer.cc:47-81 | it fails only above 0xffff and then changes nothing, nor does it where the room is enough; otherwise the contents survive the move to a new block in which what follows the header starts on an 8-byte boundary |
| `TlsWrite.SSLBuffer.Append` | Shopping List/Pods/BoringSSL/ssl/ssl_buffer.cc:83-88 | the bytes follow the contents |
| `TlsWrite.SSLBuffer.Consume` | Shopping List/Pods/BoringSSL/ssl/ssl_buffer.cc:90-97 | the first bytes leave the contents |
| `TlsWrite.Connection.AddRecordToFlight` | Shopping List/Pods/BoringSSL/ssl/s3_both.cc:135-165 | one sealed record goes behind the flight; bytes taken, write buffer and flight still are everything sealed, in order; it fails exactly when the AEAD does |
| `TlsWrite.Connection.AddMessage` | Shopping List/Pods/BoringSSL/ssl/s3_both.cc:184-205 | the records added carry exactly the message, all but the last filling the fragment limit, at least one even for an empty message; it fails exactly when the AEAD fails once |
| `TlsWrite.Connection.WriteBufferFlush` | Shopping List/Pods/BoringSSL/ssl/ssl_buffer.cc:239-252 | the transport takes the buffered bytes in order; success means that none is left, and it fails exactly when the transport fails once |
| `TlsWrite.Connection.FlushFlight` | Shopping List/Pods/BoringSSL/ssl/s3_both.cc:231-279 | it fails if and only if the pending flight must not be written - after shutdown, or above INT_MAX bytes - or a write or the flush fails; a transport that takes what it is given yields 1; success means that the flight is gone and that the transport has taken everything sealed if and only if a flight was pending or the write buffer was empty; a failure keeps order and progress |
| `TlsWrite.Connection.MoveFlight` | Shopping List/Pods/BoringSSL/ssl/s3_pkt.cc:256-267 | the unsent flight moves in front of the record about to be sealed |
| `TlsWrite.Connection.WritePending` | Shopping List/Pods/BoringSSL/ssl/s3_pkt.cc:200-218 | a repeated write flushes the waiting record and reports its length; it fails if and only if the write is shorter, of another type or, where buffers must not move, elsewhere, or the transport fails |
| `TlsWrite.Connection.DoWrite` | Shopping List/Pods/BoringSSL/ssl/s3_pkt.cc:221-289 | seals the given bytes at most once, and not at all while a record is waiting; fails if and only if the bytes cannot be written - a waiting record they do not repeat, stranded bytes, none or too many, no room - or the AEAD or the transport fails; what failed attempts leave waiting is remembered exactly; a failing AEAD leaves the rest of the flight in the buffer, and stranded bytes refuse every record |
| `TlsWrite.Connection.WriteAppData` | Shopping List/Pods/BoringSSL/ssl/s3_pkt.cc:129-198 | a write that succeeds has sealed exactly the bytes it reports, once, in order and cut at the fragment limit, one record at most under partial writes; where nothing stands in its way it fails only when the AEAD or the transport does; one that fails keeps its progress if and only if the connection is shut down or the call, with all of the data or less, was not shorter than what had been written |
| `TlsWrite.Connection.DispatchAlert` | Shopping List/Pods/BoringSSL/ssl/s3_pkt.cc:405-423 | a positive result is 1 and means that the alert's record has been sealed once and taken by the transport, that no alert is waiting any more, and that the transport was flushed if and only if the alert is fatal; any other result leaves the alert waiting and comes only from a record that is in the way or a failure of AEAD or transport; application plaintext and what is owed of it stay the same |
| `TlsWrite.Connection.SendAlert` | Shopping List/Pods/BoringSSL/ssl/s3_pkt.cc:377-403 | the first alert shuts the write side down and goes out at once if and only if nothing is buffered or in the way and nothing fails; every later one is refused without a change; over all calls at most one alert is sealed, the first |
| `TlsWrite.WriteOnSchedule` | Shopping List/Pods/BoringSSL/ssl/s3_pkt.cc:129-289 | the same over every schedule of retries, handshake messages, flushes and alerts and every behaviour of the transport and the AEAD, with transport order equal to sealing order throughout and at most one alert sealed |
| `TlsWrite.FlushWithoutWriting` | Shopping List/Pods/BoringSSL/ssl/s3_both.cc:231-234 | a run: a flight pending, a write the AEAD fails on, and a flush that reports success with nothing written |
| `TlsWrite.StrandedRefuses` | Shopping List/Pods/BoringSSL/ssl/s3_pkt.cc:228-233 | from there every record is refused and nothing changes, however often it is tried |
| `TlsWrite.NewFlightDrains` | Shopping List/Pods/BoringSSL/ssl/s3_both.cc:231-279 | until a new message has been queued and flushed, which fails only when the AEAD or the transport does, on a shutdown, or on a flight that is too long: then everything sealed has been taken |
| `TlsWrite.AlertNeverLeaves` | Shopping List/Pods/BoringSSL/ssl/s3_pkt.cc:200-218 | an alert asked for while a record of another type is waiting is stuck: over every schedule of retries, handshake messages, flushes and alerts the transport is given nothing any more |
| `TlsWrite.ShorterRetrySealsTwice` | Shopping List/Pods/BoringSSL/ssl/s3_pkt.cc:129-198 | a run: a write fails on its second record, a shorter repetition is refused, and the whole write again seals the first record a second time |
| `ClientHandshake.RankDrops` | Shopping List/Pods/BoringSSL/ssl/handshake_client.cc:1707-1789 | a rank that depends on whether a session is resumed drops at every state change |
| `ClientHandshake.LeaveIsSound` | Shopping List/Pods/BoringSSL/ssl/handshake_client.cc:1707-1789 | leaving a state for its successor with the events it allows keeps the history a legal handshake |
| `ClientHandshake.HelloDecides` | Shopping List/Pods/BoringSSL/ssl/handshake_client.cc:625-760 | the ServerHello may settle resumption and cipher without invalidating what came before |
| `ClientHandshake.Handshake.StartConnectStep` | Shopping List/Pods/BoringSSL/ssl/handshake_client.cc:385-452 | the ClientHello is sent and a flush requested, or an error before; an offered session may be dropped; after each outcome the history is still that of a legal handshake |
| `ClientHandshake.Handshake.ReadHelloVerifyRequestStep` | Shopping List/Pods/BoringSSL/ssl/handshake_client.cc:491-533 | a cookie request is read and answered by a second ClientHello and a flush, any other message is left for the next state, none is waited for; after each outcome the history is still that of a legal handshake |
| `ClientHandshake.Handshake.ReadServerHelloStep` | Shopping List/Pods/BoringSSL/ssl/handshake_client.cc:535-759 | a ServerHello is read, settles session, cipher and extensions, and leads to the resumption or the full order, with a history legal for the order it leads to |
| `ClientHandshake.Handshake.VerifyServerCertificateStep` | Shopping List/Pods/BoringSSL/ssl/handshake_client.cc:871-889 | with a certificate cipher the state is left only after the chain was verified |
| `ClientHandshake.Handshake.ReadServerKeyExchangeStep` | Shopping List/Pods/BoringSSL/ssl/handshake_client.cc:891-1071 | with a certificate cipher a ServerKeyExchange is accepted only after its signature was checked; an ephemeral key exchange requires one |
| `ClientHandshake.Handshake.ReadCertificateRequestStep` | Shopping List/Pods/BoringSSL/ssl/handshake_client.cc:1073-1143 | a request is remembered only with a certificate cipher |
| `ClientHandshake.Handshake.SendClientFinishedStep` | Shopping List/Pods/BoringSSL/ssl/handshake_client.cc:1457-1512 | ChangeCipherSpec, new write keys, negotiated extension messages and Finished, in this order, then a flush |
| `ClientHandshake.Handshake.FinishFlightStep` | Shopping List/Pods/BoringSSL/ssl/handshake_client.cc:1538-1564 | a resumption finishes, a full handshake reads on or returns early for False Start |
| `ClientHandshake.Handshake.ReadSessionTicketStep` | Shopping List/Pods/BoringSSL/ssl/handshake_client.cc:1566-1647 | an expected ticket is read first, an empty one forgotten, and then the ChangeCipherSpec is waited for; after each outcome the history is still that of a legal handshake |
| `ClientHandshake.Handshake.ProcessChangeCipherSpecStep` | Shopping List/Pods/BoringSSL/ssl/handshake_client.cc:1649-1656 | the read keys change after the ChangeCipherSpec was opened |
| `ClientHandshake.Handshake.ReadServerFinishedStep` | Shopping List/Pods/BoringSSL/ssl/handshake_client.cc:1658-1672 | the state is left only when the server's Finished matched |
| `ClientHandshake.Handshake.StateStep` | Shopping List/Pods/BoringSSL/ssl/handshake_client.cc:1707-1789 | every call of a state function leaves, returns and does exactly what its answers lead to - by `StepIsExact`, what the tables say - adds its events to the history of the state it leaves, and a success drops the rank |
| `ClientHandshake.Handshake.ClientLoop` | Shopping List/Pods/BoringSSL/ssl/handshake_client.cc:1707-1789 | terminates; it ends in the final state or suspended in a state with a wait that belongs to it |
| `ClientHandshake.Handshake.Run` | Shopping List/Pods/BoringSSL/ssl/handshake.cc:491-628 | suspends and resumes without losing its place: completion only in the final state, early return only for False Start in a full handshake, an error is final, and a result of 0 or less comes only from the transport, a failed operation or the application, and is theirs |
| `ClientHandshake.StepIsExact` | Shopping List/Pods/BoringSSL/ssl/handshake_client.cc:1707-1789 | every call of a state function waits if and only if a message, a key, a verification or the application is missing, advances if and only if the message suits the state and all its operations succeed, fails otherwise, and settles, returns and does what six tables say |
| `ClientHandshake.CompletedTrace` | Shopping List/Pods/BoringSSL/ssl/handshake_client.cc:1707-1789 | everything a completed handshake has done, event for event: the one list for a resumption or a full handshake that cipher, version, extensions and choices determine - chain and key exchange signature checked before the client key exchange, keys changed once and only after the opened ChangeCipherSpec, the server's Finished matched once, the client's Finished before it in a full handshake and after it in a resumption |
| `ClientHandshake.CourseSoFar` | Shopping List/Pods/BoringSSL/ssl/handshake_client.cc:1707-1789 | at every point, failures included, what has been done in the states left is a prefix of that list |
| `ClientHandshake.RunFollowsCourse` | Shopping List/Pods/BoringSSL/ssl/handshake_client.cc:1707-1789 | the same over every sequence of answers from the start |
| `ClientHandshake.CertVerifyExactly` | Shopping List/Pods/BoringSSL/ssl/handshake_client.cc:1373-1455 | over every run in which the client has a certificate throughout or none throughout: CertificateVerify is sent, once, between the client key exchange and the ChangeCipherSpec, if and only if a certificate was requested and a real one sent |
| `ClientHandshake.ProvedIffShown` | Shopping List/Pods/BoringSSL/ssl/handshake_client.cc:1373-1455 | over every run: CertificateVerify is there exactly when the certificate is if and only if, where one was requested, the client had one at both states or at neither |
| `ClientHandshake.WithdrawnIsNotProved` | Shopping List/Pods/BoringSSL/ssl/handshake_client.cc:1373-1455 | a run in which the certificate is withdrawn in between: sent, and its possession never proved |
| `ClientHandshake.NoDeadEnds` | Shopping List/Pods/BoringSSL/ssl/handshake_client.cc:1707-1789 | from every point of every handshake some answers of peer, callbacks and transport lead the state functions, called one after the other, to the final state without an error |
| `ClientHandshake.Handshake.Complete` | Shopping List/Pods/BoringSSL/ssl/handshake_client.cc:1707-1789 | the same on the object: wherever a handshake without an error stands, calls of its state functions complete it |
| `ClientHandshake.Handshake.Connect` | Shopping List/Pods/BoringSSL/ssl/handshake.cc:491-628 | the completed trace, for any number of suspended and resumed calls and any behaviour of peer, callbacks and transport |
| `ClientHandshake.Handshake.SendClientCertificateVerifyStep` | Shopping List/Pods/BoringSSL/ssl/handshake_client.cc:1373-1455 | signs and sends if and only if a certificate was requested and there is one, and remembers which |
| `ClientHandshake.Handshake.SendClientCertificateStep` | Shopping List/Pods/BoringSSL/ssl/handshake_client.cc:1169-1215 | where a certificate was requested: the chain, an empty message, or in SSL 3.0 the no_certificate alert |
| `ChooseCipher.Choose` | Shopping List/Pods/BoringSSL/ssl/handshake_server.cc:392-424 | returns the acceptable cipher with the smallest index in the allow list among the first equal-preference group that has one; None if and only if no terminated group has one, and with a clear last flag if and only if no cipher is acceptable |
| `ChooseCipher.LastFlagDecides` | Shopping List/Pods/BoringSSL/ssl/internal.h:1860-1893 | every entry lies in a terminated group if and only if the last flag is clear |
| `ChooseCipher.OptimumIsUnique` | Shopping List/Pods/BoringSSL/ssl/handshake_server.cc:392-424 | the optimum is unique |
| `ChooseCipher.CandidatesAreCommon` | Shopping List/Pods/BoringSSL/ssl/handshake_server.cc:392-424 | there is a cipher to choose if and only if both lists have one in common that is for the version and goes with a key exchange and a certificate the server has |
| `ChooseCipher.OptimumIsUsable` | Shopping List/Pods/BoringSSL/ssl/handshake_server.cc:392-424 | the optimum is one of these |
| `ChooseCipher.ChooseForClient` | Shopping List/Pods/BoringSSL/ssl/handshake_server.cc:357-424 | with the client's preference, its first acceptable cipher; with the server's, the optimum over its groups, and none if and only if no terminated group has an acceptable one; nothing without a parsable client list |
| `RefCount.StepRefines` | Shopping List/Pods/BoringSSL/crypto/refcount_c11.c:37-65 | every step of a compare-and-swap loop, spurious failures included, is invisible or one whole locked operation |
| `RefCount.RunIsLinearizable` | Shopping List/Pods/BoringSSL/crypto/refcount_c11.c:37-65 | in every state of every run of any number of threads the count and all results are those of the locked operations in the order in which they took effect, each exactly once between its begin and its return |
| `RefCount.StepKeepsInv` | Shopping List/Pods/BoringSSL/crypto/refcount_c11.c:37-65 | a saturated count stays, and a decided operation keeps its result |
| `RefCount.CountIsSum` | Shopping List/Pods/BoringSSL/crypto/refcount_lock.c:29-51 | until it saturates the count is the initial value plus increments minus decrements |
| `RefCount.SaturationIsPermanent` | Shopping List/Pods/BoringSSL/crypto/refcount_lock.c:29-51 | a saturated count never changes again |
| `RefCount.ZeroIsReportedOnce` | Shopping List/Pods/BoringSSL/crypto/refcount_c11.c:49-65 | a decrement reports zero if and only if it took the count from a positive value to zero itself, and returns what it took effect with |
| `RefCount.TurnEnds` | Shopping List/Pods/BoringSSL/crypto/refcount_c11.c:37-65 | one turn of a loop ends its operation unless the exchange failed spuriously or the count has changed; it aborts exactly on a decrement of zero and touches no other thread |
| `RefCount.FailureIsProgress` | Shopping List/Pods/BoringSSL/crypto/refcount_c11.c:37-65 | lock freedom: in every run a thread goes round once more for a reason only if the operation of another has taken effect since it last looked |

## Left out

- The Swift application: user interface and calls into Firebase.
- Cryptography and certificate parsing: an AEAD is a function or choice with the length bounds its interface promises; the
  parsing of message bodies has an arbitrary outcome.
- DTLS timers and MTU discovery: the MTU is an arbitrary value for every pass.
- More than 2^16 write epochs in one connection: the sender's 16-bit epoch does not wrap in the system of
  `HandshakeTransport`. The receiver's does.
- The AEAD decrypts into a new sequence, not in place over the record's body.
- Allocation failure, except where a step of the client handshake may fail for any reason.
- TLS 1.3, early data, renegotiation, V2ClientHello, handoff, alert texts and info callbacks.
- The server handshake driver, except for the cipher choice: its states are not part of this model.
- The contents of handshake messages: a message is its type, and its checks succeed or fail arbitrarily.
- In the client handshake, the limits on empty records and warning alerts: a call of the driver handles finitely many
  records.
- nanopb callbacks, extensions, pointer fields and malloc, fixed-count arrays, custom streams and error texts.
- C struct layout: struct members are values, the iterator's pointers are its position. A has_ flag that is clear means
  that the member's contents are the defaults.
- Wrap-around of `size_t`: stream positions and sizes are unbounded, only the cast of a size to a 64-bit varint is kept.
- PbRoundTrip.MessageRoundTrip: assumes encodings shorter than 2^32 bytes, because the decoder reads lengths as 32-bit varints.
- PbVarints.Varint32Exactly: says nothing of varints longer than 37 bytes, where the 8-bit bit position wraps round; the
  decoder's contract covers them.
- RefCount.RunIsLinearizable: a decrement that observes zero is decided at that observation and aborts the process at its next step;
  steps of other threads in between are part of the run.
- Write paths of DTLS application data and of the read buffers: not part of this model.
