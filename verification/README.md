# A verified model of the strict DNP3 stack

This project models the strict DNP3 stack of dnp3-go and proves what it is for. The stack has four layers: a link
layer with CRC-protected frames and a stop-and-wait protocol, a transport layer that cuts and rejoins fragments, an
application layer that does the same one level up, and a session that composes them. The object codec that fills
application fragments is modelled too, and so is the older transport layer with its per-outstation master. The
public standard behind the code is IEEE Std 1815-2012: clause 9 (data link), clause 8 (transport function), clause 4
(application layer) and Annex A (object library). All theorems are about what the code does.

`dafny verify dfyconfig.toml` checks everything.

## How it is laid out

Every layer has a module of pure functions that say what the code computes, together with the theorems about them,
and where the code works by changing state, a second module with the code's own form: classes with mutable fields and
methods with loops, each proved equal to those functions.

| concern | specification and theorems | objects and loops |
|---|---|---|
| octets, bit strings, little endian | Bytes | |
| CRC-16, its polynomial, CRC blocks | Crc, CrcPolynomial, CrcBlocks | CrcBlocks.CrcTable |
| frames, and streams of frames | Frame, FrameStream | FrameFields.LinkFrame, FrameStream |
| link protocol | LinkState, LinkTable, LinkPeers, LinkNeeds | LinkObject |
| transactions over a connection | LinkChannel, LinkAttempts | ChannelObject |
| transport segments | Transport | TransportObject |
| application fragments | AppFragment | AppObject |
| object headers, points, packed points, blocks | ObjectHeader, Measurement, PackedPoints, ObjectBlock, ObjectOctets, BlockOctets | ObjectLoops |
| the session | Session, SessionReceive, SessionCalls, SessionConfirms, EndToEnd, Conservation, PeersDelivery, SessionPair | SessionObject |
| older transport layer | OlderTransport, OlderAndStrict, MasterTransport | OlderObject, MasterObject |

A connection is modelled by what its reads and writes will do: a list of read outcomes (a frame, with whether its
answer can be written and its data handled; a timeout; a broken connection) and a list of outcomes for the other
writes. The theorems about transactions, reception and sessions hold for all of these lists; where a result depends on
a write, the condition is part of the theorem. The network between two peers may lose any frame. In the two-peer system
(LinkPeers) a request that cannot be written is one that is lost, and an answer that cannot be written is an event of
its own: the side that handled the request then returns nothing to its caller.

Round trips and invariants do not say which octets are on the wire, so each codec and the state machine are also tied
to literal octets: CrcPolynomial to the exponents of the generator, Frame and LinkTable to the control octets,
AppFragment, Transport, ObjectOctets and BlockOctets to positions and values.

Octets are `bv8`, link words are `bv16`; the register algebra of the CRC is done on these, with bit strings in wire
order, least significant bit first.

## Main results

* Exactly-once, in-order delivery in both directions, over every run of two mirrored peers on a lossy link, with
  resets: what each side has absorbed is what the other has acknowledged, or that and the one pending payload, and no
  arriving frame is ever rejected; what was absorbed has also been returned to the caller if and only if every answer
  to new data could be written (`LinkPeers.ExactlyOnceDelivery`).
* End to end, from calls to calls: what repeated `ReceiveApplication` calls return of a list of fragments given to
  `SendApplication`, through encoding, segmentation, frames, CRC blocks, octets, loss and retransmission, for every
  outcome of every write and handler on both sides. When every send succeeded and the receiver held nothing before, the
  list comes out, in order and once, if and only if the receiver could write the answer to every frame with new data
  and every confirmation (`SessionPair.SessionToSession`).
* The same condition, over every interleaving of the two-peer system, with resets and in both directions at once, once
  every payload of the list is acknowledged (`PeersDelivery.FragmentsDelivered`).
* How every transaction ends, for all reads and writes: exactly when its request is gone, what it wrote, and what it
  did to the send bit (`LinkChannel.SendConfirmedVerdict`, `ResetVerdict`, `KeepAliveVerdict`).
* The CRC of any octet string is the complemented remainder of the message polynomial by the generator with its
  exponents written out, and nothing else is (`CrcPolynomial.CrcIsRemainder`).
* Handling any frame in any state is what a table of the 30 valid control octets says (`LinkTable.HandleIsTable`); an
  acknowledged payload was taken (`LinkTable.AcknowledgedMeansTaken`).
* What a receiving session confirms, octet by octet, over all reads and writes (`SessionConfirms.ReceiveEachConfirms`).
* How many attempts a transaction makes, exactly, and why it gives up (`LinkAttempts.TransactionEnds`).
* Which object blocks are accepted and where every number, value and bit of them stands
  (`BlockOctets.BlockEncodesIff`, `BlockOctets.BlockLayout`).
* Any error burst of up to sixteen wire bits anywhere in a frame is rejected (`Frame.BurstInFrameRejected`).
* Encoding and decoding of object blocks and of lists of blocks are inverse, with an exact condition
  (`ObjectBlock.BlocksRoundTrip`).
* Both reassemblers equal a statement about the history of what was pushed (`Transport.ReassemblyIsHistory`,
  `AppFragment.ReassemblyIsHistory`).
* The older transport layer is the strict one with two header bits exchanged (`OlderAndStrict.SendsAsStrict`,
  `OlderAndStrict.ReceivesAsStrict`).
* One outstation's view of the older master transport is that of a transport layer of its own, whatever the others do
  (`MasterTransport.Isolated`), and lists of fragments of any size come through it as specified
  (`MasterTransport.DeliveredDespiteOthers`).

## What the proofs found in the code

* Responses carry no frame count bit (pkg/link/strict_state.go:132-141). Delivery is exactly-once only if a
  retransmission fires when neither the request nor its response is still in flight;
  `LinkNeeds.EarlyRetransmissionLosesData` is a run that loses acknowledged data otherwise.
* `StartReset` restores the initiator's send bit but not its expected bit (pkg/link/strict_state.go:59), while
  receiving a reset restores both (line 50). After a reset the peer's next payload is acknowledged in every case, but
  delivered if and only if the initiator's expected bit was at its initial value before
  (`LinkNeeds.ResetKeepsPeerInStepIff`). `LinkPeers.MayReset` is that condition; with a single sender it always holds
  (`LinkPeers.OneSenderMayAlwaysReset`).
* `StrictChannel.Receive` and `transact` handle a frame before they write its answer, and return without the data when
  that write fails (pkg/link/strict_channel.go:143-151 and 191-204). The frame's repeat is then acknowledged as a
  duplicate, so the sender succeeds with a payload that is never returned (`LinkNeeds.UnwrittenAnswerLosesData`).
  Everything that was handled is returned if and only if every read with new data could be answered
  (`LinkChannel.TakenIffAnswered`), and the loss shows in what a session returns (`Conservation.LossShows`).
* A fragment whose confirmation cannot be written is dropped although the link has acknowledged it
  (pkg/session/strict.go:146-153); which fragments remain is `EndToEnd.Confirmed`.
* A confirmed or reset transaction that fails leaves its request pending unless the peer's accepted reset or accepted
  refusal was among its reads, and while it is pending no further transaction, not even a reset, can be started; both
  are if-and-only-if (`LinkChannel.SendConfirmedVerdict`, `LinkChannel.ResetVerdict`).
* `KeepAlive` succeeds on the peer's own status request, because answering one also counts as a link status
  (pkg/link/strict_state.go:190-191). Its own request then stays pending and blocks every further transaction
  (`LinkNeeds.KeepAliveEndsOnRequest`; exactly when, `LinkChannel.KeepAliveVerdict`).
* `transact` takes this side's own refusal of the peer's data for a refusal of its request
  (pkg/link/strict_channel.go:208-211): data that meets a reset under way makes the reset go out twice, and the second
  acknowledgement is taken for that of the next payload (`LinkNeeds.RefusalTakenForAnswer`; exactly when the reset goes
  out twice, `LinkNeeds.ResetRepeatedIff`).
* Receiving a reset drops the receiver's own pending request (pkg/link/strict_state.go:49-52): its late acknowledgement
  is then an unexpected response, and the payload is delivered but never acknowledged
  (`LinkNeeds.ResetDropsPeersRequest`).
* The point encoder drops a quality silently when the format has no room for it, and the header encoder drops fields
  that the qualifier does not use (pkg/app/strict_measurement.go:90-92, pkg/app/strict_object.go:40-64). A block
  survives the wire exactly when it is canonical in these respects (`ObjectBlock.SurvivesIffCanonical`).
* The fragment encoder drops internal indications outside responses (pkg/app/strict.go:48-50); a fragment survives the
  wire exactly when it has none there (`AppFragment.SurvivesIffEncodable`).
* `parseControl` followed by `buildControl` keeps a control octet exactly when no bit sits where the fields cannot
  hold it (`FrameFields.RebuiltKeeps`).
* The strict and the older transport use the FIR and FIN bits the other way round (pkg/transport/strict.go:9-10,
  pkg/transport/segment.go:11-12). The constants are modelled as written, and the theorems say where each
  layer puts them; which layout is right is not claimed.

## Model

| member | source | states |
|---|---|---|
| Crc.BitStepXor | pkg/link/crc.go:11-20 | one step of the shift register is linear over exclusive-or |
| Crc.BitStepInjective | pkg/link/crc.go:11-20 | one step never merges two registers |
| Crc.TableStepIsEightBits | pkg/link/crc.go:8-32 | one table lookup does the work of eight bit steps, for every register and octet |
| Crc.TableIsBitwise | pkg/link/crc.go:26-32 | the table-driven register agrees with the bit-at-a-time polynomial register on every octet string |
| Crc.RegBitsXor | pkg/link/crc.go:26-32 | before the complement the CRC is linear over exclusive-or, on messages of equal length |
| Crc.CrcValidIsResidue | pkg/link/crc.go:36-48 | VerifyCRC holds exactly when the register over data and CRC ends at one fixed value |
| Crc.ParityBitStep | pkg/link/crc.go:11-20 | every register step preserves parity |
| Crc.ParityOfRegister | pkg/link/crc.go:26-32 | the register's parity is the parity of everything that entered it |
| Crc.BurstRejected | pkg/link/crc.go:36-48 | a valid block hit by a non-zero burst of up to 16 consecutive wire bits is never valid |
| Crc.OddWeightRejected | pkg/link/crc.go:36-48 | a valid block with an odd number of flipped bits is never valid |
| CrcPolynomial.GeneratorPowers | pkg/link/crc.go:3-10 | the generator is x^16 + x^13 + x^12 + x^11 + x^10 + x^8 + x^6 + x^5 + x^2 + 1 |
| CrcPolynomial.ZeroIffMultiple | pkg/link/crc.go:26-32 | for every message of at least 16 bits, the register ends at zero if and only if the message polynomial is a multiple of the generator |
| CrcPolynomial.CrcIsRemainder | pkg/link/crc.go:26-33 | for every octet string, the CRC is the one word whose complement, appended to the message bits, makes a multiple of the generator |
| CrcPolynomial.CrcValidIffMultiple | pkg/link/crc.go:36-48 | VerifyCRC holds exactly for two octets or more that are a multiple of the generator once the last two are complemented |
| CrcPolynomial.CheckValue | pkg/link/crc_test.go:30-34 | the CRC of the octets of 123456789 is 0xEA82 |
| CrcPolynomial.ResetHeaderValue | pkg/link/crc_test.go:36-40 | the CRC of the header 05 64 05 C0 01 00 00 04 is 0x21E9 |
| CrcBlocks.WithCrcValid | pkg/link/crc.go:51-58 | what AppendCRC appends passes VerifyCRC |
| CrcBlocks.AddCrcsLength | pkg/link/crc.go:62-86 | two octets per started block of sixteen |
| CrcBlocks.DataAt | pkg/link/crc.go:62-86 | every data octet is moved up by two places for each full block before it |
| CrcBlocks.RemoveAdded | pkg/link/crc.go:62-127 | RemoveCRCs gives back what AddCRCs was given |
| CrcBlocks.AddRemoved | pkg/link/crc.go:91-127 | whatever RemoveCRCs accepts is what AddCRCs makes of its result |
| CrcBlocks.RemovesIff | pkg/link/crc.go:91-127 | RemoveCRCs accepts exactly the strings whose every block has data and a valid CRC |
| CrcBlocks.OddBlockRejected | pkg/link/crc.go:91-127 | an odd number of flipped bits in one block is rejected, whatever happens to the other blocks |
| CrcBlocks.BurstInBlocksRejected | pkg/link/crc.go:91-127 | a non-zero burst anywhere in the blocks, across boundaries too, is rejected |
| CrcBlocks.CrcTable.constructor | pkg/link/crc.go:8-23 | the nested loops fill all 256 entries with eight steps of their index |
| CrcBlocks.CrcTable.Calculate | pkg/link/crc.go:26-32 | the register loop computes the specified CRC |
| CrcBlocks.CrcTable.Verify | pkg/link/crc.go:36-48 | true exactly for at least two octets whose last two are the CRC, low octet first |
| CrcBlocks.CrcTable.Add | pkg/link/crc.go:62-86 | the block loop inserts a CRC after every sixteen octets and after the rest |
| CrcBlocks.CrcTable.Remove | pkg/link/crc.go:91-127 | the block loop removes the CRCs, or fails exactly when a block is short or invalid |
| Frame.ControlOctets | pkg/link/strict.go:78-100 | of the 256 control octets exactly the 30 listed are valid |
| Frame.EncodesIff | pkg/link/strict.go:20-32 | which frames the encoder refuses, and why: a control octet that is not listed, or more than 250 octets of data |
| Frame.EncodedSize | pkg/link/strict.go:20-32 | a valid frame encodes to 10 + n + 2 * ceil(n / 16) octets and at most 292 |
| Frame.WireLayout | pkg/link/frame.go:84-118 | the literal start octets; where the length, control and address octets, low octet first, the header CRC, every data octet and every block CRC of a valid frame are on the wire |
| Frame.ParseEncoded | pkg/link/frame.go:84-176 | Parse returns every serialized frame and the number of its octets, whatever follows |
| Frame.DecodeEncoded | pkg/link/strict.go:20-51 | decoding undoes encoding for every valid frame |
| Frame.EncodeDecoded | pkg/link/strict.go:36-51 | every accepted octet string is the encoding of its frame, so no frame has two wire forms |
| Frame.WhyRefused | pkg/link/strict.go:36-51 | which error an octet string that is not a frame gets, by start octets, announced length, CRCs, trailing octets and control octet |
| Frame.DecodesIff | pkg/link/strict.go:36-51 | exactly which octet strings are frames: literal start octets, the announced length, a listed control octet, valid CRCs |
| Frame.DecodedFields | pkg/link/strict.go:36-51 | what an accepted octet string holds, octet by octet |
| Frame.BurstInFrameRejected | pkg/link/frame.go:121-176 | a non-zero error confined to 16 consecutive wire bits of an encoded frame is rejected, in the length octet, in CRC octets and across block boundaries too |
| Frame.OddHeaderRejected | pkg/link/frame.go:121-176 | an odd number of flipped bits in the header block is rejected, whatever happens to the data |
| Frame.OddDataBlockRejected | pkg/link/frame.go:121-176 | with an intact header, an odd number of flipped bits in any data block is rejected |
| FrameFields.RebuiltKeeps | pkg/link/frame.go:43-74 | parsing and rebuilding keeps a control octet if and only if its FCB and FCV bits fit the fields |
| FrameFields.LinkFrame.constructor | pkg/link/frame.go:27-40 | a new frame has the given fields and the control octet that they make |
| FrameFields.LinkFrame.BuildControl | pkg/link/frame.go:43-62 | sets the control octet from the fields and nothing else |
| FrameFields.LinkFrame.ParseControl | pkg/link/frame.go:65-74 | sets the fields from the control octet |
| FrameFields.LinkFrame.SetFCB | pkg/link/frame.go:77-81 | sets both frame count fields and the control octet to match |
| FrameFields.LinkFrame.Serialize | pkg/link/frame.go:84-118 | the header buffer and the CRC blocks make exactly the specified octets |
| FrameStream.ReadEncoded | pkg/link/strict.go:54-73 | reading takes exactly the octets of the first encoded frame and returns it |
| FrameStream.ReadWritten | pkg/link/strict.go:54-73 | repeated reading over any concatenation of encoded frames returns that list |
| FrameStream.WrittenRead | pkg/link/strict.go:54-73 | a stream read to its end without an error is the concatenated encoding of what was read |
| FrameStream.ReadMidFrame | pkg/link/strict.go:54-73 | a read that gave up after one to three octets of a frame leaves a stream on which the next read finds no header |
| FrameStream.ReadStrictFrame | pkg/link/strict.go:54-73 | the answer does not depend on the pieces in which the stream delivers its octets |
| FrameStream.WriteStrictFrame | pkg/link/strict_channel.go:280-299 | success means the whole encoding went out once; failure means a prefix of it did, and a proper one when the writer was short without an error |
| LinkState.PrimaryControlBits | pkg/link/strict_state.go:118-130 | a primary control octet says primary, and carries its function, direction, FCB and FCV |
| LinkState.SecondaryControlBits | pkg/link/strict_state.go:132-141 | a secondary control octet says secondary, and carries function, direction and DFC but no FCB |
| LinkState.HandleSummary | pkg/link/strict_state.go:144-253 | for every state and frame: errors change nothing; which frames are answered and to whom; which deliver data; when the receive bit moves; what counts as a repeat |
| LinkTable.HandleIsTable | pkg/link/strict_state.go:144-253 | for every state and every frame, what handling does, answers, hands on or reports is what a table of literal control octets says; frames for other stations or from the wrong direction are refused |
| LinkTable.SentOctets | pkg/link/strict_state.go:55-130 | which octets each operation sends, exactly when it sends, why it refuses otherwise, and the state it leaves |
| LinkTable.FirstBits | pkg/link/strict_state.go:38-52 | a new link is not ready; after a reset the first payload goes out under control octet 0x73 or 0xF3 |
| LinkTable.AcknowledgedMeansTaken | pkg/link/strict_state.go:198-214 | an answer with function 0 to confirmed data means that the data was taken now or before, and never comes from a link that is not ready |
| LinkTable.UnreadyRefuses | pkg/link/strict_state.go:198-202 | a link that is not ready answers confirmed data with control octet 0x01 or 0x81 |
| LinkTable.SendToUnreadyFails | pkg/link/strict_channel.go:61-74 | a confirmed send whose reads are what unready links answer never succeeds |
| LinkObject.StrictState.constructor | pkg/link/strict_state.go:38-43 | a new state is not ready, has both bits set and nothing pending |
| LinkObject.StrictState.MarkReset | pkg/link/strict_state.go:49-52 | ready, both bits set, the pending request dropped |
| LinkObject.StrictState.StartReset | pkg/link/strict_state.go:55-61 | refused while a request is pending, else a pending reset with the send bit restored |
| LinkObject.StrictState.StartConfirmed | pkg/link/strict_state.go:64-72 | refused before reset, for empty or oversized data or while pending, else a pending confirmed request with the send bit |
| LinkObject.StrictState.StartLinkStatus | pkg/link/strict_state.go:75-77 | a pending status request |
| LinkObject.StrictState.StartPending | pkg/link/strict_state.go:101-116 | the part that all starts share |
| LinkObject.StrictState.Handle | pkg/link/strict_state.go:144-159 | address, control and direction checks, then primary or secondary handling, on the object's fields |
| LinkObject.StrictState.HandlePrimary | pkg/link/strict_state.go:161-196 | handling of each request function |
| LinkObject.StrictState.HandleConfirmed | pkg/link/strict_state.go:198-214 | duplicate suppression and the expected bit |
| LinkObject.StrictState.HandleSecondary | pkg/link/strict_state.go:216-253 | handling of each answer against the pending request |
| LinkPeers.StartsCompatible | pkg/link/strict_state.go:55-130 | every request and retransmission passes control, address and direction checks at a mirrored peer |
| LinkPeers.UnconfirmedCompatible | pkg/link/strict_state.go:80-91 | so does unconfirmed data |
| LinkPeers.HandleCompatible | pkg/link/strict_state.go:144-253 | whatever frame is handled, the answer suits the peer, and the pending request still does |
| LinkPeers.HandlesConfirmed | pkg/link/strict_state.go:198-214 | what a ready mirrored peer does with a confirmed request, old or new |
| LinkPeers.NextKeeps | pkg/link/strict_state.go:55-253 | every start, retransmission, arrival and loss, at either peer, keeps the protocol invariant |
| LinkPeers.RunKeeps | pkg/link/strict_state.go:55-253 | so does every run |
| LinkPeers.RunAccounts | pkg/link/strict_channel.go:143-151 | over every run, what is absorbed is returned or missed, and something is missed exactly when an answer to new data is not written |
| LinkPeers.ExactlyOnceDelivery | pkg/link/strict_state.go:144-253 | in every reachable state and both directions, absorbed payloads are the acknowledged ones, or those plus the pending one; every arriving frame decodes and is handled without an error; and what was absorbed was also returned if and only if every answer to new data was written |
| LinkPeers.OneSenderMayAlwaysReset | pkg/link/strict_state.go:55-61 | in every state that one sender's runs reach from the start, it can begin a reset exactly when it has no request pending |
| LinkNeeds.EarlyRetransmissionLosesData | pkg/link/strict_state.go:94-141 | without the timing assumption, from any state in step, a payload is acknowledged and never delivered |
| LinkNeeds.ResetKeepsPeerInStepIff | pkg/link/strict_state.go:49-61 | after a reset the peer's next payload is always acknowledged, and delivered if and only if the initiator's expected bit was at its initial value |
| LinkNeeds.ResetDropsPeersRequest | pkg/link/strict_state.go:49-61 | a reset while the peer has a confirmed request under way: the request is dropped, its late acknowledgement is an unexpected response, and when the peer's next payload is delivered |
| LinkNeeds.RefusalTakenForAnswer | pkg/link/strict_channel.go:208-211 | the peer's data meets a reset under way: the reset is written twice with no timeout and nothing lost, and the second acknowledgement is taken for that of the next payload |
| LinkNeeds.ResetRepeatedIff | pkg/link/strict_channel.go:208-211 | a frame before its acknowledgement that is handled and leaves the reset pending makes it go out a second time if and only if it is the peer's own counted request or a negative answer |
| LinkNeeds.UnwrittenAnswerLosesData | pkg/link/strict_channel.go:143-151 | when the answer to new data cannot be written, the retransmission is acknowledged, the sender succeeds, and no Receive returns the payload |
| LinkNeeds.KeepAliveEndsOnRequest | pkg/link/strict_channel.go:104-117 | a keep-alive that meets the peer's status request succeeds on it with its own request pending, and further starts are refused |
| LinkChannel.HandleEffects | pkg/link/strict_state.go:144-253 | what a handled frame can do to the pending request, readiness and the send bit |
| LinkChannel.RequestRemovedIff | pkg/link/strict_state.go:144-253 | one frame takes a confirmed or reset request away if and only if it is an accepted reset, an accepted refusal or its acknowledgement |
| LinkChannel.NegativeIff | pkg/link/strict_state.go:198-253 | a handled frame makes a waiting transaction transmit again at once if and only if it is a negative answer, or the peer's counted request while this side is not reset |
| LinkChannel.AttemptsWrite | pkg/link/strict_channel.go:158-215 | from any attempt on, at most the remaining number of request frames is written, each the first one again |
| LinkChannel.RequestsBounded | pkg/link/strict_channel.go:158-215 | a transaction writes its request at most maximumRetries + 1 times, unchanged |
| LinkAttempts.AttemptsEnd | pkg/link/strict_channel.go:158-215 | from any attempt on: given up exactly when the attempts left are used up, and how often the request was written again |
| LinkAttempts.TransactionEnds | pkg/link/strict_channel.go:158-215 | for all reads and writes, a transaction gives up exactly when timeouts and negative answers have used up maximumRetries + 1 attempts, having written its request that often; a success wrote it once more than attempts were used up; a broken connection ends it; in between exactly the answers to its reads are written |
| LinkAttempts.Refused | pkg/link/strict_channel.go:45-117 | what cannot be started reads and writes nothing, and which error is returned |
| LinkChannel.SendConfirmedVerdict | pkg/link/strict_channel.go:61-74 | success consumes exactly one acknowledgement, last, and toggles the send bit once; failure leaves the bit unless the peer resets; after failure the request is gone, and further starts are not refused for it, if and only if an accepted reset or refusal was read; in every case exactly the data taken from the reads goes to the handler |
| LinkChannel.ResetVerdict | pkg/link/strict_channel.go:45-58 | success ends with its one acknowledgement, ready, with the send bit set and nothing pending; after failure the link is ready if and only if the peer reset it, and further starts are refused if and only if the peer did not withdraw the request; exactly the data taken from the reads goes to the handler |
| LinkChannel.KeepAliveVerdict | pkg/link/strict_channel.go:104-117 | success ends on a link status or on the peer's own request for one; the request is gone, and further starts are not refused for it, if and only if the ending frame was an answer or the peer withdrew the request before; exactly the data taken from the reads goes to the handler |
| LinkChannel.TakenIffAnswered | pkg/link/strict_channel.go:143-151 | for all reads, what is absorbed is taken or lost, and all of it is taken if and only if every read with new data is answered |
| LinkChannel.ReceiveAbsorbs | pkg/link/strict_channel.go:120-156 | for every connection, Receive returns exactly what is taken from the reads it uses; it loses at most the data of its last read, exactly when it fails because the answer to new data cannot be written |
| ChannelObject.StrictChannel.constructor | pkg/link/strict_channel.go:37-39 | a channel over a connection and a link state |
| ChannelObject.StrictChannel.Answer | pkg/link/strict_channel.go:191-204 | one received frame: handled, answered, its data given to the handler |
| ChannelObject.StrictChannel.Transact | pkg/link/strict_channel.go:158-215 | the nested retry and read loops equal the specified transaction, for every list of read and write outcomes |
| ChannelObject.StrictChannel.Reset | pkg/link/strict_channel.go:45-58 | the reset transaction |
| ChannelObject.StrictChannel.SendConfirmed | pkg/link/strict_channel.go:61-74 | the confirmed transaction |
| ChannelObject.StrictChannel.SendUnconfirmed | pkg/link/strict_channel.go:77-101 | one datagram, no state change |
| ChannelObject.StrictChannel.KeepAlive | pkg/link/strict_channel.go:104-117 | the status transaction |
| ChannelObject.StrictChannel.Receive | pkg/link/strict_channel.go:120-156 | the receive loop, for every list of outcomes |
| Transport.AdvanceVal | pkg/transport/strict.go:21-40 | sequence numbers count modulo 64 |
| Transport.SegmentLayout | pkg/transport/strict.go:14-40 | what is refused; otherwise every segment octet by octet: its number, 0x80 in the first, 0x40 in the last, and its piece of the fragment |
| Transport.SegmentThenPush | pkg/transport/strict.go:14-94 | pushing the segments of any fragment, at any limit and start, into any prior state completes only at the last, with the fragment; all but the last are full; the next number is start plus count modulo 64 |
| Transport.AfterAccepted | pkg/transport/strict.go:62-65 | segments of fewer than two octets are errors and leave no trace |
| Transport.ReassemblyIsHistory | pkg/transport/strict.go:62-94 | for every history, a push completes with p exactly when the accepted segments since the latest FIR are consecutive modulo 64, fit the limit, meet their first FIN now and join to p |
| Transport.ErrorsAreHistory | pkg/transport/strict.go:62-94 | for every history, which error a segment gets: nothing to continue, a number that does not follow, or too long |
| TransportObject.SegmentStrict | pkg/transport/strict.go:14-40 | the segmentation loop |
| TransportObject.NewStrictReassembler | pkg/transport/strict.go:49-54 | exactly the limits below one are refused |
| TransportObject.StrictReassembler.Reset | pkg/transport/strict.go:56-60 | back to the initial state |
| TransportObject.StrictReassembler.Push | pkg/transport/strict.go:62-94 | one segment, on the object's fields |
| AppFragment.EncodesIff | pkg/app/strict.go:19-52 | which fragments are encoded, and why others are not |
| AppFragment.FragmentOctets | pkg/app/strict.go:19-52 | the control octet with its literal bits, the function, the internal indications of functions from 0x80 on low octet first, and where the objects begin |
| AppFragment.DecodesIff | pkg/app/strict.go:54-80 | which octet strings decode, and why others do not |
| AppFragment.DecodeEncoded | pkg/app/strict.go:19-80 | an encodable fragment decodes to itself under any limit that admits its length |
| AppFragment.EncodeDecoded | pkg/app/strict.go:54-80 | a decoded fragment encodes to the octets it came from |
| AppFragment.SurvivesIffEncodable | pkg/app/strict.go:19-80 | a fragment that the encoder accepts is read back if and only if it has internal indications only in a response |
| AppFragment.ReassemblyIsHistory | pkg/app/strict_reassembler.go:41-93 | for every history, a push completes exactly with the run whose FIR arrived while idle, with constant function and UNS, consecutive numbers modulo 16, joined objects, and the OR of all IIN and CON |
| AppFragment.ErrorsAreHistory | pkg/app/strict_reassembler.go:41-93 | for every history, which error a fragment gets, in the order of the checks |
| AppFragment.IdleIsEmpty | pkg/app/strict_reassembler.go:28-93 | an idle reassembler holds empty accumulators, after every history |
| AppObject.StrictReassembler.constructor | pkg/app/strict_reassembler.go:23-25 | a new reassembler is idle |
| AppObject.StrictReassembler.Reset | pkg/app/strict_reassembler.go:28-37 | all nine fields back to idle |
| AppObject.StrictReassembler.Push | pkg/app/strict_reassembler.go:41-93 | one fragment, on the object's fields |
| AppObject.StrictReassembler.ExtendRun | pkg/app/strict_reassembler.go:62-93 | the part of Push after a run is under way |
| ObjectHeader.QualifierShape | pkg/app/strict_object.go:110-142 | the prefix widths and range shapes that accepted qualifiers can have |
| ObjectHeader.ReadWritten | pkg/app/strict_object.go:144-174 | a number that fits its width is read back, whatever follows |
| ObjectHeader.WriteRead | pkg/app/strict_object.go:144-174 | octets read as a number are what writing it gives |
| ObjectHeader.DecodeEncodedHeader | pkg/app/strict_object.go:34-108 | a canonical header is read back exactly, whatever follows it |
| ObjectHeader.EncodeDecodedHeader | pkg/app/strict_object.go:70-108 | a decoded header is canonical and encodes to its octets |
| ObjectOctets.QualifierKnown | pkg/app/strict_object.go:110-142 | the 25 qualifier octets that are understood, and the errors of the others |
| ObjectOctets.QualifierListed | pkg/app/strict_object.go:110-142 | the kind of range, its width, the index width and the size prefix of each qualifier octet |
| ObjectOctets.HeaderEncodesIff | pkg/app/strict_object.go:34-68 | exactly which headers are encoded |
| ObjectOctets.HeaderOctets | pkg/app/strict_object.go:34-68 | group, variation, qualifier, and where start, stop or count stand, low octet first |
| ObjectOctets.HeaderDecodesIff | pkg/app/strict_object.go:70-108 | exactly which octet strings begin with a header |
| Measurement.FormatsWellFormed | pkg/app/strict_measurement.go:271-380 | every format in the tables has a width that suits its kind, and binary formats have a quality |
| Measurement.SizesListed | pkg/app/strict_measurement.go:271-380 | the tables support exactly the listed groups and variations, and a point of each takes the listed number of octets |
| ObjectOctets.FormatsListed | pkg/app/strict_measurement.go:271-380 | for all groups and variations, the kind, width, quality and time of the format are the listed ones |
| ObjectOctets.ValueEncodesIff | pkg/app/strict_measurement.go:84-168 | which values each kind takes, and which quality bits; floating-point values must be finite |
| ObjectOctets.ValueOctets | pkg/app/strict_measurement.go:84-168 | the octets of a value of each kind: state bits, numbers low octet first, two's complement |
| ObjectOctets.PointEncodesIff | pkg/app/strict_measurement.go:84-168 | exactly which points are encoded |
| ObjectOctets.PointOctets | pkg/app/strict_measurement.go:84-168 | where quality, value and time of a point stand |
| Measurement.DecodeEncodedValue | pkg/app/strict_measurement.go:84-232 | values of every kind survive their octets, with the quality bits that share them |
| Measurement.EncodeDecodedValue | pkg/app/strict_measurement.go:171-232 | decoded values encode to their octets |
| Measurement.TimeRoundTrip | pkg/app/strict_measurement.go:253-269 | a 48-bit millisecond time is read back exactly |
| Measurement.TimeOctets | pkg/app/strict_measurement.go:253-269 | six octets read as a time are what writing it gives |
| Measurement.DecodeEncodedPoint | pkg/app/strict_measurement.go:84-232 | every canonical point of every format is read back exactly, whatever follows it |
| Measurement.EncodeDecodedPoint | pkg/app/strict_measurement.go:171-232 | a decoded point is canonical and encodes to its octets |
| PackedPoints.DecodeEncodedPacked | pkg/app/strict_measurement.go:552-610 | packed points are read back exactly, whatever follows them |
| PackedPoints.EncodeDecodedPacked | pkg/app/strict_measurement.go:585-610 | accepted packed octets are the encoding of their points: padding leaves no second form |
| ObjectBlock.DecodeEncodedBlock | pkg/app/strict_measurement.go:383-500 | every canonical block that the encoder accepts is read back, using exactly its own octets, whatever follows |
| ObjectBlock.EncodeDecodedBlock | pkg/app/strict_measurement.go:444-500 | a block decoded from n octets is canonical, within the limit, and encodes to exactly those octets |
| ObjectBlock.SurvivesIffCanonical | pkg/app/strict_measurement.go:383-500 | an encodable block within the limit decodes to itself if and only if it is canonical |
| ObjectBlock.DecodeBlocksExactly | pkg/app/strict_measurement.go:507-525 | the same for the loop, with any points and blocks left over from earlier |
| ObjectBlock.BudgetTotal | pkg/app/strict_measurement.go:507-525 | blocks that fit the budget one by one stay within the aggregate point limit |
| ObjectBlock.BlocksRoundTrip | pkg/app/strict_measurement.go:503-525 | decoding a list yields given blocks if and only if they are canonical, encode to exactly the input, and fit the block count and the remaining point budget one by one |
| ObjectBlock.BlocksWithinLimits | pkg/app/strict_measurement.go:503-525 | any success respects both aggregate limits |
| BlockOctets.BlockEncodesIff | pkg/app/strict_measurement.go:383-441 | exactly which blocks are encoded: header, number of points, selectors, packed points, indices |
| BlockOctets.PointsPlaced | pkg/app/strict_measurement.go:412-440 | the points lie one after the other, each behind its index prefix, all of the listed length |
| BlockOctets.OnePacked | pkg/app/strict_measurement.go:552-583 | in which octet and at which bits the value of each packed point is |
| BlockOctets.BlockLayout | pkg/app/strict_measurement.go:383-441 | where header, indices, values, times and packed bits of an encoded block stand |
| ObjectLoops.EncodePackedPoints | pkg/app/strict_measurement.go:552-583 | or-ing bits into a cleared buffer gives the specified packing, or the specified error |
| ObjectLoops.DecodePackedPoints | pkg/app/strict_measurement.go:585-610 | shifting and masking gives the specified points, and padding is checked |
| ObjectLoops.EncodeStrictObjectBlock | pkg/app/strict_measurement.go:383-441 | the block encoder's loop |
| ObjectLoops.DecodeStrictPoints | pkg/app/strict_measurement.go:479-499 | the block decoder's loop over points |
| ObjectLoops.DecodeStrictObjectBlock | pkg/app/strict_measurement.go:444-500 | the block decoder |
| ObjectLoops.DecodeStrictObjectBlocks | pkg/app/strict_measurement.go:503-525 | the list decoder's loop, which ends because every block takes at least three octets |
| SessionObject.Strict.constructor | pkg/session/strict.go:33-44 | a new session over a connection: fresh link state and channel, both reassemblers idle, segments numbered from zero |
| SessionObject.Strict.Reset | pkg/session/strict.go:51-60 | refused without a positive limit, else the link reset; the session's state stays |
| SessionObject.Strict.SendFragment | pkg/session/strict.go:97-118 | the loop over segments; the transport number advances only when all went out |
| SessionObject.Strict.SendApplication | pkg/session/strict.go:86-95 | refused without a positive limit, else the loop |
| SessionObject.Strict.TakeReceived | pkg/session/strict.go:135-162 | one received segment: transport push, decoding, confirmation, application push |
| SessionObject.Strict.ReceiveApplication | pkg/session/strict.go:122-164 | the receive loop, for every list of outcomes |
| Session.ConfirmingInbox | pkg/session/strict.go:146-155 | confirming a fragment leaves the link state, the unread input and the reassemblers alone |
| EndToEnd.FragmentCrosses | pkg/session/strict.go:97-164 | encode, segment, reassemble, decode: the fragment comes out with CON cleared exactly when no confirmation is due or the next write works, whatever transport state it meets |
| EndToEnd.FragmentsCross | pkg/session/strict.go:97-164 | all payloads of a list yield exactly the fragments whose confirmation is written, in order, for every outcome of the writes |
| EndToEnd.PrefixCrosses | pkg/session/strict.go:97-164 | part of the payloads yields a prefix of those |
| EndToEnd.ConfirmedIff | pkg/session/strict.go:146-155 | all fragments remain if and only if as many writes work as confirmations are asked for |
| SessionReceive.ConfirmationOctets | pkg/session/strict.go:146-150 | a confirmation is two octets: 0xC0 with the fragment's UNS bit and number, and 0x00 |
| SessionReceive.ConfirmationOutgoing | pkg/session/strict.go:146-155 | it goes out as one segment behind the octet 0xC0 with the next transport number, which then advances modulo 64 |
| SessionReceive.ConfirmWrites | pkg/session/strict.go:146-155 | confirming succeeds exactly when no confirmation is due or the next write works |
| SessionReceive.ReceiveEachAccepts | pkg/session/strict.go:122-164 | for all reads, writes and prior states, repeated ReceiveApplication calls return exactly what the payloads amount to whose answer was written, as the confirmations allow; the link state, the writes used and the answers written are stated too |
| SessionCalls.CallReturns | pkg/session/strict.go:122-164 | for every connection and session, one ReceiveApplication call returns with the first payload that completes an application fragment, is refused by a layer with that layer's error, or whose confirmation cannot be written; or the link fails first |
| SessionConfirms.ReceiveEachConfirms | pkg/session/strict.go:122-164 | for all reads, writes and prior states, the datagrams that repeated ReceiveApplication calls write are, in order, the confirmation of each decoded fragment with CON whose write works, octet by octet, and no others |
| SessionConfirms.ReceivesInLayers | pkg/session/strict.go:122-164 | for all payloads in all states, reception is transport reassembly, decoding, confirmation, and application reassembly of exactly the fragments that are confirmed or need not be; an error of one layer passes nothing on and does not touch the others |
| SessionConfirms.SendsUnconfirmed | pkg/session/strict.go:80-118 | for every fragment and all writes, sending it unconfirmed writes its segments in order up to the first write that fails; the number advances exactly when all went out; what cannot be encoded writes nothing |
| SessionConfirms.NewSessionListens | pkg/session/strict.go:33-44 | a new session is idle at its limit and numbers from zero |
| SessionPair.HandlesUnconfirmed | pkg/link/strict_state.go:181-185 | unconfirmed data of a mirrored peer is handed on and changes no link state |
| SessionPair.ExchangeConfirmed | pkg/link/strict_state.go:198-214 | over all transmissions of a request, the peer absorbs its payload from the first it hears, once, answered or not |
| SessionPair.ExchangeSent | pkg/link/strict_channel.go:158-215 | for all outcomes of the sender's writes and handler, a transaction succeeds exactly when the script lets an answer through within the attempts |
| SessionPair.ConverseSends | pkg/session/strict.go:106-115 | while payloads are sent one by one, the peer absorbs a prefix of them, and all if every send succeeded, for all outcomes of the sender's writes |
| SessionPair.SessionToSession | pkg/session/strict.go:97-164 | for every outcome of every write and handler on both sides: while frames with new data are answered, the peer returns a prefix of its confirmed fragments, and all of them if every send succeeded; if every send succeeded and the receiver held nothing before, it returns the whole list if and only if every frame with new data was answered and every confirmation written |
| SessionPair.AnswersCome | pkg/session/strict.go:97-164 | the answers that the sender reads are, in order, among those that the receiving session's own calls write |
| Conservation.AcceptAllConserves | pkg/session/strict.go:122-164 | the octets of all returned fragments are at most those of the payloads and those held before |
| Conservation.OutgoingAllContents | pkg/session/strict.go:97-118 | the payloads of a list of fragments carry exactly the octets of their encodings |
| Conservation.LossShows | pkg/session/strict.go:122-164 | if all payloads of a list were handled but an answer to new data was not written, a receiver that held nothing does not return the list |
| Conservation.HeldStandsIn | pkg/session/strict.go:130-164 | a receiver that holds a fragment's first payload from before returns the fragment without taking that payload again |
| PeersDelivery.FragmentsDelivered | pkg/session/strict.go:97-164 | in every reachable state and either direction: while answers to new data are written, a prefix of the confirmed fragments of the list that is being sent has been returned, and all of them once every payload is acknowledged; then, if the receiving side held nothing before, the whole list if and only if every answer to new data and every confirmation was written |
| PeersDelivery.MissShows | pkg/session/strict.go:122-164 | a payload whose answer was not written shows in what a receiving side that held nothing returns of a whole list |
| OlderTransport.ParseSerialized | pkg/transport/segment.go:25-60 | parsing a serialized segment gives the segment back |
| OlderTransport.SegmentsFull | pkg/transport/segment.go:63-92 | every segment but the last carries 248 octets, and none is empty |
| OlderTransport.AddCountAdvances | pkg/transport/layer.go:46-49 | the eight-bit update agrees with counting segments one by one |
| OlderTransport.AddCountVal | pkg/transport/layer.go:46-49 | the new number is the old one plus the segment count, modulo 64, for any count |
| OlderTransport.IdleDiscards | pkg/transport/reassembly.go:42-47 | segments without FIR are dropped without a trace while idle |
| OlderTransport.SendReceived | pkg/transport/layer.go:18-58 | one fragment sent to a receiver in any state is reported whole, or as exactly one overflow error if longer than 2048 octets, and leaves the receiver idle |
| OlderTransport.ListReceived | pkg/transport/layer.go:18-58 | for any list of fragments of any size the receiver reports those of 1 to 2048 octets in order and one overflow error per longer one |
| OlderTransport.FittingListReceived | pkg/transport/layer.go:18-58 | a list of fragments of 1 to 2048 octets is reported exactly, without an error |
| OlderAndStrict.SendsAsStrict | pkg/transport/layer.go:40-58 | what Send writes is what the strict segmentation makes from chunks of 248 octets, FIR and FIN exchanged; and the next number |
| OlderAndStrict.ProcessesAsStrict | pkg/transport/reassembly.go:35-78 | one segment with payload does to any reassembly what it does to a strict one of limit 2048, FIR and FIN exchanged; only the limit is reported as an error |
| OlderAndStrict.ReceivesAsStrict | pkg/transport/layer.go:18-36 | so does every sequence of them, sent by anyone |
| OlderAndStrict.HeaderOnly | pkg/transport/reassembly.go:35-78 | what a segment without payload does |
| OlderObject.SegmentLoop | pkg/transport/segment.go:63-92 | the segmentation loop |
| OlderObject.SerializeEach | pkg/transport/layer.go:51-55 | the serialization loop |
| OlderObject.Reassembler.Reset | pkg/transport/reassembly.go:81-85 | back to idle |
| OlderObject.Reassembler.Process | pkg/transport/reassembly.go:35-78 | one segment, on the object's fields |
| OlderObject.LayerObject.constructor | pkg/transport/layer.go:10-15 | a new layer is idle and numbers from zero |
| OlderObject.LayerObject.Send | pkg/transport/layer.go:40-58 | segments, the number update and the serialized frames |
| OlderObject.LayerObject.Receive | pkg/transport/layer.go:18-36 | one received segment |
| OlderObject.LayerObject.Reset | pkg/transport/layer.go:61-64 | back to a new layer |
| MasterTransport.ApplyAt | pkg/transport/master_transport.go:62-258 | an operation acts at the addresses it concerns like a transport layer of their own, and nowhere else |
| MasterTransport.ResetAndExpiry | pkg/transport/master_transport.go:168-227 | a reset station is as a new one; an expiry discards only what is under way |
| MasterTransport.Isolated | pkg/transport/master_transport.go:46-285 | for every interleaving, what is seen at one address, and its state, are those of a single layer driven by that address's operations |
| MasterTransport.SameAtAddress | pkg/transport/master_transport.go:46-285 | runs that agree on one address's operations agree on everything seen there |
| MasterTransport.ReceivedAlone | pkg/transport/master_transport.go:98-160 | with no expiry, reset or removal at an address, what receiving from it returns depends only on what was received from it |
| MasterTransport.DeliveredDespiteOthers | pkg/transport/master_transport.go:98-160 | an outstation's list of fragments is reported as specified while the master serves other addresses, and sends to and asks about this one, in between |
| MasterObject.Master.constructor | pkg/transport/master_transport.go:38-43 | no outstation is known |
| MasterObject.Master.GetOrCreate | pkg/transport/master_transport.go:46-60 | an unknown address gets its own new object; the others keep theirs |
| MasterObject.Master.Send | pkg/transport/master_transport.go:64-94 | as specified, on the map of objects |
| MasterObject.Master.Receive | pkg/transport/master_transport.go:98-160 | as specified, on the map of objects |
| MasterObject.Master.TimerExpired | pkg/transport/master_transport.go:168-179 | only a reassembly under way at that address is discarded |
| MasterObject.Master.Reset | pkg/transport/master_transport.go:206-227 | only that address is reset, if it is known |
| MasterObject.Master.ResetEach | pkg/transport/master_transport.go:230-244 | the loop resets every known outstation |
| MasterObject.Master.RemoveOutstation | pkg/transport/master_transport.go:248-258 | that address is forgotten |
| MasterObject.Master.IsReassembling | pkg/transport/master_transport.go:273-285 | whether a reassembly is under way; false for an unknown address |

## Left out

- LinkPeers.ExactlyOnceDelivery: assumes that a retransmission fires only with nothing of the exchange in flight (shown to be needed); a reset begins only while the initiator's expected bit is at its initial value and the other side has no request of its own (`LinkNeeds.ResetKeepsPeerInStepIff` and `LinkNeeds.ResetDropsPeersRequest` show what happens otherwise), and the other side starts nothing before the reset is over (`LinkNeeds.RefusalTakenForAnswer`); there is no step for unconfirmed data, which `SessionPair` adds on the sender's side.
- LinkPeers.NextKeeps: the test-link function is no step of the two-peer system, because no method of the code starts it; its handler is part of `LinkState.HandleSummary`.
- SessionPair.SessionToSession: one session sends and the other receives; frames are lost or arrive intact, since a damaged frame is an error that ends the transaction in the code (Frame's theorems say which damage is noticed). That the list comes out only if all answers and confirmations are written is stated for a receiver that holds no part of an earlier fragment, because held octets can stand in for a lost payload (`Conservation.HeldStandsIn`); the other direction has no such condition.
- ChannelObject.StrictChannel.Transact: a read that times out is taken to have consumed nothing. In the code a deadline can pass after part of a frame was taken, and the next read then starts in the middle of that frame: it finds no header (`FrameStream.ReadMidFrame`, for the first three octets) or whatever the rest of the frame happens to look like. The same holds for ChannelObject.StrictChannel.Receive and for the scripts of SessionPair.
- ChannelObject.StrictChannel.Answer: a missing user-data handler, which drops the data, is not distinguished from one that accepts it.
- ObjectLoops.DecodeStrictObjectBlock: the extra bound of the count by the machine's largest int is not modelled, because counts are at most 2 to the power 32.
- Measurement.TimeRoundTrip: times are whole milliseconds since the Unix epoch; time zones and sub-millisecond parts are not modelled.
- Error values of the object codec: the code returns unnamed errors with a message there; the model's names follow the code's checks in their order, and which inputs are refused is proved, but not which of these names each gets.
- Floating-point values are bit patterns with a finiteness predicate; conversion of floats is not modelled.
- Deadlines, contexts, cancellation, busy flags, locks and real timers: a timeout is a read outcome or a step that may come at any moment.
- The checks of a channel's own configuration (no connection, negative retries, no timeout).
- Statistics, logging, String and Clone methods, and copies made only against aliasing.
- GetStats and GetOutstationAddresses of the master transport.
- The convenience constructors for particular link frames.
- DescribeStrictPoint and the other accessors that only expose the format tables.
- The goroutine-driven master and outstation links, the TCP, UDP and QUIC channels, the router, the master, outstation and dnp3 packages, and the internal queue.
- The older application codecs (apdu, builder, parser, datapoints, controls, validation), which cover the ground of the strict codecs with weaker checks.
