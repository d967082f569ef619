# XboxHeadsetBridge: a verified model

This project models the parts of XboxHeadsetBridge that carry its correctness
and proves, in Dafny 4.11, what they promise.

- **The audio ring** (`Ring.dfy`, `RingSteps.dfy`). A ring shared by three
  parties without locks. Its meaning is a `Queue`: the whole history of frames
  and a read index. The class `Ring` holds the fixed buffers; reads are a lossy
  FIFO with a latency ceiling. `RingSteps` takes the playback ring apart into
  single loads, stores and sample copies of writer, reader and `StartIO`, in
  every interleaving.
- **The GIP wire layer** (`Gip.dfy`, `Sequence.dfy`, `AuthTransport.dfy`,
  `Interruptions.dfy`, `BridgeAuth.dfy`, `Probe.dfy`). The header codec, the
  fragmenting sender under acknowledgements, write failures and messages in
  between, the bridge's reassembler and the probe's.
- **Authentication** (`GipAuth.dfy`, `AuthState.dfy`, `AuthSession.dfy`,
  `Acknowledgements.dfy`). The handshake state machine, its transcript and its
  PRF, the three parts of the receive callback at work together, and the
  acknowledgements that drive them. SHA-256, HMAC, RSA and ECDH are
  parameters (`Crypto`); nothing is assumed of them but result sizes.
- **Audio data** (`Playback.dfy`, `AudioPackets.dfy`, `StereoPlayback.dfy`,
  `OutputStage.dfy`, `Capture.dfy`). Fading across breaks, 16-bit packets, whole
  runs in stereo down to the bytes, upsampling.
- **The HAL side** (`HeadsetDevice.dfy`). The device clock, starting and
  stopping IO, mix and input operations.

Code that updates state is a class or a loop whose contract equates the new
state with a specification function of the old one; the theorems are about
those functions and about all their runs. `dafny verify dfyconfig.toml` checks
the project.

## Conventions

- Samples are `real`. Frame counters are unbounded naturals; the source's are 64 bits.
- `Line.accept` says for each write attempt whether `gipusb_write` accepts it;
  it is arbitrary. `Env` holds what a handshake call gets from outside.
- `byte` is a number below 256. `val | 0x80` and `<< 7 * i` on disjoint bits are sums.
- `(float)(n - i) / (n + 1)` and the like are exact quotients.

## Where the code and its comments part

- `src/gip.c:69` says that a header has an even length. A chunk header with
  offset 0 has an odd one: the encoder emits a byte the count leaves out
  (`Gip.EvenExactly`). The bridge never sends one (`AuthTransport.IdealPacketsFit`).
- `src/bridge.c:375-376` calls the bridge the only one to move the read index.
  `StartIO` also stores it. The index still never goes back on any schedule on
  which `StartIO` does not store while a read is copying and no read publishes
  between the load and the store of `StartIO` (`RingSteps.ReadIndexMonotone`).
  Wherever one of these overlaps begins it can go back
  (`RingSteps.StoreDuringCopyGoesBack`, `RingSteps.PublishDuringStartGoesBack`).
- `shared/ring.h:216` skips forward when the writer is far ahead. With a
  request for more than 32768 frames the skip goes too far back, and slots are
  read that hold later frames (`RingModel.FaithfulExactly`).
- `src/bridge.c:231` takes a message of exactly 58 bytes from the transfer
  buffer while a transfer is unfinished (`AuthTransport.ShortPayloadExactly`).
  The first hello is such a message. It goes out as it is in exactly the
  sessions with no transfer unfinished at that point
  (`AuthSession.HelloUnchangedExactly`); a certificate record that comes before
  the start leaves one unfinished (`AuthSession.HelloReplaced`).
- `src/bridge.c:231-238` goes on with a transfer whose first fragment was
  refused. A receiver that has a transfer of the same length open then delivers
  its own old first 58 bytes with the rest of the message
  (`AuthTransport.WithoutFirst`).
- `src/probe.c:259-269` takes any empty packet for the end of a transfer,
  `src/bridge.c:707-717` only one at the total length. The two agree on exactly
  the transfers of a nonempty message with no empty fragment before its end
  (`Probe.ReassemblersAgreeExactly`).
- The PRF of `src/gip_auth.c:18-35` has the shape of P_hash in section 5 of
  RFC 5246 but steps its chain by plain SHA-256; the two agree for exactly the
  first 32 bytes (`GipAuth.PrfIsPHashExactly`).

## Model

| member | source | states |
|---|---|---|
| RingModel.RingTrim | shared/ring.h:182-191 | Trims at most 64 frames, never cuts below what the read needs plus the 1536-frame ceiling, and stops short of 64 only on reaching the ceiling; the three together fix the result |
| RingModel.ReadIsFaithful | shared/ring.h:209-241 | Unless the reader is both lapped and asks for more than 32768 frames, a read hands out one contiguous stretch of history that starts at or after the read index and ends at or before the write index |
| RingModel.FaithfulExactly | shared/ring.h:216-219 | On a history of distinct frames, a read is such a stretch if and only if it asks for at most 32768 frames or the reader was not lapped |
| RingModel.ReadInNumbers | shared/ring.h:182-241 | Which frames any read takes, by the backlog and the request: the latest after more than 32768 frames, otherwise the oldest, with at most 64 skipped and never below 1536 beyond the request |
| RingModel.ReadRefinesLossyFifo | shared/ring.h:209-241 | Every read is a step of a lossy FIFO: waiting frames split into lost, delivered and rest; a short read loses nothing and empties the queue; a loss is at most 64 frames leaving at least 1536, or a lap that empties the queue |
| RingModel.StepConservesFrames | shared/ring.h:194-241 | One write or read keeps the account: waiting plus written is lost plus delivered plus still waiting, in order |
| RingModel.RunConservesFrames | shared/ring.h:194-241 | Over any run of writes and reads, frames waiting plus frames written are exactly the discarded and delivered blocks in order plus the frames still waiting |
| RingModel.RunConservesCounts | shared/ring.h:194-241 | The same as counts: written equals delivered plus discarded plus change of backlog |
| RingModel.LatencyCeiling | shared/ring.h:28-42 | If at most f frames are written between reads of f frames, the backlog after k reads is at most max(1536, b - 64k), for every f and every start |
| RingModel.CeilingReached | shared/ring.h:28-42 | 488 such reads bring any backlog up to a full ring down to the ceiling |
| RingModel.CeilingKept | shared/ring.h:182-191 | Once at the ceiling the backlog stays there even with bursts of f + 64 frames between reads |
| RingModel.LatencyExact | shared/ring.h:182-191 | For a writer that keeps pace without lapping the reader, the backlog is exactly max(1536, b - 64k) |
| RingModel.StoreFrame | shared/ring.h:198-203 | Storing the next frame in its slot keeps the buffer equal to the last 32768 frames of the history |
| RingModel.FrameInSlot | shared/ring.h:228-233 | The slot of any position holds the latest frame stored there |
| RingModel.Ring.constructor | shared/ring.h:89-99 | A fresh ring has empty channels and IO stopped |
| RingModel.Ring.OutWrite | shared/ring.h:194-206 | Appends the interleaved frames to the playback history, for any number of frames, and touches nothing else |
| RingModel.Ring.TakeFrames | shared/ring.h:228-233 | The copy loop delivers the slot contents of the planned positions and leaves the rest of the destination alone |
| RingModel.Ring.PadSilence | shared/ring.h:234-237 | The padding loop zeroes exactly the frames that were not there |
| RingModel.Ring.OutRead | shared/ring.h:209-241 | For every number of frames: delivers the planned block then silence, returns its size, and moves the read index to the end of the block |
| RingModel.Ring.InWrite | shared/ring.h:244-254 | Appends mono samples to the capture history |
| RingModel.Ring.InRead | shared/ring.h:257-285 | The capture read: planned block, silence, count and read index |
| RingSteps.StepKeepsInv | shared/ring.h:194-241 | Every step of writer, reader or StartIO keeps the invariant: cells hold the newest stored samples, each copied sample was the newest in its cell, indices stay ordered |
| RingSteps.ConcurrentExactness | shared/ring.h:194-241 | In every interleaving each copied sample is the newest one stored in its cell; if the writer was at most one ring past the position it is the sample of that position, which was published before the reader loaded the write index |
| RingSteps.BlockExact | shared/ring.h:209-241 | A finished nonempty copy equals the planned block of history if the writer has not gone a whole ring past its start |
| RingSteps.UndisturbedCopyIsSequential | shared/ring.h:228-233 | A sample copied while the writer has stored nothing since the reader's load is the one the sequential read finds in the slots of that plan; which plan that is, `RingSteps.ReadDelivers` says from the schedule |
| RingSteps.ReadPublishes | shared/ring.h:211-239 | For every read on every schedule, whatever writer and StartIO do meanwhile: the index it publishes is the one a sequential read of the queue its two loads saw would leave, trim and lap skip included; or the loaded read index again if StartIO put that beyond the loaded write index |
| RingSteps.ReadDelivers | shared/ring.h:209-241 | The same for the samples: a read that publishes has copied as many as the sequential read of that queue delivers, and exactly those if the writer has stored nothing since the loads, or no more than a whole ring past the block |
| RingSteps.StartPublishes | plugin/XboxHeadset.c:268-275 | StartIO, load and store apart, publishes the write index that held at its load |
| RingSteps.WritePublishes | shared/ring.h:194-206 | A write, load, stores and publication apart, adds exactly its samples in order and publishes that many frames more |
| RingSteps.OverrunReplacesSamples | shared/ring.h:198-203 | A reachable run in which the writer is one sample further than allowed and the reader gets a sample from another position |
| RingSteps.IndexSafety | plugin/XboxHeadset.c:268-275 | With StartIO's load and store interleaved anywhere, the published read index never exceeds the published write index |
| RingSteps.GuardIsNeeded | shared/ring.h:211-213 | A reachable state in which the reader holds a write index below the read index it is about to load, so the guard is what keeps the available count from wrapping |
| RingSteps.ScheduleTells | plugin/XboxHeadset.c:268-275 | Whether a read is copying and whether StartIO is between load and store can be read off the schedule alone |
| RingSteps.ReadIndexMonotone | shared/ring.h:239 | On every schedule with StartIO in which StartIO does not store while a read copies and no read publishes between its load and store, the read index never goes back |
| RingSteps.StoreDuringCopyGoesBack | plugin/XboxHeadset.c:269-270 | From every reachable state in which a read is copying, a StartIO store inside the copy can make the read take the index back |
| RingSteps.PublishDuringStartGoesBack | plugin/XboxHeadset.c:269-270 | From every reachable state in which StartIO is between load and store, a read publishing in between can be taken back by the store |
| RingSteps.ReadIndexCanGoBack | plugin/XboxHeadset.c:269-270 | Both overlaps can be reached from the start, and each takes the published read index back |
| Gip.VarintRoundTrip | src/gip.c:6-35 | For values that fit, decoding the encoding with any bytes after it gives back the value and its length |
| Gip.PaddedRoundTrip | src/gip.c:69-73 | Padding with a zero group leaves the value and adds one to the length, also when the value already fills four bytes and the decoder never reads the fifth |
| Gip.VarintLengthBounds | src/gip.c:10-20 | The length the encoder returns is 1 to 5 by the five ranges of a 32-bit value |
| Gip.EncodeVarint | src/gip.c:6-21 | Stores the groups of the value, at most four bytes, changes nothing else and returns 5 from 2^28 on |
| Gip.DecodeVarint | src/gip.c:23-35 | The loop finds the value and its exit count plus one, for any bytes and any length, negative included |
| Gip.ActualHeaderLength | src/gip.c:38-57 | The two counting loops give the length before padding, with nothing counted for a zero chunk offset |
| Gip.EncodeLength | src/gip.c:67-73 | For any field, stores the packet length and, exactly when the header would be odd, the mark and the padding byte; from 2^28 on the fifth counted byte keeps its old value but for the mark |
| Gip.EncodeHeader | src/gip.c:59-79 | Returns the encoded length and leaves the buffer, for any fields, as the header written into it; where the fields fit that is exactly the header bytes, and no other byte changes |
| Gip.HeaderFits | src/gip.c:59-79 | Whatever the buffer held, encoding a header whose fields fit writes exactly its bytes |
| Gip.DecodeHeaderBytes | src/gip.c:81-100 | The decoder computes the decoding function on every input, short and truncated ones included |
| Gip.DecodeHeader | src/gip.c:81-100 | Whatever is decoded has fields below 2^28 and a zero offset without CHUNK |
| Gip.HeaderRoundTrip | src/gip.c:59-100 | Decoding an encoding followed by any bytes gives the header, offset 0 without CHUNK, and the exact encoded length |
| Gip.SurvivesExactly | src/gip.c:59-100 | A header that could be on the wire is the decoding of some bytes if and only if its fields are below 2^28 |
| Gip.EvenExactly | src/gip.c:38-79 | The encoded length is even if and only if the header is not a chunk with offset 0, and then it is the counted length rounded up |
| Gip.HeaderBytesInjective | src/gip.c:59-79 | Two headers with the same encoding mean the same |
| Gip.HeaderInNumbers | src/gip.c:59-79 | The bytes of the headers the bridge sends: four for short packets, six with the padding where it falls for audio packets and for chunks |
| Gip.VarintInNumbers | src/gip.c:6-21 | The bytes of any value, by its groups of seven bits, cut off after four |
| Sequence.NonzeroNumbering | src/bridge.c:203-205 | The k-th authentication or audio packet has number 1 + k mod 255 |
| Sequence.ResetNumbering | src/bridge.c:183-189 | Control packets, which skip 0 differently, are numbered alike |
| AuthTransport.ReceiveFragment | src/bridge.c:694-706 | A fragment that comes before the whole message has, empty or not, extends the reassembled prefix exactly, from any stale state if it is the first, and delivers nothing |
| AuthTransport.ReceiveCompletes | src/bridge.c:707-717 | The first packet after the whole message delivers exactly the message and clears the state |
| AuthTransport.TransferDelivers | src/bridge.c:689-718 | Any chunked transfer of up to 4096 bytes, however cut, empty fragments included, delivers exactly its message, once, at the first packet after the whole message (the terminator if no fragment is empty), from any state; an empty message is never delivered |
| AuthTransport.ReceiveInNumbers | src/bridge.c:689-718 | What any packet that holds its header does to a receiver in any state, by the numbers in it: other commands nothing; chunks are stored only if they end within 4096 bytes |
| AuthTransport.AckInNumbers | src/bridge.c:768-779 | Whether and with which 16-bit length a header is acknowledged |
| AuthTransport.AckReportsProgress | src/bridge.c:768-779 | Every requested acknowledgement reports the contiguous length received, which is the reassembler's own count |
| AuthTransport.SendReaches | src/bridge.c:206-238 | Sending a long message writes the first packet of the ideal transfer and records that it is out, whether or not it was accepted |
| AuthTransport.BurstKeeps | src/bridge.c:270-297 | A burst, whichever write is refused, sends a stretch of the ideal transfer and stays in step with it; it stops only at a refusal or after the last fragment |
| AuthTransport.AcknowledgedKeeps | src/bridge.c:241-298 | The same for whatever an acknowledgement sets off, the terminator included |
| AuthTransport.ExactlyOnce | src/bridge.c:196-298 | After an accepted first fragment, for every schedule of acknowledgements and refusals the accepted packets are a prefix of the ideal transfer, all with one nonzero sequence number; two acknowledgements finish it if nothing is refused |
| AuthTransport.EndToEnd | src/bridge.c:196-298 | What was accepted, fed to a receiver in any state, delivers the message exactly once if the transfer finished and nothing otherwise |
| AuthTransport.FirstRefused | src/bridge.c:231-238 | If the first fragment is refused, the sender still goes on with the rest of the ideal transfer, in order, and stays in step with it |
| AuthTransport.WithoutFirst | src/bridge.c:694-717 | What any receiver makes of a transfer without its first fragment: at the terminator, if and only if it has a transfer of that length open and holds nothing beyond it, its own first 58 bytes with the rest of the message; otherwise nothing |
| AuthTransport.EndToEndWithoutFirst | src/bridge.c:196-298 | The same end to end, for a refused first write and every later schedule of acknowledgements and refusals |
| AuthTransport.IdealHeaderFields | src/bridge.c:279-284 | Command, options, sequence, length and offset of every packet of the ideal transfer: only the first and the last fragment ask for an acknowledgement |
| AuthTransport.IdealPacketsFit | src/bridge.c:215-231 | Every header of a transfer has exactly 6 bytes and every packet fits the 64-byte endpoint, which the first one fills |
| AuthTransport.TransferInNumbers | src/bridge.c:206-298 | Every packet of the transfer of a long message byte for byte: f0 or e0 with the total length and the first 58 bytes, then a0 with each further 58 and their position, b0 with the rest, a0 alone at the total length |
| AuthTransport.ShortPacketFits | src/bridge.c:226-231 | A message of at most 58 bytes has a 4-byte header and fits |
| AuthTransport.ShortInNumbers | src/bridge.c:215-231 | The packet of a message of at most 58 bytes: command 06, options 30 if an acknowledgement is wanted and 20 if not, number, length, message; decoded, it is no chunk and has a header of 4 bytes |
| AuthTransport.ShortOnWire | src/bridge.c:203-233 | The bytes the endpoint gets when such a message is sent, with the number the counter gives |
| AuthTransport.OversizeRefused | src/bridge.c:203-207 | A message of more than 4096 bytes is refused without a write; any other costs exactly one |
| AuthTransport.ShortMessageDelivered | src/bridge.c:196-239 | A message of 1 to 58 bytes arrives in one packet, unless it has 58 bytes while a transfer is unfinished |
| AuthTransport.ShortPayloadExactly | src/bridge.c:231 | A short message goes out unchanged for every content of the transfer buffer if and only if it does not have 58 bytes while a transfer is unfinished |
| AuthTransport.ShortMessageInterrupts | src/bridge.c:231-232 | A short message sent during a transfer sets its offset to its own length; the transfer stays in step if and only if that is the offset already or no fragment is left |
| Interruptions.ContinuationReceived | src/bridge.c:270-294 | A continuation from any offset the receiver has reached, a repeated one included, leaves it with a longer or equal prefix of the message and delivers nothing |
| Interruptions.AnswerInStep | src/bridge.c:196-298 | Every acknowledgement or short message, accepted or refused, keeps sender and receiver in step and delivers exactly what is due |
| Interruptions.InterruptedDelivery | src/bridge.c:196-298 | After an accepted first fragment, for every mix of acknowledgements, short messages and refusals, a receiver in any state delivers exactly the accepted short messages and, with the terminator, the long one: once if the transfer got to its end, otherwise not at all |
| Interruptions.InterruptedEnds | src/bridge.c:241-298 | If nothing is refused, two acknowledgements finish a transfer whatever short messages came in between |
| BridgeAuth.Sender.constructor | src/bridge.c:148-155 | The state after reset_counters |
| BridgeAuth.Sender.Write | src/bridge.c:233 | A write takes one attempt and, if accepted, puts exactly the packet on the wire |
| BridgeAuth.Sender.BuildPacket | src/bridge.c:285-286 | Header and payload are laid out one after the other in the packet buffer |
| BridgeAuth.Sender.TakeSequence | src/bridge.c:203-205 | Takes the next nonzero number |
| BridgeAuth.Sender.AuthSend | src/bridge.c:196-239 | Buffer, counters and wire after sending a message of any length, oversize ones refused |
| BridgeAuth.Sender.BuildFirst | src/bridge.c:206-231 | A long message is kept for its transfer, and the first packet is put together, from the argument or from the transfer buffer |
| BridgeAuth.Sender.AuthSendNextChunk | src/bridge.c:241-298 | The loop and the terminator branch do what the specification of an acknowledgement says |
| BridgeAuth.Sender.SendFragment | src/bridge.c:271-294 | One turn of the loop: the fragment is written, and the offset moves on only if it was accepted |
| BridgeAuth.Reassembler.OnRx | src/bridge.c:689-779 | The receive buffer updated in place, the completed message and the acknowledged length |
| BridgeAuth.Reassembler.StoreChunk | src/bridge.c:694-717 | The chunk branch: copy, high-water mark and the message handed over |
| Acknowledgements.AckBytesTell | src/gip.h:143-150 | Number, command, length and rest can be read back from an acknowledgement's 13 bytes |
| Acknowledgements.ControlSender.BuildControl | src/bridge.c:176-194 | A control packet byte for byte, with the number given or the counter's, which moves on over 0 |
| Acknowledgements.ControlSender.SendAck | src/bridge.c:767-779 | The acknowledgement of a received header is those 13 bytes with that header's number and command |
| Acknowledgements.TransferAnswered | src/bridge.c:767-779 | To the packets of a long message the receiver answers the first 58 bytes, then at the last fragment the whole message, and nothing to the rest |
| Acknowledgements.AckLayout | src/bridge.c:722-724 | A packet with a four-byte header acknowledges authentication traffic if and only if it has command 01, at least five bytes of payload, and 06 as the second of them |
| Acknowledgements.AckRecognised | src/bridge.c:722-724 | The bridge's and the probe's acknowledgements decode to a 4-byte header, complete no message, and are taken for one of authentication traffic if and only if they are for command 06 |
| Acknowledgements.AckHandled | src/bridge.c:722-732 | What such a packet sets off in a session, whatever it reports: for command 06 the transfer goes on with its number, and then [1, 0] is sent if 08 was the last command and authentication is open; for any other command nothing |
| Acknowledgements.TwoAcksFinish | src/bridge.c:241-298 | After any event that hands a long message over, two such packets fed to the session finish its transfer if nothing is refused: exactly the packets of the transfer went out, and any receiver of them gets exactly the message |
| Probe.HandleFragment | src/probe.c:232-258 | A nonempty fragment extends the probe's prefix exactly, completes nothing, and its acknowledgement reports the contiguous length and the rest |
| Probe.ProbeDelivers | src/probe.c:232-269 | The probe delivers once in any transfer, at the first empty packet, with zeros for what has not come; the message itself, at the terminator, if no fragment is empty |
| Probe.ReassemblersAgreeExactly | src/probe.c:232-269 | On any gap-free transfer of at most 4096 bytes, from any states, probe and bridge have delivered the same after every packet if and only if the message is not empty and every empty fragment stands where the whole message has been sent |
| Probe.AcknowledgementsAgree | src/probe.c:81-95 | For every data fragment both acknowledge the same contiguous length, and the probe's remaining count is the total minus the bridge's length |
| Probe.ProbeAckInNumbers | src/probe.c:81-95 | Whether the probe acknowledges a header, and the two 16-bit numbers it reports |
| Probe.EmptyFragmentSeparatesThem | src/probe.c:249-269 | An empty fragment before the end of the message, an empty start packet included, completes a message filled up with zeros for the probe and nothing for the bridge |
| Probe.Prober.HandlePacket | src/probe.c:203-270 | The heap buffer, counters, completed message and acknowledgement after one packet |
| Probe.Prober.Store | src/probe.c:245-269 | The chunk branch on the heap buffer |
| GipAuth.PrfIsPHashExactly | src/gip_auth.c:18-35 | The PRF equals P_hash of section 5 of RFC 5246 for all functions and inputs if and only if at most 32 bytes are asked for |
| GipAuth.PrfInBlocks | src/gip_auth.c:18-35 | Block i of the output, cut off at its end, is the HMAC of a, label and seed, where a is the HMAC of label and seed hashed i times by SHA-256 |
| GipAuth.MasterSecretInBlocks | src/gip_auth.c:110-119 | The 48 bytes of a master secret are a whole HMAC block and half of the next, over the label "Master Secret" as bytes, the host's nonce and the client's |
| GipAuth.FinishInBlocks | src/gip_auth.c:159-168 | The 32 bytes of a host finish are one HMAC block over "Host Finished" as bytes and the transcript hash |
| GipAuth.FindKey | src/gip_auth.c:260-263 | Finds the first place where the embedded key prefix stands, or none if there is none |
| GipAuth.RollBackNeverWraps | src/gip_auth.c:245-252 | The rollback subtraction wraps for no content of the transcript buffer if and only if the record part has at most 4096 bytes |
| GipAuth.StepKeeps | src/gip_auth.c:66-274 | Every call keeps hash and buffer consistent and within 8192 bytes, adds exactly its contribution if there is room and less if not, tracks the last command and never takes authentication back |
| GipAuth.CertificateKeeps | src/gip_auth.c:245-269 | The append, rollback and late append around a certificate amount to secret first, certificate second, the latter only on success |
| GipAuth.Run | src/gip_auth.c:85-274 | After every run of calls the transcript hash is the hash of the buffer and the buffer is not overrun, overflow and every error return included |
| GipAuth.TranscriptMeaning | src/gip_auth.c:37-55 | The transcript after a run is the fold of what was received and sent, read off from outside, if and only if no call ran out of room; otherwise it is shorter for good |
| GipAuth.StepInTurn | src/gip_auth.c:184-203 | The finish commands and the requests after them are issued only on an acknowledgement of the right previous command |
| GipAuth.CommandsInOrder | src/gip_auth.c:46-76 | In every run each of 0x02, 0x07, 0x08, 0x26, 0x27 comes directly after its predecessor, and the last command is the last one issued |
| GipAuth.FinishRequestedAfterFinish | src/gip_auth.c:184-203 | Last command 0x08 means the last three were 0x05, 0x07, 0x08; 0x27 means 0x25, 0x26, 0x27 |
| GipAuth.CompletedAtMostOnce | src/gip_auth.c:66-76 | Completion by bare acknowledgement succeeds at most once in a session, and only after 0x05, 0x07, 0x08 |
| GipAuth.HostFinishBody | src/gip_auth.c:159-168 | A host finish carries the PRF of the master secret over the hash of exactly the transcript before it |
| GipAuth.HandshakeV1 | src/gip_auth.c:85-274 | With any device that answers as it should, version 1 sends exactly these seven messages, with keys and hashes spelled out, and ends authenticated |
| GipAuth.HandshakeV1WithFinish | src/gip_auth.c:234-240 | The same ended by the device's finish record 08; the acknowledgement after it sends nothing more |
| GipAuth.HandshakeV2 | src/gip_auth.c:85-274 | The same for version 2, upgrade record included |
| GipAuth.MessagesInNumbers | src/gip_auth.c:46-64 | Requests and full records byte for byte |
| GipAuth.SendsInNumbers | src/gip_auth.c:37-55 | A full record is sent if and only if its body has at most 4078 bytes, and goes into the transcript if and only if that then has at most 8192 |
| GipAuth.StartInNumbers | src/gip_auth.c:85-94 | The first hello byte for byte |
| GipAuth.CompletesInNumbers | src/gip_auth.c:66-76 | What completion on a bare acknowledgement sends, returns and changes, by the last command and whether authentication is open |
| GipAuth.OtherRecords | src/gip_auth.c:172-204 | Which records are too short, which ask for an upgrade and what the upgrade is answered with, and which are ignored, by their bytes |
| GipAuth.AcksInNumbers | src/gip_auth.c:184-203 | The request an acknowledgement is answered with, by the last command and nothing else |
| GipAuth.FinishesInNumbers | src/gip_auth.c:184-203 | The host finish an acknowledgement of a secret or a public key is answered with |
| GipAuth.RecordsInNumbers | src/gip_auth.c:204-244 | The answer to a data record, by its command and the size of its body |
| GipAuth.ExchangeInNumbers | src/gip_auth.c:219-224 | The public key a device's key is answered with, and the master secret made of the shared one |
| GipAuth.CertificatesInNumbers | src/gip_auth.c:242-272 | A certificate is answered with the secret encrypted to the 270 bytes from the first 30 82 01 0a on; a body over 1024 bytes, a missing or cut key, or a failing library ends the call without a message |
| GipAuth.MessageSizes | src/gip_auth.c:46-64 | Every message has 2 to 274 bytes, only the first hello has exactly 58, and only a secret or a public key has more |
| GipAuth.CommandsOfMessages | src/gip_auth.c:46-64 | The commands issued over a run are those of its messages |
| AuthState.FillPrf | src/gip_auth.c:18-35 | The block loop fills the buffer with the stream of blocks over the stepped chain |
| AuthState.LocateKey | src/gip_auth.c:260-263 | The search loop finds the first match |
| AuthState.GipAuthState.constructor | src/gip_auth.c:78-83 | The initial state |
| AuthState.GipAuthState.UpdateTranscript | src/gip_auth.c:37-44 | Appends in place and rehashes, or changes nothing when there is no room |
| AuthState.GipAuthState.SendFullRecord | src/gip_auth.c:46-55 | Packet layout, last command and transcript of a full record |
| AuthState.GipAuthState.RequestRecord | src/gip_auth.c:57-64 | A request sets the last command and leaves the transcript |
| AuthState.GipAuthState.CompleteOnAck | src/gip_auth.c:66-76 | Completion on a bare acknowledgement |
| AuthState.GipAuthState.StartHandshake | src/gip_auth.c:85-94 | The first hello |
| AuthState.GipAuthState.SendRsaSecret | src/gip_auth.c:96-126 | The RSA branch with its error returns, the one after the master secret is set included |
| AuthState.GipAuthState.ExchangeEcdh | src/gip_auth.c:128-157 | The ECDH branch with its error returns |
| AuthState.GipAuthState.SendHostFinish | src/gip_auth.c:159-168 | The host finish over the current transcript hash |
| AuthState.GipAuthState.HandleAck | src/gip_auth.c:184-203 | The reply to an acknowledgement by last command |
| AuthState.GipAuthState.HandleData | src/gip_auth.c:204-244 | The reply to a data record by command, short bodies refused |
| AuthState.GipAuthState.HandleCertificate | src/gip_auth.c:245-272 | The certificate branch after the rollback |
| AuthState.GipAuthState.ProcessRecord | src/gip_auth.c:170-274 | Classification of a record, transcript update and rollback in place, and the reply |
| AuthSession.StepSeesTheEndpoint | src/bridge.c:196-239 | No handshake message is refused for its size, so the result the handshake acts on is the endpoint's |
| AuthSession.SessionReassembles | src/bridge.c:689-718 | The records processed in a session are exactly the messages the reassembler delivers from its packets, in order |
| AuthSession.SessionIsRun | src/bridge.c:689-733 | Whatever packets arrive and whichever writes fail, the handshake goes through the run of exactly the calls its events lead to, in order; the records in it are what the reassembler makes of the packets; its messages, with the acknowledgements in between, are exactly the orders the sender carries out |
| AuthSession.SessionCompletesAtMostOnce | src/bridge.c:722-732 | In a session at most one acknowledgement completes authentication, and only when 0x05, 0x07, 0x08 are the last commands handed to the sender |
| AuthSession.AckCompletesAfterFinish | src/bridge.c:722-732 | An acknowledgement packet that brings authentication about finds 0x05, 0x07, 0x08 as the last three commands handed to the sender in that session |
| AuthSession.HelloUnchangedExactly | src/bridge.c:231 | In every session the hello goes out as it is if and only if no transfer is unfinished at the start (or the write is refused) |
| AuthSession.HelloReplaced | src/bridge.c:231 | After any usable certificate in fragments before the start, the start sends the first 58 bytes of the secret in place of the hello |
| AuthSession.HelloCanBeReplaced | src/bridge.c:689-720 | A session from its very beginning, of packets only, after which the handshake is not started and the start does not send the hello |
| AuthSession.Session.OnRx | src/bridge.c:689-733 | Reassembler, handshake and sender together after one packet |
| AuthSession.Session.ProcessMessage | src/bridge.c:719-720 | A reassembled record goes through handshake and sender |
| AuthSession.Session.Begin | src/bridge.c:108-121 | The first hello goes out through the sender |
| Playback.FadeSteps | src/bridge.c:339-350 | A fade leaves of the step at its start the fraction offset / (n + 1) and takes the same fraction from each step it covers, and nothing after |
| Playback.SkippedExactly | src/bridge.c:372-378 | The skipped test is true if and only if the read discarded a frame |
| Playback.TransferSteps | src/bridge.c:380-384 | Every step of a transfer, across the seam included, is exactly the signal's own step less offset / (n + 1) within the n frames of a fade and nothing after; a cut block has no step of its own at its start, silence none at all |
| Playback.TransferLast | src/bridge.c:389 | The carried sample stays in [-A, A], and is the last frame played after a full read |
| Playback.FillFollows | src/bridge.c:366-389 | After a transfer the carried sample is its last one, and the last frame played if it was full; the read index is at the end of its block |
| Playback.FillKeeps | src/bridge.c:366-389 | The carried sample stays within [-A, A] from transfer to transfer |
| Playback.PlaybackContinuity | src/bridge.c:352-389 | Over any run of writes and transfers, every emitted sample after the first, seams included, differs from the one before by exactly the history's step there and the share of the fade that covers it, and a transfer is cut exactly if it does not continue a full one |
| Playback.PlaybackRange | src/bridge.c:339-389 | For samples in [-A, A] the carried sample stays there over any run, and no fade spreads out a difference of more than 2A |
| Playback.PlaybackSteps | src/bridge.c:339-389 | For samples in [-a, a], over any run, no emitted step, seams included, exceeds the history's own by more than 2a / (min(m, 64) + 1) where m frames after a break are faded; the step into a block after a break, and every step of silence, is at most that alone, and from the 65th on there is none |
| Playback.PlaybackExactly | src/bridge.c:339-389 | Every emitted sample over any run: the history's, or silence, plus for the first min(m, 64) frames after a break what is left of the difference to the sample before it, (min(m, 64) - k) / (min(m, 64) + 1) of it at the k-th |
| Playback.CleanPlayback | src/bridge.c:352-389 | Without skips or short reads the emitted stream is the history, sample for sample |
| AudioPackets.S16Range | src/bridge.c:423-427 | Clamped samples convert into [-32767, 32767], symmetrically, and within one step of the scaled value |
| AudioPackets.S16Exactly | src/bridge.c:423-427 | Samples beyond full scale become 32767 and -32767; in between the scaled value is truncated towards zero |
| AudioPackets.PcmRoundTrip | src/bridge.c:417-428 | Reading the little-endian bytes back gives every converted sample |
| AudioPackets.FrameBytes | src/bridge.c:417-428 | The four bytes of each frame: left sample then right, the first byte of each counting once and the second 256 times |
| AudioPackets.AudioHeaderLength | src/bridge.c:785-792 | The header of a 192-byte packet has 6 bytes, so the packet size is 198 |
| AudioPackets.PacketDecodes | src/bridge.c:407-431 | Each of the eight packets decodes to an audio header of length 192 with its share of the PCM data |
| AudioPackets.AudioInNumbers | src/bridge.c:407-431 | Each packet byte for byte: 60 20, its number, c0 81 00, and the PCM bytes of its 48 frames |
| AudioPackets.TransferRoundTrip | src/bridge.c:407-431 | The decoded payloads of a transfer concatenate to the PCM data of all 384 frames |
| AudioPackets.SessionNumbering | src/bridge.c:412-414 | Packet p of transfer j has number 1 + (8j + p) mod 255, for unboundedly many transfers |
| StereoPlayback.LaneDeliver | src/bridge.c:370 | Taking a channel of a stereo read is reading the channel |
| StereoPlayback.StageLanes | src/bridge.c:352-389 | Each channel of a stereo run is a run of its own, with the same reads and the same breaks |
| StereoPlayback.StereoContinuity | src/bridge.c:352-389 | Over any stereo run, each sample of each channel follows the one before by exactly the history's step and the fade's share |
| StereoPlayback.StereoSteps | src/bridge.c:339-389 | The same bound on every step of both channels of a stereo run |
| StereoPlayback.StereoExactly | src/bridge.c:339-389 | And the same samples, on both channels |
| StereoPlayback.RunRoundTrip | src/bridge.c:407-431 | Over any run, the decoded payloads of all packets concatenate to the PCM data of all frames sent |
| StereoPlayback.PacketNumbers | src/bridge.c:407-431 | The k-th packet of a session, however long, decodes to an audio header of length 192 with number 1 + k mod 255 |
| StereoPlayback.CleanRunCarriesHistory | src/bridge.c:352-432 | Over any run with no skip and no short read, the payloads are exactly the history from the read index at the start to the read index at the end, as 16-bit PCM |
| OutputStage.FadeLane | src/bridge.c:344-348 | The in-place loop computes the fade on its channel and leaves the other channel alone |
| OutputStage.Declick | src/bridge.c:339-350 | Both channels are faded from their own samples |
| OutputStage.StoreSample | src/bridge.c:421-427 | Clamp, scale, truncate and store low byte first |
| OutputStage.StoreFrame | src/bridge.c:420-428 | The channel loop stores the four bytes of its frame and nothing else |
| OutputStage.StoreFrames | src/bridge.c:419-430 | The frame loop stores the PCM bytes of its frames and nothing else |
| OutputStage.OutputStage.constructor | src/bridge.c:359-362 | The static state before the first transfer |
| OutputStage.OutputStage.TakeSequence | src/bridge.c:412-414 | The do-while takes the next nonzero number |
| OutputStage.OutputStage.PackPacket | src/bridge.c:407-431 | One packet in its place in the transfer buffer |
| OutputStage.OutputStage.PackTransfer | src/bridge.c:407-431 | The whole buffer is the eight packets in order |
| OutputStage.OutputStage.FadeBreaks | src/bridge.c:380-389 | Which breaks are faded, from where, and what is kept for the next transfer |
| OutputStage.OutputStage.PlayFrames | src/bridge.c:366-389 | Ring read and fades on both channels |
| OutputStage.OutputStage.FillOutXfer | src/bridge.c:352-432 | One step of the stereo stage: ring, carried state, sequence counter, all bytes of the buffer, and the counters |
| Capture.DecimationInverts | src/bridge.c:516-523 | Every other output sample gives back the input, up to 64 samples |
| Capture.InsertedSamples | src/bridge.c:517-522 | An inserted sample is the midpoint of its neighbours; the last one repeats the last input, or with more than 64 samples is the midpoint to the first one that does not go out |
| Capture.UpsampledRange | src/bridge.c:516-523 | No output leaves the range of the input |
| Capture.UpsampledPair | src/bridge.c:516-522 | Each turn of the loop brings the input sample and the midpoint to the next, the last one held |
| Capture.LevelRoundTrip | src/bridge.c:515-518 | Converting a captured level back gives every 16-bit sample, but for -32768, which is clipped |
| Capture.UpsampledInNumbers | src/bridge.c:511-523 | The number of output samples, at most 128, and every one of them in numbers |
| Capture.MicRoundTrip | src/bridge.c:490-512 | Whatever 16-bit samples a headset packs, with any metadata and padding, are read back as they were |
| Capture.MicInNumbers | src/bridge.c:490-512 | Exactly which packets bring samples, and which bytes each sample is made of |
| Capture.CaptureInOrder | src/bridge.c:525-528 | With no trim and no lap, a read returns what was waiting and then the packets' blocks in arrival order |
| Capture.AcceptedPcm | src/bridge.c:490-509 | The checks let through the PCM bytes of complete audio packets and nothing else |
| Capture.Upsample | src/bridge.c:511-523 | The resampling loop and its output limit of 128 |
| Capture.CaptureStage.ProcessIncomingMic | src/bridge.c:490-529 | One packet appends exactly its upsampled block to the capture history |
| HeadsetDevice.NeverAhead | plugin/XboxHeadset.c:301-326 | For any nondecreasing call times of a session the reported host time is never later than now |
| HeadsetDevice.TimesExactly | plugin/XboxHeadset.c:301-326 | Sample time is 2048 frames a period, and host time is that many frames after the anchor, rounded down once, however many periods have gone by |
| HeadsetDevice.ReportsMonotone | plugin/XboxHeadset.c:301-326 | Reported sample and host times never go back, and sample time moves by at most one period a call |
| HeadsetDevice.KeepsUp | plugin/XboxHeadset.c:301-326 | If calls come at least once per period of at least one tick, now is always strictly before the next boundary |
| HeadsetDevice.CatchesUpExactly | plugin/XboxHeadset.c:316-317 | One call leaves now before the next boundary if and only if now was before the boundary after next |
| HeadsetDevice.NothingStale | plugin/XboxHeadset.c:268-275 | After repositioning, everything taken by any later reads was written later |
| HeadsetDevice.Device.StartIO | plugin/XboxHeadset.c:254-281 | The first client anchors the clock and moves both read indices to the write indices; later clients change neither |
| HeadsetDevice.Device.StopIO | plugin/XboxHeadset.c:283-299 | The last client, and only it, stops IO |
| HeadsetDevice.Device.GetZeroTimeStamp | plugin/XboxHeadset.c:301-326 | One step of the clock and the times reported after it; if it moves, it moves by one period, to a host time that has come |
| HeadsetDevice.ScaleMix | plugin/XboxHeadset.c:370-373 | Every sample of the mix is multiplied by the gain, also when a gain of 1 skips the loop, and nothing else changes |
| HeadsetDevice.Device.WriteMix | plugin/XboxHeadset.c:364-374 | The frames appended to the playback history are the old mix times the gain, sample by sample, left first; the read index stays |
| HeadsetDevice.Device.ReadInput | plugin/XboxHeadset.c:375-377 | The buffer gets captured samples and then silence |

## Left out

- AuthTransport.ExactlyOnce: assumes that no other message is sent while the transfer runs; after a short one fragments are sent again (`Interruptions.InterruptedDelivery`).
- Interruptions.InterruptedDelivery: the messages in between are short; another long one takes the buffer over and starts its own transfer (`AuthTransport.SendReaches`).
- AuthTransport.TransferDelivers: states delivery for transfers without gaps only; the reassembler keeps a high-water mark, not a record of what has arrived.
- BridgeAuth.Reassembler.OnRx: requires that the source does not read beyond the packet. A header that runs past its packet makes the payload length wrap; it is modelled where nothing is read, not where the copy would leave the buffer.
- Acknowledgements.ControlSender.BuildControl: payloads of at most 58 bytes and options without CHUNK, which is all that is ever sent this way; the endpoint's answer is not modelled.
- Probe.Prober.HandlePacket: requires that a chunk whose header runs past the packet announces no data, for the same reason; allocation of the chunk buffer always succeeds.
- AuthState.GipAuthState.ExchangeEcdh: the many failures of the elliptic-curve library are two, of the public point and of the shared secret; objects leaked on error paths are not modelled.
- Fixed arrays of struct gip_auth other than the transcript buffer are sequences, since they are only ever replaced as a whole.
- The step-level model treats the playback ring under sequentially consistent interleaving; the capture ring has the same loops with one sample per frame, and the relaxed, acquire and release orders are not told apart.
- Wrap-around of the 64-bit frame counters and of counters kept for display.
- Rounding of floating-point numbers, in samples, in gain and in the device clock.
- Mapping, creating and restarting the shared memory, and a ring that is not mapped.
- USB plumbing, isochronous scheduling, delays, the waits of a session's setup and the reconnect loop.
- Cryptographic primitives, certificate validity, secrecy and authenticity.
- Core Audio properties, the volume scale (the gain is a parameter of WriteMix), battery, volume and mute reports, logging.
- Packets other than authentication, acknowledgement and audio.
- The tone, microphone and status tools and the menu bar application.
