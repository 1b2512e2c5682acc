# Verification of midi-transport

Dafny models of the byte codecs and lock-guarded state machines of `midi-transport`, with proofs of what they promise
over every input and every run. `dafny verify dfyconfig.toml` checks everything.

| module | models |
|---|---|
| `Bytes`, `Sinks` | bytes, machine integers, the few shared sequence functions; file descriptors and sockets written to |
| `BleAutomaton` | BLE-MIDI decoding as a byte-at-a-time automaton: the reference meaning of a packet stream |
| `BleDecoder` | the stateful `Decoder` class, with its index arithmetic and look-ahead, proved to compute that automaton |
| `BleFraming` | framing and SysEx chunking on the sending side |
| `BleRoundTrip` | what a receiver recovers: one message, a cut-off message, a fragmented SysEx, a whole session, a session after noise |
| `BleRunningStatus` | running status over any packet stream, told from the messages that come out |
| `BlePacking` | several messages in one packet: running status, real-time messages, SysEx, also cut over packets |
| `GattPlane` | the GATT data plane: the bodies of `Send` and `Close`, and the listening loop |
| `GattInterleaving` | any number of threads in `Send` and `Close`, interleaved packet by packet, against one decoder |
| `OscCodec`, `OscLoops` | the OSC 1.0 codec as functions, and the program's loops proved to compute them |
| `OscWire` | tags, values, padding and refusals in numbers, as on the wire |
| `OscRoundTrip` | encode then decode, decode then encode, unknown tags |
| `OscBundles` | nested bundles: round trip at any depth, counting, all-or-nothing, exactly which truncations decode |
| `OscTolerance` | exactly which truncations of a packet still decode to its message |
| `BrainHub` | the single-brain hub, as a class and over all interleavings |
| `PlaneTable`, `PlaneOwnership` | the BLE device table as classes, and who owns each data plane over all interleavings |

Conventions. Bytes are integers below 256, so the test `b & 0x80 != 0` reads `b >= 0x80`. Go's `int` is taken to be 64
bits wide, as on the supported hosts, so the unsigned 32-bit lengths the decoder reads never turn negative and the
branches for that case (osc/message.go:107 and 162) do not arise. float32 values are their 32-bit patterns. Slices the
program only reads are sequences. The clock (13-bit timestamps), the outcomes of writes to file descriptors and sockets,
and the points where threads interleave are arbitrary parameters.

Where the code falls short of its documentation, the code is modelled as it is; the exact condition is proved for all
inputs, and a lemma names an input that fails:

- blemidi/framing.go:41-46 says every packet is at most `mtu` bytes. For a limit of 4 or more this holds exactly when
  the message fits in one packet or is a SysEx (`BleFraming.MtuRespected`). A three-byte message with `mtu` 4 makes a
  five-byte packet (`BleFraming.MtuExceeded`).
- blemidi/framing.go:190-195 takes the byte 0xF7 for the terminator wherever it stands. A timestamp byte may have that
  value, and then the next timestamp is taken for a status byte. A message that follows a complete SysEx in the same
  packet is recovered exactly when the timestamp before the terminator is absent or another byte, or the message begins
  with its own timestamp byte and is a SysEx or repeats that byte throughout, which with data bytes below 0x80 means a
  message of one byte (`BlePacking.AfterSysEx`). A note-on is lost and a garbled message comes out
  (`BlePacking.NoteLost`); a clock message or a second SysEx can survive by that coincidence
  (`BlePacking.ClockSurvives`, `BlePacking.SecondSysExSurvives`). For whole packets, whatever they continue, hold and
  begin, the exact condition is `BlePacking.FeedPack`. The repository's own sender never builds such packets
  (`BlePacking.FramedIsPack`, `BleFraming.ChunksShape`), and its sessions round-trip for every timestamp
  (`BleRoundTrip.SessionRoundTrip`).
- blemidi/framing.go:183-184 says real-time messages may be interleaved anywhere. One is emitted, and changes nothing
  else, exactly when the decoder expects a timestamp there, or expects a status byte and the message equals its own
  timestamp (`BlePacking.RealTimeExactly`). Inside a SysEx it is dropped without trace (`BlePacking.RealTimeDropped`;
  for a concrete packet `BlePacking.ClockDropped`), or, if its timestamp reads 0xF7, it ends the SysEx.
- blemidi/gatt.go:79-83 returns early when a write fails. The receiver is then left inside a SysEx exactly when some but
  not all of a message's packets were written (`BleRoundTrip.AbortExact`, `GattInterleaving.TornExactly`), as after the
  first of three packets in `BleRoundTrip.SendTorn`. The next complete SysEx puts it right (`BleRoundTrip.Recovery`, and
  in every interleaving `GattInterleaving.ReceiverView`).
- osc/message.go:25-77 accepts strings with embedded NULs and blobs whose length needs more than 32 bits. They do not
  come back; everything else does (`OscRoundTrip.RoundTripExactly`). `OscRoundTrip.LostInTransit` names an argument, an
  address and a blob.
- blemidi/blemidi.go:123 says Close releases the data planes. It closes all of them exactly when no Connect holds
  an opened plane that is not yet installed and no Disconnect one that is not yet closed
  (`PlaneOwnership.CloseReleasesAll`). Such a Connect installs its plane afterwards, and nothing closes it
  (`PlaneOwnership.LateConnect`).

## Model

| member | source | states |
|---|---|---|
| BleDecoder.Decoder.Decode | blemidi/framing.go:128-188 | the decoding loop computes the automaton: same messages and same carried state, for every packet and every valid start state; it terminates and keeps the decoder valid |
| BleDecoder.Decoder.ConsumeSysex | blemidi/framing.go:196-216 | consumes SysEx bytes as the automaton does, up to the terminator or the packet's end |
| BleDecoder.DecodePacket | blemidi/framing.go:221-224 | the stateless form is one packet fed to a fresh decoder |
| BleAutomaton.DataLenIsMidi | blemidi/framing.go:228-246 | data byte counts agree with the MIDI 1.0 table, entry by entry |
| BleAutomaton.FeedAllValid | blemidi/framing.go:118-216 | over every packet stream: running status is 0 or a channel status, an open SysEx is F0 and data bytes, every emitted message is well formed |
| BleAutomaton.BoundedExpansion | blemidi/framing.go:128-216 | over every packet stream: at most one message and two bytes, emitted or pending, per byte received |
| BleAutomaton.RunSysEx | blemidi/framing.go:196-216 | an open SysEx grows by exactly the data bytes received until a 0xF7 |
| BleRunningStatus.RunningIsTold | blemidi/framing.go:118-188 | after any packet stream, running status is the status byte of the last emitted message that is not real-time if that is a channel message, none if it is a system message, and as before if there is no such message |
| BleRunningStatus.StatusStaysInForce | blemidi/framing.go:144-155 | after any short channel message, as many data bytes as it has, without a status byte and with or without a timestamp, are another message of its kind, in the same packet and at the start of the next |
| BleFraming.PacketTimestamps | blemidi/framing.go:31-104 | the 13-bit timestamp can be read back from the first packet, and every packet starts with the same header byte |
| BleFraming.FrameMessageMTU | blemidi/framing.go:47-62 | the packets of one message, their exact number when chunked, one unlimited packet for a limit below 4, and the limit for every SysEx |
| BleFraming.ChunkSysEx | blemidi/framing.go:65-104 | the chunking loop computes the chunk list; every chunk has a header and fits the limit |
| BleFraming.ChunkPayload | blemidi/framing.go:64-104 | without headers the chunks are timestamp, message up to its terminator, timestamp, F7: nothing lost, repeated or reordered |
| BleFraming.ChunkCount | blemidi/framing.go:64-104 | exactly the rounded-up quotient of message length plus two by mtu minus one |
| BleFraming.ChunksAreFewest | blemidi/framing.go:64-104 | no packetisation of the same bytes under the same limit uses fewer packets |
| BleFraming.MtuRespected | blemidi/framing.go:41-62 | for a limit of 4 or more, every packet fits the limit if and only if the message fits in one packet or is chunked |
| BleFraming.MtuExceeded | blemidi/framing.go:56-60 | a note-on at a limit of four bytes makes a packet of five |
| BleFraming.ChunksShape | blemidi/framing.go:64-104 | chunks are an opening packet, middle packets, and one closing packet that holds timestamp and terminator together |
| BleFraming.ChunksPrefix | blemidi/framing.go:64-104 | the first k chunks carry exactly the first k times (mtu minus one), less one, bytes of the message |
| BleRoundTrip.SysExAbsorbs | blemidi/framing.go:137-139 | packets without a 0xF7 never emit, overwrite or reopen an open SysEx; it grows by their data bytes in order |
| BleRoundTrip.FragmentationIndependence | blemidi/framing.go:111-117 | however a SysEx is cut into packets, empty ones included, and with any timestamps, the same single message comes out |
| BleRoundTrip.FramedDecodes | blemidi/framing.go:41-62 | a well-formed message survives framing for every limit and timestamp, 0xF7 included |
| BleRoundTrip.FramedDecodesExactly | blemidi/framing.go:41-62 | a message survives framing if and only if it is well formed |
| BleRoundTrip.FramedPrefix | blemidi/gatt.go:79-83 | after k of n packets nothing is emitted and the open SysEx is exactly the part of the message written |
| BleRoundTrip.AbortExact | blemidi/gatt.go:79-83 | a cut-off send leaves the receiver between messages if and only if none or all packets were written |
| BleRoundTrip.SendTorn | blemidi/gatt.go:79-83 | a concrete SysEx of three packets whose send, cut off after the first, leaves the receiver inside it |
| BleRoundTrip.SessionRoundTrip | blemidi/framing.go:111-117 | for any list of messages, each with its own limit and timestamp, one decoder recovers exactly the list if and only if all are well formed |
| BleRoundTrip.SessionDecodes | blemidi/framing.go:111-117 | and it ends valid and outside any SysEx |
| BleRoundTrip.SysExResets | blemidi/framing.go:128-216 | from every valid state, one complete SysEx, chunked or not and with any timestamp, leaves the decoder as if fresh |
| BleRoundTrip.Recovery | blemidi/framing.go:111-117 | after any packets whatever, torn sends included, one complete SysEx makes the whole session that follows come out exactly |
| BlePacking.FeedPack | blemidi/framing.go:133-207 | a packet that ends an open SysEx, holds any legally compressed messages and begins another SysEx means exactly what was put into it if and only if everything that follows a closing timestamp 0xF7 survives being read with its timestamp as status |
| BlePacking.StreamLossless | blemidi/framing.go:133-187 | any stream of such readable packets, compressed by running status where legal, cut at any message boundaries, and with SysEx cut over packets they share with other messages, decodes to exactly the messages and the final state |
| BlePacking.FramedIsPack | blemidi/framing.go:29-40 | what the program itself sends for a message in one packet, a SysEx without closing timestamp included, is such a packet and never ambiguous |
| BlePacking.RealTimeTransparent | blemidi/framing.go:179-186 | a real-time message inserted between items is legal if and only if the packet was, readable if and only if it was and a timestamp is expected there, and then leaves the receiver in the same state and adds exactly itself, in its place, to what is emitted |
| BlePacking.RealTimeExactly | blemidi/framing.go:183-184 | at any point of a packet, a real-time message is emitted without other effect if and only if a timestamp is expected, or a status byte equal to it; in an open SysEx it has no effect, or ends it if its timestamp is 0xF7 |
| BlePacking.RealTimeDropped | blemidi/framing.go:208-211 | a packet with a real-time message inside a SysEx is read exactly as the packet without it |
| BlePacking.ClockDropped | blemidi/framing.go:208-211 | a concrete packet whose clock message inside a SysEx never comes out |
| BlePacking.SystemCancelsRunning | blemidi/framing.go:156-160 | system-common messages and SysEx cancel running status: later data without a status byte is dropped, in this packet and at the start of the next |
| BlePacking.AfterSysEx | blemidi/framing.go:144-207 | a message of any kind after a SysEx that ends in the same packet, wherever it began and whatever stands behind, is the next to come out if and only if the closing timestamp is not 0xF7, or the message starts with its own timestamp byte and is a SysEx or repeats that byte throughout |
| BlePacking.NoteLost | blemidi/framing.go:199-207 | a concrete packet whose note-on after such a SysEx is lost, and what comes out instead |
| BlePacking.ClockSurvives | blemidi/framing.go:199-207 | a concrete packet whose clock message after such a SysEx survives by coincidence |
| BlePacking.SecondSysExSurvives | blemidi/framing.go:144-166 | a concrete packet whose second SysEx survives because its timestamp reads 0xF0 |
| GattPlane.GattDataPlane.Send | blemidi/gatt.go:65-85 | writes a prefix of the message's packets, all of them exactly when it reports success, stopping at the first refused write; for an MTU of 7 or more every SysEx packet leaves the three bytes of the ATT header free, and the number of packets is exact in terms of the MTU |
| GattPlane.PlanePackets | blemidi/gatt.go:71-79 | in terms of the negotiated MTU alone: the size and exact number of the packets, and that a message is split if and only if it is a SysEx, the MTU is at least 7, and message, timestamp, packet header and ATT header exceed it |
| GattPlane.GattDataPlane.Close | blemidi/gatt.go:136-142 | closes the descriptor once, however often it is called, writes nothing, and drops it |
| GattPlane.ChannelRoundTrip | blemidi/framing.go:251-260 | the channel put into the status byte of any channel-voice kind is read back |
| GattPlane.EventCarries | blemidi/gatt.go:118-122 | the event of a message carries all its bytes and the channel of its status byte, 0 for any message that is not channel-voice |
| GattPlane.EventRoundTrip | blemidi/gatt.go:118-122 | a channel message built from kind and channel arrives with that channel and all its bytes |
| GattPlane.InboundConcat | blemidi/gatt.go:114-117 | every characteristic value counts, in order, and signals without one are skipped |
| GattPlane.Listen | blemidi/gatt.go:107-129 | one event per message of the packet stream fed to a single decoder, in order, the k-th carrying exactly the bytes and the channel of the k-th message |
| GattInterleaving.MutualExclusion | blemidi/gatt.go:65-85 | in every interleaving at most one thread is in a critical section, a sender's fd stays open, and, in states that are not torn, a close finds the receiver between messages |
| GattInterleaving.ReceiverView | blemidi/gatt.go:65-85 | in every reachable state that is not torn the decoder has emitted exactly the messages delivered, since the start or since the first SysEx completed after the last cut-off send, and holds exactly the part of the current SysEx already written |
| GattInterleaving.DeliveredInLockOrder | blemidi/gatt.go:65-129 | if no send was cut off part-way, the events received carry, one by one and with their channels, the accepted messages in lock order, less the ones whose first write was refused |
| GattInterleaving.ClosedStaysQuiet | blemidi/gatt.go:68-70 | while the plane is closed nothing is written and no send is accepted |
| GattInterleaving.CloseIsFinal | blemidi/gatt.go:136-142 | from the moment a close has closed the descriptor, whatever the threads do, nothing more is written |
| GattInterleaving.CloseRuns | blemidi/gatt.go:136-142 | a close can run whenever the lock is free, and a send after it is refused without writing |
| GattInterleaving.TornExactly | blemidi/gatt.go:79-83 | a failed write is torn exactly when the receiver is left inside a SysEx |
| GattInterleaving.SysExMends | blemidi/framing.go:199-207 | a torn state is put right by a SysEx that goes out whole, and by no other step |
| GattInterleaving.SendSection | blemidi/gatt.go:65-85 | the whole of a send, from taking the lock over any number of writes to success or a refused write, is a run of the step machine with the log and outcome that the method Send is proved to have |
| GattInterleaving.SendRuns | blemidi/gatt.go:65-85 | any idle thread can send any well-formed message whenever the plane is open and the lock free, and all its packets are then in the log |
| OscLoops.ReadStringLoop | osc/message.go:203-215 | the scanning loop reads up to the first NUL and skips the padding there is |
| OscLoops.AppendBlob | osc/message.go:225-232 | appends length, bytes and padding |
| OscLoops.EncodeMessageLoop | osc/message.go:25-77 | the loop over two accumulators computes the encoding or the first error |
| OscLoops.DecodeMessageLoop | osc/message.go:120-190 | the loop over the tags computes the recursive decoding, errors included |
| OscLoops.ReadArgCase | osc/message.go:136-187 | one tag against the remaining bytes, never past their end |
| OscLoops.DecodePacketLoop | osc/message.go:81-90 | terminates on every byte string with the decoding or an error |
| OscLoops.DecodeBundleLoop | osc/message.go:97-118 | the element loop computes the recursive decoding |
| OscCodec.Pad4 | osc/message.go:235 | the least multiple of four that is not smaller |
| OscRoundTrip.U32RoundTrip | osc/message.go:217-223 | big-endian 32-bit values come back modulo 2^32, and every int32 exactly |
| OscWire.EncodedArg | osc/message.go:31-73 | the OSC 1.0 table: for every kind of argument whether it can be sent, its tag as a number, and its bytes as big-endian words or padded data |
| OscWire.AcceptedExactly | osc/message.go:25-73 | the encoder accepts exactly the addresses that start with byte 47 and the arguments that have a tag, integers in 32 bits included |
| OscWire.EncodedMessage | osc/message.go:28-77 | a packet is the padded address, the padded tag string of a comma and the tags in order, and the arguments in order |
| OscWire.ReadArgTable | osc/message.go:136-187 | for every tag number and any bytes: the value read, with byte order and padding, what is left, or which error |
| OscWire.BundleMark | osc/message.go:82 | a packet is a bundle if and only if it starts with these eight numbers |
| OscWire.BareAddress | osc/message.go:120-130 | an address without terminator is an error, one with nothing behind it a message without arguments |
| OscWire.TagsRequired | osc/message.go:131-134 | anything behind the address other than a terminated string that starts with a comma is an error |
| OscWire.ShortArgumentRefused | osc/message.go:137-174 | a tag short of bytes makes the whole message that error, whatever arguments came before |
| OscRoundTrip.ReadEncodedString | osc/message.go:194-215 | an encoded NUL-free string is read back, leaving exactly what follows its padding |
| OscRoundTrip.DecodeInFront | osc/message.go:135-189 | encoded arguments decode to themselves in front of any tags and bytes, leaving the decoder exactly there |
| OscRoundTrip.RoundTripExactly | osc/message.go:24-90 | an encoded message decodes to the same address and normalised arguments if and only if its strings are NUL-free and its blob lengths fit 32 bits |
| OscRoundTrip.LostInTransit | osc/message.go:56-61 | a concrete argument, address and blob that are accepted and do not come back |
| OscRoundTrip.EncoderAccepts | osc/message.go:25-73 | encoding succeeds if and only if the address and all arguments are acceptable, and otherwise reports the first bad one |
| OscRoundTrip.EncodingLength | osc/message.go:74-76 | a packet is a whole number of 32-bit words, and exactly this many |
| OscRoundTrip.DecodeMessageCanonical | osc/message.go:120-190 | whatever the bytes, decoded strings are NUL-free and arguments have canonical kinds |
| OscRoundTrip.Canonicalisation | osc/message.go:120-190 | every accepted message with a '/'-led address can be encoded again and decodes to itself |
| OscRoundTrip.UnknownTagEndsArguments | osc/message.go:183-187 | an unknown tag after the arguments ends them without error, whatever follows |
| OscBundles.BundleRoundTrip | osc/message.go:81-118 | every finite tree of bundles with representable messages decodes to its messages from left to right |
| OscBundles.BundleRoundTripExactly | osc/message.go:81-118 | a tree of messages the encoder accepts comes back in full if and only if all of them are representable |
| OscBundles.PacketCanonical | osc/message.go:81-118 | whatever the bytes, every message decoded at any depth has NUL-free strings and canonical arguments |
| OscBundles.MessageCount | osc/message.go:81-118 | five times the number of messages is at most the packet length plus four |
| OscBundles.NeverPartial | osc/message.go:104-117 | an element in front adds its messages in front of the others', or makes the bundle an error |
| OscBundles.BundleExactly | osc/message.go:102-117 | behind any elements that decode, a length beyond the end or an element in error makes the whole bundle that error; with fewer than four bytes behind them the bundle is their messages in order |
| OscBundles.ShortBundle | osc/message.go:99-101 | a bundle of fewer than sixteen bytes is an error |
| OscBundles.BundleCut | osc/message.go:97-118 | for every tree and every n, the first n bytes of its bundle decode if and only if they end where an element does or fewer than four bytes later, and then to exactly the messages of the elements they hold |
| OscTolerance.TruncationExactly | osc/message.go:167-174 | a truncated packet decodes to its message if and only if only padding is missing (or, without arguments, the whole tag string) |
| OscTolerance.CutBody | osc/message.go:149-174 | argument bytes cut anywhere decode as before if only the last padding is missing and are an error otherwise |
| BrainHub.Hub.Connect | midicontrol/hub.go:75-81 | the protocol's step: the new connection replaces any other |
| BrainHub.Hub.Disconnect | midicontrol/hub.go:86-93 | the protocol's step: clears the connection only if it is still the one passed in |
| BrainHub.Hub.SendJSON | midicontrol/hub.go:130-146 | the protocol's step, and which of the four outcomes, what is written and what is counted |
| BrainHub.Hub.Connected | midicontrol/hub.go:96-100 | whether the protocol's state has a connection |
| BrainHub.Hub.GetStatus | midicontrol/hub.go:158-174 | a snapshot of connection, remote address and counter |
| BrainHub.HubProtocol | midicontrol/hub.go:55-93 | in every interleaving the target is the latest brain while it has not disconnected, every frame went to the target of its moment, the counter counts frames |
| BrainHub.StaleDisconnect | midicontrol/hub.go:83-93 | a late Disconnect of a replaced connection changes nothing |
| BrainHub.NoFrameAfterDisconnect | midicontrol/receiver.go:86-99 | no frame goes to a connection after its Disconnect |
| PlaneTable.Transport.SetPlane | blemidi/blemidi.go:350-363 | the table step: installs under the upper-cased address, closes exactly the plane it replaces, and changes no other device |
| PlaneTable.Transport.TakePlane | blemidi/blemidi.go:251-264 | the table step: the plane leaves the table with its link data, paths and names stay, and no other device changes |
| PlaneTable.Transport.Disconnect | blemidi/blemidi.go:251-271 | two table steps: removes and closes the endpoint's plane, if it has one, and asks for the BLE link to be dropped only if the raw-GATT fallback owned it |
| PlaneTable.Transport.PlaneFor | blemidi/blemidi.go:296-304 | the installed plane, in any letter case of the address |
| PlaneTable.Transport.DeviceLocked | blemidi/blemidi.go:308-315 | finds or creates the device without touching any plane |
| PlaneTable.Transport.Close | blemidi/blemidi.go:124-132 | the table step: closes every installed plane exactly once, in some order, empties the table of planes, and keeps what is known of the devices |
| PlaneTable.UpperExactly | blemidi/blemidi.go:253 | two ids are the same address if and only if they differ at most in the case of the 26 letters |
| PlaneTable.CaseBlind | blemidi/blemidi.go:251-304 | a plane installed or taken under one id is found, or gone, under exactly the ids that differ from it at most in letter case, and all other ids find what they found before |
| PlaneOwnership.ExactlyOnePlace | blemidi/blemidi.go:216-271 | in every interleaving each opened plane is in exactly one place, closed at most once |
| PlaneOwnership.Conservation | blemidi/blemidi.go:251-315 | with no plane in the hands of a Connect or Disconnect, the planes opened are those installed and those closed, disjointly |
| PlaneOwnership.CloseReleasesAll | blemidi/blemidi.go:123-132 | closing the transport leaves no opened plane unclosed if and only if no Connect holds an opened plane not yet installed and no Disconnect one not yet closed |
| PlaneOwnership.LateConnect | blemidi/blemidi.go:216-222 | a concrete run in which a Connect that holds an opened plane installs it after Close, and nothing closes it |
| PlaneOwnership.ConnectRuns | blemidi/blemidi.go:216-222 | a Connect can always run: its plane is then found and the plane it replaces is closed |
| PlaneOwnership.DisconnectRuns | blemidi/blemidi.go:251-271 | so can a Disconnect of an endpoint with a plane: it is then gone and closed |

## Left out

- BlueZ and D-Bus discovery, pairing and GATT resolution, ALSA and USB MIDI ports, hidraw, UDP sockets and timers: foreign calls.
- The HTTP receivers and the WebSocket accept and read loops; of midicontrol/receiver.go only the connect and disconnect lifecycle is used.
- JSON encoding of frames: a frame is a byte string, or absent when it could not be marshalled.
- GattInterleaving.ReceiverView: models callers that send well-formed messages; the others do not survive framing at all (`BleRoundTrip.FramedDecodesExactly`).
- Clock values: timestamps are arbitrary 16-bit parameters, and the hub's connection and send times are dropped.
- Rounding of float64 arguments: an argument of that type carries the bits of the float32 it is converted to.
- Error texts and log lines; errors are distinguished by kind, with the index or sizes they report.
- Partial writes: a write to a file descriptor or socket takes the whole packet or frame, or nothing.
- PlaneTable.Upper: models upper-casing of ASCII addresses only, which is what endpoint ids are.
- Overflow of the hub's 64-bit frame counter.
- The BLE link itself: whether `disconnectDevice` races with a reconnect.
- OscCodec.DecodeU32: lengths on hosts with a 32-bit int, where values from 2^31 on turn negative and are refused.
