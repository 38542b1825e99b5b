# Chimera data plane, verified

A Dafny model of the generated-protocol data plane: the genome generator, the codecs it drives, stream and datagram
framing, the handshake, packet mode with its anti-replay window, ACK/SKIP loss recovery, the server multiplexer, and a
few smaller cores around them (address pool, client routes, interval algebra, Internet checksum, rate limiter).
`dafny verify dfyconfig.toml` checks everything.

## How it is put together

| files | what they hold |
|---|---|
| `Bytes`, `Words`, `Aead` | integer encodings and byte readers; 64-bit words as bit strings; the ideal AEAD |
| `Genome`, `Compile`, `FrameFormat`, `EncodingRules`, `EncodingDraws`, `RoundTripLimits` | message layouts, the static check, what a frame of a layout is, when encoding cannot fail, what the encoders make of a random source, and exactly which fields break the round trip |
| `ReplayWindow`, `WindowRuns`, `Sequence`, `MessageCodec`, `Framing`, `Cover` | windows as sets and over runs, nonces, the codec object with its word-array bitmap, frame boundaries, printable covers |
| `HandshakeModel`, `HandshakeSystem`, `HandshakeLimits` | one endpoint of the handshake, two of them over a hostile network that also holds the frames of other handshakes, and what goes wrong with those |
| `Handshake`, `HandshakePairs` | the endpoint object that refines the model, and two such objects as a run of it |
| `LossRecovery`, `LossLimits`, `Tunnel`, `TunnelPairs` | ACK/SKIP as a two-party protocol over a lossy network, exactly where its promises end, the tunnel object that refines it, and two such objects with the datagrams between them |
| `Drbg`, `Designs`, `Generator`, `GeneratedProtocols` | the random source and its samplers, the design as a function of a tape of draws, the generator that computes it, and what generation and encoding promise together |
| `Mux`, `Replay`, `TokenBucket` | the server's tables with one method per critical section, the replay table, the rate limiter |
| `Pool`, `Route`, `Intervals`, `Netpkt` | address pool, three-index route table, route-list intervals, echo request and checksum |

Code that updates objects in place is modelled by classes and loops. Each such method is proved against a function on
values (`Accept`, `Recv`, `Received`, `Published`, `Registered`, ...), and the theorems over whole runs are lemmas
about those functions.

Assumptions about code outside the model, all of them hypotheses of the lemmas that need them:

- An AEAD is a pair of functions with `Correct`: a ciphertext opens exactly when it is the sealing of what it opens to,
  and is 16 bytes longer. `NonceBound` adds that it opens under one nonce only. `IdealAeadExists` shows that the two
  can be met together. Unforgeability is a hypothesis about the datagrams delivered (`Unforged`): what opens under a
  bootstrap key was sealed under it, by one of the two endpoints or in another handshake of the same pre-shared key.
- X25519 and the key derivation are functions with `Agrees`: both ends compute one secret, and public keys have 32 bytes.
  `SessionKeysBind` alone takes the derivation to be free of collisions (`Separates`).
- HMAC-SHA256 is any function with 32-byte results. SHA-256 digests are opaque keys.
- The network delivers what it likes: frames get lost, repeated and reordered, and a handshake is given any bytes at
  all, recorded frames of earlier handshakes included. Time is an input.

Where a promise turned out to hold only under a condition, the condition is proved exact:

- Accepting a sequence number twice is possible across an effective `AdvanceBaseTo`, and only then
  (`OpenExactlyWhenFresh`, `AtMostOnce`); `DataAcceptedTwice` is a run of the protocol in which a late SKIP lets one data
  frame through twice.
- Two handshake endpoints stay in agreement exactly on the runs whose every delivery is harmless: it changes nothing, or
  declares the very frame the peer has sealed for the awaited step (`AgreementExactly`, `DeliveryExact`). Unforged
  datagrams are harmless unless they declare a frame that another handshake sealed for that step
  (`UnforgedIsHarmless`). Those exist: both bootstrap keys come from the pre-shared key alone
  (`internal/compiler/compile.go:50-58`) and every endpoint starts with an empty window, so a client given a recorded
  reply of an earlier server finishes with another transcript and that server's key (`OldReplyDisagrees`).
  `docs/PROTOCOL.md:163` says recorded handshake frames are rejected; the code checks only the server's first datagram.
- Nonces do not repeat under one session key or within one handshake (the two `NoncesDistinct`); across handshakes of
  one pre-shared key they do, with different plaintexts (`NonceRepeats`); the "no nonce reuse" of
  the source's `README.md:138` holds for the messages of one handshake.
- A datagram that no protocol takes holds no slot (`Datagram`), but leaves a creation time behind: n of them from n
  addresses leave n (`Flooded`), and `internal/tunnel/mux.go:736-738` says junk cannot exhaust memory.
- A layout that passes the static check need not round-trip; the fields and the layouts that do are exactly the
  well-formed ones (`TakesBackExactly`, `LayoutTakesBackExactly`), and under one validated layout the codec sends half a
  key as payload (`ValidationIsNotEnough`). The generator emits only layouts that round-trip.
- With SKIPs that take effect within `late` frames and at most `burst` frames between two checks, the sender stays inside
  the receiver's window on every run if and only if `late + burst <= 2048`, or `burst` is 0 (`InsideExactly`). One lost
  SKIP and one lost frame can wedge a direction for ever (`OneLostSkipWedges`, `WedgedForEver`).
- The route indexes lose consistency exactly when a connection leaves the empty address (`RegisterKeeps`,
  `RemoveKeeps`); callers in `cmd/chimerad/main.go` never register it.

## Model

| member | source | states |
|---|---|---|
| AeadModel.IdealAeadExists | internal/compiler/codec.go:104-115 | the assumptions about AEADs (exact opening, 16 bytes of tag, one nonce per ciphertext) can be met together |
| Genome.ValidateMessage | internal/compiler/compile.go:111-184 | the counting loops accept a layout if and only if it has exactly one length field with a subject, admitted encodings, and a pad_length field exactly when its padding mode needs one |
| Genome.ValidateEncrypted | internal/compiler/compile.go:144-164 | the loop over the encrypted section decides admission of every field and counts the pad_length fields |
| Compile.Compile | internal/compiler/compile.go:30-86 | compiling succeeds on exactly the genomes with a key, a known schema, a handshake, validated layouts and one key size, which is 16, 24 or 32 bytes by cipher, and keeps the layout table |
| Compile.GeneratedCompiles | internal/genome/generator.go:114-154 | every generated genome compiles under every non-empty key |
| FrameFormat.IntRoundTrip | internal/compiler/codec.go:691-732 | for every encoding and endianness a value that fits its width decodes to itself |
| FrameFormat.IntFits | internal/compiler/codec.go:691-732 | an integer field encodes exactly the values below 2^8, 2^16, 2^24 or 2^32, and only with an endianness |
| Bytes.ValueByPlace | internal/compiler/codec.go:713-732 | both decoders read positional notation base 256, most or least significant byte first |
| FrameFormat.TakeFieldOfWire | internal/compiler/codec.go:376-415 | an encrypted field followed by anything decodes to its value and its exact size |
| FrameFormat.WireOfTakeField | internal/compiler/codec.go:376-415 | conversely, whatever decodes as a field is the encoding of the decoded value |
| FrameFormat.DecodeExact | internal/compiler/codec.go:185-268 | a frame decodes to a message under a nonce if and only if it is a frame of that message under that nonce, for every layout, field order, endianness and length subject |
| FrameFormat.DecodeFrame | internal/compiler/codec.go:185-268 | the round trip: every frame of a message decodes to the same payload and the same value for every field |
| FrameFormat.UnreadPadding | internal/compiler/codec.go:254-258 | a pad_length field without endianness reads as 0, so the padding counts as payload |
| RoundTripLimits.TakesBackExactly | internal/compiler/codec.go:313-415 | among admitted fields, the ones whose every encoding the decoder takes back whole, with the same value, are exactly the well-formed ones |
| RoundTripLimits.LayoutTakesBackExactly | internal/compiler/codec.go:234-268 | among validated layouts whose fields the encoder supports, exactly the well-formed ones give back every encrypted section the encoder may write, value by value, whatever payload follows |
| RoundTripLimits.ValidationIsNotEnough | internal/compiler/compile.go:111-184 | under a layout that passes validation the codec encodes a 32-byte key and a payload whenever its random source is not dry, and the receiver decodes half of the key, and the other half as payload |
| MessageCodecs.MessageCodec.EncodeField | internal/compiler/codec.go:313-374 | the bytes written are what the field allows, with the injected key, and every random one is the next of the source; in a well-formed field they encode the reported value; it fails only for want of random bytes or for an encoding the codec does not have |
| MessageCodecs.MessageCodec.DecodeAt | internal/compiler/codec.go:185-268 | the decoder's loops compute exactly the declarative decoding, error cases included |
| MessageCodecs.MessageCodec.EncodeBody | internal/compiler/packet.go:309-325 | every encrypted field is encoded with its value in order, and the reported offset and width are those of the pad_length bytes |
| MessageCodecs.MessageCodec.EncodePlain | internal/compiler/codec.go:417-472 | the header carries the constants, the next random bytes where the layout wants some, and a length field that decodes to the final length of its subject |
| MessageCodecs.MessageCodec.Encode | internal/compiler/codec.go:126-182 | the result is the sealing, at the current nonce, of the fields as written, the payload and a drawn padding; on a well-formed layout it is a frame of the payload with the injected key, and its segments concatenate to it; a failure is a dry source or one of three named causes, none of which a layout that always encodes has; the frame, and what is left of the random source, are a function of the source alone |
| MessageCodecs.MessageCodec.EncodePacket | internal/compiler/packet.go:35-101 | a packet frame carries the same payload and key as unshaped; it is as long as the first rung that holds it exactly when pad_length can encode the padding that takes (at most 2^20 - 1), else as long as unshaped; and it is, byte by byte, the frame the same random source gives when the raised padding length is drawn in the first place |
| MessageCodecs.MessageCodec.Shape | internal/compiler/packet.go:52-75 | patching the finished section in place yields the section encoded with the new padding length, of the same size |
| EncodingRules.Repad | internal/compiler/packet.go:63-72 | overwriting the pad_length bytes changes that field only, keeps its width, and every other field still encodes its value |
| EncodingDraws.Repadded | internal/compiler/packet.go:63-72 | splicing another padding length of the same width into a finished section gives the section that the same random source makes for that length |
| EncodingRules.NextShapeSize | internal/compiler/packet.go:273-283 | the loop returns the first rung that holds the frame, or the length itself |
| EncodingRules.NextShapeLeast | internal/compiler/packet.go:273-283 | on an ascending ladder that rung is the smallest one at or above the frame, and a frame above the ladder is left alone |
| EncodingRules.FirstIsLeast | internal/compiler/packet.go:273-283 | on an ascending ladder the first rung at or above a length is the least one |
| EncodingRules.PadFieldMaxExact | internal/compiler/packet.go:294-307 | up to 2^20 - 1, the largest patchable padding admits exactly the lengths that the pad_length field can encode |
| EncodingRules.ShapedExactly | internal/compiler/packet.go:57-74 | on any ladder a packet is as long as the first rung that holds it, if there is one and pad_length can encode the padding it takes, and keeps its natural length otherwise |
| EncodingRules.BodyAlwaysEncodes | internal/compiler/codec.go:313-374 | on a layout that always encodes no encrypted field can fail, for any padding draw and key |
| EncodingRules.MaxFieldSizeExact | internal/genome/generator.go:545-556 | the largest encoded size of a field is exact: no encoding is longer and one is as long |
| EncodingRules.HeaderAlwaysEncodes | internal/compiler/codec.go:417-472 | ... nor can the header: the length field covers the largest frame |
| EncodingRules.HeaderAlwaysEncodesShaped | internal/compiler/packet.go:86-91 | ... nor a shaped header, if the rungs fit the length field |
| EncodingRules.SealedFrame | internal/compiler/codec.go:140-181 | what the encoders assemble is a frame of the message |
| Sequence.NonceInjective | internal/compiler/codec.go:478-483 | nonces of distinct (message index, sequence number) pairs are distinct |
| Sequence.NonceHolds | internal/compiler/codec.go:478-483 | the first four bytes of a nonce are the message index, the other eight the sequence number, both big-endian |
| MessageCodecs.SealedOpensOnlyAt | internal/compiler/codec.go:273-290 | a sealed frame opens under its own sequence number and under no other |
| Sequence.SeenWindow.Observe | internal/compiler/codec.go:57-81 | the 64-bit bitmap refines a set of sequence numbers, jumps included |
| Sequence.ObserveAtMostOnce | internal/compiler/codec.go:57-81 | over any run, with jumps, a number is reported fresh at most once, and never below the base or when marked |
| MessageCodecs.MessageCodec.Decode | internal/compiler/codec.go:273-290 | stream mode keeps the window base equal to the position, so an accepted frame never takes the jump branch: it is the first of 64 numbers that decodes, was not seen, and is accepted as in packet mode; a refused frame changes nothing |
| Words.MarkedShift | internal/compiler/packet.go:138-146 | shifting the words one by one shifts the whole bit string: every mark keeps its sequence number and only the old base is forgotten |
| MessageCodecs.MessageCodec.ShiftPacketWindow | internal/compiler/packet.go:138-146 | the in-place loop is that shift of all 128 words |
| MessageCodecs.MessageCodec.DecodePacket | internal/compiler/packet.go:106-136 | a frame is accepted if and only if some open number of the window decodes it, at the least such number; the new window is the old one with that number accepted; a refused frame changes nothing |
| MessageCodecs.MessageCodec.SlideUp | internal/compiler/packet.go:125-128 | the slide loop ends, with the base at a number that is not marked |
| MessageCodecs.MessageCodec.AdvanceBaseTo | internal/compiler/packet.go:171-191 | a target beyond the window is refused, one at or below the base ignored, any other empties the window and becomes its base |
| MessageCodecs.MessageCodec.AuthenticOpens | internal/compiler/packet.go:106-136 | a genuine frame with an open number opens at that number only, with its own message |
| ReplayWindow.SlideExact | internal/compiler/packet.go:125-128 | the slide stops at the least number at or above the base that was not accepted |
| ReplayWindow.AcceptExact | internal/compiler/packet.go:106-136 | accepting keeps the window bounded, moves the base over accepted numbers only, and spends the number |
| WindowRuns.NeverBelowBase | internal/compiler/packet.go:106-136 | on every run, a number below the base is never accepted again |
| WindowRuns.OpenExactlyWhenFresh | internal/compiler/packet.go:106-191 | after every run of accepts and advances the window holds a number open if and only if the history says it is fresh |
| WindowRuns.AtMostOnce | internal/compiler/packet.go:106-146 | an accepted number is not accepted again unless an effective advance reaches to or below it |
| WindowRuns.AdvanceForgets | internal/compiler/packet.go:171-184 | an effective advance makes every number of the new window acceptable, accepted before or not |
| WindowRuns.AcceptedTwice | internal/compiler/packet.go:171-184 | a window run on which one number is accepted on both sides of an advance to a number that a SKIP announces |
| LossLimits.DataAcceptedTwice | internal/tunnel/tunnel.go:376-385 | a run of the two-party protocol whose receiver accepts a data frame, then a late SKIP, then the same data frame again |
| Framing.SplitSegments | internal/compiler/codec.go:509-528 | the segments concatenate to the frame, and a lone length field travels in its own segment |
| Framing.SplitHeader | internal/compiler/codec.go:187-222 | the shared header loop yields the plain fields and the declared length, or fails exactly when they cannot be read |
| Framing.ReadFrame | internal/compiler/codec.go:533-583 | a stream yields exactly the declared frame and not one byte more, if and only if its header declares one with a remainder of at most 2^26 bytes |
| Framing.DeclaredFrame | internal/compiler/codec.go:591-632 | exactly the declared prefix, or an error when there is none |
| Framing.DeclaredPrefixOfFrame | internal/compiler/codec.go:591-632 | the declared prefix of a frame with any tail is the frame |
| Cover.Wrap | internal/compiler/cover.go:54-64 | unwrapping gives the frame and a printable tail, whatever cover is drawn; the cover has 24 to 32 bytes, 24 plus the hash byte modulo 9, printable but for the mark at its head; the wire length is never from 160 to 700 |
| Cover.PadHandshakeWire | internal/compiler/cover.go:104-122 | padding only appends printable bytes: lengths outside the band stay, lengths inside become the target |
| Cover.RandomPrintable | internal/compiler/cover.go:124-153 | always n printable bytes: the next n of the source brought into range, redrawn up to 32 times while they look like a known protocol; constant text when the source runs dry or every draw is refused |
| Cover.TextIsDrawn | internal/compiler/cover.go:124-153 | with enough bytes to draw and no likeness to refuse, byte i is 0x20 plus the i-th byte of the source modulo 95 |
| Cover.WrapTransparent | internal/compiler/cover.go:70-76 | unwrapping a wrapped datagram and keeping its declared prefix gives exactly the sealed frame |
| HandshakeModel.KeyCaptured | internal/compiler/handshake.go:231-253 | from a frame the peer sealed, an endpoint captures exactly the peer's public key, or none when the layout has none |
| HandshakeModel.RawKeyExact | internal/compiler/handshake.go:231-253 | a key field yields exactly the 32 bytes it holds, bare or behind the byte 4 in the X9.63 form, and an error for anything else |
| HandshakeModel.PayloadDecodes | internal/compiler/handshake.go:106-110 | a frame sealed with a payload decodes to that payload |
| HandshakeModel.SealedFrameTaken | internal/compiler/handshake.go:122-146 | bytes that declare a frame some holder of the bootstrap keys has sealed for the awaited step are taken, with any tail and from any handshake: the frame enters the transcript and its key becomes the peer key |
| HandshakeSystem.ReceivedIsSent | internal/compiler/handshake.go:122-146 | an unforged datagram that opens at the awaited step declares the very frame the peer sealed for that step, unless another handshake sealed it |
| HandshakeSystem.DeliveryExact | internal/compiler/handshake.go:122-146 | after any bytes at all two agreeing endpoints still agree if and only if the bytes changed nothing, or were taken and declare the frame the peer has sealed for the awaited step |
| HandshakeSystem.StepExact | internal/compiler/handshake.go:94-146 | an encode always keeps the two-party agreement, a delivery exactly if it is harmless in that sense |
| HandshakeSystem.AgreementExactly | internal/compiler/handshake.go:94-146 | two endpoints agree after every prefix of a run, whatever other handshakes have sealed, if and only if every delivery of the run is harmless |
| HandshakeSystem.UnforgedIsHarmless | internal/compiler/handshake.go:122-146 | an unforged datagram that declares no frame of another handshake for the awaited step is harmless |
| HandshakeSystem.RunKeeps | internal/compiler/handshake.go:94-146 | agreement and the ledger's books hold after every run on which nothing is forged and no frame of another handshake is delivered for the awaited step |
| HandshakeSystem.HandshakeAgreement | internal/compiler/handshake.go:203-229 | on every such run the transcripts are prefixes of one another; when both ends are done they are equal, each holds the other's key, both derive the same two keys, and one end's send key is the other's receive key |
| HandshakeModel.SessionKeysBind | internal/compiler/handshake.go:203-229 | under a key derivation without collisions the two directions have different keys, and equal keys mean equal secret, pre-shared key and transcript bytes; the client sends under the c2s label and the server receives under it |
| HandshakeModel.TranscriptIsFrames | internal/compiler/handshake.go:112-114 | the transcript hashes frames without separators, yet equal transcript bytes mean equal frames, because each frame declares its own length |
| HandshakeSystem.GenuineFrameAccepted | internal/compiler/handshake.go:122-146 | the frame the peer sealed for the awaited step, with any tail, is unforged and advances the endpoint |
| HandshakeSystem.NoncesDistinct | internal/compiler/codec.go:478-483 | no two frames the endpoints of one handshake seal under one bootstrap key share a nonce |
| HandshakeLimits.NonceRepeats | internal/compiler/compile.go:50-58 | two handshakes of one pre-shared key with different ephemeral keys seal each step that carries a key under one key and nonce, as different frames |
| HandshakeLimits.OldReplyDisagrees | internal/compiler/handshake.go:122-146 | a run without forgery on which a recorded reply of another handshake makes both ends finish with different transcripts, the client with the old server's key |
| HandshakeModel.RefusedAgain | internal/compiler/handshake.go:122-146 | a datagram that an endpoint has tried and refused at a fresh step is refused again, even if it decoded, carried a malformed key and spent its number |
| Handshakes.Handshake.EncodeStep | internal/compiler/handshake.go:94-119 | the object takes the encode step of the model, sealing a frame of its step under the bootstrap key of its role, with the early data as payload if the layout has one and nothing otherwise; on failure nothing changes, and on its turn it fails only for a dry source or a layout that cannot carry the early data it has a payload for |
| Handshakes.Handshake.SetEarlyData | internal/compiler/handshake.go:60-62 | the early data are exactly these bytes, and nothing else changes |
| Handshakes.Handshake.RecvStep | internal/compiler/handshake.go:122-146 | the object's new state and verdict are exactly those of the model's receive step |
| Handshakes.NewHandshakeCodecs | internal/compiler/compile.go:89-103 | one unused codec per layout, all distinct |
| HandshakePairs.HandshakePair.Encode | internal/compiler/handshake.go:94-119 | in a pair of real endpoints, a successful encode of either is one move of the two-party run, and a failed one none |
| HandshakePairs.HandshakePair.Deliver | internal/compiler/handshake.go:122-146 | any bytes given to either endpoint are one move of the run, with the model's verdict |
| HandshakePairs.HandshakePair.DoneAgree | internal/compiler/handshake.go:203-229 | so the real endpoints, both done on such a run, hold the same transcript, each other's keys and the same session keys |
| LossRecovery.StepKeeps | internal/tunnel/tunnel.go:306-433 | every send, check, receive and loss keeps the invariant of both directions |
| LossRecovery.RunKeeps | internal/tunnel/tunnel.go:69-93 | on every run over a lossy, duplicating, reordering network the receiver's base and the sender's view of it stay at or below the frames sent, and the view exceeds the base only up to an own SKIP |
| LossRecovery.SkipNeverRefused | internal/tunnel/tunnel.go:376-385 | a SKIP that decodes is never refused, leaves the base at the higher of its target and the slid base, and across a hole leaves its own bit clear |
| LossRecovery.AckCadence | internal/tunnel/tunnel.go:421-433 | on every run of decoded frames one ACK becomes due for every 32 data frames let through, and it states the base the receiver then has |
| LossRecovery.SlackHolds | internal/tunnel/tunnel.go:324-342 | on every run with punctual SKIPs a sender is at most the span plus its unchecked frames past its view or an own SKIP, and some outstanding SKIP is near the receiver's base |
| LossRecovery.NeverOutruns | internal/tunnel/tunnel.go:324-342 | if SKIPs take effect within `late` frames and at most `burst` frames go unchecked, with late + burst <= 2048, every frame of either side is inside the receiver's window when it is sealed |
| LossLimits.LatenessEscapes | internal/tunnel/tunnel.go:324-342 | for every later or longer bound there is a punctual run that leaves the window |
| LossLimits.InsideExactly | internal/tunnel/tunnel.go:324-342 | all punctual runs stay inside the window if and only if late + burst <= 2048, or no frame may go unchecked |
| LossLimits.WedgedForEver | internal/tunnel/tunnel.go:324-342 | in either direction, a sender past the window with nothing open in flight stays so on every run, and the receiver's window never changes again |
| LossLimits.OneLostSkipWedges | internal/tunnel/tunnel.go:341-341 | a run that ends wedged although only frame 0 and one SKIP, the only one sealed, were lost: every other frame arrived and was accepted |
| Tunnel.AckPayloadExact | internal/tunnel/tunnel.go:97-158 | the payload codec is a bijection between 64-bit positions and nine-byte control payloads of each kind |
| Tunnel.PacketTunnel.constructor | internal/compiler/packet.go:194-208 | the two directions of a session use the keys by role and start fresh |
| Tunnel.PacketTunnel.Seal | internal/tunnel/tunnel.go:306-319 | sealing a payload is the model's send, and the frame carries the payload at the old number |
| Tunnel.PacketTunnel.MaybeSendLossControl | internal/tunnel/tunnel.go:324-342 | below the span nothing happens; above it a SKIP to its own number is sealed unless encoding fails, and the view moves there only if the write succeeded |
| Tunnel.PacketTunnel.HandleLossControl | internal/tunnel/tunnel.go:363-405 | exactly the effect of the payload on the view and the window, and which payloads count as control |
| Tunnel.PacketTunnel.Handle | internal/tunnel/tunnel.go:409-433 | a decoded payload has exactly the effect of its body on the view, the window and the ACK counter |
| Tunnel.PacketTunnel.Receive | internal/tunnel/tunnel.go:437-490 | a datagram that does not decode changes nothing; one that does has exactly the receive effect of the two-party model; the ACK it makes due is sealed unless encoding fails; a genuine frame is accepted under its own number with its own payload |
| TunnelPairs.TunnelPair.Send | internal/tunnel/tunnel.go:306-319 | in a pair of real tunnels, a successful send is one move of the two-party run and puts one genuine datagram on the wire |
| TunnelPairs.TunnelPair.Check | internal/tunnel/tunnel.go:324-342 | the loss-control check is one or two moves of the run, with the SKIP it seals on the wire |
| TunnelPairs.TunnelPair.Deliver | internal/tunnel/tunnel.go:437-490 | a datagram of the other side, first or repeated, is accepted with its own payload exactly if its number is open, as one move of the run; otherwise nothing changes |
| TunnelPairs.TunnelPair.DeliverJunk | internal/tunnel/tunnel.go:409-420 | bytes that open under no number of the window change nothing |
| TunnelPairs.TunnelPair.NeverPastSent | internal/tunnel/tunnel.go:69-93 | so on every run of the real objects no base and no view of it passes the number of frames sealed |
| TunnelPairs.TunnelPair.NoncesDistinct | internal/compiler/codec.go:478-483 | two datagrams one side has sealed under one nonce, data, SKIP or ACK, are the same datagram |
| Drbg.Rand.Read | internal/drbg/drbg.go:68-75 | the source is one stream: a read returns the next bytes and leaves exactly the rest, however reads are chunked |
| Drbg.IntnMask | internal/drbg/drbg.go:95-98 | the mask is the least 2^k - 1, k >= 1, that covers n - 1 |
| Drbg.Intn | internal/drbg/drbg.go:91-105 | the result is the first masked draw below n |
| Drbg.PickWeighted | internal/drbg/drbg.go:121-134 | the index whose cumulative interval contains the draw; the loop never runs off the end |
| Drbg.ShufflePermutes | internal/drbg/drbg.go:108-118 | the shuffle permutes, for every draw sequence |
| Drbg.ShuffleInjective | internal/drbg/drbg.go:108-118 | distinct draw sequences give distinct permutations |
| Drbg.Perm | internal/drbg/drbg.go:108-118 | the in-place loop is that shuffle of 0 .. n - 1 |
| Generator.Sampler.PermuteFields | internal/genome/generator.go:251-257 | the output is the input in another order, nothing lost or repeated |
| Generator.LengthField | internal/genome/generator.go:331-372 | the chosen width holds the minimum it is asked for, and at least 16 bits for application records; it is drawn among exactly the widths that do |
| Generator.PadLenField | internal/genome/generator.go:446-464 | the chosen width holds the largest padding |
| Generator.LayoutWorks | internal/genome/generator.go:156-249 | good fields, a covering length field at any position and the right number of pad_length fields make a layout that always encodes |
| Generator.MinBytesIs | internal/genome/generator.go:216-230 | outside application records the length field is asked to express the largest frame without it plus the four bytes of the widest one |
| Generator.Message | internal/genome/generator.go:156-249 | whatever the draws, the layout passes validation, round-trips, and encodes every payload within its bound: 1400 bytes of early data, 60000 bytes afterwards; it is the layout the tape designs, draw by draw |
| Generator.PatternsExchangeKeys | internal/genome/generator.go:31-79 | in every pattern both sides contribute a key |
| Generator.Generate | internal/genome/generator.go:114-154 | generation fails only for an unknown forced cipher; every genome works: one cipher, always-encoding layouts, keys from both sides; a forced cipher is that of every layout; and the genome is a function of the tape of draws and the forced cipher |
| Designs.ForcedCipherOnly | internal/genome/generator.go:100-137 | a forced cipher changes nothing else: the genome is the one the same tape gives without force, with that cipher in every layout |
| Generator.GeneratedHandshakeIsGood | internal/genome/generator.go:114-154 | a generated genome meets every hypothesis of the handshake theorems |
| GeneratedProtocols.EveryStepEncodes | internal/genome/generator.go:331-372 | every handshake step of a generated genome always encodes with up to 1400 bytes of early data |
| GeneratedProtocols.EncodeNext | internal/compiler/handshake.go:94-119 | an endpoint of a generated protocol, on its turn and with up to 1400 bytes of early data, fails to encode only for want of random bytes; the peer decodes the early data from its frame, or no payload where the layout has none |
| GeneratedProtocols.LaddersFit | internal/compiler/packet.go:238-265 | the shape ladders ascend, and the length field of every generated application record holds their rungs |
| GeneratedProtocols.EncodeRecord | internal/compiler/packet.go:35-101 | a generated record with up to 60000 bytes, shaped by any ladder, is encoded unless the random source is dry, as a frame of its payload; it is as long as the least rung that holds it exactly when pad_length can encode the padding that takes, else as long as unshaped |
| Replay.ReplayCache.Seen | internal/tunnel/replay.go:100-120 | the table keeps its bound of 65536 on every run; a key is refused exactly while it is stored and fresh; a stored key passes again only after its time to live; a key passes unstored only when the table is full of fresh keys; fresh entries of other keys stay |
| Replay.ReplayCache.Sweep | internal/tunnel/replay.go:122-129 | exactly the expired entries go |
| Mux.ServerMux.SelectHandshake | internal/tunnel/mux.go:791-851 | exactly the selection rule: the first client-first protocol the datagram authenticates under, else protocol 0 on a fresh knock when it is server-first, else protocol 0 unauthenticated; every primed or knocked choice passes the replay table once, and a replayed one is refused |
| Mux.ServerMux.BeginDatagram | internal/tunnel/mux.go:693-783 | an established address goes to its session and nothing else, a pending one to its handshake; any other starts a handshake if and only if every guard lets it and a protocol is selected; otherwise no table changes but the creation times, and these only at the session cap; a handshake started unauthenticated belongs to the endpoint that has just tried the datagram and refused it |
| Mux.ServerMux.Advance | internal/tunnel/mux.go:856-947 | an authentic handshake takes the client frame if it opens, then sends every server frame due, up to the client's next turn or the given number of frames that can be sent, and is finished when none is left; one that is not authentic, whose endpoint is asked about the datagram it has just refused, is abandoned; afterwards no slot is held by junk |
| Mux.ServerMux.Datagram | internal/tunnel/mux.go:693-1068 | one whole datagram against the protocols of the window, with no assumption about what opens: it advances the handshake its address has, or the one selection starts past every guard, and changes nothing else; afterwards every pending handshake is authentic; a datagram that no protocol takes leaves the handshakes as they were and its address's creation time behind |
| Mux.Flooded | internal/tunnel/mux.go:736-783 | n such datagrams from n new addresses leave the pending and established tables as they were and n more creation times |
| Mux.Judge | internal/tunnel/mux.go:856-947 | the branches of advance: give up exactly when nobody has authenticated the handshake and the datagram does not open, stop exactly when already done, else take the frame and send everything due |
| Mux.EverythingDueIsSent | internal/tunnel/mux.go:856-969 | when nothing fails to be sent, advance stops at the client's next turn, and the handshake is finished if and only if the client has none left |
| Mux.RefusedAgain | internal/tunnel/mux.go:899-924 | the datagram a fresh endpoint of the window has tried and refused does not open when advance feeds it to that endpoint again |
| Mux.TailKeepsKey | internal/tunnel/mux.go:816-826 | bytes appended to a first datagram do not change its replay key |
| Mux.SendOutgoing | internal/tunnel/mux.go:950-969 | consecutive server steps only, all of them unless one fails, the last kept for retransmission |
| Mux.ServerMux.TimerDrop | internal/tunnel/mux.go:971-988 | deleting any key at any moment, even the handshake in hand, keeps the tables safe |
| Mux.ServerMux.Finish | internal/tunnel/mux.go:1032-1045 | the handshake's slot becomes its session's; neither refusal the code has at this point can happen |
| Mux.ServerMux.Offer | internal/tunnel/mux.go:1047-1058 | queue the session, or shed it when 32 are waiting |
| Mux.ServerMux.CloseEnd | internal/tunnel/mux.go:1026-1030 | a closing session deletes the entry of its address, that entry is its own, and no other changes |
| Mux.ServerMux.OneHandshakePerKey | internal/tunnel/mux.go:818-849 | two handshakes begun by one stored first frame or knock are a time to live apart |
| Mux.SafeMeans | internal/tunnel/mux.go:736-783 | established and pending addresses are disjoint, at most 1024 are pending, the session cap counts both, every live session is the one its address maps to, and between datagrams every pending handshake has an authenticated client |
| Mux.EventKeepsSafe | internal/tunnel/mux.go:693-1084 | every critical section keeps the tables safe, wherever the read loop is |
| Mux.EveryRunIsSafe | internal/tunnel/mux.go:693-1084 | so they are safe after every run of datagrams, timer ticks, accepts and closes in any order |
| TokenBucket.Limiter.Take | internal/tunnel/mux.go:51-68 | a request passes if and only if it is at most the capacity and at most the tokens plus rate times the time since the last request; the tokens left are the lesser of the two, minus the request if it passed |
| TokenBucket.TakenExact | internal/tunnel/mux.go:51-68 | the same of the bucket on values |
| TokenBucket.Conservation | internal/tunnel/mux.go:51-68 | on every run tokens stay between 0 and the capacity, and admitted bytes plus tokens left never exceed tokens before plus rate times elapsed time |
| TokenBucket.RateBound | internal/tunnel/mux.go:26-68 | over any stretch of any run the bytes admitted are at most the capacity plus rate times elapsed time |
| TokenBucket.OneMore | internal/tunnel/mux.go:51-68 | one more request adds its bytes to those admitted exactly if it is within the capacity and within tokens plus rate times elapsed time |
| Pool.NewAddressPool | core/assign.go:24-49 | a prefix up to 30 gives an empty pool over the aligned network of the address |
| Pool.AddressPool.IndexInvertsAddress | core/assign.go:80-101 | index and address are inverse, and exactly the usable addresses have an index |
| Pool.AddressPool.Allocate | core/assign.go:52-64 | the lowest free address is leased, and only that; none exactly when every usable address is; never the network, gateway or broadcast address |
| Pool.AddressPool.Release | core/assign.go:67-78 | exactly the lease of this address ends, and an address outside the pool changes nothing |
| Route.RegisterKeeps | cmd/chimerad/route.go:31-58 | registering keeps the three indexes consistent exactly unless it moves a connection away from the empty address |
| Route.RemoveKeeps | cmd/chimerad/route.go:105-117 | removing keeps them exactly unless the connection is registered under the empty address |
| Route.ReapKeeps | cmd/chimerad/route.go:67-88 | reaping always keeps them |
| Route.LookupIsOwner | cmd/chimerad/route.go:31-117 | on every run without the empty address, lookup returns the last registrant that was not since removed, reaped, displaced or moved |
| Route.EmptyAddressLeaks | cmd/chimerad/route.go:105-117 | a run with the empty address after which a removed connection is still looked up |
| Route.ClientRoute.Register | cmd/chimerad/route.go:31-58 | the in-place update of the three maps, and the displaced connection |
| Route.ClientRoute.ReapRoamed | cmd/chimerad/route.go:67-88 | exactly the silent connections of the host but the kept one go, each reported once |
| Intervals.Merge | scripts/update-chnroute.py:42-49 | for every input the merged list covers the same addresses and has a gap between neighbours; proper input gives a canonical list |
| Intervals.CanonicalIsUnique | scripts/update-chnroute.py:42-49 | a set of addresses has one canonical list, so merging is idempotent and independent of order |
| Intervals.Subtract | scripts/update-chnroute.py:65-82 | with cuts in ascending order of their starts the result covers exactly the set difference |
| Intervals.Whitelist | scripts/update-chnroute.py:108-110 | the whitelist and the merged cuts split the 32-bit address space |
| Netpkt.ComputeChecksum | internal/netpkt/icmp.go:96-108 | the loops compute the complement of the folded sum, with a 32-bit accumulator that wraps |
| Netpkt.FoldStep | internal/netpkt/icmp.go:104-106 | one fold keeps the residue modulo 65535, and 0 only for 0 |
| Netpkt.NoWrap | internal/netpkt/icmp.go:96-103 | the accumulator does not wrap up to 131074 bytes |
| Netpkt.RecomputeGivesZero | internal/netpkt/icmp.go:96-108 | every message of any length that carries its checksum in a zeroed word recomputes to 0 |
| Netpkt.ChecksumVerifies | internal/netpkt/icmp.go:96-108 | up to 131074 bytes the one's complement sum of section 2 of RFC 1071 over the whole message is all ones |
| Netpkt.EchoRequest | internal/netpkt/icmp.go:20-46 | the packet is an IPv4 header of section 3.1 of RFC 791 and an echo message whose length, identifiers, sequence number, addresses and payload read back at their places, and both recompute to 0, whatever the payload |
| Netpkt.ProbeMatches | internal/netpkt/icmp.go:58-94 | a probe is matched by its own echo and by any reply to it, and by no reply to a request with another identifier or sequence number |

## Left out

- Sockets, TUN devices, goroutines, deadlines, jitter, TLS, WebSocket and HTTP transports: I/O around the model.
- AES-GCM, ChaCha20-Poly1305, X25519, HKDF, HMAC and SHA-256 are idealised as described above; Drbg.Update makes no claim about a standard.
- Sequence numbers, padding lengths and counters are unbounded naturals: the wrap of a 64-bit counter after 2^64 frames is not modelled. Sizes and padding bounds from a genome are taken to be non-negative where the type says so.
- Error texts: an error is one of a few kinds, and callers only test whether there is one.
- Drbg.Intn: takes raw 64-bit draws and is given that one of them is accepted; the rejection loop has no bound of its own.
- Any tape of draws stands for the generator's random source; the fingerprint, the entropy account and JSON are not modelled, and neither is how likely a choice is.
- Handshake liveness: only the last frame is retransmitted, so it is not promised; safety is proved.
- At-most-once delivery across an effective advance, and unconditional progress of loss recovery: false of the code; the exact conditions are above.
- The printable cover is not part of the handshake system, which receives unwrapped datagrams; `Cover.WrapTransparent` connects the two.
- Mux.ServerMux.Advance: encoding and writing are reduced to how many server steps succeed, and the RecvStep of a handshake already authentic to whether it accepts; Handshakes.Handshake refines those. Decoys, telemetry, keepalives and the shutdown of the whole multiplexer are not modelled.
- Each mutex-protected section of the multiplexer is one atomic step; a session's own decode path is `Tunnel.PacketTunnel`.
- TokenBucket.Limiter.Take: reals instead of floating point and a clock that does not go back; the nil bucket of an unlimited session is not modelled.
- The replay table is the in-memory one, without the file behind it; empty datagrams never reach it.
- The look-alike heuristic that refuses a printable draw is a parameter.
- Addresses are 32-bit numbers in the pool and opaque strings in the routes; parsing and printing of dotted strings and CIDRs is not modelled.
- Which connections of a host have been silent for too long is an input of reaping.
- Python's `sorted` is an insertion sort on values; any sort that orders tuples gives the same list. Fetching and CIDR splitting are not modelled.
- core/immune.go, internal/tunnel/stream.go, invites, configs, pcap scoring, port hopping, GUIs and installers: not part of this model.
