# RatholePro: a verified model of the tunnel core

RatholePro is a reverse tunnel written in Go. A client behind a NAT dials a server, upgrades the
connection (plain, WebSocket or "noise"), authenticates for one service, and the server then
spreads visitors of that service over the sessions of its clients. This project models that core
in Dafny and proves what it keeps over all inputs, chunkings and interleavings.
`dafny verify dfyconfig.toml` checks everything.

## Reading guide

| file | models |
|---|---|
| `bytes.dfy`, `conn.dfy` | bytes, big-endian fields, XOR; a raw connection that delivers its stream in arbitrary chunks, and `io.ReadFull` over it |
| `frames.dfy`, `frame_streams.dfy`, `frame_reader.dfy`, `ws_conn.dfy` | RFC 6455 framing: single frames, whole streams, runs of reads, and the `WSConn` object |
| `noise.dfy` | the noise mode: key agreement, keystream, 16-bit frames |
| `transport.dfy`, `protocol.dfy` | the connection an application holds, `ReadFull` and the control messages on every transport |
| `write_lock.dfy` | concurrent writers under the write mutex |
| `text.dfy`, `upgrade.dfy`, `handoff.dfy` | the HTTP upgrade: UTF-8 texts, buffered reading, and the two-party protocol |
| `tunnel.dfy` | the control messages of one side, from the upgrade to the other side's `ReadMessage` |
| `session_queue.dfy`, `session_pool.dfy`, `server.dfy` | the session pool as a queue of values and as a slice, and the whole server as a state machine |
| `udp.dfy` | datagram framing, session table, cleanup |
| `balancer.dfy` | round robin and least connections |
| `stun.dfy` | the STUN attribute walk |

Conventions. The bytes a peer will still deliver are a field of the connection, and a read takes
any non-empty part of them, so every chunking is covered; a stream that breaks is a shorter one.
A raw write may fail after any part of its bytes. Random keys are arbitrary values. A critical
section is one atomic step of a state machine, and sessions close at any moment from outside.
SHA-1, the token hash and the printing of addresses are function parameters. A byte is an integer
below 256; `a & 0x0F`, `a & 0x80`, `a & 0x7F` and `0x80 | a` are written as arithmetic, and `^` is
defined digit by digit. Offsets like `b[from..]` stand for Go's slices of a buffer.

Results that a reader of the code may not expect:

* `writeFrame` has no size cap, and a data frame can be read back exactly up to 16 MiB.
* A ping is skipped cleanly exactly when it is unmasked and at most 125 bytes long; a masked one
  leaves four bytes behind that are then read as a frame header. Pong payloads are delivered as data.
* `WriteMessage` accepts payloads of up to 16 MiB on a noise connection, but above 65535 bytes the
  frame announces too little: reading such a message fails or also takes bytes of what follows,
  and with nothing behind it, it fails.
* `ClientUDP` writes an empty key and `ServerUDP` looks replies up by key, so no reply is ever
  sent. The comments in `udp.go` describe a frame without a key; the model follows the code.
* The STUN walk ignores the address family. It panics exactly when the first mapped address it
  meets has its header at offset 248 or later, and some response does that exactly when at least
  252 bytes arrived.
* The round-robin index leaves the list once the counter no longer converts to a non-negative
  int, except at negative multiples of the list length.
* The server reads the client's request whole exactly when path and host put no blank line into
  the headers. The paths "/", LF, LF and "/", LF, U+00A0, LF do; text without line feeds never does.

## Model

| member | source | states |
|---|---|---|
| Conn.ReadFull | go-core/transport/wsframe.go:75-78 | reading into a buffer gives the next bytes of the stream for every chunking; short exactly at its end |
| Frames.ParseData | go-core/transport/wsframe.go:102-141 | parsing a data frame, of any length form and key, followed by anything gives its payload and what follows |
| Frames.ParsePing | go-core/transport/wsframe.go:91-100 | an unmasked ping of at most 125 bytes is consumed whole and its payload echoed |
| Frames.NextPayloadTakes | go-core/transport/wsframe.go:73-144 | one readFrame call takes exactly the next payload off the decoded stream, answering the pings before it; it fails only when nothing is left to decode |
| FrameStreams.FrameLayout | go-core/transport/wsframe.go:147-204 | the bytes of every frame one by one: kind, mask flag and length, extended length with its most significant byte first, key, and each payload byte under the key byte at its position modulo four (RFC 6455 section 5.2) |
| FrameStreams.MaskedHello | go-core/transport/wsframe.go:147-204 | the masked "Hello" of RFC 6455 section 5.7 comes out as printed there |
| FrameStreams.FirstBytes | go-core/transport/wsframe.go:80-100 | binary frames start with 0x82 and pongs with 0x8A; exactly the low four bits 8 and 9 make a close and a ping |
| FrameStreams.DataFrameReadableIff | go-core/transport/wsframe.go:126-144 | what writeFrame emits for a payload parses back to it if and only if it is at most 16 MiB |
| FrameStreams.OversizedFrameEndsStream | go-core/transport/wsframe.go:126-128 | a larger frame is rejected and nothing behind it is delivered |
| FrameStreams.ShortestForm | go-core/transport/wsframe.go:148-189 | no byte string read as the same payload with the same masking is shorter than the frame written (RFC 6455 section 5.2) |
| FrameStreams.PingSkippedIff | go-core/transport/wsframe.go:91-100 | a ping leaves exactly the following bytes unread if and only if it is unmasked and at most 125 bytes long |
| FrameStreams.MaskedPingLeavesFourBytes | go-core/transport/wsframe.go:91-100 | what is echoed and what is left for the next frame when a ping is masked |
| FrameStreams.MaskedPingCanInjectData | go-core/transport/wsframe.go:91-100 | a masked ping after which two bytes nobody sent are delivered |
| FrameStreams.PongIsDelivered | go-core/transport/wsframe.go:80-144 | a pong's payload reaches the application as data |
| FrameStreams.FramesDecode | go-core/transport/wsframe.go:73-144 | any mix of data frames, fragments and plain pings decodes to the data payloads in order, and the echoes are the ping payloads in order |
| FrameStreams.NextOfFrame | go-core/transport/wsframe.go:73-144 | what one readFrame call returns and leaves for each kind of frame: payload, close, oversize, cut short |
| FrameStreams.CloseEndsStream | go-core/transport/wsframe.go:85-88 | everything before the first close frame is delivered and nothing after it (RFC 6455 section 5.5.1) |
| FrameStreams.FragmentationAndPingsInvisible | go-core/transport/wsframe.go:80-100 | refragmenting the data or inserting plain pings anywhere does not change what is delivered (RFC 6455 section 5.4) |
| FrameStreams.WireUnambiguous | go-core/transport/wsframe.go:147-204 | a concatenation of frames decodes in only one way |
| FrameStreams.PartOfFrameIsTruncated | go-core/transport/wsframe.go:73-144 | cut anywhere before its end, a data frame delivers nothing and nothing else is read into its bytes |
| FrameStreams.DecodedMonotone | go-core/transport/wsframe.go:73-144 | cutting any stream anywhere cuts what is delivered to a prefix |
| FrameReader.OneFramePerRead | go-core/transport/wsframe.go:34-58 | a Read takes the next data frame and no more, answering the pings in front of it, gives what there is room for and keeps the rest of that frame |
| FrameReader.ReadConserves | go-core/transport/wsframe.go:34-58 | one Read of any buffer size moves bytes from the stream to the caller, none lost, none invented |
| FrameReader.ReadsConserve | go-core/transport/wsframe.go:34-58 | for every incoming byte string and all buffer sizes: data returned plus data to come is the decoded stream, pings answered plus pings to come are all pings |
| FrameReader.ReadsDrain | go-core/transport/wsframe.go:34-58 | enough Reads with room for a byte deliver the whole stream and then report its end |
| FrameReader.Transparency | go-core/transport/wsframe.go:34-204 | for any frames, any arrived part of them and any Reads: the bytes returned are a prefix of the bytes sent, and equal once all has arrived and been read |
| WebSocket.WSConn.Read | go-core/transport/wsframe.go:34-58 | the object with readBuf and readPos takes exactly the abstract read step, fills only its part of the buffer, and writes only the pongs due |
| WebSocket.WSConn.Write | go-core/transport/wsframe.go:60-70 | one binary frame holding the data goes out, masked by a client only; on failure only a part of it |
| WebSocket.WSConn.ReadFrame | go-core/transport/wsframe.go:73-144 | the result, the bytes left and the pongs sent are those of the stream specification, with termination |
| WebSocket.WSConn.AnswerPing | go-core/transport/wsframe.go:91-100 | a ping is echoed even when cut short, padded with zeros, and reading goes on |
| WebSocket.WSConn.ReadBody | go-core/transport/wsframe.go:102-144 | extended length, key, size limit and payload are read as specified, each error at its place |
| WebSocket.WSConn.WriteFrame | go-core/transport/wsframe.go:147-204 | the buffer filled through a moving position is exactly one encoded frame and goes out in one write |
| WebSocket.Unmask | go-core/transport/wsframe.go:137-141 | each byte in place is XORed with the key byte at its position modulo four (RFC 6455 section 5.3) |
| WebSocket.MaskInto | go-core/transport/wsframe.go:195-197 | masking fills the frame's tail, byte i under key byte i modulo four, and nothing else |
| Noise.ClampKey | go-core/transport/noise.go:164-168 | in-place clamping |
| Noise.ClampedShape | go-core/transport/noise.go:164-168 | a clamped key is a multiple of eight with bit 254 set and bit 255 clear, and keeps every other bit |
| Noise.ScalarBaseMult | go-core/transport/noise.go:170-175 | the public key of a private key: byte 0 XORed with 9, the others the same |
| Noise.ScalarMult | go-core/transport/noise.go:177-183 | the shared secret in place, each byte the XOR of the two at its position |
| Noise.XorCrypt | go-core/transport/noise.go:156-160 | each byte in place is XORed with the key byte at its position modulo 32 |
| Bytes.XorDigit | go-core/transport/noise.go:155-160 | `^`: every binary digit of the result is the exclusive or of the two digits in its place |
| Bytes.XorRepeats | go-core/transport/noise.go:155-160 | the key starts over behind every whole number of its lengths |
| Bytes.BeAt | go-core/transport/wsframe.go:176-182 | PutUint16 and PutUint64: byte i of k is the one worth 256 to the power k - 1 - i |
| Bytes.XorTwice | go-core/transport/noise.go:155-160 | the keystream and the mask are their own inverse |
| Noise.KeyAgreement | go-core/transport/noise.go:164-183 | both sides derive the same secret from any two private keys |
| Noise.ServerUpgrade | go-core/transport/noise.go:29-74 | the server's half: refused untouched without a configured 32-byte key; else the public key of a clamped private key out, 32 bytes in, both directions keyed with the secret |
| Noise.ClientUpgrade | go-core/transport/noise.go:77-111 | the client's half, refused untouched without a configuration |
| Noise.UpgradesAgree | go-core/transport/noise.go:44-110 | after both halves each side's key is the other's, and later bytes are untouched |
| Noise.FrameReadableIff | go-core/transport/noise.go:113-146 | a noise frame parses back if and only if its payload has at most 65535 bytes |
| Noise.EncodedFrameParse | go-core/transport/noise.go:113-146 | a longer payload is announced modulo 65536 and its excess is read as the next frame |
| Noise.FrameLayout | go-core/transport/noise.go:133-160 | the bytes of every noise frame: the length modulo 65536 with its high byte first, then each payload byte under the key byte at its position modulo 32 |
| Noise.NoiseConn.Read | go-core/transport/noise.go:113-131 | one whole frame is consumed and its first min(len(b), length) bytes returned |
| Noise.NoiseConn.Write | go-core/transport/noise.go:133-146 | the two raw writes emit one encoded frame |
| Transports.ReadFull | go-core/protocol/protocol.go:85-88 | io.ReadFull over any of the three connections gives what the source's view promises |
| Transports.ReadFullFramed | go-core/transport/wsframe.go:34-58 | repeated Reads of a WSConn are ReadFull on a plain byte stream, and end; short of data they leave what lies behind the frame that ended it |
| Transports.ReadFullNoise | go-core/transport/noise.go:113-131 | repeated Reads of a NoiseConn lose what a frame has beyond the request |
| Protocol.ReadMessage | go-core/protocol/protocol.go:84-107 | message or the exact error, and where the connection stands after either, on every transport |
| Protocol.WriteMessage | go-core/protocol/protocol.go:61-81 | refused exactly above 16 MiB with nothing written, otherwise header and payload as two writes |
| Protocol.HeaderBytes | go-core/protocol/protocol.go:69-75 | the nine header bytes: "RHPR", 1, and the length with its most significant byte first |
| Protocol.MessageIff | go-core/protocol/protocol.go:84-107 | off a plain stream a payload is returned if and only if the stream starts with its header and it, and it has at most 16 MiB |
| Protocol.MessageOnStream | go-core/protocol/protocol.go:84-107 | a message is read off a plain stream leaving exactly what follows |
| Protocol.EmissionArrives | go-core/transport/wsframe.go:60-70 | a write that fits a frame arrives as exactly its bytes on plain and WebSocket connections |
| Protocol.MessageOnNoise | go-core/transport/noise.go:113-146 | on noise each read meets one whole frame, except that the frame of an empty payload stays behind |
| Protocol.MessagesRoundTrip | go-core/protocol/protocol.go:61-113 | whole stack, every transport: any list of messages within the limit comes out in order and the next protocol finds what follows |
| Protocol.NoiseMessageSurvivesIff | go-core/protocol/protocol.go:66-113 | whatever follows it, a message WriteMessage accepts is returned on a noise connection with exactly what follows left, if and only if its payload has at most 65535 bytes |
| Protocol.LongMessageOverruns | go-core/transport/noise.go:113-146 | reading a longer message is either short of payload or has taken at least two bytes of what follows, and fails when nothing follows |
| WriteLock.OutputIsWholeCalls | go-core/transport/wsframe.go:60-70 | in every interleaving, writes that fail part way included: calls return in the order they got the lock, the output is those that succeeded and part of one more, and of the calls the run made each is there once, in its thread's order; a call may be one raw write or, as in noise, two |
| WriteLock.CallCompletes | go-core/transport/wsframe.go:60-70 | whenever the lock is free on a working connection an idle thread can make a call whole, or have it fail after any number of its bytes |
| WriteLock.PeerReadsLockOrder | go-core/transport/wsframe.go:96-98 | in every state, mid-frame and after a failed write too, the peer of concurrent writers and pong replies parses exactly the whole frames in lock order |
| Upgrade.BufReader.ReadString | go-core/transport/websocket.go:38-39 | the next line for every chunking, nothing lost between buffer and connection |
| Upgrade.ReadHeaders | go-core/transport/websocket.go:73-91 | the header loop stops at the first blank line with the last key found |
| Upgrade.ServerUpgrade | go-core/transport/websocket.go:63-113 | for every request: the answer to its key followed by the GUID, the error cases, and that the bytes behind the blank line are those lost with the reader and those still to come |
| Upgrade.ClientUpgrade | go-core/transport/websocket.go:17-60 | request sent for the configured or the default path, answer judged, and the same account of the bytes behind the answer |
| Upgrade.TailYieldsKey | go-core/transport/websocket.go:28-31 | the fixed part of the request is read to its end and yields the key, whatever preceded it |
| Upgrade.ResponseAccepted | go-core/transport/websocket.go:102-105 | the server's answer is accepted by the client and read to its end |
| Upgrade.RefusedIff | go-core/transport/websocket.go:39-45 | whatever the answer, the client refuses it exactly when its first line has "101" nowhere |
| Upgrade.NotFoundIsRefused | go-core/transport/websocket.go:43-45 | a 404 answer is refused |
| Upgrade.RequestLines | go-core/transport/websocket.go:28-31 | the request split at its line ends is exactly these seven lines, with path, host and key in theirs |
| Upgrade.ResponseLines | go-core/transport/websocket.go:102-105 | the answer split at its line ends is exactly these five lines |
| Upgrade.UpdateKeyMeaning | go-core/transport/websocket.go:83-89 | a header line changes the key exactly when it starts with the name in any case and has a colon, and then to the trimmed text behind the first one |
| Upgrade.IncompleteIff | go-core/transport/websocket.go:73-82 | the header loop runs into the end of the stream exactly when no complete line is blank |
| Upgrade.RequestConsumedIff | go-core/transport/websocket.go:66-91 | the server reads the request to its end and finds the key sent if and only if path and host put no blank line into the headers |
| Upgrade.BlankLineInPath | go-core/transport/websocket.go:66-82 | two paths, one with a non-ASCII space, that put a blank line there for every host |
| Text.TrimShape | go-core/transport/websocket.go:79-87 | TrimSpace cuts off white space characters at both ends and leaves none there |
| Text.SpaceCodeIff | go-core/transport/websocket.go:79 | the bytes taken for white space are the UTF-8 of Unicode's white space, code point by code point |
| Text.Base64RoundTrip | go-core/transport/websocket.go:26-101 | base64 text decodes to the bytes it encodes (RFC 4648 section 4) |
| Text.BlankIff | go-core/transport/websocket.go:53-80 | trimming a line empties it exactly when it is one white space character after another, in UTF-8 |
| Upgrade.OrdinaryIsSafe | go-core/transport/websocket.go:18-31 | path and host without line feeds put none there |
| Upgrade.KeysAreTokens | go-core/transport/websocket.go:23-26 | a base64 key survives trimming and holds no line feed |
| Handoff.ServerSideAccounting | go-core/transport/websocket.go:64-112 | for any request, in every interleaving: bytes lost, read and in flight are the request's remainder and then all the bytes the run's writes by the client hold; as many are read as the run's reads took |
| Handoff.ClientSideAccounting | go-core/transport/websocket.go:36-59 | for any request, in every interleaving: bytes lost, read and in flight at the client are all the server's writes in the run |
| Handoff.AnswerIsSent | go-core/transport/websocket.go:98-107 | the step that brings the server up puts on the wire the answer to the key it found, and nothing else is there |
| Handoff.CleanHandoffIff | go-core/transport/websocket.go:64-112 | in every run with the server up: nothing is lost and the server reads exactly what the client writes, if and only if the server reads the request to its end |
| Handoff.RequestReadsWholeIff | go-core/transport/websocket.go:28-91 | the client's own request is read whole, with its key, exactly when path and host put no blank line into it |
| Handoff.HandoffLosesNothing | go-core/transport/websocket.go:28-112 | for a request that is read whole, in every interleaving and chunking both dropped readers are empty, the server has the client's key, nobody fails, and each side has read the first bytes of what the steps of the other wrote, as many as its own reads took (RFC 6455 sections 4.1 and 4.2) |
| Handoff.HandoffCompletes | go-core/transport/websocket.go:28-112 | for every such request some interleaving brings both sides up |
| Handoff.BothWaysOpen | go-core/client/client.go:144-161 | and for any bytes asked and answered some run carries them across, both ways |
| Handoff.UpgradedStreamDecodes | go-core/client/client.go:144-161 | from the first byte after the upgrade, what the server has read decodes to a prefix of what all the client's bytes decode to, and to the whole when nothing is in flight |
| Tunnel.MessagesReachServer | go-core/client/client.go:203-207 | in every interleaving after a clean handoff: messages that the client's writes begin with are what the server's ReadMessage calls return, in order, once its reads took as many bytes |
| Tunnel.MessagesReachClient | go-core/server/server.go:205-241 | and the server's messages are what the client's calls return |
| SessionQueue.PickRotates | go-core/server/server.go:30-43 | pick fails exactly when no pooled session is open and then the pool is empty; otherwise the open sessions rotate by one |
| SessionQueue.PickDropsOnlyClosed | go-core/server/server.go:30-43 | what pick drops is the closed sessions in front of the one it returns |
| SessionQueue.PickKeepsDistinct | go-core/server/server.go:30-43 | picking never duplicates a session |
| SessionQueue.RemoveShape | go-core/server/server.go:45-54 | remove deletes the first entry of the session, if any, and keeps the order |
| SessionQueue.RemoveKeepsDistinct | go-core/server/server.go:45-54 | after remove the session is gone from a pool without duplicates |
| SessionQueue.BoundedWaiting | go-core/server/server.go:23-54 | under any interleaving a session at index i that stays open and in the pool is returned by one of the next i+1 picks |
| SessionQueue.ClosedNeverReturned | go-core/server/server.go:37-39 | a session is never returned after it closed |
| SessionQueue.ReturnedWasPooled | go-core/server/server.go:23-43 | only sessions that were added are returned |
| SessionQueue.OpenSessionsStay | go-core/server/server.go:23-54 | over any run an open session is in the pool as often as it was added |
| SessionQueue.RoundRobin | go-core/server/server.go:29-43 | with n open sessions the i-th of any number of picks returns session i mod n, and every n picks restore the order |
| SessionPools.SessionPool.Append | go-core/server/server.go:26 | append in place or into a larger copy extends the queue at its end |
| SessionPools.SessionPool.Add | go-core/server/server.go:23-27 | the slice code appends to the queue |
| SessionPools.SessionPool.Pick | go-core/server/server.go:30-43 | the slice loop computes the abstract pick, result and new queue |
| SessionPools.SessionPool.Remove | go-core/server/server.go:45-54 | the scan and the in-place shift compute the abstract remove |
| SessionPools.SessionPool.CloseGap | go-core/server/server.go:50 | the shift drops one entry and moves the rest down in order |
| Server.SetupPools | go-core/server/server.go:96-109 | every configured service gets one pool of its own, empty: a UDP pool exactly for the type "udp", a TCP pool for any other and for none |
| Server.AuthenticateMeaning | go-core/server/server.go:205-232 | Success is answered exactly to an Auth naming a configured service with the hash of the service's own token, or of the default token if it has none, and each refusal has exactly its own cause |
| Server.ClientAcceptedIff | go-core/client/client.go:183-219 | a client's Auth is accepted exactly when the server has the service and the tokens that count on either side, own before default, hash alike; for a hash without collisions, exactly when they are the same |
| Server.RoutingInvariant | go-core/server/server.go:198-285 | in every run: one pool per service and of its type, pooled sessions authenticated for that service, none pooled twice, no open one missing |
| Server.AuthenticatedIsPooled | go-core/server/server.go:263-281 | the branches for a missing pool are unreachable: in every run a new connection with a matching Auth is pooled under its service |
| Server.VisitorServedIff | go-core/server/server.go:300-306 | in every run a visitor gets a session that some step of the run connected with a matching Auth for its service and no step closed, and is turned away exactly when there is none |
| Server.ClosedIsNotServed | go-core/server/server.go:37-39 | any session may close in any run, and no visitor is given it afterwards |
| Server.FailedSessionLeaves | go-core/server/server.go:308-316 | a session that closed before it could be opened is taken out of its pool and nothing else changes; one that is still open stays |
| Server.RunRefines | go-core/server/server.go:198-320 | seen from one service, every run of the server is a run of the session queue |
| Server.EverySessionServes | go-core/server/server.go:300-320 | whatever happens in the server, a session at index i that stays open serves one of the next i+1 visitors of its service |
| Udp.DatagramRoundTripIff | go-core/udp/udp.go:75-113 | a datagram is read back with its boundaries exactly when key and payload fit 16-bit lengths |
| Udp.DatagramLayout | go-core/udp/udp.go:75-81 | the bytes of every frame: key length, key, payload length, payload, lengths modulo 65536 with the high byte first |
| Udp.TunnelRoundTrip | go-core/udp/udp.go:75-165 | any list of datagrams, empty ones included, is parsed back in order |
| Udp.PartialStream | go-core/udp/udp.go:141-165 | while bytes are missing, what was parsed is a prefix |
| Udp.ServerFrame | go-core/udp/udp.go:75-81 | the server's buffer is one encoded datagram with the source's key |
| Udp.ClientFrame | go-core/udp/udp.go:178-182 | the client's buffer is one encoded datagram with an empty key |
| Udp.ReadField | go-core/udp/udp.go:93-101 | a length and that many bytes, or the end of the stream |
| Udp.ReadDatagram | go-core/udp/udp.go:91-113 | one pass of the reading loops gives the next datagram for every chunking |
| Udp.RelayToLocal | go-core/udp/udp.go:140-167 | the client's loop hands every payload of the stream to the local socket, in order |
| Udp.UdpServer.OnDatagram | go-core/udp/udp.go:64-81 | the table entry is refreshed and the frame carries key and payload |
| Udp.UdpServer.Sweep | go-core/udp/udp.go:49-56 | the deletion loop leaves exactly the entries seen in the last 60 seconds |
| Udp.UdpServer.OnFrame | go-core/udp/udp.go:91-119 | the payload is sent exactly when the key is in the table, to that entry's address |
| Udp.TableOverRuns | go-core/udp/udp.go:41-73 | in every run: an entry is where and when the steps last received its key and at most 90 seconds old, a key received in the last 60 seconds is there, and no key is empty when no address prints to nothing |
| Udp.ReplyRule | go-core/udp/udp.go:113-119 | in every run a reply goes to the address its key was last received from while that is at most 60 seconds ago, and is dropped once it is more than 90 seconds ago or never was |
| Udp.PromptReplyIsSent | go-core/udp/udp.go:64-119 | a datagram, up to 30 seconds, a reply: the reply is sent to the source |
| Udp.LateReplyIsDropped | go-core/udp/udp.go:41-119 | a datagram, three cleanup periods, a reply: nothing is sent |
| Udp.ClientRepliesAreDropped | go-core/udp/udp.go:170-184 | whatever ClientUDP writes is parsed faithfully by the server and none of it is sent, in every run |
| Balancer.IndexMeaning | go-core/loadbalancer/loadbalancer.go:63 | the index is the remainder, with the sign of the dividend, of the int the counter converts to |
| Balancer.IndexInRangeIff | go-core/loadbalancer/loadbalancer.go:63 | the round-robin index is valid exactly when the counter converts to a non-negative int or a negative multiple of the list length |
| Balancer.IndexCanBeNegative | go-core/loadbalancer/loadbalancer.go:63 | a counter for which the index is -1 |
| Balancer.AfterCallsIs | go-core/loadbalancer/loadbalancer.go:62 | k calls draw k successive counter values, wrapping at 2^64 |
| Balancer.HitsExactly | go-core/loadbalancer/loadbalancer.go:62-63 | after k calls every backend was hit floor(k/n) or one more times, and which |
| Balancer.EveryWindowHitsEach | go-core/loadbalancer/loadbalancer.go:62-63 | every window of n calls hits each backend once |
| Balancer.LoadBalancer.Next | go-core/loadbalancer/loadbalancer.go:55-81 | no backend, a panic, or an index: the counter's for round robin, the first minimum for least connections |
| Balancer.LoadBalancer.Connect | go-core/loadbalancer/loadbalancer.go:84-103 | success counts one connection at the chosen backend; a failed dial leaves every counter as it was |
| Balancer.LoadBalancer.Release | go-core/loadbalancer/loadbalancer.go:106-110 | one counter goes down, and an index outside the list changes nothing |
| Balancer.CountersConserved | go-core/loadbalancer/loadbalancer.go:84-110 | in every interleaving each counter is dials in progress plus connections held, never negative |
| Balancer.CountersFromSteps | go-core/loadbalancer/loadbalancer.go:84-110 | in every run a counter is the increments at its backend less the failed dials and releases there |
| Balancer.UndisturbedScan | go-core/loadbalancer/loadbalancer.go:68-78 | a scan that runs alone chooses the first of the least counters |
| Balancer.CallsComplete | go-core/loadbalancer/loadbalancer.go:84-110 | a call that chose can be counted, and a failed dial or the release undoes exactly that |
| Balancer.LeastConnectionsBalance | go-core/loadbalancer/loadbalancer.go:68-96 | for every interleaving of the scans' single loads, with at most T calls in flight every counter stays within T of the smallest |
| Stun.AlignedRoundsUpIff | go-core/p2p/p2p.go:85 | the padding formula rounds up to a multiple of four exactly up to 65532 and gives zero above |
| Stun.ParseResponse | go-core/p2p/p2p.go:59-88 | the loop over the buffer computes the specified walk, and ends even when the 16-bit sum wraps |
| Stun.CompleteResponse | go-core/p2p/p2p.go:63-88 | for every complete response the first attribute that can hold a mapped address decides, whatever lies or was received behind the message (RFC 5389 section 15) |
| Stun.AddressRoundTrip | go-core/p2p/p2p.go:75-81 | the address and port a server encodes are those discovered (RFC 5389 section 15.2) |
| Stun.FamilyIgnored | go-core/p2p/p2p.go:73-81 | the decoded address does not depend on the family |
| Stun.DiscoversAddress | go-core/p2p/p2p.go:63-88 | from any complete response whose first mapped address encodes an address and port, exactly these are found, whatever surrounds it |
| Stun.SampleResponse | go-core/p2p/p2p.go:63-88 | the sample response of RFC 5769 section 2.2 gives 192.0.2.1 and port 32853 |
| Stun.PanicIff | go-core/p2p/p2p.go:68-81 | for every buffer the walk indexes past it if and only if the first mapped address header it meets is at offset 248 or later |
| Stun.CutResponsePanics | go-core/p2p/p2p.go:68-81 | a response that makes the whole walk do so: length field 232, an attribute of length 224, then a mapped address header |
| Stun.PanicPossibleIff | go-core/p2p/p2p.go:53-81 | among the responses of n bytes some makes the walk panic if and only if n is at least 252 |

## Left out

- JSON encoding of control messages: payloads are byte strings; the server machine starts from the decoded Auth.
- yamux, TLS, certificates, SHA-1 and SHA-256, and `relay.go`: library code or plain copying; a session is an identity that may close.
- Deadlines, tickers, dialling, retries and sleeps: time is an explicit clock in `udp.dfy` and absent elsewhere.
- Noise.ServerUpgrade: base64 decoding of the configured key is a parameter, and the random source does not fail.
- Server.RoutingInvariant: a failed write of the answer or a failed yamux upgrade is an outcome of the connect step; what the peer sees of it is not modelled.
- Server.VisitorServedIff: no liveness is claimed for the UDP starter loop, which blocks forever after one empty pick.
- The type udpPool is modelled by the same class as sessionPool, whose add and pick it repeats.
- Udp.UdpServer.OnFrame: sending to the socket is the returned address; delivery by the network is not modelled.
- Balancer.LoadBalancer.Next: the random strategy is any index; its distribution is not modelled, and counters are unbounded integers.
- STUN request layout, hole punching, peer exchange, heartbeats, the HTTP proxy, configuration loading and the installer: they would add only easy members or are network timing.
