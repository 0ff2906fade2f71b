# EtherNet/IP and BACnet/IP servers, verified

This project models the two protocol servers that Cursus implements by hand and proves what they
promise their clients.

**EtherNet/IP** (`src/cursus/enip/server.py`). A TCP connection carries encapsulation frames; the
server reassembles them, keeps a table of sessions that all connections share, unwraps SendRRData
payloads (Common Packet Format), parses CIP paths, and reads or writes assemblies.

**BACnet/IP** (`src/cursus/bacnet/server.py`). A datagram is unwrapped (BVLC, NPDU, APDU); the server
answers Who-Is, ReadProperty and WriteProperty over a table of analog values.

## How the model is built

| file | part |
|---|---|
| `Bytes.dfy` | byte strings, fixed-width integers |
| `EnipFrames.dfy` | encapsulation frames and streams of frames |
| `EnipPath.dfy` | CIP paths: grammar and parser |
| `EnipPadded.dfy` | CIP paths in the standard's padded form |
| `EnipCpf.dfy` | Common Packet Format: format and item loop |
| `EnipObjects.dfy` | CIP message router, Identity and Assembly objects |
| `EnipProtocol.dfy` | the encapsulation commands on values |
| `EnipServer.dfy` | the server and connection objects, updated in place, proved against the functions |
| `EnipWire.dfy` | requests and replies octet by octet |
| `EnipRuns.dfy` | all interleavings of any number of connections |
| `EnipSessions.dfy`, `EnipStreams.dfy`, `EnipHandles.dfy`, `EnipAssemblies.dfy` | what every run keeps: sessions, byte streams, handles on the wire, assemblies and sizes |
| `EnipSolo.dfy` | a connection alone: the interleaved runs and the server loop agree |
| `EnipExchange.dfy` | a client's whole exchange, bytes in and bytes out |
| `EnipWitnesses.dfy` | runs from the start: a write that outlives its session, a handle no reply can carry |
| `BacnetTags.dfy` | tagged values, encoders and decoders |
| `BacnetStack.dfy` | the BACnet layers on values |
| `BacnetServer.dfy` | the server and its analog values, updated in place |
| `BacnetRequests.dfy`, `BacnetReplies.dfy`, `BacnetRuns.dfy` | requests, replies, whole runs |
| `BacnetWire.dfy`, `BacnetProperties.dfy` | which datagrams are understood and what answers them, octet by octet |

- A byte is an integer below 256; shifts and masks are written as division and remainder.
- A Python exception that leaves the frame or datagram handler is an outcome of its own (`Raise`, or
  `None` for a KeyError or ValueError that the caller turns into an answer).
- Received chunks are inputs and sent bytes are appended to an output. In the interleaved model a
  step is what the code does under one lock: taking and handling a frame is one step, but an admitted
  SendRRData runs its CIP action in a second step, because the session check and the assembly access
  hold different locks. A connection may close in any state in which its handler is not inside a frame.
- Each BACnet datagram reads or writes the table at one point, so a run is a sequence of datagrams.
- A REAL is its four octets. Strings are the octets of their ASCII encoding.

## Where the code differs from what one might expect

Each line names the members that show a failing input and say exactly when the code does meet the
expectation.

- WriteProperty cuts the value at the first 0x3F octet, so a REAL with such an octet is never
  accepted; 1.0, which is 3F 80 00 00, is one (`BacnetRequests.OneIsRefused`). A write is accepted
  exactly for a known instance and octets without 0x3F (`BacnetRequests.WriteThenRead`).
- When an NPDU names both networks, the code looks for the hop count before the source fields; section
  6.2 of ASHRAE 135 puts it last. A routed Who-Is is lost (`BacnetReplies.RoutedWhoIsIsLost`); the APDU
  is found exactly if the octet behind the source length equals it (`BacnetRequests.StandardOrderExactly`).
- Who-Is limits are read as application tags; section 16.10 of ASHRAE 135 uses context tags, and such
  limits are ignored: every device answers (`BacnetReplies.WhoIsAnswered`, `DiscoveryAnswered`). The
  standard's filter is honoured exactly for instances it lets through (`BacnetReplies.StandardFilterExactly`).
- Tag lengths 254 and 255 are written as plain length octets; section 20.2.1.3.1 of ASHRAE 135 has them
  announce 16-bit and 32-bit lengths. Headers agree exactly up to 253 octets
  (`BacnetTags.StandardHeaderExactly`), so a client that keeps to the standard can read a string property
  exactly up to 252 characters (`BacnetReplies.StringReadableExactly`); `BacnetReplies.LongestReply` shows
  a reply beyond that.
- A BACnet decoder that meets an extended-length tag as the last octet raises IndexError. With an
  encodable configuration that is the only way a request can raise: it must stop at the tag octet 0D, 1D,
  2D or 25 of its next field (`BacnetReplies.RaisesExactly`, `RaisingDatagram`).
- An I-Am has no fixed small bound. With three numbers of 255 octets it has 784 octets
  (`BacnetReplies.LongestIAm`), while every other reply has at most 275. All replies stay within 275
  exactly if the device can send no I-Am or its three tagged numbers take at most 262 octets
  (`BacnetReplies.BoundExactly`).
- CIP segments of 16 and 32 bits are read with no pad byte behind the segment code; appendix C-1.4 of
  volume 1 of the CIP specification puts one there. A padded path that names its class, its instance
  and perhaps an attribute once each, in any order and widths, is understood exactly if all its 16- and
  32-bit values are 0 (`EnipPadded.PaddedPathExactly`). If these values leave their highest byte free, the path is
  accepted with each of them multiplied by 256 (`EnipPadded.MisreadPath`), so a padded write to a nonzero number
  goes to another assembly (`EnipPadded.PaddedWriteMisdirected`).
- A session may be unregistered by any connection. The handle then stays in its owner's set: a handle in
  a set is active exactly as long as its grant stands (`EnipSessions.SessionTable`).
- A CIP action may run after its session has ended (`EnipSessions.ActionOutlivesSession`), and
  `EnipWitnesses.WriteAfterSessionEnded` is such a run from the server's start. At the action the session is
  active exactly if its grant still stands (`EnipSessions.SessionAtAction`).
- Session handles do not wrap. Handle 2^32 cannot be packed and fails its connection
  (`EnipAssemblies.RegistrationFailsExactly`); under every configuration some run gets there
  (`EnipWitnesses.HandlesRunOut`).

## Model

| member | source | states |
|---|---|---|
| EnipFrames.AfterFirst | src/cursus/enip/server.py:142-155 | taking a frame shrinks the buffer by at least 24 bytes, so the inner loop ends |
| EnipFrames.ParseEncoded | src/cursus/enip/server.py:142-155 | a stream of encoded frames with an incomplete rest parses to exactly those frames and that rest |
| EnipFrames.ParseReconstructs | src/cursus/enip/server.py:142-155 | whatever was parsed re-encodes to the stream, byte for byte, and the leftover holds no whole frame |
| EnipFrames.ParseExactly | src/cursus/enip/server.py:142-155 | frames and leftover are the parse of a stream if and only if the stream encodes them |
| EnipFrames.ParseResumes | src/cursus/enip/server.py:141-155 | parsing may be interrupted anywhere and resumed from the leftover |
| EnipPath.ParseCipPath | src/cursus/enip/server.py:581-609 | the loop over the path ends with its offset in range and returns what the recursive parser returns |
| EnipPath.ReadPathValue | src/cursus/enip/server.py:611-627 | a value that is read moves the offset forward, never past the end |
| EnipPath.ParseEncodedPath | src/cursus/enip/server.py:581-627 | any sequence of segments, in any order, width and padding, parses to the last value of each kind |
| EnipPath.ParsesExactly | src/cursus/enip/server.py:581-627 | a byte string is accepted if and only if it is a path of the grammar with a class and an instance; all others raise ValueError |
| EnipPath.AttributePathLength | src/cursus/enip/server.py:581-627 | an accepted path spends at least four bytes, six when it names an attribute |
| EnipPath.SegmentOctets | src/cursus/enip/server.py:71-81 | the codes of the nine segments and their values, lowest octet first |
| EnipPath.BytePath | src/cursus/enip/server.py:581-609 | the usual path 20 c 24 i 30 a, and 20 c 24 i, gives class, instance and attribute |
| EnipPadded.MisreadPath | src/cursus/enip/server.py:581-627 | a padded path whose long values leave their highest byte free is accepted with each of them multiplied by 256 |
| EnipPadded.NeedsAreMet | src/cursus/enip/server.py:581-609 | no byte of a path is read twice: values still missing have to stand in the rest of the path |
| EnipPadded.PaddedPathExactly | src/cursus/enip/server.py:581-627 | a padded path naming each kind once, in any order and widths, is understood if and only if its 16- and 32-bit values are 0 |
| EnipPadded.PaddedWriteMisdirected | src/cursus/enip/server.py:432-484 | a write with a padded 16- or 32-bit assembly number goes to the assembly of 256 times that number |
| EnipCpf.SelectEncoded | src/cursus/enip/server.py:405-424 | the item loop picks the last unconnected-data item and ignores bytes behind the counted items |
| EnipCpf.SelectsExactly | src/cursus/enip/server.py:401-427 | a request is found if and only if the payload is a well-formed message for interface 0 holding one |
| EnipCpf.RefusesExactly | src/cursus/enip/server.py:401-427 | a payload is refused exactly for a short header, a non-zero interface, a truncated counted item, or no request item |
| EnipCpf.UnconnectedSelects | src/cursus/enip/server.py:429-430 | the reply reparses under the same loop to the CIP response, with the same timeout |
| EnipObjects.DecodeEncoded | src/cursus/enip/server.py:436-447 | a client's CIP request is taken apart into its service, target and data |
| EnipObjects.StoreEffect | src/cursus/enip/server.py:432-484 | only a write of an existing assembly changes the store, in that one entry; no request creates an instance |
| EnipObjects.ReadAnswers | src/cursus/enip/server.py:486-536 | a read of an assembly, by either service, answers exactly service + 80, 0, 0, 0 and the stored bytes, or status 5 and no data |
| EnipObjects.AssemblyRequests | src/cursus/enip/server.py:432-479 | the octets with which a client reads and writes an assembly |
| EnipObjects.StatusTells | src/cursus/enip/server.py:432-560 | every answer starts with the service under the reply bit; its status, in the numbers of the wire, tells exactly why a request was refused |
| EnipObjects.IdentityAllAnswers | src/cursus/enip/server.py:495-500 | Get_Attributes_All on the Identity object answers attributes 1 to 7, each field at its place |
| EnipObjects.IdentityAttributeAnswers | src/cursus/enip/server.py:516-579 | Get_Attribute_Single on the Identity object answers each of the attributes 1 to 8, and refuses the others |
| EnipObjects.FailedRequestsChangeNothing | src/cursus/enip/server.py:432-560 | the status byte tells success exactly; a failed request answers a bare status and changes nothing |
| EnipObjects.RaisesOnlyOnLongName | src/cursus/enip/server.py:562-579 | the only exception is an Identity read while the product name exceeds 255 bytes |
| EnipObjects.ClientReadsIdentity | src/cursus/enip/server.py:495-500 | every identity field stands at its place in the joined attributes |
| EnipProtocol.ServeSplit | src/cursus/enip/server.py:135-162 | frames may be served in two goes, with the same output, state and sessions |
| EnipProtocol.RaisedStays | src/cursus/enip/server.py:135-166 | an exception ends the connection: later frames have no effect |
| EnipProtocol.RegistersExactly | src/cursus/enip/server.py:320-334 | a registration is granted exactly for the payload 01 00 00 00 |
| EnipProtocol.JoinConcat | src/cursus/enip/server.py:137-141 | the bytes of a list of chunks are those of its parts, one behind the other |
| EnipProtocol.RefusedFramesChangeNothing | src/cursus/enip/server.py:232-289 | the status word on the wire tells why a frame is refused; a refused frame gets a bare header and changes neither sessions nor assemblies |
| EnipWire.FrameOctets | src/cursus/enip/server.py:142-155 | where command, length, session, context, options and payload stand in a request |
| EnipWire.BuiltOctets | src/cursus/enip/server.py:291-310 | where they stand, with the status, in a reply; longer payloads and larger handles fail |
| EnipWire.RegistrationOctets | src/cursus/enip/server.py:247-261 | the three session commands by their numbers, and the one payload that registers |
| EnipWire.SessionOctets | src/cursus/enip/server.py:312-352 | the exact reply and the exact change of the session table for RegisterSession and UnRegisterSession |
| EnipWire.ListOctets | src/cursus/enip/server.py:263-269 | the exact replies to the three list commands, which change nothing |
| EnipWire.ServiceName | src/cursus/enip/server.py:358-369 | the ListServices payload, with its name as text |
| EnipWire.IdentityOctets | src/cursus/enip/server.py:371-399 | every field of the ListIdentity payload stands at its place |
| EnipWire.RequestOctets | src/cursus/enip/server.py:401-424 | a client's payload, octet by octet, gives the server its CIP request |
| EnipWire.SendRrOctets | src/cursus/enip/server.py:270-289 | the exact reply to an admitted SendRRData with its CIP response and timeout, and exactly when it cannot be packed |
| EnipWire.RefusalOctets | src/cursus/enip/server.py:239-289 | the exact reply to every refused frame, which changes nothing |
| EnipServer.Server.constructor | src/cursus/enip/server.py:186-191 | the first handle is 1, no session is active, assemblies are the configured ones |
| EnipServer.Server.SetAssemblyData | src/cursus/enip/server.py:214-217 | exactly that instance gets the new bytes |
| EnipServer.Server.GetAssemblyData | src/cursus/enip/server.py:219-222 | the stored bytes, or a KeyError |
| EnipServer.Server.ReleaseSessions | src/cursus/enip/server.py:224-230 | a closing connection takes exactly its own handles out of the active set |
| EnipServer.Server.RegisterSession | src/cursus/enip/server.py:312-347 | a granted registration takes the next handle and enters it in both sets; a refused one changes nothing |
| EnipServer.Server.UnregisterSession | src/cursus/enip/server.py:349-352 | the handle leaves the active set and the sender's own set |
| EnipServer.Server.SetAttributeSingle | src/cursus/enip/server.py:538-560 | the store changes exactly on success |
| EnipServer.Server.HandleCipRequest | src/cursus/enip/server.py:432-484 | response and new store are those of the CIP specification function |
| EnipServer.Server.HandleSendRrData | src/cursus/enip/server.py:401-430 | the item loop, the CIP action and the reply refine the functional SendRRData |
| EnipServer.Server.Handle | src/cursus/enip/server.py:232-289 | reply, shared state and connection sessions after one frame are those of the protocol function |
| EnipServer.Server.DrainBuffer | src/cursus/enip/server.py:142-162 | the inner loop serves exactly the whole frames of its buffer and leaves the parse's rest |
| EnipServer.Server.ServeConnection | src/cursus/enip/server.py:129-166 | only an empty chunk ends the stream; output, leftover and final server state are those of a one-shot parse of the chunks before it, joined, however they were cut |
| EnipRuns.StepsRefineHandler | src/cursus/enip/server.py:232-289 | without interference the two steps of a frame are the frame handler |
| EnipSolo.SoloRunIsServed | src/cursus/enip/server.py:129-166 | in every run of one connection alone, output, leftover and shared state are those of the server loop over a one-shot parse of its input |
| EnipSolo.StreamIsServed | src/cursus/enip/server.py:129-166 | every stream in every chunking has such a run, from its first chunk to the release of its sessions |
| EnipSessions.StepChanges | src/cursus/enip/server.py:224-230 | every step of every interleaving changes the session table in one of five ways |
| EnipSessions.SessionTable | src/cursus/enip/server.py:336-356 | in every run active handles lie below the next one, open connections' sets are disjoint, each active handle is in exactly one of them, a handle in a set is active exactly if its grant still stands, and handles are issued in increasing order |
| EnipSessions.SessionCheck | src/cursus/enip/server.py:271-275 | a SendRRData passes the session check exactly when its handle was issued, not unregistered since, and its connection not closed since |
| EnipSessions.AwaitingWasGranted | src/cursus/enip/server.py:271-275 | the step that took the frame of a waiting CIP action found its session granted |
| EnipSessions.SessionAtAction | src/cursus/enip/server.py:271-275 | when a CIP action runs, its session is active if and only if it is still granted by the history |
| EnipSessions.OthersDoNotDisturb | src/cursus/enip/server.py:354-356 | steps of other connections leave a waiting connection as it is |
| EnipSessions.ActionOutlivesSession | src/cursus/enip/server.py:349-356 | the check is not held: another connection may end the session before the action, which then has the same effect |
| EnipWitnesses.RaceIsReached | src/cursus/enip/server.py:336-356 | seven steps from the start make any request wait under a session that another connection is about to unregister |
| EnipWitnesses.WriteAfterSessionEnded | src/cursus/enip/server.py:271-275 | from the start a run is reached in which a write is carried out although nobody holds its session any more |
| EnipWitnesses.EveryHandleIsReached | src/cursus/enip/server.py:336-347 | every handle from 1 on is the next one after some run from the start |
| EnipWitnesses.HandlesRunOut | src/cursus/enip/server.py:343-347 | under every configuration some run ends with a handler that failed to pack its session handle |
| EnipSessions.NeverRevived | src/cursus/enip/server.py:336-352 | an issued handle that is no longer active never becomes active again |
| EnipStreams.InputIsOneParse | src/cursus/enip/server.py:132-155 | under every interleaving each connection takes the frames of a one-shot parse of its input, in order |
| EnipStreams.OutputIsAnswers | src/cursus/enip/server.py:157-162 | the bytes sent parse, with nothing left over, into one reply per frame other than UnRegisterSession, in order, echoing command and context with options 0; a connection waiting for its CIP action, or failed, lacks exactly the last one, and a closed one at most that |
| EnipStreams.EveryRequestAnswered | src/cursus/enip/server.py:157-166 | where nothing can overflow, every connection, closed ones included, has sent all replies that are due, save that of a CIP action still to run |
| EnipStreams.AdmitReplies | src/cursus/enip/server.py:239-310 | each command's reply is one whole frame that answers its request: same command and context, the request's handle, or 0 for the list commands and refused registrations |
| EnipStreams.RegistrationReplies | src/cursus/enip/server.py:336-347 | the reply to a granted registration carries exactly the next handle, and fails to pack from 2^32 on |
| EnipHandles.WireMatchesHistory | src/cursus/enip/server.py:336-347 | in every run the handles granted on a connection's wire are the ones issued to it, in order; only a last one beyond 32 bits is issued without a reply |
| EnipHandles.CheckedHandleWasSent | src/cursus/enip/server.py:271-275 | every SendRRData that passes the session check uses a handle that a registration reply carried to the connection whose grant stands |
| EnipHandles.NoHandleTwice | src/cursus/enip/server.py:336-340 | no two registrations of a run, on whatever connections, are answered with the same handle |
| EnipAssemblies.StepReplays | src/cursus/enip/server.py:214-217 | a step logs at most one event and its effect on the store is to replay it; a wire write needs an existing instance |
| EnipAssemblies.StoreIsHistory | src/cursus/enip/server.py:190-222 | after every run each assembly holds its last written bytes, else the configured; only configuration and API create instances |
| EnipAssemblies.ReadsLastWrite | src/cursus/enip/server.py:401-536 | last write wins through the full stack, in every interleaving: the reply holds status 0 and, octet by octet, the bytes last written; with the exact size at which it fails |
| EnipAssemblies.ReadReplies | src/cursus/enip/server.py:429-430 | a read reply fails to pack if and only if the assembly exceeds 65515 bytes |
| EnipAssemblies.WriteIsShort | src/cursus/enip/server.py:401-479 | a wire write spends at least twenty bytes of its payload before the data |
| EnipAssemblies.RegistrationFailsExactly | src/cursus/enip/server.py:336-347 | a granted registration fails to pack exactly from handle 2^32 on |
| EnipAssemblies.NothingOverflows | src/cursus/enip/server.py:291-310 | if configured and API data stay within 65515 bytes, so does every assembly in every run, and no reply overflows a length field |
| EnipExchange.WriteThenRead | src/cursus/enip/server.py:129-166 | a client that registers, writes and reads back gets exactly three frames: its session, 90 00 00 00, and 8E 00 00 00 with its bytes |
| EnipExchange.LargestWrite | src/cursus/enip/server.py:401-479 | the bound is tight: a full payload writes any 65515 bytes |
| BacnetTags.ToBytes | src/cursus/bacnet/server.py:514-518 | the octet string has the requested length |
| BacnetTags.EncodedLength | src/cursus/bacnet/server.py:514-518 | the length taken from the bit length is the number of base-256 digits |
| BacnetTags.UnsignedRoundTrip | src/cursus/bacnet/server.py:514-518 | decoding the big-endian octets gives the value back |
| BacnetTags.FromBytesConcat | src/cursus/bacnet/server.py:540 | octets are read with the highest first |
| BacnetTags.EncodedIsShortest | src/cursus/bacnet/server.py:514-518 | no non-empty octet string with the same value is shorter |
| BacnetTags.EncodableExactly | src/cursus/bacnet/server.py:508-518 | a value fits the one-octet tag length exactly below 256^255 |
| BacnetTags.TaggedHeader | src/cursus/bacnet/server.py:508-512 | tag number, class, length and content are recovered at any offset, for inline and extended lengths |
| BacnetTags.ApplicationUnsignedAt | src/cursus/bacnet/server.py:527-540 | application unsigned round trip behind any prefix and before any suffix |
| BacnetTags.ContextUnsignedAt | src/cursus/bacnet/server.py:542-552 | context unsigned round trip behind any prefix and before any suffix |
| BacnetTags.ContextObjectAt | src/cursus/bacnet/server.py:554-573 | object identifier round trip, type and instance, behind any prefix and before any suffix |
| BacnetTags.PackedObjectOctets | src/cursus/bacnet/server.py:490-492 | the four octets of an object identifier, type over instance |
| BacnetTags.TagOctets | src/cursus/bacnet/server.py:479-500 | identifiers, REALs, strings and bit strings with their tags as they stand on the wire |
| BacnetTags.NumberTags | src/cursus/bacnet/server.py:471-496 | unsigned, enumerated and context numbers with their tags as they stand on the wire |
| BacnetTags.ApplicationRealExactly | src/cursus/bacnet/server.py:520-525 | a payload decodes to a REAL if and only if it is the encoding of it |
| BacnetTags.IndexErrorExactly | src/cursus/bacnet/server.py:575-579 | each decoder, that of object identifiers included, runs off the end exactly on an extended-length tag of its kind in the last octet |
| BacnetTags.StandardHeaderExactly | src/cursus/bacnet/server.py:508-512 | tag headers are those of section 20.2.1.3.1 of ASHRAE 135 if and only if the length is at most 253 |
| BacnetStack.Find | src/cursus/bacnet/server.py:463-465 | the first occurrence from an offset on, or none |
| BacnetServer.CopyValues | src/cursus/bacnet/server.py:159-168 | the server's analog values are fresh, distinct copies of the configured ones |
| BacnetServer.Server.constructor | src/cursus/bacnet/server.py:145-168 | the table starts as configured |
| BacnetServer.Server.GetPresentValue | src/cursus/bacnet/server.py:191-194 | the present value, or a KeyError |
| BacnetServer.Server.SetPresentValue | src/cursus/bacnet/server.py:196-199 | exactly that present value changes |
| BacnetServer.Server.WriteProperty | src/cursus/bacnet/server.py:379-400 | an accepted write changes exactly one present value; a refused one nothing |
| BacnetServer.Server.ReadAnalogValueProperty | src/cursus/bacnet/server.py:361-377 | the property of the object as it is now |
| BacnetServer.Server.HandleRead | src/cursus/bacnet/server.py:296-317 | the ReadProperty reply of the functional stack, which BacnetProperties pins octet by octet |
| BacnetServer.Server.HandleWrite | src/cursus/bacnet/server.py:319-333 | the WriteProperty reply and table of the functional stack |
| BacnetServer.Server.Apdu | src/cursus/bacnet/server.py:255-294 | reply and table after an APDU are those of the functional stack |
| BacnetServer.Server.Npdu | src/cursus/bacnet/server.py:227-253 | the stepwise offset over the routing fields refines the functional NPDU layer |
| BacnetServer.Server.Handle | src/cursus/bacnet/server.py:201-225 | reply and table after a datagram are those of the functional stack |
| BacnetRequests.ReadRequestParses | src/cursus/bacnet/server.py:426-442 | a read request gives back its object and property, with or without an array index |
| BacnetRequests.WriteRequestParses | src/cursus/bacnet/server.py:444-469 | a write request gives back object, property and the value up to its first 0x3F octet, whatever its array index and the octets behind the value |
| BacnetRequests.AckParsesAsWrite | src/cursus/bacnet/server.py:444-469 | an acknowledgement body read as a write gives back object, property and the value up to its first 0x3F octet |
| BacnetRequests.AckOctets | src/cursus/bacnet/server.py:310-317 | the body of an acknowledgement, octet by octet |
| BacnetRequests.ReadAckParsesAsWrite | src/cursus/bacnet/server.py:310-317 | every readable property is recovered from its acknowledgement if and only if its value has no 0x3F octet |
| BacnetRequests.PresentValueWrite | src/cursus/bacnet/server.py:379-400 | a write of a present value, with any array index and any octets such as a priority behind it, is accepted exactly for an existing instance and octets without 0x3F |
| BacnetRequests.ReplayChangesNothing | src/cursus/bacnet/server.py:319-333 | replaying the acknowledgement of a present value as a write changes nothing |
| BacnetRequests.EnvelopeDoesNotMatter | src/cursus/bacnet/server.py:201-253 | direct, destination-only and source-only NPDUs with any addresses and any other control bits lead to the reply and table of the bare APDU |
| BacnetRequests.StandardOrderExactly | src/cursus/bacnet/server.py:233-246 | with both addresses in the standard's order the APDU is found exactly when the octet behind the source length equals it |
| BacnetRequests.WriteThenRead | src/cursus/bacnet/server.py:201-400 | a WriteProperty datagram, with any array index and trailing octets, is acknowledged, with its invoke id, exactly for a known instance and octets without 0x3F; a read then answers the written octets; otherwise the table is unchanged |
| BacnetRequests.OneIsRefused | src/cursus/bacnet/server.py:463-467 | a write of 1.0 gets no answer and changes nothing |
| BacnetReplies.RepliesAreWellFormed | src/cursus/bacnet/server.py:214-253 | every reply passes the server's own checks, unwraps to exactly its APDU, and has at most 275 octets unless it is an I-Am, whose length the digits of its three numbers give: at most 784, 28 with 32-bit numbers |
| BacnetReplies.LongestReply | src/cursus/bacnet/server.py:482-484 | a 254-character name fills the bound of 275 octets, under the length octet 255 that the standard reserves |
| BacnetReplies.LongestIAm | src/cursus/bacnet/server.py:402-410 | three numbers of 255 octets make the answer to the probe 784 octets long |
| BacnetReplies.BoundExactly | src/cursus/bacnet/server.py:214-253 | all replies to all datagrams stay within 275 octets if and only if no I-Am can be sent or its tagged numbers take at most 262 octets |
| BacnetReplies.ReferenceRaisesExactly | src/cursus/bacnet/server.py:426-437 | a property reference raises if and only if it stops at the extended-length tag octet of its object, its property behind a whole object, or its array index behind both |
| BacnetReplies.LimitsRaiseExactly | src/cursus/bacnet/server.py:416-424 | Who-Is limits raise if and only if they stop at the octet 25, alone or behind one whole unsigned |
| BacnetReplies.RaisesExactly | src/cursus/bacnet/server.py:575-579 | with an encodable configuration a datagram raises exactly when the bytes of its request stop at such a tag octet, and then changes nothing |
| BacnetReplies.RaisingDatagram | src/cursus/bacnet/server.py:575-579 | a ReadProperty whose body is the octet 0D raises under every configuration |
| BacnetReplies.WhoIsAnswered | src/cursus/bacnet/server.py:267-279 | Who-Is is answered with the I-Am exactly when the instance lies within limits under application tags, and always for limits under context tags |
| BacnetReplies.StandardFilterExactly | src/cursus/bacnet/server.py:267-279 | the standard's range filter, under context tags, is honoured if and only if the instance lies in the range |
| BacnetReplies.DiscoveryAnswered | src/cursus/bacnet/server.py:267-279 | the same, for both forms of limits, for whole datagrams in any envelope |
| BacnetReplies.RoutedWhoIsIsLost | src/cursus/bacnet/server.py:233-246 | a global Who-Is with destination and source, as the standard lays it out, gets no answer; the direct one does |
| BacnetReplies.IAmTells | src/cursus/bacnet/server.py:402-410 | the I-Am carries the device identifier, the largest APDU, the segmentation and the vendor, in this order |
| BacnetReplies.ReadyExactlyForIAm | src/cursus/starter.py:162-166 | over all replies of the server the starter's readiness test holds exactly for I-Am replies |
| BacnetReplies.ProbeSucceeds | src/cursus/starter.py:13-16 | the starter's fixed probe is always answered by a reply that passes its test |
| BacnetReplies.OpensStandardExactly | src/cursus/bacnet/server.py:508-512 | a client that keeps to the standard opens a value of the server if and only if it has at most 253 octets |
| BacnetReplies.StringReadableExactly | src/cursus/bacnet/server.py:482-484 | such a client can read a string property if and only if it has at most 252 characters |
| BacnetReplies.ClientReadsAnalog | src/cursus/bacnet/server.py:368-377 | a client decoding an analog value's properties finds each field under its property |
| BacnetReplies.ClientReadsDevice | src/cursus/bacnet/server.py:345-359 | a client decoding the encoded properties of the device finds each field under its property |
| BacnetWire.DatagramExactly | src/cursus/bacnet/server.py:201-216 | a datagram is accepted if and only if it is 81, 0A or 0B, and the right length |
| BacnetWire.NpduExactly | src/cursus/bacnet/server.py:227-248 | an APDU is found if and only if the NPDU has version 1 and the fields its control octet announces, in the order the code reads them |
| BacnetWire.ReadExactly | src/cursus/bacnet/server.py:426-442 | a read request is understood if and only if it is an object, a property and perhaps an index |
| BacnetWire.WriteExactly | src/cursus/bacnet/server.py:444-469 | a write request is understood if and only if a value between 3E and the first 3F follows its reference |
| BacnetWire.LimitsExactly | src/cursus/bacnet/server.py:416-424 | the limits taken from a Who-Is are the ones its octets ask for |
| BacnetWire.WhoIsOctets | src/cursus/bacnet/server.py:267-279 | a Who-Is is answered, within its limits, by the exact octets of the I-Am |
| BacnetWire.OtherApduSilent | src/cursus/bacnet/server.py:255-294 | other PDU types, other unconfirmed and other confirmed services get no answer and change nothing |
| BacnetWire.OtherDatagramSilent | src/cursus/bacnet/server.py:201-231 | a wrong type, function, length or NPDU version gets no answer and changes nothing |
| BacnetWire.WrappedOctets | src/cursus/bacnet/server.py:218-225 | the envelope of every reply, octet by octet |
| BacnetWire.SimpleAckOctets | src/cursus/bacnet/server.py:333 | the reply to an accepted write, octet by octet |
| BacnetWire.ReadAckOctets | src/cursus/bacnet/server.py:310-317 | the APDU that answers a read, octet by octet |
| BacnetProperties.FitsExactly | src/cursus/bacnet/server.py:343-377 | an object can be read exactly if its strings have at most 254 characters and its numbers lie below 256^255 |
| BacnetProperties.PropertyTold | src/cursus/bacnet/server.py:335-377 | an existing property of an existing object is answered with its own field; nothing else is answered |
| BacnetProperties.ReadAnswered | src/cursus/bacnet/server.py:201-377 | from datagram to datagram: a read is answered if and only if object and property exist, by octets that name the request and tell that property |
| BacnetProperties.ReadRequestAnswered | src/cursus/bacnet/server.py:296-317 | the same for every form of read request the server understands |
| BacnetProperties.WriteRequestAnswered | src/cursus/bacnet/server.py:319-400 | a write in any form is accepted if and only if it writes a REAL to the present value of a known analog value, and changes only that |
| BacnetProperties.OtherReadSilent | src/cursus/bacnet/server.py:426-442 | a read that is not understood gets no answer, or raises exactly if it stops at a dangling tag |
| BacnetProperties.OtherWriteSilent | src/cursus/bacnet/server.py:444-469 | the same for writes |
| BacnetRuns.DatagramWrites | src/cursus/bacnet/server.py:319-400 | a datagram changes at most one present value, and does so exactly when its reply acknowledges a write |
| BacnetRuns.TableIsLastWrites | src/cursus/bacnet/server.py:159-199 | after every run of datagrams and API calls each present value is the last one written; instances and other fields never change |
| BacnetRuns.ReadsLastWrite | src/cursus/bacnet/server.py:201-400 | after every run a ReadProperty datagram answers the octets of the last write |

## Left out

- Sockets, `socketserver`, `start`, `stop` and logging: chunks, sends and connection loss are inputs, outputs and steps.
- EnipServer.Server.ServeConnection: serves one connection with no other in between; interference is covered by the interleaved runs, whose steps use the same functions.
- A `sendall` that fails: it ends the connection like any close, and how much of the reply arrived is not modelled.
- The starter's threads, delays and other readiness probes: only its BACnet probe and test are modelled.
- The Modbus, S7 and DNP3 servers: they wrap other libraries and have no protocol logic of their own.
- Floating-point meaning of REAL values: signalling NaN patterns, which Python may quiet, and API floats that do not fit a REAL are not told apart from other octets.
- Object instances of 22 bits or more in the configuration, negative configured numbers and non-ASCII strings: they are not BACnet or CIP values, and encoding them raises or overlaps fields.
- CIP services and transports the code does not implement, BACnet error PDUs and segmentation.
