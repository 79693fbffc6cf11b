# Two wire codecs, modelled and proved

This project models the two byte-level protocols of the repository and proves properties of them for every input,
every stream and every run.

**The RFSAPR command/response link.** A host frames a command, sends it in chunks and waits for the response with a
byte-driven state machine; a target runs the mirror image and answers. `TargetStream` and `HostStream` give the two
receivers as functions of the byte stream, `TargetServer`, `HostTransaction` and `Framers` are the imperative code
(classes with the original's fields, buffers filled in place, loops over short reads and partial sends) proved against
them, and `Link` is the whole system: two FIFO byte streams stepped in any order, with timeouts.

- The delimiter matchers (advance, else restart at one, else at zero) are exact, because each delimiter's bytes are
  pairwise distinct; both receivers equal a grammar that mentions no state machine, on every byte stream.
- Every frame gets through, whatever its payload contains and however the stream is cut up; responses pair with
  commands in any interleaving; cut responses and damaged footers are recovered from.

**The 5GS NAS codec.** The encoders and decoders of Registration Accept, PDU Session Establishment Request and
Authentication Response, and the hex dump. The code is modelled, not the standard: it is loosely TS 24.501, sections
8.2.7, 8.3.1, 8.2.2 and 9.11.3.9, and where the code departs from its evident intent the model follows the code and
the results say exactly when. Decoders are specified by the encoding of what they leave in the object, the echo they
write, and the entries they do not touch; round trips follow from the encodings being uniquely decodable. Every
frame, message and dump is also stated position by position, with the literal octets, so that no result rests on the
specification functions alone.

How the code was rendered:

- `recv` and `send` choose arbitrarily how many bytes each call moves (`Sockets`). A socket's `inbox` is all that its
  peer will send. The small fixed-size reads are complete on the target; on the host an incomplete one ends the call.
  Sockets count failed writes and timed-out reads, so that a caller's failure is tied to one of these.
- `unsigned long` is four octets. Host memory is little-endian, so `htons` followed by `memcpy` writes the wire order;
  `Octets` proves that.
- The command dispatcher is an uninterpreted function from group, unit and payload to status, unit and payload.
- A fixed-size C struct that the code copies by value is a datatype with sixteen-element sequences, reassigned one
  element at a time; the objects around it are classes, as are all vectors passed by reference.
- Masks and shifts are written as the division, remainder and sum they equal; every `|` joins disjoint bit fields.
- A read past the end of a vector is a precondition, as it is undefined in the original. A loop that never advances is
  reported as the outcome `Loops`.
- The checks for presence in the encoders are disabled in src/information_element.cpp:151-157, so encoding never
  throws.

Where the code and its apparent intent differ, three results pin the difference exactly: the transaction identity of a
session request decodes to the message type octet (`Session.RequestRoundTripExact`); an authentication response
returns its length plus one, and is refused below four octets after its tag has been echoed
(`Decoder.AuthenticationRoundTrip`); the wrapped dump's lengths are right up to 195 bytes of payload and no further
(`HexDump.DumpWithNgap`).

## Model

| member | source | states |
|---|---|---|
| Octets.NetworkOrder16 | files/RFSAPR_TCPSocComm.cpp:143-145 | the wire has the high octet first and memory the low one; swapping then copying from memory gives the wire order, copying into memory then swapping reads it, and the two invert each other |
| Octets.NetworkOrder32 | files/RFSAPR_TCPSocComm.cpp:573-581 | the same for the four octets of the length field |
| Octets.SignRoundTrip | files/dp_rfsapr_cmd_processor.c:6252-6274 | a status goes out as its two's complement and comes back |
| Frames.CommandOctets | files/RFSAPR_TCPSocComm.cpp:565-601 | every field of a command frame by position and value: delimiters, length, group, unit, payload |
| Frames.ResponseOctets | files/dp_rfsapr_cmd_processor.c:6285-6329 | every field of a response frame by position and value, the status as two's complement |
| Matcher.AdvanceIsLongest | files/dp_rfsapr_cmd_processor.c:708-719 | for a delimiter with distinct bytes the three-way fallback keeps the index of the full failure function and accepts exactly when the delimiter has just ended |
| Matcher.Exact | files/dp_rfsapr_cmd_processor.c:699-733 | on every stream the matcher accepts at the end of the first occurrence and nowhere else; it never accepts iff there is none |
| Matcher.MatcherRefinesSearch | files/RFSAPR_TCPSocComm.cpp:298-340 | the one-pass matcher returns exactly what a search from every starting place returns |
| Matcher.Synchronises | files/RFSAPR_TCPSocComm.cpp:309-320 | from whatever index a matcher was left at, the delimiter is accepted after exactly its own length: no straddling false match |
| Matcher.AfterJunk | files/RFSAPR_TCPSocComm.cpp:500-536 | a delimiter is found right behind any bytes in which it does not occur |
| Matcher.DistinctIsNeeded | files/dp_rfsapr_cmd_processor.c:708-719 | a delimiter and stream for which the same fallback, without distinct bytes, misses an occurrence |
| TargetStream.Turn | files/dp_rfsapr_cmd_processor.c:697-884 | every arm of the receive switch keeps the receiver invariant: index bounds per state, saved header and footer bytes equal to the delimiter's prefix, payload as long as announced |
| TargetStream.RunInPieces | files/dp_rfsapr_cmd_processor.c:694-888 | however the stream is cut into deliveries, the state reached, the bytes unread and the commands dispatched are those of the uncut stream |
| TargetStream.FrameRun | files/dp_rfsapr_cmd_processor.c:697-884 | one frame behind header-free junk is dispatched once a footer ends in what follows it, and reading resumes right after that footer |
| TargetStream.Transparent | files/dp_rfsapr_cmd_processor.c:697-923 | any commands with any payloads, with any header-free bytes between their frames, are dispatched exactly, in order, and what follows is read from between frames |
| TargetStream.TransparentFrames | files/RFSAPR_TCPSocComm.cpp:565-601 | the concatenated frames of any commands dispatch exactly those commands and leave the header state, index zero, nothing unread |
| TargetStream.OneMoreFrame | files/dp_rfsapr_cmd_processor.c:697-923 | a frame appended to a stream that ends between frames adds exactly its command |
| TargetStream.SwallowsToFooter | files/dp_rfsapr_cmd_processor.c:848-884 | a frame without its footer is delivered when the next footer arrives, and exactly the bytes up to that footer are swallowed |
| TargetStream.DamagedFooter | files/dp_rfsapr_cmd_processor.c:848-884 | after a damaged footer the frame is delivered, the next frame is lost, and every later one is dispatched |
| TargetStream.MachineIsGrammar | files/dp_rfsapr_cmd_processor.c:694-923 | on every byte stream the five-state machine dispatches exactly what a grammar of search, fixed body and search describes |
| HostStream.RunPrefix | files/RFSAPR_TCPSocComm.cpp:292-549 | a response received depends only on the bytes it used; on any shorter prefix the call is still waiting |
| HostStream.ResponseRoundTrip | files/RFSAPR_TCPSocComm.cpp:255-552 | after junk with no header in it, any framed response is received with the same status, ids and payload, and exactly junk and frame are consumed |
| HostStream.IncompleteStarves | files/RFSAPR_TCPSocComm.cpp:292-549 | while any byte of the frame is missing no response is reported |
| HostStream.RecoversExactly | files/RFSAPR_TCPSocComm.cpp:255-340 | after a call gave up anywhere inside any response, the next call returns exactly the next response, whatever that is, iff no header occurs in the unread tail |
| HostStream.HeaderMisleads | files/RFSAPR_TCPSocComm.cpp:298-332 | behind a tail that holds a header, an empty response is received only if its group already stands in the tail |
| HostStream.CleanTailIsNeeded | files/RFSAPR_TCPSocComm.cpp:298-332 | a response whose payload ends in a header, cut before it, hides everything that follows it from the next call |
| HostStream.MachineIsGrammar | files/RFSAPR_TCPSocComm.cpp:292-549 | on every byte stream the six-state machine receives exactly what a grammar of search, fixed body and search describes |
| Link.CleanCutExact | files/RFSAPR_TCPSocComm.cpp:292-340 | the condition put on a timeout inside a response, that its unread tail holds no header, is exactly what the next receive needs |
| Link.NextKeeps | files/dp_rfsapr_cmd_processor.c:694-923 | every step of host, target and network, with clean cuts only, conserves answers: logged, in flight and still to come are the handler's answers to the commands sent |
| Link.HostSees | files/RFSAPR_TCPSocComm.cpp:202-224 | in every reachable state the receive routine sees the first response in flight, exactly when all its bytes have arrived |
| Link.GiveUpStaysInside | files/RFSAPR_TCPSocComm.cpp:334-359 | a call that times out has not consumed the whole of the first response |
| Link.Pairing | files/RFSAPR_TCPSocComm.cpp:108-224 | in any interleaving, with timeouts between frames and, where the cut is clean, inside them, the k-th response received or lost carries the k-th command's group and what the handler says to that command |
| Link.NoDeadlock | files/dp_rfsapr_cmd_processor.c:694-923 | while a command is unaccounted for, a step other than sending or giving up is enabled |
| Link.NextArrives | files/RFSAPR_TCPSocComm.cpp:108-224 | from every reachable state with a command outstanding some continuation delivers the answer to the first of them |
| Link.Drains | files/RFSAPR_TCPSocComm.cpp:108-224 | from every reachable state some continuation without commands or timeouts delivers the answer to every outstanding command |
| Link.InStep | files/RFSAPR_TCPSocComm.cpp:202-224 | when one command is outstanding, a receive gives the answer to the command sent last |
| Link.StaleAnswer | files/RFSAPR_TCPSocComm.cpp:202-224 | when a command is outstanding and, after a timeout, another is sent, some run gives the second transaction the answer to the first |
| Framers.CommandPacket.FrameTxBuffer | files/RFSAPR_TCPSocComm.cpp:565-601 | adjacent fields totalling payload plus 16, no other byte of the buffer changed, length field left in network order |
| Framers.ResponsePacket.Compose | files/dp_rfsapr_cmd_processor.c:6252-6274 | delimiters, swapped status and ids, zero reserved field, host-order length |
| Framers.ResponsePacket.FrameTxBuffer | files/dp_rfsapr_cmd_processor.c:6285-6329 | adjacent fields totalling payload plus 20, no other byte of the buffer changed, length field left in network order |
| Framers.FrameCommand | files/RFSAPR_TCPSocComm.cpp:111-151 | packet and framer together write the command's frame, whatever the buffer held: delimiters, big-endian length, group and unit, payload, each at its place |
| Framers.FrameResponse | files/dp_rfsapr_cmd_processor.c:6203-6205 | compose and frame together write the response's frame: delimiters, status, reserved zero, big-endian length, group and unit, payload, each at its place |
| Framers.SendChunked | files/RFSAPR_TCPSocComm.cpp:155-199 | the frame goes out once, in order, in requests of at most the cap; it fails only when a write fails, and then leaves a proper prefix |
| Framers.SendPartial | files/dp_rfsapr_cmd_processor.c:6207-6236 | whatever part of each request is taken, the frame goes out once, in order, in requests of at most the cap; it fails only when a write fails, and then leaves a proper prefix |
| TargetServer.Server.constructor | files/dp_rfsapr_cmd_processor.c:558-570 | the zeroed handle stands for the initial receiver state of the whole-link model |
| TargetServer.Server.DataTurn | files/dp_rfsapr_cmd_processor.c:793-846 | whatever short reads occur, the payload stored is the announced bytes in order and nothing more is read |
| TargetServer.Server.ReceiveTurn | files/dp_rfsapr_cmd_processor.c:697-888 | the imperative switch makes the abstract turn on exactly the bytes it needs |
| TargetServer.Server.CommandProcessor | files/dp_rfsapr_cmd_processor.c:6203-6236 | unless a write fails, the response sent is the frame of what the handler says to the command received, under the command's group |
| TargetServer.Server.Serve | files/dp_rfsapr_cmd_processor.c:694-923 | from any receiver state, every command of the stream is answered by its framed reply in order, unless a write fails, which leaves a proper prefix of the replies |
| HostTransaction.Receiver.DataPass | files/RFSAPR_TCPSocComm.cpp:448-498 | whatever short reads occur, the payload stored is the announced bytes in order, unless a read times out, before which fewer were read |
| HostTransaction.Receiver.ReceiveResponse | files/RFSAPR_TCPSocComm.cpp:255-552 | when the stream holds a response and no read times out it is received and exactly its bytes are consumed; after a timeout what was consumed holds no response |
| HostTransaction.Transmit | files/RFSAPR_TCPSocComm.cpp:106-200 | when each validation fails, when a copy runs past its buffer, and otherwise that exactly the command's frame is sent (nothing for unit zero) unless a write fails |
| HostTransaction.Await | files/RFSAPR_TCPSocComm.cpp:202-224 | the stream's first response is the answer unless a read times out |
| HostTransaction.CommandTransaction | files/RFSAPR_TCPSocComm.cpp:106-224 | both halves; any target between frames makes of the bytes sent exactly the command of the group, unit and payload asked for |
| Exchange.Exchange | files/RFSAPR_TCPSocComm.cpp:106-224 | through both ends' own code, from a quiet link, an answer is returned exactly when a command passes validation, no write fails and no read times out; it is what the handler says to that group, unit and payload, and the link is quiet again |
| Nas.IdentifyMessageType | src/decode.cpp:290-308 | identification succeeds iff the discriminator is one of the two 5GS ones and the type octet one of the 39 known, and returns that octet |
| Nas.MobilityHeader.Code | src/5gs_mobility_mangement.cpp:13-20 | appends exactly the three header octets |
| Nas.MobilityHeader.Decode | src/5gs_mobility_mangement.cpp:39-67 | the fields read, the echo, and the offset, for a known and an unknown type |
| TrackingArea.ListOctetUnique | src/Partial_tracking_area_identity.cpp:38-39 | the packed octet carries type and count iff the list is canonical, and then announces what follows |
| TrackingArea.PtaiUnique | src/Partial_tracking_area_identity.cpp:31-106 | two canonical lists whose encodings begin the same buffer carry the same identities and have the same encoding |
| TrackingArea.PtaiOctets | src/Partial_tracking_area_identity.cpp:31-106 | every octet of an encoding by position, for all list types |
| TrackingArea.PartialTrackingArea.CodeV | src/Partial_tracking_area_identity.cpp:31-106 | appends the packed octet, then for type 0 the PLMN and the codes, for type 1 the PLMN and one code, for type 2 PLMN and code of each entry, each at its place, and returns the length |
| TrackingArea.PartialTrackingArea.DecodeTacs | src/Partial_tracking_area_identity.cpp:142-151 | the codes decoded encode to the octets read, and later entries are untouched |
| TrackingArea.PartialTrackingArea.DecodeEntries | src/Partial_tracking_area_identity.cpp:179-201 | the entries decoded encode to the octets read, and later entries are untouched |
| TrackingArea.PartialTrackingArea.Decode | src/Partial_tracking_area_identity.cpp:109-210 | each PLMN and code is read from its place, exactly what the first octet announces is consumed, the echo is the encoding of the list, and no other entry is touched |
| TrackingArea.TaiList.CodeTLV | src/TAI_list_5gs_tracking_identity_list.cpp:16-36 | tag, the constant 7, then the list; nothing for a zero tag |
| TrackingArea.TaiList.DecodeTLV | src/TAI_list_5gs_tracking_identity_list.cpp:39-65 | echoes tag and length unchecked, then decodes the list if there is one |
| Registration.ResultElement.CodeLV | src/5gs_registration_result.cpp:47-72 | appends the length and the packed octet |
| Registration.ResultElement.DecodeLV | src/5gs_registration_result.cpp:102-128 | the four fields repack to the octet's low six bits; any length but 1 is refused |
| Registration.ResultElement.Decode | src/5gs_registration_result.cpp:74-99 | the echo is the length and those six bits |
| Registration.ResultUnique | src/5gs_registration_result.cpp:66-66 | the packed octet determines all four fields |
| Registration.EchoExact | src/5gs_registration_result.cpp:94-96 | the echo equals the octets consumed iff three octets carry nothing the decoder drops |
| Registration.RegistrationAccept.Code | src/registration_accecpt.cpp:26-52 | appends the eight leading octets, each field in its place and bits, then the list, and returns the length |
| Registration.RegistrationAccept.Decode | src/registration_accecpt.cpp:55-71 | when decoding succeeds, every field, the echo, and the count, for every readable buffer, also one that stops before the list, where the count is one short |
| Authentication.ResponseParameter.CodeTLV | src/Authentication_response_param.cpp:22-45 | appends tag, length and as many octets as the length says |
| Authentication.ResponseParameter.DecodeTLV | src/Authentication_response_param.cpp:47-94 | the three outcomes: no tag, a length below four, and a copy of the octets with a count one too high |
| Authentication.AuthenticationResponse.Code | src/Authentication_response.cpp:24-49 | appends header, tag, length and as many octets as the length says, and returns the length of that |
| Authentication.AuthenticationResponse.Decode | src/Authentication_response.cpp:51-63 | header and parameter together: echo, count and object contents in each outcome, an unknown type included |
| Session.ParseExact | src/PDU_session_establishment_request.cpp:76-98 | the loop reaches the end of a buffer iff the buffer is a sequence of known elements, in any order and with repetition, and sets those |
| Session.StuckExact | src/PDU_session_establishment_request.cpp:95-96 | it runs forever iff, after known elements, an unknown identifier comes |
| Session.OrderIrrelevant | src/PDU_session_establishment_request.cpp:76-98 | behind any six octets, every permutation of distinct elements decodes to the same message, into any object |
| Session.RequestOctets | src/PDU_session_establishment_request.cpp:34-68 | the encoding octet by octet: uplink before downlink, then type, mode and container in that order |
| Session.RequestRoundTrip | src/PDU_session_establishment_request.cpp:34-100 | for every subset of optional elements, everything is recovered but the transaction identity, which becomes the message type octet |
| Session.RequestRoundTripExact | src/pdu_5gs_sm.cpp:38-60 | decoding undoes encoding iff the transaction identity is that octet and the container fits its length octet |
| SessionElements.SessionTypeElement.DecodeTV | src/PDU_session_type.cpp:54-90 | succeeds iff tag and value agree with the element, and otherwise leaves it alone |
| SessionElements.SscModeElement.DecodeTV | src/SSC_mode.cpp:69-108 | the same for the SSC mode |
| SessionElements.StringElement.CodeTLV | src/String.cpp:26-34 | appends the whole value behind a length octet that keeps eight bits |
| SessionElements.StringElement.DecodeTLV | src/String.cpp:36-48 | the value becomes the announced octets, or the tag is refused |
| SessionElements.SessionRequest.Code | src/PDU_session_establishment_request.cpp:34-68 | appends the six leading octets, uplink before downlink, then type, mode and container as far as present, and returns the length |
| SessionElements.SessionRequest.DecodeHeader | src/pdu_5gs_sm.cpp:38-60 | session identity from its octet, transaction identity from the message type's |
| SessionElements.SessionRequest.DecodeElement | src/PDU_session_establishment_request.cpp:76-97 | what each first octet leads to: a type, a mode or a container set to the value read, a refusal, or no advance |
| SessionElements.SessionRequest.Loop | src/PDU_session_establishment_request.cpp:76-98 | the elements passed over spell the bytes consumed, each turn on a known element strictly shortens the rest, and the loop stops only at the end or before a bad element |
| SessionElements.SessionRequest.Decode | src/PDU_session_establishment_request.cpp:70-100 | the object ends up as the message the buffer and its previous options determine, uplink from the fifth octet and downlink from the sixth, and the whole buffer is consumed |
| Decoder.Decode | src/decode.cpp:8-91 | which messages are decoded, into what, with which echo and count |
| Decoder.AcceptRoundTrip | src/registration_accecpt.cpp:26-71 | encoding then decoding any canonical Registration Accept identifies it, rebuilds every encoded field, echoes the buffer byte for byte and returns its length |
| Decoder.AuthenticationRoundTrip | src/Authentication_response.cpp:24-63 | the buffer is echoed iff the response has at least four octets; then its octets are recovered and the count is the buffer's length plus one, otherwise it is 3 |
| Decoder.RequestTrip | src/PDU_session_establishment_request.cpp:34-100 | encoding then decoding any request with a short container identifies it, recovers all but the transaction identity, and consumes the buffer |
| HexDump.DumpReadsBack | src/buffers.cpp:62-113 | the hex columns of a dump read back as the buffer, for every buffer |
| HexDump.DumpInjective | src/buffers.cpp:62-113 | distinct buffers have distinct dumps |
| HexDump.DumpLines | src/buffers.cpp:62-113 | the lines of a dump are those of the rows, in order |
| HexDump.LineLayout | src/buffers.cpp:62-113 | a line by position: at least five address digits and no needless zero, blanks between and behind the columns, one character for each octet |
| HexDump.DumpWireshark | src/buffers.cpp:62-113 | the text reads back as the data from its hex columns, its addresses read 0, 8, 16 and so on, one a line, and its characters are the printable octets and dots |
| HexDump.DumpWithNgap | src/buffers.cpp:33-60 | the wrapped dump reads back as the prologue, patched in five places only, followed by the message |

## Left out

- HostStream.CleanTailIsNeeded: a payload announced longer than the buffer holds beside its terminator (12 MB or more)
  stops the model, where the original writes past the buffer. The same goes for the other results on the host's stream.
- TargetStream.Turn: the same holds for an announced command payload that does not fit.
- HostTransaction.CommandTransaction: the first copy of the parameters precedes the length check, so payloads above
  12 MB have already run past their structure when they are refused (`spilled`); payloads of 12 MB - 15 to 12 MB pass the
  check and overrun the transmit buffer (`Overrun`), and there the model stops. The null-pointer check has no
  counterpart; the timeout limit is a parameter because the header that defines it is not part of this model.
- Link.Pairing: after a cut that leaves a header in the unread tail nothing is claimed; `Link.CleanCutExact` shows that
  the next response can then be lost or misread.
- HostTransaction.Receiver.ReceiveResponse: the copies of header and footer bytes the host stores in its packet, which
  nothing reads.
- Decoder.Decode: the decoders of deregistration accepts, identity response and authentication failure, and the
  callback invoked with a decoded session request.
- The receive buffer sizes and the cap on one read at the target come from a header that is not part of this model; the
  host's values are used.
- Sockets, threads, mutexes, wall-clock timeouts, connection loss and reconnection; `recv` returning zero inside a
  payload loop, and `send` accepting nothing.
- The command dispatcher's bodies and the branches of it that return without a response.
- The online monitoring connection, which repeats the same receiver.
- PDU Session Establishment Accept and QoS rules, Authentication Failure and Reject, Deregistration and Identity
  messages.
- The user interface, the second Ethernet client, the command structure layouts, and the enum-to-string tables.
