# Verified models of lldpd

Dafny models of the parts of lldpd whose correctness is not obvious from reading
them, with machine-checked proofs of what they promise.  Code that works step by step
is modelled by methods and classes proved against specification functions; the
theorems are about those functions.

- `Marshal*.dfy`: the graph marshaller behind the control socket.  `Marshal` holds the
  specification of both directions, `MarshalHeap` what a well-formed heap and its copy
  are, `MarshalProcedures` the procedures, `MarshalTheorems` the main results, and the
  others the steps to them.  `MarshalLldpd` is the real descriptor table,
  `MarshalLayout` is about the bytes sent, `MarshalExample` one machine and small heaps
  on it.
- `Ctl`, `CtlBytes`, `CtlMarshal`: framing on the control channel, what each call does to
  the bytes of its buffer, and the channel with the marshaller.
- `TailQueue`, `TailQueueRuns`: the tail queue macros, with slots as references, and runs
  of them over any number of queues.
- `Oid`, `Snmp`, `SnmpNext`, `SnmpPorts`, `MedPower`: SNMP table search, which table the
  neighbours form, and power reference.
- `Checksum`, `Frame`, `Tlv`: checksum, packet cursor, TLV lists.
- `Cdp`, `CdpTheorems`, `CdpSend`, `CdpDecode`, and the same four for EDP: codecs.
  `CdpLayout`, `CdpExample`, `EdpLayout` and `EdpExample` say which bytes are sent,
  `CdpFrames`, `CdpAddresses` and `EdpFrames` what any frame received means.
  `CdpDestination` is about the destination address, `EdpNeighbors` about the VLANs and
  addresses of known neighbours, `EdpStore` about storing neighbours, `EdpEntries` about
  what a frame does to each of them, `EdpSession` about a whole exchange.
- `Tokenizer`, `TokenizerWords`, `Commands`, `CommandsRuns`: the command line of the client.
- `Expiry`, `ExpiryRules`, `VlanDescent`, `VlanTrails`, `BpfFilter`: neighbour timers, VLANs
  through bonds and bridges, the packet filter.

A specification function that a method computes is described once more without it: by
what it gives for any input in terms of the fields or bytes of that input, and by a
concrete input with its literal result.

`dafny verify dfyconfig.toml` checks the whole project.

Where code and comments disagree the model follows the code:

- `src/daemon/cdp.c:271` compares with the CDP address a second time where FDP is meant,
  so every destination but the CDP one is taken for FDP (`CdpDestination`).
- `src/daemon/edp.c:479-480` announces a search for addresses that already exist but
  searches the incoming list, not the stored one (`EdpNeighbors.AddressesMergedIff`).
- `src/client/tokenizer.c:28` documents the result 1 for unmatched quotes; it is also
  returned for a backslash at the end (`Tokenizer.DanglingIff`).
- `src/client/commands.c:391-392` breaks on an exact match, which does not help when two
  longer tokens were scanned before (`Commands.ExactWinsIff`).
- `src/daemon/lldpd.h:278-293` gives the expression the filter was compiled from; the
  program loads the EtherType first, so it refuses packets without one that the
  expression accepts (`BpfFilter.FilterIsExpressionIff`).

## Model

| member | source | states |
|---|---|---|
| `MarshalTheorems.RoundTripIff` | src/marshal.c:78-375 | For every well-typed heap of non-overlapping objects, shared and cyclic pointers included, unserializing the serialized bytes followed by any other bytes consumes exactly the serialized length and yields the expected copy, if and only if, pointers being followed depth first, none of those held inside a substructure (which are not renumbered) aims at the root or at the target of a pointer followed before it; that order is defined on the heap, without the serializer |
| `MarshalOrder.SerializerFollowsOrder` | src/marshal.c:143-183 | The serializer follows the depth-first order of the heap: the objects it meets are the root and the targets of that order, and a pointer inside a substructure comes late exactly when it aims at the root or where an earlier one does |
| `MarshalOrder.OrderLive` | src/marshal.c:151-156 | Every site of the order is a pointer field that is not null |
| `MarshalTheorems.RoundTripUnlessLate` | src/marshal.c:78-375 | The same result told from the run: the round trip yields the copy if and only if no pointer inside a substructure found its target already serialized |
| `MarshalTheorems.RoundTripUnshared` | src/marshal.c:143-183 | A condition on the source heap alone is enough for the round trip: what the pointers inside substructures aim at is aimed at by no other pointer and is not the root |
| `MarshalTheorems.CopyIsomorphic` | src/marshal.c:263-375 | The copy is isomorphic to the part of the heap reachable from the root: the same path of pointer slots leads to corresponding objects or to null in both, and distinct objects have distinct copies |
| `MarshalTheorems.CopyContents` | src/marshal.c:292-333 | In the copy, bytes outside pointers and ignored slots are those of the source, ignored slots are null, strings are equal and fixed strings gain a terminating null byte |
| `MarshalTheorems.EmitsReachable` | src/marshal.c:91-136 | The addresses met are distinct; the objects among them form the least set that holds the root and is closed under following pointers, so each reachable object is emitted exactly once |
| `MarshalTheorems.DummiesInOrder` | src/marshal.c:100-136 | Copies carry dummies between 1 and the number of addresses met, strictly increasing in the order objects are first visited, so no two share one |
| `MarshalTheorems.SerializeSucceeds` | src/marshal.c:78-218 | On every well-typed heap, cyclic or not, the serializer ends without reading unreadable memory |
| `MarshalTheorems.TruncationRefused` | src/marshal.c:266-307 | When no pointer inside a substructure aims at the root or at the target of an earlier pointer, every strict prefix of the serialized buffer is refused |
| `MarshalWire.UnExtends` | src/marshal.c:263-375 | On any bytes at all: if a buffer is accepted, appending anything to it changes neither the length consumed nor the blocks built |
| `MarshalWire.PrefixRejected` | src/marshal.c:271-307 | On any bytes at all: if n bytes are consumed, no buffer of fewer than n of these bytes is accepted |
| `MarshalSpace.SerTidy` | src/marshal.c:100-104 | When objects do not overlap, no substructure is ever mistaken for a record already serialized, and every address met lies in an object that has been met |
| `MarshalReach.SerStays` | src/marshal.c:143-183 | Nothing outside a closed set that contains the root is ever serialized |
| `MarshalReach.SerCloses` | src/marshal.c:143-183 | Every object met has all the targets of its pointers, those inside substructures included, among the addresses met |
| `MarshalShare.SerUnshared` | src/marshal.c:173-183 | In an unshared heap every object is first met through the only pointer to it, so no pointer inside a substructure comes late |
| `MarshalExample.SharedElementLost` | src/marshal.c:173-183 | A concrete heap survives the round trip; the same heap with one more pointer to an element of its list head, followed first, does not |
| `MarshalExample.SubstructureFirstRefused` | src/marshal.c:100-104 | For a descriptor whose only field is a substructure at offset 0: the substructure is taken for its own holder, and the bytes serialized, with nothing after them, are refused |
| `MarshalExample.LittleEndianValid` | src/marshal.c:42-46 | A 64-bit little-endian machine meets the assumptions made on pointer encoding and allocation |
| `MarshalLayout.RecordHeader` | src/marshal.c:100-136 | Every record sent starts with its dummy, numbered from 1 in order of first visit, and its total length, 8 bytes each; an address met before sends nothing |
| `MarshalLayout.SentBytes` | src/marshal.c:78-218 | Every byte sent for a structure with a string and a counted string: header, pointers replaced by dummies 2 and 3, each string in its own record, null bytes up to the next multiple of 8 between them |
| `MarshalLayout.LengthCarried` | src/marshal.c:143-183 | A length read for one pointer serves the pointers after it that have none of their own: two counted strings with one length are both sent whole |
| `MarshalLayout.ReadBack` | src/marshal.c:263-375 | Those bytes, followed by any others, are read back as the structure with the new addresses and the two strings, the counted one with a null byte after it |
| `MarshalLldpd.DescriptorsGood` | src/lldpd-structs.h:57-487 | The descriptors of lldpd (64-bit layout) have no substructure at offset 0, no overlapping fields and no string length inside a field |
| `MarshalProcedures.Serialize` | src/marshal.c:78-218 | The recursive procedure with its growing list of references computes the specified bytes and references, on any descriptors and memory, and terminates |
| `MarshalProcedures.SerializeFields` | src/marshal.c:143-203 | Its loop over inner structures: the record under construction, renumbered and extended in place, is the specified one |
| `MarshalProcedures.AppendField` | src/marshal.c:151-202 | One turn of that loop: serialize the target, write its dummy over the pointer unless inside a substructure, append the record aligned |
| `MarshalProcedures.Scan` | src/marshal.c:99-105 | The first scan of the references tells whether an address is there and, if not, gives the next dummy |
| `MarshalProcedures.DummyOf` | src/marshal.c:174-181 | The second scan finds the dummy of an address in the list |
| `MarshalProcedures.SerializeRoot` | src/marshal.h:152-155 | The outermost call starts from an empty list and returns the specified bytes |
| `MarshalProcedures.Unserialize` | src/marshal.c:263-375 | On any bytes the procedure terminates, never reports more than it was given, returns 0 exactly when the bytes are refused, and otherwise leaves the specified blocks in the allocation list |
| `MarshalProcedures.UnserializeFields` | src/marshal.c:321-367 | Its loop over inner structures: total length and blocks are the specified ones |
| `MarshalProcedures.Settle` | src/marshal.c:325-347 | Ignored slots are cleared, null pointers are left, references already seen are linked to the first block that carries the dummy |
| `MarshalProcedures.UnserializeRoot` | src/marshal.c:369-375 | The outermost call reports at most the length given, and keeps no block when the bytes are refused |
| `Ctl.Buffer.Send` | src/ctl.c:124-169 | Appends header and payload to the buffer and nothing else; an empty serialization is an error that changes nothing |
| `Ctl.Buffer.Receive` | src/ctl.c:198-257 | Reply and remaining buffer are those of the specification, for any bytes and any request |
| `CtlBytes.EveryCall` | src/ctl.c:198-257 | On any bytes and for any request, told from the bytes: success exactly when the type field is the one expected and, if a structure is wanted, the payload is not empty and parses; the value is what the parser makes of the payload; any other complete message of at most 512 KiB fails; the buffer is kept exactly when a notification was expected and another type is there |
| `CtlBytes.RefusalFails` | src/daemon/client.c:38-41 | The empty message of type 0 that answers a request the daemon cannot serve makes the call fail |
| `CtlBytes.AnswerIsLeft` | src/ctl.c:225-230 | A concrete answer stays in the buffer of a client that waits for a notification, and is removed for one that waits for something else |
| `CtlBytes.MessageBytes` | src/ctl.c:124-169 | The bytes of a message: type, padding, length of the payload, payload |
| `Ctl.MissingExact` | src/ctl.c:206-227 | On any bytes: a positive return leaves the buffer untouched and is exactly the number of bytes missing, for every shorter continuation too |
| `Ctl.RestStaysFramed` | src/ctl.c:228-257 | Unless the length is out of bounds, a call removes one whole message or nothing, and what follows neither influences it nor changes |
| `Ctl.OversizeLosesAll` | src/ctl.c:214-222 | A message larger than the limit is lost with everything that follows as soon as its header is there |
| `Ctl.ChunksDoNotMatter` | src/ctl.c:198-257 | Any sequence of messages, cut into any chunks, faced with any sequence of requests: replies are those each message deserves, whatever the cuts, and the buffer ends with exactly the messages left over |
| `Ctl.SentIsReceived` | src/ctl.c:123-257 | One matching request per message: the messages sent are received in order and the buffer ends empty |
| `CtlMarshal.StructuresArrive` | src/ctl.c:123-257 | End to end: structures serialized, sent, cut into any chunks, received and unserialized arrive as their copies, in order, with an empty buffer at the end |
| `TailQueue.Init` | include/sys/queue.h:387-390 | The queue is empty and its slots are consistent |
| `TailQueue.InsertHead` | include/sys/queue.h:392-400 | Inserts before the first element; every slot of the queue is consistent again |
| `TailQueue.InsertTail` | include/sys/queue.h:402-407 | Inserts after the last element; every slot of the queue is consistent again |
| `TailQueue.InsertAfter` | include/sys/queue.h:409-417 | Inserts right after a given element |
| `TailQueue.InsertBefore` | include/sys/queue.h:419-424 | Inserts right before a given element, without the head |
| `TailQueue.Remove` | include/sys/queue.h:426-433 | Removes exactly the given element |
| `TailQueue.Concat` | include/sys/queue.h:445-452 | The first queue becomes the concatenation, the second becomes empty |
| `TailQueue.Last` | include/sys/queue.h:461-462 | Reading two slots through the common layout gives the last element, or null |
| `TailQueue.Prev` | include/sys/queue.h:463-464 | Reading two slots through the common layout gives the previous element, or null |
| `TailQueue.Forward` | include/sys/queue.h:435-438 | Forward traversal visits the sequence |
| `TailQueue.Backward` | include/sys/queue.h:440-443 | Backward traversal visits its reverse |
| `TailQueue.Cleanup` | src/lldpd-structs.c:127-163 | A loop that reads the next element before removing and freeing the current one visits every original element exactly once and leaves the others in order, whatever freed memory becomes |
| `TailQueueRuns.Run` | include/sys/queue.h:364-464 | Over any number of queues: any run of insertions, removals, concatenations and initializations on the linked cells is the same run on the sequences, and no cell ends up in two places |
| `TailQueueRuns.Moved` | src/daemon/edp.c:462-470 | Moving an element from one queue to the end of another is such a run, and changes only these two queues |
| `Snmp.HeaderIndex.Init` | src/daemon/agent.c:76-103 | A name below the prefix is raised to it; names outside the table are refused |
| `Snmp.HeaderIndex.Add` | src/daemon/agent.c:106-127 | After a row is offered the state is the best of all rows offered so far; the call reports an exact match only in exact mode |
| `Snmp.HeaderIndex.Best` | src/daemon/agent.c:130-140 | Returns the best row and its name, or nothing |
| `Snmp.RemotePort` | src/daemon/agent.c:208-232 | The nested loops over interfaces and ports, hidden rows skipped, compute the search over the list of visible rows |
| `SnmpPorts.TableIsPorts` | src/daemon/agent.c:208-232 | The rows are the ports that are not hidden (and have MED if asked), one each, in the order of interfaces and ports, under the index time of change, interface, chassis |
| `SnmpPorts.RemotePortNext` | src/daemon/agent.c:208-232 | GetNext over any interfaces returns the port with the least such index above the request, the first one of that index, and nothing exactly when there is none |
| `SnmpPorts.RemotePortExact` | src/daemon/agent.c:208-232 | An exact request returns the first port with that index, and nothing exactly when there is none |
| `SnmpPorts.RemotePortWalk` | src/daemon/agent.c:1321-1335 | When chassis numbers are below the largest sub-identifier, a walk lists the index of every port that has a value, above the start, in increasing order |
| `SnmpPorts.RemotePortExample` | src/daemon/agent.c:208-232 | Three concrete ports, one hidden, walked in the order of their times of change |
| `Oid.LessIsLexicographic` | src/daemon/agent.c:106-127 | The order of names is the lexicographic one: the first sub-identifier that differs decides, and a prefix comes first |
| `SnmpNext.LookupNext` | src/daemon/agent.c:75-140 | Whatever the order of the rows, GetNext finds the least name strictly above the request, the first row of that name, and nothing exactly when there is none; requests outside the prefix included |
| `SnmpNext.LookupExact` | src/daemon/agent.c:105-140 | An exact search returns the first row of that very name and leaves the name, and nothing exactly when there is no such row |
| `SnmpNext.RemotePortValue` | src/daemon/agent.c:1321-1335 | The search retried over rows without a value terminates and computes its specification |
| `SnmpNext.GetNextIff` | src/daemon/agent.c:584-590 | With rows without a value skipped by retrying, the least available name above the request is returned if and only if no row skipped ends with the largest sub-identifier; otherwise nothing is returned |
| `SnmpNext.GetNextNone` | src/daemon/agent.c:584-590 | Nothing is returned when no available name is above the request |
| `SnmpNext.LargestHidesNext` | src/daemon/agent.c:584-590 | A concrete table in which a row without a value hides an available one |
| `SnmpNext.WalkEnumerates` | src/daemon/agent.c:1321-1335 | Repeating GetNext on the name returned enumerates every available name above the start exactly once, in increasing order, and then stops (section 4.2.2 of RFC 3416) |
| `MedPower.Reference` | src/daemon/agent.c:757-774 | One pass with one counter picks a port of the majority power type whenever the counts differ, and none only if no port has either type |
| `Checksum.FrameChecksum` | src/daemon/frame.c:20-66 | The loop, the odd byte in both variants and the folds on 32-bit unsigned arithmetic compute the folded complement of the sum of words |
| `Checksum.LastWordIs` | src/daemon/frame.c:31-59 | The octet left over is the high half of its word; in the Cisco variant it is a signed character, less one when negative, on 16 bits |
| `Checksum.OddChecksum` | src/daemon/frame.c:31-59 | The checksum of an odd number of octets is that of the region completed to a word: by a null byte after the octet, or for Cisco by 0 before it, or by 0xff before it less one when its top bit is set |
| `Checksum.ChecksumExamples` | src/daemon/frame.c:20-66 | Three concrete octets in both variants, and no octet |
| `Checksum.FoldIsOnesSum` | src/daemon/frame.c:61-62 | For up to 65537 words the 32-bit sum does not wrap and two folds give the one's-complement sum of section 2 of RFC 1071 |
| `Checksum.FoldIsOnesSumIff` | src/daemon/frame.c:26-62 | For data of every length the result is the one's-complement sum if and only if the sum of words is below 2^32, or its quotient by 2^32 is a multiple of 65535 and its remainder is not 0 |
| `Checksum.LongerSumsWrap` | src/daemon/frame.c:26-30 | With one word more than 65537 the sum can wrap and the result is then wrong |
| `Checksum.ChecksumVerifies` | src/daemon/frame.c:20-66 | Storing the checksum in a zeroed field at an even offset makes the checksum of the region 0, in both variants and for odd lengths |
| `Checksum.ZeroChecksum` | src/daemon/frame.c:61-65 | A checksum is 0 exactly when the one's-complement sum is all ones |
| `Checksum.ZeroPadding` | src/daemon/frame.c:31-59 | Appending a zero byte leaves the sum unchanged exactly in plain mode, or for even lengths, or after a zero byte |
| `Frame.Cursor.PokeBytes` | src/daemon/frame.h:48-55 | Writes at the cursor and advances if there is room, otherwise changes nothing; position plus remaining length stays the end of the packet |
| `Frame.Cursor.PokeUint16` | src/daemon/frame.h:36-46 | The same for a 16-bit number in network byte order |
| `Frame.Cursor.Discard` | src/daemon/frame.h:86-90 | Moves the cursor forward or back to the end of a TLV |
| `Frame.Cursor.Restore` | src/daemon/frame.h:58-65 | Goes back or forth to a saved position, keeping position plus length |
| `Frame.Cursor.StartTlv` | src/daemon/frame.h:116-121 | Reserves the header of a TLV |
| `Frame.Cursor.StartMarkedTlv` | src/daemon/frame.h:130-136 | The same with the marker of EDP |
| `Frame.Cursor.EndTlv` | src/daemon/frame.h:122-127 | Fills in the length of the TLV and moves nothing |
| `CdpSend.Send` | src/daemon/cdp.c:31-244 | One pass with back-patched lengths and checksum produces exactly the specified frame when it fits in the MTU, and nothing otherwise |
| `CdpLayout.FrameLayout` | src/daemon/cdp.c:31-244 | Every byte of every frame: destination and organisation by version, source address, lengths, version, TTL, a checksum that makes the words add up to all ones, then the TLVs with their type numbers: capabilities bit by bit, and a power TLV with 100 times the value exactly for version 2 and values from 1 to 655 |
| `CdpExample.FirstFrame` | tests/check_cdp.c:12-124 | The frame of the first sender of the tests, all its bytes, checksum included |
| `CdpSend.PokeTlv` | src/daemon/cdp.c:96-103 | One TLV is appended with its length |
| `CdpSend.PokeAddresses` | src/daemon/cdp.c:112-137 | The IPv4 addresses are counted, then written in order; no TLV when there is none |
| `CdpSend.Fill` | src/daemon/cdp.c:222-229 | Filling in the 802.3 length and the checksum completes the frame |
| `CdpDecode.Receive` | src/daemon/cdp.c:256-573 | On any bytes the decoder never reads outside the frame, terminates and computes its specification |
| `CdpFrames.FrameMeaning` | src/daemon/cdp.c:256-573 | For every frame that is a header and a list of TLVs: exactly when it is accepted, and the neighbour then: name, port and TTL, capabilities from the bits (0x02, 0x04 and 0x08 give Bridge), a description from software and platform or either alone, native VLANs, addresses |
| `CdpFrames.AcceptedIsTlvs` | src/daemon/cdp.c:368-531 | Every frame that is accepted is a header and a list of TLVs, so the above speaks of all of them |
| `CdpFrames.StrangerIgnored` | src/daemon/cdp.c:525-529 | A TLV of any type but 1 to 6 and 10, put anywhere in a frame, changes nothing in what is decoded and rejects nothing |
| `CdpAddresses.AddressListRead` | src/daemon/cdp.c:399-447 | A list of addresses of any protocols is accepted, and the IPv4 ones are kept in order, the others skipped |
| `CdpAddresses.AddressListWritten` | src/daemon/cdp.c:399-447 | Every address TLV that is accepted is such a list |
| `CdpAddresses.RouterUnderstood` | tests/check_cdp.c:401-538 | The frame of a Cisco router in the tests, whatever its software text and with an unknown last TLV, is understood as asserted there |
| `CdpDecode.DecodeTlvs` | src/daemon/cdp.c:368-531 | On any frame the TLV loop keeps position plus length at the end of the frame, consumes exactly one declared TLV per turn and ends |
| `CdpDecode.DecodeAddress` | src/daemon/cdp.c:403-445 | One address entry: its extent is checked first, then the cursor goes back to look for an IPv4 address, then on to the next entry, never outside the TLV |
| `CdpDecode.DecodeAddresses` | src/daemon/cdp.c:399-447 | The address list gives the specified IPv4 addresses, in order, or rejects the frame |
| `CdpTheorems.ParseWire` | src/daemon/cdp.c:368-531 | On a sequence of well-formed TLVs followed by anything, the loop applies each of them once, in order, and goes on with what follows |
| `CdpTheorems.CdpRoundTrip` | src/daemon/cdp.c:64-573 | A frame shorter than 65536 bytes sent with version 1, 2 or FDP is decoded to name, port, IPv4 addresses in order, native VLAN when sent, mapped capabilities and the joined description, if and only if the TTL is not 0 modulo 256, the port description is not empty and the name is not empty (or malloc(0) returns a pointer); otherwise it is rejected |
| `CdpTheorems.PaddedFrameRejected` | src/daemon/cdp.c:325-377 | A frame padded with zeros is always rejected, since the 802.3 length is not used to find the end |
| `CdpTheorems.SentChecksumVerifies` | src/daemon/cdp.c:224-229 | The checksum over what is sent verifies, in the Cisco variant and in the plain one of FDP |
| `CdpTheorems.SentIsGuessed` | src/daemon/cdp.c:609-620 | A frame is guessed to be of the version it was sent with and of no other; FDP frames of none |
| `CdpDestination.ForeignDestination` | src/daemon/cdp.c:306-319 | An FDP frame put behind any destination but the CDP one is decoded to the same neighbour, exactly when it is acceptable |
| `CdpDestination.DestinationIgnored` | src/daemon/cdp.c:306-319 | On any bytes: replacing a destination other than the CDP one by any other such destination does not change the outcome |
| `CdpDestination.DestinationCheckedIff` | src/daemon/cdp.c:306-319 | The decoder agrees with one that refuses other destinations if and only if the frame is for one of the two multicast addresses or what follows the destination is refused from FDP too |
| `CdpDestination.BroadcastAccepted` | src/daemon/cdp.c:306-319 | A concrete broadcast frame is taken for an FDP announcement |
| `EdpSend.Send` | src/daemon/edp.c:33-221 | The state loop emits the display frame, then the VLAN frame if there are VLANs, as far as they fit, with consecutive sequence numbers; status and last number are exact in every case; a chassis ID that is not a MAC address sends nothing |
| `EdpLayout.FrameLayout` | src/daemon/edp.c:33-221 | Every byte of every frame: addresses, lengths, organisation, version, a checksum that makes the words add up to all ones, sequence number, chassis ID, then the TLVs byte by byte |
| `EdpExample.FirstFrame` | tests/check_edp.c:12-93 | The display frame of the first sender of the tests, all its bytes, checksum included |
| `EdpSession.FramesSent` | src/daemon/edp.c:46-214 | One round sends no frame, the display frame or both, by size and by whether there are VLANs; each fits the MTU, and they are numbered one after the other |
| `EdpSend.SendState` | src/daemon/edp.c:58-214 | One turn of that loop: frame, status and sequence number in every case, the number being used up as soon as the headers fit |
| `EdpSend.Fill` | src/daemon/edp.c:193-201 | Filling in both lengths and the checksum completes the frame |
| `EdpDecode.DecodeTlvs` | src/daemon/edp.c:327-444 | On any frame the TLV loop keeps position plus length at the end of the frame, consumes exactly one declared TLV per turn and ends |
| `EdpDecode.Receive` | src/daemon/edp.c:232-510 | On any bytes the decoder never reads outside the frame, terminates, and leaves the known neighbours as specified |
| `EdpFrames.FrameMeaning` | src/daemon/edp.c:232-510 | For every frame: exactly when it is malformed, a new neighbour or more VLANs for one, and what is in it then, names ending at the first null byte |
| `EdpFrames.FrameParts` | src/daemon/edp.c:327-444 | Every frame is a list of TLVs and an end, so the above speaks of all of them |
| `EdpFrames.NameBeforeJunk` | src/daemon/edp.c:382-389 | A name is what comes before the first null byte, whatever follows, or all of it when there is none |
| `EdpLayout.DisplayWithJunk` | src/daemon/edp.c:352-389 | A display frame with anything after the null byte of the name gives the name before it |
| `EdpLayout.VlansWithJunk` | src/daemon/edp.c:396-437 | A frame of VLANs with anything after their names gives the VLANs, in order, and their addresses that are not null |
| `EdpDecode.AttachTo` | src/daemon/edp.c:455-487 | The walk over the known neighbours, moving lists element by element to a port and to the chassis it may share with others |
| `EdpDecode.MoveAddresses` | src/daemon/edp.c:473-486 | An address is appended unless the same one comes later in the frame; the stored list is not looked at |
| `EdpTheorems.DisplayRoundTrip` | src/daemon/edp.c:108-157 | The display frame, followed by any bytes, is decoded to the neighbour announced |
| `EdpTheorems.VlanRoundTrip` | src/daemon/edp.c:158-178 | The VLAN frame, followed by any bytes, is decoded to the VLANs announced, in order |
| `EdpNeighbors.VlansAttachedIff` | src/daemon/edp.c:452-472 | Receiving the VLAN frame gives every known neighbour with the sender's chassis ID exactly the sender's VLANs in order, replacing what it had, if and only if there is at most one such neighbour; nothing else changes |
| `EdpNeighbors.SecondMatchEmptied` | src/daemon/edp.c:455-472 | Two concrete neighbours of one chassis: the second is left without VLANs |
| `EdpSession.BothFramesReceived` | src/daemon/edp.c:33-487 | When both frames of a port fit and the receiver knows the port or has room for it, it ends with an entry for the port; the entry holds exactly the sender's VLANs, in order, if and only if no other port of the same chassis is known on that interface |
| `EdpSession.OtherPortGetsVlans` | src/daemon/edp.c:455-472 | A concrete receiver that knows port 2 of a chassis gives it the VLANs announced by port 1 |
| `EdpNeighbors.AttachIs` | src/daemon/edp.c:455-487 | Among several matching neighbours the first gets the VLANs and its chassis the addresses, the others lose their VLANs; no other neighbour or chassis changes |
| `EdpEntries.VlanFrameMeans` | src/daemon/edp.c:452-487 | What a VLAN frame does to each neighbour and each chassis, told from their fields: protocol, kind of ID and ID |
| `EdpEntries.AddressesKept` | src/daemon/edp.c:473-486 | The addresses added are those of the frame that do not come again in it, in order |
| `EdpNeighbors.AddressesMergedIff` | src/daemon/edp.c:473-487 | For every VLAN frame that some known neighbour matches: the addresses of the chassis of the first one become the union; they stay free of duplicates if and only if the frame brings none that was stored; other chassis do not change |
| `EdpNeighbors.AddressStoredTwice` | src/daemon/edp.c:479-486 | A concrete frame after which a chassis holds the same address twice |
| `EdpStore.Remember` | src/daemon/lldpd.c:566-647 | The two searches, the limit on neighbours and the updates of both lists leave what is specified: the entry for the same port is replaced, the chassis is the one already known if there is one, the new entry is last |
| `EdpEntries.DisplayFrameMeans` | src/daemon/lldpd.c:566-647 | What a display frame does, told from the fields: nothing if the port is unknown and the limit is reached; otherwise the entry of that port is replaced by one at the end, its chassis by the one described, and nothing else changes |
| `EdpStore.Handle` | src/daemon/lldpd.c:541-647 | Decoding a frame and storing what it describes, together |
| `EdpStore.RunConsistent` | src/daemon/lldpd.c:566-647 | Over every run of frames, whatever bytes they hold: no port of a chassis has two entries, no system has two chassis, and every entry refers to a chassis of its protocol |
| `EdpStore.RunWithin` | src/daemon/lldpd.c:585-603 | Over every run of frames the number of neighbours stays within the limit |
| `Tokenizer.Tokenize` | src/client/tokenizer.c:30-106 | Both passes over a buffer of twice the length plus 3, which they never leave, give the result of the one-pass quoting lexer on every line |
| `Tokenizer.Unquote` | src/client/tokenizer.c:41-63 | The first pass leaves the marked characters in the buffer, or fails |
| `Tokenizer.SplitWords` | src/client/tokenizer.c:65-102 | The second pass splits the buffer into words |
| `Tokenizer.TwoPasses` | src/client/tokenizer.c:46-102 | Marking and then splitting agrees with the one-pass lexer from any state |
| `Tokenizer.DanglingIff` | src/client/tokenizer.c:63-63 | The line is refused exactly when it ends inside a quote or after a backslash, told by an automaton that only tracks quoting |
| `Tokenizer.RenderRoundTrip` | src/client/tokenizer.c:21-29 | Any list of arguments without null bytes or byte 2, empty ones included, is recovered from its quoted or escaped rendering |
| `TokenizerWords.LineMeansWords` | src/client/tokenizer.c:30-106 | A line of words made of bare, escaped, single-quoted and double-quoted pieces, with spaces, tabs and newlines around them and a comment or nothing at the end, is read as those words: pieces that touch are one word, quotes and escapes disappear, the comment is not looked at |
| `TokenizerWords.BareWords` | src/client/tokenizer.c:34-34 | Bare words with runs of spaces, tabs and newlines between them are read as those words |
| `Expiry.ScheduleCleanup` | src/daemon/event.c:707-725 | The nested loops, with their inner-only break, compute the minimum of the local TTL and of every neighbour's remaining life, 0 if one has expired |
| `Expiry.TimerInTime` | src/daemon/event.c:707-725 | No neighbour expires strictly before the timer; the delay is 0 exactly when one has expired or the local TTL is 0; a delay below the local TTL is some neighbour's deadline |
| `ExpiryRules.TimerIsLeast` | src/daemon/event.c:707-725 | The delay is the least number of seconds that some neighbour, or the local TTL, leaves |
| `Expiry.RemoteCleanup` | src/lldpd-structs.c:117-164 | Removes exactly the expired ports (all of them on request), in order, raises both counters by their number, calls the callback on each, and gives back one chassis reference per port |
| `ExpiryRules.KeptAndGone` | src/lldpd-structs.c:127-163 | The ports kept are those whose TTL has not passed since they were last heard of, or all without a callback, each once and in order; the ports removed are the others, in order |
| `ExpiryRules.TwoNeighbours` | src/daemon/event.c:707-725 | Two concrete neighbours, and what the timer and the cleanup do with them at several moments |
| `Expiry.PortCleanup` | src/lldpd-structs.c:185-194 | Gives back the reference to the chassis |
| `Expiry.CleanupAll` | src/lldpd-structs.c:117-164 | Over all interfaces, every chassis reference count stays equal to the number of ports that still refer to it |
| `Expiry.RefsSplit` | src/lldpd-structs.c:127-163 | Every reference is either kept or given back, for any chassis and any cleanup |
| `Expiry.RemovedOnTime` | src/daemon/event.c:707-725 | If nothing has expired when the timer is set, the ports removed when it fires are exactly those whose deadline is that moment: none is overdue |
| `Expiry.CleanThenWait` | src/daemon/event.c:707-725 | After a cleanup the next delay is positive |
| `VlanDescent.AppendVlan` | src/daemon/interfaces.c:193-223 | The VLAN is appended to the port of the interface unless the name is there; other ports do not change |
| `VlanDescent.AppendToLower` | src/daemon/interfaces.c:237-274 | When links have no cycle the descent terminates and adds the VLAN, once, to exactly the ports of the physical interfaces reachable by steps down |
| `VlanDescent.HelperVlan` | src/daemon/interfaces.c:278-301 | Every active VLAN interface descends, in order |
| `VlanDescent.CollectedIs` | src/daemon/interfaces.c:278-301 | A port keeps its VLANs, gains only VLANs that reach it, ends with every name that reaches it and never has a name twice |
| `VlanTrails.CollectedExactly` | src/daemon/interfaces.c:193-301 | A port ends with the VLANs it had, then, in the order of the interfaces, those of the active VLAN interfaces from which links lead down to it, except where the first 16 characters of the name are taken already |
| `VlanTrails.VlanOverBond` | src/daemon/interfaces.c:237-274 | A concrete VLAN over a bond of two ports reaches both, and not a third port |
| `Commands.Contains` | src/client/misc.c:30-43 | Tells whether the element stands at the start of some name and ends with it; false for null pointers |
| `Commands.FoundIsName` | src/client/misc.c:30-43 | For elements without a comma that is membership in the comma-split list |
| `Commands.NamesJoined` | src/client/misc.c:30-43 | The names of a list are the words that were joined with commas, empty ones included |
| `Commands.CommaConfuses` | src/client/misc.c:30-43 | An element with a comma can be found although it is no name of the list |
| `Commands.CheckEnv` | src/client/commands.c:577-588 | True exactly when the elements found are as many as the names |
| `Commands.CheckEnvIff` | src/client/commands.c:577-588 | With distinct comma-free keys and distinct required names, that is every required name being present |
| `Commands.TwiceCountsAsTwo` | src/client/commands.c:577-588 | A key stored twice can stand for a missing name |
| `Commands.Choose` | src/client/commands.c:382-412 | The two scans select what counting says: an exact match unless two other matches come before it, else the only match, else the first usable child without a token |
| `Commands.ExactWinsIff` | src/client/commands.c:382-401 | The first exact token wins if and only if there are not two other matches before it; otherwise the command is ambiguous |
| `Commands.ExactHidden` | src/client/commands.c:382-401 | A concrete tree in which an exact command cannot be reached |
| `CommandsRuns.SelectionMeans` | src/client/commands.c:382-412 | For every list of children, told from the fields of the nodes: which child is selected, when the token is ambiguous and when nothing is selected |
| `CommandsRuns.ChosenOnce` | src/client/commands.c:382-412 | Conversely, the child so described is the one selected |
| `Commands.Execute` | src/client/commands.c:340-434 | The loop ends within argc + 2 turns and computes the specified run |
| `Commands.RunConsumes` | src/client/commands.c:368-429 | In any run, turn i processes argument i and leads to turn i + 1: no argument is skipped or read twice |
| `CommandsRuns.RunEnters` | src/client/commands.c:360-429 | In any run, each turn but the last enters a child of the node on top of the stack whose token starts with the argument, that validates, and that is privileged only with privileges or while completing |
| `CommandsRuns.NoPrivilegedNode` | src/client/commands.c:360-363 | A run without privileges never enters a privileged node while completion is not asked for |
| `CommandsRuns.TurnStops` | src/client/commands.c:374-419 | A turn that stops does so without error exactly when there is nothing to read, or nothing to enter at the end of the line |
| `CommandsRuns.ShowExample` | src/client/commands.c:340-434 | A concrete command line succeeds exactly when its command is not privileged or the user is |
| `Commands.SuccessMatchesAll` | src/client/commands.c:430-434 | A command that succeeds without asking for help has had every argument, and then the end of line, matched |
| `BpfFilter.FilterIsExpression` | src/daemon/lldpd.h:278-318 | On every packet of at least 14 bytes, running the 23 instructions accepts exactly what the documented expression describes; every run of every program halts because jumps only go forward |
| `BpfFilter.ShortPackets` | src/daemon/lldpd.h:295-318 | A packet of fewer than 14 bytes is accepted exactly when it begins with the destination of EDP |
| `BpfFilter.FilterIsExpressionIff` | src/daemon/lldpd.h:278-318 | On packets of every length, program and expression agree if and only if the packet has 14 bytes or does not begin with the destination of FDP, CDP or SONMP |
| `BpfFilter.ShortExamples` | src/daemon/lldpd.h:295-318 | Six bytes that are accepted, and thirteen bytes of a CDP frame that are not |

## Left out

- Sockets, libevent, netlink, ioctls, privilege separation, OVSDB and vtysh code, output writers, completion and help output: system glue and formatting.
- `src/daemon/lldp.c` and the rest of `src/daemon/lldpd.c` are not part of this model: LLDP frames, and storing of neighbours learnt with other protocols than EDP.
- EdpStore.Remember: the last frame, the times of change, the insertion counter and the notifications are not modelled.
- EdpSession.BothFramesReceived: assumes that the receiver's lists are consistent, which EdpStore.RunConsistent shows of every run.
- Expiry.PortCleanup: ports in the lists always have a chassis; freeing what a port holds is not modelled.
- Wrap-around of the 16-bit chassis reference count and of the statistics counters.
- Allocation failures, logging and the freeing of strings; freed list elements are modelled (their memory may become anything).
- Widths of `int` lengths in the marshaller: lengths and dummies are unbounded numbers; pointers are 64-bit words.
- MarshalTheorems.RoundTripIff: assumes that addresses of objects are larger than the number of addresses met, that objects do not overlap, that no pointer aims inside a substructure and that string lengths are right, as the descriptors intend.
- MarshalLldpd.DescriptorsGood: the offsets are those of one build (64-bit, all extensions, no OVSDB); other builds are not covered.
- Ctl.Buffer.Send: the payload is what the marshaller returns; padding inside the header is modelled as zeros, and the receiver never reads it.
- CdpSend.Send: values of TLVs other than the address list are built first and copied in one step.
- EdpSend.Send: the slot and port numbers are parameters; how they are derived from the interface name is not modelled.
- EDP port IDs are kept as a slot and a port number, CDP ones as byte strings; their formatting with asprintf() is not modelled.
- Snmp.RemotePort: only the table of remote ports is modelled as nested loops; the other tables differ in their columns.
- SnmpNext.WalkEnumerates: the last sub-identifier of every index is below the largest one; SnmpNext.GetNextIff says what happens otherwise.
- VlanDescent.AppendToLower: links are assumed to have no cycle; with one the recursion of the source does not end.
- Commands.Execute: the functions attached to commands are arbitrary, except that they do not move the argument pointer, as in the source.
- The queue families other than TAILQ, PEEK_DISCARD_UINT32, and table-lookup functions of the SNMP agent.
