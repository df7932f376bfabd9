# OpenCAPWAP access controller

A Dafny model of the access controller (AC) of OpenCAPWAP, which implements CAPWAP
(RFC 5415) with the 802.11 binding (RFC 5416), and proofs about it. `dafny verify
dfyconfig.toml` checks everything.

Values and their laws come first; where the program updates buffers, lists, trees or
fields in place, classes and loops do the same and are proved to refine the values.

- **Messages.** `BitFields` has the field macros for any layout. `Bytes` is the message
  buffer. `TransportHeader` and `ControlMessage` assemble and parse headers and message
  elements. `Fragments` is the receiver's list of fragments, and `Reassembly` shows that
  any order of arrivals with any repeats gives the message back, and that messages whose
  fragments mix are never confused. `Packets` carries this to the bytes on the wire,
  `Receiver` and `Sending` are the program's loops, and `EndToEnd` puts all of it together:
  what is understood is what was sent. `WireFormat` says what stands in each byte, of what
  is sent and of whatever arrives.
- **Stations.** `StationTree` is the AVL tree as a value, `StationTable` what the
  controller does with it, and `StationHeap` the nodes and pointers. `EthAddress` compares
  addresses.
- **Timers.** `Timers` has the operations on relative timeouts with one shared time stamp,
  shown to act on absolute deadlines; `TimerQueue` is the array.
- **Sessions.** `Session` has the steps of one session, of its timers and of other
  sessions that send through it, with a log of what happened; `SessionRules` says
  what each step does and, over runs, when a request is outstanding and a session live;
  `SessionWire` follows the single packets that go out; `SessionEntry` is the table entry
  updated in place. `Slots` has the interleavings of session starts and closes, and
  `SlotStations` which station belongs to which session in them.
- **Data.** `Tunnel` bridges Ethernet and 802.11 frames, `PacketQueue` is the doubly linked
  queue of received packets, `TwoPass` the scheme of the parsers that go over a message twice, and
  `EventRecords` what the elements of those messages say byte by byte, with the three parsers.

## Where the program does not do what it says

The model follows the code. In these places code and comments, or code and intent,
differ, and the condition under which the intended property holds is proved.

- Deletion from the station tree calls, in every case that needs a rotation, the helper
  opposite to the one its comment names (`CWAVL.c:329-349`, `CWAVL.c:433-453`). `Delete`
  takes the choice as a parameter: `Intended` follows the comments, `AsWritten` the code.
  `DeleteAsWritten` says exactly when the code as written leaves an AVL tree.
- `AVLfindWTPNode` drops the results of its recursive calls (`CWAVL.c:54-55`); the search
  is modelled with the results returned.
- The association block deletes with the new radio number, so a station that comes from
  a radio of another number keeps its old entry (`HandoverWorksIff`).
- The low byte of the data rate is written and read at different places of the wireless
  part (`BindingPreserved`), and a header with both optional parts cannot be read back
  (`HeaderRoundTrip`).
- On some lists with non-last fragments shorter than eight bytes the rebuild loop of the
  receiver stores one fragment again and again, beyond its buffer, or, if that fragment is
  empty, for ever (`StallsDecide`).
- Sending in full empties the array of messages, so what is called retransmission has
  nothing to send (`NothingToRetransmit`), and no array is sent in full twice (`SentOnce`).
  A send that the network refuses half-way leaves the array where it is. Its packets go out
  again only if a handover of another session is involved (`OnceIff`, `OnceWithoutHandover`,
  `TwiceInHandover`).
- A handover sends through the slot of another session, which can leave an expected
  sequence number behind (`StaleExpected`, `AnsweringIff`).
- A session that closes before it was counted is taken off the count of the interface that
  its slot still names (`Mischarged`).
- The number of active WTPs lags behind the slots that are taken, so the check before the
  search for a slot does not ensure that there is one (`FreeSlotIff`). A slot is given
  back before its stations are removed (`PurgeHarmsIff`).
- The conversion of an alarm to microseconds wraps beyond 429496 ticks (`RequestedExact`),
  and the search for the shortest timer misses a timeout of 2^32-1 (`ShortestIsLeast`).
  The test for a shorter timer compares sums that wrap at 2^32, so that a longer timer can
  be taken for the shorter one (`SetCorrect`, `SetMistakenExample`).
- Two parsers of Change State Event Requests test the end of the message differently, and a
  message can be good for one alone (`EndsDiffer`, `PastTheLength`).
- The exceptions for two Ethernet types when a SNAP header is taken off never apply
  (`SnapPrefix`).
- A fragmented control message carries a frame type that was never initialised: it is a
  parameter of the sender.

## Model

| member | source | states |
|---|---|---|
| BitFields.GetOwnField | opencapwap/src/CWProtocol.h:51-52 | a field of a word that was still zero there reads back what was set, cut to the field's width |
| BitFields.GetOtherField | opencapwap/src/CWProtocol.h:51-52 | setting a field leaves every field disjoint from it as it was |
| BitFields.PackGet | opencapwap/src/CWProtocol.h:51-52 | after any run of settings of pairwise disjoint fields, each field reads back its own value |
| BitFields.PackOther | opencapwap/src/CWProtocol.h:51-52 | a field that no setting of a run touches reads zero |
| BitFields.PackBound | opencapwap/src/CWProtocol.h:51-52 | the packed word fits 32 bits |
| BitFields.TilesWellLaid | opencapwap/src/CWProtocol.h:115-172 | fields that follow each other without gap and fill the word lie inside it and do not overlap |
| BitFields.TileOf | opencapwap/src/CWProtocol.h:115-172 | every bit of a tiled word belongs to one of its fields |
| BitFields.LowIsMod | opencapwap/src/CWProtocol.h:51-52 | the mask in the field macros is the remainder modulo a power of two, for negative values too |
| Bytes.RoundTrip16 | opencapwap/src/CWProtocol.c:60-65 | reading two big-endian bytes undoes storing a 16-bit value, cut to 16 bits |
| Bytes.RoundTrip32 | opencapwap/src/CWProtocol.c:67-73 | reading four big-endian bytes undoes storing a 32-bit value, cut to 32 bits |
| Bytes.Same16 | opencapwap/src/CWProtocol.c:104-112 | storing what was read gives the two bytes back |
| Bytes.Message.Store8 | opencapwap/src/CWProtocol.c:54-58 | appends one byte to what was stored, in place |
| Bytes.Message.Store16 | opencapwap/src/CWProtocol.c:60-65 | appends the two big-endian bytes of the value |
| Bytes.Message.Store32 | opencapwap/src/CWProtocol.c:67-73 | appends the four big-endian bytes of the value |
| Bytes.Message.StoreRawBytes | opencapwap/src/CWProtocol.c:88-92 | appends given bytes; what was stored before stays |
| Bytes.Message.StoreMessage | opencapwap/src/CWProtocol.c:82-86 | appends what was stored in another message |
| Bytes.Message.Retrieve8 | opencapwap/src/CWProtocol.c:94-102 | returns the byte at the offset and moves the offset by one |
| Bytes.Message.Retrieve16 | opencapwap/src/CWProtocol.c:104-112 | returns the big-endian value at the offset and moves it by two |
| Bytes.Message.Retrieve32 | opencapwap/src/CWProtocol.c:114-123 | returns the big-endian value at the offset and moves it by four |
| Bytes.Message.RetrieveRawBytes | opencapwap/src/CWProtocol.c:138-147 | returns the next bytes and moves the offset past them |
| TransportHeader.Layout | opencapwap/src/CWProtocol.h:115-172 | the fields of both fixed words, and of both words of the wireless part, tile their 32 bits: disjoint and without gap |
| TransportHeader.HeaderSize | opencapwap/src/CWProtocol.c:184-235 | the bytes assembled are four times the value put into the header length field |
| TransportHeader.RoundTripPlain | opencapwap/src/CWProtocol.c:871-997 | without optional parts, parsing an assembled header followed by any payload returns every field, cut to its width, and consumes exactly the header |
| TransportHeader.RoundTripMac | opencapwap/src/CWProtocol.c:871-997 | the same with a radio address, which comes back |
| TransportHeader.RoundTripBinding | opencapwap/src/CWBinding.c:279-333 | the same with a wireless part, as far as it survives |
| TransportHeader.BindingRoundTrip | opencapwap/src/CWBinding.c:197-252 | RSSI, SNR and the high rate byte of a wireless part come back; the low rate byte comes back as zero, because it is written and read at different places |
| TransportHeader.BindingPreserved | opencapwap/src/CWBinding.c:197-333 | a wireless part comes back unchanged if and only if its values fit their types and the low rate byte is zero |
| TransportHeader.MacRoundTrip | opencapwap/src/CWBinding.c:254-277 | the radio address part, padded to a multiple of four, reads back as the address and is consumed whole |
| TransportHeader.BothPartsOnDataChannel | opencapwap/src/CWProtocol.c:932-976 | with both optional parts, the parser of the data channel refuses the packet: the address is written first and expected last |
| TransportHeader.BothPartsOnControlChannel | opencapwap/src/CWProtocol.c:976-997 | with both optional parts, the parser of the control channel leaves the wireless part in the payload |
| TransportHeader.HeaderRoundTrip | opencapwap/src/CWProtocol.c:184-350 | parse after assemble returns every field and consumes exactly the header if and only if radio address and wireless part are not both present |
| TransportHeader.PackWord | opencapwap/src/CWProtocol.h:51 | the run of in-place field settings yields the packed word |
| TransportHeader.AssembleTransportHeader | opencapwap/src/CWProtocol.c:184-350 | the stores into the message buffer leave exactly the bytes of the header |
| TransportHeader.AssembleBinding | opencapwap/src/CWBinding.c:197-252 | the stores append exactly the bytes of the wireless part |
| TransportHeader.AssembleMac | opencapwap/src/CWProtocol.c:333-341 | the stores append length, address and padding |
| TransportHeader.ParseTransportHeader | opencapwap/src/CWProtocol.c:871-997 | the retrieves give the parsed header and leave the offset behind it, or report the same error or overrun as the specification |
| TransportHeader.ParseBindingPart | opencapwap/src/CWBinding.c:279-333 | the retrieves of the wireless part give what the specification says, and move the offset by its length |
| TransportHeader.ParseMacPart | opencapwap/src/CWBinding.c:254-277 | the retrieves of the address part give what the specification says |
| ControlMessage.WalkRoundTrip | opencapwap/src/CWProtocol.c:1106-1111 | walking over stored elements finds the same types and bodies in the same order and goes over exactly their bytes |
| ControlMessage.WalkFaithful | opencapwap/src/CWProtocol.c:1106-1111 | the bytes any walk went over are exactly the bytes of the elements it found |
| ControlMessage.WalkOwnBytes | opencapwap/src/CWProtocol.c:1106-1111 | a walk over the bytes of some elements finds them and stops at a stated length if and only if that is their length |
| ControlMessage.MessageHead | opencapwap/src/CWProtocol.c:1000-1024 | the header of an assembled message yields type, sequence number modulo 256 and the element length modulo 2^16 |
| ControlMessage.MessageRoundTrip | opencapwap/src/CWProtocol.c:464-477 | parsing an assembled control message gives type and sequence number, and the same elements if and only if their total length is below 2^16 |
| WireFormat.WordIsDigits | opencapwap/src/CWProtocol.h:51-52 | setting the fields of a tiled word one by one writes their values, cut to their widths, one behind the other |
| WireFormat.HeaderBytes | opencapwap/src/CWProtocol.c:184-350 | an assembled transport header, byte by byte: version and type; length and radio id 0; binding 1 and T; F, L, W and M; id; offset above three zero bits; then 6, the address and a zero; then 4, RSSI, SNR, both rate bytes and padding |
| WireFormat.MessageLayout | opencapwap/src/CWProtocol.c:464-477 | an assembled control message, byte by byte: the type, the higher bytes first, the sequence number, the length of the elements plus three, a zero, the elements |
| WireFormat.ElementLayout | opencapwap/src/CWProtocol.c:154-181 | an element starts with its type and the length of its body, the higher byte first |
| WireFormat.ControlHeaderRead | opencapwap/src/CWProtocol.c:871-997 | any packet of sixteen bytes or more on the control channel: whether it is refused, and otherwise every field, by the bytes it stands in |
| WireFormat.DataHeaderRead | opencapwap/src/CWProtocol.c:871-997 | the same on the data channel without a radio address, keep-alives included |
| WireFormat.WirelessRead | opencapwap/src/CWBinding.c:279-333 | any eight bytes of a wireless part: refused unless they start with 4; RSSI and SNR signed, the low rate byte from the last of them |
| Fragments.SplitPartitions | opencapwap/src/CWProtocol.c:607-697 | fragments partition the message: consecutive offsets, equal positive multiples of eight bytes, a last one of one byte up to that, joined they are the message |
| Fragments.ReceiveKeepsCoherent | opencapwap/src/CWProtocol.c:763-866 | whatever arrives, one arrival leaves a list with one fragment id and no offset twice |
| Fragments.RunHolds | opencapwap/src/CWProtocol.c:763-866 | after every run of arrivals the list holds one fragment id and no offset twice, and only fragments it held before or that arrived |
| Fragments.RebuildSound | opencapwap/src/CWProtocol.c:836-865 | when the rebuild loop completes, what it copied is data of held fragments at strictly rising offsets, each once, within the bytes held |
| Fragments.CompleteIsSound | opencapwap/src/CWProtocol.c:763-866 | a completed message mixes no ids, uses each held fragment at most once, is no longer than the allocated size, and leaves the list empty |
| Fragments.RebuildIsTheLoop | opencapwap/src/CWProtocol.c:836-865 | the loop, turn by turn into a buffer of the allocated size, is left complete, at a gap or by a store beyond the buffer as the specification says, or is never left exactly if it says so |
| Fragments.GroupedEnds | opencapwap/src/CWProtocol.c:836-865 | the loop ends inside its buffer if every non-last fragment holds at least eight bytes |
| Fragments.StallsDecide | opencapwap/src/CWProtocol.c:836-865 | from the start, the loop writes beyond the buffer if and only if the offsets lead to a non-empty non-last fragment of fewer than eight bytes, and never ends if and only if they lead to an empty one |
| Fragments.StallExample | opencapwap/src/CWProtocol.c:836-865 | three fragments whose sizes add up: with a first one of four bytes the loop overruns its twelve bytes, with an empty one it never ends |
| Fragments.RunIsSound | opencapwap/src/CWProtocol.c:763-866 | in every run where non-last fragments hold at least eight bytes, every verdict is "need more", "bad fragments" or a complete message, made of fragments with the id of the arriving one, each at most once, that were held or had arrived |
| Fragments.ReceiveDecides | opencapwap/src/CWProtocol.c:763-866 | any fragment on any list with one id and no offset twice: ignored if held; else kept, and more asked for, unless exactly the announced bytes are held; then complete with given bytes if and only if fragments linked from offset 0 to a last one hold them, overrun or endless if and only if short fragments stall it, and otherwise everything is refused and dropped |
| Reassembly.SizeCheck | opencapwap/src/CWProtocol.c:807-828 | held fragments add up to the announced size if and only if none is missing |
| Reassembly.CheckHeld | opencapwap/src/CWProtocol.c:807-866 | the check after an arrival completes the message exactly if nothing is missing |
| Reassembly.AnyOrderReassembles | opencapwap/src/CWProtocol.c:607-868 | for every message, fragment size, order and repetition of arrivals: "need more" until the last missing fragment, then exactly the message and an empty list |
| Reassembly.MixedReassembles | opencapwap/src/CWProtocol.c:763-868 | for any number of messages with different ids, their fragments interleaved, lost and repeated in any way, the receiver answers as one that keeps the set of fragments seen of the current message and drops it when one of another message arrives |
| Reassembly.MixedCompletes | opencapwap/src/CWProtocol.c:763-868 | then every completed message is exactly the one sent under the id of the fragment that arrived |
| Packets.PacketsAreFragments | opencapwap/src/CWProtocol.c:724-770 | a receiver of packets answers as a receiver of the fragments inside them, with id and offset cut to their fields |
| Packets.ShortMessagesFit | opencapwap/src/CWProtocol.c:607-697 | up to 65536 bytes every fragment offset fits its 13 bits |
| Packets.PacketsReassemble | opencapwap/src/CWProtocol.c:607-868 | reassembly in any order with any repeats, on the bytes of the packets |
| Packets.PacketsInterleave | opencapwap/src/CWProtocol.c:607-868 | the same for several messages with their packets interleaved in any way |
| Packets.DeliveredIffFits | opencapwap/src/CWProtocol.c:607-868 | sending the fragments once, in order, delivers the message if and only if the last offset fits its field |
| WireFormat.FragmentPacketBytes | opencapwap/src/CWProtocol.c:652-692 | the packet of a fragment, byte by byte: the F bit, the L bit exactly for the last one, id, offset, the sender's settings, and the data at its end |
| WireFormat.SinglePacketBytes | opencapwap/src/CWProtocol.c:624-650 | the packet of a message that fits has neither bit, nor id or offset |
| WireFormat.PacketRead | opencapwap/src/CWProtocol.c:724-770 | any plain packet on the control channel: with the F bit it is received as the fragment that its bytes name, without it as the message |
| WireFormat.PacketRefused | opencapwap/src/CWProtocol.c:883-887 | a packet that is too short or of another version changes nothing |
| Receiver.FragmentList.Search | opencapwap/src/CWList.c:126-140 | finds a held fragment with the same id and offset exactly if there is one |
| Receiver.FragmentList.RebuildMessage | opencapwap/src/CWProtocol.c:836-865 | the loop over the list stores into the buffer turn by turn and gives what the specification says; a store that does not fit is reported as an overrun |
| Receiver.FragmentList.CheckComplete | opencapwap/src/CWProtocol.c:807-866 | the completeness check on the list gives verdict and list of the specification |
| Receiver.FragmentList.ParseFragment | opencapwap/src/CWProtocol.c:724-868 | receiving a packet gives the answer of the specification and leaves the list it says; the list keeps one fragment id and no offset twice |
| Sending.AssembleMsgElem | opencapwap/src/CWProtocol.c:154-181 | type, length and body of an element, stored in a fresh buffer |
| Sending.AssembleControlHeader | opencapwap/src/CWProtocol.c:464-477 | the stored control header |
| Sending.AssembleBody | opencapwap/src/CWProtocol.c:568-595 | control header and all elements, in order, in one buffer |
| Sending.CountFragments | opencapwap/src/CWProtocol.c:614-615 | the number of fragments is the number the message is split into |
| Sending.AssembleFragments | opencapwap/src/CWProtocol.c:607-697 | the fragmenting loop yields the packets of the fragments, in order |
| Sending.AssemblePackets | opencapwap/src/CWBinding.c:60-194 | no packet for an empty frame, one for a message that fits, else the packets of its fragments |
| Sending.AssembleMessage | opencapwap/src/CWProtocol.c:558-702 | assembling a control message yields its packets |
| Sending.FragmentSizes | opencapwap/src/CWProtocol.c:607-697 | no fragment holds more than the chosen multiple of eight bytes |
| Sending.PacketsFitPath | opencapwap/src/CWProtocol.c:607-697 | once the path MTU leaves room for eight bytes beside the overhead, every packet is within the MTU less the overhead plus its header: with no radio address, the MTU less 25 |
| Sending.OnePacketIff | opencapwap/src/CWProtocol.c:607-622 | a message is one packet if and only if the path MTU leaves fewer than eight bytes beside the overhead or the message is not empty and within the largest multiple of eight it leaves; it is none exactly if it is empty and could be split |
| Sending.FullFragments | opencapwap/src/CWProtocol.c:607-697 | otherwise it is fragments that follow each other, joined are the message, and each but the last holds more than the MTU less the overhead less eight |
| Sending.FewestPackets | opencapwap/src/CWProtocol.c:607-697 | no way to cut a message into pieces of at most one multiple of eight bytes within the MTU less the overhead takes fewer packets |
| Sending.ControlPacketIff | opencapwap/src/CWProtocol.c:607-622 | a control message is one packet if and only if the MTU is below 41 or the message within the largest multiple of eight below the MTU less 33 |
| EndToEnd.SingleControlMessage | opencapwap/src/CWProtocol.c:558-868 | a message of one packet is understood on arrival, whatever fragments are held |
| EndToEnd.FragmentedControlMessage | opencapwap/src/CWProtocol.c:558-868 | for every order and number of arrivals, every completed message has the type, sequence number and elements sent, and once all packets arrived there is one |
| EndToEnd.InterleavedControlMessages | opencapwap/src/CWProtocol.c:558-868 | with the packets of several control messages interleaved, lost and repeated in any way, every completed message has the type, sequence number and elements sent under the id of the packet that arrived |
| EndToEnd.AlwaysFragmentable | opencapwap/src/CWProtocol.c:558-702 | every control message can be sent in fragments: none is empty |
| EthAddress.CompareEthAddr | opencapwap/src/CWAVL.c:3-15 | the sign of the byte-by-byte comparison is the order of the addresses as numbers; zero exactly for equal addresses |
| EthAddress.SixBytes | opencapwap/src/CWAVL.c:3-15 | six bytes write a number below 2^48, the range of tree keys |
| EthAddress.ValueInjective | opencapwap/src/CWAVL.c:3-15 | addresses with the same number are equal |
| StationTree.FindIsLookup | opencapwap/src/CWAVL.c:33-44 | the search gives what the map of the tree gives |
| StationTree.RotateWithLeftKeeps | opencapwap/src/CWAVL.c:116-127 | a single rotation keeps contents and search order |
| StationTree.RotateWithRightKeeps | opencapwap/src/CWAVL.c:136-148 | a single rotation keeps contents and search order |
| StationTree.DoubleRotateWithLeftKeeps | opencapwap/src/CWAVL.c:158-165 | a double rotation keeps contents and search order |
| StationTree.DoubleRotateWithRightKeeps | opencapwap/src/CWAVL.c:173-180 | a double rotation keeps contents and search order |
| StationTree.InsertContents | opencapwap/src/CWAVL.c:185-231 | on any ordered tree insertion keeps the order and is insert-if-absent on the map |
| StationTree.InsertShaped | opencapwap/src/CWAVL.c:185-231 | on a well-shaped tree insertion never follows a null pointer, keeps heights and balance, and grows the height by at most one |
| StationTree.InsertCorrect | opencapwap/src/CWAVL.c:185-231 | insertion into an AVL tree gives an AVL tree that stands for the map with the key added if absent |
| StationTree.DeleteContents | opencapwap/src/CWAVL.c:236-456 | whichever rotation helpers are called, a deletion that returns removes exactly the matching entry and keeps the order |
| StationTree.DeleteShaped | opencapwap/src/CWAVL.c:236-456 | with the rotations the case comments ask for, deletion never fails, keeps heights and balance, and lowers the tree by at most one |
| StationTree.DeleteCorrect | opencapwap/src/CWAVL.c:247-352 | with the rotations the case comments ask for, deletion from an AVL tree gives an AVL tree for the map without exactly the matching key |
| StationTree.DeleteNothing | opencapwap/src/CWAVL.c:247-352 | an absent key or another radio leaves the tree as it is, node by node |
| StationTree.WrongLeft | opencapwap/src/CWAVL.c:329-338 | the helper called in the left-heavy cases follows a null pointer or leaves the node out of balance and no lower |
| StationTree.WrongRight | opencapwap/src/CWAVL.c:340-349 | the helper called in the right-heavy cases does the same |
| StationTree.WrongLeftShape | opencapwap/src/CWAVL.c:329-338 | the helper called in the left-heavy cases fails exactly if a child it lifts is missing, and otherwise makes the right child the root |
| StationTree.WrongRightShape | opencapwap/src/CWAVL.c:340-349 | the mirror image in the right-heavy cases |
| StationTree.DeleteAsWritten | opencapwap/src/CWAVL.c:236-456 | as written, deletion from an AVL tree gives an AVL tree if and only if removal without any repair leaves it in balance; if it returns, map and order are right |
| StationTree.CrashExample | opencapwap/src/CWAVL.c:329-349 | four stations on which the deletion as written follows a null pointer |
| StationTable.AssociateContents | opencapwap/src/ACRunState.c:906-927 | the effect of the association block on the map |
| StationTable.HandoverWorksIff | opencapwap/src/ACRunState.c:910-926 | after the block the station is served where it associated if and only if it was absent or known on a radio of the same number |
| StationTable.AssociateIntended | opencapwap/src/ACRunState.c:906-927 | with the intended rotations the block never fails and keeps the AVL tree |
| StationTable.FindWtpFinds | opencapwap/src/CWAVL.c:46-64 | the search for a station of a WTP finds one exactly if there is one |
| StationTable.PurgeTurn | opencapwap/src/ACMainLoop.c:1172-1179 | every turn of the purge loop leaves one station fewer of that WTP |
| StationTable.PurgeContents | opencapwap/src/ACMainLoop.c:1170-1181 | closing a WTP removes exactly its stations |
| StationTable.PurgeIntended | opencapwap/src/ACMainLoop.c:1170-1181 | with the intended rotations the loop never fails and keeps the AVL tree |
| StationTable.RunIsMap | opencapwap/src/CWAVL.c:33-456 | after every run of operations that does not fail a search gives what a finite map gives |
| StationTable.RunIntended | opencapwap/src/CWAVL.c:33-456 | with the intended rotations no run fails, and the table is an AVL tree throughout |
| StationHeap.SingleRotateWithLeft | opencapwap/src/CWAVL.c:116-127 | the pointer rotation refines the rotation of the tree value, and changes only nodes of the tree |
| StationHeap.SingleRotateWithRight | opencapwap/src/CWAVL.c:136-148 | the pointer rotation refines the rotation of the tree value |
| StationHeap.DoubleRotateLeft | opencapwap/src/CWAVL.c:158-165 | the pointer double rotation refines that of the tree value |
| StationHeap.DoubleRotateRight | opencapwap/src/CWAVL.c:173-180 | the pointer double rotation refines that of the tree value |
| StationHeap.InsertStation | opencapwap/src/CWAVL.c:185-231 | insertion by pointer updates leaves a well-formed tree whose value is the inserted value |
| StationHeap.MinValueNode | opencapwap/src/CWAVL.c:236-245 | walks left to the least station |
| StationHeap.DeleteStation | opencapwap/src/CWAVL.c:247-456 | deletion by pointer updates and copying leaves a well-formed tree whose value is the value after deletion; where the value fails a null pointer would be followed |
| StationHeap.FindStation | opencapwap/src/CWAVL.c:33-44 | the pointer search finds the entry of the tree value |
| StationHeap.FindWtpNode | opencapwap/src/CWAVL.c:46-64 | the pointer search, with the results of its calls returned, finds what the value search finds |
| StationHeap.Table.AssociateStation | opencapwap/src/ACRunState.c:906-927 | the association block on the global tree does what the block does on values |
| StationHeap.Table.PurgeWtp | opencapwap/src/ACMainLoop.c:1170-1181 | the purge loop on the global tree ends and does what it does on values |
| Timers.ShortestIsLeast | opencapwap/src/CWTimer.h:398-408 | the search finds the first of the least timeouts, and nothing exactly if none lies between 0 and 2^32-1: a timeout of 2^32-1 is missed |
| Timers.UpdateDeadlines | opencapwap/src/CWTimer.h:374-397 | updating keeps every absolute deadline that is ahead; exactly the slots that are due expire |
| Timers.SetCorrect | opencapwap/src/CWTimer.h:267-333 | setting takes a free slot; it adds the right deadline and leaves a working queue with a least timer running if and only if the value stored stays below 2^32-1 and the 32-bit sums compare as the deadlines do; if they do, all other deadlines are kept and nothing fires; if not, only what is due fires |
| Timers.SetMistakenExample | opencapwap/src/CWTimer.h:308-309 | a queue in which a timeout of a hundred is taken for shorter than a running one of five, because the sum wraps |
| Timers.CancelCorrect | opencapwap/src/CWTimer.h:336-357 | cancelling removes one deadline and keeps the others, except that if the timer ran for it what is due is fired |
| Timers.InterruptCorrect | opencapwap/src/CWTimer.h:361-372 | an interrupt fires exactly what is due, each once, keeps all other deadlines, and starts a least timer |
| Timers.StepSound | opencapwap/src/CWTimer.h:267-372 | each operation's settings, firings and cancellations make sense against the log, which tells exactly the pending deadlines |
| Timers.Run | opencapwap/src/CWTimer.h:267-443 | the same after every run of operations in order of time |
| Timers.NoneEarlyNoneTwice | opencapwap/src/CWTimer.h:267-443 | in every run from an empty queue each handler call follows a setting of its slot whose deadline has come, with nothing about the slot in between |
| Timers.InitialReady | opencapwap/src/CWTimer.h:260-263 | an empty queue starts every run of operations in order of time |
| Timers.RequestedExact | opencapwap/src/CWTimer.h:93-94 | the alarm request in seconds and microseconds is exact if and only if the product in `USEC` stays below 2^32 |
| TimerQueue.TimerQueue.UpdateAllTimersBy | opencapwap/src/CWTimer.h:374-397 | the loop over the array updates every slot and calls the handlers of those that run out, in order |
| TimerQueue.TimerQueue.ShortestTimer | opencapwap/src/CWTimer.h:398-408 | the loop finds the first least timeout |
| TimerQueue.TimerQueue.StartTimer | opencapwap/src/CWTimer.h:409-422 | remembers the slot and, if there is one, the time |
| TimerQueue.TimerQueue.CancelItimer | opencapwap/src/CWTimer.h:435-443 | updates all slots by the time since the stamp |
| TimerQueue.TimerQueue.SetBesides | opencapwap/src/CWTimer.h:308-333 | while another timer runs: one taken for shorter takes its place, any other waits with its timeout counted from the stamp |
| TimerQueue.TimerQueue.SetTimer | opencapwap/src/CWTimer.h:267-333 | the new array, stamp, running slot and calls are those of the specification; the invariant is kept if the timeout fits and the sums compare as the deadlines do |
| TimerQueue.TimerQueue.CancelTimer | opencapwap/src/CWTimer.h:336-357 | the new array, stamp, running slot and calls are those of the specification, and the invariant is kept |
| TimerQueue.TimerQueue.ClockInterrupt | opencapwap/src/CWTimer.h:361-372 | the new array, stamp, running slot and calls are those of the specification, and the invariant is kept |
| Session.PhaseAdvances | opencapwap/src/ACMainLoop.c:810-935 | a live session stays in its state or enters the next, the latter only by accepting the request it waits for |
| Session.PhasesInOrder | opencapwap/src/ACMainLoop.c:660-935 | over the life of a session the accepted messages are exactly the requests that separate its first state from its last |
| Session.NextKeeps | opencapwap/src/ACMainLoop.c:715-1104 | every step of any thread keeps messages, state and retransmission count in agreement with the history, and the outstanding request too unless a response goes astray, which the history then tells |
| Session.RunKeeps | opencapwap/src/ACMainLoop.c:715-1278 | in every run of any threads: no array is sent in full twice, the accepted requests are those that lead to the state, and the retransmission count is the number of retries since the request was issued and stays below its maximum unless a close was requested |
| Session.FromFree | opencapwap/src/ACMainLoop.c:627-935 | in every run from an unused slot, the run state is reached exactly with messages of types 3, 5 and 11 (Join, Configure and Change State Event Request) accepted in this order, and the count is bounded |
| Session.AnswersOneRequest | opencapwap/src/ACRunState.c:1390-1425 | in every run where no response goes astray, a handled response with a non-zero number follows a request with that number, with nothing issued, answered or stopped in between |
| Session.SentOnce | opencapwap/src/ACRetransmission.c:61-90 | in every run, every array that is sent in full was assembled since the last one was: no array is sent in full twice |
| Session.NextClean | opencapwap/src/ACMainLoop.c:677-680 | a step keeps "non-zero expected number implies outstanding request" if and only if it is not a session start on a slot with a number left over |
| Session.CleanIff | opencapwap/src/ACMainLoop.c:677-680 | "non-zero expected number implies outstanding request" holds throughout a run if and only if no session starts on a slot with a number left over; then no response goes astray |
| Session.NextBounded | opencapwap/src/ACMainLoop.c:1246-1268 | the retransmission count of a live session stays below the maximum unless a close was requested |
| Session.NothingToRetransmit | opencapwap/src/ACMainLoop.c:1226-1278 | without requests sent by other sessions the retransmission timer never changes anything |
| Session.NeverRetransmits | opencapwap/src/ACRetransmission.c:93-114 | the same over every run: an outstanding request never has its messages left |
| Session.WithoutHandover | opencapwap/src/ACMainLoop.c:715-1104 | without handovers no response goes astray in any run and the retransmission count stays zero |
| Session.TimerActsInHandover | opencapwap/src/ACRunState.c:951-967 | a run in which the timer of a session in the run state sends the request another session assembled on its slot |
| Session.StaleExpected | opencapwap/src/ACRunState.c:951-967 | a run in which a handover goes out through a slot just closed, so that the next session reaches the run state with an expected number and no request, and a response goes astray |
| Session.AnsweringIff | opencapwap/src/ACRunState.c:1118-1425 | every handled response with a non-zero number answers the one outstanding request if and only if no step delivers a known response with the expected non-zero number while no request is outstanding |
| Session.DeliverKeeps | opencapwap/src/ACRunState.c:1118-1425 | one message: everything is kept, except that a response with a left-over number is handled and answers nothing |
| SessionRules.ResponseCompletes | opencapwap/src/ACRunState.c:1127-1137 | the awaited response, of type 8, 24, 26 or 3398914, ends the request: not outstanding, no number expected, no messages, and the history tells |
| SessionRules.IgnoredInRun | opencapwap/src/ACRunState.c:1403-1422 | in the run state an even type with another number, a malformed message, and a message handled that is no response change nothing |
| SessionRules.FailureInRun | opencapwap/src/ACMainLoop.c:880-935 | in the run state any other failure ends the session and gives up its request |
| SessionRules.RequestAccepted | opencapwap/src/ACMainLoop.c:810-935 | the request a state waits for, by its number, is answered and the next state entered; nothing else changes |
| SessionRules.IgnoredBeforeRun | opencapwap/src/ACMainLoop.c:810-875 | before the run state a message of another type or a malformed one changes nothing |
| SessionRules.FailureBeforeRun | opencapwap/src/ACMainLoop.c:810-875 | before the run state any other failure ends the session where it is |
| SessionRules.CommandLeaves | opencapwap/src/ACMainLoop.c:946-1087 | a command leaves its request outstanding if all packets were taken and the timer started, and otherwise nothing but the history |
| SessionRules.TimerLeaves | opencapwap/src/ACMainLoop.c:1226-1278 | the timer does nothing without an outstanding request and its messages; it counts; at the maximum it requests a close and sends nothing; below, it sends, and a failure ends the session |
| SessionRules.FactIff | opencapwap/src/ACMainLoop.c:655-1278 | after every run of any threads a request is outstanding if and only if one was issued and since then neither its response nor a failure, a stop, a start or a close came; a session is live if and only if it started and nothing ended it since; a close is requested if and only if it was and the slot was not given away since |
| SessionRules.AwaitsItsNumber | opencapwap/src/ACRetransmission.c:93-114 | while a request is outstanding and no other is issued, the response with its own number is awaited |
| SessionWire.DistinctIff | opencapwap/src/ACRetransmission.c:61-90 | in a history where no array is sent in full twice, no packet of an assembled array goes out twice if and only if nothing is sent from an array that a refused send left partly out |
| SessionWire.NextWire | opencapwap/src/ACMainLoop.c:715-1278 | one step of any thread sends a packet that is already out if and only if it sends at least one packet from an array that a refused send left partly out |
| SessionWire.OnceIff | opencapwap/src/ACRetransmission.c:61-114 | over every run from an unused slot: no packet of an assembled array goes out twice if and only if no step sends from an array that a refused send left partly out |
| SessionWire.OnceWithoutHandover | opencapwap/src/ACRetransmission.c:61-114 | in every run without handovers, whatever sends are refused, no packet of an assembled array goes out twice |
| SessionWire.TwiceInHandover | opencapwap/src/ACRunState.c:951-967 | a run in which a handover sends one packet, the next is refused, and the timer of the slot sends the whole array |
| SessionEntry.Entry.Start | opencapwap/src/ACMainLoop.c:655-680 | the fields a starting session resets; the invariants of all runs are kept |
| SessionEntry.Entry.SendFragments | opencapwap/src/ACRetransmission.c:61-90 | the loop hands packets to the network up to the first refusal; the array is released exactly if all were taken; the packets on the wire are those the history tells; the invariants are kept |
| SessionEntry.Entry.SendAcknowledgedPacket | opencapwap/src/ACRetransmission.c:93-114 | the request becomes outstanding with its number; success means sent and timer started; the invariants are kept |
| SessionEntry.Entry.StopRetransmission | opencapwap/src/ACRetransmission.c:117-136 | clears request, number and messages if a request is outstanding, else changes nothing; the invariants are kept |
| SessionEntry.Entry.Command | opencapwap/src/ACMainLoop.c:946-1087 | a command assembles and sends a request and gives it up on failure; the invariants are kept |
| SessionEntry.Entry.SoftTimerExpired | opencapwap/src/ACMainLoop.c:1226-1278 | counts and resends, requests a close at the maximum, closes if sending fails; the invariants, the bound on the count among them, are kept |
| SessionEntry.Entry.CloseThread | opencapwap/src/ACMainLoop.c:1107-1185 | closing gives up the outstanding request and ends the session; the invariants are kept |
| SessionEntry.Entry.EnterState | opencapwap/src/ACMainLoop.c:810-875 | the states before run: wrong or malformed messages are ignored, other failures close, success sends the response and advances; the invariants are kept |
| SessionEntry.Entry.EnterRun | opencapwap/src/ACRunState.c:1118-1425 | responses with another number are ignored; known ones complete the request; the invariants are kept, and the outstanding request agrees with the history unless the response went astray |
| Slots.FindFreeSlot | opencapwap/src/ACMainLoop.c:430 | the search finds the first slot that is not taken |
| Slots.ExclusiveNext | opencapwap/src/ACMainLoop.c:428-507 | every step keeps: a session that holds a slot has it to itself |
| Slots.TalliedNext | opencapwap/src/ACMainLoop.c:641-651 | every step keeps: the total equals the sum over the interfaces, and each interface counts its sessions |
| Slots.OccupiedNext | opencapwap/src/ACMainLoop.c:1160-1162 | every step keeps: the taken slots are those held and the one reserved |
| Slots.RunKeeps | opencapwap/src/ACMainLoop.c:428-1185 | every interleaving of session starts and closes keeps the invariant |
| Slots.InitialKeeps | opencapwap/src/ACMainLoop.c:428-438 | it holds at the start |
| Slots.ActiveWithinSlots | opencapwap/src/ACMainLoop.c:1118-1127 | the number of active WTPs is the sum over the interfaces and at most the number of taken slots; no two sessions share a slot |
| Slots.FreeSlotIff | opencapwap/src/ACMainLoop.c:366-376 | the search for a slot succeeds if and only if the active WTPs and those not counted leave one |
| Slots.GuardPassesWithoutSlot | opencapwap/src/ACMainLoop.c:366-430 | a run after which the check of the active WTPs passes and no slot is free |
| Slots.PurgeSafe | opencapwap/src/ACMainLoop.c:1160-1181 | a close removes all stations of its session, and none of a session that holds a slot if its own slot is still free |
| Slots.PurgeHarmsIff | opencapwap/src/ACMainLoop.c:1160-1181 | over every run between giving back the slot and removing the stations: the close takes no station from a session that holds a slot if and only if none joined in between through a session that took the slot; a station known on a radio of another number does not join |
| Slots.GivenBackReached | opencapwap/src/ACMainLoop.c:1160-1162 | a run after which a session has given back its slot and has yet to remove its stations |
| Slots.PurgeRace | opencapwap/src/ACMainLoop.c:1160-1181 | a run in which a new session has a station, and loses it to the close of the previous one while it is serving |
| SlotStations.PurgeTakes | opencapwap/src/ACMainLoop.c:1170-1181 | a close removes exactly the stations that joined through a session with the same slot number, holding or not; every other stays with its session |
| SlotStations.ServedNext | opencapwap/src/ACRunState.c:906-927 | one step: a station is with a session exactly if it joins through it, or was with it and neither joins again from a radio of the same number nor has its slot number purged |
| SlotStations.ServedIff | opencapwap/src/ACRunState.c:906-927 | after every run a station is in the table with a session if and only if it joined through it, in the run or before, and nothing took it from there since |
| SlotStations.ServedFromStart | opencapwap/src/ACRunState.c:906-927 | the same from the start, where the table is empty |
| SlotStations.GiveBackUndoes | opencapwap/src/ACMainLoop.c:428-507 | giving a reserved slot back undoes taking it |
| SlotStations.NeverStuck | opencapwap/src/ACMainLoop.c:627-1185 | in every state that a run can reach, a session that has not ended can take its next step and comes one stage further |
| SlotStations.InterfacesKept | opencapwap/src/ACMainLoop.c:472-496 | over every run each session keeps the interface it was started for |
| SlotStations.Mischarged | opencapwap/src/ACMainLoop.c:1118-1123 | a run after which an interface that never had a session counts -1 |
| Tunnel.SnapPrefix | opencapwap/src/CWTunnel.c:92-108 | a body is taken for encapsulated exactly if it starts with one of the two SNAP prefixes: the exceptions for two types compare a signed 16-bit value and never apply |
| Tunnel.BridgeRoundTrip | opencapwap/src/CWTunnel.c:59-152 | decapsulating undoes encapsulating for every type of at least 0x600, and for a length field if and only if it is the payload length and the bytes do not start with a SNAP prefix |
| Tunnel.SnapBytes | opencapwap/src/CWTunnel.c:64-78 | the SNAP header in bytes, for the type that a frame carries |
| Tunnel.Convert8023To80211 | opencapwap/src/CWTunnel.c:59-83 | the output buffer holds the header and, for a type of at least 0x600, the bytes aa aa 03 00 00, then f8 exactly for 0x80F3 and 0x8137, else 00, and the frame from its type on; for a smaller value the payload alone |
| Tunnel.Convert80211To8023 | opencapwap/src/CWTunnel.c:86-155 | the output buffer holds the addresses and, if the body starts with one of the two prefixes, what follows it, else the two bytes of its length and the whole body |
| Tunnel.CheckAddressBroadcast | opencapwap/src/CWTunnel.c:157-167 | true exactly for six bytes of 0xff |
| PacketQueue.SafeList.constructor | opencapwap/src/CWSafeList.c:44-65 | a new list is empty |
| PacketQueue.SafeList.AddHead | opencapwap/src/CWSafeList.c:152-175 | puts the packet in front, one step of the queue; links, ends and count stay consistent; a null packet is refused |
| PacketQueue.SafeList.AddTail | opencapwap/src/CWSafeList.c:251-300 | puts the packet, with size and flag, at the end, one step of the queue |
| PacketQueue.SafeList.GetHead | opencapwap/src/CWSafeList.c:178-192 | returns the first packet, if any |
| PacketQueue.SafeList.RemoveHead | opencapwap/src/CWSafeList.c:195-248 | takes the first packet out, if any, one step of the queue, and keeps the rest in order |
| PacketQueue.SafeList.RemoveTail | opencapwap/src/CWSafeList.c:303-327 | takes the last packet out, if any, one step of the queue, and keeps the rest in order |
| PacketQueue.SafeList.Clean | opencapwap/src/CWSafeList.c:330-343 | ends, with every packet deleted once, in order, and the list empty |
| PacketQueue.FirstInFirstOut | opencapwap/src/CWSafeList.c:195-300 | of any queue: adding at the tail and removing from the head is first in, first out |
| PacketQueue.QueueIsFifo | opencapwap/src/CWSafeList.c:195-300 | of the linked list: if packets were only added at the tail and removed from the head, those taken out and those left are those added, in order |
| PacketQueue.NothingLost | opencapwap/src/CWSafeList.c:152-343 | of any queue: under any mix of operations no packet is lost, made up or given out twice |
| PacketQueue.QueueLosesNothing | opencapwap/src/CWSafeList.c:152-343 | of the linked list: whatever was done, the packets taken out and those left are those added |
| TwoPass.CountPass | opencapwap/src/ACRunState.c:1764-1835 | the first pass of any of the three parsers refuses only messages that are not parsable, counts the elements of each counted kind and takes the bodies of the others |
| TwoPass.CountingGoesOn | opencapwap/src/ACRunState.c:1764-1835 | one turn of the first pass: the count of the element's kind, and no other, grows by one |
| TwoPass.FillPass | opencapwap/src/ACRunState.c:1847-1873 | the second pass meets the same boundaries, fills every entry of every array once, in order, and ends with each fill index at its count |
| TwoPass.FillingGoesOn | opencapwap/src/ACRunState.c:1847-1873 | one turn of the second pass: there is another element, and an entry is left for it in the array of its kind |
| TwoPass.Parse | opencapwap/src/ACRunState.c:1733-1876 | both passes: the entries of each counted kind, in order, and the last body of each other kind, if the elements end where they must and are all readable, and a refusal otherwise |
| TwoPass.RequestComesBack | opencapwap/src/ACDataCheckState.c:143-196 | the bytes of readable elements are parsed by each of the parsers at their own length, and all entries and bodies come back |
| TwoPass.MessageComesBack | opencapwap/src/ACDataCheckState.c:109-200 | an assembled message, with its control header, comes back from each of the parsers if its elements take fewer than 2^16 bytes; the test on the message end refuses it otherwise |
| TwoPass.ResultCodeIsLast | opencapwap/src/CWProtocol.c:1113-1120 | the result code of a parsed request is the 32-bit value in the last element that carries one |
| TwoPass.EndsDiffer | opencapwap/src/ACDataCheckState.c:168-169 | on every message: each end test accepts exactly if the elements are readable and end where it wants; if both accept, they give the same request; and they differ exactly if the elements are readable and end at one of the two places only |
| TwoPass.PastTheLength | opencapwap/src/ACDataCheckState.c:168-169 | a message whose last element runs past the stated length to the message end is accepted by the test on the message end alone |
| EventRecords.RecordBack | opencapwap/src/CWProtocol.c:1093-1104 | decoding the bytes of a record gives the record: radio id, state and cause; radio id, queue level and a rate of 16 bits; radio id, failure type and nine counters of 16 bits |
| EventRecords.ReadableIff | opencapwap/src/ACProtocol.c:957-1060 | a parser can read an element if and only if it is the bytes of an item that belongs into its messages |
| EventRecords.ItemsComeBack | opencapwap/src/ACRunState.c:1733-1876 | the bytes of any items, with either end test, say exactly those items: the records kind by kind and in order, and the last body of each other kind |
| EventRecords.MessageSays | opencapwap/src/ACDataCheckState.c:109-200 | the same of a whole message with its control header, below 2^16 bytes of elements |
| EventRecords.AcceptedIff | opencapwap/src/ACRunState.c:1733-1876 | a message is accepted up to its stated length and says something if and only if these bytes are those of items that say it |
| EventRecords.ResultSaid | opencapwap/src/CWProtocol.c:1113-1120 | the result code of a request is that of its last item that gives one |
| EventRecords.ParseChangeStateInRun | opencapwap/src/ACRunState.c:2048-2127 | the loops over a Change State Event Request give what items spell its bytes up to the stated length, and nothing exactly if none do |
| EventRecords.ParseChangeStateInDataCheck | opencapwap/src/ACDataCheckState.c:109-200 | the loops give the items of every message assembled from items below 2^16 bytes, and on any message what the specification with the test on the message end gives |
| EventRecords.ParseWtpEvent | opencapwap/src/ACRunState.c:1733-1876 | the loops over a WTP Event Request give what items spell its bytes, with two arrays and two fill indices, and nothing exactly if none do |

## Left out

- Sockets, DTLS, TAP devices, netlink, logging, configuration files and the operator's application socket: a send is a flag, a packet is a sequence of bytes.
- Threads and mutexes as such: a step is what one thread does while it holds a mutex; soft timer signals arrive only between steps of their own thread, as the program blocks them.
- Slots.Next: interleavings are modelled on values, not on a shared object; a failing allocation of the thread argument, which leaks its slot, is not a step.
- Slots.PurgeHarmsIff: whether a station that joins is known on a radio of the same number is a parameter of the step; which radio it is known on is in `StationTable`.
- Slots.RunKeeps: the reservation step is enabled only when a slot is free; beyond that the program writes past the table (see `GuardPassesWithoutSlot`).
- Memory management: allocation failures, freeing and dangling pointers.
- Bodies of message elements are opaque bytes, except those of the kinds in `EventRecords`.
- ControlMessage.WalkElements: a read beyond the buffer, which the program does not check for, is an outcome of its own and its value is not modelled.
- Session.Deliver: takes a parsed control header of at least eight bytes. An association response on the data channel of a session in the run state assembles and sends a request as a command does, and is covered by that step; other data messages do not touch the modelled fields. The timers for joining and for dead neighbours are left out: where the neighbour timer cannot be restarted after a response (`ACRunState.c:1138-1148`), the response is handled and the close is the next step.
- Session.SentOnce: a handover sends through another slot under no mutex, while a send is one step here; two threads inside `CWACSendFragments` on one array are not modelled.
- Timers.SetCorrect: the clock does not wrap, so the time since the stamp is the true one (fewer than 2^32 ticks pass between operations), and one time is read per operation.
- Timers.Run: events are in the range of the clock: a deadline set lies below 2^32-1, and then the sums compare as the deadlines do.
- Timers.StepSound: handlers do not call back into the queue.
- PacketQueue.SafeList.AddTail: the variant without data flag leaves the flag to chance; here the flag is a parameter.
- StationTree.Find: the display and disposal of the tree are left out.
- TransportHeader.Header: assembling keep-alive headers (`CWProtocol.c:353-462`) is left out; they are parsed.
- Sending.AssemblePackets: the keep-alive branch of `CWAssembleDataMessage` is left out; the fragment id is a parameter, which the program draws from a counter.
- Tunnel.Convert8023To80211: the search for the destination's WTP is left out, and the 802.11 header is a parameter.
- Tunnel.Convert80211To8023: the addresses read from the 802.11 header are parameters.
- WTP side, discovery, 802.11 management frames, beacons and information elements.
