# Realtek Wi-Fi/Bluetooth driver: a verified model

A Dafny model of four parts of the repository and proofs of what they are for. Run
`dafny verify dfyconfig.toml` in this directory to check everything.

**The three-wire UART engine** (`bluetooth/hciattach_rtk.c`; Bluetooth Core Specification
v4.0, Volume 4, Part D, sections 3 to 6 and 8). `Crc`, `Slip` and `Frame` define the packet
format and a reference decoder for one delimited byte string. `Receiver` is the driver's
incremental parser as a machine over bytes, `Stream` what it does on whole streams. `SkBuffs`,
`Hosts` and `Engines` are the driver's own form: a record updated in place, whose receive loop
is proved equal to the machine and whose encoder is proved equal to the format. `Readers`
reads what was written back with the reference decoder. `Downloads` is
the stop-and-wait firmware download on top, told against `Transcripts`, which replays what
the driver writes and hears during initialisation as values. The integrity check is covered
both on and off.

**The bridge** (`core/rtw_br_ext.c`). `Clients` is the plain map from network address to MAC,
age and use count, with its laws over runs; `Nat25` is the hash table of linked entries with
back links and proves that every operation is one on the map. `Pppoe` is the Relay-Session-Id
tag of RFC 2516 (section 4 and Appendix A), put in and taken out in place. `Dhcp` is the
incremental checksum of RFC 1624, section 3.

**Element lists** (`core/rtw_ieee80211.c`; section 9.4.2.1 of IEEE 802.11-2016). `Elements`
is search and removal in a buffer, `P2p` the attributes nested in vendor elements, `Bsses` the
deletion of an attribute from a whole BSS, `Merges` the merging of P2P elements. `Chbw` is the
sharing of one channel by several interfaces.

**The access point** (`core/rtw_ap.c`). `Beacons` is insertion and removal in the beacon's
element list; `Stations` is the bookkeeping of associated stations.

`Octets` and `Slices` hold bytes as numbers and facts about stretches of sequences.

Serial reads are a parameter (the script of what each read will deliver), writes are appended
to a record, jiffies are an integer parameter, and whether memory is left for a new bridge
entry is a parameter. Byte order of the host is a parameter where the code depends on it.

Findings, each with its exact condition and a concrete case among the members below:

- `__nat25_add_pppoe_tag` uses `tag_len` without converting it, so the outgoing frame is well
  formed if and only if the host is big-endian (`Pppoe.InsertRelay`,
  `Pppoe.LittleEndianMalformed`).
- A client's empty Relay-Session-Id tag is not restored on the reply (`Pppoe.RoundTrip`,
  `Pppoe.EmptySidLost`).
- `rtw_p2p_merge_ies` returns a length without the two header bytes, counted in one byte, and
  the invitation handling in `core/rtw_mlme_ext.c` searches with it: an attribute is missed
  exactly when it ends beyond that length, below 256 bytes the last one always
  (`Merges.FoundWhenReached`, `Merges.FoundUnlessLast`, `Merges.OnlyAttributeMissed`,
  `Merges.SplitAttributeMissed`).
- `rtw_sync_chbw` lets a 40 MHz request that brings an offset through on a channel that has no
  second half (`Chbw.WhenPlaced`, `Chbw.WideOnChannel14`).
- Resynchronisation completes every second copy of a reliable packet, and it is on from
  initialisation to the download (`Stream.CopiesCompleted`,
  `Downloads.ThirdCopyAfterStart`).
- A command-complete event of fewer than five bytes, received while initialising, makes the
  driver's buffer length wrap (`Hosts.LengthWraps`, `Hosts.TwoByteCompletion`).
- Setting the DHCP broadcast flag keeps the checksummed total exactly when the other flag bits
  are zero; a request sent without a checksum comes out with one unless all its flags are set,
  and one whose checksum equals the new flag word comes out without (`Dhcp.TotalKept`,
  `Dhcp.ReservedFlagBreaksTotal`, `Dhcp.ChecksumLost`).
- The element search compares on past the end of a short body, so it can take the bytes that
  follow for part of it (`Elements.SearchIsExact`, `Elements.RemovalIsExact`,
  `Elements.HeaderTakenForOui`).
- Adding an empty element to the beacon cannot be undone by removal (`Beacons.AddThenRemove`,
  `Beacons.EmptyElementStays`).
- The beacon's Barker bit follows its counter only as of the last non-ERP edge
  (`Stations.Ap.StaJoin`, `Stations.Ap.StaLeave`, `Stations.BarkerUnannounced`).
- A re-join never clears the two HT handicaps (`Stations.Ap.StaJoin`,
  `Stations.StillNoGreenfield`).

## Model

| member | source | states |
|---|---|---|
| `Crc.RunIsSerial` | bluetooth/hciattach_rtk.c:386-494 | The nibble-table check value equals the bit-serial reflected CCITT CRC, for every start value and message. |
| `Crc.RunAppend` | bluetooth/hciattach_rtk.c:593-601 | The check value of two pieces run one after the other is that of the whole. |
| `Crc.UpdateInjectiveReg` | bluetooth/hciattach_rtk.c:593-601 | For a fixed byte, different registers give different registers. |
| `Crc.RunInjectiveReg` | bluetooth/hciattach_rtk.c:593-601 | The same holds over any common tail of bytes: a difference in the register never heals. |
| `Crc.TwoBytesInjective` | bluetooth/hciattach_rtk.c:593-601 | From one register, two adjacent bytes determine the register after them, so a single byte does too. |
| `Crc.WindowDetected` | bluetooth/hciattach_rtk.c:593-601 | Messages that differ only inside a window of two adjacent bytes have different check values. |
| `Crc.BytesValue` | bluetooth/hciattach_rtk.c:476-494 | Writing a check value as two bytes and reading it back gives the value. |
| `Crc.BitRev16Injective` | bluetooth/hciattach_rtk.c:476-494 | Bit reversal of sixteen bits loses nothing. |
| `Crc.WrongMessageRejected` | bluetooth/hciattach_rtk.c:867-871 | A check computed for one message does not fit another that differs from it in a two-byte window. |
| `Crc.CheckMirrors` | bluetooth/hciattach_rtk.c:476-494 | The check bytes, high one first, are bit by bit the mirror image of the serial register run over the message from all ones, as written and as compared. |
| `Slip.DecodeOfEncode` | bluetooth/hciattach_rtk.c:666-694 | Unescaping what was escaped gives the original bytes back. |
| `Slip.EncodeClean` | bluetooth/hciattach_rtk.c:666-694 | Escaped bytes hold no delimiter and no flow-control character, and are at most twice as many. |
| `Slip.EncodeAppend` | bluetooth/hciattach_rtk.c:666-694 | Escaping is byte by byte: pieces can be escaped separately. |
| `Slip.Stands` | bluetooth/hciattach_rtk.c:712-760 | What escaped bytes stand for: the four pairs and their bytes, nothing from any other pair on, every other byte for itself. |
| `Frame.LenRoundTrip` | bluetooth/hciattach_rtk.c:844-846 | A payload length up to 4095 split over two header bytes, next to a packet type, reads back exactly, and so does the type. |
| `Frame.HeaderFields` | bluetooth/hciattach_rtk.c:828-848 | A header as built carries its checksum and every field: acknowledgement and sequence number, check bit, reliable bit, type, length. |
| `Frame.HeaderAnnounces` | bluetooth/hciattach_rtk.c:828-848 | In the bits of the four bytes: they add up to 0xff; bit 7 marks types 1, 2 and 4, bit 6 the check; the numbers, the type and the twelve-bit length are where the receiver looks for them. |
| `Frame.DecodeBits` | bluetooth/hciattach_rtk.c:1191-1256 | The reference decoder in the bits of its input: refused unless the header adds up to 0xff, out of order by its low three bits, as long as its length says, checked against the mirrored serial register. |
| `Frame.OneByteOff` | bluetooth/hciattach_rtk.c:1192-1196 | Two headers that differ in exactly one of the four bytes do not both add up. |
| `Frame.HeaderDamageRefused` | bluetooth/hciattach_rtk.c:1192-1196 | A packet with one header byte changed is refused, whatever else is in it and whatever is expected. |
| `Frame.TypesSent` | bluetooth/hciattach_rtk.c:800-826 | The types that are sent at all, and those sent reliably. |
| `Frame.DecodeBytes` | bluetooth/hciattach_rtk.c:790-875 | The reference decoder recovers exactly the header and payload of every packet the encoder accepts, with or without the check. |
| `Frame.DecodeWithCheck` | bluetooth/hciattach_rtk.c:1242-1255 | A packet with check bytes is accepted if and only if they fit header and payload. |
| `Frame.DamageRefused` | bluetooth/hciattach_rtk.c:1242-1255 | A checked packet whose payload was changed within two adjacent bytes (so also in exactly one) is never accepted, whatever the receiver expects. |
| `Frame.WireClean` | bluetooth/hciattach_rtk.c:821-875 | What is written holds 0xc0 at its two ends and nowhere else, no 0x11 and no 0x13, and fits the (len+6)*2+2 bytes allocated. |
| `Receiver.BufferFits` | bluetooth/hciattach_rtk.c:1191-1294 | In every reachable state bytes stored plus bytes expected are 4, 4+len or 4+len+2 according to the state, never above 0x1005. |
| `Receiver.Tick` | bluetooth/hciattach_rtk.c:1191-1294 | A step that consumes no byte keeps the state valid and lowers a rank, so the receive loop ends. |
| `Receiver.Eat` | bluetooth/hciattach_rtk.c:707-771 | A step that consumes a byte completes nothing, and a delimiter always leaves the open state. |
| `Receiver.RunAppend` | bluetooth/hciattach_rtk.c:1170-1301 | Receiving in one piece equals receiving in any two pieces: same state, same completed packets. |
| `Receiver.RunCons` | bluetooth/hciattach_rtk.c:1170-1301 | The same, from the front: first byte, then the rest. |
| `Receiver.RunAdds` | bluetooth/hciattach_rtk.c:1120-1160 | Over any input, what has been completed stays and every packet added carries a number to acknowledge it by. |
| `Receiver.Segment` | bluetooth/hciattach_rtk.c:1170-1301 | From any reachable state, a stretch of bytes without a delimiter followed by one is settled as its unescaped bytes. |
| `Receiver.FinishIsDecode` | bluetooth/hciattach_rtk.c:1191-1294 | The incremental parser agrees with the reference decoder on every delimited stretch, well formed or not. |
| `Stream.StreamMeaning` | bluetooth/hciattach_rtk.c:1170-1301 | On every byte stream ending in a delimiter the receiver completes exactly what the decoder finds in the stretches between delimiters, in order. |
| `Stream.DelimiterSynchronises` | bluetooth/hciattach_rtk.c:762-768 | From every reachable state one 0xc0 leaves the receiver waiting for a packet with nothing stored. |
| `Stream.PacketsRecovered` | bluetooth/hciattach_rtk.c:1120-1160 | For every list of packets (any sendable type, payload up to 4095 bytes, check on or off, reliable ones numbered as expected) and every reachable state, receiving their concatenated encodings completes what was pending and then exactly those headers and payloads in order. |
| `Stream.GarbageHarmless` | bluetooth/hciattach_rtk.c:1176-1294 | After any garbage the next well-formed unreliable packet is completed. |
| `Stream.DamageNotDelivered` | bluetooth/hciattach_rtk.c:1242-1255 | A checked packet damaged within two adjacent payload bytes, framed and received in any state, completes nothing of its own. |
| `Stream.ReliableInOrder` | bluetooth/hciattach_rtk.c:1204-1224 | While resynchronisation is off, over any input the reliable packets completed carry consecutive numbers modulo 8 from the one expected at the start. |
| `Stream.RetransmissionCompleted` | bluetooth/hciattach_rtk.c:1204-1224 | The case of three copies: without resynchronisation the later ones complete nothing, with it the third is completed again when the first was the one expected, else the second is. |
| `Stream.CopiesCompleted` | bluetooth/hciattach_rtk.c:1204-1224 | A reliable packet that arrives any number of times in a row, from every reachable state: with resynchronisation exactly every second copy is completed, the first one counting if its number was the one expected, without it that first one alone; each completion carries the packet, after whatever was pending. |
| `Stream.ReliableDecode` | bluetooth/hciattach_rtk.c:1204-1224 | What is made of a reliable packet as sent: the packet when its number is the one expected, otherwise nothing, with its number adopted exactly when resynchronisation is on. |
| `SkBuffs.SkBuff.Put` | bluetooth/hciattach_rtk.c:535-544 | Appends one byte where there is room, and fails without a change where there is none. |
| `SkBuffs.SkBuff.Trim` | bluetooth/hciattach_rtk.c:554-563 | Keeps the first bytes when shortened, and does nothing when asked to lengthen. |
| `SkBuffs.SkBuff.Pull` | bluetooth/hciattach_rtk.c:573-584 | Drops bytes from the front by moving the others down. |
| `Hosts.CannedReplies` | bluetooth/hciattach_rtk.c:949-1110 | The two canned link-control replies are what the encoder produces for their payloads. |
| `Hosts.ReceiveAllAppend` | bluetooth/hciattach_rtk.c:1034-1110 | Packets handed up in two batches are handled as in one. |
| `Hosts.AllCounted` | bluetooth/hciattach_rtk.c:1012-1026 | Over any packets the counter goes up by the number of completions counted (known opcodes, while initialising), in sixteen bits, and the link state is a function of the packets alone. |
| `Hosts.AllAnswered` | bluetooth/hciattach_rtk.c:1034-1110 | Over any packets, what is written reads back as exactly the answers the driver's states call for, in order: the two link-control replies, one acknowledgement, three, or nothing. |
| `Hosts.AllSeen` | bluetooth/hciattach_rtk.c:945-1026 | Over any packets, version, ROM version and chip type are seen exactly when a completion with their opcode has come while initialising, and the acknowledged index is that of the last acknowledgement in patch state. |
| `Hosts.IndexFromAcknowledgement` | bluetooth/hciattach_rtk.c:1084-1100 | The acknowledged index changes only by a command-complete event received in patch state that carries it. |
| `Hosts.LengthWraps` | bluetooth/hciattach_rtk.c:940-955 | While initialising, a command-complete event leaves skb_pull with a wrapped length if and only if it is shorter than five bytes; the model answers such an event and changes nothing else. |
| `Hosts.TwoByteCompletion` | bluetooth/hciattach_rtk.c:940-955 | A concrete event of two bytes whose length wraps. |
| `Readers.ReadWire` | bluetooth/hciattach_rtk.c:790-875 | Whatever is sent reads back, type, numbers and payload, from the bytes written. |
| `Readers.NoCommand` | bluetooth/hciattach_rtk.c:790-875 | A packet of another type never reads back as a command. |
| `Transcripts.ReplayIssues` | bluetooth/hciattach_rtk.c:1477-1528 | A replay writes exactly its commands, under their numbers and in order, among acknowledgements and replies. |
| `Engines.Engine.SlipOneByte` | bluetooth/hciattach_rtk.c:666-694 | Appends the escaped form of a byte. |
| `Engines.Engine.SlipBytes` | bluetooth/hciattach_rtk.c:854-866 | Appends the escaped form of a string of bytes and runs the check value over the unescaped ones. |
| `Engines.Engine.PreparePkt` | bluetooth/hciattach_rtk.c:790-875 | Refuses unknown types; otherwise writes exactly the framed encoding, whose header adds up and announces type, numbers and length in its bits and which reads back as given, and takes the next sequence number for reliable types only. |
| `Engines.Engine.HciEventCmdComplete` | bluetooth/hciattach_rtk.c:940-1026 | Reads the opcode behind the event header, records what it answers and counts it. |
| `Engines.Engine.HciRecvFrame` | bluetooth/hciattach_rtk.c:1034-1110 | The link-establishment and download reactions, state by state; what they write and set over any packets is `Hosts.AllAnswered` and `Hosts.AllSeen`. |
| `Engines.Engine.CompleteRxPkt` | bluetooth/hciattach_rtk.c:1120-1160 | A finished packet is appended to the completed ones, its number adopted if it is reliable, its payload handed up if its type calls for it. |
| `Engines.Engine.Store` | bluetooth/hciattach_rtk.c:707-771 | A decoded byte is stored (the buffer never overflows) and enters the check value unless it belongs to the check. |
| `Engines.Engine.UnslipOneByte` | bluetooth/hciattach_rtk.c:707-771 | One wire byte refines the consuming step of the receiving machine. |
| `Engines.Engine.HeaderDone` | bluetooth/hciattach_rtk.c:1192-1230 | Refines the machine's silent step. In the bits of the header: taken exactly when the four bytes add up to 0xff and the low three of the first are the expected number or bit 7 is clear; a foreign number is adopted exactly under resynchronisation; the payload length is counted from the upper twelve bits. |
| `Engines.Engine.PayloadDone` | bluetooth/hciattach_rtk.c:1231-1241 | With the payload in, the check is awaited or the packet completed. |
| `Engines.Engine.CheckDone` | bluetooth/hciattach_rtk.c:1242-1256 | The check is compared over exactly header and payload, cut off, and the packet completed or dropped. |
| `Engines.Engine.Turn` | bluetooth/hciattach_rtk.c:1176-1296 | One turn of the receive loop: which byte is consumed and what the state becomes. |
| `Engines.Engine.Recv` | bluetooth/hciattach_rtk.c:1170-1301 | The receive loop terminates and equals the fold of the machine over the input; every packet it completes has been handed up, in order, and what was written meanwhile reads back as exactly the answers to them. |
| `Downloads.PlanIsSound` | bluetooth/hciattach_rtk.c:2187-2256 | For every image of 1 to 40960 bytes the data fields concatenate to exactly the image, each of 252 bytes but the last; padding packets are empty and fewer than eight, exactly the last packet has bit 7 set, numbers count to 127 and on from 1, neighbours differ, and packets plus counted commands fill groups of eight. |
| `Downloads.ResyncOnlyAtTheEnd` | bluetooth/hciattach_rtk.c:1219-1222 | The index equals the total exactly while the last packet is outstanding, and never when the total is above 127. |
| `Downloads.ReceivedInTurn` | bluetooth/hciattach_rtk.c:1204-1224 | During a download of any image the reliable packets completed carry consecutive numbers from the one expected at its start, until the last packet goes out, and to the end when the total is above 127. |
| `Downloads.HciDownloadPatch` | bluetooth/hciattach_rtk.c:1477-1528 | Writes one packet, which reads back as a download command with the number and the field, under the next sequence number, then reads just what it consumes of the script; the packets those reads complete are handed up to the layer above as it was with the packet written. Succeeds exactly when the last acknowledged index is its own, which is then by a patch-state event received after it was sent, unless that index was the one acknowledged last; fails only when reading fails. |
| `Downloads.SendAll` | bluetooth/hciattach_rtk.c:2204-2256 | The download loop writes a prefix of the plan in order, each packet only after the one before it was acknowledged in patch state. Replaying those packets and the reads of each gives the receiver, everything written, and the link state the driver ends with; those reads and the rest make up the script, and none goes beyond the acknowledgement. It stops short only when reading fails with the last packet unacknowledged. |
| `Downloads.DownloadFwConfig` | bluetooth/hciattach_rtk.c:2164-2264 | The commands written, read back, are download commands in sequence whose fields are the beginning of the image, and on success the whole image, stop-and-wait, numbered from the sequence number it started with; everything written and heard is the replay of those packets from the state before, one acknowledgement after them on success, and until the last packet goes out the reliable packets completed come in order. |
| `Downloads.RunCommand` | bluetooth/hciattach_rtk.c:2519-2610 | A command is written under one sequence number and read for until it is answered, never further, or reading fails, which the result tells apart; the receiver and everything written afterwards are those of that one exchange, and every completion received is counted. |
| `Downloads.AdvanceIsMod` | bluetooth/hciattach_rtk.c:833-838 | After n reliable packets the transmit number is n modulo 8. |
| `Downloads.Restored` | bluetooth/hciattach_rtk.c:2187-2194 | Commands and download together return the number to zero exactly when the completions counted and the commands sent agree modulo 8. |
| `Downloads.Configure` | bluetooth/hciattach_rtk.c:2865-2990 | A whole initialisation: the commands written, read back, are those of the opening numbered from zero and then the image. Everything written and heard is the replay of the commands in order, each read for just until its answer unless reading fails, the change to patch state, and the download packets, whose reads make up the script. What is sent is the plan for the completions counted at the end of the commands' replay, stop-and-wait, numbered on from the commands, all of it on success; the transmit number then ends at zero if and only if the completions received during the commands and the number of commands agree modulo 8, so in particular when each command had one. |
| `Downloads.IssuedOnce` | bluetooth/hciattach_rtk.c:2519-2610 | There is only one way to issue the commands on a given script: it decides which reads each command gets, and so where the completions are counted. |
| `Downloads.AnswerHasOpcode` | bluetooth/hciattach_rtk.c:945-1026 | While initialising, a command not yet answered is answered by exactly the completion that carries its opcode. |
| `Downloads.FreshAnswer` | bluetooth/hciattach_rtk.c:2519-2610 | The two version commands are answered exactly by a completion that comes after them; the chip type also by one that came before. |
| `Downloads.ThirdCopyAfterStart` | bluetooth/hciattach_rtk.c:1219-1222 | Straight after initialisation, index and total both zero, two of three copies of one event are completed. |
| `Clients.KeptWhileInCredit` | core/rtw_br_ext.c:418-518 | Over any run of inserts, look-ups, refreshes, expiry passes and clean-ups, an address stays known exactly while its uses, plus one for each look-up while fresh, minus one for each pass while old, do not run out; that is the count it ends with, and its MAC is that of its last insert. |
| `Clients.AccountTells` | core/rtw_br_ext.c:418-722 | Over any run, for every address, known before or not: MAC, age and uses are what an account kept for that address alone says, opened by an insert with one use and closed by its last pass. |
| `Clients.MacOfLastInsert` | core/rtw_br_ext.c:483-518 | Whether or not it has been forgotten in between, a known address has the MAC of its last insert, or the one it had if there was none. |
| `Clients.OthersUntouched` | core/rtw_br_ext.c:418-518 | An insert, look-up or refresh of one address leaves every other as it was. |
| `Clients.GoesAfterItsUses` | core/rtw_br_ext.c:641-720 | An old address left alone disappears with exactly as many expiry passes as it has uses. |
| `Clients.FreshSurvives` | core/rtw_br_ext.c:641-720 | Expiry passes leave a fresh address as it was. |
| `Nat25.NetworkHash` | core/rtw_br_ext.c:324-373 | The chain of an address, always one of sixteen. |
| `Nat25.Ipv4Hash` | core/rtw_br_ext.c:162-170 | An IPv4 address is kept whole in its key, and the xor of its four bytes decides the chain. |
| `Nat25.Link` | core/rtw_br_ext.c:376-392 | Pushing an entry on a chain keeps every next and back link exact and touches no other chain. |
| `Nat25.Unlink` | core/rtw_br_ext.c:395-410 | Removing an entry through its back link keeps every link of the remaining chain exact and touches no other chain. |
| `Nat25.Search` | core/rtw_br_ext.c:418-480 | Walking a chain finds the entry with an address, or none has it. |
| `Nat25.Bridge.constructor` | include/drv_types.h:1511-1516 | An empty table satisfies the invariant. |
| `Nat25.Bridge.Insert` | core/rtw_br_ext.c:483-518 | Refines insertion in the map: a known address is refreshed, takes the new MAC and keeps its uses, a new one starts with one; without memory only known ones are refreshed. |
| `Nat25.Bridge.LookupAndReplace` | core/rtw_br_ext.c:413-480 | Agrees with the map: found exactly when known; the destination MAC is replaced and a use added exactly when it is fresh too. |
| `Nat25.Bridge.ExpireStep` | core/rtw_br_ext.c:653-715 | One entry of an expiry pass, with the walk still in place after the entry has gone. |
| `Nat25.Bridge.Expire` | core/rtw_br_ext.c:641-722 | The pass over all chains refines expiry in the map: entries refreshed within 300 seconds stay as they are, older ones lose a use or go with their last; the remembered source is kept, or forgotten because its entry went. |
| `Nat25.Bridge.Cleanup` | core/rtw_br_ext.c:611-638 | Leaves an empty table and no remembered source. |
| `Nat25.Bridge.Transmit` | core/rtw_xmit.c:4013-4034 | With a new source MAC the remembered source becomes the table's entry for the packet's IPv4 source, or none; with the same MAC it is kept and its entry is refreshed, whatever the packet's IPv4 source. The packet still needs rewriting exactly when there is none. |
| `Nat25.Bridge.Find` | core/rtw_br_ext.c:1555-1578 | The entry of an address, or null exactly when the table has none. |
| `Pppoe.RoundTrip` | core/rtw_br_ext.c:1128-1238 | If the concentrator returns the relay tag unchanged, the reply reaches the client that asked with every other tag in order, and the client's own relay tag is restored if and only if it had none or a non-empty one. |
| `Pppoe.TagLayout` | core/rtw_br_ext.c:84-100 | A tag on the wire: type, length, value, high byte first. |
| `Pppoe.Frame.FindTag` | core/rtw_br_ext.c:84-100 | Finds the first tag of a type, on every well-formed tag list. |
| `Pppoe.Frame.PullAndMerge` | core/rtw_br_ext.c:122-140 | Cuts a stretch out of the frame, or refuses when it reaches past the end. |
| `Pppoe.AddTag` | core/rtw_br_ext.c:103-120 | Moves the tags up and writes as many bytes as the tag's length field says when read in the host's own byte order; fails without a change when there is no room. |
| `Pppoe.TakeOldSid` | core/rtw_br_ext.c:1137-1155 | Takes the client's own relay tag out, all other tags kept in order and the length field exact; refuses one that does not fit the buffer, unchanged. |
| `Pppoe.InsertRelay` | core/rtw_br_ext.c:1128-1180 | Accepted exactly when the frame has room for the tag with its length field read unconverted (over two kilobytes on a little-endian host), and then longer by exactly that much than with the client's own tag taken out. What goes out holds the relay tag and the other tags, with an exact length field, if and only if the host is big-endian; then it has, behind the PPPoE header, type 0x0110, the length, 81 86, the sender's MAC and the client's own identifier, and is longer by just what its tags have grown. |
| `Pppoe.FindRelay` | core/rtw_br_ext.c:1198-1220 | The relay tag of a reply is taken exactly when it has eight bytes or more and starts with 81 86; the MAC is the six bytes behind. |
| `Pppoe.RestoreReply` | core/rtw_br_ext.c:1198-1238 | Accepted exactly when the first relay tag starts with 81 86 and has room for a MAC; then the destination becomes that MAC, magic and MAC leave the tag or the tag leaves, the length field is exact and the frame shorter by just what its tags have shrunk. Otherwise nothing changes. |
| `Pppoe.ThereAndBack` | core/rtw_br_ext.c:1128-1238 | Over two frames: whatever reply carries the relay tag of an outgoing packet goes to that packet's sender, with every other tag in place and the sender's own identifier if it is not empty; each frame's length changes with its tags. |
| `Pppoe.LittleEndianMalformed` | core/rtw_br_ext.c:103-120 | A packet without tags and with room to spare that a little-endian host sends out without its relay tag in place. |
| `Pppoe.EmptySidLost` | core/rtw_br_ext.c:1222-1236 | An empty relay tag that does not come back. |
| `Dhcp.Fold` | core/rtw_br_ext.c:1541-1542 | The carry-folding loop ends, below 0x10000, with the sum unchanged modulo 65535. |
| `Dhcp.NewCheck` | core/rtw_br_ext.c:1537-1543 | The new checksum balances the old one and the new flags modulo 65535. |
| `Dhcp.FlagBcast` | core/rtw_br_ext.c:1515-1550 | Only a DHCP request without the broadcast bit is changed, and only in that bit and the two checksum bytes, behind an IP header of whatever length its first byte says. |
| `Dhcp.Recognized` | core/rtw_br_ext.c:1515-1534 | Any IPv4 datagram with a header of 20 to 60 bytes that carries UDP from port 68 to port 67 is a request exactly when the magic cookie stands behind the fixed 236 bytes. |
| `Dhcp.TotalKept` | core/rtw_br_ext.c:1533-1545 | For a packet of any length, on either byte order, the one's-complement total modulo 65535 is unchanged if and only if the flags were zero before. A packet sent without a checksum gets one unless all its flags are set; one sent with a checksum loses it (the field becomes zero) if and only if it equals the new flag word. |
| `Dhcp.ReservedFlagBreaksTotal` | core/rtw_br_ext.c:1533-1545 | A concrete request with a reserved flag set, whose total changes. |
| `Dhcp.ChecksumLost` | core/rtw_br_ext.c:1533-1545 | A concrete request, no flag set and its checksum 0x8000, that goes out with checksum zero. |
| `Elements.EncodeInjective` | core/rtw_ieee80211.c:304-338 | The bytes of an element list determine the list. |
| `Elements.Layout` | core/rtw_ieee80211.c:304-338 | An element on the wire: identifier, length, body. |
| `Elements.WithoutOne` | core/rtw_ieee80211.c:350-381 | The filter on a single element; on lists it works element by element. |
| `Elements.GetIeEx` | core/rtw_ieee80211.c:304-338 | Finds the first element with the identifier for which the bytes from its body on, wherever its body ends, are those looked for; any well-formed list with bytes enough to compare. |
| `Elements.RemoveIe` | core/rtw_ieee80211.c:350-381 | Removes from the front every element behind the offset that such a search hits, in one pass in place, with what the removal itself leaves behind the list; survivors in order, bytes before the offset and behind the old end untouched; success exactly when something was removed. |
| `Elements.HitIs` | core/rtw_ieee80211.c:319-320 | An element is hit exactly when its own body starts with the bytes looked for, or its body is a proper beginning of them and what follows it goes on with the rest. |
| `Elements.SearchIsExact` | core/rtw_ieee80211.c:304-338 | The search finds the first element whose own body matches if and only if no element before it has a body of the second kind. |
| `Elements.RemovalIsExact` | core/rtw_ieee80211.c:350-381 | Removal is of exactly the elements whose own body matches if and only if none of the second kind is come across on the way. |
| `Elements.RemovalInList` | core/rtw_ieee80211.c:350-381 | The same on the list alone, wherever no comparison reaches its end: if and only if it has no element of the second kind. |
| `Elements.HeaderTakenForOui` | core/rtw_ieee80211.c:319-320 | A concrete list in which a one-byte vendor element and the next element's header are taken for a four-byte identifier, found and removed. |
| `P2p.GetP2pIe` | core/rtw_ieee80211.c:1838-1877 | Finds the first vendor element for which the four bytes from its body on, within the list, are the P2P ones; its guards keep the comparison inside the list. |
| `P2p.AttrLayout` | core/rtw_ieee80211.c:1912-1916 | An attribute on the wire: identifier, length with the low byte first, data. |
| `P2p.GetP2pAttr` | core/rtw_ieee80211.c:1889-1938 | Finds the first attribute with an identifier among those that lie wholly within the length given. |
| `P2p.DelP2pAttr` | core/rtw_ieee80211.c:2031-2071 | Deletes every occurrence of an attribute from one element, the length byte equal to the content, the freed bytes cleared, nothing outside touched. |
| `P2p.WithoutAttrIs` | core/rtw_ieee80211.c:2031-2071 | Deletion works attribute by attribute: every one with the identifier goes, every other stays in its place. |
| `P2p.DeletedEverywhere` | core/rtw_ieee80211.c:2090-2146 | Over a list, every P2P element loses the attribute and every other element stays as it is. |
| `Bsses.Bss.DelP2pAttr` | core/rtw_ieee80211.c:2090-2146 | Deletes the attribute from every P2P element of the list; all other elements and their order stay, every length byte and IELength equal the bytes present, freed bytes are cleared, and the loop ends. |
| `Merges.MergedLen` | core/rtw_ieee80211.c:1744-1764 | The room needed is what the P2P elements of the frame hold behind their OUI and four more bytes. |
| `Merges.MergeIes` | core/rtw_ieee80211.c:1773-1805 | The merged element holds, in order, what all P2P elements of the frame hold behind their OUI, wherever attributes are cut between them; its length byte stays zero and the length returned is counted modulo 256. |
| `Merges.SearchMerged` | core/rtw_mlme_ext.c:6651-6662 | A search with the length the merge returned finds the first attribute of a kind among those that length reaches, attributes that came in pieces included. |
| `Merges.WholeAttributes` | core/rtw_ieee80211.c:1773-1805 | Where every element holds whole attributes, the frame can be merged and the result is those attributes in order. |
| `Merges.FoundWhenReached` | core/rtw_mlme_ext.c:6651-6662 | For every merged element the search agrees with one over all attributes if and only if there is nothing to find or the attribute ends within the length the merge returned. |
| `Merges.FoundUnlessLast` | core/rtw_mlme_ext.c:6651-6662 | Below 256 bytes that length reaches every attribute but the last. |
| `Merges.OnlyAttributeMissed` | core/rtw_mlme_ext.c:6651-6662 | A frame with a single P2P attribute, which is never found. |
| `Merges.SplitAttributeMissed` | core/rtw_mlme_ext.c:6651-6662 | A frame with a single attribute of 249 to 499 data bytes, in two P2P elements: the merge puts it together, and it is never found. |
| `Chbw.IsGrouped` | core/rtw_ieee80211.c:1658-1677 | Two settings can share the radio: same channel, and the same offset if both are wide. |
| `Chbw.Channel.OffsetByChbw` | core/rtw_wlan_util.c:438-507 | Valid exactly when the channel has a second half to pair with; keeps an offset that fits, else takes the upper half where that fits, else the lower. |
| `Chbw.SyncChbw` | core/rtw_ieee80211.c:1688-1736 | The request takes the group's channel and an offset, and the group widens to it. |
| `Chbw.AllGrouped` | core/rtw_ieee80211.c:1688-1736 | From a consistent group, after any sequence of 20/40/80 MHz requests every setting is grouped with the group and with every other setting, none is wider than the group, and the group has not narrowed nor changed channel. |
| `Chbw.WhenPlaced` | core/rtw_ieee80211.c:1694-1723 | A wide setting has an existing second half, except exactly when a request brings its own offset to a channel without pairs while the group is at 20 MHz. |
| `Chbw.FittedIs` | core/rtw_ieee80211.c:1688-1723 | What a request becomes in so many words: the group's channel, the width asked for (80 MHz cut to 40 up to channel 14) unless no half is to be had, the group's half if the group is wide, its own if it fits, else the upper one. |
| `Chbw.WidenedIs` | core/rtw_ieee80211.c:1725-1736 | The group takes over the setting exactly when that is wider. |
| `Chbw.HalvesPair` | core/rtw_wlan_util.c:438-507 | A channel is the lower half of a pair exactly when the one four above is the upper half. |
| `Chbw.HalfChosen` | core/rtw_wlan_util.c:438-507 | A half that fits is kept, else the upper one is taken where it exists; on 2.4 GHz the lower one only up to channel 4. |
| `Chbw.PlacedRuns` | core/rtw_ieee80211.c:1688-1736 | On a channel with pairs every wide setting of a run has an existing second half. |
| `Chbw.WideOnChannel14` | core/rtw_ieee80211.c:1710-1723 | A concrete request that ends up 40 MHz wide on channel 14. |
| `Beacons.AddIsExact` | core/rtw_ap.c:162-221 | On a sorted list insertion keeps the order, every other element, and exactly the new contents for the identifier; without a non-empty matching or preceding element nothing happens. |
| `Beacons.AnchoredIs` | core/rtw_ap.c:169-184 | A present element anchors an insertion exactly when it is not empty, and in its absence the one before the place does. |
| `Beacons.RemoveIsExact` | core/rtw_ap.c:223-263 | Removal takes the first element with the identifier unless that is empty, and no other. |
| `Beacons.AddThenRemove` | core/rtw_ap.c:162-263 | Adding an absent element and removing it restores the list if and only if the element is not empty or was never added. |
| `Beacons.EmptyElementStays` | core/rtw_ap.c:162-263 | An empty element that is added and cannot be removed. |
| `Beacons.AddBcnIe` | core/rtw_ap.c:162-221 | The buffer after insertion holds exactly the encoded list with the element added, its length field in step, the fixed fields untouched. |
| `Beacons.ScanForId` | core/rtw_ap.c:169-184 | Where the insertion is anchored: the matching element or the last with a smaller identifier. |
| `Beacons.GetIe` | core/rtw_ieee80211.c:262-288 | Finds the first element with an identifier and its body length. |
| `Beacons.RemoveBcnIe` | core/rtw_ap.c:223-263 | The buffer after removal holds exactly the encoded list without the first match, or unchanged if that is empty. |
| `Stations.FlagMoved` | core/rtw_ap.c:3161-3185 | Setting or clearing one station's flag moves the number of stations with that flag by one and no other number. |
| `Stations.Counters.Mark` | core/rtw_ap.c:3161-3185 | Flag and counter move together, and only when the flag changes. |
| `Stations.Ap.UpdateBcnErpInfo` | core/rtw_ap.c:2636-2668 | The protection bits are set exactly when the counter equals one at that moment, the Barker bit exactly when its counter is positive; no other bit changes, and none on a BSS not started or without ERP. |
| `Stations.Ap.MarkRates` | core/rtw_ap.c:3161-3225 | After the preamble and non-ERP flags the Barker bit is its counter's test if this was a non-ERP edge, else what it was. |
| `Stations.Ap.MarkNonErp` | core/rtw_ap.c:3187-3212 | Because only the first station to come and the last to go reach the updater, the protection bits are set exactly when some non-ERP station is associated. |
| `Stations.Ap.HtOperationUpdate` | core/rtw_ap.c:3030-3114 | The HT operation mode is 3 if some station has no HT, else 2 if the access point is wide and some station is not, else 1 if a legacy access point is heard, else 0; the other two bits agree with the counters, the rest of the mode and a mode without HT are left alone, and a change is reported exactly when there is one. |
| `Stations.Ap.constructor` | core/rtw_ap.c:3666-3706 | A started access point with all counters at zero satisfies the invariant, which also says that the Barker bit is at all times its counter's test as of the last non-ERP edge. |
| `Stations.Ap.StaJoin` | core/rtw_ap.c:3146-3318 | A join or re-join keeps every counter equal to the number of stations with the flag and the protection bits right. The station is counted under exactly the handicaps it presents, and the two of HT it had; so under exactly what it presents if and only if no HT flag it held before is one it has lost. The Barker bit is right afterwards if and only if, by the state before, the call is a non-ERP edge or it moves the bit's rightness as it moves its counter onto or off zero. |
| `Stations.Ap.StaLeave` | core/rtw_ap.c:3320-3395 | A leave gives every flag back, with the same invariant and the same condition for the Barker bit. |
| `Stations.BarkerUnannounced` | core/rtw_ap.c:3161-3174 | A reachable cell in which a station without short preamble is counted and the beacon's Barker bit is clear. |
| `Stations.StillNoGreenfield` | core/rtw_ap.c:3269-3277 | A station that comes back with greenfield and is still counted as without. |

## Left out

Three-wire UART engine:

- File descriptors, termios, signals, alarms and resending on alarm, sleeps, the retries of link synchronisation and configuration, and loading of firmware and configuration files.
- The H4 download path and the tables of baud rates and patch entries.
- `is_txack_req`, `rxack`, `h5_remove_acked_pkt` and `host_last_cmd`: set but without effect on what is modelled. Versions, ROM version and chip type read from command-complete events are only marked as seen.
- `byte_rev_table` is modelled as the bit reversal it tabulates, not as 256 numbers.
- Engines.Engine.HciEventCmdComplete: on a command-complete event shorter than five bytes, whose length wraps in the driver (`Hosts.LengthWraps`), the model changes nothing.
- When an out-of-order packet is dropped the driver reads its header after freeing it; the model uses the value before the free.
- After the last data packet the download loop can advance a null pointer it never follows; the model's position is a number.
- Allocation succeeds in this part.
- Downloads.RunCommand: does not model the resend on timeout.

Bridge:

- Locking, jiffies wrap-around (time is an integer) and the IPX, AppleTalk and IPv6 arms of `nat25_db_handle`; addresses of those types are hashed all the same.
- The `addPPPoETag` switched off path and the PPPoE session arm, apart from the table operations they call.
- Pppoe.InsertRelay: takes at most 1494 bytes of tags, what an Ethernet frame carries, so that the 16-bit length field does not wrap; tag lists cut short by the length field are not modelled.
- Nat25.Bridge.Transmit: the part of `rtw_br_client_tx` that learns and refreshes the remembered source; VLAN and bridge-address handling is not modelled.
- Nat25.Bridge.Insert: the use count is unbounded, and freed entries are simply no longer in the table.
- Dhcp.FlagBcast: reading fields beyond a truncated datagram is excluded by `Readable`.

Element lists:

- Malformed lists (an element or attribute that runs past its buffer), which the driver's loops do not guard against.
- Elements.GetIeEx: the bytes to compare with must lie in the buffer; the driver leaves that to its callers.
- Elements.RemoveIe: the same.
- Bsses.Bss.DelP2pAttr: vendor elements other than P2P ones have at least four bytes, so that none is mistaken for a P2P element, and P2P elements hold whole attributes.
- Merges.MergeIes: no vendor element whose body is shorter than the OUI is taken for a P2P element (the length to copy would be negative), and no comparison leaves the frame body.
- P2p.GetP2pAttr: attributes have fewer than 65533 data bytes; from there on the driver's 16-bit length of data and header wraps to 0, 1 or 2.
- `rtw_set_ie`, `rtw_ieee802_11_parse_elems`, `rtw_del_p2p_ie`, the WFD twins of the P2P functions, rate tables and dump functions.
- P2p.DelP2pAttr: the copy-out arguments of the search functions are not modelled.
- Chbw.SyncChbw: warnings for unsupported widths are not modelled, the values left behind are.

Access point:

- Beacons.AddBcnIe: requires that the resulting list fits the element buffer; the driver leaves that to its callers.
- Allocation of the backup of the remainder succeeds.
- The ERP element is one byte, taken to exist; the beacon bits are written at the two edges at which the driver calls the updater, and hardware registers, TIM, WMM and WPS elements are not modelled.
- Stations.Ap.StaJoin: the six flag and counter pairs are indexed by kind; the value telling the caller that the beacon changed, and the updates sent to associated stations, are not modelled.
- `olbc_ht` is set and cleared by whoever hears legacy access points or ages them out (`Stations.Ap.SetOlbcHt`); the two-second check that does so and works the mode out again is not modelled.
- `rtw_ap_check_scan`, which resets one counter without its flags, is not an operation of the model.
