# Verified models of the Ethernet utilities

This project models the computational kernels of the Ethernet utility library in Dafny and proves
what they guarantee:

- the Internet checksum engine: the word-summing loop, the incremental adjuster, the UDP/IP frame
  builders and the address rewriter (`OnesComplement`, `Frames`, `FrameLaws`, `FrameOctets`,
  `EthernetUtilities`);
- the ARP cache and the controller around it (`ArpTable`, `ArpController`);
- the DHCP server: address pool, option codec, lease table, receive procedure (`DhcpPool`,
  `DhcpOptions`, `DhcpLeases`, `DhcpMessages`, `DhcpServer`);
- the TCP server channel: segmentation, drain loop, closing state machine and the array of tracked
  connections (`TcpChannel`, `TcpStream`, `TcpConnectionTable`, `TcpServerChannel`);
- the DNS question parser and its answers (`DnsQuestion`, `DnsServer`);
- the frame ring buffer (`EthernetQueue`).

Code that works in place is a class or a method over arrays here, proved equal to a specification
function of the old state. The laws are proved about those functions, over all inputs and, for the
stateful parts, over all runs. `Bytes` holds octets, 16-bit words and `memcpy`, and `Sequences`
holds sequences with elements left out. Integer widths are explicit: `U16`, `U32` and `U8` truncate
where the source stores into a narrower variable. The outcome of an allocation, the state of the TCP
send buffer and the result of a TCP write are parameters that may take any value at any moment.

`dafny verify dfyconfig.toml` checks the whole project.

## Where the code departs from its evident intent

The models keep the code as it is. Each departure comes with the exact condition under which it
matters.

- `changeIp` copies the new addresses before it adjusts the IP header checksum. The field keeps its
  value (0xffff becomes 0), so a valid header stays valid exactly when the new addresses have the
  same word sum as the old ones modulo 65535 (`ChangedIpHeaderVerdict`; `ShippedOrderBreaksHeader`
  names an input). In the other order the rewritten frame is the one that would have been built for
  the new addresses (`RewriteIsRebuild`).
- `changeIp` adjusts a UDP checksum field that is zero, although zero says that no checksum is in
  use. The field stays zero exactly when the addresses' word sums agree modulo 65535
  (`ChangedIpAndUnusedChecksum`; `UnusedChecksumComesIntoUse` names an input).
- The ARP aging loop skips the record that slides into a deleted slot: in a row of records at the
  age limit every second one, which can be read off the table before the pass (`Skipped`,
  `TickExactly`). Expiry is late by at most the record's index (`RecordExpires`). An insertion into
  the last slot forgets the whole table, which is the only way in which a record within the limit
  is lost (`SurvivesIffNeverFills`).
- A DHCP client that sends a REQUEST or an INFORM for an address has a lease afterwards exactly when
  the address is in the pool, vacant or its own, and there is memory for the reply; otherwise it
  loses the lease it had (`HasLeaseIff`). Asking for an address outside the pool is such an input
  (`AskingElsewhereLosesLease`), and so is repeating an acknowledged request when the reply buffer
  cannot be allocated (`RepeatedRequest`).
- A DHCP pool whose range runs past the octet 255 wraps. It hands out the server's own address
  exactly when the range wraps as far as to it, that is when start plus count exceeds the server's
  octet plus 256 (`PoolHandsOutOwnAddressIff`; `OverrunHandsOutOwnAddress` names an input). It is a
  table of distinct vacant addresses all the same (`PoolIsFresh`).
- Removing a TCP connection from a full array keeps a stale last slot, and removing an unknown one
  lowers the counter. The array is the list of tracked connections at every moment of a run exactly
  when every removal in it is harmless: of a tracked connection, and out of a full array only from
  its last slot, or of any connection while nothing is counted (`Harmless`, `RunTracksIff`). Below
  capacity all removals are (`RunTracks`). What a harmful one leads to depends on the array:
  - A connection but the last that leaves a full array makes the array stale for good: no handle
    that is not in it is ever tracked again (`FullRemoval`, `StaleForever`).
  - An unknown connection that is removed untracks the one accepted last
    (`UnknownRemovalForgetsLast`).
  - An accepted connection is tracked exactly when the next slot is empty or holds the same handle
    (`AcceptTracksIff`).
  - An accept makes a connection be counted twice, so that a broadcast is sent to it twice, exactly
    when the next slot still holds one that is counted (`AcceptCountsTwiceIff`,
    `BroadcastReachesLastTwice`).
  - The array counts a released connection at some moment of a run exactly when some event exposes
    one: an accept while the next slot still holds a released connection, or the removal of one
    that is counted twice (`Exposes`, `StepExposesIff`, `RunExposesIff`). Then and only then is
    there a call of the application that reads released memory (`SlotsExistIffCallsSafe`).
    `ReleasedStaysTracked` and `UncountedStaysTracked` are two ways to it, through a stale array
    and without one; `FiveEventsSuffice` and `SevenEventsSuffice` are runs of a new channel.
- A DNS reply copies the query's counts of authority and additional records and carries none of
  those records. Its counts are right exactly when the query's are zero (`CountsAreRightIff`;
  `EdnsReplyLacksRecord` names an input).
- A push into a full frame queue empties it. The queue is first-in first-out over a run exactly
  when no push finds it full (`FifoIffNeverFull`).

## Model

| member | source | states |
|---|---|---|
| OnesComplement.CanonIsOnesSum | src/ethutilities/EthernetUtilities.cpp:322-337 | Summing all words first and reducing once gives the word-by-word ones' complement sum of RFC 1071, for every start value and every length, odd ones included |
| OnesComplement.SumWordsIsWeighted | src/ethutilities/EthernetUtilities.cpp:325-331 | The words are big-endian: octets weigh 256 and 1 in turn, and an odd last octet 256 |
| Bytes.TruncationIsRemainder | src/ethutilities/EthernetUtilities.cpp:333-336 | Storing into a 16-bit or 32-bit variable keeps the remainder |
| OnesComplement.TwoFoldsSuffice | src/ethutilities/EthernetUtilities.cpp:334-336 | Two folds bring every 32-bit accumulator to its 16-bit residue, with zero only for zero |
| OnesComplement.Chaining | src/ethutilities/EthernetUtilities.cpp:221-223 | Seeding the checksum of B with that of an even-length A gives the checksum of A followed by B |
| OnesComplement.AdjusterIsEquation3 | src/ethutilities/EthernetUtilities.cpp:341-367 | The adjuster's borrow and carry tricks compute equation 3 of RFC 1624, for every field and all old and new words |
| OnesComplement.RunningMeaning | src/ethutilities/EthernetUtilities.cpp:344-363 | The adjuster's running value is congruent to complement minus old words plus new words, and is zero in exactly one situation |
| OnesComplement.IncrementalEqualsFull | src/ethutilities/EthernetUtilities.cpp:322-367 | Adjusting a correct field gives bit for bit the complement of the full checksum of the edited message, if and only if nothing is replaced or the edited message is not all zero |
| OnesComplement.AdjustKeepsVerdict | src/ethutilities/EthernetUtilities.cpp:341-367 | The adjuster neither spoils a message that verifies nor repairs one that does not |
| OnesComplement.AdjustBySameWords | src/ethutilities/EthernetUtilities.cpp:341-367 | Replacing words by themselves changes no field but 0xffff, which becomes 0 |
| OnesComplement.VerifiesIffMultiple | src/ethutilities/EthernetUtilities.cpp:322-337 | A receiver's test, folding to 0xffff, accepts exactly the positive multiples of 65535 |
| OnesComplement.ComplementVerifies | src/ethutilities/EthernetUtilities.cpp:224-225 | Storing the complement of the sum in a zero field makes any message pass that test |
| EthernetUtilities.EthernetUtilities.CalculateNetworkChecksum | src/ethutilities/EthernetUtilities.cpp:322-337 | The loop with its 16-bit index and 32-bit accumulator returns the residue of start value plus big-endian words, for every length from 1 to 65535 |
| EthernetUtilities.EthernetUtilities.SubtractWords | src/ethutilities/EthernetUtilities.cpp:346-354 | The borrowing loop on a signed value subtracts all old words, the whole last word also for an odd count, and stays within 16 bits |
| EthernetUtilities.EthernetUtilities.AccumulateWords | src/ethutilities/EthernetUtilities.cpp:355-363 | The carrying loop adds all new words, the whole last word also for an odd count, and stays within 16 bits |
| EthernetUtilities.EthernetUtilities.AdjustNetworkChecksum | src/ethutilities/EthernetUtilities.cpp:341-367 | The field is replaced in place by its value adjusted for the words that the counts cover, and no other octet changes |
| EthernetUtilities.EthernetUtilities.ChangeIp | src/ethutilities/EthernetUtilities.cpp:249-298 | The in-place rewrite, with its fragment and protocol tests, leaves the frame of the specification that the rewrite laws are about |
| EthernetUtilities.EthernetUtilities.CreateIpHeader | src/ethutilities/EthernetUtilities.cpp:52-83 | Ethernet and IP header are stored with a sealed header checksum, nothing behind them changes, the identification advances modulo 65536 |
| EthernetUtilities.EthernetUtilities.CreateUdpHeader | src/ethutilities/EthernetUtilities.cpp:87-157 | Around a payload already in the frame it leaves the same frame as createUdpFrame; an oversized payload changes nothing |
| EthernetUtilities.EthernetUtilities.CreateUdpFrame | src/ethutilities/EthernetUtilities.cpp:161-234 | The complete UDP frame for the payload, with both checksums; an oversized payload changes nothing but the reported size |
| EthernetUtilities.EthernetUtilities.SealUdpInPlace | src/ethutilities/EthernetUtilities.cpp:202-226 | The UDP field complements the sum of pseudo-header and segment, computed by seeding one checksum with the other |
| EthernetUtilities.EthernetUtilities.GetUdpData | src/ethutilities/EthernetUtilities.cpp:238-245 | Payload offset and 16-bit length as the headers give them, for every header length |
| FrameLaws.BuiltIpHeaderVerifies | src/ethutilities/EthernetUtilities.cpp:52-83 | Every built IP header passes a receiver's checksum test, for every protocol and length |
| FrameLaws.BuiltFrameVerifies | src/ethutilities/EthernetUtilities.cpp:161-234 | Every built UDP frame passes both the header test and the pseudo-header-plus-segment test |
| FrameLaws.BuiltFrameFields | src/ethutilities/EthernetUtilities.cpp:161-234 | Every header field a receiver reads at its standard offset is the one asked for, lengths included |
| FrameLaws.BuiltFrameRoundTrips | src/ethutilities/EthernetUtilities.cpp:161-245 | Reading a built frame back gives exactly the payload and its length |
| FrameOctets.BuiltFrameSums | src/ethutilities/EthernetUtilities.cpp:161-234 | Added up from the octets, the IP header and the addresses, protocol 17, length and segment of every built frame are multiples of 65535 |
| FrameOctets.IpHeaderOctets | src/ethutilities/EthernetUtilities.cpp:52-83 | Every octet of a built IP header, for every protocol |
| FrameOctets.ReaderSkipsIpOptions | src/ethutilities/EthernetUtilities.cpp:238-245 | The reader finds the payload behind an IP header of 5 to 15 words |
| FrameOctets.TcpRewriteOctets | src/ethutilities/EthernetUtilities.cpp:249-298 | In a first TCP fragment the shipped rewrite changes only the addresses, the header checksum and the word at offset 16 of the segment, and the receiver's sum over protocol 6 comes out right afterwards if and only if it did before |
| FrameOctets.UdpRewriteOctets | src/ethutilities/EthernetUtilities.cpp:249-298 | The same for UDP, protocol 17 and offset 6 |
| FrameOctets.OtherRewriteOctets | src/ethutilities/EthernetUtilities.cpp:252-266 | In later fragments and other protocols only the addresses and the header checksum change |
| FrameOctets.HeaderChecksumOctets | src/ethutilities/EthernetUtilities.cpp:291-297 | The two octets of the header checksum stay, but for 0xffff, which becomes 0 |
| FrameLaws.SegmentKeepsVerdict | src/ethutilities/EthernetUtilities.cpp:282-288 | Replacing both pseudo-header addresses and adjusting the field keeps the transport verdict, valid or not |
| FrameLaws.TransportVerdictKept | src/ethutilities/EthernetUtilities.cpp:249-298 | In either order of header adjustment and copying, the transport verdict of a first fragment is kept |
| FrameLaws.ChangedIpKeepsTransport | src/ethutilities/EthernetUtilities.cpp:249-298 | The shipped rewrite keeps the transport verdict of every first UDP or TCP fragment, stores the new addresses, and touches nothing else but the two checksum fields |
| FrameLaws.ChangedIpHeaderVerdict | src/ethutilities/EthernetUtilities.cpp:291-297 | After the shipped rewrite a valid IP header stays valid if and only if old and new addresses have the same word sum modulo 65535 |
| FrameLaws.IntendedIpKeepsHeader | src/ethutilities/EthernetUtilities.cpp:291-297 | With adjustment before copying, the header verdict is kept, valid or not |
| FrameLaws.ChangedIpAndUnusedChecksum | src/ethutilities/EthernetUtilities.cpp:282-288 | A transport field of zero (no UDP checksum in use) stays zero if and only if the addresses' word sums agree modulo 65535 |
| FrameLaws.UnusedChecksumComesIntoUse | src/ethutilities/EthernetUtilities.cpp:282-288 | A concrete change of address that turns the zero field of any such frame into a checksum |
| FrameLaws.ClearedFrameIsRewritable | src/ethutilities/EthernetUtilities.cpp:161-234 | Every built UDP frame whose checksum field is cleared is such a frame |
| FrameLaws.RewriteIsRebuild | src/ethutilities/EthernetUtilities.cpp:161-298 | Rewriting a built frame equals building it for the new addresses; the shipped order differs only in the header checksum, which is the old one |
| FrameLaws.ShippedOrderBreaksHeader | src/ethutilities/EthernetUtilities.cpp:291-297 | A concrete change of address after which a receiver rejects the header |
| ArpController.PacketFields | src/ethutilities/ArpController.cpp:127-147 | All 42 octets of an ARP packet by offset, link header and target included, and what reads back from them |
| ArpController.RequestOctets | src/ethutilities/ArpController.cpp:127-147 | A request goes to the broadcast address from the sender, with operation 1 and no target MAC |
| ArpController.ReplyOctets | src/ethutilities/ArpController.cpp:99-123 | A reply goes to the sender of the request, with operation 2 and the requested address as the sender's |
| ArpController.ParseByOctets | src/ethutilities/ArpController.cpp:151-268 | What every frame does, by its octets: which are heard, what is learned, which are answered and how |
| ArpController.CreateRequest | src/ethutilities/ArpController.cpp:127-147 | The request is a broadcast for the wanted address from the given sender |
| ArpController.CreateReplyTo | src/ethutilities/ArpController.cpp:99-123 | The reply to a request has the roles of the two ends swapped |
| ArpController.CreateReply | src/ethutilities/ArpController.cpp:66-97 | Absent destinations become broadcast ones, and given a request's fields the octets equal those of the request-based reply |
| ArpController.ExchangeTeachesBothSides | src/ethutilities/ArpController.cpp:151-268 | A request travels from the asker to everybody and its reply from the owner to the asker; afterwards each maps the other's address to the other's MAC, unless that insertion filled its table |
| ArpController.ArpController.ParseFrame | src/ethutilities/ArpController.cpp:151-268 | Table and transmitted reply after any frame, with the type, target and operation checks and a failing allocation |
| ArpController.ArpController.LearnSender | src/ethutilities/ArpController.cpp:182-197 | The table as a list becomes the learned list, and the invariant holds |
| ArpController.ArpController.VoidCallback | src/ethutilities/ArpController.cpp:428-456 | The aging loop with its in-place deletions equals the recursive pass, and sends the refreshing requests that are due, in order |
| ArpController.ArpController.SendArpRequest | src/ethutilities/ArpController.cpp:309-351 | One request per own address on the same network, or one from the given source, or none without memory |
| ArpController.RequestsAreFromSources | src/ethutilities/ArpController.cpp:321-337 | The requests are those from the own addresses on the network of the wanted one, in table order |
| ArpController.SourceIff | src/ethutilities/ArpController.cpp:322-323 | An own address is among them if and only if its masked octets agree with those of the wanted one |
| ArpController.RefreshesConcat | src/ethutilities/ArpController.cpp:431-434 | Refreshing goes address by address, and each takes the next allocation |
| ArpController.RefreshOfOne | src/ethutilities/ArpController.cpp:309-313 | One due address gets its requests, or none without memory |
| ArpController.ArpController.GetArpTableIndex | src/ethutilities/ArpController.cpp:387-396 | The first record for an address, or -1 exactly when there is none |
| ArpController.ArpController.GetMac | src/ethutilities/ArpController.cpp:400-409 | Lookup agrees with the abstract map |
| ArpController.ArpController.GetIp | src/ethutilities/ArpController.cpp:413-424 | An address mapped to that MAC whenever one exists |
| ArpController.ArpController.AddIpForArpReply | src/ethutilities/ArpController.cpp:363-370 | An own address is appended; filling the last slot forgets all of them |
| ArpController.ArpController.IsIpInTableForReply | src/ethutilities/ArpController.cpp:374-383 | True exactly for the own addresses |
| ArpTable.StepKeepsInv | src/ethutilities/ArpController.cpp:182-201 | Learning and aging keep addresses distinct, ages within the limit and the counter below the table size |
| ArpTable.RunKeepsInv | src/ethutilities/ArpController.cpp:151-456 | The same over every interleaving of frames and ticks |
| ArpTable.LearnIsUpdate | src/ethutilities/ArpController.cpp:182-197 | Learning is a map update at one address, except that filling the last slot empties the map |
| ArpTable.LearnKeepsPlace | src/ethutilities/ArpController.cpp:223-238 | Learning moves no record and refreshes only its own |
| ArpTable.TickOnlyForgets | src/ethutilities/ArpController.cpp:428-456 | Aging never changes a mapping, it only drops it |
| ArpTable.TickKeepsOrder | src/ethutilities/ArpController.cpp:446-452 | The survivors of a pass are an order-preserving subsequence |
| ArpTable.TickKeepsYoung | src/ethutilities/ArpController.cpp:435-453 | Only records that had reached the age limit are deleted |
| ArpTable.TickAdvances | src/ethutilities/ArpController.cpp:431-453 | In a pass a surviving record either ages by one or moves to an earlier slot |
| ArpTable.StepLowersRank | src/ethutilities/ArpController.cpp:431-453 | The rank (limit + 1 - age + index) never grows without news from the owner, and every tick lowers it, skipped or not |
| ArpTable.RecordExpires | src/ethutilities/ArpController.cpp:428-456 | In every run without news from its owner, a record at index k is gone after limit + 1 - age + k ticks |
| ArpTable.RecordSurvives | src/ethutilities/ArpController.cpp:182-456 | In every run that never fills the table, no record goes before limit + 1 ticks since its refresh |
| ArpTable.SurvivesIffNeverFills | src/ethutilities/ArpController.cpp:182-456 | Within the age limit, a record whose owner is silent survives a run if and only if no frame of the run fills the last slot |
| ArpTable.TickExactly | src/ethutilities/ArpController.cpp:431-453 | What a pass does to each record of any table: those behind a visited and deleted one keep their age, all others are aged or, at the limit, deleted |
| ArpTable.SkippedRecordOutlives | src/ethutilities/ArpController.cpp:435-453 | A run in which expiry is late: of two records of the same age the second outlives the first by the skipped tick |
| ArpTable.LookupIsLastAnnounced | src/ethutilities/ArpController.cpp:151-424 | After every run a known address maps to the MAC that announced it last |
| ArpTable.DueExactly | src/ethutilities/ArpController.cpp:432-434 | A refresh is requested exactly for the records that the pass does not skip and ages beyond the refresh time |
| ArpTable.DueInOrder | src/ethutilities/ArpController.cpp:431-434 | Addresses are asked for in table order, each at most once |
| DhcpPool.OctetsAreTheRange | src/ethutilities/DhcpServer.cpp:106-122 | The pool's numbers are the range without the server's own, each once, ascending |
| DhcpPool.StoredOctetsAreExact | src/ethutilities/DhcpServer.cpp:106-122 | The stored octets are those numbers if and only if the range ends at 255 or before |
| DhcpPool.StoredOctets | src/ethutilities/DhcpServer.cpp:106-122 | Exactly which octets a range stores, the wrapped ones included |
| DhcpPool.StoredOctetsAreDistinct | src/ethutilities/DhcpServer.cpp:106-122 | No octet is stored twice, also by a range that wraps |
| DhcpPool.OwnOctetIsStoredIff | src/ethutilities/DhcpServer.cpp:106-122 | The server's own octet is stored if and only if start plus count exceeds it by more than 256 |
| DhcpPool.OverrunHandsOutOwnAddress | src/ethutilities/DhcpServer.cpp:106-122 | A concrete range that stores the server's own octet |
| DhcpServer.PoolIsFresh | src/ethutilities/DhcpServer.cpp:106-122 | Every pool is a vacant table of distinct addresses with 24-bit networks and leases of 86400 seconds, for every start and count |
| DhcpServer.PoolIsTheRange | src/ethutilities/DhcpServer.cpp:106-122 | It offers an address if and only if its octet is in the range and not the server's, or is reached by wrapping at 255 |
| DhcpServer.PoolHandsOutOwnAddressIff | src/ethutilities/DhcpServer.cpp:106-122 | It offers the server's own address if and only if the range wraps as far as to it |
| DhcpServer.DhcpServer.FillPool | src/ethutilities/DhcpServer.cpp:106-122 | The loop that moves its own bounds fills the array with exactly that pool, for every start and count, inside the allocation |
| DhcpServer.DhcpServer.constructor | src/ethutilities/DhcpServer.cpp:89-122 | The initial state for every address, range and outcome of the allocation; it is always one that the run laws start from |
| DhcpServer.DhcpServer.EntryByMac | src/ethutilities/DhcpServer.cpp:155-162 | The first entry of a client, or none exactly when there is none |
| DhcpServer.DhcpServer.EntryByIp | src/ethutilities/DhcpServer.cpp:144-151 | The first entry with an address, or none exactly when there is none |
| DhcpServer.DhcpServer.VacantAddress | src/ethutilities/DhcpServer.cpp:178-185 | The first vacant entry |
| DhcpServer.DhcpServer.FreeEntryOf | src/ethutilities/DhcpServer.cpp:307-309 | Frees the client's entry and no other |
| DhcpServer.DhcpServer.FindDhcpOption | src/ethutilities/DhcpServer.cpp:189-200 | The walk terminates on arbitrary octets, reads only inside the area, and finds what the specification finds |
| DhcpServer.DhcpServer.FillOptions | src/ethutilities/DhcpServer.cpp:204-260 | The area starts with the encoded option list and the end mark, and the rest is untouched |
| DhcpServer.DhcpServer.PrepareReply | src/ethutilities/DhcpServer.cpp:284-291 | The whole reply around the address in place, with unmentioned fields kept from the request |
| DhcpServer.DhcpServer.CopyToYourAddress | src/ethutilities/DhcpServer.cpp:317 | The copy from one place of the message to its address field, octet by octet |
| DhcpServer.DhcpServer.AcknowledgeFrom | src/ethutilities/DhcpServer.cpp:316-326 | The reply carries the address that stood at the given offset, although the option area, where it may stand, is cleared on the way |
| DhcpServer.DhcpServer.LeaseTo | src/ethutilities/DhcpServer.cpp:307-335 | REQUEST and INFORM from the offset of the wanted address on: table, message buffer and reply |
| DhcpServer.DhcpServer.UdpRecvProc | src/ethutilities/DhcpServer.cpp:264-377 | Table, message buffer and reply after any datagram equal the step function, stale octets included |
| DhcpOptions.FindFrom | src/ethutilities/DhcpServer.cpp:189-200 | On arbitrary octets any option found has the right tag and lies wholly inside the buffer |
| DhcpOptions.OptionsRoundTrip | src/ethutilities/DhcpServer.cpp:189-260 | Decoding the zero-padded encoding of any option list gives the exact first value of a tag, and nothing for an absent one |
| DhcpLeases.OptionListFits | src/ethutilities/DhcpServer.cpp:204-260 | The options of every configuration take the expected number of octets |
| DhcpLeases.ReplyOptions | src/ethutilities/DhcpServer.cpp:204-260 | For every tag but pad and end, what a client reads back from a reply is the configured value of that option, or nothing |
| DhcpLeases.Octets32IsBigEndian | src/ethutilities/DhcpServer.cpp:223-226 | The emitted lease time reads back as the lease time |
| DhcpLeases.AnswerFields | src/ethutilities/DhcpServer.cpp:316-326 | Address, client, type and options of a reply at their places in the message |
| DhcpMessages.MergedOctets | src/ethutilities/DhcpServer.cpp:274-276 | A datagram of any length overwrites the start of the buffer and no more |
| DhcpMessages.FieldOctets | src/ethutilities/DhcpServer.cpp:277-340 | Type, client and the address of an INFORM by their offsets |
| DhcpMessages.RequestByOctets | src/ethutilities/DhcpServer.cpp:300-305 | A request whose second option is the wanted address asks for it, whatever follows |
| DhcpMessages.OthersAreIgnored | src/ethutilities/DhcpServer.cpp:303-304 | Messages of other types, and requests without an address of four octets, are only kept in the buffer |
| DhcpMessages.FilledAreaOctets | src/ethutilities/DhcpServer.cpp:204-260 | The option area of every reply octet by octet |
| DhcpMessages.AnswerOctets | src/ethutilities/DhcpServer.cpp:316-326 | The fields of a reply before the options, octet by octet |
| DhcpMessages.ReplyOctets | src/ethutilities/DhcpServer.cpp:264-377 | Every reply of the server octet by octet, against the message it answers and one entry of the table |
| DhcpMessages.BufferHoldsReply | src/ethutilities/DhcpServer.cpp:264-377 | What the buffer holds afterwards: the prepared reply, sent or not, or the message |
| DhcpLeases.StepKeepsTable | src/ethutilities/DhcpServer.cpp:264-377 | Every datagram keeps at most one entry per client, and changes neither addresses nor lease times |
| DhcpLeases.RunKeepsTable | src/ethutilities/DhcpServer.cpp:264-377 | The same over every run |
| DhcpLeases.AckMeans | src/ethutilities/DhcpServer.cpp:300-371 | Exactly when a datagram is acknowledged, to whom, for what, and with what effect on the table |
| DhcpLeases.AckTellsTheTruth | src/ethutilities/DhcpServer.cpp:300-371 | The acknowledged address and options are those of the entry that now holds the client |
| DhcpLeases.LeaseHeldOverRun | src/ethutilities/DhcpServer.cpp:264-377 | A client keeps its entry over every run in which no datagram of its own frees it |
| DhcpLeases.HeldAddressIsRefused | src/ethutilities/DhcpServer.cpp:311-314 | An address held by one client is not acknowledged to another |
| DhcpLeases.HasLeaseIffAcked | src/ethutilities/DhcpServer.cpp:307-331 | A client that asks for an address has a lease afterwards if and only if it is acknowledged |
| DhcpLeases.LeaseSlotIff | src/ethutilities/DhcpServer.cpp:307-314 | A client gets an address if and only if it is in the pool and vacant or the client's own before the request |
| DhcpLeases.HasLeaseIff | src/ethutilities/DhcpServer.cpp:307-331 | A client that asks for an address has a lease afterwards if and only if that holds and there is memory for the reply |
| DhcpLeases.HolderIsLastGranted | src/ethutilities/DhcpServer.cpp:264-377 | After any run a client holds exactly the address of the last acknowledgement it got, and none if it has asked in vain since |
| DhcpLeases.FreshHasNoLeases | src/ethutilities/DhcpServer.cpp:106-122 | From a fresh pool such a run starts without leases |
| DhcpMessages.ShortDiscoverIsOffered | src/ethutilities/DhcpServer.cpp:274-298 | The first octets of a discover message, from 243 on, get the first address of a fresh pool offered |
| DhcpMessages.ShortRequestIsRequest | src/ethutilities/DhcpServer.cpp:274-305 | The first octets of a request, from 249 on, are that request on every server, whatever the buffer held |
| DhcpMessages.RequestForIsAckedIff | src/ethutilities/DhcpServer.cpp:300-335 | It is acknowledged if and only if the address is in the pool and vacant or the client's own |
| DhcpMessages.InformIsAckedIff | src/ethutilities/DhcpServer.cpp:337-371 | The same for an INFORM of 243 octets or more; the reply gives the client's address and clears its field |
| DhcpMessages.AskingElsewhereLosesLease | src/ethutilities/DhcpServer.cpp:307-313 | A concrete request, for any address outside the pool, that costs a client its lease |
| DhcpMessages.AddressMovesOn | src/ethutilities/DhcpServer.cpp:264-377 | On any fresh pool: a first client discovers and requests an address, a second one is refused it, and gets it after the first one has asked elsewhere |
| DhcpLeases.LeaseIsExclusive | src/ethutilities/DhcpServer.cpp:264-377 | An address acknowledged to one client and later to another means that the first one's REQUEST or INFORM was processed in between |
| DhcpLeases.OfferMeans | src/ethutilities/DhcpServer.cpp:279-298 | Exactly which entry a DISCOVER is offered, without any effect on the table |
| DhcpMessages.KnownClientIsOffered | src/ethutilities/DhcpServer.cpp:279-298 | A client that has an entry is offered its address |
| DhcpMessages.NewClientIsOffered | src/ethutilities/DhcpServer.cpp:281-282 | Any other client is offered the first vacant address, if there is one |
| DhcpLeases.OfferThenRequest | src/ethutilities/DhcpServer.cpp:279-335 | After any history, the offered address is acknowledged if the client's request for it comes next and memory is available |
| DhcpLeases.RepeatedRequest | src/ethutilities/DhcpServer.cpp:300-335 | After any history, repeating an acknowledged request changes nothing; without memory for the reply it loses the lease |
| TcpConnectionTable.AddRepresents | src/ethutilities/TcpServerChannel.cpp:455-480 | Below capacity, adding appends to the live list if and only if the connection is not yet live |
| TcpConnectionTable.ShiftCloses | src/ethutilities/TcpServerChannel.cpp:499-503 | The shifting loop closes the gap, and duplicates the last slot when there is no empty one |
| TcpConnectionTable.DeleteRepresents | src/ethutilities/TcpServerChannel.cpp:484-520 | The exact condition under which the shipped removal leaves the array equal to the live list |
| TcpConnectionTable.FullRemoval | src/ethutilities/TcpServerChannel.cpp:484-520 | What a full array holds after any connection but the last has left |
| TcpConnectionTable.FullArrayForgetsNext | src/ethutilities/TcpServerChannel.cpp:455-520 | After that the next accepted connection is not tracked, and the last one is counted twice |
| TcpConnectionTable.FullRemovals | src/ethutilities/TcpServerChannel.cpp:455-520 | The last one itself survives its removal: the next accept counts it again |
| TcpConnectionTable.UnknownRemovalForgetsLast | src/ethutilities/TcpServerChannel.cpp:484-520 | Removing an unknown connection untracks the one accepted last, at every fill of the array |
| TcpConnectionTable.AddToPacked | src/ethutilities/TcpServerChannel.cpp:455-480 | An accept counts the next slot: the new connection if that was empty, and otherwise what it still holds |
| TcpConnectionTable.AcceptTracksIff | src/ethutilities/TcpServerChannel.cpp:455-480 | An accepted connection is tracked if and only if the next slot is empty or holds the same handle |
| TcpConnectionTable.AcceptCountsTwiceIff | src/ethutilities/TcpServerChannel.cpp:455-480 | An accept makes a connection be counted twice if and only if the next slot still holds a counted one |
| TcpConnectionTable.DeleteFromPacked | src/ethutilities/TcpServerChannel.cpp:484-520 | A removal takes the first occurrence out and counts one slot less, for arrays in every state |
| TcpConnectionTable.CountedAfterDelete | src/ethutilities/TcpServerChannel.cpp:484-520 | A removed connection is still counted if and only if it was counted twice |
| TcpConnectionTable.DeleteKeepsStale | src/ethutilities/TcpServerChannel.cpp:484-520 | An array without empty slots and with a doubled last one stays so under every removal, and gains no handle |
| TcpConnectionTable.AddKeepsStale | src/ethutilities/TcpServerChannel.cpp:455-480 | Nor does any accept put a handle into it |
| TcpConnectionTable.RemovedIsLiveList | src/ethutilities/TcpServerChannel.cpp:484-520 | Removal from the live list drops exactly that connection |
| TcpConnectionTable.DeleteIntendedRepresents | src/ethutilities/TcpServerChannel.cpp:494-505 | Clearing the vacated slot and ignoring unknown connections keeps the correspondence for every removal |
| TcpConnectionTable.RunIntendedRepresents | src/ethutilities/TcpServerChannel.cpp:455-520 | And so over every run, up to and including full capacity |
| TcpChannel.DrainConserves | src/ethutilities/TcpServerChannel.cpp:286-322 | The drain loop loses, duplicates and reorders no octet, whatever the stack answers |
| TcpChannel.SegmentsArePrefix | src/ethutilities/TcpServerChannel.cpp:347-361 | What is chained is a prefix of the data, cut short only by a failed allocation |
| TcpChannel.SegmentsAreFull | src/ethutilities/TcpServerChannel.cpp:350-351 | Every segment but the last has full size, and none is empty |
| TcpChannel.TxConserves | src/ethutilities/TcpServerChannel.cpp:326-363 | A transmission enqueues a prefix of its data, all of it if memory lasts and nothing was pending |
| TcpChannel.StepConserves | src/ethutilities/TcpServerChannel.cpp:152-363 | Every callback and call that reads no released record keeps written plus pending equal to enqueued, and closes only flushed connections |
| TcpChannel.RunConserves | src/ethutilities/TcpServerChannel.cpp:114-401 | The same over every run of accept, transmit to any handle, broadcast, receive with transmissions from inside the callback, sent, poll and error |
| TcpStream.DrainExactly | src/ethutilities/TcpServerChannel.cpp:286-322 | The drain loop writes exactly the chunks that the stack takes, with success and room, and keeps the refused one and all behind it |
| TcpStream.RefusedChunkIsKept | src/ethutilities/TcpServerChannel.cpp:306-308 | A chunk that fits but is refused for lack of memory is kept |
| TcpStream.StepAccounts | src/ethutilities/TcpServerChannel.cpp:152-363 | Every event adds to the written octets of a connection exactly what the stack takes on it |
| TcpStream.RunAccounts | src/ethutilities/TcpServerChannel.cpp:114-401 | Over every run, what is recorded as written is exactly what the stack has taken since the connection was accepted |
| TcpStream.OthersAreUntouched | src/ethutilities/TcpServerChannel.cpp:152-401 | A callback leaves every other connection alone |
| TcpStream.TxTouchesOne | src/ethutilities/TcpServerChannel.cpp:343-363 | So does a transmission |
| TcpStream.IdleChangesNothing | src/ethutilities/TcpServerChannel.cpp:152-346 | The events that change nothing |
| TcpStream.AcceptStarts | src/ethutilities/TcpServerChannel.cpp:124-127 | An accepted connection starts open and empty |
| TcpStream.DataIsDelivered | src/ethutilities/TcpServerChannel.cpp:191-206 | Data without an error on an open connection is handed over, all of it and in order |
| TcpChannel.DeliverAppends | src/ethutilities/TcpServerChannel.cpp:191-206 | The application gets every received chunk once and in order, whatever it transmits from inside the callback |
| TcpChannel.GenerousDrainEmpties | src/ethutilities/TcpServerChannel.cpp:286-322 | A stack that takes every chunk empties the chain |
| TcpChannel.TwoPollsClose | src/ethutilities/TcpServerChannel.cpp:233-264 | A half-closed connection is closed, fully written, by at most two polls once the stack takes what is pending |
| TcpStream.EndOfStreamCloses | src/ethutilities/TcpServerChannel.cpp:158-181 | The end of the stream closes an idle connection at once and makes any other wait; two polls then close it, with everything written, once the stack takes what is pending |
| TcpChannel.TracksIsSafe | src/ethutilities/TcpServerChannel.cpp:330-346 | While the array tracks its connections, a broadcast and a transmission to any handle read no released record |
| TcpChannel.StepTracksIff | src/ethutilities/TcpServerChannel.cpp:114-531 | An event keeps the array equal to the list of tracked connections if and only if it is harmless, at every fill of the array |
| TcpChannel.RunTracksIff | src/ethutilities/TcpServerChannel.cpp:114-531 | The array is that list at every moment of a run if and only if every removal is harmless, and such a run reads no released record |
| TcpChannel.RunTracks | src/ethutilities/TcpServerChannel.cpp:114-531 | Over every run below capacity, whatever handles the application transmits to, the array is the live list in accept order, being tracked is the same as being open, and no released record is read |
| TcpChannel.StaleForever | src/ethutilities/TcpServerChannel.cpp:455-531 | After the array has gone stale, no run ever tracks a handle that is not in it already |
| TcpChannel.SlotsExistIffCallsSafe | src/ethutilities/TcpServerChannel.cpp:330-346 | Every counted slot holds an open connection if and only if no call the application can make next reads a released record |
| TcpChannel.StepExposesIff | src/ethutilities/TcpServerChannel.cpp:114-531 | After an event every counted slot still holds an open connection if and only if the event does not expose a released one, read off the array before it |
| TcpChannel.RunExposesIff | src/ethutilities/TcpServerChannel.cpp:114-531 | Every counted slot holds an open connection at every moment of a run if and only if no event exposes a released one, and such a run reads no released record |
| TcpChannel.ReleasedStaysTracked | src/ethutilities/TcpServerChannel.cpp:330-346 | From every full array three events lead, through a stale array, to a released connection that is still tracked |
| TcpChannel.UncountedStaysTracked | src/ethutilities/TcpServerChannel.cpp:330-346 | From every array that tracks one connection while another is open untracked, three events lead to the same without a stale array |
| TcpChannel.FiveEventsSuffice | src/ethutilities/TcpServerChannel.cpp:114-531 | Five events lead to a released tracked connection from a new channel with two slots, the first way |
| TcpChannel.SevenEventsSuffice | src/ethutilities/TcpServerChannel.cpp:114-531 | Seven events do so the second way |
| TcpChannel.BroadcastReachesEach | src/ethutilities/TcpServerChannel.cpp:330-342 | While the array tracks its connections, a broadcast is exactly one transmission to each of them |
| TcpChannel.BroadcastReachesLastTwice | src/ethutilities/TcpServerChannel.cpp:330-342 | Over an array that counts its last connection twice it is two transmissions to that one |
| TcpServerChannel.TcpServerChannel.constructor | src/ethutilities/TcpServerChannel.cpp:80-110 | A new channel tracks nothing and satisfies both run invariants |
| TcpServerChannel.TcpServerChannel.AddConnectionToBuffer | src/ethutilities/TcpServerChannel.cpp:455-480 | The array and counter become those of the specification |
| TcpServerChannel.TcpServerChannel.DeleteConnectionFromBuffer | src/ethutilities/TcpServerChannel.cpp:484-520 | The array and counter become those of the shipped removal |
| TcpServerChannel.TcpServerChannel.IsConnectionInBuffer | src/ethutilities/TcpServerChannel.cpp:524-531 | Exactly membership among the first counter slots |
| TcpServerChannel.TcpServerChannel.Send | src/ethutilities/TcpServerChannel.cpp:286-322 | The loop with its error variable equals the recursive drain and touches no other connection |
| TcpServerChannel.TcpServerChannel.Chain | src/ethutilities/TcpServerChannel.cpp:347-361 | The loop enqueues exactly the segments of the specification |
| TcpServerChannel.TcpServerChannel.Tx | src/ethutilities/TcpServerChannel.cpp:343-363 | A transmission to an untracked handle, closed ones included, or to a busy connection changes nothing; any other is the specified step |
| TcpServerChannel.TcpServerChannel.TxBroadcast | src/ethutilities/TcpServerChannel.cpp:330-342 | The loop over the array equals the specified broadcast |
| TcpServerChannel.TcpServerChannel.PerformAll | src/ethutilities/TcpServerChannel.cpp:326-363 | The calls that an application makes, one after the other |
| TcpServerChannel.TcpServerChannel.HandOver | src/ethutilities/TcpServerChannel.cpp:194-201 | One callback with a chunk, and the calls the application makes from inside it |
| TcpServerChannel.TcpServerChannel.Deliver | src/ethutilities/TcpServerChannel.cpp:192-203 | The delivery loop equals the specification, with the calls that the application makes on each chunk |
| TcpServerChannel.TcpServerChannel.AcceptConnection | src/ethutilities/TcpServerChannel.cpp:114-148 | The accept callback is the specified step, also without memory |
| TcpServerChannel.TcpServerChannel.ReceiveData | src/ethutilities/TcpServerChannel.cpp:152-229 | The receive callback is the specified step in every state: delivery with re-entrant transmissions, end of stream, error, late data |
| TcpServerChannel.TcpServerChannel.Polled | src/ethutilities/TcpServerChannel.cpp:233-264 | Poll drains what is pending or closes a half-closed connection; without an argument it aborts and changes nothing |
| TcpServerChannel.TcpServerChannel.SentOn | src/ethutilities/TcpServerChannel.cpp:268-282 | Sent drains what is pending or closes a half-closed connection |
| TcpServerChannel.TcpServerChannel.Close | src/ethutilities/TcpServerChannel.cpp:382-401 | The connection leaves the array and its record is released |
| TcpServerChannel.TcpServerChannel.ErrorOccurred | src/ethutilities/TcpServerChannel.cpp:367-378 | The error callback drops the connection without flushing it, and does nothing without an argument |
| DnsQuestion.ParseInvertsEncode | src/ethutilities/DnsServer.cpp:121-153 | Every list of labels whose dotted join fits the buffer comes back as that join, with type, class and exact length |
| DnsQuestion.SuccessIsEncoding | src/ethutilities/DnsServer.cpp:121-153 | Every success consumed such an encoding, from any cursor position |
| DnsQuestion.SuccessIff | src/ethutilities/DnsServer.cpp:121-153 | The parser succeeds if and only if the input starts with the encoding of labels whose join fits |
| DnsQuestion.TooLongIff | src/ethutilities/DnsServer.cpp:138 | The parser reports an overlong name if and only if some complete label is the first one whose join does not fit |
| DnsQuestion.ParseIgnoresRest | src/ethutilities/DnsServer.cpp:121-153 | Octets behind the question do not influence the result |
| DnsQuestion.EncodeLast | src/ethutilities/DnsServer.cpp:129-144 | One more label is its length and its octets |
| DnsQuestion.JoinLast | src/ethutilities/DnsServer.cpp:132-141 | In the name a dot (46) stands before every label but the first |
| DnsServer.ParseNextQuery | src/ethutilities/DnsServer.cpp:121-153 | The pointer-advancing loop equals the specification, all reads and writes are in bounds, and the full-buffer test before a dot cannot succeed |
| DnsServer.ReplyAnswersItsQuestion | src/ethutilities/DnsServer.cpp:185-199 | A reply repeats the question it answers, counts one answer, points at the question's name and carries the server's address |
| DnsServer.ReplyOctets | src/ethutilities/DnsServer.cpp:185-199 | Every octet of a reply |
| DnsServer.AnsweredIff | src/ethutilities/DnsServer.cpp:168-183 | Exactly which datagrams are answered |
| DnsServer.PlainQueryIsAnswered | src/ethutilities/DnsServer.cpp:157-202 | A plain query for one of the server's names, and the whole reply to it |
| DnsServer.CStringIsUpToZero | src/ethutilities/DnsServer.cpp:178-179 | A C string is what stands before the first zero |
| DnsServer.CountsAreRightIff | src/ethutilities/DnsServer.cpp:189-199 | A reply is header, question and one answer, and its four counts say just that if and only if the query announced no authority and additional records |
| DnsServer.EdnsReplyLacksRecord | src/ethutilities/DnsServer.cpp:189-199 | Any query with an EDNS record for a known name gets a reply that announces an additional record and has none |
| DnsServer.RepliesAreNotAnswered | src/ethutilities/DnsServer.cpp:168-187 | No reply is answered by any server of this kind |
| DnsServer.UdpRecvProc | src/ethutilities/DnsServer.cpp:157-206 | Exactly the well-formed one-question queries for a known name are answered, if memory is available |
| DnsServer.AssembleReply | src/ethutilities/DnsServer.cpp:185-199 | The reply assembled in its buffer octet by octet |
| DnsServer.ReadCString | src/ethutilities/DnsServer.cpp:178-179 | A name is compared up to its first zero octet |
| EthernetQueue.FifoWithoutLoss | src/ethutilities/EthernetQueue.cpp:66-93 | Over a run that never finds the ring full, frames come out whole and in push order |
| EthernetQueue.FramesAreAccountedFor | src/ethutilities/EthernetQueue.cpp:66-93 | Over every run, what was pulled followed by what is stored is an order-preserving selection of the frames pushed, and as many are missing as pushes into a full ring wiped out |
| EthernetQueue.FifoIffNeverFull | src/ethutilities/EthernetQueue.cpp:66-93 | The ring is first-in first-out over a run if and only if no push finds it full |
| EthernetQueue.EthernetQueue.constructor | src/ethutilities/EthernetQueue.cpp:39-53 | The queue starts empty, or inert without slots or memory |
| EthernetQueue.EthernetQueue.PushFrame | src/ethutilities/EthernetQueue.cpp:66-75 | With room the frame is appended, without room the abstract queue becomes empty |
| EthernetQueue.EthernetQueue.PullFrame | src/ethutilities/EthernetQueue.cpp:79-93 | The oldest frame and its size, or nothing |
| EthernetQueue.EthernetQueue.GetCount | src/ethutilities/EthernetQueue.cpp:97-103 | The length of the abstract queue |
| EthernetQueue.EthernetQueue.GetFree | src/ethutilities/EthernetQueue.cpp:107-114 | Count and free slots add up to size - 1 |
| EthernetQueue.EthernetQueue.IsAboveThreshold | src/ethutilities/EthernetQueue.cpp:125-130 | Compares the abstract length with the threshold |

## Left out

- EthernetUtilities.EthernetUtilities.AdjustNetworkChecksum: a count of 65535 is excluded, because the 16-bit index then wraps and the source's loop does not end. The old and new words and the UDP payload are values, so buffers that overlap the frame are not captured beyond the shipped order itself.
- EthernetUtilities.EthernetUtilities.CalculateNetworkChecksum: a length of zero is excluded, because the source then reads in front of its buffer.
- EthernetUtilities.EthernetUtilities.CreateUdpFrame: the static identification counter is a field of one object; the largest frame length is a parameter (jb_common.h is not part of this model). RFC 768's replacement of a zero checksum by ones is not done by the code and is not claimed.
- compareIp and maskIp appear only through the test for zero (`SameNetwork`); getFrameType is two octet comparisons.
- ArpController.ArpController.ParseFrame: requires a frame buffer of at least 42 octets, as the frame type guarantees; table sizes and times are parameters within the widths of the source's counters.
- sendGratiousArp, the controller's getters and its destructor: no state of their own.
- DhcpServer.DhcpServer.UdpRecvProc: the payload is a value; the port handling, broadcasting and freeing of buffers are not modelled. Octets kept in the message buffer after a short datagram are modelled.
- DhcpServer.DhcpServer.constructor: requires the configured domain name to fit the 275-octet option area together with the other options; the name and the interface address are parameters, the UDP set-up is left out. The message structure is taken as 516 octets (its fields take 515, rounded up to 4-octet alignment).
- DHCP features that the code lacks: expiry of leases, RELEASE, DECLINE, NAK, single-octet pad options in the walk.
- TcpServerChannel.TcpServerChannel.Tx: requires that a tracked handle is open, because the source otherwise reads a released record, whose contents the model does not have; TcpChannel.RunExposesIff says exactly when that is so over a run.
- TcpServerChannel.TcpServerChannel.TxBroadcast: requires the same of all counted slots, for the same reason.
- TcpServerChannel.TcpServerChannel.PerformAll: requires the same of each of its calls.
- TcpServerChannel.TcpServerChannel.HandOver: requires the same of the calls made on its chunk.
- TcpServerChannel.TcpServerChannel.Deliver: requires the same of the calls made on its chunks.
- TcpServerChannel.TcpServerChannel.ReceiveData: requires the same of the calls made from inside the callback, which are given by chunk; whether a callback is set does not change during a run.
- The TCP set-up (binding, listening, priorities), acknowledging received data to the stack, what aborting does to the connection of the stack, and the channel's destructor.
- TCP connection records are kept in a map from handles (0 is null); pbuf chains are lists of chunks without reference counts; the segment size and the capacity are parameters.
- DnsServer.ParseNextQuery: the packet is a value and the query record an object with its own name buffer; compression pointers and the 63-octet limit on labels are not in the code. Host names are a set parameter.
- The FreeRTOS variant of the DNS server repeats the same parser around sockets.
- EthernetQueue.EthernetQueue.PushFrame: frames have a fixed parameter length and are copied as values; the cursor difference macro, defined in a header that is not part of this model, is read as the modular difference.
- The ZYNQ branches, which clear checksum fields for the hardware, and all console printing.
- EthernetRouter, WsChannel, both UdpChannel versions and UdpVoidChannel: plumbing around timers, sockets and callbacks.
- Steps that are one long body in the source (building a header, the two adjustments for a pair of addresses, aging a slot) are several methods here, with the same order of stores.
