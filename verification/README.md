# Verified models of the capture server

The server runs tcpdump on remote hosts over SSH, stores the captures sealed, and shows, filters,
anonymises and exports them. This project models the parts of its backend that carry the most
state and arithmetic, and proves what they promise. It is written in Dafny 4.11; `dafny verify
dfyconfig.toml` checks all of it.

- **Sanitizing a capture.** `Framewalk` and `Walker` are the header walker: what it finds and the
  object that finds it. `Packets` builds packets field by field, and `PacketsFound` shows that the
  walker finds exactly what was built. `Rewalk` shows that a frame edited where the walker
  does not look is walked to the same layout, and `Cutting` what is found in a frame cut short.
  `Checksums` is the incremental repair, `PrefixMap`, `Anonymize` and `Pseudonyms` the replacements and
  their caches, `Rewriter` the edit of one frame, `SanitizedFrames` what the next reader sees of it;
  `Pcap`, `JsonPackets` and `Sanitizer` are the two streams kept in step.
- **Checking a capture filter.** `Bpf` is the splitter and flattener, `BpfSoundness` a semantics of
  filters and the soundness of the flattening, `BpfSearch` the brute-force search and the verdicts.
- **Storing a capture.** `Envelope` and `Sealing` are the sealed format and the upload path, `Rekey`
  the key rotation on a disk that may fail or stop at any step.
- **Reading a capture.** `Copies` is the detector of repeat sightings, `Aggregation` the protocol
  hierarchy and the conversation tables.
- **Running captures.** `Captures` is the manager as a transition system over its await points,
  `CaptureManager` the object itself, `Limiters` the request limiters, `ShellQuote` the command line.

Objects the source updates in place are classes whose methods are proved against functions on
values; the theorems are lemmas about those functions. External tools appear as arbitrary input
streams, clocks and random draws as parameters, and AES-GCM as any cipher that is ideal: it opens
what it sealed, and nothing else.

## Where the code does less than it says

- The filter check takes some filters that nothing can match for satisfiable: with a port above 65535
  (`BpfSearch.OutOfRangePortsPass`), or with more than 64 ports named (`BpfSearch.SixtyFivePortsPass`).
  It is exact for all filters over a set of ports if and only if the set is neither
  (`BpfSearch.WhenTheSearchIsExact`).
- Rotating a file called `k` destroys one called `k.partial` (`Rekey.PartialNameIsLost`), and no
  other name (`Rekey.OnlyTheTemporaryNameIsLost`).
- Copies whose original is frame 2^31 or later read back as translated copies of another frame
  (`Copies.HugeFrameNumbersMisread`), and when timestamps go back into a window already left a
  forgotten packet's copy can go unmarked (`Copies.ForgettingShows`); exactly then
  (`Copies.PruningIsInvisibleExactly`).
- The labels kept for structure keep the case they were written in, so they alone are not replaced
  by a function of the lower-cased label (`Pseudonyms.LabelDependsOnItsText`).
- A delete that begins while the launch is still pending can leave a session that nobody closes, or
  bring the deleted row back (`Captures.CarelessDeleteLeaks`), and no other step can begin such an end
  (`Captures.CarefulExactly`); a stop in that moment is lost
  (`Captures.StopDuringLaunchIsLost`).
- A limiter's cap holds for every window shorter than a minute and for no longer one
  (`Limiters.WindowsWithinTheCap`): a minute with both its ends can hold twice the cap
  (`Limiters.AClosedMinuteHoldsTwice`). Widening the lockout window does not bring back failures already
  trimmed (`Limiters.WideningForgets`); a count can be relied on exactly while the window reaches no
  further back than the latest trim (`Limiters.CountsFromTheHorizonOn`).
- A field tshark locates on a checksum is written over it (`Rewriter.FieldOnAChecksumIsKept`). A checksum
  stays as right as it was, whatever is written, if and only if no located field touches it
  (`Rewriter.ChecksumsKeptWhateverIsWritten`).
- In a frame cut short inside a header, an address captured whole can stay in clear
  (`SanitizedFrames.ShortHeaderLeavesItsSource`). It is found if and only if the captured bytes go as far
  as the walker asks for it (`Cutting.CutWalk`).

## Model

| member | source | states |
|---|---|---|
| `Checksums.OnesSumIsWordSum` | backend/framewalk.py:398-408 | Reading the whole buffer as one big integer mod 0xFFFF is the sum of its 16-bit words mod 0xFFFF, for every length, odd ones included |
| `Checksums.OnesSumIsRfc1071` | backend/framewalk.py:398-408 | The sum is the end-around-carry sum of RFC 1071 with 0xFFFF written as 0; that sum is 0x0000 exactly for all-zero data |
| `Checksums.OnesComplementChecksum` | tests/packet_builders.py:15-21 | The reference checksum loop of the test suite computes the complement of that sum, so data and checksum together sum to zero |
| `Checksums.UpdatedBalances` | backend/framewalk.py:411-444 | The incremental update (RFC 1624 section 3, eqn 3) balances the change of the inputs, and never yields 0x0000 |
| `Checksums.OwnFieldIsNoInput` | backend/framewalk.py:411-444 | Writing a checksum changes no input of its own scope |
| `Checksums.RefreshOneRestores` | backend/framewalk.py:411-444 | One repair gives the scope the residual its original inputs leave with the checksum value found in the edited frame, hence the original's exactly when that value equals the original one mod 0xFFFF; an unchanged scope keeps its bytes, a changed one never gets 0x0000 |
| `Checksums.RefreshSettlesAll` | backend/framewalk.py:411-444 | The whole repair gives every scope of the list the residual its original inputs leave with its own edited value, although each inner repair changes what outer ones cover |
| `Checksums.RefreshOneTouchesItsField` | backend/framewalk.py:411-444 | One repair writes nothing but the two bytes of its checksum |
| `Checksums.LastOutlastsOuter` | backend/framewalk.py:411-444 | Repairs of outer scopes afterwards change neither the inputs nor the value of an inner one |
| `Checksums.RefreshKeepsResiduals` | backend/framewalk.py:411-444 | After any same-length edits, at any nesting, the whole repair leaves a scope with its original residual if and only if the edits left its own checksum value as it was, mod 0xFFFF; and no checksum whose inputs moved is left at zero |
| `Checksums.RefreshedTouchesFields` | backend/framewalk.py:411-444 | The repair writes only checksum fields |
| `Checksums.RefreshScope` | backend/framewalk.py:411-444 | One turn of the in-place loop is the repair of that scope |
| `Checksums.RefreshChecksums` | backend/framewalk.py:411-444 | The in-place loop over the scopes, innermost first, is the repair the lemmas are about |
| `Checksums.ResidualIsInputSum` | backend/framewalk.py:411-444 | The residual is, mod 0xFFFF, the sum over coverage, pseudo header and checksum |
| `Checksums.ReceivedSum` | backend/framewalk.py:77-84 | What a receiver adds up over a segment, its fixed pseudo-header words and an uncaptured tail, split into parts an edit can and cannot reach |
| `Checksums.ResidualsAreSums` | backend/framewalk.py:411-444 | Two buffers have the same residual exactly when all a receiver would add up is the same mod 0xFFFF, whatever fixed words and uncaptured tail also enter |
| `Checksums.VerdictKept` | backend/framewalk.py:411-444 | A checksum the receiver accepted is accepted after the repair exactly when its value was left as it was, mod 0xFFFF, and not everything summed is zero; a wrong one stays wrong unless everything it summed was zero; whatever the uncaptured tail |
| `Checksums.RefreshedOfCut` | tests/test_framewalk.py:183-200 | For any edits in the first bytes: repairing the cut frame, coverage cut with it, gives what cutting the repaired whole frame gives, although the checksums cover bytes that were never captured |
| `Framewalk.Walk` | backend/framewalk.py:129-139 | On every frame the finds lie inside it, addresses in order and apart, off every checksum field, and scopes outermost first with each checksum before what later scopes read |
| `Framewalk.Ethernet` | backend/framewalk.py:141-147 | Finds stay placed, and the payload start never moves back |
| `Framewalk.Ethertype` | backend/framewalk.py:188-202 | Through VLAN tags to whatever is announced: finds stay placed, the payload start never moves back |
| `Framewalk.Ipv4Header` | backend/framewalk.py:237-255 | The header scope is added exactly when the whole header was captured, before everything found later |
| `Framewalk.Ipv4` | backend/framewalk.py:237-255 | Finds of an IPv4 packet and everything in it stay placed |
| `Framewalk.SkipExtensions` | backend/framewalk.py:266-285 | Extension headers move the walker forward only, and find nothing |
| `Framewalk.Ipv6` | backend/framewalk.py:257-287 | Finds of an IPv6 packet and everything in it stay placed |
| `Framewalk.TransportLayer` | backend/framewalk.py:289-303 | For every protocol number, given a pseudo header that lies before the transport header, finds stay placed |
| `Framewalk.UdpHeader` | backend/framewalk.py:312-332 | UDP and its VXLAN and Geneve tunnels: finds stay placed at every depth |
| `Framewalk.Icmpv6Header` | backend/framewalk.py:343-362 | ICMPv6, quoted packets and neighbour discovery: finds stay placed |
| `Framewalk.Gre` | backend/framewalk.py:375-395 | GRE with any optional fields: finds stay placed |
| `Walker.WalkFrame` | backend/framewalk.py:96-101 | The walker as an object whose methods append to the layout finds what `Walk` says, and refuses exactly the link types it does not know |
| `Walker.HeaderWalker.Link` | backend/framewalk.py:129-139 | Dispatch on the link type refines `Walk` |
| `Walker.HeaderWalker.EtherPayload` | backend/framewalk.py:188-202 | The VLAN loop refines the recursive function |
| `Walker.HeaderWalker.MplsStack` | backend/framewalk.py:204-211 | The label loop refines the recursive function |
| `Walker.HeaderWalker.Ipv4Packet` | backend/framewalk.py:237-255 | Appends in the source order and still leaves the layout the function gives |
| `Walker.HeaderWalker.Ipv6Packet` | backend/framewalk.py:257-287 | The extension-header loop refines the recursive function |
| `Walker.HeaderWalker.UdpDatagram` | backend/framewalk.py:312-332 | Refines the function, tunnels included |
| `Walker.HeaderWalker.NdOptionList` | backend/framewalk.py:364-373 | The option loop refines the recursive function |
| `PacketsFound.WalkFindsThePacket` | backend/framewalk.py:96-101 | For every packet built field by field (Ethernet with VLAN tags; MPLS, PPPoE, ARP, IPv4 with options and fragments, IPv6 with extension headers; TCP, UDP, ICMP, ICMPv6 and neighbour discovery; VXLAN, Geneve, GRE, IP in IP and quoted packets, up to eight tunnels deep, padded or not) the walk reads back as exactly its addresses in order, its checksums with the bytes they cover and the addresses they add, the ports of its innermost transport header, and its payload |
| `PacketsFound.FrameFound` | backend/framewalk.py:141-147 | The same at any offset and depth, after any earlier finds |
| `PacketsFound.TaggedFound` | backend/framewalk.py:188-202 | Any number of VLAN tags is passed over |
| `PacketsFound.MplsFound` | backend/framewalk.py:204-211 | The labelled packet is found at the bottom of the label stack, not before |
| `PacketsFound.PppoeFound` | backend/framewalk.py:213-221 | The packet in a PPPoE session is found |
| `PacketsFound.ArpFound` | backend/framewalk.py:223-233 | The four addresses of an Ethernet/IPv4 ARP message are found |
| `PacketsFound.Ip4Found` | backend/framewalk.py:237-255 | Both addresses, the header checksum over header and options, and, in an unfragmented or first-fragment packet, what its body carries |
| `PacketsFound.Ip6Found` | backend/framewalk.py:257-287 | Both addresses, and what the body behind the extension headers carries |
| `PacketsFound.ExtensionsPassed` | backend/framewalk.py:266-285 | Any chain of extension headers, with their three length rules, ends at the transport header |
| `PacketsFound.TcpFound` | backend/framewalk.py:305-310 | The checksum over the segment with both addresses, and the payload behind the options |
| `PacketsFound.UdpFound` | backend/framewalk.py:312-332 | The checksum over the datagram, unless it is a zero over IPv4 |
| `PacketsFound.VxlanFound` | backend/framewalk.py:312-332 | The outer checksum and everything in the inner frame |
| `PacketsFound.GeneveFound` | backend/framewalk.py:312-332 | The outer checksum and everything behind the Geneve options, bridged or routed |
| `PacketsFound.IcmpFound` | backend/framewalk.py:334-341 | The ICMP checksum, and everything in the packet an error quotes |
| `PacketsFound.Icmp6Found` | backend/framewalk.py:343-362 | The ICMPv6 checksum, and everything in the packet an error quotes |
| `PacketsFound.DiscoveryFound` | backend/framewalk.py:343-373 | A neighbour discovery message: target and destination, link-layer addresses and prefixes in its options |
| `PacketsFound.GreFound` | backend/framewalk.py:375-395 | The optional checksum, and everything behind the optional fields |
| `PacketsFound.WalkFindsRawIp` | backend/framewalk.py:179-186 | The same for raw IP captures |
| `PacketsFound.WalkFindsLoopback` | backend/framewalk.py:165-177 | And for BSD loopback, in either byte order where the type allows both |
| `PacketsFound.WalkFindsCooked` | backend/framewalk.py:149-155 | And for Linux cooked v1, with the link address only when its length is six |
| `PacketsFound.WalkFindsCooked2` | backend/framewalk.py:157-163 | And for Linux cooked v2 |
| `Rewalk.WalkAgain` | backend/framewalk.py:96-139 | For every frame and link type: a frame of the same length that differs only in found addresses, found checksums and plain TCP or UDP payload, and zeroes no checksum, is walked to the very same layout |
| `Rewalk.EthernetAgain` | backend/framewalk.py:141-147 | The same from any header on, with any finds before it, and everything found from there lies behind where the header starts |
| `Rewalk.EthertypeAgain` | backend/framewalk.py:188-202 | Through VLAN tags to every kind of packet the type announces |
| `Rewalk.MplsAgain` | backend/framewalk.py:204-211 | Through the label stack and the version nibble looked at behind it |
| `Rewalk.Ipv4Again` | backend/framewalk.py:237-255 | Through header length, fragment offset, total length and protocol number |
| `Rewalk.SkipAgain` | backend/framewalk.py:266-285 | Any chain of extension headers is passed over in the same way |
| `Rewalk.UdpAgain` | backend/framewalk.py:312-332 | Through both tunnels; and since a zero checksum over IPv4 is not listed and a listed one is not made zero, the same checksums are listed again |
| `Rewalk.NdAgain` | backend/framewalk.py:364-373 | Through the options of neighbour discovery, whose addresses are found among the bytes that are read |
| `Rewalk.GreAgain` | backend/framewalk.py:375-395 | Through the flags and optional fields of GRE |
| `Cutting.CutWalk` | backend/framewalk.py:96-139 | For every frame, link type and captured length: the addresses found in the first bytes are the first of the whole frame's, and exactly those asked for within them: 14 bytes for an Ethernet header, 20 for IPv4, 40 for IPv6, 16 and 20 for the cooked ones, the address itself in ARP and neighbour discovery; the checksums found are the first ones too, their coverage cut |
| `Cutting.EthernetCut` | backend/framewalk.py:141-147 | The same from any header on: both addresses or neither |
| `Cutting.ArpCut` | backend/framewalk.py:223-233 | Each of the four addresses as far as it is captured |
| `Cutting.Ipv4Cut` | backend/framewalk.py:237-255 | Both addresses exactly when the fixed header is there, the checksum only when the options are there too, and whatever follows |
| `Cutting.Ipv6Cut` | backend/framewalk.py:257-287 | Both addresses exactly when the fixed header is there, and whatever follows the extension headers |
| `Cutting.SkipCut` | backend/framewalk.py:266-285 | Extension headers are passed over alike up to the cut |
| `Cutting.UdpCut` | backend/framewalk.py:312-332 | Through both tunnels, the checksum covering what is captured |
| `Cutting.NdCut` | backend/framewalk.py:364-373 | Options up to the cut, each address found if it is held |
| `Cutting.GreCut` | backend/framewalk.py:375-395 | Also where the cut falls between the GRE checksum and the end of the GRE header |
| `Bpf.SplitTokens` | backend/bpf.py:125-147 | The one-pass splitter computes the function the lemmas are about, unbalanced brackets included |
| `Bpf.StripTokens` | backend/bpf.py:150-168 | The stripping loop likewise |
| `BpfSoundness.SplitIsChains` | backend/bpf.py:125-147 | A filter's tokens are cut exactly between its own top-level operators |
| `BpfSoundness.ChainIsNotWrapped` | backend/bpf.py:150-168 | Brackets that close before the end stay on |
| `BpfSoundness.GroupStrips` | backend/bpf.py:150-168 | Brackets around a whole filter come off |
| `BpfSoundness.TermIsMet` | backend/bpf.py:171-223 | A filter read as one port term that holds of a packet is met by that packet, negations and outer brackets considered |
| `BpfSoundness.DisjunctionIsMet` | backend/bpf.py:226-277 | A disjunction of port terms that holds of a packet is met by it, in both readings of `and` and `or` |
| `BpfSoundness.CollectIsImplied` | backend/bpf.py:226-277 | Whatever its primitives mean, a filter that holds of a packet meets every constraint collected from it |
| `BpfSearch.Search` | backend/bpf.py:308-333 | The nested loops find a solution exactly when one exists among the candidates |
| `BpfSearch.SeenIsEnough` | backend/bpf.py:336-344 | Each packet meets a constraint exactly when its image among the candidates does |
| `BpfSearch.RefutedMeansUnmet` | backend/bpf.py:308-333 | Constraints the search refutes are met by no packet, with any ports |
| `BpfSearch.SearchIsExact` | backend/bpf.py:308-333 | With at most 64 named ports, all 16-bit: the search succeeds exactly when some real packet meets the constraints |
| `BpfSearch.WhenTheSearchIsExact` | backend/bpf.py:308-333 | For every set of ports: all constraint lists naming exactly these ports are decided exactly (found satisfiable if and only if some packet with 16-bit ports meets them) if and only if the ports are at most 64 and all below 65536 |
| `BpfSearch.OutOfRangePortsPass` | backend/bpf.py:308-333 | Without the range check that fails: `port 70000 and port 80` is found satisfiable |
| `BpfSearch.SixtyFivePortsPass` | backend/bpf.py:308-333 | Nor with more ports than are tried: `portrange 1-65 and port 100 and port 200` is taken for satisfiable, though its ports are all of 16 bits and no packet has three |
| `BpfSearch.SearchIsExactOnceClipped` | backend/bpf.py:308-333 | With at most 64 ports below 65536 named and any number above: a real packet meets the list exactly when the search succeeds on it with the ports above 65535 removed |
| `BpfSearch.AreDisjoint` | backend/bpf.py:398-403 | The pairwise loop answers exactly whether no two sets share a port |
| `BpfSearch.DisjointMeansOppositeEnds` | backend/bpf.py:378-395 | Two or more constraints over disjoint ports that one packet meets are exactly two, one at each end |
| `BpfSearch.StructuralCheck` | backend/bpf.py:347-395 | The check as the source runs it gives the verdict the theorems are about |
| `BpfSearch.MatchesNothingIsSound` | backend/bpf.py:347-373 | "This filter cannot match any packet" is true of every packet, whatever the unparsed primitives mean, both when `or` binds loosest and when `and` and `or` are equal |
| `BpfSearch.CrossServiceIsSound` | backend/bpf.py:376-395 | "This filter matches only traffic between these services" is true: a matching packet has one service at each end |
| `Copies.Sight` | backend/packet_parser.py:986-1007 | One line of the pass makes the detector's step: mark, word, count and tables |
| `Copies.FindInterfaceCopies` | backend/packet_parser.py:955-1015 | The loop over the lines, with tables rebuilt every so often, computes the forgetting detector's words and count |
| `Copies.ForgettingIsHarmless` | backend/packet_parser.py:986-1015 | One line: what was forgotten could not have matched, and what is learned is learned by both |
| `Copies.PruningIsInvisible` | backend/packet_parser.py:1012-1015 | When no line's time comes back into a window it has left, the forgetting detector's marks, at any interval, are those of one that never forgets, and its tables lack only what has aged out |
| `Copies.OrderedTimesStayOut` | backend/packet_parser.py:1012-1015 | Timestamps that never go back meet that condition |
| `Copies.ForgettingShows` | backend/packet_parser.py:1012-1015 | Where a time does come back, two sightings of one packet at those times lose their mark at some interval |
| `Copies.PruningIsInvisibleExactly` | backend/packet_parser.py:1012-1015 | So for any list of timestamps: forgetting changes no mark, whatever the packets and the interval, if and only if the condition holds |
| `Copies.MarkedIsACopy` | backend/packet_parser.py:987-1011 | Whatever the timestamps and the interval of forgetting, a mark the pass writes points to an earlier frame that is itself unmarked and on another interface; an exact copy has its addresses and fields, a translated one exactly one address of the two |
| `Copies.CopiesAreOnDifferentInterfaces` | backend/packet_parser.py:994-1007 | Two marks of the same kind with one original are never on one interface, whatever the timestamps and the interval |
| `Copies.WordIsMark` | backend/packet_parser.py:850-870 | The word the pass writes for a frame is its mark packed, whatever the timestamps and the interval |
| `Copies.NoLineNoWord` | backend/packet_parser.py:850-870 | A frame on no line has no word |
| `Copies.CountIsMarked` | backend/packet_parser.py:994-1001 | `count` is the number of frames the pass marks, whatever the timestamps and the interval |
| `Copies.WordsDecode` | backend/packet_parser.py:863-870 | Original and translated bit decode from the packed word exactly for first frames below 2^31 |
| `Copies.HugeFrameNumbersMisread` | backend/packet_parser.py:833-870 | A run on frames 2^31 + 5 and 2^31 + 6, one packet on two interfaces: the second reads back as a translated copy of frame 5, at every interval |
| `Copies.MarksReadBack` | backend/packet_parser.py:863-870 | Every frame below 2^32 reads back from the array as unmarked, or, exactly when its original is below 2^31, as a copy of the frame and the kind it was marked with |
| `Aggregation.InsertAddsAlongThePath` | backend/packet_parser.py:1281-1287 | One packet adds one frame and its length at every prefix of its layers and nowhere else |
| `Aggregation.ProtocolHierarchy` | backend/packet_parser.py:1274-1287 | There is a node for every path some packet takes, and it holds the totals over the packets whose layers begin with it |
| `Aggregation.Counted` | backend/packet_parser.py:1361-1382 | The byte per frame decides exactly which rows repeat a counted frame |
| `Aggregation.CopiesCountOnce` | backend/packet_parser.py:1369-1382 | No exact copy is kept once its original has been |
| `Aggregation.CountedAreUnmarked` | backend/packet_parser.py:1369-1382 | The two passes agree: over a whole capture with frames below 2^31, the rows counted are exactly those with two addresses that the first pass did not mark as exact copies, whatever the timestamps and the interval of forgetting |
| `Aggregation.PairIgnoresDirection` | backend/packet_parser.py:1395 | Both directions fall under one pair |
| `Aggregation.AddToPairs` | backend/packet_parser.py:1395-1405 | One row raises its own direction of its own pair, and nothing else |
| `Aggregation.AddToEndpoints` | backend/packet_parser.py:1390-1393 | One row raises each of its two ends once, an address talking to itself twice |
| `Aggregation.PairsConserve` | backend/packet_parser.py:1356-1410 | Over any table with one entry for each pair seen, packets and bytes add up to the counted rows |
| `Aggregation.EndpointsConserve` | backend/packet_parser.py:1356-1410 | Over one with an entry for each address, to exactly twice that |
| `Aggregation.GetConversations` | backend/packet_parser.py:1356-1410 | Both tables hold for each key what the counted rows of each direction come to, each key once, and nothing is lost or doubled |
| `Envelope.AnIdealCipherExists` | backend/crypto.py:105-115 | The assumptions on the cipher are consistent: a toy cipher meets them, with different ids for some keys |
| `Envelope.HeaderOpens` | backend/crypto.py:122-170 | A header opens to its data key under its own key, and names the wrong key under another |
| `Envelope.SealChunks` | backend/crypto.py:177-187 | The sealing loop writes the header, each non-empty chunk under its index, and the terminator |
| `Envelope.ReadNext` | backend/crypto.py:227-250 | One turn of the reading loop reads one record, or says why not |
| `Envelope.OpenStream` | backend/crypto.py:221-252 | The reading loop opens a file as the recursive function does |
| `Envelope.BodyOpens` | backend/crypto.py:221-252 | A sealed body opens to its chunks, whatever follows the terminator |
| `Envelope.FileOpens` | backend/crypto.py:177-252 | A sealed object opens to exactly the chunks that went in |
| `Envelope.NonEmptyKeepsText` | backend/crypto.py:177-187 | Skipping empty chunks loses no text |
| `Envelope.TruncationIsRefused` | backend/crypto.py:227-250 | Every strict prefix of a sealed body is refused |
| `Envelope.TruncatedFileIsRefused` | backend/crypto.py:221-252 | And every strict prefix of a sealed object |
| `Envelope.OnlyInPlaceOpens` | backend/crypto.py:189-193 | A stream put together from an object's own records, in any order and number, opens exactly when the records up to its first terminator are all of them in place |
| `Envelope.OnlySealedOpens` | backend/crypto.py:221-252 | Whatever opens is the seal of the chunks it opened to, under some nonces |
| `Sealing.Sealer.Seal` | backend/crypto.py:273-280 | Emits the next record, or nothing for empty text, and refuses after the end |
| `Sealing.Sealer.Finish` | backend/crypto.py:282-287 | Emits the terminator once; what was emitted is then the sealed body of the texts |
| `Sealing.AdmitRead` | backend/capture.py:655-666 | A read that is refused makes the whole body unacceptable |
| `Sealing.WriteChunk` | backend/capture.py:704-713 | A read of any size is cut, sealed and written with nothing lost |
| `Sealing.ReceiveBody` | backend/capture.py:648-671 | However the body arrives, it is refused only if it is unacceptable, and otherwise sealed whole |
| `Sealing.WriteSealedUpload` | backend/capture.py:637-675 | Accepted exactly when the size is in range and the first four bytes are a known magic, whatever the reads; what is stored is the sealed body |
| `Sealing.PrefixDecides` | backend/capture.py:677-702 | Too long or wrong in a prefix is too long or wrong in the whole |
| `Sealing.StoredUploadOpens` | backend/capture.py:637-675 | What is stored opens to the body |
| `Rekey.RewrappedOpens` | backend/rekey.py:139-195 | A re-wrapped object opens under the new key to what it held under the old one |
| `Rekey.DataKeysAreFullLength` | backend/crypto.py:126-165 | Whatever a header unwraps to under an ideal cipher is a data key of 32 bytes, so re-wrapping never refuses one |
| `Rekey.WriteCopy` | backend/rekey.py:160-178 | With a fault at any write, only the temporary file changes; a copy of the right length is right |
| `Rekey.ReplaceWithCopy` | backend/rekey.py:160-195 | The original is replaced only by a verified copy; a failure leaves it as it was |
| `Rekey.RekeyFile` | backend/rekey.py:139-195 | With a crash or fault at any step the file is its old self or re-wrapped, and other files are untouched |
| `Rekey.RekeyTarget` | backend/rekey.py:208-226 | One target of a run keeps every original intact but the one, if any, that has its temporary name |
| `Rekey.RekeyAll` | backend/rekey.py:198-229 | Whatever fails and wherever it stops, every original is intact whose name is not a target's temporary name; outcomes account for every target; undisturbed, it does the per-file decisions in turn and reaches the end |
| `Rekey.IntactOpens` | backend/rekey.py:139-229 | An intact original opens, under one key or the other, to what it held, at its old length |
| `Rekey.StaysIntact` | backend/rekey.py:139-195 | Intactness of all others survives each rotation, wherever it stops |
| `Rekey.RunMovesTargets` | backend/rekey.py:198-229 | After an undisturbed run over any targets every original among them is under the new key, unless its name is a target's temporary name |
| `Rekey.RerunFinishes` | backend/rekey.py:198-229 | From whatever state interrupted rotations left, one undisturbed run brings a movable original under the new key, contents unchanged, unless its name is a target's temporary name |
| `Rekey.OnlyTheTemporaryNameIsLost` | backend/rekey.py:160-195 | Rotating a file loses another one exactly when that one has the temporary name |
| `Rekey.PartialNameIsLost` | backend/rekey.py:101-117 | Targets "k" and "k.partial": rotating the first destroys the second |
| `JsonPackets.TakePackets` | backend/sanitizer.py:368-390 | One read: packets handed out and text kept together stand for everything read |
| `JsonPackets.ReadPackets` | backend/sanitizer.py:352-393 | For every way of cutting the stream, packets are those of the whole stream; complete exactly when it does not end inside one; an error only then or for a packet over the limit |
| `JsonPackets.DropBeforeOpening` | backend/sanitizer.py:368-390 | Text dropped before an opening marker loses no packet |
| `JsonPackets.OpenPacketIsLonger` | backend/sanitizer.py:381-386 | The length refused is one the packet really exceeds |
| `Pcap.PcapReader.Fill` | backend/sanitizer.py:768-777 | Reading on and dropping what was consumed never changes what lies ahead |
| `Pcap.PcapReader.Take` | backend/sanitizer.py:779-782 | The next bytes of the stream, whatever chunks they came in |
| `Pcap.PcapReader.GlobalHeader` | backend/sanitizer.py:784-801 | The header is read from the first 24 bytes of the stream, or the file is too short |
| `Pcap.PcapReader.NextRecord` | backend/sanitizer.py:803-815 | One turn of the record loop reads the next record of the whole stream, or ends, or says what is wrong |
| `Pcap.WrittenReads` | backend/sanitizer.py:803-815 | Written records read back as themselves |
| `Pcap.ReadRecordsAreWellFormed` | backend/sanitizer.py:803-815 | A record read has its data length in its header |
| `Pcap.RewriteIsWellFormed` | backend/sanitizer.py:950-961 | A record with new data keeps its timestamp and original length, and its included length is the data's |
| `Pcap.ToBytesReads` | backend/sanitizer.py:950-961 | Lengths are written as they are read, in either byte order |
| `Sanitizer.TsharkPass.Advance` | backend/sanitizer.py:872-881 | Takes the next reported packet, or notes the end, or fails where the stream does |
| `Sanitizer.TsharkPass.PacketFor` | backend/sanitizer.py:883-894 | A packet is given to precisely the record with its number; a failure means the numbers cannot be in step with any capture |
| `Sanitizer.TsharkPass.Finish` | backend/sanitizer.py:896-905 | Succeeds exactly when the reported numbers are in step with the records read and the tool ended cleanly |
| `Sanitizer.AskFor` | backend/sanitizer.py:883-894 | What is known about earlier frames does not change |
| `Sanitizer.SanitizeNext` | backend/sanitizer.py:943-958 | One turn of the loop: the next record with its own packet, or the end, or a failure that nothing read later could mend |
| `Sanitizer.SanitizeRecords` | backend/sanitizer.py:943-958 | Every record in turn, each with the packet of its number |
| `Sanitizer.StreamSanitized` | backend/sanitizer.py:920-965 | For any chunking: finishes exactly when the capture is whole, the numbers reported are strictly increasing within it, no frame disagrees with its packet and the tool ended cleanly; and then every record was rewritten with its own packet |
| `Sanitizer.SanitizedReadsBack` | backend/sanitizer.py:920-965 | The output reads back as one record for each of the original's, in order, with its timestamp and original length, and without stripping its data length |
| `Rewriter.Locate` | backend/sanitizer.py:421-439 | A located field lies in the frame and holds the reported bytes |
| `Rewriter.FrameRewriter.Rewrite` | backend/sanitizer.py:515-532 | The rewrite of a frame with its caches is the one without |
| `Rewriter.FrameRewriter.EditedCopy` | backend/sanitizer.py:536-564 | All edits made and no checksum repaired yet |
| `Rewriter.OnlyNamedBytesChange` | backend/sanitizer.py:515-610 | A rewritten frame differs only in walked addresses of the chosen kinds, located fields and checksum fields |
| `Rewriter.SanitizingKeepsChecksums` | backend/sanitizer.py:515-532 | Each checksum the walker found, at any depth, keeps its residual if and only if the edits left its own value as it was, mod 0xFFFF, which only a field located on it can change |
| `Rewriter.ChecksumsKeptWhateverIsWritten` | backend/sanitizer.py:515-532 | The exact condition on positions: whatever contents are written into the located spots, a checksum keeps its residual, if and only if no located spot touches one of its two bytes |
| `Rewriter.FieldOnAChecksumIsKept` | backend/sanitizer.py:536-564 | A field located on the checksum of a 20-byte IPv4 header and replaced: the sanitized header is wrong by another amount |
| `Rewriter.SanitizingKeepsVerdicts` | backend/sanitizer.py:515-532 | What a receiver makes of a segment, uncaptured tail and all: accepted stays accepted exactly when the checksum's value was left and not all is zero, rejected stays rejected unless all it summed was zero |
| `Rewriter.EveryAddressIsReplaced` | backend/sanitizer.py:515-532 | In the finished frame, checksums repaired and payload stripped or not, every byte of an address the walker found and the options select, unless a located field covers it, is its stand-in's byte, where it stood |
| `SanitizedFrames.SanitizedHasTheLayout` | backend/sanitizer.py:515-532 | A sanitized frame is dissected as the original: same headers, same places of addresses and checksums, same transport and payload start, at any depth of tunnelling, when located fields lie in addresses or plain payload |
| `SanitizedFrames.HeaderFieldsMoveTheLayout` | backend/sanitizer.py:536-564 | A field located on a header need not keep it: a tag type replaced moves the payload start |
| `SanitizedFrames.SanitizedPacket` | backend/sanitizer.py:515-532 | An Ethernet frame built field by field, sanitized and walked again shows the packet's own addresses in order, each chosen one as its stand-in and the others as they were unless a located field covers them, every checksum exactly as right or wrong as the packet's, and the packet's ports |
| `SanitizedFrames.SanitizingCommutesWithCutting` | tests/test_framewalk.py:183-200 | Sanitizing a frame cut short gives what cutting the sanitized frame gives, addresses, located fields and checksums, when the cut frame still shows every address and checksum and no field lies behind the cut |
| `SanitizedFrames.CutPacket` | backend/framewalk.py:96-139 | Of a packet cut at any byte the walker finds exactly the addresses it asks for within the captured bytes, each reading as the packet has it |
| `SanitizedFrames.ShortHeaderLeavesItsSource` | backend/framewalk.py:237-255 | 30 bytes of an Ethernet frame with an IPv4 header: the source address, captured whole, is not found and stays as it was |
| `PrefixMap.Blocks` | backend/anonymize.py:113-119 | One cipher block for each prefix of the address, the rest taken from the pad |
| `PrefixMap.Map` | backend/anonymize.py:113-125 | The batched mask, pad and flip loop is the recursive map: each bit flipped by a function of the bits before it |
| `PrefixMap.BlockIsPrefix` | backend/anonymize.py:113-119 | The block of a bit depends on exactly the bits before it |
| `PrefixMap.MappedPrefix` | backend/anonymize.py:94-125 | The map of a prefix is the prefix of the map |
| `PrefixMap.PrefixesArePreserved` | backend/anonymize.py:94-125 | Two addresses of any width share their first bits, any number of them, exactly when their stand-ins do |
| `PrefixMap.Permutation` | backend/anonymize.py:94-125 | The map is a permutation of the addresses of each width, with the inverse given |
| `Anonymize.AddressMapper.Ipv4` | backend/anonymize.py:160-170 | With any cache history the answer is the uncached one |
| `Anonymize.AddressMapper.Ipv6` | backend/anonymize.py:172-187 | The same, and for mapped addresses through the IPv4 cache |
| `Anonymize.AddressMapper.Mac` | backend/anonymize.py:189-203 | The same for device addresses |
| `Anonymize.StandInReads` | backend/anonymize.py:164-170 | A stand-in written out reads back as the mapped number |
| `Anonymize.SubnetsStaySubnets` | backend/anonymize.py:164-170 | Two replaced IPv4 addresses share exactly as long a prefix as their stand-ins |
| `Anonymize.Ipv6SubnetsStaySubnets` | backend/anonymize.py:172-187 | Two replaced IPv6 addresses share exactly as long a prefix as their stand-ins, over all 128 bits |
| `Anonymize.MappedAddressAgrees` | backend/anonymize.py:176-187 | An IPv4 address has one stand-in, whether it stands alone or inside an IPv6 address |
| `Anonymize.StandInMacIsLocal` | backend/anonymize.py:193-203 | A replaced device address is unicast and locally administered, unless the vendor half is kept |
| `Pseudonyms.Stream` | backend/anonymize.py:228-236 | Digests of successive counters, cut to length |
| `Pseudonyms.Apply` | backend/anonymize.py:238-252 | Each byte replaced in its own class, where it stands |
| `Pseudonyms.Names.Label` | backend/anonymize.py:258-268 | With any cache history the answer is the uncached one |
| `Pseudonyms.LabelDependsOnItsText` | backend/anonymize.py:258-268 | Labels that read the same in lower case, accented ones included, get the same stand-in, except that structural labels keep their own case |
| `Pseudonyms.ClassesAreKept` | backend/anonymize.py:238-268 | A stand-in keeps length and the class of every byte |
| `Pseudonyms.Names.Hostname` | backend/anonymize.py:270-282 | The label-by-label loop is the function the lemmas are about |
| `Pseudonyms.HostnameKeepsShape` | backend/anonymize.py:270-282 | Dots, the length of each label and the last label are kept |
| `Pseudonyms.SuffixesMatch` | backend/anonymize.py:270-282 | Names that share a dotted suffix share its image, at the same place |
| `Pseudonyms.Names.DnsLabels` | backend/sanitizer.py:725-754 | The scanning loop rewrites as the function says, or refuses |
| `Pseudonyms.DnsKeepsStructure` | backend/sanitizer.py:725-754 | A rewritten wire-format name has the same labels in the same places (RFC 1035 sections 3.1 and 4.1.4): no length octet or pointer changes |
| `Limiters.SlidingWindowLimiter.Allow` | backend/auth.py:76-85 | Passes exactly when fewer than the maximum were admitted in the last minute, of all calls ever admitted |
| `Limiters.SlidingWindowLimiter.Prune` | backend/auth.py:90-95 | Drops exactly the stale keys; the admitted calls that decide later answers stay |
| `Limiters.SlidingWindowLimiter.UpdateConfig` | backend/auth.py:87-88 | Changes no history |
| `Limiters.NoMinuteExceedsTheCap` | backend/auth.py:64-85 | No minute, wherever it starts, holds more admitted calls than the cap |
| `Limiters.WindowsWithinTheCap` | backend/auth.py:64-85 | For every positive cap and every length: all runs keep within the cap in every window of that length, both ends counted, if and only if the length is below a minute |
| `Limiters.AClosedMinuteHoldsTwice` | backend/auth.py:76-85 | Counting both ends, a minute holds at most twice the cap of admitted calls, and for every cap a run that reaches twice the cap |
| `Limiters.TrimmingIsHarmless` | backend/auth.py:27-35 | Trimming early is invisible to any later cutoff |
| `Limiters.PruningIsHarmless` | backend/auth.py:47-61 | Deleting stale keys is invisible to any later cutoff |
| `Limiters.RateLimiter.IsLocked` | backend/auth.py:27-35 | Agrees with counting every failure since the reset while the window has not grown past what was trimmed, and never locks a key that count does not |
| `Limiters.CountsFromTheHorizonOn` | backend/auth.py:27-35 | The exact condition: trimmed lists are sure to count as their histories do if and only if the cutoff asked about is not before the latest one anything was trimmed at |
| `Limiters.RateLimiter.RecordFailure` | backend/auth.py:37-40 | Adds one failure to one key |
| `Limiters.RateLimiter.Reset` | backend/auth.py:42-43 | Forgets one key |
| `Limiters.RateLimiter.Prune` | backend/auth.py:49-61 | Drops exactly the stale keys; the failures that decide later answers stay |
| `Limiters.WideningForgets` | backend/auth.py:45-47 | Widening the window can leave a key unlocked that the full history would lock |
| `Captures.ClashIsASharedLink` | backend/capture.py:128-142 | The busy check refuses exactly the pairs that some link would be read by both of, plain "any" reading all |
| `Captures.StatusesOnlyAdvance` | backend/capture.py:725-908 | Over every interleaving, status only moves from running through stopping and transferring to a terminal state that is never left; each coroutine stands where the status says; and a capture that counts has a coroutine that will end it |
| `Captures.EveryRunIsExclusive` | backend/capture.py:345-460 | Over every interleaving, no two counting captures share a link of one server, and they never exceed the largest limit in force |
| `Captures.StepStaysExclusive` | backend/capture.py:387-405 | Each step keeps it; the start because nothing awaits between check and registration |
| `Captures.StepStaysLimited` | backend/capture.py:355-361 | Each step keeps the limit |
| `Captures.RestartsAreSafe` | backend/capture.py:233-241 | A restart begins with nothing active, nothing in conflict and every session answered for: the start every theorem about runs asks for |
| `Captures.CarefulRunsAnswer` | backend/capture.py:749-816 | While no delete begins during a pending launch, every open session is its monitor's or a delete's |
| `Captures.SessionsDoNotOverlap` | backend/capture.py:749-816 | So two open sessions on one link are a delete's and its successor's |
| `Captures.DeletedIsGone` | backend/capture.py:749-816 | And a finished delete leaves no row, session or coroutine |
| `Captures.CarelessDeleteLeaks` | backend/capture.py:462-475 | Whenever a delete begins during a pending launch, one way on is a session nobody closes, and another a deleted row that comes back |
| `Captures.CarefulExactly` | backend/capture.py:749-816 | The exact condition: from a state where every session is answered for, a step is careful if and only if no careful run from there on can end with its capture's session leaked, and if and only if none can end with its deleted row back |
| `Captures.ALeakBlocksNothing` | backend/capture.py:387-405 | A leaked session does not stop a second capture of its link |
| `Captures.StopDuringLaunchIsLost` | backend/capture.py:725-739 | A stop during the launch is never delivered, and stopping again does nothing |
| `CaptureManagers.CaptureManager.Start` | backend/capture.py:345-460 | From the limit check to the registration: the outcome, and exactly one new record |
| `CaptureManagers.CaptureManager.AddUpload` | backend/capture.py:585-586 | An upload is listed, finished from the start |
| `CaptureManagers.CaptureManager.Holder` | backend/capture.py:387-405 | The loop over the captures finds a clash if there is one |
| `CaptureManagers.CaptureManager.ActiveCount` | backend/capture.py:262-263 | The number of captures that count |
| `CaptureManagers.CaptureManager.LaunchFails` | backend/capture.py:468-480 | The record closes itself |
| `CaptureManagers.CaptureManager.LaunchWorks` | backend/capture.py:482-493 | Session, monitor and task registered |
| `CaptureManagers.CaptureManager.Stop` | backend/capture.py:725-739 | Known exactly when listed; interrupts exactly when running with a registered session |
| `CaptureManagers.CaptureManager.BeginDelete` | backend/capture.py:771-785 | Tables emptied and the monitor cancelled before anything is awaited |
| `CaptureManagers.CaptureManager.EndDelete` | backend/capture.py:808-816 | Row, interface set and record go |
| `CaptureManagers.CaptureManager.MonitorBegins` | backend/capture.py:861 | Raises exactly when a delete has been faster |
| `CaptureManagers.CaptureManager.MonitorExited` | backend/capture.py:876-878 | Transferring, and written down |
| `CaptureManagers.CaptureManager.MonitorEnds` | backend/capture.py:880-905 | The terminal status, and the session released if still owned |
| `CaptureManagers.CaptureManager.MonitorClosed` | backend/capture.py:905-908 | The closing row, the task and the interface set |
| `CaptureManagers.CaptureManager.MonitorDropped` | backend/capture.py:845-908 | A cancel delivered before the monitor's first line, or while it closes the session, ends it there |
| `CaptureManagers.CaptureManager.Restore` | backend/capture.py:233-241 | Every saved record listed, the interrupted ones failed |
| `ShellQuoting.SplitUndoesJoin` | backend/ssh_manager.py:605-613 | The shell's word splitting (POSIX.1-2017 XCU sections 2.2 and 2.3) of the joined command returns the argument list, for every list of strings |
| `ShellQuoting.QuotedIsOneWord` | backend/ssh_manager.py:785-791 | A quoted argument is one word, whatever is in it |
| `ShellQuoting.CommandLinesDiffer` | backend/ssh_manager.py:605-613 | Different argument lists never read alike |
| `ShellQuoting.TimeoutIsTwoWords` | backend/ssh_manager.py:612-613 | The unquoted timeout prefix adds two words and changes nothing else |

## Left out

- Captures.EveryRunIsExclusive: is about captures that count; that two open sessions do not overlap
  is `SessionsDoNotOverlap`, under its condition on deletes.
- CaptureManagers.CaptureManager.Start: takes the new id as one never used, as uuid4 gives it, and the
  limit as an argument.
- Aggregation.ProtocolHierarchy: the tree is a value rebuilt along one path, not dictionaries updated in
  place.
- SanitizedFrames.SanitizedHasTheLayout: is about fields located in walked addresses or in TCP and plain
  UDP payload; one on a header can move what follows (`HeaderFieldsMoveTheLayout`). A frame whose payload
  is cut off is not walked again.
- SanitizedFrames.SanitizedPacket: is stated for Ethernet frames.
- SanitizedFrames.SanitizingCommutesWithCutting: says nothing of a cut that loses an address or a checksum;
  `Cutting.CutWalk` says which are lost.
- Rekey.RekeyFile: the refusal of a data key of another length is not modelled, as `DataKeysAreFullLength`
  rules it out.
- Limiters.RateLimiter.IsLocked: after the window has grown one call promises one direction only, since
  what was trimmed is gone; `CountsFromTheHorizonOn` says exactly when. Clock readings are reals.
- Framewalk.Walk: malformed packets are covered by where the walker's finds lie, not by what they read.
- The record object of a capture is an entry of a table of all records ever made, which coroutines
  share, in place of a heap object; rename, the live packet count, narrowing to interfaces and
  shutdown are not modelled.
- The tokeniser of filters, named ports and the inherited-qualifier shorthand: a filter is its token
  list, and a primitive that names no port is an arbitrary test. Digits are ASCII.
- The wording of warnings and errors, and the rendering of filters.
- The NetBIOS, credential and cookie masks: any replacement of the same length. JSON decoding and the
  field catalogue that decides which fields are located.
- The link views of repeat sightings, name resolution, and lines without an address or a timestamp.
- Uploads without a vault, capinfos after an upload, and disks that silently corrupt what they write.
- AES, HMAC, HKDF and scrypt are functions with the properties named in `Envelope` and `Anonymize`.
- Injectivity of the address mapper as a whole: kept ranges are returned as they are, so only the
  inner map is a permutation.
- What the shell does with a first word that is a reserved word or an assignment; quoting is about
  how words are told apart.
- The database, the web routes, SSH, HTTPS certificates, the frontend and the scripts: input and output,
  or thin wrappers.
