# sing-tun in Dafny

This project models six parts of sing-tun in which a fast, stateful or concurrent piece of code has
to agree with something simple, and proves that it does.

- **Receive and segmentation offload** (`GsoSpec`, `GsoProperties`, `GsoSplit`, `Virtio`, `Gro*`,
  `RoundTrip`).  A batch of packets is coalesced in place: slices grow into their capacity, slots
  are swapped on a prepend, per-flow item tables are updated, and merged buffers are described by a
  virtio-net header (section 5.1.6 of the VIRTIO specification).  `GroDevice.HandleGRO` works on real
  arrays and is proved against the value-level steps of `GroModel` and `GroRun`.  The invariant of
  every step leads to one statement about whole batches: the written buffers, read back through
  the virtio header and GSO, are exactly the packets that came in, each once, header field by header
  field (`RoundTrip.IpAlike`, `TcpAlike`, `UdpAlike`), and whatever shares a buffer was vetted first
  (`GroVet`).  Which packets enter the tables and which are merged is stated both ways on their bytes
  (`GroRun.EntryExact`, `GroAccept`).  The one virtio header left open is that of a lone TCP packet whose
  checksum failed validation after it entered its table, which the source leaves as it was.
- **Internet checksums** (`OnesComplement`, `NativeWords`, `GvisorChecksum`, `TsChecksum`,
  `HeaderChecksum`, `UdpHeader`, `RewriteTcp`).  Every summer is proved equal to the word sum of
  section 2 of RFC 1071, and every incremental update (section 3 of RFC 1624) to a recomputation.
  The key relation is `OnesComplement.Rep`: congruent modulo 65535, and zero together.
- **TCP NAT** (`NatPorts`, `TcpNat`, `NatProtocol`, `StackSystem`).  `TcpNat.TCPNat` is the table
  with each method run alone; `NatProtocol` is the same table under every interleaving of lookups
  with its reaper, one event per lock-held region.
- **IPVS DNS bypass** (`IpvsSets`, `IpvsFirewall`, `IpvsBypass`).  Two kernel tables are kept in step
  although any operation may fail; a failed operation leaves the kernel unchanged.
- **Policy routing rules** (`Marks`, `PolicyRules`, `RuleCompiler`, `RuleProperties`, `RuleReach`,
  `UnsetRules`).  The generated list has an evaluator, and facts hold for every configuration and
  packet, up to exactly which packets the rules lead to the tunnel, outside mark mode
  (`RuleReach.TunnelExact`) and in it (`RuleReach.MarkTunnelExact`, `RuleReach.FallbackExact`).
- **Wintun close protocol** (`WintunClose`).  Any number of readers and writers run against one closer;
  every packet received is given back and every packet allocated is sent.

Bytes and machine words are integers in their ranges; wrap-around is written out where the source
has it.  Byte order and address parity, the clock, map iteration order and the outcome of kernel
operations are parameters or nondeterministic choices.  `Wrappers`, `Bytes` and `ByteArrays` hold
shared vocabulary.  `dafny verify dfyconfig.toml` checks everything.

Places where the code and its documentation differ, or where a property has an exact limit:

- `checksumGeneric32Alternate` keeps a 32-bit sum without carry.  It equals the checksum exactly when
  that sum does not wrap into a different residue; buffers of up to 131072 bytes are always
  safe, and `TsChecksum.AlternateTooLong` gives a longer one that fails.
- `ipChecksumFold64` is wrong exactly when all ones meet a carry (`TsChecksum.Fold64Exact`); no caller
  gets there, because a carry chain that starts without carry never ends in all ones with a carry.
- Coalescing only looks at capacity.  A merged packet has a right length field whenever capacities are at
  most twice the offset + 65535, or + 65575 for IPv6, whose field leaves out its header; with one byte
  more, two packets merge into one whose length field is wrong.  `GroCapacity.TcpCapacityExact` and
  `GroCapacity.UdpCapacityExact` state both halves, `GroCapacity.TcpTooLong` and `GroCapacity.UdpTooLong`
  give the packets, and `GroDevice.HandleGRO` asks for capacities within the bound.
- Coalescing ignores the reserved bits beside the TCP header length, so a segment comes back with those of
  the first packet of its buffer: its byte there is restored if and only if the two agree
  (`RoundTrip.OffsetByteExact`), and `GroWire.ReservedLost` gives two packets that are merged and do not.
- Each GRO table has 128 item slices.  A batch may have any number of packets that a sixteen-bit index can
  tell apart, but a packet that opens a 129th flow of its protocol finds the pool empty
  (`GroPool.TurnReadyExact`, `GroPool.TcpPoolRunsOut`); `GroDevice.HandleGRO` asks for no more flows than that.
- A NAT session that is refreshed between the reaper's scan and its sweep survives in every run
  exactly when the timeout is at least one second (`NatProtocol.SurvivalExact`), because a refresh
  within a second of the last one writes nothing.
- Without a given mask the kernel compares a zero packet mark with no bits at all, so a rule for mark
  zero selects everything; `PolicyRules.MarkMatches` follows the kernel.

## Model

| member | source | states |
|---|---|---|
| `OnesComplement.ResumedChain` | internal/gtcpip/checksum/checksum_unsafe.go:25-36 | Summing a then b from the sum and parity a left equals summing a ++ b |
| `GvisorChecksum.ReduceRep` | internal/gtcpip/checksum/checksum_unsafe.go:157-166 | Folding the 64-bit accumulator keeps the residue modulo 65535 and zero-ness |
| `GvisorChecksum.SumShort` | internal/gtcpip/checksum/checksum_unsafe.go:38-57 | The path for buffers under 8 bytes returns the fold of accumulator and bytes |
| `GvisorChecksum.SumAligned` | internal/gtcpip/checksum/checksum_unsafe.go:92-148 | The unrolled carry-chain loop represents the total of the bytes it consumed |
| `GvisorChecksum.CalculateChecksum` | internal/gtcpip/checksum/checksum_unsafe.go:25-155 | For every buffer, initial value, odd flag, start alignment and byte order the result is the RFC 1071 sum, with the parity of the end |
| `GvisorChecksum.Combine` | internal/gtcpip/checksum/checksum.go:37-40 | Combining two partial sums is end-around addition |
| `TsChecksum.Fold32Exact` | internal/tschecksum/checksum.go:606-619 | The 32-bit fold returns the representative of its input |
| `TsChecksum.Fold64Exact` | internal/tschecksum/checksum.go:591-604 | The 64-bit fold returns the representative of its input if and only if the input with carry fits 64 bits |
| `TsChecksum.ChecksumGeneric64` | internal/tschecksum/checksum.go:14-145 | Equals the RFC 1071 sum for every buffer and initial value |
| `TsChecksum.ChecksumGeneric32` | internal/tschecksum/checksum.go:150-273 | Equals the RFC 1071 sum for every buffer and initial value |
| `TsChecksum.ChecksumGeneric32Alternate` | internal/tschecksum/checksum.go:278-462 | Equals the RFC 1071 sum if and only if the 32-bit total does not wrap harmfully, hence for all buffers up to 131072 bytes |
| `TsChecksum.AlternateTooLong` | internal/tschecksum/checksum.go:278-462 | A longer buffer on which the 32-bit Alternate is wrong |
| `TsChecksum.ChecksumGeneric64Alternate` | internal/tschecksum/checksum.go:467-589 | Equals the RFC 1071 sum if and only if the 64-bit total does not wrap harmfully, hence for all buffers up to 2^34 bytes |
| `TsChecksum.AddrPartialChecksum64` | internal/tschecksum/checksum.go:621-642 | The partial sum of an address represents its words on top of what came in |
| `TsChecksum.AddrPartialChecksum32` | internal/tschecksum/checksum.go:644-669 | The same for the 32-bit form |
| `TsChecksum.PseudoHeaderChecksum64` | internal/tschecksum/checksum.go:671-686 | Equals header.PseudoHeaderChecksum |
| `TsChecksum.PseudoHeaderChecksum32` | internal/tschecksum/checksum.go:688-703 | Equals header.PseudoHeaderChecksum |
| `HeaderChecksum.PseudoHeaderTotal` | internal/gtcpip/header/checksum.go:30-40 | The pseudo-header checksum is the fold of addresses, length and protocol together |
| `HeaderChecksum.Update16Exact` | internal/gtcpip/header/checksum.go:46-64 | Replacing one word by incremental update gives the sum of the changed data, if anything else is non-zero |
| `HeaderChecksum.UpdateAddress` | internal/gtcpip/header/checksum.go:71-107 | The loop over an address is the word-by-word update |
| `HeaderChecksum.UpdateWordsExact` | internal/gtcpip/header/checksum.go:71-107 | Updating a whole address incrementally equals summing the new data |
| `HeaderChecksum.Ipv4ScratchValid` | internal/gtcpip/header/ipv4.go:481-577 | A header whose checksum was computed from scratch passes the validity check |
| `HeaderChecksum.SetAddressFromScratch` | internal/gtcpip/header/ipv4.go:379-388 | An address setter with update leaves exactly the checksum a recomputation would |
| `HeaderChecksum.SetSourceAddressWithChecksumUpdate` | internal/gtcpip/header/ipv4.go:379-382 | The setter in place writes that header and nothing else |
| `HeaderChecksum.SetDestinationAddressWithChecksumUpdate` | internal/gtcpip/header/ipv4.go:385-388 | The setter in place writes that header and nothing else |
| `UdpHeader.RefreshedValid` | internal/gtcpip/header/udp.go:139-174 | An updated UDP checksum verifies if the old one did, and is never the zero marker of RFC 768 |
| `UdpHeader.SetPortWithChecksumUpdate` | internal/gtcpip/header/udp.go:139-156 | A port setter keeps a valid datagram valid and its checksum non-zero |
| `UdpHeader.UpdateChecksumPseudoHeaderAddress` | internal/gtcpip/header/udp.go:159-174 | Following an address change keeps a valid datagram valid and its checksum non-zero |
| `RewriteTcp.AddressStep` | stack_system.go:583-605 | Changing an address in the IP header and in the TCP checksum leaves both checksums as computed from scratch |
| `RewriteTcp.TcpScratchValid` | stack_system.go:583-619 | A TCP checksum as computed from scratch passes checksumValid |
| `RewriteTcp.PortStep` | internal/gtcpip/header/tcp.go:421-432 | Changing a port with checksum update leaves both checksums as computed from scratch |
| `RewriteTcp.UpdateChecksumPseudoHeaderAddress` | internal/gtcpip/header/tcp.go:435-447 | A full TCP checksum follows an address change by the word update, a partial one becomes the sum of the new address; nothing else changes |
| `RewriteTcp.SetPortWithChecksumUpdate` | internal/gtcpip/header/tcp.go:421-432 | The port setter writes the port and the updated checksum and nothing else |
| `RewriteTcp.RewriteIPv4TCP` | stack_system.go:583-619 | The packet carries the requested tuple, is otherwise untouched, and keeps from-scratch checksums, or a cleared TCP checksum under offload |
| `GsoSpec.BuildAbsorb` | tun_offload.go:174-240 | A segment does not depend on what its header copy held in the fields that are overwritten |
| `GsoSpec.BuildKeeps` | tun_offload.go:174-240 | A segment carries its payload unchanged and changes only the overwritten fields and, past the first, the IPv4 identification |
| `GsoProperties.SegmentCountIs` | tun_offload.go:172-180 | The loop makes exactly ceil(payload / GSOSize) segments |
| `GsoProperties.PayloadsRejoin` | tun_offload.go:174-180 | The payloads of the first n segments are the first n segment sizes of the payload |
| `GsoProperties.AllPayloadsRejoin` | tun_offload.go:174-240 | The payloads of all segments concatenate to the original payload |
| `GsoProperties.PayloadSizes` | tun_offload.go:177-182 | Every segment but the last is full and the last is not empty |
| `GsoProperties.SequenceNumbers` | tun_offload.go:206-209 | The 16-bit product does not wrap for payloads up to 65536 bytes: segment i has first + i * GSOSize modulo 2^32 |
| `GsoProperties.SegmentFields` | tun_offload.go:186-221 | Told on the bytes of the superpacket, wherever the checksum field does not lie over them: right length fields, IPv4 identification counted up, sequence number, FIN and PSH only on the last segment and every other flag kept, UDP length; every other header byte is kept |
| `GsoProperties.SegmentChecksumValid` | tun_offload.go:226-238 | With the checksum field at an even offset, every segment passes checksumValid |
| `GsoProperties.SegmentHeaderValid` | tun_offload.go:187-200 | Every IPv4 segment passes the header check |
| `GsoSplit.WriteSegment` | tun_offload.go:184-238 | One iteration in place, also over its own input, leaves the segment built from what was read, wherever in HdrLen the checksum field lies |
| `GsoSplit.GSOSplit` | tun_offload.go:93-241 | Each failed check, the single-packet path with its completed checksum (CompletionValid) and the split have their exact outcome, the same whether the input is disjoint from the outputs or starts the first of them |
| `GsoSplit.CompleteAndCopy` | tun_offload.go:105-125 | The single-packet path copies the packet as CompletionValid describes it: with a checksum that verifies if one was asked for, and nothing else changed |
| `GsoSplit.DecideExact` | tun_offload.go:93-170 | A packet is split, passed on whole or refused for its first reasons if and only if its length, version and options say so |
| `GsoSplit.CompletionValid` | tun_offload.go:108-122 | A packet whose checksum field holds the pseudo-header sum passes checksumValid once completed; only that field changes, it changes only when asked, and a UDP checksum is never zero |
| `Virtio.DecodeEncode` | tun_offload_linux.go:58-72 | A header encoded in front of a packet decodes to itself in either byte order |
| `Virtio.ZeroEncodes` | tun_offload_linux.go:66-72 | The zero header is ten zero bytes |
| `Virtio.HeaderLayout` | tun_offload_linux.go:25-32 | Which bytes each field of the header lies in, in either byte order |
| `Virtio.OptionsExact` | tun_linux.go:125-158 | Every accepted option is told field by field from the header, and the header length of a superpacket from its transport header |
| `Virtio.RejectedExact` | tun_linux.go:125-158 | Each rejection happens if and only if the type is unknown, the TCP header is cut off or its length is under 20 |
| `Virtio.HandleVirtioRead` | tun_linux.go:125-158 | A read buffer is rejected for its exact reason (RejectedExact), or passed on with its checksum completed or split as the options in its header say (OptionsExact) |
| `GroGroup.JoinSlice` | tun_offload_linux.go:465-529 | Payload q of a merged buffer lies between q and q + 1 segment sizes |
| `GroGroup.AcceptedCompatible` | tun_offload_linux.go:350-402 | A packet accepted for coalescing agrees with the buffer in options, header lengths and coalescable IP fields |
| `GroGroup.TcpAppendFacts` | tun_offload_linux.go:370-387 | On the accepting path the 16-bit length does not wrap, the buffer is full and the packet continues it |
| `GroGroup.TcpGroupNew` | tun_offload_linux.go:131-147 | A new table item describes its buffer as a group of one |
| `GroGroup.TcpGroupAppend` | tun_offload_linux.go:502-528 | After an append the item still describes numMerged + 1 contiguous segments with header sequence sentSeq |
| `GroGroup.TcpGroupPrepend` | tun_offload_linux.go:471-501 | The same after a prepend, with the new front |
| `GroGroup.UdpGroupNew` | tun_offload_linux.go:236-250 | A new UDP item describes its buffer |
| `GroGroup.UdpGroupAppend` | tun_offload_linux.go:430-459 | After an append the UDP item still describes its datagrams, in arrival order |
| `GroAccept.AppendExact` | tun_offload_linux.go:350-402 | A segment is appended if and only if it has the header length, options and service fields of the buffer, continues its last packet, which is full and not pushed, and is no longer |
| `GroAccept.PrependExact` | tun_offload_linux.go:350-402 | A segment is prepended if and only if it agrees in the same way, ends where the first packet begins, is not pushed and is full, or no shorter than a lone one |
| `GroAccept.ScanMergesExact` | tun_offload_linux.go:607-649 | The scan merges a packet if and only if it passes the checksum check and some item of its flow takes it, and then with the last such item |
| `GroAccept.UdpAppendExact` | tun_offload_linux.go:330-346 | A datagram is appended if and only if the service fields agree, the last datagram is full and it is no longer |
| `GroAccept.UdpMergesExact` | tun_offload_linux.go:837-915 | udpGRO merges a datagram if and only if the last item of its flow can take it, there is room and both checksums are present and pass |
| `GroInvariant.PartitionStep` | tun_offload_linux.go:924-950 | Whatever a step does, every packet so far is carried by exactly one slot at one place |
| `GroSteps.RoomBounds` | tun_offload_linux.go:467-505 | With capacities up to twice the offset + 65535 (65575 for IPv6) a merged packet has at most that many bytes; with capacities up to offset + 65536 and an offset of at least 10, at most 65526 |
| `GroSteps.RoomDecides` | tun_offload_linux.go:467-505 | With checksums valid or not looked at, a merge is accepted exactly when it fits the capacity less twice the offset, whatever that is |
| `GroSteps.MergedGroup` | tun_offload_linux.go:465-529 | A successful coalesce leaves a buffer its updated item describes, within capacity and the longest packet of its family |
| `GroSteps.ScanKeeps` | tun_offload_linux.go:607-649 | The reverse scan over a flow, with merges, deletions and failures, keeps every item describing its buffer |
| `GroRun.TcpEntryKeeps` | tun_offload_linux.go:552-649 | tcpGRO keeps the invariant of the run |
| `GroRun.EntryExact` | tun_offload_linux.go:802-829 | Which packets enter the tables, told by bytes: of an enabled protocol, whole, without options or fragments, with payload and, for TCP, no flags but ACK and PSH |
| `GroUdp.UdpEntryKeeps` | tun_offload_linux.go:837-915 | udpGRO keeps the invariant of the run, including arrival order per flow |
| `GroUdp.StepKeeps` | tun_offload_linux.go:924-950 | Every turn of handleGRO keeps the invariant: carried packets, both tables, toWrite and UDP order |
| `GroTrack.ScanTracks` | tun_offload_linux.go:625-645 | Only unmerged items whose packet fails checksum validation are dropped from a flow, and only when checksums are validated |
| `GroTrack.TrackedStep` | tun_offload_linux.go:924-950 | Every slot to be written keeps a table item or a zero header, or carries a lone TCP packet that failed checksum validation |
| `GroVet.VouchedStep` | tun_offload_linux.go:465-529 | In every run, packets that share a buffer are of an enabled protocol and had, unless checking was off, a valid checksum; datagrams had one at all |
| `GroVet.HonestStep` | tun_offload_linux.go:886-915 | In every run, only items whose datagram fails the checks are marked as known to be invalid |
| `GroVet.UdpMergesInRun` | tun_offload_linux.go:430-459 | Hence in a run a datagram is merged if and only if the last item of its flow can take it, there is room, and it and a lone datagram before it pass the checks |
| `GroAccount.LengthExact` | tun_offload_linux.go:665-680 | The length field written for a merged packet is right exactly when the length fits sixteen bits |
| `GroAccount.TcpLengthExact` | tun_offload_linux.go:665-680 | The same of the whole accounted TCP packet |
| `GroAccount.UdpLengthExact` | tun_offload_linux.go:711-767 | Both length fields of an accounted datagram are right exactly when its length fits |
| `GroAccount.TcpAccountedValid` | tun_offload_linux.go:653-707 | The IPv4 header check passes after accounting, and so does the TCP checksum once whoever reads the virtio header completes it |
| `GroAccount.UdpAccountedValid` | tun_offload_linux.go:711-767 | The same for UDP |
| `GroCapacity.TcpWithinCapacity` | tun_offload_linux.go:465-529 | Within the capacity bound every accepted merge gets a right length field |
| `GroCapacity.TcpTooLong` | tun_offload_linux.go:465-529 | For each family, offset and mode, two valid packets that merge, with one byte of capacity beyond the bound, into one whose length field is wrong |
| `GroCapacity.TcpCapacityExact` | tun_offload_linux.go:465-529 | With capacity up to C, some accepted merge gets a wrong length field if and only if C is more than twice the offset + 65535, or + 65575 for IPv6 |
| `GroCapacity.UdpWithinCapacity` | tun_offload_linux.go:430-459 | Within the bound every accepted merge of datagrams gets right length fields |
| `GroCapacity.UdpTooLong` | tun_offload_linux.go:430-459 | The two datagrams that merge into one with wrong length fields |
| `GroCapacity.UdpCapacityExact` | tun_offload_linux.go:430-459 | The same if and only if for datagrams |
| `GroAccount.TcpAccountedFrame` | tun_offload_linux.go:653-707 | Accounting changes only length and checksum fields and keeps payload, sequence number and flags |
| `GroAccount.UdpAccountedFrame` | tun_offload_linux.go:711-767 | The same for UDP |
| `RoundTrip.LayoutSplits` | tun_offload.go:174-182 | Cut at gsoSize, a merged payload falls apart into exactly the payloads it was joined from |
| `RoundTrip.TcpSuperpacket` | tun_offload_linux.go:653-707 | The accounted TCP buffer is recognised as a well-formed superpacket that is split |
| `RoundTrip.TcpRoundTrip` | tun_linux.go:125-158 | Segment q is packet q again, byte by byte: payload, addresses, ports, sequence and acknowledgement numbers, options, service fields, flags but for a PSH the last one may lose, right lengths, valid checksums |
| `RoundTrip.OffsetByteExact` | tun_offload_linux.go:350-402 | The byte of the header length comes back if and only if its reserved bits are those of the first packet of the buffer |
| `GroWire.ReservedLost` | tun_offload_linux.go:350-402 | For each family, two packets that are merged although the second loses its reserved bits |
| `RoundTrip.UdpSuperpacket` | tun_offload_linux.go:711-767 | The accounted UDP buffer is recognised as a well-formed superpacket that is split |
| `RoundTrip.UdpRoundTrip` | tun_linux.go:125-158 | Datagram q is datagram q again, byte by byte: payload, addresses, ports, service fields, right lengths, valid checksums |
| `RoundTrip.PlainRoundTrip` | tun_offload_linux.go:941-946 | A packet under the zero header comes back unchanged, if it has more than one byte and fits |
| `GroBatch.BatchConserved` | tun_offload_linux.go:924-955 | A whole batch conserves traffic: toWrite increases, and what is written, read back through its virtio header, is every packet, once, as TcpRoundTrip and UdpRoundTrip tell; merged packets were vetted; only the header of a TCP packet that failed checksum validation is left open |
| `GroBatch.UdpInOrder` | tun_offload_linux.go:886-915 | The items of a UDP flow stand in write order and carry its datagrams in arrival order |
| `GroBuffers.Batch.Extend` | tun_offload_linux.go:518-521 | A slice grows into its capacity by exactly the copied bytes |
| `GroBuffers.Batch.Swap` | tun_offload_linux.go:492-494 | Two slots exchange their slices and nothing else changes |
| `GroBuffers.TcpGroTable.Insert` | tun_offload_linux.go:131-177 | An item goes behind its flow; slices in use and in the pool stay 128 together |
| `GroSteps.FlowMerged` | tun_offload_linux.go:149-152 | With one item of a flow replaced, every item of the flow still describes its own buffer |
| `GroSteps.FlowDeleted` | tun_offload_linux.go:154-158 | With one item removed, the others close up and every item still describes its own buffer |
| `GroBuffers.TcpGroTable.Reset` | tun_offload_linux.go:179-185 | Every slice is back in the pool |
| `GroBuffers.UdpGroTable.Insert` | tun_offload_linux.go:236-272 | An item goes behind its flow; slices in use and in the pool stay 128 together |
| `GroUdp.UdpFlowMerged` | tun_offload_linux.go:252-255 | With one item of a flow replaced, every item of the flow still describes its own buffer |
| `GroBuffers.UdpGroTable.Reset` | tun_offload_linux.go:274-280 | Every slice is back in the pool |
| `GroEngine.CoalesceTCPPackets` | tun_offload_linux.go:465-529 | The in-place merge has the outcome of its checks and leaves the merged buffer, swapped on a prepend, or everything untouched |
| `GroEngine.CoalesceUDPPackets` | tun_offload_linux.go:430-459 | The in-place append has the outcome of its checks and leaves the merged buffer or everything untouched |
| `GroEngine.ScanFlow` | tun_offload_linux.go:611-648 | The loop with table updates in place is the scan on values |
| `GroHandle.TcpGRO` | tun_offload_linux.go:552-649 | tcpGRO in place is its step on values, which EntryExact, AppendExact, PrependExact and ScanMergesExact describe by bytes |
| `GroHandle.UdpGRO` | tun_offload_linux.go:837-915 | udpGRO in place is its step on values |
| `GroHandle.HandlePacket` | tun_offload_linux.go:925-951 | One turn of handleGRO in place is its step on values |
| `GroPool.StepOpens` | tun_offload_linux.go:120-177 | After every packet the tables hold exactly the flows of the packets so far: each adds its own and none is forgotten |
| `GroPool.TurnReadyExact` | tun_offload_linux.go:173-177 | In every run the next turn finds the slice it needs if and only if the packets up to it open at most 128 flows of each protocol |
| `GroPool.TcpPoolRunsOut` | tun_offload_linux.go:173-177 | A batch with more TCP flows has a packet that opens a flow when all 128 slices are taken |
| `GroPool.UdpPoolRunsOut` | tun_offload_linux.go:268-272 | The same for UDP |
| `GroApply.AccountTcpItem` | tun_offload_linux.go:656-702 | Length, header checksum, virtio header and pseudo-header sum are written in place |
| `GroApply.AccountUdpItem` | tun_offload_linux.go:714-762 | The same for UDP, with the UDP length |
| `GroApply.ApplyTcpCoalesceAccounting` | tun_offload_linux.go:653-707 | Whatever order the flows come in, every item is accounted for and no other buffer changes |
| `GroApply.ApplyUdpCoalesceAccounting` | tun_offload_linux.go:711-767 | The same for UDP |
| `GroDevice.HandleGRO` | tun_offload_linux.go:924-955 | Fails exactly when some packet is empty or leaves no room for a header; otherwise traffic is conserved byte by byte, merged packets were vetted and UDP flows stay in order, for every batch within the pool and capacity limits |
| `NatPorts.EachPortOnce` | stack_system_nat.go:149-163 | One round visits each port from 10000 to 65535 exactly once |
| `NatPorts.ProbeFirst` | stack_system_nat.go:149-163 | A probe returns the first free port in cyclic order, or none if all tries were taken |
| `NatPorts.AllocatorComplete` | stack_system_nat.go:149-163 | A free port in range is found unless all 55536 are occupied |
| `TcpNat.TCPSession.Refresh` | stack_system_nat.go:101-107 | LastActive becomes the second clock reading if more than a second has passed and stays otherwise, so that no check that read its clock before, with a timeout of at least a second, finds the session idle |
| `TcpNat.TCPNat.AllocatePortLocked` | stack_system_nat.go:149-163 | The loop over portIndex is one round of the prober |
| `TcpNat.TCPNat.Lookup` | stack_system_nat.go:109-138 | A known pair keeps its port and is refreshed; a new pair gets a free port in both maps, and none only when all are taken |
| `TcpNat.TCPNat.LookupBack` | stack_system_nat.go:91-107 | The session of a port is returned and refreshed, or null |
| `TcpNat.TCPNat.CheckTimeout` | stack_system_nat.go:57-89 | Run alone, exactly the sessions idle beyond the timeout leave both maps |
| `NatProtocol.StepKeeps` | stack_system_nat.go:57-138 | Every event keeps the two maps inverse and the reaper's collected sessions in place |
| `NatProtocol.MapsInverse` | stack_system_nat.go:57-138 | In every run addrMap and portMap are inverse to each other |
| `NatProtocol.ReplyFindsPair` | stack_system_nat.go:91-99 | In every run a reply finds the session of exactly the pair that holds its port |
| `NatProtocol.LookupGrants` | stack_system_nat.go:109-138 | A lookup comes back with a port that is recorded as granted to its pair, unless all ports are taken |
| `NatProtocol.GrantAnswered` | stack_system_nat.go:91-138 | In every run, a port once granted to a pair is answered with the session it was granted for, which is that pair's, if and only if that session has not been swept since |
| `NatProtocol.SurvivalExact` | stack_system_nat.go:57-107 | A session refreshed since the reaper read its clock survives the sweep in every run if and only if the timeout is at least one second |
| `NatProtocol.RefreshLost` | stack_system_nat.go:101-107 | For every shorter timeout, a run in which a refreshed session is removed |
| `NatProtocol.IdleSwept` | stack_system_nat.go:57-89 | In every run, when the reaper ends a pass, every session still there was refreshed since it read its clock or was not idle then |
| `NatProtocol.ReaperCanStep` | stack_system_nat.go:57-89 | In every state of a run the reaper has a step to make |
| `NatProtocol.ReaperProgress` | stack_system_nat.go:57-89 | Every step of a pass brings its end closer |
| `NatProtocol.ReaperAlone` | stack_system_nat.go:57-138 | No step of anyone else changes where the reaper is, so every pass can end |
| `StackSystem.ProcessIPv4TCP` | stack_system.go:414-452 | Told on the packet: ignored if and only if its destination is unspecified, broadcast, loopback, multicast or link-local; a reply exactly when it comes from the listener's address and port, and then carries the original tuple reversed; a configured loopback address is answered; every other packet gets the port of its pair unless all are taken; checksums stay right, or are cleared under offload |
| `StackSystem.UnicastExact` | stack_system.go:420-421 | The addresses that are not global unicast, as ranges of numbers |
| `IpvsSets.SortedUnique` | route_ipvs_linux.go:277-293 | A set of destinations has one sorted list |
| `IpvsSets.SortedDestinations` | route_ipvs_linux.go:277-293 | Whatever the iteration order, the result is the sorted list of the set |
| `IpvsSets.DestinationsChanged` | route_ipvs_linux.go:316-326 | The loop detects exactly whether the lists differ |
| `IpvsSets.ChangedIffSetsDiffer` | route_ipvs_linux.go:316-326 | For sorted lists, the lists differ exactly when the sets do |
| `IpvsSets.Difference` | route_ipvs_linux.go:328-340 | The result is the set difference and stays sorted |
| `IpvsFirewall.BuildScript` | route_ipvs_output_linux.go:106-123 | The generated iptables-restore script |
| `IpvsFirewall.ScriptApplies` | route_ipvs_output_linux.go:106-123 | Every script generated from the recorded list applies and leaves a chain with one jump and the new list, or no chain |
| `IpvsFirewall.RecordDecides` | route_ipvs_output_linux.go:106-123 | Generated from any record, a script leaves the new list if and only if the record tells whether the chain is there; a wrong one makes the script fail, or leaves a second jump |
| `IpvsFirewall.NftApplies` | route_ipvs_output_linux.go:61-104 | The same for the nftables transaction |
| `IpvsBypass.RuleInjective` | route_ipvs_linux.go:184-206 | Different destinations have different rules |
| `IpvsBypass.SplitFamilies` | route_ipvs_output_linux.go:26-35 | The destinations of each enabled family, sorted |
| `IpvsBypass.Bypass.ReplaceOutput` | route_ipvs_output_linux.go:42-57 | One family's firewall and record change together, or neither; the kernel stays safe |
| `IpvsBypass.Bypass.UpdateOutput` | route_ipvs_output_linux.go:25-59 | Each family reaches the new list or keeps its record after a failed operation; one failure does not stop the other |
| `IpvsBypass.Bypass.UpdateRules` | route_ipvs_linux.go:148-182 | The returned destinations equal the installed rules whatever failed, every kernel state on the way is safe, and without failure the new set is reached |
| `IpvsBypass.Bypass.Refresh` | route_ipvs_linux.go:123-144 | After any history, a refresh in which nothing fails makes rules and re-routed destinations equal the loaded set for enabled families |
| `Marks.BypassMarkNonZero` | route_dnat_linux.go:103-128 | The bypass mark is not zero and has no bits outside its mask, so an unmarked packet is not exempt |
| `Marks.InputNotBypassed` | route_dnat_linux.go:111-128 | In mark mode an input-marked packet counts as bypassed exactly when the two marks are equal |
| `Marks.SetBypassMark` | route_dnat_linux.go:285-323 | Masking the mark in gives a matching mark and keeps all other bits |
| `Marks.FlipChanges` | route_ipvs_output_linux.go:22-24 | The XOR form always changes the mark, touches no bit outside the mask, and twice restores it |
| `RuleCompiler.HeadRules` | tun_linux.go:647-749 | Marked packets, IPVS backends and excluded ports and users come first, and all lead past the tunnel |
| `RuleCompiler.Interfaces` | tun_linux.go:750-831 | Interfaces are let in or kept out before anything leads into the tunnel, with every jump accounted for |
| `RuleCompiler.TailRules` | tun_linux.go:750-993 | Everything else comes at later priorities, leads into the tunnel for enabled families and is unreachable for others under strict routing |
| `RuleCompiler.Rules` | tun_linux.go:534-1007 | For every option combination the list holds exactly the rules Exact lists, in the order Compiled asks for, or is the list of mark mode, whose meaning MarkTunnelExact and FallbackExact give |
| `RuleProperties.JumpsForward` | tun_linux.go:534-1007 | Every goto target exists in the same family at a strictly larger priority |
| `RuleProperties.AllOwned` | tun_linux.go:534-1007 | Every priority lies in [ruleStart, ruleStart + 10] or is the fallback index in mark mode |
| `RuleProperties.IpvsOwned` | route_ipvs_linux.go:184-206 | So do the rules of the IPVS bypass, which jump to the end of the list |
| `RuleProperties.BypassedSkipsTunnel` | tun_linux.go:571-671 | With the DNAT bypass a marked packet never looks in the tunnel's table, before the fallback of mark mode |
| `RuleProperties.InputReachesTunnel` | tun_linux.go:571-644 | In mark mode, with or without DNAT and with distinct marks, an input-marked packet looks in the tunnel's table first |
| `RuleProperties.ExcludedSkipsTunnel` | tun_linux.go:688-749 | Packets with an excluded port or user never look in the tunnel's table |
| `RuleProperties.BackendSkipsTunnel` | tun_linux.go:672-687 | DNS packets to an IPVS backend never look in the tunnel's table |
| `RuleProperties.OnlyIncludedEnter` | tun_linux.go:750-804 | With interfaces to include, packets from other interfaces never look in the tunnel's table |
| `RuleProperties.ExcludedInterfaceSkips` | tun_linux.go:805-831 | Otherwise packets from an excluded interface never do |
| `RuleReach.StageOf` | tun_linux.go:647-993 | Every rule of an enabled family stands at the priority of the stage that calls for it, and a stage shares its priorities with no other |
| `RuleReach.TunnelExact` | tun_linux.go:534-1007 | Outside mark mode a packet looks in the tunnel's table if and only if the options say so: not marked, not to a backend, not excluded, interface admitted, not left to the Android VPN, and routed by its addresses |
| `RuleReach.DisabledExact` | tun_linux.go:534-1007 | A packet of a disabled family looks in no table, and is unreachable if and only if routing is strict |
| `RuleReach.MarkTunnelExact` | tun_linux.go:571-644 | In mark mode, up to the fallback, a packet looks in the tunnel's table if and only if its family is enabled, it has the input mark and it has not the output mark, or with DNAT the bypass mark |
| `RuleReach.FallbackExact` | tun_linux.go:571-644 | With a fallback behind the rules, every packet of an enabled family looks in the tunnel's table in the end, and no other does |
| `UnsetRules.PolicyTable.Unset` | tun_linux.go:1053-1089 | Every rule of ours is deleted, although deletion is by family and priority, and no other rule is touched |
| `UnsetRules.OthersStay` | tun_linux.go:1053-1089 | A rule outside the eleven priorities, and not at the fallback in mark mode, stays |
| `UnsetRules.UnsetUndoesSet` | tun_linux.go:1053-1089 | Wherever the generated rules were put, unsetting leaves the table it would leave without them |
| `WintunClose.RunningCounts` | tun_windows.go:402-566 | In every run the counter equals operations under way plus packets lent and not yet released; PacketsConserved says what became of the others |
| `WintunClose.PacketsConserved` | tun_windows.go:402-566 | In every run, packets received are packets released, about to be released or lent, and packets allocated are packets sent or about to be |
| `WintunClose.AllGivenBack` | tun_windows.go:402-585 | Once the session has ended, every packet received was released and every packet allocated was sent |
| `WintunClose.NoUseAfterEnd` | tun_windows.go:402-585 | In every run, once the session has ended no session call is under way or can begin, and no packet is held or lent |
| `WintunClose.ClosingProgress` | tun_windows.go:402-566 | With the flag set, every step of an operation brings it closer to leaving, and no step of another changes it |
| `WintunClose.LateOperationLeaves` | tun_windows.go:402-414 | An operation that enters after the flag is set leaves without a trace |
| `WintunClose.CloseCanEnd` | tun_windows.go:569-585 | Once the flag is set, every run can be continued, with nobody entering, until the session has ended |

## Left out

- GsoSplit.GSOSplit: says nothing of the buffers' contents when there are more segments than buffers, beyond the error and the segments written; to split, it asks for transport header and checksum field inside HdrLen and outputs that hold a segment, without which the source indexes out of range or truncates.
- GsoProperties.SegmentChecksumValid: a checksum field at an odd offset, where no transport protocol has one, is not considered.
- GroDevice.HandleGRO: asks for at most 128 flows of each protocol, 65536 packets and bounded capacities, the limits given above, and says nothing of the virtio header of a TCP packet dropped from its table for a wrong checksum, which the source leaves as it was.
- RoundTrip.TcpRoundTrip: IPv4 identification, IPv6 flow label, TCP window, the urgent field, the reserved bits beside the header length and a PSH that a later prepend drops are not restored by the source and not compared.
- RoundTrip.UdpRoundTrip: IPv4 identification and IPv6 flow label are not restored by the source and not compared.
- NatProtocol.MapsInverse: lookups are allowed more interleavings than the locks permit, because a second look under the lock is its own event; the result holds for the fewer real ones.
- RuleReach.TunnelExact: asks for a table of the tunnel's own, other than the main table.
- PolicyRules.Visit: suppress_prefixlength on the main table only affects whether that table's route is taken and is not modelled.
- IpvsBypass.Bypass.Refresh: reading and parsing /proc/net/ip_vs is a parameter; IPv6 zones are not modelled.
- WintunClose.NoUseAfterEnd: assumes that each release function is called once, as ReadPacket's callers must.
- IPv6 variants of rewriteIPv4TCP and processIPv4TCP, UDP and ICMP paths of the system stack, and resetIPv4TCP: the same argument with wider addresses, or packet building.
- Route lists, android callbacks, netlink, nftables, iptables, ioctl, socket and DLL calls: foreign effects; only their tables and outcomes are modelled.
- SIMD checksum code and its generator: assembly; the Go forms carry the property.
- gVisor, mipstack and sing library code.
- NDP, Ethernet and ICMP accessors, string methods, logging, package parsing.
- Wall-clock behaviour beyond a monotone clock and goroutine fairness.
