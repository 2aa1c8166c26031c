# Verified model of the Open vSwitch kernel datapath

This project models six parts of the Open vSwitch kernel datapath, its compatibility code and one
of its measurement sketches, and proves what they are for.

* **Fragmentation and reassembly.** Two senders (IPv4 and IPv6) cut a datagram, each on a fast path
  over ready-made buffers and on a slow copying path. Three receivers (IPv4, IPv6, STT) keep sorted
  lists of pieces with a byte counter. Whatever the order of arrival, the datagram comes out, byte
  for byte, when the last missing piece arrives. The lists are edited in place, on linked buffers.
* **Flow table.** Hash buckets with two links per flow, an array of reference-counted masks that
  grows and shrinks, a cache of probable masks, rehashing, and listing with a cursor. A lookup
  agrees with a scan over "key and mask equals flow key" whatever the cache holds.
* **Action executor.** A recursive interpreter with a level counter, two spare keys and a queue of
  deferred work. It ends for every flow table and does what the action lists say: each action on
  the packet or a clone, each recirculation under its id, each piece of deferred work once and in
  order, each packet given up once, and to each port what a plain reading of the lists sends there.
* **Action list compiler and printer.** Nested netlink attributes are compiled into a growable
  buffer whose length fields are patched afterwards, and printed back. What is stored means what
  was sent, and prints as it.
* **Division by an invariant reciprocal** over all 32-bit operands, and its use to pick a socket.
* **CountMax sketch.** Two-sided error bounds of a weighted majority vote.

## Layout

| file | content |
|---|---|
| `Pieces.dfy`, `InetFrag.dfy` | pieces of a datagram, the counting test, fragments and queues as values |
| `SkbList.dfy` | the linked list of buffers and the surgery on it |
| `Ipv4Reassembly.dfy`, `Ipv4Queue.dfy`, `Ipv4RoundTrip.dfy`, `Ipv4Outcome.dfy` | the IPv4 queue: on values, in place, when it delivers, and what any fragment comes to |
| `Ipv6Reassembly.dfy`, `Ipv6Queue.dfy`, `Ipv6RoundTrip.dfy`, `Ipv6Outcome.dfy` | the same for IPv6 |
| `IpOutput.dfy`, `Ip6Output.dfy` | the senders and the end-to-end round trips |
| `SttChain.dfy`, `SttTable.dfy`, `SttRuns.dfy`, `SttPerCpu.dfy` | the STT chain, the slot table on values, its runs, and the table in place |
| `FlowKey.dfy`, `FlowInstance.dfy`, `MaskArray.dfy`, `FlowLookup.dfy`, `FlowTable.dfy`, `FlowDump.dfy` | the flow table |
| `ActionTrace.dfy`, `ActionFates.dfy`, `ActionEvents.dfy`, `ActionHandling.dfy`, `ActionMeaning.dfy`, `Executor.dfy` | what executing actions may do, its properties, what lists mean, and the executor in place |
| `Netlink.dfy`, `ActionCodec.dfy`, `ActionAcceptance.dfy`, `StoredActions.dfy`, `ActionBuffer.dfy` | attributes as bytes, the compiler and printer as functions, which lists are accepted, what the executor reads in the stored form, and compiler and printer in place |
| `ReciprocalDiv.dfy`, `CountMax.dfy` | the division and the sketch |
| `HashSegments.dfy`, `Wrappers.dfy` | shared small definitions |

Where the source changes state step by step there are two layers: a function on values, about which
the properties are proved, and a class whose methods change fields, arrays and links in place and
are proved to compute exactly that function. Where the source also depends on its surroundings
(the executor) the first layer is a relation: a record of what was done, rules that say which
records are allowed, theorems about all allowed records, and methods proved to leave one behind.

## What the proofs found

* The IPv4 fast path keeps its promise exactly when the last buffer is not empty. An empty last
  fragment tells the queue the length but is dropped before the completion test, so nothing is
  delivered if it arrives last (`IpOutput.FastPathExact`).
* For IPv6 the same holds of the fast path (`Ip6Output.FastPathExact`), and the fragments the queue
  refuses are exactly the empty ones (`Ipv6RoundTrip.CutArrives`).
* The slow paths finish exactly when a fragment has room for eight data bytes or the payload fits.
  Otherwise they emit empty fragments until an allocation fails (`IpOutput.SlowPathFinishes`).
* A repeated IPv6 fragment is an overlap. Repeated before completion it kills the datagram for good
  (`Ipv6RoundTrip.RoundTrip`).
* All lines of a CountMax sketch index with the same hash, since the mask drawn for a line is not
  used, so more lines do not sharpen the answer (`CountMax.CountMaxSketch.Query`).
* A packet is left unsettled exactly when its flow key cannot be extracted again at a recirculation
  that is the last action, or at a connection tracking action (`ActionHandling.UnsettledExactly`, with
  `ActionHandling.UnsettledWitness`).
* The congestion mark of the segment of an STT packet that arrives first is lost when another one
  becomes the first buffer and no other one is marked (`SttChain.MarkExactly`, `SttChain.MarkLost`).
* The single doubling in `reserve_sfa_size` is enough for every request of a list without connection
  tracking and tunnel sets, because its stored form takes at most two bytes per byte of input
  (`ActionBuffer.StoreSize`). A connection tracking action stores far more than it is sent as;
  `ActionBuffer.PlacedExactly` gives the condition under which one doubling is enough, and
  `ActionBuffer.SetsThenTracking` the lists of a simple kind that meet it and those that do not.
* The printer drops flag bits of attribute types, padding and the order of the two attributes of a
  sample, and nothing else (`ActionCodec.SameBytes`).

## Model

| member | source | states |
|---|---|---|
| Pieces.CounterMeansComplete | linux/compat/ip_fragment.c:593-594 | for disjoint pieces below a limit, the byte counter equals the limit exactly when the pieces tile it, and exactly when every position is covered |
| Pieces.GlueTiling | linux/compat/ip_fragment.c:691-702 | gluing a tiling of pieces of a datagram returns the datagram's bytes |
| Pieces.NeighboursSuffice | linux/compat/nf_conntrack_reasm.c:277-284 | testing the two list neighbours finds an overlap exactly when some queued piece overlaps |
| Pieces.InsertKeeps | linux/compat/nf_conntrack_reasm.c:288-302 | inserting a piece that hits no neighbour keeps the list sorted and disjoint, and adds exactly its bytes and positions |
| SkbList.FragQueue.Locate | linux/compat/ip_fragment.c:493-503 | the search, with its shortcut behind the tail, finds the two neighbours of a position |
| SkbList.FragQueue.LinkIn | linux/compat/ip_fragment.c:563-570 | the pointer assignments insert the buffer between its neighbours and keep head, tail and links right |
| SkbList.FragQueue.Unlink | linux/compat/ip_fragment.c:543-553 | taking out an overridden buffer keeps the rest of the list as it was |
| SkbList.FragQueue.SwapHead | linux/compat/ip_fragment.c:633-650 | turning the buffer just received into the list head by clone and morph keeps the sequence of pieces, wherever the buffer was, and makes it the head |
| SkbList.FragQueue.MorphHead | linux/compat/nf_conntrack_reasm.c:399-421 | the same for IPv6, where the predecessor is searched for |
| SkbList.Gather | linux/compat/ip_fragment.c:691-705 | the head ends up holding the payload of all buffers in list order |
| Ipv4Reassembly.ReceiveKeepsSound | linux/compat/ip_fragment.c:424-610 | every fragment, accepted, trimmed, swallowed or rejected for any reason including lack of memory half way, keeps the list sorted, disjoint, non-empty piece by piece and below the known length, and the counter equal to the bytes held |
| Ipv4Reassembly.ReachableCounterTest | linux/compat/ip_fragment.c:593-594 | in every reachable queue the completion test holds exactly when the last fragment is known and no position is missing |
| Ipv4Reassembly.OverlapRule | linux/compat/ip_fragment.c:424-559 | after any fragment that is not dropped a position, of the queue or of the datagram completed, shows the byte of the previous piece where that covers it, otherwise the newcomer's byte where the newcomer covers it, otherwise what it showed before |
| Ipv4Outcome.Outcome | linux/compat/ip_fragment.c:424-665 | for every sound queue and every fragment: refused without effect exactly if its end contradicts what is known; dropped exactly if empty or hidden behind an earlier piece; otherwise linked in with its codepoint, and the queue finished exactly if the last fragment is known and nothing is missing, the datagram then being refused for a forbidden combination of codepoints or for its size, or delivered |
| Ipv4Outcome.ServicesOnlyFail | linux/compat/ip_fragment.c:481-559 | a kernel service that fails can only turn that answer into lack of memory |
| Ipv4Outcome.StaleIsAfresh | linux/compat/ip_fragment.c:392-421 | a stale queue treats a fragment as one that nothing has ever arrived at, or is killed if its timer cannot be armed again |
| Ipv4Outcome.FinishedForGood | linux/compat/ip_fragment.c:434-435 | a finished queue takes nothing any more |
| Ipv4Queue.RecordEnd | linux/compat/ip_fragment.c:455-479 | the checks on the end of a fragment, in place, are those of the value-level step |
| Ipv4Queue.EatOverlapped | linux/compat/ip_fragment.c:528-559 | the trimming loop removes covered successors and cuts the last one, also when pulling fails half way |
| Ipv4Queue.IpFragReasm | linux/compat/ip_fragment.c:615-690 | reassembly either fails with the source's error or turns the received buffer into the datagram |
| Ipv4Queue.IpFragQueue | linux/compat/ip_fragment.c:424-610 | one fragment, on the linked list, gives exactly the queue and verdict of the value-level step, and a delivered datagram sits in the received buffer |
| Ipv4Queue.Restart | linux/compat/ip_fragment.c:392-421 | a queue that is started afresh is empty and knows nothing |
| Ipv4RoundTrip.DeliversWhenFull | linux/compat/ip_fragment.c:424-705 | fragments that agree with a datagram, in any order, with repetitions and with overlaps between different cuts, deliver exactly the datagram exactly when the last missing byte arrives |
| Ipv4RoundTrip.RoundTrip | linux/compat/ip_fragment.c:424-705 | fragments of one cut deliver the datagram exactly at the arrival of the last missing one |
| Ipv4RoundTrip.CutArrives | linux/compat/ip_fragment.c:424-705 | whatever the order and the repetitions, once every fragment has arrived the datagram has been delivered |
| Ipv4RoundTrip.EmptyLastIsLost | linux/compat/ip_fragment.c:478-479 | an empty last fragment that arrives last is dropped before the completion test, and nothing is ever delivered |
| IpOutput.SlowPath | linux/compat/ip_output.c:299-407 | the copying loop sends the specified sequence of fragments, or its beginning when memory runs out |
| IpOutput.SlowPathFinishes | linux/compat/ip_output.c:318-327 | the loop ever ends with success exactly when a fragment has room for eight bytes or the payload fits |
| IpOutput.SlowPathCuts | linux/compat/ip_output.c:318-406 | the fragments tile the datagram, all but the last are marked and hold whole units, none is empty or too large |
| IpOutput.RefragmentAgrees | linux/compat/ip_output.c:311-312 | cutting a fragment further keeps its pieces part of the same datagram and covers exactly what it covered |
| IpOutput.FastPath | linux/compat/ip_output.c:242-274 | the sending loop, which prepares the next header before the current buffer goes, sends one fragment per buffer at the right positions |
| IpOutput.FastPathExact | linux/compat/ip_output.c:201-274 | the fast path's fragments always arrive as the datagram exactly when the last buffer is not empty |
| IpOutput.WithinLimit | linux/compat/ip_output.c:183-191 | no packet sent is larger than the limit, headers included; buffers that are ready are sent as they are; otherwise every packet but the last is filled up to its last eight bytes |
| IpOutput.DoFragment | linux/compat/ip_output.c:156-409 | what is sent on either path and when it succeeds; no packet larger than the link takes or than the largest fragment received; the fast path exactly for buffers that are ready, and otherwise packets filled up |
| IpOutput.FragmentSentOn | linux/compat/ip_output.c:311-312 | a packet that is a fragment itself is sent on as fragments of the same datagram that cover what it covered |
| IpOutput.SentCuts | linux/compat/ip_output.c:201-406 | what either path sends of a whole datagram is a cut of it |
| IpOutput.Ipv4RoundTripHolds | linux/compat/ip_output.c:156-409 | either path's fragments, fed to a queue in any order with any repetitions, deliver exactly the payload at the arrival of the last missing fragment that carries something, and nothing at any other arrival |
| IpOutput.UnitsFit | linux/compat/ip_output.c:371 | positions of a legal datagram fit the 13-bit field |
| Ipv6Reassembly.ReceiveKeepsSound | linux/compat/nf_conntrack_reasm.c:173-323 | every fragment keeps the list and counter invariant |
| Ipv6Reassembly.OverlapKills | linux/compat/nf_conntrack_reasm.c:268-320 | a fragment that passes the length checks kills the queue exactly when it overlaps any queued fragment, and is taken over unchanged otherwise (section 4 of RFC 5722) |
| Ipv6Reassembly.DeadStaysDead | linux/compat/nf_conntrack_reasm.c:181-184 | a killed queue accepts and completes nothing, for good |
| Ipv6Outcome.Outcome | linux/compat/nf_conntrack_reasm.c:173-464 | the same for IPv6: refused without effect exactly if the end is beyond the maximum, off a unit though more is to come, or contradicts what is known; an empty fragment refused, an overlapping one deadly, any other linked in; finished exactly if nothing is missing, and delivered unless codepoints or size forbid it |
| Ipv6Outcome.ServicesOnlyFail | linux/compat/nf_conntrack_reasm.c:239-247 | a kernel service that fails can only keep the fragment out, or make nothing of a complete queue |
| Ipv6Queue.NfCtFrag6Queue | linux/compat/nf_conntrack_reasm.c:173-323 | the in-place insertion is the value-level one |
| Ipv6Queue.NfCtFrag6Reasm | linux/compat/nf_conntrack_reasm.c:335-464 | reassembly in place gives the value-level verdict and leaves the datagram in the received buffer |
| Ipv6Queue.NfCtFrag6Gather | linux/compat/nf_conntrack_reasm.c:571-588 | one fragment on the linked list gives exactly the value-level outcome |
| Ipv6RoundTrip.DeliversWhenFull | linux/compat/nf_conntrack_reasm.c:529-589 | the exact answer to every arrival of fragments that agree with a datagram: an empty one is refused; while none overlap the datagram is delivered exactly when the last missing byte arrives; with an overlap nothing is delivered |
| Ipv6RoundTrip.RoundTrip | linux/compat/nf_conntrack_reasm.c:529-589 | fragments of a cut in any order, none that carries something repeated: those are accepted, the empty ones refused, and the datagram comes out at the last one; with a repetition the last arrival is refused |
| Ipv6RoundTrip.CutArrives | linux/compat/nf_conntrack_reasm.c:529-589 | with each fragment of a cut once, in whatever order, the datagram is delivered and exactly the empty fragments are refused |
| Ipv6RoundTrip.EmptyLastIsLost | linux/compat/nf_conntrack_reasm.c:233-235 | an empty last fragment that arrives last never triggers delivery |
| Ip6Output.Ip6Fragment | linux/compat/ip6_output.c:150-422 | refused exactly if larger than the link takes and not to be cut, or received in larger fragments than that; otherwise no packet sent is larger than the limit, fragment header included, and which path is taken |
| Ip6Output.Ipv6RoundTripHolds | linux/compat/ip6_output.c:150-422 | the fragments of either path, none that carries something repeated, in any order: those are accepted, empty ones refused, and the payload is complete at the last one (section 4.5 of RFC 8200) |
| Ip6Output.FastPathExact | linux/compat/ip6_output.c:228-327 | the fast path's fragments, each once, arrive as the datagram in every order exactly when the last buffer is not empty |
| Ip6Output.UnitsFit | linux/compat/ip6_output.c:400-402 | positions of a legal datagram fit the 13-bit field of the fragment header |
| Ip6Output.LengthsFitExactly | linux/compat/ip6_output.c:403-404 | the 16-bit payload length of every fragment holds if the limit leaves room for the headers or the datagram leaves room for a fragment header; on the slow path only then |
| SttChain.ShortcutIsInsert | linux/compat/stt.c:1205-1217 | a segment that follows the last one overlaps nothing, and appending it is sorted insertion |
| SttChain.AttachIsInsert | linux/compat/stt.c:1205-1252 | a segment is dropped exactly when it overlaps a queued one, and otherwise has the effect of sorted insertion byte for byte, also when it is copied into the head |
| SttChain.AcceptExactly | linux/compat/stt.c:1205-1274 | on any chain a segment is dropped exactly if it overlaps, and completes the packet exactly if its bytes are as many as are missing of the length told by the first |
| SttChain.AcceptKeepsSound | linux/compat/stt.c:1205-1275 | every segment keeps the chain sorted, disjoint, non-empty and counted |
| SttChain.HandedWhenFull | linux/compat/stt.c:1164-1274 | segments of one packet in any order with repetitions: a repeated one leaves the chain unchanged, a new one is kept, and the packet is handed over exactly when the last missing one arrives |
| SttChain.PacketRoundTrip | linux/compat/stt.c:1164-1274 | the same for the segments of a given cut of the packet |
| SttChain.MemIsSizes | linux/compat/stt.c:1188-1257 | while something is missing, the memory accounted to a packet is the sum of the sizes of its segments, repeated ones counted once |
| SttChain.MarkExactly | linux/compat/stt.c:1188-1240 | a packet is handed over with the congestion mark exactly when some marked segment was the first of its kind to arrive and was not the first of all or is the start of the packet |
| SttChain.MarkLost | linux/compat/stt.c:1188-1200 | of two halves the marked second one arrives first, and the packet is handed over without the mark |
| SttChain.PktFrag.Receive | linux/compat/stt.c:1205-1274 | the in-place chain computes the value-level step, and a complete packet is handed over as its list of buffers, with its mark |
| HashSegments.BytesOfHash | linux/compat/stt.c:1086-1103 | the four places of an item are the bytes of its 32-bit hash, the lowest first |
| SttTable.EvictsOldest | linux/compat/stt.c:1050-1061 | eviction ends at or below the low mark, frees the least recently used slots, and one slot less would not have been enough |
| SttTable.Victim | linux/compat/stt.c:1095-1099 | the sacrificed slot is free if one of the candidates is, otherwise the oldest of them |
| SttTable.NeverStored | linux/compat/stt.c:1167-1174 | an empty segment or one beyond its packet is freed, and a segment that is a whole packet is handed over at once with its bytes and mark, the table unchanged |
| SttTable.Reassemble | linux/compat/stt.c:1151-1291 | every arrival keeps the accounting exact and the LRU list equal to the used slots, once each |
| SttRuns.ReassembleBound | linux/compat/stt.c:1184-1202 | one arrival leaves memory unchanged or at most the larger of the high mark and the low mark plus its own size |
| SttRuns.DisturbsLittle | linux/compat/stt.c:1079-1108 | after room has been made, which happens exactly above the high mark, an arrival changes one of the four candidate slots of its packet and no other, and another packet loses its slot only if no candidate is free, and then the one stored first |
| SttRuns.RunInvariant | linux/compat/stt.c:1151-1291 | over every run of arrivals and clean-ups: exact accounting, LRU list, at most one unexpired slot per packet, and the memory bound |
| SttRuns.ListedByUse | linux/compat/stt.c:1198-1272 | over every run the LRU list is in the order in which the slots last took a segment, so that eviction frees those unused for longest |
| SttRuns.OthersOnlyEvict | linux/compat/stt.c:1079-1108 | arrivals for other packets and clean-ups cannot change the chain of a packet, only take its slot |
| SttRuns.TableFollows | linux/compat/stt.c:1151-1291 | a packet whose chain is never taken away, by time, by other events or by the room made for its own fragments, behaves in the shared table as if it had one to itself |
| SttRuns.QuietIsUndisturbed | linux/compat/stt.c:1079-1108 | a packet keeps its slot in every run that takes less than thirty seconds and stays within the high mark, if no other packet in it has a candidate slot in common with this one |
| SttRuns.TableRoundTrip | linux/compat/stt.c:1151-1291 | among any other traffic, a packet of one segment is handed over whenever it arrives, and the fragments of a longer packet that keeps its slot yield it exactly when the last missing one arrives |
| SttRuns.Sweep | linux/compat/stt.c:1526-1552 | a clean-up frees exactly the slots strictly past their time |
| SttPerCpu.PerCpu.FreeFrag | linux/compat/stt.c:1041-1048 | freeing a slot in place |
| SttPerCpu.PerCpu.EvictFrags | linux/compat/stt.c:1050-1061 | the eviction loop in place |
| SttPerCpu.PerCpu.Scan | linux/compat/stt.c:1086-1103 | the search loop finds the first candidate that matches and has not expired, or the victim |
| SttPerCpu.PerCpu.LookupFrag | linux/compat/stt.c:1079-1108 | lookup in place, with the victim freed |
| SttPerCpu.PerCpu.Receive | linux/compat/stt.c:1151-1291 | an arrival in place gives exactly the value-level table and verdict, and never touches the table for what is empty, too long or whole |
| SttPerCpu.PerCpu.CleanPercpu | linux/compat/stt.c:1526-1552 | the clean-up loop in place |
| FlowKey.MaskKey | flow_table.c:66-86 | the masked key has, in the range of the mask or as a whole, exactly the words ANDed with the mask |
| FlowKey.MaskKeyAgrees | flow_table.c:66-86 | a key masked as a whole is matched by the key it came from |
| FlowKey.CmpKey | flow_table.c:503-516 | gathering all differences before testing finds equality of the ranges exactly |
| FlowKey.MatchesWords | flow_table.c:518-523 | a flow matches a key under a mask exactly when its words are the masked words |
| FlowKey.MaskEqualMatches | flow_table.c:827-836 | masks that compare equal match the same keys |
| FlowKey.RangeIsHull | flow_netlink.c:97-120 | whatever the order of the fields, the range of a match holds every field that is not empty and is no larger than any whole number of words that holds them all |
| FlowInstance.TableInstance.Insert | flow_table.c:390-397 | the flow becomes the head of its bucket's chain and nothing else changes |
| FlowInstance.TableInstance.Remove | flow_table.c:797-805 | the flow leaves its chain and all other flows stay where they are |
| FlowInstance.CopyFlows | flow_table.c:408-435 | the new instance holds exactly the old one's flows in their buckets, and every chain of the old instance stays intact |
| FlowInstance.LookupsAgree | flow_table.c:437-449 | after a rehash a key finds a flow in one instance exactly when in the other, and the same one if one answers |
| FlowInstance.TableInstance.HitIff | flow_table.c:536-556 | searching one bucket finds a flow exactly when some flow of the table has the mask and matches the key, and returns such a flow |
| FlowInstance.TableInstance.MaskedFlowLookup | flow_table.c:536-556 | the search loop returns the first flow of the bucket that answers |
| MaskArrays.Realloc | flow_table.c:231-257 | growing or shrinking loses no mask and keeps their order and count |
| MaskArrays.FlowMaskFind | flow_table.c:838-854 | finds a mask equal to the given one exactly when there is one |
| MaskArrays.FlowMaskInsert | flow_table.c:857-908 | succeeds exactly if there is an equal mask, or memory for a new one and, when the array is full, for a larger array; an equal mask is shared and counted, otherwise a new one is added with count one, growing by a step when full; on failure nothing changes |
| MaskArrays.FlowMaskRemove | flow_table.c:771-794 | one use less; the last one removes the mask, and the array is halved exactly under the source's condition |
| MaskArrays.LivePut | flow_table.c:892-898 | filling a gap adds one mask, keeps all pairwise unequal, and raises the count by one |
| MaskArrays.LiveClear | flow_table.c:753-766 | clearing a slot removes one mask and lowers the count by one |
| FlowLookup.ScanIsComplete | flow_table.c:579-597 | if no mask finds a flow, no stored flow matches the key under its own mask |
| FlowLookup.Lookup | flow_table.c:561-598 | the mask at the index is tried first, then the others in order up to the first that finds a flow; the number of searches made, which is that of all masks if nothing is found |
| FlowLookup.FlowTblLookup | flow_table.c:664-673 | a flow is returned exactly when some stored flow matches, and it matches |
| FlowLookup.RightIsUnique | flow_table.c:607-662 | when one flow matches, cached and uncached lookups return the same |
| FlowLookup.PickEntry | flow_table.c:636-654 | the first entry written for the hash, or else the one with the smallest hash among the candidates |
| FlowLookup.CachedLookup | flow_table.c:632-662 | for any cache contents the answer is that of the full search; once a hash found a flow the next search for it under that mask takes one probe; one entry of the hash is written at most |
| FlowLookup.LookupStats | flow_table.c:607-662 | for any cache contents, stale or out of range, a flow is returned exactly when some stored flow matches, it matches, and the probes are at most the live masks, and all of them if nothing is found |
| FlowTables.AddCounts | flow_table.c:857-908 | a further flow keeps every mask's count at least, and if it was so exactly, the number of its flows |
| FlowTables.DropCounts | flow_table.c:771-794 | the same for a flow that goes |
| FlowTables.FlowTable.Insert | flow_table.c:956-970 | succeeds exactly under the same condition; then the table gains exactly the flow under an equal mask, whatever growing and rehashing happens, and stays fit for lookup with right counts |
| FlowTables.FlowTable.Remove | flow_table.c:797-814 | the table loses exactly the flow and its count |
| FlowTables.FlowTable.Flush | flow_table.c:451-479 | all flows go and the masks stay counted, so counts are at least the flows from then on |
| FlowTables.FlowTable.ReadyForLookup | flow_table.c:561-598 | the invariant of the table is all that lookups need |
| FlowDump.DumpNext | flow_table.c:356-381 | one cursor step returns the first flow still to come and leaves the rest |
| FlowDump.Dump | datapath.c:1426-1447 | one reply carries as many flows as fit, and the saved cursor stands behind exactly those |
| FlowDump.Replies | datapath.c:1426-1447 | replies of any sizes, resumed with the saved cursor, together are a prefix of the listing and all of it once there was room, and then nothing more comes |
| FlowDump.ListingComplete | flow_table.c:356-381 | the listing has every flow of the table exactly once |
| ActionTrace.RunLater | actions.c:1242-1307 | every run restores the level, takes nothing out of the queue, appends exactly the work it puts there and never more than nine pieces, leaks only for want of a key, and reaches no level above its own and three |
| ActionFates.GivenUpOnce | actions.c:1101-1234 | a run gives up its packet and every clone made during it exactly once, by settling, leaking or queueing it, and no other packet |
| ActionFates.RunFates | actions.c:1242-1258 | a run touches its own packet and its clones only, and leaves each of them settled, queued or leaked |
| ActionFates.OutputStands | actions.c:1111-1133 | of every output action carried out, whatever happens to the others, the packet is at the end of the run sent to the port named if that takes it and released otherwise, unless there was no memory for that clone |
| ActionEvents.AsTold | actions.c:861-888 | in a run, at any depth, a packet is sent only by an output action on it, and leaked only by a last recirculation or a connection tracking action whose key could not be extracted |
| ActionTrace.RunKeepsKey | actions.c:1260-1267 | a list of actions that do not change the flow key, samples on their own key included, leaves the key as it is, at every nesting depth |
| ActionMeaning.InOrder | actions.c:1108-1234 | the actions of a run are carried out in order on what the one before left; the first that fails or gives the packet up ends the run with its error, and a packet not given up by then is released |
| ActionMeaning.RecircUnderId | actions.c:1081-1307 | every recirculation in a run, at any depth, looks the packet or its clone up under the key of the packet with the id of the action, runs exactly the flow found there, and leaves the key as it was; it is put off exactly above level two, and dropped only behind nine pieces of work |
| ActionMeaning.SampledByChance | actions.c:957-973 | every sample is taken on exactly one draw more than its probability says, of the 2^32 there are, and on none for zero; then its list runs on the packet or its clone under the key in use |
| ActionMeaning.PacketInHand | actions.c:1135-1231 | connection tracking hands the packet on, has freed it with an error, has stolen it without one, or loses it for want of a key; truncation, upcall, hash and header actions leave the packet in hand, all else as it was, and the key no more valid than before |
| ActionMeaning.PostponedIsServed | actions.c:1309-1333 | a look-up put off is done under the key with the recirculation id before the handling ends |
| ActionMeaning.HandledAsMeant | actions.c:1242-1361 | the packets sent to a port are as many as a plain recursive reading of the list and the flow table says, whatever is run one level up or deferred, for lists that neither rewrite packets nor sample by chance, if nothing is refused for want of memory or room |
| ActionMeaning.RecircDelivers | actions.c:1276-1278 | a packet recirculated under an id for which the table has a flow that outputs to a port ends up sent to that port if it takes the packet, whatever flows there are under other ids |
| ActionHandling.ServedInOrder | actions.c:1309-1333 | what is served is what waited and what is deferred meanwhile, each once and in order |
| ActionHandling.HandledInFull | actions.c:1336-1361 | over the whole handling of a packet at most nine pieces of work are deferred, each is done once in order, and the packet and each clone is settled or leaked exactly once |
| ActionHandling.AllHandled | actions.c:1336-1361 | after the handling of a packet it and all its clones are settled or leaked, and every other packet is as before |
| ActionHandling.HandledAsTold | actions.c:1336-1361 | the same as for a run, over the whole handling of a packet |
| ActionHandling.UnsettledExactly | actions.c:1090-1092 | after the handling of a packet, it or a clone is left unsettled if and only if a last recirculation or a connection tracking action of it could not extract the flow key again |
| ActionHandling.UnsettledWitness | actions.c:1203-1207 | such a handling exists for either action, every flow table and every key out of date |
| Executor.PerCpu.ExecuteActions | actions.c:1336-1361 | for every flow table, cyclic ones included, and every outcome of the environment, execution ends and is a handling the rules allow; level and queue come back as they were, every packet is accounted for, and what is sent is what the list means |
| Executor.PerCpu.ReceivePacket | datapath.c:269-305 | a received packet is handled by the actions of its flow, which sends what they mean, or reported and released |
| Executor.PerCpu.DoExecuteActions | actions.c:1101-1234 | the loop is a run of the list: its actions in order, each on the state and key the one before left, up to the one that stops it, and the packet released at the end if nothing has used it up |
| Executor.PerCpu.ExecuteOne | actions.c:1110-1231 | one action is a step the rules allow |
| Executor.PerCpu.ExecuteSample | actions.c:948-973 | the sample is a step the rules allow for the random number drawn: run in place on the key in use, or aside on a copy |
| Executor.PerCpu.DoOutput | actions.c:858-887 | the packet goes to the port exactly if there is one and it does not refuse it, and is released otherwise |
| Executor.PerCpu.ExecuteRecirc | actions.c:1081-1098 | a key out of date is extracted anew or the packet left unsettled; otherwise the packet goes aside under the recirculation id and the caller's key stays |
| Executor.PerCpu.ExecuteCt | actions.c:1201-1214 | an error means the packet was freed, a stolen one is hidden, and it is lost exactly when the key cannot be extracted again |
| Executor.PerCpu.CloneExecute | actions.c:1242-1307 | the packet or a clone is run one level up, queued with a copy of the key, or dropped, by level and room in the queue |
| Executor.PerCpu.DeferOrDrop | actions.c:1282-1305 | without spare keys the work is appended to the queue with its key, or the packet is dropped when nine have been queued |
| Executor.PerCpu.Defer | actions.c:129-156 | the queue takes at most nine entries per outermost packet and never overwrites one |
| Executor.PerCpu.Get | actions.c:121-127 | the oldest entry comes out and its packet is held again |
| Executor.PerCpu.ProcessOne | actions.c:1317-1329 | the oldest work is executed, or looked up, on the key stored with it |
| Executor.PerCpu.ProcessDeferredActions | actions.c:1309-1333 | working off the queue, which may grow meanwhile, serves entry after entry until it is empty and resets it |
| Executor.PerCpu.DpProcessPacket | datapath.c:269-305 | a recirculated packet is looked up and executed one level up, or reported and released |
| Executor.CostHas | actions.c:1108-1116 | an action costs no more than its list, which is why nesting ends |
| Netlink.FirstEnc | flow_netlink.c:2011-2028 | an attribute that was written reads back, whatever follows |
| Netlink.PatchNests | flow_netlink.c:2040-2060 | an empty attribute whose length is patched after its payload was appended is the attribute with that payload |
| ActionCodec.TreeEncode | flow_netlink.c:2466-2662 | parsing what was written returns the list at every depth |
| ActionCodec.MaskedPrints | flow_netlink.c:2399-2425 | a set stored as value and mask prints as the set |
| ActionCodec.SamplePrints | flow_netlink.c:2684-2725 | a stored sample prints as probability and printed actions |
| ActionCodec.StorePrints | flow_netlink.c:2466-2821 | whatever bytes are accepted, under whatever checks of single actions, printing the stored form writes exactly the list they stand for |
| ActionCodec.RoundTrip | flow_netlink.c:2466-2821 | parsed again, what is printed is the list that was sent |
| ActionCodec.SameBytes | flow_netlink.c:2780-2821 | the printed bytes are those sent exactly when those have no flag bits in the types, zero padding throughout and the probability of each sample in front |
| ActionAcceptance.AcceptedExactly | flow_netlink.c:2466-2662 | a list is accepted exactly if it parses, the checks accept its actions one after the other at every depth, and its samples fit when stored; and how long the stored form is |
| ActionAcceptance.WrittenIsAccepted | flow_netlink.c:2466-2662 | every list in normal form that passes the checks and fits is accepted |
| ActionAcceptance.PlainIsCopied | flow_netlink.c:2650-2654 | an action that is neither a set, a sample nor connection tracking is stored byte for byte as it is sent |
| StoredActions.StoredMeans | flow_netlink.c:2466-2662 | whatever bytes are accepted, the executor finds in the stored form exactly what is meant by the list they stand for: actions, values with masks, and samples with their probability and mark |
| StoredActions.ScanIsRight | flow_netlink.c:64-95 | the scan of the bytes finds an action that may change the flow key exactly when the list has one |
| StoredActions.SampleLast | flow_netlink.c:2612-2622 | a sample is last in its list exactly when its length says so |
| StoredActions.SetOverwrites | actions.c:312-320 | a set as it is stored overwrites the whole key |
| StoredActions.SetOverwritesIpv6 | flow_netlink.c:2417-2423 | of an IPv6 key the bits in front of the flow label stay as they were |
| StoredActions.StoredCareful | flow_netlink.c:2101-2114 | a stored sample that is not last is marked to run in place only if its actions leave the flow key as it is, at every depth |
| StoredActions.StoredInPlace | flow_netlink.c:2101-2114 | a stored sample is marked to run in place exactly if it is the last of its list or no action in it touches the flow key, at every depth |
| StoredActions.SamplesKeepKey | actions.c:1260-1267 | so in every run of a compiled list a sample never changes the flow key under the actions that follow it |
| ActionBuffer.FlowActions.Append | flow_netlink.c:1975-2009 | a request for which one doubling is enough is placed at the end, and refused only beyond the maximum or without memory |
| ActionBuffer.StoreSize | flow_netlink.c:1975-2009 | without connection tracking and tunnel sets the stored form takes at most two bytes per byte of input, which keeps every request within one doubling |
| ActionBuffer.PlacedExactly | flow_netlink.c:1975-2009 | for every block, fill and request: the place reserved lies within the block exactly under a condition on the three |
| ActionBuffer.SetsThenTracking | conntrack.c:1559-1562 | for some sets of a four-byte key followed by an empty connection tracking action, in a block not rounded up, the condition holds exactly from five sets on |
| ActionBuffer.FlowActions.NestedEnd | flow_netlink.c:2053-2060 | patching the length in place closes the nest |
| ActionBuffer.ConvertSet | flow_netlink.c:2399-2425 | the set is appended as value and mask |
| ActionBuffer.ParseSample | flow_netlink.c:2074-2095 | the two attributes of a sample, each once, with the source's checks |
| ActionBuffer.ActionsMayChangeFlow | flow_netlink.c:64-95 | whether some action of the list may change the flow key |
| ActionBuffer.ValidateAndCopySample | flow_netlink.c:2067-2130 | a sample is appended with its compiled actions |
| ActionBuffer.CopyActions | flow_netlink.c:2466-2662 | the compiler appends exactly the stored form, calls a list invalid only if it is, and gives up otherwise only for want of memory or near the maximum |
| ActionBuffer.OvsNlaCopyActions | flow_netlink.c:2665-2682 | a successful compilation yields the stored form; with memory at hand a list that cannot outgrow the maximum is compiled exactly if it parses, passes and fits, and called invalid exactly if not |
| ActionBuffer.SampleToAttr | flow_netlink.c:2684-2725 | a stored sample is printed through two nests, or the message is as before |
| ActionBuffer.MaskedSetToSet | flow_netlink.c:2759-2778 | a converted set is printed as the set |
| ActionBuffer.PutActions | flow_netlink.c:2780-2821 | the printer appends exactly the printed form, and fails exactly if the message has no room for it |
| ReciprocalDiv.DivideExact | linux/compat/include/linux/reciprocal_div.h:31-35 | for every 32-bit a and every d from 1, with every wrap-around and truncation written out, the result is a / d |
| ReciprocalDiv.MultiplierBound | linux/compat/reciprocal_div.c:17-21 | the multiplier fits 32 bits and lies in the interval that makes the division exact |
| ReciprocalDiv.SetUpcallPortIds | vport.c:391-414 | an empty or ragged attribute is refused, so there is always at least one socket, and the sockets are the words of the attribute |
| ReciprocalDiv.FindUpcallPortId | vport.c:455-469 | the socket chosen is the one at the hash modulo the number of sockets |
| CountMax.VoteInvariant | countmax.c:71-87 | after any non-negative run, how much a recorded and an unrecorded key can weigh |
| CountMax.QueryBounds | countmax.c:71-98 | a query lies between max(0, 2f - T) and f |
| CountMax.MajorityIsRecorded | countmax.c:71-98 | a key with more than half of its bucket's weight is the recorded one |
| CountMax.NoCounterOverflow | countmax.c:71-87 | a counter fits its word while the weight of its bucket does |
| CountMax.OneVote | countmax.c:71-87 | an update adds its weight to what its key has over the recorded one, replaces that only by making the difference positive, and leaves every other bucket alone |
| CountMax.CountMaxLine.Update | countmax.c:71-87 | one update of the arrays is one step of the vote |
| CountMax.CountMaxLine.Query | countmax.c:89-98 | the query of a line is the query of the specification |
| CountMax.CountMaxSketch.Update | countmax.c:30-36 | every line sees every update |
| CountMax.CountMaxSketch.Query | countmax.c:38-49 | the maximum over the lines is the answer of any one of them |

## Left out

- IpOutput.SlowPath: allocation is a budget of buffers; output errors, statistics, metadata and IP options are not modelled.
- IpOutput.FastPath: buffers are values and sending always succeeds; what happens to buffers after an output error is not modelled.
- Ip6Output.Ip6Fragment: the limit a socket may set (np->frag_size), the identification and the allocation of the temporary header are not modelled.
- Ipv4Queue.IpFragQueue: frag_max_size and don't-fragment bookkeeping, memory accounting, timers and the LRU of queues are not modelled; the ECN table is an arbitrary predicate on the codepoints seen; a head with a fragment list of its own is not split.
- Ipv6Queue.NfCtFrag6Gather: finding the queue, header parsing, the fixed error for a jumbo payload and checksums are not modelled.
- SttChain.PktFrag.Receive: segments count as marked or not; that a header without ECN capability cannot take the mark is not modelled.
- SttPerCpu.PerCpu.Receive: chains inside the table are sequences; the in-place chain is SttChain.PktFrag. Wrap-around of jiffies and locking are not modelled.
- SttRuns.TableRoundTrip: a packet of several segments must keep its slot, for which SttRuns.QuietIsUndisturbed gives a sufficient condition; a lost slot starts a new chain.
- FlowInstance.CopyFlows: grace periods are not modelled; an instance two rehashes old may lose its links.
- FlowInstance.TableInstance.Remove: the back pointer of a hash list node is replaced by a search for the predecessor.
- FlowTables.FlowTable.Insert: struct flow_table is two objects, one for flows and one for masks; the table keyed by unique identifiers runs through the same instances and is not modelled.
- FlowLookup.LookupStats: the mask of a cache entry is for one CPU; concurrent updates are not modelled.
- ActionMeaning.HandledAsMeant: lists that rewrite packets, track connections or sample by chance have no fixed meaning here; of their single actions the other theorems speak.
- Executor.PerCpu.ExecuteActions: packets are numbers with a fate; why a port refuses a packet is an arbitrary function; header rewriting, truncation lengths and upcall contents are not modelled, transmission does not re-enter the datapath, and ovs_ct_execute is taken by its comment (conntrack.c:1171-1173).
- ActionBuffer.StoreSize: covers what the compiler model accepts, so neither connection tracking nor tunnel sets.
- ActionCodec.StorePrints: connection tracking and tunnel set actions are treated as refused; checks of single actions are an arbitrary function; a set attribute too short to hold a key is refused.
- ActionBuffer.OvsNlaCopyActions: the allocator may round a request up to at most 64 KiB; MAX_ACTIONS_BUFSIZE is that of kernels from 4.9 on; padding that the input lacks is stored as zeros.
- ActionBuffer.PutActions: what an unsuccessful print leaves in the message is not specified beyond keeping what was there before.
- CountMax.CountMaxLine.Update: the hash of a key is an arbitrary function; counters are unbounded, with CountMax.NoCounterOverflow saying when that is right.
- ReciprocalDiv.DivideExact: divisor zero, which the source never passes, is not covered.
- The other sketches, device and tunnel drivers, netlink command handlers and packet header parsing are not modelled.
