# OpenVPN 2.0: the stateful engines, modelled and proved

A Dafny model of the small stateful engines inside OpenVPN 2.0 and proofs of what they promise over
every run. Each engine comes in two parts: a file of functions on values that says what every step does
and proves theorems about whole runs, and a file of methods and classes that works in place as the C
code does (arrays, rings, chains of heap nodes) and is proved equal to those functions step by step.

| component | functions and theorems | code in place |
|---|---|---|
| anti-replay window (packet_id.c, packet_id.h, circ_list.h) | ReplayModel, ReplayStrict, PacketIdWire | PacketId, CircList, PacketIdWire |
| fragmentation and reassembly (fragment.c, fragment.h) | FragmentModel, FragmentRing, FragmentChannel, FragmentDelivery | Fragment |
| hash table and deferred deletion (list.c, list.h) | HashTable | HashBucket, HashTable, HashIterator |
| server routing table (multi.c, multi.h, mroute.c, mroute.h) | RouteModel, RouteTable, RouteRuns, RouteServer, RouteLearning | MrouteAddr, Mroute, Multi |
| MSS rewriting (mss.c, proto.h) | MssModel, MssPacket | Mss |
| packet queue and TCP deferral (mbuf.c, mtcp.c) | MbufModel, MtcpModel | Mbuf, Mtcp |
| address pool (pool.c) | PoolModel, PoolRuns | Pool |
| static key file (crypto.c, buffer.c) | KeyFileModel, KeyFileErrors | KeyFile |
| management command line (manage.c, buffer.c, buffer.h) | CommandLineModel | CommandLine |
| event sets (event.c) | EventModel | Events |
| shared: buffers, circular arithmetic, sequences | IntegerOps, Sequences, Option | Buffer |

`dafny verify dfyconfig.toml` checks all of it.

The environment is made of parameters: clocks, script and plugin verdicts, the packets and the order in
which they arrive, the pieces in which a file or a socket is read, and the initial random sequence id.

Assumptions: everything is single-threaded; the clock of the replay window is above 1 (the code uses 0
and 1 as marks); the cache generation counter does not wrap; iroutes have zero host bits and fewer than
32 mask bits, as the option parser leaves them; hash masks and netmasks are powers of two, so `%` and
`/` stand for `&` and `>>` (`IntegerOps.MaskSplits` ties the two for every 32-bit word); on Windows no two
events share a handle.

## Model

| member | source | states |
|---|---|---|
| ReplayModel.NoReplay | packet_id.c:90-229 | Over every run of reap, test and add-on-success from a fresh record, windowed or strict, no (time, id) pair is accepted twice. |
| ReplayModel.WindowIsPlainSet | packet_id.c:90-229 | On every run the circular window gives the verdicts of a plain set of accepted and expired ids: newer time, or same time and above the highest id, or fewer than W below it and neither accepted nor expired. |
| ReplayModel.EarlyScanIsFullScan | packet_id.c:137-157 | Where expired marks form a suffix, stopping the reap at the first of them gives what scanning the whole window gives, and they stay a suffix. |
| ReplayModel.SuffixAlways | packet_id.c:114-157 | In every run of reap, test and add the expired marks form a suffix, so the early stop is always sound. |
| ReplayModel.AddKeepsSuffixIff | packet_id.c:90-130 | A lone add keeps expired marks a suffix exactly when the record starts over, the id lies outside the window, or no newer slot has expired. |
| ReplayModel.AddWithoutTestBreaksSuffix | packet_id.c:90-130 | A concrete window and id, refused by the test, whose add would break the suffix. |
| PacketIds.PacketIdRec.AddPacket | packet_id.c:90-130 | In place, add computes the modelled record and pushes at most W slots, even for a jump over the whole id range. |
| PacketIds.PacketIdRec.ReapExpired | packet_id.c:137-157 | The scanning loop leaves the modelled window and stamps the reap time. |
| PacketIds.PacketIdRec.ReceivePacket | crypto.c:360-369 | Reap if due, test, add only on success: verdict and new record are those of the modelled arrival. |
| ReplayStrict.StrictIsLinear | packet_id.c:214-228 | In every run strict mode gives the verdicts of a receiver that remembers only the last pair it took and takes the next id of that time, or id 1 of a later one. |
| ReplayStrict.StrictAcceptsAllIff | packet_id.c:214-228 | All packets of a run are accepted exactly when the first id is 1 and each pair follows the one before it without a gap. |
| ReplayStrict.AcceptedIsLinear | packet_id.c:214-228 | Whatever arrives, the packets accepted, in order, form such a series. |
| ReplayStrict.GapIsRefused | packet_id.c:214-228 | After (7, 1) strict mode refuses (7, 3). |
| CircularList.CircList.Push | circ_list.h:41-63 | The new item becomes index 0, the others move one up, and the oldest falls out once the ring is full. |
| PacketIdWire.AllocIncreasesIff | packet_id.h:299-312 | One allocation goes up in (time, id) order exactly when the id does not wrap or the clock has moved past the stored time. |
| PacketIdWire.SentIncreases | packet_id.h:299-312 | Over a whole run of allocations with that condition, ids strictly increase and 0 is skipped at the wrap. |
| PacketIdWire.SentIs | packet_id.h:299-312 | The k-th packet of a run in closed form: ids count from 1 to 2^32 - 1 and start over, and an epoch's time is the clock at its first packet. |
| PacketIdWire.WireBytes | packet_id.c:236-284 | On the wire the id comes first, then in long form the time, each most significant byte first. |
| Buffers.NetworkOrder | buffer.h:409-415 | The four bytes of a 32-bit number, most significant first, sum up to it. |
| PacketIdWire.WireRoundTrip | packet_id.c:236-284 | Reading what was written gives the pair back, reduced to the wire's widths, and leaves the bytes behind it. |
| PacketIdWire.StrictAcceptsSender | packet_id.c:214-228 | A strict receiver accepts, in order, everything such a sender sends. |
| PacketIdWire.WindowAcceptsAllIff | packet_id.c:163-213 | A windowed receiver without time expiry accepts every packet of a run exactly when no id is 0, none repeats, epochs do not go back and none is displaced by W or more. |
| PacketIdWire.WindowAcceptsSender | packet_id.c:163-284 | So it accepts a sender's packets under any reordering within epochs by fewer than W. |
| FragmentModel.PackRoundTrip | fragment.c:249-287 | The header fields come back from a packed header; a size comes back exactly when it is a multiple of 4 below the limit. |
| FragmentModel.PackIsShiftAndOr | fragment.c:249-287 | The arithmetic form of the header equals the source's masks and shifts, for all 32-bit fields in range. |
| FragmentModel.PackLayout | fragment.c:249-287 | Type, sequence id, fragment id and size stand at bits 0, 2, 10 and 15, and only the last fragment carries a size. |
| FragmentModel.OptimalFragmentSizeKeepsCount | fragment.c:290-302 | For all lengths and limits of at least 4 the size is a positive multiple of 4 within the limit and needs exactly as many fragments as the aligned limit. |
| FragmentModel.EvenedOut | fragment.c:290-302 | Where the last piece would be under three quarters of the full size it falls short of the others by less than 7 bytes a piece, or 4 with an aligned limit; elsewhere the full size is kept. |
| FragmentModel.PiecesRejoin | fragment.c:355-387 | The pieces put end to end are the datagram, and are as many as the size requires. |
| FragmentModel.OutgoingSendsFragments | fragment.c:305-387 | Giving a datagram and pulling until nothing waits sends its fragments with consecutive ids, only the final piece marked last; one needing more than 32 pieces is dropped. |
| FragmentRing.OwnersDistinct | fragment.c:62-82 | No two slots of the reassembly ring ever belong to one sequence number. |
| FragmentRing.GetBufOwner | fragment.c:62-82 | After any access, forward, backward or with full reset, the slot handed out belongs to the number asked for, and slots that keep their contents keep their owners. |
| FragmentRing.NewestAfter | fragment.c:62-82 | A number at most 24 behind the newest changes nothing, any other becomes the newest, and one 25 or more away empties the ring. |
| FragmentRing.ReapsExpired | fragment.c:389-402 | A reap takes exactly the slots in use whose last fragment is ten seconds old and touches nothing else. |
| FragmentRing.AcceptCases | fragment.c:186-228 | A slot in use for another size starts over; a piece beyond the buffer adds nothing; any other adds its bits and bytes, and the last missing bit hands the datagram up. |
| FragmentRing.BadPacketGivesNothing | fragment.c:134-246 | Packets too short, of unknown type, of odd size or beyond the buffer give nothing. |
| FragmentRing.MarkIsShiftAndOr | fragment.c:134-246 | The received bitmap as a sequence of flags agrees with the source's word of 32 bits under both ways of marking. |
| FragmentChannel.AcceptFragment | fragment.c:134-246 | Storing any fragment of a datagram into a slot holding parts of it either keeps such parts, this one added, or hands up exactly the datagram. |
| FragmentChannel.RunSafe | fragment.c:134-246 | From any ring holding parts of sent datagrams, every output of every run is empty or one that was sent. |
| FragmentChannel.EmittedIsSent | fragment.c:305-387 | A sender that is given datagrams at any moment, each under its own size limit, emits only packets of datagrams it was given. |
| FragmentChannel.EndToEndSafe | fragment.c:134-387 | Fresh sender, channel with any loss, duplication and reordering, fresh receiver: while no sequence id is reused, every output is empty or byte for byte a datagram given. |
| FragmentChannel.AllFragmentsDeliver | fragment.c:134-246 | From any such ring, a datagram whose fragments all arrive while its slot stays in the window and unexpired is handed up. |
| FragmentChannel.EndToEndDelivers | fragment.c:134-402 | The same with the sender in place, after whatever the channel did before. |
| FragmentDelivery.WholeGoesThrough | fragment.c:305-350 | A datagram within the limit is sent at once behind four zero bytes, leaves the sender as it was, and any receiver hands it up unchanged. |
| FragmentDelivery.DrainedRunSendsAll | fragment.c:305-387 | Where every datagram is pulled before the next is given, a whole run sends exactly the packets of all of them, in order. |
| FragmentDelivery.JobIsEmitted | fragment.c:305-387 | Whatever was given before and comes after, all packets of a datagram go out if nothing is given until they are pulled. |
| FragmentDelivery.EveryDatagramArrives | fragment.c:134-387 | End to end for every datagram that is neither empty nor refused: once its packets have arrived, in any order among any others, it has been handed up; a cut one must fit the buffer and keep its slot live. |
| FragmentChannel.StrayBitsPassIff | fragment.c:165-180 | A whole packet with sequence or fragment ids in its header passes the stray-bit test exactly when 64 divides the sequence id. |
| Fragments.FragmentList.GetBuf | fragment.c:62-82 | In place, moving the ring's index and clearing slots gives the modelled list and slot. |
| Fragments.FragmentList.TtlReap | fragment.c:389-402 | The loop clears exactly the slots past their time. |
| Fragments.FragmentMaster.ProcessIncoming | fragment.c:134-246 | In place, header checks, slot choice, bitmap and buffer give the modelled list and output. |
| Fragments.FragmentMaster.ProcessOutgoing | fragment.c:305-350 | In place, sizing, numbering and the first fragment give the modelled sender and packet. |
| Fragments.FragmentMaster.ReadyToSend | fragment.c:354-387 | In place, the next fragment and what remains are the modelled ones. |
| HashTables.ToFrontKeeps | list.c:86-115 | Moving a found entry to the front of its chain leaves the map the table stands for. |
| HashTables.LookedKeeps | list.c:86-115 | A lookup finds the key exactly when the map has it, with the map's value, and leaves the map. |
| HashTables.RemovedRemoves | list.c:117-144 | A removal leaves the map without the key and takes one off the count exactly when it was there. |
| HashTables.CountIsSize | list.c:146-175 | The number of chained entries is the size of the map. |
| HashTables.Hash.Add | list.c:146-175 | On heap nodes: an absent key is added, a present one replaced or refused as asked; the count is right. |
| HashTables.Hash.Lookup | list.h:179-183 | On heap nodes: the map's answer, with chains relinked but map and count unchanged. |
| HashTables.Hash.Remove | list.h:204-217 | On heap nodes: the map loses the key, and the result says whether it was there. |
| HashTables.Hash.RemoveMarked | list.c:192-215 | On heap nodes: a bucket loses exactly its marked entries, and the count their number. |
| HashIterators.HashIterator.Next | list.c:306-334 | The iterator hands out the next entry still ahead, bucket by bucket, and sweeps a bucket it leaves. |
| HashIterators.HashIterator.DeleteElement | list.c:338-344 | Deleting the entry at hand takes it out of the map at once and disturbs nothing still ahead. |
| HashIterators.PassReaps | list.c:231-344 | What survives a pass that deletes as it goes is the map without the condemned keys of the bucket range. |
| HashIterators.RemoveWhere | list.c:177-190 | The whole pass on heap nodes: every entry of the range visited once, in order; exactly the condemned keys gone, none left marked, the count right. |
| MrouteAddrs.EqualIffSameKey | mroute.h:130-153 | Two addresses compare equal exactly when the bytes that are hashed are equal, though the length is not among them. |
| MrouteAddrs.EqualIffSameAddr | mroute.h:130-163 | Byte-wise comparison is equality of the model's addresses, whatever lies behind the address bytes. |
| MrouteAddrs.LearnableAddress | mroute.c:52-83 | The byte loop refuses exactly all zeros, all ones and multicast MAC addresses. |
| RouteTable.MaskCovers | mroute.c:204-211 | An address masks to a prefix exactly when it agrees with it on the prefix's bits. |
| RouteTable.LpmIsLongest | multi.c:865-941 | Walking the lengths downwards finds the owner of the longest matching network, and nothing exactly when none matches (section 5.1 of RFC 4632). |
| RouteTable.FirstHitIsLpm | multi.c:886-933 | In a consistent server, probing only the lengths in use and skipping stale or halted entries gives that longest match. |
| RouteTable.InUseExact | mroute.c:298-322 | The rebuilt list holds exactly the lengths with a positive count, in descending order. |
| RouteServer.LookupIsLongestMatch | multi.c:775-999 | In every reachable state a lookup of a non-local IPv4 address returns the owner of its permanent host route, else of the longest matching network, else nothing. |
| RouteServer.CacheIsInvisible | multi.c:865-941 | Throwing every cached entry away, and any clock or script verdict, changes no answer. |
| RouteServer.QuietSteps | multi.c:124-155 | Lookups, ageing passes and new clients leave the permanent routes as they are. |
| RouteServer.NetLengthsExact | mroute.c:298-354 | The length list is exactly the lengths of the iroutes of open clients, descending, and each count is their number. |
| RouteServer.CountersExact | multi.h:229-282 | In every reachable state a client's refcount is its number of routes, plus one until closed; its route count is that number and within the quota; a missing client has no route. |
| RouteServer.StepFrees | multi.h:264-282 | A step that frees a client frees a closed one, or closes it, and no route names it afterwards. |
| RouteServer.FreedForever | multi.c:434-496 | A freed client never comes back, and no route ever names it again. |
| RouteServer.ReapExactly | multi.c:124-155 | A reap pass removes exactly the stale routes among the keys visited and leaves the rest and the length list. |
| RouteServer.FullReapFrees | multi.c:124-164 | A pass over the whole table frees every closed client. |
| RouteServer.PermanentIsRecordedIff | multi.c:788-857 | A permanent route that may be learned is recorded exactly unless a live cached entry already names the same client, although success is reported either way. |
| RouteServer.ConnectRecordsHost | multi.c:1340-1356 | A client that has registered no iroutes owns no cached route, so its host route is recorded whenever it may be. |
| RouteLearning.LearnReportsRoute | multi.c:775-861 | Learning reports a client exactly when the address leads to it afterwards, by a permanent route or one of this generation and not aged, and nobody exactly when it leads nowhere. |
| RouteLearning.LearnsIff | multi.c:775-861 | A client becomes owner exactly when it is already or script, quota and address allow it; a refusal changes nothing and reports the owner there was. |
| RouteLearning.LookupLeavesRoute | multi.c:865-941 | A lookup that finds a client leaves the address leading to it, freshly referenced, wherever it has a route or may be given one, and changes nothing otherwise. |
| RouteLearning.LookupOfNobody | multi.c:865-941 | A lookup that finds nobody changes nothing. |
| RouteLearning.OwnAddressIsNobody | multi.c:873-875 | The server's own address leads to no client. |
| RouteLearning.NewClient | multi.c:547-617 | A new client is open, with the quota given and no route, and nothing else changes. |
| RouteLearning.ClosedClient | multi.c:434-496 | After closing, the client is not open, no address leads to it, and no other client is closed. |
| RouteLearning.ConnectOffers | multi.c:1340-1356 | Connecting does to the table of permanent routes what offering the client its own address and then each iroute in turn does, the quota counted on that table. |
| RouteLearning.AllGiven | multi.c:972-999 | With room for all, and all fit and allowed, every iroute is the client's afterwards. |
| RouteLearning.IrouteReaches | multi.c:943-966 | An iroute's route matches exactly the addresses that share its network bits, or the one host. |
| RouteRuns.LookupKeeps | multi.c:865-941 | A lookup, cached entry and all, keeps the server's invariant and the permanent routes. |
| RouteRuns.AddIrouteKeeps | multi.c:972-999 | Adding one iroute keeps the invariant half-way through a client's list, and puts the route into the table when it may be recorded. |
| RouteRuns.CloseTable | multi.c:434-496 | Closing a client takes exactly its own routes out of the table. |
| RouteRuns.CloseKeeps | multi.c:434-496 | Closing keeps the server's invariant. |
| RouteModel.LearnCounted | multi.c:775-857 | Learning, replacing or refusing a route keeps every client's counters exact. |
| Multi.MultiContext.LearnAddr | multi.c:775-857 | In place over the heap hash table: owner check, quota, script, replacement and counters give the modelled server and result. |
| Multi.MultiContext.GetInstanceByVirtualAddr | multi.c:865-941 | In place: host probe, prefix probes and the new cache entry give the modelled server and answer. |
| Multi.MultiContext.ConnectionEstablished | multi.c:1340-1356 | In place: the host route, then every iroute, give the modelled server. |
| Multi.MultiContext.CloseInstance | multi.c:434-496 | In place: halting, iroute removal and the last reference give the modelled server. |
| Multi.MultiContext.ReapRange | multi.c:124-155 | In place: the iterator pass reaps the modelled routes and visits every key of its bucket range. |
| Mroute.MrouteHelper.Regenerate | mroute.c:298-322 | The loop writes the lengths in use into the array's front and sets their number. |
| Mroute.MrouteHelper.AddIroute | mroute.c:325-338 | Count and generation go up with each network iroute, and the list is rebuilt on the first use of a length. |
| Mroute.MrouteHelper.DelIroute | mroute.c:340-354 | The count goes down and the generation up with each network iroute, and the list is rebuilt on the last use of a length. |
| MssModel.AdjustIsModular | proto.h:132-144 | The incremental checksum changes by the given amount modulo 65535 (section 3 of RFC 1624). |
| MssModel.FixupClamps | mss.c:72-120 | Every well-formed MSS option reached ends at the smaller of its value and the limit; apart from those values and the checksum no byte changes. |
| MssModel.FixupKeepsSum | mss.c:72-120 | With all MSS options at even offsets, the segment's word sum is kept modulo 65535, in either byte order. |
| MssModel.FixupKeepsSumIff | mss.c:72-120 | In general it is kept exactly when 257 divides the summed change of the values at odd offsets. |
| MssModel.OddOffsetBreaks | mss.c:72-120 | A concrete segment with one MSS option behind a NOP whose checksum is spoiled. |
| MssModel.FixupTwice | mss.c:72-120 | Rewriting a rewritten segment changes nothing. |
| MssModel.PastIsIgnored | mss.c:90-117 | The byte read behind a trailing lone option kind never influences the result. |
| MssPacket.PacketClamps | mss.c:41-120 | Told by its bytes: a whole, unfragmented TCP packet with SYN changes only in its MSS values, which end at the smaller of value and limit, and its TCP checksum; every other packet is returned byte for byte. |
| MssPacket.PacketKeepsSum | mss.c:41-120 | With its MSS values at even offsets such a packet keeps the word sum of its TCP segment modulo 65535. |
| MssPacket.WalkReadsOptions | mss.c:90-117 | The option loop finds the MSS options of any well-formed option list, where they are and no others, whether the list fills the header or is followed by an end mark or a broken option. |
| MssPacket.SegmentClamps | mss.c:72-120 | A segment carrying such a list comes out carrying the list with each MSS lowered, the rest of the header and the data as they were. |
| MssPacket.LoweredSyn | mss.c:41-120 | A 44-byte SYN that offers 1460 leaves offering 1400. |
| Mss.MssFixup | mss.c:41-66 | In place: protocol, length and SYN checks, then the option loop, give the modelled packet and touch nothing outside it. |
| MbufModel.RefcountsExact | mbuf.c:70-183 | Over every run from an empty queue a buffer is allocated exactly while held or queued, and its refcount is its holders plus its slots. |
| MbufModel.PopsInOrder | mbuf.c:94-183 | Over every run the live packets that come out, then those still in, are the packets put in, in order, less drops and departed clients. |
| MbufModel.ExtractIsFirst | mbuf.c:116-139 | An extraction gives the first live packet, the one peek announces, and skips the dead slots before it. |
| MbufModel.AddIsLast | mbuf.c:94-114 | An added packet becomes the last; a full ring gives up its first live one. |
| MbufModel.ForgottenOrder | mbuf.c:163-183 | Forgetting a client takes out exactly its packets and keeps the order of the others. |
| MbufModel.FullOfDeadSlots | mbuf.c:94-114 | A run from the empty queue that fills the ring and loses the client, after which the assertion of the next add fails. |
| Mbuf.MbufSet.AddItem | mbuf.c:94-114 | In place on the ring with masked indices: overflow, insertion, refcounts and the high-water mark. |
| Mbuf.MbufSet.ExtractItem | mbuf.c:116-139 | In place: head and length move over dead slots to the first live one. |
| Mbuf.MbufSet.DereferenceInstance | mbuf.c:163-183 | In place: a client's slots are emptied and its buffers released, each freed at refcount 0. |
| MtcpModel.WrittenInOrder | mtcp.c:265-325 | Over every run of deferred and direct writes a client's packets are written in the order they were made, each at most once. |
| MtcpModel.TakesOrDefers | mtcp.c:287-325 | A packet goes straight out when nothing waits and writing is not put off, else to the end of the queue, from which a full ring gives up its first; an empty buffer is nothing. |
| MtcpModel.ReadyWritesOldest | mtcp.c:265-285 | A ready socket gets the packet that has waited longest and no other. |
| MtcpModel.NothingLostIff | mtcp.c:287-325 | A run loses no packet exactly when none is made while the queue is full. |
| MtcpModel.AllWritten | mtcp.c:265-325 | Then as many ready events as packets wait write every packet made, in order. |
| MtcpModel.LimitLosesNothing | multi.h:193-204 | If packets are made only while the queue is within a limit below its capacity, as multi.c:1768 does, it stays within one packet of the limit and none is lost. |
| Mtcp.TcpInstance.ProcessOutgoingLink | mtcp.c:287-325 | In place over the packet ring: defer, or write what is oldest. |
| Mtcp.TcpInstance.ProcessOutgoingLinkReady | mtcp.c:265-285 | In place: one deferred packet is written and its buffer released. |
| PoolModel.SizeCovers | pool.c:113-147 | The computed base and size cover the range up to its last block. |
| PoolModel.BlocksTile | pool.c:216-241 | The address-to-handle conversion finds the one block an address lies in, exactly for addresses inside the pool. |
| PoolModel.HandleRoundTrip | pool.c:216-268 | Address-to-handle inverts handle-to-address. |
| PoolModel.BlocksDisjoint | pool.c:243-268 | Different handles never share an address. |
| PoolModel.StaysInRangeIff | pool.c:113-147 | All addresses lie between start and end exactly when these begin and finish a /30, or addresses are single. |
| PoolModel.FoundUnique | pool.c:58-108 | What the scan must find is determined: the caller's earlier free entry, else the earliest-released open one, first on ties. |
| PoolModel.NeverTwoHolders | pool.c:162-213 | In any run two acquires that return one handle have a release of it between them. |
| PoolModel.ComesBack | pool.c:58-108 | A returning client gets its old handle if nobody was given it meanwhile. |
| PoolRuns.ReleaseFrees | pool.c:200-213 | A release frees its handle and no other; a soft one remembers name and time, a hard one neither. |
| PoolRuns.AcquireTakes | pool.c:162-198 | An acquire makes its entry the caller's, by name if it has one, and leaves the others. |
| PoolRuns.HolderIsLastEvent | pool.c:162-213 | In every run of an empty pool a handle is in use exactly when the last event about it handed it out. |
| PoolRuns.NothingLeftIff | pool.c:58-108 | Acquiring fails exactly when every entry is taken, or kept from a stranger by a fixed assignment. |
| PoolRuns.FirstIsFound | pool.c:58-108 | The entry handed out is the first that remembers the caller, else the first of those released earliest; with duplicate names the first free one. |
| PoolRuns.ReleasedIsHandedOut | pool.c:162-213 | In every run a handle released and not handed out since goes to the next who finds nothing else, unless it is fixed. |
| PoolRuns.EarlierGoesFirst | pool.c:58-108 | Of two handles given back and not touched since, a newcomer is never handed the later one. |
| PoolRuns.ReturnsHomeInRuns | pool.c:58-213 | In every run a client that is given a handle and gives it back gets it again, if nobody was given it meanwhile and its name has one session at a time. |
| Pool.IfconfigPool.Find | pool.c:58-108 | The loop returns that determined entry, or -1. |
| Pool.IfconfigPool.Acquire | pool.c:162-198 | The entry was free and is now the caller's; local and remote address lie in its block. |
| Pool.IfconfigPool.ReleaseHandle | pool.c:200-213 | A release frees the entry, hard or remembering name and time; a bad handle changes nothing. |
| KeyFileModel.KeyFileRoundTrip | crypto.c:987-1282 | For all bytes of one or two keys and every splitting into read chunks, reading the written file gives the keys back. |
| KeyFileModel.FileRead | crypto.c:987-1128 | The parser ends finished, with exactly the keys written out. |
| KeyFileModel.RunConcat | crypto.c:1010-1110 | Parsing goes on across chunk borders as if there were none. |
| KeyFileErrors.CutShortFailsIff | crypto.c:987-1158 | A written file read up to any point fails exactly when more than its last newline is missing. |
| KeyFileErrors.SpoiledKeyFails | crypto.c:1077-1102 | A character that is no hex digit and no white space, anywhere among the digits, makes the read fail whatever follows; only a dash at a line's start is taken for the footer. |
| KeyFileErrors.NoHeaderFails | crypto.c:1057-1065 | Without a line that begins with the header no key is read. |
| KeyFileErrors.ShortKeyFails | crypto.c:1113-1128 | Header and footer with less than one key between them fail. |
| KeyFileErrors.WithoutFooter | crypto.c:1113-1128 | Without its footer a file still gives its keys to a reader that does not insist, and fails for one that does. |
| KeyFileErrors.HexValues | crypto.c:1077-1093 | Digits of either case have their value, and nothing else is a digit. |
| KeyFileErrors.SpacePasses | crypto.c:1094-1095 | White space among the digits is passed over, carriage returns included. |
| KeyFileErrors.HexLayout | buffer.c:327-344 | In the printed key byte i stands behind the i before it, with a line break for every 16 of them. |
| KeyFileErrors.SizesInBits | crypto.c:1213-1282 | The comment line names 1024 or 2048 bits. |
| KeyFiles.WriteKeyFile | crypto.c:1213-1282 | The loops over keys and lines append exactly the modelled file. |
| KeyFiles.ReadKeyFile | crypto.c:987-1128 | The nested loops over chunks and characters give the modelled outcome, errors included. |
| KeyFiles.FormatHexEx | buffer.c:327-344 | The loop prints two lower-case digits a byte. |
| CommandLineModel.SessionIsSplit | manage.c:935-997 | While nothing overflows, a session's lines are those of the filtered byte stream cut at newlines. |
| CommandLineModel.CuttingIsInvisible | manage.c:935-997 | So how the stream is cut into reads makes no difference. |
| CommandLineModel.DrainRejoins | manage.c:1869-1905 | Lines and remainder put together again are the stream, and no line or remainder holds a newline. |
| CommandLineModel.KeptBytes | manage.c:1869-1881 | Kept are newlines and the 95 printable characters. |
| CommandLineModel.AddKeepsEnd | manage.c:1869-1881 | Overflow or not, the buffer holds an end of the kept bytes, as long as they count around a circle of one more than the capacity: the byte too many empties it and is lost. |
| CommandLineModel.ChompTrims | buffer.c:382-398 | Exactly the line-end and null bytes at the end of a line go. |
| CommandLines.CommandLine.Get | manage.c:1883-1897 | In place on two buffers: the first line comes out chomped and the excess waits in the second. |
| CommandLines.CommandLine.Process | manage.c:935-997 | The read loop drains every complete line of what was buffered and received. |
| CommandLines.Serve | manage.c:935-997 | A whole session over pieces gives the modelled lines, and the split of the stream where nothing overflows. |
| EventModel.AllAgree | event.c:110-895 | After any run of ctl and del calls that fits, Windows, poll and select hold the same interest for every event, and it is the one last asked for. |
| EventModel.LastCallDecides | event.h:104-114 | The abstract map says of each event what its last call said. |
| EventModel.WeShowsIff | event.c:110-338 | On Windows a call leaves the table showing the new map exactly when its handles fit, and never moves another event. |
| EventModel.CtlControls | event.c:218-338 | On Windows an error is reported exactly when the handles asked for do not fit. |
| EventModel.ToldIff | event.c:218-338 | On Windows the arguments stay current exactly when no slot that is kept had another one. |
| EventModel.PoShowsIff | event.c:639-725 | The poll table shows the new map exactly when its descriptors fit. |
| EventModel.PoCtlShows | event.c:690-725 | In the poll table an error is reported exactly when the descriptors asked for do not fit. |
| EventModel.SeShowsIff | event.c:839-895 | The select sets show the new map exactly when the descriptor is in range, and maxfd always covers every bit set. |
| EventModel.SeDelForgets | event.c:839-856 | Deleting a descriptor from the select sets clears both bits and its argument. |
| EventModel.WeRunShows | event.c:110-338 | Over every run that fits, the Windows table shows what was asked for, with current arguments if each event keeps one. |
| EventModel.HalfRegistered | event.c:110-134 | With one place left, asking to read and write fails and leaves the event asked to write. |
| EventModel.OldArgumentStays | event.c:268-283 | Going from two handles to one keeps the argument given first. |
| Events.WeSet.Ctl | event.c:218-338 | In place on two arrays: the index search and both switches give the modelled list and error flag, no handle twice. |
| Events.WeSet.DelEvent | event.c:136-157 | The compacting loop leaves exactly the other events' slots, in order. |
| Events.PoSet.Ctl | event.c:690-725 | In place: the first match is overwritten, else a slot appended where there is room. |
| Events.PoSet.Del | event.c:639-662 | In place: the first match is shifted out. |
| Events.SeSet.Ctl | event.c:858-895 | In place: both bits, argument and maxfd of an event in range. |
| IntegerOps.MaskSplits | list.h:145-149 | Masking with a power of two and with its complement splits any 32-bit word into two parts that sum to it. |

## Findings

Properties that fail, each with the exact condition or a concrete input.

- fragment.c:171 checks a whole packet for stray ids with masks that were not shifted into place; most
  stray bits pass (`FragmentChannel.StrayBitsPassIff`).
- pool.c:113-147 widens a range of /30 nets outwards, so its first or last block can leave the
  configured range (`PoolModel.StaysInRangeIff`).
- mss.c:72-120 sums 16-bit values as if aligned; an MSS value at an odd offset usually spoils the
  checksum (`MssModel.FixupKeepsSumIff`, `MssModel.OddOffsetBreaks`).
- mss.c:101 reads the length byte of an option kind that is the last byte; the byte read lies behind the
  options, but never matters (`MssModel.PastIsIgnored`).
- mbuf.c:99-105 asserts that a full ring gives up a live packet; a ring filled with packets of a client
  that left fails it (`MbufModel.FullOfDeadSlots`).
- packet_id.c:90-130 relies on its caller's test: without it an add can put a fresh mark behind an
  expired one, and the early stop of the reap is no longer sound (`ReplayModel.AddKeepsSuffixIff`).
- multi.c:788-857 reports a permanent route as learned although a live cached entry of the same client
  stands in its place and will age out (`RouteServer.PermanentIsRecordedIff`). Connecting clients never
  meet this (`RouteServer.ConnectRecordsHost`).
- event.c:218-338 keeps an old argument in a slot it does not rewrite (`EventModel.ToldIff`), and
  registers half of a request that does not fit (`EventModel.HalfRegistered`).
- fragment.c:305-350 sets the outgoing fragment size even for a datagram it refuses; under a half-sent
  one that would change the size of the pieces still to come. forward.c:1251 reads no new datagram
  while a fragment waits, which is what `FragmentChannel.EndToEndSafe` assumes of its sender.

## Left out

- Multi.MultiContext.CloseInstance: the shutdown form, which frees without removing iroutes, is not modelled.
- Mss.MssFixup: the packet is taken as long as its buffer says; an IP header length below 5 words is followed as the code follows it.
- FragmentChannel.EndToEndSafe: a datagram that is refused while another is half sent is not covered, see Findings.
- FragmentChannel.EndToEndDelivers: says nothing of sequence ids used again, where a late fragment may meet a newer datagram.
- Fragments.FragmentMaster.ProcessIncoming: the buffer handed up is a copy; in the source it aliases the slot's buffer until the next packet.
- Fragments.FragmentMaster.ProcessOutgoing: the assertions on the outgoing buffer's room are taken to hold.
- CommandLines.CommandLine.Process: what stays buffered after an overflow is stated, but not what lines a whole overflowing session gives; the loop is not stopped by a command that halts the connection.
- Multi.MultiContext.ConnectionEstablished: scripts, plugins and the pool address are parameters; the options a script may push are not modelled.
- RouteModel.Mask: netbits_to_netmask is not part of this model; masks are the usual prefix masks.
- KeyFiles.ReadKeyFile: an error return of read() and the size of the read buffer are outside; chunks are non-empty.
- KeyFiles.FormatHexEx: truncation by buf_catrunc is left out; the key file's buffer is large enough.
- PoolModel.NeverTwoHolders: ifconfig_pool_set, which loads a file before the first acquire, is left out.
- Events.WeSet.Ctl: only sets without EVENT_METHOD_FAST; the fast forms append without looking.
- The epoll event set and all waiting: their state lives in the kernel.
- Writing the highest packet id to disk and reading it back: runs start at packet_id_init.
- The reliability layer, TLS control channel, option parser and scheduler are not part of this model.
- Broadcast and multicast flooding, the real-address table and its floating clients: easy beside the routing table.
- OpenSSL, LZO, NTLM, sockets, tun/tap, daemon start-up: foreign calls and plumbing.
- Locks and threads: the model is single-threaded.
- Wrap-around of the cache generation counter.
