# XSKNet, verified

XSKNet answers ICMP echo requests from user space over AF_XDP. A daemon keeps a registry of virtual interface
pairs in an intrusive hash table; a client owns the packet memory of one pair and turns received requests into
replies in place. This project models the three parts that carry state, loops or arithmetic and proves what
they are for.

**The hash table** (`Bits`, `JenkinsHash`, `Elements`, `Chains`, `AppOrder`, `Expansion`, `HashTables`, `Load`,
`StableSort`, `AssocLists`). Every element is in two linked structures at once, the application order and a
bucket chain. The class invariant is HASH_FSCK plus the tail pointer, the bucket of every element and
`num_buckets = 2^log2_num_buckets`, and that chains stay short until expansion is inhibited. Each operation is a
method over the pointers whose contract names the new order; the sort and the ordered insertion are tied to
sequence functions whose laws are lemmas, and whole runs of operations refine an association list. The table is
instantiated with `struct veth_pair`, its only user, so the handle lives in the element. The hash function is
any function of the key; HASH_JEN is verified on its own.

**The port registry** (`VethList`, `Unloading`): veth_list.c, the registry part of socket_cmds.c and of the command
dispatch, and the daemon's exit path. `Element.freed` records calls of free(); during an iteration that frees,
links and prefixes are read through `Next` and `Prefix`, which require an element that is not freed. unload_list
can come to a freed element, so its model stops there and says so. The head pointer that veth_list_destroy and
unload_list start from is a parameter of its own, which may dangle.

**The packet frames** (`UmemProtocol`, `Arrivals`, `FrameMemory`, `XskSockets`). The step system has one action per ring
operation of the receive loop and two for the kernel, which may act between any two of them. It takes a frame
only while the frames it holds and the RX ring's entries together leave room in the RX ring: that is the
enabling condition of `KernelTake`. A ring query may answer with more than was asked for and may be stale, but
never with more than is free. The class is the code over the array of free frames; it carries its run, and its
contracts say which steps of the system the code takes and in which order, so the theorems over all runs are
theorems about the code. It also carries the packet memory and what the kernel delivered: the partition of the
frames is what keeps a waiting packet as it arrived until it is processed, and its reply as it was written. The
sizes are those of libxdp's defaults: 4096-byte frames, 2048 entries for the fill and the RX ring.

**The echo reply** (`Checksum`, `EchoReply`), on bytes and 16-bit words, for a little-endian host and a 20-byte
IPv4 header. `ProcessPacket` takes the frame memory and the received length apart, as the code does.

Some properties one would expect hold only under a condition; the condition is proved exact:

- A patched checksum is right unless the request is zero everywhere besides its type and checksum.
- Prefixes stay unique unless a prefix of 16 or more characters meets its own truncation, because the lookup
  uses the whole prefix and the entry keeps 15 characters.
- Interface names are distinct only for prefixes of at most 13 characters.
- A prefix of 16 or more characters is never found again, so delete_port does not undo create_port.
- unload_list follows a freed entry or leaves entries behind, unless entries with the same key are in their bucket
  chain in list order; an add puts the newest in front, an expansion turns them around.
- veth_list_destroy followed by unload_list starts from a freed head unless the registry was empty.
- An expansion changes what a lookup finds exactly for keys stored more than once.
- Packets of 20 to 34 bytes are judged by bytes behind the received ones, and the reply to one of 37 bytes depends
  on the byte behind them.

## Model

| member | source | states |
|---|---|---|
| Bits.MaskIsRemainder | src/lib/uthash.h:433-436 | masking with `num_buckets - 1` is the remainder, for every word and every power of two: HASH_TO_BKT picks bucket `hashv mod num_buckets` |
| Bits.ShiftAndMaskIsCeil | src/lib/uthash.h:818-835 | the shift-and-mask expression equals the rounded-up quotient the comment asks for |
| JenkinsHash.MixIsBijective | src/lib/uthash.h:637-648 | HASH_JEN_MIX has an inverse on triples of 32-bit words |
| JenkinsHash.MixIsNineStatements | src/lib/uthash.h:637-648 | the mixing is the nine statements of the macro in their order, with every shift written as a division or a product modulo 2^32 |
| JenkinsHash.HashJen | src/lib/uthash.h:650-689 | for a key of any length the block loop and the fall-through switch compute the recursive digest: blocks of 12 bytes, then the zero-padded tail with the length in the low byte, from the macro's three start words; no byte past the key is read |
| JenkinsHash.DigestByBytes | src/lib/uthash.h:657-688 | the digest in terms of single key bytes: which byte goes into which word at which weight, for blocks and for tails of every length |
| JenkinsHash.HashTail | src/lib/uthash.h:673-687 | the switch adds exactly the little-endian words of the padded tail |
| JenkinsHash.ShortKeysDiffer | src/lib/uthash.h:650-689 | two different keys shorter than 12 bytes, of equal or different length, never end in the same mix state |
| JenkinsHash.OneBlockDiffers | src/lib/uthash.h:657-688 | keys of one length that differ inside one block or the tail only never end in the same mix state, so every byte counts |
| Chains.FindInBucket | src/lib/uthash.h:748-767 | the result is the first element of the chain with that hash value and key, or NULL when there is none |
| Chains.PushFront | src/lib/uthash.h:770-779 | the element becomes the chain's head with all `hh_prev`/`hh_next` links and the count right; every other chain keeps its links |
| Chains.DeleteInBucket | src/lib/uthash.h:792-805 | the element leaves its chain, neighbours and head are relinked, every other chain keeps its links |
| AppOrder.Append | src/lib/uthash.h:281-287 | the list grows by the element at its end, links and tail right |
| AppOrder.InsertBefore | src/lib/uthash.h:370-377 | the element enters in front of any position, front included, with head and links repaired |
| AppOrder.Remove | src/lib/uthash.h:464-474 | head, tail and both neighbours are repaired for a front, middle, end or sole element |
| AppOrder.MergeRuns | src/lib/uthash.h:919-960 | merging two runs in place appends their merge to the output and leaves the rest of the list intact |
| AppOrder.OnePass | src/lib/uthash.h:903-965 | one pass leaves a properly linked list equal to the pairwise merge of runs, and merges at most one pair exactly when the list fits two runs |
| AppOrder.Sort | src/lib/uthash.h:893-975 | the whole sort relinks the list into the order of `MergeSort`, terminates, and takes `PassCount` passes; only `prev` and `next` are written |
| StableSort.MergeSortIsStableSort | src/lib/uthash.h:893-975 | under any total preorder that order is sorted, a permutation, and keeps equal elements in their old order |
| StableSort.PassDoublesBlocks | src/lib/uthash.h:907-971 | if all runs of `size` are sorted, a pass makes all runs of twice the size sorted |
| StableSort.SortPasses | src/lib/uthash.h:902-972 | sorting n elements takes max(1, ceil(log2 n)) passes |
| StableSort.StableSortIsUnique | src/lib/uthash.h:889-892 | two sorted arrangements with the same order inside every class of equal elements are the same list |
| StableSort.InsertKeepsSorted | src/lib/uthash.h:289-296 | ordered insertion into a sorted list keeps it sorted and puts the element behind all equal ones |
| StableSort.SortEqualsOrderedInsertion | src/lib/uthash.h:353-384 | sorting afterwards gives exactly the order ordered insertion would have kept all along |
| HashTables.FindPosition | src/lib/uthash.h:289-296 | the loop stops at the first element that must come behind the new one |
| Expansion.MoveHandle | src/lib/uthash.h:857-871 | moving one handle counts it as non-ideal exactly when its position exceeds the ideal length, and keeps `expand_mult` exact: 0 up to the ideal length, from there the smaller of count - ideal and ceil(count / ideal) |
| Expansion.Redistribute | src/lib/uthash.h:853-873 | every new chain holds exactly the handles of its one parent chain whose hash selects it, in reverse order, linked and counted; `nonideal_items` is the sum of the excesses |
| Expansion.RedistributedMembers | src/lib/uthash.h:856-870 | a new chain's members are the parent chain's members with that hash remainder, both ways |
| Expansion.NonidealBound | src/lib/uthash.h:849-863 | by pigeonhole the non-ideal items plus one ideal chain never exceed the items |
| Load.ExpansionIsLight | src/lib/uthash.h:807-830 | redistributing at most 15 items per new bucket leaves an ideal chain length of at most 15, no chain longer than 15 times its multiples, and room for fewer than 30 items per bucket before the next expansion |
| HashTables.ExpandedCovers | src/lib/uthash.h:836-886 | an expansion keeps the exact set of handles, each in the bucket its hash selects |
| HashTables.FoundAfterExpansionIff | src/lib/uthash.h:836-886 | redistribution turns the elements with one key around, so an expansion changes what a lookup finds exactly when two elements have the key |
| HashTables.CountsAddUp | src/lib/uthash.h:519-566 | the bucket counts add up to the length of the application-order list, as HASH_FSCK demands |
| HashTables.HashTable.Find | src/lib/uthash.h:156-176 | NULL exactly when no element has the key, else the first element with it in its bucket chain |
| HashTables.HashTable.ChainsStayShort | src/lib/uthash.h:807-816 | in every valid table `ideal_chain_maxlen` is at most 15; until expansion is inhibited there are fewer than 30 items per bucket, no chain is longer than 15 * (expand_mult + 1), and the `expand_mult + 1` average below 3 |
| HashTables.HashTable.ItemIsInItsBucket | src/lib/uthash.h:433-436 | in every valid table an element is in the chain of bucket `hash(key) mod num_buckets`, which is the masked hash value |
| HashTables.HashTable.MakeTable | src/lib/uthash.h:215-245 | a fresh table of 32 empty buckets and chains |
| HashTables.HashTable.AddToTable | src/lib/uthash.h:340-348 | the invariant holds again, and the buckets double exactly when the bucket reached its threshold and expansion is not inhibited |
| HashTables.HashTable.ExpandBuckets | src/lib/uthash.h:836-886 | buckets double with all bookkeeping right (`ideal_chain_maxlen` is the ceiling, every `expand_mult` is given by its bucket's count, `nonideal_items` is the number of chain positions at or behind the ideal length, `ineff_expands`, `noexpand`); the list and the elements stay; a lookup finds the element it found before exactly for the keys that at most one element has |
| HashTables.HashTable.Add | src/lib/uthash.h:399-418 | the element is appended to the order; list, tail, chains, counts and hash values satisfy the full invariant, expansion included; the handle is in front of its chain, or all chains are redistributed from that state |
| HashTables.HashTable.Delete | src/lib/uthash.h:453-480 | exactly this element leaves the order and its chain, all others keep their places; the invariant holds, also when the table is given back |
| HashTables.HashTable.Replace | src/lib/uthash.h:257-265 | the element the lookup finds, if any, is returned and leaves list and chain; the new one is appended and enters its chain in front |
| HashTables.HashTable.AddInOrder | src/lib/uthash.h:353-384 | the new order is that of `InsertInOrder`, whatever the position; the handle enters its chain in front, and the invariant holds |
| HashTables.HashTable.Sort | src/lib/uthash.h:893-975 | the new order is that of `MergeSort`; the invariant holds with chains and counters untouched |
| AssocLists.Perform | src/lib/uthash.h:156-480 | find, guarded add, replace and delete act on the table as on an insertion-ordered association list, and on its contents as on a plain map |
| AssocLists.ApplyOnMap | src/lib/uthash.h:156-480 | on lists with distinct keys the operations are the plain map updates: find none, add if absent, replace, remove |
| AssocLists.ApplyAtPresent | src/lib/uthash.h:257-480 | with a stored key, a deletion takes out that pair only and a replacement moves it to the end; find and add leave the list |
| AssocLists.ApplyAbsent | src/lib/uthash.h:257-480 | with a key that is not stored, add and replace append the pair; find and delete leave the list |
| AssocLists.Run | src/lib/uthash.h:156-480 | for every sequence of operations all answers and the final contents are those of the association list and of a plain map that is updated operation by operation |
| VethList.EntryHolds | src/lib/veth_list.c:25-36 | an entry holds the first 15 characters of the prefix, of `<prefix>_inner` and of `<prefix>_outer` |
| VethList.OwnNamesDiffer | src/lib/veth_list.c:27-30 | an entry's two interface names differ exactly for prefixes of at most 13 characters |
| VethList.NamesDistinctIff | src/lib/veth_list.c:27-36 | over entries with distinct prefixes all interface names are pairwise distinct exactly when no prefix exceeds 13 characters |
| VethList.AddKeepsUniqueIff | src/lib/veth_list.c:13-38 | an add keeps the stored prefixes unique exactly when the lookup finds the prefix or its truncation is new; always for at most 15 characters |
| VethList.LongPrefixStoredTwice | src/lib/veth_list.c:15-33 | adding any prefix of 16 or more characters twice stores the truncated prefix twice |
| VethList.CreateDeleteRestoresIff | src/lib/socket_cmds.c:17-63 | creating a port with a new prefix and deleting it gives back the old list exactly when the prefix has at most 15 characters |
| VethList.ReachableUnique | src/lib/veth_list.c:13-59 | every registry reached with prefixes that fit the buffer, whatever malloc does, holds each prefix once, with the names built from it |
| VethList.ReachableNamesDistinct | src/lib/veth_list.c:13-59 | with prefixes of at most 13 characters every reachable registry has pairwise distinct interface names |
| VethList.VethListAdd | src/lib/veth_list.c:13-41 | it fails exactly when the prefix is stored or malloc fails; otherwise one new entry with the right names is appended |
| VethList.VethListRemove | src/lib/veth_list.c:43-59 | it fails exactly when the prefix is not stored; otherwise the entry the lookup finds is unlinked from list and chain and freed, all others stay |
| VethList.VethListDestroy | src/lib/veth_list.c:69-76 | entries are visited once, in insertion order, each freed once, no freed entry is followed, the table ends empty; the head is passed by value, so the caller's pointer is left at the first, freed entry unless the list was empty |
| VethList.DeletePort | src/lib/socket_cmds.c:54-63 | the entry the lookup finds goes, and the names for the scripts are formed from the prefix |
| Unloading.UnloadCleanIff | src/lib/socket_cmds.c:85-90 | over any list with any keys, the walk follows live elements only and leaves nothing behind exactly when elements with the same key stand in their bucket chain in the order of the list |
| Unloading.StaysBehind | src/lib/socket_cmds.c:85-90 | once an entry stays behind the walk, at least one entry is left in the end |
| Unloading.SecondAddBreaksOrder | src/lib/socket_cmds.c:85-90 | adding a key that is stored already breaks that order, as long as no expansion follows |
| Unloading.ExpansionReverses | src/lib/uthash.h:836-886 | an expansion turns the order of elements with one hash value around |
| Unloading.OneDuplicate | src/lib/socket_cmds.c:85-90 | with one key stored twice and the later entry found first, the walk faults exactly when the two entries are neighbours in the list; else it leaves the earlier one |
| VethList.UnloadList | src/lib/socket_cmds.c:85-90 | for every registry and either state of the head pointer: what the walk does is the outcome of `Unload`; no freed entry is followed and the table ends empty exactly when the head does not dangle and equal keys are in chain order; then the entries are visited once each in list order; in the end exactly the entries that left are freed; unique prefixes are enough |
| VethList.LongPrefixUnloadFaults | src/lib/socket_cmds.c:85-90 | an empty registry to which a prefix of 16 or more characters is added twice: unload_list frees the saved successor and then follows it |
| VethList.StopDaemon | src/daemon.c:40-43 | veth_list_destroy followed by unload_list from the same head pointer follows a freed entry exactly when the registry was not empty |
| VethList.CreatePort | src/lib/socket_cmds.c:17-26 | the registry gains the entry unless it is there or malloc fails; the names are formed either way |
| VethList.CommandOnStored | src/lib/socket_handler.c:26-51 | over unique prefixes, delete_port of a stored prefix takes out its entry and no other; create_port of it does nothing |
| VethList.CommandOnNew | src/lib/socket_handler.c:26-51 | create_port of a new prefix appends its entry when malloc succeeds; delete_port of it does nothing |
| VethList.CommandsRestoreIff | src/lib/socket_handler.c:26-51 | the commands create_port and delete_port of one new prefix leave any registry as it was exactly when the prefix has at most 15 characters |
| VethList.HandleCommands | src/lib/socket_handler.c:26-51 | every run of create_port and delete_port commands, with prefixes of any length and any malloc outcome, does command by command to the registry what the commands do to a list of entries: append one, take one with the prefix out, or nothing |
| UmemProtocol.StepKeepsInv | src/lib/xsk_receive.c:192-237 | every step of the receive loop and of the kernel keeps the partition of the frames, the ring bounds and the counters |
| UmemProtocol.NoFrameLostOrDuplicated | src/lib/xsk_receive.c:55-71 | in every state of every interleaving each of the 4096 frames is in exactly one place, once |
| UmemProtocol.FillRingHoldsFrames | src/lib/xsk_receive.c:212-213 | no fill ring entry of any reachable state is INVALID_UMEM_FRAME; each names a frame |
| UmemProtocol.RefillAlwaysCovered | src/lib/xsk_receive.c:200-210 | in every reachable state, however stale the ring's answer, `stock_frames` is at most `umem_frame_free` and the first reserve succeeds |
| UmemProtocol.NeverStuckNeverFails | src/lib/xsk_receive.c:66-71 | on no run is the retry loop entered or the assertion violated, and `outstanding_tx` stays 0 |
| UmemProtocol.StatsAreTotals | src/lib/xsk_receive.c:219-233 | on every run the counters are the totals over the handled descriptors; sent never exceeds received at a batch boundary, and by at most 64 inside a batch |
| UmemProtocol.PoppedFrames | src/lib/xsk_utils.c:104-120 | moving frames from the stack to the fill ring loses none, for any number of them |
| XskSockets.XskSocket.constructor | src/lib/xsk_utils.c:103-122 | configuration puts the upper 2048 frames on the fill ring, last one first, and leaves the lower 2048 on the stack in ascending order, all else empty: the initial state of the step system |
| Arrivals.DeliveredBeforeRefill | src/lib/xsk_utils.c:110-122 | on no run do more than 2048 packets arrive before the first refill is submitted |
| Arrivals.AllCanArrive | src/lib/xsk_utils.c:110-122 | any number of packets up to 2048 can arrive before it |
| Arrivals.BatchSize | src/lib/xsk_receive.c:192-194 | a batch can take any number of packets up to 64, and on no run more |
| Arrivals.AllCanBeHandled | src/lib/xsk_receive.c:192-237 | the client never starves: for packets of any number and lengths there is a run on which they arrive and are handled one after the other, each with any outcome of sendto |
| XskSockets.XskSocket.AllocUmemFrame | src/lib/xsk_receive.c:55-64 | the top frame, or INVALID_UMEM_FRAME from an empty stack; the slot is marked invalid |
| XskSockets.XskSocket.FreeUmemFrame | src/lib/xsk_receive.c:66-71 | the frame is pushed; the precondition is the assertion |
| XskSockets.XskSocket.CompleteTx | src/lib/xsk_receive.c:77-99 | for any `outstanding_tx` exactly the completed frames go to the stack, in order, and the counter never underflows |
| FrameMemory.WaitingApart | src/lib/xsk_receive.c:219-230 | in every reachable state a packet that waits is in a frame of its own, which neither the kernel nor the free stack has |
| FrameMemory.NextAnswered | src/lib/xsk_receive.c:219-230 | processing the next packet answers it in its frame, leaves all earlier answers and all waiting packets as they are, and puts the frame on the stack |
| FrameMemory.AnswersKept | src/lib/xsk_receive.c:192-237 | whatever the kernel writes, answered packets on the stack stay as they are |
| EchoReply.ProcessedInFrame | src/lib/xsk_receive.c:113-190 | what process_packet accepts and writes depends on the packet's frame alone and stays inside it |
| XskSockets.XskSocket.KernelMay | src/lib/xsk_receive.c:192-237 | any kernel steps leave the memory of all frames outside fill ring and kernel as it is, and every waiting packet as it was delivered |
| XskSockets.XskSocket.ProcessNext | src/lib/xsk_receive.c:219-230 | one descriptor is one processing step: the packet as the kernel delivered it becomes its reply in its frame, or stays if it is no echo request; the frame is given back, the byte and transmission counters advance by its length |
| XskSockets.XskSocket.Refill | src/lib/xsk_receive.c:200-217 | the refill is a query, and when slots are free one reserve that succeeds at once, one write per slot and a submit |
| XskSockets.XskSocket.HandleReceivePackets | src/lib/xsk_receive.c:192-237 | one call, with the kernel acting between any two ring operations, takes exactly the steps of one batch in program order: peek, query, reserve, one write per slot, submit, one step per descriptor, release, complete; the packets it handles are the next ones delivered, each ends as the reply to the bytes it was delivered with, or unchanged if it is no echo request, and its frame is on the stack |
| XskSockets.XskSocket.RxAndProcess | src/lib/xsk_receive.c:239-258 | every poll result of 1, and no other, runs one batch; afterwards the frame invariant holds, `rx_packets` counts all handled descriptors and bounds `tx_packets`, and nothing is outstanding |
| Checksum.CsumReplace2 | src/lib/xsk_receive.c:101-111 | the wrapping 16-bit arithmetic is equation 3 of section 3 of RFC 1624, for all inputs |
| Checksum.ReplacedCongruent | src/lib/xsk_receive.c:101-111 | the checksum changes by old - new modulo 65535 |
| Checksum.ReplaceBackRestoresIff | src/lib/xsk_receive.c:101-111 | replacing a word and putting it back restores the checksum exactly when it is not 0xFFFF |
| Checksum.ReplaceChainsIff | src/lib/xsk_receive.c:101-111 | two replacements in a row equal one, except exactly for sum and old 0xFFFF with new 0 |
| Checksum.ByteOrderIndependence | src/lib/xsk_receive.c:156-157 | RFC 1071 section 2 (B): the network-order sum is the byte-swapped little-endian sum, for messages of any length |
| Checksum.ValidInBothOrders | src/lib/xsk_receive.c:156-157 | a message validates in network order exactly when it does as little-endian words |
| EchoReply.ReplyValidIff | src/lib/xsk_receive.c:156-157 | for a valid request of any length the patched reply validates exactly when the request has a non-zero byte besides type and checksum |
| EchoReply.ReplyChecksumFromScratchIff | src/lib/xsk_receive.c:156-157 | under the same condition, and only then, the patched checksum is the one computed from scratch |
| EchoReply.EmptyEchoFails | src/lib/xsk_receive.c:156-157 | the all-zero echo request validates, its patched reply does not |
| EchoReply.ProcessPacket | src/lib/xsk_receive.c:113-190 | an accepted packet becomes its reply byte for byte, any other packet and the rest of the memory stay, the result is always false, and a reply is sent exactly when the packet was accepted and sendto succeeded; in header fields: accepted is EtherType 0x0800, protocol 1, type 8 and at least 20 bytes, and the reply has both address pairs swapped, type 0 and the checksum eight higher modulo 65535 |
| EchoReply.ParseAssembled | src/lib/xsk_receive.c:113-121 | every frame is assembled from its header fields |
| EchoReply.AssembledParse | src/lib/xsk_receive.c:113-121 | and a frame's fields are the ones it was assembled from |
| EchoReply.ReplySwapsAddresses | src/lib/xsk_receive.c:148-155 | MAC and IP addresses trade places; all other header bytes stay (RFC 792) |
| EchoReply.ReplyKeepsData | src/lib/xsk_receive.c:156-157 | type 0; code, identifier, sequence number and data stay (RFC 1122, section 3.2.2.6) |
| EchoReply.ReplyIsFinal | src/lib/xsk_receive.c:144-147 | processing the reply again changes nothing |
| EchoReply.HeaderChecksumKept | src/lib/xsk_receive.c:153-155 | a five-word IPv4 header checksum stays valid, because the swap permutes 16-bit words |
| EchoReply.ProcessedMessageValidIff | src/lib/xsk_receive.c:113-157 | end to end, for the ICMP message up to any end: the reply is valid and correct from scratch exactly when the request has a non-zero byte besides type and checksum |
| EchoReply.LengthChecksSufficeIff | src/lib/xsk_receive.c:123-133 | the received bytes alone decide acceptance exactly for lengths below 20 or from 35 on, because the length is compared with each header alone |
| EchoReply.ReplyIsTheOne | src/lib/xsk_receive.c:144-157 | an accepted packet has exactly one reply |
| EchoReply.SplitChecksum | src/lib/xsk_receive.c:156-167 | two requests that agree on their 37 received bytes and whose replies differ in byte 36 |
| EchoReply.SentByReceivedIff | src/lib/xsk_receive.c:123-167 | what is sent is determined by the received bytes exactly for lengths below 20, 35, 36 and from 38 on: at 37 the patched checksum mixes in the byte behind them |

## Left out

- 32-bit counters: `num_items`, `count`, `num_buckets` and the statistics are unbounded naturals; wrap-around needs 2^32 elements or 2^64 packets.
- HASH_SELECT, HASH_CLEAR, HASH_REPLACE_INORDER, the Bloom filter, HASH_NONFATAL_OOM, NO_DECLTYPE and the other hash functions: unused here.
- Elements.Element: the handle's `tbl` pointer and the `hho` offset are collapsed; key and key length are one string value.
- The strings made by strdup in veth_list_add, which are not freed on removal, and all logging.
- system() calls, XDP loading, the device map, sockets, threads, signals and process exit.
- libxdp, the XDP programs and the kernel's own data structures are not part of this model; the rings are bounded FIFOs and the kernel's moves are visible steps.
- UmemProtocol.KernelDeliver: the headroom leaves at least 42 bytes of the frame; what process_packet would read past a frame's end is not modelled.
- UmemProtocol: the RX frames are never queued for transmission, as in the code; the step of complete_tx for queued frames is covered by `CompleteTx` alone.
- EchoReply.HeaderChecksumKept: for a header of five words only; with IPv4 options the code takes option bytes for the ICMP header.
- poll() and sendto() results are free choices; get_mac_address and init_iface are not modelled.
- xsk_stats.c: floating-point rate printing.
