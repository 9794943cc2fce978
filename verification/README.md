# Verified model of the SGX/DPDK firewall

The project models, in Dafny, the parts of the firewall that carry real
algorithms, and proves what they are for.

* **Access control lists** (`Acl*.dfy`). Rules arrive as a trie of bytes whose
  nodes are shared. `AclPlan` counts what each node needs, `AclPlacement`,
  `AclGen` and `AclCompiler` lay the nodes out in one flat table of
  transitions (DFA nodes with shared groups of 64, range nodes with signed
  boundaries, single nodes, match nodes), `AclMeaning` proves that stepping
  the table is walking the trie, and `AclWord` and `AclPacked` carry that over
  to the 64-bit words the C code stores. `AclSearch`, `AclSearchSteps` and
  `AclClassify` model the interleaved search over slots with recycled
  completions; `AclMeets` and `AclAnswer` join the two: tries in, one best
  result per packet out, whatever the interleaving, and `AclWordSearch` does
  so on the packed words.
* **Packet rewriting**. `SwapWords`, `FieldSwap` and `PassThrough` are the
  masked word swaps of the pass-through pipeline; `MplsBits`, `MplsLayout`,
  `Routing` and `Encap` the MPLS encapsulation of the routing pipeline;
  `BitMask`, `FlowMeter`, `FlowActions` and `PolicerLedger` the metering and
  policing of the flow actions pipeline, one packet, four packets and by mask.
* **Accounting**. `CountMin` and `Sketch` are the enclave's count-min sketch
  with its bulk updates and the two copy paths that feed it.
* **Control**. `ThreadTimer` and `ThreadLoop` are the timer part of the worker
  threads; `RuleTable`, `RuleBatch`, `RuleCount`, `RuleList`, `RuleListing`, `FirewallKey`,
  `FirewallMirror`, `FirewallBulk`, `FirewallEffect` and `FirewallCode` the firewall's rule
  management on both sides of the message queue; `CoreTopology` and `CoreMap`
  the CPU core map; `Inet4`, `Inet6` and `InetText` the address parsers.

`dafny verify dfyconfig.toml` checks everything.

## Where the code does not do what is said of it

Each point names the lemma at a concrete input and the one that gives the exact
condition.

* The comment on `inet_pton6` says that a gap in a full address is silently
  ignored. The code refuses such a text (`Inet6.EmptyGapExample`); what it
  accepts is exactly the grammar of `Inet6.AddressIsGrammar`.
* A packed transition has 29 bits for its address, and the default size limit,
  `SIZE_MAX` (`Enclave/dpdk/librte_acl/acl_bld.c:1563-1565`), does not keep
  addresses below that: the first one beyond changes the node's type
  (`AclWord.AddressOverflows`). Packing is lossless exactly below 2^29
  (`AclWord.PackRoundTrip`, `AclWordSearch.SeenAsBuilt`), which a limit of up
  to 4 GiB guarantees (`AclPacked.SizeLimitKeepsAddresses`).
* With ARP on, routing stores the ARP key after the header and at a freely
  configured offset, so a key over the header spoils it
  (`Encap.KeyOverLabels`; `Encap.AllExactIff`).
* Adding a firewall rule whose key exists updates the front end's priority but
  not the back end's (`FirewallBulk.ReAddDiverges`;
  `FirewallMirror.AddRuleExact`). This is also how a negative priority gets
  into the rule list, after which the listing loop does not end before its
  `int` counter overflows (`RuleListing.ListingEnds`).
* A bulk add that changes a port and then runs out of room leaves the changed
  port behind in the back end (`FirewallBulk.CrowdedAddDiverges`), and one that
  names a new key twice is taken by the back end and rejected by the front end
  (`FirewallBulk.DoubleAddDiverges`); `FirewallBulk.AddBulkMirrors` has the
  exact condition, by counting new keys and free positions. A bulk delete of
  such a key then follows a null pointer (`FirewallBulk.DoubleAddUnremovable`),
  which does not happen while the two ends are in step
  (`FirewallBulk.MirrorRemovable`).
* A bulk delete that names keys both present and absent removes the present
  ones from the back end and none from the front end
  (`FirewallBulk.MixedDeleteDiverges`; `FirewallBulk.DeleteBulkMirrors`).
* `cm_estimate` looks a header up by its CRC while the bulk updates count by
  source address, so its estimate bounds nothing about bulk-fed traffic
  (`CountMin.CrcIsNotSource`) unless the two fall into the same cells
  (`CountMin.KeyingMatters`).
* A socket with exactly `n_max_cores_per_socket` cores is refused, although
  the map has room for it (`CoreMap.FullSocketRefused`; `CoreMap.Init`).

## Model

| member | source | states |
|---|---|---|
| AclTrie.NextIsTheLabelledPointer | Enclave/dpdk/librte_acl/acl_gen.c:155-174 | in a well-formed node a pointer decides a byte if and only if its bit set holds the byte, whatever the order of the pointers |
| AclRuns.CountSequentialGroups | Enclave/dpdk/librte_acl/acl_gen.c:185-219 | the counting loops compute exactly the number of runs of a bit set in signed byte order |
| AclRuns.CountFanout | Enclave/dpdk/librte_acl/acl_gen.c:224-243 | the loop over the pointers computes the fanout function |
| AclRuns.FanoutCountsRuns | Enclave/dpdk/librte_acl/acl_gen.c:224-243 | the fanout counted from the separate bit sets equals the number of runs of deciding pointers over 0x80..0xff,0x00..0x7f |
| AclRuns.HeadAt | Enclave/dpdk/librte_acl/acl.h:83-94 | counting the run boundaries at or below a position and indexing the run heads finds that position's own entry |
| AclDfa.FillDfa | Enclave/dpdk/librte_acl/acl_gen.c:140-177 | filling pointer by pointer leaves at every byte the entry of the pointer that decides it, or no-match |
| AclDfa.CountGroups | Enclave/dpdk/librte_acl/acl_gen.c:118-138 | 64-entry groups get the same number exactly when they are equal, and numbers are dense |
| AclDfa.FillGroups | Enclave/dpdk/librte_acl/acl_gen.c:105-116 | every entry of the 256-entry table is found at its group's shared place |
| AclRange.RangeLookup | Enclave/dpdk/librte_acl/acl.h:83-94 | the signed boundary lookup lands on the run that holds the byte, for every byte |
| AclRange.FillRanges | Enclave/dpdk/librte_acl/acl_gen.c:305-352 | the scan writes one entry per run, as many as there are runs, and the boundaries of all runs |
| AclPlan.Counter.Decide | Enclave/dpdk/librte_acl/acl_gen.c:260-293 | a node's type, groups and space are chosen so that they suit its fanout, and the counters grow by exactly its space |
| AclPlan.Counter.CountTypes | Enclave/dpdk/librte_acl/acl_gen.c:248-303 | the recursive pass plans a node and everything below it once, shared or not, and the counters stay the sum over the planned nodes |
| AclPlan.CountAll | Enclave/dpdk/librte_acl/acl_gen.c:248-303 | exactly the nodes reachable from the roots are planned, each once, and the counters are their total space |
| AclPlan.RoomFor | Enclave/dpdk/librte_acl/acl_gen.c:446-471 | a node not yet placed still fits behind the nodes already placed of its kind |
| AclPlacement.Place | Enclave/dpdk/librte_acl/acl_gen.c:369-421 | giving a node the place at its cursor keeps all placed nodes apart and inside their regions |
| AclPlacement.Separate | Enclave/dpdk/librte_acl/acl_gen.c:359-421 | two placed nodes, match nodes apart, never share a transition |
| AclPlacement.DistinctIndexes | Enclave/dpdk/librte_acl/acl_gen.c:359-421 | distinct nodes get distinct node_index values, none of them the no-match one |
| AclPlacement.CursorsAtEnd | Enclave/dpdk/librte_acl/acl_gen.c:446-471 | when all planned nodes are placed every cursor is exactly at the end of its counted region |
| AclResolve.NamesTellApart | Enclave/dpdk/librte_acl/acl_gen.c:305-352 | writing resolved indexes instead of pointer numbers keeps different deciders different |
| AclResolve.SameBreaksInBothPasses | Enclave/dpdk/librte_acl/acl_gen.c:388-396 | the unresolved and the resolved pass find the same run boundaries |
| AclResolve.RunsAreFanout | Enclave/dpdk/librte_acl/acl_gen.c:320-347 | a range node gets as many entries as the counting pass counted |
| AclResolve.SharedGroupsAgree | Enclave/dpdk/librte_acl/acl_gen.c:289-292 | groups found equal on pointer numbers are equal on resolved entries |
| AclResolve.DfaAddress | Enclave/dpdk/librte_acl/acl.h:97-105 | index + byte - offset[byte / 64] is the shared place of the byte |
| AclResolve.RangeReads | Enclave/dpdk/librte_acl/acl_gen.c:388-396 | the boundaries fixed before the children were placed read, for every byte, the child's resolved entry |
| AclResolve.OneDecider | Enclave/dpdk/librte_acl/acl_gen.c:273-275 | a node of fanout 1 sends every byte to one and the same child |
| AclGen.DfaLanes | Enclave/dpdk/librte_acl/acl_gen.c:88-103 | the packed offsets tell for each group how far its entries were moved |
| AclGen.QuadLanes | Enclave/dpdk/librte_acl/acl_gen.c:388-396 | the unresolved pass over a range node fixes the boundaries of its runs |
| AclGen.ResolveDfa | Enclave/dpdk/librte_acl/acl_gen.c:424-427 | after resolution a DFA node reads the right child for every byte |
| AclGen.ResolveQuad | Enclave/dpdk/librte_acl/acl_gen.c:434-436 | after resolution a range node reads the right child for every byte |
| AclGen.ResolveSingle | Enclave/dpdk/librte_acl/acl_gen.c:428-433 | a single node reads its only child for every byte |
| AclCompiler.Generator.constructor | Enclave/dpdk/librte_acl/acl_gen.c:523-535 | the table starts with the 256 no-match entries and an idle node that points to itself |
| AclCompiler.Generator.GenNode | Enclave/dpdk/librte_acl/acl_gen.c:359-444 | one call places a node and everything below it, resolves it, and leaves every older node as it was |
| AclCompiler.Generator.GenAll | Enclave/dpdk/librte_acl/acl_gen.c:537-546 | all tries are placed and resolved; regions are used up exactly |
| AclCompiler.Generate | Enclave/dpdk/librte_acl/acl_gen.c:476-561 | the compiled table is faithful to every trie and stays inside total_size, or the size needed exceeds the limit and nothing is built |
| AclCompiler.TotalSizeIs | Enclave/dpdk/librte_acl/acl_gen.c:495-499 | the size compared with the limit is that of the data offsets up to a cache line, the transitions, the match records and sixteen bytes |
| AclMeaning.NoMatchStays | Enclave/dpdk/librte_acl/acl_gen.c:528-531 | from the no-match entry any byte leads to no-match |
| AclMeaning.CompiledTrieIsTrie | Enclave/dpdk/librte_acl/acl_gen.c:476-546 | stepping the compiled table from a root over any input reaches the transition of the node that walking the trie reaches, or no-match when no pointer takes a byte |
| AclMeaning.TransitionTellsNode | Enclave/dpdk/librte_acl/acl_gen.c:397-406 | the transition reached carries the match record of the node the walk reached |
| AclWord.PackRoundTrip | Enclave/dpdk/librte_acl/acl.h:70-78 | packing a transition into 64 bits loses nothing if and only if its address is below 2^29 |
| AclWord.PackFields | Enclave/dpdk/librte_acl/acl.h:62-78 | where address, node type and the four upper bytes are in the packed word |
| AclWord.AddressOverflows | Enclave/dpdk/librte_acl/acl.h:62-67 | the first address beyond 29 bits changes the node's type |
| AclWord.WordStepIsStep | Enclave/dpdk/librte_acl/acl.h:70-106 | stepping on packed words is stepping on records |
| AclWord.ScalarIsRangeLookup | Enclave/dpdk/librte_acl/acl_run_scalar.c:103-136 | the scalar byte-parallel search agrees with counting boundaries on every byte if and only if the boundaries ascend |
| AclPacked.SizeLimitKeepsAddresses | Enclave/dpdk/librte_acl/acl_gen.c:495-507 | a memory limit of up to 4 GiB keeps every address below 2^29 |
| AclPacked.WordRunIsRun | Enclave/dpdk/librte_acl/acl.h:70-106 | a whole run over packed words stays in step with the run over records |
| AclPacked.PackedTrieIsTrie | Enclave/dpdk/librte_acl/acl_gen.c:476-561 | the packed table gives, for every trie and input, what walking the trie gives |
| AclPacked.CompiledBoundsAscend | Enclave/dpdk/librte_acl/acl_gen.c:305-352 | every boundary list the compiler writes ascends, so the scalar search is right on it |
| AclTraversal.NextBlock | Enclave/dpdk/librte_acl/acl_run_avx2.h:230-274 | reading one more block of four bytes continues the run where it was |
| AclTraversal.StepBlock | Enclave/dpdk/librte_acl/acl_run_avx2.h:256-274 | four single steps are the run over the block |
| AclTraversal.IdleStays | Enclave/dpdk/librte_acl/acl_run.h:106-110 | an idle slot stays idle on the zero bytes it reads |
| AclSearch.AllocNeverFails | Enclave/dpdk/librte_acl/acl_run.h:114-133 | in every reachable state in which a packet is begun some completion is free, so the scan never runs past the end |
| AclSearchSteps.FinishKeeps | Enclave/dpdk/librte_acl/acl_run.h:231-263 | finishing a traversal keeps the invariant: counts, ownership, answers |
| AclSearchSteps.StartKeeps | Enclave/dpdk/librte_acl/acl_run.h:156-201 | starting the next traversal keeps the invariant |
| AclSearchSteps.AdvanceKeeps | Enclave/dpdk/librte_acl/acl_run_avx2.h:228-281 | reading a block in any slot keeps the invariant |
| AclSearchSteps.Balance | Enclave/dpdk/librte_acl/acl_run.h:231-263 | traversals running plus traversals finished are those begun |
| AclSearchSteps.AllAnswered | Enclave/dpdk/librte_acl/acl_run_avx2.h:228-284 | with no slot busy or vacant every trie of every packet has finished, once |
| AclSearchSteps.AllRunsKeepInv | Enclave/dpdk/librte_acl/acl_run_avx2.h:188-284 | every interleaving of starting, advancing and finishing keeps the invariant |
| AclSearchSteps.AllRunsAnswer | Enclave/dpdk/librte_acl/acl_run_avx2.h:188-284 | every interleaving that runs to the end leaves for each packet a result of a trie of highest priority |
| AclClassify.Searcher.constructor | Enclave/dpdk/librte_acl/acl_run.h:203-219 | the flow starts with free completions and vacant slots |
| AclClassify.Searcher.AllocCompletion | Enclave/dpdk/librte_acl/acl_run.h:114-133 | claims the first free completion |
| AclClassify.Searcher.StartNextTrie | Enclave/dpdk/librte_acl/acl_run.h:156-201 | starts the next traversal in a slot, or parks it when no packet is left |
| AclClassify.Searcher.ResolvePriority | Enclave/dpdk/librte_acl/acl_run.h:138-150 | records the result of the highest priority so far |
| AclClassify.Searcher.MatchCheck | Enclave/dpdk/librte_acl/acl_run.h:231-263 | a slot at a match is counted off, its priority resolved and the slot refilled; another slot is left alone |
| AclClassify.Searcher.CheckGroup | Enclave/dpdk/librte_acl/acl_run_avx2.h:162-183 | repeats until no slot of the group is at a match, and ends |
| AclClassify.Searcher.ReadAll | Enclave/dpdk/librte_acl/acl_run_avx2.h:230-274 | every slot reads one block: of its own packet, or of zeros from the next entry of the idle array when it is parked |
| AclClassify.ReadLeash | Enclave/dpdk/librte_acl/acl_run.h:106-110 | while a traversal is in progress, a round of reading keeps the bound on what parked slots have read |
| AclClassify.StartLeash | Enclave/dpdk/librte_acl/acl_run.h:156-201 | starting or parking a slot keeps the bound, as nothing starts once a slot is parked |
| AclClassify.Searcher.Drain | Enclave/dpdk/librte_acl/acl_run_avx2.h:228-281 | the main loop ends, with no traversal in progress |
| AclClassify.Searcher.Search | Enclave/dpdk/librte_acl/acl_run_avx2.h:188-284 | the whole search ends with every packet's result coming from a trie of highest priority, for any number of slots and groups, and no parked slot has read further in the idle array than the longest trie reads in a packet |
| AclMeets.VerdictIsClassify | Enclave/dpdk/librte_acl/acl_run_avx2.h:188-284 | one traversal in blocks of four gives the trie's own classification of the packet |
| AclMeets.ClearToStop | Enclave/dpdk/librte_acl/acl_run_avx2.h:222-281 | up to the block where the walk stops no match node is passed unseen |
| AclAnswer.InOrderIsTop | Enclave/dpdk/librte_acl/acl_run.h:138-150 | in whatever order the tries finish, the result is that of a trie of highest priority |
| AclAnswer.OrderDoesNotMatter | Enclave/dpdk/librte_acl/acl_run.h:138-150 | the result is the same for every order if and only if the tries of highest priority agree |
| AclAnswer.DistinctPrioritiesAgree | Enclave/dpdk/librte_acl/acl_run.h:138-150 | distinct priorities make the tries of highest priority agree |
| AclAnswer.TopIsSequential | Enclave/dpdk/librte_acl/acl_run.h:231-263 | with agreeing tops the interleaved answer is that of classifying trie after trie |
| AclAnswer.CompiledIsSearchable | Enclave/dpdk/librte_acl/acl_run_avx2.h:188-284 | a compiled table with readable packets satisfies everything the search asks for |
| AclAnswer.BuildAndClassify | Enclave/dpdk/librte_acl/acl_gen.c:476-561 | unless the size limit is exceeded, compiling well-formed tries and then searching with them gives every packet a best classification among the tries |
| AclWordSearch.RunSeesWords | Enclave/dpdk/librte_acl/acl.h:70-106 | stepping from packed word to packed word is stepping over the transitions unpacked from them, whatever the words |
| AclWordSearch.SeenAsBuilt | Enclave/dpdk/librte_acl/acl.h:62-78 | a packed table is seen as it was built if and only if every address in it is below 2^29 |
| AclWordSearch.SeenVerdict | Enclave/dpdk/librte_acl/acl_run_avx2.h:188-284 | with every node's address below 2^29, one traversal of the table as seen through its words gives the trie's own classification |
| AclWordSearch.SearchSeen | Enclave/dpdk/librte_acl/acl_run_avx2.h:188-284 | so does the whole search: every packet's result is that of a trie of highest priority |
| AclWordSearch.BuildPackAndClassify | Enclave/dpdk/librte_acl/acl_gen.c:476-561 | compiling under a limit of up to 4 GiB, packing and searching the words gives every packet a best classification among the tries, unless the limit is exceeded |
| Inet4.ParseQuad | App/ip_pipeline/parser.c:422-460 | the loop accepts and yields exactly what the scanner function does |
| Inet4.QuadIsGrammar | App/ip_pipeline/parser.c:422-460 | every four octets joined by dots are accepted with their values |
| Inet4.GrammarOfQuad | App/ip_pipeline/parser.c:422-460 | whatever is accepted is four octets joined by dots |
| Inet6.GrammarIsAccepted | App/ip_pipeline/parser.c:475-572 | every text of the grammar is accepted with the bytes it denotes, the gap as zeros |
| Inet6.AcceptedIsGrammar | App/ip_pipeline/parser.c:475-572 | whatever is accepted is a text of the grammar |
| Inet6.AddressIsGrammar | App/ip_pipeline/parser.c:475-572 | a text parses to b if and only if some form of the grammar has that text and denotes b |
| Inet6.HexPlace | App/ip_pipeline/parser.c:478-479 | the value of a hexadecimal digit is its place in the lower-case or upper-case alphabet |
| Inet6.HexOnly | App/ip_pipeline/parser.c:478-479 | no other character is a hexadecimal digit |
| Inet6.EmptyGapIsRefused | App/ip_pipeline/parser.c:550-553 | a gap between seven groups and one is refused |
| Inet6.EmptyGapExample | App/ip_pipeline/parser.c:550-553 | the text 1:2:3:4:5:6:7::8 is refused, although the comment on the function (line 469) says such a gap is ignored |
| InetText.FullTextRoundTrip | App/ip_pipeline/parser.c:475-572 | the eight-group text of any sixteen bytes parses back to them |
| InetText.GapRoundTrip | App/ip_pipeline/parser.c:550-570 | a text with a gap parses to left bytes, zeros, right bytes |
| InetText.MixedTextRoundTrip | App/ip_pipeline/parser.c:534-540 | six groups and a dotted quad parse back to the sixteen bytes |
| InetText.DottedRoundTrip | App/ip_pipeline/parser.c:422-460 | the dotted quad of any four bytes parses back to them |
| InetText.OpenGap | App/ip_pipeline/parser.c:559-566 | the shift by hand leaves prefix, zeros, suffix |
| InetText.ScanLoop | App/ip_pipeline/parser.c:496-542 | the character loop keeps tp == 2 * dbloct_count and is on the way to the scanner's result |
| InetText.ParseAddress | App/ip_pipeline/parser.c:475-572 | inet_pton6 computes the scanner function |
| SwapWords.SwappedBytes | App/ip_pipeline/pipeline/pipeline_passthrough_be.c:236-240 | the two masked sums exchange the low n bytes of two words and keep the others |
| FieldSwap.SwapWordIsTrade | App/ip_pipeline/pipeline/pipeline_passthrough_be.c:220-242 | one masked word swap exchanges exactly the masked bytes even when the two words overlap |
| FieldSwap.WordsExchange | App/ip_pipeline/pipeline/pipeline_passthrough_be.c:697-736 | the words of a pair exchange its two adjacent fields and touch no other byte, for every size from 1 to 16 |
| FieldSwap.ExchangeAt | App/ip_pipeline/pipeline/pipeline_passthrough_be.c:220-242 | byte by byte: the first field gets the second, the second the first, every other byte stays |
| FieldSwap.ExchangeAllAt | App/ip_pipeline/pipeline/pipeline_passthrough_be.c:220-242 | of disjoint pairs each exchanges its own fields as it would alone |
| FieldSwap.ExchangeAllElsewhere | App/ip_pipeline/pipeline/pipeline_passthrough_be.c:220-242 | a byte outside all pairs stays |
| FieldSwap.AllWordsExchange | App/ip_pipeline/pipeline/pipeline_passthrough_be.c:220-242 | the words of a list of pairs have the effect of the exchanges in order |
| FieldSwap.TwiceIsIdentity | App/ip_pipeline/pipeline/pipeline_passthrough_be.c:220-242 | disjoint exchanges applied twice give the packet back |
| PassThrough.PassThrough.ConvertPair | App/ip_pipeline/pipeline/pipeline_passthrough_be.c:703-732 | the loops append exactly the words of one pair |
| PassThrough.PassThrough.SwapConvert | App/ip_pipeline/pipeline/pipeline_passthrough_be.c:697-736 | conversion fails exactly on a pair out of order or too wide, and never needs more than SWAP_DIM words for eight pairs |
| PassThrough.PassThrough.SwapAt | App/ip_pipeline/pipeline/pipeline_passthrough_be.c:229-241 | the stores of one word pair, by 64-bit arithmetic, are the byte-level word swap |
| PassThrough.PassThrough.Work | App/ip_pipeline/pipeline/pipeline_passthrough_be.c:220-242 | a packet processed with the converted words has all pairs exchanged and nothing else changed |
| MplsBits.MarkedBytes | App/ip_pipeline/pipeline/pipeline_routing_be.c:296-303 | a slab with the colour mark, as stored, is two label entries with the colour in EXP |
| MplsBits.PlainBytes | App/ip_pipeline/pipeline/pipeline_routing_be.c:54-58 | a slab without it is two label entries with EXP 0 |
| MplsBits.SourceBytes | App/ip_pipeline/pipeline/pipeline_routing_be.c:69-70 | the source slab is the six address bytes and the ethertype in network order, or-ed with whatever the stored address has above its 48 bits |
| MplsLayout.SlabsAreHeader | App/ip_pipeline/pipeline/pipeline_routing_be.c:295-312 | the overlapping slabs, written in order, show as source slab and label bytes directly below the IP header, for 1 to 4 labels |
| Routing.ShowsStack | App/ip_pipeline/pipeline/pipeline_routing_be.c:1651-1704 | what stays visible of slabs 0 and 1 is the label stack in order, bottom-of-stack bit on the last entry only (section 2.1 of RFC 3032) |
| Encap.LabelSlabs | App/ip_pipeline/pipeline/pipeline_routing_be.c:1651-1704 | the switch over the number of labels computes slabs 0 and 1 and the offset of slab 1 |
| Encap.RouteAdd | App/ip_pipeline/pipeline/pipeline_routing_be.c:1635-1797 | a route is refused exactly on wrong flags or a label count outside 1..4; otherwise the entry encodes labels, addresses, offsets and what the ARP key is made from |
| Encap.WorkRouting | App/ip_pipeline/pipeline/pipeline_routing_be.c:194-318 | one packet gets the header, data_off, and its length grown by the header, in 16 bits; with ARP on the header comes without destination and is followed by the eight bytes of the ARP key at the configured offset, which may lie over it |
| Encap.WorkArp | App/ip_pipeline/pipeline/pipeline_routing_be.c:854-871 | the ARP handler writes the six destination bytes where the packet starts |
| Encap.ArpEntry | App/ip_pipeline/pipeline/pipeline_routing_be.c:1898-1899 | the stored ARP address is written back as its six bytes |
| Encap.Encapsulate | App/ip_pipeline/pipeline/pipeline_routing_be.c:1635-1797 | for 1 to 4 labels, ARP on or off, colour on or off, the packet starts n*4+14 bytes before the IP header, data_len and pkt_len are n*4+14 more than the length that the IP header says in network order, modulo 2^16, and the memory is that of the two handlers in order, byte for byte; refused requests change nothing |
| Encap.LengthIsRead | App/ip_pipeline/pipeline/pipeline_routing_be.c:225-225 | the length read is the one the IP header says, high byte first |
| Routing.WireParts | App/ip_pipeline/pipeline/pipeline_routing_be.c:295-312 | the header is six bytes of destination, eight of source and ethertype, and the label stack, in this order |
| Routing.LabelPart | App/ip_pipeline/pipeline/pipeline_routing_be.c:54-58 | each label is in its own four bytes, which read back as its low twenty bits, the EXP bits, the bottom-of-stack bit on the last label only, and TTL 0 |
| Encap.ArpOffExact | App/ip_pipeline/pipeline/pipeline_routing_be.c:295-312 | with ARP off the bytes before the IP header are exactly destination, source field and label stack |
| Encap.ArpOnExactIff | App/ip_pipeline/pipeline/pipeline_routing_be.c:314-317 | with ARP on they are if and only if every key byte that falls on them equals the byte it covers |
| Encap.AllExactIff | App/ip_pipeline/pipeline/pipeline_routing_be.c:314-317 | with ARP on the header is exact for every route, local or not, through any of nPorts >= 1 output ports with its own source address, if and only if the eight bytes at arp_key_offset miss the part of the header that routing writes, or there is one output port and the key covers no more of it than the last TTL byte |
| Encap.KeyOverLabels | App/ip_pipeline/pipeline/pipeline_routing_be.c:314-317 | with the key starting in the first three bytes of the last label, a packet routed through port 0 loses the bottom-of-stack bit |
| Encap.KeyInNetworkOrder | App/ip_pipeline/pipeline/pipeline_routing_be.c:314-317 | the key is the output port as a stored word and then, in network order, the next hop or, for a local route, the packet's own destination |
| Encap.OtherBytesKept | App/ip_pipeline/pipeline/pipeline_routing_be.c:295-317 | outside the header and, with ARP on, the key no byte changes |
| Encap.EthertypeIff | App/ip_pipeline/pipeline/pipeline_routing_be.c:69-70 | in packet memory whose header is exact, the two bytes before the labels are 0x8847 if and only if the stored port address has no other bits above its 48 |
| MplsLayout.HeaderExactIff | App/ip_pipeline/pipeline/pipeline_routing_be.c:295-317 | header, then key, then destination: what is left is the header if and only if the key coincides with it where they overlap |
| BitMask.ContiguousPositions | App/ip_pipeline/pipeline/pipeline_actions_common.h:157-158 | m & (m + 1) is zero if and only if the set bits of m are its lowest popcount(m) bits |
| BitMask.WrappedTest | App/ip_pipeline/pipeline/pipeline_actions_common.h:157-158 | the 64-bit wrap of the full mask does not change the test |
| BitMask.LowestFirst | App/ip_pipeline/pipeline/pipeline_actions_common.h:173-181 | clearing the lowest set bit removes exactly the first position |
| BitMask.PositionsAreBits | App/ip_pipeline/pipeline/pipeline_actions_common.h:173-181 | the positions are exactly the set bits |
| BitMask.PositionsAscend | App/ip_pipeline/pipeline/pipeline_actions_common.h:173-181 | they come in ascending order, none twice |
| FlowMeter.Commute | App/ip_pipeline/pipeline/pipeline_flow_actions_be.c:332-380 | counting one packet and metering another commute even in the same slot |
| FlowMeter.StepEffect | App/ip_pipeline/pipeline/pipeline_flow_actions_be.c:210-252 | one packet: the meter of slot 4 * entry + traffic class sees the packet's length and its DSCP's colour; green, yellow or red of the policer, by the verdict, gives the new colour and whether it is dropped; of the four counters exactly the one of that colour, or the drop counter, grows by one; nothing else changes |
| FlowMeter.RunEffect | App/ip_pipeline/pipeline/pipeline_actions_common.h:144-186 | in a list without repetition each packet is decided at its turn, as it came in |
| FlowMeter.DefaultEffect | App/ip_pipeline/pipeline/pipeline_flow_actions_be.c:183-208 | in an entry just added a packet is not dropped, has the colour the meter gives it and is the first one counted |
| FlowActions.FourWorks | App/ip_pipeline/pipeline/pipeline_flow_actions_be.c:254-385 | metering four packets before counting any gives the same slots and actions as one after the other, shared slots included |
| FlowActions.FlowTable.PktWork | App/ip_pipeline/pipeline/pipeline_flow_actions_be.c:210-252 | one packet is metered, counted and coloured in its own slot, and the returned bit tells whether the policer drops it |
| FlowActions.FlowTable.Pkt4Work | App/ip_pipeline/pipeline/pipeline_flow_actions_be.c:254-385 | equals four single steps, with the four drop bits |
| FlowActions.FlowTable.TableHit | App/ip_pipeline/pipeline/pipeline_actions_common.h:144-186 | for every 64-bit mask both paths equal processing the set bits in ascending order, and the reported mask is exactly the packets the policer drops |
| FlowActions.HitEffect | App/ip_pipeline/pipeline/pipeline_actions_common.h:144-186 | what the call does to a packet of the mask is what its own step does after the packets of lower position |
| FlowActions.MissEffect | App/ip_pipeline/pipeline/pipeline_actions_common.h:144-186 | a packet outside the mask is left alone |
| FlowActions.FlowTable.StatsRead | App/ip_pipeline/pipeline/pipeline_flow_actions_be.c:956-982 | returns the slot's counters and clears them on request; refuses a missing entry or a bad policer id |
| FlowActions.FlowTable.SetDefault | App/ip_pipeline/pipeline/pipeline_flow_actions_be.c:183-208 | all four classes of an entry get the default policer, which keeps each colour and drops nothing, and zero counters; no other slot changes |
| PolicerLedger.RunCounts | App/ip_pipeline/pipeline/pipeline_flow_actions_be.c:246-248 | a list of packets adds exactly its packets to the sum of each slot's counters, less 2^64 for every counter that wraps |
| PolicerLedger.RunsConserve | App/ip_pipeline/pipeline/pipeline_flow_actions_be.c:956-982 | in every run of batches, reads, clearing reads, reconfigurations and resets from a table just reset, returned plus current counts plus 2^64 per wrap equal the packets processed since the slot's last reset; so they are equal if and only if no counter wrapped, and always below 2^64 packets |
| PolicerLedger.ResetConserved | App/ip_pipeline/pipeline/pipeline_flow_actions_be.c:183-208 | a table just reset is balanced |
| CountMin.EstimateBounds | Enclave/ip_pipeline/count_min_sketch.c:94-105 | an estimate is never above the whole stream's total, and not below the key's own unless one of the key's two counters overflowed |
| CountMin.ApartExact | Enclave/ip_pipeline/count_min_sketch.c:94-105 | without a collision in either row the estimate is the key's total modulo 2^64 |
| CountMin.CellOfKey | Enclave/ip_pipeline/count_min_sketch.c:31-31 | a key's cell is a * h + b modulo 65536, the cut to 64 bits notwithstanding |
| CountMin.OverflowUndercounts | Enclave/ip_pipeline/count_min_sketch.c:94-105 | two updates of 2^63 under one key leave an estimate of 0 |
| CountMin.KeyingMatters | Enclave/ip_pipeline/count_min_sketch.c:46-49 | reading with hash h bounds what was counted under another key, for all streams that overflow neither counter of h, if and only if both rows put the two in the same cells |
| CountMin.CrcIsNotSource | Enclave/ip_pipeline/count_min_sketch.c:46-49 | a header hash of 1 and a source address of 0 in different cells: 100 bytes are counted and the estimate is 0 |
| CountMin.CountersSumToWhole | Enclave/ip_pipeline/count_min_sketch.c:26-35 | the 64-bit counters of a row sum to the whole stream's total if and only if none of them overflowed |
| CountMin.LargeTotalUnwrapped | Enclave/ip_pipeline/count_min_sketch.c:94-105 | a total of 2^64 over two keys in different cells is estimated exactly |
| CountMin.OrderIndependent | Enclave/ip_pipeline/count_min_sketch.c:37-61 | the cells depend only on which updates were made, not on order or grouping |
| CountMin.CopyPathsAgree | Enclave/ip_pipeline/header_copy.h:27-76 | after a burst the header-copy and full-copy path leave the same row if and only if every packet length is below 65536 |
| Sketch.Sketch.Init | Enclave/ip_pipeline/count_min_sketch.c:13-24 | all counters are zero, and the hash parameters are the random numbers modulo the prime |
| Sketch.Sketch.CmUpdate | Enclave/ip_pipeline/count_min_sketch.c:26-35 | adds d modulo 2^64 to the counter (a[i] * h + b[i]) % 65536 of both rows, h the header's CRC, and changes no other counter; the sketch then holds the stream with one more update |
| Sketch.Sketch.CmEstimate | Enclave/ip_pipeline/count_min_sketch.c:94-105 | the smaller of the two counters (a[i] * h + b[i]) % 65536 of the header's CRC h; at most the stream's total, at least the CRC's own unless one of the two overflowed, and equal to it modulo 2^64 if no other key of the stream shares either cell |
| Sketch.Sketch.RowsSumToWhole | Enclave/ip_pipeline/count_min_sketch.c:26-35 | the counters the sketch keeps in a row sum to the stream's total if and only if none of them overflowed |
| Sketch.Sketch.AddStaged | Enclave/ip_pipeline/count_min_sketch.c:51-60 | computing all cells first and adding afterwards equals adding packet by packet |
| Sketch.Sketch.CmUpdateBulkHc | Enclave/ip_pipeline/count_min_sketch.c:37-61 | the burst is counted under source addresses with the given lengths |
| Sketch.Sketch.FullCopy | Enclave/ip_pipeline/count_min_sketch.c:63-92 | the burst is counted under source addresses with full lengths |
| Sketch.Sketch.HeaderCopy | Enclave/ip_pipeline/header_copy.h:57-76 | the burst is counted with lengths cut to 16 bits, and each header ends with that length |
| Sketch.HeaderEstimate | Enclave/ip_pipeline/count_min_sketch.c:94-105 | fed by single updates only, a header's estimate is at most the stream's total, and at least the header's own unless one of its two counters overflowed |
| ThreadTimer.CheckKeeps | App/ip_pipeline/thread.c:273-330 | every timer check keeps: each slot is new or not due before the thread's deadline, which is not after the message deadline |
| ThreadTimer.SkipIsSafe | App/ip_pipeline/thread.c:278-279 | a skipped check passes over no due timer except that of a new pipeline |
| ThreadTimer.DueFires | App/ip_pipeline/thread.c:281-311 | a due timer that is not new is fired by the very next check |
| ThreadTimer.DeadlineIsSomeones | App/ip_pipeline/thread.c:281-330 | after a pass the thread's deadline is the message deadline or the deadline of a slot just seen |
| ThreadTimer.CheckEffect | App/ip_pipeline/thread.c:273-330 | a check before the deadline does nothing; any other sets every due timer to time plus period, takes one message if the message deadline has come, and sets the two deadlines, the thread's no later than any timer's or the message's |
| ThreadTimer.EnableEffect | App/ip_pipeline/thread.c:103-134 | taking an enable message adds one slot with that id, that period and deadline 0 at the end of the named array, and nothing if the array is full; the other array only has its timers set |
| ThreadTimer.DisableEffect | App/ip_pipeline/thread.c:136-178 | taking a disable message removes the first slot with the id, from the regular ones before the custom ones, and closes the gap |
| ThreadTimer.StatusEffect | App/ip_pipeline/thread.c:180-222 | the status is -1 exactly for a full array or an unknown pipeline |
| ThreadTimer.RunsKeep | App/ip_pipeline/thread.c:273-330 | the invariant holds after every run of checks and message arrivals |
| ThreadTimer.NewFiresNext | App/ip_pipeline/thread.c:273-330 | the next pass comes no later than the first check at or after the message deadline, finds the slots unchanged and fires every new pipeline |
| ThreadLoop.EnabledIsCalledBack | App/ip_pipeline/thread.c:273-330 | in every run, a pipeline enabled by a message is called back by the next pass over the timers, no later than the first check at or after the message deadline |
| ThreadLoop.DisabledIsSilent | App/ip_pipeline/thread.c:273-330 | in every run without another enable message for it, a disabled pipeline is not called back |
| ThreadLoop.DueAt | App/ip_pipeline/thread.c:281-295 | a due slot is called back, after the due slots before it |
| ThreadLoop.DueOnce | App/ip_pipeline/thread.c:281-295 | there are as many callbacks as due slots |
| ThreadLoop.Worker.FireSlots | App/ip_pipeline/thread.c:281-295 | one loop fires each due timer once, in order, and finds the earliest next deadline |
| ThreadLoop.Worker.EnablePipeline | App/ip_pipeline/thread.c:103-134 | appends a new slot with deadline 0, or fails on a full array |
| ThreadLoop.Worker.DisablePipeline | App/ip_pipeline/thread.c:136-178 | removes the first slot with the id, regular before custom, and closes the gap; fails if there is none |
| ThreadLoop.Worker.HandleMessage | App/ip_pipeline/thread.c:180-222 | takes at most one message, applies it and answers with its status |
| ThreadLoop.Worker.TimerCheck | App/ip_pipeline/thread.c:273-330 | the timer block is the check function, and calls back exactly the due timers, each once |
| FirewallKey.NormalizeTwice | App/ip_pipeline/pipeline/pipeline_firewall.c:222-259 | normalizing is idempotent |
| FirewallKey.NormalizeExact | App/ip_pipeline/pipeline/pipeline_firewall.c:222-259 | a key is accepted exactly with depths of at most 32 and port ranges not reversed; of each address the bits inside the depth stay, the others are cleared, and no other field changes |
| FirewallKey.NormalizeKeepsMatches | App/ip_pipeline/pipeline/pipeline_firewall.c:222-259 | a normalized key matches the same packets |
| FirewallKey.SamePrefixSameKey | App/ip_pipeline/pipeline/pipeline_firewall.c:244-251 | two addresses have the same prefix if and only if they normalize to the same address |
| FirewallKey.ClearBits | App/ip_pipeline/pipeline/pipeline_firewall.c:244-251 | normalizing clears exactly the bits outside the netmask |
| RuleBatch.FillPlaces | Enclave/dpdk/librte_table/rte_table_acl.c:519-591 | placing requests, repeated keys included, leaves every lookup as expected; undoing it removes the new rules and nothing else, so changed ports stay |
| RuleCount.FullIffCrowded | Enclave/dpdk/librte_table/rte_table_acl.c:567-571 | a batch runs out of room if and only if the distinct keys it names that the table lacks outnumber the free positions |
| RuleCount.ReachIsLongestFit | Enclave/dpdk/librte_table/rte_table_acl.c:519-581 | the requests placed before that are the longest prefix whose new keys fit |
| RuleCount.NegativeIffNew | Enclave/dpdk/librte_table/rte_table_acl.c:594-612 | the rebuild of a batch that fits fails if and only if the first request for some new key has a negative priority |
| FirewallBulk.TakenIffLands | Enclave/dpdk/librte_table/rte_table_acl.c:444-629 | the back end takes a batch if and only if it is not empty, no priority is too high, the new keys fit and none is negative; a key is then reported found if and only if the table had it or an earlier request named it |
| FirewallMirror.AddRuleMirrors | App/ip_pipeline/pipeline/pipeline_firewall.c:375-464 | adding a rule keeps the keys and ports of the two ends equal, whatever the outcome |
| FirewallMirror.AddRuleExact | Enclave/dpdk/librte_table/rte_table_acl.c:315-322 | priorities too stay equal if and only if the call does not re-add an existing key with another priority |
| FirewallMirror.DeleteRuleKeeps | App/ip_pipeline/pipeline/pipeline_firewall.c:466-523 | deleting a rule keeps the two ends equal and succeeds |
| FirewallEffect.EntryAddEffect | Enclave/dpdk/librte_table/rte_table_acl.c:243-360 | when the back end takes a rule, and with which of -EINVAL and -ENOSPC it refuses one, leaving the table as it was |
| FirewallEffect.EntryAddPlaces | Enclave/dpdk/librte_table/rte_table_acl.c:297-345 | a new rule goes to the lowest free position and no other position changes |
| FirewallEffect.AddRuleEffect | App/ip_pipeline/pipeline/pipeline_firewall.c:375-464 | adding a rule succeeds exactly when the priority is in range and the key is there or, with a priority not negative, a position is free; then the front end has the rule as given, the back end too except that an old key keeps its priority, and every other key is as it was on both ends |
| FirewallEffect.DeleteRuleEffect | App/ip_pipeline/pipeline/pipeline_firewall.c:466-523 | an accepted deletion succeeds, the key has no rule on either end afterwards, and every other key is as it was |
| FirewallBulk.AddBulkMirrors | App/ip_pipeline/pipeline/pipeline_firewall.c:525-755 | adding any batch keeps keys and ports equal if and only if neither happens: the back end gives up after the last placed request for some existing key asked for another port, or it takes a batch that names a new key twice |
| FirewallBulk.AddBulkExact | App/ip_pipeline/pipeline/pipeline_firewall.c:525-755 | priorities too if and only if, besides, the last request for no existing key asks for another priority |
| FirewallEffect.AddBulkStatus | App/ip_pipeline/pipeline/pipeline_firewall.c:525-755 | a batch succeeds exactly when it is accepted and not empty, no priority is too high, the new keys do not outnumber the free positions, and each comes once with a priority not negative; otherwise the front end is as it was |
| FirewallEffect.AddBulkEffect | App/ip_pipeline/pipeline/pipeline_firewall.c:716-745 | after a batch that succeeds each key has, on both ends, the last request for it, the back end keeping an old key's priority; keys without a request are as they were |
| FirewallEffect.EntryAddBulkStatus | Enclave/dpdk/librte_table/rte_table_acl.c:444-629 | the back end answers -EINVAL for no requests or a priority too high, -ENOSPC for more new keys than positions, -EINVAL for a new key first asked for with a negative priority, and 0 otherwise |
| FirewallEffect.GivenUpEffect | Enclave/dpdk/librte_table/rte_table_acl.c:583-612 | after a batch that is given up no new key is there, and an old key differs at most in its port, which is that of the last request for it that found room |
| FirewallBulk.DeleteBulkMirrors | App/ip_pipeline/pipeline/pipeline_firewall.c:757-850 | deleting any batch keeps the two ends equal if and only if none of its keys is present, or all are and none is repeated |
| FirewallEffect.DeleteBulkEffect | App/ip_pipeline/pipeline/pipeline_firewall.c:757-850 | a batch of deletions succeeds exactly when every key is there and none is repeated; the back end loses every key named in any case, the front end only then, and no other key changes |
| FirewallBulk.MirrorRemovable | App/ip_pipeline/pipeline/pipeline_firewall.c:838-842 | while the two ends are in step, every key that a bulk delete finds in the back end has a front-end rule to unlink |
| FirewallBulk.ExactIffHarmless | App/ip_pipeline/pipeline/pipeline_firewall.c:375-850 | any operation keeps the two ends equal if and only if it is harmless, which is told from keys, priorities and free positions before the call |
| FirewallBulk.RunsStayExact | App/ip_pipeline/pipeline/pipeline_firewall.c:375-850 | in every run of harmless operations the rule list equals the back-end table in every state |
| FirewallBulk.AllKeepSound | App/ip_pipeline/pipeline/pipeline_firewall.c:375-850 | no operation, harmless or not, leaves a key with two rules on either side |
| FirewallBulk.ReAddDiverges | Enclave/dpdk/librte_table/rte_table_acl.c:315-322 | adding a key twice succeeds both times and leaves priority -1 in the front end and 5 in the back end |
| FirewallBulk.CrowdedAddDiverges | Enclave/dpdk/librte_table/rte_table_acl.c:583-592 | on a full one-rule table a batch that changes that rule's port and adds a key fails, and only the back end has the new port |
| FirewallBulk.DoubleAddDiverges | App/ip_pipeline/pipeline/pipeline_firewall.c:716-730 | a batch naming a new key twice fails, and only the back end has the rule |
| FirewallBulk.DoubleAddUnremovable | App/ip_pipeline/pipeline/pipeline_firewall.c:838-842 | after that batch, a bulk delete of the key finds it in the back end and has no front-end rule to unlink |
| FirewallBulk.MixedDeleteDiverges | App/ip_pipeline/pipeline/pipeline_firewall.c:826-842 | on a two-rule table a batch naming one of the keys and an absent one fails, and only the front end still has the rule |
| RuleListing.ListingEnds | App/ip_pipeline/pipeline/pipeline_firewall.c:149-154 | the listing loop ends before its int counter overflows if and only if no priority is negative or INT_MAX |
| RuleListing.Ls | App/ip_pipeline/pipeline/pipeline_firewall.c:131-166 | the listing is a permutation of the rules, sorted by priority, with rules of equal priority in list order |
| FirewallCode.Firewall.List | App/ip_pipeline/pipeline/pipeline_firewall.c:131-166 | with no negative priority the front end lists its rules so |
| FirewallCode.AclTable.Search | Enclave/dpdk/librte_table/rte_table_acl.c:297-330 | the scan finds the key's position, or the first free one |
| FirewallCode.AclTable.Add | Enclave/dpdk/librte_table/rte_table_acl.c:243-360 | an existing key gets the new port and keeps its priority, a new one the first free position; no room, a priority too high or a failed rebuild leave the table as it was |
| FirewallCode.AclTable.Delete | Enclave/dpdk/librte_table/rte_table_acl.c:362-442 | the key's rule goes, and the answer tells whether there was one |
| FirewallCode.AclTable.AddBulk | Enclave/dpdk/librte_table/rte_table_acl.c:444-629 | requests are placed one by one and the ports of new rules written at the end; when one cannot be placed, the new rules are taken out again while ports already changed stay |
| FirewallCode.AclTable.DeleteBulk | Enclave/dpdk/librte_table/rte_table_acl.c:631-749 | every rule named goes, and the answer tells for each key whether it was there |
| FirewallCode.Firewall.RuleFind | App/ip_pipeline/pipeline/pipeline_firewall.c:115-128 | finds the first rule with the key, or none |
| FirewallCode.Firewall.AddRule | App/ip_pipeline/pipeline/pipeline_firewall.c:375-464 | front end and back end after the call are those of the pure operation; n_rules is the list length, keys unique on both sides and normalized, priorities at most RTE_ACL_MAX_PRIORITY |
| FirewallCode.Firewall.DeleteRule | App/ip_pipeline/pipeline/pipeline_firewall.c:466-523 | as for adding: an unknown key is success without a message, a known one leaves both ends |
| FirewallCode.Firewall.AddBulk | App/ip_pipeline/pipeline/pipeline_firewall.c:525-755 | as for adding, for any batch, and nothing is written unless the back end's answer fits |
| FirewallCode.Firewall.DeleteBulk | App/ip_pipeline/pipeline/pipeline_firewall.c:757-850 | as for adding, for deleting a batch: the list is left alone unless every key was found |
| CoreMap.PosInjective | App/ip_pipeline/cpu_core_map.c:53-61 | distinct places of the box have distinct positions |
| CoreMap.PosInRange | App/ip_pipeline/cpu_core_map.c:53-61 | every position lies inside the allocated map |
| CoreMap.CoreMap.ComputeSocket | App/ip_pipeline/cpu_core_map.c:129-174 | the unbounded loop over core ids ends; a socket's part shows its cores in order, or the socket has as many cores as the map has room for |
| CoreMap.CoreMap.Compute | App/ip_pipeline/cpu_core_map.c:124-177 | fails exactly when some socket has n_max_cores_per_socket cores or more |
| CoreMap.CoreMap.Check | App/ip_pipeline/cpu_core_map.c:179-253 | the counted sizes are those of the topology, and the check succeeds exactly on a regular topology |
| CoreMap.CoreMap.GetLcoreId | App/ip_pipeline/cpu_core_map.c:477-494 | the map's entry inside the box, -1 outside |
| CoreMap.Init | App/ip_pipeline/cpu_core_map.c:72-122 | initialization succeeds exactly on positive sizes and a regular topology with room to spare |
| CoreMap.FullSocketRefused | App/ip_pipeline/cpu_core_map.c:124-177 | one socket of two cores is refused by a map of one socket and two cores, and accepted with room for a third |
| CoreMap.BoxTotal | App/ip_pipeline/cpu_core_map.c:477-494 | every place of the box names a logical core of that socket and core |
| CoreMap.BoxInjective | App/ip_pipeline/cpu_core_map.c:477-494 | no logical core is named twice |
| CoreMap.BoxCovers | App/ip_pipeline/cpu_core_map.c:477-494 | every logical core of the counted sockets is named |
| CoreMap.BoxOrdered | App/ip_pipeline/cpu_core_map.c:144-165 | places are ordered by core id, then by logical core id |

## Left out

- The ACL build phase (rules to trie): the model starts from a well-formed trie.
- Vector instructions: a step of eight or sixteen slots is modelled as one step per slot; the scalar byte-parallel search is modelled bit by bit.
- Results for several categories at once: one category is modelled.
- Allocation failures, NULL arguments, message timeouts and the memory of the enclave.
- AclClassify.Searcher.Search: bounds a parked slot's reads of the idle array by the longest list of data offsets; that such a list has at most 64 entries and the idle array 256 is not part of the model.
- The 32-bit width of the ACL compiler's own counters; the packed words are modelled at their width.
- The plain Ethernet and QinQ encapsulations, the QinQ scheduler field, and the ARP table's lookup by the key that routing writes.
- AclCompiler.Generate: does not model failure of the allocation itself, only the size limit.
- Encap.Encapsulate: takes the packet buffer to follow the mbuf structure directly, as the pools of this program are laid out, and asks the same of the ARP key as Encap.WorkRouting.
- AclWordSearch.BuildPackAndClassify: asks for a limit of at most 4 GiB; beyond it a search on wrongly packed words may leave the table.
- Encap.WorkRouting: asks for the ARP key to lie inside the buffer behind the mbuf structure; a key configured over the structure's own fields is not modelled.
- pkt4_work_swap, pkt4_work_routing and pkt4_work_arp: the same stores on four different packets.
- FlowActions.FlowTable.TableHit: takes the drop flags of policer actions to be 0 or 1, and the three-colour meter as an arbitrary function of its state.
- PolicerLedger.RunsConserve: a failed meter configuration half way through a flow update is not modelled.
- PassThrough.PassThrough.SwapConvert: takes at most eight pairs, the size of the parameter arrays.
- ThreadLoop.Worker.TimerCheck: time stamps do not wrap; headroom statistics and the pipelines' own work are not modelled.
- ThreadLoop.Worker.DisablePipeline: models the overlapping memcpy that closes the gap as a left shift.
- FirewallCode.Firewall.DeleteBulk: asks that, if the back end has all the keys named, each once, the front end has rules for them, as the C code follows a null pointer otherwise.
- FirewallCode.AclTable.Add: rebuilding the low-level table fails only on a priority out of range.
- CoreMap.CoreMap.Compute: the map is three-dimensional here; CoreMap.PosInjective and CoreMap.PosInRange justify the flat index as long as no core has more hyper-threads than the map has room for, which the model asks for.
- CoreMap.CoreMap.ComputeSocket: asks that no core has more hyper-threads than the map has room for; the C code would write the surplus over the next core's places.
- CoreMap.Init: asks the same.
- The sysfs variant of the topology scan: it differs only in where the socket and core ids come from.
- Command line, configuration files, EAL and NIC set-up, enclave entry and exit.
- Hash and CRC functions: arbitrary functions here.
