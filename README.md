# Relaxed OPPRF exchange of the multi-party PSI analytics protocol

This project is a Dafny model of the sequential, per-bin logic of the
relaxed oblivious programmable PRF (OPPRF) exchange in
`psi_analytics_eurocrypt19/common/relaxed_opprf.cpp`, and of the position
hash `hashToPosition` in `psi_analytics_eurocrypt19/common/table_opprf.cpp`.
In one run, a leader talks to `np - 1` helpers. For each helper:

- The helper records where each of its elements sits in its simple hash
  table (`tloc`). It then sends a garbled cuckoo filter. Each occupied
  slot holds the helper's random value for the element's bin, masked with
  pad number `function_id` of a generator seeded with the element's OT mask.
  Each empty slot holds a fresh random word.
- The leader takes the pads off at its own cuckoo addresses. It then builds
  the OPPRF table, `Ts = 4` slots per bin. Each bin has its own nonce,
  which is redrawn until the bin's hash functions land on pairwise-distinct
  slots. The slot address is the low two bits of `hashToPosition` of a
  table mask's low 64 bits.
- The helper reads back one value per bin with its own mask.

Finally, the leader sums the per-peer values of each bin in a prime field,
and each helper reduces its own values into the field. Peers are split
round-robin among the worker threads.

The model is split into these modules:

- `OpprfTypes` (`types.dfy`): words, blocks, digests, the oracles, and `Ts`.
- `TableOpprf` (`table_opprf.dfy`): message layout, digest truncation, and
  slot selection.
- `RelaxedHelper` (`helper.dfy`): `tloc`, the garbled filter, and the
  resolver.
- `RelaxedLeader` (`leader.dfy`): unmasking, slot claiming, the
  nonce-retry table, and the code as written at the two defects below.
- `RelaxedExchange` (`protocol.dfy`): what the two sides achieve together.
- `PeerPartition` (`peers.dfy`): the thread partition.
- `FieldAggregation` (`aggregation.dfy`): the last step.
- `ModArith` (`arith.dfy`): remainder facts.

The model treats these as uninterpreted parameters:

- SHA-1, as a function from byte strings to 20-byte digests;
- seeded generators, as `(seed, k) -> k`-th output;
- the system-seeded streams (bin values, nonces, dummies, empty-slot fill),
  as `nat -> value`;
- the cuckoo table and the OT masks, as inputs.

Hosts are little-endian, as the source's `reinterpret_cast`s assume.

## Model

| member | source | states |
|---|---|---|
| TableOpprf.HashMessage | psi_analytics_eurocrypt19/common/table_opprf.cpp:45-47 | The hashed message is 24 bytes: the element's 8 bytes, then the nonce's low and high 8 bytes, each readable back as the original word |
| TableOpprf.HashMessageInjective | psi_analytics_eurocrypt19/common/table_opprf.cpp:45-50 | Distinct (element, nonce) pairs give distinct messages, so the full input is fed to SHA-1 |
| TableOpprf.ReadWordBytes | psi_analytics_eurocrypt19/common/table_opprf.cpp:53-54 | Reading a word's in-memory bytes back as a `uint64_t` gives the word |
| TableOpprf.WordBytesRead | psi_analytics_eurocrypt19/common/table_opprf.cpp:53-54 | A word copied from 8 bytes has exactly those bytes in memory |
| TableOpprf.HashToPosition | psi_analytics_eurocrypt19/common/table_opprf.cpp:41-56 | The result's memory bytes are digest bytes 0..7 of SHA-1 over the message |
| TableOpprf.PositionIgnoresDigestTail | psi_analytics_eurocrypt19/common/table_opprf.cpp:43-54 | Digests equal on their first 8 bytes give the same position; the other 12 of the 20 bytes are ignored |
| TableOpprf.SlotOf | psi_analytics_eurocrypt19/common/relaxed_opprf.cpp:226-227 | `hashToPosition(...) & mask_ad` is a slot below `Ts`, so `bitindex` accesses are in bounds |
| TableOpprf.SlotOfLow64 | psi_analytics_eurocrypt19/common/relaxed_opprf.cpp:156-157 | The slot depends on the mask only through its low 64 bits, so helper and leader calls on equal inputs agree |
| RelaxedHelper.IndexBinFacts | psi_analytics_eurocrypt19/common/relaxed_opprf.cpp:93-97 | Recording one bin adds exactly its elements, each at a later-or-equal position in the bin that holds it, and leaves other entries alone |
| RelaxedHelper.IndexBinsFacts | psi_analytics_eurocrypt19/common/relaxed_opprf.cpp:91-98 | After `i` bins, `tloc`'s keys are exactly the scanned elements, each maps to a position holding it, and that is its last occurrence |
| RelaxedHelper.LocationIndexCorrect | psi_analytics_eurocrypt19/common/relaxed_opprf.cpp:89-98 | For the whole table, `simple_table_v[tloc[e].bin][tloc[e].index] == e` for every inserted `e`, and a repeated element keeps its last place |
| RelaxedHelper.BuildLocationIndex | psi_analytics_eurocrypt19/common/relaxed_opprf.cpp:89-98 | The scan builds that index, and `filterinputs` is the bins concatenated in bin order |
| RelaxedHelper.DrawPad | psi_analytics_eurocrypt19/common/relaxed_opprf.cpp:121-125 | Drawing `function_id + 1` times keeps output number `function_id` of the mask-seeded generator |
| RelaxedHelper.GarbleFilter | psi_analytics_eurocrypt19/common/relaxed_opprf.cpp:106-130 | `fbins` entries: an occupied slot holds its bin's value XOR its pad, empty slots take successive `prngo` draws in slot order, and a stash is only reported |
| RelaxedHelper.NonLeaderFilter | psi_analytics_eurocrypt19/common/relaxed_opprf.cpp:89-130 | The filter over the helper's own table: every occupied slot is located, and its entry masks the value of a bin that really holds the element |
| RelaxedHelper.Resolve | psi_analytics_eurocrypt19/common/relaxed_opprf.cpp:149-159 | One value per bin, each as `ResolvedValue`; its round trip is `RelaxedExchange.ResolverRecoversContent` |
| RelaxedLeader.RowStartIsProduct | psi_analytics_eurocrypt19/common/relaxed_opprf.cpp:178 | The row offset counted row by row is the source's `i * ffuns` |
| RelaxedLeader.RowStartMonotone | psi_analytics_eurocrypt19/common/relaxed_opprf.cpp:176-180 | Bin `i`'s `ffuns` addresses lie inside the address vector of `nbins * ffuns` entries |
| RelaxedLeader.UnmaskBin | psi_analytics_eurocrypt19/common/relaxed_opprf.cpp:176-180 | Value `j` of a bin is the filter entry at the bin's `j`-th address XOR output `j` of the generator seeded with the bin's mask |
| RelaxedLeader.UnmaskFilter | psi_analytics_eurocrypt19/common/relaxed_opprf.cpp:174-181 | `opprf_values` has `nbins` rows of `ffuns` values, each bin unmasked as above |
| RelaxedLeader.RowAddresses | psi_analytics_eurocrypt19/common/relaxed_opprf.cpp:225-228 | `bitaddress` has one slot per hash function, each below `Ts` |
| RelaxedLeader.ComputeAddresses | psi_analytics_eurocrypt19/common/relaxed_opprf.cpp:225-228 | The address loop computes `RowAddresses` |
| RelaxedLeader.FindCollision | psi_analytics_eurocrypt19/common/relaxed_opprf.cpp:234-241 | Among more than `Ts` slots below `Ts`, two are equal (pigeonhole) |
| RelaxedLeader.DistinctSlotsAtMostTs | psi_analytics_eurocrypt19/common/relaxed_opprf.cpp:234-241 | Pairwise-distinct slots number at most `Ts` |
| RelaxedLeader.NoRowAcceptedBeyondTs | psi_analytics_eurocrypt19/common/relaxed_opprf.cpp:222-254 | With `ffuns > 4`, no nonce is ever accepted, so the loop as written never exits |
| RelaxedLeader.ClaimSlots | psi_analytics_eurocrypt19/common/relaxed_opprf.cpp:230-241 | `uniqueMap` iff the slots are pairwise distinct; if so, `bitindex[bitaddress[j]] == j` for every `j` and all other slots hold `ts` |
| RelaxedLeader.UnclaimedOfDistinct | psi_analytics_eurocrypt19/common/relaxed_opprf.cpp:243-250 | An accepted row of `ffuns` hash functions leaves exactly `4 - ffuns` slots unclaimed |
| RelaxedLeader.FilledSlotsFillRow | psi_analytics_eurocrypt19/common/relaxed_opprf.cpp:245-250 | Writing each slot as its claimant's masked value or its dummy fills the row as `SlotsFilled` states |
| RelaxedLeader.FillRow | psi_analytics_eurocrypt19/common/relaxed_opprf.cpp:245-250 | Corrected fill: slot `bitaddress[f]` holds `low64(table_masks[i][f]) ^ content_of_bins[i]`, and the `u`-th unclaimed slot holds dummy draw `d0 + u` |
| RelaxedLeader.TryNonce | psi_analytics_eurocrypt19/common/relaxed_opprf.cpp:223-250 | One attempt yields a row iff the nonce is accepted, and that row encodes the bin with `Ts - ffuns` dummies (corrected fill, see Findings) |
| RelaxedLeader.BuildRow | psi_analytics_eurocrypt19/common/relaxed_opprf.cpp:219-254 | A bin's nonce is the first accepted draw of the shared nonce stream, `ctr` counts the rejected draws before it, and the row is encoded; with no acceptance within the bound, every attempt was rejected (corrected fill, see Findings) |
| RelaxedLeader.NoncesDrawn | psi_analytics_eurocrypt19/common/relaxed_opprf.cpp:251-253 | The nonces drawn before bin `i` are the sum of earlier `ctr`s (what `ave_ctr` accumulates) plus one per bin |
| RelaxedLeader.TableSpecAppend | psi_analytics_eurocrypt19/common/relaxed_opprf.cpp:244-247 | Appending an encoded bin after bins `0..n)` extends the table invariant to `n + 1` bins |
| RelaxedLeader.TableSpecRow | psi_analytics_eurocrypt19/common/relaxed_opprf.cpp:247 | Row `i` of a finished table at `i * ts` encodes bin `i` under `padding_vals[i]` |
| RelaxedLeader.BuildTable | psi_analytics_eurocrypt19/common/relaxed_opprf.cpp:202-256 | One accepted nonce per bin and an `nbins * ts` row-major table in which every bin is encoded; otherwise `NonceExhaustion` names a bin whose attempts all failed, which always happens when `ffuns > 4` (bounded search and corrected fill, see Findings) |
| RelaxedLeader.FillRowAsWritten | psi_analytics_eurocrypt19/common/relaxed_opprf.cpp:243-250 | The fill as written reads `table_masks[i][bitindex[j]]` for every slot, and fails exactly when some entry is not an index of the row |
| RelaxedLeader.DummyBranchDead | psi_analytics_eurocrypt19/common/relaxed_opprf.cpp:246 | `bitindex[j] != -1` holds for every `uint8_t` entry |
| RelaxedLeader.UnclaimedSlotReadsPastRow | psi_analytics_eurocrypt19/common/relaxed_opprf.cpp:232-247 | With `ffuns < 4`, every accepted row has a slot whose `bitindex` is the sentinel `ts`, past the row's last mask |
| RelaxedExchange.PadCancels | psi_analytics_eurocrypt19/common/relaxed_opprf.cpp:176-181 | If the leader's `j`-th address of a bin is a slot filled by hash function `j`, and the leader's seed is the helper's mask for that element, the unmasked value is the helper's `content_of_bins` of the element's bin (the pad of lines 121-126 cancels) |
| RelaxedExchange.RowSlotOfMatch | psi_analytics_eurocrypt19/common/relaxed_opprf.cpp:247 | A helper mask with the low half of table mask `f` lands in slot `bitaddress[f]`, which holds that half XOR the bin's value |
| RelaxedExchange.RowResolves | psi_analytics_eurocrypt19/common/relaxed_opprf.cpp:156-158 | For such a mask, the helper's read of an encoded row gives the bin's value |
| RelaxedExchange.ResolverRecoversContent | psi_analytics_eurocrypt19/common/relaxed_opprf.cpp:149-159 | If the low half of the helper's mask for bin `i` equals that of some leader table mask of the bin, and the nonces are the same, `actual_contents_of_bins[i]` is the leader's `content_of_bins[i]` |
| RelaxedExchange.RowReadsDummy | psi_analytics_eurocrypt19/common/relaxed_opprf.cpp:249 | A helper mask landing on an unclaimed slot reads that slot's dummy draw (corrected fill: as written, line 249 is never reached, see Findings) |
| RelaxedExchange.ResolverReadsDummy | psi_analytics_eurocrypt19/common/relaxed_opprf.cpp:156-158 | In a finished table, a helper mask whose slot no hash function claimed reads dummy draw `RowStart(i, 4 - ffuns) + u` (corrected fill, see Findings) |
| PeerPartition.WorkerPeers | psi_analytics_eurocrypt19/common/relaxed_opprf.cpp:65 | Worker `tid`'s loop visits `tid, tid + nthreads, ...` below `np - 1`, in that order |
| PeerPartition.StridedMembers | psi_analytics_eurocrypt19/common/relaxed_opprf.cpp:65 | A peer is visited iff it lies in `[tid, np - 1)` a multiple of `nthreads` away from `tid` |
| PeerPartition.StridedIncreasing | psi_analytics_eurocrypt19/common/relaxed_opprf.cpp:65 | The visits are strictly increasing, so no peer is visited twice |
| PeerPartition.WorkerServes | psi_analytics_eurocrypt19/common/relaxed_opprf.cpp:65 | Worker `tid` visits exactly the peers `i < np - 1` with `i mod nthreads == tid` |
| PeerPartition.WorkersPartitionPeers | psi_analytics_eurocrypt19/common/relaxed_opprf.cpp:271 | Every peer `i < np - 1` is visited by worker `i mod nthreads` and by no other |
| PeerPartition.RunWorker | psi_analytics_eurocrypt19/common/relaxed_opprf.cpp:270-273 | One worker writes exactly its own peers' result entries |
| PeerPartition.RunPhase | psi_analytics_eurocrypt19/common/relaxed_opprf.cpp:295-302 | Once all workers have run, every peer's entry holds its job's result |
| FieldAggregation.FieldElement | psi_analytics_eurocrypt19/common/relaxed_opprf.cpp:325 | `GetElement` yields an element below the characteristic |
| FieldAggregation.ColumnSum | psi_analytics_eurocrypt19/common/relaxed_opprf.cpp:324-333 | The field sum of a bin over the first `k` peers is an element below the characteristic |
| FieldAggregation.ColumnSumIsModularSum | psi_analytics_eurocrypt19/common/relaxed_opprf.cpp:324-333 | Summing in the field equals the integer sum over peers reduced mod `p` |
| FieldAggregation.AggregateLeader | psi_analytics_eurocrypt19/common/relaxed_opprf.cpp:323-339 | `bins` (zeroed at lines 284-287) ends as the sum of the peers' values per bin mod `p`, however often the write loop repeats |
| FieldAggregation.ReduceHelper | psi_analytics_eurocrypt19/common/relaxed_opprf.cpp:354-362 | A helper's `bins[j]` is its own value for bin `j` reduced mod `p` |
| FieldAggregation.ReducedIsCanonical | psi_analytics_eurocrypt19/common/relaxed_opprf.cpp:358-361 | A helper's output is already a field element: reducing it again changes nothing |

## Left out

- Network I/O. The sends and receives of the filter, the nonces and the table are not modelled. Received buffers are parameters, and sent buffers are results.
- Oblivious transfer (`ot_sender`, `ot_receiver`). The OT masks of both sides are inputs.
- Cuckoo and simple hashing. Slot occupancy, element, function id, stash size and the leader's addresses are inputs.
- Generators. `osuCrypto::PRNG` and `sysRandomSeed` are uninterpreted parameters. `content_of_bins` (lines 74-79 and 187-191) is an input. The generators' buffer-length arguments are not modelled.
- SHA-1. It stays uninterpreted.
- Threads. Thread creation and `join` are left out, and the workers run one after the other. That gives the same result, because they write disjoint entries.
- Timing and printing. `std::chrono` and `context.timings` are not modelled. Neither are `ave_ctr`'s final division and its output. What `ave_ctr` sums is stated by `NoncesDrawn`.
- Field type. `ZpMersenneLongElement1` is not part of this model. Its characteristic is a parameter `p` with `0 < p <= 2^64`. The `field` object is used without being initialised; that is a C++ hazard, not behaviour.
- Index-by-reservation. Vectors that are `reserve`d and then written by index are modelled as sequences or arrays sized up front. In the source, `size()` stays 0 after `reserve`, so `bins` (lines 284-287) is returned empty at line 367. `actual_contents_of_bins` (lines 153-158) and the leader's `content_of_bins` (lines 189-191) are reached only through `operator[]`. `AggregateLeader` and `ReduceHelper` return `nbins` values instead.
- Word width. `int` overflow of loop counters and of `i*ts+j` is not modelled.
- Byte order. The model assumes a little-endian host.
- Dead code. The commented-out lookup-table hash in `table_opprf.cpp` and the unfreed `malloc` buffer are not modelled.
- Stash. A non-empty stash is only reported (`stashReported`) and the filter is still built, as the code does. A design that makes a stash overflow fatal would differ here.
- BuildTable: each bin's nonce search is bounded by a `maxTries` parameter and ends in `NonceExhaustion`. The source loops without bound. Within the bound, the nonces, the `ctr` counts and the claimed slots agree with the source. Unclaimed slots follow the corrected fill `FillRow` (see Findings), where the source writes `low64(table_masks[i][4]) ^ content_of_bins[i]`.
- ClaimSlots: `bitindex` entries are `nat`, where the source's are `uint8_t`. They only take the values `0..3` and the sentinel `4`.
- FieldAggregation: a `uint64_t` value is modelled by the integer it denotes (`U64`). The field type's interface is not shown, and the value is not modelled as a bit-vector.
- UnmaskFilter: bin `i`'s addresses start at `RowStart(i, ffuns)`. `RowStartIsProduct` proves this equal to the source's `i * ffuns`.

## Findings

| source | as written | input that shows it | evidently intended | confidence | as-written member | corrected member |
|---|---|---|---|---|---|---|
| psi_analytics_eurocrypt19/common/relaxed_opprf.cpp:246 | `bitindex[j]!=-1` compares a `uint8_t` with `-1`, so it is always true and the dummy branch of line 249 never runs. An unclaimed slot, whose `bitindex` is `ts`, reads `table_masks[i][4]` | `ffuns = 3` and any accepted nonce: one slot stays unclaimed and the fill reads past the bin's 3 table masks | unclaimed slots (`bitindex[j] == ts`) take `dummy_prng` draws | not executed | RelaxedLeader.UnclaimedSlotReadsPastRow | RelaxedLeader.FillRow |
| psi_analytics_eurocrypt19/common/relaxed_opprf.cpp:222 | `while (!uniqueMap)` has no bound | `ffuns = 5`: five slots below 4 always collide, so no nonce is accepted and the loop never exits | the search stops and reports the bin | not executed | RelaxedLeader.NoRowAcceptedBeyondTs | RelaxedLeader.BuildTable |
