# ArcFlare, modelled and verified in Dafny

ArcFlare runs one language model on a cluster of old machines. This project models the parts of it
that decide where the model's layers and bytes go and which machines take part, and proves what those
parts promise.

**The GGUF splitter.** From the bytes of a model file to the bytes of every shard: reading the header,
skipping arbitrarily nested metadata, finding and reading the tensor infos, grouping tensors by layer,
planning shards, computing each tensor's byte region, assigning new offsets and writing the files. The
main results run end to end. On a source with distinct 32-aligned offsets, every tensor is in exactly
one shard and each shard parses to exactly its tensors with the source's names, shapes, types and bytes
(`Lossless.LosslessSplit`); splitting a shard again reproduces it byte for byte
(`Idempotence.SplitAgain`). Both need the fact that offsets are rounded up to 32 while data is written
back to back, and that the two agree exactly when no size but the last of a shard needs rounding
(`Placement.PlacementExact`).

**The layer planners.** The proportional partition with its two repair loops, proved equal to a closed
form and then measured against the exact shares; the equal split of the pipeline; and the node's own
rule for which tensors are its own, compared with the splitter's.

**The node registry.** Heartbeats, HTTP registration, three-valued probes that hold on to node objects
while the registry changes, and pruning by time, as a state machine; results about every run. The
service as a class over shared node objects is proved to take exactly the machine's steps.

**The server manager** keeps at most one llama-server child, whatever the child does at any suspension.
**The topology walk** is the one greedy walk over the recorded links.

Modules: `Wrappers`, `Bytes`, `Sorting`, `PyDict` (shared notions); `Reader`, `Metadata`, `Names`,
`Parser`, `Window`, `Format` (reading); `Layers`, `Selection`, `Regions`, `Writer`, `Split` (the
splitter's stages and its main program); `Placement`, `Lossless`, `Idempotence` (its main results);
`Source`, `Misread` (the files they apply to, and the files that are misread); `Partition`,
`Membership`; `Registry`, `RegistryHistory`, `RegistryRuns`, `RegistryChecks`, `Discovery`;
`ServerManager`; `Topology`.
`dafny verify dfyconfig.toml` checks all of it.

## Findings

Places where the code does not do what its comments, its tests or its documentation suggest:

- The search window for the first tensor info can stop before the end of the metadata, for instance
  when the last pair is a boolean under a short dotted key (`Misread.ShortDottedKeyIsMisread`; one such
  file is in `Misread.FlaggedIsMisread`). `Misread.ReadsExactly` says which conforming files are read as
  what they encode, `Window.TailSafeExact` for which metadata the window never stops early.
- A source without layer tensors produces no shard, so all its tensors are lost
  (`Source.HeadOnlyIsLost` shows one, `Lossless.NoLayersNoShards` covers them all).
  `Lossless.LosslessExactly` says exactly which requests on which sources lose nothing.
- The partition can hand out more layers than there are (`Partition.TotalCanExceed`); the shrink loop
  never takes a layer back (`Partition.ExcessLeavesOne`). `Partition.TotalExactWhen` says when the
  counts add up.
- A node that registers anew while the third probe of its previous entry is in flight is dropped
  without ever having been probed (`RegistryHistory.StaleProbeDropsFreshNode`; a whole run that ends so
  is `RegistryRuns.FreshNodeIsDropped`). `RegistryHistory.RemovalJustified` says exactly when a removal
  hits the node that was refused.
- `check_all_nodes` says it probes every node once. An entry that is pruned during its third refused
  probe raises `KeyError` when it is deleted again, and the entries after it are left unprobed
  (`RegistryChecks.SecondNodeLeftOut`). `RegistryChecks.EachProbedOnce` says exactly when every listed
  node is probed.
- `get_fastest_path` says it follows the lowest cumulative latency; it is greedy and does not
  (`Topology.GreedyIsNotShortest`). `Topology.CheapestExactly` says for which links of the start it
  does whatever the rest of the table holds.
- A tensor whose name has no layer number and no "output" is in the last shard but belongs to no node
  (`Membership.TokenEmbeddingIsNobodys`). `Membership.AgreementExact` says on which tensors splitter and
  nodes agree.

## Model

| member | source | states |
|---|---|---|
| Bytes.AlignUpMeaning | tools/gguf-splitter/src/main.rs:292-298 | the aligned value is the only multiple of 32 in x .. x + 31 |
| Bytes.MaskAligns | tools/gguf-splitter/src/main.rs:292-294 | the mask form on 64-bit words meets the same description |
| Bytes.MaskIsAlignUp | tools/gguf-splitter/src/main.rs:292-298 | without overflow, masking off the low five bits of x + 31 is rounding x up to 32 |
| Reader.ReadU32At | tools/gguf-splitter/src/main.rs:274-281 | reading where an integer was encoded returns it and moves past it |
| Reader.ReadU64Bytes | tools/gguf-splitter/src/main.rs:283-290 | a successful read is a read of that integer's own encoding |
| Reader.ValidUtf8Exactly | tools/gguf-splitter/src/main.rs:114 | the text that is accepted as a name is exactly the encoding of a sequence of characters, as RFC 3629, section 3, defines it |
| Metadata.SkipValue | tools/gguf-splitter/src/main.rs:300-321 | the recursive loop stops where the specification function ends the value, or fails as it does |
| Metadata.SkipPairs | tools/gguf-splitter/src/main.rs:75-81 | the metadata loop ends where the specification ends the run of pairs |
| Metadata.CodesSkipped | tools/gguf-splitter/src/main.rs:301-320 | the number of bytes that each type code from 0 to 13 makes the program skip, or its error; every higher code is an error |
| Metadata.KindOf | tools/gguf-splitter/src/main.rs:302-305 | the codes that are skipped by a fixed width are those of the eleven fixed-size types of the GGUF specification, each with its width |
| Metadata.NumberArraySkipped | tools/gguf-splitter/src/main.rs:310-316 | an array of n numbers of four bytes is skipped with its header of twelve |
| Metadata.ListPairBytes | tools/gguf-splitter/src/main.rs:75-81 | a pair with an array of two numbers, byte by byte |
| Metadata.SkipInvertsEncode | tools/gguf-splitter/src/main.rs:300-321 | skipping the encoding of any value, nested arrays included, stops exactly at its end |
| Metadata.SkippedBytesEncode | tools/gguf-splitter/src/main.rs:300-321 | conversely, whatever is skipped inside the file is the encoding of a well-formed value of that type |
| Metadata.SkipInvertsEncodePairs | tools/gguf-splitter/src/main.rs:75-81 | the same for a whole list of key-value pairs |
| Metadata.ValueEndAgree | tools/gguf-splitter/src/main.rs:300-321 | skipping depends on nothing but the bytes it consumes |
| Metadata.PairsEndAgree | tools/gguf-splitter/src/main.rs:75-81 | a raw copy of the metadata at the same position skips to the same place |
| Metadata.GetMetadataString | tools/gguf-splitter/src/main.rs:323-345 | the lookup loop computes the specified lookup, panics included |
| Metadata.StringForEncodedPairs | tools/gguf-splitter/src/main.rs:323-345 | looking up in bytes is looking up in the list of pairs they encode |
| Metadata.LookupIsFirstMatch | tools/gguf-splitter/src/main.rs:330-344 | the lookup yields a text if and only if the first pair with the key holds it and all keys up to there are UTF-8 |
| Metadata.LookupPanicsExactly | tools/gguf-splitter/src/main.rs:331-341 | a lookup indexes past the file at a pair if and only if the key does, or the pair is the one looked for and its text does |
| Metadata.LookupNeverPanics | tools/gguf-splitter/src/main.rs:330-344 | in metadata that parses inside the file, no lookup indexes out of range |
| Parser.ReadInfos | tools/gguf-splitter/src/main.rs:107-133 | the tensor-info loop returns the specified infos and end |
| Format.InfoAtIsEncoding | tools/gguf-splitter/src/main.rs:110-132 | the bytes one tensor info was read from are exactly its encoding |
| Format.InfoAtEncoded | tools/gguf-splitter/src/main.rs:110-132 | and where a well-formed info was encoded it is read back, with its end |
| Parser.ReadDims | tools/gguf-splitter/src/main.rs:117-121 | the dimension loop |
| Parser.FindInfoStart | tools/gguf-splitter/src/main.rs:87-105 | the window loop picks the first candidate in steps of four, else the metadata end |
| Parser.PlausibleExactly | tools/gguf-splitter/src/main.rs:94-100 | the texts one of which a name must contain to be taken for a tensor name |
| Parser.CandidateExactly | tools/gguf-splitter/src/main.rs:89-98 | a position passes for a tensor name if and only if the length and the bytes of a plausible text of 1 to 255 bytes lie there |
| Parser.ParseFile | tools/gguf-splitter/src/main.rs:60-136 | the whole front matter, or the error that ends it |
| Parser.WindowStopsAtFirstName | tools/gguf-splitter/src/main.rs:87-105 | with a decoy-free metadata tail and a plausible first name the window stops at the metadata end |
| Parser.WindowStopsAtPadding | tools/gguf-splitter/src/main.rs:87-105 | so it does when only padding follows the metadata |
| Parser.WindowStopsAtLongName | tools/gguf-splitter/src/main.rs:87-105 | and when the first name is too long for it and has no zero byte |
| Window.TailSafeExact | tools/gguf-splitter/src/main.rs:87-105 | the tail condition is exact: it holds if and only if the window stops at the metadata end of every file with this metadata and an acceptable first name |
| Misread.WindowExact | tools/gguf-splitter/src/main.rs:87-105 | on a file with a findable name behind the metadata the window stops there if and only if no earlier position it tries passes for a name |
| Misread.ReadsExactly | tools/gguf-splitter/src/main.rs:60-136 | a conforming file with a findable first name is read as what it encodes if and only if that is so |
| Misread.ShortDottedKeyIsMisread | tools/gguf-splitter/src/main.rs:60-136 | every conforming file is misread whose last pair is a boolean under a dotted key of 3, 7, 11, 15 or 19 bytes |
| Misread.FlaggedIsMisread | tools/gguf-splitter/src/main.rs:60-136 | such a file: the splittable sample with one more pair |
| Format.InfosAtEncoded | tools/gguf-splitter/src/main.rs:486-498 | tensor infos read back from their encoding, with their end |
| Format.InfosAtIsEncoding | tools/gguf-splitter/src/main.rs:109-133 | the bytes that tensor infos were read from are exactly their encoding |
| Format.OnlyGguf | tools/gguf-splitter/src/main.rs:60-69 | a file without 24 bytes, or that does not begin with the text GGUF, is refused with the error for it |
| Format.HeaderBytes | tools/gguf-splitter/src/main.rs:476-481 | the header of a written file, byte by byte |
| Format.InfoBytes | tools/gguf-splitter/src/main.rs:486-498 | a written tensor info, byte by byte |
| Format.FileLayout | tools/gguf-splitter/src/main.rs:476-516 | where header, metadata, infos, padding and data of a written file lie |
| Format.ParseEncoded | tools/gguf-splitter/src/main.rs:107-136 | parsing a written file returns version, pair count, infos and the padded data start |
| Names.LayerIdExactly | tools/gguf-splitter/src/main.rs:351-360 | a tensor is of layer n if and only if, between "blk." and the next dot, its name spells n below 2^32 in decimal, perhaps behind zeros or a plus sign |
| Names.NamedLayer | tools/gguf-splitter/src/main.rs:351-360 | so for every n "blk.n." names layer n |
| Names.ParseI32Exactly | node-agent/src/inference/shard.rs:25-33 | the text the node reads as a layer number, with its sign and limits |
| Layers.CountLayers | tools/gguf-splitter/src/main.rs:362-372 | the loop counts layers, or overflows at layer id 2^32 - 1 |
| Layers.LayerCountIsLeast | tools/gguf-splitter/src/main.rs:362-372 | the count is above every layer id and one above an id that occurs |
| Layers.GroupTensorsByLayer | tools/gguf-splitter/src/main.rs:375-393 | the loop fills exactly the specified groups, in file order |
| Layers.GroupsPartition | tools/gguf-splitter/src/main.rs:375-393 | the groups together hold each tensor index exactly once |
| Layers.FallbackNeverTaken | tools/gguf-splitter/src/main.rs:380-386 | with the counted layers only names without a layer id reach the last group |
| Layers.GetShardTensorIndices | tools/gguf-splitter/src/main.rs:396-414 | the loop lists the shard's groups and, for the last shard, the rest |
| Layers.CeilDivMeaning | tools/gguf-splitter/src/main.rs:165-172 | the rounded-up quotient is the least number of shards that covers all layers |
| Layers.PlanFits | tools/gguf-splitter/src/main.rs:178-180 | no shard's range overflows 32 bits if and only if shards times layers per shard stays below 2^32 |
| Layers.ShardCovers | tools/gguf-splitter/src/main.rs:208-210 | ranges are non-empty, each starts where the previous stops, and the head is on the last |
| Layers.ExactlyOnce | tools/gguf-splitter/src/main.rs:197-212 | over all planned shards each tensor index is listed exactly once |
| Selection.ChosenMeaning | tools/gguf-splitter/src/main.rs:396-414 | a tensor is listed if and only if its layer is in the range, or it has none and the head is here |
| Selection.FirstIsLayer | tools/gguf-splitter/src/main.rs:396-414 | a shard that lists anything lists the first tensor of some layer first |
| Regions.ComputeDataSizes | tools/gguf-splitter/src/main.rs:422-444 | the loop computes the specified sizes, or fails on the one subtraction that can underflow |
| Regions.WholeOrderStable | tools/gguf-splitter/src/main.rs:430-431 | the order the sizes are taken in is by offset, and among equal offsets by the order of the tensor infos |
| Regions.RegionsTile | tools/gguf-splitter/src/main.rs:433-441 | in offset order every region starts where the previous ends and the last ends with the file |
| Regions.RegionsDisjoint | tools/gguf-splitter/src/main.rs:433-441 | regions of different tensors share no byte |
| Regions.SizesConserve | tools/gguf-splitter/src/main.rs:433-443 | sizes add up to file size less data start less the smallest offset |
| Regions.FitsMeansEveryOffsetFits | tools/gguf-splitter/src/main.rs:435-439 | sizes are computed without underflow if and only if every offset lies in the file |
| Writer.ComputeNewOffsets | tools/gguf-splitter/src/main.rs:466-474 | the offset table of the loop with its rounded cursor |
| Writer.WriteInfo | tools/gguf-splitter/src/main.rs:490-497 | the appended pieces are the encoding of one tensor info |
| Writer.WriteInfos | tools/gguf-splitter/src/main.rs:486-498 | the infos are appended in the listed order with their new offsets |
| Writer.WritePadding | tools/gguf-splitter/src/main.rs:500-506 | zeros up to the next multiple of 32 |
| Writer.WriteBody | tools/gguf-splitter/src/main.rs:508-516 | the source regions are appended back to back in offset order |
| Writer.WriteShard | tools/gguf-splitter/src/main.rs:450-519 | the file ends up with exactly the specified bytes |
| Placement.PlacementExact | tools/gguf-splitter/src/main.rs:463-516 | every tensor is announced where its data is written if and only if no size but the last is off a multiple of 32 |
| Placement.GapAligned | tools/gguf-splitter/src/main.rs:433-441 | with aligned distinct offsets every size but the last in the file is a positive multiple of 32 |
| Placement.AlignedShard | tools/gguf-splitter/src/main.rs:463-474 | so is every size but the last of any shard |
| Placement.ShardOrder | tools/gguf-splitter/src/main.rs:463-473 | sorting a shard by its new offsets recovers the order it was written in |
| Placement.ShardSizesRecovered | tools/gguf-splitter/src/main.rs:422-444 | the sizes a reader computes for a shard are the sizes the tensors had in the source |
| Placement.ShardBytesRecovered | tools/gguf-splitter/src/main.rs:508-516 | at a tensor's new offset lie the bytes of its source region |
| Split.CheckPlan | tools/gguf-splitter/src/main.rs:172-188 | the plan loop finds out whether any range overflows |
| Split.WriteShards | tools/gguf-splitter/src/main.rs:196-235 | the loop writes exactly the planned files |
| Split.SplitFile | tools/gguf-splitter/src/main.rs:57-235 | the program from input bytes to shard files, every error exit included |
| Lossless.WrittenFits | tools/gguf-splitter/src/main.rs:450-519 | a shard is never larger than its source |
| Lossless.WrittenParses | tools/gguf-splitter/src/main.rs:450-519 | a written shard parses to the source's version and metadata and the listed tensors in order |
| Lossless.WrittenHolds | tools/gguf-splitter/src/main.rs:450-519 | each of them with the source's name, shape, type and every byte of data |
| Lossless.LosslessSplit | tools/gguf-splitter/src/main.rs:66-235 | splitting succeeds, each tensor is in exactly one shard, and each shard holds exactly its tensors |
| Lossless.SplitByLayer | tools/gguf-splitter/src/main.rs:160-235 | with k layers a file as requested, or k the least with 4k at least the layer count, file i of the lossless split holds exactly the tensors of layers ik to ik + k - 1, the last also those without a layer; there are as many files as that takes, at most four without a request |
| Lossless.LosslessExactly | tools/gguf-splitter/src/main.rs:160-235 | the split of a splittable source is lossless if and only if there is a layer tensor, layers per shard is positive and the rounded-up plan stays below 2^32 (or there is no tensor to lose) |
| Lossless.BadRequest | tools/gguf-splitter/src/main.rs:160-185 | what any other request ends with: one of two errors, or success without a file |
| Lossless.NoLayersNoShards | tools/gguf-splitter/src/main.rs:160-197 | without a layer tensor no shard is written on request, and automatic mode or a zero request fails |
| Source.HeadOnlyIsLost | tools/gguf-splitter/src/main.rs:160-197 | a concrete source with only an output tensor: the split succeeds and writes nothing, and no request saves the tensor |
| Source.EncodedParses | tools/gguf-splitter/src/main.rs:66-136 | parsing the encoding of any conforming, recognizable model returns its version, pair count and tensors, and where its data starts |
| Source.EncodedIsSplittable | tools/gguf-splitter/src/main.rs:66-136 | so every such file meets what lossless splitting asks of a source |
| Source.SampleIsSplittable | tools/gguf-splitter/src/main.rs:66-188 | a concrete two-layer source and request meet all of it, with the second tensor first in the file and an unaligned last region |
| Idempotence.OrderedSelection | tools/gguf-splitter/src/main.rs:375-414 | regrouping tensors that are already grouped lists them unchanged |
| Idempotence.RewriteShard | tools/gguf-splitter/src/main.rs:450-519 | writing a shard's own tensors again gives the shard's own bytes |
| Idempotence.SplitAgain | tools/gguf-splitter/src/main.rs:57-235 | splitting a written shard with room for all its layers yields that same file |
| Partition.AllocateLayers | orchestrator/src/arcflare/cluster/partition.py:51-70 | the floors and both repair loops leave the closed-form counts |
| Partition.CalculatePartition | orchestrator/src/arcflare/cluster/partition.py:28-98 | the parts, the empty result without nodes, the division by zero without layers |
| Partition.ExcessLeavesOne | orchestrator/src/arcflare/cluster/partition.py:64-70 | when too much is allocated the lowest-scored node already holds one layer, so the shrink loop stops at once |
| Partition.CountsTotal | orchestrator/src/arcflare/cluster/partition.py:57-70 | counts add up to at least L and at most L + n - 1, and growth adds fewer than n |
| Partition.TotalExactWhen | orchestrator/src/arcflare/cluster/partition.py:51-70 | they add up to L if and only if the nodes with less than one layer's share fit in what the others' whole shares leave |
| Partition.TotalCanExceed | orchestrator/src/arcflare/cluster/partition.py:51-70 | scores 100, 1, 1 and ten layers give 9, 1, 1 |
| Partition.RangesTile | orchestrator/src/arcflare/cluster/partition.py:79-91 | ranges start at 0, are non-empty and contiguous, and end at the sum of the counts |
| Partition.HigherScoreNotFewer | orchestrator/src/arcflare/cluster/partition.py:51-62 | a strictly higher score never gets fewer layers |
| Partition.CountNearShare | orchestrator/src/arcflare/cluster/partition.py:51-54 | all nodes but the top one get more than share - 1 and at most max(1, share) |
| Partition.OneHead | orchestrator/src/arcflare/cluster/partition.py:73-90 | exactly one part has the LM head, and no node is above it in the (GPU, score) order |
| Partition.PartsFollowScores | orchestrator/src/arcflare/cluster/partition.py:41-98 | of the parts, every one but the top node's is in proportion to its node's score, a higher score never gets fewer layers, and all together get L to L + n - 1 |
| Partition.PartsFollowRawScores | orchestrator/src/arcflare/cluster/partition.py:142 | for raw scores of at least 1 the same in terms of the raw scores |
| Partition.PartMemory | orchestrator/src/arcflare/cluster/partition.py:89 | each estimate is to the model size as the part's layers are to all layers |
| Partition.MemoryAddsUp | orchestrator/src/arcflare/cluster/partition.py:83-89 | estimated memory adds up to the model size times allocated over actual layers |
| Membership.BelongsByLayer | node-agent/src/inference/shard.rs:37-44 | a tensor "blk.n." below 2^31 belongs to exactly the ranges that include n |
| Membership.BelongsByOutput | node-agent/src/inference/shard.rs:37-44 | a tensor not named after a block belongs to a range if and only if "output" occurs in its name and the range has the head |
| Membership.ParsersAgree | node-agent/src/inference/shard.rs:25-33 | where the signed and the unsigned reading of a layer number agree and where not |
| Membership.AgreementExact | node-agent/src/inference/shard.rs:37-44 | splitter and nodes agree on a tensor in every shard if and only if its name is of one of three kinds |
| Membership.TokenEmbeddingIsNobodys | node-agent/src/inference/shard.rs:37-44 | "token_embd.weight" is in the last shard only, and no node claims it whatever range it is told |
| Membership.AtMostFourShards | tools/gguf-splitter/src/main.rs:165-172 | automatic mode makes at most four shards |
| Membership.EqualSplitTiles | orchestrator/src/arcflare/inference/pipeline.py:204-216 | the equal ranges run from 0 to the total without gap, with the head on the last |
| Membership.EachLayerOnce | orchestrator/src/arcflare/inference/pipeline.py:204-216 | every layer is in exactly one node's range |
| Membership.LoadShardsOnNodes | orchestrator/src/arcflare/inference/pipeline.py:202-219 | connected nodes are sent exactly their range; success means one node loaded |
| RegistryHistory.CountersAreHistory | orchestrator/src/arcflare/cluster/discovery.py:106-138 | over every run each counter is the node's trailing run of refused probes, each time stamp its last refresh, and no registered node is at three |
| RegistryHistory.RemovalExact | orchestrator/src/arcflare/cluster/discovery.py:122-137 | the health check removes exactly the probed key and exactly at the third refusal in a row |
| RegistryHistory.RemovalJustified | orchestrator/src/arcflare/cluster/discovery.py:111-130 | the removed node was itself refused three times if and only if it is the one that was probed |
| RegistryHistory.StaleProbeDropsFreshNode | orchestrator/src/arcflare/api/management.py:46-60 | registering during the third probe gets the new entry dropped |
| RegistryRuns.FreshNodeIsDropped | orchestrator/src/arcflare/api/management.py:46-60 | a concrete run from the empty registry in which that happens |
| RegistryHistory.PruneExact | orchestrator/src/arcflare/cluster/discovery.py:209-217 | pruning keeps exactly the nodes refreshed within 15 seconds |
| RegistryHistory.PrunedAreFresh | orchestrator/src/arcflare/cluster/discovery.py:185-187 | over every run no node left after pruning was last refreshed over 15 seconds ago |
| RegistryHistory.EndpointsAreFresh | orchestrator/src/arcflare/cluster/discovery.py:193-200 | nor was the node of any endpoint offered |
| RegistryRuns.InTouchIsOffered | orchestrator/src/arcflare/cluster/discovery.py:106-217 | over every run a stored and fresh node that from then on is refreshed at least every 15 seconds, is not replaced, and whose id meets no third refusal running, is returned at every later moment, whatever happened to the id before; the hypotheses speak of the log and of times only |
| RegistryRuns.ReturnedNodeIsOffered | orchestrator/src/arcflare/cluster/discovery.py:106-217 | a concrete run in which a node is dropped at its third refusal, registers again, and is offered from then on |
| RegistryChecks.CheckGoesOn | orchestrator/src/arcflare/cluster/discovery.py:111-138 | an answer takes the check on to its next entry unless it is the third refusal of an entry removed meanwhile, which ends the check |
| RegistryChecks.EachProbedOnce | orchestrator/src/arcflare/cluster/discovery.py:106-138 | over every run a check probes, in order, the front of what it listed, and each listed node exactly once if and only if that exception never strikes with entries left |
| RegistryChecks.SecondNodeLeftOut | orchestrator/src/arcflare/cluster/discovery.py:106-138 | a concrete run in which a listed node that keeps in touch is never probed |
| RegistryHistory.StoredExactlyWhileSpared | orchestrator/src/arcflare/cluster/discovery.py:106-217 | one event keeps an object stored if and only if it was stored and the event gives no reason to drop it |
| RegistryHistory.StaysExactlyWhileSpared | orchestrator/src/arcflare/cluster/discovery.py:106-217 | a node stays registered over any run if and only if every event on the way spared it |
| Registry.AcceptableExactly | orchestrator/src/arcflare/api/management.py:40-44 | which registrations are not rejected, spaces and port limits included |
| Registry.RegisteredIsOffered | orchestrator/src/arcflare/api/management.py:46-60 | an accepted registration is stored for 15 seconds at least, and its address and rpc port are offered if and only if it has both |
| Registry.StepConsistent | orchestrator/src/arcflare/cluster/discovery.py:106-217 | every event keeps entries and the running check on existing objects under their own ids |
| Discovery.NodeInfo.TakeAnswer | orchestrator/src/arcflare/cluster/discovery.py:116-137 | what the answer to a probe changes on a node |
| Discovery.DiscoveryService.HandleDiscovery | orchestrator/src/arcflare/cluster/discovery.py:150-180 | a heartbeat is the machine's heartbeat step; a new node gets every field of it, a known one its port, time and status only |
| Discovery.DiscoveryService.RegisterNode | orchestrator/src/arcflare/api/management.py:40-63 | a registration is the machine's registration step: accepted, its id holds a new object with exactly the given name, ports and address; rejected, nothing changes |
| Discovery.RegisterThenAsk | orchestrator/src/arcflare/cluster/discovery.py:193-200 | the endpoints asked for within 15 seconds of an accepted registration include its address and rpc port if and only if it has both |
| Discovery.DiscoveryService.PruneDeadNodes | orchestrator/src/arcflare/cluster/discovery.py:209-217 | collecting and deleting dead keys is the machine's pruning step |
| Discovery.DiscoveryService.GetNodes | orchestrator/src/arcflare/cluster/discovery.py:185-187 | prunes, then returns all nodes in order |
| Discovery.DiscoveryService.GetRpcEndpoints | orchestrator/src/arcflare/cluster/discovery.py:193-200 | prunes, then returns the endpoints of exactly the nodes with an address and an rpc port, one per node, in order |
| Registry.EndpointsMeaning | orchestrator/src/arcflare/cluster/discovery.py:193-200 | an endpoint is in that list if and only if some stored node has this address and this port, neither of them empty |
| Discovery.DiscoveryService.StartCheck | orchestrator/src/arcflare/cluster/discovery.py:111-114 | the check takes the list of entries and sends its first probe to the rpc port of the first, or its grpc port if it has none |
| Discovery.DiscoveryService.FinishProbe | orchestrator/src/arcflare/cluster/discovery.py:112-138 | from one answer to the next probe is the machine's answer step, the KeyError included, with its effect on every field of the probed node and the port of the next probe |
| ServerManager.SameConfig | orchestrator/src/arcflare/inference/llama_server.py:60-62 | two requests want the same configuration if and only if model and endpoint multiset are the same |
| ServerManager.LlamaServerManager.StopLocked | orchestrator/src/arcflare/inference/llama_server.py:152-164 | afterwards the child runs no more and process and configuration are empty |
| ServerManager.LlamaServerManager.WaitHealthy | orchestrator/src/arcflare/inference/llama_server.py:98-114 | the answer is positive if and only if the child has answered a health request while running; otherwise it has exited or been asked once a second until the time was up |
| ServerManager.LlamaServerManager.StartLocked | orchestrator/src/arcflare/inference/llama_server.py:68-96 | one child at most is spawned; the start succeeds if and only if it answered, and fails only when it exited or was asked 240 times |
| ServerManager.LlamaServerManager.Ensure | orchestrator/src/arcflare/inference/llama_server.py:58-66 | with an executable a child is spawned if and only if none is alive, or the model or the multiset of endpoints differs from the last successful request; True means it answered under exactly the requested configuration |
| ServerManager.LlamaServerManager.Stop | orchestrator/src/arcflare/inference/llama_server.py:148-150 | no child runs afterwards |
| ServerManager.Serve | orchestrator/src/arcflare/inference/llama_server.py:46-164 | over every sequence of operations and exits the settled state returns whenever the lock is free |
| Topology.TopologyManager.RecordLatency | orchestrator/src/arcflare/cluster/topology.py:13-16 | afterwards the one link has this latency, every other link is as before, and a known link keeps its place in the order while a new one goes last |
| Topology.RecordedMeaning | orchestrator/src/arcflare/cluster/topology.py:13-16 | recording changes the one link and no other |
| Topology.TopologyManager.GetLatency | orchestrator/src/arcflare/cluster/topology.py:18-21 | the recorded latency, if any |
| Topology.TopologyManager.GetFastestPath | orchestrator/src/arcflare/cluster/topology.py:23-46 | the loops terminate and compute the walk |
| Topology.WalkIsTheGreedyPath | orchestrator/src/arcflare/cluster/topology.py:29-46 | a path is the result if and only if each hop is the first lowest unvisited neighbour and it stops at the end or without a choice |
| Topology.WalkNeverRepeats | orchestrator/src/arcflare/cluster/topology.py:29-46 | no node repeats and the start never reappears |
| Topology.WalkLength | orchestrator/src/arcflare/cluster/topology.py:29-46 | at most as many hops as there are link targets |
| Topology.GreedyIsNotShortest | orchestrator/src/arcflare/cluster/topology.py:23-46 | a table on which the walk costs 11 and a recorded path costs 3 |
| Topology.CheapestExactly | orchestrator/src/arcflare/cluster/topology.py:23-46 | for links of the start without negative latency: the walk is a cheapest path in every table with these links if and only if start is the end, there is nowhere to go, or the end is the first lowest link |
| Topology.WalkOneHop | orchestrator/src/arcflare/cluster/topology.py:29-46 | in the last case the walk is that one hop |

## Left out

- Lossless.LosslessSplit: needs a metadata tail of at least 32 bytes without decoys, because outside that the search window can misread the file (the tail condition is exact by Window.TailSafeExact), and that the first name of each layer, if 256 bytes or longer, has no zero byte.
- Topology.CheapestExactly: the condition is on the links of the start, for every table they occur in; links of negative latency are not considered.
- Discovery.DiscoveryService.HandleDiscovery: takes a decoded heartbeat; malformed datagrams change nothing and are not modelled.
- Discovery.DiscoveryService.StartCheck: `check_all_nodes` appears as its pieces between suspensions, and only one check runs at a time, as in the health loop.
- ServerManager.LlamaServerManager.WaitHealthy: every answer on the port is taken to come from the manager's own child; the source takes any 200 from that port, whoever sends it.
- Partition.CalculatePartition: scores are exact numbers and the sum of memory, GPU, benchmark and latency terms behind a score is an input; only its floor at 1 is modelled.
- Overflowing integer operations end the run, as in a build with overflow checks; a release build would wrap around.
- Command line, file system, progress output, the JSON plan and the `--list-tensors` listing of the splitter; the layers-per-shard setting of a node configuration file enters as the requested number.
- Reserving memory for an absurd tensor count before reading, and a custom `general.alignment`, which the splitter ignores.
- The clock is taken to be monotone, and versions, operating systems and hardware summaries of nodes are not carried along.
- Unexpected exceptions and task cancellation inside the server manager, its command line and environment (the context size among them, which is not part of the compared configuration), and the streaming of completions.
- gRPC, UDP and HTTP transport, token generation, hardware detection, overclocking, tuning, the dashboard and deployment scripts.
