# MetaSpore parameter server, modelled and proved in Dafny

MetaSpore's C++ core is a sharded parameter server: workers push and pull
embedding vectors and dense tensors, servers keep them, a coordinator hands out
ranks and runs barriers. This project models the storage layer, the protocols
between the processes, and four self-contained algorithms of that core, and
proves what each of them is for. Code that works by changing fields or buffers is
modelled by classes and methods with loops; each method is proved against a
function on values, and the laws are lemmas about those functions.
`dafny verify dfyconfig.toml` checks the whole project.

| files | what they model |
|---|---|
| `ArrayHashMaps`, `SparseStore`, `SparsePartition` | one shard: the chained hash table, the meaning of each request on a plain map, and the handlers that edit buffers in place |
| `SparseSharding`, `SparseCalls`, `Repartition`, `AgeLaw` | n shards and the client's routing refine one map, as laws and as whole calls; reloading onto another number of servers conserves it; what an age counts |
| `DensePartitions`, `DenseTensors`, `Rows`, `Arith` | row ranges of a dense tensor, the wrapping hash, and n servers refining one pair of byte arrays |
| `NodeEncoding`, `NodeManagers`, `Barriers` | group tables, and the counting barrier as a state machine over a message multiset |
| `RequestTracker` | outstanding calls of all processes over a network that reorders |
| `RankAssignment`, `Decimals` | node join: the sort's comparator, rank assignment, what every node learns |
| `HashCombine` | string hashing and the flat Cartesian combination |
| `LineReaders`, `TextFormat` | the chunked line reader, and the writer and reader of the text form |
| `S3Streams` | prefetching reads and multipart writes |
| `MetricBuffers` | bucketed AUC |
| `SliceLayout` | data, state and age inside a slice |
| `Sequences`, `Responses`, `Wrappers` | what several of the others share |

## What is assumed

- Messages are delivered once each, in any order; sends succeed; every request
  is answered once; node addresses are distinct; each node has one thread that
  calls `Barrier`.
- Floats are reals (plus a NaN value in slices), and a sum or product of floats
  does not round.
- The initializer and updater callbacks of a sparse tensor work key by key; those
  of a dense tensor keep buffer lengths, and for the refinement result the updater
  treats the rows of different partitions separately.
- In the results over several servers, a push that runs a sparse updater names each
  key once, value pushes and pulls may repeat keys, and no table outgrows its 2^31
  keys. The handlers and the calls of `SparseCalls` are modelled without that bound:
  they throw exactly when some table has no room for all keys, and the slices stored
  before are as they were then.

## Where the code does not do what it seems to promise

- The dense partition index `(index + hash) % n` is computed in `size_t`, so the
  partitions are permuted exactly when `hash + n` stays within 2^64 or n divides
  2^64 (`SharesOutIff`); with 3 partitions and hash 2^64 - 1 two servers get the
  same rows and other rows get no server (`HashCanCollide`). That the rows are tiled
  is a weaker thing, since empty ranges do no harm: they are exactly when the hash
  fits or `rows + (2^64 - hash) <= 2^64 mod n` (`TiledIff`; `CollidingHashCanTile` is
  a tensor of 3 rows for which it holds although 2 of 6 partitions collide).
- With a hash that does not give the last row to any partition, a push too short for
  the tensor is not refused by the client and overwrites the servers' blocks
  (`ShortPushSlips`). The servers hold the parts of one tensor in all runs exactly
  when this cannot happen (`RefinesIff`), a condition on rows, partitions and hash
  (`EndTakenIff`) that every tiling hash meets.
- The text form cannot be read back when a tensor has no state items (or no data
  items): the splitter drops the empty field and the reader throws. `LineRoundTrip`
  says exactly when a line is read back.
- Message ids are drawn as 64-bit numbers but kept and sent as `int`. Conservation
  survives a call exactly when its id is below 2^31 or it sends nothing
  (`BeginKeepsIff`). The reply to any longer id is looked up under another one: it
  misses when that one is not tracked, and otherwise is recorded as an answer to
  that other call (`LongIdGoesAstray`).
- With no instances at all, AUC is 1 both ways round, so swapping the classes does
  not mirror it (`SwapMirrors`).
- A comment at python/metaspore/distributed_trainer.py:149-151 says that importing
  never overrides existing keys; `Load` passes `skip_existing = false`
  (cpp/metaspore/sparse_tensor.cpp:323-328), which overrides nothing exactly when
  every key on both sides has the same slice (`MergeOverridesNothing`).
  `ImportMerges` covers both settings, `LoadConserves` the cleared servers that the
  comment asks for.
- Slice lengths are computed in `size_t`: 2^61 items of 8 bytes get no byte at all
  (`ItemsCanVanish`). A slice has room for its items and its age exactly when they,
  as unbounded numbers, end below 2^64 (`SoundIffFits`).

## Model

| member | source | states |
|---|---|---|
| `ArrayHashMaps.ArrayHashMap.Find` | cpp/common/hashmap/array_hash_map.h:166-178 | the index of a key in the dense arrays, or -1 exactly when it is absent, walking the bucket's chain |
| `ArrayHashMaps.ArrayHashMap.GetOrInit` | cpp/common/hashmap/array_hash_map.h:217-244 | a present key keeps everything; a missing one is appended at the end and existing indices stay; it fails, with nothing changed, exactly when a missing key meets a table of 2^31 keys |
| `ArrayHashMaps.ArrayHashMap.Append` | cpp/common/hashmap/array_hash_map.h:235-243 | the new key heads its chain and every chain invariant is kept |
| `ArrayHashMaps.ArrayHashMap.Reallocate` | cpp/common/hashmap/array_hash_map.h:114-142 | a table of enough buckets indexes the same entries; a size below the key count or beyond the bucket limit leaves it as it was |
| `ArrayHashMaps.FastModuloBits` | cpp/common/hashmap/array_hash_map.h:706-713 | the mask and the shift by 31 are remainder and quotient |
| `ArrayHashMaps.FastModuloIs` | cpp/common/hashmap/array_hash_map.h:706-713 | the fast form is congruent to the key modulo 2^31 - 1, and how far it may be from fully reduced |
| `ArrayHashMaps.MaskIsRemainder` | cpp/common/hashmap/array_hash_map.h:148-150 | masking a number with a power of two less one is its remainder, bit by bit |
| `ArrayHashMaps.BucketIsMasked` | cpp/common/hashmap/array_hash_map.h:148-150 | the bucket of a key is the masked expression |
| `ArrayHashMaps.ArrayHashMap.BuildHashIndex` | cpp/common/hashmap/array_hash_map.h:685-693 | after the rebuild every bucket's chain lists exactly its keys, newest first |
| `ArrayHashMaps.ArrayHashMap.Prune` | cpp/common/hashmap/array_hash_map.h:301-322 | one call of the predicate per entry, in place: the map left is the old one without the entries it names, with the values it rewrote, and a shrinking table always has room |
| `ArrayHashMaps.DoubleFits` | cpp/common/hashmap/array_hash_map.h:695-704 | a full table can double exactly when it has fewer than 2^31 buckets |
| `ArrayHashMaps.LatestIsNewest` | cpp/common/hashmap/array_hash_map.h:685-693 | the head of a chain is the newest entry of its bucket, with no later one |
| `ArrayHashMaps.PowerGap` | cpp/common/hashmap/array_hash_map.h:317-321 | a table never needs more buckets after it shrank |
| `ArrayHashMaps.KeptMeaning` | cpp/common/hashmap/array_hash_map.h:301-322 | the surviving dense arrays have unique keys and store the pruned map |
| `SparsePartition.SparseTensorPartition.AllocateHashMap` | cpp/metaspore/sparse_tensor_partition.cpp:30-40 | allocating empties the shard, or throws and changes nothing exactly when the check of name, count and index fails |
| `SparsePartition.SparseTensorPartition.Clear` | cpp/metaspore/sparse_tensor_partition.cpp:36-40 | clearing leaves the empty map |
| `SparsePartition.SparseTensorPartition.TransformIndices` | cpp/metaspore/sparse_tensor_partition.cpp:100-139 | each request key is overwritten by the index of its key (padding and missing keys by their marks); exactly the missing keys are inserted and initialised, present ones are untouched, and a read-only pull changes nothing; it throws exactly when old and missing keys together are more than 2^31, and keeps every slice it had then |
| `SparsePartition.InsertedIsEnsured` | cpp/metaspore/sparse_tensor_partition.cpp:112-137 | initialising only the block behind the old size initialises every new key once and no other |
| `SparsePartition.SparseTensorPartition.HandlePush` | cpp/metaspore/sparse_tensor_partition.cpp:42-76 | the shard's map becomes what pushing the rows in order means on a plain map, unless there is no room for the keys; under distinct keys it leaves the pushed row and the old state, or the data and state the updater made, at age 0; an updater batch with repeated keys still touches only the pushed keys and makes them young |
| `SparsePartition.ResetUpdatedIsWritten` | cpp/metaspore/sparse_tensor_partition.cpp:61-75 | for distinct keys, the batch update followed by the age loop is the push row by row |
| `SparsePartition.UpdateTouchesOnly` | cpp/metaspore/sparse_tensor_partition.cpp:61-75 | even with repeated keys, a batch update leaves all other slices alone and resets the ages of its own |
| `SparseStore.NewSlice` | cpp/metaspore/sparse_tensor_partition.cpp:112-137 | a new slice has the initializer's data, or zeros without one, zero state and age 0 |
| `SparseStore.PushLeaves` | cpp/metaspore/sparse_tensor_partition.cpp:61-75 | under a key that no later row names, a push leaves the row and the old state, or exactly what the updater made of slice and row, at age 0 |
| `SparseStore.PushTouchesOnly` | cpp/metaspore/sparse_tensor_partition.cpp:42-76 | a push adds exactly the missing keys it names and leaves every other slice as it was |
| `SparseStore.ImportLeaves` | cpp/metaspore/sparse_tensor_partition.cpp:141-165 | under each of distinct keys an import leaves the file's slice, its data with zero state and age, or the old slice when existing keys are skipped |
| `SparseStore.PullAnswers` | cpp/metaspore/sparse_tensor_partition.cpp:78-98 | what a pull answers for a key, item by item: the stored data, the initial data, NaNs or zeros; zeros for key 0 |
| `SparseStore.PullLeaves` | cpp/metaspore/sparse_tensor_partition.cpp:100-139 | a read-only pull stores nothing, any other exactly the missing keys but 0, with their initial slices |
| `SparsePartition.SparseTensorPartition.HandlePull` | cpp/metaspore/sparse_tensor_partition.cpp:78-98 | one row per key as the plain map answers it; throws exactly when an integer tensor would need a NaN or there is no room for the keys it inserts |
| `SparsePartition.SparseTensorPartition.HandlePushPartition` | cpp/metaspore/sparse_tensor_partition.cpp:141-165 | slices are imported in order, whole or data only, skipping existing keys when asked; it throws exactly when there is no room for all keys, and those before that one are in |
| `SparsePartition.SparseTensorPartition.PruneSmall` | cpp/metaspore/sparse_tensor_partition.cpp:325-357 | keeps, unchanged, exactly the slices with a data item farther than epsilon from zero; refuses integer tensors |
| `SparseStore.SmallPruned` | cpp/metaspore/sparse_tensor_partition.cpp:325-335 | that is what the visit decides, on either side of zero, NaNs not counting |
| `SparsePartition.SparseTensorPartition.PruneOld` | cpp/metaspore/sparse_tensor_partition.cpp:359-367 | every age grows by one, the slices above the limit go, and data and state stay |
| `SparseSharding.ScatterKeys` | cpp/metaspore/sparse_tensor.cpp:98-108 | each server gets its keys, in order |
| `SparseSharding.ScatterPush` | cpp/metaspore/sparse_tensor.cpp:61-74 | each server gets its keys and, cut from the flat input, their rows |
| `SparseSharding.PushArrives` | cpp/metaspore/sparse_tensor.cpp:61-96 | the flat buffer sent to a server is cut there into the rows of exactly the keys it was sent |
| `SparseSharding.CursorPoints` | cpp/metaspore/sparse_tensor.cpp:142-149 | the number of earlier keys routed to the owner of key i is the place of key i in the owner's request |
| `SparseSharding.CollectSources` | cpp/metaspore/sparse_tensor.cpp:133-141 | each server's buffer is found under its rank, whatever the arrival order |
| `SparseSharding.Gather` | cpp/metaspore/sparse_tensor.cpp:126-152 | slice i of the output is the row the owner of key i answered for it, for every key list and arrival order |
| `SparseSharding.ServerStep` | cpp/metaspore/sparse_tensor.cpp:61-192 | a server applying its part of a request does to its shard what the request does to the one map |
| `SparseSharding.FailsTogether` | cpp/metaspore/sparse_tensor.cpp:98-152 | some server throws exactly when the one map would |
| `SparseSharding.ClientStep` | cpp/metaspore/sparse_tensor.cpp:98-152 | what the client makes of the n answers is the one map's answer |
| `SparseSharding.ServerRefinesOneMap` | cpp/metaspore/sparse_tensor_partition.cpp:36-165 | in the order its messages arrive, a shard is the restriction of one map, whatever the other servers do |
| `SparseSharding.ShardsRefineOneMap` | cpp/metaspore/sparse_tensor.cpp:50-192 | in every run of push, pull, import, clear and prunes over n servers the shards hold one map |
| `SparseSharding.ShardsAnswerAsOneMap` | cpp/metaspore/sparse_tensor.cpp:50-192 | in every such run every call is answered as that map would answer it |
| `SparseSharding.ConcurrentPull` | cpp/metaspore/sparse_tensor.cpp:98-152 | with concurrent calls, each server receiving its messages in an order of its own, a pull answers for each key the row of one map run in the order of the key's owner, or fails where it has to |
| `SparseSharding.ConcurrentPullFails` | cpp/metaspore/sparse_tensor_partition.cpp:78-98 | such a pull fails exactly when it may not insert, must fill NaNs into integers, and names a key that its owner lacks when the pull gets there |
| `SparseSharding.ShardsPartition` | cpp/metaspore/sparse_tensor.cpp:70-74 | each key is on server `key % n` only, with the map's slice |
| `SparseSharding.PaddingPullsZeros` | cpp/metaspore/sparse_tensor_partition.cpp:100-139 | a pull of key 0 answers one row of zeros even after key 0 was pushed and stored |
| `SparseSharding.ApplyKeepsLayout` | cpp/metaspore/sparse_tensor_partition.cpp:42-165 | every request keeps every slice's lengths, so every answered row has the row length |
| `SparseCalls.Pull` | cpp/metaspore/sparse_tensor.cpp:98-152 | a whole pull over n servers, with any arrival order: it answers the rows of the one map and leaves the servers holding the pulled map; it fails exactly when the one map would throw or a server has no room |
| `SparseCalls.Push` | cpp/metaspore/sparse_tensor.cpp:50-96 | a whole push over n servers leaves them holding the one map after the push, exactly when every server has room; under distinct keys that map holds the rows, or what the updater made of them |
| `SparseCalls.AnswersTogether` | cpp/metaspore/sparse_tensor.cpp:98-152 | all servers get through exactly when the one map answers and each has room |
| `SparseCalls.PushedIsPulled` | cpp/metaspore/sparse_tensor.cpp:50-152 | pulling distinct keys just pushed as values gives the pushed rows, except zeros for key 0 |
| `Repartition.PartitionIndices` | cpp/metaspore/sparse_tensor.cpp:480-482 | worker w imports exactly the partitions i with `i % workers == w`, ascending |
| `Repartition.ImportTask.Next` | cpp/metaspore/sparse_tensor.cpp:402-411 | partitions are taken one by one; the callback comes after the last |
| `Repartition.EveryPartitionArrives` | cpp/metaspore/sparse_tensor.cpp:480-485 | whatever the interleaving, exactly the saved partitions arrive |
| `Repartition.ImportedIsMerge` | cpp/metaspore/sparse_tensor_partition.cpp:141-165 | importing the arrays of a file merges in the map they store; on common keys the old or the new slice wins as asked |
| `Repartition.MergeOverridesNothing` | cpp/metaspore/sparse_tensor.cpp:323-328 | skipping keeps every slice; without it nothing is overridden exactly when the common keys agree |
| `Repartition.ImportMerges` | cpp/metaspore/sparse_tensor.cpp:374-486 | a server ends with its part of the saved map merged into its part of the map it had, for every interleaving of the workers' messages |
| `Repartition.LoadConserves` | cpp/metaspore/sparse_tensor.cpp:303-329 | from cleared servers, each new server ends with exactly the saved keys it owns, with data, state and age; an unchanged server count loads the server's own file |
| `AgeLaw.AgeCountsPrunes` | cpp/metaspore/sparse_tensor_partition.cpp:42-76 | a live key's age is the number of `PruneOld` calls since its creation or last push, whichever is later |
| `AgeLaw.LiveSinceOnce` | cpp/metaspore/sparse_tensor_partition.cpp:42-76 | that creation or push is unique |
| `AgeLaw.PruneOldDrops` | cpp/metaspore/sparse_tensor_partition.cpp:359-367 | a key survives a `PruneOld` exactly when that count, this call included, is within the limit |
| `AgeLaw.PullKeepsAge` | cpp/metaspore/sparse_tensor_partition.cpp:78-98 | pulls never refresh an age |
| `SliceLayout.SliceMeta.ComputeSliceInfo` | cpp/metaspore/sparse_tensor_meta.cpp:62-71 | data, state, then the age at the next multiple of its size, which ends the slice; all products and sums modulo 2^64, and the slice has room for all items and the age exactly when the unbounded sum ends below 2^64 |
| `SliceLayout.AgeSizeIsLeast` | cpp/metaspore/sparse_tensor_meta.cpp:67-67 | the size of an age is the least that both the item size and the 4 bytes of an `int` divide |
| `SliceLayout.MaskIsRoundDown` | cpp/metaspore/sparse_tensor_meta.cpp:68-69 | the mask expression is the last multiple, for every 64-bit sum |
| `SliceLayout.RoundUpWraps` | cpp/metaspore/sparse_tensor_meta.cpp:66-69 | rounding up with wrapping sums is rounding up, then wrapping |
| `SliceLayout.SoundIffFits` | cpp/metaspore/sparse_tensor_meta.cpp:62-71 | the layout computed modulo 2^64 is sound and has room for every item exactly when the unbounded byte counts and the age end below 2^64 |
| `SliceLayout.ItemsCanVanish` | cpp/metaspore/sparse_tensor_meta.cpp:64-65 | 2^61 items of 8 bytes have length 0, and do not meet that condition |
| `SliceLayout.RegionsApart` | cpp/metaspore/sparse_tensor_meta.cpp:62-71 | no two parts of any slots of the value array share a byte |
| `SliceLayout.RegionsAligned` | cpp/metaspore/sparse_tensor_meta.cpp:62-71 | every part of every slot is aligned to what is read there |
| `DensePartitions.RangeIs` | cpp/metaspore/dense_tensor_meta.cpp:120-129 | the `size_t` arithmetic gives consecutive ranges without overflow |
| `DensePartitions.RangesBalanced` | cpp/metaspore/dense_tensor_meta.cpp:120-129 | ranges stay inside the tensor and differ by at most one row |
| `DensePartitions.SharesOutIff` | cpp/metaspore/dense_tensor_meta.cpp:120-125 | the index map is a bijection exactly when `hash + n <= 2^64` or n divides 2^64 |
| `DensePartitions.HashCanCollide` | cpp/metaspore/dense_tensor_meta.cpp:120-125 | a hash for which two of three partitions take the same rows |
| `DensePartitions.HolderOf` | cpp/metaspore/dense_tensor_meta.cpp:117-139 | with such a hash every row is held by exactly one partition |
| `DensePartitions.TiledIff` | cpp/metaspore/dense_tensor_meta.cpp:117-139 | every row has exactly one partition exactly when the hash fits or `m + (2^64 - hash) <= 2^64 mod n`, for m rows over n partitions with m > 0 and m + n at most 2^64 |
| `DensePartitions.TiledIffTaken` | cpp/metaspore/dense_tensor_meta.cpp:117-139 | the rows are tiled exactly when every range that has a row is taken by one partition |
| `DensePartitions.CollidingHashCanTile` | cpp/metaspore/dense_tensor_meta.cpp:120-125 | 3 rows over 6 partitions are tiled by a hash that permutes nothing |
| `DensePartitions.EndTakenIff` | cpp/metaspore/dense_tensor_meta.cpp:117-139 | some range ends with the last row exactly when the hash fits, or `2^64 mod n < 2^64 - hash`, or m is at most one of `2^64 mod n` and `n - (2^64 - hash)` |
| `DensePartitions.SliceElements` | cpp/metaspore/tensor_utils.cpp:27-34 | items of a row, modulo 2^64 |
| `DensePartitions.TotalElements` | cpp/metaspore/tensor_utils.cpp:36-43 | items of a tensor, modulo 2^64 |
| `DensePartitions.ItemsAreRows` | cpp/metaspore/tensor_utils.cpp:27-43 | a tensor is its rows, and so is a partition that keeps the other dimensions |
| `DenseTensors.CopyFrom` | cpp/metaspore/smart_array.h:113-127 | overwrites the whole array, or fails and changes nothing when the lengths differ |
| `DenseTensors.DenseTensorPartition.AllocateDataBlock` | cpp/metaspore/dense_tensor_partition.cpp:26-49 | blocks of the partition's sizes modulo 2^64, whatever shape and hash: zeros, the data through the initializer when asked; throws and changes nothing exactly when the check of the meta fails |
| `DenseTensors.DenseTensorPartition.HandlePush` | cpp/metaspore/dense_tensor_partition.cpp:51-59 | value and state pushes replace their block, each keeping the other; gradients go through the updater; a length mismatch throws and changes nothing |
| `DenseTensors.DenseTensorPartition.HandlePull` | cpp/metaspore/dense_tensor_partition.cpp:61-63 | the block asked for |
| `DenseTensors.ByteBounds` | cpp/metaspore/dense_tensor.cpp:68-72 | the client's wrapping byte arithmetic gives the partition's byte range modulo 2^64, and the range itself when the tensor fits the address space |
| `DenseTensors.PushSlices` | cpp/metaspore/dense_tensor.cpp:47-79 | each server is sent exactly its bytes; the call throws exactly when a range ends beyond the input, which for a tiled tensor means an input shorter than the tensor |
| `DenseTensors.PartOfPrefix` | cpp/metaspore/dense_tensor.cpp:68-72 | bytes behind the tensor's own are never sent |
| `DenseTensors.Assemble` | cpp/metaspore/dense_tensor.cpp:81-115 | every server's block lands in its place, for every arrival order |
| `DenseTensors.PartsDetermine` | cpp/metaspore/dense_tensor.cpp:81-115 | buffers that agree on every partition are equal |
| `DenseTensors.PushSplits` | cpp/metaspore/dense_tensor.cpp:47-79 | a push does to every server's block what it does to the whole, and the server's `CopyFrom` never fails |
| `DenseTensors.BlocksRefineWhole` | cpp/metaspore/dense_tensor_partition.cpp:51-63 | when the hash gives the last row to some partition, in every run of value, state and gradient pushes, as the client sends or refuses them, the servers hold the parts of one tensor |
| `DenseTensors.RefinesIff` | cpp/metaspore/dense_tensor.cpp:47-79 | they do in all runs exactly when the hash gives the last row to some partition, or there are no bytes |
| `DenseTensors.ShortPushSlips` | cpp/metaspore/dense_tensor.cpp:68-74 | otherwise a push one byte too short for the tensor reaches the servers and changes a block |
| `DenseTensors.PullReturnsWhole` | cpp/metaspore/dense_tensor.cpp:81-115 | for a tiling hash, a pull after any such run returns that tensor's bytes |
| `DenseTensors.LastPushIsPulled` | cpp/metaspore/dense_tensor.cpp:47-115 | for a tiling hash, the input of the last value (state) push is what a pull returns; pushes of the other kind do not disturb it |
| `NodeEncoding.ShiftOrIsSum` | cpp/metaspore/node_encoding.h:43-49 | the shift-and-or encoding is a sum and decodes to the rank |
| `NodeEncoding.MaskIsDigit` | cpp/metaspore/node_encoding.h:29-31 | testing a group bit |
| `NodeEncoding.NodeIdsAre` | cpp/metaspore/node_encoding.h:43-49 | ids are 9 for the coordinator, 10, 26, ... for servers, 12, 28, ... for workers |
| `NodeEncoding.GroupsAre` | cpp/metaspore/node_encoding.h:29-31 | which of the masks 1 to 7 each role belongs to |
| `NodeEncoding.NodeIdDecodes` | cpp/metaspore/node_encoding.h:43-49 | no two nodes share an id, and the rank is read back |
| `NodeManagers.NodeManager.InitNodeIds` | cpp/metaspore/node_manager.cpp:30-47 | the table holds, for every mask and id, exactly the nodes that belong to it |
| `NodeManagers.NodeManager.Barrier` | cpp/metaspore/node_manager.cpp:63-97 | which calls throw, return at once or wait; a waiting call has lowered the flag and sent the coordinator one request, any other sends none |
| `NodeManagers.NodeManager.NotifyBarrierDone` | cpp/metaspore/node_manager.cpp:99-108 | only a barrier message that is no request raises the flag |
| `NodeManagers.WaitsIffMember` | cpp/metaspore/node_manager.cpp:63-76 | a node waits exactly on the masks of several nodes that list it |
| `NodeManagers.NodeIdsDistinct` | cpp/metaspore/node_manager.cpp:30-47 | no group lists a node twice |
| `Barriers.BarrierCounter.HandleBarrierMessage` | cpp/metaspore/actor_process.cpp:205-242 | counts the request; when the count reaches the group's size it is reset and every member is sent a done message; unknown groups throw |
| `Barriers.StepKeeps` | cpp/metaspore/actor_process.cpp:205-242 | every step keeps: each waiting node is in exactly one of request in flight, counted, done in flight or flag up; each counter is the number of counted nodes and below the group's size |
| `Barriers.AllArrived` | cpp/metaspore/actor_process.cpp:210-219 | when a count reaches the group's size, every member's request of this round has arrived |
| `Barriers.NobodyLeavesEarly` | cpp/metaspore/node_manager.cpp:63-97 | in every run, a node leaving its k-th barrier on a group means every member has entered its k-th, whatever groups overlap |
| `Barriers.NeverStuck` | cpp/metaspore/actor_process.cpp:210-239 | when all members of a group wait, a message of theirs is in flight or one of them can leave |
| `Barriers.DeliveryEnds` | cpp/metaspore/actor_process.cpp:205-242 | deliveries, wake-ups and departures cannot go on for ever |
| `Barriers.QuietMeansServed` | cpp/metaspore/actor_process.cpp:205-242 | once none of these is possible, no group has all its members waiting |
| `RequestTracker.WireKeeps` | cpp/metaspore/message_meta.h:33-34 | an id survives the wire exactly when it is below 2^31 |
| `RequestTracker.PSAgent.SendRequest` | cpp/metaspore/ps_agent.cpp:54-77 | throws unless the receiver names one node; otherwise a fresh id is tracked and one request sent |
| `RequestTracker.PSAgent.SendAllRequests` | cpp/metaspore/ps_agent.cpp:103-130 | checks every receiver before anything is sent; one request per target under one fresh id, each with its own target's receiver and body |
| `RequestTracker.PSAgent.BroadcastRequest` | cpp/metaspore/ps_agent.cpp:157-184 | one request with the body to each member of the group, in its order, under one fresh id; an empty group throws |
| `RequestTracker.PSAgent.HandleResponse` | cpp/metaspore/ps_agent.cpp:246-253 | records a response under its id; throws exactly when the id is not tracked |
| `RequestTracker.PSAgent.Finish` | cpp/metaspore/ps_agent.cpp:131-154 | the id is forgotten; the callback gets all responses unless some are exceptions, the first of which is thrown |
| `RequestTracker.StepKeeps` | cpp/metaspore/ps_agent.cpp:54-254 | every step keeps: each request of a call is in flight, being answered, or answered, never lost, doubled or mixed up |
| `RequestTracker.LookupHits` | cpp/metaspore/ps_agent.cpp:246-253 | the response that arrives finds its call in the tracker |
| `RequestTracker.CompleteHasNonePending` | cpp/metaspore/ps_agent.cpp:78-81 | the wait ends exactly when nothing of the call is in flight |
| `RequestTracker.CallsGetTheirAnswers` | cpp/metaspore/ps_agent.cpp:54-208 | in every run over any number of processes and calls, a completed call has one response for each request it sent and none of another call, each made by its receiver with the outcome and body it replied, and no lookup has missed, as long as ids stay below 2^31 |
| `RequestTracker.ResponsesMade` | cpp/metaspore/ps_agent.cpp:210-244 | every response under way or recorded was made for its request, addressed to the requester, with the handler's outcome and body |
| `RequestTracker.WireWraps` | cpp/metaspore/message_meta.h:33-34 | any id becomes the signed 32-bit number with the same low bits |
| `RequestTracker.BeginKeepsIff` | cpp/metaspore/ps_agent.cpp:54-77 | beginning a call keeps conservation exactly when its id is below 2^31 or it sends nothing |
| `RequestTracker.LongIdGoesAstray` | cpp/metaspore/message_meta.h:33-34 | a call with any longer id never gets its reply: the lookup misses, or another call's entry gets it |
| `RankAssignment.AddressInjective` | cpp/metaspore/node_info.h:45-45 | the address string determines host and port |
| `RankAssignment.OrOfComparison` | cpp/metaspore/actor_process.cpp:298-302 | what the comparator's bitwise or computes |
| `RankAssignment.BeforeIsTotalOrder` | cpp/metaspore/actor_process.cpp:298-302 | the comparator is a strict total order on distinct addresses |
| `RankAssignment.CompareIsLexical` | cpp/metaspore/actor_process.cpp:298-302 | the host comparison is the lexical order of the characters |
| `RankAssignment.BeforeIs` | cpp/metaspore/actor_process.cpp:298-302 | a node comes first when its host is lexically later, or the host is the same and its port smaller |
| `RankAssignment.SortIsUnique` | cpp/metaspore/actor_process.cpp:298-302 | any two sorted lists of the same nodes are equal, so any sorting algorithm gives the modelled one |
| `RankAssignment.CoordinatorProcess.HandleAddNodeMessage` | cpp/metaspore/actor_process.cpp:250-349 | when an AddNode message throws, the whole state it leaves either way (the coordinator keeps its own entry), and the exact list of nodes told: those of the group with a socket of their own |
| `RankAssignment.CoordinatorProcess.AssignIds` | cpp/metaspore/actor_process.cpp:303-334 | the loop over the sorted list hands out ids and shares sockets as the table function says, and throws at the first new address that already has an id, with the nodes before it ranked |
| `RankAssignment.EveryoneIsTold` | cpp/metaspore/actor_process.cpp:339-346 | with no shared sockets every member of the group is told |
| `RankAssignment.AssignedRanks` | cpp/metaspore/actor_process.cpp:303-334 | with distinct addresses node i gets its role's id with the number of earlier nodes of the role as rank, and no socket is shared |
| `RankAssignment.RanksAreTheGroup` | cpp/metaspore/node_encoding.h:43-49 | the ids handed out are distinct, decode to the ranks, and are exactly the ids the server-and-worker group lists |
| `RankAssignment.JoinAssigns` | cpp/metaspore/actor_process.cpp:293-349 | a complete join ends ready, with the sorted and ranked list and the right counts |
| `RankAssignment.FinalOrder` | cpp/metaspore/actor_process.cpp:297-335 | which node gets which rank: lexically last host first, ports ascending, ids 10, 26, ... for servers and 12, 28, ... for workers by the number of nodes of the role before; the coordinator last |
| `RankAssignment.SameAddressSameId` | cpp/metaspore/actor_process.cpp:306-329 | nodes that announce the same address get the first one's id |
| `RankAssignment.SharesSocket` | cpp/metaspore/actor_process.cpp:322-329 | the id a later node of an address would have had is noted as sharing the first one's socket |
| `RankAssignment.ToldIff` | cpp/metaspore/actor_process.cpp:339-346 | exactly the members with a socket of their own are told |
| `RankAssignment.JoinOrderIsIrrelevant` | cpp/metaspore/actor_process.cpp:293-349 | every arrival order of the same nodes ends with the same list |
| `RankAssignment.FinalIds` | cpp/metaspore/node_manager.cpp:30-41 | the final ids are pairwise distinct and exactly those of the group table |
| `RankAssignment.UpdateLocalId` | cpp/metaspore/actor_process.cpp:284-291 | a node without an id takes over its entry of the announced list |
| `RankAssignment.IdKept` | cpp/metaspore/actor_process.cpp:283-290 | a node that has an id, as the coordinator has, keeps its entry whatever is announced |
| `RankAssignment.LearnsOwnEntry` | cpp/metaspore/actor_process.cpp:284-291 | with distinct addresses that entry is its own |
| `HashCombine.CombineFromZero` | cpp/common/hash_utils.h:44-46 | a first code of zero leaves the second one plus the constant |
| `HashCombine.CombineAdds` | cpp/common/hash_utils.h:44-46 | undoing the exclusive or with the code so far leaves the new code plus a term of the code so far alone |
| `HashCombine.KnownTupleCodes` | cpp/common/hash_utils.h:44-130 | the codes of (1, 2) and (1, 2, 3) |
| `HashCombine.TupleAt` | cpp/common/hash_utils.h:98-124 | which tuple stands at which place: the last list is walked through for each tuple of the others |
| `HashCombine.BKDRStep` | cpp/common/hash_utils.h:26-30 | one more character multiplies by 128 + 2 + 1 and adds the widened byte |
| `HashCombine.SignExtends` | cpp/common/hash_utils.h:26-30 | widening a `char` repeats its sign bit |
| `HashCombine.KnownStringCodes` | cpp/common/hash_utils.h:26-30 | the codes of a two-character string and of a negative byte |
| `HashCombine.BKDRHash` | cpp/common/hash_utils.h:26-30 | the loop over signed characters, modulo 2^64 |
| `HashCombine.BKDRSplits` | cpp/common/hash_utils.h:26-42 | hashing in parts is hashing the whole: a code can seed the rest |
| `HashCombine.ForwardProducts` | cpp/common/hash_utils.h:91-93 | the number of blocks of each list |
| `HashCombine.BackwardProducts` | cpp/common/hash_utils.h:94-96 | how long one element of each list lasts |
| `HashCombine.SweepList` | cpp/common/hash_utils.h:98-124 | one list's three nested loops turn the stretched codes so far into the stretched codes with this list, every write in bounds |
| `HashCombine.CombineOneFeature` | cpp/common/hash_utils.h:67-130 | every path appends exactly the left fold of every tuple of the Cartesian product, in row-major order |
| `HashCombine.CodesAreFolds` | cpp/common/hash_utils.h:44-54 | combining list by list is folding tuple by tuple |
| `HashCombine.EmptyListEmptiesAll` | cpp/common/hash_utils.h:67-130 | an empty list leaves nothing to append |
| `LineReaders.LineReader.DetectBinaryMode` | cpp/metaspore/array_hash_map_reader.h:38-46 | binary exactly when a whole header was read and its signature is valid; the header is consumed then, and otherwise kept for the text |
| `LineReaders.LineReader.FillBuffer` | cpp/metaspore/array_hash_map_reader.h:70-82 | takes the next chunk and, at the end, terminates the last line, changing no line; the stream gets shorter or ends |
| `LineReaders.LineReader.DrainBuffer` | cpp/metaspore/array_hash_map_reader.h:50-59 | hands on the complete lines of the buffer in order and keeps the rest |
| `LineReaders.LineReader.Read` | cpp/metaspore/array_hash_map_reader.h:48-61 | the lines handed on are those of the input, in order, numbered from 1, however the stream cuts it, up to the first that is rejected; and the loop ends |
| `LineReaders.ReadTextFile` | cpp/metaspore/sparse_tensor.cpp:429-468 | a stream that comes back short only at its end is taken for binary exactly when it starts with a valid header; any other file is read as text from its first character on |
| `LineReaders.SignatureIs` | cpp/common/hashmap/map_file_header.cpp:25-36 | a header is valid exactly when it begins with the 32 signature bytes |
| `LineReaders.LineFeedEnds` | cpp/metaspore/array_hash_map_reader.h:50-59 | a line feed ends a line and belongs to none |
| `LineReaders.LinesTerminated` | cpp/metaspore/array_hash_map_reader.h:76-78 | terminating an unterminated last line changes no line |
| `TextFormat.SplitStringView` | cpp/metaspore/string_utils.h:53-62 | the non-empty runs between characters of any delimiter set |
| `TextFormat.FieldsAppend` | cpp/metaspore/string_utils.h:53-62 | splitting works piece by piece at any delimiter |
| `TextFormat.RangesAre` | cpp/metaspore/array_hash_map_reader.h:119-125 | the ranges of the integer types |
| `TextFormat.ParsesNumeral` | cpp/metaspore/array_hash_map_reader.h:196-240 | how a number is read: spaces and a sign before the digits, nothing after them; out of range fails, a negated unsigned number wraps |
| `TextFormat.ParsesNothing` | cpp/metaspore/array_hash_map_reader.h:196-240 | without a digit at its place nothing is read |
| `Decimals.DecimalIs` | cpp/metaspore/array_hash_map_writer.h:88-91 | numerals digit by digit |
| `TextFormat.LineIs` | cpp/metaspore/array_hash_map_writer.h:59-85 | a line is key, tab, data, bar, state, bar, age, with commas in the lists |
| `TextFormat.NumberRoundTrip` | cpp/metaspore/array_hash_map_writer.h:88-91 | a number of a 32- or 64-bit type written in decimal is extracted again |
| `TextFormat.ParseDataOrStateValues` | cpp/metaspore/array_hash_map_reader.h:196-240 | the right number of values, each in range, or failure |
| `TextFormat.ValuesRoundTrip` | cpp/metaspore/array_hash_map_reader.h:196-240 | a written value list is read back |
| `TextFormat.WriteEntry` | cpp/metaspore/array_hash_map_writer.h:59-85 | the line of one key: key, data, state, age |
| `TextFormat.LineRoundTrip` | cpp/metaspore/array_hash_map_reader.h:159-200 | a written line is read back as the same key, data, state and age exactly when the tensor has data and state items; otherwise reading throws |
| `TextFormat.WriteData` | cpp/metaspore/array_hash_map_writer.h:58-86 | the lines of all entries, in the order of the dense arrays |
| `TextFormat.FileLines` | cpp/metaspore/array_hash_map_writer.h:58-86 | the written file has one line per key, in order |
| `TextFormat.TextIsNotBinary` | cpp/common/hashmap/map_file_header.cpp:25-35 | a written text never begins with the signature of a binary map |
| `TextFormat.Load` | cpp/metaspore/array_hash_map_reader.h:48-101 | reads a stream to the end or the first line that throws, and inserts what each line holds, in order |
| `TextFormat.WriteAndLoad` | cpp/metaspore/array_hash_map_writer.h:58-86 | written and read back through a stream of any pieces, the map is the same, exactly when it is empty or the tensor has data and state items; otherwise the reading throws |
| `TextFormat.FileRoundTrip` | cpp/metaspore/array_hash_map_reader.h:84-101 | every line of a written file is accepted, and the lines hold the map |
| `S3Streams.S3ReadStream.ActualRead` | cpp/metaspore/s3_sdk_filesys.cpp:411-442 | one range request, clipped at the end |
| `S3Streams.S3ReadStream.FillBuffer` | cpp/metaspore/s3_sdk_filesys.cpp:479-485 | prefetches from where the object was read so far; empty exactly at the end |
| `S3Streams.S3ReadStream.Read` | cpp/metaspore/s3_sdk_filesys.cpp:185-218 | the bytes at the logical position, as many as asked for or all that are left, through any number of refills |
| `S3Streams.S3ReadStream.Seek` | cpp/metaspore/s3_sdk_filesys.cpp:444-453 | moves the logical position, or throws and moves nothing beyond the end |
| `S3Streams.S3ReadStream.Tell` | cpp/metaspore/s3_sdk_filesys.cpp:455-459 | the logical position |
| `S3Streams.Replay` | cpp/metaspore/s3_sdk_filesys.cpp:400-459 | every sequence of reads and seeks is answered as a plain cursor on the object answers it |
| `S3Streams.WriteBuffer.Write` | cpp/metaspore/s3_sdk_filesys.cpp:250-257 | nothing handed over is lost; parts are numbered in order and large enough |
| `S3Streams.WriteBuffer.Close` | cpp/metaspore/s3_sdk_filesys.cpp:298-328 | the stored object is the concatenation of all writes, none when that is empty; parts are 1..k and all but the last have the least size |
| `S3Streams.JoinedAppend` | cpp/metaspore/s3_sdk_filesys.cpp:298-328 | parts put together are their data one after the other |
| `S3Streams.WriteBlocks` | cpp/metaspore/sparse_tensor_partition.cpp:283-298 | splitting a large write into blocks writes the same bytes, and keeps every part below twice the buffer |
| `MetricBuffers.UpdateBuffer` | cpp/metaspore/model_metric_buffer.cpp:21-42 | every bucket gains exactly the label weight of the instances predicted into it; one instance changes the one bucket b with `b <= pred * (n - 1) < b + 1` |
| `MetricBuffers.BucketIs` | cpp/metaspore/model_metric_buffer.cpp:34-34 | a prediction falls into bucket b exactly when it lies from b to b + 1 parts in n - 1 |
| `MetricBuffers.InstanceCounts` | cpp/metaspore/model_metric_buffer.cpp:31-41 | what one more instance adds: a positive label itself, a negative one its size, a zero label one |
| `MetricBuffers.UpdateConservesWeight` | cpp/metaspore/model_metric_buffer.cpp:31-41 | the sums of the buffers grow by the total label weight |
| `MetricBuffers.ComputeAUC` | cpp/metaspore/model_metric_buffer.cpp:44-68 | the one-pass accumulator computes the reference sum; without positives the result is 0, or 1 when there is no instance at all, and without negatives 1 |
| `MetricBuffers.AucIsPairwise` | cpp/metaspore/model_metric_buffer.cpp:54-67 | the result is the pairwise definition: pairs ranked right plus half the ties, over all pairs |
| `MetricBuffers.AucInUnitInterval` | cpp/metaspore/model_metric_buffer.cpp:44-68 | the result is between 0 and 1 |
| `MetricBuffers.SwapMirrors` | cpp/metaspore/model_metric_buffer.cpp:61-67 | swapping the buffers gives one minus the result exactly when there is an instance |

## Left out

- ArrayHashMaps.ArrayHashMap.GetOrInit: `get_power_bucket_count` is modelled as the least power of two, not by its bit tricks; the four raw buffers are sequences, so uninitialised memory shows only as an arbitrary new value.
- SparsePartition.SparseTensorPartition.HandlePush: the data that an updater batch leaves under a key it names twice, since what the callback makes of that is its own affair; ages do not wrap at 2^31.
- SparsePartition.SparseTensorPartition.HandlePull: output buffers are grown by appending instead of filled through a moving pointer; the same holds for the client's gather and the stream reads.
- SparseSharding.ShardsRefineOneMap: one client call after another; concurrent calls are covered key by key (`ServerRefinesOneMap`, `ConcurrentPull`), since the code gives no one order for all servers.
- DenseTensors.DenseTensorPartition.HandlePull: returns a copy; that a zero-copy message shares the server's memory until it is sent is not modelled.
- TextFormat.LineRoundTrip: 8-bit types (extraction reads a character) and floats (the printed digits lose precision) are not part of it, nor are `data_only` reading and hashed keys.
- HashCombine.CombineOneFeature: products are unbounded numbers; with an empty list some of the code's products may wrap, and no cell is written then.
- MetricBuffers.UpdateBuffer: the product of prediction and bucket count is exact, not rounded to a float.
- DenseTensors.DenseTensorPartition.AllocateDataBlock: an allocation that fails for lack of memory.
- S3Streams.WriteBuffer.Close: the store's limit on the number of parts, retries and failed uploads.
- Partition pull: cpp/metaspore/sparse_tensor_partition.cpp:180 reads keys from an empty vector, so it answers nothing that could be specified.
- Reading and writing the binary map form, and memory-mapped maps.
- Pushing and pulling metas, and whether a saved meta is compatible; loading and saving dense tensors.
- Recovery and heartbeats (the recovery list is never filled), dropped messages and timeouts.
- Several nodes at one address: the shared-socket branch of `AssignIds` and who is told are modelled, the sends over such a socket are not.
- Sockets, Thrift, JSON, the object store's interface and the Python callbacks: messages are values and callbacks are functions.
- Key uniquifying, the feature executor, serving, Python and Spark orchestration.
- Wording of error messages, logging and stack traces; only the conditions for throwing are kept.
