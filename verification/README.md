# Verified model of an n-ary Merkle tree library

The repository keeps an n-ary Merkle tree as one flat array, rows from the leaves to the root. Building,
storing, caching and proving are index arithmetic over that array. This project models that arithmetic
and the loops around it, and proves that the fast and the compacted forms agree with one short recursive
definition of a tree.

The reference is in `Rows.dfy`: `Row` (one row hashed from the row below), `Flat` (rows joined) and
`TreeHash` (the recursive hash of a group of leaves). Everything else is measured against it.

| file | what it holds |
|---|---|
| `Powers.dfy`, `Sequences.dfy`, `Outcome.dfy` | powers, geometric sums, shifts, quotients; joined and sliced sequences; results with rejection (`ensure!`) and panic |
| `Shape.dfy` | lengths, leaf counts, row counts, cache sizes |
| `Rows.dfy`, `Layers.dfy`, `Segments.dfy` | the reference tree, its rows as the build loops meet them, its segments |
| `Chunks.dfy` | `process_layer` as threads that read and write chunks under any scheduler |
| `VecStore.dfy`, `DiskStore.dfy`, `LevelCacheStore.dfy` | the three stores as classes: build, compaction, truncation, address translation |
| `Proofs.dfy`, `Paths.dfy` | proofs, validation loops, the proof a tree owes for each leaf |
| `Soundness.dfy`, `Hashing.dfy` | what an accepted proof says, on node lists and on bytes |
| `Rfc6962.dfy` | tree heads and audit paths of sections 2.1 and 2.1.1 of RFC 6962 |
| `Generation.dfy` | base proofs from full and from cached stores |
| `Merkle.dfy`, `Compound.dfy` | trees of one, two and three layers, their proofs, completeness and soundness |
| `Populate.dfy`, `PopulateDisk.dfy`, `Caching.dfy` | whole routes: items to tree; tree to compacted file to reopened cache to proof |
| `Digest.dfy` | the streaming digest context and its padding |

Modelling decisions: elements are an abstract type and a file is a sequence of elements (byte offsets are
element offsets times a constant); `usize` is `nat`; the node hash is an arbitrary function of a node list
and a height; soundness never assumes injectivity but exhibits the colliding inputs, one hashed by the
validator and one hashed by the builder; a thread of a parallel loop takes one read step and one write
step, and any thread may move next. A store handed to a proof generator is given by what `read_at` answers
for each index.

Places where the code does something other than one would expect, each stated exactly:

* Base validation passes `i - 1`, an index into the lemma, where the build passes the row number. The
  proofs of a base tree validate for every hash exactly when the arity is 2 or the tree has at most one
  row above its leaves (`Paths.SafeForEveryHash`); the default hash ignores the height.
* Compound layers are hashed at height 1 when built and at height 0 when validated
  (`Compound.LayerValidates`, `Compound.OwedProofVerdict`). With a hash that shows its height no proof of a
  compound tree validates, whatever the arities (`Compound.HeightAwareLayers`).
* `from_trees` does not look at the top arity of the type, and validation takes it, if there is one, for the
  arity of the layer. With a hash that ignores the height the proofs of a compound tree validate exactly when
  the arity so taken is the number of its children and there is a sub-tree arity, collisions apart
  (`Merkle.FromTreesOk`, `Compound.OwedProofValidates`, `Compound.UnmatchedIsRejected`): a smaller top arity
  cuts the node list short, a larger one by one takes in the root, a larger one still panics.
* `get_merkle_tree_leafs` accepts, for arity 2, every length one short of a valid one
  (`Shape.BinaryLeafsAcceptsTooMuch`, `Shape.GetMerkleTreeLeafs`).
* The bounds check of a level cache uses `<=`, so index `data_width` gets through; without a reader it is
  answered with the first cached node (`LevelCacheStores.CacheReadsDiscarded`). A request for a cached
  proof that takes fewer rows as discarded than the store has lost fails, and so does `gen_proof`, but for
  two leaves of a binary tree that lost one row: they get a proof with that wrong node in it, which is
  accepted only if the node equals the right one or hashes collide (`Caching.ProveFromCache`,
  `Caching.ProveWithoutPartial`, `Caching.MisreadIsRejected`).
* A cache that lost more rows than the default for its arity gives no cached proof, whatever is asked for:
  the request is capped at the default (`Caching.ProveFromCache`).
* `compact` keeps the end of the file, not of the tree: in a file longer than the tree the cache can come out
  wrong (`DiskStores.KeptEndIsRight`). A binary store one short of a valid length, compacted to version 1
  without discarding a row, makes the copy run into its own writes (`DiskStores.DiskStore.Compact`,
  `DiskStores.CopyOverruns`).
* `build_small_tree` accepts leaf counts that are no power of the arity if the row count matches
  (`VecStores.VecStore.BuildSmallTree`). With more than b and fewer than 2b leaves the root is then the
  hash of the last, incomplete group alone (`Layers.RaggedRoot`).
* A directly built cache without its reader answers the lowest indices with cached nodes and refuses the
  rest, the root included (`LevelCacheStores.UnreadReads`, `Caching.UnreadIsRefused`).
* `from_sub_trees` makes a top layer over base trees for a type without a sub-tree arity. It generates proofs,
  and validating them panics (`Merkle.FromSubTreesOverBase`, `Compound.TopOverBasePanics`).
* The comment on `gen_cached_proof` says that a number of rows to discard is used even if it may cause an
  error; the code caps it at the default (src/merkle.rs:1126-1133). The model follows the code.

## Model

| member | source | states |
|---|---|---|
| Shape.GetMerkleTreeLen | src/merkle.rs:1814-1841 | accepts exactly the power-of-two arities with enough leaves; the length is the sum of the successive quotients, the binary shortcut included |
| Shape.DivSumPerfect | src/merkle.rs:1814-1841 | for a power of the arity that sum is the geometric sum of the rows |
| Shape.DivSumBinary | src/merkle.rs:1821-1825 | the binary shortcut 2n - 1 agrees with the general loop on powers of two |
| Shape.RowCountMatchesLevels | src/merkle.rs:1893-1900 | the row count agrees with the number of turns of the build loop exactly on powers of the arity |
| Shape.RowCountPerfect | src/merkle.rs:1893-1900 | a tree of b^h leaves has h + 1 rows |
| Shape.IsMerkleTreeSizeValid | src/merkle.rs:1875-1890 | true exactly for powers of a power-of-two arity |
| Shape.GetMerkleTreeCacheSize | src/merkle.rs:1845-1873 | succeeds exactly when a row is left to cache; the size is that of the tree over the first cached row |
| Shape.CacheRowsPerfect | src/merkle.rs:1845-1873 | on a perfect tree it is the geometric sum of the top h - d rows |
| Shape.GetMerkleTreeLeafs | src/merkle.rs:1911-1948 | inverts the length; for arity 4 and up it accepts exactly the geometric sums, for arity 2 also the lengths one short |
| Shape.LenDeterminesLeafs | src/merkle.rs:1911-1948 | a length belongs to only one power of the arity |
| Shape.BinaryLeafs | src/merkle.rs:1919-1920 | what the binary shortcut accepts and returns, both directions |
| Shape.BinaryLeafsAcceptsTooMuch | src/merkle.rs:1919-1920 | length 14 is accepted although no binary tree has it |
| Shape.DefaultRowsAre | src/store/mod.rs:150-173 | on a tree of h + 1 rows the default is the smaller of h - 1 and 7 for arity 2, 5 for arity 4, 2 for any other |
| Shape.BuildableArities | src/store/mod.rs:321-324 | the chunk size check leaves the arities up to 4096, for small trees and in memory as well |
| Shape.CacheShape | src/store/disk.rs:237-255 | the leaves and the cache size that compaction and the cache constructors compute from a length, for every length that is accepted, one short included |
| Rows.RowIsTreeHash | src/store/mod.rs:260-421 | node k of row l is the recursive hash of the k-th aligned group of b^l leaves |
| Rows.RootIsTreeHash | src/store/mod.rs:419-420 | the last node of the flat tree is the recursive hash of all leaves |
| Rows.FlatAt | src/store/mod.rs:260-421 | where node k of row l is in the flat array |
| Rows.SegmentRows | src/merkle.rs:1297-1304 | rows of the tree over an aligned segment are aligned parts of the rows of the whole tree |
| Chunks.StepInv | src/store/mod.rs:308-365 | every read or write step of every thread keeps the invariant of the layer |
| Chunks.AnySchedule | src/store/mod.rs:308-365 | under every interleaving no thread fails, earlier rows never change, and the finished store is the sequential result |
| Chunks.RunJob | src/store/mod.rs:308-365 | an arbitrary scheduler ends with that result; success implies that the row was made of whole groups |
| Chunks.ZipLosesNothing | src/store/disk.rs:356-362 | zipping read chunks with the longer list of write chunks drops no read chunk, and each write chunk is long enough |
| VecStores.VecStore.WriteAt | src/store/vec.rs:28-35 | overwriting, after growth with default elements |
| VecStores.VecStore.CopyFromSlice | src/store/vec.rs:42-59 | the same for a slice |
| VecStores.VecStore.BuildSmallTree | src/store/mod.rs:260-305 | exactly when it succeeds, and the whole contents after it, incomplete groups included; the root is the last of them |
| VecStores.VecStore.ProcessLayer | src/store/mod.rs:308-365 | succeeds exactly on whole groups with an arity that divides the chunk size; the next row is the hash of the row |
| VecStores.VecStore.Build | src/store/mod.rs:368-421 | exactly when it succeeds and the contents; on powers of the arity the flat tree and its recursive hash; with the row count that callers compute it succeeds exactly on powers of the arity |
| Layers.GrownPerfect | src/store/mod.rs:260-305 | on a power of the arity those contents are the flat tree |
| Layers.RaggedRoot | src/store/mod.rs:273-305 | with more than b and fewer than 2b leaves the root is the hash of the last group alone |
| DiskStores.CopyForward | src/store/disk.rs:264-281 | an overlapping forward copy in blocks of any size never overwrites what it has still to read |
| DiskStores.DiskStore.CopyFromSlice | src/store/disk.rs:160-170 | succeeds exactly inside the file; contents and length after |
| DiskStores.DiskStore.ProcessLayer | src/store/disk.rs:337-396 | the memory-mapped layer: same hashed row, exact condition for success |
| DiskStores.DiskStore.Build | src/store/disk.rs:398-458 | exactly when it succeeds; same flat tree, length and root as the default build, the rest of the file untouched |
| DiskStores.DiskStore.Compact | src/store/disk.rs:231-308 | for every store: when it succeeds, and the file after it, which is the base row (version 1 only) and as many elements of the end of the file as the cache has |
| DiskStores.CopyOverruns | src/store/disk.rs:257-281 | the one case in which the copy runs into its own writes |
| DiskStores.KeptEndIsRight | src/store/disk.rs:260-281 | the kept end of the file is that of the tree, whatever else the file holds, exactly when the file is as long as the tree |
| LevelCacheStores.LevelCacheStore.NewWithConfig | src/store/level_cache.rs:140-184 | exactly for which sizes a new cache can be laid out, the binary ones one short included, and its fields |
| LevelCacheStores.LevelCacheStore.NewFromSlice | src/store/level_cache.rs:204-228 | the same with the base row in place |
| LevelCacheStores.LevelCacheStore.NewFromDisk | src/store/level_cache.rs:245-297 | reopening a file in either version: exactly for which lengths, the file itself unchecked |
| LevelCacheStores.LevelCacheStore.NewFromDiskWithReader | src/store/level_cache.rs:75-130 | the same with a reader: also exactly if the file has the size of the cache |
| LevelCacheStores.LevelCacheStore.FrontTruncate | src/store/level_cache.rs:579-607 | drops exactly the first n elements, in place |
| LevelCacheStores.LevelCacheStore.ProcessLayer | src/store/level_cache.rs:426-485 | exactly when every chunk passes the bounds checks and the row is hashed right behind itself, and into what |
| LevelCacheStores.LevelCacheStore.BuildRow | src/store/level_cache.rs:525-541 | one turn, exactly when it succeeds: hash the row, then drop it if it is not kept |
| LevelCacheStores.LoopNext | src/store/level_cache.rs:520-551 | a turn leads from the file of one row to the file of the next, what was behind the tree untouched |
| LevelCacheStores.ReadyFits | src/store/level_cache.rs:520-571 | a store laid out for the tree has room for it, and every read of the build passes its bounds check |
| LevelCacheStores.LevelCacheStore.Build | src/store/level_cache.rs:487-571 | on every store exactly when it succeeds; the file is then the flat tree from the cache start on and what was behind the tree, the root that of the default build |
| LevelCacheStores.CacheReadsLeaf | src/store/level_cache.rs:318-331 | every leaf reads back, in both layouts |
| LevelCacheStores.CacheReadsUpper | src/store/level_cache.rs:681-730 | every cached node reads back, in both layouts |
| LevelCacheStores.CacheReadsDiscarded | src/store/level_cache.rs:318-331 | discarded nodes are refused, but for the first one in version 1 |
| LevelCacheStores.CacheReadsCached | src/store/level_cache.rs:681-730 | ranges of cached nodes read back, in both layouts |
| LevelCacheStores.CacheReadsInside | src/store/level_cache.rs:363-371 | no range that starts or ends behind the tree is read |
| LevelCacheStores.CacheReadsAcross | src/store/level_cache.rs:681-730 | what every other range is answered with: cached nodes behind the base row, what the source of the reader holds, or nothing |
| LevelCacheStores.CacheReadsBase | src/store/level_cache.rs:787-832 | ranges of the base row read back, from the file or through the reader |
| LevelCacheStores.UnreadReads | src/store/level_cache.rs:711-716 | what a directly built cache answers before it has a reader, for every index |
| Proofs.AssembleNodes | src/proof.rs:173-186 | the node list of one step, or the panic of a short lemma, or the refusal of a position out of range |
| Proofs.ClimbProof | src/proof.rs:160-194 | the loop of base validation computes the recursive climb |
| Proofs.ValidateProof | src/proof.rs:88-194 | the validation of nested proofs computes the recursive specification |
| Proofs.MalformedProofs | src/proof.rs:126-158 | which proofs are refused, turned down or panic before a hash is compared |
| Paths.BaseProofIsAccepted | src/merkle.rs:976-987 | the proof owed passes the length checks of its makers |
| Paths.BaseProofValidates | src/proof.rs:160-194 | the proof owed for any leaf validates |
| Paths.HeightAwareProofs | src/proof.rs:189 | with the hash that is its height, exactly when the proofs of a base tree validate |
| Paths.SafeForEveryHash | src/proof.rs:189 | exactly on which base trees the proofs validate for every hash |
| Soundness.ClimbSound | src/proof.rs:160-194 | a climb that ends at the root started at the node its path names, or a built and an assembled node list collide |
| Soundness.AcceptedByConstructor | src/proof.rs:46-69 | a base proof that the constructor accepts is validated in as many steps as its path has entries, always with a verdict and never a panic |
| Soundness.PathNamesLeaf | src/merkle.rs:966-970 | the path of the proof for leaf i decodes to i |
| Hashing.Hasher.Leaf | src/hash.rs:129-133 | a fresh hasher hashes the byte 0x00 and the leaf |
| Hashing.Hasher.MultiNode | src/hash.rs:146-152 | a fresh hasher hashes the byte 0x01 and the nodes in order, whatever the height |
| Hashing.WithDataVerdict | src/proof.rs:197-209 | acceptance exactly for the data of the item with a proof that is accepted; other data is turned down without an error |
| Hashing.FlattenInjective | src/hash.rs:146-152 | lists of equally many equally long nodes are told apart by what is hashed |
| Hashing.AcceptedDataIsInTree | src/proof.rs:197-209 | accepted data is the item the path names, with a path one shorter than the tree has rows, or two byte strings collide |
| Hashing.OwnDataIsAccepted | src/proof.rs:197-209 | the data of an item is accepted with the tree's proof for it, and the path decodes to its index |
| Rfc6962.RootIsTreeHead | src/lib.rs:10-20 | a binary root over hashed items is MTH of section 2.1 of RFC 6962 |
| Rfc6962.SiblingsAreAuditPath | src/merkle.rs:957-971 | the siblings of a binary proof, in order, are PATH(m, D[n]) of section 2.1.1 of RFC 6962 |
| Generation.ReadSiblings | src/merkle.rs:959-964 | the other nodes of the group in order, exactly when all of them can be read |
| Generation.CollectProof | src/merkle.rs:1212-1336 | on every store: exactly when a proof comes out, and which one |
| Generation.CollectedIsAccepted | src/merkle.rs:976-987 | on the shape of a tree a walk to the root always passes the length checks |
| Generation.TreeWalk | src/merkle.rs:958-971 | if every read answers with the tree, the flat walk collects the siblings and the path owed, bottom up |
| Generation.LostWalk | src/merkle.rs:1292-1318 | a sibling that the store does not answer for ends the walk without a proof |
| Generation.FullPicks | src/merkle.rs:957-971 | rows that the store kept are read from it, node by node |
| Generation.CachedPicks | src/merkle.rs:1292-1318 | so do a store that lost rows and the partial tree of the right segment, together |
| Generation.GenBaseProof | src/merkle.rs:918-990 | on every store that answers for its leaves: the outcome of a cached proof that takes no row as discarded, so the proof owed if no row was lost |
| Generation.StoreWalk | src/merkle.rs:958-971 | with no row taken as discarded, the loop over store and partial tree is the loop over the store |
| Generation.EffectiveIsTaken | src/merkle.rs:1122-1133 | the rows taken as discarded are the most that leave a cached row, do not pass 7, 5 or 2 for arity 2, 4 or other, and do not pass the request |
| Generation.CachedPlan | src/merkle.rs:1120-1155 | for every requested number of rows all shape checks pass, with that number of rows d, segment width b^(d+1) and d + 2 partial rows |
| Generation.SegmentFits | src/merkle.rs:1153-1171 | the segment of a leaf is aligned, inside the base row, and holds the leaf |
| Generation.ReadSegment | src/merkle.rs:1167-1171 | the segment, exactly when the store answers for all of it |
| Generation.BuildPartialTree | src/merkle.rs:824-852 | exactly over which segments, with which row count, a tree is built, and the flat tree; always an error for an arity that does not divide the chunk size |
| Generation.GenCachedBaseProof | src/merkle.rs:1097-1208 | for every store that answers for its leaves and every request: the outcome of the walk over the store and the partial tree of the leaf's segment; always an error for an arity that does not divide the chunk size |
| Generation.CachedWalkIsOwed | src/merkle.rs:1097-1336 | taking no fewer rows as discarded than were lost, that outcome is exactly the proof the full tree owes |
| Generation.CachedWalkFails | src/merkle.rs:1292-1306 | a sibling lost in a row not taken as discarded makes it fail |
| Merkle.FromDataStore | src/merkle.rs:377-420 | exactly which stores are accepted, and the tree made of one that holds a tree |
| Merkle.FromTreesAccepts | src/merkle.rs:516-540 | the trees accepted: as many as the sub-tree arity, any two alike in rows and length |
| Merkle.FromSubTreesAccepts | src/merkle.rs:581-603 | the same with the top arity |
| Merkle.FromTreesExactly | src/merkle.rs:516-603 | well-formed base trees make a layer exactly if their number is the arity and all have one height |
| Merkle.FromSubTreesExactly | src/merkle.rs:581-603 | so do two-layer trees |
| Merkle.SumsGrow | src/merkle.rs:548-554 | the leaf and node counts of a layer grow with every tree by those of the tree |
| Merkle.FromTreesOk | src/merkle.rs:516-575 | base trees of one height always combine, whatever the top arity of the type; leaves and nodes are the sums of the parts, plus the root |
| Merkle.FromSubTreesOk | src/merkle.rs:581-633 | the same one layer up, over two-layer trees |
| Merkle.FromSubTreesOverBase | src/merkle.rs:581-633 | and over base trees, for a type without a sub-tree arity |
| Merkle.ReadsInOrder | src/merkle.rs:1414-1451 | reading leaf i reads the i-th leaf of all trees in the order given |
| Merkle.ReadsFlat | src/merkle.rs:1446-1449 | on a base tree every node of the flat array that the store kept is read, and nothing past its end |
| Merkle.ReadsPastEnd | src/merkle.rs:1416-1445 | on a compound tree an index past the last leaf panics |
| Merkle.ReadsMisshapen | src/merkle.rs:1416-1434 | a layer with another number of children than its arity is refused |
| Compound.OtherRoots | src/merkle.rs:893-908 | the roots beside the path, in order |
| Compound.GenProof | src/merkle.rs:858-990 | for one, two or three layers: exactly when a proof comes out, and which one, even from stores that lost rows; the nested proof owed if they lost none; past the last leaf an error, a panic on compound trees |
| Compound.GenCachedProof | src/merkle.rs:994-1208 | on trees of one, two or three layers whose stores answer for their leaves: exactly when a proof comes out, and which one; the proof the full tree owes if the stores kept enough; always an error for an arity that does not divide the chunk size |
| Compound.CachedIsFull | src/merkle.rs:994-1208 | the proof owed is the same for the cached and for the full trees |
| Compound.LayerValidates | src/proof.rs:88-124 | for every hash and every arity in the type, what validation makes of a layer: the inner verdict, a panic, a refusal, or whether the list that the arity selects hashes to the root |
| Compound.OwedProofVerdict | src/proof.rs:88-194 | for every hash and every type, what validation makes of every proof owed, and where the proof leads |
| Compound.OwedProofValidates | src/proof.rs:88-194 | for a hash that ignores the height every proof owed by a tree whose type matches its layers validates, ends at the root, and its innermost item is what `read_at` returns |
| Compound.UnmatchedIsRejected | src/proof.rs:128-146 | no proof of any other tree validates, unless two node lists collide |
| Compound.TopOverBasePanics | src/proof.rs:77-80 | validating a proof of a top layer over base trees panics |
| Compound.HeightAwareLayers | src/proof.rs:121 | with the hash that is its height no proof of a compound tree validates |
| Compound.LayerSound | src/proof.rs:88-124 | an accepted layer, whatever arity it is checked with, leads to the child its path names, or its node list collides with the roots |
| Compound.AcceptedProofIsSound | src/proof.rs:88-194 | an accepted proof of the tree's shape proves the leaf at the index of its stacked paths, or two node lists collide |
| Compound.ProvenLeafIsRead | src/merkle.rs:1414-1451 | that leaf is the one `read_at` returns at that index |
| Populate.PopulateData | src/merkle.rs:1961-1998 | in memory: the leaf hashes in order; on an error of the iterator, the whole blocks before it |
| Populate.PopulateDataPar | src/merkle.rs:2000-2032 | in memory: the same contents, whatever the order of the blocks |
| Populate.FinishTree | src/merkle.rs:1711-1730 | from a filled store in memory: succeeds exactly on powers of the arity, with a well-formed tree |
| Populate.TryFromIter | src/merkle.rs:1698-1731 | in memory: exactly which iterators make a tree, and the tree |
| Populate.FromParIter | src/merkle.rs:1587-1623 | in memory: the same tree from blocks in any order |
| Populate.TreeOverItems | src/merkle.rs:1961-1998 | on bytes: leaf hashes, and the RFC 6962 tree head as the root |
| PopulateDisk.PopulateFile | src/merkle.rs:1961-1998 | in a file: fails exactly on an error of the iterator or for lack of room, with the whole blocks before it; contents and length either way |
| PopulateDisk.PopulateFilePar | src/merkle.rs:2000-2032 | in a file: fails exactly for lack of room, and then leaves some blocks written and all else as it was; otherwise the same contents and length, whatever the order of the blocks |
| PopulateDisk.FinishTreeInFile | src/merkle.rs:1711-1730 | from a filled file: exactly when a tree comes out, and the tree |
| PopulateDisk.TryFromIterInFile | src/merkle.rs:1698-1731 | exactly which iterators make a tree in a file, and the tree |
| PopulateDisk.FromParIterInFile | src/merkle.rs:1587-1623 | the same tree from blocks in any order |
| Caching.OpenedHolds | src/store/level_cache.rs:318-331 | an opened cache answers with the flat tree at the leaves and from the cache start on |
| Caching.CacheRangeIsElements | src/store/level_cache.rs:348-361 | a range of the base row reads at once as its elements do one by one, whatever file and reader hold |
| Caching.DiskRangeIsElements | src/store/disk.rs:194-218 | so does any range of a disk store |
| Caching.BuildOnDisk | src/merkle.rs:1475-1514 | exactly when a disk store over given leaves can be built; it then holds the flat tree and nothing else |
| Caching.ProveFromDisk | src/merkle.rs:918-990 | a full disk store gives the proof owed, valid, for every leaf, and an error past the last |
| Caching.CompactAndReopen | src/store/disk.rs:231-308 | build, compact and reopen, exactly when it succeeds: an opened cache of that tree, in version 1 without a reader and in version 2 with the one given |
| Caching.BuildCache | src/store/level_cache.rs:487-571 | the directly built cache before it has a reader, exactly when it can be built |
| Caching.UnreadIsRefused | src/merkle.rs:400-408 | a tree cannot be opened over it until then |
| Caching.BuildDirectly | src/store/level_cache.rs:487-571 | build the cache directly and set its reader, exactly when it succeeds: an opened cache with that reader |
| Caching.ProveFromCache | src/merkle.rs:1097-1336 | for every leaf and request: the proof of the full tree, valid, exactly if the rows lost pass neither 7, 5 or 2 for arity 2, 4 or other nor the request, if there is one; else an error, or the wrong proof of a misread; an error past the last leaf |
| Caching.ProveWithoutPartial | src/merkle.rs:918-990 | `gen_proof` on an opened cache: the proof owed exactly if no row was lost, or the wrong proof of a misread |
| Caching.MisreadRow | src/store/level_cache.rs:325-328 | what a misread request is answered with: the first node of row 2 for that of row 1 |
| Caching.MisreadIsRejected | src/proof.rs:160-194 | the proof of a misread is accepted only if the two nodes mixed up are equal, or two node lists collide |
| Caching.CacheOutcome | src/merkle.rs:1097-1336 | the three outcomes on an opened cache, for every number of rows taken as discarded |
| Digests.SourceAlgorithms | benches/ringx/mod.rs:316-370 | both pairs of block and length sizes in the source are covered |
| Digests.Context.Update | benches/ringx/mod.rs:66-104 | the message grows by the data, and the counter overflow is the only failure |
| Digests.Context.Finish | benches/ringx/mod.rs:111-159 | the digest is the fold over the padded message, exactly for messages under 2^64 bits |
| Digests.Context.Reset | benches/ringx/mod.rs:168-173 | an empty message again, whatever happened before |
| Digests.PadZerosLeast | benches/ringx/mod.rs:115-132 | the padding of section 5.1 of FIPS 180-4 fills whole blocks with the fewest zeros |
| Digests.PaddedLength | benches/ringx/mod.rs:134-153 | the length field reads back as the number of bits |
| Digests.DigestOfParts | benches/ringx/mod.rs:66-159 | any sequence of updates gives the digest of the joined parts |

## Left out

- Arity 1: the shift is 0 and the loops of src/merkle.rs:1882 and src/store/mod.rs:273 never end; members with such a loop ask for another arity. Proof generation and validation are stated for arities from 2 on.
- Overflow of `usize`: numbers are unbounded; a length that does not fit the machine is not modelled.
- The floating-point logarithm of src/merkle.rs:1898: the row count is the exact integer logarithm.
- Byte offsets inside elements and `buf.len() % elem_len` checks: files and buffers are sequences of elements.
- Files, paths, metadata, sync, memory maps and locks: only their effect on the elements of a file.
- Rayon: an iteration that stops early at an error may leave other chunks unwritten; what a store holds after a failed layer is not stated.
- DiskStores.DiskStore.Compact: where the copy would run after its own writes the model answers with an error instead of not ending.
- Generation.CollectProof: on a store longer than its rows the loop of the source does not advance; the model answers with a panic.
- Compound.GenCachedProof: a compound tree whose number of children differs from its arity, which no constructor makes, is refused by the model and not looked at by src/merkle.rs:994-1093.
- PopulateDisk.PopulateFile: files are those of disk stores; a level cache fills its base row through the same `copy_from_slice` (src/store/level_cache.rs:306-316) and is modelled with its base row in place (`NewFromSlice`).
- Digests.Context.Update: what a context holds after a panic is not stated, only that `reset` mends it.
- `from_tree_slice`, `from_slices` and their variants: they read the root at the byte length minus one (src/merkle.rs:450), out of range for elements of more than one byte.
- `from_sub_trees_as_trees`: its grouping is right for top arity 2 only.
- `validate_with_data` on compound proofs: it compares with the first entry of the outer lemma, which is no leaf.
- `read_range_into` of the in-memory store is not implemented in the source, so cached proofs are for the file-backed stores.
- The memory-mapped store, the constructors from store configurations, concrete hash functions and the compression functions of the digests: thin wrappers or foreign code.
