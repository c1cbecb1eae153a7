# The registry's correctness story

A model in Dafny of the parts of the registry whose correctness rests on more than one function, and
proofs about them. `dafny verify dfyconfig.toml` checks everything.

## What is modelled

**The content-addressed trie** (`NodeCodec`, `HamtTree`, `HamtLaws`, `HamtShape`, `HamtStore`,
`HamtWalk`). `HamtTree` is the trie as a value, with the laws it is for; `HamtStore` and `HamtWalk` are
the code over a store of hash-addressed blobs - path-copying insertion, bulk construction, lookup, the
serial walk, the breadth-first walk under a deadline, the reachability collector - each proved to do
what the tree functions say. A root hash denotes one tree and a tree has one root hash, so statements
about trees are statements about roots.

**The publish protocol** (`Index`, `RecordIndex`, `Registry`, `RegistryInv`, `RegistryLaws`, `Cycle`,
`Daemon`, `Maintenance`, `Api`, `RegistryScenario`). `Registry` is a state machine whose steps are what can happen
between two points at which another task or a crash may come in: a cycle is cut at every durable write.
`RegistryInv` proves the invariant one step at a time, `RegistryLaws` draws the safety claims about whole
runs, `Cycle` says what a publish cycle leaves behind. `Daemon`, `Maintenance` and `Api` are the code over objects with mutable state. The publisher's
cycle, seeding, healing and batch submission are proved to be paths of the state machine with other tasks
acting between any two of their steps and any call failing; a garbage-collection run is one step of it,
and may come between the writes of seeding and healing, which hold no write guard; audit and drain are
command-line tools, which run alone. `RegistryScenario` has two runs from the empty registry: one at
whose end readers have lost a published key, one that loses the similarity index.

**Similarity search** (`Bits`, `Similarity`, `Matching`, `IsccStore`, `IsccIndexStore`). The bit
arithmetic is on natural numbers below 2^64. The stored index is proved to answer as the in-memory one,
and the recall bound is proved both ways: it holds, and it is the best there is.

**Legacy identifiers** (`CidKey`). The in-place base conversion, against the base-x conversion it
computes, which is shown to be a bijection.

## What is assumed

BLAKE3, SHA-256, the JSON serialization of entries and index blobs, key syntax, time stamps and content
codes are constants without a definition: what is proved holds for all of them. Where more is needed it
is said in a precondition: `EntrySerializer` (an entry's text can be parsed back, is not empty and has
no newline), `BlobSerializer` (the same for index blobs, without the newline), `ObjectText` (the text of
a JSON object is not empty and does not begin with byte 0 or 1). Hash collisions are not assumed away: a
write whose hash is taken by other bytes, or is all zeros, is modelled as a write that fails. Reading,
writing and transactions may fail at any call. So that an error means something all the same, results also
say what is left of it where the store (`BlobStore.reliable`) and the database (`RecordIndex.reliable`) do
not fail by themselves: of store errors then only those of a write that met such a hash
(`BlobStore.clashed`).

A trie node or index blob counts as stored only when its bytes are those this code writes for it.

## Where the code and its documentation differ

- `hamt.rs:383-387` says bulk construction is byte-identical to incremental insertion. Insertion splits
  one level only (`hamt.rs:481-499`), bulk construction recurses (`hamt.rs:430-435`). The two agree
  exactly when the grown tree has no leaf above the limit: `HamtShape.IncrementalEqualsBulk`,
  with `OverFullLeafExists` as the counterexample. At every point of the way they agree exactly when no
  insertion meets a crowded leaf - a full one whose entries all share the new key's next digest byte:
  `HamtShape.BulkThroughoutIffNeverCrowded`.
- `docs/data-model.md:61-62` gives `leaf_max_entries` as the most a leaf holds. An insertion
  keeps to it exactly when the key's leaf is not crowded (`HamtShape.InsertFitsIffNotCrowded`); the bound
  that always holds is that number plus the leaf's depth (`HamtShape.InsertKeepsShape`).
- The header of `gc.rs` says that any error aborts a run, but a failed tree walk is skipped over
  (`gc.rs:157-159`). `Maintenance.CollectGarbage` says what holds of a run in which none was and what in
  every run. The node at which a walk fails is marked, the siblings after it are not: the tree is lost
  exactly when something it reaches stays unmarked (`HamtWalk.SweepSafeIffReachProtected`), as it does
  when a later child was marked by nothing else (`HamtWalk.FailedWalkLosesTree`).
- The same header promises that the similarity index is protected. Its walk stops at once when its root
  is marked already (`iscc_store.rs:312-314`), as it is when an indexed value has the same bytes:
  `RegistryScenario.SimilarityIndexCanBeLost` is such a run. The index is kept exactly when its root was
  not among what was walked before, or all of the index was marked besides: `Maintenance.CollectGarbage`,
  `IsccIndexStore.CollectIndex`.
- `iscc_store.rs:190-191` says that a batch writes manifests for the buckets it touches only; the code
  (`iscc_store.rs:196-203`) writes one for every bucket still in the old format, so that any batch moves
  the whole index to the current format: `IsccIndexStore.InsertBatch`.
- `iscc_store.rs:166-167` promises that redelivered members are dropped. They are dropped exactly where
  the bucket's tail is open and holds them: `IsccIndexStore.SameRootIffRedelivered`.
- Readers are promised every published record. That holds at every point unless a sweep comes between a
  partition's document write and its local-root write, because the sweep walks the local root when there
  is one: `RegistryLaws.ReadersSeePublished`, with `RegistryScenario.ReadersCanLoseKey`, a run from the
  empty registry, as the counterexample and `RegistryLaws.DocumentSurvivesIffProtected` as the exact
  condition of one sweep.

## Model

| member | source | states |
|---|---|---|
| Ordering.StrictlySortedUnique | crates/registry-core/src/hamt.rs:475 | A strictly sorted sequence is determined by its set of elements, so a leaf written in key order is determined by what it holds |
| Ordering.SortStrict | crates/registry-core/src/hamt.rs:474-475 | Sorting by key entries whose keys differ gives a strictly sorted leaf with the same entries, none dropped |
| Ordering.SortedUnique | crates/registry-core/src/hamt.rs:333 | Where the order tells elements apart, any two sorted arrangements of the same multiset are equal: the order in which fetches completed leaves no trace in the result |
| Ordering.LexLeIff | crates/registry-core/src/hamt.rs:475 | Keys compare as texts do: a prefix comes first, and otherwise the first place where two keys differ decides |
| Digests.PartitionReadsFirstByte | crates/registry-core/src/partition.rs:34-36 | The partition is byte 0 less whole multiples of the partition count: changing any other byte leaves it, and with 256 partitions writing byte 0 sets it |
| Digests.DescentReadsItsByte | crates/registry-core/src/partition.rs:41-43 | Level `d` reads digest byte `1 + d` and no other - writing that byte sets what is read, writing any other changes nothing - and there are 31 levels |
| Digests.DigestIsUsedUp | crates/registry-core/src/partition.rs:34-43 | With 256 partitions, two digests of one partition that agree on all 31 descent bytes are equal |
| Blobs.BlobStore.Put | crates/registry-core/src/blobstore.rs:64-68 | Storing adds the bytes under their hash, keeps every other blob, and a failed write changes nothing; a reliable store refuses only a hash that is all zeros or taken by other bytes |
| Blobs.BlobStore.Get | crates/registry-core/src/blobstore.rs:70-72 | Reading gives exactly what was stored under the hash, or that there is nothing, whenever it succeeds; a reliable store succeeds |
| NodeCodec.RoundTrip | crates/registry-core/src/hamt.rs:51-118 | Every node without an all-zero child decodes to itself, for every entry serializer that can be undone and writes one non-empty line |
| NodeCodec.RoundTripOnlyWithoutZeroChild | crates/registry-core/src/hamt.rs:107-109 | The proviso is exact: a node decodes to itself if and only if it has no all-zero child |
| NodeCodec.EncodeInjective | crates/registry-core/src/hamt.rs:51-74 | Two nodes with the same bytes are the same node, across leaves and intermediates |
| NodeCodec.EntriesRoundTrip | crates/registry-core/src/hamt.rs:80-87 | Splitting a leaf body on newlines, skipping empty pieces and parsing each gives back exactly the entries written |
| NodeCodec.EncodeNode | crates/registry-core/src/hamt.rs:51-74 | The encoder, with its buffer filled in place block by block, writes the tag, one line per entry, or 256 blocks of 32 bytes with zeros for absent children |
| NodeCodec.DecodeNode | crates/registry-core/src/hamt.rs:76-118 | The decoder gives what the reference decoding gives on every byte string, including every corrupt one |
| NodeCodec.EncodingLayout | crates/registry-core/src/hamt.rs:51-74 | Byte for byte: tag 0 and the lines in entry order, each ended by a newline; or tag 1 and slot `i` in the 32 bytes from `1 + 32 i`, zeros for no child, 8193 bytes in all |
| NodeCodec.DecodesToIntermediate | crates/registry-core/src/hamt.rs:93-114 | Only the encoding of an intermediate node without an all-zero child decodes to it |
| NodeCodec.DecodesUnlessCorrupt | crates/registry-core/src/hamt.rs:76-118 | Exactly these are corrupt: no bytes, another tag, an intermediate node of another length, a leaf with a line that is neither empty nor an entry; and the error names the node |
| NodeCodec.LinesAreCut | crates/registry-core/src/hamt.rs:80-81 | A leaf's lines are its body cut at every newline |
| HamtTree.KeysDistinct | crates/registry-core/src/hamt.rs:457-473 | A well-formed tree holds at most one entry for a key, wherever in the tree it may stand |
| HamtTree.LookupFinds | crates/registry-core/src/hamt.rs:125-155 | In a well-formed tree following the digest finds a key if and only if some leaf holds it, and finds that very entry |
| HamtTree.InsertSpec | crates/registry-core/src/hamt.rs:440-511 | Insertion keeps the tree well-formed, adds exactly the one entry when the key is new, and returns the very same tree when it is not; it never leaves the partition without a node |
| HamtTree.SplitWellFormed | crates/registry-core/src/hamt.rs:481-499 | Redistributing a leaf by its next digest byte loses and invents no entry and puts each in the slot its digest names |
| HamtTree.LeafAscends | crates/registry-core/src/hamt.rs:474-475 | The keys of a leaf ascend |
| HamtLaws.AsMap | crates/registry-core/src/hamt.rs:125-155 | The finite map a tree stands for: its keys are the keys in the leaves and each is bound to what lookup gives |
| HamtLaws.InsertRefinesMap | crates/registry-core/src/hamt.rs:341-349 | Insertion is a map update that never overwrites |
| HamtLaws.BatchRefinesMap | crates/registry-core/src/hamt.rs:363-381 | A batch does to the tree what folding it into a first-write-wins map that skips denied keys does to the map |
| HamtLaws.BatchEntries | crates/registry-core/src/hamt.rs:363-381 | A batch keeps every entry, adds only entries of the batch that are not denied, leaves every key not denied present, and leaves no node only when everything was denied |
| HamtShape.InsertKeepsShape | crates/registry-core/src/hamt.rs:440-511 | However digests fall, insertion keeps every intermediate node above the leaf limit and every leaf at depth d within the limit plus d |
| HamtShape.GrownTree | crates/registry-core/src/hamt.rs:363-381 | A tree grown from nothing holds exactly the first occurrence of each key, within those bounds |
| HamtShape.BuildFits | crates/registry-core/src/hamt.rs:410-437 | Bulk construction never leaves a leaf above the limit |
| HamtShape.BuildIsCanonical | crates/registry-core/src/hamt.rs:394-437 | Any tree with no over-full leaf and no intermediate that could be a leaf is what bulk construction makes of its entries in any order |
| HamtShape.IncrementalEqualsBulk | crates/registry-core/src/hamt.rs:383-408 | Growing entry by entry and building in bulk, in any two orders and with any repetitions, give the same tree if and only if the grown tree has no over-full leaf |
| HamtShape.OverFullLeafExists | crates/registry-core/src/hamt.rs:485-499 | The unconditional identity is false: two keys with the same first descent byte and one entry to a leaf give different trees |
| HamtShape.InsertFitsIffNotCrowded | crates/registry-core/src/hamt.rs:474-500 | Insertion into a tree with no over-full leaf leaves none if and only if the key's leaf is not crowded: not full, or holding some entry with another next digest byte - which can be seen before the call |
| HamtShape.FitsThroughoutIffNeverCrowded | crates/registry-core/src/hamt.rs:363-381 | Over a batch, no leaf is over-full at any point of the way if and only if no insertion meets a crowded leaf |
| HamtShape.BulkThroughoutIffNeverCrowded | crates/registry-core/src/hamt.rs:383-408 | Incremental and bulk trees agree at every point of the way if and only if no insertion meets a crowded leaf |
| HamtShape.BulkIfNeverCrowded | crates/registry-core/src/hamt.rs:383-408 | A batch that meets no crowded leaf gives the bulk-built tree of its entries in any order |
| HamtShape.SomeKeysCollide | crates/registry-core/src/partition.rs:41-43 | Among any 257 keys two share their first descent byte, whatever the digest function, so the counterexample always exists |
| HamtShape.ExhaustedByTwins | crates/registry-core/src/hamt.rs:485-489 | Insertion fails only by running out of digest, and then at least as many other keys as a leaf may hold share every remaining digest byte with the new one |
| HamtShape.ExhaustedByCollision | crates/registry-core/src/hamt.rs:485-489 | With 256 partitions insertion fails only if at least as many other keys as a leaf may hold have the very digest of the new one |
| HamtStore.RepresentsUnique | crates/registry-core/src/hamt.rs:125-155 | A root hash denotes one tree |
| HamtStore.RepresentsGrows | crates/registry-core/src/hamt.rs:337-340 | Roots keep denoting the trees they denoted while the store only grows: old roots stay valid after path-copying |
| HamtStore.RootIsCanonical | crates/registry-core/src/hamt.rs:383-393 | A tree has one root hash, whichever stores hold it |
| HamtStore.GetNode | crates/registry-core/src/hamt.rs:133-140 | On any store contents a read is the decoding of the bytes stored under the hash, or the error that names the node as missing or corrupt; only an unreliable store has another answer |
| HamtStore.ReadFailure | crates/registry-core/src/hamt.rs:133-140 | A node that cannot be read is called missing exactly when there is no blob, and corrupt otherwise |
| HamtStore.PutNode | crates/registry-core/src/hamt.rs:478 | Writing a node leaves it readable under its hash and writes at most one blob |
| HamtStore.Lookup | crates/registry-core/src/hamt.rs:125-155 | On any store contents: follows a chain of at most 32 nodes, each stored and naming the next in the slot of the key's next digest byte, and answers by its last - a leaf's first entry with the key or that there is none, none for an empty slot, exhaustion past the digest, a missing or corrupt node by its hash; only an unreliable store has another error. On a stored well-formed tree the answer is the tree's |
| HamtStore.FindKeyIsFirst | crates/registry-core/src/hamt.rs:142 | What is found in a leaf is the first entry with the key, and nothing exactly when there is none |
| HamtStore.PutSplit | crates/registry-core/src/hamt.rs:481-499 | One leaf per non-empty bucket and the intermediate node over them: the stored root denotes the split tree |
| HamtStore.PutLeafWith | crates/registry-core/src/hamt.rs:474-500 | The leaf case of insertion stores the tree the reference gives, or fails exactly where the reference runs out of digest or the store fails |
| HamtStore.InsertAt | crates/registry-core/src/hamt.rs:440-511 | The new root denotes the inserted tree, off-path nodes are not rewritten (at most the path and one split are stored), re-inserting a present key returns the same root and writes nothing that was not there |
| HamtStore.InsertBatch | crates/registry-core/src/hamt.rs:363-381 | The new root denotes the batch folded into the old tree, the store keeps all it held, and the only errors are the store's and digest exhaustion |
| HamtStore.Redistribute | crates/registry-core/src/hamt.rs:483-490 | The buckets are the entries by descent byte, in order, and it fails only past the last byte |
| HamtStore.BuildFromEntries | crates/registry-core/src/hamt.rs:394-408 | The root denotes the tree bulk construction gives for the first occurrences; a failure is the store's, or exactly the one bulk construction has |
| HamtStore.BuildSubtree | crates/registry-core/src/hamt.rs:410-437 | The recursive construction stores the reference tree, or fails where it does |
| HamtStore.SameRootIffNoOverFullLeaf | crates/registry-core/src/hamt.rs:383-408 | As hashes in one store: incremental root equals bulk root if and only if the grown tree has no over-full leaf |
| HamtStore.SameRootIfNeverCrowded | crates/registry-core/src/hamt.rs:383-408 | A batch that meets no crowded leaf gives the very root hash that bulk construction gives |
| HamtWalk.WalkEntries | crates/registry-core/src/hamt.rs:228-249 | A walk that succeeds appends the tree's entries in traversal order; one that fails keeps what was there; on a reliable store none fails |
| HamtWalk.CollectReachable | crates/registry-core/src/hamt.rs:195-221 | Marking before descending, into a set that other walks filled: nothing outside the tree is added, and where no value of the tree is itself a node, every marked node has all it refers to marked, except nodes on the current path. A walk that fails names the node it failed at and has marked nothing beyond what lies before that node and the node itself |
| HamtWalk.ClosedReaches | crates/registry-core/src/hamt.rs:195-221 | A set closed under references that has the root has everything the tree reaches |
| HamtWalk.SweepKeepsTree | crates/registryd/src/gc.rs:129-160 | A sweep that keeps what a tree reaches keeps the tree under the same root |
| HamtWalk.JoinLevel | crates/registry-core/src/hamt.rs:309-331 | Joining one level in any order, with any fetches failing: what was found before stays in front, entries found and entries still below add up to at most what there was, exactly so when none failed, and the trees still to visit shrink |
| HamtWalk.WalkEntriesParallel | crates/registry-core/src/hamt.rs:268-335 | Terminates; what it returns is sorted by key and a sub-multiset of the tree's entries, and when it says complete it is the whole sorted walk; and it is complete unless a read fails or a look at the clock shows the deadline passed |
| Index.SubmitAllSpec | crates/registryd/src/index.rs:120-159 | A batch keeps the index invariant, every binding and every queue row, never lowers the sequence number, and leaves every submitted key known |
| Index.SubmittedRecords | crates/registryd/src/index.rs:136-153 | Known records are untouched and a new record is that of the first submission of its key |
| Index.SubmittedRows | crates/registryd/src/index.rs:136-153 | A batch adds one row for each key that was not known, numbered without gaps in the order in which those keys were first submitted, and overwrites none |
| Index.NewKeysHaveRows | crates/registryd/src/index.rs:136-153 | No new key is left without a row |
| Index.OutcomesMean | crates/registryd/src/index.rs:120-159 | What each submission is told, in terms of the records there were and the submissions before it: queued exactly when neither has the key, otherwise a duplicate or a conflict by the hash the key was first bound to |
| Index.FinishAllSpec | crates/registryd/src/index.rs:223-250 | Finishing takes exactly the named rows out of the queue and changes exactly the named records, in nothing but status and, when published, the time; it strands no pending record |
| Index.RequeueSpec | crates/registryd/src/index.rs:254-270 | Requeueing changes no record and overwrites no row; a known key gets one more row, with the next number, and an unknown one changes nothing |
| Index.OldestOfSpec | crates/registryd/src/index.rs:188-207 | A batch is queue rows with their own records, as many as asked for or all there are |
| Index.OldestOfOrder | crates/registryd/src/index.rs:188-207 | A batch is in sequence order and every row left out is newer than every row taken |
| Index.RunsKeepInvariant | crates/registryd/src/index.rs:120-270 | Over any run of submit, finish and requeue: sequence numbers in use stay below the next one, every row has a record, every pending record has a row, and between any two points no record changes in anything but status and time of publication and nothing becomes pending again |
| RecordIndexes.RecordIndex.SubmitMany | crates/registryd/src/index.rs:120-159 | One transaction gives the outcomes and the index of submitting one by one, positionally; a failure leaves the index as it was |
| RecordIndexes.RecordIndex.GetMany | crates/registryd/src/index.rs:172-183 | Positional lookups |
| RecordIndexes.RecordIndex.PendingBatch | crates/registryd/src/index.rs:188-207 | Reads the oldest rows with their records |
| RecordIndexes.RecordIndex.Finish | crates/registryd/src/index.rs:223-250 | One transaction over all items, or none of it |
| RecordIndexes.RecordIndex.Requeue | crates/registryd/src/index.rs:254-270 | Queues a known key again under a new number and says whether it was known |
| RecordIndexes.RecordIndex.SetLocalRoot | crates/registryd/src/index.rs:361-369 | Sets one partition's root and nothing else |
| RecordIndexes.RecordIndex.AllContentHashes | crates/registryd/src/index.rs:454-464 | The content hashes of all records, whatever their status |
| RecordIndexes.RecordIndex.PublishedKeysForPartition | crates/registryd/src/index.rs:405-417 | Exactly the published keys of the partition |
| RegistryInv.CommitKeeps | crates/registryd/src/api.rs:226-234 | Committing submissions whose values are stored keeps the invariant and loses no published record |
| RegistryInv.BuildKeeps | crates/registryd/src/publisher.rs:253-262 | The root built on the writer's tree holds what that tree held and every row it is built for, before anything refers to it |
| RegistryInv.WriteDocKeeps | crates/registryd/src/publisher.rs:263-268 | After the document write the document's tree is whole and contains the local root's tree |
| RegistryInv.WriteLocalRootKeeps | crates/registryd/src/publisher.rs:269-273 | After the local-root write every key covered before is still covered |
| RegistryInv.MarkPublishedKeeps | crates/registryd/src/publisher.rs:282-287 | Rows are marked published only when their keys are in the tree under the local root; rows of other keys stay good |
| RegistryInv.MarkDeniedKeeps | crates/registryd/src/publisher.rs:282-288 | Marking denied rows uncovers no published record |
| RegistryInv.SeedKeeps | crates/registryd/src/publisher.rs:194-211 | Seeding from a readable document keeps coverage and the order between the two roots |
| RegistryInv.HealKeeps | crates/registryd/src/publisher.rs:169-190 | Writing the local root back to the document keeps the invariant |
| RegistryInv.RequeueKeeps | crates/registryd/src/index.rs:254-270 | Requeueing at any point of a cycle keeps the invariant |
| RegistryInv.CollectKeeps | crates/registryd/src/gc.rs:77-127 | A sweep keeps every writer root's tree, every indexed value and the invariant |
| RegistryInv.SweepKeepsWriterTree | crates/registryd/src/gc.rs:154-160 | The tree under any writer root is the same tree after a sweep |
| RegistryLaws.NothingIsFine | crates/registryd/src/index.rs:88-104 | The empty registry satisfies the invariant, so the claims about runs are not vacuous |
| RegistryLaws.StepKeepsInv | crates/registryd/src/publisher.rs:215-299 | Every step - submissions, each sub-step of a cycle, errors, crashes, restart, requeue, damage, sweep - keeps the invariant, coverage, and repairability, whatever foreign entries the trees hold |
| RegistryLaws.StepKeepsBacked | crates/registryd/src/publisher.rs:244-262 | No step brings into a tree the registry names an entry that the index has not accepted with that hash, size, time and content code |
| RegistryLaws.StepKeepsBindings | crates/registryd/src/index.rs:136-153 | No step changes anything of an accepted record but status and time of publication, or makes a settled record pending |
| RegistryLaws.RunsKeepInv | crates/registryd/src/publisher.rs:215-299 | The same between any two points of any run |
| RegistryLaws.PublishedIsNeverLost | crates/registryd/src/publisher.rs:151-162 | At every point of every run a published record is found, with its index hash, under the root the writer would build on; where there is no such root the writer gets an error, never "no root" |
| RegistryLaws.ReadersSeePublished | crates/registryd/src/publisher.rs:253-290 | At every point a reader of a readable document finds every published key of the partition its digest names, with the hash first accepted for it, and the value is in the store - unless a sweep came between the two root writes |
| RegistryLaws.SweepTakesNothingNeeded | crates/registryd/src/gc.rs:129-180 | A sweep in any run keeps the tree of every writer root, every indexed value - pending ones included - and every readable document entry |
| RegistryLaws.CrashAndSweepHideKey | crates/registryd/src/gc.rs:138-153 | The proviso for readers is needed: after a crash between the two root writes and a sweep that protects what the code protects and no more, a published key's partition has a readable document entry under which the key is not found with any hash |
| RegistryScenario.DocumentCanBeAhead | crates/registryd/src/publisher.rs:215-273 | A run from the empty registry reaches that point: one key published, a second of its partition submitted and its root written to the document, for any two records of one partition whose blobs have different hashes |
| RegistryScenario.ReadersCanLoseKey | crates/registryd/src/gc.rs:138-153 | So a run from the empty registry ends with a published key that readers of a readable document entry find with no hash |
| RegistryScenario.SimilarityIndexCanBeLost | crates/registry-core/src/iscc_store.rs:312-314 | A run from the empty registry after which the similarity index is lost: over any non-empty index, submit a value with the directory's own bytes, and the sweep protecting what was walked and the document's contents takes the buckets |
| RegistryLaws.DocumentSurvivesIffProtected | crates/registryd/src/gc.rs:129-180 | The document's tree and its values survive a sweep if and only if the protect set holds all they reach |
| RegistryLaws.LeastLiveProtects | crates/registryd/src/gc.rs:129-180 | Indexed values, document contents and what the writer roots reach, with nothing else, make a protect set |
| Daemon.PointerDoc.GetPartitionRoot | crates/registry-node/src/pointer_doc.rs:43-88 | A missing entry is no root; a present one whose content cannot be read is an error |
| Daemon.PointerDoc.SetPartitionRoot | crates/registry-node/src/pointer_doc.rs:92-113 | The entry names the new root and its content is stored; a failure leaves the entries as they were |
| Daemon.PathKeepsCoverage | crates/registryd/src/publisher.rs:215-299 | What is proved of runs holds of any path the daemon's code takes |
| Daemon.Daemon.CurrentRoot | crates/registryd/src/publisher.rs:154-162 | The local table first, the document only without it; an unreadable entry is an error |
| Daemon.Daemon.OtherTasks | crates/registryd/src/api.rs:220-235 | Whatever API calls, operators and disk damage do between two writes of a task is a path of the state machine that takes no queue row away, changes no record and no tree, moves no root, and loses no blob but document contents that were stored |
| Daemon.Daemon.PublisherStep | crates/registryd/src/publisher.rs:215-299 | From wherever the publisher stands, its next write is a step of the state machine |
| Daemon.Daemon.AnyTasks | crates/registryd/src/api.rs:265-391 | Between two steps of a batch submission other submissions, requeues, damage and the publisher at any of its writes may act, and all of it is a path of the state machine; with nobody else connected nothing happens |
| Daemon.Daemon.BuildRoot | crates/registryd/src/publisher.rs:253-262 | Reaches the built stage with a root that denotes the writer's tree with the rows' entries inserted, or gives up with index and document as they were - which, where nothing fails by itself, takes an unreadable root, an exhausted digest or a hash clash |
| Daemon.Daemon.PublishRoot | crates/registryd/src/publisher.rs:253-280 | Build, document, local root in that order, with other tasks and failures in between; on success both roots of the partition name the tree with the entries of exactly the rows that are not denied, and no other partition's root, no tree and no record has changed; nothing is written for a partition whose rows are all denied |
| Daemon.Daemon.PublishPartition | crates/registryd/src/publisher.rs:240-291 | The rows are finished only after the root is recorded; on success every record of a row is published, or denied if its key is, no other record has changed, exactly the partition's rows are gone, and the count is that of the rows not denied; on failure some of that and nothing else |
| Daemon.Daemon.GroupRows | crates/registryd/src/publisher.rs:228-236 | Each partition gets exactly its rows, and in sequence order if the batch was |
| RegistryInv.GroupedInOrder | crates/registryd/src/publisher.rs:228-236 | Grouping keeps the order of the queue within each partition |
| Daemon.Daemon.BeginCycle | crates/registryd/src/publisher.rs:215-236 | A cycle starts with the oldest rows, grouped, under the guard; with none there is no cycle and nothing changes |
| Daemon.Daemon.PublishGroups | crates/registryd/src/publisher.rs:240-299 | All partitions of a batch: on success the whole batch is done and the count is that of its rows not denied, on failure some of it and nothing else |
| Daemon.Daemon.PublishCycle | crates/registryd/src/publisher.rs:215-299 | A path of the state machine however it ends. On success exactly the oldest rows are gone, each one's record is published or, if its key is denied, denylisted, no other record has changed, the tree of every partition is the old one with the entries of exactly its rows that are not denied, and the count is theirs. On failure no record and no root has changed in any other way. Where nothing fails by itself it fails only on a hash clash or a partition that is stuck - root unreadable or digest exhausted |
| Cycles.CycleMeans | crates/registryd/src/publisher.rs:240-291 | For every row of a successful cycle: the record's final status, and for a key not denied the time, the new root in local table and document, and that the key is found under it with its index hash; a denied key is in its partition's tree only if it was before |
| Cycles.TreeGains | crates/registryd/src/publisher.rs:244-262 | A partition's tree gained exactly the keys of the batch's rows in it that are not denied, each with its record's entry |
| Maintenance.SeedLocalRoots | crates/registryd/src/publisher.rs:194-211 | With other tasks and sweeps acting between its writes, a path of the state machine; adds local roots only where there were none, from the document, counts them, and changes none; of the partitions with an entry only those whose read failed are left without one, and where reads do not fail by themselves each of them was unreadable at some point of the call |
| Maintenance.HealPointerDoc | crates/registryd/src/publisher.rs:169-190 | With other tasks and sweeps acting between its writes, a path of the state machine; replaces exactly the entries it counts, by the local roots, and where reads do not fail by themselves only entries that were missing or unreadable at some point; at the end every locally known partition is readable but for contents that were stored during the call and lost |
| Maintenance.WriterRoots | crates/registryd/src/gc.rs:138-153 | The root of every partition as the writer has it; any unreadable entry without a local root ends the run |
| Maintenance.CollectLive | crates/registryd/src/gc.rs:129-180 | The protect set lies between two bounds, whatever walk was skipped over: it has every indexed value and every document content, and nothing but indexed values, what the writer roots reach, document contents and parts of the similarity index. With no tree walk skipped, and none is on a reliable store, the walked set is exactly the indexed values and what the writer roots reach; with the index walked, a sweep keeps it if and only if its root is not in the walked set, or all of the index is in it or among the document's contents. A reliable store and database with everything readable give a set |
| Maintenance.CollectGarbage | crates/registryd/src/gc.rs:73-127 | Skipped while a cycle or submission is active, given up on an enumeration error, and done when nothing fails by itself and all is readable. A sweep leaves exactly the blobs of the protect set: no indexed value and no document content goes, and every blob that belongs to no value, writer tree, similarity index or document goes. A run with no tree walk skipped is a step of the state machine and keeps its invariant; one that walked the similarity index keeps it if and only if the index's root was not in the walked set or all of the index was marked besides |
| Maintenance.ApartIsNotWalked | crates/registryd/src/gc.rs:129-171 | A root that is no indexed value and no trie node is in no walked set, so its index is kept |
| Maintenance.RunPublisher | crates/registryd/src/publisher.rs:67-140 | From startup to shutdown - seed, heal, rounds with other tasks, healing, cycles and garbage collection, final drain, any of them failing - a path of the state machine: no binding changes and no published record is lost, as long as no sweep skipped a tree walk |
| HamtWalk.SweepSafeIffReachProtected | crates/registryd/src/gc.rs:155-159 | A sweep keeps a stored tree and its values if and only if the protect set holds all the tree reaches |
| HamtWalk.UnmarkedChildLosesTree | crates/registryd/src/gc.rs:155-159 | With one child's root not marked, the tree does not survive the sweep with its values |
| HamtWalk.FailedWalkLosesTree | crates/registryd/src/gc.rs:155-159 | A walk that failed below one child - the node at which it failed is itself marked - and was skipped over costs the tree, if a later child's root was not marked by something else |
| Maintenance.AuditPartition | crates/registryd/src/verify.rs:104-141 | Exactly the published keys of the partition and exactly the keys of the writer's tree |
| Maintenance.RequeueAll | crates/registryd/src/verify.rs:166-176 | Requeues every key given, counting each, and takes no row away |
| Maintenance.Audit | crates/registryd/src/verify.rs:65-184 | Every counter counts its set: published keys, keys held, published keys not held, held keys not published, partitions with gaps; with fix every missing key ends queued and is counted; without fix nothing changes |
| Maintenance.CountsNext | crates/registryd/src/verify.rs:140-155 | One partition adds to each counter exactly what its keys add to the set it counts |
| Maintenance.CycleDrains | crates/registryd/src/publisher.rs:215-225 | With nobody else writing a successful cycle takes exactly min(max, depth) rows off the queue |
| Maintenance.Drain | crates/registryd/src/publisher.rs:127-137 | Cycles until the queue is empty terminate; from a state where every missing key is queued, none is missing at the end, whatever the denylist was in each cycle |
| Maintenance.Repair | crates/registryd/src/verify.rs:65-184 | From any well-formed roots, foreign entries included, an audit with fix and a drain leave no published key missing |
| Api.ValidatedIsAcceptable | crates/registryd/src/api.rs:168-198 | A validated record is pending, in the partition of its key's digest, and claims the hash of the very bytes to be stored |
| Api.ValidationMeans | crates/registryd/src/api.rs:168-198 | Which records are refused and for which reason - key, value, size, in that order - and every field of the record an accepted one becomes |
| Api.SameState | crates/registryd/src/api.rs:298-341 | Leaving out keys known at the precheck, the commit gives the index that submitting every valid, stored record in slot order gives |
| Api.Precheck | crates/registryd/src/api.rs:298-341 | Answers known keys from the index and passes on exactly the others, in slot order |
| Api.StoreValues | crates/registryd/src/api.rs:343-358 | Each stored value is a step of the state machine with other tasks in between; a failed blob write rejects its own slot only; exactly the submissions whose values were stored are in flight |
| Api.CommitBatch | crates/registryd/src/api.rs:360-368 | All prepared records in one transaction, a single step; if it fails they are let go and the index is as it was |
| Api.FillOutcomes | crates/registryd/src/api.rs:370-385 | Each outcome goes to its own slot and no other slot changes |
| Api.EverySlot | crates/registryd/src/api.rs:281-385 | Whichever phase answered a slot, it holds the outcome of the sequential submission at that slot |
| Api.SubmitBatch | crates/registryd/src/api.rs:265-391 | A path of the state machine under the write guard, with every other task acting between its steps. The indexes at the precheck and at the commit are those of states on that path, the final state is the commit's, and with nobody else connected both are the index the batch began with. The batch answers and acts as if its valid, stored records had been submitted one at a time in slot order at the moment of its commit; every slot is filled; only slots of keys unknown at the precheck can fail; every indexed value is stored; exactly the oversized batches are refused as such, and a reliable database fails no other |
| Api.AnswersMean | crates/registryd/src/api.rs:298-385 | What every answer says, in terms of the index at the commit and the slots before: accepted as new exactly when nothing had the key; duplicate exactly when the key was bound to the slot's own hash; a conflict exactly when to another, which it names and the final index has; rejected for the validation's reason or a failed write; and the partition is that of the key's digest |
| Bits.PopSplit | crates/registry-core/src/similarity.rs:30-32 | The number of ones is the sum over the two parts of a split at any bit |
| Bits.XorSplit | crates/registry-core/src/similarity.rs:63-72 | Exclusive or commutes with shifting and masking |
| Bits.AndMask | crates/registry-core/src/similarity.rs:66-71 | Masking with n ones is the remainder by 2^n |
| Bits.SetHighBit | crates/registry-core/src/similarity.rs:247-251 | Setting a bit above all others adds its power of two and one to the number of ones |
| Similarity.NewBands | crates/registry-core/src/similarity.rs:43-59 | Accepts exactly the counts for which some width makes that many bands 64 bits, and then the band width is that width |
| Similarity.BandsAreTheCode | crates/registry-core/src/similarity.rs:63-74 | A code's bands, read from the first to the last, are the code: the most significant band comes first, and none overlap or leave a gap |
| Similarity.DistanceIsSumOfBands | crates/registry-core/src/similarity.rs:30-72 | The Hamming distance of two codes is the sum of the distances of their bands |
| Similarity.SomeBandIsClose | crates/registry-core/src/similarity.rs:91-107 | Pigeonhole: fewer than bands times (radius + 1) differing bits leave a band with at most radius |
| Similarity.NextMasks | crates/registry-core/src/similarity.rs:246-253 | From all masks with k ones to all masks with one more, each exactly once |
| Similarity.BitFlipMasks | crates/registry-core/src/similarity.rs:241-257 | Every mask below 2^width with at most radius ones, each exactly once, and nothing else |
| Similarity.QueryBuckets | crates/registry-core/src/similarity.rs:91-107 | Exactly the buckets whose value is within the probe radius of the query's in their band, each once; the fast path for radius 0 included |
| Similarity.CloseCodesMeet | crates/registry-core/src/similarity.rs:86-107 | Codes closer than bands times (probe + 1) share a probed bucket |
| Similarity.MissedCode | crates/registry-core/src/similarity.rs:86-107 | For every query there is a code at exactly that distance that no probe meets, when a probe is narrower than a band |
| Similarity.RecallBoundIsExact | crates/registry-core/src/similarity.rs:86-107 | Every code closer than a bound is met if and only if the bound is at most bands times (probe + 1) or a probe covers a whole band |
| Matching.Verify | crates/registry-core/src/similarity.rs:147-180 | One row per key with a candidate within the radius, at that key's least distance, ordered by distance and key; depends on the set of candidates only |
| Matching.AnswerIsUnique | crates/registry-core/src/similarity.rs:147-180 | Where each key has one code there is exactly one such answer |
| Matching.AnswerAscends | crates/registry-core/src/similarity.rs:147-180 | Nearest first, and among equally near matches in key order |
| Matching.DedupSpec | crates/registry-core/src/similarity.rs:177-178 | After the sort, dropping adjacent repetitions leaves each key once and drops no key |
| Matching.BestOfSpec | crates/registry-core/src/similarity.rs:148-160 | The recorded distance of a key is attained, is within the radius and is the least; a key without one has no candidate within the radius |
| Matching.IsccIndex.Insert | crates/registry-core/src/similarity.rs:204-215 | The member is appended to those of its buckets that do not know its key and nothing else changes |
| Matching.InsertedHolds | crates/registry-core/src/similarity.rs:204-215 | While each key has one code, insertion puts the member in exactly its own buckets |
| Matching.IsccIndex.Candidates | crates/registry-core/src/similarity.rs:222-230 | Exactly the members of the probed buckets |
| Matching.IsccIndex.Query | crates/registry-core/src/similarity.rs:233-235 | The exact answer over the members with a bucket among the probed ones |
| Matching.RecallBound | crates/registry-core/src/similarity.rs:86-107 | Every member within the radius and closer than bands times (probe + 1) is found, at its distance or less, and nothing is found that is not a member within the radius |
| IsccStore.AddedMembers | crates/registry-core/src/iscc_store.rs:207-260 | A bucket holds what it held and what was added: nothing is lost where a segment ends |
| IsccStore.AddingKeepsDiscipline | crates/registry-core/src/iscc_store.rs:207-260 | All segments but the last stay full (an old list, standing first, may be longer) and every full segment stays where it was |
| IsccStore.CountAdded | crates/registry-core/src/iscc_store.rs:218-247 | The count grows by exactly the members the tail gained |
| IsccStore.UnchangedIffInOpenTail | crates/registry-core/src/iscc_store.rs:224-239 | Adding leaves a bucket as it is if and only if its open tail holds everything added already |
| IsccStore.StorageKeyInjective | crates/registry-core/src/similarity.rs:121-123 | Distinct buckets have distinct storage keys |
| IsccStore.StorageKeyOrder | crates/registry-core/src/similarity.rs:118-123 | Storage keys have one length and sort as their buckets do, by band and then by value |
| IsccStore.IndexGrows | crates/registry-core/src/iscc_store.rs:31-33 | An old index root keeps denoting the same index as the store grows |
| IsccIndexStore.LoadDirectory | crates/registry-core/src/iscc_store.rs:104-137 | On an intact index of either format, its buckets or the store's own failure; on any other contents a result or an error |
| IsccIndexStore.LoadManifest | crates/registry-core/src/iscc_store.rs:139-155 | The count and segments of a bucket; an old list is one segment of whatever length |
| IsccIndexStore.Group | crates/registry-core/src/iscc_store.rs:183-191 | Each touched bucket gets exactly the batch's members whose code has it, in batch order |
| IsccIndexStore.PutChunks | crates/registry-core/src/iscc_store.rs:241-251 | Writes the tail as full segments and at most one open one, and keeps the count equal to the members stored |
| IsccIndexStore.RewriteBucket | crates/registry-core/src/iscc_store.rs:207-256 | Only the open tail is taken off; the new manifest denotes the bucket with the members added |
| IsccIndexStore.CarryOver | crates/registry-core/src/iscc_store.rs:193-205 | Untouched buckets keep their contents, old lists getting a manifest |
| IsccIndexStore.InsertBatch | crates/registry-core/src/iscc_store.rs:169-261 | From an index in either format the new root denotes, in the current format, the index with the batch added; the old root still denotes the old index; only the store's own failures are reported |
| IsccIndexStore.BatchIndexes | crates/registry-core/src/iscc_store.rs:169-261 | After a batch each bucket holds exactly the members, old and new, whose code has it |
| IsccIndexStore.BatchesIndex | crates/registry-core/src/iscc_store.rs:169-261 | The same after any run of batches |
| IsccIndexStore.NewIndexHolds | crates/registry-core/src/iscc_store.rs:169-261 | In particular a new index holds exactly the members of its batches |
| IsccIndexStore.OldFormatIsDisciplined | crates/registry-core/src/iscc_store.rs:125-137 | An index found in the old format satisfies the segment discipline |
| IsccIndexStore.BatchesKeepDiscipline | crates/registry-core/src/iscc_store.rs:207-260 | Over any run of batches the segment discipline holds in every bucket and what was full at the start is still in front, unchanged |
| IsccIndexStore.RootIsCanonical | crates/registry-core/src/iscc_store.rs:253-261 | In the current format two roots are the same hash if and only if they hold the same index |
| IsccIndexStore.SameRootIffRedelivered | crates/registry-core/src/iscc_store.rs:164-168 | A batch returns the root it started from if and only if every bucket it touches has an open tail already holding its members |
| IsccIndexStore.LoadBucket | crates/registry-core/src/iscc_store.rs:287-292 | All members of a bucket, across its segments |
| IsccIndexStore.Query | crates/registry-core/src/iscc_store.rs:267-301 | On an intact index the exact answer over the probed buckets, stored duplicates collapsed; otherwise an answer or an error |
| IsccIndexStore.PostedIsReachable | crates/registry-core/src/iscc_store.rs:280-294 | What the probed buckets of the stored index hold is what the members' codes say a query can see |
| IsccIndexStore.StoreAnswersLikeMemory | crates/registry-core/src/iscc_store.rs:267-301 | For the same members, each key with one code, the stored index and the in-memory one return the same sequence of matches |
| IsccIndexStore.StoreAll | crates/registry-core/src/iscc_store.rs:169-261 | Any number of batches on a new index gives the index of all of them, or the store's failure |
| IsccIndexStore.RememberAll | crates/registry-core/src/similarity.rs:204-215 | The same batches inserted member by member put every member in exactly its own buckets of the in-memory index |
| IsccIndexStore.BothAnswer | crates/registry-core/src/iscc_store.rs:1-4 | The same batches into a stored index and an in-memory one, and the same query to both, give the same sequence of matches, unless the store fails |
| IsccIndexStore.StoredRecall | crates/registry-core/src/iscc_store.rs:267-301 | The recall bound for the stored index, over any run of batches on an index of either format |
| IsccIndexStore.CollectIndex | crates/registry-core/src/iscc_store.rs:307-329 | Marks the directory, every manifest and every segment - unless the root was marked already, when nothing below it is looked at: it marks nothing that is no part of the index; after a walk that succeeds a sweep keeps the index if and only if the root was not marked before or all of it was |
| IsccIndexStore.SweepKeepsIndexIffMarked | crates/registry-core/src/iscc_store.rs:303-329 | A sweep keeps an index if and only if its directory, manifests and segments, or old lists, are all marked |
| IsccIndexStore.UnmarkedBucketLosesIndex | crates/registry-core/src/iscc_store.rs:303-329 | With one bucket's blob not marked the index is lost to the sweep, whether its root is marked or not |
| CidKey.ConvertRoundTrip | crates/registry-core/src/cidkey.rs:60-62 | The base-x conversion - one zero per leading zero, then the minimal digits - is undone by the conversion back, for any two bases |
| CidKey.ShiftIn | crates/registry-core/src/cidkey.rs:66-77 | Multiplying the little-endian number by 32 and adding a digit, in place, with a carry that never exceeds 31 between bytes and no zero on top |
| CidKey.DigitIsPosition | crates/registry-core/src/cidkey.rs:64-67 | A character's digit is its position in the alphabet, and other characters have none |
| CidKey.DecodeBase32 | crates/registry-core/src/cidkey.rs:63-82 | Succeeds exactly on texts of the alphabet and gives one zero byte per leading `a` and the minimal big-endian bytes of the value |
| CidKey.DecodeInjective | crates/registry-core/src/cidkey.rs:63-82 | Two texts that decode to the same bytes are the same text |
| CidKey.LengthFilterIsLossless | crates/registry-core/src/cidkey.rs:49-53 | Whatever decodes to 36 bytes starting 0x01 has 57 characters |
| CidKey.IsLegacyDeclarationId | crates/registry-core/src/cidkey.rs:48-58 | Accepts exactly the texts that decode to the four header bytes and a 32-byte digest, the length filter notwithstanding |
| CidKey.OneIdPerDigest | crates/registry-core/src/cidkey.rs:42-58 | Every 32-byte digest has exactly one legacy identifier |

## Left out

- iroh networking, `IrohBlobStore` prefetch, stall guard and retries, node and key bootstrap: a store call is one that may fail.
- HTTP routing, tokens, response texts, configuration, `storectl`, `registry-viewer`, `iscc.rs` and hex conversion: presentation, or easy round trips.
- `bulk_load.rs`, `update_created_at` and `verify::set_root`: a root set by hand appears only as the arbitrary well-formed state `Maintenance.Repair` starts from.
- `warm_cache`: it reads what the other walks read.
- Maintenance.CollectGarbage: one run is a single step taken while no cycle or submission is active; a submission that begins between the sample of `active_writes` (`gc.rs:84`) and the sweep is not covered. Where trees hold entries the index never accepted nothing is promised of trees: a foreign entry's value hash that is also a node's would count as visited.
- Maintenance.RunPublisher: starts from trees whose entries the index accepted, and nothing is promised after a sweep that skipped over a tree walk.
- Maintenance.HealPointerDoc: one document write, its content blob and its entry, is a single step, so no sweep comes between those two; with a collector running, the trees must hold only entries the index accepted, and nothing is promised after a sweep that skipped over a tree walk.
- Maintenance.SeedLocalRoots: with a collector running, as for healing.
- Maintenance.Audit: audits all partitions; auditing a single one, and the file that spills the published keys, are not modelled.
- Api.SubmitBatch: the blob writes of one batch are made in slot order, not concurrently; a failed task join and a failed write are the same failure; a second batch at the same time appears as other tasks that store values one by one and commit any number of them at once.
- Api.ValidatedIsAcceptable: time stamps are opaque values, so the fallback to the time of import is part of the uninterpreted function.
- Daemon.Daemon.PublishCycle: one time stamp for the whole cycle, where the code takes the time anew for each partition and status; other tasks act between the writes of a cycle, not in the middle of the node writes of one insertion, where nothing yet refers to what is written.
- HamtStore.BuildSubtree: digests are recomputed from keys instead of being carried beside the entries.
- HamtWalk.WalkEntriesParallel: the deadline and the semaphore are arbitrary choices, and prefetching is a no-op.
- IsccIndexStore.InsertBatch: on a damaged index only that the store keeps what it held; a manifest whose count is below its tail's length, which the code's unsigned subtraction does not expect, ends the batch with an error.
- CidKey.DecodeBase32: works on the UTF-8 bytes of the text, as the code does; the `cid` crate behind `is_valid_cidv1` is not part of this model.
- Sequence numbers, counts and sizes are unbounded: the 64-bit limits of the queue number and the member counts are not modelled.
