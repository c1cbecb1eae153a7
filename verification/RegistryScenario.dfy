/** Two runs from the empty registry that lose something. In the first, one key is published, and the cycle
    publishing a second key of its partition has written the document and not yet the local root when it
    crashes. In the second, a submitted value is the similarity index's own directory. */
module RegistryScenario {
  import opened Wrappers
  import opened Ordering
  import opened Digests
  import opened Blobs
  import opened NodeCodec
  import opened HamtTree
  import opened HamtStore
  import opened Index
  import opened Registry
  import opened RegistryInv
  import opened RegistryLaws
  import opened Daemon
  import opened IsccStore
  import opened IsccIndexStore
  import opened Maintenance

  // ----- A submission and a publication of one row, as paths

  /** The value is stored and the record committed. */
  function Queued(s: Sys, sub: Submission, value: Bytes): Sys {
    s.(index := SubmitOne(s.index, sub), blobs := s.blobs[Blake3(value) := value])
  }

  lemma SubmitPath(start: Sys, s: Sys, sub: Submission, value: Bytes)
    requires Reaches(start, s) && s.inflight == multiset{}
    requires Validated(sub) && IsValue(value) && sub.record.contentHash == Blake3(value) && Storable(s.blobs, value)
    ensures Reaches(start, Queued(s, sub, value))
  {
    hide Reaches, IsValue, Validated, SubmitOne;
    ReachesStep(start, s, Accept(sub, value));
    var accepted := s.(blobs := s.blobs[Blake3(value) := value], inflight := multiset{sub});
    assert After(s, Accept(sub, value)) == accepted;
    SubmitAllOfOne(s.index, sub);
    ReachesStep(start, accepted, Commit([sub]));
    assert After(accepted, Commit([sub])) == Queued(s, sub, value);
  }

  lemma SubmitAllOfOne(index: IndexState, sub: Submission)
    ensures SubmitAll(index, [sub]) == SubmitOne(index, sub)
  {
    assert [sub][..0] == [] && SubmitAll(index, []) == index;
  }

  function LeafRoot(leaf: seq<LeafEntry>): Hash {
    Blake3(Encode(Leaf(leaf)))
  }

  /** The cycle has taken the row, stored the partition's new leaf and written the document. */
  function Written(s: Sys, row: Row, leaf: seq<LeafEntry>): Sys {
    var p := row.record.partitionId;
    WithDoc(s.(blobs := s.blobs[LeafRoot(leaf) := Encode(Leaf(leaf))]), p, LeafRoot(leaf))
      .(publisher := Busy({}, map[p := [row]], DocWritten(p, LeafRoot(leaf))))
  }

  /** The leaf is what the partition's current tree becomes with the row's entry. */
  ghost predicate Grown(s: Sys, row: Row, leaf: seq<LeafEntry>, current: Option<Hash>, t: Tree) {
    && WriterRoot(s, row.record.partitionId) == Success(current)
    && Represents(s.blobs, current, t) && WellFormed(t, 0)
    && HamtLaws.InsertBatch(t, [row.record.LeafEntryFor(row.key)], {}, LEAF_MAX) == Success(Bucket(leaf))
  }

  lemma WritePath(start: Sys, s: Sys, row: Row, leaf: seq<LeafEntry>, current: Option<Hash>, t: Tree)
    requires Reaches(start, s) && s.publisher == Idle && OldestRows(s.index, 1) == [row] && EntrySerializer()
    requires Grown(s, row, leaf, current, t)
    requires Storable(s.blobs, Encode(Leaf(leaf)))
    requires Storable(s.blobs[LeafRoot(leaf) := Encode(Leaf(leaf))], LeafRoot(leaf).bytes)
    ensures Reaches(start, Written(s, row, leaf))
  {
    hide Reaches, EntrySerializer, Encode, OldestRows, HamtLaws.InsertBatch, WellFormed;
    var p, root := row.record.partitionId, LeafRoot(leaf);
    OneRow(row);
    ReachesStep(start, s, Begin(1, {}));
    var begun := s.(publisher := Busy({}, map[p := [row]], Choosing));
    assert After(s, Begin(1, {})) == begun;
    var grown := s.blobs[root := Encode(Leaf(leaf))];
    LeafStored(grown, root, leaf);
    assert BuildsOn(s.blobs, current, [row], root, grown);
    ReachesStep(start, begun, Build(p, root, grown));
    var built := begun.(blobs := grown, publisher := Busy({}, map[p := [row]], Built(p, root)));
    assert After(begun, Build(p, root, grown)) == built;
    ReachesStep(start, built, WriteDoc);
    assert After(built, WriteDoc) == Written(s, row, leaf);
  }

  /** A batch of one row is its partition's, denied by nobody, and one entry. */
  lemma OneRow(row: Row)
    ensures Registry.Group([row]) == map[row.record.partitionId := [row]]
    ensures Select([row], {}, false) == [row] && Select([row], {}, true) == []
    ensures EntriesOf([row]) == [row.record.LeafEntryFor(row.key)] && ItemsOf([row]) == [Item(row.seq_, row.key)]
  {
    assert [row][..0] == [];
    assert Registry.Group([]) == map[];
    assert [] + [row] == [row];
    assert Select([], {}, false) == [] && Select([], {}, true) == [];
  }

  /** The rest of the cycle: the local root recorded and the row finished. */
  function Done(s: Sys, row: Row, root: Hash): Sys {
    var index := s.index.(localRoots := s.index.localRoots[row.record.partitionId := root]);
    s.(index := FinishOne(index, Item(row.seq_, row.key), Published, 0), publisher := Idle)
  }

  lemma FinishPath(start: Sys, s: Sys, row: Row, root: Hash)
    requires Reaches(start, s)
    requires var p := row.record.partitionId; s.publisher == Busy({}, map[p := [row]], DocWritten(p, root))
    ensures Reaches(start, Done(s, row, root))
  {
    hide Reaches, FinishOne;
    var p := row.record.partitionId;
    OneRow(row);
    ReachesStep(start, s, WriteLocalRoot);
    var index := s.index.(localRoots := s.index.localRoots[p := root]);
    var recorded := s.(index := index, publisher := Busy({}, map[p := [row]], Recorded(p)));
    assert After(s, WriteLocalRoot) == recorded;
    ReachesStep(start, recorded, MarkPublished(0));
    FinishAllOfOne(index, Item(row.seq_, row.key));
    var index' := FinishOne(index, Item(row.seq_, row.key), Published, 0);
    var marked := s.(index := index', publisher := Busy({}, map[p := []], Marked(p)));
    assert map[p := [row]][p := []] == map[p := []];
    assert After(recorded, MarkPublished(0)) == marked;
    ReachesStep(start, marked, MarkDenied(0));
    var chosen := s.(index := index', publisher := Busy({}, map[], Choosing));
    assert After(marked, MarkDenied(0)) == chosen;
    ReachesStep(start, chosen, End);
    assert After(chosen, End) == Done(s, row, root);
  }

  lemma FinishAllOfOne(index: IndexState, item: Item)
    ensures FinishAll(index, [item], Published, 0) == FinishOne(index, item, Published, 0)
  {
    assert [item][..0] == [] && FinishAll(index, [], Published, 0) == index;
  }

  lemma LeafStored(blobs: map<Hash, Bytes>, h: Hash, entries: seq<LeafEntry>)
    requires EntrySerializer() && h in blobs && blobs[h] == Encode(Leaf(entries)) && Blake3(blobs[h]) == h && h != ZeroHash()
    ensures Represents(blobs, Some(h), Bucket(entries)) && Stored(blobs, h) && TreeAt(blobs, h) == Bucket(entries)
    ensures RootReach(blobs, h) == {h} + set e | e in entries :: e.hash
  {
    RoundTrip(Leaf(entries), h);
    hide Encode, Decode;
    assert Represents(blobs, Some(h), Bucket(entries));
    TreeAtIs(blobs, h, Bucket(entries));
  }

  // ----- Two keys of one partition

  /** A key, a later one of the same partition, and their values. */
  datatype Pair = Pair(first: string, value: Bytes, second: string, secondValue: Bytes) {
    function Partition(): nat {
      PartitionId(Sha256(first), PARTITIONS)
    }

    function FirstRecord(): IndexRecord {
      IndexRecord(Blake3(value), |value|, Partition(), Pending, 0, None, None)
    }

    function SecondRecord(): IndexRecord {
      IndexRecord(Blake3(secondValue), |secondValue|, Partition(), Pending, 0, None, None)
    }

    function PublishedRecord(): IndexRecord {
      FirstRecord().(status := Published, publishedAt := Some(0))
    }

    /** The partition's leaf when only the first key was published. */
    function OldLeaf(): seq<LeafEntry> {
      [FirstRecord().LeafEntryFor(first)]
    }

    function NewLeaf(): seq<LeafEntry> {
      [FirstRecord().LeafEntryFor(first), SecondRecord().LeafEntryFor(second)]
    }

    function OldRoot(): Hash {
      LeafRoot(OldLeaf())
    }

    function NewRoot(): Hash {
      LeafRoot(NewLeaf())
    }

    function Hashes(): seq<Hash> {
      [Blake3(value), OldRoot(), Blake3(OldRoot().bytes), Blake3(secondValue), NewRoot(), Blake3(NewRoot().bytes)]
    }

    /** The keys are in order, of one partition and fit one leaf, and the six blobs have six hashes. */
    ghost predicate Apart() {
      && EntrySerializer() && IsValue(value) && IsValue(secondValue) && LEAF_MAX >= 2
      && LexLe(first, second) && first != second && PartitionId(Sha256(second), PARTITIONS) == Partition()
      && (forall i :: 0 <= i < 6 ==> Hashes()[i] != ZeroHash())
      && forall i, j :: 0 <= i < j < 6 ==> Hashes()[i] != Hashes()[j]
    }

    // The five states between the legs of the run.

    function Submitted(): Sys {
      Sys(IndexState(map[first := FirstRecord()], map[0 := first], 1, map[]), map[], map[Blake3(value) := value],
          multiset{}, Idle, {})
    }

    function BlobsOfFirst(): map<Hash, Bytes> {
      map[Blake3(value) := value, OldRoot() := Encode(Leaf(OldLeaf())), Blake3(OldRoot().bytes) := OldRoot().bytes]
    }

    function FirstWritten(): Sys {
      Sys(Submitted().index, map[Partition() := EntryFor(OldRoot())], BlobsOfFirst(), multiset{},
          Busy({}, map[Partition() := [Row(0, first, FirstRecord())]], DocWritten(Partition(), OldRoot())), {})
    }

    function FirstPublished(): Sys {
      Sys(IndexState(map[first := PublishedRecord()], map[], 1, map[Partition() := OldRoot()]),
          map[Partition() := EntryFor(OldRoot())], BlobsOfFirst(), multiset{}, Idle, {})
    }

    function SecondSubmitted(): Sys {
      Sys(IndexState(map[first := PublishedRecord(), second := SecondRecord()], map[1 := second], 2, map[Partition() := OldRoot()]),
          map[Partition() := EntryFor(OldRoot())], BlobsOfFirst()[Blake3(secondValue) := secondValue], multiset{}, Idle, {})
    }

    /** The cycle that publishes the second key has written the document and not yet the local root. */
    function SecondWritten(): Sys {
      Sys(SecondSubmitted().index, map[Partition() := EntryFor(NewRoot())],
          SecondSubmitted().blobs[NewRoot() := Encode(Leaf(NewLeaf()))][Blake3(NewRoot().bytes) := NewRoot().bytes], multiset{},
          Busy({}, map[Partition() := [Row(1, second, SecondRecord())]], DocWritten(Partition(), NewRoot())), {})
    }
  }

  lemma SixHashes(c: Pair)
    requires c.Apart()
    ensures var v, old_, oldContent, w, new_, newContent :=
              Blake3(c.value), c.OldRoot(), Blake3(c.OldRoot().bytes), Blake3(c.secondValue), c.NewRoot(), Blake3(c.NewRoot().bytes);
            && v != ZeroHash() && old_ != ZeroHash() && oldContent != ZeroHash()
            && w != ZeroHash() && new_ != ZeroHash() && newContent != ZeroHash()
            && v !in {old_, oldContent, w, new_, newContent} && old_ !in {oldContent, w, new_, newContent}
            && oldContent !in {w, new_, newContent} && w !in {new_, newContent} && new_ != newContent
  {
    hide EntrySerializer, IsValue, LexLe;
    var hs := c.Hashes();
    assert hs[0] != hs[1] && hs[0] != hs[2] && hs[0] != hs[3] && hs[0] != hs[4] && hs[0] != hs[5];
    assert hs[1] != hs[2] && hs[1] != hs[3] && hs[1] != hs[4] && hs[1] != hs[5];
    assert hs[2] != hs[3] && hs[2] != hs[4] && hs[2] != hs[5] && hs[3] != hs[4] && hs[3] != hs[5] && hs[4] != hs[5];
    assert hs[0] != ZeroHash() && hs[1] != ZeroHash() && hs[2] != ZeroHash() && hs[3] != ZeroHash() && hs[4] != ZeroHash()
           && hs[5] != ZeroHash();
  }

  lemma OldestOfOne(index: IndexState, n: nat, key: string)
    requires index.queue == map[n := key] && key in index.records
    ensures OldestRows(index, 1) == [Row(n, key, index.records[key])]
  {
    assert index.queue.Keys == {n};
    assert OldestOf(index, {n} - {n}, 0) == [];
  }

  lemma BatchOfOne(t: Tree, e: LeafEntry, t': Tree)
    requires WellFormed(t, 0) && Insert(t, 0, e, LEAF_MAX) == Success(t') && t' != Absent
    ensures HamtLaws.InsertBatch(t, [e], {}, LEAF_MAX) == Success(t')
  {
    hide Insert;
    InsertSpec(t, 0, e, LEAF_MAX);
    assert [e][1..] == [];
    assert HamtLaws.InsertAll(t', [], {}, LEAF_MAX) == Success(t');
  }

  lemma FirstLeaf(c: Pair)
    requires c.Apart()
    ensures HamtLaws.InsertBatch(Absent, c.OldLeaf(), {}, LEAF_MAX) == Success(Bucket(c.OldLeaf()))
  {
    hide EntrySerializer, IsValue;
    var e := c.OldLeaf()[0];
    assert [] + [e] == [e] && [e][1..] == [];
    assert SortBy(KeyLe, [e]) == [e];
    BatchOfOne(Absent, e, Bucket([e]));
  }

  lemma TwoInOrder(d: LeafEntry, e: LeafEntry)
    requires LexLe(d.key, e.key) && d.key != e.key
    ensures SortBy(KeyLe, [d] + [e]) == [d, e]
    ensures FindKey([d], e.key) == None && WellFormed(Bucket([d]), 0)
  {
    assert [d] + [e] == [d, e] && [d, e][1..] == [e] && [e][1..] == [];
    assert SortBy(KeyLe, [e]) == [e];
  }

  lemma SecondLeaf(c: Pair)
    requires c.Apart()
    ensures WellFormed(Bucket(c.OldLeaf()), 0)
    ensures HamtLaws.InsertBatch(Bucket(c.OldLeaf()), [c.NewLeaf()[1]], {}, LEAF_MAX) == Success(Bucket(c.NewLeaf()))
  {
    hide EntrySerializer, IsValue, LexLe, SortBy, FindKey, WellFormed, HamtLaws.InsertBatch, Encode;
    var d, e := c.NewLeaf()[0], c.NewLeaf()[1];
    TwoInOrder(d, e);
    BatchOfOne(Bucket([d]), e, Bucket([d, e]));
  }

  // ----- The run

  lemma FirstRound(c: Pair)
    requires c.Apart()
    ensures Reaches(NOTHING, c.FirstPublished())
  {
    hide Reaches, EntrySerializer, IsValue, LexLe, HamtLaws.InsertBatch, OldestRows, Encode, Represents;
    SixHashes(c);
    var sub, row := Submission(c.first, c.FirstRecord()), Row(0, c.first, c.FirstRecord());
    ReachesSelf(NOTHING);
    SubmitPath(NOTHING, NOTHING, sub, c.value);
    assert Queued(NOTHING, sub, c.value) == c.Submitted();
    OldestOfOne(c.Submitted().index, 0, c.first);
    FirstLeaf(c);
    AbsentIsEmpty(c.Submitted().blobs);
    WritePath(NOTHING, c.Submitted(), row, c.OldLeaf(), None, Absent);
    assert Written(c.Submitted(), row, c.OldLeaf()) == c.FirstWritten();
    FinishPath(NOTHING, c.FirstWritten(), row, c.OldRoot());
    assert Done(c.FirstWritten(), row, c.OldRoot()) == c.FirstPublished();
  }

  lemma AbsentIsEmpty(blobs: map<Hash, Bytes>)
    ensures Represents(blobs, None, Absent) && WellFormed(Absent, 0)
  {}

  lemma SecondRound(c: Pair)
    requires c.Apart()
    ensures Reaches(NOTHING, c.SecondWritten())
  {
    hide Reaches, EntrySerializer, IsValue, LexLe, HamtLaws.InsertBatch, OldestRows, Encode, Represents, RootReach, TreeAt, Stored,
         WellFormed;
    SixHashes(c);
    FirstRound(c);
    var sub, row := Submission(c.second, c.SecondRecord()), Row(1, c.second, c.SecondRecord());
    SubmitPath(NOTHING, c.FirstPublished(), sub, c.secondValue);
    assert Queued(c.FirstPublished(), sub, c.secondValue) == c.SecondSubmitted();
    OldestOfOne(c.SecondSubmitted().index, 1, c.second);
    SecondLeaf(c);
    LeafStored(c.SecondSubmitted().blobs, c.OldRoot(), c.OldLeaf());
    WritePath(NOTHING, c.SecondSubmitted(), row, c.NewLeaf(), Some(c.OldRoot()), Bucket(c.OldLeaf()));
    assert Written(c.SecondSubmitted(), row, c.NewLeaf()) == c.SecondWritten();
  }

  /** A run from the empty registry meets the condition of `CrashAndSweepHideKey`. */
  lemma DocumentCanBeAhead(c: Pair)
    requires c.Apart()
    ensures Reaches(NOTHING, c.SecondWritten())
    ensures DocumentAhead(c.SecondWritten(), c.Partition(), c.NewRoot(), c.first)
  {
    hide Reaches, EntrySerializer, BaseInv, Inv, LexLe, IsValue, Stored, TreeAt, RootReach, Represents, Encode;
    SecondRound(c);
    NothingIsFine();
    InvIsBase(NOTHING);
    PathKeepsCoverage(NOTHING, c.SecondWritten());
    SixHashes(c);
    NewRootIsUnprotected(c);
  }

  lemma NewRootIsUnprotected(c: Pair)
    requires c.Apart()
    ensures c.NewRoot() !in LeastLive(c.SecondWritten())
  {
    hide EntrySerializer, LexLe, IsValue, Stored, TreeAt, RootReach, Represents, Encode;
    SixHashes(c);
    var s := c.SecondWritten();
    LeafStored(s.blobs, c.OldRoot(), c.OldLeaf());
    forall h | h in LeastLive(s) ensures h != c.NewRoot() {
      LiveWhy(s, h);
    }
  }

  lemma InvIsBase(s: Sys)
    requires Inv(s)
    ensures BaseInv(s)
  {}

  lemma LiveWhy(s: Sys, h: Hash)
    requires h in LeastLive(s)
    ensures || h in ContentHashes(s.index)
            || (exists p :: p in s.doc && s.doc[p].content == h)
            || (exists p :: p in s.index.localRoots.Keys + s.doc.Keys && h in WriterReach(s, p))
  {}

  /** So readers can lose a published key: a run from the empty registry ends with a readable document
      entry under which the key is found with no hash at all. */
  lemma ReadersCanLoseKey(c: Pair)
    requires c.Apart()
    ensures exists s ::
              && Reaches(NOTHING, s)
              && c.first in s.index.records && s.index.records[c.first].status == Published
              && Readable(s, c.Partition())
              && forall hash :: !Resolves(s.blobs, s.doc[c.Partition()].root, c.first, hash)
  {
    hide EntrySerializer, DocumentAhead, Enabled, After, Resolves, LeastLive, Readable, LexLe, IsValue, Reaches, Encode;
    DocumentCanBeAhead(c);
    var s := c.SecondWritten();
    CrashAndSweepHideKey(s, c.Partition(), c.NewRoot(), c.first);
    var crashed := Crashed(s);
    var swept := LeastSwept(crashed);
    ReachesAlong(NOTHING, [s, crashed, swept], [Crash, LeastSweep(crashed)]);
  }

  // ----- A value with the directory's own bytes

  /** Only the record of that value, over a store that holds the index. */
  function DirectorySubmitted(stored: map<Hash, Bytes>, sub: Submission): Sys {
    Sys(IndexState(map[sub.key := sub.record], map[0 := sub.key], 1, map[]), map[], stored, multiset{}, Idle, {})
  }

  lemma DirectoryPath(stored: map<Hash, Bytes>, root: Hash, sub: Submission)
    requires root in stored && Blake3(stored[root]) == root && root != ZeroHash() && IsValue(stored[root])
    requires Validated(sub) && sub.record.contentHash == root
    ensures Reaches(NOTHING, DirectorySubmitted(stored, sub))
  {
    hide Reaches, IsValue, Validated;
    ReachesSelf(NOTHING);
    ReachesStep(NOTHING, NOTHING, Abort(stored));
    var grown := NOTHING.(blobs := stored);
    assert After(NOTHING, Abort(stored)) == grown;
    SubmitPath(NOTHING, grown, sub, stored[root]);
    assert stored[root := stored[root]] == stored;
    assert Queued(grown, sub, stored[root]) == DirectorySubmitted(stored, sub);
  }

  lemma BucketIsNotRoot(stored: map<Hash, Bytes>, root: Hash, p: Postings, k: string)
    requires IndexAt(stored, Some(root), p) && k in p
    ensures root in stored && Blake3(stored[root]) == root
    ensures DirectoryRefs(BlobAt(stored, root).value)[k].hash != root
  {
    DirectoryIs(stored, root, p);
    var ref := DirectoryRefs(BlobAt(stored, root).value)[k];
    assert RefAt(stored, ref, p[k]);
    assert [ref.hash][0] == ref.hash;
  }

  /** So the similarity index can be lost: whatever non-empty index the store holds, submitting its
      directory's bytes as a value puts its root among what is walked before the index is, and the sweep
      that protects this and the document's own contents takes the buckets. */
  lemma SimilarityIndexCanBeLost(stored: map<Hash, Bytes>, entry: DocEntry, p: Postings, k: string, sub: Submission)
    requires IndexAt(stored, Some(entry.root), p) && entry.root != ZeroHash() && IsValue(stored[entry.root])
    requires k in p && DirectoryRefs(BlobAt(stored, entry.root).value)[k].hash != entry.content
    requires Validated(sub) && sub.record.contentHash == entry.root
    ensures var s := DirectorySubmitted(stored, sub);
            var swept := s.(blobs := Kept(s.blobs, Walked(s) + OwnContents(s, Some(entry))));
            && Reaches(NOTHING, s) && entry.root in Walked(s)
            && Reaches(NOTHING, swept) && swept.index == s.index
            && !IndexAt(swept.blobs, Some(entry.root), p)
  {
    hide Reaches, IsValue, Validated, IndexAt, Enabled, After, Protects, Represents, BlobAt;
    BucketIsNotRoot(stored, entry.root, p, k);
    DirectoryPath(stored, entry.root, sub);
    var s := DirectorySubmitted(stored, sub);
    assert s.index.records[sub.key].contentHash in ContentHashes(s.index);
    var live := Walked(s) + OwnContents(s, Some(entry));
    assert live == {entry.root, entry.content};
    UnmarkedBucketLosesIndex(stored, live, entry.root, p, k);
    MoreProtects(s, live);
    CollectStep(s, live);
    ReachesStep(NOTHING, s, Collect(live, Kept(s.blobs, live)));
    assert s.dangling + AheadIn(s) == s.dangling;
  }

  lemma MoreProtects(s: Sys, live: set<Hash>)
    requires LeastLive(s) <= live
    ensures Protects(s, live)
  {
    hide Represents;
    LeastLiveProtects(s);
    forall p | p in s.doc ensures s.doc[p].content in live { assert s.doc[p].content in LeastLive(s); }
  }
}
