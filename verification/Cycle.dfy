/** What a publish cycle leaves behind: which records changed and to what, and what each partition's tree
    became (`registryd/src/publisher.rs`). */
module Cycles {
  import opened Wrappers
  import opened Digests
  import opened NodeCodec
  import opened HamtTree
  import HamtLaws
  import opened HamtStore
  import opened Index
  import opened Registry
  import opened RegistryInv
  import opened RegistryLaws

  // ----- What other tasks leave alone

  ghost predicate KeepsRecords(a: IndexState, b: IndexState) {
    forall k :: k in a.records ==> k in b.records && b.records[k] == a.records[k]
  }

  /** No record, root or tree that was there is another one now. */
  ghost predicate Quiet(s: Sys, s': Sys) {
    && KeepsRecords(s.index, s'.index) && KeepsTrees(s.blobs, s'.blobs)
    && s'.index.localRoots == s.index.localRoots && s'.doc == s.doc
  }

  lemma QuietSelf(s: Sys)
    ensures Quiet(s, s)
  {}

  lemma QuietOn(a: Sys, b: Sys, c: Sys)
    requires Quiet(a, b) && Quiet(b, c)
    ensures Quiet(a, c)
  {
    hide Stored, TreeAt;
  }

  lemma QuietParts(s: Sys, s': Sys)
    ensures Quiet(s, s') <==>
              && KeepsRecords(s.index, s'.index) && KeepsTrees(s.blobs, s'.blobs)
              && s'.index.localRoots == s.index.localRoots && s'.doc == s.doc
    ensures s.index == s'.index && s.blobs == s'.blobs && s.doc == s'.doc ==> Quiet(s, s')
  {}

  lemma SameRecords(a: IndexState, b: IndexState)
    requires b.records == a.records
    ensures KeepsRecords(a, b)
  {}

  lemma SameTrees(blobs: map<Hash, Bytes>)
    ensures KeepsTrees(blobs, blobs)
  {}

  // ----- Records

  function FinalStatus(key: string, denied: set<string>): RecordStatus {
    if key in denied then Denylisted else Published
  }

  /** The records of `keys` have their final status, the others are as they were. */
  ghost predicate RecordsDone(a: IndexState, b: IndexState, keys: set<string>, denied: set<string>, now: int) {
    forall k :: k in a.records ==>
      k in b.records && b.records[k] == if k in keys then a.records[k].Settled(FinalStatus(k, denied), now) else a.records[k]
  }

  /** Some of the records of `keys` have their final status, the others are as they were. */
  ghost predicate RecordsPartly(a: IndexState, b: IndexState, keys: set<string>, denied: set<string>, now: int) {
    forall k :: k in a.records ==>
      && k in b.records
      && (b.records[k] == a.records[k] || (k in keys && b.records[k] == a.records[k].Settled(FinalStatus(k, denied), now)))
  }

  lemma RecordsOn(
    a: IndexState, b: IndexState, c: IndexState, x: set<string>, y: set<string>, denied: set<string>, now: int
  )
    requires RecordsDone(a, b, x, denied, now) && RecordsDone(b, c, y, denied, now)
    ensures RecordsDone(a, c, x + y, denied, now)
  {}

  lemma RecordsPartlyOn(
    a: IndexState, b: IndexState, c: IndexState, x: set<string>, y: set<string>, denied: set<string>, now: int
  )
    requires RecordsPartly(a, b, x, denied, now) && RecordsPartly(b, c, y, denied, now)
    ensures RecordsPartly(a, c, x + y, denied, now)
  {}

  lemma KeptIsDone(a: IndexState, b: IndexState, denied: set<string>, now: int)
    requires KeepsRecords(a, b)
    ensures RecordsDone(a, b, {}, denied, now)
  {}

  lemma DoneIsPartly(a: IndexState, b: IndexState, keys: set<string>, denied: set<string>, now: int)
    requires RecordsDone(a, b, keys, denied, now)
    ensures RecordsPartly(a, b, keys, denied, now)
  {}

  ghost function RowKeys(rows: seq<Row>): set<string> {
    set row | row in rows :: row.key
  }

  /** Finishing rows of which all are denied, or none, settles their records. */
  lemma FinishSettles(index: IndexState, rows: seq<Row>, status: RecordStatus, now: int, denied: set<string>)
    requires Valid(index) && AreRows(index, ItemsOf(rows)) && status != Pending
    requires forall row :: row in rows ==> FinalStatus(row.key, denied) == status
    ensures RecordsDone(index, FinishAll(index, ItemsOf(rows), status, now), RowKeys(rows), denied, now)
    ensures FinishAll(index, ItemsOf(rows), status, now).localRoots == index.localRoots
  {
    hide Valid, AreRows, FinishAll;
    FinishAllSpec(index, ItemsOf(rows), status, now);
    KeysOfItems(rows);
  }

  lemma KeysOfItems(rows: seq<Row>)
    ensures KeysOf(ItemsOf(rows)) == RowKeys(rows)
  {
    var items := ItemsOf(rows);
    forall k | k in RowKeys(rows) ensures k in KeysOf(items) {
      var row :| row in rows && row.key == k;
      var i :| 0 <= i < |rows| && rows[i] == row;
      assert items[i].key == k;
    }
    forall k | k in KeysOf(items) ensures k in RowKeys(rows) {
      var i :| 0 <= i < |items| && items[i].key == k;
      assert rows[i] in rows;
    }
  }

  lemma SelectedKeys(rows: seq<Row>, denied: set<string>)
    ensures RowKeys(Select(rows, denied, false)) + RowKeys(Select(rows, denied, true)) == RowKeys(rows)
  {
    forall k | k in RowKeys(rows) ensures k in RowKeys(Select(rows, denied, false)) + RowKeys(Select(rows, denied, true)) {
      var row :| row in rows && row.key == k;
      assert row in Select(rows, denied, k in denied);
    }
  }

  // ----- Trees

  /** The root a partition's writer goes by, whether it can be read or not. */
  function NamedRoot(s: Sys, p: nat): Option<Hash> {
    if p in s.index.localRoots then Some(s.index.localRoots[p])
    else if p in s.doc then Some(s.doc[p].root)
    else None
  }

  ghost function NamedTree(s: Sys, p: nat): Tree {
    match NamedRoot(s, p)
    case Some(root) => TreeAt(s.blobs, root)
    case None => Absent
  }

  lemma NamedIsSound(s: Sys, p: nat)
    requires BaseInv(s)
    ensures WellFormed(NamedTree(s, p), 0)
    ensures NamedRoot(s, p).Some? ==> Stored(s.blobs, NamedRoot(s, p).value)
    ensures BackedOk(s) ==> Backed(s.index, NamedTree(s, p))
  {
    hide Valid, ValuesOk, StageOk, Contains, Stored, TreeAt;
    if p !in s.index.localRoots && p in s.doc { assert p !in s.dangling; }
    if NamedRoot(s, p).Some? {
      TrackedOf(s);
      if BackedOk(s) { BackedAt(s, NamedRoot(s, p).value); }
    }
  }

  ghost predicate SameLocal(s: Sys, s': Sys, p: nat) {
    && (p in s'.index.localRoots <==> p in s.index.localRoots)
    && (p in s.index.localRoots ==> s'.index.localRoots[p] == s.index.localRoots[p])
  }

  ghost predicate SameDocument(s: Sys, s': Sys, p: nat) {
    (p in s'.doc <==> p in s.doc) && (p in s.doc ==> s'.doc[p] == s.doc[p])
  }

  /** The partition has the roots it had. */
  ghost predicate SameRoots(s: Sys, s': Sys, p: nat) {
    SameLocal(s, s', p) && SameDocument(s, s', p)
  }

  lemma SameNamedTree(s: Sys, s': Sys, p: nat)
    requires BaseInv(s) && SameRoots(s, s', p) && KeepsTrees(s.blobs, s'.blobs)
    ensures NamedTree(s', p) == NamedTree(s, p)
  {
    hide BaseInv, Stored, TreeAt;
    NamedIsSound(s, p);
  }

  /** `root` denotes what the partition's tree becomes with the rows' entries. */
  ghost predicate Holds(s: Sys, blobs: map<Hash, Bytes>, root: Hash, p: nat, rows: seq<Row>) {
    && Stored(blobs, root) && WellFormed(NamedTree(s, p), 0)
    && HamtLaws.InsertBatch(NamedTree(s, p), EntriesOf(rows), {}, LEAF_MAX) == Success(TreeAt(blobs, root))
  }

  lemma StillHolds(s: Sys, before: map<Hash, Bytes>, after: map<Hash, Bytes>, root: Hash, p: nat, rows: seq<Row>)
    requires Holds(s, before, root, p, rows) && KeepsTrees(before, after)
    ensures Holds(s, after, root, p, rows)
  {
    hide Stored, TreeAt, WellFormed, HamtLaws.InsertBatch;
  }

  /** What alone stops a partition where nothing fails by itself: its root cannot be read, or so many keys share
      a digest that the trie has no place for them. */
  ghost predicate Stuck(s: Sys, p: nat, rows: seq<Row>) {
    || WriterRoot(s, p).Failure?
    || (WellFormed(NamedTree(s, p), 0) && HamtLaws.InsertBatch(NamedTree(s, p), EntriesOf(rows), {}, LEAF_MAX).Failure?)
  }

  /** Half way through a partition: the root is built, and document and table are as said. */
  ghost predicate Underway(
    s: Sys, s': Sys, p: nat, root: Hash, rows: seq<Row>, doc: map<nat, DocEntry>, roots: map<nat, Hash>
  ) {
    && KeepsRecords(s.index, s'.index) && KeepsTrees(s.blobs, s'.blobs) && Holds(s, s'.blobs, root, p, rows)
    && s'.doc == doc && s'.index.localRoots == roots
  }

  lemma StillUnderway(
    s: Sys, m: Sys, s': Sys, p: nat, root: Hash, rows: seq<Row>, doc: map<nat, DocEntry>, roots: map<nat, Hash>
  )
    requires Underway(s, m, p, root, rows, doc, roots)
    requires KeepsRecords(m.index, s'.index) && KeepsTrees(m.blobs, s'.blobs)
    ensures Underway(s, s', p, root, rows, s'.doc, s'.index.localRoots)
  {
    hide Stored, TreeAt, Holds;
    StillHolds(s, m.blobs, s'.blobs, root, p, rows);
  }

  lemma UnderwayParts(s: Sys, s': Sys, p: nat, root: Hash, rows: seq<Row>)
    requires Underway(s, s', p, root, rows, s'.doc, s'.index.localRoots)
    ensures KeepsRecords(s.index, s'.index)
    ensures s'.doc == s.doc && s'.index.localRoots == s.index.localRoots ==> Quiet(s, s')
  {}

  /** Both roots of the partition name the tree with the rows that are not denied; with no such row they
      are what they were. */
  ghost predicate TreeDone(s: Sys, s': Sys, p: nat, rows: seq<Row>, denied: set<string>) {
    if Select(rows, denied, false) == [] then SameRoots(s, s', p)
    else
      && p in s'.index.localRoots && p in s'.doc && s'.doc[p] == EntryFor(s'.index.localRoots[p])
      && Holds(s, s'.blobs, s'.index.localRoots[p], p, Select(rows, denied, false))
  }

  /** Either root of the partition is what it was or names that tree. */
  ghost predicate TreePartly(s: Sys, s': Sys, p: nat, rows: seq<Row>, denied: set<string>) {
    && (|| SameLocal(s, s', p)
        || (p in s'.index.localRoots && Holds(s, s'.blobs, s'.index.localRoots[p], p, Select(rows, denied, false))))
    && (|| SameDocument(s, s', p)
        || (p in s'.doc && s'.doc[p] == EntryFor(s'.doc[p].root) && Holds(s, s'.blobs, s'.doc[p].root, p, Select(rows, denied, false))))
  }

  ghost predicate RootsDone(s: Sys, s': Sys, p: nat, rows: seq<Row>, denied: set<string>) {
    KeepsTrees(s.blobs, s'.blobs) && TreeDone(s, s', p, rows, denied) && forall q: nat :: q != p ==> SameRoots(s, s', q)
  }

  ghost predicate RootsPartly(s: Sys, s': Sys, p: nat, rows: seq<Row>, denied: set<string>) {
    KeepsTrees(s.blobs, s'.blobs) && TreePartly(s, s', p, rows, denied) && forall q: nat :: q != p ==> SameRoots(s, s', q)
  }

  /** One partition: its rows' records settled and its roots replaced, and nothing else. */
  ghost predicate PartitionDone(s: Sys, s': Sys, p: nat, rows: seq<Row>, denied: set<string>, now: int) {
    RecordsDone(s.index, s'.index, RowKeys(rows), denied, now) && RootsDone(s, s', p, rows, denied)
  }

  /** Some of that. */
  ghost predicate PartitionPartly(s: Sys, s': Sys, p: nat, rows: seq<Row>, denied: set<string>, now: int) {
    RecordsPartly(s.index, s'.index, RowKeys(rows), denied, now) && RootsPartly(s, s', p, rows, denied)
  }

  lemma RootsFinished(s: Sys, s': Sys, p: nat, root: Hash, rows: seq<Row>, denied: set<string>)
    requires Select(rows, denied, false) != []
    requires Underway(s, s', p, root, Select(rows, denied, false), s.doc[p := EntryFor(root)], s.index.localRoots[p := root])
    ensures KeepsRecords(s.index, s'.index) && RootsDone(s, s', p, rows, denied)
  {
    hide Holds, KeepsTrees, KeepsRecords, Select;
  }

  lemma NothingToBuild(s: Sys, s': Sys, p: nat, rows: seq<Row>, denied: set<string>)
    requires Select(rows, denied, false) == [] && Quiet(s, s')
    ensures RootsDone(s, s', p, rows, denied)
  {
    hide KeepsTrees, KeepsRecords, Select;
  }

  /** Giving up before the document write. */
  lemma QuietIsPartly(s: Sys, s': Sys, p: nat, rows: seq<Row>, denied: set<string>)
    requires Quiet(s, s')
    ensures RootsPartly(s, s', p, rows, denied)
  {
    hide KeepsTrees, KeepsRecords, Select, Holds;
  }

  /** Giving up between the document write and the local one. */
  lemma RootsFailed(s: Sys, s': Sys, p: nat, root: Hash, rows: seq<Row>, denied: set<string>)
    requires Underway(s, s', p, root, Select(rows, denied, false), s.doc[p := EntryFor(root)], s.index.localRoots)
    ensures RootsPartly(s, s', p, rows, denied)
  {
    hide Holds, KeepsTrees, KeepsRecords, Select;
  }

  lemma RootsStay(s: Sys, m: Sys, s': Sys, p: nat, rows: seq<Row>, denied: set<string>)
    requires RootsDone(s, m, p, rows, denied) && KeepsTrees(m.blobs, s'.blobs)
    requires s'.doc == m.doc && s'.index.localRoots == m.index.localRoots
    ensures RootsDone(s, s', p, rows, denied) && RootsPartly(s, s', p, rows, denied)
  {
    hide Holds, Select, KeepsTrees;
    TreesKeptOn(s.blobs, m.blobs, s'.blobs);
    var added := Select(rows, denied, false);
    if added != [] { StillHolds(s, m.blobs, s'.blobs, m.index.localRoots[p], p, added); }
    forall q: nat | q != p ensures SameRoots(s, s', q) {
      assert SameRoots(s, m, q);
    }
    assert TreeDone(s, s', p, rows, denied);
  }

  lemma TreesKeptOn(a: map<Hash, Bytes>, b: map<Hash, Bytes>, c: map<Hash, Bytes>)
    requires KeepsTrees(a, b) && KeepsTrees(b, c)
    ensures KeepsTrees(a, c)
  {
    hide Stored, TreeAt;
  }

  // The steps from the recorded root to the end of the partition, with `keys` settled so far.

  lemma RootsOnly(s: Sys, s': Sys, p: nat, rows: seq<Row>, denied: set<string>, now: int)
    requires KeepsRecords(s.index, s'.index) && RootsPartly(s, s', p, rows, denied)
    ensures PartitionPartly(s, s', p, rows, denied, now)
  {
    hide Holds, KeepsTrees, Select;
  }

  lemma QuietOnDone(s: Sys, m: Sys, s': Sys, p: nat, rows: seq<Row>, keys: set<string>, denied: set<string>, now: int)
    requires RecordsDone(s.index, m.index, keys, denied, now) && RootsDone(s, m, p, rows, denied) && Quiet(m, s')
    ensures RecordsDone(s.index, s'.index, keys, denied, now) && RootsDone(s, s', p, rows, denied)
  {
    hide RootsDone, RootsPartly, KeepsTrees;
    RootsStay(s, m, s', p, rows, denied);
  }

  lemma FinishedOnDone(
    s: Sys, m: Sys, s': Sys, p: nat, rows: seq<Row>, keys: set<string>, more: set<string>, denied: set<string>, now: int
  )
    requires RecordsDone(s.index, m.index, keys, denied, now) && RootsDone(s, m, p, rows, denied)
    requires RecordsDone(m.index, s'.index, more, denied, now)
    requires s'.doc == m.doc && s'.blobs == m.blobs && s'.index.localRoots == m.index.localRoots
    ensures RecordsDone(s.index, s'.index, keys + more, denied, now) && RootsDone(s, s', p, rows, denied)
  {
    hide RootsDone, RootsPartly, RecordsDone, KeepsTrees;
    RecordsOn(s.index, m.index, s'.index, keys, more, denied, now);
    SameTrees(m.blobs);
    RootsStay(s, m, s', p, rows, denied);
  }

  lemma SameIsPartly(s: Sys, m: Sys, s': Sys, p: nat, rows: seq<Row>, keys: set<string>, denied: set<string>, now: int)
    requires RecordsDone(s.index, m.index, keys, denied, now) && RootsDone(s, m, p, rows, denied) && keys <= RowKeys(rows)
    requires s'.doc == m.doc && s'.blobs == m.blobs && s'.index == m.index
    ensures PartitionPartly(s, s', p, rows, denied, now)
  {
    hide RootsDone, RecordsDone, RecordsPartly, KeepsTrees, RowKeys, TreePartly;
    DoneIsPartly(s.index, s'.index, keys, denied, now);
    FewerKeys(s.index, s'.index, keys, RowKeys(rows), denied, now);
    SameTrees(m.blobs);
    RootsStay(s, m, s', p, rows, denied);
  }

  lemma AllFinished(s: Sys, s': Sys, p: nat, rows: seq<Row>, keys: set<string>, denied: set<string>, now: int)
    requires RecordsDone(s.index, s'.index, keys, denied, now) && RootsDone(s, s', p, rows, denied) && keys == RowKeys(rows)
    ensures PartitionDone(s, s', p, rows, denied, now)
  {
    hide KeepsTrees, TreeDone, RecordsDone;
  }

  // ----- A batch, partition by partition

  function RowsOf(batch: seq<Row>, p: nat): seq<Row> {
    if p in Group(batch) then Group(batch)[p] else []
  }

  ghost function KeysIn(batch: seq<Row>, partitions: set<nat>): set<string> {
    set row | row in batch && row.record.partitionId in partitions :: row.key
  }

  /** The partitions done so far, and nothing of the others. */
  ghost predicate GroupsDone(s: Sys, s': Sys, batch: seq<Row>, done: set<nat>, denied: set<string>, now: int) {
    && RecordsDone(s.index, s'.index, KeysIn(batch, done), denied, now) && KeepsTrees(s.blobs, s'.blobs)
    && forall p: nat :: if p in done then TreeDone(s, s', p, RowsOf(batch, p), denied) else SameRoots(s, s', p)
  }

  lemma NoGroupDone(s: Sys, batch: seq<Row>, denied: set<string>, now: int)
    ensures GroupsDone(s, s, batch, {}, denied, now)
  {}

  lemma MoreKeys(batch: seq<Row>, done: set<nat>, p: nat)
    ensures KeysIn(batch, done + {p}) == KeysIn(batch, done) + RowKeys(RowsOf(batch, p))
    ensures KeysIn(batch, done) + RowKeys(RowsOf(batch, p)) <= RowKeys(batch)
  {
    GroupedRows(batch);
  }

  lemma GroupsNext(
    s: Sys, m: Sys, s': Sys, batch: seq<Row>, done: set<nat>, p: nat, denied: set<string>, now: int
  )
    requires BaseInv(s) && p !in done && GroupsDone(s, m, batch, done, denied, now)
    requires PartitionDone(m, s', p, RowsOf(batch, p), denied, now)
    ensures GroupsDone(s, s', batch, done + {p}, denied, now)
  {
    hide BaseInv, Holds, KeepsTrees, Select, RecordsDone, RowsOf, KeysIn, RowKeys;
    MoreKeys(batch, done, p);
    RecordsOn(s.index, m.index, s'.index, KeysIn(batch, done), RowKeys(RowsOf(batch, p)), denied, now);
    TreesKeptOn(s.blobs, m.blobs, s'.blobs);
    forall q: nat ensures if q in done + {p} then TreeDone(s, s', q, RowsOf(batch, q), denied) else SameRoots(s, s', q) {
      if q == p {
        SameNamedTree(s, m, p);
        TreeFrom(s, m, s', p, RowsOf(batch, p), denied);
      } else if q in done {
        TreeStays(s, m, s', q, RowsOf(batch, q), denied);
      } else {
        assert SameRoots(s, m, q) && SameRoots(m, s', q);
      }
    }
  }

  lemma TreeFrom(s: Sys, m: Sys, s': Sys, p: nat, rows: seq<Row>, denied: set<string>)
    requires TreeDone(m, s', p, rows, denied) && SameRoots(s, m, p) && NamedTree(m, p) == NamedTree(s, p)
    ensures TreeDone(s, s', p, rows, denied)
  {
    hide Stored, TreeAt, WellFormed, HamtLaws.InsertBatch, Select, NamedTree;
  }

  lemma TreeStays(s: Sys, m: Sys, s': Sys, p: nat, rows: seq<Row>, denied: set<string>)
    requires TreeDone(s, m, p, rows, denied) && SameRoots(m, s', p) && KeepsTrees(m.blobs, s'.blobs)
    ensures TreeDone(s, s', p, rows, denied)
  {
    hide Holds, Select, KeepsTrees;
    var added := Select(rows, denied, false);
    if added != [] { StillHolds(s, m.blobs, s'.blobs, m.index.localRoots[p], p, added); }
  }

  /** The whole batch: every record of a row has its final status and every partition its tree. */
  ghost predicate CycleDone(s: Sys, s': Sys, batch: seq<Row>, denied: set<string>, now: int) {
    && RecordsDone(s.index, s'.index, RowKeys(batch), denied, now) && KeepsTrees(s.blobs, s'.blobs)
    && forall p: nat :: TreeDone(s, s', p, RowsOf(batch, p), denied)
  }

  /** Some of that. */
  ghost predicate CyclePartly(s: Sys, s': Sys, batch: seq<Row>, denied: set<string>, now: int) {
    && RecordsPartly(s.index, s'.index, RowKeys(batch), denied, now) && KeepsTrees(s.blobs, s'.blobs)
    && forall p: nat :: TreePartly(s, s', p, RowsOf(batch, p), denied)
  }

  /** Where the publisher stands is no part of it. */
  lemma SameCycle(s: Sys, m: Sys, s': Sys, m': Sys, batch: seq<Row>, denied: set<string>, now: int)
    requires s' == s.(publisher := s'.publisher) && m' == m.(publisher := m'.publisher)
    ensures CycleDone(s, m, batch, denied, now) ==> CycleDone(s', m', batch, denied, now)
    ensures CyclePartly(s, m, batch, denied, now) ==> CyclePartly(s', m', batch, denied, now)
  {
    hide KeepsTrees, RecordsDone, RecordsPartly, Select, RowsOf, TreeAt, Stored, WellFormed, HamtLaws.InsertBatch;
    forall p: nat ensures NamedTree(s', p) == NamedTree(s, p) {}
    if CycleDone(s, m, batch, denied, now) {
      forall p: nat ensures TreeDone(s', m', p, RowsOf(batch, p), denied) {
        assert TreeDone(s, m, p, RowsOf(batch, p), denied);
      }
    }
    if CyclePartly(s, m, batch, denied, now) {
      forall p: nat ensures TreePartly(s', m', p, RowsOf(batch, p), denied) {
        assert TreePartly(s, m, p, RowsOf(batch, p), denied);
      }
    }
  }

  lemma NothingDone(s: Sys, batch: seq<Row>, denied: set<string>, now: int)
    ensures CyclePartly(s, s, batch, denied, now)
    ensures batch == [] ==> CycleDone(s, s, batch, denied, now) && Select(batch, denied, false) == []
  {}

  lemma AllGroupsDone(s: Sys, s': Sys, batch: seq<Row>, denied: set<string>, now: int)
    requires GroupsDone(s, s', batch, Group(batch).Keys, denied, now)
    ensures CycleDone(s, s', batch, denied, now)
  {
    hide Holds, KeepsTrees, RecordsDone;
    GroupedRows(batch);
    assert KeysIn(batch, Group(batch).Keys) == RowKeys(batch);
    assert Select([], denied, false) == [];
  }

  lemma GroupFailed(
    s: Sys, m: Sys, s': Sys, batch: seq<Row>, done: set<nat>, p: nat, denied: set<string>, now: int
  )
    requires BaseInv(s) && p !in done && GroupsDone(s, m, batch, done, denied, now)
    requires PartitionPartly(m, s', p, RowsOf(batch, p), denied, now)
    ensures CyclePartly(s, s', batch, denied, now)
  {
    hide BaseInv, Holds, KeepsTrees, Select, RecordsDone, RecordsPartly, RowsOf, KeysIn, RowKeys;
    MoreKeys(batch, done, p);
    DoneIsPartly(s.index, m.index, KeysIn(batch, done), denied, now);
    RecordsPartlyOn(s.index, m.index, s'.index, KeysIn(batch, done), RowKeys(RowsOf(batch, p)), denied, now);
    FewerKeys(s.index, s'.index, KeysIn(batch, done) + RowKeys(RowsOf(batch, p)), RowKeys(batch), denied, now);
    TreesKeptOn(s.blobs, m.blobs, s'.blobs);
    forall q: nat ensures TreePartly(s, s', q, RowsOf(batch, q), denied) {
      if q == p {
        SameNamedTree(s, m, p);
        PartFrom(s, m, s', p, RowsOf(batch, p), denied);
      } else if q in done {
        TreeStays(s, m, s', q, RowsOf(batch, q), denied);
      } else {
        assert SameRoots(s, m, q) && SameRoots(m, s', q);
      }
    }
  }

  lemma FewerKeys(a: IndexState, b: IndexState, some: set<string>, all: set<string>, denied: set<string>, now: int)
    requires RecordsPartly(a, b, some, denied, now) && some <= all
    ensures RecordsPartly(a, b, all, denied, now)
  {}

  lemma PartFrom(s: Sys, m: Sys, s': Sys, p: nat, rows: seq<Row>, denied: set<string>)
    requires TreePartly(m, s', p, rows, denied) && SameRoots(s, m, p) && NamedTree(m, p) == NamedTree(s, p)
    ensures TreePartly(s, s', p, rows, denied)
  {
    hide Stored, TreeAt, WellFormed, HamtLaws.InsertBatch, Select, NamedTree;
  }

  /** The partitions not done yet, with all their rows. */
  ghost predicate Left(batch: seq<Row>, todo: map<nat, seq<Row>>, done: set<nat>) {
    && done !! todo.Keys && done + todo.Keys == Group(batch).Keys
    && forall p :: p in todo ==> todo[p] == Group(batch)[p]
  }

  lemma NoneFinished(batch: seq<Row>)
    ensures Left(batch, Group(batch), {})
  {}

  lemma OneLess(batch: seq<Row>, todo: map<nat, seq<Row>>, done: set<nat>, p: nat)
    requires Left(batch, todo, done) && p in todo
    ensures p !in done && p in Group(batch) && todo[p] == RowsOf(batch, p) && Left(batch, todo - {p}, done + {p})
  {}

  lemma AllFinishedKeys(batch: seq<Row>, done: set<nat>)
    requires Left(batch, map[], done)
    ensures done == Group(batch).Keys
  {}

  // ----- How many rows are published

  /** Rows of the partitions that are not denied. */
  function CountNew(batch: seq<Row>, partitions: set<nat>, denied: set<string>): nat {
    if batch == [] then 0
    else
      var last := batch[|batch| - 1];
      CountNew(batch[..|batch| - 1], partitions, denied)
      + if last.record.partitionId in partitions && last.key !in denied then 1 else 0
  }

  lemma {:induction false} CountMore(batch: seq<Row>, partitions: set<nat>, p: nat, denied: set<string>)
    requires p !in partitions
    ensures CountNew(batch, partitions + {p}, denied) == CountNew(batch, partitions, denied) + |Select(RowsOf(batch, p), denied, false)|
  {
    if batch != [] {
      var before, last := batch[..|batch| - 1], batch[|batch| - 1];
      CountMore(before, partitions, p, denied);
      if last.record.partitionId == p {
        assert RowsOf(batch, p) == RowsOf(before, p) + [last];
        assert (RowsOf(before, p) + [last])[..|RowsOf(before, p)|] == RowsOf(before, p);
      } else {
        assert RowsOf(batch, p) == RowsOf(before, p);
      }
    }
  }

  lemma {:induction false} CountAll(batch: seq<Row>, partitions: set<nat>, denied: set<string>)
    requires forall row :: row in batch ==> row.record.partitionId in partitions
    ensures CountNew(batch, partitions, denied) == |Select(batch, denied, false)|
    ensures CountNew(batch, {}, denied) == 0
  {
    if batch != [] {
      CountAll(batch[..|batch| - 1], partitions, denied);
    }
  }

  // ----- What a cycle means

  /** A successful cycle gives every row's record its final status, published now or denied. A key that is not
      denied is found under the new root of its partition, which document and local table name, with its
      index hash; a denied one is in its partition's tree only if it was before. */
  lemma CycleMeans(s: Sys, s': Sys, max: nat, denied: set<string>, now: int, row: Row)
    requires BaseInv(s) && CycleDone(s, s', OldestRows(s.index, max), denied, now) && row in OldestRows(s.index, max)
    ensures var p := row.record.partitionId;
            && row.key in s.index.records && row.key in s'.index.records
            && s'.index.records[row.key].SameContent(s.index.records[row.key])
            && s'.index.records[row.key].status == (if row.key in denied then Denylisted else Published)
            && (row.key !in denied ==> s'.index.records[row.key].publishedAt == Some(now))
            && (row.key !in denied ==>
                  && p in s'.index.localRoots && p in s'.doc && s'.doc[p] == EntryFor(s'.index.localRoots[p])
                  && HasKey(TreeAt(s'.blobs, s'.index.localRoots[p]), row.key)
                  && (BackedOk(s) ==>
                        Resolves(s'.blobs, s'.index.localRoots[p], row.key, s'.index.records[row.key].contentHash)))
            && (row.key in denied && !HasKey(NamedTree(s, p), row.key) ==> !HasKey(NamedTree(s', p), row.key))
  {
    hide BaseInv, WellFormed, TreeAt, Stored, HamtLaws.InsertBatch, OldestRows, KeepsTrees;
    var batch, p := OldestRows(s.index, max), row.record.partitionId;
    BatchRows(s, max);
    assert row.key in RowKeys(batch);
    TreeGains(s, s', batch, p, denied, now, row.key);
    if row.key !in denied {
      HasOwnRoot(s, s', batch, row, denied, now);
      if BackedOk(s) {
        StillBacked(s, s', max, p, denied, now);
        SoundRootResolves(s'.index, s'.blobs, s'.index.localRoots[p], row.key);
      }
    }
  }

  /** Exactly the rows' keys that are not denied are new in a partition's tree. */
  lemma TreeGains(s: Sys, s': Sys, batch: seq<Row>, p: nat, denied: set<string>, now: int, key: string)
    requires BaseInv(s) && CycleDone(s, s', batch, denied, now)
    ensures HasKey(NamedTree(s', p), key) <==>
              HasKey(NamedTree(s, p), key)
              || exists row :: row in batch && row.key == key && row.record.partitionId == p && key !in denied
    ensures forall e :: e in Entries(NamedTree(s', p)) ==>
              || e in Entries(NamedTree(s, p))
              || exists row :: row in batch && row.record.partitionId == p && row.key !in denied && e == row.record.LeafEntryFor(row.key)
  {
    hide BaseInv, TreeAt, Stored, KeepsTrees, WellFormed, RecordsDone, HamtLaws.InsertBatch;
    var rows := RowsOf(batch, p);
    GroupedRows(batch);
    assert TreeDone(s, s', p, rows, denied);
    var added := Select(rows, denied, false);
    if added == [] {
      SameNamedTree(s, s', p);
    } else {
      BatchInserted(NamedTree(s, p), added, NamedTree(s', p));
    }
  }

  lemma BatchInserted(t: Tree, rows: seq<Row>, t': Tree)
    requires WellFormed(t, 0) && rows != [] && HamtLaws.InsertBatch(t, EntriesOf(rows), {}, LEAF_MAX) == Success(t')
    ensures WellFormed(t', 0)
    ensures forall key :: HasKey(t', key) <==> HasKey(t, key) || exists row :: row in rows && row.key == key
    ensures forall e :: e in Entries(t) ==> e in Entries(t')
    ensures forall e :: e in Entries(t') ==> e in Entries(t) || exists row :: row in rows && e == row.record.LeafEntryFor(row.key)
  {
    var entries := EntriesOf(rows);
    HamtLaws.BatchEntries(t, entries, {}, LEAF_MAX);
    assert entries[0] in entries;
    forall row | row in rows ensures HasKey(t', row.key) {
      var i :| 0 <= i < |rows| && rows[i] == row;
      assert entries[i] in entries && entries[i].key == row.key;
    }
    forall e | e in Entries(t') && e !in Entries(t)
      ensures exists row :: row in rows && e == row.record.LeafEntryFor(row.key) && row.key == e.key
    {
      var i :| 0 <= i < |entries| && entries[i] == e;
      assert rows[i] in rows;
    }
  }

  lemma HasOwnRoot(s: Sys, s': Sys, batch: seq<Row>, row: Row, denied: set<string>, now: int)
    requires CycleDone(s, s', batch, denied, now) && row in batch && row.key !in denied
    ensures var p := row.record.partitionId;
            && p in s'.index.localRoots && p in s'.doc && s'.doc[p] == EntryFor(s'.index.localRoots[p])
            && SoundRoot(s'.blobs, s'.index.localRoots[p])
  {
    hide KeepsTrees, RecordsDone;
    var p := row.record.partitionId;
    GroupedRows(batch);
    assert row in RowsOf(batch, p) && row in Select(RowsOf(batch, p), denied, false);
    assert TreeDone(s, s', p, RowsOf(batch, p), denied);
    hide Stored, TreeAt, WellFormed, HamtLaws.InsertBatch;
    BatchInserted(NamedTree(s, p), Select(RowsOf(batch, p), denied, false), NamedTree(s', p));
  }

  /** A cycle's trees still say of their keys what the records do. */
  lemma StillBacked(s: Sys, s': Sys, max: nat, p: nat, denied: set<string>, now: int)
    requires BaseInv(s) && BackedOk(s) && CycleDone(s, s', OldestRows(s.index, max), denied, now)
    ensures Backed(s'.index, NamedTree(s', p))
  {
    hide BaseInv, BackedOk, TreeAt, Stored, KeepsTrees, WellFormed, TreeDone, OldestRows, NamedTree;
    NamedIsSound(s, p);
    BatchRows(s, max);
    forall e | e in Entries(NamedTree(s', p))
      ensures e.key in s'.index.records && Describes(e, s'.index.records[e.key])
    {
      TreeGains(s, s', OldestRows(s.index, max), p, denied, now, e.key);
      assert e.key in s.index.records && Describes(e, s.index.records[e.key]);
    }
  }

  lemma BatchRows(s: Sys, max: nat)
    requires BaseInv(s)
    ensures forall row :: row in OldestRows(s.index, max) ==> row.key in s.index.records && row.record == s.index.records[row.key]
  {
    OldestOfSpec(s.index, s.index.queue.Keys, max);
  }
}
