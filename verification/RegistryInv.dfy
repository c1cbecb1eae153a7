/** Every step of the registry keeps its invariant, and what follows for readers and for the sweep. */
module RegistryInv {
  import opened Wrappers
  import opened Digests
  import opened Blobs
  import opened NodeCodec
  import opened HamtTree
  import opened HamtLaws
  import opened HamtStore
  import opened HamtWalk
  import opened Index
  import opened Registry

  // ----- Frames

  lemma BackedKept(index: IndexState, index': IndexState, t: Tree)
    requires KeepsBindings(index, index') && Backed(index, t)
    ensures Backed(index', t)
  {}

  /** A step that keeps bindings, roots, document and trees keeps what is said about roots. */
  lemma RootsFrame(s: Sys, s': Sys)
    requires BaseInv(s) && KeepsBindings(s.index, s'.index) && KeepsTrees(s.blobs, s'.blobs)
    requires s'.index.localRoots == s.index.localRoots && s'.doc == s.doc && s'.dangling == s.dangling
    ensures RootsOk(s') && DocOk(s')
    ensures forall k :: k in s.index.records && Covered(s, k) ==> Covered(s', k)
    ensures s'.publisher == s.publisher ==> StageOk(s')
  {
    hide TreeAt, Stored, WellFormed, HasKey, Contains, HoldsKeys;
    forall p | p in s.doc && p !in s.index.localRoots ensures SoundRoot(s.blobs, s.doc[p].root) {
      assert p !in s.dangling;
    }
  }

  lemma TodoFrame(index: IndexState, index': IndexState, todo: map<nat, seq<Row>>)
    requires TodoOk(index, todo) && KeepsBindings(index, index') && KeepsRows(index, index')
    ensures TodoOk(index', todo)
  {}

  /** Whatever is published after is in its tree, or was already missing from it and stays queued if it
      was queued. */
  ghost predicate KeepsCoverage(s: Sys, s': Sys) {
    forall k :: k in s'.index.records && s'.index.records[k].status == Published ==>
      || Covered(s', k)
      || (&& k in s.index.records && s.index.records[k].status == Published && !Covered(s, k)
          && (Queues(s.index, k) ==> Queues(s'.index, k)))
  }

  lemma KeepsCoverageMeans(s: Sys, s': Sys)
    requires KeepsCoverage(s, s')
    ensures CoverageOk(s) ==> CoverageOk(s')
    ensures Mended(s) ==> Mended(s')
  {
    hide Covered, Queues;
  }

  lemma CoverageFrame(s: Sys, s': Sys)
    requires KeepsRows(s.index, s'.index)
    requires forall k :: k in s'.index.records && s'.index.records[k].status == Published ==>
               k in s.index.records && s.index.records[k].status == Published
    requires forall k :: k in s.index.records && k in s'.index.records && Covered(s, k) ==> Covered(s', k)
    ensures KeepsCoverage(s, s')
  {
    hide Covered;
    forall k | Queues(s.index, k) ensures Queues(s'.index, k) {
      var n :| n in s.index.queue && s.index.queue[n] == k;
      assert n in s'.index.queue && s'.index.queue[n] == k;
    }
  }

  // ----- Submissions and requeueing

  lemma AcceptKeeps(s: Sys, l: Label)
    requires l.Accept? && Enabled(s, l) && BaseInv(s)
    ensures BaseInv(After(s, l)) && KeepsCoverage(s, After(s, l))
  {
    hide TreeAt, Stored, KeepsTrees, StageOk, TodoOk, RootsOk, DocOk, Covered;
    var s' := After(s, l);
    GrowthKeepsTrees(s.blobs, s'.blobs);
    RootsFrame(s, s');
    CoverageFrame(s, s');
  }

  lemma CommitKeeps(s: Sys, l: Label)
    requires l.Commit? && Enabled(s, l) && BaseInv(s)
    ensures BaseInv(After(s, l)) && KeepsCoverage(s, After(s, l))
  {
    hide TreeAt, Stored, KeepsTrees, StageOk, TodoOk, RootsOk, DocOk, Covered, Valid, SubmitAll, ValuesOk;
    var s' := After(s, l);
    GrowthKeepsTrees(s.blobs, s'.blobs);
    SubmitAllSpec(s.index, l.subs);
    RootsFrame(s, s');
    if s.publisher.Busy? { TodoFrame(s.index, s'.index, s.publisher.todo); }
    CommittedRecords(s, l.subs, s');
    CoverageFrame(s, s');
  }

  lemma CommittedRecords(s: Sys, subs: seq<Submission>, s': Sys)
    requires IndexOk(s.index) && ValuesOk(s) && multiset(subs) <= s.inflight
    requires s' == s.(index := SubmitAll(s.index, subs), inflight := s.inflight - multiset(subs))
    requires Valid(s'.index)
    ensures IndexOk(s'.index) && ValuesOk(s')
    ensures forall k :: k in s'.index.records && s'.index.records[k].status != Pending ==>
              k in s.index.records && s.index.records[k] == s'.index.records[k]
  {
    hide Valid, SubmitAll, ValueAt;
    forall k | k in s'.index.records
      ensures (k in s.index.records && s'.index.records[k] == s.index.records[k])
              || exists sub :: sub in s.inflight && sub.key == k && sub.record == s'.index.records[k]
    {
      CommittedRecord(s, subs, k);
    }
    forall sub | sub in s'.inflight ensures sub in s.inflight {}
  }

  lemma CommittedRecord(s: Sys, subs: seq<Submission>, k: string)
    requires multiset(subs) <= s.inflight && k in SubmitAll(s.index, subs).records
    ensures (k in s.index.records && SubmitAll(s.index, subs).records[k] == s.index.records[k])
            || exists sub :: sub in s.inflight && sub.key == k && sub.record == SubmitAll(s.index, subs).records[k]
  {
    SubmittedRecords(s.index, subs, k);
    if k !in s.index.records {
      var i: nat :| IsFirst(subs, i, k) && SubmitAll(s.index, subs).records[k] == subs[i].record;
      assert subs[i] in multiset(subs);
    }
  }

  lemma RequeueKeeps(s: Sys, l: Label)
    requires l.RequeueKey? && Enabled(s, l) && BaseInv(s)
    ensures BaseInv(After(s, l)) && KeepsCoverage(s, After(s, l))
  {
    hide TreeAt, Stored, KeepsTrees, StageOk, TodoOk, RootsOk, DocOk, Covered, Valid;
    var s' := After(s, l);
    GrowthKeepsTrees(s.blobs, s'.blobs);
    RequeueSpec(s.index, l.key);
    RootsFrame(s, s');
    if s.publisher.Busy? { TodoFrame(s.index, s'.index, s.publisher.todo); }
    CoverageFrame(s, s');
  }

  // ----- The publisher's cycle

  lemma {:induction false} GroupedRows(rows: seq<Row>)
    ensures forall p :: p in Group(rows) ==> Group(rows)[p] != []
    ensures forall p, row :: p in Group(rows) && row in Group(rows)[p] <==> row in rows && row.record.partitionId == p && p in Group(rows)
    ensures forall row :: row in rows ==> row.record.partitionId in Group(rows)
  {
    if rows != [] {
      var before, last := rows[..|rows| - 1], rows[|rows| - 1];
      GroupedRows(before);
      assert rows == before + [last];
    }
  }

  /** Grouping keeps the queue's order within each partition. */
  lemma {:induction false} GroupedInOrder(rows: seq<Row>)
    requires InOrder(rows)
    ensures forall p :: p in Group(rows) ==> InOrder(Group(rows)[p])
  {
    if rows != [] {
      var before, last := rows[..|rows| - 1], rows[|rows| - 1];
      GroupedInOrder(before);
      GroupedRows(before);
      forall row | row in before ensures row.seq_ < last.seq_ {
        var i :| 0 <= i < |before| && before[i] == row;
      }
    }
  }

  /** A batch read from the queue satisfies what the cycle relies on. */
  lemma BatchIsOk(index: IndexState, max: nat)
    requires Valid(index)
    ensures TodoOk(index, Group(OldestRows(index, max)))
  {
    var rows := OldestRows(index, max);
    OldestOfSpec(index, index.queue.Keys, max);
    GroupedRows(rows);
    var todo := Group(rows);
    forall p, row | p in todo && row in todo[p] ensures RowOk(index, p, row) {
      assert row in rows;
    }
  }

  lemma BeginKeeps(s: Sys, l: Label)
    requires l.Begin? && Enabled(s, l) && BaseInv(s)
    ensures BaseInv(After(s, l)) && KeepsCoverage(s, After(s, l))
  {
    hide TreeAt, Stored, KeepsTrees, TodoOk, RootsOk, DocOk, Covered, Valid;
    var s' := After(s, l);
    BatchIsOk(s.index, l.max);
    GrowthKeepsTrees(s.blobs, s'.blobs);
    RootsFrame(s, s');
    CoverageFrame(s, s');
  }

  /** Inserting rows into the writer's tree gives a root fit to publish. */
  lemma BuiltTree(index: IndexState, t: Tree, p: nat, rows: seq<Row>, t': Tree)
    requires WellFormed(t, 0) && rows != [] && forall row :: row in rows ==> RowOk(index, p, row)
    requires HamtLaws.InsertBatch(t, EntriesOf(rows), {}, LEAF_MAX) == Success(t')
    ensures WellFormed(t', 0) && Contains(t', t)
    ensures forall row :: row in rows ==> HasKey(t', row.key)
    ensures Backed(index, t) ==> Backed(index, t')
  {
    var entries := EntriesOf(rows);
    BatchEntries(t, entries, {}, LEAF_MAX);
    assert entries[0] in entries;
    forall row | row in rows ensures HasKey(t', row.key) {
      var i :| 0 <= i < |rows| && rows[i] == row;
      assert entries[i] in entries && entries[i].key == row.key;
    }
    forall e | e in Entries(t')
      ensures e in Entries(t) || (e.key in index.records && Describes(e, index.records[e.key]))
    {
      if e !in Entries(t) {
        var i :| 0 <= i < |entries| && entries[i] == e;
        assert rows[i] in rows;
      }
    }
  }

  lemma CurrentTree(s: Sys, p: nat, t: Tree)
    requires BaseInv(s) && WriterRoot(s, p).Success? && Represents(s.blobs, WriterRoot(s, p).value, t)
    ensures p in s.index.localRoots ==> t == TreeAt(s.blobs, s.index.localRoots[p])
    ensures p !in s.index.localRoots && p in s.doc ==> t == TreeAt(s.blobs, s.doc[p].root)
    ensures BackedOk(s) ==> Backed(s.index, t)
  {
    if WriterRoot(s, p).value.Some? {
      TreeAtIs(s.blobs, WriterRoot(s, p).value.value, t);
    }
  }

  lemma BuildKeeps(s: Sys, l: Label)
    requires l.Build? && Enabled(s, l) && BaseInv(s)
    ensures BaseInv(After(s, l)) && KeepsCoverage(s, After(s, l))
  {
    hide TreeAt, Stored, RootsOk, DocOk, Covered, Valid, Represents, WellFormed, Entries, HasKey, HamtLaws.InsertBatch, InsertAll;
    var s' := After(s, l);
    GrowthKeepsTrees(s.blobs, s'.blobs);
    RootsFrame(s, s');
    CoverageFrame(s, s');
    var rows := Select(s.publisher.todo[l.p], s.publisher.denied, false);
    var t :| && Represents(s.blobs, WriterRoot(s, l.p).value, t) && WellFormed(t, 0)
             && HamtLaws.InsertBatch(t, EntriesOf(rows), {}, LEAF_MAX).Success?
             && Represents(l.grown, Some(l.root), HamtLaws.InsertBatch(t, EntriesOf(rows), {}, LEAF_MAX).value);
    var t' := HamtLaws.InsertBatch(t, EntriesOf(rows), {}, LEAF_MAX).value;
    CurrentTree(s, l.p, t);
    BuiltTree(s.index, t, l.p, rows, t');
    TreeAtIs(l.grown, l.root, t');
    FreshBuild(s, s', l.p, l.root, t, t');
  }

  lemma FreshBuild(s: Sys, s': Sys, p: nat, root: Hash, t: Tree, t': Tree)
    requires BaseInv(s) && KeepsTrees(s.blobs, s'.blobs)
    requires s'.index == s.index && s'.doc == s.doc
    requires s.publisher.Busy? && s'.publisher.Busy? && s'.publisher.denied == s.publisher.denied && s'.publisher.todo == s.publisher.todo
    requires p in s.publisher.todo && Select(s.publisher.todo[p], s.publisher.denied, false) != []
    requires p in s.index.localRoots ==> t == TreeAt(s.blobs, s.index.localRoots[p])
    requires p !in s.index.localRoots && p in s.doc ==> t == TreeAt(s.blobs, s.doc[p].root)
    requires Stored(s'.blobs, root) && TreeAt(s'.blobs, root) == t' && WellFormed(t', 0) && Contains(t', t)
    requires forall row :: row in Select(s.publisher.todo[p], s.publisher.denied, false) ==> HasKey(t', row.key)
    ensures Fresh(s', p, root)
  {
    hide TreeAt, Stored, WellFormed, HasKey, Contains;
    var row := Select(s.publisher.todo[p], s.publisher.denied, false)[0];
    assert row in s.publisher.todo[p];
    assert RowOk(s.index, p, row);
    if p !in s.index.localRoots && p in s.doc { assert p !in s.dangling; }
  }

  lemma WriteDocKeeps(s: Sys, l: Label)
    requires l.WriteDoc? && Enabled(s, l) && BaseInv(s)
    ensures BaseInv(After(s, l)) && KeepsCoverage(s, After(s, l))
  {
    hide TreeAt, Stored, WellFormed, Valid, HasKey, Contains, Covered, KeepsCoverage;
    var s' := After(s, l);
    var st := s.publisher.stage;
    GrowthKeepsTrees(s.blobs, s'.blobs);
    ContainsSelf(TreeAt(s.blobs, st.root));
    forall p | p in s.doc && p !in s.index.localRoots ensures SoundRoot(s.blobs, s.doc[p].root) {
      assert p !in s.dangling;
    }
    assert DocOk(s');
    assert StageOk(s');
    WriteDocCovers(s, l);
  }

  lemma WriteDocCovers(s: Sys, l: Label)
    requires l.WriteDoc? && Enabled(s, l) && BaseInv(s)
    ensures KeepsCoverage(s, After(s, l))
  {
    hide TreeAt, Stored, WellFormed, Valid, HasKey, Contains, ValuesOk, HoldsKeys, KeepsCoverage;
    var s' := After(s, l);
    var st := s.publisher.stage;
    GrowthKeepsTrees(s.blobs, s'.blobs);
    forall k | k in s'.index.records && Covered(s, k) ensures Covered(s', k) {
      var p := s.index.records[k].partitionId;
      if p !in s.index.localRoots {
        assert p in s.doc && p !in s.dangling;
        if p == st.p { KeyCarriesOver(TreeAt(s.blobs, st.root), TreeAt(s.blobs, s.doc[p].root), k); }
      }
    }
    CoverageFrame(s, s');
  }

  lemma ContainsSelf(t: Tree)
    ensures Contains(t, t)
  {}

  lemma KeyCarriesOver(big: Tree, small: Tree, key: string)
    requires Contains(big, small) && HasKey(small, key)
    ensures HasKey(big, key)
  {}

  /** A new local root alone says nothing new about records, values and the batch. */
  lemma RootTableFrame(s: Sys, s': Sys)
    requires BaseInv(s) && s'.index == s.index.(localRoots := s'.index.localRoots)
    requires s'.blobs == s.blobs && s'.inflight == s.inflight
    ensures IndexOk(s'.index) && ValuesOk(s')
    ensures s.publisher.Busy? ==> TodoOk(s'.index, s.publisher.todo)
  {
    hide RootsOk, DocOk, StageOk;
  }

  lemma LocalRootIsFresh(s: Sys, s': Sys, p: nat, root: Hash)
    requires RootsOk(s) && DocOk(s) && Fresh(s, p, root) && p in s.doc && s.doc[p].root == root && p !in s.dangling
    requires s'.index == s.index.(localRoots := s.index.localRoots[p := root]) && s'.blobs == s.blobs && s'.doc == s.doc
    requires s'.dangling == s.dangling
    ensures RootsOk(s') && DocOk(s')
  {
    hide TreeAt, SoundRoot, HoldsKeys;
    ContainsSelf(TreeAt(s.blobs, root));
  }

  lemma WriteLocalRootKeeps(s: Sys, l: Label)
    requires l.WriteLocalRoot? && Enabled(s, l) && BaseInv(s)
    ensures BaseInv(After(s, l)) && KeepsCoverage(s, After(s, l))
  {
    hide TreeAt, SoundRoot, HoldsKeys, Contains, RootsOk, DocOk, IndexOk, ValuesOk, TodoOk, Select, KeepsCoverage;
    var s' := After(s, l);
    var st := s.publisher.stage;
    RootTableFrame(s, s');
    LocalRootIsFresh(s, s', st.p, st.root);
    LocalRootCovers(s, s', st.p, st.root);
    assert StageOk(s');
  }

  lemma LocalRootCovers(s: Sys, s': Sys, p: nat, root: Hash)
    requires Fresh(s, p, root)
    requires s'.index == s.index.(localRoots := s.index.localRoots[p := root]) && s'.blobs == s.blobs && s'.doc == s.doc
    ensures KeepsCoverage(s, s')
  {
    hide TreeAt, Stored, WellFormed, HasKey, Contains, HoldsKeys, SoundRoot;
    forall k | k in s'.index.records && Covered(s, k) ensures Covered(s', k) {
      if s.index.records[k].partitionId == p {
        var current := if p in s.index.localRoots then s.index.localRoots[p] else s.doc[p].root;
        KeyCarriesOver(TreeAt(s.blobs, root), TreeAt(s.blobs, current), k);
      }
    }
    CoverageFrame(s, s');
  }

  /** Steps that change only where the cycle stands, or let go of work in flight. */
  lemma ControlFrame(s: Sys, s': Sys)
    requires BaseInv(s) && s'.index == s.index && s'.doc == s.doc && s'.dangling == s.dangling
    requires Grows(s.blobs, s'.blobs) && s'.inflight <= s.inflight
    requires || s'.publisher == s.publisher
             || s'.publisher == Idle
             || (&& s.publisher.Busy? && s'.publisher.Busy? && s'.publisher.stage.Recorded?
                 && s'.publisher == s.publisher.(stage := s'.publisher.stage)
                 && s'.publisher.stage.p in s.publisher.todo
                 && Select(s.publisher.todo[s'.publisher.stage.p], s.publisher.denied, false) == [])
    ensures BaseInv(s') && KeepsCoverage(s, s')
  {
    hide TreeAt, Stored, KeepsTrees, TodoOk, RootsOk, DocOk, Covered, Valid, HoldsKeys, Fresh;
    forall sub | sub in s'.inflight ensures sub in s.inflight {}
    GrowthKeepsTrees(s.blobs, s'.blobs);
    RootsFrame(s, s');
    CoverageFrame(s, s');
  }

  lemma ControlKeeps(s: Sys, l: Label)
    requires l.Drop? || l.Skip? || l.End? || l.Abort? || l.Crash?
    requires Enabled(s, l) && BaseInv(s)
    ensures BaseInv(After(s, l)) && KeepsCoverage(s, After(s, l))
  {
    hide BaseInv, KeepsCoverage, Select;
    ControlFrame(s, After(s, l));
  }

  /** The items of some of a partition's rows: they are queue rows, and no other row of the batch that
      names another key is among them. */
  lemma ItemsAreRows(index: IndexState, p: nat, rows: seq<Row>)
    requires forall row :: row in rows ==> RowOk(index, p, row)
    ensures AreRows(index, ItemsOf(rows))
    ensures forall k :: k in KeysOf(ItemsOf(rows)) <==> exists row :: row in rows && row.key == k
    ensures forall n :: n in Seqs(ItemsOf(rows)) ==> n in index.queue && exists row :: row in rows && row.key == index.queue[n]
  {
    var items := ItemsOf(rows);
    forall i | 0 <= i < |items| ensures items[i].seq_ in index.queue && index.queue[items[i].seq_] == items[i].key {
      assert rows[i] in rows;
    }
    forall k ensures k in KeysOf(items) <==> exists row :: row in rows && row.key == k {
      if row :| row in rows && row.key == k {
        var i :| 0 <= i < |rows| && rows[i] == row;
        assert items[i].key == k;
      }
      if k in KeysOf(items) {
        var i :| 0 <= i < |items| && items[i].key == k;
        assert rows[i] in rows && rows[i].key == k;
      }
    }
    forall n | n in Seqs(items) ensures n in index.queue && exists row :: row in rows && row.key == index.queue[n] {
      var i :| 0 <= i < |items| && items[i].seq_ == n;
      assert rows[i] in rows && rows[i].key == index.queue[n];
    }
  }

  /** Rows not finished stay good when rows of other keys are. */
  lemma RowsLeft(index: IndexState, index': IndexState, done: seq<Row>, p: nat, q: nat, row: Row)
    requires forall r :: r in done ==> RowOk(index, p, r)
    requires index'.queue == index.queue - Seqs(ItemsOf(done)) && KeepsBindings(index, index')
    requires RowOk(index, q, row) && (forall r :: r in done ==> r.key != row.key)
    ensures RowOk(index', q, row)
  {
    ItemsAreRows(index, p, done);
  }

  lemma MarkPublishedKeeps(s: Sys, l: Label)
    requires l.MarkPublished? && Enabled(s, l) && BaseInv(s)
    ensures BaseInv(After(s, l)) && KeepsCoverage(s, After(s, l))
  {
    hide TreeAt, Stored, KeepsTrees, RootsOk, DocOk, Covered, Valid, FinishAll, AreRows, Select, KeysOf, Seqs, ItemsOf, KeepsBindings;
    var s' := After(s, l);
    var p := s.publisher.stage.p;
    var rows := s.publisher.todo[p];
    var done := Select(rows, s.publisher.denied, false);
    var items := ItemsOf(done);
    forall row | row in done ensures RowOk(s.index, p, row) {}
    ItemsAreRows(s.index, p, done);
    FinishAllSpec(s.index, items, Published, l.now);
    GrowthKeepsTrees(s.blobs, s'.blobs);
    BindingsFrame(s, s');
    RootsFrame(s, s');
    forall q, row | q in s'.publisher.todo && row in s'.publisher.todo[q] ensures RowOk(s'.index, q, row) {
      assert row in s.publisher.todo[q];
      if q == p { assert row.key in s.publisher.denied; }
      RowsLeft(s.index, s'.index, done, p, q, row);
    }
    forall k | k in s'.index.records && s'.index.records[k].status == Published && !Covered(s', k)
      ensures s.index.records[k].status == Published && !Covered(s, k)
      ensures Queues(s.index, k) ==> Queues(s'.index, k)
    {
      if k in KeysOf(items) {
        var row :| row in done && row.key == k;
        PublishedIsCovered(s, p, row);
      }
      QueuedStays(s.index, s'.index, p, done, k);
    }
  }

  /** A key none of the finished rows name stays queued. */
  lemma QueuedStays(index: IndexState, index': IndexState, p: nat, done: seq<Row>, key: string)
    requires forall row :: row in done ==> RowOk(index, p, row)
    requires index'.queue == index.queue - Seqs(ItemsOf(done)) && key !in KeysOf(ItemsOf(done))
    ensures Queues(index, key) ==> Queues(index', key)
  {
    ItemsAreRows(index, p, done);
    if n :| n in index.queue && index.queue[n] == key {
      assert n in index'.queue && index'.queue[n] == key;
    }
  }

  /** What is about to be marked published is in the tree under the local root. */
  lemma PublishedIsCovered(s: Sys, p: nat, row: Row)
    requires BaseInv(s) && s.publisher.Busy? && s.publisher.stage == Recorded(p) && p in s.publisher.todo
    requires row in Select(s.publisher.todo[p], s.publisher.denied, false)
    ensures row.key in s.index.records && Covered(s, row.key)
  {
    hide TreeAt, Stored, HasKey;
    assert row in s.publisher.todo[p] && RowOk(s.index, p, row);
  }

  /** Finished records keep their partitions and values. */
  lemma BindingsFrame(s: Sys, s': Sys)
    requires BaseInv(s) && KeepsBindings(s.index, s'.index) && Valid(s'.index) && s'.index.records.Keys == s.index.records.Keys
    requires s'.blobs == s.blobs && s'.inflight == s.inflight
    ensures IndexOk(s'.index) && ValuesOk(s')
  {
    hide Valid, RootsOk, DocOk, StageOk;
    forall k | k in s'.index.records
      ensures s'.index.records[k].partitionId == s.index.records[k].partitionId
      ensures s'.index.records[k].contentHash == s.index.records[k].contentHash
    {
      assert k in s.index.records;
    }
  }

  lemma MarkDeniedKeeps(s: Sys, l: Label)
    requires l.MarkDenied? && Enabled(s, l) && BaseInv(s)
    ensures BaseInv(After(s, l)) && KeepsCoverage(s, After(s, l))
  {
    hide TreeAt, Stored, KeepsTrees, RootsOk, DocOk, Covered, Valid, FinishAll, AreRows, KeysOf, Seqs, ItemsOf, KeepsBindings;
    var s' := After(s, l);
    var p := s.publisher.stage.p;
    var done := s.publisher.todo[p];
    var items := ItemsOf(done);
    ItemsAreRows(s.index, p, done);
    FinishAllSpec(s.index, items, Denylisted, l.now);
    GrowthKeepsTrees(s.blobs, s'.blobs);
    BindingsFrame(s, s');
    RootsFrame(s, s');
    forall q, row | q in s'.publisher.todo && row in s'.publisher.todo[q] ensures RowOk(s'.index, q, row) {
      assert RowOk(s.index, q, row);
      forall r | r in done ensures r.key != row.key {
        assert RowOk(s.index, p, r);
      }
      RowsLeft(s.index, s'.index, done, p, q, row);
    }
    forall k | k in s'.index.records && s'.index.records[k].status == Published && !Covered(s', k)
      ensures s.index.records[k].status == Published && !Covered(s, k)
      ensures Queues(s.index, k) ==> Queues(s'.index, k)
    {
      QueuedStays(s.index, s'.index, p, done, k);
    }
  }

  // ----- Restart, damage and collection

  lemma SeedKeeps(s: Sys, l: Label)
    requires l.Seed? && Enabled(s, l) && BaseInv(s)
    ensures BaseInv(After(s, l)) && KeepsCoverage(s, After(s, l))
  {
    hide TreeAt, SoundRoot, Covered, KeepsCoverage, IndexOk, ValuesOk, TodoOk;
    var s' := After(s, l);
    assert l.p !in s.dangling;
    RootTableFrame(s, s');
    ContainsSelf(TreeAt(s.blobs, s.doc[l.p].root));
    SeedCovers(s, l);
  }

  lemma SeedCovers(s: Sys, l: Label)
    requires l.Seed? && Enabled(s, l)
    ensures KeepsCoverage(s, After(s, l))
  {
    hide TreeAt, HasKey;
    CoverageFrame(s, After(s, l));
  }

  lemma HealKeeps(s: Sys, l: Label)
    requires l.Heal? && Enabled(s, l) && BaseInv(s)
    ensures BaseInv(After(s, l)) && KeepsCoverage(s, After(s, l))
  {
    hide TreeAt, Stored, WellFormed, Contains, KeepsCoverage, Covered, Valid;
    var s' := After(s, l);
    GrowthKeepsTrees(s.blobs, s'.blobs);
    ContainsSelf(TreeAt(s.blobs, s.index.localRoots[l.p]));
    HealCovers(s, l);
  }

  lemma HealCovers(s: Sys, l: Label)
    requires l.Heal? && Enabled(s, l) && BaseInv(s)
    ensures KeepsCoverage(s, After(s, l))
  {
    hide TreeAt, Stored, WellFormed, HasKey, Contains, KeepsCoverage, Valid, ValuesOk;
    var s' := After(s, l);
    GrowthKeepsTrees(s.blobs, s'.blobs);
    forall k | k in s'.index.records && Covered(s, k) ensures Covered(s', k) {
      var p := s.index.records[k].partitionId;
      if p !in s.index.localRoots { assert p in s.doc && p !in s.dangling; }
    }
    CoverageFrame(s, s');
  }

  lemma {:induction false} RepresentsWithout(blobs: map<Hash, Bytes>, h: Hash, root: Option<Hash>, t: Tree)
    requires Represents(blobs, root, t) && NodeAt(blobs, h) == None
    ensures Represents(blobs - {h}, root, t)
    decreases t
  {
    if root.Some? { assert NodeAt(blobs - {h}, root.value) == NodeAt(blobs, root.value); }
    hide NodeAt;
    if t.Branch? {
      forall i | 0 <= i < FANOUT ensures Represents(blobs - {h}, NodeAt(blobs, root.value).value.slots[i], t.children[i]) {
        RepresentsWithout(blobs, h, NodeAt(blobs, root.value).value.slots[i], t.children[i]);
      }
    }
  }

  lemma DamageKeeps(s: Sys, l: Label)
    requires l.Damage? && Enabled(s, l) && BaseInv(s)
    ensures BaseInv(After(s, l)) && KeepsCoverage(s, After(s, l))
  {
    hide Represents, WellFormed, HasKey, Contains, StageOk, TodoOk, RootsOk, DocOk, Covered, Valid, TreeAt, Stored;
    var s' := After(s, l);
    DamageKeepsTrees(s, l);
    RootsFrame(s, s');
    CoverageFrame(s, s');
  }

  lemma DamageKeepsTrees(s: Sys, l: Label)
    requires l.Damage? && Enabled(s, l)
    ensures KeepsTrees(s.blobs, After(s, l).blobs)
  {
    hide Represents;
    var s' := After(s, l);
    var c := s.doc[l.p].content;
    forall h | Stored(s.blobs, h) ensures Stored(s'.blobs, h) && TreeAt(s'.blobs, h) == TreeAt(s.blobs, h) {
      var t := TreeAt(s.blobs, h);
      RepresentsWithout(s.blobs, c, Some(h), t);
      TreeAtIs(s'.blobs, h, t);
    }
  }

  /** The partitions whose document root differs from the local one. */
  ghost function AheadIn(s: Sys): set<nat> {
    set q | q in s.doc && q in s.index.localRoots && s.doc[q].root != s.index.localRoots[q]
  }

  lemma CollectStep(s: Sys, live: set<Hash>)
    requires s.publisher == Idle && s.inflight == multiset{} && Protects(s, live)
    requires forall p: nat :: p < PARTITIONS ==> WriterRoot(s, p).Success?
    ensures Enabled(s, Collect(live, Kept(s.blobs, live)))
    ensures After(s, Collect(live, Kept(s.blobs, live))) == s.(blobs := Kept(s.blobs, live), dangling := s.dangling + AheadIn(s))
  {
    hide Protects;
  }

  /** A sweep keeps the tree under every writer root. */
  lemma SweepKeepsWriterTree(s: Sys, l: Label, p: nat, h: Hash)
    requires l.Collect? && Enabled(s, l) && WriterRoot(s, p) == Success(Some(h)) && Stored(s.blobs, h)
    ensures Stored(l.kept, h) && TreeAt(l.kept, h) == TreeAt(s.blobs, h)
  {
    var t := TreeAt(s.blobs, h);
    assert Represents(s.blobs, Some(h), t);
    assert Reach(s.blobs, Some(h), t) <= l.live;
    SweepKeepsTree(s.blobs, l.kept, l.live, Some(h), t);
    TreeAtIs(l.kept, h, t);
  }

  lemma CollectKeeps(s: Sys, l: Label)
    requires l.Collect? && Enabled(s, l) && BaseInv(s)
    ensures BaseInv(After(s, l)) && KeepsCoverage(s, After(s, l))
  {
    hide TreeAt, Stored, WellFormed, HasKey, Contains, Represents, Reach, Valid, KeepsCoverage;
    var s' := After(s, l);
    forall p | p in s.index.localRoots
      ensures SoundRoot(s'.blobs, s.index.localRoots[p])
      ensures TreeAt(s'.blobs, s.index.localRoots[p]) == TreeAt(s.blobs, s.index.localRoots[p])
    {
      SweepKeepsWriterTree(s, l, p, s.index.localRoots[p]);
    }
    forall p | p in s.doc && p !in s'.dangling
      ensures SoundRoot(s'.blobs, s.doc[p].root)
      ensures TreeAt(s'.blobs, s.doc[p].root) == TreeAt(s.blobs, s.doc[p].root)
    {
      if p !in s.index.localRoots {
        assert WriterRoot(s, p).Success?;
        SweepKeepsWriterTree(s, l, p, s.doc[p].root);
      }
    }
    assert ValuesOk(s') by {
      forall k | k in s'.index.records ensures ValueAt(s'.blobs, s'.index.records[k].contentHash) {
        assert s.index.records[k].contentHash in ContentHashes(s.index);
      }
    }
    forall k | k in s'.index.records && Covered(s, k) ensures Covered(s', k) {
      var p := s.index.records[k].partitionId;
      if p !in s.index.localRoots { assert p !in s'.dangling; }
    }
    CoverageFrame(s, s');
  }

  // ----- Backing

  lemma BackedAt(s: Sys, h: Hash)
    requires BackedOk(s) && h in Tracked(s)
    ensures Backed(s.index, TreeAt(s.blobs, h))
  {}

  lemma BackedIs(s: Sys)
    requires forall h :: h in Tracked(s) ==> Backed(s.index, TreeAt(s.blobs, h))
    ensures BackedOk(s)
  {}

  lemma TrackedIsSound(s: Sys, h: Hash)
    requires BaseInv(s) && h in Tracked(s)
    ensures SoundRoot(s.blobs, h)
  {
    hide SoundRoot, Valid, ValuesOk, Contains, TreeAt, HoldsKeys;
  }

  /** Only building names a root that was not named before. */
  lemma TrackedStep(s: Sys, l: Label)
    requires Enabled(s, l) && BaseInv(s)
    ensures Tracked(After(s, l)) <= Tracked(s) + if l.Build? then {l.root} else {}
  {
    hide Valid, ValuesOk, RootsOk, SoundRoot, Contains, TreeAt, HoldsKeys, Fresh, BuildsOn, Protects, Swept, Select, OldestRows, Group,
         FinishAll, SubmitAll, TodoOk, Grows, ItemsOf;
    var s' := After(s, l);
    match l {
      case Commit(subs) => SubmitKeepsRoots(s.index, subs);
      case MarkPublished(now) =>
        FinishKeepsRoots(s.index, ItemsOf(Select(s.publisher.todo[s.publisher.stage.p], s.publisher.denied, false)), Published, now);
      case MarkDenied(now) => FinishKeepsRoots(s.index, ItemsOf(s.publisher.todo[s.publisher.stage.p]), Denylisted, now);
      case _ =>
    }
    forall h | h in Tracked(s') ensures h in Tracked(s) || (l.Build? && h == l.root) {
      TrackedWhy(s', h);
      TrackedOf(s);
    }
  }

  lemma TrackedWhy(s: Sys, h: Hash)
    requires h in Tracked(s)
    ensures || (exists p :: p in s.index.localRoots && s.index.localRoots[p] == h)
            || (exists p :: p in s.doc && p !in s.dangling && s.doc[p].root == h)
            || (s.publisher.Busy? && (s.publisher.stage.Built? || s.publisher.stage.DocWritten?) && s.publisher.stage.root == h)
  {}

  lemma TrackedOf(s: Sys)
    ensures forall p :: p in s.index.localRoots ==> s.index.localRoots[p] in Tracked(s)
    ensures forall p :: p in s.doc && p !in s.dangling ==> s.doc[p].root in Tracked(s)
    ensures s.publisher.Busy? && (s.publisher.stage.Built? || s.publisher.stage.DocWritten?) ==> s.publisher.stage.root in Tracked(s)
  {}

  /** A root named before and after a step denotes the same tree. */
  lemma TrackedTree(s: Sys, l: Label, h: Hash)
    requires Enabled(s, l) && BaseInv(s) && h in Tracked(s) && h in Tracked(After(s, l))
    ensures TreeAt(After(s, l).blobs, h) == TreeAt(s.blobs, h)
  {
    hide TreeAt, Stored, Valid, Contains, WellFormed, Represents, NodeAt, Enabled, BaseInv, Tracked, After;
    TrackedIsSound(s, h);
    if l.Collect? {
      CollectedTree(s, l, h);
    } else if l.Damage? {
      DamageKeepsTrees(s, l);
    } else {
      StepGrows(s, l);
      GrowthKeepsTrees(s.blobs, After(s, l).blobs);
    }
  }

  lemma StepGrows(s: Sys, l: Label)
    requires Enabled(s, l) && !l.Collect? && !l.Damage?
    ensures Grows(s.blobs, After(s, l).blobs)
  {
    hide BuildsOn, Select, OldestRows, FinishAll, SubmitAll;
  }

  /** What a sweep leaves named it leaves whole. */
  lemma CollectedTree(s: Sys, l: Label, h: Hash)
    requires l.Collect? && Enabled(s, l) && BaseInv(s) && h in Tracked(After(s, l))
    ensures TreeAt(After(s, l).blobs, h) == TreeAt(s.blobs, h)
  {
    hide TreeAt, Stored, Valid, Contains, WellFormed, Represents, Reach, Swept, ValuesOk;
    var s' := After(s, l);
    TrackedWhy(s', h);
    if p :| p in s.index.localRoots && s.index.localRoots[p] == h {
      SweepKeepsWriterTree(s, l, p, h);
    } else {
      var p :| p in s.doc && p !in s'.dangling && s.doc[p].root == h;
      assert WriterRoot(s, p).Success?;
      assert SoundRoot(s.blobs, h);
      SweepKeepsWriterTree(s, l, p, h);
    }
  }

  lemma BuildIsBacked(s: Sys, l: Label)
    requires l.Build? && Enabled(s, l) && BaseInv(s) && BackedOk(s)
    ensures Backed(s.index, TreeAt(After(s, l).blobs, l.root))
  {
    hide TreeAt, Stored, RootsOk, DocOk, StageOk, Valid, ValuesOk, Represents, WellFormed, Entries, HamtLaws.InsertBatch, Backed, BackedOk;
    var rows := Select(s.publisher.todo[l.p], s.publisher.denied, false);
    var t :| && Represents(s.blobs, WriterRoot(s, l.p).value, t) && WellFormed(t, 0)
             && HamtLaws.InsertBatch(t, EntriesOf(rows), {}, LEAF_MAX).Success?
             && Represents(l.grown, Some(l.root), HamtLaws.InsertBatch(t, EntriesOf(rows), {}, LEAF_MAX).value);
    var t' := HamtLaws.InsertBatch(t, EntriesOf(rows), {}, LEAF_MAX).value;
    CurrentTree(s, l.p, t);
    BuiltTree(s.index, t, l.p, rows, t');
    TreeAtIs(l.grown, l.root, t');
  }
}
