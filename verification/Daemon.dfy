/** The daemon's tasks as code over the real components - the publish cycle, healing and seeding
    (`registryd/src/publisher.rs`, `registry-node/src/pointer_doc.rs`).

    Each task is proved to be a path of the state machine in `Registry`, so everything proved there of
    runs holds of it: between any two durable writes other tasks may act, and any call may fail. */
module Daemon {
  import opened Wrappers
  import opened Digests
  import opened Blobs
  import opened NodeCodec
  import opened HamtTree
  import opened HamtStore
  import opened Index
  import opened RecordIndexes
  import opened Registry
  import opened RegistryInv
  import opened RegistryLaws
  import opened Cycles

  // ----- Paths of the state machine

  ghost predicate Reaches(s: Sys, s': Sys) {
    exists states, labels :: Run(states, labels) && states[0] == s && states[|labels|] == s'
  }

  lemma ReachesSelf(s: Sys)
    ensures Reaches(s, s)
  {
    assert Run([s], []);
  }

  lemma ReachesStep(s: Sys, m: Sys, l: Label)
    requires Reaches(s, m) && Enabled(m, l)
    ensures Reaches(s, After(m, l))
  {
    hide Enabled, After;
    var states, labels :| Run(states, labels) && states[0] == s && states[|labels|] == m;
    var states', labels' := states + [After(m, l)], labels + [l];
    forall i | 0 <= i < |labels'| ensures Enabled(states'[i], labels'[i]) && states'[i + 1] == After(states'[i], labels'[i]) {
      if i < |labels| { assert Enabled(states[i], labels[i]) && states[i + 1] == After(states[i], labels[i]); }
    }
    assert Run(states', labels') && states'[0] == s && states'[|labels'|] == After(m, l);
  }

  lemma {:induction false} ReachesAlong(a: Sys, states: seq<Sys>, labels: seq<Label>)
    requires Run(states, labels) && Reaches(a, states[0])
    ensures Reaches(a, states[|labels|])
  {
    hide Enabled, After, Reaches;
    if labels != [] {
      var n := |labels| - 1;
      ReachesAlong(a, states[..n + 1], labels[..n]);
      ReachesStep(a, states[n], labels[n]);
    }
  }

  lemma ReachesOn(a: Sys, b: Sys, c: Sys)
    requires Reaches(a, b) && Reaches(b, c)
    ensures Reaches(a, c)
  {
    hide Enabled, After;
    var states, labels :| Run(states, labels) && states[0] == b && states[|labels|] == c;
    ReachesAlong(a, states, labels);
  }

  /** One step: reached, and the invariants carried along. */
  lemma Took(start: Sys, before: Sys, l: Label, after: Sys)
    requires Reaches(start, before) && BaseInv(before) && Enabled(before, l) && after == After(before, l)
    ensures Reaches(start, after) && BaseInv(after)
  {
    hide *;
    ReachesStep(start, before, l);
    StepKeepsInv(before, l);
  }

  /** Each of the blobs was in the store at some point of a path from `start`. */
  ghost predicate WasStored(start: Sys, lost: set<Hash>) {
    forall h :: h in lost ==> exists m: Sys :: Reaches(start, m) && h in m.blobs
  }

  lemma NoneWasStored(start: Sys)
    ensures WasStored(start, {})
  {}

  lemma BothWereStored(start: Sys, some: set<Hash>, more: set<Hash>)
    requires WasStored(start, some) && WasStored(start, more)
    ensures WasStored(start, some + more)
  {}

  /** What is proved of runs holds of paths: nothing published is lost on the way. */
  lemma PathKeepsCoverage(s: Sys, s': Sys)
    requires Reaches(s, s') && BaseInv(s)
    ensures BaseInv(s') && KeepsBindings(s.index, s'.index)
    ensures CoverageOk(s) ==> CoverageOk(s')
    ensures Mended(s) ==> Mended(s')
    ensures BackedOk(s) ==> BackedOk(s')
  {
    hide Enabled, After, BaseInv, CoverageOk, Mended, KeepsBindings, BackedOk;
    var states, labels :| Run(states, labels) && states[0] == s && states[|labels|] == s';
    RunsKeepInv(states, labels, 0, |labels|);
  }

  /** At some point of a path from `start` one of the batch's partitions was stuck. */
  ghost predicate StuckOn(start: Sys, batch: seq<Row>, denied: set<string>) {
    exists m: Sys, p: nat :: Reaches(start, m) && p in Group(batch) && Stuck(m, p, Select(RowsOf(batch, p), denied, false))
  }

  /** So for some batch. */
  ghost predicate StuckSomewhere(start: Sys) {
    exists batch, denied :: StuckOn(start, batch, denied)
  }

  lemma SomewhereStuck(start: Sys, batch: seq<Row>, denied: set<string>)
    requires StuckOn(start, batch, denied)
    ensures StuckSomewhere(start)
  {
    hide StuckOn;
  }

  lemma StuckFrom(start: Sys, s: Sys)
    requires Reaches(start, s) && StuckSomewhere(s)
    ensures StuckSomewhere(start)
  {
    hide Reaches, Stuck, RowsOf, Group;
    var batch, denied :| StuckOn(s, batch, denied);
    var m: Sys, p: nat :| Reaches(s, m) && p in Group(batch) && Stuck(m, p, Select(RowsOf(batch, p), denied, false));
    ReachesOn(start, s, m);
    assert StuckOn(start, batch, denied);
  }

  lemma StuckAt(start: Sys, m: Sys, p: nat, batch: seq<Row>, denied: set<string>)
    requires Reaches(start, m) && p in Group(batch) && Stuck(m, p, Select(RowsOf(batch, p), denied, false))
    ensures StuckOn(start, batch, denied)
  {}

  // ----- Queue rows over a path

  ghost function TodoSeqs(todo: map<nat, seq<Row>>): set<nat> {
    set p, row | p in todo && row in todo[p] :: row.seq_
  }

  /** Of the rows there were, exactly `gone` are gone; anything new has a new number. */
  ghost predicate RowsGone(before: IndexState, after: IndexState, gone: set<nat>) {
    && before.nextSeq <= after.nextSeq
    && (forall n :: n in after.queue && n < before.nextSeq ==> n in before.queue && n !in gone && after.queue[n] == before.queue[n])
    && (forall n :: n in before.queue && n !in gone ==> n in after.queue)
  }

  lemma RowsGoneOn(a: IndexState, b: IndexState, c: IndexState, x: set<nat>, y: set<nat>)
    requires Valid(a) && Valid(b) && RowsGone(a, b, x) && RowsGone(b, c, y)
    ensures RowsGone(a, c, x + y)
  {}

  lemma ItemSeqs(rows: seq<Row>)
    ensures Seqs(ItemsOf(rows)) == RowSeqs(rows)
  {
    var items := ItemsOf(rows);
    forall n | n in Seqs(items) ensures n in RowSeqs(rows) {
      var i :| 0 <= i < |items| && items[i].seq_ == n;
      assert rows[i] in rows;
    }
    forall n | n in RowSeqs(rows) ensures n in Seqs(items) {
      var row :| row in rows && row.seq_ == n;
      var i :| 0 <= i < |rows| && rows[i] == row;
      assert items[i].seq_ == n;
    }
  }

  // ----- The pointer document

  class PointerDoc {
    const store: BlobStore
    var entries: map<nat, DocEntry>
    var similarity: Option<DocEntry>     // the similarity index's root, where a deployment publishes one

    constructor (store: BlobStore)
      ensures this.store == store && entries == map[] && similarity == None
    {
      this.store := store;
      entries, similarity := map[], None;
    }

    method GetSimilarityRoot() returns (r: Result<Option<Hash>, ()>)
      ensures r.Success? ==>
                if similarity.None? then r.value == None
                else similarity.value.content in store.blobs && r.value == Some(similarity.value.root)
      ensures r.Failure? ==> similarity.Some? && (store.reliable ==> similarity.value.content !in store.blobs)
    {
      if similarity.None? {
        return Success(None);
      }
      var content := store.Get(similarity.value.content);
      if content.Failure? || content.value.None? {
        return Failure(());
      }
      return Success(Some(similarity.value.root));
    }

    method GetPartitionRoot(p: nat) returns (r: Result<Option<Hash>, ()>)
      ensures r.Success? ==>
                if p !in entries then r.value == None
                else entries[p].content in store.blobs && r.value == Some(entries[p].root)
      ensures r.Failure? ==> p in entries && (store.reliable ==> entries[p].content !in store.blobs)
    {
      if p !in entries {
        return Success(None);
      }
      var content := store.Get(entries[p].content);
      if content.Failure? || content.value.None? {
        return Failure(());
      }
      return Success(Some(entries[p].root));
    }

    method SetPartitionRoot(p: nat, root: Hash) returns (r: Result<(), ()>)
      modifies this`entries, store`blobs, store`clashed
      ensures r.Success? ==>
                && Storable(old(store.blobs), root.bytes)
                && store.blobs == old(store.blobs)[Blake3(root.bytes) := root.bytes]
                && entries == old(entries)[p := EntryFor(root)]
                && entries[p].root == root && entries[p].content in store.blobs && store.blobs[entries[p].content] == root.bytes
      ensures r.Failure? ==> entries == old(entries) && Grows(old(store.blobs), store.blobs)
      ensures r.Failure? && store.reliable ==> store.clashed
    {
      var put := store.Put(root.bytes);
      if put.Failure? {
        return Failure(());
      }
      var failed: bool := *;
      if failed && !store.reliable {
        return Failure(());
      }
      entries := entries[p := EntryFor(root)];
      return Success(());
    }
  }

  // ----- The daemon

  class Daemon {
    const index: RecordIndex
    const store: BlobStore
    const pointerDoc: PointerDoc
    const offline: bool                  // no other task runs: the command-line tools
    var inflight: multiset<Submission>
    var batched: multiset<Submission>    // those of them that belong to the batch submission under way
    var inBatch: bool
    var activeWrites: nat                // publish cycles and submissions under way
    var publisher: Registry.Publisher    // the local state of the cycle under way
    ghost var dangling: set<nat>

    /** A start, or a restart after a crash, over whatever the disk holds. */
    constructor (index: RecordIndex, store: BlobStore, pointerDoc: PointerDoc, offline: bool, ghost dangling: set<nat>)
      ensures this.index == index && this.store == store && this.pointerDoc == pointerDoc && this.offline == offline
      ensures State() == Sys(index.State(), pointerDoc.entries, store.blobs, multiset{}, Idle, dangling) && Counted() && !inBatch
    {
      this.index, this.store, this.pointerDoc, this.offline := index, store, pointerDoc, offline;
      inflight, batched, inBatch, activeWrites := multiset{}, multiset{}, false, 0;
      publisher, this.dangling := Idle, dangling;
    }

    ghost function State(): Sys
      reads this, index, store, pointerDoc
    {
      Sys(index.State(), pointerDoc.entries, store.blobs, inflight, publisher, dangling)
    }

    /** One guard for each submission in flight on its own, one for a batch and one for a cycle. */
    ghost predicate Counted()
      reads this
    {
      && batched <= inflight && (!inBatch ==> batched == multiset{})
      && activeWrites + |batched| == |inflight| + (if inBatch then 1 else 0) + (if publisher.Busy? then 1 else 0)
    }

    /** Neither the database nor the store fails by itself. */
    predicate Reliable() {
      index.reliable && store.reliable
    }

    ghost predicate Ready()
      reads this, index, store, pointerDoc
    {
      pointerDoc.store == store && BaseInv(State()) && Counted()
    }

    /** Since `start`: the daemon took a path of the state machine, and of the queue rows there were
        then exactly `gone` are gone. */
    ghost predicate On(start: Sys, gone: set<nat>)
      reads this, index, store, pointerDoc
    {
      && Valid(start.index) && Reaches(start, State()) && RowsGone(start.index, index.State(), gone)
      && (offline ==> index.nextSeq == start.index.nextSeq)
    }

    // ----- Other tasks

    /** Whatever the API and the operator may do between two writes of a task, and which document
        contents a damaged disk may lose meanwhile. No record and no tree there was is changed. */
    method OtherTasks(ghost start: Sys, ghost gone: set<nat>) returns (ghost lost: set<Hash>)
      requires Ready() && On(start, gone)
      modifies this`inflight, this`activeWrites, index, store
      ensures Ready() && On(start, gone)
      ensures index.localRoots == old(index.localRoots)
      ensures LosesOnly(old(store.blobs), lost) && WasStored(start, lost)
      ensures Quiet(old(State()), State())
    {
      hide Ready, On, WasStored, Quiet;
      NoneWasStored(start);
      ghost var first := State();
      QuietSelf(first);
      var rounds: nat :| true;
      lost := {};
      if offline {
        return;
      }
      for i := 0 to rounds
        invariant Ready() && On(start, gone) && index.localRoots == old(index.localRoots)
        invariant LosesOnly(old(store.blobs), lost) && WasStored(start, lost)
        invariant Quiet(first, State())
      {
        ghost var before := State();
        ghost var more := OneOtherStep(start, gone);
        QuietOn(first, before, State());
        BothWereStored(start, lost, more);
        lost := lost + more;
      }
    }

    /** Of what was stored only `lost` may be missing, all of it content of document entries. */
    ghost predicate LosesOnly(before: map<Hash, Bytes>, lost: set<Hash>)
      reads this, pointerDoc, store
    {
      && (forall h :: h in before && h !in lost ==> h in store.blobs)
      && (forall h :: h in lost ==> exists p :: p in pointerDoc.entries && pointerDoc.entries[p].content == h)
      && (offline ==> lost == {})
    }

    method OneOtherStep(ghost start: Sys, ghost gone: set<nat>) returns (ghost lost: set<Hash>)
      requires Ready() && On(start, gone) && !offline
      modifies this`inflight, this`activeWrites, index, store
      ensures Ready() && On(start, gone) && index.localRoots == old(index.localRoots)
      ensures LosesOnly(old(store.blobs), lost) && WasStored(start, lost)
      ensures Quiet(old(State()), State())
    {
      hide Ready, On, WasStored, Quiet;
      NoneWasStored(start);
      lost := {};
      var kind: nat, sub: Submission, subs: seq<Submission>, value: Bytes, key: string, p: nat := *, *, *, *, *, *;
      if kind == 0 {
        AcceptOne(sub, value, start, gone);
      } else if kind == 1 {
        EndSome(subs, start, gone);
      } else if kind == 2 {
        RequeueAny(key, start, gone);
      } else {
        lost := LoseEntry(p, start, gone);
      }
    }

    /** A handler that has validated a submission stores its value. */
    method AcceptOne(sub: Submission, value: Bytes, ghost start: Sys, ghost gone: set<nat>)
      requires Ready() && On(start, gone) && !offline
      modifies this`inflight, this`activeWrites, store
      ensures Ready() && On(start, gone) && Grows(old(store.blobs), store.blobs)
      ensures Quiet(old(State()), State())
    {
      hide Quiet, Enabled, After, BaseInv, RowsGone, Reaches, NodeAt, Valid;
      ghost var before := State();
      QuietSelf(before);
      if Validated(sub) && IsValue(value) && sub.record.contentHash == Blake3(value) {
        var put := store.Put(value);
        if put.Success? {
          inflight := inflight + multiset{sub};
          activeWrites := activeWrites + 1;
          OtherStep(start, before, Accept(sub, value), State(), gone);
        }
      }
    }

    /** Takes submissions that belong to no batch out of the count. */
    method LetGo(subs: seq<Submission>)
      requires Counted() && multiset(subs) <= inflight - batched
      modifies this`inflight, this`activeWrites
      ensures Counted() && inflight == old(inflight) - multiset(subs)
    {
      TakenOut(inflight, batched, multiset(subs));
      inflight := inflight - multiset(subs);
      activeWrites := activeWrites - |subs|;
    }

    /** Handlers commit their submissions, or fail or are dropped. */
    method EndSome(subs: seq<Submission>, ghost start: Sys, ghost gone: set<nat>)
      requires Ready() && On(start, gone) && !offline
      modifies this`inflight, this`activeWrites, index
      ensures Ready() && On(start, gone) && index.localRoots == old(index.localRoots)
      ensures Quiet(old(State()), State())
    {
      hide Quiet, Enabled, After, BaseInv, RowsGone, Reaches, SubmitAll, NodeAt, Valid, NeededValue, Counted;
      ghost var before := State();
      QuietSelf(before);
      if !(multiset(subs) <= inflight - batched) {
        return;
      }
      assert multiset(subs) <= inflight;
      var dropped: bool := *;
      if dropped {
        LetGo(subs);
        OtherStep(start, before, Drop(multiset(subs)), State(), gone);
        return;
      }
      var done := index.SubmitMany(subs);
      if done.Success? {
        LetGo(subs);
        OtherStep(start, before, Commit(subs), State(), gone);
      }
    }

    method RequeueAny(key: string, ghost start: Sys, ghost gone: set<nat>)
      requires Ready() && On(start, gone) && !offline
      modifies index
      ensures Ready() && On(start, gone) && index.localRoots == old(index.localRoots)
      ensures Quiet(old(State()), State())
    {
      hide Quiet, Enabled, After, BaseInv, RowsGone, Reaches, RequeueOne, NodeAt, Valid;
      ghost var before := State();
      QuietSelf(before);
      var known := index.Requeue(key);
      if known.Success? {
        OtherStep(start, before, RequeueKey(key), State(), gone);
      }
    }

    /** A torn write destroys an entry's content blob. */
    method LoseEntry(p: nat, ghost start: Sys, ghost gone: set<nat>) returns (ghost lost: set<Hash>)
      requires Ready() && On(start, gone) && !offline
      modifies store
      ensures Ready() && On(start, gone) && LosesOnly(old(store.blobs), lost) && WasStored(start, lost)
      ensures Quiet(old(State()), State())
    {
      hide Quiet, Enabled, After, BaseInv, RowsGone, Reaches, NodeAt, Valid;
      ghost var before := State();
      QuietSelf(before);
      lost := {};
      if p !in pointerDoc.entries {
        return;
      }
      var content := pointerDoc.entries[p].content;
      if content in store.blobs && NodeAt(store.blobs, content) == None
         && (forall k :: k in index.records ==> index.records[k].contentHash != content)
         && (forall other :: other in inflight ==> other.record.contentHash != content)
      {
        store.blobs := store.blobs - {content};
        lost := {content};
        OtherStep(start, before, Damage(p), State(), gone);
      }
    }

    // ----- The publish cycle, one durable write at a time

    ghost predicate Working(denied: set<string>, todo: map<nat, seq<Row>>, stage: Stage)
      reads this
    {
      publisher == Registry.Busy(denied, todo, stage)
    }

    /** An error: the guard is dropped and the queue rows stay for the next cycle. */
    method GiveUp(ghost before: Sys, ghost start: Sys, ghost gone: set<nat>)
      requires pointerDoc.store == store && BaseInv(before) && Counted() && publisher.Busy? && Reaches(start, before)
      requires Valid(start.index) && RowsGone(start.index, before.index, gone) && (offline ==> before.index.nextSeq == start.index.nextSeq)
      requires Grows(before.blobs, store.blobs) && State() == before.(blobs := store.blobs)
      modifies this`activeWrites, this`publisher
      ensures Ready() && On(start, gone) && publisher == Idle
    {
      hide Enabled, BaseInv, Reaches, RowsGone, Valid;
      publisher := Idle;
      FewerSubmissions(batched, inflight);
      activeWrites := activeWrites - 1;
      AbortEnabled(before, store.blobs);
      Took(start, before, Abort(store.blobs), State());
    }

    method CurrentRoot(p: nat) returns (r: Result<Option<Hash>, ()>)
      requires pointerDoc.store == store
      ensures r.Success? ==> r == WriterRoot(State(), p)
      ensures r.Failure? ==> p !in index.localRoots && p in pointerDoc.entries
      ensures r.Failure? && store.reliable ==> WriterRoot(State(), p).Failure?
    {
      if p in index.localRoots {
        return Success(Some(index.localRoots[p]));
      }
      r := pointerDoc.GetPartitionRoot(p);
    }

    /** Inserts the rows' entries on top of the current root; nothing refers to the result yet. */
    method BuildRoot(
      p: nat, rows: seq<Row>, denied: set<string>, todo: map<nat, seq<Row>>, ghost start: Sys, ghost gone: set<nat>
    )
      returns (r: Result<Hash, ()>)
      requires EntrySerializer() && Ready() && On(start, gone) && Working(denied, todo, Choosing)
      requires p in todo && rows == Select(todo[p], denied, false) && rows != []
      modifies this`activeWrites, this`publisher, store
      ensures Ready() && On(start, gone)
      ensures if r.Success? then Working(denied, todo, Built(p, r.value)) else publisher == Idle
      ensures if r.Success? then Underway(old(State()), State(), p, r.value, rows, pointerDoc.entries, index.localRoots)
              else Quiet(old(State()), State())
      ensures r.Failure? && store.reliable ==> store.clashed || Stuck(old(State()), p, rows)
    {
      hide Enabled, After, BaseInv, Reaches, Represents, WellFormed, HamtLaws.InsertBatch, RowsGone, Valid, KeepsTrees, Holds;
      ghost var before := State();
      GrowthKeepsTrees(before.blobs, before.blobs);
      var current := CurrentRoot(p);
      if current.Failure? {
        GiveUp(before, start, gone);
        return Failure(());
      }
      ghost var t := CurrentTreeOf(before, p);
      CurrentTreeIs(before, p);
      var built := HamtStore.InsertBatch(store, current.value, EntriesOf(rows), LEAF_MAX, {}, t);
      GrowthKeepsTrees(before.blobs, store.blobs);
      if built.Failure? {
        GiveUp(before, start, gone);
        if store.reliable && !store.clashed { BuildStuck(before, p, rows); }
        return Failure(());
      }
      publisher := publisher.(stage := Built(p, built.value));
      BuildStep(before, p, built.value, store.blobs, t);
      BuiltHolds(before, store.blobs, p, built.value, rows);
      Took(start, before, Build(p, built.value, store.blobs), State());
      return Success(built.value);
    }

    method WriteDocument(
      p: nat, root: Hash, denied: set<string>, todo: map<nat, seq<Row>>, ghost start: Sys, ghost gone: set<nat>
    )
      returns (r: Result<(), ()>)
      requires Ready() && On(start, gone) && Working(denied, todo, Built(p, root))
      modifies this`activeWrites, this`publisher, this`dangling, store, pointerDoc
      ensures Ready() && On(start, gone)
      ensures if r.Success? then Working(denied, todo, DocWritten(p, root)) else publisher == Idle
      ensures KeepsTrees(old(store.blobs), store.blobs)
      ensures r.Failure? && store.reliable ==> store.clashed
      ensures pointerDoc.entries == if r.Success? then old(pointerDoc.entries)[p := EntryFor(root)] else old(pointerDoc.entries)
    {
      hide BaseInv, Reaches, RowsGone, Valid, KeepsTrees;
      ghost var before := State();
      r := pointerDoc.SetPartitionRoot(p, root);
      GrowthKeepsTrees(before.blobs, store.blobs);
      if r.Failure? {
        GiveUp(before, start, gone);
        return;
      }
      publisher := publisher.(stage := DocWritten(p, root));
      dangling := dangling - {p};
      Took(start, before, WriteDoc, State());
    }

    method RecordRoot(
      p: nat, root: Hash, denied: set<string>, todo: map<nat, seq<Row>>, ghost start: Sys, ghost gone: set<nat>
    )
      returns (r: Result<(), ()>)
      requires Ready() && On(start, gone) && Working(denied, todo, DocWritten(p, root))
      modifies this`activeWrites, this`publisher, index
      ensures Ready() && On(start, gone)
      ensures if r.Success? then Working(denied, todo, Recorded(p)) else publisher == Idle
      ensures index.State() ==
              if r.Success? then old(index.State()).(localRoots := old(index.localRoots)[p := root]) else old(index.State())
      ensures index.reliable ==> r.Success?
    {
      hide BaseInv, Reaches, Valid;
      ghost var before := State();
      var done := index.SetLocalRoot(p, root);
      if done.Failure? {
        GiveUp(before, start, gone);
        return Failure(());
      }
      publisher := publisher.(stage := Recorded(p));
      Took(start, before, WriteLocalRoot, State());
      return Success(());
    }

    method SkipPartition(p: nat, denied: set<string>, todo: map<nat, seq<Row>>, ghost start: Sys, ghost gone: set<nat>)
      requires Ready() && On(start, gone) && Working(denied, todo, Choosing) && p in todo && Select(todo[p], denied, false) == []
      modifies this`publisher
      ensures Ready() && On(start, gone) && Working(denied, todo, Recorded(p))
    {
      hide BaseInv, Reaches, RowsGone, Valid, Select;
      ghost var before := State();
      publisher := publisher.(stage := Recorded(p));
      Took(start, before, Skip(p), State());
    }

    method MarkPublishedRows(
      p: nat, items: seq<Item>, now: int, denied: set<string>, todo: map<nat, seq<Row>>, ghost start: Sys, ghost gone: set<nat>
    )
      returns (r: Result<(), ()>)
      requires Ready() && On(start, gone) && Working(denied, todo, Recorded(p)) && p in todo
      requires items == ItemsOf(Select(todo[p], denied, false))
      modifies this`activeWrites, this`publisher, index
      ensures Ready()
      ensures if r.Success? then Working(denied, todo[p := Select(todo[p], denied, true)], Marked(p)) else publisher == Idle
      ensures On(start, if r.Success? then gone + Seqs(items) else gone)
      ensures index.localRoots == old(index.localRoots)
      ensures if r.Failure? then index.State() == old(index.State())
              else RecordsDone(old(index.State()), index.State(), RowKeys(Select(todo[p], denied, false)), denied, now)
      ensures index.reliable ==> r.Success?
    {
      hide BaseInv, Reaches, FinishAll, RowsGone, Valid, Seqs, ItemsOf, RecordsDone;
      ghost var before := State();
      FinishStep(before, p, Select(todo[p], denied, false), Published, now);
      FinishedRecords(before, p, Select(todo[p], denied, false), Published, now, denied);
      var done := index.Finish(items, Published, now);
      if done.Failure? {
        GiveUp(before, start, gone);
        return Failure(());
      }
      publisher := Registry.Busy(denied, todo[p := Select(todo[p], denied, true)], Marked(p));
      Took(start, before, MarkPublished(now), State());
      RowsGoneOn(start.index, before.index, index.State(), gone, Seqs(items));
      return Success(());
    }

    method MarkDeniedRows(
      p: nat, items: seq<Item>, now: int, denied: set<string>, todo: map<nat, seq<Row>>, ghost start: Sys, ghost gone: set<nat>
    )
      returns (r: Result<(), ()>)
      requires Ready() && On(start, gone) && Working(denied, todo, Marked(p)) && p in todo && items == ItemsOf(todo[p])
      modifies this`activeWrites, this`publisher, index
      ensures Ready()
      ensures if r.Success? then Working(denied, todo - {p}, Choosing) else publisher == Idle
      ensures On(start, if r.Success? then gone + Seqs(items) else gone)
      ensures index.localRoots == old(index.localRoots) && (r.Failure? ==> index.State() == old(index.State()))
      ensures r.Success? && (forall row :: row in todo[p] ==> row.key in denied) ==>
                RecordsDone(old(index.State()), index.State(), RowKeys(todo[p]), denied, now)
      ensures index.reliable ==> r.Success?
    {
      hide BaseInv, Reaches, FinishAll, RowsGone, Valid, Seqs, ItemsOf, RecordsDone;
      ghost var before := State();
      FinishStep(before, p, todo[p], Denylisted, now);
      FinishKeepsRoots(before.index, items, Denylisted, now);
      if forall row :: row in todo[p] ==> row.key in denied {
        FinishedRecords(before, p, todo[p], Denylisted, now, denied);
      }
      var done := index.Finish(items, Denylisted, now);
      if done.Failure? {
        GiveUp(before, start, gone);
        return Failure(());
      }
      publisher := Registry.Busy(denied, todo - {p}, Choosing);
      Took(start, before, MarkDenied(now), State());
      RowsGoneOn(start.index, before.index, index.State(), gone, Seqs(items));
      return Success(());
    }

    method SplitRows(rows: seq<Row>, denylist: set<string>) returns (publishable: seq<Row>, denied: seq<Row>)
      ensures publishable == Select(rows, denylist, false) && denied == Select(rows, denylist, true)
    {
      publishable, denied := [], [];
      for i := 0 to |rows|
        invariant publishable == Select(rows[..i], denylist, false) && denied == Select(rows[..i], denylist, true)
      {
        assert rows[..i + 1][..i] == rows[..i];
        if rows[i].key in denylist {
          denied := denied + [rows[i]];
        } else {
          publishable := publishable + [rows[i]];
        }
      }
      assert rows[..|rows|] == rows;
    }

    /** As `On`, with no more than `most` of the queue rows gone. */
    ghost predicate OnWithin(start: Sys, most: set<nat>)
      reads this, index, store, pointerDoc
    {
      exists gone :: gone <= most && On(start, gone)
    }

    /** The new root, written to the document and then to the local table; nothing when every row of the
        partition is denied. */
    method PublishRoot(
      p: nat, publishable: seq<Row>, denylist: set<string>, todo: map<nat, seq<Row>>, ghost start: Sys, ghost gone: set<nat>
    )
      returns (r: Result<(), ()>)
      requires EntrySerializer() && Ready() && On(start, gone) && Working(denylist, todo, Choosing)
      requires p in todo && publishable == Select(todo[p], denylist, false)
      modifies this`inflight, this`activeWrites, this`publisher, this`dangling, index, store, pointerDoc
      ensures Ready() && On(start, gone)
      ensures if r.Success? then Working(denylist, todo, Recorded(p)) else publisher == Idle
      ensures KeepsRecords(old(index.State()), index.State())
      ensures if r.Success? then RootsDone(old(State()), State(), p, todo[p], denylist)
              else RootsPartly(old(State()), State(), p, todo[p], denylist)
      ensures r.Failure? && Reliable() ==> store.clashed || Stuck(old(State()), p, publishable)
    {
      hide Ready, On, Select, EntrySerializer, KeepsTrees, KeepsRecords, Holds, RootsDone, RootsPartly, Underway, Quiet, Stuck;
      ghost var s := State();
      if publishable == [] {
        SkipPartition(p, denylist, todo, start, gone);
        QuietParts(s, State());
        NothingToBuild(s, State(), p, todo[p], denylist);
        return Success(());
      }
      var built := BuildRoot(p, publishable, denylist, todo, start, gone);
      if built.Failure? {
        QuietParts(s, State());
        QuietIsPartly(s, State(), p, todo[p], denylist);
        return Failure(());
      }
      ghost var m := State();
      var _ := OtherTasks(start, gone);
      QuietParts(m, State());
      StillUnderway(s, m, State(), p, built.value, publishable, m.doc, m.index.localRoots);
      m := State();
      var written := WriteDocument(p, built.value, denylist, todo, start, gone);
      SameRecords(m.index, index.State());
      StillUnderway(s, m, State(), p, built.value, publishable, m.doc, m.index.localRoots);
      UnderwayParts(s, State(), p, built.value, publishable);
      if written.Failure? {
        QuietIsPartly(s, State(), p, todo[p], denylist);
        return Failure(());
      }
      m := State();
      var _ := OtherTasks(start, gone);
      QuietParts(m, State());
      StillUnderway(s, m, State(), p, built.value, publishable, m.doc, m.index.localRoots);
      m := State();
      r := RecordRoot(p, built.value, denylist, todo, start, gone);
      SameRecords(m.index, index.State());
      SameTrees(store.blobs);
      StillUnderway(s, m, State(), p, built.value, publishable, m.doc, m.index.localRoots);
      UnderwayParts(s, State(), p, built.value, publishable);
      if r.Success? {
        RootsFinished(s, State(), p, built.value, todo[p], denylist);
      } else {
        RootsFailed(s, State(), p, built.value, todo[p], denylist);
      }
    }

    /** One partition of the batch: the denied rows are set aside, the others inserted, the new root
        written to the document and then to the local table, and only then the rows finished. */
    method PublishPartition(
      p: nat, rows: seq<Row>, denylist: set<string>, now: int, todo: map<nat, seq<Row>>, ghost start: Sys, ghost gone: set<nat>
    )
      returns (r: Result<nat, ()>)
      requires EntrySerializer() && Ready() && On(start, gone) && Working(denylist, todo, Choosing) && p in todo && rows == todo[p]
      modifies this`inflight, this`activeWrites, this`publisher, this`dangling, index, store, pointerDoc
      ensures Ready()
      ensures r.Success? ==> Working(denylist, todo - {p}, Choosing) && On(start, gone + RowSeqs(rows))
      ensures r.Success? ==> r.value == |Select(rows, denylist, false)|
      ensures r.Failure? ==> publisher == Idle && OnWithin(start, gone + RowSeqs(rows))
      ensures if r.Success? then PartitionDone(old(State()), State(), p, rows, denylist, now)
              else PartitionPartly(old(State()), State(), p, rows, denylist, now)
      ensures r.Failure? && Reliable() ==> store.clashed || Stuck(old(State()), p, Select(rows, denylist, false))
    {
      hide Ready, On, Reaches, Select, ItemsOf, Seqs, RowSeqs, EntrySerializer, KeepsRecords, RecordsDone, RecordsPartly, RowKeys,
           RootsDone, RootsPartly, KeepsTrees, PartitionDone, PartitionPartly, Stuck;
      ghost var s := State();
      var publishable, denied := SplitRows(rows, denylist);
      SelectedSeqs(rows, denylist);
      var done := PublishRoot(p, publishable, denylist, todo, start, gone);
      if done.Failure? {
        RootsOnly(s, State(), p, rows, denylist, now);
        return Failure(());
      }
      done := FinishRows(p, publishable, denied, denylist, now, todo, s, start, gone);
      return if done.Success? then Success(|publishable|) else Failure(());
    }

    /** With the root recorded: the publishable rows are finished, then the denied ones. */
    method FinishRows(
      p: nat, publishable: seq<Row>, denied: seq<Row>, denylist: set<string>, now: int, todo: map<nat, seq<Row>>,
      ghost s: Sys, ghost start: Sys, ghost gone: set<nat>
    )
      returns (r: Result<(), ()>)
      requires EntrySerializer() && Ready() && On(start, gone) && Working(denylist, todo, Recorded(p)) && p in todo
      requires publishable == Select(todo[p], denylist, false) && denied == Select(todo[p], denylist, true)
      requires KeepsRecords(s.index, index.State()) && RootsDone(s, State(), p, todo[p], denylist)
      modifies this`inflight, this`activeWrites, this`publisher, index, store
      ensures Ready()
      ensures r.Success? ==> Working(denylist, todo - {p}, Choosing) && On(start, gone + RowSeqs(todo[p]))
      ensures r.Failure? ==> publisher == Idle && OnWithin(start, gone + RowSeqs(todo[p]))
      ensures if r.Success? then PartitionDone(s, State(), p, todo[p], denylist, now)
              else PartitionPartly(s, State(), p, todo[p], denylist, now)
      ensures index.reliable ==> r.Success?
    {
      hide Ready, On, Reaches, Select, ItemsOf, Seqs, RowSeqs, EntrySerializer, KeepsRecords, RecordsDone, RecordsPartly, RowKeys,
           RootsDone, RootsPartly, KeepsTrees, PartitionDone, PartitionPartly, Quiet;
      SelectedSeqs(todo[p], denylist);
      ghost var m := State();
      KeptIsDone(s.index, m.index, denylist, now);
      var _ := OtherTasks(start, gone);
      QuietOnDone(s, m, State(), p, todo[p], {}, denylist, now);
      m := State();
      r := MarkPublishedRows(p, ItemsOf(publishable), now, denylist, todo, start, gone);
      if r.Failure? {
        SameIsPartly(s, m, State(), p, todo[p], {}, denylist, now);
        return;
      }
      FinishedOnDone(s, m, State(), p, todo[p], {}, RowKeys(publishable), denylist, now);
      m := State();
      ghost var gone' := gone + Seqs(ItemsOf(publishable));
      var todo' := todo[p := denied];
      var _ := OtherTasks(start, gone');
      QuietOnDone(s, m, State(), p, todo[p], {} + RowKeys(publishable), denylist, now);
      m := State();
      r := MarkDeniedRows(p, ItemsOf(denied), now, denylist, todo', start, gone');
      SelectedKeys(todo[p], denylist);
      if r.Failure? {
        SameIsPartly(s, m, State(), p, todo[p], {} + RowKeys(publishable), denylist, now);
        return;
      }
      FinishedOnDone(s, m, State(), p, todo[p], {} + RowKeys(publishable), RowKeys(denied), denylist, now);
      AllFinished(s, State(), p, todo[p], {} + RowKeys(publishable) + RowKeys(denied), denylist, now);
      assert gone' + Seqs(ItemsOf(denied)) == gone + RowSeqs(todo[p]);
      assert todo' - {p} == todo - {p};
    }

    method GroupRows(batch: seq<Row>) returns (groups: map<nat, seq<Row>>)
      ensures groups == Group(batch)
      ensures forall p :: p in groups ==> forall row :: row in groups[p] <==> row in batch && row.record.partitionId == p
      ensures forall row :: row in batch ==> row.record.partitionId in groups
      ensures InOrder(batch) ==> forall p :: p in groups ==> InOrder(groups[p])
    {
      groups := map[];
      for i := 0 to |batch|
        invariant groups == Group(batch[..i])
      {
        assert batch[..i + 1][..i] == batch[..i];
        var p := batch[i].record.partitionId;
        groups := groups[p := (if p in groups then groups[p] else []) + [batch[i]]];
      }
      assert batch[..|batch|] == batch;
      hide Group, InOrder;
      GroupedRows(batch);
      if InOrder(batch) { GroupedInOrder(batch); }
    }

    /** The partitions of a batch one after another, then the end of the cycle. */
    method PublishGroups(groups: map<nat, seq<Row>>, denylist: set<string>, now: int, ghost batch: seq<Row>, ghost start: Sys)
      returns (r: Result<nat, ()>)
      requires EntrySerializer() && Ready() && On(start, {}) && Working(denylist, groups, Choosing) && groups == Group(batch)
      modifies this`inflight, this`activeWrites, this`publisher, this`dangling, index, store, pointerDoc
      ensures Ready() && publisher == Idle && Reaches(start, State())
      ensures if r.Success? then On(start, TodoSeqs(groups)) else OnWithin(start, TodoSeqs(groups))
      ensures if r.Success? then CycleDone(old(State()), State(), batch, denylist, now)
              else CyclePartly(old(State()), State(), batch, denylist, now)
      ensures r.Success? ==> r.value == |Select(batch, denylist, false)|
      ensures r.Failure? && Reliable() ==> store.clashed || StuckOn(start, batch, denylist)
    {
      hide BaseInv, Reaches, RowsGone, RowSeqs, TodoSeqs, Valid, Select, GroupsDone, CycleDone, CyclePartly, PartitionDone,
           PartitionPartly, CountNew, Left, Group, RowsOf, On, OnWithin, Ready, Accounted, StuckOn;
      ghost var s := State();
      BeginOn(s);
      NoneGone(groups);
      NoneFinished(batch);
      ghost var finished: set<nat> := {};
      NoGroupDone(s, batch, denylist, now);
      GroupedRows(batch);
      CountAll(batch, groups.Keys, denylist);
      var todo := groups;
      ghost var gone: set<nat> := {};
      var published := 0;
      while todo != map[]
        invariant Ready() && On(start, gone) && Working(denylist, todo, Choosing)
        invariant Accounted(groups, todo, gone)
        invariant Left(batch, todo, finished)
        invariant GroupsDone(s, State(), batch, finished, denylist, now)
        invariant published == CountNew(batch, finished, denylist)
        decreases |todo|
      {
        var p := index.First(todo.Keys);
        TodoShrinks(todo, p);
        OneMoreGone(groups, todo, gone, p);
        var done := PublishGroup(p, denylist, now, todo, batch, finished, s, start, gone);
        if done.Failure? {
          WithinMore(start, gone + RowSeqs(todo[p]), TodoSeqs(groups));
          return Failure(());
        }
        finished := finished + {p};
        gone := gone + RowSeqs(todo[p]);
        todo := todo - {p};
        published := published + done.value;
      }
      AllGone(groups, gone);
      AllFinishedKeys(batch, finished);
      AllGroupsDone(s, State(), batch, denylist, now);
      ghost var last := State();
      EndCycle(denylist, start, gone);
      OnReaches(start, gone);
      SameCycle(s, last, s, State(), batch, denylist, now);
      return Success(published);
    }

    /** The next partition of the batch. */
    method PublishGroup(
      p: nat, denylist: set<string>, now: int, todo: map<nat, seq<Row>>, ghost batch: seq<Row>, ghost finished: set<nat>,
      ghost s: Sys, ghost start: Sys, ghost gone: set<nat>
    )
      returns (r: Result<nat, ()>)
      requires EntrySerializer() && Ready() && On(start, gone) && Working(denylist, todo, Choosing) && p in todo
      requires Left(batch, todo, finished) && BaseInv(s) && GroupsDone(s, State(), batch, finished, denylist, now)
      modifies this`inflight, this`activeWrites, this`publisher, this`dangling, index, store, pointerDoc
      ensures Ready() && Left(batch, todo - {p}, finished + {p})
      ensures r.Success? ==> Working(denylist, todo - {p}, Choosing) && On(start, gone + RowSeqs(todo[p]))
      ensures r.Success? ==> GroupsDone(s, State(), batch, finished + {p}, denylist, now)
      ensures r.Success? ==> r.value == CountNew(batch, finished + {p}, denylist) - CountNew(batch, finished, denylist)
      ensures r.Failure? ==> publisher == Idle && OnWithin(start, gone + RowSeqs(todo[p])) && Reaches(start, State())
      ensures r.Failure? ==> CyclePartly(s, State(), batch, denylist, now)
      ensures r.Failure? && Reliable() ==> store.clashed || StuckOn(start, batch, denylist)
    {
      hide Ready, On, OnWithin, BaseInv, Reaches, RowSeqs, Select, GroupsDone, CyclePartly, PartitionDone, PartitionPartly, CountNew,
           Left, Group, RowsOf, EntrySerializer, Stuck, StuckOn;
      ghost var m := State();
      OnReaches(start, gone);
      OneLess(batch, todo, finished, p);
      CountMore(batch, finished, p, denylist);
      r := PublishPartition(p, todo[p], denylist, now, todo, start, gone);
      if r.Failure? {
        if Stuck(m, p, Select(todo[p], denylist, false)) { StuckAt(start, m, p, batch, denylist); }
        WithinReaches(start, gone + RowSeqs(todo[p]));
        GroupFailed(s, m, State(), batch, finished, p, denylist, now);
      } else {
        GroupsNext(s, m, State(), batch, finished, p, denylist, now);
      }
    }

    lemma WithinMore(start: Sys, some: set<nat>, all: set<nat>)
      requires OnWithin(start, some) && some <= all
      ensures OnWithin(start, all)
    {
      hide On;
    }

    lemma WithinReaches(start: Sys, most: set<nat>)
      requires OnWithin(start, most)
      ensures Reaches(start, State())
    {
      hide On;
      var gone :| gone <= most && On(start, gone);
      OnReaches(start, gone);
    }

    method EndCycle(denied: set<string>, ghost start: Sys, ghost gone: set<nat>)
      requires Ready() && On(start, gone) && Working(denied, map[], Choosing)
      modifies this`activeWrites, this`publisher
      ensures Ready() && publisher == Idle && On(start, gone)
    {
      hide BaseInv, Reaches, RowsGone, Valid;
      ghost var last := State();
      publisher := Idle;
      FewerSubmissions(batched, inflight);
      activeWrites := activeWrites - 1;
      Took(start, last, End, State());
    }

    /** Takes the guard and the oldest rows; with none there is no cycle. */
    method BeginCycle(maxPending: nat, denylist: set<string>) returns (r: Result<seq<Row>, ()>)
      requires Ready() && publisher == Idle
      modifies this`activeWrites, this`publisher
      ensures Ready() && On(old(State()), {})
      ensures r.Success? ==> r.value == OldestRows(index.State(), maxPending)
      ensures if r.Success? && r.value != [] then Working(denylist, Group(r.value), Choosing) else State() == old(State())
      ensures State() == old(State()).(publisher := publisher)
      ensures index.reliable ==> r.Success?
    {
      hide BaseInv, Reaches, RowsGone, Group, OldestRows, Valid;
      ghost var start := State();
      ReachesSelf(start);
      NoRowsGone(start);
      activeWrites := activeWrites + 1;
      var batch := index.PendingBatch(maxPending);
      if batch.Failure? || batch.value == [] {
        activeWrites := activeWrites - 1;
        assert State() == start;
        return if batch.Failure? then Failure(()) else Success([]);
      }
      var groups := GroupRows(batch.value);
      publisher := Registry.Busy(denylist, groups, Choosing);
      Took(start, start, Begin(maxPending, denylist), State());
      return Success(batch.value);
    }

    /** One cycle over at most `maxPending` rows. It is a path of the state machine however it ends;
        when it succeeds, exactly the rows of its batch have left the queue, and when it fails, no rows
        but some of those. */
    method PublishCycle(maxPending: nat, denylist: set<string>, now: int) returns (r: Result<nat, ()>)
      requires EntrySerializer() && Ready() && publisher == Idle
      modifies this`inflight, this`activeWrites, this`publisher, this`dangling, index, store, pointerDoc
      ensures Ready() && publisher == Idle && Reaches(old(State()), State())
      ensures r.Success? ==>
                RowsGone(old(index.State()), index.State(), RowSeqs(OldestRows(old(index.State()), maxPending)))
      ensures r.Failure? ==>
                exists gone :: gone <= RowSeqs(OldestRows(old(index.State()), maxPending))
                               && RowsGone(old(index.State()), index.State(), gone)
      ensures r.Success? && offline ==> index.nextSeq == old(index.nextSeq)
      ensures if r.Success? then CycleDone(old(State()), State(), OldestRows(old(index.State()), maxPending), denylist, now)
              else CyclePartly(old(State()), State(), OldestRows(old(index.State()), maxPending), denylist, now)
      ensures r.Success? ==> r.value == |Select(OldestRows(old(index.State()), maxPending), denylist, false)|
      ensures r.Failure? && Reliable() ==>
                store.clashed || StuckOn(old(State()), OldestRows(old(index.State()), maxPending), denylist)
    {
      hide BaseInv, Reaches, RowsGone, RowSeqs, TodoSeqs, Group, OldestRows, Valid, CycleDone, CyclePartly, Select, StuckOn;
      ghost var start := State();
      NoRowsGone(start);
      var batch := BeginCycle(maxPending, denylist);
      ghost var begun, rows := State(), OldestRows(start.index, maxPending);
      if batch.Failure? || batch.value == [] {
        NothingDone(start, rows, denylist, now);
        return if batch.Failure? then Failure(()) else Success(0);
      }
      AllSeqs(batch.value);
      r := PublishGroups(publisher.todo, denylist, now, batch.value, start);
      SameCycle(begun, State(), start, State(), rows, denylist, now);
    }

    // ----- The publisher as another task

    /** One more write of the publisher, wherever it stands. */
    method PublisherStep(ghost start: Sys)
      requires EntrySerializer() && Ready() && Reaches(start, State())
      modifies this`inflight, this`activeWrites, this`publisher, this`dangling, index, store, pointerDoc
      ensures Ready() && Reaches(start, State())
    {
      hide Ready, On, Reaches, Select, ItemsOf, EntrySerializer;
      ghost var before := State();
      BeginOn(before);
      ghost var gone := StepOf(before);
      OnReaches(before, gone);
      ReachesOn(start, before, State());
    }

    method StepOf(ghost before: Sys) returns (ghost gone: set<nat>)
      requires EntrySerializer() && Ready() && before == State() && On(before, {})
      modifies this`inflight, this`activeWrites, this`publisher, this`dangling, index, store, pointerDoc
      ensures Ready() && On(before, gone)
    {
      hide Ready, On, Select, ItemsOf, EntrySerializer;
      gone := {};
      match publisher {
        case Idle => IdleStep(before);
        case Busy(denied, todo, Choosing) => ChooseStep(denied, todo, before);
        case Busy(denied, todo, Built(p, root)) => var _ := WriteDocument(p, root, denied, todo, before, {});
        case Busy(denied, todo, DocWritten(p, root)) => var _ := RecordRoot(p, root, denied, todo, before, {});
        case Busy(denied, todo, Recorded(p)) =>
          InTodo(p);
          var now: int, publishable, rest := *, [], [];
          publishable, rest := SplitRows(todo[p], denied);
          var done := MarkPublishedRows(p, ItemsOf(publishable), now, denied, todo, before, {});
          gone := if done.Success? then {} + Seqs(ItemsOf(publishable)) else {};
        case Busy(denied, todo, Marked(p)) =>
          InTodo(p);
          var now: int := *;
          var done := MarkDeniedRows(p, ItemsOf(todo[p]), now, denied, todo, before, {});
          gone := if done.Success? then {} + Seqs(ItemsOf(todo[p])) else {};
      }
    }

    method IdleStep(ghost before: Sys)
      requires Ready() && before == State() && On(before, {}) && publisher == Idle
      modifies this`activeWrites, this`publisher, this`dangling, index, store, pointerDoc
      ensures Ready() && On(before, {})
    {
      hide Ready, On;
      var kind: nat, max: nat, denylist: set<string>, p: nat := *, *, *, *;
      if kind == 0 {
        var _ := BeginCycle(max, denylist);
      } else if kind == 1 && p < PARTITIONS {
        var _, _ := SeedOne(p, before);
      } else if p in index.localRoots {
        var _ := HealOne(p, before);
      }
    }

    method ChooseStep(denied: set<string>, todo: map<nat, seq<Row>>, ghost before: Sys)
      requires EntrySerializer() && Ready() && before == State() && On(before, {}) && Working(denied, todo, Choosing)
      modifies this`activeWrites, this`publisher, store
      ensures Ready() && On(before, {})
    {
      hide Ready, On, Select, EntrySerializer;
      var p: nat := *;
      if todo == map[] {
        EndCycle(denied, before, {});
      } else if p in todo {
        var publishable, _ := SplitRows(todo[p], denied);
        if publishable == [] {
          SkipPartition(p, denied, todo, before, {});
        } else {
          var _ := BuildRoot(p, publishable, denied, todo, before, {});
        }
      }
    }

    lemma InTodo(p: nat)
      requires Ready() && publisher.Busy? && (publisher.stage == Recorded(p) || publisher.stage == Marked(p))
      ensures p in publisher.todo
    {}

    /** Everything that can happen between two writes of a batch submission: other submissions, requeueing,
        damage, and the publisher at any of its writes. No sweep: a guard is held. */
    method AnyTasks(ghost start: Sys)
      requires EntrySerializer() && Ready() && Reaches(start, State()) && inBatch
      modifies this`inflight, this`activeWrites, this`publisher, this`dangling, index, store, pointerDoc
      ensures Ready() && Reaches(start, State())
      ensures offline ==> State() == old(State()) && store.clashed == old(store.clashed)
    {
      if offline {
        return;
      }
      hide Ready, On, Reaches, EntrySerializer;
      var rounds: nat :| true;
      for i := 0 to rounds
        invariant Ready() && Reaches(start, State())
      {
        ghost var before := State();
        BeginOn(before);
        var _ := OtherTasks(before, {});
        OnReaches(before, {});
        ReachesOn(start, before, State());
        PublisherStep(start);
      }
    }

    // ----- Startup and periodic repair of the pointer document

    /** Whether the partition got a root from the document, and whether the document could not be read. */
    method SeedOne(p: nat, ghost start: Sys) returns (r: Result<bool, ()>, unread: bool)
      requires Ready() && On(start, {}) && publisher == Idle && p < PARTITIONS && SeededFrom(start)
      modifies index
      ensures Ready() && On(start, {}) && SeededFrom(start)
      ensures |index.localRoots| == |old(index.localRoots)| + if r == Success(true) then 1 else 0
      ensures old(index.localRoots).Keys <= index.localRoots.Keys <= old(index.localRoots).Keys + {p}
      ensures r == Success(true) ==>
                && p !in old(index.localRoots) && p in pointerDoc.entries
                && index.localRoots == old(index.localRoots)[p := pointerDoc.entries[p].root]
      ensures r != Success(true) ==> index.localRoots == old(index.localRoots)
      ensures r.Success? && !unread ==> p in index.localRoots || p !in pointerDoc.entries
      ensures index.reliable ==> r.Success?
      ensures unread ==> p in pointerDoc.entries && p !in index.localRoots && (store.reliable ==> !Readable(State(), p))
    {
      hide BaseInv, Reaches, RootsFrom, Enabled, After, Valid;
      unread := false;
      if p in index.localRoots {
        return Success(false), unread;
      }
      var root := pointerDoc.GetPartitionRoot(p);
      unread := root.Failure?;
      if root.Failure? || root.value.None? {
        return Success(false), unread;
      }
      ghost var before := State();
      var done := index.SetLocalRoot(p, root.value.value);
      if done.Failure? {
        return Failure(()), unread;
      }
      OneMoreSeeded(start.index.localRoots, before.index.localRoots, before.doc, p, root.value.value);
      SeedStep(before, p);
      Took(start, before, Seed(p), State());
      return Success(true), unread;
    }

    lemma NothingSeeded()
      ensures SeededFrom(State())
    {}

    /** What local roots there were stay, and any other is the document's. */
    ghost predicate SeededFrom(start: Sys)
      reads this, index, pointerDoc
    {
      RootsFrom(start.index.localRoots, index.localRoots, pointerDoc.entries)
    }

    lemma BeginOn(start: Sys)
      requires Ready() && start == State()
      ensures On(start, {}) && BaseInv(start)
    {
      hide BaseInv, Reaches, RowsGone, Valid;
      ReachesSelf(start);
      NoRowsGone(start);
    }

    lemma OnReaches(start: Sys, gone: set<nat>)
      requires On(start, gone)
      ensures Reaches(start, State())
    {
      hide Reaches, Valid, RowsGone;
    }

    /** Leaves a readable entry as it is and writes any other again from the local root; says whether it
        wrote. */
    method HealOne(p: nat, ghost start: Sys) returns (r: Result<bool, ()>)
      requires Ready() && On(start, {}) && publisher == Idle && p in index.localRoots
      modifies this`dangling, store, pointerDoc
      ensures Ready() && On(start, {}) && Grows(old(store.blobs), store.blobs)
      ensures r == Success(true) ==> pointerDoc.entries == old(pointerDoc.entries)[p := EntryFor(index.localRoots[p])]
      ensures r != Success(true) ==> pointerDoc.entries == old(pointerDoc.entries)
      ensures r.Success? ==> Readable(State(), p)
      ensures r == Success(true) && store.reliable ==> !Readable(old(State()), p)
      ensures r.Failure? && store.reliable ==> store.clashed
    {
      hide BaseInv, Reaches, Enabled, After, RowsGone, Valid;
      var root := pointerDoc.GetPartitionRoot(p);
      if root.Success? && root.value.Some? {
        return Success(false);
      }
      ghost var before := State();
      var done := pointerDoc.SetPartitionRoot(p, index.localRoots[p]);
      if done.Failure? {
        GrowStep(start, before, State());
        return Failure(());
      }
      dangling := dangling - {p};
      HealStep(before, p);
      Took(start, before, Heal(p), State());
      return Success(true);
    }

    lemma NothingRewritten()
      ensures Rewritten(pointerDoc.entries, {})
    {}

    /** Exactly the entries of `written` were replaced, by entries for the local roots. */
    ghost predicate Rewritten(before: map<nat, DocEntry>, written: set<nat>)
      reads this, index, pointerDoc
    {
      && pointerDoc.entries.Keys == before.Keys + written && written <= index.localRoots.Keys
      && forall p :: p in pointerDoc.entries ==>
           pointerDoc.entries[p] == if p in written then EntryFor(index.localRoots[p]) else before[p]
    }

    /** The partition has an entry, readable unless its content is among `lost`. */
    ghost predicate HealedBut(p: nat, lost: set<Hash>)
      reads this, pointerDoc, store
    {
      p in pointerDoc.entries && (pointerDoc.entries[p].content in store.blobs || pointerDoc.entries[p].content in lost)
    }

    lemma ReadableIsHealed(p: nat, lost: set<Hash>)
      requires Readable(State(), p)
      ensures HealedBut(p, lost)
    {}

  }

  ghost predicate RootsFrom(before: map<nat, Hash>, roots: map<nat, Hash>, doc: map<nat, DocEntry>) {
    && before.Keys <= roots.Keys
    && forall q :: q in roots ==> if q in before then roots[q] == before[q] else q in doc && roots[q] == doc[q].root
  }

  lemma OneMoreSeeded(before: map<nat, Hash>, roots: map<nat, Hash>, doc: map<nat, DocEntry>, p: nat, root: Hash)
    requires RootsFrom(before, roots, doc) && p !in roots && p in doc && root == doc[p].root
    ensures RootsFrom(before, roots[p := root], doc) && |roots[p := root]| == |roots| + 1
    ensures roots[p := root].Keys == roots.Keys + {p}
  {}

  /** What the publisher may meet between two of its writes. */
  ghost predicate IsOtherStep(s: Sys, l: Label, s': Sys) {
    match l
    case Accept(sub, value) =>
      && Validated(sub) && IsValue(value) && sub.record.contentHash == Blake3(value) && Storable(s.blobs, value)
      && s' == s.(blobs := s.blobs[Blake3(value) := value], inflight := s.inflight + multiset{sub})
    case Commit(subs) =>
      multiset(subs) <= s.inflight && s' == s.(index := SubmitAll(s.index, subs), inflight := s.inflight - multiset(subs))
    case Drop(dropped) => s' == s.(inflight := s.inflight - dropped)
    case RequeueKey(key) => s' == s.(index := RequeueOne(s.index, key))
    case Damage(p) =>
      && p in s.doc && NodeAt(s.blobs, s.doc[p].content) == None && !NeededValue(s, s.doc[p].content)
      && s' == s.(blobs := s.blobs - {s.doc[p].content})
    case _ => false
  }

  lemma FewerSubmissions(some: multiset<Submission>, all: multiset<Submission>)
    requires some <= all
    ensures |some| <= |all|
  {
    assert all == (all - some) + some;
  }

  lemma TakenOut(all: multiset<Submission>, kept: multiset<Submission>, some: multiset<Submission>)
    requires kept <= all && some <= all - kept
    ensures some <= all && kept <= all - some && |all - some| == |all| - |some| && |some| + |kept| <= |all|
  {
    assert all == (all - some) + some;
    assert all == (all - some - kept) + some + kept;
  }

  lemma QuietStep(s: Sys, l: Label, s': Sys)
    requires IsOtherStep(s, l, s')
    ensures Quiet(s, s')
  {
    hide KeepsTrees, NodeAt, NeededValue, Validated, IsValue, SubmitAll;
    match l {
      case Damage(_) => DamageKeepsTrees(s, l);
      case Commit(subs) =>
        forall k | k in s.index.records ensures k in s'.index.records && s'.index.records[k] == s.index.records[k] {
          SubmittedRecords(s.index, subs, k);
        }
        SubmitKeepsRoots(s.index, subs);
        GrowthKeepsTrees(s.blobs, s'.blobs);
      case _ => GrowthKeepsTrees(s.blobs, s'.blobs);
    }
  }

  lemma OtherStep(start: Sys, before: Sys, l: Label, after: Sys, gone: set<nat>)
    requires Reaches(start, before) && BaseInv(before) && Valid(start.index) && RowsGone(start.index, before.index, gone)
    requires IsOtherStep(before, l, after)
    ensures Reaches(start, after) && BaseInv(after) && RowsGone(start.index, after.index, gone)
    ensures after.index.localRoots == before.index.localRoots && Quiet(before, after)
  {
    hide RootsOk, DocOk, StageOk, TodoOk, ValuesOk, Reaches, SubmitAll, NodeAt, NeededValue, Storable, Quiet;
    Took(start, before, l, after);
    QuietStep(before, l, after);
    if l.Commit? {
      SubmitAllSpec(before.index, l.subs);
      SubmitAddsRows(before.index, l.subs);
      RowsGoneOn(start.index, before.index, after.index, gone, {});
      assert gone + {} == gone;
    }
  }

  // ----- Steps the cycle takes

  lemma AbortEnabled(s: Sys, grown: map<Hash, Bytes>)
    requires Grows(s.blobs, grown)
    ensures Enabled(s, Abort(grown))
  {}

  ghost function CurrentTreeOf(s: Sys, p: nat): Tree {
    match WriterRoot(s, p)
    case Success(Some(root)) => TreeAt(s.blobs, root)
    case _ => Absent
  }

  /** The writer's root denotes a well-formed tree. */
  lemma CurrentTreeIs(s: Sys, p: nat)
    requires BaseInv(s) && WriterRoot(s, p).Success?
    ensures Represents(s.blobs, WriterRoot(s, p).value, CurrentTreeOf(s, p)) && WellFormed(CurrentTreeOf(s, p), 0)
  {
    if WriterRoot(s, p).value.Some? {
      var root := WriterRoot(s, p).value.value;
      assert SoundRoot(s.blobs, root) by {
        if p !in s.index.localRoots { assert p in s.doc && p !in s.dangling; }
      }
      TreeAtRepresents(s.blobs, root);
    }
  }

  lemma SelectedSeqs(rows: seq<Row>, denied: set<string>)
    ensures Seqs(ItemsOf(Select(rows, denied, false))) + Seqs(ItemsOf(Select(rows, denied, true))) == RowSeqs(rows)
  {
    ItemSeqs(Select(rows, denied, false));
    ItemSeqs(Select(rows, denied, true));
  }

  lemma BuildStuck(s: Sys, p: nat, rows: seq<Row>)
    requires WriterRoot(s, p).Success? && WellFormed(CurrentTreeOf(s, p), 0)
    requires HamtLaws.InsertBatch(CurrentTreeOf(s, p), EntriesOf(rows), {}, LEAF_MAX).Failure?
    ensures Stuck(s, p, rows)
  {
    assert NamedTree(s, p) == CurrentTreeOf(s, p);
  }

  lemma BuiltHolds(s: Sys, grown: map<Hash, Bytes>, p: nat, root: Hash, rows: seq<Row>)
    requires BaseInv(s) && WriterRoot(s, p).Success? && WellFormed(CurrentTreeOf(s, p), 0)
    requires var r := HamtLaws.InsertBatch(CurrentTreeOf(s, p), EntriesOf(rows), {}, LEAF_MAX);
             r.Success? && Represents(grown, Some(root), r.value)
    ensures Holds(s, grown, root, p, rows)
  {
    hide BaseInv, WellFormed, Represents, HamtLaws.InsertBatch, TreeAt, Stored;
    assert NamedTree(s, p) == CurrentTreeOf(s, p);
    TreeAtIs(grown, root, HamtLaws.InsertBatch(CurrentTreeOf(s, p), EntriesOf(rows), {}, LEAF_MAX).value);
  }

  lemma BuildStep(s: Sys, p: nat, root: Hash, grown: map<Hash, Bytes>, t: Tree)
    requires s.publisher.Busy? && s.publisher.stage == Choosing && p in s.publisher.todo
    requires Select(s.publisher.todo[p], s.publisher.denied, false) != [] && Grows(s.blobs, grown) && WriterRoot(s, p).Success?
    requires Represents(s.blobs, WriterRoot(s, p).value, t) && WellFormed(t, 0)
    requires var r := HamtLaws.InsertBatch(t, EntriesOf(Select(s.publisher.todo[p], s.publisher.denied, false)), {}, LEAF_MAX);
             r.Success? && Represents(grown, Some(root), r.value)
    ensures Enabled(s, Build(p, root, grown))
    ensures After(s, Build(p, root, grown)) == s.(blobs := grown, publisher := s.publisher.(stage := Built(p, root)))
  {
    hide Represents, WellFormed, HamtLaws.InsertBatch, EntriesOf;
    assert BuildsOn(s.blobs, WriterRoot(s, p).value, Select(s.publisher.todo[p], s.publisher.denied, false), root, grown);
  }

  /** Finishing some of a partition's rows takes those rows out of the queue and no others. */
  lemma FinishStep(s: Sys, p: nat, rows: seq<Row>, status: RecordStatus, now: int)
    requires BaseInv(s) && s.publisher.Busy? && p in s.publisher.todo && status != Pending
    requires forall row :: row in rows ==> row in s.publisher.todo[p]
    ensures Valid(s.index) && Valid(FinishAll(s.index, ItemsOf(rows), status, now))
    ensures RowsGone(s.index, FinishAll(s.index, ItemsOf(rows), status, now), Seqs(ItemsOf(rows)))
    ensures FinishAll(s.index, ItemsOf(rows), status, now).nextSeq == s.index.nextSeq
  {
    hide StageOk, DocOk, RootsOk, ValuesOk;
    ItemsAreRows(s.index, p, rows);
    FinishAllSpec(s.index, ItemsOf(rows), status, now);
  }

  lemma FinishedRecords(s: Sys, p: nat, rows: seq<Row>, status: RecordStatus, now: int, denied: set<string>)
    requires BaseInv(s) && s.publisher.Busy? && p in s.publisher.todo && status != Pending
    requires forall row :: row in rows ==> row in s.publisher.todo[p] && FinalStatus(row.key, denied) == status
    ensures RecordsDone(s.index, FinishAll(s.index, ItemsOf(rows), status, now), RowKeys(rows), denied, now)
    ensures FinishAll(s.index, ItemsOf(rows), status, now).localRoots == s.index.localRoots
  {
    hide StageOk, DocOk, RootsOk, ValuesOk, RecordsDone;
    ItemsAreRows(s.index, p, rows);
    FinishSettles(s.index, rows, status, now, denied);
  }

  lemma NoRowsGone(s: Sys)
    requires BaseInv(s)
    ensures Valid(s.index) && RowsGone(s.index, s.index, {}) && RowSeqs([]) == {}
  {}

  lemma AllSeqs(rows: seq<Row>)
    ensures TodoSeqs(Group(rows)) == RowSeqs(rows)
  {
    GroupedRows(rows);
    forall n | n in RowSeqs(rows) ensures n in TodoSeqs(Group(rows)) {
      var row :| row in rows && row.seq_ == n;
      assert row in Group(rows)[row.record.partitionId];
    }
  }

  lemma TodoShrinks(todo: map<nat, seq<Row>>, p: nat)
    requires p in todo
    ensures TodoSeqs(todo) == RowSeqs(todo[p]) + TodoSeqs(todo - {p})
    ensures |todo - {p}| < |todo|
  {
    assert (todo - {p}).Keys == todo.Keys - {p};
    assert |todo.Keys| == |todo| && |(todo - {p}).Keys| == |todo - {p}|;
    forall n | n in TodoSeqs(todo) ensures n in RowSeqs(todo[p]) + TodoSeqs(todo - {p}) {
      var q, row :| q in todo && row in todo[q] && row.seq_ == n;
      if q != p { assert q in todo - {p} && row in (todo - {p})[q]; }
    }
    forall n | n in TodoSeqs(todo - {p}) ensures n in TodoSeqs(todo) {
      var q, row :| q in todo - {p} && row in (todo - {p})[q] && row.seq_ == n;
      assert q in todo && row in todo[q];
    }
  }

  /** The rows gone and those still to do are the batch's. */
  ghost predicate Accounted(groups: map<nat, seq<Row>>, todo: map<nat, seq<Row>>, gone: set<nat>) {
    gone + TodoSeqs(todo) == TodoSeqs(groups)
  }

  lemma NoneGone(groups: map<nat, seq<Row>>)
    ensures Accounted(groups, groups, {})
  {}

  lemma OneMoreGone(groups: map<nat, seq<Row>>, todo: map<nat, seq<Row>>, gone: set<nat>, p: nat)
    requires Accounted(groups, todo, gone) && p in todo
    ensures Accounted(groups, todo - {p}, gone + RowSeqs(todo[p])) && gone + RowSeqs(todo[p]) <= TodoSeqs(groups)
  {
    hide RowSeqs, TodoSeqs;
    TodoShrinks(todo, p);
  }

  lemma AllGone(groups: map<nat, seq<Row>>, gone: set<nat>)
    requires Accounted(groups, map[], gone)
    ensures gone == TodoSeqs(groups)
  {
    assert TodoSeqs(map[]) == {};
  }

  lemma SeedStep(s: Sys, p: nat)
    requires s.publisher == Idle && p < PARTITIONS && p !in s.index.localRoots && Readable(s, p)
    ensures Enabled(s, Seed(p))
    ensures After(s, Seed(p)) == s.(index := s.index.(localRoots := s.index.localRoots[p := s.doc[p].root]))
  {}

  lemma HealStep(s: Sys, p: nat)
    requires s.publisher == Idle && p in s.index.localRoots && Storable(s.blobs, s.index.localRoots[p].bytes)
    ensures Enabled(s, Heal(p)) && After(s, Heal(p)) == WithDoc(s, p, s.index.localRoots[p])
  {}

  lemma GrowStep(start: Sys, s: Sys, s': Sys)
    requires Reaches(start, s) && BaseInv(s) && s.publisher == Idle && Grows(s.blobs, s'.blobs) && s' == s.(blobs := s'.blobs)
    ensures Reaches(start, s') && BaseInv(s')
  {
    hide Reaches, BaseInv;
    Took(start, s, Abort(s'.blobs), s');
  }

  lemma {:induction false} SubmitAddsRows(s: IndexState, subs: seq<Submission>)
    requires Valid(s)
    ensures RowsGone(s, SubmitAll(s, subs), {})
  {
    if subs != [] {
      SubmitAddsRows(s, subs[..|subs| - 1]);
      SubmitAllSpec(s, subs[..|subs| - 1]);
    }
  }
}
