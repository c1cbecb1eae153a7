/** Garbage collection, audit, repair, and the publisher from startup to shutdown
    (`registryd/src/gc.rs`, `verify.rs`, `publisher.rs`). */
module Maintenance {
  import opened Wrappers
  import opened Digests
  import opened Blobs
  import opened NodeCodec
  import opened HamtTree
  import opened HamtLaws
  import opened HamtStore
  import opened HamtWalk
  import opened Index
  import opened Registry
  import opened RegistryInv
  import opened RegistryLaws
  import opened Daemon
  import opened IsccStore
  import opened IsccIndexStore

  // ----- Garbage collection

  /** A value is not a node, so marking it marks nothing below it. */
  lemma ValuesAreNotNodes(s: Sys)
    requires BaseInv(s)
    ensures NoNodes(s.blobs, ContentHashes(s.index))
    ensures forall t :: Backed(s.index, t) ==> Values(t) <= ContentHashes(s.index)
  {
    hide Encode, RootsOk, DocOk, StageOk;
  }

  ghost predicate RootsOf(s: Sys, roots: map<nat, Hash>, below: nat) {
    && (forall p :: p in roots ==> WriterRoot(s, p) == Success(Some(roots[p])))
    && (forall p :: p in s.index.localRoots ==> p in roots)
    && (forall p: nat :: p < below ==> WriterRoot(s, p).Success? && (WriterRoot(s, p).value.Some? ==> p in roots))
  }

  /** The writer's root of every partition: the local table, and the document where it has none. */
  method WriterRoots(d: Daemon) returns (r: Result<map<nat, Hash>, ()>)
    requires d.Ready()
    ensures r.Success? ==> RootsOf(d.State(), r.value, PARTITIONS)
    ensures r.Failure? && d.store.reliable ==> exists p: nat :: p < PARTITIONS && WriterRoot(d.State(), p).Failure?
  {
    hide BaseInv;
    var roots: map<nat, Hash> := d.index.localRoots;
    for p := 0 to PARTITIONS
      invariant RootsOf(d.State(), roots, p)
    {
      if p in roots {
        continue;
      }
      var root := d.pointerDoc.GetPartitionRoot(p);
      if root.Failure? {
        assert d.store.reliable ==> WriterRoot(d.State(), p).Failure?;
        return Failure(());
      }
      if root.value.Some? {
        roots := roots[p := root.value.value];
      }
    }
    return Success(roots);
  }

  lemma WriterTreeIsSound(s: Sys, p: nat, root: Hash)
    requires BaseInv(s) && WriterRoot(s, p) == Success(Some(root))
    ensures SoundRoot(s.blobs, root) && Represents(s.blobs, Some(root), TreeAt(s.blobs, root))
    ensures p < PARTITIONS && root in Tracked(s)
  {
    hide WellFormed, ValuesOk, StageOk, Valid, Contains;
    if p !in s.index.localRoots { assert p in s.doc && p !in s.dangling; }
    TreeAtRepresents(s.blobs, root);
    TrackedOf(s);
  }

  /** What has been marked while the trees of all roots but `rest` were walked. */
  ghost predicate WalkedSoFar(s: Sys, roots: map<nat, Hash>, rest: set<nat>, live: set<Hash>, clean: bool) {
    && ContentHashes(s.index) <= live <= Walked(s)
    && (clean ==> forall p :: p in roots && p !in rest ==> roots[p] in live)
    && (clean && BackedOk(s) ==> Closed(s.blobs, live, {}))
  }

  /** Walks the tree of every root, into one set. A walk that fails is skipped over; `clean` says
      whether none did. */
  method WalkTrees(d: Daemon, roots: map<nat, Hash>, hashes: set<Hash>) returns (live: set<Hash>, clean: bool)
    requires d.Ready() && RootsOf(d.State(), roots, PARTITIONS) && hashes == ContentHashes(d.index.State())
    ensures WalkedSoFar(d.State(), roots, {}, live, clean) && (d.store.reliable ==> clean)
  {
    hide BaseInv, Represents, SoundRoot, BackedOk, RootsOf;
    ghost var s := d.State();
    NothingWalked(s, roots);
    live, clean := hashes, true;
    var rest := roots.Keys;
    while rest != {}
      invariant WalkedSoFar(s, roots, rest, live, clean) && rest <= roots.Keys && (d.store.reliable ==> clean)
      decreases |rest|
    {
      var p := d.index.First(rest);
      live, clean := WalkTree(d, roots, p, rest, live, clean);
      rest := rest - {p};
    }
  }

  method WalkTree(d: Daemon, roots: map<nat, Hash>, p: nat, ghost rest: set<nat>, given: set<Hash>, cleanSoFar: bool)
    returns (live: set<Hash>, clean: bool)
    requires d.Ready() && RootsOf(d.State(), roots, PARTITIONS) && p in roots
    requires WalkedSoFar(d.State(), roots, rest, given, cleanSoFar)
    ensures WalkedSoFar(d.State(), roots, rest - {p}, live, clean) && (d.store.reliable && cleanSoFar ==> clean)
  {
    hide BaseInv, Represents, Closed, SoundRoot, Values, BackedOk, Walked, NodeAt;
    ghost var s := d.State();
    WriterTreeIsSound(s, p, roots[p]);
    ghost var t := TreeAt(s.blobs, roots[p]);
    var walked;
    ghost var at;
    walked, live, at := CollectReachable(d.store, roots[p], given, t, {});
    clean := cleanSoFar && walked.Success?;
    ReachIsWalked(s, p, roots[p]);
    if BackedOk(s) { BackedValues(s, roots[p]); }
  }

  lemma ReachIsWalked(s: Sys, p: nat, root: Hash)
    requires WriterRoot(s, p) == Success(Some(root)) && Represents(s.blobs, Some(root), TreeAt(s.blobs, root))
    ensures Reach(s.blobs, Some(root), TreeAt(s.blobs, root)) <= Walked(s)
  {
    hide Reach, Represents;
    TreeAtIs(s.blobs, root, TreeAt(s.blobs, root));
    assert p in s.index.localRoots.Keys + s.doc.Keys;
    assert WriterReach(s, p) == Reach(s.blobs, Some(root), TreeAt(s.blobs, root));
  }

  /** With no walk skipped, everything to be walked was. */
  lemma AllWalked(s: Sys, roots: map<nat, Hash>, live: set<Hash>)
    requires BaseInv(s) && BackedOk(s) && RootsOf(s, roots, PARTITIONS) && WalkedSoFar(s, roots, {}, live, true)
    ensures live == Walked(s)
  {
    hide BaseInv, BackedOk, Represents, Closed, Reach;
    forall p, h | p in s.index.localRoots.Keys + s.doc.Keys && h in WriterReach(s, p) ensures h in live {
      var root := WriterRoot(s, p).value.value;
      WriterTreeIsSound(s, p, root);
      assert p in roots;
      TreeAtIs(s.blobs, root, TreeAt(s.blobs, root));
      ClosedReaches(s.blobs, live, Some(root), TreeAt(s.blobs, root));
    }
  }

  lemma BackedValues(s: Sys, root: Hash)
    requires BaseInv(s) && BackedOk(s) && root in Tracked(s)
    ensures Values(TreeAt(s.blobs, root)) <= ContentHashes(s.index)
    ensures NoNodes(s.blobs, Values(TreeAt(s.blobs, root)))
  {
    hide BaseInv, NodeAt, TreeAt;
    BackedAt(s, root);
    ValuesAreNotNodes(s);
  }

  lemma NothingWalked(s: Sys, roots: map<nat, Hash>)
    requires BaseInv(s)
    ensures WalkedSoFar(s, roots, roots.Keys, ContentHashes(s.index), true)
  {
    hide BaseInv, BackedOk, NodeAt;
    ValuesAreNotNodes(s);
  }

  /** The similarity index's root is a blob of its own: neither a value nor a trie node. */
  ghost predicate IsApart(s: Sys, root: Hash) {
    root !in ContentHashes(s.index) && NodeAt(s.blobs, root) == None
  }

  /** Then no walk marks it. */
  lemma ApartIsNotWalked(s: Sys, root: Hash)
    requires BaseInv(s) && BackedOk(s) && IsApart(s, root)
    ensures root !in Walked(s)
  {
    hide BaseInv, BackedOk, Represents, NodeAt;
    if root in Walked(s) {
      var p :| p in s.index.localRoots.Keys + s.doc.Keys && root in WriterReach(s, p);
      var top := WriterRoot(s, p).value.value;
      WriterTreeIsSound(s, p, top);
      ReachIsNodesAndValues(s.blobs, Some(top), TreeAt(s.blobs, top));
      BackedValues(s, top);
    }
  }

  /** What the document names for itself: its entries' contents, the similarity index's included. */
  ghost function OwnContents(s: Sys, similarity: Option<DocEntry>): set<Hash> {
    DocContents(s) + if similarity.Some? then {similarity.value.content} else {}
  }

  /** The similarity index is stored, where there is one. */
  ghost predicate IsWhole(s: Sys, similarity: Option<DocEntry>, p: Postings) {
    similarity.Some? ==> IndexAt(s.blobs, Some(similarity.value.root), p)
  }

  /** What the similarity index adds, where there is one. */
  ghost function SimilarityParts(s: Sys, similarity: Option<DocEntry>): set<Hash> {
    if similarity.Some? then IndexParts(s.blobs, similarity.value.root) else {}
  }

  /** Nothing the protect set needs is unreadable. */
  ghost predicate AllReadable(s: Sys, similarity: Option<DocEntry>) {
    && (forall p: nat :: p < PARTITIONS ==> WriterRoot(s, p).Success?)
    && (similarity.Some? ==> similarity.value.content in s.blobs)
  }

  /** The index survives a sweep that `walked` was marked for, the document's contents aside, exactly when
      its root was not among it - or all of the index happens to be marked. */
  ghost predicate SurvivesIff(s: Sys, after: map<Hash, Bytes>, entry: DocEntry, p: Postings, walked: set<Hash>) {
    IndexAt(s.blobs, Some(entry.root), p) ==>
      (IndexAt(after, Some(entry.root), p)
       <==> entry.root !in walked || IndexMarked(s.blobs, entry.root, walked + OwnContents(s, Some(entry))))
  }

  /** The protect set: what was walked, the document's contents and what belongs to the similarity index,
      with nothing else. A walk that fails is skipped over; every other failure ends the run. */
  method CollectLive(d: Daemon, ghost p: Postings)
    returns (r: Result<set<Hash>, ()>, clean: bool, indexWalked: bool, ghost walked: set<Hash>)
    requires d.Ready()
    ensures r.Success? ==> forall p: nat :: p < PARTITIONS ==> WriterRoot(d.State(), p).Success?
    ensures r.Success? ==> walked + OwnContents(d.State(), d.pointerDoc.similarity) <= r.value
    ensures r.Success? ==>
              r.value <= walked + OwnContents(d.State(), d.pointerDoc.similarity) + SimilarityParts(d.State(), d.pointerDoc.similarity)
    ensures d.index.reliable && d.store.reliable && AllReadable(d.State(), d.pointerDoc.similarity) ==> r.Success?
    ensures d.store.reliable ==> clean
    ensures d.store.reliable && IsWhole(d.State(), d.pointerDoc.similarity, p) ==> indexWalked
    ensures r.Success? ==> ContentHashes(d.index.State()) <= walked <= Walked(d.State())
    ensures r.Success? && clean && BackedOk(d.State()) ==> walked == Walked(d.State()) && Protects(d.State(), r.value)
    ensures r.Success? && indexWalked && d.pointerDoc.similarity.Some? ==>
              SurvivesIff(d.State(), Kept(d.store.blobs, r.value), d.pointerDoc.similarity.value, p, walked)
  {
    hide BaseInv, Represents, Closed, SoundRoot, Values, BackedOk, NodeAt, IndexAt, IndexMarked, Protects, Walked, SurvivesIff,
         IndexParts;
    clean, indexWalked, walked := true, true, {};
    ghost var s := d.State();
    var hashes := d.index.AllContentHashes();
    if hashes.Failure? {
      return Failure(()), clean, indexWalked, walked;
    }
    var roots := WriterRoots(d);
    if roots.Failure? {
      return Failure(()), clean, indexWalked, walked;
    }
    var live;
    live, clean := WalkTrees(d, roots.value, hashes.value);
    walked := live;
    var similarity := d.pointerDoc.GetSimilarityRoot();
    if similarity.Failure? {
      return Failure(()), clean, indexWalked, walked;
    }
    if similarity.value.Some? {
      var collected;
      collected, live := CollectIndex(d.store, similarity.value.value, live, p);
      indexWalked := collected.Success?;
    }
    ghost var marked := live;
    live := live + (set q | q in d.pointerDoc.entries :: d.pointerDoc.entries[q].content)
                 + if d.pointerDoc.similarity.Some? then {d.pointerDoc.similarity.value.content} else {};
    if clean && BackedOk(s) {
      AllWalked(s, roots.value, walked);
      Protected(s, roots.value, walked, live);
    }
    if similarity.value.Some? && indexWalked {
      IndexSurvives(s, d.pointerDoc.similarity.value, p, walked, marked, live);
    }
    return Success(live), clean, indexWalked, walked;
  }

  lemma IndexSurvives(s: Sys, entry: DocEntry, p: Postings, walked: set<Hash>, marked: set<Hash>, live: set<Hash>)
    requires IndexAt(s.blobs, Some(entry.root), p) && entry.root !in walked ==> IndexMarked(s.blobs, entry.root, marked)
    requires entry.root in walked ==> marked == walked
    requires marked <= live && live == marked + OwnContents(s, Some(entry))
    ensures SurvivesIff(s, Kept(s.blobs, live), entry, p, walked)
  {
    hide IndexAt, IndexMarked;
    if IndexAt(s.blobs, Some(entry.root), p) {
      SweepKeepsIndexIffMarked(s.blobs, live, entry.root, p);
      if entry.root !in walked { StillMarked(s.blobs, entry.root, marked, live); }
    }
  }

  lemma StillMarked(blobs: map<Hash, Bytes>, root: Hash, live: set<Hash>, more: set<Hash>)
    requires IndexMarked(blobs, root, live) && live <= more
    ensures IndexMarked(blobs, root, more)
  {
    hide BlobAt;
  }

  lemma Protected(s: Sys, roots: map<nat, Hash>, walked: set<Hash>, live: set<Hash>)
    requires BaseInv(s) && RootsOf(s, roots, PARTITIONS)
    requires ContentHashes(s.index) <= walked && Closed(s.blobs, walked, {})
    requires forall p :: p in roots ==> roots[p] in walked
    requires walked <= live && forall p :: p in s.doc ==> s.doc[p].content in live
    ensures Protects(s, live)
  {
    hide BaseInv, Represents, Closed, Reach;
    forall p, h, t | WriterRoot(s, p) == Success(Some(h)) && Represents(s.blobs, Some(h), t) ensures Reach(s.blobs, Some(h), t) <= live {
      WriterTreeIsSound(s, p, h);
      assert p in roots;
      ClosedReaches(s.blobs, walked, Some(h), t);
    }
  }

  /** One run: skipped while anything is being written, given up when the protect set cannot be
      enumerated, and otherwise a sweep of everything not in it. Whatever walk was skipped over, no
      indexed value and no document entry is taken. With no tree walk skipped the run is a step of the
      state machine, whose invariant it therefore keeps; with the index's walk done, the index stays. */
  method CollectGarbage(d: Daemon, ghost p: Postings)
    returns (swept: bool, clean: bool, indexWalked: bool, ghost walked: set<Hash>, ghost live: set<Hash>)
    requires d.Ready()
    modifies d`dangling, d.store
    ensures !swept ==> clean && d.State() == old(d.State())
    ensures clean && BackedOk(old(d.State())) ==> d.Ready() && Reaches(old(d.State()), d.State())
    ensures swept ==> old(d.publisher) == Idle && old(d.inflight) == multiset{} && !d.inBatch
    ensures swept ==> d.store.blobs == Kept(old(d.store.blobs), live)
    ensures swept ==>
              && walked + OwnContents(old(d.State()), d.pointerDoc.similarity) <= live
              && live <= walked + OwnContents(old(d.State()), d.pointerDoc.similarity)
                         + SimilarityParts(old(d.State()), d.pointerDoc.similarity)
    ensures d.activeWrites == 0 && d.index.reliable && d.store.reliable && AllReadable(old(d.State()), d.pointerDoc.similarity) ==>
              swept && clean
    ensures d.store.reliable ==> clean
    ensures d.store.reliable && IsWhole(old(d.State()), d.pointerDoc.similarity, p) ==> indexWalked
    ensures swept ==>
              forall h :: h in d.store.blobs ==>
                || h in Walked(old(d.State())) || h in OwnContents(old(d.State()), d.pointerDoc.similarity)
                || h in SimilarityParts(old(d.State()), d.pointerDoc.similarity)
    ensures forall k :: k in d.index.records ==> d.index.records[k].contentHash in d.store.blobs
    ensures forall q :: Readable(old(d.State()), q) ==> Readable(d.State(), q)
    ensures swept ==> ContentHashes(old(d.index.State())) <= walked <= Walked(old(d.State()))
    ensures swept && clean && BackedOk(old(d.State())) ==> walked == Walked(old(d.State()))
    ensures swept && indexWalked && d.pointerDoc.similarity.Some? ==>
              SurvivesIff(old(d.State()), d.store.blobs, d.pointerDoc.similarity.value, p, walked)
    ensures indexWalked && BackedOk(old(d.State())) && d.pointerDoc.similarity.Some?
            && IsApart(old(d.State()), d.pointerDoc.similarity.value.root)
            && IndexAt(old(d.store.blobs), Some(d.pointerDoc.similarity.value.root), p) ==>
              IndexAt(d.store.blobs, Some(d.pointerDoc.similarity.value.root), p)
  {
    hide BaseInv, Reaches, Protects, BackedOk, IndexAt, IndexMarked, IsApart, Enabled, After, NodeAt, Walked;
    ghost var before := d.State();
    walked, live := {}, {};
    ReachesSelf(before);
    StoredValues(before);
    FewerSubmissions(d.batched, d.inflight);
    if d.activeWrites > 0 {
      return false, true, true, walked, live;
    }
    NoneInFlight(d.batched, d.inflight);
    var collected;
    collected, clean, indexWalked, walked := CollectLive(d, p);
    if collected.Failure? {
      return false, true, true, walked, live;
    }
    live := collected.value;
    var kept := map h | h in d.store.blobs && h in collected.value :: d.store.blobs[h];
    assert kept == Kept(before.blobs, live);
    if d.pointerDoc.similarity.Some? && BackedOk(before) && IsApart(before, d.pointerDoc.similarity.value.root) {
      ApartIsNotWalked(before, d.pointerDoc.similarity.value.root);
    }
    d.store.blobs := kept;
    KeptContents(before, live);
    if clean && BackedOk(before) {
      d.dangling := d.dangling + AheadIn(before);
      CollectStep(before, live);
      Took(before, before, Collect(live, kept), d.State());
    }
    return true, clean, indexWalked, walked, live;
  }

  lemma KeptContents(s: Sys, live: set<Hash>)
    requires forall q :: q in s.doc ==> s.doc[q].content in live
    ensures forall q :: Readable(s, q) ==> Readable(s.(blobs := Kept(s.blobs, live)), q)
  {}

  lemma StoredValues(s: Sys)
    requires BaseInv(s)
    ensures forall k :: k in s.index.records ==>
              s.index.records[k].contentHash in s.blobs && s.index.records[k].contentHash in ContentHashes(s.index)
  {
    hide Valid, RootsOk, DocOk, StageOk;
  }

  lemma NoneInFlight(batched: multiset<Submission>, inflight: multiset<Submission>)
    requires batched <= inflight && |batched| == |inflight|
    ensures inflight == batched
  {
    assert inflight == (inflight - batched) + batched;
  }

  // ----- Seeding and healing, which hold no write guard

  /** What may happen between two of their writes: the other tasks act, and where there is a collector it
      may run. `clean` says that no walk was skipped. */
  method TasksAndSweep(d: Daemon, collects: bool, ghost start: Sys) returns (clean: bool, ghost lost: set<Hash>)
    requires d.Ready() && d.On(start, {}) && BaseInv(start) && (collects ==> BackedOk(start))
    modifies d`inflight, d`activeWrites, d`dangling, d.index, d.store
    ensures !collects || d.offline || d.store.reliable ==> clean
    ensures clean ==> d.Ready() && d.On(start, {})
    ensures d.index.localRoots == old(d.index.localRoots) && (d.offline ==> lost == {}) && WasStored(start, lost)
    ensures forall p, given :: old(d.HealedBut(p, given)) ==> d.HealedBut(p, given + lost)
    ensures old(d.SeededFrom(start)) ==> d.SeededFrom(start)
  {
    hide Daemon.Ready, Daemon.On, WasStored, BaseInv, Reaches;
    lost := d.OtherTasks(start, {});
    var due: bool := *;
    if d.offline || !collects || !due {
      return true, lost;
    }
    clean := CollectOnPath(d, start);
  }

  method CollectOnPath(d: Daemon, ghost start: Sys) returns (clean: bool)
    requires d.Ready() && d.On(start, {}) && BaseInv(start) && BackedOk(start)
    modifies d`dangling, d.store
    ensures clean ==> d.Ready() && d.On(start, {})
    ensures d.store.reliable ==> clean
    ensures forall p, given :: old(d.HealedBut(p, given)) ==> d.HealedBut(p, given)
  {
    hide BaseInv, Reaches, BackedOk, Valid, RowsGone;
    ghost var before := d.State();
    clean := CollectRound(d, start);
    forall p, given | old(d.HealedBut(p, given)) ensures d.HealedBut(p, given) {
      if d.pointerDoc.entries[p].content in before.blobs {
        assert Readable(before, p) && Readable(d.State(), p);
      }
    }
  }

  /** Each of the partitions had no entry that could be read at some point of a path from `start`. */
  ghost predicate WasUnreadable(start: Sys, partitions: set<nat>) {
    forall p :: p in partitions ==> exists m: Sys :: Reaches(start, m) && !Readable(m, p)
  }

  lemma NoneWasUnreadable(start: Sys)
    ensures WasUnreadable(start, {})
  {}

  lemma OneMoreWasUnreadable(start: Sys, partitions: set<nat>, m: Sys, p: nat)
    requires WasUnreadable(start, partitions) && Reaches(start, m) && !Readable(m, p)
    ensures WasUnreadable(start, partitions + {p})
  {
    hide Reaches, Readable;
  }

  /** Local roots for partitions that predate the table come from the document. A partition without
      one afterwards has no entry, or one whose read failed - which, where reads fail for no other reason,
      was then unreadable. */
  method SeedLocalRoots(d: Daemon, collects: bool) returns (r: Result<nat, ()>, clean: bool, ghost unread: set<nat>)
    requires d.Ready() && d.publisher == Idle && (collects ==> BackedOk(d.State()))
    modifies d`inflight, d`activeWrites, d`dangling, d.index, d.store
    ensures !collects || d.offline || d.store.reliable ==> clean
    ensures clean ==> d.Ready() && Reaches(old(d.State()), d.State())
    ensures d.SeededFrom(old(d.State()))
    ensures d.index.reliable ==> r.Success?
    ensures r.Success? ==> |d.index.localRoots| == |old(d.index.localRoots)| + r.value
    ensures clean && r.Success? ==> AreUnread(unread, d.pointerDoc.entries.Keys, d.index.localRoots.Keys, PARTITIONS)
    ensures d.store.reliable ==> WasUnreadable(old(d.State()), unread)
  {
    hide Daemon.Ready, Daemon.On, Daemon.SeededFrom, BackedOk, BaseInv, Reaches, AreUnread, WasUnreadable;
    ghost var start := d.State();
    d.BeginOn(start);
    NoneWasUnreadable(start);
    d.NothingSeeded();
    NoneUnread(d.pointerDoc.entries.Keys, d.index.localRoots.Keys);
    var seeded := 0;
    clean, unread := true, {};
    for p := 0 to PARTITIONS
      invariant d.Ready() && d.On(start, {}) && clean
      invariant |d.index.localRoots| == |start.index.localRoots| + seeded
      invariant d.SeededFrom(start) && AreUnread(unread, d.pointerDoc.entries.Keys, d.index.localRoots.Keys, p)
      invariant d.store.reliable ==> WasUnreadable(start, unread)
    {
      var one;
      one, clean, unread := SeedNext(d, p, collects, start, unread);
      if !clean {
        return Success(seeded), clean, unread;
      }
      if one.Failure? {
        d.OnReaches(start, {});
        return Failure(()), clean, unread;
      }
      if one.value {
        seeded := seeded + 1;
      }
    }
    d.OnReaches(start, {});
    return Success(seeded), clean, unread;
  }

  /** Of the partitions below `bound` that have an entry, those of `unread` and no others have no local
      root. */
  ghost predicate AreUnread(unread: set<nat>, entries: set<nat>, roots: set<nat>, bound: nat) {
    && unread <= entries && (forall p :: p in unread ==> p < bound && p !in roots)
    && forall p :: p in entries && p < bound && p !in unread ==> p in roots
  }

  lemma NoneUnread(entries: set<nat>, roots: set<nat>)
    ensures AreUnread({}, entries, roots, 0)
  {}

  lemma OneMoreUnread(unread: set<nat>, entries: set<nat>, roots: set<nat>, more: set<nat>, p: nat, skipped: bool)
    requires AreUnread(unread, entries, roots, p) && roots <= more <= roots + {p}
    requires skipped ==> p in entries && p !in more
    ensures AreUnread(unread, entries, more, p)
    ensures skipped || p in more || p !in entries ==> AreUnread(unread + if skipped then {p} else {}, entries, more, p + 1)
  {}

  /** Other tasks act, then one partition is seeded. */
  method SeedNext(d: Daemon, p: nat, collects: bool, ghost start: Sys, ghost unread: set<nat>)
    returns (r: Result<bool, ()>, clean: bool, ghost unread': set<nat>)
    requires d.Ready() && d.On(start, {}) && d.publisher == Idle && p < PARTITIONS && d.SeededFrom(start)
    requires BaseInv(start) && (collects ==> BackedOk(start))
    requires AreUnread(unread, d.pointerDoc.entries.Keys, d.index.localRoots.Keys, p)
    requires d.store.reliable ==> WasUnreadable(start, unread)
    modifies d`inflight, d`activeWrites, d`dangling, d.index, d.store
    ensures !collects || d.offline || d.store.reliable ==> clean
    ensures clean ==> d.Ready() && d.On(start, {})
    ensures d.SeededFrom(start)
    ensures |d.index.localRoots| == |old(d.index.localRoots)| + if r == Success(true) then 1 else 0
    ensures !clean ==> r == Success(false)
    ensures d.index.reliable ==> r.Success?
    ensures clean && r.Success? ==> AreUnread(unread', d.pointerDoc.entries.Keys, d.index.localRoots.Keys, p + 1)
    ensures d.store.reliable ==> WasUnreadable(start, unread')
  {
    hide Daemon.Ready, Daemon.On, BackedOk, WasStored, Daemon.HealedBut, Daemon.SeededFrom, BaseInv, Reaches, AreUnread,
         WasUnreadable, Readable;
    ghost var roots := d.index.localRoots.Keys;
    ghost var lost;
    clean, lost := TasksAndSweep(d, collects, start);
    if !clean {
      return Success(false), clean, unread;
    }
    var skipped;
    r, skipped := d.SeedOne(p, start);
    unread' := unread + if skipped then {p} else {};
    OneMoreUnread(unread, d.pointerDoc.entries.Keys, roots, d.index.localRoots.Keys, p, skipped);
    if skipped && d.store.reliable {
      d.OnReaches(start, {});
      OneMoreWasUnreadable(start, unread, d.State(), p);
    }
  }

  /** Every entry of a locally known partition that is missing or cannot be read is written again
      from the local root, and the others are left alone: where reads fail for no other reason, only
      entries that were missing or unreadable at some point are written. At the end every such partition is readable,
      but for contents that were stored at some point and lost while the healing went on. */
  method HealPointerDoc(d: Daemon, collects: bool)
    returns (r: Result<nat, ()>, clean: bool, ghost written: set<nat>, ghost lost: set<Hash>)
    requires d.Ready() && d.publisher == Idle && (collects ==> BackedOk(d.State()))
    modifies d`dangling, d`inflight, d`activeWrites, d.index, d.store, d.pointerDoc
    ensures !collects || d.offline || d.store.reliable ==> clean
    ensures clean ==> d.Ready() && Reaches(old(d.State()), d.State())
    ensures d.index.localRoots == old(d.index.localRoots) && d.Rewritten(old(d.pointerDoc.entries), written)
    ensures clean && r.Success? ==> r.value == |written|
    ensures clean && r.Success? ==> forall p :: p in d.index.localRoots ==> d.HealedBut(p, lost)
    ensures WasStored(old(d.State()), lost) && (d.offline ==> lost == {})
    ensures d.store.reliable ==> WasUnreadable(old(d.State()), written)
    ensures r.Failure? && d.store.reliable ==> d.store.clashed
  {
    hide Daemon.Ready, Daemon.On, Daemon.HealedBut, Daemon.Rewritten, BackedOk, WasStored, BaseInv, Reaches, WasUnreadable;
    ghost var start := d.State();
    d.BeginOn(start);
    NoneWasUnreadable(start);
    d.NothingRewritten();
    NoneWasStored(start);
    var healed := 0;
    clean, written, lost := true, {}, {};
    var rest := d.index.localRoots.Keys;
    while rest != {}
      invariant d.Ready() && d.On(start, {}) && clean && d.publisher == Idle
      invariant rest <= d.index.localRoots.Keys && d.index.localRoots == start.index.localRoots
      invariant d.Rewritten(start.doc, written) && healed == |written| && written !! rest
      invariant forall p :: p in d.index.localRoots.Keys - rest ==> d.HealedBut(p, lost)
      invariant WasStored(start, lost) && (d.offline ==> lost == {})
      invariant d.store.reliable ==> WasUnreadable(start, written)
      decreases |rest|
    {
      var p := d.index.First(rest);
      var one;
      one, clean, lost := HealNext(d, p, collects, start, written, lost, d.index.localRoots.Keys - rest);
      rest := rest - {p};
      if !clean {
        return Success(healed), clean, written, lost;
      }
      if one.Failure? {
        d.OnReaches(start, {});
        return Failure(()), clean, written, lost;
      }
      if one.value {
        written := written + {p};
        healed := healed + 1;
      }
    }
    d.OnReaches(start, {});
    return Success(healed), clean, written, lost;
  }

  /** Other tasks act, then one partition is healed; those healed before stay so, but for what was
      lost meanwhile. */
  method HealNext(
    d: Daemon, p: nat, collects: bool, ghost start: Sys, ghost written: set<nat>, ghost lost: set<Hash>, ghost done: set<nat>
  )
    returns (r: Result<bool, ()>, clean: bool, ghost lost': set<Hash>)
    requires d.Ready() && d.On(start, {}) && d.publisher == Idle && p in d.index.localRoots
    requires BaseInv(start) && (collects ==> BackedOk(start))
    requires d.Rewritten(start.doc, written) && p !in written && (d.offline ==> lost == {}) && WasStored(start, lost)
    requires forall q :: q in done ==> d.HealedBut(q, lost)
    requires d.store.reliable ==> WasUnreadable(start, written)
    modifies d`dangling, d`inflight, d`activeWrites, d.index, d.store, d.pointerDoc
    ensures !collects || d.offline || d.store.reliable ==> clean
    ensures clean ==> d.Ready() && d.On(start, {})
    ensures d.index.localRoots == old(d.index.localRoots) && (d.offline ==> lost' == {}) && WasStored(start, lost')
    ensures !clean ==> r == Success(false)
    ensures r.Failure? && d.store.reliable ==> d.store.clashed
    ensures d.Rewritten(start.doc, if r == Success(true) then written + {p} else written)
    ensures d.store.reliable ==> WasUnreadable(start, if r == Success(true) then written + {p} else written)
    ensures clean ==> forall q :: q in done || (r.Success? && q == p) ==> d.HealedBut(q, lost')
  {
    hide Daemon.Ready, Daemon.On, Readable, BackedOk, WasStored, BaseInv, Reaches, WasUnreadable;
    ghost var more;
    clean, more := TasksAndSweep(d, collects, start);
    BothWereStored(start, lost, more);
    lost' := lost + more;
    if !clean {
      return Success(false), clean, lost';
    }
    d.OnReaches(start, {});
    ghost var before := d.State();
    r := d.HealOne(p, start);
    if r == Success(true) && d.store.reliable {
      OneMoreWasUnreadable(start, written, before, p);
    }
    if r.Success? {
      d.ReadableIsHealed(p, lost');
    }
  }

  // ----- Audit

  datatype Report = Report(
    partitionsChecked: nat, partitionsWithGaps: nat, expected: nat, inTree: nat, missing: nat, foreign: nat, requeued: nat)

  function WithPartition(r: Report, expected: set<string>, inTree: set<string>): Report {
    Report(
      r.partitionsChecked + 1, r.partitionsWithGaps + (if expected - inTree == {} then 0 else 1),
      r.expected + |expected|, r.inTree + |inTree|, r.missing + |expected - inTree|,
      r.foreign + |inTree - expected|, r.requeued)
  }

  ghost predicate PublishedIn(s: Sys, p: nat, k: string) {
    k in s.index.records && s.index.records[k].partitionId == p && s.index.records[k].status == Published
  }

  ghost function PublishedKeys(s: Sys, p: nat): set<string> {
    set k | k in s.index.records && PublishedIn(s, p, k)
  }

  /** The keys of the tree under the writer's root. */
  ghost function TreeKeys(s: Sys, p: nat): set<string> {
    Keys(CurrentTreeOf(s, p))
  }

  /** Published keys of partitions below `bound`. */
  ghost function ExpectedBelow(s: Sys, bound: nat): set<string> {
    set k | k in s.index.records && s.index.records[k].partitionId < bound && s.index.records[k].status == Published
  }

  /** Those of them that their trees do not hold. */
  ghost function MissingBelow(s: Sys, bound: nat): set<string> {
    set k | k in s.index.records && s.index.records[k].partitionId < bound
            && s.index.records[k].status == Published && !Covered(s, k)
  }

  /** The keys the trees hold, each with its partition. */
  ghost function HeldBelow(s: Sys, bound: nat): set<(nat, string)> {
    set p: nat, k | p < bound && k in TreeKeys(s, p) :: (p, k)
  }

  /** Those of them that are not published there. */
  ghost function ForeignBelow(s: Sys, bound: nat): set<(nat, string)> {
    set p: nat, k | p < bound && k in TreeKeys(s, p) && !PublishedIn(s, p, k) :: (p, k)
  }

  ghost function GapsBelow(s: Sys, bound: nat): set<nat> {
    set p: nat | p < bound && !(PublishedKeys(s, p) <= TreeKeys(s, p))
  }

  /** Every counter counts its set. */
  ghost predicate Counts(s: Sys, bound: nat, r: Report) {
    && r.partitionsChecked == bound && r.partitionsWithGaps == |GapsBelow(s, bound)|
    && r.expected == |ExpectedBelow(s, bound)| && r.missing == |MissingBelow(s, bound)|
    && r.inTree == |HeldBelow(s, bound)| && r.foreign == |ForeignBelow(s, bound)|
  }

  /** What the index says one partition's tree should hold, and the keys it does hold. */
  method AuditPartition(d: Daemon, p: nat) returns (r: Result<(set<string>, set<string>), ()>)
    requires d.Ready()
    ensures r.Success? ==> WriterRoot(d.State(), p).Success?
    ensures r.Success? ==> r.value == (PublishedKeys(d.State(), p), TreeKeys(d.State(), p))
    ensures r.Failure? && d.Reliable() ==> WriterRoot(d.State(), p).Failure?
  {
    hide BaseInv, Represents, SoundRoot, WellFormed, TreeAt, Entries;
    ghost var s := d.State();
    var expected := d.index.PublishedKeysForPartition(p);
    if expected.Failure? {
      return Failure(());
    }
    assert expected.value == PublishedKeys(s, p);
    var root := d.CurrentRoot(p);
    if root.Failure? {
      return Failure(());
    }
    if root.value.None? {
      NoKeys();
      return Success((expected.value, {}));
    }
    WriterTreeIsSound(s, p, root.value.value);
    ghost var t := TreeAt(s.blobs, root.value.value);
    var walked, entries := WalkEntries(d.store, root.value.value, [], t);
    if walked.Failure? {
      return Failure(());
    }
    assert [] + Entries(t) == Entries(t);
    return Success((expected.value, set e | e in entries :: e.key));
  }

  lemma NoKeys()
    ensures Keys(Absent) == {}
  {}

  /** Puts the keys back in the queue. */
  method RequeueAll(d: Daemon, keys: set<string>) returns (r: Result<nat, ()>)
    requires d.Ready() && d.publisher == Idle && keys <= d.index.records.Keys
    modifies d.index
    ensures d.Ready() && Reaches(old(d.State()), d.State())
    ensures d.index.records == old(d.index.records) && d.index.localRoots == old(d.index.localRoots)
    ensures KeepsRows(old(d.index.State()), d.index.State())
    ensures r.Success? ==> r.value == |keys| && forall k :: k in keys ==> Queues(d.index.State(), k)
    ensures d.index.reliable ==> r.Success?
  {
    hide BaseInv, Reaches, Enabled;
    ghost var start := d.State();
    ReachesSelf(start);
    var rest := keys;
    var requeued: nat := 0;
    while rest != {}
      invariant rest <= keys && d.Ready() && Reaches(start, d.State())
      invariant d.index.records == start.index.records && d.index.localRoots == start.index.localRoots
      invariant KeepsRows(start.index, d.index.State())
      invariant forall k :: k in keys && k !in rest ==> Queues(d.index.State(), k)
      invariant requeued + |rest| == |keys|
      decreases |rest|
    {
      var key :| key in rest;
      rest := rest - {key};
      ghost var before := d.State();
      var known := d.index.Requeue(key);
      if known.Failure? {
        return Failure(());
      }
      RequeueStep(before, key);
      Took(start, before, RequeueKey(key), d.State());
      if known.value {
        requeued := requeued + 1;
      }
    }
    return Success(requeued);
  }

  method RequeueMissing(d: Daemon, keys: set<string>, ghost start: Sys) returns (r: Result<nat, ()>)
    requires d.Ready() && d.publisher == Idle && keys <= d.index.records.Keys
    requires Reaches(start, d.State()) && SameButQueue(start, d.State())
    modifies d.index
    ensures d.Ready() && Reaches(start, d.State()) && SameButQueue(start, d.State())
    ensures forall k :: Queues(old(d.index.State()), k) ==> Queues(d.index.State(), k)
    ensures r.Success? ==> r.value == |keys| && forall k :: k in keys ==> Queues(d.index.State(), k)
    ensures d.index.reliable ==> r.Success?
  {
    hide BaseInv, Reaches, Queues, KeepsRows;
    ghost var before := d.State();
    r := RequeueAll(d, keys);
    ReachesOn(start, before, d.State());
    StillQueued(before.index, d.index.State());
  }

  lemma RequeueStep(s: Sys, key: string)
    requires BaseInv(s)
    ensures Enabled(s, RequeueKey(key)) && KeepsRows(s.index, RequeueOne(s.index, key))
    ensures key in s.index.records ==> Queues(RequeueOne(s.index, key), key)
    ensures forall k :: Queues(s.index, k) ==> Queues(RequeueOne(s.index, key), k)
  {
    RequeueSpec(s.index, key);
    var s' := RequeueOne(s.index, key);
    forall k | Queues(s.index, k) ensures Queues(s', k) {
      var n :| n in s.index.queue && s.index.queue[n] == k;
      assert n in s'.queue && s'.queue[n] == k;
    }
  }

  /** Coverage depends on records, roots, document and store, not on the queue. */
  ghost predicate SameButQueue(s: Sys, s': Sys) {
    && s'.index.records == s.index.records && s'.index.localRoots == s.index.localRoots
    && s'.doc == s.doc && s'.blobs == s.blobs
  }

  /** Where the writer has a root, a published key is covered when its tree holds it. */
  lemma CoveredIsHeld(s: Sys, p: nat, k: string)
    requires BaseInv(s) && WriterRoot(s, p).Success? && PublishedIn(s, p, k)
    ensures Covered(s, k) <==> k in TreeKeys(s, p)
  {
    hide TreeAt, BaseInv, Entries;
    NoKeys();
  }

  lemma PairCount(p: nat, keys: set<string>)
    ensures |set k | k in keys :: (p, k)| == |keys|
  {
    var pairs := set k | k in keys :: (p, k);
    if keys != {} {
      var k :| k in keys;
      PairCount(p, keys - {k});
      assert pairs == (set j | j in keys - {k} :: (p, j)) + {(p, k)};
    }
  }

  lemma PublishedNext(s: Sys, p: nat)
    requires BaseInv(s) && WriterRoot(s, p).Success?
    ensures |ExpectedBelow(s, p + 1)| == |ExpectedBelow(s, p)| + |PublishedKeys(s, p)|
    ensures MissingBelow(s, p + 1) == MissingBelow(s, p) + (PublishedKeys(s, p) - TreeKeys(s, p))
    ensures |MissingBelow(s, p + 1)| == |MissingBelow(s, p)| + |PublishedKeys(s, p) - TreeKeys(s, p)|
  {
    hide BaseInv, Covered, TreeKeys;
    var expected, missing := PublishedKeys(s, p), PublishedKeys(s, p) - TreeKeys(s, p);
    forall k | k in expected ensures Covered(s, k) <==> k in TreeKeys(s, p) { CoveredIsHeld(s, p, k); }
    assert ExpectedBelow(s, p + 1) == ExpectedBelow(s, p) + expected && ExpectedBelow(s, p) !! expected;
    assert MissingBelow(s, p + 1) == MissingBelow(s, p) + missing && MissingBelow(s, p) !! missing;
  }

  lemma CountsNext(s: Sys, p: nat, report: Report)
    requires BaseInv(s) && WriterRoot(s, p).Success? && Counts(s, p, report)
    ensures Counts(s, p + 1, WithPartition(report, PublishedKeys(s, p), TreeKeys(s, p)))
  {
    hide BaseInv, TreeKeys, PublishedKeys, ExpectedBelow, MissingBelow, HeldBelow, ForeignBelow, GapsBelow, WriterRoot;
    PublishedNext(s, p);
    HeldNext(s, p);
    ForeignNext(s, p);
    GapsNext(s, p);
  }

  lemma GapsNext(s: Sys, p: nat)
    ensures |GapsBelow(s, p + 1)| == |GapsBelow(s, p)| + if PublishedKeys(s, p) - TreeKeys(s, p) == {} then 0 else 1
  {
    hide TreeKeys, PublishedKeys;
    NoDifference(PublishedKeys(s, p), TreeKeys(s, p));
    Disjointly(GapsBelow(s, p), if PublishedKeys(s, p) <= TreeKeys(s, p) then {} else {p}, GapsBelow(s, p + 1));
  }

  lemma HeldNext(s: Sys, p: nat)
    ensures |HeldBelow(s, p + 1)| == |HeldBelow(s, p)| + |TreeKeys(s, p)|
  {
    hide TreeKeys;
    PairCount(p, TreeKeys(s, p));
    var before, pairs, after := HeldBelow(s, p), set k | k in TreeKeys(s, p) :: (p, k), HeldBelow(s, p + 1);
    forall x ensures x in after <==> x in before || x in pairs {}
    Disjointly(before, pairs, after);
  }

  lemma ForeignNext(s: Sys, p: nat)
    ensures |ForeignBelow(s, p + 1)| == |ForeignBelow(s, p)| + |TreeKeys(s, p) - PublishedKeys(s, p)|
  {
    hide TreeKeys;
    var foreign := TreeKeys(s, p) - PublishedKeys(s, p);
    PairCount(p, foreign);
    var before, pairs, after := ForeignBelow(s, p), set k | k in foreign :: (p, k), ForeignBelow(s, p + 1);
    forall x ensures x in after <==> x in before || x in pairs {}
    Disjointly(before, pairs, after);
  }

  lemma NoDifference<T>(a: set<T>, b: set<T>)
    ensures a - b == {} <==> a <= b
  {
    assert a <= b + (a - b);
  }

  lemma Disjointly<T>(a: set<T>, b: set<T>, both: set<T>)
    requires a !! b && forall x :: x in both <==> x in a || x in b
    ensures |both| == |a| + |b|
  {
    assert both == a + b;
  }

  /** One partition of the audit. */
  method AuditOne(d: Daemon, fix: bool, p: nat, report: Report, ghost start: Sys) returns (r: Result<Report, ()>)
    requires d.Ready() && d.publisher == Idle && BaseInv(start) && Reaches(start, d.State()) && SameButQueue(start, d.State())
    requires Counts(start, p, report)
    modifies d.index
    ensures d.Ready() && Reaches(start, d.State()) && SameButQueue(start, d.State())
    ensures !fix ==> d.State() == old(d.State())
    ensures forall k :: Queues(old(d.index.State()), k) ==> Queues(d.index.State(), k)
    ensures r.Success? ==> Counts(start, p + 1, r.value)
    ensures r.Failure? && d.Reliable() ==> WriterRoot(start, p).Failure?
    ensures r.Success? ==> r.value.requeued - report.requeued == if fix then r.value.missing - report.missing else 0
    ensures r.Success? && fix ==>
              forall k :: k in MissingBelow(start, p + 1) ==> k in MissingBelow(start, p) || Queues(d.index.State(), k)
  {
    hide BaseInv, Reaches, Covered, Queues, SameButQueue, Counts, TreeKeys, MissingBelow, PublishedIn;
    var audit := AuditPartition(d, p);
    SameKeys(start, d.State(), p);
    if audit.Failure? {
      return Failure(());
    }
    var (expected, inTree) := audit.value;
    CountsNext(start, p, report);
    var counted := WithPartition(report, expected, inTree);
    if !fix {
      return Success(counted);
    }
    PublishedAreKnown(d.State(), p);
    MissingHere(start, p);
    var requeued := RequeueMissing(d, expected - inTree, start);
    if requeued.Failure? {
      return Failure(());
    }
    r := Success(counted.(requeued := counted.requeued + requeued.value));
    SameCounts(start, p + 1, counted, r.value);
  }

  lemma SameCounts(s: Sys, bound: nat, a: Report, b: Report)
    requires Counts(s, bound, a) && b == a.(requeued := b.requeued)
    ensures Counts(s, bound, b)
  {}

  lemma MissingHere(s: Sys, p: nat)
    requires BaseInv(s) && WriterRoot(s, p).Success?
    ensures forall k :: k in MissingBelow(s, p + 1) ==> k in MissingBelow(s, p) || k in PublishedKeys(s, p) - TreeKeys(s, p)
  {
    hide Covered, TreeKeys, BaseInv;
    forall k | k in MissingBelow(s, p + 1) && k !in MissingBelow(s, p) ensures k in PublishedKeys(s, p) - TreeKeys(s, p) {
      CoveredIsHeld(s, p, k);
    }
  }

  lemma SameKeys(s: Sys, s': Sys, p: nat)
    requires SameButQueue(s, s')
    ensures PublishedKeys(s, p) == PublishedKeys(s', p) && TreeKeys(s, p) == TreeKeys(s', p)
    ensures WriterRoot(s, p) == WriterRoot(s', p)
  {}

  /** The whole audit: each counter counts what it is named for, and with `fix` every published key
      that its tree lacks is left queued. */
  method Audit(d: Daemon, fix: bool) returns (r: Result<Report, ()>)
    requires d.Ready() && d.publisher == Idle
    modifies d.index
    ensures d.Ready() && Reaches(old(d.State()), d.State())
    ensures r.Success? ==> Counts(old(d.State()), PARTITIONS, r.value)
    ensures r.Failure? && d.Reliable() ==> exists p: nat :: p < PARTITIONS && WriterRoot(old(d.State()), p).Failure?
    ensures r.Success? ==> r.value.requeued == if fix then r.value.missing else 0
    ensures r.Success? && fix ==> Mended(d.State())
    ensures !fix ==> d.State() == old(d.State())
  {
    hide BaseInv, Reaches, Covered, MissingBelow, Queues, PublishedIn, SameButQueue, Mended, Counts;
    ghost var start := d.State();
    ReachesSelf(start);
    AuditStarts(start);
    var report := Report(0, 0, 0, 0, 0, 0, 0);
    MissingCounted(start, 0, report);
    for p := 0 to PARTITIONS
      invariant d.Ready() && d.publisher == Idle && Reaches(start, d.State()) && SameButQueue(start, d.State())
      invariant !fix ==> d.State() == start
      invariant Counts(start, p, report) && report.requeued == if fix then report.missing else 0
      invariant fix ==> forall k :: k in MissingBelow(start, p) ==> Queues(d.index.State(), k)
    {
      var one := AuditOne(d, fix, p, report, start);
      if one.Failure? {
        assert d.Reliable() ==> WriterRoot(start, p).Failure?;
        return Failure(());
      }
      report := one.value;
    }
    if fix {
      AllMissingQueued(start, d.State());
    }
    return Success(report);
  }

  lemma MissingCounted(s: Sys, bound: nat, r: Report)
    requires Counts(s, bound, r)
    ensures r.missing == |MissingBelow(s, bound)|
  {}

  lemma AuditStarts(s: Sys)
    ensures MissingBelow(s, 0) == {} && SameButQueue(s, s) && Counts(s, 0, Report(0, 0, 0, 0, 0, 0, 0))
  {
    hide Covered, TreeKeys, PublishedIn;
    assert ExpectedBelow(s, 0) == {} && HeldBelow(s, 0) == {} && ForeignBelow(s, 0) == {} && GapsBelow(s, 0) == {};
  }

  lemma SameCoverage(s: Sys, s': Sys)
    requires SameButQueue(s, s')
    ensures forall k :: k in s.index.records ==> (Covered(s, k) <==> Covered(s', k))
  {}

  lemma PublishedAreKnown(s: Sys, p: nat)
    ensures PublishedKeys(s, p) <= s.index.records.Keys
  {}

  lemma StillQueued(index: IndexState, index': IndexState)
    requires KeepsRows(index, index')
    ensures forall k :: Queues(index, k) ==> Queues(index', k)
  {
    forall k | Queues(index, k) ensures Queues(index', k) {
      var n :| n in index.queue && index.queue[n] == k;
      assert n in index'.queue && index'.queue[n] == k;
    }
  }

  lemma AllMissingQueued(start: Sys, s: Sys)
    requires BaseInv(start) && SameButQueue(start, s)
    requires forall k :: k in MissingBelow(start, PARTITIONS) ==> Queues(s.index, k)
    ensures Mended(s)
  {
    hide Covered, RootsOk, DocOk, StageOk, ValuesOk, Valid;
    SameCoverage(start, s);
    forall k | k in s.index.records && s.index.records[k].status == Published ensures Covered(s, k) || Queues(s.index, k) {
      assert start.index.records[k].partitionId == PartitionId(Sha256(k), PARTITIONS);
      if !Covered(s, k) { assert k in MissingBelow(start, PARTITIONS); }
    }
  }

  // ----- Draining the queue

  lemma FirstIsApart(first: Row, rest: seq<Row>)
    requires InOrder([first] + rest)
    ensures InOrder(rest) && first.seq_ !in RowSeqs(rest)
    ensures RowSeqs([first] + rest) == {first.seq_} + RowSeqs(rest)
  {
    var rows := [first] + rest;
    forall i, j | 0 <= i < j < |rest| ensures rest[i].seq_ < rest[j].seq_ {
      assert rows[i + 1] == rest[i] && rows[j + 1] == rest[j];
    }
    forall row | row in rest ensures row.seq_ != first.seq_ {
      var i :| 0 <= i < |rest| && rest[i] == row;
      assert rows[i + 1] == row && rows[0] == first;
    }
  }

  lemma {:induction false} OrderedSeqs(rows: seq<Row>)
    requires InOrder(rows)
    ensures |RowSeqs(rows)| == |rows|
  {
    hide InOrder;
    if rows == [] {
      assert RowSeqs(rows) == {};
    } else {
      assert rows == [rows[0]] + rows[1..];
      FirstIsApart(rows[0], rows[1..]);
      OrderedSeqs(rows[1..]);
    }
  }

  lemma BatchSeqs(s: IndexState, max: nat)
    requires Valid(s)
    ensures RowSeqs(OldestRows(s, max)) <= s.queue.Keys
    ensures |RowSeqs(OldestRows(s, max))| == if max < |s.queue| then max else |s.queue|
  {
    hide InOrder, TakesLowest;
    OldestOfSpec(s, s.queue.Keys, max);
    OldestOfOrder(s, s.queue.Keys, max);
    OrderedSeqs(OldestRows(s, max));
    assert |s.queue| == |s.queue.Keys|;
  }

  /** With nobody else writing, a successful cycle takes exactly the oldest `max` rows. */
  lemma CycleDrains(before: IndexState, after: IndexState, max: nat)
    requires Valid(before) && Valid(after) && after.nextSeq == before.nextSeq
    requires RowsGone(before, after, RowSeqs(OldestRows(before, max)))
    ensures after.queue == before.queue - RowSeqs(OldestRows(before, max))
    ensures |after.queue| == if max < |before.queue| then |before.queue| - max else 0
  {
    BatchSeqs(before, max);
    hide OldestRows, RowSeqs;
    var gone := RowSeqs(OldestRows(before, max));
    forall n | n in after.queue ensures n in before.queue && n !in gone && after.queue[n] == before.queue[n] {
      assert n < after.nextSeq;
    }
    assert after.queue.Keys == before.queue.Keys - gone;
    assert |after.queue| == |after.queue.Keys| && |before.queue| == |before.queue.Keys|;
  }

  /** Cycles back to back until the queue is empty; the denylist may change between any two. From a
      mended state - after an audit with `fix`, say - nothing published is missing from its tree
      when the queue has run dry. */
  method Drain(d: Daemon, maxPending: nat, now: int) returns (r: Result<(), ()>)
    requires EntrySerializer() && d.Ready() && d.publisher == Idle && d.offline && maxPending >= 1
    modifies d`inflight, d`activeWrites, d`publisher, d`dangling, d.index, d.store, d.pointerDoc
    ensures d.Ready() && d.publisher == Idle && Reaches(old(d.State()), d.State())
    ensures r.Success? ==> d.index.queue == map[]
    ensures r.Success? && Mended(old(d.State())) ==> CoverageOk(d.State())
    ensures r.Failure? && d.Reliable() ==> d.store.clashed || StuckSomewhere(old(d.State()))
  {
    hide Reaches, RowsGone, Valid, Covered, ValuesOk, RootsOk, DocOk, StageOk;
    ghost var start := d.State();
    ReachesSelf(start);
    while d.index.queue != map[]
      invariant d.Ready() && d.publisher == Idle && Reaches(start, d.State())
      decreases |d.index.queue|
    {
      ghost var before := d.State();
      var denylist: set<string> := *;
      var cycle := d.PublishCycle(maxPending, denylist, now);
      ReachesOn(start, before, d.State());
      if cycle.Failure? {
        if d.Reliable() && !d.store.clashed {
          SomewhereStuck(before, OldestRows(before.index, maxPending), denylist);
          StuckFrom(start, before);
        }
        return Failure(());
      }
      CycleDrains(before.index, d.index.State(), maxPending);
    }
    PathKeepsCoverage(start, d.State());
    return Success(());
  }

  /** Repair: whatever well-formed roots the partitions were left with, an audit with `fix` followed by
      draining leaves no published key missing. */
  method Repair(d: Daemon, maxPending: nat, now: int) returns (r: Result<(), ()>)
    requires EntrySerializer() && d.Ready() && d.publisher == Idle && d.offline && maxPending >= 1
    modifies d`inflight, d`activeWrites, d`publisher, d`dangling, d.index, d.store, d.pointerDoc
    ensures d.Ready() && Reaches(old(d.State()), d.State())
    ensures r.Success? ==> CoverageOk(d.State()) && d.index.queue == map[] && MissingBelow(d.State(), PARTITIONS) == {}
    ensures r.Success? && BackedOk(old(d.State())) ==> Inv(d.State())
    ensures r.Failure? && d.Reliable() ==>
              || d.store.clashed
              || (exists p: nat :: p < PARTITIONS && WriterRoot(old(d.State()), p).Failure?)
              || StuckSomewhere(old(d.State()))
  {
    hide BaseInv, Reaches, Mended, Covered, BackedOk, Counts;
    ghost var start := d.State();
    var audited := Audit(d, true);
    if audited.Failure? {
      return Failure(());
    }
    ghost var middle := d.State();
    r := Drain(d, maxPending, now);
    ReachesOn(start, middle, d.State());
    if StuckSomewhere(middle) { StuckFrom(start, middle); }
    PathKeepsCoverage(start, d.State());
  }

  // ----- The publisher's life

  /** From startup to shutdown: seeding and healing, then any number of rounds in which other tasks
      act, the document may be healed, a cycle runs when one is due and garbage may be collected, and a
      last cycle at the end. Any of these may fail without ending the rest. Nothing more is said once a
      sweep has skipped over a tree walk. */
  method RunPublisher(d: Daemon, maxPending: nat) returns (clean: bool)
    requires EntrySerializer() && d.Ready() && d.publisher == Idle && BackedOk(d.State())
    modifies d`inflight, d`activeWrites, d`publisher, d`dangling, d.index, d.store, d.pointerDoc
    ensures clean ==> d.Ready() && d.publisher == Idle && Reaches(old(d.State()), d.State())
    ensures clean ==> KeepsBindings(old(d.index.State()), d.index.State()) && BackedOk(d.State())
    ensures clean && CoverageOk(old(d.State())) ==> CoverageOk(d.State())
    ensures d.store.reliable ==> clean
  {
    hide BaseInv, Reaches, CoverageOk, KeepsBindings, Mended, BackedOk, Protects;
    ghost var start := d.State();
    var _, seedClean, _ := SeedLocalRoots(d, true);
    if !seedClean {
      return false;
    }
    ghost var before := d.State();
    PathKeepsCoverage(start, before);
    var _, healClean, _, _ := HealPointerDoc(d, true);
    if !healClean {
      return false;
    }
    ReachesOn(start, before, d.State());
    var rounds: nat :| true;
    for i := 0 to rounds
      invariant d.Ready() && d.publisher == Idle && Reaches(start, d.State())
    {
      clean := PublisherRound(d, maxPending, start);
      if !clean {
        return;
      }
      var collectDue: bool := *;
      if collectDue {
        clean := CollectRound(d, start);
        if !clean {
          return;
        }
      }
    }
    if |d.index.queue| > 0 {
      CycleOnce(d, maxPending, start);
    }
    PathKeepsCoverage(start, d.State());
    return true;
  }

  method CollectRound(d: Daemon, ghost start: Sys) returns (clean: bool)
    requires d.Ready() && Reaches(start, d.State()) && BaseInv(start) && BackedOk(start)
    modifies d`dangling, d.store
    ensures clean ==> d.Ready() && Reaches(start, d.State())
    ensures d.store.reliable ==> clean
    ensures forall q :: Readable(old(d.State()), q) ==> Readable(d.State(), q)
  {
    hide BaseInv, Reaches, CoverageOk, KeepsBindings, Mended, BackedOk, IsApart, IndexAt;
    ghost var before := d.State();
    PathKeepsCoverage(start, before);
    var _, noneSkipped, _, _, _ := CollectGarbage(d, map[]);
    clean := noneSkipped;
    if clean {
      ReachesOn(start, before, d.State());
    }
  }

  method PublisherRound(d: Daemon, maxPending: nat, ghost start: Sys) returns (clean: bool)
    requires EntrySerializer() && d.Ready() && d.publisher == Idle && Reaches(start, d.State())
    requires BaseInv(start) && BackedOk(start)
    modifies d`inflight, d`activeWrites, d`publisher, d`dangling, d.index, d.store, d.pointerDoc
    ensures clean ==> d.Ready() && d.publisher == Idle && Reaches(start, d.State())
    ensures d.store.reliable ==> clean
  {
    hide BaseInv, Reaches, BackedOk;
    ghost var before := d.State();
    d.BeginOn(before);
    var _ := d.OtherTasks(before, {});
    d.OnReaches(before, {});
    ReachesOn(start, before, d.State());
    var healDue: bool, waitedLong: bool := *, *;
    if healDue {
      before := d.State();
      PathKeepsCoverage(start, before);
      var _, healClean, _, _ := HealPointerDoc(d, true);
      if !healClean {
        return false;
      }
      ReachesOn(start, before, d.State());
    }
    if |d.index.queue| > 0 && (|d.index.queue| >= maxPending || waitedLong) {
      CycleOnce(d, maxPending, start);
    }
    return true;
  }

  method CycleOnce(d: Daemon, maxPending: nat, ghost start: Sys)
    requires EntrySerializer() && d.Ready() && d.publisher == Idle && Reaches(start, d.State())
    modifies d`inflight, d`activeWrites, d`publisher, d`dangling, d.index, d.store, d.pointerDoc
    ensures d.Ready() && d.publisher == Idle && Reaches(start, d.State())
  {
    hide BaseInv, Reaches;
    ghost var before := d.State();
    var denylist: set<string>, now: int := *, *;
    var cycle := d.PublishCycle(maxPending, denylist, now);
    ReachesOn(start, before, d.State());
  }
}
