/** Safety of the registry over whole runs. */
module RegistryLaws {
  import opened Wrappers
  import opened Digests
  import opened Blobs
  import opened NodeCodec
  import opened HamtTree
  import opened HamtStore
  import opened HamtWalk
  import opened Index
  import opened Registry
  import opened RegistryInv

  ghost predicate Run(states: seq<Sys>, labels: seq<Label>) {
    && |states| == |labels| + 1
    && forall i :: 0 <= i < |labels| ==> Enabled(states[i], labels[i]) && states[i + 1] == After(states[i], labels[i])
  }

  const NOTHING: Sys := Sys(IndexState(map[], map[], 0, map[]), map[], map[], multiset{}, Idle, {})

  lemma NothingIsFine()
    ensures Inv(NOTHING)
  {}

  /** The invariant is inductive, with or without coverage. */
  lemma StepKeepsInv(s: Sys, l: Label)
    requires Enabled(s, l) && BaseInv(s)
    ensures BaseInv(After(s, l))
    ensures CoverageOk(s) ==> CoverageOk(After(s, l))
    ensures Mended(s) ==> Mended(After(s, l))
  {
    hide *;
    StepKeepsBoth(s, l);
    KeepsCoverageMeans(s, After(s, l));
  }

  lemma StepKeepsBoth(s: Sys, l: Label)
    requires Enabled(s, l) && BaseInv(s)
    ensures BaseInv(After(s, l)) && KeepsCoverage(s, After(s, l))
  {
    hide *;
    match l
    case Accept(_, _) => AcceptKeeps(s, l);
    case Commit(_) => CommitKeeps(s, l);
    case Drop(_) => ControlKeeps(s, l);
    case Begin(_, _) => BeginKeeps(s, l);
    case Build(_, _, _) => BuildKeeps(s, l);
    case WriteDoc => WriteDocKeeps(s, l);
    case WriteLocalRoot => WriteLocalRootKeeps(s, l);
    case Skip(_) => ControlKeeps(s, l);
    case MarkPublished(_) => MarkPublishedKeeps(s, l);
    case MarkDenied(_) => MarkDeniedKeeps(s, l);
    case End => ControlKeeps(s, l);
    case Abort(_) => ControlKeeps(s, l);
    case Crash => ControlKeeps(s, l);
    case Seed(_) => SeedKeeps(s, l);
    case Heal(_) => HealKeeps(s, l);
    case RequeueKey(_) => RequeueKeeps(s, l);
    case Damage(_) => DamageKeeps(s, l);
    case Collect(_, _) => CollectKeeps(s, l);
  }

  /** Backing is kept by itself: no step brings an entry the index has not accepted into a tree. */
  lemma StepKeepsBacked(s: Sys, l: Label)
    requires Enabled(s, l) && BaseInv(s) && BackedOk(s)
    ensures BackedOk(After(s, l))
  {
    hide *;
    StepKeepsBindings(s, l);
    TrackedStep(s, l);
    var s' := After(s, l);
    forall h | h in Tracked(s') ensures Backed(s'.index, TreeAt(s'.blobs, h)) {
      if l.Build? && h == l.root {
        BuildIsBacked(s, l);
        BackedKept(s.index, s'.index, TreeAt(s'.blobs, h));
      } else {
        TrackedTree(s, l, h);
        BackedAt(s, h);
        BackedKept(s.index, s'.index, TreeAt(s.blobs, h));
      }
    }
    BackedIs(s');
  }

  /** No step changes what a key is bound to, or makes a settled record pending again. */
  lemma StepKeepsBindings(s: Sys, l: Label)
    requires Enabled(s, l) && BaseInv(s)
    ensures KeepsBindings(s.index, After(s, l).index)
  {
    hide Valid, Covered, RootsOk, DocOk, StageOk, SubmitAll, FinishAll, RequeueOne, Protects, Swept, OldestRows, Group,
         KeepsBindings, ValuesOk, TodoOk, Select, BuildsOn, Grows, ItemsOf;
    match l {
      case Commit(subs) => SubmitAllSpec(s.index, subs);
      case RequeueKey(key) => RequeueSpec(s.index, key);
      case MarkPublished(now) =>
        FinishKeepsBindings(s, Select(s.publisher.todo[s.publisher.stage.p], s.publisher.denied, false), Published, now);
      case MarkDenied(now) =>
        FinishKeepsBindings(s, s.publisher.todo[s.publisher.stage.p], Denylisted, now);
      case WriteLocalRoot => RecordsKept(s.index, After(s, l).index);
      case Seed(_) => RecordsKept(s.index, After(s, l).index);
      case _ => KeepsBindingsComposes(s.index, s.index, s.index);
    }
  }

  lemma RecordsKept(index: IndexState, index': IndexState)
    requires index'.records == index.records
    ensures KeepsBindings(index, index')
  {}

  lemma FinishKeepsBindings(s: Sys, rows: seq<Row>, status: RecordStatus, now: int)
    requires BaseInv(s) && s.publisher.Busy? && status != Pending
    requires exists p :: p in s.publisher.todo && forall row :: row in rows ==> row in s.publisher.todo[p]
    ensures KeepsBindings(s.index, FinishAll(s.index, ItemsOf(rows), status, now))
  {
    hide Valid, RootsOk, DocOk, StageOk, ValuesOk, FinishAll, KeepsBindings, ItemsOf;
    var p :| p in s.publisher.todo && forall row :: row in rows ==> row in s.publisher.todo[p];
    ItemsAreRows(s.index, p, rows);
    FinishAllSpec(s.index, ItemsOf(rows), status, now);
  }

  /** Over any run, from any point to any later one. */
  lemma {:induction false} RunsKeepInv(states: seq<Sys>, labels: seq<Label>, i: nat, j: nat)
    requires Run(states, labels) && BaseInv(states[0]) && i <= j < |states|
    ensures BaseInv(states[i]) && BaseInv(states[j]) && KeepsBindings(states[i].index, states[j].index)
    ensures CoverageOk(states[i]) ==> CoverageOk(states[j])
    ensures Mended(states[i]) ==> Mended(states[j])
    ensures BackedOk(states[i]) ==> BackedOk(states[j])
    decreases j
  {
    hide Enabled, After, BaseInv, CoverageOk, Mended, KeepsBindings, BackedOk;
    if j > 0 {
      RunsKeepInv(states, labels, if i < j then i else j - 1, j - 1);
      var l := labels[j - 1];
      assert Enabled(states[j - 1], l) && states[j] == After(states[j - 1], l);
      StepKeepsInv(states[j - 1], l);
      StepKeepsBindings(states[j - 1], l);
      if BackedOk(states[j - 1]) { StepKeepsBacked(states[j - 1], l); }
      KeepsBindingsComposes(states[if i < j then i else j].index, states[if i < j then j - 1 else j].index, states[j].index);
    } else {
      KeepsBindingsComposes(states[0].index, states[0].index, states[0].index);
    }
  }

  /** `root` is whole in the store and looking the key up under it gives the hash. */
  ghost predicate Resolves(blobs: map<Hash, Bytes>, root: Hash, key: string, hash: Hash) {
    && Stored(blobs, root) && WellFormed(TreeAt(blobs, root), 0)
    && HamtTree.Lookup(TreeAt(blobs, root), 0, key).Some?
    && HamtTree.Lookup(TreeAt(blobs, root), 0, key).value.hash == hash
  }

  lemma SoundRootResolves(index: IndexState, blobs: map<Hash, Bytes>, root: Hash, key: string)
    requires SoundRoot(blobs, root) && Backed(index, TreeAt(blobs, root)) && HasKey(TreeAt(blobs, root), key)
    ensures key in index.records && Resolves(blobs, root, key, index.records[key].contentHash)
  {
    hide Stored, TreeAt;
    var t := TreeAt(blobs, root);
    LookupFinds(t, 0, key);
    var e := HamtTree.Lookup(t, 0, key).value;
    assert e in Entries(t) && e.key == key;
  }

  /** Crash safety: at every point of every run a published record is under the root the writer would
      build on, with its hash. Where the partition has no local root yet and its document entry has
      been damaged there is no such root, and the writer gets an error - never "no root". */
  lemma PublishedIsNeverLost(states: seq<Sys>, labels: seq<Label>, i: nat, key: string)
    requires Run(states, labels) && Inv(states[0]) && i < |states|
    requires key in states[i].index.records && states[i].index.records[key].status == Published
    ensures var s, record := states[i], states[i].index.records[key];
            match WriterRoot(s, record.partitionId)
            case Success(Some(root)) => Resolves(s.blobs, root, key, record.contentHash)
            case Success(None) => false
            case Failure(_) => record.partitionId !in s.index.localRoots && !Readable(s, record.partitionId)
  {
    RunsKeepInv(states, labels, 0, i);
    var s := states[i];
    var p := s.index.records[key].partitionId;
    assert Covered(s, key);
    if p in s.index.localRoots {
      SoundRootResolves(s.index, s.blobs, s.index.localRoots[p], key);
    } else {
      assert p !in s.dangling;
      SoundRootResolves(s.index, s.blobs, s.doc[p].root, key);
    }
  }

  /** Reader visibility: unless a sweep came between a partition's document write and its local-root
      write, whoever reads the document finds every published key of the partition its digest names,
      with the hash the key was first accepted with - at whatever earlier point `i` that was - and the
      value is in the store. */
  lemma ReadersSeePublished(states: seq<Sys>, labels: seq<Label>, i: nat, j: nat, key: string)
    requires Run(states, labels) && Inv(states[0]) && i <= j < |states|
    requires key in states[i].index.records
    requires key in states[j].index.records && states[j].index.records[key].status == Published
    requires var p := PartitionId(Sha256(key), PARTITIONS);
             Readable(states[j], p) && p !in states[j].dangling
    ensures var p, hash := PartitionId(Sha256(key), PARTITIONS), states[i].index.records[key].contentHash;
            && Resolves(states[j].blobs, states[j].doc[p].root, key, hash)
            && ValueAt(states[j].blobs, hash)
  {
    RunsKeepInv(states, labels, 0, j);
    RunsKeepInv(states, labels, i, j);
    var s := states[j];
    var p := s.index.records[key].partitionId;
    assert Covered(s, key);
    if p in s.index.localRoots {
      KeyCarriesOver(TreeAt(s.blobs, s.doc[p].root), TreeAt(s.blobs, s.index.localRoots[p]), key);
    }
    SoundRootResolves(s.index, s.blobs, s.doc[p].root, key);
  }

  /** A sweep in any run takes nothing that is needed: every writer root denotes the tree it denoted,
      every indexed value - pending ones included - is still there, and every readable document entry
      is still readable. */
  lemma SweepTakesNothingNeeded(states: seq<Sys>, labels: seq<Label>, i: nat)
    requires Run(states, labels) && Inv(states[0]) && i < |labels| && labels[i].Collect?
    ensures var s, s' := states[i], states[i + 1];
            && (forall p, h :: WriterRoot(s, p) == Success(Some(h)) ==>
                  WriterRoot(s', p) == Success(Some(h)) && Stored(s'.blobs, h) && TreeAt(s'.blobs, h) == TreeAt(s.blobs, h))
            && (forall k :: k in s.index.records ==>
                  s.index.records[k].contentHash in s'.blobs
                  && s'.blobs[s.index.records[k].contentHash] == s.blobs[s.index.records[k].contentHash])
            && (forall p :: Readable(s, p) ==> Readable(s', p))
  {
    hide BaseInv, CoverageOk, BackedOk, Enabled, After, Stored, TreeAt;
    RunsKeepInv(states, labels, 0, i);
    SweepTakesNothing(states[i], labels[i]);
  }

  lemma SweepTakesNothing(s: Sys, l: Label)
    requires BaseInv(s) && Enabled(s, l) && l.Collect?
    ensures var s' := After(s, l);
            && (forall p, h :: WriterRoot(s, p) == Success(Some(h)) ==>
                  WriterRoot(s', p) == Success(Some(h)) && Stored(s'.blobs, h) && TreeAt(s'.blobs, h) == TreeAt(s.blobs, h))
            && (forall k :: k in s.index.records ==>
                  s.index.records[k].contentHash in s'.blobs
                  && s'.blobs[s.index.records[k].contentHash] == s.blobs[s.index.records[k].contentHash])
            && (forall p :: Readable(s, p) ==> Readable(s', p))
  {
    hide Represents, Reach, WellFormed, Valid, StageOk, TodoOk, Contains, TreeAt, Stored;
    var s' := After(s, l);
    forall p, h | WriterRoot(s, p) == Success(Some(h))
      ensures WriterRoot(s', p) == Success(Some(h)) && Stored(s'.blobs, h) && TreeAt(s'.blobs, h) == TreeAt(s.blobs, h)
    {
      assert p in s.index.localRoots || p !in s.dangling;
      SweepKeepsWriterTree(s, l, p, h);
    }
    forall k | k in s.index.records
      ensures s.index.records[k].contentHash in s'.blobs
      ensures s'.blobs[s.index.records[k].contentHash] == s.blobs[s.index.records[k].contentHash]
    {
      assert s.index.records[k].contentHash in ContentHashes(s.index);
    }
  }

  // ----- Why the document's root may be lost

  /** What the tree under a partition's writer root reaches. */
  ghost function WriterReach(s: Sys, p: nat): set<Hash> {
    match WriterRoot(s, p)
    case Success(Some(h)) => RootReach(s.blobs, h)
    case _ => {}
  }

  ghost function RootReach(blobs: map<Hash, Bytes>, h: Hash): set<Hash> {
    if Stored(blobs, h) then
      TreeAtRepresents(blobs, h);
      Reach(blobs, Some(h), TreeAt(blobs, h))
    else {}
  }

  /** Every value the index knows and everything the writer's trees reach. */
  ghost function Walked(s: Sys): set<Hash> {
    ContentHashes(s.index) + set p, h | p in s.index.localRoots.Keys + s.doc.Keys && h in WriterReach(s, p) :: h
  }

  ghost function DocContents(s: Sys): set<Hash> {
    set p | p in s.doc :: s.doc[p].content
  }

  /** The least set a sweep protects. */
  ghost function LeastLive(s: Sys): set<Hash> {
    Walked(s) + DocContents(s)
  }

  lemma LeastLiveProtects(s: Sys)
    ensures Protects(s, LeastLive(s))
  {
    hide Reach, Represents;
    forall p, h, t | WriterRoot(s, p) == Success(Some(h)) && Represents(s.blobs, Some(h), t)
      ensures Reach(s.blobs, Some(h), t) <= LeastLive(s)
    {
      TreeAtIs(s.blobs, h, t);
      assert p in s.index.localRoots.Keys + s.doc.Keys;
      assert WriterReach(s, p) == Reach(s.blobs, Some(h), t);
    }
  }

  /** At the point where the document names the new root and the local table does not yet, and nothing the
      sweep protects is that root. */
  ghost predicate DocumentAhead(s: Sys, p: nat, root: Hash, key: string) {
    && BaseInv(s) && s.publisher.Busy? && s.publisher.stage == DocWritten(p, root) && p in s.index.localRoots && Readable(s, p)
    && key in s.index.records && s.index.records[key].status == Published && s.index.records[key].partitionId == p
    && (forall q: nat :: q < PARTITIONS ==> WriterRoot(s, q).Success?)
    && root !in LeastLive(s)
  }

  /** The sweep of least effect. */
  ghost function LeastSweep(s: Sys): Label {
    Collect(LeastLive(s), Kept(s.blobs, LeastLive(s)))
  }

  ghost function Crashed(s: Sys): Sys {
    s.(publisher := Idle, inflight := multiset{})
  }

  ghost function LeastSwept(s: Sys): Sys {
    s.(blobs := Kept(s.blobs, LeastLive(s)), dangling := s.dangling + AheadIn(s))
  }

  /** The proviso of `ReadersSeePublished` is needed: after a crash at that point and a sweep, a published
      key's partition has a readable document entry under which the key is found with no hash at all. */
  lemma CrashAndSweepHideKey(s: Sys, p: nat, root: Hash, key: string)
    requires DocumentAhead(s, p, root, key)
    ensures Run([s, Crashed(s), LeastSwept(Crashed(s))], [Crash, LeastSweep(Crashed(s))])
    ensures var swept := LeastSwept(Crashed(s));
            && key in swept.index.records && swept.index.records[key].status == Published
            && Readable(swept, p) && p in swept.dangling
            && forall hash :: !Resolves(swept.blobs, swept.doc[p].root, key, hash)
  {
    hide BaseInv, Stored, TreeAt, RootReach, WellFormed, Represents, HamtTree.Lookup, Protects, LeastLive, Enabled, After;
    CrashStep(s);
    var crashed := Crashed(s);
    SameReach(s, crashed);
    LeastLiveProtects(crashed);
    assert forall q: nat :: q < PARTITIONS ==> WriterRoot(crashed, q) == WriterRoot(s, q);
    CollectStep(crashed, LeastLive(crashed));
    LocalRootIsLive(s, p);
    AheadOfLocal(s, p, root);
    ContentIsLive(s, p);
    OnlyPresentRootsAreStored(Kept(s.blobs, LeastLive(s)), root);
  }

  lemma CrashStep(s: Sys)
    ensures Enabled(s, Crash) && After(s, Crash) == Crashed(s)
  {}

  lemma ContentIsLive(s: Sys, p: nat)
    requires p in s.doc
    ensures s.doc[p].content in LeastLive(s)
  {}

  lemma SameReach(s: Sys, s': Sys)
    requires s' == s.(publisher := s'.publisher, inflight := s'.inflight)
    ensures LeastLive(s') == LeastLive(s)
  {
    hide RootReach;
    assert forall p :: WriterReach(s', p) == WriterReach(s, p);
  }

  lemma AheadOfLocal(s: Sys, p: nat, root: Hash)
    requires BaseInv(s) && s.publisher.Busy? && s.publisher.stage == DocWritten(p, root)
    ensures p in s.doc && s.doc[p].root == root
  {}

  lemma LocalRootIsLive(s: Sys, p: nat)
    requires BaseInv(s) && p in s.index.localRoots
    ensures s.index.localRoots[p] in LeastLive(s)
  {
    hide Reach, Represents, WellFormed, Valid;
    LeastLiveProtects(s);
    WriterRootIsLive(s, LeastLive(s), p);
  }

  /** A sweep keeps a document's tree and all its values if and only if the protect set has everything
      they reach: for a document ahead of the local root, that is up to what else is protected. */
  lemma DocumentSurvivesIffProtected(s: Sys, live: set<Hash>, p: nat)
    requires BaseInv(s) && BackedOk(s) && p in s.doc && p !in s.dangling
    ensures var root := s.doc[p].root;
            var t := TreeAt(s.blobs, root);
            (Stored(Kept(s.blobs, live), root) && TreeAt(Kept(s.blobs, live), root) == t && HasValues(Kept(s.blobs, live), t))
            <==> RootReach(s.blobs, root) <= live
  {
    hide Reach, Represents, HasValues, Kept;
    var root := s.doc[p].root;
    var t, kept := TreeAt(s.blobs, root), Kept(s.blobs, live);
    assert SoundRoot(s.blobs, root);
    TreeAtRepresents(s.blobs, root);
    BackedHasValues(s, root);
    SweepSafeIffReachProtected(s.blobs, live, Some(root), t);
    if Represents(kept, Some(root), t) { TreeAtIs(kept, root, t); }
    if Stored(kept, root) && TreeAt(kept, root) == t { TreeAtRepresents(kept, root); }
  }

  lemma BackedHasValues(s: Sys, root: Hash)
    requires BaseInv(s) && BackedOk(s) && root in Tracked(s)
    ensures HasValues(s.blobs, TreeAt(s.blobs, root))
  {
    hide RootsOk, DocOk, StageOk, Valid, TreeAt, Tracked;
    BackedAt(s, root);
  }

  lemma WriterRootIsLive(s: Sys, live: set<Hash>, p: nat)
    requires BaseInv(s) && Protects(s, live) && p in s.index.localRoots
    ensures s.index.localRoots[p] in live
  {
    var h := s.index.localRoots[p];
    var t := TreeAt(s.blobs, h);
    assert SoundRoot(s.blobs, h);
    TreeAtRepresents(s.blobs, h);
    assert WriterRoot(s, p) == Success(Some(h));
    assert Reach(s.blobs, Some(h), t) <= live;
    RootIsReached(s.blobs, h, t);
  }

  lemma RootIsReached(blobs: map<Hash, Bytes>, h: Hash, t: Tree)
    requires Represents(blobs, Some(h), t)
    ensures h in Reach(blobs, Some(h), t)
  {}

  lemma OnlyPresentRootsAreStored(blobs: map<Hash, Bytes>, h: Hash)
    ensures Stored(blobs, h) ==> h in blobs
  {
    hide Decode, Encode;
    if Stored(blobs, h) {
      TreeAtRepresents(blobs, h);
    }
  }
}
