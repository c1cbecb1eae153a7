/** The registry as a state machine: submissions, the publisher's cycle cut at every durable write,
    crashes, restart, requeueing, damage to the pointer document, and garbage collection
    (`registryd/src/publisher.rs`, `api.rs`, `gc.rs`, `registry-node/src/pointer_doc.rs`).

    A step is what happens between two points at which another task or a crash can come in. */
module Registry {
  import opened Wrappers
  import opened Digests
  import opened Blobs
  import opened NodeCodec
  import opened HamtTree
  import opened HamtLaws
  import opened HamtStore
  import opened HamtWalk
  import opened Index

  type Positive = n: int | n > 0 witness 1

  /** Deployment parameters, left arbitrary. */
  const PARTITIONS: Positive
  const LEAF_MAX: nat

  /** A pointer-document entry: its content is a blob of its own, holding the root's 32 bytes. */
  datatype DocEntry = DocEntry(content: Hash, root: Hash)

  /** Where the cycle stands with the partition it is working on. */
  datatype Stage =
    | Choosing
    | Built(p: nat, root: Hash)        // new nodes written, nothing refers to them yet
    | DocWritten(p: nat, root: Hash)   // the pointer document names the new root
    | Recorded(p: nat)                 // so does the local-roots table
    | Marked(p: nat)                   // the published rows are finished, the denied ones are not

  datatype Publisher =
    | Idle
    | Busy(denied: set<string>, todo: map<nat, seq<Row>>, stage: Stage)

  datatype Sys = Sys(
    index: IndexState,
    doc: map<nat, DocEntry>,
    blobs: map<Hash, Bytes>,
    inflight: multiset<Submission>,   // value blob written, index not yet claimed
    publisher: Publisher,
    dangling: set<nat>)          // history: swept while the document was ahead of the local root

  // ----- Roots and the trees they denote

  ghost predicate Stored(blobs: map<Hash, Bytes>, root: Hash) {
    exists t :: Represents(blobs, Some(root), t)
  }

  ghost function TreeAt(blobs: map<Hash, Bytes>, root: Hash): Tree {
    if Stored(blobs, root) then
      var t :| Represents(blobs, Some(root), t);
      t
    else Absent
  }

  lemma TreeAtIs(blobs: map<Hash, Bytes>, root: Hash, t: Tree)
    requires Represents(blobs, Some(root), t)
    ensures Stored(blobs, root) && TreeAt(blobs, root) == t
  {
    RepresentsUnique(blobs, Some(root), t, TreeAt(blobs, root));
  }

  lemma TreeAtRepresents(blobs: map<Hash, Bytes>, root: Hash)
    requires Stored(blobs, root)
    ensures Represents(blobs, Some(root), TreeAt(blobs, root))
  {}

  /** Every tree stored before is stored after, and is the same tree. */
  ghost predicate KeepsTrees(before: map<Hash, Bytes>, after: map<Hash, Bytes>) {
    forall h :: Stored(before, h) ==> Stored(after, h) && TreeAt(after, h) == TreeAt(before, h)
  }

  lemma GrowthKeepsTrees(before: map<Hash, Bytes>, after: map<Hash, Bytes>)
    requires Grows(before, after)
    ensures KeepsTrees(before, after)
  {
    forall h | Stored(before, h) ensures Stored(after, h) && TreeAt(after, h) == TreeAt(before, h) {
      RepresentsGrows(before, after, Some(h), TreeAt(before, h));
      TreeAtIs(after, h, TreeAt(before, h));
    }
  }

  ghost predicate Contains(big: Tree, small: Tree) {
    forall e :: e in Entries(small) ==> e in Entries(big)
  }

  /** The entry says of its key what the record does. */
  ghost predicate Describes(e: LeafEntry, record: IndexRecord) {
    && e.hash == record.contentHash && e.size == record.size && e.addedAt == record.createdAt
    && e.contentCode == record.contentCode
  }

  /** Every entry is one the index accepted, as it accepted it. */
  ghost predicate Backed(index: IndexState, t: Tree) {
    forall e :: e in Entries(t) ==> e.key in index.records && Describes(e, index.records[e.key])
  }

  ghost predicate SoundRoot(blobs: map<Hash, Bytes>, root: Hash) {
    Stored(blobs, root) && WellFormed(TreeAt(blobs, root), 0)
  }

  // ----- The pointer document

  function EntryFor(root: Hash): DocEntry {
    DocEntry(Blake3(root.bytes), root)
  }

  predicate Readable(s: Sys, p: nat) {
    p in s.doc && s.doc[p].content in s.blobs
  }

  /** A present entry whose content cannot be read is an error, never "no root". */
  function DocRoot(s: Sys, p: nat): Result<Option<Hash>, ()> {
    if p !in s.doc then Success(None)
    else if s.doc[p].content in s.blobs then Success(Some(s.doc[p].root))
    else Failure(())
  }

  /** The root as the writer knows it: the local table first, the document only without it. */
  function WriterRoot(s: Sys, p: nat): Result<Option<Hash>, ()> {
    if p in s.index.localRoots then Success(Some(s.index.localRoots[p])) else DocRoot(s, p)
  }

  /** Storing bytes without meeting a hash collision. */
  predicate Storable(blobs: map<Hash, Bytes>, bytes: Bytes) {
    Blake3(bytes) != ZeroHash() && (Blake3(bytes) in blobs ==> blobs[Blake3(bytes)] == bytes)
  }

  function WithDoc(s: Sys, p: nat, root: Hash): Sys {
    s.(doc := s.doc[p := EntryFor(root)],
       blobs := s.blobs[Blake3(root.bytes) := root.bytes],
       dangling := s.dangling - {p})
  }

  // ----- Queue rows by partition

  function Group(rows: seq<Row>): map<nat, seq<Row>> {
    if rows == [] then map[]
    else
      var rest := Group(rows[..|rows| - 1]);
      var last := rows[|rows| - 1];
      var p := last.record.partitionId;
      rest[p := (if p in rest then rest[p] else []) + [last]]
  }

  function Select(rows: seq<Row>, denied: set<string>, wanted: bool): (r: seq<Row>)
    ensures forall row :: row in r <==> row in rows && (row.key in denied) == wanted
  {
    if rows == [] then []
    else
      var last := rows[|rows| - 1];
      Select(rows[..|rows| - 1], denied, wanted) + (if (last.key in denied) == wanted then [last] else [])
  }

  function EntriesOf(rows: seq<Row>): seq<LeafEntry> {
    seq(|rows|, i requires 0 <= i < |rows| => rows[i].record.LeafEntryFor(rows[i].key))
  }

  function ItemsOf(rows: seq<Row>): seq<Item> {
    seq(|rows|, i requires 0 <= i < |rows| => Item(rows[i].seq_, rows[i].key))
  }

  // ----- Submissions

  /** Value bytes are JSON objects, whose first byte is `{` or white space: never a node tag. */
  predicate IsValue(bytes: Bytes) {
    bytes != [] && bytes[0] != TAG_LEAF && bytes[0] != TAG_INTERMEDIATE
  }

  predicate ValueAt(blobs: map<Hash, Bytes>, h: Hash) {
    h in blobs && IsValue(blobs[h]) && Blake3(blobs[h]) == h
  }

  predicate Validated(sub: Submission) {
    sub.record.status == Pending && sub.record.partitionId == PartitionId(Sha256(sub.key), PARTITIONS)
  }

  // ----- Garbage collection

  ghost predicate Swept(before: map<Hash, Bytes>, after: map<Hash, Bytes>, live: set<Hash>) {
    && (forall h :: h in before && h in live ==> h in after && after[h] == before[h])
    && (forall h :: h in after ==> h in before && after[h] == before[h])
  }

  /** The protect set: every value the index knows, everything reachable from each writer root, and
      the document's own entry contents. */
  ghost predicate Protects(s: Sys, live: set<Hash>) {
    && ContentHashes(s.index) <= live
    && (forall p :: p in s.doc ==> s.doc[p].content in live)
    && (forall p, h, t :: WriterRoot(s, p) == Success(Some(h)) && Represents(s.blobs, Some(h), t) ==>
          Reach(s.blobs, Some(h), t) <= live)
  }

  // ----- Steps

  datatype Label =
    | Accept(sub: Submission, value: Bytes)
    | Commit(subs: seq<Submission>)
    | Drop(dropped: multiset<Submission>)
    | Begin(max: nat, deny: set<string>)
    | Build(p: nat, root: Hash, grown: map<Hash, Bytes>)
    | WriteDoc
    | WriteLocalRoot
    | Skip(p: nat)
    | MarkPublished(now: int)
    | MarkDenied(now: int)
    | End
    | Abort(grown: map<Hash, Bytes>)
    | Crash
    | Seed(p: nat)
    | Heal(p: nat)
    | RequeueKey(key: string)
    | Damage(p: nat)
    | Collect(live: set<Hash>, kept: map<Hash, Bytes>)

  ghost predicate Enabled(s: Sys, l: Label) {
    match l
    case Accept(sub, value) =>
      Validated(sub) && IsValue(value) && sub.record.contentHash == Blake3(value) && Storable(s.blobs, value)
    case Commit(subs) => multiset(subs) <= s.inflight
    case Drop(_) => true
    case Begin(max, deny) => s.publisher == Idle
    case Build(p, root, grown) =>
      && s.publisher.Busy? && s.publisher.stage == Choosing && p in s.publisher.todo
      && Select(s.publisher.todo[p], s.publisher.denied, false) != []
      && Grows(s.blobs, grown)
      && WriterRoot(s, p).Success?
      && BuildsOn(s.blobs, WriterRoot(s, p).value, Select(s.publisher.todo[p], s.publisher.denied, false), root, grown)
    case WriteDoc => s.publisher.Busy? && s.publisher.stage.Built? && Storable(s.blobs, s.publisher.stage.root.bytes)
    case WriteLocalRoot => s.publisher.Busy? && s.publisher.stage.DocWritten?
    case Skip(p) =>
      && s.publisher.Busy? && s.publisher.stage == Choosing && p in s.publisher.todo
      && Select(s.publisher.todo[p], s.publisher.denied, false) == []
    case MarkPublished(_) => s.publisher.Busy? && s.publisher.stage.Recorded? && s.publisher.stage.p in s.publisher.todo
    case MarkDenied(_) => s.publisher.Busy? && s.publisher.stage.Marked? && s.publisher.stage.p in s.publisher.todo
    case End => s.publisher.Busy? && s.publisher.stage == Choosing && s.publisher.todo == map[]
    case Abort(grown) => Grows(s.blobs, grown)
    case Crash => true
    case Seed(p) => s.publisher == Idle && p < PARTITIONS && p !in s.index.localRoots && Readable(s, p)
    case Heal(p) =>
      s.publisher == Idle && p in s.index.localRoots && Storable(s.blobs, s.index.localRoots[p].bytes)
    case RequeueKey(_) => true
    case Damage(p) => p in s.doc && NodeAt(s.blobs, s.doc[p].content) == None && !NeededValue(s, s.doc[p].content)
    case Collect(live, kept) =>
      && s.publisher == Idle && s.inflight == multiset{}
      && (forall p: nat :: p < PARTITIONS ==> WriterRoot(s, p).Success?)
      && Protects(s, live) && Swept(s.blobs, kept, live)
  }

  ghost predicate NeededValue(s: Sys, h: Hash) {
    h in ContentHashes(s.index) || exists sub :: sub in s.inflight && sub.record.contentHash == h
  }

  /** `root`, in the grown store, is the current tree with the rows' entries inserted. */
  ghost predicate BuildsOn(
    blobs: map<Hash, Bytes>, current: Option<Hash>, rows: seq<Row>, root: Hash, grown: map<Hash, Bytes>
  ) {
    exists t ::
      && Represents(blobs, current, t) && WellFormed(t, 0)
      && HamtLaws.InsertBatch(t, EntriesOf(rows), {}, LEAF_MAX).Success?
      && Represents(grown, Some(root), HamtLaws.InsertBatch(t, EntriesOf(rows), {}, LEAF_MAX).value)
  }

  ghost function After(s: Sys, l: Label): Sys
    requires Enabled(s, l)
  {
    match l
    case Accept(sub, value) => s.(blobs := s.blobs[Blake3(value) := value], inflight := s.inflight + multiset{sub})
    case Commit(subs) => s.(index := SubmitAll(s.index, subs), inflight := s.inflight - multiset(subs))
    case Drop(dropped) => s.(inflight := s.inflight - dropped)
    case Begin(max, deny) =>
      if OldestRows(s.index, max) == [] then s
      else s.(publisher := Busy(deny, Group(OldestRows(s.index, max)), Choosing))
    case Build(p, root, grown) => s.(blobs := grown, publisher := s.publisher.(stage := Built(p, root)))
    case WriteDoc =>
      var st := s.publisher.stage;
      WithDoc(s, st.p, st.root).(publisher := s.publisher.(stage := DocWritten(st.p, st.root)))
    case WriteLocalRoot =>
      var st := s.publisher.stage;
      s.(index := s.index.(localRoots := s.index.localRoots[st.p := st.root]),
         publisher := s.publisher.(stage := Recorded(st.p)))
    case Skip(p) => s.(publisher := s.publisher.(stage := Recorded(p)))
    case MarkPublished(now) =>
      var p := s.publisher.stage.p;
      var rows := s.publisher.todo[p];
      s.(index := FinishAll(s.index, ItemsOf(Select(rows, s.publisher.denied, false)), Published, now),
         publisher := s.publisher.(todo := s.publisher.todo[p := Select(rows, s.publisher.denied, true)], stage := Marked(p)))
    case MarkDenied(now) =>
      var p := s.publisher.stage.p;
      s.(index := FinishAll(s.index, ItemsOf(s.publisher.todo[p]), Denylisted, now),
         publisher := s.publisher.(todo := s.publisher.todo - {p}, stage := Choosing))
    case End => s.(publisher := Idle)
    case Abort(grown) => s.(blobs := grown, publisher := Idle)
    case Crash => s.(publisher := Idle, inflight := multiset{})
    case Seed(p) => s.(index := s.index.(localRoots := s.index.localRoots[p := s.doc[p].root]))
    case Heal(p) => WithDoc(s, p, s.index.localRoots[p])
    case RequeueKey(key) => s.(index := RequeueOne(s.index, key))
    case Damage(p) => s.(blobs := s.blobs - {s.doc[p].content})
    case Collect(live, kept) =>
      s.(blobs := kept,
         dangling := s.dangling +
           set p | p in s.doc && p in s.index.localRoots && s.doc[p].root != s.index.localRoots[p])
  }

  // ----- The invariant

  ghost predicate IndexOk(index: IndexState) {
    && Valid(index)
    && forall k :: k in index.records ==> index.records[k].partitionId == PartitionId(Sha256(k), PARTITIONS)
  }

  ghost predicate ValuesOk(s: Sys) {
    && (forall k :: k in s.index.records ==> ValueAt(s.blobs, s.index.records[k].contentHash))
    && (forall sub :: sub in s.inflight ==> Validated(sub) && ValueAt(s.blobs, sub.record.contentHash))
  }

  ghost predicate RootsOk(s: Sys) {
    forall p :: p in s.index.localRoots ==> p < PARTITIONS && SoundRoot(s.blobs, s.index.localRoots[p])
  }

  /** Unless a sweep came between a document write and its local-root write, the document's tree is
      whole and holds everything the local root's tree holds. */
  ghost predicate DocOk(s: Sys) {
    && s.dangling <= s.index.localRoots.Keys
    && (forall p :: p in s.doc ==> p < PARTITIONS)
    && (forall p :: p in s.doc && p !in s.dangling ==> SoundRoot(s.blobs, s.doc[p].root))
    && (forall p :: p in s.doc && p !in s.dangling && p in s.index.localRoots ==>
          Contains(TreeAt(s.blobs, s.doc[p].root), TreeAt(s.blobs, s.index.localRoots[p])))
  }

  ghost predicate RowOk(index: IndexState, p: nat, row: Row) {
    && row.seq_ in index.queue && index.queue[row.seq_] == row.key
    && row.key in index.records
    && row.record.SameContent(index.records[row.key])
    && index.records[row.key].partitionId == p
  }

  ghost predicate TodoOk(index: IndexState, todo: map<nat, seq<Row>>) {
    forall p, row :: p in todo && row in todo[p] ==> RowOk(index, p, row)
  }

  ghost predicate HoldsKeys(t: Tree, rows: seq<Row>, denied: set<string>) {
    forall row :: row in rows && row.key !in denied ==> HasKey(t, row.key)
  }

  /** The root being published extends what the writer had and holds every row it is published for. */
  ghost predicate Fresh(s: Sys, p: nat, root: Hash) {
    && s.publisher.Busy? && p in s.publisher.todo && p < PARTITIONS
    && SoundRoot(s.blobs, root)
    && HoldsKeys(TreeAt(s.blobs, root), s.publisher.todo[p], s.publisher.denied)
    && (p in s.index.localRoots ==> Contains(TreeAt(s.blobs, root), TreeAt(s.blobs, s.index.localRoots[p])))
    && (p !in s.index.localRoots && p in s.doc ==> Contains(TreeAt(s.blobs, root), TreeAt(s.blobs, s.doc[p].root)))
  }

  ghost predicate StageOk(s: Sys) {
    s.publisher.Busy? ==>
      match s.publisher.stage
      case Choosing => true
      case Built(p, root) => Fresh(s, p, root)
      case DocWritten(p, root) => Fresh(s, p, root) && p in s.doc && s.doc[p].root == root && p !in s.dangling
      case Recorded(p) =>
        && p in s.publisher.todo
        && (Select(s.publisher.todo[p], s.publisher.denied, false) != [] ==>
              && p in s.index.localRoots
              && HoldsKeys(TreeAt(s.blobs, s.index.localRoots[p]), s.publisher.todo[p], s.publisher.denied))
      case Marked(p) => p in s.publisher.todo
  }

  /** The writer's root for the key's partition denotes a tree that holds the key. */
  ghost predicate Covered(s: Sys, key: string)
    requires key in s.index.records
  {
    var p := s.index.records[key].partitionId;
    if p in s.index.localRoots then HasKey(TreeAt(s.blobs, s.index.localRoots[p]), key)
    else p in s.doc && HasKey(TreeAt(s.blobs, s.doc[p].root), key)
  }

  ghost predicate CoverageOk(s: Sys) {
    forall k :: k in s.index.records && s.index.records[k].status == Published ==> Covered(s, k)
  }

  /** No published record is lost: it is in its tree, or queued to be put there again. */
  ghost predicate Mended(s: Sys) {
    forall k :: k in s.index.records && s.index.records[k].status == Published ==> Covered(s, k) || Queues(s.index, k)
  }

  /** Everything but coverage and backing: what holds also after a root was set back by hand, to
      whatever tree. */
  ghost predicate BaseInv(s: Sys) {
    && IndexOk(s.index) && ValuesOk(s) && RootsOk(s) && DocOk(s) && StageOk(s)
    && (s.publisher.Busy? ==> TodoOk(s.index, s.publisher.todo))
  }

  /** The roots the registry names: the local ones, the document's - but for those a sweep may have
      broken - and the one being published. */
  ghost function Tracked(s: Sys): set<Hash> {
    (set p | p in s.index.localRoots :: s.index.localRoots[p])
    + (set p | p in s.doc && p !in s.dangling :: s.doc[p].root)
    + (if s.publisher.Busy? && (s.publisher.stage.Built? || s.publisher.stage.DocWritten?) then {s.publisher.stage.root} else {})
  }

  /** No tree holds an entry the index did not accept. Trees restored from elsewhere may hold others,
      and then only this conjunct is missing. */
  ghost predicate BackedOk(s: Sys) {
    forall h :: h in Tracked(s) ==> Backed(s.index, TreeAt(s.blobs, h))
  }

  ghost predicate Inv(s: Sys) {
    BaseInv(s) && CoverageOk(s) && BackedOk(s)
  }
}
