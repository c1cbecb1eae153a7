/** Building and querying the blob-backed similarity index, and that it answers as the in-memory one
    does (`registry-core/src/iscc_store.rs`). */
module IsccIndexStore {
  import opened Wrappers
  import opened Digests
  import opened Blobs
  import opened Bits
  import opened Similarity
  import opened Matching
  import opened IsccStore

  // ----- What a batch does to the postings

  ghost predicate HasBucket(bands: Bands, code: nat, key: string) {
    exists id :: id in Buckets(bands, code) && StorageKey(id) == key
  }

  ghost function Touched(bands: Bands, members: seq<IsccMember>): set<string> {
    set m, id | m in members && id in Buckets(bands, m.code) :: StorageKey(id)
  }

  /** The members of a batch that go to one bucket, in order. */
  ghost function Bucketed(bands: Bands, members: seq<IsccMember>, key: string): seq<IsccMember> {
    if members == [] then []
    else
      var last := members[|members| - 1];
      Bucketed(bands, members[..|members| - 1], key) + (if HasBucket(bands, last.code, key) then [last] else [])
  }

  ghost function SegmentsOf(p: Postings, key: string): Segments {
    if key in p then p[key] else []
  }

  ghost function AddBatch(p: Postings, bands: Bands, members: seq<IsccMember>): Postings {
    map k | k in p.Keys + Touched(bands, members) ::
      if k in Touched(bands, members) then AddTo(SegmentsOf(p, k), Bucketed(bands, members, k)) else SegmentsOf(p, k)
  }

  lemma {:induction false} BucketedMembers(bands: Bands, members: seq<IsccMember>, key: string)
    ensures forall m :: m in Bucketed(bands, members, key) <==> m in members && HasBucket(bands, m.code, key)
  {
    hide HasBucket;
    if members != [] {
      BucketedMembers(bands, members[..|members| - 1], key);
      assert members == members[..|members| - 1] + [members[|members| - 1]];
    }
  }

  lemma TouchedIff(bands: Bands, members: seq<IsccMember>, key: string)
    ensures key in Touched(bands, members) <==> Bucketed(bands, members, key) != []
    ensures key in Touched(bands, members) <==> exists m :: m in members && HasBucket(bands, m.code, key)
  {
    hide StorageKey, Buckets;
    var there := Bucketed(bands, members, key);
    BucketedMembers(bands, members, key);
    if there != [] {
      var m := there[0];
      assert m in there;
      var id :| id in Buckets(bands, m.code) && StorageKey(id) == key;
    }
    if key in Touched(bands, members) {
      var m, id :| m in members && id in Buckets(bands, m.code) && StorageKey(id) == key;
      assert HasBucket(bands, m.code, key);
      assert m in there;
    }
    assert (exists m :: m in members && HasBucket(bands, m.code, key)) ==> exists m :: m in there;
  }

  // ----- Which members the postings hold

  /** Each bucket holds exactly the members whose code has it. */
  ghost predicate Indexes(p: Postings, bands: Bands, members: set<IsccMember>) {
    forall k, m :: (k in p && m in Members(p[k])) <==> (m in members && HasBucket(bands, m.code, k))
  }

  lemma NothingIndexed(bands: Bands)
    ensures Indexes(map[], bands, {})
  {}

  /** A batch adds its members to the index and takes nothing away, across segment ends, stored
      duplicates and migration from the old format. */
  lemma BatchIndexes(p: Postings, bands: Bands, members: seq<IsccMember>, held: set<IsccMember>)
    requires Indexes(p, bands, held)
    ensures Indexes(AddBatch(p, bands, members), bands, held + SetOf(members))
  {
    hide HasBucket, Touched, AddTo, Members, Bucketed;
    var q := AddBatch(p, bands, members);
    forall k, m ensures (k in q && m in Members(q[k])) <==> (m in held + SetOf(members) && HasBucket(bands, m.code, k)) {
      AddedMembers(SegmentsOf(p, k), Bucketed(bands, members, k));
      BucketedMembers(bands, members, k);
      TouchedIff(bands, members, k);
      NoSegments();
    }
  }

  lemma NoSegments()
    ensures Members([]) == {}
  {}

  /** The postings after a run of batches on an index, new or found in either format. */
  ghost function AllBatches(start: Postings, bands: Bands, batches: seq<seq<IsccMember>>): Postings {
    if batches == [] then start
    else AddBatch(AllBatches(start, bands, batches[..|batches| - 1]), bands, batches[|batches| - 1])
  }

  ghost function AllMembers(batches: seq<seq<IsccMember>>): set<IsccMember> {
    set b, m | b in batches && m in b :: m
  }

  /** Any number of batches. */
  lemma {:induction false} BatchesIndex(start: Postings, bands: Bands, held: set<IsccMember>, batches: seq<seq<IsccMember>>)
    requires Indexes(start, bands, held)
    ensures Indexes(AllBatches(start, bands, batches), bands, held + AllMembers(batches))
  {
    hide Indexes;
    if batches == [] {
      assert held + AllMembers(batches) == held;
    } else {
      var before, last := batches[..|batches| - 1], batches[|batches| - 1];
      BatchesIndex(start, bands, held, before);
      BatchIndexes(AllBatches(start, bands, before), bands, last, held + AllMembers(before));
      assert batches == before + [last];
      assert held + AllMembers(batches) == held + AllMembers(before) + SetOf(last);
    }
  }

  /** In particular a new index holds exactly the members of its batches. */
  lemma NewIndexHolds(bands: Bands, batches: seq<seq<IsccMember>>)
    ensures Indexes(AllBatches(map[], bands, batches), bands, AllMembers(batches))
  {
    hide Indexes;
    NothingIndexed(bands);
    BatchesIndex(map[], bands, {}, batches);
    assert {} + AllMembers(batches) == AllMembers(batches);
  }

  // ----- Segment discipline over a run

  ghost predicate AllDisciplined(p: Postings) {
    forall k :: k in p ==> Disciplined(p[k])
  }

  /** `later` still starts, in every bucket, with all that was closed in `p`. */
  ghost predicate KeepsFrozen(p: Postings, later: Postings) {
    forall k :: k in p ==> k in later && Frozen(p[k]) <= later[k]
  }

  /** An index in the old format is disciplined: a bucket is a single list. */
  lemma OldFormatIsDisciplined(blobs: map<Hash, Bytes>, root: Hash, p: Postings)
    requires IndexAt(blobs, Some(root), p) && !IsV2(blobs, root)
    ensures AllDisciplined(p)
  {
    hide BlobAt;
    forall k | k in p ensures Disciplined(p[k]) { assert |p[k]| == 1; }
  }

  /** Over any run of batches all segments but a bucket's last stay full, and what was closed when the
      run began is still in front, unchanged. */
  lemma {:induction false} BatchesKeepDiscipline(start: Postings, bands: Bands, batches: seq<seq<IsccMember>>)
    requires AllDisciplined(start)
    ensures AllDisciplined(AllBatches(start, bands, batches)) && KeepsFrozen(start, AllBatches(start, bands, batches))
  {
    hide Touched, Bucketed, Disciplined, AddTo, Frozen;
    if batches == [] {
      forall k | k in start ensures Frozen(start[k]) <= start[k] { FrozenIsPrefix(start[k]); }
    } else {
      var before, last := batches[..|batches| - 1], batches[|batches| - 1];
      var p := AllBatches(start, bands, before);
      var q := AddBatch(p, bands, last);
      BatchesKeepDiscipline(start, bands, before);
      NoneIsDisciplined();
      forall k | k in q
        ensures Disciplined(q[k])
        ensures k in start ==> Frozen(start[k]) <= q[k]
      {
        AddingKeepsDiscipline(SegmentsOf(p, k), Bucketed(bands, last, k));
        if k in start {
          FrozenStays(start[k], p[k], Bucketed(bands, last, k));
        }
      }
    }
  }

  lemma NoneIsDisciplined()
    ensures Disciplined([])
  {}

  lemma FrozenIsPrefix(segs: Segments)
    ensures Frozen(segs) <= segs
  {}

  lemma FrozenStays(first: Segments, segs: Segments, added: seq<IsccMember>)
    requires Frozen(first) <= segs && Disciplined(first) && Disciplined(segs)
    ensures Frozen(first) <= AddTo(segs, added)
  {
    hide Chunks, AppendNew;
    AddingKeepsDiscipline(segs, added);
    if |Frozen(first)| == |segs| && segs != [] {
      var n := |segs| - 1;
      assert segs[n] == Frozen(first)[n] == first[n];
      assert |first[n]| >= SEGMENT_MAX;
    }
  }

  // ----- What a query sees

  ghost function Posted(p: Postings, bands: Bands, query: nat, probe: nat): set<IsccMember> {
    set k, m | k in p && m in Members(p[k]) && ProbedKey(bands, query, probe, k) :: m
  }

  ghost predicate ProbedKey(bands: Bands, query: nat, probe: nat, key: string) {
    exists id :: Probed(bands, query, probe, id) && StorageKey(id) == key
  }

  lemma BucketIds(bands: Bands, code: nat, id: BucketId)
    requires id in Buckets(bands, code)
    ensures id.band < 64 && id.value < Pow2(64)
  {
    BandValueBound(bands, code, id.band);
    Pow2Monotone(Width(bands), 64);
  }

  lemma ProbedIds(bands: Bands, query: nat, probe: nat, id: BucketId)
    requires Probed(bands, query, probe, id)
    ensures id.band < 64 && id.value < Pow2(64)
  {
    Pow2Monotone(Width(bands), 64);
  }

  /** The buckets' keys tell them apart, so the stored index shows a query what the members' codes do. */
  lemma PostedIsReachable(p: Postings, bands: Bands, members: set<IsccMember>, query: nat, probe: nat)
    requires Indexes(p, bands, members)
    ensures Posted(p, bands, query, probe) == Reachable(bands, members, query, probe)
  {
    hide StorageKey, Buckets, Probed, Members;
    forall m | m in Posted(p, bands, query, probe) ensures m in Reachable(bands, members, query, probe) {
      var k :| k in p && m in Members(p[k]) && ProbedKey(bands, query, probe, k);
      var id :| Probed(bands, query, probe, id) && StorageKey(id) == k;
      assert HasBucket(bands, m.code, k);
      var own :| own in Buckets(bands, m.code) && StorageKey(own) == k;
      ProbedIds(bands, query, probe, id);
      BucketIds(bands, m.code, own);
      StorageKeyInjective(id, own);
      assert Meets(bands, m, query, probe);
    }
    forall m | m in Reachable(bands, members, query, probe) ensures m in Posted(p, bands, query, probe) {
      var id :| Probed(bands, query, probe, id) && id in Buckets(bands, m.code);
      var k := StorageKey(id);
      assert HasBucket(bands, m.code, k) && ProbedKey(bands, query, probe, k);
      assert k in p && m in Members(p[k]);
    }
  }

  /** The stored index and the in-memory one give the same sequence of matches for the same members. */
  lemma StoreAnswersLikeMemory(
    p: Postings, bands: Bands, members: set<IsccMember>, query: u64, radius: nat, probe: nat, stored: seq<Match>, memory: seq<Match>
  )
    requires Indexes(p, bands, members) && KeysDetermineCodes(members)
    requires IsAnswer(query, Posted(p, bands, query, probe), radius, stored)
    requires IsAnswer(query, Reachable(bands, members, query, probe), radius, memory)
    ensures stored == memory
  {
    PostedIsReachable(p, bands, members, query, probe);
    AnswerIsUnique(query, Reachable(bands, members, query, probe), radius, stored, memory);
  }

  // ----- Loading

  datatype BucketRef = ManifestRef(hash: Hash) | LegacyList(hash: Hash)

  ghost predicate RefAt(blobs: map<Hash, Bytes>, ref: BucketRef, segs: Segments) {
    match ref
    case ManifestRef(h) => ManifestAt(blobs, h, segs)
    case LegacyList(h) => SegmentsAt(blobs, [h], segs)
  }

  ghost predicate RefsAt(blobs: map<Hash, Bytes>, refs: map<string, BucketRef>, p: Postings) {
    refs.Keys == p.Keys && forall k :: k in p ==> RefAt(blobs, refs[k], p[k])
  }

  lemma RefGrows(before: map<Hash, Bytes>, after: map<Hash, Bytes>, ref: BucketRef, segs: Segments)
    requires Grows(before, after) && RefAt(before, ref, segs)
    ensures RefAt(after, ref, segs)
  {
    match ref
    case ManifestRef(h) => ManifestGrows(before, after, h, segs);
    case LegacyList(h) => SegmentsGrow(before, after, [h], segs);
  }

  function DirectoryRefs(blob: IsccBlob): map<string, BucketRef> {
    match blob
    case DirectoryV2(manifests) => map k | k in manifests :: ManifestRef(manifests[k])
    case DirectoryV1(lists) => map k | k in lists :: LegacyList(lists[k])
    case _ => map[]
  }

  /** Any store contents give an answer or an error; an intact index gives its buckets, or the store's
      own failure. */
  method LoadDirectory(store: BlobStore, root: Option<Hash>, ghost p: Postings) returns (r: Result<map<string, BucketRef>, IsccError>)
    ensures IndexAt(store.blobs, root, p) ==>
              if r.Success? then RefsAt(store.blobs, r.value, p)
              else r.error.StoreError? && !store.reliable
    ensures root.Some? && BlobAt(store.blobs, root.value).Some? && r.Success? ==>
              r.value == DirectoryRefs(BlobAt(store.blobs, root.value).value)
    ensures root.Some? && r.Success? ==>
              ReadBlob(store.blobs, root.value).Some? && r.value == DirectoryRefs(ReadBlob(store.blobs, root.value).value)
  {
    hide BlobAt, ManifestAt, SegmentsAt;
    if root.None? {
      return Success(map[]);
    }
    var blob := GetBlob(store, root.value);
    match blob
    case Failure(err) => return Failure(err);
    case Success(DirectoryV2(manifests)) => return Success(map k | k in manifests :: ManifestRef(manifests[k]));
    case Success(DirectoryV1(lists)) => return Success(map k | k in lists :: LegacyList(lists[k]));
    case Success(_) => return Failure(Corrupt(root.value));
  }

  method LoadSegment(store: BlobStore, h: Hash, ghost members: seq<IsccMember>) returns (r: Result<seq<IsccMember>, IsccError>)
    ensures BlobAt(store.blobs, h) == Some(Segment(members)) ==>
              if r.Success? then r.value == members
              else r.error.StoreError? && !store.reliable
  {
    hide BlobAt;
    var blob := GetBlob(store, h);
    match blob
    case Failure(err) => return Failure(err);
    case Success(Segment(found)) => return Success(found);
    case Success(_) => return Failure(Corrupt(h));
  }

  /** An old list acts as one frozen segment, whatever its length. */
  method LoadManifest(store: BlobStore, ref: BucketRef, ghost segs: Segments)
    returns (r: Result<(nat, seq<Hash>), IsccError>)
    ensures RefAt(store.blobs, ref, segs) ==>
              if r.Success? then r.value.0 == Count(segs) && SegmentsAt(store.blobs, r.value.1, segs)
              else r.error.StoreError? && !store.reliable
  {
    hide BlobAt;
    match ref
    case ManifestRef(h) =>
      var blob := GetBlob(store, h);
      match blob {
        case Failure(err) => return Failure(err);
        case Success(Manifest(count, segments)) => return Success((count, segments));
        case Success(_) => return Failure(Corrupt(h));
      }
    case LegacyList(h) =>
      var list := LoadSegment(store, h, if segs == [] then [] else segs[0]);
      if list.Failure? {
        return Failure(list.error);
      }
      assert RefAt(store.blobs, ref, segs) ==> |segs| == 1 && segs[..0] == [] && [h][0] == h;
      return Success((|list.value|, [h]));
  }

  // ----- Inserting a batch

  method Group(bands: Bands, members: seq<IsccMember>) returns (groups: map<string, seq<IsccMember>>)
    ensures groups.Keys == Touched(bands, members)
    ensures forall k :: k in groups ==> groups[k] == Bucketed(bands, members, k)
  {
    hide Buckets, StorageKey, HasBucket, Touched;
    groups := map[];
    for i := 0 to |members|
      invariant forall k :: k in groups <==> Bucketed(bands, members[..i], k) != []
      invariant forall k :: k in groups ==> groups[k] == Bucketed(bands, members[..i], k)
    {
      assert members[..i + 1][..i] == members[..i];
      groups := AddMember(bands, members[i], groups);
    }
    assert members[..|members|] == members;
    forall k ensures k in groups <==> k in Touched(bands, members) { TouchedIff(bands, members, k); }
  }

  method AddMember(bands: Bands, m: IsccMember, groups: map<string, seq<IsccMember>>) returns (r: map<string, seq<IsccMember>>)
    ensures forall k :: k in r <==> k in groups || HasBucket(bands, m.code, k)
    ensures forall k :: k in r ==>
              r[k] == (if k in groups then groups[k] else []) + (if HasBucket(bands, m.code, k) then [m] else [])
  {
    hide StorageKey, Buckets;
    r := groups;
    var ids := Buckets(bands, m.code);
    for i := 0 to |ids|
      invariant forall k :: k in r <==> k in groups || KeyAmong(ids[..i], k)
      invariant forall k :: k in r ==> r[k] == (if k in groups then groups[k] else []) + (if KeyAmong(ids[..i], k) then [m] else [])
    {
      var key := StorageKey(ids[i]);
      FreshKey(bands, m.code, i);
      OneMoreKey(ids, i);
      assert (if key in groups then groups[key] else []) + [] == if key in groups then groups[key] else [];
      r := r[key := (if key in r then r[key] else []) + [m]];
    }
    assert ids[..|ids|] == ids;
  }

  ghost predicate KeyAmong(ids: seq<BucketId>, key: string) {
    exists id :: id in ids && StorageKey(id) == key
  }

  lemma OneMoreKey(ids: seq<BucketId>, i: nat)
    requires i < |ids|
    ensures forall k :: KeyAmong(ids[..i + 1], k) <==> KeyAmong(ids[..i], k) || k == StorageKey(ids[i])
  {
    hide StorageKey;
    assert ids[..i + 1] == ids[..i] + [ids[i]];
    forall k ensures KeyAmong(ids[..i + 1], k) <==> KeyAmong(ids[..i], k) || k == StorageKey(ids[i]) {
      if k == StorageKey(ids[i]) { assert ids[i] in ids[..i + 1]; }
    }
  }

  lemma FreshKey(bands: Bands, code: nat, i: nat)
    requires i < |Buckets(bands, code)|
    ensures !KeyAmong(Buckets(bands, code)[..i], StorageKey(Buckets(bands, code)[i]))
  {
    hide StorageKey;
    var ids := Buckets(bands, code);
    if id :| id in ids[..i] && StorageKey(id) == StorageKey(ids[i]) {
      BucketIds(bands, code, id);
      BucketIds(bands, code, ids[i]);
      StorageKeyInjective(id, ids[i]);
      assert false;
    }
  }

  // ----- Rewriting one bucket

  method AppendMembers(tail: seq<IsccMember>, added: seq<IsccMember>) returns (r: seq<IsccMember>)
    ensures r == AppendNew(tail, added)
  {
    r := tail;
    for i := 0 to |added|
      invariant r == AppendNew(tail, added[..i])
    {
      assert added[..i + 1][..i] == added[..i];
      if added[i] !in r {
        r := r + [added[i]];
      }
    }
    assert added[..|added|] == added;
  }

  /** Takes the tail off when it is open. A count smaller than its tail, which only a damaged manifest
      has, stops the batch. */
  method OpenBucket(store: BlobStore, ref: Option<BucketRef>, ghost segs: Segments)
    returns (r: Result<(nat, seq<Hash>, seq<IsccMember>), IsccError>)
    ensures (if ref.Some? then RefAt(store.blobs, ref.value, segs) else segs == []) ==>
              if r.Success?
              then r.value.0 == Count(Frozen(segs)) && SegmentsAt(store.blobs, r.value.1, Frozen(segs)) && r.value.2 == Tail(segs)
              else r.error.StoreError? && (store.reliable ==> store.clashed)
  {
    hide BlobAt, ManifestAt;
    if ref.None? {
      return Success((0, [], []));
    }
    var manifest := LoadManifest(store, ref.value, segs);
    if manifest.Failure? {
      return Failure(manifest.error);
    }
    var (count, segments) := manifest.value;
    if segments == [] {
      return Success((count, segments, []));
    }
    var n := |segments| - 1;
    var last := LoadSegment(store, segments[n], if |segs| == n + 1 then segs[n] else []);
    if last.Failure? {
      return Failure(last.error);
    }
    if |last.value| >= SEGMENT_MAX {
      return Success((count, segments, []));
    }
    if count < |last.value| {
      return Failure(Corrupt(segments[n]));
    }
    return Success((count - |last.value|, segments[..n], last.value));
  }

  lemma OneMoreSegment(blobs: map<Hash, Bytes>, segments: seq<Hash>, segs: Segments, h: Hash, seg: seq<IsccMember>)
    requires SegmentsAt(blobs, segments, segs) && BlobAt(blobs, h) == Some(Segment(seg))
    ensures SegmentsAt(blobs, segments + [h], segs + [seg])
    ensures Count(segs + [seg]) == Count(segs) + |seg|
  {
    hide BlobAt;
    assert (segs + [seg])[..|segs|] == segs;
  }

  lemma ChunkStep(tail: seq<IsccMember>, start: nat, end: nat)
    requires start < |tail| && end == Least(start + SEGMENT_MAX, |tail|)
    ensures Chunks(tail[start..]) == [tail[start..end]] + Chunks(tail[end..])
  {
    var rest := tail[start..];
    if |rest| > SEGMENT_MAX {
      assert rest[..SEGMENT_MAX] == tail[start..end] && rest[SEGMENT_MAX..] == tail[end..];
    } else {
      assert rest == tail[start..end] && tail[end..] == [];
    }
  }

  /** Writes the members out in full segments and at most one open one. */
  method PutChunks(store: BlobStore, tail: seq<IsccMember>, count: nat, segments: seq<Hash>, ghost segs: Segments)
    returns (r: Result<(nat, seq<Hash>), IsccError>)
    requires BlobSerializer()
    modifies store`blobs, store`clashed
    ensures Grows(old(store.blobs), store.blobs)
    ensures r.Failure? ==> r.error.StoreError? && (store.reliable ==> store.clashed)
    ensures old(SegmentsAt(store.blobs, segments, segs)) && r.Success? && count == Count(segs) ==>
              r.value.0 == Count(segs + Chunks(tail)) && SegmentsAt(store.blobs, r.value.1, segs + Chunks(tail))
  {
    hide BlobAt, SegmentsAt, BlobSerializer, Chunks, Count;
    var total: nat, hashes, start := count, segments, 0;
    ghost var done, intact := segs, SegmentsAt(store.blobs, segments, segs) && count == Count(segs);
    assert tail[0..] == tail;
    while start < |tail|
      invariant 0 <= start <= |tail|
      invariant Grows(old(store.blobs), store.blobs)
      invariant done + Chunks(tail[start..]) == segs + Chunks(tail)
      invariant intact ==> total == Count(done) && SegmentsAt(store.blobs, hashes, done)
    {
      var end := Least(start + SEGMENT_MAX, |tail|);
      var seg := tail[start..end];
      ghost var before := store.blobs;
      var put := PutBlob(store, Segment(seg));
      if put.Failure? {
        return Failure(put.error);
      }
      ChunkStep(tail, start, end);
      if intact {
        SegmentsGrow(before, store.blobs, hashes, done);
        OneMoreSegment(store.blobs, hashes, done, put.value, seg);
      }
      assert done + ([seg] + Chunks(tail[end..])) == (done + [seg]) + Chunks(tail[end..]);
      total, hashes, start, done := total + |seg|, hashes + [put.value], end, done + [seg];
    }
    NoChunks(tail[start..]);
    assert done + [] == done;
    return Success((total, hashes));
  }

  lemma NoChunks(tail: seq<IsccMember>)
    requires tail == []
    ensures Chunks(tail) == []
  {}

  method RewriteBucket(store: BlobStore, ref: Option<BucketRef>, added: seq<IsccMember>, ghost segs: Segments)
    returns (r: Result<Hash, IsccError>)
    requires BlobSerializer()
    modifies store`blobs, store`clashed
    ensures Grows(old(store.blobs), store.blobs)
    ensures old(if ref.Some? then RefAt(store.blobs, ref.value, segs) else segs == []) ==>
              if r.Success? then ManifestAt(store.blobs, r.value, AddTo(segs, added))
              else r.error.StoreError? && (store.reliable ==> store.clashed)
  {
    hide BlobAt, SegmentsAt, BlobSerializer, Count, Chunks, RefAt, AppendNew;
    var bucket := OpenBucket(store, ref, segs);
    if bucket.Failure? {
      return Failure(bucket.error);
    }
    var (count, segments, tail) := bucket.value;
    var members := AppendMembers(tail, added);
    var written := PutChunks(store, members, count, segments, Frozen(segs));
    if written.Failure? {
      return Failure(written.error);
    }
    ghost var before := store.blobs;
    var put := PutBlob(store, Manifest(written.value.0, written.value.1));
    if put.Failure? {
      return Failure(put.error);
    }
    if SegmentsAt(before, written.value.1, AddTo(segs, added)) {
      SegmentsGrow(before, store.blobs, written.value.1, AddTo(segs, added));
    }
    return Success(put.value);
  }

  // ----- The whole batch

  ghost predicate ManifestsAt(blobs: map<Hash, Bytes>, manifests: map<string, Hash>, p: Postings) {
    forall k :: k in manifests ==> k in p && ManifestAt(blobs, manifests[k], p[k])
  }

  lemma ManifestsGrow(before: map<Hash, Bytes>, after: map<Hash, Bytes>, manifests: map<string, Hash>, p: Postings)
    requires Grows(before, after) && ManifestsAt(before, manifests, p)
    ensures ManifestsAt(after, manifests, p)
  {
    hide ManifestAt, Grows;
    forall k | k in manifests ensures ManifestAt(after, manifests[k], p[k]) {
      ManifestGrows(before, after, manifests[k], p[k]);
    }
  }

  lemma RefsGrow(before: map<Hash, Bytes>, after: map<Hash, Bytes>, refs: map<string, BucketRef>, p: Postings)
    requires Grows(before, after) && RefsAt(before, refs, p)
    ensures RefsAt(after, refs, p)
  {
    hide RefAt, Grows;
    forall k | k in p ensures RefAt(after, refs[k], p[k]) {
      RefGrows(before, after, refs[k], p[k]);
    }
  }

  /** A bucket the batch does not touch keeps its manifest; an old list gets one. */
  method CarryOne(store: BlobStore, ref: BucketRef, ghost segs: Segments) returns (r: Result<Hash, IsccError>)
    requires BlobSerializer()
    modifies store`blobs, store`clashed
    ensures Grows(old(store.blobs), store.blobs)
    ensures old(RefAt(store.blobs, ref, segs)) ==>
              if r.Success? then ManifestAt(store.blobs, r.value, segs)
              else r.error.StoreError? && (store.reliable ==> store.clashed)
    ensures ref.ManifestRef? ==> r == Success(ref.hash) && store.blobs == old(store.blobs)
  {
    hide BlobAt, SegmentsAt, BlobSerializer;
    if ref.ManifestRef? {
      return Success(ref.hash);
    }
    var manifest := LoadManifest(store, ref, segs);
    if manifest.Failure? {
      return Failure(manifest.error);
    }
    ghost var before := store.blobs;
    var put := PutBlob(store, Manifest(manifest.value.0, manifest.value.1));
    if put.Failure? {
      return Failure(put.error);
    }
    if SegmentsAt(before, manifest.value.1, segs) {
      SegmentsGrow(before, store.blobs, manifest.value.1, segs);
    }
    return Success(put.value);
  }

  method CarryOver(store: BlobStore, refs: map<string, BucketRef>, touched: set<string>, ghost p: Postings)
    returns (r: Result<map<string, Hash>, IsccError>)
    requires BlobSerializer()
    modifies store`blobs, store`clashed
    ensures Grows(old(store.blobs), store.blobs)
    ensures r.Success? ==> r.value.Keys == refs.Keys - touched
    ensures old(RefsAt(store.blobs, refs, p)) ==>
              if r.Success? then ManifestsAt(store.blobs, r.value, p)
              else r.error.StoreError? && (store.reliable ==> store.clashed)
  {
    hide RefAt, ManifestAt, BlobSerializer;
    ghost var intact := RefsAt(store.blobs, refs, p);
    var manifests: map<string, Hash> := map[];
    var left := refs.Keys - touched;
    while left != {}
      invariant Grows(old(store.blobs), store.blobs)
      invariant left <= refs.Keys - touched && manifests.Keys == refs.Keys - touched - left
      invariant intact ==> RefsAt(store.blobs, refs, p) && ManifestsAt(store.blobs, manifests, p)
    {
      var k :| k in left;
      ghost var before := store.blobs;
      var put := CarryOne(store, refs[k], SegmentsOf(p, k));
      if put.Failure? {
        return Failure(put.error);
      }
      if intact {
        ManifestsGrow(before, store.blobs, manifests, p);
        RefsGrow(before, store.blobs, refs, p);
      }
      manifests, left := manifests[k := put.value], left - {k};
    }
    return Success(manifests);
  }

  method RewriteTouched(
    store: BlobStore, refs: map<string, BucketRef>, groups: map<string, seq<IsccMember>>, carried: map<string, Hash>,
    ghost p: Postings, ghost q: Postings
  ) returns (r: Result<map<string, Hash>, IsccError>)
    requires BlobSerializer()
    modifies store`blobs, store`clashed
    ensures Grows(old(store.blobs), store.blobs)
    ensures r.Success? ==> r.value.Keys == carried.Keys + groups.Keys
    ensures old(RefsAt(store.blobs, refs, p) && ManifestsAt(store.blobs, carried, q)) && Rewrites(groups, p, q) ==>
              if r.Success? then ManifestsAt(store.blobs, r.value, q) else r.error.StoreError? && (store.reliable ==> store.clashed)
  {
    hide RefAt, ManifestAt, BlobSerializer, AddTo;
    ghost var intact := RefsAt(store.blobs, refs, p) && ManifestsAt(store.blobs, carried, q) && Rewrites(groups, p, q);
    var manifests, left := carried, groups.Keys;
    while left != {}
      invariant Grows(old(store.blobs), store.blobs)
      invariant left <= groups.Keys && manifests.Keys == carried.Keys + (groups.Keys - left)
      invariant intact ==> RefsAt(store.blobs, refs, p) && ManifestsAt(store.blobs, manifests, q)
    {
      var k :| k in left;
      ghost var before := store.blobs;
      var put := RewriteBucket(store, if k in refs then Some(refs[k]) else None, groups[k], SegmentsOf(p, k));
      if put.Failure? {
        return Failure(put.error);
      }
      if intact {
        ManifestsGrow(before, store.blobs, manifests, q);
        RefsGrow(before, store.blobs, refs, p);
      }
      manifests, left := manifests[k := put.value], left - {k};
    }
    return Success(manifests);
  }

  /** In `q` each grouped bucket has its members added to what `p` has there. */
  ghost predicate Rewrites(groups: map<string, seq<IsccMember>>, p: Postings, q: Postings) {
    forall k :: k in groups ==> k in q && q[k] == AddTo(SegmentsOf(p, k), groups[k])
  }

  /** Applies a batch: the new root holds the index with the batch in it, in the current format,
      whichever format the old root had; the old root still holds what it held. */
  method InsertBatch(store: BlobStore, root: Option<Hash>, bands: Bands, members: seq<IsccMember>, ghost p: Postings)
    returns (r: Result<Hash, IsccError>)
    requires BlobSerializer()
    modifies store`blobs, store`clashed
    ensures Grows(old(store.blobs), store.blobs)
    ensures old(IndexAt(store.blobs, root, p)) ==>
              if r.Success? then IndexAt(store.blobs, Some(r.value), AddBatch(p, bands, members)) && IsV2(store.blobs, r.value)
              else r.error.StoreError? && (store.reliable ==> store.clashed)
  {
    hide BlobAt, RefAt, ManifestAt, AddTo, Touched, Bucketed, BlobSerializer, IndexAt;
    ghost var intact, q := IndexAt(store.blobs, root, p), AddBatch(p, bands, members);
    var refs := LoadDirectory(store, root, p);
    if refs.Failure? {
      return Failure(refs.error);
    }
    var groups := Group(bands, members);
    ghost var before := store.blobs;
    var carried := CarryOver(store, refs.value, groups.Keys, p);
    if carried.Failure? {
      return Failure(carried.error);
    }
    if intact {
      RefsGrow(before, store.blobs, refs.value, p);
      assert ManifestsAt(store.blobs, carried.value, q);
    }
    var manifests := RewriteTouched(store, refs.value, groups, carried.value, p, q);
    if manifests.Failure? {
      return Failure(manifests.error);
    }
    before := store.blobs;
    var put := PutBlob(store, DirectoryV2(manifests.value));
    if put.Failure? {
      return Failure(put.error);
    }
    if intact {
      ManifestsGrow(before, store.blobs, manifests.value, q);
      DirectoryHolds(store.blobs, put.value, manifests.value, q);
    }
    return Success(put.value);
  }

  lemma DirectoryHolds(blobs: map<Hash, Bytes>, h: Hash, manifests: map<string, Hash>, p: Postings)
    requires BlobAt(blobs, h) == Some(DirectoryV2(manifests)) && manifests.Keys == p.Keys && ManifestsAt(blobs, manifests, p)
    ensures IndexAt(blobs, Some(h), p) && IsV2(blobs, h)
  {}

  ghost predicate IsV2(blobs: map<Hash, Bytes>, root: Hash) {
    BlobAt(blobs, root).Some? && BlobAt(blobs, root).value.DirectoryV2?
  }

  // ----- Redelivery

  /** In the current format two roots are the same exactly when they hold the same index. */
  lemma RootIsCanonical(blobs: map<Hash, Bytes>, g: Hash, p: Postings, h: Hash, q: Postings)
    requires IndexAt(blobs, Some(g), p) && IsV2(blobs, g) && IndexAt(blobs, Some(h), q) && IsV2(blobs, h)
    ensures p == q <==> g == h
  {
    hide BlobAt, ManifestAt;
    var ours, theirs := BlobAt(blobs, g).value.manifests, BlobAt(blobs, h).value.manifests;
    if p == q {
      forall k | k in p ensures ours[k] == theirs[k] { ManifestIsCanonical(blobs, ours[k], p[k], theirs[k], q[k]); }
      assert ours == theirs;
      SameBlobSameHash(blobs, blobs, g, h);
    }
    if g == h {
      forall k | k in p ensures k in q && p[k] == q[k] { ManifestIsCanonical(blobs, ours[k], p[k], theirs[k], q[k]); }
      assert p == q;
    }
  }

  lemma ManifestIsCanonical(blobs: map<Hash, Bytes>, g: Hash, p: Segments, h: Hash, q: Segments)
    requires ManifestAt(blobs, g, p) && ManifestAt(blobs, h, q)
    ensures p == q <==> g == h
  {
    hide BlobAt;
    var ours, theirs := BlobAt(blobs, g).value.segments, BlobAt(blobs, h).value.segments;
    if p == q {
      forall i | 0 <= i < |p| ensures ours[i] == theirs[i] { SameBlobSameHash(blobs, blobs, ours[i], theirs[i]); }
      assert ours == theirs;
      SameBlobSameHash(blobs, blobs, g, h);
    }
    if g == h {
      forall i | 0 <= i < |p| ensures p[i] == q[i] {}
      assert p == q;
    }
  }

  /** Every bucket the batch touches has an open tail that already holds the batch's members for it. */
  ghost predicate Redelivered(p: Postings, bands: Bands, members: seq<IsccMember>) {
    forall k :: k in Touched(bands, members) ==> InOpenTail(SegmentsOf(p, k), Bucketed(bands, members, k))
  }

  lemma BatchChangesNothingIff(p: Postings, bands: Bands, members: seq<IsccMember>)
    ensures AddBatch(p, bands, members) == p <==> Redelivered(p, bands, members)
  {
    hide Touched, AddTo, InOpenTail, Bucketed;
    var q := AddBatch(p, bands, members);
    forall k | k in Touched(bands, members)
      ensures q[k] == SegmentsOf(p, k) <==> InOpenTail(SegmentsOf(p, k), Bucketed(bands, members, k))
      ensures InOpenTail(SegmentsOf(p, k), Bucketed(bands, members, k)) ==> k in p
    {
      TouchedIff(bands, members, k);
      UnchangedIffInOpenTail(SegmentsOf(p, k), Bucketed(bands, members, k));
      NoTailToOpen(Bucketed(bands, members, k));
    }
    if q == p {
      forall k | k in Touched(bands, members) ensures InOpenTail(SegmentsOf(p, k), Bucketed(bands, members, k)) {
        assert k in q;
      }
    }
    if Redelivered(p, bands, members) {
      assert forall k :: k in q ==> k in p && q[k] == p[k];
    }
  }

  lemma NoTailToOpen(added: seq<IsccMember>)
    ensures !InOpenTail([], added)
  {}

  /** A batch gives the root it started from exactly when it is a redelivery to open tails. */
  lemma SameRootIffRedelivered(
    before: map<Hash, Bytes>, root: Hash, after: map<Hash, Bytes>, r: Hash, p: Postings, bands: Bands, members: seq<IsccMember>
  )
    requires IndexAt(before, Some(root), p) && IsV2(before, root) && Grows(before, after)
    requires IndexAt(after, Some(r), AddBatch(p, bands, members)) && IsV2(after, r)
    ensures r == root <==> Redelivered(p, bands, members)
  {
    hide IndexAt, AddBatch, Redelivered, BlobAt;
    IndexGrows(before, after, Some(root), p);
    BlobAtGrows(before, after, root);
    RootIsCanonical(after, root, p, r, AddBatch(p, bands, members));
    BatchChangesNothingIff(p, bands, members);
  }

  // ----- Querying

  /** All members of a bucket, segment by segment. */
  method LoadBucket(store: BlobStore, ref: BucketRef, ghost segs: Segments) returns (r: Result<seq<IsccMember>, IsccError>)
    ensures RefAt(store.blobs, ref, segs) ==>
              if r.Success? then SetOf(r.value) == Members(segs)
              else r.error.StoreError? && !store.reliable
  {
    hide BlobAt, RefAt;
    var manifest := LoadManifest(store, ref, segs);
    if manifest.Failure? {
      return Failure(manifest.error);
    }
    var hashes, out := manifest.value.1, [];
    for i := 0 to |hashes|
      invariant RefAt(store.blobs, ref, segs) ==> SetOf(out) == Members(segs[..i])
    {
      var seg := LoadSegment(store, hashes[i], if i < |segs| then segs[i] else []);
      if seg.Failure? {
        return Failure(seg.error);
      }
      if RefAt(store.blobs, ref, segs) { OneMoreMembers(segs, i); }
      out := out + seg.value;
    }
    if RefAt(store.blobs, ref, segs) { assert segs[..|hashes|] == segs; }
    return Success(out);
  }

  lemma OneMoreMembers(segs: Segments, i: nat)
    requires i < |segs|
    ensures Members(segs[..i + 1]) == Members(segs[..i]) + SetOf(segs[i])
  {
    var one: Segments := [segs[i]];
    assert segs[..i + 1] == segs[..i] + one;
    MembersConcat(segs[..i], one);
    assert forall m :: m in segs[i] ==> m in one[0];
  }

  /** The members of the buckets whose key is in `keys`. */
  ghost function Under(p: Postings, keys: set<string>): set<IsccMember> {
    set k, m | k in keys && k in p && m in Members(p[k]) :: m
  }

  lemma OneMoreUnder(p: Postings, keys: set<string>, key: string)
    ensures Under(p, keys + {key}) == Under(p, keys) + if key in p then Members(p[key]) else {}
  {}

  lemma NoneUnder(p: Postings)
    ensures Under(p, {}) == {} == SetOf([])
  {}

  lemma SetOfConcat(a: seq<IsccMember>, b: seq<IsccMember>)
    ensures SetOf(a + b) == SetOf(a) + SetOf(b)
  {}

  method LoadCandidates(store: BlobStore, refs: map<string, BucketRef>, ids: seq<BucketId>, ghost p: Postings)
    returns (r: Result<seq<IsccMember>, IsccError>)
    ensures RefsAt(store.blobs, refs, p) ==>
              if r.Success? then SetOf(r.value) == Under(p, set id | id in ids :: StorageKey(id))
              else r.error.StoreError? && !store.reliable
  {
    hide RefAt, StorageKey, Members, Under, SetOf;
    NoneUnder(p);
    var candidates: seq<IsccMember>, seen: set<string> := [], {};
    for i := 0 to |ids|
      invariant seen == set id | id in ids[..i] :: StorageKey(id)
      invariant RefsAt(store.blobs, refs, p) ==> SetOf(candidates) == Under(p, seen)
    {
      var key := StorageKey(ids[i]);
      assert ids[..i + 1] == ids[..i] + [ids[i]];
      if key !in seen {
        if key in refs {
          var bucket := LoadBucket(store, refs[key], SegmentsOf(p, key));
          if bucket.Failure? {
            return Failure(bucket.error);
          }
          SetOfConcat(candidates, bucket.value);
          candidates := candidates + bucket.value;
        }
        OneMoreUnder(p, seen, key);
        seen := seen + {key};
      }
    }
    assert ids[..|ids|] == ids;
    return Success(candidates);
  }

  method Collapse(candidates: seq<IsccMember>) returns (out: seq<IsccMember>)
    ensures SetOf(out) == SetOf(candidates)
    ensures forall i, j :: 0 <= i < j < |out| ==> out[i] != out[j]
  {
    out := [];
    for i := 0 to |candidates|
      invariant SetOf(out) == SetOf(candidates[..i])
      invariant forall i, j :: 0 <= i < j < |out| ==> out[i] != out[j]
    {
      assert candidates[..i + 1] == candidates[..i] + [candidates[i]];
      SetOfConcat(candidates[..i], [candidates[i]]);
      SetOfConcat(out, [candidates[i]]);
      if candidates[i] !in out {
        out := out + [candidates[i]];
      }
    }
    assert candidates[..|candidates|] == candidates;
  }

  /** On an intact index in either format the answer is exact for the postings a probe meets; on any
      other store contents it is an answer or an error. */
  method Query(store: BlobStore, root: Option<Hash>, bands: Bands, query: u64, radius: nat, probe: nat, ghost p: Postings)
    returns (r: Result<seq<Match>, IsccError>)
    ensures IndexAt(store.blobs, root, p) ==>
              if r.Success? then IsAnswer(query, Posted(p, bands, query, probe), radius, r.value)
              else r.error.StoreError? && !store.reliable
  {
    hide IndexAt, RefAt, StorageKey, Members, Hamming, Probed;
    var refs := LoadDirectory(store, root, p);
    if refs.Failure? {
      return Failure(refs.error);
    }
    if refs.value == map[] {
      return Success([]);
    }
    var ids := QueryBuckets(bands, query, probe);
    var candidates := LoadCandidates(store, refs.value, ids, p);
    if candidates.Failure? {
      return Failure(candidates.error);
    }
    assert Under(p, set id | id in ids :: StorageKey(id)) == Posted(p, bands, query, probe);
    var distinct := Collapse(candidates.value);
    var matches := Verify(query, distinct, radius);
    return Success(matches);
  }

  /** The stored index's recall, over any batches it was built from: a member within the radius and
      closer than `bands * (probe + 1)` is found, at its distance or less; what is found is a member. */
  lemma StoredRecall(
    start: Postings, bands: Bands, held: set<IsccMember>, batches: seq<seq<IsccMember>>, query: u64, radius: nat, probe: nat,
    out: seq<Match>
  )
    requires Indexes(start, bands, held)
    requires IsAnswer(query, Posted(AllBatches(start, bands, batches), bands, query, probe), radius, out)
    ensures forall m :: m in held + AllMembers(batches)
                        && Hamming(query, m.code) <= radius && Hamming(query, m.code) < bands * (probe + 1) ==>
              exists row :: row in out && row.key == m.key && row.distance <= Hamming(query, m.code)
    ensures forall row :: row in out ==>
              IsccMember(row.key, row.code) in held + AllMembers(batches) && Hamming(query, row.code) == row.distance <= radius
  {
    hide *;
    BatchesIndex(start, bands, held, batches);
    PostedIsReachable(AllBatches(start, bands, batches), bands, held + AllMembers(batches), query, probe);
    RecallBound(bands, held + AllMembers(batches), query, radius, probe, out);
  }

  // ----- The stored index against the in-memory one

  /** Every batch applied to a new stored index, in order; the first failure ends the run. */
  method StoreAll(store: BlobStore, bands: Bands, batches: seq<seq<IsccMember>>) returns (r: Result<Option<Hash>, IsccError>)
    requires BlobSerializer()
    modifies store`blobs, store`clashed
    ensures if r.Success? then IndexAt(store.blobs, r.value, AllBatches(map[], bands, batches))
            else r.error.StoreError? && (store.reliable ==> store.clashed)
  {
    hide IndexAt, AddBatch, BlobSerializer;
    var root: Option<Hash> := None;
    NothingStored(store.blobs);
    for i := 0 to |batches|
      invariant IndexAt(store.blobs, root, AllBatches(map[], bands, batches[..i]))
    {
      assert batches[..i + 1][..i] == batches[..i] && batches[..i + 1][i] == batches[i];
      var inserted := InsertBatch(store, root, bands, batches[i], AllBatches(map[], bands, batches[..i]));
      if inserted.Failure? {
        return Failure(inserted.error);
      }
      root := Some(inserted.value);
    }
    assert batches[..|batches|] == batches;
    return Success(root);
  }

  lemma NothingStored(blobs: map<Hash, Bytes>)
    ensures IndexAt(blobs, None, map[])
  {}

  /** Every member of every batch inserted into the in-memory index. */
  method RememberAll(index: IsccIndex, batches: seq<seq<IsccMember>>)
    requires index.Holds({}) && KeysDetermineCodes(AllMembers(batches))
    modifies index`buckets
    ensures index.Holds(AllMembers(batches))
  {
    hide IsccIndex.Holds, KeysDetermineCodes;
    ghost var members := {};
    for i := 0 to |batches|
      invariant members == AllMembers(batches[..i]) && index.Holds(members)
    {
      assert batches[..i + 1] == batches[..i] + [batches[i]];
      assert AllMembers(batches[..i + 1]) == AllMembers(batches[..i]) + SetOf(batches[i]);
      RememberBatch(index, batches[i], members, AllMembers(batches));
      members := members + SetOf(batches[i]);
    }
    assert batches[..|batches|] == batches;
  }

  method RememberBatch(index: IsccIndex, batch: seq<IsccMember>, ghost held: set<IsccMember>, ghost all: set<IsccMember>)
    requires index.Holds(held) && held + SetOf(batch) <= all && KeysDetermineCodes(all)
    modifies index`buckets
    ensures index.Holds(held + SetOf(batch))
  {
    hide HoldsIn, Inserted, Buckets;
    ghost var members := held;
    for i := 0 to |batch|
      invariant members == held + SetOf(batch[..i]) && index.Holds(members)
    {
      assert batch[..i + 1] == batch[..i] + [batch[i]];
      assert SetOf(batch[..i + 1]) == SetOf(batch[..i]) + {batch[i]};
      assert members + {batch[i]} <= all;
      ghost var before := index.buckets;
      index.Insert(batch[i]);
      InsertedHolds(before, index.buckets, index.bands, members, batch[i]);
      members := members + {batch[i]};
    }
    assert batch[..|batch|] == batch;
  }

  /** The same batches into a stored index and an in-memory one, then the same query to both: while each
      key has one code, and unless the store fails, the answers are the same sequence of matches. */
  method BothAnswer(store: BlobStore, index: IsccIndex, batches: seq<seq<IsccMember>>, query: u64, radius: nat, probe: nat)
    returns (stored: Result<seq<Match>, IsccError>, memory: seq<Match>)
    requires BlobSerializer() && index.Holds({}) && KeysDetermineCodes(AllMembers(batches))
    modifies store`blobs, store`clashed, index`buckets
    ensures if stored.Success? then stored.value == memory else stored.error.StoreError? && (store.reliable ==> store.clashed)
    ensures IsAnswer(query, Reachable(index.bands, AllMembers(batches), query, probe), radius, memory)
  {
    hide IndexAt, IsAnswer, IsccIndex.Holds, KeysDetermineCodes, Indexes, BlobSerializer;
    ghost var p := AllBatches(map[], index.bands, batches);
    RememberAll(index, batches);
    memory := index.Query(query, radius, probe, AllMembers(batches));
    var root := StoreAll(store, index.bands, batches);
    if root.Failure? {
      return Failure(root.error), memory;
    }
    stored := Query(store, root.value, index.bands, query, radius, probe, p);
    if stored.Success? {
      NewIndexHolds(index.bands, batches);
      StoreAnswersLikeMemory(p, index.bands, AllMembers(batches), query, radius, probe, stored.value, memory);
    }
  }

  // ----- What a sweep must keep

  /** The bucket's own blob is marked, and with it the segments it names. */
  ghost predicate BucketMarked(blobs: map<Hash, Bytes>, ref: BucketRef, live: set<Hash>) {
    && ref.hash in live
    && (ref.ManifestRef? && BlobAt(blobs, ref.hash).Some? && BlobAt(blobs, ref.hash).value.Manifest? ==>
          forall h :: h in BlobAt(blobs, ref.hash).value.segments ==> h in live)
  }

  ghost predicate IndexMarked(blobs: map<Hash, Bytes>, root: Hash, live: set<Hash>) {
    && root in live && BlobAt(blobs, root).Some?
    && forall k :: k in DirectoryRefs(BlobAt(blobs, root).value) ==> BucketMarked(blobs, DirectoryRefs(BlobAt(blobs, root).value)[k], live)
  }

  lemma KeptBlob(blobs: map<Hash, Bytes>, live: set<Hash>, h: Hash)
    ensures BlobAt(Kept(blobs, live), h) == if h in live then BlobAt(blobs, h) else None
  {}

  lemma KeptSegments(blobs: map<Hash, Bytes>, live: set<Hash>, hashes: seq<Hash>, segs: Segments)
    requires SegmentsAt(blobs, hashes, segs)
    ensures SegmentsAt(Kept(blobs, live), hashes, segs) <==> forall h :: h in hashes ==> h in live
  {
    hide BlobAt;
    forall i | 0 <= i < |hashes| ensures BlobAt(Kept(blobs, live), hashes[i]) == Some(Segment(segs[i])) <==> hashes[i] in live {
      KeptBlob(blobs, live, hashes[i]);
    }
  }

  lemma KeptBucket(blobs: map<Hash, Bytes>, live: set<Hash>, ref: BucketRef, segs: Segments)
    requires RefAt(blobs, ref, segs)
    ensures RefAt(Kept(blobs, live), ref, segs) <==> BucketMarked(blobs, ref, live)
  {
    hide BlobAt, SegmentsAt;
    match ref
    case ManifestRef(h) =>
      KeptBlob(blobs, live, h);
      KeptSegments(blobs, live, BlobAt(blobs, h).value.segments, segs);
    case LegacyList(h) =>
      KeptSegments(blobs, live, [h], segs);
      assert h in [h];
  }

  lemma DirectoryIs(blobs: map<Hash, Bytes>, root: Hash, p: Postings)
    ensures IndexAt(blobs, Some(root), p) <==>
              && BlobAt(blobs, root).Some? && (BlobAt(blobs, root).value.DirectoryV2? || BlobAt(blobs, root).value.DirectoryV1?)
              && RefsAt(blobs, DirectoryRefs(BlobAt(blobs, root).value), p)
  {
    hide BlobAt, SegmentsAt, ManifestAt;
  }

  /** A sweep keeps an index if and only if all of it is marked. */
  lemma SweepKeepsIndexIffMarked(blobs: map<Hash, Bytes>, live: set<Hash>, root: Hash, p: Postings)
    requires IndexAt(blobs, Some(root), p)
    ensures IndexAt(Kept(blobs, live), Some(root), p) <==> IndexMarked(blobs, root, live)
  {
    hide BlobAt, RefAt, BucketMarked, IndexAt;
    DirectoryIs(blobs, root, p);
    DirectoryIs(Kept(blobs, live), root, p);
    KeptBlob(blobs, live, root);
    var refs := DirectoryRefs(BlobAt(blobs, root).value);
    forall k | k in p ensures RefAt(Kept(blobs, live), refs[k], p[k]) <==> BucketMarked(blobs, refs[k], live) {
      KeptBucket(blobs, live, refs[k], p[k]);
    }
  }

  /** With one bucket's blob not marked, the index is lost to the sweep, whatever its root is. */
  lemma UnmarkedBucketLosesIndex(blobs: map<Hash, Bytes>, live: set<Hash>, root: Hash, p: Postings, k: string)
    requires IndexAt(blobs, Some(root), p) && k in p && DirectoryRefs(BlobAt(blobs, root).value)[k].hash !in live
    ensures !IndexAt(Kept(blobs, live), Some(root), p)
  {
    SweepKeepsIndexIffMarked(blobs, live, root, p);
  }

  /** A bucket's own blob and, where it reads as a manifest, the segments it names. */
  ghost function BucketParts(blobs: map<Hash, Bytes>, ref: BucketRef): set<Hash> {
    {ref.hash}
    + match ReadBlob(blobs, ref.hash)
      case Some(Manifest(_, segments)) => if ref.ManifestRef? then set h | h in segments else {}
      case _ => {}
  }

  /** Everything an index consists of, as far as the store's bytes name it. */
  ghost function IndexParts(blobs: map<Hash, Bytes>, root: Hash): set<Hash> {
    {root}
    + match ReadBlob(blobs, root)
      case Some(directory) => set k, h | k in DirectoryRefs(directory) && h in BucketParts(blobs, DirectoryRefs(directory)[k]) :: h
      case None => {}
  }

  /** Marks an index, unless its root is marked already: then nothing below it is looked at, and a sweep
      keeps the index exactly when all of it was marked before. */
  method CollectIndex(store: BlobStore, root: Hash, out: set<Hash>, ghost p: Postings)
    returns (r: Result<(), IsccError>, live: set<Hash>)
    ensures out <= live <= out + IndexParts(store.blobs, root) && root in live && (root in out ==> live == out)
    ensures IndexAt(store.blobs, Some(root), p) && r.Success? && root !in out ==> IndexMarked(store.blobs, root, live)
    ensures IndexAt(store.blobs, Some(root), p) && r.Success? ==>
              (IndexAt(Kept(store.blobs, live), Some(root), p) <==> root !in out || IndexMarked(store.blobs, root, out))
    ensures IndexAt(store.blobs, Some(root), p) && r.Failure? ==> r.error.StoreError? && !store.reliable
  {
    hide BlobAt, IndexAt, RefAt;
    if root in out {
      if IndexAt(store.blobs, Some(root), p) { SweepKeepsIndexIffMarked(store.blobs, out, root, p); }
      return Success(()), out;
    }
    live := out + {root};
    DirectoryIs(store.blobs, root, p);
    var refs := LoadDirectory(store, Some(root), p);
    if refs.Failure? {
      return Failure(refs.error), live;
    }
    var left := refs.value.Keys;
    while left != {}
      invariant out + {root} <= live <= out + IndexParts(store.blobs, root) && left <= refs.value.Keys
      invariant IndexAt(store.blobs, Some(root), p) ==>
                  forall k :: k in refs.value && k !in left ==> BucketMarked(store.blobs, refs.value[k], live)
    {
      var k :| k in left;
      left := left - {k};
      r, live := CollectBucket(store, refs.value[k], live, SegmentsOf(p, k));
      if r.Failure? {
        return;
      }
    }
    if IndexAt(store.blobs, Some(root), p) { SweepKeepsIndexIffMarked(store.blobs, live, root, p); }
    return Success(()), live;
  }

  method CollectBucket(store: BlobStore, ref: BucketRef, out: set<Hash>, ghost segs: Segments)
    returns (r: Result<(), IsccError>, live: set<Hash>)
    ensures out <= live <= out + BucketParts(store.blobs, ref)
    ensures RefAt(store.blobs, ref, segs) ==>
              if r.Success? then BucketMarked(store.blobs, ref, live)
              else r.error.StoreError? && !store.reliable
    ensures forall other :: BucketMarked(store.blobs, other, out) ==> BucketMarked(store.blobs, other, live)
  {
    hide BlobAt;
    live := out + {ref.hash};
    if ref.LegacyList? {
      return Success(()), live;
    }
    var blob := GetBlob(store, ref.hash);
    match blob
    case Failure(err) => return Failure(err), live;
    case Success(Manifest(_, segments)) =>
      live := live + set h | h in segments;
      return Success(()), live;
    case Success(_) => return Failure(Corrupt(ref.hash)), live;
  }
}
