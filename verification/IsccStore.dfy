/** The blob-backed similarity index: a directory of buckets, each a manifest of segments
    (`registry-core/src/iscc_store.rs`). */
module IsccStore {
  import opened Wrappers
  import opened Ordering
  import opened Digests
  import opened Blobs
  import opened Bits
  import opened Similarity
  import opened Matching

  const SEGMENT_MAX: nat := 4096

  // ----- Blobs of the index

  datatype IsccBlob =
    | DirectoryV2(manifests: map<string, Hash>)
    | DirectoryV1(lists: map<string, Hash>)
    | Manifest(count: nat, segments: seq<Hash>)
    | Segment(members: seq<IsccMember>)

  /** `serde_json` on these, left uninterpreted. */
  const SerializeBlob: IsccBlob -> Bytes
  const ParseBlob: Bytes -> Option<IsccBlob>

  ghost predicate BlobSerializer() {
    forall b :: ParseBlob(SerializeBlob(b)) == Some(b)
  }

  datatype IsccError = StoreError | MissingBlob(hash: Hash) | Corrupt(hash: Hash)

  /** What is stored under `h`, as this code writes it. */
  function BlobAt(blobs: map<Hash, Bytes>, h: Hash): Option<IsccBlob> {
    if h in blobs && ParseBlob(blobs[h]).Some?
       && SerializeBlob(ParseBlob(blobs[h]).value) == blobs[h] && Blake3(blobs[h]) == h
    then ParseBlob(blobs[h])
    else None
  }

  lemma BlobAtGrows(before: map<Hash, Bytes>, after: map<Hash, Bytes>, h: Hash)
    requires Grows(before, after) && BlobAt(before, h).Some?
    ensures BlobAt(after, h) == BlobAt(before, h)
  {}

  lemma SameBlobSameHash(a: map<Hash, Bytes>, b: map<Hash, Bytes>, g: Hash, h: Hash)
    requires BlobAt(a, g).Some? && BlobAt(a, g) == BlobAt(b, h)
    ensures g == h
  {}

  method PutBlob(store: BlobStore, blob: IsccBlob) returns (r: Result<Hash, IsccError>)
    requires BlobSerializer()
    modifies store`blobs, store`clashed
    ensures Grows(old(store.blobs), store.blobs)
    ensures r.Success? ==> BlobAt(store.blobs, r.value) == Some(blob)
    ensures r.Failure? ==> r.error.StoreError? && (store.reliable ==> store.clashed)
  {
    var put := store.Put(SerializeBlob(blob));
    return if put.Success? then Success(put.value) else Failure(StoreError);
  }

  /** What reading a blob gives, whatever bytes the store holds. */
  function ReadBlob(blobs: map<Hash, Bytes>, h: Hash): Option<IsccBlob> {
    if h in blobs then ParseBlob(blobs[h]) else None
  }

  method GetBlob(store: BlobStore, h: Hash) returns (r: Result<IsccBlob, IsccError>)
    ensures r.Success? ==> ReadBlob(store.blobs, h) == Some(r.value)
    ensures r.Success? && BlobAt(store.blobs, h).Some? ==> BlobAt(store.blobs, h) == Some(r.value)
    ensures r.Failure? ==> (r.error.StoreError? && !store.reliable) || BlobAt(store.blobs, h) == None
  {
    var got := store.Get(h);
    if got.Failure? {
      return Failure(StoreError);
    }
    if got.value.None? {
      return Failure(MissingBlob(h));
    }
    match ParseBlob(got.value.value)
    case None => return Failure(Corrupt(h));
    case Some(blob) => return Success(blob);
  }

  // ----- The index as a value

  type Segments = seq<seq<IsccMember>>

  type Postings = map<string, Segments>

  function Count(segs: Segments): nat {
    if segs == [] then 0 else Count(segs[..|segs| - 1]) + |segs[|segs| - 1]|
  }

  ghost predicate SegmentsAt(blobs: map<Hash, Bytes>, hashes: seq<Hash>, segs: Segments) {
    |hashes| == |segs| && forall i :: 0 <= i < |segs| ==> BlobAt(blobs, hashes[i]) == Some(Segment(segs[i]))
  }

  ghost predicate ManifestAt(blobs: map<Hash, Bytes>, h: Hash, segs: Segments) {
    && BlobAt(blobs, h).Some? && BlobAt(blobs, h).value.Manifest?
    && BlobAt(blobs, h).value.count == Count(segs)
    && SegmentsAt(blobs, BlobAt(blobs, h).value.segments, segs)
  }

  /** The store holds the whole index `postings` under `root`, in the current format or the old one -
      where a bucket is one list, standing for one segment of whatever length. */
  ghost predicate IndexAt(blobs: map<Hash, Bytes>, root: Option<Hash>, postings: Postings) {
    match root
    case None => postings == map[]
    case Some(h) =>
      match BlobAt(blobs, h)
      case Some(DirectoryV2(manifests)) =>
        manifests.Keys == postings.Keys && forall k :: k in postings ==> ManifestAt(blobs, manifests[k], postings[k])
      case Some(DirectoryV1(lists)) =>
        lists.Keys == postings.Keys && forall k :: k in postings ==> SegmentsAt(blobs, [lists[k]], postings[k])
      case _ => false
  }

  lemma SegmentsGrow(before: map<Hash, Bytes>, after: map<Hash, Bytes>, hashes: seq<Hash>, segs: Segments)
    requires Grows(before, after) && SegmentsAt(before, hashes, segs)
    ensures SegmentsAt(after, hashes, segs)
  {
    hide BlobAt;
    forall i | 0 <= i < |segs| ensures BlobAt(after, hashes[i]) == Some(Segment(segs[i])) {
      BlobAtGrows(before, after, hashes[i]);
    }
  }

  lemma ManifestGrows(before: map<Hash, Bytes>, after: map<Hash, Bytes>, h: Hash, segs: Segments)
    requires Grows(before, after) && ManifestAt(before, h, segs)
    ensures ManifestAt(after, h, segs)
  {
    hide BlobAt;
    BlobAtGrows(before, after, h);
    SegmentsGrow(before, after, BlobAt(before, h).value.segments, segs);
  }

  lemma {:induction false} IndexGrows(before: map<Hash, Bytes>, after: map<Hash, Bytes>, root: Option<Hash>, postings: Postings)
    requires Grows(before, after) && IndexAt(before, root, postings)
    ensures IndexAt(after, root, postings)
  {
    hide BlobAt, SegmentsAt, ManifestAt;
    if root.Some? {
      BlobAtGrows(before, after, root.value);
      match BlobAt(before, root.value) {
        case Some(DirectoryV2(manifests)) =>
          forall k | k in postings ensures ManifestAt(after, manifests[k], postings[k]) {
            ManifestGrows(before, after, manifests[k], postings[k]);
          }
        case Some(DirectoryV1(lists)) =>
          forall k | k in postings ensures SegmentsAt(after, [lists[k]], postings[k]) {
            SegmentsGrow(before, after, [lists[k]], postings[k]);
          }
      }
    }
  }

  // ----- Adding to a bucket

  /** The last segment is open while it is not full. */
  predicate TailOpen(segs: Segments) {
    segs != [] && |segs[|segs| - 1]| < SEGMENT_MAX
  }

  function Frozen(segs: Segments): Segments {
    if TailOpen(segs) then segs[..|segs| - 1] else segs
  }

  function Tail(segs: Segments): seq<IsccMember> {
    if TailOpen(segs) then segs[|segs| - 1] else []
  }

  function AppendNew(tail: seq<IsccMember>, added: seq<IsccMember>): seq<IsccMember> {
    if added == [] then tail
    else
      var before := AppendNew(tail, added[..|added| - 1]);
      var m := added[|added| - 1];
      if m in before then before else before + [m]
  }

  function Chunks(tail: seq<IsccMember>): Segments {
    if tail == [] then []
    else if |tail| <= SEGMENT_MAX then [tail]
    else [tail[..SEGMENT_MAX]] + Chunks(tail[SEGMENT_MAX..])
  }

  function AddTo(segs: Segments, added: seq<IsccMember>): Segments {
    Frozen(segs) + Chunks(AppendNew(Tail(segs), added))
  }

  ghost function Members(segs: Segments): set<IsccMember> {
    set i, m | 0 <= i < |segs| && m in segs[i] :: m
  }

  lemma MembersConcat(a: Segments, b: Segments)
    ensures Members(a + b) == Members(a) + Members(b)
  {
    var c := a + b;
    forall m | m in Members(c) ensures m in Members(a) + Members(b) {
      var i :| 0 <= i < |c| && m in c[i];
      if i < |a| { assert m in a[i]; } else { assert m in b[i - |a|]; }
    }
    forall m | m in Members(a) ensures m in Members(c) {
      var i :| 0 <= i < |a| && m in a[i];
      assert m in c[i];
    }
    forall m | m in Members(b) ensures m in Members(c) {
      var i :| 0 <= i < |b| && m in b[i];
      assert m in c[|a| + i];
    }
  }

  lemma {:induction false} ChunkMembers(tail: seq<IsccMember>)
    ensures Members(Chunks(tail)) == set m | m in tail
    decreases |tail|
  {
    if tail == [] {
    } else if |tail| <= SEGMENT_MAX {
      var one: Segments := [tail];
      assert forall m :: m in tail ==> m in one[0];
    } else {
      var head, rest := tail[..SEGMENT_MAX], tail[SEGMENT_MAX..];
      ChunkMembers(rest);
      MembersConcat([head], Chunks(rest));
      var one: Segments := [head];
      assert forall m :: m in head ==> m in one[0];
      assert Members(one) == set m | m in head;
      assert tail == head + rest;
    }
  }

  lemma {:induction false} AppendedMembers(tail: seq<IsccMember>, added: seq<IsccMember>)
    ensures forall m :: m in AppendNew(tail, added) <==> m in tail || m in added
  {
    if added != [] {
      AppendedMembers(tail, added[..|added| - 1]);
      assert added == added[..|added| - 1] + [added[|added| - 1]];
    }
  }

  /** A bucket holds what it held and what was added: nothing is lost at a segment's end. */
  lemma AddedMembers(segs: Segments, added: seq<IsccMember>)
    ensures Members(AddTo(segs, added)) == Members(segs) + set m | m in added
  {
    var tail := AppendNew(Tail(segs), added);
    AppendedMembers(Tail(segs), added);
    ChunkMembers(tail);
    MembersConcat(Frozen(segs), Chunks(tail));
    if TailOpen(segs) {
      var last: Segments := [Tail(segs)];
      assert segs == Frozen(segs) + last;
      MembersConcat(Frozen(segs), last);
      assert forall m :: m in Tail(segs) ==> m in last[0];
      assert Members(last) == set m | m in Tail(segs);
    }
  }

  // ----- Segment discipline

  /** Every segment but the last is full; only an old list, standing first, may be longer than full. */
  ghost predicate Disciplined(segs: Segments) {
    && (forall i :: 0 <= i < |segs| - 1 ==> |segs[i]| >= SEGMENT_MAX)
    && (forall i :: 0 < i < |segs| ==> 0 < |segs[i]| <= SEGMENT_MAX)
  }

  lemma {:induction false} ChunksAreFull(tail: seq<IsccMember>)
    ensures forall i :: 0 <= i < |Chunks(tail)| - 1 ==> |Chunks(tail)[i]| == SEGMENT_MAX
    ensures forall i :: 0 <= i < |Chunks(tail)| ==> 0 < |Chunks(tail)[i]| <= SEGMENT_MAX
    decreases |tail|
  {
    if |tail| > SEGMENT_MAX {
      var rest := Chunks(tail[SEGMENT_MAX..]);
      ChunksAreFull(tail[SEGMENT_MAX..]);
      forall i | 0 <= i < |Chunks(tail)|
        ensures i < |Chunks(tail)| - 1 ==> |Chunks(tail)[i]| == SEGMENT_MAX
        ensures 0 < |Chunks(tail)[i]| <= SEGMENT_MAX
      {
        if i > 0 { assert Chunks(tail)[i] == rest[i - 1]; }
      }
    }
  }

  /** Adding keeps the discipline, and every full segment stays where it was. */
  lemma AddingKeepsDiscipline(segs: Segments, added: seq<IsccMember>)
    requires Disciplined(segs)
    ensures Disciplined(AddTo(segs, added))
    ensures Frozen(segs) <= AddTo(segs, added)
    ensures forall i :: 0 <= i < |segs| && |segs[i]| >= SEGMENT_MAX ==> i < |AddTo(segs, added)| && AddTo(segs, added)[i] == segs[i]
  {
    var kept, chunks := Frozen(segs), Chunks(AppendNew(Tail(segs), added));
    ChunksAreFull(AppendNew(Tail(segs), added));
    var all := kept + chunks;
    forall i | 0 <= i < |all|
      ensures i < |all| - 1 ==> |all[i]| >= SEGMENT_MAX
      ensures i > 0 ==> 0 < |all[i]| <= SEGMENT_MAX
    {
      if i < |kept| { assert all[i] == segs[i]; } else { assert all[i] == chunks[i - |kept|]; }
    }
  }

  lemma {:induction false} CountConcat(a: Segments, b: Segments)
    ensures Count(a + b) == Count(a) + Count(b)
  {
    if b == [] {
      assert a + b == a;
    } else {
      CountConcat(a, b[..|b| - 1]);
      assert (a + b)[..|a + b| - 1] == a + b[..|b| - 1];
    }
  }

  lemma {:induction false} CountChunks(tail: seq<IsccMember>)
    ensures Count(Chunks(tail)) == |tail|
    decreases |tail|
  {
    var one: Segments := [tail];
    assert one[..0] == [];
    if |tail| > SEGMENT_MAX {
      var first: Segments := [tail[..SEGMENT_MAX]];
      assert first[..0] == [];
      CountChunks(tail[SEGMENT_MAX..]);
      CountConcat(first, Chunks(tail[SEGMENT_MAX..]));
    }
  }

  /** A bucket's count grows by what its tail grows. */
  lemma CountAdded(segs: Segments, added: seq<IsccMember>)
    ensures Count(AddTo(segs, added)) == Count(segs) + |AppendNew(Tail(segs), added)| - |Tail(segs)|
  {
    CountConcat(Frozen(segs), Chunks(AppendNew(Tail(segs), added)));
    CountChunks(AppendNew(Tail(segs), added));
    if TailOpen(segs) {
      var last: Segments := [Tail(segs)];
      assert segs == Frozen(segs) + last && last[..0] == [];
      CountConcat(Frozen(segs), last);
    }
  }

  lemma {:induction false} AppendGrows(tail: seq<IsccMember>, added: seq<IsccMember>)
    ensures |AppendNew(tail, added)| >= |tail|
    ensures |AppendNew(tail, added)| == |tail| <==> forall m :: m in added ==> m in tail
    ensures (forall m :: m in added ==> m in tail) ==> AppendNew(tail, added) == tail
  {
    if added != [] {
      var before, last := added[..|added| - 1], added[|added| - 1];
      AppendGrows(tail, before);
      AppendedMembers(tail, before);
      assert added == before + [last];
      assert last in added;
    }
  }

  ghost predicate InOpenTail(segs: Segments, added: seq<IsccMember>) {
    TailOpen(segs) && forall m :: m in added ==> m in Tail(segs)
  }

  /** Adding leaves a bucket as it is exactly when its open tail already holds everything added. */
  lemma UnchangedIffInOpenTail(segs: Segments, added: seq<IsccMember>)
    requires added != []
    ensures AddTo(segs, added) == segs <==> InOpenTail(segs, added)
  {
    CountAdded(segs, added);
    AppendGrows(Tail(segs), added);
    assert added[0] in added;
    if InOpenTail(segs, added) {
      assert segs == Frozen(segs) + [Tail(segs)];
    }
  }

  // ----- Bucket keys

  function Digit(n: nat): char
    requires n < 16
  {
    "0123456789abcdef"[n]
  }

  /** The low `digits` hexadecimal digits. */
  function Hex(n: nat, digits: nat): (s: string)
    ensures |s| == digits
  {
    if digits == 0 then "" else Hex(n / 16, digits - 1) + [Digit(n % 16)]
  }

  /** `iscc/{band:02}/{value:016x}` */
  function StorageKey(id: BucketId): string {
    "iscc/" + [Digit(id.band / 10 % 10), Digit(id.band % 10)] + "/" + Hex(id.value, 16)
  }

  lemma DigitInjective(a: nat, b: nat)
    requires a < 16 && b < 16 && Digit(a) == Digit(b)
    ensures a == b
  {}

  lemma {:induction false} HexInjective(a: nat, b: nat, digits: nat)
    requires a < Pow2(4 * digits) && b < Pow2(4 * digits) && Hex(a, digits) == Hex(b, digits)
    ensures a == b
  {
    if digits > 0 {
      var n := digits - 1;
      Pow2Sum(4, 4 * n);
      assert Pow2(4) == 16;
      assert Hex(a, digits)[..n] == Hex(a / 16, n) && Hex(b, digits)[..n] == Hex(b / 16, n);
      assert Hex(a, digits)[n] == Digit(a % 16) && Hex(b, digits)[n] == Digit(b % 16);
      DigitInjective(a % 16, b % 16);
      HexInjective(a / 16, b / 16, n);
    }
  }

  /** Distinct buckets have distinct keys. */
  lemma StorageKeyInjective(a: BucketId, b: BucketId)
    requires a.band < 64 && b.band < 64 && a.value < Pow2(64) && b.value < Pow2(64)
    requires StorageKey(a) == StorageKey(b)
    ensures a == b
  {
    hide Hex, Pow2;
    var s, t := StorageKey(a), StorageKey(b);
    assert s[5] == Digit(a.band / 10 % 10) && t[5] == Digit(b.band / 10 % 10);
    assert s[6] == Digit(a.band % 10) && t[6] == Digit(b.band % 10);
    DigitInjective(a.band / 10 % 10, b.band / 10 % 10);
    DigitInjective(a.band % 10, b.band % 10);
    assert s[8..] == Hex(a.value, 16) && t[8..] == Hex(b.value, 16);
    assert 4 * 16 == 64;
    HexInjective(a.value, b.value, 16);
  }

  lemma DigitOrder(a: nat, b: nat)
    requires a < 16 && b < 16
    ensures Digit(a) <= Digit(b) <==> a <= b
  {}

  lemma {:induction false} HexOrder(a: nat, b: nat, digits: nat)
    requires a < Pow2(4 * digits) && b < Pow2(4 * digits)
    ensures LexLe(Hex(a, digits), Hex(b, digits)) <==> a <= b
  {
    if digits > 0 {
      var n := digits - 1;
      Pow2Sum(4, 4 * n);
      assert Pow2(4) == 16;
      HexOrder(a / 16, b / 16, n);
      if Hex(a / 16, n) == Hex(b / 16, n) { HexInjective(a / 16, b / 16, n); }
      DigitOrder(a % 16, b % 16);
      LexLeSnoc(Hex(a / 16, n), Hex(b / 16, n), Digit(a % 16), Digit(b % 16));
    }
  }

  /** Keys are of one length and in the order of their buckets: by band, then by value. */
  lemma StorageKeyOrder(a: BucketId, b: BucketId)
    requires a.band < 64 && b.band < 64 && a.value < Pow2(64) && b.value < Pow2(64)
    ensures |StorageKey(a)| == 24 && "iscc/" <= StorageKey(a) && StorageKey(a)[7] == '/'
    ensures LexLe(StorageKey(a), StorageKey(b)) <==> a.band < b.band || (a.band == b.band && a.value <= b.value)
  {
    hide Hex, Pow2;
    assert 4 * 16 == 64;
    HexOrder(a.value, b.value, 16);
    var s, t := StorageKey(a), StorageKey(b);
    LexLeIff(s, t);
    BandDigitsOrder(a, b);
    if a.band == b.band {
      assert s == s[..8] + Hex(a.value, 16) && t == s[..8] + Hex(b.value, 16);
      LexLePrefix(s[..8], Hex(a.value, 16), Hex(b.value, 16));
    } else {
      var i := if a.band / 10 == b.band / 10 then 6 else 5;
      assert DifferAt(s, t, i);
      LexLeIff(t, s);
      LexLeTotal(s, t);
      assert s[i] < t[i] <==> a.band < b.band;
    }
  }

  lemma BandDigitsOrder(a: BucketId, b: BucketId)
    requires a.band < 64 && b.band < 64
    ensures var i, j := a.band / 10, b.band / 10;
            && (Digit(i % 10) <= Digit(j % 10) <==> i <= j) && (i == j <==> Digit(i % 10) == Digit(j % 10))
            && (i == j ==> (Digit(a.band % 10) <= Digit(b.band % 10) <==> a.band <= b.band))
            && (i == j ==> (Digit(a.band % 10) == Digit(b.band % 10) <==> a.band == b.band))
  {
    hide Digit;
    DigitsCompare(a.band / 10 % 10, b.band / 10 % 10);
    DigitsCompare(a.band % 10, b.band % 10);
    assert a.band / 10 < 10 && b.band / 10 < 10;
  }

  lemma DigitsCompare(a: nat, b: nat)
    requires a < 16 && b < 16
    ensures (Digit(a) <= Digit(b) <==> a <= b) && (Digit(a) == Digit(b) <==> a == b)
  {
    DigitOrder(a, b);
    DigitOrder(b, a);
  }
}
