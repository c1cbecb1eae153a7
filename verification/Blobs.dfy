/** Content-addressed blob storage (`registry-core/src/blobstore.rs`). */
module Blobs {
  import opened Wrappers
  import opened Digests

  datatype BlobStoreError = Io

  /** `after` still holds everything `before` held. */
  ghost predicate Grows(before: map<Hash, Bytes>, after: map<Hash, Bytes>) {
    forall h :: h in before ==> h in after && after[h] == before[h]
  }

  /** What a sweep leaves. */
  ghost function Kept(blobs: map<Hash, Bytes>, live: set<Hash>): map<Hash, Bytes> {
    map h | h in blobs && h in live :: blobs[h]
  }

  /** A store whose reads and writes may fail at any time where it is not `reliable`.

      The model has no hash collisions in it: a write whose hash is already taken by other bytes, or
      is all zeros, counts as a failed write. */
  class BlobStore {
    const reliable: bool
    var blobs: map<Hash, Bytes>
    ghost var clashed: bool            // history: a write failed because of its hash

    constructor (reliable: bool)
      ensures blobs == map[] && !clashed && this.reliable == reliable
    {
      this.reliable := reliable;
      blobs := map[];
      clashed := false;
    }

    method Put(bytes: Bytes) returns (r: Result<Hash, BlobStoreError>)
      modifies this`blobs, this`clashed
      ensures Grows(old(blobs), blobs)
      ensures r.Success? ==>
                r.value == Blake3(bytes) && r.value != ZeroHash() && blobs == old(blobs)[r.value := bytes]
      ensures r.Failure? ==> blobs == old(blobs)
      ensures reliable && r.Failure? ==> clashed
      ensures old(clashed) ==> clashed
      ensures clashed ==> old(clashed) || Blake3(bytes) == ZeroHash() || (Blake3(bytes) in blobs && blobs[Blake3(bytes)] != bytes)
    {
      var failed: bool := *;
      var hash := Blake3(bytes);
      if failed && !reliable {
        return Failure(Io);
      }
      if hash == ZeroHash() || (hash in blobs && blobs[hash] != bytes) {
        clashed := true;
        return Failure(Io);
      }
      blobs := blobs[hash := bytes];
      return Success(hash);
    }

    method Get(hash: Hash) returns (r: Result<Option<Bytes>, BlobStoreError>)
      ensures r.Success? ==> r.value == if hash in blobs then Some(blobs[hash]) else None
      ensures reliable ==> r.Success?
    {
      var failed: bool := *;
      if failed && !reliable {
        return Failure(Io);
      }
      return Success(if hash in blobs then Some(blobs[hash]) else None);
    }
  }
}
