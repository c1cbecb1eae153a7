/** Bytes, content hashes, key digests, and the byte of a digest each trie level consumes
    (`registry-core/src/hash.rs`, `partition.rs`). */
module Digests {
  import opened Wrappers

  type byte = x: int | 0 <= x < 256

  type Bytes = seq<byte>

  type Digest = s: Bytes | |s| == 32 witness seq(32, _ => 0)

  datatype Hash = Hash(bytes: Digest)

  function Zeros(): Digest {
    seq(32, _ => 0)
  }

  /** The all-zero hash, which the node encoding uses for "no child". */
  function ZeroHash(): Hash {
    Hash(Zeros())
  }

  /** The BLAKE3 digest, left uninterpreted: everything proved holds for every such function. */
  const Blake3: Bytes -> Hash

  /** The SHA-256 digest of a key's UTF-8 bytes, left uninterpreted. */
  const Sha256: string -> Digest

  /** Digest byte 0 picks the partition. */
  function PartitionId(digest: Digest, partitions: nat): (p: nat)
    requires partitions > 0
    ensures p < partitions
  {
    digest[0] % partitions
  }

  /** Digest byte `1 + depth` picks the child slot at `depth`; a digest has 31 of those. */
  function DescentByte(digest: Digest, depth: nat): Option<byte> {
    if 1 + depth < |digest| then Some(digest[1 + depth]) else None
  }

  /** The partition is what is left of byte 0 by whole multiples of the partition count, so no other byte
      matters, and with 256 partitions byte 0 is the partition. */
  lemma PartitionReadsFirstByte(digest: Digest, partitions: nat, j: nat, x: byte)
    requires partitions > 0 && j < 32
    ensures j > 0 ==> PartitionId(digest[j := x], partitions) == PartitionId(digest, partitions)
    ensures exists q: nat :: digest[0] == q * partitions + PartitionId(digest, partitions)
    ensures partitions >= 256 ==> PartitionId(digest[0 := x], partitions) == x
  {
    var q: nat := digest[0] / partitions;
    assert digest[0] == q * partitions + PartitionId(digest, partitions);
    if partitions >= 256 {
      var d: Digest := digest[0 := x];
      assert d[0] % partitions == x;
    }
  }

  /** Level `depth` reads byte `1 + depth` and no other; after level 30 the digest is used up. */
  lemma DescentReadsItsByte(digest: Digest, depth: nat, j: nat, x: byte)
    requires j < 32
    ensures DescentByte(digest, depth).Some? <==> depth <= 30
    ensures depth <= 30 && j == 1 + depth ==> DescentByte(digest[j := x], depth) == Some(x)
    ensures j != 1 + depth ==> DescentByte(digest[j := x], depth) == DescentByte(digest, depth)
  {}

  /** With 256 partitions the partition and the 31 levels use all of a digest: nothing is read twice and
      nothing is left over. */
  lemma DigestIsUsedUp(a: Digest, b: Digest)
    requires PartitionId(a, 256) == PartitionId(b, 256)
    requires forall depth: nat :: depth <= 30 ==> DescentByte(a, depth) == DescentByte(b, depth)
    ensures a == b
  {
    forall i | 0 <= i < 32 ensures a[i] == b[i] {
      if i > 0 { assert DescentByte(a, i - 1) == DescentByte(b, i - 1); }
    }
  }

  /** The child slot of `key` at a depth that the digest still reaches. */
  function Slot(key: string, depth: nat): byte
    requires depth <= 30
  {
    DescentByte(Sha256(key), depth).value
  }
}
