/** The trie over a blob store: lookup, path-copying insertion and bulk construction
    (`registry-core/src/hamt.rs`), each proved against the tree functions of `HamtTree`. */
module HamtStore {
  import opened Wrappers
  import opened Digests
  import opened Blobs
  import opened Ordering
  import opened NodeCodec
  import opened HamtTree
  import opened HamtLaws
  import opened HamtShape

  // ----- Trees in a store

  /** The node stored under `h`, when it is stored as this code writes nodes. */
  function NodeAt(blobs: map<Hash, Bytes>, h: Hash): Option<HamtNode> {
    if h in blobs && Decode(blobs[h], h).Success?
       && Encode(Decode(blobs[h], h).value) == blobs[h] && Blake3(blobs[h]) == h && h != ZeroHash()
    then Some(Decode(blobs[h], h).value)
    else None
  }

  /** The store holds every node of `t`, and `root` is its root. */
  ghost predicate Represents(blobs: map<Hash, Bytes>, root: Option<Hash>, t: Tree)
    decreases t
  {
    match t
    case Absent => root == None
    case Bucket(entries) => root.Some? && NodeAt(blobs, root.value) == Some(Leaf(entries))
    case Branch(children) =>
      && root.Some?
      && NodeAt(blobs, root.value).Some?
      && NodeAt(blobs, root.value).value.Intermediate?
      && |children| == FANOUT
      && forall i :: 0 <= i < FANOUT ==> Represents(blobs, NodeAt(blobs, root.value).value.slots[i], children[i])
  }

  lemma NodeAtGrows(before: map<Hash, Bytes>, after: map<Hash, Bytes>, h: Hash)
    requires Grows(before, after) && NodeAt(before, h).Some?
    ensures NodeAt(after, h) == NodeAt(before, h)
  {}

  lemma {:induction false} RepresentsGrows(before: map<Hash, Bytes>, after: map<Hash, Bytes>, root: Option<Hash>, t: Tree)
    requires Grows(before, after) && Represents(before, root, t)
    ensures Represents(after, root, t)
    decreases t
  {
    hide NodeAt;
    if root.Some? { NodeAtGrows(before, after, root.value); }
    if t.Branch? {
      forall i | 0 <= i < FANOUT ensures Represents(after, NodeAt(after, root.value).value.slots[i], t.children[i]) {
        RepresentsGrows(before, after, NodeAt(before, root.value).value.slots[i], t.children[i]);
      }
    }
  }

  /** A root denotes one tree. */
  lemma {:induction false} RepresentsUnique(blobs: map<Hash, Bytes>, root: Option<Hash>, t: Tree, u: Tree)
    requires Represents(blobs, root, t) && Represents(blobs, root, u)
    ensures t == u
    decreases t
  {
    hide NodeAt;
    if t.Branch? {
      forall i | 0 <= i < FANOUT ensures t.children[i] == u.children[i] {
        RepresentsUnique(blobs, NodeAt(blobs, root.value).value.slots[i], t.children[i], u.children[i]);
      }
      assert t.children == u.children;
    }
  }

  lemma SameNodeSameHash(a: map<Hash, Bytes>, b: map<Hash, Bytes>, r: Hash, s: Hash)
    requires NodeAt(a, r).Some? && NodeAt(a, r) == NodeAt(b, s)
    ensures r == s
  {}

  /** A tree has one root, whichever stores hold it: node hashes depend on content alone. */
  lemma {:induction false} RootIsCanonical(a: map<Hash, Bytes>, b: map<Hash, Bytes>, r: Option<Hash>, s: Option<Hash>, t: Tree)
    requires Represents(a, r, t) && Represents(b, s, t)
    ensures r == s
    decreases t
  {
    hide NodeAt;
    if t.Branch? {
      var m, n := NodeAt(a, r.value).value, NodeAt(b, s.value).value;
      forall i | 0 <= i < FANOUT ensures m.slots[i] == n.slots[i] {
        RootIsCanonical(a, b, m.slots[i], n.slots[i], t.children[i]);
      }
      assert m.slots == n.slots;
    }
    if t != Absent { SameNodeSameHash(a, b, r.value, s.value); }
  }

  // ----- Writing nodes

  method PutNode(store: BlobStore, n: HamtNode) returns (r: Result<Hash, HamtError>)
    requires EntrySerializer() && NoZeroChild(n)
    modifies store`blobs, store`clashed
    ensures Grows(old(store.blobs), store.blobs) && |store.blobs| <= |old(store.blobs)| + 1
    ensures r.Success? ==> NodeAt(store.blobs, r.value) == Some(n)
    ensures r.Success? ==> store.blobs == old(store.blobs)[r.value := Encode(n)] && r.value == Blake3(Encode(n))
    ensures r.Failure? ==> r.error.StoreError? && (store.reliable ==> store.clashed) && store.blobs == old(store.blobs)
  {
    var bytes := EncodeNode(n);
    var put := store.Put(bytes);
    if put.Failure? {
      return Failure(StoreError);
    }
    RoundTrip(n, put.value);
    MapGrowsByOne(old(store.blobs), put.value, bytes);
    return Success(put.value);
  }

  lemma MapGrowsByOne<K, V>(m: map<K, V>, k: K, v: V)
    ensures |m[k := v]| <= |m| + 1
  {
    if k in m {
      assert m[k := v].Keys == m.Keys;
    } else {
      assert m[k := v].Keys == m.Keys + {k};
    }
    assert |m[k := v]| == |m[k := v].Keys| && |m| == |m.Keys|;
  }

  /** Writing a node that is already stored changes nothing. */
  lemma RewriteIsNoOp(blobs: map<Hash, Bytes>, h: Hash, n: HamtNode)
    requires NodeAt(blobs, h) == Some(n)
    ensures Blake3(Encode(n)) == h && blobs[h := Encode(n)] == blobs
  {}

  /** What reading a node comes to, whatever bytes the store holds. */
  function ReadNode(blobs: map<Hash, Bytes>, h: Hash): Result<HamtNode, HamtError> {
    if h in blobs then Decode(blobs[h], h) else Failure(MissingNode(h))
  }

  lemma {:induction false} LinesFailure(lines: seq<Bytes>, h: Hash)
    requires ParseLines(lines, h).Failure?
    ensures ParseLines(lines, h).error == CorruptNode(h)
  {
    if lines[0] == [] || ParseEntry(lines[0]).Some? { LinesFailure(lines[1..], h); }
  }

  /** A read that fails says whether the node is absent or does not decode. */
  lemma ReadFailure(blobs: map<Hash, Bytes>, h: Hash)
    requires ReadNode(blobs, h).Failure?
    ensures ReadNode(blobs, h).error == if h in blobs then CorruptNode(h) else MissingNode(h)
  {
    if h in blobs && blobs[h] != [] && blobs[h][0] == TAG_LEAF { LinesFailure(SplitLines(blobs[h][1..]), h); }
  }

  method GetNode(store: BlobStore, h: Hash) returns (r: Result<HamtNode, HamtError>)
    ensures r == ReadNode(store.blobs, h) || (r == Failure(StoreError) && !store.reliable)
    ensures r.Success? ==> h in store.blobs && Decode(store.blobs[h], h) == r
    ensures r.Success? && NodeAt(store.blobs, h).Some? ==> NodeAt(store.blobs, h) == Some(r.value)
    ensures r.Failure? ==> (r.error.StoreError? && !store.reliable) || NodeAt(store.blobs, h) == None
  {
    var got := store.Get(h);
    if got.Failure? {
      return Failure(StoreError);
    }
    if got.value.None? {
      return Failure(MissingNode(h));
    }
    r := DecodeNode(got.value.value, h);
  }

  // ----- Lookup

  /** The nodes a key leads through: each but the last is stored and names the next one in the slot of the
      key's next digest byte. */
  ghost predicate LeadsThrough(blobs: map<Hash, Bytes>, key: string, chain: seq<Hash>) {
    && |chain| <= 32
    && forall i :: 0 <= i < |chain| - 1 ==> Leads(blobs, key, i, chain[i], chain[i + 1])
  }

  ghost predicate Leads(blobs: map<Hash, Bytes>, key: string, depth: nat, node: Hash, child: Hash) {
    match ReadNode(blobs, node)
    case Success(Intermediate(slots)) => depth <= 30 && slots[Slot(key, depth)] == Some(child)
    case _ => false
  }

  /** The first of the entries with the key. */
  ghost predicate IsFirstWith(entries: seq<LeafEntry>, key: string, i: nat) {
    i < |entries| && entries[i].key == key && forall j :: 0 <= j < i ==> entries[j].key != key
  }

  lemma {:induction false} FindKeyIsFirst(entries: seq<LeafEntry>, key: string)
    ensures FindKey(entries, key).None? <==> forall e :: e in entries ==> e.key != key
    ensures forall e :: FindKey(entries, key) == Some(e) <==> exists i: nat :: IsFirstWith(entries, key, i) && entries[i] == e
  {
    if entries != [] {
      var rest := entries[1..];
      FindKeyIsFirst(rest, key);
      if entries[0].key == key {
        assert IsFirstWith(entries, key, 0);
      } else {
        forall i: nat ensures IsFirstWith(rest, key, i) <==> IsFirstWith(entries, key, i + 1) {
          if IsFirstWith(rest, key, i) {
            forall j | 0 <= j < i + 1 ensures entries[j].key != key { if j > 0 { assert rest[j - 1].key != key; } }
          }
          if IsFirstWith(entries, key, i + 1) {
            forall j | 0 <= j < i ensures rest[j].key != key { assert entries[j + 1].key != key; }
          }
        }
        forall e ensures FindKey(entries, key) == Some(e) <==> exists i: nat :: IsFirstWith(entries, key, i) && entries[i] == e {
          if i: nat :| IsFirstWith(rest, key, i) && rest[i] == e { assert IsFirstWith(entries, key, i + 1); }
          if i: nat :| IsFirstWith(entries, key, i) && entries[i] == e { assert i > 0 && IsFirstWith(rest, key, i - 1); }
        }
      }
    }
  }

  /** What the node at the end of the chain says of the key, on any store contents: a leaf its first entry
      with the key, an intermediate node that there is none when the key's slot is empty, or that the digest
      is used up; and what cannot be read is named, as absent or as corrupt. */
  ghost predicate EndsIn(blobs: map<Hash, Bytes>, key: string, chain: seq<Hash>, r: Result<Option<LeafEntry>, HamtError>)
    requires chain != [] && |chain| <= 32
  {
    var last, depth := chain[|chain| - 1], |chain| - 1;
    match ReadNode(blobs, last)
    case Success(Leaf(entries)) =>
      r.Success? && if r.value.None? then forall e :: e in entries ==> e.key != key
                    else exists i: nat :: IsFirstWith(entries, key, i) && entries[i] == r.value.value
    case Success(Intermediate(slots)) =>
      if depth <= 30 then slots[Slot(key, depth)] == None && r == Success(None) else r == Failure(DepthExhausted(key, depth))
    case Failure(_) => r == Failure(if last in blobs then CorruptNode(last) else MissingNode(last))
  }

  lemma ChainExtends(blobs: map<Hash, Bytes>, key: string, chain: seq<Hash>, slots: Slots, child: Hash)
    requires chain != [] && LeadsThrough(blobs, key, chain) && |chain| < 32
    requires ReadNode(blobs, chain[|chain| - 1]) == Success(Intermediate(slots)) && slots[Slot(key, |chain| - 1)] == Some(child)
    ensures LeadsThrough(blobs, key, chain + [child])
  {
    hide ReadNode;
    var longer := chain + [child];
    forall i | 0 <= i < |longer| - 1 ensures Leads(blobs, key, i, longer[i], longer[i + 1]) {
      assert i < |chain| - 1 ==> Leads(blobs, key, i, chain[i], chain[i + 1]);
    }
  }

  lemma ChainStarts(blobs: map<Hash, Bytes>, key: string, root: Hash)
    ensures LeadsThrough(blobs, key, [root])
  {}

  // How the descent ends, on any store contents and in a stored tree.

  lemma EndsUnread(blobs: map<Hash, Bytes>, key: string, chain: seq<Hash>)
    requires chain != [] && |chain| <= 32 && ReadNode(blobs, chain[|chain| - 1]).Failure?
    ensures EndsIn(blobs, key, chain, Failure(ReadNode(blobs, chain[|chain| - 1]).error))
  {
    ReadFailure(blobs, chain[|chain| - 1]);
  }

  lemma EndsAtLeaf(blobs: map<Hash, Bytes>, key: string, chain: seq<Hash>, entries: seq<LeafEntry>)
    requires chain != [] && |chain| <= 32 && ReadNode(blobs, chain[|chain| - 1]) == Success(Leaf(entries))
    ensures EndsIn(blobs, key, chain, Success(FindKey(entries, key)))
  {
    hide ReadNode, FindKey;
    FindKeyIsFirst(entries, key);
  }

  lemma EndsAtBranch(blobs: map<Hash, Bytes>, key: string, chain: seq<Hash>, slots: Slots)
    requires chain != [] && |chain| <= 32 && ReadNode(blobs, chain[|chain| - 1]) == Success(Intermediate(slots))
    ensures |chain| == 32 ==> EndsIn(blobs, key, chain, Failure(DepthExhausted(key, 31)))
    ensures |chain| < 32 && slots[Slot(key, |chain| - 1)] == None ==> EndsIn(blobs, key, chain, Success(None))
  {
    hide ReadNode;
  }

  lemma StoredIsReadable(blobs: map<Hash, Bytes>, h: Hash, t: Tree)
    requires Represents(blobs, Some(h), t)
    ensures NodeAt(blobs, h).Some?
  {}

  lemma NoneAtAll(blobs: map<Hash, Bytes>, t: Tree, key: string)
    ensures Represents(blobs, None, t) && WellFormed(t, 0) ==> HamtTree.Lookup(t, 0, key) == None
  {}

  lemma NoneBelow(blobs: map<Hash, Bytes>, t: Tree, depth: nat, key: string)
    requires Represents(blobs, None, t) && WellFormed(t, depth)
    ensures HamtTree.Lookup(t, depth, key) == None
  {}

  lemma AtLeaf(blobs: map<Hash, Bytes>, h: Hash, t: Tree, depth: nat, key: string, entries: seq<LeafEntry>)
    requires Represents(blobs, Some(h), t) && WellFormed(t, depth) && NodeAt(blobs, h) == Some(Leaf(entries))
    ensures HamtTree.Lookup(t, depth, key) == FindKey(entries, key)
  {
    hide NodeAt;
  }

  lemma BelowBranch(blobs: map<Hash, Bytes>, h: Hash, t: Tree, depth: nat, key: string, slots: Slots)
    requires Represents(blobs, Some(h), t) && WellFormed(t, depth) && NodeAt(blobs, h) == Some(Intermediate(slots))
    ensures t.Branch? && depth <= 30 && |t.children| == FANOUT
    ensures var b := Slot(key, depth);
            && Represents(blobs, slots[b], t.children[b]) && WellFormed(t.children[b], depth + 1)
            && HamtTree.Lookup(t.children[b], depth + 1, key) == HamtTree.Lookup(t, depth, key)
  {
    hide NodeAt;
  }

  /** Resolves `key` from `root`, fetching at most 32 nodes. On any store contents it follows the key from the
      root and answers by the node at which it ends; only a read that fails by itself is another error.
      Where the store holds a well-formed tree `t`, it answers as the tree does. */
  method Lookup(store: BlobStore, root: Option<Hash>, key: string, ghost t: Tree)
    returns (r: Result<Option<LeafEntry>, HamtError>, ghost chain: seq<Hash>)
    ensures root.None? ==> r == Success(None)
    ensures root.Some? ==> chain != [] && chain[0] == root.value && LeadsThrough(store.blobs, key, chain)
    ensures root.Some? ==> EndsIn(store.blobs, key, chain, r) || (r == Failure(StoreError) && !store.reliable)
    ensures WellFormed(t, 0) && Represents(store.blobs, root, t) ==>
              if r.Success? then r.value == HamtTree.Lookup(t, 0, key) else r.error.StoreError? && !store.reliable
  {
    hide NodeAt, Encode, Decode, ReadNode, LeadsThrough, WellFormed, Represents, HamtTree.Lookup, EndsIn;
    chain := [];
    if root.None? {
      NoneAtAll(store.blobs, t, key);
      return Success(None), chain;
    }
    var nodeHash := root.value;
    var digest := Sha256(key);
    var depth: nat := 0;
    ghost var good := WellFormed(t, 0) && Represents(store.blobs, root, t);
    ghost var sub := t;
    chain := [nodeHash];
    ChainStarts(store.blobs, key, nodeHash);
    while true
      invariant |chain| == depth + 1 <= 32 && chain[0] == root.value && chain[depth] == nodeHash
      invariant LeadsThrough(store.blobs, key, chain)
      invariant good ==> WellFormed(sub, depth) && Represents(store.blobs, Some(nodeHash), sub)
      invariant good ==> HamtTree.Lookup(sub, depth, key) == HamtTree.Lookup(t, 0, key)
      decreases 32 - depth
    {
      if good { StoredIsReadable(store.blobs, nodeHash, sub); }
      var node := GetNode(store, nodeHash);
      match node {
        case Failure(err) =>
          if node == ReadNode(store.blobs, nodeHash) { EndsUnread(store.blobs, key, chain); }
          return Failure(err), chain;
        case Success(Leaf(entries)) =>
          if good { AtLeaf(store.blobs, nodeHash, sub, depth, key, entries); }
          EndsAtLeaf(store.blobs, key, chain, entries);
          return Success(FindKey(entries, key)), chain;
        case Success(Intermediate(slots)) =>
          match DescentByte(digest, depth) {
            case None =>
              if good { BelowBranch(store.blobs, nodeHash, sub, depth, key, slots); }
              EndsAtBranch(store.blobs, key, chain, slots);
              return Failure(DepthExhausted(key, depth)), chain;
            case Some(b) =>
              if good {
                BelowBranch(store.blobs, nodeHash, sub, depth, key, slots);
                sub := sub.children[b];
              }
              match slots[b] {
                case None =>
                  if good { NoneBelow(store.blobs, sub, depth + 1, key); }
                  EndsAtBranch(store.blobs, key, chain, slots);
                  return Success(None), chain;
                case Some(child) =>
                  ChainExtends(store.blobs, key, chain, slots, child);
                  chain := chain + [child];
                  nodeHash := child;
                  depth := depth + 1;
              }
          }
      }
    }
  }

  // ----- Redistribution of a leaf

  lemma {:induction false} InBucketAppend(entries: seq<LeafEntry>, e: LeafEntry, depth: nat, slot: int)
    requires depth <= 30
    ensures InBucket(entries + [e], depth, slot) ==
            InBucket(entries, depth, slot) + (if Slot(e.key, depth) == slot then [e] else [])
  {
    if entries == [] {
      assert entries + [e] == [e] && [e][1..] == [];
    } else {
      assert (entries + [e])[1..] == entries[1..] + [e];
      InBucketAppend(entries[1..], e, depth, slot);
    }
  }

  method Redistribute(entries: seq<LeafEntry>, depth: nat) returns (r: Result<seq<seq<LeafEntry>>, HamtError>)
    requires entries != []
    ensures r.Success? <==> depth <= 30
    ensures r.Success? ==> |r.value| == FANOUT && forall j :: 0 <= j < FANOUT ==> r.value[j] == InBucket(entries, depth, j)
    ensures r.Failure? ==> r.error == DepthExhausted(entries[0].key, depth)
  {
    var buckets: seq<seq<LeafEntry>> := seq(FANOUT, _ => []);
    for i := 0 to |entries|
      invariant i > 0 ==> depth <= 30
      invariant |buckets| == FANOUT
      invariant i == 0 ==> forall j :: 0 <= j < FANOUT ==> buckets[j] == []
      invariant depth <= 30 ==> forall j :: 0 <= j < FANOUT ==> buckets[j] == InBucket(entries[..i], depth, j)
    {
      match DescentByte(Sha256(entries[i].key), depth) {
        case None => return Failure(DepthExhausted(entries[i].key, depth));
        case Some(b) =>
          assert entries[..i + 1] == entries[..i] + [entries[i]];
          forall j | 0 <= j < FANOUT
            ensures InBucket(entries[..i + 1], depth, j) ==
                    InBucket(entries[..i], depth, j) + (if b == j then [entries[i]] else [])
          {
            InBucketAppend(entries[..i], entries[i], depth, j);
          }
          buckets := buckets[b := buckets[b] + [entries[i]]];
      }
    }
    assert entries[..|entries|] == entries;
    return Success(buckets);
  }

  // ----- Insertion

  /** The nodes an insertion may have to rewrite on its way down. */
  ghost function PathNodes(t: Tree, depth: nat, key: string): nat
    requires WellFormed(t, depth)
  {
    if t.Branch? then 1 + PathNodes(t.children[Slot(key, depth)], depth + 1, key) else 1
  }

  ghost predicate PrefixStored(blobs: map<Hash, Bytes>, slots: Slots, children: seq<Tree>) {
    && |children| <= FANOUT
    && forall i :: 0 <= i < |children| ==> Represents(blobs, slots[i], children[i]) && slots[i] != Some(ZeroHash())
  }

  lemma PrefixStoredGrows(before: map<Hash, Bytes>, after: map<Hash, Bytes>, slots: Slots, children: seq<Tree>)
    requires Grows(before, after) && PrefixStored(before, slots, children)
    ensures PrefixStored(after, slots, children)
  {
    forall i | 0 <= i < |children| ensures Represents(after, slots[i], children[i]) {
      RepresentsGrows(before, after, slots[i], children[i]);
    }
  }

  lemma PrefixNext(
    before: map<Hash, Bytes>, after: map<Hash, Bytes>, slots: Slots, children: seq<Tree>, root: Option<Hash>, child: Tree
  )
    requires Grows(before, after) && PrefixStored(before, slots, children) && |children| < FANOUT && Represents(after, root, child)
    ensures PrefixStored(after, slots[|children| := root], children + [child])
  {
    hide NodeAt, Represents;
    PrefixStoredGrows(before, after, slots, children);
    RepresentsNonZero(after, root, child);
  }

  lemma PrefixIsNode(before: map<Hash, Bytes>, after: map<Hash, Bytes>, slots: Slots, children: seq<Tree>, root: Hash)
    requires Grows(before, after) && PrefixStored(before, slots, children) && |children| == FANOUT
    ensures NoZeroChild(Intermediate(slots))
    ensures NodeAt(after, root) == Some(Intermediate(slots)) ==> Represents(after, Some(root), Branch(children))
  {
    hide NodeAt;
    PrefixStoredGrows(before, after, slots, children);
  }

  lemma NothingYet(blobs: map<Hash, Bytes>)
    ensures PrefixStored(blobs, EmptySlots(), []) && Represents(blobs, None, Absent)
  {}

  lemma LeafIsStored(blobs: map<Hash, Bytes>, root: Hash, entries: seq<LeafEntry>)
    requires NodeAt(blobs, root) == Some(Leaf(entries))
    ensures Represents(blobs, Some(root), Bucket(entries))
  {}

  /** Writes one leaf per non-empty bucket, then the intermediate node over them. */
  method PutSplit(store: BlobStore, buckets: seq<seq<LeafEntry>>) returns (r: Result<Hash, HamtError>)
    requires EntrySerializer() && |buckets| == FANOUT
    modifies store`blobs, store`clashed
    ensures Grows(old(store.blobs), store.blobs) && |store.blobs| <= |old(store.blobs)| + FANOUT + 1
    ensures r.Success? ==>
              Represents(store.blobs, Some(r.value), Branch(seq(FANOUT, i requires 0 <= i < FANOUT => BucketTree(buckets[i]))))
    ensures r.Failure? ==> r.error.StoreError? && (store.reliable ==> store.clashed)
  {
    hide NodeAt, Represents, PrefixStored, Encode, EntrySerializer, NoZeroChild;
    ghost var children: seq<Tree> := [];
    var slots := EmptySlots();
    NothingYet(store.blobs);
    for i := 0 to FANOUT
      invariant Grows(old(store.blobs), store.blobs) && |store.blobs| <= |old(store.blobs)| + i
      invariant |children| == i && PrefixStored(store.blobs, slots, children)
      invariant forall k :: 0 <= k < i ==> children[k] == BucketTree(buckets[k])
      invariant forall k :: i <= k < FANOUT ==> slots[k] == None
    {
      ghost var before := store.blobs;
      if buckets[i] == [] {
        NothingYet(before);
        PrefixNext(before, before, slots, children, None, Absent);
        assert slots[i := None] == slots;
        children := children + [Absent];
        continue;
      }
      LeafHasNoChild(buckets[i]);
      var put := PutNode(store, Leaf(buckets[i]));
      if put.Failure? {
        return Failure(put.error);
      }
      LeafIsStored(store.blobs, put.value, buckets[i]);
      PrefixNext(before, store.blobs, slots, children, Some(put.value), Bucket(buckets[i]));
      slots, children := slots[i := Some(put.value)], children + [Bucket(buckets[i])];
    }
    assert children == seq(FANOUT, i requires 0 <= i < FANOUT => BucketTree(buckets[i]));
    ghost var before := store.blobs;
    PrefixIsNode(before, before, slots, children, ZeroHash());
    r := PutNode(store, Intermediate(slots));
    if r.Success? {
      PrefixIsNode(before, store.blobs, slots, children, r.value);
    }
  }

  lemma LeafHasNoChild(entries: seq<LeafEntry>)
    ensures NoZeroChild(Leaf(entries))
  {}

  /** The leaf case of an insertion: the key is new to the leaf. */
  method PutLeafWith(store: BlobStore, entries: seq<LeafEntry>, depth: nat, entry: LeafEntry, leafMax: nat)
    returns (r: Result<Hash, HamtError>)
    requires EntrySerializer()
    requires StrictlySorted(KeyLe, entries) && forall x :: x in entries ==> x.key != entry.key
    modifies store`blobs, store`clashed
    ensures Grows(old(store.blobs), store.blobs) && |store.blobs| <= |old(store.blobs)| + FANOUT + 1
    ensures r.Success? ==> InsertIntoBucket(entries, depth, entry, leafMax).Success?
    ensures r.Success? ==> Represents(store.blobs, Some(r.value), InsertIntoBucket(entries, depth, entry, leafMax).value)
    ensures r.Failure? ==>
              || (r.error.StoreError? && (store.reliable ==> store.clashed))
              || (InsertIntoBucket(entries, depth, entry, leafMax).Failure?
                  && InsertIntoBucket(entries, depth, entry, leafMax).error == r.error)
  {
    hide NodeAt, Encode, Decode, SortBy, InBucket;
    var all := SortBy(KeyLe, entries + [entry]);
    SortedWithNew(entries, entry);
    if |all| <= leafMax {
      r := PutNode(store, Leaf(all));
      return;
    }
    var buckets := Redistribute(all, depth);
    if buckets.Failure? {
      return Failure(buckets.error);
    }
    r := PutSplit(store, buckets.value);
    assert seq(FANOUT, i requires 0 <= i < FANOUT => BucketTree(buckets.value[i])) == Split(all, depth);
  }

  lemma LeafEntries(t: Tree, entries: seq<LeafEntry>)
    requires t == Bucket(entries) || (t == Absent && entries == [])
    ensures forall key :: HasKey(t, key) <==> FindKey(entries, key).Some?
  {
    forall key ensures HasKey(t, key) <==> FindKey(entries, key).Some? {
      if x :| x in entries && x.key == key { assert x in Entries(t); }
    }
  }

  method InsertAt(
    store: BlobStore, nodeHash: Option<Hash>, depth: nat, digest: Digest, entry: LeafEntry, leafMax: nat, ghost t: Tree
  )
    returns (r: Result<Hash, HamtError>)
    requires EntrySerializer() && digest == Sha256(entry.key)
    requires WellFormed(t, depth) && Represents(store.blobs, nodeHash, t)
    modifies store`blobs, store`clashed
    ensures Grows(old(store.blobs), store.blobs)
    ensures r.Success? ==> Insert(t, depth, entry, leafMax).Success?
    ensures r.Success? ==> Represents(store.blobs, Some(r.value), Insert(t, depth, entry, leafMax).value)
    ensures r.Failure? ==>
              || (r.error.StoreError? && (store.reliable ==> store.clashed))
              || (Insert(t, depth, entry, leafMax).Failure? && Insert(t, depth, entry, leafMax).error == r.error)
    ensures |store.blobs| <= |old(store.blobs)| + PathNodes(t, depth, entry.key) + FANOUT
    ensures HasKey(t, entry.key) && r.Success? ==> Some(r.value) == nodeHash && store.blobs == old(store.blobs)
    decreases t
  {
    hide NodeAt, Encode, Decode, InsertIntoBucket, Entries, Flatten;
    var node := Leaf([]);
    if nodeHash.Some? {
      var got := GetNode(store, nodeHash.value);
      if got.Failure? {
        return Failure(got.error);
      }
      node := got.value;
    }
    match node
    case Leaf(entries) =>
      LeafEntries(t, entries);
      if FindKey(entries, entry.key).Some? {
        return Success(nodeHash.value);
      }
      r := PutLeafWith(store, entries, depth, entry, leafMax);
    case Intermediate(slots) =>
      var b := DescentByte(digest, depth);
      if b.None? {
        return Failure(DepthExhausted(entry.key, depth));
      }
      ghost var before := store.blobs;
      var newChild := InsertAt(store, slots[b.value], depth + 1, digest, entry, leafMax, t.children[b.value]);
      if newChild.Failure? {
        return Failure(newChild.error);
      }
      ghost var child' := Insert(t.children[b.value], depth + 1, entry, leafMax).value;
      ghost var middle := store.blobs;
      var slots' := slots[b.value := Some(newChild.value)];
      SlotsNonZero(before, slots, t.children);
      RepresentsNonZero(middle, Some(newChild.value), child');
      r := PutNode(store, Intermediate(slots'));
      if r.Success? {
        SlotReplaced(before, middle, slots, t.children, b.value, newChild.value, child');
        SlotsGrow(middle, store.blobs, slots', t.children[b.value := child']);
        if HasKey(t, entry.key) {
          PresentInChild(t, depth, entry.key);
          assert slots' == slots;
          RewriteIsNoOp(before, nodeHash.value, Intermediate(slots));
        }
      }
  }

  ghost predicate RepresentsAll(blobs: map<Hash, Bytes>, slots: Slots, children: seq<Tree>) {
    |children| == FANOUT && forall i :: 0 <= i < FANOUT ==> Represents(blobs, slots[i], children[i])
  }

  lemma SlotsGrow(before: map<Hash, Bytes>, after: map<Hash, Bytes>, slots: Slots, children: seq<Tree>)
    requires Grows(before, after) && RepresentsAll(before, slots, children)
    ensures RepresentsAll(after, slots, children)
  {
    forall i | 0 <= i < FANOUT ensures Represents(after, slots[i], children[i]) {
      RepresentsGrows(before, after, slots[i], children[i]);
    }
  }

  lemma SlotReplaced(
    before: map<Hash, Bytes>, after: map<Hash, Bytes>, slots: Slots, children: seq<Tree>, b: nat, root: Hash, child: Tree
  )
    requires Grows(before, after) && RepresentsAll(before, slots, children)
    requires b < FANOUT && Represents(after, Some(root), child)
    ensures RepresentsAll(after, slots[b := Some(root)], children[b := child])
  {
    SlotsGrow(before, after, slots, children);
  }

  lemma RepresentsNonZero(blobs: map<Hash, Bytes>, root: Option<Hash>, t: Tree)
    requires Represents(blobs, root, t)
    ensures root != Some(ZeroHash())
  {}

  lemma SlotsNonZero(blobs: map<Hash, Bytes>, slots: Slots, children: seq<Tree>)
    requires RepresentsAll(blobs, slots, children)
    ensures NoZeroChild(Intermediate(slots))
  {
    forall i | 0 <= i < FANOUT ensures slots[i] != Some(ZeroHash()) {
      RepresentsNonZero(blobs, slots[i], children[i]);
    }
  }

  lemma PresentInChild(t: Tree, depth: nat, key: string)
    requires WellFormed(t, depth) && t.Branch? && HasKey(t, key)
    ensures HasKey(t.children[Slot(key, depth)], key)
  {
    var e :| e in Entries(t) && e.key == key;
    FlattenMember(t.children, e);
  }

  /** Inserts a batch; the new root's tree is the old one's with the batch folded in, and the old
      root still denotes what it did. */
  method InsertBatch(
    store: BlobStore, root: Option<Hash>, entries: seq<LeafEntry>, leafMax: nat, denylist: set<string>, ghost t: Tree
  )
    returns (r: Result<Hash, HamtError>)
    requires EntrySerializer() && WellFormed(t, 0) && Represents(store.blobs, root, t)
    modifies store`blobs, store`clashed
    ensures Grows(old(store.blobs), store.blobs)
    ensures r.Success? ==> HamtLaws.InsertBatch(t, entries, denylist, leafMax).Success?
    ensures r.Success? ==> Represents(store.blobs, Some(r.value), HamtLaws.InsertBatch(t, entries, denylist, leafMax).value)
    ensures r.Failure? ==>
              || (r.error.StoreError? && (store.reliable ==> store.clashed))
              || (HamtLaws.InsertBatch(t, entries, denylist, leafMax) == Failure(r.error) && r.error.DepthExhausted?)
  {
    hide Insert, InsertAll, WellFormed, Represents, EntrySerializer;
    var current := root;
    ghost var sub := t;
    for i := 0 to |entries|
      invariant Grows(old(store.blobs), store.blobs)
      invariant WellFormed(sub, 0) && Represents(store.blobs, current, sub)
      invariant InsertAll(t, entries, denylist, leafMax) == InsertAll(sub, entries[i..], denylist, leafMax)
    {
      InsertAllFrom(sub, entries, i, denylist, leafMax);
      if entries[i].key in denylist {
        continue;
      }
      var inserted := InsertAt(store, current, 0, Sha256(entries[i].key), entries[i], leafMax, sub);
      if inserted.Failure? {
        if Insert(sub, 0, entries[i], leafMax).Failure? { var _ := ExhaustedByTwins(sub, 0, entries[i], leafMax); }
        return Failure(inserted.error);
      }
      sub := Insert(sub, 0, entries[i], leafMax).value;
      current := Some(inserted.value);
    }
    NothingMore(sub, entries, denylist, leafMax);
    RootOrNone(store.blobs, current, sub);
    if current.Some? {
      return Success(current.value);
    }
    r := PutNode(store, Leaf([]));
    if r.Success? {
      LeafIsStored(store.blobs, r.value, []);
    }
  }

  lemma InsertAllFrom(t: Tree, entries: seq<LeafEntry>, i: nat, denylist: set<string>, leafMax: nat)
    requires WellFormed(t, 0) && i < |entries|
    ensures var inserted := Insert(t, 0, entries[i], leafMax);
            && (inserted.Success? ==> WellFormed(inserted.value, 0))
            && InsertAll(t, entries[i..], denylist, leafMax) ==
                 if entries[i].key in denylist then InsertAll(t, entries[i + 1..], denylist, leafMax)
                 else if inserted.Failure? then Failure(inserted.error)
                 else InsertAll(inserted.value, entries[i + 1..], denylist, leafMax)
  {
    hide Insert, WellFormed;
    assert entries[i..][0] == entries[i] && entries[i..][1..] == entries[i + 1..];
    if Insert(t, 0, entries[i], leafMax).Success? { InsertSpec(t, 0, entries[i], leafMax); }
  }

  lemma NothingMore(t: Tree, entries: seq<LeafEntry>, denylist: set<string>, leafMax: nat)
    requires WellFormed(t, 0)
    ensures entries[0..] == entries && InsertAll(t, entries[|entries|..], denylist, leafMax) == Success(t)
  {}

  lemma RootOrNone(blobs: map<Hash, Bytes>, root: Option<Hash>, t: Tree)
    requires Represents(blobs, root, t)
    ensures t == Absent <==> root == None
  {}

  // ----- Bulk construction

  method BuildFromEntries(store: BlobStore, entries: seq<LeafEntry>, leafMax: nat) returns (r: Result<Hash, HamtError>)
    requires EntrySerializer()
    modifies store`blobs, store`clashed
    ensures Grows(old(store.blobs), store.blobs)
    ensures r.Success? ==> HamtShape.BuildFromEntries(entries, leafMax).Success?
    ensures r.Success? ==> Represents(store.blobs, Some(r.value), HamtShape.BuildFromEntries(entries, leafMax).value)
    ensures r.Failure? ==>
              || (r.error.StoreError? && (store.reliable ==> store.clashed))
              || (HamtShape.BuildFromEntries(entries, leafMax).Failure? && HamtShape.BuildFromEntries(entries, leafMax).error == r.error)
  {
    hide Build, Represents, EntrySerializer;
    var seen: set<string> := {};
    var unique: seq<LeafEntry> := [];
    for i := 0 to |entries|
      invariant FirstOccurrences(entries, {}) == unique + FirstOccurrences(entries[i..], seen)
    {
      assert entries[i..][0] == entries[i] && entries[i..][1..] == entries[i + 1..];
      var rest := FirstOccurrences(entries[i + 1..], seen + {entries[i].key});
      assert unique + [entries[i]] + rest == unique + ([entries[i]] + rest);
      if entries[i].key !in seen {
        seen := seen + {entries[i].key};
        unique := unique + [entries[i]];
      }
    }
    assert unique + [] == unique;
    r := BuildSubtree(store, unique, 0, leafMax);
  }

  method BuildSubtree(store: BlobStore, entries: seq<LeafEntry>, depth: nat, leafMax: nat) returns (r: Result<Hash, HamtError>)
    requires EntrySerializer()
    modifies store`blobs, store`clashed
    ensures Grows(old(store.blobs), store.blobs)
    ensures r.Success? ==> Build(entries, depth, leafMax).Success?
    ensures r.Success? ==> Represents(store.blobs, Some(r.value), Build(entries, depth, leafMax).value)
    ensures r.Failure? ==>
              || (r.error.StoreError? && (store.reliable ==> store.clashed))
              || (Build(entries, depth, leafMax).Failure? && Build(entries, depth, leafMax).error == r.error)
    decreases 32 - depth, 1
  {
    if |entries| <= leafMax {
      r := PutNode(store, Leaf(SortBy(KeyLe, entries)));
      return;
    }
    var buckets := Redistribute(entries, depth);
    if buckets.Failure? {
      return Failure(buckets.error);
    }
    r := PutSubtrees(store, entries, buckets.value, depth, leafMax);
  }

  /** `BuildSlots` split at some slot: `done` is the part before it, `rest` the result from it on. */
  ghost predicate SplitsAt(all: Result<seq<Tree>, HamtError>, done: seq<Tree>, rest: Result<seq<Tree>, HamtError>) {
    match rest
    case Failure(err) => all == Failure(err)
    case Success(children) => all == Success(done + children)
  }

  lemma SplitsAtNext(entries: seq<LeafEntry>, depth: nat, leafMax: nat, slot: nat, done: seq<Tree>)
    requires depth <= 30 && slot < FANOUT
    requires SplitsAt(BuildSlots(entries, depth, leafMax, 0), done, BuildSlots(entries, depth, leafMax, slot))
    ensures var bucket := InBucket(entries, depth, slot);
            var child := if bucket == [] then Success(Absent) else Build(bucket, depth + 1, leafMax);
            if child.Failure? then BuildSlots(entries, depth, leafMax, 0) == Failure(child.error)
            else SplitsAt(BuildSlots(entries, depth, leafMax, 0), done + [child.value], BuildSlots(entries, depth, leafMax, slot + 1))
  {
    var bucket := InBucket(entries, depth, slot);
    var child := if bucket == [] then Success(Absent) else Build(bucket, depth + 1, leafMax);
    var next := BuildSlots(entries, depth, leafMax, slot + 1);
    if child.Success? && next.Success? {
      assert done + [child.value] + next.value == done + ([child.value] + next.value);
    }
  }

  method PutSubtrees(store: BlobStore, entries: seq<LeafEntry>, buckets: seq<seq<LeafEntry>>, depth: nat, leafMax: nat)
    returns (r: Result<Hash, HamtError>)
    requires EntrySerializer() && depth <= 30 && |entries| > leafMax
    requires |buckets| == FANOUT && forall j :: 0 <= j < FANOUT ==> buckets[j] == InBucket(entries, depth, j)
    modifies store`blobs, store`clashed
    ensures Grows(old(store.blobs), store.blobs)
    ensures r.Success? ==> Build(entries, depth, leafMax).Success?
    ensures r.Success? ==> Represents(store.blobs, Some(r.value), Build(entries, depth, leafMax).value)
    ensures r.Failure? ==>
              || (r.error.StoreError? && (store.reliable ==> store.clashed))
              || (Build(entries, depth, leafMax).Failure? && Build(entries, depth, leafMax).error == r.error)
    decreases 32 - depth, 0
  {
    hide NodeAt, Encode, BuildSlots, InBucket, Represents, PrefixStored, EntrySerializer, NoZeroChild;
    var slots := EmptySlots();
    ghost var children: seq<Tree> := [];
    ghost var all := BuildSlots(entries, depth, leafMax, 0);
    if all.Success? { assert [] + all.value == all.value; }
    NothingYet(store.blobs);
    for i := 0 to FANOUT
      invariant Grows(old(store.blobs), store.blobs)
      invariant |children| == i && SplitsAt(all, children, BuildSlots(entries, depth, leafMax, i))
      invariant PrefixStored(store.blobs, slots, children)
      invariant forall k :: i <= k < FANOUT ==> slots[k] == None
    {
      ghost var before := store.blobs;
      SplitsAtNext(entries, depth, leafMax, i, children);
      if buckets[i] == [] {
        NothingYet(before);
        PrefixNext(before, before, slots, children, None, Absent);
        assert slots[i := None] == slots;
        children := children + [Absent];
        continue;
      }
      var child := BuildSubtree(store, buckets[i], depth + 1, leafMax);
      if child.Failure? {
        return Failure(child.error);
      }
      PrefixNext(before, store.blobs, slots, children, Some(child.value), Build(buckets[i], depth + 1, leafMax).value);
      children := children + [Build(buckets[i], depth + 1, leafMax).value];
      slots := slots[i := Some(child.value)];
    }
    SlotsComplete(entries, depth, leafMax, children);
    ghost var before := store.blobs;
    PrefixIsNode(before, before, slots, children, ZeroHash());
    r := PutNode(store, Intermediate(slots));
    if r.Success? {
      PrefixIsNode(before, store.blobs, slots, children, r.value);
    }
  }

  lemma SlotsComplete(entries: seq<LeafEntry>, depth: nat, leafMax: nat, children: seq<Tree>)
    requires depth <= 30 && |entries| > leafMax
    requires SplitsAt(BuildSlots(entries, depth, leafMax, 0), children, BuildSlots(entries, depth, leafMax, FANOUT))
    ensures Build(entries, depth, leafMax) == Success(Branch(children))
  {
    assert children + [] == children;
  }

  // ----- The two constructions, by root hash

  /** In one store, a root grown entry by entry and a root built in bulk from the same entries are the
      same hash if and only if the grown tree has no over-full leaf. */
  lemma SameRootIffNoOverFullLeaf(
    blobs: map<Hash, Bytes>, order: seq<LeafEntry>, other: seq<LeafEntry>, leafMax: nat, grown: Hash, bulk: Hash
  )
    requires forall e :: e in FirstOccurrences(order, {}) <==> e in FirstOccurrences(other, {})
    requires HamtLaws.InsertBatch(Absent, order, {}, leafMax).Success? && HamtShape.BuildFromEntries(other, leafMax).Success?
    requires Represents(blobs, Some(grown), HamtLaws.InsertBatch(Absent, order, {}, leafMax).value)
    requires Represents(blobs, Some(bulk), HamtShape.BuildFromEntries(other, leafMax).value)
    ensures grown == bulk <==> Fits(HamtLaws.InsertBatch(Absent, order, {}, leafMax).value, leafMax)
  {
    IncrementalEqualsBulk(order, other, leafMax);
    var t, u := HamtLaws.InsertBatch(Absent, order, {}, leafMax).value, HamtShape.BuildFromEntries(other, leafMax).value;
    if grown == bulk {
      RepresentsUnique(blobs, Some(grown), t, u);
    }
    if t == u {
      RootIsCanonical(blobs, blobs, Some(grown), Some(bulk), t);
    }
  }

  /** They are the same hash when no insertion met a crowded leaf. */
  lemma SameRootIfNeverCrowded(
    blobs: map<Hash, Bytes>, order: seq<LeafEntry>, other: seq<LeafEntry>, leafMax: nat, grown: Hash, bulk: Hash
  )
    requires forall e :: e in FirstOccurrences(order, {}) <==> e in FirstOccurrences(other, {})
    requires HamtLaws.InsertBatch(Absent, order, {}, leafMax).Success? && HamtShape.BuildFromEntries(other, leafMax).Success?
    requires Represents(blobs, Some(grown), HamtLaws.InsertBatch(Absent, order, {}, leafMax).value)
    requires Represents(blobs, Some(bulk), HamtShape.BuildFromEntries(other, leafMax).value)
    requires NeverCrowded(Absent, order, {}, leafMax)
    ensures grown == bulk
  {
    hide Represents, NeverCrowded, HamtLaws.InsertBatch, HamtShape.BuildFromEntries, FirstOccurrences;
    BulkIfNeverCrowded(order, other, leafMax);
    RootIsCanonical(blobs, blobs, Some(grown), Some(bulk), HamtShape.BuildFromEntries(other, leafMax).value);
  }
}
