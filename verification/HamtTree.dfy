/** The trie as a value: what `registry-core/src/hamt.rs` computes once the blob store is taken away.

    The store-level code in `HamtStore` is proved against these functions, and the laws the trie is
    for are proved here about them. */
module HamtTree {
  import opened Wrappers
  import opened Digests
  import opened Ordering
  import opened NodeCodec

  datatype Tree =
    | Absent                               // no node: an unused slot, or a partition never built
    | Bucket(entries: seq<LeafEntry>)
    | Branch(children: seq<Tree>)

  predicate KeyLe(a: LeafEntry, b: LeafEntry) {
    LexLe(a.key, b.key)
  }

  lemma KeyLeIsPreorder()
    ensures TotalPreorder(KeyLe)
  {
    forall a, b ensures KeyLe(a, b) || KeyLe(b, a) { LexLeTotal(a.key, b.key); }
    forall a, b, c | KeyLe(a, b) && KeyLe(b, c) ensures KeyLe(a, c) {
      LexLeTransitive(a.key, b.key, c.key);
    }
  }

  /** The entries in traversal order. */
  function Entries(t: Tree): seq<LeafEntry>
    decreases t, 0
  {
    match t
    case Absent => []
    case Bucket(entries) => entries
    case Branch(children) => Flatten(children)
  }

  function Flatten(ts: seq<Tree>): seq<LeafEntry>
    decreases ts, 1
  {
    if ts == [] then [] else Entries(ts[0]) + Flatten(ts[1..])
  }

  ghost function Elems(t: Tree): set<LeafEntry> {
    set e | e in Entries(t)
  }

  lemma {:induction false} FlattenMember(ts: seq<Tree>, e: LeafEntry)
    ensures e in Flatten(ts) <==> exists i :: 0 <= i < |ts| && e in Entries(ts[i])
  {
    if ts != [] {
      FlattenMember(ts[1..], e);
      if i :| 0 <= i < |ts| && e in Entries(ts[i]) {
        assert i == 0 || ts[i] == ts[1..][i - 1];
      }
      if i :| 0 <= i < |ts[1..]| && e in Entries(ts[1..][i]) {
        assert e in Entries(ts[i + 1]);
      }
    }
  }

  ghost predicate InSlot(t: Tree, depth: nat, slot: int)
    requires depth <= 30
  {
    forall e :: e in Entries(t) ==> Slot(e.key, depth) == slot
  }

  /** Leaves are sorted by key without repeats, and every entry sits where its digest sends it. */
  ghost predicate WellFormed(t: Tree, depth: nat) {
    match t
    case Absent => true
    case Bucket(entries) => StrictlySorted(KeyLe, entries)
    case Branch(children) =>
      && depth <= 30
      && |children| == FANOUT
      && forall i :: 0 <= i < FANOUT ==> WellFormed(children[i], depth + 1) && InSlot(children[i], depth, i)
  }

  /** A leaf's keys ascend. */
  lemma LeafAscends(entries: seq<LeafEntry>, depth: nat, i: nat, j: nat)
    requires WellFormed(Bucket(entries), depth) && i < j < |entries|
    ensures LexLe(entries[i].key, entries[j].key) && entries[i].key != entries[j].key
  {
    LexLeTotal(entries[i].key, entries[j].key);
  }

  ghost predicate HasKey(t: Tree, key: string) {
    exists e :: e in Entries(t) && e.key == key
  }

  // ----- Lookup

  function FindKey(entries: seq<LeafEntry>, key: string): (r: Option<LeafEntry>)
    ensures r.Some? ==> r.value in entries && r.value.key == key
    ensures r.None? ==> forall e :: e in entries ==> e.key != key
  {
    if entries == [] then None
    else if entries[0].key == key then Some(entries[0])
    else FindKey(entries[1..], key)
  }

  function Lookup(t: Tree, depth: nat, key: string): Option<LeafEntry>
    requires WellFormed(t, depth)
  {
    match t
    case Absent => None
    case Bucket(entries) => FindKey(entries, key)
    case Branch(children) => Lookup(children[Slot(key, depth)], depth + 1, key)
  }

  lemma {:induction false} KeysDistinct(t: Tree, depth: nat, x: LeafEntry, y: LeafEntry)
    requires WellFormed(t, depth) && x in Entries(t) && y in Entries(t) && x.key == y.key
    ensures x == y
  {
    match t
    case Bucket(entries) =>
      LexLeTotal(x.key, x.key);
    case Branch(children) =>
      FlattenMember(children, x);
      FlattenMember(children, y);
      var i :| 0 <= i < FANOUT && x in Entries(children[i]);
      var j :| 0 <= j < FANOUT && y in Entries(children[j]);
      assert i == Slot(x.key, depth) == j;
      KeysDistinct(children[i], depth + 1, x, y);
  }

  /** In a well-formed tree, lookup finds exactly the entries the tree holds. */
  lemma {:induction false} LookupFinds(t: Tree, depth: nat, key: string)
    requires WellFormed(t, depth)
    ensures Lookup(t, depth, key).None? <==> !HasKey(t, key)
    ensures forall e :: Lookup(t, depth, key) == Some(e) <==> e in Entries(t) && e.key == key
  {
    match t
    case Absent =>
    case Bucket(entries) =>
      forall e | e in Entries(t) && e.key == key ensures Lookup(t, depth, key) == Some(e) {
        KeysDistinct(t, depth, e, FindKey(entries, key).value);
      }
    case Branch(children) =>
      var b := Slot(key, depth);
      LookupFinds(children[b], depth + 1, key);
      forall e: LeafEntry | e.key == key ensures e in Entries(t) <==> e in Entries(children[b]) {
        FlattenMember(children, e);
      }
  }

  // ----- Insertion

  function InBucket(entries: seq<LeafEntry>, depth: nat, slot: int): (r: seq<LeafEntry>)
    requires depth <= 30
    ensures forall e :: e in r <==> e in entries && Slot(e.key, depth) == slot
  {
    if entries == [] then []
    else if Slot(entries[0].key, depth) == slot then [entries[0]] + InBucket(entries[1..], depth, slot)
    else InBucket(entries[1..], depth, slot)
  }

  function BucketTree(entries: seq<LeafEntry>): Tree {
    if entries == [] then Absent else Bucket(entries)
  }

  /** One level of redistribution: every child of the result is a leaf, whatever its size. */
  function Split(entries: seq<LeafEntry>, depth: nat): (children: seq<Tree>)
    requires depth <= 30
    ensures |children| == FANOUT
  {
    seq(FANOUT, i requires 0 <= i < FANOUT => BucketTree(InBucket(entries, depth, i)))
  }

  function InsertIntoBucket(entries: seq<LeafEntry>, depth: nat, e: LeafEntry, leafMax: nat): Result<Tree, HamtError> {
    var all := SortBy(KeyLe, entries + [e]);
    if |all| <= leafMax then Success(Bucket(all))
    else if DescentByte(Sha256(e.key), depth).None? then Failure(DepthExhausted(all[0].key, depth))
    else Success(Branch(Split(all, depth)))
  }

  /** First write wins: a key already present leaves the tree as it is. */
  function Insert(t: Tree, depth: nat, e: LeafEntry, leafMax: nat): Result<Tree, HamtError>
    requires WellFormed(t, depth)
  {
    match t
    case Absent => InsertIntoBucket([], depth, e, leafMax)
    case Bucket(entries) =>
      if FindKey(entries, e.key).Some? then Success(t) else InsertIntoBucket(entries, depth, e, leafMax)
    case Branch(children) =>
      var b := Slot(e.key, depth);
      match Insert(children[b], depth + 1, e, leafMax)
      case Failure(err) => Failure(err)
      case Success(child) => Success(Branch(children[b := child]))
  }

  lemma {:induction false} InBucketSorted(entries: seq<LeafEntry>, depth: nat, slot: int)
    requires depth <= 30 && StrictlySorted(KeyLe, entries)
    ensures StrictlySorted(KeyLe, InBucket(entries, depth, slot))
  {
    if entries != [] {
      InBucketSorted(entries[1..], depth, slot);
      if Slot(entries[0].key, depth) == slot {
        forall y | y in InBucket(entries[1..], depth, slot) ensures KeyLe(entries[0], y) && !KeyLe(y, entries[0]) {
          assert y in entries[1..];
        }
        PrependStrict(KeyLe, entries[0], InBucket(entries[1..], depth, slot));
      }
    }
  }

  lemma SplitWellFormed(entries: seq<LeafEntry>, depth: nat)
    requires depth <= 30 && StrictlySorted(KeyLe, entries)
    ensures WellFormed(Branch(Split(entries, depth)), depth)
    ensures forall e :: e in Entries(Branch(Split(entries, depth))) <==> e in entries
  {
    var children := Split(entries, depth);
    forall i | 0 <= i < FANOUT ensures WellFormed(children[i], depth + 1) && InSlot(children[i], depth, i) {
      InBucketSorted(entries, depth, i);
    }
    forall e ensures e in Flatten(children) <==> e in entries {
      FlattenMember(children, e);
      if e in entries { assert e in Entries(children[Slot(e.key, depth)]); }
    }
  }

  lemma SortedWithNew(entries: seq<LeafEntry>, e: LeafEntry)
    requires StrictlySorted(KeyLe, entries) && forall x :: x in entries ==> x.key != e.key
    ensures StrictlySorted(KeyLe, SortBy(KeyLe, entries + [e]))
    ensures |SortBy(KeyLe, entries + [e])| == |entries| + 1
    ensures forall x :: x in SortBy(KeyLe, entries + [e]) <==> x in entries || x == e
  {
    KeyLeIsPreorder();
    var all := entries + [e];
    forall i, j | 0 <= i < j < |all| ensures !(KeyLe(all[i], all[j]) && KeyLe(all[j], all[i])) {
      if j == |entries| { assert all[i] in entries; LexLeTotal(all[i].key, e.key); }
    }
    SortStrict(KeyLe, all);
  }

  /** What insertion does to a well-formed tree: it stays well-formed, and holds what it held plus
      the entry, unless the key was there already. */
  lemma {:induction false} InsertSpec(t: Tree, depth: nat, e: LeafEntry, leafMax: nat)
    requires WellFormed(t, depth)
    requires Insert(t, depth, e, leafMax).Success?
    ensures var t' := Insert(t, depth, e, leafMax).value;
            && t' != Absent
            && WellFormed(t', depth)
            && (HasKey(t, e.key) ==> t' == t)
            && forall x :: x in Entries(t') <==> x in Entries(t) || (x == e && !HasKey(t, e.key))
  {
    match t
    case Absent =>
      InsertIntoBucketSpec([], depth, e, leafMax);
    case Bucket(entries) =>
      if FindKey(entries, e.key).None? {
        InsertIntoBucketSpec(entries, depth, e, leafMax);
      }
    case Branch(children) =>
      var b := Slot(e.key, depth);
      InsertSpec(children[b], depth + 1, e, leafMax);
      var t' := Insert(t, depth, e, leafMax).value;
      forall x: LeafEntry | x.key == e.key ensures x in Entries(t) <==> x in Entries(children[b]) {
        FlattenMember(children, x);
      }
      forall x ensures x in Entries(t') <==> x in Entries(t) || (x == e && !HasKey(t, e.key)) {
        FlattenMember(children, x);
        FlattenMember(t'.children, x);
        if i :| 0 <= i < FANOUT && x in Entries(children[i]) { assert x in Entries(t'.children[i]); }
        if x == e && !HasKey(t, e.key) { assert x in Entries(t'.children[b]); }
      }
      if HasKey(t, e.key) { assert HasKey(children[b], e.key); assert t'.children == children; }
  }

  lemma InsertIntoBucketSpec(entries: seq<LeafEntry>, depth: nat, e: LeafEntry, leafMax: nat)
    requires StrictlySorted(KeyLe, entries) && forall x :: x in entries ==> x.key != e.key
    requires InsertIntoBucket(entries, depth, e, leafMax).Success?
    ensures var t' := InsertIntoBucket(entries, depth, e, leafMax).value;
            && t' != Absent
            && WellFormed(t', depth)
            && forall x :: x in Entries(t') <==> x in entries || x == e
  {
    SortedWithNew(entries, e);
    if depth <= 30 {
      SplitWellFormed(SortBy(KeyLe, entries + [e]), depth);
    }
  }
}
