/** The shape of the trie: how big its leaves get, when the digest runs out, and when building it in
    bulk gives the very tree that inserting one by one gives. */
module HamtShape {
  import opened Wrappers
  import opened Digests
  import opened Ordering
  import opened NodeCodec
  import opened HamtTree
  import opened HamtLaws

  // ----- Bulk construction

  ghost predicate DistinctKeys(entries: seq<LeafEntry>) {
    forall i, j :: 0 <= i < j < |entries| ==> entries[i].key != entries[j].key
  }

  function Build(entries: seq<LeafEntry>, depth: nat, leafMax: nat): Result<Tree, HamtError>
    decreases 32 - depth, 257
  {
    if |entries| <= leafMax then Success(Bucket(SortBy(KeyLe, entries)))
    else if depth > 30 then Failure(DepthExhausted(entries[0].key, depth))
    else
      match BuildSlots(entries, depth, leafMax, 0)
      case Failure(err) => Failure(err)
      case Success(children) => Success(Branch(children))
  }

  function BuildSlots(entries: seq<LeafEntry>, depth: nat, leafMax: nat, slot: nat): Result<seq<Tree>, HamtError>
    requires depth <= 30 && slot <= FANOUT
    decreases 32 - depth, FANOUT - slot
  {
    if slot == FANOUT then Success([])
    else
      var bucket := InBucket(entries, depth, slot);
      match if bucket == [] then Success(Absent) else Build(bucket, depth + 1, leafMax)
      case Failure(err) => Failure(err)
      case Success(child) =>
        match BuildSlots(entries, depth, leafMax, slot + 1)
        case Failure(err) => Failure(err)
        case Success(rest) => Success([child] + rest)
  }

  /** Duplicate keys collapse, the first occurrence winning. */
  function FirstOccurrences(entries: seq<LeafEntry>, seen: set<string>): seq<LeafEntry> {
    if entries == [] then []
    else if entries[0].key in seen then FirstOccurrences(entries[1..], seen)
    else [entries[0]] + FirstOccurrences(entries[1..], seen + {entries[0].key})
  }

  function BuildFromEntries(entries: seq<LeafEntry>, leafMax: nat): Result<Tree, HamtError> {
    Build(FirstOccurrences(entries, {}), 0, leafMax)
  }

  // ----- Shape of a tree

  /** No leaf is over-full. */
  ghost predicate Fits(t: Tree, leafMax: nat) {
    match t
    case Absent => true
    case Bucket(entries) => |entries| <= leafMax
    case Branch(children) => forall i :: 0 <= i < |children| ==> Fits(children[i], leafMax)
  }

  /** Every intermediate node holds more than a leaf could, and no slot holds an empty leaf. */
  ghost predicate Dense(t: Tree, leafMax: nat) {
    t.Branch? ==>
      && |Elems(t)| > leafMax
      && forall i :: 0 <= i < |t.children| ==> t.children[i] != Bucket([]) && Dense(t.children[i], leafMax)
  }

  /** A leaf at depth d holds at most `leafMax + d` entries. */
  ghost predicate LeafBound(t: Tree, depth: nat, leafMax: nat) {
    match t
    case Absent => true
    case Bucket(entries) => |entries| <= leafMax + depth
    case Branch(children) => forall i :: 0 <= i < |children| ==> LeafBound(children[i], depth + 1, leafMax)
  }

  lemma {:induction false} DistinctCount(entries: seq<LeafEntry>)
    requires DistinctKeys(entries)
    ensures |set e | e in entries| == |entries|
  {
    var all := set e | e in entries;
    if entries != [] {
      DistinctCount(entries[1..]);
      var rest := set e | e in entries[1..];
      assert all == rest + {entries[0]};
      assert entries[0] !in rest;
    } else {
      assert all == {};
    }
  }

  lemma StrictlySortedDistinct(entries: seq<LeafEntry>)
    requires StrictlySorted(KeyLe, entries)
    ensures DistinctKeys(entries)
  {
    forall i, j | 0 <= i < j < |entries| ensures entries[i].key != entries[j].key {
      LexLeTotal(entries[i].key, entries[j].key);
    }
  }

  lemma ElemsGrow(t: Tree, t': Tree)
    requires forall e :: e in Entries(t) ==> e in Entries(t')
    ensures |Elems(t)| <= |Elems(t')|
  {
    assert Elems(t) <= Elems(t');
    SubsetSize(Elems(t), Elems(t'));
  }

  lemma {:induction false} SubsetSize<T>(a: set<T>, b: set<T>)
    requires a <= b
    ensures |a| <= |b|
  {
    assert b == a + (b - a);
  }

  lemma {:induction false} InBucketCount(entries: seq<LeafEntry>, depth: nat, slot: int)
    requires depth <= 30
    ensures |InBucket(entries, depth, slot)| <= |entries|
  {
    if entries != [] { InBucketCount(entries[1..], depth, slot); }
  }

  /** Insertion keeps intermediates dense and leaves bounded, starting from a tree that is neither an
      empty leaf below the root nor too big. */
  lemma {:induction false} InsertKeepsShape(t: Tree, depth: nat, e: LeafEntry, leafMax: nat)
    requires WellFormed(t, depth) && Dense(t, leafMax) && LeafBound(t, depth, leafMax)
    requires Insert(t, depth, e, leafMax).Success?
    ensures var t' := Insert(t, depth, e, leafMax).value;
            Dense(t', leafMax) && LeafBound(t', depth, leafMax) && (t != Bucket([]) ==> t' != Bucket([]))
  {
    var t' := Insert(t, depth, e, leafMax).value;
    match t
    case Absent =>
      InsertIntoBucketKeepsShape([], depth, e, leafMax);
    case Bucket(entries) =>
      if FindKey(entries, e.key).None? {
        InsertIntoBucketKeepsShape(entries, depth, e, leafMax);
      }
    case Branch(children) =>
      InsertKeepsShape(children[Slot(e.key, depth)], depth + 1, e, leafMax);
      InsertSpec(t, depth, e, leafMax);
      ElemsGrow(t, t');
  }

  lemma InsertIntoBucketKeepsShape(entries: seq<LeafEntry>, depth: nat, e: LeafEntry, leafMax: nat)
    requires StrictlySorted(KeyLe, entries) && |entries| <= leafMax + depth
    requires forall x :: x in entries ==> x.key != e.key
    requires InsertIntoBucket(entries, depth, e, leafMax).Success?
    ensures var t' := InsertIntoBucket(entries, depth, e, leafMax).value;
            Dense(t', leafMax) && LeafBound(t', depth, leafMax) && t' != Bucket([])
  {
    var all := SortBy(KeyLe, entries + [e]);
    SortedWithNew(entries, e);
    if |all| > leafMax {
      SplitWellFormed(all, depth);
      var t' := Branch(Split(all, depth));
      StrictlySortedDistinct(all);
      DistinctCount(all);
      assert Elems(t') == set x | x in all;
      forall i | 0 <= i < FANOUT ensures LeafBound(t'.children[i], depth + 1, leafMax) {
        InBucketCount(all, depth, i);
      }
    }
  }

  // ----- Incremental equals bulk

  lemma {:induction false} InBucketDistinct(entries: seq<LeafEntry>, depth: nat, slot: int)
    requires depth <= 30 && DistinctKeys(entries)
    ensures DistinctKeys(InBucket(entries, depth, slot))
  {
    if entries != [] {
      InBucketDistinct(entries[1..], depth, slot);
      forall x | x in entries[1..] ensures x.key != entries[0].key {}
    }
  }

  lemma {:induction false} BuildIsCanonical(t: Tree, depth: nat, leafMax: nat, entries: seq<LeafEntry>)
    requires WellFormed(t, depth) && Dense(t, leafMax) && Fits(t, leafMax) && t != Absent
    requires DistinctKeys(entries) && forall e :: e in entries <==> e in Entries(t)
    ensures Build(entries, depth, leafMax) == Success(t)
    decreases t, 257
  {
    DistinctCount(entries);
    assert (set e | e in entries) == Elems(t);
    match t
    case Bucket(own) =>
      StrictlySortedDistinct(own);
      DistinctCount(own);
      KeyLeIsPreorder();
      forall i, j | 0 <= i < j < |entries| ensures !(KeyLe(entries[i], entries[j]) && KeyLe(entries[j], entries[i])) {
        LexLeTotal(entries[i].key, entries[j].key);
      }
      SortStrict(KeyLe, entries);
      StrictlySortedUnique(KeyLe, SortBy(KeyLe, entries), own);
    case Branch(children) =>
      BuildSlotsCanonical(t, depth, leafMax, entries, 0);
      assert children[0..] == children;
  }

  lemma {:induction false} BuildSlotsCanonical(t: Tree, depth: nat, leafMax: nat, entries: seq<LeafEntry>, slot: nat)
    requires WellFormed(t, depth) && Dense(t, leafMax) && Fits(t, leafMax) && t.Branch? && slot <= FANOUT
    requires DistinctKeys(entries) && forall e :: e in entries <==> e in Entries(t)
    ensures BuildSlots(entries, depth, leafMax, slot) == Success(t.children[slot..])
    decreases t, FANOUT - slot
  {
    hide InBucket, Build, Flatten, DistinctKeys;
    if slot < FANOUT {
      var child, bucket := t.children[slot], InBucket(entries, depth, slot);
      InBucketDistinct(entries, depth, slot);
      SlotEntries(t, depth, entries, slot);
      if bucket == [] {
        AbsentOrInhabited(child, leafMax);
      } else {
        assert bucket[0] in Entries(child);
        BuildIsCanonical(child, depth + 1, leafMax, bucket);
      }
      BuildSlotsCanonical(t, depth, leafMax, entries, slot + 1);
      assert t.children[slot..] == [child] + t.children[slot + 1..];
    }
  }

  lemma SlotEntries(t: Tree, depth: nat, entries: seq<LeafEntry>, slot: nat)
    requires WellFormed(t, depth) && t.Branch? && slot < FANOUT
    requires forall e :: e in entries <==> e in Entries(t)
    ensures forall e :: e in InBucket(entries, depth, slot) <==> e in Entries(t.children[slot])
  {
    forall e ensures e in InBucket(entries, depth, slot) <==> e in Entries(t.children[slot]) {
      FlattenMember(t.children, e);
    }
  }

  lemma AbsentOrInhabited(t: Tree, leafMax: nat)
    requires Dense(t, leafMax) && t != Bucket([])
    ensures t == Absent || exists e :: e in Entries(t)
  {
    match t
    case Absent =>
    case Bucket(entries) => assert entries[0] in Entries(t);
    case Branch(_) =>
      assert Elems(t) != {};
      var e :| e in Elems(t);
      assert e in Entries(t);
  }

  /** Bulk construction never leaves an over-full leaf. */
  lemma {:induction false} BuildFits(entries: seq<LeafEntry>, depth: nat, leafMax: nat)
    requires Build(entries, depth, leafMax).Success?
    ensures Fits(Build(entries, depth, leafMax).value, leafMax)
    decreases 32 - depth, 257
  {
    if |entries| <= leafMax {
      SameElements(entries, SortBy(KeyLe, entries));
    } else {
      BuildSlotsFit(entries, depth, leafMax, 0);
    }
  }

  ghost predicate AllFit(ts: seq<Tree>, leafMax: nat) {
    forall i :: 0 <= i < |ts| ==> Fits(ts[i], leafMax)
  }

  lemma {:induction false} BuildSlotsFit(entries: seq<LeafEntry>, depth: nat, leafMax: nat, slot: nat)
    requires depth <= 30 && slot <= FANOUT && BuildSlots(entries, depth, leafMax, slot).Success?
    ensures AllFit(BuildSlots(entries, depth, leafMax, slot).value, leafMax)
    decreases 32 - depth, FANOUT - slot
  {
    if slot < FANOUT {
      var bucket := InBucket(entries, depth, slot);
      if bucket != [] {
        BuildFits(bucket, depth + 1, leafMax);
      }
      BuildSlotsFit(entries, depth, leafMax, slot + 1);
      var child := if bucket == [] then Absent else Build(bucket, depth + 1, leafMax).value;
      AllFitCons(child, BuildSlots(entries, depth, leafMax, slot + 1).value, leafMax);
    }
  }

  lemma AllFitCons(t: Tree, ts: seq<Tree>, leafMax: nat)
    requires Fits(t, leafMax) && AllFit(ts, leafMax)
    ensures AllFit([t] + ts, leafMax)
  {}

  lemma {:induction false} FirstOccurrencesDistinct(entries: seq<LeafEntry>, seen: set<string>)
    ensures DistinctKeys(FirstOccurrences(entries, seen))
    ensures forall e :: e in FirstOccurrences(entries, seen) ==> e.key !in seen
  {
    if entries != [] {
      FirstOccurrencesDistinct(entries[1..], seen);
      FirstOccurrencesDistinct(entries[1..], seen + {entries[0].key});
    }
  }

  /** A tree grown entry by entry: its contents, and the bounds that hold however the entries fall. */
  lemma {:induction false} GrownTree(t: Tree, entries: seq<LeafEntry>, leafMax: nat)
    requires WellFormed(t, 0) && Dense(t, leafMax) && LeafBound(t, 0, leafMax)
    requires InsertAll(t, entries, {}, leafMax).Success?
    ensures var t' := InsertAll(t, entries, {}, leafMax).value;
            && WellFormed(t', 0) && Dense(t', leafMax) && LeafBound(t', 0, leafMax)
            && forall e :: e in Entries(t') <==> e in Entries(t) || e in FirstOccurrences(entries, Keys(t))
    decreases |entries|
  {
    if entries != [] {
      var e := entries[0];
      InsertSpec(t, 0, e, leafMax);
      InsertKeepsShape(t, 0, e, leafMax);
      var t1 := Insert(t, 0, e, leafMax).value;
      GrownTree(t1, entries[1..], leafMax);
      if !HasKey(t, e.key) {
        assert Keys(t1) == Keys(t) + {e.key} by {
          forall k ensures k in Keys(t1) <==> k in Keys(t) || k == e.key {
            if k in Keys(t) { var x :| x in Entries(t) && x.key == k; assert x in Entries(t1); }
            if k == e.key { assert e in Entries(t1); }
          }
        }
      }
    }
  }

  /** The two constructions agree, whatever the two orders and the repetitions, if and only if growing
      the tree entry by entry leaves no over-full leaf. */
  lemma IncrementalEqualsBulk(order: seq<LeafEntry>, other: seq<LeafEntry>, leafMax: nat)
    requires forall e :: e in FirstOccurrences(order, {}) <==> e in FirstOccurrences(other, {})
    requires InsertBatch(Absent, order, {}, leafMax).Success?
    ensures var t := InsertBatch(Absent, order, {}, leafMax).value;
            BuildFromEntries(other, leafMax) == Success(t) <==> Fits(t, leafMax)
  {
    GrownTree(Absent, order, leafMax);
    var t := InsertBatch(Absent, order, {}, leafMax).value;
    assert Keys(Absent) == {};
    FirstOccurrencesDistinct(other, {});
    if Fits(t, leafMax) {
      BuildIsCanonical(t, 0, leafMax, FirstOccurrences(other, {}));
    }
    if BuildFromEntries(other, leafMax) == Success(t) {
      BuildFits(FirstOccurrences(other, {}), 0, leafMax);
    }
  }

  // ----- When insertion respects the limit

  /** The key would go to a leaf that is full, and all of whose entries share the key's next descent
      byte: splitting by that byte leaves all of them, and the key, in one leaf. */
  predicate Crowded(t: Tree, depth: nat, key: string, leafMax: nat)
    requires WellFormed(t, depth)
  {
    match t
    case Absent => leafMax == 0
    case Bucket(entries) =>
      && FindKey(entries, key).None? && |entries| >= leafMax && depth <= 30
      && forall x :: x in entries ==> Slot(x.key, depth) == Slot(key, depth)
    case Branch(children) => Crowded(children[Slot(key, depth)], depth + 1, key, leafMax)
  }

  lemma {:induction false} InBucketFull(entries: seq<LeafEntry>, depth: nat, slot: int)
    requires depth <= 30
    ensures |InBucket(entries, depth, slot)| == |entries| <==> forall x :: x in entries ==> Slot(x.key, depth) == slot
  {
    if entries != [] {
      InBucketFull(entries[1..], depth, slot);
      InBucketCount(entries[1..], depth, slot);
      assert entries == [entries[0]] + entries[1..];
    }
  }

  lemma SplitFitsIff(all: seq<LeafEntry>, e: LeafEntry, depth: nat, leafMax: nat)
    requires depth <= 30 && e in all && |all| == leafMax + 1
    ensures Fits(Branch(Split(all, depth)), leafMax) <==> exists x :: x in all && Slot(x.key, depth) != Slot(e.key, depth)
  {
    var t := Branch(Split(all, depth));
    forall i | 0 <= i < FANOUT ensures Fits(t.children[i], leafMax) <==> |InBucket(all, depth, i)| != |all| {
      InBucketCount(all, depth, i);
    }
    forall i | 0 <= i < FANOUT
      ensures |InBucket(all, depth, i)| == |all| <==> forall x :: x in all ==> Slot(x.key, depth) == i
    {
      InBucketFull(all, depth, i);
    }
    var own := Slot(e.key, depth);
    assert Fits(t.children[own], leafMax) <==> |InBucket(all, depth, own)| != |all|;
  }

  /** An insertion into a tree without over-full leaves makes one exactly when the key's leaf is
      crowded. */
  lemma {:induction false} InsertFitsIffNotCrowded(t: Tree, depth: nat, e: LeafEntry, leafMax: nat)
    requires WellFormed(t, depth) && Fits(t, leafMax) && Insert(t, depth, e, leafMax).Success?
    ensures Fits(Insert(t, depth, e, leafMax).value, leafMax) <==> !Crowded(t, depth, e.key, leafMax)
  {
    match t
    case Absent => BucketFitsIffNotCrowded([], depth, e, leafMax);
    case Bucket(entries) =>
      if FindKey(entries, e.key).None? {
        BucketFitsIffNotCrowded(entries, depth, e, leafMax);
      }
    case Branch(children) =>
      var b := Slot(e.key, depth);
      InsertFitsIffNotCrowded(children[b], depth + 1, e, leafMax);
      var t' := Insert(t, depth, e, leafMax).value;
      assert t'.children[b] == Insert(children[b], depth + 1, e, leafMax).value;
      assert forall i :: 0 <= i < FANOUT && i != b ==> t'.children[i] == children[i];
  }

  lemma BucketFitsIffNotCrowded(entries: seq<LeafEntry>, depth: nat, e: LeafEntry, leafMax: nat)
    requires StrictlySorted(KeyLe, entries) && (forall x :: x in entries ==> x.key != e.key)
    requires |entries| <= leafMax && InsertIntoBucket(entries, depth, e, leafMax).Success?
    ensures Fits(InsertIntoBucket(entries, depth, e, leafMax).value, leafMax) <==>
            !(|entries| >= leafMax && depth <= 30 && forall x :: x in entries ==> Slot(x.key, depth) == Slot(e.key, depth))
  {
    SortedWithNew(entries, e);
    var all := SortBy(KeyLe, entries + [e]);
    hide SortBy, KeyLe, StrictlySorted;
    if |all| > leafMax {
      SplitFitsIff(all, e, depth, leafMax);
    }
  }

  /** No insertion of the batch meets a crowded leaf. */
  ghost predicate NeverCrowded(t: Tree, entries: seq<LeafEntry>, denied: set<string>, leafMax: nat)
    requires WellFormed(t, 0)
    decreases |entries|
  {
    entries == [] ||
      if entries[0].key in denied then NeverCrowded(t, entries[1..], denied, leafMax)
      else
        && !Crowded(t, 0, entries[0].key, leafMax)
        && (Insert(t, 0, entries[0], leafMax).Success? ==>
              (InsertSpec(t, 0, entries[0], leafMax);
               NeverCrowded(Insert(t, 0, entries[0], leafMax).value, entries[1..], denied, leafMax)))
  }

  /** The tree after the first `i` entries of a batch. */
  ghost predicate FitsAfter(t: Tree, entries: seq<LeafEntry>, denied: set<string>, leafMax: nat, i: nat)
    requires WellFormed(t, 0) && i <= |entries|
  {
    InsertAll(t, entries[..i], denied, leafMax).Success? && Fits(InsertAll(t, entries[..i], denied, leafMax).value, leafMax)
  }

  lemma AfterFirst(t: Tree, entries: seq<LeafEntry>, denied: set<string>, leafMax: nat, i: nat)
    requires WellFormed(t, 0) && 0 < i <= |entries|
    requires entries[0].key in denied || Insert(t, 0, entries[0], leafMax).Success?
    ensures entries[0].key in denied ==>
              (FitsAfter(t, entries, denied, leafMax, i) <==> FitsAfter(t, entries[1..], denied, leafMax, i - 1))
    ensures entries[0].key !in denied ==>
              var t' := Insert(t, 0, entries[0], leafMax).value;
              WellFormed(t', 0) && (FitsAfter(t, entries, denied, leafMax, i) <==> FitsAfter(t', entries[1..], denied, leafMax, i - 1))
  {
    hide Insert, WellFormed, Fits;
    if entries[0].key !in denied { InsertSpec(t, 0, entries[0], leafMax); }
    assert entries[..i][1..] == entries[1..][..i - 1] && entries[..i][0] == entries[0];
  }

  /** A batch keeps the limit at every point of the way exactly when it never meets a crowded leaf. */
  lemma {:induction false} FitsThroughoutIffNeverCrowded(t: Tree, entries: seq<LeafEntry>, denied: set<string>, leafMax: nat)
    requires WellFormed(t, 0) && Fits(t, leafMax) && InsertAll(t, entries, denied, leafMax).Success?
    ensures NeverCrowded(t, entries, denied, leafMax) <==> forall i :: 0 <= i <= |entries| ==> FitsAfter(t, entries, denied, leafMax, i)
    decreases |entries|
  {
    hide Insert, WellFormed, Crowded, FitsAfter;
    assert FitsAfter(t, entries, denied, leafMax, 0) by { FitsAtStart(t, entries, denied, leafMax); }
    if entries != [] {
      var rest := entries[1..];
      forall i | 0 < i <= |entries| {
        AfterFirst(t, entries, denied, leafMax, i);
      }
      if entries[0].key in denied {
        FitsThroughoutIffNeverCrowded(t, rest, denied, leafMax);
        SamePoints(t, entries, t, denied, leafMax);
      } else {
        InsertSpec(t, 0, entries[0], leafMax);
        var t' := Insert(t, 0, entries[0], leafMax).value;
        InsertFitsIffNotCrowded(t, 0, entries[0], leafMax);
        if Fits(t', leafMax) {
          FitsThroughoutIffNeverCrowded(t', rest, denied, leafMax);
          SamePoints(t, entries, t', denied, leafMax);
        } else {
          assert !FitsAfter(t', rest, denied, leafMax, 0) by { FitsAtStart(t', rest, denied, leafMax); }
          assert !FitsAfter(t, entries, denied, leafMax, 1);
        }
      }
    }
  }

  lemma SamePoints(t: Tree, entries: seq<LeafEntry>, t': Tree, denied: set<string>, leafMax: nat)
    requires WellFormed(t, 0) && WellFormed(t', 0) && entries != [] && FitsAfter(t, entries, denied, leafMax, 0)
    requires forall i :: 0 < i <= |entries| ==>
               (FitsAfter(t, entries, denied, leafMax, i) <==> FitsAfter(t', entries[1..], denied, leafMax, i - 1))
    ensures (forall i :: 0 <= i <= |entries| ==> FitsAfter(t, entries, denied, leafMax, i))
            <==> (forall i :: 0 <= i <= |entries[1..]| ==> FitsAfter(t', entries[1..], denied, leafMax, i))
  {
    hide FitsAfter, WellFormed;
    if forall i :: 0 <= i <= |entries| ==> FitsAfter(t, entries, denied, leafMax, i) {
      forall i | 0 <= i <= |entries[1..]| ensures FitsAfter(t', entries[1..], denied, leafMax, i) {
        assert FitsAfter(t, entries, denied, leafMax, i + 1);
        assert FitsAfter(t', entries[1..], denied, leafMax, i + 1 - 1);
      }
    }
  }

  lemma FitsAtStart(t: Tree, entries: seq<LeafEntry>, denied: set<string>, leafMax: nat)
    requires WellFormed(t, 0)
    ensures FitsAfter(t, entries, denied, leafMax, 0) <==> Fits(t, leafMax)
  {
    assert entries[..0] == [];
  }

  /** Growing a tree and building it in bulk agree at every point of the way, in whatever order the
      entries so far are given to the bulk construction, exactly when no crowded leaf is ever met. */
  lemma BulkThroughoutIffNeverCrowded(order: seq<LeafEntry>, leafMax: nat)
    requires InsertAll(Absent, order, {}, leafMax).Success?
    ensures NeverCrowded(Absent, order, {}, leafMax) <==>
            forall i :: 0 <= i <= |order| ==> AgreesWithBulk(order[..i], leafMax)
  {
    hide NeverCrowded, FitsAfter, AgreesWithBulk;
    FitsThroughoutIffNeverCrowded(Absent, order, {}, leafMax);
    forall i | 0 <= i <= |order| ensures FitsAfter(Absent, order, {}, leafMax, i) <==> AgreesWithBulk(order[..i], leafMax) {
      PrefixSucceeds(Absent, order, {}, leafMax, i);
      AgreesIffFits(order, leafMax, i);
    }
  }

  ghost predicate AgreesWithBulk(order: seq<LeafEntry>, leafMax: nat) {
    InsertBatch(Absent, order, {}, leafMax).Success? && BuildFromEntries(order, leafMax) == InsertBatch(Absent, order, {}, leafMax)
  }

  lemma AgreesIffFits(order: seq<LeafEntry>, leafMax: nat, i: nat)
    requires i <= |order| && InsertAll(Absent, order[..i], {}, leafMax).Success?
    ensures FitsAfter(Absent, order, {}, leafMax, i) <==> AgreesWithBulk(order[..i], leafMax)
  {
    hide InsertAll, BuildFromEntries;
    IncrementalEqualsBulk(order[..i], order[..i], leafMax);
  }

  lemma {:induction false} PrefixSucceeds(t: Tree, entries: seq<LeafEntry>, denied: set<string>, leafMax: nat, i: nat)
    requires WellFormed(t, 0) && i <= |entries| && InsertAll(t, entries, denied, leafMax).Success?
    ensures InsertAll(t, entries[..i], denied, leafMax).Success?
    decreases |entries|
  {
    hide Insert, WellFormed;
    if i > 0 {
      assert entries[..i][1..] == entries[1..][..i - 1] && entries[..i][0] == entries[0];
      if entries[0].key in denied {
        PrefixSucceeds(t, entries[1..], denied, leafMax, i - 1);
      } else {
        InsertSpec(t, 0, entries[0], leafMax);
        PrefixSucceeds(Insert(t, 0, entries[0], leafMax).value, entries[1..], denied, leafMax, i - 1);
      }
    }
  }

  /** A batch that never meets a crowded leaf gives the bulk-built tree of its entries, in any order. */
  lemma BulkIfNeverCrowded(order: seq<LeafEntry>, other: seq<LeafEntry>, leafMax: nat)
    requires forall e :: e in FirstOccurrences(order, {}) <==> e in FirstOccurrences(other, {})
    requires InsertBatch(Absent, order, {}, leafMax).Success? && NeverCrowded(Absent, order, {}, leafMax)
    ensures BuildFromEntries(other, leafMax) == InsertBatch(Absent, order, {}, leafMax)
  {
    FitsThroughoutIffNeverCrowded(Absent, order, {}, leafMax);
    assert FitsAfter(Absent, order, {}, leafMax, |order|);
    assert order[..|order|] == order;
    IncrementalEqualsBulk(order, other, leafMax);
  }

  // ----- Where the two constructions differ

  lemma InsertTwo(a: LeafEntry, b: LeafEntry)
    requires a.key != b.key
    ensures Insert(Absent, 0, a, 1) == Success(Bucket([a]))
    ensures Insert(Bucket([a]), 0, b, 1) == Success(Branch(Split(SortBy(KeyLe, [a] + [b]), 0)))
  {
    hide SortBy, Split, KeyLe;
    SortedWithNew([], a);
    var one := SortBy(KeyLe, [] + [a]);
    assert one[0] in one && one == [a];
    SortedWithNew([a], b);
    assert [a][1..] == [];
  }

  /** Two keys that share their first descent byte, one entry to a leaf: the split leaves both in one
      over-full leaf, which bulk construction would have split again. */
  lemma OverFullLeafExists(a: LeafEntry, b: LeafEntry)
    requires a.key != b.key && Slot(a.key, 0) == Slot(b.key, 0)
    ensures var t := InsertAll(Absent, [a, b], {}, 1);
            t.Success? && !Fits(t.value, 1) && BuildFromEntries([a, b], 1) != t
  {
    InsertTwo(a, b);
    SortedWithNew([a], b);
    var all := SortBy(KeyLe, [a] + [b]);
    var t := Branch(Split(all, 0));
    InsertSpec(Absent, 0, a, 1);
    InsertSpec(Bucket([a]), 0, b, 1);
    assert [a, b][1..] == [b] && [b][1..] == [];
    assert InsertAll(t, [], {}, 1) == Success(t);
    assert InsertAll(Bucket([a]), [b], {}, 1) == Success(t);
    assert InsertAll(Absent, [a, b], {}, 1) == Success(t);
    var leaf := InBucket(all, 0, Slot(a.key, 0));
    assert a in leaf && b in leaf;
    assert t.children[Slot(a.key, 0)] == Bucket(leaf);
    if BuildFromEntries([a, b], 1) == Success(t) {
      BuildFits(FirstOccurrences([a, b], {}), 0, 1);
    }
  }

  /** Such pairs exist whatever the digest function: 257 keys cannot have 257 first descent bytes. */
  lemma SomeKeysCollide(keys: seq<string>)
    requires |keys| == 257 && forall i, j :: 0 <= i < j < 257 ==> keys[i] != keys[j]
    ensures exists i, j :: 0 <= i < j < 257 && keys[i] != keys[j] && Slot(keys[i], 0) == Slot(keys[j], 0)
  {
    if forall i, j :: 0 <= i < j < 257 ==> Slot(keys[i], 0) != Slot(keys[j], 0) {
      DistinctFits(seq(257, i requires 0 <= i < 257 => Slot(keys[i], 0) as int), 256);
    }
  }

  lemma {:induction false} DistinctFits(s: seq<int>, bound: nat)
    requires forall i :: 0 <= i < |s| ==> 0 <= s[i] < bound
    requires forall i, j :: 0 <= i < j < |s| ==> s[i] != s[j]
    ensures |s| <= bound
  {
    if s != [] {
      assert 0 <= s[0] < bound;
      if i :| 0 <= i < |s| && s[i] == bound - 1 {
        DistinctFits(s[..i] + s[i + 1..], bound - 1);
      } else {
        DistinctFits(s, bound - 1);
      }
    }
  }

  // ----- When the digest runs out

  ghost predicate SamePath(a: string, b: string, depth: nat) {
    forall d :: depth <= d <= 30 ==> Slot(a, d) == Slot(b, d)
  }

  /** Insertion fails only with `DepthExhausted`, and only when at least `leafMax` other keys share
      every remaining descent byte of the new one. */
  lemma {:induction false} ExhaustedByTwins(t: Tree, depth: nat, e: LeafEntry, leafMax: nat) returns (twins: set<LeafEntry>)
    requires WellFormed(t, depth) && Insert(t, depth, e, leafMax).Failure?
    ensures Insert(t, depth, e, leafMax).error.DepthExhausted?
    ensures twins <= Elems(t) && |twins| >= leafMax
    ensures forall x :: x in twins ==> x.key != e.key && SamePath(x.key, e.key, depth)
  {
    match t
    case Absent =>
      SortedWithNew([], e);
      twins := {};
    case Bucket(entries) =>
      SortedWithNew(entries, e);
      StrictlySortedDistinct(entries);
      DistinctCount(entries);
      twins := Elems(t);
      assert twins == set x | x in entries;
    case Branch(children) =>
      var b := Slot(e.key, depth);
      twins := ExhaustedByTwins(children[b], depth + 1, e, leafMax);
      hide Insert;
      forall x | x in twins ensures x in Elems(t) && SamePath(x.key, e.key, depth) {
        FlattenMember(children, x);
        assert Slot(x.key, depth) == b;
      }
  }

  /** With 256 partitions, keys of one partition that share every descent byte have the same digest: only a
      SHA-256 collision exhausts the trie. */
  lemma TwinsCollide(a: string, b: string)
    requires PartitionId(Sha256(a), 256) == PartitionId(Sha256(b), 256) && SamePath(a, b, 0)
    ensures Sha256(a) == Sha256(b)
  {
    forall depth: nat | depth <= 30 ensures DescentByte(Sha256(a), depth) == DescentByte(Sha256(b), depth) {
      assert Slot(a, depth) == Slot(b, depth);
    }
    DigestIsUsedUp(Sha256(a), Sha256(b));
  }

  /** So an insertion into a partition of 256 fails only if at least `leafMax` other keys have the new
      key's digest. */
  lemma ExhaustedByCollision(t: Tree, e: LeafEntry, leafMax: nat) returns (twins: set<LeafEntry>)
    requires WellFormed(t, 0) && Insert(t, 0, e, leafMax).Failure?
    requires forall x :: x in Elems(t) ==> PartitionId(Sha256(x.key), 256) == PartitionId(Sha256(e.key), 256)
    ensures twins <= Elems(t) && |twins| >= leafMax
    ensures forall x :: x in twins ==> x.key != e.key && Sha256(x.key) == Sha256(e.key)
  {
    hide Insert, WellFormed, SamePath, Elems;
    twins := ExhaustedByTwins(t, 0, e, leafMax);
    forall x | x in twins ensures Sha256(x.key) == Sha256(e.key) {
      TwinsCollide(x.key, e.key);
    }
  }
}
