/** What the trie is for: it is a finite map in which the first write of a key wins. */
module HamtLaws {
  import opened Wrappers
  import opened NodeCodec
  import opened HamtTree

  // ----- A first-write-wins map

  ghost function Keys(t: Tree): set<string> {
    set e | e in Entries(t) :: e.key
  }

  ghost function AsMap(t: Tree): map<string, LeafEntry>
    requires WellFormed(t, 0)
    ensures forall k :: k in AsMap(t) <==> HasKey(t, k)
    ensures forall k :: k in AsMap(t) ==> Lookup(t, 0, k) == Some(AsMap(t)[k])
  {
    assert forall k :: k in Keys(t) <==> HasKey(t, k);
    assert forall k :: k in Keys(t) ==> Lookup(t, 0, k).Some? by {
      forall k | k in Keys(t) ensures Lookup(t, 0, k).Some? { LookupFinds(t, 0, k); }
    }
    map k | k in Keys(t) :: Lookup(t, 0, k).value
  }

  /** The reference: a plain map that ignores denied keys and never overwrites. */
  function FirstWins(m: map<string, LeafEntry>, entries: seq<LeafEntry>, denied: set<string>): map<string, LeafEntry>
    decreases |entries|
  {
    if entries == [] then m
    else
      var e := entries[0];
      FirstWins(if e.key in denied || e.key in m then m else m[e.key := e], entries[1..], denied)
  }

  function InsertAll(t: Tree, entries: seq<LeafEntry>, denied: set<string>, leafMax: nat): Result<Tree, HamtError>
    requires WellFormed(t, 0)
    decreases |entries|
  {
    if entries == [] then Success(t)
    else if entries[0].key in denied then InsertAll(t, entries[1..], denied, leafMax)
    else
      match Insert(t, 0, entries[0], leafMax)
      case Failure(err) => Failure(err)
      case Success(t') =>
        InsertSpec(t, 0, entries[0], leafMax);
        InsertAll(t', entries[1..], denied, leafMax)
  }

  /** A batch that leaves the partition without a node stores an empty leaf for it. */
  function InsertBatch(t: Tree, entries: seq<LeafEntry>, denied: set<string>, leafMax: nat): Result<Tree, HamtError>
    requires WellFormed(t, 0)
  {
    match InsertAll(t, entries, denied, leafMax)
    case Failure(err) => Failure(err)
    case Success(t') => Success(if t'.Absent? then Bucket([]) else t')
  }

  lemma InsertRefinesMap(t: Tree, e: LeafEntry, leafMax: nat)
    requires WellFormed(t, 0) && Insert(t, 0, e, leafMax).Success?
    ensures var t' := Insert(t, 0, e, leafMax).value;
            WellFormed(t', 0) && AsMap(t') == if HasKey(t, e.key) then AsMap(t) else AsMap(t)[e.key := e]
  {
    hide Insert, WellFormed, Lookup, AsMap;
    InsertSpec(t, 0, e, leafMax);
    var t' := Insert(t, 0, e, leafMax).value;
    if !HasKey(t, e.key) {
      forall k ensures HasKey(t', k) <==> HasKey(t, k) || k == e.key {
        if HasKey(t, k) { var x :| x in Entries(t) && x.key == k; assert x in Entries(t'); }
        if k == e.key { assert e in Entries(t'); }
      }
      forall k | HasKey(t', k) ensures AsMap(t')[k] == AsMap(t)[e.key := e][k] {
        LookupFinds(t', 0, k);
        LookupFinds(t, 0, k);
        assert Lookup(t', 0, k) == Some(AsMap(t')[k]);
        if k != e.key { assert Lookup(t, 0, k) == Some(AsMap(t)[k]); }
      }
    }
  }

  /** A batch of insertions does to the tree what the reference does to its map. */
  lemma {:induction false} BatchRefinesMap(t: Tree, entries: seq<LeafEntry>, denied: set<string>, leafMax: nat)
    requires WellFormed(t, 0) && InsertAll(t, entries, denied, leafMax).Success?
    ensures var t' := InsertAll(t, entries, denied, leafMax).value;
            && WellFormed(t', 0)
            && AsMap(t') == FirstWins(AsMap(t), entries, denied)
    decreases |entries|
  {
    if entries != [] {
      if entries[0].key in denied {
        BatchRefinesMap(t, entries[1..], denied, leafMax);
      } else {
        InsertRefinesMap(t, entries[0], leafMax);
        BatchRefinesMap(Insert(t, 0, entries[0], leafMax).value, entries[1..], denied, leafMax);
      }
    }
  }

  /** What a batch adds and keeps, entry by entry. */
  lemma {:induction false} BatchEntries(t: Tree, entries: seq<LeafEntry>, denied: set<string>, leafMax: nat)
    requires WellFormed(t, 0) && InsertAll(t, entries, denied, leafMax).Success?
    ensures var t' := InsertAll(t, entries, denied, leafMax).value;
            && WellFormed(t', 0)
            && (forall x :: x in Entries(t) ==> x in Entries(t'))
            && (forall x :: x in Entries(t') ==> x in Entries(t) || (x in entries && x.key !in denied))
            && (forall x :: x in entries && x.key !in denied ==> HasKey(t', x.key))
            && (t' == Absent ==> forall x :: x in entries ==> x.key in denied)
    decreases |entries|
  {
    if entries != [] {
      var e := entries[0];
      if e.key in denied {
        BatchEntries(t, entries[1..], denied, leafMax);
      } else {
        InsertSpec(t, 0, e, leafMax);
        var t1 := Insert(t, 0, e, leafMax).value;
        BatchEntries(t1, entries[1..], denied, leafMax);
        assert HasKey(t1, e.key) by {
          if !HasKey(t, e.key) { assert e in Entries(t1); }
        }
      }
    }
  }
}
