/** Walking a stored trie: serially, in parallel under a deadline, and to collect what a sweep must
    keep (`registry-core/src/hamt.rs`). */
module HamtWalk {
  import opened Wrappers
  import opened Digests
  import opened Blobs
  import opened Ordering
  import opened NodeCodec
  import opened HamtTree
  import opened HamtStore

  // ----- Serial walk

  /** Appends the tree's entries to `out` in traversal order. */
  method WalkEntries(store: BlobStore, root: Hash, out: seq<LeafEntry>, ghost t: Tree)
    returns (r: Result<(), HamtError>, all: seq<LeafEntry>)
    requires Represents(store.blobs, Some(root), t)
    ensures r.Success? ==> all == out + Entries(t)
    ensures r.Failure? ==> r.error.StoreError? && !store.reliable && out <= all
    decreases t
  {
    hide NodeAt, Encode, Decode;
    var node := GetNode(store, root);
    match node
    case Failure(err) => return Failure(err), out;
    case Success(Leaf(entries)) => return Success(()), out + entries;
    case Success(Intermediate(slots)) =>
      all := out;
      assert t.children[..0] == [];
      for i := 0 to FANOUT
        invariant all == out + Flatten(t.children[..i])
      {
        assert t.children[..i + 1] == t.children[..i] + [t.children[i]];
        FlattenAppend(t.children[..i], t.children[i]);
        if slots[i].Some? {
          r, all := WalkEntries(store, slots[i].value, all, t.children[i]);
          if r.Failure? {
            return;
          }
        }
      }
      assert t.children[..FANOUT] == t.children;
      return Success(()), all;
  }

  lemma {:induction false} FlattenAppend(ts: seq<Tree>, t: Tree)
    ensures Flatten(ts + [t]) == Flatten(ts) + Entries(t)
  {
    if ts == [] {
      assert ts + [t] == [t] && [t][1..] == [];
      assert Entries(t) + [] == Entries(t);
    } else {
      assert (ts + [t])[1..] == ts[1..] + [t];
      FlattenAppend(ts[1..], t);
    }
  }

  // ----- What a sweep must keep

  /** The hashes a node refers to: its children, or the values of its entries. */
  ghost function Refs(n: HamtNode): set<Hash> {
    match n
    case Leaf(entries) => set e | e in entries :: e.hash
    case Intermediate(slots) => set s | s in slots && s.Some? :: s.value
  }

  /** Every node of the tree, and every value its entries point at. */
  ghost function Reach(blobs: map<Hash, Bytes>, root: Option<Hash>, t: Tree): set<Hash>
    requires Represents(blobs, root, t)
    decreases t
  {
    match t
    case Absent => {}
    case Bucket(entries) => {root.value} + set e | e in entries :: e.hash
    case Branch(children) =>
      var slots := NodeAt(blobs, root.value).value.slots;
      {root.value} + set i, h | 0 <= i < FANOUT && h in Reach(blobs, slots[i], children[i]) :: h
  }

  /** Whatever is marked has everything it refers to marked, except the nodes still being visited. */
  ghost predicate Closed(blobs: map<Hash, Bytes>, live: set<Hash>, visiting: set<Hash>) {
    forall h :: h in live && h !in visiting && NodeAt(blobs, h).Some? ==> Refs(NodeAt(blobs, h).value) <= live
  }

  ghost predicate NoNodes(blobs: map<Hash, Bytes>, hashes: set<Hash>) {
    forall h :: h in hashes ==> NodeAt(blobs, h) == None
  }

  ghost function Values(t: Tree): set<Hash> {
    set e | e in Entries(t) :: e.hash
  }

  lemma {:induction false} ClosedReaches(blobs: map<Hash, Bytes>, live: set<Hash>, root: Option<Hash>, t: Tree)
    requires Represents(blobs, root, t) && Closed(blobs, live, {})
    requires root.Some? ==> root.value in live
    ensures Reach(blobs, root, t) <= live
    decreases t
  {
    hide NodeAt;
    if t.Branch? {
      var slots := NodeAt(blobs, root.value).value.slots;
      assert Refs(NodeAt(blobs, root.value).value) <= live;
      forall i | 0 <= i < FANOUT ensures Reach(blobs, slots[i], t.children[i]) <= live {
        if slots[i].Some? { assert slots[i] in slots; assert slots[i].value in Refs(Intermediate(slots)); }
        ClosedReaches(blobs, live, slots[i], t.children[i]);
      }
    } else if t.Bucket? {
      assert Refs(NodeAt(blobs, root.value).value) <= live;
    }
  }

  lemma {:induction false} ReachIsNodesAndValues(blobs: map<Hash, Bytes>, root: Option<Hash>, t: Tree)
    requires Represents(blobs, root, t)
    ensures forall h :: h in Reach(blobs, root, t) ==> NodeAt(blobs, h).Some? || h in Values(t)
    decreases t
  {
    if t.Branch? {
      var slots := NodeAt(blobs, root.value).value.slots;
      hide NodeAt;
      forall i, h | 0 <= i < FANOUT && h in Reach(blobs, slots[i], t.children[i]) ensures NodeAt(blobs, h).Some? || h in Values(t) {
        ReachIsNodesAndValues(blobs, slots[i], t.children[i]);
        ChildValues(t, i);
      }
    }
  }

  /** The root, and what its first `n` children reach. */
  ghost function ReachUpTo(blobs: map<Hash, Bytes>, root: Option<Hash>, t: Tree, n: nat): set<Hash>
    requires Represents(blobs, root, t) && t.Branch? && n <= FANOUT
  {
    var slots := NodeAt(blobs, root.value).value.slots;
    {root.value} + set i, h | 0 <= i < n && h in Reach(blobs, slots[i], t.children[i]) :: h
  }

  /** `at` leads from the root of `t` to one of its nodes. */
  ghost predicate LeadsTo(t: Tree, at: seq<nat>) {
    if at == [] then t != Absent
    else t.Branch? && at[0] < |t.children| && LeadsTo(t.children[at[0]], at[1..])
  }

  /** What a depth-first walk has looked at when it comes to the node at `at`: all that children further
      to the left reach, and the nodes on the way, that one included. */
  ghost function WalkedBefore(blobs: map<Hash, Bytes>, root: Option<Hash>, t: Tree, at: seq<nat>): set<Hash>
    requires Represents(blobs, root, t) && LeadsTo(t, at)
    decreases |at|
  {
    if at == [] then {root.value}
    else
      var slots := NodeAt(blobs, root.value).value.slots;
      ReachUpTo(blobs, root, t, at[0]) + WalkedBefore(blobs, slots[at[0]], t.children[at[0]], at[1..])
  }

  lemma ReachStepwise(blobs: map<Hash, Bytes>, root: Option<Hash>, t: Tree, i: nat)
    requires Represents(blobs, root, t) && t.Branch? && i < FANOUT
    ensures ReachUpTo(blobs, root, t, 0) == {root.value}
    ensures var slots := NodeAt(blobs, root.value).value.slots;
            ReachUpTo(blobs, root, t, i + 1) == ReachUpTo(blobs, root, t, i) + Reach(blobs, slots[i], t.children[i])
    ensures ReachUpTo(blobs, root, t, i + 1) <= ReachUpTo(blobs, root, t, FANOUT) == Reach(blobs, root, t)
  {
    hide NodeAt;
  }

  lemma FailedHere(blobs: map<Hash, Bytes>, root: Hash, t: Tree)
    requires Represents(blobs, Some(root), t)
    ensures LeadsTo(t, []) && WalkedBefore(blobs, Some(root), t, []) == {root} <= Reach(blobs, Some(root), t)
    ensures t.Bucket? ==> Reach(blobs, Some(root), t) == {root} + Values(t)
  {}

  lemma Visiting(blobs: map<Hash, Bytes>, live: set<Hash>, visiting: set<Hash>, h: Hash)
    requires Closed(blobs, live, visiting)
    ensures Closed(blobs, live + {h}, visiting + {h})
  {
    hide NodeAt;
  }

  lemma Visited(blobs: map<Hash, Bytes>, live: set<Hash>, visiting: set<Hash>, h: Hash)
    requires Closed(blobs, live, visiting + {h}) && NodeAt(blobs, h).Some? && Refs(NodeAt(blobs, h).value) <= live
    ensures Closed(blobs, live, visiting)
  {
    hide NodeAt;
  }

  lemma ValuesMarked(blobs: map<Hash, Bytes>, live: set<Hash>, visiting: set<Hash>, values: set<Hash>)
    requires Closed(blobs, live, visiting) && NoNodes(blobs, values)
    ensures Closed(blobs, live + values, visiting)
  {
    hide NodeAt;
  }

  lemma FailedBelow(blobs: map<Hash, Bytes>, root: Option<Hash>, t: Tree, i: nat, at: seq<nat>)
    requires Represents(blobs, root, t) && t.Branch? && i < FANOUT && LeadsTo(t.children[i], at)
    ensures var slots := NodeAt(blobs, root.value).value.slots;
            && LeadsTo(t, [i] + at)
            && WalkedBefore(blobs, root, t, [i] + at)
               == ReachUpTo(blobs, root, t, i) + WalkedBefore(blobs, slots[i], t.children[i], at)
  {
    hide NodeAt, ReachUpTo, Reach;
    assert ([i] + at)[1..] == at;
  }

  /** Depth-first marking into a set that may already hold other partitions' marks. A node already
      marked is not descended into, so what it leads to must have been marked with it: that is what
      `Closed` says, of everything but the nodes on the current path. */
  method CollectReachable(store: BlobStore, root: Hash, out: set<Hash>, ghost t: Tree, ghost visiting: set<Hash>)
    returns (r: Result<(), HamtError>, live: set<Hash>, ghost at: seq<nat>)
    requires Represents(store.blobs, Some(root), t)
    ensures out <= live && live <= out + Reach(store.blobs, Some(root), t)
    ensures root in live
    ensures r.Success? && NoNodes(store.blobs, Values(t)) && Closed(store.blobs, out, visiting) ==>
              Closed(store.blobs, live, visiting)
    ensures r.Failure? ==>
              r.error.StoreError? && !store.reliable && LeadsTo(t, at) && live <= out + WalkedBefore(store.blobs, Some(root), t, at)
    decreases t
  {
    hide NodeAt, Encode, Decode, ReachUpTo, Reach, WalkedBefore, LeadsTo, Closed, NoNodes, Values;
    ghost var closes := NoNodes(store.blobs, Values(t)) && Closed(store.blobs, out, visiting);
    at := [];
    if root in out {
      return Success(()), out, at;
    }
    live := out + {root};
    FailedHere(store.blobs, root, t);
    if closes { Visiting(store.blobs, out, visiting, root); }
    var node := GetNode(store, root);
    match node
    case Failure(err) => return Failure(err), live, at;
    case Success(Leaf(entries)) =>
      live := live + set e | e in entries :: e.hash;
      LeafValues(entries);
      if closes {
        ValuesMarked(store.blobs, out + {root}, visiting + {root}, Values(t));
        Visited(store.blobs, live, visiting, root);
      }
      return Success(()), live, at;
    case Success(Intermediate(slots)) =>
      ReachStepwise(store.blobs, Some(root), t, 0);
      for i := 0 to FANOUT
        invariant out + {root} <= live <= out + ReachUpTo(store.blobs, Some(root), t, i)
        invariant closes ==> Closed(store.blobs, live, visiting + {root})
        invariant forall k :: 0 <= k < i && slots[k].Some? ==> slots[k].value in live
      {
        ReachStepwise(store.blobs, Some(root), t, i);
        if slots[i].Some? {
          ChildValues(t, i);
          if closes { FewerNoNodes(store.blobs, Values(t.children[i]), Values(t)); }
          r, live, at := CollectReachable(store, slots[i].value, live, t.children[i], visiting + {root});
          if r.Failure? {
            FailedBelow(store.blobs, Some(root), t, i, at);
            at := [i] + at;
            return;
          }
        }
      }
      assert Refs(Intermediate(slots)) <= live;
      if closes { Visited(store.blobs, live, visiting, root); }
      return Success(()), live, at;
  }

  lemma LeafValues(entries: seq<LeafEntry>)
    ensures Values(Bucket(entries)) == set e | e in entries :: e.hash
  {}

  lemma FewerNoNodes(blobs: map<Hash, Bytes>, some: set<Hash>, all: set<Hash>)
    requires some <= all && NoNodes(blobs, all)
    ensures NoNodes(blobs, some)
  {}

  lemma ChildValues(t: Tree, i: nat)
    requires t.Branch? && i < |t.children|
    ensures Values(t.children[i]) <= Values(t)
  {
    forall h | h in Values(t.children[i]) ensures h in Values(t) {
      var e :| e in Entries(t.children[i]) && e.hash == h;
      FlattenMember(t.children, e);
    }
  }

  /** A sweep that keeps at least `live` keeps every tree whose reach lies in `live`. */
  lemma {:induction false} SweepKeepsTree(before: map<Hash, Bytes>, after: map<Hash, Bytes>, live: set<Hash>, root: Option<Hash>, t: Tree)
    requires Represents(before, root, t) && Reach(before, root, t) <= live
    requires forall h :: h in before && h in live ==> h in after && after[h] == before[h]
    ensures Represents(after, root, t)
    decreases t
  {
    if t.Branch? {
      var slots := NodeAt(before, root.value).value.slots;
      assert root.value in live;
      assert NodeAt(after, root.value) == NodeAt(before, root.value);
      SweepKeepsChildren(before, after, live, root, t, slots);
    }
  }

  lemma {:induction false} SweepKeepsChildren(
    before: map<Hash, Bytes>, after: map<Hash, Bytes>, live: set<Hash>, root: Option<Hash>, t: Tree, slots: Slots
  )
    requires t.Branch? && Represents(before, root, t) && Reach(before, root, t) <= live
    requires slots == NodeAt(before, root.value).value.slots
    requires forall h :: h in before && h in live ==> h in after && after[h] == before[h]
    ensures forall i :: 0 <= i < FANOUT ==> Represents(after, slots[i], t.children[i])
    decreases t, 0
  {
    hide NodeAt;
    forall i | 0 <= i < FANOUT ensures Represents(after, slots[i], t.children[i]) {
      assert Reach(before, slots[i], t.children[i]) <= live;
      SweepKeepsTree(before, after, live, slots[i], t.children[i]);
    }
  }

  // ----- When a sweep is safe

  /** Every value the tree's entries point at is in the store. */
  ghost predicate HasValues(blobs: map<Hash, Bytes>, t: Tree) {
    Values(t) <= blobs.Keys
  }

  /** A sweep keeps a stored tree and its values if and only if the protect set holds everything the
      tree reaches - so a walk whose failure is swallowed costs the tree whatever it did not mark. */
  lemma SweepSafeIffReachProtected(blobs: map<Hash, Bytes>, live: set<Hash>, root: Option<Hash>, t: Tree)
    requires Represents(blobs, root, t) && HasValues(blobs, t)
    ensures (Represents(Kept(blobs, live), root, t) && HasValues(Kept(blobs, live), t)) <==> Reach(blobs, root, t) <= live
  {
    if Reach(blobs, root, t) <= live {
      SweepKeepsTree(blobs, Kept(blobs, live), live, root, t);
      ValuesReached(blobs, root, t);
    }
    if Represents(Kept(blobs, live), root, t) && HasValues(Kept(blobs, live), t) {
      ReachIsStored(blobs, live, root, t);
    }
  }

  lemma {:induction false} ValuesReached(blobs: map<Hash, Bytes>, root: Option<Hash>, t: Tree)
    requires Represents(blobs, root, t)
    ensures Values(t) <= Reach(blobs, root, t)
    decreases t
  {
    hide NodeAt;
    if t.Branch? {
      var slots := NodeAt(blobs, root.value).value.slots;
      forall e | e in Entries(t) ensures e.hash in Reach(blobs, root, t) {
        FlattenMember(t.children, e);
        var i :| 0 <= i < FANOUT && e in Entries(t.children[i]);
        ValuesReached(blobs, slots[i], t.children[i]);
        assert e.hash in Values(t.children[i]);
      }
    }
  }

  lemma {:induction false} ReachIsStored(blobs: map<Hash, Bytes>, live: set<Hash>, root: Option<Hash>, t: Tree)
    requires Represents(blobs, root, t) && Represents(Kept(blobs, live), root, t) && Values(t) <= live
    ensures Reach(blobs, root, t) <= live
    decreases t
  {
    if root.Some? { assert root.value in Kept(blobs, live); }
    if t.Branch? {
      var slots := NodeAt(blobs, root.value).value.slots;
      assert NodeAt(Kept(blobs, live), root.value) == NodeAt(blobs, root.value);
      hide NodeAt;
      forall i | 0 <= i < FANOUT ensures Reach(blobs, slots[i], t.children[i]) <= live {
        ChildValues(t, i);
        ReachIsStored(blobs, live, slots[i], t.children[i]);
      }
    } else if t.Bucket? {
      assert Values(t) == set e | e in t.entries :: e.hash;
    }
  }

  /** With one child's root not marked, the tree is lost to the sweep. */
  lemma UnmarkedChildLosesTree(blobs: map<Hash, Bytes>, live: set<Hash>, root: Option<Hash>, t: Tree, i: nat)
    requires Represents(blobs, root, t) && HasValues(blobs, t) && t.Branch? && i < FANOUT
    requires var slots := NodeAt(blobs, root.value).value.slots; slots[i].Some? && slots[i].value !in live
    ensures !(Represents(Kept(blobs, live), root, t) && HasValues(Kept(blobs, live), t))
  {
    hide NodeAt, HasValues;
    SweepSafeIffReachProtected(blobs, live, root, t);
    var slots := NodeAt(blobs, root.value).value.slots;
    assert slots[i].value in Reach(blobs, slots[i], t.children[i]);
    assert slots[i].value in Reach(blobs, root, t);
  }

  /** So a walk that failed below one child, and was skipped over, costs the tree - unless every later
      child was marked already by something else. */
  lemma FailedWalkLosesTree(
    blobs: map<Hash, Bytes>, out: set<Hash>, live: set<Hash>, root: Option<Hash>, t: Tree, at: seq<nat>, later: nat
  )
    requires Represents(blobs, root, t) && HasValues(blobs, t) && LeadsTo(t, at) && at != [] && at[0] < later < FANOUT
    requires live <= out + WalkedBefore(blobs, root, t, at)
    requires var slots := NodeAt(blobs, root.value).value.slots;
             slots[later].Some? && slots[later].value !in out + WalkedBefore(blobs, root, t, at)
    ensures !(Represents(Kept(blobs, live), root, t) && HasValues(Kept(blobs, live), t))
  {
    hide NodeAt, HasValues, WalkedBefore;
    UnmarkedChildLosesTree(blobs, live, root, t, later);
  }

  // ----- Parallel walk

  ghost function Size(t: Tree): nat
    decreases t, 0
  {
    match t
    case Absent => 0
    case Bucket(_) => 1
    case Branch(children) => 1 + TotalSize(children)
  }

  ghost function TotalSize(ts: seq<Tree>): nat
    decreases ts, 1
  {
    if ts == [] then 0 else Size(ts[0]) + TotalSize(ts[1..])
  }

  ghost function Held(ts: seq<Tree>): multiset<LeafEntry> {
    multiset(Flatten(ts))
  }

  /** `hashes` are the roots of `ts`, position by position. */
  ghost predicate Roots(blobs: map<Hash, Bytes>, hashes: seq<Hash>, ts: seq<Tree>) {
    |hashes| == |ts| && forall i :: 0 <= i < |ts| ==> Represents(blobs, Some(hashes[i]), ts[i])
  }

  lemma {:induction false} FlattenConcat(a: seq<Tree>, b: seq<Tree>)
    ensures Flatten(a + b) == Flatten(a) + Flatten(b)
    ensures TotalSize(a + b) == TotalSize(a) + TotalSize(b)
  {
    hide Entries, Size;
    if a == [] {
      assert a + b == b;
      assert Flatten(b) == [] + Flatten(b);
    } else {
      var rest, head := a[1..], Entries(a[0]);
      FlattenConcat(rest, b);
      assert (a + b)[1..] == rest + b;
      assert TotalSize(a + b) == Size(a[0]) + TotalSize(rest + b) && TotalSize(a) == Size(a[0]) + TotalSize(rest);
      assert Flatten(a + b) == head + Flatten(rest + b) && Flatten(a) == head + Flatten(rest);
      hide Flatten, TotalSize;
      Associative(head, Flatten(rest), Flatten(b));
    }
  }

  lemma Associative<T>(a: seq<T>, b: seq<T>, c: seq<T>)
    ensures a + (b + c) == (a + b) + c
  {}

  /** Taking one task out of the middle. */
  lemma TakeOne(ts: seq<Tree>, j: nat)
    requires j < |ts|
    ensures Held(ts) == multiset(Entries(ts[j])) + Held(ts[..j] + ts[j + 1..])
    ensures TotalSize(ts) == Size(ts[j]) + TotalSize(ts[..j] + ts[j + 1..])
  {
    hide Flatten, TotalSize, Entries, Size;
    assert ts == ts[..j] + ([ts[j]] + ts[j + 1..]);
    MiddleTree(ts[..j], ts[j], ts[j + 1..]);
  }

  lemma MiddleTree(a: seq<Tree>, t: Tree, b: seq<Tree>)
    ensures Held(a + ([t] + b)) == multiset(Entries(t)) + Held(a + b)
    ensures TotalSize(a + ([t] + b)) == Size(t) + TotalSize(a + b)
  {
    OneTree(t);
    hide Flatten, TotalSize, Entries, Size;
    var fa, ft, fb := Flatten(a), Flatten([t]), Flatten(b);
    FlattenConcat(a, [t] + b);
    FlattenConcat([t], b);
    FlattenConcat(a, b);
    assert Flatten(a + ([t] + b)) == fa + (ft + fb);
    MovedOut(fa, ft, fb);
  }

  lemma MovedOut<T>(a: seq<T>, b: seq<T>, c: seq<T>)
    ensures multiset(a + (b + c)) == multiset(b) + multiset(a + c)
  {}

  lemma OneTree(t: Tree)
    ensures Flatten([t]) == Entries(t) && TotalSize([t]) == Size(t)
  {
    assert [t][1..] == [];
    assert Flatten([t]) == Entries(t) + [];
  }

  function Present(slots: seq<Option<Hash>>): seq<Hash> {
    if slots == [] then []
    else (if slots[0].Some? then [slots[0].value] else []) + Present(slots[1..])
  }

  ghost function PresentTrees(ts: seq<Tree>): seq<Tree> {
    if ts == [] then []
    else (if ts[0] != Absent then [ts[0]] else []) + PresentTrees(ts[1..])
  }

  lemma {:induction false} PresentRoots(blobs: map<Hash, Bytes>, slots: seq<Option<Hash>>, ts: seq<Tree>)
    requires |slots| == |ts| && forall i :: 0 <= i < |ts| ==> Represents(blobs, slots[i], ts[i])
    ensures Roots(blobs, Present(slots), PresentTrees(ts))
  {
    hide Represents;
    if ts != [] {
      PresentRoots(blobs, slots[1..], ts[1..]);
      AbsentHasNoRoot(blobs, slots[0], ts[0]);
    }
  }

  lemma {:induction false} PresentHeld(ts: seq<Tree>)
    ensures Flatten(PresentTrees(ts)) == Flatten(ts) && TotalSize(PresentTrees(ts)) == TotalSize(ts)
  {
    if ts != [] {
      var rest := PresentTrees(ts[1..]);
      PresentHeld(ts[1..]);
      if ts[0] != Absent {
        OneTree(ts[0]);
        hide Flatten, TotalSize;
        FlattenConcat([ts[0]], rest);
        FlattenConcat([ts[0]], ts[1..]);
        assert ts == [ts[0]] + ts[1..];
      } else {
        assert [] + rest == rest;
        assert Entries(ts[0]) + Flatten(ts[1..]) == Flatten(ts[1..]);
      }
    }
  }

  lemma JoinRoots(blobs: map<Hash, Bytes>, a: seq<Hash>, ts: seq<Tree>, b: seq<Hash>, us: seq<Tree>)
    requires Roots(blobs, a, ts) && Roots(blobs, b, us)
    ensures Roots(blobs, a + b, ts + us)
  {
    hide Represents;
  }

  lemma AbsentHasNoRoot(blobs: map<Hash, Bytes>, root: Option<Hash>, t: Tree)
    requires Represents(blobs, root, t)
    ensures t == Absent <==> root.None?
  {}

  /** Joins one level's fetches in any order; any of them may fail, and the deadline may expire before
      the level, before any join and during one. `late(k)` is what the walk's `k`th look at the clock
      shows, and `looks` counts them. */
  method JoinLevel(
    store: BlobStore, frontier: seq<Hash>, entries: seq<LeafEntry>, late: nat -> bool, given: nat, ghost trees: seq<Tree>
  )
    returns (
      found: seq<LeafEntry>, next: seq<Hash>, allFetched: bool, expired: bool, looks: nat, ghost nextTrees: seq<Tree>)
    requires Roots(store.blobs, frontier, trees)
    ensures looks > given && (expired <==> late(looks - 1)) && forall k: nat :: given <= k < looks - 1 ==> !late(k)
    ensures store.reliable ==> allFetched
    ensures entries <= found && Roots(store.blobs, next, nextTrees)
    ensures multiset(found) + Held(nextTrees) <= multiset(entries) + Held(trees)
    ensures allFetched && !expired ==> multiset(found) + Held(nextTrees) == multiset(entries) + Held(trees)
    ensures !expired ==> TotalSize(nextTrees) + |frontier| <= TotalSize(trees)
  {
    hide NodeAt, Encode, Decode, Flatten, TotalSize, Present, PresentTrees;
    var tasks := frontier;
    ghost var pending := trees;
    ghost var start := multiset(entries) + Held(trees);
    found, next, allFetched, expired, nextTrees := entries, [], true, late(given), [];
    looks := given + 1;
    EmptyHeld();
    if expired {
      return;
    }
    while true
      invariant looks > given && !expired && forall k: nat :: given <= k < looks ==> !late(k)
      invariant store.reliable ==> allFetched
      invariant entries <= found && Roots(store.blobs, tasks, pending) && Roots(store.blobs, next, nextTrees)
      invariant multiset(found) + Held(pending) + Held(nextTrees) <= start
      invariant allFetched ==> multiset(found) + Held(pending) + Held(nextTrees) == start
      invariant TotalSize(pending) + TotalSize(nextTrees) + |frontier| <= TotalSize(trees) + |tasks|
      decreases |tasks|
    {
      expired, looks := late(looks), looks + 1;
      if expired || tasks == [] {
        return;
      }
      expired, looks := late(looks), looks + 1;
      if expired {
        return;
      }
      var j: nat :| j < |tasks|;
      var hash := tasks[j];
      ghost var sub := pending[j];
      TakeOne(pending, j);
      tasks, pending := tasks[..j] + tasks[j + 1..], pending[..j] + pending[j + 1..];
      var node := GetNode(store, hash);
      match node {
        case Success(Leaf(leaf)) =>
          LeafTask(sub);
          found := found + leaf;
        case Success(Intermediate(slots)) =>
          PresentRoots(store.blobs, slots, sub.children);
          PresentHeld(sub.children);
          BranchTask(sub);
          FlattenConcat(nextTrees, PresentTrees(sub.children));
          JoinRoots(store.blobs, next, nextTrees, Present(slots), PresentTrees(sub.children));
          next, nextTrees := next + Present(slots), nextTrees + PresentTrees(sub.children);
        case Failure(_) =>
          SomeTask(store.blobs, hash, sub);
          allFetched := false;
      }
    }
  }

  /** Breadth-first under a deadline. What comes back is sorted and comes from the tree, and it is the
      whole sorted walk when the outcome says it is complete - as it does unless a read fails or a look at
      the clock shows that the deadline has passed. */
  method WalkEntriesParallel(store: BlobStore, root: Hash, late: nat -> bool, ghost t: Tree)
    returns (found: seq<LeafEntry>, complete: bool)
    requires WellFormed(t, 0) && Represents(store.blobs, Some(root), t)
    ensures Sorted(KeyLe, found)
    ensures multiset(found) <= multiset(Entries(t))
    ensures complete ==> found == SortBy(KeyLe, Entries(t))
    ensures store.reliable && (forall k: nat :: !late(k)) ==> complete
  {
    hide NodeAt, Encode, Decode, Flatten, TotalSize, SortBy;
    var frontier := [root];
    ghost var trees := [t];
    var entries: seq<LeafEntry> := [];
    var looks: nat := 0;
    complete := true;
    SingletonHeld(t);
    while frontier != []
      invariant Roots(store.blobs, frontier, trees)
      invariant multiset(entries) + Held(trees) <= multiset(Entries(t))
      invariant complete ==> multiset(entries) + Held(trees) == multiset(Entries(t))
      invariant store.reliable && (forall k: nat :: !late(k)) ==> complete
      decreases TotalSize(trees)
    {
      var allFetched, expired;
      entries, frontier, allFetched, expired, looks, trees := JoinLevel(store, frontier, entries, late, looks, trees);
      complete := complete && allFetched && !expired;
      if expired {
        break;
      }
    }
    EmptyHeld();
    found := SortBy(KeyLe, entries);
    KeyLeIsPreorder();
    SortSorts(KeyLe, entries);
    if complete {
      SortedWalk(t, found);
    }
  }

  lemma SortedWalk(t: Tree, found: seq<LeafEntry>)
    requires WellFormed(t, 0) && Sorted(KeyLe, found) && multiset(found) == multiset(Entries(t))
    ensures found == SortBy(KeyLe, Entries(t))
  {
    KeyLeIsPreorder();
    SortSorts(KeyLe, Entries(t));
    SameElements(found, Entries(t));
    forall x, y | x in found && y in found && KeyLe(x, y) && KeyLe(y, x) ensures x == y {
      LexLeTotal(x.key, y.key);
      KeysDistinct(t, 0, x, y);
    }
    SortedUnique(KeyLe, found, SortBy(KeyLe, Entries(t)));
  }

  lemma SingletonHeld(t: Tree)
    ensures Held([t]) == multiset(Entries(t))
  {
    assert [t][1..] == [];
    assert Flatten([t]) == Entries(t) + [];
  }

  lemma EmptyHeld()
    ensures Held([]) == multiset{} && TotalSize([]) == 0
  {}

  lemma LeafTask(t: Tree)
    requires t.Bucket?
    ensures Size(t) == 1
  {}

  lemma BranchTask(t: Tree)
    requires t.Branch?
    ensures Size(t) == 1 + TotalSize(t.children)
    ensures Entries(t) == Flatten(t.children)
  {}

  lemma SomeTask(blobs: map<Hash, Bytes>, hash: Hash, t: Tree)
    requires Represents(blobs, Some(hash), t)
    ensures Size(t) >= 1
  {}
}
