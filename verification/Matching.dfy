/** Exact verification of candidates and the in-memory index (`registry-core/src/similarity.rs`). */
module Matching {
  import opened Wrappers
  import opened Ordering
  import opened Similarity

  datatype IsccMember = IsccMember(key: string, code: u64)

  datatype Match = Match(key: string, code: u64, distance: nat)

  /** By distance, then by key. */
  predicate MatchLe(a: Match, b: Match) {
    a.distance < b.distance || (a.distance == b.distance && LexLe(a.key, b.key))
  }

  lemma MatchLeIsPreorder()
    ensures TotalPreorder(MatchLe)
  {
    forall a, b ensures MatchLe(a, b) || MatchLe(b, a) { LexLeTotal(a.key, b.key); }
    forall a, b, c | MatchLe(a, b) && MatchLe(b, c) ensures MatchLe(a, c) {
      if a.distance == c.distance { LexLeTransitive(a.key, b.key, c.key); }
    }
  }

  /** The answer to a query over a set of members: one row for each key with a member within the
      radius, at that key's least distance, ordered by distance and key. */
  ghost predicate IsAnswer(query: nat, members: set<IsccMember>, radius: nat, out: seq<Match>) {
    && StrictlySorted(MatchLe, out)
    && DistinctKeys(out)
    && (forall row :: row in out ==> IsBest(query, members, radius, row))
    && (forall m :: m in members && Hamming(query, m.code) <= radius ==> HasRow(out, m.key))
  }

  /** Nearest first, and among equally near ones in key order. */
  lemma AnswerAscends(query: nat, members: set<IsccMember>, radius: nat, out: seq<Match>, i: nat, j: nat)
    requires IsAnswer(query, members, radius, out) && i < j < |out|
    ensures out[i].distance <= out[j].distance
    ensures out[i].distance == out[j].distance ==> LexLe(out[i].key, out[j].key) && out[i].key != out[j].key
  {
    LexLeTotal(out[i].key, out[j].key);
  }

  ghost predicate IsBest(query: nat, members: set<IsccMember>, radius: nat, row: Match) {
    && IsccMember(row.key, row.code) in members
    && row.distance == Hamming(query, row.code) <= radius
    && forall m :: m in members && m.key == row.key ==> row.distance <= Hamming(query, m.code)
  }

  ghost predicate DistinctKeys(out: seq<Match>) {
    forall i, j :: 0 <= i < j < |out| ==> out[i].key != out[j].key
  }

  ghost predicate HasRow(out: seq<Match>, key: string) {
    exists row :: row in out && row.key == key
  }

  ghost predicate KeysDetermineCodes(members: set<IsccMember>) {
    forall m, n :: m in members && n in members && m.key == n.key ==> m.code == n.code
  }

  /** Where each key has one code there is one answer. */
  lemma AnswerIsUnique(query: nat, members: set<IsccMember>, radius: nat, a: seq<Match>, b: seq<Match>)
    requires KeysDetermineCodes(members) && IsAnswer(query, members, radius, a) && IsAnswer(query, members, radius, b)
    ensures a == b
  {
    forall row ensures row in a <==> row in b {
      if row in a { SameRow(query, members, radius, a, b, row); }
      if row in b { SameRow(query, members, radius, b, a, row); }
    }
    StrictlySortedUnique(MatchLe, a, b);
  }

  lemma SameRow(query: nat, members: set<IsccMember>, radius: nat, a: seq<Match>, b: seq<Match>, row: Match)
    requires KeysDetermineCodes(members) && IsAnswer(query, members, radius, a) && IsAnswer(query, members, radius, b)
    requires row in a
    ensures row in b
  {
    assert IsBest(query, members, radius, row);
    assert HasRow(b, IsccMember(row.key, row.code).key);
    var other :| other in b && other.key == row.key;
    assert IsBest(query, members, radius, other);
    assert IsccMember(other.key, other.code) in members;
  }

  ghost function SetOf(cs: seq<IsccMember>): set<IsccMember> {
    set m | m in cs
  }

  // ----- Computing it

  function Least(a: nat, b: nat): nat {
    if a < b then a else b
  }

  /** The least distance within the radius among the candidates with this key. */
  function BestOf(query: nat, cs: seq<IsccMember>, radius: nat, key: string): Option<nat> {
    if cs == [] then None
    else
      var m := cs[|cs| - 1];
      var before := BestOf(query, cs[..|cs| - 1], radius, key);
      var d := Hamming(query, m.code);
      if m.key != key || d > radius then before
      else if before.None? then Some(d)
      else Some(Least(d, before.value))
  }

  lemma {:induction false} BestOfSpec(query: nat, cs: seq<IsccMember>, radius: nat, key: string)
    ensures BestOf(query, cs, radius, key).None? ==>
              forall m :: m in cs && m.key == key ==> Hamming(query, m.code) > radius
    ensures BestOf(query, cs, radius, key).Some? ==>
              && BestOf(query, cs, radius, key).value <= radius
              && (forall m :: m in cs && m.key == key ==> BestOf(query, cs, radius, key).value <= Hamming(query, m.code))
              && (exists m :: m in cs && m.key == key && Hamming(query, m.code) == BestOf(query, cs, radius, key).value)
  {
    hide Hamming;
    if cs != [] {
      var before, m := cs[..|cs| - 1], cs[|cs| - 1];
      assert cs == before + [m];
      BestOfSpec(query, before, radius, key);
      var best := BestOf(query, cs, radius, key);
      if best.Some? && best != BestOf(query, before, radius, key) {
        assert m in cs && m.key == key && Hamming(query, m.code) == best.value;
      } else if best.Some? {
        var n :| n in before && n.key == key && Hamming(query, n.code) == best.value;
        assert n in cs;
      }
    }
  }

  function RowsOf(query: nat, cs: seq<IsccMember>, best: map<string, nat>): seq<Match> {
    if cs == [] then []
    else
      var m := cs[|cs| - 1];
      RowsOf(query, cs[..|cs| - 1], best) +
        (if m.key in best && Hamming(query, m.code) == best[m.key] then [Match(m.key, m.code, best[m.key])] else [])
  }

  lemma {:induction false} RowsAre(query: nat, cs: seq<IsccMember>, best: map<string, nat>)
    ensures forall row :: row in RowsOf(query, cs, best) <==>
              IsccMember(row.key, row.code) in cs && row.key in best && row.distance == best[row.key] == Hamming(query, row.code)
  {
    hide Hamming;
    if cs != [] {
      RowsAre(query, cs[..|cs| - 1], best);
      assert cs == cs[..|cs| - 1] + [cs[|cs| - 1]];
    }
  }

  /** `dedup_by` key: drops an element whose predecessor has the same key. */
  function Dedup(s: seq<Match>): seq<Match> {
    if s == [] then []
    else
      var n := |s| - 1;
      Dedup(s[..n]) + (if n > 0 && s[n].key == s[n - 1].key then [] else [s[n]])
  }

  ghost predicate OneDistancePerKey(s: seq<Match>) {
    forall x, y :: x in s && y in s && x.key == y.key ==> x.distance == y.distance
  }

  /** Dropping adjacent repetitions is enough: sorted by distance and key, the rows of a key - all at
      one distance - stand together. */
  lemma {:induction false} DedupSpec(s: seq<Match>)
    requires Sorted(MatchLe, s) && OneDistancePerKey(s)
    ensures StrictlySorted(MatchLe, Dedup(s))
    ensures DistinctKeys(Dedup(s))
    ensures forall x :: x in Dedup(s) ==> x in s
    ensures forall x :: x in s ==> HasRow(Dedup(s), x.key)
  {
    hide MatchLe, DistinctKeys, StrictlySorted, HasRow;
    EmptyDedup();
    if s != [] {
      var n := |s| - 1;
      var before, last := s[..n], s[n];
      assert s == before + [last];
      DedupSpec(before);
      if n > 0 && last.key == s[n - 1].key {
        assert s[n - 1] in before;
        assert Dedup(s) == Dedup(before) + [] == Dedup(before);
      } else {
        forall x | x in before ensures x.key != last.key && MatchLe(x, last) {
          FarFromLast(s, x);
        }
        assert Dedup(s) == Dedup(before) + [last];
        hide Dedup, Sorted;
        RowKept(before, Dedup(before), last);
      }
    }
  }

  lemma EmptyDedup()
    ensures StrictlySorted(MatchLe, []) && DistinctKeys([])
  {}

  lemma RowKept(before: seq<Match>, kept: seq<Match>, last: Match)
    requires StrictlySorted(MatchLe, kept) && DistinctKeys(kept)
    requires forall x :: x in kept ==> x in before
    requires forall x :: x in before ==> HasRow(kept, x.key) && x.key != last.key && MatchLe(x, last)
    ensures StrictlySorted(MatchLe, kept + [last])
    ensures DistinctKeys(kept + [last])
    ensures forall x :: x in before || x == last ==> HasRow(kept + [last], x.key)
  {
    hide StrictlySorted, MatchLe;
    NotBelow(kept, last);
    forall i | 0 <= i < |kept| ensures kept[i].key != last.key { assert kept[i] in before; }
    assert last in kept + [last];
    forall x | x in before ensures HasRow(kept + [last], x.key) {
      var row :| row in kept && row.key == x.key;
      assert row in kept + [last];
    }
  }

  lemma FarFromLast(s: seq<Match>, x: Match)
    requires Sorted(MatchLe, s) && OneDistancePerKey(s)
    requires s != [] && x in s[..|s| - 1] && s[|s| - 1].key != s[|s| - 2].key
    ensures x.key != s[|s| - 1].key && MatchLe(x, s[|s| - 1])
  {
    var n := |s| - 1;
    var i :| 0 <= i < n && s[i] == x;
    assert MatchLe(s[i], s[n]);
    if x.key == s[n].key && i < n - 1 {
      assert MatchLe(s[i], s[n - 1]) && MatchLe(s[n - 1], s[n]);
      assert s[i] in s && s[n] in s;
      LexLeTotal(s[n - 1].key, s[n].key);
    }
  }

  lemma NotBelow(s: seq<Match>, last: Match)
    requires StrictlySorted(MatchLe, s) && forall x :: x in s ==> x.key != last.key && MatchLe(x, last)
    ensures StrictlySorted(MatchLe, s + [last])
  {
    forall x | x in s ensures !MatchLe(last, x) {
      LexLeTotal(x.key, last.key);
    }
  }

  /** Filters the candidates to the exact answer. */
  method Verify(query: u64, candidates: seq<IsccMember>, radius: nat) returns (matches: seq<Match>)
    ensures IsAnswer(query, SetOf(candidates), radius, matches)
  {
    hide Hamming, RowsOf, IsAnswer;
    var best: map<string, nat> := map[];
    for i := 0 to |candidates|
      invariant forall k :: k in best <==> BestOf(query, candidates[..i], radius, k).Some?
      invariant forall k :: k in best ==> Some(best[k]) == BestOf(query, candidates[..i], radius, k)
    {
      assert candidates[..i + 1][..i] == candidates[..i];
      var m := candidates[i];
      var d := Hamming(query, m.code);
      if d <= radius {
        best := best[m.key := if m.key in best && best[m.key] <= d then best[m.key] else d];
      }
    }
    assert candidates[..|candidates|] == candidates;
    var rows := FilterRows(query, candidates, best);
    matches := Dedup(SortBy(MatchLe, rows));
    AnswerFromRows(query, candidates, radius, best, rows);
  }

  method FilterRows(query: u64, candidates: seq<IsccMember>, best: map<string, nat>) returns (rows: seq<Match>)
    ensures rows == RowsOf(query, candidates, best)
  {
    hide Hamming;
    rows := [];
    for i := 0 to |candidates|
      invariant rows == RowsOf(query, candidates[..i], best)
    {
      assert candidates[..i + 1][..i] == candidates[..i];
      var m := candidates[i];
      if m.key in best && Hamming(query, m.code) == best[m.key] {
        rows := rows + [Match(m.key, m.code, best[m.key])];
      }
    }
    assert candidates[..|candidates|] == candidates;
  }

  lemma AnswerFromRows(query: nat, candidates: seq<IsccMember>, radius: nat, best: map<string, nat>, rows: seq<Match>)
    requires forall k :: k in best <==> BestOf(query, candidates, radius, k).Some?
    requires forall k :: k in best ==> Some(best[k]) == BestOf(query, candidates, radius, k)
    requires rows == RowsOf(query, candidates, best)
    ensures IsAnswer(query, SetOf(candidates), radius, Dedup(SortBy(MatchLe, rows)))
  {
    hide Hamming, RowsOf, BestOf, Dedup, SortBy, MatchLe;
    var members := SetOf(candidates);
    RowsAre(query, candidates, best);
    var sorted := SortBy(MatchLe, rows);
    MatchLeIsPreorder();
    SortSorts(MatchLe, rows);
    SameElements(rows, sorted);
    DedupSpec(sorted);
    var out := Dedup(sorted);
    forall row | row in out ensures IsBest(query, members, radius, row) {
      BestOfSpec(query, candidates, radius, row.key);
    }
    forall m | m in members && Hamming(query, m.code) <= radius ensures HasRow(out, m.key) {
      BestOfSpec(query, candidates, radius, m.key);
      var n :| n in candidates && n.key == m.key && Hamming(query, n.code) == best[m.key];
      assert Match(n.key, n.code, best[n.key]) in rows;
    }
  }

  // ----- The in-memory index

  type Posting = map<BucketId, seq<IsccMember>>

  ghost predicate HoldsIn(buckets: Posting, bands: Bands, members: set<IsccMember>) {
    forall id, m :: (id in buckets && m in buckets[id]) <==> (m in members && id in Buckets(bands, m.code))
  }

  ghost predicate KnowsKey(list: seq<IsccMember>, key: string) {
    exists n :: n in list && n.key == key
  }

  /** The buckets `ids` gained `m`, at the end, where they did not know its key; nothing else changed. */
  ghost predicate Inserted(before: Posting, after: Posting, ids: seq<BucketId>, m: IsccMember) {
    && (forall id :: id in after <==> id in before || id in ids)
    && (forall id :: id in before && (id !in ids || KnowsKey(before[id], m.key)) ==> after[id] == before[id])
    && (forall id :: id in ids && !(id in before && KnowsKey(before[id], m.key)) ==>
          after[id] == (if id in before then before[id] else []) + [m])
  }

  lemma NoneInserted(buckets: Posting, m: IsccMember)
    ensures Inserted(buckets, buckets, [], m)
  {}

  lemma OneMoreInserted(before: Posting, after: Posting, ids: seq<BucketId>, id: BucketId, m: IsccMember)
    requires Inserted(before, after, ids, m) && id !in ids
    ensures var list := if id in after then after[id] else [];
            Inserted(before, after[id := if KnowsKey(list, m.key) then list else list + [m]], ids + [id], m)
  {
    hide KnowsKey;
    NothingKnown(m.key);
  }

  lemma NothingKnown(key: string)
    ensures !KnowsKey([], key)
  {}

  /** While each key has one code, inserting a member puts it in exactly its own buckets. */
  lemma InsertedHolds(before: Posting, after: Posting, bands: Bands, members: set<IsccMember>, m: IsccMember)
    requires HoldsIn(before, bands, members) && KeysDetermineCodes(members + {m})
    requires Inserted(before, after, Buckets(bands, m.code), m)
    ensures HoldsIn(after, bands, members + {m})
  {
    hide Buckets;
    var ids := Buckets(bands, m.code);
    forall id | id in ids && id in before && KnowsKey(before[id], m.key) ensures m in before[id] {
      var n :| n in before[id] && n.key == m.key;
      assert n in members + {m} && m in members + {m};
    }
    forall id, n ensures (id in after && n in after[id]) <==> (n in members + {m} && id in Buckets(bands, n.code)) {
      assert id in before && n in before[id] ==> id in after && n in after[id];
    }
  }

  class IsccIndex {
    const bands: Bands
    var buckets: map<BucketId, seq<IsccMember>>

    constructor (bands: Bands)
      ensures this.bands == bands && buckets == map[]
    {
      this.bands := bands;
      buckets := map[];
    }

    /** A member is in a bucket exactly when it was inserted and the bucket is one of its code's. */
    ghost predicate Holds(members: set<IsccMember>)
      reads this
    {
      HoldsIn(buckets, bands, members)
    }

    /** Adds the member to each of its buckets that does not know its key. */
    method Insert(m: IsccMember)
      modifies this`buckets
      ensures Inserted(old(buckets), buckets, Buckets(bands, m.code), m)
    {
      hide Inserted;
      var ids := Buckets(bands, m.code);
      NoneInserted(buckets, m);
      for i := 0 to |ids|
        invariant Inserted(old(buckets), buckets, ids[..i], m)
      {
        var id := ids[i];
        var list := if id in buckets then buckets[id] else [];
        assert ids[..i + 1] == ids[..i] + [id];
        assert id !in ids[..i];
        OneMoreInserted(old(buckets), buckets, ids[..i], id, m);
        if forall n :: n in list ==> n.key != m.key {
          list := list + [m];
        }
        buckets := buckets[id := list];
      }
      assert ids[..|ids|] == ids;
    }

    method Candidates(query: u64, probe: nat) returns (out: seq<IsccMember>)
      ensures forall m :: m in out <==> exists id :: Probed(bands, query, probe, id) && id in buckets && m in buckets[id]
    {
      hide Probed;
      out := [];
      var ids := QueryBuckets(bands, query, probe);
      for i := 0 to |ids|
        invariant forall m :: m in out <==> exists id :: id in ids[..i] && id in buckets && m in buckets[id]
      {
        assert ids[..i + 1] == ids[..i] + [ids[i]];
        if ids[i] in buckets {
          out := out + buckets[ids[i]];
        }
      }
      assert ids[..|ids|] == ids;
    }

    method Query(query: u64, radius: nat, probe: nat, ghost members: set<IsccMember>) returns (matches: seq<Match>)
      requires Holds(members)
      ensures IsAnswer(query, Reachable(bands, members, query, probe), radius, matches)
    {
      hide IsAnswer, Probed, Buckets;
      var candidates := Candidates(query, probe);
      assert SetOf(candidates) == Reachable(bands, members, query, probe);
      matches := Verify(query, candidates, radius);
    }
  }

  /** The members a query can see: those with a bucket among the probed ones. */
  ghost function Reachable(bands: Bands, members: set<IsccMember>, query: nat, probe: nat): set<IsccMember> {
    set m | m in members && Meets(bands, m, query, probe)
  }

  ghost predicate Meets(bands: Bands, m: IsccMember, query: nat, probe: nat) {
    exists id :: Probed(bands, query, probe, id) && id in Buckets(bands, m.code)
  }

  /** Recall and precision of any exact answer over what the query can see: a member within the radius
      and closer than `bands * (probe + 1)` is found, at its distance or less; and whatever is found is a
      member within the radius. */
  lemma RecallBound(bands: Bands, members: set<IsccMember>, query: u64, radius: nat, probe: nat, out: seq<Match>)
    requires IsAnswer(query, Reachable(bands, members, query, probe), radius, out)
    ensures forall m :: m in members && Hamming(query, m.code) <= radius && Hamming(query, m.code) < bands * (probe + 1) ==>
              exists row :: row in out && row.key == m.key && row.distance <= Hamming(query, m.code)
    ensures forall row :: row in out ==> IsccMember(row.key, row.code) in members && Hamming(query, row.code) == row.distance <= radius
  {
    hide Hamming, Buckets, Probed;
    var seen := Reachable(bands, members, query, probe);
    forall m | m in members && Hamming(query, m.code) <= radius && Hamming(query, m.code) < bands * (probe + 1)
      ensures exists row :: row in out && row.key == m.key && row.distance <= Hamming(query, m.code)
    {
      var id := CloseCodesMeet(bands, query, m.code, probe);
      assert Meets(bands, m, query, probe);
      assert m in seen;
      assert HasRow(out, m.key);
      var row :| row in out && row.key == m.key;
      assert IsBest(query, seen, radius, row);
    }
    forall row | row in out ensures IsccMember(row.key, row.code) in members && Hamming(query, row.code) == row.distance <= radius {
      assert IsBest(query, seen, radius, row);
    }
  }
}
