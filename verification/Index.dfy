/** The record index and the pending queue (`registryd/src/index.rs`).

    `IndexState` is the database as a value; each operation on it is one transaction. `RecordIndex` is
    the object that performs the transactions in place. */
module Index {
  import opened Wrappers
  import opened Digests
  import opened NodeCodec

  datatype RecordStatus = Pending | Published | Denylisted

  datatype IndexRecord = IndexRecord(
    contentHash: Hash, size: nat, partitionId: nat, status: RecordStatus,
    createdAt: int, contentCode: Option<nat>, publishedAt: Option<int>)
  {
    function LeafEntryFor(key: string): LeafEntry {
      LeafEntry(key, contentHash, size, createdAt, contentCode)
    }

    /** With its final status, and the time if that is published. */
    ghost function Settled(status: RecordStatus, now: int): (r: IndexRecord)
      ensures r.SameContent(this) && r.status == status
      ensures r.publishedAt == if status == Published then Some(now) else publishedAt
    {
      this.(status := status, publishedAt := if status == Published then Some(now) else publishedAt)
    }

    /** Alike in all but status and time of publication. */
    ghost predicate SameContent(other: IndexRecord) {
      && contentHash == other.contentHash && size == other.size && partitionId == other.partitionId
      && createdAt == other.createdAt && contentCode == other.contentCode
    }
  }

  datatype SubmitOutcome = Queued | DuplicateIdentical | Conflict(existing: Hash)

  datatype Submission = Submission(key: string, record: IndexRecord)

  datatype Row = Row(seq_: nat, key: string, record: IndexRecord)

  datatype Item = Item(seq_: nat, key: string)

  datatype DbError = DbError

  datatype IndexState = IndexState(
    records: map<string, IndexRecord>,
    queue: map<nat, string>,
    nextSeq: nat,
    localRoots: map<nat, Hash>)

  // ----- Transactions

  function SubmitOne(s: IndexState, sub: Submission): IndexState {
    if sub.key in s.records then s
    else s.(records := s.records[sub.key := sub.record], queue := s.queue[s.nextSeq := sub.key], nextSeq := s.nextSeq + 1)
  }

  function OutcomeOf(s: IndexState, sub: Submission): SubmitOutcome {
    if sub.key !in s.records then Queued
    else if s.records[sub.key].contentHash == sub.record.contentHash then DuplicateIdentical
    else Conflict(s.records[sub.key].contentHash)
  }

  /** A batch is its submissions one after another: a repeated key meets its own first occurrence. */
  function SubmitAll(s: IndexState, subs: seq<Submission>): IndexState {
    if subs == [] then s
    else SubmitOne(SubmitAll(s, subs[..|subs| - 1]), subs[|subs| - 1])
  }

  function Outcomes(s: IndexState, subs: seq<Submission>): (r: seq<SubmitOutcome>)
    ensures |r| == |subs|
  {
    if subs == [] then []
    else
      var before := subs[..|subs| - 1];
      Outcomes(s, before) + [OutcomeOf(SubmitAll(s, before), subs[|subs| - 1])]
  }

  function FinishOne(s: IndexState, item: Item, status: RecordStatus, now: int): IndexState {
    var records :=
      if item.key !in s.records then s.records
      else
        var record := s.records[item.key].(status := status);
        s.records[item.key := if status == Published then record.(publishedAt := Some(now)) else record];
    s.(records := records, queue := s.queue - {item.seq_})
  }

  function FinishAll(s: IndexState, items: seq<Item>, status: RecordStatus, now: int): IndexState {
    if items == [] then s
    else FinishOne(FinishAll(s, items[..|items| - 1], status, now), items[|items| - 1], status, now)
  }

  function RequeueOne(s: IndexState, key: string): IndexState {
    if key !in s.records then s
    else s.(queue := s.queue[s.nextSeq := key], nextSeq := s.nextSeq + 1)
  }

  /** Every value hash the index knows, whatever the record's status. */
  function ContentHashes(s: IndexState): set<Hash> {
    set k | k in s.records :: s.records[k].contentHash
  }

  // ----- Reading the queue in order

  ghost predicate IsLeast(ks: set<nat>, k: nat) {
    k in ks && forall j :: j in ks ==> k <= j
  }

  ghost function Least(ks: set<nat>): (k: nat)
    requires ks != {}
    ensures IsLeast(ks, k)
  {
    LeastExists(ks);
    var k :| IsLeast(ks, k);
    k
  }

  lemma {:induction false} LeastExists(ks: set<nat>)
    requires ks != {}
    ensures exists k :: IsLeast(ks, k)
  {
    var k :| k in ks;
    var rest := ks - {k};
    if rest == {} {
      assert ks == {k};
      assert IsLeast(ks, k);
    } else {
      LeastExists(rest);
      var m :| IsLeast(rest, m);
      forall i | i in ks ensures i in rest || i == k {}
      assert IsLeast(ks, if m < k then m else k);
    }
  }

  ghost function OldestOf(s: IndexState, seqs: set<nat>, max: nat): seq<Row>
    requires seqs <= s.queue.Keys
    decreases |seqs|
  {
    if seqs == {} || max == 0 then []
    else
      var n := Least(seqs);
      var key := s.queue[n];
      if key in s.records then [Row(n, key, s.records[key])] + OldestOf(s, seqs - {n}, max - 1)
      else OldestOf(s, seqs - {n}, max)
  }

  /** The oldest `max` rows, in sequence order, with their records. */
  ghost function OldestRows(s: IndexState, max: nat): seq<Row> {
    OldestOf(s, s.queue.Keys, max)
  }

  // ----- The invariant

  ghost predicate Queues(s: IndexState, key: string) {
    exists n :: n in s.queue && s.queue[n] == key
  }

  ghost predicate Valid(s: IndexState) {
    && (forall n :: n in s.queue ==> n < s.nextSeq)
    && (forall n :: n in s.queue ==> s.queue[n] in s.records)
    && (forall k :: k in s.records && s.records[k].status == Pending ==> Queues(s, k))
  }

  /** What no transaction ever changes about a record once it is accepted. */
  ghost predicate KeepsBindings(s: IndexState, s': IndexState) {
    forall k :: k in s.records ==>
      && k in s'.records
      && s'.records[k].SameContent(s.records[k])
      && (s'.records[k].status == Pending ==> s.records[k].status == Pending)
  }

  ghost predicate KeepsRows(s: IndexState, s': IndexState) {
    forall n :: n in s.queue ==> n in s'.queue && s'.queue[n] == s.queue[n]
  }

  ghost function Seqs(items: seq<Item>): set<nat> {
    set i | 0 <= i < |items| :: items[i].seq_
  }

  /** The items name rows that are in the queue. */
  ghost predicate AreRows(s: IndexState, items: seq<Item>) {
    forall i :: 0 <= i < |items| ==> items[i].seq_ in s.queue && s.queue[items[i].seq_] == items[i].key
  }

  lemma SubmitOneSpec(s: IndexState, sub: Submission)
    requires Valid(s)
    ensures var s' := SubmitOne(s, sub);
            && Valid(s') && KeepsBindings(s, s') && KeepsRows(s, s') && s'.localRoots == s.localRoots
            && s'.nextSeq >= s.nextSeq && sub.key in s'.records
  {
    var s' := SubmitOne(s, sub);
    if sub.key !in s.records {
      assert s'.queue[s.nextSeq] == sub.key;
      forall k | k in s'.records && s'.records[k].status == Pending ensures Queues(s', k) {
        if k in s.records {
          var n :| n in s.queue && s.queue[n] == k;
          assert n in s'.queue && s'.queue[n] == k;
        }
      }
    }
  }

  lemma {:induction false} SubmitAllSpec(s: IndexState, subs: seq<Submission>)
    requires Valid(s)
    ensures var s' := SubmitAll(s, subs);
            && Valid(s') && KeepsBindings(s, s') && KeepsRows(s, s') && s'.localRoots == s.localRoots
            && s'.nextSeq >= s.nextSeq
    ensures forall i :: 0 <= i < |subs| ==> subs[i].key in SubmitAll(s, subs).records
  {
    if subs != [] {
      var before := subs[..|subs| - 1];
      SubmitAllSpec(s, before);
      SubmitOneSpec(SubmitAll(s, before), subs[|subs| - 1]);
      forall i | 0 <= i < |subs| ensures subs[i].key in SubmitAll(s, subs).records {
        if i < |before| { assert before[i].key in SubmitAll(s, before).records; }
      }
    }
  }

  ghost predicate IsFirst(subs: seq<Submission>, i: nat, k: string) {
    i < |subs| && subs[i].key == k && forall j :: 0 <= j < i ==> subs[j].key != k
  }

  /** Known records stay as they are; a new one is the first submission of its key. */
  lemma {:induction false} SubmittedRecords(s: IndexState, subs: seq<Submission>, k: string)
    ensures k in s.records ==> k in SubmitAll(s, subs).records && SubmitAll(s, subs).records[k] == s.records[k]
    ensures k in SubmitAll(s, subs).records && k !in s.records ==>
              exists i: nat :: IsFirst(subs, i, k) && SubmitAll(s, subs).records[k] == subs[i].record
    ensures k !in SubmitAll(s, subs).records ==> forall i :: 0 <= i < |subs| ==> subs[i].key != k
  {
    if subs != [] {
      var before := subs[..|subs| - 1];
      SubmittedRecords(s, before, k);
      if k !in s.records {
        if k in SubmitAll(s, before).records {
          var i: nat :| IsFirst(before, i, k) && SubmitAll(s, before).records[k] == before[i].record;
          assert IsFirst(subs, i, k);
        } else if subs[|subs| - 1].key == k {
          assert IsFirst(subs, |subs| - 1, k);
        }
      }
    }
  }

  /** Row `n` is new and stands for the key first submitted at `i`. */
  ghost predicate IsAdded(s: IndexState, subs: seq<Submission>, s': IndexState, n: nat, i: nat) {
    s.nextSeq <= n < s'.nextSeq && n in s'.queue && s'.queue[n] !in s.records && IsFirst(subs, i, s'.queue[n])
  }

  /** The rows there were, and the numbers up to the next one, each for a key that was not known, in the order
      in which those were first submitted. */
  ghost predicate RowsAdded(s: IndexState, subs: seq<Submission>, s': IndexState) {
    && (forall n :: n in s'.queue <==> n in s.queue || s.nextSeq <= n < s'.nextSeq)
    && (forall n :: n in s.queue ==> s'.queue[n] == s.queue[n])
    && (forall n :: n in s'.queue && n >= s.nextSeq ==> exists i: nat :: IsAdded(s, subs, s', n, i))
    && (forall m: nat, n: nat, i: nat, j: nat :: m < n && IsAdded(s, subs, s', m, i) && IsAdded(s, subs, s', n, j) ==> i < j)
  }

  /** A batch adds one row for each key that was not known. */
  lemma {:induction false} SubmittedRows(s: IndexState, subs: seq<Submission>)
    requires Valid(s)
    ensures RowsAdded(s, subs, SubmitAll(s, subs))
  {
    hide KeepsBindings, KeepsRows, Valid, RowsAdded, SubmitOne;
    if subs != [] {
      var before, sub := subs[..|subs| - 1], subs[|subs| - 1];
      SubmittedRows(s, before);
      SubmitAllSpec(s, before);
      SubmittedRecords(s, before, sub.key);
      OneMoreRow(s, subs, SubmitAll(s, before), SubmitAll(s, subs));
    } else {
      NoRowsAdded(s);
    }
  }

  lemma NoRowsAdded(s: IndexState)
    requires Valid(s)
    ensures RowsAdded(s, [], s)
  {}

  /** None of the new keys is left out. */
  lemma {:induction false} NewKeysHaveRows(s: IndexState, subs: seq<Submission>, k: string)
    requires Valid(s) && k in SubmitAll(s, subs).records && k !in s.records
    ensures exists n :: n in SubmitAll(s, subs).queue && n >= s.nextSeq && SubmitAll(s, subs).queue[n] == k
  {
    if subs != [] {
      var before, sub := subs[..|subs| - 1], subs[|subs| - 1];
      SubmitAllSpec(s, before);
      var m := SubmitAll(s, before);
      hide SubmitAll, KeepsBindings, KeepsRows;
      if k in m.records {
        NewKeysHaveRows(s, before, k);
        var n :| n in m.queue && n >= s.nextSeq && m.queue[n] == k;
        RowStays(m, sub, n);
      } else {
        assert SubmitOne(m, sub).queue[m.nextSeq] == k;
      }
    }
  }

  lemma RowStays(m: IndexState, sub: Submission, n: nat)
    requires n in m.queue && n < m.nextSeq
    ensures n in SubmitOne(m, sub).queue && SubmitOne(m, sub).queue[n] == m.queue[n]
  {}

  lemma OneMoreRow(s: IndexState, subs: seq<Submission>, m: IndexState, s': IndexState)
    requires subs != [] && Valid(s) && Valid(m) && m.nextSeq >= s.nextSeq && RowsAdded(s, subs[..|subs| - 1], m)
    requires var sub := subs[|subs| - 1];
             && s' == SubmitOne(m, sub)
             && (sub.key !in m.records ==> sub.key !in s.records && forall i :: 0 <= i < |subs| - 1 ==> subs[i].key != sub.key)
    ensures RowsAdded(s, subs, s')
  {
    var last, sub := |subs| - 1, subs[|subs| - 1];
    var before := subs[..last];
    FirstsOf(subs);
    forall n: nat, i: nat ensures IsAdded(s, subs, s', n, i) <==>
        IsAdded(s, before, m, n, i) || (sub.key !in m.records && n == m.nextSeq && i == last)
    {
      AddedBy(s, subs, m, s', n, i);
    }
    forall n | n in s'.queue && n >= s.nextSeq ensures exists i: nat :: IsAdded(s, subs, s', n, i) {
      if n in m.queue {
        var i: nat :| IsAdded(s, before, m, n, i);
        assert IsAdded(s, subs, s', n, i);
      } else {
        assert IsAdded(s, subs, s', n, last);
      }
    }
  }

  lemma AddedBy(s: IndexState, subs: seq<Submission>, m: IndexState, s': IndexState, n: nat, i: nat)
    requires subs != [] && Valid(s) && Valid(m) && m.nextSeq >= s.nextSeq && RowsAdded(s, subs[..|subs| - 1], m)
    requires var sub := subs[|subs| - 1];
             && s' == SubmitOne(m, sub)
             && (sub.key !in m.records ==> sub.key !in s.records && forall i :: 0 <= i < |subs| - 1 ==> subs[i].key != sub.key)
    ensures var last, sub := |subs| - 1, subs[|subs| - 1];
            IsAdded(s, subs, s', n, i) <==>
              IsAdded(s, subs[..last], m, n, i) || (sub.key !in m.records && n == m.nextSeq && i == last)
  {
    var last := |subs| - 1;
    FirstsOf(subs);
    if s.nextSeq <= n < m.nextSeq {
      var j: nat :| IsAdded(s, subs[..last], m, n, j);
      assert IsFirst(subs, j, m.queue[n]);
    }
  }

  lemma FirstsOf(subs: seq<Submission>)
    requires subs != []
    ensures forall i: nat, k :: IsFirst(subs[..|subs| - 1], i, k) ==> IsFirst(subs, i, k)
    ensures forall i: nat, k :: IsFirst(subs, i, k) && i < |subs| - 1 ==> IsFirst(subs[..|subs| - 1], i, k)
  {}

  /** What a batch tells each submission, in terms of the records there were and the submissions before it:
      queued exactly when neither has its key; otherwise a duplicate or a conflict by the hash the key was
      first bound to. */
  lemma OutcomesMean(s: IndexState, subs: seq<Submission>, i: nat)
    requires i < |subs|
    ensures var sub, outcome := subs[i], Outcomes(s, subs)[i];
            && (outcome == Queued <==> sub.key !in s.records && forall j :: 0 <= j < i ==> subs[j].key != sub.key)
            && (outcome == DuplicateIdentical <==> BoundTo(s, subs[..i], sub.key, sub.record.contentHash))
            && (forall h :: outcome == Conflict(h) <==> BoundTo(s, subs[..i], sub.key, h) && h != sub.record.contentHash)
  {
    OutcomeAt(s, subs, i);
    SubmittedRecords(s, subs[..i], subs[i].key);
    forall j: nat | j < i ensures subs[..i][j] == subs[j] {}
    if k: nat :| IsFirst(subs[..i], k, subs[i].key) {
      forall h | BoundTo(s, subs[..i], subs[i].key, h) && subs[i].key !in s.records ensures h == subs[k].record.contentHash {
        var j: nat :| IsFirst(subs[..i], j, subs[i].key) && subs[..i][j].record.contentHash == h;
        assert j == k;
      }
    }
  }

  /** The key is bound to the hash: by a record, or else by the first submission of it. */
  ghost predicate BoundTo(s: IndexState, subs: seq<Submission>, key: string, hash: Hash) {
    if key in s.records then s.records[key].contentHash == hash
    else exists j: nat :: IsFirst(subs, j, key) && subs[j].record.contentHash == hash
  }

  lemma {:induction false} OutcomeAt(s: IndexState, subs: seq<Submission>, j: nat)
    requires j < |subs|
    ensures Outcomes(s, subs)[j] == OutcomeOf(SubmitAll(s, subs[..j]), subs[j])
  {
    var n := |subs| - 1;
    if j < n {
      OutcomeAt(s, subs[..n], j);
      assert subs[..n][..j] == subs[..j];
    }
  }

  /** Finishing a row whose record it is strands nobody: that record is no longer pending. */
  lemma FinishOneSpec(s: IndexState, item: Item, status: RecordStatus, now: int)
    requires Valid(s) && status != Pending && item.key in s.records
    requires item.seq_ in s.queue ==> s.queue[item.seq_] == item.key
    ensures var s' := FinishOne(s, item, status, now);
            && Valid(s') && KeepsBindings(s, s') && s'.localRoots == s.localRoots && s'.nextSeq == s.nextSeq
            && s'.records.Keys == s.records.Keys && s'.queue == s.queue - {item.seq_}
            && s'.records[item.key] == s.records[item.key].Settled(status, now)
            && forall k :: k in s.records && k != item.key ==> s'.records[k] == s.records[k]
  {
    var s' := FinishOne(s, item, status, now);
    forall k | k in s'.records && s'.records[k].status == Pending ensures Queues(s', k) {
      var n :| n in s.queue && s.queue[n] == k;
      assert n in s'.queue && s'.queue[n] == k;
    }
  }

  lemma {:induction false} FinishKeepsRoots(s: IndexState, items: seq<Item>, status: RecordStatus, now: int)
    ensures FinishAll(s, items, status, now).localRoots == s.localRoots
  {
    if items != [] { FinishKeepsRoots(s, items[..|items| - 1], status, now); }
  }

  lemma {:induction false} SubmitKeepsRoots(s: IndexState, subs: seq<Submission>)
    ensures SubmitAll(s, subs).localRoots == s.localRoots
  {
    if subs != [] { SubmitKeepsRoots(s, subs[..|subs| - 1]); }
  }

  ghost function KeysOf(items: seq<Item>): set<string> {
    set i | 0 <= i < |items| :: items[i].key
  }

  lemma {:induction false} FinishAllSpec(s: IndexState, items: seq<Item>, status: RecordStatus, now: int)
    requires Valid(s) && AreRows(s, items) && status != Pending
    ensures var s' := FinishAll(s, items, status, now);
            && Valid(s') && KeepsBindings(s, s') && s'.localRoots == s.localRoots && s'.nextSeq == s.nextSeq
            && s'.records.Keys == s.records.Keys && s'.queue == s.queue - Seqs(items)
            && forall k :: k in s.records ==>
                 s'.records[k] == if k in KeysOf(items) then s.records[k].Settled(status, now) else s.records[k]
  {
    hide FinishOne, Valid, KeepsBindings;
    if items == [] {
      assert Seqs(items) == {} && KeysOf(items) == {};
      KeepsBindingsComposes(s, s, s);
    } else {
      var before, last := items[..|items| - 1], items[|items| - 1];
      RowsPrefix(s, items);
      FinishAllSpec(s, before, status, now);
      var m := FinishAll(s, before, status, now);
      FinishOneSpec(m, last, status, now);
      SplitLast(items);
      KeepsBindingsComposes(s, m, FinishAll(s, items, status, now));
    }
  }

  lemma KeepsBindingsComposes(a: IndexState, b: IndexState, c: IndexState)
    requires b == a || KeepsBindings(a, b)
    requires c == b || KeepsBindings(b, c)
    ensures KeepsBindings(a, c)
  {}

  lemma RowsPrefix(s: IndexState, items: seq<Item>)
    requires Valid(s) && AreRows(s, items) && items != []
    ensures AreRows(s, items[..|items| - 1])
    ensures items[|items| - 1].seq_ in s.queue && s.queue[items[|items| - 1].seq_] == items[|items| - 1].key
    ensures items[|items| - 1].key in s.records
  {
    var before := items[..|items| - 1];
    forall i | 0 <= i < |before| ensures before[i].seq_ in s.queue && s.queue[before[i].seq_] == before[i].key {
      assert before[i] == items[i];
    }
  }

  lemma SplitLast(items: seq<Item>)
    requires items != []
    ensures Seqs(items) == Seqs(items[..|items| - 1]) + {items[|items| - 1].seq_}
    ensures KeysOf(items) == KeysOf(items[..|items| - 1]) + {items[|items| - 1].key}
  {
    var before, last := items[..|items| - 1], items[|items| - 1];
    forall i | 0 <= i < |items|
      ensures items[i].seq_ in Seqs(before) + {last.seq_} && items[i].key in KeysOf(before) + {last.key}
    {
      if i < |before| { assert before[i] == items[i]; }
    }
    forall i | 0 <= i < |before| ensures before[i].seq_ in Seqs(items) && before[i].key in KeysOf(items) {
      assert items[i] == before[i];
    }
  }

  ghost function RowSeqs(rows: seq<Row>): set<nat> {
    set row | row in rows :: row.seq_
  }

  /** A batch is queue rows with their records, as many as asked for if there are that many. */
  lemma {:induction false} OldestOfSpec(s: IndexState, seqs: set<nat>, max: nat)
    requires Valid(s) && seqs <= s.queue.Keys
    ensures |OldestOf(s, seqs, max)| == (if max < |seqs| then max else |seqs|)
    ensures forall row :: row in OldestOf(s, seqs, max) ==>
              && row.seq_ in seqs && s.queue[row.seq_] == row.key
              && row.key in s.records && row.record == s.records[row.key]
    decreases |seqs|
  {
    if seqs != {} && max != 0 {
      OldestOfSpec(s, seqs - {Least(seqs)}, max - 1);
    }
  }

  ghost predicate InOrder(rows: seq<Row>) {
    forall i, j :: 0 <= i < j < |rows| ==> rows[i].seq_ < rows[j].seq_
  }

  /** Every number not taken is higher than every number taken. */
  ghost predicate TakesLowest(rows: seq<Row>, seqs: set<nat>) {
    forall row, n :: row in rows && n in seqs && n !in RowSeqs(rows) ==> row.seq_ < n
  }

  lemma OrderCons(first: Row, rest: seq<Row>, seqs: set<nat>)
    requires InOrder(rest) && TakesLowest(rest, seqs - {first.seq_}) && IsLeast(seqs, first.seq_)
    requires forall row :: row in rest ==> row.seq_ in seqs - {first.seq_}
    ensures InOrder([first] + rest) && TakesLowest([first] + rest, seqs)
  {
    var rows := [first] + rest;
    forall i, j | 0 <= i < j < |rows| ensures rows[i].seq_ < rows[j].seq_ {
      assert rows[j] == rest[j - 1] && rest[j - 1] in rest;
    }
    assert first in rows && forall row :: row in rest ==> row in rows;
    assert RowSeqs(rows) == {first.seq_} + RowSeqs(rest);
  }

  /** It is in sequence order, and the rows left out are the newer ones. */
  lemma {:induction false} OldestOfOrder(s: IndexState, seqs: set<nat>, max: nat)
    requires Valid(s) && seqs <= s.queue.Keys
    ensures InOrder(OldestOf(s, seqs, max)) && TakesLowest(OldestOf(s, seqs, max), seqs)
    decreases |seqs|
  {
    hide InOrder, TakesLowest, RowSeqs;
    if seqs != {} && max != 0 {
      var n := Least(seqs);
      OldestOfSpec(s, seqs - {n}, max - 1);
      OldestOfOrder(s, seqs - {n}, max - 1);
      OrderCons(Row(n, s.queue[n], s.records[s.queue[n]]), OldestOf(s, seqs - {n}, max - 1), seqs);
    } else {
      EmptyInOrder(seqs);
    }
  }

  lemma EmptyInOrder(seqs: set<nat>)
    ensures InOrder([]) && TakesLowest([], seqs)
  {}

  lemma RequeueSpec(s: IndexState, key: string)
    requires Valid(s)
    ensures var s' := RequeueOne(s, key);
            && Valid(s') && KeepsBindings(s, s') && KeepsRows(s, s') && s'.localRoots == s.localRoots
            && s'.records == s.records
            && (key in s.records ==> Queues(s', key) && s'.queue.Keys == s.queue.Keys + {s.nextSeq} && s'.nextSeq == s.nextSeq + 1)
            && (key !in s.records ==> s' == s)
  {
    var s' := RequeueOne(s, key);
    if key in s.records { assert s'.queue[s.nextSeq] == key; }
    forall k | Queues(s, k) ensures Queues(s', k) {
      var n :| n in s.queue && s.queue[n] == k;
      assert n in s'.queue && s'.queue[n] == k;
    }
  }

  // ----- Runs

  datatype Op =
    | Submit(subs: seq<Submission>)
    | Finish(items: seq<Item>, status: RecordStatus, now: int)
    | Requeue(key: string)

  ghost predicate OpEnabled(s: IndexState, op: Op) {
    op.Finish? ==> AreRows(s, op.items) && op.status != Pending
  }

  function ApplyOp(s: IndexState, op: Op): IndexState {
    match op
    case Submit(subs) => SubmitAll(s, subs)
    case Finish(items, status, now) => FinishAll(s, items, status, now)
    case Requeue(key) => RequeueOne(s, key)
  }

  ghost predicate IndexRun(states: seq<IndexState>, ops: seq<Op>) {
    && |states| == |ops| + 1
    && forall i :: 0 <= i < |ops| ==> OpEnabled(states[i], ops[i]) && states[i + 1] == ApplyOp(states[i], ops[i])
  }

  /** Over any run: the invariant holds at every point, and from any point to any later one a key
      keeps its content hash and partition, and no record goes back to pending. */
  lemma {:induction false} RunsKeepInvariant(states: seq<IndexState>, ops: seq<Op>, i: nat, j: nat)
    requires IndexRun(states, ops) && Valid(states[0]) && i <= j < |states|
    ensures Valid(states[i]) && Valid(states[j]) && KeepsBindings(states[i], states[j])
    decreases j
  {
    if j > 0 {
      RunsKeepInvariant(states, ops, if i < j then i else j - 1, j - 1);
      var op := ops[j - 1];
      assert OpEnabled(states[j - 1], op) && states[j] == ApplyOp(states[j - 1], op);
      match op {
        case Submit(subs) => SubmitAllSpec(states[j - 1], subs);
        case Finish(items, status, now) => FinishAllSpec(states[j - 1], items, status, now);
        case Requeue(key) => RequeueSpec(states[j - 1], key);
      }
    }
  }
}
