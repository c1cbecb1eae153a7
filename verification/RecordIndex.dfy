/** The index object: one method per database transaction (`registryd/src/index.rs`). Where the database
    is not `reliable` any transaction may fail; one that does leaves the database as it was. */
module RecordIndexes {
  import opened Wrappers
  import opened Digests
  import opened Index

  class RecordIndex {
    const reliable: bool                 // no transaction fails
    var records: map<string, IndexRecord>
    var queue: map<nat, string>
    var nextSeq: nat
    var localRoots: map<nat, Hash>

    function State(): IndexState
      reads this
    {
      IndexState(records, queue, nextSeq, localRoots)
    }

    constructor (reliable: bool)
      ensures State() == IndexState(map[], map[], 0, map[]) && this.reliable == reliable
    {
      this.reliable := reliable;
      records, queue, nextSeq, localRoots := map[], map[], 0, map[];
    }

    method SubmitMany(subs: seq<Submission>) returns (r: Result<seq<SubmitOutcome>, DbError>)
      modifies this
      ensures reliable ==> r.Success?
      ensures r.Success? ==> State() == SubmitAll(old(State()), subs) && r.value == Outcomes(old(State()), subs)
      ensures r.Failure? ==> State() == old(State())
    {
      var failed: bool := *;
      if failed && !reliable {
        return Failure(DbError);
      }
      var outcomes: seq<SubmitOutcome> := [];
      var rs, q, n := records, queue, nextSeq;
      for i := 0 to |subs|
        invariant IndexState(rs, q, n, localRoots) == SubmitAll(old(State()), subs[..i])
        invariant outcomes == Outcomes(old(State()), subs[..i])
      {
        assert subs[..i + 1][..i] == subs[..i];
        var sub := subs[i];
        if sub.key in rs {
          var existing := rs[sub.key];
          outcomes := outcomes + [
            if existing.contentHash == sub.record.contentHash then DuplicateIdentical else Conflict(existing.contentHash)];
        } else {
          rs := rs[sub.key := sub.record];
          q := q[n := sub.key];
          n := n + 1;
          outcomes := outcomes + [Queued];
        }
      }
      assert subs[..|subs|] == subs;
      records, queue, nextSeq := rs, q, n;
      return Success(outcomes);
    }

    method GetMany(keys: seq<string>) returns (r: Result<seq<Option<IndexRecord>>, DbError>)
      ensures reliable ==> r.Success?
      ensures r.Success? ==>
                |r.value| == |keys| &&
                forall i :: 0 <= i < |keys| ==>
                  r.value[i] == if keys[i] in State().records then Some(State().records[keys[i]]) else None
    {
      var failed: bool := *;
      if failed && !reliable {
        return Failure(DbError);
      }
      var out: seq<Option<IndexRecord>> := [];
      for i := 0 to |keys|
        invariant |out| == i
        invariant forall k :: 0 <= k < i ==> out[k] == if keys[k] in records then Some(records[keys[k]]) else None
      {
        out := out + [if keys[i] in records then Some(records[keys[i]]) else None];
      }
      return Success(out);
    }

    /** Iterates the queue table, which is ordered by sequence number. */
    method PendingBatch(max: nat) returns (r: Result<seq<Row>, DbError>)
      ensures reliable ==> r.Success?
      ensures r.Success? ==> r.value == OldestRows(State(), max)
    {
      var failed: bool := *;
      if failed && !reliable {
        return Failure(DbError);
      }
      var out: seq<Row> := [];
      var rest := queue.Keys;
      while rest != {} && |out| < max
        invariant rest <= queue.Keys && |out| <= max
        invariant out + OldestOf(State(), rest, max - |out|) == OldestRows(State(), max)
        decreases |rest|
      {
        var n := First(rest);
        rest := rest - {n};
        var key := queue[n];
        if key in records {
          out := out + [Row(n, key, records[key])];
        }
      }
      return Success(out);
    }

    method First(ks: set<nat>) returns (n: nat)
      requires ks != {}
      ensures n == Least(ks)
    {
      n :| n in ks;
      var rest := ks - {n};
      while rest != {}
        invariant n in ks && rest <= ks && forall j :: j in ks && j !in rest ==> n <= j
        decreases |rest|
      {
        var m :| m in rest;
        rest := rest - {m};
        if m < n {
          n := m;
        }
      }
    }

    method Finish(items: seq<Item>, status: RecordStatus, now: int) returns (r: Result<(), DbError>)
      modifies this
      ensures reliable ==> r.Success?
      ensures r.Success? ==> State() == FinishAll(old(State()), items, status, now)
      ensures r.Failure? ==> State() == old(State())
    {
      if items == [] {
        return Success(());
      }
      var failed: bool := *;
      if failed && !reliable {
        return Failure(DbError);
      }
      var rs, q := records, queue;
      for i := 0 to |items|
        invariant IndexState(rs, q, nextSeq, localRoots) == FinishAll(old(State()), items[..i], status, now)
      {
        assert items[..i + 1][..i] == items[..i];
        var key := items[i].key;
        if key in rs {
          var record := rs[key].(status := status);
          if status == Published {
            record := record.(publishedAt := Some(now));
          }
          rs := rs[key := record];
        }
        q := q - {items[i].seq_};
      }
      assert items[..|items|] == items;
      records, queue := rs, q;
      return Success(());
    }

    method Requeue(key: string) returns (r: Result<bool, DbError>)
      modifies this
      ensures reliable ==> r.Success?
      ensures r.Success? ==> State() == RequeueOne(old(State()), key) && r.value == (key in old(records))
      ensures r.Failure? ==> State() == old(State())
    {
      var failed: bool := *;
      if failed && !reliable {
        return Failure(DbError);
      }
      if key !in records {
        return Success(false);
      }
      var n := nextSeq;
      nextSeq := n + 1;
      queue := queue[n := key];
      return Success(true);
    }

    method SetLocalRoot(partition: nat, root: Hash) returns (r: Result<(), DbError>)
      modifies this
      ensures reliable ==> r.Success?
      ensures r.Success? ==> State() == old(State()).(localRoots := old(localRoots)[partition := root])
      ensures r.Failure? ==> State() == old(State())
    {
      var failed: bool := *;
      if failed && !reliable {
        return Failure(DbError);
      }
      localRoots := localRoots[partition := root];
      return Success(());
    }

    method AllContentHashes() returns (r: Result<set<Hash>, DbError>)
      ensures reliable ==> r.Success?
      ensures r.Success? ==> r.value == ContentHashes(State())
    {
      var failed: bool := *;
      if failed && !reliable {
        return Failure(DbError);
      }
      var out: set<Hash> := {};
      var rest := records.Keys;
      while rest != {}
        invariant rest <= records.Keys
        invariant out == set k | k in records && k !in rest :: records[k].contentHash
        decreases |rest|
      {
        var k :| k in rest;
        rest := rest - {k};
        out := out + {records[k].contentHash};
      }
      return Success(out);
    }

    method PublishedKeysForPartition(partition: nat) returns (r: Result<set<string>, DbError>)
      ensures reliable ==> r.Success?
      ensures r.Success? ==>
                forall k :: k in r.value <==>
                  && k in State().records
                  && State().records[k].partitionId == partition
                  && State().records[k].status == Published
    {
      var failed: bool := *;
      if failed && !reliable {
        return Failure(DbError);
      }
      var out: set<string> := {};
      var rest := records.Keys;
      while rest != {}
        invariant rest <= records.Keys
        invariant forall k :: k in out <==>
                    k in records && k !in rest && records[k].partitionId == partition && records[k].status == Published
        decreases |rest|
      {
        var k :| k in rest;
        rest := rest - {k};
        if records[k].partitionId == partition && records[k].status == Published {
          out := out + {k};
        }
      }
      return Success(out);
    }
  }
}
