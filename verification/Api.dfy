/** Batch submission (`registryd/src/api.rs`): validate, check what is known, store what is new, commit
    once - proved to give what submitting the records one at a time would give. */
module Api {
  import opened Wrappers
  import opened Digests
  import opened Index
  import opened RecordIndexes
  import opened NodeCodec
  import opened Registry
  import opened Daemon

  // ----- Validation

  /** A submitted value: a JSON object in its canonical text, a string, or anything else. */
  datatype Value = Object(text: Bytes) | Text(text: Bytes) | Other

  datatype Request = Request(key: string, value: Value)

  datatype ErrorCode = InvalidKey | InvalidValue | ValueTooLarge | Internal | BatchTooLarge

  datatype Checked = Checked(sub: Submission, value: Bytes)

  /** Key syntax, JSON, time stamps and content codes are left uninterpreted. */
  const IsValidRecordKey: string -> bool
  const ParsesToObject: Bytes -> bool
  const DeclarationTime: Bytes -> int
  const ContentCodeOf: Bytes -> Option<nat>
  const MAX_VALUE_BYTES: nat
  const BATCH_MAX_RECORDS: nat

  function CanonicalValue(value: Value): Result<Bytes, ErrorCode> {
    match value
    case Object(text) => Success(text)
    case Text(text) => if ParsesToObject(text) then Success(text) else Failure(InvalidValue)
    case Other => Failure(InvalidValue)
  }

  function ValidateOne(req: Request): Result<Checked, ErrorCode> {
    if !IsValidRecordKey(req.key) then Failure(InvalidKey)
    else
      match CanonicalValue(req.value)
      case Failure(code) => Failure(code)
      case Success(text) =>
        if |text| > MAX_VALUE_BYTES then Failure(ValueTooLarge)
        else
          Success(Checked(
            Submission(req.key, IndexRecord(
              Blake3(text), |text|, PartitionId(Sha256(req.key), PARTITIONS), Pending,
              DeclarationTime(text), ContentCodeOf(text), None)),
            text))
  }

  /** What the JSON parser promises about the text of an object. */
  ghost predicate ObjectText() {
    forall text :: ParsesToObject(text) ==> IsValue(text)
  }

  /** A validated record meets every condition under which the registry accepts it. */
  lemma ValidatedIsAcceptable(req: Request)
    requires ObjectText() && (req.value.Object? ==> ParsesToObject(req.value.text))
    requires ValidateOne(req).Success?
    ensures var c := ValidateOne(req).value;
            Validated(c.sub) && IsValue(c.value) && c.sub.record.contentHash == Blake3(c.value)
  {}

  // ----- What the client is told

  datatype SlotResult =
    | Rejected(code: ErrorCode)
    | Accepted(partition: nat, duplicate: bool)
    | Conflicting(existing: Hash)

  function Render(outcome: SubmitOutcome, partition: nat): SlotResult {
    match outcome
    case Queued => Accepted(partition, false)
    case DuplicateIdentical => Accepted(partition, true)
    case Conflict(existing) => Conflicting(existing)
  }

  // ----- The sequential reference

  /** A slot's fate: rejected, lost to a failed blob write, or submitted. */
  datatype Fate = Invalid(code: ErrorCode) | Unstored | Submitted(sub: Submission)

  function StateAfter(s: IndexState, fates: seq<Fate>): IndexState {
    if fates == [] then s
    else
      var before := StateAfter(s, fates[..|fates| - 1]);
      match fates[|fates| - 1]
      case Submitted(sub) => SubmitOne(before, sub)
      case _ => before
  }

  function ResultOf(s: IndexState, fates: seq<Fate>, i: nat): SlotResult
    requires i < |fates|
  {
    match fates[i]
    case Invalid(code) => Rejected(code)
    case Unstored => Rejected(Internal)
    case Submitted(sub) => Render(OutcomeOf(StateAfter(s, fates[..i]), sub), sub.record.partitionId)
  }

  // ----- The batch

  datatype Candidate = Candidate(slot: nat, checked: Checked)

  function Candidates(reqs: seq<Request>): seq<Candidate> {
    if reqs == [] then []
    else
      var n := |reqs| - 1;
      Candidates(reqs[..n]) +
        (match ValidateOne(reqs[n]) case Success(c) => [Candidate(n, c)] case Failure(_) => [])
  }

  /** The candidates whose key is not known and whose slot has not failed. */
  function Keep(cs: seq<Candidate>, known: set<string>, failed: set<nat>): seq<Candidate> {
    if cs == [] then []
    else
      var last := cs[|cs| - 1];
      Keep(cs[..|cs| - 1], known, failed) +
        (if last.checked.sub.key in known || last.slot in failed then [] else [last])
  }

  function Subs(cs: seq<Candidate>): seq<Submission> {
    seq(|cs|, i requires 0 <= i < |cs| => cs[i].checked.sub)
  }

  function FateOf(req: Request, slot: nat, failed: set<nat>): Fate {
    match ValidateOne(req)
    case Failure(code) => Invalid(code)
    case Success(c) => if slot in failed then Unstored else Submitted(c.sub)
  }

  function Fates(reqs: seq<Request>, failed: set<nat>): seq<Fate> {
    seq(|reqs|, i requires 0 <= i < |reqs| => FateOf(reqs[i], i, failed))
  }

  lemma {:induction false} CandidatesAre(reqs: seq<Request>)
    ensures forall c :: c in Candidates(reqs) <==>
              c.slot < |reqs| && ValidateOne(reqs[c.slot]) == Success(c.checked)
    ensures Increasing(Candidates(reqs))
  {
    hide ValidateOne;
    if reqs != [] {
      var n := |reqs| - 1;
      CandidatesAre(reqs[..n]);
      forall c ensures c in Candidates(reqs) <==> c.slot < |reqs| && ValidateOne(reqs[c.slot]) == Success(c.checked) {
        if c.slot < n { assert reqs[..n][c.slot] == reqs[c.slot]; }
      }
      forall c | c in Candidates(reqs[..n]) ensures c.slot < n {}
    }
  }

  lemma {:induction false} KeepMembers(cs: seq<Candidate>, known: set<string>, failed: set<nat>)
    ensures forall c :: c in Keep(cs, known, failed) <==> c in cs && c.checked.sub.key !in known && c.slot !in failed
  {
    if cs != [] {
      KeepMembers(cs[..|cs| - 1], known, failed);
      assert cs == cs[..|cs| - 1] + [cs[|cs| - 1]];
    }
  }

  lemma {:induction false} KeepTwice(cs: seq<Candidate>, known: set<string>, failed: set<nat>)
    ensures Keep(Keep(cs, known, {}), {}, failed) == Keep(cs, known, failed)
  {
    if cs != [] {
      var before, last := cs[..|cs| - 1], cs[|cs| - 1];
      KeepTwice(before, known, failed);
      var tasks := Keep(before, known, {});
      if last.checked.sub.key in known {
        assert tasks + [] == tasks;
      } else {
        assert (tasks + [last])[..|tasks|] == tasks;
      }
    }
  }

  /** A failure in a slot not among them changes nothing. */
  lemma {:induction false} KeepUnaffected(cs: seq<Candidate>, known: set<string>, failed: set<nat>, slot: nat)
    requires forall c :: c in cs ==> c.slot != slot
    ensures Keep(cs, known, failed + {slot}) == Keep(cs, known, failed)
  {
    if cs != [] {
      assert cs[|cs| - 1] in cs;
      KeepUnaffected(cs[..|cs| - 1], known, failed, slot);
    }
  }

  lemma KeepStep(cs: seq<Candidate>, c: Candidate, known: set<string>, failed: set<nat>)
    ensures c.checked.sub.key in known || c.slot in failed ==> Keep(cs + [c], known, failed) == Keep(cs, known, failed)
    ensures c.checked.sub.key !in known && c.slot !in failed ==> Keep(cs + [c], known, failed) == Keep(cs, known, failed) + [c]
  {
    assert (cs + [c])[..|cs|] == cs;
    assert Keep(cs, known, failed) + [] == Keep(cs, known, failed);
  }

  lemma SubsStep(s: IndexState, cs: seq<Candidate>, c: Candidate)
    ensures SubmitAll(s, Subs(cs + [c])) == SubmitOne(SubmitAll(s, Subs(cs)), c.checked.sub)
  {
    assert Subs(cs + [c])[..|cs|] == Subs(cs);
  }

  lemma CandidatesStep(reqs: seq<Request>)
    requires reqs != []
    ensures var n := |reqs| - 1;
            Candidates(reqs) == match ValidateOne(reqs[n])
                                case Failure(_) => Candidates(reqs[..n])
                                case Success(c) => Candidates(reqs[..n]) + [Candidate(n, c)]
  {
    assert Candidates(reqs[..|reqs| - 1]) + [] == Candidates(reqs[..|reqs| - 1]);
  }

  lemma FatesStep(s: IndexState, reqs: seq<Request>, failed: set<nat>)
    requires reqs != []
    ensures var n := |reqs| - 1;
            var before := StateAfter(s, Fates(reqs[..n], failed));
            StateAfter(s, Fates(reqs, failed)) ==
              match FateOf(reqs[n], n, failed) case Submitted(sub) => SubmitOne(before, sub) case _ => before
  {
    assert Fates(reqs, failed)[..|reqs| - 1] == Fates(reqs[..|reqs| - 1], failed);
  }

  /** Known keys add nothing, so submitting the new ones alone comes to the same index, at every slot. */
  lemma {:induction false} SameState(s: IndexState, reqs: seq<Request>, known: set<string>, failed: set<nat>)
    requires known <= s.records.Keys
    ensures StateAfter(s, Fates(reqs, failed)) == SubmitAll(s, Subs(Keep(Candidates(reqs), known, failed)))
  {
    if reqs != [] {
      hide StateAfter, Candidates, Keep, Subs, SubmitAll, Fates, ValidateOne;
      var n := |reqs| - 1;
      SameState(s, reqs[..n], known, failed);
      FatesStep(s, reqs, failed);
      CandidatesStep(reqs);
      var before := Keep(Candidates(reqs[..n]), known, failed);
      match ValidateOne(reqs[n]) {
        case Failure(_) =>
        case Success(c) =>
          KeepStep(Candidates(reqs[..n]), Candidate(n, c), known, failed);
          SubsStep(s, before, Candidate(n, c));
          if c.sub.key in known {
            SubmittedRecords(s, Subs(before), c.sub.key);
          }
      }
    }
  }

  lemma OutcomeOfKnown(s0: IndexState, s: IndexState, later: seq<Submission>, sub: Submission)
    requires KeepsBindings(s0, s) && sub.key in s0.records
    ensures OutcomeOf(SubmitAll(s, later), sub) == OutcomeOf(s0, sub)
  {
    SubmittedRecords(s, later, sub.key);
  }

  // ----- The phases

  /** Rejections are answered at once; the rest become candidates. */
  method ValidateAll(reqs: seq<Request>) returns (results: seq<Option<SlotResult>>, candidates: seq<Candidate>)
    ensures candidates == Candidates(reqs) && |results| == |reqs|
    ensures forall i :: 0 <= i < |reqs| ==>
              results[i] == match ValidateOne(reqs[i]) case Failure(code) => Some(Rejected(code)) case Success(_) => None
  {
    results, candidates := [], [];
    for i := 0 to |reqs|
      invariant candidates == Candidates(reqs[..i]) && |results| == i
      invariant forall k :: 0 <= k < i ==>
                  results[k] == match ValidateOne(reqs[k]) case Failure(code) => Some(Rejected(code)) case Success(_) => None
    {
      assert reqs[..i + 1][..i] == reqs[..i];
      match ValidateOne(reqs[i]) {
        case Success(c) =>
          results := results + [None];
          candidates := candidates + [Candidate(i, c)];
        case Failure(code) =>
          results := results + [Some(Rejected(code))];
      }
    }
    assert reqs[..|reqs|] == reqs;
  }

  function Answer(s: IndexState, c: Candidate): SlotResult {
    Render(OutcomeOf(s, c.checked.sub), c.checked.sub.record.partitionId)
  }

  ghost predicate Answered(results: seq<Option<SlotResult>>, cs: seq<Candidate>, s: IndexState) {
    forall c :: c in cs && c.checked.sub.key in s.records ==> c.slot < |results| && results[c.slot] == Some(Answer(s, c))
  }

  ghost function SlotsOf(cs: seq<Candidate>): set<nat> {
    set c | c in cs :: c.slot
  }

  ghost predicate Increasing(cs: seq<Candidate>) {
    forall i, j :: 0 <= i < j < |cs| ==> cs[i].slot < cs[j].slot
  }

  lemma NextCandidate(cs: seq<Candidate>, i: nat)
    requires i < |cs| && Increasing(cs)
    ensures cs[..i + 1] == cs[..i] + [cs[i]] && cs[..i + 1][..i] == cs[..i]
    ensures cs[i].slot !in SlotsOf(cs[..i]) && SlotsOf(cs[..i + 1]) == SlotsOf(cs[..i]) + {cs[i].slot}
  {
    forall d | d in cs[..i] ensures d.slot < cs[i].slot {
      var j :| 0 <= j < i && cs[j] == d;
    }
    assert cs[..i + 1] == cs[..i] + [cs[i]];
  }

  lemma AnsweredNext(results: seq<Option<SlotResult>>, cs: seq<Candidate>, c: Candidate, s: IndexState)
    requires Answered(results, cs, s) && c.slot < |results| && c.slot !in SlotsOf(cs)
    ensures c.checked.sub.key !in s.records ==> Answered(results, cs + [c], s)
    ensures Answered(results[c.slot := Some(Answer(s, c))], cs + [c], s)
  {
    forall d | d in cs ensures d.slot != c.slot {
      assert d.slot in SlotsOf(cs);
    }
  }

  /** Known keys are answered from the index without touching the blob store. */
  method Precheck(index: RecordIndex, candidates: seq<Candidate>, given: seq<Option<SlotResult>>)
    returns (r: Result<(), DbError>, results: seq<Option<SlotResult>>, tasks: seq<Candidate>)
    requires Increasing(candidates) && forall c :: c in candidates ==> c.slot < |given|
    ensures |results| == |given| && (index.reliable ==> r.Success?)
    ensures r.Success? ==> tasks == Keep(candidates, index.State().records.Keys, {})
    ensures r.Success? ==> Answered(results, candidates, index.State())
    ensures forall i :: 0 <= i < |given| && i !in SlotsOf(candidates) ==> results[i] == given[i]
  {
    hide Answered, SlotsOf, Increasing;
    results, tasks := given, [];
    var keys := seq(|candidates|, i requires 0 <= i < |candidates| => candidates[i].checked.sub.key);
    var existing := index.GetMany(keys);
    if existing.Failure? {
      return Failure(DbError), results, tasks;
    }
    NoneAnswered(results, index.State());
    for i := 0 to |candidates|
      invariant |results| == |given|
      invariant tasks == Keep(candidates[..i], index.State().records.Keys, {})
      invariant Answered(results, candidates[..i], index.State())
      invariant forall k :: 0 <= k < |given| && k !in SlotsOf(candidates) ==> results[k] == given[k]
    {
      var c := candidates[i];
      NextCandidate(candidates, i);
      AnsweredNext(results, candidates[..i], c, index.State());
      SlotIn(candidates, i);
      match existing.value[i] {
        case None =>
          tasks := tasks + [c];
        case Some(prior) =>
          var same := prior.contentHash == c.checked.sub.record.contentHash;
          results := results[c.slot :=
            Some(if same then Accepted(c.checked.sub.record.partitionId, true) else Conflicting(prior.contentHash))];
      }
    }
    assert candidates[..|candidates|] == candidates;
    return Success(()), results, tasks;
  }

  lemma NoneAnswered(results: seq<Option<SlotResult>>, s: IndexState)
    ensures Answered(results, [], s)
  {}

  lemma SlotIn(cs: seq<Candidate>, i: nat)
    requires i < |cs|
    ensures cs[i].slot in SlotsOf(cs)
  {
    assert cs[i] in cs;
  }

  /** What the registry asks of a submission and its value. */
  predicate Acceptable(c: Checked) {
    Validated(c.sub) && IsValue(c.value) && c.sub.record.contentHash == Blake3(c.value)
  }

  /** Stores one value and puts its submission in flight. */
  method StoreOne(d: Daemon, c: Checked, ghost start: Sys) returns (stored: bool)
    requires d.Ready() && Reaches(start, d.State()) && d.inBatch && Acceptable(c)
    modifies d`inflight, d`batched, d.store
    ensures d.Ready() && Reaches(start, d.State())
    ensures d.batched == old(d.batched) + if stored then multiset{c.sub} else multiset{}
    ensures (!stored && d.store.reliable) || old(d.store.clashed) ==> d.store.clashed
  {
    hide BaseInv, Reaches, Enabled, After;
    ghost var before := d.State();
    var put := d.store.Put(c.value);
    stored := put.Success?;
    if stored {
      d.inflight := d.inflight + multiset{c.sub};
      d.batched := d.batched + multiset{c.sub};
      AcceptStep(before, c);
      Took(start, before, Accept(c.sub, c.value), d.State());
    }
  }

  lemma AcceptStep(s: Sys, c: Checked)
    requires Acceptable(c) && Storable(s.blobs, c.value)
    ensures Enabled(s, Accept(c.sub, c.value))
    ensures After(s, Accept(c.sub, c.value)) ==
            s.(blobs := s.blobs[Blake3(c.value) := c.value], inflight := s.inflight + multiset{c.sub})
  {}

  /** Values are stored before the index claims their keys, other tasks acting between any two writes; a
      failed write rejects its own slot only. */
  method StoreValues(d: Daemon, tasks: seq<Candidate>, given: seq<Option<SlotResult>>, ghost start: Sys)
    returns (results: seq<Option<SlotResult>>, prepared: seq<Candidate>, ghost failed: set<nat>)
    requires EntrySerializer() && d.Ready() && Reaches(start, d.State()) && d.inBatch && d.batched == multiset{}
    requires Increasing(tasks) && forall c :: c in tasks ==> c.slot < |given| && Acceptable(c.checked)
    modifies d`inflight, d`batched, d`activeWrites, d`publisher, d`dangling, d.index, d.store, d.pointerDoc
    ensures d.Ready() && Reaches(start, d.State()) && d.batched == multiset(Subs(prepared))
    ensures d.offline ==> d.index.State() == old(d.index.State())
    ensures prepared == Keep(tasks, {}, failed) && |results| == |given|
    ensures failed <= SlotsOf(tasks)
    ensures d.offline && d.store.reliable && failed != {} ==> d.store.clashed
    ensures forall i :: 0 <= i < |given| ==> results[i] == if i in failed then Some(Rejected(Internal)) else given[i]
  {
    hide SlotsOf, Increasing, Keep, Subs, Reaches, Daemon.Ready, Acceptable, EntrySerializer;
    NothingKept();
    results, prepared, failed := given, [], {};
    for i := 0 to |tasks|
      invariant d.Ready() && Reaches(start, d.State()) && d.batched == multiset(Subs(prepared))
      invariant d.offline ==> d.index.State() == old(d.index.State())
      invariant prepared == Keep(tasks[..i], {}, failed) && |results| == |given|
      invariant failed <= SlotsOf(tasks[..i])
      invariant d.offline && d.store.reliable && failed != {} ==> d.store.clashed
      invariant forall k :: 0 <= k < |given| ==> results[k] == if k in failed then Some(Rejected(Internal)) else given[k]
    {
      var c := tasks[i];
      KeepNext(tasks, i, failed);
      d.AnyTasks(start);
      var stored := StoreOne(d, c.checked, start);
      if stored {
        SubsNext(prepared, c);
        prepared := prepared + [c];
      } else {
        results := results[c.slot := Some(Rejected(Internal))];
        failed := failed + {c.slot};
      }
    }
    assert tasks[..|tasks|] == tasks;
  }

  lemma NothingKept()
    ensures Keep([], {}, {}) == [] && Subs([]) == [] && SlotsOf([]) == {}
  {}

  /** One more task: kept when its slot does not fail, and without effect on the others when it does. */
  lemma KeepNext(tasks: seq<Candidate>, i: nat, failed: set<nat>)
    requires i < |tasks| && Increasing(tasks) && failed <= SlotsOf(tasks[..i])
    ensures Keep(tasks[..i + 1], {}, failed) == Keep(tasks[..i], {}, failed) + [tasks[i]]
    ensures Keep(tasks[..i + 1], {}, failed + {tasks[i].slot}) == Keep(tasks[..i], {}, failed)
    ensures SlotsOf(tasks[..i + 1]) == SlotsOf(tasks[..i]) + {tasks[i].slot}
  {
    hide SlotsOf, Increasing, Keep;
    var c := tasks[i];
    NextCandidate(tasks, i);
    NotAmong(tasks[..i], c.slot);
    KeepUnaffected(tasks[..i], {}, failed, c.slot);
    KeepStep(tasks[..i], c, {}, failed);
    KeepStep(tasks[..i], c, {}, failed + {c.slot});
  }

  lemma SubsNext(cs: seq<Candidate>, c: Candidate)
    ensures multiset(Subs(cs + [c])) == multiset(Subs(cs)) + multiset{c.checked.sub}
  {
    assert Subs(cs + [c]) == Subs(cs) + [c.checked.sub];
  }

  lemma NotAmong(cs: seq<Candidate>, slot: nat)
    requires slot !in SlotsOf(cs)
    ensures forall c :: c in cs ==> c.slot != slot
  {
    forall c | c in cs ensures c.slot in SlotsOf(cs) {}
  }

  // ----- Filling the slots

  lemma {:induction false} KeepIncreasing(cs: seq<Candidate>, known: set<string>, failed: set<nat>)
    requires Increasing(cs)
    ensures Increasing(Keep(cs, known, failed))
  {
    if cs != [] {
      var before, last := cs[..|cs| - 1], cs[|cs| - 1];
      KeepIncreasing(before, known, failed);
      KeepMembers(before, known, failed);
      forall c | c in Keep(before, known, failed) ensures c.slot < last.slot {
        var j :| 0 <= j < |before| && before[j] == c;
      }
    }
  }

  lemma CandidatesAcceptable(reqs: seq<Request>)
    requires ObjectText() && ObjectsParse(reqs)
    ensures forall c :: c in Candidates(reqs) ==> c.slot < |reqs| && Acceptable(c.checked)
  {
    hide ValidateOne, ObjectText;
    CandidatesAre(reqs);
    forall c | c in Candidates(reqs) ensures Acceptable(c.checked) { ValidatedIsAcceptable(reqs[c.slot]); }
  }

  lemma BindingsKnown(s: IndexState, s': IndexState)
    requires KeepsBindings(s, s')
    ensures s.records.Keys <= s'.records.Keys
  {}

  method FillOutcomes(prepared: seq<Candidate>, outcomes: seq<SubmitOutcome>, given: seq<Option<SlotResult>>)
    returns (results: seq<Option<SlotResult>>)
    requires |outcomes| == |prepared| && Increasing(prepared) && forall c :: c in prepared ==> c.slot < |given|
    ensures |results| == |given|
    ensures forall j :: 0 <= j < |prepared| ==>
              results[prepared[j].slot] == Some(Render(outcomes[j], prepared[j].checked.sub.record.partitionId))
    ensures forall i :: 0 <= i < |given| && i !in SlotsOf(prepared) ==> results[i] == given[i]
  {
    results := given;
    for j := 0 to |prepared|
      invariant |results| == |given|
      invariant forall k :: 0 <= k < j ==>
                  results[prepared[k].slot] == Some(Render(outcomes[k], prepared[k].checked.sub.record.partitionId))
      invariant forall i :: 0 <= i < |given| && i !in SlotsOf(prepared) ==> results[i] == given[i]
    {
      SlotIn(prepared, j);
      assert prepared[j] in prepared;
      results := results[prepared[j].slot := Some(Render(outcomes[j], prepared[j].checked.sub.record.partitionId))];
    }
  }

  /** The prepared records before a prepared slot are the prepared records of the slots before it. */
  lemma {:induction false} PreparedPrefix(reqs: seq<Request>, known: set<string>, failed: set<nat>, i: nat)
    requires i < |reqs| && ValidateOne(reqs[i]).Success?
    requires ValidateOne(reqs[i]).value.sub.key !in known && i !in failed
    ensures Keep(Candidates(reqs[..i]), known, failed) + [Candidate(i, ValidateOne(reqs[i]).value)]
         <= Keep(Candidates(reqs), known, failed)
  {
    hide Candidates, Keep, ValidateOne;
    var n := |reqs| - 1;
    CandidatesStep(reqs);
    if ValidateOne(reqs[n]).Success? {
      KeepStep(Candidates(reqs[..n]), Candidate(n, ValidateOne(reqs[n]).value), known, failed);
    }
    if i < n {
      assert reqs[..n][..i] == reqs[..i];
      PreparedPrefix(reqs[..n], known, failed, i);
    }
  }

  /** The slot of a prepared record gets the outcome a sequential submission would get there. */
  lemma PreparedOutcome(s: IndexState, reqs: seq<Request>, known: set<string>, failed: set<nat>, i: nat) returns (j: nat)
    requires i < |reqs| && ValidateOne(reqs[i]).Success? && known <= s.records.Keys
    requires ValidateOne(reqs[i]).value.sub.key !in known && i !in failed
    ensures var prepared := Keep(Candidates(reqs), known, failed);
            && j < |prepared| && prepared[j] == Candidate(i, ValidateOne(reqs[i]).value)
            && Render(Outcomes(s, Subs(prepared))[j], prepared[j].checked.sub.record.partitionId)
               == ResultOf(s, Fates(reqs, failed), i)
  {
    hide Candidates, Keep, ValidateOne, StateAfter, SubmitAll, Outcomes;
    var prepared := Keep(Candidates(reqs), known, failed);
    var before := Keep(Candidates(reqs[..i]), known, failed);
    PreparedPrefix(reqs, known, failed, i);
    j := |before|;
    assert prepared[j] == (before + [Candidate(i, ValidateOne(reqs[i]).value)])[j];
    OutcomeAt(s, Subs(prepared), j);
    assert Subs(prepared)[..j] == Subs(before);
    SameState(s, reqs[..i], known, failed);
    assert Fates(reqs, failed)[..i] == Fates(reqs[..i], failed);
  }

  lemma KnownOutcome(seen: IndexState, s: IndexState, reqs: seq<Request>, failed: set<nat>, i: nat)
    requires i < |reqs| && ValidateOne(reqs[i]).Success? && KeepsBindings(seen, s) && i !in failed
    requires ValidateOne(reqs[i]).value.sub.key in seen.records
    ensures ResultOf(s, Fates(reqs, failed), i) == Answer(seen, Candidate(i, ValidateOne(reqs[i]).value))
  {
    hide Candidates, Keep, ValidateOne, StateAfter, SubmitAll, KeepsBindings;
    BindingsKnown(seen, s);
    SameState(s, reqs[..i], seen.records.Keys, failed);
    assert Fates(reqs, failed)[..i] == Fates(reqs[..i], failed);
    OutcomeOfKnown(seen, s, Subs(Keep(Candidates(reqs[..i]), seen.records.Keys, failed)), ValidateOne(reqs[i]).value.sub);
  }

  /** Whatever phase answered it, a slot ends with its sequential result. */
  lemma EverySlot(
    reqs: seq<Request>, i: nat, seen: IndexState, s: IndexState, failed: set<nat>,
    validated: seq<Option<SlotResult>>, prechecked: seq<Option<SlotResult>>, stored: seq<Option<SlotResult>>,
    final: seq<Option<SlotResult>>, outcomes: seq<SubmitOutcome>
  )
    requires i < |reqs| == |validated| == |prechecked| == |stored| == |final| && KeepsBindings(seen, s)
    requires validated[i] == match ValidateOne(reqs[i]) case Failure(code) => Some(Rejected(code)) case Success(_) => None
    requires Answered(prechecked, Candidates(reqs), seen)
    requires i !in SlotsOf(Candidates(reqs)) ==> prechecked[i] == validated[i]
    requires failed <= SlotsOf(Keep(Candidates(reqs), seen.records.Keys, {}))
    requires stored[i] == if i in failed then Some(Rejected(Internal)) else prechecked[i]
    requires var prepared := Keep(Candidates(reqs), seen.records.Keys, failed);
             && outcomes == Outcomes(s, Subs(prepared))
             && (forall j :: 0 <= j < |prepared| ==>
                   prepared[j].slot < |final|
                   && final[prepared[j].slot] == Some(Render(outcomes[j], prepared[j].checked.sub.record.partitionId)))
             && (i !in SlotsOf(prepared) ==> final[i] == stored[i])
    ensures final[i] == Some(ResultOf(s, Fates(reqs, failed), i))
  {
    hide StateAfter, SubmitAll, Outcomes, Candidates, Keep, ValidateOne, KeepsBindings;
    var known := seen.records.Keys;
    CandidatesAre(reqs);
    KeepMembers(Candidates(reqs), known, {});
    KeepMembers(Candidates(reqs), known, failed);
    if ValidateOne(reqs[i]).Success? {
      var c := Candidate(i, ValidateOne(reqs[i]).value);
      assert c in Candidates(reqs);
      if c.checked.sub.key in known {
        KnownOutcome(seen, s, reqs, failed, i);
      } else if i !in failed {
        BindingsKnown(seen, s);
        var j := PreparedOutcome(s, reqs, known, failed, i);
      }
    }
  }

  // ----- The whole batch

  /** The JSON writer's text of an object is an object again. */
  ghost predicate ObjectsParse(reqs: seq<Request>) {
    forall req :: req in reqs && req.value.Object? ==> ParsesToObject(req.value.text)
  }

  /** The fate of every slot given which blob writes failed, and that the batch answers and acts as if
      its records had been submitted one by one, in slot order, at the moment of its commit. */
  ghost predicate Linearized(
    reqs: seq<Request>, fates: seq<Fate>, failed: set<nat>, atCommit: IndexState, after: IndexState, results: seq<SlotResult>
  ) {
    && fates == Fates(reqs, failed)
    && |results| == |reqs|
    && after == StateAfter(atCommit, fates)
    && forall i :: 0 <= i < |reqs| ==> results[i] == ResultOf(atCommit, fates, i)
  }

  // ----- What the answers mean

  /** The value's canonical text. */
  ghost predicate IsTextOf(value: Value, text: Bytes) {
    value == Object(text) || (value == Text(text) && ParsesToObject(text))
  }

  /** Which records are refused and why, and what the others become. */
  lemma ValidationMeans(req: Request)
    ensures ValidateOne(req) == Failure(InvalidKey) <==> !IsValidRecordKey(req.key)
    ensures ValidateOne(req) == Failure(InvalidValue) <==> IsValidRecordKey(req.key) && forall text :: !IsTextOf(req.value, text)
    ensures ValidateOne(req) == Failure(ValueTooLarge) <==>
              IsValidRecordKey(req.key) && exists text :: IsTextOf(req.value, text) && |text| > MAX_VALUE_BYTES
    ensures ValidateOne(req).Success? <==>
              IsValidRecordKey(req.key) && exists text :: IsTextOf(req.value, text) && |text| <= MAX_VALUE_BYTES
    ensures ValidateOne(req).Success? ==>
              var c := ValidateOne(req).value;
              && IsTextOf(req.value, c.value) && c.sub.key == req.key
              && c.sub.record.contentHash == Blake3(c.value) && c.sub.record.size == |c.value|
              && c.sub.record.partitionId == PartitionId(Sha256(req.key), PARTITIONS)
              && c.sub.record.status == Pending && c.sub.record.publishedAt == None
              && c.sub.record.createdAt == DeclarationTime(c.value) && c.sub.record.contentCode == ContentCodeOf(c.value)
  {
    match req.value
    case Object(text) => assert IsTextOf(req.value, text);
    case Text(text) => if ParsesToObject(text) { assert IsTextOf(req.value, text); }
    case Other =>
  }

  /** The slot's record is valid and its value was stored, so it is submitted. */
  ghost predicate Entered(reqs: seq<Request>, failed: set<nat>, i: nat) {
    i < |reqs| && ValidateOne(reqs[i]).Success? && i !in failed
  }

  ghost function OwnHash(req: Request): Hash
    requires ValidateOne(req).Success?
  {
    ValidateOne(req).value.sub.record.contentHash
  }

  ghost predicate FirstSlot(reqs: seq<Request>, failed: set<nat>, i: nat, key: string) {
    Entered(reqs, failed, i) && reqs[i].key == key && forall j: nat :: j < i && Entered(reqs, failed, j) ==> reqs[j].key != key
  }

  /** Before slot `i` the key is bound to the hash: by a record of the index, or else by the first slot
      that submits it. */
  ghost predicate BoundBefore(s: IndexState, reqs: seq<Request>, failed: set<nat>, i: nat, key: string, hash: Hash) {
    if key in s.records then s.records[key].contentHash == hash
    else exists j: nat :: j < i && FirstSlot(reqs, failed, j, key) && OwnHash(reqs[j]) == hash
  }

  /** At every slot the index binds exactly the keys it bound at the start and those submitted so far. */
  lemma {:induction false} StateBinds(s: IndexState, reqs: seq<Request>, failed: set<nat>, i: nat, key: string, hash: Hash)
    requires i <= |reqs|
    ensures var now := StateAfter(s, Fates(reqs, failed)[..i]);
            (key in now.records && now.records[key].contentHash == hash) <==> BoundBefore(s, reqs, failed, i, key, hash)
  {
    hide ValidateOne;
    var fates := Fates(reqs, failed);
    if i > 0 {
      StateBinds(s, reqs, failed, i - 1, key, hash);
      assert fates[..i][..i - 1] == fates[..i - 1];
      var before := StateAfter(s, fates[..i - 1]);
      if Entered(reqs, failed, i - 1) {
        KeyOfValid(reqs[i - 1]);
        if reqs[i - 1].key == key && key !in before.records {
          NotYetBound(s, reqs, failed, i - 1, key);
          assert FirstSlot(reqs, failed, i - 1, key);
        } else if reqs[i - 1].key == key && key in before.records {
          StateBinds(s, reqs, failed, i - 1, key, before.records[key].contentHash);
        }
      }
    }
  }

  lemma KeyOfValid(req: Request)
    requires ValidateOne(req).Success?
    ensures ValidateOne(req).value.sub.key == req.key
  {}

  lemma {:induction false} NotYetBound(s: IndexState, reqs: seq<Request>, failed: set<nat>, i: nat, key: string)
    requires i <= |reqs|
    ensures var now := StateAfter(s, Fates(reqs, failed)[..i]);
            key !in now.records <==> key !in s.records && forall j: nat :: j < i && Entered(reqs, failed, j) ==> reqs[j].key != key
  {
    hide ValidateOne;
    var fates := Fates(reqs, failed);
    if i > 0 {
      NotYetBound(s, reqs, failed, i - 1, key);
      assert fates[..i][..i - 1] == fates[..i - 1];
      if Entered(reqs, failed, i - 1) { KeyOfValid(reqs[i - 1]); }
    }
  }

  /** What each answer tells the client, in terms of the index the batch was committed on and of the slots
      before: accepted as new exactly when nothing had the key; a duplicate or a conflict by the hash the
      key was first bound to, which is the hash the final index has; rejected for the validation's reason
      or a failed write. */
  lemma AnswersMean(
    reqs: seq<Request>, failed: set<nat>, s: IndexState, after: IndexState, results: seq<SlotResult>, i: nat
  )
    requires Linearized(reqs, Fates(reqs, failed), failed, s, after, results) && i < |reqs|
    ensures results[i].Rejected? <==> !Entered(reqs, failed, i)
    ensures results[i].Rejected? ==>
              results[i].code == if ValidateOne(reqs[i]).Failure? then ValidateOne(reqs[i]).error else Internal
    ensures results[i].Accepted? ==> results[i].partition == PartitionId(Sha256(reqs[i].key), PARTITIONS)
    ensures (results[i].Accepted? && !results[i].duplicate) <==>
              && Entered(reqs, failed, i) && reqs[i].key !in s.records
              && forall j: nat :: j < i && Entered(reqs, failed, j) ==> reqs[j].key != reqs[i].key
    ensures (results[i].Accepted? && results[i].duplicate) <==>
              Entered(reqs, failed, i) && BoundBefore(s, reqs, failed, i, reqs[i].key, OwnHash(reqs[i]))
    ensures forall h :: results[i] == Conflicting(h) <==>
              Entered(reqs, failed, i) && BoundBefore(s, reqs, failed, i, reqs[i].key, h) && h != OwnHash(reqs[i])
    ensures Entered(reqs, failed, i) ==>
              && reqs[i].key in after.records
              && after.records[reqs[i].key].contentHash ==
                   if results[i].Conflicting? then results[i].existing else OwnHash(reqs[i])
  {
    hide StateAfter, ValidateOne;
    if Entered(reqs, failed, i) {
      ValidationMeans(reqs[i]);
      var key, now := reqs[i].key, StateAfter(s, Fates(reqs, failed)[..i]);
      NotYetBound(s, reqs, failed, i, key);
      forall h ensures (key in now.records && now.records[key].contentHash == h) <==> BoundBefore(s, reqs, failed, i, key, h) {
        StateBinds(s, reqs, failed, i, key, h);
      }
      FinalBinding(reqs, failed, s, after, results, i);
    }
  }

  lemma FinalBinding(
    reqs: seq<Request>, failed: set<nat>, s: IndexState, after: IndexState, results: seq<SlotResult>, i: nat
  )
    requires Linearized(reqs, Fates(reqs, failed), failed, s, after, results) && Entered(reqs, failed, i)
    ensures reqs[i].key in after.records
    ensures after.records[reqs[i].key].contentHash ==
              if results[i].Conflicting? then results[i].existing else OwnHash(reqs[i])
  {
    hide ValidateOne;
    var fates, key := Fates(reqs, failed), reqs[i].key;
    KeyOfValid(reqs[i]);
    assert fates[..i + 1][..i] == fates[..i];
    BindingStays(s, fates, i + 1, key);
  }

  /** Once bound, a key keeps its record to the end of the batch. */
  lemma {:induction false} BindingStays(s: IndexState, fates: seq<Fate>, i: nat, key: string)
    requires i <= |fates| && key in StateAfter(s, fates[..i]).records
    ensures key in StateAfter(s, fates).records
    ensures StateAfter(s, fates).records[key] == StateAfter(s, fates[..i]).records[key]
  {
    if i < |fates| {
      var n := |fates| - 1;
      assert fates[..n][..i] == fates[..i];
      BindingStays(s, fates[..n], i, key);
    } else {
      assert fates[..i] == fates;
    }
  }

  /** Only slots of valid records whose keys were not known at the precheck can fail. */
  ghost predicate FailedAreNew(reqs: seq<Request>, failed: set<nat>, seen: IndexState) {
    forall i :: i in failed ==> i < |reqs| && ValidateOne(reqs[i]).Success? && ValidateOne(reqs[i]).value.sub.key !in seen.records
  }

  lemma FailedSlots(reqs: seq<Request>, failed: set<nat>, seen: IndexState)
    requires failed <= SlotsOf(Keep(Candidates(reqs), seen.records.Keys, {}))
    ensures FailedAreNew(reqs, failed, seen)
  {
    hide ValidateOne, Candidates, Keep;
    CandidatesAre(reqs);
    KeepMembers(Candidates(reqs), seen.records.Keys, {});
  }

  /** The state after one commit of submissions in flight. */
  ghost function Committed(s: Sys, subs: seq<Submission>): Sys {
    s.(index := SubmitAll(s.index, subs), inflight := s.inflight - multiset(subs))
  }

  /** One transaction for all prepared records; if it fails they are let go. */
  method CommitBatch(d: Daemon, subs: seq<Submission>, ghost start: Sys) returns (r: Result<seq<SubmitOutcome>, DbError>)
    requires d.Ready() && Reaches(start, d.State()) && d.inBatch && d.batched == multiset(subs)
    modifies d`inflight, d`batched, d.index
    ensures d.Ready() && Reaches(start, d.State()) && d.batched == multiset{}
    ensures r.Success? ==>
              d.index.State() == SubmitAll(old(d.index.State()), subs) && r.value == Outcomes(old(d.index.State()), subs)
    ensures r.Success? ==> d.State() == Committed(old(d.State()), subs)
    ensures r.Failure? ==> d.index.State() == old(d.index.State()) && !d.index.reliable
  {
    hide BaseInv, Reaches, SubmitAll, Outcomes, Enabled, After;
    ghost var before := d.State();
    CommitStep(before, subs);
    r := d.index.SubmitMany(subs);
    TakenOut(d.inflight, multiset{}, d.batched);
    d.inflight := d.inflight - d.batched;
    d.batched := multiset{};
    if r.Success? {
      Took(start, before, Commit(subs), d.State());
    } else {
      Took(start, before, Drop(multiset(subs)), d.State());
    }
  }

  lemma CommitStep(s: Sys, subs: seq<Submission>)
    requires multiset(subs) <= s.inflight
    ensures Enabled(s, Commit(subs)) && Enabled(s, Drop(multiset(subs)))
    ensures After(s, Commit(subs)) == s.(index := SubmitAll(s.index, subs), inflight := s.inflight - multiset(subs))
    ensures After(s, Drop(multiset(subs))) == s.(inflight := s.inflight - multiset(subs))
  {}

  method BeginBatch(d: Daemon)
    requires d.Ready() && !d.inBatch
    modifies d`inBatch, d`activeWrites
    ensures d.Ready() && d.inBatch && d.batched == multiset{} && d.State() == old(d.State())
  {
    d.inBatch := true;
    d.activeWrites := d.activeWrites + 1;
  }

  method EndBatch(d: Daemon)
    requires d.Ready() && d.inBatch && d.batched == multiset{}
    modifies d`inBatch, d`activeWrites
    ensures d.Ready() && !d.inBatch && d.State() == old(d.State())
  {
    d.inBatch := false;
    d.activeWrites := d.activeWrites - 1;
  }

  /** The records a batch submits: those whose keys were not known at the precheck and whose values were
      stored. */
  ghost function SubmittedBy(reqs: seq<Request>, failed: set<nat>, seen: IndexState): seq<Submission> {
    Subs(Keep(Candidates(reqs), seen.records.Keys, failed))
  }

  /** What a batch did: all its submissions were in flight at `atCommit`, and committing them was its last
      step. */
  ghost predicate EndsWithCommit(reqs: seq<Request>, failed: set<nat>, seen: Sys, atCommit: Sys, now: Sys) {
    var subs := SubmittedBy(reqs, failed, seen.index);
    multiset(subs) <= atCommit.inflight && now == Committed(atCommit, subs)
  }

  /** A batch submission holds the write guard throughout. It is a path of the registry's state machine -
      a step for each stored value and one commit, its last - during which every other task may act between
      any two of its own steps. `seen` is the state at its precheck and `atCommit` the state at its commit,
      both on that path; with no other task running the index is the same in both as at the start. */
  method SubmitBatch(d: Daemon, reqs: seq<Request>)
    returns (r: Result<seq<SlotResult>, ErrorCode>, ghost failed: set<nat>, ghost seen: Sys, ghost atCommit: Sys)
    requires EntrySerializer() && ObjectText() && ObjectsParse(reqs) && d.Ready() && !d.inBatch
    modifies d`inflight, d`batched, d`inBatch, d`activeWrites, d`publisher, d`dangling, d.index, d.store, d.pointerDoc
    ensures d.Ready() && !d.inBatch && Reaches(old(d.State()), d.State())
    ensures Reaches(old(d.State()), seen) && Reaches(seen, atCommit) && FailedAreNew(reqs, failed, seen.index)
    ensures KeepsBindings(old(d.index.State()), seen.index) && KeepsBindings(seen.index, atCommit.index)
    ensures d.offline ==> seen.index == old(d.index.State()) && atCommit.index == old(d.index.State())
    ensures r.Success? ==> EndsWithCommit(reqs, failed, seen, atCommit, d.State())
    ensures r.Success? ==> Linearized(reqs, Fates(reqs, failed), failed, atCommit.index, d.index.State(), r.value)
    ensures r.Failure? ==>
              && d.index.State() == atCommit.index
              && if |reqs| > BATCH_MAX_RECORDS then r.error == BatchTooLarge else r.error == Internal && !d.index.reliable
    ensures d.offline && d.store.reliable && failed != {} ==> d.store.clashed
    ensures forall k :: k in d.index.records ==> ValueAt(d.store.blobs, d.index.records[k].contentHash)
    ensures |reqs| > BATCH_MAX_RECORDS ==> r == Failure(BatchTooLarge) && d.State() == old(d.State())
  {
    hide BaseInv, Reaches, ValidateOne, EntrySerializer, ObjectText, Linearized, FailedAreNew, EndsWithCommit, KeepsBindings,
         CoverageOk, Mended, BackedOk;
    ghost var start := d.State();
    ReachesSelf(start);
    PathKeepsCoverage(start, start);
    failed, seen, atCommit := {}, start, start;
    NoneFailed(reqs, seen.index);
    ValuesStored(start);
    if |reqs| > BATCH_MAX_RECORDS {
      return Failure(BatchTooLarge), failed, seen, atCommit;
    }
    BeginBatch(d);
    r, failed, seen, atCommit := RunBatch(d, reqs, start);
    PathKeepsCoverage(start, seen);
    PathKeepsCoverage(seen, atCommit);
    EndBatch(d);
    ValuesStored(d.State());
  }

  lemma NoneFailed(reqs: seq<Request>, seen: IndexState)
    ensures FailedAreNew(reqs, {}, seen)
  {}

  lemma ValuesStored(s: Sys)
    requires BaseInv(s)
    ensures forall k :: k in s.index.records ==> ValueAt(s.blobs, s.index.records[k].contentHash)
  {
    hide Valid, RootsOk, DocOk, StageOk;
  }

  /** The phases of a batch, from precheck to answers. */
  method RunBatch(d: Daemon, reqs: seq<Request>, ghost start: Sys)
    returns (r: Result<seq<SlotResult>, ErrorCode>, ghost failed: set<nat>, ghost seen: Sys, ghost atCommit: Sys)
    requires EntrySerializer() && ObjectText() && ObjectsParse(reqs)
    requires BaseInv(start) && d.Ready() && Reaches(start, d.State()) && d.inBatch && d.batched == multiset{}
    modifies d`inflight, d`batched, d`activeWrites, d`publisher, d`dangling, d.index, d.store, d.pointerDoc
    ensures d.Ready() && Reaches(start, d.State()) && d.batched == multiset{}
    ensures Reaches(start, seen) && Reaches(seen, atCommit) && FailedAreNew(reqs, failed, seen.index)
    ensures d.offline ==> seen.index == old(d.index.State()) && atCommit.index == old(d.index.State())
    ensures r.Success? ==> EndsWithCommit(reqs, failed, seen, atCommit, d.State())
    ensures r.Success? ==> Linearized(reqs, Fates(reqs, failed), failed, atCommit.index, d.index.State(), r.value)
    ensures r.Failure? ==> d.index.State() == atCommit.index && r.error == Internal && !d.index.reliable
    ensures d.offline && d.store.reliable && failed != {} ==> d.store.clashed
  {
    hide BaseInv, Reaches, Daemon.Ready, StateAfter, Candidates, Keep, ValidateOne, Answered, Increasing, SlotsOf,
         EntrySerializer, ObjectText, ObjectsParse, CoverageOk, Mended, BackedOk, Acceptable, FailedAreNew, Linearized, EndsWithCommit;
    var validated, candidates := ValidateAll(reqs);
    CandidatesAre(reqs);
    CandidatesAcceptable(reqs);
    d.AnyTasks(start);
    seen, atCommit, failed := d.State(), d.State(), {};
    ReachesSelf(seen);
    PathKeepsCoverage(start, seen);
    NoneFailed(reqs, seen.index);
    var checked, prechecked, tasks := Precheck(d.index, candidates, validated);
    if checked.Failure? {
      return Failure(Internal), failed, seen, atCommit;
    }
    r, failed, atCommit := StoreAndCommit(d, reqs, validated, prechecked, tasks, seen);
    ReachesOn(start, seen, d.State());
  }

  /** What the precheck leaves to do: the values of the unknown records, the commit and the answers. */
  method StoreAndCommit(
    d: Daemon, reqs: seq<Request>, ghost validated: seq<Option<SlotResult>>, prechecked: seq<Option<SlotResult>>, tasks: seq<Candidate>,
    ghost seen: Sys
  )
    returns (r: Result<seq<SlotResult>, ErrorCode>, ghost failed: set<nat>, ghost atCommit: Sys)
    requires EntrySerializer() && ObjectText() && ObjectsParse(reqs)
    requires BaseInv(seen) && d.Ready() && Reaches(seen, d.State()) && d.inBatch && d.batched == multiset{}
    requires |validated| == |prechecked| == |reqs| && tasks == Keep(Candidates(reqs), seen.index.records.Keys, {})
    requires forall i :: 0 <= i < |reqs| ==>
               validated[i] == match ValidateOne(reqs[i]) case Failure(code) => Some(Rejected(code)) case Success(_) => None
    requires Answered(prechecked, Candidates(reqs), seen.index)
    requires forall i :: 0 <= i < |reqs| && i !in SlotsOf(Candidates(reqs)) ==> prechecked[i] == validated[i]
    modifies d`inflight, d`batched, d`activeWrites, d`publisher, d`dangling, d.index, d.store, d.pointerDoc
    ensures d.Ready() && Reaches(seen, d.State()) && d.batched == multiset{}
    ensures Reaches(seen, atCommit) && FailedAreNew(reqs, failed, seen.index)
    ensures d.offline ==> atCommit.index == old(d.index.State())
    ensures r.Success? ==> EndsWithCommit(reqs, failed, seen, atCommit, d.State())
    ensures r.Success? ==> Linearized(reqs, Fates(reqs, failed), failed, atCommit.index, d.index.State(), r.value)
    ensures r.Failure? ==> d.index.State() == atCommit.index && r.error == Internal && !d.index.reliable
    ensures d.offline && d.store.reliable && failed != {} ==> d.store.clashed
  {
    hide BaseInv, Reaches, Daemon.Ready, KeepsBindings, SubmitAll, StateAfter, Candidates, Keep, Outcomes, ValidateOne, Answered,
         Increasing, SlotsOf, EntrySerializer, ObjectText, ObjectsParse, CoverageOk, Mended, BackedOk, Acceptable, FailedAreNew,
         Linearized, Fates, Subs, EndsWithCommit, Committed, Outcomes;
    TasksOf(reqs, seen.index);
    var stored, prepared;
    stored, prepared, failed := StoreValues(d, tasks, prechecked, seen);
    FailedSlots(reqs, failed, seen.index);
    PreparedAre(reqs, failed, seen.index);
    d.AnyTasks(seen);
    atCommit := d.State();
    PathKeepsCoverage(seen, atCommit);
    InFlight(d);
    var outcomes := CommitBatch(d, Subs(prepared), seen);
    if outcomes.Failure? {
      return Failure(Internal), failed, atCommit;
    }
    CommitEnds(reqs, failed, seen, atCommit, d.State(), Subs(prepared));
    var final := FillOutcomes(prepared, outcomes.value, stored);
    AllSlots(reqs, seen.index, atCommit.index, failed, validated, prechecked, stored, final, outcomes.value);
    r := Success(seq(|reqs|, i requires 0 <= i < |reqs| => final[i].value));
    BatchIsLinearized(reqs, failed, seen.index, atCommit.index, d.index.State(), final, r.value);
  }

  lemma CommitEnds(reqs: seq<Request>, failed: set<nat>, seen: Sys, atCommit: Sys, now: Sys, subs: seq<Submission>)
    requires subs == Subs(Keep(Candidates(reqs), seen.index.records.Keys, failed))
    requires multiset(subs) <= atCommit.inflight && now == Committed(atCommit, subs)
    ensures EndsWithCommit(reqs, failed, seen, atCommit, now)
  {
    hide Keep, Candidates, Subs, Committed;
  }

  /** The tasks a precheck leaves are acceptable and in slot order. */
  lemma TasksOf(reqs: seq<Request>, seen: IndexState)
    requires ObjectText() && ObjectsParse(reqs)
    ensures var tasks := Keep(Candidates(reqs), seen.records.Keys, {});
            Increasing(tasks) && forall c :: c in tasks ==> c.slot < |reqs| && Acceptable(c.checked)
  {
    hide ValidateOne, ObjectText, Increasing, Acceptable, Candidates, Keep;
    CandidatesAre(reqs);
    CandidatesAcceptable(reqs);
    KeepMembers(Candidates(reqs), seen.records.Keys, {});
    KeepIncreasing(Candidates(reqs), seen.records.Keys, {});
  }

  lemma PreparedAre(reqs: seq<Request>, failed: set<nat>, seen: IndexState)
    ensures var prepared := Keep(Keep(Candidates(reqs), seen.records.Keys, {}), {}, failed);
            && prepared == Keep(Candidates(reqs), seen.records.Keys, failed) && Increasing(prepared)
            && (forall c :: c in prepared ==> c.slot < |reqs|)
            && |Subs(prepared)| == |prepared|
  {
    hide ValidateOne, Increasing, Candidates, Keep;
    CandidatesAre(reqs);
    KeepTwice(Candidates(reqs), seen.records.Keys, failed);
    KeepMembers(Candidates(reqs), seen.records.Keys, failed);
    KeepIncreasing(Candidates(reqs), seen.records.Keys, failed);
  }

  lemma InFlight(d: Daemon)
    requires d.Ready()
    ensures d.batched <= d.inflight
  {}

  lemma AllSlots(
    reqs: seq<Request>, seen: IndexState, s: IndexState, failed: set<nat>,
    validated: seq<Option<SlotResult>>, prechecked: seq<Option<SlotResult>>, stored: seq<Option<SlotResult>>,
    final: seq<Option<SlotResult>>, outcomes: seq<SubmitOutcome>
  )
    requires |reqs| == |validated| == |prechecked| == |stored| == |final| && KeepsBindings(seen, s)
    requires forall i :: 0 <= i < |reqs| ==>
               validated[i] == match ValidateOne(reqs[i]) case Failure(code) => Some(Rejected(code)) case Success(_) => None
    requires Answered(prechecked, Candidates(reqs), seen)
    requires forall i :: 0 <= i < |reqs| && i !in SlotsOf(Candidates(reqs)) ==> prechecked[i] == validated[i]
    requires failed <= SlotsOf(Keep(Candidates(reqs), seen.records.Keys, {}))
    requires forall i :: 0 <= i < |reqs| ==> stored[i] == if i in failed then Some(Rejected(Internal)) else prechecked[i]
    requires var prepared := Keep(Candidates(reqs), seen.records.Keys, failed);
             && outcomes == Outcomes(s, Subs(prepared))
             && (forall j :: 0 <= j < |prepared| ==>
                   prepared[j].slot < |final|
                   && final[prepared[j].slot] == Some(Render(outcomes[j], prepared[j].checked.sub.record.partitionId)))
             && (forall i :: 0 <= i < |reqs| && i !in SlotsOf(prepared) ==> final[i] == stored[i])
    ensures forall i :: 0 <= i < |reqs| ==> final[i] == Some(ResultOf(s, Fates(reqs, failed), i))
  {
    hide StateAfter, SubmitAll, Outcomes, Candidates, Keep, ValidateOne, KeepsBindings, Answered, SlotsOf, ResultOf;
    forall i | 0 <= i < |reqs| ensures final[i] == Some(ResultOf(s, Fates(reqs, failed), i)) {
      EverySlot(reqs, i, seen, s, failed, validated, prechecked, stored, final, outcomes);
    }
  }

  lemma BatchIsLinearized(
    reqs: seq<Request>, failed: set<nat>, seen: IndexState, s: IndexState, after: IndexState,
    final: seq<Option<SlotResult>>, results: seq<SlotResult>
  )
    requires KeepsBindings(seen, s) && after == SubmitAll(s, Subs(Keep(Candidates(reqs), seen.records.Keys, failed)))
    requires |final| == |reqs| == |results| && forall i :: 0 <= i < |reqs| ==> final[i] == Some(ResultOf(s, Fates(reqs, failed), i))
    requires forall i :: 0 <= i < |reqs| ==> final[i] == Some(results[i])
    ensures Linearized(reqs, Fates(reqs, failed), failed, s, after, results)
  {
    hide KeepsBindings, SubmitAll, StateAfter, Candidates, Keep, ResultOf;
    BindingsKnown(seen, s);
    SameState(s, reqs, seen.records.Keys, failed);
  }
}
