/** Paired-outcome review: packets hold one outcome for every task and candidate, and
    an accepted review decides every task of its packet exactly once. */
module Review {
  import opened Wrappers
  import opened Sorting

  type Id = string

  datatype Task = Task(id: Id, provisionalLabel: Option<string>)

  datatype Status = Success | Error | Abstained
  datatype Verification = Unknown | Pass | Fail | Disputed

  /** Status and verification are none where the exchange holds an unsupported value. */
  datatype Outcome = Outcome(taskId: Id, status: Option<Status>, verification: Option<Verification>, output: string)

  datatype Candidate = Candidate(id: Id, bytes: nat, outcomes: seq<Outcome>)

  datatype PacketTask = PacketTask(task: Task, outcomes: map<Id, Outcome>)

  type Packet = seq<PacketTask>

  datatype ReviewError =
    | RowCount | DuplicateTask | CandidateCount | DuplicateCandidate | TooManyBytes | MissingOutcome | UnsupportedOutcome
    | NotEveryTask | DuplicateOrUnknown | UnsupportedDecision | BadEvidence | ExcludedWithLabel | LabelDisagrees

  const MAX_TASKS := 10000
  const MAX_CANDIDATES := 16
  const MAX_TOTAL_BYTES := 33554432

  // ----- rows

  function TaskIds(tasks: seq<Task>): seq<Id> {
    seq(|tasks|, i requires 0 <= i < |tasks| => tasks[i].id)
  }

  function OutcomeIds(outcomes: seq<Outcome>): seq<Id> {
    seq(|outcomes|, i requires 0 <= i < |outcomes| => outcomes[i].taskId)
  }

  function Members(ids: seq<Id>): set<Id> {
    set id | id in ids
  }

  /** The duplicate scan of `rows`, over the task identities of its lines. */
  method UniqueRows(ids: seq<Id>) returns (error: Option<ReviewError>)
    ensures error.None? <==> 0 < |ids| <= MAX_TASKS && Distinct(ids)
  {
    if ids == [] || |ids| > MAX_TASKS { return Some(RowCount); }
    var seen: set<Id> := {};
    for i := 0 to |ids|
      invariant seen == Members(ids[..i]) && Distinct(ids[..i])
    {
      if ids[i] in seen { return Some(DuplicateTask); }
      seen := seen + {ids[i]};
    }
    assert ids[..|ids|] == ids;
    error := None;
  }

  // ----- packets

  predicate Supported(o: Outcome) {
    o.status.Some? && o.verification.Some?
  }

  ghost predicate CandidateFits(taskIds: set<Id>, c: Candidate) {
    && 0 < |c.outcomes| <= MAX_TASKS && Distinct(OutcomeIds(c.outcomes)) && Members(OutcomeIds(c.outcomes)) == taskIds
    && forall i | 0 <= i < |c.outcomes| :: Supported(c.outcomes[i])
  }

  function TotalBytes(candidates: seq<Candidate>): nat {
    if candidates == [] then 0 else TotalBytes(candidates[..|candidates| - 1]) + candidates[|candidates| - 1].bytes
  }

  function CandidateIds(candidates: seq<Candidate>): seq<Id> {
    seq(|candidates|, i requires 0 <= i < |candidates| => candidates[i].id)
  }

  ghost predicate Pairable(taskIds: set<Id>, bytes: nat, candidates: seq<Candidate>) {
    && Distinct(CandidateIds(candidates))
    && (candidates != [] ==> bytes + TotalBytes(candidates) <= MAX_TOTAL_BYTES)
    && forall i | 0 <= i < |candidates| :: CandidateFits(taskIds, candidates[i])
  }

  /** A candidate's outcome for a task. */
  function OutcomeFor(outcomes: seq<Outcome>, task: Id): Option<Outcome> {
    if outcomes == [] then None
    else if outcomes[|outcomes| - 1].taskId == task then Some(outcomes[|outcomes| - 1])
    else OutcomeFor(outcomes[..|outcomes| - 1], task)
  }

  lemma {:induction false} OutcomeForFinds(outcomes: seq<Outcome>, task: Id)
    ensures OutcomeFor(outcomes, task).Some? <==> task in OutcomeIds(outcomes)
    ensures OutcomeFor(outcomes, task).Some? ==>
      OutcomeFor(outcomes, task).value in outcomes && OutcomeFor(outcomes, task).value.taskId == task
  {
    if outcomes != [] {
      var n := |outcomes| - 1;
      OutcomeForFinds(outcomes[..n], task);
      assert OutcomeIds(outcomes) == OutcomeIds(outcomes[..n]) + [outcomes[n].taskId];
    }
  }

  type Outputs = map<Id, map<Id, Outcome>>

  /** One candidate's outcomes have been entered under their tasks. */
  ghost predicate EnteredFor(before: Outputs, outputs: Outputs, candidate: Id, outcomes: seq<Outcome>) {
    && outputs.Keys == before.Keys
    && forall t | t in before ::
      outputs[t] == match OutcomeFor(outcomes, t) case None => before[t] case Some(o) => before[t][candidate := o]
  }

  lemma EnterOne(before: Outputs, outputs: Outputs, c: Candidate, j: nat)
    requires j < |c.outcomes| && c.outcomes[j].taskId in before
    requires EnteredFor(before, outputs, c.id, c.outcomes[..j])
    ensures var o := c.outcomes[j];
      EnteredFor(before, outputs[o.taskId := outputs[o.taskId][c.id := o]], c.id, c.outcomes[..j + 1])
  {
    assert c.outcomes[..j + 1][..j] == c.outcomes[..j];
  }

  /** The inner loop over one candidate's outcomes. */
  method EnterOutcomes(before: Outputs, c: Candidate) returns (r: Result<Outputs, ReviewError>)
    requires Members(OutcomeIds(c.outcomes)) == before.Keys
    ensures r.Ok? <==> forall i | 0 <= i < |c.outcomes| :: Supported(c.outcomes[i])
    ensures r.Ok? ==> EnteredFor(before, r.value, c.id, c.outcomes)
  {
    var outputs := before;
    assert EnteredFor(before, outputs, c.id, c.outcomes[..0]);
    hide EnteredFor;
    for j := 0 to |c.outcomes|
      invariant forall i | 0 <= i < j :: Supported(c.outcomes[i])
      invariant outputs.Keys == before.Keys && EnteredFor(before, outputs, c.id, c.outcomes[..j])
    {
      var o := c.outcomes[j];
      if !Supported(o) { return Err(UnsupportedOutcome); }
      assert OutcomeIds(c.outcomes)[j] == o.taskId;
      EnterOne(before, outputs, c, j);
      outputs := outputs[o.taskId := outputs[o.taskId][c.id := o]];
    }
    assert c.outcomes[..|c.outcomes|] == c.outcomes;
    r := Ok(outputs);
  }

  /** Under every task, exactly the candidates so far, each with its own outcome. */
  ghost predicate Entered(outputs: Outputs, taskIds: set<Id>, candidates: seq<Candidate>) {
    && outputs.Keys == taskIds
    && (forall t | t in taskIds :: Holds(outputs[t], t, candidates))
  }

  ghost predicate Holds(row: map<Id, Outcome>, task: Id, candidates: seq<Candidate>) {
    && row.Keys == Members(CandidateIds(candidates))
    && forall k | 0 <= k < |candidates| ::
      candidates[k].id in row && OutcomeFor(candidates[k].outcomes, task) == Some(row[candidates[k].id])
  }

  lemma HoldsGrows(row: map<Id, Outcome>, task: Id, candidates: seq<Candidate>, c: Candidate)
    requires Holds(row, task, candidates) && c.id !in CandidateIds(candidates) && OutcomeFor(c.outcomes, task).Some?
    ensures Holds(row[c.id := OutcomeFor(c.outcomes, task).value], task, candidates + [c])
  {
    assert CandidateIds(candidates + [c]) == CandidateIds(candidates) + [c.id];
    assert forall k | 0 <= k < |candidates| :: candidates[k].id == CandidateIds(candidates)[k];
  }

  lemma EnteredGrows(before: Outputs, after: Outputs, taskIds: set<Id>, candidates: seq<Candidate>, c: Candidate)
    requires Entered(before, taskIds, candidates) && c.id !in CandidateIds(candidates)
    requires EnteredFor(before, after, c.id, c.outcomes) && Members(OutcomeIds(c.outcomes)) == taskIds
    ensures Entered(after, taskIds, candidates + [c])
  {
    hide Holds, OutcomeFor;
    forall t | t in taskIds ensures Holds(after[t], t, candidates + [c]) {
      OutcomeForFinds(c.outcomes, t);
      HoldsGrows(before[t], t, candidates, c);
    }
  }

  /** The outcomes of `build_packet`: it succeeds exactly on pairable exports, and then
      every task carries one outcome per candidate, that candidate's own. */
  method BuildPacket(tasks: seq<Task>, bytes: nat, candidates: seq<Candidate>) returns (r: Result<Packet, ReviewError>)
    ensures r.Ok? <==>
      && 2 <= |candidates| <= MAX_CANDIDATES && 0 < |tasks| <= MAX_TASKS && Distinct(TaskIds(tasks))
      && Pairable(Members(TaskIds(tasks)), bytes, candidates)
    ensures r.Ok? ==> |r.value| == |tasks| && forall i | 0 <= i < |tasks| ::
      r.value[i].task == tasks[i] && Holds(r.value[i].outcomes, tasks[i].id, candidates)
  {
    hide Holds, Entered, CandidateFits, Pairable, TotalBytes, Distinct, Members, CandidateIds, EnteredFor;
    if !(2 <= |candidates| <= MAX_CANDIDATES) { return Err(CandidateCount); }
    var bad := UniqueRows(TaskIds(tasks));
    if bad.Some? { return Err(bad.value); }
    var taskIds := Members(TaskIds(tasks));
    var outputs: Outputs := map t | t in taskIds :: map[];
    var candidateIds: set<Id> := {};
    var total := bytes;
    NothingEntered(taskIds, outputs, bytes, candidates);
    for i := 0 to |candidates|
      invariant candidateIds == Members(CandidateIds(candidates[..i])) && total == bytes + TotalBytes(candidates[..i])
      invariant Pairable(taskIds, bytes, candidates[..i])
      invariant outputs.Keys == taskIds && Entered(outputs, taskIds, candidates[..i])
    {
      var c := candidates[i];
      PairablePrefix(taskIds, bytes, candidates, i);
      FitsIs(taskIds, c);
      if c.id in candidateIds { return Err(DuplicateCandidate); }
      candidateIds := candidateIds + {c.id};
      total := total + c.bytes;
      if total > MAX_TOTAL_BYTES { return Err(TooManyBytes); }
      var repeated := UniqueRows(OutcomeIds(c.outcomes));
      if repeated.Some? { return Err(repeated.value); }
      if Members(OutcomeIds(c.outcomes)) != taskIds { return Err(MissingOutcome); }
      var entered := EnterOutcomes(outputs, c);
      if entered.Err? { return Err(entered.error); }
      EnteredGrows(outputs, entered.value, taskIds, candidates[..i], c);
      assert candidates[..i + 1] == candidates[..i] + [c];
      outputs := entered.value;
      EnteredKeys(outputs, taskIds, candidates[..i + 1]);
    }
    assert candidates[..|candidates|] == candidates;
    EnteredRows(outputs, tasks, candidates);
    r := Ok(seq(|tasks|, i requires 0 <= i < |tasks| => PacketTask(tasks[i], outputs[tasks[i].id])));
  }

  lemma NothingEntered(taskIds: set<Id>, outputs: Outputs, bytes: nat, candidates: seq<Candidate>)
    requires outputs == map t | t in taskIds :: map[]
    ensures Entered(outputs, taskIds, candidates[..0]) && Pairable(taskIds, bytes, candidates[..0])
    ensures TotalBytes(candidates[..0]) == 0 && Members(CandidateIds(candidates[..0])) == {}
    ensures outputs.Keys == taskIds
  {
  }

  lemma EnteredKeys(outputs: Outputs, taskIds: set<Id>, candidates: seq<Candidate>)
    requires Entered(outputs, taskIds, candidates)
    ensures outputs.Keys == taskIds
  {
  }

  lemma EnteredRows(outputs: Outputs, tasks: seq<Task>, candidates: seq<Candidate>)
    requires Entered(outputs, Members(TaskIds(tasks)), candidates)
    ensures forall i | 0 <= i < |tasks| :: tasks[i].id in outputs && Holds(outputs[tasks[i].id], tasks[i].id, candidates)
  {
    hide Holds;
    forall i | 0 <= i < |tasks| ensures tasks[i].id in Members(TaskIds(tasks)) { assert TaskIds(tasks)[i] == tasks[i].id; }
  }

  /** An outcome under a task belongs to that task and comes from that candidate. */
  lemma HeldOutcomesAreTheCandidates(row: map<Id, Outcome>, task: Id, candidates: seq<Candidate>, k: nat)
    requires Holds(row, task, candidates) && k < |candidates|
    ensures var o := row[candidates[k].id]; o.taskId == task && o in candidates[k].outcomes
  {
    OutcomeForFinds(candidates[k].outcomes, task);
  }

  lemma FitsIs(taskIds: set<Id>, c: Candidate)
    ensures CandidateFits(taskIds, c) <==>
      && 0 < |c.outcomes| <= MAX_TASKS && Distinct(OutcomeIds(c.outcomes)) && Members(OutcomeIds(c.outcomes)) == taskIds
      && forall i | 0 <= i < |c.outcomes| :: Supported(c.outcomes[i])
  {
  }

  lemma {:induction false} TotalGrows(candidates: seq<Candidate>, i: nat)
    requires i <= |candidates|
    ensures TotalBytes(candidates[..i]) <= TotalBytes(candidates)
  {
    if i == |candidates| {
      assert candidates[..i] == candidates;
    } else {
      TotalGrows(candidates[..|candidates| - 1], i);
      assert candidates[..|candidates| - 1][..i] == candidates[..i];
    }
  }

  /** One more candidate keeps the prefix pairable exactly when it is new, small enough
      and complete; and a whole pairable list has only pairable prefixes. */
  lemma PairablePrefix(taskIds: set<Id>, bytes: nat, candidates: seq<Candidate>, i: nat)
    requires i < |candidates| && Pairable(taskIds, bytes, candidates[..i])
    ensures TotalBytes(candidates[..i + 1]) == TotalBytes(candidates[..i]) + candidates[i].bytes
    ensures Members(CandidateIds(candidates[..i + 1])) == Members(CandidateIds(candidates[..i])) + {candidates[i].id}
    ensures candidates[i].id in Members(CandidateIds(candidates[..i])) <==> candidates[i].id in CandidateIds(candidates[..i])
    ensures Pairable(taskIds, bytes, candidates[..i + 1]) <==>
      && candidates[i].id !in CandidateIds(candidates[..i])
      && bytes + TotalBytes(candidates[..i]) + candidates[i].bytes <= MAX_TOTAL_BYTES
      && CandidateFits(taskIds, candidates[i])
    ensures Pairable(taskIds, bytes, candidates) ==> Pairable(taskIds, bytes, candidates[..i + 1])
  {
    hide CandidateFits;
    var front, more := candidates[..i], candidates[..i + 1];
    assert more[..i] == front && more[i] == candidates[i];
    assert CandidateIds(more) == CandidateIds(front) + [candidates[i].id];
    TotalGrows(candidates, i + 1);
    var ids := CandidateIds(more);
    if candidates[i].id in CandidateIds(front) {
      var k :| 0 <= k < i && CandidateIds(front)[k] == candidates[i].id;
      assert ids[k] == ids[i];
    }
    if Pairable(taskIds, bytes, candidates) {
      forall a, b | 0 <= a < b < |ids| ensures ids[a] != ids[b] {
        assert CandidateIds(candidates)[a] != CandidateIds(candidates)[b];
      }
      assert forall k | 0 <= k < |more| :: more[k] == candidates[k];
    }
    assert forall k | 0 <= k < |front| :: more[k] == front[k];
  }

  // ----- reviews

  datatype Decided = Accept | Correct | Exclude

  /** The label a decision carries: absent, unusable, or a text. */
  datatype Label = Null | Unusable | Label(text: string)

  /** Fields the exchange's text checks refuse are none. */
  datatype Decision = Decision(taskId: Id, kind: Option<Decided>, target: Label, rationale: Option<string>,
                               evidence: seq<Option<string>>)

  datatype Reviewed = Reviewed(accepted: nat, corrected: nat, excluded: nat, labels: seq<(Task, Decision)>)

  function PacketIds(packet: Packet): seq<Id> {
    seq(|packet|, i requires 0 <= i < |packet| => packet[i].task.id)
  }

  function DecisionIds(decisions: seq<Decision>): seq<Id> {
    seq(|decisions|, i requires 0 <= i < |decisions| => decisions[i].taskId)
  }

  /** `tasks`: the dictionary of a packet's tasks, a later one winning. */
  function TaskOf(packet: Packet, id: Id): Option<Task> {
    if packet == [] then None
    else if packet[|packet| - 1].task.id == id then Some(packet[|packet| - 1].task)
    else TaskOf(packet[..|packet| - 1], id)
  }

  lemma {:induction false} TaskOfFinds(packet: Packet, id: Id)
    ensures TaskOf(packet, id).Some? <==> id in PacketIds(packet)
  {
    if packet != [] {
      var n := |packet| - 1;
      TaskOfFinds(packet[..n], id);
      assert PacketIds(packet) == PacketIds(packet[..n]) + [packet[n].task.id];
    }
  }

  predicate Evidenced(d: Decision) {
    d.rationale.Some? && 1 <= |d.evidence| <= 16 && forall i | 0 <= i < |d.evidence| :: d.evidence[i].Some?
  }

  /** The label agrees with the decision: none for an exclusion, the original for an
      acceptance, another for a correction. */
  predicate Labelled(d: Decision, original: Option<string>) {
    match d.kind
    case None => false
    case Some(Exclude) => d.target == Null
    case Some(Accept) => d.target.Label? && original == Some(d.target.text)
    case Some(Correct) => d.target.Label? && original != Some(d.target.text)
  }

  predicate Sound(packet: Packet, d: Decision) {
    TaskOf(packet, d.taskId).Some? && Evidenced(d) && Labelled(d, TaskOf(packet, d.taskId).value.provisionalLabel)
  }

  function Count(kind: Decided, decisions: seq<Decision>): nat {
    if decisions == [] then 0
    else Count(kind, decisions[..|decisions| - 1]) + if decisions[|decisions| - 1].kind == Some(kind) then 1 else 0
  }

  lemma {:induction false} CountsSum(decisions: seq<Decision>)
    requires forall i | 0 <= i < |decisions| :: decisions[i].kind.Some?
    ensures Count(Accept, decisions) + Count(Correct, decisions) + Count(Exclude, decisions) == |decisions|
  {
    if decisions != [] {
      var n := |decisions| - 1;
      CountsSum(decisions[..n]);
      match decisions[n].kind.value {
        case Accept =>
        case Correct =>
        case Exclude =>
      }
    }
  }

  lemma NothingCounted(decisions: seq<Decision>)
    ensures forall kind :: Count(kind, decisions[..0]) == 0
  {
  }

  lemma CountStep(decisions: seq<Decision>, i: nat)
    requires i < |decisions|
    ensures forall kind ::
      Count(kind, decisions[..i + 1]) == Count(kind, decisions[..i]) + if decisions[i].kind == Some(kind) then 1 else 0
  {
    assert decisions[..i + 1][..i] == decisions[..i];
  }

  /** `validate_review` from the decision list on. */
  method ValidateReview(packet: Packet, decisions: seq<Decision>) returns (r: Result<Reviewed, ReviewError>)
    ensures r.Ok? <==>
      && |decisions| == |packet| && Distinct(DecisionIds(decisions))
      && forall i | 0 <= i < |decisions| :: Sound(packet, decisions[i])
    ensures r.Ok? ==>
      && r.value.accepted == Count(Accept, decisions) && r.value.corrected == Count(Correct, decisions)
      && r.value.excluded == Count(Exclude, decisions) && |r.value.labels| == |decisions|
      && forall i | 0 <= i < |decisions| ::
        r.value.labels[i].1 == decisions[i] && Some(r.value.labels[i].0) == TaskOf(packet, decisions[i].taskId)
  {
    hide Count, TaskOf;
    if |decisions| != |packet| { return Err(NotEveryTask); }
    NothingCounted(decisions);
    var seen: set<Id> := {};
    var labels: seq<(Task, Decision)> := [];
    var accepted, corrected, excluded := 0, 0, 0;
    for i := 0 to |decisions|
      invariant seen == Members(DecisionIds(decisions)[..i]) && Distinct(DecisionIds(decisions)[..i])
      invariant forall j | 0 <= j < i :: Sound(packet, decisions[j])
      invariant accepted == Count(Accept, decisions[..i]) && corrected == Count(Correct, decisions[..i])
      invariant excluded == Count(Exclude, decisions[..i]) && |labels| == i
      invariant forall j | 0 <= j < i :: labels[j].1 == decisions[j] && Some(labels[j].0) == TaskOf(packet, decisions[j].taskId)
    {
      var d := decisions[i];
      assert DecisionIds(decisions)[i] == d.taskId;
      CountStep(decisions, i);
      var task := TaskOf(packet, d.taskId);
      if d.taskId in seen {
        var j :| 0 <= j < i && DecisionIds(decisions)[j] == d.taskId;
        return Err(DuplicateOrUnknown);
      }
      if task.None? { return Err(DuplicateOrUnknown); }
      seen := seen + {d.taskId};
      if d.kind.None? { return Err(UnsupportedDecision); }
      if d.rationale.None? { return Err(BadEvidence); }
      if !(1 <= |d.evidence| <= 16) { return Err(BadEvidence); }
      for k := 0 to |d.evidence|
        invariant forall j | 0 <= j < k :: d.evidence[j].Some?
      {
        if d.evidence[k].None? { return Err(BadEvidence); }
      }
      if d.kind == Some(Exclude) {
        if d.target != Null { return Err(ExcludedWithLabel); }
      } else {
        if !d.target.Label? { return Err(LabelDisagrees); }
        var same := task.value.provisionalLabel == Some(d.target.text);
        if (d.kind == Some(Accept)) != same { return Err(LabelDisagrees); }
      }
      match d.kind.value {
        case Accept => accepted := accepted + 1;
        case Correct => corrected := corrected + 1;
        case Exclude => excluded := excluded + 1;
      }
      labels := labels + [(task.value, d)];
    }
    assert decisions[..|decisions|] == decisions;
    assert DecisionIds(decisions)[..|decisions|] == DecisionIds(decisions);
    r := Ok(Reviewed(accepted, corrected, excluded, labels));
  }

  /** Distinct decisions on known tasks, as many as the packet has entries, reach every
      task: each packet task is decided exactly once and the counts add up. */
  lemma {:induction false} EveryTaskIsDecidedOnce(packet: Packet, decisions: seq<Decision>)
    requires |decisions| == |packet| && Distinct(DecisionIds(decisions))
    requires forall i | 0 <= i < |decisions| :: Sound(packet, decisions[i])
    ensures Distinct(PacketIds(packet))
    ensures multiset(DecisionIds(decisions)) == multiset(PacketIds(packet))
    ensures Count(Accept, decisions) + Count(Correct, decisions) + Count(Exclude, decisions) == |packet|
  {
    hide Sound, Count, PacketIds, DecisionIds, Distinct;
    var asked, decided := PacketIds(packet), DecisionIds(decisions);
    DecidedAreAsked(packet, decisions);
    SetSizeIsDistinct(decided);
    SetSizeIsDistinct(asked);
    SubsetOfSize(Members(decided), Members(asked));
    SameMultiset(decided, asked);
    CountsSum(decisions);
  }

  lemma DecidedAreAsked(packet: Packet, decisions: seq<Decision>)
    requires forall i | 0 <= i < |decisions| :: Sound(packet, decisions[i])
    ensures Members(DecisionIds(decisions)) <= Members(PacketIds(packet))
    ensures |DecisionIds(decisions)| == |decisions| && |PacketIds(packet)| == |packet|
    ensures forall i | 0 <= i < |decisions| :: decisions[i].kind.Some?
  {
    hide Evidenced;
    var asked, decided := PacketIds(packet), DecisionIds(decisions);
    forall i | 0 <= i < |decisions| ensures decisions[i].taskId in asked && decisions[i].kind.Some? {
      assert Sound(packet, decisions[i]);
      TaskOfFinds(packet, decisions[i].taskId);
    }
  }

  lemma SubsetOfSize(a: set<Id>, b: set<Id>)
    requires a <= b && |a| >= |b|
    ensures a == b
  {
    if a != b {
      var x :| x in b && x !in a;
      assert a <= b - {x};
      SubsetIsNoLarger(a, b - {x});
    }
  }

  lemma SameMultiset(a: seq<Id>, b: seq<Id>)
    requires Distinct(a) && Distinct(b) && Members(a) == Members(b)
    ensures multiset(a) == multiset(b)
  {
    DistinctCounts(a);
    DistinctCounts(b);
    forall x ensures multiset(a)[x] == multiset(b)[x] {
      assert x in multiset(a) <==> x in a;
      assert x in multiset(b) <==> x in b;
      assert x in a <==> x in Members(a);
      assert x in b <==> x in Members(b);
    }
  }
}
