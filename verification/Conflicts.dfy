/** The sustained-run conflict analysis: attempts are admitted, conflict traces are
    collected and the two are joined into a report. */
module Conflicts {
  import opened Bytes
  import opened Wrappers
  import opened Sorting

  type Text = seq<byte>

  datatype Kind = MixedWrite | PointRead | RangeRead | Maintenance
  datatype Outcome = Acknowledged | Rejected | Cancelled | Failed | Uncertain

  /** A row of a segment; a field is none where the source finds it missing or invalid. */
  datatype Row = Row(logicalId: Option<Text>, kind: Option<Kind>, outcome: Option<Outcome>,
                     started: Option<nat>, finished: Option<nat>, sequence: Option<nat>)

  datatype Segment = Segment(point: Text, seed: nat, rows: seq<Row>)

  datatype Attempt = Attempt(id: Text, segment: nat, point: Text, seed: nat, sequence: nat, kind: Kind,
                             outcome: Outcome, started: nat, finished: nat)

  datatype AnalysisError =
    | TooManyAttempts | BadAttempt | RepeatedAttempt | MalformedTrace | RepeatedTrace | NotRejected

  const MAX_TRACES := 32
  const MAX_OVERLAPS := 64

  // ----- admission

  /** A digest of the row's identity and its fields, if all are present and in order. */
  function AttemptOf(sha: Text -> Text, number: nat, s: Segment, row: Row): Option<Attempt> {
    match (row.logicalId, row.kind, row.outcome, row.started, row.finished, row.sequence)
    case (Some(id), Some(kind), Some(outcome), Some(started), Some(finished), Some(sequence)) =>
      if finished < started then None
      else Some(Attempt(sha(id), number, sha(s.point), s.seed, sequence, kind, outcome, started, finished))
    case _ => None
  }

  /** A row is admitted exactly when no field is missing and it does not finish before it
      starts; the attempt keeps its fields, the identity and the point as digests. */
  lemma AttemptIs(sha: Text -> Text, number: nat, s: Segment, row: Row, a: Attempt)
    ensures AttemptOf(sha, number, s, row) == Some(a) <==>
      && row.logicalId.Some? && a.id == sha(row.logicalId.value) && a.segment == number
      && a.point == sha(s.point) && a.seed == s.seed && row.sequence == Some(a.sequence)
      && row.kind == Some(a.kind) && row.outcome == Some(a.outcome)
      && row.started == Some(a.started) && row.finished == Some(a.finished) && a.started <= a.finished
  {
  }

  function Ids(attempts: seq<Attempt>): seq<Text> {
    seq(|attempts|, i requires 0 <= i < |attempts| => attempts[i].id)
  }

  function RowsOf(sha: Text -> Text, number: nat, s: Segment): seq<Option<Attempt>> {
    seq(|s.rows|, j requires 0 <= j < |s.rows| => AttemptOf(sha, number, s, s.rows[j]))
  }

  /** Every row of every segment, in order. */
  function AllRows(sha: Text -> Text, segments: seq<Segment>): seq<Option<Attempt>> {
    if segments == [] then []
    else
      var n := |segments| - 1;
      AllRows(sha, segments[..n]) + RowsOf(sha, n, segments[n])
  }

  lemma {:induction false} RowsPrefix(sha: Text -> Text, segments: seq<Segment>, i: nat)
    requires i <= |segments|
    ensures AllRows(sha, segments[..i]) <= AllRows(sha, segments)
  {
    hide RowsOf;
    if i < |segments| {
      var n := |segments| - 1;
      RowsPrefix(sha, segments[..n], i);
      assert segments[..n][..i] == segments[..i];
    } else {
      assert segments[..i] == segments;
    }
  }

  lemma RowsInPlace(sha: Text -> Text, segments: seq<Segment>, i: nat)
    requires i < |segments|
    ensures var start := |AllRows(sha, segments[..i])|;
      && |AllRows(sha, segments[..i + 1])| == start + |segments[i].rows| <= |AllRows(sha, segments)|
      && forall j | 0 <= j < |segments[i].rows| ::
        AllRows(sha, segments)[start + j] == AttemptOf(sha, i, segments[i], segments[i].rows[j])
  {
    RowsPrefix(sha, segments, i + 1);
    assert segments[..i + 1][..i] == segments[..i];
    var before, here, all := AllRows(sha, segments[..i]), RowsOf(sha, i, segments[i]), AllRows(sha, segments);
    assert AllRows(sha, segments[..i + 1]) == before + here;
    hide AllRows, AttemptOf;
    forall j | 0 <= j < |segments[i].rows|
      ensures all[|before| + j] == AttemptOf(sha, i, segments[i], segments[i].rows[j])
    {
      assert all[|before| + j] == (before + here)[|before| + j] == here[j];
    }
  }

  ghost predicate Admissible(rows: seq<Option<Attempt>>) {
    && (forall i | 0 <= i < |rows| :: rows[i].Some?)
    && (forall i, j | 0 <= i < j < |rows| :: rows[i].value.id != rows[j].value.id)
  }

  /** Admission keeps every row in order. It fails exactly when there are too many, one
      is invalid (finishing before it starts, say) or an identity is repeated. */
  method Admit(sha: Text -> Text, segments: seq<Segment>, maximum: nat) returns (r: Result<seq<Attempt>, AnalysisError>)
    ensures r.Ok? <==> |AllRows(sha, segments)| <= maximum && Admissible(AllRows(sha, segments))
    ensures r.Ok? ==>
      && |r.value| == |AllRows(sha, segments)| && Distinct(Ids(r.value))
      && forall i | 0 <= i < |r.value| :: AllRows(sha, segments)[i] == Some(r.value[i])
  {
    hide AttemptOf, AllRows;
    ghost var rows := AllRows(sha, segments);
    var attempts: seq<Attempt> := [];
    var seen: set<Text> := {};
    NoRows(sha, segments);
    for i := 0 to |segments|
      invariant |attempts| == |AllRows(sha, segments[..i])| <= |rows| && |attempts| <= maximum
      invariant forall k | 0 <= k < |attempts| :: rows[k] == Some(attempts[k])
      invariant Distinct(Ids(attempts)) && seen == set id | id in Ids(attempts)
    {
      var s := segments[i];
      RowsInPlace(sha, segments, i);
      if |attempts| + |s.rows| > maximum { return Err(TooManyAttempts); }
      ghost var start := |attempts|;
      for j := 0 to |s.rows|
        invariant |attempts| == start + j
        invariant forall k | 0 <= k < |attempts| :: rows[k] == Some(attempts[k])
        invariant Distinct(Ids(attempts)) && seen == set id | id in Ids(attempts)
      {
        var attempt := AttemptOf(sha, i, s, s.rows[j]);
        assert rows[start + j] == attempt;
        if attempt.None? { return Err(BadAttempt); }
        if attempt.value.id in seen {
          var k :| 0 <= k < |attempts| && Ids(attempts)[k] == attempt.value.id;
          assert rows[k].value.id == rows[start + j].value.id;
          return Err(RepeatedAttempt);
        }
        assert Ids(attempts + [attempt.value]) == Ids(attempts) + [attempt.value.id];
        attempts := attempts + [attempt.value];
        seen := seen + {attempt.value.id};
      }
    }
    assert segments[..|segments|] == segments;
    forall i, j | 0 <= i < j < |rows| ensures rows[i].value.id != rows[j].value.id {
      assert Ids(attempts)[i] != Ids(attempts)[j];
    }
    r := Ok(attempts);
  }

  lemma NoRows(sha: Text -> Text, segments: seq<Segment>)
    ensures AllRows(sha, segments[..0]) == []
  {
  }

  // ----- traces

  datatype Cursors = Cursors(read: nat, expected: nat, actual: nat)

  datatype Line = Unrelated | Malformed | Trace(id: Text, cursors: Cursors)

  type Traces = map<Text, Cursors>

  ghost predicate TracesOf(lines: seq<Line>, traces: Traces) {
    && (forall i | 0 <= i < |lines| && lines[i].Trace? :: lines[i].id in traces && traces[lines[i].id] == lines[i].cursors)
    && (forall id | id in traces :: exists i :: 0 <= i < |lines| && lines[i].Trace? && lines[i].id == id)
  }

  ghost predicate TracedOnce(lines: seq<Line>) {
    && (forall i, j | 0 <= i < j < |lines| && lines[i].Trace? && lines[j].Trace? :: lines[i].id != lines[j].id)
    && (forall i | 0 <= i < |lines| :: !lines[i].Malformed?)
  }

  function TraceCount(lines: seq<Line>): nat {
    if lines == [] then 0
    else TraceCount(lines[..|lines| - 1]) + if lines[|lines| - 1].Trace? then 1 else 0
  }

  /** No malformed line, no repetition and no more traces than allowed. */
  ghost predicate Collectable(lines: seq<Line>) {
    TracedOnce(lines) && TraceCount(lines) <= MAX_TRACES
  }

  /** Traces are collected exactly from a collectable log; otherwise the first line that
      makes it not collectable decides the error. */
  method CollectTraces(lines: seq<Line>) returns (r: Result<Traces, AnalysisError>)
    ensures r.Ok? <==> Collectable(lines)
    ensures r.Ok? ==> TracesOf(lines, r.value) && |r.value| == TraceCount(lines)
    ensures r.Err? ==> exists k | 0 <= k < |lines| ::
      && Collectable(lines[..k]) && !Collectable(lines[..k + 1])
      && r.error == if lines[k].Malformed? then MalformedTrace else RepeatedTrace
  {
    var traces: Traces := map[];
    assert TracesOf(lines[..0], traces) && Collectable(lines[..0]);
    hide TracesOf, Collectable, TraceCount;
    for k := 0 to |lines|
      invariant TracesOf(lines[..k], traces) && Collectable(lines[..k]) && |traces| == TraceCount(lines[..k]) <= MAX_TRACES
    {
      CountNext(lines, k);
      match lines[k] {
        case Unrelated =>
          TracesStay(lines, k, traces);
        case Malformed =>
          RefusedHere(lines, k, traces);
          return Err(MalformedTrace);
        case Trace(id, cursors) =>
          if id in traces || |traces| >= MAX_TRACES {
            RefusedHere(lines, k, traces);
            return Err(RepeatedTrace);
          }
          TracesGrow(lines, k, traces);
          traces := traces[id := cursors];
      }
    }
    assert lines[..|lines|] == lines;
    r := Ok(traces);
  }

  lemma CountNext(lines: seq<Line>, k: nat)
    requires k < |lines|
    ensures TraceCount(lines[..k + 1]) == TraceCount(lines[..k]) + if lines[k].Trace? then 1 else 0
  {
    assert lines[..k + 1][..k] == lines[..k];
  }

  lemma {:induction false} CountGrows(lines: seq<Line>, k: nat)
    requires k <= |lines|
    ensures TraceCount(lines[..k]) <= TraceCount(lines)
  {
    var n := |lines| - 1;
    if k <= n {
      CountGrows(lines[..n], k);
      assert lines[..n][..k] == lines[..k];
    } else {
      assert lines[..k] == lines;
    }
  }

  /** A prefix that is not collectable spoils the log. */
  lemma PrefixCollectable(lines: seq<Line>, k: nat)
    requires k <= |lines| && Collectable(lines)
    ensures Collectable(lines[..k])
  {
    CountGrows(lines, k);
  }

  lemma RefusedHere(lines: seq<Line>, k: nat, traces: Traces)
    requires k < |lines| && TracesOf(lines[..k], traces) && |traces| == TraceCount(lines[..k])
    requires lines[k].Malformed? || (lines[k].Trace? && (lines[k].id in traces || |traces| >= MAX_TRACES))
    ensures !Collectable(lines[..k + 1]) && !Collectable(lines)
  {
    var longer := lines[..k + 1];
    assert longer[k] == lines[k];
    CountNext(lines, k);
    if lines[k].Trace? && lines[k].id in traces {
      var i :| 0 <= i < k && lines[..k][i].Trace? && lines[..k][i].id == lines[k].id;
      assert longer[i].id == longer[k].id;
    }
    assert !Collectable(longer);
    if Collectable(lines) {
      PrefixCollectable(lines, k + 1);
    }
  }

  lemma TracesStay(lines: seq<Line>, k: nat, traces: Traces)
    requires k < |lines| && TracesOf(lines[..k], traces) && Collectable(lines[..k]) && lines[k].Unrelated?
    ensures TracesOf(lines[..k + 1], traces) && Collectable(lines[..k + 1])
  {
    CountNext(lines, k);
    hide TraceCount;
    var before, longer := lines[..k], lines[..k + 1];
    assert forall i | 0 <= i < k :: longer[i] == before[i];
    forall id | id in traces ensures exists i :: 0 <= i < |longer| && longer[i].Trace? && longer[i].id == id {
      var i :| 0 <= i < |before| && before[i].Trace? && before[i].id == id;
      assert longer[i].Trace? && longer[i].id == id;
    }
  }

  lemma TracesGrow(lines: seq<Line>, k: nat, traces: Traces)
    requires k < |lines| && TracesOf(lines[..k], traces) && Collectable(lines[..k])
    requires lines[k].Trace? && lines[k].id !in traces && TraceCount(lines[..k]) < MAX_TRACES
    ensures TracesOf(lines[..k + 1], traces[lines[k].id := lines[k].cursors]) && Collectable(lines[..k + 1])
  {
    CountNext(lines, k);
    assert lines[..k + 1] == lines[..k] + [lines[k]];
    hide TraceCount, TracedOnce, TracesOf;
    OneMoreTrace(lines[..k], lines[k], traces);
    OnceMore(lines[..k], lines[k], traces);
  }

  lemma OneMoreTrace(before: seq<Line>, line: Line, traces: Traces)
    requires TracesOf(before, traces) && line.Trace? && line.id !in traces
    ensures TracesOf(before + [line], traces[line.id := line.cursors])
  {
    var longer, all := before + [line], traces[line.id := line.cursors];
    forall id | id in all ensures exists i :: 0 <= i < |longer| && longer[i].Trace? && longer[i].id == id {
      if id == line.id {
        assert longer[|before|].Trace? && longer[|before|].id == id;
      } else {
        var i :| 0 <= i < |before| && before[i].Trace? && before[i].id == id;
        assert longer[i].Trace? && longer[i].id == id;
      }
    }
  }

  lemma OnceMore(before: seq<Line>, line: Line, traces: Traces)
    requires TracesOf(before, traces) && TracedOnce(before) && line.Trace? && line.id !in traces
    ensures TracedOnce(before + [line])
  {
  }

  // ----- overlap

  /** Another attempt of the same point and seed whose interval meets this one's. */
  predicate Overlaps(a: Attempt, b: Attempt) {
    b != a && b.point == a.point && b.seed == a.seed && b.started <= a.finished && a.started <= b.finished
  }

  function OverlapsOf(a: Attempt, attempts: seq<Attempt>): seq<Attempt> {
    if attempts == [] then []
    else
      var n := |attempts| - 1;
      OverlapsOf(a, attempts[..n]) + if Overlaps(a, attempts[n]) then [attempts[n]] else []
  }

  lemma {:induction false} OverlapMembers(a: Attempt, attempts: seq<Attempt>)
    ensures forall b :: b in OverlapsOf(a, attempts) <==> b in attempts && Overlaps(a, b)
  {
    if attempts != [] {
      var n := |attempts| - 1;
      OverlapMembers(a, attempts[..n]);
      assert attempts == attempts[..n] + [attempts[n]];
    }
  }

  /** One conflict counts another exactly when the other counts it. */
  lemma OverlapIsMutual(a: Attempt, b: Attempt, attempts: seq<Attempt>)
    requires a in attempts && b in attempts
    ensures b in OverlapsOf(a, attempts) <==> a in OverlapsOf(b, attempts)
  {
    OverlapMembers(a, attempts);
    OverlapMembers(b, attempts);
  }

  predicate Earlier(a: Attempt, b: Attempt) {
    a.started < b.started || (a.started == b.started && Le(a.id, b.id))
  }

  function FirstOverlaps(s: seq<Attempt>): seq<Attempt> {
    if |s| <= MAX_OVERLAPS then s else s[..MAX_OVERLAPS]
  }

  predicate UnderWay(a: Attempt, t: nat) {
    a.started <= t <= a.finished
  }

  /** Both attempts were under way at some instant. */
  ghost predicate ShareInstant(a: Attempt, b: Attempt) {
    exists t :: UnderWay(a, t) && UnderWay(b, t)
  }

  /** The counted attempts are exactly the others of the same point and seed that were
      under way at some instant of this one. */
  lemma OverlapsShareAnInstant(attempts: seq<Attempt>, a: Attempt, b: Attempt)
    requires forall x | x in attempts :: x.started <= x.finished
    requires a in attempts
    ensures b in OverlapsOf(a, attempts) <==>
      b in attempts && b != a && b.point == a.point && b.seed == a.seed && ShareInstant(a, b)
  {
    OverlapMembers(a, attempts);
    if b in attempts && Overlaps(a, b) {
      var t := if a.started <= b.started then b.started else a.started;
      assert UnderWay(a, t) && UnderWay(b, t);
    }
  }

  datatype Conflict = Conflict(attempt: Attempt, cursors: Cursors, overlapCount: nat, truncated: bool, overlaps: seq<Attempt>)

  function ConflictOf(attempts: seq<Attempt>, a: Attempt, cursors: Cursors): Conflict {
    var overlap := Sort(Earlier, OverlapsOf(a, attempts));
    Conflict(a, cursors, |overlap|, |overlap| > MAX_OVERLAPS, FirstOverlaps(overlap))
  }

  predicate ConflictEarlier(a: Conflict, b: Conflict) {
    Earlier(a.attempt, b.attempt)
  }

  // ----- counting

  function RejectedCount(attempts: seq<Attempt>): nat {
    if attempts == [] then 0
    else RejectedCount(attempts[..|attempts| - 1]) + if attempts[|attempts| - 1].outcome == Rejected then 1 else 0
  }

  function RejectedWithout(attempts: seq<Attempt>, traces: Traces): nat {
    if attempts == [] then 0
    else
      var last := attempts[|attempts| - 1];
      RejectedWithout(attempts[..|attempts| - 1], traces) + if last.outcome == Rejected && last.id !in traces then 1 else 0
  }

  /** The attempts a trace names. */
  function Traced(attempts: seq<Attempt>, traces: Traces): seq<Attempt> {
    if attempts == [] then []
    else
      var last := attempts[|attempts| - 1];
      Traced(attempts[..|attempts| - 1], traces) + if last.id in traces then [last] else []
  }

  lemma {:induction false} RejectedSplit(attempts: seq<Attempt>, traces: Traces)
    requires forall a | a in attempts && a.id in traces :: a.outcome == Rejected
    ensures RejectedCount(attempts) == |Traced(attempts, traces)| + RejectedWithout(attempts, traces)
  {
    if attempts != [] {
      var n := |attempts| - 1;
      assert attempts == attempts[..n] + [attempts[n]];
      RejectedSplit(attempts[..n], traces);
    }
  }

  lemma {:induction false} TracedMembers(attempts: seq<Attempt>, traces: Traces)
    ensures forall a :: a in Traced(attempts, traces) <==> a in attempts && a.id in traces
    ensures Distinct(attempts) ==> Distinct(Traced(attempts, traces))
  {
    if attempts != [] {
      var n := |attempts| - 1;
      assert attempts == attempts[..n] + [attempts[n]];
      TracedMembers(attempts[..n], traces);
      if Distinct(attempts) {
        assert forall i | 0 <= i < n :: attempts[..n][i] == attempts[i];
        assert attempts[n] !in attempts[..n];
      }
    }
  }

  // ----- the report

  datatype Report = Report(conflicts: seq<Conflict>, unmatched: seq<Text>, rejectedWithoutTrace: nat)

  function Attempts(conflicts: seq<Conflict>): seq<Attempt> {
    seq(|conflicts|, i requires 0 <= i < |conflicts| => conflicts[i].attempt)
  }

  function ById(attempts: seq<Attempt>, id: Text): Option<Attempt> {
    if attempts == [] then None
    else if attempts[|attempts| - 1].id == id then Some(attempts[|attempts| - 1])
    else ById(attempts[..|attempts| - 1], id)
  }

  lemma {:induction false} ByIdFinds(attempts: seq<Attempt>, id: Text)
    ensures ById(attempts, id).Some? <==> id in Ids(attempts)
    ensures ById(attempts, id).Some? ==> ById(attempts, id).value in attempts && ById(attempts, id).value.id == id
  {
    if attempts != [] {
      var n := |attempts| - 1;
      ByIdFinds(attempts[..n], id);
      assert Ids(attempts) == Ids(attempts[..n]) + [attempts[n].id];
    }
  }

  lemma SameId(attempts: seq<Attempt>, a: Attempt, b: Attempt)
    requires Distinct(Ids(attempts)) && a in attempts && b in attempts && a.id == b.id
    ensures a == b
  {
    var i :| 0 <= i < |attempts| && attempts[i] == a;
    var j :| 0 <= j < |attempts| && attempts[j] == b;
    assert Ids(attempts)[i] == Ids(attempts)[j];
  }

  /** What the join over the trace identities `done` has produced. */
  ghost predicate Joined(attempts: seq<Attempt>, traces: Traces, done: set<Text>, conflicts: seq<Conflict>, unmatched: seq<Text>) {
    && done <= traces.Keys && |done| == |conflicts| + |unmatched|
    && Distinct(Attempts(conflicts)) && Distinct(unmatched)
    && (forall a :: a in Attempts(conflicts) <==> a in attempts && a.id in done)
    && (forall id :: id in unmatched <==> id in done && id !in Ids(attempts))
    && (forall i | 0 <= i < |conflicts| ::
         && conflicts[i].attempt.id in traces && conflicts[i].attempt.outcome == Rejected
         && conflicts[i] == ConflictOf(attempts, conflicts[i].attempt, traces[conflicts[i].attempt.id]))
  }

  lemma JoinMatched(attempts: seq<Attempt>, traces: Traces, done: set<Text>, conflicts: seq<Conflict>, unmatched: seq<Text>,
                    a: Attempt)
    requires Joined(attempts, traces, done, conflicts, unmatched) && Distinct(Ids(attempts))
    requires a in attempts && a.id in traces && a.id !in done && a.outcome == Rejected
    ensures Joined(attempts, traces, done + {a.id}, conflicts + [ConflictOf(attempts, a, traces[a.id])], unmatched)
  {
    hide ConflictOf;
    var more := conflicts + [ConflictOf(attempts, a, traces[a.id])];
    ConflictNames(attempts, a, traces[a.id]);
    assert Attempts(more) == Attempts(conflicts) + [a];
    assert a !in Attempts(conflicts);
    forall b ensures b in Attempts(more) <==> b in attempts && b.id in done + {a.id} {
      if b in attempts && b.id == a.id { SameId(attempts, a, b); }
    }
    assert a.id in Ids(attempts) by { MemberId(attempts, a); }
  }

  lemma MemberId(attempts: seq<Attempt>, a: Attempt)
    requires a in attempts
    ensures a.id in Ids(attempts)
  {
    var i :| 0 <= i < |attempts| && attempts[i] == a;
    assert Ids(attempts)[i] == a.id;
  }

  lemma ConflictNames(attempts: seq<Attempt>, a: Attempt, cursors: Cursors)
    ensures ConflictOf(attempts, a, cursors).attempt == a
  {
  }

  lemma JoinUnmatched(attempts: seq<Attempt>, traces: Traces, done: set<Text>, conflicts: seq<Conflict>,
                      unmatched: seq<Text>, id: Text)
    requires Joined(attempts, traces, done, conflicts, unmatched)
    requires id in traces && id !in done && id !in Ids(attempts)
    ensures Joined(attempts, traces, done + {id}, conflicts, unmatched + [id])
  {
    hide ConflictOf;
    forall a ensures a in Attempts(conflicts) <==> a in attempts && a.id in done + {id} {
      if a in attempts { MemberId(attempts, a); }
    }
  }

  /** The join and its report. It fails exactly when a trace names an attempt that was
      not rejected. */
  method Analyze(attempts: seq<Attempt>, traces: Traces) returns (r: Result<Report, AnalysisError>)
    requires Distinct(Ids(attempts))
    ensures r.Ok? <==> forall a | a in attempts && a.id in traces :: a.outcome == Rejected
    ensures r.Ok? ==>
      && Joined(attempts, traces, traces.Keys, r.value.conflicts, r.value.unmatched)
      && Sorted(ConflictEarlier, r.value.conflicts)
      && r.value.rejectedWithoutTrace == RejectedWithout(attempts, traces)
      && (forall i, j | 0 <= i < j < |r.value.unmatched| :: Lt(r.value.unmatched[i], r.value.unmatched[j]))
  {
    hide Joined, ConflictOf, RejectedWithout, ById, Distinct, Ids, Sort;
    var ids := SortedKeys(traces.Keys);
    var conflicts: seq<Conflict>, unmatched: seq<Text> := [], [];
    ghost var done: set<Text> := {};
    NothingJoined(attempts, traces);
    for i := 0 to |ids|
      invariant done == set id | id in ids[..i]
      invariant Joined(attempts, traces, done, conflicts, unmatched)
      invariant forall a | a in attempts && a.id in done :: a.outcome == Rejected
      invariant forall x | x in unmatched :: x in ids[..i]
      invariant forall k, l | 0 <= k < l < |unmatched| :: Lt(unmatched[k], unmatched[l])
    {
      var id := ids[i];
      assert id in ids && id in traces;
      NotYet(ids, i);
      ByIdFinds(attempts, id);
      var row := ById(attempts, id);
      if row.None? {
        JoinUnmatched(attempts, traces, done, conflicts, unmatched, id);
        EarlierIds(ids, i, unmatched);
        unmatched := unmatched + [id];
        forall a | a in attempts ensures a.id != id { MemberId(attempts, a); }
      } else {
        if row.value.outcome != Rejected { return Err(NotRejected); }
        JoinMatched(attempts, traces, done, conflicts, unmatched, row.value);
        conflicts := conflicts + [ConflictOf(attempts, row.value, traces[id])];
        forall a | a in attempts && a.id == id ensures a.outcome == Rejected { SameId(attempts, a, row.value); }
      }
      done := done + {id};
      assert ids[..i + 1] == ids[..i] + [id];
    }
    assert ids[..|ids|] == ids;
    assert done == traces.Keys;
    SortedReport(attempts, traces, conflicts, unmatched);
    r := Ok(Report(Sort(ConflictEarlier, conflicts), unmatched, RejectedWithout(attempts, traces)));
  }

  lemma NothingJoined(attempts: seq<Attempt>, traces: Traces)
    ensures Joined(attempts, traces, {}, [], [])
  {
  }

  lemma NotYet(ids: seq<Text>, i: nat)
    requires i < |ids| && forall a, b | 0 <= a < b < |ids| :: Lt(ids[a], ids[b])
    ensures ids[i] !in ids[..i]
  {
  }

  lemma EarlierIds(ids: seq<Text>, i: nat, some: seq<Text>)
    requires i < |ids| && forall a, b | 0 <= a < b < |ids| :: Lt(ids[a], ids[b])
    requires forall x | x in some :: x in ids[..i]
    ensures forall k | 0 <= k < |some| :: Lt(some[k], ids[i])
  {
    hide Lt;
    forall k | 0 <= k < |some| ensures Lt(some[k], ids[i]) {
      assert some[k] in some;
      var a :| 0 <= a < i && ids[..i][a] == some[k];
      assert ids[a] == some[k];
    }
  }

  function AttemptKey(c: Conflict): Attempt { c.attempt }

  lemma PermutedConflicts(conflicts: seq<Conflict>, sorted: seq<Conflict>)
    requires multiset(conflicts) == multiset(sorted) && Distinct(Attempts(conflicts))
    ensures forall c :: c in sorted <==> c in conflicts
    ensures Distinct(Attempts(sorted))
    ensures forall a :: a in Attempts(sorted) <==> a in Attempts(conflicts)
  {
    forall i, j | 0 <= i < j < |conflicts| ensures AttemptKey(conflicts[i]) != AttemptKey(conflicts[j]) {
      assert Attempts(conflicts)[i] != Attempts(conflicts)[j];
    }
    DistinctKeysPermute(AttemptKey, conflicts, sorted);
    forall c ensures c in sorted <==> c in conflicts {
      assert c in sorted <==> c in multiset(sorted);
      assert c in conflicts <==> c in multiset(conflicts);
    }
    forall a | a in Attempts(sorted) ensures a in Attempts(conflicts) { AttemptOfMember(sorted, conflicts, a); }
    forall a | a in Attempts(conflicts) ensures a in Attempts(sorted) { AttemptOfMember(conflicts, sorted, a); }
  }

  lemma AttemptOfMember(s: seq<Conflict>, t: seq<Conflict>, a: Attempt)
    requires a in Attempts(s) && forall c | c in s :: c in t
    ensures a in Attempts(t)
  {
    var i :| 0 <= i < |s| && Attempts(s)[i] == a;
    assert s[i] in t;
    var j :| 0 <= j < |t| && t[j] == s[i];
    assert Attempts(t)[j] == a;
  }

  lemma SortedReport(attempts: seq<Attempt>, traces: Traces, conflicts: seq<Conflict>, unmatched: seq<Text>)
    requires Joined(attempts, traces, traces.Keys, conflicts, unmatched)
    ensures Joined(attempts, traces, traces.Keys, Sort(ConflictEarlier, conflicts), unmatched)
    ensures Sorted(ConflictEarlier, Sort(ConflictEarlier, conflicts))
  {
    hide ConflictOf, Sort, Sorted, TotalPreorder, Attempts, Ids, Distinct;
    var sorted := Sort(ConflictEarlier, conflicts);
    ConflictEarlierIsTotal();
    SortSorts(ConflictEarlier, conflicts);
    SortPermutes(ConflictEarlier, conflicts);
    PermutedConflicts(conflicts, sorted);
    forall i | 0 <= i < |sorted|
      ensures sorted[i].attempt.id in traces && sorted[i].attempt.outcome == Rejected
      ensures sorted[i] == ConflictOf(attempts, sorted[i].attempt, traces[sorted[i].attempt.id])
    {
      assert sorted[i] in conflicts;
    }
  }

  lemma EarlierIsTotal()
    ensures TotalPreorder(Earlier)
  {
    forall a: Attempt, b: Attempt ensures Earlier(a, b) || Earlier(b, a) {
      LeTotal(a.id, b.id);
    }
    forall a: Attempt, b: Attempt, c: Attempt | Earlier(a, b) && Earlier(b, c) ensures Earlier(a, c) {
      if a.started == b.started == c.started {
        LeTransitive(a.id, b.id, c.id);
      }
    }
  }

  lemma ConflictEarlierIsTotal()
    ensures TotalPreorder(ConflictEarlier)
  {
    hide Earlier;
    EarlierIsTotal();
    forall a: Conflict, b: Conflict ensures ConflictEarlier(a, b) || ConflictEarlier(b, a) {
      assert Earlier(a.attempt, b.attempt) || Earlier(b.attempt, a.attempt);
    }
  }

  // ----- conservation

  lemma IdsDistinctMeansDistinct(attempts: seq<Attempt>)
    requires Distinct(Ids(attempts))
    ensures Distinct(attempts)
  {
    forall i, j | 0 <= i < j < |attempts| ensures attempts[i] != attempts[j] {
      assert Ids(attempts)[i] != Ids(attempts)[j];
    }
  }

  /** Nothing is lost: every rejected attempt is a reported conflict or counted as
      without trace, and every trace is a conflict or listed as unmatched. */
  lemma CountsAreConserved(attempts: seq<Attempt>, traces: Traces, conflicts: seq<Conflict>, unmatched: seq<Text>)
    requires Distinct(Ids(attempts)) && Joined(attempts, traces, traces.Keys, conflicts, unmatched)
    ensures RejectedCount(attempts) == |conflicts| + RejectedWithout(attempts, traces)
    ensures |traces| == |conflicts| + |unmatched|
  {
    hide ConflictOf, Traced, RejectedCount, RejectedWithout, Ids;
    IdsDistinctMeansDistinct(attempts);
    TracedMembers(attempts, traces);
    var traced, reported := Traced(attempts, traces), Attempts(conflicts);
    assert |traces.Keys| == |traces|;
    SetSizeIsDistinct(traced);
    SetSizeIsDistinct(reported);
    assert (set a | a in traced) == (set a | a in reported);
    forall a | a in attempts && a.id in traces ensures a.outcome == Rejected {
      assert a in reported;
      var i :| 0 <= i < |conflicts| && conflicts[i].attempt == a;
    }
    RejectedSplit(attempts, traces);
  }

  /** The overlaps a conflict shows are overlapping attempts, all of them unless the
      list was cut, and the count is always the full one. */
  lemma ConflictShowsOverlaps(attempts: seq<Attempt>, a: Attempt, cursors: Cursors)
    requires Distinct(attempts)
    ensures var c := ConflictOf(attempts, a, cursors);
      && c.overlapCount == |set b | b in attempts && Overlaps(a, b)|
      && (forall b | b in c.overlaps :: b in attempts && Overlaps(a, b))
      && (!c.truncated ==> forall b | b in attempts && Overlaps(a, b) :: b in c.overlaps)
      && (c.truncated <==> c.overlapCount > MAX_OVERLAPS)
      && |c.overlaps| == (if c.truncated then MAX_OVERLAPS else c.overlapCount)
      && c.attempt == a && c.cursors == cursors
  {
    var found := OverlapsOf(a, attempts);
    OverlapMembers(a, attempts);
    OverlapsAreDistinct(a, attempts);
    SetSizeIsDistinct(found);
    assert (set b | b in found) == (set b | b in attempts && Overlaps(a, b));
    SortPermutes(Earlier, found);
    hide Sort, OverlapsOf;
    var sorted := Sort(Earlier, found);
    forall b ensures b in sorted <==> b in found {
      assert b in sorted <==> b in multiset(sorted);
      assert b in found <==> b in multiset(found);
    }
  }

  /** They are listed by start, and the ones cut off all started no earlier. */
  lemma OverlapsAreEarliest(attempts: seq<Attempt>, a: Attempt, cursors: Cursors)
    ensures var c := ConflictOf(attempts, a, cursors);
      && (forall i, j | 0 <= i < j < |c.overlaps| :: c.overlaps[i].started <= c.overlaps[j].started)
      && (forall x, y | x in c.overlaps && y in attempts && Overlaps(a, y) && y !in c.overlaps :: x.started <= y.started)
  {
    var found := OverlapsOf(a, attempts);
    OverlapMembers(a, attempts);
    SortedByStart(found);
    hide Sort, OverlapsOf, Earlier, Overlaps;
    StartsInOrder(found, Sort(Earlier, found));
  }

  lemma SortedByStart(found: seq<Attempt>)
    ensures var sorted := Sort(Earlier, found);
      && (forall i, j | 0 <= i < j < |sorted| :: sorted[i].started <= sorted[j].started)
      && multiset(sorted) == multiset(found)
  {
    EarlierIsTotal();
    SortSorts(Earlier, found);
    SortPermutes(Earlier, found);
    hide Sort, TotalPreorder;
    var sorted := Sort(Earlier, found);
    forall i, j | 0 <= i < j < |sorted| ensures sorted[i].started <= sorted[j].started {
      assert Earlier(sorted[i], sorted[j]);
    }
  }

  lemma StartsInOrder(found: seq<Attempt>, sorted: seq<Attempt>)
    requires forall i, j | 0 <= i < j < |sorted| :: sorted[i].started <= sorted[j].started
    requires multiset(sorted) == multiset(found)
    ensures forall i, j | 0 <= i < j < |FirstOverlaps(sorted)| :: FirstOverlaps(sorted)[i].started <= FirstOverlaps(sorted)[j].started
    ensures forall x, y | x in FirstOverlaps(sorted) && y in found && y !in FirstOverlaps(sorted) :: x.started <= y.started
  {
    forall x, y | x in FirstOverlaps(sorted) && y in found && y !in FirstOverlaps(sorted) ensures x.started <= y.started {
      assert y in multiset(found) && y in multiset(sorted);
      var i :| 0 <= i < |FirstOverlaps(sorted)| && FirstOverlaps(sorted)[i] == x;
      var j :| 0 <= j < |sorted| && sorted[j] == y;
      assert sorted[i] == x && i < j;
    }
  }

  lemma {:induction false} OverlapsAreDistinct(a: Attempt, attempts: seq<Attempt>)
    requires Distinct(attempts)
    ensures Distinct(OverlapsOf(a, attempts))
  {
    if attempts != [] {
      var n := |attempts| - 1;
      assert forall i | 0 <= i < n :: attempts[..n][i] == attempts[i];
      OverlapsAreDistinct(a, attempts[..n]);
      OverlapMembers(a, attempts[..n]);
      assert attempts[n] !in attempts[..n];
    }
  }
}
