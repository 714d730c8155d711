/** Any number of processes appending to one observation log, step by step: taking
    the lock file, reading the log line by line, writing in pieces, failing, dying.
    The log stays a set of unforked chains in every interleaving. */
module LogWriters {
  import opened Bytes
  import opened Wrappers
  import opened ObservationLog

  type Candidate = map<string, Json>

  datatype Phase =
    | Idle
    | Locked(record: Candidate)
    | Scanning(record: Candidate, length: nat, offset: nat, previous: Option<Json>)
    | Writing(sealed: Json, done: nat)
    | Finished
    | Dead

  /** The file and the lock file, each process's position, and two history
      variables: the complete records in the file and the bytes after them. */
  datatype State = State(file: seq<byte>, lockExists: bool, writers: map<nat, Phase>, records: seq<Json>, tail: seq<byte>)

  function PhaseOf(s: State, w: nat): Phase {
    if w in s.writers then s.writers[w] else Idle
  }

  datatype Event =
    | TakeLock(record: Candidate)
    | MeasureLog
    | ReadOneLine
    | DecideAppend
    | WriteSome(count: nat)
    | WriteFails
    | ReleaseLock
    | Die
    | ClearDeadLock

  function Measured(s: State, record: Candidate): Phase {
    if |s.file| > MAX_LOG || "streamSha256" !in record then Finished
    else Scanning(record, |s.file|, 0, None)
  }

  function LineRead(c: Codec, s: State, record: Candidate, length: nat, offset: nat, previous: Option<Json>): Phase
    requires offset <= |s.file| && "streamSha256" in record
  {
    var line := ReadLine(s.file[offset..], MAX_RECORD + 1);
    match ScanLine(c, line, record["streamSha256"], previous)
    case None => Finished
    case Some(next) => Scanning(record, length, offset + |line|, next)
  }

  function Decided(c: Codec, record: Candidate, length: nat, previous: Option<Json>): Phase {
    match Decide(c, record, previous, length)
    case Write(sealed) => Writing(sealed, 0)
    case _ => Finished
  }

  /** What one event of writer `w` does; `None` when it cannot happen now. */
  function Act(c: Codec, s: State, w: nat, e: Event): Option<State> {
    match (e, PhaseOf(s, w))
    case (TakeLock(record), Idle) =>
      // An existing lock file makes the open fail: nothing changes, least of all the lock.
      if s.lockExists then Some(s)
      else Some(s.(lockExists := true, writers := s.writers[w := Locked(record)]))
    case (MeasureLog, Locked(record)) => Some(s.(writers := s.writers[w := Measured(s, record)]))
    case (ReadOneLine, Scanning(record, length, offset, previous)) =>
      if offset >= |s.file| || "streamSha256" !in record then None
      else Some(s.(writers := s.writers[w := LineRead(c, s, record, length, offset, previous)]))
    case (DecideAppend, Scanning(record, length, offset, previous)) =>
      if offset < |s.file| then None
      else Some(s.(writers := s.writers[w := Decided(c, record, length, previous)]))
    case (WriteSome(count), Writing(sealed, done)) =>
      var encoded := c.canonical(sealed);
      if !(done < done + count <= |encoded|) then None
      else if done + count == |encoded| then
        Some(State(s.file + encoded[done..], s.lockExists, s.writers[w := Finished], s.records + [sealed], []))
      else
        Some(State(s.file + encoded[done..done + count], s.lockExists, s.writers[w := Writing(sealed, done + count)],
                   s.records, encoded[..done + count]))
    case (WriteFails, Writing(sealed, done)) => Some(s.(writers := s.writers[w := Finished]))
    case (ReleaseLock, Finished) => Some(s.(lockExists := false, writers := s.writers[w := Idle]))
    case (Die, phase) => if phase.Idle? then None else Some(s.(writers := s.writers[w := Dead]))
    case (ClearDeadLock, Dead) => Some(s.(lockExists := false, writers := s.writers[w := Idle]))
    case _ => None
  }

  ghost predicate Next(c: Codec, a: State, b: State) {
    exists w, e :: Act(c, a, w, e) == Some(b)
  }

  ghost predicate IsRun(c: Codec, run: seq<State>) {
    && run != [] && run[0] == State([], false, map[], [], [])
    && forall i | 0 <= i < |run| - 1 :: Next(c, run[i], run[i + 1])
  }

  // ----- the invariant

  predicate Torn(tail: seq<byte>) {
    forall i | 0 <= i < |tail| :: tail[i] != NEWLINE
  }

  /** A process past the lock is alone there, and its view of the log is current. */
  ghost predicate Holds(c: Codec, s: State, phase: Phase) {
    match phase
    case Idle => true
    case Locked(_) => true
    case Scanning(record, length, offset, previous) =>
      && "streamSha256" in record && length == |s.file| && offset <= |s.file|
      && Scan(c, s.file, record["streamSha256"], None) == Scan(c, s.file[offset..], record["streamSha256"], previous)
    case Writing(sealed, done) =>
      && done < |c.canonical(sealed)| && s.tail == c.canonical(sealed)[..done]
      && Chained(c, s.records + [sealed]) && |Encoded(c, s.records)| + |c.canonical(sealed)| <= MAX_LOG
    case Finished => true
    case Dead => true
  }

  ghost predicate Invariant(c: Codec, s: State) {
    && s.file == Encoded(c, s.records) + s.tail && |s.file| <= MAX_LOG
    && Chained(c, s.records) && Torn(s.tail)
    && (forall w, v :: PhaseOf(s, w) != Idle && PhaseOf(s, v) != Idle ==> w == v)
    && (forall w :: PhaseOf(s, w) != Idle ==> s.lockExists)
    && (forall w :: Holds(c, s, PhaseOf(s, w)))
  }

  lemma EncodedAppend(c: Codec, records: seq<Json>, last: Json)
    ensures Encoded(c, records + [last]) == Encoded(c, records) + c.canonical(last)
  {
    assert (records + [last])[..|records|] == records;
  }

  /** A decision to write extends the chain of its own stream by one record. */
  lemma DecideExtends(c: Codec, records: seq<Json>, record: Candidate, length: nat)
    requires Chained(c, records) && "streamSha256" in record
    requires Decide(c, record, LastOf(records, record["streamSha256"]), length).Write?
    ensures var sealed := Decide(c, record, LastOf(records, record["streamSha256"]), length).record;
      Chained(c, records + [sealed]) && length + |c.canonical(sealed)| <= MAX_LOG
  {
    hide ValidRecord;
    var previous := LastOf(records, record["streamSha256"]);
    var sealed := Decide(c, record, previous, length).record;
    assert StreamOf(sealed) == record["streamSha256"];
    assert PreviousOf(sealed) == PredecessorId(previous);
    assert SnapshotOf(sealed) == record["snapshotSha256"];
    assert (records + [sealed])[..|records|] == records;
  }

  /** The candidate as given, but for its predecessor and its identity. */
  ghost predicate Seals(sealed: Json, record: Candidate, records: seq<Json>) {
    && "streamSha256" in record && sealed.Object?
    && sealed.fields - {"recordId"}
       == record["previousRecordId" := PredecessorId(LastOf(records, record["streamSha256"]))] - {"recordId"}
  }

  lemma DecideSeals(c: Codec, records: seq<Json>, record: Candidate, length: nat)
    requires "streamSha256" in record
    requires Decide(c, record, LastOf(records, record["streamSha256"]), length).Write?
    ensures Seals(Decide(c, record, LastOf(records, record["streamSha256"]), length).record, record, records)
  {
    hide ValidRecord;
  }

  /** A scan that reached the end of the file proves that nothing is torn and holds
      the stream's last record. */
  lemma ScanReachedEnd(c: Codec, s: State, record: Candidate, previous: Option<Json>)
    requires Lawful(c) && Invariant(c, s) && "streamSha256" in record
    requires Scan(c, s.file, record["streamSha256"], None) == Some(previous)
    ensures s.tail == [] && previous == LastOf(s.records, record["streamSha256"])
  {
    hide Scan, Chained, Encoded;
    var stream := record["streamSha256"];
    if s.tail != [] {
      ScanOfTorn(c, s.records, s.tail, stream);
    } else {
      ScanOfChained(c, s.records, [], stream);
      ScanOfNothing(c, stream, LastOf(s.records, stream));
    }
  }

  /** The lock holder moves on without touching the log. */
  lemma HolderMoves(c: Codec, s: State, w: nat, phase: Phase)
    requires Invariant(c, s) && PhaseOf(s, w) != Idle && phase != Idle
    requires Holds(c, s, phase)
    ensures Invariant(c, s.(writers := s.writers[w := phase]))
  {
    hide Scan, Chained, Encoded;
    var t := s.(writers := s.writers[w := phase]);
    forall v ensures PhaseOf(t, v) == if v == w then phase else Idle {
      if v != w { assert PhaseOf(s, v) == Idle; }
    }
  }

  lemma HolderLeaves(c: Codec, s: State, w: nat)
    requires Invariant(c, s) && PhaseOf(s, w) != Idle
    ensures Invariant(c, s.(lockExists := false, writers := s.writers[w := Idle]))
  {
    hide Scan, Chained, Encoded;
    var t := s.(lockExists := false, writers := s.writers[w := Idle]);
    forall v ensures PhaseOf(t, v) == Idle {
      if v != w { assert PhaseOf(s, v) == Idle; }
    }
  }

  lemma LockTaken(c: Codec, s: State, w: nat, record: Candidate)
    requires Invariant(c, s) && !s.lockExists
    ensures Invariant(c, s.(lockExists := true, writers := s.writers[w := Locked(record)]))
  {
    hide Scan, Chained, Encoded;
    var t := s.(lockExists := true, writers := s.writers[w := Locked(record)]);
    forall v ensures PhaseOf(t, v) == if v == w then Locked(record) else Idle {
      if v != w { assert PhaseOf(s, v) == Idle; }
    }
  }

  lemma ScanOneLine(c: Codec, bytes: seq<byte>, stream: Json, previous: Option<Json>)
    requires bytes != []
    ensures var line := ReadLine(bytes, MAX_RECORD + 1);
      var next := ScanLine(c, line, stream, previous);
      next.Some? ==> Scan(c, bytes, stream, previous) == Scan(c, bytes[|line|..], stream, next.value)
  {
    hide ScanLine;
  }

  lemma ReadStep(c: Codec, s: State, record: Candidate, length: nat, offset: nat, previous: Option<Json>)
    requires offset < |s.file| && "streamSha256" in record
    requires Holds(c, s, Scanning(record, length, offset, previous))
    ensures LineRead(c, s, record, length, offset, previous) != Idle
    ensures Holds(c, s, LineRead(c, s, record, length, offset, previous))
  {
    hide ScanLine, Scan;
    var line := ReadLine(s.file[offset..], MAX_RECORD + 1);
    ScanOneLine(c, s.file[offset..], record["streamSha256"], previous);
    assert s.file[offset..][|line|..] == s.file[offset + |line|..];
  }

  lemma MeasureStep(c: Codec, s: State, record: Candidate)
    ensures Measured(s, record) != Idle && Holds(c, s, Measured(s, record))
  {
    hide Scan;
    assert s.file[0..] == s.file;
  }

  lemma DecideStep(c: Codec, s: State, record: Candidate, length: nat, offset: nat, previous: Option<Json>)
    requires Lawful(c) && Invariant(c, s) && offset >= |s.file|
    requires Holds(c, s, Scanning(record, length, offset, previous))
    ensures Decided(c, record, length, previous) != Idle
    ensures Holds(c, s, Decided(c, record, length, previous))
  {
    hide Chained, Encoded, Decide, Scan;
    assert s.file[offset..] == [];
    ScanOfNothing(c, record["streamSha256"], previous);
    ScanReachedEnd(c, s, record, previous);
    var decision := Decide(c, record, previous, length);
    if decision.Write? {
      DecideExtends(c, s.records, record, length);
      assert Encoded(c, s.records) + s.tail == Encoded(c, s.records);
      assert IsLine(c.canonical(decision.record));
      assert c.canonical(decision.record)[..0] == [];
    }
  }

  /** What a piece of a record adds to the file. */
  lemma WrittenBytes(c: Codec, records: seq<Json>, sealed: Json, file: seq<byte>, done: nat, upto: nat)
    requires Lawful(c) && done < upto <= |c.canonical(sealed)|
    requires file == Encoded(c, records) + c.canonical(sealed)[..done]
    ensures file + c.canonical(sealed)[done..upto] == Encoded(c, records) + c.canonical(sealed)[..upto]
    ensures file + c.canonical(sealed)[done..] == Encoded(c, records + [sealed]) + []
    ensures upto < |c.canonical(sealed)| ==> Torn(c.canonical(sealed)[..upto])
    ensures |Encoded(c, records + [sealed])| == |Encoded(c, records)| + |c.canonical(sealed)|
  {
    EncodedAppend(c, records, sealed);
    hide Encoded;
    var encoded := c.canonical(sealed);
    assert IsLine(encoded);
    assert encoded[..done] + encoded[done..upto] == encoded[..upto];
    assert encoded[..done] + encoded[done..] == encoded;
  }

  lemma OthersAreIdle(c: Codec, s: State, w: nat, t: State, phase: Phase)
    requires Invariant(c, s) && PhaseOf(s, w) != Idle && t.writers == s.writers[w := phase]
    ensures forall v :: PhaseOf(t, v) == if v == w then phase else Idle
  {
    forall v ensures PhaseOf(t, v) == if v == w then phase else Idle {
      if v != w { assert PhaseOf(s, v) == Idle; }
    }
  }

  lemma WriteStep(c: Codec, s: State, w: nat, count: nat, t: State)
    requires Lawful(c) && Invariant(c, s) && Act(c, s, w, WriteSome(count)) == Some(t)
    ensures Invariant(c, t)
  {
    hide Chained, Encoded, Scan, Torn, Lawful;
    var Writing(sealed, done) := PhaseOf(s, w);
    assert Holds(c, s, PhaseOf(s, w));
    WrittenBytes(c, s.records, sealed, s.file, done, done + count);
    OthersAreIdle(c, s, w, t, PhaseOf(t, w));
    NothingIsTorn();
  }

  lemma NothingIsTorn()
    ensures Torn([])
  {
  }

  lemma ActKeepsInvariant(c: Codec, s: State, w: nat, e: Event, t: State)
    requires Lawful(c) && Invariant(c, s) && Act(c, s, w, e) == Some(t)
    ensures Invariant(c, t)
  {
    hide Scan, Chained, Encoded, Measured, LineRead, Decided;
    assert Holds(c, s, PhaseOf(s, w));
    hide Holds, Invariant;
    match e
    case TakeLock(record) => if !s.lockExists { LockTaken(c, s, w, record); }
    case MeasureLog =>
      MeasureStep(c, s, PhaseOf(s, w).record);
      HolderMoves(c, s, w, PhaseOf(t, w));
    case ReadOneLine =>
      var Scanning(record, length, offset, previous) := PhaseOf(s, w);
      ReadStep(c, s, record, length, offset, previous);
      HolderMoves(c, s, w, PhaseOf(t, w));
    case DecideAppend =>
      var Scanning(record, length, offset, previous) := PhaseOf(s, w);
      DecideStep(c, s, record, length, offset, previous);
      HolderMoves(c, s, w, PhaseOf(t, w));
    case WriteSome(count) => WriteStep(c, s, w, count, t);
    case WriteFails => HolderFinishes(c, s, w, Finished);
    case ReleaseLock => HolderLeaves(c, s, w);
    case Die => HolderFinishes(c, s, w, Dead);
    case ClearDeadLock => HolderLeaves(c, s, w);
  }

  lemma HolderFinishes(c: Codec, s: State, w: nat, phase: Phase)
    requires Invariant(c, s) && PhaseOf(s, w) != Idle && (phase == Finished || phase == Dead)
    ensures Invariant(c, s.(writers := s.writers[w := phase]))
  {
    hide Scan, Chained, Encoded;
    HolderMoves(c, s, w, phase);
  }

  lemma ActAt(c: Codec, run: seq<State>, k: nat) returns (w: nat, e: Event)
    requires IsRun(c, run) && k + 1 < |run|
    ensures Act(c, run[k], w, e) == Some(run[k + 1])
  {
    hide Act;
    assert Next(c, run[k], run[k + 1]);
    w, e :| Act(c, run[k], w, e) == Some(run[k + 1]);
  }

  lemma {:induction false} RunInvariant(c: Codec, run: seq<State>, i: nat)
    requires Lawful(c) && IsRun(c, run) && i < |run|
    ensures Invariant(c, run[i])
  {
    hide Invariant, Act, Lawful;
    if i == 0 {
      FirstState(c, run);
    } else {
      RunInvariant(c, run, i - 1);
      var w, e := ActAt(c, run, i - 1);
      ActKeepsInvariant(c, run[i - 1], w, e, run[i]);
    }
  }

  lemma FirstState(c: Codec, run: seq<State>)
    requires IsRun(c, run)
    ensures Invariant(c, run[0])
  {
    hide Act;
  }

  // ----- what every run guarantees

  /** The records of one stream, in file order. */
  function StreamRecords(records: seq<Json>, stream: Json): seq<Json> {
    if records == [] then []
    else
      var n := |records| - 1;
      StreamRecords(records[..n], stream) + (if StreamOf(records[n]) == stream then [records[n]] else [])
  }

  /** An unforked chain: the first record has no predecessor, each later one names
      the one just before it, and neighbours differ. */
  ghost predicate Chain(records: seq<Json>) {
    && (records != [] ==> PreviousOf(records[0]) == Null)
    && (forall i, j | 0 <= i && j == i + 1 < |records| :: Follows(records[i], records[j]))
  }

  predicate Follows(before: Json, after: Json) {
    PreviousOf(after) == IdOf(before) && SnapshotOf(after) != SnapshotOf(before)
  }

  lemma {:induction false} LastOfStream(records: seq<Json>, stream: Json)
    ensures var own := StreamRecords(records, stream);
      LastOf(records, stream) == if own == [] then None else Some(own[|own| - 1])
  {
    if records != [] {
      LastOfStream(records[..|records| - 1], stream);
    }
  }

  lemma {:induction false} ChainedStreams(c: Codec, records: seq<Json>, stream: Json)
    requires Chained(c, records)
    ensures Chain(StreamRecords(records, stream))
  {
    hide ValidRecord;
    if records != [] {
      var n := |records| - 1;
      ChainedStreams(c, records[..n], stream);
      LastOfStream(records[..n], stream);
      if StreamOf(records[n]) == stream {
        ChainGrows(StreamRecords(records[..n], stream), records[n]);
      }
    }
  }

  lemma ChainGrows(own: seq<Json>, last: Json)
    requires Chain(own)
    requires PreviousOf(last) == PredecessorId(if own == [] then None else Some(own[|own| - 1]))
    requires own != [] ==> SnapshotOf(own[|own| - 1]) != SnapshotOf(last)
    ensures Chain(own + [last])
  {
  }

  /** In every interleaving of any number of writers, at every moment, the file is
      complete records followed by a fragment without a newline, and each stream's
      records form one unforked chain. */
  lemma StreamsNeverFork(c: Codec, run: seq<State>, i: nat, stream: Json)
    requires Lawful(c) && IsRun(c, run) && i < |run|
    ensures var s := run[i];
      && s.file == Encoded(c, s.records) + s.tail && Torn(s.tail) && |s.file| <= MAX_LOG
      && Chain(StreamRecords(s.records, stream))
  {
    RunInvariant(c, run, i);
    ChainedStreams(c, run[i].records, stream);
  }

  /** Once a write has been cut, no later step of any writer changes a byte: every
      append refuses the torn log. */
  lemma {:induction false} TornLogIsFrozen(c: Codec, run: seq<State>, i: nat, j: nat)
    requires Lawful(c) && IsRun(c, run) && i <= j < |run|
    requires run[i].tail != [] && forall w :: !PhaseOf(run[i], w).Writing?
    ensures run[j].file == run[i].file && run[j].tail == run[i].tail
    ensures forall w :: !PhaseOf(run[j], w).Writing?
    decreases j
  {
    hide Invariant, Act, Lawful, PhaseOf;
    if i < j {
      TornLogIsFrozen(c, run, i, j - 1);
      RunInvariant(c, run, j - 1);
      var w, e := ActAt(c, run, j - 1);
      TornStep(c, run[j - 1], w, e, run[j]);
    }
  }

  lemma TornStep(c: Codec, s: State, w: nat, e: Event, t: State)
    requires Lawful(c) && Invariant(c, s) && Act(c, s, w, e) == Some(t)
    requires s.tail != [] && forall v :: !PhaseOf(s, v).Writing?
    ensures t.file == s.file && t.tail == s.tail
    ensures forall v :: !PhaseOf(t, v).Writing?
  {
    hide Chained, Encoded, Scan, Measured, LineRead, Decide;
    assert !PhaseOf(s, w).Writing?;
    if e == DecideAppend {
      var Scanning(record, length, offset, previous) := PhaseOf(s, w);
      assert Holds(c, s, PhaseOf(s, w));
      assert s.file[offset..] == [];
      ScanOfNothing(c, record["streamSha256"], previous);
      ScanReachedEnd(c, s, record, previous);
    }
    hide Invariant, Holds;
    PhasesAfter(c, s, w, e, t);
    forall v ensures !PhaseOf(t, v).Writing? {
      if v != w { assert PhaseOf(t, v) == PhaseOf(s, v); }
    }
  }

  /** Only a decision starts a write, and only a writer touches the file. */
  lemma PhasesAfter(c: Codec, s: State, w: nat, e: Event, t: State)
    requires Act(c, s, w, e) == Some(t) && !PhaseOf(s, w).Writing? && e != DecideAppend
    ensures t.file == s.file && t.tail == s.tail && !PhaseOf(t, w).Writing?
    ensures forall v | v != w :: PhaseOf(t, v) == PhaseOf(s, v)
  {
    hide ScanLine, ReadLine;
  }

  /** Records are never lost, reordered or rewritten. */
  lemma {:induction false} RecordsOnlyGrow(c: Codec, run: seq<State>, i: nat, j: nat)
    requires IsRun(c, run) && i <= j < |run|
    ensures run[i].records <= run[j].records
    decreases j
  {
    if i < j {
      RecordsOnlyGrow(c, run, i, j - 1);
      var w, e := ActAt(c, run, j - 1);
      ActGrows(c, run[j - 1], w, e, run[j]);
    }
  }

  lemma ActGrows(c: Codec, s: State, w: nat, e: Event, t: State)
    requires Act(c, s, w, e) == Some(t)
    ensures s.records <= t.records
  {
    hide Measured, LineRead, Decided;
  }

  lemma {:induction false} ChainedMember(c: Codec, records: seq<Json>, k: nat)
    requires Chained(c, records) && k < |records|
    ensures ValidRecord(c, records[k]) && |c.canonical(records[k])| <= MAX_RECORD
  {
    hide ValidRecord;
    var n := |records| - 1;
    if k < n {
      ChainedMember(c, records[..n], k);
    }
  }

  /** What every record in the file says, in every state of every run: it is an unreviewed
      local observation that claims no authority, its snapshot is the digest of its source,
      its identity is the digest of everything else in it, and it has no other fields. */
  lemma RecordsClaimNoAuthority(c: Codec, run: seq<State>, i: nat, k: nat)
    requires Lawful(c) && IsRun(c, run) && i < |run| && k < |run[i].records|
    ensures var r := run[i].records[k];
      && r.Object? && r.fields.Keys == FIELDS
      && FieldOf(r, "schemaVersion") == Int(1)
      && FieldOf(r, "purpose") == Text("unreviewed_local_observation") && FieldOf(r, "labelStatus") == Text("unreviewed")
      && FieldOf(r, "trainingAdmitted") == Bool(false) && FieldOf(r, "engineReceipt") == Null
      && FieldOf(r, "source").Object? && SnapshotOf(r) == Text(c.digest(c.canonical(FieldOf(r, "source"))))
      && IdOf(r) == Text(c.digest(c.canonical(Object(r.fields - {"recordId"}))))
      && Hexadecimal(StreamOf(r)) && Hexadecimal(SnapshotOf(r)) && Hexadecimal(IdOf(r))
      && (PreviousOf(r) != Null ==> Hexadecimal(PreviousOf(r)))
  {
    hide Act;
    RunInvariant(c, run, i);
    hide IsRun;
    ChainedMember(c, run[i].records, k);
    hide Chained, Invariant;
    var r := run[i].records[k];
    RecordSays(c, r);
  }

  ghost predicate Hexadecimal(value: Json) {
    value.Text? && |value.s| == 64 && forall i | 0 <= i < |value.s| :: value.s[i] in "0123456789abcdef"
  }

  lemma IdentityIsHexadecimal(value: Json)
    ensures IsIdentity(value) <==> Hexadecimal(value)
  {
    hide HexDigit;
    if value.Text? {
      forall i | 0 <= i < |value.s| ensures HexDigit(value.s[i]) <==> value.s[i] in "0123456789abcdef" {
        HexDigits(value.s[i]);
      }
    }
  }

  lemma RecordSays(c: Codec, r: Json)
    requires ValidRecord(c, r)
    ensures r.Object? && r.fields.Keys == FIELDS
    ensures FieldOf(r, "schemaVersion") == Int(1)
    ensures FieldOf(r, "purpose") == Text("unreviewed_local_observation") && FieldOf(r, "labelStatus") == Text("unreviewed")
    ensures FieldOf(r, "trainingAdmitted") == Bool(false) && FieldOf(r, "engineReceipt") == Null
    ensures FieldOf(r, "source").Object? && SnapshotOf(r) == Text(c.digest(c.canonical(FieldOf(r, "source"))))
    ensures IdOf(r) == Text(c.digest(c.canonical(Object(r.fields - {"recordId"}))))
    ensures Hexadecimal(StreamOf(r)) && Hexadecimal(SnapshotOf(r)) && Hexadecimal(IdOf(r))
    ensures PreviousOf(r) != Null ==> Hexadecimal(PreviousOf(r))
  {
    FieldsOfRecord(r);
    hide IsIdentity, Hexadecimal;
    IdentityIsHexadecimal(StreamOf(r));
    IdentityIsHexadecimal(SnapshotOf(r));
    IdentityIsHexadecimal(IdOf(r));
    IdentityIsHexadecimal(PreviousOf(r));
  }

  lemma FieldsOfRecord(r: Json)
    requires r.Object? && r.fields.Keys == FIELDS
    ensures "schemaVersion" in r.fields && "purpose" in r.fields && "labelStatus" in r.fields
    ensures "trainingAdmitted" in r.fields && "engineReceipt" in r.fields && "source" in r.fields
    ensures "streamSha256" in r.fields && "snapshotSha256" in r.fields && "previousRecordId" in r.fields && "recordId" in r.fields
  {
  }

  /** A writer that has read the whole log goes on to write, and writes the sealed
      candidate, if and only if the log accepts its candidate. */
  lemma WriterDecidesExactly(c: Codec, s: State, w: nat)
    requires Lawful(c) && Invariant(c, s) && PhaseOf(s, w).Scanning? && PhaseOf(s, w).offset >= |s.file|
    ensures Act(c, s, w, DecideAppend).Some?
    ensures var record, next := PhaseOf(s, w).record, PhaseOf(Act(c, s, w, DecideAppend).value, w);
      && s.tail == [] && "streamSha256" in record
      && (if Accepts(c, s.records, record) then next == Writing(Sealed(c, s.records, record), 0) else next == Finished)
  {
    hide Scan, Chained, Encoded, Decide, Accepts, Sealed;
    var phase := PhaseOf(s, w);
    assert Holds(c, s, phase);
    var stream := phase.record["streamSha256"];
    assert s.file[phase.offset..] == [];
    ScanOfNothing(c, stream, phase.previous);
    ScanReachedEnd(c, s, phase.record, phase.previous);
    assert s.file == Encoded(c, s.records);
    DecideIsExact(c, s.records, phase.record);
  }

  // ----- what the environment may do to a writer

  /** A writer past the lock may die at any point; a writing one may get any number of its
      remaining bytes into the file, exactly those, or fail without any. */
  lemma WritersMayFailAnywhere(c: Codec, s: State, w: nat, count: nat)
    requires PhaseOf(s, w) != Idle
    ensures Act(c, s, w, Die) == Some(s.(writers := s.writers[w := Dead]))
    ensures PhaseOf(s, w).Writing? ==>
      var p := PhaseOf(s, w); var encoded := c.canonical(p.sealed);
      && Act(c, s, w, WriteFails) == Some(s.(writers := s.writers[w := Finished]))
      && (0 < count && p.done + count <= |encoded| ==>
          && Act(c, s, w, WriteSome(count)).Some?
          && var t := Act(c, s, w, WriteSome(count)).value;
          && t.file == s.file + encoded[p.done..p.done + count]
          && PhaseOf(t, w) == (if p.done + count == |encoded| then Finished else Writing(p.sealed, p.done + count)))
  {
  }

  // ----- a writer left alone

  /** One writer's events in turn, if all of them can happen. */
  function Alone(c: Codec, s: State, w: nat, events: seq<Event>): Option<State>
    decreases events
  {
    if events == [] then Some(s)
    else
      match Act(c, s, w, events[0])
      case None => None
      case Some(next) => Alone(c, next, w, events[1..])
  }

  lemma AloneFirst(c: Codec, s: State, w: nat, e: Event, rest: seq<Event>)
    requires Act(c, s, w, e).Some?
    ensures Alone(c, s, w, [e] + rest) == Alone(c, Act(c, s, w, e).value, w, rest)
  {
    assert ([e] + rest)[1..] == rest;
  }

  /** The writer is through: the file is as given and the lock is free again. */
  ghost predicate Through(t: State, w: nat, file: seq<byte>) {
    t.file == file && !t.lockExists && PhaseOf(t, w) == Idle
  }

  lemma FinishedReleases(c: Codec, s: State, w: nat) returns (events: seq<Event>)
    requires PhaseOf(s, w) == Finished
    ensures Alone(c, s, w, events).Some? && Through(Alone(c, s, w, events).value, w, s.file)
  {
    events := [ReleaseLock] + [];
    AloneFirst(c, s, w, ReleaseLock, []);
  }

  lemma WritingCompletes(c: Codec, s: State, w: nat) returns (events: seq<Event>)
    requires PhaseOf(s, w).Writing? && PhaseOf(s, w).done == 0 && c.canonical(PhaseOf(s, w).sealed) != []
    ensures Alone(c, s, w, events).Some?
    ensures Through(Alone(c, s, w, events).value, w, s.file + c.canonical(PhaseOf(s, w).sealed))
  {
    var encoded := c.canonical(PhaseOf(s, w).sealed);
    var e := WriteSome(|encoded|);
    assert encoded[0..] == encoded;
    var next := Act(c, s, w, e).value;
    var rest := FinishedReleases(c, next, w);
    events := [e] + rest;
    AloneFirst(c, s, w, e, rest);
  }

  /** What a writer that has reached `offset` makes of the rest of the log. */
  function Completed(c: Codec, file: seq<byte>, record: Candidate, scanned: Option<Option<Json>>): seq<byte> {
    match scanned
    case None => file
    case Some(previous) =>
      match Decide(c, record, previous, |file|)
      case Write(sealed) => file + c.canonical(sealed)
      case _ => file
  }

  lemma {:induction false} ScanningCompletes(c: Codec, s: State, w: nat) returns (events: seq<Event>)
    requires Lawful(c) && PhaseOf(s, w).Scanning? && PhaseOf(s, w).offset <= |s.file|
    requires "streamSha256" in PhaseOf(s, w).record && PhaseOf(s, w).length == |s.file|
    ensures Alone(c, s, w, events).Some?
    ensures var p := PhaseOf(s, w);
      Through(Alone(c, s, w, events).value, w,
              Completed(c, s.file, p.record, Scan(c, s.file[p.offset..], p.record["streamSha256"], p.previous)))
    decreases |s.file| - PhaseOf(s, w).offset
  {
    hide Decide, ScanLine, Alone, Scan, ReadLine;
    var p := PhaseOf(s, w);
    var stream := p.record["streamSha256"];
    var rest: seq<Event>;
    if p.offset < |s.file| {
      ScanStep(c, s.file, p.offset, stream, p.previous);
      var next := Act(c, s, w, ReadOneLine).value;
      if PhaseOf(next, w) == Finished {
        rest := FinishedReleases(c, next, w);
      } else {
        rest := ScanningCompletes(c, next, w);
      }
      events := [ReadOneLine] + rest;
      AloneFirst(c, s, w, ReadOneLine, rest);
    } else {
      assert s.file[p.offset..] == [];
      ScanOfNothing(c, stream, p.previous);
      var next := Act(c, s, w, DecideAppend).value;
      if PhaseOf(next, w).Writing? {
        assert IsLine(c.canonical(PhaseOf(next, w).sealed));
        rest := WritingCompletes(c, next, w);
      } else {
        rest := FinishedReleases(c, next, w);
      }
      events := [DecideAppend] + rest;
      AloneFirst(c, s, w, DecideAppend, rest);
    }
  }

  /** A writer that finds the lock free and is left alone does exactly what an append
      does, and gives the lock back. */
  lemma UndisturbedWriterAppends(c: Codec, s: State, w: nat, record: Candidate) returns (events: seq<Event>)
    requires Lawful(c) && PhaseOf(s, w) == Idle && !s.lockExists
    ensures Alone(c, s, w, events).Some?
    ensures Through(Alone(c, s, w, events).value, w, Appended(c, s.file, record).0)
  {
    hide Decide, Scan, Alone;
    var locked := Act(c, s, w, TakeLock(record)).value;
    var measured := Act(c, locked, w, MeasureLog).value;
    var rest: seq<Event>;
    if PhaseOf(measured, w) == Finished {
      rest := FinishedReleases(c, measured, w);
    } else {
      assert s.file[0..] == s.file;
      rest := ScanningCompletes(c, measured, w);
    }
    AloneFirst(c, locked, w, MeasureLog, rest);
    AloneFirst(c, s, w, TakeLock(record), [MeasureLog] + rest);
    events := [TakeLock(record)] + ([MeasureLog] + rest);
  }

  /** The same operation without interference: on a chained log an append leaves the
      file alone or extends it by one record of a longer chained log. */
  lemma AppendExtendsChain(c: Codec, records: seq<Json>, record: Candidate)
    requires Lawful(c) && Chained(c, records)
    ensures var (file, written) := Appended(c, Encoded(c, records), record);
      if written then
        exists sealed ::
          Chained(c, records + [sealed]) && file == Encoded(c, records + [sealed]) && Seals(sealed, record, records)
      else file == Encoded(c, records)
  {
    hide Scan, Chained, Decide;
    var file := Encoded(c, records);
    if |file| <= MAX_LOG && "streamSha256" in record {
      var stream := record["streamSha256"];
      ScanOfChained(c, records, [], stream);
      ScanOfNothing(c, stream, LastOf(records, stream));
      assert file + [] == file;
      var decision := Decide(c, record, LastOf(records, stream), |file|);
      if decision.Write? {
        DecideExtends(c, records, record, |file|);
        DecideSeals(c, records, record, |file|);
        EncodedAppend(c, records, decision.record);
      }
    }
  }

  /** A torn log is refused by every append, and kept byte for byte. */
  lemma AppendRefusesTornLog(c: Codec, records: seq<Json>, tail: seq<byte>, record: Candidate)
    requires Lawful(c) && Chained(c, records) && tail != [] && Torn(tail)
    ensures Appended(c, Encoded(c, records) + tail, record) == (Encoded(c, records) + tail, false)
  {
    hide Scan, Chained, Decide, Encoded;
    if "streamSha256" in record {
      ScanOfTorn(c, records, tail, record["streamSha256"]);
    }
  }
}
