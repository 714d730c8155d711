/** Opening the database after a crash: the log bytes that survived, replayed and
    decoded, rebuild the memtable of a whole number of commits. This is what makes
    the crash step of the transaction state machine a fact about bytes. */
module Recovery {
  import opened Bytes
  import opened Wrappers
  import opened Batch
  import opened Versions
  import opened Transactions
  import Wal
  import WalIntegrity

  function Flatten(batches: seq<seq<Mutation>>): seq<Mutation> {
    if batches == [] then [] else batches[0] + Flatten(batches[1..])
  }

  ghost predicate AllValid(batches: seq<seq<Mutation>>) {
    forall i | 0 <= i < |batches| :: ValidBatch(batches[i])
  }

  /** The frame of one batch: one sequence per mutation. */
  function FrameOf(batch: seq<Mutation>, first: nat): (f: Wal.Frame)
    requires ValidBatch(batch)
    ensures f.first == first && f.last + 1 == first + |batch|
    ensures first >= 1 && first + |batch| <= U64_MAX ==> Wal.ValidFrame(f)
  {
    EncodedLengthIsExact(batch);
    Wal.Frame(first, first + |batch| - 1, Encode(batch))
  }

  /** The frames the writer appends for consecutive batches. */
  function Framed(batches: seq<seq<Mutation>>, first: nat): (r: seq<Wal.Frame>)
    requires forall i | 0 <= i < |batches| :: ValidBatch(batches[i])
    ensures |r| == |batches|
  {
    if batches == [] then []
    else [FrameOf(batches[0], first)] + Framed(batches[1..], first + |batches[0]|)
  }

  /** `open_anchored`'s replay callback: decode each frame, check its range and apply it. */
  function ReplayTable(table: Table, maximum: nat, frames: seq<Wal.Frame>): Option<(Table, nat)>
    decreases frames
  {
    if frames == [] then Some((table, maximum))
    else
      var f := frames[0];
      match Decoded(f.payload)
      case None => None
      case Some(operations) =>
        if f.first != maximum + 1 || f.last + 1 != f.first + |operations| then None
        else ReplayTable(ApplyBatch(table, operations, f.first), f.last, frames[1..])
  }

  lemma {:induction false} FramedPrefix(batches: seq<seq<Mutation>>, first: nat, n: nat)
    requires AllValid(batches) && n <= |batches|
    ensures Framed(batches, first)[..n] == Framed(batches[..n], first)
  {
    hide ValidBatch, FrameOf;
    if n > 0 {
      FramedPrefix(batches[1..], first + |batches[0]|, n - 1);
      assert batches[..n][1..] == batches[1..][..n - 1];
    } else {
      assert batches[..n] == [];
    }
  }

  lemma {:induction false} FramedContiguous(batches: seq<seq<Mutation>>, first: nat)
    requires AllValid(batches) && first >= 1
    requires first + |Flatten(batches)| <= U64_MAX
    ensures Wal.Contiguous(Framed(batches, first), first)
  {
    hide ValidBatch, FrameOf;
    if batches != [] {
      var tail := batches[1..];
      FramedContiguous(tail, first + |batches[0]|);
      assert Framed(batches, first)[1..] == Framed(tail, first + |batches[0]|);
    }
  }

  lemma {:induction false} FramedNext(batches: seq<seq<Mutation>>, first: nat)
    requires AllValid(batches)
    ensures Wal.NextSequence(Framed(batches, first), first) == first + |Flatten(batches)|
  {
    hide ValidBatch, Flatten;
    if batches == [] {
      assert Flatten(batches) == [] by { FlattenUnfolds(batches); }
    } else {
      FlattenUnfolds(batches);
      var tail, next := batches[1..], first + |batches[0]|;
      FramedNext(tail, next);
      var frames, rest := Framed(batches, first), Framed(tail, next);
      assert frames == [FrameOf(batches[0], first)] + rest;
      assert rest != [] ==> frames[|frames| - 1] == rest[|rest| - 1];
    }
  }

  lemma FlattenUnfolds(batches: seq<seq<Mutation>>)
    ensures Flatten(batches) == if batches == [] then [] else batches[0] + Flatten(batches[1..])
  {
  }

  lemma ReplayOneFrame(table: Table, maximum: nat, batch: seq<Mutation>, rest: seq<Wal.Frame>)
    requires ValidBatch(batch)
    ensures ReplayTable(table, maximum, [FrameOf(batch, maximum + 1)] + rest)
         == ReplayTable(ApplyBatch(table, batch, maximum + 1), maximum + |batch|, rest)
  {
    hide ApplyBatch, Decoded, Encode, ValidBatch;
    EncodeThenDecode(batch);
    assert ([FrameOf(batch, maximum + 1)] + rest)[1..] == rest;
  }

  /** Decoding and applying the frames of some batches rebuilds exactly the table of
      the history those batches extend. */
  lemma {:induction false} ReplayRebuildsTable(history: History, durable: nat, batches: seq<seq<Mutation>>)
    requires AllValid(batches) && durable <= |history|
    ensures var longer := history + Flatten(batches);
      ReplayTable(TableOf(history, durable, |history|), |history|, Framed(batches, |history| + 1))
      == Some((TableOf(longer, durable, |longer|), |longer|))
    decreases batches
  {
    hide TableOf, ApplyBatch, ReplayTable, FrameOf, ValidBatch;
    if batches == [] {
      ReplayNothing(TableOf(history, durable, |history|), |history|);
      assert history + Flatten(batches) == history;
    } else {
      var head, tail := batches[0], batches[1..];
      var next := history + head;
      ReplayOneFrame(TableOf(history, durable, |history|), |history|, head, Framed(tail, |next| + 1));
      ApplyBatchIsTableOf(history, head, durable);
      ReplayRebuildsTable(next, durable, tail);
      assert next + Flatten(tail) == history + Flatten(batches);
    }
  }

  lemma ReplayNothing(table: Table, maximum: nat)
    ensures ReplayTable(table, maximum, []) == Some((table, maximum))
  {
  }

  /** The sequence at which the first `n` logged batches end. */
  function EndAt(durable: nat, batches: seq<seq<Mutation>>, n: nat): nat
    requires n <= |batches|
  {
    durable + |Flatten(batches[..n])|
  }

  ghost predicate IsEnd(durable: nat, batches: seq<seq<Mutation>>, p: nat) {
    exists n | 0 <= n <= |batches| :: p == EndAt(durable, batches, n)
  }

  /** The log holds `batches`: they are the history since the last flush, and the
      sequences a crash may stop at are exactly their ends. */
  ghost predicate Logged(s: System, batches: seq<seq<Mutation>>) {
    && AllValid(batches)
    && s.store.durable <= |s.history| < U64_MAX
    && s.history == s.history[..s.store.durable] + Flatten(batches)
    && (forall n | 0 <= n <= |batches| :: EndAt(s.store.durable, batches, n) in s.ends)
    && (forall p | p in s.ends && s.store.durable <= p :: IsEnd(s.store.durable, batches, p))
  }

  lemma {:induction false} FlattenPrefix(batches: seq<seq<Mutation>>, n: nat)
    requires n <= |batches|
    ensures Flatten(batches[..n]) <= Flatten(batches)
  {
    if n > 0 {
      FlattenPrefix(batches[1..], n - 1);
      assert batches[..n][1..] == batches[1..][..n - 1];
    } else {
      assert batches[..n] == [];
    }
  }

  lemma {:induction false} FlattenAppend(batches: seq<seq<Mutation>>, last: seq<Mutation>)
    ensures Flatten(batches + [last]) == Flatten(batches) + last
  {
    if batches == [] {
      assert [last][1..] == [] && batches + [last] == [last];
      assert Flatten([last]) == last + Flatten([last][1..]);
    } else {
      FlattenAppend(batches[1..], last);
      assert (batches + [last])[1..] == batches[1..] + [last];
    }
  }

  lemma EndsGrow(durable: nat, batches: seq<seq<Mutation>>, m: nat, n: nat)
    requires m <= n <= |batches|
    ensures EndAt(durable, batches, m) <= EndAt(durable, batches, n)
  {
    FlattenPrefix(batches[..n], m);
    assert batches[..n][..m] == batches[..m];
  }

  // ----- what the log holds in every run

  lemma InitialIsLogged()
    ensures Logged(Initial(), [])
  {
    assert EndAt(0, [], 0) == 0;
  }

  /** A write appends its batch to the log. */
  lemma WriteIsLogged(a: System, e: Event, b: System, batches: seq<seq<Mutation>>)
    requires Logged(a, batches) && (e.Commit? || e.Write?) && Step(a, e, b)
    ensures Logged(b, batches + [e.operations])
  {
    hide ValidBatch, Written, BatchOf, Conflicts, Flatten;
    var durable, after := a.store.durable, batches + [e.operations];
    assert b.store.durable == durable by { WrittenKeepsDurable(a.store, e.operations); }
    FlattenAppend(batches, e.operations);
    assert after[..|after|] == after && batches[..|batches|] == batches;
    assert EndAt(durable, after, |after|) == |b.history|;
    assert b.history[..durable] == a.history[..durable];
    forall n | 0 <= n <= |after| ensures EndAt(durable, after, n) in b.ends {
      if n <= |batches| {
        assert after[..n] == batches[..n] && EndAt(durable, batches, n) in a.ends;
      }
    }
    forall p | p in b.ends && durable <= p ensures IsEnd(durable, after, p) {
      if p in a.ends {
        var n :| 0 <= n <= |batches| && p == EndAt(durable, batches, n);
        assert after[..n] == batches[..n] && EndAt(durable, after, n) == p;
      }
    }
  }

  lemma WrittenKeepsDurable(store: Store, operations: seq<Mutation>)
    ensures Written(store, operations).durable == store.durable
  {
  }

  /** A flush starts an empty log. */
  lemma FlushIsLogged(a: System, e: Event, b: System, batches: seq<seq<Mutation>>)
    requires Invariant(a) && Logged(a, batches) && e.Flush? && Step(a, e, b)
    ensures Logged(b, [])
  {
    var end := |a.history|;
    assert b.store.durable == end by { MaximumIsLength(a); }
    hide Refines, AllVersions;
    assert EndAt(end, [], 0) == end;
    assert b.history == b.history[..end] + Flatten([]);
  }

  /** A crash leaves a prefix of the logged batches. */
  lemma CrashIsLogged(a: System, e: Event, b: System, batches: seq<seq<Mutation>>, n: nat)
    requires Logged(a, batches) && e.Crash? && Step(a, e, b)
    requires n <= |batches| && e.upto == EndAt(a.store.durable, batches, n)
    ensures Logged(b, batches[..n])
  {
    hide ValidBatch, TableOf, Flatten;
    var durable, after := a.store.durable, batches[..n];
    FlattenPrefix(batches, n);
    assert b.history == b.history[..durable] + Flatten(after);
    forall m | 0 <= m <= n ensures EndAt(durable, after, m) in b.ends && EndAt(durable, after, m) == EndAt(durable, batches, m) {
      assert after[..m] == batches[..m];
      EndsGrow(durable, batches, m, n);
    }
    forall p | p in b.ends && durable <= p ensures IsEnd(durable, after, p) {
      var m :| 0 <= m <= |batches| && p == EndAt(durable, batches, m);
      if m > n {
        EndsGrow(durable, batches, n, m);
        assert p == EndAt(durable, after, n);
      } else {
        assert p == EndAt(durable, after, m);
      }
    }
  }

  /** Every step keeps the log in step with the history. */
  lemma StepKeepsLogged(a: System, e: Event, b: System, batches: seq<seq<Mutation>>) returns (after: seq<seq<Mutation>>)
    requires Invariant(a) && Logged(a, batches) && Step(a, e, b)
    ensures Logged(b, after)
    ensures e.Commit? || e.Write? ==> after == batches + [e.operations]
    ensures e.Flush? ==> after == []
    ensures e.Crash? ==> after <= batches && e.upto == EndAt(a.store.durable, batches, |after|)
    ensures e.Begin? || e.Buffer? || e.End? || e.Compact? ==> after == batches
  {
    hide Invariant;
    after := batches;
    match e
    case Begin(id) =>
    case Buffer(id, key, cell) =>
    case Commit(id, operations) =>
      WriteIsLogged(a, e, b, batches);
      after := batches + [operations];
    case Write(operations) =>
      WriteIsLogged(a, e, b, batches);
      after := batches + [operations];
    case End(id) =>
    case Flush(outputs) =>
      FlushIsLogged(a, e, b, batches);
      after := [];
    case Compact(_, _, _, _, _, _, _) =>
    case Crash(upto) =>
      assert IsEnd(a.store.durable, batches, upto);
      var n :| 0 <= n <= |batches| && upto == EndAt(a.store.durable, batches, n);
      CrashIsLogged(a, e, b, batches, n);
      after := batches[..n];
  }

  lemma {:induction false} RunIsLogged(run: seq<System>, i: nat) returns (batches: seq<seq<Mutation>>)
    requires IsRun(run) && i < |run|
    ensures Logged(run[i], batches)
  {
    if i == 0 {
      InitialIsLogged();
      batches := [];
    } else {
      hide Invariant, Step, Logged;
      var before := RunIsLogged(run, i - 1);
      RunInvariant(run, i - 1);
      var e := StepAt(run, i - 1);
      batches := StepKeepsLogged(run[i - 1], e, run[i], before);
    }
  }

  // ----- opening

  datatype Opening = Opened(memtable: Table, maximum: nat) | TornTail(offset: nat) | Corruption

  /** `open_anchored` on the bytes of the active log: a damaged frame or a batch that
      does not fit is corruption, and an incomplete last frame is refused. */
  function Open(crc: Wal.Checksum, file: seq<byte>, durable: nat): Opening {
    match Wal.Replay(crc, file, durable + 1)
    case Corrupt => Corruption
    case Recovered(frames, through, valid, torn) =>
      match ReplayTable(map[], durable, frames)
      case None => Corruption
      case Some((table, maximum)) => if torn then TornTail(valid) else Opened(table, maximum)
  }

  method OpenLog(crc: Wal.Checksum, file: seq<byte>, durable: nat) returns (r: Opening)
    ensures r == Open(crc, file, durable)
  {
    var recovery := Wal.ReplayFile(crc, file, durable + 1);
    if recovery.Corrupt? {
      return Corruption;
    }
    hide Wal.Replay;
    var frames := recovery.frames;
    var table: Table, maximum, i := map[], durable, 0;
    while i < |frames|
      invariant i <= |frames|
      invariant ReplayTable(map[], durable, frames) == ReplayTable(table, maximum, frames[i..])
    {
      var f := frames[i];
      assert frames[i..][0] == f && frames[i..][1..] == frames[i + 1..];
      var decoded := Decoded(f.payload);
      if decoded.None? || f.first != maximum + 1 || f.last + 1 != f.first + |decoded.value| {
        return Corruption;
      }
      table, maximum, i := ApplyBatch(table, decoded.value, f.first), f.last, i + 1;
    }
    ReplayNothing(table, maximum);
    assert frames[i..] == [];
    if recovery.torn {
      return TornTail(recovery.valid);
    }
    r := Opened(table, maximum);
  }

  lemma LoggedFrames(s: System, batches: seq<seq<Mutation>>)
    requires Logged(s, batches)
    ensures AllValid(batches)
    ensures var frames := Framed(batches, s.store.durable + 1);
      Wal.Contiguous(frames, s.store.durable + 1) && Wal.ValidFrames(frames)
  {
    hide ValidBatch, Flatten, FrameOf;
    FramedContiguous(batches, s.store.durable + 1);
    Wal.ContiguousValid(Framed(batches, s.store.durable + 1), s.store.durable + 1);
  }

  /** The frames of the first `n` logged batches. */
  function FramesUpTo(s: System, batches: seq<seq<Mutation>>, n: nat): seq<Wal.Frame>
    requires AllValid(batches) && n <= |batches|
  {
    Framed(batches[..n], s.store.durable + 1)
  }

  /** The bytes of the log when the first `n` batches have been written. */
  ghost function LogUpTo(crc: Wal.Checksum, s: System, batches: seq<seq<Mutation>>, n: nat): seq<byte>
    requires Logged(s, batches) && n <= |batches|
  {
    LoggedFrames(s, batches);
    FramedPrefix(batches, s.store.durable + 1, n);
    Wal.Log(crc, FramesUpTo(s, batches, n))
  }

  ghost function LogBytes(crc: Wal.Checksum, s: System, batches: seq<seq<Mutation>>): seq<byte>
    requires Logged(s, batches)
  {
    LogUpTo(crc, s, batches, |batches|)
  }

  /** The memtable of the history up to `upto`. */
  function MemtableAt(s: System, upto: nat): Table
    requires upto <= |s.history|
  {
    TableOf(s.history[..upto], s.store.durable, upto)
  }

  function Reopened(s: System, upto: nat): System
    requires upto <= |s.history|
  {
    System(s.store.(memtable := MemtableAt(s, upto), maximum := upto), map[], s.history[..upto],
           set p | p in s.kept && p <= upto, set p | p in s.ends && p <= upto)
  }

  /** Replaying whole batches rebuilds the memtable of a crash step. */
  lemma ReplayIsCrashStep(s: System, batches: seq<seq<Mutation>>, n: nat)
    requires Logged(s, batches) && n <= |batches|
    ensures var upto := EndAt(s.store.durable, batches, n);
      && upto <= |s.history|
      && ReplayTable(map[], s.store.durable, FramesUpTo(s, batches, n)) == Some((MemtableAt(s, upto), upto))
      && Step(s, Crash(upto), Reopened(s, upto))
  {
    hide ReplayTable, Framed, ValidBatch;
    var durable := s.store.durable;
    var base, some := s.history[..durable], batches[..n];
    assert TableOf(base, durable, durable) == map[];
    ReplayRebuildsTable(base, durable, some);
    FlattenPrefix(batches, n);
    assert base + Flatten(some) == s.history[..durable + |Flatten(some)|];
  }

  /** A log that ends with a whole frame opens as a crash step. */
  lemma OpenOfWhole(crc: Wal.Checksum, s: System, batches: seq<seq<Mutation>>, n: nat)
    requires Logged(s, batches) && n <= |batches|
    ensures var upto := EndAt(s.store.durable, batches, n);
      && upto <= |s.history|
      && Open(crc, LogUpTo(crc, s, batches, n), s.store.durable) == Opened(MemtableAt(s, upto), upto)
      && Step(s, Crash(upto), Reopened(s, upto))
  {
    hide *;
    hide Open, EndAt, FramesUpTo, LogUpTo;
    LogPrefix(crc, s, batches, n);
    ReplayIsCrashStep(s, batches, n);
    OpenOfFrames(crc, FramesUpTo(s, batches, n), s.store.durable);
  }

  lemma OpenOfFrames(crc: Wal.Checksum, frames: seq<Wal.Frame>, durable: nat)
    requires Wal.Contiguous(frames, durable + 1) && Wal.ValidFrames(frames)
    requires ReplayTable(map[], durable, frames).Some?
    ensures var rebuilt := ReplayTable(map[], durable, frames).value;
      Open(crc, Wal.Log(crc, frames), durable) == Opened(rebuilt.0, rebuilt.1)
  {
    hide ReplayTable, Wal.Contiguous, Wal.EncodeFrames, Wal.WholeFrames, Wal.Replay;
    var file := Wal.Log(crc, frames);
    Wal.ReplayOfCutFile(crc, frames, durable + 1, |file|);
    assert file[..|file|] == file && frames[..|frames|] == frames;
    Wal.WholeFramesCovers(crc, frames, |frames|, |file| - Wal.FILE_HEADER_BYTES);
  }

  /** The log of the first batches is a prefix of the log. */
  lemma LogPrefix(crc: Wal.Checksum, s: System, batches: seq<seq<Mutation>>, n: nat)
    requires Logged(s, batches) && n <= |batches|
    ensures AllValid(batches)
    ensures var frames := FramesUpTo(s, batches, n);
      && Wal.Contiguous(frames, s.store.durable + 1) && Wal.ValidFrames(frames)
      && LogUpTo(crc, s, batches, n) == Wal.Log(crc, frames)
      && LogUpTo(crc, s, batches, n) <= LogBytes(crc, s, batches)
  {
    hide ValidBatch, Flatten, Wal.EncodeFrames, Wal.Contiguous;
    var all, start := Framed(batches, s.store.durable + 1), s.store.durable + 1;
    LoggedFrames(s, batches);
    FramedPrefix(batches, start, n);
    assert batches[..|batches|] == batches && FramesUpTo(s, batches, |batches|) == all;
    FlattenPrefix(batches, n);
    FramedContiguous(batches[..n], start);
    Wal.ContiguousValid(FramesUpTo(s, batches, n), start);
    Wal.WholePrefixBytes(crc, all, n);
  }

  /** Opening what is left of the log when only its first `cut` bytes survive, `n`
      being the number of batches that survive whole. The open succeeds if and only
      if the cut is the end of a frame; inside a frame it is refused with the offset
      at which that frame begins, and truncating the file there makes it succeed.
      Either way the state reached is the crash step that keeps those `n` batches. */
  ghost predicate OpensTo(crc: Wal.Checksum, s: System, batches: seq<seq<Mutation>>, cut: nat, n: nat)
    requires Logged(s, batches) && cut <= |LogBytes(crc, s, batches)| && n <= |batches|
  {
    var durable, file, kept := s.store.durable, LogBytes(crc, s, batches)[..cut], LogUpTo(crc, s, batches, n);
    var upto := EndAt(durable, batches, n);
    && upto <= |s.history| && |kept| <= cut && file[..|kept|] == kept
    && (forall m | 0 <= m <= |batches| && |LogUpTo(crc, s, batches, m)| <= cut :: m <= n)
    && Open(crc, file, durable) == (if |kept| == cut then Opened(MemtableAt(s, upto), upto) else TornTail(|kept|))
    && Open(crc, file[..|kept|], durable) == Opened(MemtableAt(s, upto), upto)
    && Step(s, Crash(upto), Reopened(s, upto))
  }

  /** The batches that survive whole, and what replay reports of them. */
  lemma ReplayOfSurvivors(crc: Wal.Checksum, s: System, batches: seq<seq<Mutation>>, cut: nat) returns (n: nat)
    requires Logged(s, batches) && Wal.FILE_HEADER_BYTES <= cut <= |LogBytes(crc, s, batches)|
    ensures n <= |batches| && AllValid(batches) && |LogUpTo(crc, s, batches, n)| <= cut
    ensures forall m | 0 <= m <= |batches| && |LogUpTo(crc, s, batches, m)| <= cut :: m <= n
    ensures var r := Wal.Replay(crc, LogBytes(crc, s, batches)[..cut], s.store.durable + 1);
      && r.Recovered? && r.frames == FramesUpTo(s, batches, n)
      && r.valid == |LogUpTo(crc, s, batches, n)| && r.torn == (|LogUpTo(crc, s, batches, n)| < cut)
  {
    hide Wal.EncodeFrames, Wal.Replay, Wal.WholeFrames, Wal.Contiguous, Logged, Flatten, Framed, LogUpTo, ValidBatch;
    LogPrefix(crc, s, batches, |batches|);
    var all, start := Framed(batches, s.store.durable + 1), s.store.durable + 1;
    assert batches[..|batches|] == batches;
    Wal.ReplayOfCutFile(crc, all, start, cut);
    n := Wal.WholeFrames(crc, all, cut - Wal.FILE_HEADER_BYTES);
    FramedPrefix(batches, start, n);
    LogPrefix(crc, s, batches, n);
    forall m | 0 <= m <= |batches| && |LogUpTo(crc, s, batches, m)| <= cut ensures m <= n {
      FramedPrefix(batches, start, m);
      LogPrefix(crc, s, batches, m);
      Wal.WholeFramesCovers(crc, all, m, cut - Wal.FILE_HEADER_BYTES);
    }
  }

  lemma ReopenIsCrashStep(crc: Wal.Checksum, s: System, batches: seq<seq<Mutation>>, cut: nat) returns (n: nat)
    requires Logged(s, batches) && Wal.FILE_HEADER_BYTES <= cut <= |LogBytes(crc, s, batches)|
    ensures n <= |batches| && OpensTo(crc, s, batches, cut, n)
  {
    hide Logged, EndAt, LogUpTo, LogBytes, FramesUpTo, Wal.Replay, Wal.Contiguous, ReplayTable, MemtableAt, Step, Reopened;
    n := ReplayOfSurvivors(crc, s, batches, cut);
    ReplayIsCrashStep(s, batches, n);
    OpenOfWhole(crc, s, batches, n);
    LogPrefix(crc, s, batches, n);
    var file, kept := LogBytes(crc, s, batches)[..cut], LogUpTo(crc, s, batches, n);
    assert file[..|kept|] == kept;
    if |kept| == cut {
      assert file == kept;
    }
  }

  lemma LogsGrow(crc: Wal.Checksum, s: System, batches: seq<seq<Mutation>>, m: nat, n: nat)
    requires Logged(s, batches) && m <= n <= |batches|
    ensures Wal.FILE_HEADER_BYTES <= |LogUpTo(crc, s, batches, m)| <= |LogUpTo(crc, s, batches, n)|
  {
    hide Flatten, Wal.EncodeFrames, Wal.Contiguous, ValidBatch;
    LogPrefix(crc, s, batches, n);
    FramedPrefix(batches, s.store.durable + 1, n);
    FramedPrefix(batches, s.store.durable + 1, m);
    Wal.WholePrefixBytes(crc, FramesUpTo(s, batches, n), m);
    assert FramesUpTo(s, batches, n)[..m] == FramesUpTo(s, batches, m);
  }

  /** Which cuts open at all: those at the end of a frame. Only a cut inside the file
      header is corruption. */
  lemma OpensAtFrameEnds(crc: Wal.Checksum, s: System, batches: seq<seq<Mutation>>, cut: nat)
    requires Logged(s, batches) && cut <= |LogBytes(crc, s, batches)|
    ensures Open(crc, LogBytes(crc, s, batches)[..cut], s.store.durable).Opened?
      <==> exists m | 0 <= m <= |batches| :: cut == |LogUpTo(crc, s, batches, m)|
    ensures Open(crc, LogBytes(crc, s, batches)[..cut], s.store.durable).Corruption? <==> cut < Wal.FILE_HEADER_BYTES
  {
    hide Logged, EndAt, LogUpTo, LogBytes, ReplayTable, Step, Reopened, MemtableAt, Wal.Log;
    var file := LogBytes(crc, s, batches)[..cut];
    if cut >= Wal.FILE_HEADER_BYTES {
      hide Open;
      var n := ReopenIsCrashStep(crc, s, batches, cut);
      if m: nat :| m <= |batches| && cut == |LogUpTo(crc, s, batches, m)| {
        LogsGrow(crc, s, batches, m, n);
      }
    } else {
      assert Open(crc, file, s.store.durable) == Corruption;
      forall m | 0 <= m <= |batches| ensures cut != |LogUpTo(crc, s, batches, m)| {
        LogsGrow(crc, s, batches, m, m);
      }
    }
  }

  ghost predicate Reopens(crc: Wal.Checksum, s: System, batches: seq<seq<Mutation>>, cut: nat)
    requires Logged(s, batches) && cut <= |LogBytes(crc, s, batches)|
  {
    exists n | 0 <= n <= |batches| :: OpensTo(crc, s, batches, cut, n)
  }

  /** `b` is what opening the log of some first batches of `s` gives. */
  ghost predicate ReachedByOpening(crc: Wal.Checksum, s: System, batches: seq<seq<Mutation>>, b: System)
    requires Logged(s, batches)
  {
    exists n | 0 <= n <= |batches| ::
      var upto := EndAt(s.store.durable, batches, n);
      && upto <= |s.history| && b == Reopened(s, upto)
      && Open(crc, LogUpTo(crc, s, batches, n), s.store.durable) == Opened(b.store.memtable, upto)
  }

  lemma CrashIsReached(crc: Wal.Checksum, s: System, batches: seq<seq<Mutation>>, upto: nat, b: System)
    requires Logged(s, batches) && Step(s, Crash(upto), b)
    ensures ReachedByOpening(crc, s, batches, b)
  {
    hide Open, LogUpTo, EndAt, TableOf;
    assert IsEnd(s.store.durable, batches, upto);
    var n :| 0 <= n <= |batches| && upto == EndAt(s.store.durable, batches, n);
    OpenOfWhole(crc, s, batches, n);
  }

  /** Every state of every run reopens from whatever prefix its log leaves behind, as
      one of its crash steps, and every crash step is reached that way. */
  lemma EveryStateReopens(crc: Wal.Checksum, run: seq<System>, i: nat) returns (batches: seq<seq<Mutation>>)
    requires IsRun(run) && i < |run|
    ensures Logged(run[i], batches)
    ensures forall cut | Wal.FILE_HEADER_BYTES <= cut <= |LogBytes(crc, run[i], batches)| :: Reopens(crc, run[i], batches, cut)
    ensures forall upto, b | Step(run[i], Crash(upto), b) :: ReachedByOpening(crc, run[i], batches, b)
  {
    hide Logged, LogBytes, Step, OpensTo, ReachedByOpening, IsRun;
    var s := run[i];
    batches := RunIsLogged(run, i);
    forall cut | Wal.FILE_HEADER_BYTES <= cut <= |LogBytes(crc, s, batches)| ensures Reopens(crc, s, batches, cut) {
      var n := ReopenIsCrashStep(crc, s, batches, cut);
    }
    forall upto, b | Step(s, Crash(upto), b) ensures ReachedByOpening(crc, s, batches, b) {
      CrashIsReached(crc, s, batches, upto, b);
    }
  }

  // ----- what opens, for every byte string

  /** The file is the log of `batches`, followed by at most the beginning of one more. */
  ghost predicate IsLogOf(crc: Wal.Checksum, file: seq<byte>, durable: nat, batches: seq<seq<Mutation>>) {
    && AllValid(batches) && durable + |Flatten(batches)| < U64_MAX
    && WalIntegrity.Holds(crc, file, durable + 1, Framed(batches, durable + 1))
  }

  /** Frames that decode and fit are the frames of some valid batches. */
  lemma {:induction false} FramesAreBatches(table: Table, maximum: nat, frames: seq<Wal.Frame>) returns (batches: seq<seq<Mutation>>)
    requires ReplayTable(table, maximum, frames).Some?
    ensures AllValid(batches) && frames == Framed(batches, maximum + 1)
    decreases frames
  {
    hide Decoded, Encode, ValidBatch, ApplyBatch;
    if frames == [] {
      batches := [];
    } else {
      var f, tail := frames[0], frames[1..];
      var operations := Decoded(f.payload).value;
      DecodeThenEncode(f.payload);
      var rest := FramesAreBatches(ApplyBatch(table, operations, f.first), f.last, tail);
      batches := [operations] + rest;
      assert batches[1..] == rest;
      assert f == FrameOf(operations, maximum + 1);
      assert frames == [f] + tail;
    }
  }

  lemma LastIsBelow(frames: seq<Wal.Frame>, start: nat)
    requires Wal.ValidFrames(frames) && start < U64_MAX + 1
    ensures Wal.NextSequence(frames, start) <= U64_MAX
  {
  }

  /** The open reads exactly the logs: it recovers whole batches or refuses a torn tail
      at its offset if and only if the file is such a log, and calls every other file
      corruption. */
  lemma OpenIsExact(crc: Wal.Checksum, file: seq<byte>, durable: nat)
    requires durable < U64_MAX
    ensures !Open(crc, file, durable).Corruption? <==> exists batches :: IsLogOf(crc, file, durable, batches)
  {
    if !Open(crc, file, durable).Corruption? {
      var batches := OpensOnlyLogs(crc, file, durable);
    }
    hide Open, IsLogOf;
    if batches :| IsLogOf(crc, file, durable, batches) {
      var base: History := seq(durable, i => Delete([0]));
      LogOpens(crc, file, base, batches);
    }
  }

  lemma OpensOnlyLogs(crc: Wal.Checksum, file: seq<byte>, durable: nat) returns (batches: seq<seq<Mutation>>)
    requires durable < U64_MAX && !Open(crc, file, durable).Corruption?
    ensures IsLogOf(crc, file, durable, batches)
  {
    hide Wal.Replay, ReplayTable, Framed, Flatten, ValidBatch, WalIntegrity.Holds, Wal.NextSequence;
    var frames := Wal.Replay(crc, file, durable + 1).frames;
    batches := FramesAreBatches(map[], durable, frames);
    WalIntegrity.ReplayIsExact(crc, file, durable + 1, frames);
    HeldIsShort(crc, file, durable, frames);
    FramedNext(batches, durable + 1);
  }

  lemma HeldIsShort(crc: Wal.Checksum, file: seq<byte>, durable: nat, frames: seq<Wal.Frame>)
    requires durable < U64_MAX && WalIntegrity.Holds(crc, file, durable + 1, frames)
    ensures Wal.NextSequence(frames, durable + 1) <= U64_MAX
  {
    LastIsBelow(frames, durable + 1);
  }

  /** What the open of a log gives: the memtable of the history those batches extend,
      or the offset of the incomplete frame. */
  lemma LogOpens(crc: Wal.Checksum, file: seq<byte>, base: History, batches: seq<seq<Mutation>>)
    requires IsLogOf(crc, file, |base|, batches)
    ensures Wal.ValidFrames(Framed(batches, |base| + 1))
    ensures var longer, size := base + Flatten(batches), |Wal.Log(crc, Framed(batches, |base| + 1))|;
      Open(crc, file, |base|)
      == if size < |file| then TornTail(size) else Opened(TableOf(longer, |base|, |longer|), |longer|)
  {
    var durable := |base|;
    HeldIsValid(crc, file, durable + 1, Framed(batches, durable + 1));
    hide Wal.Replay, ReplayTable, Framed, Flatten, ValidBatch, WalIntegrity.Holds, Wal.NextSequence, Wal.Log;
    WalIntegrity.ReplayIsExact(crc, file, durable + 1, Framed(batches, durable + 1));
    assert TableOf(base, durable, durable) == map[];
    hide TableOf;
    ReplayRebuildsTable(base, durable, batches);
  }

  lemma HeldIsValid(crc: Wal.Checksum, file: seq<byte>, start: nat, frames: seq<Wal.Frame>)
    requires WalIntegrity.Holds(crc, file, start, frames)
    ensures Wal.ValidFrames(frames)
  {
  }
}
