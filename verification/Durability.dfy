/** The database together with its log file, over every interleaving of transactions,
    failing writes, failing syncs, flushes, compactions, crashes and repairs. What was
    acknowledged as authoritative is never lost. */
module Durability {
  import opened Bytes
  import opened Wrappers
  import opened Batch
  import opened Versions
  import opened Transactions
  import opened Recovery
  import Wal

  /** The system, the log it writes, the batches that log holds, and the batch a
      poisoned writer failed on, which a crash may or may not leave behind. */
  datatype Machine = Machine(system: System, log: Wal.LogState, batches: seq<seq<Mutation>>, attempted: seq<seq<Mutation>>)

  datatype Action =
    | Quiet(event: Event)
    | Append(event: Event, authoritative: bool, io: Wal.IoAnswer)
    | Sync(ok: bool)
    | Rotate(event: Event)
    | Reopen(cut: nat)

  function Start(crc: Wal.Checksum): Machine {
    Machine(Initial(), Wal.NewLog(crc), [], [])
  }

  function FirstSequence(m: Machine): nat {
    m.system.store.durable + 1
  }

  /** The log append of one batch, and whether it is acknowledged. */
  function Logging(crc: Wal.Checksum, m: Machine, operations: seq<Mutation>, authoritative: bool, io: Wal.IoAnswer): (Wal.LogState, bool)
    requires ValidBatch(operations)
  {
    Wal.AppendTo(crc, FirstSequence(m), m.log, FrameOf(operations, |m.system.history| + 1), authoritative, io)
  }

  predicate Acknowledged(crc: Wal.Checksum, m: Machine, action: Action) {
    && action.Append? && (action.event.Commit? || action.event.Write?) && ValidBatch(action.event.operations)
    && Logging(crc, m, action.event.operations, action.authoritative, action.io).1
  }

  /** The system if the attempted batch turns out to have reached the file. */
  function Possible(m: Machine): System {
    if m.attempted == [] then m.system
    else
      var s, operations := m.system, m.attempted[0];
      System(Written(s.store, operations), s.active, s.history + operations, s.kept, s.ends + {|s.history + operations|})
  }

  /** What opening makes of the surviving bytes: an incomplete last frame is cut off first. */
  function Repaired(crc: Wal.Checksum, file: seq<byte>, durable: nat): seq<byte> {
    var opening := Open(crc, file, durable);
    if opening.TornTail? && opening.offset <= |file| then file[..opening.offset] else file
  }

  ghost predicate Act(crc: Wal.Checksum, a: Machine, action: Action, b: Machine) {
    match action
    case Quiet(e) =>
      && (e.Begin? || e.Buffer? || e.End? || e.Compact?)
      && Step(a.system, e, b.system) && b == a.(system := b.system)
    case Append(e, authoritative, io) =>
      && (e.Commit? || e.Write?) && Loggable(e.operations, |a.system.history|)
      && (exists next :: Step(a.system, e, next))
      && var (log, acknowledged) := Logging(crc, a, e.operations, authoritative, io);
      if acknowledged then
        && Step(a.system, e, b.system)
        && b == Machine(b.system, log, a.batches + [e.operations], a.attempted)
      else
        b == Machine(if e.Commit? then a.system.(active := a.system.active - {e.id}) else a.system, log, a.batches,
                     if a.log.poisoned then a.attempted else [e.operations])
    case Sync(ok) => b == a.(log := Wal.SyncTo(a.log, ok))
    case Rotate(e) =>
      && e.Flush? && !a.log.poisoned
      && Step(a.system, e, b.system) && b == Machine(b.system, Wal.NewLog(crc), [], [])
    case Reopen(cut) =>
      && a.log.synced <= cut <= |a.log.file|
      && var survivors := a.log.file[..cut];
      var file := Repaired(crc, survivors, a.system.store.durable);
      var replay, opening := Wal.Replay(crc, file, FirstSequence(a)), Open(crc, file, a.system.store.durable);
      && replay.Recovered? && opening.Opened?
      && opening.maximum <= |Possible(a).history| && |replay.frames| <= |a.batches + a.attempted|
      && b == Machine(
           Rebuilt(Possible(a), a.system.store.(memtable := opening.memtable, maximum := opening.maximum)),
           Wal.LogState(file, if file == survivors then a.log.synced else |file|, replay.frames, None, false),
           (a.batches + a.attempted)[..|replay.frames|], [])
  }

  /** The store that opening built, beside the reference state cut to what it holds. */
  function Rebuilt(s: System, store: Store): System
    requires store.maximum <= |s.history|
  {
    System(store, map[], s.history[..store.maximum],
           set p | p in s.kept && p <= store.maximum, set p | p in s.ends && p <= store.maximum)
  }

  ghost predicate IsMachineRun(crc: Wal.Checksum, run: seq<Machine>, actions: seq<Action>) {
    && |run| == |actions| + 1 && run[0] == Start(crc)
    && forall i | 0 <= i < |actions| :: Act(crc, run[i], actions[i], run[i + 1])
  }

  // ----- the invariant

  /** The frame, if any, that the log failed on is that of the attempted batch. */
  ghost predicate AttemptMatches(m: Machine) {
    if m.attempted == [] then m.log.failed.None?
    else
      && |m.attempted| == 1 && Loggable(m.attempted[0], |m.system.history|)
      && m.log.failed == Some(FrameOf(m.attempted[0], |m.system.history| + 1))
  }

  ghost predicate Sound(crc: Wal.Checksum, m: Machine) {
    && Invariant(m.system) && Logged(m.system, m.batches)
    && Wal.LogValid(crc, FirstSequence(m), m.log)
    && AllValid(m.batches) && m.log.frames == Framed(m.batches, FirstSequence(m))
    && AttemptMatches(m)
  }

  lemma StartIsSound(crc: Wal.Checksum)
    ensures Sound(crc, Start(crc))
  {
    InitialInvariant();
    InitialIsLogged();
    Wal.NewLogIsValid(crc, 1);
  }

  lemma {:induction false} FramedAppend(batches: seq<seq<Mutation>>, last: seq<Mutation>, first: nat)
    requires AllValid(batches) && ValidBatch(last)
    ensures AllValid(batches + [last])
    ensures Framed(batches + [last], first) == Framed(batches, first) + [FrameOf(last, first + |Flatten(batches)|)]
  {
    hide ValidBatch, FrameOf;
    if batches == [] {
      assert [last][1..] == [] && batches + [last] == [last];
      assert Framed([last], first) == [FrameOf(last, first)] + Framed([last][1..], first + |last|);
    } else {
      FramedAppend(batches[1..], last, first + |batches[0]|);
      assert (batches + [last])[1..] == batches[1..] + [last];
    }
  }

  /** The writer admits exactly the frame of the next batch. */
  lemma NextFrameIsAdmitted(crc: Wal.Checksum, m: Machine, operations: seq<Mutation>)
    requires Sound(crc, m) && Loggable(operations, |m.system.history|)
    ensures var f := FrameOf(operations, |m.system.history| + 1);
      && Wal.ValidFrame(f) && f.first == Wal.NextSequence(m.log.frames, FirstSequence(m))
      && Framed(m.batches + [operations], FirstSequence(m)) == m.log.frames + [f]
  {
    hide Invariant, Wal.LogValid, ValidBatch, Framed, FrameOf, Wal.ValidFrame, Wal.NextSequence;
    var s := m.system;
    assert |s.history| == s.store.durable + |Flatten(m.batches)|;
    FramedNext(m.batches, FirstSequence(m));
    FramedAppend(m.batches, operations, FirstSequence(m));
  }

  lemma QuietKeepsSound(crc: Wal.Checksum, a: Machine, action: Action, b: Machine)
    requires Sound(crc, a) && action.Quiet? && Act(crc, a, action, b)
    ensures Sound(crc, b)
    ensures a.system.history == b.system.history && a.system.store.durable == b.system.store.durable
  {
    hide Step, Invariant, Logged, Framed, FrameOf, Loggable, Logging, Repaired, Rebuilt, Wal.LogValid;
    StepKeepsInvariant(a.system, action.event, b.system);
    QuietStep(a.system, action.event, b.system);
    var after := StepKeepsLogged(a.system, action.event, b.system, a.batches);
  }

  lemma QuietStep(a: System, e: Event, b: System)
    requires Step(a, e, b) && (e.Begin? || e.Buffer? || e.End? || e.Compact?)
    ensures a.history == b.history && a.store.durable == b.store.durable
  {
  }

  lemma WriteStep(a: System, e: Event, b: System)
    requires Step(a, e, b) && (e.Commit? || e.Write?)
    ensures b.history == a.history + e.operations && a.store.durable == b.store.durable
  {
  }

  lemma SyncedInside(crc: Wal.Checksum, m: Machine)
    requires Sound(crc, m)
    ensures m.log.synced <= |m.log.file| && (m.log.failed.Some? ==> m.log.poisoned)
  {
  }

  lemma LoggingKeepsValid(crc: Wal.Checksum, m: Machine, operations: seq<Mutation>, authoritative: bool, io: Wal.IoAnswer)
    requires Sound(crc, m) && Loggable(operations, |m.system.history|)
    ensures var (log, acknowledged) := Logging(crc, m, operations, authoritative, io);
      && Wal.LogValid(crc, FirstSequence(m), log)
      && m.log.synced <= log.synced
      && (acknowledged ==>
          && log.frames == Framed(m.batches + [operations], FirstSequence(m))
          && log.failed == m.log.failed && (authoritative ==> log.synced == |log.file|))
      && (!acknowledged ==>
          && log.frames == m.log.frames && log.synced == m.log.synced
          && (if m.log.poisoned then log == m.log else log.failed == Some(FrameOf(operations, |m.system.history| + 1))))
  {
    NextFrameIsAdmitted(crc, m, operations);
    SyncedInside(crc, m);
    Wal.AppendKeepsValid(crc, FirstSequence(m), m.log, FrameOf(operations, |m.system.history| + 1), authoritative, io);
    hide Sound, Framed, FrameOf, Loggable, Wal.LogValid, Wal.ValidFrame, Wal.NextSequence, Wal.EncodeFrame;
  }

  /** The machine after an acknowledged append. */
  lemma AcknowledgedGives(crc: Wal.Checksum, a: Machine, action: Action, b: Machine)
    requires action.Append? && Act(crc, a, action, b)
    requires Logging(crc, a, action.event.operations, action.authoritative, action.io).1
    ensures var e := action.event;
      && (e.Commit? || e.Write?) && Loggable(e.operations, |a.system.history|) && Step(a.system, e, b.system)
      && b.log == Logging(crc, a, e.operations, action.authoritative, action.io).0
      && b.batches == a.batches + [e.operations] && b.attempted == a.attempted
  {
    hide Step, Loggable, Logging, Repaired, Rebuilt;
  }

  lemma AcknowledgedKeepsSound(crc: Wal.Checksum, a: Machine, action: Action, b: Machine)
    requires Sound(crc, a) && action.Append? && Act(crc, a, action, b)
    requires Logging(crc, a, action.event.operations, action.authoritative, action.io).1
    ensures Sound(crc, b)
    ensures a.log.synced <= b.log.synced && (action.authoritative ==> b.log.synced == |b.log.file|)
  {
    hide Act, Step, Invariant, Logged, Framed, FrameOf, Wal.LogValid, Logging, ValidBatch;
    AcknowledgedGives(crc, a, action, b);
    var e := action.event;
    LoggingKeepsValid(crc, a, e.operations, action.authoritative, action.io);
    UnpoisonedHasNoAttempt(crc, a, e.operations, action.authoritative, action.io);
    StepKeepsInvariant(a.system, e, b.system);
    WriteStep(a.system, e, b.system);
    var after := StepKeepsLogged(a.system, e, b.system, a.batches);
    LoggedFrames(b.system, b.batches);
  }

  lemma UnpoisonedHasNoAttempt(crc: Wal.Checksum, m: Machine, operations: seq<Mutation>, authoritative: bool, io: Wal.IoAnswer)
    requires Sound(crc, m) && ValidBatch(operations) && Logging(crc, m, operations, authoritative, io).1
    ensures m.attempted == []
  {
    SyncedInside(crc, m);
  }

  /** The machine after a failed append. */
  lemma FailedGives(crc: Wal.Checksum, a: Machine, action: Action, b: Machine)
    requires action.Append? && Act(crc, a, action, b)
    requires !Logging(crc, a, action.event.operations, action.authoritative, action.io).1
    ensures var e := action.event;
      && (e.Commit? || e.Write?) && Loggable(e.operations, |a.system.history|) && (e.Commit? ==> e.id in a.system.active)
      && b.system == (if e.Commit? then a.system.(active := a.system.active - {e.id}) else a.system)
      && b.log == Logging(crc, a, e.operations, action.authoritative, action.io).0
      && b.batches == a.batches && b.attempted == (if a.log.poisoned then a.attempted else [e.operations])
  {
    hide Step, Loggable, Logging, Repaired, Rebuilt;
    var next :| Step(a.system, action.event, next);
    if action.event.Commit? {
      CommitterIsActive(a.system, action.event, next);
    }
  }

  /** A failed append poisons the log and leaves the store alone. */
  lemma FailedKeepsSound(crc: Wal.Checksum, a: Machine, action: Action, b: Machine)
    requires Sound(crc, a) && action.Append? && Act(crc, a, action, b)
    requires !Logging(crc, a, action.event.operations, action.authoritative, action.io).1
    ensures Sound(crc, b) && b.batches == a.batches && b.log.synced == a.log.synced
    ensures b.system.history == a.system.history && b.system.store == a.system.store
    ensures b.system == a.system || Step(a.system, End(action.event.id), b.system)
  {
    hide Act, Step, Invariant, Logged, Framed, FrameOf, Loggable, Logging, Wal.LogValid;
    var e := action.event;
    FailedGives(crc, a, action, b);
    LoggingKeepsValid(crc, a, e.operations, action.authoritative, action.io);
    if e.Commit? {
      EndKeepsLogged(a.system, e.id, b.system, a.batches);
    }
  }

  lemma CommitterIsActive(a: System, e: Event, b: System)
    requires e.Commit? && Step(a, e, b)
    ensures e.id in a.active
  {
  }

  lemma EndKeepsLogged(a: System, id: nat, b: System, batches: seq<seq<Mutation>>)
    requires Invariant(a) && Logged(a, batches) && id in a.active && b == a.(active := a.active - {id})
    ensures Step(a, End(id), b) && Invariant(b) && Logged(b, batches)
  {
    assert Step(a, End(id), b);
    hide Invariant, Logged;
    StepKeepsInvariant(a, End(id), b);
    var after := StepKeepsLogged(a, End(id), b, batches);
  }

  lemma RotateKeepsSound(crc: Wal.Checksum, a: Machine, action: Action, b: Machine)
    requires Sound(crc, a) && action.Rotate? && Act(crc, a, action, b)
    ensures Sound(crc, b) && b.system.history == a.system.history && b.system.store.durable == |b.system.history|
  {
    hide Repaired, Rebuilt, Logging, Loggable, Refines, Open, Wal.Replay, Wal.LogValid, FrameOf;
    StepKeepsInvariant(a.system, action.event, b.system);
    FlushIsLogged(a.system, action.event, b.system, a.batches);
    Wal.NewLogIsValid(crc, FirstSequence(b));
    MaximumIsLength(a.system);
  }

  lemma SyncKeepsSound(crc: Wal.Checksum, a: Machine, action: Action, b: Machine)
    requires Sound(crc, a) && action.Sync? && Act(crc, a, action, b)
    ensures Sound(crc, b) && b.log.synced >= a.log.synced && b.batches == a.batches
  {
    hide Invariant, Logged, Framed, FrameOf;
    Wal.SyncKeepsValid(crc, FirstSequence(a), a.log, action.ok);
    SyncedInside(crc, a);
    hide Wal.LogValid;
  }

  // ----- reopening

  /** The possible system has exactly the batches the file may hold. */
  lemma PossibleIsLogged(crc: Wal.Checksum, m: Machine)
    requires Sound(crc, m)
    ensures var s, all := Possible(m), m.batches + m.attempted;
      && Invariant(s) && Logged(s, all) && s.store.durable == m.system.store.durable && m.system.history <= s.history
      && (m.attempted == [] ==> s == m.system)
      && (m.attempted != [] ==> Step(m.system, Write(m.attempted[0]), s))
      && AllValid(all) && Wal.AllWritten(m.log) == Framed(all, FirstSequence(m))
  {
    hide Invariant, Logged, Wal.LogValid, Framed, FrameOf, Wal.ValidFrame, Wal.NextSequence;
    if m.attempted == [] {
      assert m.batches + m.attempted == m.batches;
    } else {
      var s, operations := Possible(m), m.attempted[0];
      assert Step(m.system, Write(operations), s);
      StepKeepsInvariant(m.system, Write(operations), s);
      var after := StepKeepsLogged(m.system, Write(operations), s, m.batches);
      NextFrameIsAdmitted(crc, m, operations);
      LoggedFrames(s, after);
      assert m.attempted == [operations];
    }
  }

  /** The bytes of the file are those of the possible system's log. */
  lemma FileIsLog(crc: Wal.Checksum, m: Machine, cut: nat)
    requires Sound(crc, m) && m.log.synced <= cut <= |m.log.file|
    ensures var s, all := Possible(m), m.batches + m.attempted;
      && Logged(s, all) && Wal.FILE_HEADER_BYTES <= cut <= |LogBytes(crc, s, all)|
      && m.log.file[..cut] == LogBytes(crc, s, all)[..cut]
  {
    PossibleIsLogged(crc, m);
    var s, all := Possible(m), m.batches + m.attempted;
    Wal.SurvivorsOf(crc, FirstSequence(m), m.log, cut);
    hide Invariant, Logged, Framed, FrameOf, AttemptMatches, Wal.LogValid, Wal.Log, Wal.Replay, Possible;
    LogPrefix(crc, s, all, |all|);
    assert all[..|all|] == all;
  }

  /** What a repair followed by an open gives: the first `n` of the batches the file
      may hold, with every batch inside the surviving bytes among them. */
  lemma RepairOpens(crc: Wal.Checksum, m: Machine, cut: nat) returns (n: nat)
    requires Sound(crc, m) && m.log.synced <= cut <= |m.log.file|
    ensures var s, all, durable := Possible(m), m.batches + m.attempted, m.system.store.durable;
      && n <= |all| && Logged(s, all) && AllValid(all) && s.store.durable == durable
      && var upto, file := EndAt(durable, all, n), Repaired(crc, m.log.file[..cut], durable);
      && upto <= |s.history| && Step(s, Crash(upto), Reopened(s, upto))
      && file == LogUpTo(crc, s, all, n)
      && Open(crc, file, durable) == Opened(MemtableAt(s, upto), upto)
      && (forall k | 0 <= k <= |all| && |LogUpTo(crc, s, all, k)| <= cut :: k <= n)
      && var replay := Wal.Replay(crc, file, durable + 1);
      && replay.Recovered? && replay.frames == FramesUpTo(s, all, n)
  {
    hide Sound, Step, Logged, EndAt, LogUpTo, LogBytes, FramesUpTo, MemtableAt, Reopened, Open, Wal.Replay, Wal.Contiguous;
    PossibleIsLogged(crc, m);
    FileIsLog(crc, m, cut);
    var s, all := Possible(m), m.batches + m.attempted;
    hide Possible;
    n := ReopenIsCrashStep(crc, s, all, cut);
    LogPrefix(crc, s, all, n);
    ReplayOfFrames(crc, FramesUpTo(s, all, n), s.store.durable + 1);
  }

  lemma ReplayOfFrames(crc: Wal.Checksum, frames: seq<Wal.Frame>, start: nat)
    requires start >= 1 && Wal.Contiguous(frames, start) && Wal.ValidFrames(frames)
    ensures var replay := Wal.Replay(crc, Wal.Log(crc, frames), start);
      replay.Recovered? && replay.frames == frames
  {
    hide Wal.Contiguous, Wal.EncodeFrames, Wal.WholeFrames, Wal.Replay;
    var file := Wal.Log(crc, frames);
    Wal.ReplayOfCutFile(crc, frames, start, |file|);
    assert file[..|file|] == file && frames[..|frames|] == frames;
    Wal.WholeFramesCovers(crc, frames, |frames|, |file| - Wal.FILE_HEADER_BYTES);
  }

  /** Repair and open always succeed on what a crash leaves. */
  lemma ReopenSucceeds(crc: Wal.Checksum, a: Machine, cut: nat) returns (b: Machine)
    requires Sound(crc, a) && a.log.synced <= cut <= |a.log.file|
    ensures Act(crc, a, Reopen(cut), b)
  {
    hide Sound, Step, Logged, EndAt, LogUpTo, LogBytes, MemtableAt, Open, Wal.Replay, Repaired, Possible, Rebuilt, Reopened, Framed;
    var n := RepairOpens(crc, a, cut);
    var survivors, durable := a.log.file[..cut], a.system.store.durable;
    var file := Repaired(crc, survivors, durable);
    var replay, opening := Wal.Replay(crc, file, durable + 1), Open(crc, file, durable);
    b := Machine(Rebuilt(Possible(a), a.system.store.(memtable := opening.memtable, maximum := opening.maximum)),
                 Wal.LogState(file, if file == survivors then a.log.synced else |file|, replay.frames, None, false),
                 (a.batches + a.attempted)[..|replay.frames|], []);
  }

  lemma PossibleStore(m: Machine, table: Table, maximum: nat)
    ensures Possible(m).store.(memtable := table, maximum := maximum) == m.system.store.(memtable := table, maximum := maximum)
  {
  }

  /** The machine after a reopening. */
  lemma ReopenGives(crc: Wal.Checksum, a: Machine, cut: nat, b: Machine) returns (n: nat)
    requires Sound(crc, a) && Act(crc, a, Reopen(cut), b)
    ensures var s, all, durable := Possible(a), a.batches + a.attempted, a.system.store.durable;
      && n <= |all| && Logged(s, all) && AllValid(all) && s.store.durable == durable
      && var upto := EndAt(durable, all, n);
      && upto <= |s.history| && Step(s, Crash(upto), b.system) && b.system == Reopened(s, upto)
      && b.batches == all[..n] && b.attempted == []
      && b.log.file == LogUpTo(crc, s, all, n) && b.log.frames == FramesUpTo(s, all, n)
      && b.log.synced == (if |b.log.file| == cut then a.log.synced else |b.log.file|)
      && !b.log.poisoned && b.log.failed.None? && |b.log.file| <= cut && a.log.synced <= cut
      && b.system.history == s.history[..upto] && b.system.store.durable == durable
      && (forall k | 0 <= k <= |all| && |LogUpTo(crc, s, all, k)| <= cut :: k <= n)
  {
    hide Sound, Step, Logged, EndAt, LogUpTo, LogBytes, Open, MemtableAt, Wal.Replay, Possible, Framed;
    n := RepairOpens(crc, a, cut);
    var s, upto := Possible(a), EndAt(a.system.store.durable, a.batches + a.attempted, n);
    PossibleStore(a, MemtableAt(s, upto), upto);
    RepairedIsPrefix(crc, a.log.file[..cut], a.system.store.durable);
    hide Repaired;
  }

  lemma RepairedIsPrefix(crc: Wal.Checksum, file: seq<byte>, durable: nat)
    ensures var r := Repaired(crc, file, durable);
      |r| <= |file| && (|r| == |file| <==> r == file)
  {
  }

  lemma ReopenKeepsSound(crc: Wal.Checksum, a: Machine, cut: nat, b: Machine)
    requires Sound(crc, a) && Act(crc, a, Reopen(cut), b)
    ensures Sound(crc, b)
  {
    hide Act, Step, Invariant, Logged, Reopened, EndAt, LogUpTo, LogBytes, Framed, Possible, Wal.Log, Wal.LogValid;
    var n := ReopenGives(crc, a, cut, b);
    PossibleIsLogged(crc, a);
    var s, all := Possible(a), a.batches + a.attempted;
    var upto := EndAt(s.store.durable, all, n);
    StepKeepsInvariant(s, Crash(upto), b.system);
    CrashIsLogged(s, Crash(upto), b.system, all, n);
    LogPrefix(crc, s, all, n);
    FramedPrefix(all, FirstSequence(a), n);
    LoggedFrames(s, all);
    assert b.log == Wal.ReopenedLog(crc, a.log, n, cut);
    Wal.ReopenedIsValid(crc, FirstSequence(a), a.log, n, cut);
  }

  lemma ActKeepsSound(crc: Wal.Checksum, a: Machine, action: Action, b: Machine)
    requires Sound(crc, a) && Act(crc, a, action, b)
    ensures Sound(crc, b)
  {
    hide Sound, Step;
    match action
    case Quiet(e) => QuietKeepsSound(crc, a, action, b);
    case Append(e, authoritative, io) =>
      if Logging(crc, a, e.operations, authoritative, io).1 {
        AcknowledgedKeepsSound(crc, a, action, b);
      } else {
        FailedKeepsSound(crc, a, action, b);
      }
    case Sync(ok) => SyncKeepsSound(crc, a, action, b);
    case Rotate(e) => RotateKeepsSound(crc, a, action, b);
    case Reopen(cut) => ReopenKeepsSound(crc, a, cut, b);
  }

  lemma {:induction false} RunIsSound(crc: Wal.Checksum, run: seq<Machine>, actions: seq<Action>, i: nat)
    requires IsMachineRun(crc, run, actions) && i < |run|
    ensures Sound(crc, run[i])
  {
    hide Sound, Act;
    if i == 0 {
      StartIsSound(crc);
    } else {
      RunIsSound(crc, run, actions, i - 1);
      var k := i - 1;
      assert Act(crc, run[k], actions[k], run[k + 1]);
      ActKeepsSound(crc, run[k], actions[k], run[k + 1]);
    }
  }

  // ----- what is secured is never lost

  /** `past` is a prefix of the history, and its batches lie inside the synced bytes
      or in flushed segments. */
  ghost predicate Secured(crc: Wal.Checksum, m: Machine, past: History)
    requires Sound(crc, m)
  {
    && past <= m.system.history
    && exists n | 0 <= n <= |m.batches| :: Covers(crc, m, past, n)
  }

  ghost predicate Covers(crc: Wal.Checksum, m: Machine, past: History, n: nat)
    requires Sound(crc, m) && n <= |m.batches|
  {
    && |past| <= EndAt(m.system.store.durable, m.batches, n)
    && |LogUpTo(crc, m.system, m.batches, n)| <= m.log.synced
  }

  /** The first batches decide where they end and what their log is. */
  lemma SameUpTo(crc: Wal.Checksum, a: System, x: seq<seq<Mutation>>, b: System, y: seq<seq<Mutation>>, n: nat)
    requires Logged(a, x) && Logged(b, y) && a.store.durable == b.store.durable
    requires n <= |x| && n <= |y| && x[..n] == y[..n]
    ensures EndAt(a.store.durable, x, n) == EndAt(b.store.durable, y, n)
    ensures LogUpTo(crc, a, x, n) == LogUpTo(crc, b, y, n)
  {
    hide Logged, Framed, Flatten;
    LogPrefix(crc, a, x, n);
    LogPrefix(crc, b, y, n);
  }

  /** With the whole file synced, the whole history is secured. */
  lemma SyncedIsSecured(crc: Wal.Checksum, m: Machine)
    requires Sound(crc, m) && m.log.failed.None? && m.log.synced == |m.log.file|
    ensures Secured(crc, m, m.system.history)
  {
    hide Invariant, Framed, FrameOf, Wal.Log;
    var n := |m.batches|;
    assert m.batches[..n] == m.batches;
    Wal.CleanLog(crc, FirstSequence(m), m.log);
    LogPrefix(crc, m.system, m.batches, n);
    hide Wal.LogValid;
    assert Covers(crc, m, m.system.history, n);
  }

  /** Growing the log keeps what is secured. */
  lemma GrowthKeepsSecured(crc: Wal.Checksum, a: Machine, b: Machine, past: History)
    requires Sound(crc, a) && Sound(crc, b) && Secured(crc, a, past)
    requires a.system.store.durable == b.system.store.durable && a.system.history <= b.system.history
    requires a.batches <= b.batches && a.log.synced <= b.log.synced
    ensures Secured(crc, b, past)
  {
    hide Sound, EndAt, LogUpTo;
    var n :| 0 <= n <= |a.batches| && Covers(crc, a, past, n);
    SoundIsLogged(crc, a);
    SoundIsLogged(crc, b);
    assert a.batches[..n] == b.batches[..n];
    hide Logged;
    SameUpTo(crc, a.system, a.batches, b.system, b.batches, n);
    assert Covers(crc, b, past, n);
  }

  lemma SoundIsLogged(crc: Wal.Checksum, m: Machine)
    requires Sound(crc, m)
    ensures Logged(m.system, m.batches) && Wal.FILE_HEADER_BYTES <= m.log.synced
    ensures EndAt(m.system.store.durable, m.batches, 0) == m.system.store.durable
  {
    assert Wal.FILE_HEADER_BYTES <= m.log.synced by {
      var k :| 0 <= k <= |m.log.frames| && m.log.synced == |Wal.Log(crc, m.log.frames[..k])|;
    }
  }

  lemma FlushedIsSecured(crc: Wal.Checksum, m: Machine, past: History)
    requires Sound(crc, m) && past <= m.system.history && m.system.store.durable == |m.system.history|
    ensures Secured(crc, m, past)
  {
    hide Invariant, Wal.LogValid, AttemptMatches, Framed;
    SoundIsLogged(crc, m);
    LogPrefix(crc, m.system, m.batches, 0);
    assert FramesUpTo(m.system, m.batches, 0) == [];
    assert Covers(crc, m, past, 0);
  }

  lemma ReopenKeepsSecured(crc: Wal.Checksum, a: Machine, cut: nat, b: Machine, past: History)
    requires Sound(crc, a) && Sound(crc, b) && Secured(crc, a, past) && Act(crc, a, Reopen(cut), b)
    ensures Secured(crc, b, past)
  {
    hide Act, Sound, Step, Framed, EndAt, LogUpTo, Reopened, Logged, AllValid, Possible, FramesUpTo;
    var k :| 0 <= k <= |a.batches| && Covers(crc, a, past, k);
    var n := ReopenGives(crc, a, cut, b);
    PossibleIsLogged(crc, a);
    SoundIsLogged(crc, a);
    SoundIsLogged(crc, b);
    var s, all := Possible(a), a.batches + a.attempted;
    assert a.batches[..k] == all[..k];
    SameUpTo(crc, a.system, a.batches, s, all, k);
    EndsGrow(s.store.durable, all, k, n);
    assert b.batches[..k] == all[..k];
    SameUpTo(crc, b.system, b.batches, s, all, k);
    LogsGrow(crc, s, all, k, n);
    assert Covers(crc, b, past, k);
  }

  lemma ActKeepsSecured(crc: Wal.Checksum, a: Machine, action: Action, b: Machine, past: History)
    requires Sound(crc, a) && Sound(crc, b) && Secured(crc, a, past) && Act(crc, a, action, b)
    ensures Secured(crc, b, past)
  {
    hide Sound, Step, Covers, Logging, Repaired, Rebuilt, Possible, Open, Wal.Replay;
    match action
    case Quiet(e) =>
      QuietKeepsSound(crc, a, action, b);
      GrowthKeepsSecured(crc, a, b, past);
    case Append(e, authoritative, io) =>
      if Logging(crc, a, e.operations, authoritative, io).1 {
        AcknowledgedKeepsSound(crc, a, action, b);
        WriteStep(a.system, e, b.system);
      } else {
        FailedKeepsSound(crc, a, action, b);
      }
      GrowthKeepsSecured(crc, a, b, past);
    case Sync(ok) =>
      SyncKeepsSound(crc, a, action, b);
      GrowthKeepsSecured(crc, a, b, past);
    case Rotate(e) =>
      RotateKeepsSound(crc, a, action, b);
      FlushedIsSecured(crc, b, past);
    case Reopen(cut) => ReopenKeepsSecured(crc, a, cut, b, past);
  }

  /** What is secured once stays in the history of every later state. */
  lemma {:induction false} SecuredForever(crc: Wal.Checksum, run: seq<Machine>, actions: seq<Action>, i: nat, j: nat, past: History)
    requires IsMachineRun(crc, run, actions) && i <= j < |run|
    requires Sound(crc, run[i]) && Secured(crc, run[i], past)
    ensures Sound(crc, run[j]) && Secured(crc, run[j], past)
    decreases j
  {
    hide Sound, Act, Secured;
    if i < j {
      SecuredForever(crc, run, actions, i, j - 1, past);
      RunIsSound(crc, run, actions, j);
      var k := j - 1;
      assert Act(crc, run[k], actions[k], run[k + 1]);
      ActKeepsSecured(crc, run[k], actions[k], run[k + 1], past);
    }
  }

  /** A batch acknowledged as authoritative is in the history of every later state,
      in its place, whatever fails, crashes or is repaired in between. */
  lemma AuthoritativeSurvives(crc: Wal.Checksum, run: seq<Machine>, actions: seq<Action>, i: nat, j: nat)
    requires IsMachineRun(crc, run, actions) && i < j < |run|
    requires Acknowledged(crc, run[i], actions[i]) && actions[i].authoritative
    ensures run[i].system.history + actions[i].event.operations <= run[j].system.history
  {
    hide Sound, Step, Covers, ValidBatch, Logging, Repaired, Rebuilt, Possible, Open, Wal.Replay;
    RunIsSound(crc, run, actions, i);
    AcknowledgedKeepsSound(crc, run[i], actions[i], run[i + 1]);
    WriteStep(run[i].system, actions[i].event, run[i + 1].system);
    NothingFailed(crc, run[i], actions[i], run[i + 1]);
    SyncedIsSecured(crc, run[i + 1]);
    SecuredForever(crc, run, actions, i + 1, j, run[i + 1].system.history);
  }

  lemma NothingFailed(crc: Wal.Checksum, a: Machine, action: Action, b: Machine)
    requires Sound(crc, a) && Sound(crc, b) && action.Append? && Act(crc, a, action, b)
    requires Logging(crc, a, action.event.operations, action.authoritative, action.io).1
    ensures b.log.failed.None?
  {
    hide Act, Step, Invariant, Logged, Framed, FrameOf, ValidBatch, Logging, Wal.LogValid;
    AcknowledgedGives(crc, a, action, b);
    UnpoisonedHasNoAttempt(crc, a, action.event.operations, action.authoritative, action.io);
  }

  /** A successful sync makes everything acknowledged so far survive as well. */
  lemma SyncedSurvives(crc: Wal.Checksum, run: seq<Machine>, actions: seq<Action>, i: nat, j: nat)
    requires IsMachineRun(crc, run, actions) && i < j < |run|
    requires actions[i] == Sync(true) && !run[i].log.poisoned
    ensures run[i].system.history <= run[j].system.history
  {
    hide Sound, Act, Covers;
    assert Act(crc, run[i], actions[i], run[i + 1]);
    RunIsSound(crc, run, actions, i);
    RunIsSound(crc, run, actions, i + 1);
    SyncGives(crc, run[i], run[i + 1]);
    SyncedIsSecured(crc, run[i + 1]);
    SecuredForever(crc, run, actions, i + 1, j, run[i + 1].system.history);
  }

  lemma SyncGives(crc: Wal.Checksum, a: Machine, b: Machine)
    requires Sound(crc, a) && !a.log.poisoned && Act(crc, a, Sync(true), b)
    ensures b.system == a.system && b.log.synced == |b.log.file| && b.log.failed.None?
  {
    SyncedInside(crc, a);
  }

  // ----- every machine run is a run of the transaction state machine

  lemma ExtendRun(trace: seq<System>, e: Event, next: System)
    requires IsRun(trace) && Step(trace[|trace| - 1], e, next)
    ensures IsRun(trace + [next])
  {
    hide Step, Initial;
    var longer := trace + [next];
    forall i, j | 0 <= i && j == i + 1 < |longer| ensures Next(longer[i], longer[j]) {
      if j < |trace| {
        assert Next(trace[i], trace[i + 1]);
      } else {
        assert Step(longer[i], e, longer[j]);
      }
    }
    assert forall i | 0 <= i < |longer| - 1 :: Next(longer[i], longer[i + 1]);
  }

  /** Every action is at most two steps: a crash that leaves a batch behind whose append
      had failed is that batch being written and then the crash. */
  lemma ActIsSteps(crc: Wal.Checksum, a: Machine, action: Action, b: Machine, trace: seq<System>) returns (longer: seq<System>)
    requires Sound(crc, a) && Act(crc, a, action, b)
    requires IsRun(trace) && trace[|trace| - 1] == a.system
    ensures IsRun(longer) && longer[|longer| - 1] == b.system && trace <= longer
    ensures |longer| <= |trace| + 2
  {
    hide Sound, Step, Logging, Repaired, Rebuilt, Possible, Open, Wal.Replay, IsRun;
    longer := trace;
    match action
    case Quiet(e) =>
      ExtendRun(trace, e, b.system);
      longer := trace + [b.system];
    case Append(e, authoritative, io) =>
      if Logging(crc, a, e.operations, authoritative, io).1 {
        ExtendRun(trace, e, b.system);
        longer := trace + [b.system];
      } else {
        FailedKeepsSound(crc, a, action, b);
        if b.system != a.system {
          ExtendRun(trace, End(e.id), b.system);
          longer := trace + [b.system];
        }
      }
    case Sync(ok) =>
    case Rotate(e) =>
      ExtendRun(trace, e, b.system);
      longer := trace + [b.system];
    case Reopen(cut) =>
      longer := ReopenIsSteps(crc, a, cut, b, trace);
  }

  lemma ReopenIsSteps(crc: Wal.Checksum, a: Machine, cut: nat, b: Machine, trace: seq<System>) returns (longer: seq<System>)
    requires Sound(crc, a) && Act(crc, a, Reopen(cut), b)
    requires IsRun(trace) && trace[|trace| - 1] == a.system
    ensures IsRun(longer) && longer[|longer| - 1] == b.system && trace <= longer
    ensures |longer| <= |trace| + 2
  {
    hide Act, Sound, Step, Possible, IsRun, Logged, LogUpTo, EndAt, Reopened, Framed;
    var n := ReopenGives(crc, a, cut, b);
    PossibleIsLogged(crc, a);
    var s := Possible(a);
    longer := trace;
    if a.attempted != [] {
      ExtendRun(trace, Write(a.attempted[0]), s);
      longer := trace + [s];
    }
    ExtendRun(longer, Crash(EndAt(a.system.store.durable, a.batches + a.attempted, n)), b.system);
    longer := longer + [b.system];
  }

  /** So every theorem about runs holds of every state the machine reaches. */
  lemma {:induction false} MachineRunIsRun(crc: Wal.Checksum, run: seq<Machine>, actions: seq<Action>, i: nat) returns (trace: seq<System>)
    requires IsMachineRun(crc, run, actions) && i < |run|
    ensures IsRun(trace) && trace[|trace| - 1] == run[i].system
  {
    hide Sound, Act, Step;
    if i == 0 {
      trace := [Initial()];
    } else {
      var before := MachineRunIsRun(crc, run, actions, i - 1);
      var k := i - 1;
      RunIsSound(crc, run, actions, k);
      assert Act(crc, run[k], actions[k], run[k + 1]);
      trace := ActIsSteps(crc, run[k], actions[k], run[k + 1], before);
    }
  }
}
