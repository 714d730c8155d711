/** Snapshot-isolated transactions over the store, as a state machine in which
    transactions, flushes, compactions and crashes interleave freely. */
module Transactions {
  import opened Bytes
  import opened Wrappers
  import opened Batch
  import opened Versions
  import opened Maintenance
  import opened Compaction
  import opened Levels

  /** A transaction pins the sequence it began at and buffers one cell per key. */
  datatype Transaction = Transaction(snapshot: nat, writes: map<Key, Cell>)

  /** The store with its live transactions, beside the reference state: the history
      of committed mutations, the sequences still readable and the commit ends. */
  datatype System = System(store: Store, active: map<nat, Transaction>, history: History, kept: set<nat>, ends: set<nat>)

  function Initial(): System {
    System(Store(map[], 0, [], 0), map[], [], {0}, {0})
  }

  function Pins(active: map<nat, Transaction>): set<nat> {
    set id | id in active :: active[id].snapshot
  }

  function TransactionGet(store: Store, t: Transaction, key: Key): Option<Value> {
    if key in t.writes then t.writes[key] else Get(store, key, t.snapshot)
  }

  /** The conflict check of `commit_transaction_inner`. */
  predicate Conflicts(store: Store, t: Transaction) {
    exists key | key in t.writes :: LatestStored(store, key).Some? && LatestStored(store, key).value > t.snapshot
  }

  /** `take_mutations`: one mutation per buffered key, in key order. */
  ghost predicate BatchOf(operations: seq<Mutation>, writes: map<Key, Cell>) {
    && (forall i, j | 0 <= i < j < |operations| :: Lt(operations[i].key, operations[j].key))
    && (forall i | 0 <= i < |operations| ::
          operations[i].key in writes && CellOf(operations[i]) == writes[operations[i].key])
    && (forall key | key in writes :: exists i | 0 <= i < |operations| :: operations[i].key == key)
  }

  function ApplyBatch(table: Table, operations: seq<Mutation>, first: nat): Table
    decreases operations
  {
    if operations == [] then table
    else ApplyBatch(Insert(table, operations[0].key, first, CellOf(operations[0])), operations[1..], first + 1)
  }

  function Written(store: Store, operations: seq<Mutation>): Store {
    store.(memtable := ApplyBatch(store.memtable, operations, store.maximum + 1),
           maximum := store.maximum + |operations|)
  }

  datatype Event =
    | Begin(id: nat)
    | Buffer(id: nat, key: Key, cell: Cell)
    | Commit(id: nat, operations: seq<Mutation>)
    | Write(operations: seq<Mutation>)
    | End(id: nat)
    | Flush(outputs: seq<Segment>)
    | Compact(sources: seq<nat>, sourceLevel: nat, first: Key, last: Key, supplied: set<nat>, retainAll: bool,
              outputs: seq<Segment>)
    | Crash(upto: nat)

  /** The sequences a compaction protects: the supplied ones, every pin and the
      durable head. */
  function Protected(s: System, supplied: set<nat>): set<nat> {
    (set p | p in supplied && p <= s.store.durable) + Pins(s.active) + {s.store.durable}
  }

  /** What the log accepts after `length` mutations: a valid batch whose sequences fit. */
  predicate Loggable(operations: seq<Mutation>, length: nat) {
    ValidBatch(operations) && length + |operations| < U64_MAX
  }

  ghost predicate Step(a: System, e: Event, b: System) {
    match e
    case Begin(id) =>
      && id !in a.active
      && b == a.(active := a.active[id := Transaction(a.store.maximum, map[])], kept := a.kept + {a.store.maximum})
    case Buffer(id, key, cell) =>
      && id in a.active
      && b == a.(active := a.active[id := a.active[id].(writes := a.active[id].writes[key := cell])])
    case Commit(id, operations) =>
      && id in a.active && a.active[id].writes != map[] && !Conflicts(a.store, a.active[id])
      && BatchOf(operations, a.active[id].writes) && Loggable(operations, |a.history|)
      && b == System(Written(a.store, operations), a.active - {id}, a.history + operations, a.kept,
                     a.ends + {|a.history + operations|})
    case Write(operations) =>   // a batch outside any transaction
      && Loggable(operations, |a.history|)
      && b == System(Written(a.store, operations), a.active, a.history + operations, a.kept,
                     a.ends + {|a.history + operations|})
    case End(id) =>   // rollback, drop, read-only commit or refused commit
      id in a.active && b == a.(active := a.active - {id})
    case Flush(outputs) =>
      && Closes(outputs, 0, a.store.memtable.Keys)
      && (forall key :: AllVersions(outputs, key) == ChainOf(a.store.memtable, key))
      && b == a.(store := Flushed(a.store, outputs))
    case Compact(sources, sourceLevel, first, last, supplied, retainAll, outputs) =>
      var segments := a.store.segments;
      var selected := (set i | i in sources) + Targets(segments, first, last, sourceLevel + 1);
      var inputs, others := Pick(segments, selected), Leave(segments, selected);
      && Hull(segments, sources, first, last)
      && Closes(outputs, sourceLevel + 1, KeysOf(inputs))
      && (forall key :: AllVersions(outputs, key) == KeptChain(inputs, others, Protected(a, supplied), retainAll, key))
      && b == a.(store := Compacted(a.store, others, outputs),
                 kept := if retainAll then a.kept
                         else set p | p in a.kept && (p > a.store.durable || p in Protected(a, supplied)))
    case Crash(upto) =>
      && upto in a.ends && a.store.durable <= upto <= |a.history|
      && b == System(a.store.(memtable := TableOf(a.history[..upto], a.store.durable, upto), maximum := upto),
                     map[], a.history[..upto], set p | p in a.kept && p <= upto, set p | p in a.ends && p <= upto)
  }

  ghost predicate Next(a: System, b: System) {
    exists e :: Step(a, e, b)
  }

  ghost predicate IsRun(run: seq<System>) {
    && run != [] && run[0] == Initial()
    && forall i | 0 <= i < |run| - 1 :: Next(run[i], run[i + 1])
  }

  // ----- the invariant

  ghost predicate Invariant(s: System) {
    && Refines(s.store, s.history, s.kept)
    && Ranged(s.store.segments) && LevelsApart(s.store.segments)
    && s.kept <= s.ends && |s.history| in s.ends
    && (forall p | p in s.ends :: p <= |s.history|)
    && (forall id | id in s.active :: s.active[id].snapshot in s.kept)
  }

  lemma InitialInvariant()
    ensures Invariant(Initial())
  {
    var s := Initial();
    forall key ensures Faithful(s.store.segments, s.history, key, 0) {
      assert Latest(Sequences(map[]), 0) == None;
      assert Latest(WritesTo([], key), 0) == None;
    }
  }

  lemma {:induction false} ApplyBatchIsTableOf(history: History, operations: seq<Mutation>, durable: nat)
    requires durable <= |history|
    ensures ApplyBatch(TableOf(history, durable, |history|), operations, |history| + 1)
         == TableOf(history + operations, durable, |history + operations|)
    decreases |operations|
  {
    if operations == [] {
      assert history + operations == history;
    } else {
      var next := history + [operations[0]];
      TableOfPrefix(history, next, durable, |history|);
      ApplyBatchIsTableOf(next, operations[1..], durable);
      assert next + operations[1..] == history + operations;
    }
  }

  /** Growing or cutting the history past `durable` does not disturb the segments. */
  lemma SegmentsSurvive(segments: seq<Segment>, history: History, other: History, durable: nat)
    requires Sound(segments, history, durable) && durable <= |history| && durable <= |other|
    requires history <= other || other <= history
    ensures Sound(segments, other, durable)
    ensures forall p: nat, key | p <= durable && Faithful(segments, history, key, p) :: Faithful(segments, other, key, p)
  {
    forall i, key | 0 <= i < |segments| && key in segments[i].chains
      ensures SoundChain(segments[i].chains[key], other, key, durable)
    {
      assert SoundChain(segments[i].chains[key], history, key, durable);
    }
    forall p: nat, key | p <= durable && Faithful(segments, history, key, p) ensures Faithful(segments, other, key, p) {
      if history <= other {
        ReadAtPrefix(history, other, key, p);
      } else {
        ReadAtPrefix(other, history, key, p);
      }
    }
  }

  lemma WriteRefines(store: Store, history: History, kept: set<nat>, operations: seq<Mutation>)
    requires Refines(store, history, kept)
    ensures Refines(Written(store, operations), history + operations, kept)
  {
    ApplyBatchIsTableOf(history, operations, store.durable);
    SegmentsSurvive(store.segments, history, history + operations, store.durable);
  }

  lemma CrashRefines(store: Store, history: History, kept: set<nat>, upto: nat)
    requires Refines(store, history, kept) && store.durable <= upto <= |history|
    ensures Refines(store.(memtable := TableOf(history[..upto], store.durable, upto), maximum := upto),
                    history[..upto], set p | p in kept && p <= upto)
  {
    SegmentsSurvive(store.segments, history, history[..upto], store.durable);
  }

  lemma CompactStep(a: System, e: Event, b: System)
    requires Invariant(a) && e.Compact? && Step(a, e, b)
    ensures Invariant(b)
  {
    var segments := a.store.segments;
    var selected := (set i | i in e.sources) + Targets(segments, e.first, e.last, e.sourceLevel + 1);
    CompactionKeepsLevelsApart(segments, e.sources, e.first, e.last, e.sourceLevel, selected, e.outputs);
    CompactRefines(a.store, selected, e.outputs, a.history, a.kept, Protected(a, e.supplied), e.retainAll,
                   e.sourceLevel + 1, b.kept);
    forall id | id in b.active ensures b.active[id].snapshot in b.kept {
      assert b.active[id].snapshot in Pins(a.active);
    }
  }

  lemma FlushStep(a: System, e: Event, b: System)
    requires Invariant(a) && e.Flush? && Step(a, e, b)
    ensures Invariant(b)
  {
    FlushRefines(a.store, e.outputs, a.history, a.kept);
  }

  lemma CommitStep(a: System, e: Event, b: System)
    requires Invariant(a) && (e.Commit? || e.Write?) && Step(a, e, b)
    ensures Invariant(b)
  {
    hide Refines, BatchOf, Conflicts, ApplyBatch, Ranged, LevelsApart, ValidBatch;
    WriteRefines(a.store, a.history, a.kept, e.operations);
  }

  lemma CrashStep(a: System, e: Event, b: System)
    requires Invariant(a) && e.Crash? && Step(a, e, b)
    ensures Invariant(b)
  {
    CrashRefines(a.store, a.history, a.kept, e.upto);
  }

  lemma StepKeepsInvariant(a: System, e: Event, b: System)
    requires Invariant(a) && Step(a, e, b)
    ensures Invariant(b)
  {
    match e
    case Begin(id) =>
    case Buffer(id, key, cell) =>
    case Commit(id, operations) => CommitStep(a, e, b);
    case Write(operations) => CommitStep(a, e, b);
    case End(id) =>
    case Flush(outputs) => FlushStep(a, e, b);
    case Compact(_, _, _, _, _, _, _) => CompactStep(a, e, b);
    case Crash(upto) => CrashStep(a, e, b);
  }

  lemma StepAt(run: seq<System>, k: nat) returns (e: Event)
    requires IsRun(run) && k + 1 < |run|
    ensures Step(run[k], e, run[k + 1])
  {
    hide Step;
    assert Next(run[k], run[k + 1]);
    e :| Step(run[k], e, run[k + 1]);
  }

  lemma {:induction false} RunInvariant(run: seq<System>, i: nat)
    requires IsRun(run) && i < |run|
    ensures Invariant(run[i])
  {
    if i == 0 {
      InitialInvariant();
    } else {
      hide Invariant, Step;
      RunInvariant(run, i - 1);
      var e := StepAt(run, i - 1);
      StepKeepsInvariant(run[i - 1], e, run[i]);
    }
  }

  // ----- what every run guarantees

  /** A transaction reads its own writes over the history as it was when it began. */
  lemma TransactionReadsItsSnapshot(run: seq<System>, i: nat, id: nat, key: Key)
    requires IsRun(run) && i < |run| && id in run[i].active
    ensures var t := run[i].active[id];
      && t.snapshot in run[i].ends && t.snapshot <= |run[i].history|
      && TransactionGet(run[i].store, t, key)
      == if key in t.writes then t.writes[key] else ReadAt(run[i].history, key, t.snapshot)
  {
    RunInvariant(run, i);
    var s := run[i];
    GetIsReadAt(s.store, s.history, s.kept, key, s.active[id].snapshot);
  }

  /** Reads repeat: whatever else commits, flushes or compacts between two states of
      a live transaction, an unwritten key reads the same in both. */
  lemma ReadsRepeat(run: seq<System>, i: nat, j: nat, id: nat, key: Key)
    requires IsRun(run) && i <= j < |run|
    requires forall k | i <= k <= j :: id in run[k].active
    requires key !in run[j].active[id].writes && key !in run[i].active[id].writes
    ensures TransactionGet(run[j].store, run[j].active[id], key) == TransactionGet(run[i].store, run[i].active[id], key)
  {
    SnapshotIsStable(run, i, j, id);
    TransactionReadsItsSnapshot(run, i, id, key);
    TransactionReadsItsSnapshot(run, j, id, key);
    ReadAtPrefix(run[i].history, run[j].history, key, run[i].active[id].snapshot);
  }

  /** While a transaction lives, its snapshot stays and the history only grows. */
  lemma StepKeepsSnapshot(a: System, e: Event, b: System, id: nat)
    requires Step(a, e, b) && id in a.active && id in b.active
    ensures b.active[id].snapshot == a.active[id].snapshot && a.history <= b.history
  {
    hide BatchOf, Conflicts, Closes, KeptChain, Hull, AllVersions, ValidBatch;
  }

  lemma {:induction false} SnapshotIsStable(run: seq<System>, i: nat, j: nat, id: nat)
    requires IsRun(run) && i <= j < |run|
    requires forall k | i <= k <= j :: id in run[k].active
    ensures run[j].active[id].snapshot == run[i].active[id].snapshot
    ensures run[i].history <= run[j].history
    decreases j
  {
    hide Step, Initial;
    if i < j {
      SnapshotIsStable(run, i, j - 1, id);
      assert id in run[j - 1].active && id in run[j].active;
      var e := StepAt(run, j - 1);
      StepKeepsSnapshot(run[j - 1], e, run[j], id);
    }
  }

  ghost predicate WrittenSince(history: History, key: Key, snapshot: nat) {
    exists q: nat | snapshot < q <= |history| :: Writes(history, key, q)
  }

  lemma WrittenSinceIsLastWrite(history: History, key: Key, snapshot: nat)
    requires snapshot <= |history|
    ensures var last := LastWrite(history, key, |history|);
      WrittenSince(history, key, snapshot) <==> last.Some? && last.value > snapshot
    ensures !WrittenSince(history, key, snapshot) ==>
      LastWrite(history, key, |history|) == LastWrite(history, key, snapshot)
  {
    if !WrittenSince(history, key, snapshot) {
      assert forall q: nat | snapshot < q <= |history| :: !WritesTo(history, key)(q);
      LatestSkips(WritesTo(history, key), snapshot, |history|);
    } else {
      var q: nat :| snapshot < q <= |history| && Writes(history, key, q);
      assert WritesTo(history, key)(q);
    }
  }

  /** Conflict detection is exact on the keys of which the store still holds some
      version: a commit is refused if and only if one of those was written since. */
  lemma ConflictIsExact(s: System, t: Transaction)
    requires Invariant(s) && t.snapshot <= |s.history|
    ensures Conflicts(s.store, t) <==>
      exists key | key in t.writes :: WrittenSince(s.history, key, t.snapshot) && LatestStored(s.store, key).Some?
  {
    forall key | key in t.writes
      ensures (LatestStored(s.store, key).Some? && LatestStored(s.store, key).value > t.snapshot)
           <==> (WrittenSince(s.history, key, t.snapshot) && LatestStored(s.store, key).Some?)
    {
      WrittenSinceIsLastWrite(s.history, key, t.snapshot);
      LatestStoredIsLastWrite(s.store, s.history, s.kept, key);
    }
  }

  lemma UncontestedKey(store: Store, history: History, kept: set<nat>, snapshot: nat, key: Key)
    requires Refines(store, history, kept) && snapshot in kept && snapshot <= store.maximum
    requires LatestStored(store, key).Some? ==> LatestStored(store, key).value <= snapshot
    ensures ReadAt(history, key, |history|) == ReadAt(history, key, snapshot)
    ensures WrittenSince(history, key, snapshot) ==>
      LatestStored(store, key) == None && ReadAt(history, key, |history|) == None
  {
    WrittenSinceIsLastWrite(history, key, snapshot);
    LatestStoredIsLastWrite(store, history, kept, key);
    if WrittenSince(history, key, snapshot) {
      NothingStored(store, history, kept, key, snapshot);
    }
  }

  /** No lost update: at a successful commit every written key still has the value
      that the transaction's snapshot shows. The only write that can have come in
      between is one whose key is absent both then and now. */
  lemma CommitLosesNoUpdate(a: System, e: Event, b: System, key: Key)
    requires Invariant(a) && e.Commit? && Step(a, e, b) && key in a.active[e.id].writes
    ensures var snapshot := a.active[e.id].snapshot;
      && ReadAt(a.history, key, |a.history|) == ReadAt(a.history, key, snapshot)
      && (WrittenSince(a.history, key, snapshot) ==>
          LatestStored(a.store, key) == None && ReadAt(a.history, key, |a.history|) == None)
  {
    hide Refines, LatestStored, ReadAt, Written, BatchOf;
    assert a.store.maximum == |a.history| by { MaximumIsLength(a); }
    UncontestedKey(a.store, a.history, a.kept, a.active[e.id].snapshot, key);
  }

  lemma MaximumIsLength(s: System)
    requires Invariant(s)
    ensures s.store.maximum == |s.history|
  {
  }

  /** A key of which no version is stored reads as absent wherever the store answers. */
  lemma NothingStored(store: Store, history: History, kept: set<nat>, key: Key, p: nat)
    requires Refines(store, history, kept) && LatestStored(store, key) == None
    requires p <= store.maximum && (p in kept || store.durable <= p)
    ensures ReadAt(history, key, p) == None
  {
    GetIsReadAt(store, history, kept, key, p);
    var recent, older := ChainOf(store.memtable, key), AllVersions(store.segments, key);
    assert forall q: nat | q <= store.maximum :: !Sequences(recent)(q) && !Sequences(older)(q);
    assert Newest(recent, p) == None && Newest(older, p) == None;
  }

  /** Keys of a batch are distinct, so its i-th mutation is the last one of its key. */
  lemma BatchWritesOnce(history: History, operations: seq<Mutation>, i: nat)
    requires forall i, j | 0 <= i < j < |operations| :: Lt(operations[i].key, operations[j].key)
    requires i < |operations|
    ensures LastWrite(history + operations, operations[i].key, |history + operations|) == Some(|history| + i + 1)
  {
    var longer, n := history + operations, |history|;
    var p := WritesTo(longer, operations[i].key);
    assert longer[n + i] == operations[i];
    assert p(n + i + 1);
    forall q: nat | n + i + 1 < q <= |longer| ensures !p(q) {
      assert longer[q - 1] == operations[q - 1 - n];
      assert Lt(operations[i].key, operations[q - 1 - n].key);
    }
  }

  /** A write set has only one batch. */
  lemma BatchIsUnique(a: seq<Mutation>, b: seq<Mutation>, writes: map<Key, Cell>)
    requires BatchOf(a, writes) && BatchOf(b, writes)
    ensures a == b
  {
    var x, y := seq(|a|, i requires 0 <= i < |a| => a[i].key), seq(|b|, i requires 0 <= i < |b| => b[i].key);
    BatchListsKeys(a, writes);
    BatchListsKeys(b, writes);
    ListingIsUnique(x, y, writes.Keys);
    assert |a| == |x| == |y| == |b|;
    forall i | 0 <= i < |a| ensures a[i] == b[i] {
      assert x[i] == a[i].key && y[i] == b[i].key;
      assert CellOf(a[i]) == CellOf(b[i]);
    }
  }

  lemma BatchListsKeys(a: seq<Mutation>, writes: map<Key, Cell>)
    requires BatchOf(a, writes)
    ensures Listing(seq(|a|, i requires 0 <= i < |a| => a[i].key), writes.Keys)
  {
    hide Lt;
    var x := seq(|a|, i requires 0 <= i < |a| => a[i].key);
    forall k ensures k in x <==> k in writes.Keys {
      if k in writes {
        var i :| 0 <= i < |a| && a[i].key == k;
        assert x[i] == k;
      }
    }
  }

  lemma BatchInstalls(history: History, operations: seq<Mutation>, writes: map<Key, Cell>, key: Key)
    requires BatchOf(operations, writes)
    ensures ReadAt(history + operations, key, |history + operations|)
         == if key in writes then writes[key] else ReadAt(history, key, |history|)
  {
    hide Lt;
    var longer, n := history + operations, |history|;
    if key in writes {
      var i :| 0 <= i < |operations| && operations[i].key == key;
      BatchWritesOnce(history, operations, i);
      assert longer[n + i] == operations[i];
    } else {
      var p := WritesTo(longer, key);
      forall q: nat | n < q <= |longer| ensures !p(q) {
        assert longer[q - 1] == operations[q - 1 - n];
      }
      LatestSkips(p, n, |longer|);
      ReadAtPrefix(history, longer, key, n);
    }
  }

  /** A commit installs exactly its buffered cells, and nothing else changes. */
  lemma CommitInstalls(a: System, e: Event, b: System, key: Key)
    requires e.Commit? && Step(a, e, b)
    ensures var writes := a.active[e.id].writes;
      ReadAt(b.history, key, |b.history|)
      == if key in writes then writes[key] else ReadAt(a.history, key, |a.history|)
  {
    hide ReadAt, Written, BatchOf;
    BatchInstalls(a.history, e.operations, a.active[e.id].writes, key);
  }

  lemma CommitEnds(a: System, e: Event, b: System)
    requires Invariant(a) && (e.Commit? || e.Write?) && Step(a, e, b)
    ensures forall p | p in b.ends :: p <= |a.history| || p >= |b.history|
  {
  }

  lemma EndsStayOutside(a: System, e: Event, b: System, low: nat, high: nat)
    requires Step(a, e, b) && high <= |b.history|
    requires forall p | p in a.ends :: p <= low || p >= high
    ensures forall p | p in b.ends :: p <= low || p >= high
  {
  }

  /** Batches are atomic to every reader: while its mutations stay in the history, no
      readable sequence ever falls inside a commit or a batch write. */
  lemma {:induction false} CommitIsAtomic(run: seq<System>, i: nat, j: nat, e: Event)
    requires IsRun(run) && i < j < |run|
    requires (e.Commit? || e.Write?) && Step(run[i], e, run[i + 1])
    requires forall k | i < k <= j :: run[i + 1].history <= run[k].history
    ensures forall p | p in run[j].ends :: p <= |run[i].history| || p >= |run[i + 1].history|
    ensures run[j].kept <= run[j].ends
    decreases j
  {
    hide Step, Refines;
    RunInvariant(run, j);
    if i + 1 < j {
      CommitIsAtomic(run, i, j - 1, e);
      var f := StepAt(run, j - 1);
      EndsStayOutside(run[j - 1], f, run[j], |run[i].history|, |run[i + 1].history|);
    } else {
      RunInvariant(run, i);
      CommitEnds(run[i], e, run[i + 1]);
    }
  }

  // ----- runs with their events

  /** A run, and the event of each of its steps. */
  ghost predicate Follows(run: seq<System>, events: seq<Event>) {
    && |events| + 1 == |run| && run[0] == Initial()
    && forall i, j | 0 <= i < |events| && j == i + 1 :: Step(run[i], events[i], run[j])
  }

  lemma FollowsIsRun(run: seq<System>, events: seq<Event>)
    requires Follows(run, events)
    ensures IsRun(run)
  {
    hide Step;
    forall i | 0 <= i < |run| - 1 ensures Next(run[i], run[i + 1]) {
      var j := i + 1;
      assert Step(run[i], events[i], run[j]);
    }
  }

  lemma EventAt(run: seq<System>, events: seq<Event>, k: nat)
    requires Follows(run, events) && k < |events|
    ensures Step(run[k], events[k], run[k + 1])
  {
    hide Step;
    var j := k + 1;
    assert Step(run[k], events[k], run[j]);
  }
}
