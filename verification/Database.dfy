/** The database object: every public operation is proved to be one step of the
    transaction state machine, so the run theorems apply to any sequence of calls. */
module Database {
  import opened Bytes
  import opened Wrappers
  import opened Batch
  import opened Versions
  import opened Maintenance
  import opened Compaction
  import opened Levels
  import opened Transactions
  import opened Buffering
  import opened Retention

  class Database {
    const segmentTarget: nat
    const maxInputSegments: nat
    const sizeOf: (Key, Chain) -> nat
    var memtable: Table
    var maximum: nat
    var segments: seq<Segment>
    var durable: nat
    var active: map<nat, Transaction>
    ghost var history: History
    ghost var kept: set<nat>
    ghost var ends: set<nat>

    ghost function View(): System
      reads this
    {
      System(Store(memtable, maximum, segments, durable), active, history, kept, ends)
    }

    ghost predicate Valid()
      reads this
    {
      Invariant(View())
    }

    constructor (segmentTarget: nat, maxInputSegments: nat, sizeOf: (Key, Chain) -> nat)
      ensures View() == Initial() && Valid()
    {
      this.segmentTarget, this.maxInputSegments, this.sizeOf := segmentTarget, maxInputSegments, sizeOf;
      memtable, maximum, segments, durable, active := map[], 0, [], 0, map[];
      history, kept, ends := [], {0}, {0};
      new;
      InitialInvariant();
    }

    /** The newest version of `key` at or below `bound` over all segments whose range
        can hold it; the first segment wins a tie. */
    method SelectVersion(key: Key, bound: nat) returns (selected: Option<(nat, Cell)>)
      requires Valid()
      ensures var older := AllVersions(segments, key);
        && Newest(older, bound) == (if selected.Some? then Some(selected.value.0) else None)
        && (selected.Some? ==> older[selected.value.0] == selected.value.1)
    {
      hide AllVersions;
      selected := None;
      NothingYet(segments, key, bound);
      for i := 0 to |segments|
        invariant var older := AllVersions(segments[..i], key);
          && Newest(older, bound) == (if selected.Some? then Some(selected.value.0) else None)
          && (selected.Some? ==> older[selected.value.0] == selected.value.1)
      {
        AllVersionsLast(segments[..i], segments[i], key);
        assert segments[..i + 1] == segments[..i] + [segments[i]];
        assert WellRanged(segments[i]);
        if InRange(segments[i], key) {
          var chain := ChainOf(segments[i].chains, key);
          ghost var before := AllVersions(segments[..i], key);
          NewestOfUnion(chain, before, bound);
          var newest := Newest(chain, bound);
          assert newest.Some? && (selected.None? || newest.value > selected.value.0) ==>
            !Sequences(before)(newest.value);
          assert selected.Some? ==> Sequences(before)(selected.value.0);
          if newest.Some? && (selected.None? || newest.value > selected.value.0) {
            selected := Some((newest.value, chain[newest.value]));
          }
        } else {
          assert ChainOf(segments[i].chains, key) == map[];
          assert map[] + AllVersions(segments[..i], key) == AllVersions(segments[..i], key);
        }
      }
      assert segments[..|segments|] == segments;
    }

    method Read(key: Key, bound: nat) returns (value: Option<Value>)
      requires Valid()
      ensures value == Get(View().store, key, bound)
      ensures bound <= maximum && (bound in kept || durable <= bound) ==> value == ReadAt(history, key, bound)
    {
      var recent := ChainOf(memtable, key);
      var newest := Newest(recent, bound);
      if newest.Some? {
        value := recent[newest.value];
      } else {
        var selected := SelectVersion(key, bound);
        value := if selected.Some? then selected.value.1 else None;
      }
      if bound <= maximum && (bound in kept || durable <= bound) {
        GetIsReadAt(View().store, history, kept, key, bound);
      }
    }

    method LatestSequence(key: Key) returns (latest: Option<nat>)
      requires Valid()
      ensures latest == LatestStored(View().store, key)
    {
      latest := Newest(ChainOf(memtable, key), maximum);
      if latest.None? {
        var selected := SelectVersion(key, maximum);
        latest := if selected.Some? then Some(selected.value.0) else None;
      }
    }

    method BeginTransaction(id: nat)
      requires Valid() && id !in active
      modifies this
      ensures Step(old(View()), Begin(id), View()) && Valid()
      ensures forall key :: TransactionGet(View().store, active[id], key) == ReadAt(history, key, |history|)
    {
      ghost var before := View();
      active := active[id := Transaction(maximum, map[])];
      kept := kept + {maximum};
      assert Step(before, Begin(id), View());
      StepKeepsInvariant(before, Begin(id), View());
      forall key ensures TransactionGet(View().store, active[id], key) == ReadAt(history, key, |history|) {
        BeginReadsTheHead(before, Begin(id), View(), key);
      }
    }

    method BufferWrite(id: nat, key: Key, cell: Cell)
      requires Valid() && id in active
      modifies this
      ensures Step(old(View()), Buffer(id, key, cell), View()) && Valid()
      ensures active.Keys == old(active).Keys && TransactionGet(View().store, active[id], key) == cell
      ensures forall i, k | i in active && (i != id || k != key) ::
        TransactionGet(View().store, active[i], k) == TransactionGet(old(View()).store, old(active)[i], k)
    {
      ghost var before := View();
      active := active[id := active[id].(writes := active[id].writes[key := cell])];
      assert Step(before, Buffer(id, key, cell), View());
      StepKeepsInvariant(before, Buffer(id, key, cell), View());
      BufferIsReadBack(before, Buffer(id, key, cell), View());
    }

    /** `commit_transaction_inner`: the conflict check over the write set, then one
        batch in key order; the transaction is gone either way. A write set that makes
        no loggable batch is refused. */
    method CommitTransaction(id: nat) returns (committed: bool, ghost e: Event)
      requires Valid() && id in active
      modifies this
      ensures Step(old(View()), e, View()) && Valid()
      ensures e == End(id) || (e.Commit? && e.id == id)
      ensures active == old(active) - {id}
      ensures var writes := old(active)[id].writes;
        && (committed <==> Committable(old(View()).store, old(active)[id]))
        && (e.Commit? <==> committed && writes != map[])
    {
      ghost var before := View();
      hide Step, Invariant, Conflicts, BatchOf, Loggable, Committable, Written, ApplyBatch;
      var t := active[id];
      committed := CheckConflicts(t);
      CommittableIs(before.store, t);
      if committed && t.writes != map[] {
        var operations := TakeMutations(t.writes);
        OnlyBatch(before.store, t, operations);
        committed := Loggable(operations, maximum);
        if committed {
          MaximumIsLength(before);
          ApplyOperations(operations);
          active := active - {id};
          e := Commit(id, operations);
          CommitIsStep(before, id, operations, View());
          StepKeepsInvariant(before, e, View());
          return committed, e;
        }
      }
      active := active - {id};
      e := End(id);
      EndIsStep(before, id, View());
      StepKeepsInvariant(before, e, View());
    }

    /** `write`: a batch outside any transaction. */
    method WriteBatch(operations: seq<Mutation>) returns (written: bool)
      requires Valid()
      modifies this
      ensures written <==> Loggable(operations, old(maximum))
      ensures written ==> Step(old(View()), Write(operations), View())
      ensures !written ==> View() == old(View())
      ensures Valid()
    {
      ghost var before := View();
      if !Loggable(operations, maximum) { return false; }
      assert maximum == |history| by { MaximumIsLength(before); }
      ApplyOperations(operations);
      assert View() == System(Written(before.store, operations), before.active, before.history + operations,
                              before.kept, before.ends + {|before.history + operations|});
      StepKeepsInvariant(before, Write(operations), View());
      written := true;
    }

    method CheckConflicts(t: Transaction) returns (clear: bool)
      requires Valid()
      ensures clear <==> !Conflicts(View().store, t)
    {
      var remaining := t.writes.Keys;
      while remaining != {}
        invariant remaining <= t.writes.Keys
        invariant forall key | key in t.writes && key !in remaining ::
          LatestStored(View().store, key).Some? ==> LatestStored(View().store, key).value <= t.snapshot
      {
        var key := TakeLeast(remaining);
        var latest := LatestSequence(key);
        if latest.Some? && latest.value > t.snapshot {
          return false;
        }
        remaining := remaining - {key};
      }
      return true;
    }

    /** The memtable side of a write: one sequence per operation, in order. */
    method ApplyOperations(operations: seq<Mutation>)
      modifies this
      ensures memtable == ApplyBatch(old(memtable), operations, old(maximum) + 1)
      ensures maximum == old(maximum) + |operations|
      ensures history == old(history) + operations && ends == old(ends) + {|history|}
      ensures segments == old(segments) && durable == old(durable) && active == old(active) && kept == old(kept)
    {
      var i := 0;
      while i < |operations|
        invariant i <= |operations|
        invariant ApplyBatch(old(memtable), operations, old(maximum) + 1)
               == ApplyBatch(memtable, operations[i..], maximum + 1)
        invariant maximum == old(maximum) + i
        invariant history == old(history) && ends == old(ends)
        invariant segments == old(segments) && durable == old(durable) && active == old(active) && kept == old(kept)
      {
        assert operations[i..][1..] == operations[i + 1..];
        memtable := Insert(memtable, operations[i].key, maximum + 1, CellOf(operations[i]));
        maximum := maximum + 1;
        i := i + 1;
      }
      history := history + operations;
      ends := ends + {|history|};
    }

    method FlushMemtable() returns (ghost e: Event)
      requires Valid()
      modifies this
      ensures e.Flush? && Step(old(View()), e, View()) && Valid()
    {
      ghost var before := View();
      var outputs := WritePartitions(memtable, 0, segmentTarget, sizeOf);
      memtable, durable := map[], maximum;
      segments := segments + outputs;
      e := Flush(outputs);
      assert View() == before.(store := Flushed(before.store, outputs));
      StepKeepsInvariant(before, e, View());
    }

    /** `compact_segments_inner` on chosen source segments: blocked when the closure
        exceeds one quantum, otherwise one merge step that never fails on a valid store. */
    method CompactSegments(sources: seq<nat>, sourceLevel: nat, supplied: set<nat>, retainAll: bool)
      returns (merged: bool, ghost e: Event)
      requires Valid() && sources != [] && forall k | 0 <= k < |sources| :: sources[k] < |segments|
      modifies this
      ensures Valid()
      ensures merged ==> e.Compact? && Step(old(View()), e, View())
      ensures !merged ==> View() == old(View())
      ensures QuantumAllows(old(segments), sources, sourceLevel, maxInputSegments, merged)
      ensures merged ==> StillAnswers(old(View()), supplied, retainAll, View())
    {
      ghost var before := View();
      hide Step, Invariant, StillAnswers, QuantumAllows, Tight, Hull, Targets, Agree, AllVersions, KeptChain, Closes, Pick, Leave;
      var selected, first, last := OverlapCandidate(segments, sources, sourceLevel, maxInputSegments);
      e := Crash(0);
      if selected.None? {
        return false, e;
      }
      var inputs, others := Pick(segments, selected.value), Leave(segments, selected.value);
      var protectedAt := (set p | p in supplied && p <= durable) + Pins(active) + {durable};
      InputsAgree(before, selected.value);
      var outputs := Merge(inputs, others, protectedAt, retainAll, sourceLevel + 1, segmentTarget, sizeOf);
      segments := others + outputs.value;
      kept := if retainAll then kept else set p | p in kept && (p > durable || p in protectedAt);
      e := Compact(sources, sourceLevel, first, last, supplied, retainAll, outputs.value);
      CompactIsStep(before, sources, sourceLevel, first, last, supplied, retainAll, selected.value, outputs.value, View());
      StepKeepsInvariant(before, e, View());
      CompactStillAnswers(before, e, View());
      merged := true;
    }
  }

  /** Segments of a valid store never disagree, so the merge cannot fail on them. */
  lemma InputsAgree(a: System, selected: set<nat>)
    requires Invariant(a)
    ensures Agree(Pick(a.store.segments, selected))
  {
    hide Pick, Leave, Agree;
    var inputs := Pick(a.store.segments, selected);
    SplitMembers(a.store.segments, selected);
    SoundMembers(a.store.segments, inputs, a.history, a.store.durable);
    SoundAgrees(inputs, a.history, a.store.durable);
  }

  /** A commit succeeds: no conflict, and nothing written or a batch the log accepts. */
  ghost predicate Committable(store: Store, t: Transaction) {
    && !Conflicts(store, t)
    && (t.writes != map[] ==> exists ops :: BatchOf(ops, t.writes) && Loggable(ops, store.maximum))
  }

  lemma CommittableIs(store: Store, t: Transaction)
    ensures Conflicts(store, t) ==> !Committable(store, t)
    ensures !Conflicts(store, t) && t.writes == map[] ==> Committable(store, t)
  {
  }

  /** Whether a write set makes a loggable batch is decided by its only batch. */
  lemma OnlyBatch(store: Store, t: Transaction, operations: seq<Mutation>)
    requires BatchOf(operations, t.writes) && !Conflicts(store, t) && t.writes != map[]
    ensures Committable(store, t) <==> Loggable(operations, store.maximum)
  {
    hide BatchOf, Loggable, Conflicts;
    forall ops | BatchOf(ops, t.writes) ensures ops == operations { BatchIsUnique(ops, operations, t.writes); }
  }

  lemma CommitIsStep(a: System, id: nat, operations: seq<Mutation>, b: System)
    requires id in a.active && a.active[id].writes != map[] && !Conflicts(a.store, a.active[id])
    requires BatchOf(operations, a.active[id].writes) && Loggable(operations, |a.history|)
    requires b.store == a.store.(memtable := ApplyBatch(a.store.memtable, operations, a.store.maximum + 1),
                                 maximum := a.store.maximum + |operations|)
    requires b.active == a.active - {id} && b.history == a.history + operations && b.kept == a.kept
    requires b.ends == a.ends + {|b.history|}
    ensures Step(a, Commit(id, operations), b)
  {
    hide Conflicts, BatchOf, Loggable, ApplyBatch;
  }

  lemma EndIsStep(a: System, id: nat, b: System)
    requires id in a.active && b == a.(active := a.active - {id})
    ensures Step(a, End(id), b)
  {
  }

  lemma NewestOfNothing(bound: nat)
    ensures Newest(map[], bound) == None
  {
    assert forall q: nat | q <= bound :: !Sequences(map[])(q);
  }

  /** The edit that `CompactSegments` makes, as a step of the system. */
  lemma CompactIsStep(a: System, sources: seq<nat>, sourceLevel: nat, first: Key, last: Key, supplied: set<nat>,
                      retainAll: bool, selected: set<nat>, outputs: seq<Segment>, b: System)
    requires selected == (set i | i in sources) + Targets(a.store.segments, first, last, sourceLevel + 1)
    requires Hull(a.store.segments, sources, first, last)
    requires var inputs, others := Pick(a.store.segments, selected), Leave(a.store.segments, selected);
      && Closes(outputs, sourceLevel + 1, KeysOf(inputs))
      && (forall key :: AllVersions(outputs, key) == KeptChain(inputs, others, Protected(a, supplied), retainAll, key))
      && b == a.(store := a.store.(segments := others + outputs),
                 kept := if retainAll then a.kept
                         else set p | p in a.kept && (p > a.store.durable || p in Protected(a, supplied)))
    ensures Step(a, Compact(sources, sourceLevel, first, last, supplied, retainAll, outputs), b)
  {
    hide AllVersions, Pick, Leave, KeptChain, Closes, Hull, Targets;
  }

  lemma NothingYet(segments: seq<Segment>, key: Key, bound: nat)
    ensures Newest(AllVersions(segments[..0], key), bound) == None
  {
    NewestOfNothing(bound);
  }

  lemma NewestOfUnion(a: Chain, b: Chain, bound: nat)
    ensures var x, y := Newest(a, bound), Newest(b, bound);
      Newest(a + b, bound) == if x.Some? && (y.None? || x.value > y.value) then x else y
  {
    assert forall q: nat :: Sequences(a + b)(q) <==> Sequences(a)(q) || Sequences(b)(q);
    var x, y := Newest(a, bound), Newest(b, bound);
    assert forall q: nat | q <= bound && (x.Some? ==> x.value < q) :: !Sequences(a)(q);
    assert forall q: nat | q <= bound && (y.Some? ==> y.value < q) :: !Sequences(b)(q);
    if x.Some? { assert Sequences(a + b)(x.value); }
    if y.Some? { assert Sequences(a + b)(y.value); }
  }

  /** `take_mutations`. */
  method TakeMutations(writes: map<Key, Cell>) returns (operations: seq<Mutation>)
    ensures BatchOf(operations, writes)
  {
    operations := [];
    var remaining := writes.Keys;
    while remaining != {}
      invariant remaining <= writes.Keys
      invariant forall i, j | 0 <= i < j < |operations| :: Lt(operations[i].key, operations[j].key)
      invariant forall i | 0 <= i < |operations| ::
        && operations[i].key in writes && operations[i].key !in remaining
        && CellOf(operations[i]) == writes[operations[i].key]
      invariant forall i, next | 0 <= i < |operations| && next in remaining :: Lt(operations[i].key, next)
      invariant forall key | key in writes && key !in remaining ::
        exists i | 0 <= i < |operations| :: operations[i].key == key
    {
      var key := TakeLeast(remaining);
      LeastIsBelow(remaining, key);
      var m := if writes[key].Some? then Put(key, writes[key].value) else Delete(key);
      ghost var was := operations;
      operations := operations + [m];
      assert operations[|was|].key == key;
      assert forall i | 0 <= i < |was| :: operations[i] == was[i];
      remaining := remaining - {key};
    }
  }
}
