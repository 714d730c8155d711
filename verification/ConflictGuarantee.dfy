/** When write-write conflict detection keeps its promise. A live transaction loses
    sight of a key exactly when a compaction erases the key's tombstones although the
    key was written after the transaction's snapshot and is in no memtable; in a run
    without such a compaction, and only there, detection is exact in every state. */
module ConflictGuarantee {
  import opened Wrappers
  import opened Batch
  import opened Versions
  import opened Maintenance
  import opened Compaction
  import opened Levels
  import opened Transactions

  // ----- the promise, state by state

  /** The commit check of a transaction with these writes is refused exactly when one
      of them was written since its snapshot. */
  ghost predicate Exact(s: System, snapshot: nat, writes: map<Key, Cell>) {
    Conflicts(s.store, Transaction(snapshot, writes)) <==>
      exists key | key in writes :: WrittenSince(s.history, key, snapshot)
  }

  /** A write since the snapshot of a live transaction has left some stored version. */
  ghost predicate Sees(s: System, id: nat, key: Key)
    requires id in s.active
  {
    WrittenSince(s.history, key, s.active[id].snapshot) ==> LatestStored(s.store, key).Some?
  }

  ghost predicate Detects(s: System) {
    forall id, key | id in s.active :: Sees(s, id, key)
  }

  lemma SnapshotIsBounded(s: System, id: nat)
    requires Invariant(s) && id in s.active
    ensures s.active[id].snapshot <= |s.history|
  {
    assert s.active[id].snapshot in s.kept && s.active[id].snapshot in s.ends;
  }

  /** What the check reads of a stored key is whether it was written since. */
  lemma StoredTells(s: System, key: Key, snapshot: nat)
    requires Invariant(s) && snapshot <= |s.history| && LatestStored(s.store, key).Some?
    ensures LatestStored(s.store, key).value > snapshot <==> WrittenSince(s.history, key, snapshot)
  {
    hide LatestStored, LastWrite, ReadAt;
    WrittenSinceIsLastWrite(s.history, key, snapshot);
    LatestStoredIsLastWrite(s.store, s.history, s.kept, key);
    assert s.store.maximum == |s.history|;
  }

  /** Detection in a state is exactly the promise for whatever its live transactions
      may still write. */
  lemma DetectsIsThePromise(s: System)
    requires Invariant(s)
    ensures Detects(s) <==> forall id, writes | id in s.active :: Exact(s, s.active[id].snapshot, writes)
  {
    hide Invariant, LatestStored, WrittenSince;
    if Detects(s) {
      forall id, writes | id in s.active ensures Exact(s, s.active[id].snapshot, writes) {
        SightIsExact(s, id, writes);
      }
    }
    if forall id, writes | id in s.active :: Exact(s, s.active[id].snapshot, writes) {
      forall id, key | id in s.active ensures Sees(s, id, key) {
        var writes: map<Key, Cell> := map[key := None];
        assert Exact(s, s.active[id].snapshot, writes) && key in writes;
      }
    }
  }

  lemma SightIsExact(s: System, id: nat, writes: map<Key, Cell>)
    requires Invariant(s) && id in s.active && forall key | key in writes :: Sees(s, id, key)
    ensures Exact(s, s.active[id].snapshot, writes)
  {
    hide Invariant, LatestStored, WrittenSince;
    var snapshot := s.active[id].snapshot;
    SnapshotIsBounded(s, id);
    forall key | key in writes
      ensures (LatestStored(s.store, key).Some? && LatestStored(s.store, key).value > snapshot)
           <==> WrittenSince(s.history, key, snapshot)
    {
      assert Sees(s, id, key);
      if LatestStored(s.store, key).Some? { StoredTells(s, key, snapshot); }
    }
  }

  /** First committer wins: in a detecting state a commit is refused if and only if a
      key of its write set has been written since its snapshot. */
  lemma FirstCommitterWins(s: System, id: nat)
    requires Invariant(s) && Detects(s) && id in s.active
    ensures Conflicts(s.store, s.active[id]) <==>
      exists key | key in s.active[id].writes :: WrittenSince(s.history, key, s.active[id].snapshot)
  {
    hide Invariant, Conflicts, WrittenSince;
    SightIsExact(s, id, s.active[id].writes);
    assert s.active[id] == Transaction(s.active[id].snapshot, s.active[id].writes);
  }

  // ----- what is stored

  lemma {:induction false} LatestFinds(p: nat -> bool, q: nat, bound: nat)
    requires q <= bound && p(q)
    ensures Latest(p, bound).Some?
    decreases bound
  {
    if q < bound { LatestFinds(p, q, bound - 1); }
  }

  lemma ChainNewest(chain: Chain, bound: nat)
    requires forall q | q in chain :: q <= bound
    ensures Newest(chain, bound).Some? <==> chain != map[]
  {
    if chain != map[] {
      var q :| q in chain;
      assert Sequences(chain)(q);
      LatestFinds(Sequences(chain), q, bound);
    } else {
      EmptyIsNewest(bound);
    }
  }

  ghost predicate Stored(s: System, key: Key) {
    ChainOf(s.store.memtable, key) != map[] || AllVersions(s.store.segments, key) != map[]
  }

  lemma StoredIs(s: System, key: Key)
    requires Invariant(s)
    ensures LatestStored(s.store, key).Some? <==> Stored(s, key)
    ensures forall q | q in AllVersions(s.store.segments, key) :: q <= s.store.durable
  {
    hide TableOf, AllVersions, Newest;
    TableOfHolds(s.history, s.store.durable, s.store.maximum, key);
    AllVersionsSound(s.store.segments, s.history, s.store.durable, key);
    ChainNewest(ChainOf(s.store.memtable, key), s.store.maximum);
    ChainNewest(AllVersions(s.store.segments, key), s.store.maximum);
  }

  // ----- compactions

  function Selected(a: System, e: Event): set<nat>
    requires e.Compact?
  {
    (set i | i in e.sources) + Targets(a.store.segments, e.first, e.last, e.sourceLevel + 1)
  }

  /** The guard of the branch that drops a key: versions were retained, and none of
      them is worth keeping. */
  ghost predicate Erases(a: System, e: Event, key: Key)
    requires e.Compact?
  {
    var inputs, others := Pick(a.store.segments, Selected(a, e)), Leave(a.store.segments, Selected(a, e));
    var retained := Retained(AllVersions(inputs, key), Protected(a, e.supplied), e.retainAll);
    retained != map[] && !RetainKey(retained, e.retainAll, CoveredBy(others, key))
  }

  /** The compaction erases a key that is in no memtable and whose newest stored
      version is later than the snapshot of a live transaction. */
  ghost predicate Blinds(a: System, e: Event, id: nat, key: Key)
    requires e.Compact? && id in a.active
  {
    && Erases(a, e, key) && ChainOf(a.store.memtable, key) == map[]
    && LatestStored(a.store, key).Some? && LatestStored(a.store, key).value > a.active[id].snapshot
  }

  /** In terms of the history: the key was written since. */
  lemma BlindsWrittenSince(a: System, e: Event, id: nat, key: Key)
    requires Invariant(a) && e.Compact? && id in a.active
    ensures Blinds(a, e, id, key) <==>
      && Erases(a, e, key) && ChainOf(a.store.memtable, key) == map[]
      && WrittenSince(a.history, key, a.active[id].snapshot)
  {
    hide Invariant, LatestStored, WrittenSince, AllVersions, Retained, RetainKey, Pick, Leave, Selected;
    SnapshotIsBounded(a, id);
    if Erases(a, e, key) {
      ErasedWasStored(a, e, key);
      StoredTells(a, key, a.active[id].snapshot);
    }
  }

  lemma ErasedWasStored(a: System, e: Event, key: Key)
    requires Invariant(a) && e.Compact? && Erases(a, e, key)
    ensures LatestStored(a.store, key).Some? && AllVersions(a.store.segments, key) != map[]
  {
    hide AllVersions, Pick, Leave, RetainKey, CoveredBy, LatestStored, Invariant;
    var inputs := Pick(a.store.segments, Selected(a, e));
    var protectedAt := Protected(a, e.supplied);
    SplitVersions(a.store.segments, Selected(a, e), key);
    RetainedKeepsNewest(AllVersions(inputs, key), protectedAt, e.retainAll, a.store.durable);
    var q :| q in Retained(AllVersions(inputs, key), protectedAt, e.retainAll);
    assert q in AllVersions(inputs, key) && q in AllVersions(a.store.segments, key);
    StoredIs(a, key);
  }

  /** A compaction leaves some version of a key in the segments exactly when there was
      one and the key is not erased. */
  lemma CompactStores(a: System, e: Event, b: System, key: Key)
    requires Invariant(a) && e.Compact? && Step(a, e, b)
    ensures AllVersions(b.store.segments, key) != map[] <==>
      AllVersions(a.store.segments, key) != map[] && !Erases(a, e, key)
  {
    var segments, selected := a.store.segments, Selected(a, e);
    var inputs, others := Pick(segments, selected), Leave(segments, selected);
    var protectedAt, durable := Protected(a, e.supplied), a.store.durable;
    var chain, rest := AllVersions(inputs, key), AllVersions(others, key);
    var retained := Retained(chain, protectedAt, e.retainAll);
    assert AllVersions(e.outputs, key) == KeptChain(inputs, others, protectedAt, e.retainAll, key);
    assert b.store.segments == others + e.outputs;
    if Erases(a, e, key) {
      SplitMembers(segments, selected);
      assert forall i | 0 <= i < |segments| :: WellRanged(segments[i]);
      UncoveredEmpty(segments, others, key);
    }
    StoredIs(a, key);
    hide AllVersions, Closes, Pick, Leave, RetainKey, CoveredBy, Hull, Targets, KeptChain, Retained, Invariant, Step;
    KeptChainIs(inputs, others, protectedAt, e.retainAll, key);
    AllVersionsConcat(others, e.outputs, key);
    SplitVersions(segments, selected, key);
    RetainedKeepsNewest(chain, protectedAt, e.retainAll, durable);
    KeptOrLeft(AllVersions(segments, key), chain, rest, retained, AllVersions(e.outputs, key), durable);
  }

  /** Of a nonempty chain the newest version is retained. */
  lemma KeptOrLeft(was: Chain, chain: Chain, rest: Chain, retained: Chain, outputs: Chain, durable: nat)
    requires was.Keys == chain.Keys + rest.Keys && retained.Keys <= chain.Keys
    requires Newest(retained, durable) == Newest(chain, durable)
    requires forall q | q in was :: q <= durable
    requires outputs == retained || outputs == map[]
    ensures outputs == retained ==> (outputs + rest != map[] <==> was != map[])
    ensures outputs == map[] && rest == map[] ==> outputs + rest == map[]
  {
    assert forall q | q in chain :: q in was;
    ChainNewest(chain, durable);
    ChainNewest(retained, durable);
    if outputs == retained {
      if q :| q in outputs { assert q in outputs + rest && q in was; }
      if q :| q in rest { assert q in outputs + rest && q in was; }
      if was != map[] {
        var q :| q in was;
        assert q in chain || q in rest;
      }
    }
  }

  /** A compaction keeps a key in a transaction's sight exactly when it does not blind
      the transaction to it. */
  lemma CompactKeepsSight(a: System, e: Event, b: System, id: nat, key: Key)
    requires Invariant(a) && e.Compact? && Step(a, e, b) && id in a.active
    ensures b.active == a.active
    ensures Sees(b, id, key) <==> Sees(a, id, key) && !Blinds(a, e, id, key)
  {
    StepKeepsInvariant(a, e, b);
    assert b.active == a.active && b.history == a.history && b.store.memtable == a.store.memtable;
    hide Invariant, Step, LatestStored, WrittenSince, AllVersions, Erases;
    StoredIs(a, key);
    StoredIs(b, key);
    CompactStores(a, e, b, key);
    BlindsWrittenSince(a, e, id, key);
    if Erases(a, e, key) { ErasedWasStored(a, e, key); }
  }

  // ----- every other step

  lemma GrowthStores(a: System, b: System, key: Key)
    requires Invariant(a) && Invariant(b) && a.history <= b.history
    requires b.store.segments == a.store.segments && b.store.durable == a.store.durable
    ensures Stored(a, key) ==> Stored(b, key)
    ensures forall q: nat | |a.history| < q <= |b.history| && Writes(b.history, key, q) :: Stored(b, key)
  {
    hide TableOf, AllVersions;
    TableOfHolds(a.history, a.store.durable, a.store.maximum, key);
    TableOfHolds(b.history, b.store.durable, b.store.maximum, key);
    var before, after := ChainOf(a.store.memtable, key), ChainOf(b.store.memtable, key);
    if q :| q in before {
      assert Writes(b.history, key, q) by { assert Writes(a.history, key, q); }
      assert q in after;
    }
    forall q: nat | |a.history| < q <= |b.history| && Writes(b.history, key, q) ensures Stored(b, key) {
      assert q in after;
    }
  }

  lemma GrowthKeepsSight(a: System, b: System, id: nat, key: Key)
    requires Invariant(a) && Invariant(b) && a.history <= b.history
    requires b.store.segments == a.store.segments && b.store.durable == a.store.durable
    requires id in a.active && id in b.active && b.active[id].snapshot == a.active[id].snapshot && Sees(a, id, key)
    ensures Sees(b, id, key)
  {
    GrowthStores(a, b, key);
    StoredIs(a, key);
    StoredIs(b, key);
    hide Invariant, LatestStored, AllVersions, Stored;
    var snapshot := a.active[id].snapshot;
    if WrittenSince(b.history, key, snapshot) {
      var q: nat :| snapshot < q <= |b.history| && Writes(b.history, key, q);
      if q <= |a.history| { assert Writes(a.history, key, q); }
    }
  }

  lemma FlushKeepsSight(a: System, e: Event, b: System, id: nat, key: Key)
    requires Invariant(a) && Invariant(b) && e.Flush? && Step(a, e, b) && id in a.active && Sees(a, id, key)
    ensures Sees(b, id, key)
  {
    StoredIs(a, key);
    StoredIs(b, key);
    hide Invariant, LatestStored, AllVersions, Closes, WrittenSince;
    assert AllVersions(e.outputs, key) == ChainOf(a.store.memtable, key);
    AllVersionsConcat(a.store.segments, e.outputs, key);
    if Stored(a, key) {
      if q :| q in ChainOf(a.store.memtable, key) { assert q in AllVersions(b.store.segments, key); }
      if q :| q in AllVersions(a.store.segments, key) { assert q in AllVersions(b.store.segments, key); }
    }
  }

  lemma FreshSees(s: System, id: nat, key: Key)
    requires id in s.active && s.active[id].snapshot == |s.history|
    ensures Sees(s, id, key)
  {
  }

  /** No other step hides a key from a transaction, and a new one sees every key. */
  lemma OtherStepKeepsSight(a: System, e: Event, b: System, id: nat, key: Key)
    requires Invariant(a) && Step(a, e, b) && !e.Compact? && id in b.active
    requires id in a.active ==> Sees(a, id, key)
    ensures Sees(b, id, key)
  {
    StepKeepsInvariant(a, e, b);
    MaximumIsLength(a);
    hide Invariant, LatestStored, Sees, BatchOf, Conflicts, ValidBatch, TableOf, Written, Closes, AllVersions;
    if e.Begin? && id == e.id {
      FreshSees(b, id, key);
    } else if e.Flush? {
      FlushKeepsSight(a, e, b, id, key);
    } else {
      WrittenKeepsSegments(a.store, if e.Commit? || e.Write? then e.operations else []);
      assert !e.Crash?;
      GrowthKeepsSight(a, b, id, key);
    }
  }

  lemma WrittenKeepsSegments(store: Store, operations: seq<Mutation>)
    ensures Written(store, operations).segments == store.segments && Written(store, operations).durable == store.durable
  {
  }

  // ----- over steps and whole runs

  ghost predicate BlindsSome(a: System, e: Event) {
    e.Compact? && exists id, key | id in a.active :: Blinds(a, e, id, key)
  }

  /** From a detecting state every step leads to a detecting one, except exactly the
      compactions that blind a live transaction to some key. */
  lemma StepKeepsDetection(a: System, e: Event, b: System)
    requires Invariant(a) && Detects(a) && Step(a, e, b)
    ensures Detects(b) <==> !BlindsSome(a, e)
  {
    hide Invariant, Step, Sees, Blinds;
    if e.Compact? {
      CompactKeepsLive(a, e, b);
      forall id, key | id in a.active ensures Sees(b, id, key) <==> !Blinds(a, e, id, key) {
        CompactKeepsSight(a, e, b, id, key);
      }
    } else {
      forall id, key | id in b.active ensures Sees(b, id, key) {
        OtherStepKeepsSight(a, e, b, id, key);
      }
    }
  }

  lemma CompactKeepsLive(a: System, e: Event, b: System)
    requires e.Compact? && Step(a, e, b)
    ensures b.active == a.active
  {
  }

  lemma {:induction false} DetectsUpTo(run: seq<System>, events: seq<Event>, i: nat)
    requires Follows(run, events) && i < |run| && forall k | 0 <= k < i :: !BlindsSome(run[k], events[k])
    ensures Detects(run[i])
  {
    if i == 0 {
      assert Detects(Initial());
    } else {
      hide Step, Detects, BlindsSome, Invariant;
      DetectsUpTo(run, events, i - 1);
      FollowsIsRun(run, events);
      RunInvariant(run, i - 1);
      var k := i - 1;
      assert Step(run[k], events[k], run[i]);
      StepKeepsDetection(run[k], events[k], run[i]);
    }
  }

  /** A run detects in all its states if and only if none of its compactions blinds a
      live transaction to a key. */
  lemma DetectionOverRuns(run: seq<System>, events: seq<Event>)
    requires Follows(run, events)
    ensures (forall i | 0 <= i < |run| :: Detects(run[i])) <==>
      (forall k | 0 <= k < |events| :: !BlindsSome(run[k], events[k]))
  {
    hide Step, Detects, BlindsSome, Invariant;
    if forall k | 0 <= k < |events| :: !BlindsSome(run[k], events[k]) {
      forall i | 0 <= i < |run| ensures Detects(run[i]) { DetectsUpTo(run, events, i); }
    }
    FollowsIsRun(run, events);
    if forall i | 0 <= i < |run| :: Detects(run[i]) {
      forall k | 0 <= k < |events| ensures !BlindsSome(run[k], events[k]) {
        var j := k + 1;
        RunInvariant(run, k);
        assert Detects(run[k]) && Detects(run[j]) && Step(run[k], events[k], run[j]);
        StepKeepsDetection(run[k], events[k], run[j]);
      }
    }
  }

  /** In every state before the first blinding compaction, a commit is refused if and
      only if one of its keys was written since its snapshot. */
  lemma DetectionIsExactBeforeBlinding(run: seq<System>, events: seq<Event>, i: nat, id: nat)
    requires Follows(run, events) && i < |run| && id in run[i].active
    requires forall k | 0 <= k < i :: !BlindsSome(run[k], events[k])
    ensures var s, t := run[i], run[i].active[id];
      Conflicts(s.store, t) <==> exists key | key in t.writes :: WrittenSince(s.history, key, t.snapshot)
  {
    hide Step, Detects, BlindsSome, Invariant, Conflicts, WrittenSince, Follows;
    DetectsUpTo(run, events, i);
    FollowsIsRun(run, events);
    RunInvariant(run, i);
    FirstCommitterWins(run[i], id);
  }
}
