/** Which versions a compaction keeps and which it prunes, in terms of who may still
    read them. */
module Retention {
  import opened Wrappers
  import opened Batch
  import opened Versions
  import opened Maintenance
  import opened Compaction
  import opened Levels
  import opened Transactions

  /** Somebody may still read at `p`: it was supplied, a live transaction reads there, it
      is not older than the durable head, or nothing is to be pruned. */
  ghost predicate Wanted(a: System, supplied: set<nat>, retainAll: bool, p: nat) {
    retainAll || p in supplied || p >= a.store.durable || exists id | id in a.active :: a.active[id].snapshot == p
  }

  /** Every wanted sequence that was readable stays so, with the same answer for every key. */
  lemma CompactKeepsWanted(a: System, e: Event, b: System, p: nat, key: Key)
    requires Invariant(a) && e.Compact? && Step(a, e, b)
    requires p in a.kept && Wanted(a, e.supplied, e.retainAll, p)
    ensures p in b.kept && Get(b.store, key, p) == Get(a.store, key, p)
  {
    KeptStaysKept(a, e, b, p);
    StepKeepsInvariant(a, e, b);
    CompactKeepsHistory(a, e, b);
    assert p <= |a.history| by { assert p in a.ends; }
    MaximumIsLength(a);
    MaximumIsLength(b);
    hide Step, Get, ReadAt, Refines;
    GetIsReadAt(a.store, a.history, a.kept, key, p);
    GetIsReadAt(b.store, b.history, b.kept, key, p);
  }

  /** Every wanted sequence that was readable stays so, with the same answers. */
  ghost predicate StillAnswers(a: System, supplied: set<nat>, retainAll: bool, b: System) {
    forall p, key | p in a.kept && Wanted(a, supplied, retainAll, p) ::
      p in b.kept && Get(b.store, key, p) == Get(a.store, key, p)
  }

  lemma CompactStillAnswers(a: System, e: Event, b: System)
    requires Invariant(a) && e.Compact? && Step(a, e, b)
    ensures StillAnswers(a, e.supplied, e.retainAll, b)
  {
    hide Invariant, Step, Get, Wanted;
    forall p, key | p in a.kept && Wanted(a, e.supplied, e.retainAll, p)
      ensures p in b.kept && Get(b.store, key, p) == Get(a.store, key, p)
    {
      CompactKeepsWanted(a, e, b, p, key);
    }
  }

  lemma CompactKeepsHistory(a: System, e: Event, b: System)
    requires e.Compact? && Step(a, e, b)
    ensures b.history == a.history && b.active == a.active && b.store.durable == a.store.durable
  {
  }

  lemma KeptStaysKept(a: System, e: Event, b: System, p: nat)
    requires e.Compact? && Step(a, e, b) && p in a.kept && Wanted(a, e.supplied, e.retainAll, p)
    ensures p in b.kept
  {
    hide KeptChain, AllVersions, Pick, Leave, Hull, Closes, Targets;
    if id :| id in a.active && a.active[id].snapshot == p {
      assert p in Pins(a.active);
    }
  }

  /** The newest version of the key in `segments` at or below `p`. */
  ghost predicate NewestIn(segments: seq<Segment>, key: Key, p: nat, q: nat) {
    && q <= p && q in AllVersions(segments, key)
    && forall other | other in AllVersions(segments, key) && other <= p :: other <= q
  }

  lemma NewestInIs(segments: seq<Segment>, key: Key, p: nat, q: nat)
    ensures NewestIn(segments, key, p, q) <==> Newest(AllVersions(segments, key), p) == Some(q)
  {
    var chain := AllVersions(segments, key);
    if NewestIn(segments, key, p, q) {
      assert Sequences(chain)(q);
      assert forall other: nat | q < other <= p :: !Sequences(chain)(other);
    }
    if Newest(chain, p) == Some(q) {
      assert forall other: nat | other in chain && other <= p :: Sequences(chain)(other);
    }
  }

  /** The versions of a key worth keeping: all, or the newest one for each sequence up to
      the durable head that somebody may still read. */
  ghost predicate Worth(a: System, e: Event, inputs: seq<Segment>, key: Key, q: nat)
    requires e.Compact?
  {
    && q in AllVersions(inputs, key)
    && (e.retainAll || exists p: nat | p <= a.store.durable && Wanted(a, e.supplied, false, p) :: NewestIn(inputs, key, p, q))
  }

  /** Only deletions are worth keeping, and no segment outside the merge can hold
      anything that they still hide. */
  ghost predicate Droppable(a: System, e: Event, inputs: seq<Segment>, others: seq<Segment>, key: Key)
    requires e.Compact?
  {
    && !e.retainAll
    && (forall q | q in AllVersions(inputs, key) && Worth(a, e, inputs, key, q) :: AllVersions(inputs, key)[q] == None)
    && (forall i | 0 <= i < |others| :: !InRange(others[i], key))
  }

  /** A compaction replaces its inputs by segments that hold nothing of a droppable key
      and exactly the versions worth keeping of every other one. */
  lemma CompactWritesWorth(a: System, e: Event, b: System, inputs: seq<Segment>, others: seq<Segment>, key: Key)
    requires Invariant(a) && e.Compact? && Step(a, e, b)
    requires var selected := (set i | i in e.sources) + Targets(a.store.segments, e.first, e.last, e.sourceLevel + 1);
      inputs == Pick(a.store.segments, selected) && others == Leave(a.store.segments, selected)
    ensures b.store.segments == others + e.outputs
    ensures Droppable(a, e, inputs, others, key) ==> AllVersions(e.outputs, key) == map[]
    ensures !Droppable(a, e, inputs, others, key) ==>
      forall q :: q in AllVersions(e.outputs, key) <==> Worth(a, e, inputs, key, q)
    ensures forall q | q in AllVersions(e.outputs, key) ::
      q in AllVersions(inputs, key) && AllVersions(e.outputs, key)[q] == AllVersions(inputs, key)[q]
  {
    var protectedAt := Protected(a, e.supplied);
    var retained := Retained(AllVersions(inputs, key), protectedAt, e.retainAll);
    OutputsReplaceInputs(a, e, b, inputs, others, key);
    InputsAreDurable(a, e, inputs, key);
    hide *;
    forall q ensures q in retained <==> Worth(a, e, inputs, key, q) {
      RetainedIsWorth(a, e, inputs, key, q);
    }
    KeptCases(inputs, others, protectedAt, e.retainAll, key);
    DroppableIs(a, e, inputs, others, key, retained);
  }

  lemma DroppableIs(a: System, e: Event, inputs: seq<Segment>, others: seq<Segment>, key: Key, retained: Chain)
    requires e.Compact? && forall q :: q in retained <==> Worth(a, e, inputs, key, q)
    requires forall q | q in retained :: q in AllVersions(inputs, key) && retained[q] == AllVersions(inputs, key)[q]
    ensures Droppable(a, e, inputs, others, key) <==>
      !e.retainAll && (forall q | q in retained :: retained[q] == None) && !CoveredBy(others, key)
  {
    hide Worth, AllVersions, InRange;
  }

  lemma KeptCases(inputs: seq<Segment>, others: seq<Segment>, protectedAt: set<nat>, retainAll: bool, key: Key)
    ensures var retained, kept := Retained(AllVersions(inputs, key), protectedAt, retainAll),
                                  KeptChain(inputs, others, protectedAt, retainAll, key);
      && (forall q | q in retained :: q in AllVersions(inputs, key) && retained[q] == AllVersions(inputs, key)[q])
      && kept == if !retainAll && (forall q | q in retained :: retained[q] == None) && !CoveredBy(others, key) then map[]
                 else retained
  {
    hide AllVersions, CoveredBy;
  }

  lemma OutputsReplaceInputs(a: System, e: Event, b: System, inputs: seq<Segment>, others: seq<Segment>, key: Key)
    requires e.Compact? && Step(a, e, b)
    requires var selected := (set i | i in e.sources) + Targets(a.store.segments, e.first, e.last, e.sourceLevel + 1);
      inputs == Pick(a.store.segments, selected) && others == Leave(a.store.segments, selected)
    ensures b.store.segments == others + e.outputs
    ensures AllVersions(e.outputs, key) == KeptChain(inputs, others, Protected(a, e.supplied), e.retainAll, key)
  {
  }

  lemma InputsAreDurable(a: System, e: Event, inputs: seq<Segment>, key: Key)
    requires Invariant(a) && e.Compact?
    requires var selected := (set i | i in e.sources) + Targets(a.store.segments, e.first, e.last, e.sourceLevel + 1);
      inputs == Pick(a.store.segments, selected)
    ensures forall q | q in AllVersions(inputs, key) :: q <= a.store.durable
  {
    hide Targets, Pick;
    var selected := (set i | i in e.sources) + Targets(a.store.segments, e.first, e.last, e.sourceLevel + 1);
    SplitMembers(a.store.segments, selected);
    SoundMembers(a.store.segments, inputs, a.history, a.store.durable);
    AllVersionsSound(inputs, a.history, a.store.durable, key);
  }

  lemma RetainedIsWorth(a: System, e: Event, inputs: seq<Segment>, key: Key, q: nat)
    requires e.Compact? && forall q | q in AllVersions(inputs, key) :: q <= a.store.durable
    ensures q in Retained(AllVersions(inputs, key), Protected(a, e.supplied), e.retainAll) <==> Worth(a, e, inputs, key, q)
  {
    hide AllVersions, NewestIn;
    var chain, durable := AllVersions(inputs, key), a.store.durable;
    if !e.retainAll {
      forall p | p in Protected(a, e.supplied) && Newest(chain, p) == Some(q) ensures Worth(a, e, inputs, key, q) {
        if p <= durable {
          NewestInIs(inputs, key, p, q);
        } else {
          LatestSkips(Sequences(chain), durable, p);
          NewestInIs(inputs, key, durable, q);
        }
      }
      forall p | p <= durable && Wanted(a, e.supplied, false, p) && NewestIn(inputs, key, p, q)
        ensures p in Protected(a, e.supplied) && Newest(chain, p) == Some(q)
      {
        if id :| id in a.active && a.active[id].snapshot == p {
          assert p in Pins(a.active);
        }
        NewestInIs(inputs, key, p, q);
      }
    }
  }
}
