/** Flushes and compactions preserve what the store refines: every kept read, the
    key-range discipline of the levels, and the soundness of every segment. */
module Compaction {
  import opened Wrappers
  import opened Batch
  import opened Versions
  import opened Maintenance

  // ----- choosing inputs by position

  function Pick(segments: seq<Segment>, selected: set<nat>): seq<Segment> {
    if segments == [] then []
    else
      var n := |segments| - 1;
      Pick(segments[..n], selected) + (if n in selected then [segments[n]] else [])
  }

  function Leave(segments: seq<Segment>, selected: set<nat>): seq<Segment> {
    if segments == [] then []
    else
      var n := |segments| - 1;
      Leave(segments[..n], selected) + (if n in selected then [] else [segments[n]])
  }

  lemma {:induction false} SplitVersions(segments: seq<Segment>, selected: set<nat>, key: Key)
    ensures AllVersions(segments, key).Keys
         == AllVersions(Pick(segments, selected), key).Keys + AllVersions(Leave(segments, selected), key).Keys
  {
    if segments != [] {
      var n := |segments| - 1;
      var front := segments[..n];
      SplitVersions(front, selected, key);
      AllVersionsLast(front, segments[n], key);
      assert front + [segments[n]] == segments;
      assert Pick(segments, selected) == if n in selected then Pick(front, selected) + [segments[n]] else Pick(front, selected);
      assert Leave(segments, selected) == if n in selected then Leave(front, selected) else Leave(front, selected) + [segments[n]];
      hide AllVersions, Pick, Leave, ChainOf;
      if n in selected {
        AllVersionsLast(Pick(front, selected), segments[n], key);
      } else {
        AllVersionsLast(Leave(front, selected), segments[n], key);
      }
    }
  }

  lemma {:induction false} SplitMembers(segments: seq<Segment>, selected: set<nat>)
    ensures forall s | s in Pick(segments, selected) :: s in segments
    ensures forall s | s in Leave(segments, selected) :: s in segments
  {
    if segments != [] {
      var n := |segments| - 1;
      SplitMembers(segments[..n], selected);
      assert segments == segments[..n] + [segments[n]];
    }
  }

  lemma SoundMembers(segments: seq<Segment>, some: seq<Segment>, history: History, durable: nat)
    requires Sound(segments, history, durable) && forall s | s in some :: s in segments
    ensures Sound(some, history, durable)
  {
    forall i, key | 0 <= i < |some| && key in some[i].chains
      ensures SoundChain(some[i].chains[key], history, key, durable)
    {
      assert some[i] in segments;
      var j :| 0 <= j < |segments| && segments[j] == some[i];
    }
  }

  lemma SoundConcat(left: seq<Segment>, right: seq<Segment>, history: History, durable: nat)
    requires Sound(left, history, durable) && Sound(right, history, durable)
    ensures Sound(left + right, history, durable)
  {
  }

  /** The merge meets a disagreement only over unsound inputs. */
  lemma {:induction false} SoundAgrees(segments: seq<Segment>, history: History, durable: nat)
    requires Sound(segments, history, durable)
    ensures Agree(segments)
  {
    forall i, key | 0 <= i < |segments|
      ensures SoundChain(ChainOf(segments[i].chains, key), history, key, durable)
    {
    }
  }

  lemma {:induction false} VersionPresent(segments: seq<Segment>, i: nat, key: Key)
    requires i < |segments| && key in segments[i].chains
    ensures segments[i].chains[key].Keys <= AllVersions(segments, key).Keys
  {
    var n := |segments| - 1;
    if i < n {
      VersionPresent(segments[..n], i, key);
    }
  }

  /** Segments in disjoint ranges hold each key once. */
  lemma ClosedVersions(segments: seq<Segment>, level: nat, keys: set<Key>, i: nat, key: Key)
    requires Closes(segments, level, keys) && i < |segments| && key in segments[i].chains
    ensures AllVersions(segments, key) == segments[i].chains[key]
  {
    VersionPresent(segments, i, key);
    forall q | q in AllVersions(segments, key)
      ensures q in segments[i].chains[key] && AllVersions(segments, key)[q] == segments[i].chains[key][q]
    {
      var j := VersionOrigin(segments, key, q);
      assert InRange(segments[i], key) && InRange(segments[j], key);
      if j < i {
        LtLe(segments[j].last, segments[i].first, key);
        LtLe(segments[j].last, key, segments[j].last);
      } else if i < j {
        LtLe(segments[i].last, segments[j].first, key);
        LtLe(segments[i].last, key, segments[i].last);
      }
    }
  }

  lemma ClosedSound(segments: seq<Segment>, level: nat, keys: set<Key>, history: History, durable: nat)
    requires Closes(segments, level, keys)
    requires forall key :: SoundChain(AllVersions(segments, key), history, key, durable)
    ensures Sound(segments, history, durable)
  {
    forall i, key | 0 <= i < |segments| && key in segments[i].chains
      ensures SoundChain(segments[i].chains[key], history, key, durable)
    {
      ClosedVersions(segments, level, keys, i, key);
    }
  }

  // ----- flush

  /** `flush_memtable_inner` after publication. */
  function Flushed(store: Store, outputs: seq<Segment>): Store {
    store.(memtable := map[], segments := store.segments + outputs, durable := store.maximum)
  }

  lemma FlushFaithful(store: Store, outputs: seq<Segment>, history: History, kept: set<nat>, key: Key, p: nat)
    requires Refines(store, history, kept)
    requires AllVersions(outputs, key) == ChainOf(store.memtable, key)
    requires p <= store.maximum && (p in kept || p >= store.durable)
    ensures Faithful(store.segments + outputs, history, key, p)
  {
    hide AllVersions, TableOf, Sound;
    var older, recent := AllVersions(store.segments, key), ChainOf(store.memtable, key);
    var all := AllVersions(store.segments + outputs, key);
    AllVersionsConcat(store.segments, outputs, key);
    TableOfHolds(history, store.durable, store.maximum, key);
    AllVersionsSound(store.segments, history, store.durable, key);
    if p < store.durable {
      LatestAgrees(Sequences(all), Sequences(older), p);
      assert Faithful(store.segments, history, key, p);
    } else {
      RecentIsLastWrite(history, store.durable, store.maximum, key, p);
      UnionNewest(older, recent, all, store.durable, p);
      assert Faithful(store.segments, history, key, store.durable);
    }
  }

  /** Above `durable` the newer chain decides; below it the older one is untouched. */
  lemma UnionNewest(older: Chain, recent: Chain, all: Chain, durable: nat, p: nat)
    requires all.Keys == older.Keys + recent.Keys && durable <= p
    requires forall q | q in older :: q <= durable
    requires forall q | q in recent :: durable < q
    ensures Newest(all, p) == if Newest(recent, p).Some? then Newest(recent, p) else Newest(older, durable)
  {
    assert forall q: nat :: Sequences(all)(q) <==> Sequences(older)(q) || Sequences(recent)(q);
    if Newest(recent, p).Some? {
      assert forall q: nat | Newest(recent, p).value < q <= p :: !Sequences(recent)(q);
      assert forall q: nat | Newest(recent, p).value < q <= p :: !Sequences(all)(q);
      assert Sequences(all)(Newest(recent, p).value);
    } else {
      assert forall q: nat | durable < q <= p :: !Sequences(recent)(q);
      assert forall q: nat | durable < q <= p :: !Sequences(all)(q);
      LatestSkips(Sequences(all), durable, p);
      LatestAgrees(Sequences(all), Sequences(older), durable);
    }
  }

  lemma FlushRefines(store: Store, outputs: seq<Segment>, history: History, kept: set<nat>)
    requires Refines(store, history, kept)
    requires Closes(outputs, 0, store.memtable.Keys)
    requires forall key :: AllVersions(outputs, key) == ChainOf(store.memtable, key)
    requires forall p | p in kept :: p <= store.maximum
    ensures Refines(Flushed(store, outputs), history, kept)
  {
    forall key ensures SoundChain(AllVersions(outputs, key), history, key, store.maximum) {
      TableOfIsSound(history, store.durable, store.maximum, key);
      assert AllVersions(outputs, key) == ChainOf(store.memtable, key);
    }
    ClosedSound(outputs, 0, store.memtable.Keys, history, store.maximum);
    forall key ensures Faithful(store.segments + outputs, history, key, store.maximum) {
      FlushFaithful(store, outputs, history, kept, key, store.maximum);
    }
    forall p, key | p in kept ensures Faithful(store.segments + outputs, history, key, p) {
      FlushFaithful(store, outputs, history, kept, key, p);
    }
  }

  // ----- compaction

  function Compacted(store: Store, others: seq<Segment>, outputs: seq<Segment>): Store {
    store.(segments := others + outputs)
  }

  /** The newest version at a protected sequence survives the pruning. */
  lemma RetainedKeepsNewest(chain: Chain, protectedAt: set<nat>, retainAll: bool, p: nat)
    requires retainAll || p in protectedAt
    ensures var retained := Retained(chain, protectedAt, retainAll);
      && Newest(retained, p) == Newest(chain, p)
      && retained.Keys <= chain.Keys
      && forall q | q in retained :: retained[q] == chain[q]
  {
    var retained := Retained(chain, protectedAt, retainAll);
    var newest := Newest(chain, p);
    assert forall q: nat | q in retained :: Sequences(chain)(q);
    if newest.Some? {
      assert Sequences(retained)(newest.value);
    }
  }

  lemma CompactFaithful(segments: seq<Segment>, selected: set<nat>, outputs: seq<Segment>,
                        history: History, durable: nat, protectedAt: set<nat>, retainAll: bool, key: Key, p: nat)
    requires Sound(segments, history, durable) && Faithful(segments, history, key, p)
    requires forall i | 0 <= i < |segments| :: WellRanged(segments[i])
    requires retainAll || p in protectedAt
    requires var inputs, others := Pick(segments, selected), Leave(segments, selected);
      AllVersions(outputs, key) == KeptChain(inputs, others, protectedAt, retainAll, key)
    ensures Faithful(Leave(segments, selected) + outputs, history, key, p)
  {
    var inputs, others := Pick(segments, selected), Leave(segments, selected);
    var retained := Retained(AllVersions(inputs, key), protectedAt, retainAll);
    hide Pick, Leave, AllVersions, Retained, KeptChain, RetainKey, CoveredBy, Sound, WellRanged;
    KeptChainIs(inputs, others, protectedAt, retainAll, key);
    if RetainKey(retained, retainAll, CoveredBy(others, key)) || retained == map[] {
      KeptFaithful(segments, selected, outputs, history, protectedAt, retainAll, key, p);
    } else {
      ErasedFaithful(segments, selected, outputs, history, durable, protectedAt, retainAll, key, p);
    }
  }

  lemma KeptChainIs(inputs: seq<Segment>, others: seq<Segment>, protectedAt: set<nat>, retainAll: bool, key: Key)
    ensures var retained := Retained(AllVersions(inputs, key), protectedAt, retainAll);
      KeptChain(inputs, others, protectedAt, retainAll, key) ==
        if RetainKey(retained, retainAll, CoveredBy(others, key)) || retained == map[] then retained else map[]
  {
  }

  /** A retained key reads as before. */
  lemma KeptFaithful(segments: seq<Segment>, selected: set<nat>, outputs: seq<Segment>, history: History,
                     protectedAt: set<nat>, retainAll: bool, key: Key, p: nat)
    requires Faithful(segments, history, key, p) && (retainAll || p in protectedAt)
    requires AllVersions(outputs, key) == Retained(AllVersions(Pick(segments, selected), key), protectedAt, retainAll)
    ensures Faithful(Leave(segments, selected) + outputs, history, key, p)
  {
    hide Pick, Leave, AllVersions;
    var inputs, others := Pick(segments, selected), Leave(segments, selected);
    var was, a, b := AllVersions(segments, key), AllVersions(inputs, key), AllVersions(others, key);
    var retained, all := AllVersions(outputs, key), AllVersions(others + outputs, key);
    SplitVersions(segments, selected, key);
    AllVersionsConcat(others, outputs, key);
    RetainedKeepsNewest(a, protectedAt, retainAll, p);
    hide Retained;
    assert all.Keys == retained.Keys + b.Keys;
    SameNewest(was, a, b, retained, all, p);
  }

  /** An erased key held only tombstones, so it read as absent already. */
  lemma ErasedFaithful(segments: seq<Segment>, selected: set<nat>, outputs: seq<Segment>,
                       history: History, durable: nat, protectedAt: set<nat>, retainAll: bool, key: Key, p: nat)
    requires Sound(segments, history, durable) && Faithful(segments, history, key, p)
    requires forall i | 0 <= i < |segments| :: WellRanged(segments[i])
    requires retainAll || p in protectedAt
    requires var retained := Retained(AllVersions(Pick(segments, selected), key), protectedAt, retainAll);
      !RetainKey(retained, retainAll, CoveredBy(Leave(segments, selected), key)) && retained != map[]
    requires AllVersions(outputs, key) == map[]
    ensures Faithful(Leave(segments, selected) + outputs, history, key, p)
  {
    hide Pick, Leave, AllVersions;
    var inputs, others := Pick(segments, selected), Leave(segments, selected);
    var was, a := AllVersions(segments, key), AllVersions(inputs, key);
    var all := AllVersions(others + outputs, key);
    SplitVersions(segments, selected, key);
    SplitMembers(segments, selected);
    AllVersionsConcat(others, outputs, key);
    RetainedKeepsNewest(a, protectedAt, retainAll, p);
    UncoveredEmpty(segments, others, key);
    SoundMembers(segments, inputs, history, durable);
    AllVersionsSound(inputs, history, durable, key);
    assert all == map[];
    EmptyIsNewest(p);
    LatestAgrees(Sequences(was), Sequences(a), p);
    var newest := Newest(was, p);
    if newest.Some? {
      assert Retained(a, protectedAt, retainAll)[newest.value] == None;
    }
  }

  lemma EmptyIsNewest(p: nat)
    ensures Newest(map[], p) == None
  {
    LatestNone(Sequences(map[]), p);
  }

  lemma SameNewest(was: Chain, a: Chain, b: Chain, retained: Chain, all: Chain, p: nat)
    requires was.Keys == a.Keys + b.Keys && all.Keys == retained.Keys + b.Keys
    requires retained.Keys <= a.Keys && Newest(retained, p) == Newest(a, p)
    ensures Newest(all, p) == Newest(was, p)
  {
    var newest := Newest(was, p);
    assert forall q: nat | q in all :: Sequences(was)(q);
    if newest.Some? && newest.value in a {
      assert forall q: nat | newest.value < q <= p :: !Sequences(was)(q);
      assert forall q: nat | newest.value < q <= p :: !Sequences(a)(q);
      assert Sequences(a)(newest.value);
      assert Newest(a, p) == newest;
      assert Sequences(all)(newest.value);
    } else if newest.Some? {
      assert Sequences(all)(newest.value);
    }
  }

  lemma UncoveredEmpty(segments: seq<Segment>, others: seq<Segment>, key: Key)
    requires forall i | 0 <= i < |segments| :: WellRanged(segments[i])
    requires forall s | s in others :: s in segments
    requires !CoveredBy(others, key)
    ensures AllVersions(others, key) == map[]
  {
    forall i | 0 <= i < |others| ensures key !in others[i].chains {
      assert others[i] in segments;
      var j :| 0 <= j < |segments| && segments[j] == others[i];
      assert WellRanged(segments[j]);
    }
    AbsentKey(others, key);
  }

  lemma KeptSound(inputs: seq<Segment>, others: seq<Segment>, protectedAt: set<nat>, retainAll: bool,
                  history: History, durable: nat, key: Key)
    requires Sound(inputs, history, durable)
    ensures SoundChain(KeptChain(inputs, others, protectedAt, retainAll, key), history, key, durable)
  {
    AllVersionsSound(inputs, history, durable, key);
  }

  /** Pruning is invisible at the protected sequences and at `durable`: whatever
      the caller still keeps stays readable. */
  lemma CompactRefines(store: Store, selected: set<nat>, outputs: seq<Segment>, history: History,
                       kept: set<nat>, protectedAt: set<nat>, retainAll: bool, level: nat, still: set<nat>)
    requires Refines(store, history, kept)
    requires forall i | 0 <= i < |store.segments| :: WellRanged(store.segments[i])
    requires var inputs, others := Pick(store.segments, selected), Leave(store.segments, selected);
      && Closes(outputs, level, KeysOf(inputs))
      && forall key :: AllVersions(outputs, key) == KeptChain(inputs, others, protectedAt, retainAll, key)
    requires still <= kept && store.durable in protectedAt
    requires retainAll || forall p | p in still && p <= store.durable :: p in protectedAt
    ensures Refines(Compacted(store, Leave(store.segments, selected), outputs), history, still)
  {
    var inputs, others := Pick(store.segments, selected), Leave(store.segments, selected);
    SplitMembers(store.segments, selected);
    SoundMembers(store.segments, inputs, history, store.durable);
    SoundMembers(store.segments, others, history, store.durable);
    forall key ensures SoundChain(AllVersions(outputs, key), history, key, store.durable) {
      KeptSound(inputs, others, protectedAt, retainAll, history, store.durable, key);
    }
    ClosedSound(outputs, level, KeysOf(inputs), history, store.durable);
    SoundConcat(others, outputs, history, store.durable);
    forall key ensures Faithful(others + outputs, history, key, store.durable) {
      CompactFaithful(store.segments, selected, outputs, history, store.durable, protectedAt, retainAll, key, store.durable);
    }
    forall p, key | p in still && p <= store.durable ensures Faithful(others + outputs, history, key, p) {
      CompactFaithful(store.segments, selected, outputs, history, store.durable, protectedAt, retainAll, key, p);
    }
  }
}
