/** Flushes and compactions: how the store moves versions into immutable
    segments and prunes history, and why no protected read can tell. */
module Maintenance {
  import opened Bytes
  import opened Wrappers
  import opened Batch
  import opened Versions

  // ----- cutting ordered rows into segments

  predicate InRange(segment: Segment, key: Key) {
    Le(segment.first, key) && Le(key, segment.last)
  }

  ghost predicate WellRanged(segment: Segment) {
    forall key | key in segment.chains :: InRange(segment, key)
  }

  /** Rows arrive in ascending key order and are cut when a group would push the
      open segment over the target size. */
  datatype Partitions = Partitions(closed: seq<Segment>, rows: Table, first: Key, last: Key, bytes: nat)

  function Close(p: Partitions, level: nat): seq<Segment> {
    if p.rows == map[] then p.closed else p.closed + [Segment(level, p.first, p.last, p.rows)]
  }

  function AddRow(p: Partitions, key: Key, chain: Chain, size: nat, target: nat, level: nat): Partitions {
    if p.rows == map[] || p.bytes + size > target then
      Partitions(Close(p, level), map[key := chain], key, key, size)
    else
      p.(rows := p.rows[key := chain], last := key, bytes := p.bytes + size)
  }

  /** Segments in ascending, disjoint key ranges. */
  ghost predicate Ascending(segments: seq<Segment>) {
    forall i, j | 0 <= i < j < |segments| :: Lt(segments[i].last, segments[j].first)
  }

  ghost predicate Closes(segments: seq<Segment>, level: nat, keys: set<Key>) {
    && Ascending(segments)
    && forall i | 0 <= i < |segments| ::
      && segments[i].level == level && WellRanged(segments[i])
      && segments[i].first in keys && segments[i].last in keys && Le(segments[i].first, segments[i].last)
  }

  /** The rows added so far are exactly `table`, all below `next`. */
  ghost predicate Holding(p: Partitions, level: nat, table: Table) {
    && Closes(Close(p, level), level, table.Keys)
    && (p.rows != map[] ==> p.first in table.Keys && p.last in table.Keys)
    && (forall key :: AllVersions(Close(p, level), key) == ChainOf(table, key))
  }

  ghost predicate Below(keys: set<Key>, next: Key) {
    forall key | key in keys :: Lt(key, next)
  }

  lemma LtLe(a: Key, b: Key, c: Key)
    requires (Lt(a, b) && Le(b, c)) || (Le(a, b) && Lt(b, c))
    ensures Lt(a, c)
  {
    LeTransitive(a, b, c);
    if a == c {
      LeAntisymmetric(a, b);
    }
  }

  /** A row that opens a new partition. */
  lemma StartLast(p: Partitions, level: nat, table: Table, key: Key, chain: Chain, size: nat, target: nat)
    requires Holding(p, level, table) && Below(table.Keys, key)
    requires p.rows == map[] || p.bytes + size > target
    ensures Holding(AddRow(p, key, chain, size, target, level), level, table[key := chain])
  {
    hide AllVersions;
    var q := AddRow(p, key, chain, size, target, level);
    var before, after := Close(p, level), Close(q, level);
    var added := Segment(level, key, key, map[key := chain]);
    assert key !in table;
    assert key in q.rows;
    assert after == before + [added];
    forall k ensures AllVersions(after, k) == ChainOf(table[key := chain], k) {
      AllVersionsLast(before, added, k);
      assert AllVersions(before, k) == ChainOf(table, k);
    }
    ClosesGrow(before, level, table.Keys, key, added);
    assert table.Keys + {key} == table[key := chain].Keys;
  }

  lemma ClosesGrow(before: seq<Segment>, level: nat, keys: set<Key>, key: Key, added: Segment)
    requires Closes(before, level, keys) && Below(keys, key)
    requires added.level == level && added.first == key && added.last == key && added.chains.Keys == {key}
    ensures Closes(before + [added], level, keys + {key})
  {
    LeReflexive(key);
  }

  lemma AddRowHolds(p: Partitions, level: nat, table: Table, key: Key, chain: Chain, size: nat, target: nat)
    requires Holding(p, level, table) && Below(table.Keys, key)
    ensures Holding(AddRow(p, key, chain, size, target, level), level, table[key := chain])
  {
    if p.rows == map[] || p.bytes + size > target {
      StartLast(p, level, table, key, chain, size, target);
    } else {
      ExtendLast(p, level, table, key, chain, size, target);
    }
  }

  lemma ExtendLast(p: Partitions, level: nat, table: Table, key: Key, chain: Chain, size: nat, target: nat)
    requires Holding(p, level, table) && Below(table.Keys, key) && key !in table
    requires p.rows != map[] && p.bytes + size <= target
    ensures Holding(AddRow(p, key, chain, size, target, level), level, table[key := chain])
  {
    var q := AddRow(p, key, chain, size, target, level);
    hide AllVersions;
    var open, grown := Segment(level, p.first, p.last, p.rows), Segment(level, p.first, key, p.rows[key := chain]);
    var n := |p.closed|;
    var before, after := Close(p, level), Close(q, level);
    assert before == p.closed + [open] && after == p.closed + [grown];
    assert before[n] == open;
    LeReflexive(key);
    LtLe(p.first, key, key);
    forall k | k in grown.chains ensures InRange(grown, k) {
      if k != key {
        assert InRange(open, k);
        LeTransitive(k, p.last, key);
      }
    }
    assert key in q.rows;
    forall k ensures AllVersions(after, k) == ChainOf(table[key := chain], k) {
      AllVersionsLast(p.closed, open, k);
      AllVersionsLast(p.closed, grown, k);
      if k == key {
        assert AllVersions(before, key) == map[];
        assert forall i | i in AllVersions(p.closed, key) :: i in AllVersions(before, key);
      }
    }
    forall i, j | 0 <= i < j < |after| ensures Lt(after[i].last, after[j].first) {
      assert Lt(before[i].last, before[j].first);
    }
    forall i | 0 <= i < |after| ensures after[i].level == level && WellRanged(after[i])
      && after[i].first in table[key := chain] && after[i].last in table[key := chain]
      && Le(after[i].first, after[i].last)
    {
      assert i < n ==> after[i] == before[i];
    }
  }

  /** The partition loop of `flush_memtable_inner`. */
  method WritePartitions(table: Table, level: nat, target: nat, sizeOf: (Key, Chain) -> nat)
    returns (outputs: seq<Segment>)
    ensures Closes(outputs, level, table.Keys)
    ensures forall key :: AllVersions(outputs, key) == ChainOf(table, key)
  {
    var p := Partitions([], map[], [], [], 0);
    var remaining := table.Keys;
    ghost var added: Table := map[];
    while remaining != {}
      invariant remaining <= table.Keys
      invariant added == table - remaining
      invariant Holding(p, level, added)
      invariant forall key, next | key in added && next in remaining :: Lt(key, next)
    {
      var key := TakeLeast(remaining);
      LeastIsBelow(remaining, key);
      AddRowHolds(p, level, added, key, table[key], sizeOf(key, table[key]), target);
      p := AddRow(p, key, table[key], sizeOf(key, table[key]), target, level);
      added := added[key := table[key]];
      remaining := remaining - {key};
    }
    assert added == table;
    outputs := Close(p, level);
  }

  // ----- merging and pruning

  /** The versions a pruning merge keeps: for each protected sequence the newest
      version at or below it. */
  function Retained(chain: Chain, protectedAt: set<nat>, retainAll: bool): Chain {
    if retainAll then chain
    else map q | q in chain && (exists p | p in protectedAt :: Newest(chain, p) == Some(q)) :: chain[q]
  }

  predicate CoveredBy(segments: seq<Segment>, key: Key) {
    exists i | 0 <= i < |segments| :: InRange(segments[i], key)
  }

  /** `retain_compacted_key`: a key whose retained versions are all tombstones is
      dropped when no segment outside the merge could hold an older version. */
  predicate RetainKey(retained: Chain, retainAll: bool, shadows: bool) {
    retained != map[] && (retainAll || (exists q | q in retained :: retained[q].Some?) || shadows)
  }

  function KeptChain(inputs: seq<Segment>, others: seq<Segment>, protectedAt: set<nat>, retainAll: bool, key: Key): Chain {
    var retained := Retained(AllVersions(inputs, key), protectedAt, retainAll);
    if RetainKey(retained, retainAll, CoveredBy(others, key)) then retained else map[]
  }

  /** No two segments give one version two different cells. */
  ghost predicate Agree(segments: seq<Segment>) {
    forall i, j, key, q | 0 <= i < |segments| && 0 <= j < |segments|
      && q in ChainOf(segments[i].chains, key) && q in ChainOf(segments[j].chains, key) ::
      ChainOf(segments[i].chains, key)[q] == ChainOf(segments[j].chains, key)[q]
  }

  lemma {:induction false} VersionOrigin(segments: seq<Segment>, key: Key, q: nat) returns (i: nat)
    requires q in AllVersions(segments, key)
    ensures i < |segments| && q in ChainOf(segments[i].chains, key)
    ensures ChainOf(segments[i].chains, key)[q] == AllVersions(segments, key)[q]
  {
    var n := |segments| - 1;
    if q in AllVersions(segments[..n], key) {
      i := VersionOrigin(segments[..n], key, q);
    } else {
      i := n;
    }
  }

  /** One key of the merge: every input's versions, or the disagreement error. */
  method CollectVersions(inputs: seq<Segment>, key: Key) returns (versions: Option<Chain>)
    ensures versions.Some? ==> versions.value == AllVersions(inputs, key)
    ensures versions.None? ==> !Agree(inputs)
  {
    var chain: Chain := map[];
    for i := 0 to |inputs|
      invariant chain == AllVersions(inputs[..i], key)
    {
      var observed := ChainOf(inputs[i].chains, key);
      if q :| q in observed && q in chain && observed[q] != chain[q] {
        ghost var j := VersionOrigin(inputs[..i], key, q);
        assert inputs[..i][j] == inputs[j];
        return None;
      }
      AllVersionsLast(inputs[..i], inputs[i], key);
      assert inputs[..i + 1] == inputs[..i] + [inputs[i]];
      chain := observed + chain;
    }
    assert inputs[..|inputs|] == inputs;
    versions := Some(chain);
  }

  function KeysOf(segments: seq<Segment>): set<Key> {
    set i, key | 0 <= i < |segments| && key in segments[i].chains :: key
  }

  lemma AbsentKey(segments: seq<Segment>, key: Key)
    requires key !in KeysOf(segments)
    ensures AllVersions(segments, key) == map[]
  {
    if q :| q in AllVersions(segments, key) {
      var i := VersionOrigin(segments, key, q);
    }
  }

  /** One round of the merge loop: all versions of one key, pruned, then added to
      the open segment or dropped. */
  method MergeKey(inputs: seq<Segment>, others: seq<Segment>, protectedAt: set<nat>, retainAll: bool,
                  level: nat, target: nat, sizeOf: (Key, Chain) -> nat,
                  p: Partitions, ghost added: Table, key: Key)
    returns (next: Option<Partitions>)
    requires Holding(p, level, added) && Below(added.Keys, key)
    ensures next.None? ==> !Agree(inputs)
    ensures var kept := KeptChain(inputs, others, protectedAt, retainAll, key);
      next.Some? ==> Holding(next.value, level, if kept == map[] then added else added[key := kept])
  {
    hide Holding, AddRow;
    var versions := CollectVersions(inputs, key);
    if versions.None? {
      return None;
    }
    var retained := Retained(versions.value, protectedAt, retainAll);
    if RetainKey(retained, retainAll, CoveredBy(others, key)) {
      AddRowHolds(p, level, added, key, retained, sizeOf(key, retained), target);
      next := Some(AddRow(p, key, retained, sizeOf(key, retained), target, level));
    } else {
      next := Some(p);
    }
  }

  /** `merge_compaction_candidate`: keys in ascending order, cut into target-level
      segments. */
  method Merge(inputs: seq<Segment>, others: seq<Segment>, protectedAt: set<nat>, retainAll: bool,
               level: nat, target: nat, sizeOf: (Key, Chain) -> nat)
    returns (outputs: Option<seq<Segment>>)
    ensures outputs.None? ==> !Agree(inputs)
    ensures outputs.Some? ==> Closes(outputs.value, level, KeysOf(inputs))
    ensures outputs.Some? ==>
      forall key :: AllVersions(outputs.value, key) == KeptChain(inputs, others, protectedAt, retainAll, key)
  {
    hide KeptChain, AddRow, AllVersions, Closes, Agree;
    var p := Partitions([], map[], [], [], 0);
    var remaining := KeysOf(inputs);
    ghost var added: Table := map[];
    NothingKept(inputs, others, protectedAt, retainAll);
    NothingHeld(level);
    while remaining != {}
      invariant remaining <= KeysOf(inputs)
      invariant added.Keys <= KeysOf(inputs) - remaining
      invariant Holding(p, level, added)
      invariant forall key, next | key in added && next in remaining :: Lt(key, next)
      invariant forall key | key !in remaining ::
        ChainOf(added, key) == KeptChain(inputs, others, protectedAt, retainAll, key)
    {
      hide Holding;
      var key := TakeLeast(remaining);
      LeastIsBelow(remaining, key);
      var next := MergeKey(inputs, others, protectedAt, retainAll, level, target, sizeOf, p, added, key);
      if next.None? {
        return None;
      }
      p := next.value;
      ghost var kept := KeptChain(inputs, others, protectedAt, retainAll, key);
      added := if kept == map[] then added else added[key := kept];
      remaining := remaining - {key};
    }
    ClosesWidens(Close(p, level), level, added.Keys, KeysOf(inputs));
    outputs := Some(Close(p, level));
  }

  lemma NothingHeld(level: nat)
    ensures Holding(Partitions([], map[], [], [], 0), level, map[])
  {
  }

  lemma NothingKept(inputs: seq<Segment>, others: seq<Segment>, protectedAt: set<nat>, retainAll: bool)
    ensures forall key | key !in KeysOf(inputs) ::
      KeptChain(inputs, others, protectedAt, retainAll, key) == map[]
  {
    forall key | key !in KeysOf(inputs)
      ensures KeptChain(inputs, others, protectedAt, retainAll, key) == map[]
    {
      AbsentKey(inputs, key);
    }
  }

  lemma ClosesWidens(segments: seq<Segment>, level: nat, keys: set<Key>, more: set<Key>)
    requires Closes(segments, level, keys) && keys <= more
    ensures Closes(segments, level, more)
  {
  }
}
