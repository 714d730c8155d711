/** The key-range discipline of the levels: below level zero the segments of one
    level never overlap, which is what the manifest validator demands and what
    lets a merge rewrite a key range in one place. */
module Levels {
  import opened Bytes
  import opened Wrappers
  import opened Sorting
  import opened Batch
  import opened Versions
  import opened Maintenance
  import opened Compaction

  predicate Apart(a: Segment, b: Segment) {
    Lt(a.last, b.first) || Lt(b.last, a.first)
  }

  ghost predicate LevelsApart(segments: seq<Segment>) {
    forall i, j | 0 <= i < j < |segments| && segments[i].level == segments[j].level > 0 ::
      Apart(segments[i], segments[j])
  }

  ghost predicate Ranged(segments: seq<Segment>) {
    forall i | 0 <= i < |segments| :: WellRanged(segments[i]) && Le(segments[i].first, segments[i].last)
  }

  /** `ranges_overlap`. */
  predicate Overlaps(first: Key, last: Key, segment: Segment) {
    Le(first, segment.last) && Le(segment.first, last)
  }

  /** All segments of the target level that meet the sources' key range. */
  function Targets(segments: seq<Segment>, first: Key, last: Key, target: nat): set<nat> {
    set i: nat | i < |segments| && segments[i].level == target && Overlaps(first, last, segments[i])
  }

  ghost predicate Hull(segments: seq<Segment>, sources: seq<nat>, first: Key, last: Key) {
    forall k | 0 <= k < |sources| ::
      && sources[k] < |segments|
      && Le(first, segments[sources[k]].first) && Le(segments[sources[k]].last, last)
  }

  /** Both ends of the range belong to sources. */
  ghost predicate Tight(segments: seq<Segment>, sources: seq<nat>, first: Key, last: Key) {
    && (exists k :: 0 <= k < |sources| && sources[k] < |segments| && segments[sources[k]].first == first)
    && (exists k :: 0 <= k < |sources| && sources[k] < |segments| && segments[sources[k]].last == last)
  }

  /** The least first key and the greatest last key of the sources. */
  method KeyHull(segments: seq<Segment>, sources: seq<nat>) returns (low: Key, high: Key)
    requires sources != [] && forall k | 0 <= k < |sources| :: sources[k] < |segments|
    ensures Hull(segments, sources, low, high) && Tight(segments, sources, low, high)
  {
    low, high := segments[sources[0]].first, segments[sources[0]].last;
    assert sources[0] < |segments|;
    LeReflexive(low);
    LeReflexive(high);
    for k := 1 to |sources|
      invariant forall j | 0 <= j < k :: Le(low, segments[sources[j]].first) && Le(segments[sources[j]].last, high)
      invariant Tight(segments, sources, low, high)
    {
      var s := segments[sources[k]];
      LeTotal(low, s.first);
      LeTotal(s.last, high);
      LeReflexive(s.first);
      LeReflexive(s.last);
      forall j | 0 <= j < k
        ensures Le(s.first, low) ==> Le(s.first, segments[sources[j]].first)
        ensures Le(high, s.last) ==> Le(segments[sources[j]].last, s.last)
      {
        if Le(s.first, low) { LeTransitive(s.first, low, segments[sources[j]].first); }
        if Le(high, s.last) { LeTransitive(segments[sources[j]].last, high, s.last); }
      }
      low := if Le(s.first, low) then s.first else low;
      high := if Le(high, s.last) then s.last else high;
    }
  }

  /** `compaction_overlap_candidate`: the sources with their complete target-level
      overlap, or nothing when that is more than one maintenance quantum. */
  method OverlapCandidate(segments: seq<Segment>, sources: seq<nat>, sourceLevel: nat, limit: nat)
    returns (selected: Option<set<nat>>, first: Key, last: Key)
    requires sources != [] && forall k | 0 <= k < |sources| :: sources[k] < |segments|
    ensures Hull(segments, sources, first, last) && Tight(segments, sources, first, last)
    ensures selected.Some? ==>
      selected.value == (set i | i in sources) + Targets(segments, first, last, sourceLevel + 1)
    ensures selected.None? <==>
      var targets := Targets(segments, first, last, sourceLevel + 1);
      targets != {} && |sources| + |targets| > limit
    ensures QuantumAllows(segments, sources, sourceLevel, limit, selected.Some?)
  {
    hide Le;
    var low, high := KeyHull(segments, sources);
    first, last := low, high;
    var found: set<nat> := {};
    for i := 0 to |segments|
      invariant found == set j: nat | j < i && segments[j].level == sourceLevel + 1 && Overlaps(low, high, segments[j])
      invariant found == {} || |sources| + |found| <= limit
    {
      if segments[i].level == sourceLevel + 1 && Overlaps(low, high, segments[i]) {
        found := found + {i};
        if |sources| + |found| > limit {
          SubsetIsNoLarger(found, Targets(segments, low, high, sourceLevel + 1));
          return None, first, last;
        }
      }
    }
    assert found == Targets(segments, low, high, sourceLevel + 1);
    selected := Some((set i | i in sources) + found);
  }

  /** Whether the sources and all segments of the next level that meet their range fit
      one quantum; without such a segment they always do. */
  ghost predicate QuantumAllows(segments: seq<Segment>, sources: seq<nat>, sourceLevel: nat, limit: nat, allowed: bool) {
    exists first, last :: Hull(segments, sources, first, last) && Tight(segments, sources, first, last)
      && Allows(segments, sources, first, last, sourceLevel, limit) == allowed
  }

  ghost predicate Allows(segments: seq<Segment>, sources: seq<nat>, first: Key, last: Key, sourceLevel: nat, limit: nat) {
    var targets := Targets(segments, first, last, sourceLevel + 1);
    targets == {} || |sources| + |targets| <= limit
  }

  lemma NotLe(a: Key, b: Key)
    requires !Le(a, b)
    ensures Lt(b, a)
  {
    LeTotal(a, b);
    LeReflexive(a);
  }

  /** A segment left alone at the target level is on one side of everything merged. */
  lemma LeftAloneIsApart(segments: seq<Segment>, sources: seq<nat>, first: Key, last: Key, target: nat, x: nat, i: nat, key: Key)
    requires Ranged(segments) && LevelsApart(segments) && Hull(segments, sources, first, last)
    requires x < |segments| && i < |segments| && target > 0
    requires segments[x].level == target && !Overlaps(first, last, segments[x])
    requires i in sources || (segments[i].level == target && Overlaps(first, last, segments[i]))
    requires key in segments[i].chains
    ensures Lt(segments[x].last, first) ==> Lt(segments[x].last, key)
    ensures Lt(last, segments[x].first) ==> Lt(key, segments[x].first)
  {
    var X, S := segments[x], segments[i];
    assert InRange(S, key);
    if i in sources {
      LeTransitive(first, S.first, key);
      LeTransitive(key, S.last, last);
      if Lt(X.last, first) { LtLe(X.last, first, key); }
      if Lt(last, X.first) { LtLe(key, last, X.first); }
    } else {
      assert x < i ==> Apart(X, S);
      assert i < x ==> Apart(S, X);
      if Lt(X.last, first) {
        LtLe(X.last, first, S.last);
        if Lt(S.last, X.first) {
          LtLe(S.last, X.first, X.last);
          LeAntisymmetric(S.last, X.last);
        }
        LtLe(X.last, S.first, key);
      }
      if Lt(last, X.first) {
        LtLe(S.first, last, X.first);
        if Lt(X.last, S.first) {
          LtLe(X.first, X.last, S.first);
          LeAntisymmetric(X.first, S.first);
        }
        LtLe(key, S.last, X.first);
      }
    }
  }

  lemma {:induction false} PickIndex(segments: seq<Segment>, selected: set<nat>, s: Segment) returns (i: nat)
    requires s in Pick(segments, selected)
    ensures i < |segments| && i in selected && segments[i] == s
  {
    var n := |segments| - 1;
    if s in Pick(segments[..n], selected) {
      i := PickIndex(segments[..n], selected, s);
    } else {
      i := n;
    }
  }

  lemma {:induction false} LeaveIndex(segments: seq<Segment>, selected: set<nat>, s: Segment) returns (i: nat)
    requires s in Leave(segments, selected)
    ensures i < |segments| && i !in selected && segments[i] == s
  {
    var n := |segments| - 1;
    if s in Leave(segments[..n], selected) {
      i := LeaveIndex(segments[..n], selected, s);
    } else {
      i := n;
    }
  }

  lemma {:induction false} LeaveApart(segments: seq<Segment>, selected: set<nat>)
    requires LevelsApart(segments)
    ensures LevelsApart(Leave(segments, selected))
  {
    if segments != [] {
      var n := |segments| - 1;
      var front, rest := segments[..n], Leave(segments[..n], selected);
      LeaveApart(front, selected);
      if n !in selected {
        forall i | 0 <= i < |rest| && rest[i].level == segments[n].level > 0
          ensures Apart(rest[i], segments[n])
        {
          var k := LeaveIndex(front, selected, rest[i]);
        }
      }
    }
  }

  /** A merge of a closed candidate keeps every level free of overlaps. */
  lemma CompactionKeepsLevelsApart(segments: seq<Segment>, sources: seq<nat>, first: Key, last: Key,
                                   sourceLevel: nat, selected: set<nat>, outputs: seq<Segment>)
    requires Ranged(segments) && LevelsApart(segments) && Hull(segments, sources, first, last)
    requires selected == (set i | i in sources) + Targets(segments, first, last, sourceLevel + 1)
    requires Closes(outputs, sourceLevel + 1, KeysOf(Pick(segments, selected)))
    ensures LevelsApart(Leave(segments, selected) + outputs)
    ensures Ranged(Leave(segments, selected) + outputs)
  {
    var inputs, others := Pick(segments, selected), Leave(segments, selected);
    LeaveApart(segments, selected);
    forall i, j | 0 <= i < |others| && 0 <= j < |outputs| && others[i].level == sourceLevel + 1
      ensures Apart(others[i], outputs[j])
    {
      var x := LeaveIndex(segments, selected, others[i]);
      assert !Overlaps(first, last, segments[x]);
      OutputApart(segments, sources, first, last, sourceLevel, selected, x, outputs[j]);
    }
    forall i | 0 <= i < |others| ensures WellRanged(others[i]) && Le(others[i].first, others[i].last) {
      var x := LeaveIndex(segments, selected, others[i]);
    }
  }

  lemma OutputApart(segments: seq<Segment>, sources: seq<nat>, first: Key, last: Key, sourceLevel: nat,
                    selected: set<nat>, x: nat, output: Segment)
    requires Ranged(segments) && LevelsApart(segments) && Hull(segments, sources, first, last)
    requires selected == (set i | i in sources) + Targets(segments, first, last, sourceLevel + 1)
    requires x < |segments| && segments[x].level == sourceLevel + 1 && !Overlaps(first, last, segments[x])
    requires output.first in KeysOf(Pick(segments, selected)) && output.last in KeysOf(Pick(segments, selected))
    ensures Apart(segments[x], output)
  {
    var a := InputOf(segments, selected, output.first);
    var b := InputOf(segments, selected, output.last);
    LeftAloneIsApart(segments, sources, first, last, sourceLevel + 1, x, a, output.first);
    LeftAloneIsApart(segments, sources, first, last, sourceLevel + 1, x, b, output.last);
    if Le(first, segments[x].last) {
      NotLe(segments[x].first, last);
    } else {
      NotLe(first, segments[x].last);
    }
  }

  lemma InputOf(segments: seq<Segment>, selected: set<nat>, key: Key) returns (i: nat)
    requires key in KeysOf(Pick(segments, selected))
    ensures i < |segments| && i in selected && key in segments[i].chains
  {
    var inputs := Pick(segments, selected);
    var k :| 0 <= k < |inputs| && key in inputs[k].chains;
    i := PickIndex(segments, selected, inputs[k]);
  }
}
