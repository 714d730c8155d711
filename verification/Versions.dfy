/** The multi-version key-value store: an ordered memtable over immutable
    segments, with flushes and history-pruning compactions. The reference it is
    proved against is the plain list of every mutation ever committed. */
module Versions {
  import opened Wrappers
  import opened Batch

  /** A stored value; `None` is a tombstone. */
  type Cell = Option<Value>
  /** The versions of one key: chains hold strictly ascending sequences, so a chain
      is a finite map from sequence to cell. */
  type Chain = map<nat, Cell>
  type Table = map<Key, Chain>

  datatype Segment = Segment(level: nat, first: Key, last: Key, chains: Table)

  /** Every version in `segments` has a sequence of at most `durable`; the memtable
      holds the versions after it, up to `maximum`. */
  datatype Store = Store(memtable: Table, maximum: nat, segments: seq<Segment>, durable: nat)

  // ----- the reference: the list of all mutations, numbered from 1

  type History = seq<Mutation>

  function CellOf(m: Mutation): Cell {
    if m.Put? then Some(m.value) else None
  }

  /** The largest index at most `bound` that satisfies `p`. */
  function Latest(p: nat -> bool, bound: nat): (r: Option<nat>)
    ensures r.Some? ==> r.value <= bound && p(r.value)
    ensures forall q: nat | q <= bound && (r.Some? ==> r.value < q) :: !p(q)
  {
    if p(bound) then Some(bound)
    else if bound == 0 then None
    else Latest(p, bound - 1)
  }

  predicate Writes(history: History, key: Key, q: nat) {
    1 <= q <= |history| && history[q - 1].key == key
  }

  function WritesTo(history: History, key: Key): nat -> bool {
    (q: nat) => Writes(history, key, q)
  }

  /** The last mutation of `key` among the first `bound`. */
  function LastWrite(history: History, key: Key, bound: nat): Option<nat> {
    Latest(WritesTo(history, key), bound)
  }

  /** What a reader of the first `bound` mutations sees at `key`. */
  function ReadAt(history: History, key: Key, bound: nat): Option<Value> {
    match LastWrite(history, key, bound)
    case None => None
    case Some(q) => CellOf(history[q - 1])
  }

  // ----- reads of the physical store

  function ChainOf(table: Table, key: Key): Chain {
    if key in table then table[key] else map[]
  }

  function Sequences(chain: Chain): nat -> bool {
    (q: nat) => q in chain
  }

  /** `get_version` and `versions.range(..=s).next_back()`. */
  function Newest(chain: Chain, bound: nat): Option<nat> {
    Latest(Sequences(chain), bound)
  }

  /** All versions of `key` in `segments`; an earlier segment wins a tie. */
  function AllVersions(segments: seq<Segment>, key: Key): Chain {
    if segments == [] then map[]
    else ChainOf(segments[|segments| - 1].chains, key) + AllVersions(segments[..|segments| - 1], key)
  }

  function Get(store: Store, key: Key, bound: nat): Option<Value> {
    var recent := ChainOf(store.memtable, key);
    match Newest(recent, bound)
    case Some(q) => recent[q]
    case None =>
      var older := AllVersions(store.segments, key);
      match Newest(older, bound)
      case None => None
      case Some(q) => older[q]
  }

  /** `latest_sequence_for_key`: the sequence conflict detection looks at. */
  function LatestStored(store: Store, key: Key): Option<nat> {
    var recent := Newest(ChainOf(store.memtable, key), store.maximum);
    if recent.Some? then recent else Newest(AllVersions(store.segments, key), store.maximum)
  }

  // ----- what the store must keep

  predicate SoundChain(chain: Chain, history: History, key: Key, durable: nat) {
    forall q | q in chain ::
      1 <= q <= durable && Writes(history, key, q) && chain[q] == CellOf(history[q - 1])
  }

  /** No segment invents or misplaces a version. */
  ghost predicate Sound(segments: seq<Segment>, history: History, durable: nat) {
    forall i, key | 0 <= i < |segments| && key in segments[i].chains ::
      SoundChain(segments[i].chains[key], history, key, durable)
  }

  /** A read of the segments at `bound` finds the last write itself, or finds nothing
      because that write (if any) was a deletion whose tombstone has been erased. */
  predicate Faithful(segments: seq<Segment>, history: History, key: Key, bound: nat) {
    || Newest(AllVersions(segments, key), bound) == LastWrite(history, key, bound)
    || (Newest(AllVersions(segments, key), bound) == None && ReadAt(history, key, bound) == None)
  }

  function Insert(table: Table, key: Key, sequence: nat, cell: Cell): Table {
    table[key := ChainOf(table, key)[sequence := cell]]
  }

  /** The table that replaying mutations `after + 1` to `upto` builds. */
  function TableOf(history: History, after: nat, upto: nat): Table
    requires upto <= |history|
    decreases upto
  {
    if upto <= after then map[]
    else Insert(TableOf(history, after, upto - 1), history[upto - 1].key, upto, CellOf(history[upto - 1]))
  }

  /** The store answers for `history` at every sequence in `kept` and at every
      sequence from `durable` on. */
  ghost predicate Refines(store: Store, history: History, kept: set<nat>) {
    && store.durable <= store.maximum == |history|
    && store.memtable == TableOf(history, store.durable, store.maximum)
    && Sound(store.segments, history, store.durable)
    && (forall key :: Faithful(store.segments, history, key, store.durable))
    && (forall p, key | p in kept && p <= store.durable :: Faithful(store.segments, history, key, p))
  }

  // ----- facts about the reference and the chains

  lemma LatestAgrees(p: nat -> bool, q: nat -> bool, bound: nat)
    requires forall i: nat | i <= bound :: p(i) == q(i)
    ensures Latest(p, bound) == Latest(q, bound)
  {
  }

  lemma LatestSkips(p: nat -> bool, low: nat, high: nat)
    requires low <= high && forall i: nat | low < i <= high :: !p(i)
    ensures Latest(p, high) == Latest(p, low)
  {
  }

  /** A read depends only on the mutations up to its own sequence. */
  lemma ReadAtPrefix(history: History, longer: History, key: Key, bound: nat)
    requires history <= longer && bound <= |history|
    ensures LastWrite(longer, key, bound) == LastWrite(history, key, bound)
    ensures ReadAt(longer, key, bound) == ReadAt(history, key, bound)
  {
    LatestAgrees(WritesTo(history, key), WritesTo(longer, key), bound);
  }

  /** The chain holds exactly the writes of `key` after `after` up to `upto`. */
  ghost predicate HoldsWrites(chain: Chain, history: History, key: Key, after: nat, upto: nat) {
    && (forall q | q in chain :: after < q <= upto && Writes(history, key, q) && chain[q] == CellOf(history[q - 1]))
    && (forall q: nat | after < q <= upto && Writes(history, key, q) :: q in chain)
  }

  lemma {:induction false} TableOfHolds(history: History, after: nat, upto: nat, key: Key)
    requires upto <= |history|
    ensures HoldsWrites(ChainOf(TableOf(history, after, upto), key), history, key, after, upto)
    decreases upto
  {
    if upto > after {
      TableOfHolds(history, after, upto - 1, key);
      var m, before := history[upto - 1], ChainOf(TableOf(history, after, upto - 1), key);
      var chain := ChainOf(TableOf(history, after, upto), key);
      assert chain == if m.key == key then before[upto := CellOf(m)] else before;
      HoldsOneMore(before, history, key, after, upto);
    }
  }

  lemma HoldsOneMore(before: Chain, history: History, key: Key, after: nat, upto: nat)
    requires after < upto <= |history| && HoldsWrites(before, history, key, after, upto - 1)
    ensures var m := history[upto - 1];
      HoldsWrites(if m.key == key then before[upto := CellOf(m)] else before, history, key, after, upto)
  {
    assert Writes(history, key, upto) <==> history[upto - 1].key == key;
  }

  lemma TableOfIsSound(history: History, after: nat, upto: nat, key: Key)
    requires upto <= |history|
    ensures SoundChain(ChainOf(TableOf(history, after, upto), key), history, key, upto)
  {
    TableOfHolds(history, after, upto, key);
  }

  lemma {:induction false} TableOfPrefix(history: History, longer: History, after: nat, upto: nat)
    requires history <= longer && upto <= |history|
    ensures TableOf(history, after, upto) == TableOf(longer, after, upto)
    decreases upto
  {
    if upto > after {
      TableOfPrefix(history, longer, after, upto - 1);
    }
  }

  lemma {:induction false} AllVersionsSound(segments: seq<Segment>, history: History, durable: nat, key: Key)
    requires Sound(segments, history, durable)
    ensures SoundChain(AllVersions(segments, key), history, key, durable)
  {
    if segments != [] {
      var n := |segments| - 1;
      assert forall i | 0 <= i < n :: segments[..n][i] == segments[i];
      AllVersionsSound(segments[..n], history, durable, key);
      assert key in segments[n].chains ==> SoundChain(segments[n].chains[key], history, key, durable);
    }
  }

  lemma AllVersionsLast(segments: seq<Segment>, last: Segment, key: Key)
    ensures AllVersions(segments + [last], key) == ChainOf(last.chains, key) + AllVersions(segments, key)
  {
    assert (segments + [last])[..|segments|] == segments;
  }

  lemma Layers(top: Chain, middle: Chain, bottom: Chain)
    ensures top + (middle + bottom) == (top + middle) + bottom
  {
  }

  lemma {:induction false} AllVersionsConcat(left: seq<Segment>, right: seq<Segment>, key: Key)
    ensures AllVersions(left + right, key) == AllVersions(right, key) + AllVersions(left, key)
  {
    if right == [] {
      assert left + right == left;
    } else {
      var n := |right| - 1;
      AllVersionsConcat(left, right[..n], key);
      assert left + right == left + right[..n] + [right[n]] && right == right[..n] + [right[n]];
      AllVersionsLast(left + right[..n], right[n], key);
      AllVersionsLast(right[..n], right[n], key);
      hide AllVersions;
      Layers(ChainOf(right[n].chains, key), AllVersions(right[..n], key), AllVersions(left, key));
    }
  }

  /** The memtable decides every read after `durable`. */
  lemma RecentIsLastWrite(history: History, durable: nat, maximum: nat, key: Key, bound: nat)
    requires durable <= bound <= maximum <= |history|
    ensures var recent := ChainOf(TableOf(history, durable, maximum), key);
      && LastWrite(history, key, bound)
      == (if Newest(recent, bound).Some? then Newest(recent, bound) else LastWrite(history, key, durable))
      && (Newest(recent, bound).Some? ==>
          Newest(recent, bound).value > durable
          && recent[Newest(recent, bound).value] == CellOf(history[Newest(recent, bound).value - 1]))
  {
    TableOfHolds(history, durable, maximum, key);
    var recent, p := ChainOf(TableOf(history, durable, maximum), key), WritesTo(history, key);
    hide TableOf;
    var newest := Newest(recent, bound);
    assert forall q: nat | durable < q <= bound :: Sequences(recent)(q) == p(q);
    if newest.Some? {
      assert p(newest.value);
      assert forall q: nat | newest.value < q <= bound :: !p(q);
    } else {
      assert forall q: nat | durable < q <= bound :: !p(q);
      LatestSkips(p, durable, bound);
    }
  }

  /** Segments hold nothing after `durable`. */
  lemma OlderSkips(segments: seq<Segment>, history: History, durable: nat, key: Key, bound: nat)
    requires Sound(segments, history, durable) && durable <= bound
    ensures Newest(AllVersions(segments, key), bound) == Newest(AllVersions(segments, key), durable)
  {
    AllVersionsSound(segments, history, durable, key);
    LatestSkips(Sequences(AllVersions(segments, key)), durable, bound);
  }

  lemma RecentIsLater(history: History, durable: nat, maximum: nat, key: Key, bound: nat)
    requires bound <= durable && maximum <= |history|
    ensures Newest(ChainOf(TableOf(history, durable, maximum), key), bound) == None
  {
    TableOfHolds(history, durable, maximum, key);
    LaterChain(ChainOf(TableOf(history, durable, maximum), key), bound);
  }

  lemma LaterChain(chain: Chain, bound: nat)
    requires forall q | q in chain :: bound < q
    ensures Newest(chain, bound) == None
  {
    LatestNone(Sequences(chain), bound);
  }

  lemma LatestNone(p: nat -> bool, bound: nat)
    requires forall i: nat | i <= bound :: !p(i)
    ensures Latest(p, bound) == None
  {
  }

  /** The store returns what the history holds, at every sequence it still keeps. */
  lemma GetIsReadAt(store: Store, history: History, kept: set<nat>, key: Key, bound: nat)
    requires Refines(store, history, kept)
    requires bound in kept || store.durable <= bound
    requires bound <= store.maximum
    ensures Get(store, key, bound) == ReadAt(history, key, bound)
  {
    AllVersionsSound(store.segments, history, store.durable, key);
    hide TableOf, AllVersions;
    if bound < store.durable {
      RecentIsLater(history, store.durable, store.maximum, key, bound);
      assert Faithful(store.segments, history, key, bound);
    } else {
      RecentIsLastWrite(history, store.durable, store.maximum, key, bound);
      OlderSkips(store.segments, history, store.durable, key, bound);
      assert Faithful(store.segments, history, key, store.durable);
    }
  }

  /** What conflict detection reads: the last write, unless that was a deletion of
      which no version is stored any more. */
  lemma LatestStoredIsLastWrite(store: Store, history: History, kept: set<nat>, key: Key)
    requires Refines(store, history, kept)
    ensures
      || LatestStored(store, key) == LastWrite(history, key, store.maximum)
      || (LatestStored(store, key) == None && ReadAt(history, key, store.maximum) == None)
  {
    RecentIsLastWrite(history, store.durable, store.maximum, key, store.maximum);
    OlderSkips(store.segments, history, store.durable, key, store.maximum);
    assert Faithful(store.segments, history, key, store.durable);
  }
}
