/** The bounded range scan of a transaction: an ordered merge of the snapshot's rows
    with the buffered writes, stopping at a row limit. */
module TransactionScan {
  import opened Bytes
  import opened Wrappers
  import opened Batch
  import opened Versions
  import opened Transactions

  type Row = (Key, Value)
  type Pending = (Key, Cell)

  ghost predicate AscendingRows(rows: seq<Row>) {
    forall i, j | 0 <= i < j < |rows| :: Lt(rows[i].0, rows[j].0)
  }

  ghost predicate AscendingPending(pending: seq<Pending>) {
    forall i, j | 0 <= i < j < |pending| :: Lt(pending[i].0, pending[j].0)
  }

  /** A buffered put, or a snapshot row whose key has no buffered write. */
  ghost predicate Visible(base: seq<Row>, pending: seq<Pending>, row: Row) {
    || (row.0, Some(row.1)) in pending
    || (row in base && forall j | 0 <= j < |pending| :: pending[j].0 != row.0)
  }

  /** All rows of the merge. */
  function Overlay(base: seq<Row>, pending: seq<Pending>): seq<Row>
    decreases |base| + |pending|
  {
    if pending == [] then base
    else if base != [] && Lt(base[0].0, pending[0].0) then [base[0]] + Overlay(base[1..], pending)
    else
      var rest := if base != [] && base[0].0 == pending[0].0 then base[1..] else base;
      (if pending[0].1.Some? then [(pending[0].0, pending[0].1.value)] else []) + Overlay(rest, pending[1..])
  }

  /** The merge loop of `scan::bounded`. */
  method BoundedScan(base: seq<Row>, pending: seq<Pending>, limit: nat) returns (rows: seq<Row>)
    ensures rows == First(Overlay(base, pending), limit)
  {
    hide Overlay, Lt;
    ghost var all := Overlay(base, pending);
    assert base[0..] == base && pending[0..] == pending;
    rows := [];
    var i, j := 0, 0;
    while |rows| < limit && (i < |base| || j < |pending|)
      invariant i <= |base| && j <= |pending| && |rows| <= limit
      invariant all == rows + Overlay(base[i..], pending[j..])
      decreases |base| - i + |pending| - j
    {
      OverlayAt(base, pending, i, j);
      ghost var before := rows;
      if j == |pending| || (i < |base| && Lt(base[i].0, pending[j].0)) {
        rows := rows + [base[i]];
        i := i + 1;
      } else {
        if pending[j].1.Some? {
          rows := rows + [(pending[j].0, pending[j].1.value)];
        }
        if i < |base| && base[i].0 == pending[j].0 {
          i := i + 1;
        }
        j := j + 1;
      }
      ghost var added := rows[|before|..];
      assert rows == before + added;
      Regroup(before, added, Overlay(base[i..], pending[j..]));
    }
    if |rows| < limit {
      assert base[i..] == [] && pending[j..] == [];
      OverlayOfNothing();
    }
  }

  function First(rows: seq<Row>, limit: nat): seq<Row> {
    rows[..if limit < |rows| then limit else |rows|]
  }

  lemma Regroup(a: seq<Row>, b: seq<Row>, c: seq<Row>)
    ensures a + (b + c) == (a + b) + c
  {
  }

  /** One unfolding of the merge, at the positions of its two cursors. */
  lemma OverlayAt(base: seq<Row>, pending: seq<Pending>, i: nat, j: nat)
    requires i <= |base| && j <= |pending| && (i < |base| || j < |pending|)
    ensures if j == |pending| || (i < |base| && Lt(base[i].0, pending[j].0)) then
      Overlay(base[i..], pending[j..]) == [base[i]] + Overlay(base[i + 1..], pending[j..])
    else
      Overlay(base[i..], pending[j..])
      == (if pending[j].1.Some? then [(pending[j].0, pending[j].1.value)] else [])
         + Overlay(base[if i < |base| && base[i].0 == pending[j].0 then i + 1 else i..], pending[j + 1..])
  {
    hide Overlay, Lt;
    OverlayStep(base[i..], pending[j..]);
    assert i < |base| ==> base[i..][1..] == base[i + 1..];
    assert j < |pending| ==> pending[j..][1..] == pending[j + 1..];
  }

  lemma OverlayOfNothing()
    ensures Overlay([], []) == []
  {
  }

  /** One unfolding of the merge. */
  lemma OverlayStep(base: seq<Row>, pending: seq<Pending>)
    ensures base != [] && (pending == [] || Lt(base[0].0, pending[0].0)) ==>
      Overlay(base, pending) == [base[0]] + Overlay(base[1..], pending)
    ensures pending != [] && !(base != [] && Lt(base[0].0, pending[0].0)) ==>
      Overlay(base, pending) ==
        (if pending[0].1.Some? then [(pending[0].0, pending[0].1.value)] else [])
        + Overlay(if base != [] && base[0].0 == pending[0].0 then base[1..] else base, pending[1..])
  {
    hide Lt;
    if base != [] && pending == [] {
      assert base == [base[0]] + base[1..];
    }
  }

  /** The merge yields the visible rows and only those, each key once, in order. */
  lemma {:induction false} OverlayIsVisible(base: seq<Row>, pending: seq<Pending>)
    requires AscendingRows(base) && AscendingPending(pending)
    ensures AscendingRows(Overlay(base, pending))
    ensures forall row :: row in Overlay(base, pending) <==> Visible(base, pending, row)
    decreases |base| + |pending|
  {
    if pending != [] {
      if base != [] && Lt(base[0].0, pending[0].0) {
        OverlayIsVisible(base[1..], pending);
        TakeBase(base, pending);
      } else {
        var rest := if base != [] && base[0].0 == pending[0].0 then base[1..] else base;
        OverlayIsVisible(rest, pending[1..]);
        TakePending(base, rest, pending);
      }
    }
  }

  lemma TransitiveLt(a: Key, b: Key, c: Key)
    requires Lt(a, b) && Lt(b, c)
    ensures Lt(a, c)
  {
    LeTransitive(a, b, c);
    if a == c {
      LeAntisymmetric(a, b);
    }
  }

  /** Every row of the merge has the key of a base row or of a pending write. */
  lemma VisibleAbove(base: seq<Row>, pending: seq<Pending>, low: Key, row: Row)
    requires forall i | 0 <= i < |base| :: Lt(low, base[i].0)
    requires forall j | 0 <= j < |pending| :: Lt(low, pending[j].0)
    requires Visible(base, pending, row)
    ensures Lt(low, row.0)
  {
  }

  lemma TakeBase(base: seq<Row>, pending: seq<Pending>)
    requires AscendingRows(base) && AscendingPending(pending)
    requires base != [] && pending != [] && Lt(base[0].0, pending[0].0)
    requires AscendingRows(Overlay(base[1..], pending))
    requires forall row :: row in Overlay(base[1..], pending) <==> Visible(base[1..], pending, row)
    ensures AscendingRows(Overlay(base, pending))
    ensures forall row :: row in Overlay(base, pending) <==> Visible(base, pending, row)
  {
    var head, rest := base[0], Overlay(base[1..], pending);
    forall j | 0 <= j < |pending| ensures Lt(head.0, pending[j].0) {
      if j > 0 { TransitiveLt(head.0, pending[0].0, pending[j].0); }
    }
    forall k | 0 <= k < |rest| ensures Lt(head.0, rest[k].0) {
      VisibleAbove(base[1..], pending, head.0, rest[k]);
    }
    assert Overlay(base, pending) == [head] + rest;
    hide Overlay;
    forall row ensures Visible(base, pending, row) <==> row == head || Visible(base[1..], pending, row) {
      HeadIsVisible(base, pending, row);
    }
  }

  lemma HeadIsVisible(base: seq<Row>, pending: seq<Pending>, row: Row)
    requires base != [] && forall j | 0 <= j < |pending| :: Lt(base[0].0, pending[j].0)
    ensures Visible(base, pending, row) <==> row == base[0] || Visible(base[1..], pending, row)
  {
    assert base == [base[0]] + base[1..];
  }

  lemma TakePending(base: seq<Row>, rest: seq<Row>, pending: seq<Pending>)
    requires AscendingRows(base) && AscendingPending(pending)
    requires pending != [] && (base == [] || !Lt(base[0].0, pending[0].0))
    requires rest == if base != [] && base[0].0 == pending[0].0 then base[1..] else base
    requires AscendingRows(Overlay(rest, pending[1..]))
    requires forall row :: row in Overlay(rest, pending[1..]) <==> Visible(rest, pending[1..], row)
    ensures AscendingRows(Overlay(base, pending))
    ensures forall row :: row in Overlay(base, pending) <==> Visible(base, pending, row)
  {
    var head, tail := pending[0], Overlay(rest, pending[1..]);
    BaseAbove(base, rest, head.0);
    forall k | 0 <= k < |tail| ensures Lt(head.0, tail[k].0) {
      VisibleAbove(rest, pending[1..], head.0, tail[k]);
    }
    forall row ensures Visible(base, pending, row)
      <==> (head == (row.0, Some(row.1))) || Visible(rest, pending[1..], row)
    {
      SkipPending(base, rest, pending, row);
    }
  }

  lemma BaseAbove(base: seq<Row>, rest: seq<Row>, low: Key)
    requires AscendingRows(base) && (base == [] || !Lt(base[0].0, low))
    requires rest == if base != [] && base[0].0 == low then base[1..] else base
    ensures forall i | 0 <= i < |rest| :: Lt(low, rest[i].0)
  {
    if base != [] {
      LeTotal(base[0].0, low);
      forall i | 0 <= i < |rest| ensures Lt(low, rest[i].0) {
        if base[0].0 != low && i > 0 {
          TransitiveLt(low, base[0].0, base[i].0);
        }
      }
    }
  }

  lemma SkipPending(base: seq<Row>, rest: seq<Row>, pending: seq<Pending>, row: Row)
    requires AscendingPending(pending) && pending != []
    requires rest == if base != [] && base[0].0 == pending[0].0 then base[1..] else base
    requires forall i | 0 <= i < |rest| :: Lt(pending[0].0, rest[i].0)
    ensures Visible(base, pending, row)
      <==> (pending[0] == (row.0, Some(row.1))) || Visible(rest, pending[1..], row)
  {
    assert pending == [pending[0]] + pending[1..];
    assert base != [] ==> base == [base[0]] + base[1..];
  }

  // ----- the scan of a transaction

  predicate Within(start: Key, end: Key, key: Key) {
    Le(start, key) && Lt(key, end)
  }

  /** The rows of `[start, end)` at a snapshot, as the projected read streams them. */
  ghost predicate SnapshotRows(base: seq<Row>, store: Store, snapshot: nat, start: Key, end: Key) {
    && AscendingRows(base)
    && forall row: Row :: row in base <==> Within(start, end, row.0) && Get(store, row.0, snapshot) == Some(row.1)
  }

  ghost predicate PendingOf(pending: seq<Pending>, writes: map<Key, Cell>, start: Key, end: Key) {
    && AscendingPending(pending)
    && forall p: Pending :: p in pending <==> Within(start, end, p.0) && p.0 in writes && writes[p.0] == p.1
  }

  /** The rows of `[start, end)` that point reads of the transaction would find. */
  ghost predicate RangeOf(rows: seq<Row>, store: Store, t: Transaction, start: Key, end: Key) {
    && AscendingRows(rows)
    && forall row: Row :: row in rows <==> Within(start, end, row.0) && TransactionGet(store, t, row.0) == Some(row.1)
  }

  /** The overlay of the snapshot's rows is exactly what point reads would find. */
  lemma OverlayIsRange(store: Store, t: Transaction, start: Key, end: Key, base: seq<Row>, pending: seq<Pending>)
    requires SnapshotRows(base, store, t.snapshot, start, end) && PendingOf(pending, t.writes, start, end)
    ensures RangeOf(Overlay(base, pending), store, t, start, end)
  {
    OverlayIsVisible(base, pending);
    hide Overlay, Get, Le;
    forall row: Row ensures Visible(base, pending, row) <==>
      Within(start, end, row.0) && TransactionGet(store, t, row.0) == Some(row.1)
    {
      VisibleIsRead(store, t, start, end, base, pending, row);
    }
  }

  lemma VisibleIsRead(store: Store, t: Transaction, start: Key, end: Key, base: seq<Row>, pending: seq<Pending>, row: Row)
    requires SnapshotRows(base, store, t.snapshot, start, end) && PendingOf(pending, t.writes, start, end)
    ensures Visible(base, pending, row) <==> Within(start, end, row.0) && TransactionGet(store, t, row.0) == Some(row.1)
  {
    hide Within, Get;
    if row.0 in t.writes && Within(start, end, row.0) {
      assert (row.0, t.writes[row.0]) in pending;
    } else {
      forall j | 0 <= j < |pending| && pending[j].0 == row.0 ensures !Within(start, end, row.0) {
        assert pending[j] in pending;
      }
    }
  }

  /** The buffered writes of the range, in key order. */
  method PendingRange(writes: map<Key, Cell>, start: Key, end: Key) returns (pending: seq<Pending>)
    ensures PendingOf(pending, writes, start, end)
  {
    hide Lt, Le, Within;
    pending := [];
    var range := set key | key in writes && Within(start, end, key);
    var keys := SortedKeys(range);
    assert forall k | 0 <= k < |keys| :: keys[k] in keys && keys[k] in range;
    for i := 0 to |keys|
      invariant |pending| == i && forall k | 0 <= k < i :: pending[k] == (keys[k], writes[keys[k]])
    {
      pending := pending + [(keys[i], writes[keys[i]])];
    }
    forall p: Pending | Within(start, end, p.0) && p.0 in writes && writes[p.0] == p.1 ensures p in pending {
      assert p.0 in keys;
      var k :| 0 <= k < |keys| && keys[k] == p.0;
      assert pending[k] == p;
    }
  }

  /** `Transaction::scan`: an empty or invalid range or a zero limit is refused;
      otherwise the first `limit` rows of the range, as point reads would find them. */
  method Scan(store: Store, t: Transaction, start: Key, end: Key, limit: nat, base: seq<Row>)
    returns (r: Option<seq<Row>>, ghost all: seq<Row>)
    requires SnapshotRows(base, store, t.snapshot, start, end)
    ensures r.None? <==> !Lt(start, end) || limit == 0 || |start| > MAX_KEY_BYTES || |end| > MAX_KEY_BYTES
    ensures r.Some? ==> RangeOf(all, store, t, start, end) && r.value == First(all, limit)
  {
    all := [];
    if !Lt(start, end) || limit == 0 || |start| > MAX_KEY_BYTES || |end| > MAX_KEY_BYTES {
      return None, all;
    }
    hide *;
    var pending := PendingRange(t.writes, start, end);
    all := Overlay(base, pending);
    OverlayIsRange(store, t, start, end, base, pending);
    var rows := BoundedScan(base, pending, limit);
    r := Some(rows);
  }

  /** The range has only one ascending listing of rows, so the scan is determined. */
  lemma RangeIsUnique(a: seq<Row>, b: seq<Row>, store: Store, t: Transaction, start: Key, end: Key)
    requires RangeOf(a, store, t, start, end) && RangeOf(b, store, t, start, end)
    ensures a == b
  {
    hide Lt, Le, Within, TransactionGet;
    var x, y := seq(|a|, i requires 0 <= i < |a| => a[i].0), seq(|b|, i requires 0 <= i < |b| => b[i].0);
    var keys := set row | row in a :: row.0;
    RangeListsKeys(a, keys);
    assert forall row :: row in a <==> row in b;
    RangeListsKeys(b, keys);
    ListingIsUnique(x, y, keys);
    assert |a| == |x| == |y| == |b|;
    forall i | 0 <= i < |a| ensures a[i] == b[i] {
      assert x[i] == a[i].0 && y[i] == b[i].0;
      assert a[i] in a && b[i] in b;
    }
  }

  lemma RangeListsKeys(a: seq<Row>, keys: set<Key>)
    requires AscendingRows(a) && keys == set row | row in a :: row.0
    ensures Listing(seq(|a|, i requires 0 <= i < |a| => a[i].0), keys)
  {
    hide Lt;
    var x := seq(|a|, i requires 0 <= i < |a| => a[i].0);
    forall k ensures k in x <==> k in keys {
      if k in keys {
        var row :| row in a && row.0 == k;
        var i :| 0 <= i < |a| && a[i] == row;
        assert x[i] == k;
      }
    }
  }

  /** In every run, a live transaction's scan shows its own writes over the history as
      it was when the transaction began. */
  lemma ScanReadsItsSnapshot(run: seq<System>, i: nat, id: nat, start: Key, end: Key, rows: seq<Row>)
    requires IsRun(run) && i < |run| && id in run[i].active
    requires RangeOf(rows, run[i].store, run[i].active[id], start, end)
    ensures var t := run[i].active[id];
      forall row: Row :: row in rows <==>
        && Within(start, end, row.0)
        && Some(row.1) == if row.0 in t.writes then t.writes[row.0] else ReadAt(run[i].history, row.0, t.snapshot)
  {
    hide IsRun, Within, TransactionGet, ReadAt;
    var s, t := run[i], run[i].active[id];
    forall row: Row ensures TransactionGet(s.store, t, row.0)
      == if row.0 in t.writes then t.writes[row.0] else ReadAt(s.history, row.0, t.snapshot)
    {
      TransactionReadsItsSnapshot(run, i, id, row.0);
    }
  }
}
