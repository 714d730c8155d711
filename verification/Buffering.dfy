/** What a transaction has buffered, over whole runs: the last cell of each key since it
    began is what it reads and what its commit installs. */
module Buffering {
  import opened Batch
  import opened Versions
  import opened Maintenance
  import opened Levels
  import opened Transactions

  /** A new transaction reads everything committed before it began. */
  lemma BeginReadsTheHead(a: System, e: Event, b: System, key: Key)
    requires Invariant(a) && e.Begin? && Step(a, e, b)
    ensures e.id in b.active && TransactionGet(b.store, b.active[e.id], key) == ReadAt(a.history, key, |a.history|)
  {
    hide Get, ReadAt;
    MaximumIsLength(a);
    GetIsReadAt(a.store, a.history, a.kept, key, |a.history|);
  }

  /** A transaction reads back the cell it has just buffered; every other read of it and
      every read of another transaction is as before. */
  lemma BufferIsReadBack(a: System, e: Event, b: System)
    requires e.Buffer? && Step(a, e, b)
    ensures b.active.Keys == a.active.Keys && e.id in b.active && b.history == a.history
    ensures TransactionGet(b.store, b.active[e.id], e.key) == e.cell
    ensures forall id, key | id in a.active && (id != e.id || key != e.key) ::
      TransactionGet(b.store, b.active[id], key) == TransactionGet(a.store, a.active[id], key)
  {
  }

  /** Event `k` buffers `cell` for `key`, and nothing since then restarted the transaction
      or buffered that key again. */
  ghost predicate LastBuffered(events: seq<Event>, id: nat, key: Key, cell: Cell, k: nat) {
    && k < |events| && events[k] == Buffer(id, key, cell)
    && forall m | k < m < |events| :: events[m] != Begin(id) && !BuffersKey(events[m], id, key)
  }

  predicate BuffersKey(e: Event, id: nat, key: Key) {
    e.Buffer? && e.id == id && e.key == key
  }

  /** What one step does to the buffered cell of a key. */
  lemma StepBuffers(a: System, e: Event, b: System, id: nat, key: Key)
    requires Step(a, e, b) && id in b.active
    ensures if e == Begin(id) then b.active[id].writes == map[]
            else id in a.active
                 && (if BuffersKey(e, id, key) then key in b.active[id].writes && b.active[id].writes[key] == e.cell
                     else (key in b.active[id].writes <==> key in a.active[id].writes)
                          && (key in a.active[id].writes ==> b.active[id].writes[key] == a.active[id].writes[key]))
  {
    hide BatchOf, Conflicts, Closes, KeptChain, Hull, AllVersions, ValidBatch, Written;
  }

  lemma LastBufferedNext(events: seq<Event>, e: Event, id: nat, key: Key, cell: Cell, k: nat)
    requires k < |events| && e != Begin(id) && !BuffersKey(e, id, key)
    ensures LastBuffered(events + [e], id, key, cell, k) <==> LastBuffered(events, id, key, cell, k)
  {
    var longer := events + [e];
    assert forall m | 0 <= m < |events| :: longer[m] == events[m];
    assert longer[|events|] == e;
  }

  /** In every run, the write set of a live transaction is exactly the last cell that was
      buffered for each key since the transaction began. */
  lemma {:induction false} WriteSetIsLastBuffered(run: seq<System>, events: seq<Event>, c: nat, id: nat, key: Key, cell: Cell)
    requires Follows(run, events) && c < |run| && id in run[c].active
    ensures (key in run[c].active[id].writes && run[c].active[id].writes[key] == cell)
       <==> exists k :: LastBuffered(events[..c], id, key, cell, k)
  {
    hide Step, LastBuffered;
    if c > 0 {
      var n := c - 1;
      var e, before := events[n], events[..n];
      EventAt(run, events, n);
      StepBuffers(run[n], e, run[c], id, key);
      assert events[..c] == before + [e];
      if e == Begin(id) {
        BegunBuffersNothing(before, id, key, cell);
      } else if BuffersKey(e, id, key) {
        BufferedLast(before, e, id, key, cell);
      } else {
        WriteSetIsLastBuffered(run, events, n, id, key, cell);
        BufferedBefore(before, e, id, key, cell);
      }
    }
  }

  lemma BegunBuffersNothing(before: seq<Event>, id: nat, key: Key, cell: Cell)
    ensures forall k :: !LastBuffered(before + [Begin(id)], id, key, cell, k)
  {
    var longer := before + [Begin(id)];
    assert longer[|before|] == Begin(id);
  }

  lemma BufferedLast(before: seq<Event>, e: Event, id: nat, key: Key, cell: Cell)
    requires BuffersKey(e, id, key)
    ensures e.cell == cell <==> exists k :: LastBuffered(before + [e], id, key, cell, k)
  {
    var longer, n := before + [e], |before|;
    assert longer[n] == e;
    if e.cell == cell {
      assert LastBuffered(longer, id, key, cell, n);
    }
    forall k: nat | LastBuffered(longer, id, key, cell, k) ensures e.cell == cell {
      if k < n { assert BuffersKey(longer[n], id, key); }
    }
  }

  lemma BufferedBefore(before: seq<Event>, e: Event, id: nat, key: Key, cell: Cell)
    requires e != Begin(id) && !BuffersKey(e, id, key)
    ensures (exists k :: LastBuffered(before + [e], id, key, cell, k)) <==> (exists k :: LastBuffered(before, id, key, cell, k))
  {
    if k :| LastBuffered(before, id, key, cell, k) {
      LastBufferedNext(before, e, id, key, cell, k);
    }
    if k :| LastBuffered(before + [e], id, key, cell, k) {
      assert (before + [e])[|before|] == e;
      LastBufferedNext(before, e, id, key, cell, k);
    }
  }

  /** A commit leaves each key at the last cell its transaction buffered for it, and
      every key it buffered nothing for as it was. */
  lemma CommitInstallsLastBuffered(run: seq<System>, events: seq<Event>, c: nat, key: Key)
    requires Follows(run, events) && c < |events| && events[c].Commit?
    ensures forall k, cell | LastBuffered(events[..c], events[c].id, key, cell, k) ::
      ReadAt(run[c + 1].history, key, |run[c + 1].history|) == cell
    ensures (forall k, cell :: !LastBuffered(events[..c], events[c].id, key, cell, k)) ==>
      ReadAt(run[c + 1].history, key, |run[c + 1].history|) == ReadAt(run[c].history, key, |run[c].history|)
  {
    hide ReadAt, LastBuffered;
    EventAt(run, events, c);
    var id := events[c].id;
    assert id in run[c].active;
    CommitInstalls(run[c], events[c], run[c + 1], key);
    hide Step;
    forall k, cell | LastBuffered(events[..c], id, key, cell, k)
      ensures ReadAt(run[c + 1].history, key, |run[c + 1].history|) == cell
    {
      WriteSetIsLastBuffered(run, events, c, id, key, cell);
    }
    if key in run[c].active[id].writes {
      WriteSetIsLastBuffered(run, events, c, id, key, run[c].active[id].writes[key]);
    }
  }

  /** Inside a transaction the last buffered cell is what it reads. */
  lemma ReadsLastBuffered(run: seq<System>, events: seq<Event>, c: nat, id: nat, key: Key, cell: Cell, k: nat)
    requires Follows(run, events) && c < |run| && id in run[c].active && LastBuffered(events[..c], id, key, cell, k)
    ensures TransactionGet(run[c].store, run[c].active[id], key) == cell
  {
    hide Step, LastBuffered;
    WriteSetIsLastBuffered(run, events, c, id, key, cell);
  }
}
