/** A run in which the conflict check of a commit passes although the key was
    written after the transaction's snapshot: a pruning compaction has erased the
    key's tombstone, and with it the only evidence. */
module ConflictExample {
  import opened Bytes
  import opened Wrappers
  import opened Batch
  import opened Versions
  import opened Maintenance
  import opened Compaction
  import opened Levels
  import opened Transactions

  const K: Key := [1]
  const V: Value := [7]
  const BOTH: Chain := map[1 := Some(V), 2 := None]
  const FULL := Segment(0, K, K, map[K := BOTH])

  lemma SmallBatch(m: Mutation)
    requires m == Put(K, V) || m == Delete(K)
    ensures ValidBatch([m])
  {
    assert [m][..0] == [];
    assert EncodedLength([m]) <= BATCH_HEADER_BYTES + OP_HEADER_BYTES + 2;
  }

  /** A batch of one mutation, written beside the waiting transaction. */
  lemma OneWrite(a: System, m: Mutation) returns (b: System)
    requires (m == Put(K, V) || m == Delete(K)) && |a.history| < 2
    ensures Next(a, b)
    ensures b == System(Written(a.store, [m]), a.active, a.history + [m], a.kept, a.ends + {|a.history| + 1})
  {
    b := System(Written(a.store, [m]), a.active, a.history + [m], a.kept, a.ends + {|a.history| + 1});
    SmallBatch(m);
    hide ValidBatch, Written;
    assert Step(a, Write([m]), b);
  }

  lemma ApplyOne(table: Table, m: Mutation, first: nat)
    ensures ApplyBatch(table, [m], first) == Insert(table, m.key, first, CellOf(m))
  {
    assert [m][1..] == [];
  }

  lemma FullVersions(key: Key)
    ensures AllVersions([FULL], key) == if key == K then BOTH else map[]
    ensures AllVersions([], key) == map[]
  {
    AllVersionsLast([], FULL, key);
    assert [] + [FULL] == [FULL];
  }

  /** With a pin at 0 and the durable head at 2 only the tombstone is retained, and
      with no other segment it is dropped. */
  lemma ErasedByCompaction(key: Key)
    ensures KeptChain([FULL], [], {0, 2}, false, key) == map[]
  {
    FullVersions(key);
    if key == K {
      assert Newest(BOTH, 2) == Some(2);
      assert Newest(BOTH, 0) == None;
      var retained := Retained(BOTH, {0, 2}, false);
      assert 1 !in retained;
      assert forall q | q in retained :: retained[q] == None;
    }
  }

  lemma FlushAndCompact(a: System) returns (b: System, c: System)
    requires a.active == map[0 := Transaction(0, map[])]
    requires a.store == Store(map[K := BOTH], 2, [], 0)
    ensures Next(a, b) && Next(b, c)
    ensures c.store == Store(map[], 2, [], 2) && c.history == a.history && c.active == a.active
  {
    hide Next;
    b := FlushExample(a);
    c := CompactExample(b);
  }

  lemma FlushExample(a: System) returns (b: System)
    requires a.store == Store(map[K := BOTH], 2, [], 0)
    ensures Next(a, b)
    ensures b == a.(store := Store(map[], 2, [FULL], 2))
  {
    b := a.(store := Flushed(a.store, [FULL]));
    LeReflexive(K);
    forall key ensures AllVersions([FULL], key) == ChainOf(a.store.memtable, key) {
      FullVersions(key);
    }
    assert Step(a, Flush([FULL]), b);
  }

  lemma SelectsAll()
    ensures var selected := (set i | i in [0]) + Targets([FULL], K, K, 1);
      && selected == {0} && Pick([FULL], selected) == [FULL] && Leave([FULL], selected) == []
    ensures Hull([FULL], [0], K, K)
  {
    LeReflexive(K);
    var selected := (set i | i in [0]) + Targets([FULL], K, K, 1);
    assert selected == {0};
    assert [FULL][..0] == [];
  }

  lemma CompactExample(b: System) returns (c: System)
    requires b.active == map[0 := Transaction(0, map[])] && b.store == Store(map[], 2, [FULL], 2)
    ensures Next(b, c)
    ensures c.store == Store(map[], 2, [], 2) && c.history == b.history && c.active == b.active
  {
    hide Targets, Le, Lt;
    SelectsAll();
    var protectedAt := Protected(b, {});
    assert protectedAt == {0, 2} by { assert Pins(b.active) == {0} by { assert b.active[0].snapshot == 0; } }
    forall key ensures AllVersions([], key) == KeptChain([FULL], [], protectedAt, false, key) {
      ErasedByCompaction(key);
      assert AllVersions([], key) == map[];
    }
    hide AllVersions, KeptChain, Pick, Leave, Retained, Hull;
    c := b.(store := Compacted(b.store, [], []),
            kept := set p | p in b.kept && (p > b.store.durable || p in protectedAt));
    assert Step(b, Compact([0], 0, K, K, {}, false, []), c);
  }

  ghost predicate Path(path: seq<System>) {
    path != [] && forall i | 0 <= i < |path| - 1 :: Next(path[i], path[i + 1])
  }

  lemma Join(left: seq<System>, right: seq<System>)
    requires Path(left) && Path(right) && left[|left| - 1] == right[0]
    ensures Path(left + right[1..])
    ensures (left + right[1..])[|left + right[1..]| - 1] == right[|right| - 1]
  {
    hide Next;
    var both := left + right[1..];
    forall i | 0 <= i < |both| - 1 ensures Next(both[i], both[i + 1]) {
      if i >= |left| - 1 {
        var j := i - (|left| - 1);
        assert both[i] == right[j] && both[i + 1] == right[j + 1];
      }
    }
  }

  lemma PutThenDelete() returns (path: seq<System>)
    ensures Path(path) && path[0] == Initial()
    ensures var s := path[|path| - 1];
      && s.store == Store(map[K := BOTH], 2, [], 0) && s.history == [Put(K, V), Delete(K)]
      && s.active == map[0 := Transaction(0, map[])]
  {
    var i := Initial();
    var a := i.(active := map[0 := Transaction(0, map[])], kept := {0});
    assert Step(i, Begin(0), a);
    ApplyOne(map[], Put(K, V), 1);
    var store1 := Store(map[K := map[1 := Some(V)]], 1, [], 0);
    assert Written(a.store, [Put(K, V)]) == store1;
    ApplyOne(store1.memtable, Delete(K), 2);
    assert Written(store1, [Delete(K)]) == Store(map[K := BOTH], 2, [], 0);
    hide Step, Written;
    var b := OneWrite(a, Put(K, V));
    var c := OneWrite(b, Delete(K));
    path := [i, a, b, c];
    FourPath(i, a, b, c);
  }

  /** A commit that passes the conflict check although its key was written since its
      snapshot: put and deleted by others, then erased. */
  lemma ConflictMissed() returns (run: seq<System>)
    ensures IsRun(run)
    ensures var s := run[|run| - 1];
      && 0 in s.active && K in s.active[0].writes
      && WrittenSince(s.history, K, s.active[0].snapshot)
      && !Conflicts(s.store, s.active[0])
  {
    hide Conflicts, WrittenSince, Compacted, Flushed;
    var path := PutThenDelete();
    var f := path[|path| - 1];
    var g, h := FlushAndCompact(f);
    var z := LateWrite(h);
    hide *;
    assert Path([f, g, h, z]) by { FourPath(f, g, h, z); }
    Join(path, [f, g, h, z]);
    run := path + [f, g, h, z][1..];
    PathIsRun(run);
  }

  lemma FourPath(a: System, b: System, c: System, d: System)
    requires Next(a, b) && Next(b, c) && Next(c, d)
    ensures Path([a, b, c, d])
  {
    hide Next;
  }

  lemma PathIsRun(path: seq<System>)
    requires Path(path) && path[0] == Initial()
    ensures IsRun(path)
  {
    hide Next;
  }

  lemma LateWrite(h: System) returns (z: System)
    requires h.store == Store(map[], 2, [], 2) && h.history == [Put(K, V), Delete(K)]
    requires h.active == map[0 := Transaction(0, map[])]
    ensures Next(h, z) && z.active == map[0 := Transaction(0, map[K := Some(V)])]
    ensures WrittenSince(z.history, K, 0) && !Conflicts(z.store, z.active[0])
  {
    z := h.(active := map[0 := Transaction(0, map[K := Some(V)])]);
    assert Step(h, Buffer(0, K, Some(V)), z);
    assert Writes(z.history, K, 1);
    FullVersions(K);
    assert LatestStored(z.store, K) == None;
  }
}
