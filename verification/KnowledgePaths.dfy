/** Source paths of knowledge records, and the owner index each path climbs to. */
module KnowledgePaths {
  import opened Bytes
  import opened KnowledgeCodec

  const SLASH: byte := 47
  const README: Text := [82, 69, 65, 68, 77, 69, 46, 109, 100]   // "README.md"
  const DOCS: Text := [100, 111, 99, 115]                        // "docs"

  /** `value.split("/")`. */
  function Parts(path: Text): (parts: seq<Text>)
    ensures parts != []
  {
    if path == [] then [[]]
    else
      var n := |path| - 1;
      var before := Parts(path[..n]);
      var k := |before| - 1;
      if path[n] == SLASH then before + [[]] else before[..k] + [before[k] + [path[n]]]
  }

  /** `as_posix` of a relative path. */
  function Join(parts: seq<Text>): Text
    requires parts != []
  {
    var n := |parts| - 1;
    if n == 0 then parts[0] else Join(parts[..n]) + [SLASH] + parts[n]
  }

  predicate Plain(parts: seq<Text>) {
    parts != [] && forall i | 0 <= i < |parts| :: SLASH !in parts[i]
  }

  lemma {:induction false} PartsArePlain(path: Text)
    ensures Plain(Parts(path))
  {
    if path != [] { PartsArePlain(path[..|path| - 1]); }
  }

  lemma {:induction false} JoinGrowsLast(parts: seq<Text>, b: byte)
    requires parts != []
    ensures var k := |parts| - 1; Join(parts[..k] + [parts[k] + [b]]) == Join(parts) + [b]
  {
    var k := |parts| - 1;
    var grown := parts[..k] + [parts[k] + [b]];
    assert grown[..k] == parts[..k];
    if k > 0 {
      assert Join(grown) == Join(grown[..k]) + [SLASH] + (parts[k] + [b]);
    }
  }

  lemma JoinEmptyLast(parts: seq<Text>)
    requires parts != []
    ensures Join(parts + [[]]) == Join(parts) + [SLASH]
  {
    assert (parts + [[]])[..|parts|] == parts;
  }

  lemma {:induction false} JoinParts(path: Text)
    ensures Join(Parts(path)) == path
  {
    if path != [] {
      var n := |path| - 1;
      var before := Parts(path[..n]);
      var k := |before| - 1;
      JoinParts(path[..n]);
      assert path == path[..n] + [path[n]];
      assert Parts(path) == if path[n] == SLASH then before + [[]] else before[..k] + [before[k] + [path[n]]];
      hide Parts, Join;
      if path[n] == SLASH {
        JoinEmptyLast(before);
      } else {
        JoinGrowsLast(before, path[n]);
      }
    }
  }

  lemma {:induction false} PartsOfPlain(word: Text)
    requires SLASH !in word
    ensures Parts(word) == [word]
  {
    if word != [] {
      var n := |word| - 1;
      PartsOfPlain(word[..n]);
      assert word == word[..n] + [word[n]];
    }
  }

  lemma {:induction false} PartsOfSuffix(path: Text, word: Text)
    requires SLASH !in word
    ensures Parts(path + [SLASH] + word) == Parts(path) + [word]
  {
    var whole := path + [SLASH] + word;
    var n := |whole| - 1;
    if word == [] {
      assert whole[..n] == path;
    } else {
      PartsOfSuffix(path, word[..|word| - 1]);
      assert whole[..n] == path + [SLASH] + word[..|word| - 1];
      assert word == word[..|word| - 1] + [word[|word| - 1]];
    }
  }

  lemma {:induction false} PartsJoin(parts: seq<Text>)
    requires Plain(parts)
    ensures Parts(Join(parts)) == parts
  {
    var n := |parts| - 1;
    if n == 0 {
      PartsOfPlain(parts[0]);
    } else {
      PartsJoin(parts[..n]);
      PartsOfSuffix(Join(parts[..n]), parts[n]);
      assert parts == parts[..n] + [parts[n]];
    }
  }

  // ----- the owner index

  function OwnerParts(parts: seq<Text>): (owner: seq<Text>)
    requires parts != []
    ensures owner != [] && owner[|owner| - 1] == README
  {
    var n := |parts| - 1;
    if parts == [DOCS, README] then parts
    else if parts[n] == README then parts[..if n == 0 then 0 else n - 1] + [README]
    else parts[..n] + [README]
  }

  /** `_owner_index`: an index is owned by the index above it, anything else by the
      index beside it. */
  function OwnerIndex(path: Text): Text {
    Join(OwnerParts(Parts(path)))
  }

  const DOCS_INDEX: Text := Join([DOCS, README])

  predicate InDocs(path: Text) {
    |Parts(path)| >= 2 && Parts(path)[0] == DOCS
  }

  function Climb(path: Text, steps: nat): Text
    decreases steps
  {
    if steps == 0 then path else Climb(OwnerIndex(path), steps - 1)
  }

  /** How many owners lie between a path under `docs` and `docs/README.md`. */
  function Height(path: Text): nat
    requires InDocs(path)
  {
    var n := |Parts(path)|;
    if Parts(path)[n - 1] == README then n - 2 else n - 1
  }

  lemma OwnerPartsOf(path: Text)
    ensures Parts(OwnerIndex(path)) == OwnerParts(Parts(path))
  {
    PartsArePlain(path);
    PartsJoin(OwnerParts(Parts(path)));
  }

  lemma DocsIndexParts()
    ensures Parts(DOCS_INDEX) == [DOCS, README]
    ensures InDocs(DOCS_INDEX) && Height(DOCS_INDEX) == 0 && OwnerIndex(DOCS_INDEX) == DOCS_INDEX
  {
    PartsJoin([DOCS, README]);
    JoinParts(DOCS_INDEX);
  }

  /** An owner under `docs` is one step nearer to `docs/README.md`. */
  lemma OwnerIsHigher(path: Text)
    requires InDocs(path) && path != DOCS_INDEX
    ensures InDocs(OwnerIndex(path)) && Height(path) == Height(OwnerIndex(path)) + 1
  {
    OwnerPartsOf(path);
    JoinParts(path);
    assert Parts(path) != [DOCS, README];
    var parts := Parts(path);
    var n := |parts| - 1;
    assert n == 1 && parts[n] == README ==> parts == [DOCS, README];
  }

  /** Climbing from any path under `docs` arrives at `docs/README.md` after exactly
      `Height` steps and never leaves `docs` on the way. */
  lemma {:induction false} ClimbReachesTheDocsIndex(path: Text)
    requires InDocs(path)
    ensures Climb(path, Height(path)) == DOCS_INDEX
    ensures forall k: nat | k < Height(path) :: Climb(path, k) != DOCS_INDEX && InDocs(Climb(path, k))
    decreases Height(path)
  {
    DocsIndexParts();
    if path == DOCS_INDEX {
    } else {
      OwnerIsHigher(path);
      var owner := OwnerIndex(path);
      ClimbReachesTheDocsIndex(owner);
      forall k: nat | k < Height(path) ensures Climb(path, k) != DOCS_INDEX && InDocs(Climb(path, k)) {
        if k > 0 { assert Climb(path, k) == Climb(owner, k - 1); }
      }
    }
  }
}
