/** Choosing the source roots to mask: a greedy pass over paths by depth. */
module MaskPaths {
  import opened Wrappers
  import opened Sorting

  /** The parts of a resolved absolute path. */
  type Path = seq<string>

  datatype MaskError = NotADirectory(path: Path) | Broad(path: Path) | OperatingSystem(path: Path) | OverlapsStage(path: Path)

  /** `inner.is_relative_to(outer)`. */
  predicate Under(inner: Path, outer: Path) {
    outer <= inner
  }

  predicate Overlap(a: Path, b: Path) {
    Under(a, b) || Under(b, a)
  }

  ghost predicate Allowed(path: Path, isDirectory: Path -> bool, reserved: seq<Path>, stage: Path) {
    && isDirectory(path) && |path| >= 3 && !Overlap(path, stage)
    && forall i | 0 <= i < |reserved| :: !Overlap(path, reserved[i])
  }

  /** The paths that lie under no other path of the set. */
  ghost function Minimal(paths: set<Path>): set<Path> {
    set path | path in paths && forall other | other in paths && Under(path, other) :: other == path
  }

  lemma {:induction false} ShallowestExists(paths: set<Path>) returns (least: Path)
    requires paths != {}
    ensures least in paths && forall p | p in paths :: |least| <= |p|
  {
    least :| least in paths;
    var rest := paths - {least};
    assert forall p | p in paths :: p == least || p in rest;
    if rest != {} {
      var other := ShallowestExists(rest);
      if |other| < |least| { least := other; }
    }
  }

  /** One of the shallowest paths: `sorted` by depth leaves the order of ties open. */
  method Shallowest(paths: set<Path>) returns (least: Path)
    requires paths != {}
    ensures least in paths && forall p | p in paths :: |least| <= |p|
  {
    ghost var some := ShallowestExists(paths);
    least :| least in paths && forall p | p in paths :: |least| <= |p|;
  }

  /** `mask_paths`: it refuses exactly when some path is not allowed, and otherwise
      returns the minimal paths, each once, whatever the order of ties. */
  method MaskRoots(paths: set<Path>, isDirectory: Path -> bool, reserved: seq<Path>, stage: Path)
    returns (r: Result<seq<Path>, MaskError>)
    ensures r.Ok? <==> forall path | path in paths :: Allowed(path, isDirectory, reserved, stage)
    ensures r.Ok? ==> Distinct(r.value) && (set path | path in r.value) == Minimal(paths)
    ensures r.Ok? ==> forall i, j | 0 <= i < j < |r.value| :: |r.value[i]| <= |r.value[j]|
  {
    var selected: seq<Path> := [];
    var remaining := paths;
    ghost var done: set<Path> := {};
    while remaining != {}
      invariant done + remaining == paths && done !! remaining
      invariant forall p, q | p in done && q in remaining :: |p| <= |q|
      invariant forall p | p in done :: Allowed(p, isDirectory, reserved, stage)
      invariant Distinct(selected) && (set path | path in selected) == Minimal(done)
      invariant forall i, j | 0 <= i < j < |selected| :: |selected[i]| <= |selected[j]|
    {
      var path := Shallowest(remaining);
      if !isDirectory(path) { return Err(NotADirectory(path)); }
      if |path| < 3 { return Err(Broad(path)); }
      if exists i | 0 <= i < |reserved| :: Overlap(path, reserved[i]) { return Err(OperatingSystem(path)); }
      if Overlap(path, stage) { return Err(OverlapsStage(path)); }
      GreedyStep(done, path);
      if !exists i | 0 <= i < |selected| :: Under(path, selected[i]) {
        forall i | 0 <= i < |selected| ensures selected[i] in done { assert selected[i] in Minimal(done); }
        assert path !in selected;
        selected := selected + [path];
      }
      remaining, done := remaining - {path}, done + {path};
    }
    assert done == paths;
    r := Ok(selected);
  }

  /** Going by depth, a path is new to the minimal ones exactly when no chosen root
      contains it. */
  lemma GreedyStep(done: set<Path>, path: Path)
    requires path !in done && forall p | p in done :: |p| <= |path|
    ensures Minimal(done + {path}) ==
      if exists root :: root in Minimal(done) && Under(path, root) then Minimal(done) else Minimal(done) + {path}
  {
    var more := done + {path};
    forall p | p in done ensures !Under(p, path) { NotAbove(p, path); }
    assert forall p | p in done :: p in Minimal(more) <==> p in Minimal(done);
    if exists other :: other in done && Under(path, other) {
      var other :| other in done && Under(path, other);
      var root := RootOf(done, other);
      UnderTransitive(path, other, root);
      assert path !in Minimal(more);
    } else {
      assert path in Minimal(more);
    }
  }

  lemma NotAbove(p: Path, path: Path)
    requires p != path && |p| <= |path|
    ensures !Under(p, path)
  {
    assert p[..|p|] == p;
  }

  lemma UnderTransitive(a: Path, b: Path, c: Path)
    requires Under(a, b) && Under(b, c)
    ensures Under(a, c)
  {
  }

  /** Every path lies under a minimal one. */
  lemma {:induction false} RootOf(paths: set<Path>, path: Path) returns (root: Path)
    requires path in paths
    ensures root in Minimal(paths) && Under(path, root)
    decreases |path|
  {
    if path in Minimal(paths) {
      root := path;
    } else {
      var other :| other in paths && Under(path, other) && other != path;
      root := RootOf(paths, other);
      UnderTransitive(path, other, root);
    }
  }

  /** What the chosen roots are for: none contains another, every input lies under
      exactly one, and none overlaps the stage. */
  lemma RootsPartition(paths: set<Path>, isDirectory: Path -> bool, reserved: seq<Path>, stage: Path)
    requires forall path | path in paths :: Allowed(path, isDirectory, reserved, stage)
    ensures forall a, b | a in Minimal(paths) && b in Minimal(paths) && a != b :: !Overlap(a, b)
    ensures forall path | path in paths :: exists root :: root in Minimal(paths) && Under(path, root)
    ensures forall path, a, b | path in paths && a in Minimal(paths) && b in Minimal(paths)
              && Under(path, a) && Under(path, b) :: a == b
    ensures forall root | root in Minimal(paths) :: !Overlap(root, stage)
  {
    forall path | path in paths ensures exists root :: root in Minimal(paths) && Under(path, root) {
      var root := RootOf(paths, path);
    }
    forall path, a, b | path in paths && a in Minimal(paths) && b in Minimal(paths) && Under(path, a) && Under(path, b)
      ensures a == b
    {
      Nested(path, a, b);
    }
  }

  /** Two containers of one path contain one another. */
  lemma Nested(path: Path, a: Path, b: Path)
    requires Under(path, a) && Under(path, b)
    ensures Overlap(a, b)
  {
    if |a| <= |b| {
      assert a == path[..|a|] == path[..|b|][..|a|] == b[..|a|];
    } else {
      assert b == path[..|b|] == path[..|a|][..|b|] == a[..|b|];
    }
  }
}
