/** Regenerating the marked indexes of a documentation tree. A text is its sequence
    of lines; reading a header field or a title out of lines is a parameter. */
module Navigation {
  import opened Bytes
  import opened Wrappers
  import opened Sorting

  type Line = seq<byte>
  type Text = seq<Line>
  type Name = seq<byte>
  type Path = seq<Name>

  datatype Field = Status | Coordinate

  /** How metadata is read: a field from the header lines, the title from the text. */
  datatype Reader = Reader(field: (seq<Line>, Field) -> Option<Line>, title: Text -> Option<Line>)

  /** The names in a directory in byte order, and the sorted `docs/**/README.md`. Writing
      an index changes neither. */
  datatype Layout = Layout(entries: Path -> seq<Name>, readmes: seq<Path>)

  type Files = map<Path, Text>

  datatype NavigationError =
    | MissingMetadata | NotACoordinate | DuplicateChild | NoChildren | NotOneRegion | Reversed

  const HEADER_LINES := 12
  const README: Name := Ascii("README.md")
  const INDEX_START: Line := [60] + Ascii("!-- rrflow:generated-index:start -->")
  const INDEX_END: Line := [60] + Ascii("!-- rrflow:generated-index:end -->")
  const SCHEME: Line := Ascii("rrflow://")
  const DASH: Line := [32, 0xE2, 0x80, 0x94, 32]

  // ----- metadata

  function Head(text: Text): seq<Line> {
    if |text| <= HEADER_LINES then text else text[..HEADER_LINES]
  }

  function StripTicks(line: Line): Line
    decreases |line|
  {
    if line != [] && line[0] == 96 then StripTicks(line[1..])
    else if line != [] && line[|line| - 1] == 96 then StripTicks(line[..|line| - 1])
    else line
  }

  datatype Metadata = Metadata(title: Line, status: Line, coordinate: Line)

  function MetadataOf(reader: Reader, text: Text): Result<Metadata, NavigationError> {
    match (reader.title(text), reader.field(Head(text), Status), reader.field(Head(text), Coordinate))
    case (Some(title), Some(status), Some(raw)) =>
      var coordinate := StripTicks(raw);
      if SCHEME <= coordinate then Ok(Metadata(title, status, coordinate)) else Err(NotACoordinate)
    case _ => Err(MissingMetadata)
  }

  // ----- the generated rows

  datatype Child = Child(target: Name, record: Path)

  predicate Markdown(name: Name) {
    && |name| > 3 && name[|name| - 3] == 46 && name[|name| - 2] in {109, 77} && name[|name| - 1] in {100, 68}
  }

  function ChildAt(files: Files, index: Path, name: Name): Option<Child>
    requires index != []
  {
    var directory := index[..|index| - 1];
    var file, nested := directory + [name], directory + [name, README];
    if file == index then None
    else if file in files && Markdown(name) then Some(Child(name, file))
    else if nested in files then Some(Child(name + [47], nested))
    else None
  }

  function Children(reader: Reader, files: Files, index: Path, names: seq<Name>): (children: seq<Child>)
    requires index != []
    ensures forall i | 0 <= i < |children| :: children[i].record in files && children[i].record != index
  {
    if names == [] then []
    else
      var n := |names| - 1;
      var before := Children(reader, files, index, names[..n]);
      match ChildAt(files, index, names[n])
      case None => before
      case Some(child) =>
        if reader.field(Head(files[child.record]), Coordinate).Some? then before + [child] else before
  }

  function Escape(title: Line): Line {
    if title == [] then []
    else Escape(title[..|title| - 1])
         + (if title[|title| - 1] in {91, 93} then [92, title[|title| - 1]] else [title[|title| - 1]])
  }

  function Row(target: Name, m: Metadata): Line {
    [45, 32, 91] + Escape(m.title) + [93, 40] + target + [41] + DASH
    + [91, 96] + m.coordinate + [96, 93, 40] + m.coordinate + [41] + DASH + m.status
  }

  function Rows(reader: Reader, files: Files, children: seq<Child>): Result<(seq<Line>, set<Line>), NavigationError>
    requires forall i | 0 <= i < |children| :: children[i].record in files
  {
    if children == [] then Ok(([], {}))
    else
      var n := |children| - 1;
      match Rows(reader, files, children[..n])
      case Err(e) => Err(e)
      case Ok((rows, seen)) =>
        match MetadataOf(reader, files[children[n].record])
        case Err(e) => Err(e)
        case Ok(m) =>
          if m.coordinate in seen then Err(DuplicateChild)
          else Ok((rows + [Row(children[n].target, m)], seen + {m.coordinate}))
  }

  function IndexBody(reader: Reader, layout: Layout, files: Files, index: Path): Result<seq<Line>, NavigationError>
    requires index != []
  {
    match Rows(reader, files, Children(reader, files, index, layout.entries(index[..|index| - 1])))
    case Err(e) => Err(e)
    case Ok((rows, _)) => if rows == [] then Err(NoChildren) else Ok(rows)
  }

  /** `generated_index_body`, as its loop runs. */
  method GeneratedIndexBody(reader: Reader, layout: Layout, files: Files, index: Path)
    returns (body: Result<seq<Line>, NavigationError>)
    requires index != []
    ensures body == IndexBody(reader, layout, files, index)
  {
    var children := Children(reader, files, index, layout.entries(index[..|index| - 1]));
    hide Children, Rows;
    var rows: seq<Line> := [];
    var seen: set<Line> := {};
    NoRows(reader, files, children);
    for i := 0 to |children|
      invariant Rows(reader, files, children[..i]) == Ok((rows, seen))
    {
      RowsStep(reader, files, children, i);
      match MetadataOf(reader, files[children[i].record]) {
        case Err(e) =>
          RowsFail(reader, files, children, i + 1);
          return Err(e);
        case Ok(m) =>
          if m.coordinate in seen {
            RowsFail(reader, files, children, i + 1);
            return Err(DuplicateChild);
          }
          seen := seen + {m.coordinate};
          rows := rows + [Row(children[i].target, m)];
      }
    }
    assert children[..|children|] == children;
    body := if rows == [] then Err(NoChildren) else Ok(rows);
  }

  lemma NoRows(reader: Reader, files: Files, children: seq<Child>)
    ensures Rows(reader, files, children[..0]) == Ok(([], {}))
  {
  }

  lemma RowsStep(reader: Reader, files: Files, children: seq<Child>, i: nat)
    requires i < |children| && forall k | 0 <= k < |children| :: children[k].record in files
    requires Rows(reader, files, children[..i]).Ok?
    ensures var (rows, seen) := Rows(reader, files, children[..i]).value;
      Rows(reader, files, children[..i + 1]) ==
        match MetadataOf(reader, files[children[i].record])
        case Err(e) => Err(e)
        case Ok(m) =>
          if m.coordinate in seen then Err(DuplicateChild)
          else Ok((rows + [Row(children[i].target, m)], seen + {m.coordinate}))
  {
    assert children[..i + 1][..i] == children[..i];
  }

  lemma {:induction false} RowsFail(reader: Reader, files: Files, children: seq<Child>, i: nat)
    requires forall k | 0 <= k < |children| :: children[k].record in files
    requires i <= |children| && Rows(reader, files, children[..i]).Err?
    ensures Rows(reader, files, children) == Rows(reader, files, children[..i])
  {
    if i == |children| {
      assert children[..i] == children;
    } else {
      var n := |children| - 1;
      assert children[..n][..i] == children[..i];
      RowsFail(reader, files, children[..n], i);
    }
  }

  // ----- the marked region

  predicate IsMarker(marker: Line, line: Line) {
    marker <= line && forall i | |marker| <= i < |line| :: line[i] in {32, 9}
  }

  function Positions(marker: Line, text: Text): (found: seq<nat>)
    ensures forall i | 0 <= i < |found| :: found[i] < |text|
  {
    if text == [] then []
    else
      var n := |text| - 1;
      Positions(marker, text[..n]) + if IsMarker(marker, text[n]) then [n] else []
  }

  /** `render_index`. */
  function Render(text: Text, rows: seq<Line>): Result<Text, NavigationError> {
    var starts, ends := Positions(INDEX_START, text), Positions(INDEX_END, text);
    if |starts| != 1 || |ends| != 1 then Err(NotOneRegion)
    else if starts[0] >= ends[0] then Err(Reversed)
    else Ok(text[..starts[0] + 1] + rows + text[ends[0]..])
  }

  predicate Marked(text: Text) {
    Positions(INDEX_START, text) != [] || Positions(INDEX_END, text) != []
  }

  lemma {:induction false} NoPositions(marker: Line, text: Text)
    ensures Positions(marker, text) == [] <==> forall i | 0 <= i < |text| :: !IsMarker(marker, text[i])
  {
    if text != [] {
      var n := |text| - 1;
      NoPositions(marker, text[..n]);
      assert forall i | 0 <= i < n :: text[..n][i] == text[i];
    }
  }

  ghost predicate OnlyMarker(marker: Line, text: Text, k: nat) {
    k < |text| && IsMarker(marker, text[k]) && forall i | 0 <= i < |text| && i != k :: !IsMarker(marker, text[i])
  }

  lemma OnlyMarkerFront(marker: Line, text: Text, k: nat)
    requires text != []
    ensures var n := |text| - 1;
      OnlyMarker(marker, text, k) <==>
        if IsMarker(marker, text[n]) then k == n && (forall i | 0 <= i < n :: !IsMarker(marker, text[..n][i]))
        else OnlyMarker(marker, text[..n], k)
  {
    hide IsMarker;
    var n := |text| - 1;
    assert forall i | 0 <= i < n :: text[..n][i] == text[i];
  }

  lemma {:induction false} OnePosition(marker: Line, text: Text, k: nat)
    ensures Positions(marker, text) == [k] <==> OnlyMarker(marker, text, k)
  {
    if text != [] {
      var n := |text| - 1;
      var front := text[..n];
      OnePosition(marker, front, k);
      NoPositions(marker, front);
      var before := Positions(marker, front);
      assert Positions(marker, text) == before + if IsMarker(marker, text[n]) then [n] else [];
      hide Positions, IsMarker;
      OnlyMarkerFront(marker, text, k);
      if IsMarker(marker, text[n]) {
        assert (before + [n])[|before|] == n;
        assert before == [] ==> before + [n] == [n];
      } else {
        assert before + [] == before;
      }
    }
  }

  ghost predicate Unmarked(rows: seq<Line>) {
    forall i | 0 <= i < |rows| :: !IsMarker(INDEX_START, rows[i]) && !IsMarker(INDEX_END, rows[i])
  }

  ghost predicate Region(text: Text, s: nat, e: nat) {
    OnlyMarker(INDEX_START, text, s) && OnlyMarker(INDEX_END, text, e) && s < e
  }

  /** Rendering succeeds exactly on a text with one region, and replaces its inside. */
  lemma RenderIs(text: Text, rows: seq<Line>)
    ensures Render(text, rows).Ok? <==> exists s: nat, e: nat :: Region(text, s, e)
    ensures forall s: nat, e: nat | Region(text, s, e) :: Render(text, rows) == Ok(text[..s + 1] + rows + text[e..])
  {
    var starts, ends := Positions(INDEX_START, text), Positions(INDEX_END, text);
    forall s: nat, e: nat | Region(text, s, e) ensures Render(text, rows) == Ok(text[..s + 1] + rows + text[e..]) {
      OnePosition(INDEX_START, text, s);
      OnePosition(INDEX_END, text, e);
    }
    if Render(text, rows).Ok? {
      assert starts == [starts[0]] && ends == [ends[0]];
      OnePosition(INDEX_START, text, starts[0]);
      OnePosition(INDEX_END, text, ends[0]);
      assert Region(text, starts[0], ends[0]);
    }
  }

  lemma RegionInside(text: Text, s: nat, e: nat)
    requires Region(text, s, e)
    ensures s < e < |text|
  {
  }

  /** A rendered text has its region in place, so rendering it again changes nothing. */
  lemma RenderedRegion(text: Text, rows: seq<Line>, s: nat, e: nat)
    requires Region(text, s, e) && Unmarked(rows)
    ensures var out := text[..s + 1] + rows + text[e..];
      && Region(out, s, s + 1 + |rows|) && out[..s + 1] == text[..s + 1] && out[s + 1 + |rows|..] == text[e..]
  {
    hide IsMarker;
    var out := text[..s + 1] + rows + text[e..];
    var end := s + 1 + |rows|;
    assert out[s] == text[s] && out[end] == text[e];
    forall i | 0 <= i < |out| && i != s ensures !IsMarker(INDEX_START, out[i]) { WhereFrom(text, rows, s, e, i); }
    forall i | 0 <= i < |out| && i != end ensures !IsMarker(INDEX_END, out[i]) { WhereFrom(text, rows, s, e, i); }
  }

  lemma WhereFrom(text: Text, rows: seq<Line>, s: nat, e: nat, i: nat)
    requires s < e < |text| && i < s + 1 + |rows| + |text| - e
    ensures var out := text[..s + 1] + rows + text[e..];
      && (i <= s ==> out[i] == text[i])
      && (s < i < s + 1 + |rows| ==> out[i] == rows[i - s - 1])
      && (s + 1 + |rows| <= i ==> out[i] == text[e + (i - (s + 1 + |rows|))])
  {
  }

  lemma RenderTwice(text: Text, rows: seq<Line>)
    requires Render(text, rows).Ok? && Unmarked(rows)
    ensures Render(Render(text, rows).value, rows) == Render(text, rows)
  {
    RenderIs(text, rows);
    hide Render, OnlyMarker;
    var s: nat, e: nat :| Region(text, s, e);
    assert s < |text| && e < |text| by { RegionInside(text, s, e); }
    RenderedRegion(text, rows, s, e);
    var out := Render(text, rows).value;
    assert out == text[..s + 1] + rows + text[e..];
    RenderIs(out, rows);
    assert out[..s + 1] + rows + out[s + 1 + |rows|..] == out;
  }

  // ----- rows are never markers

  lemma {:induction false} RowsAreUnmarked(reader: Reader, files: Files, children: seq<Child>)
    requires forall i | 0 <= i < |children| :: children[i].record in files
    ensures Rows(reader, files, children).Ok? ==> Unmarked(Rows(reader, files, children).value.0)
  {
    if children != [] {
      var n := |children| - 1;
      RowsAreUnmarked(reader, files, children[..n]);
      hide Escape;
      assert INDEX_START[0] == 60 && INDEX_END[0] == 60;
      assert forall target, m :: Row(target, m)[0] == 45;
    }
  }

  // ----- the tree

  /** The layout lists files that exist, each once. */
  ghost predicate Lists(layout: Layout, files: Files) {
    Distinct(layout.readmes) && forall i | 0 <= i < |layout.readmes| :: layout.readmes[i] != [] && layout.readmes[i] in files
  }

  ghost predicate IsIndex(layout: Layout, files: Files, path: Path) {
    path in layout.readmes && path in files && Marked(files[path])
  }

  /** Below the header lines, and the title is decided above: no text that starts
      like this one down to the start marker has another title. */
  ghost predicate RegionIsLow(reader: Reader, text: Text) {
    forall s: nat, e: nat | Region(text, s, e) ::
      s + 1 >= HEADER_LINES && TitledAbove(reader, text, s)
  }

  ghost predicate TitledAbove(reader: Reader, text: Text, s: nat)
    requires s < |text|
  {
    forall other | text[..s + 1] <= other :: reader.title(other) == reader.title(text)
  }

  ghost predicate Settled(reader: Reader, layout: Layout, files: Files) {
    forall path | IsIndex(layout, files, path) :: RegionIsLow(reader, files[path])
  }

  /** The text an index should have. */
  function Expected(reader: Reader, layout: Layout, files: Files, path: Path): Result<Text, NavigationError>
    requires path != [] && path in files
  {
    match IndexBody(reader, layout, files, path)
    case Err(e) => Err(e)
    case Ok(rows) => Render(files[path], rows)
  }

  ghost predicate Regenerable(reader: Reader, layout: Layout, files: Files)
    requires Lists(layout, files)
  {
    forall path | IsIndex(layout, files, path) :: Expected(reader, layout, files, path).Ok?
  }

  ghost function Regenerated(reader: Reader, layout: Layout, files: Files): Files
    requires Lists(layout, files) && Regenerable(reader, layout, files)
  {
    map path | path in files ::
      if IsIndex(layout, files, path) then Expected(reader, layout, files, path).value else files[path]
  }

  ghost predicate DriftFree(reader: Reader, layout: Layout, files: Files)
    requires Lists(layout, files)
  {
    forall path | IsIndex(layout, files, path) :: Expected(reader, layout, files, path) == Ok(files[path])
  }

  // ----- what generated text depends on

  ghost predicate SameMetadata(reader: Reader, a: Files, b: Files) {
    && a.Keys == b.Keys
    && forall path | path in a :: Head(a[path]) == Head(b[path]) && reader.title(a[path]) == reader.title(b[path])
  }

  lemma {:induction false} ChildrenSame(reader: Reader, a: Files, b: Files, index: Path, names: seq<Name>)
    requires SameMetadata(reader, a, b) && index != []
    ensures Children(reader, a, index, names) == Children(reader, b, index, names)
  {
    if names != [] {
      var n := |names| - 1;
      ChildrenSame(reader, a, b, index, names[..n]);
      assert ChildAt(a, index, names[n]) == ChildAt(b, index, names[n]);
    }
  }

  lemma {:induction false} RowsSame(reader: Reader, a: Files, b: Files, children: seq<Child>)
    requires SameMetadata(reader, a, b) && forall i | 0 <= i < |children| :: children[i].record in a
    ensures Rows(reader, a, children) == Rows(reader, b, children)
  {
    if children != [] {
      var n := |children| - 1;
      RowsSame(reader, a, b, children[..n]);
      hide Head;
      assert MetadataOf(reader, a[children[n].record]) == MetadataOf(reader, b[children[n].record]);
    }
  }

  /** Generated rows depend on headers and titles only. */
  lemma BodySame(reader: Reader, layout: Layout, a: Files, b: Files, index: Path)
    requires SameMetadata(reader, a, b) && index != []
    ensures IndexBody(reader, layout, a, index) == IndexBody(reader, layout, b, index)
  {
    hide Children, Rows;
    var names := layout.entries(index[..|index| - 1]);
    ChildrenSame(reader, a, b, index, names);
    RowsSame(reader, a, b, Children(reader, a, index, names));
  }

  lemma BodyIsUnmarked(reader: Reader, layout: Layout, files: Files, index: Path)
    requires index != [] && IndexBody(reader, layout, files, index).Ok?
    ensures Unmarked(IndexBody(reader, layout, files, index).value)
  {
    RowsAreUnmarked(reader, files, Children(reader, files, index, layout.entries(index[..|index| - 1])));
  }

  /** What an index and its regenerated text share. */
  ghost predicate AuthoredKept(text: Text, out: Text) {
    exists s: nat, e: nat, f: nat ::
      Region(text, s, e) && Region(out, s, f) && text[..s + 1] == out[..s + 1] && text[e..] == out[f..]
  }

  lemma ExpectedKeeps(reader: Reader, layout: Layout, files: Files, path: Path)
    requires path != [] && path in files && RegionIsLow(reader, files[path])
    requires Expected(reader, layout, files, path).Ok?
    ensures var text, out := files[path], Expected(reader, layout, files, path).value;
      && AuthoredKept(text, out) && Head(out) == Head(text) && reader.title(out) == reader.title(text)
      && RegionIsLow(reader, out) && Marked(out)
  {
    var rows := IndexBody(reader, layout, files, path).value;
    var text, out := files[path], Expected(reader, layout, files, path).value;
    BodyIsUnmarked(reader, layout, files, path);
    RenderKeeps(reader, text, rows);
  }

  lemma RenderKeeps(reader: Reader, text: Text, rows: seq<Line>)
    requires Render(text, rows).Ok? && Unmarked(rows) && RegionIsLow(reader, text)
    ensures var out := Render(text, rows).value;
      && AuthoredKept(text, out) && Head(out) == Head(text) && reader.title(out) == reader.title(text)
      && RegionIsLow(reader, out) && Marked(out)
  {
    RenderIs(text, rows);
    hide Render, OnlyMarker;
    var s: nat, e: nat :| Region(text, s, e);
    RegionInside(text, s, e);
    RenderedRegion(text, rows, s, e);
    var out := Render(text, rows).value;
    var f := s + 1 + |rows|;
    assert out == text[..s + 1] + rows + text[e..];
    assert text[..s + 1] <= out;
    assert TitledAbove(reader, text, s);
    RegionInside(out, s, f);
    forall s2: nat, e2: nat | Region(out, s2, e2)
      ensures s2 < |out| && s2 + 1 >= HEADER_LINES && TitledAbove(reader, out, s2)
    {
      OneRegion(out, s, f, s2, e2);
      forall other | out[..s + 1] <= other ensures reader.title(other) == reader.title(out) {
        assert text[..s + 1] <= other;
      }
    }
    assert Head(out) == text[..s + 1][..HEADER_LINES] == Head(text);
    assert Marked(out) by { RegionIsMarked(out, s, f); }
  }

  lemma OneRegion(text: Text, s: nat, e: nat, s2: nat, e2: nat)
    requires Region(text, s, e) && Region(text, s2, e2)
    ensures s == s2 && e == e2
  {
  }

  lemma RegionIsMarked(text: Text, s: nat, e: nat)
    requires Region(text, s, e)
    ensures Marked(text)
  {
    NoPositions(INDEX_START, text);
  }

  // ----- one pass settles the tree

  lemma PassKeepsMetadata(reader: Reader, layout: Layout, files: Files)
    requires Lists(layout, files) && Regenerable(reader, layout, files) && Settled(reader, layout, files)
    ensures SameMetadata(reader, files, Regenerated(reader, layout, files))
    ensures Settled(reader, layout, Regenerated(reader, layout, files))
    ensures forall path | path in files ::
      IsIndex(layout, files, path) <==> IsIndex(layout, Regenerated(reader, layout, files), path)
  {
    hide Head, Expected, RegionIsLow, Marked;
    var after := Regenerated(reader, layout, files);
    forall path | IsIndex(layout, files, path)
      ensures Head(files[path]) == Head(after[path]) && reader.title(files[path]) == reader.title(after[path])
      ensures RegionIsLow(reader, after[path]) && Marked(after[path])
    {
      ExpectedKeeps(reader, layout, files, path);
    }
  }

  /** After one pass the drift check has nothing to report, a second pass changes no
      file, and in every index the text outside the markers is the author's. */
  lemma OnePassSettles(reader: Reader, layout: Layout, files: Files)
    requires Lists(layout, files) && Regenerable(reader, layout, files) && Settled(reader, layout, files)
    ensures var after := Regenerated(reader, layout, files);
      && Lists(layout, after) && DriftFree(reader, layout, after) && Regenerable(reader, layout, after)
      && Regenerated(reader, layout, after) == after && Settled(reader, layout, after)
    ensures forall path | path in files ::
      if IsIndex(layout, files, path) then AuthoredKept(files[path], Regenerated(reader, layout, files)[path])
      else Regenerated(reader, layout, files)[path] == files[path]
  {
    var after := Regenerated(reader, layout, files);
    PassKeepsMetadata(reader, layout, files);
    hide Head, RegionIsLow, Marked, IndexBody, Render, AuthoredKept;
    forall path | IsIndex(layout, after, path) ensures Expected(reader, layout, after, path) == Ok(after[path]) {
      assert IsIndex(layout, files, path) && after[path] == Expected(reader, layout, files, path).value;
      BodySame(reader, layout, files, after, path);
      BodyIsUnmarked(reader, layout, files, path);
      RenderTwice(files[path], IndexBody(reader, layout, files, path).value);
    }
    forall path | IsIndex(layout, files, path) ensures AuthoredKept(files[path], after[path]) {
      ExpectedKeeps(reader, layout, files, path);
    }
    assert Regenerated(reader, layout, after) == after;
  }

  // ----- the commands

  ghost predicate MarkedList(layout: Layout, files: Files, indexes: seq<Path>) {
    Distinct(indexes) && forall path :: path in indexes <==> IsIndex(layout, files, path)
  }

  /** The marked ones of these paths, in their order. */
  function MarkedOf(files: Files, paths: seq<Path>): seq<Path> {
    if paths == [] then []
    else
      var n := |paths| - 1;
      MarkedOf(files, paths[..n]) + if paths[n] in files && Marked(files[paths[n]]) then [paths[n]] else []
  }

  lemma MarkedNext(files: Files, paths: seq<Path>, i: nat)
    requires i < |paths|
    ensures MarkedOf(files, paths[..i + 1])
         == MarkedOf(files, paths[..i]) + if paths[i] in files && Marked(files[paths[i]]) then [paths[i]] else []
  {
    assert paths[..i + 1][..i] == paths[..i];
  }

  lemma NothingMarked(files: Files, paths: seq<Path>)
    ensures MarkedOf(files, paths[..0]) == []
  {
  }

  method MarkedIndexes(layout: Layout, files: Files) returns (indexes: seq<Path>)
    requires Lists(layout, files)
    ensures MarkedList(layout, files, indexes) && indexes == MarkedOf(files, layout.readmes)
    ensures forall i | 0 <= i < |indexes| :: indexes[i] != [] && indexes[i] in files
  {
    hide Marked, MarkedOf;
    indexes := [];
    NothingMarked(files, layout.readmes);
    for i := 0 to |layout.readmes|
      invariant Distinct(indexes) && indexes == MarkedOf(files, layout.readmes[..i])
      invariant forall j | 0 <= j < |indexes| :: indexes[j] != [] && indexes[j] in files
      invariant forall path :: path in indexes <==> path in layout.readmes[..i] && path in files && Marked(files[path])
    {
      var path := layout.readmes[i];
      assert path !in layout.readmes[..i];
      MarkedNext(files, layout.readmes, i);
      if Marked(files[path]) { indexes := indexes + [path]; }
    }
    assert layout.readmes[..|layout.readmes|] == layout.readmes;
  }

  /** What is wrong with an index: nothing, the error it cannot be rendered for, or that it
      is stale. */
  function DriftOf(reader: Reader, layout: Layout, files: Files, index: Path): Option<Option<NavigationError>>
    requires index != [] && index in files
  {
    match Expected(reader, layout, files, index)
    case Err(e) => Some(Some(e))
    case Ok(text) => if text == files[index] then None else Some(None)
  }

  /** The failures of these indexes, in their order. */
  function Drifts(reader: Reader, layout: Layout, files: Files, indexes: seq<Path>): seq<(Path, Option<NavigationError>)>
    requires forall i | 0 <= i < |indexes| :: indexes[i] != [] && indexes[i] in files
  {
    if indexes == [] then []
    else
      var n := |indexes| - 1;
      var before := Drifts(reader, layout, files, indexes[..n]);
      match DriftOf(reader, layout, files, indexes[n])
      case None => before
      case Some(why) => before + [(indexes[n], why)]
  }

  lemma DriftNext(reader: Reader, layout: Layout, files: Files, indexes: seq<Path>, i: nat)
    requires i < |indexes| && forall k | 0 <= k < |indexes| :: indexes[k] != [] && indexes[k] in files
    ensures Drifts(reader, layout, files, indexes[..i + 1]) ==
      match DriftOf(reader, layout, files, indexes[i])
      case None => Drifts(reader, layout, files, indexes[..i])
      case Some(why) => Drifts(reader, layout, files, indexes[..i]) + [(indexes[i], why)]
  {
    hide DriftOf;
    assert indexes[..i + 1][..i] == indexes[..i];
  }

  lemma NoDrift(reader: Reader, layout: Layout, files: Files, indexes: seq<Path>)
    ensures Drifts(reader, layout, files, indexes[..0]) == []
  {
  }

  lemma {:induction false} DriftFreeIs(reader: Reader, layout: Layout, files: Files, indexes: seq<Path>)
    requires forall i | 0 <= i < |indexes| :: indexes[i] != [] && indexes[i] in files
    ensures Drifts(reader, layout, files, indexes) == [] <==>
      forall j | 0 <= j < |indexes| :: Expected(reader, layout, files, indexes[j]) == Ok(files[indexes[j]])
  {
    hide Expected;
    if indexes != [] {
      var n := |indexes| - 1;
      DriftFreeIs(reader, layout, files, indexes[..n]);
      assert forall j | 0 <= j < n :: indexes[..n][j] == indexes[j];
    }
  }

  /** `index_drift_failures`: one failure for each marked index that is not what it should
      be, in order, with what is wrong; none exactly when every index is as it should be. */
  method IndexDriftFailures(reader: Reader, layout: Layout, files: Files) returns (failures: seq<(Path, Option<NavigationError>)>)
    requires Lists(layout, files)
    ensures forall i | 0 <= i < |MarkedOf(files, layout.readmes)| ::
      MarkedOf(files, layout.readmes)[i] != [] && MarkedOf(files, layout.readmes)[i] in files
    ensures failures == Drifts(reader, layout, files, MarkedOf(files, layout.readmes))
    ensures failures == [] <==> DriftFree(reader, layout, files)
  {
    hide Marked, MarkedOf, IndexBody, Render, Drifts;
    var indexes := MarkedIndexes(layout, files);
    failures := [];
    NoDrift(reader, layout, files, indexes);
    for i := 0 to |indexes|
      invariant failures == Drifts(reader, layout, files, indexes[..i])
    {
      var index := indexes[i];
      assert index in indexes;
      DriftNext(reader, layout, files, indexes, i);
      var body := GeneratedIndexBody(reader, layout, files, index);
      if body.Err? {
        failures := failures + [(index, Some(body.error))];
      } else {
        var expected := Render(files[index], body.value);
        if expected.Err? {
          failures := failures + [(index, Some(expected.error))];
        } else if expected.value != files[index] {
          failures := failures + [(index, None)];
        }
      }
    }
    assert indexes[..|indexes|] == indexes;
    DriftFreeIs(reader, layout, files, indexes);
    MarkedDriftFree(reader, layout, files, indexes);
  }

  lemma MarkedDriftFree(reader: Reader, layout: Layout, files: Files, indexes: seq<Path>)
    requires Lists(layout, files) && MarkedList(layout, files, indexes)
    requires forall i | 0 <= i < |indexes| :: indexes[i] != [] && indexes[i] in files
    ensures DriftFree(reader, layout, files) <==>
      forall j | 0 <= j < |indexes| :: Expected(reader, layout, files, indexes[j]) == Ok(files[indexes[j]])
  {
    hide Expected, Marked;
    forall j | 0 <= j < |indexes| ensures IsIndex(layout, files, indexes[j]) { assert indexes[j] in indexes; }
  }

  /** A path has been regenerated, or still has its old text. */
  ghost predicate PartlyWritten(reader: Reader, layout: Layout, before: Files, now: Files, done: set<Path>)
    requires Lists(layout, before)
  {
    && now.Keys == before.Keys
    && forall path | path in before ::
      if path in done then
        IsIndex(layout, before, path) && Expected(reader, layout, before, path) == Ok(now[path])
      else now[path] == before[path]
  }

  lemma PartlyWrittenKeepsMetadata(reader: Reader, layout: Layout, before: Files, now: Files, done: set<Path>)
    requires Lists(layout, before) && Settled(reader, layout, before)
    requires PartlyWritten(reader, layout, before, now, done)
    ensures SameMetadata(reader, before, now)
  {
    hide Head, Expected, RegionIsLow, Marked;
    forall path | path in before
      ensures Head(before[path]) == Head(now[path]) && reader.title(before[path]) == reader.title(now[path])
    {
      if path in done { ExpectedKeeps(reader, layout, before, path); }
    }
  }

  // ----- the pass, index by index

  /** The tree that a pass leaves behind, and why it stopped. */
  datatype Passed = Passed(files: Files, error: Option<NavigationError>)

  /** Each index rendered from a tree whose earlier indexes have been rewritten. */
  function Pass(reader: Reader, layout: Layout, files: Files, indexes: seq<Path>): (p: Passed)
    requires forall i | 0 <= i < |indexes| :: indexes[i] != [] && indexes[i] in files
    ensures p.files.Keys == files.Keys
  {
    if indexes == [] then Passed(files, None)
    else
      var n := |indexes| - 1;
      var before := Pass(reader, layout, files, indexes[..n]);
      if before.error.Some? then before
      else
        match Expected(reader, layout, before.files, indexes[n])
        case Err(e) => Passed(before.files, Some(e))
        case Ok(text) => Passed(before.files[indexes[n] := text], None)
  }

  lemma PassNext(reader: Reader, layout: Layout, files: Files, indexes: seq<Path>, i: nat)
    requires forall k | 0 <= k < |indexes| :: indexes[k] != [] && indexes[k] in files
    requires i < |indexes| && Pass(reader, layout, files, indexes[..i]).error.None?
    ensures var now := Pass(reader, layout, files, indexes[..i]).files;
      Pass(reader, layout, files, indexes[..i + 1]) ==
        match Expected(reader, layout, now, indexes[i])
        case Err(e) => Passed(now, Some(e))
        case Ok(text) => Passed(now[indexes[i] := text], None)
  {
    assert indexes[..i + 1][..i] == indexes[..i];
  }

  lemma {:induction false} PassStops(reader: Reader, layout: Layout, files: Files, indexes: seq<Path>, i: nat)
    requires forall k | 0 <= k < |indexes| :: indexes[k] != [] && indexes[k] in files
    requires i <= |indexes| && Pass(reader, layout, files, indexes[..i]).error.Some?
    ensures Pass(reader, layout, files, indexes) == Pass(reader, layout, files, indexes[..i])
  {
    if i == |indexes| {
      assert indexes[..i] == indexes;
    } else {
      var n := |indexes| - 1;
      assert indexes[..n][..i] == indexes[..i];
      PassStops(reader, layout, files, indexes[..n], i);
    }
  }

  function PathSet(paths: seq<Path>): set<Path> {
    set path | path in paths
  }

  /** On a settled tree the order of rewriting does not show: the pass gets through
      exactly when every index can be rendered from the tree as it was, and gives every
      index it reached that text. */
  lemma {:induction false} PassWhenSettled(reader: Reader, layout: Layout, files: Files, indexes: seq<Path>, i: nat)
    returns (done: set<Path>)
    requires Lists(layout, files) && Settled(reader, layout, files) && MarkedList(layout, files, indexes)
    requires i <= |indexes| && forall k | 0 <= k < |indexes| :: indexes[k] != [] && indexes[k] in files
    ensures var p := Pass(reader, layout, files, indexes[..i]);
      && PartlyWritten(reader, layout, files, p.files, done) && (forall path | path in done :: path in indexes[..i])
      && (p.error.None? ==> done == PathSet(indexes[..i]))
      && (p.error.None? <==> forall j | 0 <= j < i :: Expected(reader, layout, files, indexes[j]).Ok?)
  {
    hide Expected, Settled;
    if i == 0 {
      done := {};
      assert indexes[..0] == [];
    } else {
      var k := i - 1;
      done := PassWhenSettled(reader, layout, files, indexes, k);
      if Pass(reader, layout, files, indexes[..k]).error.None? {
        PassNext(reader, layout, files, indexes, k);
        done := OneMore(reader, layout, files, indexes, k, done);
      } else {
        assert indexes[..i][..k] == indexes[..k];
      }
    }
  }

  lemma OneMore(reader: Reader, layout: Layout, files: Files, indexes: seq<Path>, k: nat, done: set<Path>)
    returns (more: set<Path>)
    requires Lists(layout, files) && Settled(reader, layout, files) && MarkedList(layout, files, indexes)
    requires k < |indexes| && forall k | 0 <= k < |indexes| :: indexes[k] != [] && indexes[k] in files
    requires var p := Pass(reader, layout, files, indexes[..k]);
      && p.error.None? && PartlyWritten(reader, layout, files, p.files, done)
    requires done == PathSet(indexes[..k])
    ensures var p := Pass(reader, layout, files, indexes[..k + 1]);
      && PartlyWritten(reader, layout, files, p.files, more) && (forall path | path in more :: path in indexes[..k + 1])
      && (p.error.None? ==> more == PathSet(indexes[..k + 1]))
      && (p.error.None? <==> Expected(reader, layout, files, indexes[k]).Ok?)
  {
    hide Marked, IndexBody, Render, Head, RegionIsLow, Pass;
    var now, index := Pass(reader, layout, files, indexes[..k]).files, indexes[k];
    PassNext(reader, layout, files, indexes, k);
    assert index in indexes && index !in done && now[index] == files[index];
    PartlyWrittenKeepsMetadata(reader, layout, files, now, done);
    BodySame(reader, layout, files, now, index);
    assert Expected(reader, layout, now, index) == Expected(reader, layout, files, index);
    more := if Expected(reader, layout, files, index).Ok? then done + {index} else done;
    assert indexes[..k + 1] == indexes[..k] + [index];
  }

  lemma RenderKeepsAuthored(text: Text, rows: seq<Line>)
    requires Render(text, rows).Ok? && Unmarked(rows)
    ensures AuthoredKept(text, Render(text, rows).value)
  {
    RenderIs(text, rows);
    hide Render, OnlyMarker;
    var s: nat, e: nat :| Region(text, s, e);
    RegionInside(text, s, e);
    RenderedRegion(text, rows, s, e);
    RegionInside(text[..s + 1] + rows + text[e..], s, s + 1 + |rows|);
  }

  /** The paths whose text differs, in their order. */
  function ChangedOf(before: Files, now: Files, paths: seq<Path>): seq<Path> {
    if paths == [] then []
    else
      var n := |paths| - 1;
      ChangedOf(before, now, paths[..n])
      + if paths[n] in before && paths[n] in now && now[paths[n]] != before[paths[n]] then [paths[n]] else []
  }

  lemma {:induction false} ChangedSame(before: Files, a: Files, b: Files, paths: seq<Path>)
    requires a.Keys == b.Keys && forall i | 0 <= i < |paths| && paths[i] in a :: a[paths[i]] == b[paths[i]]
    ensures ChangedOf(before, a, paths) == ChangedOf(before, b, paths)
  {
    if paths != [] { ChangedSame(before, a, b, paths[..|paths| - 1]); }
  }

  lemma ChangedNext(before: Files, was: Files, now: Files, paths: seq<Path>, i: nat, text: Text)
    requires i < |paths| && paths[i] in before && paths[i] in was && paths[i] !in paths[..i]
    requires was[paths[i]] == before[paths[i]] && now == was[paths[i] := text]
    ensures ChangedOf(before, now, paths[..i + 1])
         == ChangedOf(before, was, paths[..i]) + if text != before[paths[i]] then [paths[i]] else []
  {
    assert paths[..i + 1][..i] == paths[..i];
    forall k | 0 <= k < i && paths[..i][k] in was ensures was[paths[..i][k]] == now[paths[..i][k]] {
      assert paths[..i][k] in paths[..i];
    }
    ChangedSame(before, was, now, paths[..i]);
  }

  lemma NothingChanged(before: Files, now: Files, paths: seq<Path>)
    ensures ChangedOf(before, now, paths[..0]) == []
  {
  }

  class Checkout {
    const reader: Reader
    const layout: Layout
    var files: Files

    constructor (reader: Reader, layout: Layout, files: Files)
      ensures this.reader == reader && this.layout == layout && this.files == files
    {
      this.reader, this.layout, this.files := reader, layout, files;
    }

    /** `write_indexes`: one pass over the marked indexes. It touches nothing but what
        lies between markers, and lists the changed files. On a settled tree it succeeds
        exactly when every index can be rendered from the tree as it was, and then leaves
        the regenerated tree; a failure leaves every file with its old or its regenerated
        text. */
    method WriteIndexes() returns (r: Result<seq<Path>, NavigationError>, ghost indexes: seq<Path>)
      requires Lists(layout, files)
      modifies this
      ensures MarkedList(layout, old(files), indexes) && indexes == MarkedOf(old(files), layout.readmes)
      ensures forall i | 0 <= i < |indexes| :: indexes[i] != [] && indexes[i] in old(files)
      ensures var p := Pass(reader, layout, old(files), indexes);
        && files == p.files && p.error == (if r.Ok? then None else Some(r.error))
      ensures forall path | path in files ::
        files[path] == old(files)[path] || (IsIndex(layout, old(files), path) && AuthoredKept(old(files)[path], files[path]))
      ensures r.Ok? ==> r.value == ChangedOf(old(files), files, indexes)
      ensures r.Ok? ==> forall path :: path in r.value <==> path in files && files[path] != old(files)[path]
      ensures Settled(reader, layout, old(files)) ==>
        && (r.Ok? <==> Regenerable(reader, layout, old(files)))
        && (r.Ok? ==> files == Regenerated(reader, layout, old(files)))
        && exists done :: PartlyWritten(reader, layout, old(files), files, done)
    {
      hide Marked, MarkedOf, ChangedOf, IndexBody, Render, Head, RegionIsLow, Pass, AuthoredKept;
      var list := MarkedIndexes(layout, files);
      indexes := list;
      PassOfNothing(reader, layout, files, list);
      var changed: seq<Path> := [];
      NothingChanged(files, files, list);
      for i := 0 to |list|
        invariant changed == ChangedOf(old(files), files, list[..i])
        invariant Pass(reader, layout, old(files), list[..i]) == Passed(files, None)
        invariant forall path :: path in changed <==> path in files && files[path] != old(files)[path]
        invariant forall path | path in files :: files[path] == old(files)[path] || path in list[..i]
        invariant forall path | path in files :: files[path] == old(files)[path] || AuthoredKept(old(files)[path], files[path])
      {
        var index := list[i];
        assert index in list && index !in list[..i];
        PassNext(reader, layout, old(files), list, i);
        var body := GeneratedIndexBody(reader, layout, files, index);
        if body.Err? {
          PassStops(reader, layout, old(files), list, i + 1);
          SettledPass(reader, layout, old(files), list);
          return Err(body.error), indexes;
        }
        var expected := Render(files[index], body.value);
        if expected.Err? {
          PassStops(reader, layout, old(files), list, i + 1);
          SettledPass(reader, layout, old(files), list);
          return Err(expected.error), indexes;
        }
        BodyIsUnmarked(reader, layout, files, index);
        RenderKeepsAuthored(files[index], body.value);
        ghost var was := files;
        if expected.value != files[index] {
          files := files[index := expected.value];
          changed := changed + [index];
        }
        assert files == was[index := expected.value];
        ChangedNext(old(files), was, files, list, i, expected.value);
      }
      assert list[..|list|] == list;
      SettledPass(reader, layout, old(files), list);
      r := Ok(changed);
    }
  }

  lemma PassOfNothing(reader: Reader, layout: Layout, files: Files, indexes: seq<Path>)
    ensures Pass(reader, layout, files, indexes[..0]) == Passed(files, None)
  {
  }

  /** What a whole pass over a settled tree gives. */
  lemma SettledPass(reader: Reader, layout: Layout, files: Files, indexes: seq<Path>)
    requires Lists(layout, files) && MarkedList(layout, files, indexes)
    requires forall k | 0 <= k < |indexes| :: indexes[k] != [] && indexes[k] in files
    ensures var p := Pass(reader, layout, files, indexes);
      Settled(reader, layout, files) ==>
        && (p.error.None? <==> Regenerable(reader, layout, files))
        && (p.error.None? ==> p.files == Regenerated(reader, layout, files))
        && exists done :: PartlyWritten(reader, layout, files, p.files, done)
  {
    hide Marked, IndexBody, Render, Head, RegionIsLow, Pass, Expected, Settled;
    if Settled(reader, layout, files) {
      assert indexes[..|indexes|] == indexes;
      var done := PassWhenSettled(reader, layout, files, indexes, |indexes|);
      assert forall j | 0 <= j < |indexes| :: indexes[j] in indexes && IsIndex(layout, files, indexes[j]);
      forall path | IsIndex(layout, files, path) ensures path in indexes {
      }
      if Pass(reader, layout, files, indexes).error.None? {
        assert Pass(reader, layout, files, indexes).files == Regenerated(reader, layout, files);
      }
    }
  }
}
