/** What a generated index says: one row for each child of its directory that has a
    coordinate, in name order, each row showing that child's title, link, coordinate and
    status. */
module NavigationRows {
  import opened Bytes
  import opened Wrappers
  import opened Navigation

  // ----- which entries are children

  predicate MarkdownSuffix(suffix: Name) {
    suffix == Ascii(".md") || suffix == Ascii(".mD") || suffix == Ascii(".Md") || suffix == Ascii(".MD")
  }

  /** A Markdown file name: something, a full stop, and the letters in either case. */
  ghost predicate MarkdownName(name: Name) {
    exists stem: Name, suffix: Name :: stem != [] && name == stem + suffix && MarkdownSuffix(suffix)
  }

  lemma SuffixIs(suffix: Name)
    ensures MarkdownSuffix(suffix) <==> |suffix| == 3 && suffix[0] == 46 && suffix[1] in {109, 77} && suffix[2] in {100, 68}
  {
    assert Ascii(".md") == [46, 109, 100] && Ascii(".mD") == [46, 109, 68];
    assert Ascii(".Md") == [46, 77, 100] && Ascii(".MD") == [46, 77, 68];
    if |suffix| == 3 { assert suffix == [suffix[0], suffix[1], suffix[2]]; }
  }

  lemma MarkdownIs(name: Name)
    ensures Markdown(name) <==> MarkdownName(name)
  {
    if Markdown(name) {
      var n := |name| - 3;
      SuffixIs(name[n..]);
      assert name == name[..n] + name[n..];
    }
    hide MarkdownSuffix;
    if stem: Name, suffix: Name :| stem != [] && name == stem + suffix && MarkdownSuffix(suffix) {
      SuffixIs(suffix);
      assert name[|name| - 3] == suffix[0] && name[|name| - 2] == suffix[1] && name[|name| - 1] == suffix[2];
    }
  }

  /** The record an entry of the index's directory stands for, and how the row links it:
      another Markdown file by its name, or a directory with a README by its name and a
      slash. */
  ghost predicate StandsFor(files: Files, index: Path, name: Name, target: Name, record: Path)
    requires index != []
  {
    var directory := index[..|index| - 1];
    var file, readme := directory + [name], directory + [name] + [Ascii("README.md")];
    && file != index && record in files
    && if file in files && MarkdownName(name) then record == file && target == name
       else record == readme && target == name + Ascii("/")
  }

  ghost predicate Listed(reader: Reader, files: Files, index: Path, name: Name)
    requires index != []
  {
    exists target, record :: StandsFor(files, index, name, target, record)
      && reader.field(Head(files[record]), Coordinate).Some?
  }

  lemma ChildAtIs(files: Files, index: Path, name: Name, target: Name, record: Path)
    requires index != []
    ensures ChildAt(files, index, name) == Some(Child(target, record)) <==> StandsFor(files, index, name, target, record)
  {
    MarkdownIs(name);
    hide Markdown, MarkdownName;
    var directory := index[..|index| - 1];
    assert directory + [name] + [README] == directory + [name, README];
    assert Ascii("/") == [47];
  }

  lemma ListedIs(reader: Reader, files: Files, index: Path, name: Name)
    requires index != []
    ensures Listed(reader, files, index, name) <==>
      var child := ChildAt(files, index, name);
      child.Some? && child.value.record in files && reader.field(Head(files[child.value.record]), Coordinate).Some?
  {
    hide Head, StandsFor;
    var child := ChildAt(files, index, name);
    if child.Some? {
      ChildAtIs(files, index, name, child.value.target, child.value.record);
    }
    forall target, record | StandsFor(files, index, name, target, record)
      ensures child == Some(Child(target, record))
    {
      ChildAtIs(files, index, name, target, record);
    }
  }

  ghost predicate ListedAt(reader: Reader, files: Files, index: Path, names: seq<Name>, k: nat)
    requires index != []
  {
    k < |names| && Listed(reader, files, index, names[k])
  }

  /** `picked` are the positions of the listed names, in order. */
  ghost predicate Picks(reader: Reader, files: Files, index: Path, names: seq<Name>, picked: seq<nat>)
    requires index != []
  {
    && (forall k: nat :: k in picked <==> ListedAt(reader, files, index, names, k))
    && (forall i, j | 0 <= i < j < |picked| :: picked[i] < picked[j])
  }

  lemma PicksMore(reader: Reader, files: Files, index: Path, names: seq<Name>, picked: seq<nat>)
    requires index != [] && names != [] && Picks(reader, files, index, names[..|names| - 1], picked)
    ensures var n := |names| - 1;
      Picks(reader, files, index, names, if Listed(reader, files, index, names[n]) then picked + [n] else picked)
  {
    hide Listed;
    var n := |names| - 1;
    var more := if Listed(reader, files, index, names[n]) then picked + [n] else picked;
    forall k: nat ensures ListedAt(reader, files, index, names, k)
      <==> ListedAt(reader, files, index, names[..n], k) || (k == n && Listed(reader, files, index, names[n]))
    {
    }
    hide ListedAt;
    forall i | 0 <= i < |picked| ensures picked[i] < n {
      assert picked[i] in picked;
      PickedIsName(reader, files, index, names[..n], picked[i]);
    }
  }

  lemma PickedIsName(reader: Reader, files: Files, index: Path, names: seq<Name>, k: nat)
    requires index != [] && ListedAt(reader, files, index, names, k)
    ensures k < |names|
  {
  }

  ghost predicate Stand(files: Files, index: Path, names: seq<Name>, picked: seq<nat>, children: seq<Child>)
    requires index != []
  {
    |children| == |picked| && forall i | 0 <= i < |picked| ::
      picked[i] < |names| && StandsFor(files, index, names[picked[i]], children[i].target, children[i].record)
  }

  lemma StandMore(files: Files, index: Path, names: seq<Name>, picked: seq<nat>, children: seq<Child>, child: Child)
    requires index != [] && names != [] && Stand(files, index, names[..|names| - 1], picked, children)
    ensures Stand(files, index, names, picked, children)
    ensures StandsFor(files, index, names[|names| - 1], child.target, child.record) ==>
      Stand(files, index, names, picked + [|names| - 1], children + [child])
  {
    hide StandsFor;
    var n := |names| - 1;
    assert forall k | 0 <= k < n :: names[..n][k] == names[k];
  }

  /** The children are those of the picked names. */
  lemma {:induction false} ChildrenAre(reader: Reader, files: Files, index: Path, names: seq<Name>) returns (picked: seq<nat>)
    requires index != []
    ensures Picks(reader, files, index, names, picked)
    ensures Stand(files, index, names, picked, Children(reader, files, index, names))
  {
    if names == [] {
      picked := [];
    } else {
      hide Listed, StandsFor, ChildAt, Head, Picks, Stand;
      var n := |names| - 1;
      var before := ChildrenAre(reader, files, index, names[..n]);
      ListedIs(reader, files, index, names[n]);
      PicksMore(reader, files, index, names, before);
      var child := ChildAt(files, index, names[n]);
      var children := Children(reader, files, index, names[..n]);
      if Listed(reader, files, index, names[n]) {
        ChildAtIs(files, index, names[n], child.value.target, child.value.record);
        StandMore(files, index, names, before, children, child.value);
        picked := before + [n];
      } else {
        StandMore(files, index, names, before, children, Child([], []));
        picked := before;
      }
    }
  }

  // ----- what a row shows

  predicate Bracket(b: byte) { b == 91 || b == 93 }

  /** Taking the backslash before each bracket away again. */
  function Unescape(line: Line): Line
    decreases |line|
  {
    if line == [] then []
    else if |line| >= 2 && line[0] == 92 && Bracket(line[1]) then [line[1]] + Unescape(line[2..])
    else [line[0]] + Unescape(line[1..])
  }

  lemma {:induction false} EscapeFront(first: byte, rest: Line)
    ensures Escape([first] + rest) == (if Bracket(first) then [92, first] else [first]) + Escape(rest)
  {
    var title := [first] + rest;
    if rest == [] {
      assert title[..0] == [];
    } else {
      var n := |rest| - 1;
      EscapeFront(first, rest[..n]);
      assert title[..|title| - 1] == [first] + rest[..n];
    }
  }

  lemma EscapeStarts(title: Line)
    ensures title == [] <==> Escape(title) == []
    ensures title != [] ==> !Bracket(Escape(title)[0])
  {
    if title != [] {
      assert title == [title[0]] + title[1..];
      EscapeFront(title[0], title[1..]);
    }
  }

  /** The shown title is the title, with every bracket of it escaped and no other
      character touched. */
  lemma {:induction false} EscapeReadsBack(title: Line)
    ensures Unescape(Escape(title)) == title
    ensures forall i | 0 <= i < |Escape(title)| && Bracket(Escape(title)[i]) :: i > 0 && Escape(title)[i - 1] == 92
  {
    if title != [] {
      var first, rest := title[0], title[1..];
      assert title == [first] + rest;
      EscapeFront(first, rest);
      EscapeReadsBack(rest);
      EscapeStarts(rest);
      hide Escape;
      var escaped, tail := Escape(title), Escape(rest);
      if Bracket(first) {
        assert escaped == [92, first] + tail && escaped[2..] == tail;
      } else {
        assert escaped == [first] + tail && escaped[1..] == tail;
      }
    }
  }

  const LONG_DASH: Line := [32, 0xE2, 0x80, 0x94, 32]

  /** The row of a child, written out. */
  lemma RowShows(target: Name, m: Metadata)
    ensures Row(target, m)
         == Ascii("- [") + Escape(m.title) + Ascii("](") + target + Ascii(")") + LONG_DASH
            + Ascii("[`") + m.coordinate + Ascii("`](") + m.coordinate + Ascii(")") + LONG_DASH + m.status
  {
    assert Ascii("- [") == [45, 32, 91] && Ascii("](") == [93, 40] && Ascii(")") == [41];
    assert Ascii("[`") == [91, 96] && Ascii("`](") == [96, 93, 40];
  }

  /** A marker line is the marker and then nothing but blanks and tabs. */
  lemma MarkerIs(marker: Line, line: Line)
    ensures IsMarker(marker, line) <==> exists rest: Line :: line == marker + rest && Blanks(rest)
  {
    if IsMarker(marker, line) {
      var rest := line[|marker|..];
      assert line == marker + rest && Blanks(rest);
    }
    if rest: Line :| line == marker + rest && Blanks(rest) {
      assert forall i | |marker| <= i < |line| :: line[i] == rest[i - |marker|];
    }
  }

  ghost predicate Blanks(rest: Line) {
    forall i | 0 <= i < |rest| :: rest[i] == 32 || rest[i] == 9
  }

  // ----- metadata

  ghost predicate Ticks(line: Line) {
    forall i | 0 <= i < |line| :: line[i] == 96
  }

  /** What stands between the enclosing backticks. */
  ghost predicate Between(raw: Line, inner: Line, before: Line, after: Line) {
    && raw == before + inner + after && Ticks(before) && Ticks(after)
    && (inner != [] ==> inner[0] != 96 && inner[|inner| - 1] != 96)
    && (inner == [] ==> after == [])
  }

  lemma {:induction false} StripTicksIs(raw: Line) returns (before: Line, after: Line)
    ensures Between(raw, StripTicks(raw), before, after)
    decreases |raw|
  {
    if raw != [] && raw[0] == 96 {
      var b, a := StripTicksIs(raw[1..]);
      before, after := [96] + b, a;
      assert raw == [96] + raw[1..];
    } else if raw != [] && raw[|raw| - 1] == 96 {
      var n := |raw| - 1;
      var b, a := StripTicksIs(raw[..n]);
      before, after := b, a + [96];
      assert raw == raw[..n] + [96];
      NotAllTicks(raw[..n], b, a);
    } else {
      before, after := [], [];
    }
  }

  lemma NotAllTicks(raw: Line, before: Line, after: Line)
    requires Between(raw, StripTicks(raw), before, after) && raw != [] && raw[0] != 96
    ensures StripTicks(raw) != []
  {
  }

  /** The metadata of a record: its title, its status, and its coordinate without the
      backticks, which must be an RRFlow address. */
  lemma MetadataIs(reader: Reader, text: Text, m: Metadata)
    ensures MetadataOf(reader, text) == Ok(m) <==>
      && reader.title(text) == Some(m.title) && reader.field(Head(text), Status) == Some(m.status)
      && reader.field(Head(text), Coordinate).Some?
      && m.coordinate == StripTicks(reader.field(Head(text), Coordinate).value)
      && Ascii("rrflow://") <= m.coordinate
  {
  }

  // ----- the whole index

  lemma {:induction false} RowsAre(reader: Reader, files: Files, children: seq<Child>)
    requires forall i | 0 <= i < |children| :: children[i].record in files
    ensures Rows(reader, files, children).Ok? <==> Showable(reader, files, children)
    ensures Rows(reader, files, children).Ok? ==>
      var (rows, seen) := Rows(reader, files, children).value;
      && |rows| == |children|
      && (forall i | 0 <= i < |children| :: rows[i] == RowOf(reader, files, children[i]))
      && (forall c :: c in seen <==> Uses(reader, files, children, c))
  {
    if children != [] {
      var n := |children| - 1;
      var front, last := children[..n], children[n];
      RowsAre(reader, files, front);
      assert children == front + [last];
      hide Row, MetadataOf, Showable, HasCoordinate, Uses;
      ShowableMore(reader, files, front, last);
      if Rows(reader, files, front).Ok? && MetadataOf(reader, files[last.record]).Ok? {
        var m := MetadataOf(reader, files[last.record]).value;
        LastCoordinate(reader, files, last);
        forall c ensures Uses(reader, files, children, c) <==> Uses(reader, files, front, c) || HasCoordinate(reader, files, last, c) {
          UsesMore(reader, files, front, last, c);
        }
      }
    }
  }

  lemma LastCoordinate(reader: Reader, files: Files, child: Child)
    requires child.record in files && MetadataOf(reader, files[child.record]).Ok?
    ensures forall c :: HasCoordinate(reader, files, child, c) <==> c == MetadataOf(reader, files[child.record]).value.coordinate
  {
    hide MetadataOf;
  }

  ghost predicate Uses(reader: Reader, files: Files, children: seq<Child>, c: Line) {
    exists i :: 0 <= i < |children| && HasCoordinate(reader, files, children[i], c)
  }

  lemma UsesMore(reader: Reader, files: Files, front: seq<Child>, last: Child, c: Line)
    ensures Uses(reader, files, front + [last], c) <==> Uses(reader, files, front, c) || HasCoordinate(reader, files, last, c)
  {
    hide HasCoordinate;
    var all := front + [last];
    if i :| 0 <= i < |front| && HasCoordinate(reader, files, front[i], c) { assert all[i] == front[i]; }
    if HasCoordinate(reader, files, last, c) { assert all[|front|] == last; }
  }

  lemma ShowableMore(reader: Reader, files: Files, front: seq<Child>, last: Child)
    requires last.record in files && forall i | 0 <= i < |front| :: front[i].record in files
    ensures Showable(reader, files, front + [last]) <==>
      && Showable(reader, files, front) && MetadataOf(reader, files[last.record]).Ok?
      && !Uses(reader, files, front, MetadataOf(reader, files[last.record]).value.coordinate)
  {
    hide MetadataOf;
    var all := front + [last];
    assert forall i | 0 <= i < |front| :: all[i] == front[i];
    assert all[|front|] == last;
  }

  ghost predicate HasCoordinate(reader: Reader, files: Files, child: Child, coordinate: Line) {
    && child.record in files && MetadataOf(reader, files[child.record]).Ok?
    && MetadataOf(reader, files[child.record]).value.coordinate == coordinate
  }

  /** The row of a child. */
  function RowOf(reader: Reader, files: Files, child: Child): Line {
    if child.record in files && MetadataOf(reader, files[child.record]).Ok? then
      Row(child.target, MetadataOf(reader, files[child.record]).value)
    else []
  }

  /** Every child has its metadata, and no two share a coordinate. */
  ghost predicate Showable(reader: Reader, files: Files, children: seq<Child>)
    requires forall i | 0 <= i < |children| :: children[i].record in files
  {
    && (forall i | 0 <= i < |children| :: MetadataOf(reader, files[children[i].record]).Ok?)
    && (forall i, j | 0 <= i < j < |children| ::
          !HasCoordinate(reader, files, children[i], MetadataOf(reader, files[children[j].record]).value.coordinate))
  }

  /** An index is generated if and only if its directory has a listed child, all of them
      have their metadata and no two share a coordinate; then it has one row per listed
      name, in order. */
  lemma IndexListsChildren(reader: Reader, layout: Layout, files: Files, index: Path)
    returns (picked: seq<nat>, children: seq<Child>)
    requires index != []
    ensures var names := layout.entries(index[..|index| - 1]);
      && Picks(reader, files, index, names, picked) && Stand(files, index, names, picked, children)
    ensures forall i | 0 <= i < |children| :: children[i].record in files
    ensures var body := IndexBody(reader, layout, files, index);
      && (body.Ok? <==> picked != [] && Showable(reader, files, children))
      && (body.Ok? ==> |body.value| == |children| && forall i | 0 <= i < |children| ::
            body.value[i] == RowOf(reader, files, children[i]))
  {
    hide RowOf, MetadataOf, Listed, Children, Rows, Showable, StandsFor, HasCoordinate;
    var names := layout.entries(index[..|index| - 1]);
    picked := ChildrenAre(reader, files, index, names);
    children := Children(reader, files, index, names);
    RowsAre(reader, files, children);
  }
}
