/** The exporter that turns a discovered tree of Markdown sources into a sealed
    knowledge package. Reading Markdown and hashing are parameters. */
module KnowledgeBuilder {
  import opened Bytes
  import opened Wrappers
  import opened Sorting
  import opened KnowledgeCodec
  import opened KnowledgePaths
  import opened KnowledgeChecker

  const MAX_ID := 128
  const MAX_REVISION := 256
  const MAX_PATH := 4096
  const MAX_COORDINATE := 1024
  const MAX_BODY := 4194304
  const MAX_PACKAGE_BODIES := 536870912
  const MAX_RECORDS := 100000
  const MAX_EXCLUSIONS := 100000

  /** What the exporter reads out of Markdown, and its digest: normalisation (or a
      refusal), the header coordinate, an active or historical status, whether an
      index body links a record. */
  datatype Reader = Reader(
    normalize: Text -> Option<Text>,
    coordinateOf: Text -> Option<Text>,
    current: Text -> bool,
    links: (Text, Text, Text) -> bool,
    sha: Text -> Text)

  /** A hexadecimal SHA-256 has 64 characters. */
  ghost predicate Lawful(reader: Reader) {
    forall t :: |reader.sha(t)| == 64
  }

  datatype BuildError =
    | BadIdentity | NoSources | BadBody(path: Text) | BadPath(path: Text) | BadStatus(path: Text)
    | BadCoordinate(path: Text) | CoordinateTaken(path: Text) | OutsideTaxonomy(path: Text)
    | OwnerAbsent(path: Text) | OwnerUncoordinated(path: Text) | OwnerDoesNotLink(path: Text)
    | OutOfBounds | SourcesChanged

  // ----- identifiers

  predicate LowerOrDigit(b: byte) {
    97 <= b <= 122 || 48 <= b <= 57
  }

  predicate CanonicalId(t: Text) {
    && 0 < |t| <= MAX_ID && LowerOrDigit(t[0])
    && forall i | 0 <= i < |t| :: LowerOrDigit(t[i]) || t[i] in [46, 95, 45]
  }

  predicate AsciiToken(t: Text, maximum: nat) {
    0 < |t| <= maximum && forall i | 0 <= i < |t| :: 0x21 <= t[i] <= 0x7E
  }

  predicate Solid(segment: Text) {
    segment != [] && segment != [46] && segment != [46, 46]
  }

  /** No control character (category Cc, in UTF-8), no backslash, no empty or dotted segment. */
  predicate SourcePath(path: Text) {
    && |path| <= MAX_PATH
    && (forall i | 0 <= i < |path| :: 32 <= path[i] && path[i] != 127 && path[i] != 92)
    && (forall i | 0 < i < |path| :: !(path[i - 1] == 0xC2 && path[i] < 0xA0))
    && (forall i | 0 <= i < |Parts(path)| :: Solid(Parts(path)[i]))
  }

  const SCHEME: Text := [114, 114, 102, 108, 111, 119, 58, 47, 47]   // "rrflow://"
  const DATA: Text := [100, 97, 116, 97]                             // "data"

  /** The bans on white space, NUL, backslash, query and fragment follow from the
      shape of the segments. */
  predicate Coordinate(t: Text) {
    && |t| <= MAX_COORDINATE && SCHEME <= t
    && var segments := Parts(t[|SCHEME|..]);
    && |segments| >= 4 && segments[1] == DATA
    && forall i | 0 <= i < |segments| && i != 1 :: CanonicalId(segments[i])
  }

  function Classification(directory: Text): Option<Text> {
    if directory == Ascii("architecture") then Some(Ascii("architecture"))
    else if directory == Ascii("decisions") then Some(Ascii("decision"))
    else if directory == Ascii("evidence") then Some(Ascii("evidence"))
    else if directory == Ascii("guides") then Some(Ascii("guide"))
    else if directory == Ascii("history") then Some(Ascii("history"))
    else if directory == Ascii("objectives") then Some(Ascii("objective"))
    else if directory == Ascii("operations") then Some(Ascii("operations"))
    else if directory == Ascii("poam") then Some(Ascii("poam"))
    else if directory == Ascii("reference") then Some(Ascii("reference"))
    else if directory == Ascii("research") then Some(Ascii("research"))
    else if directory == Ascii("roadmap") then Some(Ascii("roadmap"))
    else None
  }

  /** The frozen taxonomy: the directories under `docs` and the class of their records. */
  const CLASSES: seq<(string, string)> := [
    ("architecture", "architecture"), ("decisions", "decision"), ("evidence", "evidence"), ("guides", "guide"),
    ("history", "history"), ("objectives", "objective"), ("operations", "operations"), ("poam", "poam"),
    ("reference", "reference"), ("research", "research"), ("roadmap", "roadmap")]

  ghost predicate InTaxonomy(directory: Text, classification: Text) {
    exists i | 0 <= i < |CLASSES| :: directory == Ascii(CLASSES[i].0) && classification == Ascii(CLASSES[i].1)
  }

  lemma RowIsClassified(i: nat)
    requires i < |CLASSES|
    ensures Classification(Ascii(CLASSES[i].0)) == Some(Ascii(CLASSES[i].1))
  {
    assert Ascii("decisions")[0] != Ascii("reference")[0];
    assert Ascii("evidence")[0] != Ascii("research")[0];
    assert Ascii("history")[0] != Ascii("roadmap")[0];
    assert Ascii("objectives")[1] != Ascii("operations")[1];
  }

  lemma ClassifiedHasRow(directory: Text) returns (i: nat)
    requires Classification(directory).Some?
    ensures i < |CLASSES| && directory == Ascii(CLASSES[i].0)
  {
    i := if directory == Ascii("architecture") then 0
         else if directory == Ascii("decisions") then 1
         else if directory == Ascii("evidence") then 2
         else if directory == Ascii("guides") then 3
         else if directory == Ascii("history") then 4
         else if directory == Ascii("objectives") then 5
         else if directory == Ascii("operations") then 6
         else if directory == Ascii("poam") then 7
         else if directory == Ascii("reference") then 8
         else if directory == Ascii("research") then 9
         else 10;
  }

  /** Classification is that table. */
  lemma ClassificationIsTheTable(directory: Text, classification: Text)
    ensures Classification(directory) == Some(classification) <==> InTaxonomy(directory, classification)
  {
    hide Classification, Ascii;
    if Classification(directory).Some? {
      var i := ClassifiedHasRow(directory);
      RowIsClassified(i);
    }
    if i :| 0 <= i < |CLASSES| && directory == Ascii(CLASSES[i].0) && classification == Ascii(CLASSES[i].1) {
      RowIsClassified(i);
    }
  }

  function Classify(path: Text): Option<Text> {
    var parts := Parts(path);
    if parts[|parts| - 1] == README then Some(Ascii("portal"))
    else if |parts| >= 3 && parts[0] == DOCS then Classification(parts[1])
    else None
  }

  lemma ClassesAreShort(path: Text)
    ensures Classify(path).Some? ==> |Classify(path).value| <= 64
  {
  }

  // ----- sizes: everything the exporter accepts fits the digest's fields

  predicate ProvenanceBounded(p: Provenance) {
    |p.repository| <= MAX_ID && |p.revision| <= MAX_REVISION && |p.exporter| <= MAX_ID && p.exporterVersion == 1
  }

  predicate Bounded(r: Record) {
    && r.contractVersion == 1 && |r.coordinate| <= MAX_COORDINATE && |r.sourcePath| <= MAX_PATH
    && |r.classification| <= 64 && |r.ownerCoordinate| <= MAX_COORDINATE && |r.body| <= MAX_BODY
    && |r.bodySha| == 64 && ProvenanceBounded(r.provenance) && |r.recordSha| <= 64
  }

  const ROOM := 8388608

  predicate Small(parts: seq<Text>) {
    forall i | 0 <= i < |parts| :: |parts[i]| <= ROOM
  }

  lemma {:induction false} FramesAreSmall(parts: seq<Text>)
    requires Small(parts)
    ensures AllShort(parts)
    ensures |Frames(parts)| <= |parts| * (8 + ROOM)
  {
    WordCapacities();
    if parts != [] { FramesAreSmall(parts[1..]); }
  }

  lemma ProvenanceIsSmall(p: Provenance)
    requires ProvenanceBounded(p)
    ensures ProvenanceFits(p) && |ProvenanceBytes(p)| <= 2000
  {
    WordCapacities();
    var parts := ProvenanceParts(p);
    FramesAreSmall(parts);
    assert |Frames(parts)| == 32 + |parts[0]| + |parts[1]| + |parts[2]| + 2 by { FourFrames(parts); }
  }

  lemma FourFrames(parts: seq<Text>)
    requires |parts| == 4 && AllShort(parts)
    ensures |Frames(parts)| == 32 + |parts[0]| + |parts[1]| + |parts[2]| + |parts[3]|
  {
    assert Frames(parts[1..]) == Frame(parts[1]) + Frames(parts[1..][1..]);
    assert parts[1..][1..] == parts[2..];
    assert Frames(parts[2..]) == Frame(parts[2]) + Frames(parts[2..][1..]);
    assert parts[2..][1..] == parts[3..];
    assert Frames(parts[3..]) == Frame(parts[3]) + Frames(parts[3..][1..]);
    assert Frames(parts[3..][1..]) == [];
  }

  lemma BoundedFits(r: Record)
    requires Bounded(r)
    ensures RecordFits(r) && |RecordBytes(r)| <= 9 * (8 + ROOM)
  {
    hide Frames, ProvenanceBytes, ProvenanceFits;
    WordCapacities();
    ProvenanceIsSmall(r.provenance);
    FramesAreSmall(SealedParts(r));
    FramesAreSmall(SealedParts(r) + [r.recordSha]);
  }

  // ----- one source

  datatype Placed = AsRecord(record: Record) | AsExclusion(exclusion: Exclusion)

  function PathOf(placed: Placed): Text {
    match placed case AsRecord(r) => r.sourcePath case AsExclusion(x) => x.sourcePath
  }

  function Exclude(reader: Reader, path: Text, body: Text): Exclusion {
    if path == README then
      Exclusion(path, reader.sha(body), Ascii("bootstrap-product-entry"),
                Ascii("The root README is the bootstrap product portal, not a classified knowledge record."))
    else
      Exclusion(path, reader.sha(body), Ascii("unclassified-record"),
                Ascii("The source has no accepted stable coordinate and remains outside the knowledge package."))
  }

  function Seal(reader: Reader, r: Record): Record
    requires Bounded(r)
  {
    BoundedFits(r);
    r.(recordSha := reader.sha(RecordPreimage(r)))
  }

  /** The body of the export loop for one path, up to the duplicate check. */
  function Placement(reader: Reader, bodies: map<Text, Text>, provenance: Provenance, path: Text): Result<Placed, BuildError>
    requires path in bodies && |bodies[path]| <= MAX_BODY
    requires Lawful(reader) && ProvenanceBounded(provenance)
  {
    var body := bodies[path];
    var owner := OwnerIndex(path);
    if !SourcePath(path) then Err(BadPath(path))
    else
      match reader.coordinateOf(body)
      case None => Ok(AsExclusion(Exclude(reader, path, body)))
      case Some(coordinate) =>
        if !reader.current(body) then Err(BadStatus(path))
        else if !Coordinate(coordinate) then Err(BadCoordinate(path))
        else if Classify(path).None? then Err(OutsideTaxonomy(path))
        else if owner !in bodies then Err(OwnerAbsent(path))
        else
          match reader.coordinateOf(bodies[owner])
          case None => Err(OwnerUncoordinated(path))
          case Some(ownerCoordinate) =>
            if !Coordinate(ownerCoordinate) then Err(BadCoordinate(path))
            else if path != DOCS_INDEX && !reader.links(owner, bodies[owner], path) then Err(OwnerDoesNotLink(path))
            else
              ClassesAreShort(path);
              Ok(AsRecord(Seal(reader, Record(1, coordinate, path, Classify(path).value, ownerCoordinate, body,
                                              reader.sha(body), provenance, []))))
  }

  // ----- all sources

  ghost predicate Bodies(bodies: map<Text, Text>) {
    forall k | k in bodies :: |bodies[k]| <= MAX_BODY
  }

  ghost predicate PlacedAll(reader: Reader, bodies: map<Text, Text>, provenance: Provenance, paths: seq<Text>,
                            placed: seq<Placed>)
    requires Lawful(reader) && ProvenanceBounded(provenance) && Bodies(bodies)
  {
    && |placed| == |paths|
    && forall i | 0 <= i < |paths| ::
      paths[i] in bodies && Placement(reader, bodies, provenance, paths[i]) == Ok(placed[i])
  }

  function RecordsOf(placed: seq<Placed>): seq<Record> {
    if placed == [] then []
    else
      var n := |placed| - 1;
      RecordsOf(placed[..n]) + match placed[n] case AsRecord(r) => [r] case AsExclusion(_) => []
  }

  function ExclusionsOf(placed: seq<Placed>): seq<Exclusion> {
    if placed == [] then []
    else
      var n := |placed| - 1;
      ExclusionsOf(placed[..n]) + match placed[n] case AsRecord(_) => [] case AsExclusion(x) => [x]
  }

  /** The classification loop. It fails exactly when some source cannot be placed or
      two records share a coordinate. */
  method PlaceAll(reader: Reader, bodies: map<Text, Text>, provenance: Provenance, paths: seq<Text>)
    returns (r: Result<(seq<Record>, seq<Exclusion>), BuildError>, ghost placed: seq<Placed>)
    requires Lawful(reader) && ProvenanceBounded(provenance) && Bodies(bodies)
    requires forall i | 0 <= i < |paths| :: paths[i] in bodies
    ensures r.Ok? ==>
      && PlacedAll(reader, bodies, provenance, paths, placed) && Distinct(Coordinates(RecordsOf(placed)))
      && r.value == (RecordsOf(placed), ExclusionsOf(placed))
    ensures r.Err? ==>
      forall all | PlacedAll(reader, bodies, provenance, paths, all) :: !Distinct(Coordinates(RecordsOf(all)))
  {
    hide Placement, RecordsOf, ExclusionsOf;
    var records: seq<Record>, exclusions: seq<Exclusion> := [], [];
    assert RecordsOf([]) == [] && ExclusionsOf([]) == [] by { NothingPlaced(); }
    var coordinates: map<Text, Text> := map[];
    placed := [];
    for i := 0 to |paths|
      invariant PlacedAll(reader, bodies, provenance, paths[..i], placed)
      invariant records == RecordsOf(placed) && exclusions == ExclusionsOf(placed)
      invariant Distinct(Coordinates(records))
      invariant forall c :: c in coordinates <==> c in Coordinates(records)
    {
      var path := paths[i];
      ghost var before := placed;
      match Placement(reader, bodies, provenance, path) {
        case Err(e) =>
          return Err(e), placed;
        case Ok(AsExclusion(x)) =>
          PlacedGrows(placed, AsExclusion(x));
          exclusions := exclusions + [x];
          placed := placed + [AsExclusion(x)];
        case Ok(AsRecord(record)) =>
          PlacedGrows(placed, AsRecord(record));
          placed := placed + [AsRecord(record)];
          assert placed[..i] == before;
          if record.coordinate in coordinates {
            DuplicateIsFatal(reader, bodies, provenance, paths, placed, i);
            return Err(CoordinateTaken(path)), placed;
          }
          coordinates := coordinates[record.coordinate := path];
          CoordinatesGrow(records, record);
          records := records + [record];
      }
      assert placed[..i] == before;
      assert paths[..i + 1][..i] == paths[..i];
    }
    assert paths[..|paths|] == paths;
    r := Ok((records, exclusions));
  }

  lemma NothingPlaced()
    ensures RecordsOf([]) == [] && ExclusionsOf([]) == []
  {
  }

  lemma PlacedGrows(placed: seq<Placed>, item: Placed)
    ensures RecordsOf(placed + [item]) == if item.AsRecord? then RecordsOf(placed) + [item.record] else RecordsOf(placed)
    ensures ExclusionsOf(placed + [item]) ==
      if item.AsExclusion? then ExclusionsOf(placed) + [item.exclusion] else ExclusionsOf(placed)
  {
    assert (placed + [item])[..|placed|] == placed;
  }

  lemma CoordinatesGrow(records: seq<Record>, r: Record)
    ensures Coordinates(records + [r]) == Coordinates(records) + [r.coordinate]
  {
  }

  lemma {:induction false} RecordsOfPrefix(placed: seq<Placed>, i: nat)
    requires i <= |placed|
    ensures RecordsOf(placed[..i]) <= RecordsOf(placed)
  {
    if i < |placed| {
      var n := |placed| - 1;
      RecordsOfPrefix(placed[..n], i);
      assert placed[..n][..i] == placed[..i];
    } else {
      assert placed[..i] == placed;
    }
  }

  lemma DuplicateIsFatal(reader: Reader, bodies: map<Text, Text>, provenance: Provenance, paths: seq<Text>,
                         placed: seq<Placed>, i: nat)
    requires Lawful(reader) && ProvenanceBounded(provenance) && Bodies(bodies)
    requires i < |paths| && PlacedAll(reader, bodies, provenance, paths[..i + 1], placed)
    requires placed[i].AsRecord? && placed[i].record.coordinate in Coordinates(RecordsOf(placed[..i]))
    ensures forall all | PlacedAll(reader, bodies, provenance, paths, all) :: !Distinct(Coordinates(RecordsOf(all)))
  {
    hide Placement;
    forall all | PlacedAll(reader, bodies, provenance, paths, all) ensures !Distinct(Coordinates(RecordsOf(all))) {
      forall j | 0 <= j <= i ensures all[j] == placed[j] {
        assert paths[..i + 1][j] == paths[j];
        assert Placement(reader, bodies, provenance, paths[j]) == Ok(all[j]);
      }
      assert all[..i + 1] == placed;
      RecordsOfPrefix(all, i + 1);
      var front := RecordsOf(placed[..i]);
      assert RecordsOf(placed) == front + [placed[i].record];
      var k :| 0 <= k < |front| && Coordinates(front)[k] == placed[i].record.coordinate;
      assert RecordsOf(all)[k].coordinate == RecordsOf(all)[|front|].coordinate;
      assert Coordinates(RecordsOf(all))[k] == Coordinates(RecordsOf(all))[|front|];
    }
  }

  // ----- membership and lookups

  lemma {:induction false} PlacedMembers(placed: seq<Placed>)
    ensures forall r :: r in RecordsOf(placed) <==> AsRecord(r) in placed
    ensures forall x :: x in ExclusionsOf(placed) <==> AsExclusion(x) in placed
  {
    if placed != [] {
      var n := |placed| - 1;
      PlacedMembers(placed[..n]);
      assert placed == placed[..n] + [placed[n]];
    }
  }

  ghost predicate Ascending(placed: seq<Placed>) {
    forall i, j | 0 <= i < j < |placed| :: Lt(PathOf(placed[i]), PathOf(placed[j]))
  }

  function PathKey(r: Record): Text { r.sourcePath }
  function CoordinateKey(r: Record): Text { r.coordinate }
  function ExclusionKey(x: Exclusion): Text { x.sourcePath }
  predicate ExclusionLe(a: Exclusion, b: Exclusion) { Le(a.sourcePath, b.sourcePath) }

  lemma ExclusionOrderIsTotal()
    ensures TotalPreorder(ExclusionLe)
  {
    TextOrder();
  }

  lemma {:induction false} AscendingKeys(placed: seq<Placed>)
    requires Ascending(placed)
    ensures forall i, j | 0 <= i < j < |RecordsOf(placed)| ::
      PathKey(RecordsOf(placed)[i]) != PathKey(RecordsOf(placed)[j])
    ensures forall i, j | 0 <= i < j < |ExclusionsOf(placed)| ::
      ExclusionKey(ExclusionsOf(placed)[i]) != ExclusionKey(ExclusionsOf(placed)[j])
  {
    if placed != [] {
      var n := |placed| - 1;
      AscendingKeys(placed[..n]);
      PlacedMembers(placed[..n]);
      forall r | r in RecordsOf(placed[..n]) ensures r.sourcePath != PathOf(placed[n]) {
        var k :| 0 <= k < n && placed[..n][k] == AsRecord(r);
        assert Lt(PathOf(placed[k]), PathOf(placed[n]));
      }
      forall x | x in ExclusionsOf(placed[..n]) ensures x.sourcePath != PathOf(placed[n]) {
        var k :| 0 <= k < n && placed[..n][k] == AsExclusion(x);
        assert Lt(PathOf(placed[k]), PathOf(placed[n]));
      }
    }
  }

  lemma {:induction false} RecordAtFinds(records: seq<Record>, path: Text)
    ensures RecordAt(records, path).Some? <==> exists r :: r in records && r.sourcePath == path
    ensures RecordAt(records, path).Some? ==>
      RecordAt(records, path).value in records && RecordAt(records, path).value.sourcePath == path
  {
    if records != [] {
      var n := |records| - 1;
      RecordAtFinds(records[..n], path);
      assert records == records[..n] + [records[n]];
    }
  }

  lemma {:induction false} ExclusionAtFinds(exclusions: seq<Exclusion>, path: Text)
    ensures ExclusionAt(exclusions, path).Some? <==> exists x :: x in exclusions && x.sourcePath == path
    ensures ExclusionAt(exclusions, path).Some? ==>
      ExclusionAt(exclusions, path).value in exclusions && ExclusionAt(exclusions, path).value.sourcePath == path
  {
    if exclusions != [] {
      var n := |exclusions| - 1;
      ExclusionAtFinds(exclusions[..n], path);
      assert exclusions == exclusions[..n] + [exclusions[n]];
    }
  }

  lemma SortMembers<T(!new)>(le: (T, T) -> bool, s: seq<T>)
    ensures forall x :: x in Sort(le, s) <==> x in s
  {
    SortPermutes(le, s);
    forall x ensures x in Sort(le, s) <==> x in s {
      assert x in Sort(le, s) <==> x in multiset(Sort(le, s));
      assert x in s <==> x in multiset(s);
    }
  }

  // ----- the finished package

  /** What classification leaves behind, sorted: the facts the package rests on. */
  ghost predicate Arranged(placed: seq<Placed>, records: seq<Record>, exclusions: seq<Exclusion>) {
    && (forall r :: r in records <==> AsRecord(r) in placed)
    && (forall x :: x in exclusions <==> AsExclusion(x) in placed)
    && Sorted(RecordLe, records) && Sorted(Le, ExclusionPaths(exclusions))
    && Distinct(RecordPaths(records)) && Distinct(Coordinates(records)) && Distinct(ExclusionPaths(exclusions))
  }

  lemma SortingKeeps(placed: seq<Placed>)
    requires Ascending(placed) && Distinct(Coordinates(RecordsOf(placed)))
    ensures Arranged(placed, Sort(RecordLe, RecordsOf(placed)), Sort(ExclusionLe, ExclusionsOf(placed)))
  {
    hide RecordsOf, ExclusionsOf, Ascending, Sort, TotalPreorder;
    var rs, xs := RecordsOf(placed), ExclusionsOf(placed);
    var records, exclusions := Sort(RecordLe, rs), Sort(ExclusionLe, xs);
    PlacedMembers(placed);
    AscendingKeys(placed);
    SortMembers(RecordLe, rs);
    SortMembers(ExclusionLe, xs);
    SortPermutes(RecordLe, rs);
    SortPermutes(ExclusionLe, xs);
    RecordOrderIsTotal();
    ExclusionOrderIsTotal();
    SortSorts(RecordLe, rs);
    SortSorts(ExclusionLe, xs);
    DistinctKeysPermute(PathKey, rs, records);
    DistinctKeysPermute(ExclusionKey, xs, exclusions);
    forall i, j | 0 <= i < j < |rs| ensures CoordinateKey(rs[i]) != CoordinateKey(rs[j]) {
      assert Coordinates(rs)[i] != Coordinates(rs)[j];
    }
    DistinctKeysPermute(CoordinateKey, rs, records);
    forall i, j | 0 <= i < j < |exclusions| ensures Le(ExclusionPaths(exclusions)[i], ExclusionPaths(exclusions)[j]) {
      assert ExclusionLe(exclusions[i], exclusions[j]);
    }
  }

  // ----- the package fits its digest

  ghost predicate PackageBounded(p: Package) {
    && p.contractVersion == 1 && |p.id| <= MAX_ID && ProvenanceBounded(p.provenance)
    && |p.manifest| <= MAX_RECORDS + MAX_EXCLUSIONS && |p.records| <= MAX_RECORDS && |p.exclusions| <= MAX_EXCLUSIONS
    && (forall i | 0 <= i < |p.manifest| :: EntryBounded(p.manifest[i]))
    && (forall i | 0 <= i < |p.records| :: Bounded(p.records[i]))
    && (forall i | 0 <= i < |p.exclusions| :: Small(ExclusionParts(p.exclusions[i])))
  }

  ghost predicate EntryBounded(e: Entry) {
    Small(EntryParts(e)) && (e.disposition.Other? ==> e.disposition.name == EXCLUDED)
  }

  lemma EntryIsSmall(e: Entry)
    requires EntryBounded(e)
    ensures EntryFits(e) && |EntryBytes(e)| <= 9 * (8 + ROOM)
  {
    FramesAreSmall(EntryParts(e));
    assert INCLUDED[0] != EXCLUDED[0];
  }

  lemma ExclusionIsSmall(x: Exclusion)
    requires Small(ExclusionParts(x))
    ensures ExclusionFits(x) && |ExclusionBytes(x)| <= 9 * (8 + ROOM)
  {
    FramesAreSmall(ExclusionParts(x));
  }

  lemma PackagePartsFit(p: Package)
    requires PackageBounded(p)
    ensures PartsFit(p)
  {
    hide EntryBounded, Bounded, Small, EntryFits, RecordFits, ExclusionFits, ExclusionParts, ProvenanceFits;
    WordCapacities();
    ProvenanceIsSmall(p.provenance);
    forall i | 0 <= i < |p.manifest| ensures EntryFits(p.manifest[i]) { EntryIsSmall(p.manifest[i]); }
    forall i | 0 <= i < |p.records| ensures RecordFits(p.records[i]) { BoundedFits(p.records[i]); }
    forall i | 0 <= i < |p.exclusions| ensures ExclusionFits(p.exclusions[i]) { ExclusionIsSmall(p.exclusions[i]); }
  }

  lemma ItemsAreShort(p: Package)
    requires PackageBounded(p) && PartsFit(p)
    ensures AllShort(Collection(EntryItems(p.manifest)))
    ensures AllShort(Collection(RecordItems(p.records)))
    ensures AllShort(Collection(ExclusionItems(p.exclusions)))
  {
    hide EntryBounded, Bounded, Small, EntryFits, RecordFits, ExclusionFits, ExclusionParts, ProvenanceFits,
      EntryBytes, RecordBytes, ExclusionBytes;
    WordCapacities();
    forall i | 0 <= i < |p.manifest| ensures |EntryItems(p.manifest)[i]| <= 9 * (8 + ROOM) { EntryIsSmall(p.manifest[i]); }
    forall i | 0 <= i < |p.records| ensures |RecordItems(p.records)[i]| <= 9 * (8 + ROOM) { BoundedFits(p.records[i]); }
    forall i | 0 <= i < |p.exclusions| ensures |ExclusionItems(p.exclusions)[i]| <= 9 * (8 + ROOM) {
      ExclusionIsSmall(p.exclusions[i]);
    }
  }

  lemma ShortConcat(a: seq<Text>, b: seq<Text>)
    requires AllShort(a) && AllShort(b)
    ensures AllShort(a + b)
  {
  }

  lemma BoundedPackageFits(p: Package)
    requires PackageBounded(p)
    ensures PackageFits(p)
  {
    PackagePartsFit(p);
    ItemsAreShort(p);
    ProvenanceIsSmall(p.provenance);
    WordCapacities();
    var m, r, x := Collection(EntryItems(p.manifest)), Collection(RecordItems(p.records)),
      Collection(ExclusionItems(p.exclusions));
    var head := [BigEndian(p.contractVersion, 2), p.id, ProvenanceBytes(p.provenance)];
    assert AllShort(head);
    assert PackageParts(p) == head + (m + (r + (x + [])));
    hide *;
    ShortConcat(x, []);
    ShortConcat(r, x + []);
    ShortConcat(m, r + (x + []));
    ShortConcat(head, m + (r + (x + [])));
    FitsIs(p);
  }

  lemma FitsIs(p: Package)
    requires PartsFit(p) && AllShort(PackageParts(p))
    ensures PackageFits(p)
  {
  }

  // ----- placement, as a relation

  ghost predicate PlacedRight(reader: Reader, bodies: map<Text, Text>, path: Text, placed: Placed) {
    && path in bodies && PathOf(placed) == path
    && match placed
       case AsRecord(r) =>
         && Bounded(r) && RecordFits(r) && RecordSealed(reader.sha, r)
         && r.body == bodies[path] && reader.coordinateOf(r.body) == Some(r.coordinate)
         && Classify(path) == Some(r.classification)
         && OwnerIndex(path) in bodies && reader.coordinateOf(bodies[OwnerIndex(path)]) == Some(r.ownerCoordinate)
         && (path == DOCS_INDEX || reader.links(OwnerIndex(path), bodies[OwnerIndex(path)], path))
       case AsExclusion(x) =>
         && reader.coordinateOf(bodies[path]).None? && x.sourceSha == reader.sha(bodies[path])
         && Small(ExclusionParts(x)) && !Blank(x.reason)
         && x.reasonCode == Ascii(if path == README then "bootstrap-product-entry" else "unclassified-record")
  }

  lemma SealIsRight(reader: Reader, r: Record)
    requires Lawful(reader) && Bounded(r) && r.bodySha == reader.sha(r.body)
    ensures var s := Seal(reader, r); Bounded(s) && RecordFits(s) && RecordSealed(reader.sha, s)
  {
    var s := Seal(reader, r);
    BoundedFits(r);
    BoundedFits(s);
    assert SealedParts(s) == SealedParts(r);
  }

  lemma AsciiSentence(s: string)
    requires |s| > 0 && s[|s| - 1] == '.'
    ensures !Blank(Ascii(s))
  {
    assert Ascii(s)[|s| - 1] == 46;
    SentenceIsNotBlank(Ascii(s));
  }

  lemma ExcludeIsRight(reader: Reader, path: Text, body: Text)
    requires Lawful(reader) && |path| <= MAX_PATH
    ensures var x := Exclude(reader, path, body);
      && Small(ExclusionParts(x)) && !Blank(x.reason) && x.sourcePath == path && x.sourceSha == reader.sha(body)
      && x.reasonCode == Ascii(if path == README then "bootstrap-product-entry" else "unclassified-record")
  {
    AsciiSentence("The root README is the bootstrap product portal, not a classified knowledge record.");
    AsciiSentence("The source has no accepted stable coordinate and remains outside the knowledge package.");
  }

  lemma PlacementIsRight(reader: Reader, bodies: map<Text, Text>, provenance: Provenance, path: Text)
    requires path in bodies && |bodies[path]| <= MAX_BODY
    requires Lawful(reader) && ProvenanceBounded(provenance)
    ensures var r := Placement(reader, bodies, provenance, path);
      r.Ok? ==> PlacedRight(reader, bodies, path, r.value)
  {
    hide Exclude, Blank, Small, RecordSealed, RecordFits, Coordinate, Classify, OwnerIndex;
    var placed := Placement(reader, bodies, provenance, path);
    if placed.Ok? {
      var body := bodies[path];
      SourcePathIsBounded(path);
      match reader.coordinateOf(body) {
        case None => ExcludeIsRight(reader, path, body);
        case Some(coordinate) =>
          var ownerCoordinate := reader.coordinateOf(bodies[OwnerIndex(path)]).value;
          ClassesAreShort(path);
          CoordinateIsBounded(coordinate);
          CoordinateIsBounded(ownerCoordinate);
          SealIsRight(reader, Record(1, coordinate, path, Classify(path).value, ownerCoordinate, body,
                                     reader.sha(body), provenance, []));
      }
    }
  }

  lemma SourcePathIsBounded(path: Text)
    ensures SourcePath(path) ==> |path| <= MAX_PATH
  {
  }

  lemma CoordinateIsBounded(t: Text)
    ensures Coordinate(t) ==> |t| <= MAX_COORDINATE
  {
  }

  // ----- the manifest

  function EntryFor(reader: Reader, bodies: map<Text, Text>, records: seq<Record>, exclusions: seq<Exclusion>,
                    path: Text): Option<Entry>
    requires path in bodies
  {
    match RecordAt(records, path)
    case Some(r) => Some(Entry(path, reader.sha(bodies[path]), Included(r.coordinate, r.classification, r.recordSha)))
    case None =>
      match ExclusionAt(exclusions, path)
      case Some(x) => Some(Entry(path, reader.sha(bodies[path]), Other(EXCLUDED, x.reasonCode)))
      case None => None
  }

  /** Everything that has been classified, on its way into a package. */
  ghost predicate Classified(reader: Reader, bodies: map<Text, Text>, paths: seq<Text>, placed: seq<Placed>,
                             records: seq<Record>, exclusions: seq<Exclusion>) {
    && Listing(paths, bodies.Keys) && |placed| == |paths|
    && (forall i | 0 <= i < |paths| :: PlacedRight(reader, bodies, paths[i], placed[i]))
    && Arranged(placed, records, exclusions)
  }

  /** A path's record or exclusion is the one its source was placed as. */
  lemma LookupIsPlaced(reader: Reader, bodies: map<Text, Text>, paths: seq<Text>, placed: seq<Placed>,
                       records: seq<Record>, exclusions: seq<Exclusion>, i: nat)
    requires Classified(reader, bodies, paths, placed, records, exclusions) && i < |paths|
    ensures placed[i].AsRecord? ==>
      RecordAt(records, paths[i]) == Some(placed[i].record) && ExclusionAt(exclusions, paths[i]).None?
    ensures placed[i].AsExclusion? ==>
      RecordAt(records, paths[i]).None? && ExclusionAt(exclusions, paths[i]) == Some(placed[i].exclusion)
  {
    hide RecordAt, ExclusionAt, Bounded, Small, Blank, RecordSealed, Lt, Le;
    var path := paths[i];
    RecordAtFinds(records, path);
    ExclusionAtFinds(exclusions, path);
    forall j | 0 <= j < |placed| && PathOf(placed[j]) == path ensures j == i {
      assert PlacedRight(reader, bodies, paths[j], placed[j]);
      SamePlace(paths, i, j);
    }
    assert PathOf(placed[i]) == path;
    if placed[i].AsRecord? {
      assert placed[i].record in records;
    } else {
      assert placed[i].exclusion in exclusions;
    }
  }

  lemma SamePlace(paths: seq<Text>, i: nat, j: nat)
    requires forall a, b | 0 <= a < b < |paths| :: Lt(paths[a], paths[b])
    requires i < |paths| && j < |paths| && paths[i] == paths[j]
    ensures i == j
  {
  }

  method WriteManifest(reader: Reader, bodies: map<Text, Text>, paths: seq<Text>, ghost placed: seq<Placed>,
                       records: seq<Record>, exclusions: seq<Exclusion>) returns (manifest: seq<Entry>)
    requires Classified(reader, bodies, paths, placed, records, exclusions)
    ensures |manifest| == |paths|
    ensures forall i | 0 <= i < |paths| :: EntryFor(reader, bodies, records, exclusions, paths[i]) == Some(manifest[i])
  {
    hide PlacedRight, Arranged, RecordAt, ExclusionAt;
    manifest := [];
    for i := 0 to |paths|
      invariant |manifest| == i
      invariant forall j | 0 <= j < i :: EntryFor(reader, bodies, records, exclusions, paths[j]) == Some(manifest[j])
    {
      // The lookup never misses, so the exporter's "disappeared" error cannot arise.
      LookupIsPlaced(reader, bodies, paths, placed, records, exclusions, i);
      manifest := manifest + [EntryFor(reader, bodies, records, exclusions, paths[i]).value];
    }
  }

  // ----- the package has integrity

  ghost predicate ManifestOf(reader: Reader, bodies: map<Text, Text>, paths: seq<Text>, p: Package)
    requires forall i | 0 <= i < |paths| :: paths[i] in bodies
  {
    && |p.manifest| == |paths|
    && forall i | 0 <= i < |paths| ::
      EntryFor(reader, bodies, p.records, p.exclusions, paths[i]) == Some(p.manifest[i])
  }

  lemma ManifestListsPaths(reader: Reader, bodies: map<Text, Text>, paths: seq<Text>, p: Package)
    requires Listing(paths, bodies.Keys) && ManifestOf(reader, bodies, paths, p)
    ensures ManifestPaths(p.manifest) == paths
    ensures Sorted(Le, paths) && Distinct(paths) && Members(paths) == bodies.Keys
  {
    hide RecordAt, ExclusionAt;
    assert forall i | 0 <= i < |paths| :: p.manifest[i].sourcePath == paths[i];
  }

  lemma EntriesAreBacked(reader: Reader, bodies: map<Text, Text>, paths: seq<Text>, placed: seq<Placed>, p: Package)
    requires Classified(reader, bodies, paths, placed, p.records, p.exclusions)
    requires ManifestOf(reader, bodies, paths, p)
    ensures forall i | 0 <= i < |p.manifest| :: EntryBacked(p, p.manifest[i])
  {
    hide RecordAt, ExclusionAt, Arranged, Listing, Blank, Bounded, Small, Ascii, Classify, OwnerIndex, RecordFits;
    forall i | 0 <= i < |p.manifest| ensures EntryBacked(p, p.manifest[i]) {
      LookupIsPlaced(reader, bodies, paths, placed, p.records, p.exclusions, i);
      assert EntryFor(reader, bodies, p.records, p.exclusions, paths[i]) == Some(p.manifest[i]);
      assert PlacedRight(reader, bodies, paths[i], placed[i]);
    }
  }

  ghost predicate FromSource(paths: seq<Text>, placed: seq<Placed>, item: Placed) {
    exists j :: 0 <= j < |placed| && j < |paths| && placed[j] == item && paths[j] == PathOf(item)
  }

  lemma SourcesArePartitioned(reader: Reader, bodies: map<Text, Text>, paths: seq<Text>, placed: seq<Placed>,
                              records: seq<Record>, exclusions: seq<Exclusion>)
    requires Classified(reader, bodies, paths, placed, records, exclusions)
    ensures Members(paths) == Members(RecordPaths(records)) + Members(ExclusionPaths(exclusions))
    ensures Members(RecordPaths(records)) !! Members(ExclusionPaths(exclusions))
    ensures forall i | 0 <= i < |records| ::
      FromSource(paths, placed, AsRecord(records[i]))
    ensures forall i | 0 <= i < |exclusions| ::
      FromSource(paths, placed, AsExclusion(exclusions[i]))
  {
    hide Bounded, Small, Blank, RecordSealed, RecordFits, Listing, Classify, OwnerIndex;
    forall i | 0 <= i < |records|
      ensures FromSource(paths, placed, AsRecord(records[i]))
    {
      assert records[i] in records;
      var j :| 0 <= j < |placed| && placed[j] == AsRecord(records[i]);
      assert PlacedRight(reader, bodies, paths[j], placed[j]);
    }
    forall i | 0 <= i < |exclusions|
      ensures FromSource(paths, placed, AsExclusion(exclusions[i]))
    {
      assert exclusions[i] in exclusions;
      var j :| 0 <= j < |placed| && placed[j] == AsExclusion(exclusions[i]);
      assert PlacedRight(reader, bodies, paths[j], placed[j]);
    }
    CoverBothWays(reader, bodies, paths, placed, records, exclusions);
  }

  lemma CoverBothWays(reader: Reader, bodies: map<Text, Text>, paths: seq<Text>, placed: seq<Placed>,
                      records: seq<Record>, exclusions: seq<Exclusion>)
    requires Classified(reader, bodies, paths, placed, records, exclusions)
    requires forall i | 0 <= i < |records| ::
      FromSource(paths, placed, AsRecord(records[i]))
    requires forall i | 0 <= i < |exclusions| ::
      FromSource(paths, placed, AsExclusion(exclusions[i]))
    ensures Members(paths) == Members(RecordPaths(records)) + Members(ExclusionPaths(exclusions))
    ensures Members(RecordPaths(records)) !! Members(ExclusionPaths(exclusions))
  {
    forall i | 0 <= i < |paths| ensures paths[i] in RecordPaths(records) || paths[i] in ExclusionPaths(exclusions) {
      PathIsCovered(reader, bodies, paths, placed, records, exclusions, i);
    }
    forall a, b | 0 <= a < |records| && 0 <= b < |exclusions|
      ensures records[a].sourcePath != exclusions[b].sourcePath
    {
      PathsDiffer(paths, placed, records[a], exclusions[b]);
    }
    hide Classified, FromSource;
    forall i | 0 <= i < |records| ensures records[i].sourcePath in paths { SourceIsListed(paths, placed, AsRecord(records[i])); }
    forall i | 0 <= i < |exclusions| ensures exclusions[i].sourcePath in paths {
      SourceIsListed(paths, placed, AsExclusion(exclusions[i]));
    }
  }

  lemma SourceIsListed(paths: seq<Text>, placed: seq<Placed>, item: Placed)
    requires FromSource(paths, placed, item)
    ensures PathOf(item) in paths
  {
  }

  lemma PathIsCovered(reader: Reader, bodies: map<Text, Text>, paths: seq<Text>, placed: seq<Placed>,
                      records: seq<Record>, exclusions: seq<Exclusion>, i: nat)
    requires Classified(reader, bodies, paths, placed, records, exclusions) && i < |paths|
    ensures paths[i] in RecordPaths(records) || paths[i] in ExclusionPaths(exclusions)
  {
    assert PlacedRight(reader, bodies, paths[i], placed[i]);
    hide Bounded, Small, Blank, RecordSealed, RecordFits, Classify, OwnerIndex, Lt, Le, Sorted, Distinct;
    if placed[i].AsRecord? {
      var k :| 0 <= k < |records| && records[k] == placed[i].record;
      assert RecordPaths(records)[k] == paths[i];
    } else {
      var k :| 0 <= k < |exclusions| && exclusions[k] == placed[i].exclusion;
      assert ExclusionPaths(exclusions)[k] == paths[i];
    }
  }

  lemma PathsDiffer(paths: seq<Text>, placed: seq<Placed>, r: Record, x: Exclusion)
    requires forall i, j | 0 <= i < j < |paths| :: Lt(paths[i], paths[j])
    requires FromSource(paths, placed, AsRecord(r)) && FromSource(paths, placed, AsExclusion(x))
    ensures r.sourcePath != x.sourcePath
  {
    var i :| 0 <= i < |placed| && i < |paths| && placed[i] == AsRecord(r) && paths[i] == r.sourcePath;
    var j :| 0 <= j < |placed| && j < |paths| && placed[j] == AsExclusion(x) && paths[j] == x.sourcePath;
    assert i < j ==> Lt(paths[i], paths[j]);
  }

  /** The exporter's promise to the checker. */
  lemma PackageHasIntegrity(reader: Reader, bodies: map<Text, Text>, paths: seq<Text>, placed: seq<Placed>, p: Package)
    requires Classified(reader, bodies, paths, placed, p.records, p.exclusions)
    requires ManifestOf(reader, bodies, paths, p)
    requires PackageFits(p) && p.packageSha == reader.sha(PackagePreimage(p))
    ensures Integrity(reader.sha, p, Some(bodies.Keys))
  {
    ManifestListsPaths(reader, bodies, paths, p);
    EntriesAreBacked(reader, bodies, paths, placed, p);
    SourcesArePartitioned(reader, bodies, paths, placed, p.records, p.exclusions);
    hide PackagePreimage, EntryBacked, Bounded, Small, Blank, Listing, PackageParts, Members, RecordFits, Classify, OwnerIndex,
      EntryFits, ExclusionFits, ManifestPaths, RecordPaths, ExclusionPaths, Coordinates, Sorted, Distinct;
    forall i | 0 <= i < |p.records| ensures RecordSealed(reader.sha, p.records[i]) {
      assert FromSource(paths, placed, AsRecord(p.records[i]));
      var j :| 0 <= j < |placed| && j < |paths| && placed[j] == AsRecord(p.records[i]) && paths[j] == PathOf(placed[j]);
      assert PlacedRight(reader, bodies, paths[j], placed[j]);
    }
  }

  // ----- ownership

  function ByCoordinate(records: seq<Record>, coordinate: Text): Option<Record> {
    if records == [] then None
    else if records[|records| - 1].coordinate == coordinate then Some(records[|records| - 1])
    else ByCoordinate(records[..|records| - 1], coordinate)
  }

  /** The record reached by following owner coordinates inside a package. */
  function Ancestor(records: seq<Record>, r: Record, steps: nat): Option<Record>
    decreases steps
  {
    if steps == 0 then Some(r)
    else
      match ByCoordinate(records, r.ownerCoordinate)
      case None => None
      case Some(owner) => Ancestor(records, owner, steps - 1)
  }

  /** Every record's owner coordinate is the coordinate of the record at its owner index. */
  ghost predicate Owned(records: seq<Record>) {
    && Distinct(Coordinates(records)) && Distinct(RecordPaths(records))
    && forall r | r in records ::
      exists o :: o in records && o.sourcePath == OwnerIndex(r.sourcePath) && o.coordinate == r.ownerCoordinate
  }

  lemma {:induction false} CoordinateFinds(records: seq<Record>, o: Record)
    requires o in records && Distinct(Coordinates(records))
    ensures ByCoordinate(records, o.coordinate) == Some(o)
  {
    var n := |records| - 1;
    var k :| 0 <= k < |records| && records[k] == o;
    assert Coordinates(records)[k] == o.coordinate;
    if k != n {
      assert Coordinates(records)[n] != o.coordinate;
      assert o == records[..n][k];
      assert Coordinates(records[..n]) == Coordinates(records)[..n];
      CoordinateFinds(records[..n], o);
    }
  }

  lemma SamePathSameRecord(records: seq<Record>, r: Record, o: Record)
    requires Distinct(RecordPaths(records)) && r in records && o in records && r.sourcePath == o.sourcePath
    ensures r == o
  {
    var i :| 0 <= i < |records| && records[i] == r;
    var j :| 0 <= j < |records| && records[j] == o;
    assert RecordPaths(records)[i] == RecordPaths(records)[j];
  }

  lemma OwnerOf(records: seq<Record>, r: Record) returns (o: Record)
    requires Owned(records) && r in records
    ensures o in records && o.sourcePath == OwnerIndex(r.sourcePath) && o.coordinate == r.ownerCoordinate
    ensures ByCoordinate(records, r.ownerCoordinate) == Some(o)
    ensures o.sourcePath == r.sourcePath ==> o == r
  {
    hide OwnerIndex, RecordPaths, Coordinates, Distinct, ByCoordinate, Parts, Join;
    o :| o in records && o.sourcePath == OwnerIndex(r.sourcePath) && o.coordinate == r.ownerCoordinate;
    CoordinateFinds(records, o);
    if o.sourcePath == r.sourcePath { SamePathSameRecord(records, r, o); }
  }

  ghost predicate IsDocsIndex(records: seq<Record>, root: Record) {
    root in records && root.sourcePath == DOCS_INDEX && root.ownerCoordinate == root.coordinate
  }

  lemma AncestorSteps(records: seq<Record>, r: Record, o: Record, steps: nat)
    requires ByCoordinate(records, r.ownerCoordinate) == Some(o)
    ensures Ancestor(records, r, 0) == Some(r)
    ensures steps > 0 ==> Ancestor(records, r, steps) == Ancestor(records, o, steps - 1)
    ensures r in records && r.sourcePath == DOCS_INDEX && o == r && o.coordinate == r.ownerCoordinate ==>
      IsDocsIndex(records, r)
  {
  }

  /** From any record under `docs`, following owner coordinates through the package
      arrives at the record of `docs/README.md`, which owns itself, in as many steps
      as the path is deep. */
  lemma {:induction false} OwnersLeadToTheDocsIndex(records: seq<Record>, r: Record)
    requires Owned(records) && r in records && InDocs(r.sourcePath)
    ensures var root := Ancestor(records, r, Height(r.sourcePath)); root.Some? && IsDocsIndex(records, root.value)
    decreases Height(r.sourcePath)
  {
    hide *;
    var o := OwnerOf(records, r);
    DocsIndexParts();
    AncestorSteps(records, r, o, Height(r.sourcePath));
    if r.sourcePath != DOCS_INDEX {
      OwnerIsHigher(r.sourcePath);
      OwnersLeadToTheDocsIndex(records, o);
    }
  }

  lemma {:induction false} PackageIsOwned(reader: Reader, bodies: map<Text, Text>, paths: seq<Text>, placed: seq<Placed>,
                       records: seq<Record>, exclusions: seq<Exclusion>)
    requires Classified(reader, bodies, paths, placed, records, exclusions)
    ensures Owned(records)
  {
    SourcesArePartitioned(reader, bodies, paths, placed, records, exclusions);
    hide Bounded, Small, Blank, RecordSealed, RecordFits, Classify, OwnerIndex, Lt, Le, Members;
    forall r | r in records
      ensures exists o :: o in records && o.sourcePath == OwnerIndex(r.sourcePath) && o.coordinate == r.ownerCoordinate
    {
      var j :| 0 <= j < |placed| && placed[j] == AsRecord(r);
      assert PlacedRight(reader, bodies, paths[j], placed[j]);
      var owner := OwnerIndex(r.sourcePath);
      assert owner in paths;
      var k :| 0 <= k < |paths| && paths[k] == owner;
      assert PlacedRight(reader, bodies, paths[k], placed[k]);
      var o := placed[k].record;
      assert o in records;
    }
  }

  // ----- the exporter

  ghost predicate AllNormal(reader: Reader, sources: map<Text, Text>) {
    forall k | k in sources :: reader.normalize(sources[k]).Some? && |reader.normalize(sources[k]).value| <= MAX_BODY
  }

  ghost function NormalBodies(reader: Reader, sources: map<Text, Text>): (bodies: map<Text, Text>)
    requires AllNormal(reader, sources)
    ensures Bodies(bodies) && bodies.Keys == sources.Keys
  {
    map k | k in sources :: reader.normalize(sources[k]).value
  }

  method NormalizeAll(reader: Reader, sources: map<Text, Text>) returns (r: Result<map<Text, Text>, BuildError>)
    ensures r.Ok? <==> AllNormal(reader, sources)
    ensures r.Ok? ==> r.value == NormalBodies(reader, sources)
  {
    var bodies: map<Text, Text> := map[];
    var remaining := sources.Keys;
    while remaining != {}
      invariant remaining <= sources.Keys && bodies.Keys == sources.Keys - remaining
      invariant forall k | k in bodies :: reader.normalize(sources[k]) == Some(bodies[k]) && |bodies[k]| <= MAX_BODY
    {
      var path := TakeLeast(remaining);
      match reader.normalize(sources[path]) {
        case None => return Err(BadBody(path));
        case Some(body) =>
          if |body| > MAX_BODY { return Err(BadBody(path)); }
          bodies := bodies[path := body];
      }
      remaining := remaining - {path};
    }
    r := Ok(bodies);
  }

  function BodyBytes(records: seq<Record>): nat {
    if records == [] then 0 else BodyBytes(records[..|records| - 1]) + |records[|records| - 1].body|
  }

  predicate InBounds(records: seq<Record>, exclusions: seq<Exclusion>) {
    && 0 < |records| <= MAX_RECORDS && |exclusions| <= MAX_EXCLUSIONS
    && BodyBytes(records) <= MAX_PACKAGE_BODIES
  }

  const EXPORTER: Text := Ascii("rrflow-knowledge-exporter")

  predicate Identified(repository: Text, revision: Text, id: Text) {
    CanonicalId(repository) && CanonicalId(id) && AsciiToken(revision, MAX_REVISION)
  }

  function ProvenanceOf(repository: Text, revision: Text): (p: Provenance)
    requires CanonicalId(repository) && AsciiToken(revision, MAX_REVISION)
    ensures ProvenanceBounded(p)
  {
    Provenance(repository, revision, EXPORTER, 1)
  }

  // ----- which trees can be exported

  /** The path is in the taxonomy: an index anywhere, or a record in a classed directory
      below `docs`. */
  ghost predicate HasClass(path: Text) {
    var parts := Parts(path);
    || parts[|parts| - 1] == README
    || (|parts| >= 3 && parts[0] == DOCS && exists classification :: InTaxonomy(parts[1], classification))
  }

  /** A source of the tree can be placed. A body without a coordinate is only an exclusion;
      one with a coordinate must be current, well named, in the taxonomy, and linked from an
      index that has a coordinate itself. */
  ghost predicate Acceptable(reader: Reader, bodies: map<Text, Text>, path: Text)
    requires path in bodies
  {
    var body, owner := bodies[path], OwnerIndex(path);
    && SourcePath(path)
    && (reader.coordinateOf(body).Some? ==>
        && reader.current(body) && Coordinate(reader.coordinateOf(body).value) && HasClass(path)
        && owner in bodies && reader.coordinateOf(bodies[owner]).Some? && Coordinate(reader.coordinateOf(bodies[owner]).value)
        && (path == DOCS_INDEX || reader.links(owner, bodies[owner], path)))
  }

  predicate Coordinated(reader: Reader, bodies: map<Text, Text>, path: Text) {
    path in bodies && reader.coordinateOf(bodies[path]).Some?
  }

  function RecordCount(reader: Reader, bodies: map<Text, Text>, paths: seq<Text>): nat {
    if paths == [] then 0
    else RecordCount(reader, bodies, paths[..|paths| - 1])
         + if Coordinated(reader, bodies, paths[|paths| - 1]) then 1 else 0
  }

  function SourceBytes(reader: Reader, bodies: map<Text, Text>, paths: seq<Text>): nat {
    if paths == [] then 0
    else SourceBytes(reader, bodies, paths[..|paths| - 1])
         + if Coordinated(reader, bodies, paths[|paths| - 1]) then |bodies[paths[|paths| - 1]]| else 0
  }

  ghost predicate NoSharedCoordinate(reader: Reader, bodies: map<Text, Text>) {
    forall p, q | Coordinated(reader, bodies, p) && Coordinated(reader, bodies, q)
      && reader.coordinateOf(bodies[p]) == reader.coordinateOf(bodies[q]) :: p == q
  }

  /** The whole tree, `paths` being its listing: every source is acceptable, no two share a
      coordinate, and there is something to export within the bounds. */
  ghost predicate Admissible(reader: Reader, bodies: map<Text, Text>, paths: seq<Text>) {
    && Listing(paths, bodies.Keys)
    && (forall path | path in bodies :: Acceptable(reader, bodies, path))
    && NoSharedCoordinate(reader, bodies)
    && 0 < RecordCount(reader, bodies, paths) <= MAX_RECORDS
    && |paths| - RecordCount(reader, bodies, paths) <= MAX_EXCLUSIONS
    && SourceBytes(reader, bodies, paths) <= MAX_PACKAGE_BODIES
  }

  /** When a tree of sources can be exported at all. */
  ghost predicate Exportable(reader: Reader, before: map<Text, Text>, after: map<Text, Text>,
                             repository: Text, revision: Text, id: Text)
    requires Lawful(reader)
  {
    && Identified(repository, revision, id)
    && before != map[] && AllNormal(reader, before) && after == before
    && exists paths :: Admissible(reader, NormalBodies(reader, before), paths)
  }

  lemma ClassifyIsHasClass(path: Text)
    ensures Classify(path).Some? <==> HasClass(path)
  {
    hide Classification, InTaxonomy;
    var parts := Parts(path);
    if |parts| >= 3 && parts[0] == DOCS {
      if Classification(parts[1]).Some? {
        ClassificationIsTheTable(parts[1], Classification(parts[1]).value);
      }
      forall c | InTaxonomy(parts[1], c) ensures Classification(parts[1]) == Some(c) {
        ClassificationIsTheTable(parts[1], c);
      }
    }
  }

  /** A source is placed if and only if it is acceptable, and as a record if and only if it
      has a coordinate. */
  lemma PlacementIsAcceptance(reader: Reader, bodies: map<Text, Text>, provenance: Provenance, path: Text)
    requires path in bodies && |bodies[path]| <= MAX_BODY
    requires Lawful(reader) && ProvenanceBounded(provenance)
    ensures var r := Placement(reader, bodies, provenance, path);
      && (r.Ok? <==> Acceptable(reader, bodies, path))
      && (r.Ok? ==> (r.value.AsRecord? <==> Coordinated(reader, bodies, path)))
  {
    hide SourcePath, Coordinate, Classify, OwnerIndex, HasClass, Exclude, Seal;
    ClassifyIsHasClass(path);
  }

  /** All placements of an acceptable tree. */
  lemma PlacedOf(reader: Reader, bodies: map<Text, Text>, provenance: Provenance, paths: seq<Text>) returns (placed: seq<Placed>)
    requires Lawful(reader) && ProvenanceBounded(provenance) && Bodies(bodies)
    requires forall i | 0 <= i < |paths| :: paths[i] in bodies && Acceptable(reader, bodies, paths[i])
    ensures PlacedAll(reader, bodies, provenance, paths, placed)
  {
    hide Placement, Acceptable;
    forall i | 0 <= i < |paths| ensures Placement(reader, bodies, provenance, paths[i]).Ok? {
      PlacementIsAcceptance(reader, bodies, provenance, paths[i]);
    }
    placed := seq(|paths|, i requires 0 <= i < |paths| => Placement(reader, bodies, provenance, paths[i]).value);
  }

  lemma {:induction false} PlacedSizes(reader: Reader, bodies: map<Text, Text>, provenance: Provenance, paths: seq<Text>,
                                       placed: seq<Placed>)
    requires Lawful(reader) && ProvenanceBounded(provenance) && Bodies(bodies)
    requires PlacedAll(reader, bodies, provenance, paths, placed)
    ensures |RecordsOf(placed)| == RecordCount(reader, bodies, paths)
    ensures BodyBytes(RecordsOf(placed)) == SourceBytes(reader, bodies, paths)
  {
    hide Placement, PlacedRight;
    if paths != [] {
      var n := |paths| - 1;
      PlacedSizes(reader, bodies, provenance, paths[..n], placed[..n]);
      assert Placement(reader, bodies, provenance, paths[n]) == Ok(placed[n]);
      PlacementIsAcceptance(reader, bodies, provenance, paths[n]);
      PlacementIsRight(reader, bodies, provenance, paths[n]);
      PlacedBody(reader, bodies, paths[n], placed[n]);
      assert placed == placed[..n] + [placed[n]];
      PlacedGrows(placed[..n], placed[n]);
      BodyBytesGrow(RecordsOf(placed[..n]), placed[n]);
    }
  }

  lemma PlacedBody(reader: Reader, bodies: map<Text, Text>, path: Text, placed: Placed)
    requires PlacedRight(reader, bodies, path, placed)
    ensures path in bodies && (placed.AsRecord? ==> placed.record.body == bodies[path])
  {
  }

  lemma BodyBytesGrow(records: seq<Record>, item: Placed)
    ensures item.AsRecord? ==> BodyBytes(records + [item.record]) == BodyBytes(records) + |item.record.body|
  {
    if item.AsRecord? {
      assert (records + [item.record])[..|records|] == records;
    }
  }

  lemma {:induction false} InsertKeepsBytes(records: seq<Record>, x: Record)
    ensures BodyBytes(InsertLast(RecordLe, records, x)) == BodyBytes(records) + |x.body|
  {
    var n := |records| - 1;
    if records != [] && !RecordLe(records[n], x) {
      InsertKeepsBytes(records[..n], x);
      BodyBytesGrow(InsertLast(RecordLe, records[..n], x), AsRecord(records[n]));
    } else {
      BodyBytesGrow(records, AsRecord(x));
    }
  }

  lemma {:induction false} SortKeepsBytes(records: seq<Record>)
    ensures BodyBytes(Sort(RecordLe, records)) == BodyBytes(records)
  {
    if records != [] {
      SortKeepsBytes(records[..|records| - 1]);
      InsertKeepsBytes(Sort(RecordLe, records[..|records| - 1]), records[|records| - 1]);
    }
  }

  lemma PlacedInBounds(reader: Reader, bodies: map<Text, Text>, provenance: Provenance, paths: seq<Text>,
                       placed: seq<Placed>)
    requires Lawful(reader) && ProvenanceBounded(provenance) && Bodies(bodies)
    requires PlacedAll(reader, bodies, provenance, paths, placed)
    ensures InBounds(Sort(RecordLe, RecordsOf(placed)), Sort(ExclusionLe, ExclusionsOf(placed))) <==>
      && 0 < RecordCount(reader, bodies, paths) <= MAX_RECORDS
      && |paths| - RecordCount(reader, bodies, paths) <= MAX_EXCLUSIONS
      && SourceBytes(reader, bodies, paths) <= MAX_PACKAGE_BODIES
  {
    hide Placement, RecordsOf, ExclusionsOf, Sort, BodyBytes, RecordCount, SourceBytes;
    PlacedSizes(reader, bodies, provenance, paths, placed);
    PlacedCounts(placed);
    SortPermutes(RecordLe, RecordsOf(placed));
    SortPermutes(ExclusionLe, ExclusionsOf(placed));
    SortKeepsBytes(RecordsOf(placed));
  }

  /** Every record of the placed sources stands for its coordinated path. */
  ghost predicate StandsFor(reader: Reader, bodies: map<Text, Text>, r: Record) {
    Coordinated(reader, bodies, r.sourcePath) && reader.coordinateOf(bodies[r.sourcePath]) == Some(r.coordinate)
  }

  lemma RecordsStandForPaths(reader: Reader, bodies: map<Text, Text>, provenance: Provenance, paths: seq<Text>,
                             placed: seq<Placed>)
    requires Lawful(reader) && ProvenanceBounded(provenance) && Bodies(bodies)
    requires Listing(paths, bodies.Keys) && PlacedAll(reader, bodies, provenance, paths, placed)
    ensures forall r | r in RecordsOf(placed) :: StandsFor(reader, bodies, r)
    ensures forall path | Coordinated(reader, bodies, path) :: exists r :: r in RecordsOf(placed) && r.sourcePath == path
    ensures forall i, j | 0 <= i < j < |RecordsOf(placed)| :: RecordsOf(placed)[i].sourcePath != RecordsOf(placed)[j].sourcePath
  {
    hide Placement, RecordsOf, ExclusionsOf, RecordSealed, Bounded, Small, Blank, Classify, OwnerIndex, RecordFits, Acceptable;
    forall i | 0 <= i < |paths|
      ensures PlacedRight(reader, bodies, paths[i], placed[i]) && (placed[i].AsRecord? <==> Coordinated(reader, bodies, paths[i]))
    {
      PlacementIsRight(reader, bodies, provenance, paths[i]);
      PlacementIsAcceptance(reader, bodies, provenance, paths[i]);
    }
    PlacedMembers(placed);
    assert Ascending(placed);
    AscendingKeys(placed);
    forall r | r in RecordsOf(placed) ensures StandsFor(reader, bodies, r) {
      var k :| 0 <= k < |placed| && placed[k] == AsRecord(r);
      assert PlacedRight(reader, bodies, paths[k], placed[k]);
    }
    forall path | Coordinated(reader, bodies, path) ensures exists r :: r in RecordsOf(placed) && r.sourcePath == path {
      assert path in paths;
      var k :| 0 <= k < |paths| && paths[k] == path;
      assert PlacedRight(reader, bodies, paths[k], placed[k]) && placed[k].AsRecord?;
      assert placed[k].record in RecordsOf(placed);
    }
    forall i, j | 0 <= i < j < |RecordsOf(placed)| ensures RecordsOf(placed)[i].sourcePath != RecordsOf(placed)[j].sourcePath {
      assert PathKey(RecordsOf(placed)[i]) != PathKey(RecordsOf(placed)[j]);
    }
  }

  lemma DistinctIsNoSharing(reader: Reader, bodies: map<Text, Text>, records: seq<Record>)
    requires forall r | r in records :: StandsFor(reader, bodies, r)
    requires forall path | Coordinated(reader, bodies, path) :: exists r :: r in records && r.sourcePath == path
    requires forall i, j | 0 <= i < j < |records| :: records[i].sourcePath != records[j].sourcePath
    ensures Distinct(Coordinates(records)) <==> NoSharedCoordinate(reader, bodies)
  {
    var coordinates := Coordinates(records);
    if NoSharedCoordinate(reader, bodies) {
      forall i, j | 0 <= i < j < |records| ensures coordinates[i] != coordinates[j] {
        assert records[i] in records && records[j] in records;
      }
    }
    if Distinct(coordinates) {
      forall p, q | Coordinated(reader, bodies, p) && Coordinated(reader, bodies, q)
        && reader.coordinateOf(bodies[p]) == reader.coordinateOf(bodies[q]) ensures p == q
      {
        var x :| x in records && x.sourcePath == p;
        var y :| y in records && y.sourcePath == q;
        var i :| 0 <= i < |records| && records[i] == x;
        var j :| 0 <= j < |records| && records[j] == y;
        assert coordinates[i] == coordinates[j];
      }
    }
  }

  /** The loop and its bounds accept exactly the admissible trees. */
  lemma ExportsIsAdmissible(reader: Reader, bodies: map<Text, Text>, provenance: Provenance, paths: seq<Text>)
    requires Lawful(reader) && ProvenanceBounded(provenance) && Bodies(bodies)
    ensures (exists placed :: Exports(reader, bodies, provenance, paths, placed)) <==> Admissible(reader, bodies, paths)
  {
    hide Placement, RecordsOf, ExclusionsOf, Sort, InBounds, Coordinates, Acceptable, RecordCount, SourceBytes, Distinct,
      NoSharedCoordinate, StandsFor;
    if placed :| Exports(reader, bodies, provenance, paths, placed) {
      PlacedFacts(reader, bodies, provenance, paths, placed);
      forall path | path in bodies ensures Acceptable(reader, bodies, path) {
        assert path in paths;
        var i :| 0 <= i < |paths| && paths[i] == path;
        PlacementIsAcceptance(reader, bodies, provenance, paths[i]);
      }
    }
    if Admissible(reader, bodies, paths) {
      assert forall i | 0 <= i < |paths| :: paths[i] in paths;
      var placed := PlacedOf(reader, bodies, provenance, paths);
      PlacedFacts(reader, bodies, provenance, paths, placed);
      assert Exports(reader, bodies, provenance, paths, placed);
    }
  }

  lemma PlacedFacts(reader: Reader, bodies: map<Text, Text>, provenance: Provenance, paths: seq<Text>, placed: seq<Placed>)
    requires Lawful(reader) && ProvenanceBounded(provenance) && Bodies(bodies)
    requires Listing(paths, bodies.Keys) && PlacedAll(reader, bodies, provenance, paths, placed)
    ensures InBounds(Sort(RecordLe, RecordsOf(placed)), Sort(ExclusionLe, ExclusionsOf(placed))) <==>
      && 0 < RecordCount(reader, bodies, paths) <= MAX_RECORDS
      && |paths| - RecordCount(reader, bodies, paths) <= MAX_EXCLUSIONS
      && SourceBytes(reader, bodies, paths) <= MAX_PACKAGE_BODIES
    ensures Distinct(Coordinates(RecordsOf(placed))) <==> NoSharedCoordinate(reader, bodies)
  {
    hide *;
    PlacedInBounds(reader, bodies, provenance, paths, placed);
    RecordsStandForPaths(reader, bodies, provenance, paths, placed);
    DistinctIsNoSharing(reader, bodies, RecordsOf(placed));
  }

  ghost predicate Exports(reader: Reader, bodies: map<Text, Text>, provenance: Provenance, paths: seq<Text>,
                          placed: seq<Placed>)
    requires Lawful(reader) && ProvenanceBounded(provenance) && Bodies(bodies)
  {
    && Listing(paths, bodies.Keys) && PlacedAll(reader, bodies, provenance, paths, placed)
    && Distinct(Coordinates(RecordsOf(placed)))
    && InBounds(Sort(RecordLe, RecordsOf(placed)), Sort(ExclusionLe, ExclusionsOf(placed)))
  }

  lemma PlacedIsUnique(reader: Reader, bodies: map<Text, Text>, provenance: Provenance, paths: seq<Text>,
                       a: seq<Placed>, b: seq<Placed>)
    requires Lawful(reader) && ProvenanceBounded(provenance) && Bodies(bodies)
    requires PlacedAll(reader, bodies, provenance, paths, a) && PlacedAll(reader, bodies, provenance, paths, b)
    ensures a == b
  {
    hide Placement;
    forall i | 0 <= i < |paths| ensures a[i] == b[i] {
      assert Placement(reader, bodies, provenance, paths[i]) == Ok(a[i]);
    }
  }

  lemma {:induction false} PlacedCounts(placed: seq<Placed>)
    ensures |RecordsOf(placed)| + |ExclusionsOf(placed)| == |placed|
  {
    if placed != [] { PlacedCounts(placed[..|placed| - 1]); }
  }

  lemma PlacedIsClassified(reader: Reader, bodies: map<Text, Text>, provenance: Provenance, paths: seq<Text>,
                           placed: seq<Placed>)
    requires Lawful(reader) && ProvenanceBounded(provenance) && Bodies(bodies)
    requires Listing(paths, bodies.Keys) && PlacedAll(reader, bodies, provenance, paths, placed)
    requires Distinct(Coordinates(RecordsOf(placed)))
    ensures Classified(reader, bodies, paths, placed,
                       Sort(RecordLe, RecordsOf(placed)), Sort(ExclusionLe, ExclusionsOf(placed)))
    ensures |Sort(RecordLe, RecordsOf(placed))| + |Sort(ExclusionLe, ExclusionsOf(placed))| == |paths|
  {
    PlacedCounts(placed);
    SortPermutes(RecordLe, RecordsOf(placed));
    SortPermutes(ExclusionLe, ExclusionsOf(placed));
    hide Placement, RecordsOf, ExclusionsOf, Sort, Arranged, RecordSealed, Bounded, Small, Blank, Classify, OwnerIndex, RecordFits;
    forall i | 0 <= i < |paths| ensures PlacedRight(reader, bodies, paths[i], placed[i]) {
      PlacementIsRight(reader, bodies, provenance, paths[i]);
    }
    assert Ascending(placed);
    SortingKeeps(placed);
  }

  lemma EntryForIsBounded(reader: Reader, bodies: map<Text, Text>, records: seq<Record>, exclusions: seq<Exclusion>,
                          path: Text)
    requires Lawful(reader) && path in bodies && EntryFor(reader, bodies, records, exclusions, path).Some?
    requires forall r | r in records :: Bounded(r)
    requires forall x | x in exclusions :: Small(ExclusionParts(x))
    ensures EntryBounded(EntryFor(reader, bodies, records, exclusions, path).value)
  {
    RecordAtFinds(records, path);
    ExclusionAtFinds(exclusions, path);
    hide RecordAt, ExclusionAt;
    var e := EntryFor(reader, bodies, records, exclusions, path).value;
    if RecordAt(records, path).None? {
      var x := ExclusionAt(exclusions, path).value;
      assert Small(ExclusionParts(x)) && ExclusionParts(x)[0] == path && ExclusionParts(x)[2] == x.reasonCode;
    }
  }

  lemma ClassifiedIsBounded(reader: Reader, bodies: map<Text, Text>, paths: seq<Text>, placed: seq<Placed>,
                            records: seq<Record>, exclusions: seq<Exclusion>)
    requires Classified(reader, bodies, paths, placed, records, exclusions)
    ensures forall r | r in records :: Bounded(r)
    ensures forall x | x in exclusions :: Small(ExclusionParts(x))
  {
    hide Bounded, Small, Blank, RecordSealed, RecordFits, Listing, Classify, OwnerIndex;
    forall r | r in records ensures Bounded(r) {
      var j :| 0 <= j < |placed| && placed[j] == AsRecord(r);
      assert PlacedRight(reader, bodies, paths[j], placed[j]);
    }
    forall x | x in exclusions ensures Small(ExclusionParts(x)) {
      var j :| 0 <= j < |placed| && placed[j] == AsExclusion(x);
      assert PlacedRight(reader, bodies, paths[j], placed[j]);
    }
  }

  lemma PackageIsBounded(reader: Reader, bodies: map<Text, Text>, paths: seq<Text>, placed: seq<Placed>, p: Package)
    requires Lawful(reader) && Classified(reader, bodies, paths, placed, p.records, p.exclusions)
    requires ManifestOf(reader, bodies, paths, p) && |p.records| + |p.exclusions| == |paths|
    requires p.contractVersion == 1 && |p.id| <= MAX_ID && ProvenanceBounded(p.provenance)
    requires InBounds(p.records, p.exclusions)
    ensures PackageFits(p)
  {
    ClassifiedIsBounded(reader, bodies, paths, placed, p.records, p.exclusions);
    hide Bounded, Small, EntryFor, EntryBounded, Arranged, PlacedRight, PackageFits, ExclusionParts;
    forall i | 0 <= i < |p.manifest| ensures EntryBounded(p.manifest[i]) {
      EntryForIsBounded(reader, bodies, p.records, p.exclusions, paths[i]);
    }
    BoundedPackageFits(p);
  }

  /** Every source appears as what its body says: a record with that body, the coordinate
      in its header and that of its owner, or, if it has no coordinate, an exclusion with
      the reason for that. */
  ghost predicate Carries(reader: Reader, bodies: map<Text, Text>, p: Package) {
    forall path | path in bodies :: CarriesSource(reader, bodies, p, path)
  }

  ghost predicate CarriesSource(reader: Reader, bodies: map<Text, Text>, p: Package, path: Text)
    requires path in bodies
  {
    match reader.coordinateOf(bodies[path])
    case Some(coordinate) =>
      && var r := RecordAt(p.records, path);
      && r.Some? && r.value.body == bodies[path] && r.value.coordinate == coordinate
      && Classify(path) == Some(r.value.classification)
      && OwnerIndex(path) in bodies && reader.coordinateOf(bodies[OwnerIndex(path)]) == Some(r.value.ownerCoordinate)
    case None =>
      && var x := ExclusionAt(p.exclusions, path);
      && x.Some? && x.value.sourceSha == reader.sha(bodies[path])
      && x.value.reasonCode == Ascii(if path == README then "bootstrap-product-entry" else "unclassified-record")
  }

  lemma PackageCarries(reader: Reader, bodies: map<Text, Text>, paths: seq<Text>, placed: seq<Placed>, p: Package)
    requires Classified(reader, bodies, paths, placed, p.records, p.exclusions)
    ensures Carries(reader, bodies, p)
  {
    hide RecordAt, ExclusionAt, Classify, OwnerIndex, Bounded, Small, Blank, RecordSealed, RecordFits, Arranged;
    forall path | path in bodies ensures CarriesSource(reader, bodies, p, path) {
      assert path in paths;
      var i :| 0 <= i < |paths| && paths[i] == path;
      LookupIsPlaced(reader, bodies, paths, placed, p.records, p.exclusions, i);
      assert PlacedRight(reader, bodies, paths[i], placed[i]);
    }
  }

  lemma NotExportable(reader: Reader, bodies: map<Text, Text>, provenance: Provenance, paths: seq<Text>)
    requires Lawful(reader) && ProvenanceBounded(provenance) && Bodies(bodies) && Listing(paths, bodies.Keys)
    requires forall all | PlacedAll(reader, bodies, provenance, paths, all) :: !Distinct(Coordinates(RecordsOf(all)))
    ensures !exists ps, all :: Exports(reader, bodies, provenance, ps, all)
  {
    hide Placement, RecordsOf, Coordinates, Sort, InBounds, Listing;
    forall ps, all ensures !Exports(reader, bodies, provenance, ps, all) {
      if Listing(ps, bodies.Keys) { ListingIsUnique(ps, paths, bodies.Keys); }
    }
  }

  lemma OutOfBoundsIsFinal(reader: Reader, bodies: map<Text, Text>, provenance: Provenance, paths: seq<Text>,
                           placed: seq<Placed>)
    requires Lawful(reader) && ProvenanceBounded(provenance) && Bodies(bodies) && Listing(paths, bodies.Keys)
    requires PlacedAll(reader, bodies, provenance, paths, placed)
    requires !InBounds(Sort(RecordLe, RecordsOf(placed)), Sort(ExclusionLe, ExclusionsOf(placed)))
    ensures !exists ps, all :: Exports(reader, bodies, provenance, ps, all)
  {
    hide Placement, RecordsOf, ExclusionsOf, Coordinates, Sort, InBounds, Listing, PlacedAll;
    forall ps, all ensures !Exports(reader, bodies, provenance, ps, all) {
      if Listing(ps, bodies.Keys) {
        ListingIsUnique(ps, paths, bodies.Keys);
        if PlacedAll(reader, bodies, provenance, paths, all) {
          PlacedIsUnique(reader, bodies, provenance, paths, placed, all);
        }
      }
    }
  }

  lemma NoneAdmissible(reader: Reader, bodies: map<Text, Text>, provenance: Provenance)
    requires Lawful(reader) && ProvenanceBounded(provenance) && Bodies(bodies)
    requires !exists paths, placed :: Exports(reader, bodies, provenance, paths, placed)
    ensures !exists paths :: Admissible(reader, bodies, paths)
  {
    hide Exports, Admissible;
    forall paths ensures !Admissible(reader, bodies, paths) {
      ExportsIsAdmissible(reader, bodies, provenance, paths);
    }
  }

  lemma RecordsCarryProvenance(reader: Reader, bodies: map<Text, Text>, provenance: Provenance, paths: seq<Text>,
                               placed: seq<Placed>, records: seq<Record>, exclusions: seq<Exclusion>)
    requires Lawful(reader) && ProvenanceBounded(provenance) && Bodies(bodies)
    requires PlacedAll(reader, bodies, provenance, paths, placed)
    requires Classified(reader, bodies, paths, placed, records, exclusions)
    ensures forall r | r in records :: r.provenance == provenance
  {
    hide SourcePath, Coordinate, Classify, OwnerIndex, Exclude, PlacedRight, Sorted, Distinct, Listing;
    forall r | r in records ensures r.provenance == provenance {
      var k :| 0 <= k < |placed| && placed[k] == AsRecord(r);
      assert Placement(reader, bodies, provenance, paths[k]) == Ok(placed[k]);
    }
  }

  /** `build_package`: exactly the exportable trees are exported, and then the package
      passes the independent check against the discovered sources, carries every
      source, and its owner coordinates are owned. */
  method Build(reader: Reader, before: map<Text, Text>, after: map<Text, Text>, repository: Text, revision: Text, id: Text)
    returns (r: Result<Package, BuildError>)
    requires Lawful(reader)
    ensures r.Ok? <==> Exportable(reader, before, after, repository, revision, id)
    ensures r.Ok? ==>
      && PackageFits(r.value) && Integrity(reader.sha, r.value, Some(before.Keys)) && Owned(r.value.records)
      && Carries(reader, NormalBodies(reader, before), r.value)
      && r.value.id == id && r.value.provenance == ProvenanceOf(repository, revision)
      && forall record | record in r.value.records :: record.provenance == r.value.provenance
  {
    hide Placement, PlacedAll, RecordsOf, ExclusionsOf, Coordinates, Sort, InBounds, Listing, Integrity, Owned, Carries,
      PackagePreimage, PackageFits, Classified, ManifestOf, EntryFor, CanonicalId, AsciiToken, ProvenanceOf, AllNormal,
      NormalBodies, Distinct, Lawful, Admissible;
    if !Identified(repository, revision, id) { return Err(BadIdentity); }
    if before == map[] { return Err(NoSources); }
    var normal := NormalizeAll(reader, before);
    if normal.Err? { return Err(normal.error); }
    var bodies := normal.value;
    var provenance := ProvenanceOf(repository, revision);
    var paths := ListPaths(bodies);
    var sorted, placed := PlaceAll(reader, bodies, provenance, paths);
    if sorted.Err? {
      NotExportable(reader, bodies, provenance, paths);
      NoneAdmissible(reader, bodies, provenance);
      return Err(sorted.error);
    }
    var records, exclusions := Sort(RecordLe, sorted.value.0), Sort(ExclusionLe, sorted.value.1);
    if !InBounds(records, exclusions) {
      OutOfBoundsIsFinal(reader, bodies, provenance, paths, placed);
      NoneAdmissible(reader, bodies, provenance);
      return Err(OutOfBounds);
    }
    PlacedIsClassified(reader, bodies, provenance, paths, placed);
    var p := Assemble(reader, bodies, provenance, id, paths, placed, records, exclusions);
    if after != before { return Err(SourcesChanged); }
    assert Exports(reader, bodies, provenance, paths, placed);
    ExportsIsAdmissible(reader, bodies, provenance, paths);
    RecordsCarryProvenance(reader, bodies, provenance, paths, placed, records, exclusions);
    r := Ok(p);
  }

  method ListPaths(bodies: map<Text, Text>) returns (paths: seq<Text>)
    ensures Listing(paths, bodies.Keys)
    ensures forall i | 0 <= i < |paths| :: paths[i] in bodies
  {
    paths := SortedKeys(bodies.Keys);
  }

  method Assemble(reader: Reader, bodies: map<Text, Text>, provenance: Provenance, id: Text, paths: seq<Text>,
                  ghost placed: seq<Placed>, records: seq<Record>, exclusions: seq<Exclusion>) returns (p: Package)
    requires Lawful(reader) && Classified(reader, bodies, paths, placed, records, exclusions)
    requires |records| + |exclusions| == |paths| && InBounds(records, exclusions)
    requires CanonicalId(id) && ProvenanceBounded(provenance)
    ensures PackageFits(p) && Integrity(reader.sha, p, Some(bodies.Keys)) && Owned(p.records) && Carries(reader, bodies, p)
    ensures p.id == id && p.provenance == provenance && p.records == records && p.exclusions == exclusions
  {
    hide PlacedRight, Arranged, InBounds, EntryFor, Integrity, Owned, PackageFits, PackagePreimage, Carries;
    var manifest := WriteManifest(reader, bodies, paths, placed, records, exclusions);
    p := Package(1, id, provenance, manifest, records, exclusions, []);
    assert ManifestOf(reader, bodies, paths, p);
    PackageIsBounded(reader, bodies, paths, placed, p);
    ghost var unsealed := p;
    p := p.(packageSha := reader.sha(PackagePreimage(p)));
    PreimageLeavesDigestOut(unsealed, p);
    PackageHasIntegrity(reader, bodies, paths, placed, p);
    PackageIsOwned(reader, bodies, paths, placed, records, exclusions);
    PackageCarries(reader, bodies, paths, placed, p);
  }

  lemma PreimageLeavesDigestOut(p: Package, q: Package)
    requires PackageFits(p) && q == p.(packageSha := q.packageSha)
    ensures PackageFits(q) && PackagePreimage(q) == PackagePreimage(p)
  {
    hide Frames, RecordFits, EntryFits, ExclusionFits, ProvenanceFits, AllShort;
    assert PartsFit(q);
    assert PackageParts(q) == PackageParts(p);
  }
}
