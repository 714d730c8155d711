/** The independent integrity check of an exported knowledge package. */
module KnowledgeChecker {
  import opened Bytes
  import opened Wrappers
  import opened Sorting
  import opened KnowledgeCodec

  type Digest = Text -> Text

  datatype Failure =
    | ManifestOrder | RecordOrder | ExclusionOrder
    | DuplicateManifestPath | DuplicateRecordPath | DuplicateCoordinate | DuplicateExclusionPath
    | IncludedAndExcluded | Coverage
    | BodyDigest(path: Text) | RecordDigest(path: Text)
    | NoRecord(path: Text) | EntryDrift(path: Text) | NoLedger(path: Text) | LedgerDrift(path: Text)
    | UnknownDisposition(path: Text)
    | Partition | PackageDigest

  // ----- projections

  function ManifestPaths(manifest: seq<Entry>): seq<Text> {
    seq(|manifest|, i requires 0 <= i < |manifest| => manifest[i].sourcePath)
  }

  function RecordPaths(records: seq<Record>): seq<Text> {
    seq(|records|, i requires 0 <= i < |records| => records[i].sourcePath)
  }

  function Coordinates(records: seq<Record>): seq<Text> {
    seq(|records|, i requires 0 <= i < |records| => records[i].coordinate)
  }

  function ExclusionPaths(exclusions: seq<Exclusion>): seq<Text> {
    seq(|exclusions|, i requires 0 <= i < |exclusions| => exclusions[i].sourcePath)
  }

  function Members(s: seq<Text>): set<Text> {
    set x | x in s
  }

  /** Order by coordinate, then by source path. */
  predicate RecordLe(a: Record, b: Record) {
    Lt(a.coordinate, b.coordinate) || (a.coordinate == b.coordinate && Le(a.sourcePath, b.sourcePath))
  }

  lemma TextOrder()
    ensures TotalPreorder(Le)
  {
    forall a, b ensures Le(a, b) || Le(b, a) { LeTotal(a, b); }
    forall a, b, c | Le(a, b) && Le(b, c) ensures Le(a, c) { LeTransitive(a, b, c); }
  }

  lemma RecordOrderIsTotal()
    ensures TotalPreorder(RecordLe)
  {
    forall a, b ensures RecordLe(a, b) || RecordLe(b, a) {
      LeTotal(a.coordinate, b.coordinate);
      LeTotal(a.sourcePath, b.sourcePath);
    }
    forall a, b, c | RecordLe(a, b) && RecordLe(b, c) ensures RecordLe(a, c) {
      if a.coordinate == c.coordinate {
        if a.coordinate != b.coordinate { LeAntisymmetric(a.coordinate, b.coordinate); }
        LeTransitive(a.sourcePath, b.sourcePath, c.sourcePath);
      } else if a.coordinate != b.coordinate && b.coordinate != c.coordinate {
        LeTransitive(a.coordinate, b.coordinate, c.coordinate);
      }
    }
  }

  // ----- lookups: in a dictionary built from a list the last value of a key stays

  function RecordAt(records: seq<Record>, path: Text): Option<Record> {
    if records == [] then None
    else if records[|records| - 1].sourcePath == path then Some(records[|records| - 1])
    else RecordAt(records[..|records| - 1], path)
  }

  function ExclusionAt(exclusions: seq<Exclusion>, path: Text): Option<Exclusion> {
    if exclusions == [] then None
    else if exclusions[|exclusions| - 1].sourcePath == path then Some(exclusions[|exclusions| - 1])
    else ExclusionAt(exclusions[..|exclusions| - 1], path)
  }

  /** How many bytes the white space character at the front of UTF-8 text takes, or 0. */
  function SpaceLength(text: Text): (n: nat)
    ensures n <= |text| && forall i | 0 <= i < n :: text[i] != 46
  {
    if |text| >= 1 && (9 <= text[0] <= 13 || 28 <= text[0] <= 32) then 1
    else if |text| >= 2 && text[0] == 0xC2 && (text[1] == 0x85 || text[1] == 0xA0) then 2
    else if |text| >= 3 && (
      || text[..3] == [0xE1, 0x9A, 0x80] || text[..3] == [0xE2, 0x81, 0x9F] || text[..3] == [0xE3, 0x80, 0x80]
      || (text[0] == 0xE2 && text[1] == 0x80
          && (0x80 <= text[2] <= 0x8A || text[2] == 0xA8 || text[2] == 0xA9 || text[2] == 0xAF)))
    then assert text[..3][0] == text[0] && text[..3][1] == text[1] && text[..3][2] == text[2]; 3
    else 0
  }

  /** Nothing is left after `strip()`. */
  predicate Blank(text: Text)
    decreases |text|
  {
    text == [] || (SpaceLength(text) > 0 && Blank(text[SpaceLength(text)..]))
  }

  /** A text that ends with a full stop is not blank. */
  lemma {:induction false} SentenceIsNotBlank(text: Text)
    requires text != [] && text[|text| - 1] == 46
    ensures !Blank(text)
    decreases |text|
  {
    hide SpaceLength;
    if SpaceLength(text) > 0 {
      SentenceIsNotBlank(text[SpaceLength(text)..]);
    }
  }

  // ----- what integrity means

  ghost predicate Shape(p: Package, discovered: Option<set<Text>>) {
    && Sorted(Le, ManifestPaths(p.manifest)) && Sorted(RecordLe, p.records) && Sorted(Le, ExclusionPaths(p.exclusions))
    && Distinct(ManifestPaths(p.manifest)) && Distinct(RecordPaths(p.records))
    && Distinct(Coordinates(p.records)) && Distinct(ExclusionPaths(p.exclusions))
    && Members(RecordPaths(p.records)) !! Members(ExclusionPaths(p.exclusions))
    && (discovered.Some? ==> Members(ManifestPaths(p.manifest)) == discovered.value)
  }

  ghost predicate RecordSealed(sha: Digest, r: Record)
    requires RecordFits(r)
  {
    sha(r.body) == r.bodySha && sha(RecordPreimage(r)) == r.recordSha
  }

  ghost predicate EntryBacked(p: Package, e: Entry) {
    match e.disposition
    case Included(coordinate, classification, recordSha) =>
      && var r := RecordAt(p.records, e.sourcePath);
      && r.Some? && e.sourceSha == r.value.bodySha && coordinate == r.value.coordinate
      && classification == r.value.classification && recordSha == r.value.recordSha
    case Other(name, reasonCode) =>
      && name == EXCLUDED
      && var x := ExclusionAt(p.exclusions, e.sourcePath);
      && x.Some? && e.sourceSha == x.value.sourceSha && reasonCode == x.value.reasonCode && !Blank(x.value.reason)
  }

  /** Ordered, duplicate-free, records and exclusions partition the discovered
      sources, every manifest entry matches its record or ledger line, and every
      digest is right. */
  ghost predicate Integrity(sha: Digest, p: Package, discovered: Option<set<Text>>)
    requires PackageFits(p)
  {
    && Shape(p, discovered)
    && (forall i | 0 <= i < |p.records| :: RecordSealed(sha, p.records[i]))
    && (forall i | 0 <= i < |p.manifest| :: EntryBacked(p, p.manifest[i]))
    && Members(ManifestPaths(p.manifest)) == Members(RecordPaths(p.records)) + Members(ExclusionPaths(p.exclusions))
    && sha(PackagePreimage(p)) == p.packageSha
  }

  // ----- the check, as it accumulates failures

  function When(bad: bool, f: Failure): seq<Failure> {
    if bad then [f] else []
  }

  method CheckShape(p: Package, discovered: Option<set<Text>>) returns (failures: seq<Failure>)
    ensures failures == [] <==> Shape(p, discovered)
  {
    var manifestPaths, recordPaths := ManifestPaths(p.manifest), RecordPaths(p.records);
    var exclusionPaths, coordinates := ExclusionPaths(p.exclusions), Coordinates(p.records);
    failures := When(manifestPaths != Sort(Le, manifestPaths), ManifestOrder);
    failures := failures + When(p.records != Sort(RecordLe, p.records), RecordOrder);
    failures := failures + When(exclusionPaths != Sort(Le, exclusionPaths), ExclusionOrder);
    failures := failures + When(|manifestPaths| != |Members(manifestPaths)|, DuplicateManifestPath);
    failures := failures + When(|recordPaths| != |Members(recordPaths)|, DuplicateRecordPath);
    failures := failures + When(|coordinates| != |Members(coordinates)|, DuplicateCoordinate);
    failures := failures + When(|exclusionPaths| != |Members(exclusionPaths)|, DuplicateExclusionPath);
    failures := failures + When(Members(recordPaths) * Members(exclusionPaths) != {}, IncludedAndExcluded);
    failures := failures + When(discovered.Some? && (|manifestPaths| != |discovered.value|
                                                      || Members(manifestPaths) != discovered.value), Coverage);
    ShapeIs(p, discovered);
  }

  lemma ShapeIs(p: Package, discovered: Option<set<Text>>)
    ensures Shape(p, discovered) <==>
      && ManifestPaths(p.manifest) == Sort(Le, ManifestPaths(p.manifest))
      && p.records == Sort(RecordLe, p.records)
      && ExclusionPaths(p.exclusions) == Sort(Le, ExclusionPaths(p.exclusions))
      && |ManifestPaths(p.manifest)| == |Members(ManifestPaths(p.manifest))|
      && |RecordPaths(p.records)| == |Members(RecordPaths(p.records))|
      && |Coordinates(p.records)| == |Members(Coordinates(p.records))|
      && |ExclusionPaths(p.exclusions)| == |Members(ExclusionPaths(p.exclusions))|
      && Members(RecordPaths(p.records)) * Members(ExclusionPaths(p.exclusions)) == {}
      && (discovered.Some? ==> |ManifestPaths(p.manifest)| == |discovered.value|)
      && (discovered.Some? ==> Members(ManifestPaths(p.manifest)) == discovered.value)
  {
    hide Sorted, Sort, Distinct, Members, ManifestPaths, RecordPaths, ExclusionPaths, Coordinates, TotalPreorder;
    RecordOrderIsTotal();
    SortedIsFixed(RecordLe, p.records);
    ListIs(ManifestPaths(p.manifest));
    ListIs(RecordPaths(p.records));
    ListIs(Coordinates(p.records));
    ListIs(ExclusionPaths(p.exclusions));
    DisjointIs(Members(RecordPaths(p.records)), Members(ExclusionPaths(p.exclusions)));
  }

  lemma DisjointIs(a: set<Text>, b: set<Text>)
    ensures a !! b <==> a * b == {}
  {
    if a * b != {} {
      var x :| x in a * b;
      assert x in a && x in b;
    } else {
      assert forall x | x in a && x in b :: x in a * b;
    }
  }

  lemma ListIs(texts: seq<Text>)
    ensures Sort(Le, texts) == texts <==> Sorted(Le, texts)
    ensures |texts| == |Members(texts)| <==> Distinct(texts)
  {
    TextOrder();
    SortedIsFixed(Le, texts);
    SetSizeIsDistinct(texts);
  }

  method CheckRecords(sha: Digest, records: seq<Record>) returns (failures: seq<Failure>)
    requires forall i | 0 <= i < |records| :: RecordFits(records[i])
    ensures failures == [] <==> forall i | 0 <= i < |records| :: RecordSealed(sha, records[i])
  {
    failures := [];
    for i := 0 to |records|
      invariant failures == [] <==> forall j | 0 <= j < i :: RecordSealed(sha, records[j])
    {
      var r := records[i];
      failures := failures + When(sha(r.body) != r.bodySha, BodyDigest(r.sourcePath));
      failures := failures + When(sha(RecordPreimage(r)) != r.recordSha, RecordDigest(r.sourcePath));
    }
  }

  method CheckEntries(p: Package) returns (failures: seq<Failure>)
    ensures failures == [] <==> forall i | 0 <= i < |p.manifest| :: EntryBacked(p, p.manifest[i])
  {
    failures := [];
    for i := 0 to |p.manifest|
      invariant failures == [] <==> forall j | 0 <= j < i :: EntryBacked(p, p.manifest[j])
    {
      var e := p.manifest[i];
      var found: seq<Failure> := [];
      match e.disposition {
        case Included(coordinate, classification, recordSha) =>
          var r := RecordAt(p.records, e.sourcePath);
          if r.None? {
            found := [NoRecord(e.sourcePath)];
          } else {
            found := When(e.sourceSha != r.value.bodySha || coordinate != r.value.coordinate
                          || classification != r.value.classification || recordSha != r.value.recordSha,
                          EntryDrift(e.sourcePath));
          }
        case Other(name, reasonCode) =>
          var x := ExclusionAt(p.exclusions, e.sourcePath);
          if name != EXCLUDED {
            found := [UnknownDisposition(e.sourcePath)];
          } else if x.None? {
            found := [NoLedger(e.sourcePath)];
          } else {
            found := When(e.sourceSha != x.value.sourceSha || reasonCode != x.value.reasonCode || Blank(x.value.reason),
                          LedgerDrift(e.sourcePath));
          }
      }
      assert found == [] <==> EntryBacked(p, e);
      failures := failures + found;
    }
  }

  /** `knowledge_package_integrity_failures`: no failure is reported if and only if
      the package has integrity. */
  method Check(sha: Digest, p: Package, discovered: Option<set<Text>>) returns (failures: seq<Failure>)
    requires PackageFits(p)
    ensures failures == [] <==> Integrity(sha, p, discovered)
  {
    hide Shape, RecordSealed, EntryBacked, PackagePreimage, RecordFits, EntryFits, ExclusionFits, PackageParts;
    var shape := CheckShape(p, discovered);
    var records := CheckRecords(sha, p.records);
    var entries := CheckEntries(p);
    failures := shape + records + entries;
    failures := failures + When(Members(ManifestPaths(p.manifest))
                                != Members(RecordPaths(p.records)) + Members(ExclusionPaths(p.exclusions)), Partition);
    failures := failures + When(sha(PackagePreimage(p)) != p.packageSha, PackageDigest);
  }
}
