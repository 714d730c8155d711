/** The digest pre-images of knowledge records and packages: nested length frames,
    tagged manifest entries and count-prefixed collections. A decoder inverts them,
    so a pre-image determines the record or package it was made from. */
module KnowledgeCodec {
  import opened Bytes
  import opened Wrappers

  /** A string, as its UTF-8 bytes. */
  type Text = seq<byte>

  datatype Provenance = Provenance(repository: Text, revision: Text, exporter: Text, exporterVersion: nat)

  datatype Record = Record(contractVersion: nat, coordinate: Text, sourcePath: Text, classification: Text,
                           ownerCoordinate: Text, body: Text, bodySha: Text, provenance: Provenance, recordSha: Text)

  /** An entry is included, or carries some other disposition with a reason code. */
  datatype Disposition =
    | Included(coordinate: Text, classification: Text, recordSha: Text)
    | Other(name: Text, reasonCode: Text)

  datatype Entry = Entry(sourcePath: Text, sourceSha: Text, disposition: Disposition)

  datatype Exclusion = Exclusion(sourcePath: Text, sourceSha: Text, reasonCode: Text, reason: Text)

  datatype Package = Package(contractVersion: nat, id: Text, provenance: Provenance, manifest: seq<Entry>,
                             records: seq<Record>, exclusions: seq<Exclusion>, packageSha: Text)

  const INCLUDED: Text := [105, 110, 99, 108, 117, 100, 101, 100]       // "included"
  const EXCLUDED: Text := [101, 120, 99, 108, 117, 100, 101, 100]       // "excluded"
  const RECORD_DOMAIN: Text := [114, 114, 102, 108, 111, 119, 45, 107, 110, 111, 119, 108, 101, 100, 103, 101,
                                45, 114, 101, 99, 111, 114, 100, 45, 118, 49, 0]    // "rrflow-knowledge-record-v1\\0"
  const PACKAGE_DOMAIN: Text := [114, 114, 102, 108, 111, 119, 45, 107, 110, 111, 119, 108, 101, 100, 103, 101,
                                 45, 112, 97, 99, 107, 97, 103, 101, 45, 118, 49, 0] // "rrflow-knowledge-package-v1\\0"

  // ----- frames

  /** What `len(value).to_bytes(8, "big")` can express. */
  predicate Short(value: Text) {
    |value| < Capacity(8)
  }

  predicate AllShort(parts: seq<Text>) {
    forall i | 0 <= i < |parts| :: Short(parts[i])
  }

  function Frame(value: Text): (r: seq<byte>)
    requires Short(value)
    ensures |r| == 8 + |value|
  {
    BigEndian(|value|, 8) + value
  }

  function Frames(parts: seq<Text>): seq<byte>
    requires AllShort(parts)
  {
    if parts == [] then [] else Frame(parts[0]) + Frames(parts[1..])
  }

  /** All frames of `bytes`, which they must fill. */
  function Unframe(bytes: seq<byte>): Option<seq<Text>>
    decreases |bytes|
  {
    if bytes == [] then Some([])
    else if |bytes| < 8 then None
    else
      var size := FromBigEndian(bytes[..8]);
      if 8 + size > |bytes| then None
      else
        match Unframe(bytes[8 + size..])
        case None => None
        case Some(rest) => Some([bytes[8..8 + size]] + rest)
  }

  lemma {:induction false} UnframeFrames(parts: seq<Text>)
    requires AllShort(parts)
    ensures Unframe(Frames(parts)) == Some(parts)
  {
    if parts != [] {
      var head, tail := parts[0], parts[1..];
      UnframeFrames(tail);
      BigEndianDecodes(|head|, 8);
      var bytes := Frames(parts);
      assert bytes[..8] == BigEndian(|head|, 8);
      assert bytes[8..8 + |head|] == head;
      assert bytes[8 + |head|..] == Frames(tail);
      assert [head] + tail == parts;
    }
  }

  // ----- records

  function ProvenanceParts(p: Provenance): seq<Text>
    requires p.exporterVersion < Capacity(2)
  {
    [p.repository, p.revision, p.exporter, BigEndian(p.exporterVersion, 2)]
  }

  predicate ProvenanceFits(p: Provenance) {
    p.exporterVersion < Capacity(2) && AllShort(ProvenanceParts(p)) && Short(Frames(ProvenanceParts(p)))
  }

  function ProvenanceBytes(p: Provenance): seq<byte>
    requires ProvenanceFits(p)
  {
    Frames(ProvenanceParts(p))
  }

  /** The eight fields that `record_digest` frames. */
  function SealedParts(r: Record): seq<Text>
    requires r.contractVersion < Capacity(2) && ProvenanceFits(r.provenance)
  {
    [BigEndian(r.contractVersion, 2), r.coordinate, r.sourcePath, r.classification, r.ownerCoordinate,
     r.body, r.bodySha, ProvenanceBytes(r.provenance)]
  }

  predicate RecordFits(r: Record) {
    && r.contractVersion < Capacity(2) && ProvenanceFits(r.provenance)
    && AllShort(SealedParts(r)) && Short(r.recordSha)
  }

  function RecordPreimage(r: Record): seq<byte>
    requires RecordFits(r)
  {
    RECORD_DOMAIN + Frames(SealedParts(r))
  }

  function RecordBytes(r: Record): seq<byte>
    requires RecordFits(r)
  {
    Frames(SealedParts(r) + [r.recordSha])
  }

  function DecodeShort(bytes: Text): Option<nat> {
    if |bytes| == 2 then Some(FromBigEndian(bytes)) else None
  }

  function DecodeProvenance(bytes: Text): Option<Provenance> {
    match Unframe(bytes)
    case None => None
    case Some(parts) =>
      if |parts| != 4 then None
      else
        match DecodeShort(parts[3])
        case None => None
        case Some(v) => Some(Provenance(parts[0], parts[1], parts[2], v))
  }

  /** A record from its eight sealed parts; its own digest is supplied. */
  function RecordFromParts(parts: seq<Text>, recordSha: Text): Option<Record>
    requires |parts| == 8
  {
    match DecodeShort(parts[0])
    case None => None
    case Some(version) =>
      match DecodeProvenance(parts[7])
      case None => None
      case Some(p) =>
        Some(Record(version, parts[1], parts[2], parts[3], parts[4], parts[5], parts[6], p, recordSha))
  }

  /** The inverse of `RecordPreimage`, up to the digest that it leaves out. */
  function DecodeRecordPreimage(bytes: seq<byte>): Option<Record> {
    if !(RECORD_DOMAIN <= bytes) then None
    else
      match Unframe(bytes[|RECORD_DOMAIN|..])
      case None => None
      case Some(parts) => if |parts| != 8 then None else RecordFromParts(parts, [])
  }

  function DecodeRecord(bytes: seq<byte>): Option<Record> {
    match Unframe(bytes)
    case None => None
    case Some(parts) => if |parts| != 9 then None else RecordFromParts(parts[..8], parts[8])
  }

  lemma ShortDecodes(n: nat)
    requires n < Capacity(2)
    ensures DecodeShort(BigEndian(n, 2)) == Some(n)
  {
    BigEndianDecodes(n, 2);
  }

  lemma ProvenanceRoundTrip(p: Provenance)
    requires ProvenanceFits(p)
    ensures DecodeProvenance(ProvenanceBytes(p)) == Some(p)
  {
    UnframeFrames(ProvenanceParts(p));
    ShortDecodes(p.exporterVersion);
  }

  lemma PartsRoundTrip(r: Record, recordSha: Text)
    requires RecordFits(r)
    ensures RecordFromParts(SealedParts(r), recordSha) == Some(r.(recordSha := recordSha))
  {
    hide Frames, DecodeProvenance;
    ShortDecodes(r.contractVersion);
    ProvenanceRoundTrip(r.provenance);
  }

  /** The record digest covers every field but the digest itself. */
  lemma RecordPreimageRoundTrip(r: Record)
    requires RecordFits(r)
    ensures DecodeRecordPreimage(RecordPreimage(r)) == Some(r.(recordSha := []))
  {
    hide RecordFromParts;
    UnframeFrames(SealedParts(r));
    PartsRoundTrip(r, []);
    assert RecordPreimage(r)[|RECORD_DOMAIN|..] == Frames(SealedParts(r));
  }

  lemma RecordRoundTrip(r: Record)
    requires RecordFits(r)
    ensures AllShort(SealedParts(r) + [r.recordSha])
    ensures DecodeRecord(RecordBytes(r)) == Some(r)
  {
    hide RecordFromParts;
    var parts := SealedParts(r) + [r.recordSha];
    UnframeFrames(parts);
    PartsRoundTrip(r, r.recordSha);
    assert parts[..8] == SealedParts(r);
  }

  // ----- manifest entries and exclusions

  predicate EntryFits(e: Entry) {
    && AllShort(EntryParts(e))
    && (e.disposition.Other? ==> e.disposition.name != INCLUDED)
  }

  function EntryParts(e: Entry): seq<Text> {
    [e.sourcePath, e.sourceSha]
    + match e.disposition
      case Included(coordinate, classification, recordSha) => [INCLUDED, coordinate, classification, recordSha]
      case Other(name, reasonCode) => [name, reasonCode]
  }

  function EntryBytes(e: Entry): seq<byte>
    requires EntryFits(e)
  {
    Frames(EntryParts(e))
  }

  function DecodeEntry(bytes: seq<byte>): Option<Entry> {
    match Unframe(bytes)
    case None => None
    case Some(parts) =>
      if |parts| == 6 && parts[2] == INCLUDED then
        Some(Entry(parts[0], parts[1], Included(parts[3], parts[4], parts[5])))
      else if |parts| == 4 && parts[2] != INCLUDED then
        Some(Entry(parts[0], parts[1], Other(parts[2], parts[3])))
      else None
  }

  lemma EntryRoundTrip(e: Entry)
    requires EntryFits(e)
    ensures DecodeEntry(EntryBytes(e)) == Some(e)
  {
    UnframeFrames(EntryParts(e));
  }

  function ExclusionParts(e: Exclusion): seq<Text> {
    [e.sourcePath, e.sourceSha, e.reasonCode, e.reason]
  }

  predicate ExclusionFits(e: Exclusion) {
    AllShort(ExclusionParts(e))
  }

  function ExclusionBytes(e: Exclusion): seq<byte>
    requires ExclusionFits(e)
  {
    Frames(ExclusionParts(e))
  }

  function DecodeExclusion(bytes: seq<byte>): Option<Exclusion> {
    match Unframe(bytes)
    case None => None
    case Some(parts) =>
      if |parts| != 4 then None else Some(Exclusion(parts[0], parts[1], parts[2], parts[3]))
  }

  lemma ExclusionRoundTrip(e: Exclusion)
    requires ExclusionFits(e)
    ensures DecodeExclusion(ExclusionBytes(e)) == Some(e)
  {
    UnframeFrames(ExclusionParts(e));
  }

  // ----- collections

  /** `_collection` before framing: the count, then one part per value. */
  function Collection(items: seq<Text>): seq<Text>
    requires |items| < Capacity(8)
  {
    [BigEndian(|items|, 8)] + items
  }

  /** A collection from the front of `parts`, and what follows it. */
  function TakeCollection(parts: seq<Text>): Option<(seq<Text>, seq<Text>)> {
    if parts == [] || |parts[0]| != 8 then None
    else
      var n := FromBigEndian(parts[0]);
      if 1 + n > |parts| then None else Some((parts[1..1 + n], parts[1 + n..]))
  }

  lemma CollectionRoundTrip(items: seq<Text>, rest: seq<Text>)
    requires |items| < Capacity(8)
    ensures TakeCollection(Collection(items) + rest) == Some((items, rest))
  {
    BigEndianDecodes(|items|, 8);
    var parts := Collection(items) + rest;
    assert parts[1..1 + |items|] == items;
    assert parts[1 + |items|..] == rest;
  }

  function DecodeAll<T>(decode: Text -> Option<T>, items: seq<Text>): Option<seq<T>> {
    if items == [] then Some([])
    else
      match decode(items[0])
      case None => None
      case Some(v) =>
        match DecodeAll(decode, items[1..])
        case None => None
        case Some(rest) => Some([v] + rest)
  }

  lemma {:induction false} DecodeAllInverts<T>(decode: Text -> Option<T>, items: seq<Text>, values: seq<T>)
    requires |items| == |values| && forall i | 0 <= i < |items| :: decode(items[i]) == Some(values[i])
    ensures DecodeAll(decode, items) == Some(values)
  {
    if items != [] {
      DecodeAllInverts(decode, items[1..], values[1..]);
      assert [values[0]] + values[1..] == values;
    }
  }

  // ----- packages

  function EntryItems(manifest: seq<Entry>): seq<Text>
    requires forall i | 0 <= i < |manifest| :: EntryFits(manifest[i])
  {
    seq(|manifest|, i requires 0 <= i < |manifest| => EntryBytes(manifest[i]))
  }

  function RecordItems(records: seq<Record>): seq<Text>
    requires forall i | 0 <= i < |records| :: RecordFits(records[i])
  {
    seq(|records|, i requires 0 <= i < |records| => RecordBytes(records[i]))
  }

  function ExclusionItems(exclusions: seq<Exclusion>): seq<Text>
    requires forall i | 0 <= i < |exclusions| :: ExclusionFits(exclusions[i])
  {
    seq(|exclusions|, i requires 0 <= i < |exclusions| => ExclusionBytes(exclusions[i]))
  }

  predicate PartsFit(p: Package) {
    && p.contractVersion < Capacity(2) && ProvenanceFits(p.provenance)
    && (forall i | 0 <= i < |p.manifest| :: EntryFits(p.manifest[i]))
    && (forall i | 0 <= i < |p.records| :: RecordFits(p.records[i]))
    && (forall i | 0 <= i < |p.exclusions| :: ExclusionFits(p.exclusions[i]))
    && |p.manifest| < Capacity(8) && |p.records| < Capacity(8) && |p.exclusions| < Capacity(8)
  }

  function PackageParts(p: Package): seq<Text>
    requires PartsFit(p)
  {
    [BigEndian(p.contractVersion, 2), p.id, ProvenanceBytes(p.provenance)]
    + (Collection(EntryItems(p.manifest))
       + (Collection(RecordItems(p.records))
          + (Collection(ExclusionItems(p.exclusions)) + [])))
  }

  /** Every length and number fits its field: nothing `package_digest` computes overflows. */
  predicate PackageFits(p: Package) {
    PartsFit(p) && AllShort(PackageParts(p))
  }

  function PackagePreimage(p: Package): seq<byte>
    requires PackageFits(p)
  {
    PACKAGE_DOMAIN + Frames(PackageParts(p))
  }

  function DecodeCollections(version: nat, id: Text, provenance: Provenance, parts: seq<Text>): Option<Package> {
    match TakeCollection(parts)
    case None => None
    case Some((entries, parts1)) =>
      match TakeCollection(parts1)
      case None => None
      case Some((records, parts2)) =>
        match TakeCollection(parts2)
        case None => None
        case Some((exclusions, parts3)) =>
          match (DecodeAll(DecodeEntry, entries), DecodeAll(DecodeRecord, records), DecodeAll(DecodeExclusion, exclusions))
          case (Some(m), Some(r), Some(x)) =>
            if parts3 == [] then Some(Package(version, id, provenance, m, r, x, [])) else None
          case _ => None
  }

  /** The inverse of `PackagePreimage`, up to the digest that it leaves out. */
  function DecodePackagePreimage(bytes: seq<byte>): Option<Package> {
    if !(PACKAGE_DOMAIN <= bytes) then None
    else
      match Unframe(bytes[|PACKAGE_DOMAIN|..])
      case None => None
      case Some(parts) =>
        if |parts| < 3 then None
        else
          match (DecodeShort(parts[0]), DecodeProvenance(parts[2]))
          case (Some(version), Some(provenance)) => DecodeCollections(version, parts[1], provenance, parts[3..])
          case _ => None
  }

  lemma CollectionsRoundTrip(p: Package)
    requires PartsFit(p)
    ensures DecodeCollections(p.contractVersion, p.id, p.provenance,
              Collection(EntryItems(p.manifest))
              + (Collection(RecordItems(p.records)) + (Collection(ExclusionItems(p.exclusions)) + [])))
         == Some(p.(packageSha := []))
  {
    hide Collection, TakeCollection, DecodeEntry, DecodeRecord, DecodeExclusion, EntryFits, RecordFits, ExclusionFits,
      EntryBytes, RecordBytes, ExclusionBytes;
    var m, r, x := EntryItems(p.manifest), RecordItems(p.records), ExclusionItems(p.exclusions);
    CollectionRoundTrip(x, []);
    CollectionRoundTrip(r, Collection(x) + []);
    CollectionRoundTrip(m, Collection(r) + (Collection(x) + []));
    forall i | 0 <= i < |m| ensures DecodeEntry(m[i]) == Some(p.manifest[i]) { EntryRoundTrip(p.manifest[i]); }
    DecodeAllInverts(DecodeEntry, m, p.manifest);
    forall i | 0 <= i < |r| ensures DecodeRecord(r[i]) == Some(p.records[i]) { RecordRoundTrip(p.records[i]); }
    DecodeAllInverts(DecodeRecord, r, p.records);
    forall i | 0 <= i < |x| ensures DecodeExclusion(x[i]) == Some(p.exclusions[i]) { ExclusionRoundTrip(p.exclusions[i]); }
    DecodeAllInverts(DecodeExclusion, x, p.exclusions);
  }

  /** The package digest covers the whole package but the digest itself. */
  lemma PackagePreimageRoundTrip(p: Package)
    requires PackageFits(p)
    ensures DecodePackagePreimage(PackagePreimage(p)) == Some(p.(packageSha := []))
  {
    hide DecodeCollections, DecodeProvenance, Frames, Collection, ProvenanceFits;
    var parts := PackageParts(p);
    UnframeFrames(parts);
    assert PackagePreimage(p)[|PACKAGE_DOMAIN|..] == Frames(parts);
    ShortDecodes(p.contractVersion);
    ProvenanceRoundTrip(p.provenance);
    CollectionsRoundTrip(p);
    assert parts[3..] == Collection(EntryItems(p.manifest))
      + (Collection(RecordItems(p.records)) + (Collection(ExclusionItems(p.exclusions)) + []));
  }

  /** Different packages never share a pre-image, and neither do different records. */
  lemma PreimagesAreInjective(p: Package, q: Package)
    requires PackageFits(p) && PackageFits(q) && PackagePreimage(p) == PackagePreimage(q)
    ensures p.(packageSha := []) == q.(packageSha := [])
  {
    hide *;
    PackagePreimageRoundTrip(p);
    PackagePreimageRoundTrip(q);
  }

  lemma RecordPreimagesAreInjective(r: Record, s: Record)
    requires RecordFits(r) && RecordFits(s) && RecordPreimage(r) == RecordPreimage(s)
    ensures r.(recordSha := []) == s.(recordSha := [])
  {
    hide *;
    RecordPreimageRoundTrip(r);
    RecordPreimageRoundTrip(s);
  }
}
