/** The observation log: many streams of hash-chained records share one
    append-only file, guarded by an exclusive lock file. JSON text and the digest
    are parameters; the laws they are assumed to obey are stated where used. */
module ObservationLog {
  import opened Bytes
  import opened Wrappers

  const MAX_RECORD := 128 * 1024
  const MAX_LOG := 64 * 1024 * 1024
  const NEWLINE: byte := 10

  datatype Json =
    | Null
    | Bool(b: bool)
    | Int(n: int)
    | Real(digits: string)
    | Text(s: string)
    | List(items: seq<Json>)
    | Object(fields: map<string, Json>)

  /** `canonical`, `strict_json` and `digest`. */
  datatype Codec = Codec(canonical: Json -> seq<byte>, parse: seq<byte> -> Option<Json>, digest: seq<byte> -> string)

  predicate HexDigit(ch: char) {
    '0' <= ch <= '9' || 'a' <= ch <= 'f'
  }

  /** `identity`: 64 lower-case hexadecimal digits. */
  predicate IsIdentity(value: Json) {
    value.Text? && |value.s| == 64 && forall i | 0 <= i < 64 :: HexDigit(value.s[i])
  }

  /** The sixteen digits. */
  lemma HexDigits(ch: char)
    ensures HexDigit(ch) <==> ch in "0123456789abcdef"
  {
    var digits := "0123456789abcdef";
    if HexDigit(ch) {
      var i: nat := if ch <= '9' then (ch as int) - ('0' as int) else (ch as int) - ('a' as int) + 10;
      assert digits[i] == ch;
    }
  }

  /** One line: bytes without a newline, then one newline. */
  predicate IsLine(bytes: seq<byte>) {
    bytes != [] && bytes[|bytes| - 1] == NEWLINE && forall i | 0 <= i < |bytes| - 1 :: bytes[i] != NEWLINE
  }

  /** Canonical text parses back to its value and is a single line. */
  ghost predicate Lawful(c: Codec) {
    && (forall v :: c.parse(c.canonical(v)) == Some(v))
    && (forall v :: IsLine(c.canonical(v)))
  }

  // ----- records

  const FIELDS: set<string> := {
    "schemaVersion", "purpose", "recordId", "capturedAt", "streamSha256", "snapshotSha256", "source",
    "changedPaths", "task", "previousRecordId", "labelStatus", "trainingAdmitted", "engineReceipt"
  }

  function DigestOf(c: Codec, value: Json): Json {
    Text(c.digest(c.canonical(value)))
  }

  /** The identity a record must carry: the digest of all its other fields. */
  function RecordIdentity(c: Codec, fields: map<string, Json>): Json {
    DigestOf(c, Object(fields - {"recordId"}))
  }

  /** `validate_record` accepts. */
  predicate ValidRecord(c: Codec, record: Json) {
    && record.Object? && record.fields.Keys == FIELDS
    && var r := record.fields;
    && r["schemaVersion"] == Int(1)
    && r["purpose"] == Text("unreviewed_local_observation") && r["labelStatus"] == Text("unreviewed")
    && r["trainingAdmitted"] == Bool(false) && r["engineReceipt"] == Null
    && IsIdentity(r["streamSha256"]) && IsIdentity(r["snapshotSha256"])
    && r["source"].Object? && DigestOf(c, r["source"]) == r["snapshotSha256"]
    && (r["previousRecordId"] == Null || IsIdentity(r["previousRecordId"]))
    && RecordIdentity(c, r) == r["recordId"] && IsIdentity(r["recordId"])
  }

  function FieldOf(record: Json, name: string): Json {
    if record.Object? && name in record.fields then record.fields[name] else Null
  }

  function StreamOf(record: Json): Json { FieldOf(record, "streamSha256") }
  function SnapshotOf(record: Json): Json { FieldOf(record, "snapshotSha256") }
  function PreviousOf(record: Json): Json { FieldOf(record, "previousRecordId") }
  function IdOf(record: Json): Json { FieldOf(record, "recordId") }

  function PredecessorId(previous: Option<Json>): Json {
    if previous.None? then Null else IdOf(previous.value)
  }

  // ----- the scan of an existing log

  /** `readline(limit)`: through the first newline, but at most `limit` bytes. */
  function ReadLine(bytes: seq<byte>, limit: nat): (line: seq<byte>)
    ensures line <= bytes && |line| <= limit
    ensures bytes != [] && limit > 0 ==> line != []
  {
    if bytes == [] || limit == 0 then []
    else if bytes[0] == NEWLINE then [bytes[0]]
    else [bytes[0]] + ReadLine(bytes[1..], limit - 1)
  }

  /** One round of the scan loop: the record this line holds, or a refusal. */
  function ScanLine(c: Codec, line: seq<byte>, stream: Json, previous: Option<Json>): Option<Option<Json>> {
    if line == [] || |line| > MAX_RECORD || line[|line| - 1] != NEWLINE then None
    else
      match c.parse(line)
      case None => None
      case Some(prior) =>
        if !ValidRecord(c, prior) then None
        else if StreamOf(prior) != stream then Some(previous)
        else if PreviousOf(prior) != PredecessorId(previous) then None
        else Some(Some(prior))
  }

  /** The last record of `stream`, or a refusal of the whole log. */
  function Scan(c: Codec, bytes: seq<byte>, stream: Json, previous: Option<Json>): Option<Option<Json>>
    decreases |bytes|
  {
    if bytes == [] then Some(previous)
    else
      var line := ReadLine(bytes, MAX_RECORD + 1);
      match ScanLine(c, line, stream, previous)
      case None => None
      case Some(next) => Scan(c, bytes[|line|..], stream, next)
  }

  // ----- the decision after the scan

  datatype Decision = Unchanged | Refuse | Write(record: Json)

  function Decide(c: Codec, record: map<string, Json>, previous: Option<Json>, length: nat): Decision {
    if "streamSha256" !in record || "snapshotSha256" !in record then Refuse
    else if previous.Some? && SnapshotOf(previous.value) == record["snapshotSha256"] then Unchanged
    else
      var linked := record["previousRecordId" := PredecessorId(previous)];
      var sealed := Object(linked["recordId" := DigestOf(c, Object(linked))]);
      if !ValidRecord(c, sealed) then Refuse
      else
        var encoded := c.canonical(sealed);
        if |encoded| > MAX_RECORD || length + |encoded| > MAX_LOG then Refuse else Write(sealed)
  }

  /** The log an uninterrupted append leaves. */
  function Appended(c: Codec, file: seq<byte>, record: map<string, Json>): (seq<byte>, bool) {
    if |file| > MAX_LOG || "streamSha256" !in record then (file, false)
    else
      match Scan(c, file, record["streamSha256"], None)
      case None => (file, false)
      case Some(previous) =>
        match Decide(c, record, previous, |file|)
        case Write(sealed) => (file + c.canonical(sealed), true)
        case _ => (file, false)
  }

  /** The loop over the lines of an existing log. */
  method ReadLog(c: Codec, file: seq<byte>, stream: Json) returns (r: Option<Option<Json>>)
    ensures r == Scan(c, file, stream, None)
  {
    hide ScanLine, Scan, ReadLine;
    var previous, offset := None, 0;
    assert file[0..] == file;
    while offset < |file|
      invariant offset <= |file|
      invariant Scan(c, file, stream, None) == Scan(c, file[offset..], stream, previous)
      decreases |file| - offset
    {
      var line := ReadLine(file[offset..], MAX_RECORD + 1);
      var next := ScanLine(c, line, stream, previous);
      ScanStep(c, file, offset, stream, previous);
      if next.None? {
        return None;
      }
      previous, offset := next.value, offset + |line|;
    }
    assert file[offset..] == [];
    ScanOfNothing(c, stream, previous);
    r := Some(previous);
  }

  lemma ScanStep(c: Codec, file: seq<byte>, offset: nat, stream: Json, previous: Option<Json>)
    requires offset < |file|
    ensures var line := ReadLine(file[offset..], MAX_RECORD + 1);
      Scan(c, file[offset..], stream, previous) ==
        match ScanLine(c, line, stream, previous)
        case None => None
        case Some(next) => Scan(c, file[offset + |line|..], stream, next)
  {
    hide ScanLine, ReadLine;
    var line := ReadLine(file[offset..], MAX_RECORD + 1);
    assert file[offset..][|line|..] == file[offset + |line|..];
  }

  class Log {
    var file: seq<byte>
    var locked: bool

    /** `append` under `writer_lock`: an existing lock file is left alone and nothing
        else happens; otherwise the lock is gone again at every exit. */
    method Append(c: Codec, record: map<string, Json>) returns (written: bool)
      modifies this
      ensures locked == old(locked)
      ensures old(locked) ==> !written && file == old(file)
      ensures !old(locked) ==> (file, written) == Appended(c, old(file), record)
      ensures !old(locked) ==> forall records | Lawful(c) && Chained(c, records) && old(file) == Encoded(c, records) ::
        AppendsExactly(c, records, record, (file, written))
    {
      hide AppendsExactly, Lawful, Chained, Encoded, Decide, ScanLine;
      forall records | Lawful(c) && Chained(c, records) && file == Encoded(c, records)
        ensures AppendsExactly(c, records, record, Appended(c, file, record))
      {
        AppendIsExact(c, records, record);
      }
      if locked {
        return false;
      }
      locked := true;
      if |file| > MAX_LOG || "streamSha256" !in record {
        locked := false;
        return false;
      }
      var scanned := ReadLog(c, file, record["streamSha256"]);
      if scanned.None? {
        locked := false;
        return false;
      }
      var decision := Decide(c, record, scanned.value, |file|);
      if decision.Write? {
        file := file + c.canonical(decision.record);
        written := true;
      } else {
        written := false;
      }
      locked := false;
    }
  }

  // ----- well-formed logs

  function Encoded(c: Codec, records: seq<Json>): seq<byte> {
    if records == [] then []
    else Encoded(c, records[..|records| - 1]) + c.canonical(records[|records| - 1])
  }

  /** The last record of a stream. */
  function LastOf(records: seq<Json>, stream: Json): Option<Json> {
    if records == [] then None
    else if StreamOf(records[|records| - 1]) == stream then Some(records[|records| - 1])
    else LastOf(records[..|records| - 1], stream)
  }

  /** Every record is valid and fits, names the record just before it in its own
      stream, and differs from it. */
  ghost predicate Chained(c: Codec, records: seq<Json>) {
    records == [] ||
    (var last, front := records[|records| - 1], records[..|records| - 1];
     && Chained(c, front)
     && ValidRecord(c, last) && |c.canonical(last)| <= MAX_RECORD
     && PreviousOf(last) == PredecessorId(LastOf(front, StreamOf(last)))
     && (LastOf(front, StreamOf(last)).Some? ==> SnapshotOf(LastOf(front, StreamOf(last)).value) != SnapshotOf(last)))
  }

  lemma {:induction false} ReadLineIs(line: seq<byte>, rest: seq<byte>, limit: nat)
    requires IsLine(line) && |line| <= limit
    ensures ReadLine(line + rest, limit) == line
  {
    if |line| > 1 {
      ReadLineIs(line[1..], rest, limit - 1);
      assert (line + rest)[1..] == line[1..] + rest;
    } else {
      assert line == [line[0]];
    }
  }

  lemma {:induction false} ReadLineTorn(tail: seq<byte>, limit: nat)
    requires tail != [] && limit > 0 && forall i | 0 <= i < |tail| :: tail[i] != NEWLINE
    ensures var line := ReadLine(tail, limit); line != [] && line[|line| - 1] != NEWLINE
  {
    if |tail| > 1 && limit > 1 {
      ReadLineTorn(tail[1..], limit - 1);
    }
  }

  lemma ScanRecord(c: Codec, r: Json, rest: seq<byte>, stream: Json, previous: Option<Json>)
    requires Lawful(c) && ValidRecord(c, r) && |c.canonical(r)| <= MAX_RECORD
    requires StreamOf(r) == stream ==> PreviousOf(r) == PredecessorId(previous)
    ensures Scan(c, c.canonical(r) + rest, stream, previous)
         == Scan(c, rest, stream, if StreamOf(r) == stream then Some(r) else previous)
  {
    hide ValidRecord;
    var line := c.canonical(r);
    assert IsLine(line);
    ReadLineIs(line, rest, MAX_RECORD + 1);
    assert (line + rest)[|line|..] == rest;
  }

  /** Scanning a chained log reaches whatever follows it with the last record of the
      stream in hand. */
  lemma {:induction false} ScanOfChained(c: Codec, records: seq<Json>, rest: seq<byte>, stream: Json)
    requires Lawful(c) && Chained(c, records)
    ensures Scan(c, Encoded(c, records) + rest, stream, None) == Scan(c, rest, stream, LastOf(records, stream))
  {
    if records == [] {
      assert Encoded(c, records) + rest == rest;
    } else {
      hide ValidRecord, Scan;
      var front, last := records[..|records| - 1], records[|records| - 1];
      ScanOfChained(c, front, c.canonical(last) + rest, stream);
      assert Encoded(c, records) + rest == Encoded(c, front) + (c.canonical(last) + rest);
      ScanRecord(c, last, rest, stream, LastOf(front, stream));
    }
  }

  /** A torn tail makes every scan refuse, whatever the stream. */
  lemma ScanOfTorn(c: Codec, records: seq<Json>, tail: seq<byte>, stream: Json)
    requires Lawful(c) && Chained(c, records)
    requires tail != [] && forall i | 0 <= i < |tail| :: tail[i] != NEWLINE
    ensures Scan(c, Encoded(c, records) + tail, stream, None) == None
  {
    ScanOfChained(c, records, tail, stream);
    ReadLineTorn(tail, MAX_RECORD + 1);
  }

  // ----- when an append writes

  /** The candidate as it goes into the log: it names the last record of its stream, and
      carries the digest of everything else it says. */
  function Sealed(c: Codec, records: seq<Json>, record: map<string, Json>): Json
    requires "streamSha256" in record
  {
    var last := LastOf(records, record["streamSha256"]);
    var linked := record["previousRecordId" := if last.None? then Null else FieldOf(last.value, "recordId")];
    Object(linked["recordId" := DigestOf(c, Object(linked))])
  }

  /** The log has room and the candidate is news: its stream's last record, if any, shows
      another snapshot, and the sealed candidate is a valid record that fits. */
  predicate Accepts(c: Codec, records: seq<Json>, record: map<string, Json>) {
    && |Encoded(c, records)| <= MAX_LOG
    && "streamSha256" in record && "snapshotSha256" in record
    && var last := LastOf(records, record["streamSha256"]);
    && (last.Some? ==> FieldOf(last.value, "snapshotSha256") != record["snapshotSha256"])
    && var sealed := Sealed(c, records, record);
    && ValidRecord(c, sealed)
    && |c.canonical(sealed)| <= MAX_RECORD && |Encoded(c, records)| + |c.canonical(sealed)| <= MAX_LOG
  }

  ghost predicate AppendsExactly(c: Codec, records: seq<Json>, record: map<string, Json>, outcome: (seq<byte>, bool)) {
    && (outcome.1 <==> Accepts(c, records, record))
    && (outcome.1 ==> "streamSha256" in record && outcome.0 == Encoded(c, records) + c.canonical(Sealed(c, records, record)))
    && (!outcome.1 ==> outcome.0 == Encoded(c, records))
  }

  /** After the scan of a chained log the decision is exactly that. */
  lemma DecideIsExact(c: Codec, records: seq<Json>, record: map<string, Json>)
    requires |Encoded(c, records)| <= MAX_LOG && "streamSha256" in record
    ensures var decision := Decide(c, record, LastOf(records, record["streamSha256"]), |Encoded(c, records)|);
      if Accepts(c, records, record) then decision == Write(Sealed(c, records, record)) else !decision.Write?
  {
    hide ValidRecord, LastOf, Encoded;
  }

  /** On a chained log an append writes if and only if the log accepts the candidate. */
  lemma AppendIsExact(c: Codec, records: seq<Json>, record: map<string, Json>)
    requires Lawful(c) && Chained(c, records)
    ensures AppendsExactly(c, records, record, Appended(c, Encoded(c, records), record))
  {
    hide Scan, Chained, Decide, ValidRecord, LastOf;
    var file := Encoded(c, records);
    if |file| <= MAX_LOG && "streamSha256" in record {
      var stream := record["streamSha256"];
      ScanOfChained(c, records, [], stream);
      ScanOfNothing(c, stream, LastOf(records, stream));
      assert file + [] == file;
      DecideIsExact(c, records, record);
    }
  }

  lemma ScanOfNothing(c: Codec, stream: Json, previous: Option<Json>)
    ensures Scan(c, [], stream, previous) == Some(previous)
  {
  }
}
