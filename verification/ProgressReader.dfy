/** The incremental progress reader: a growing file is read in bounded blocks and a
    partial line is carried between polls. It must agree with parsing the whole
    prefix at once, for every poll schedule. */
module ProgressReader {
  import opened Bytes
  import opened Wrappers

  const MAX_READ_BYTES: nat := 2 * 1024 * 1024
  const MAX_LINE_BYTES: nat := 8 * 1024 * 1024
  const NEWLINE: byte := 10
  const KINDS: set<string> := {
    "campaign", "corpus_intent", "corpus_acknowledged", "corpus_verified",
    "reopened_corpus_verified", "lifecycle_intent", "lifecycle_acknowledged",
    "load_intent", "load_outcome", "readback", "resource", "reopen",
    "reader_interference", "backup_started", "backup", "failure", "cold_file",
    "cold_start", "final_readback"
  }

  /** What JSON parsing makes of a line: not an object, an object without a string
      kind, or an object with one. */
  datatype Event = NotAnObject | Unnamed | Named(kind: string)
  type Parser = seq<byte> -> Event

  function Bucket(e: Event): string {
    if e.Named? && e.kind in KINDS then e.kind else "other"
  }

  // ----- splitting at newlines

  /** `bytes.split(b"\\n")`: the complete lines and what follows the last newline. */
  datatype Pieces = Pieces(lines: seq<seq<byte>>, rest: seq<byte>)

  function Split(bytes: seq<byte>): Pieces {
    if bytes == [] then Pieces([], [])
    else
      var n := |bytes| - 1;
      var p := Split(bytes[..n]);
      if bytes[n] == NEWLINE then Pieces(p.lines + [p.rest], []) else Pieces(p.lines, p.rest + [bytes[n]])
  }

  predicate Newlineless(bytes: seq<byte>) {
    forall i | 0 <= i < |bytes| :: bytes[i] != NEWLINE
  }

  lemma {:induction false} SplitNewlineless(bytes: seq<byte>)
    requires Newlineless(bytes)
    ensures Split(bytes) == Pieces([], bytes)
  {
    if bytes != [] {
      SplitNewlineless(bytes[..|bytes| - 1]);
    }
  }

  lemma {:induction false} RestIsNewlineless(bytes: seq<byte>)
    ensures Newlineless(Split(bytes).rest)
  {
    if bytes != [] {
      RestIsNewlineless(bytes[..|bytes| - 1]);
    }
  }

  /** Splitting may stop anywhere: the carried rest and the next block split to the
      remaining lines and the new rest. */
  lemma {:induction false} SplitResumes(before: seq<byte>, block: seq<byte>)
    ensures var p, q := Split(before), Split(Split(before).rest + block);
      Split(before + block) == Pieces(p.lines + q.lines, q.rest)
  {
    var rest := Split(before).rest;
    if block == [] {
      RestIsNewlineless(before);
      SplitNewlineless(rest);
      assert before + block == before && rest + block == rest;
    } else {
      var n := |block| - 1;
      SplitResumes(before, block[..n]);
      assert (before + block)[..|before + block| - 1] == before + block[..n];
      assert (rest + block)[..|rest + block| - 1] == rest + block[..n];
    }
  }

  /** The carried rest begins the first line that the next block completes. */
  lemma {:induction false} RestBeginsNextLine(rest: seq<byte>, block: seq<byte>)
    requires Newlineless(rest)
    ensures var q := Split(rest + block);
      if q.lines == [] then q.rest == rest + block else rest <= q.lines[0]
  {
    if block == [] {
      SplitNewlineless(rest);
      assert rest + block == rest;
    } else {
      var n := |block| - 1;
      RestBeginsNextLine(rest, block[..n]);
      assert (rest + block)[..|rest + block| - 1] == rest + block[..n];
    }
  }

  // ----- parsing a whole prefix at once

  predicate LineOk(parse: Parser, line: seq<byte>) {
    line != [] && |line| <= MAX_LINE_BYTES && !parse(line).NotAnObject?
  }

  /** Events per kind, or nothing if some line is not acceptable. */
  function Count(parse: Parser, lines: seq<seq<byte>>): Option<multiset<string>> {
    if lines == [] then Some(multiset{})
    else
      var n := |lines| - 1;
      var c := Count(parse, lines[..n]);
      if c.None? || !LineOk(parse, lines[n]) then None
      else Some(c.value + multiset{Bucket(parse(lines[n]))})
  }

  /** Lines are accepted exactly when each is nonempty, within the bound and an object. */
  lemma {:induction false} AcceptedLines(parse: Parser, lines: seq<seq<byte>>)
    ensures Count(parse, lines).Some? <==>
      forall i | 0 <= i < |lines| :: 1 <= |lines[i]| <= 8 * 1024 * 1024 && (parse(lines[i]).Unnamed? || parse(lines[i]).Named?)
  {
    if lines != [] {
      var n := |lines| - 1;
      AcceptedLines(parse, lines[..n]);
      assert forall i | 0 <= i < n :: lines[..n][i] == lines[i];
    }
  }

  /** How many lines parse to this event. */
  function Occurrences(parse: Parser, lines: seq<seq<byte>>, kind: string): nat {
    if lines == [] then 0
    else Occurrences(parse, lines[..|lines| - 1], kind) + if parse(lines[|lines| - 1]) == Named(kind) then 1 else 0
  }

  /** How many lines have no string kind, or one that is not listed. */
  function Unlisted(parse: Parser, lines: seq<seq<byte>>): nat {
    if lines == [] then 0
    else
      var e := parse(lines[|lines| - 1]);
      Unlisted(parse, lines[..|lines| - 1]) + if e.Named? && e.kind in KINDS then 0 else 1
  }

  /** Accepted lines are counted under their kind if it is listed, and under "other"
      otherwise, and nowhere else. */
  lemma {:induction false} CountsPerKind(parse: Parser, lines: seq<seq<byte>>)
    requires Count(parse, lines).Some?
    ensures var counts := Count(parse, lines).value;
      && (forall kind | kind in KINDS :: counts[kind] == Occurrences(parse, lines, kind))
      && counts["other"] == Unlisted(parse, lines)
      && (forall kind | kind in counts :: kind in KINDS || kind == "other")
  {
    assert "other" !in KINDS by { OtherIsUnlisted(); }
    hide KINDS;
    if lines != [] {
      CountsPerKind(parse, lines[..|lines| - 1]);
    }
  }

  lemma OtherIsUnlisted()
    ensures "other" !in KINDS
  {
    assert "other"[0] == 'o';
  }

  datatype Parsed = Parsed(counts: multiset<string>, pending: seq<byte>)

  /** The reference: split the whole prefix once and check every line. */
  function ParsePrefix(parse: Parser, bytes: seq<byte>): Option<Parsed> {
    var p := Split(bytes);
    var c := Count(parse, p.lines);
    if |p.rest| > MAX_LINE_BYTES || c.None? then None else Some(Parsed(c.value, p.rest))
  }

  lemma {:induction false} CountConcat(parse: Parser, left: seq<seq<byte>>, right: seq<seq<byte>>)
    ensures var a, b := Count(parse, left), Count(parse, right);
      Count(parse, left + right) == if a.Some? && b.Some? then Some(a.value + b.value) else None
  {
    if right == [] {
      assert left + right == left;
      var a := Count(parse, left);
      assert a.Some? ==> a.value + multiset{} == a.value;
    } else {
      var n := |right| - 1;
      CountConcat(parse, left, right[..n]);
      assert (left + right)[..|left + right| - 1] == left + right[..n];
      assert (left + right)[|left + right| - 1] == right[n];
      var a, b, x := Count(parse, left), Count(parse, right[..n]), multiset{Bucket(parse(right[n]))};
      assert a.Some? && b.Some? ==> a.value + b.value + x == a.value + (b.value + x);
    }
  }

  /** Reading on: the whole longer prefix parses exactly when the shorter one did and
      the resumed block parses, and the counts add up. */
  lemma ParseResumes(parse: Parser, before: seq<byte>, block: seq<byte>)
    ensures var whole := ParsePrefix(parse, before + block);
      match ParsePrefix(parse, before)
      case None => whole == None
      case Some(p) =>
        var more := ParsePrefix(parse, p.pending + block);
        whole == if more.None? then None else Some(Parsed(p.counts + more.value.counts, more.value.pending))
  {
    var p := Split(before);
    var q := Split(p.rest + block);
    SplitResumes(before, block);
    CountConcat(parse, p.lines, q.lines);
    RestIsNewlineless(before);
    RestBeginsNextLine(p.rest, block);
    if |p.rest| > MAX_LINE_BYTES && q.lines != [] {
      var one: seq<seq<byte>> := [q.lines[0]];
      CountConcat(parse, one, q.lines[1..]);
      assert one + q.lines[1..] == q.lines;
      assert one[..0] == [];
      assert Count(parse, one) == None;
    }
  }

  lemma PendingIsBounded(parse: Parser, bytes: seq<byte>)
    requires ParsePrefix(parse, bytes).Some?
    ensures var pending := ParsePrefix(parse, bytes).value.pending;
      Newlineless(pending) && |pending| <= MAX_LINE_BYTES
  {
    RestIsNewlineless(bytes);
  }

  // ----- polling

  type FileId = (int, int)

  /** What the file system shows during one poll. */
  datatype Sight =
    | NoDirectory
    | BadDirectory
    | NoFile
    | BadFile
    | Seen(id: FileId, size: nat, opening: Opening)
  datatype Opening = OpenFailed | Opened(openedId: FileId, content: seq<byte>)

  datatype PollError =
    | DirectoryDisappeared | DirectoryInvalid | FileDisappeared | FileInvalid
    | IdentityUnavailable | FileReplaced | FileTruncated | ReadFailed
    | RecordTooLarge | RecordInvalid

  /** Whether the source is available, the backlog and whether a record is partial. */
  datatype Report = Report(available: bool, backlog: nat, partial: bool)

  datatype Reader = Reader(identity: Option<FileId>, offset: nat, pending: seq<byte>, counts: multiset<string>)

  const FRESH := Reader(None, 0, [], multiset{})

  function Block(content: seq<byte>, offset: nat): seq<byte>
    requires offset <= |content|
  {
    if |content| - offset > MAX_READ_BYTES then content[offset..offset + MAX_READ_BYTES] else content[offset..]
  }

  /** The checks before the read: the block, or why there is none. */
  function Admit(r: Reader, sight: Sight): Result<Option<(FileId, nat, seq<byte>)>, PollError> {
    match sight
    case NoDirectory => if r.identity.Some? then Err(DirectoryDisappeared) else Ok(None)
    case BadDirectory => Err(DirectoryInvalid)
    case NoFile => if r.identity.Some? then Err(FileDisappeared) else Ok(None)
    case BadFile => Err(FileInvalid)
    case Seen(id, size, opening) =>
      if id.1 == 0 then Err(IdentityUnavailable)
      else if r.identity.Some? && r.identity.value != id then Err(FileReplaced)
      else if size < r.offset then Err(FileTruncated)
      else
        match opening
        case OpenFailed => Err(ReadFailed)
        case Opened(openedId, content) =>
          if openedId != id then Err(FileReplaced)
          else if |content| < r.offset then Err(FileTruncated)
          else Ok(Some((id, size, Block(content, r.offset))))
  }

  /** What a poll that gets past its checks has established: nothing was ever seen and
      nothing is there yet, or the file is the one seen before, still holds everything
      read so far, and was opened as itself; the block is the next bytes of it. */
  lemma AdmittedIs(r: Reader, sight: Sight)
    ensures Admit(r, sight) == Ok(None) <==> r.identity.None? && (sight.NoDirectory? || sight.NoFile?)
    ensures (Admit(r, sight).Ok? && Admit(r, sight).value.Some?) <==> Readable(r, sight)
    ensures Readable(r, sight) ==>
      var (id, size, block) := Admit(r, sight).value.value;
      && id == sight.id && size == sight.size
      && block <= sight.opening.content[r.offset..] && |block| <= MAX_READ_BYTES
      && (|block| < MAX_READ_BYTES ==> r.offset + |block| == |sight.opening.content|)
  {
  }

  ghost predicate Readable(r: Reader, sight: Sight) {
    && sight.Seen? && sight.id.1 != 0 && (r.identity.Some? ==> sight.id == r.identity.value)
    && r.offset <= sight.size
    && sight.opening.Opened? && sight.opening.openedId == sight.id && r.offset <= |sight.opening.content|
  }

  /** Which refusal a poll raises, by what it saw first. */
  lemma RefusedIs(r: Reader, sight: Sight, e: PollError)
    ensures Admit(r, sight) == Err(e) <==>
      match e
      case DirectoryDisappeared => sight.NoDirectory? && r.identity.Some?
      case DirectoryInvalid => sight.BadDirectory?
      case FileDisappeared => sight.NoFile? && r.identity.Some?
      case FileInvalid => sight.BadFile?
      case IdentityUnavailable => sight.Seen? && sight.id.1 == 0
      case FileReplaced =>
        && sight.Seen? && sight.id.1 != 0
        && (Replaced(r, sight) || (r.offset <= sight.size && sight.opening.Opened? && sight.opening.openedId != sight.id))
      case FileTruncated =>
        && sight.Seen? && sight.id.1 != 0 && !Replaced(r, sight)
        && (sight.size < r.offset || (sight.opening.Opened? && sight.opening.openedId == sight.id && |sight.opening.content| < r.offset))
      case ReadFailed => sight.Seen? && sight.id.1 != 0 && !Replaced(r, sight) && r.offset <= sight.size && sight.opening.OpenFailed?
      case RecordTooLarge => false
      case RecordInvalid => false
  {
  }

  predicate Replaced(r: Reader, sight: Sight)
    requires sight.Seen?
  {
    r.identity.Some? && r.identity.value != sight.id
  }

  /** One poll that raised nothing. */
  function Polled(parse: Parser, r: Reader, sight: Sight): Option<Reader> {
    match Admit(r, sight)
    case Err(_) => None
    case Ok(None) => Some(r)
    case Ok(Some((id, _, block))) =>
      match ParsePrefix(parse, r.pending + block)
      case None => None
      case Some(p) => Some(Reader(Some(id), r.offset + |block|, p.pending, r.counts + p.counts))
  }

  lemma NothingCounted(parse: Parser, lines: seq<seq<byte>>)
    ensures Count(parse, lines[..0]) == Some(multiset{})
  {
  }

  lemma CountNext(parse: Parser, lines: seq<seq<byte>>, i: nat)
    requires i < |lines| && Count(parse, lines[..i]).Some?
    ensures Count(parse, lines[..i + 1]) ==
      if LineOk(parse, lines[i]) then Some(Count(parse, lines[..i]).value + multiset{Bucket(parse(lines[i]))}) else None
  {
    assert lines[..i + 1][..i] == lines[..i];
  }

  lemma CountStays(parse: Parser, lines: seq<seq<byte>>, i: nat)
    requires i <= |lines| && Count(parse, lines[..i]).None?
    ensures Count(parse, lines).None?
  {
    CountConcat(parse, lines[..i], lines[i..]);
    assert lines[..i] + lines[i..] == lines;
  }

  /** Events per kind of the lines before the first unacceptable one. */
  function Tallied(parse: Parser, lines: seq<seq<byte>>): multiset<string> {
    match Count(parse, lines)
    case Some(counts) => counts
    case None => Tallied(parse, lines[..|lines| - 1])
  }

  lemma {:induction false} TalliedUpTo(parse: Parser, lines: seq<seq<byte>>, i: nat)
    requires i < |lines| && Count(parse, lines[..i]).Some? && Count(parse, lines[..i + 1]).None?
    ensures Tallied(parse, lines) == Count(parse, lines[..i]).value
  {
    var n := |lines| - 1;
    CountStays(parse, lines, i + 1);
    if i < n {
      assert lines[..n][..i] == lines[..i] && lines[..n][..i + 1] == lines[..i + 1];
      TalliedUpTo(parse, lines[..n], i);
    } else {
      assert lines[..n] == lines[..i];
    }
  }

  /** What one poll leaves behind and returns or raises. An oversized partial line is
      found before any line is counted; an unacceptable line is found after the lines
      before it were. Either way the offset and the partial line have moved. */
  function PollOutcome(parse: Parser, r: Reader, sight: Sight): (Reader, Result<Report, PollError>) {
    match Admit(r, sight)
    case Err(e) => (r, Err(e))
    case Ok(None) => (r, Ok(Report(false, 0, false)))
    case Ok(Some((id, size, block))) =>
      var pieces := Split(r.pending + block);
      var offset := r.offset + |block|;
      if |pieces.rest| > MAX_LINE_BYTES then (Reader(Some(id), offset, pieces.rest, r.counts), Err(RecordTooLarge))
      else
        (Reader(Some(id), offset, pieces.rest, r.counts + Tallied(parse, pieces.lines)),
         if Count(parse, pieces.lines).None? then Err(RecordInvalid)
         else Ok(Report(true, if size > offset then size - offset else 0, pieces.rest != [])))
  }

  /** A poll that raises nothing parses the carried line and the block at once. */
  lemma OutcomeIsPolled(parse: Parser, r: Reader, sight: Sight)
    ensures var (after, report) := PollOutcome(parse, r, sight);
      Polled(parse, r, sight) == if report.Ok? then Some(after) else None
  {
    hide Split, Count;
    var admitted := Admit(r, sight);
    if admitted.Ok? && admitted.value.Some? {
      var (id, size, block) := admitted.value.value;
      PolledIs(parse, r, sight, id, size, block);
    }
  }

  lemma Regroup(a: multiset<string>, b: multiset<string>, c: multiset<string>)
    ensures a + (b + c) == (a + b) + c
  {
  }

  /** An admitted block, in terms of the lines it completes. */
  lemma PolledIs(parse: Parser, r: Reader, sight: Sight, id: FileId, size: nat, block: seq<byte>)
    requires Admit(r, sight) == Ok(Some((id, size, block)))
    ensures sight.Seen? && size == sight.size
    ensures var pieces := Split(r.pending + block);
      var counted := Count(parse, pieces.lines);
      Polled(parse, r, sight) ==
        if |pieces.rest| > MAX_LINE_BYTES || counted.None? then None
        else Some(Reader(Some(id), r.offset + |block|, pieces.rest, r.counts + counted.value))
  {
  }

  class ProgressReader {
    const parse: Parser
    var identity: Option<FileId>
    var offset: nat
    var pending: seq<byte>
    var counts: multiset<string>

    ghost function View(): Reader
      reads this
    {
      Reader(identity, offset, pending, counts)
    }

    constructor (parse: Parser)
      ensures View() == FRESH && this.parse == parse
    {
      this.parse := parse;
      identity, offset, pending, counts := None, 0, [], multiset{};
    }

    /** The loop over the completed lines: each is checked and counted in turn. */
    method TakeLines(lines: seq<seq<byte>>) returns (sound: bool)
      modifies this`counts
      ensures sound <==> Count(parse, lines).Some?
      ensures counts == old(counts) + Tallied(parse, lines)
    {
      hide Count, LineOk, Bucket;
      NothingCounted(parse, lines);
      var i := 0;
      while i < |lines|
        invariant i <= |lines|
        invariant Count(parse, lines[..i]).Some?
        invariant counts == old(counts) + Count(parse, lines[..i]).value
      {
        var line := lines[i];
        CountNext(parse, lines, i);
        if !LineOk(parse, line) {
          CountStays(parse, lines, i + 1);
          TalliedUpTo(parse, lines, i);
          return false;
        }
        Regroup(old(counts), Count(parse, lines[..i]).value, multiset{Bucket(parse(line))});
        counts := counts + multiset{Bucket(parse(line))};
        i := i + 1;
      }
      assert lines[..i] == lines;
      return true;
    }

    /** `poll`. */
    method Poll(sight: Sight) returns (r: Result<Report, PollError>)
      modifies this
      ensures (View(), r) == PollOutcome(parse, old(View()), sight)
      ensures Polled(parse, old(View()), sight) == if r.Ok? then Some(View()) else None
      ensures r.Err? && !r.error.RecordTooLarge? && !r.error.RecordInvalid? ==> View() == old(View())
    {
      OutcomeIsPolled(parse, View(), sight);
      var admitted := Admit(Reader(identity, offset, pending, counts), sight);
      if admitted.Err? {
        return Err(admitted.error);
      }
      if admitted.value.None? {
        return Ok(Report(false, 0, false));
      }
      var (id, size, block) := admitted.value.value;
      hide Split, Count, Tallied, Polled, ParsePrefix, LineOk, Bucket;
      identity, offset := Some(id), offset + |block|;
      var pieces := Split(pending + block);
      pending := pieces.rest;
      if |pending| > MAX_LINE_BYTES {
        return Err(RecordTooLarge);
      }
      var sound := TakeLines(pieces.lines);
      if !sound {
        return Err(RecordInvalid);
      }
      return Ok(Report(true, if size > offset then size - offset else 0, pending != []));
    }
  }

  // ----- every poll schedule over an append-only file

  /** The file size one poll sees when it looks and when it reads. */
  datatype Visit = Visit(size: nat, length: nat)

  /** The file only grows between any two looks. */
  ghost predicate AppendOnly(file: seq<byte>, visits: seq<Visit>) {
    && (forall i | 0 <= i < |visits| :: visits[i].size <= visits[i].length <= |file|)
    && (forall i, j | 0 <= i && j == i + 1 < |visits| :: visits[i].length <= visits[j].size)
  }

  function SightOf(file: seq<byte>, id: FileId, v: Visit): Sight
    requires v.length <= |file|
  {
    Seen(id, v.size, Opened(id, file[..v.length]))
  }

  /** All polls in turn; `None` once one of them has raised. */
  function Drive(parse: Parser, file: seq<byte>, id: FileId, visits: seq<Visit>): Option<Reader>
    requires forall i | 0 <= i < |visits| :: visits[i].length <= |file|
  {
    if visits == [] then Some(FRESH)
    else
      var n := |visits| - 1;
      match Drive(parse, file, id, visits[..n])
      case None => None
      case Some(r) => Polled(parse, r, SightOf(file, id, visits[n]))
  }

  /** How far the polls get if none raises. */
  function OffsetAfter(visits: seq<Visit>): nat {
    if visits == [] then 0
    else
      var n := |visits| - 1;
      var before := OffsetAfter(visits[..n]);
      if before + MAX_READ_BYTES < visits[n].length then before + MAX_READ_BYTES else visits[n].length
  }

  lemma {:induction false} OffsetWithinFile(file: seq<byte>, visits: seq<Visit>)
    requires AppendOnly(file, visits)
    ensures OffsetAfter(visits) <= |file|
    ensures visits != [] ==> OffsetAfter(visits) <= visits[|visits| - 1].length
    ensures visits != [] ==> OffsetAfter(visits[..|visits| - 1]) <= visits[|visits| - 1].size
  {
    if visits != [] {
      OffsetWithinFile(file, visits[..|visits| - 1]);
    }
  }

  /** One more poll: it fails exactly when the longer prefix does not parse, or when
      the prefix read so far already did not. */
  lemma PollReadsOn(parse: Parser, file: seq<byte>, id: FileId, front: seq<Visit>, v: Visit)
    requires AppendOnly(file, front + [v]) && id.1 != 0
    requires OffsetAfter(front) <= v.size <= v.length <= |file|
    ensures OffsetAfter(front + [v]) <= |file|
    ensures var whole := ParsePrefix(parse, file[..OffsetAfter(front + [v])]);
      match ParsePrefix(parse, file[..OffsetAfter(front)])
      case None => whole == None
      case Some(p) =>
        var r := Reader(if front == [] then None else Some(id), OffsetAfter(front), p.pending, p.counts);
        Polled(parse, r, SightOf(file, id, v))
        == if whole.None? then None
           else Some(Reader(Some(id), OffsetAfter(front + [v]), whole.value.pending, whole.value.counts))
  {
    hide ParsePrefix;
    var visits := front + [v];
    assert visits[..|visits| - 1] == front;
    var start := OffsetAfter(front);
    var block := Block(file[..v.length], start);
    assert file[..start] + block == file[..OffsetAfter(visits)];
    ParseResumes(parse, file[..start], block);
  }

  lemma NothingParsed(parse: Parser, file: seq<byte>)
    ensures OffsetAfter([]) == 0 && file[..0] == [] && ParsePrefix(parse, file[..0]) == Some(Parsed(multiset{}, []))
  {
    assert file[..0] == [];
    assert Split([]) == Pieces([], []);
  }

  /** For every append-only file and every schedule the polls all succeed if and only
      if the whole prefix they reach parses at once, and then with the same counts and
      the same partial line. */
  lemma {:induction false} EveryScheduleParsesThePrefix(parse: Parser, file: seq<byte>, id: FileId, visits: seq<Visit>)
    requires AppendOnly(file, visits) && id.1 != 0
    ensures OffsetAfter(visits) <= |file|
    ensures Drive(parse, file, id, visits)
         == match ParsePrefix(parse, file[..OffsetAfter(visits)])
            case None => None
            case Some(p) => Some(Reader(if visits == [] then None else Some(id), OffsetAfter(visits), p.pending, p.counts))
  {
    hide ParsePrefix, Polled, OffsetAfter, Block, SightOf;
    OffsetWithinFile(file, visits);
    if visits == [] {
      NothingParsed(parse, file);
    } else {
      var n := |visits| - 1;
      EveryScheduleParsesThePrefix(parse, file, id, visits[..n]);
      PollReadsOn(parse, file, id, visits[..n], visits[n]);
      assert visits[..n] + [visits[n]] == visits;
    }
  }

  /** A quiescent file is read to its end: once the last looks see the whole file, a
      bounded number of polls reaches every byte. */
  lemma {:induction false} PollsCatchUp(file: seq<byte>, visits: seq<Visit>, quiet: nat)
    requires AppendOnly(file, visits) && quiet <= |visits|
    requires forall i | |visits| - quiet <= i < |visits| :: visits[i].length == |file|
    ensures OffsetAfter(visits) == |file| || OffsetAfter(visits) >= quiet * MAX_READ_BYTES
  {
    if quiet > 0 {
      var n := |visits| - 1;
      PollsCatchUp(file, visits[..n], quiet - 1);
      OffsetWithinFile(file, visits[..n]);
      assert (quiet - 1) * MAX_READ_BYTES + MAX_READ_BYTES == quiet * MAX_READ_BYTES;
    }
  }

  /** Two schedules that reached the same offset are indistinguishable. */
  lemma SchedulesAgree(parse: Parser, file: seq<byte>, id: FileId, some: seq<Visit>, other: seq<Visit>)
    requires AppendOnly(file, some) && AppendOnly(file, other) && id.1 != 0
    requires some != [] && other != [] && OffsetAfter(some) == OffsetAfter(other)
    ensures Drive(parse, file, id, some) == Drive(parse, file, id, other)
  {
    EveryScheduleParsesThePrefix(parse, file, id, some);
    EveryScheduleParsesThePrefix(parse, file, id, other);
  }

  // ----- the observer

  datatype Limits = Unavailable | Observed(fields: map<string, nat>)

  /** One observation. */
  datatype Row = Row(elapsed: nat, counts: multiset<string>, available: bool, read: nat, backlog: nat, partial: bool,
                     limits: Limits, final: bool)

  datatype EmitError = PollFailed(error: PollError) | OutputLimit

  /** The row that an emission after a successful poll describes. */
  function RowOf(r: Reader, report: Report, elapsed: nat, limits: Limits, final: bool): Row {
    Row(elapsed, r.counts, report.available, r.offset, report.backlog, report.partial, limits, final)
  }

  class ProgressObserver {
    const reader: ProgressReader
    const maxBytes: nat
    const render: Row -> seq<byte>
    var output: seq<byte>
    var written: nat
    /** The rows emitted so far. */
    ghost var rows: seq<Row>

    ghost predicate Valid()
      reads this
    {
      output == Rendered(render, rows) && written == |output| <= maxBytes
    }

    constructor (reader: ProgressReader, maxBytes: nat, render: Row -> seq<byte>)
      requires 4096 <= maxBytes <= 16 * 1024 * 1024
      ensures Valid() && rows == [] && output == []
      ensures this.reader == reader && this.maxBytes == maxBytes && this.render == render
    {
      this.reader, this.maxBytes, this.render := reader, maxBytes, render;
      output, written, rows := [], 0, [];
    }

    /** `_emit`: poll, then write one whole row if it fits the budget. A failed poll and
        a full budget leave the output alone. */
    method Emit(sight: Sight, elapsed: nat, limits: Limits, final: bool) returns (failed: Option<EmitError>)
      requires Valid()
      modifies this, reader
      ensures Valid()
      ensures var (after, report) := PollOutcome(reader.parse, old(reader.View()), sight);
        && reader.View() == after
        && match report
           case Err(e) => failed == Some(PollFailed(e)) && rows == old(rows)
           case Ok(seen) =>
             var row := RowOf(after, seen, elapsed, limits, final);
             if old(written) + |render(row)| > maxBytes then failed == Some(OutputLimit) && rows == old(rows)
             else failed == None && rows == old(rows) + [row]
    {
      hide PollOutcome;
      var polled := reader.Poll(sight);
      if polled.Err? {
        return Some(PollFailed(polled.error));
      }
      var seen := polled.value;
      var row := Row(elapsed, reader.counts, seen.available, reader.offset, seen.backlog, seen.partial, limits, final);
      var raw := render(row);
      if written + |raw| > maxBytes {
        return Some(OutputLimit);
      }
      RenderedNext(render, rows, row);
      output := output + raw;
      written := written + |raw|;
      rows := rows + [row];
      return None;
    }
  }

  function Rendered(render: Row -> seq<byte>, rows: seq<Row>): seq<byte> {
    if rows == [] then [] else Rendered(render, rows[..|rows| - 1]) + render(rows[|rows| - 1])
  }

  lemma RenderedNext(render: Row -> seq<byte>, rows: seq<Row>, row: Row)
    ensures Rendered(render, rows + [row]) == Rendered(render, rows) + render(row)
  {
    assert (rows + [row])[..|rows|] == rows;
  }
}
