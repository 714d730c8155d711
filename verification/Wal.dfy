/** The write-ahead log of the key-value engine: framing, replay, torn tails and
    the writer that poisons itself on a failed write. The checksum is a
    parameter, so every statement holds for any 32-bit checksum. */
module Wal {
  import opened Bytes
  import opened Wrappers

  const FILE_MAGIC: seq<byte> := [82, 82, 68, 87, 65, 76, 48, 49]   // "RRDWAL01"
  const RECORD_MAGIC: seq<byte> := [82, 82, 68, 49]                 // "RRD1"
  const FORMAT_VERSION := 1
  const FILE_HEADER_BYTES := 16
  const RECORD_HEADER_BYTES := 32
  const RECORD_KIND_BATCH: byte := 1
  const MAX_PAYLOAD_BYTES := 16 * 1024 * 1024

  type word = x: int | 0 <= x < 0x1_0000_0000
  type Checksum = seq<byte> -> word

  datatype Frame = Frame(first: nat, last: nat, payload: seq<byte>)

  /** `WalBatch::validate`. */
  predicate ValidFrame(f: Frame) {
    && 1 <= f.first <= f.last < U64_MAX
    && 1 <= |f.payload| <= MAX_PAYLOAD_BYTES
  }

  /** Frames whose sequence ranges follow each other without a gap. */
  predicate Contiguous(frames: seq<Frame>, start: nat) {
    frames == [] ||
    (ValidFrame(frames[0]) && frames[0].first == start && Contiguous(frames[1..], frames[0].last + 1))
  }

  function NextSequence(frames: seq<Frame>, start: nat): nat {
    if frames == [] then start else frames[|frames| - 1].last + 1
  }

  function FileHeader(crc: Checksum): (r: seq<byte>)
    ensures |r| == FILE_HEADER_BYTES
  {
    WordCapacities();
    var prefix := FILE_MAGIC + BigEndian(FORMAT_VERSION, 2) + BigEndian(FILE_HEADER_BYTES, 2);
    prefix + BigEndian(crc(prefix), 4)
  }

  /** The 24 header bytes that the checksum covers. */
  function Covered(f: Frame): (r: seq<byte>)
    requires ValidFrame(f)
    ensures |r| == 24
  {
    WordCapacities();
    BigEndian(FORMAT_VERSION, 2) + [RECORD_KIND_BATCH, 0] + BigEndian(|f.payload|, 4)
    + BigEndian(f.first, 8) + BigEndian(f.last, 8)
  }

  function RecordHeader(crc: Checksum, f: Frame): (r: seq<byte>)
    requires ValidFrame(f)
    ensures |r| == RECORD_HEADER_BYTES
  {
    WordCapacities();
    RECORD_MAGIC + Covered(f) + BigEndian(crc(Covered(f) + f.payload), 4)
  }

  function EncodeFrame(crc: Checksum, f: Frame): (r: seq<byte>)
    requires ValidFrame(f)
    ensures |r| == RECORD_HEADER_BYTES + |f.payload|
  {
    RecordHeader(crc, f) + f.payload
  }

  function EncodeFrames(crc: Checksum, frames: seq<Frame>): seq<byte>
    requires forall i | 0 <= i < |frames| :: ValidFrame(frames[i])
  {
    if frames == [] then [] else EncodeFrame(crc, frames[0]) + EncodeFrames(crc, frames[1..])
  }

  predicate ValidFileHeader(crc: Checksum, header: seq<byte>)
    requires |header| == FILE_HEADER_BYTES
  {
    && header[0..8] == FILE_MAGIC
    && FromBigEndian(header[8..10]) == FORMAT_VERSION
    && FromBigEndian(header[10..12]) == FILE_HEADER_BYTES
    && FromBigEndian(header[12..16]) == crc(header[0..12])
  }

  datatype DecodedHeader = DecodedHeader(length: nat, first: nat, last: nat, checksum: nat)

  function DecodeRecordHeader(header: seq<byte>): Option<DecodedHeader>
    requires |header| == RECORD_HEADER_BYTES
  {
    var covered := header[4..28];
    if header[0..4] != RECORD_MAGIC then None
    else if FromBigEndian(covered[0..2]) != FORMAT_VERSION then None
    else if covered[2] != RECORD_KIND_BATCH || covered[3] != 0 then None
    else
      var length := FromBigEndian(covered[4..8]);
      var first := FromBigEndian(covered[8..16]);
      var last := FromBigEndian(covered[16..24]);
      if length == 0 || length > MAX_PAYLOAD_BYTES then None
      else if first == 0 || last < first then None
      else Some(DecodedHeader(length, first, last, FromBigEndian(header[28..32])))
  }

  /** A replay either meets a complete but wrong frame, or returns the whole
      frames, the bytes they take and whether an incomplete frame follows. */
  datatype Recovery =
    | Corrupt
    | Recovered(frames: seq<Frame>, through: nat, valid: nat, torn: bool)

  /** What one iteration of the replay loop finds at the front of `bytes`. */
  datatype Head = Bad | Torn | Whole(frame: Frame)

  function ReadHead(crc: Checksum, bytes: seq<byte>, expected: nat): Head {
    if |bytes| < RECORD_HEADER_BYTES then Torn
    else
      match DecodeRecordHeader(bytes[..RECORD_HEADER_BYTES])
      case None => Bad
      case Some(h) =>
        if h.first != expected then Bad
        else if RECORD_HEADER_BYTES + h.length > |bytes| then Torn
        else
          var payload := bytes[32..32 + h.length];
          if crc(bytes[4..28] + payload) != h.checksum then Bad
          else if h.last >= U64_MAX then Bad
          else Whole(Frame(h.first, h.last, payload))
  }

  function ReplayFrames(crc: Checksum, bytes: seq<byte>, expected: nat): Recovery
    requires expected >= 1
    decreases |bytes|
  {
    if bytes == [] then Recovered([], expected - 1, 0, false)
    else
      match ReadHead(crc, bytes, expected)
      case Bad => Corrupt
      case Torn => Recovered([], expected - 1, 0, true)
      case Whole(f) =>
        Prepend([f], RECORD_HEADER_BYTES + |f.payload|,
                ReplayFrames(crc, bytes[RECORD_HEADER_BYTES + |f.payload|..], f.last + 1))
  }

  function Prepend(front: seq<Frame>, size: nat, rest: Recovery): Recovery {
    match rest
    case Corrupt => Corrupt
    case Recovered(frames, through, valid, torn) => Recovered(front + frames, through, size + valid, torn)
  }

  function Replay(crc: Checksum, file: seq<byte>, start: nat): Recovery
    requires start >= 1
  {
    if |file| < FILE_HEADER_BYTES || !ValidFileHeader(crc, file[..FILE_HEADER_BYTES]) then Corrupt
    else Prepend([], FILE_HEADER_BYTES, ReplayFrames(crc, file[FILE_HEADER_BYTES..], start))
  }

  /** `replay_file`: one forward pass that keeps an offset and the expected sequence. */
  method ReplayFile(crc: Checksum, file: seq<byte>, start: nat) returns (r: Recovery)
    requires start >= 1
    ensures r == Replay(crc, file, start)
  {
    if |file| < FILE_HEADER_BYTES || !ValidFileHeader(crc, file[..FILE_HEADER_BYTES]) {
      return Corrupt;
    }
    var offset, expected, frames := FILE_HEADER_BYTES, start, [];
    ghost var all := ReplayFrames(crc, file[FILE_HEADER_BYTES..], start);
    while offset < |file|
      invariant FILE_HEADER_BYTES <= offset <= |file| && expected >= 1
      invariant Prepend([], FILE_HEADER_BYTES, all)
             == Prepend(frames, offset, ReplayFrames(crc, file[offset..], expected))
    {
      match ReadHead(crc, file[offset..], expected) {
        case Bad => return Corrupt;
        case Torn =>
          assert frames + [] == frames;
          return Recovered(frames, expected - 1, offset, true);
        case Whole(f) =>
          var end := offset + RECORD_HEADER_BYTES + |f.payload|;
          PrependStep(crc, file, offset, expected, frames, f);
          offset, expected, frames := end, f.last + 1, frames + [f];
      }
    }
    assert file[offset..] == [] && frames + [] == frames;
    r := Recovered(frames, expected - 1, offset, false);
  }

  lemma WholeFitsHead(crc: Checksum, bytes: seq<byte>, expected: nat, f: Frame)
    requires expected >= 1 && ReadHead(crc, bytes, expected) == Whole(f)
    ensures RECORD_HEADER_BYTES + |f.payload| <= |bytes|
  {
  }

  lemma PrependStep(crc: Checksum, file: seq<byte>, offset: nat, expected: nat, front: seq<Frame>, f: Frame)
    requires offset < |file| && expected >= 1
    requires ReadHead(crc, file[offset..], expected) == Whole(f)
    ensures offset + RECORD_HEADER_BYTES + |f.payload| <= |file|
    ensures Prepend(front, offset, ReplayFrames(crc, file[offset..], expected))
         == Prepend(front + [f], offset + RECORD_HEADER_BYTES + |f.payload|,
                    ReplayFrames(crc, file[offset + RECORD_HEADER_BYTES + |f.payload|..], f.last + 1))
  {
    WholeFitsHead(crc, file[offset..], expected, f);
    var size := RECORD_HEADER_BYTES + |f.payload|;
    assert file[offset..][size..] == file[offset + size..];
    var rest := ReplayFrames(crc, file[offset + size..], f.last + 1);
    assert ReplayFrames(crc, file[offset..], expected) == Prepend([f], size, rest);
    hide ReadHead, ReplayFrames;
    PrependTwice(front, offset, f, size, rest);
  }

  lemma PrependTwice(front: seq<Frame>, offset: nat, f: Frame, size: nat, rest: Recovery)
    ensures Prepend(front, offset, Prepend([f], size, rest)) == Prepend(front + [f], offset + size, rest)
  {
    assert rest.Recovered? ==> front + ([f] + rest.frames) == front + [f] + rest.frames;
  }

  // ----- framing round trips

  lemma FileHeaderAccepted(crc: Checksum)
    ensures ValidFileHeader(crc, FileHeader(crc))
  {
    WordCapacities();
    var prefix := FILE_MAGIC + BigEndian(FORMAT_VERSION, 2) + BigEndian(FILE_HEADER_BYTES, 2);
    var header := FileHeader(crc);
    BigEndianDecodes(FORMAT_VERSION, 2);
    BigEndianDecodes(FILE_HEADER_BYTES, 2);
    BigEndianDecodes(crc(prefix), 4);
    assert header[0..8] == FILE_MAGIC && header[0..12] == prefix;
    assert header[8..10] == BigEndian(FORMAT_VERSION, 2);
    assert header[10..12] == BigEndian(FILE_HEADER_BYTES, 2);
    assert header[12..16] == BigEndian(crc(prefix), 4);
  }

  lemma CoveredDecodes(f: Frame)
    requires ValidFrame(f)
    ensures var covered := Covered(f);
      && FromBigEndian(covered[0..2]) == FORMAT_VERSION
      && covered[2] == RECORD_KIND_BATCH && covered[3] == 0
      && FromBigEndian(covered[4..8]) == |f.payload|
      && FromBigEndian(covered[8..16]) == f.first
      && FromBigEndian(covered[16..24]) == f.last
  {
    WordCapacities();
    var covered := Covered(f);
    BigEndianDecodes(FORMAT_VERSION, 2);
    assert covered[0..2] == BigEndian(FORMAT_VERSION, 2);
    BigEndianDecodes(|f.payload|, 4);
    assert covered[4..8] == BigEndian(|f.payload|, 4);
    BigEndianDecodes(f.first, 8);
    assert covered[8..16] == BigEndian(f.first, 8);
    BigEndianDecodes(f.last, 8);
    assert covered[16..24] == BigEndian(f.last, 8);
  }

  lemma RecordHeaderDecodes(crc: Checksum, f: Frame)
    requires ValidFrame(f)
    ensures DecodeRecordHeader(RecordHeader(crc, f))
         == Some(DecodedHeader(|f.payload|, f.first, f.last, crc(Covered(f) + f.payload)))
    ensures RecordHeader(crc, f)[4..28] == Covered(f)
  {
    WordCapacities();
    var covered := Covered(f);
    var header, sum := RecordHeader(crc, f), crc(covered + f.payload);
    CoveredDecodes(f);
    BigEndianDecodes(sum, 4);
    assert header == RECORD_MAGIC + covered + BigEndian(sum, 4);
    assert header[0..4] == RECORD_MAGIC;
    assert header[4..28] == covered;
    assert header[28..32] == BigEndian(sum, 4);
  }

  /** The front of an encoded frame, cut anywhere: the whole frame when all of it
      is there, otherwise a torn tail and never a corruption. */
  lemma HeadOfCutFrame(crc: Checksum, f: Frame, rest: seq<byte>, cut: nat)
    requires ValidFrame(f) && cut <= |EncodeFrame(crc, f) + rest|
    ensures ReadHead(crc, (EncodeFrame(crc, f) + rest)[..cut], f.first)
         == if cut >= |EncodeFrame(crc, f)| then Whole(f) else Torn
  {
    var bytes := (EncodeFrame(crc, f) + rest)[..cut];
    RecordHeaderDecodes(crc, f);
    if cut >= RECORD_HEADER_BYTES {
      assert bytes[..RECORD_HEADER_BYTES] == RecordHeader(crc, f);
      assert bytes[4..28] == RecordHeader(crc, f)[4..28];
      if cut >= |EncodeFrame(crc, f)| {
        assert bytes[32..32 + |f.payload|] == f.payload;
      }
    }
  }

  /** How many leading frames lie wholly inside the first `cut` bytes. */
  function WholeFrames(crc: Checksum, frames: seq<Frame>, cut: nat): (n: nat)
    requires forall i | 0 <= i < |frames| :: ValidFrame(frames[i])
    ensures n <= |frames|
  {
    if frames == [] || |EncodeFrame(crc, frames[0])| > cut then 0
    else 1 + WholeFrames(crc, frames[1..], cut - |EncodeFrame(crc, frames[0])|)
  }

  lemma {:induction false} ContiguousValid(frames: seq<Frame>, start: nat)
    requires Contiguous(frames, start)
    ensures forall i | 0 <= i < |frames| :: ValidFrame(frames[i])
  {
    if frames != [] {
      ContiguousValid(frames[1..], frames[0].last + 1);
      assert forall i | 1 <= i < |frames| :: frames[i] == frames[1..][i - 1];
    }
  }

  /** The log file that holds exactly `frames`. */
  function Log(crc: Checksum, frames: seq<Frame>): (r: seq<byte>)
    requires forall i | 0 <= i < |frames| :: ValidFrame(frames[i])
    ensures |r| == FILE_HEADER_BYTES + |EncodeFrames(crc, frames)|
  {
    FileHeader(crc) + EncodeFrames(crc, frames)
  }

  /** The recovery that keeps the first `n` frames out of `length` surviving frame bytes. */
  function Keeps(crc: Checksum, frames: seq<Frame>, start: nat, n: nat, length: nat): Recovery
    requires forall i | 0 <= i < |frames| :: ValidFrame(frames[i])
    requires start >= 1 && n <= |frames|
  {
    var size := |EncodeFrames(crc, frames[..n])|;
    Recovered(frames[..n], NextSequence(frames[..n], start) - 1, size, size < length)
  }

  lemma KeepsNone(crc: Checksum, frames: seq<Frame>, start: nat, length: nat)
    requires forall i | 0 <= i < |frames| :: ValidFrame(frames[i])
    requires start >= 1
    ensures Keeps(crc, frames, start, 0, length) == Recovered([], start - 1, 0, 0 < length)
  {
    assert frames[..0] == [];
  }

  lemma KeepsStep(crc: Checksum, frames: seq<Frame>, start: nat, n: nat, length: nat)
    requires forall i | 0 <= i < |frames| :: ValidFrame(frames[i])
    requires start >= 1 && 1 <= n <= |frames| && |EncodeFrame(crc, frames[0])| <= length
    ensures var size := |EncodeFrame(crc, frames[0])|;
      Keeps(crc, frames, start, n, length)
      == Prepend([frames[0]], size, Keeps(crc, frames[1..], frames[0].last + 1, n - 1, length - size))
  {
    assert frames[..n] == [frames[0]] + frames[1..][..n - 1];
    assert frames[..n][1..] == frames[1..][..n - 1];
  }

  lemma ReplayWhole(crc: Checksum, f: Frame, rest: seq<byte>)
    requires ValidFrame(f)
    ensures ReplayFrames(crc, EncodeFrame(crc, f) + rest, f.first)
         == Prepend([f], |EncodeFrame(crc, f)|, ReplayFrames(crc, rest, f.last + 1))
  {
    hide ReadHead, EncodeFrame, ValidFrame;
    var bytes := EncodeFrame(crc, f) + rest;
    HeadOfCutFrame(crc, f, rest, |bytes|);
    assert bytes[..|bytes|] == bytes;
    assert bytes[RECORD_HEADER_BYTES + |f.payload|..] == rest;
  }

  lemma ReplayInside(crc: Checksum, f: Frame, rest: seq<byte>, cut: nat)
    requires ValidFrame(f) && 0 < cut < |EncodeFrame(crc, f)|
    ensures ReplayFrames(crc, (EncodeFrame(crc, f) + rest)[..cut], f.first)
         == Recovered([], f.first - 1, 0, true)
  {
    HeadOfCutFrame(crc, f, rest, cut);
  }

  /** Replaying any byte prefix of a frame sequence returns exactly the frames that
      are whole in it and reports a torn tail exactly when the cut is inside a frame. */
  lemma {:induction false} ReplayOfCut(crc: Checksum, frames: seq<Frame>, start: nat, cut: nat)
    requires Contiguous(frames, start) && start >= 1
    requires forall i | 0 <= i < |frames| :: ValidFrame(frames[i])
    requires cut <= |EncodeFrames(crc, frames)|
    ensures ReplayFrames(crc, EncodeFrames(crc, frames)[..cut], start)
         == Keeps(crc, frames, start, WholeFrames(crc, frames, cut), cut)
  {
    hide ReadHead, EncodeFrame, ReplayFrames, EncodeFrames, Keeps, WholeFrames, ValidFrame;
    if cut == 0 {
      assert EncodeFrames(crc, frames)[..cut] == [];
      NothingToReplay(crc, frames, start);
      KeepsNone(crc, frames, start, cut);
    } else {
      FramesUnfold(crc, frames, cut);
      var f, tail := frames[0], frames[1..];
      var size, rest := |EncodeFrame(crc, f)|, EncodeFrames(crc, tail);
      if cut < size {
        KeepsNone(crc, frames, start, cut);
        ReplayInside(crc, f, rest, cut);
      } else {
        ReplayOfCut(crc, tail, f.last + 1, cut - size);
        ReplayWhole(crc, f, rest[..cut - size]);
        KeepsStep(crc, frames, start, WholeFrames(crc, frames, cut), cut);
      }
    }
  }

  lemma NothingToReplay(crc: Checksum, frames: seq<Frame>, start: nat)
    requires start >= 1 && forall i | 0 <= i < |frames| :: ValidFrame(frames[i])
    ensures ReplayFrames(crc, [], start) == Recovered([], start - 1, 0, false)
    ensures WholeFrames(crc, frames, 0) == 0
  {
  }

  /** What a cut leaves of the first frame and of the others. */
  lemma FramesUnfold(crc: Checksum, frames: seq<Frame>, cut: nat)
    requires forall i | 0 <= i < |frames| :: ValidFrame(frames[i])
    requires 0 < cut <= |EncodeFrames(crc, frames)|
    ensures frames != []
    ensures var size, rest := |EncodeFrame(crc, frames[0])|, EncodeFrames(crc, frames[1..]);
      if cut < size then
        && EncodeFrames(crc, frames)[..cut] == (EncodeFrame(crc, frames[0]) + rest)[..cut]
        && WholeFrames(crc, frames, cut) == 0
      else
        && cut - size <= |rest|
        && EncodeFrames(crc, frames)[..cut] == EncodeFrame(crc, frames[0]) + rest[..cut - size]
        && WholeFrames(crc, frames, cut) == 1 + WholeFrames(crc, frames[1..], cut - size)
  {
    hide EncodeFrame;
    assert EncodeFrames(crc, frames) == EncodeFrame(crc, frames[0]) + EncodeFrames(crc, frames[1..]);
  }

  lemma {:induction false} WholeFramesFit(crc: Checksum, frames: seq<Frame>, cut: nat)
    requires forall i | 0 <= i < |frames| :: ValidFrame(frames[i])
    ensures |EncodeFrames(crc, frames[..WholeFrames(crc, frames, cut)])| <= cut
  {
    var n := WholeFrames(crc, frames, cut);
    if n > 0 {
      WholeFramesFit(crc, frames[1..], cut - |EncodeFrame(crc, frames[0])|);
      assert frames[..n][1..] == frames[1..][..n - 1];
    } else {
      assert frames[..n] == [];
    }
  }

  /** The same for a whole log file: a crash that keeps the file header leaves a
      log whose replay is the frames that survived whole. */
  lemma ReplayOfCutFile(crc: Checksum, frames: seq<Frame>, start: nat, cut: nat)
    requires Contiguous(frames, start) && start >= 1
    requires forall i | 0 <= i < |frames| :: ValidFrame(frames[i])
    requires FILE_HEADER_BYTES <= cut <= |Log(crc, frames)|
    ensures var n := WholeFrames(crc, frames, cut - FILE_HEADER_BYTES);
      && |Log(crc, frames[..n])| <= cut
      && Replay(crc, Log(crc, frames)[..cut], start)
      == Recovered(frames[..n], NextSequence(frames[..n], start) - 1,
                   |Log(crc, frames[..n])|, |Log(crc, frames[..n])| < cut)
  {
    hide ReplayFrames, FileHeader, EncodeFrame, ValidFileHeader, EncodeFrames, WholeFrames, NextSequence, Contiguous, ValidFrame;
    var file := Log(crc, frames)[..cut];
    FileHeaderAccepted(crc);
    ReplayOfCut(crc, frames, start, cut - FILE_HEADER_BYTES);
    WholeFramesFit(crc, frames, cut - FILE_HEADER_BYTES);
    assert file[..FILE_HEADER_BYTES] == FileHeader(crc);
    assert file[FILE_HEADER_BYTES..] == EncodeFrames(crc, frames)[..cut - FILE_HEADER_BYTES];
    assert forall xs: seq<Frame> :: [] + xs == xs;
  }

  lemma {:induction false} EncodeFramesAppend(crc: Checksum, frames: seq<Frame>, f: Frame)
    requires forall i | 0 <= i < |frames| :: ValidFrame(frames[i])
    requires ValidFrame(f)
    ensures forall i | 0 <= i < |frames + [f]| :: ValidFrame((frames + [f])[i])
    ensures EncodeFrames(crc, frames + [f]) == EncodeFrames(crc, frames) + EncodeFrame(crc, f)
  {
    hide EncodeFrame, ValidFrame;
    if frames == [] {
      assert [f][1..] == [] && frames + [f] == [f];
      assert EncodeFrames(crc, [f]) == EncodeFrame(crc, f) + EncodeFrames(crc, [f][1..]);
    } else {
      EncodeFramesAppend(crc, frames[1..], f);
      assert (frames + [f])[1..] == frames[1..] + [f];
    }
  }

  lemma {:induction false} ContiguousAppend(frames: seq<Frame>, start: nat, f: Frame)
    requires Contiguous(frames, start) && ValidFrame(f) && f.first == NextSequence(frames, start)
    ensures Contiguous(frames + [f], start)
  {
    if frames == [] {
      assert [f][1..] == [] && frames + [f] == [f];
    } else {
      var tail := frames[1..];
      assert tail != [] ==> tail[|tail| - 1] == frames[|frames| - 1];
      ContiguousAppend(tail, frames[0].last + 1, f);
      assert (frames + [f])[1..] == tail + [f];
    }
  }

  // ----- the writer

  /** How the operating system answers one append: the bytes that reached the file
      and whether the requested sync succeeded. */
  datatype IoAnswer = IoAnswer(written: nat, syncOk: bool)

  /** A log being written: its bytes, how many are known to survive a crash, the
      acknowledged frames, the frame a writer failed on, and whether it is poisoned. */
  datatype LogState = LogState(file: seq<byte>, synced: nat, frames: seq<Frame>, failed: Option<Frame>, poisoned: bool)

  predicate ValidFrames(frames: seq<Frame>) {
    forall i | 0 <= i < |frames| :: ValidFrame(frames[i])
  }

  function NewLog(crc: Checksum): LogState {
    LogState(FileHeader(crc), FILE_HEADER_BYTES, [], None, false)
  }

  function AllWritten(log: LogState): seq<Frame> {
    if log.failed.Some? then log.frames + [log.failed.value] else log.frames
  }

  /** `offset` is the header alone or the end of one of the frames. */
  ghost predicate AtFrameEnd(crc: Checksum, frames: seq<Frame>, offset: nat)
    requires ValidFrames(frames)
  {
    exists n | 0 <= n <= |frames| :: offset == |Log(crc, frames[..n])|
  }

  ghost predicate LogValid(crc: Checksum, start: nat, log: LogState) {
    && start >= 1 && Contiguous(AllWritten(log), start)
    && ValidFrames(AllWritten(log)) && ValidFrames(log.frames)
    && AtFrameEnd(crc, log.frames, log.synced)
    && log.synced <= |Log(crc, log.frames)| <= |log.file| <= |Log(crc, AllWritten(log))|
    && log.file == Log(crc, AllWritten(log))[..|log.file|]
    && (log.failed.Some? ==> log.poisoned)
  }

  /** `append_inner`: refused without effect, acknowledged whole, or poisoned with some
      prefix of the frame in the file. */
  function AppendTo(crc: Checksum, start: nat, log: LogState, f: Frame, authoritative: bool, io: IoAnswer): (LogState, bool) {
    if log.poisoned || !ValidFrame(f) || f.first != NextSequence(log.frames, start) then (log, false)
    else
      var encoded := EncodeFrame(crc, f);
      if io.written < |encoded| || (authoritative && !io.syncOk) then
        var reached := if io.written < |encoded| then io.written else |encoded|;
        (log.(file := log.file + encoded[..reached], failed := Some(f), poisoned := true), false)
      else
        var file := log.file + encoded;
        (log.(file := file, synced := if authoritative then |file| else log.synced, frames := log.frames + [f]), true)
  }

  /** `sync`: everything written is durable, or the writer is poisoned. */
  function SyncTo(log: LogState, ok: bool): LogState {
    if log.poisoned then log
    else if ok then log.(synced := |log.file|)
    else log.(poisoned := true)
  }

  lemma NewLogIsValid(crc: Checksum, start: nat)
    requires start >= 1
    ensures LogValid(crc, start, NewLog(crc))
  {
    hide FileHeader;
    var log := NewLog(crc);
    assert log.frames[..0] == [] && log.synced == |Log(crc, log.frames[..0])|;
    assert Log(crc, []) == FileHeader(crc);
  }

  /** In a log that has not failed, the file is exactly the log of its frames. */
  lemma CleanLog(crc: Checksum, start: nat, log: LogState)
    requires LogValid(crc, start, log) && log.failed.None?
    ensures log.file == Log(crc, log.frames)
  {
    hide Log, Contiguous;
  }

  lemma AppendKeepsValid(crc: Checksum, start: nat, log: LogState, f: Frame, authoritative: bool, io: IoAnswer)
    requires LogValid(crc, start, log)
    ensures LogValid(crc, start, AppendTo(crc, start, log, f, authoritative, io).0)
  {
    hide EncodeFrame, Log, Contiguous, ValidFrame;
    if !log.poisoned && ValidFrame(f) && f.first == NextSequence(log.frames, start) {
      var encoded := EncodeFrame(crc, f);
      var (after, acknowledged) := AppendTo(crc, start, log, f, authoritative, io);
      LogAppend(crc, log.frames, start, f);
      CleanLog(crc, start, log);
      if acknowledged {
        FrameEndStays(crc, log.frames, f, log.synced);
        AtEnd(crc, after.frames);
      } else {
        assert after.file == Log(crc, AllWritten(after))[..|after.file|];
      }
    }
  }

  lemma FrameEndStays(crc: Checksum, frames: seq<Frame>, f: Frame, synced: nat)
    requires ValidFrames(frames) && ValidFrame(f) && AtFrameEnd(crc, frames, synced)
    ensures AtFrameEnd(crc, frames + [f], synced)
  {
    hide Log;
    var n :| 0 <= n <= |frames| && synced == |Log(crc, frames[..n])|;
    assert (frames + [f])[..n] == frames[..n];
  }

  lemma AtEnd(crc: Checksum, frames: seq<Frame>)
    requires ValidFrames(frames)
    ensures AtFrameEnd(crc, frames, |Log(crc, frames)|)
  {
    hide Log;
    assert frames[..|frames|] == frames;
  }

  lemma SyncKeepsValid(crc: Checksum, start: nat, log: LogState, ok: bool)
    requires LogValid(crc, start, log)
    ensures LogValid(crc, start, SyncTo(log, ok))
  {
    hide Log, Contiguous;
    if !log.poisoned && ok {
      CleanLog(crc, start, log);
      AtEnd(crc, log.frames);
    }
  }

  class WalWriter {
    const crc: Checksum
    const start: nat
    var file: seq<byte>
    var offset: nat
    var nextSequence: nat
    var poisoned: bool
    /** Bytes known to survive a crash. */
    var synced: nat
    /** Acknowledged frames, and the frame a poisoned writer failed on. */
    ghost var frames: seq<Frame>
    ghost var failed: Option<Frame>

    ghost function View(): LogState
      reads this
    {
      LogState(file, synced, frames, failed, poisoned)
    }

    ghost predicate Valid()
      reads this
    {
      && LogValid(crc, start, View())
      && nextSequence == NextSequence(frames, start) && offset == |Log(crc, frames)|
    }

    constructor (crc: Checksum, start: nat)
      requires start >= 1
      ensures Valid() && View() == NewLog(crc) && nextSequence == start
      ensures this.crc == crc && this.start == start
    {
      this.crc, this.start := crc, start;
      file, offset, synced := FileHeader(crc), FILE_HEADER_BYTES, FILE_HEADER_BYTES;
      nextSequence, poisoned := start, false;
      frames, failed := [], None;
      new;
      NewLogIsValid(crc, start);
    }

    /** `append_inner`. An admitted frame is acknowledged exactly when all its bytes
        and the requested sync succeed; otherwise the writer is poisoned, and a
        poisoned writer never writes again. */
    method Append(f: Frame, authoritative: bool, io: IoAnswer) returns (acknowledged: bool)
      requires Valid()
      modifies this
      ensures Valid()
      ensures (View(), acknowledged) == AppendTo(crc, start, old(View()), f, authoritative, io)
      ensures acknowledged <==>
        && !old(poisoned) && ValidFrame(f) && f.first == old(nextSequence)
        && io.written >= |EncodeFrame(crc, f)| && (authoritative ==> io.syncOk)
      ensures !acknowledged && !old(poisoned) && ValidFrame(f) && f.first == old(nextSequence) ==>
        poisoned && failed == Some(f)
      ensures old(poisoned) || !ValidFrame(f) || f.first != old(nextSequence) ==>
        !acknowledged && unchanged(this)
      ensures acknowledged ==>
        && frames == old(frames) + [f] && failed.None? && !poisoned
        && file == old(file) + EncodeFrame(crc, f)
        && synced == if authoritative then |file| else old(synced)
      ensures !acknowledged ==> frames == old(frames) && synced == old(synced) && old(file) <= file
    {
      ghost var before := View();
      hide EncodeFrame, Log, Contiguous, ValidFrame;
      if poisoned || !ValidFrame(f) || f.first != nextSequence {
        return false;
      }
      AppendKeepsValid(crc, start, before, f, authoritative, io);
      LogAppend(crc, frames, start, f);
      assert failed.None? && offset == |Log(crc, frames)|;
      hide LogValid;
      var encoded := EncodeFrame(crc, f);
      if io.written < |encoded| || (authoritative && !io.syncOk) {
        var reached := if io.written < |encoded| then io.written else |encoded|;
        file := file + encoded[..reached];
        poisoned, failed := true, Some(f);
        return false;
      }
      file := file + encoded;
      synced := if authoritative then |file| else synced;
      offset := offset + |encoded|;
      nextSequence := f.last + 1;
      frames := frames + [f];
      return true;
    }

    /** `sync`: the last sequence made durable, or none from a poisoned writer. */
    method Sync(ok: bool) returns (through: Option<nat>)
      requires Valid()
      modifies this
      ensures Valid() && View() == SyncTo(old(View()), ok) && nextSequence == old(nextSequence)
      ensures through == if old(poisoned) || !ok then None else Some(nextSequence - 1)
      ensures poisoned <==> old(poisoned) || !ok
      ensures through.Some? ==> synced == |file|
      ensures through.None? ==> synced == old(synced)
    {
      SyncKeepsValid(crc, start, View(), ok);
      hide Log, Contiguous;
      if poisoned { return None; }
      if !ok {
        poisoned := true;
        return None;
      }
      synced := |file|;
      return Some(nextSequence - 1);
    }

    /** A poisoned writer refuses every append, whatever the system would answer. */
    lemma PoisonedRefuses(f: Frame, authoritative: bool, io: IoAnswer)
      requires poisoned
      ensures AppendTo(crc, start, View(), f, authoritative, io) == (View(), false)
    {
    }

    /** A crash keeps every synced byte and any prefix of the rest. Replay then never
        reports corruption: it returns all frames that survived whole, so every frame
        inside the synced bytes and at most the one frame whose append failed, and
        truncating the reported tail leaves the log of exactly those frames. */
    method RecoverAfterCrash(cut: nat) returns (r: Recovery, repaired: seq<byte>)
      requires Valid() && synced <= cut <= |file|
      ensures r.Recovered? && r.frames <= AllWritten(View())
      ensures r.through == NextSequence(r.frames, start) - 1
      ensures forall n | 0 <= n <= |frames| && |Log(crc, frames[..n])| <= synced :: frames[..n] <= r.frames
      ensures repaired == Log(crc, r.frames)
      ensures r.torn == (repaired != file[..cut])
    {
      SurvivorsOf(crc, start, View(), cut);
      SyncedFramesSurvive(crc, start, View(), cut);
      hide Log, Replay, Contiguous, ValidFrame, WholeFrames;
      r := ReplayFile(crc, file[..cut], start);
      repaired := file[..r.valid];
    }
  }

  /** What replay makes of the bytes that survive a crash. */
  lemma SurvivorsOf(crc: Checksum, start: nat, log: LogState, cut: nat)
    requires LogValid(crc, start, log) && log.synced <= cut <= |log.file|
    ensures FILE_HEADER_BYTES <= cut <= |Log(crc, AllWritten(log))| && log.file[..cut] == Log(crc, AllWritten(log))[..cut]
    ensures var n := WholeFrames(crc, AllWritten(log), cut - FILE_HEADER_BYTES);
      && ValidFrames(AllWritten(log)[..n])
      && var kept := Log(crc, AllWritten(log)[..n]);
      && Replay(crc, log.file[..cut], start)
         == Recovered(AllWritten(log)[..n], NextSequence(AllWritten(log)[..n], start) - 1, |kept|, |kept| < cut)
      && |kept| <= cut && log.file[..|kept|] == kept && (|kept| == cut ==> log.file[..cut] == kept)
  {
    hide EncodeFrames, Replay, Contiguous, ValidFrame, WholeFrames, NextSequence;
    var written := AllWritten(log);
    SyncedPastHeader(crc, start, log);
    assert log.file[..cut] == Log(crc, written)[..cut];
    ReplayOfCutFile(crc, written, start, cut);
    var n := WholeFrames(crc, written, cut - FILE_HEADER_BYTES);
    LogOfPrefix(crc, written, n);
    hide Log;
    var kept := Log(crc, written[..n]);
    assert log.file[..|kept|] == Log(crc, written)[..|kept|];
  }

  lemma SyncedPastHeader(crc: Checksum, start: nat, log: LogState)
    requires LogValid(crc, start, log)
    ensures FILE_HEADER_BYTES <= log.synced
  {
    hide EncodeFrames;
    var k :| 0 <= k <= |log.frames| && log.synced == |Log(crc, log.frames[..k])|;
  }

  lemma LogOfPrefix(crc: Checksum, frames: seq<Frame>, n: nat)
    requires ValidFrames(frames) && n <= |frames|
    ensures ValidFrames(frames[..n]) && Log(crc, frames[..n]) <= Log(crc, frames)
  {
    WholePrefixBytes(crc, frames, n);
  }

  /** Every acknowledged frame inside the surviving bytes survives. */
  lemma SyncedFramesSurvive(crc: Checksum, start: nat, log: LogState, cut: nat)
    requires LogValid(crc, start, log) && FILE_HEADER_BYTES <= cut
    ensures forall m | 0 <= m <= |log.frames| && |Log(crc, log.frames[..m])| <= cut ::
      log.frames[..m] <= AllWritten(log)[..WholeFrames(crc, AllWritten(log), cut - FILE_HEADER_BYTES)]
  {
    hide EncodeFrames, Contiguous, ValidFrame, WholeFrames;
    var written, n := AllWritten(log), WholeFrames(crc, AllWritten(log), cut - FILE_HEADER_BYTES);
    forall m | 0 <= m <= |log.frames| && |Log(crc, log.frames[..m])| <= cut ensures log.frames[..m] <= written[..n] {
      assert log.frames[..m] == written[..m];
      WholeFramesCovers(crc, written, m, cut - FILE_HEADER_BYTES);
      assert written[..m] == written[..n][..m];
    }
  }

  lemma {:induction false} ContiguousPrefix(frames: seq<Frame>, start: nat, n: nat)
    requires Contiguous(frames, start) && n <= |frames|
    ensures Contiguous(frames[..n], start)
  {
    if n > 0 {
      ContiguousPrefix(frames[1..], frames[0].last + 1, n - 1);
      assert frames[..n][1..] == frames[1..][..n - 1];
    }
  }

  /** A log reopened on its first `n` frames; a truncated file has been synced whole. */
  function ReopenedLog(crc: Checksum, log: LogState, n: nat, cut: nat): LogState
    requires ValidFrames(AllWritten(log)) && n <= |AllWritten(log)|
  {
    var kept := AllWritten(log)[..n];
    var file := Log(crc, kept);
    LogState(file, if |file| == cut then log.synced else |file|, kept, None, false)
  }

  lemma ReopenedIsValid(crc: Checksum, start: nat, log: LogState, n: nat, cut: nat)
    requires LogValid(crc, start, log) && log.synced <= cut
    requires n <= |AllWritten(log)| && |Log(crc, AllWritten(log)[..n])| <= cut
    ensures LogValid(crc, start, ReopenedLog(crc, log, n, cut))
  {
    hide EncodeFrames, Contiguous, ValidFrame;
    var written := AllWritten(log);
    var kept, file := written[..n], Log(crc, written[..n]);
    ContiguousPrefix(written, start, n);
    AtEnd(crc, kept);
    if |file| == cut {
      var k :| 0 <= k <= |log.frames| && log.synced == |Log(crc, log.frames[..k])|;
      assert log.frames[..k] == written[..k];
      if k <= n {
        assert kept[..k] == written[..k];
      } else {
        WholePrefixBytes(crc, written[..k], n);
        assert written[..k][..n] == kept;
      }
    }
  }

  lemma LogAppend(crc: Checksum, frames: seq<Frame>, start: nat, f: Frame)
    requires Contiguous(frames, start) && ValidFrame(f) && f.first == NextSequence(frames, start)
    requires forall i | 0 <= i < |frames| :: ValidFrame(frames[i])
    ensures Contiguous(frames + [f], start)
    ensures forall i | 0 <= i < |frames + [f]| :: ValidFrame((frames + [f])[i])
    ensures Log(crc, frames + [f]) == Log(crc, frames) + EncodeFrame(crc, f)
  {
    EncodeFramesAppend(crc, frames, f);
    ContiguousAppend(frames, start, f);
  }

  lemma {:induction false} WholePrefixBytes(crc: Checksum, frames: seq<Frame>, n: nat)
    requires forall i | 0 <= i < |frames| :: ValidFrame(frames[i])
    requires n <= |frames|
    ensures EncodeFrames(crc, frames[..n]) <= EncodeFrames(crc, frames)
  {
    hide EncodeFrame, ValidFrame;
    if n > 0 {
      WholePrefixBytes(crc, frames[1..], n - 1);
      assert frames[..n][1..] == frames[1..][..n - 1];
    } else {
      assert frames[..n] == [];
    }
  }

  lemma {:induction false} WholeFramesCovers(crc: Checksum, frames: seq<Frame>, n: nat, cut: nat)
    requires forall i | 0 <= i < |frames| :: ValidFrame(frames[i])
    requires n <= |frames| && |EncodeFrames(crc, frames[..n])| <= cut
    ensures n <= WholeFrames(crc, frames, cut)
  {
    if n > 0 {
      assert frames[..n][1..] == frames[1..][..n - 1];
      WholeFramesCovers(crc, frames[1..], n - 1, cut - |EncodeFrame(crc, frames[0])|);
    }
  }
}
