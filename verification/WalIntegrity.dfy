/** What replay accepts, for every byte string: exactly the encodings of contiguous
    valid frames behind a valid file header, with at most the beginning of one more
    frame after them. Any other byte is corruption. */
module WalIntegrity {
  import opened Bytes
  import opened Wrappers
  import opened Wal

  /** The 32 bytes that announce a frame of this length and range. */
  function HeaderBytes(length: nat, first: nat, last: nat, checksum: nat): (r: seq<byte>)
    requires length < 0x1_0000_0000 && first <= U64_MAX && last <= U64_MAX && checksum < 0x1_0000_0000
    ensures |r| == RECORD_HEADER_BYTES
  {
    WordCapacities();
    RECORD_MAGIC + (BigEndian(FORMAT_VERSION, 2) + [RECORD_KIND_BATCH, 0] + BigEndian(length, 4)
                    + BigEndian(first, 8) + BigEndian(last, 8)) + BigEndian(checksum, 4)
  }

  /** What a header may announce. */
  predicate Announces(length: nat, first: nat, last: nat, checksum: nat) {
    1 <= length <= MAX_PAYLOAD_BYTES && 1 <= first <= last <= U64_MAX && checksum < 0x1_0000_0000
  }

  ghost predicate Begins(bytes: seq<byte>, expected: nat, length: nat, last: nat, checksum: nat) {
    && Announces(length, expected, last, checksum) && |bytes| < RECORD_HEADER_BYTES + length
    && HeaderBytes(length, expected, last, checksum) <= bytes
  }

  /** The beginning of a frame: part of a header, or a whole header that announces the
      expected sequence and more bytes than there are. */
  ghost predicate Incomplete(bytes: seq<byte>, expected: nat) {
    && bytes != []
    && (|bytes| < RECORD_HEADER_BYTES || exists length, last, checksum :: Begins(bytes, expected, length, last, checksum))
  }

  /** The file is the log of `frames`, and what follows them is at most the beginning
      of another one. */
  ghost predicate Holds(crc: Checksum, file: seq<byte>, start: nat, frames: seq<Frame>) {
    && Contiguous(frames, start) && ValidFrames(frames) && Log(crc, frames) <= file
    && var rest := file[|Log(crc, frames)|..];
    rest == [] || Incomplete(rest, NextSequence(frames, start))
  }

  // ----- headers

  lemma FileHeaderIs(crc: Checksum, header: seq<byte>)
    requires |header| == FILE_HEADER_BYTES
    ensures ValidFileHeader(crc, header) <==> header == FileHeader(crc)
  {
    FileHeaderAccepted(crc);
    hide FromBigEndian, BigEndian;
    if ValidFileHeader(crc, header) {
      WordCapacities();
      BigEndianCanonical(header[8..10]);
      BigEndianCanonical(header[10..12]);
      BigEndianCanonical(header[12..16]);
      assert header[0..12] == header[0..8] + header[8..10] + header[10..12];
      assert header == header[0..12] + header[12..16];
    }
  }

  lemma CoveredFields(covered: seq<byte>)
    requires |covered| == 24 && FromBigEndian(covered[0..2]) == FORMAT_VERSION
    requires covered[2] == RECORD_KIND_BATCH && covered[3] == 0
    ensures var length, first, last := FromBigEndian(covered[4..8]), FromBigEndian(covered[8..16]), FromBigEndian(covered[16..24]);
      && FORMAT_VERSION < Capacity(2) && length < Capacity(4) && first < Capacity(8) && last < Capacity(8)
      && covered == BigEndian(FORMAT_VERSION, 2) + [RECORD_KIND_BATCH, 0] + BigEndian(length, 4)
                    + BigEndian(first, 8) + BigEndian(last, 8)
  {
    hide FromBigEndian, BigEndian;
    WordCapacities();
    BigEndianCanonical(covered[0..2]);
    BigEndianCanonical(covered[4..8]);
    BigEndianCanonical(covered[8..16]);
    BigEndianCanonical(covered[16..24]);
    assert covered == covered[0..2] + [covered[2], covered[3]] + covered[4..8] + covered[8..16] + covered[16..24];
  }

  /** A header that decodes is the header of what it decodes to. */
  lemma DecodedIsHeader(header: seq<byte>)
    requires |header| == RECORD_HEADER_BYTES && DecodeRecordHeader(header).Some?
    ensures var h := DecodeRecordHeader(header).value;
      Announces(h.length, h.first, h.last, h.checksum) && header == HeaderBytes(h.length, h.first, h.last, h.checksum)
  {
    hide FromBigEndian, BigEndian;
    WordCapacities();
    CoveredFields(header[4..28]);
    BigEndianCanonical(header[28..32]);
    assert header == header[0..4] + header[4..28] + header[28..32];
  }

  lemma CoveredReads(length: nat, first: nat, last: nat, checksum: nat)
    requires Announces(length, first, last, checksum)
    ensures var header := HeaderBytes(length, first, last, checksum); var covered := header[4..28];
      && header[0..4] == RECORD_MAGIC && covered[0..2] == BigEndian(FORMAT_VERSION, 2)
      && covered[2] == RECORD_KIND_BATCH && covered[3] == 0
      && Capacity(4) == 0x1_0000_0000 && Capacity(8) == U64_MAX + 1
      && covered[4..8] == BigEndian(length, 4) && covered[8..16] == BigEndian(first, 8)
      && covered[16..24] == BigEndian(last, 8) && header[28..32] == BigEndian(checksum, 4)
  {
    WordCapacities();
    var header := HeaderBytes(length, first, last, checksum);
    var covered := BigEndian(FORMAT_VERSION, 2) + [RECORD_KIND_BATCH, 0] + BigEndian(length, 4)
                   + BigEndian(first, 8) + BigEndian(last, 8);
    assert header[4..28] == covered;
  }

  lemma HeaderDecodes(length: nat, first: nat, last: nat, checksum: nat)
    requires Announces(length, first, last, checksum)
    ensures DecodeRecordHeader(HeaderBytes(length, first, last, checksum))
         == Some(DecodedHeader(length, first, last, checksum))
  {
    WordCapacities();
    CoveredReads(length, first, last, checksum);
    BigEndianDecodes(FORMAT_VERSION, 2);
    BigEndianDecodes(length, 4);
    BigEndianDecodes(first, 8);
    BigEndianDecodes(last, 8);
    BigEndianDecodes(checksum, 4);
  }

  // ----- one frame

  /** The front of the bytes is taken for a frame exactly when it is the encoding of
      a valid frame with the expected sequence, its checksum included. */
  lemma WholeIsEncoded(crc: Checksum, bytes: seq<byte>, expected: nat, f: Frame)
    requires expected >= 1
    ensures ReadHead(crc, bytes, expected) == Whole(f) <==>
      ValidFrame(f) && f.first == expected && EncodeFrame(crc, f) <= bytes
  {
    if ReadHead(crc, bytes, expected) == Whole(f) {
      var header := bytes[..RECORD_HEADER_BYTES];
      DecodedIsHeader(header);
      assert bytes[4..28] == header[4..28];
      assert header[4..28] == Covered(f);
      assert header == RecordHeader(crc, f);
      var size := RECORD_HEADER_BYTES + |f.payload|;
      assert bytes[..size] == header + bytes[RECORD_HEADER_BYTES..size];
      assert f.payload == bytes[RECORD_HEADER_BYTES..size];
    }
    if ValidFrame(f) && f.first == expected && EncodeFrame(crc, f) <= bytes {
      var size := |EncodeFrame(crc, f)|;
      HeadOfCutFrame(crc, f, bytes[size..], |bytes|);
      assert (EncodeFrame(crc, f) + bytes[size..])[..|bytes|] == bytes;
    }
  }

  /** It is taken for a torn tail exactly when it is the beginning of a frame. */
  lemma TornIsIncomplete(crc: Checksum, bytes: seq<byte>, expected: nat)
    requires expected >= 1 && bytes != []
    ensures ReadHead(crc, bytes, expected) == Torn <==> Incomplete(bytes, expected)
  {
    if |bytes| >= RECORD_HEADER_BYTES {
      var header := bytes[..RECORD_HEADER_BYTES];
      if ReadHead(crc, bytes, expected) == Torn {
        DecodedIsHeader(header);
        var h := DecodeRecordHeader(header).value;
        assert Begins(bytes, expected, h.length, h.last, h.checksum);
      }
      if length, last, checksum :| Begins(bytes, expected, length, last, checksum) {
        HeaderDecodes(length, expected, last, checksum);
        assert header == HeaderBytes(length, expected, last, checksum);
      }
    }
  }

  // ----- all frames

  ghost predicate HoldsFrames(crc: Checksum, bytes: seq<byte>, start: nat, frames: seq<Frame>) {
    && Contiguous(frames, start) && ValidFrames(frames) && EncodeFrames(crc, frames) <= bytes
    && var rest := bytes[|EncodeFrames(crc, frames)|..];
    rest == [] || Incomplete(rest, NextSequence(frames, start))
  }

  function Recovering(crc: Checksum, frames: seq<Frame>, start: nat, length: nat): Recovery
    requires start >= 1 && ValidFrames(frames)
  {
    Keeps(crc, frames, start, |frames|, length)
  }

  lemma RecoveringIs(crc: Checksum, frames: seq<Frame>, start: nat, length: nat)
    requires start >= 1 && ValidFrames(frames)
    ensures var size := |EncodeFrames(crc, frames)|;
      Recovering(crc, frames, start, length) == Recovered(frames, NextSequence(frames, start) - 1, size, size < length)
  {
    assert frames[..|frames|] == frames;
  }

  lemma RecoveringMore(crc: Checksum, f: Frame, tail: seq<Frame>, length: nat)
    requires ValidFrame(f) && ValidFrames(tail) && |EncodeFrame(crc, f)| <= length
    ensures ValidFrames([f] + tail)
    ensures var size := |EncodeFrame(crc, f)|;
      Recovering(crc, [f] + tail, f.first, length) == Prepend([f], size, Recovering(crc, tail, f.last + 1, length - size))
  {
    var frames := [f] + tail;
    assert frames[1..] == tail;
    assert EncodeFrames(crc, frames) == EncodeFrame(crc, f) + EncodeFrames(crc, tail);
    hide EncodeFrame, ValidFrame;
    RecoveringIs(crc, frames, f.first, length);
    RecoveringIs(crc, tail, f.last + 1, length - |EncodeFrame(crc, f)|);
    hide Recovering;
  }

  lemma HoldsMore(crc: Checksum, bytes: seq<byte>, f: Frame, tail: seq<Frame>)
    requires ValidFrame(f) && EncodeFrame(crc, f) <= bytes
    ensures HoldsFrames(crc, bytes, f.first, [f] + tail)
       <==> HoldsFrames(crc, bytes[|EncodeFrame(crc, f)|..], f.last + 1, tail)
  {
    hide EncodeFrame, Incomplete, ValidFrame;
    var frames, size := [f] + tail, |EncodeFrame(crc, f)|;
    var rest := bytes[size..];
    assert frames[1..] == tail && bytes == EncodeFrame(crc, f) + rest;
    assert Contiguous(frames, f.first) <==> Contiguous(tail, f.last + 1);
    assert NextSequence(frames, f.first) == NextSequence(tail, f.last + 1);
    if ValidFrames(tail) {
      assert ValidFrames(frames) && EncodeFrames(crc, frames) == EncodeFrame(crc, f) + EncodeFrames(crc, tail);
      var body := EncodeFrames(crc, tail);
      if body <= rest {
        assert EncodeFrames(crc, frames) <= bytes && bytes[size + |body|..] == rest[|body|..];
      }
      if EncodeFrames(crc, frames) <= bytes {
        assert bytes[..size + |body|] == EncodeFrame(crc, f) + body;
        assert rest[..|body|] == bytes[size..size + |body|] == body;
      }
    } else {
      var i :| 0 <= i < |tail| && !ValidFrame(tail[i]);
      assert frames[i + 1] == tail[i];
    }
  }

  /** Whatever replay recovers is what the bytes hold. */
  lemma {:induction false} RecoveredIsHeld(crc: Checksum, bytes: seq<byte>, start: nat)
    requires start >= 1 && ReplayFrames(crc, bytes, start).Recovered?
    ensures var r := ReplayFrames(crc, bytes, start);
      HoldsFrames(crc, bytes, start, r.frames) && r == Recovering(crc, r.frames, start, |bytes|)
    decreases |bytes|
  {
    hide ReadHead, EncodeFrame, Incomplete, ValidFrame, HoldsFrames, Recovering;
    if bytes == [] {
      HoldsNone(crc, bytes, start);
    } else {
      match ReadHead(crc, bytes, start)
      case Torn =>
        TornIsIncomplete(crc, bytes, start);
        HoldsNone(crc, bytes, start);
      case Whole(f) =>
        WholeIsEncoded(crc, bytes, start, f);
        var size := |EncodeFrame(crc, f)|;
        RecoveredIsHeld(crc, bytes[size..], f.last + 1);
        var tail := ReplayFrames(crc, bytes[size..], f.last + 1).frames;
        HoldsMore(crc, bytes, f, tail);
        HeldIsValid(crc, bytes[size..], f.last + 1, tail);
        RecoveringMore(crc, f, tail, |bytes|);
    }
  }

  lemma HeldIsValid(crc: Checksum, bytes: seq<byte>, start: nat, frames: seq<Frame>)
    requires HoldsFrames(crc, bytes, start, frames)
    ensures ValidFrames(frames)
  {
  }

  lemma HoldsNone(crc: Checksum, bytes: seq<byte>, start: nat)
    requires start >= 1
    ensures HoldsFrames(crc, bytes, start, []) <==> bytes == [] || Incomplete(bytes, start)
    ensures Recovering(crc, [], start, |bytes|) == Recovered([], start - 1, 0, bytes != [])
  {
    assert bytes[0..] == bytes;
    RecoveringIs(crc, [], start, |bytes|);
  }

  lemma HeldFirst(crc: Checksum, bytes: seq<byte>, start: nat, frames: seq<Frame>)
    requires HoldsFrames(crc, bytes, start, frames) && frames != []
    ensures ValidFrame(frames[0]) && frames[0].first == start && EncodeFrame(crc, frames[0]) <= bytes
  {
    hide EncodeFrame, Incomplete, ValidFrame, NextSequence;
    assert EncodeFrame(crc, frames[0]) <= EncodeFrames(crc, frames);
  }

  /** Whatever the bytes hold is recovered. */
  lemma {:induction false} HeldIsRecovered(crc: Checksum, bytes: seq<byte>, start: nat, frames: seq<Frame>)
    requires start >= 1 && HoldsFrames(crc, bytes, start, frames)
    ensures ValidFrames(frames) && ReplayFrames(crc, bytes, start) == Recovering(crc, frames, start, |bytes|)
    decreases |frames|
  {
    hide ReplayFrames, HoldsFrames, Recovering, EncodeFrame, ValidFrame;
    HeldIsValid(crc, bytes, start, frames);
    if frames == [] {
      NothingHeld(crc, bytes, start);
    } else {
      HeldFirst(crc, bytes, start, frames);
      var f, tail := frames[0], frames[1..];
      assert frames == [f] + tail;
      HoldsMore(crc, bytes, f, tail);
      var rest := bytes[|EncodeFrame(crc, f)|..];
      HeldIsRecovered(crc, rest, f.last + 1, tail);
      ReplayWhole(crc, f, rest);
      assert bytes == EncodeFrame(crc, f) + rest;
      RecoveringMore(crc, f, tail, |bytes|);
    }
  }

  lemma NothingHeld(crc: Checksum, bytes: seq<byte>, start: nat)
    requires start >= 1 && HoldsFrames(crc, bytes, start, [])
    ensures ReplayFrames(crc, bytes, start) == Recovering(crc, [], start, |bytes|)
  {
    hide HoldsFrames, Recovering, Incomplete, ReadHead;
    HoldsNone(crc, bytes, start);
    if bytes != [] { TornIsIncomplete(crc, bytes, start); }
  }

  // ----- the file

  lemma HoldsIs(crc: Checksum, file: seq<byte>, start: nat, frames: seq<Frame>)
    ensures Holds(crc, file, start, frames) <==>
      FileHeader(crc) <= file && HoldsFrames(crc, file[FILE_HEADER_BYTES..], start, frames)
  {
    hide Incomplete, FileHeader, EncodeFrames, Contiguous;
    if Contiguous(frames, start) && ValidFrames(frames) {
      var body := EncodeFrames(crc, frames);
      if Log(crc, frames) <= file {
        assert file[..FILE_HEADER_BYTES] == FileHeader(crc);
        assert file[FILE_HEADER_BYTES..][..|body|] == body;
      }
      if FileHeader(crc) <= file && body <= file[FILE_HEADER_BYTES..] {
        assert file == FileHeader(crc) + file[FILE_HEADER_BYTES..];
        assert file[..FILE_HEADER_BYTES + |body|] == FileHeader(crc) + body;
      }
      if FILE_HEADER_BYTES + |body| <= |file| {
        assert file[FILE_HEADER_BYTES..][|body|..] == file[FILE_HEADER_BYTES + |body|..];
      }
    }
  }

  /** Replay recovers from any byte string exactly the frames it is the log of. */
  lemma ReplayIsExact(crc: Checksum, file: seq<byte>, start: nat, frames: seq<Frame>)
    requires start >= 1
    ensures Holds(crc, file, start, frames) <==>
      Replay(crc, file, start).Recovered? && Replay(crc, file, start).frames == frames
    ensures Holds(crc, file, start, frames) ==>
      var size := |Log(crc, frames)|;
      Replay(crc, file, start) == Recovered(frames, NextSequence(frames, start) - 1, size, size < |file|)
  {
    HoldsIs(crc, file, start, frames);
    if |file| >= FILE_HEADER_BYTES {
      FileHeaderIs(crc, file[..FILE_HEADER_BYTES]);
      var bytes := file[FILE_HEADER_BYTES..];
      hide ValidFileHeader, ReplayFrames, FileHeader, EncodeFrames, Holds, HoldsFrames, Recovering, NextSequence;
      if ReplayFrames(crc, bytes, start).Recovered? {
        RecoveredIsHeld(crc, bytes, start);
        var r := ReplayFrames(crc, bytes, start);
        assert [] + r.frames == r.frames;
      }
      if HoldsFrames(crc, bytes, start, frames) {
        HeldIsRecovered(crc, bytes, start, frames);
        RecoveringIs(crc, frames, start, |bytes|);
        assert [] + frames == frames;
      }
    }
  }

  /** Replay reports corruption exactly for a file that is no log at all. */
  lemma CorruptIsExact(crc: Checksum, file: seq<byte>, start: nat)
    requires start >= 1
    ensures Replay(crc, file, start).Corrupt? <==> forall frames :: !Holds(crc, file, start, frames)
  {
    hide Holds, Replay;
    var r := Replay(crc, file, start);
    if r.Recovered? {
      ReplayIsExact(crc, file, start, r.frames);
    }
    forall frames | r.Corrupt? ensures !Holds(crc, file, start, frames) {
      ReplayIsExact(crc, file, start, frames);
    }
  }

  // ----- damage

  lemma {:induction false} ReplayPast(crc: Checksum, front: seq<Frame>, start: nat, rest: seq<byte>)
    requires start >= 1 && Contiguous(front, start) && ValidFrames(front)
    ensures ReplayFrames(crc, EncodeFrames(crc, front) + rest, start)
         == Prepend(front, |EncodeFrames(crc, front)|, ReplayFrames(crc, rest, NextSequence(front, start)))
  {
    hide ReadHead, EncodeFrame, ReplayFrames, ValidFrame;
    if front == [] {
      assert EncodeFrames(crc, front) + rest == rest;
      assert forall xs: seq<Frame> :: [] + xs == xs;
    } else {
      var f, tail := front[0], front[1..];
      var body := EncodeFrames(crc, tail);
      ReplayPast(crc, tail, f.last + 1, rest);
      assert EncodeFrames(crc, front) + rest == EncodeFrame(crc, f) + (body + rest);
      ReplayWhole(crc, f, body + rest);
      assert NextSequence(front, start) == NextSequence(tail, f.last + 1);
      assert forall xs: seq<Frame> :: [f] + (tail + xs) == front + xs;
    }
  }

  lemma CorruptBehind(crc: Checksum, front: seq<Frame>, start: nat, bad: seq<byte>)
    requires start >= 1 && Contiguous(front, start) && ValidFrames(front)
    requires bad != [] && ReadHead(crc, bad, NextSequence(front, start)) == Bad
    ensures Replay(crc, Log(crc, front) + bad, start).Corrupt?
  {
    FileHeaderAccepted(crc);
    hide ValidFileHeader, EncodeFrames, ReadHead, FileHeader, ValidFrame, Contiguous, NextSequence;
    var file := Log(crc, front) + bad;
    ReplayPast(crc, front, start, bad);
    assert file[..FILE_HEADER_BYTES] == FileHeader(crc);
    assert file[FILE_HEADER_BYTES..] == EncodeFrames(crc, front) + bad;
  }

  /** A frame whose payload was changed without its checksum is corruption, wherever in
      the log it is and whatever follows it. */
  lemma DamageIsCorruption(crc: Checksum, front: seq<Frame>, start: nat, f: Frame, damaged: seq<byte>, rest: seq<byte>)
    requires start >= 1 && Contiguous(front, start) && ValidFrames(front)
    requires ValidFrame(f) && f.first == NextSequence(front, start)
    requires |damaged| == |f.payload| && crc(Covered(f) + damaged) != crc(Covered(f) + f.payload)
    ensures Replay(crc, Log(crc, front) + (RecordHeader(crc, f) + damaged + rest), start).Corrupt?
  {
    hide Replay, Log, ReadHead, RecordHeader, Covered, ValidFrame, Contiguous, NextSequence;
    DamagedHead(crc, f, damaged, rest);
    CorruptBehind(crc, front, start, RecordHeader(crc, f) + damaged + rest);
  }

  lemma DamagedHead(crc: Checksum, f: Frame, damaged: seq<byte>, rest: seq<byte>)
    requires ValidFrame(f) && |damaged| == |f.payload| && crc(Covered(f) + damaged) != crc(Covered(f) + f.payload)
    ensures ReadHead(crc, RecordHeader(crc, f) + damaged + rest, f.first) == Bad
  {
    var bad := RecordHeader(crc, f) + damaged + rest;
    RecordHeaderDecodes(crc, f);
    assert bad[..RECORD_HEADER_BYTES] == RecordHeader(crc, f) && bad[4..28] == RecordHeader(crc, f)[4..28];
    assert bad[32..32 + |damaged|] == damaged;
  }
}
