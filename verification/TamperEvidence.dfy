/** Tamper evidence: the identity of a stream's last record fixes every earlier
    record of that stream, in number and content. */
module TamperEvidence {
  import opened Bytes
  import opened Wrappers
  import opened ObservationLog

  ghost predicate Injective(digest: seq<byte> -> string) {
    forall a, b | digest(a) == digest(b) :: a == b
  }

  /** The records of one stream in the bytes of a log, line by line. */
  function StreamLines(c: Codec, bytes: seq<byte>, stream: Json): seq<Json>
    decreases |bytes|
  {
    if bytes == [] then []
    else
      var line := ReadLine(bytes, MAX_RECORD + 1);
      var rest := StreamLines(c, bytes[|line|..], stream);
      match c.parse(line)
      case None => rest
      case Some(r) => if StreamOf(r) == stream then [r] + rest else rest
  }

  /** Valid records, each naming the one before it; the first names `start`. */
  ghost predicate Linked(c: Codec, records: seq<Json>, start: Json) {
    && (records != [] ==> PreviousOf(records[0]) == start)
    && (forall i | 0 <= i < |records| :: ValidRecord(c, records[i]))
    && (forall i, j | 0 <= i && j == i + 1 < |records| :: PreviousOf(records[j]) == IdOf(records[i]))
  }

  lemma LinkedCons(c: Codec, head: Json, tail: seq<Json>, start: Json)
    requires ValidRecord(c, head) && PreviousOf(head) == start && Linked(c, tail, IdOf(head))
    ensures Linked(c, [head] + tail, start)
  {
    hide ValidRecord;
  }

  /** What an accepting scan has checked of its stream. */
  lemma {:induction false} AcceptedIsLinked(c: Codec, bytes: seq<byte>, stream: Json, previous: Option<Json>)
    requires Scan(c, bytes, stream, previous).Some?
    ensures var own := StreamLines(c, bytes, stream);
      && Linked(c, own, PredecessorId(previous))
      && Scan(c, bytes, stream, previous) == Some(if own == [] then previous else Some(own[|own| - 1]))
    decreases |bytes|
  {
    hide ValidRecord;
    if bytes != [] {
      var line := ReadLine(bytes, MAX_RECORD + 1);
      var next := ScanLine(c, line, stream, previous).value;
      AcceptedIsLinked(c, bytes[|line|..], stream, next);
      var r := c.parse(line).value;
      if StreamOf(r) == stream {
        LinkedCons(c, r, StreamLines(c, bytes[|line|..], stream), PredecessorId(previous));
      }
    }
  }

  // ----- what the scan accepts, for every byte string

  /** One retained line: a single line within its bound that holds a valid record. */
  ghost predicate GoodLine(c: Codec, line: seq<byte>) {
    && IsLine(line) && |line| <= MAX_RECORD
    && c.parse(line).Some? && ValidRecord(c, c.parse(line).value)
  }

  function Joined(lines: seq<seq<byte>>): seq<byte> {
    if lines == [] then [] else lines[0] + Joined(lines[1..])
  }

  /** The records of one stream among the lines. */
  ghost function Own(c: Codec, lines: seq<seq<byte>>, stream: Json): seq<Json>
    requires forall i | 0 <= i < |lines| :: GoodLine(c, lines[i])
  {
    if lines == [] then []
    else
      assert GoodLine(c, lines[0]);
      var r := c.parse(lines[0]).value;
      (if StreamOf(r) == stream then [r] else []) + Own(c, lines[1..], stream)
  }

  /** The bytes are these lines, and the stream is linked behind `previous`. */
  ghost predicate IsLogOf(c: Codec, bytes: seq<byte>, lines: seq<seq<byte>>, stream: Json, previous: Option<Json>) {
    && bytes == Joined(lines) && (forall i | 0 <= i < |lines| :: GoodLine(c, lines[i]))
    && Linked(c, Own(c, lines, stream), PredecessorId(previous))
  }

  lemma {:induction false} ReadLineShape(bytes: seq<byte>, limit: nat)
    requires bytes != [] && limit > 0
    ensures var line := ReadLine(bytes, limit);
      line != [] && (line[|line| - 1] == NEWLINE ==> IsLine(line))
  {
    var line := ReadLine(bytes, limit);
    if bytes[0] != NEWLINE && |bytes| > 1 && limit > 1 {
      ReadLineShape(bytes[1..], limit - 1);
      var rest := ReadLine(bytes[1..], limit - 1);
      assert line == [bytes[0]] + rest;
      hide ReadLine;
      assert forall i | 0 < i < |line| :: line[i] == rest[i - 1];
    }
  }

  lemma ScanLineIs(c: Codec, bytes: seq<byte>, stream: Json, previous: Option<Json>)
    requires bytes != []
    ensures var line := ReadLine(bytes, MAX_RECORD + 1); var next := ScanLine(c, line, stream, previous);
      && (next.Some? ==>
          && GoodLine(c, line)
          && var r := c.parse(line).value;
          if StreamOf(r) == stream then PreviousOf(r) == PredecessorId(previous) && next.value == Some(r) else next.value == previous)
      && (GoodLine(c, line) && (StreamOf(c.parse(line).value) == stream ==> PreviousOf(c.parse(line).value) == PredecessorId(previous)) ==>
          next.Some?)
  {
    hide ValidRecord, ReadLine;
    ReadLineShape(bytes, MAX_RECORD + 1);
  }

  lemma LinkedTail(c: Codec, records: seq<Json>, start: Json)
    requires Linked(c, records, start) && records != []
    ensures PreviousOf(records[0]) == start && Linked(c, records[1..], IdOf(records[0]))
  {
    hide ValidRecord;
  }

  lemma {:induction false} ScannedIsLog(c: Codec, bytes: seq<byte>, stream: Json, previous: Option<Json>) returns (lines: seq<seq<byte>>)
    requires Scan(c, bytes, stream, previous).Some?
    ensures IsLogOf(c, bytes, lines, stream, previous)
    decreases |bytes|
  {
    hide GoodLine, ScanLine, ReadLine, ValidRecord;
    if bytes == [] {
      lines := [];
    } else {
      var line := ReadLine(bytes, MAX_RECORD + 1);
      ScanLineIs(c, bytes, stream, previous);
      var next := ScanLine(c, line, stream, previous).value;
      var rest := ScannedIsLog(c, bytes[|line|..], stream, next);
      lines := [line] + rest;
      assert lines[1..] == rest && bytes == line + bytes[|line|..];
      GoodIsValid(c, line);
      var r := c.parse(line).value;
      hide Linked;
      if StreamOf(r) == stream {
        LinkedCons(c, r, Own(c, rest, stream), PredecessorId(previous));
      } else {
        assert [] + Own(c, rest, stream) == Own(c, rest, stream);
      }
    }
  }

  lemma GoodIsValid(c: Codec, line: seq<byte>)
    requires GoodLine(c, line)
    ensures c.parse(line).Some? && ValidRecord(c, c.parse(line).value) && IsLine(line) && |line| <= MAX_RECORD
  {
  }

  lemma {:induction false} LogIsScanned(c: Codec, bytes: seq<byte>, lines: seq<seq<byte>>, stream: Json, previous: Option<Json>)
    requires IsLogOf(c, bytes, lines, stream, previous)
    ensures Scan(c, bytes, stream, previous).Some?
    decreases |lines|
  {
    hide GoodLine, ScanLine, ReadLine, ValidRecord;
    if lines != [] {
      var line, rest := lines[0], lines[1..];
      GoodIsValid(c, line);
      ReadLineIs(line, Joined(rest), MAX_RECORD + 1);
      assert bytes[|line|..] == Joined(rest);
      var r, own := c.parse(line).value, Own(c, rest, stream);
      hide Linked;
      if StreamOf(r) == stream {
        assert ([r] + own)[1..] == own && ([r] + own)[0] == r;
        LinkedTail(c, [r] + own, PredecessorId(previous));
      } else {
        assert [] + own == own;
      }
      ScanLineIs(c, bytes, stream, previous);
      LogIsScanned(c, bytes[|line|..], rest, stream, ScanLine(c, line, stream, previous).value);
    }
  }

  /** A log is accepted if and only if it is a sequence of whole lines within their bound,
      each a valid record, in which the stream's records are linked. */
  lemma ScanIsExact(c: Codec, bytes: seq<byte>, stream: Json)
    ensures Scan(c, bytes, stream, None).Some? <==> exists lines :: IsLogOf(c, bytes, lines, stream, None)
  {
    hide Scan, IsLogOf;
    if Scan(c, bytes, stream, None).Some? {
      var lines := ScannedIsLog(c, bytes, stream, None);
    }
    if lines :| IsLogOf(c, bytes, lines, stream, None) {
      LogIsScanned(c, bytes, lines, stream, None);
    }
  }

  /** What a record's identity is the digest of. */
  function Preimage(c: Codec, record: Json): seq<byte>
    requires record.Object?
  {
    c.canonical(Object(record.fields - {"recordId"}))
  }

  /** Two records whose different contents have one digest. */
  ghost predicate Collide(c: Codec, r: Json, s: Json) {
    && r.Object? && s.Object?
    && Preimage(c, r) != Preimage(c, s) && c.digest(Preimage(c, r)) == c.digest(Preimage(c, s))
  }

  ghost predicate Collision(c: Codec, left: seq<Json>, right: seq<Json>) {
    exists i, j :: 0 <= i < |left| && 0 <= j < |right| && Collide(c, left[i], right[j])
  }

  /** Two valid records with one identity are the same record, or they collide. */
  lemma IdentityFixesRecord(c: Codec, r: Json, s: Json)
    requires Lawful(c)
    requires ValidRecord(c, r) && ValidRecord(c, s) && IdOf(r) == IdOf(s)
    ensures r == s || Collide(c, r, s)
  {
    if !Collide(c, r, s) {
      var a, b := Object(r.fields - {"recordId"}), Object(s.fields - {"recordId"});
      assert c.digest(c.canonical(a)) == c.digest(c.canonical(b));
      assert c.canonical(a) == c.canonical(b);
      assert c.parse(c.canonical(a)) == Some(a) && c.parse(c.canonical(b)) == Some(b);
      assert a.fields == b.fields;
      forall k | k in FIELDS ensures r.fields[k] == s.fields[k] {
        if k != "recordId" {
          assert r.fields[k] == a.fields[k] && s.fields[k] == b.fields[k];
        }
      }
      assert r.fields == s.fields;
    }
  }

  lemma {:induction false} LastIdentityFixesChain(c: Codec, left: seq<Json>, right: seq<Json>)
    requires Lawful(c)
    requires Linked(c, left, Null) && Linked(c, right, Null)
    requires left != [] && right != [] && IdOf(left[|left| - 1]) == IdOf(right[|right| - 1])
    ensures left == right || Collision(c, left, right)
    decreases |left|
  {
    hide ValidRecord, Lawful, Collide;
    var m, n := |left| - 1, |right| - 1;
    IdentityFixesRecord(c, left[m], right[n]);
    if !Collide(c, left[m], right[n]) {
      HasPredecessor(c, left);
      HasPredecessor(c, right);
      assert left == left[..m] + [left[m]] && right == right[..n] + [right[n]];
      if m > 0 {
        LastIdentityFixesChain(c, left[..m], right[..n]);
        if Collision(c, left[..m], right[..n]) {
          var i, j :| 0 <= i < m && 0 <= j < n && Collide(c, left[..m][i], right[..n][j]);
          assert Collide(c, left[i], right[j]);
        }
      }
    }
  }

  /** Only the first record of a chain has no predecessor. */
  lemma HasPredecessor(c: Codec, records: seq<Json>)
    requires Linked(c, records, Null) && records != []
    ensures var n := |records| - 1;
      && PreviousOf(records[n]) == (if n == 0 then Null else IdOf(records[n - 1]))
      && (PreviousOf(records[n]) == Null <==> n == 0)
      && Linked(c, records[..n], Null)
  {
    var n := |records| - 1;
    if n > 0 {
      assert ValidRecord(c, records[n - 1]);
      assert PreviousOf(records[n]) == IdOf(records[n - 1]);
    }
    hide ValidRecord;
  }

  /** Two logs that the scan accepts for a stream and that end in one record identity
      hold the same records of that stream, however other streams are interleaved, or
      they exhibit two different contents with one digest. */
  lemma SameEndOrCollision(c: Codec, left: seq<byte>, right: seq<byte>, stream: Json, a: Json, b: Json)
    requires Lawful(c)
    requires Scan(c, left, stream, None) == Some(Some(a)) && Scan(c, right, stream, None) == Some(Some(b))
    requires IdOf(a) == IdOf(b)
    ensures StreamLines(c, left, stream) == StreamLines(c, right, stream)
         || Collision(c, StreamLines(c, left, stream), StreamLines(c, right, stream))
  {
    hide Scan, StreamLines, ValidRecord;
    AcceptedIsLinked(c, left, stream, None);
    AcceptedIsLinked(c, right, stream, None);
    LastIdentityFixesChain(c, StreamLines(c, left, stream), StreamLines(c, right, stream));
  }

  /** With an injective digest the last identity fixes the whole stream. */
  lemma LastIdentityFixesStream(c: Codec, left: seq<byte>, right: seq<byte>, stream: Json, a: Json, b: Json)
    requires Lawful(c) && Injective(c.digest)
    requires Scan(c, left, stream, None) == Some(Some(a)) && Scan(c, right, stream, None) == Some(Some(b))
    requires IdOf(a) == IdOf(b)
    ensures StreamLines(c, left, stream) == StreamLines(c, right, stream)
  {
    hide Scan, StreamLines, Lawful;
    SameEndOrCollision(c, left, right, stream, a, b);
    forall r, s ensures !Collide(c, r, s) {
      assert r.Object? && s.Object? && c.digest(Preimage(c, r)) == c.digest(Preimage(c, s)) ==>
        Preimage(c, r) == Preimage(c, s);
    }
  }
}
