/** The physical write-batch encoding of the key-value engine: one batch is the
    payload of one write-ahead frame. */
module Batch {
  import opened Bytes
  import opened Wrappers

  const BATCH_MAGIC: seq<byte> := [82, 82, 68, 66, 65, 84, 48, 50]   // "RRDBAT02"
  const BATCH_FORMAT_VERSION := 2
  const BATCH_HEADER_BYTES := 16
  const OP_HEADER_BYTES := 8
  const DELETE_TAG := 0x8000_0000
  const MAX_OPERATIONS := 1_000_000
  const MAX_KEY_BYTES := 1024 * 1024
  const MAX_VALUE_BYTES := 8 * 1024 * 1024
  const MAX_PAYLOAD_BYTES := 16 * 1024 * 1024

  type Key = seq<byte>
  type Value = seq<byte>

  datatype Mutation = Put(key: Key, value: Value) | Delete(key: Key)

  predicate ValidMutation(m: Mutation) {
    && 1 <= |m.key| <= MAX_KEY_BYTES
    && (m.Put? ==> |m.value| <= MAX_VALUE_BYTES)
  }

  function EncodedLength(operations: seq<Mutation>): nat {
    if operations == [] then BATCH_HEADER_BYTES
    else
      var m := operations[|operations| - 1];
      EncodedLength(operations[..|operations| - 1])
      + OP_HEADER_BYTES + |m.key| + (if m.Put? then |m.value| else 0)
  }

  /** What `WriteBatch::new` admits. */
  predicate ValidBatch(operations: seq<Mutation>) {
    && 1 <= |operations| <= MAX_OPERATIONS
    && (forall i | 0 <= i < |operations| :: ValidMutation(operations[i]))
    && EncodedLength(operations) <= MAX_PAYLOAD_BYTES
  }

  function EncodeMutation(m: Mutation): seq<byte>
    requires ValidMutation(m)
  {
    WordCapacities();
    BigEndian(|m.key|, 4)
    + BigEndian(if m.Put? then |m.value| else DELETE_TAG, 4)
    + m.key
    + (if m.Put? then m.value else [])
  }

  function EncodeMutations(operations: seq<Mutation>): seq<byte>
    requires forall i | 0 <= i < |operations| :: ValidMutation(operations[i])
  {
    if operations == [] then []
    else EncodeMutation(operations[0]) + EncodeMutations(operations[1..])
  }

  function BatchHeader(count: nat): (r: seq<byte>)
    requires count <= MAX_OPERATIONS
    ensures |r| == BATCH_HEADER_BYTES
  {
    WordCapacities();
    BATCH_MAGIC + BigEndian(BATCH_FORMAT_VERSION, 2) + BigEndian(0, 2) + BigEndian(count, 4)
  }

  function Encode(operations: seq<Mutation>): seq<byte>
    requires ValidBatch(operations)
  {
    BatchHeader(|operations|) + EncodeMutations(operations)
  }

  /** One operation from the front of `bytes`, with the number of bytes it takes. */
  function DecodeMutation(bytes: seq<byte>): Option<(Mutation, nat)> {
    if |bytes| < OP_HEADER_BYTES then None
    else
      var keyLength := FromBigEndian(bytes[0..4]);
      var tagged := FromBigEndian(bytes[4..8]);
      var delete := tagged >= DELETE_TAG;
      var valueLength := if delete then tagged - DELETE_TAG else tagged;
      if delete && valueLength != 0 then None
      else if keyLength == 0 || keyLength > MAX_KEY_BYTES || valueLength > MAX_VALUE_BYTES then None
      else if OP_HEADER_BYTES + keyLength + valueLength > |bytes| then None
      else
        var key := bytes[8..8 + keyLength];
        Some((if delete then Delete(key) else Put(key, bytes[8 + keyLength..8 + keyLength + valueLength]),
              OP_HEADER_BYTES + keyLength + valueLength))
  }

  /** Exactly `count` operations filling `bytes`. */
  function DecodeMutations(bytes: seq<byte>, count: nat): Option<seq<Mutation>> {
    if count == 0 then
      if bytes == [] then Some([]) else None
    else
      match DecodeMutation(bytes)
      case None => None
      case Some((m, used)) =>
        if used > |bytes| then None
        else
          match DecodeMutations(bytes[used..], count - 1)
          case None => None
          case Some(rest) => Some([m] + rest)
  }

  predicate HeaderOk(bytes: seq<byte>) {
    && BATCH_HEADER_BYTES <= |bytes| <= MAX_PAYLOAD_BYTES
    && FromBigEndian(bytes[8..10]) == BATCH_FORMAT_VERSION
    && bytes[..8] == BATCH_MAGIC
    && bytes[10..12] == [0, 0]
    && 1 <= FromBigEndian(bytes[12..16]) <= MAX_OPERATIONS
  }

  function Decoded(bytes: seq<byte>): Option<seq<Mutation>> {
    if !HeaderOk(bytes) then None
    else
      match DecodeMutations(bytes[16..], FromBigEndian(bytes[12..16]))
      case None => None
      case Some(operations) => if ValidBatch(operations) then Some(operations) else None
  }

  /** The operation loop of `WriteBatch::decode`: a cursor walks the declared
      number of operations and must end at the last byte. */
  method DecodeBody(bytes: seq<byte>, count: nat) returns (r: Option<seq<Mutation>>)
    ensures r == DecodeMutations(bytes, count)
  {
    hide DecodeMutation;
    var cursor, operations, i := 0, [], 0;
    Prefixed0(DecodeMutations(bytes, count));
    assert bytes[0..] == bytes;
    while i < count
      invariant 0 <= i <= count
      invariant 0 <= cursor <= |bytes|
      invariant DecodeMutations(bytes, count)
             == Prefixed(operations, DecodeMutations(bytes[cursor..], count - i))
    {
      var decoded := DecodeMutation(bytes[cursor..]);
      if decoded.None? {
        return None;
      }
      DecodeStep(bytes, cursor, operations, count - i);
      var (m, used) := decoded.value;
      operations, cursor, i := operations + [m], cursor + used, i + 1;
    }
    assert operations + [] == operations;
    r := if cursor == |bytes| then Some(operations) else None;
  }

  method Decode(bytes: seq<byte>) returns (r: Option<seq<Mutation>>)
    ensures r == Decoded(bytes)
  {
    if !HeaderOk(bytes) {
      return None;
    }
    r := DecodeBody(bytes[16..], FromBigEndian(bytes[12..16]));
    if r.Some? && !ValidBatch(r.value) {
      r := None;
    }
  }

  lemma Prefixed0<T>(back: Option<seq<T>>)
    ensures Prefixed([], back) == back
  {
    assert back.Some? ==> [] + back.value == back.value;
  }

  lemma DecodeStep(bytes: seq<byte>, cursor: nat, front: seq<Mutation>, count: nat)
    requires cursor <= |bytes| && count > 0
    requires DecodeMutation(bytes[cursor..]).Some?
    ensures var (m, used) := DecodeMutation(bytes[cursor..]).value;
      && cursor + used <= |bytes|
      && Prefixed(front, DecodeMutations(bytes[cursor..], count))
      == Prefixed(front + [m], DecodeMutations(bytes[cursor + used..], count - 1))
  {
    var (m, used) := DecodeMutation(bytes[cursor..]).value;
    assert bytes[cursor..][used..] == bytes[cursor + used..];
    var rest := DecodeMutations(bytes[cursor + used..], count - 1);
    assert rest.Some? ==> front + ([m] + rest.value) == front + [m] + rest.value;
  }

  function Prefixed<T>(front: seq<T>, back: Option<seq<T>>): Option<seq<T>> {
    if back.None? then None else Some(front + back.value)
  }

  // ----- the codec is a bijection between valid batches and accepted payloads

  lemma Fields(a: seq<byte>, b: seq<byte>, c: seq<byte>, d: seq<byte>, rest: seq<byte>)
    requires |a| == 4 && |b| == 4
    ensures var bytes := a + b + c + d + rest;
      && bytes[0..4] == a && bytes[4..8] == b && bytes[8..8 + |c|] == c && bytes[8 + |c|..8 + |c| + |d|] == d
  {
  }

  lemma MutationRoundTrip(m: Mutation, rest: seq<byte>)
    requires ValidMutation(m)
    ensures DecodeMutation(EncodeMutation(m) + rest) == Some((m, |EncodeMutation(m)|))
  {
    hide BigEndian, FromBigEndian, Capacity;
    WordCapacities();
    var tag := if m.Put? then |m.value| else DELETE_TAG;
    var bytes := EncodeMutation(m) + rest;
    BigEndianDecodes(|m.key|, 4);
    BigEndianDecodes(tag, 4);
    Fields(BigEndian(|m.key|, 4), BigEndian(tag, 4), m.key, if m.Put? then m.value else [], rest);
  }

  lemma Pieces(bytes: seq<byte>, k: nat, used: nat)
    requires 8 + k <= used <= |bytes|
    ensures bytes[..used] == bytes[0..4] + bytes[4..8] + bytes[8..8 + k] + bytes[8 + k..used]
  {
    var front := bytes[..used];
    assert front[..8] == bytes[0..4] + bytes[4..8];
    assert front[..8 + k] == front[..8] + bytes[8..8 + k];
    assert front == front[..8 + k] + bytes[8 + k..used];
  }

  lemma MutationCanonical(bytes: seq<byte>)
    requires DecodeMutation(bytes).Some?
    ensures var (m, used) := DecodeMutation(bytes).value;
      ValidMutation(m) && OP_HEADER_BYTES < used <= |bytes| && EncodeMutation(m) == bytes[..used]
  {
    var (m, used) := DecodeMutation(bytes).value;
    BigEndianCanonical(bytes[0..4]);
    BigEndianCanonical(bytes[4..8]);
    Pieces(bytes, |m.key|, used);
  }

  lemma {:induction false} MutationsRoundTrip(operations: seq<Mutation>)
    requires forall i | 0 <= i < |operations| :: ValidMutation(operations[i])
    ensures DecodeMutations(EncodeMutations(operations), |operations|) == Some(operations)
  {
    if operations != [] {
      var head, tail := operations[0], operations[1..];
      MutationsRoundTrip(tail);
      MutationRoundTrip(head, EncodeMutations(tail));
      assert EncodeMutations(operations)[|EncodeMutation(head)|..] == EncodeMutations(tail);
      assert [head] + tail == operations;
    }
  }

  lemma {:induction false} MutationsCanonical(bytes: seq<byte>, count: nat)
    requires DecodeMutations(bytes, count).Some?
    ensures var operations := DecodeMutations(bytes, count).value;
      && |operations| == count
      && (forall i | 0 <= i < |operations| :: ValidMutation(operations[i]))
      && EncodeMutations(operations) == bytes
  {
    if count > 0 {
      MutationCanonical(bytes);
      var (m, used) := DecodeMutation(bytes).value;
      MutationsCanonical(bytes[used..], count - 1);
      var rest := DecodeMutations(bytes[used..], count - 1).value;
      assert ([m] + rest)[1..] == rest;
      assert bytes[..used] + bytes[used..] == bytes;
    }
  }

  lemma {:induction false} EncodedLengthIsExact(operations: seq<Mutation>)
    requires forall i | 0 <= i < |operations| :: ValidMutation(operations[i])
    ensures BATCH_HEADER_BYTES + |EncodeMutations(operations)| == EncodedLength(operations)
  {
    if operations != [] {
      var last := |operations| - 1;
      EncodedLengthIsExact(operations[..last]);
      EncodeAppend(operations[..last], operations[last]);
      assert operations[..last] + [operations[last]] == operations;
    }
  }

  lemma {:induction false} EncodeAppend(operations: seq<Mutation>, m: Mutation)
    requires ValidMutation(m)
    requires forall i | 0 <= i < |operations| :: ValidMutation(operations[i])
    ensures forall i | 0 <= i < |operations + [m]| :: ValidMutation((operations + [m])[i])
    ensures EncodeMutations(operations + [m]) == EncodeMutations(operations) + EncodeMutation(m)
  {
    hide EncodeMutation;
    if operations == [] {
      assert operations + [m] == [m] && [m][1..] == [];
      assert EncodeMutations([]) == [];
      assert EncodeMutations([m]) == EncodeMutation(m) + EncodeMutations([m][1..]);
    } else {
      EncodeAppend(operations[1..], m);
      assert (operations + [m])[1..] == operations[1..] + [m];
    }
  }

  lemma EncodeThenDecode(operations: seq<Mutation>)
    requires ValidBatch(operations)
    ensures Decoded(Encode(operations)) == Some(operations)
  {
    WordCapacities();
    var bytes := Encode(operations);
    BigEndianDecodes(|operations|, 4);
    BigEndianDecodes(BATCH_FORMAT_VERSION, 2);
    ZeroWord();
    assert bytes[..8] == BATCH_MAGIC;
    assert bytes[8..10] == BigEndian(BATCH_FORMAT_VERSION, 2);
    assert bytes[10..12] == BigEndian(0, 2);
    assert bytes[12..16] == BigEndian(|operations|, 4);
    assert bytes[16..] == EncodeMutations(operations);
    EncodedLengthIsExact(operations);
    MutationsRoundTrip(operations);
  }

  lemma DecodeThenEncode(bytes: seq<byte>)
    requires Decoded(bytes).Some?
    ensures ValidBatch(Decoded(bytes).value) && Encode(Decoded(bytes).value) == bytes
  {
    var count := FromBigEndian(bytes[12..16]);
    MutationsCanonical(bytes[16..], count);
    HeaderCanonical(bytes);
    assert bytes == bytes[..16] + bytes[16..];
  }

  lemma HeaderCanonical(bytes: seq<byte>)
    requires HeaderOk(bytes)
    ensures BatchHeader(FromBigEndian(bytes[12..16])) == bytes[..16]
  {
    BigEndianCanonical(bytes[8..10]);
    BigEndianCanonical(bytes[12..16]);
    ZeroWord();
    assert bytes[..16] == bytes[..8] + bytes[8..10] + bytes[10..12] + bytes[12..16];
  }

  /** `decode` accepts a payload if and only if it is the encoding of a valid
      batch, and then it returns that batch. */
  lemma DecodeInvertsEncode(operations: seq<Mutation>, bytes: seq<byte>)
    ensures (ValidBatch(operations) && Encode(operations) == bytes) <==> Decoded(bytes) == Some(operations)
  {
    if ValidBatch(operations) && Encode(operations) == bytes {
      EncodeThenDecode(operations);
    }
    if Decoded(bytes) == Some(operations) {
      DecodeThenEncode(bytes);
    }
  }

  /** The final validation never refuses: whatever passes the header checks and the
      cursor walk is within every limit of a batch. */
  lemma FinalValidationIsRedundant(bytes: seq<byte>)
    ensures Decoded(bytes).Some? <==> HeaderOk(bytes) && DecodeMutations(bytes[16..], FromBigEndian(bytes[12..16])).Some?
  {
    hide DecodeMutations;
    if HeaderOk(bytes) && DecodeMutations(bytes[16..], FromBigEndian(bytes[12..16])).Some? {
      var count := FromBigEndian(bytes[12..16]);
      MutationsCanonical(bytes[16..], count);
      EncodedLengthIsExact(DecodeMutations(bytes[16..], count).value);
    }
  }

  lemma ZeroWord()
    ensures BigEndian(0, 2) == [0, 0]
  {
    assert BigEndian(0, 1) == [0] by { assert BigEndian(0, 0) == []; }
  }
}
