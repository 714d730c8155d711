/** Byte strings: fixed-width big-endian integers and the byte order that every
    sort in the repository uses. */
module Bytes {

  type byte = x: int | 0 <= x < 256

  /** The number of values that fit in `width` bytes. */
  function Capacity(width: nat): (r: nat)
    ensures r >= 1
  {
    if width == 0 then 1 else 256 * Capacity(width - 1)
  }

  /** `int.to_bytes(width, "big")` and `u32::to_be_bytes` and friends. */
  function BigEndian(value: nat, width: nat): (r: seq<byte>)
    requires value < Capacity(width)
    ensures |r| == width
  {
    if width == 0 then [] else BigEndian(value / 256, width - 1) + [value % 256]
  }

  function FromBigEndian(digits: seq<byte>): (r: nat)
    ensures r < Capacity(|digits|)
  {
    if digits == [] then 0
    else FromBigEndian(digits[..|digits| - 1]) * 256 + digits[|digits| - 1]
  }

  lemma {:induction false} BigEndianDecodes(value: nat, width: nat)
    requires value < Capacity(width)
    ensures FromBigEndian(BigEndian(value, width)) == value
  {
    if width > 0 {
      BigEndianDecodes(value / 256, width - 1);
      assert BigEndian(value, width)[..width - 1] == BigEndian(value / 256, width - 1);
    }
  }

  lemma {:induction false} BigEndianCanonical(digits: seq<byte>)
    ensures BigEndian(FromBigEndian(digits), |digits|) == digits
  {
    if digits != [] {
      var init, last := digits[..|digits| - 1], digits[|digits| - 1];
      BigEndianCanonical(init);
      assert FromBigEndian(digits) / 256 == FromBigEndian(init);
      assert FromBigEndian(digits) % 256 == last;
      assert init + [last] == digits;
    }
  }

  lemma WordCapacities()
    ensures Capacity(2) == 0x1_0000
    ensures Capacity(4) == 0x1_0000_0000
    ensures Capacity(8) == 0x1_0000_0000_0000_0000
  {
    assert Capacity(3) == 0x100_0000;
    assert Capacity(5) == 0x100_0000_0000;
    assert Capacity(6) == 0x1_0000_0000_0000;
    assert Capacity(7) == 0x100_0000_0000_0000;
  }

  /** Lexicographic order on unsigned bytes. */
  predicate Le(a: seq<byte>, b: seq<byte>) {
    a == [] ||
    (b != [] && (a[0] < b[0] || (a[0] == b[0] && Le(a[1..], b[1..]))))
  }

  predicate Lt(a: seq<byte>, b: seq<byte>) {
    Le(a, b) && a != b
  }

  lemma {:induction false} LeTotal(a: seq<byte>, b: seq<byte>)
    ensures Le(a, b) || Le(b, a)
  {
    if a != [] && b != [] {
      LeTotal(a[1..], b[1..]);
    }
  }

  lemma {:induction false} LeAntisymmetric(a: seq<byte>, b: seq<byte>)
    requires Le(a, b) && Le(b, a)
    ensures a == b
  {
    if a != [] {
      LeAntisymmetric(a[1..], b[1..]);
      assert a == [a[0]] + a[1..] && b == [b[0]] + b[1..];
    }
  }

  lemma {:induction false} LeTransitive(a: seq<byte>, b: seq<byte>, c: seq<byte>)
    requires Le(a, b) && Le(b, c)
    ensures Le(a, c)
  {
    if a != [] && a[0] == b[0] == c[0] {
      LeTransitive(a[1..], b[1..], c[1..]);
    }
  }

  lemma {:induction false} LeReflexive(a: seq<byte>)
    ensures Le(a, a)
  {
    if a != [] {
      LeReflexive(a[1..]);
    }
  }

  /** A finite nonempty set of byte strings has a least element. */
  lemma {:induction false} LeastExists(keys: set<seq<byte>>) returns (least: seq<byte>)
    requires keys != {}
    ensures least in keys && forall k | k in keys :: Le(least, k)
  {
    var some :| some in keys;
    if keys == {some} {
      LeReflexive(some);
      least := some;
    } else {
      var rest := LeastExists(keys - {some});
      LeTotal(some, rest);
      LeReflexive(some);
      least := if Le(some, rest) then some else rest;
      forall k | k in keys ensures Le(least, k) {
        if k != some && least == some {
          LeTransitive(some, rest, k);
        }
      }
    }
  }

  const U64_MAX := 0xffff_ffff_ffff_ffff

  /** The bytes of an ASCII literal. */
  function Ascii(s: string): seq<byte> {
    seq(|s|, i requires 0 <= i < |s| => if s[i] < 128 as char then s[i] as int as byte else 63)
  }

  /** The least key of a nonempty set, as an ordered map yields it. */
  method TakeLeast(keys: set<seq<byte>>) returns (least: seq<byte>)
    requires keys != {}
    ensures least in keys && forall k | k in keys :: Le(least, k)
  {
    ghost var some := LeastExists(keys);
    least :| least in keys && forall k | k in keys :: Le(least, k);
  }

  lemma LeastIsBelow(keys: set<seq<byte>>, least: seq<byte>)
    requires forall k | k in keys :: Le(least, k)
    ensures forall k | k in keys && k != least :: Lt(least, k)
  {
  }

  /** `sorted(keys)` by bytes. */
  method SortedKeys(keys: set<seq<byte>>) returns (sorted: seq<seq<byte>>)
    ensures forall i, j | 0 <= i < j < |sorted| :: Lt(sorted[i], sorted[j])
    ensures forall k :: k in sorted <==> k in keys
  {
    sorted := [];
    var remaining := keys;
    while remaining != {}
      invariant remaining <= keys
      invariant forall i, j | 0 <= i < j < |sorted| :: Lt(sorted[i], sorted[j])
      invariant forall i, next | 0 <= i < |sorted| && next in remaining :: Lt(sorted[i], next)
      invariant forall k :: k in sorted <==> k in keys && k !in remaining
    {
      var key := TakeLeast(remaining);
      LeastIsBelow(remaining, key);
      sorted := sorted + [key];
      remaining := remaining - {key};
    }
  }

  /** The ascending listing of a set. */
  ghost predicate Listing(list: seq<seq<byte>>, keys: set<seq<byte>>) {
    && (forall i, j | 0 <= i < j < |list| :: Lt(list[i], list[j]))
    && (forall k :: k in list <==> k in keys)
  }

  lemma {:induction false} ListingIsUnique(a: seq<seq<byte>>, b: seq<seq<byte>>, keys: set<seq<byte>>)
    requires Listing(a, keys) && Listing(b, keys)
    ensures a == b
    decreases |a|
  {
    assert (a == [] || a[0] in b) && (b == [] || b[0] in a);
    if a != [] {
      var n, m := |a| - 1, |b| - 1;
      assert a[n] in keys && b[m] in keys;
      LastIsGreatest(a, keys, b[m]);
      LastIsGreatest(b, keys, a[n]);
      LeAntisymmetric(a[n], b[m]);
      FrontListing(a, keys);
      FrontListing(b, keys);
      hide *;
      ListingIsUnique(a[..n], b[..m], keys - {a[n]});
      assert a == a[..n] + [a[n]] && b == b[..m] + [b[m]];
    }
  }

  lemma LastIsGreatest(a: seq<seq<byte>>, keys: set<seq<byte>>, k: seq<byte>)
    requires Listing(a, keys) && k in keys
    ensures a != [] && Le(k, a[|a| - 1])
  {
    var i :| 0 <= i < |a| && a[i] == k;
    LeReflexive(k);
  }

  lemma FrontListing(a: seq<seq<byte>>, keys: set<seq<byte>>)
    requires Listing(a, keys) && a != []
    ensures Listing(a[..|a| - 1], keys - {a[|a| - 1]})
  {
    var n := |a| - 1;
    forall k ensures k in a[..n] <==> k in keys - {a[n]} {
      if k in a[..n] {
        var i :| 0 <= i < n && a[i] == k;
        assert Lt(a[i], a[n]) && k in a;
      }
    }
  }
}
