/** The names that code generators make out of operation names. */
module Names {
  import opened Wrappers
  import opened Sorting

  // ----- hyphenated parts

  /** `operation.split('-')`. */
  function Parts(operation: string): (parts: seq<string>)
    ensures parts != []
  {
    if operation == [] then [[]]
    else
      var n := |operation| - 1;
      var before := Parts(operation[..n]);
      var k := |before| - 1;
      if operation[n] == '-' then before + [[]] else before[..k] + [before[k] + [operation[n]]]
  }

  /** Every part with a hyphen before it. */
  function Hyphenated(parts: seq<string>): string {
    if parts == [] then [] else Hyphenated(parts[..|parts| - 1]) + ['-'] + parts[|parts| - 1]
  }

  lemma {:induction false} PartsRejoin(operation: string)
    ensures Hyphenated(Parts(operation)) == ['-'] + operation
  {
    if operation != [] {
      var n := |operation| - 1;
      var before := Parts(operation[..n]);
      var k := |before| - 1;
      PartsRejoin(operation[..n]);
      assert operation == operation[..n] + [operation[n]];
      var parts := Parts(operation);
      if operation[n] == '-' {
        assert parts[..|before|] == before;
      } else {
        assert parts[..k] == before[..k];
        assert Hyphenated(before) == Hyphenated(before[..k]) + ['-'] + before[k];
        assert Hyphenated(parts) == Hyphenated(before) + [operation[n]];
      }
    }
  }

  // ----- characters

  predicate Lower(c: char) { 'a' <= c <= 'z' }
  predicate Upper(c: char) { 'A' <= c <= 'Z' }
  predicate Digit(c: char) { '0' <= c <= '9' }

  function ToUpper(c: char): char {
    if Lower(c) then (c as int - 32) as char else c
  }

  function ToLower(c: char): char {
    if Upper(c) then (c as int + 32) as char else c
  }

  // ----- the Rust marker

  predicate Accepted(part: string) {
    part != [] && Lower(part[0]) && forall i | 0 < i < |part| :: Lower(part[i]) || Digit(part[i])
  }

  predicate Supported(operation: string) {
    AllAccepted(Parts(operation))
  }

  function Capital(part: string): string
    requires part != []
  {
    [ToUpper(part[0])] + part[1..]
  }

  predicate AllAccepted(parts: seq<string>) {
    forall i | 0 <= i < |parts| :: Accepted(parts[i])
  }

  function Camel(parts: seq<string>): string
    requires AllAccepted(parts)
  {
    if parts == [] then [] else Camel(parts[..|parts| - 1]) + Capital(parts[|parts| - 1])
  }

  function Marker(operation: string): string
    requires Supported(operation)
  {
    Camel(Parts(operation))
  }

  datatype NameError = EmptyComponent | Unsupported | Duplicate(name: string)

  /** `marker_name`, as it pushes onto its result part by part. */
  method MarkerName(operation: string) returns (r: Result<string, NameError>)
    ensures r.Ok? <==> Supported(operation)
    ensures r.Ok? ==> r.value == Marker(operation)
  {
    var parts := Parts(operation);
    var name := "";
    for i := 0 to |parts|
      invariant AllAccepted(parts[..i])
      invariant name == Camel(parts[..i])
    {
      var part := parts[i];
      if part == [] { return Err(EmptyComponent); }
      var lower := Lower(part[0]);
      for k := 1 to |part|
        invariant lower <==> Lower(part[0]) && forall j | 0 < j < k :: Lower(part[j]) || Digit(part[j])
      {
        lower := lower && (Lower(part[k]) || Digit(part[k]));
      }
      if !lower { return Err(Unsupported); }
      assert parts[..i + 1][..i] == parts[..i];
      name := name + Capital(part);
    }
    assert parts[..|parts|] == parts;
    r := Ok(name);
  }

  // ----- reading a marker back

  function Spread(name: string): string {
    if name == [] then []
    else
      var c := name[|name| - 1];
      Spread(name[..|name| - 1]) + if Upper(c) then ['-', ToLower(c)] else [c]
  }

  /** The operation a marker came from: a hyphen before every capital but the first. */
  function Operation(marker: string): string {
    if Spread(marker) == [] then [] else Spread(marker)[1..]
  }

  lemma {:induction false} SpreadConcat(a: string, b: string)
    ensures Spread(a + b) == Spread(a) + Spread(b)
  {
    if b == [] {
      assert a + b == a;
    } else {
      var n := |b| - 1;
      SpreadConcat(a, b[..n]);
      assert (a + b)[..|a| + n] == a + b[..n];
    }
  }

  lemma {:induction false} SpreadPlain(word: string)
    requires forall i | 0 <= i < |word| :: !Upper(word[i])
    ensures Spread(word) == word
  {
    if word != [] {
      SpreadPlain(word[..|word| - 1]);
      assert word == word[..|word| - 1] + [word[|word| - 1]];
    }
  }

  lemma SpreadCapital(part: string)
    requires Accepted(part)
    ensures Spread(Capital(part)) == ['-'] + part
  {
    var rest := part[1..];
    SpreadPlain(rest);
    SpreadInitial(part[0]);
    hide Spread, ToUpper;
    SpreadConcat([ToUpper(part[0])], rest);
    assert part == [part[0]] + rest;
  }

  lemma SpreadInitial(c: char)
    requires Lower(c)
    ensures Spread([ToUpper(c)]) == ['-', c]
  {
    assert [ToUpper(c)][..0] == [];
  }

  lemma {:induction false} SpreadCamel(parts: seq<string>)
    requires AllAccepted(parts)
    ensures Spread(Camel(parts)) == Hyphenated(parts)
  {
    if parts != [] {
      var n := |parts| - 1;
      SpreadCamel(parts[..n]);
      SpreadConcat(Camel(parts[..n]), Capital(parts[n]));
      SpreadCapital(parts[n]);
    }
  }

  /** A marker decodes back to its operation. */
  lemma MarkerDecodes(operation: string)
    requires Supported(operation)
    ensures Operation(Marker(operation)) == operation
  {
    SpreadCamel(Parts(operation));
    PartsRejoin(operation);
  }

  lemma MarkersAreDistinct(a: string, b: string)
    requires Supported(a) && Supported(b)
    ensures Marker(a) == Marker(b) <==> a == b
  {
    MarkerDecodes(a);
    MarkerDecodes(b);
  }

  /** The duplicate check of `render`: on supported operations it fires exactly when
      an operation is repeated. */
  method Markers(operations: seq<string>) returns (r: Result<seq<string>, NameError>)
    ensures r.Ok? <==> (forall i | 0 <= i < |operations| :: Supported(operations[i])) && Distinct(operations)
    ensures r.Ok? ==> |r.value| == |operations| && Distinct(r.value)
                      && forall i | 0 <= i < |operations| :: r.value[i] == Marker(operations[i])
    ensures r.Err? && r.error.Duplicate? ==> !Distinct(operations)
  {
    hide Supported, Marker;
    var names: set<string> := {};
    var list: seq<string> := [];
    for i := 0 to |operations|
      invariant |list| == i && names == set x | x in list
      invariant Distinct(list) && Distinct(operations[..i])
      invariant forall j | 0 <= j < i :: Supported(operations[j]) && list[j] == Marker(operations[j])
    {
      var name := MarkerName(operations[i]);
      if name.Err? { return Err(if name.error.Duplicate? then Unsupported else name.error); }
      if name.value in names {
        var j :| 0 <= j < |list| && list[j] == name.value;
        MarkersAreDistinct(operations[j], operations[i]);
        assert operations[j] == operations[i];
        return Err(Duplicate(name.value));
      }
      forall j | 0 <= j < i ensures operations[j] != operations[i] {
        MarkersAreDistinct(operations[j], operations[i]);
        assert list[j] in names;
      }
      list := list + [name.value];
      names := names + {name.value};
    }
    assert operations[..|operations|] == operations;
    r := Ok(list);
  }

  // ----- the .NET member and the Java constant

  /** `str.capitalize`. */
  function Capitalized(part: string): string {
    if part == [] then [] else [ToUpper(part[0])] + Lowered(part[1..])
  }

  function Lowered(word: string): string {
    seq(|word|, i requires 0 <= i < |word| => ToLower(word[i]))
  }

  function Joined(parts: seq<string>): string {
    if parts == [] then [] else Joined(parts[..|parts| - 1]) + Capitalized(parts[|parts| - 1])
  }

  function MemberName(operation: string): string {
    Joined(Parts(operation))
  }

  lemma {:induction false} JoinedIsCamel(parts: seq<string>)
    requires AllAccepted(parts)
    ensures Joined(parts) == Camel(parts)
  {
    if parts != [] {
      var n := |parts| - 1;
      JoinedIsCamel(parts[..n]);
      assert Lowered(parts[n][1..]) == parts[n][1..];
    }
  }

  /** .NET members are the Rust markers. */
  lemma MemberIsMarker(operation: string)
    requires Supported(operation)
    ensures MemberName(operation) == Marker(operation)
  {
    JoinedIsCamel(Parts(operation));
  }

  function EnumChar(c: char): char {
    if c == '-' then '_' else ToUpper(c)
  }

  function EnumName(operation: string): string {
    seq(|operation|, i requires 0 <= i < |operation| => EnumChar(operation[i]))
  }

  predicate Hyphened(operation: string) {
    forall i | 0 <= i < |operation| :: Lower(operation[i]) || Digit(operation[i]) || operation[i] == '-'
  }

  lemma {:induction false} SupportedIsHyphened(operation: string)
    requires forall i | 0 <= i < |Parts(operation)| :: Hyphened(Parts(operation)[i])
    ensures Hyphened(operation)
  {
    if operation != [] {
      var n := |operation| - 1;
      var before, parts := Parts(operation[..n]), Parts(operation);
      var k := |before| - 1;
      assert forall i | 0 <= i < k :: before[i] == parts[i];
      if operation[n] == '-' {
        assert parts[k] == before[k];
      } else {
        assert parts[k] == before[k] + [operation[n]];
        assert parts[k][|before[k]|] == operation[n];
        assert forall i | 0 <= i < |before[k]| :: parts[k][i] == before[k][i];
      }
      SupportedIsHyphened(operation[..n]);
      assert operation == operation[..n] + [operation[n]];
    }
  }

  lemma EnumNamesAreDistinct(a: string, b: string)
    requires Supported(a) && Supported(b)
    ensures EnumName(a) == EnumName(b) <==> a == b
  {
    SupportedIsHyphened(a);
    SupportedIsHyphened(b);
    if EnumName(a) == EnumName(b) {
      assert |a| == |EnumName(a)| == |EnumName(b)| == |b|;
      forall i | 0 <= i < |a| ensures a[i] == b[i] {
        assert EnumName(a)[i] == EnumName(b)[i];
      }
    }
  }
}
