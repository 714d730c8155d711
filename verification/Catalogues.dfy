/** From an OpenAPI document to its endpoints: the checker's canonical reading, the
    generators' reading, and when the generated files agree with the canonical one. */
module Catalogues {
  import opened Wrappers
  import opened Sorting
  import opened Names
  import opened Surfaces

  /** An operation: its identifier, the first security scheme, the mutation flag
      (none when it is absent or not Boolean). */
  datatype Operation = Operation(id: Option<string>, scheme: Option<string>, mutation: Option<bool>)

  datatype PathItem = PathItem(path: string, operations: seq<(string, Operation)>)

  type Document = seq<PathItem>

  datatype SurfaceError = AbsentOperationId(path: string) | MutationNotBoolean(path: string) | DuplicateOperationId(id: string)

  function AuthenticationOf(scheme: Option<string>): Authentication {
    if scheme == Some("rrdApiKey") then ApiKey
    else if scheme == Some("rrdBearer") then SessionBearer
    else Public
  }

  function Uppercase(s: string): string {
    seq(|s|, i requires 0 <= i < |s| => ToUpper(s[i]))
  }

  predicate Canonical(verb: string) {
    verb in {"get", "post", "delete"}
  }

  // ----- flat views of a document

  datatype Item = Item(path: string, verb: string, operation: Operation)

  function ItemsOf(path: string, operations: seq<(string, Operation)>): seq<Item> {
    seq(|operations|, i requires 0 <= i < |operations| => Item(path, operations[i].0, operations[i].1))
  }

  function Items(document: Document): seq<Item> {
    if document == [] then []
    else
      var last := document[|document| - 1];
      Items(document[..|document| - 1]) + ItemsOf(last.path, last.operations)
  }

  predicate Complete(item: Item) {
    item.operation.id.Some? && item.operation.mutation.Some?
  }

  function EndpointOf(item: Item): Endpoint
    requires Complete(item)
  {
    Endpoint(item.operation.id.value,
             Entry(Uppercase(item.verb), item.path, AuthenticationOf(item.operation.scheme), item.operation.mutation.value))
  }

  /** The endpoints of the items that satisfy `keep`; incomplete ones are passed over. */
  function Endpoints(keep: Item -> bool, items: seq<Item>): seq<Endpoint> {
    if items == [] then []
    else
      var last := items[|items| - 1];
      Endpoints(keep, items[..|items| - 1]) + if keep(last) && Complete(last) then [EndpointOf(last)] else []
  }

  predicate CanonicalItem(item: Item) { Canonical(item.verb) }
  predicate NamedItem(item: Item) { item.operation.id.Some? }

  function Ids(endpoints: seq<Endpoint>): seq<string> {
    seq(|endpoints|, i requires 0 <= i < |endpoints| => endpoints[i].operation)
  }

  // ----- the checker's reading

  ghost predicate CanonicallyValid(items: seq<Item>) {
    && (forall i | 0 <= i < |items| && CanonicalItem(items[i]) :: Complete(items[i]))
    && Distinct(Ids(Endpoints(CanonicalItem, items)))
  }

  lemma EndpointsGrow(keep: Item -> bool, items: seq<Item>, item: Item)
    ensures Endpoints(keep, items + [item]) ==
      Endpoints(keep, items) + if keep(item) && Complete(item) then [EndpointOf(item)] else []
  {
    assert (items + [item])[..|items|] == items;
  }

  lemma {:induction false} SurfaceKeys(endpoints: seq<Endpoint>)
    ensures forall k :: k in SurfaceOf(endpoints) <==> k in Ids(endpoints)
  {
    if endpoints != [] {
      var n := |endpoints| - 1;
      SurfaceKeys(endpoints[..n]);
      assert Ids(endpoints) == Ids(endpoints[..n]) + [endpoints[n].operation];
    }
  }

  /** One more canonical item keeps the reading valid exactly when it is complete and new. */
  lemma ValidGrows(items: seq<Item>, item: Item)
    requires CanonicallyValid(items)
    ensures CanonicallyValid(items + [item]) <==>
      (CanonicalItem(item) ==> Complete(item) && item.operation.id.value !in SurfaceOf(Endpoints(CanonicalItem, items)))
  {
    hide SurfaceOf, Endpoints;
    var before := Endpoints(CanonicalItem, items);
    assert before + [] == before;
    EndpointsGrow(CanonicalItem, items, item);
    SurfaceKeys(before);
    var all := items + [item];
    assert forall i | 0 <= i < |items| :: all[i] == items[i];
    assert all[|items|] == item;
    if CanonicalItem(item) && Complete(item) {
      assert Ids(before + [EndpointOf(item)]) == Ids(before) + [item.operation.id.value];
      DistinctGrows(Ids(before), item.operation.id.value);
    }
  }

  lemma DistinctGrows(ids: seq<string>, id: string)
    requires Distinct(ids)
    ensures Distinct(ids + [id]) <==> id !in ids
  {
    if id in ids {
      var i :| 0 <= i < |ids| && ids[i] == id;
      assert (ids + [id])[i] == (ids + [id])[|ids|];
    }
  }

  lemma {:induction false} ValidPrefix(items: seq<Item>, n: nat)
    requires n <= |items| && CanonicallyValid(items)
    ensures CanonicallyValid(items[..n])
    decreases |items| - n
  {
    if n < |items| {
      ValidPrefix(items, n + 1);
      assert items[..n + 1][..n] == items[..n];
      var front := items[..n + 1];
      assert Endpoints(CanonicalItem, items[..n]) <= Endpoints(CanonicalItem, front);
      assert forall i | 0 <= i < n :: front[i] == items[..n][i];
      forall i, j | 0 <= i < j < |Ids(Endpoints(CanonicalItem, items[..n]))|
        ensures Ids(Endpoints(CanonicalItem, items[..n]))[i] != Ids(Endpoints(CanonicalItem, items[..n]))[j]
      {
        assert Ids(Endpoints(CanonicalItem, front))[i] != Ids(Endpoints(CanonicalItem, front))[j];
      }
    } else {
      assert items[..n] == items;
    }
  }

  lemma InvalidStays(done: seq<Item>, item: Item, rest: seq<Item>)
    requires !CanonicallyValid(done + [item])
    ensures !CanonicallyValid(done + [item] + rest)
  {
    var all := done + [item] + rest;
    assert all[..|done| + 1] == done + [item];
    if CanonicallyValid(all) { ValidPrefix(all, |done| + 1); }
  }

  lemma {:induction false} ItemsSplit(document: Document, i: nat)
    requires i < |document|
    ensures exists rest ::
      Items(document) == Items(document[..i]) + ItemsOf(document[i].path, document[i].operations) + rest
  {
    var n := |document| - 1;
    if i == n {
      assert Items(document) == Items(document[..i]) + ItemsOf(document[i].path, document[i].operations) + [];
    } else {
      ItemsSplit(document[..n], i);
      assert document[..n][..i] == document[..i];
      var rest :| Items(document[..n]) == Items(document[..i]) + ItemsOf(document[i].path, document[i].operations) + rest;
      var last := ItemsOf(document[n].path, document[n].operations);
      assert Items(document) == Items(document[..i]) + ItemsOf(document[i].path, document[i].operations) + (rest + last);
    }
  }

  /** `canonical_endpoints`: it fails exactly on a canonical operation without an
      identifier or a Boolean mutation flag, or on a repeated identifier. */
  method CanonicalEndpoints(document: Document) returns (r: Result<Surface, SurfaceError>)
    ensures r.Ok? <==> CanonicallyValid(Items(document))
    ensures r.Ok? ==> r.value == SurfaceOf(Endpoints(CanonicalItem, Items(document)))
  {
    hide CanonicallyValid, Items, ItemsOf, SurfaceOf, Endpoints;
    var surface: Surface := map[];
    Nothing();
    for i := 0 to |document|
      invariant CanonicallyValid(Items(document[..i]))
      invariant surface == SurfaceOf(Endpoints(CanonicalItem, Items(document[..i])))
    {
      var path, operations := document[i].path, document[i].operations;
      ghost var before := Items(document[..i]);
      ItemsStart(path, operations, before);
      for j := 0 to |operations|
        invariant CanonicallyValid(before + ItemsOf(path, operations[..j]))
        invariant surface == SurfaceOf(Endpoints(CanonicalItem, before + ItemsOf(path, operations[..j])))
      {
        var verb, operation := operations[j].0, operations[j].1;
        ghost var done := before + ItemsOf(path, operations[..j]);
        ghost var item := Item(path, verb, operation);
        ItemsStep(path, operations, j, before);
        ValidGrows(done, item);
        SurfaceGrows(done, item);
        ItemsRest(document, i, j);
        ghost var rest :| Items(document) == done + [item] + rest;
        if Canonical(verb) {
          if operation.id.None? {
            InvalidStays(done, item, rest);
            return Err(AbsentOperationId(path));
          }
          if operation.mutation.None? {
            InvalidStays(done, item, rest);
            return Err(MutationNotBoolean(path));
          }
          if operation.id.value in surface {
            InvalidStays(done, item, rest);
            return Err(DuplicateOperationId(operation.id.value));
          }
          surface := surface[operation.id.value :=
            Entry(Uppercase(verb), path, AuthenticationOf(operation.scheme), operation.mutation.value)];
        }
      }
      ItemsNext(document, i);
    }
    assert document[..|document|] == document;
    r := Ok(surface);
  }

  lemma Nothing()
    ensures Items([]) == [] && CanonicallyValid([]) && SurfaceOf(Endpoints(CanonicalItem, [])) == map[]
  {
  }

  lemma ItemsStart(path: string, operations: seq<(string, Operation)>, before: seq<Item>)
    ensures before + ItemsOf(path, operations[..0]) == before
  {
  }

  lemma ItemsStep(path: string, operations: seq<(string, Operation)>, j: nat, before: seq<Item>)
    requires j < |operations|
    ensures before + ItemsOf(path, operations[..j + 1]) ==
      before + ItemsOf(path, operations[..j]) + [Item(path, operations[j].0, operations[j].1)]
  {
  }

  lemma ItemsNext(document: Document, i: nat)
    requires i < |document|
    ensures var ops := document[i].operations;
      Items(document[..i + 1]) == Items(document[..i]) + ItemsOf(document[i].path, ops[..|ops|])
  {
    assert document[..i + 1][..i] == document[..i];
    var ops := document[i].operations;
    assert ops[..|ops|] == ops;
  }

  lemma ItemsRest(document: Document, i: nat, j: nat)
    requires i < |document| && j < |document[i].operations|
    ensures var path, ops := document[i].path, document[i].operations;
      exists rest ::
        Items(document) == Items(document[..i]) + ItemsOf(path, ops[..j]) + [Item(path, ops[j].0, ops[j].1)] + rest
  {
    ItemsSplit(document, i);
    var path, ops := document[i].path, document[i].operations;
    var rest :| Items(document) == Items(document[..i]) + ItemsOf(path, ops) + rest;
    assert ItemsOf(path, ops) == ItemsOf(path, ops[..j]) + [Item(path, ops[j].0, ops[j].1)] + ItemsOf(path, ops[j + 1..]);
    assert Items(document) == Items(document[..i]) + ItemsOf(path, ops[..j]) + [Item(path, ops[j].0, ops[j].1)]
      + (ItemsOf(path, ops[j + 1..]) + rest);
  }

  lemma SurfaceGrows(done: seq<Item>, item: Item)
    ensures SurfaceOf(Endpoints(CanonicalItem, done + [item])) ==
      if CanonicalItem(item) && Complete(item) then
        SurfaceOf(Endpoints(CanonicalItem, done))[item.operation.id.value := EndpointOf(item).entry]
      else SurfaceOf(Endpoints(CanonicalItem, done))
  {
    EndpointsGrow(CanonicalItem, done, item);
    var before := Endpoints(CanonicalItem, done);
    assert before + [] == before;
    if CanonicalItem(item) && Complete(item) {
      assert (before + [EndpointOf(item)])[..|before|] == before;
    }
  }

  // ----- the generators' reading

  function StringLe(a: string, b: string): bool {
    if a == [] then true
    else if b == [] then false
    else a[0] < b[0] || (a[0] == b[0] && StringLe(a[1..], b[1..]))
  }

  /** `endpoints.sort()`: tuples of operation, method, path, authentication, flag. */
  predicate EndpointLe(names: Authentication -> string, a: Endpoint, b: Endpoint) {
    if a.operation != b.operation then StringLe(a.operation, b.operation)
    else if a.entry.verb != b.entry.verb then StringLe(a.entry.verb, b.entry.verb)
    else if a.entry.path != b.entry.path then StringLe(a.entry.path, b.entry.path)
    else if a.entry.authentication != b.entry.authentication then
      StringLe(names(a.entry.authentication), names(b.entry.authentication))
    else a.entry.mutation ==> b.entry.mutation
  }

  predicate JavaLe(a: Endpoint, b: Endpoint) { EndpointLe(JavaName, a, b) }
  predicate DotnetLe(a: Endpoint, b: Endpoint) { EndpointLe(DotnetName, a, b) }

  /** Every named operation, whatever its method. */
  function Generated(document: Document): seq<Endpoint> {
    Endpoints(NamedItem, Items(document))
  }

  function RenderJava(digest: string, document: Document): seq<string> {
    JavaFile(digest, Sort(JavaLe, Generated(document)))
  }

  function RenderDotnet(digest: string, count: string, document: Document): seq<string> {
    DotnetFile(digest, count, Sort(DotnetLe, Generated(document)))
  }

  /** Named operations carry a flag, distinct identifiers and printable fields: what
      the contract crate promises of the document it exports. */
  ghost predicate WellFormed(document: Document) {
    && (forall i | 0 <= i < |Items(document)| && NamedItem(Items(document)[i]) :: Complete(Items(document)[i]))
    && Distinct(Ids(Generated(document)))
    && (forall i | 0 <= i < |Generated(document)| :: Printable(Generated(document)[i]))
  }

  // ----- order does not matter

  lemma {:induction false} SurfaceAt(endpoints: seq<Endpoint>, e: Endpoint)
    requires Distinct(Ids(endpoints)) && e in endpoints
    ensures e.operation in SurfaceOf(endpoints) && SurfaceOf(endpoints)[e.operation] == e.entry
  {
    var n := |endpoints| - 1;
    var k :| 0 <= k < |endpoints| && endpoints[k] == e;
    assert Ids(endpoints)[k] == e.operation;
    if k < n {
      assert Ids(endpoints)[n] != e.operation;
      assert Ids(endpoints[..n]) == Ids(endpoints)[..n];
      assert endpoints[..n][k] == e;
      SurfaceAt(endpoints[..n], e);
    }
  }

  function IdOf(e: Endpoint): string { e.operation }

  lemma SurfaceWithin(a: seq<Endpoint>, b: seq<Endpoint>)
    requires Distinct(Ids(a)) && Distinct(Ids(b)) && forall e | e in a :: e in b
    ensures forall k | k in SurfaceOf(a) :: k in SurfaceOf(b) && SurfaceOf(a)[k] == SurfaceOf(b)[k]
  {
    hide SurfaceOf, Distinct;
    SurfaceKeys(a);
    forall k | k in SurfaceOf(a) ensures k in SurfaceOf(b) && SurfaceOf(a)[k] == SurfaceOf(b)[k] {
      var i :| 0 <= i < |a| && Ids(a)[i] == k;
      assert a[i] in b;
      SurfaceAt(a, a[i]);
      SurfaceAt(b, a[i]);
    }
  }

  lemma PermutedIds(a: seq<Endpoint>, b: seq<Endpoint>)
    requires multiset(a) == multiset(b) && Distinct(Ids(a))
    ensures Distinct(Ids(b)) && forall e :: e in a <==> e in b
  {
    forall i, j | 0 <= i < j < |a| ensures IdOf(a[i]) != IdOf(a[j]) { assert Ids(a)[i] != Ids(a)[j]; }
    DistinctKeysPermute(IdOf, a, b);
    forall e ensures e in a <==> e in b {
      assert e in a <==> e in multiset(a);
      assert e in b <==> e in multiset(b);
    }
  }

  lemma PermutedSurface(a: seq<Endpoint>, b: seq<Endpoint>)
    requires multiset(a) == multiset(b) && Distinct(Ids(a))
    ensures SurfaceOf(a) == SurfaceOf(b)
  {
    hide SurfaceOf, Distinct, Ids;
    PermutedIds(a, b);
    SurfaceWithin(a, b);
    SurfaceWithin(b, a);
  }

  /** Both generated files parse back to exactly the document's endpoints. */
  lemma GeneratedFilesParse(digest: string, count: string, document: Document)
    requires WellFormed(document)
    ensures ParseLines(MatchJava, RenderJava(digest, document)) == Some(SurfaceOf(Generated(document)))
    ensures ParseLines(MatchDotnet, RenderDotnet(digest, count, document)) == Some(SurfaceOf(Generated(document)))
  {
    hide *;
    var all := Generated(document);
    GeneratedIsPrintable(document);
    SortedParse(JavaLe, all);
    SortedParse(DotnetLe, all);
    JavaRoundTrip(digest, Sort(JavaLe, all));
    DotnetRoundTrip(digest, count, Sort(DotnetLe, all));
    RenderIs(digest, count, document);
  }

  lemma GeneratedIsPrintable(document: Document)
    requires WellFormed(document)
    ensures Distinct(Ids(Generated(document)))
    ensures forall i | 0 <= i < |Generated(document)| :: Printable(Generated(document)[i])
  {
  }

  lemma RenderIs(digest: string, count: string, document: Document)
    ensures RenderJava(digest, document) == JavaFile(digest, Sort(JavaLe, Generated(document)))
    ensures RenderDotnet(digest, count, document) == DotnetFile(digest, count, Sort(DotnetLe, Generated(document)))
  {
    hide JavaFile, DotnetFile, Sort, Generated;
  }

  lemma SortedParse(le: (Endpoint, Endpoint) -> bool, all: seq<Endpoint>)
    requires Distinct(Ids(all)) && forall i | 0 <= i < |all| :: Printable(all[i])
    ensures forall i | 0 <= i < |Sort(le, all)| :: Printable(Sort(le, all)[i])
    ensures SurfaceOf(Sort(le, all)) == SurfaceOf(all)
  {
    hide Printable, Sort;
    SortPermutes(le, all);
    var sorted := Sort(le, all);
    forall i | 0 <= i < |sorted| ensures Printable(sorted[i]) {
      assert sorted[i] in multiset(sorted);
      assert sorted[i] in all;
    }
    PermutedSurface(all, sorted);
  }

  // ----- when the projections agree with the canonical catalogue

  ghost predicate OnlyCanonicalVerbs(document: Document) {
    forall i | 0 <= i < |Items(document)| && NamedItem(Items(document)[i]) :: CanonicalItem(Items(document)[i])
  }

  lemma {:induction false} SameSelection(items: seq<Item>)
    requires forall i | 0 <= i < |items| && NamedItem(items[i]) :: CanonicalItem(items[i])
    ensures Endpoints(NamedItem, items) == Endpoints(CanonicalItem, items)
  {
    if items != [] {
      SameSelection(items[..|items| - 1]);
    }
  }

  lemma {:induction false} CanonicalIsPart(items: seq<Item>, e: Endpoint)
    requires e in Endpoints(CanonicalItem, items)
    ensures exists i :: 0 <= i < |items| && CanonicalItem(items[i]) && Complete(items[i]) && EndpointOf(items[i]) == e
  {
    var n := |items| - 1;
    if e in Endpoints(CanonicalItem, items[..n]) {
      CanonicalIsPart(items[..n], e);
      var i :| 0 <= i < n && CanonicalItem(items[..n][i]) && Complete(items[..n][i]) && EndpointOf(items[..n][i]) == e;
      assert items[i] == items[..n][i];
    } else {
      assert CanonicalItem(items[n]) && Complete(items[n]) && EndpointOf(items[n]) == e;
    }
  }

  /** Two items with one identifier contribute it twice. */
  lemma {:induction false} NamedPositions(items: seq<Item>, i: nat, j: nat)
    requires i < j < |items| && NamedItem(items[i]) && NamedItem(items[j]) && Complete(items[i]) && Complete(items[j])
    requires items[i].operation.id == items[j].operation.id
    ensures !Distinct(Ids(Endpoints(NamedItem, items)))
  {
    var n := |items| - 1;
    var front := Endpoints(NamedItem, items[..n]);
    if j < n {
      NamedPositions(items[..n], i, j);
      RepeatStays(front, Endpoints(NamedItem, items));
    } else {
      NamedContributes(items[..n], i);
      var k :| 0 <= k < |front| && front[k] == EndpointOf(items[i]);
      var all := Endpoints(NamedItem, items);
      assert all[k] == front[k] && all[|front|] == EndpointOf(items[n]);
      assert Ids(all)[k] == Ids(all)[|front|];
    }
  }

  lemma RepeatStays(a: seq<Endpoint>, b: seq<Endpoint>)
    requires a <= b && !Distinct(Ids(a))
    ensures !Distinct(Ids(b))
  {
    var i, j :| 0 <= i < j < |Ids(a)| && Ids(a)[i] == Ids(a)[j];
    assert Ids(b)[i] == Ids(b)[j];
  }

  lemma {:induction false} NamedContributes(items: seq<Item>, i: nat)
    requires i < |items| && NamedItem(items[i]) && Complete(items[i])
    ensures EndpointOf(items[i]) in Endpoints(NamedItem, items)
  {
    var n := |items| - 1;
    if i < n { NamedContributes(items[..n], i); }
  }

  /** The generated Java and .NET files equal the canonical catalogue if and only if
      no named operation uses a method other than GET, POST and DELETE. */
  lemma GeneratedAgreesWithCanonical(digest: string, count: string, document: Document)
    requires WellFormed(document) && CanonicallyValid(Items(document))
    ensures var canonical := SurfaceOf(Endpoints(CanonicalItem, Items(document)));
      && (ParseLines(MatchJava, RenderJava(digest, document)) == Some(canonical) <==> OnlyCanonicalVerbs(document))
      && (ParseLines(MatchDotnet, RenderDotnet(digest, count, document)) == Some(canonical) <==> OnlyCanonicalVerbs(document))
  {
    hide *;
    GeneratedFilesParse(digest, count, document);
    GeneratedIsCanonical(document);
  }

  lemma GeneratedIsCanonical(document: Document)
    requires WellFormed(document)
    ensures SurfaceOf(Generated(document)) == SurfaceOf(Endpoints(CanonicalItem, Items(document)))
      <==> OnlyCanonicalVerbs(document)
  {
    hide Printable, Endpoints, SurfaceOf, Items, Distinct, Ids;
    var items := Items(document);
    if OnlyCanonicalVerbs(document) {
      SameSelection(items);
    } else {
      var i :| 0 <= i < |items| && NamedItem(items[i]) && !CanonicalItem(items[i]);
      NamedContributes(items, i);
      var id := items[i].operation.id.value;
      SurfaceAt(Generated(document), EndpointOf(items[i]));
      Unlisted(items, i);
      SurfaceKeys(Endpoints(CanonicalItem, items));
      assert id !in SurfaceOf(Endpoints(CanonicalItem, items));
    }
  }

  lemma Unlisted(items: seq<Item>, i: nat)
    requires i < |items| && NamedItem(items[i]) && Complete(items[i]) && !CanonicalItem(items[i])
    requires Distinct(Ids(Endpoints(NamedItem, items)))
    ensures items[i].operation.id.value !in Ids(Endpoints(CanonicalItem, items))
  {
    var id := items[i].operation.id.value;
    var canonical := Endpoints(CanonicalItem, items);
    forall k | 0 <= k < |canonical| ensures canonical[k].operation != id {
      CanonicalIsPart(items, canonical[k]);
      var j :| 0 <= j < |items| && CanonicalItem(items[j]) && Complete(items[j]) && EndpointOf(items[j]) == canonical[k];
      if items[j].operation.id == items[i].operation.id {
        if i < j { NamedPositions(items, i, j); } else { NamedPositions(items, j, i); }
      }
    }
  }
}
