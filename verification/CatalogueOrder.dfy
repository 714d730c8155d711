/** What the generated catalogues hold and in which order: one line per named operation,
    sorted by operation identifier, with the authentication its first scheme asks for. */
module CatalogueOrder {
  import opened Wrappers
  import opened Sorting
  import opened Names
  import opened Surfaces
  import opened SurfaceParsing
  import opened Catalogues

  // ----- contents

  /** Which first security scheme asks for which authentication. */
  predicate Asks(scheme: Option<string>, authentication: Authentication) {
    match authentication
    case ApiKey => scheme == Some("rrdApiKey")
    case SessionBearer => scheme == Some("rrdBearer")
    case Public => scheme != Some("rrdApiKey") && scheme != Some("rrdBearer")
  }

  /** The endpoint that an item of the document describes. */
  ghost predicate Describes(item: Item, e: Endpoint) {
    && item.operation.id == Some(e.operation) && e.entry.path == item.path
    && |e.entry.verb| == |item.verb| && (forall i | 0 <= i < |item.verb| :: e.entry.verb[i] == ToUpper(item.verb[i]))
    && Asks(item.operation.scheme, e.entry.authentication) && item.operation.mutation == Some(e.entry.mutation)
  }

  lemma AsksIs(scheme: Option<string>, authentication: Authentication)
    ensures AuthenticationOf(scheme) == authentication <==> Asks(scheme, authentication)
  {
    assert "rrdApiKey"[3] == 'A' && "rrdBearer"[3] == 'B';
  }

  lemma DescribesIs(item: Item, e: Endpoint)
    ensures Complete(item) && EndpointOf(item) == e <==> Describes(item, e)
  {
    hide AuthenticationOf, Asks, ToUpper;
    AsksIs(item.operation.scheme, e.entry.authentication);
  }

  /** Some kept item describes the endpoint. */
  ghost predicate Described(keep: Item -> bool, items: seq<Item>, e: Endpoint) {
    exists i :: 0 <= i < |items| && keep(items[i]) && Describes(items[i], e)
  }

  lemma DescribedMore(keep: Item -> bool, items: seq<Item>, item: Item, e: Endpoint)
    ensures Described(keep, items + [item], e) <==> Described(keep, items, e) || (keep(item) && Describes(item, e))
  {
    hide Describes;
    var all := items + [item];
    if i :| 0 <= i < |items| && keep(items[i]) && Describes(items[i], e) { assert all[i] == items[i]; }
    if keep(item) && Describes(item, e) { assert all[|items|] == item; }
  }

  /** The collected endpoints are exactly those that a kept item describes. */
  lemma {:induction false} EndpointsAre(keep: Item -> bool, items: seq<Item>, e: Endpoint)
    ensures e in Endpoints(keep, items) <==> Described(keep, items, e)
  {
    if items != [] {
      var n := |items| - 1;
      EndpointsAre(keep, items[..n], e);
      DescribesIs(items[n], e);
      hide Describes, Described, Complete, EndpointOf;
      DescribedMore(keep, items[..n], items[n], e);
      assert items == items[..n] + [items[n]];
    }
  }

  // ----- order

  /** Strings by their first difference; a proper prefix comes first. */
  ghost predicate Precedes(a: string, b: string) {
    exists k: nat :: DiffersAt(a, b, k)
  }

  ghost predicate DiffersAt(a: string, b: string, k: nat) {
    k <= |a| && k < |b| && a[..k] == b[..k] && (k == |a| || a[k] < b[k])
  }

  lemma {:induction false} StringLeIs(a: string, b: string)
    ensures StringLe(a, b) <==> a == b || Precedes(a, b)
  {
    if a == [] {
      if b != [] { assert DiffersAt(a, b, 0); }
    } else if b == [] {
    } else {
      StringLeIs(a[1..], b[1..]);
      assert a == [a[0]] + a[1..] && b == [b[0]] + b[1..];
      if a[0] < b[0] { assert DiffersAt(a, b, 0); }
      if a[0] == b[0] { ShiftDifference(a, b); }
      if k: nat :| DiffersAt(a, b, k) {
        if k > 0 { assert a[..k][0] == a[0] && b[..k][0] == b[0]; }
      }
    }
  }

  lemma ShiftDifference(a: string, b: string)
    requires a != [] && b != [] && a[0] == b[0]
    ensures Precedes(a, b) <==> Precedes(a[1..], b[1..])
  {
    if k: nat :| DiffersAt(a[1..], b[1..], k) {
      assert a[..k + 1] == [a[0]] + a[1..][..k] && b[..k + 1] == [b[0]] + b[1..][..k];
      assert DiffersAt(a, b, k + 1);
    }
    if k: nat :| DiffersAt(a, b, k) {
      assert k > 0;
      assert a[1..][..k - 1] == a[..k][1..] && b[1..][..k - 1] == b[..k][1..];
      assert DiffersAt(a[1..], b[1..], k - 1);
    }
  }

  lemma {:induction false} StringTotal(a: string, b: string)
    ensures StringLe(a, b) || StringLe(b, a)
  {
    if a != [] && b != [] { StringTotal(a[1..], b[1..]); }
  }

  lemma {:induction false} StringTransitive(a: string, b: string, c: string)
    requires StringLe(a, b) && StringLe(b, c)
    ensures StringLe(a, c)
  {
    if a != [] && b != [] && c != [] && a[0] == b[0] == c[0] { StringTransitive(a[1..], b[1..], c[1..]); }
  }

  lemma {:induction false} StringAntisymmetric(a: string, b: string)
    requires StringLe(a, b) && StringLe(b, a)
    ensures a == b
  {
    if a != [] && b != [] {
      StringAntisymmetric(a[1..], b[1..]);
      assert a == [a[0]] + a[1..] && b == [b[0]] + b[1..];
    }
  }

  ghost predicate Injective(names: Authentication -> string) {
    forall x, y | names(x) == names(y) :: x == y
  }

  lemma EndpointTransitive(names: Authentication -> string, a: Endpoint, b: Endpoint, c: Endpoint)
    requires Injective(names) && EndpointLe(names, a, b) && EndpointLe(names, b, c)
    ensures EndpointLe(names, a, c)
  {
    hide StringLe;
    if a.operation != b.operation || b.operation != c.operation {
      Chain(a.operation, b.operation, c.operation);
    } else if a.entry.verb != b.entry.verb || b.entry.verb != c.entry.verb {
      Chain(a.entry.verb, b.entry.verb, c.entry.verb);
    } else if a.entry.path != b.entry.path || b.entry.path != c.entry.path {
      Chain(a.entry.path, b.entry.path, c.entry.path);
    } else if a.entry.authentication != b.entry.authentication || b.entry.authentication != c.entry.authentication {
      Chain(names(a.entry.authentication), names(b.entry.authentication), names(c.entry.authentication));
    }
  }

  lemma Chain(a: string, b: string, c: string)
    requires (a == b || StringLe(a, b)) && (b == c || StringLe(b, c)) && (a != b || b != c)
    ensures a != c && StringLe(a, c)
  {
    hide StringLe;
    if a != b && b != c {
      StringTransitive(a, b, c);
      if a == c { StringAntisymmetric(a, b); }
    }
  }

  lemma EndpointOrderIsTotal(names: Authentication -> string, le: (Endpoint, Endpoint) -> bool)
    requires Injective(names) && forall a, b :: le(a, b) == EndpointLe(names, a, b)
    ensures TotalPreorder(le)
  {
    hide EndpointLe;
    forall a, b ensures le(a, b) || le(b, a) { EndpointTotal(names, a, b); }
    forall a, b, c | le(a, b) && le(b, c) ensures le(a, c) { EndpointTransitive(names, a, b, c); }
  }

  lemma EndpointTotal(names: Authentication -> string, a: Endpoint, b: Endpoint)
    ensures EndpointLe(names, a, b) || EndpointLe(names, b, a)
  {
    hide StringLe;
    StringTotal(a.operation, b.operation);
    StringTotal(a.entry.verb, b.entry.verb);
    StringTotal(a.entry.path, b.entry.path);
    StringTotal(names(a.entry.authentication), names(b.entry.authentication));
  }

  /** `endpoints` in the order of their identifiers, none twice. */
  ghost predicate InOrder(endpoints: seq<Endpoint>) {
    forall i, j | 0 <= i < j < |endpoints| :: Precedes(endpoints[i].operation, endpoints[j].operation)
  }

  lemma SortedInOrder(names: Authentication -> string, le: (Endpoint, Endpoint) -> bool, all: seq<Endpoint>)
    requires Injective(names) && (forall a, b :: le(a, b) == EndpointLe(names, a, b)) && Distinct(Ids(all))
    ensures InOrder(Sort(le, all)) && multiset(Sort(le, all)) == multiset(all)
  {
    hide Sort, StringLe, Precedes, TotalPreorder, Injective;
    var sorted := Sort(le, all);
    EndpointOrderIsTotal(names, le);
    SortSorts(le, all);
    SortPermutes(le, all);
    PermutedIds(all, sorted);
    forall i, j | 0 <= i < j < |sorted| ensures Precedes(sorted[i].operation, sorted[j].operation) {
      assert Ids(sorted)[i] != Ids(sorted)[j];
      assert EndpointLe(names, sorted[i], sorted[j]);
      StringLeIs(sorted[i].operation, sorted[j].operation);
    }
  }

  lemma NamesAreInjective()
    ensures Injective(JavaName) && Injective(DotnetName)
  {
    NamesDiffer();
    hide JavaName, DotnetName;
    forall x, y | JavaName(x) == JavaName(y) ensures x == y {
      match x case Public => case ApiKey => case SessionBearer =>
    }
    forall x, y | DotnetName(x) == DotnetName(y) ensures x == y {
      match x case Public => case ApiKey => case SessionBearer =>
    }
  }

  /** The endpoints printed for a well-formed document: exactly those its named operations
      describe, in the order of their identifiers, in both languages. */
  lemma GeneratedInOrder(document: Document, e: Endpoint)
    requires WellFormed(document)
    ensures InOrder(Sort(JavaLe, Generated(document))) && InOrder(Sort(DotnetLe, Generated(document)))
    ensures e in Sort(JavaLe, Generated(document)) <==> e in Generated(document)
    ensures e in Sort(DotnetLe, Generated(document)) <==> e in Generated(document)
    ensures e in Generated(document) <==> Described(NamedItem, Items(document), e)
  {
    var all := Generated(document);
    GeneratedHolds(document, e);
    GeneratedIsPrintable(document);
    hide WellFormed, Sort, Endpoints, Items, Described, InOrder, EndpointLe, Generated;
    NamesAreInjective();
    SortedInOrder(JavaName, JavaLe, all);
    SortedInOrder(DotnetName, DotnetLe, all);
    SameMembers(all, Sort(JavaLe, all));
    SameMembers(all, Sort(DotnetLe, all));
  }

  lemma GeneratedHolds(document: Document, e: Endpoint)
    ensures e in Generated(document) <==> Described(NamedItem, Items(document), e)
  {
    hide Described, Items;
    EndpointsAre(NamedItem, Items(document), e);
  }

  lemma SameMembers(a: seq<Endpoint>, b: seq<Endpoint>)
    requires multiset(a) == multiset(b)
    ensures forall e :: e in a <==> e in b
  {
    forall e ensures e in a <==> e in b { assert e in multiset(a) <==> e in multiset(b); }
  }
}
