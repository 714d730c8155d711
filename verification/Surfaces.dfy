/** Generated endpoint catalogues: the printers of the Java and .NET clients and the
    checker's parsers that read them back. A file is its sequence of lines. */
module Surfaces {
  import opened Wrappers
  import opened Names

  datatype Authentication = Public | ApiKey | SessionBearer

  datatype Entry = Entry(verb: string, path: string, authentication: Authentication, mutation: bool)

  datatype Endpoint = Endpoint(operation: string, entry: Entry)

  type Surface = map<string, Entry>

  // ----- scanning a line

  function Expect(text: string, literal: string): Option<string> {
    if literal <= text then Some(text[|literal|..]) else None
  }

  /** The length of the longest prefix of characters in a class. */
  function Run(text: string, allowed: char -> bool): (n: nat)
    ensures n <= |text|
  {
    if text == [] || !allowed(text[0]) then 0 else 1 + Run(text[1..], allowed)
  }

  predicate Space(c: char) { c == ' ' || '\t' <= c <= '\r' }
  predicate NoQuote(c: char) { c != '\"' }
  predicate EnumWord(c: char) { Upper(c) || Digit(c) || c == '_' }
  predicate UpperWord(c: char) { Upper(c) || c == '_' }
  predicate Word(c: char) { Upper(c) || Lower(c) || Digit(c) || c == '_' }

  /** A nonempty quote-free string between quotes, and what follows it. */
  function Quoted(text: string): Option<(string, string)> {
    match Expect(text, "\"")
    case None => None
    case Some(inside) =>
      var n := Run(inside, NoQuote);
      if n == 0 then None
      else
        match Expect(inside[n..], "\"")
        case None => None
        case Some(rest) => Some((inside[..n], rest))
  }

  datatype Call = Call(operation: string, verb: string, path: string, authentication: string, mutation: bool)

  function Flag(text: string): Option<(bool, string)> {
    match Expect(text, "true")
    case Some(rest) => Some((true, rest))
    case None =>
      match Expect(text, "false")
      case Some(rest) => Some((false, rest))
      case None => None
  }

  /** `Authentication.NAME, flag)` */
  function MatchEnd(text: string, allowed: char -> bool): Option<(string, bool, string)> {
    match Expect(text, ", Authentication.")
    case None => None
    case Some(named) =>
      var n := Run(named, allowed);
      if n == 0 then None
      else
        match Expect(named[n..], ", ")
        case None => None
        case Some(flagged) =>
          match Flag(flagged)
          case None => None
          case Some((mutation, close)) =>
            match Expect(close, ")")
            case None => None
            case Some(rest) => Some((named[..n], mutation, rest))
  }

  /** `("operation", "method", "path", Authentication.NAME, flag)` */
  function MatchCall(text: string, allowed: char -> bool): Option<(Call, string)> {
    match Expect(text, "(")
    case None => None
    case Some(t0) =>
      match Quoted(t0)
      case None => None
      case Some((operation, t1)) =>
        match Expect(t1, ", ")
        case None => None
        case Some(t2) =>
          match Quoted(t2)
          case None => None
          case Some((verb, t3)) =>
            match Expect(t3, ", ")
            case None => None
            case Some(t4) =>
              match Quoted(t4)
              case None => None
              case Some((path, t5)) =>
                match MatchEnd(t5, allowed)
                case None => None
                case Some((name, mutation, rest)) => Some((Call(operation, verb, path, name, mutation), rest))
  }

  // ----- printing a call

  function Quote(s: string): string { "\"" + s + "\"" }
  function FlagText(b: bool): string { if b then "true" else "false" }

  function PrintEnd(name: string, mutation: bool, rest: string): string {
    ", Authentication." + (name + (", " + (FlagText(mutation) + (")" + rest))))
  }

  function PrintCall(e: Endpoint, name: string, rest: string): string {
    "(" + (Quote(e.operation) + (", " + (Quote(e.entry.verb) + (", " + (Quote(e.entry.path)
      + PrintEnd(name, e.entry.mutation, rest))))))
  }

  ghost predicate All(s: string, allowed: char -> bool) {
    s != [] && forall i | 0 <= i < |s| :: allowed(s[i])
  }

  lemma ExpectConcat(literal: string, rest: string)
    ensures Expect(literal + rest, literal) == Some(rest)
  {
  }

  lemma {:induction false} RunConcat(s: string, rest: string, allowed: char -> bool)
    requires forall i | 0 <= i < |s| :: allowed(s[i])
    requires rest == [] || !allowed(rest[0])
    ensures Run(s + rest, allowed) == |s|
    ensures (s + rest)[..|s|] == s && (s + rest)[|s|..] == rest
  {
    if s == [] {
      assert s + rest == rest;
    } else {
      RunConcat(s[1..], rest, allowed);
      assert (s + rest)[1..] == s[1..] + rest;
    }
  }

  lemma QuotedConcat(s: string, rest: string)
    requires All(s, NoQuote)
    ensures Quoted(Quote(s) + rest) == Some((s, rest))
  {
    var tail := "\"" + rest;
    assert Quote(s) + rest == "\"" + (s + tail);
    ExpectConcat("\"", s + tail);
    RunConcat(s, tail, NoQuote);
    ExpectConcat("\"", rest);
  }

  lemma FlagConcat(b: bool, rest: string)
    ensures Flag(FlagText(b) + rest) == Some((b, rest))
  {
    var text := FlagText(b) + rest;
    ExpectConcat(FlagText(b), rest);
    assert text[0] == if b then 't' else 'f';
  }

  lemma EndRoundTrip(name: string, mutation: bool, rest: string, allowed: char -> bool)
    requires All(name, allowed) && !allowed(',')
    ensures MatchEnd(PrintEnd(name, mutation, rest), allowed) == Some((name, mutation, rest))
  {
    hide Expect, Flag, FlagText, Run;
    var close := ")" + rest;
    var flagged := FlagText(mutation) + close;
    var named := name + (", " + flagged);
    ExpectConcat(", Authentication.", named);
    assert (", " + flagged)[0] == ',';
    RunConcat(name, ", " + flagged, allowed);
    ExpectConcat(", ", flagged);
    FlagConcat(mutation, close);
    ExpectConcat(")", rest);
  }

  ghost predicate Printable(e: Endpoint) {
    Supported(e.operation) && Quotable(e)
  }

  /** No field is empty or holds a quote. */
  ghost predicate Quotable(e: Endpoint) {
    All(e.operation, NoQuote) && All(e.entry.verb, NoQuote) && All(e.entry.path, NoQuote)
  }

  lemma CallRoundTrip(e: Endpoint, name: string, rest: string, allowed: char -> bool)
    requires Quotable(e) && All(name, allowed) && !allowed(',')
    ensures MatchCall(PrintCall(e, name, rest), allowed) ==
      Some((Call(e.operation, e.entry.verb, e.entry.path, name, e.entry.mutation), rest))
  {
    hide Expect, Quoted, Quote, MatchEnd, PrintEnd;
    var t5 := PrintEnd(name, e.entry.mutation, rest);
    var t4 := Quote(e.entry.path) + t5;
    var t3 := ", " + t4;
    var t2 := Quote(e.entry.verb) + t3;
    var t1 := ", " + t2;
    var t0 := Quote(e.operation) + t1;
    ExpectConcat("(", t0);
    QuotedConcat(e.operation, t1);
    ExpectConcat(", ", t2);
    QuotedConcat(e.entry.verb, t3);
    ExpectConcat(", ", t4);
    QuotedConcat(e.entry.path, t5);
    EndRoundTrip(name, e.entry.mutation, rest, allowed);
  }

  // ----- lines of the two languages

  /** A line of a generated file: no endpoint, an endpoint, or one whose
      authentication name is not in the parser's table. */
  datatype Reading = NoMatch | Found(endpoint: Endpoint) | UnknownAuthentication

  function JavaName(a: Authentication): string {
    match a case Public => "PUBLIC" case ApiKey => "API_KEY" case SessionBearer => "SESSION_BEARER"
  }

  function DotnetName(a: Authentication): string {
    match a case Public => "Public" case ApiKey => "ApiKey" case SessionBearer => "SessionBearer"
  }

  function Read(names: Authentication -> string, c: Call): Reading {
    if c.authentication == names(Public) then Found(Endpoint(c.operation, Entry(c.verb, c.path, Public, c.mutation)))
    else if c.authentication == names(ApiKey) then Found(Endpoint(c.operation, Entry(c.verb, c.path, ApiKey, c.mutation)))
    else if c.authentication == names(SessionBearer) then
      Found(Endpoint(c.operation, Entry(c.verb, c.path, SessionBearer, c.mutation)))
    else UnknownAuthentication
  }

  function SkipSpace(line: string): string {
    line[Run(line, Space)..]
  }

  function MatchJava(line: string): Reading {
    var text := SkipSpace(line);
    var n := Run(text, EnumWord);
    if n == 0 then NoMatch
    else
      match MatchCall(text[n..], UpperWord)
      case None => NoMatch
      case Some((c, rest)) => if rest == "," || rest == ";" then Read(JavaName, c) else NoMatch
  }

  function MatchDotnet(line: string): Reading {
    match Expect(SkipSpace(line), "OperationId.")
    case None => NoMatch
    case Some(text) =>
      var n := Run(text, Word);
      if n == 0 then NoMatch
      else
        match Expect(text[n..], " => new")
        case None => NoMatch
        case Some(call) =>
          match MatchCall(call, Word)
          case None => NoMatch
          case Some((c, rest)) => if rest == "," then Read(DotnetName, c) else NoMatch
  }

  function JavaLine(e: Endpoint, separator: string): string {
    "    " + (EnumName(e.operation) + PrintCall(e, JavaName(e.entry.authentication), separator))
  }

  function DotnetLine(e: Endpoint): string {
    "        " + ("OperationId." + (MemberName(e.operation)
      + (" => new" + PrintCall(e, DotnetName(e.entry.authentication), ","))))
  }

  lemma SkipIndent(indent: string, text: string)
    requires forall i | 0 <= i < |indent| :: indent[i] == ' '
    requires text == [] || !Space(text[0])
    ensures SkipSpace(indent + text) == text
  {
    RunConcat(indent, text, Space);
  }

  lemma OperationNames(operation: string)
    requires Supported(operation)
    ensures All(EnumName(operation), EnumWord) && All(MemberName(operation), Word)
  {
    hide Supported, Hyphened, EnumName, MemberName, EnumWord, Word;
    SupportedText(operation);
    EnumNameIsWord(operation);
    MemberNameIsWord(operation);
  }

  lemma SupportedText(operation: string)
    requires Supported(operation)
    ensures Hyphened(operation) && operation != []
  {
    assert Accepted(Parts(operation)[0]);
    assert forall i | 0 <= i < |Parts(operation)| :: Hyphened(Parts(operation)[i]);
    SupportedIsHyphened(operation);
  }

  lemma EnumNameIsWord(operation: string)
    requires Hyphened(operation) && operation != []
    ensures All(EnumName(operation), EnumWord)
  {
    assert |EnumName(operation)| == |operation|;
  }

  lemma MemberNameIsWord(operation: string)
    requires Supported(operation)
    ensures All(MemberName(operation), Word)
  {
    MemberIsMarker(operation);
    hide MemberName, Word, Accepted, Camel;
    CamelIsWord(Parts(operation));
  }

  lemma {:induction false} CamelIsWord(parts: seq<string>)
    requires AllAccepted(parts)
    ensures forall i | 0 <= i < |Camel(parts)| :: Word(Camel(parts)[i])
    ensures parts != [] ==> Camel(parts) != []
  {
    if parts != [] {
      CamelIsWord(parts[..|parts| - 1]);
    }
  }

  lemma JavaLineReads(e: Endpoint, separator: string)
    requires Printable(e) && (separator == "," || separator == ";")
    ensures MatchJava(JavaLine(e, separator)) == Found(e)
  {
    hide Printable, EnumName, MatchCall, PrintCall, SkipSpace, MemberName;
    var name := JavaName(e.entry.authentication);
    var call := PrintCall(e, name, separator);
    PrintableIsSupported(e);
    OperationNames(e.operation);
    CallStarts(e, name, separator);
    RunConcat(EnumName(e.operation), call, EnumWord);
    SkipIndent("    ", EnumName(e.operation) + call);
    JavaNamesAreWords(e.entry.authentication);
    CallRoundTrip(e, name, separator, UpperWord);
  }

  lemma PrintableIsSupported(e: Endpoint)
    requires Printable(e)
    ensures Supported(e.operation) && Quotable(e)
  {
  }

  lemma CallStarts(e: Endpoint, name: string, rest: string)
    ensures PrintCall(e, name, rest) != [] && PrintCall(e, name, rest)[0] == '('
  {
  }

  lemma JavaNamesAreWords(a: Authentication)
    ensures All(JavaName(a), UpperWord) && All(DotnetName(a), Word)
  {
  }

  lemma DotnetLineReads(e: Endpoint)
    requires Printable(e)
    ensures MatchDotnet(DotnetLine(e)) == Found(e)
  {
    hide Printable, EnumName, MatchCall, PrintCall, SkipSpace, MemberName, Expect;
    var name := DotnetName(e.entry.authentication);
    var call := PrintCall(e, name, ",");
    var member := MemberName(e.operation);
    PrintableIsSupported(e);
    OperationNames(e.operation);
    var arrow := " => new" + call;
    assert arrow[0] == ' ';
    RunConcat(member, arrow, Word);
    var text := "OperationId." + (member + arrow);
    assert text[0] == 'O';
    SkipIndent("        ", text);
    ExpectConcat("OperationId.", member + arrow);
    ExpectConcat(" => new", call);
    JavaNamesAreWords(e.entry.authentication);
    CallRoundTrip(e, name, ",", Word);
  }

  // ----- whole files

  /** `pattern.findall` into a dictionary: a later line wins. */
  function ParseLines(scan: string -> Reading, lines: seq<string>): Option<Surface> {
    if lines == [] then Some(map[])
    else
      match ParseLines(scan, lines[..|lines| - 1])
      case None => None
      case Some(before) =>
        match scan(lines[|lines| - 1])
        case NoMatch => Some(before)
        case Found(e) => Some(before[e.operation := e.entry])
        case UnknownAuthentication => None
  }

  function SurfaceOf(endpoints: seq<Endpoint>): Surface {
    if endpoints == [] then map[]
    else
      var last := endpoints[|endpoints| - 1];
      SurfaceOf(endpoints[..|endpoints| - 1])[last.operation := last.entry]
  }

  ghost predicate Silent(scan: string -> Reading, lines: seq<string>) {
    forall i | 0 <= i < |lines| :: scan(lines[i]) == NoMatch
  }

  lemma {:induction false} SilentBefore(scan: string -> Reading, frame: seq<string>, lines: seq<string>)
    requires Silent(scan, frame)
    ensures ParseLines(scan, frame + lines) == ParseLines(scan, lines)
    decreases |frame| + |lines|
  {
    var whole := frame + lines;
    if lines != [] {
      assert whole[..|whole| - 1] == frame + lines[..|lines| - 1];
      SilentBefore(scan, frame, lines[..|lines| - 1]);
    } else if frame != [] {
      assert whole == frame;
      assert frame[..|frame| - 1] + [] == frame[..|frame| - 1];
      SilentBefore(scan, frame[..|frame| - 1], []);
    } else {
      assert whole == lines;
    }
  }

  lemma {:induction false} SilentAfter(scan: string -> Reading, lines: seq<string>, frame: seq<string>)
    requires Silent(scan, frame)
    ensures ParseLines(scan, lines + frame) == ParseLines(scan, lines)
  {
    var whole := lines + frame;
    if frame == [] {
      assert whole == lines;
    } else {
      assert whole[..|whole| - 1] == lines + frame[..|frame| - 1];
      SilentAfter(scan, lines, frame[..|frame| - 1]);
    }
  }

  lemma {:induction false} EndpointsParse(scan: string -> Reading, lines: seq<string>, endpoints: seq<Endpoint>)
    requires |lines| == |endpoints| && forall i | 0 <= i < |lines| :: scan(lines[i]) == Found(endpoints[i])
    ensures ParseLines(scan, lines) == Some(SurfaceOf(endpoints))
  {
    if lines != [] {
      EndpointsParse(scan, lines[..|lines| - 1], endpoints[..|lines| - 1]);
    }
  }

  // ----- the fixed lines around the endpoints

  /** A fixed line: empty, or an indent, a first character and the rest. */
  datatype Fixed = Blank | Lead(indent: nat, first: char, rest: string)

  function Indent(n: nat): string {
    seq(n, i => ' ')
  }

  function Show(line: Fixed): string {
    match line
    case Blank => ""
    case Lead(indent, first, rest) => Indent(indent) + ([first] + rest)
  }

  function ShowAll(lines: seq<Fixed>): seq<string> {
    seq(|lines|, i requires 0 <= i < |lines| => Show(lines[i]))
  }

  /** No pattern starts with this line's first character. */
  predicate JavaQuiet(line: Fixed) {
    line.Lead? ==> !Space(line.first) && !EnumWord(line.first)
  }

  predicate DotnetQuiet(line: Fixed) {
    line.Lead? ==> !Space(line.first) && line.first != 'O'
  }

  lemma QuietIsSilent(line: Fixed)
    ensures JavaQuiet(line) ==> MatchJava(Show(line)) == NoMatch
    ensures DotnetQuiet(line) ==> MatchDotnet(Show(line)) == NoMatch
  {
    if line.Lead? && !Space(line.first) {
      var text := [line.first] + line.rest;
      SkipIndent(Indent(line.indent), text);
      assert text[0] == line.first;
      assert "OperationId."[0] == 'O';
    }
  }

  lemma JavaQuietLines(lines: seq<Fixed>)
    requires forall i | 0 <= i < |lines| :: JavaQuiet(lines[i])
    ensures Silent(MatchJava, ShowAll(lines))
  {
    hide MatchJava, Show, JavaQuiet;
    forall i | 0 <= i < |lines| ensures MatchJava(ShowAll(lines)[i]) == NoMatch { QuietIsSilent(lines[i]); }
  }

  lemma DotnetQuietLines(lines: seq<Fixed>)
    requires forall i | 0 <= i < |lines| :: DotnetQuiet(lines[i])
    ensures Silent(MatchDotnet, ShowAll(lines))
  {
    hide MatchDotnet, Show, DotnetQuiet;
    forall i | 0 <= i < |lines| ensures MatchDotnet(ShowAll(lines)[i]) == NoMatch { QuietIsSilent(lines[i]); }
  }

  lemma SilentConcat(scan: string -> Reading, a: seq<string>, b: seq<string>)
    requires Silent(scan, a) && Silent(scan, b)
    ensures Silent(scan, a + b)
  {
  }

  // ----- Java

  function JavaHeader(digest: string): seq<Fixed> {
    [Lead(0, '/', "/ Generated from rrd-contract; do not edit."),
     Lead(0, '/', "/ OpenAPI SHA-256: " + digest),
     Lead(0, 'p', "ackage io.rrflow.rrd;"),
     Blank,
     Lead(0, 'p', "ublic enum OperationId {")]
  }

  function JavaFields(digest: string): seq<Fixed> {
    [Blank,
     Lead(4, 's', "tatic final String OPENAPI_DOCUMENT_SHA256 = " + Quote(digest) + ";"),
     Blank,
     Lead(4, 'p', "ublic enum Authentication { PUBLIC, API_KEY, SESSION_BEARER }"),
     Blank,
     Lead(4, 'p', "rivate final String wireName;"),
     Lead(4, 'p', "rivate final String method;"),
     Lead(4, 'p', "rivate final String path;"),
     Lead(4, 'p', "rivate final Authentication authentication;"),
     Lead(4, 'p', "rivate final boolean mutation;"),
     Blank]
  }

  function JavaConstructor(): string {
    Indent(4) + ("O" + ("p" + ("erationId("
      + "String wireName, String method, String path, Authentication authentication, boolean mutation) {")))
  }

  function JavaMethods(): seq<Fixed> {
    [Lead(8, 't', "his.wireName = wireName;"),
     Lead(8, 't', "his.method = method;"),
     Lead(8, 't', "his.path = path;"),
     Lead(8, 't', "his.authentication = authentication;"),
     Lead(8, 't', "his.mutation = mutation;"),
     Lead(4, '}', ""),
     Blank,
     Lead(4, 'p', "ublic String wireName() { return wireName; }"),
     Lead(4, 'p', "ublic String method() { return method; }"),
     Lead(4, 'p', "ublic String path() { return path; }"),
     Lead(4, 'p', "ublic Authentication authentication() { return authentication; }"),
     Lead(4, 'p', "ublic boolean mutation() { return mutation; }"),
     Lead(0, '}', "")]
  }

  /** `",\n".join(constants) + ";"`, by lines. */
  function JavaConstants(endpoints: seq<Endpoint>): seq<string> {
    if endpoints == [] then [";"]
    else
      seq(|endpoints|, i requires 0 <= i < |endpoints| => JavaLine(endpoints[i], if i == |endpoints| - 1 then ";" else ","))
  }

  function JavaFile(digest: string, endpoints: seq<Endpoint>): seq<string> {
    ShowAll(JavaHeader(digest)) + JavaConstants(endpoints)
    + (ShowAll(JavaFields(digest)) + [JavaConstructor()] + ShowAll(JavaMethods()))
  }

  lemma ConstructorIsSilent()
    ensures MatchJava(JavaConstructor()) == NoMatch
  {
    var rest := "p" + ("erationId("
      + "String wireName, String method, String path, Authentication authentication, boolean mutation) {");
    var text := "O" + rest;
    assert rest[0] == 'p' && text[0] == 'O';
    SkipIndent(Indent(4), text);
    RunConcat("O", rest, EnumWord);
    assert Expect(rest, "(") == None;
  }

  lemma JavaFrameIsSilent(digest: string)
    ensures Silent(MatchJava, ShowAll(JavaHeader(digest)))
    ensures Silent(MatchJava, ShowAll(JavaFields(digest)) + [JavaConstructor()] + ShowAll(JavaMethods()))
  {
    JavaHeaderIsQuiet(digest);
    JavaFieldsAreQuiet(digest);
    JavaMethodsAreQuiet();
    hide MatchJava, MatchDotnet, ShowAll, JavaHeader, JavaFields, JavaMethods, JavaConstructor, JavaQuiet;
    JavaQuietLines(JavaHeader(digest));
    JavaQuietLines(JavaFields(digest));
    JavaQuietLines(JavaMethods());
    ConstructorIsSilent();
    SilentConcat(MatchJava, ShowAll(JavaFields(digest)), [JavaConstructor()]);
    SilentConcat(MatchJava, ShowAll(JavaFields(digest)) + [JavaConstructor()], ShowAll(JavaMethods()));
  }

  lemma JavaHeaderIsQuiet(digest: string)
    ensures forall i | 0 <= i < |JavaHeader(digest)| :: JavaQuiet(JavaHeader(digest)[i])
  {
  }

  lemma JavaFieldsAreQuiet(digest: string)
    ensures forall i | 0 <= i < |JavaFields(digest)| :: JavaQuiet(JavaFields(digest)[i])
  {
  }

  lemma JavaMethodsAreQuiet()
    ensures forall i | 0 <= i < |JavaMethods()| :: JavaQuiet(JavaMethods()[i])
  {
  }

  /** The parser reads back exactly what the Java printer was given. */
  lemma JavaRoundTrip(digest: string, endpoints: seq<Endpoint>)
    requires forall i | 0 <= i < |endpoints| :: Printable(endpoints[i])
    ensures ParseLines(MatchJava, JavaFile(digest, endpoints)) == Some(SurfaceOf(endpoints))
  {
    hide MatchJava, ShowAll, JavaFields, JavaMethods, JavaConstructor, Printable, JavaLine;
    var constants := JavaConstants(endpoints);
    JavaFrameIsSilent(digest);
    SilentBefore(MatchJava, ShowAll(JavaHeader(digest)), constants);
    SilentAfter(MatchJava, ShowAll(JavaHeader(digest)) + constants,
                ShowAll(JavaFields(digest)) + [JavaConstructor()] + ShowAll(JavaMethods()));
    if endpoints == [] {
      SemicolonIsSilent();
    } else {
      forall i | 0 <= i < |endpoints| ensures MatchJava(constants[i]) == Found(endpoints[i]) {
        JavaLineReads(endpoints[i], if i == |endpoints| - 1 then ";" else ",");
      }
      EndpointsParse(MatchJava, constants, endpoints);
    }
  }

  lemma SemicolonIsSilent()
    ensures ParseLines(MatchJava, [";"]) == Some(map[])
  {
    SemicolonDoesNotMatch();
    hide MatchJava;
    assert [";"][..0] == [];
  }

  lemma SemicolonDoesNotMatch()
    ensures MatchJava(";") == NoMatch
  {
    hide MatchJava;
    QuietIsSilent(Lead(0, ';', ""));
    assert Show(Lead(0, ';', "")) == ";";
  }

  // ----- .NET

  function DotnetMembers(endpoints: seq<Endpoint>): seq<string> {
    seq(|endpoints|, i requires 0 <= i < |endpoints| => "    " + (MemberName(endpoints[i].operation) + ","))
  }

  /** A join of no lines still leaves an empty line in the template. */
  function OrBlank(lines: seq<string>): seq<string> {
    if lines == [] then [""] else lines
  }

  function DotnetCases(endpoints: seq<Endpoint>): seq<string> {
    seq(|endpoints|, i requires 0 <= i < |endpoints| => DotnetLine(endpoints[i]))
  }

  function DotnetHeader(digest: string): seq<Fixed> {
    [Lead(0, '/', "/ Generated from rrd-contract; do not edit."),
     Lead(0, '/', "/ OpenAPI SHA-256: " + digest),
     Lead(0, 'n', "amespace Rrflow.Rrd;"),
     Blank,
     Lead(0, 'p', "ublic enum OperationId"),
     Lead(0, '{', "")]
  }

  function DotnetTypes(digest: string, count: string): seq<Fixed> {
    [Lead(0, '}', ""),
     Blank,
     Lead(0, 'p', "ublic enum Authentication"),
     Lead(0, '{', ""),
     Lead(4, 'P', "ublic,"),
     Lead(4, 'A', "piKey,"),
     Lead(4, 'S', "essionBearer,"),
     Lead(0, '}', ""),
     Blank,
     Lead(0, 'p', "ublic sealed record Endpoint("),
     Lead(4, 's', "tring WireName,"),
     Lead(4, 's', "tring Method,"),
     Lead(4, 's', "tring Path,"),
     Lead(4, 'A', "uthentication Authentication,"),
     Lead(4, 'b', "ool Mutation);"),
     Blank]
    + [Lead(0, 'p', "ublic static class EndpointCatalog"),
       Lead(0, '{', ""),
       Lead(4, 'p', "ublic const string OpenApiDocumentSha256 = " + Quote(digest) + ";"),
       Lead(4, 'p', "ublic const int Count = " + count + ";"),
       Blank,
       Lead(4, 'p', "ublic static Endpoint Get(OperationId operation) => operation switch"),
       Lead(4, '{', "")]
  }

  function DotnetFooter(): seq<Fixed> {
    [Lead(8, '_', " => throw new System.ArgumentOutOfRangeException(nameof(operation)),"),
     Lead(4, '}', ";"),
     Lead(0, '}', "")]
  }

  function DotnetFile(digest: string, count: string, endpoints: seq<Endpoint>): seq<string> {
    ShowAll(DotnetHeader(digest)) + OrBlank(DotnetMembers(endpoints)) + ShowAll(DotnetTypes(digest, count))
    + OrBlank(DotnetCases(endpoints)) + ShowAll(DotnetFooter())
  }

  lemma DotnetHeaderIsQuiet(digest: string)
    ensures forall i | 0 <= i < |DotnetHeader(digest)| :: DotnetQuiet(DotnetHeader(digest)[i])
  {
  }

  lemma DotnetTypesAreQuiet(digest: string, count: string)
    ensures forall i | 0 <= i < |DotnetTypes(digest, count)| :: DotnetQuiet(DotnetTypes(digest, count)[i])
  {
  }

  lemma DotnetFooterIsQuiet()
    ensures forall i | 0 <= i < |DotnetFooter()| :: DotnetQuiet(DotnetFooter()[i])
  {
  }

  /** An enum member is not a switch case: it has no full stop. */
  lemma MemberIsSilent(operation: string)
    requires Supported(operation)
    ensures MatchDotnet("    " + (MemberName(operation) + ",")) == NoMatch
  {
    OperationNames(operation);
    hide MemberName, Supported, SkipSpace, MatchCall;
    var text := MemberName(operation) + ",";
    SkipIndent("    ", text);
    assert "OperationId."[11] == '.';
    assert |text| > 11 ==> text[11] != '.';
  }

  lemma DotnetFrameIsSilent(digest: string, count: string, endpoints: seq<Endpoint>)
    requires forall i | 0 <= i < |endpoints| :: Printable(endpoints[i])
    ensures Silent(MatchDotnet, ShowAll(DotnetHeader(digest)) + OrBlank(DotnetMembers(endpoints))
                                + ShowAll(DotnetTypes(digest, count)))
    ensures Silent(MatchDotnet, ShowAll(DotnetFooter()))
  {
    hide MatchDotnet, Show, ShowAll, DotnetHeader, DotnetTypes, DotnetFooter, DotnetQuiet, MemberName;
    forall i | 0 <= i < |endpoints| ensures MatchDotnet(DotnetMembers(endpoints)[i]) == NoMatch {
      PrintableIsSupported(endpoints[i]);
      MemberIsSilent(endpoints[i].operation);
    }
    EmptyLineIsSilent();
    DotnetFixedIsSilent(digest, count);
    SilentConcat(MatchDotnet, ShowAll(DotnetHeader(digest)), OrBlank(DotnetMembers(endpoints)));
    SilentConcat(MatchDotnet, ShowAll(DotnetHeader(digest)) + OrBlank(DotnetMembers(endpoints)),
                 ShowAll(DotnetTypes(digest, count)));
  }

  lemma EmptyLineIsSilent()
    ensures MatchDotnet("") == NoMatch
  {
    hide MatchDotnet;
    QuietIsSilent(Blank);
  }

  lemma DotnetFixedIsSilent(digest: string, count: string)
    ensures Silent(MatchDotnet, ShowAll(DotnetHeader(digest))) && Silent(MatchDotnet, ShowAll(DotnetTypes(digest, count)))
    ensures Silent(MatchDotnet, ShowAll(DotnetFooter()))
  {
    hide MatchDotnet, ShowAll, DotnetHeader, DotnetTypes, DotnetFooter, DotnetQuiet;
    DotnetHeaderIsQuiet(digest);
    DotnetTypesAreQuiet(digest, count);
    DotnetFooterIsQuiet();
    DotnetQuietLines(DotnetHeader(digest));
    DotnetQuietLines(DotnetTypes(digest, count));
    DotnetQuietLines(DotnetFooter());
  }

  /** The parser reads back exactly what the .NET printer was given. */
  lemma DotnetRoundTrip(digest: string, count: string, endpoints: seq<Endpoint>)
    requires forall i | 0 <= i < |endpoints| :: Printable(endpoints[i])
    ensures ParseLines(MatchDotnet, DotnetFile(digest, count, endpoints)) == Some(SurfaceOf(endpoints))
  {
    BlankFileIsSilent();
    hide MatchDotnet, ShowAll, DotnetHeader, DotnetTypes, DotnetFooter, Printable, DotnetLine, DotnetMembers;
    var frame := ShowAll(DotnetHeader(digest)) + OrBlank(DotnetMembers(endpoints)) + ShowAll(DotnetTypes(digest, count));
    var cases := DotnetCases(endpoints);
    DotnetFrameIsSilent(digest, count, endpoints);
    SilentBefore(MatchDotnet, frame, OrBlank(cases));
    SilentAfter(MatchDotnet, frame + OrBlank(cases), ShowAll(DotnetFooter()));
    if endpoints != [] {
      forall i | 0 <= i < |endpoints| ensures MatchDotnet(cases[i]) == Found(endpoints[i]) {
        DotnetLineReads(endpoints[i]);
      }
      EndpointsParse(MatchDotnet, cases, endpoints);
    }
  }

  lemma BlankFileIsSilent()
    ensures ParseLines(MatchDotnet, [""]) == Some(map[])
  {
    EmptyLineIsSilent();
    hide MatchDotnet;
    assert [""][..0] == [];
  }
}
