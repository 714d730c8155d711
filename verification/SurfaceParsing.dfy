/** What the checker's patterns accept, for every line: exactly the lines that print some
    endpoint, up to the indentation and the constant's own name. */
module SurfaceParsing {
  import opened Wrappers
  import opened Surfaces

  // ----- the scanners read what they return

  lemma {:induction false} RunIs(text: string, allowed: char -> bool)
    ensures var n := Run(text, allowed);
      && (forall i | 0 <= i < n :: allowed(text[i]))
      && text == text[..n] + text[n..] && (n < |text| ==> !allowed(text[n]))
  {
    var n := Run(text, allowed);
    assert text == text[..n] + text[n..];
    if text != [] && allowed(text[0]) {
      var rest := text[1..];
      RunIs(rest, allowed);
      assert n == 1 + Run(rest, allowed);
      hide Run;
      forall i | 0 <= i < n ensures allowed(text[i]) {
        if i > 0 { assert text[i] == rest[i - 1]; }
      }
    }
  }

  lemma ExpectIs(text: string, literal: string, rest: string)
    ensures Expect(text, literal) == Some(rest) <==> text == literal + rest
  {
    if Expect(text, literal) == Some(rest) {
      assert text == text[..|literal|] + text[|literal|..];
    }
  }

  lemma QuotedIs(text: string, s: string, rest: string)
    ensures Quoted(text) == Some((s, rest)) <==> All(s, NoQuote) && text == Quote(s) + rest
  {
    hide Expect;
    if Quoted(text) == Some((s, rest)) {
      var inside := Expect(text, "\"").value;
      ExpectIs(text, "\"", inside);
      RunIs(inside, NoQuote);
      ExpectIs(inside[|s|..], "\"", rest);
      assert inside == s + ("\"" + rest);
      assert text == Quote(s) + rest;
    }
    if All(s, NoQuote) && text == Quote(s) + rest {
      QuotedConcat(s, rest);
    }
  }

  lemma FlagIs(text: string, b: bool, rest: string)
    ensures Flag(text) == Some((b, rest)) <==> text == FlagText(b) + rest
  {
    if Flag(text) == Some((b, rest)) {
      ExpectIs(text, FlagText(b), rest);
    }
    if text == FlagText(b) + rest {
      FlagConcat(b, rest);
    }
  }

  lemma EndIs(text: string, allowed: char -> bool, name: string, mutation: bool, rest: string)
    requires !allowed(',')
    ensures MatchEnd(text, allowed) == Some((name, mutation, rest)) <==>
      All(name, allowed) && text == PrintEnd(name, mutation, rest)
  {
    hide Expect, Flag, FlagText;
    if MatchEnd(text, allowed) == Some((name, mutation, rest)) {
      var named := Expect(text, ", Authentication.").value;
      ExpectIs(text, ", Authentication.", named);
      RunIs(named, allowed);
      var flagged := Expect(named[|name|..], ", ").value;
      ExpectIs(named[|name|..], ", ", flagged);
      var close := Flag(flagged).value.1;
      FlagIs(flagged, mutation, close);
      ExpectIs(close, ")", rest);
      assert named == name + (", " + (FlagText(mutation) + (")" + rest)));
    }
    if All(name, allowed) && text == PrintEnd(name, mutation, rest) {
      EndRoundTrip(name, mutation, rest, allowed);
    }
  }

  /** The argument list is accepted exactly when it prints the fields that are returned. */
  lemma CallIs(text: string, allowed: char -> bool, e: Endpoint, name: string, rest: string)
    requires !allowed(',')
    ensures MatchCall(text, allowed) == Some((Call(e.operation, e.entry.verb, e.entry.path, name, e.entry.mutation), rest))
       <==> Quotable(e) && All(name, allowed) && text == PrintCall(e, name, rest)
  {
    if MatchCall(text, allowed) == Some((Call(e.operation, e.entry.verb, e.entry.path, name, e.entry.mutation), rest)) {
      CallReads(text, allowed, e, name, rest);
    }
    if Quotable(e) && All(name, allowed) && text == PrintCall(e, name, rest) {
      CallRoundTrip(e, name, rest, allowed);
    }
  }

  lemma CallReads(text: string, allowed: char -> bool, e: Endpoint, name: string, rest: string)
    requires !allowed(',')
    requires MatchCall(text, allowed) == Some((Call(e.operation, e.entry.verb, e.entry.path, name, e.entry.mutation), rest))
    ensures Quotable(e) && All(name, allowed) && text == PrintCall(e, name, rest)
  {
    hide Expect, Quoted, Quote, MatchEnd, PrintEnd, All;
    var t0 := Expect(text, "(").value;
    ExpectIs(text, "(", t0);
    var t1 := Quoted(t0).value.1;
    QuotedIs(t0, e.operation, t1);
    var t2 := Expect(t1, ", ").value;
    ExpectIs(t1, ", ", t2);
    var t3 := Quoted(t2).value.1;
    QuotedIs(t2, e.entry.verb, t3);
    var t4 := Expect(t3, ", ").value;
    ExpectIs(t3, ", ", t4);
    var t5 := Quoted(t4).value.1;
    QuotedIs(t4, e.entry.path, t5);
    EndIs(t5, allowed, name, e.entry.mutation, rest);
  }

  // ----- the two lines

  ghost predicate Spaces(indent: string) {
    forall i | 0 <= i < |indent| :: Space(indent[i])
  }

  /** The line prints the endpoint as a Java constant of some name. */
  ghost predicate IsJavaLine(line: string, e: Endpoint, indent: string, constant: string, separator: string) {
    && Spaces(indent) && All(constant, EnumWord) && Quotable(e) && (separator == "," || separator == ";")
    && line == indent + (constant + PrintCall(e, JavaName(e.entry.authentication), separator))
  }

  /** The line prints the endpoint as a .NET switch case of some member. */
  ghost predicate IsDotnetLine(line: string, e: Endpoint, indent: string, member: string) {
    && Spaces(indent) && All(member, Word) && Quotable(e)
    && line == indent + ("OperationId." + (member + (" => new" + PrintCall(e, DotnetName(e.entry.authentication), ","))))
  }

  lemma SkipsSpaces(indent: string, text: string)
    requires Spaces(indent) && (text == [] || !Space(text[0]))
    ensures SkipSpace(indent + text) == text
  {
    RunConcat(indent, text, Space);
  }

  lemma ReadIs(names: Authentication -> string, c: Call, e: Endpoint)
    requires names(Public) != names(ApiKey) && names(Public) != names(SessionBearer) && names(ApiKey) != names(SessionBearer)
    ensures Read(names, c) == Found(e) <==>
      c == Call(e.operation, e.entry.verb, e.entry.path, names(e.entry.authentication), e.entry.mutation)
  {
    match e.entry.authentication
    case Public =>
    case ApiKey =>
    case SessionBearer =>
  }

  lemma NamesDiffer()
    ensures JavaName(Public) != JavaName(ApiKey) && JavaName(Public) != JavaName(SessionBearer)
    ensures JavaName(ApiKey) != JavaName(SessionBearer)
    ensures DotnetName(Public) != DotnetName(ApiKey) && DotnetName(Public) != DotnetName(SessionBearer)
    ensures DotnetName(ApiKey) != DotnetName(SessionBearer)
  {
    assert "PUBLIC"[0] == 'P' && "API_KEY"[0] == 'A' && "SESSION_BEARER"[0] == 'S';
    assert "Public"[0] == 'P' && "ApiKey"[0] == 'A' && "SessionBearer"[0] == 'S';
  }

  /** A line is read as a Java endpoint if and only if it prints that endpoint. */
  lemma JavaIsExact(line: string, e: Endpoint)
    ensures MatchJava(line) == Found(e) <==>
      exists indent, constant, separator :: IsJavaLine(line, e, indent, constant, separator)
  {
    hide MatchCall, PrintCall, Read, Quotable;
    NamesDiffer();
    JavaNamesAreWords(e.entry.authentication);
    var name := JavaName(e.entry.authentication);
    if MatchJava(line) == Found(e) {
      var indent, text := line[..Run(line, Space)], SkipSpace(line);
      RunIs(line, Space);
      RunIs(text, EnumWord);
      var n := Run(text, EnumWord);
      var (c, rest) := MatchCall(text[n..], UpperWord).value;
      ReadIs(JavaName, c, e);
      CallIs(text[n..], UpperWord, e, name, rest);
      assert IsJavaLine(line, e, indent, text[..n], rest);
    }
    if indent, constant, separator :| IsJavaLine(line, e, indent, constant, separator) {
      JavaLineIsRead(line, e, indent, constant, separator);
    }
  }

  lemma JavaLineIsRead(line: string, e: Endpoint, indent: string, constant: string, separator: string)
    requires IsJavaLine(line, e, indent, constant, separator)
    ensures MatchJava(line) == Found(e)
  {
    hide MatchCall, PrintCall, Read, Quotable;
    NamesDiffer();
    JavaNamesAreWords(e.entry.authentication);
    var name := JavaName(e.entry.authentication);
    var call := PrintCall(e, name, separator);
    CallStarts(e, name, separator);
    assert (constant + call)[0] == constant[0];
    SkipsSpaces(indent, constant + call);
    RunConcat(constant, call, EnumWord);
    CallIs(call, UpperWord, e, name, separator);
    ReadIs(JavaName, MatchCall(call, UpperWord).value.0, e);
  }

  /** A line is read as a .NET endpoint if and only if it prints that endpoint. */
  lemma DotnetIsExact(line: string, e: Endpoint)
    ensures MatchDotnet(line) == Found(e) <==> exists indent, member :: IsDotnetLine(line, e, indent, member)
  {
    hide MatchCall, PrintCall, Read, Quotable, Expect;
    NamesDiffer();
    JavaNamesAreWords(e.entry.authentication);
    var name := DotnetName(e.entry.authentication);
    if MatchDotnet(line) == Found(e) {
      var indent, text := line[..Run(line, Space)], Expect(SkipSpace(line), "OperationId.").value;
      RunIs(line, Space);
      ExpectIs(SkipSpace(line), "OperationId.", text);
      RunIs(text, Word);
      var n := Run(text, Word);
      var call := Expect(text[n..], " => new").value;
      ExpectIs(text[n..], " => new", call);
      var (c, rest) := MatchCall(call, Word).value;
      ReadIs(DotnetName, c, e);
      CallIs(call, Word, e, name, rest);
      assert text == text[..n] + (" => new" + call);
      assert IsDotnetLine(line, e, indent, text[..n]);
    }
    if indent, member :| IsDotnetLine(line, e, indent, member) {
      DotnetLineIsRead(line, e, indent, member);
    }
  }

  lemma DotnetLineIsRead(line: string, e: Endpoint, indent: string, member: string)
    requires IsDotnetLine(line, e, indent, member)
    ensures MatchDotnet(line) == Found(e)
  {
    hide MatchCall, PrintCall, Read, Quotable, Expect;
    NamesDiffer();
    JavaNamesAreWords(e.entry.authentication);
    var name := DotnetName(e.entry.authentication);
    var call := PrintCall(e, name, ",");
    var arrow := " => new" + call;
    assert arrow[0] == ' ';
    var text := "OperationId." + (member + arrow);
    assert text[0] == 'O';
    SkipsSpaces(indent, text);
    ExpectIs(text, "OperationId.", member + arrow);
    RunConcat(member, arrow, Word);
    ExpectIs(arrow, " => new", call);
    CallIs(call, Word, e, name, ",");
    ReadIs(DotnetName, MatchCall(call, Word).value.0, e);
  }
}
