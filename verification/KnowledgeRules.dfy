/** The naming rules of the knowledge package, spelled out beside the predicates that
    the exporter and the checker compute: alphabets instead of ranges, addresses built
    from their parts, white space by code point. */
module KnowledgeRules {
  import opened Bytes
  import opened KnowledgeCodec
  import opened KnowledgePaths
  import opened KnowledgeChecker
  import opened KnowledgeBuilder

  // ----- identifiers

  const LETTERS := "abcdefghijklmnopqrstuvwxyz"
  const DIGITS := "0123456789"

  ghost predicate InAlphabet(b: byte, alphabet: string) {
    exists i :: 0 <= i < |alphabet| && alphabet[i] as int == b
  }

  lemma LettersAre(b: byte)
    ensures 97 <= b <= 122 <==> InAlphabet(b, LETTERS)
  {
    var alphabet := LETTERS;
    if 97 <= b <= 122 {
      assert alphabet[b - 97] as int == b;
    }
  }

  lemma DigitsAre(b: byte)
    ensures 48 <= b <= 57 <==> InAlphabet(b, DIGITS)
  {
    var alphabet := DIGITS;
    if 48 <= b <= 57 {
      assert alphabet[b - 48] as int == b;
    }
  }

  ghost predicate LetterOrDigit(b: byte) {
    InAlphabet(b, LETTERS) || InAlphabet(b, DIGITS)
  }

  lemma MarksAre(b: byte)
    ensures InAlphabet(b, "._-") <==> b == 46 || b == 95 || b == 45
  {
    assert "._-"[0] as int == 46 && "._-"[1] as int == 95 && "._-"[2] as int == 45;
  }

  /** One to 128 lower-case letters, digits, full stops, underscores and hyphens, the
      first of them a letter or a digit. */
  lemma CanonicalIdIs(t: Text)
    ensures CanonicalId(t) <==>
      && 1 <= |t| <= 128 && LetterOrDigit(t[0])
      && forall i | 0 <= i < |t| :: LetterOrDigit(t[i]) || InAlphabet(t[i], "._-")
  {
    forall b: byte ensures (LowerOrDigit(b) <==> LetterOrDigit(b)) && (InAlphabet(b, "._-") <==> b == 46 || b == 95 || b == 45) {
      hide InAlphabet;
      LettersAre(b);
      DigitsAre(b);
      MarksAre(b);
    }
    hide InAlphabet, LowerOrDigit, LetterOrDigit;
  }

  /** A revision is visible ASCII: no control character, no space, nothing past the tilde. */
  lemma TokenIs(t: Text, maximum: nat)
    ensures AsciiToken(t, maximum) <==>
      t != [] && |t| <= maximum && !exists i :: 0 <= i < |t| && (t[i] <= 32 || t[i] >= 127)
  {
  }

  // ----- coordinates

  /** The address with these segments. */
  ghost predicate Addresses(t: Text, segments: seq<Text>) {
    && |segments| >= 4 && segments[1] == Ascii("data")
    && (forall i | 0 <= i < |segments| && i != 1 :: CanonicalId(segments[i]))
    && t == Ascii("rrflow://") + Join(segments)
  }

  lemma CanonicalIsPlain(t: Text)
    requires CanonicalId(t)
    ensures SLASH !in t
  {
  }

  /** A coordinate is an instance, the word data, and at least two more identifiers,
      joined by slashes behind the scheme, within its length. */
  lemma CoordinateIs(t: Text)
    ensures Coordinate(t) <==> |t| <= 1024 && exists segments :: Addresses(t, segments)
  {
    assert Ascii("rrflow://") == SCHEME && Ascii("data") == DATA;
    hide CanonicalId, Ascii;
    if Coordinate(t) {
      var rest := t[|SCHEME|..];
      JoinParts(rest);
      assert t == SCHEME + rest;
      assert Addresses(t, Parts(rest));
    }
    if segments :| Addresses(t, segments) {
      forall i | 0 <= i < |segments| ensures SLASH !in segments[i] {
        if i != 1 { CanonicalIsPlain(segments[i]); }
      }
      PartsJoin(segments);
      assert t[|SCHEME|..] == Join(segments);
    }
  }

  // ----- source paths

  /** A control character in UTF-8: a byte below the space, the delete, or one of the
      thirty-two two-byte ones. */
  ghost predicate ControlAt(path: Text, i: nat) {
    i < |path| && (path[i] < 32 || path[i] == 127 || (i + 1 < |path| && path[i] == 0xC2 && path[i + 1] < 0xA0))
  }

  ghost predicate Clean(path: Text) {
    (forall i: nat :: !ControlAt(path, i)) && 92 !in path
  }

  lemma CleanIs(path: Text)
    ensures Clean(path) <==>
      && (forall i | 0 <= i < |path| :: 32 <= path[i] && path[i] != 127 && path[i] != 92)
      && (forall i | 0 < i < |path| :: !(path[i - 1] == 0xC2 && path[i] < 0xA0))
  {
    if Clean(path) {
      forall i | 0 <= i < |path| ensures 32 <= path[i] && path[i] != 127 && path[i] != 92 { assert !ControlAt(path, i); }
      forall i | 0 < i < |path| ensures !(path[i - 1] == 0xC2 && path[i] < 0xA0) { assert !ControlAt(path, i - 1); }
    } else {
      if i: nat :| ControlAt(path, i) {
        var j := i + 1;
        assert j < |path| ==> path[j - 1] == path[i];
      }
    }
  }

  lemma SolidIs(segment: Text)
    ensures Solid(segment) <==> segment != [] && segment != Ascii(".") && segment != Ascii("..")
  {
    assert Ascii(".") == [46] && Ascii("..") == [46, 46];
  }

  lemma SegmentsAre(path: Text)
    ensures (forall i | 0 <= i < |Parts(path)| :: Solid(Parts(path)[i])) <==> exists segments :: Names(path, segments)
  {
    hide Ascii, Parts, Join, Solid;
    JoinParts(path);
    PartsArePlain(path);
    if forall i | 0 <= i < |Parts(path)| :: Solid(Parts(path)[i]) {
      forall i | 0 <= i < |Parts(path)|
        ensures Parts(path)[i] != [] && Parts(path)[i] != Ascii(".") && Parts(path)[i] != Ascii("..")
      {
        SolidIs(Parts(path)[i]);
      }
      assert Names(path, Parts(path));
    }
    if s :| Names(path, s) {
      PartsJoin(s);
      forall i | 0 <= i < |s| ensures Solid(s[i]) { SolidIs(s[i]); }
    }
  }

  /** A source path is made of segments that are neither empty nor dots, joined by
      slashes, with no control character and no backslash, within its length. */
  lemma SourcePathIs(path: Text)
    ensures SourcePath(path) <==> |path| <= 4096 && Clean(path) && exists segments :: Names(path, segments)
  {
    hide Parts, Clean, Names, Solid;
    CleanIs(path);
    SegmentsAre(path);
  }

  ghost predicate Names(path: Text, segments: seq<Text>) {
    && Plain(segments) && path == Join(segments)
    && forall i | 0 <= i < |segments| :: segments[i] != [] && segments[i] != Ascii(".") && segments[i] != Ascii("..")
  }

  // ----- white space

  /** The UTF-8 encoding of a code point of the basic plane. */
  function Utf8(code: nat): Text
    requires code < 0x1_0000
  {
    if code < 0x80 then [code]
    else if code < 0x800 then [0xC0 + code / 64, 0x80 + code % 64]
    else [0xE0 + code / 4096, 0x80 + code / 64 % 64, 0x80 + code % 64]
  }

  /** What `str.strip()` removes. */
  predicate White(code: nat) {
    || 0x09 <= code <= 0x0D || 0x1C <= code <= 0x20 || code == 0x85 || code == 0xA0 || code == 0x1680
    || 0x2000 <= code <= 0x200A || code == 0x2028 || code == 0x2029 || code == 0x202F || code == 0x205F || code == 0x3000
  }

  function AllUtf8(codes: seq<nat>): Text
    requires forall i | 0 <= i < |codes| :: codes[i] < 0x1_0000
  {
    if codes == [] then [] else Utf8(codes[0]) + AllUtf8(codes[1..])
  }

  lemma WhiteIsShort(code: nat)
    requires White(code)
    ensures code < 0x1_0000
  {
  }

  /** The white space found at the front of a text is a white space character. */
  lemma SpaceIs(text: Text) returns (code: nat)
    requires SpaceLength(text) > 0
    ensures White(code) && Utf8(code) == text[..SpaceLength(text)]
  {
    var n := SpaceLength(text);
    assert n <= 3;
    if n == 1 {
      code := text[0];
      assert text[..1] == [text[0]];
    } else if n == 2 {
      code := text[1];
      assert text[..2] == [text[0], text[1]];
    } else {
      assert text[..3] == [text[0], text[1], text[2]];
      var lead: int, middle: int, last: int := text[0], text[1], text[2];
      code := (lead - 0xE0) * 4096 + (middle - 0x80) * 64 + (last - 0x80);
    }
  }

  lemma SpaceFound(code: nat, rest: Text)
    requires White(code)
    ensures SpaceLength(Utf8(code) + rest) == |Utf8(code)|
  {
    var text := Utf8(code) + rest;
    assert text[..|Utf8(code)|] == Utf8(code);
  }

  /** Blank text is nothing but white space characters. */
  lemma {:induction false} BlankIsWhite(text: Text) returns (codes: seq<nat>)
    requires Blank(text)
    ensures (forall i | 0 <= i < |codes| :: White(codes[i]) && codes[i] < 0x1_0000) && AllUtf8(codes) == text
    decreases |text|
  {
    hide SpaceLength, White, Utf8;
    if text == [] {
      codes := [];
    } else {
      var n := SpaceLength(text);
      var code := SpaceIs(text);
      var rest := BlankIsWhite(text[n..]);
      codes := [code] + rest;
      WhiteIsShort(code);
      assert codes[1..] == rest && text == text[..n] + text[n..];
    }
  }

  lemma {:induction false} WhiteIsBlank(codes: seq<nat>)
    requires forall i | 0 <= i < |codes| :: White(codes[i]) && codes[i] < 0x1_0000
    ensures Blank(AllUtf8(codes))
    decreases |codes|
  {
    hide SpaceLength, White;
    if codes != [] {
      var rest := AllUtf8(codes[1..]);
      WhiteIsBlank(codes[1..]);
      SpaceFound(codes[0], rest);
      assert (Utf8(codes[0]) + rest)[|Utf8(codes[0])|..] == rest;
    }
  }
}
