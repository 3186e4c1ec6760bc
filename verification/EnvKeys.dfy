/** Writing a key on one line for an environment file, and reading it back in the settings. */
module EnvKeys {
  import opened Wrappers
  import Base64
  import Utf8

  /** Python's str.isspace for one character. */
  predicate Space(c: char) {
    '\t' <= c <= '\r' || '\U{1C}' <= c <= ' ' || c == '\U{85}' || c == '\U{A0}' || c == '\U{1680}'
    || '\U{2000}' <= c <= '\U{200A}' || c == '\U{2028}' || c == '\U{2029}' || c == '\U{202F}'
    || c == '\U{205F}' || c == '\U{3000}'
  }

  function StripLeft(s: string): string {
    if s != "" && Space(s[0]) then StripLeft(s[1..]) else s
  }

  function StripRight(s: string): string {
    if s != "" && Space(s[|s| - 1]) then StripRight(s[..|s| - 1]) else s
  }

  function Strip(s: string): string {
    StripRight(StripLeft(s))
  }

  predicate Contains(s: string, sub: string) {
    sub <= s || (s != "" && Contains(s[1..], sub))
  }

  /** Every occurrence of target, leftmost first and without overlaps, gives way to value. */
  function Replace(s: string, target: string, value: string): string
    requires target != ""
  {
    if s == "" then ""
    else if target <= s then value + Replace(s[|target|..], target, value)
    else [s[0]] + Replace(s[1..], target, value)
  }

  datatype Forms = Forms(b64: string, escaped: string, original: string)

  /** The two one-line forms of a key, and the key without the surrounding space. */
  function EncodeKeyForEnv(keyText: string): Forms {
    var text := Strip(keyText);
    Forms(
      Base64.Encode(Base64.Standard, Utf8.Encode(text)),
      Replace(Replace(text, "\n", "\\n"), "\"", "\\\""),
      text)
  }

  function DecodeJwtKeyFromEnv(key: string): Option<string> {
    if key == "" then None
    else if '\n' in key then Some(key)
    else if Contains(key, "\\n") then Some(Replace(key, "\\n", "\n"))
    else Some(key)
  }

  // ---- The escaped form, character by character ----

  function EscapedChar(c: char): string {
    if c == '\n' then "\\n" else if c == '"' then "\\\"" else [c]
  }

  function Escaped(s: string): string {
    if s == "" then "" else EscapedChar(s[0]) + Escaped(s[1..])
  }

  /** Only the quotes escaped: what is left after the newlines have been restored. */
  function Quoted(s: string): string {
    if s == "" then "" else (if s[0] == '"' then "\\\"" else [s[0]]) + Quoted(s[1..])
  }

  lemma {:induction false} TwoPassesAreOne(s: string)
    ensures Replace(Replace(s, "\n", "\\n"), "\"", "\\\"") == Escaped(s)
  {
    if s != "" {
      TwoPassesAreOne(s[1..]);
      var rest := Replace(s[1..], "\n", "\\n");
      assert "\n" <= s <==> s[0] == '\n';
      if s[0] == '\n' {
        ReplaceSkips("\\n", rest);
      } else if s[0] == '"' {
        ReplaceHits(rest);
      } else {
        ReplaceSkips([s[0]], rest);
      }
    }
  }

  lemma ReplaceHits(rest: string)
    ensures Replace("\"" + rest, "\"", "\\\"") == "\\\"" + Replace(rest, "\"", "\\\"")
  {
    assert ("\"" + rest)[1..] == rest;
  }

  lemma {:induction false} ReplaceSkips(a: string, rest: string)
    requires '"' !in a
    ensures Replace(a + rest, "\"", "\\\"") == a + Replace(rest, "\"", "\\\"")
    decreases |a|
  {
    if a == "" {
      assert a + rest == rest;
    } else {
      assert (a + rest)[1..] == a[1..] + rest;
      ReplaceSkips(a[1..], rest);
      assert a == [a[0]] + a[1..];
    }
  }

  /** Restoring the newlines of an escaped text leaves the quotes escaped, if the text had no backslash
      followed by the letter n. */
  lemma {:induction false} Restored(s: string)
    requires !Contains(s, "\\n")
    ensures Replace(Escaped(s), "\\n", "\n") == Quoted(s)
  {
    if s != "" {
      Restored(s[1..]);
      var rest := Escaped(s[1..]);
      if s[0] == '\n' {
        RestoreNewline(rest);
      } else if s[0] == '"' {
        RestoreQuote(rest);
      } else {
        EscapedStart(s);
        RestoreOther(s[0], rest);
      }
    }
  }

  lemma RestoreNewline(rest: string)
    ensures Replace("\\n" + rest, "\\n", "\n") == "\n" + Replace(rest, "\\n", "\n")
  {
    assert ("\\n" + rest)[2..] == rest;
  }

  lemma RestoreOther(c: char, rest: string)
    requires !("\\n" <= [c] + rest)
    ensures Replace([c] + rest, "\\n", "\n") == [c] + Replace(rest, "\\n", "\n")
  {
    assert ([c] + rest)[1..] == rest;
  }

  lemma RestoreQuote(rest: string)
    ensures Replace("\\\"" + rest, "\\n", "\n") == "\\\"" + Replace(rest, "\\n", "\n")
  {
    PairIsPrefix("\"" + rest);
    RestoreOther('"', rest);
    PairIsPrefix(['\\'] + ("\"" + rest));
    RestoreOther('\\', "\"" + rest);
    assert "\\\"" + rest == ['\\'] + ("\"" + rest);
  }

  lemma PairIsPrefix(s: string)
    ensures "\\n" <= s <==> |s| >= 2 && s[0] == '\\' && s[1] == 'n'
  {
  }

  /** Escaping starts a backslash-n only at a newline or at a literal one. */
  lemma EscapedStart(s: string)
    requires s != "" && !Contains(s, "\\n") && s[0] != '\n'
    ensures !("\\n" <= Escaped(s))
  {
    PairIsPrefix(s);
    PairIsPrefix(Escaped(s));
    assert |s| >= 2 ==> EscapedChar(s[1])[0] == 'n' ==> s[1] == 'n';
  }

  lemma {:induction false} QuotedLength(s: string)
    ensures |Quoted(s)| >= |s|
    ensures '"' in s ==> |Quoted(s)| > |s|
    ensures '"' !in s ==> Quoted(s) == s
  {
    if s != "" {
      QuotedLength(s[1..]);
      assert s == [s[0]] + s[1..];
    }
  }

  /** Without an occurrence nothing is replaced. */
  lemma {:induction false} NothingToReplace(s: string, target: string, value: string)
    requires target != "" && !Contains(s, target)
    ensures Replace(s, target, value) == s
  {
    if s != "" {
      NothingToReplace(s[1..], target, value);
      assert s == [s[0]] + s[1..];
    }
  }

  /** Restored text has no backslash-n left in it. */
  lemma {:induction false} NoneLeft(s: string)
    ensures !Contains(Replace(s, "\\n", "\n"), "\\n")
    ensures var r := Replace(s, "\\n", "\n"); r != "" && r[0] == 'n' ==> s != "" && s[0] == 'n'
  {
    if s != "" {
      if "\\n" <= s {
        NoneLeft(s[2..]);
        var rest := Replace(s[2..], "\\n", "\n");
        assert ("\n" + rest)[1..] == rest;
      } else {
        NoneLeft(s[1..]);
        var rest := Replace(s[1..], "\\n", "\n");
        assert ([s[0]] + rest)[1..] == rest;
        PairIsPrefix(s);
        PairIsPrefix([s[0]] + rest);
      }
    }
  }

  lemma {:induction false} EscapedHasNoNewline(s: string)
    ensures '\n' !in Escaped(s)
    ensures s == "" <==> Escaped(s) == ""
  {
    if s != "" {
      EscapedHasNoNewline(s[1..]);
    }
  }

  /** Reading the escaped form restores the newlines, whatever the text. */
  lemma DecodeOfEscaped(s: string)
    requires s != ""
    ensures DecodeJwtKeyFromEnv(Escaped(s)) == Some(Replace(Escaped(s), "\\n", "\n"))
  {
    EscapedHasNoNewline(s);
    if !Contains(Escaped(s), "\\n") {
      NothingToReplace(Escaped(s), "\\n", "\n");
    }
  }

  /** The escaped form is one line, and reading it gives back the key exactly when the key is not blank and has
      neither a double quote nor a backslash followed by the letter n. */
  lemma EscapedFormRoundTrip(keyText: string)
    ensures var forms := EncodeKeyForEnv(keyText); var text := Strip(keyText);
      && '\n' !in forms.escaped
      && (DecodeJwtKeyFromEnv(forms.escaped) == Some(text) <==>
          text != "" && '"' !in text && !Contains(text, "\\n"))
  {
    hide Strip;
    var text := Strip(keyText);
    TwoPassesAreOne(text);
    EscapedHasNoNewline(text);
    if text != "" {
      DecodeOfEscaped(text);
      NoneLeft(Escaped(text));
      if !Contains(text, "\\n") {
        Restored(text);
        QuotedLength(text);
      }
    }
  }

  /** A value once read can be read again: a second decoding changes nothing. */
  lemma DecodingTwice(key: string)
    ensures var once := DecodeJwtKeyFromEnv(key);
      && (once == None <==> key == "")
      && (once.Some? ==> DecodeJwtKeyFromEnv(once.value) == once)
  {
    if key != "" && '\n' !in key && Contains(key, "\\n") {
      var text := Replace(key, "\\n", "\n");
      NoneLeft(key);
      assert text != "";
    }
  }

  /** Reading takes no account of the base64 form: it comes back as it is, which is never the key, although
      decoding it as base64 and UTF-8 would give the key. */
  lemma Base64FormIsNotDecoded(keyText: string)
    requires Strip(keyText) != ""
    ensures var b64 := EncodeKeyForEnv(keyText).b64; var text := Strip(keyText);
      && DecodeJwtKeyFromEnv(b64) == Some(b64)
      && b64 != text
      && var octets := Base64.Decode(Base64.Standard, Base64.StripPadding(b64));
         octets.Some? && Utf8.Decode(octets.value) == Some(text)
  {
    hide Strip;
    var text := Strip(keyText);
    var octets := Utf8.Encode(text);
    var b64 := Base64.Encode(Base64.Standard, octets);
    Base64.DecodeUndoesEncode(Base64.Standard, octets);
    Utf8.DecodeUndoesEncode(text);
    Utf8.AtLeastOneEach(text);
    LongerAndPlain(octets);
    NoBackslash(b64);
  }

  lemma LongerAndPlain(octets: seq<Base64.Byte>)
    requires octets != []
    ensures var b64 := Base64.Encode(Base64.Standard, octets);
      |b64| > |octets| && '\n' !in b64 && '\\' !in b64
  {
    hide Base64.Encode;
    Base64.EncodeIsSymbols(Base64.Standard, octets);
  }

  lemma {:induction false} NoBackslash(s: string)
    requires '\\' !in s
    ensures !Contains(s, "\\n")
  {
    if s != "" {
      PairIsPrefix(s);
      NoBackslash(s[1..]);
    }
  }

  /** Stripping takes away space at the two ends and nothing else. */
  lemma StripTakesOnlySpace(s: string)
    ensures exists i, j | 0 <= i <= j <= |s| ::
      && Strip(s) == s[i..j]
      && (forall k | 0 <= k < i :: Space(s[k]))
      && (forall k | j <= k < |s| :: Space(s[k]))
      && (i < j ==> !Space(s[i]) && !Space(s[j - 1]))
  {
    hide Space;
    var i := LeftEdge(s);
    var j := RightEdge(s[i..]);
    assert s[i..][..j] == s[i..i + j];
    assert forall k | i + j <= k < |s| :: s[k] == s[i..][k - i];
    assert j > 0 ==> s[i..][0] == s[i] && s[i..][j - 1] == s[i + j - 1];
  }

  lemma {:induction false} LeftEdge(s: string) returns (i: nat)
    ensures i <= |s| && StripLeft(s) == s[i..]
    ensures forall k | 0 <= k < i :: Space(s[k])
    ensures i < |s| ==> !Space(s[i])
  {
    hide Space;
    if s != "" && Space(s[0]) {
      var j := LeftEdge(s[1..]);
      i := j + 1;
      assert forall k | 1 <= k < i :: s[k] == s[1..][k - 1];
    } else {
      i := 0;
    }
  }

  lemma {:induction false} RightEdge(s: string) returns (j: nat)
    ensures j <= |s| && StripRight(s) == s[..j]
    ensures forall k | j <= k < |s| :: Space(s[k])
    ensures j > 0 ==> !Space(s[j - 1])
  {
    hide Space;
    if s != "" && Space(s[|s| - 1]) {
      j := RightEdge(s[..|s| - 1]);
    } else {
      j := |s|;
    }
  }

  /** The characters that count as space: six controls and their separators, the blanks of Unicode, and no others. */
  lemma SpaceIsListed(c: char)
    ensures Space(c) <==> c as int in {
      9, 10, 11, 12, 13, 28, 29, 30, 31, 32, 0x85, 0xA0, 0x1680,
      0x2000, 0x2001, 0x2002, 0x2003, 0x2004, 0x2005, 0x2006, 0x2007, 0x2008, 0x2009, 0x200A,
      0x2028, 0x2029, 0x202F, 0x205F, 0x3000}
  {
  }

  predicate Blank(s: string) {
    forall k | 0 <= k < |s| :: Space(s[k])
  }

  predicate Trimmed(s: string) {
    s != "" ==> !Space(s[0]) && !Space(s[|s| - 1])
  }

  /** The third result is the text between the surrounding space, a newline at the end of the file included, and
      all three results are those of that text. */
  lemma SurroundingSpaceGoes(a: string, text: string, b: string)
    requires Blank(a) && Trimmed(text) && Blank(b)
    ensures EncodeKeyForEnv(a + text + b).original == text
    ensures EncodeKeyForEnv(a + text + b) == EncodeKeyForEnv(text)
    ensures EncodeKeyForEnv(text + "\n").original == text
  {
    StripBetween(a, text, b);
    StripBetween("", text, "");
    assert "" + text + "" == text;
    StripBetween("", text, "\n");
    assert "" + text + "\n" == text + "\n";
  }

  lemma StripBetween(a: string, text: string, b: string)
    requires Blank(a) && Trimmed(text) && Blank(b)
    ensures Strip(a + text + b) == text
  {
    hide Space, StripLeft, StripRight;
    if text == "" {
      StripLeftOf(a + b, "");
      assert a + text + b == a + b + "";
      StripRightOf("", "");
      assert "" + "" == "";
    } else {
      StripLeftOf(a, text + b);
      assert a + text + b == a + (text + b);
      StripRightOf(text, b);
    }
  }

  lemma {:induction false} StripLeftOf(a: string, rest: string)
    requires Blank(a) && (rest != "" ==> !Space(rest[0]))
    ensures StripLeft(a + rest) == rest
  {
    hide Space;
    if a == "" {
      assert a + rest == rest;
    } else {
      assert (a + rest)[1..] == a[1..] + rest;
      StripLeftOf(a[1..], rest);
    }
  }

  lemma {:induction false} StripRightOf(rest: string, b: string)
    requires Blank(b) && (rest != "" ==> !Space(rest[|rest| - 1]))
    ensures StripRight(rest + b) == rest
  {
    hide Space;
    if b == "" {
      assert rest + b == rest;
    } else {
      assert (rest + b)[..|rest + b| - 1] == rest + b[..|b| - 1];
      StripRightOf(rest, b[..|b| - 1]);
    }
  }

  lemma {:induction false} EscapedJoins(s: string, t: string)
    ensures Escaped(s + t) == Escaped(s) + Escaped(t)
  {
    if s == "" {
      assert s + t == t;
    } else {
      assert (s + t)[1..] == s[1..] + t;
      EscapedJoins(s[1..], t);
    }
  }

  /** The escaped form is that of the parts of the text one after the other: a newline becomes a backslash and the
      letter n, a double quote a backslash and itself, and every other character stays. */
  lemma EscapedFormByParts(s: string, c: char, t: string)
    requires Trimmed(s + [c] + t)
    ensures EncodeKeyForEnv(s + [c] + t).escaped ==
      Escaped(s) + (if c == '\n' then "\\n" else if c == '"' then "\\\"" else [c]) + Escaped(t)
    ensures Escaped("") == ""
  {
    hide Space, Strip, Replace, Escaped, Base64.Encode, Utf8.Encode;
    var text := s + [c] + t;
    StripBetween("", text, "");
    assert "" + text + "" == text;
    TwoPassesAreOne(text);
    EscapedParts(s, c, t);
  }

  lemma EscapedOne(c: char)
    ensures Escaped("") == ""
    ensures Escaped([c]) == EscapedChar(c)
  {
    hide EscapedChar;
    assert Escaped([c]) == EscapedChar(c) + "";
  }

  lemma EscapedParts(s: string, c: char, t: string)
    ensures Escaped(s + [c] + t) == Escaped(s) + EscapedChar(c) + Escaped(t)
    ensures Escaped("") == ""
  {
    hide Escaped, EscapedChar;
    EscapedJoins(s + [c], t);
    EscapedJoins(s, [c]);
    EscapedOne(c);
  }

  function Joined(lines: seq<string>, separator: string): string {
    if lines == [] then ""
    else if |lines| == 1 then lines[0]
    else lines[0] + separator + Joined(lines[1..], separator)
  }

  /** A value that has a newline is used as it is. Any other is a list of lines separated by a backslash and the
      letter n, and is read as these lines separated by newlines. */
  lemma ReadsLines(lines: seq<string>)
    requires forall k | 0 <= k < |lines| :: '\n' !in lines[k] && !Contains(lines[k], "\\n")
    requires Joined(lines, "\\n") != ""
    ensures DecodeJwtKeyFromEnv(Joined(lines, "\\n")) == Some(Joined(lines, "\n"))
    ensures |lines| > 1 ==> DecodeJwtKeyFromEnv(Joined(lines, "\n")) == Some(Joined(lines, "\n"))
  {
    hide Replace, Contains;
    var key := Joined(lines, "\\n");
    LinesRestored(lines);
    if !Contains(key, "\\n") {
      NothingToReplace(key, "\\n", "\n");
    }
  }

  lemma {:induction false} LinesRestored(lines: seq<string>)
    requires forall k | 0 <= k < |lines| :: '\n' !in lines[k] && !Contains(lines[k], "\\n")
    ensures Replace(Joined(lines, "\\n"), "\\n", "\n") == Joined(lines, "\n")
    ensures '\n' !in Joined(lines, "\\n")
  {
    hide Contains;
    if |lines| == 1 {
      NothingToReplace(lines[0], "\\n", "\n");
    } else if |lines| > 1 {
      hide Replace;
      LinesRestored(lines[1..]);
      LineRestored(lines[0], Joined(lines[1..], "\\n"));
    }
  }

  lemma {:induction false} LineRestored(line: string, rest: string)
    requires !Contains(line, "\\n")
    ensures Replace(line + "\\n" + rest, "\\n", "\n") == line + "\n" + Replace(rest, "\\n", "\n")
  {
    if line == "" {
      RestoreNewline(rest);
      assert line + "\\n" + rest == "\\n" + rest;
      assert line + "\n" == "\n";
    } else {
      var tail := line[1..] + "\\n" + rest;
      LineRestored(line[1..], rest);
      assert line + "\\n" + rest == [line[0]] + tail;
      PairIsPrefix(line);
      PairIsPrefix([line[0]] + tail);
      RestoreOther(line[0], tail);
      assert line + "\n" + Replace(rest, "\\n", "\n")
          == [line[0]] + (line[1..] + "\n" + Replace(rest, "\\n", "\n"));
    }
  }

  /** Every value that is one line is such a list. */
  lemma {:induction false} IsLines(key: string) returns (lines: seq<string>)
    requires '\n' !in key
    ensures lines != [] && key == Joined(lines, "\\n")
    ensures forall k | 0 <= k < |lines| :: '\n' !in lines[k] && !Contains(lines[k], "\\n")
  {
    if key == "" {
      lines := [""];
    } else if "\\n" <= key {
      var rest := IsLines(key[2..]);
      lines := [""] + rest;
      assert lines[1..] == rest;
      assert key == "" + "\\n" + key[2..];
    } else {
      var rest := IsLines(key[1..]);
      var first := [key[0]] + rest[0];
      lines := [first] + rest[1..];
      assert first[1..] == rest[0];
      assert rest == [rest[0]] + rest[1..];
      assert lines[1..] == rest[1..];
      PairIsPrefix(key);
      PairIsPrefix(first);
      FirstCharOfJoined(rest);
      assert key == [key[0]] + key[1..];
      if |rest| > 1 {
        assert Joined(lines, "\\n") == first + "\\n" + Joined(rest[1..], "\\n");
      }
    }
  }

  lemma FirstCharOfJoined(lines: seq<string>)
    requires lines != []
    ensures lines[0] != "" ==> Joined(lines, "\\n") != "" && Joined(lines, "\\n")[0] == lines[0][0]
  {
  }
}
