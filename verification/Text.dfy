/** The string operations the components share: whitespace, trimming and splitting into lines. */
module Text {

  /** The Unicode White_Space property, as `char::is_whitespace` reads it. */
  predicate IsWhitespace(c: char) {
    || '\U{9}' <= c <= '\U{D}' || c == ' ' || c == '\U{85}' || c == '\U{A0}' || c == '\U{1680}'
    || '\U{2000}' <= c <= '\U{200A}' || c == '\U{2028}' || c == '\U{2029}' || c == '\U{202F}'
    || c == '\U{205F}' || c == '\U{3000}'
  }

  function TrimStart(s: string): string {
    if s != [] && IsWhitespace(s[0]) then TrimStart(s[1..]) else s
  }

  function TrimEnd(s: string): (r: string)
    ensures r <= s
    ensures r != [] ==> !IsWhitespace(r[|r| - 1])
  {
    if s != [] && IsWhitespace(s[|s| - 1]) then TrimEnd(s[..|s| - 1]) else s
  }

  function Trim(s: string): string {
    TrimEnd(TrimStart(s))
  }

  /** A string is its own trim exactly when it neither starts nor ends with whitespace. */
  lemma {:induction false} TrimFixed(s: string)
    ensures Trim(s) == s <==> s == [] || (!IsWhitespace(s[0]) && !IsWhitespace(s[|s| - 1]))
  {
    TrimStartShape(s);
  }

  lemma {:induction false} TrimStartShape(s: string)
    ensures |TrimStart(s)| <= |s|
    ensures TrimStart(s) != [] ==> !IsWhitespace(TrimStart(s)[0])
    ensures s != [] && IsWhitespace(s[0]) ==> |TrimStart(s)| < |s|
    ensures forall c :: c in TrimStart(s) ==> c in s
  {
    if s != [] && IsWhitespace(s[0]) {
      TrimStartShape(s[1..]);
    }
  }

  lemma {:induction false} TrimEndFirst(s: string)
    requires s != [] && !IsWhitespace(s[0])
    ensures TrimEnd(s) != []
  {
    if IsWhitespace(s[|s| - 1]) {
      TrimEndFirst(s[..|s| - 1]);
    }
  }

  /** Trimming gives a trimmed string, made of the same characters. */
  lemma TrimTrimmed(s: string)
    ensures Trim(Trim(s)) == Trim(s)
    ensures forall c :: c in Trim(s) ==> c in s
  {
    TrimStartShape(s);
    TrimFixed(Trim(s));
  }

  function StripCr(line: string): string {
    if line != [] && line[|line| - 1] == '\r' then line[..|line| - 1] else line
  }

  /** The index of the first newline, or the length when there is none. */
  function FirstNewline(text: string): (i: nat)
    ensures i <= |text|
    ensures i < |text| ==> text[i] == '\n'
    ensures '\n' !in text[..i]
  {
    if text == [] || text[0] == '\n' then 0 else 1 + FirstNewline(text[1..])
  }

  /** `str::lines`: a final line without newline is kept whole; every other line loses its newline
      and one carriage return before it. */
  function Lines(text: string): seq<string> {
    if text == [] then []
    else
      var i := FirstNewline(text);
      if i == |text| then [text] else [StripCr(text[..i])] + Lines(text[i + 1..])
  }

  lemma {:induction false} LinesHaveNoNewline(text: string)
    ensures forall line :: line in Lines(text) ==> '\n' !in line
  {
    if text != [] {
      var i := FirstNewline(text);
      if i < |text| {
        LinesHaveNoNewline(text[i + 1..]);
      }
      assert text[..|text|] == text;
    }
  }

  /** Every line followed by a newline. */
  function Unlines(lines: seq<string>): string {
    if lines == [] then [] else lines[0] + ['\n'] + Unlines(lines[1..])
  }

  function StripCrs(lines: seq<string>): seq<string> {
    seq(|lines|, i requires 0 <= i < |lines| => StripCr(lines[i]))
  }

  lemma {:induction false} FirstNewlineAt(line: string, rest: string)
    requires '\n' !in line
    ensures FirstNewline(line + ['\n'] + rest) == |line|
  {
    if line != [] {
      FirstNewlineAt(line[1..], rest);
      assert (line + ['\n'] + rest)[1..] == line[1..] + ['\n'] + rest;
    }
  }

  /** Reading back lines that were each ended with a newline loses one trailing carriage return per
      line and nothing else. */
  lemma {:induction false} LinesUnlines(lines: seq<string>)
    requires forall line :: line in lines ==> '\n' !in line
    ensures Lines(Unlines(lines)) == StripCrs(lines)
  {
    if lines != [] {
      var text, rest := Unlines(lines), Unlines(lines[1..]);
      FirstNewlineAt(lines[0], rest);
      assert text[..|lines[0]|] == lines[0] && text[|lines[0]| + 1..] == rest;
      LinesUnlines(lines[1..]);
      assert StripCrs(lines) == [StripCr(lines[0])] + StripCrs(lines[1..]);
    }
  }

  function Digit(d: nat): char
    requires d < 10
  {
    "0123456789"[d]
  }

  /** A number in decimal, as `{}` prints it. */
  function Decimal(n: nat): string {
    if n < 10 then [Digit(n)] else Decimal(n / 10) + [Digit(n % 10)]
  }
}
