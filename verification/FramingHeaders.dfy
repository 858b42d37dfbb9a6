/** Which header blocks announce which length, and which texts are numbers. */
module FramingHeaders {
  import opened Prelude
  import opened Text
  import opened TextMeaning
  import opened Utf8
  import opened Framing

  // ---------- Numbers ----------

  function Zeros(n: nat): string {
    seq(n, _ => '0')
  }

  predicate AllDigits(s: string) {
    forall i :: 0 <= i < |s| ==> '0' <= s[i] <= '9'
  }

  lemma {:induction false} DigitsNeeded(s: string)
    requires s != []
    ensures ParseDigits(s).Some? <==> AllDigits(s)
  {
    if |s| > 1 {
      var front := s[..|s| - 1];
      DigitsNeeded(front);
      assert forall i :: 0 <= i < |front| ==> front[i] == s[i];
    }
  }

  /** Every number is written as its decimal digits after some zeros. */
  lemma {:induction false} DigitsMean(s: string, n: nat)
    requires s != [] && AllDigits(s)
    ensures ParseDigits(s) == Some(n) <==> |s| >= |Decimal(n)| && s == Zeros(|s| - |Decimal(n)|) + Decimal(n)
  {
    DigitsNeeded(s);
    if ParseDigits(s) == Some(n) {
      ZerosInFront(s, n);
    }
    if |s| >= |Decimal(n)| && s == Zeros(|s| - |Decimal(n)|) + Decimal(n) {
      ZerosIgnored(|s| - |Decimal(n)|, n);
    }
  }

  lemma DecimalSteps(m: nat, last: char)
    requires '0' <= last <= '9'
    ensures var n := 10 * m + (last as int - '0' as int);
            Decimal(n) == if m == 0 then [last] else Decimal(m) + [last]
  {
    var d := last as int - '0' as int;
    assert Digit(d) == last;
    assert (10 * m + d) / 10 == m && (10 * m + d) % 10 == d;
  }

  lemma ZeroAppended(z: nat)
    ensures Zeros(z) + "0" == Zeros(z + 1) && |Zeros(z)| == z
  {
  }

  lemma DigitsUnfold(s: string)
    requires |s| > 1 && AllDigits(s)
    ensures var front, last := s[..|s| - 1], s[|s| - 1];
            && AllDigits(front) && ParseDigits(front).Some? && '0' <= last <= '9' && s == front + [last]
            && ParseDigits(s) == Some(10 * ParseDigits(front).value + (last as int - '0' as int))
  {
    var front := s[..|s| - 1];
    assert AllDigits(front) by {
      assert forall i :: 0 <= i < |front| ==> front[i] == s[i];
    }
    DigitsNeeded(front);
  }

  lemma {:induction false} ZerosInFront(s: string, n: nat)
    requires s != [] && AllDigits(s) && ParseDigits(s) == Some(n)
    ensures |s| >= |Decimal(n)| && s == Zeros(|s| - |Decimal(n)|) + Decimal(n)
    decreases |s|
  {
    hide *;
    if |s| == 1 {
      OneDigit(s, n);
    } else {
      var front, last := s[..|s| - 1], s[|s| - 1];
      DigitsUnfold(s);
      var m := ParseDigits(front).value;
      ZerosInFront(front, m);
      var z := |front| - |Decimal(m)|;
      ZerosThenDigit(z, m, last);
      assert s == Zeros(z) + Decimal(m) + [last];
    }
  }

  lemma ZerosThenDigit(z: nat, m: nat, last: char)
    requires '0' <= last <= '9'
    ensures var s, n := Zeros(z) + Decimal(m) + [last], 10 * m + (last as int - '0' as int);
            |s| >= |Decimal(n)| && s == Zeros(|s| - |Decimal(n)|) + Decimal(n)
  {
    hide Decimal, Zeros;
    DecimalSteps(m, last);
    ZeroAppended(z);
    if m == 0 {
      DecimalSteps(0, '0');
      assert |Zeros(z) + Decimal(m) + [last]| == z + 2;
      ZeroAppended(z + 1);
    } else {
      assert Zeros(z) + Decimal(m) + [last] == Zeros(z) + (Decimal(m) + [last]);
    }
  }

  lemma OneDigit(s: string, n: nat)
    requires |s| == 1 && AllDigits(s) && ParseDigits(s) == Some(n)
    ensures Decimal(n) == s && Zeros(0) + s == s
  {
    DecimalSteps(0, s[0]);
  }

  lemma {:induction false} ZerosIgnored(z: nat, n: nat)
    ensures Zeros(z) + Decimal(n) != [] && ParseDigits(Zeros(z) + Decimal(n)) == Some(n)
  {
    hide Decimal;
    DecimalDigits(n);
    ParseDecimal(n);
    if z == 0 {
      assert Zeros(0) + Decimal(n) == Decimal(n);
    } else {
      ZerosIgnored(z - 1, n);
      assert Zeros(z) + Decimal(n) == "0" + (Zeros(z - 1) + Decimal(n));
      OneZero(Zeros(z - 1) + Decimal(n));
    }
  }

  lemma {:induction false} OneZero(s: string)
    requires s != []
    ensures ParseDigits("0" + s) == ParseDigits(s)
  {
    if |s| == 1 {
      assert ("0" + s)[..1] == "0";
    } else {
      OneZero(s[..|s| - 1]);
      assert ("0" + s)[..|s|] == "0" + s[..|s| - 1];
    }
  }

  /** Which texts are numbers: an optional plus sign, then the decimal digits of a 64-bit number after any zeros. */
  lemma ParseUsizeMeans(s: string, n: nat)
    ensures ParseUsize(s) == Some(n) <==>
            && n <= 18_446_744_073_709_551_615
            && exists z: nat :: s == Zeros(z) + Decimal(n) || s == "+" + Zeros(z) + Decimal(n)
  {
    hide Decimal, ParseDigits;
    DecimalDigits(n);
    var digits := if s != [] && s[0] == '+' then s[1..] else s;
    if ParseUsize(s) == Some(n) {
      DigitsNeeded(digits);
      DigitsMean(digits, n);
      var z := |digits| - |Decimal(n)|;
      assert s[0] == '+' ==> s == "+" + Zeros(z) + Decimal(n);
      assert s == Zeros(z) + Decimal(n) || s == "+" + Zeros(z) + Decimal(n);
    }
    if z: nat :| s == Zeros(z) + Decimal(n) || s == "+" + Zeros(z) + Decimal(n) {
      assert digits == Zeros(z) + Decimal(n) by {
        if s == Zeros(z) + Decimal(n) {
          NoPlus(z, n);
        } else {
          assert s == "+" + (Zeros(z) + Decimal(n));
        }
      }
      ZerosIgnored(z, n);
    }
  }

  lemma NoPlus(z: nat, n: nat)
    ensures (Zeros(z) + Decimal(n))[0] != '+'
  {
    hide Decimal;
    DecimalDigits(n);
    assert Decimal(n)[0] in Decimal(n);
  }

  lemma SomeNumber()
    ensures Decimal(0) == "0" && Decimal(7) == "7" && Decimal(1_204) == "1204"
  {
    assert Decimal(1) == "1" && Decimal(12) == "12" && Decimal(120) == "120";
  }

  // ---------- Headers ----------

  predicate Announces(line: string) {
    "Content-Length:" <= line
  }

  lemma {:induction false} TrimNewlinesCut(line: string) returns (end: string)
    ensures line == TrimNewlines(line) + end && forall i :: 0 <= i < |end| ==> end[i] == '\r' || end[i] == '\n'
  {
    if line != [] && (line[|line| - 1] == '\r' || line[|line| - 1] == '\n') {
      end := TrimNewlinesCut(line[..|line| - 1]);
      assert line == line[..|line| - 1] + [line[|line| - 1]];
      end := end + [line[|line| - 1]];
    } else {
      end := [];
    }
  }

  lemma LineEnds(end: string)
    requires forall i :: 0 <= i < |end| ==> end[i] == '\r' || end[i] == '\n'
    ensures AllWhitespace(end) && AllWhitespace("")
  {
  }

  /** What one header line does: a length line sets the length to what follows the colon, or to none when that is no
      number; any other line leaves it. */
  lemma HeaderMeans(line: string, length: Option<nat>)
    ensures HeaderLength(TrimNewlines(line), length) == if Announces(line) then ParseUsize(Trim(line[15..])) else length
  {
    hide TrimNewlines, Trim, ParseUsize, IsWhitespace;
    var end := TrimNewlinesCut(line);
    var trimmed := TrimNewlines(line);
    forall i | |trimmed| <= i < |line| ensures line[i] == '\r' || line[i] == '\n' {
      assert line[i] == end[i - |trimmed|];
    }
    if Announces(line) {
      assert line[14] == ':';
      assert forall i :: 0 <= i < 15 ==> line[i] == "Content-Length:"[i];
      assert forall i :: 0 <= i < 15 ==> line[i] != '\r' && line[i] != '\n';
      assert |trimmed| >= 15;
      LineEnds(end);
      var none := "";
      TrimSkips(none, trimmed[15..], end);
      assert none + trimmed[15..] + end == line[15..];
    }
  }

  /** No line from `k` on announces a length. */
  predicate SilentFrom(lines: seq<string>, k: nat) {
    forall i :: k <= i < |lines| ==> !Announces(lines[i])
  }

  /** Without a length line nothing is announced. */
  lemma {:induction false} SilentBlock(lines: seq<string>, length: Option<nat>)
    requires SilentFrom(lines, 0)
    ensures BlockLength(lines, length) == length
  {
    hide HeaderLength, TrimNewlines, Trim, ParseUsize;
    if lines != [] {
      HeaderMeans(lines[0], length);
      SilentBlock(lines[1..], length);
    }
  }

  /** With some the last one decides, and only it. */
  lemma {:induction false} LastLengthDecides(lines: seq<string>, k: nat, length: Option<nat>)
    requires k < |lines| && Announces(lines[k]) && SilentFrom(lines, k + 1)
    ensures BlockLength(lines, length) == ParseUsize(Trim(lines[k][15..]))
    decreases |lines|
  {
    hide HeaderLength, TrimNewlines, Trim, ParseUsize, Announces;
    var next, rest := HeaderLength(TrimNewlines(lines[0]), length), lines[1..];
    HeaderMeans(lines[0], length);
    assert forall i :: 0 <= i < |rest| ==> rest[i] == lines[i + 1];
    if k == 0 {
      SilentBlock(rest, next);
    } else {
      LastLengthDecides(rest, k - 1, next);
    }
  }

  lemma LengthSays(before: string, n: nat, after: string)
    requires AllWhitespace(before) && AllWhitespace(after) && n <= 18_446_744_073_709_551_615
    ensures var line := "Content-Length:" + before + Decimal(n) + after;
            Announces(line) && ParseUsize(Trim(line[15..])) == Some(n)
  {
    hide Decimal, Trim, ParseUsize, IsWhitespace, AllWhitespace;
    var digits := Decimal(n);
    var line := "Content-Length:" + before + digits + after;
    assert line == "Content-Length:" + (before + digits + after);
    assert line[15..] == before + digits + after;
    TrimSkips(before, digits, after);
    DecimalEnds(n);
    TrimFixed(digits);
    ParsePrinted(n);
  }

  /** A message is read under a block whose last length line says its length, in whatever whitespace, and whatever other
      headers stand before and after it. */
  lemma HeadersRead(lines: seq<string>, k: nat, before: string, after: string, body: string, rest: seq<Byte>)
    requires forall i :: 0 <= i < |lines| ==> HeaderLine(lines[i])
    requires k < |lines| && SilentFrom(lines, k + 1)
    requires AllWhitespace(before) && AllWhitespace(after)
    requires lines[k] == "Content-Length:" + before + Decimal(|Encode(body)|) + after
    requires |Encode(body)| <= 18_446_744_073_709_551_615
    ensures ReadMessage(Encode(Block(lines)) + Encode(body) + rest) == Some((body, rest))
  {
    hide *;
    LengthSays(before, |Encode(body)|, after);
    LastLengthDecides(lines, k, None);
    MessageReads(lines, body, rest);
  }

  /** And none is read under a block that announces no length, or whose last length line is no number. */
  lemma HeadersRefused(lines: seq<string>, rest: seq<Byte>)
    requires forall i :: 0 <= i < |lines| ==> HeaderLine(lines[i])
    requires SilentFrom(lines, 0)
             || exists k :: 0 <= k < |lines| && Announces(lines[k]) && SilentFrom(lines, k + 1)
                  && ParseUsize(Trim(lines[k][15..])) == None
    ensures ReadMessage(Encode(Block(lines)) + rest) == None
  {
    hide Encode, ReadHeaders, BlockLength, HeaderLine, Trim, ParseUsize, SilentFrom;
    if SilentFrom(lines, 0) {
      SilentBlock(lines, None);
    } else {
      var k :| 0 <= k < |lines| && Announces(lines[k]) && SilentFrom(lines, k + 1)
               && ParseUsize(Trim(lines[k][15..])) == None;
      LastLengthDecides(lines, k, None);
    }
    BlockReads(lines, rest, None);
  }

  /** One frame, written out. */
  lemma SomeFrame()
    ensures EncodeFramed("{}") == Encode("Content-Length: 2\r\n\r\n{}")
  {
    hide Encode;
    CharBytes('{');
    CharBytes('}');
    TwoBytes();
    DecimalSteps(0, '2');
    var header := "Content-Length: " + Decimal(2) + "\r\n\r\n";
    EncodeAppend(header, "{}");
    assert header + "{}" == "Content-Length: 2\r\n\r\n{}";
  }

  lemma TwoBytes()
    ensures |Encode("{}")| == 2
  {
    assert "{}"[1..] == "}" && "}"[1..] == "";
    CharBytes('{');
    CharBytes('}');
  }
}
