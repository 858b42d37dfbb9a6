/** Messages framed by a `Content-Length` header, as the Base Protocol of the Language Server Protocol
    3.17 specification (section Header Part) defines them: the encoder, and the reader's line loop. */
module Framing {
  import opened Prelude
  import opened Text
  import opened Utf8

  /** The largest 64-bit `usize`. */
  const USIZE_MAX: nat := 0xFFFF_FFFF_FFFF_FFFF

  const LENGTH_HEADER := "Content-Length:"

  // ---------- Encoding ----------

  function EncodeFramed(body: string): seq<Byte> {
    Encode("Content-Length: " + Decimal(|Encode(body)|) + "\r\n\r\n") + Encode(body)
  }

  // ---------- Numbers ----------

  function DigitValue(c: char): Option<nat> {
    if '0' <= c <= '9' then Some(c as int - '0' as int) else None
  }

  function ParseDigits(s: string): Option<nat>
    requires s != []
  {
    var last := DigitValue(s[|s| - 1]);
    if last.None? then None
    else if |s| == 1 then last
    else
      var front := ParseDigits(s[..|s| - 1]);
      if front.None? then None else Some(10 * front.value + last.value)
  }

  /** `str::parse::<usize>`: decimal digits after an optional plus sign, without overflow. */
  function ParseUsize(s: string): Option<nat> {
    var digits := if s != [] && s[0] == '+' then s[1..] else s;
    if digits == [] then None
    else
      var n := ParseDigits(digits);
      if n.Some? && n.value <= USIZE_MAX then n else None
  }

  lemma {:induction false} DecimalDigits(n: nat)
    ensures Decimal(n) != [] && forall c :: c in Decimal(n) ==> '0' <= c <= '9'
  {
    if n >= 10 {
      DecimalDigits(n / 10);
    }
  }

  lemma {:induction false} ParseDecimal(n: nat)
    ensures Decimal(n) != [] && ParseDigits(Decimal(n)) == Some(n)
  {
    if n >= 10 {
      ParseDecimal(n / 10);
      assert Decimal(n)[..|Decimal(n)| - 1] == Decimal(n / 10);
    }
  }

  /** Printing a number and parsing it back fails exactly when it does not fit the machine word. */
  lemma ParsePrinted(n: nat)
    ensures ParseUsize(Decimal(n)) == if n <= USIZE_MAX then Some(n) else None
  {
    hide Decimal, ParseDigits;
    DecimalDigits(n);
    ParseDecimal(n);
    assert Decimal(n)[0] in Decimal(n);
  }

  // ---------- Reading ----------

  const NEWLINE: Byte := 10

  /** The length of the first line, its newline included; the rest of the input when there is none. */
  function LineLength(input: seq<Byte>): (n: nat)
    ensures n <= |input| && (input != [] ==> n > 0)
  {
    if input == [] then 0 else if input[0] == NEWLINE then 1 else 1 + LineLength(input[1..])
  }

  /** `trim_end_matches(['\r', '\n'])`. */
  function TrimNewlines(s: string): (r: string)
    ensures r <= s
  {
    if s != [] && (s[|s| - 1] == '\r' || s[|s| - 1] == '\n') then TrimNewlines(s[..|s| - 1]) else s
  }

  /** The length known after one more header line. */
  function HeaderLength(line: string, length: Option<nat>): Option<nat> {
    if LENGTH_HEADER <= line then ParseUsize(Trim(line[|LENGTH_HEADER|..])) else length
  }

  /** The header lines up to the blank one: the announced length and the input after them. */
  function ReadHeaders(input: seq<Byte>, length: Option<nat>): (r: Option<(Option<nat>, seq<Byte>)>)
    ensures r.Some? ==> |r.value.1| < |input|
  {
    if input == [] then None
    else
      var line := Decode(input[..LineLength(input)]);
      if line.None? then None
      else
        var trimmed, rest := TrimNewlines(line.value), input[LineLength(input)..];
        if trimmed == [] then Some((length, rest)) else ReadHeaders(rest, HeaderLength(trimmed, length))
  }

  /** One message and the input after it; `None` ends the connection. */
  function ReadMessage(input: seq<Byte>): (r: Option<(string, seq<Byte>)>)
    ensures r.Some? ==> |r.value.1| < |input|
  {
    var headers := ReadHeaders(input, None);
    if headers.None? || headers.value.0.None? then None
    else
      var (length, rest) := headers.value;
      if |rest| < length.value then None
      else
        var body := Decode(rest[..length.value]);
        if body.None? then None else Some((body.value, rest[length.value..]))
  }

  /** Everything the reader task receives. */
  function ReadAll(input: seq<Byte>): seq<string>
    decreases |input|
  {
    var message := ReadMessage(input);
    if message.None? then [] else [message.value.0] + ReadAll(message.value.1)
  }

  /** The buffered input of a connection. */
  class Reader {
    var input: seq<Byte>

    constructor (input: seq<Byte>)
      ensures this.input == input
    {
      this.input := input;
    }

    /** `read_line`: `None` when the line is not valid text; an empty line at the end of the input. */
    method ReadLine() returns (line: Option<string>)
      modifies this
      ensures line == Decode(old(input)[..LineLength(old(input))])
      ensures input == old(input)[LineLength(old(input))..]
    {
      var n := LineLength(input);
      line := Decode(input[..n]);
      input := input[n..];
    }

    method ReadFramedMessage() returns (body: Option<string>)
      modifies this
      ensures body.Some? <==> ReadMessage(old(input)).Some?
      ensures body.Some? ==> ReadMessage(old(input)) == Some((body.value, input))
    {
      var length: Option<nat> := None;
      while true
        invariant ReadHeaders(input, length) == ReadHeaders(old(input), None)
        decreases |input|
      {
        if input == [] {
          return None;
        }
        var line := ReadLine();
        if line.None? {
          return None;
        }
        var trimmed := TrimNewlines(line.value);
        if trimmed == [] {
          break;
        }
        if LENGTH_HEADER <= trimmed {
          length := ParseUsize(Trim(trimmed[|LENGTH_HEADER|..]));
        }
      }
      if length.None? || |input| < length.value {
        return None;
      }
      body := Decode(input[..length.value]);
      input := input[length.value..];
    }
  }

  /** The reader task: messages until the first failure or the end of the input. */
  method ReadMessages(input: seq<Byte>) returns (bodies: seq<string>)
    ensures bodies == ReadAll(input)
  {
    var reader := new Reader(input);
    bodies := [];
    while true
      invariant bodies + ReadAll(reader.input) == ReadAll(input)
      decreases |reader.input|
    {
      var body := reader.ReadFramedMessage();
      if body.None? {
        return;
      }
      bodies := bodies + [body.value];
    }
  }

  // ---------- Header blocks ----------

  /** A header line: text without a newline, and not blank. */
  predicate HeaderLine(line: string) {
    '\n' !in line && TrimNewlines(line) != []
  }

  function Block(lines: seq<string>): string {
    if lines == [] then "\r\n" else lines[0] + "\r\n" + Block(lines[1..])
  }

  /** The length after a whole block: the last `Content-Length` line decides. */
  function BlockLength(lines: seq<string>, length: Option<nat>): Option<nat> {
    if lines == [] then length else BlockLength(lines[1..], HeaderLength(TrimNewlines(lines[0]), length))
  }

  lemma {:induction false} LineLengthAt(line: seq<Byte>, rest: seq<Byte>)
    requires NEWLINE !in line
    ensures LineLength(line + [NEWLINE] + rest) == |line| + 1
  {
    if line != [] {
      LineLengthAt(line[1..], rest);
      assert (line + [NEWLINE] + rest)[1..] == line[1..] + [NEWLINE] + rest;
    }
  }

  lemma ReadsLine(line: string, rest: seq<Byte>)
    requires '\n' !in line
    ensures var input := Encode(line + "\r\n") + rest;
            && input != []
            && Decode(input[..LineLength(input)]) == Some(line + "\r\n")
            && input[LineLength(input)..] == rest
  {
    hide Encode, Decode, LineLength;
    var bytes := Encode(line + "\r");
    AsciiBytes(line + "\r", '\n');
    LineLengthAt(bytes, rest);
    EncodeAppend(line + "\r", "\n");
    assert line + "\r" + "\n" == line + "\r\n";
    EncodeNewline();
    var input := Encode(line + "\r\n") + rest;
    assert input == bytes + [NEWLINE] + rest;
    assert input[..|bytes| + 1] == Encode(line + "\r\n");
    DecodeMeans(Encode(line + "\r\n"), line + "\r\n");
  }

  lemma EncodeNewline()
    ensures Encode("\n") == [NEWLINE]
  {
    CharBytes('\n');
    assert "\n"[1..] == [];
  }

  lemma TrimsLineEnd(line: string)
    ensures TrimNewlines(line + "\r\n") == TrimNewlines(line)
  {
    assert (line + "\r\n")[..|line| + 1] == line + "\r";
    assert (line + "\r")[..|line|] == line;
  }

  /** Reading a block of headers consumes exactly the block, whatever other headers it has. */
  lemma {:induction false} BlockReads(lines: seq<string>, rest: seq<Byte>, length: Option<nat>)
    requires forall i :: 0 <= i < |lines| ==> HeaderLine(lines[i])
    ensures ReadHeaders(Encode(Block(lines)) + rest, length) == Some((BlockLength(lines, length), rest))
  {
    hide Encode, Decode, LineLength, TrimNewlines, HeaderLength;
    if lines == [] {
      BlankReads(rest, length);
    } else {
      var line, more := lines[0], Encode(Block(lines[1..])) + rest;
      EncodeAppend(line + "\r\n", Block(lines[1..]));
      assert Encode(Block(lines)) + rest == Encode(line + "\r\n") + more;
      ReadsLine(line, more);
      TrimsLineEnd(line);
      BlockReads(lines[1..], rest, HeaderLength(TrimNewlines(line), length));
    }
  }

  lemma BlankReads(rest: seq<Byte>, length: Option<nat>)
    ensures ReadHeaders(Encode("\r\n") + rest, length) == Some((length, rest))
  {
    hide Encode, Decode, LineLength;
    ReadsLine("", rest);
    assert "" + "\r\n" == "\r\n";
    TrimsLineEnd("");
  }

  /** A message is read back under any header block whose last `Content-Length` line announces it. */
  lemma MessageReads(lines: seq<string>, body: string, rest: seq<Byte>)
    requires forall i :: 0 <= i < |lines| ==> HeaderLine(lines[i])
    requires BlockLength(lines, None) == Some(|Encode(body)|)
    ensures ReadMessage(Encode(Block(lines)) + Encode(body) + rest) == Some((body, rest))
  {
    hide Encode, ReadHeaders, ReadMessage, BlockLength, HeaderLine;
    var bytes := Encode(body);
    assert Encode(Block(lines)) + bytes + rest == Encode(Block(lines)) + (bytes + rest);
    BlockReads(lines, bytes + rest, None);
    BodyReads(Encode(Block(lines)) + bytes + rest, body, rest);
  }

  lemma BodyReads(input: seq<Byte>, body: string, rest: seq<Byte>)
    requires ReadHeaders(input, None) == Some((Some(|Encode(body)|), Encode(body) + rest))
    ensures ReadMessage(input) == Some((body, rest))
  {
    hide Encode, Decode, ReadHeaders;
    var bytes := Encode(body);
    assert (bytes + rest)[..|bytes|] == bytes && (bytes + rest)[|bytes|..] == rest;
    DecodeMeans(bytes, body);
  }

  // ---------- Round trip ----------

  function LengthLine(n: nat): string {
    LENGTH_HEADER + " " + Decimal(n)
  }

  lemma DecimalEnds(n: nat)
    ensures var s := Decimal(n);
            s != [] && !IsWhitespace(s[0]) && !IsWhitespace(s[|s| - 1])
  {
    hide Decimal;
    DecimalDigits(n);
    var s := Decimal(n);
    assert s[0] in s && s[|s| - 1] in s;
  }

  lemma {:induction false} TrimAfterSpace(s: string)
    requires s != [] && !IsWhitespace(s[0]) && !IsWhitespace(s[|s| - 1])
    ensures Trim(" " + s) == s
  {
    var padded := " " + s;
    assert padded[1..] == s && padded[0] == ' ';
    assert TrimStart(padded) == TrimStart(s) == s;
    assert TrimEnd(s) == s;
  }

  lemma {:induction false} LengthLineMeans(n: nat)
    requires n <= USIZE_MAX
    ensures HeaderLine(LengthLine(n)) && BlockLength([LengthLine(n)], None) == Some(n)
  {
    hide Decimal, ParseUsize, TrimStart, TrimEnd, Trim, IsWhitespace;
    var line, digits := LengthLine(n), Decimal(n);
    DecimalEnds(n);
    NewlinesAreBlank();
    assert '\n' !in digits by { DecimalDigits(n); }
    assert line[|line| - 1] == digits[|digits| - 1];
    assert TrimNewlines(line) == line;
    TrimAfterSpace(digits);
    ParsePrinted(n);
    assert line[|LENGTH_HEADER|..] == " " + digits;
    assert LENGTH_HEADER <= line && HeaderLength(line, None) == Some(n);
    var lines: seq<string> := [line];
    assert |lines[1..]| == 0 && BlockLength(lines[1..], Some(n)) == Some(n);
  }

  lemma NewlinesAreBlank()
    ensures IsWhitespace('\r') && IsWhitespace('\n')
  {
  }

  /** What the encoder frames, the reader gives back, and it stops at the end of the message. */
  lemma FrameReads(body: string, rest: seq<Byte>)
    requires |Encode(body)| <= USIZE_MAX
    ensures ReadMessage(EncodeFramed(body) + rest) == Some((body, rest))
  {
    hide Encode, Decimal, ReadMessage, BlockLength;
    var lines := [LengthLine(|Encode(body)|)];
    LengthLineMeans(|Encode(body)|);
    MessageReads(lines, body, rest);
    assert |lines[1..]| == 0;
    assert Block(lines) == "Content-Length: " + Decimal(|Encode(body)|) + "\r\n\r\n";
  }

  function Frames(bodies: seq<string>): seq<Byte> {
    if bodies == [] then [] else EncodeFramed(bodies[0]) + Frames(bodies[1..])
  }

  /** The round trip: any list of messages, framed and concatenated, is read back in order and ends at the
      end of the input. */
  lemma {:induction false} RoundTrip(bodies: seq<string>)
    requires forall i :: 0 <= i < |bodies| ==> |Encode(bodies[i])| <= USIZE_MAX
    ensures ReadAll(Frames(bodies)) == bodies
  {
    hide Encode, EncodeFramed, ReadMessage;
    if bodies == [] {
      NothingReads();
    } else {
      FrameReads(bodies[0], Frames(bodies[1..]));
      RoundTrip(bodies[1..]);
    }
  }

  lemma NothingReads()
    ensures ReadMessage([]) == None
  {
  }
}
