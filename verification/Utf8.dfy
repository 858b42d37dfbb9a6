/** UTF-8, RFC 3629: text as bytes, and back. */
module Utf8 {
  import opened Prelude

  type Byte = b: int | 0 <= b < 256

  predicate IsContinuation(b: Byte) {
    0x80 <= b < 0xC0
  }

  // ---------- One character ----------

  /** What is left of `n` without its last `k` groups of six bits. */
  function Lead(n: nat, k: nat): (r: nat)
    ensures k == 0 ==> r == n
    ensures k == 1 ==> r == n / 64
    ensures k == 2 ==> r == n / 64 / 64
    ensures k == 3 ==> r == n / 64 / 64 / 64
  {
    if k == 0 then n else Lead(n / 64, k - 1)
  }

  /** The last `k` groups of six bits, as continuation bytes. */
  function Tail(n: nat, k: nat): (bytes: seq<Byte>)
    ensures |bytes| == k && forall i :: 0 <= i < k ==> IsContinuation(bytes[i])
  {
    if k == 0 then [] else Tail(n / 64, k - 1) + [0x80 + n % 64]
  }

  function Bits(b: Byte): nat
    requires IsContinuation(b)
  {
    b - 0x80
  }

  /** The number that leading bits and continuation bytes make. */
  function Value(lead: nat, bytes: seq<Byte>): nat
    requires forall i :: 0 <= i < |bytes| ==> IsContinuation(bytes[i])
  {
    if bytes == [] then lead else Value(lead, bytes[..|bytes| - 1]) * 64 + Bits(bytes[|bytes| - 1])
  }

  /** The number of continuation bytes for `n`, the mark of the lead byte, and the least number that needs
      as many. */
  function ExtraBytes(n: nat): nat {
    if n < 0x80 then 0 else if n < 0x800 then 1 else if n < 0x10000 then 2 else 3
  }

  function Mark(k: nat): nat {
    if k == 0 then 0 else if k == 1 then 0xC0 else if k == 2 then 0xE0 else 0xF0
  }

  function LeastFor(k: nat): nat {
    if k == 0 then 0 else if k == 1 then 0x80 else if k == 2 then 0x800 else 0x10000
  }

  /** The number of continuation bytes a lead byte announces. */
  function Announced(b: Byte): (k: Option<nat>)
    ensures k.Some? ==> k.value <= 3 && Mark(k.value) <= b
  {
    if b < 0x80 then Some(0) else if b < 0xC0 then None else if b < 0xE0 then Some(1) else if b < 0xF0 then Some(2)
    else if b < 0xF8 then Some(3) else None
  }

  function EncodeChar(c: char): (bytes: seq<Byte>)
    ensures 1 <= |bytes| <= 4
  {
    var n := c as int;
    [Mark(ExtraBytes(n)) + Lead(n, ExtraBytes(n))] + Tail(n, ExtraBytes(n))
  }

  /** The character for a number, unless the encoding it came from was longer than needed, or the number
      is a surrogate or too large. */
  function Scalar(n: nat, least: nat): Option<char> {
    if n < least || 0xD800 <= n < 0xE000 || n >= 0x11_0000 then None else Some(n as char)
  }

  /** The first character of some bytes and the number of bytes it takes. */
  function DecodeFirst(bytes: seq<Byte>): (r: Option<(char, nat)>)
    ensures r.Some? ==> 1 <= r.value.1 <= |bytes|
  {
    if bytes == [] || Announced(bytes[0]).None? then None
    else
      var k := Announced(bytes[0]).value;
      if |bytes| <= k || exists i :: 0 < i <= k && !IsContinuation(bytes[i]) then None
      else
        var c := Scalar(Value(bytes[0] - Mark(k), bytes[1..k + 1]), LeastFor(k));
        if c.None? then None else Some((c.value, k + 1))
  }

  lemma {:induction false} TailValue(n: nat, k: nat)
    ensures Value(Lead(n, k), Tail(n, k)) == n
  {
    if k > 0 {
      TailValue(n / 64, k - 1);
      assert Tail(n, k)[..k - 1] == Tail(n / 64, k - 1);
    }
  }

  lemma {:induction false} ValueTail(lead: nat, bytes: seq<Byte>)
    requires forall i :: 0 <= i < |bytes| ==> IsContinuation(bytes[i])
    ensures Lead(Value(lead, bytes), |bytes|) == lead && Tail(Value(lead, bytes), |bytes|) == bytes
  {
    if bytes != [] {
      var front, last := bytes[..|bytes| - 1], bytes[|bytes| - 1];
      ValueTail(lead, front);
      var n := Value(lead, bytes);
      assert n / 64 == Value(lead, front) && n % 64 == Bits(last);
      assert bytes == front + [last];
    }
  }

  lemma DecodeFirstChar(c: char, rest: seq<Byte>)
    ensures DecodeFirst(EncodeChar(c) + rest) == Some((c, |EncodeChar(c)|))
  {
    hide Lead, Tail, Value, IsContinuation;
    var n, k := c as int, ExtraBytes(c as int);
    var bytes := EncodeChar(c) + rest;
    TailValue(n, k);
    assert bytes[0] == Mark(k) + Lead(n, k) && Announced(bytes[0]) == Some(k);
    assert bytes[1..k + 1] == Tail(n, k);
    forall i | 0 < i <= k ensures IsContinuation(bytes[i]) {
      assert bytes[i] == Tail(n, k)[i - 1];
    }
    assert Value(bytes[0] - Mark(k), bytes[1..k + 1]) == n;
  }

  lemma EncodeFirstChar(bytes: seq<Byte>)
    requires DecodeFirst(bytes).Some?
    ensures var (c, length) := DecodeFirst(bytes).value; EncodeChar(c) == bytes[..length]
  {
    hide Lead, Tail, Value, IsContinuation;
    var k := Announced(bytes[0]).value;
    var lead := bytes[0] - Mark(k);
    var rest := bytes[1..k + 1];
    ValueTail(lead, rest);
    assert ExtraBytes(Value(lead, rest)) == k;
    assert bytes[..k + 1] == [bytes[0]] + rest;
  }

  // ---------- Text ----------

  function Encode(text: string): (bytes: seq<Byte>)
    ensures text == [] <==> bytes == []
  {
    if text == [] then [] else EncodeChar(text[0]) + Encode(text[1..])
  }

  /** `String::from_utf8`: fails on anything but well-formed UTF-8. */
  function Decode(bytes: seq<Byte>): Option<string> {
    if bytes == [] then Some([])
    else
      var first := DecodeFirst(bytes);
      if first.None? then None
      else
        var rest := Decode(bytes[first.value.1..]);
        if rest.None? then None else Some([first.value.0] + rest.value)
  }

  lemma {:induction false} DecodeEncode(text: string)
    ensures Decode(Encode(text)) == Some(text)
  {
    hide DecodeFirst, EncodeChar;
    if text != [] {
      DecodeFirstChar(text[0], Encode(text[1..]));
      DecodeEncode(text[1..]);
      assert Encode(text)[|EncodeChar(text[0])|..] == Encode(text[1..]);
      assert text == [text[0]] + text[1..];
    }
  }

  lemma {:induction false} EncodeDecode(bytes: seq<Byte>)
    requires Decode(bytes).Some?
    ensures Encode(Decode(bytes).value) == bytes
  {
    hide DecodeFirst, EncodeChar;
    if bytes != [] {
      EncodeFirstChar(bytes);
      var (c, length) := DecodeFirst(bytes).value;
      EncodeDecode(bytes[length..]);
      var text := Decode(bytes).value;
      assert text[0] == c && text[1..] == Decode(bytes[length..]).value;
      assert bytes == bytes[..length] + bytes[length..];
    }
  }

  /** Well-formed UTF-8 is exactly the encoding of some text, and of one only. */
  lemma {:induction false} DecodeMeans(bytes: seq<Byte>, text: string)
    ensures Decode(bytes) == Some(text) <==> bytes == Encode(text)
  {
    hide Decode, Encode;
    DecodeEncode(text);
    if Decode(bytes).Some? {
      EncodeDecode(bytes);
    }
  }

  lemma {:induction false} EncodeAppend(a: string, b: string)
    ensures Encode(a + b) == Encode(a) + Encode(b)
  {
    hide EncodeChar;
    if a == [] {
      assert a + b == b;
    } else {
      EncodeAppend(a[1..], b);
      assert (a + b)[1..] == a[1..] + b;
    }
  }

  /** `str::len`. */
  function Size(text: string): nat {
    |Encode(text)|
  }

  lemma SizeAppend(a: string, b: string)
    ensures Size(a + b) == Size(a) + Size(b)
  {
    hide Encode;
    EncodeAppend(a, b);
  }

  lemma CharBytes(c: char)
    ensures c as int >= 0x80 ==> forall b :: b in EncodeChar(c) ==> b >= 0x80
    ensures c as int < 0x80 ==> EncodeChar(c) == [c as int]
  {
  }

  /** An ASCII byte occurs in the encoding exactly when its character occurs in the text. */
  lemma {:induction false} AsciiBytes(text: string, c: char)
    requires c as int < 0x80
    ensures c as int in Encode(text) <==> c in text
  {
    hide EncodeChar;
    if text != [] {
      AsciiBytes(text[1..], c);
      CharBytes(text[0]);
    }
  }
}
