/** What captured output is as text: the boundaries are the places between characters, so both ends decode. */
module BoundedText {
  import opened Prelude
  import opened Utf8
  import opened BoundedBuffers

  /** UTF-8, RFC 3629 section 3: the bytes of one character. */
  lemma EncodeMeans(c: char)
    ensures var n := c as int;
            EncodeChar(c) ==
            if n < 0x80 then [n]
            else if n < 0x800 then [0xC0 + n / 64, 0x80 + n % 64]
            else if n < 0x1_0000 then [0xE0 + n / 4096, 0x80 + n / 64 % 64, 0x80 + n % 64]
            else [0xF0 + n / 262_144, 0x80 + n / 4096 % 64, 0x80 + n / 64 % 64, 0x80 + n % 64]
  {
    var n := c as int;
    assert Tail(n, 1) == [0x80 + n % 64];
    assert Tail(n / 64, 1) == [0x80 + n / 64 % 64];
    assert Tail(n, 2) == [0x80 + n / 64 % 64, 0x80 + n % 64];
    assert Tail(n / 64 / 64, 1) == [0x80 + n / 64 / 64 % 64];
    assert Tail(n / 64, 2) == [0x80 + n / 64 / 64 % 64, 0x80 + n / 64 % 64];
    assert Tail(n, 3) == [0x80 + n / 64 / 64 % 64, 0x80 + n / 64 % 64, 0x80 + n % 64];
    assert n / 64 / 64 == n / 4096 && n / 64 / 64 / 64 == n / 262_144;
  }

  /** Only the first byte of a character is no continuation byte. */
  lemma CharStarts(c: char)
    ensures !IsContinuation(EncodeChar(c)[0])
    ensures forall i :: 0 < i < |EncodeChar(c)| ==> IsContinuation(EncodeChar(c)[i])
  {
    hide Tail, Lead;
    var n, k := c as int, ExtraBytes(c as int);
    assert forall i :: 0 < i < |EncodeChar(c)| ==> EncodeChar(c)[i] == Tail(n, k)[i - 1];
  }

  /** The boundaries of encoded text are exactly the places between its characters. */
  lemma {:induction false} BoundariesOfText(text: string, i: nat)
    requires i <= |Encode(text)|
    ensures Boundary(Encode(text), i) <==>
            exists k :: 0 <= k <= |text| && i == Size(text[..k])
  {
    hide EncodeChar, IsContinuation;
    if text == [] {
      assert text[..0] == text;
    } else {
      var first, rest := EncodeChar(text[0]), text[1..];
      CharStarts(text[0]);
      assert Encode(text) == first + Encode(rest);
      if i >= |first| {
        BoundariesOfText(rest, i - |first|);
        if i > |first| && i < |Encode(text)| {
          assert Encode(text)[i] == Encode(rest)[i - |first|];
        } else if i == |first| && rest != [] {
          CharStarts(rest[0]);
          assert Encode(rest)[0] == EncodeChar(rest[0])[0];
          assert Encode(text)[i] == Encode(rest)[0];
        }
        if k :| 0 <= k <= |rest| && i - |first| == Size(rest[..k]) {
          PrefixSize(text, k + 1);
          assert i == Size(text[..k + 1]);
        }
        if k :| 0 <= k <= |text| && i == Size(text[..k]) {
          PrefixSize(text, k);
          assert k > 0 && i - |first| == Size(rest[..k - 1]);
        }
      } else {
        assert i > 0 ==> Encode(text)[i] == first[i];
        NoPrefixInside(text, i);
      }
    }
  }

  lemma PrefixSize(text: string, k: nat)
    requires text != [] && k <= |text|
    ensures Size(text[..k]) == if k == 0 then 0 else |EncodeChar(text[0])| + Size(text[1..][..k - 1])
  {
    hide EncodeChar;
    assert k > 0 ==> text[..k][0] == text[0] && text[..k][1..] == text[1..][..k - 1];
  }

  lemma NoPrefixInside(text: string, i: nat)
    requires text != [] && i < |EncodeChar(text[0])|
    ensures i > 0 ==> forall k :: 0 <= k <= |text| ==> Size(text[..k]) != i
    ensures i == 0 ==> Size(text[..0]) == 0
  {
    hide EncodeChar, Size;
    forall k | 0 <= k <= |text| ensures i > 0 ==> Size(text[..k]) != i {
      PrefixSize(text, k);
    }
    PrefixSize(text, 0);
  }

  /** Cutting encoded text at a boundary cuts the text. */
  lemma CutText(text: string, i: nat) returns (k: nat)
    requires i <= |Encode(text)| && Boundary(Encode(text), i)
    ensures k <= |text| && i == Size(text[..k])
    ensures Encode(text)[..i] == Encode(text[..k]) && Encode(text)[i..] == Encode(text[k..])
  {
    hide Encode, Boundary;
    BoundariesOfText(text, i);
    k :| 0 <= k <= |text| && i == Size(text[..k]);
    EncodeAppend(text[..k], text[k..]);
    assert text == text[..k] + text[k..];
    HalfOf(text, k);
  }

  lemma HalfOf(text: string, k: nat)
    requires k <= |text| && Encode(text) == Encode(text[..k]) + Encode(text[k..])
    ensures Encode(text)[..|Encode(text[..k])|] == Encode(text[..k])
    ensures Encode(text)[|Encode(text[..k])|..] == Encode(text[k..])
  {
    hide Encode;
  }

  function Chunks(texts: seq<string>): seq<seq<Byte>> {
    seq(|texts|, i requires 0 <= i < |texts| => Encode(texts[i]))
  }

  /** One more chunk of text: both ends stay text. */
  lemma PushedText(limit: nat, head: string, tail: string, truncated: bool, chunk: string)
    returns (head': string, tail': string)
    ensures var kept := Pushed(limit, Kept(Encode(head), Encode(tail), truncated), Encode(chunk));
            kept.head == Encode(head') && kept.tail == Encode(tail')
  {
    hide Encode, Boundary, LastBytes, Floor;
    var room, bytes := limit - Size(head), Encode(chunk);
    if Size(head) < limit && Size(head) + |bytes| <= limit {
      head', tail' := head + chunk, tail;
      EncodeAppend(head, chunk);
    } else {
      var split: nat := if Size(head) < limit then Floor(bytes, room) else 0;
      ZeroIsBoundary(bytes);
      var k := CutText(chunk, split);
      head' := head + chunk[..k];
      EncodeAppend(head, chunk[..k]);
      var all := tail + chunk[k..];
      EncodeAppend(tail, chunk[k..]);
      var last := LastBytes(Encode(all), limit);
      var j := CutText(all, |Encode(all)| - |last|);
      tail' := all[j..];
    }
  }

  lemma ZeroIsBoundary(bytes: seq<Byte>)
    ensures Boundary(bytes, 0)
  {
  }

  /** Whatever the texts and wherever the limit falls: both captured ends are text, cut between characters. */
  lemma {:induction false} CapturedText(limit: nat, texts: seq<string>) returns (head: string, tail: string)
    ensures After(limit, Chunks(texts)).head == Encode(head) && After(limit, Chunks(texts)).tail == Encode(tail)
    ensures Decode(After(limit, Chunks(texts)).head) == Some(head)
    ensures Decode(After(limit, Chunks(texts)).tail) == Some(tail)
    decreases |texts|
  {
    hide Encode, Decode, Pushed;
    if texts == [] {
      head, tail := "", "";
      NoText();
    } else {
      var front, chunk := texts[..|texts| - 1], texts[|texts| - 1];
      head, tail := CapturedText(limit, front);
      assert Chunks(texts)[..|texts| - 1] == Chunks(front);
      var before := After(limit, Chunks(front));
      head, tail := PushedText(limit, head, tail, before.truncated, chunk);
    }
    DecodeEncode(head);
    DecodeEncode(tail);
  }

  lemma NoText()
    ensures Encode("") == []
  {
  }

  lemma LongerPrefix(text: string, k: nat, x: nat)
    requires k < x <= |text|
    ensures Size(text[..k]) < Size(text[..x]) <= Size(text)
    ensures Size(text[k..]) == Size(text) - Size(text[..k])
  {
    hide Size;
    SizeAppend(text[..k], text[k..x]);
    SizeAppend(text[..x], text[x..]);
    SizeAppend(text[..k], text[k..]);
    assert text[..x] == text[..k] + text[k..x] && text == text[..x] + text[x..] && text == text[..k] + text[k..];
    SomeBytes(text[k..x]);
  }

  lemma SomeBytes(text: string)
    requires text != []
    ensures Size(text) > 0
  {
  }

  lemma OneChunkPushed(limit: nat, bytes: seq<Byte>)
    requires limit > 0
    ensures After(limit, [bytes]) ==
            if |bytes| <= limit then Kept(bytes, [], false)
            else Kept(bytes[..Floor(bytes, limit)], LastBytes(bytes[Floor(bytes, limit)..], limit), true)
  {
    hide Floor, LastBytes;
    var chunks: seq<seq<Byte>> := [bytes];
    assert After(limit, chunks[..0]) == Kept([], [], false);
    assert [] + bytes == bytes;
    if |bytes| > limit {
      var rest := bytes[Floor(bytes, limit)..];
      assert [] + rest == rest && [] + bytes[..Floor(bytes, limit)] == bytes[..Floor(bytes, limit)];
    }
  }

  /** The capture of one text, in characters: the longest beginning that fits the limit, then, if that is not all, the
      longest end of the rest that fits it. */
  lemma OneText(limit: nat, text: string) returns (k: nat, j: nat)
    requires limit > 0
    ensures k <= j <= |text|
    ensures After(limit, [Encode(text)]) ==
            Kept(Encode(text[..k]), if Size(text) > limit then Encode(text[j..]) else [], Size(text) > limit)
    ensures Size(text[..k]) <= limit && forall x :: k < x <= |text| ==> Size(text[..x]) > limit
    ensures Size(text) > limit ==>
              Size(text[j..]) <= limit && forall x :: k <= x < j ==> Size(text[x..]) > limit
    ensures Size(text) <= limit ==> k == |text|
  {
    hide Encode, Boundary, LastBytes, Floor, Pushed;
    var bytes := Encode(text);
    OneChunkPushed(limit, bytes);
    assert text[..|text|] == text;
    if |bytes| <= limit {
      k, j := |text|, |text|;
    } else {
      var split := Floor(bytes, limit);
      k := CutText(text, split);
      forall x | k < x <= |text| ensures Size(text[..x]) > limit {
        LongerPrefix(text, k, x);
        BoundariesOfText(text, Size(text[..x]));
      }
      var rest := text[k..];
      var last := LastBytes(Encode(rest), limit);
      var i := CutText(rest, |Encode(rest)| - |last|);
      j := k + i;
      assert rest[i..] == text[j..];
      forall x | k <= x < j ensures Size(text[x..]) > limit {
        LongerPrefix(rest, x - k, i);
        assert rest[x - k..] == text[x..];
        BoundariesOfText(rest, Size(rest[..x - k]));
        assert rest[..x - k] == text[k..x];
      }
    }
  }
}
