/** The bounded capture of a process's output: the first and the last `limit` bytes, cut only at
    character boundaries. Text is its UTF-8 bytes. */
module BoundedBuffers {
  import opened Prelude
  import opened Utf8

  /** `str::is_char_boundary`. */
  predicate Boundary(s: seq<Byte>, i: int) {
    i == 0 || i == |s| || (0 < i < |s| && !IsContinuation(s[i]))
  }

  /** What `&str` guarantees of a chunk, as far as boundaries are concerned: it does not start inside a
      character. */
  predicate StartsCleanly(s: seq<Byte>) {
    s != [] ==> !IsContinuation(s[0])
  }

  /** The last boundary at or before `i`. */
  function Floor(s: seq<Byte>, i: nat): (r: nat)
    ensures r <= i && (i <= |s| ==> Boundary(s, r))
    ensures forall j :: r < j <= i ==> !Boundary(s, j)
  {
    if i == 0 || Boundary(s, i) then i else Floor(s, i - 1)
  }

  /** The first boundary at or after `i`. */
  function Ceiling(s: seq<Byte>, i: nat): (r: nat)
    requires i <= |s|
    ensures i <= r <= |s| && Boundary(s, r)
    ensures forall j :: i <= j < r ==> !Boundary(s, j)
    decreases |s| - i
  {
    if Boundary(s, i) then i else Ceiling(s, i + 1)
  }

  /** The longest end of `s` that has at most `limit` bytes and starts at a boundary. */
  function LastBytes(s: seq<Byte>, limit: nat): (r: seq<Byte>)
    ensures |r| <= limit && |r| <= |s| && s[|s| - |r|..] == r && Boundary(s, |s| - |r|)
    ensures forall i :: 0 <= i < |s| - |r| && |s| - i <= limit ==> !Boundary(s, i)
  {
    if |s| <= limit then s else s[Ceiling(s, |s| - limit)..]
  }

  datatype Kept = Kept(head: seq<Byte>, tail: seq<Byte>, truncated: bool)

  function Pushed(limit: nat, kept: Kept, chunk: seq<Byte>): Kept {
    if |kept.head| < limit && |kept.head| + |chunk| <= limit then kept.(head := kept.head + chunk)
    else
      var split := if |kept.head| < limit then Floor(chunk, limit - |kept.head|) else 0;
      Kept(kept.head + chunk[..split], LastBytes(kept.tail + chunk[split..], limit), true)
  }

  function After(limit: nat, chunks: seq<seq<Byte>>): Kept {
    if chunks == [] then Kept([], [], false)
    else Pushed(limit, After(limit, chunks[..|chunks| - 1]), chunks[|chunks| - 1])
  }

  class BoundedBuffer {
    const limit: nat
    var head: seq<Byte>
    var tail: seq<Byte>
    var truncated: bool

    ghost predicate Valid()
      reads this
    {
      |head| <= limit && |tail| <= limit && (!truncated ==> tail == [])
    }

    function Contents(): Kept
      reads this
    {
      Kept(head, tail, truncated)
    }

    constructor (limit: nat)
      ensures Valid() && this.limit == limit && Contents() == After(limit, [])
    {
      this.limit, head, tail, truncated := limit, [], [], false;
    }

    method Push(chunk: seq<Byte>)
      requires Valid()
      modifies this
      ensures Valid() && Contents() == Pushed(limit, old(Contents()), chunk)
    {
      if |head| < limit {
        var remaining := limit - |head|;
        if |chunk| <= remaining {
          head := head + chunk;
          return;
        }
        var split := remaining;
        while split > 0 && !Boundary(chunk, split)
          invariant 0 <= split <= remaining && Floor(chunk, split) == Floor(chunk, remaining)
        {
          split := split - 1;
        }
        head := head + chunk[..split];
        truncated := true;
        PushTail(chunk[split..]);
        return;
      }
      assert chunk[..0] == [] && head + [] == head && chunk[0..] == chunk;
      truncated := true;
      PushTail(chunk);
    }

    method PushTail(chunk: seq<Byte>)
      requires |head| <= limit && truncated
      modifies this`tail
      ensures Valid() && tail == LastBytes(old(tail) + chunk, limit)
    {
      tail := tail + chunk;
      if |tail| > limit {
        ghost var all := tail;
        var excess := |tail| - limit;
        var cut := excess;
        while cut < |tail| && !Boundary(tail, cut)
          invariant excess <= cut <= |tail| && Ceiling(all, cut) == Ceiling(all, excess)
        {
          cut := cut + 1;
        }
        tail := tail[cut..];
        assert tail == LastBytes(all, limit);
      }
    }

    /** `gap` is the marker line between the two ends. */
    method Finish(gap: seq<Byte>) returns (text: seq<Byte>, wasTruncated: bool)
      requires Valid()
      ensures wasTruncated == truncated && text == (if truncated then head + gap + tail else head)
      ensures |text| <= 2 * limit + |gap|
    {
      if truncated {
        return head + gap + tail, true;
      }
      return head, false;
    }
  }

  /** Capturing a whole stream. */
  method Capture(limit: nat, chunks: seq<seq<Byte>>) returns (kept: Kept)
    ensures kept == After(limit, chunks)
    ensures |kept.head| <= limit && |kept.tail| <= limit
  {
    var buffer := new BoundedBuffer(limit);
    for i := 0 to |chunks|
      invariant buffer.Valid() && buffer.limit == limit && buffer.Contents() == After(limit, chunks[..i])
    {
      assert chunks[..i + 1][..i] == chunks[..i];
      buffer.Push(chunks[i]);
    }
    assert chunks[..|chunks|] == chunks;
    kept := buffer.Contents();
  }

  // ---------- The whole stream ----------

  function Concat(chunks: seq<seq<Byte>>): seq<Byte> {
    if chunks == [] then [] else Concat(chunks[..|chunks| - 1]) + chunks[|chunks| - 1]
  }

  /** A stream cut into chunks, each of them text on its own. */
  ghost predicate Cuts(chunks: seq<seq<Byte>>, stream: seq<Byte>) {
    Concat(chunks) == stream && forall i :: 0 <= i < |chunks| ==> StartsCleanly(chunks[i])
  }

  /** The capture that ignores how the stream was cut: the text up to the limit, and the longest end of
      what follows. */
  function Ideal(limit: nat, stream: seq<Byte>): Kept {
    var split := if |stream| <= limit then |stream| else Floor(stream, limit);
    Kept(stream[..split], LastBytes(stream[split..], limit), |stream| > limit)
  }

  /** No character after the one at the limit is small enough for the room that one left over. */
  ghost predicate Settled(limit: nat, stream: seq<Byte>) {
    forall p, q :: limit < p < q <= |stream| && Boundary(stream, p) && Boundary(stream, q) ==>
      q - p > limit - Floor(stream, limit)
  }

  lemma BoundaryAppend(s: seq<Byte>, chunk: seq<Byte>, i: nat)
    requires i <= |s| + |chunk| && StartsCleanly(chunk)
    ensures i <= |s| ==> (Boundary(s + chunk, i) <==> Boundary(s, i))
    ensures i > |s| ==> (Boundary(s + chunk, i) <==> Boundary(chunk, i - |s|))
  {
  }

  lemma FloorUnique(s: seq<Byte>, i: nat, r: nat)
    requires r <= i <= |s| && Boundary(s, r) && forall j :: r < j <= i ==> !Boundary(s, j)
    ensures Floor(s, i) == r
  {
    var f := Floor(s, i);
    assert f <= i && Boundary(s, f);
    assert f < r ==> !Boundary(s, r);
  }

  lemma LastBytesUnique(s: seq<Byte>, limit: nat, c: nat)
    requires c <= |s| && |s| - c <= limit && Boundary(s, c)
    requires forall i :: 0 <= i < c && |s| - i <= limit ==> !Boundary(s, i)
    ensures LastBytes(s, limit) == s[c..]
  {
    var d := |s| - |LastBytes(s, limit)|;
    assert c < d ==> !Boundary(s, c);
    assert d < c ==> !Boundary(s, d);
  }

  /** The tail can be kept up to date chunk by chunk: what was dropped earlier is never needed again. */
  lemma LastBytesAppend(s: seq<Byte>, chunk: seq<Byte>, limit: nat)
    requires StartsCleanly(chunk)
    ensures LastBytes(LastBytes(s, limit) + chunk, limit) == LastBytes(s + chunk, limit)
  {
    hide Boundary, LastBytes, StartsCleanly;
    var kept := LastBytes(s, limit);
    var c := |s| - |kept|;
    var all, short := s + chunk, kept + chunk;
    assert short == all[c..];
    var d := |all| - |LastBytes(all, limit)|;
    BoundaryAppend(s, chunk, c);
    BoundaryAppend(s, chunk, Min(d, |s|));
    assert d < c ==> |s| - d <= limit && !Boundary(s, d);
    BoundaryShift(all, c, d);
    forall i | 0 <= i < d - c && |short| - i <= limit ensures !Boundary(short, i) {
      BoundaryShift(all, c, c + i);
      assert 0 <= c + i < d && |all| - (c + i) <= limit;
    }
    LastBytesUnique(short, limit, d - c);
    assert short[d - c..] == all[d..];
  }

  lemma BoundaryShift(s: seq<Byte>, c: nat, i: nat)
    requires c <= i <= |s| && Boundary(s, c)
    ensures Boundary(s[c..], i - c) <==> Boundary(s, i)
  {
  }

  lemma FloorAppend(s: seq<Byte>, chunk: seq<Byte>, limit: nat)
    requires StartsCleanly(chunk)
    ensures limit <= |s| ==> Floor(s + chunk, limit) == Floor(s, limit)
    ensures |s| <= limit <= |s| + |chunk| ==> Floor(s + chunk, limit) == |s| + Floor(chunk, limit - |s|)
  {
    hide Boundary, Floor, StartsCleanly;
    forall i | 0 <= i <= |s| + |chunk| ensures i <= |s| ==> (Boundary(s + chunk, i) <==> Boundary(s, i))
      ensures i > |s| ==> (Boundary(s + chunk, i) <==> Boundary(chunk, i - |s|))
    {
      BoundaryAppend(s, chunk, i);
    }
    EndIsBoundary(s);
    if limit <= |s| {
      FloorUnique(s + chunk, limit, Floor(s, limit));
    } else if limit <= |s| + |chunk| {
      var f := Floor(chunk, limit - |s|);
      assert f > 0 ==> Boundary(s + chunk, |s| + f);
      forall j | |s| + f < j <= limit ensures !Boundary(s + chunk, j) {
        assert !Boundary(chunk, j - |s|);
      }
      FloorUnique(s + chunk, limit, |s| + f);
    }
  }

  lemma EndIsBoundary(s: seq<Byte>)
    ensures Boundary(s, |s|) && Boundary(s, 0)
  {
  }

  // ---------- What is captured ----------

  /** The text that went past the head, in order. */
  function Rest(limit: nat, chunks: seq<seq<Byte>>): seq<Byte> {
    if chunks == [] then []
    else
      var front, chunk := chunks[..|chunks| - 1], chunks[|chunks| - 1];
      var head := After(limit, front).head;
      if |head| < limit && |head| + |chunk| <= limit then Rest(limit, front)
      else Rest(limit, front) + chunk[if |head| < limit then Floor(chunk, limit - |head|) else 0..]
  }

  /** For any text cut anywhere: both ends stay within the limit, no byte is lost before the tail, and
      the tail is the longest end of what went past the head. */
  lemma {:induction false} TailIsEndOfRest(limit: nat, chunks: seq<seq<Byte>>)
    requires forall i :: 0 <= i < |chunks| ==> StartsCleanly(chunks[i])
    ensures var kept := After(limit, chunks);
            && |kept.head| <= limit && |kept.head| + |Rest(limit, chunks)| == |Concat(chunks)|
            && kept.tail == LastBytes(Rest(limit, chunks), limit)
  {
    hide LastBytes;
    if chunks != [] {
      var front, chunk := chunks[..|chunks| - 1], chunks[|chunks| - 1];
      TailIsEndOfRest(limit, front);
      var head := After(limit, front).head;
      if !(|head| < limit && |head| + |chunk| <= limit) {
        var split := if |head| < limit then Floor(chunk, limit - |head|) else 0;
        LastBytesAppend(Rest(limit, front), chunk[split..], limit);
      }
    }
  }

  lemma SettledPrefix(limit: nat, s: seq<Byte>, chunk: seq<Byte>)
    requires StartsCleanly(chunk) && Settled(limit, s + chunk)
    ensures Settled(limit, s)
  {
    hide Boundary, Floor, StartsCleanly;
    forall p, q | limit < p < q <= |s| && Boundary(s, p) && Boundary(s, q) ensures q - p > limit - Floor(s, limit) {
      BoundaryAppend(s, chunk, p);
      BoundaryAppend(s, chunk, q);
      FloorAppend(s, chunk, limit);
      assert limit < p < q <= |s + chunk|;
    }
  }

  /** Once the stream has passed the limit, a settled stream leaves no room for a later chunk. */
  lemma NoRefill(limit: nat, s: seq<Byte>, chunk: seq<Byte>, room: nat)
    requires StartsCleanly(chunk) && Settled(limit, s + chunk) && |s| > limit && chunk != []
    requires room == limit - Floor(s + chunk, limit)
    ensures room < |chunk| && Floor(chunk, room) == 0
  {
    hide Floor, StartsCleanly;
    BoundaryAppend(s, chunk, |s|);
    forall j | 0 < j <= |chunk| && Boundary(chunk, j) ensures j > room {
      BoundaryAppend(s, chunk, |s| + j);
      assert limit < |s| < |s| + j <= |s + chunk|;
    }
    EndIsBoundary(chunk);
    assert |chunk| > room;
    FloorUnique(chunk, room, 0);
  }

  /** How much of `chunk` still goes into a head of `used` bytes. */
  function Taken(limit: nat, used: nat, chunk: seq<Byte>): (n: nat)
    ensures n <= |chunk|
  {
    if used >= limit then 0 else if used + |chunk| <= limit then |chunk| else Floor(chunk, limit - used)
  }

  function HeadLength(limit: nat, stream: seq<Byte>): (n: nat)
    ensures n <= |stream|
  {
    if |stream| <= limit then |stream| else Floor(stream, limit)
  }

  /** For a settled stream, a chunk adds to the head exactly what the stream's head gains. */
  lemma HeadGrows(limit: nat, before: seq<Byte>, chunk: seq<Byte>)
    requires StartsCleanly(chunk) && Settled(limit, before + chunk)
    ensures var used, taken := HeadLength(limit, before), Taken(limit, HeadLength(limit, before), chunk);
            && HeadLength(limit, before + chunk) == used + taken
            && (taken > 0 ==> used == |before|)
  {
    hide Boundary, Floor, StartsCleanly, Settled;
    FloorAppend(before, chunk, limit);
    if |before| <= limit {
      EndIsBoundary(before);
      FloorEnd(before, limit);
    } else if chunk != [] {
      NoRefill(limit, before, chunk, limit - Floor(before + chunk, limit));
    }
  }

  lemma FloorEnd(s: seq<Byte>, limit: nat)
    ensures limit == |s| ==> Floor(s, limit) == limit
    ensures forall chunk: seq<Byte> :: Floor(chunk, 0) == 0
  {
  }

  lemma TakeSplit(before: seq<Byte>, chunk: seq<Byte>, used: nat, taken: nat)
    requires used <= |before| && taken <= |chunk| && (taken > 0 ==> used == |before|)
    ensures (before + chunk)[..used + taken] == before[..used] + chunk[..taken]
    ensures (before + chunk)[used + taken..] == before[used..] + chunk[taken..]
  {
  }

  lemma {:induction false} HeadUnfold(limit: nat, chunks: seq<seq<Byte>>)
    requires chunks != []
    ensures var front, chunk := chunks[..|chunks| - 1], chunks[|chunks| - 1];
            var taken := Taken(limit, |After(limit, front).head|, chunk);
            && After(limit, chunks).head == After(limit, front).head + chunk[..taken]
            && Rest(limit, chunks) == Rest(limit, front) + chunk[taken..]
            && Concat(chunks) == Concat(front) + chunk
  {
    hide Floor, LastBytes;
  }

  /** For a settled stream it makes no difference how it was cut: the head is its text up to the limit,
      and everything after that went past the head. */
  lemma {:induction false} HeadIsPrefix(limit: nat, chunks: seq<seq<Byte>>, stream: seq<Byte>)
    requires Cuts(chunks, stream) && Settled(limit, stream)
    ensures After(limit, chunks).head == stream[..HeadLength(limit, stream)]
    ensures Rest(limit, chunks) == stream[HeadLength(limit, stream)..]
  {
    hide After, Rest, Concat, Settled, StartsCleanly, HeadLength, Taken;
    if chunks == [] {
      NothingCaptured(limit);
    } else {
      var front, chunk := chunks[..|chunks| - 1], chunks[|chunks| - 1];
      HeadUnfold(limit, chunks);
      SettledPrefix(limit, Concat(front), chunk);
      HeadIsPrefix(limit, front, Concat(front));
      HeadGrows(limit, Concat(front), chunk);
      var used := HeadLength(limit, Concat(front));
      TakeSplit(Concat(front), chunk, used, Taken(limit, used, chunk));
    }
  }

  lemma NothingCaptured(limit: nat)
    ensures Concat([]) == [] && After(limit, []).head == [] && Rest(limit, []) == [] && HeadLength(limit, []) == 0
  {
  }

  /** Some empty chunk arrived after the head was full. */
  ghost predicate EmptyWhenFull(limit: nat, chunks: seq<seq<Byte>>) {
    exists i :: 0 <= i < |chunks| && chunks[i] == [] && |Concat(chunks[..i])| >= limit
  }

  /** While the stream fits, the head is the whole of it; the truncation mark is set exactly when it does
      not fit, or an empty chunk found the head full. */
  lemma {:induction false} TruncatedExactly(limit: nat, chunks: seq<seq<Byte>>)
    ensures |Concat(chunks)| <= limit ==> After(limit, chunks).head == Concat(chunks)
    ensures After(limit, chunks).truncated <==> |Concat(chunks)| > limit || EmptyWhenFull(limit, chunks)
  {
    hide Floor, LastBytes, EmptyWhenFull;
    if chunks == [] {
      NoEmptyChunk(limit);
    } else {
      TruncatedExactly(limit, chunks[..|chunks| - 1]);
      EmptyWhenFullSnoc(limit, chunks);
    }
  }

  lemma NoEmptyChunk(limit: nat)
    ensures !EmptyWhenFull(limit, [])
  {
  }

  lemma {:induction false} EmptyWhenFullSnoc(limit: nat, chunks: seq<seq<Byte>>)
    requires chunks != []
    ensures var front := chunks[..|chunks| - 1];
            EmptyWhenFull(limit, chunks) <==>
            EmptyWhenFull(limit, front) || (chunks[|chunks| - 1] == [] && |Concat(front)| >= limit)
  {
    hide Concat;
    var front := chunks[..|chunks| - 1];
    assert forall i :: 0 <= i <= |front| ==> front[..i] == chunks[..i];
  }

  ghost predicate SameEnds(a: Kept, b: Kept) {
    a.head == b.head && a.tail == b.tail
  }

  /** The exact condition. What is kept depends on the stream alone, however it is cut into chunks, if and
      only if no later character fits into the room left at the limit. */
  lemma ChunkingIndependent(limit: nat, stream: seq<Byte>)
    requires StartsCleanly(stream)
    ensures (forall chunks :: Cuts(chunks, stream) ==> SameEnds(After(limit, chunks), Ideal(limit, stream)))
            <==> Settled(limit, stream)
  {
    hide After, Settled, Cuts;
    if Settled(limit, stream) {
      forall chunks | Cuts(chunks, stream) ensures SameEnds(After(limit, chunks), Ideal(limit, stream)) {
        SettledEnds(limit, chunks, stream);
      }
    } else {
      var chunks := SkippingCut(limit, stream);
      assert !SameEnds(After(limit, chunks), Ideal(limit, stream));
    }
  }

  lemma SettledEnds(limit: nat, chunks: seq<seq<Byte>>, stream: seq<Byte>)
    requires Cuts(chunks, stream) && Settled(limit, stream)
    ensures SameEnds(After(limit, chunks), Ideal(limit, stream))
  {
    hide After, Rest, Settled, Floor, LastBytes;
    HeadIsPrefix(limit, chunks, stream);
    TailIsEndOfRest(limit, chunks);
  }

  /** Otherwise one cut puts a later character into the head, ahead of the one that did not fit. */
  lemma SkippingCut(limit: nat, stream: seq<Byte>) returns (chunks: seq<seq<Byte>>)
    requires StartsCleanly(stream) && !Settled(limit, stream)
    ensures Cuts(chunks, stream) && |After(limit, chunks).head| > |Ideal(limit, stream).head|
  {
    hide Floor, LastBytes, After, Rest, Concat;
    var p, q :| limit < p < q <= |stream| && Boundary(stream, p) && Boundary(stream, q)
                && q - p <= limit - Floor(stream, limit);
    var a, b, c := stream[..p], stream[p..q], stream[q..];
    assert stream == a + stream[p..] && a + b + c == stream;
    FloorAppend(a, stream[p..], limit);
    chunks := [a, b, c];
    ThreeChunks(limit, a, b, c);
  }

  lemma ThreeChunks(limit: nat, a: seq<Byte>, b: seq<Byte>, c: seq<Byte>)
    requires |a| > limit && Floor(a, limit) + |b| <= limit
    ensures |After(limit, [a, b, c]).head| >= Floor(a, limit) + |b|
    ensures Concat([a, b, c]) == a + b + c
  {
    hide Floor, LastBytes, After, Rest, Concat;
    assert [a, b, c][..2] == [a, b] && [a, b][..1] == [a] && |[a][..0]| == 0;
    HeadUnfold(limit, [a, b, c]);
    HeadUnfold(limit, [a, b]);
    HeadUnfold(limit, [a]);
    NothingCaptured(limit);
  }

  /** Real text that is not settled: with a limit of two bytes, the three bytes of the second character do
      not fit after the first, and the third character does or does not take the room they left. */
  lemma TextSkips()
    ensures var whole, parts := [Encode("a\U{20AC}b")], [Encode("a\U{20AC}"), Encode("b")];
            && Cuts(whole, Encode("a\U{20AC}b")) && Cuts(parts, Encode("a\U{20AC}b"))
            && After(2, whole).head == Encode("a") && After(2, parts).head == Encode("ab")
  {
    hide Encode, After, Rest, Concat, Floor, LastBytes;
    SampleBytes();
    var stream, euro, b := Encode("a\U{20AC}b"), Encode("a\U{20AC}"), Encode("b");
    assert stream == euro + b && stream[..1] == Encode("a") && euro[..1] == Encode("a");
    FloorUnique(stream, 2, 1);
    FloorUnique(euro, 2, 1);
    OneChunk(2, stream);
    OneChunk(2, euro);
    var parts: seq<seq<Byte>> := [euro, b];
    assert parts[..1] == [euro] && b[..1] == b;
    HeadUnfold(2, parts);
    assert Encode("ab") == Encode("a") + b;
  }

  lemma OneChunk(limit: nat, chunk: seq<Byte>)
    ensures After(limit, [chunk]).head == chunk[..Taken(limit, 0, chunk)] && Concat([chunk]) == chunk
  {
    hide Floor, LastBytes, After, Rest, Concat;
    var chunks: seq<seq<Byte>> := [chunk];
    assert |chunks[..0]| == 0;
    HeadUnfold(limit, chunks);
    NothingCaptured(limit);
  }

  lemma SampleBytes()
    ensures Encode("a") == [0x61] && Encode("b") == [0x62] && Encode("ab") == [0x61, 0x62]
    ensures Encode("a\U{20AC}") == [0x61, 0xE2, 0x82, 0xAC] && Encode("a\U{20AC}b") == [0x61, 0xE2, 0x82, 0xAC, 0x62]
  {
    EncodeOne('a');
    EncodeOne('b');
    EncodeOne('\U{20AC}');
    assert Tail(2, 0) == [] && Tail(130, 1) == [0x82] && Tail(0x20AC, 2) == [0x82, 0xAC];
    assert EncodeChar('\U{20AC}') == [0xE2, 0x82, 0xAC];
    EncodeAppend("a", "b");
    EncodeAppend("a", "\U{20AC}");
    EncodeAppend("a\U{20AC}", "b");
    assert "a" + "b" == "ab" && "a" + "\U{20AC}" == "a\U{20AC}" && "a\U{20AC}" + "b" == "a\U{20AC}b";
  }

  lemma EncodeOne(c: char)
    ensures Encode([c]) == EncodeChar(c)
  {
    hide EncodeChar;
    assert [c][1..] == "";
  }

  /** Single-byte text is always settled: the first and the last bytes are kept. */
  lemma AsciiEnds(limit: nat, chunks: seq<seq<Byte>>, stream: seq<Byte>)
    requires Concat(chunks) == stream && forall i :: 0 <= i < |stream| ==> !IsContinuation(stream[i])
    ensures var kept, split := After(limit, chunks), Min(limit, |stream|);
            && kept.head == stream[..split]
            && kept.tail == stream[split..][|stream| - split - Min(limit, |stream| - split)..]
  {
    hide Floor, LastBytes, After, Concat;
    var split := Min(limit, |stream|);
    forall j | 0 <= j <= |stream| ensures Boundary(stream, j) {
    }
    AsciiCuts(chunks, stream);
    assert Boundary(stream, split);
    FloorUnique(stream, split, split);
    SettledEnds(limit, chunks, stream);
    var rest := stream[split..];
    LastBytesUnique(rest, limit, |rest| - Min(limit, |rest|));
  }

  lemma {:induction false} AsciiCuts(chunks: seq<seq<Byte>>, stream: seq<Byte>)
    requires Concat(chunks) == stream && forall i :: 0 <= i < |stream| ==> !IsContinuation(stream[i])
    ensures Cuts(chunks, stream)
  {
    if chunks != [] {
      var front, chunk := chunks[..|chunks| - 1], chunks[|chunks| - 1];
      assert forall i :: 0 <= i < |Concat(front)| ==> Concat(front)[i] == stream[i];
      AsciiCuts(front, Concat(front));
      assert forall i :: 0 <= i < |chunk| ==> chunk[i] == stream[|Concat(front)| + i];
    }
  }
}
