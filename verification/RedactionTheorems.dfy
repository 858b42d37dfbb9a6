/** What all redaction passes together keep of a text, and what redacting a stream chunk by chunk promises. */
module RedactionTheorems {
  import opened Text
  import opened Redaction

  // ---------- Chunk by chunk ----------

  /** The process loop redacts every chunk on its own. */
  function RedactChunks(chunks: seq<string>): string {
    if chunks == [] then "" else RedactAll(chunks[0], MARKERS) + RedactChunks(chunks[1..])
  }

  /** The marker is cut: its first `n` characters end `a`, the others start `b`. */
  predicate CutMarker(m: string, a: string, b: string, n: nat) {
    && 0 < n < |m| && n <= |a| && |m| - n <= |b|
    && SameText(m[..n], a[|a| - n..]) && SameText(m[n..], b[..|m| - n])
  }

  /** `a` ends in the replacement of a secret of this marker. */
  ghost predicate EndsReplaced(m: string, a: string) {
    exists i: nat :: Occurs(m, a, i) && SkipWhitespace(a, i + |m|) + |REDACTED| == |a|
  }

  /** The cut between `a` and `b` keeps the marker's secrets whole: a secret replaced at the end of `a` does not
      go on in `b`, and a marker that is itself cut is followed by a replacement. */
  ghost predicate KeptWhole(m: string, a: string, b: string) {
    && (EndsReplaced(m, a) ==> b == [] || IsWhitespace(b[0]))
    && (forall n: nat :: CutMarker(m, a, b, n) ==> Covered(b, |m| - n))
  }

  lemma SameTextSplit(m: string, w: string, n: nat)
    requires n <= |m| == |w|
    ensures SameText(m, w) <==> SameText(m[..n], w[..n]) && SameText(m[n..], w[n..])
  {
    hide Lower;
    if SameText(m[..n], w[..n]) && SameText(m[n..], w[n..]) {
      forall j | 0 <= j < |m| ensures Lower(m[j]) == Lower(w[j]) {
        assert if j < n then m[..n][j] == m[j] && w[..n][j] == w[j]
               else m[n..][j - n] == m[j] && w[n..][j - n] == w[j];
      }
    }
  }

  lemma CutOccurs(m: string, a: string, b: string, n: nat)
    requires 0 < n < |m| && n <= |a|
    ensures CutMarker(m, a, b, n) <==> Occurs(m, a + b, |a| - n)
  {
    hide SameText;
    var v, i := a + b, |a| - n;
    if i + |m| <= |v| {
      var w := v[i..i + |m|];
      assert w[..n] == a[i..] && w[n..] == b[..|m| - n];
      SameTextSplit(m, w, n);
    }
  }

  /** What stands between a marker in `a` and the replacement after it. */
  lemma CoveredInFront(a: string, b: string, i: nat)
    requires i <= |a| && Covered(a, i)
    ensures Covered(a + b, i) <==>
            (SkipWhitespace(a, i) + |REDACTED| == |a| ==> b == [] || IsWhitespace(b[0]))
  {
    hide IsWhitespace, SkipWhitespace;
    var v, k := a + b, SkipWhitespace(a, i);
    BracketsAreNotWhitespace();
    assert a[k] == REDACTED[0];
    SkipUnique(v, i, k);
    assert v[k..k + |REDACTED|] == a[k..k + |REDACTED|];
  }

  lemma OccursInFront(m: string, a: string, b: string, i: nat)
    requires i + |m| <= |a|
    ensures Occurs(m, a, i) <==> Occurs(m, a + b, i)
  {
    assert (a + b)[..|a|] == a;
    OccursWithin(m, a + b, |a|, i);
  }

  lemma OccursBehind(m: string, a: string, b: string, i: nat)
    ensures Occurs(m, b, i) <==> Occurs(m, a + b, |a| + i)
    ensures i + |m| <= |b| ==> (Covered(b, i + |m|) <==> Covered(a + b, |a| + i + |m|))
  {
    hide SameText, Covered;
    assert (a + b)[|a|..] == b;
    if i <= |b| {
      OccursShift(m, a + b, |a|, |a| + i);
      if i + |m| <= |b| {
        CoveredShift(a + b, |a|, |a| + i + |m|);
      }
    }
  }

  /** Two texts joined are guarded exactly when the second is and the cut keeps the secrets whole. */
  lemma JoinGuarded(m: string, a: string, b: string)
    requires m != [] && Guarded(m, a)
    ensures Guarded(m, a + b) <==> Guarded(m, b) && KeptWhole(m, a, b)
  {
    hide SameText, IsWhitespace, SkipWhitespace, Covered, CutMarker;
    if Guarded(m, b) && KeptWhole(m, a, b) {
      forall i: nat | Occurs(m, a + b, i) ensures Covered(a + b, i + |m|) {
        JoinedOccurrence(m, a, b, i);
      }
    }
    if Guarded(m, a + b) {
      forall i: nat | Occurs(m, b, i) ensures Covered(b, i + |m|) {
        OccursBehind(m, a, b, i);
      }
      JoinedKept(m, a, b);
    }
  }

  lemma JoinedOccurrence(m: string, a: string, b: string, i: nat)
    requires m != [] && Guarded(m, a) && Guarded(m, b) && KeptWhole(m, a, b) && Occurs(m, a + b, i)
    ensures Covered(a + b, i + |m|)
  {
    hide SameText, IsWhitespace, SkipWhitespace, Covered, CutMarker;
    if i + |m| <= |a| {
      OccursInFront(m, a, b, i);
      CoveredInFront(a, b, i + |m|);
    } else if i >= |a| {
      OccursBehind(m, a, b, i - |a|);
    } else {
      var n := |a| - i;
      CutOccurs(m, a, b, n);
      assert (a + b)[|a|..] == b;
      CoveredShift(a + b, |a|, i + |m|);
    }
  }

  lemma JoinedKept(m: string, a: string, b: string)
    requires m != [] && Guarded(m, a) && Guarded(m, a + b)
    ensures KeptWhole(m, a, b)
  {
    hide SameText, IsWhitespace, SkipWhitespace, Covered;
    forall i: nat | Occurs(m, a, i) && SkipWhitespace(a, i + |m|) + |REDACTED| == |a|
      ensures b == [] || IsWhitespace(b[0])
    {
      OccursInFront(m, a, b, i);
      CoveredInFront(a, b, i + |m|);
    }
    forall n: nat | CutMarker(m, a, b, n) ensures Covered(b, |m| - n) {
      CutOccurs(m, a, b, n);
      assert (a + b)[|a|..] == b;
      CoveredShift(a + b, |a|, |a| - n + |m|);
    }
  }

  /** The stream as it is handed on satisfies the post-condition of `redact_secrets` exactly when every cut
      between two chunks keeps the secrets whole. */
  lemma {:induction false} ChunksGuarded(chunks: seq<string>, i: nat)
    requires i < |MARKERS|
    ensures Guarded(MARKERS[i], RedactChunks(chunks)) <==>
            forall k :: 0 <= k < |chunks| ==>
              KeptWhole(MARKERS[i], RedactAll(chunks[k], MARKERS), RedactChunks(chunks[k + 1..]))
  {
    hide Guarded, KeptWhole, RedactAll;
    var m := MARKERS[i];
    MarkersClean(i);
    CleanMarker(m);
    if chunks == [] {
      NothingToGuard(m);
    } else {
      var a, rest := RedactAll(chunks[0], MARKERS), chunks[1..];
      SecretsGuarded(chunks[0], i);
      JoinGuarded(m, a, RedactChunks(rest));
      ChunksGuarded(rest, i);
      assert forall k :: 0 <= k < |rest| ==> rest[k] == chunks[k + 1] && rest[k + 1..] == chunks[k + 2..];
      assert forall k :: 0 < k < |chunks| ==> chunks[k] == rest[k - 1] && chunks[k + 1..] == rest[k..];
    }
  }

  lemma CleanMarker(m: string)
    requires Clean(m)
    ensures m != [] && !IsWhitespace(m[0]) && '[' !in m
  {
  }

  lemma NothingToGuard(m: string)
    requires m != []
    ensures Guarded(m, "")
  {
  }

  /** A text shorter than every marker is left alone. */
  lemma ShortText(v: string)
    requires |v| < 6
    ensures RedactAll(v, MARKERS) == v
  {
    hide Covered, RedactAll, SameText;
    forall i | 0 <= i < |MARKERS| ensures Guarded(MARKERS[i], v) {
      assert |MARKERS[i]| >= 6;
    }
    SecretsFixed(v);
  }

  /** A marker cut in two is not found in either chunk, so the word after it is handed on as it is. */
  lemma CutMarkerMissed()
    ensures RedactChunks(["tok", "en=ab"]) == "token=ab"
    ensures !Guarded(MARKERS[0], RedactChunks(["tok", "en=ab"]))
  {
    hide Covered, RedactAll, SameText;
    ShortText("tok");
    ShortText("en=ab");
    var chunks: seq<string> := ["tok", "en=ab"];
    var rest: seq<string> := ["en=ab"];
    assert chunks[1..] == rest && rest[1..] == [];
    assert RedactChunks(chunks[1..]) == "en=ab" + "";
    assert RedactChunks(chunks) == "token=ab";
    var m := MARKERS[0];
    assert Occurs(m, "token=ab", 0) by {
      assert "token=ab"[0..6] == m;
      SameTextSelf(m);
    }
    TooShortToCover("token=ab", 6);
  }

  lemma SameTextSelf(m: string)
    ensures SameText(m, m)
  {
  }

  lemma TooShortToCover(v: string, i: nat)
    requires i <= |v| && |v| < i + |REDACTED|
    ensures !Covered(v, i)
  {
    hide IsWhitespace;
  }

  // ---------- All passes together ----------

  /** A stretch that is a word, or the empty end of the text. */
  predicate Word(v: string, span: Span) {
    span.from <= |v| && span.to == WordEnd(v, span.from) && (span.from < |v| ==> !IsWhitespace(v[span.from]))
  }

  /** Words in increasing order with something between them. */
  predicate Words(v: string, spans: seq<Span>) {
    && (forall k :: 0 <= k < |spans| ==> Word(v, spans[k]))
    && (forall k :: 0 < k < |spans| ==> spans[k - 1].to < spans[k].from)
  }

  /** `q` lies between the first `n` stretches and the others. */
  predicate Between(v: string, spans: seq<Span>, c: nat, n: nat, q: nat) {
    && n <= |spans| && c <= q <= |v|
    && (n > 0 ==> spans[n - 1].to <= q) && (n < |spans| ==> q <= spans[n].from)
  }

  lemma {:induction false} OrderedCut(v: string, spans: seq<Span>, c: nat, n: nat, q: nat)
    requires Ordered(v, spans, c) && Between(v, spans, c, n, q)
    ensures Ordered(v[..q], spans[..n], c) && Ordered(v, spans[n..], q)
    ensures n > 0 ==> c <= spans[0].from <= spans[0].to <= q
  {
    if n > 0 {
      var rest := spans[1..];
      OrderedFrom(v, rest, spans[0].to, n - 1);
      OrderedCut(v, rest, spans[0].to, n - 1, q);
      assert rest[..n - 1] == spans[..n][1..] && rest[n - 1..] == spans[n..];
    }
  }

  lemma {:induction false} OrderedFrom(v: string, spans: seq<Span>, c: nat, n: nat)
    requires Ordered(v, spans, c) && n <= |spans|
    ensures n > 0 ==> c <= spans[n - 1].to
  {
    if n > 1 {
      OrderedFrom(v, spans[1..], spans[0].to, n - 1);
    }
  }

  lemma Regroup(a: string, b: string, x: string, t: string)
    ensures a + b + x + t == a + (b + x + t)
  {
  }

  lemma Unmask(v: string, spans: seq<Span>, c: nat)
    requires spans != [] && Ordered(v, spans, c)
    ensures c <= spans[0].from <= spans[0].to <= |v| && Ordered(v, spans[1..], spans[0].to)
    ensures Mask(v, spans, c) == v[c..spans[0].from] + REDACTED + Mask(v, spans[1..], spans[0].to)
  {
  }

  lemma MaskFrom(v: string, spans: seq<Span>, c: nat, q: nat)
    requires c <= q && Ordered(v, spans, q)
    ensures Ordered(v, spans, c) && q <= |v| && Mask(v, spans, c) == v[c..q] + Mask(v, spans, q)
  {
    if spans == [] {
      assert v[c..] == v[c..q] + v[q..];
    } else {
      MaskFromNext(v, spans, c, q);
    }
  }

  lemma MaskFromNext(v: string, spans: seq<Span>, c: nat, q: nat)
    requires c <= q && spans != [] && Ordered(v, spans, q) && Ordered(v, spans, c)
    ensures q <= |v| && Mask(v, spans, c) == v[c..q] + Mask(v, spans, q)
  {
    hide *;
    Unmask(v, spans, c);
    Unmask(v, spans, q);
    var from := spans[0].from;
    assert v[c..from] == v[c..q] + v[q..from];
    Regroup(v[c..q], v[q..from], REDACTED, Mask(v, spans[1..], spans[0].to));
  }

  /** Replacing in two parts. */
  lemma {:induction false} MaskGlue(v: string, before: seq<Span>, c: nat, q: nat, after: seq<Span>)
    requires q <= |v| && Ordered(v[..q], before, c) && Ordered(v, after, q)
    ensures Ordered(v, before + after, c)
    ensures Mask(v, before + after, c) == Mask(v[..q], before, c) + Mask(v, after, q)
  {
    if before == [] {
      assert before + after == after;
      MaskFrom(v, after, c, q);
    } else {
      MaskGlue(v, before[1..], before[0].to, q, after);
      assert (before + after)[1..] == before[1..] + after;
      MaskGlueNext(v, before, c, q, after);
    }
  }

  lemma MaskGlueNext(v: string, before: seq<Span>, c: nat, q: nat, after: seq<Span>)
    requires q <= |v| && Ordered(v[..q], before, c) && Ordered(v, after, q) && before != []
    requires Ordered(v, before + after, c) && Ordered(v[..q], before[1..], before[0].to)
    requires Ordered(v, before[1..] + after, before[0].to)
    requires Mask(v, before[1..] + after, before[0].to) ==
             Mask(v[..q], before[1..], before[0].to) + Mask(v, after, q)
    ensures Mask(v, before + after, c) == Mask(v[..q], before, c) + Mask(v, after, q)
  {
    hide *;
    Unmask(v, before + after, c);
    Unmask(v[..q], before, c);
    var from, to := before[0].from, before[0].to;
    assert (before + after)[1..] == before[1..] + after;
    var head := v[c..from];
    assert v[..q][c..from] == head;
    Regroup(head, REDACTED, Mask(v[..q], before[1..], to), Mask(v, after, q));
    assert head + REDACTED + (Mask(v[..q], before[1..], to) + Mask(v, after, q)) ==
           head + REDACTED + Mask(v[..q], before[1..], to) + Mask(v, after, q);
  }

  /** Position `p` of the masked text is position `o` of the text, behind the first `n` replacements. */
  ghost predicate At(v: string, spans: seq<Span>, c: nat, p: nat, n: nat, o: nat) {
    && Between(v, spans, c, n, o) && Ordered(v, spans, c)
    && Ordered(v[..o], spans[..n], c) && Ordered(v, spans[n..], o)
    && |Mask(v[..o], spans[..n], c)| == p
    && Mask(v, spans, c) == Mask(v[..o], spans[..n], c) + Mask(v, spans[n..], o)
  }

  lemma AtMeans(v: string, spans: seq<Span>, c: nat, p: nat, n: nat, o: nat)
    requires At(v, spans, c, p, n, o)
    ensures n <= |spans| && c <= o <= |v| && Ordered(v[..o], spans[..n], c) && Ordered(v, spans[n..], o)
    ensures n > 0 ==> spans[n - 1].to <= o
  {
  }

  lemma AtFirst(v: string, spans: seq<Span>, c: nat, o: nat)
    requires Ordered(v, spans, c) && Between(v, spans, c, 0, o)
    ensures At(v, spans, c, o - c, 0, o)
  {
    assert spans[..0] == [] && spans[0..] == spans;
    OrderedCut(v, spans, c, 0, o);
    MaskFrom(v, spans, c, o);
    assert v[..o][c..] == v[c..o];
  }

  lemma AtNext(v: string, spans: seq<Span>, c: nat, p: nat, n: nat, o: nat)
    requires Ordered(v, spans, c) && spans != [] && At(v, spans[1..], spans[0].to, p, n, o)
    ensures At(v, spans, c, spans[0].from - c + |REDACTED| + p, n + 1, o)
  {
    var rest := spans[1..];
    OrderedFrom(v, rest, spans[0].to, n);
    assert spans[..n + 1][1..] == rest[..n] && spans[n + 1..] == rest[n..];
    assert v[..o][c..spans[0].from] == v[c..spans[0].from];
    MaskGlue(v, spans[..n + 1], c, o, spans[n + 1..]);
    assert spans == spans[..n + 1] + spans[n + 1..];
  }

  /** An occurrence of a marker in the masked text stands between two replacements, so the text has it too. */
  lemma {:induction false} FindInMask(m: string, v: string, spans: seq<Span>, c: nat, p: nat) returns (n: nat, o: nat)
    requires Clean(m) && Ordered(v, spans, c) && Occurs(m, Mask(v, spans, c), p)
    ensures At(v, spans, c, p, n, o) && n <= |spans|
    ensures Occurs(m, v, o) && (n < |spans| ==> o + |m| <= spans[n].from)
    decreases |spans|
  {
    hide Clean, SameText, At, IsWhitespace;
    OccursWithinLength(m, Mask(v, spans, c), p);
    if spans == [] || p + |m| <= spans[0].from - c {
      n, o := 0, c + p;
      FrontOccurs(m, v, spans, c, p);
      AtFirst(v, spans, c, o);
    } else {
      var a, t := v[c..spans[0].from], Mask(v, spans[1..], spans[0].to);
      OccursSplit(m, a, t, p);
      var skipped := |a| + |REDACTED|;
      assert (a + REDACTED + t)[skipped..] == t;
      OccursShift(m, a + REDACTED + t, skipped, p);
      n, o := FindInMask(m, v, spans[1..], spans[0].to, p - skipped);
      AtNext(v, spans, c, p - skipped, n, o);
      n := n + 1;
    }
  }

  lemma FrontOccurs(m: string, v: string, spans: seq<Span>, c: nat, p: nat)
    requires Ordered(v, spans, c) && (spans != [] ==> p + |m| <= spans[0].from - c)
    ensures Occurs(m, Mask(v, spans, c), p) <==> Occurs(m, v, c + p)
  {
    hide SameText;
    if c + p <= |v| {
      OccursShift(m, v, c, c + p);
      if spans != [] {
        var a, w := v[c..spans[0].from], Mask(v, spans, c);
        assert w[..|a|] == a == v[c..][..|a|];
        OccursWithin(m, w, |a|, p);
        OccursWithin(m, v[c..], |a|, p);
      }
    }
  }

  /** Moving on without meeting a replacement. */
  lemma AtLater(v: string, spans: seq<Span>, c: nat, p: nat, n: nat, o: nat, q: nat)
    requires At(v, spans, c, p, n, o) && o <= q && Between(v, spans, c, n, q)
    ensures At(v, spans, c, p + (q - o), n, q)
  {
    hide IsWhitespace;
    var before, after := spans[..n], spans[n..];
    assert spans == before + after;
    OrderedCut(v, spans, c, n, q);
    MaskGlue(v, before, c, q, after);
    MaskFrom(v, after, o, q);
    assert |v[o..q]| == q - o;
  }

  /** Whitespace is skipped in the masked text as in the text. */
  lemma SkipInMask(v: string, spans: seq<Span>, o: nat, w: string, cur: nat, d: nat)
    requires Ordered(v, spans, o) && cur <= |w| && w[cur..] == Mask(v, spans, o) && o + d <= |v|
    requires spans != [] ==> o + d <= spans[0].from && Word(v, spans[0])
    ensures cur + d <= |w| && o <= SkipWhitespace(v, o + d)
    ensures SkipWhitespace(w, cur + d) == cur + (SkipWhitespace(v, o + d) - o)
    ensures spans != [] ==> SkipWhitespace(v, o + d) <= spans[0].from
  {
    hide IsWhitespace, SkipWhitespace, WordEnd;
    var q := SkipWhitespace(v, o + d);
    if spans == [] {
      assert forall x :: o <= x < |v| ==> w[cur..][x - o] == v[x];
    } else {
      var from := spans[0].from;
      assert from < |v| ==> !IsWhitespace(v[from]);
      assert forall x :: o <= x < from ==> w[cur..][x - o] == v[x];
      BracketsAreNotWhitespace();
      assert w[cur..][from - o] == REDACTED[0];
    }
    assert forall x :: cur <= x < |w| ==> w[x] == w[cur..][x - cur];
    SkipUnique(w, cur + d, cur + (q - o));
  }

  /** A word of the masked text ends where the word of the text does; it may swallow a replacement. */
  lemma WordInMask(v: string, spans: seq<Span>, q: nat, w: string, cur: nat) returns (n: nat)
    requires Ordered(v, spans, q) && Words(v, spans) && cur <= |w| && w[cur..] == Mask(v, spans, q)
    ensures n <= |spans| && Ordered(v, spans[n..], WordEnd(v, q))
    ensures w[WordEnd(w, cur)..] == Mask(v, spans[n..], WordEnd(v, q))
    ensures n < |spans| ==> WordEnd(v, q) < spans[n].from
  {
    hide IsWhitespace, WordEnd;
    var e := WordEnd(v, q);
    assert forall x :: cur <= x < |w| ==> w[x] == w[cur..][x - cur];
    if spans == [] || e < spans[0].from {
      n := 0;
      WordAlone(v, spans, q, w, cur);
    } else {
      n := 1;
      WordSwallows(v, spans, q, w, cur);
    }
  }

  lemma Cuts(w: string, cur: nat, a: string, b: string)
    requires cur <= |w| && w[cur..] == a + b
    ensures cur + |a| <= |w| && w[cur..cur + |a|] == a && w[cur + |a|..] == b
  {
    assert |w| == cur + |a| + |b|;
    assert w[cur..cur + |a|] == w[cur..][..|a|];
    assert w[cur + |a|..] == w[cur..][|a|..];
  }

  /** Up to the next replacement the masked text reads like the text. */
  lemma MaskReads(v: string, spans: seq<Span>, q: nat, w: string, cur: nat, d: nat)
    requires Ordered(v, spans, q) && cur <= |w| && w[cur..] == Mask(v, spans, q)
    ensures q <= |v| && (spans == [] ==> |w| - cur == |v| - q)
    ensures q + d < (if spans == [] then |v| else spans[0].from) ==> cur + d < |w| && w[cur + d] == v[q + d]
  {
    assert cur + d < |w| ==> w[cur..][d] == w[cur + d];
  }

  lemma WordAlone(v: string, spans: seq<Span>, q: nat, w: string, cur: nat)
    requires Ordered(v, spans, q) && cur <= |w| && w[cur..] == Mask(v, spans, q)
    requires spans != [] ==> WordEnd(v, q) < spans[0].from
    ensures Ordered(v, spans[0..], WordEnd(v, q))
    ensures w[WordEnd(w, cur)..] == Mask(v, spans[0..], WordEnd(v, q))
  {
    hide IsWhitespace, WordEnd, Mask;
    var e := WordEnd(v, q);
    assert spans[0..] == spans;
    assert (if spans == [] then |v| else spans[0].from) >= e;
    forall x | cur <= x < cur + (e - q) ensures x < |w| && !IsWhitespace(w[x]) {
      MaskReads(v, spans, q, w, cur, x - cur);
      assert !IsWhitespace(v[q + (x - cur)]);
    }
    MaskReads(v, spans, q, w, cur, e - q);
    MaskFrom(v, spans, q, e);
    Cuts(w, cur, v[q..e], Mask(v, spans, e));
    WordEndUnique(w, cur, cur + (e - q));
  }

  lemma WordSwallows(v: string, spans: seq<Span>, q: nat, w: string, cur: nat)
    requires Ordered(v, spans, q) && Words(v, spans) && cur <= |w| && w[cur..] == Mask(v, spans, q)
    requires spans != [] && spans[0].from <= WordEnd(v, q)
    ensures Ordered(v, spans[1..], WordEnd(v, q)) && (|spans| > 1 ==> WordEnd(v, q) < spans[1].from)
    ensures w[WordEnd(w, cur)..] == Mask(v, spans[1..], WordEnd(v, q))
  {
    hide IsWhitespace, WordEnd;
    var e, from, to := WordEnd(v, q), spans[0].from, spans[0].to;
    SameWord(v, q, from);
    assert e == to;
    var t := Mask(v, spans[1..], to);
    var skipped := from - q + |REDACTED|;
    assert w[cur..] == v[q..from] + REDACTED + t;
    BracketsAreNotWhitespace();
    forall x | cur <= x < cur + skipped ensures !IsWhitespace(w[x]) {
      assert w[x] == w[cur..][x - cur];
      assert x - cur < from - q ==> w[x] == v[q + (x - cur)];
    }
    MaskHead(v, spans[1..], to);
    assert cur + skipped < |w| ==> w[cur + skipped] == w[cur..][skipped] == t[0];
    WordEndUnique(w, cur, cur + skipped);
    assert w[cur + skipped..] == w[cur..][skipped..] == t;
  }

  lemma SameWord(v: string, q: nat, from: nat)
    requires q <= from && q <= |v| && from <= WordEnd(v, q)
    ensures WordEnd(v, from) == WordEnd(v, q)
  {
    hide IsWhitespace, WordEnd;
    WordEndUnique(v, from, WordEnd(v, q));
  }

  lemma MaskHead(v: string, spans: seq<Span>, q: nat)
    requires Ordered(v, spans, q) && (spans != [] ==> q < spans[0].from)
    ensures Mask(v, spans, q) == [] <==> q == |v|
    ensures q < |v| ==> Mask(v, spans, q)[0] == v[q]
  {
  }

  lemma AtCuts(v: string, spans: seq<Span>, c: nat, p: nat, n: nat, o: nat, w: string, cur: nat)
    requires At(v, spans, c, p, n, o) && cur <= |w| && w[cur..] == Mask(v, spans, c)
    ensures n <= |spans| && c <= o <= |v| && Ordered(v[..o], spans[..n], c) && Ordered(v, spans[n..], o)
    ensures n > 0 ==> spans[n - 1].to <= o
    ensures cur + p <= |w| && w[cur..cur + p] == Mask(v[..o], spans[..n], c) && w[cur + p..] == Mask(v, spans[n..], o)
  {
    hide Ordered, Mask;
    Cuts(w, cur, Mask(v[..o], spans[..n], c), Mask(v, spans[n..], o));
  }

  lemma WordsFrom(v: string, spans: seq<Span>, n: nat)
    requires Words(v, spans) && n <= |spans|
    ensures Words(v, spans[..n]) && Words(v, spans[n..])
    ensures n < |spans| ==> Word(v, spans[n])
  {
    hide Word;
    assert forall k :: 0 <= k < |spans| - n ==> spans[n..][k] == spans[n + k];
  }

  /** The whitespace after a marker, found in the masked text. */
  lemma SecretInMask(v: string, spans: seq<Span>, c: nat, w: string, cur: nat, p: nat, n: nat, o: nat, d: nat)
    requires Words(v, spans) && At(v, spans, c, p, n, o) && cur <= |w| && n <= |spans|
    requires Ordered(v, spans, c) && w[cur..] == Mask(v, spans, c)
    requires c <= o && o + d <= |v| && (n < |spans| ==> o + d <= spans[n].from)
    ensures cur + p + d <= |w| && o + d <= SkipWhitespace(v, o + d)
    ensures SkipWhitespace(w, cur + p + d) == cur + p + (SkipWhitespace(v, o + d) - o)
    ensures At(v, spans, c, p + (SkipWhitespace(v, o + d) - o), n, SkipWhitespace(v, o + d))
  {
    hide IsWhitespace, SkipWhitespace, WordEnd, At, Mask, Ordered, Words, Word;
    AtCuts(v, spans, c, p, n, o, w, cur);
    WordsFrom(v, spans, n);
    SkipInMask(v, spans[n..], o, w, cur + p, d);
    AtLater(v, spans, c, p, n, o, SkipWhitespace(v, o + d));
  }

  /** One more stretch between the ones before it and the rest. */
  lemma NewMask(v: string, before: seq<Span>, c: nat, span: Span, rest: seq<Span>)
    requires span.from <= span.to <= |v| && Ordered(v[..span.from], before, c) && Ordered(v, rest, span.to)
    ensures var all := before + ([span] + rest);
            && Ordered(v, all, c)
            && Mask(v, all, c) == Mask(v[..span.from], before, c) + REDACTED + Mask(v, rest, span.to)
  {
    var after := [span] + rest;
    assert after[1..] == rest;
    assert v[span.from..span.from] == "";
    MaskGlue(v, before, c, span.from, after);
  }

  lemma NewWords(v: string, before: seq<Span>, span: Span, rest: seq<Span>)
    requires Words(v, before) && Word(v, span) && Words(v, rest)
    requires before != [] ==> before[|before| - 1].to < span.from
    requires rest != [] ==> span.to < rest[0].from
    ensures Words(v, before + ([span] + rest))
  {
    hide Word;
  }

  /** The next secret of a pass over a masked text, as a stretch of the plain text: the stretches before it stay,
      those of its own word are swallowed. */
  lemma NextSecret(v: string, spans: seq<Span>, c: nat, w: string, cur: nat, m: string)
    returns (before: seq<Span>, span: Span, later: seq<Span>)
    requires Clean(m) && m != [] && Ordered(v, spans, c) && Words(v, spans)
    requires cur <= |w| && w[cur..] == Mask(v, spans, c) && FirstOccurrence(m, w, cur) + |m| <= |w|
    ensures Secret(v, m, span) && Word(v, span) && c < span.from <= span.to <= |v|
    ensures Ordered(v[..span.from], before, c) && Words(v, before) && Ordered(v, later, span.to) && Words(v, later)
    ensures before != [] ==> spans != [] && before[0] == spans[0] && before[|before| - 1].to < span.from
    ensures later != [] ==> span.to < later[0].from
    ensures forall s :: s in before || s in later ==> s in spans
    ensures var secret := SkipWhitespace(w, FirstOccurrence(m, w, cur) + |m|);
            && cur <= secret && w[cur..secret] == Mask(v[..span.from], before, c)
            && w[WordEnd(w, secret)..] == Mask(v, later, span.to)
  {
    hide Clean, SameText, IsWhitespace, SkipWhitespace, WordEnd, FirstOccurrence, Secret, At, Mask, Ordered, Words;
    FirstFound(m, w, cur);
    var start := FirstOccurrence(m, w, cur);
    OccursShift(m, w, cur, start);
    var p := start - cur;
    var n, o := FindInMask(m, v, spans, c, p);
    AtCuts(v, spans, c, p, n, o, w, cur);
    OccursWithinLength(m, v, o);
    SecretInMask(v, spans, c, w, cur, p, n, o, |m|);
    var q := SkipWhitespace(v, o + |m|);
    AtCuts(v, spans, c, p + (q - o), n, q, w, cur);
    WordsFrom(v, spans, n);
    before, span := spans[..n], Span(q, WordEnd(v, q));
    var k := WordInMask(v, spans[n..], q, w, SkipWhitespace(w, start + |m|));
    WordsFrom(v, spans[n..], k);
    later := spans[n..][k..];
    SecretAt(v, m, o);
    NewWord(v, o + |m|);
  }

  /** One pass over a masked text, from a place where the masked and the plain text go on alike: the result is
      the plain text with other stretches masked, each of them masked before or a secret of this pass. */
  lemma {:induction false} MaskPass(v: string, spans: seq<Span>, c: nat, w: string, cur: nat, m: string)
    returns (all: seq<Span>)
    requires Clean(m) && m != [] && Ordered(v, spans, c) && Words(v, spans)
    requires cur <= |w| && w[cur..] == Mask(v, spans, c)
    ensures Ordered(v, all, c) && Words(v, all) && RedactFrom(w, m, cur) == Mask(v, all, c)
    ensures forall s :: s in all ==> s in spans || Secret(v, m, s)
    ensures all != [] ==> c < all[0].from || (spans != [] && all[0] == spans[0])
    decreases |w| - cur
  {
    hide Clean, SameText, IsWhitespace, SkipWhitespace, WordEnd, FirstOccurrence, RedactFrom, Secret, Mask;
    hide Ordered, Words, Word;
    RedactStep(w, m, cur);
    var start := FirstOccurrence(m, w, cur);
    if start == |w| {
      all := spans;
    } else {
      var before, span, later := NextSecret(v, spans, c, w, cur, m);
      var secret := SkipWhitespace(w, start + |m|);
      var rest := MaskPass(v, later, span.to, w, WordEnd(w, secret), m);
      all := before + ([span] + rest);
      NewMask(v, before, c, span, rest);
      NewWords(v, before, span, rest);
    }
  }

  lemma NewWord(v: string, i: nat)
    requires i <= |v|
    ensures Word(v, Span(SkipWhitespace(v, i), WordEnd(v, SkipWhitespace(v, i))))
  {
    hide IsWhitespace;
  }

  /** All passes together replace disjoint words of the original text, each of them a secret of some marker in the
      original text, and keep everything else, in order. */
  lemma {:induction false} PassesMask(v: string, markers: seq<string>) returns (spans: seq<Span>)
    requires forall i :: 0 <= i < |markers| ==> markers[i] != [] && Clean(markers[i])
    ensures Ordered(v, spans, 0) && Words(v, spans) && RedactAll(v, markers) == Mask(v, spans, 0)
    ensures forall s :: s in spans ==> exists marker :: marker in markers && Secret(v, marker, s)
  {
    hide Clean, RedactFrom, Secret;
    if markers == [] {
      spans := [];
    } else {
      var front, m := markers[..|markers| - 1], markers[|markers| - 1];
      var before := PassesMask(v, front);
      var w := RedactAll(v, front);
      assert w[0..] == w;
      spans := MaskPass(v, before, 0, w, 0, m);
      forall s | s in spans ensures exists marker :: marker in markers && Secret(v, marker, s) {
        if s in before {
          var marker :| marker in front && Secret(v, marker, s);
          assert marker in markers;
        } else {
          assert m in markers;
        }
      }
    }
  }

  /** A replacement covers a part of `v[i..j]`. */
  predicate Touched(spans: seq<Span>, i: nat, j: nat) {
    exists k :: 0 <= k < |spans| && spans[k].from < j && i < spans[k].to
  }

  lemma {:induction false} BetweenTwo(v: string, spans: seq<Span>, c: nat, i: nat, j: nat) returns (n: nat)
    requires Ordered(v, spans, c) && c <= i < j <= |v| && !Touched(spans, i, j)
    ensures Between(v, spans, c, n, i) && (n < |spans| ==> j <= spans[n].from)
    decreases |spans|
  {
    if spans == [] || j <= spans[0].from {
      n := 0;
    } else {
      var rest := spans[1..];
      assert spans[0].to <= i;
      forall k | 0 <= k < |rest| ensures j <= rest[k].from || rest[k].to <= i {
        assert rest[k] == spans[k + 1];
      }
      n := BetweenTwo(v, rest, spans[0].to, i, j);
      n := n + 1;
    }
  }

  lemma OnlyFirstBracket(w: string, k: nat, f: nat)
    requires k < f && k + |REDACTED| <= |w| && f < |w| && w[k..k + |REDACTED|] == REDACTED && w[f] == REDACTED[0]
    ensures k + |REDACTED| <= f
  {
    assert forall j :: 0 < j < |REDACTED| ==> REDACTED[j] != REDACTED[0];
    forall x | k <= x < k + |REDACTED| ensures w[x] == REDACTED[x - k] {
      assert w[x] == w[k..k + |REDACTED|][x - k];
    }
  }

  /** Covered by something before the next replacement. */
  lemma CoverKept(a: string, t: string, d: nat)
    requires d <= |a| && SkipWhitespace(a, d) < |a| && Covered(a + REDACTED + t, d)
    ensures Covered(a, d) && SkipWhitespace(a, d) + |REDACTED| != |a|
  {
    hide IsWhitespace, SkipWhitespace;
    var w, k := a + REDACTED + t, SkipWhitespace(a, d);
    SkipUnique(w, d, k);
    BracketsAreNotWhitespace();
    assert w[|a|] == REDACTED[0];
    OnlyFirstBracket(w, k, |a|);
    assert a[k..k + |REDACTED|] == w[k..k + |REDACTED|];
    assert k + |REDACTED| < |a| ==> a[k + |REDACTED|] == w[k + |REDACTED|];
  }

  /** Covered in the masked text: covered in the text already, or by a replacement. */
  lemma CoverReads(v: string, spans: seq<Span>, o: nat, d: nat)
    requires Ordered(v, spans, o) && Words(v, spans) && o + d <= |v|
    requires spans != [] ==> o + d <= spans[0].from
    requires d <= |Mask(v, spans, o)| && Covered(Mask(v, spans, o), d)
    ensures Covered(v, o + d) || (spans != [] && spans[0].from == SkipWhitespace(v, o + d))
  {
    hide IsWhitespace, SkipWhitespace, WordEnd, Covered, Words;
    if spans == [] {
      CoveredShift(v, o, o + d);
    } else {
      var from := spans[0].from;
      var a := v[o..from];
      WordsFrom(v, spans, 0);
      SkipWithin(v, o, from, d);
      if SkipWhitespace(v, o + d) < from {
        CoverKept(a, Mask(v, spans[1..], spans[0].to), d);
        CoveredInFront(a, v[from..], d);
        assert a + v[from..] == v[o..];
        CoveredShift(v, o, o + d);
      }
    }
  }

  lemma SkipWithin(v: string, o: nat, from: nat, d: nat)
    requires o + d <= from <= |v| && (from < |v| ==> !IsWhitespace(v[from]))
    ensures o <= SkipWhitespace(v, o + d) <= from
    ensures SkipWhitespace(v[o..from], d) == SkipWhitespace(v, o + d) - o
  {
    hide IsWhitespace, SkipWhitespace;
    var q := SkipWhitespace(v, o + d);
    assert from < |v| ==> !IsWhitespace(v[from]);
    assert forall x :: 0 <= x < from - o ==> v[o..from][x] == v[o + x];
    SkipUnique(v[o..from], d, q - o);
  }

  /** An occurrence that no replacement touches is followed by one, unless it was covered from the start. */
  lemma UntouchedCovered(m: string, v: string, spans: seq<Span>, i: nat)
    requires m != [] && Ordered(v, spans, 0) && Words(v, spans) && Guarded(m, Mask(v, spans, 0))
    requires Occurs(m, v, i) && !Touched(spans, i, i + |m|)
    ensures Covered(v, i + |m|) || exists k :: 0 <= k < |spans| && spans[k].from == SkipWhitespace(v, i + |m|)
  {
    hide SameText, Covered, IsWhitespace, SkipWhitespace, Ordered, Words, Mask;
    var n := BetweenTwo(v, spans, 0, i, i + |m|);
    var before, after := spans[..n], spans[n..];
    assert spans == before + after;
    OrderedCut(v, spans, 0, n, i);
    MaskGlue(v, before, 0, i, after);
    var head, tail := Mask(v[..i], before, 0), Mask(v, after, i);
    FrontOccurs(m, v, after, i, 0);
    OccursWithinLength(m, tail, 0);
    OccursBehind(m, head, tail, 0);
    assert Covered(head + tail, |head| + |m|);
    WordsFrom(v, spans, n);
    CoverReads(v, after, i, |m|);
    if !Covered(v, i + |m|) {
      assert after[0] == spans[n];
    }
  }

  /** What `redact_secrets` does to a text as a whole: it replaces disjoint words, each of them the word after a
      marker in the text as it was, and keeps everything else in order; and every marker in the text as it was
      is itself touched by a replacement, followed by one, or was covered already. */
  lemma SecretsMasked(v: string) returns (spans: seq<Span>)
    ensures Ordered(v, spans, 0) && Words(v, spans) && RedactAll(v, MARKERS) == Mask(v, spans, 0)
    ensures forall s :: s in spans ==> exists m :: m in MARKERS && Secret(v, m, s)
    ensures forall m, i: nat :: m in MARKERS && Occurs(m, v, i) ==>
              || Touched(spans, i, i + |m|) || Covered(v, i + |m|)
              || exists k :: 0 <= k < |spans| && spans[k].from == SkipWhitespace(v, i + |m|)
  {
    hide Clean, Covered, SameText, IsWhitespace, SkipWhitespace, Guarded, RedactAll, Mask, Ordered, Words, Secret;
    hide Touched;
    forall i | 0 <= i < |MARKERS| ensures MARKERS[i] != [] && Clean(MARKERS[i]) {
      MarkersClean(i);
      CleanHead(MARKERS[i]);
    }
    spans := PassesMask(v, MARKERS);
    forall m, i: nat | m in MARKERS && Occurs(m, v, i)
      ensures || Touched(spans, i, i + |m|) || Covered(v, i + |m|)
              || exists k :: 0 <= k < |spans| && spans[k].from == SkipWhitespace(v, i + |m|)
    {
      var j :| 0 <= j < |MARKERS| && MARKERS[j] == m;
      SecretsGuarded(v, j);
      if !Touched(spans, i, i + |m|) {
        UntouchedCovered(m, v, spans, i);
      }
    }
  }

  // ---------- The markers, written out ----------

  /** `d` is `c` or, when `c` is a small letter, its capital. */
  predicate CaseOf(c: char, d: char) {
    d == c || ('a' <= c <= 'z' && 'A' <= d <= 'Z' && c as int - 'a' as int == d as int - 'A' as int)
  }

  lemma CaseMeans(c: char, d: char)
    requires !('A' <= c <= 'Z')
    ensures Lower(c) == Lower(d) <==> CaseOf(c, d)
  {
  }

  /** Some text from `p` on is the marker, in small letters or capitals. */
  predicate Spells(m: string, v: string, p: nat) {
    p + |m| <= |v| && forall j :: 0 <= j < |m| ==> CaseOf(m[j], v[p + j])
  }

  lemma SpellingOccurs(m: string, v: string, p: nat)
    requires forall c :: c in m ==> !('A' <= c <= 'Z')
    ensures Spells(m, v, p) <==> Occurs(m, v, p)
  {
    hide Lower, CaseOf;
    if p + |m| <= |v| {
      forall j | 0 <= j < |m| ensures CaseOf(m[j], v[p + j]) <==> Lower(m[j]) == Lower(v[p..p + |m|][j]) {
        assert m[j] in m && v[p..p + |m|][j] == v[p + j];
        CaseMeans(m[j], v[p + j]);
      }
    }
  }

  const SPELLINGS: set<string> := {
    "token=", "token:", "password=", "password:", "secret=", "secret:", "api_key=", "api_key:",
    "authorization: bearer ", "cookie:"}

  lemma MarkersSpelled(m: string)
    requires m in SPELLINGS
    ensures m in MARKERS && forall c :: c in m ==> !('A' <= c <= 'Z')
  {
    assert m == MARKERS[0] || m == MARKERS[1] || m == MARKERS[2] || m == MARKERS[3] || m == MARKERS[4]
        || m == MARKERS[5] || m == MARKERS[6] || m == MARKERS[7] || m == MARKERS[8] || m == MARKERS[9];
  }

  /** Redacted output, character by character: wherever it spells one of the ten markers, in capitals or not, what
      follows is whitespace, if anything, and then `[REDACTED]` as a word of its own. */
  lemma SpelledSecretsCovered(v: string, m: string, p: nat) returns (k: nat)
    requires m in SPELLINGS && Spells(m, RedactAll(v, MARKERS), p)
    ensures var w := RedactAll(v, MARKERS);
            && p + |m| <= k && k + 10 <= |w| && w[k..k + 10] == "[REDACTED]"
            && (forall x :: p + |m| <= x < k ==> IsWhitespace(w[x]))
            && (k + 10 < |w| ==> IsWhitespace(w[k + 10]))
  {
    hide Spells, RedactAll, Lower, SameText;
    var w := RedactAll(v, MARKERS);
    MarkersSpelled(m);
    SpellingOccurs(m, w, p);
    var i :| 0 <= i < |MARKERS| && MARKERS[i] == m;
    SecretsGuarded(v, i);
    k := SkipWhitespace(w, p + |m|);
  }
}
