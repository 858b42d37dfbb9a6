/** The redaction of secrets in process output: what follows a marker is replaced, marker by marker. */
module Redaction {
  import opened Text

  const REDACTED := "[REDACTED]"

  const MARKERS: seq<string> := [
    "token=", "token:", "password=", "password:", "secret=", "secret:", "api_key=", "api_key:",
    "authorization: bearer ", "cookie:"]

  /** `to_ascii_lowercase` on one character. */
  function Lower(c: char): char {
    if 'A' <= c <= 'Z' then (c as int + 32) as char else c
  }

  predicate SameText(a: string, b: string) {
    |a| == |b| && forall j :: 0 <= j < |a| ==> Lower(a[j]) == Lower(b[j])
  }

  /** `m` occurs in `v` at `i`, whatever the case. */
  predicate Occurs(m: string, v: string, i: nat) {
    i + |m| <= |v| && SameText(m, v[i..i + |m|])
  }

  /** The first occurrence at or after `from`; the length when there is none. */
  function FirstOccurrence(m: string, v: string, from: nat): (i: nat)
    requires from <= |v| && m != []
    ensures from <= i <= |v| && (i < |v| ==> Occurs(m, v, i))
    ensures forall k :: from <= k < i ==> !Occurs(m, v, k)
    decreases |v| - from
  {
    if from == |v| || Occurs(m, v, from) then from else FirstOccurrence(m, v, from + 1)
  }

  function SkipWhitespace(v: string, i: nat): (r: nat)
    requires i <= |v|
    ensures i <= r <= |v| && (r < |v| ==> !IsWhitespace(v[r]))
    ensures forall k :: i <= k < r ==> IsWhitespace(v[k])
    decreases |v| - i
  {
    if i < |v| && IsWhitespace(v[i]) then SkipWhitespace(v, i + 1) else i
  }

  function WordEnd(v: string, i: nat): (r: nat)
    requires i <= |v|
    ensures i <= r <= |v| && (r < |v| ==> IsWhitespace(v[r]))
    ensures forall k :: i <= k < r ==> !IsWhitespace(v[k])
    decreases |v| - i
  {
    if i < |v| && !IsWhitespace(v[i]) then WordEnd(v, i + 1) else i
  }

  /** `v` from `cursor` on, with the word after each occurrence of the marker replaced. */
  function RedactFrom(v: string, m: string, cursor: nat): string
    requires cursor <= |v| && m != []
    decreases |v| - cursor
  {
    var start := FirstOccurrence(m, v, cursor);
    if start == |v| then v[cursor..]
    else
      var secret := SkipWhitespace(v, start + |m|);
      v[cursor..secret] + REDACTED + RedactFrom(v, m, WordEnd(v, secret))
  }

  function RedactAll(v: string, markers: seq<string>): string
    requires forall i :: 0 <= i < |markers| ==> markers[i] != []
  {
    if markers == [] then v else RedactFrom(RedactAll(v, markers[..|markers| - 1]), markers[|markers| - 1], 0)
  }

  lemma RedactStep(v: string, m: string, cursor: nat)
    requires cursor <= |v| && m != []
    ensures var start := FirstOccurrence(m, v, cursor);
            && (start < |v| ==> start + |m| <= |v|)
            && RedactFrom(v, m, cursor) ==
               if start == |v| then v[cursor..]
               else
                 var secret := SkipWhitespace(v, start + |m|);
                 v[cursor..secret] + REDACTED + RedactFrom(v, m, WordEnd(v, secret))
  {
    hide FirstOccurrence, SkipWhitespace, WordEnd;
  }

  method RedactAfter(value: string, marker: string) returns (result: string)
    requires marker != []
    ensures result == RedactFrom(value, marker, 0)
  {
    hide *;
    result := "";
    var cursor := 0;
    var start := FirstOccurrence(marker, value, cursor);
    while start < |value|
      invariant cursor <= start <= |value| && start == FirstOccurrence(marker, value, cursor)
      invariant result + RedactFrom(value, marker, cursor) == RedactFrom(value, marker, 0)
      decreases |value| - cursor
    {
      RedactStep(value, marker, cursor);
      var secret := SkipWhitespace(value, start + |marker|);
      result := result + value[cursor..secret];
      var valueEnd := WordEnd(value, secret);
      result := result + REDACTED;
      cursor := valueEnd;
      start := FirstOccurrence(marker, value, cursor);
    }
    RedactStep(value, marker, cursor);
    result := result + value[cursor..];
  }

  method RedactMarkers(output: string, markers: seq<string>) returns (value: string)
    requires forall i :: 0 <= i < |markers| ==> markers[i] != []
    ensures value == RedactAll(output, markers)
  {
    hide RedactFrom;
    value := output;
    for i := 0 to |markers|
      invariant value == RedactAll(output, markers[..i])
    {
      assert markers[..i + 1][..i] == markers[..i];
      value := RedactAfter(value, markers[i]);
    }
    assert markers[..|markers|] == markers;
  }

  /** `redact_secrets`: one pass per marker. */
  method RedactSecrets(output: string) returns (value: string)
    ensures value == RedactAll(output, MARKERS)
  {
    hide RedactAll;
    value := RedactMarkers(output, MARKERS);
  }

  // ---------- What a redacted text looks like ----------

  /** After `i` comes optional whitespace, then the replacement as a word of its own. */
  predicate Covered(v: string, i: nat)
    requires i <= |v|
  {
    var k := SkipWhitespace(v, i);
    k + |REDACTED| <= |v| && v[k..k + |REDACTED|] == REDACTED
    && (k + |REDACTED| < |v| ==> IsWhitespace(v[k + |REDACTED|]))
  }

  ghost predicate GuardedFrom(m: string, v: string, cursor: nat) {
    forall i :: cursor <= i && Occurs(m, v, i) ==> Covered(v, i + |m|)
  }

  /** Every occurrence of the marker is followed by the replacement. */
  ghost predicate Guarded(m: string, v: string) {
    GuardedFrom(m, v, 0)
  }

  /** `m`, moved by `d`, agrees with itself. */
  predicate Overlaps(m: string, d: nat) {
    forall j :: 0 <= j < |m| - d ==> Lower(m[j]) == Lower(m[d + j])
  }

  /** What the argument needs of a marker: it cannot touch the replacement and cannot overlap itself. */
  ghost predicate Clean(m: string) {
    && m != [] && !IsWhitespace(m[0])
    && '[' !in m && ']' !in m
    && Lower(m[|m| - 1]) !in "redacted"
    && forall d :: 0 < d < |m| ==> !Overlaps(m, d)
  }

  lemma MarkerShape(i: nat)
    requires i < |MARKERS|
    ensures var m := MARKERS[i];
            && m != [] && !IsWhitespace(m[0]) && '[' !in m && ']' !in m && Lower(m[|m| - 1]) !in "redacted"
    ensures i != 8 ==> forall j :: 0 <= j < |MARKERS[i]| - 1 ==>
            Lower(MARKERS[i][j]) != Lower(MARKERS[i][|MARKERS[i]| - 1])
  {
  }

  lemma BearerShape(d: nat)
    requires 0 < d < |MARKERS[8]|
    ensures !Overlaps(MARKERS[8], d)
  {
    var m := MARKERS[8];
    assert d != 7 ==> Lower(m[|m| - d - 1]) != Lower(m[d + (|m| - d - 1)]);
    assert d == 7 ==> Lower(m[1]) != Lower(m[d + 1]);
  }

  lemma MarkersClean(i: nat)
    requires i < |MARKERS|
    ensures Clean(MARKERS[i])
  {
    hide Lower, Overlaps;
    MarkerShape(i);
    forall d | 0 < d < |MARKERS[i]| ensures !Overlaps(MARKERS[i], d) {
      if i == 8 {
        BearerShape(d);
      } else {
        LastOnce(MARKERS[i], d);
      }
    }
  }

  /** Text whose last character is new does not overlap itself. */
  lemma LastOnce(m: string, d: nat)
    requires 0 < d < |m| && forall j :: 0 <= j < |m| - 1 ==> Lower(m[j]) != Lower(m[|m| - 1])
    ensures !Overlaps(m, d)
  {
    var j := |m| - d - 1;
    assert Lower(m[j]) != Lower(m[d + j]);
  }

  // ---------- One pass ----------

  lemma OccursShift(m: string, v: string, c: nat, i: nat)
    requires c <= i <= |v|
    ensures Occurs(m, v[c..], i - c) <==> Occurs(m, v, i)
  {
    assert i + |m| <= |v| ==> v[c..][i - c..i - c + |m|] == v[i..i + |m|];
  }

  lemma OccursWithin(m: string, v: string, n: nat, i: nat)
    requires n <= |v| && i + |m| <= n
    ensures Occurs(m, v[..n], i) <==> Occurs(m, v, i)
  {
    assert v[..n][i..i + |m|] == v[i..i + |m|];
  }

  /** A character of an occurrence, compared with the marker. */
  lemma OccursAt(m: string, v: string, i: nat, k: nat)
    requires Occurs(m, v, i) && i <= k < i + |m|
    ensures Lower(v[k]) == Lower(m[k - i])
  {
    assert v[i..i + |m|][k - i] == v[k];
  }

  lemma {:induction false} SkipUnique(v: string, i: nat, r: nat)
    requires i <= r <= |v| && (r < |v| ==> !IsWhitespace(v[r])) && forall k :: i <= k < r ==> IsWhitespace(v[k])
    ensures SkipWhitespace(v, i) == r
  {
    hide IsWhitespace;
    var s := SkipWhitespace(v, i);
    assert s < |v| ==> !IsWhitespace(v[s]);
    assert r < |v| ==> !IsWhitespace(v[r]);
  }

  lemma WordEndUnique(v: string, i: nat, r: nat)
    requires i <= r <= |v| && (r < |v| ==> IsWhitespace(v[r])) && forall k :: i <= k < r ==> !IsWhitespace(v[k])
    ensures WordEnd(v, i) == r
  {
    hide IsWhitespace;
    var s := WordEnd(v, i);
    assert s < |v| ==> IsWhitespace(v[s]);
    assert r < |v| ==> IsWhitespace(v[r]);
  }

  /** Being covered means there is a place `k` with the replacement, whitespace up to it, and a word end
      after it. */
  lemma CoveredAt(v: string, i: nat, k: nat)
    requires i <= k && k + |REDACTED| <= |v| && v[k..k + |REDACTED|] == REDACTED
    requires forall x :: i <= x < k ==> IsWhitespace(v[x])
    requires k + |REDACTED| < |v| ==> IsWhitespace(v[k + |REDACTED|])
    ensures Covered(v, i)
  {
    hide IsWhitespace, SkipWhitespace;
    assert v[k] == REDACTED[0];
    BracketsAreNotWhitespace();
    SkipUnique(v, i, k);
  }

  lemma BracketsAreNotWhitespace()
    ensures forall k :: 0 <= k < |REDACTED| ==> !IsWhitespace(REDACTED[k])
  {
  }

  /** Covered in a later part is covered in the whole, and the other way round. */
  lemma CoveredShift(v: string, c: nat, i: nat)
    requires c <= i <= |v|
    ensures Covered(v[c..], i - c) <==> Covered(v, i)
  {
    hide IsWhitespace, SkipWhitespace;
    var k := SkipWhitespace(v, i);
    SkipUnique(v[c..], i - c, k - c);
    if k + |REDACTED| <= |v| {
      assert v[c..][k - c..k - c + |REDACTED|] == v[k..k + |REDACTED|];
    }
  }

  /** An occurrence in a text with a replacement in it lies before or after the replacement. */
  lemma OccursSplit(m: string, a: string, t: string, i: nat)
    requires Clean(m) && Occurs(m, a + REDACTED + t, i)
    ensures i + |m| <= |a| || i >= |a| + |REDACTED|
  {
    hide Overlaps, Occurs, Lower, IsWhitespace;
    var v, n := a + REDACTED + t, |a|;
    assert v[n] == '[' && v[n + 9] == ']';
    LowerBrackets(m);
    OccursWithinLength(m, v, i);
    forall k | i <= k < i + |m| ensures Lower(v[k]) == Lower(m[k - i]) && k != n && k != n + 9 {
      OccursAt(m, v, i, k);
      assert m[k - i] in m;
    }
    var last := i + |m| - 1;
    if n < last < n + 9 {
      assert v[last] == REDACTED[last - n];
      InnerLetters(last - n);
    }
  }

  lemma OccursWithinLength(m: string, v: string, i: nat)
    requires Occurs(m, v, i)
    ensures i + |m| <= |v|
  {
  }

  lemma LowerBrackets(m: string)
    requires '[' !in m && ']' !in m
    ensures forall c :: c in m ==> Lower(c) != Lower('[') && Lower(c) != Lower(']')
  {
  }

  lemma InnerLetters(k: nat)
    requires 0 < k < 9
    ensures Lower(REDACTED[k]) in "redacted"
  {
    assert Lower(REDACTED[k]) == "redacted"[k - 1];
  }

  lemma CleanHead(m: string)
    requires Clean(m)
    ensures m != [] && !IsWhitespace(m[0]) && '[' !in m && forall d :: 0 < d < |m| ==> !Overlaps(m, d)
  {
  }

  lemma LowerWhitespace(c: char, d: char)
    requires Lower(c) == Lower(d)
    ensures IsWhitespace(c) <==> IsWhitespace(d)
  {
  }

  /** Two occurrences of a clean marker do not overlap. */
  lemma NoOverlap(m: string, v: string, i: nat, d: nat)
    requires Occurs(m, v, i) && Occurs(m, v, i + d) && 0 < d < |m|
    ensures Overlaps(m, d)
  {
    hide Occurs, Lower;
    forall j | 0 <= j < |m| - d ensures Lower(m[j]) == Lower(m[d + j]) {
      OccursWithinLength(m, v, i + d);
      OccursAt(m, v, i, i + d + j);
      OccursAt(m, v, i + d, i + d + j);
    }
  }

  /** In the piece up to the secret, the pass's own marker occurs only at its end. */
  lemma OwnOccurrence(m: string, v: string, cursor: nat, q: nat)
    requires Clean(m) && cursor <= q && cursor <= |v| && FirstOccurrence(m, v, cursor) + |m| <= |v|
    requires Occurs(m, v, q) && q + |m| <= SkipWhitespace(v, FirstOccurrence(m, v, cursor) + |m|)
    ensures q == FirstOccurrence(m, v, cursor)
  {
    hide Clean, Occurs, Lower, IsWhitespace, FirstOccurrence, SkipWhitespace;
    CleanHead(m);
    var start := FirstOccurrence(m, v, cursor);
    FirstIsFirst(m, v, cursor, q);
    OccursAt(m, v, q, q);
    LowerWhitespace(v[q], m[0]);
    assert !IsWhitespace(v[q]);
    if start < q < start + |m| {
      NoOverlap(m, v, start, q - start);
    }
  }

  lemma FirstIsFirst(m: string, v: string, cursor: nat, q: nat)
    requires cursor <= q && cursor <= |v| && m != [] && Occurs(m, v, q)
    ensures FirstOccurrence(m, v, cursor) <= q && Occurs(m, v, FirstOccurrence(m, v, cursor))
  {
    hide FirstOccurrence;
  }

  /** Where the replacement ends a piece, whitespace right before it is covered. */
  lemma CoveredByNew(a: string, t: string, i: nat)
    requires i <= |a| && forall x :: i <= x < |a| ==> IsWhitespace(a[x])
    requires t != [] ==> IsWhitespace(t[0])
    ensures Covered(a + REDACTED + t, i)
  {
    hide IsWhitespace, SkipWhitespace, Covered;
    var v := a + REDACTED + t;
    assert v[|a|..|a| + |REDACTED|] == REDACTED;
    assert t != [] ==> v[|a| + |REDACTED|] == t[0];
    CoveredAt(v, i, |a|);
  }

  /** A replacement that an earlier pass made is either well before the marker found now, or is itself
      the word this pass replaces. */
  lemma CoverMeetsMarker(m: string, v: string, start: nat, q: nat)
    requires Clean(m) && Occurs(m, v, start) && start + |m| <= |v|
    requires q <= SkipWhitespace(v, start + |m|) && Covered(v, q)
    ensures var k, secret := SkipWhitespace(v, q), SkipWhitespace(v, start + |m|);
            k + |REDACTED| <= start || (k == secret && WordEnd(v, secret) == k + |REDACTED|)
  {
    hide Clean, Occurs, Lower, IsWhitespace, SkipWhitespace, WordEnd;
    var k, secret := SkipWhitespace(v, q), SkipWhitespace(v, start + |m|);
    CleanHead(m);
    BracketsAreNotWhitespace();
    assert v == v[..k] + REDACTED + v[k + |REDACTED|..];
    OccursSplit(m, v[..k], v[k + |REDACTED|..], start);
    if k >= start {
      assert v[k] == REDACTED[0];
      NoBracketWithin(m, v, start);
      assert secret < |v| ==> !IsWhitespace(v[secret]);
      assert k == secret;
      forall x | k <= x < k + |REDACTED| ensures !IsWhitespace(v[x]) {
        assert v[x] == v[k..k + |REDACTED|][x - k];
      }
      WordEndUnique(v, k, k + |REDACTED|);
    }
  }

  lemma NoBracketWithin(m: string, v: string, i: nat)
    requires Occurs(m, v, i) && '[' !in m
    ensures forall k :: i <= k < i + |m| ==> v[k] != '['
  {
    hide SameText;
    forall k | i <= k < i + |m| ensures v[k] != '[' {
      OccursAt(m, v, i, k);
      assert m[k - i] in m;
    }
  }

  /** A replacement inside the piece is kept. */
  lemma CoveredByOld(v: string, cursor: nat, secret: nat, t: string, q: nat, k: nat)
    requires cursor <= q <= k && k + |REDACTED| < secret <= |v|
    requires v[k..k + |REDACTED|] == REDACTED && IsWhitespace(v[k + |REDACTED|])
    requires forall x :: q <= x < k ==> IsWhitespace(v[x])
    ensures Covered(v[cursor..secret] + REDACTED + t, q - cursor)
  {
    hide IsWhitespace, Covered;
    var a, p := v[cursor..secret], k - cursor;
    var out := a + REDACTED + t;
    assert out[..|a|] == a;
    assert a[p..p + |REDACTED|] == v[k..k + |REDACTED|];
    assert out[p..p + |REDACTED|] == out[..|a|][p..p + |REDACTED|];
    assert out[p + |REDACTED|] == v[k + |REDACTED|];
    assert forall x :: q - cursor <= x < p ==> out[x] == v[cursor + x];
    CoveredAt(out, q - cursor, p);
  }

  /** An occurrence that was covered before the pass is covered after it. */
  lemma StaysCovered(m: string, v: string, cursor: nat, start: nat, q: nat, t: string)
    requires Clean(m) && Occurs(m, v, start) && start + |m| <= |v|
    requires cursor <= start && cursor <= q <= SkipWhitespace(v, start + |m|) && Covered(v, q)
    requires t != [] ==> IsWhitespace(t[0])
    ensures Covered(v[cursor..SkipWhitespace(v, start + |m|)] + REDACTED + t, q - cursor)
  {
    hide Clean, Occurs, Lower, IsWhitespace, SkipWhitespace, WordEnd;
    var k, secret := SkipWhitespace(v, q), SkipWhitespace(v, start + |m|);
    var a := v[cursor..secret];
    CoverMeetsMarker(m, v, start, q);
    if k == secret {
      CoveredByNew(a, t, q - cursor);
    } else {
      CleanHead(m);
      CoveredByOld(v, cursor, secret, t, q, k);
    }
  }

  /** A pass keeps the first character, so what follows a replacement still starts a new word. */
  lemma SameStart(v: string, m: string, cursor: nat)
    requires cursor <= |v| && m != []
    ensures cursor == |v| ==> RedactFrom(v, m, cursor) == []
    ensures cursor < |v| ==> RedactFrom(v, m, cursor) != [] && RedactFrom(v, m, cursor)[0] == v[cursor]
  {
    hide IsWhitespace, FirstOccurrence, Occurs;
    RedactStep(v, m, cursor);
  }

  /** One piece: if every occurrence of `m` in it is covered, and the rest is guarded, all is guarded. */
  lemma PieceGuarded(m: string, a: string, t: string)
    requires Clean(m) && Guarded(m, t) && (t != [] ==> IsWhitespace(t[0]))
    requires forall p: nat :: Occurs(m, a, p) ==> Covered(a + REDACTED + t, p + |m|)
    ensures Guarded(m, a + REDACTED + t)
  {
    hide Clean, SameText, IsWhitespace, SkipWhitespace, Covered;
    var v := a + REDACTED + t;
    var n := |a| + |REDACTED|;
    assert v[n..] == t && v[..|a|] == a;
    forall i: nat | Occurs(m, v, i) ensures Covered(v, i + |m|) {
      OccursWithinLength(m, v, i);
      OccursSplit(m, a, t, i);
      if i + |m| <= |a| {
        OccursWithin(m, v, |a|, i);
      } else {
        OccursShift(m, v, n, i);
        CoveredShift(v, n, i + |m|);
      }
    }
  }

  // ---------- A whole pass ----------

  /** Without another occurrence of the marker nothing is replaced, and what was guarded stays so. */
  lemma LastPiece(g: string, v: string, cursor: nat)
    requires cursor <= |v| && GuardedFrom(g, v, cursor)
    ensures Guarded(g, v[cursor..])
  {
    hide SameText, Covered;
    forall i: nat | Occurs(g, v[cursor..], i) ensures Covered(v[cursor..], i + |g|) {
      OccursShift(g, v, cursor, cursor + i);
      CoveredShift(v, cursor, cursor + i + |g|);
    }
  }

  /** A piece before a secret, for a marker `g` that is the pass's own or was guarded before. */
  lemma NextPiece(g: string, m: string, v: string, cursor: nat, start: nat, t: string, p: nat)
    requires Clean(g) && Clean(m) && cursor <= |v| && start == FirstOccurrence(m, v, cursor) && start + |m| <= |v|
    requires g == m || GuardedFrom(g, v, cursor)
    requires t != [] ==> IsWhitespace(t[0])
    requires Occurs(g, v[cursor..SkipWhitespace(v, start + |m|)], p)
    ensures Covered(v[cursor..SkipWhitespace(v, start + |m|)] + REDACTED + t, p + |g|)
  {
    hide Clean, SameText, IsWhitespace, Covered, FirstOccurrence, SkipWhitespace, WordEnd;
    CleanHead(m);
    FirstFound(m, v, cursor);
    var secret := SkipWhitespace(v, start + |m|);
    var a, q := v[cursor..secret], cursor + p;
    OccursShift(g, v[..secret], cursor, q);
    assert v[..secret][cursor..] == a;
    OccursWithin(g, v, secret, q);
    if g == m {
      OwnOccurrence(m, v, cursor, q);
      assert forall x :: p + |m| <= x < |a| ==> a[x] == v[cursor + x];
      CoveredByNew(a, t, p + |m|);
    } else {
      StaysCovered(m, v, cursor, start, q + |g|, t);
    }
  }

  lemma FirstFound(m: string, v: string, cursor: nat)
    requires cursor <= |v| && m != [] && FirstOccurrence(m, v, cursor) + |m| <= |v|
    ensures Occurs(m, v, FirstOccurrence(m, v, cursor)) && cursor <= FirstOccurrence(m, v, cursor)
  {
    hide SameText;
  }

  lemma GuardedLater(m: string, v: string, cursor: nat, later: nat)
    requires GuardedFrom(m, v, cursor) && cursor <= later
    ensures GuardedFrom(m, v, later)
  {
    hide Occurs, Covered;
  }

  /** A pass guards its own marker, and keeps every other marker guarded that was so before. */
  lemma {:induction false} PassGuards(g: string, m: string, v: string, cursor: nat)
    requires Clean(g) && Clean(m) && cursor <= |v|
    requires g == m || GuardedFrom(g, v, cursor)
    ensures Guarded(g, RedactFrom(v, m, cursor))
    decreases |v| - cursor
  {
    hide Clean, SameText, IsWhitespace, Covered, FirstOccurrence, SkipWhitespace, WordEnd, Guarded, GuardedFrom,
         RedactFrom;
    CleanHead(m);
    RedactStep(v, m, cursor);
    var start := FirstOccurrence(m, v, cursor);
    if start == |v| {
      NothingFound(g, m, v, cursor);
      LastPiece(g, v, cursor);
    } else {
      var secret := SkipWhitespace(v, start + |m|);
      var next := WordEnd(v, secret);
      var a, t := v[cursor..secret], RedactFrom(v, m, next);
      if g != m {
        GuardedLater(g, v, cursor, next);
      }
      PassGuards(g, m, v, next);
      SameStart(v, m, next);
      assert t != [] ==> IsWhitespace(t[0]);
      forall p: nat | Occurs(g, a, p) ensures Covered(a + REDACTED + t, p + |g|) {
        NextPiece(g, m, v, cursor, start, t, p);
      }
      PieceGuarded(g, a, t);
    }
  }

  lemma NothingFound(g: string, m: string, v: string, cursor: nat)
    requires cursor <= |v| && m != [] && FirstOccurrence(m, v, cursor) == |v|
    requires g == m || GuardedFrom(g, v, cursor)
    ensures GuardedFrom(g, v, cursor)
  {
    hide SameText, Covered;
  }

  lemma CoversAt(m: string, v: string, cursor: nat, i: nat)
    requires GuardedFrom(m, v, cursor) && cursor <= i && Occurs(m, v, i)
    ensures var k := SkipWhitespace(v, i + |m|);
            k + |REDACTED| <= |v| && v[k..k + |REDACTED|] == REDACTED
            && (k + |REDACTED| < |v| ==> IsWhitespace(v[k + |REDACTED|]))
  {
    hide SameText, IsWhitespace, SkipWhitespace;
    assert Covered(v, i + |m|);
  }

  /** A guarded text is left alone. */
  lemma {:induction false} PassFixes(m: string, v: string, cursor: nat)
    requires m != [] && cursor <= |v| && GuardedFrom(m, v, cursor)
    ensures RedactFrom(v, m, cursor) == v[cursor..]
    decreases |v| - cursor
  {
    hide Occurs, IsWhitespace, FirstOccurrence, SkipWhitespace, WordEnd, RedactFrom, GuardedFrom, Covered;
    RedactStep(v, m, cursor);
    var start := FirstOccurrence(m, v, cursor);
    if start < |v| {
      FirstFound(m, v, cursor);
      var secret := SkipWhitespace(v, start + |m|);
      var next := secret + |REDACTED|;
      CoversAt(m, v, cursor, start);
      ReplacementWord(v, secret);
      GuardedLater(m, v, cursor, next);
      PassFixes(m, v, next);
      assert v[cursor..] == v[cursor..secret] + v[secret..next] + v[next..];
    }
  }

  /** Where the replacement stands as a word end, the word is the replacement. */
  lemma ReplacementWord(v: string, i: nat)
    requires i + |REDACTED| <= |v| && v[i..i + |REDACTED|] == REDACTED
    requires i + |REDACTED| < |v| ==> IsWhitespace(v[i + |REDACTED|])
    ensures WordEnd(v, i) == i + |REDACTED|
  {
    hide IsWhitespace, WordEnd;
    BracketsAreNotWhitespace();
    forall x | i <= x < i + |REDACTED| ensures !IsWhitespace(v[x]) {
      assert v[x] == v[i..i + |REDACTED|][x - i];
    }
    WordEndUnique(v, i, i + |REDACTED|);
  }

  /** One pass changes nothing exactly when the marker was guarded already. */
  lemma PassFixed(m: string, v: string)
    requires Clean(m)
    ensures RedactFrom(v, m, 0) == v <==> Guarded(m, v)
  {
    hide Clean, Covered, Occurs, RedactFrom;
    CleanHead(m);
    assert v[0..] == v;
    if Guarded(m, v) {
      PassFixes(m, v, 0);
    }
    PassGuards(m, m, v, 0);
  }

  // ---------- What a pass keeps ----------

  /** A stretch of the text that a pass replaces. */
  datatype Span = Span(from: nat, to: nat)

  /** The word after an occurrence of the marker, or the rest of the word it ends in. */
  ghost predicate Secret(v: string, m: string, span: Span) {
    exists i: nat :: Occurs(m, v, i) && span.from == SkipWhitespace(v, i + |m|) && span.to == WordEnd(v, span.from)
  }

  /** Disjoint stretches in increasing order, from `cursor` on. */
  ghost predicate Ordered(v: string, spans: seq<Span>, cursor: nat) {
    if spans == [] then cursor <= |v|
    else cursor <= spans[0].from <= spans[0].to <= |v| && Ordered(v, spans[1..], spans[0].to)
  }

  /** The text from `cursor` on with just those stretches replaced. */
  ghost function Mask(v: string, spans: seq<Span>, cursor: nat): string
    requires Ordered(v, spans, cursor)
  {
    if spans == [] then v[cursor..]
    else v[cursor..spans[0].from] + REDACTED + Mask(v, spans[1..], spans[0].to)
  }

  /** A pass replaces disjoint secrets of its marker and keeps everything else, in order; it replaces nothing
      exactly where the marker does not occur. */
  lemma {:induction false} PassMasks(v: string, m: string, cursor: nat) returns (spans: seq<Span>)
    requires m != [] && cursor <= |v|
    ensures Ordered(v, spans, cursor) && RedactFrom(v, m, cursor) == Mask(v, spans, cursor)
    ensures forall k :: 0 <= k < |spans| ==> Secret(v, m, spans[k])
    ensures spans == [] <==> forall i: nat :: cursor <= i ==> !Occurs(m, v, i)
    decreases |v| - cursor
  {
    hide SameText, IsWhitespace, FirstOccurrence, SkipWhitespace, WordEnd, RedactFrom, Secret;
    RedactStep(v, m, cursor);
    FirstMeansNone(m, v, cursor);
    var start := FirstOccurrence(m, v, cursor);
    if start == |v| {
      spans := [];
    } else {
      FirstFound(m, v, cursor);
      var from := SkipWhitespace(v, start + |m|);
      var rest := PassMasks(v, m, WordEnd(v, from));
      spans := [Span(from, WordEnd(v, from))] + rest;
      SecretAt(v, m, start);
      assert spans[1..] == rest;
    }
  }

  lemma SecretAt(v: string, m: string, i: nat)
    requires Occurs(m, v, i)
    ensures Secret(v, m, Span(SkipWhitespace(v, i + |m|), WordEnd(v, SkipWhitespace(v, i + |m|))))
  {
  }

  lemma FirstMeansNone(m: string, v: string, cursor: nat)
    requires m != [] && cursor <= |v|
    ensures FirstOccurrence(m, v, cursor) == |v| <==> forall i: nat :: cursor <= i ==> !Occurs(m, v, i)
  {
    hide SameText;
  }

  // ---------- All passes ----------

  /** Later passes never undo earlier ones. */
  lemma {:induction false} AllGuarded(v: string, markers: seq<string>, i: nat)
    requires forall k :: 0 <= k < |markers| ==> markers[k] != [] && Clean(markers[k])
    requires i < |markers|
    ensures Guarded(markers[i], RedactAll(v, markers))
    decreases |markers|
  {
    hide Clean, GuardedFrom, RedactFrom;
    var front, last := markers[..|markers| - 1], markers[|markers| - 1];
    if i < |front| {
      AllGuarded(v, front, i);
    }
    PassGuards(markers[i], last, RedactAll(v, front), 0);
  }

  lemma {:induction false} AllFixes(v: string, markers: seq<string>)
    requires forall k :: 0 <= k < |markers| ==> markers[k] != [] && Guarded(markers[k], v)
    ensures RedactAll(v, markers) == v
  {
    hide Guarded, RedactFrom;
    if markers != [] {
      AllFixes(v, markers[..|markers| - 1]);
      LastFixes(v, markers[|markers| - 1]);
    }
  }

  lemma LastFixes(v: string, m: string)
    requires m != [] && Guarded(m, v)
    ensures RedactFrom(v, m, 0) == v
  {
    hide Covered, Occurs, RedactFrom;
    PassFixes(m, v, 0);
    assert v[0..] == v;
  }

  /** The post-condition of `redact_secrets`: in its output every occurrence of every marker, in any case,
      is followed by optional whitespace and the replacement as a whole word. */
  lemma SecretsGuarded(v: string, i: nat)
    requires i < |MARKERS|
    ensures Guarded(MARKERS[i], RedactAll(v, MARKERS))
  {
    hide Clean, Guarded, RedactAll;
    forall k | 0 <= k < |MARKERS| ensures MARKERS[k] != [] && Clean(MARKERS[k]) {
      MarkersClean(k);
      CleanHead(MARKERS[k]);
    }
    AllGuarded(v, MARKERS, i);
  }

  /** Redaction changes nothing exactly on the texts that satisfy the post-condition. */
  lemma SecretsFixed(v: string)
    ensures RedactAll(v, MARKERS) == v <==> forall i :: 0 <= i < |MARKERS| ==> Guarded(MARKERS[i], v)
  {
    hide Clean, Guarded, RedactAll;
    forall i | 0 <= i < |MARKERS| ensures Guarded(MARKERS[i], RedactAll(v, MARKERS)) && MARKERS[i] != [] {
      SecretsGuarded(v, i);
      MarkersClean(i);
      CleanHead(MARKERS[i]);
    }
    if forall i :: 0 <= i < |MARKERS| ==> Guarded(MARKERS[i], v) {
      AllFixes(v, MARKERS);
    }
  }

  /** So a second redaction changes nothing. */
  lemma Idempotent(v: string)
    ensures RedactAll(RedactAll(v, MARKERS), MARKERS) == RedactAll(v, MARKERS)
  {
    hide Guarded, RedactAll;
    var once := RedactAll(v, MARKERS);
    forall i | 0 <= i < |MARKERS| ensures Guarded(MARKERS[i], once) {
      SecretsGuarded(v, i);
    }
    SecretsFixed(once);
  }
}
