/** What whitespace and trimming are, character by character. */
module TextMeaning {
  import opened Text

  /** The 25 code points of the Unicode White_Space property. */
  lemma WhitespaceMeans(c: char)
    ensures IsWhitespace(c) <==>
            c as int in [0x9, 0xA, 0xB, 0xC, 0xD, 0x20, 0x85, 0xA0, 0x1680, 0x2000, 0x2001, 0x2002, 0x2003, 0x2004,
                         0x2005, 0x2006, 0x2007, 0x2008, 0x2009, 0x200A, 0x2028, 0x2029, 0x202F, 0x205F, 0x3000]
  {
  }

  predicate AllWhitespace(s: string) {
    forall i :: 0 <= i < |s| ==> IsWhitespace(s[i])
  }

  lemma {:induction false} TrimStartSkips(a: string, s: string)
    requires AllWhitespace(a)
    ensures TrimStart(a + s) == TrimStart(s)
  {
    hide IsWhitespace;
    if a == [] {
      assert a + s == s;
    } else {
      TrimStartSkips(a[1..], s);
      assert (a + s)[1..] == a[1..] + s;
    }
  }

  lemma {:induction false} TrimEndSkips(s: string, b: string)
    requires AllWhitespace(b)
    ensures TrimEnd(s + b) == TrimEnd(s)
  {
    hide IsWhitespace;
    if b == [] {
      assert s + b == s;
    } else {
      var n := |b| - 1;
      TrimEndSkips(s, b[..n]);
      assert (s + b)[..|s + b| - 1] == s + b[..n] && (s + b)[|s + b| - 1] == b[n];
    }
  }

  lemma {:induction false} TrimStartCut(s: string) returns (a: string)
    ensures AllWhitespace(a) && s == a + TrimStart(s)
    ensures TrimStart(s) != [] ==> !IsWhitespace(TrimStart(s)[0])
  {
    hide IsWhitespace;
    if s != [] && IsWhitespace(s[0]) {
      a := TrimStartCut(s[1..]);
      assert s == [s[0]] + s[1..];
      a := [s[0]] + a;
    } else {
      a := [];
    }
  }

  lemma {:induction false} TrimEndCut(s: string) returns (b: string)
    ensures AllWhitespace(b) && s == TrimEnd(s) + b
  {
    hide IsWhitespace;
    if s != [] && IsWhitespace(s[|s| - 1]) {
      b := TrimEndCut(s[..|s| - 1]);
      assert s == s[..|s| - 1] + [s[|s| - 1]];
      b := b + [s[|s| - 1]];
    } else {
      b := [];
    }
  }

  /** Whitespace around a text does not matter to trimming. */
  lemma TrimSkips(a: string, s: string, b: string)
    requires AllWhitespace(a) && AllWhitespace(b)
    ensures Trim(a + s + b) == Trim(s)
  {
    hide IsWhitespace, TrimStart, TrimEnd;
    assert a + s + b == a + (s + b);
    TrimStartSkips(a, s + b);
    TrimBlankEnd(s, b);
  }

  lemma {:induction false} TrimBlankEnd(s: string, b: string)
    requires AllWhitespace(b)
    ensures Trim(s + b) == Trim(s)
  {
    hide IsWhitespace;
    if s == [] {
      assert s + b == b == b + [];
      TrimStartSkips(b, []);
    } else if IsWhitespace(s[0]) {
      TrimBlankEnd(s[1..], b);
      assert (s + b)[1..] == s[1..] + b;
    } else {
      TrimEndSkips(s, b);
    }
  }

  /** Trimming takes whitespace off both ends, as much as there is, and nothing else. */
  lemma TrimMeans(s: string) returns (a: string, b: string)
    ensures AllWhitespace(a) && AllWhitespace(b) && s == a + Trim(s) + b
    ensures Trim(s) != [] ==> !IsWhitespace(Trim(s)[0]) && !IsWhitespace(Trim(s)[|Trim(s)| - 1])
  {
    hide IsWhitespace, TrimStart, TrimEnd;
    a := TrimStartCut(s);
    b := TrimEndCut(TrimStart(s));
    assert Trim(s) == TrimEnd(TrimStart(s)) <= TrimStart(s);
  }

  /** The beginning of both texts is the same, and what follows it in either is whitespace. */
  ghost predicate SameButForEnd(a: string, b: string) {
    exists n :: 0 <= n <= |a| && n <= |b| && a[..n] == b[..n] && AllWhitespace(a[n..]) && AllWhitespace(b[n..])
  }

  lemma TrimEndMeans(a: string, b: string)
    ensures TrimEnd(a) == TrimEnd(b) <==> SameButForEnd(a, b)
  {
    hide TrimEnd;
    if TrimEnd(a) == TrimEnd(b) {
      var n := |TrimEnd(a)|;
      var endA := TrimEndCut(a);
      var endB := TrimEndCut(b);
      assert a[..n] == TrimEnd(a) == b[..n] && a[n..] == endA && b[n..] == endB;
    }
    if n :| 0 <= n <= |a| && n <= |b| && a[..n] == b[..n] && AllWhitespace(a[n..]) && AllWhitespace(b[n..]) {
      TrimEndSkips(a[..n], a[n..]);
      TrimEndSkips(b[..n], b[n..]);
      assert a == a[..n] + a[n..] && b == b[..n] + b[n..];
    }
  }

  // ---------- Lines ----------

  /** Every text is some lines, each ended with a newline, and a last one without. */
  lemma {:induction false} TextCut(text: string) returns (ended: seq<string>, last: string)
    ensures text == Unlines(ended) + last && '\n' !in last && forall line :: line in ended ==> '\n' !in line
  {
    var i := FirstNewline(text);
    if i == |text| {
      ended, last := [], text;
      assert text[..i] == text && Unlines([]) + last == text;
    } else {
      var line := text[..i];
      ended, last := TextCut(text[i + 1..]);
      var rest := ended;
      ended := [line] + rest;
      assert ended[1..] == rest && text == line + ['\n'] + text[i + 1..];
      assert Unlines(ended) == line + ['\n'] + Unlines(rest);
    }
  }

  lemma FirstLine(line: string, rest: string)
    requires '\n' !in line
    ensures Lines(line + ['\n'] + rest) == [StripCr(line)] + Lines(rest)
  {
    hide FirstNewline, StripCr;
    var text := line + ['\n'] + rest;
    FirstNewlineAt(line, rest);
    assert text[..|line|] == line && text[|line| + 1..] == rest;
  }

  lemma LastLine(last: string)
    requires '\n' !in last
    ensures Lines(last) == if last == "" then [] else [last]
  {
    hide FirstNewline;
  }

  lemma {:induction false} LinesStripped(ended: seq<string>, last: string)
    requires '\n' !in last && forall line :: line in ended ==> '\n' !in line
    ensures Lines(Unlines(ended) + last) == StripCrs(ended) + if last == "" then [] else [last]
  {
    hide Lines, StripCr;
    if ended == [] {
      assert Unlines(ended) + last == last;
      LastLine(last);
    } else {
      LinesStripped(ended[1..], last);
      FirstLine(ended[0], Unlines(ended[1..]) + last);
      assert Unlines(ended) + last == ended[0] + ['\n'] + (Unlines(ended[1..]) + last);
      assert StripCrs(ended) == [StripCr(ended[0])] + StripCrs(ended[1..]);
    }
  }

  /** The lines of a text: those ended with a newline, each without the one carriage return it may end in, and the last
      one as it is, if it is not empty. */
  lemma LinesMean(ended: seq<string>, last: string)
    requires '\n' !in last && forall line :: line in ended ==> '\n' !in line
    ensures var lines := Lines(Unlines(ended) + last);
            && |lines| == |ended| + (if last == "" then 0 else 1)
            && (forall i :: 0 <= i < |ended| ==>
                  if ended[i] != "" && ended[i][|ended[i]| - 1] == '\r' then ended[i] == lines[i] + "\r"
                  else lines[i] == ended[i])
            && (last != "" ==> lines[|ended|] == last)
  {
    hide Lines, Unlines;
    LinesStripped(ended, last);
  }
}
