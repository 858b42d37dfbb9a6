/** Locating hunks in a file and splicing them in, and applying whole patches to a workspace. */
module PatchApply {
  import opened Prelude
  import opened Text
  import opened PatchFormat

  datatype MatchKind = Exact | FuzzyTrailingWhitespace

  datatype ApplyError =
    | Ambiguous(exactMatches: nat)
    | AmbiguousFuzzy(fuzzyMatches: nat)
    | ContextMissing

  /** Whether a block of lines is the needle, byte for byte or up to trailing whitespace on each line. */
  predicate SameBlock(block: seq<string>, needle: seq<string>, kind: MatchKind)
    requires |block| == |needle|
  {
    if kind.Exact? then block == needle
    else forall i :: 0 <= i < |needle| ==> TrimEnd(block[i]) == TrimEnd(needle[i])
  }

  predicate MatchesAt(haystack: seq<string>, needle: seq<string>, at: nat, kind: MatchKind)
    requires at + |needle| <= |haystack|
  {
    SameBlock(haystack[at..at + |needle|], needle, kind)
  }

  /** Every position at or after `from` where `needle` occurs, in increasing order. An empty needle
      occurs nowhere. */
  function FindAll(haystack: seq<string>, needle: seq<string>, from: nat, kind: MatchKind): seq<nat>
    decreases |haystack| - from
  {
    if needle == [] || from + |needle| > |haystack| then []
    else (if MatchesAt(haystack, needle, from, kind) then [from] else []) + FindAll(haystack, needle, from + 1, kind)
  }

  function Locate(lines: seq<string>, hunk: Hunk, cursor: nat): Result<(nat, MatchKind), ApplyError> {
    var exact := FindAll(lines, hunk.oldLines, cursor, Exact);
    if |exact| == 1 then Ok((exact[0], Exact))
    else if |exact| > 1 then Err(Ambiguous(|exact|))
    else
      var fuzzy := FindAll(lines, hunk.oldLines, cursor, FuzzyTrailingWhitespace);
      if |fuzzy| == 1 then Ok((fuzzy[0], FuzzyTrailingWhitespace))
      else if |fuzzy| > 1 then Err(AmbiguousFuzzy(|fuzzy|))
      else Err(ContextMissing)
  }

  /** A hunk's place: where it starts and whether trailing whitespace had to be ignored. */
  predicate IsMatch(lines: seq<string>, needle: seq<string>, from: nat, at: nat, kind: MatchKind) {
    needle != [] && from <= at && at + |needle| <= |lines| && MatchesAt(lines, needle, at, kind)
  }

  ghost predicate OnlyMatch(lines: seq<string>, needle: seq<string>, from: nat, at: nat, kind: MatchKind) {
    IsMatch(lines, needle, from, at, kind) && forall x: nat :: IsMatch(lines, needle, from, x, kind) ==> x == at
  }

  ghost predicate NoMatch(lines: seq<string>, needle: seq<string>, from: nat, kind: MatchKind) {
    forall x: nat :: !IsMatch(lines, needle, from, x, kind)
  }

  /** The place a hunk may be applied: the only exact match, or, when there is none at all, the only
      match up to trailing whitespace. */
  ghost predicate PlaceOf(lines: seq<string>, needle: seq<string>, from: nat, at: nat, kind: MatchKind) {
    OnlyMatch(lines, needle, from, at, kind) && (kind.FuzzyTrailingWhitespace? ==> NoMatch(lines, needle, from, Exact))
  }

  lemma {:induction false} FindAllComplete(lines: seq<string>, needle: seq<string>, from: nat, kind: MatchKind)
    ensures forall x: nat :: x in FindAll(lines, needle, from, kind) <==> IsMatch(lines, needle, from, x, kind)
    ensures forall i, j :: 0 <= i < j < |FindAll(lines, needle, from, kind)| ==>
              FindAll(lines, needle, from, kind)[i] < FindAll(lines, needle, from, kind)[j]
    decreases |lines| - from
  {
    if needle != [] && from + |needle| <= |lines| {
      hide MatchesAt;
      FindAllComplete(lines, needle, from + 1, kind);
      var rest := FindAll(lines, needle, from + 1, kind);
      forall x: nat ensures IsMatch(lines, needle, from, x, kind) <==>
          (x == from && MatchesAt(lines, needle, from, kind)) || IsMatch(lines, needle, from + 1, x, kind)
      {
      }
      forall i | 0 <= i < |rest| ensures from < rest[i] {
        assert rest[i] in rest;
      }
    }
  }

  lemma OneElement(found: seq<nat>, at: nat)
    requires at in found && forall x :: x in found ==> x == at
    requires forall i, j :: 0 <= i < j < |found| ==> found[i] < found[j]
    ensures found == [at]
  {
    var last := found[|found| - 1];
    assert found[0] in found && last in found;
  }

  lemma FindAllCounts(lines: seq<string>, needle: seq<string>, from: nat, kind: MatchKind)
    ensures var found := FindAll(lines, needle, from, kind);
            && (|found| == 0 <==> NoMatch(lines, needle, from, kind))
            && (forall at: nat :: OnlyMatch(lines, needle, from, at, kind) <==> found == [at])
  {
    hide IsMatch, FindAll;
    var found := FindAll(lines, needle, from, kind);
    FindAllComplete(lines, needle, from, kind);
    if |found| > 0 {
      assert IsMatch(lines, needle, from, found[0], kind) by {
        assert found[0] in found;
      }
    }
    forall at: nat ensures OnlyMatch(lines, needle, from, at, kind) <==> found == [at] {
      if OnlyMatch(lines, needle, from, at, kind) {
        assert at in found;
        OneElement(found, at);
      }
    }
  }

  /** Locating succeeds exactly when the hunk has a place, and returns it. */
  lemma LocateIff(lines: seq<string>, hunk: Hunk, cursor: nat, at: nat, kind: MatchKind)
    ensures Locate(lines, hunk, cursor) == Ok((at, kind)) <==> PlaceOf(lines, hunk.oldLines, cursor, at, kind)
  {
    hide FindAll, OnlyMatch, NoMatch;
    FindAllCounts(lines, hunk.oldLines, cursor, Exact);
    FindAllCounts(lines, hunk.oldLines, cursor, FuzzyTrailingWhitespace);
    var exact := FindAll(lines, hunk.oldLines, cursor, Exact);
    var fuzzy := FindAll(lines, hunk.oldLines, cursor, FuzzyTrailingWhitespace);
    assert |exact| == 1 ==> exact == [exact[0]];
    assert |fuzzy| == 1 ==> fuzzy == [fuzzy[0]];
  }

  // ---------- Splicing hunks into lines ----------

  datatype Spliced = Spliced(lines: seq<string>, fuzzy: nat)

  function Splice(lines: seq<string>, at: nat, remove: nat, insert: seq<string>): seq<string>
    requires at + remove <= |lines|
  {
    lines[..at] + insert + lines[at + remove..]
  }

  function SpliceHunks(lines: seq<string>, hunks: seq<Hunk>, cursor: nat, fuzzy: nat): Result<Spliced, ApplyError>
    decreases |hunks|
  {
    if hunks == [] then Ok(Spliced(lines, fuzzy))
    else
      var place := Locate(lines, hunks[0], cursor);
      if place.Err? then Err(place.error)
      else
        var (at, kind) := place.value;
        LocateIff(lines, hunks[0], cursor, at, kind);
        SpliceHunks(Splice(lines, at, |hunks[0].oldLines|, hunks[0].newLines), hunks[1..], at + |hunks[0].newLines|,
                    if kind.Exact? then fuzzy else fuzzy + 1)
  }

  /** The loop of `apply_hunks`: each hunk is located at or after the end of the previous one, in the
      lines as already edited. */
  method SpliceAll(original: seq<string>, hunks: seq<Hunk>) returns (result: Result<Spliced, ApplyError>)
    ensures result == SpliceHunks(original, hunks, 0, 0)
  {
    hide Locate, PlaceOf, Splice;
    var lines, cursor: nat, fuzzyMatches: nat := original, 0, 0;
    for i := 0 to |hunks|
      invariant SpliceHunks(original, hunks, 0, 0) == SpliceHunks(lines, hunks[i..], cursor, fuzzyMatches)
    {
      var hunk := hunks[i];
      assert hunks[i..][0] == hunk && hunks[i..][1..] == hunks[i + 1..];
      var place := Locate(lines, hunk, cursor);
      if place.Err? {
        return Err(place.error);
      }
      var (position, kind) := place.value;
      LocateIff(lines, hunk, cursor, position, kind);
      PlaceBounds(lines, hunk.oldLines, cursor, position, kind);
      if kind.FuzzyTrailingWhitespace? {
        fuzzyMatches := fuzzyMatches + 1;
      }
      lines := Splice(lines, position, |hunk.oldLines|, hunk.newLines);
      cursor := position + |hunk.newLines|;
    }
    return Ok(Spliced(lines, fuzzyMatches));
  }

  // ---------- The declarative meaning: disjoint substitution ----------

  /** Where one hunk lands in the ORIGINAL lines. */
  datatype Site = Site(at: nat, kind: MatchKind)

  function End(site: Site, hunk: Hunk): nat {
    site.at + |hunk.oldLines|
  }

  /** Every hunk has its unique place in the original lines, at or after the end of the block the
      previous hunk replaces. */
  ghost predicate Sited(original: seq<string>, hunks: seq<Hunk>, sites: seq<Site>, from: nat)
    decreases hunks
  {
    && |sites| == |hunks|
    && (hunks != [] ==>
          PlaceOf(original, hunks[0].oldLines, from, sites[0].at, sites[0].kind)
          && Sited(original, hunks[1..], sites[1..], End(sites[0], hunks[0])))
  }

  /** The original from `from` on, with the block at each site replaced and everything else kept. */
  ghost function Substitute(original: seq<string>, hunks: seq<Hunk>, sites: seq<Site>, from: nat): seq<string>
    requires Sited(original, hunks, sites, from) && from <= |original|
    decreases hunks
  {
    if hunks == [] then original[from..]
    else original[from..sites[0].at] + hunks[0].newLines
         + Substitute(original, hunks[1..], sites[1..], End(sites[0], hunks[0]))
  }

  ghost function FuzzyCount(sites: seq<Site>): nat {
    if sites == [] then 0 else (if sites[0].kind.Exact? then 0 else 1) + FuzzyCount(sites[1..])
  }

  /** Matching only looks at the lines from the cursor on, so it does not see earlier edits. */
  lemma PlaceShift(lines: seq<string>, cursor: nat, original: seq<string>, from: nat, needle: seq<string>, at: nat,
                   kind: MatchKind)
    requires cursor <= |lines| && from <= |original| && lines[cursor..] == original[from..]
    requires at >= cursor
    ensures PlaceOf(lines, needle, cursor, at, kind) <==> PlaceOf(original, needle, from, at - cursor + from, kind)
  {
    hide IsMatch;
    forall x: nat, k: MatchKind | x >= cursor
      ensures IsMatch(lines, needle, cursor, x, k) <==> IsMatch(original, needle, from, x - cursor + from, k)
    {
      MatchShift(lines, cursor, original, from, needle, x, k);
    }
    forall x: nat, k: MatchKind | x >= from
      ensures IsMatch(original, needle, from, x, k) <==> IsMatch(lines, needle, cursor, x - from + cursor, k)
    {
      MatchShift(lines, cursor, original, from, needle, x - from + cursor, k);
    }
    forall x: nat, k: MatchKind ensures IsMatch(lines, needle, cursor, x, k) ==> x >= cursor {
      MatchFrom(lines, needle, cursor, x, k);
    }
    forall x: nat, k: MatchKind ensures IsMatch(original, needle, from, x, k) ==> x >= from {
      MatchFrom(original, needle, from, x, k);
    }
  }

  lemma MatchFrom(lines: seq<string>, needle: seq<string>, from: nat, at: nat, kind: MatchKind)
    ensures IsMatch(lines, needle, from, at, kind) ==> needle != [] && from <= at && at + |needle| <= |lines|
  {
  }

  lemma MatchShift(lines: seq<string>, cursor: nat, original: seq<string>, from: nat, needle: seq<string>, at: nat,
                   kind: MatchKind)
    requires cursor <= |lines| && from <= |original| && lines[cursor..] == original[from..]
    requires at >= cursor
    ensures IsMatch(lines, needle, cursor, at, kind) <==> IsMatch(original, needle, from, at - cursor + from, kind)
  {
    var d := at - cursor;
    if needle != [] && at + |needle| <= |lines| {
      assert lines[at..at + |needle|] == lines[cursor..][d..d + |needle|];
      assert original[from + d..from + d + |needle|] == original[from..][d..d + |needle|];
    }
  }

  /** If the edited lines still agree with the original from the cursor on, splicing the remaining
      hunks there substitutes them in the original. */
  lemma {:induction false} SpliceMeans(lines: seq<string>, cursor: nat, fuzzy: nat, original: seq<string>, from: nat,
                                       hunks: seq<Hunk>) returns (sites: seq<Site>)
    requires cursor <= |lines| && from <= |original| && lines[cursor..] == original[from..]
    requires SpliceHunks(lines, hunks, cursor, fuzzy).Ok?
    ensures Sited(original, hunks, sites, from)
    ensures SpliceHunks(lines, hunks, cursor, fuzzy).value
            == Spliced(lines[..cursor] + Substitute(original, hunks, sites, from), fuzzy + FuzzyCount(sites))
    decreases |hunks|
  {
    hide *;
    if hunks == [] {
      sites := [];
      SpliceNothing(lines, cursor, fuzzy, original, from);
    } else {
      var at, kind := FirstPlace(lines, hunks, cursor, fuzzy);
      var site, head, next, cursor' := SpliceOne(lines, cursor, original, from, hunks[0], at, kind);
      var fuzzy' := if kind.Exact? then fuzzy else fuzzy + 1;
      var rest := SpliceMeans(next, cursor', fuzzy', original, End(site, hunks[0]), hunks[1..]);
      sites := [site] + rest;
      assert sites[1..] == rest;
      SiteFirst(original, hunks, sites, from);
      Regroup(lines[..cursor], head, Substitute(original, hunks[1..], rest, End(site, hunks[0])));
    }
  }

  lemma SpliceNothing(lines: seq<string>, cursor: nat, fuzzy: nat, original: seq<string>, from: nat)
    requires cursor <= |lines| && from <= |original| && lines[cursor..] == original[from..]
    ensures Sited(original, [], [], from) && FuzzyCount([]) == 0
    ensures SpliceHunks(lines, [], cursor, fuzzy) ==
            Ok(Spliced(lines[..cursor] + Substitute(original, [], [], from), fuzzy))
  {
    assert lines == lines[..cursor] + lines[cursor..];
  }

  /** One splice: the hunk's site in the original, the edited lines and cursor it leads to, and what
      they have gained in front of the cursor. */
  lemma SpliceOne(lines: seq<string>, cursor: nat, original: seq<string>, from: nat, hunk: Hunk, at: nat,
                  kind: MatchKind)
    returns (site: Site, head: seq<string>, next: seq<string>, cursor': nat)
    requires cursor <= at && at + |hunk.oldLines| <= |lines| && from <= |original|
    requires lines[cursor..] == original[from..]
    requires PlaceOf(lines, hunk.oldLines, cursor, at, kind)
    ensures next == Splice(lines, at, |hunk.oldLines|, hunk.newLines) && cursor' == at + |hunk.newLines|
    ensures site.kind == kind && from <= site.at && End(site, hunk) <= |original|
    ensures PlaceOf(original, hunk.oldLines, from, site.at, kind)
    ensures cursor' <= |next| && next[cursor'..] == original[End(site, hunk)..]
    ensures head == original[from..site.at] + hunk.newLines && next[..cursor'] == lines[..cursor] + head
  {
    hide PlaceOf;
    site := Site(at - cursor + from, kind);
    PlaceShift(lines, cursor, original, from, hunk.oldLines, at, kind);
    SpliceAgrees(lines, cursor, original, from, hunk, at);
    next, cursor' := Splice(lines, at, |hunk.oldLines|, hunk.newLines), at + |hunk.newLines|;
    head := original[from..site.at] + hunk.newLines;
    assert lines[..cursor] + original[from..site.at] + hunk.newLines == lines[..cursor] + head;
  }

  lemma Regroup(a: seq<string>, b: seq<string>, c: seq<string>)
    ensures a + b + c == a + (b + c)
  {
  }

  lemma FirstPlace(lines: seq<string>, hunks: seq<Hunk>, cursor: nat, fuzzy: nat) returns (at: nat, kind: MatchKind)
    requires hunks != [] && SpliceHunks(lines, hunks, cursor, fuzzy).Ok?
    ensures && PlaceOf(lines, hunks[0].oldLines, cursor, at, kind)
            && hunks[0].oldLines != [] && cursor <= at && at + |hunks[0].oldLines| <= |lines|
            && SpliceHunks(lines, hunks, cursor, fuzzy)
               == SpliceHunks(Splice(lines, at, |hunks[0].oldLines|, hunks[0].newLines), hunks[1..],
                              at + |hunks[0].newLines|, if kind.Exact? then fuzzy else fuzzy + 1)
  {
    hide PlaceOf, Locate;
    var place := Locate(lines, hunks[0], cursor).value;
    at, kind := place.0, place.1;
    LocateIff(lines, hunks[0], cursor, at, kind);
    PlaceBounds(lines, hunks[0].oldLines, cursor, at, kind);
  }

  lemma {:induction false} SiteFirst(original: seq<string>, hunks: seq<Hunk>, sites: seq<Site>, from: nat)
    requires hunks != [] && sites != [] && from <= |original|
    requires PlaceOf(original, hunks[0].oldLines, from, sites[0].at, sites[0].kind)
    requires Sited(original, hunks[1..], sites[1..], End(sites[0], hunks[0]))
    ensures Sited(original, hunks, sites, from) && from <= sites[0].at && End(sites[0], hunks[0]) <= |original|
    ensures Substitute(original, hunks, sites, from) == original[from..sites[0].at] + hunks[0].newLines
              + Substitute(original, hunks[1..], sites[1..], End(sites[0], hunks[0]))
    ensures FuzzyCount(sites) == (if sites[0].kind.Exact? then 0 else 1) + FuzzyCount(sites[1..])
  {
    PlaceBounds(original, hunks[0].oldLines, from, sites[0].at, sites[0].kind);
    hide PlaceOf;
  }

  lemma PlaceBounds(lines: seq<string>, needle: seq<string>, from: nat, at: nat, kind: MatchKind)
    requires PlaceOf(lines, needle, from, at, kind)
    ensures needle != [] && from <= at && at + |needle| <= |lines|
  {
  }

  lemma SpliceAgrees(lines: seq<string>, cursor: nat, original: seq<string>, from: nat, hunk: Hunk, at: nat)
    requires cursor <= at && at + |hunk.oldLines| <= |lines| && from <= |original|
    requires lines[cursor..] == original[from..]
    ensures var next, cursor', end := Splice(lines, at, |hunk.oldLines|, hunk.newLines), at + |hunk.newLines|,
              at - cursor + from + |hunk.oldLines|;
            && cursor' <= |next| && end <= |original| && next[cursor'..] == original[end..]
            && next[..cursor'] == lines[..cursor] + original[from..at - cursor + from] + hunk.newLines
  {
    var n := |hunk.oldLines|;
    assert |lines| - cursor == |original| - from;
    assert lines[at + n..] == lines[cursor..][at - cursor + n..];
    assert original[at - cursor + from + n..] == original[from..][at - cursor + n..];
    assert lines[cursor..at] == lines[cursor..][..at - cursor];
    assert original[from..at - cursor + from] == original[from..][..at - cursor];
    assert lines[..at] == lines[..cursor] + lines[cursor..at];
  }

  /** ... and whenever every remaining hunk has its place in the original, splicing succeeds. */
  lemma {:induction false} SitedSplices(lines: seq<string>, cursor: nat, fuzzy: nat, original: seq<string>, from: nat,
                                        hunks: seq<Hunk>, sites: seq<Site>)
    requires cursor <= |lines| && from <= |original| && lines[cursor..] == original[from..]
    requires Sited(original, hunks, sites, from)
    ensures SpliceHunks(lines, hunks, cursor, fuzzy).Ok?
    decreases |hunks|
  {
    if hunks != [] {
      hide PlaceOf, Locate, Splice;
      PlaceBounds(original, hunks[0].oldLines, from, sites[0].at, sites[0].kind);
      var at := sites[0].at - from + cursor;
      PlaceShift(lines, cursor, original, from, hunks[0].oldLines, at, sites[0].kind);
      LocateIff(lines, hunks[0], cursor, at, sites[0].kind);
      assert |lines| - cursor == |lines[cursor..]| == |original| - from;
      SpliceAgrees(lines, cursor, original, from, hunks[0], at);
      SitedSplices(Splice(lines, at, |hunks[0].oldLines|, hunks[0].newLines), at + |hunks[0].newLines|,
                   if sites[0].kind.Exact? then fuzzy else fuzzy + 1, original, End(sites[0], hunks[0]),
                   hunks[1..], sites[1..]);
    }
  }

  lemma {:induction false} SitesUnique(original: seq<string>, hunks: seq<Hunk>, a: seq<Site>, b: seq<Site>, from: nat)
    requires Sited(original, hunks, a, from) && Sited(original, hunks, b, from)
    ensures a == b
    decreases |hunks|
  {
    if hunks != [] {
      PlaceUnique(original, hunks[0].oldLines, from, a[0], b[0]);
      SitesUnique(original, hunks[1..], a[1..], b[1..], End(a[0], hunks[0]));
      assert a == [a[0]] + a[1..] && b == [b[0]] + b[1..];
    }
  }

  lemma PlaceUnique(lines: seq<string>, needle: seq<string>, from: nat, a: Site, b: Site)
    requires PlaceOf(lines, needle, from, a.at, a.kind) && PlaceOf(lines, needle, from, b.at, b.kind)
    ensures a == b
  {
    assert IsMatch(lines, needle, from, a.at, a.kind) && IsMatch(lines, needle, from, b.at, b.kind);
  }

  /** Applying hunks refines disjoint substitution: it succeeds exactly when each hunk in turn has one
      place in the original lines, and then the result is the original with just those blocks
      replaced, counting the places found only by ignoring trailing whitespace. */
  lemma ApplyIsSubstitution(original: seq<string>, hunks: seq<Hunk>)
    ensures SpliceHunks(original, hunks, 0, 0).Ok? <==> exists sites :: Sited(original, hunks, sites, 0)
    ensures forall sites :: Sited(original, hunks, sites, 0) ==>
              SpliceHunks(original, hunks, 0, 0) ==
                Ok(Spliced(Substitute(original, hunks, sites, 0), FuzzyCount(sites)))
  {
    hide Sited, Substitute, SpliceHunks;
    if SpliceHunks(original, hunks, 0, 0).Ok? {
      var found := SpliceMeans(original, 0, 0, original, 0, hunks);
      assert original[..0] + Substitute(original, hunks, found, 0) == Substitute(original, hunks, found, 0);
      forall sites | Sited(original, hunks, sites, 0) ensures sites == found {
        SitesUnique(original, hunks, sites, found, 0);
      }
    }
    forall sites | Sited(original, hunks, sites, 0) ensures SpliceHunks(original, hunks, 0, 0).Ok? {
      SitedSplices(original, 0, 0, original, 0, hunks, sites);
    }
  }
}
