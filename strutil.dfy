/**
 * String utilities of the engine (util/strutil.cpp): split/join/replace over a
 * naive delimiter matcher, prefix/suffix trimming, padding, case mapping, hex
 * conversion and the number check. std::string is seq<char>. The standard
 * library's std::stoi and std::to_string, used by toInt and by DateTime, are
 * modelled here as ParseIntPrefix and Decimal.
 */
module StrUtil {
  import opened Wrappers

  // ---------------------------------------------------------------------------
  // The delimiter scanner shared by split, trimFront, trimBack and
  // stringContains: k is the number of delimiter characters matched so far.
  // On a mismatch the scanner resets to 0 and does NOT re-test the current
  // character against the first delimiter character (no backtracking).
  // ---------------------------------------------------------------------------

  /** The match index after reading c in state k. */
  function Next(d: string, k: nat, c: char): (k': nat)
    requires k < |d|
    ensures k' < |d|
  {
    if c == d[k] && k + 1 < |d| then k + 1 else 0
  }

  /** Reading c in state k completes a delimiter match. */
  predicate Completes(d: string, k: nat, c: char)
    requires k < |d|
  {
    c == d[k] && k + 1 == |d|
  }

  /** Number of matches the scanner recognises in s[i..], starting in state k. */
  function MatchesFrom(s: string, i: nat, d: string, k: nat): nat
    requires i <= |s| && k < |d|
    decreases |s| - i
  {
    if i == |s| then 0
    else (if Completes(d, k, s[i]) then 1 else 0) + MatchesFrom(s, i + 1, d, Next(d, k, s[i]))
  }

  function Matches(s: string, d: string): nat
    requires |d| > 0
  {
    MatchesFrom(s, 0, d, 0)
  }

  /** The index just past the first match the scanner recognises in s[i..]. */
  function FirstMatchFrom(s: string, i: nat, d: string, k: nat): (r: Option<nat>)
    requires i <= |s| && k < |d|
    ensures r.Some? ==> i < r.value <= |s|
    decreases |s| - i
  {
    if i == |s| then None
    else if Completes(d, k, s[i]) then Some(i + 1)
    else FirstMatchFrom(s, i + 1, d, Next(d, k, s[i]))
  }

  function FirstMatch(s: string, d: string): Option<nat>
    requires |d| > 0
  {
    FirstMatchFrom(s, 0, d, 0)
  }

  lemma {:induction false} FirstMatchFromSound(s: string, i: nat, d: string, k: nat)
    requires i <= |s| && k < |d| && k <= i && s[i - k..i] == d[..k]
    ensures FirstMatchFrom(s, i, d, k).Some? ==>
              var e := FirstMatchFrom(s, i, d, k).value;
              i < e <= |s| && |d| <= e && s[e - |d|..e] == d
    decreases |s| - i
  {
    if i < |s| {
      var c := s[i];
      assert s[i - k..i + 1] == s[i - k..i] + [c];
      if Completes(d, k, c) {
        assert d[..k] + [d[k]] == d;
      } else if c == d[k] {
        assert d[..k + 1] == d[..k] + [d[k]];
        FirstMatchFromSound(s, i + 1, d, k + 1);
      } else {
        FirstMatchFromSound(s, i + 1, d, 0);
      }
    }
  }

  /** A recognised match really is an occurrence of d: the scanner is sound. */
  lemma FirstMatchSound(s: string, d: string)
    requires |d| > 0
    ensures FirstMatch(s, d).Some? ==>
              var e := FirstMatch(s, d).value;
              |d| <= e <= |s| && s[e - |d|..e] == d
  {
    FirstMatchFromSound(s, 0, d, 0);
  }

  lemma {:induction false} FirstMatchFromNoneIffNoMatches(s: string, i: nat, d: string, k: nat)
    requires i <= |s| && k < |d|
    ensures FirstMatchFrom(s, i, d, k).None? <==> MatchesFrom(s, i, d, k) == 0
    decreases |s| - i
  {
    if i < |s| {
      FirstMatchFromNoneIffNoMatches(s, i + 1, d, Next(d, k, s[i]));
    }
  }

  /** ... but not complete: "ab" occurs in "aab", yet the scanner never sees it. */
  lemma ScannerMissesOverlappingStart()
    ensures FirstMatch("aab", "ab").None?
    ensures "aab"[1..3] == "ab"
  {
  }

  // ---------------------------------------------------------------------------
  // join
  // ---------------------------------------------------------------------------

  /** The elements of xs with d between consecutive elements. */
  function Join(xs: seq<string>, d: string): string
  {
    if |xs| == 0 then ""
    else if |xs| == 1 then xs[0]
    else Join(xs[..|xs| - 1], d) + d + xs[|xs| - 1]
  }

  function TotalLength(xs: seq<string>): nat
  {
    if |xs| == 0 then 0 else TotalLength(xs[..|xs| - 1]) + |xs[|xs| - 1]|
  }

  lemma JoinSnoc(xs: seq<string>, a: string, d: string)
    ensures Join(xs + [a], d) == if xs == [] then a else Join(xs, d) + d + a
  {
    assert (xs + [a])[..|xs|] == xs;
  }

  lemma JoinExtendLast(xs: seq<string>, a: string, b: string, d: string)
    ensures Join(xs + [a + b], d) == Join(xs + [a], d) + b
  {
    JoinSnoc(xs, a + b, d);
    JoinSnoc(xs, a, d);
  }

  /** The delimiter appears only between elements: |xs| - 1 copies of it. */
  lemma {:induction false} JoinLength(xs: seq<string>, d: string)
    ensures |xs| > 0 ==> |Join(xs, d)| == TotalLength(xs) + (|xs| - 1) * |d|
    ensures |xs| == 0 ==> Join(xs, d) == ""
  {
    if |xs| > 1 {
      var init := xs[..|xs| - 1];
      JoinLength(init, d);
      assert |Join(xs, d)| == |Join(init, d)| + |d| + |xs[|xs| - 1]|;
      assert TotalLength(xs) == TotalLength(init) + |xs[|xs| - 1]|;
      assert (|init| - 1) * |d| + |d| == (|xs| - 1) * |d|;
    }
  }

  /** join as the source writes it: a loop appending each element and, except after the last, the delimiter. */
  method JoinStrings(xs: seq<string>, d: string) returns (r: string)
    ensures r == Join(xs, d)
  {
    r := "";
    var i := 0;
    while i < |xs|
      invariant 0 <= i <= |xs|
      invariant r == if 0 < i < |xs| then Join(xs[..i], d) + d else Join(xs[..i], d)
    {
      assert xs[..i + 1] == xs[..i] + [xs[i]];
      JoinSnoc(xs[..i], xs[i], d);
      r := r + xs[i];
      if i != |xs| - 1 {
        r := r + d;
      }
      i := i + 1;
    }
    assert xs[..i] == xs;
  }

  // ---------------------------------------------------------------------------
  // split
  // ---------------------------------------------------------------------------

  /** With an empty delimiter every character c becomes the brace-initialised string { c, 1 }. */
  function CharParts(s: string): (r: seq<string>)
    ensures |r| == |s|
  {
    seq(|s|, i requires 0 <= i < |s| => [s[i], 1 as char])
  }

  /** The state of the split loop after s[..i]: match index k, pending token and parts so far. */
  function SplitFrom(s: string, i: nat, d: string, k: nat, token: string, parts: seq<string>, includeEmpty: bool): seq<string>
    requires i <= |s| && k < |d|
    decreases |s| - i
  {
    if i == |s| then
      var t := token + d[..k];
      if includeEmpty || |t| != 0 then parts + [t] else parts
    else if s[i] == d[k] then
      if k + 1 == |d| then
        SplitFrom(s, i + 1, d, 0, "", if includeEmpty || |token| != 0 then parts + [token] else parts, includeEmpty)
      else
        SplitFrom(s, i + 1, d, k + 1, token, parts, includeEmpty)
    else
      SplitFrom(s, i + 1, d, 0, token + d[..k] + [s[i]], parts, includeEmpty)
  }

  function SplitSpec(s: string, d: string, includeEmpty: bool): seq<string>
  {
    if |d| == 0 then CharParts(s) + (if includeEmpty then [""] else [])
    else SplitFrom(s, 0, d, 0, "", [], includeEmpty)
  }

  method Split(s: string, d: string, includeEmpty: bool) returns (parts: seq<string>)
    ensures parts == SplitSpec(s, d, includeEmpty)
  {
    parts := [];
    var token := "";
    var k := 0;
    var i := 0;
    while i < |s|
      invariant 0 <= i <= |s|
      invariant |d| == 0 ==> k == 0 && token == "" && parts == CharParts(s[..i])
      invariant |d| > 0 ==> (k < |d| &&
        SplitFrom(s, i, d, k, token, parts, includeEmpty) == SplitFrom(s, 0, d, 0, "", [], includeEmpty))
    {
      var c := s[i];
      if |d| == 0 {
        assert CharParts(s[..i + 1]) == CharParts(s[..i]) + [[c, 1 as char]];
        parts := parts + [[c, 1 as char]];
      } else if c == d[k] {
        k := k + 1;
        if k == |d| {
          if includeEmpty || |token| != 0 {
            parts := parts + [token];
          }
          token := "";
          k := 0;
        }
      } else {
        token := token + d[..k] + [c];
        k := 0;
      }
      i := i + 1;
    }
    assert s[..i] == s;
    token := token + d[..k];
    if includeEmpty || |token| != 0 {
      parts := parts + [token];
    }
  }

  lemma JoinStepComplete(parts: seq<string>, token: string, d: string, k: nat, prefix: string)
    requires k + 1 == |d| && Join(parts + [token + d[..k]], d) == prefix
    ensures Join((parts + [token]) + ["" + d[..0]], d) == prefix + [d[k]]
  {
    JoinExtendLast(parts, token, d[..k], d);
    assert d[..k] + [d[k]] == d;
    assert "" + d[..0] == "";
    JoinSnoc(parts + [token], "", d);
  }

  lemma JoinStepPartial(parts: seq<string>, token: string, d: string, k: nat, prefix: string)
    requires k + 1 < |d| && Join(parts + [token + d[..k]], d) == prefix
    ensures Join(parts + [token + d[..k + 1]], d) == prefix + [d[k]]
  {
    assert token + d[..k + 1] == (token + d[..k]) + [d[k]];
    JoinExtendLast(parts, token + d[..k], [d[k]], d);
  }

  lemma JoinStepMismatch(parts: seq<string>, token: string, d: string, k: nat, c: char, prefix: string)
    requires k < |d| && Join(parts + [token + d[..k]], d) == prefix
    ensures Join(parts + [(token + d[..k] + [c]) + d[..0]], d) == prefix + [c]
  {
    assert (token + d[..k] + [c]) + d[..0] == (token + d[..k]) + [c];
    JoinExtendLast(parts, token + d[..k], [c], d);
  }

  lemma {:induction false} SplitFromJoin(s: string, i: nat, d: string, k: nat, token: string, parts: seq<string>)
    requires i <= |s| && k < |d|
    requires Join(parts + [token + d[..k]], d) == s[..i]
    ensures Join(SplitFrom(s, i, d, k, token, parts, true), d) == s
    decreases |s| - i
  {
    if i == |s| {
      assert s[..i] == s;
    } else {
      var c := s[i];
      assert s[..i + 1] == s[..i] + [c];
      if c == d[k] {
        if k + 1 == |d| {
          JoinStepComplete(parts, token, d, k, s[..i]);
          SplitFromJoin(s, i + 1, d, 0, "", parts + [token]);
        } else {
          JoinStepPartial(parts, token, d, k, s[..i]);
          SplitFromJoin(s, i + 1, d, k + 1, token, parts);
        }
      } else {
        JoinStepMismatch(parts, token, d, k, c, s[..i]);
        SplitFromJoin(s, i + 1, d, 0, token + d[..k] + [c], parts);
      }
    }
  }

  /** Round trip: joining the parts of split(s, d, true) with d gives back s; no character is lost. */
  lemma JoinSplitRoundTrip(s: string, d: string)
    requires |d| > 0
    ensures Join(SplitSpec(s, d, true), d) == s
  {
    assert d[..0] == "";
    assert Join([] + ["" + d[..0]], d) == "";
    SplitFromJoin(s, 0, d, 0, "", []);
  }

  lemma {:induction false} SplitFromCount(s: string, i: nat, d: string, k: nat, token: string, parts: seq<string>)
    requires i <= |s| && k < |d|
    ensures |SplitFrom(s, i, d, k, token, parts, true)| == |parts| + MatchesFrom(s, i, d, k) + 1
    decreases |s| - i
  {
    if i < |s| {
      var c := s[i];
      if c == d[k] {
        if k + 1 == |d| {
          SplitFromCount(s, i + 1, d, 0, "", parts + [token]);
        } else {
          SplitFromCount(s, i + 1, d, k + 1, token, parts);
        }
      } else {
        SplitFromCount(s, i + 1, d, 0, token + d[..k] + [c], parts);
      }
    }
  }

  /** With empty parts kept, there is one part more than recognised delimiter matches. */
  lemma SplitCount(s: string, d: string)
    requires |d| > 0
    ensures |SplitSpec(s, d, true)| == Matches(s, d) + 1
  {
    SplitFromCount(s, 0, d, 0, "", []);
  }

  lemma {:induction false} SplitFromNonEmpty(s: string, i: nat, d: string, k: nat, token: string, parts: seq<string>)
    requires i <= |s| && k < |d|
    requires forall j :: 0 <= j < |parts| ==> parts[j] != ""
    ensures forall p :: p in SplitFrom(s, i, d, k, token, parts, false) ==> p != ""
    decreases |s| - i
  {
    if i < |s| {
      var c := s[i];
      if c == d[k] {
        if k + 1 == |d| {
          SplitFromNonEmpty(s, i + 1, d, 0, "", if |token| != 0 then parts + [token] else parts);
        } else {
          SplitFromNonEmpty(s, i + 1, d, k + 1, token, parts);
        }
      } else {
        SplitFromNonEmpty(s, i + 1, d, 0, token + d[..k] + [c], parts);
      }
    }
  }

  /** Without includeEmpty no part is empty (for any delimiter, the empty one included). */
  lemma SplitNoEmptyParts(s: string, d: string)
    ensures forall p :: p in SplitSpec(s, d, false) ==> p != ""
  {
    if |d| > 0 {
      SplitFromNonEmpty(s, 0, d, 0, "", []);
    } else {
      assert SplitSpec(s, d, false) == CharParts(s);
      forall p | p in CharParts(s) ensures p != "" {
        var j :| 0 <= j < |s| && CharParts(s)[j] == p;
      }
    }
  }

  /** The no-backtracking matcher keeps "aab" whole when splitting on "ab". */
  lemma SplitDoesNotBacktrack()
    ensures SplitSpec("aab", "ab", false) == ["aab"]
  {
    var s, d := "aab", "ab";
    assert s[0] == 'a' && s[1] == 'a' && s[2] == 'b';
    assert d[..1] == "a" && d[..0] == "";
    assert "aab" + d[..0] == "aab";
    assert SplitFrom(s, 3, d, 0, "aab", [], false) == ["aab"];
    assert "aa" + d[..0] + [s[2]] == "aab";
    assert SplitFrom(s, 2, d, 0, "aa", [], false) == ["aab"];
    assert "" + d[..1] + [s[1]] == "aa";
    assert SplitFrom(s, 1, d, 1, "", [], false) == ["aab"];
  }

  /** The overload on a list: the parts of each string, in order. */
  function SplitManySpec(xs: seq<string>, d: string, includeEmpty: bool): seq<string>
  {
    if |xs| == 0 then [] else SplitManySpec(xs[..|xs| - 1], d, includeEmpty) + SplitSpec(xs[|xs| - 1], d, includeEmpty)
  }

  method SplitMany(xs: seq<string>, d: string, includeEmpty: bool) returns (parts: seq<string>)
    ensures parts == SplitManySpec(xs, d, includeEmpty)
  {
    parts := [];
    var i := 0;
    while i < |xs|
      invariant 0 <= i <= |xs|
      invariant parts == SplitManySpec(xs[..i], d, includeEmpty)
    {
      var ps := Split(xs[i], d, includeEmpty);
      var j := 0;
      while j < |ps|
        invariant 0 <= j <= |ps|
        invariant parts == SplitManySpec(xs[..i], d, includeEmpty) + ps[..j]
      {
        assert ps[..j + 1] == ps[..j] + [ps[j]];
        parts := parts + [ps[j]];
        j := j + 1;
      }
      assert ps[..j] == ps;
      assert xs[..i + 1][..i] == xs[..i];
      i := i + 1;
    }
    assert xs[..i] == xs;
  }

  lemma {:induction false} SplitFromRun(s: string, i: nat, j: nat, d: string, token: string, acc: seq<string>, incl: bool)
    requires |d| == 1 && i <= j <= |s|
    requires forall m :: i <= m < j ==> s[m] != d[0]
    ensures SplitFrom(s, i, d, 0, token, acc, incl) == SplitFrom(s, j, d, 0, token + s[i..j], acc, incl)
    decreases j - i
  {
    if i == j {
      assert token + s[i..j] == token;
    } else {
      var t := token + d[..0] + [s[i]];
      assert t + s[i + 1..j] == token + s[i..j];
      SplitFromRun(s, i + 1, j, d, t, acc, incl);
    }
  }

  /** The parts split keeps: all of them with includeEmpty, otherwise the non-empty ones. */
  function Keep(parts: seq<string>, includeEmpty: bool): seq<string>
  {
    if |parts| == 0 then []
    else (if includeEmpty || parts[0] != "" then [parts[0]] else []) + Keep(parts[1..], includeEmpty)
  }

  lemma {:induction false} JoinCons(a: string, rest: seq<string>, d: string)
    requires |rest| > 0
    ensures Join([a] + rest, d) == a + d + Join(rest, d)
    decreases |rest|
  {
    var xs := [a] + rest;
    if |rest| == 1 {
      assert xs[..1] == [a];
    } else {
      assert xs[..|xs| - 1] == [a] + rest[..|rest| - 1];
      JoinCons(a, rest[..|rest| - 1], d);
    }
  }

  lemma SplitFromLastPart(s: string, i: nat, c: char, p0: string, acc: seq<string>, incl: bool)
    requires i <= |s| && s[i..] == p0
    requires forall j :: 0 <= j < |p0| ==> p0[j] != c
    ensures SplitFrom(s, i, [c], 0, "", acc, incl) == acc + (if incl || p0 != "" then [p0] else [])
  {
    var d := [c];
    forall m | i <= m < |s| ensures s[m] != d[0] { assert s[m] == p0[m - i]; }
    SplitFromRun(s, i, |s|, d, "", acc, incl);
    assert "" + s[i..|s|] + d[..0] == p0;
  }

  lemma SplitFromFirstPart(s: string, i: nat, c: char, p0: string, acc: seq<string>, incl: bool)
    requires i + |p0| < |s| && s[i..i + |p0|] == p0 && s[i + |p0|] == c
    requires forall j :: 0 <= j < |p0| ==> p0[j] != c
    ensures SplitFrom(s, i, [c], 0, "", acc, incl) ==
            SplitFrom(s, i + |p0| + 1, [c], 0, "", if incl || p0 != "" then acc + [p0] else acc, incl)
  {
    var d := [c];
    var e := i + |p0|;
    forall m | i <= m < e ensures s[m] != d[0] { assert s[m] == p0[m - i]; }
    SplitFromRun(s, i, e, d, "", acc, incl);
    assert "" + s[i..e] == p0;
  }

  /** No part contains c. */
  predicate FreeOf(parts: seq<string>, c: char)
  {
    forall k, j :: 0 <= k < |parts| && 0 <= j < |parts[k]| ==> parts[k][j] != c
  }

  lemma {:induction false} SplitFromJoined(s: string, i: nat, c: char, parts: seq<string>, acc: seq<string>, incl: bool)
    requires |parts| > 0 && i <= |s| && s[i..] == Join(parts, [c]) && FreeOf(parts, c)
    ensures SplitFrom(s, i, [c], 0, "", acc, incl) == acc + Keep(parts, incl)
    decreases |parts|
  {
    var p0 := parts[0];
    var head := if incl || p0 != "" then [p0] else [];
    assert Keep(parts, incl) == head + Keep(parts[1..], incl);
    if |parts| == 1 {
      SplitFromLastPart(s, i, c, p0, acc, incl);
    } else {
      var rest := parts[1..];
      SplitFromJoinedStep(s, i, c, parts, acc, incl);
      assert FreeOf(rest, c) by {
        forall k, j | 0 <= k < |rest| && 0 <= j < |rest[k]| ensures rest[k][j] != c {
          assert rest[k] == parts[k + 1];
        }
      }
      SplitFromJoined(s, i + |p0| + 1, c, rest, acc + head, incl);
      assert (acc + head) + Keep(rest, incl) == acc + (head + Keep(rest, incl));
    }
  }

  lemma SplitFromJoinedStep(s: string, i: nat, c: char, parts: seq<string>, acc: seq<string>, incl: bool)
    requires |parts| > 1 && i <= |s| && s[i..] == Join(parts, [c]) && FreeOf(parts, c)
    ensures i + |parts[0]| < |s| && s[i + |parts[0]| + 1..] == Join(parts[1..], [c])
    ensures SplitFrom(s, i, [c], 0, "", acc, incl) ==
            SplitFrom(s, i + |parts[0]| + 1, [c], 0, "", acc + (if incl || parts[0] != "" then [parts[0]] else []), incl)
  {
    var p0, rest := parts[0], parts[1..];
    assert parts == [p0] + rest;
    JoinCons(p0, rest, [c]);
    var e := i + |p0|;
    assert s[i..] == p0 + [c] + Join(rest, [c]);
    assert s[i..e] == p0 && s[e] == c && s[e + 1..] == Join(rest, [c]);
    assert forall j :: 0 <= j < |p0| ==> p0[j] != c;
    SplitFromFirstPart(s, i, c, p0, acc, incl);
    if incl || p0 != "" {
      assert acc + [p0] == acc + (if incl || parts[0] != "" then [parts[0]] else []);
    } else {
      assert acc == acc + [];
    }
  }

  /**
   * Splitting on one character undoes joining with it, for parts that do not
   * contain it: all parts come back with includeEmpty, the non-empty ones without.
   */
  lemma SplitJoinSingleChar(parts: seq<string>, c: char, incl: bool)
    requires |parts| > 0 && FreeOf(parts, c)
    ensures SplitSpec(Join(parts, [c]), [c], incl) == Keep(parts, incl)
  {
    var s := Join(parts, [c]);
    assert s[0..] == s;
    SplitFromJoined(s, 0, c, parts, [], incl);
    assert [] + Keep(parts, incl) == Keep(parts, incl);
  }

  /** Splitting on one character never seen in three non-empty texts recovers the three texts. */
  lemma SplitThree(a: string, b: string, c: string, ch: char)
    requires |a| > 0 && |b| > 0 && |c| > 0
    requires forall j :: 0 <= j < |a| ==> a[j] != ch
    requires forall j :: 0 <= j < |b| ==> b[j] != ch
    requires forall j :: 0 <= j < |c| ==> c[j] != ch
    ensures SplitSpec(a + [ch] + b + [ch] + c, [ch], false) == [a, b, c]
  {
    var parts := [a, b, c];
    assert parts[..2][..1] == [a] && parts[..2] == [a, b];
    assert Join([a], [ch]) == a;
    assert Join([a, b], [ch]) == a + [ch] + b;
    assert Join(parts, [ch]) == Join([a, b], [ch]) + [ch] + c;
    assert Join(parts, [ch]) == a + [ch] + b + [ch] + c;
    SplitJoinSingleChar(parts, ch, false);
    assert Keep(parts, false) == [a] + Keep([b, c], false);
    assert Keep([b, c], false) == [b] + Keep([c], false);
    assert Keep([c], false) == [c] + Keep([], false);
  }

  // ---------------------------------------------------------------------------
  // replace
  // ---------------------------------------------------------------------------

  function Replace(s: string, search: string, replacement: string): string
  {
    Join(SplitSpec(s, search, true), replacement)
  }

  /** Replacing a delimiter by itself changes nothing. */
  lemma ReplaceBySelf(s: string, x: string)
    requires |x| > 0
    ensures Replace(s, x, x) == s
  {
    JoinSplitRoundTrip(s, x);
  }

  lemma {:induction false} SplitFromNoMatch(s: string, i: nat, d: string, token: string, parts: seq<string>)
    requires i <= |s| && 0 < |d|
    requires forall j :: i <= j < |s| ==> s[j] != d[0]
    ensures SplitFrom(s, i, d, 0, token, parts, true) == parts + [token + s[i..]]
    decreases |s| - i
  {
    assert d[..0] == "";
    if i < |s| {
      assert token + s[i..] == (token + d[..0] + [s[i]]) + s[i + 1..];
      SplitFromNoMatch(s, i + 1, d, token + d[..0] + [s[i]], parts);
    } else {
      assert s[i..] == "";
      assert token + d[..0] == token + s[i..];
    }
  }

  lemma {:induction false} SplitFromOneMatch(p: string, d: string, q: string, i: nat, token: string)
    requires 0 < |d| && i <= |p|
    requires forall j :: 0 <= j < |p| ==> p[j] != d[0]
    requires forall j :: 0 <= j < |q| ==> q[j] != d[0]
    ensures SplitFrom(p + d + q, i, d, 0, token, [], true) == [token + p[i..], q]
    decreases |p| - i
  {
    var s := p + d + q;
    if i < |p| {
      assert s[i] == p[i];
      var t := token + d[..0] + [s[i]];
      assert token + p[i..] == t + p[i + 1..];
      SplitFromOneMatch(p, d, q, i + 1, t);
    } else {
      assert p[i..] == "";
      assert token + p[i..] == token;
      SplitAfterPrefix(p, d, q, token);
    }
  }

  lemma SplitAfterPrefix(p: string, d: string, q: string, token: string)
    requires 0 < |d|
    requires forall j :: 0 <= j < |q| ==> q[j] != d[0]
    ensures SplitFrom(p + d + q, |p|, d, 0, token, [], true) == [token, q]
  {
    var s := p + d + q;
    var m := |p| + |d|;
    assert s[|p|..m] == d;
    assert s[m..] == q;
    SplitAfterMatch(s, |p|, d, token);
  }

  lemma SplitAfterMatch(s: string, start: nat, d: string, token: string)
    requires 0 < |d| && start + |d| <= |s| && s[start..start + |d|] == d
    requires forall j :: start + |d| <= j < |s| ==> s[j] != d[0]
    ensures SplitFrom(s, start, d, 0, token, [], true) == [token, s[start + |d|..]]
  {
    MatchWholeDelimiter(s, start, d, 0, token);
    SplitFromNoMatch(s, start + |d|, d, "", [token]);
    assert "" + s[start + |d|..] == s[start + |d|..];
  }

  lemma {:induction false} MatchWholeDelimiter(s: string, start: nat, d: string, k: nat, token: string)
    requires 0 < |d| && k < |d| && start + |d| <= |s| && s[start..start + |d|] == d
    ensures SplitFrom(s, start + k, d, k, token, [], true) == SplitFrom(s, start + |d|, d, 0, "", [token], true)
    decreases |d| - k
  {
    assert s[start + k] == s[start..start + |d|][k] == d[k];
    if k + 1 < |d| {
      MatchWholeDelimiter(s, start, d, k + 1, token);
    } else {
      assert [] + [token] == [token];
    }
  }

  /**
   * Replace on a string holding exactly one delimiter occurrence, surrounded by
   * text that never starts a match, substitutes that one occurrence.
   */
  lemma ReplaceSingle(p: string, d: string, q: string, r: string)
    requires 0 < |d|
    requires forall j :: 0 <= j < |p| ==> p[j] != d[0]
    requires forall j :: 0 <= j < |q| ==> q[j] != d[0]
    ensures Replace(p + d + q, d, r) == p + r + q
  {
    SplitFromOneMatch(p, d, q, 0, "");
    assert "" + p[0..] == p;
    assert SplitSpec(p + d + q, d, true) == [p] + [q];
    JoinSnoc([p], q, r);
  }

  /** Replace on a string where the search string never starts a match changes nothing. */
  lemma ReplaceAbsent(s: string, d: string, r: string)
    requires 0 < |d|
    requires forall j :: 0 <= j < |s| ==> s[j] != d[0]
    ensures Replace(s, d, r) == s
  {
    SplitFromNoMatch(s, 0, d, "", []);
    assert "" + s[0..] == s;
  }

  // ---------------------------------------------------------------------------
  // match: the length of the longest common prefix
  // ---------------------------------------------------------------------------

  method Match(a: string, b: string) returns (n: nat)
    ensures n <= |a| && n <= |b|
    ensures a[..n] == b[..n]
    ensures n == |a| || n == |b| || a[n] != b[n]
  {
    n := 0;
    var i := 0;
    while i < |a|
      invariant 0 <= i <= |a| && n == i && i <= |b|
      invariant a[..i] == b[..i]
    {
      if i < |b| {
        if a[i] == b[i] {
          n := n + 1;
        } else {
          break;
        }
      } else {
        break;
      }
      assert a[..i + 1] == a[..i] + [a[i]];
      assert b[..i + 1] == b[..i] + [b[i]];
      i := i + 1;
    }
  }

  // ---------------------------------------------------------------------------
  // trimFront, trimBack, subString, stringContains
  // ---------------------------------------------------------------------------

  function TrimFrontSpec(s: string, prefix: string, trimAllIfNotFound: bool): (r: string)
  {
    if |prefix| == 0 then s
    else match FirstMatch(s, prefix)
      case Some(e) => s[e..]
      case None => if trimAllIfNotFound then "" else s
  }

  function TrimBackSpec(s: string, suffix: string): (r: string)
  {
    if |suffix| == 0 then s
    else match FirstMatch(s, suffix)
      // e >= |suffix| (FirstMatchSound), so e > |suffix| is the source's trimIndex != 0
      case Some(e) => if e > |suffix| then s[..e - |suffix|] else s
      case None => s
  }

  /**
   * trimFront keeps what follows the first recognised occurrence of prefix (so
   * the cut-off part ends with prefix); otherwise it keeps s, or "" on request.
   */
  lemma TrimFrontMeaning(s: string, prefix: string, trimAll: bool)
    ensures var r := TrimFrontSpec(s, prefix, trimAll);
            |r| <= |s| && s[|s| - |r|..] == r &&
            (r != s && r != "" ==> |prefix| > 0 && |prefix| <= |s| - |r| && s[|s| - |r| - |prefix|..|s| - |r|] == prefix)
    ensures |prefix| > 0 && FirstMatch(s, prefix).None? ==> TrimFrontSpec(s, prefix, trimAll) == (if trimAll then "" else s)
  {
    if |prefix| > 0 {
      FirstMatchSound(s, prefix);
      if FirstMatch(s, prefix).Some? {
        var e := FirstMatch(s, prefix).value;
        assert |s| - |s[e..]| == e;
      }
    }
  }

  /**
   * trimBack cuts s at the start of the first recognised occurrence of suffix,
   * unless that occurrence starts at 0; the cut-off part starts with suffix.
   */
  lemma TrimBackMeaning(s: string, suffix: string)
    ensures var r := TrimBackSpec(s, suffix);
            |r| <= |s| && s[..|r|] == r &&
            (r != s ==> 0 < |r| && |r| + |suffix| <= |s| && s[|r|..|r| + |suffix|] == suffix)
  {
    if |suffix| > 0 {
      FirstMatchSound(s, suffix);
    }
  }

  method TrimFront(s: string, prefix: string, trimAllIfNotFound: bool) returns (r: string)
    ensures r == TrimFrontSpec(s, prefix, trimAllIfNotFound)
  {
    if |prefix| == 0 {
      return s;
    }
    var matchIndex := 0;
    var trimIndex := 0;
    var i := 0;
    while i < |s|
      invariant 0 <= i <= |s| && matchIndex < |prefix|
      invariant FirstMatch(s, prefix) == if trimIndex == 0 then FirstMatchFrom(s, i, prefix, matchIndex) else Some(trimIndex)
    {
      var c := s[i];
      if c == prefix[matchIndex] {
        matchIndex := matchIndex + 1;
        if matchIndex == |prefix| {
          matchIndex := 0;
          trimIndex := i + 1;
          break;
        }
      } else {
        matchIndex := 0;
      }
      i := i + 1;
    }
    if trimIndex != 0 {
      r := s[trimIndex..];
    } else if trimAllIfNotFound {
      r := "";
    } else {
      r := s;
    }
  }

  method TrimBack(s: string, suffix: string) returns (r: string)
    ensures r == TrimBackSpec(s, suffix)
  {
    if |suffix| == 0 {
      return s;
    }
    FirstMatchSound(s, suffix);
    var matchIndex := 0;
    var trimIndex := 0;
    var found := false;
    var i := 0;
    while i < |s|
      invariant 0 <= i <= |s| && matchIndex < |suffix|
      invariant !found ==> trimIndex == 0
      invariant FirstMatch(s, suffix) == if !found then FirstMatchFrom(s, i, suffix, matchIndex) else Some(trimIndex + |suffix|)
    {
      var c := s[i];
      if c == suffix[matchIndex] {
        matchIndex := matchIndex + 1;
        if matchIndex == |suffix| {
          matchIndex := 0;
          trimIndex := i - |suffix| + 1;
          found := true;
          break;
        }
      } else {
        matchIndex := 0;
      }
      i := i + 1;
    }
    if trimIndex != 0 {
      assert 0 < trimIndex <= |s|;
      r := s[..trimIndex];
    } else {
      r := s;
    }
  }

  function SubStringSpec(s: string, prefix: string, suffix: string): string
  {
    TrimBackSpec(TrimFrontSpec(s, prefix, true), suffix)
  }

  /** subString yields a contiguous piece of s. */
  lemma SubStringIsInfix(s: string, prefix: string, suffix: string)
    ensures var r := SubStringSpec(s, prefix, suffix);
            var a := |s| - |TrimFrontSpec(s, prefix, true)|;
            0 <= a && a + |r| <= |s| && s[a..a + |r|] == r
  {
    var t := TrimFrontSpec(s, prefix, true);
    TrimFrontMeaning(s, prefix, true);
    var r := TrimBackSpec(t, suffix);
    TrimBackMeaning(t, suffix);
    var a := |s| - |t|;
    assert s[a..a + |r|] == t[..|r|];
  }

  method SubString(s: string, prefix: string, suffix: string) returns (r: string)
    ensures r == SubStringSpec(s, prefix, suffix)
  {
    var str := TrimFront(s, prefix, true);
    r := TrimBack(str, suffix);
  }

  /** The character std::string yields at index k, including the terminating NUL at k == |s|. */
  function CharAt(s: string, k: nat): char
    requires k <= |s|
  {
    if k < |s| then s[k] else 0 as char
  }

  /**
   * stringContains. With an empty needle the source compares against the
   * terminating NUL and would read past it after a NUL that is not the last
   * character; the requires excludes that case.
   */
  method StringContains(s: string, sub: string) returns (found: bool)
    requires |sub| > 0 || forall i :: 0 <= i < |s| - 1 ==> s[i] != 0 as char
    ensures found <==> |sub| > 0 && FirstMatch(s, sub).Some?
  {
    var matchIndex := 0;
    var i := 0;
    while i < |s|
      invariant 0 <= i <= |s|
      invariant |sub| > 0 ==> matchIndex < |sub| && FirstMatchFrom(s, i, sub, matchIndex) == FirstMatch(s, sub)
      invariant |sub| == 0 ==> matchIndex == 0 || (matchIndex == 1 && i == |s|)
    {
      var c := s[i];
      if c == CharAt(sub, matchIndex) {
        matchIndex := matchIndex + 1;
        if matchIndex == |sub| {
          return true;
        }
      } else {
        matchIndex := 0;
      }
      i := i + 1;
    }
    return false;
  }

  /** stringContains agrees with split: a match is found iff splitting yields more than one part. */
  lemma ContainsIffSplitsApart(s: string, d: string)
    requires |d| > 0
    ensures FirstMatch(s, d).Some? <==> |SplitSpec(s, d, true)| > 1
  {
    SplitCount(s, d);
    FirstMatchFromNoneIffNoMatches(s, 0, d, 0);
  }

  // ---------------------------------------------------------------------------
  // leftPadd, toLower, toUpper
  // ---------------------------------------------------------------------------

  method LeftPadd(s: string, c: char, targetLength: int) returns (r: string)
    ensures |r| == if targetLength > |s| then targetLength else |s|
    ensures r[|r| - |s|..] == s
    ensures forall i :: 0 <= i < |r| - |s| ==> r[i] == c
  {
    r := s;
    while |r| < targetLength
      invariant |s| <= |r| && (|r| > |s| ==> |r| <= targetLength)
      invariant r[|r| - |s|..] == s
      invariant forall i :: 0 <= i < |r| - |s| ==> r[i] == c
      decreases targetLength - |r|
    {
      r := [c] + r;
    }
  }

  function LowerChar(c: char): char
  {
    if 'A' <= c <= 'Z' then (c as int - 'A' as int + 'a' as int) as char else c
  }

  function UpperChar(c: char): char
  {
    if 'a' <= c <= 'z' then (c as int - 'a' as int + 'A' as int) as char else c
  }

  function ToLowerSpec(s: string): (r: string)
    ensures |r| == |s|
  {
    seq(|s|, i requires 0 <= i < |s| => LowerChar(s[i]))
  }

  function ToUpperSpec(s: string): (r: string)
    ensures |r| == |s|
  {
    seq(|s|, i requires 0 <= i < |s| => UpperChar(s[i]))
  }

  /** Lower-casing leaves no upper-case ASCII letter, is idempotent, and undoes upper-casing up to case. */
  lemma CaseMappingLaws(s: string)
    ensures forall i :: 0 <= i < |s| ==> !('A' <= ToLowerSpec(s)[i] <= 'Z')
    ensures ToLowerSpec(ToLowerSpec(s)) == ToLowerSpec(s)
    ensures ToLowerSpec(ToUpperSpec(s)) == ToLowerSpec(s)
    ensures ToUpperSpec(ToLowerSpec(s)) == ToUpperSpec(s)
  {
  }

  method ToLower(s: string) returns (r: string)
    ensures r == ToLowerSpec(s)
  {
    r := "";
    var i := 0;
    while i < |s|
      invariant 0 <= i <= |s| && r == ToLowerSpec(s[..i])
    {
      r := r + [LowerChar(s[i])];
      i := i + 1;
    }
    assert s[..i] == s;
  }

  method ToUpper(s: string) returns (r: string)
    ensures r == ToUpperSpec(s)
  {
    r := "";
    var i := 0;
    while i < |s|
      invariant 0 <= i <= |s| && r == ToUpperSpec(s[..i])
    {
      r := r + [UpperChar(s[i])];
      i := i + 1;
    }
    assert s[..i] == s;
  }

  // ---------------------------------------------------------------------------
  // hex conversion
  // ---------------------------------------------------------------------------

  const TWO32: int := 0x1_0000_0000
  const TWO64: int := 0x1_0000_0000_0000_0000

  predicate IsHexDigit(c: char)
  {
    '0' <= c <= '9' || 'a' <= c <= 'f' || 'A' <= c <= 'F'
  }

  const HexAlphabet: string := "0123456789ABCDEF"

  /** intToHexChar: the upper-case digit of the low nibble. */
  function IntToHexChar(value: nat): (c: char)
    requires value < 256
    ensures IsHexDigit(c) && !('a' <= c <= 'f')
  {
    HexAlphabet[value % 16]
  }

  /** hexCharToInt: the digit's value, 0 for every non-hex character. */
  function HexCharToInt(c: char): (v: nat)
    ensures v < 16
    ensures !IsHexDigit(c) ==> v == 0
    ensures IsHexDigit(c) ==> IntToHexChar(v) == UpperChar(c)
  {
    if '0' <= c <= '9' then c as int - '0' as int
    else if 'a' <= c <= 'f' then c as int - 'a' as int + 10
    else if 'A' <= c <= 'F' then c as int - 'A' as int + 10
    else 0
  }

  lemma HexCharRoundTrip(v: nat)
    requires v < 16
    ensures HexCharToInt(IntToHexChar(v)) == v
  {
  }

  /** The digits intToHex produces for v: most significant first, none for 0. */
  function HexDigits(v: nat): string
  {
    if v == 0 then "" else HexDigits(v / 16) + [IntToHexChar(v % 16)]
  }

  lemma {:induction false} HexDigitsShape(v: nat)
    ensures v == 0 <==> HexDigits(v) == ""
    ensures v > 0 ==> HexDigits(v)[0] != '0'
    ensures forall i :: 0 <= i < |HexDigits(v)| ==> IsHexDigit(HexDigits(v)[i]) && !('a' <= HexDigits(v)[i] <= 'f')
  {
    if v > 0 {
      HexDigitsShape(v / 16);
      if v / 16 == 0 {
        assert HexDigits(v) == [IntToHexChar(v % 16)];
      }
    }
  }

  method IntToHex(value: nat) returns (r: string)
    requires value < TWO64
    ensures r == HexDigits(value)
  {
    r := "";
    var v := value;
    while v > 0
      invariant HexDigits(value) == HexDigits(v) + r
    {
      r := [IntToHexChar(v % 16)] + r;
      v := v / 16;
    }
  }

  /** The 32-bit pattern of the int accumulator of hexToInt after reading h (shift by 4, or the nibble). */
  function HexBits(h: string): (b: nat)
    ensures b < TWO32
  {
    if |h| == 0 then 0 else (HexBits(h[..|h| - 1]) * 16 + HexCharToInt(h[|h| - 1])) % TWO32
  }

  /** The int accumulator converted to uint64_t: a negative int is sign-extended. */
  function SignExtend32To64(b: nat): nat
    requires b < TWO32
  {
    if b < TWO32 / 2 then b else b + TWO64 - TWO32
  }

  /** hexToInt as written: a 32-bit signed accumulator returned as uint64_t. */
  method HexToInt(h: string) returns (r: nat)
    ensures r == SignExtend32To64(HexBits(h))
  {
    var bits := 0;
    var i := 0;
    while i < |h|
      invariant 0 <= i <= |h| && bits == HexBits(h[..i])
    {
      assert h[..i + 1][..i] == h[..i];
      bits := (bits * 16 + HexCharToInt(h[i])) % TWO32;
      i := i + 1;
    }
    assert h[..i] == h;
    r := SignExtend32To64(bits);
  }

  lemma ModStep32(a: nat, d: nat)
    requires d < 16
    ensures ((a % TWO32) * 16 + d) % TWO32 == (a * 16 + d) % TWO32
  {
    var q := a / TWO32;
    assert a == q * TWO32 + a % TWO32;
    assert a * 16 + d == (a % TWO32) * 16 + d + (q * 16) * TWO32;
  }

  lemma {:induction false} HexBitsOfDigits(v: nat)
    ensures HexBits(HexDigits(v)) == v % TWO32
  {
    if v > 0 {
      HexBitsOfDigits(v / 16);
      var p, c := HexDigits(v / 16), IntToHexChar(v % 16);
      HexBitsSnoc(p, c);
      HexCharRoundTrip(v % 16);
      Wrap32Step(HexBits(p), HexCharToInt(c), v);
    }
  }

  lemma HexBitsSnoc(s: string, c: char)
    ensures HexBits(s + [c]) == (HexBits(s) * 16 + HexCharToInt(c)) % TWO32
  {
    assert (s + [c])[..|s|] == s;
  }

  /** One more digit, in 32 bits: from v / 16 to v. */
  lemma Wrap32Step(a: int, d: int, v: nat)
    requires a == (v / 16) % TWO32 && d == v % 16
    ensures (a * 16 + d) % TWO32 == v % TWO32
  {
    ModStep32(v / 16, v % 16);
    DigitSplit(v);
  }

  /** hexToInt(intToHex(v)) == v whenever v fits the int accumulator's positive range. */
  lemma HexRoundTrip(v: nat)
    requires v < TWO32 / 2
    ensures SignExtend32To64(HexBits(HexDigits(v))) == v
  {
    HexBitsOfDigits(v);
    ModSmall(v);
  }

  lemma ModSmall(v: nat)
    requires v < TWO32
    ensures v % TWO32 == v
  {
  }

  lemma ModSmall64(v: nat)
    requires v < TWO64
    ensures v % TWO64 == v
  {
  }

  /** For 0x80000000 the accumulator turns negative and the result is sign-extended. */
  lemma HexRoundTripFailsAt2p31()
    ensures SignExtend32To64(HexBits(HexDigits(TWO32 / 2))) == TWO64 - TWO32 / 2
  {
    var v := TWO32 / 2;
    HexBitsOfDigits(v);
    ModSmall(v);
    assert HexBits(HexDigits(v)) == v;
  }

  /** The evidently intended hexToInt: a uint64_t accumulator, as wide as the return type. */
  function HexToInt64(h: string): (r: nat)
    ensures r < TWO64
  {
    if |h| == 0 then 0 else (HexToInt64(h[..|h| - 1]) * 16 + HexCharToInt(h[|h| - 1])) % TWO64
  }

  /** With the wide accumulator the round trip holds for every uint64_t value. */
  lemma {:induction false} HexRoundTrip64(v: nat)
    requires v < TWO64
    ensures HexToInt64(HexDigits(v)) == v
  {
    if v > 0 {
      HexRoundTrip64(v / 16);
      var p, c := HexDigits(v / 16), IntToHexChar(v % 16);
      HexToInt64Snoc(p, c);
      HexCharRoundTrip(v % 16);
      Wrap64Step(HexToInt64(p), HexCharToInt(c), v);
    }
  }

  lemma HexToInt64Snoc(s: string, c: char)
    ensures HexToInt64(s + [c]) == (HexToInt64(s) * 16 + HexCharToInt(c)) % TWO64
  {
    assert (s + [c])[..|s|] == s;
  }

  /** One more digit: from v / 16 to v. */
  lemma Wrap64Step(a: int, d: int, v: nat)
    requires v < TWO64 && a == v / 16 && d == v % 16
    ensures (a * 16 + d) % TWO64 == v
  {
    DigitSplit(v);
    ModSmall64(v);
  }

  lemma DigitSplit(v: nat)
    ensures (v / 16) * 16 + v % 16 == v
  {
  }

  // ---------------------------------------------------------------------------
  // isNumber
  // ---------------------------------------------------------------------------

  function CountChar(s: string, c: char): nat
  {
    if |s| == 0 then 0 else CountChar(s[..|s| - 1], c) + (if s[|s| - 1] == c then 1 else 0)
  }

  predicate IsDigit(c: char) { '0' <= c <= '9' }

  /**
   * isNumber: every character is a digit, a '.', or a '-' at index 0, and at
   * most one '.' occurs. The empty string and "-" are numbers.
   */
  method IsNumber(s: string) returns (b: bool)
    ensures b <==> CountChar(s, '.') <= 1 &&
                   forall i :: 0 <= i < |s| ==> IsDigit(s[i]) || s[i] == '.' || (s[i] == '-' && i == 0)
  {
    var foundDot := false;
    var i := 0;
    while i < |s|
      invariant 0 <= i <= |s|
      invariant foundDot <==> CountChar(s[..i], '.') == 1
      invariant CountChar(s[..i], '.') <= 1
      invariant forall j :: 0 <= j < i ==> IsDigit(s[j]) || s[j] == '.' || (s[j] == '-' && j == 0)
    {
      var c := s[i];
      assert s[..i + 1][..i] == s[..i];
      if c < '0' || c > '9' {
        if c == '.' && !foundDot {
          foundDot := true;
          i := i + 1;
          continue;
        }
        if c == '-' && i == 0 {
          i := i + 1;
          continue;
        }
        CountCharPrefix(s, i + 1, '.');
        return false;
      }
      i := i + 1;
    }
    assert s[..i] == s;
    return true;
  }

  lemma {:induction false} CountCharPrefix(s: string, n: nat, c: char)
    requires n <= |s|
    ensures CountChar(s[..n], c) <= CountChar(s, c)
    decreases |s| - n
  {
    if n < |s| {
      CountCharPrefix(s, n + 1, c);
      assert s[..n + 1][..n] == s[..n];
    } else {
      assert s[..n] == s;
    }
  }

  // ---------------------------------------------------------------------------
  // std::to_string and std::stoi, as far as toInt and DateTime use them
  // ---------------------------------------------------------------------------

  function DigitChar(d: nat): char
    requires d < 10
  {
    (d + '0' as int) as char
  }

  /** std::to_string of a non-negative int: decimal digits without leading zeros. */
  function NatDecimal(n: nat): (r: string)
    ensures |r| > 0
  {
    if n < 10 then [DigitChar(n)] else NatDecimal(n / 10) + [DigitChar(n % 10)]
  }

  /** std::to_string of an int. */
  function Decimal(n: int): string
  {
    if n < 0 then "-" + NatDecimal(-n) else NatDecimal(n)
  }

  predicate IsSpace(c: char)
  {
    c == ' ' || c == '\t' || c == '\n' || c == 11 as char || c == 12 as char || c == '\r'
  }

  function SkipSpace(s: string, i: nat): (j: nat)
    requires i <= |s|
    ensures i <= j <= |s|
    decreases |s| - i
  {
    if i < |s| && IsSpace(s[i]) then SkipSpace(s, i + 1) else i
  }

  /** The length of the run of decimal digits starting at i. */
  function DigitRun(s: string, i: nat): (n: nat)
    requires i <= |s|
    ensures i + n <= |s|
    decreases |s| - i
  {
    if i < |s| && IsDigit(s[i]) then 1 + DigitRun(s, i + 1) else 0
  }

  function DigitsValue(ds: string): nat
  {
    if |ds| == 0 then 0
    else DigitsValue(ds[..|ds| - 1]) * 10 + (if IsDigit(ds[|ds| - 1]) then ds[|ds| - 1] as int - '0' as int else 0)
  }

  const INT_MIN: int := -0x8000_0000
  const INT_MAX: int := 0x7FFF_FFFF

  /**
   * std::stoi: leading white space, an optional sign, then at least one digit;
   * trailing text is ignored. No digits or a value outside int throws (None).
   */
  function ParseIntPrefix(s: string): (r: Option<int>)
    ensures r.Some? ==> INT_MIN <= r.value <= INT_MAX
  {
    var j := SkipSpace(s, 0);
    var neg := j < |s| && s[j] == '-';
    var k := if j < |s| && (s[j] == '-' || s[j] == '+') then j + 1 else j;
    var n := DigitRun(s, k);
    if n == 0 then None
    else
      var v := DigitsValue(s[k..k + n]);
      var signed: int := if neg then -(v as int) else v;
      if INT_MIN <= signed <= INT_MAX then Some(signed) else None
  }

  /** toInt: the parsed value, or the default when std::stoi throws. */
  function ToInt(s: string, defaultValue: int): int
  {
    ParseIntPrefix(s).GetOr(defaultValue)
  }

  lemma {:induction false} NatDecimalDigits(n: nat)
    ensures forall i :: 0 <= i < |NatDecimal(n)| ==> IsDigit(NatDecimal(n)[i])
    ensures DigitsValue(NatDecimal(n)) == n
  {
    if n >= 10 {
      NatDecimalDigits(n / 10);
      var r := NatDecimal(n);
      assert r[..|r| - 1] == NatDecimal(n / 10);
    }
  }

  lemma {:induction false} DigitRunAll(s: string, i: nat)
    requires i <= |s|
    requires forall j :: i <= j < |s| ==> IsDigit(s[j])
    ensures DigitRun(s, i) == |s| - i
    decreases |s| - i
  {
    if i < |s| {
      DigitRunAll(s, i + 1);
    }
  }

  lemma {:induction false} DigitsValueLeadingZero(ds: string)
    ensures DigitsValue("0" + ds) == DigitsValue(ds)
    decreases |ds|
  {
    if |ds| > 0 {
      var t := "0" + ds;
      assert t[..|t| - 1] == "0" + ds[..|ds| - 1];
      DigitsValueLeadingZero(ds[..|ds| - 1]);
    } else {
      assert DigitsValue("0") == DigitsValue("") * 10 + 0;
    }
  }

  lemma ParseAllDigits(s: string)
    requires 0 < |s| && DigitsValue(s) <= INT_MAX
    requires forall j :: 0 <= j < |s| ==> IsDigit(s[j])
    ensures ParseIntPrefix(s) == Some(DigitsValue(s))
  {
    assert !IsSpace(s[0]);
    assert SkipSpace(s, 0) == 0;
    DigitRunAll(s, 0);
    assert s[0..|s|] == s;
  }

  /** toInt reads back what to_string writes. */
  lemma ParseDecimal(n: nat)
    requires n <= INT_MAX
    ensures ParseIntPrefix(NatDecimal(n)) == Some(n)
  {
    NatDecimalDigits(n);
    ParseAllDigits(NatDecimal(n));
  }

  /** ... also behind one leading zero, as a two-digit field renders a small number. */
  lemma ParseZeroPaddedDecimal(n: nat)
    requires n <= INT_MAX
    ensures ParseIntPrefix("0" + NatDecimal(n)) == Some(n)
  {
    NatDecimalDigits(n);
    DigitsValueLeadingZero(NatDecimal(n));
    var s := "0" + NatDecimal(n);
    assert forall j :: 0 < j < |s| ==> s[j] == NatDecimal(n)[j - 1];
    ParseAllDigits(s);
  }
}
