/**
 * The English engine's category patterns and what they match.
 *
 * `build_patterns` turns a category's phrase list into the regular expression
 * `\b(a1|a2|...)\b` (case-insensitive), where the alternatives are the distinct
 * phrases, lower-cased and ordered longest first. Because every alternative is an
 * escaped literal, matching needs only three ingredients, all modelled here:
 *   - the word boundary `\b` over the word characters of `Text.IsWordChar`;
 *   - ordered alternation: at a start position the FIRST alternative, in list order,
 *     that is present and followed by a boundary is taken;
 *   - `finditer`: scan left to right, report a match and resume at its end, or move
 *     one position on when nothing matches.
 * The text that is scanned is already lower case, so the case-insensitive flag
 * changes nothing for ASCII letters and is not modelled separately. Its Unicode case
 * folding (`ſ` matching `s`, `ı` matching `i`) is not modelled.
 */
module Patterns {
  import opened Text
  import opened Wrappers
  import opened Taxonomy

  /** One compiled pattern: the category it belongs to and its alternatives in the order
      the regular expression tries them. */
  datatype Pattern = Pattern(category: string, alternatives: seq<string>)

  /** A match: the half-open span `[start, end)` of the scanned text. */
  datatype Span = Span(start: nat, end: nat)

  // ---------------------------------------------------------------------------
  // Building the alternatives

  predicate Distinct(xs: seq<string>) {
    forall i, j :: 0 <= i < j < |xs| ==> xs[i] != xs[j]
  }

  /** `set(phrases)`: every phrase once, here in order of first occurrence. */
  function Dedup(xs: seq<string>): (r: seq<string>)
    ensures forall x :: x in r <==> x in xs
    ensures Distinct(r)
    ensures |r| <= |xs|
  {
    if xs == [] then []
    else
      var d := Dedup(xs[..|xs| - 1]);
      assert forall x :: x in xs <==> x in xs[..|xs| - 1] || x == xs[|xs| - 1];
      if xs[|xs| - 1] in d then d else d + [xs[|xs| - 1]]
  }

  /** Longest first: lengths never increase along the list. */
  predicate LongestFirst(xs: seq<string>) {
    forall i, j :: 0 <= i < j < |xs| ==> |xs[i]| >= |xs[j]|
  }

  /** Puts `x` in front of the first strictly shorter element of a longest-first list. */
  function Insert(x: string, xs: seq<string>): (r: seq<string>)
    requires LongestFirst(xs)
    ensures LongestFirst(r)
    ensures multiset(r) == multiset(xs) + multiset{x}
  {
    if xs == [] || |xs[0]| < |x| then
      LongestFirstCons(x, xs);
      [x] + xs
    else
      assert LongestFirst(xs[1..]) by {
        assert forall j :: 0 <= j < |xs[1..]| ==> xs[1..][j] == xs[j + 1];
      }
      var tail := Insert(x, xs[1..]);
      assert xs == [xs[0]] + xs[1..];
      assert tail != [] ==> |tail[0]| <= |xs[0]| by {
        if tail != [] {
          assert tail[0] in multiset(tail);
          assert tail[0] == x || tail[0] in multiset(xs[1..]);
        }
      }
      LongestFirstCons(xs[0], tail);
      [xs[0]] + tail
  }

  /** An element at least as long as the head of a longest-first list can go in front. */
  lemma LongestFirstCons(y: string, ys: seq<string>)
    requires LongestFirst(ys) && (ys == [] || |ys[0]| <= |y|)
    ensures LongestFirst([y] + ys)
  {
    var r := [y] + ys;
    forall i, j | 0 <= i < j < |r| ensures |r[i]| >= |r[j]| {
      if i == 0 {
        assert r[j] == ys[j - 1];
        assert |ys[0]| >= |ys[j - 1]|;
      } else {
        assert r[i] == ys[i - 1] && r[j] == ys[j - 1];
      }
    }
  }

  /** `sorted(xs, key=lambda x: -len(x))`: a longest-first permutation of `xs`. */
  function SortLongestFirst(xs: seq<string>): (r: seq<string>)
    ensures LongestFirst(r)
    ensures multiset(r) == multiset(xs)
  {
    if xs == [] then []
    else
      assert xs == [xs[0]] + xs[1..];
      Insert(xs[0], SortLongestFirst(xs[1..]))
  }

  /** Lower-cases every element. */
  function LowerAll(xs: seq<string>): (r: seq<string>)
    ensures |r| == |xs|
    ensures forall i :: 0 <= i < |xs| ==> r[i] == Lower(xs[i])
  {
    seq(|xs|, i requires 0 <= i < |xs| => Lower(xs[i]))
  }

  lemma LowerAllMembers(xs: seq<string>)
    ensures forall a :: a in LowerAll(xs) <==> exists p :: p in xs && a == Lower(p)
  {
    var r := LowerAll(xs);
    forall a | a in r ensures exists p :: p in xs && a == Lower(p) {
      var i :| 0 <= i < |r| && r[i] == a;
      assert xs[i] in xs;
    }
    forall p | p in xs ensures Lower(p) in r {
      var i :| 0 <= i < |xs| && xs[i] == p;
      assert r[i] == Lower(p);
    }
  }

  /** The alternatives of one category's pattern: its distinct phrases, longest first,
      each lower-cased. */
  function Alternatives(phrases: seq<string>): (r: seq<string>)
    ensures LongestFirst(r)
    ensures forall a :: a in r <==> exists p :: p in phrases && a == Lower(p)
    ensures |r| <= |phrases|
  {
    var sorted := SortLongestFirst(Dedup(phrases));
    assert forall y :: y in sorted <==> y in multiset(Dedup(phrases));
    assert |sorted| == |multiset(sorted)| == |multiset(Dedup(phrases))| == |Dedup(phrases)|;
    LowerAllMembers(sorted);
    LowerAll(sorted)
  }

  /** `patterns[cat]` for one entry of the keyword dictionary. */
  function Compile(cat: Category): Pattern {
    Pattern(cat.id, Alternatives(cat.phrases))
  }

  /** `ps` holds, position by position, the compiled pattern of each category. */
  predicate CompiledFrom(ps: seq<Pattern>, cats: seq<Category>) {
    |ps| == |cats| && forall i :: 0 <= i < |cats| ==> ps[i] == Compile(cats[i])
  }

  /** `build_patterns`: one pattern per category, in dictionary order, each keyed by
      its category and holding that category's distinct lower-cased phrases, longest first. */
  method BuildPatterns(cats: seq<Category>) returns (ps: seq<Pattern>)
    ensures CompiledFrom(ps, cats)
    ensures forall i :: 0 <= i < |ps| ==> ps[i].category == cats[i].id
    ensures forall i :: 0 <= i < |ps| ==> LongestFirst(ps[i].alternatives)
    ensures forall i, a :: 0 <= i < |ps| ==>
              (a in ps[i].alternatives <==> exists p :: p in cats[i].phrases && a == Lower(p))
  {
    ps := [];
    for i := 0 to |cats|
      invariant ps == CompileAll(cats[..i])
    {
      ps := ps + [Compile(cats[i])];
      assert cats[..i + 1][..i] == cats[..i];
    }
    assert cats[..|cats|] == cats;
    CompileAllCompiles(cats);
    CompiledProperties(ps, cats);
  }

  /** The patterns of `cats`, compiled one category at a time. */
  function CompileAll(cats: seq<Category>): seq<Pattern>
    decreases |cats|
  {
    if cats == [] then [] else CompileAll(cats[..|cats| - 1]) + [Compile(cats[|cats| - 1])]
  }

  lemma {:induction false} CompileAllCompiles(cats: seq<Category>)
    ensures CompiledFrom(CompileAll(cats), cats)
    decreases |cats|
  {
    if cats != [] {
      var n := |cats| - 1;
      CompileAllCompiles(cats[..n]);
      CompiledSnoc(CompileAll(cats[..n]), cats[..n], cats[n]);
      assert cats[..n] + [cats[n]] == cats;
    }
  }

  /** Compiling one more category extends the compiled patterns by its pattern. */
  lemma CompiledSnoc(ps: seq<Pattern>, cats: seq<Category>, cat: Category)
    requires CompiledFrom(ps, cats)
    ensures CompiledFrom(ps + [Compile(cat)], cats + [cat])
  {
  }

  /** What the compiled patterns say about the categories they come from. */
  lemma CompiledProperties(ps: seq<Pattern>, cats: seq<Category>)
    requires CompiledFrom(ps, cats)
    ensures forall i :: 0 <= i < |ps| ==> ps[i].category == cats[i].id
    ensures forall i :: 0 <= i < |ps| ==> LongestFirst(ps[i].alternatives)
    ensures forall i, a :: 0 <= i < |ps| ==>
              (a in ps[i].alternatives <==> exists p :: p in cats[i].phrases && a == Lower(p))
  {
    forall i | 0 <= i < |ps|
      ensures LongestFirst(ps[i].alternatives)
      ensures forall a :: a in ps[i].alternatives <==> exists p :: p in cats[i].phrases && a == Lower(p)
    {
      assert ps[i].alternatives == Alternatives(cats[i].phrases);
    }
  }

  // ---------------------------------------------------------------------------
  // Matching

  /** `\b` at index `k` of `t`: exactly one of the two neighbouring characters is a
      word character (a missing neighbour at either edge is not one). */
  predicate Boundary(t: string, k: nat)
    requires k <= |t|
  {
    (k > 0 && IsWordChar(t[k - 1])) != (k < |t| && IsWordChar(t[k]))
  }

  /** The alternative `a` is present at `i` with a word boundary on both sides. */
  predicate BoundedAt(t: string, a: string, i: nat) {
    && i + |a| <= |t|
    && Boundary(t, i)
    && t[i..i + |a|] == a
    && Boundary(t, i + |a|)
  }

  /** The index of the first alternative, from `k` on, that is present at `i` with a
      boundary on both sides; `|alts|` when there is none. */
  function FirstBounded(t: string, alts: seq<string>, i: nat, k: nat): (j: nat)
    requires k <= |alts|
    ensures k <= j <= |alts|
    ensures j < |alts| ==> BoundedAt(t, alts[j], i)
    ensures forall m :: k <= m < j ==> !BoundedAt(t, alts[m], i)
    decreases |alts| - k
  {
    if k == |alts| then k
    else if BoundedAt(t, alts[k], i) then k
    else FirstBounded(t, alts, i, k + 1)
  }

  /** The end of the match of `\b(alts)\b` that starts at `i`, if any: alternation
      commits to the first alternative, in list order, that is followed by a boundary. */
  function MatchAt(t: string, alts: seq<string>, i: nat): Option<nat> {
    var j := FirstBounded(t, alts, i, 0);
    if j < |alts| then Some(i + |alts[j]|) else None
  }

  /** A match exists at `i` exactly when some alternative is present there with a
      boundary on both sides, and it then ends where one of them ends. */
  lemma MatchAtSpec(t: string, alts: seq<string>, i: nat)
    ensures MatchAt(t, alts, i).None? <==> forall a :: a in alts ==> !BoundedAt(t, a, i)
    ensures MatchAt(t, alts, i).Some? ==>
              exists a :: a in alts && BoundedAt(t, a, i) && MatchAt(t, alts, i).value == i + |a|
  {
    var j := FirstBounded(t, alts, i, 0);
    if j < |alts| {
      assert alts[j] in alts;
    }
  }

  /** Every alternative is non-empty, so a match always moves the scan forward. */
  predicate NonEmpty(alts: seq<string>) {
    forall a :: a in alts ==> a != []
  }

  lemma MatchAtBounds(t: string, alts: seq<string>, i: nat)
    requires NonEmpty(alts) && MatchAt(t, alts, i).Some?
    ensures i < MatchAt(t, alts, i).value <= |t|
  {
    var j := FirstBounded(t, alts, i, 0);
    assert alts[j] in alts;
  }

  /** `pattern.finditer(t)` started at `from`: the matches, left to right, the scan
      resuming at the end of each match and moving one position on where none starts. */
  function Matches(t: string, alts: seq<string>, from: nat): (r: seq<Span>)
    requires NonEmpty(alts)
    ensures forall k :: 0 <= k < |r| ==> from <= r[k].start < r[k].end <= |t|
    ensures forall k :: 0 <= k < |r| - 1 ==> r[k].end <= r[k + 1].start
    decreases |t| - from
  {
    if from >= |t| then []
    else
      match MatchAt(t, alts, from)
      case None => Matches(t, alts, from + 1)
      case Some(e) =>
        MatchAtBounds(t, alts, from);
        [Span(from, e)] + Matches(t, alts, e)
  }

  /** Every reported span is a match of the pattern at its start. */
  lemma {:induction false} MatchesAreMatches(t: string, alts: seq<string>, from: nat)
    requires NonEmpty(alts)
    ensures forall k :: 0 <= k < |Matches(t, alts, from)| ==>
              MatchAt(t, alts, Matches(t, alts, from)[k].start) == Some(Matches(t, alts, from)[k].end)
    decreases |t| - from
  {
    if from < |t| {
      var m := MatchAt(t, alts, from);
      if m.None? {
        MatchesAreMatches(t, alts, from + 1);
      } else {
        MatchAtBounds(t, alts, from);
        MatchesAreMatches(t, alts, m.value);
        var r := Matches(t, alts, from);
        var rest := Matches(t, alts, m.value);
        assert r == [Span(from, m.value)] + rest;
        assert forall k :: 1 <= k < |r| ==> r[k] == rest[k - 1];
      }
    }
  }

  /** Reported matches never overlap and come in text order. */
  lemma {:induction false} MatchesOrdered(t: string, alts: seq<string>, from: nat)
    requires NonEmpty(alts)
    ensures forall k, m :: 0 <= k < m < |Matches(t, alts, from)| ==>
              Matches(t, alts, from)[k].end <= Matches(t, alts, from)[m].start
    decreases |t| - from
  {
    if from < |t| {
      match MatchAt(t, alts, from)
      case None => MatchesOrdered(t, alts, from + 1);
      case Some(e) =>
        MatchAtBounds(t, alts, from);
        MatchesOrdered(t, alts, e);
        var r := Matches(t, alts, from);
        var rest := Matches(t, alts, e);
        assert forall k :: 1 <= k < |r| ==> r[k] == rest[k - 1];
    }
  }

  /** Position `i` lies in one of the spans. */
  predicate Covered(spans: seq<Span>, i: nat) {
    exists k :: 0 <= k < |spans| && spans[k].start <= i < spans[k].end
  }

  /** No match is missed: every position at which the pattern matches is the start of a
      reported match or lies strictly inside one (where the scan had already moved past it). */
  lemma {:induction false} MatchesComplete(t: string, alts: seq<string>, from: nat, i: nat)
    requires NonEmpty(alts)
    requires from <= i && MatchAt(t, alts, i).Some?
    ensures Covered(Matches(t, alts, from), i)
    decreases |t| - from
  {
    MatchAtBounds(t, alts, i);
    var r := Matches(t, alts, from);
    var m := MatchAt(t, alts, from);
    if m.None? {
      assert i != from;
      MatchesComplete(t, alts, from + 1, i);
    } else {
      MatchAtBounds(t, alts, from);
      var rest := Matches(t, alts, m.value);
      assert r == [Span(from, m.value)] + rest;
      if i >= m.value {
        MatchesComplete(t, alts, m.value, i);
        var k :| 0 <= k < |rest| && rest[k].start <= i < rest[k].end;
        assert r[k + 1] == rest[k];
        assert r[k + 1].start <= i < r[k + 1].end;
      } else {
        assert r[0].start <= i < r[0].end;
      }
    }
  }

  /** With longest-first alternatives the match at a position is the longest alternative
      there that is followed by a boundary. */
  lemma MatchAtLongest(t: string, alts: seq<string>, i: nat, a: string)
    requires LongestFirst(alts)
    requires a in alts && BoundedAt(t, a, i)
    ensures MatchAt(t, alts, i).Some? && i + |a| <= MatchAt(t, alts, i).value
  {
    var j := FirstBounded(t, alts, i, 0);
    var q :| 0 <= q < |alts| && alts[q] == a;
    assert j <= q;
  }

  /** Hence the order among phrases of equal length does not matter: two longest-first
      lists with the same elements give the same match at every position. */
  lemma SameAlternativesSameMatch(t: string, xs: seq<string>, ys: seq<string>, i: nat)
    requires LongestFirst(xs) && LongestFirst(ys)
    requires forall a :: a in xs <==> a in ys
    ensures MatchAt(t, xs, i) == MatchAt(t, ys, i)
  {
    MatchAtSpec(t, xs, i);
    MatchAtSpec(t, ys, i);
    if MatchAt(t, xs, i).Some? {
      var a :| a in xs && BoundedAt(t, a, i) && MatchAt(t, xs, i).value == i + |a|;
      MatchAtLongest(t, ys, i, a);
      var b :| b in ys && BoundedAt(t, b, i) && MatchAt(t, ys, i).value == i + |b|;
      MatchAtLongest(t, xs, i, b);
    }
  }

  /** ... and the same matches over the whole text. */
  lemma {:induction false} SameAlternativesSameMatches(t: string, xs: seq<string>, ys: seq<string>, from: nat)
    requires LongestFirst(xs) && LongestFirst(ys) && NonEmpty(xs)
    requires forall a :: a in xs <==> a in ys
    ensures NonEmpty(ys) && Matches(t, xs, from) == Matches(t, ys, from)
    decreases |t| - from
  {
    assert NonEmpty(ys);
    if from < |t| {
      SameAlternativesSameMatch(t, xs, ys, from);
      var m := MatchAt(t, xs, from);
      if m.None? {
        SameAlternativesSameMatches(t, xs, ys, from + 1);
      } else {
        MatchAtBounds(t, xs, from);
        SameAlternativesSameMatches(t, xs, ys, m.value);
        assert Matches(t, xs, from) == [Span(from, m.value)] + Matches(t, xs, m.value);
      }
    }
  }

  /** A phrase that begins and ends with a letter or a digit only matches with a
      non-word character (or the edge of the text) on each side. */
  lemma BoundedAlnum(t: string, a: string, i: nat)
    requires AlnumEnds(a) && BoundedAt(t, a, i)
    ensures i > 0 ==> !IsWordChar(t[i - 1])
    ensures i + |a| < |t| ==> !IsWordChar(t[i + |a|])
  {
    assert t[i] == a[0];
    assert t[i + |a| - 1] == a[|a| - 1];
  }

  /** For instance "lease" does not match inside "release". */
  lemma LeaseNotInRelease()
    ensures !BoundedAt("release", "lease", 2)
    ensures BoundedAt("a lease.", "lease", 2)
  {
    assert "release"[1] == 'e';
    assert "a lease."[2..7] == "lease";
  }
}
