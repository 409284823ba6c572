/**
 * The English service detector: text normalisation, the negation window, the
 * classification of one text into the thirteen categories (with the optional
 * root-form fallback), the supply-chain risk score and the per-year batch driver.
 *
 * The root-form set that the fallback consults comes from an external NLP
 * lemmatiser; here it is the parameter `rootForms`, applied to the normalised text.
 * When the lemmatiser is switched off the set is empty (`NoRootForms`).
 */
module Detector {
  import opened Text
  import opened Wrappers
  import opened Taxonomy
  import opened Patterns
  import opened Rows

  // ---------------------------------------------------------------------------
  // Normalisation: `re.sub(r"\s+", " ", text).strip()`

  /** Every whitespace run replaced by one space. */
  function Collapse(s: string): (r: string)
    ensures r == [] <==> s == []
    ensures s != [] ==> (IsSpace(r[0]) <==> IsSpace(s[0]))
    ensures s != [] ==> (IsSpace(r[|r| - 1]) <==> IsSpace(s[|s| - 1]))
    ensures SingleSpaced(r)
    decreases |s|
  {
    if s == [] then []
    else if IsSpace(s[0]) then
      var rest := Collapse(s[LeadingSpaces(s)..]);
      assert forall i :: 1 <= i < |[' '] + rest| ==> ([' '] + rest)[i] == rest[i - 1];
      [' '] + rest
    else
      var rest := Collapse(s[1..]);
      assert forall i :: 1 <= i < |[s[0]] + rest| ==> ([s[0]] + rest)[i] == rest[i - 1];
      [s[0]] + rest
  }

  /** The only whitespace is the plain space, and no two spaces are adjacent. */
  predicate SingleSpaced(s: string) {
    && (forall i :: 0 <= i < |s| && IsSpace(s[i]) ==> s[i] == ' ')
    && (forall i :: 0 <= i < |s| - 1 && s[i] == ' ' ==> s[i + 1] != ' ')
  }

  /** What normalised text looks like: single spaces between words, none at the ends. */
  predicate Normalized(s: string) {
    && SingleSpaced(s)
    && (s == [] || (!IsSpace(s[0]) && !IsSpace(s[|s| - 1])))
  }

  /** `preprocess_text`. */
  function Preprocess(text: string): (r: string)
    ensures Normalized(r)
  {
    var c := Collapse(text);
    var r := Strip(c);
    assert Normalized(r) by {
      StripIsSlice(c);
      assert forall i :: 0 <= i < |r| ==> r[i] == c[StripStart(c) + i];
    }
    r
  }

  /** Collapsing keeps the words: no word is split, merged or lost. */
  lemma {:induction false} CollapseSameWords(s: string)
    ensures Words(Collapse(s)) == Words(s)
    decreases |s|
  {
    if s != [] {
      if IsSpace(s[0]) {
        var n := LeadingSpaces(s);
        CollapseSameWords(s[n..]);
        WordsSpaceCons(' ', Collapse(s[n..]));
        WordsDropSpaces(s, n);
      } else {
        var x := s[1..];
        CollapseSameWords(x);
        assert s == [s[0]] + x;
        WordsCons(s[0], x);
        WordsCons(s[0], Collapse(x));
      }
    }
  }

  /** Normalised text is its words joined by single spaces. */
  lemma {:induction false} NormalizedIsJoin(r: string)
    requires Normalized(r)
    ensures r == Unwords(Words(r))
    decreases |r|
  {
    if r != [] {
      var n := WordLength(r);
      if n < |r| {
        var t := r[n + 1..];
        assert n + 1 < |r| && r[n] == ' ' && Normalized(t) by {
          NormalizedTail(r, n);
        }
        var w := r[..n];
        assert Unwords(Words(r)) == w + " " + Unwords(Words(t)) by {
          WordsSplitAt(r, n);
          UnwordsCons(w, Words(t));
        }
        assert w + " " + t == r by {
          SplitAround(r, n);
        }
        NormalizedIsJoin(t);
      } else {
        WordsOne(r);
      }
    }
  }

  /** After the first word of normalised text come one space and normalised text. */
  lemma NormalizedTail(r: string, n: nat)
    requires Normalized(r) && n < |r| && n == WordLength(r)
    ensures n + 1 < |r| && r[n] == ' ' && Normalized(r[n + 1..])
  {
    var t := r[n + 1..];
    assert forall i :: 0 <= i < |t| ==> t[i] == r[n + 1 + i];
  }

  /** The words of `r` are its first word and the words after the space that ends it. */
  lemma WordsSplitAt(r: string, n: nat)
    requires r != [] && !IsSpace(r[0]) && n == WordLength(r) && n + 1 < |r| && !IsSpace(r[n + 1])
    ensures Words(r) == [r[..n]] + Words(r[n + 1..]) && Words(r[n + 1..]) != []
  {
    var u := r[n..];
    assert u[0] == r[n];
    WordsSpaceCons(u[0], u[1..]);
    assert [u[0]] + u[1..] == u;
    assert u[1..] == r[n + 1..];
  }

  /** `preprocess_text` returns the words of the text, joined by single spaces. */
  lemma PreprocessJoinsWords(text: string)
    ensures Preprocess(text) == Unwords(Words(text))
  {
    CollapseSameWords(text);
    WordsStrip(Collapse(text));
    NormalizedIsJoin(Preprocess(text));
  }

  /** Two words with any whitespace between them come out with one space between them. */
  lemma PreprocessOneSpace(u: string, gap: string, v: string)
    requires u != [] && v != [] && NoSpace(u) && NoSpace(v)
    requires gap != [] && forall k :: 0 <= k < |gap| ==> IsSpace(gap[k])
    ensures Preprocess(u + gap + v) == u + " " + v
  {
    PreprocessJoinsWords(u + gap + v);
    assert Words(u + gap + v) == [u, v] by {
      WordsOfTwo(u, gap, v);
    }
  }

  lemma WordsOfTwo(u: string, gap: string, v: string)
    requires u != [] && v != [] && NoSpace(u) && NoSpace(v)
    requires gap != [] && forall k :: 0 <= k < |gap| ==> IsSpace(gap[k])
    ensures Words(u + gap + v) == [u, v]
  {
    var w := gap + v;
    assert u + gap + v == u + w;
    assert Words(w) == [v] by {
      WordsDropSpaces(w, |gap|);
      assert w[|gap|..] == v;
      WordsOne(v);
    }
    WordsFirst(u, w);
  }

  /** A word followed by text that starts with whitespace is the first word. */
  lemma WordsFirst(u: string, w: string)
    requires u != [] && NoSpace(u) && w != [] && IsSpace(w[0])
    ensures Words(u + w) == [u] + Words(w)
  {
    var s := u + w;
    assert WordLength(s) == |u| by {
      WordLengthAppend(u, w);
      WordLengthAll(u);
    }
    assert s[..|u|] == u && s[|u|..] == w;
  }

  lemma WordsOne(v: string)
    requires v != [] && NoSpace(v)
    ensures Words(v) == [v]
  {
    WordLengthAll(v);
    assert v[..|v|] == v && v[|v|..] == [];
  }

  lemma {:induction false} WordLengthAll(v: string)
    requires NoSpace(v)
    ensures WordLength(v) == |v|
    decreases |v|
  {
    if v != [] {
      assert NoSpace(v[1..]) by {
        assert forall k :: 0 <= k < |v[1..]| ==> v[1..][k] == v[k + 1];
      }
      WordLengthAll(v[1..]);
    }
  }

  lemma {:induction false} SingleSpacedCollapse(s: string)
    requires SingleSpaced(s)
    ensures Collapse(s) == s
    decreases |s|
  {
    if s != [] {
      var t := s[1..];
      assert SingleSpaced(t) by {
        assert forall i :: 0 <= i < |t| ==> t[i] == s[i + 1];
      }
      SingleSpacedCollapse(t);
      assert s == [s[0]] + t;
      if IsSpace(s[0]) {
        assert LeadingSpaces(s) == 1 && s[0] == ' ' by {
          if |s| > 1 {
            assert !IsSpace(s[1]);
          }
        }
        assert s[LeadingSpaces(s)..] == t;
      }
    }
  }

  /** Normalising twice is normalising once. */
  lemma PreprocessIdempotent(text: string)
    ensures Preprocess(Preprocess(text)) == Preprocess(text)
  {
    var r := Preprocess(text);
    SingleSpacedCollapse(r);
  }

  lemma {:induction false} NonSpaceOfSpaces(s: string)
    requires forall i :: 0 <= i < |s| ==> IsSpace(s[i])
    ensures NonSpace(s) == []
  {
    if s != [] {
      NonSpaceOfSpaces(s[1..]);
    }
  }

  lemma {:induction false} CollapseKeepsWords(s: string)
    ensures NonSpace(Collapse(s)) == NonSpace(s)
    decreases |s|
  {
    if s != [] {
      if IsSpace(s[0]) {
        var n := LeadingSpaces(s);
        assert s == s[..n] + s[n..];
        NonSpaceConcat(s[..n], s[n..]);
        NonSpaceOfSpaces(s[..n]);
        CollapseKeepsWords(s[n..]);
        NonSpaceConcat([' '], Collapse(s[n..]));
      } else {
        CollapseKeepsWords(s[1..]);
        NonSpaceConcat([s[0]], Collapse(s[1..]));
      }
    }
  }

  lemma StripKeepsWords(s: string)
    ensures NonSpace(Strip(s)) == NonSpace(s)
  {
    StripIsSlice(s);
    NonSpaceTrimmed(s, StripStart(s), StripEnd(s));
  }

  /** Cutting whitespace off both ends keeps the other characters. */
  lemma NonSpaceTrimmed(s: string, a: nat, b: nat)
    requires a <= b <= |s|
    requires forall k :: 0 <= k < a ==> IsSpace(s[k])
    requires forall k :: b <= k < |s| ==> IsSpace(s[k])
    ensures NonSpace(s[a..b]) == NonSpace(s)
  {
    var pre, mid, post := s[..a], s[a..b], s[b..];
    assert forall i :: 0 <= i < |pre| ==> IsSpace(pre[i]);
    assert forall i :: 0 <= i < |post| ==> IsSpace(post[i]) by {
      forall i | 0 <= i < |post| ensures IsSpace(post[i]) {
        assert post[i] == s[b + i];
      }
    }
    SplitThree(s, a, b);
    NonSpaceBetweenSpaces(pre, mid, post);
  }

  lemma SplitThree(s: string, a: nat, b: nat)
    requires a <= b <= |s|
    ensures s == s[..a] + (s[a..b] + s[b..])
  {
  }

  lemma NonSpaceBetweenSpaces(pre: string, mid: string, post: string)
    requires forall i :: 0 <= i < |pre| ==> IsSpace(pre[i])
    requires forall i :: 0 <= i < |post| ==> IsSpace(post[i])
    ensures NonSpace(pre + (mid + post)) == NonSpace(mid)
  {
    NonSpaceConcat(pre, mid + post);
    NonSpaceConcat(mid, post);
    NonSpaceOfSpaces(pre);
    NonSpaceOfSpaces(post);
  }

  /** Normalising changes only whitespace: the other characters stay, in order. */
  lemma PreprocessKeepsWords(text: string)
    ensures NonSpace(Preprocess(text)) == NonSpace(text)
  {
    CollapseKeepsWords(text);
    StripKeepsWords(Collapse(text));
  }

  lemma {:induction false} NonSpaceEmpty(s: string)
    ensures NonSpace(s) == [] <==> forall i :: 0 <= i < |s| ==> IsSpace(s[i])
  {
    if s != [] {
      NonSpaceEmpty(s[1..]);
      assert forall i :: 1 <= i < |s| ==> s[i] == s[1..][i - 1];
    }
  }

  /** Empty or whitespace-only text normalises to the empty string, and nothing else does. */
  lemma PreprocessBlank(text: string)
    ensures Preprocess(text) == [] <==> forall i :: 0 <= i < |text| ==> IsSpace(text[i])
  {
    var r := Preprocess(text);
    PreprocessKeepsWords(text);
    NonSpaceEmpty(text);
    NonSpaceEmpty(r);
  }

  // ---------------------------------------------------------------------------
  // Negation

  const NegationCues: seq<string> := [
    "do not provide", "does not provide", "did not provide",
    "do not offer", "does not offer", "did not offer",
    "no longer provide", "no longer offered",
    "we do not", "we don't", "does not include",
    "not available", "without providing"]

  /** The window `classify_services` passes to `has_negation_around` (its default). */
  const NegationWindow: nat := 80

  /** `has_negation_around(text, start, end, window)`: some cue occurs in the lower-cased
      window `text[max(0, start - window):min(len(text), end + window)]`. Where the cue
      sits in the window does not matter: a match is negated exactly when some cue
      occurs, in the lower-cased text, anywhere between the two window ends. */
  predicate HasNegationAround(text: string, start: nat, end: nat, window: nat)
    ensures HasNegationAround(text, start, end, window) <==>
      CueBetween(Lower(text), Clamp0(start - window), Min(|text|, end + window), NegationCues)
  {
    NegationCuesInWindow(text, Clamp0(start - window), end + window);
    CueIn(text, Clamp0(start - window), end + window, NegationCues)
  }

  /** Some cue occurs in the lower-cased `text[a:e]`. */
  predicate CueIn(text: string, a: nat, e: nat, cues: seq<string>) {
    exists cue :: cue in cues && Contains(Lower(Slice(text, a, e)), cue)
  }

  lemma NegationCuesInWindow(text: string, a: nat, e: nat)
    ensures CueIn(text, a, e, NegationCues) <==> CueBetween(Lower(text), a, Min(|text|, e), NegationCues)
  {
    CuesNonEmpty(NegationCues);
    CuesInWindow(text, a, e, NegationCues);
  }

  lemma CuesNonEmpty(cues: seq<string>)
    requires cues == NegationCues
    ensures forall cue :: cue in cues ==> cue != []
  {
  }

  /** Some cue occurs in `lower` at an index `k` with `a <= k` and `k + |cue| <= b`. */
  predicate CueBetween(lower: string, a: nat, b: int, cues: seq<string>) {
    exists cue, k: nat :: cue in cues && a <= k && k + |cue| <= b && OccursAt(lower, cue, k)
  }

  lemma CuesInWindow(text: string, a: nat, e: nat, cues: seq<string>)
    requires forall cue :: cue in cues ==> cue != []
    ensures CueIn(text, a, e, cues) <==> CueBetween(Lower(text), a, Min(|text|, e), cues)
  {
    var b := Min(|text|, e);
    if a <= b {
      SliceIs(text, a, e);
      LowerOfSlice(text, a, b);
      forall cue | cue in cues
        ensures Contains(Lower(text)[a..b], cue) <==>
                exists k: nat :: a <= k && k + |cue| <= b && OccursAt(Lower(text), cue, k)
      {
        ContainsInSlice(Lower(text), a, b, cue);
      }
    } else {
      assert Slice(text, a, e) == [];
    }
  }

  // ---------------------------------------------------------------------------
  // Classification of one text

  /** The width of the evidence window on each side of a match (the default). */
  const EvidenceWindow: nat := 200

  /** The matches that survive the negation check, in match order. */
  function Accepted(t: string, spans: seq<Span>): (r: seq<Span>)
    ensures forall x :: x in r <==> x in spans && !HasNegationAround(t, x.start, x.end, NegationWindow)
    ensures |r| <= |spans|
  {
    if spans == [] then []
    else
      var init, last := spans[..|spans| - 1], spans[|spans| - 1];
      assert forall x :: x in spans <==> x in init || x == last;
      var r := Accepted(t, init);
      if HasNegationAround(t, last.start, last.end, NegationWindow) then r else r + [last]
  }

  /** `xs` is `ys` with some elements left out and the others kept in their order. */
  predicate Sublist(xs: seq<Span>, ys: seq<Span>)
    decreases |ys|
  {
    if ys == [] then xs == []
    else (xs != [] && xs[|xs| - 1] == ys[|ys| - 1] && Sublist(xs[..|xs| - 1], ys[..|ys| - 1]))
         || Sublist(xs, ys[..|ys| - 1])
  }

  /** Spans in text order: each ends no later than the next one starts. */
  predicate InTextOrder(spans: seq<Span>) {
    forall k, m :: 0 <= k < m < |spans| ==> spans[k].end <= spans[m].start
  }

  /** The negation check only drops matches: the accepted ones keep their match order. */
  lemma {:induction false} AcceptedInOrder(t: string, spans: seq<Span>)
    ensures Sublist(Accepted(t, spans), spans)
    ensures InTextOrder(spans) ==> InTextOrder(Accepted(t, spans))
    decreases |spans|
  {
    if spans != [] {
      var init, last := spans[..|spans| - 1], spans[|spans| - 1];
      AcceptedInOrder(t, init);
      var r := Accepted(t, spans);
      if HasNegationAround(t, last.start, last.end, NegationWindow) {
        assert r == Accepted(t, init);
      } else {
        assert r == Accepted(t, init) + [last];
        assert r[..|r| - 1] == Accepted(t, init);
      }
      SublistInOrder(r, spans);
    }
  }

  /** Leaving elements out keeps spans in text order. */
  lemma {:induction false} SublistInOrder(xs: seq<Span>, ys: seq<Span>)
    requires Sublist(xs, ys)
    ensures InTextOrder(ys) ==> InTextOrder(xs)
    decreases |ys|
  {
    if ys != [] && InTextOrder(ys) {
      var yi := ys[..|ys| - 1];
      assert InTextOrder(yi);
      if xs != [] && xs[|xs| - 1] == ys[|ys| - 1] && Sublist(xs[..|xs| - 1], yi) {
        var xi := xs[..|xs| - 1];
        SublistInOrder(xi, yi);
        SublistMembers(xi, yi);
        forall k, m | 0 <= k < m < |xs| ensures xs[k].end <= xs[m].start {
          if m < |xs| - 1 {
            assert xs[k] == xi[k] && xs[m] == xi[m];
          } else {
            assert xs[k] == xi[k] && xi[k] in yi;
          }
        }
      } else {
        SublistInOrder(xs, yi);
      }
    }
  }

  /** What a sublist holds, the list holds. */
  lemma {:induction false} SublistMembers(xs: seq<Span>, ys: seq<Span>)
    requires Sublist(xs, ys)
    ensures forall x :: x in xs ==> x in ys
    decreases |ys|
  {
    if ys != [] {
      var yi := ys[..|ys| - 1];
      if xs != [] && xs[|xs| - 1] == ys[|ys| - 1] && Sublist(xs[..|xs| - 1], yi) {
        SublistMembers(xs[..|xs| - 1], yi);
        assert xs == xs[..|xs| - 1] + [ys[|ys| - 1]];
      } else {
        SublistMembers(xs, yi);
      }
      assert ys == yi + [ys[|ys| - 1]];
    }
  }

  /** `raw_text[max(0, start - w):min(len(raw_text), end + w)].strip()`: no longer than
      the clamped window, and without whitespace at either end. */
  function Snippet(raw: string, m: Span, w: nat): (r: string)
    ensures |r| <= Clamp0(Min(m.end + w, |raw|) - Clamp0(m.start - w))
    ensures r == [] || (!IsSpace(r[0]) && !IsSpace(r[|r| - 1]))
  {
    Strip(Slice(raw, Clamp0(m.start - w), m.end + w))
  }

  /** The snippet of a span of `raw` is a stretch of the clamped window around it: what
      is cut off at either end is whitespace only. */
  lemma SnippetInWindow(raw: string, m: Span, w: nat)
    requires m.start <= m.end <= |raw|
    ensures exists a, b :: && Clamp0(m.start - w) <= a <= b <= Min(m.end + w, |raw|)
                           && Snippet(raw, m, w) == raw[a..b]
                           && (forall k :: Clamp0(m.start - w) <= k < a ==> IsSpace(raw[k]))
                           && (forall k :: b <= k < Min(m.end + w, |raw|) ==> IsSpace(raw[k]))
  {
    var lo, hi := Clamp0(m.start - w), Min(m.end + w, |raw|);
    var win := raw[lo..hi];
    assert Snippet(raw, m, w) == Strip(win) by {
      SliceIs(raw, lo, m.end + w);
    }
    var a, b := WindowStrip(raw, lo, hi);
    assert Snippet(raw, m, w) == raw[a..b];
  }

  /** Stripping `raw[lo..hi]` leaves a stretch `raw[a..b]` of it, cutting whitespace only. */
  lemma WindowStrip(raw: string, lo: nat, hi: nat) returns (a: nat, b: nat)
    requires lo <= hi <= |raw|
    ensures lo <= a <= b <= hi && Strip(raw[lo..hi]) == raw[a..b]
    ensures forall k :: lo <= k < a ==> IsSpace(raw[k])
    ensures forall k :: b <= k < hi ==> IsSpace(raw[k])
  {
    var win := raw[lo..hi];
    assert StripStart(win) <= StripEnd(win) <= |win| && Strip(win) == win[StripStart(win)..StripEnd(win)]
        && (forall k :: 0 <= k < StripStart(win) ==> IsSpace(win[k]))
        && (forall k :: StripEnd(win) <= k < |win| ==> IsSpace(win[k])) by {
      StripIsSlice(win);
    }
    a, b := lo + StripStart(win), lo + StripEnd(win);
    assert win[a - lo..b - lo] == raw[a..b] by {
      SliceOfSlice(raw, lo, hi, a - lo, b - lo);
    }
    assert forall k :: lo <= k < hi ==> raw[k] == win[k - lo];
  }


  function Snippets(raw: string, spans: seq<Span>, w: nat): (r: seq<string>)
    ensures |r| == |spans|
    ensures forall i :: 0 <= i < |spans| ==> r[i] == Snippet(raw, spans[i], w)
  {
    seq(|spans|, i requires 0 <= i < |spans| => Snippet(raw, spans[i], w))
  }

  lemma AlternativesNonEmpty(cat: Category)
    requires Scannable(cat)
    ensures NonEmpty(Alternatives(cat.phrases))
  {
    forall a | a in Alternatives(cat.phrases) ensures a != [] {
      var p :| p in cat.phrases && a == Lower(p);
    }
  }

  /** Every match of a category's pattern in the lower-cased normalised text. */
  function AllMatches(raw: string, cat: Category): seq<Span>
    requires Scannable(cat)
  {
    AlternativesNonEmpty(cat);
    Matches(Lower(raw), Alternatives(cat.phrases), 0)
  }

  /** The non-negated matches of a category's pattern in the normalised text. */
  function Hits(raw: string, cat: Category): seq<Span>
    requires Scannable(cat)
  {
    Accepted(Lower(raw), AllMatches(raw, cat))
  }

  /** The fallback accepts a phrase that is one word and whose lower-cased form is a root
      form of the text. */
  predicate RootPhrase(p: string, roots: set<string>) {
    ' ' !in p && Lower(p) in roots
  }

  /** The first accepted phrase from position `k` on; `|phrases|` when there is none. */
  function FirstRootPhrase(phrases: seq<string>, roots: set<string>, k: nat): (j: nat)
    requires k <= |phrases|
    ensures k <= j <= |phrases|
    ensures j < |phrases| ==> RootPhrase(phrases[j], roots)
    ensures forall m :: k <= m < j ==> !RootPhrase(phrases[m], roots)
    decreases |phrases| - k
  {
    if k == |phrases| then k
    else if RootPhrase(phrases[k], roots) then k
    else FirstRootPhrase(phrases, roots, k + 1)
  }

  /** The evidence recorded for one category: a snippet per non-negated match; or, when
      there is none and the fallback is on, `lemma_match::<phrase>` for the first
      single-word phrase that is a root form of the text, if any. */
  function CategoryEvidence(cat: Category, raw: string, useFallback: bool, roots: set<string>, w: nat): seq<string>
    requires Scannable(cat)
  {
    var hits := Snippets(raw, Hits(raw, cat), w);
    if hits != [] || !useFallback then hits else FallbackEntry(cat.phrases, roots)
  }

  /** The snippets of a category's non-negated matches. */
  function Primary(raw: string, cat: Category, w: nat): seq<string>
    requires Scannable(cat)
  {
    Snippets(raw, Hits(raw, cat), w)
  }

  lemma CategoryEvidenceCases(cat: Category, raw: string, useFallback: bool, roots: set<string>, w: nat)
    requires Scannable(cat)
    ensures Primary(raw, cat, w) != [] || !useFallback ==>
              CategoryEvidence(cat, raw, useFallback, roots, w) == Primary(raw, cat, w)
    ensures Primary(raw, cat, w) == [] && useFallback ==>
              CategoryEvidence(cat, raw, useFallback, roots, w) == FallbackEntry(cat.phrases, roots)
  {
  }

  /** What the fallback records for a category without hits: `lemma_match::<phrase>` for
      the first accepted phrase, or nothing. */
  function FallbackEntry(phrases: seq<string>, roots: set<string>): seq<string> {
    var j := FirstRootPhrase(phrases, roots, 0);
    if j < |phrases| then ["lemma_match::" + phrases[j]] else []
  }

  /** The evidence of every category, in dictionary order. */
  function AllEvidence(cats: seq<Category>, raw: string, useFallback: bool, roots: set<string>, w: nat)
    : (r: seq<seq<string>>)
    requires WellFormed(cats)
    ensures |r| == |cats|
    ensures forall i :: 0 <= i < |cats| ==> r[i] == CategoryEvidence(cats[i], raw, useFallback, roots, w)
  {
    seq(|cats|, i requires 0 <= i < |cats| => CategoryEvidence(cats[i], raw, useFallback, roots, w))
  }

  lemma AcceptedSnoc(t: string, ms: seq<Span>, k: nat)
    requires k < |ms|
    ensures Accepted(t, ms[..k + 1]) ==
      Accepted(t, ms[..k]) + (if HasNegationAround(t, ms[k].start, ms[k].end, NegationWindow) then [] else [ms[k]])
  {
    assert ms[..k + 1][..k] == ms[..k];
  }

  lemma SnippetsSnoc(raw: string, spans: seq<Span>, m: Span, w: nat)
    ensures Snippets(raw, spans + [m], w) == Snippets(raw, spans, w) + [Snippet(raw, m, w)]
  {
  }

  /** The match loop of `classify_services` for one category: every match of its pattern,
      in order; a negated match is skipped, any other one sets the flag and appends its
      snippet. */
  method ScanCategory(cats: seq<Category>, j: nat, raw: string, lower: string, alts: seq<string>, w: nat,
                      flags0: map<string, int>, evidence0: map<string, seq<string>>, ghost exp0: seq<seq<string>>)
    returns (flags: map<string, int>, evidence: map<string, seq<string>>, ghost exp: seq<seq<string>>)
    requires DistinctIds(cats) && j < |cats| && Scannable(cats[j])
    requires lower == Lower(raw) && alts == Alternatives(cats[j].phrases)
    requires Reflects(cats, flags0, evidence0, exp0) && exp0[j] == []
    ensures Reflects(cats, flags, evidence, exp)
    ensures exp == exp0[j := Primary(raw, cats[j], w)]
  {
    AlternativesNonEmpty(cats[j]);
    flags, evidence, exp := flags0, evidence0, exp0;
    var cat := cats[j].id;
    var ms := Matches(lower, alts, 0);
    ScanEnds(lower, raw, ms, w);
    assert exp0[j := []] == exp0;
    for k := 0 to |ms|
      invariant Reflects(cats, flags, evidence, exp)
      invariant exp == exp0[j := Snippets(raw, Accepted(lower, ms[..k]), w)]
    {
      var m := ms[k];
      ScanStep(lower, raw, ms, k, w);
      if !HasNegationAround(lower, m.start, m.end, NegationWindow) {
        var snippet := Snippet(raw, m, w);
        ReflectsAppend(cats, flags, evidence, exp, j, snippet);
        UpdateTwice(exp0, j, exp[j], exp[j] + [snippet]);
        flags := flags[cat := 1];
        evidence := Append(evidence, cat, snippet);
        exp := exp[j := exp[j] + [snippet]];
      }
    }
  }

  lemma ScanEnds(t: string, raw: string, ms: seq<Span>, w: nat)
    ensures Snippets(raw, Accepted(t, ms[..0]), w) == []
    ensures ms[..|ms|] == ms
  {
    assert ms[..0] == [];
  }

  /** One more match: a negated one leaves the snippets as they are, any other one adds its own. */
  lemma ScanStep(t: string, raw: string, ms: seq<Span>, k: nat, w: nat)
    requires k < |ms|
    ensures Snippets(raw, Accepted(t, ms[..k + 1]), w) ==
              if HasNegationAround(t, ms[k].start, ms[k].end, NegationWindow)
              then Snippets(raw, Accepted(t, ms[..k]), w)
              else Snippets(raw, Accepted(t, ms[..k]), w) + [Snippet(raw, ms[k], w)]
  {
    AcceptedSnoc(t, ms, k);
    if !HasNegationAround(t, ms[k].start, ms[k].end, NegationWindow) {
      SnippetsSnoc(raw, Accepted(t, ms[..k]), ms[k], w);
    } else {
      assert Accepted(t, ms[..k + 1]) == Accepted(t, ms[..k]) + [];
    }
  }

  /** The root-form fallback of `classify_services` for one category whose flag is still
      0: the first single-word phrase, in list order, whose lower-cased form is a root form
      sets the flag and is recorded. */
  method FallbackCategory(cats: seq<Category>, j: nat, roots: set<string>,
                          flags0: map<string, int>, evidence0: map<string, seq<string>>, ghost exp0: seq<seq<string>>)
    returns (flags: map<string, int>, evidence: map<string, seq<string>>, ghost exp: seq<seq<string>>)
    requires DistinctIds(cats) && j < |cats|
    requires Reflects(cats, flags0, evidence0, exp0) && exp0[j] == []
    ensures Reflects(cats, flags, evidence, exp)
    ensures exp == exp0[j := FallbackEntry(cats[j].phrases, roots)]
  {
    flags, evidence, exp := flags0, evidence0, exp0;
    var cat := cats[j].id;
    var phrases := cats[j].phrases;
    var q := 0;
    while q < |phrases|
      invariant q <= |phrases|
      invariant forall m :: 0 <= m < q ==> !RootPhrase(phrases[m], roots)
      invariant flags == flags0 && evidence == evidence0 && exp == exp0
    {
      var phrase := phrases[q];
      if ' ' !in phrase && Lower(phrase) in roots {
        ReflectsAppend(cats, flags, evidence, exp, j, "lemma_match::" + phrase);
        flags := flags[cat := 1];
        evidence := Append(evidence, cat, "lemma_match::" + phrase);
        exp := exp[j := exp[j] + ["lemma_match::" + phrase]];
        assert FirstRootPhrase(phrases, roots, 0) == q;
        assert exp0[j] + ["lemma_match::" + phrase] == FallbackEntry(phrases, roots);
        return;
      }
      q := q + 1;
    }
    assert exp0[j := []] == exp0;
  }

  lemma EvidenceComplete(cats: seq<Category>, raw: string, useFallback: bool, roots: set<string>, w: nat,
                         exp: seq<seq<string>>)
    requires WellFormed(cats) && |exp| == |cats|
    requires forall i :: 0 <= i < |cats| ==> exp[i] == CategoryEvidence(cats[i], raw, useFallback, roots, w)
    ensures exp == AllEvidence(cats, raw, useFallback, roots, w)
  {
  }

  /** The first pass of `classify_services`: every category's pattern, in dictionary order. */
  method PrimaryPass(cats: seq<Category>, ps: seq<Pattern>, raw: string, w: nat)
    returns (flags: map<string, int>, evidence: map<string, seq<string>>, ghost exp: seq<seq<string>>)
    requires WellFormed(cats) && CompiledFrom(ps, cats)
    ensures Reflects(cats, flags, evidence, exp)
    ensures exp == AllPrimary(cats, raw, w)
  {
    var lower := Lower(raw);
    flags := map c | c in Ids(cats) :: 0;
    evidence := map[];
    exp := NothingYet(cats, flags);
    ghost var done := AllPrimary(cats, raw, w);
    ghost var pending := exp;
    for j := 0 to |ps|
      invariant Reflects(cats, flags, evidence, exp)
      invariant Settled(exp, done, pending, j)
    {
      flags, evidence, exp := ScanInto(cats, ps, j, raw, lower, w, flags, evidence, exp, done, pending);
    }
    SettledAll(exp, done, pending);
  }

  /** The match loop of `classify_services` for category `j`, inside the first pass. */
  method ScanInto(cats: seq<Category>, ps: seq<Pattern>, j: nat, raw: string, lower: string, w: nat,
                  flags0: map<string, int>, evidence0: map<string, seq<string>>, ghost exp0: seq<seq<string>>,
                  ghost done: seq<seq<string>>, ghost pending: seq<seq<string>>)
    returns (flags: map<string, int>, evidence: map<string, seq<string>>, ghost exp: seq<seq<string>>)
    requires WellFormed(cats) && CompiledFrom(ps, cats) && j < |cats| && lower == Lower(raw)
    requires done == AllPrimary(cats, raw, w) && pending == seq(|cats|, i => [])
    requires Reflects(cats, flags0, evidence0, exp0) && Settled(exp0, done, pending, j)
    ensures Reflects(cats, flags, evidence, exp)
    ensures Settled(exp, done, pending, j + 1)
  {
    AlternativesNonEmpty(cats[j]);
    flags, evidence, exp := ScanCategory(cats, j, raw, lower, ps[j].alternatives, w, flags0, evidence0, exp0);
    SettleStep(exp0, exp, done, pending, j);
  }

  /** The snippets of every category's non-negated matches, in dictionary order. */
  function AllPrimary(cats: seq<Category>, raw: string, w: nat): (r: seq<seq<string>>)
    requires WellFormed(cats)
    ensures |r| == |cats|
    ensures forall i :: 0 <= i < |cats| ==> r[i] == Primary(raw, cats[i], w)
  {
    seq(|cats|, i requires 0 <= i < |cats| => Primary(raw, cats[i], w))
  }

  /** The fallback pass of `classify_services` for category `j`, whose entry still holds
      its first-pass value: the fallback runs only when that value is empty. */
  method SettleCategory(cats: seq<Category>, ps: seq<Pattern>, j: nat, raw: string, roots: set<string>, w: nat,
                        flags0: map<string, int>, evidence0: map<string, seq<string>>, ghost exp0: seq<seq<string>>,
                        ghost done: seq<seq<string>>, ghost pending: seq<seq<string>>)
    returns (flags: map<string, int>, evidence: map<string, seq<string>>, ghost exp: seq<seq<string>>)
    requires WellFormed(cats) && CompiledFrom(ps, cats) && j < |cats|
    requires done == AllEvidence(cats, raw, true, roots, w) && pending == AllPrimary(cats, raw, w)
    requires Reflects(cats, flags0, evidence0, exp0) && Settled(exp0, done, pending, j)
    ensures Reflects(cats, flags, evidence, exp)
    ensures Settled(exp, done, pending, j + 1)
  {
    var cat := ps[j].category;
    CategoryEvidenceCases(cats[j], raw, true, roots, w);
    if flags0[cat] == 0 {
      flags, evidence, exp := FallbackCategory(cats, j, roots, flags0, evidence0, exp0);
    } else {
      flags, evidence, exp := flags0, evidence0, exp0;
      assert exp0[j := done[j]] == exp0;
    }
    SettleStep(exp0, exp, done, pending, j);
  }

  /** The fallback pass of `classify_services`: every category that is still unflagged. */
  method FallbackPass(cats: seq<Category>, ps: seq<Pattern>, raw: string, roots: set<string>, w: nat,
                      flags0: map<string, int>, evidence0: map<string, seq<string>>, ghost exp0: seq<seq<string>>)
    returns (flags: map<string, int>, evidence: map<string, seq<string>>, ghost exp: seq<seq<string>>)
    requires WellFormed(cats) && CompiledFrom(ps, cats)
    requires Reflects(cats, flags0, evidence0, exp0) && exp0 == AllPrimary(cats, raw, w)
    ensures Reflects(cats, flags, evidence, exp)
    ensures exp == AllEvidence(cats, raw, true, roots, w)
  {
    ghost var done := AllEvidence(cats, raw, true, roots, w);
    ghost var pending := exp0;
    flags, evidence, exp := flags0, evidence0, exp0;
    for j := 0 to |ps|
      invariant Reflects(cats, flags, evidence, exp)
      invariant Settled(exp, done, pending, j)
    {
      flags, evidence, exp := SettleCategory(cats, ps, j, raw, roots, w, flags, evidence, exp, done, pending);
    }
    SettledAll(exp, done, pending);
  }

  /** `classify_services(item1_text, use_lemma_fallback, evidence_window)`, with the keyword
      dictionary `cats` and the patterns `ps` built from it; `rootForms` stands for the
      lemmatiser and is consulted only when the fallback is on. */
  method ClassifyServices(cats: seq<Category>, ps: seq<Pattern>, text: string, useFallback: bool,
                          rootForms: string -> set<string>, w: nat)
    returns (flags: map<string, int>, evidence: map<string, seq<string>>)
    requires WellFormed(cats) && CompiledFrom(ps, cats)
    ensures var raw := Preprocess(text);
            var ev := AllEvidence(cats, raw, useFallback, if useFallback then rootForms(raw) else {}, w);
            flags == FlagsFrom(cats, ev) && evidence == EvidenceFrom(cats, ev)
  {
    var raw := Preprocess(text);
    ghost var exp;
    flags, evidence, exp := PrimaryPass(cats, ps, raw, w);
    var roots: set<string> := {};
    if useFallback {
      roots := rootForms(raw);
      flags, evidence, exp := FallbackPass(cats, ps, raw, roots, w, flags, evidence, exp);
      assert forall i :: 0 <= i < |cats| ==> exp[i] == CategoryEvidence(cats[i], raw, true, roots, w);
    } else {
      forall i | 0 <= i < |cats| ensures exp[i] == CategoryEvidence(cats[i], raw, false, roots, w) {
        CategoryEvidenceCases(cats[i], raw, false, roots, w);
      }
    }
    EvidenceComplete(cats, raw, useFallback, roots, w, exp);
    ReflectsResult(cats, flags, evidence, exp);
  }

  // ---------------------------------------------------------------------------
  // What the two dictionaries say

  /** Without the fallback a category is flagged exactly when its pattern has a match
      that no negation cue surrounds. */
  lemma FlagWithoutFallback(cats: seq<Category>, raw: string, roots: set<string>, w: nat, j: nat)
    requires WellFormed(cats) && j < |cats|
    ensures var flags := FlagsFrom(cats, AllEvidence(cats, raw, false, roots, w));
            flags[cats[j].id] == 1 <==>
              exists m :: m in AllMatches(raw, cats[j]) && !HasNegationAround(Lower(raw), m.start, m.end, NegationWindow)
  {
    var ev := AllEvidence(cats, raw, false, roots, w);
    assert IndexOf(cats, cats[j].id) == j;
    CategoryEvidenceCases(cats[j], raw, false, roots, w);
    var hits := Hits(raw, cats[j]);
    if hits != [] {
      assert hits[0] in hits;
    }
  }

  /** With the fallback on, every category flagged by the phrase matches keeps its flag
      and its evidence; any other category gains at most the one fallback entry. */
  lemma FallbackOnlyAdds(cats: seq<Category>, raw: string, roots: set<string>, w: nat)
    requires WellFormed(cats)
    ensures var before := AllEvidence(cats, raw, false, roots, w);
            var after := AllEvidence(cats, raw, true, roots, w);
            && (forall c :: c in Ids(cats) ==> FlagsFrom(cats, before)[c] <= FlagsFrom(cats, after)[c])
            && (forall c :: c in EvidenceFrom(cats, before) ==>
                  c in EvidenceFrom(cats, after) && EvidenceFrom(cats, after)[c] == EvidenceFrom(cats, before)[c])
            && (forall c :: c in EvidenceFrom(cats, after) && c !in EvidenceFrom(cats, before) ==>
                  EvidenceFrom(cats, after)[c] == FallbackEntry(cats[IndexOf(cats, c)].phrases, roots))
  {
    forall i | 0 <= i < |cats|
      ensures Primary(raw, cats[i], w) != [] ==>
                CategoryEvidence(cats[i], raw, true, roots, w) == CategoryEvidence(cats[i], raw, false, roots, w)
      ensures Primary(raw, cats[i], w) == [] ==>
                CategoryEvidence(cats[i], raw, false, roots, w) == []
                && CategoryEvidence(cats[i], raw, true, roots, w) == FallbackEntry(cats[i].phrases, roots)
    {
      CategoryEvidenceCases(cats[i], raw, false, roots, w);
      CategoryEvidenceCases(cats[i], raw, true, roots, w);
    }
  }

  /** The fallback entry: nothing when no single-word phrase is a root form, otherwise the
      one entry `lemma_match::<phrase>` for the first such phrase in list order. */
  lemma FallbackEntryShape(phrases: seq<string>, roots: set<string>)
    ensures |FallbackEntry(phrases, roots)| <= 1
    ensures FallbackEntry(phrases, roots) == [] <==> forall p :: p in phrases ==> !RootPhrase(p, roots)
    ensures FallbackEntry(phrases, roots) != [] ==>
              exists j :: 0 <= j < |phrases| && RootPhrase(phrases[j], roots)
                && (forall m :: 0 <= m < j ==> !RootPhrase(phrases[m], roots))
                && FallbackEntry(phrases, roots) == ["lemma_match::" + phrases[j]]
  {
    var j := FirstRootPhrase(phrases, roots, 0);
    if j == |phrases| {
      forall p | p in phrases ensures !RootPhrase(p, roots) {
        var m :| 0 <= m < |phrases| && phrases[m] == p;
      }
    }
  }

  /** With no root forms (the lemmatiser switched off) the fallback changes nothing. */
  lemma NoRootFormsNoChange(cats: seq<Category>, raw: string, w: nat)
    requires WellFormed(cats)
    ensures AllEvidence(cats, raw, true, {}, w) == AllEvidence(cats, raw, false, {}, w)
  {
    forall i | 0 <= i < |cats|
      ensures CategoryEvidence(cats[i], raw, true, {}, w) == CategoryEvidence(cats[i], raw, false, {}, w)
    {
      CategoryEvidenceCases(cats[i], raw, false, {}, w);
      CategoryEvidenceCases(cats[i], raw, true, {}, w);
      FallbackEntryShape(cats[i].phrases, {});
    }
  }

  /** Empty or whitespace-only text: every flag 0 and no evidence, unless the fallback
      is on and finds root forms. */
  lemma BlankTextFindsNothing(cats: seq<Category>, text: string, useFallback: bool, roots: set<string>, w: nat)
    requires WellFormed(cats)
    requires forall i :: 0 <= i < |text| ==> IsSpace(text[i])
    requires !useFallback || roots == {}
    ensures var ev := AllEvidence(cats, Preprocess(text), useFallback, roots, w);
            (forall c :: c in Ids(cats) ==> FlagsFrom(cats, ev)[c] == 0) && EvidenceFrom(cats, ev) == map[]
  {
    PreprocessBlank(text);
    var raw := Preprocess(text);
    var ev := AllEvidence(cats, raw, useFallback, roots, w);
    forall i | 0 <= i < |cats| ensures ev[i] == [] {
      CategoryEvidenceCases(cats[i], raw, useFallback, roots, w);
      FallbackEntryShape(cats[i].phrases, roots);
      assert AllMatches(raw, cats[i]) == [];
    }
  }

  /** A snippet holds the matched text, and is at most `w` characters wider than the
      match on each side. */
  lemma SnippetHoldsMatch(raw: string, cat: Category, m: Span, w: nat)
    requires Scannable(cat) && AlnumPhrases(cat.phrases)
    requires m in AllMatches(raw, cat)
    ensures m.start < m.end <= |raw|
    ensures Contains(Snippet(raw, m, w), raw[m.start..m.end])
    ensures |Snippet(raw, m, w)| <= 2 * w + (m.end - m.start)
  {
    var p := MatchedPhrase(raw, cat, m);
    MatchEnds(raw, cat.phrases, p, m);
    SnippetAround(raw, m, w);
  }

  lemma SnippetAround(raw: string, m: Span, w: nat)
    requires m.start < m.end <= |raw| && !IsSpace(raw[m.start]) && !IsSpace(raw[m.end - 1])
    ensures Contains(Snippet(raw, m, w), raw[m.start..m.end])
    ensures |Snippet(raw, m, w)| <= 2 * w + (m.end - m.start)
  {
    var a, b := Clamp0(m.start - w), m.end + w;
    var r := Snippet(raw, m, w);
    assert r == Strip(Slice(raw, a, b));
    StripSlice(raw, a, b, m.start, m.end);
  }

  /** A match of an alphanumeric-ended phrase starts and ends on a non-space character. */
  lemma MatchEnds(raw: string, phrases: seq<string>, p: string, m: Span)
    requires AlnumPhrases(phrases) && p in phrases
    requires BoundedAt(Lower(raw), Lower(p), m.start) && m.end == m.start + |p|
    ensures m.start < m.end <= |raw| && !IsSpace(raw[m.start]) && !IsSpace(raw[m.end - 1])
  {
    AlnumMember(phrases, p);
    PhraseEnds(raw, p, m.start);
  }

  lemma AlnumMember(ps: seq<string>, p: string)
    requires AlnumPhrases(ps) && p in ps
    ensures AlnumEnds(p)
  {
    var q :| 0 <= q < |ps| && ps[q] == p;
  }

  /** The phrase whose lower-cased form a match spells out. */
  lemma MatchedPhrase(raw: string, cat: Category, m: Span) returns (p: string)
    requires Scannable(cat)
    requires m in AllMatches(raw, cat)
    ensures p in cat.phrases && BoundedAt(Lower(raw), Lower(p), m.start) && m.end == m.start + |p|
  {
    var lower := Lower(raw);
    var alts := Alternatives(cat.phrases);
    AlternativesNonEmpty(cat);
    var ms := Matches(lower, alts, 0);
    var k :| 0 <= k < |ms| && ms[k] == m;
    MatchesAreMatches(lower, alts, 0);
    MatchAtSpec(lower, alts, m.start);
    var a :| a in alts && BoundedAt(lower, a, m.start) && m.end == m.start + |a|;
    p :| p in cat.phrases && a == Lower(p);
  }

  lemma PhraseEnds(raw: string, p: string, i: nat)
    requires AlnumEnds(p) && BoundedAt(Lower(raw), Lower(p), i)
    ensures i + |p| <= |raw| && !IsSpace(raw[i]) && !IsSpace(raw[i + |p| - 1])
  {
    var lower := Lower(raw);
    assert lower[i..i + |p|] == Lower(p);
    assert lower[i] == Lower(p)[0];
    assert lower[i + |p| - 1] == Lower(p)[|p| - 1];
  }

  /** Stripping the window `raw[a:b]` keeps any stretch inside it that starts and ends
      on a non-space character. */
  lemma StripSlice(raw: string, a: nat, b: nat, s: nat, e: nat)
    requires a <= s < e <= b && e <= |raw|
    requires !IsSpace(raw[s]) && !IsSpace(raw[e - 1])
    ensures Contains(Strip(Slice(raw, a, b)), raw[s..e])
  {
    var ctx, lo, hi := Slice(raw, a, b), s - a, e - a;
    assert lo < hi <= |ctx| && !IsSpace(ctx[lo]) && !IsSpace(ctx[hi - 1]) by {
      SliceWithin(raw, a, b, lo, hi);
    }
    assert Contains(Strip(ctx), ctx[lo..hi]) by {
      StripKeeps(ctx, lo, hi);
    }
    assert ctx[lo..hi] == raw[s..e] by {
      SliceWithin(raw, a, b, lo, hi);
    }
  }

  // ---------------------------------------------------------------------------
  // Counting and the risk score

  /** `CATEGORY_TYPE.get(cat, "complementing")`. */
  function TypeOf(cat: string): (t: string)
    ensures t == Complementing || t == Substituting
  {
    CategoryTypes();
    if cat in CategoryType then CategoryType[cat] else Complementing
  }

  /** How many of `keys` have flag 1 and, when `want` holds, the type `t`, or, when it
      does not, any other type. */
  function CountFlagged(keys: seq<string>, flags: map<string, int>, t: string, want: bool): (r: nat)
    requires forall i :: 0 <= i < |keys| ==> keys[i] in flags
    ensures r <= |keys|
  {
    if keys == [] then 0
    else
      var k := keys[|keys| - 1];
      CountFlagged(keys[..|keys| - 1], flags, t, want) + (if flags[k] == 1 && (TypeOf(k) == t) == want then 1 else 0)
  }

  /** `compute_supply_chain_risk(flags)`, the dictionary given as its key order and its
      entries: every flag equal to 1 counts, as substituting if the category's type says
      so and as complementing otherwise. */
  method ComputeSupplyChainRisk(keys: seq<string>, flags: map<string, int>) returns (risk: real)
    requires KeyOrder(keys, flags)
    ensures risk == RiskScore(CountFlagged(keys, flags, Substituting, true), CountFlagged(keys, flags, Substituting, false))
  {
    var comp, sub := 0, 0;
    for i := 0 to |keys|
      invariant sub == CountFlagged(keys[..i], flags, Substituting, true)
      invariant comp == CountFlagged(keys[..i], flags, Substituting, false)
    {
      assert keys[..i + 1][..i] == keys[..i];
      var cat := keys[i];
      if flags[cat] == 1 {
        var t := TypeOf(cat);
        if t == Substituting {
          sub := sub + 1;
        } else {
          comp := comp + 1;
        }
      }
    }
    assert keys[..|keys|] == keys;
    risk := sub as real * 2.0 + comp as real * 0.5;
  }

  /** Every type is complementing or substituting, so "not substituting" and
      "complementing" pick out the same flagged categories. */
  lemma {:induction false} OtherIsComplementing(keys: seq<string>, flags: map<string, int>)
    requires forall i :: 0 <= i < |keys| ==> keys[i] in flags
    ensures CountFlagged(keys, flags, Substituting, false) == CountFlagged(keys, flags, Complementing, true)
  {
    if keys != [] {
      OtherIsComplementing(keys[..|keys| - 1], flags);
    }
  }

  /** With 0/1 flags, the flags sum to the complementing count plus the substituting count. */
  lemma {:induction false} CountsSplitSum(keys: seq<string>, flags: map<string, int>)
    requires forall i :: 0 <= i < |keys| ==> keys[i] in flags
    requires Bits(flags)
    ensures SumFlags(keys, flags) ==
              CountFlagged(keys, flags, Complementing, true) + CountFlagged(keys, flags, Substituting, true)
  {
    if keys != [] {
      CountsSplitSum(keys[..|keys| - 1], flags);
    }
  }

  // ---------------------------------------------------------------------------
  // The batch driver

  /** The row for one year whose per-category evidence is `ev`. */
  function RowOf(company: string, year: int, cats: seq<Category>, ev: seq<seq<string>>): Row
    requires |ev| == |cats|
  {
    var flags := FlagsFrom(cats, ev);
    var keys := IdSeq(cats);
    var sub := CountFlagged(keys, flags, Substituting, true);
    Row(company, year, SumFlags(keys, flags), CountFlagged(keys, flags, Complementing, true), sub,
        RiskScore(sub, CountFlagged(keys, flags, Substituting, false)), flags, EvidenceFrom(cats, ev))
  }

  /** What every row satisfies: one 0/1 flag per category, a flag of 1 exactly where there
      is evidence, the flags summing to the number of flagged categories and to the
      complementing count plus the substituting count, and the score weighing the two. */
  lemma RowCounts(company: string, year: int, cats: seq<Category>, ev: seq<seq<string>>)
    requires DistinctIds(cats) && |ev| == |cats|
    ensures var r := RowOf(company, year, cats, ev);
            && r.company == company && r.year == year
            && r.flags.Keys == Ids(cats) && Bits(r.flags)
            && (forall c :: c in r.flags ==> (r.flags[c] == 1 <==> c in r.evidence))
            && r.serviceNum == |Flagged(r.flags)|
            && r.compCount + r.subCount == r.serviceNum
            && r.riskScore == RiskScore(r.subCount, r.compCount)
  {
    var flags := FlagsFrom(cats, ev);
    FlagsMatchEvidence(cats, ev);
    var keys := IdSeq(cats);
    assert KeyOrder(keys, flags);
    FlagSums(keys, flags);
  }

  /** The three counts of a row, for flags listed in dictionary order by `keys`. */
  lemma FlagSums(keys: seq<string>, flags: map<string, int>)
    requires KeyOrder(keys, flags) && Bits(flags)
    ensures SumFlags(keys, flags) == |Flagged(flags)|
    ensures CountFlagged(keys, flags, Complementing, true) + CountFlagged(keys, flags, Substituting, true)
              == SumFlags(keys, flags)
    ensures CountFlagged(keys, flags, Substituting, false) == CountFlagged(keys, flags, Complementing, true)
  {
    SumCountsOnes(keys, flags);
    assert (set k | k in keys && flags[k] == 1) == Flagged(flags);
    CountsSplitSum(keys, flags);
    OtherIsComplementing(keys, flags);
  }

  /** The evidence `classify_services` finds in one text. */
  function EvidenceOf(cats: seq<Category>, text: string, useFallback: bool, rootForms: string -> set<string>)
    : seq<seq<string>>
    requires WellFormed(cats)
  {
    var raw := Preprocess(text);
    AllEvidence(cats, raw, useFallback, if useFallback then rootForms(raw) else {}, EvidenceWindow)
  }

  /** The year loop of `process_company_item1s` over the category list `cats` and its
      patterns `ps`. */
  method ProcessTexts(cats: seq<Category>, ps: seq<Pattern>, company: string, texts: map<int, string>,
                      useFallback: bool, rootForms: string -> set<string>)
    returns (rows: seq<Row>)
    requires WellFormed(cats) && CompiledFrom(ps, cats)
    ensures |rows| == |texts|
    ensures Ascending(rows)
    ensures forall i :: 0 <= i < |rows| ==>
              rows[i].year in texts
              && rows[i] == RowOf(company, rows[i].year, cats, EvidenceOf(cats, texts[rows[i].year], useFallback, rootForms))
  {
    var years := SortedYears(texts.Keys);
    ghost var expected := ExpectedRows(cats, company, years, texts, useFallback, rootForms);
    rows := [];
    for i := 0 to |years|
      invariant rows == expected[..i]
    {
      var row := YearRow(cats, ps, company, years[i], texts[years[i]], useFallback, rootForms);
      assert rows + [row] == expected[..i + 1] by {
        assert row == expected[i];
        TakeOneMore(expected, i);
      }
      rows := rows + [row];
    }
    assert rows == expected by {
      TakeOneMore(expected, |years|);
    }
  }

  /** The rows for the years `years`, in that order. */
  ghost function ExpectedRows(cats: seq<Category>, company: string, years: seq<int>, texts: map<int, string>,
                              useFallback: bool, rootForms: string -> set<string>): (r: seq<Row>)
    requires WellFormed(cats) && forall y :: y in years ==> y in texts
    ensures |r| == |years|
    ensures forall k :: 0 <= k < |years| ==>
              r[k] == RowOf(company, years[k], cats, EvidenceOf(cats, texts[years[k]], useFallback, rootForms))
  {
    seq(|years|, k requires 0 <= k < |years| =>
          RowOf(company, years[k], cats, EvidenceOf(cats, texts[years[k]], useFallback, rootForms)))
  }

  /** The body of the year loop of `process_company_item1s`: the row for one year. */
  method YearRow(cats: seq<Category>, ps: seq<Pattern>, company: string, year: int, text: string,
                 useFallback: bool, rootForms: string -> set<string>)
    returns (row: Row)
    requires WellFormed(cats) && CompiledFrom(ps, cats)
    ensures row == RowOf(company, year, cats, EvidenceOf(cats, text, useFallback, rootForms))
  {
    var flags, evidence := ClassifyServices(cats, ps, text, useFallback, rootForms, EvidenceWindow);
    ghost var ev := EvidenceOf(cats, text, useFallback, rootForms);
    FlagsMatchEvidence(cats, ev);
    var keys := IdSeq(cats);
    var serviceNum := SumFlags(keys, flags);
    var compCount := CountFlagged(keys, flags, Complementing, true);
    var subCount := CountFlagged(keys, flags, Substituting, true);
    var risk := ComputeSupplyChainRisk(keys, flags);
    row := Row(company, year, serviceNum, compCount, subCount, risk, flags, evidence);
  }

  /** `process_company_item1s(company_id, item1_texts_by_year, use_lemma_fallback)`: one
      row per year, in ascending year order, each classifying that year's text against
      the thirteen categories. */
  method ProcessCompanyItem1s(company: string, texts: map<int, string>, useFallback: bool,
                              rootForms: string -> set<string>)
    returns (rows: seq<Row>)
    ensures |rows| == |texts|
    ensures Ascending(rows)
    ensures forall i :: 0 <= i < |rows| ==>
              rows[i].year in texts && rows[i] == EnglishRow(company, rows[i].year, texts[rows[i].year], useFallback, rootForms)
  {
    PhrasesShape();
    var ps := BuildPatterns(Keywords);
    rows := ProcessTexts(Keywords, ps, company, texts, useFallback, rootForms);
  }

  /** The row `process_company_item1s` emits for one year's text. */
  function EnglishRow(company: string, year: int, text: string, useFallback: bool,
                      rootForms: string -> set<string>): Row
  {
    PhrasesShape();
    RowOf(company, year, Keywords, EvidenceOf(Keywords, text, useFallback, rootForms))
  }
}
