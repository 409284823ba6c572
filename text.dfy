/**
 * The pieces of Python's `str` that the two detectors and the two filename
 * parsers rely on, stated over `string` (= `seq<char>`):
 *   - `str.isspace`, which is also the class `\s` and what `strip()` removes;
 *   - the word characters of `\b`, restricted to ASCII;
 *   - `str.lower`, restricted to ASCII (so it keeps the length);
 *   - slicing `s[a:b]` with non-negative bounds, `sub in s`, `s.find(sub, i)`,
 *     `s.strip()`, `s.replace("\n", " ")`;
 *   - `int(s)` of a string of ASCII digits.
 */
module Text {

  /** Python's `str.isspace`: the characters that `\s` matches and `strip()` removes. */
  predicate IsSpace(c: char) {
    || c == ' '
    || ('\t' <= c <= '\r')
    || ('\U{1c}' <= c <= '\U{1f}')
    || c == '\U{85}' || c == '\U{a0}' || c == '\U{1680}'
    || ('\U{2000}' <= c <= '\U{200a}')
    || c == '\U{2028}' || c == '\U{2029}' || c == '\U{202f}' || c == '\U{205f}' || c == '\U{3000}'
  }

  predicate IsAsciiLetter(c: char) {
    'a' <= c <= 'z' || 'A' <= c <= 'Z'
  }

  predicate IsAsciiDigit(c: char) {
    '0' <= c <= '9'
  }

  predicate IsAlnum(c: char) {
    IsAsciiLetter(c) || IsAsciiDigit(c)
  }

  /** The characters of `\w` (ASCII part): letters, digits and the underscore. */
  predicate IsWordChar(c: char) {
    IsAlnum(c) || c == '_'
  }

  function LowerChar(c: char): (d: char)
    ensures IsSpace(d) <==> IsSpace(c)
    ensures IsWordChar(d) <==> IsWordChar(c)
    ensures !('A' <= d <= 'Z')
  {
    if 'A' <= c <= 'Z' then (c as int + 32) as char else c
  }

  /** `s.lower()` for ASCII letters; every other character is kept, so the length is kept. */
  function Lower(s: string): (r: string)
    ensures |r| == |s|
    ensures forall i :: 0 <= i < |s| ==> r[i] == LowerChar(s[i])
  {
    seq(|s|, i requires 0 <= i < |s| => LowerChar(s[i]))
  }

  predicate IsLower(s: string) {
    forall i :: 0 <= i < |s| ==> !('A' <= s[i] <= 'Z')
  }

  lemma LowerOfSlice(s: string, a: nat, b: nat)
    requires a <= b <= |s|
    ensures Lower(s[a..b]) == Lower(s)[a..b]
  {
  }

  /** Python's `max(0, x)`. */
  function Clamp0(x: int): nat {
    if x < 0 then 0 else x
  }

  function Min(a: int, b: int): int {
    if a < b then a else b
  }

  /** Python's `s[a:b]` for non-negative bounds: the characters from index `a` up to,
      but not including, `min(b, len(s))`. */
  function Slice(s: string, a: nat, b: nat): (r: string)
    ensures |r| == Clamp0(Min(b, |s|) - a)
    decreases |s| - a
  {
    if a < Min(b, |s|) then [s[a]] + Slice(s, a + 1, b) else []
  }

  /** Within bounds, `s[a:b]` is the subsequence `s[a..min(b, |s|)]`. */
  lemma {:induction false} SliceIs(s: string, a: nat, b: nat)
    requires a <= Min(b, |s|)
    ensures Slice(s, a, b) == s[a..Min(b, |s|)]
    decreases |s| - a
  {
    if a < Min(b, |s|) {
      SliceIs(s, a + 1, b);
      assert s[a..Min(b, |s|)] == [s[a]] + s[a + 1..Min(b, |s|)];
    }
  }

  /** `pat` occurs in `s` at index `k`. */
  predicate OccursAt(s: string, pat: string, k: nat) {
    k + |pat| <= |s| && s[k..k + |pat|] == pat
  }

  /** Python's `pat in s`, which holds exactly when `s.find(pat)` is not -1. */
  predicate Contains(s: string, pat: string) {
    Find(s, pat, 0) != -1
  }

  /** `pat in s` holds exactly when `pat` occurs in `s` at some index. */
  lemma ContainsIff(s: string, pat: string)
    ensures Contains(s, pat) <==> exists k: nat :: OccursAt(s, pat, k)
  {
  }

  /** An occurrence is a witness for `pat in s`. */
  lemma ContainsAt(s: string, pat: string, k: nat)
    requires OccursAt(s, pat, k)
    ensures Contains(s, pat)
  {
  }

  /** An occurrence inside the slice `s[a..b]` is an occurrence in `s` that lies
      between `a` and `b`. */
  lemma ContainsInSlice(s: string, a: nat, b: nat, pat: string)
    requires a <= b <= |s|
    ensures Contains(s[a..b], pat) <==> exists k: nat :: a <= k && k + |pat| <= b && OccursAt(s, pat, k)
  {
    if Contains(s[a..b], pat) {
      var k: nat := Find(s[a..b], pat, 0);
      SliceOfSlice(s, a, b, k, k + |pat|);
      assert OccursAt(s, pat, a + k);
    }
    if exists k: nat :: a <= k && k + |pat| <= b && OccursAt(s, pat, k) {
      var k: nat :| a <= k && k + |pat| <= b && OccursAt(s, pat, k);
      SliceOfSlice(s, a, b, k - a, k - a + |pat|);
      ContainsAt(s[a..b], pat, k - a);
    }
  }

  /** Python's `s.find(pat, from)`: the least index at or after `from` where `pat` occurs, or -1. */
  function Find(s: string, pat: string, from: nat): (r: int)
    ensures r == -1 || (from <= r && OccursAt(s, pat, r))
    ensures forall k: nat :: from <= k && (r == -1 || k < r) ==> !OccursAt(s, pat, k)
    decreases |s| - from
  {
    if from + |pat| > |s| then -1
    else if s[from..from + |pat|] == pat then from
    else Find(s, pat, from + 1)
  }

  /** The index of the first non-whitespace character of `s` at or after `i`, or `|s|`. */
  function SpaceRunEnd(s: string, i: nat): (n: nat)
    requires i <= |s|
    ensures i <= n <= |s|
    ensures forall k :: i <= k < n ==> IsSpace(s[k])
    ensures n < |s| ==> !IsSpace(s[n])
    decreases |s| - i
  {
    if i == |s| || !IsSpace(s[i]) then i else SpaceRunEnd(s, i + 1)
  }

  /** The number of whitespace characters at the start of `s`. */
  function LeadingSpaces(s: string): (n: nat)
    ensures n <= |s|
    ensures forall k :: 0 <= k < n ==> IsSpace(s[k])
    ensures n < |s| ==> !IsSpace(s[n])
  {
    SpaceRunEnd(s, 0)
  }

  /** Python's `s.lstrip()`. */
  function TrimStart(s: string): (r: string)
    ensures |r| <= |s|
    ensures r == [] || !IsSpace(r[0])
    decreases |s|
  {
    if s != [] && IsSpace(s[0]) then TrimStart(s[1..]) else s
  }

  /** Python's `s.rstrip()`. */
  function TrimEnd(s: string): (r: string)
    ensures |r| <= |s|
    ensures r == [] || !IsSpace(r[|r| - 1])
    decreases |s|
  {
    if s != [] && IsSpace(s[|s| - 1]) then TrimEnd(s[..|s| - 1]) else s
  }

  /** Python's `s.strip()`: `s` without its leading and trailing whitespace. */
  function Strip(s: string): (r: string)
    ensures |r| <= |s|
    ensures r == [] || (!IsSpace(r[0]) && !IsSpace(r[|r| - 1]))
    ensures (s == [] || (!IsSpace(s[0]) && !IsSpace(s[|s| - 1]))) ==> r == s
  {
    var t := TrimStart(s);
    TrimEndIsPrefix(t);
    TrimEnd(t)
  }

  /** `lstrip()` removes a run of whitespace from the front and keeps the rest. */
  lemma {:induction false} TrimStartIsSuffix(s: string)
    ensures TrimStart(s) == s[|s| - |TrimStart(s)|..]
    ensures forall k :: 0 <= k < |s| - |TrimStart(s)| ==> IsSpace(s[k])
    decreases |s|
  {
    if s != [] && IsSpace(s[0]) {
      TrimStartIsSuffix(s[1..]);
      assert forall k :: 1 <= k < |s| - |TrimStart(s)| ==> s[k] == s[1..][k - 1];
    }
  }

  /** `rstrip()` removes a run of whitespace from the back and keeps the rest. */
  lemma {:induction false} TrimEndIsPrefix(s: string)
    ensures TrimEnd(s) == s[..|TrimEnd(s)|]
    ensures forall k :: |TrimEnd(s)| <= k < |s| ==> IsSpace(s[k])
    decreases |s|
  {
    if s != [] && IsSpace(s[|s| - 1]) {
      TrimEndIsPrefix(s[..|s| - 1]);
    }
  }

  /** Where the stripped text begins and ends in `s`. */
  function StripStart(s: string): nat {
    |s| - |TrimStart(s)|
  }

  function StripEnd(s: string): nat {
    StripStart(s) + |Strip(s)|
  }

  /** `s.strip()` is the slice of `s` between two runs of whitespace. */
  lemma StripIsSlice(s: string)
    ensures StripStart(s) <= StripEnd(s) <= |s| && Strip(s) == s[StripStart(s)..StripEnd(s)]
    ensures forall k :: 0 <= k < StripStart(s) ==> IsSpace(s[k])
    ensures forall k :: StripEnd(s) <= k < |s| ==> IsSpace(s[k])
  {
    var t := TrimStart(s);
    var a, b := StripStart(s), StripEnd(s);
    assert t == s[a..] && forall k :: 0 <= k < a ==> IsSpace(s[k]) by {
      TrimStartIsSuffix(s);
    }
    assert Strip(s) == t[..|Strip(s)|] && forall k :: |Strip(s)| <= k < |t| ==> IsSpace(t[k]) by {
      TrimEndIsPrefix(t);
    }
    assert Strip(s) == s[a..b] by {
      SliceOfSlice(s, a, |s|, 0, |Strip(s)|);
    }
    assert forall k :: b <= k < |s| ==> s[k] == t[k - a];
  }

  /** What `strip()` removes is whitespace only: a span of `s` that starts and ends
      with a non-space character survives in the stripped string. */
  lemma StripKeeps(s: string, lo: nat, hi: nat)
    requires lo < hi <= |s|
    requires !IsSpace(s[lo]) && !IsSpace(s[hi - 1])
    ensures Contains(Strip(s), s[lo..hi])
  {
    StripIsSlice(s);
    var a, b := StripStart(s), StripEnd(s);
    assert a <= lo && hi <= b;
    SliceOfSlice(s, a, b, lo - a, hi - a);
    ContainsAt(Strip(s), s[lo..hi], lo - a);
  }

  /** A stretch of a window `s[a:b]` is the same stretch of `s`, shifted by `a`. */
  lemma SliceWithin(s: string, a: nat, b: nat, c: nat, d: nat)
    requires c < d && a + d <= Min(b, |s|)
    ensures Slice(s, a, b)[c..d] == s[a + c..a + d]
    ensures Slice(s, a, b)[c] == s[a + c] && Slice(s, a, b)[d - 1] == s[a + d - 1]
  {
    SliceIs(s, a, b);
    SliceOfSlice(s, a, Min(b, |s|), c, d);
  }

  lemma SliceOfSlice(s: string, a: nat, b: nat, c: nat, d: nat)
    requires a <= b <= |s| && c <= d <= b - a
    ensures s[a..b][c..d] == s[a + c..a + d]
  {
    assert forall k :: 0 <= k < d - c ==> s[a..b][c..d][k] == s[a + c + k];
  }

  /** Python's `s.replace("\n", " ")`. */
  function ReplaceNewlines(s: string): (r: string)
    ensures |r| == |s|
    ensures forall i :: 0 <= i < |s| ==> r[i] == if s[i] == '\n' then ' ' else s[i]
  {
    seq(|s|, i requires 0 <= i < |s| => if s[i] == '\n' then ' ' else s[i])
  }

  /** The non-whitespace characters of `s`, in order. */
  function NonSpace(s: string): (r: string)
    ensures |r| <= |s|
    ensures forall i :: 0 <= i < |r| ==> !IsSpace(r[i])
  {
    if s == [] then []
    else (if IsSpace(s[0]) then [] else [s[0]]) + NonSpace(s[1..])
  }

  lemma {:induction false} NonSpaceConcat(a: string, b: string)
    ensures NonSpace(a + b) == NonSpace(a) + NonSpace(b)
  {
    if a == [] {
      assert a + b == b;
    } else {
      assert (a + b)[0] == a[0];
      assert (a + b)[1..] == a[1..] + b;
      NonSpaceConcat(a[1..], b);
    }
  }

  // ---------------------------------------------------------------------------
  // Words: the maximal runs of non-whitespace characters

  /** The length of the run of non-whitespace characters at the start of `s`. */
  function WordLength(s: string): (n: nat)
    ensures n <= |s|
    ensures forall k :: 0 <= k < n ==> !IsSpace(s[k])
    ensures n < |s| ==> IsSpace(s[n])
    decreases |s|
  {
    if s == [] || IsSpace(s[0]) then 0
    else
      var n := 1 + WordLength(s[1..]);
      assert forall k :: 1 <= k < n ==> s[k] == s[1..][k - 1];
      n
  }

  /** No character of `w` is whitespace. */
  predicate NoSpace(w: string) {
    forall k :: 0 <= k < |w| ==> !IsSpace(w[k])
  }

  /** Python's `s.split()`: the maximal runs of non-whitespace characters, in order. */
  function Words(s: string): (ws: seq<string>)
    ensures forall i :: 0 <= i < |ws| ==> ws[i] != [] && NoSpace(ws[i])
    decreases |s|
  {
    if s == [] then []
    else if IsSpace(s[0]) then Words(s[1..])
    else
      var n := WordLength(s);
      var rest := Words(s[n..]);
      assert forall i :: 1 <= i < |[s[..n]] + rest| ==> ([s[..n]] + rest)[i] == rest[i - 1];
      [s[..n]] + rest
  }

  /** Python's `" ".join(ws)`. */
  function Unwords(ws: seq<string>): string {
    if ws == [] then [] else if |ws| == 1 then ws[0] else ws[0] + " " + Unwords(ws[1..])
  }

  /** `s` is what comes before index `n`, the character at `n`, and what comes after. */
  lemma SplitAround(s: string, n: nat)
    requires n < |s|
    ensures s == s[..n] + [s[n]] + s[n + 1..]
  {
  }

  lemma UnwordsCons(w: string, ws: seq<string>)
    requires ws != []
    ensures Unwords([w] + ws) == w + " " + Unwords(ws)
  {
    assert ([w] + ws)[1..] == ws;
  }

  /** A leading whitespace character does not change the words. */
  lemma WordsSpaceCons(c: char, s: string)
    requires IsSpace(c)
    ensures Words([c] + s) == Words(s)
  {
    assert ([c] + s)[1..] == s;
  }

  /** A leading non-whitespace character joins the first word when `s` starts with
      one, and is a word of its own otherwise. */
  lemma WordsCons(c: char, s: string)
    requires !IsSpace(c)
    ensures s == [] || IsSpace(s[0]) ==> Words([c] + s) == [[c]] + Words(s)
    ensures s != [] && !IsSpace(s[0]) ==>
              Words(s) != [] && Words([c] + s) == [[c] + Words(s)[0]] + Words(s)[1..]
  {
    var t := [c] + s;
    assert t[1..] == s;
    var n := WordLength(s);
    assert WordLength(t) == 1 + n;
    assert t[..1 + n] == [c] + s[..n];
    assert t[1 + n..] == s[n..];
  }

  /** Leading whitespace does not change the words. */
  lemma {:induction false} WordsDropSpaces(s: string, n: nat)
    requires n <= |s|
    requires forall k :: 0 <= k < n ==> IsSpace(s[k])
    ensures Words(s[n..]) == Words(s)
    decreases n
  {
    if n > 0 {
      assert s[1..][n - 1..] == s[n..];
      WordsDropSpaces(s[1..], n - 1);
    }
  }

  /** Trailing whitespace does not change the words. */
  lemma {:induction false} WordsAppendSpaces(x: string, y: string)
    requires forall k :: 0 <= k < |y| ==> IsSpace(y[k])
    ensures Words(x + y) == Words(x)
    decreases |x|
  {
    if x == [] {
      assert x + y == y;
      assert y[|y|..] == [];
      WordsDropSpaces(y, |y|);
    } else if IsSpace(x[0]) {
      assert (x + y)[1..] == x[1..] + y;
      WordsAppendSpaces(x[1..], y);
    } else {
      var n := WordLength(x);
      assert WordLength(x + y) == n by {
        WordLengthAppend(x, y);
      }
      assert (x + y)[..n] == x[..n];
      assert (x + y)[n..] == x[n..] + y;
      WordsAppendSpaces(x[n..], y);
    }
  }

  lemma {:induction false} WordLengthAppend(x: string, y: string)
    requires y == [] || IsSpace(y[0])
    ensures WordLength(x + y) == WordLength(x)
    decreases |x|
  {
    if x == [] {
      assert x + y == y;
    } else if !IsSpace(x[0]) {
      assert (x + y)[1..] == x[1..] + y;
      WordLengthAppend(x[1..], y);
    }
  }

  /** `strip()` keeps the words. */
  lemma WordsStrip(s: string)
    ensures Words(Strip(s)) == Words(s)
  {
    StripIsSlice(s);
    var a, b := StripStart(s), StripEnd(s);
    WordsDropSpaces(s, a);
    var u := s[a..];
    assert u == s[a..b] + s[b..];
    assert forall k :: 0 <= k < |s[b..]| ==> IsSpace(s[b..][k]) by {
      forall k | 0 <= k < |s[b..]| ensures IsSpace(s[b..][k]) {
        assert s[b..][k] == s[b + k];
      }
    }
    WordsAppendSpaces(s[a..b], s[b..]);
  }

  predicate AllAsciiDigits(s: string) {
    forall i :: 0 <= i < |s| ==> IsAsciiDigit(s[i])
  }

  function Pow10(n: nat): (r: nat)
    ensures r >= 1
  {
    if n == 0 then 1 else 10 * Pow10(n - 1)
  }

  /** Python's `int(s)` for a non-empty string of ASCII digits (leading zeros are dropped). */
  function DigitsValue(s: string): (r: nat)
    requires AllAsciiDigits(s)
    ensures r < Pow10(|s|)
  {
    if s == [] then 0
    else 10 * DigitsValue(s[..|s| - 1]) + (s[|s| - 1] as int - '0' as int)
  }

  /** `int` of four ASCII digits, written out. */
  lemma FourDigitsValue(s: string)
    requires |s| == 4 && AllAsciiDigits(s)
    ensures DigitsValue(s) == 1000 * (s[0] as int - '0' as int) + 100 * (s[1] as int - '0' as int)
                              + 10 * (s[2] as int - '0' as int) + (s[3] as int - '0' as int)
  {
    var d0, d1, d2 := s[0] as int - '0' as int, s[1] as int - '0' as int, s[2] as int - '0' as int;
    assert s[..3][..2] == s[..2] && s[..2][..1] == s[..1] && s[..1][..0] == [];
    assert DigitsValue(s[..1]) == d0;
    assert DigitsValue(s[..2]) == 10 * d0 + d1;
    assert DigitsValue(s[..3]) == 100 * d0 + 10 * d1 + d2;
  }
}
