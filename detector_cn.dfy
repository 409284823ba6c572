/**
 * The Chinese service detector: plain substring search for every phrase, a negation
 * rule that looks at the whole text, at most twenty evidence snippets per category,
 * the type counts and the per-year batch driver.
 *
 * The keyword dictionary and the type table come from a configuration module that is
 * not part of this model, so they are parameters: the categories `cats` (distinct ids,
 * non-empty phrases) and the type table as its key order `typeKeys` and its entries
 * `types`, whose keys must be category ids (the counts read `flags[cat]` for them).
 */
module DetectorCn {
  import opened Text
  import opened Taxonomy
  import opened Rows

  const NegationPatterns: seq<string> := ["不提供", "未提供", "不再提供"]

  /** At most this many snippets are kept per category. */
  const MaxSnippetsPerCat: nat := 20

  /** Characters taken on each side of an occurrence for its snippet. */
  const Window: nat := 60

  // ---------------------------------------------------------------------------
  // Negation

  /** `_is_negated(text, phrase)`: a negation prefix immediately followed by the phrase
      occurs somewhere in the text. */
  predicate Negated(text: string, phrase: string) {
    exists neg :: neg in NegationPatterns && Contains(text, neg + phrase)
  }

  /** `_is_negated`, trying the prefixes in order and stopping at the first hit. */
  method IsNegated(text: string, phrase: string) returns (b: bool)
    ensures b == Negated(text, phrase)
  {
    for i := 0 to |NegationPatterns|
      invariant forall k :: 0 <= k < i ==> !Contains(text, NegationPatterns[k] + phrase)
    {
      if Contains(text, NegationPatterns[i] + phrase) {
        return true;
      }
    }
    return false;
  }

  /** A negated phrase contributes no snippet, wherever it occurs; a phrase that is not
      negated contributes one snippet per occurrence found. */
  lemma NegationSuppressesAll(text: string, phrase: string)
    requires phrase != []
    ensures Negated(text, phrase) ==> PhraseSnippets(text, phrase) == []
    ensures !Negated(text, phrase) ==> |PhraseSnippets(text, phrase)| == |Occurrences(text, phrase, 0)|
  {
  }

  /** The rule ignores where the occurrence is: one "不提供" + phrase anywhere suppresses
      the phrase everywhere, also where it appears on its own, as at index 6 here. */
  lemma NegationIsGlobal()
    ensures Negated("不提供维修。维修", "维修")
    ensures OccursAt("不提供维修。维修", "维修", 6)
    ensures PhraseSnippets("不提供维修。维修", "维修") == []
  {
    assert OccursAt("不提供维修。维修", "不提供" + "维修", 0);
  }

  // ---------------------------------------------------------------------------
  // Occurrences and snippets

  /** The positions the `str.find` loop stops at, searching from `from`: each found
      position, the search resuming just after the phrase. */
  function Occurrences(text: string, phrase: string, from: nat): (r: seq<nat>)
    requires phrase != []
    ensures forall i :: 0 <= i < |r| ==> from <= r[i] && OccursAt(text, phrase, r[i])
    decreases |text| - from
  {
    var i := Find(text, phrase, from);
    if i == -1 then []
    else
      var rest := Occurrences(text, phrase, i + |phrase|);
      [i as nat] + rest
  }

  /** Occurrences come left to right and never overlap. */
  lemma {:induction false} OccurrencesApart(text: string, phrase: string, from: nat)
    requires phrase != []
    ensures forall i, k :: 0 <= i < k < |Occurrences(text, phrase, from)| ==>
              Occurrences(text, phrase, from)[i] + |phrase| <= Occurrences(text, phrase, from)[k]
    decreases |text| - from
  {
    var i := Find(text, phrase, from);
    if i != -1 {
      OccurrencesApart(text, phrase, i + |phrase|);
      var r := Occurrences(text, phrase, from);
      var rest := Occurrences(text, phrase, i + |phrase|);
      assert r == [i as nat] + rest;
      assert forall k :: 1 <= k < |r| ==> r[k] == rest[k - 1];
    }
  }

  /** No occurrence is skipped unless it overlaps the previous one found: every place the
      phrase occurs at or after `from` is found, or lies inside an occurrence found before it. */
  lemma {:induction false} OccurrencesComplete(text: string, phrase: string, from: nat, k: nat)
    requires phrase != []
    requires from <= k && OccursAt(text, phrase, k)
    ensures exists i :: 0 <= i < |Occurrences(text, phrase, from)|
              && Occurrences(text, phrase, from)[i] <= k < Occurrences(text, phrase, from)[i] + |phrase|
    decreases |text| - from
  {
    var i := Find(text, phrase, from);
    var r := Occurrences(text, phrase, from);
    assert i != -1;
    var rest := Occurrences(text, phrase, i + |phrase|);
    assert r == [i as nat] + rest;
    if k >= i + |phrase| {
      OccurrencesComplete(text, phrase, i + |phrase|, k);
      var m :| 0 <= m < |rest| && rest[m] <= k < rest[m] + |phrase|;
      assert r[m + 1] == rest[m];
    } else {
      assert r[0] == i;
    }
  }

  /** The phrase is found exactly when it occurs in the text. */
  lemma OccurrencesEmpty(text: string, phrase: string)
    requires phrase != []
    ensures Occurrences(text, phrase, 0) == [] <==> !Contains(text, phrase)
  {
    if Contains(text, phrase) {
      var k: nat :| k <= |text| - |phrase| && OccursAt(text, phrase, k);
      OccurrencesComplete(text, phrase, 0, k);
    }
  }

  /** `text[max(0, idx - 60):min(len(text), idx + len(phrase) + 60)].replace("\n", " ")` */
  function CnSnippet(text: string, idx: nat, phrase: string): (r: string)
    ensures |r| <= |phrase| + 2 * Window
  {
    ReplaceNewlines(Slice(text, Clamp0(idx - Window), idx + |phrase| + Window))
  }

  /** The snippets recorded for the occurrences at `positions`: none when the phrase is
      negated, one per occurrence otherwise. */
  function Shown(text: string, phrase: string, positions: seq<nat>): (r: seq<string>)
    ensures |r| <= |positions|
  {
    if Negated(text, phrase) then []
    else seq(|positions|, i requires 0 <= i < |positions| => CnSnippet(text, positions[i], phrase))
  }

  /** Every snippet a phrase can contribute. */
  function PhraseSnippets(text: string, phrase: string): seq<string>
    requires phrase != []
  {
    Shown(text, phrase, Occurrences(text, phrase, 0))
  }

  /** Every snippet a category's phrases contribute, phrase by phrase in list order; each
      phrase is searched on its own, so phrases that overlap in the text all contribute. */
  function CategorySnippets(text: string, phrases: seq<string>): seq<string>
    requires forall i :: 0 <= i < |phrases| ==> phrases[i] != []
  {
    if phrases == [] then []
    else CategorySnippets(text, phrases[..|phrases| - 1]) + PhraseSnippets(text, phrases[|phrases| - 1])
  }

  /** The first `n` entries of `s`, or all of them when there are fewer. */
  function Cap(s: seq<string>, n: nat): (r: seq<string>)
    ensures |r| == if |s| <= n then |s| else n
    ensures r == s[..|r|]
  {
    if |s| <= n then s else s[..n]
  }

  /** The evidence kept for one category: the first twenty snippets. */
  function CategoryEvidenceCn(text: string, cat: Category): seq<string>
    requires Scannable(cat)
  {
    assert forall i :: 0 <= i < |cat.phrases| ==> cat.phrases[i] in cat.phrases;
    Cap(CategorySnippets(text, cat.phrases), MaxSnippetsPerCat)
  }

  /** The evidence of every category, in dictionary order. */
  function AllEvidenceCn(cats: seq<Category>, text: string): (r: seq<seq<string>>)
    requires WellFormed(cats)
    ensures |r| == |cats|
    ensures forall i :: 0 <= i < |cats| ==> r[i] == CategoryEvidenceCn(text, cats[i])
  {
    seq(|cats|, i requires 0 <= i < |cats| => CategoryEvidenceCn(text, cats[i]))
  }

  // ---------------------------------------------------------------------------
  // The scan

  lemma ShownSnoc(text: string, phrase: string, seen: seq<nat>, k: nat)
    ensures Shown(text, phrase, seen + [k]) ==
              if Negated(text, phrase) then [] else Shown(text, phrase, seen) + [CnSnippet(text, k, phrase)]
  {
  }

  /** Appending to a capped list: kept while there is room, dropped once it is full. */
  lemma CapSnoc(s: seq<string>, x: string, n: nat)
    ensures Cap(s + [x], n) == if |Cap(s, n)| < n then Cap(s, n) + [x] else Cap(s, n)
  {
    if |Cap(s, n)| < n {
      assert s + [x] == Cap(s, n) + [x];
    } else {
      assert (s + [x])[..n] == s[..n];
    }
  }

  /** The capped evidence after one more occurrence of a phrase that is not negated: its
      snippet is added while there are fewer than twenty. */
  lemma CapStep(pre: seq<string>, text: string, phrase: string, seen: seq<nat>, at: nat)
    requires !Negated(text, phrase)
    ensures var before := Cap(pre + Shown(text, phrase, seen), MaxSnippetsPerCat);
            Cap(pre + Shown(text, phrase, seen + [at]), MaxSnippetsPerCat) ==
              if |before| < MaxSnippetsPerCat then before + [CnSnippet(text, at, phrase)] else before
  {
    var shown := Shown(text, phrase, seen);
    var x := CnSnippet(text, at, phrase);
    ShownSnoc(text, phrase, seen, at);
    assert pre + (shown + [x]) == (pre + shown) + [x];
    CapSnoc(pre + shown, x, MaxSnippetsPerCat);
  }

  /** One more `find` step: the occurrence found at `at` moves from the ones still ahead
      to the ones seen. */
  lemma OccurrencesStep(text: string, phrase: string, seen: seq<nat>, from: nat, at: nat,
                        seen': seq<nat>, next: nat)
    requires phrase != []
    requires Occurrences(text, phrase, 0) == seen + Occurrences(text, phrase, from)
    requires Find(text, phrase, from) == at
    requires seen' == seen + [at] && next == at + |phrase|
    ensures next <= |text|
    ensures Occurrences(text, phrase, 0) == seen' + Occurrences(text, phrase, next)
  {
    assert Occurrences(text, phrase, from) == [at] + Occurrences(text, phrase, next);
  }

  /** The hit branch of `classify_services_cn` for an occurrence at `at` of a phrase that
      is not negated: the flag is set and, while there are fewer than twenty, the snippet
      is appended. The entry is
      read as `len(evidence[cat])` on a `defaultdict`, which may create it empty, but an
      entry created that way is appended to at once. */
  method RecordHit(cats: seq<Category>, j: nat, text: string, phrase: string, at: nat,
                   ghost pre: seq<string>, ghost seen: seq<nat>, ghost base: seq<seq<string>>,
                   flags0: map<string, int>, evidence0: map<string, seq<string>>, ghost exp0: seq<seq<string>>)
    returns (flags: map<string, int>, evidence: map<string, seq<string>>, ghost exp: seq<seq<string>>)
    requires DistinctIds(cats) && j < |cats| == |base| && !Negated(text, phrase)
    requires Reflects(cats, flags0, evidence0, exp0)
    requires exp0 == base[j := Cap(pre + Shown(text, phrase, seen), MaxSnippetsPerCat)]
    ensures Reflects(cats, flags, evidence, exp)
    ensures exp == base[j := Cap(pre + Shown(text, phrase, seen + [at]), MaxSnippetsPerCat)]
  {
    var cat := cats[j].id;
    var snippet := CnSnippet(text, at, phrase);
    CapStep(pre, text, phrase, seen, at);
    var current := if cat in evidence0 then evidence0[cat] else [];
    flags := flags0[cat := 1];
    if |current| < MaxSnippetsPerCat {
      ReflectsAppend(cats, flags0, evidence0, exp0, j, snippet);
      UpdateTwice(base, j, exp0[j], exp0[j] + [snippet]);
      evidence := Append(evidence0, cat, snippet);
      exp := exp0[j := exp0[j] + [snippet]];
    } else {
      assert flags == flags0;
      evidence, exp := evidence0, exp0;
    }
  }

  /** The `find` loop of `classify_services_cn` for one phrase of category `j`: every
      occurrence in turn; a negated phrase skips it, any other is recorded. */
  method ScanPhrase(cats: seq<Category>, j: nat, text: string, phrase: string, ghost pre: seq<string>,
                    flags0: map<string, int>, evidence0: map<string, seq<string>>, ghost exp0: seq<seq<string>>)
    returns (flags: map<string, int>, evidence: map<string, seq<string>>, ghost exp: seq<seq<string>>)
    requires DistinctIds(cats) && j < |cats| && phrase != []
    requires Reflects(cats, flags0, evidence0, exp0) && exp0[j] == Cap(pre, MaxSnippetsPerCat)
    ensures Reflects(cats, flags, evidence, exp)
    ensures exp == exp0[j := Cap(pre + PhraseSnippets(text, phrase), MaxSnippetsPerCat)]
  {
    flags, evidence, exp := flags0, evidence0, exp0;
    var idx: int := 0;
    ghost var seen: seq<nat> := [];
    assert pre + Shown(text, phrase, seen) == pre;
    assert exp0[j := exp0[j]] == exp0;
    while true
      invariant 0 <= idx <= |text| + 1
      invariant Occurrences(text, phrase, 0) == seen + Occurrences(text, phrase, idx)
      invariant Reflects(cats, flags, evidence, exp)
      invariant exp == exp0[j := Cap(pre + Shown(text, phrase, seen), MaxSnippetsPerCat)]
      decreases |text| + 1 - idx
    {
      var from: nat := idx;
      idx := Find(text, phrase, from);
      if idx == -1 {
        assert seen == Occurrences(text, phrase, 0);
        break;
      }
      var at: nat := idx;
      ghost var seenBefore := seen;
      var negated := IsNegated(text, phrase);
      if negated {
        ShownSnoc(text, phrase, seen, at);
      } else {
        flags, evidence, exp := RecordHit(cats, j, text, phrase, at, pre, seen, exp0, flags, evidence, exp);
      }
      seen := seen + [at];
      idx := at + |phrase|;
      OccurrencesStep(text, phrase, seenBefore, from, at, seen, idx);
    }
  }

  lemma CategorySnippetsSnoc(text: string, phrases: seq<string>, q: nat)
    requires q < |phrases| && forall i :: 0 <= i < |phrases| ==> phrases[i] != []
    ensures CategorySnippets(text, phrases[..q + 1]) == CategorySnippets(text, phrases[..q]) + PhraseSnippets(text, phrases[q])
  {
    assert phrases[..q + 1][..q] == phrases[..q];
  }

  /** The phrase loop of `classify_services_cn` for category `j`: its phrases in list order. */
  method ScanCategoryCn(cats: seq<Category>, j: nat, text: string,
                        flags0: map<string, int>, evidence0: map<string, seq<string>>, ghost exp0: seq<seq<string>>)
    returns (flags: map<string, int>, evidence: map<string, seq<string>>, ghost exp: seq<seq<string>>)
    requires DistinctIds(cats) && j < |cats| && Scannable(cats[j])
    requires Reflects(cats, flags0, evidence0, exp0) && exp0[j] == []
    ensures Reflects(cats, flags, evidence, exp)
    ensures exp == exp0[j := CategoryEvidenceCn(text, cats[j])]
  {
    flags, evidence, exp := flags0, evidence0, exp0;
    var phrases := cats[j].phrases;
    assert forall i :: 0 <= i < |phrases| ==> phrases[i] in phrases;
    assert phrases[..0] == [];
    assert exp0[j := Cap(CategorySnippets(text, phrases[..0]), MaxSnippetsPerCat)] == exp0;
    for q := 0 to |phrases|
      invariant Reflects(cats, flags, evidence, exp)
      invariant exp == exp0[j := Cap(CategorySnippets(text, phrases[..q]), MaxSnippetsPerCat)]
    {
      CategorySnippetsSnoc(text, phrases, q);
      ghost var before := exp;
      flags, evidence, exp := ScanPhrase(cats, j, text, phrases[q], CategorySnippets(text, phrases[..q]),
                                         flags, evidence, exp);
      UpdateTwice(exp0, j, before[j], exp[j]);
    }
    assert phrases[..|phrases|] == phrases;
  }

  /** Category `j` inside the pass over all categories. */
  method ScanIntoCn(cats: seq<Category>, j: nat, text: string,
                    flags0: map<string, int>, evidence0: map<string, seq<string>>, ghost exp0: seq<seq<string>>,
                    ghost done: seq<seq<string>>, ghost pending: seq<seq<string>>)
    returns (flags: map<string, int>, evidence: map<string, seq<string>>, ghost exp: seq<seq<string>>)
    requires WellFormed(cats) && j < |cats|
    requires done == AllEvidenceCn(cats, text) && pending == seq(|cats|, i => [])
    requires Reflects(cats, flags0, evidence0, exp0) && Settled(exp0, done, pending, j)
    ensures Reflects(cats, flags, evidence, exp)
    ensures Settled(exp, done, pending, j + 1)
  {
    flags, evidence, exp := ScanCategoryCn(cats, j, text, flags0, evidence0, exp0);
    SettleStep(exp0, exp, done, pending, j);
  }

  // ---------------------------------------------------------------------------
  // Counts

  /** `sum(flags[cat] for cat, t in CATEGORY_TYPE_CN.items() if t == type)`. */
  function SumTyped(typeKeys: seq<string>, types: map<string, string>, flags: map<string, int>, t: string): (r: int)
    requires forall i :: 0 <= i < |typeKeys| ==> typeKeys[i] in types && typeKeys[i] in flags
    ensures Bits(flags) ==> 0 <= r <= |typeKeys|
  {
    if typeKeys == [] then 0
    else
      var k := typeKeys[|typeKeys| - 1];
      SumTyped(typeKeys[..|typeKeys| - 1], types, flags, t) + (if types[k] == t then flags[k] else 0)
  }

  /** The keys among `keys` that the type table lists with type `t` and whose flag is 1. */
  function TypedFlagged(keys: seq<string>, types: map<string, string>, flags: map<string, int>, t: string)
    : set<string>
  {
    set k | k in keys && k in types && types[k] == t && k in flags && flags[k] == 1
  }

  /** With 0/1 flags, a type's sum counts the flagged categories the table lists with it. */
  lemma {:induction false} SumTypedCounts(typeKeys: seq<string>, types: map<string, string>,
                                          flags: map<string, int>, t: string)
    requires forall i :: 0 <= i < |typeKeys| ==> typeKeys[i] in types && typeKeys[i] in flags
    requires forall i, j :: 0 <= i < j < |typeKeys| ==> typeKeys[i] != typeKeys[j]
    requires Bits(flags)
    ensures SumTyped(typeKeys, types, flags, t) == |TypedFlagged(typeKeys, types, flags, t)|
  {
    if typeKeys != [] {
      var init, last := typeKeys[..|typeKeys| - 1], typeKeys[|typeKeys| - 1];
      SumTypedCounts(init, types, flags, t);
      var before := TypedFlagged(init, types, flags, t);
      assert last !in init;
      assert forall k :: k in typeKeys <==> k in init || k == last;
      if types[last] == t && flags[last] == 1 {
        assert TypedFlagged(typeKeys, types, flags, t) == before + {last};
      } else {
        assert TypedFlagged(typeKeys, types, flags, t) == before;
      }
    } else {
      assert TypedFlagged(typeKeys, types, flags, t) == {};
    }
  }

  /** A category the type table does not list counts in neither type. */
  lemma {:induction false} UnlistedCountsInNeither(typeKeys: seq<string>, types: map<string, string>,
                                                   flags: map<string, int>, c: string, v: int, t: string)
    requires forall i :: 0 <= i < |typeKeys| ==> typeKeys[i] in types && typeKeys[i] in flags
    requires c !in types
    ensures SumTyped(typeKeys, types, flags[c := v], t) == SumTyped(typeKeys, types, flags, t)
  {
    if typeKeys != [] {
      UnlistedCountsInNeither(typeKeys[..|typeKeys| - 1], types, flags, c, v, t);
    }
  }

  /** With 0/1 flags the two type counts together never exceed the number of flagged
      categories, and they add up to it when the table lists every category with one of
      the two types. */
  lemma CountsWithinServices(cats: seq<Category>, typeKeys: seq<string>, types: map<string, string>,
                             flags: map<string, int>)
    requires DistinctIds(cats) && flags.Keys == Ids(cats) && Bits(flags)
    requires KeyOrder(typeKeys, types) && types.Keys <= Ids(cats)
    ensures SumTyped(typeKeys, types, flags, Complementing) + SumTyped(typeKeys, types, flags, Substituting)
              <= SumFlags(IdSeq(cats), flags)
    ensures types.Keys == Ids(cats) && KnownTypes(types) ==>
              SumTyped(typeKeys, types, flags, Complementing) + SumTyped(typeKeys, types, flags, Substituting)
                == SumFlags(IdSeq(cats), flags)
  {
    var keys := IdSeq(cats);
    IdSeqDistinct(cats);
    SumCountsOnes(keys, flags);
    SumTypedCounts(typeKeys, types, flags, Complementing);
    SumTypedCounts(typeKeys, types, flags, Substituting);
    TypedWithinFlagged(cats, typeKeys, types, flags);
  }

  lemma IdSeqDistinct(cats: seq<Category>)
    requires DistinctIds(cats)
    ensures forall i, j :: 0 <= i < j < |IdSeq(cats)| ==> IdSeq(cats)[i] != IdSeq(cats)[j]
    ensures forall k :: k in IdSeq(cats) <==> k in Ids(cats)
  {
    forall k | k in Ids(cats) ensures k in IdSeq(cats) {
      var i := IndexOf(cats, k);
      assert IdSeq(cats)[i] == k;
    }
  }

  /** The two typed sets are disjoint parts of the flagged categories, all of them when
      every category is listed with one of the two types. */
  lemma TypedWithinFlagged(cats: seq<Category>, typeKeys: seq<string>, types: map<string, string>,
                           flags: map<string, int>)
    requires flags.Keys == Ids(cats) && Bits(flags)
    requires KeyOrder(typeKeys, types) && types.Keys <= Ids(cats)
    requires forall k :: k in IdSeq(cats) <==> k in Ids(cats)
    ensures |TypedFlagged(typeKeys, types, flags, Complementing)| + |TypedFlagged(typeKeys, types, flags, Substituting)|
              <= |set k | k in IdSeq(cats) && flags[k] == 1|
    ensures types.Keys == Ids(cats) && KnownTypes(types) ==>
              |TypedFlagged(typeKeys, types, flags, Complementing)| + |TypedFlagged(typeKeys, types, flags, Substituting)|
                == |set k | k in IdSeq(cats) && flags[k] == 1|
  {
    var all := set k | k in IdSeq(cats) && flags[k] == 1;
    var comp := TypedFlagged(typeKeys, types, flags, Complementing);
    var sub := TypedFlagged(typeKeys, types, flags, Substituting);
    assert |comp + sub| == |comp| + |sub|;
    SubsetCard(comp + sub, all);
    if types.Keys == Ids(cats) && KnownTypes(types) {
      forall k | k in all ensures k in comp + sub {
        assert k in types;
      }
      assert comp + sub == all;
    }
  }

  lemma SubsetCard(a: set<string>, b: set<string>)
    requires a <= b
    ensures |a| <= |b|
  {
    assert b == a + (b - a);
  }

  // ---------------------------------------------------------------------------
  // Classification and the batch driver

  /** What `classify_services_cn` returns. */
  datatype Classification = Classification(
    flags: map<string, int>,
    evidence: map<string, seq<string>>,
    compCount: int,
    subCount: int,
    serviceNum: int,
    riskScore: real)

  /** The classification of `text`, stated through the per-category evidence. */
  function ClassificationOf(cats: seq<Category>, typeKeys: seq<string>, types: map<string, string>, text: string)
    : Classification
    requires WellFormed(cats) && KeyOrder(typeKeys, types) && types.Keys <= Ids(cats)
  {
    var ev := AllEvidenceCn(cats, text);
    FlagsMatchEvidence(cats, ev);
    var flags := FlagsFrom(cats, ev);
    var comp := SumTyped(typeKeys, types, flags, Complementing);
    var sub := SumTyped(typeKeys, types, flags, Substituting);
    Classification(flags, EvidenceFrom(cats, ev), comp, sub, SumFlags(IdSeq(cats), flags), RiskScore(sub, comp))
  }

  /** `classify_services_cn(text)` over the keyword dictionary `cats` and the type table
      (`typeKeys`, `types`). */
  method ClassifyServicesCn(cats: seq<Category>, typeKeys: seq<string>, types: map<string, string>, text: string)
    returns (c: Classification)
    requires WellFormed(cats) && KeyOrder(typeKeys, types) && types.Keys <= Ids(cats)
    ensures c == ClassificationOf(cats, typeKeys, types, text)
  {
    var flags := map k | k in Ids(cats) :: 0;
    var evidence := map[];
    ghost var exp := NothingYet(cats, flags);
    ghost var done := AllEvidenceCn(cats, text);
    ghost var pending := exp;
    for j := 0 to |cats|
      invariant Reflects(cats, flags, evidence, exp)
      invariant Settled(exp, done, pending, j)
    {
      flags, evidence, exp := ScanIntoCn(cats, j, text, flags, evidence, exp, done, pending);
    }
    SettledAll(exp, done, pending);
    ReflectsResult(cats, flags, evidence, exp);
    FlagsMatchEvidence(cats, exp);
    var comp := SumTyped(typeKeys, types, flags, Complementing);
    var sub := SumTyped(typeKeys, types, flags, Substituting);
    var serviceNum := SumFlags(IdSeq(cats), flags);
    var risk := RiskScore(sub, comp);
    c := Classification(flags, evidence, comp, sub, serviceNum, risk);
  }

  // ---------------------------------------------------------------------------
  // What the classification says

  /** Some phrase of the list occurs in the text and is not negated. */
  predicate Found(text: string, phrases: seq<string>) {
    exists p :: p in phrases && Contains(text, p) && !Negated(text, p)
  }

  lemma {:induction false} CategorySnippetsEmpty(text: string, phrases: seq<string>)
    requires forall i :: 0 <= i < |phrases| ==> phrases[i] != []
    ensures CategorySnippets(text, phrases) != [] <==> Found(text, phrases)
  {
    if phrases != [] {
      var init, last := phrases[..|phrases| - 1], phrases[|phrases| - 1];
      CategorySnippetsEmpty(text, init);
      OccurrencesEmpty(text, last);
      assert forall p :: p in phrases <==> p in init || p == last;
    }
  }

  /** A category is flagged exactly when one of its phrases occurs in the text without
      being negated, however many occurrences there are beyond the twenty kept. */
  lemma FlagIffFound(cats: seq<Category>, typeKeys: seq<string>, types: map<string, string>, text: string, j: nat)
    requires WellFormed(cats) && KeyOrder(typeKeys, types) && types.Keys <= Ids(cats) && j < |cats|
    ensures var c := ClassificationOf(cats, typeKeys, types, text);
            && (c.flags[cats[j].id] == 1 <==> Found(text, cats[j].phrases))
            && (c.flags[cats[j].id] == 1 <==> cats[j].id in c.evidence)
  {
    assert IndexOf(cats, cats[j].id) == j;
    assert forall i :: 0 <= i < |cats[j].phrases| ==> cats[j].phrases[i] in cats[j].phrases;
    CategorySnippetsEmpty(text, cats[j].phrases);
  }

  /** Each snippet is cut around an occurrence of one of the phrases: at most 120
      characters longer than that phrase. */
  lemma {:induction false} SnippetsNarrow(text: string, phrases: seq<string>)
    requires forall i :: 0 <= i < |phrases| ==> phrases[i] != []
    ensures forall s :: s in CategorySnippets(text, phrases) ==>
              exists p :: p in phrases && |s| <= |p| + 2 * Window
  {
    if phrases != [] {
      var init, last := phrases[..|phrases| - 1], phrases[|phrases| - 1];
      SnippetsNarrow(text, init);
      assert forall p :: p in init ==> p in phrases;
      assert last in phrases;
    }
  }

  /** Every category that has evidence keeps between one and twenty snippets, each at
      most 120 characters longer than one of the category's phrases. */
  lemma EvidenceBounded(cats: seq<Category>, typeKeys: seq<string>, types: map<string, string>, text: string, j: nat)
    requires WellFormed(cats) && KeyOrder(typeKeys, types) && types.Keys <= Ids(cats) && j < |cats|
    ensures var c := ClassificationOf(cats, typeKeys, types, text);
            cats[j].id in c.evidence ==>
              && 1 <= |c.evidence[cats[j].id]| <= MaxSnippetsPerCat
              && forall s :: s in c.evidence[cats[j].id] ==>
                   exists p :: p in cats[j].phrases && |s| <= |p| + 2 * Window
  {
    assert IndexOf(cats, cats[j].id) == j;
    KeptNarrow(text, cats[j]);
  }

  lemma KeptNarrow(text: string, cat: Category)
    requires Scannable(cat)
    ensures forall s :: s in CategoryEvidenceCn(text, cat) ==> exists p :: p in cat.phrases && |s| <= |p| + 2 * Window
  {
    var phrases := cat.phrases;
    assert forall i :: 0 <= i < |phrases| ==> phrases[i] in phrases;
    SnippetsNarrow(text, phrases);
    var all := CategorySnippets(text, phrases);
    var kept := CategoryEvidenceCn(text, cat);
    assert forall s :: s in kept ==> s in all;
  }

  /** Empty text: nothing is flagged, nothing is recorded, every count and the score are 0. */
  lemma EmptyTextFindsNothing(cats: seq<Category>, typeKeys: seq<string>, types: map<string, string>)
    requires WellFormed(cats) && KeyOrder(typeKeys, types) && types.Keys <= Ids(cats)
    ensures var c := ClassificationOf(cats, typeKeys, types, "");
            && (forall k :: k in c.flags ==> c.flags[k] == 0)
            && c.evidence == map[]
            && c.compCount == 0 && c.subCount == 0 && c.serviceNum == 0 && c.riskScore == 0.0
  {
    var c := ClassificationOf(cats, typeKeys, types, "");
    forall j | 0 <= j < |cats| ensures c.flags[cats[j].id] == 0 {
      FlagIffFound(cats, typeKeys, types, "", j);
    }
    forall k | k in c.flags ensures c.flags[k] == 0 {
      var j := IndexOf(cats, k);
    }
    forall k | k in c.evidence ensures false {
      var j := IndexOf(cats, k);
      FlagIffFound(cats, typeKeys, types, "", j);
    }
    NoneFlaggedSumsZero(cats, typeKeys, types, c.flags);
  }

  lemma NoneFlaggedSumsZero(cats: seq<Category>, typeKeys: seq<string>, types: map<string, string>,
                            flags: map<string, int>)
    requires DistinctIds(cats) && flags.Keys == Ids(cats) && forall k :: k in flags ==> flags[k] == 0
    requires KeyOrder(typeKeys, types) && types.Keys <= Ids(cats)
    ensures SumTyped(typeKeys, types, flags, Complementing) == 0
    ensures SumTyped(typeKeys, types, flags, Substituting) == 0
    ensures SumFlags(IdSeq(cats), flags) == 0
  {
    SumTypedCounts(typeKeys, types, flags, Complementing);
    SumTypedCounts(typeKeys, types, flags, Substituting);
    assert TypedFlagged(typeKeys, types, flags, Complementing) == {};
    assert TypedFlagged(typeKeys, types, flags, Substituting) == {};
    IdSeqDistinct(cats);
    SumCountsOnes(IdSeq(cats), flags);
    assert (set k | k in IdSeq(cats) && flags[k] == 1) == {};
  }

  /** The row `process_company_item1s_cn` emits for one year: the classification, unchanged. */
  function CnRow(company: string, year: int, c: Classification): Row {
    Row(company, year, c.serviceNum, c.compCount, c.subCount, c.riskScore, c.flags, c.evidence)
  }

  /** `process_company_item1s_cn(company_id, year_texts)`: one row per year, in ascending
      year order, each carrying that year's classification. */
  method ProcessCompanyItem1sCn(cats: seq<Category>, typeKeys: seq<string>, types: map<string, string>,
                                company: string, texts: map<int, string>)
    returns (rows: seq<Row>)
    requires WellFormed(cats) && KeyOrder(typeKeys, types) && types.Keys <= Ids(cats)
    ensures |rows| == |texts|
    ensures Ascending(rows)
    ensures forall i :: 0 <= i < |rows| ==>
              rows[i].year in texts
              && rows[i] == CnRow(company, rows[i].year, ClassificationOf(cats, typeKeys, types, texts[rows[i].year]))
  {
    var years := SortedYears(texts.Keys);
    ghost var expected := ExpectedRowsCn(cats, typeKeys, types, company, years, texts);
    rows := [];
    for i := 0 to |years|
      invariant rows == expected[..i]
    {
      var c := ClassifyServicesCn(cats, typeKeys, types, texts[years[i]]);
      var row := CnRow(company, years[i], c);
      assert row == expected[i];
      TakeOneMore(expected, i);
      rows := rows + [row];
    }
    TakeOneMore(expected, |years|);
  }

  ghost function ExpectedRowsCn(cats: seq<Category>, typeKeys: seq<string>, types: map<string, string>,
                                company: string, years: seq<int>, texts: map<int, string>): (r: seq<Row>)
    requires WellFormed(cats) && KeyOrder(typeKeys, types) && types.Keys <= Ids(cats)
    requires forall y :: y in years ==> y in texts
    ensures |r| == |years|
    ensures forall k :: 0 <= k < |years| ==>
              r[k] == CnRow(company, years[k], ClassificationOf(cats, typeKeys, types, texts[years[k]]))
  {
    seq(|years|, k requires 0 <= k < |years| =>
          CnRow(company, years[k], ClassificationOf(cats, typeKeys, types, texts[years[k]])))
  }
}
