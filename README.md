# Servitization detection, modelled in Dafny

The system reads the business description (Item 1) of a company's annual reports, one
text per fiscal year. For each text it decides which of thirteen service categories
the company offers. The categories are maintenance and repair, leasing and rental,
performance-based contracts and so on.

It has two engines:

- The **English** engine lower-cases a whitespace-normalised text. It matches each
  category's phrases as whole words, longest phrase first. It drops a match when a
  negation cue ("do not provide", "we don't", ...) occurs within 80 characters of it.
  It keeps a snippet of the text around every accepted match. An optional fallback
  flags a category when one of its single-word phrases is among the text's lemmas.
- The **Chinese** engine looks for each phrase as a plain substring. It discards all
  occurrences of a phrase when a negation prefix ("不提供", ...) directly precedes the
  phrase anywhere in the text. It keeps at most twenty snippets per category.

Both engines flag a category with 1 or 0. Complementing and substituting categories are
counted separately, and `2.0 * substituting + 0.5 * complementing` gives a
supply-chain risk score. One row is emitted per year, in ascending year order. Two
file-name conventions give the company and the year of an input file:

- `COMPANY_YYYY` for English reports;
- `<code>_<year>_<other fields>` for Chinese reports.

Modules:

- `Wrappers`: `Option`.
- `Text`: the Python string operations the code relies on.
  - `str.find` and `in`;
  - clamped slicing;
  - `strip()` and ASCII `lower()`;
  - `replace("\n", " ")`;
  - four-digit `int()`.
- `Taxonomy`: the English keyword dictionary and category-type table, and their shape.
- `Patterns`: `build_patterns` and the semantics of the compiled pattern.
  - The pattern is `\b(alt1|alt2|...)\b` over the lowered, de-duplicated phrases,
    longest first.
  - It is applied by `finditer`: leftmost match, first alternative that fits, no
    overlap.
- `Rows`: the output row and the pieces both engines share.
  - the flag and evidence dictionaries;
  - flag sums;
  - the risk score;
  - the ascending order of years.
- `Detector`: the English engine, its risk function and its batch driver.
- `DetectorCn`: the Chinese engine and its batch driver.
- `Pipeline` and `PipelineCn`: the two file-name parsers.

The step-by-step code is modelled by methods:

- the scan loops of `classify_services` and `classify_services_cn`;
- the search loop of `_is_negated`;
- `build_patterns`, `compute_supply_chain_risk`, the batch drivers and
  `parse_company_year_cn`.

Each method is proved equal to a function of its inputs. The properties are proved
about those functions.

Where the stated convention and the code disagree, the model follows the code:

- `ParseCompanyYear` also accepts a stem with one trailing newline. Python's `$`
  matches before a final "\n", so `COMPANY_YYYY` is not required to end the stem
  exactly.
- In the Chinese parser the company is whatever precedes the first "_", even an empty
  string.

## Model

| member | source | states |
|---|---|---|
| Text.ContainsIff | src/servitization_cn/detector_cn.py:21 | `pat in s` holds exactly when `pat` occurs in `s` at some index |
| Text.Find | src/servitization_cn/detector_cn.py:43 | `str.find`: -1 when the phrase does not occur at or after `from`, else the first position at or after `from` where it occurs |
| Text.Strip | src/servitization/detector.py:74 | `strip()`: the result is no longer than the input, neither starts nor ends with whitespace, and equals the input when the input is already stripped |
| Text.StripIsSlice | src/servitization/detector.py:74 | `strip()` returns a contiguous slice of its input and cuts only whitespace before and after it |
| Text.SliceIs | src/servitization/detector.py:74 | `s[a:b]` with a non-negative start is the characters from `a` up to `min(b, len(s))` |
| Text.StripKeeps | src/servitization/detector.py:74 | stripping a window never loses a part of it that starts and ends on non-space characters |
| Text.DigitsValue | src/servitization_cn/pipeline_cn.py:35 | `int()` of a string of ASCII digits is below 10 to the power of its length |
| Text.FourDigitsValue | src/servitization_cn/pipeline_cn.py:35 | `int()` of four digits is their positional decimal value |
| Taxonomy.KeywordsShape | src/servitization/config_keywords.py:3-114 | thirteen categories with distinct ids; the keyword dictionary and the type table have the same keys |
| Taxonomy.CategoryTypes | src/servitization/config_keywords.py:100-114 | every type is "complementing" or "substituting"; exactly leasing, performance-based contracts and recycling are substituting |
| Taxonomy.PhrasesShape | src/servitization/config_keywords.py:3-98 | every category has phrases, and every phrase starts and ends with a letter or digit, so `\b` can hold at both ends |
| Taxonomy.FeePerUseShared | src/servitization/config_keywords.py:23 | "fee per use" is listed under both leasing and performance-based contracts, so one mention can flag both |
| Taxonomy.AasIsLowerCased | src/servitization/config_keywords.py:24 | the phrase "aaS" is not lower case and is matched as "aas" |
| Patterns.Dedup | src/servitization/detector.py:18 | `set(phrases)`: the same phrases, each once |
| Patterns.SortLongestFirst | src/servitization/detector.py:18 | `sorted(key=-len)`: non-increasing length, and a permutation of the input |
| Patterns.Alternatives | src/servitization/detector.py:18-19 | the alternatives are exactly the lowered phrases, longest first, and there are no more of them than phrases |
| Patterns.BuildPatterns | src/servitization/detector.py:15-21 | one pattern per category, in dictionary order and under its id; each pattern's alternatives are longest first and are exactly the category's lowered phrases |
| Patterns.MatchAtSpec | src/servitization/detector.py:20 | at a position the pattern fails iff no alternative fits there between word boundaries; otherwise the first alternative in order that fits determines the match end |
| Patterns.Matches | src/servitization/detector.py:67 | `finditer` yields non-empty spans inside the text, in order and without overlap |
| Patterns.MatchesAreMatches | src/servitization/detector.py:67 | every span `finditer` yields is an alternative that fits between word boundaries at the span's start |
| Patterns.MatchesOrdered | src/servitization/detector.py:67 | the spans `finditer` yields are strictly increasing and disjoint |
| Patterns.MatchesComplete | src/servitization/detector.py:67 | every position where some alternative fits lies inside one of the yielded spans |
| Patterns.MatchAtLongest | src/servitization/detector.py:18-20 | with the alternatives longest first, a match is at least as long as any alternative that fits at that position |
| Patterns.SameAlternativesSameMatches | src/servitization/detector.py:18 | the matches depend only on the alternatives, not on how often or in which order within equal lengths the phrases were listed |
| Patterns.BoundedAlnum | src/servitization/detector.py:20 | a match of an alphanumeric-ended phrase has no word character directly before or after it |
| Patterns.LeaseNotInRelease | src/servitization/detector.py:20 | "lease" is not matched inside "release" but is matched as a word |
| Detector.Collapse | src/servitization/detector.py:36 | `re.sub(r"\s+", " ")`: the only whitespace left is single plain spaces; empty iff the input is empty; starts and ends with whitespace iff the input does |
| Detector.CollapseSameWords | src/servitization/detector.py:36 | collapsing keeps the words: none is split, merged or lost, so every whitespace run between two words becomes exactly one space |
| Detector.Preprocess | src/servitization/detector.py:35-36 | the normalised text is single-spaced and stripped |
| Detector.PreprocessJoinsWords | src/servitization/detector.py:35-36 | the normalised text is exactly the words of the input joined by single spaces |
| Detector.NormalizedIsJoin | src/servitization/detector.py:35-36 | single-spaced, stripped text is its own words joined by single spaces |
| Detector.PreprocessOneSpace | src/servitization/detector.py:36 | two words with any non-empty whitespace between them come out as the two words with one space between them |
| Text.Words | src/servitization/detector.py:36 | the words of a text, the maximal runs of non-whitespace characters, are non-empty and contain no whitespace |
| Text.WordsStrip | src/servitization/detector.py:36 | `strip()` keeps the words |
| Detector.PreprocessIdempotent | src/servitization/detector.py:35-36 | normalising twice is the same as normalising once |
| Detector.PreprocessKeepsWords | src/servitization/detector.py:35-36 | normalising keeps every non-whitespace character, in order |
| Detector.PreprocessBlank | src/servitization/detector.py:35-36 | the normalised text is empty iff the input is all whitespace |
| Detector.HasNegationAround | src/servitization/detector.py:39-43 | a match is negated iff some cue occurs in the lowered text wholly between the window ends, `window` characters before its start and after its end, clamped to the text |
| Detector.Accepted | src/servitization/detector.py:69-70 | the accepted matches are exactly those with no negation cue around them |
| Detector.AcceptedInOrder | src/servitization/detector.py:67-70 | the negation check only leaves matches out: the accepted matches are a sublist of the matches, so matches in text order stay in text order |
| Detector.FirstRootPhrase | src/servitization/detector.py:82-86 | the first phrase, in list order, that is a single word whose lowered form is a root form; all earlier ones are not |
| Detector.FallbackEntryShape | src/servitization/detector.py:82-86 | the fallback adds nothing when no single-word phrase is a root form, else exactly one `lemma_match::` entry for the first one |
| Detector.ScanCategory | src/servitization/detector.py:67-75 | after one category's matches are scanned, its entry holds one snippet per accepted match in text order and no other entry changes |
| Detector.FallbackCategory | src/servitization/detector.py:82-86 | an unflagged category gets the fallback entry and no other entry changes |
| Detector.PrimaryPass | src/servitization/detector.py:66-75 | after the first pass every category's evidence is its accepted-match snippets and its flag says whether there are any |
| Detector.FallbackPass | src/servitization/detector.py:78-86 | after the fallback the dictionaries hold the evidence with the fallback applied |
| Detector.ClassifyServices | src/servitization/detector.py:53-88 | the two returned dictionaries are the flags and the evidence of the normalised text; root forms are consulted only when the fallback is on |
| Detector.FlagWithoutFallback | src/servitization/detector.py:66-75 | without the fallback a category is flagged iff its pattern has a match with no negation cue around it |
| Detector.FallbackOnlyAdds | src/servitization/detector.py:78-86 | the fallback never clears a flag or changes existing evidence; a newly flagged category gets only the fallback entry |
| Detector.NoRootFormsNoChange | src/servitization/detector.py:46-48 | with the lemmatiser off (no root forms) the fallback changes nothing |
| Detector.BlankTextFindsNothing | src/servitization/detector.py:59-88 | a blank text flags nothing and records no evidence |
| Detector.Snippet | src/servitization/detector.py:72-74 | a snippet is no longer than the window clamped to the text, and has no whitespace at either end |
| Detector.SnippetInWindow | src/servitization/detector.py:72-74 | a snippet is a stretch of the clamped window around its match, with only whitespace cut at either end |
| Detector.SnippetHoldsMatch | src/servitization/detector.py:72-75 | each snippet contains the matched text and is at most `w` characters wider than the match on each side |
| Detector.TypeOf | src/servitization/detector.py:97 | every category has type complementing or substituting, complementing by default |
| Detector.CountFlagged | src/servitization/detector.py:95-101 | the number of flagged categories of a type never exceeds the number of categories |
| Detector.ComputeSupplyChainRisk | src/servitization/detector.py:91-103 | the score weighs the flagged substituting categories by 2 and every other flagged category by 0.5 |
| Detector.OtherIsComplementing | src/servitization/detector.py:97-101 | the "every other type" count of the risk function equals the complementing count of the row |
| Detector.CountsSplitSum | src/servitization/detector.py:118-128 | `service_num` equals the complementing count plus the substituting count |
| Detector.FlagSums | src/servitization/detector.py:118-128 | with 0/1 flags, `sum(flags.values())` is the number of flagged categories and the complementing count plus the substituting count, and the risk function's "every other type" count is the complementing count |
| Detector.RowCounts | src/servitization/detector.py:118-141 | every row has one 0/1 flag per category, a flag of 1 exactly where there is evidence, `service_num` equal to the number of flagged categories and to `comp_count + sub_count`, and the score weighing the two |
| Detector.ProcessTexts | src/servitization/detector.py:113-143 | one row per year, years strictly ascending, each the classification of that year's text |
| Detector.YearRow | src/servitization/detector.py:114-141 | the row for one year is that year's classification with its counts and score |
| Detector.ProcessCompanyItem1s | src/servitization/detector.py:106-143 | one row per year, in ascending year order, each classifying that year's text against the thirteen categories |
| Rows.RiskScore | src/servitization/detector.py:102 | the score is non-negative, zero iff nothing is flagged, and a whole number of halves |
| Rows.RiskScoreSteps | src/servitization_cn/detector_cn.py:70 | one more substituting service adds 2, one more complementing service 0.5, and four complementing weigh as much as one substituting |
| Rows.SortedYears | src/servitization/detector.py:113 | `sorted(d.items())`: every year once, strictly increasing |
| Rows.SumFlags | src/servitization/detector.py:118 | with 0/1 flags the sum lies between 0 and the number of categories |
| Rows.SumCountsOnes | src/servitization_cn/detector_cn.py:67 | with 0/1 flags and distinct keys the sum is the number of flagged categories |
| Rows.Append | src/servitization/detector.py:75 | a `defaultdict(list)` append: the key exists afterwards, its list gained one entry at the end, and other keys are unchanged |
| Rows.FlagsMatchEvidence | src/servitization_cn/detector_cn.py:49-54 | one 0/1 flag per category, flag 1 exactly for the categories with evidence, and recorded evidence is never empty |
| DetectorCn.IsNegated | src/servitization_cn/detector_cn.py:14-23 | true iff some negation prefix directly followed by the phrase occurs in the text |
| DetectorCn.NegationSuppressesAll | src/servitization_cn/detector_cn.py:41-55 | a negated phrase contributes no snippet wherever it occurs; one that is not negated contributes one snippet per occurrence found |
| DetectorCn.NegationIsGlobal | src/servitization_cn/detector_cn.py:46-48 | one negated mention suppresses every occurrence of the phrase, including one that is not negated |
| DetectorCn.Occurrences | src/servitization_cn/detector_cn.py:41-55 | the positions the `find` loop visits are occurrences of the phrase at or after the start |
| DetectorCn.OccurrencesApart | src/servitization_cn/detector_cn.py:55 | the visited occurrences are increasing and do not overlap |
| DetectorCn.OccurrencesComplete | src/servitization_cn/detector_cn.py:43-55 | every occurrence is visited or lies inside a visited one |
| DetectorCn.OccurrencesEmpty | src/servitization_cn/detector_cn.py:43-45 | the loop visits nothing iff the phrase does not occur in the text |
| DetectorCn.CnSnippet | src/servitization_cn/detector_cn.py:51-53 | a snippet is at most 120 characters longer than the phrase |
| DetectorCn.Cap | src/servitization_cn/detector_cn.py:50 | keeping at most `n` snippets keeps the first `min(n, count)` of them, in order |
| DetectorCn.CapSnoc | src/servitization_cn/detector_cn.py:50-54 | a new snippet is appended only while fewer than `n` are kept |
| DetectorCn.RecordHit | src/servitization_cn/detector_cn.py:49-54 | a non-negated occurrence sets the flag and appends its snippet while the category holds fewer than twenty |
| DetectorCn.ScanPhrase | src/servitization_cn/detector_cn.py:41-55 | after one phrase is scanned, its category holds the capped snippets of its non-negated occurrences, and no other entry changes |
| DetectorCn.ScanCategoryCn | src/servitization_cn/detector_cn.py:40-55 | after a category's phrases are scanned, its entry is the first twenty snippets in phrase order and no other entry changes |
| DetectorCn.ClassifyServicesCn | src/servitization_cn/detector_cn.py:26-72 | the six results are the flags, evidence, type counts, flag sum and score of the text's evidence |
| DetectorCn.SumTyped | src/servitization_cn/detector_cn.py:57-66 | with 0/1 flags a type count lies between 0 and the length of the type table |
| DetectorCn.SumTypedCounts | src/servitization_cn/detector_cn.py:57-66 | a type count is the number of flagged categories of that type in the table |
| DetectorCn.UnlistedCountsInNeither | src/servitization_cn/detector_cn.py:57-66 | a category absent from the type table does not affect either count |
| DetectorCn.CountsWithinServices | src/servitization_cn/detector_cn.py:57-67 | `comp_count + sub_count` never exceeds `service_num`, and equals it when every category has a known type |
| DetectorCn.FlagIffFound | src/servitization_cn/detector_cn.py:39-55 | a category is flagged iff one of its phrases occurs without being negated, iff it has evidence |
| DetectorCn.EvidenceBounded | src/servitization_cn/detector_cn.py:36-54 | a category with evidence keeps between one and twenty snippets, each at most 120 characters longer than one of its phrases |
| DetectorCn.EmptyTextFindsNothing | src/servitization_cn/detector_cn.py:26-72 | empty text flags nothing, records nothing, and every count and the score are 0 |
| DetectorCn.ProcessCompanyItem1sCn | src/servitization_cn/detector_cn.py:75-93 | one row per year, in ascending year order, each carrying that year's classification |
| Pipeline.ParseCompanyYear | src/servitization/pipeline.py:14-24 | a company and a year are returned together or not at all; they are returned exactly when the stem is a non-empty newline-free company, "_" and four digits; the year is their value |
| Pipeline.NamedParses | src/servitization/pipeline.py:14 | a stem that follows the convention is matched in exactly one way |
| Pipeline.RoundTrip | src/servitization/pipeline.py:17-24 | naming a file by the convention and parsing the name gives the company and year back |
| Pipeline.PadValue | src/servitization/pipeline.py:23 | `int` undoes zero padding |
| Pipeline.ValuePad | src/servitization/pipeline.py:23 | zero padding undoes `int` on digit strings of the padded length |
| Pipeline.CompanyKeepsUnderscores | src/servitization/pipeline.py:14 | the greedy group keeps underscores in the company: "ACME_CORP_2020" gives ("ACME_CORP", 2020) |
| Pipeline.LeadingZerosDropped | src/servitization/pipeline.py:23 | "ACME_0042" gives year 42 |
| Pipeline.NotParsed | src/servitization/pipeline.py:19-21 | five digits, an empty company or a missing "_" give (None, None) |
| PipelineCn.Split | src/servitization_cn/pipeline_cn.py:27 | `split("_")` yields at least one field and no field contains "_" |
| PipelineCn.JoinSplit | src/servitization_cn/pipeline_cn.py:27 | joining the fields with "_" gives the stem back |
| PipelineCn.SplitJoin | src/servitization_cn/pipeline_cn.py:27 | splitting a join of underscore-free fields gives the fields back |
| PipelineCn.FirstYearField | src/servitization_cn/pipeline_cn.py:33-36 | the first field from a position on that is four ASCII digits; no earlier one is |
| PipelineCn.ParsedCn | src/servitization_cn/pipeline_cn.py:26-40 | both results are present iff some field after the first is four digits; the company is the stem up to its first "_", or the whole stem; the year is the value of the first four-digit field after the first, below 10000 |
| PipelineCn.ParseCompanyYearCn | src/servitization_cn/pipeline_cn.py:13-40 | the loop returns the first field and the value of the first later four-digit field, or (None, None) |
| PipelineCn.ReportExample | src/servitization_cn/pipeline_cn.py:17 | `688708_2024_佳驰科技_2024年年度报告_2025-04-18` gives ("688708", 2024) |
| PipelineCn.FirstFieldNeverYear | src/servitization_cn/pipeline_cn.py:33 | the first field is never taken as the year, even when it is four digits |
| PipelineCn.EmptyCompany | src/servitization_cn/pipeline_cn.py:31 | a stem starting with "_" parses with an empty company |

## Left out

- Reading the report files: format conversion, the year-text collectors, the pipeline
  runners and command-line entry points, and CSV/JSON output. `Path.stem` becomes the
  parsers' string argument.
- The spaCy lemmatiser (`build_lemma_set`) is a parameter, `rootForms`: a function from
  the text to its set of lowered root forms. With spaCy switched off it returns the
  empty set, and `Detector.NoRootFormsNoChange` covers that case.
- The Chinese keyword dictionary and type table (`config_keywords_cn.py`) are not part
  of this model. They become the parameters `cats`, `typeKeys` and `types`.
- DetectorCn.ClassifyServicesCn: requires every key of the type table to be a category
  id. The source raises `KeyError` otherwise, and that error path is not modelled.
- DetectorCn.ClassifyServicesCn: requires non-empty phrases. With an empty phrase the
  source's `find` loop would never advance.
- Detector.ClassifyServices: requires non-empty phrases, as the English dictionary has.
  An empty alternative would change the regular expression's meaning.
- Unicode:
  - Lower-casing, `\w` and `\b` are modelled for ASCII only. Non-ASCII characters are
    left unchanged and count as non-word characters.
  - Python's `lower()` can change the length of some non-ASCII strings, which would
    shift match offsets. This is not modelled.
  - Case folding under `re.IGNORECASE` is not modelled. Python's case-insensitive
    matching also pairs `ſ` (U+017F) with `s` and `ı` (U+0131) with `i`, while `lower()`
    leaves both unchanged. So the source finds "service" in "ſervice"; the model does not.
  - `isdigit()` and `int()` are modelled for ASCII digits only. Python also accepts
    other Unicode digits, and `int()` raises on some of them.
- `evidence_window` is a natural number. A negative window, which Python would accept,
  is not modelled.
- Floating point: risk scores are exact reals. For these small counts the Python
  floats are exact too.
- Dictionary insertion order is modelled as a sequence of keys beside a map. The
  order of the keys inside the returned dictionaries is not part of the result.
- For ASCII text, the case-insensitive flag of the compiled patterns is subsumed by
  matching against the lowered text with lowered alternatives, which is what the
  source does. For other text it is not (see the Unicode item above).
- `PATTERNS` is built once at import in the source. `Detector.ProcessCompanyItem1s`
  builds the same value per call.
- PipelineCn.ParseCompanyYearCn: the `if not parts` branch is not modelled, because
  `split` always yields at least one field.
- Taxonomy.AasIsLowerCased: states that "aaS" is not lower case. It does not state
  that it is the only such phrase.
