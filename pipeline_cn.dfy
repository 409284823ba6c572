/**
 * The file-name convention of the Chinese pipeline: a stem such as
 * `688708_2024_佳驰科技_2024年年度报告_2025-04-18` is split on "_"; the first field is
 * the company and the first later field of four digits is the year.
 *
 * The parser works on the stem (the file name without its extension) as a string.
 */
module PipelineCn {
  import opened Wrappers
  import opened Text

  /** The index of the first "_" at or after `from`, or `|s|` when there is none. */
  function NextUnderscore(s: string, from: nat): (r: nat)
    requires from <= |s|
    ensures from <= r <= |s|
    ensures r < |s| ==> s[r] == '_'
    ensures forall k :: from <= k < r ==> s[k] != '_'
    decreases |s| - from
  {
    if from == |s| || s[from] == '_' then from else NextUnderscore(s, from + 1)
  }

  predicate NoUnderscore(s: string) {
    forall i :: 0 <= i < |s| ==> s[i] != '_'
  }

  /** Python's `s.split("_")`: the fields between the underscores, at least one. */
  function Split(s: string): (r: seq<string>)
    ensures |r| >= 1
    ensures forall i :: 0 <= i < |r| ==> NoUnderscore(r[i])
    decreases |s|
  {
    var i := NextUnderscore(s, 0);
    if i == |s| then [s]
    else
      var rest := Split(s[i + 1..]);
      assert forall k :: 1 <= k < |[s[..i]] + rest| ==> ([s[..i]] + rest)[k] == rest[k - 1];
      [s[..i]] + rest
  }

  /** Python's `"_".join(parts)`. */
  function Join(parts: seq<string>): string
    requires |parts| >= 1
  {
    if |parts| == 1 then parts[0] else parts[0] + "_" + Join(parts[1..])
  }

  /** Joining the fields gives the stem back. */
  lemma {:induction false} JoinSplit(s: string)
    ensures Join(Split(s)) == s
    decreases |s|
  {
    var i := NextUnderscore(s, 0);
    if i < |s| {
      JoinSplit(s[i + 1..]);
      assert Split(s)[1..] == Split(s[i + 1..]);
      assert s == s[..i] + "_" + s[i + 1..];
    }
  }

  /** Splitting a join of underscore-free fields gives the fields back. */
  lemma {:induction false} SplitJoin(parts: seq<string>)
    requires |parts| >= 1
    requires forall i :: 0 <= i < |parts| ==> NoUnderscore(parts[i])
    ensures Split(Join(parts)) == parts
  {
    var s := Join(parts);
    var head := parts[0];
    if |parts| == 1 {
      assert NextUnderscore(s, 0) == |s|;
    } else {
      var tail := Join(parts[1..]);
      assert s == head + "_" + tail;
      assert s[|head|] == '_';
      assert NextUnderscore(s, 0) == |head|;
      assert s[|head| + 1..] == tail;
      SplitJoin(parts[1..]);
      assert s[..|head|] == head;
    }
  }

  /** `len(p) == 4 and p.isdigit()`, for ASCII digits. */
  predicate YearField(p: string) {
    |p| == 4 && AllAsciiDigits(p)
  }

  /** The index of the first field at or after `k` that is a year, or `|parts|`. */
  function FirstYearField(parts: seq<string>, k: nat): (j: nat)
    requires k <= |parts|
    ensures k <= j <= |parts|
    ensures j < |parts| ==> YearField(parts[j])
    ensures forall i :: k <= i < j ==> !YearField(parts[i])
    decreases |parts| - k
  {
    if k == |parts| || YearField(parts[k]) then k else FirstYearField(parts, k + 1)
  }

  /** What `parse_company_year_cn` returns for `stem`: the first field and the value of
      the first later four-digit field, or `(None, None)` when no later field qualifies. */
  function ParsedCn(stem: string): (r: (Option<string>, Option<nat>))
    ensures r.0.Some? <==> r.1.Some?
    ensures r.1.Some? <==> exists i :: 1 <= i < |Split(stem)| && YearField(Split(stem)[i])
    ensures r.0.Some? ==> NoUnderscore(r.0.value) && |r.0.value| <= |stem| && stem[..|r.0.value|] == r.0.value
    ensures r.0.Some? ==> |r.0.value| == |stem| || stem[|r.0.value|] == '_'
    ensures r.1.Some? ==>
              exists i :: && 1 <= i < |Split(stem)| && YearField(Split(stem)[i])
                          && (forall j :: 1 <= j < i ==> !YearField(Split(stem)[j]))
                          && r.1.value == DigitsValue(Split(stem)[i])
    ensures r.1.Some? ==> r.1.value < 10000
  {
    var parts := Split(stem);
    var j := FirstYearField(parts, 1);
    if j < |parts| then
      CompanyIsPrefix(stem);
      (Some(parts[0]), Some(DigitsValue(parts[j])))
    else
      (None, None)
  }

  /** The first field is the stem up to its first underscore, or the whole stem. */
  lemma CompanyIsPrefix(stem: string)
    ensures |Split(stem)[0]| <= |stem| && stem[..|Split(stem)[0]|] == Split(stem)[0]
    ensures |Split(stem)[0]| == |stem| || stem[|Split(stem)[0]|] == '_'
  {
  }

  /** `parse_company_year_cn(path)` on `path.stem`. `split` always yields at least one
      field, so the source's `if not parts` branch cannot be taken and is not modelled. */
  method ParseCompanyYearCn(stem: string) returns (company: Option<string>, year: Option<nat>)
    ensures (company, year) == ParsedCn(stem)
  {
    var parts := Split(stem);
    company := Some(parts[0]);
    year := None;
    for i := 1 to |parts|
      invariant year.None? && FirstYearField(parts, 1) >= i
    {
      var p := parts[i];
      if |p| == 4 && AllAsciiDigits(p) {
        year := Some(DigitsValue(p));
        break;
      }
    }
    if year.None? {
      return None, None;
    }
  }

  /** Splitting peels off one field at a time. */
  lemma SplitCons(head: string, tail: string)
    requires NoUnderscore(head)
    ensures Split(head + "_" + tail) == [head] + Split(tail)
  {
    var s := head + "_" + tail;
    assert s[|head|] == '_';
    assert NextUnderscore(s, 0) == |head|;
    assert s[..|head|] == head && s[|head| + 1..] == tail;
  }

  /** The example of the naming convention, `688708_2024_佳驰科技_2024年年度报告_2025-04-18`
      given by its five fields: the company is the stock code, and the year is the
      second field, the first four-digit one, so the later fields are never examined. */
  lemma ReportExample(code: string, year: string, name: string, title: string, date: string)
    requires code == "688708" && year == "2024" && name == "佳驰科技"
    requires title == "2024年年度报告" && date == "2025-04-18"
    ensures ParsedCn(code + "_" + year + "_" + name + "_" + title + "_" + date) == (Some(code), Some(2024))
  {
    var stem := code + "_" + year + "_" + name + "_" + title + "_" + date;
    var parts := Split(stem);
    assert |parts| >= 2 && parts[0] == code && parts[1] == year by {
      ReportFields(code, year, name, title, date);
    }
    assert YearField(year) && DigitsValue(year) == 2024 by {
      FourDigitsValue(year);
    }
    assert FirstYearField(parts, 1) == 1;
  }

  /** The first two fields of a stem with at least five. */
  lemma ReportFields(code: string, year: string, name: string, title: string, date: string)
    requires NoUnderscore(code) && NoUnderscore(year) && NoUnderscore(name) && NoUnderscore(title)
    ensures Split(code + "_" + year + "_" + name + "_" + title + "_" + date) == [code, year] + Split(name + "_" + title + "_" + date)
  {
    var t2 := name + "_" + title + "_" + date;
    var t1 := year + "_" + t2;
    assert code + "_" + year + "_" + name + "_" + title + "_" + date == code + "_" + t1;
    SplitCons(year, t2);
    SplitCons(code, t1);
  }

  /** The first field is never taken as the year, even when it is four digits. */
  lemma FirstFieldNeverYear()
    ensures ParsedCn("2024_annual") == (None, None)
    ensures ParsedCn("2024_2023") == (Some("2024"), Some(2023))
  {
    var a := ["2024", "annual"];
    assert forall i :: 0 <= i < |a| ==> NoUnderscore(a[i]);
    assert Join(a) == "2024_annual";
    SplitJoin(a);
    var b := ["2024", "2023"];
    assert forall i :: 0 <= i < |b| ==> NoUnderscore(b[i]);
    assert Join(b) == "2024_2023";
    SplitJoin(b);
    FourDigitsValue(b[1]);
  }

  /** The company may be empty: a stem that starts with "_" still parses. */
  lemma EmptyCompany()
    ensures ParsedCn("_2024") == (Some(""), Some(2024))
  {
    var a := ["", "2024"];
    assert forall i :: 0 <= i < |a| ==> NoUnderscore(a[i]);
    assert Join(a) == "_2024";
    SplitJoin(a);
    FourDigitsValue(a[1]);
  }
}
