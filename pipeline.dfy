/**
 * The file-name convention of the English pipeline: a file stem `COMPANY_YYYY` names
 * the company and the fiscal year, matched with `^(.+)_([0-9]{4})$`.
 *
 * The parser works on the stem (the file name without its extension) as a string.
 */
module Pipeline {
  import opened Wrappers
  import opened Text

  predicate NoNewline(s: string) {
    forall i :: 0 <= i < |s| ==> s[i] != '\n'
  }

  /** The part of the stem the pattern must cover: `$` also matches just before a final
      newline, so one trailing "\n" is not part of the match. */
  function Body(stem: string): (b: string)
    ensures |b| <= |stem|
  {
    if |stem| > 0 && stem[|stem| - 1] == '\n' then stem[..|stem| - 1] else stem
  }

  /** The last `n` decimal digits of `y`, with leading zeros: `f"{y:04d}"` for `n == 4`. */
  function Pad(y: nat, n: nat): (d: string)
    ensures |d| == n && AllAsciiDigits(d)
  {
    if n == 0 then [] else Pad(y / 10, n - 1) + [Digit(y % 10)]
  }

  function Pad4(y: nat): (d: string)
    ensures |d| == 4 && AllAsciiDigits(d)
  {
    Pad(y, 4)
  }

  function Digit(n: nat): (c: char)
    requires n < 10
    ensures IsAsciiDigit(c) && c as int - '0' as int == n
  {
    ('0' as int + n) as char
  }

  /** `int` undoes the zero padding of a number that fits in `n` digits. */
  lemma {:induction false} PadValue(y: nat, n: nat)
    requires y < Pow10(n)
    ensures DigitsValue(Pad(y, n)) == y
  {
    if n > 0 {
      assert y / 10 < Pow10(n - 1);
      PadValue(y / 10, n - 1);
      var d := Pad(y, n);
      assert d[..n - 1] == Pad(y / 10, n - 1);
    }
  }

  /** Padding undoes `int` on `n` digits, leading zeros included. */
  lemma {:induction false} ValuePad(d: string, n: nat)
    requires |d| == n && AllAsciiDigits(d)
    ensures Pad(DigitsValue(d), n) == d
  {
    if n > 0 {
      var v := DigitsValue(d);
      var init := d[..n - 1];
      ValuePad(init, n - 1);
      assert v / 10 == DigitsValue(init) && v % 10 == d[n - 1] as int - '0' as int;
    }
  }

  /** What a successful match says about the stem: a non-empty company without newlines,
      "_", the year as four digits, and at most a trailing newline. */
  predicate Named(stem: string, company: string, year: nat) {
    && company != [] && NoNewline(company) && year < 10000
    && (stem == company + "_" + Pad4(year) || stem == company + "_" + Pad4(year) + "\n")
  }

  /** `parse_company_year(path)` on `path.stem`: the company and the year, or
      `(None, None)` when the stem does not follow the convention. The company is all
      of the stem before the final "_YYYY", underscores included. */
  function ParseCompanyYear(stem: string): (r: (Option<string>, Option<nat>))
    ensures r.0.Some? <==> r.1.Some?
    ensures r.0.Some? ==> Named(stem, r.0.value, r.1.value)
    ensures forall c, y: nat :: Named(stem, c, y) ==> r == (Some(c), Some(y))
  {
    var b := Body(stem);
    if |b| >= 6 && b[|b| - 5] == '_' && AllAsciiDigits(b[|b| - 4..]) && NoNewline(b[..|b| - 5]) then
      var c, d := b[..|b| - 5], b[|b| - 4..];
      ValuePad(d, 4);
      assert b == c + "_" + d;
      assert stem == b || stem == b + "\n";
      NamedParses(stem);
      (Some(c), Some(DigitsValue(d)))
    else
      NamedParses(stem);
      (None, None)
  }

  /** A stem that follows the convention is matched, and only in the one way. */
  lemma NamedParses(stem: string)
    ensures forall c, y: nat :: Named(stem, c, y) ==>
              var b := Body(stem);
              && |b| >= 6 && b[|b| - 5] == '_' && AllAsciiDigits(b[|b| - 4..]) && NoNewline(b[..|b| - 5])
              && b[..|b| - 5] == c && DigitsValue(b[|b| - 4..]) == y
  {
    forall c, y: nat | Named(stem, c, y)
      ensures var b := Body(stem);
              && |b| >= 6 && b[|b| - 5] == '_' && AllAsciiDigits(b[|b| - 4..]) && NoNewline(b[..|b| - 5])
              && b[..|b| - 5] == c && DigitsValue(b[|b| - 4..]) == y
    {
      var b := c + "_" + Pad4(y);
      assert b[|b| - 1] == Pad4(y)[3];
      assert Body(stem) == b;
      assert b[|b| - 4..] == Pad4(y);
      PadValue(y, 4);
    }
  }

  /** Writing a company and a year by the convention and parsing the name gives them back. */
  lemma RoundTrip(company: string, year: nat)
    requires company != [] && NoNewline(company) && year < 10000
    ensures ParseCompanyYear(company + "_" + Pad4(year)) == (Some(company), Some(year))
  {
    assert Named(company + "_" + Pad4(year), company, year);
  }

  /** The greedy group keeps underscores in the company. */
  lemma CompanyKeepsUnderscores()
    ensures ParseCompanyYear("ACME_CORP_2020") == (Some("ACME_CORP"), Some(2020))
  {
    assert "ACME_CORP_2020" == "ACME_CORP" + "_" + Pad4(2020);
    RoundTrip("ACME_CORP", 2020);
  }

  /** Leading zeros of the year are dropped. */
  lemma LeadingZerosDropped()
    ensures ParseCompanyYear("ACME_0042") == (Some("ACME"), Some(42))
  {
    assert "ACME_0042" == "ACME" + "_" + Pad4(42);
    RoundTrip("ACME", 42);
  }

  /** Five digits, nothing before the underscore, or no underscore: not parsed. */
  lemma NotParsed()
    ensures ParseCompanyYear("ACME_20201") == (None, None)
    ensures ParseCompanyYear("_2020") == (None, None)
    ensures ParseCompanyYear("ACME2020") == (None, None)
  {
    assert "ACME_20201"[5] != '_';
    assert "ACME2020"[3] != '_';
  }
}
