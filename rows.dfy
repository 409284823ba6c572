/**
 * What both engines emit for one company and one year, and the pieces of it they
 * compute the same way: the flagged categories, the risk score and the ascending
 * order of years.
 */
module Rows {
  import opened Taxonomy

  /** One output row. Flags and evidence are keyed by category id; `evidence` holds only
      the categories for which something was recorded. */
  datatype Row = Row(
    company: string,
    year: int,
    serviceNum: int,
    compCount: int,
    subCount: int,
    riskScore: real,
    flags: map<string, int>,
    evidence: map<string, seq<string>>)

  /** The categories whose flag is 1. */
  function Flagged(flags: map<string, int>): (r: set<string>)
    ensures forall k :: k in r <==> k in flags && flags[k] == 1
  {
    set k | k in flags && flags[k] == 1
  }

  /** A Python dictionary's keys in insertion order: each key once, and every key listed. */
  predicate KeyOrder<V>(keys: seq<string>, m: map<string, V>) {
    && (forall i :: 0 <= i < |keys| ==> keys[i] in m)
    && (forall k :: k in m ==> k in keys)
    && (forall i, j :: 0 <= i < j < |keys| ==> keys[i] != keys[j])
  }

  /** `sum(flags.values())`, adding the values in key order. */
  function SumFlags(keys: seq<string>, flags: map<string, int>): (r: int)
    requires forall i :: 0 <= i < |keys| ==> keys[i] in flags
    ensures Bits(flags) ==> 0 <= r <= |keys|
  {
    if keys == [] then 0
    else SumFlags(keys[..|keys| - 1], flags) + flags[keys[|keys| - 1]]
  }

  /** With 0/1 flags the sum counts the keys whose flag is 1. */
  lemma {:induction false} SumCountsOnes(keys: seq<string>, flags: map<string, int>)
    requires forall i :: 0 <= i < |keys| ==> keys[i] in flags
    requires Bits(flags)
    requires forall i, j :: 0 <= i < j < |keys| ==> keys[i] != keys[j]
    ensures SumFlags(keys, flags) == |set k | k in keys && flags[k] == 1|
  {
    if keys != [] {
      var init, last := keys[..|keys| - 1], keys[|keys| - 1];
      SumCountsOnes(init, flags);
      assert keys == init + [last];
      assert last !in init by {
        assert forall i :: 0 <= i < |init| ==> init[i] == keys[i];
      }
      OnesGrow(init, last, flags);
    }
  }

  /** Listing one more key adds it to the keys whose flag is 1 exactly when its flag is 1. */
  lemma OnesGrow(init: seq<string>, last: string, flags: map<string, int>)
    requires forall i :: 0 <= i < |init| ==> init[i] in flags
    requires last in flags && last !in init
    ensures |set k | k in init + [last] && flags[k] == 1| ==
              |set k | k in init && flags[k] == 1| + (if flags[last] == 1 then 1 else 0)
  {
    var before := set k | k in init && flags[k] == 1;
    if flags[last] == 1 {
      assert (set k | k in init + [last] && flags[k] == 1) == before + {last};
    } else {
      assert (set k | k in init + [last] && flags[k] == 1) == before;
    }
  }

  /** Every flag is 0 or 1. */
  predicate Bits(flags: map<string, int>) {
    forall k :: k in flags ==> flags[k] == 0 || flags[k] == 1
  }

  /** `2.0 * sub_count + 0.5 * comp_count`: a substituting service weighs four times a
      complementing one, and the score is always a whole number of halves. */
  function RiskScore(sub: nat, comp: nat): (r: real)
    ensures r >= 0.0
    ensures r == 0.0 <==> sub == 0 && comp == 0
    ensures 2.0 * r == (4 * sub + comp) as real
  {
    sub as real * 2.0 + comp as real * 0.5
  }

  /** One more service of either type never lowers the score, and a substituting one
      raises it by 2 where a complementing one raises it by 0.5. */
  lemma RiskScoreSteps(sub: nat, comp: nat)
    ensures RiskScore(sub + 1, comp) == RiskScore(sub, comp) + 2.0
    ensures RiskScore(sub, comp + 1) == RiskScore(sub, comp) + 0.5
    ensures RiskScore(sub, comp + 4) == RiskScore(sub + 1, comp)
  {
  }

  /** A non-empty set of years has a least element, which `sorted(...)` visits first. */
  lemma {:induction false} LeastExists(s: set<int>)
    requires s != {}
    ensures exists m :: m in s && forall z :: z in s ==> m <= z
    decreases |s|
  {
    var x := PickOne(s);
    assert forall z :: z in s ==> z == x || z in s - {x};
    if s - {x} != {} {
      LeastExists(s - {x});
      var m :| m in s - {x} && forall z :: z in s - {x} ==> m <= z;
      if x < m {
        assert forall z :: z in s ==> x <= z;
      } else {
        assert forall z :: z in s ==> m <= z;
      }
    } else {
      assert forall z :: z in s ==> z == x;
    }
  }

  /** Some element of a non-empty set. */
  lemma PickOne(s: set<int>) returns (x: int)
    requires s != {}
    ensures x in s
  {
    if forall y :: y !in s {
      assert false;
    }
    x :| x in s;
  }

  /** Strictly increasing. */
  predicate Increasing(ys: seq<int>) {
    forall i, j :: 0 <= i < j < |ys| ==> ys[i] < ys[j]
  }

  /** The keys of `sorted(d.items())`: every year once, smallest first. */
  method SortedYears(years: set<int>) returns (ys: seq<int>)
    ensures Increasing(ys)
    ensures forall y :: y in ys <==> y in years
    ensures |ys| == |years|
  {
    ys := [];
    var rest := years;
    while rest != {}
      invariant rest <= years
      invariant Increasing(ys)
      invariant forall y :: y in ys <==> y in years && y !in rest
      invariant forall i, z :: 0 <= i < |ys| && z in rest ==> ys[i] < z
      invariant |ys| + |rest| == |years|
      decreases |rest|
    {
      LeastExists(rest);
      var y :| y in rest && forall z :: z in rest ==> y <= z;
      ys := ys + [y];
      rest := rest - {y};
    }
  }

  /** Years strictly increase along the rows. */
  predicate Ascending(rows: seq<Row>) {
    forall i, j :: 0 <= i < j < |rows| ==> rows[i].year < rows[j].year
  }

  // ---------------------------------------------------------------------------
  // The flag and evidence dictionaries

  function Flag(evidence: seq<string>): int {
    if evidence == [] then 0 else 1
  }

  /** The flag dictionary for per-category evidence `ev`: one 0/1 flag per category. */
  function FlagsFrom(cats: seq<Category>, ev: seq<seq<string>>): map<string, int>
    requires |ev| == |cats|
  {
    map c | c in Ids(cats) :: Flag(ev[IndexOf(cats, c)])
  }

  /** The evidence dictionary for per-category evidence `ev`: the categories with something
      recorded. */
  function EvidenceFrom(cats: seq<Category>, ev: seq<seq<string>>): map<string, seq<string>>
    requires |ev| == |cats|
  {
    map c | c in Ids(cats) && ev[IndexOf(cats, c)] != [] :: ev[IndexOf(cats, c)]
  }

  /** The state of the two result dictionaries while they are being filled: entry `i` of
      `exp` is what has been recorded so far for category `i`. */
  ghost predicate Reflects(cats: seq<Category>, flags: map<string, int>, evidence: map<string, seq<string>>,
                           exp: seq<seq<string>>)
  {
    && |exp| == |cats|
    && flags.Keys == Ids(cats)
    && evidence.Keys <= Ids(cats)
    && forall i :: 0 <= i < |cats| ==>
         && cats[i].id in flags
         && flags[cats[i].id] == Flag(exp[i])
         && (cats[i].id in evidence <==> exp[i] != [])
         && (cats[i].id in evidence ==> evidence[cats[i].id] == exp[i])
  }

  /** `evidence[key].append(x)` on a `defaultdict(list)`: a missing key starts empty. */
  function Append(evidence: map<string, seq<string>>, key: string, x: string): (r: map<string, seq<string>>)
    ensures r.Keys == evidence.Keys + {key}
    ensures r[key] == (if key in evidence then evidence[key] else []) + [x]
    ensures forall k :: k in evidence && k != key ==> r[k] == evidence[k]
  {
    evidence[key := (if key in evidence then evidence[key] else []) + [x]]
  }

  /** Setting a flag and appending an entry keeps the two dictionaries in step. */
  lemma ReflectsAppend(cats: seq<Category>, flags: map<string, int>, evidence: map<string, seq<string>>,
                       exp: seq<seq<string>>, j: nat, x: string)
    requires DistinctIds(cats) && Reflects(cats, flags, evidence, exp) && j < |cats|
    ensures var c := cats[j].id;
            Reflects(cats, flags[c := 1], Append(evidence, c, x), exp[j := exp[j] + [x]])
  {
  }

  /** Once every entry holds its final value the dictionaries are the specified ones. */
  lemma ReflectsResult(cats: seq<Category>, flags: map<string, int>, evidence: map<string, seq<string>>,
                       exp: seq<seq<string>>)
    requires DistinctIds(cats) && Reflects(cats, flags, evidence, exp)
    ensures flags == FlagsFrom(cats, exp)
    ensures evidence == EvidenceFrom(cats, exp)
  {
    var f := FlagsFrom(cats, exp);
    assert f.Keys == flags.Keys;
    forall c | c in flags ensures flags[c] == f[c] {
      var i := IndexOf(cats, c);
    }
    var e := EvidenceFrom(cats, exp);
    forall c | c in evidence ensures c in e && evidence[c] == e[c] {
      var i := IndexOf(cats, c);
    }
    forall c | c in e ensures c in evidence {
      var i := IndexOf(cats, c);
    }
  }

  lemma UpdateTwice<T>(s: seq<T>, j: nat, x: T, y: T)
    requires j < |s|
    ensures s[j := x][j := y] == s[j := y]
  {
  }

  /** Entries before `j` hold their final value `done`, entries from `j` on their
      first-pass value `pending`. */
  ghost predicate Settled<T>(exp: seq<T>, done: seq<T>, pending: seq<T>, j: nat) {
    && |exp| == |done| == |pending| && j <= |exp|
    && (forall i :: 0 <= i < j ==> exp[i] == done[i])
    && (forall i :: j <= i < |exp| ==> exp[i] == pending[i])
  }

  /** Settling entry `j` moves the boundary one step. */
  lemma SettleStep<T>(before: seq<T>, after: seq<T>, done: seq<T>, pending: seq<T>, j: nat)
    requires Settled(before, done, pending, j) && j < |before|
    requires after == before[j := done[j]]
    ensures Settled(after, done, pending, j + 1)
  {
  }

  lemma SettledAll<T>(exp: seq<T>, done: seq<T>, pending: seq<T>)
    requires Settled(exp, done, pending, |exp|)
    ensures exp == done
  {
  }

  /** No evidence for any category: every flag 0 and the evidence dictionary empty. */
  lemma NothingYet(cats: seq<Category>, flags: map<string, int>) returns (exp: seq<seq<string>>)
    requires flags == map c | c in Ids(cats) :: 0
    ensures exp == seq(|cats|, i => [])
    ensures Reflects(cats, flags, map[], exp)
  {
    exp := seq(|cats|, i => []);
  }

  lemma TakeOneMore<T>(s: seq<T>, i: nat)
    ensures i < |s| ==> s[..i + 1] == s[..i] + [s[i]]
    ensures i == |s| ==> s[..i] == s
  {
  }

  /** Every category gets a flag, every flag is 0 or 1, a flag is 1 exactly when the
      category has evidence, and recorded evidence is never empty. */
  lemma FlagsMatchEvidence(cats: seq<Category>, ev: seq<seq<string>>)
    requires |ev| == |cats|
    ensures FlagsFrom(cats, ev).Keys == Ids(cats)
    ensures Bits(FlagsFrom(cats, ev))
    ensures EvidenceFrom(cats, ev).Keys <= Ids(cats)
    ensures forall c :: c in Ids(cats) ==> (FlagsFrom(cats, ev)[c] == 1 <==> c in EvidenceFrom(cats, ev))
    ensures forall c :: c in EvidenceFrom(cats, ev) ==> EvidenceFrom(cats, ev)[c] != []
  {
  }
}
