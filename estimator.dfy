/**
 * The CPD estimation (`calculateCPDs` and
 * `approximateCpdRowForDataShortage`): one row per condition of a node,
 * either the observed relative frequencies of the node's values under the
 * condition, or, when too few rows match it, the average over the parents
 * of the frequencies under that parent's pair alone (the uniform row for a
 * parent with too few rows as well); every row is floored to 16 digits and
 * its rounding error dealt out so that it sums to exactly 1.
 */
module Estimator {
  import opened Basics
  import opened Decimal16
  import opened Rounding
  import opened Dataset
  import Conditions
  import Declarations

  /** Why the estimation stops (the program crashes). */
  datatype CpdError =
    | EmptyDomain   // the node has no values: the union of no sets, or `1/Decimal(0)`
    | NoParents     // a parentless node with too few rows: `Decimal(0)/Decimal(0)`

  /** Every domain value of every network column has a set in the index. */
  predicate Covers(sets: Sets, domains: Domains) {
    forall c :: c in domains ==> c in sets && forall v :: v in domains[c] ==> v in sets[c]
  }

  /** Every pair of the condition names a network column and a value of its domain. */
  predicate InDomains(domains: Domains, condition: Condition) {
    forall j :: 0 <= j < |condition| ==> condition[j].0 in domains && condition[j].1 in domains[condition[j].0]
  }

  /** The index was built from `rows`, whose filled network fields hold domain values, and no domain repeats a value. */
  ghost predicate IndexOf(sets: Sets, domains: Domains, rows: seq<Row>) {
    Built(sets, domains, rows) && ValuesKnown(domains, rows) && DistinctDomains(domains)
  }

  lemma IndexCovers(sets: Sets, domains: Domains, rows: seq<Row>)
    requires IndexOf(sets, domains, rows)
    ensures Covers(sets, domains)
  {
  }

  // ------------------------------------------------------------------
  // Rows of rationals
  // ------------------------------------------------------------------

  /** The count of each of `values` under the condition, in order. */
  function Counts(sets: Sets, domains: Domains, column: string, values: seq<string>, condition: Condition): (r: seq<nat>)
    requires Covers(sets, domains) && column in domains && InDomains(domains, condition)
    requires forall v :: v in values ==> v in domains[column]
    ensures |r| == |values|
  {
    seq(|values|, k requires 0 <= k < |values| => Count(sets, domains, column, Some(values[k]), condition).value)
  }

  /** Each count divided by `d`. */
  function Ratios(counts: seq<nat>, d: nat): (r: seq<real>)
    requires d > 0
    ensures |r| == |counts|
  {
    seq(|counts|, k requires 0 <= k < |counts| => counts[k] as real / d as real)
  }

  /** `m` copies of `x`. */
  function Repeat(x: real, m: nat): (r: seq<real>)
    ensures |r| == m && forall k :: 0 <= k < m ==> r[k] == x
  {
    seq(m, k => x)
  }

  /** The uniform row `[1/n, ..., 1/n]`. */
  function Uniform(n: nat): (r: seq<real>)
    requires n > 0
    ensures |r| == n
  {
    Repeat(1.0 / n as real, n)
  }

  /** Entry-wise sum of two rows. */
  function AddRows(a: seq<real>, b: seq<real>): (r: seq<real>)
    requires |a| == |b|
    ensures |r| == |a|
  {
    seq(|a|, k requires 0 <= k < |a| => a[k] + b[k])
  }

  /** Every entry divided by `p`. */
  function Divided(s: seq<real>, p: nat): (r: seq<real>)
    requires p > 0
    ensures |r| == |s|
  {
    seq(|s|, k requires 0 <= k < |s| => s[k] / p as real)
  }

  lemma {:induction false} RatiosSum(counts: seq<nat>, d: nat)
    requires d > 0
    ensures NonNegative(Ratios(counts, d))
    ensures SumReal(Ratios(counts, d)) == Sum(counts) as real / d as real
    decreases |counts|
  {
    var r := Ratios(counts, d);
    forall k | 0 <= k < |r|
      ensures r[k] >= 0.0
    {
      NonNegativeRatio(counts[k], d);
    }
    if |counts| > 0 {
      assert r[1..] == Ratios(counts[1..], d);
      RatiosSum(counts[1..], d);
      AddRatios(counts[0], Sum(counts[1..]), d);
    }
  }

  lemma NonNegativeRatio(c: nat, d: nat)
    requires d > 0
    ensures c as real / d as real >= 0.0
  {
  }

  lemma AddRatios(x: nat, y: nat, d: nat)
    requires d > 0
    ensures x as real / d as real + y as real / d as real == (x + y) as real / d as real
  {
  }

  lemma {:induction false} RepeatSum(x: real, m: nat)
    ensures SumReal(Repeat(x, m)) == m as real * x
    decreases m
  {
    if m > 0 {
      assert Repeat(x, m)[1..] == Repeat(x, m - 1);
      RepeatSum(x, m - 1);
      assert m as real * x == x + (m - 1) as real * x;
    }
  }

  /** The uniform row is a distribution. */
  lemma UniformStochastic(n: nat)
    requires n > 0
    ensures Stochastic(Uniform(n))
  {
    RepeatSum(1.0 / n as real, n);
    assert n as real * (1.0 / n as real) == 1.0;
  }

  lemma {:induction false} AddRowsSum(a: seq<real>, b: seq<real>)
    requires |a| == |b|
    ensures SumReal(AddRows(a, b)) == SumReal(a) + SumReal(b)
    decreases |a|
  {
    if |a| > 0 {
      assert AddRows(a, b)[1..] == AddRows(a[1..], b[1..]);
      AddRowsSum(a[1..], b[1..]);
    }
  }

  lemma {:induction false} DividedSum(s: seq<real>, p: nat)
    requires p > 0
    ensures SumReal(Divided(s, p)) == SumReal(s) / p as real
    decreases |s|
  {
    if |s| > 0 {
      assert Divided(s, p)[1..] == Divided(s[1..], p);
      DividedSum(s[1..], p);
      assert s[0] / p as real + SumReal(s[1..]) / p as real == (s[0] + SumReal(s[1..])) / p as real;
    }
  }

  /** A distribution has at least one entry. */
  lemma StochasticNonEmpty(s: seq<real>)
    requires Stochastic(s)
    ensures |s| > 0
  {
  }

  /** A floored distribution of at most 10^16 entries can be corrected. */
  lemma FloorCorrectable(s: seq<real>)
    requires Stochastic(s) && |s| <= Scale
    ensures Correctable(FloorRow(s))
  {
    StochasticNonEmpty(s);
    FloorStochasticRow(s);
    var i :| 0 <= i < |s| && FloorRow(s)[i] > 0;
    RankBelowCount(FloorRow(s), i);
  }

  // ------------------------------------------------------------------
  // Counts under a condition
  // ------------------------------------------------------------------

  lemma CountsSum(sets: Sets, domains: Domains, rows: seq<Row>, column: string, values: seq<string>, condition: Condition)
    requires IndexOf(sets, domains, rows) && column in domains && InDomains(domains, condition)
    requires forall v :: v in values ==> v in domains[column]
    ensures Sum(Counts(sets, domains, column, values, condition)) == SumMatches(rows, column, values, condition)
  {
    var counts := Counts(sets, domains, column, values, condition);
    forall k | 0 <= k < |values|
      ensures counts[k] == |Matches(rows, column, Some(values[k]), condition)|
    {
      CountOfValue(sets, domains, rows, column, values[k], condition);
    }
    MatchCountsSum(rows, column, values, condition, counts);
  }

  /** Counts that agree with the matching rows value by value add up to `SumMatches`. */
  lemma {:induction false} MatchCountsSum(rows: seq<Row>, column: string, values: seq<string>, condition: Condition, counts: seq<nat>)
    requires |counts| == |values|
    requires forall k :: 0 <= k < |values| ==> counts[k] == |Matches(rows, column, Some(values[k]), condition)|
    ensures Sum(counts) == SumMatches(rows, column, values, condition)
    decreases |values|
  {
    if |values| > 0 {
      MatchCountsSum(rows, column, values[1..], condition, counts[1..]);
    }
  }

  /** The counts of the domain values add up to the count of the column under the same condition. */
  lemma CountsPartition(sets: Sets, domains: Domains, rows: seq<Row>, column: string, condition: Condition)
    requires IndexOf(sets, domains, rows) && column in domains && InDomains(domains, condition)
    requires Count(sets, domains, column, None, condition).Some?
    ensures Sum(Counts(sets, domains, column, domains[column], condition)) == Count(sets, domains, column, None, condition).value
  {
    CountsSum(sets, domains, rows, column, domains[column], condition);
    CountMeaning(sets, domains, rows, column, None, condition);
    CountPartition(rows, column, domains[column], condition);
  }

  /** The relative frequencies of the values under a condition matched by some row form a distribution. */
  lemma FrequenciesStochastic(sets: Sets, domains: Domains, rows: seq<Row>, column: string, condition: Condition, d: nat)
    requires IndexOf(sets, domains, rows) && column in domains && InDomains(domains, condition)
    requires Count(sets, domains, column, None, condition) == Some(d) && d > 0
    ensures Stochastic(Ratios(Counts(sets, domains, column, domains[column], condition), d))
  {
    var counts := Counts(sets, domains, column, domains[column], condition);
    CountsPartition(sets, domains, rows, column, condition);
    RatiosSum(counts, d);
    DivSelf(d as real);
  }

  // ------------------------------------------------------------------
  // The fallback row
  // ------------------------------------------------------------------

  /** Too few rows match the pair alone: the count of the column under it is at most the threshold. */
  predicate Sparse(sets: Sets, domains: Domains, column: string, pair: (string, string), threshold: nat)
    requires Covers(sets, domains) && column in domains && |domains[column]| > 0 && InDomains(domains, [pair])
  {
    Count(sets, domains, column, None, [pair]).value <= threshold
  }

  /** One parent's row: the frequencies under its pair alone, or the uniform row if that pair is sparse. */
  function ParentRow(sets: Sets, domains: Domains, column: string, pair: (string, string), threshold: nat): (r: seq<real>)
    requires Covers(sets, domains) && column in domains && |domains[column]| > 0 && InDomains(domains, [pair])
    ensures |r| == |domains[column]|
  {
    var cnt := Count(sets, domains, column, None, [pair]).value;
    if cnt <= threshold then Uniform(|domains[column]|)
    else Ratios(Counts(sets, domains, column, domains[column], [pair]), cnt)
  }

  lemma PairInDomains(domains: Domains, condition: Condition, j: nat)
    requires InDomains(domains, condition) && j < |condition|
    ensures InDomains(domains, [condition[j]])
  {
  }

  /** One parent's row is a distribution. */
  lemma ParentRowStochastic(sets: Sets, domains: Domains, rows: seq<Row>, column: string, pair: (string, string), threshold: nat)
    requires IndexOf(sets, domains, rows) && column in domains && |domains[column]| > 0 && InDomains(domains, [pair])
    ensures Stochastic(ParentRow(sets, domains, column, pair, threshold))
  {
    var cnt := Count(sets, domains, column, None, [pair]).value;
    if cnt <= threshold {
      UniformStochastic(|domains[column]|);
    } else {
      FrequenciesStochastic(sets, domains, rows, column, [pair], cnt);
    }
  }

  /** The rows of the parents, one per pair of the condition, in order. */
  function ParentRows(sets: Sets, domains: Domains, column: string, condition: Condition, threshold: nat): (r: seq<seq<real>>)
    requires Covers(sets, domains) && column in domains && |domains[column]| > 0 && InDomains(domains, condition)
    ensures |r| == |condition| && forall j :: 0 <= j < |r| ==> |r[j]| == |domains[column]|
  {
    seq(|condition|, j requires 0 <= j < |condition| =>
      PairInDomains(domains, condition, j);
      ParentRow(sets, domains, column, condition[j], threshold))
  }

  /** The entry-wise sum of rows of length `n`, added in order to a row of zeros. */
  function Total(list: seq<seq<real>>, n: nat): (r: seq<real>)
    requires forall j :: 0 <= j < |list| ==> |list[j]| == n
    ensures |r| == n
  {
    if |list| == 0 then Repeat(0.0, n)
    else AddRows(Total(list[..|list| - 1], n), list[|list| - 1])
  }

  lemma {:induction false} AddRowsNonNegative(a: seq<real>, b: seq<real>)
    requires |a| == |b| && NonNegative(a) && NonNegative(b)
    ensures NonNegative(AddRows(a, b))
  {
  }

  /** A sum of `m` distributions is non-negative and totals `m`. */
  lemma {:induction false} TotalSum(list: seq<seq<real>>, n: nat)
    requires forall j :: 0 <= j < |list| ==> |list[j]| == n && Stochastic(list[j])
    ensures NonNegative(Total(list, n)) && SumReal(Total(list, n)) == |list| as real
    decreases |list|
  {
    if |list| == 0 {
      RepeatSum(0.0, n);
    } else {
      var init := list[..|list| - 1];
      TotalSum(init, n);
      AddRowsSum(Total(init, n), list[|list| - 1]);
      AddRowsNonNegative(Total(init, n), list[|list| - 1]);
    }
  }

  lemma ParentRowsStochastic(sets: Sets, domains: Domains, rows: seq<Row>, column: string, condition: Condition, threshold: nat)
    requires IndexOf(sets, domains, rows) && column in domains && |domains[column]| > 0 && InDomains(domains, condition)
    ensures forall j :: 0 <= j < |condition| ==> Stochastic(ParentRows(sets, domains, column, condition, threshold)[j])
  {
    forall j | 0 <= j < |condition|
      ensures Stochastic(ParentRows(sets, domains, column, condition, threshold)[j])
    {
      PairInDomains(domains, condition, j);
      ParentRowStochastic(sets, domains, rows, column, condition[j], threshold);
    }
  }

  /** The parents' rows summed and divided by their number. */
  function Average(sets: Sets, domains: Domains, column: string, condition: Condition, threshold: nat): (r: seq<real>)
    requires Covers(sets, domains) && column in domains && |domains[column]| > 0 && InDomains(domains, condition)
    requires |condition| > 0
    ensures |r| == |domains[column]|
  {
    Divided(Total(ParentRows(sets, domains, column, condition, threshold), |domains[column]|), |condition|)
  }

  lemma DivSelf(x: real)
    requires x > 0.0
    ensures x / x == 1.0
  {
  }

  lemma DividedNonNegative(s: seq<real>, p: nat)
    requires p > 0 && NonNegative(s)
    ensures NonNegative(Divided(s, p))
  {
    forall k | 0 <= k < |s|
      ensures Divided(s, p)[k] >= 0.0
    {
      assert Divided(s, p)[k] == s[k] / p as real;
    }
  }

  /** The parents' average row is a distribution. */
  lemma AverageStochastic(sets: Sets, domains: Domains, rows: seq<Row>, column: string, condition: Condition, threshold: nat)
    requires IndexOf(sets, domains, rows) && column in domains && |domains[column]| > 0 && InDomains(domains, condition)
    requires |condition| > 0
    ensures Stochastic(Average(sets, domains, column, condition, threshold))
  {
    var list := ParentRows(sets, domains, column, condition, threshold);
    var n := |domains[column]|;
    var p := |condition|;
    var total := Total(list, n);
    ParentRowsStochastic(sets, domains, rows, column, condition, threshold);
    TotalSum(list, n);
    assert SumReal(total) == p as real;
    DividedSum(total, p);
    DividedNonNegative(total, p);
    DivSelf(p as real);
    assert Average(sets, domains, column, condition, threshold) == Divided(total, p);
  }

  /**
   * `approximateCpdRowForDataShortage`: the parents' rows averaged,
   * floored and corrected. An empty domain fails at `1/Decimal(0)`, no
   * parents at `Decimal(0)/Decimal(0)`.
   */
  ghost function Fallback(sets: Sets, domains: Domains, rows: seq<Row>, column: string, condition: Condition, threshold: nat): Result<seq<nat>, CpdError>
    requires IndexOf(sets, domains, rows) && column in domains && |domains[column]| <= Scale && InDomains(domains, condition)
  {
    if |domains[column]| == 0 then Err(EmptyDomain)
    else if |condition| == 0 then Err(NoParents)
    else
      var average := Average(sets, domains, column, condition, threshold);
      AverageStochastic(sets, domains, rows, column, condition, threshold);
      FloorCorrectable(average);
      Ok(Corrected(FloorRow(average)))
  }

  // ------------------------------------------------------------------
  // One CPD row
  // ------------------------------------------------------------------

  /**
   * The CPD row of `column` under `condition`: the floored and corrected
   * relative frequencies when more than `threshold` rows match the
   * condition, and the fallback row otherwise. A count over an empty
   * domain fails.
   */
  ghost function CpdRow(sets: Sets, domains: Domains, rows: seq<Row>, column: string, condition: Condition, threshold: nat): Result<seq<nat>, CpdError>
    requires IndexOf(sets, domains, rows) && column in domains && |domains[column]| <= Scale && InDomains(domains, condition)
  {
    match Count(sets, domains, column, None, condition)
    case None => Err(EmptyDomain)
    case Some(d) =>
      if d > threshold then
        var frequencies := Ratios(Counts(sets, domains, column, domains[column], condition), d);
        FrequenciesStochastic(sets, domains, rows, column, condition, d);
        FloorCorrectable(frequencies);
        Ok(Corrected(FloorRow(frequencies)))
      else Fallback(sets, domains, rows, column, condition, threshold)
  }

  // ------------------------------------------------------------------
  // What a CPD row says about the data
  // ------------------------------------------------------------------

  /** The number of rows whose field of `column` is filled and that satisfy the condition. */
  ghost function Matched(rows: seq<Row>, column: string, condition: Condition): nat {
    |Matches(rows, column, None, condition)|
  }

  /** The share of those rows whose field of `column` holds `v`. */
  ghost function Frequency(rows: seq<Row>, column: string, v: string, condition: Condition): real
    requires Matched(rows, column, condition) > 0
  {
    |Matches(rows, column, Some(v), condition)| as real / Matched(rows, column, condition) as real
  }

  /** The count of the column under a condition is the number of matching rows; none match when the domain is empty. */
  lemma CountMatched(sets: Sets, domains: Domains, rows: seq<Row>, column: string, condition: Condition)
    requires IndexOf(sets, domains, rows) && column in domains && InDomains(domains, condition)
    ensures Count(sets, domains, column, None, condition).Some? ==>
      Count(sets, domains, column, None, condition).value == Matched(rows, column, condition)
    ensures |domains[column]| == 0 ==> Matched(rows, column, condition) == 0
  {
    CountMeaning(sets, domains, rows, column, None, condition);
    if |domains[column]| == 0 {
      assert Matches(rows, column, None, condition) == {};
    }
  }

  lemma CountOfValue(sets: Sets, domains: Domains, rows: seq<Row>, column: string, v: string, condition: Condition)
    requires IndexOf(sets, domains, rows) && column in domains && InDomains(domains, condition) && v in domains[column]
    ensures Count(sets, domains, column, Some(v), condition) == Some(|Matches(rows, column, Some(v), condition)|)
  {
    CountMeaning(sets, domains, rows, column, Some(v), condition);
  }

  /** With a non-empty domain and at most `threshold` matching rows, the row is the fallback row. */
  lemma SparseRow(sets: Sets, domains: Domains, rows: seq<Row>, column: string, condition: Condition, threshold: nat)
    requires IndexOf(sets, domains, rows) && column in domains && |domains[column]| <= Scale && InDomains(domains, condition)
    requires Count(sets, domains, column, None, condition).Some? && Count(sets, domains, column, None, condition).value <= threshold
    ensures CpdRow(sets, domains, rows, column, condition, threshold) == Fallback(sets, domains, rows, column, condition, threshold)
  {
  }

  /**
   * Rounding a distribution and removing the rounding errors keeps it a row
   * of the same length summing to 1; each entry lies between its floor and
   * less than one unit per entry above it, and is zero exactly when its
   * floor is.
   */
  lemma RoundedRow(s: seq<real>, i: nat)
    requires Stochastic(s) && |s| <= Scale && i < |s|
    ensures Correctable(FloorRow(s))
    ensures |Corrected(FloorRow(s))| == |s| && Sum(Corrected(FloorRow(s))) == Scale
    ensures RoundForSamiam(s[i]) <= Corrected(FloorRow(s))[i] < RoundForSamiam(s[i]) + |s|
    ensures Corrected(FloorRow(s))[i] == 0 <==> RoundForSamiam(s[i]) == 0
  {
    var floor := FloorRow(s);
    FloorCorrectable(s);
    FloorStochasticRow(s);
    CorrectedSumsToOne(floor);
    CorrectedKeepsZeros(floor);
    CorrectedGainBound(floor, i);
    assert floor[i] == RoundForSamiam(s[i]);
  }

  /** Every CPD row that is computed has one entry per value and sums to 1 (the assertion after each row). */
  lemma CpdRowSumsToOne(sets: Sets, domains: Domains, rows: seq<Row>, column: string, condition: Condition, threshold: nat)
    requires IndexOf(sets, domains, rows) && column in domains && |domains[column]| <= Scale && InDomains(domains, condition)
    ensures CpdRow(sets, domains, rows, column, condition, threshold).Ok? ==>
      |CpdRow(sets, domains, rows, column, condition, threshold).value| == |domains[column]|
      && Sum(CpdRow(sets, domains, rows, column, condition, threshold).value) == Scale
  {
    var n := |domains[column]|;
    match Count(sets, domains, column, None, condition)
    case None =>
    case Some(d) =>
      if d > threshold {
        FrequenciesStochastic(sets, domains, rows, column, condition, d);
        RoundedRow(Ratios(Counts(sets, domains, column, domains[column], condition), d), 0);
      } else if n > 0 && |condition| > 0 {
        AverageStochastic(sets, domains, rows, column, condition, threshold);
        RoundedRow(Average(sets, domains, column, condition, threshold), 0);
      }
  }

  /**
   * The estimation fails on an empty domain, and on a node without parents
   * whose column is filled in at most `threshold` rows; it fails for no
   * other reason.
   */
  lemma CpdRowErrors(sets: Sets, domains: Domains, rows: seq<Row>, column: string, condition: Condition, threshold: nat)
    requires IndexOf(sets, domains, rows) && column in domains && |domains[column]| <= Scale && InDomains(domains, condition)
    ensures CpdRow(sets, domains, rows, column, condition, threshold) == Err(EmptyDomain) <==> |domains[column]| == 0
    ensures CpdRow(sets, domains, rows, column, condition, threshold) == Err(NoParents) <==>
      |domains[column]| > 0 && |condition| == 0 && Matched(rows, column, condition) <= threshold
  {
    CountMatched(sets, domains, rows, column, condition);
  }

  /**
   * More than `threshold` matching rows: the row holds the observed relative
   * frequencies, each floored to 16 digits and raised by fewer units than
   * the domain has values; an entry is zero exactly when its frequency
   * floors to zero, so in particular when no matching row has that value.
   */
  lemma CpdRowDirect(sets: Sets, domains: Domains, rows: seq<Row>, column: string, condition: Condition, threshold: nat, i: nat)
    requires IndexOf(sets, domains, rows) && column in domains && |domains[column]| <= Scale && InDomains(domains, condition)
    requires i < |domains[column]| && Matched(rows, column, condition) > threshold
    ensures CpdRow(sets, domains, rows, column, condition, threshold).Ok?
    ensures var f := RoundForSamiam(Frequency(rows, column, domains[column][i], condition));
      f <= CpdRow(sets, domains, rows, column, condition, threshold).value[i] < f + |domains[column]|
      && (CpdRow(sets, domains, rows, column, condition, threshold).value[i] == 0 <==> f == 0)
    ensures |Matches(rows, column, Some(domains[column][i]), condition)| == 0 ==>
      CpdRow(sets, domains, rows, column, condition, threshold).value[i] == 0
  {
    var s := Ratios(Counts(sets, domains, column, domains[column], condition), Matched(rows, column, condition));
    DirectRow(sets, domains, rows, column, condition, threshold);
    DirectEntry(sets, domains, rows, column, condition, i);
    FrequencyZero(rows, column, domains[column][i], condition);
    RoundedEntry(s, i, Frequency(rows, column, domains[column][i], condition));
  }

  /** A value no matching row holds has frequency 0. */
  lemma FrequencyZero(rows: seq<Row>, column: string, v: string, condition: Condition)
    requires Matched(rows, column, condition) > 0
    ensures |Matches(rows, column, Some(v), condition)| == 0 ==> Frequency(rows, column, v, condition) == 0.0
  {
  }

  /** `RoundedRow` for an entry known by its value `x`; an entry that is 0 stays 0. */
  lemma RoundedEntry(s: seq<real>, i: nat, x: real)
    requires Stochastic(s) && |s| <= Scale && i < |s| && s[i] == x
    ensures Correctable(FloorRow(s))
    ensures RoundForSamiam(x) <= Corrected(FloorRow(s))[i] < RoundForSamiam(x) + |s|
    ensures Corrected(FloorRow(s))[i] == 0 <==> RoundForSamiam(x) == 0
    ensures x == 0.0 ==> Corrected(FloorRow(s))[i] == 0
  {
    RoundedRow(s, i);
  }

  /** Entry `i` of the frequency row is the frequency of value `i` among the matching rows. */
  lemma DirectEntry(sets: Sets, domains: Domains, rows: seq<Row>, column: string, condition: Condition, i: nat)
    requires IndexOf(sets, domains, rows) && column in domains && InDomains(domains, condition)
    requires i < |domains[column]| && Matched(rows, column, condition) > 0
    ensures Ratios(Counts(sets, domains, column, domains[column], condition), Matched(rows, column, condition))[i]
         == Frequency(rows, column, domains[column][i], condition)
  {
    CountOfValue(sets, domains, rows, column, domains[column][i], condition);
  }

  /** With more than `threshold` matching rows the row is taken from the frequencies. */
  lemma DirectRow(sets: Sets, domains: Domains, rows: seq<Row>, column: string, condition: Condition, threshold: nat)
    requires IndexOf(sets, domains, rows) && column in domains && |domains[column]| <= Scale && InDomains(domains, condition)
    requires Matched(rows, column, condition) > threshold
    ensures Count(sets, domains, column, None, condition) == Some(Matched(rows, column, condition))
    ensures Stochastic(Ratios(Counts(sets, domains, column, domains[column], condition), Matched(rows, column, condition)))
    ensures Correctable(FloorRow(Ratios(Counts(sets, domains, column, domains[column], condition), Matched(rows, column, condition))))
    ensures CpdRow(sets, domains, rows, column, condition, threshold)
         == Ok(Corrected(FloorRow(Ratios(Counts(sets, domains, column, domains[column], condition), Matched(rows, column, condition)))))
  {
    CountMatched(sets, domains, rows, column, condition);
    FrequenciesStochastic(sets, domains, rows, column, condition, Matched(rows, column, condition));
    FloorCorrectable(Ratios(Counts(sets, domains, column, domains[column], condition), Matched(rows, column, condition)));
  }

  /** With at most `threshold` matching rows, a non-empty domain and some parents, the row is taken from the parents' average. */
  lemma FallbackRow(sets: Sets, domains: Domains, rows: seq<Row>, column: string, condition: Condition, threshold: nat)
    requires IndexOf(sets, domains, rows) && column in domains && |domains[column]| <= Scale && InDomains(domains, condition)
    requires 0 < |domains[column]| && 0 < |condition| && Matched(rows, column, condition) <= threshold
    ensures Stochastic(Average(sets, domains, column, condition, threshold))
    ensures Correctable(FloorRow(Average(sets, domains, column, condition, threshold)))
    ensures CpdRow(sets, domains, rows, column, condition, threshold)
         == Ok(Corrected(FloorRow(Average(sets, domains, column, condition, threshold))))
  {
    CountMatched(sets, domains, rows, column, condition);
    AverageStochastic(sets, domains, rows, column, condition, threshold);
    FloorCorrectable(Average(sets, domains, column, condition, threshold));
  }

  /**
   * A parent's row: the uniform distribution when at most `threshold` rows
   * match its pair, otherwise the frequencies of the values among the rows
   * matching its pair.
   */
  lemma ParentRowMeaning(sets: Sets, domains: Domains, rows: seq<Row>, column: string, pair: (string, string), threshold: nat, k: nat)
    requires IndexOf(sets, domains, rows) && column in domains && |domains[column]| > 0 && InDomains(domains, [pair])
    requires k < |domains[column]|
    ensures Matched(rows, column, [pair]) <= threshold ==>
      ParentRow(sets, domains, column, pair, threshold)[k] == 1.0 / |domains[column]| as real
    ensures Matched(rows, column, [pair]) > threshold ==>
      ParentRow(sets, domains, column, pair, threshold)[k] == Frequency(rows, column, domains[column][k], [pair])
  {
    CountMatched(sets, domains, rows, column, [pair]);
    CountOfValue(sets, domains, rows, column, domains[column][k], [pair]);
  }

  /**
   * The row in the fallback: each entry is the parents' average for that
   * value, floored to 16 digits and raised by fewer units than the domain
   * has values.
   */
  lemma CpdRowFallback(sets: Sets, domains: Domains, rows: seq<Row>, column: string, condition: Condition, threshold: nat, i: nat)
    requires IndexOf(sets, domains, rows) && column in domains && |domains[column]| <= Scale && InDomains(domains, condition)
    requires 0 < |condition| && Matched(rows, column, condition) <= threshold && i < |domains[column]|
    ensures CpdRow(sets, domains, rows, column, condition, threshold).Ok?
    ensures var f := RoundForSamiam(Average(sets, domains, column, condition, threshold)[i]);
      f <= CpdRow(sets, domains, rows, column, condition, threshold).value[i] < f + |domains[column]|
      && (CpdRow(sets, domains, rows, column, condition, threshold).value[i] == 0 <==> f == 0)
  {
    FallbackRow(sets, domains, rows, column, condition, threshold);
    RoundedRow(Average(sets, domains, column, condition, threshold), i);
  }

  /** Adding up `m` copies of a row multiplies it by `m`. */
  lemma {:induction false} TotalSame(list: seq<seq<real>>, u: seq<real>)
    requires forall j :: 0 <= j < |list| ==> list[j] == u
    ensures forall k :: 0 <= k < |u| ==> Total(list, |u|)[k] == |list| as real * u[k]
    decreases |list|
  {
    if |list| > 0 {
      var init := list[..|list| - 1];
      TotalSame(init, u);
      forall k | 0 <= k < |u|
        ensures Total(list, |u|)[k] == |list| as real * u[k]
      {
        assert Total(list, |u|)[k] == Total(init, |u|)[k] + u[k];
      }
    }
  }

  /** The average of copies of one row is that row. */
  lemma AverageSame(list: seq<seq<real>>, u: seq<real>)
    requires 0 < |list| && forall j :: 0 <= j < |list| ==> list[j] == u
    ensures Divided(Total(list, |u|), |list|) == u
  {
    TotalSame(list, u);
    DividedScaled(Total(list, |u|), |list|, u);
  }

  /** Dividing `p` times a row by `p` gives the row back. */
  lemma DividedScaled(total: seq<real>, p: nat, u: seq<real>)
    requires p > 0 && |total| == |u|
    requires forall k :: 0 <= k < |u| ==> total[k] == p as real * u[k]
    ensures Divided(total, p) == u
  {
    forall k | 0 <= k < |u|
      ensures Divided(total, p)[k] == u[k]
    {
      MulDiv(p as real, u[k]);
    }
  }

  lemma MulDiv(p: real, x: real)
    requires p > 0.0
    ensures (p * x) / p == x
  {
  }

  /** Parents whose pairs are matched by at most `threshold` rows contribute the uniform row. */
  lemma SparseParents(sets: Sets, domains: Domains, rows: seq<Row>, column: string, condition: Condition, threshold: nat)
    requires IndexOf(sets, domains, rows) && column in domains && 0 < |domains[column]| && InDomains(domains, condition)
    requires forall j :: 0 <= j < |condition| ==> Matched(rows, column, [condition[j]]) <= threshold
    ensures forall j :: 0 <= j < |condition| ==>
      ParentRows(sets, domains, column, condition, threshold)[j] == Uniform(|domains[column]|)
  {
    forall j | 0 <= j < |condition|
      ensures ParentRows(sets, domains, column, condition, threshold)[j] == Uniform(|domains[column]|)
    {
      PairInDomains(domains, condition, j);
      CountMatched(sets, domains, rows, column, [condition[j]]);
    }
  }

  /**
   * When every parent's pair is matched by at most `threshold` rows as
   * well, the fallback row is the rounded uniform distribution.
   */
  lemma AllSparse(sets: Sets, domains: Domains, rows: seq<Row>, column: string, condition: Condition, threshold: nat)
    requires IndexOf(sets, domains, rows) && column in domains && |domains[column]| <= Scale && InDomains(domains, condition)
    requires 0 < |domains[column]| && 0 < |condition| && Matched(rows, column, condition) <= threshold
    requires forall j :: 0 <= j < |condition| ==> Matched(rows, column, [condition[j]]) <= threshold
    ensures Correctable(FloorRow(Uniform(|domains[column]|)))
    ensures CpdRow(sets, domains, rows, column, condition, threshold) == Ok(Corrected(FloorRow(Uniform(|domains[column]|))))
  {
    var u := Uniform(|domains[column]|);
    SparseParents(sets, domains, rows, column, condition, threshold);
    AverageSame(ParentRows(sets, domains, column, condition, threshold), u);
    assert Average(sets, domains, column, condition, threshold) == u;
    FallbackRow(sets, domains, rows, column, condition, threshold);
  }

  // ------------------------------------------------------------------
  // The CPD of a node
  // ------------------------------------------------------------------

  /** The value domain of every CSV column of the network: a node's CSV name maps to its values. */
  function DomainsOf(st: Declarations.Declared): (d: Domains)
    ensures forall c :: c in d <==> c in st.csvNames && st.csvNames[c] in st.nodes
  {
    map c | c in st.csvNames && st.csvNames[c] in st.nodes :: st.nodes[st.csvNames[c]].values
  }

  /** A node's column has the node's values as its domain. */
  lemma DomainsOfNode(st: Declarations.Declared, n: string)
    requires Declarations.Tabled(st) && n in st.nodes
    ensures st.nodes[n].csvName in DomainsOf(st) && DomainsOf(st)[st.nodes[n].csvName] == st.nodes[n].values
  {
  }

  /** `generateConditions`: the conditions of node `n`, every combination of one pair per parent. */
  function NodeConditions(nodes: map<string, Declarations.Node>, n: string): seq<Condition>
    requires n in nodes && forall p :: p in nodes[n].parents ==> p in nodes
  {
    Conditions.Product(Declarations.ConditionLists(nodes, nodes[n].parents))
  }

  /** Every condition of a node pairs each parent's CSV name with one of the parent's values. */
  lemma ConditionInDomains(st: Declarations.Declared, n: string, c: Condition)
    requires Declarations.Tabled(st) && Declarations.Linked(st.nodes) && n in st.nodes
    requires c in NodeConditions(st.nodes, n)
    ensures InDomains(DomainsOf(st), c)
  {
    var parents := st.nodes[n].parents;
    var lists := Declarations.ConditionLists(st.nodes, parents);
    Conditions.ProductShape(lists, c);
    forall j | 0 <= j < |c|
      ensures c[j].0 in DomainsOf(st) && c[j].1 in DomainsOf(st)[c[j].0]
    {
      var parent := st.nodes[parents[j]];
      assert c[j] in Declarations.ParentPairs(parent);
      var k :| 0 <= k < |parent.values| && c[j] == Declarations.ParentPairs(parent)[k];
      DomainsOfNode(st, parents[j]);
    }
  }

  lemma ConditionsInDomains(st: Declarations.Declared, n: string)
    requires Declarations.Tabled(st) && Declarations.Linked(st.nodes) && n in st.nodes
    ensures forall j :: 0 <= j < |NodeConditions(st.nodes, n)| ==> InDomains(DomainsOf(st), NodeConditions(st.nodes, n)[j])
  {
    forall j | 0 <= j < |NodeConditions(st.nodes, n)|
      ensures InDomains(DomainsOf(st), NodeConditions(st.nodes, n)[j])
    {
      ConditionInDomains(st, n, NodeConditions(st.nodes, n)[j]);
    }
  }

  /** The values of a list of results, in order, or the error of the first failing one. */
  function Collect<T, E>(results: seq<Result<T, E>>): Result<seq<T>, E> {
    if |results| == 0 then Ok([])
    else
      match Collect(results[..|results| - 1])
      case Err(e) => Err(e)
      case Ok(values) =>
        match results[|results| - 1]
        case Err(e) => Err(e)
        case Ok(v) => Ok(values + [v])
  }

  /** Collecting succeeds exactly when every result does, and then keeps them all in order. */
  lemma {:induction false} CollectOk<T, E>(results: seq<Result<T, E>>)
    ensures Collect(results).Ok? <==> forall j :: 0 <= j < |results| ==> results[j].Ok?
    ensures Collect(results).Ok? ==>
      |Collect(results).value| == |results| && forall j :: 0 <= j < |results| ==> results[j] == Ok(Collect(results).value[j])
    decreases |results|
  {
    if |results| > 0 {
      var init := results[..|results| - 1];
      CollectOk(init);
      assert forall j :: 0 <= j < |init| ==> init[j] == results[j];
    }
  }

  /** Collecting fails with the error of the first failing result. */
  lemma {:induction false} CollectErr<T, E>(results: seq<Result<T, E>>)
    ensures Collect(results).Err? ==>
      exists j :: 0 <= j < |results| && results[j] == Err(Collect(results).error)
        && forall i :: 0 <= i < j ==> results[i].Ok?
    decreases |results|
  {
    if |results| > 0 {
      var init := results[..|results| - 1];
      CollectErr(init);
      CollectOk(init);
      assert forall j :: 0 <= j < |init| ==> init[j] == results[j];
    }
  }

  /** The CPD rows of `column` for the conditions, in order. */
  ghost function CpdRows(sets: Sets, domains: Domains, rows: seq<Row>, column: string, conditions: seq<Condition>, threshold: nat): (r: seq<Result<seq<nat>, CpdError>>)
    requires IndexOf(sets, domains, rows) && column in domains && |domains[column]| <= Scale
    requires forall j :: 0 <= j < |conditions| ==> InDomains(domains, conditions[j])
    ensures |r| == |conditions|
    ensures forall j :: 0 <= j < |conditions| ==> r[j] == CpdRow(sets, domains, rows, column, conditions[j], threshold)
  {
    seq(|conditions|, j requires 0 <= j < |conditions| => CpdRow(sets, domains, rows, column, conditions[j], threshold))
  }

  /** The CPD table of `column`: one row per condition, in order; the first row that fails fails the table. */
  ghost function Table(sets: Sets, domains: Domains, rows: seq<Row>, column: string, conditions: seq<Condition>, threshold: nat): Result<seq<seq<nat>>, CpdError>
    requires IndexOf(sets, domains, rows) && column in domains && |domains[column]| <= Scale
    requires forall j :: 0 <= j < |conditions| ==> InDomains(domains, conditions[j])
  {
    Collect(CpdRows(sets, domains, rows, column, conditions, threshold))
  }

  /** A table is computed exactly when every row is; its rows are the CPD rows of the conditions, in order. */
  lemma TableRows(sets: Sets, domains: Domains, rows: seq<Row>, column: string, conditions: seq<Condition>, threshold: nat)
    requires IndexOf(sets, domains, rows) && column in domains && |domains[column]| <= Scale
    requires forall j :: 0 <= j < |conditions| ==> InDomains(domains, conditions[j])
    ensures var results := CpdRows(sets, domains, rows, column, conditions, threshold);
      var table := Table(sets, domains, rows, column, conditions, threshold);
      (table.Ok? <==> forall j :: 0 <= j < |conditions| ==> results[j].Ok?)
      && (table.Ok? ==> |table.value| == |conditions| && forall j :: 0 <= j < |conditions| ==> results[j] == Ok(table.value[j]))
  {
    CollectOk(CpdRows(sets, domains, rows, column, conditions, threshold));
  }

  /** A table fails with the error of its first failing row. */
  lemma TableError(sets: Sets, domains: Domains, rows: seq<Row>, column: string, conditions: seq<Condition>, threshold: nat)
    requires IndexOf(sets, domains, rows) && column in domains && |domains[column]| <= Scale
    requires forall j :: 0 <= j < |conditions| ==> InDomains(domains, conditions[j])
    ensures var results := CpdRows(sets, domains, rows, column, conditions, threshold);
      var table := Table(sets, domains, rows, column, conditions, threshold);
      table.Err? ==>
        exists j :: 0 <= j < |conditions| && results[j] == Err(table.error) && forall i :: 0 <= i < j ==> results[i].Ok?
  {
    CollectErr(CpdRows(sets, domains, rows, column, conditions, threshold));
  }

  /** Once a prefix of the results fails, collecting all of them fails the same way. */
  lemma {:induction false} CollectPrefixErr<T, E>(results: seq<Result<T, E>>, k: nat)
    requires k <= |results| && Collect(results[..k]).Err?
    ensures Collect(results) == Collect(results[..k])
    decreases |results|
  {
    if k < |results| {
      var init := results[..|results| - 1];
      assert init[..k] == results[..k];
      CollectPrefixErr(init, k);
    } else {
      assert results[..k] == results;
    }
  }

  lemma CollectStep<T, E>(results: seq<Result<T, E>>, k: nat)
    requires k < |results|
    ensures Collect(results[..k + 1]) ==
      match Collect(results[..k])
      case Err(e) => Err(e)
      case Ok(values) => (match results[k] case Err(e) => Err(e) case Ok(v) => Ok(values + [v]))
  {
    assert results[..k + 1][..k] == results[..k];
  }

  /**
   * The values of the first `k` results keyed by their names, or the first
   * failing result's name with its error.
   */
  function Fill<V, E>(names: seq<string>, results: seq<Result<V, E>>, k: nat): Result<map<string, V>, (string, E)>
    requires k <= |names| == |results|
  {
    if k == 0 then Ok(map[])
    else
      match Fill(names, results, k - 1)
      case Err(e) => Err(e)
      case Ok(m) =>
        match results[k - 1]
        case Err(e) => Err((names[k - 1], e))
        case Ok(v) => Ok(m[names[k - 1] := v])
  }

  /** The values of `f` at `0`, ..., `n - 1`. */
  ghost function Tabulate<R>(n: nat, f: nat --> R): (r: seq<R>)
    requires forall i :: 0 <= i < n ==> f.requires(i)
    ensures |r| == n
  {
    if n == 0 then [] else Tabulate(n - 1, f) + [f(n - 1)]
  }

  lemma {:induction false} TabulateAt<R>(n: nat, f: nat --> R, i: nat)
    requires forall i :: 0 <= i < n ==> f.requires(i)
    requires i < n
    ensures Tabulate(n, f)[i] == f(i)
  {
    if i < n - 1 {
      TabulateAt(n - 1, f, i);
    }
  }

  /** One more successful result adds its name and value. */
  lemma FillNext<V, E>(names: seq<string>, results: seq<Result<V, E>>, k: nat, m: map<string, V>, v: V)
    requires k < |names| == |results| && Fill(names, results, k) == Ok(m) && results[k] == Ok(v)
    ensures Fill(names, results, k + 1) == Ok(m[names[k] := v])
  {
  }

  /** Once a result fails, the fill stays at that failure. */
  lemma {:induction false} FillStops<V, E>(names: seq<string>, results: seq<Result<V, E>>, k: nat, j: nat)
    requires k < j <= |names| == |results| && Fill(names, results, k + 1).Err?
    ensures Fill(names, results, j) == Fill(names, results, k + 1)
    decreases j
  {
    if j > k + 1 {
      FillStops(names, results, k, j - 1);
    }
  }

  /** A successful fill holds every name, with the value of its last result. */
  lemma {:induction false} FillOk<V, E>(names: seq<string>, results: seq<Result<V, E>>, k: nat)
    requires k <= |names| == |results| && Fill(names, results, k).Ok?
    ensures forall i :: 0 <= i < k ==> results[i].Ok?
    ensures forall n :: n in Fill(names, results, k).value <==> n in names[..k]
    ensures forall i :: 0 <= i < k && (forall j :: i < j < k ==> names[j] != names[i]) ==>
      Fill(names, results, k).value[names[i]] == results[i].value
  {
    if k > 0 {
      FillOk(names, results, k - 1);
      assert names[..k] == names[..k - 1] + [names[k - 1]];
    }
  }

  /** A successful fill over distinct names holds exactly the names, each with its own value. */
  lemma FillDistinct<V, E>(names: seq<string>, results: seq<Result<V, E>>, m: map<string, V>)
    requires |names| == |results| && Distinct(names) && Fill(names, results, |names|) == Ok(m)
    ensures forall n :: n in m <==> n in names
    ensures forall i :: 0 <= i < |names| ==> names[i] in m && results[i] == Ok(m[names[i]])
  {
    FillOk(names, results, |names|);
    assert names[..|names|] == names;
  }

  /** A failed fill names the first failing result, and every earlier one succeeded. */
  lemma {:induction false} FillErr<V, E>(names: seq<string>, results: seq<Result<V, E>>, k: nat)
    requires k <= |names| == |results| && Fill(names, results, k).Err?
    ensures exists i :: (0 <= i < k && results[i].Err? && Fill(names, results, k).error == (names[i], results[i].error)
                         && forall j :: 0 <= j < i ==> results[j].Ok?)
  {
    if Fill(names, results, k - 1).Err? {
      FillErr(names, results, k - 1);
    } else {
      FillOk(names, results, k - 1);
    }
  }

  /** Writing one more entry over a merged map is merging the updated map. */
  lemma MergeUpdate<K, V>(base: map<K, V>, m: map<K, V>, key: K, v: V)
    ensures (base + m)[key := v] == base + m[key := v]
  {
  }

  lemma CpdRowsPrefix(sets: Sets, domains: Domains, rows: seq<Row>, column: string, conditions: seq<Condition>, threshold: nat, k: nat)
    requires IndexOf(sets, domains, rows) && column in domains && |domains[column]| <= Scale
    requires forall j :: 0 <= j < |conditions| ==> InDomains(domains, conditions[j])
    requires k <= |conditions|
    ensures CpdRows(sets, domains, rows, column, conditions[..k], threshold) == CpdRows(sets, domains, rows, column, conditions, threshold)[..k]
  {
  }

  /** Every row of a computed table has one entry per value and sums to 1. */
  lemma TableStochastic(sets: Sets, domains: Domains, rows: seq<Row>, column: string, conditions: seq<Condition>, threshold: nat, j: nat)
    requires IndexOf(sets, domains, rows) && column in domains && |domains[column]| <= Scale
    requires forall j :: 0 <= j < |conditions| ==> InDomains(domains, conditions[j])
    requires Table(sets, domains, rows, column, conditions, threshold).Ok?
    requires j < |Table(sets, domains, rows, column, conditions, threshold).value|
    ensures |Table(sets, domains, rows, column, conditions, threshold).value[j]| == |domains[column]|
    ensures Sum(Table(sets, domains, rows, column, conditions, threshold).value[j]) == Scale
  {
    TableRows(sets, domains, rows, column, conditions, threshold);
    CpdRowSumsToOne(sets, domains, rows, column, conditions[j], threshold);
  }

  // ------------------------------------------------------------------
  // Statistics
  // ------------------------------------------------------------------

  /** The counters `numberOfCalculatedPDs`, `numberOfPDsWithLittleData` and `numberOfSingleParentPDsWithLittleData`. */
  datatype Stats = Stats(calculated: nat, littleData: nat, singleParentLittleData: nat)
  {
    function Plus(other: Stats): Stats {
      Stats(calculated + other.calculated, littleData + other.littleData, singleParentLittleData + other.singleParentLittleData)
    }
  }

  /** The number of pairs of the condition matched (with `column` filled) by at most `threshold` rows. */
  ghost function SparsePairs(rows: seq<Row>, column: string, condition: Condition, threshold: nat): nat {
    if |condition| == 0 then 0
    else SparsePairs(rows, column, condition[..|condition| - 1], threshold)
         + (if Matched(rows, column, [condition[|condition| - 1]]) <= threshold then 1 else 0)
  }

  /** What computing one row adds to the counters. */
  ghost function RowStats(rows: seq<Row>, column: string, condition: Condition, threshold: nat): Stats {
    if Matched(rows, column, condition) <= threshold then Stats(1, 1, SparsePairs(rows, column, condition, threshold))
    else Stats(1, 0, 0)
  }

  /** What computing a table adds to the counters. */
  ghost function TableStats(rows: seq<Row>, column: string, conditions: seq<Condition>, threshold: nat): Stats {
    if |conditions| == 0 then Stats(0, 0, 0)
    else TableStats(rows, column, conditions[..|conditions| - 1], threshold).Plus(RowStats(rows, column, conditions[|conditions| - 1], threshold))
  }

  /** One row is counted per condition, and at most one fallback row per condition. */
  lemma {:induction false} TableStatsBounds(rows: seq<Row>, column: string, conditions: seq<Condition>, threshold: nat)
    ensures TableStats(rows, column, conditions, threshold).calculated == |conditions|
    ensures TableStats(rows, column, conditions, threshold).littleData <= |conditions|
    decreases |conditions|
  {
    if |conditions| > 0 {
      TableStatsBounds(rows, column, conditions[..|conditions| - 1], threshold);
    }
  }

  lemma TotalStep(list: seq<seq<real>>, n: nat, j: nat)
    requires forall i :: 0 <= i < |list| ==> |list[i]| == n
    requires j < |list|
    ensures Total(list[..j + 1], n) == AddRows(Total(list[..j], n), list[j])
  {
    assert list[..j + 1][..j] == list[..j];
  }

  lemma SparsePairsStep(rows: seq<Row>, column: string, condition: Condition, threshold: nat, j: nat)
    requires j < |condition|
    ensures SparsePairs(rows, column, condition[..j + 1], threshold)
         == SparsePairs(rows, column, condition[..j], threshold) + (if Matched(rows, column, [condition[j]]) <= threshold then 1 else 0)
  {
    assert condition[..j + 1][..j] == condition[..j];
  }

  /** The number of conditions of the first `k` nodes, in declaration order. */
  function RunConditions(st: Declarations.Declared, k: nat): nat
    requires Declarations.Linked(st.nodes) && (forall n :: n in st.order ==> n in st.nodes) && k <= |st.order|
  {
    if k == 0 then 0 else RunConditions(st, k - 1) + |NodeConditions(st.nodes, st.order[k - 1])|
  }

  /** What computing the table of node `n` adds to the counters. */
  ghost function NodeStats(rows: seq<Row>, st: Declarations.Declared, threshold: nat, n: string): Stats
    requires Declarations.Linked(st.nodes) && n in st.nodes
  {
    TableStats(rows, st.nodes[n].csvName, NodeConditions(st.nodes, n), threshold)
  }

  lemma NodeStatsBounds(rows: seq<Row>, st: Declarations.Declared, threshold: nat, n: string)
    requires Declarations.Linked(st.nodes) && n in st.nodes
    ensures NodeStats(rows, st, threshold, n).calculated == |NodeConditions(st.nodes, n)|
    ensures NodeStats(rows, st, threshold, n).littleData <= NodeStats(rows, st, threshold, n).calculated
  {
    TableStatsBounds(rows, st.nodes[n].csvName, NodeConditions(st.nodes, n), threshold);
  }

  /** What computing the tables of the first `k` nodes adds to the counters. */
  ghost function RunStatsTo(rows: seq<Row>, st: Declarations.Declared, threshold: nat, k: nat): Stats
    requires Declarations.Linked(st.nodes) && (forall n :: n in st.order ==> n in st.nodes) && k <= |st.order|
  {
    if k == 0 then Stats(0, 0, 0) else RunStatsTo(rows, st, threshold, k - 1).Plus(NodeStats(rows, st, threshold, st.order[k - 1]))
  }

  /**
   * A run counts one calculated distribution per condition of every node,
   * and at most one of them is a fallback for little data.
   */
  lemma {:induction false} RunStatsBounds(rows: seq<Row>, st: Declarations.Declared, threshold: nat, k: nat)
    requires Declarations.Linked(st.nodes) && (forall n :: n in st.order ==> n in st.nodes) && k <= |st.order|
    ensures RunStatsTo(rows, st, threshold, k).calculated == RunConditions(st, k)
    ensures RunStatsTo(rows, st, threshold, k).littleData <= RunStatsTo(rows, st, threshold, k).calculated
    decreases k
  {
    if k > 0 {
      RunStatsBounds(rows, st, threshold, k - 1);
      NodeStatsBounds(rows, st, threshold, st.order[k - 1]);
    }
  }

  // ------------------------------------------------------------------
  // The estimator
  // ------------------------------------------------------------------

  /**
   * The estimation run over one index: the CPDs written to the nodes and
   * the three statistics counters. `rows` is the data the index was built
   * from; it is only needed to state what the counts mean.
   */
  class CpdEstimator {
    const sets: Sets
    const domains: Domains
    ghost const rows: seq<Row>
    const threshold: nat
    var cpds: map<string, seq<seq<nat>>>
    var calculated: nat
    var littleData: nat
    var singleParentLittleData: nat

    /** The index was built from the rows and every domain has at most 10^16 values. */
    ghost predicate Valid() {
      IndexOf(sets, domains, rows) && forall c :: c in domains ==> |domains[c]| <= Scale
    }

    /** The counters stand at their values `c`, `l` and `s` before, plus `more`. */
    predicate Added(c: nat, l: nat, s: nat, more: Stats)
      reads this
    {
      calculated == c + more.calculated && littleData == l + more.littleData && singleParentLittleData == s + more.singleParentLittleData
    }

    constructor (sets: Sets, domains: Domains, ghost rows: seq<Row>, threshold: nat)
      ensures this.sets == sets && this.domains == domains && this.rows == rows && this.threshold == threshold
      ensures cpds == map[] && calculated == 0 && littleData == 0 && singleParentLittleData == 0
    {
      this.sets := sets;
      this.domains := domains;
      this.rows := rows;
      this.threshold := threshold;
      cpds := map[];
      calculated := 0;
      littleData := 0;
      singleParentLittleData := 0;
    }

    /**
     * The branch with enough data: each value's count under the condition
     * divided by the condition's count `d` and rounded, then the rounding
     * errors removed.
     */
    method FrequencyRow(column: string, condition: Condition, d: nat) returns (row: seq<nat>)
      requires Covers(sets, domains) && column in domains && |domains[column]| <= Scale && InDomains(domains, condition)
      requires d > 0 && Stochastic(Ratios(Counts(sets, domains, column, domains[column], condition), d))
      ensures Correctable(FloorRow(Ratios(Counts(sets, domains, column, domains[column], condition), d)))
      ensures row == Corrected(FloorRow(Ratios(Counts(sets, domains, column, domains[column], condition), d)))
    {
      FloorCorrectable(Ratios(Counts(sets, domains, column, domains[column], condition), d));
      var a := FloorRatios(column, condition, d);
      RemoveRoundingErrors(a);
      row := a[..];
    }

    /** Each value's count under the condition divided by `d`, rounded, in a new array. */
    method FloorRatios(column: string, condition: Condition, d: nat) returns (a: array<nat>)
      requires Covers(sets, domains) && column in domains && InDomains(domains, condition)
      requires d > 0 && NonNegative(Ratios(Counts(sets, domains, column, domains[column], condition), d))
      ensures fresh(a)
      ensures a[..] == FloorRow(Ratios(Counts(sets, domains, column, domains[column], condition), d))
    {
      var values := domains[column];
      ghost var s := Ratios(Counts(sets, domains, column, values, condition), d);
      ghost var floor := FloorRow(s);
      a := new nat[|values|];
      var k := 0;
      while k < |values|
        invariant 0 <= k <= |values|
        invariant a[..k] == floor[..k]
      {
        var c := Count(sets, domains, column, Some(values[k]), condition).value;
        assert s[k] == c as real / d as real;
        a[k] := RoundForSamiam(c as real / d as real) as nat;
        assert a[..k + 1] == floor[..k + 1];
        k := k + 1;
      }
      assert a[..] == floor;
    }

    /**
     * One parent's row in the fallback: the uniform row, counted as a
     * single-parent shortage, when at most `threshold` rows match the pair
     * alone; otherwise each value's count under the pair divided by the
     * pair's count.
     */
    method ParentRowOf(column: string, pair: (string, string)) returns (row: seq<real>)
      requires Covers(sets, domains) && column in domains && |domains[column]| > 0 && InDomains(domains, [pair])
      modifies this`singleParentLittleData
      ensures row == ParentRow(sets, domains, column, pair, threshold)
      ensures singleParentLittleData == old(singleParentLittleData) + (if Count(sets, domains, column, None, [pair]).value <= threshold then 1 else 0)
    {
      var values := domains[column];
      var cnt := Count(sets, domains, column, None, [pair]).value;
      if cnt <= threshold {
        row := Uniform(|values|);
        singleParentLittleData := singleParentLittleData + 1;
      } else {
        row := [];
        var k := 0;
        while k < |values|
          invariant 0 <= k <= |values|
          invariant row == Ratios(Counts(sets, domains, column, values, [pair]), cnt)[..k]
        {
          var c := Count(sets, domains, column, Some(values[k]), [pair]).value;
          row := row + [c as real / cnt as real];
          k := k + 1;
        }
      }
    }
  
    /**
     * `approximateCpdRowForDataShortage`: the parents' rows added up in a
     * row of zeros, divided by the number of parents, rounded, and the
     * rounding errors removed.
     */
    method Approximate(column: string, condition: Condition) returns (r: Result<seq<nat>, CpdError>)
      requires Valid() && column in domains && InDomains(domains, condition)
      modifies this`singleParentLittleData
      ensures r == Fallback(sets, domains, rows, column, condition, threshold)
      ensures r.Ok? ==> singleParentLittleData == old(singleParentLittleData) + SparsePairs(rows, column, condition, threshold)
    {
      var n := |domains[column]|;
      if n == 0 {
        return Err(EmptyDomain);
      }
      var acc := SumParents(column, condition);
      if |condition| == 0 {
        return Err(NoParents);
      }
      AverageStochastic(sets, domains, rows, column, condition, threshold);
      var row := RoundedAverage(acc, |condition|, Average(sets, domains, column, condition, threshold));
      r := Ok(row);
    }

    /** The loop over the parents: their rows added up, entry by entry, in a row of zeros. */
    method SumParents(column: string, condition: Condition) returns (acc: array<real>)
      requires Valid() && column in domains && |domains[column]| > 0 && InDomains(domains, condition)
      modifies this`singleParentLittleData
      ensures fresh(acc)
      ensures acc[..] == Total(ParentRows(sets, domains, column, condition, threshold), |domains[column]|)
      ensures singleParentLittleData == old(singleParentLittleData) + SparsePairs(rows, column, condition, threshold)
    {
      var n := |domains[column]|;
      ghost var parentRows := ParentRows(sets, domains, column, condition, threshold);
      acc := new real[n](k => 0.0);
      var j := 0;
      while j < |condition|
        invariant 0 <= j <= |condition|
        invariant acc[..] == Total(parentRows[..j], n)
        invariant singleParentLittleData == old(singleParentLittleData) + SparsePairs(rows, column, condition[..j], threshold)
      {
        SparsePairsStep(rows, column, condition, threshold, j);
        AddParent(acc, column, condition, j);
        j := j + 1;
      }
      assert parentRows[..j] == parentRows && condition[..j] == condition;
    }

    /** One pass of the loop over the parents: parent `j`'s row added to the running sum. */
    method AddParent(acc: array<real>, column: string, condition: Condition, j: nat)
      requires Valid() && column in domains && |domains[column]| > 0 && InDomains(domains, condition) && j < |condition|
      requires acc[..] == Total(ParentRows(sets, domains, column, condition, threshold)[..j], |domains[column]|)
      modifies this`singleParentLittleData, acc
      ensures acc[..] == Total(ParentRows(sets, domains, column, condition, threshold)[..j + 1], |domains[column]|)
      ensures singleParentLittleData == old(singleParentLittleData) + (if Matched(rows, column, [condition[j]]) <= threshold then 1 else 0)
    {
      PairInDomains(domains, condition, j);
      CountMatched(sets, domains, rows, column, [condition[j]]);
      TotalStep(ParentRows(sets, domains, column, condition, threshold), |domains[column]|, j);
      var row := ParentRowOf(column, condition[j]);
      AddInto(acc, row);
    }

    /** The inner loop that adds one parent's row to the running sum, entry by entry. */
    method AddInto(acc: array<real>, row: seq<real>)
      requires acc.Length == |row|
      modifies acc
      ensures acc[..] == AddRows(old(acc[..]), row)
    {
      var k := 0;
      while k < acc.Length
        invariant 0 <= k <= acc.Length
        invariant forall i :: 0 <= i < k ==> acc[i] == old(acc[i]) + row[i]
        invariant forall i :: k <= i < acc.Length ==> acc[i] == old(acc[i])
      {
        acc[k] := acc[k] + row[k];
        k := k + 1;
      }
    }

    /** The sum divided by the number of parents and rounded entry by entry, then the rounding errors removed. */
    method RoundedAverage(acc: array<real>, p: nat, ghost average: seq<real>) returns (row: seq<nat>)
      requires p > 0 && Stochastic(average) && |average| <= Scale && average == Divided(acc[..], p)
      ensures Correctable(FloorRow(average)) && row == Corrected(FloorRow(average))
    {
      FloorCorrectable(average);
      var a := new nat[acc.Length];
      var k := 0;
      while k < acc.Length
        invariant 0 <= k <= acc.Length
        invariant a[..k] == FloorRow(average)[..k]
      {
        assert average[k] == acc[k] / p as real;
        a[k] := RoundForSamiam(acc[k] / p as real) as nat;
        k := k + 1;
      }
      assert a[..] == FloorRow(average);
      RemoveRoundingErrors(a);
      row := a[..];
    }
  
    /** One pass of the loop over the conditions of a node: the CPD row, counted, and counted as short of data when it falls back. */
    method CalculateRow(column: string, condition: Condition) returns (r: Result<seq<nat>, CpdError>)
      requires Valid() && column in domains && InDomains(domains, condition)
      modifies this`calculated, this`littleData, this`singleParentLittleData
      ensures r == CpdRow(sets, domains, rows, column, condition, threshold)
      ensures r.Ok? ==> Added(old(calculated), old(littleData), old(singleParentLittleData), RowStats(rows, column, condition, threshold))
    {
      var count := Count(sets, domains, column, None, condition);
      if count.None? {
        return Err(EmptyDomain);
      }
      if count.value > threshold {
        var row := DirectCase(column, condition, count.value);
        r := Ok(row);
      } else {
        r := SparseCase(column, condition);
      }
    }

    /** More than `threshold` rows match the condition: the frequency row. */
    method DirectCase(column: string, condition: Condition, d: nat) returns (row: seq<nat>)
      requires Valid() && column in domains && InDomains(domains, condition)
      requires Count(sets, domains, column, None, condition) == Some(d) && d > threshold
      modifies this`calculated, this`littleData, this`singleParentLittleData
      ensures CpdRow(sets, domains, rows, column, condition, threshold) == Ok(row)
      ensures Added(old(calculated), old(littleData), old(singleParentLittleData), RowStats(rows, column, condition, threshold))
    {
      CountMatched(sets, domains, rows, column, condition);
      assert RowStats(rows, column, condition, threshold) == Stats(1, 0, 0);
      DirectRow(sets, domains, rows, column, condition, threshold);
      IndexCovers(sets, domains, rows);
      row := FrequencyRow(column, condition, d);
      calculated := calculated + 1;
    }

    /** At most `threshold` rows match the condition: the fallback row, counted as short of data. */
    method SparseCase(column: string, condition: Condition) returns (r: Result<seq<nat>, CpdError>)
      requires Valid() && column in domains && InDomains(domains, condition)
      requires Count(sets, domains, column, None, condition).Some? && Count(sets, domains, column, None, condition).value <= threshold
      modifies this`calculated, this`littleData, this`singleParentLittleData
      ensures r == CpdRow(sets, domains, rows, column, condition, threshold)
      ensures r.Ok? ==> Added(old(calculated), old(littleData), old(singleParentLittleData), RowStats(rows, column, condition, threshold))
    {
      CountMatched(sets, domains, rows, column, condition);
      assert RowStats(rows, column, condition, threshold) == Stats(1, 1, SparsePairs(rows, column, condition, threshold));
      SparseRow(sets, domains, rows, column, condition, threshold);
      r := Approximate(column, condition);
      if r.Ok? {
        littleData := littleData + 1;
        calculated := calculated + 1;
      }
    }

    /** The loop over the conditions of one node: its CPD table, stopping at the first row that fails. */
    method NodeTable(column: string, conditions: seq<Condition>) returns (r: Result<seq<seq<nat>>, CpdError>)
      requires Valid() && column in domains && forall j :: 0 <= j < |conditions| ==> InDomains(domains, conditions[j])
      modifies this`calculated, this`littleData, this`singleParentLittleData
      ensures r == Table(sets, domains, rows, column, conditions, threshold)
      ensures r.Ok? ==> Added(old(calculated), old(littleData), old(singleParentLittleData), TableStats(rows, column, conditions, threshold))
    {
      ghost var results := CpdRows(sets, domains, rows, column, conditions, threshold);
      var cpd := [];
      var j := 0;
      while j < |conditions|
        invariant 0 <= j <= |conditions|
        invariant Collect(results[..j]) == Ok(cpd)
        invariant Added(old(calculated), old(littleData), old(singleParentLittleData), TableStats(rows, column, conditions[..j], threshold))
      {
        var row := CalculateRow(column, conditions[j]);
        CollectStep(results, j);
        if row.Err? {
          CollectPrefixErr(results, j + 1);
          return Err(row.error);
        }
        assert conditions[..j + 1][..j] == conditions[..j];
        cpd := cpd + [row.value];
        j := j + 1;
      }
      assert results[..j] == results && conditions[..j] == conditions;
      r := Ok(cpd);
    }
  
    /** The CPD table of node `n` of the declared network. */
    ghost function NodeCpd(st: Declarations.Declared, n: string): Result<seq<seq<nat>>, CpdError>
      requires Valid() && Declarations.Tabled(st) && Declarations.Linked(st.nodes) && domains == DomainsOf(st) && n in st.nodes
    {
      DomainsOfNode(st, n);
      ConditionsInDomains(st, n);
      Table(sets, domains, rows, st.nodes[n].csvName, NodeConditions(st.nodes, n), threshold)
    }

    /** The table of every node, in declaration order. */
    ghost function NodeResults(st: Declarations.Declared): (r: seq<Result<seq<seq<nat>>, CpdError>>)
      requires Ready(st)
      ensures |r| == |st.order|
    {
      Tabulate(|st.order|, i requires 0 <= i < |st.order| => NodeCpd(st, st.order[i]))
    }

    /**
     * A run without failure gives every node of a well-formed network its
     * own table, and nothing else.
     */
    lemma RunComplete(st: Declarations.Declared, m: map<string, seq<seq<nat>>>)
      requires Ready(st) && Declarations.WellFormed(st)
      requires Fill(st.order, NodeResults(st), |st.order|) == Ok(m)
      ensures forall n :: n in m <==> n in st.nodes
      ensures forall n :: n in st.nodes ==> NodeCpd(st, n) == Ok(m[n])
    {
      FillDistinct(st.order, NodeResults(st), m);
      forall n | n in st.nodes
        ensures NodeCpd(st, n) == Ok(m[n])
      {
        var i :| 0 <= i < |st.order| && st.order[i] == n;
        NodeResultsAt(st, i);
      }
    }

    /** Entry `i` of the tables is the table of the `i`-th node. */
    lemma NodeResultsAt(st: Declarations.Declared, i: nat)
      requires Ready(st) && i < |st.order|
      ensures NodeResults(st)[i] == NodeCpd(st, st.order[i])
    {
      TabulateAt(|st.order|, i requires 0 <= i < |st.order| => NodeCpd(st, st.order[i]), i);
    }

    /** A failed run names the first node, in declaration order, whose table fails, with its error. */
    lemma RunFailure(st: Declarations.Declared, name: string, e: CpdError)
      requires Ready(st)
      requires Fill(st.order, NodeResults(st), |st.order|) == Err((name, e))
      ensures exists i :: (0 <= i < |st.order| && st.order[i] == name && NodeCpd(st, st.order[i]) == Err(e)
                           && forall j :: 0 <= j < i ==> NodeCpd(st, st.order[j]).Ok?)
    {
      var results := NodeResults(st);
      FillErr(st.order, results, |st.order|);
      var i :| 0 <= i < |st.order| && results[i].Err? && (name, e) == (st.order[i], results[i].error)
               && forall j :: 0 <= j < i ==> results[j].Ok?;
      NodeResultsAt(st, i);
      ResultsBefore(st, i);
    }

    lemma ResultsBefore(st: Declarations.Declared, i: nat)
      requires Ready(st) && i <= |st.order|
      requires forall j :: 0 <= j < i ==> NodeResults(st)[j].Ok?
      ensures forall j :: 0 <= j < i ==> NodeCpd(st, st.order[j]).Ok?
    {
      forall j | 0 <= j < i
        ensures NodeCpd(st, st.order[j]).Ok?
      {
        NodeResultsAt(st, j);
      }
    }

    /** One pass of the loop over the nodes: the node's CPD table from its conditions. */
    method CalculateNode(st: Declarations.Declared, n: string) returns (table: Result<seq<seq<nat>>, CpdError>)
      requires Ready(st) && n in st.nodes
      modifies this`calculated, this`littleData, this`singleParentLittleData
      ensures table == NodeCpd(st, n)
      ensures table.Ok? ==> Added(old(calculated), old(littleData), old(singleParentLittleData), NodeStats(rows, st, threshold, n))
    {
      DomainsOfNode(st, n);
      ConditionsInDomains(st, n);
      table := NodeTable(st.nodes[n].csvName, NodeConditions(st.nodes, n));
    }

    /** What a run over a declared network needs: the index of its data and a consistent network. */
    ghost predicate Ready(st: Declarations.Declared) {
      Valid() && Declarations.Tabled(st) && Declarations.Linked(st.nodes) && domains == DomainsOf(st)
      && forall n :: n in st.order <==> n in st.nodes
    }

    /** Entry `k` of the tables is the table of the `k`-th node, which is a node of the network. */
    lemma ReadyResultsAt(st: Declarations.Declared, k: nat)
      requires Ready(st) && k < |st.order|
      ensures st.order[k] in st.nodes && NodeResults(st)[k] == NodeCpd(st, st.order[k])
    {
      NodeResultsAt(st, k);
    }

    /** The tables of all nodes keyed by name, or the first node, in declaration order, whose table fails. */
    ghost function RunOutcome(st: Declarations.Declared): Result<map<string, seq<seq<nat>>>, (string, CpdError)>
      requires Ready(st)
    {
      Fill(st.order, NodeResults(st), |st.order|)
    }

    /** What computing the tables of the first `k` nodes, in declaration order, adds to the counters. */
    ghost function RunStats(st: Declarations.Declared, k: nat): Stats
      requires Ready(st) && k <= |st.order|
    {
      RunStatsTo(rows, st, threshold, k)
    }

    /** The `k`-th node's table adds its own statistics to those of the nodes before it. */
    lemma RunStatsStep(st: Declarations.Declared, k: nat)
      requires Ready(st) && k < |st.order|
      ensures st.order[k] in st.nodes && Declarations.Linked(st.nodes)
      ensures RunStats(st, k + 1) == RunStats(st, k).Plus(NodeStats(rows, st, threshold, st.order[k]))
    {
    }

    /**
     * `calculateCPDs`: the CPD table of every node, in declaration order,
     * written to the node, with the counters advanced; the first node whose
     * table fails stops the run (the program crashes there).
     */
    method CalculateCpds(st: Declarations.Declared) returns (failure: Option<(string, CpdError)>)
      requires Ready(st)
      modifies this`cpds, this`calculated, this`littleData, this`singleParentLittleData
      ensures RunOutcome(st).Ok? ==> failure.None? && cpds == old(cpds) + RunOutcome(st).value
      ensures RunOutcome(st).Ok? ==> Added(old(calculated), old(littleData), old(singleParentLittleData), RunStats(st, |st.order|))
      ensures RunOutcome(st).Err? ==> failure == Some(RunOutcome(st).error)
    {
      ghost var written: map<string, seq<seq<nat>>> := map[];
      ghost var start := Stats(calculated, littleData, singleParentLittleData);
      StoredStart(st);
      var k := 0;
      while k < |st.order|
        invariant k <= |st.order| && Stored(st, k, old(cpds), start, written)
      {
        var table := StoreNode(st, k, old(cpds), start, written);
        if table.Err? {
          return Some((st.order[k], table.error));
        }
        written := written[st.order[k] := table.value];
        k := k + 1;
      }
      StoredDone(st, old(cpds), start, written);
      failure := None;
    }

    /**
     * The loop over the nodes has stored the tables `written` of the first
     * `k` nodes on top of the tables `base`, and counted them on top of the
     * counters `start`.
     */
    ghost predicate Stored(st: Declarations.Declared, k: nat, base: map<string, seq<seq<nat>>>,
                           start: Stats, written: map<string, seq<seq<nat>>>)
      reads this
    {
      Ready(st) ==>
        k <= |st.order| && Fill(st.order, NodeResults(st), k) == Ok(written) && cpds == base + written
        && Added(start.calculated, start.littleData, start.singleParentLittleData, RunStats(st, k))
    }

    /** Before the loop nothing is stored or counted. */
    lemma StoredStart(st: Declarations.Declared)
      ensures Stored(st, 0, cpds, Stats(calculated, littleData, singleParentLittleData), map[])
    {
      assert cpds + map[] == cpds;
    }

    /** After the loop the run's tables are stored and counted. */
    lemma StoredDone(st: Declarations.Declared, base: map<string, seq<seq<nat>>>, start: Stats, written: map<string, seq<seq<nat>>>)
      requires Stored(st, |st.order|, base, start, written)
      ensures Ready(st) ==>
        RunOutcome(st) == Ok(written) && cpds == base + written
        && Added(start.calculated, start.littleData, start.singleParentLittleData, RunStats(st, |st.order|))
    {
    }

    /**
     * One pass of the loop over the nodes: the `k`-th node's table, stored
     * under its name when it succeeds; the first failure is the run's failure.
     */
    method StoreNode(st: Declarations.Declared, k: nat, ghost base: map<string, seq<seq<nat>>>,
                     ghost start: Stats, ghost written: map<string, seq<seq<nat>>>)
        returns (table: Result<seq<seq<nat>>, CpdError>)
      requires Ready(st) && k < |st.order| && Stored(st, k, base, start, written)
      modifies this`cpds, this`calculated, this`littleData, this`singleParentLittleData
      ensures table.Ok? ==> Stored(st, k + 1, base, start, written[st.order[k] := table.value])
      ensures table.Err? ==> RunOutcome(st) == Err((st.order[k], table.error))
    {
      ghost var results := NodeResults(st);
      ReadyResultsAt(st, k);
      RunStatsStep(st, k);
      table := CalculateNode(st, st.order[k]);
      if table.Ok? {
        MergeUpdate(base, written, st.order[k], table.value);
        FillNext(st.order, results, k, written, table.value);
        cpds := cpds[st.order[k] := table.value];
      } else {
        FillStops(st.order, results, k, |st.order|);
      }
    }
  }
}
