/**
 * The records of the input table and the row index over them: the check
 * that every cell of a network column holds one of its node's values, the
 * index from (column, value) to the set of row numbers holding that value,
 * and the row counts answered from the index by set union and intersection.
 *
 * A row maps a column name to its text; a column missing from the map is
 * an empty field (`None` in the record).
 */
module Dataset {
  import opened Basics

  /** One record: column name to field text; no entry is an empty field. */
  type Row = map<string, string>

  /** The domain of each network column: CSV name to the node's values, in order. */
  type Domains = map<string, seq<string>>

  /** The row index: column, then value, to the numbers of the rows holding that value. */
  type Sets = map<string, map<string, set<nat>>>

  // ------------------------------------------------------------------
  // Checking the fields
  // ------------------------------------------------------------------

  /** The field of column `c` is filled with a value outside the domain of a network column. */
  predicate BadCell(domains: Domains, row: Row, c: string) {
    c in domains && c in row && row[c] !in domains[c]
  }

  /** The first field that fails the check: a row number and a position in the header. */
  datatype CellFault = CellFault(row: nat, column: nat)

  /** No field of the rows before `r`, in any header column, fails the check. */
  predicate RowsClean(domains: Domains, header: seq<string>, rows: seq<Row>, r: nat) {
    forall i, k :: 0 <= i < r && i < |rows| && 0 <= k < |header| ==> !BadCell(domains, rows[i], header[k])
  }

  /**
   * The field check of the input table: rows in order, each row's columns
   * in header order; the first filled field of a network column whose
   * value is not in the node's domain is reported.
   */
  method CheckCells(domains: Domains, header: seq<string>, rows: seq<Row>) returns (fault: Option<CellFault>)
    ensures fault.None? <==> RowsClean(domains, header, rows, |rows|)
    ensures fault.Some? ==>
      var f := fault.value;
      f.row < |rows| && f.column < |header| && BadCell(domains, rows[f.row], header[f.column])
      && RowsClean(domains, header, rows, f.row)
      && forall k :: 0 <= k < f.column ==> !BadCell(domains, rows[f.row], header[k])
  {
    var r := 0;
    while r < |rows|
      invariant 0 <= r <= |rows|
      invariant RowsClean(domains, header, rows, r)
    {
      var k := 0;
      while k < |header|
        invariant 0 <= k <= |header|
        invariant forall j :: 0 <= j < k ==> !BadCell(domains, rows[r], header[j])
      {
        var c := header[k];
        if c in domains && c in rows[r] && rows[r][c] !in domains[c] {
          return Some(CellFault(r, k));
        }
        k := k + 1;
      }
      r := r + 1;
    }
    return None;
  }

  /** Every filled field of a network column holds a value of its domain. */
  predicate ValuesKnown(domains: Domains, rows: seq<Row>) {
    forall i, c :: 0 <= i < |rows| && c in domains && c in rows[i] ==> rows[i][c] in domains[c]
  }

  /** Rows whose columns all come from the header and that pass the check hold only known values. */
  lemma CleanRowsKnown(domains: Domains, header: seq<string>, rows: seq<Row>)
    requires forall i, c :: 0 <= i < |rows| && c in rows[i] ==> c in header
    requires RowsClean(domains, header, rows, |rows|)
    ensures ValuesKnown(domains, rows)
  {
    forall i, c | 0 <= i < |rows| && c in domains && c in rows[i]
      ensures rows[i][c] in domains[c]
    {
      assert c in header;
      var k :| 0 <= k < |header| && header[k] == c;
      assert !BadCell(domains, rows[i], header[k]);
    }
  }

  // ------------------------------------------------------------------
  // Building the index
  // ------------------------------------------------------------------

  /** The numbers of the rows before `n` whose field of column `c` holds `v`. */
  function RowsWith(rows: seq<Row>, n: nat, c: string, v: string): set<nat>
    requires n <= |rows|
  {
    set i: nat | i < n && c in rows[i] && rows[i][c] == v
  }

  /** The index holds one set per network column and domain value: the rows holding that value. */
  ghost predicate Built(sets: Sets, domains: Domains, rows: seq<Row>) {
    sets.Keys == domains.Keys
    && forall c :: c in domains ==>
         (forall v :: v in sets[c] <==> v in domains[c])
         && forall v :: v in sets[c] ==> sets[c][v] == RowsWith(rows, |rows|, c, v)
  }

  /** An empty set for every value of `values`. */
  method EmptySets(values: seq<string>) returns (inner: map<string, set<nat>>)
    ensures forall v :: v in inner <==> v in values
    ensures forall v :: v in inner ==> inner[v] == {}
  {
    inner := map[];
    var j := 0;
    while j < |values|
      invariant 0 <= j <= |values|
      invariant forall v :: v in inner <==> v in values[..j]
      invariant forall v :: v in inner ==> inner[v] == {}
    {
      inner := inner[values[j] := {}];
      j := j + 1;
    }
    assert values[..j] == values;
  }

  /** The index after rows `..r` and, of row `r`, the columns in `done`. */
  ghost predicate Filled(sets: Sets, domains: Domains, rows: seq<Row>, r: nat, done: seq<string>)
    requires r <= |rows|
  {
    sets.Keys == domains.Keys
    && forall c :: c in domains ==>
         (forall v :: v in sets[c] <==> v in domains[c])
         && forall v :: v in sets[c] ==>
              sets[c][v] == RowsWith(rows, r, c, v)
                            + (if r < |rows| && c in done && c in rows[r] && rows[r][c] == v then {r} else {})
  }

  lemma RowsWithNext(rows: seq<Row>, r: nat, c: string, v: string)
    requires r < |rows|
    ensures RowsWith(rows, r + 1, c, v) == RowsWith(rows, r, c, v) + (if c in rows[r] && rows[r][c] == v then {r} else {})
  {
  }

  /** The whole row `r` added is the index after rows `..r + 1`. */
  lemma FilledNextRow(sets: Sets, domains: Domains, rows: seq<Row>, r: nat, done: seq<string>)
    requires r < |rows| && (forall c :: c in domains ==> c in done) && Filled(sets, domains, rows, r, done)
    ensures Filled(sets, domains, rows, r + 1, [])
  {
    forall c, v | c in domains && v in sets[c]
      ensures sets[c][v] == RowsWith(rows, r + 1, c, v)
    {
      RowsWithNext(rows, r, c, v);
    }
  }

  /** Adding row `r` to the set of its value in column `c`. */
  lemma FilledAdd(sets: Sets, domains: Domains, rows: seq<Row>, r: nat, done: seq<string>, c: string)
    requires r < |rows| && Filled(sets, domains, rows, r, done)
    requires c in domains && c in rows[r] && rows[r][c] in domains[c]
    ensures var v := rows[r][c];
      Filled(sets[c := sets[c][v := sets[c][v] + {r}]], domains, rows, r, done + [c])
  {
  }

  /** A column whose field of row `r` is empty adds nothing. */
  lemma FilledSkip(sets: Sets, domains: Domains, rows: seq<Row>, r: nat, done: seq<string>, c: string)
    requires r < |rows| && Filled(sets, domains, rows, r, done) && c !in rows[r]
    ensures Filled(sets, domains, rows, r, done + [c])
  {
  }

  /** An empty set for every value of every network column. */
  method EmptyIndex(domains: Domains, columns: seq<string>) returns (sets: Sets)
    requires forall c :: c in columns <==> c in domains
    ensures sets.Keys == domains.Keys
    ensures forall c :: c in sets ==> (forall v :: v in sets[c] <==> v in domains[c]) && forall v :: v in sets[c] ==> sets[c][v] == {}
  {
    sets := map[];
    var k := 0;
    while k < |columns|
      invariant 0 <= k <= |columns|
      invariant forall c :: c in sets <==> c in columns[..k]
      invariant forall c :: c in sets ==> (forall v :: v in sets[c] <==> v in domains[c]) && forall v :: v in sets[c] ==> sets[c][v] == {}
    {
      var inner := EmptySets(domains[columns[k]]);
      sets := sets[columns[k] := inner];
      k := k + 1;
    }
    assert columns[..k] == columns;
  }

  /** Row `r` added to the set of its value, for every network column whose field is filled. */
  method AddRow(sets: Sets, domains: Domains, columns: seq<string>, rows: seq<Row>, r: nat) returns (next: Sets)
    requires forall c :: c in columns <==> c in domains
    requires ValuesKnown(domains, rows)
    requires r < |rows| && Filled(sets, domains, rows, r, [])
    ensures Filled(next, domains, rows, r + 1, [])
  {
    next := sets;
    var k := 0;
    assert columns[..0] == [];
    while k < |columns|
      invariant 0 <= k <= |columns|
      invariant Filled(next, domains, rows, r, columns[..k])
    {
      var c := columns[k];
      assert columns[..k + 1] == columns[..k] + [c];
      if c in rows[r] {
        FilledAdd(next, domains, rows, r, columns[..k], c);
        var v := rows[r][c];
        next := next[c := next[c][v := next[c][v] + {r}]];
      } else {
        FilledSkip(next, domains, rows, r, columns[..k], c);
      }
      k := k + 1;
    }
    assert columns[..k] == columns;
    FilledNextRow(next, domains, rows, r, columns);
  }

  /**
   * `getRowCount_prepareDataStructure`: an empty set for every value of
   * every network column, then each row number added to the set of the
   * value its field holds, for every network column whose field is filled.
   */
  method PrepareIndex(domains: Domains, columns: seq<string>, rows: seq<Row>) returns (sets: Sets)
    requires forall c :: c in columns <==> c in domains
    requires ValuesKnown(domains, rows)
    ensures Built(sets, domains, rows)
  {
    sets := EmptyIndex(domains, columns);
    assert Filled(sets, domains, rows, 0, []);
    var r := 0;
    while r < |rows|
      invariant 0 <= r <= |rows|
      invariant Filled(sets, domains, rows, r, [])
    {
      sets := AddRow(sets, domains, columns, rows, r);
      r := r + 1;
    }
  }

  // ------------------------------------------------------------------
  // What a count means
  // ------------------------------------------------------------------

  /** A condition: (column, value) pairs that must all hold. */
  type Condition = seq<(string, string)>

  /** Every pair of the condition holds in the row. */
  predicate Satisfies(row: Row, condition: Condition) {
    forall j :: 0 <= j < |condition| ==> condition[j].0 in row && row[condition[j].0] == condition[j].1
  }

  /** The row's field of `column` is filled (and holds `value`, if one is given) and the condition holds. */
  predicate RowMatches(row: Row, column: string, value: Option<string>, condition: Condition) {
    column in row && (value.Some? ==> row[column] == value.value) && Satisfies(row, condition)
  }

  /** The numbers of the matching rows. */
  function Matches(rows: seq<Row>, column: string, value: Option<string>, condition: Condition): set<nat> {
    set i: nat | i < |rows| && RowMatches(rows[i], column, value, condition)
  }

  /** The numbers of the rows satisfying the condition. */
  function Satisfying(rows: seq<Row>, condition: Condition): set<nat> {
    set i: nat | i < |rows| && Satisfies(rows[i], condition)
  }

  /** The matching rows whose field of `column` holds one of `values`. */
  function MatchesIn(rows: seq<Row>, column: string, values: seq<string>, condition: Condition): set<nat> {
    set i: nat | i < |rows| && RowMatches(rows[i], column, None, condition) && rows[i][column] in values
  }

  /** The row numbers below `n`. */
  function Below(n: nat): (r: set<nat>)
    ensures |r| == n && forall i: nat :: i in r <==> i < n
  {
    if n == 0 then {}
    else
      var below := Below(n - 1);
      assert n - 1 !in below;
      below + {n - 1}
  }

  lemma {:induction false} SubsetSize<T>(a: set<T>, b: set<T>)
    requires a <= b
    ensures |a| <= |b|
  {
    if a != {} {
      var x :| x in a;
      SubsetSize(a - {x}, b - {x});
    }
  }

  /** The sum of the counts of the values in `values`. */
  function SumMatches(rows: seq<Row>, column: string, values: seq<string>, condition: Condition): nat {
    if |values| == 0 then 0
    else |Matches(rows, column, Some(values[0]), condition)| + SumMatches(rows, column, values[1..], condition)
  }

  /** Distinct values split the matching rows into disjoint parts. */
  lemma {:induction false} MatchesInSum(rows: seq<Row>, column: string, values: seq<string>, condition: Condition)
    requires Distinct(values)
    ensures |MatchesIn(rows, column, values, condition)| == SumMatches(rows, column, values, condition)
    decreases |values|
  {
    if |values| == 0 {
      assert MatchesIn(rows, column, values, condition) == {};
    } else {
      var head := Matches(rows, column, Some(values[0]), condition);
      var rest := MatchesIn(rows, column, values[1..], condition);
      assert Distinct(values[1..]);
      MatchesInSum(rows, column, values[1..], condition);
      assert MatchesIn(rows, column, values, condition) == head + rest;
      assert head * rest == {} by {
        assert values[0] !in values[1..];
      }
    }
  }

  /**
   * The partition law: when every filled field holds a value of the
   * domain and the domain has no repetition, the counts of the values sum
   * to the count of the filled fields, under any condition.
   */
  lemma CountPartition(rows: seq<Row>, column: string, domain: seq<string>, condition: Condition)
    requires Distinct(domain)
    requires forall i :: 0 <= i < |rows| && column in rows[i] ==> rows[i][column] in domain
    ensures SumMatches(rows, column, domain, condition) == |Matches(rows, column, None, condition)|
  {
    MatchesInSum(rows, column, domain, condition);
    assert MatchesIn(rows, column, domain, condition) == Matches(rows, column, None, condition);
  }

  /** A count with a value is at most the count without it, which is at most the number of rows. */
  lemma CountBounds(rows: seq<Row>, column: string, v: string, condition: Condition)
    ensures |Matches(rows, column, Some(v), condition)| <= |Matches(rows, column, None, condition)| <= |rows|
  {
    SubsetSize(Matches(rows, column, Some(v), condition), Matches(rows, column, None, condition));
    SubsetSize(Matches(rows, column, None, condition), Below(|rows|));
  }

  /** One more pair in the condition never increases a count. */
  lemma CountMonotone(rows: seq<Row>, column: string, value: Option<string>, condition: Condition, pair: (string, string))
    ensures |Matches(rows, column, value, condition + [pair])| <= |Matches(rows, column, value, condition)|
  {
    var more := Matches(rows, column, value, condition + [pair]);
    forall i | i in more
      ensures i in Matches(rows, column, value, condition)
    {
      forall j | 0 <= j < |condition|
        ensures condition[j].0 in rows[i] && rows[i][condition[j].0] == condition[j].1
      {
        assert (condition + [pair])[j] == condition[j];
      }
    }
    SubsetSize(more, Matches(rows, column, value, condition));
  }

  // ------------------------------------------------------------------
  // Counting with the index
  // ------------------------------------------------------------------

  /** The column, the value and every pair of the condition have a set in the index. */
  predicate Known(sets: Sets, domains: Domains, column: string, value: Option<string>, condition: Condition) {
    column in sets && column in domains
    && (forall v :: v in domains[column] ==> v in sets[column])
    && (value.Some? ==> value.value in sets[column])
    && forall j :: 0 <= j < |condition| ==> condition[j].0 in sets && condition[j].1 in sets[condition[j].0]
  }

  /** The summed sizes of the sets of `values` (the `len` of each, added up). */
  function SumSizes(inner: map<string, set<nat>>, values: seq<string>): nat
    requires forall v :: v in values ==> v in inner
  {
    if |values| == 0 then 0 else |inner[values[0]]| + SumSizes(inner, values[1..])
  }

  /** The union of the sets of `values` (`reduce(set.union, ...)` for a non-empty list). */
  function UnionAll(inner: map<string, set<nat>>, values: seq<string>): set<nat>
    requires forall v :: v in values ==> v in inner
  {
    if |values| == 0 then {} else inner[values[0]] + UnionAll(inner, values[1..])
  }

  /** The intersection of the sets of the pairs (`reduce(set.intersection, ...)`), for a non-empty condition. */
  function IntersectAll(sets: Sets, condition: Condition): set<nat>
    requires |condition| > 0
    requires forall j :: 0 <= j < |condition| ==> condition[j].0 in sets && condition[j].1 in sets[condition[j].0]
  {
    var first := sets[condition[0].0][condition[0].1];
    if |condition| == 1 then first else first * IntersectAll(sets, condition[1..])
  }

  /**
   * `getRowCount(column, value, condition)` answered from the index. With
   * neither a value nor a condition, the sizes of the column's sets are
   * added up. Otherwise the rows of the value (or of the union of all the
   * column's sets) are intersected with the sets of the condition. The
   * union of no sets fails (`None`): `reduce` of an empty list.
   */
  function Count(sets: Sets, domains: Domains, column: string, value: Option<string>, condition: Condition): (r: Option<nat>)
    requires Known(sets, domains, column, value, condition)
    ensures r.None? <==> value.None? && |condition| > 0 && |domains[column]| == 0
  {
    if value.None? && |condition| == 0 then Some(SumSizes(sets[column], domains[column]))
    else if value.None? && |domains[column]| == 0 then None
    else
      var base := if value.None? then UnionAll(sets[column], domains[column]) else sets[column][value.value];
      var matching := if |condition| > 0 then base * IntersectAll(sets, condition) else base;
      Some(|matching|)
  }

  /** Every domain lists its values once. */
  predicate DistinctDomains(domains: Domains) {
    forall c :: c in domains ==> Distinct(domains[c])
  }

  lemma BuiltMatches(sets: Sets, domains: Domains, rows: seq<Row>, c: string, v: string)
    requires Built(sets, domains, rows) && c in domains && v in domains[c]
    ensures sets[c][v] == Matches(rows, c, Some(v), [])
  {
  }

  lemma {:induction false} SumSizesMatch(sets: Sets, domains: Domains, rows: seq<Row>, c: string, values: seq<string>)
    requires Built(sets, domains, rows) && c in domains
    requires forall v :: v in values ==> v in domains[c]
    ensures SumSizes(sets[c], values) == SumMatches(rows, c, values, [])
    decreases |values|
  {
    if |values| > 0 {
      BuiltMatches(sets, domains, rows, c, values[0]);
      SumSizesMatch(sets, domains, rows, c, values[1..]);
    }
  }

  lemma {:induction false} UnionAllMatch(sets: Sets, domains: Domains, rows: seq<Row>, c: string, values: seq<string>)
    requires Built(sets, domains, rows) && c in domains
    requires forall v :: v in values ==> v in domains[c]
    ensures UnionAll(sets[c], values) == MatchesIn(rows, c, values, [])
    decreases |values|
  {
    if |values| > 0 {
      BuiltMatches(sets, domains, rows, c, values[0]);
      UnionAllMatch(sets, domains, rows, c, values[1..]);
      assert MatchesIn(rows, c, values, []) == Matches(rows, c, Some(values[0]), []) + MatchesIn(rows, c, values[1..], []);
    }
  }

  lemma {:induction false} IntersectAllMatch(sets: Sets, domains: Domains, rows: seq<Row>, condition: Condition)
    requires Built(sets, domains, rows) && |condition| > 0
    requires forall j :: 0 <= j < |condition| ==> condition[j].0 in sets && condition[j].1 in sets[condition[j].0]
    ensures IntersectAll(sets, condition) == Satisfying(rows, condition)
    decreases |condition|
  {
    var c, v := condition[0].0, condition[0].1;
    BuiltMatches(sets, domains, rows, c, v);
    if |condition| > 1 {
      IntersectAllMatch(sets, domains, rows, condition[1..]);
      forall i: nat | i < |rows|
        ensures Satisfies(rows[i], condition) <==> c in rows[i] && rows[i][c] == v && Satisfies(rows[i], condition[1..])
      {
        if c in rows[i] && rows[i][c] == v && Satisfies(rows[i], condition[1..]) {
          forall j | 0 <= j < |condition|
            ensures condition[j].0 in rows[i] && rows[i][condition[j].0] == condition[j].1
          {
            if j > 0 {
              assert condition[j] == condition[1..][j - 1];
            }
          }
        }
      }
    }
  }

  /**
   * With an index built from the rows, a count that does not fail is the
   * number of rows whose field of `column` is filled (with `value`, if
   * given) and which satisfy the condition.
   */
  lemma CountMeaning(sets: Sets, domains: Domains, rows: seq<Row>, column: string, value: Option<string>, condition: Condition)
    requires Built(sets, domains, rows) && ValuesKnown(domains, rows) && DistinctDomains(domains)
    requires Known(sets, domains, column, value, condition)
    ensures Count(sets, domains, column, value, condition).Some? ==>
      Count(sets, domains, column, value, condition).value == |Matches(rows, column, value, condition)|
  {
    var domain := domains[column];
    var all := Matches(rows, column, None, condition);
    if value.None? {
      assert MatchesIn(rows, column, domain, []) == Matches(rows, column, None, []);
      if |condition| == 0 {
        SumSizesMatch(sets, domains, rows, column, domain);
        CountPartition(rows, column, domain, []);
      } else if |domain| > 0 {
        UnionAllMatch(sets, domains, rows, column, domain);
        IntersectAllMatch(sets, domains, rows, condition);
        assert Matches(rows, column, None, []) * Satisfying(rows, condition) == all;
      }
    } else {
      BuiltMatches(sets, domains, rows, column, value.value);
      if |condition| > 0 {
        IntersectAllMatch(sets, domains, rows, condition);
        assert Matches(rows, column, value, []) * Satisfying(rows, condition) == Matches(rows, column, value, condition);
      }
    }
  }
}
