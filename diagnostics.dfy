/**
 * The pairwise diagnostic `printIncompatibleNodes`: for every two nodes,
 * the earlier one first, it walks the pairs of their values (the first
 * node's value varying slowest) and counts the rows holding both values.
 * The first pair seen zero times is reported as incompatible and ends the
 * walk; a walk that reaches the last pair without a zero reports that last
 * pair as compatible.
 */
module Diagnostics {
  import opened Basics
  import opened Dataset
  import Declarations
  import Estimator

  /** A report: the first node's name and value, then the second node's name and value. */
  type Report = (string, string, string, string)

  /** How the walk over the value pairs of two nodes ended. */
  datatype Outcome =
    | NoPairs                                // one of the nodes has no values
    | Incompatible(v1: string, v2: string)   // the first pair no row holds
    | Compatible(v1: string, v2: string)     // every pair is held; this is the last one

  /** Every pair of a value of `a` and a value of `b`, the value of `a` varying slowest. */
  function ValuePairs(a: seq<string>, b: seq<string>): (r: seq<(string, string)>)
    ensures |r| == |a| * |b|
    decreases |a|
  {
    if |a| == 0 then []
    else
      assert |a| * |b| == |b| + (|a| - 1) * |b|;
      seq(|b|, k requires 0 <= k < |b| => (a[0], b[k])) + ValuePairs(a[1..], b)
  }

  /** A pair is listed exactly when its first part is a value of `a` and its second a value of `b`. */
  lemma {:induction false} ValuePairsMembers(a: seq<string>, b: seq<string>, p: (string, string))
    ensures p in ValuePairs(a, b) <==> p.0 in a && p.1 in b
    decreases |a|
  {
    if |a| > 0 {
      ValuePairsMembers(a[1..], b, p);
      var head := seq(|b|, k requires 0 <= k < |b| => (a[0], b[k]));
      assert ValuePairs(a, b) == head + ValuePairs(a[1..], b);
      assert p in head <==> p.0 == a[0] && p.1 in b by {
        if p.0 == a[0] && p.1 in b {
          var k :| 0 <= k < |b| && b[k] == p.1;
          assert head[k] == p;
        }
      }
      assert p.0 in a <==> p.0 == a[0] || p.0 in a[1..] by {
        assert a == [a[0]] + a[1..];
      }
    }
  }

  /** Every value of the node's domain has a set in the index. */
  predicate Indexed(sets: Sets, domains: Domains, node: Declarations.Node) {
    Estimator.Covers(sets, domains) && node.csvName in domains && domains[node.csvName] == node.values
  }

  /** The number of rows holding value `p.0` in the column of `a` and value `p.1` in the column of `b`. */
  function PairCount(sets: Sets, domains: Domains, a: Declarations.Node, b: Declarations.Node, p: (string, string)): nat
    requires Indexed(sets, domains, a) && Indexed(sets, domains, b) && p.0 in a.values && p.1 in b.values
  {
    Count(sets, domains, a.csvName, Some(p.0), [(b.csvName, p.1)]).value
  }

  /** The walk over `pairs` from position `k` on. */
  function ScanFrom(sets: Sets, domains: Domains, a: Declarations.Node, b: Declarations.Node, pairs: seq<(string, string)>, k: nat): Outcome
    requires Indexed(sets, domains, a) && Indexed(sets, domains, b)
    requires forall j :: 0 <= j < |pairs| ==> pairs[j].0 in a.values && pairs[j].1 in b.values
    decreases |pairs| - k
  {
    if k >= |pairs| then NoPairs
    else if PairCount(sets, domains, a, b, pairs[k]) == 0 then Incompatible(pairs[k].0, pairs[k].1)
    else if k == |pairs| - 1 then Compatible(pairs[k].0, pairs[k].1)
    else ScanFrom(sets, domains, a, b, pairs, k + 1)
  }

  /** The walk over the value pairs of `a` and `b`. */
  function Scan(sets: Sets, domains: Domains, a: Declarations.Node, b: Declarations.Node): Outcome
    requires Indexed(sets, domains, a) && Indexed(sets, domains, b)
  {
    PairsInDomains(a, b);
    ScanFrom(sets, domains, a, b, ValuePairs(a.values, b.values), 0)
  }

  lemma PairsInDomains(a: Declarations.Node, b: Declarations.Node)
    ensures forall j :: 0 <= j < |ValuePairs(a.values, b.values)| ==>
      ValuePairs(a.values, b.values)[j].0 in a.values && ValuePairs(a.values, b.values)[j].1 in b.values
  {
    forall j | 0 <= j < |ValuePairs(a.values, b.values)|
      ensures ValuePairs(a.values, b.values)[j].0 in a.values && ValuePairs(a.values, b.values)[j].1 in b.values
    {
      ValuePairsMembers(a.values, b.values, ValuePairs(a.values, b.values)[j]);
    }
  }

  /**
   * The walk from `k` stops at the first pair from `k` on that no row holds,
   * reports the last pair when every pair from `k` on is held, and reports
   * nothing when no pair is left.
   */
  lemma {:induction false} ScanFromMeaning(sets: Sets, domains: Domains, a: Declarations.Node, b: Declarations.Node, pairs: seq<(string, string)>, k: nat)
    requires Indexed(sets, domains, a) && Indexed(sets, domains, b)
    requires forall j :: 0 <= j < |pairs| ==> pairs[j].0 in a.values && pairs[j].1 in b.values
    ensures ScanFrom(sets, domains, a, b, pairs, k).NoPairs? <==> k >= |pairs|
    ensures ScanFrom(sets, domains, a, b, pairs, k).Incompatible? <==>
      exists j :: k <= j < |pairs| && PairCount(sets, domains, a, b, pairs[j]) == 0
    ensures ScanFrom(sets, domains, a, b, pairs, k).Incompatible? ==>
      exists j :: (k <= j < |pairs| && PairCount(sets, domains, a, b, pairs[j]) == 0
                   && pairs[j] == (ScanFrom(sets, domains, a, b, pairs, k).v1, ScanFrom(sets, domains, a, b, pairs, k).v2)
                   && forall i :: k <= i < j ==> PairCount(sets, domains, a, b, pairs[i]) > 0)
    ensures ScanFrom(sets, domains, a, b, pairs, k).Compatible? ==>
      (ScanFrom(sets, domains, a, b, pairs, k).v1, ScanFrom(sets, domains, a, b, pairs, k).v2) == pairs[|pairs| - 1]
    decreases |pairs| - k
  {
    if k < |pairs| && PairCount(sets, domains, a, b, pairs[k]) > 0 && k < |pairs| - 1 {
      ScanFromMeaning(sets, domains, a, b, pairs, k + 1);
      var r := ScanFrom(sets, domains, a, b, pairs, k + 1);
      if r.Incompatible? {
        var j :| k + 1 <= j < |pairs| && PairCount(sets, domains, a, b, pairs[j]) == 0
                 && pairs[j] == (r.v1, r.v2)
                 && forall i :: k + 1 <= i < j ==> PairCount(sets, domains, a, b, pairs[i]) > 0;
        assert forall i :: k <= i < j ==> PairCount(sets, domains, a, b, pairs[i]) > 0;
      }
    }
  }

  /**
   * Two nodes are reported incompatible exactly when some pair of their
   * values is held by no row, and then with the first such pair; they are
   * reported compatible exactly when they have values and every pair is
   * held by some row, and then with the last pair.
   */
  lemma ScanMeaning(sets: Sets, domains: Domains, a: Declarations.Node, b: Declarations.Node)
    requires Indexed(sets, domains, a) && Indexed(sets, domains, b)
    ensures Scan(sets, domains, a, b).NoPairs? <==> |a.values| == 0 || |b.values| == 0
    ensures Scan(sets, domains, a, b).Incompatible? <==>
      exists v1, v2 :: v1 in a.values && v2 in b.values && PairCount(sets, domains, a, b, (v1, v2)) == 0
    ensures Scan(sets, domains, a, b).Incompatible? ==>
      Scan(sets, domains, a, b).v1 in a.values && Scan(sets, domains, a, b).v2 in b.values
      && PairCount(sets, domains, a, b, (Scan(sets, domains, a, b).v1, Scan(sets, domains, a, b).v2)) == 0
    ensures Scan(sets, domains, a, b).Compatible? ==>
      |a.values| > 0 && |b.values| > 0
      && (Scan(sets, domains, a, b).v1, Scan(sets, domains, a, b).v2) == (a.values[|a.values| - 1], b.values[|b.values| - 1])
      && forall v1, v2 :: v1 in a.values && v2 in b.values ==> PairCount(sets, domains, a, b, (v1, v2)) > 0
  {
    var pairs := ValuePairs(a.values, b.values);
    PairsInDomains(a, b);
    ScanFromMeaning(sets, domains, a, b, pairs, 0);
    assert |pairs| == |a.values| * |b.values|;
    if |a.values| > 0 && |b.values| > 0 {
      assert |pairs| > 0;
    }
    forall v1, v2 | v1 in a.values && v2 in b.values
      ensures (v1, v2) in pairs
    {
      ValuePairsMembers(a.values, b.values, (v1, v2));
    }
    if Scan(sets, domains, a, b).Compatible? {
      LastPair(a.values, b.values);
    }
  }

  /** The last pair joins the last values. */
  lemma {:induction false} LastPair(a: seq<string>, b: seq<string>)
    requires |a| > 0 && |b| > 0
    ensures ValuePairs(a, b)[|a| * |b| - 1] == (a[|a| - 1], b[|b| - 1])
    decreases |a|
  {
    if |a| > 1 {
      LastPair(a[1..], b);
      assert |a| * |b| == |b| + (|a| - 1) * |b|;
    }
  }

  /** The row holds value `p.0` in the column of `a` and value `p.1` in the column of `b`. */
  predicate HoldsPair(row: Row, a: Declarations.Node, b: Declarations.Node, p: (string, string)) {
    a.csvName in row && row[a.csvName] == p.0 && b.csvName in row && row[b.csvName] == p.1
  }

  /** The count of a pair is the number of rows holding both of its values. */
  lemma PairCountRows(sets: Sets, domains: Domains, rows: seq<Row>, a: Declarations.Node, b: Declarations.Node, p: (string, string))
    requires Estimator.IndexOf(sets, domains, rows)
    requires Indexed(sets, domains, a) && Indexed(sets, domains, b) && p.0 in a.values && p.1 in b.values
    ensures PairCount(sets, domains, a, b, p) == |Matches(rows, a.csvName, Some(p.0), [(b.csvName, p.1)])|
  {
    CountMeaning(sets, domains, rows, a.csvName, Some(p.0), [(b.csvName, p.1)]);
  }

  /** A pair counts zero exactly when no row holds both values. */
  lemma PairCountMeaning(sets: Sets, domains: Domains, rows: seq<Row>, a: Declarations.Node, b: Declarations.Node, p: (string, string))
    requires Estimator.IndexOf(sets, domains, rows)
    requires Indexed(sets, domains, a) && Indexed(sets, domains, b) && p.0 in a.values && p.1 in b.values
    ensures PairCount(sets, domains, a, b, p) == 0 <==> forall i :: 0 <= i < |rows| ==> !HoldsPair(rows[i], a, b, p)
  {
    var condition := [(b.csvName, p.1)];
    var matching := Matches(rows, a.csvName, Some(p.0), condition);
    PairCountRows(sets, domains, rows, a, b, p);
    forall i: nat | i < |rows|
      ensures i in matching <==> HoldsPair(rows[i], a, b, p)
    {
      assert RowMatches(rows[i], a.csvName, Some(p.0), condition) <==> HoldsPair(rows[i], a, b, p);
    }
    if matching != {} {
      var i :| i in matching;
      assert HoldsPair(rows[i], a, b, p);
    }
  }

  // ------------------------------------------------------------------
  // The reports over all node pairs
  // ------------------------------------------------------------------

  /** Every node's values are indexed. */
  predicate AllIndexed(sets: Sets, domains: Domains, nodes: seq<Declarations.Node>) {
    forall i :: 0 <= i < |nodes| ==> Indexed(sets, domains, nodes[i])
  }

  /** The two lists with the outcome of the pair `(i, j)` recorded. */
  function Record(sets: Sets, domains: Domains, nodes: seq<Declarations.Node>, lists: (seq<Report>, seq<Report>), i: nat, j: nat): (seq<Report>, seq<Report>)
    requires AllIndexed(sets, domains, nodes) && i < |nodes| && j < |nodes|
  {
    match Scan(sets, domains, nodes[i], nodes[j])
    case NoPairs => lists
    case Incompatible(v1, v2) => (lists.0 + [(nodes[i].name, v1, nodes[j].name, v2)], lists.1)
    case Compatible(v1, v2) => (lists.0, lists.1 + [(nodes[i].name, v1, nodes[j].name, v2)])
  }

  /** The two lists after every pair whose first node comes before node `i`. */
  function Before(sets: Sets, domains: Domains, nodes: seq<Declarations.Node>, i: nat): (seq<Report>, seq<Report>)
    requires AllIndexed(sets, domains, nodes) && i <= |nodes|
    decreases i, 0, 0
  {
    if i == 0 then ([], []) else Within(sets, domains, nodes, i - 1, |nodes|)
  }

  /** The two lists after the pairs of node `i` with the nodes after it and before node `j`. */
  function Within(sets: Sets, domains: Domains, nodes: seq<Declarations.Node>, i: nat, j: nat): (seq<Report>, seq<Report>)
    requires AllIndexed(sets, domains, nodes) && i < |nodes| && j <= |nodes|
    decreases i, 1, j
  {
    if j <= i + 1 then Before(sets, domains, nodes, i)
    else Record(sets, domains, nodes, Within(sets, domains, nodes, i, j - 1), i, j - 1)
  }

  /** The report of pair `(i, j)` when it goes to the incompatible list (`incompatible`) or the compatible one. */
  predicate ReportOf(sets: Sets, domains: Domains, nodes: seq<Declarations.Node>, i: nat, j: nat, incompatible: bool, q: Report)
    requires AllIndexed(sets, domains, nodes) && i < |nodes| && j < |nodes|
  {
    var outcome := Scan(sets, domains, nodes[i], nodes[j]);
    (if incompatible then outcome.Incompatible? else outcome.Compatible?)
    && q == (nodes[i].name, outcome.v1, nodes[j].name, outcome.v2)
  }

  /** The list chosen by `incompatible`. */
  function Pick(lists: (seq<Report>, seq<Report>), incompatible: bool): seq<Report> {
    if incompatible then lists.0 else lists.1
  }

  /** `q` is the report, for the list chosen by `incompatible`, of a pair `(i', j')` coming before `(i, j)`. */
  ghost predicate Reported(sets: Sets, domains: Domains, nodes: seq<Declarations.Node>, i: nat, j: nat, incompatible: bool, q: Report)
    requires AllIndexed(sets, domains, nodes)
  {
    exists i', j' :: 0 <= i' < j' < |nodes| && (i' < i || (i' == i && j' < j)) && ReportOf(sets, domains, nodes, i', j', incompatible, q)
  }

  /** Moving past the pair `(i, j - 1)` adds its report. */
  lemma ReportedStep(sets: Sets, domains: Domains, nodes: seq<Declarations.Node>, i: nat, j: nat, incompatible: bool, q: Report)
    requires AllIndexed(sets, domains, nodes) && i + 1 < j <= |nodes|
    ensures Reported(sets, domains, nodes, i, j, incompatible, q) <==>
      Reported(sets, domains, nodes, i, j - 1, incompatible, q) || ReportOf(sets, domains, nodes, i, j - 1, incompatible, q)
  {
    if Reported(sets, domains, nodes, i, j, incompatible, q) {
      var i', j' :| 0 <= i' < j' < |nodes| && (i' < i || (i' == i && j' < j)) && ReportOf(sets, domains, nodes, i', j', incompatible, q);
      if !(i' == i && j' == j - 1) {
        assert i' < i || (i' == i && j' < j - 1);
      }
    }
  }

  /** No pair starts at node `i` and ends at or before it. */
  lemma ReportedBase(sets: Sets, domains: Domains, nodes: seq<Declarations.Node>, i: nat, j: nat, incompatible: bool, q: Report)
    requires AllIndexed(sets, domains, nodes) && j <= i + 1
    ensures Reported(sets, domains, nodes, i, j, incompatible, q) <==> Reported(sets, domains, nodes, i, 0, incompatible, q)
  {
    if Reported(sets, domains, nodes, i, j, incompatible, q) {
      var i', j' :| 0 <= i' < j' < |nodes| && (i' < i || (i' == i && j' < j)) && ReportOf(sets, domains, nodes, i', j', incompatible, q);
      assert i' < i;
    }
  }

  /** Every pair starting at node `i` comes before the first pair of node `i + 1`. */
  lemma ReportedRow(sets: Sets, domains: Domains, nodes: seq<Declarations.Node>, i: nat, incompatible: bool, q: Report)
    requires AllIndexed(sets, domains, nodes)
    ensures Reported(sets, domains, nodes, i, |nodes|, incompatible, q) <==> Reported(sets, domains, nodes, i + 1, 0, incompatible, q)
  {
    if Reported(sets, domains, nodes, i + 1, 0, incompatible, q) {
      var i', j' :| 0 <= i' < j' < |nodes| && i' < i + 1 && ReportOf(sets, domains, nodes, i', j', incompatible, q);
      assert i' < i || (i' == i && j' < |nodes|);
    }
  }

  /**
   * After the pairs before `(i, j)`, a report is in a list exactly when it
   * is the report of one of those pairs for that list.
   */
  lemma {:induction false} WithinReports(sets: Sets, domains: Domains, nodes: seq<Declarations.Node>, i: nat, j: nat, incompatible: bool, q: Report)
    requires AllIndexed(sets, domains, nodes) && i < |nodes| && j <= |nodes|
    ensures q in Pick(Within(sets, domains, nodes, i, j), incompatible) <==> Reported(sets, domains, nodes, i, j, incompatible, q)
    decreases i, 1, j
  {
    if j <= i + 1 {
      BeforeReports(sets, domains, nodes, i, incompatible, q);
      ReportedBase(sets, domains, nodes, i, j, incompatible, q);
    } else {
      WithinReports(sets, domains, nodes, i, j - 1, incompatible, q);
      ReportedStep(sets, domains, nodes, i, j, incompatible, q);
      var lists := Within(sets, domains, nodes, i, j - 1);
      assert Within(sets, domains, nodes, i, j) == Record(sets, domains, nodes, lists, i, j - 1);
    }
  }

  /** After the pairs whose first node comes before node `i`, a report is in a list exactly when it is the report of one of them. */
  lemma {:induction false} BeforeReports(sets: Sets, domains: Domains, nodes: seq<Declarations.Node>, i: nat, incompatible: bool, q: Report)
    requires AllIndexed(sets, domains, nodes) && i <= |nodes|
    ensures q in Pick(Before(sets, domains, nodes, i), incompatible) <==> Reported(sets, domains, nodes, i, 0, incompatible, q)
    decreases i, 0, 0
  {
    if i > 0 {
      WithinReports(sets, domains, nodes, i - 1, |nodes|, incompatible, q);
      ReportedRow(sets, domains, nodes, i - 1, incompatible, q);
    }
  }

  /**
   * The diagnostic over the whole network: a report is listed as
   * incompatible (compatible) exactly when it names two nodes, the earlier
   * one first, and the walk over their value pairs ended incompatible
   * (compatible) with the report's values.
   */
  lemma AllReports(sets: Sets, domains: Domains, nodes: seq<Declarations.Node>, incompatible: bool, q: Report)
    requires AllIndexed(sets, domains, nodes)
    ensures q in Pick(Before(sets, domains, nodes, |nodes|), incompatible) <==>
      (exists i, j :: 0 <= i < j < |nodes| && ReportOf(sets, domains, nodes, i, j, incompatible, q))
  {
    BeforeReports(sets, domains, nodes, |nodes|, incompatible, q);
  }

  // ------------------------------------------------------------------
  // The loops
  // ------------------------------------------------------------------

  /** The walk over the value pairs of two nodes, stopping at the first pair no row holds. */
  method ScanPairs(sets: Sets, domains: Domains, a: Declarations.Node, b: Declarations.Node) returns (outcome: Outcome)
    requires Indexed(sets, domains, a) && Indexed(sets, domains, b)
    ensures outcome == Scan(sets, domains, a, b)
  {
    var pairs := ValuePairs(a.values, b.values);
    PairsInDomains(a, b);
    outcome := NoPairs;
    var k := 0;
    while k < |pairs|
      invariant 0 <= k <= |pairs|
      invariant Scan(sets, domains, a, b) == if outcome.NoPairs? then ScanFrom(sets, domains, a, b, pairs, k) else outcome
      invariant !outcome.NoPairs? ==> k == |pairs|
    {
      var count := Count(sets, domains, a.csvName, Some(pairs[k].0), [(b.csvName, pairs[k].1)]).value;
      if count == 0 {
        outcome := Incompatible(pairs[k].0, pairs[k].1);
        break;
      }
      if k == |pairs| - 1 {
        outcome := Compatible(pairs[k].0, pairs[k].1);
      }
      k := k + 1;
    }
  }

  /**
   * `printIncompatibleNodes` without the printing: the incompatible and the
   * compatible reports of every pair of nodes, in the order of the network.
   */
  method IncompatibleNodes(sets: Sets, domains: Domains, nodes: seq<Declarations.Node>) returns (incompatible: seq<Report>, compatible: seq<Report>)
    requires AllIndexed(sets, domains, nodes)
    ensures (incompatible, compatible) == Before(sets, domains, nodes, |nodes|)
  {
    incompatible, compatible := [], [];
    for i := 0 to |nodes|
      invariant (incompatible, compatible) == Before(sets, domains, nodes, i)
    {
      for j := i + 1 to |nodes|
        invariant (incompatible, compatible) == Within(sets, domains, nodes, i, j)
      {
        var outcome := ScanPairs(sets, domains, nodes[i], nodes[j]);
        match outcome
        case NoPairs =>
        case Incompatible(v1, v2) =>
          incompatible := incompatible + [(nodes[i].name, v1, nodes[j].name, v2)];
        case Compatible(v1, v2) =>
          compatible := compatible + [(nodes[i].name, v1, nodes[j].name, v2)];
      }
    }
  }

  /** The nodes of a declared network in declaration order, as `network.items()` lists them. */
  function Items(st: Declarations.Declared): (r: seq<Declarations.Node>)
    requires forall n :: n in st.order ==> n in st.nodes
    ensures |r| == |st.order| && forall i :: 0 <= i < |st.order| ==> r[i] == st.nodes[st.order[i]]
  {
    seq(|st.order|, i requires 0 <= i < |st.order| => st.nodes[st.order[i]])
  }

  /**
   * In a well-formed network the items list every node exactly once, in
   * declaration order.
   */
  lemma ItemsEnumerate(st: Declarations.Declared)
    requires Declarations.WellFormed(st)
    ensures forall i :: 0 <= i < |Items(st)| ==>
      Items(st)[i].name == st.order[i] && Items(st)[i].name in st.nodes && Items(st)[i] == st.nodes[Items(st)[i].name]
    ensures forall n :: n in st.nodes ==> exists i :: 0 <= i < |Items(st)| && Items(st)[i] == st.nodes[n]
    ensures forall i, j :: 0 <= i < j < |Items(st)| ==> Items(st)[i] != Items(st)[j]
  {
    var r := Items(st);
    forall n | n in st.nodes
      ensures exists i :: 0 <= i < |r| && r[i] == st.nodes[n]
    {
      var i :| 0 <= i < |st.order| && st.order[i] == n;
      assert r[i] == st.nodes[n];
    }
    forall i, j | 0 <= i < j < |r|
      ensures r[i] != r[j]
    {
      assert r[i].name == st.order[i] && r[j].name == st.order[j];
    }
  }

  /** An index covering the network's domains covers every node of the network. */
  lemma ItemsIndexed(sets: Sets, st: Declarations.Declared)
    requires Declarations.Tabled(st) && (forall n :: n in st.order ==> n in st.nodes)
    requires Estimator.Covers(sets, Estimator.DomainsOf(st))
    ensures AllIndexed(sets, Estimator.DomainsOf(st), Items(st))
  {
    forall i | 0 <= i < |st.order|
      ensures Indexed(sets, Estimator.DomainsOf(st), Items(st)[i])
    {
      Estimator.DomainsOfNode(st, st.order[i]);
    }
  }
}
