/**
 * The conditions of a node: every combination of one (column, value) pair
 * per parent, as `itertools.product` lists them (the first parent varies
 * slowest, the last parent fastest), and their number, the product of the
 * parents' domain sizes.
 */
module Conditions {

  /** The number of combinations: the product of the list lengths (1 for no lists). */
  function Complexity<T>(lists: seq<seq<T>>): nat {
    if |lists| == 0 then 1 else |lists[0]| * Complexity(lists[1..])
  }

  /** Every head in order, each followed by every tail in order. */
  function Prefixed<T>(heads: seq<T>, tails: seq<seq<T>>): seq<seq<T>>
    decreases |heads|
  {
    if |heads| == 0 then []
    else seq(|tails|, k requires 0 <= k < |tails| => [heads[0]] + tails[k]) + Prefixed(heads[1..], tails)
  }

  /** The cartesian product of `lists`, in `itertools.product` order. */
  function Product<T>(lists: seq<seq<T>>): seq<seq<T>>
    decreases |lists|
  {
    if |lists| == 0 then [[]] else Prefixed(lists[0], Product(lists[1..]))
  }

  /** `Prefixed` holds `|heads| * |tails|` rows. */
  lemma {:induction false} PrefixedLength<T>(heads: seq<T>, tails: seq<seq<T>>)
    ensures |Prefixed(heads, tails)| == |heads| * |tails|
    decreases |heads|
  {
    if |heads| > 0 {
      PrefixedLength(heads[1..], tails);
      assert (|heads| - 1) * |tails| + |tails| == |heads| * |tails|;
    }
  }

  /** Row `a*|tails|+b` of `Prefixed` is head `a` before tail `b`. */
  lemma {:induction false} PrefixedIndex<T>(heads: seq<T>, tails: seq<seq<T>>, a: nat, b: nat)
    requires a < |heads| && b < |tails|
    ensures a * |tails| + b < |Prefixed(heads, tails)|
    ensures Prefixed(heads, tails)[a * |tails| + b] == [heads[a]] + tails[b]
    decreases a
  {
    PrefixedLength(heads, tails);
    PrefixedLength(heads[1..], tails);
    var m := |tails|;
    if a > 0 {
      PrefixedIndex(heads[1..], tails, a - 1, b);
      assert a * m + b == m + ((a - 1) * m + b);
      assert heads[1..][a - 1] == heads[a];
    }
  }

  /** A row of `Prefixed` is a head followed by a tail. */
  lemma {:induction false} PrefixedMember<T>(heads: seq<T>, tails: seq<seq<T>>, c: seq<T>)
    requires c in Prefixed(heads, tails)
    ensures |c| > 0 && c[0] in heads && c[1..] in tails
    decreases |heads|
  {
    var first := seq(|tails|, k requires 0 <= k < |tails| => [heads[0]] + tails[k]);
    if c in first {
      var k :| 0 <= k < |tails| && first[k] == c;
      assert c[1..] == tails[k];
    } else {
      PrefixedMember(heads[1..], tails, c);
    }
  }

  /** A head followed by a tail is a row of `Prefixed`. */
  lemma {:induction false} PrefixedHas<T>(heads: seq<T>, tails: seq<seq<T>>, c: seq<T>)
    requires |c| > 0 && c[0] in heads && c[1..] in tails
    ensures c in Prefixed(heads, tails)
    decreases |heads|
  {
    var first := seq(|tails|, k requires 0 <= k < |tails| => [heads[0]] + tails[k]);
    if c[0] == heads[0] {
      var k :| 0 <= k < |tails| && tails[k] == c[1..];
      assert first[k] == c;
    } else {
      PrefixedHas(heads[1..], tails, c);
    }
  }

  /** There are `Complexity(lists)` conditions (1, the empty one, when there are no parents). */
  lemma {:induction false} ProductLength<T>(lists: seq<seq<T>>)
    ensures |Product(lists)| == Complexity(lists)
    decreases |lists|
  {
    if |lists| > 0 {
      ProductLength(lists[1..]);
      PrefixedLength(lists[0], Product(lists[1..]));
    }
  }

  /** A combination picks, at each position, an element of the list at that position. */
  predicate Picks<T(==)>(lists: seq<seq<T>>, c: seq<T>) {
    |c| == |lists| && forall i :: 0 <= i < |c| ==> c[i] in lists[i]
  }

  /** Every condition picks one element from each list, in order. */
  lemma {:induction false} ProductShape<T>(lists: seq<seq<T>>, c: seq<T>)
    requires c in Product(lists)
    ensures Picks(lists, c)
    decreases |lists|
  {
    if |lists| > 0 {
      PrefixedMember(lists[0], Product(lists[1..]), c);
      ProductShape(lists[1..], c[1..]);
      forall i | 1 <= i < |c|
        ensures c[i] in lists[i]
      {
        assert c[i] == c[1..][i - 1];
        assert lists[1..][i - 1] == lists[i];
      }
    }
  }

  /** Every combination that picks one element from each list is a condition. */
  lemma {:induction false} ProductComplete<T>(lists: seq<seq<T>>, c: seq<T>)
    requires Picks(lists, c)
    ensures c in Product(lists)
    decreases |lists|
  {
    if |lists| > 0 {
      assert Picks(lists[1..], c[1..]) by {
        forall i | 0 <= i < |c| - 1
          ensures c[1..][i] in lists[1..][i]
        {
          assert c[1..][i] == c[i + 1];
        }
      }
      ProductComplete(lists[1..], c[1..]);
      PrefixedHas(lists[0], Product(lists[1..]), c);
    }
  }

  /**
   * Product order: the conditions come in blocks, one per element of the
   * first list in order, each block listing the conditions of the remaining
   * lists in their own order (so the last list varies fastest).
   */
  lemma ProductOrder<T>(lists: seq<seq<T>>, a: nat, b: nat)
    requires |lists| > 0 && a < |lists[0]| && b < Complexity(lists[1..])
    ensures |Product(lists[1..])| == Complexity(lists[1..]) && |Product(lists)| == Complexity(lists)
    ensures a * Complexity(lists[1..]) + b < Complexity(lists)
    ensures Product(lists)[a * Complexity(lists[1..]) + b] == [lists[0][a]] + Product(lists[1..])[b]
  {
    ProductLength(lists[1..]);
    ProductLength(lists);
    PrefixedIndex(lists[0], Product(lists[1..]), a, b);
  }
}
