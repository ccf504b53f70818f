/** Small shared vocabulary: an optional value and distinctness of a sequence. */
module Basics {

  /** A value that may be absent (Python's `None`). */
  datatype Option<T> = None | Some(value: T)

  /** The outcome of an operation that either produces a value or stops with an error. */
  datatype Result<T, E> = Ok(value: T) | Err(error: E)

  /** No element of `s` occurs twice. */
  predicate Distinct<T(==)>(s: seq<T>) {
    forall i, j :: 0 <= i < j < |s| ==> s[i] != s[j]
  }

  /** A sequence without repetitions is no longer than any set holding all of its elements. */
  lemma {:induction false} DistinctLengthBound<T>(s: seq<T>, universe: set<T>)
    requires Distinct(s)
    requires forall x :: x in s ==> x in universe
    ensures |s| <= |universe|
  {
    if |s| > 0 {
      var last := s[|s| - 1];
      var rest := s[..|s| - 1];
      assert forall x :: x in rest ==> x in universe - {last} by {
        forall x | x in rest ensures x in universe - {last} {
          var k :| 0 <= k < |rest| && rest[k] == x;
          assert s[k] == x && k < |s| - 1;
        }
      }
      DistinctLengthBound(rest, universe - {last});
    }
  }
}
