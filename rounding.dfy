/**
 * The rounding-error correction of a CPD row (`removeRoundingErrors`): the
 * units lost by flooring are handed out one at a time, round-robin from the
 * first entry, skipping entries that are exactly zero, until the row sums to 1.
 */
module Rounding {
  import opened Decimal16

  /** Position of entry `i` among the non-zero entries: how many non-zero entries precede it. */
  function Rank(row: seq<nat>, i: nat): nat
    requires i <= |row|
  {
    if i == 0 then 0 else Rank(row, i - 1) + (if row[i - 1] == 0 then 0 else 1)
  }

  /** Number of non-zero entries of a row. */
  function NonzeroCount(row: seq<nat>): nat {
    Rank(row, |row|)
  }

  /** Ranks never decrease along the row, and a non-zero entry strictly raises the rank of all later entries. */
  lemma {:induction false} RankMonotone(row: seq<nat>, i: nat, j: nat)
    requires i <= j <= |row|
    ensures Rank(row, i) <= Rank(row, j)
    ensures i < j && row[i] != 0 ==> Rank(row, i) < Rank(row, j)
    decreases j - i
  {
    if i < j {
      RankMonotone(row, i + 1, j);
    }
  }

  /** A non-zero entry's rank is below the number of non-zero entries. */
  lemma RankBelowCount(row: seq<nat>, i: nat)
    requires i < |row| && row[i] != 0
    ensures Rank(row, i) < NonzeroCount(row)
  {
    RankMonotone(row, i, |row|);
  }

  /** Every rank below `Rank(row, j)` belongs to some non-zero entry before `j`. */
  lemma {:induction false} RankHitBefore(row: seq<nat>, j: nat, r: nat)
    requires j <= |row| && r < Rank(row, j)
    ensures exists i :: 0 <= i < j && row[i] != 0 && Rank(row, i) == r
  {
    if r == Rank(row, j - 1) {
      assert row[j - 1] != 0;
    } else {
      RankHitBefore(row, j - 1, r);
    }
  }

  /** Every rank below the number of non-zero entries belongs to some non-zero entry. */
  lemma RankHit(row: seq<nat>, r: nat)
    requires r < NonzeroCount(row)
    ensures exists i :: 0 <= i < |row| && row[i] != 0 && Rank(row, i) == r
  {
    RankHitBefore(row, |row|, r);
  }

  /**
   * Units received by the non-zero entry of rank `rank` when `total` units are
   * dealt round-robin over `nz` non-zero entries.
   */
  function Share(total: nat, nz: nat, rank: nat): nat
    requires rank < nz
  {
    total / nz + (if rank < total % nz then 1 else 0)
  }

  /** `k` whole multiples of `nz` are at least `nz` when `k >= 1`. */
  lemma {:induction false} MultipleAtLeast(k: nat, nz: nat)
    requires k >= 1
    ensures k * nz >= nz
  {
    if k > 1 {
      MultipleAtLeast(k - 1, nz);
      assert k * nz == (k - 1) * nz + nz;
    }
  }

  /** `t == q * nz + m` with `m < nz` determines quotient and remainder. */
  lemma DivModOf(t: nat, nz: nat, q: nat, m: nat)
    requires 0 <= m < nz && t == q * nz + m
    ensures t / nz == q && t % nz == m
  {
    var q', m' := t / nz, t % nz;
    assert t == q' * nz + m';
    if q' < q {
      var d: nat := q - q';
      assert q * nz == q' * nz + d * nz;
      MultipleAtLeast(d, nz);
    } else if q < q' {
      var d: nat := q' - q;
      assert q' * nz == q * nz + d * nz;
      MultipleAtLeast(d, nz);
    }
  }

  /** Dealing one more unit adds exactly one unit, to the entry whose rank is `total % nz`. */
  lemma ShareStep(total: nat, nz: nat, rank: nat)
    requires rank < nz
    ensures Share(total + 1, nz, rank) == Share(total, nz, rank) + (if rank == total % nz then 1 else 0)
  {
    var q, m := total / nz, total % nz;
    if m + 1 < nz {
      DivModOf(total + 1, nz, q, m + 1);
    } else {
      assert (q + 1) * nz == q * nz + nz;
      DivModOf(total + 1, nz, q + 1, 0);
    }
  }

  /** Entry `i` of the row after `total` units have been dealt round-robin over the non-zero entries. */
  function Dealt(row: seq<nat>, total: nat, i: nat): nat
    requires i < |row|
    requires total == 0 || NonzeroCount(row) > 0
  {
    if row[i] == 0 then 0
    else RankBelowCount(row, i); row[i] + Share(total, NonzeroCount(row), Rank(row, i))
  }

  /**
   * The row after `total` units have been dealt round-robin over its non-zero
   * entries, starting at the first one; zero entries stay zero.
   */
  function Spread(row: seq<nat>, total: nat): (r: seq<nat>)
    requires total == 0 || NonzeroCount(row) > 0
    ensures |r| == |row|
  {
    SpreadPrefix(row, total, |row|)
  }

  /** The first `k` entries of `Spread(row, total)`. */
  function SpreadPrefix(row: seq<nat>, total: nat, k: nat): (r: seq<nat>)
    requires k <= |row|
    requires total == 0 || NonzeroCount(row) > 0
    ensures |r| == k
  {
    if k == 0 then [] else SpreadPrefix(row, total, k - 1) + [Dealt(row, total, k - 1)]
  }

  lemma {:induction false} SpreadPrefixAt(row: seq<nat>, total: nat, k: nat)
    requires k <= |row|
    requires total == 0 || NonzeroCount(row) > 0
    ensures |SpreadPrefix(row, total, k)| == k
    ensures forall i :: 0 <= i < k ==> SpreadPrefix(row, total, k)[i] == Dealt(row, total, i)
  {
    if k > 0 {
      SpreadPrefixAt(row, total, k - 1);
    }
  }

  /** `Spread` entry by entry. */
  lemma SpreadAt(row: seq<nat>, total: nat)
    requires total == 0 || NonzeroCount(row) > 0
    ensures |Spread(row, total)| == |row|
    ensures forall i :: 0 <= i < |row| ==> Spread(row, total)[i] == Dealt(row, total, i)
  {
    SpreadPrefixAt(row, total, |row|);
  }

  lemma SpreadZero(row: seq<nat>)
    ensures Spread(row, 0) == row
  {
    SpreadAt(row, 0);
    forall i | 0 <= i < |row| && row[i] != 0
      ensures Spread(row, 0)[i] == row[i]
    {
      RankBelowCount(row, i);
      DivModOf(0, NonzeroCount(row), 0, 0);
    }
  }

  /** Dealing unit number `total + 1` raises entry `j` exactly when `j` is the entry of rank `total % nz`. */
  lemma DealtStep(row: seq<nat>, total: nat, i: nat, j: nat)
    requires NonzeroCount(row) > 0
    requires i < |row| && row[i] != 0 && Rank(row, i) == total % NonzeroCount(row)
    requires j < |row|
    ensures Dealt(row, total + 1, j) == Dealt(row, total, j) + (if j == i then 1 else 0)
  {
    if row[j] != 0 {
      RankBelowCount(row, j);
      ShareStep(total, NonzeroCount(row), Rank(row, j));
      if j < i {
        RankMonotone(row, j, i);
      } else if i < j {
        RankMonotone(row, i, j);
      }
    }
  }

  /** Dealing unit number `total + 1` raises only the entry of rank `total % nz`. */
  lemma SpreadStep(row: seq<nat>, total: nat, i: nat)
    requires NonzeroCount(row) > 0
    requires i < |row| && row[i] != 0 && Rank(row, i) == total % NonzeroCount(row)
    ensures Spread(row, total + 1) == Spread(row, total)[i := Spread(row, total)[i] + 1]
  {
    var a, b := Spread(row, total), Spread(row, total + 1);
    SpreadAt(row, total);
    SpreadAt(row, total + 1);
    forall j | 0 <= j < |row|
      ensures b[j] == a[i := a[i] + 1][j]
    {
      DealtStep(row, total, i, j);
    }
  }

  /** Raising one entry by one unit raises the total by one unit. */
  lemma {:induction false} SumIncrement(s: seq<nat>, i: nat)
    requires i < |s|
    ensures Sum(s[i := s[i] + 1]) == Sum(s) + 1
  {
    if i > 0 {
      assert s[i := s[i] + 1][1..] == s[1..][i - 1 := s[i] + 1];
      SumIncrement(s[1..], i - 1);
    }
  }

  /** Dealing `total` units raises the row's total by exactly `total`. */
  lemma {:induction false} SpreadSum(row: seq<nat>, total: nat)
    requires total == 0 || NonzeroCount(row) > 0
    ensures Sum(Spread(row, total)) == Sum(row) + total
  {
    if total == 0 {
      SpreadZero(row);
    } else {
      var nz := NonzeroCount(row);
      var prev := total - 1;
      var r := prev % nz;
      SpreadSum(row, prev);
      RankHit(row, r);
      var i :| 0 <= i < |row| && row[i] != 0 && Rank(row, i) == r;
      SpreadStep(row, prev, i);
      SumIncrement(Spread(row, prev), i);
    }
  }

  /**
   * The row is correctable when flooring left it at most 1 and, if units are
   * missing, there is a non-zero entry to give them to (otherwise the source's
   * loop never ends).
   */
  predicate Correctable(row: seq<nat>) {
    Sum(row) <= Scale && (Sum(row) < Scale ==> NonzeroCount(row) > 0)
  }

  /** The row after the correction: all missing units dealt out. */
  function Corrected(row: seq<nat>): seq<nat>
    requires Correctable(row)
  {
    Spread(row, Scale - Sum(row))
  }

  /** The corrected row sums to exactly 1 (the assertion after the loop). */
  lemma CorrectedSumsToOne(row: seq<nat>)
    requires Correctable(row)
    ensures Sum(Corrected(row)) == Scale
  {
    SpreadSum(row, Scale - Sum(row));
  }

  /**
   * The correction keeps the row length, keeps every zero entry zero, turns no
   * non-zero entry into zero and never lowers an entry.
   */
  lemma CorrectedKeepsZeros(row: seq<nat>)
    requires Correctable(row)
    ensures |Corrected(row)| == |row|
    ensures forall i :: 0 <= i < |row| ==> (Corrected(row)[i] == 0 <==> row[i] == 0)
    ensures forall i :: 0 <= i < |row| ==> Corrected(row)[i] >= row[i]
  {
    SpreadAt(row, Scale - Sum(row));
  }

  /** If no entry of `a` exceeds its counterpart in `b`, no entry gains more than the totals differ by. */
  lemma {:induction false} GainBelowTotal(a: seq<nat>, b: seq<nat>, i: nat)
    requires |a| == |b| && i < |a|
    requires forall k :: 0 <= k < |a| ==> a[k] <= b[k]
    ensures b[i] - a[i] <= Sum(b) - Sum(a)
  {
    if i == 0 {
      SumBelowPointwise(a[1..], b[1..]);
    } else {
      GainBelowTotal(a[1..], b[1..], i - 1);
    }
  }

  lemma {:induction false} SumBelowPointwise(a: seq<nat>, b: seq<nat>)
    requires |a| == |b|
    requires forall k :: 0 <= k < |a| ==> a[k] <= b[k]
    ensures Sum(a) <= Sum(b)
  {
    if |a| > 0 {
      SumBelowPointwise(a[1..], b[1..]);
    }
  }

  /** No entry gains more units than were missing. */
  lemma CorrectedGainBound(row: seq<nat>, i: nat)
    requires Correctable(row) && i < |row|
    ensures Corrected(row)[i] - row[i] <= Scale - Sum(row)
  {
    CorrectedKeepsZeros(row);
    CorrectedSumsToOne(row);
    GainBelowTotal(row, Corrected(row), i);
  }

  /**
   * Round-robin fairness: among non-zero entries, an earlier entry receives at
   * least as many units as a later one, and at most one more.
   */
  lemma CorrectedRoundRobin(row: seq<nat>, i: nat, j: nat)
    requires Correctable(row)
    requires i < j < |row| && row[i] != 0 && row[j] != 0
    ensures Corrected(row)[j] as int - row[j] <= Corrected(row)[i] as int - row[i] <= Corrected(row)[j] as int - row[j] + 1
  {
    SpreadAt(row, Scale - Sum(row));
    RankMonotone(row, i, j);
    RankBelowCount(row, j);
  }

  /** An entry of a dealt row is zero exactly when it was zero before dealing. */
  lemma SpreadZeroIff(row: seq<nat>, total: nat, i: nat)
    requires total == 0 || NonzeroCount(row) > 0
    requires i < |row|
    ensures Spread(row, total)[i] == 0 <==> row[i] == 0
  {
    SpreadAt(row, total);
  }

  /** `passes` full rounds over `nz` non-zero entries deal `Rounds(passes, nz)` units. */
  function Rounds(passes: nat, nz: nat): nat {
    if passes == 0 then 0 else Rounds(passes - 1, nz) + nz
  }

  lemma {:induction false} RoundsIsProduct(passes: nat, nz: nat)
    ensures Rounds(passes, nz) == passes * nz
  {
    if passes > 0 {
      RoundsIsProduct(passes - 1, nz);
      assert passes * nz == (passes - 1) * nz + nz;
    }
  }

  /**
   * One step of the dealing loop: in pass `passes`, the non-zero entry `i`
   * receives unit number `given + 1`.
   */
  lemma DealOne(row: seq<nat>, given: nat, passes: nat, i: nat)
    requires NonzeroCount(row) > 0
    requires i < |row| && row[i] != 0
    requires given == Rounds(passes, NonzeroCount(row)) + Rank(row, i)
    ensures Spread(row, given + 1) == Spread(row, given)[i := Spread(row, given)[i] + 1]
  {
    RankBelowCount(row, i);
    RoundsIsProduct(passes, NonzeroCount(row));
    DivModOf(given, NonzeroCount(row), passes, Rank(row, i));
    SpreadStep(row, given, i);
  }

  /**
   * `removeRoundingErrors`: deal the missing units round-robin over the
   * non-zero entries of `row`, in place.
   */
  method RemoveRoundingErrors(row: array<nat>)
    requires Correctable(row[..])
    modifies row
    ensures row[..] == Corrected(old(row[..]))
  {
    ghost var orig := row[..];
    ghost var nz := NonzeroCount(orig);
    var missing: nat := Scale - Sum(row[..]);
    ghost var total := missing;
    // units dealt so far, and how many of them were dealt before the current pass
    ghost var given: nat := 0;
    ghost var passes: nat := 0;
    SpreadZero(orig);
    while missing > 0
      invariant row.Length == |orig|
      invariant given + missing == total
      invariant row[..] == Spread(orig, given)
      invariant missing > 0 ==> nz > 0 && given == Rounds(passes, nz)
      decreases missing
    {
      var i := 0;
      while i < row.Length
        invariant 0 <= i <= row.Length == |orig|
        invariant given + missing == total
        invariant row[..] == Spread(orig, given)
        invariant missing > 0 ==> given == Rounds(passes, nz) + Rank(orig, i)
      {
        if missing == 0 {
          break;
        }
        assert row[i] == 0 <==> orig[i] == 0 by {
          SpreadZeroIff(orig, given, i);
        }
        if row[i] != 0 {
          assert Spread(orig, given + 1) == row[..][i := row[i] + 1] by {
            DealOne(orig, given, passes, i);
          }
          row[i] := row[i] + 1;
          missing := missing - 1;
          given := given + 1;
        }
        i := i + 1;
      }
      if missing > 0 {
        assert given == Rounds(passes + 1, nz);
      }
      passes := passes + 1;
    }
    assert given == Scale - Sum(orig);
  }
}
