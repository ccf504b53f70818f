/**
 * The textual formats of the network declaration: node names, value
 * strings, grid positions such as "(2, 3)" and edges such as "A -> B".
 *
 * Python's `re` engine is not modelled; each pattern becomes a predicate or a
 * scanner over characters. Two details of the patterns are kept: `$` also
 * matches in front of one final newline, and the greedy source group of the
 * edge pattern makes the source the LONGEST token that still leaves a valid
 * arrow and target ("A->B->C" has source "A->B" and target "C").
 */
module Formats {
  import opened Basics

  // ------------------------------------------------------------------
  // Character classes
  // ------------------------------------------------------------------

  predicate IsAsciiLetter(c: char) {
    'a' <= c <= 'z' || 'A' <= c <= 'Z'
  }

  predicate IsDigit(c: char) {
    '0' <= c <= '9'
  }

  predicate IsNameChar(c: char) {
    IsAsciiLetter(c) || IsDigit(c) || c == '_'
  }

  /** `\s` of a `str` pattern: the characters for which Python's `str.isspace` holds. */
  predicate IsSpace(c: char) {
    '\t' <= c <= '\r' || '\U{1c}' <= c <= '\U{1f}' || c == ' ' || c == '\U{85}' || c == '\U{a0}'
    || c == '\U{1680}' || '\U{2000}' <= c <= '\U{200a}' || c == '\U{2028}' || c == '\U{2029}'
    || c == '\U{202f}' || c == '\U{205f}' || c == '\U{3000}'
  }

  // ------------------------------------------------------------------
  // Names and values
  // ------------------------------------------------------------------

  /** `[a-zA-Z][0-9a-zA-Z_]*`: a letter followed by letters, digits and underscores. */
  predicate NameBody(t: string) {
    |t| > 0 && IsAsciiLetter(t[0]) && forall i :: 1 <= i < |t| ==> IsNameChar(t[i])
  }

  /** A node name accepted by `^[a-zA-Z][0-9a-zA-Z_]*$`; `$` lets one final newline through. */
  predicate ValidName(s: string) {
    NameBody(s) || (|s| > 1 && s[|s| - 1] == '\n' && NameBody(s[..|s| - 1]))
  }

  /** `.+`: at least one character, none of them a newline. */
  predicate ValueBody(t: string) {
    |t| > 0 && forall i :: 0 <= i < |t| ==> t[i] != '\n'
  }

  /** A value string accepted by `^.+$`; `$` lets one final newline through. */
  predicate ValidValue(s: string) {
    ValueBody(s) || (|s| > 1 && s[|s| - 1] == '\n' && ValueBody(s[..|s| - 1]))
  }

  // ------------------------------------------------------------------
  // Runs of characters, located by indices into one string
  // ------------------------------------------------------------------

  /** `s[i..j]` is whitespace. */
  predicate Spaces(s: string, i: nat, j: nat) {
    i <= j <= |s| && forall k :: i <= k < j ==> IsSpace(s[k])
  }

  /** `s[i..j]` holds no whitespace (`[^\s]`). */
  predicate Solid(s: string, i: nat, j: nat) {
    i <= j <= |s| && forall k :: i <= k < j ==> !IsSpace(s[k])
  }

  /** `s[i..j]` is ASCII digits. */
  predicate Digits(s: string, i: nat, j: nat) {
    i <= j <= |s| && forall k :: i <= k < j ==> IsDigit(s[k])
  }

  /** Where the whitespace run starting at `i` ends. */
  function SpaceEnd(s: string, i: nat): (j: nat)
    requires i <= |s|
    ensures Spaces(s, i, j) && (j == |s| || !IsSpace(s[j]))
    decreases |s| - i
  {
    if i == |s| || !IsSpace(s[i]) then i else SpaceEnd(s, i + 1)
  }

  /** Where the run of non-whitespace starting at `i` ends. */
  function SolidEnd(s: string, i: nat): (j: nat)
    requires i <= |s|
    ensures Solid(s, i, j) && (j == |s| || IsSpace(s[j]))
    decreases |s| - i
  {
    if i == |s| || IsSpace(s[i]) then i else SolidEnd(s, i + 1)
  }

  /** Where the digit run starting at `i` ends. */
  function DigitEnd(s: string, i: nat): (j: nat)
    requires i <= |s|
    ensures Digits(s, i, j) && (j == |s| || !IsDigit(s[j]))
    decreases |s| - i
  {
    if i == |s| || !IsDigit(s[i]) then i else DigitEnd(s, i + 1)
  }

  /** A whitespace run that stops at `j` ends at `j`. */
  lemma {:induction false} SpaceEndOf(s: string, i: nat, j: nat)
    requires Spaces(s, i, j) && (j == |s| || !IsSpace(s[j]))
    ensures SpaceEnd(s, i) == j
    decreases j - i
  {
    if i < j {
      SpaceEndOf(s, i + 1, j);
    }
  }

  /** A non-whitespace run that stops at `j` ends at `j`. */
  lemma {:induction false} SolidEndOf(s: string, i: nat, j: nat)
    requires Solid(s, i, j) && (j == |s| || IsSpace(s[j]))
    ensures SolidEnd(s, i) == j
    decreases j - i
  {
    if i < j {
      SolidEndOf(s, i + 1, j);
    }
  }

  /** A digit run that stops at `j` ends at `j`. */
  lemma {:induction false} DigitEndOf(s: string, i: nat, j: nat)
    requires Digits(s, i, j) && (j == |s| || !IsDigit(s[j]))
    ensures DigitEnd(s, i) == j
    decreases j - i
  {
    if i < j {
      DigitEndOf(s, i + 1, j);
    }
  }

  /** The non-whitespace run from `i` reaches at least as far as any non-whitespace stretch from `i`. */
  lemma {:induction false} SolidEndAtLeast(s: string, i: nat, j: nat)
    requires Solid(s, i, j)
    ensures SolidEnd(s, i) >= j
    decreases j - i
  {
    if i < j {
      SolidEndAtLeast(s, i + 1, j);
    }
  }

  /** A number of the pattern, `[1-9][0-9]*`, at `s[i..j]`. */
  predicate Number(s: string, i: nat, j: nat) {
    i < j && Digits(s, i, j) && s[i] != '0'
  }

  /** The value of the digits `s[i..j]`, as Python's `int` reads them. */
  function DigitsValue(s: string, i: nat, j: nat): nat
    requires Digits(s, i, j)
    decreases j - i
  {
    if i == j then 0 else DigitsValue(s, i, j - 1) * 10 + (s[j - 1] as int - '0' as int)
  }

  /** A number has a positive value. */
  lemma {:induction false} NumberPositive(s: string, i: nat, j: nat)
    requires Number(s, i, j)
    ensures DigitsValue(s, i, j) > 0
    decreases j - i
  {
    if i + 1 < j {
      NumberPositive(s, i, j - 1);
    }
  }

  // ------------------------------------------------------------------
  // Positions: ^\s*\(\s*ROW\s*(?:/|,)\s*COLUMN\s*\)\s*$
  // ------------------------------------------------------------------

  /** A grid position of a node. */
  datatype Position = Position(row: nat, column: nat)

  /** Where the pieces of a position string lie: the parentheses, the two numbers and the separator. */
  datatype PositionCuts = PositionCuts(open: nat, rowStart: nat, rowEnd: nat, sep: nat,
                                       columnStart: nat, columnEnd: nat, close: nat)

  predicate IsSeparator(c: char) {
    c == '/' || c == ','
  }

  /** The cuts split `s` into the pieces the pattern demands. */
  predicate PositionMatch(s: string, c: PositionCuts) {
    Spaces(s, 0, c.open) && c.open < |s| && s[c.open] == '('
    && Spaces(s, c.open + 1, c.rowStart) && Number(s, c.rowStart, c.rowEnd)
    && Spaces(s, c.rowEnd, c.sep) && c.sep < |s| && IsSeparator(s[c.sep])
    && Spaces(s, c.sep + 1, c.columnStart) && Number(s, c.columnStart, c.columnEnd)
    && Spaces(s, c.columnEnd, c.close) && c.close < |s| && s[c.close] == ')'
    && Spaces(s, c.close + 1, |s|)
  }

  /** `\s*[1-9][0-9]*` from offset `i`: where the number starts and ends, or `None`. */
  function ScanNumber(s: string, i: nat): (r: Option<(nat, nat)>)
    requires i <= |s|
    ensures r.Some? ==> Spaces(s, i, r.value.0) && Number(s, r.value.0, r.value.1)
    ensures r.Some? ==> r.value.1 == |s| || !IsDigit(s[r.value.1])
  {
    var start := SpaceEnd(s, i);
    var end := DigitEnd(s, start);
    if end == start || s[start] == '0' then None else Some((start, end))
  }

  /** A number preceded by whitespace and followed by a non-digit is found by the scanner. */
  lemma ScanNumberComplete(s: string, i: nat, start: nat, end: nat)
    requires Spaces(s, i, start) && Number(s, start, end) && (end == |s| || !IsDigit(s[end]))
    ensures ScanNumber(s, i) == Some((start, end))
  {
    SpaceEndOf(s, i, start);
    DigitEndOf(s, start, end);
  }

  /** `\s*` followed by the character `c` from offset `i`: the offset of `c`, or `None`. */
  function ScanChar(s: string, i: nat, c: char): (r: Option<nat>)
    requires i <= |s|
    ensures r.Some? ==> Spaces(s, i, r.value) && r.value < |s| && s[r.value] == c
  {
    var j := SpaceEnd(s, i);
    if j < |s| && s[j] == c then Some(j) else None
  }

  /** A character preceded by whitespace is found by the scanner. */
  lemma ScanCharComplete(s: string, i: nat, c: char, j: nat)
    requires Spaces(s, i, j) && j < |s| && s[j] == c && !IsSpace(c)
    ensures ScanChar(s, i, c) == Some(j)
  {
    SpaceEndOf(s, i, j);
  }

  /** The column part, `\s*COLUMN\s*\)\s*$`, after the separator at `sep`: the column and the closing parenthesis. */
  function ScanColumnPart(s: string, sep: nat): Option<(nat, nat, nat)>
    requires sep < |s|
  {
    match ScanNumber(s, sep + 1)
    case None => None
    case Some(column) =>
      match ScanChar(s, column.1, ')')
      case None => None
      case Some(close) =>
        if SpaceEnd(s, close + 1) != |s| then None else Some((column.0, column.1, close))
  }

  /** Scan a position string; the cuts, or `None` when the pattern does not match. */
  function ScanPosition(s: string): Option<PositionCuts> {
    match ScanChar(s, 0, '(')
    case None => None
    case Some(open) =>
      match ScanNumber(s, open + 1)
      case None => None
      case Some(row) =>
        var sep := SpaceEnd(s, row.1);
        if sep == |s| || !IsSeparator(s[sep]) then None
        else
          match ScanColumnPart(s, sep)
          case None => None
          case Some(rest) => Some(PositionCuts(open, row.0, row.1, sep, rest.0, rest.1, rest.2))
  }

  /** What the scanner finds cuts `s` as the pattern demands. */
  lemma ScanPositionSound(s: string)
    ensures ScanPosition(s).Some? ==> PositionMatch(s, ScanPosition(s).value)
  {
  }

  /** The column part of a matching string is found by the scanner. */
  lemma ScanColumnPartComplete(s: string, c: PositionCuts)
    requires PositionMatch(s, c)
    ensures ScanColumnPart(s, c.sep) == Some((c.columnStart, c.columnEnd, c.close))
  {
    ScanNumberComplete(s, c.sep + 1, c.columnStart, c.columnEnd);
    ScanCharComplete(s, c.columnEnd, ')', c.close);
    SpaceEndOf(s, c.close + 1, |s|);
  }

  /** Every way of cutting `s` as the pattern demands is the one the scanner finds. */
  lemma ScanPositionComplete(s: string, c: PositionCuts)
    requires PositionMatch(s, c)
    ensures ScanPosition(s) == Some(c)
  {
    ScanCharComplete(s, 0, '(', c.open);
    ScanNumberComplete(s, c.open + 1, c.rowStart, c.rowEnd);
    SpaceEndOf(s, c.rowEnd, c.sep);
    ScanColumnPartComplete(s, c);
  }

  /** The row and column a position string denotes (`int` of the two groups), or `None`. */
  function ParsePosition(s: string): (r: Option<Position>)
    ensures r.Some? ==> r.value.row > 0 && r.value.column > 0
  {
    match ScanPosition(s)
    case None => None
    case Some(c) =>
      ScanPositionSound(s);
      NumberPositive(s, c.rowStart, c.rowEnd);
      NumberPositive(s, c.columnStart, c.columnEnd);
      Some(Position(DigitsValue(s, c.rowStart, c.rowEnd), DigitsValue(s, c.columnStart, c.columnEnd)))
  }

  // ------------------------------------------------------------------
  // Edges: ^\s*(?P<source>[^\s]+)\s*(?:->|=>)\s*(?P<target>[^\s]+)\s*$
  // ------------------------------------------------------------------

  /** `->` or `=>` starts at offset `j` of `s`. */
  predicate ArrowAt(s: string, j: nat) {
    j + 2 <= |s| && (s[j] == '-' || s[j] == '=') && s[j + 1] == '>'
  }

  /** Where the arrow and the target lie in an edge string whose source ends at `e`. */
  datatype TailCuts = TailCuts(arrow: nat, targetStart: nat, targetEnd: nat)

  /** From offset `e` on, `s` reads `\s*(?:->|=>)\s*[^\s]+\s*` to its end. */
  predicate TailMatch(s: string, e: nat, t: TailCuts) {
    Spaces(s, e, t.arrow) && ArrowAt(s, t.arrow) && Spaces(s, t.arrow + 2, t.targetStart)
    && t.targetStart < t.targetEnd && Solid(s, t.targetStart, t.targetEnd) && Spaces(s, t.targetEnd, |s|)
  }

  /** Scan what follows a source ending at `e`. */
  function ScanTail(s: string, e: nat): (r: Option<TailCuts>)
    requires e <= |s|
    ensures r.Some? ==> TailMatch(s, e, r.value)
  {
    var arrow := SpaceEnd(s, e);
    if !ArrowAt(s, arrow) then None
    else
      var targetStart := SpaceEnd(s, arrow + 2);
      var targetEnd := SolidEnd(s, targetStart);
      if targetEnd == targetStart || SpaceEnd(s, targetEnd) != |s| then None
      else Some(TailCuts(arrow, targetStart, targetEnd))
  }

  /** What follows a source is cut in one way only, and the scanner finds it. */
  lemma ScanTailComplete(s: string, e: nat, t: TailCuts)
    requires TailMatch(s, e, t)
    ensures ScanTail(s, e) == Some(t)
  {
    SpaceEndOf(s, e, t.arrow);
    SpaceEndOf(s, t.arrow + 2, t.targetStart);
    SolidEndOf(s, t.targetStart, t.targetEnd);
    SpaceEndOf(s, t.targetEnd, |s|);
  }

  /** Where the source, the arrow and the target lie in an edge string. */
  datatype EdgeCuts = EdgeCuts(sourceStart: nat, sourceEnd: nat, tail: TailCuts)

  /** The cuts split `s` into the pieces the pattern demands. */
  predicate EdgeMatch(s: string, c: EdgeCuts) {
    Spaces(s, 0, c.sourceStart) && c.sourceStart < c.sourceEnd && Solid(s, c.sourceStart, c.sourceEnd)
    && TailMatch(s, c.sourceEnd, c.tail)
  }

  /**
   * Backtracking of the greedy source group starting at `start`: try the
   * source ends `k`, `k-1`, ..., `start+1` and take the first that leaves a
   * matching tail.
   */
  function ScanSource(s: string, start: nat, k: nat): (r: Option<EdgeCuts>)
    requires start <= k <= |s| && Solid(s, start, k)
    ensures r.Some? ==> r.value.sourceStart == start && start < r.value.sourceEnd <= k
    ensures r.Some? ==> Solid(s, start, r.value.sourceEnd) && TailMatch(s, r.value.sourceEnd, r.value.tail)
    decreases k
  {
    if k == start then None
    else match ScanTail(s, k)
      case Some(t) => Some(EdgeCuts(start, k, t))
      case None => ScanSource(s, start, k - 1)
  }

  /** The backtracking takes the longest source that leaves a matching tail. */
  lemma {:induction false} ScanSourceLongest(s: string, start: nat, k: nat, j: nat)
    requires start < j <= k <= |s| && Solid(s, start, k)
    requires ScanTail(s, j).Some?
    ensures ScanSource(s, start, k).Some? && ScanSource(s, start, k).value.sourceEnd >= j
    decreases k
  {
    if k > j && ScanTail(s, k).None? {
      ScanSourceLongest(s, start, k - 1, j);
    }
  }

  /** Scan an edge string; the cuts, or `None` when the pattern does not match. */
  function ScanEdge(s: string): (r: Option<EdgeCuts>)
    ensures r.Some? ==> EdgeMatch(s, r.value)
  {
    var start := SpaceEnd(s, 0);
    ScanSource(s, start, SolidEnd(s, start))
  }

  /**
   * Every way of cutting `s` as the pattern demands is matched, and the
   * match takes a source at least as long (the greedy group).
   */
  lemma ScanEdgeLongest(s: string, c: EdgeCuts)
    requires EdgeMatch(s, c)
    ensures ScanEdge(s).Some? && ScanEdge(s).value.sourceEnd >= c.sourceEnd
  {
    SpaceEndOf(s, 0, c.sourceStart);
    SolidEndAtLeast(s, c.sourceStart, c.sourceEnd);
    ScanTailComplete(s, c.sourceEnd, c.tail);
    ScanSourceLongest(s, c.sourceStart, SolidEnd(s, c.sourceStart), c.sourceEnd);
  }

  /** The source and target names of an edge string (the two groups), or `None`. */
  function ParseEdge(s: string): (r: Option<(string, string)>)
    ensures r.Some? ==> |r.value.0| > 0 && |r.value.1| > 0
  {
    match ScanEdge(s)
    case None => None
    case Some(c) => Some((s[c.sourceStart..c.sourceEnd], s[c.tail.targetStart..c.tail.targetEnd]))
  }

  /** `t` holds no whitespace. */
  predicate NoSpace(t: string) {
    forall i :: 0 <= i < |t| ==> !IsSpace(t[i])
  }

  /** An edge written as `source->target` reads back, provided no arrow inside the target is followed by more text. */
  lemma ParseEdgeRoundTrip(source: string, target: string)
    requires |source| > 0 && NoSpace(source) && |target| > 0 && NoSpace(target)
    requires forall j: nat :: j + 2 < |target| ==> !ArrowAt(target, j)
    ensures ParseEdge(source + "->" + target) == Some((source, target))
  {
    var s := source + "->" + target;
    var n := |source|;
    EdgeStringShape(source, target);
    SpaceEndOf(s, 0, 0);
    SolidEndOf(s, 0, |s|);
    NoLaterTail(s, n, |s|);
    TailAtArrow(s, n);
    assert ScanEdge(s) == Some(EdgeCuts(0, n, TailCuts(n, n + 2, |s|)));
  }

  /** `source->target` holds no whitespace, has its arrow after the source, and no arrow followed by text in the target. */
  lemma EdgeStringShape(source: string, target: string)
    requires |source| > 0 && NoSpace(source) && |target| > 0 && NoSpace(target)
    requires forall j: nat :: j + 2 < |target| ==> !ArrowAt(target, j)
    ensures var s := source + "->" + target; var n := |source|;
      Solid(s, 0, |s|) && ArrowAt(s, n) && n + 2 < |s|
      && (forall j: nat :: n + 2 <= j && j + 2 < |s| ==> !ArrowAt(s, j))
      && s[0..n] == source && s[n + 2..|s|] == target
  {
    var s := source + "->" + target;
    var n := |source|;
    assert forall i :: 0 <= i < n ==> s[i] == source[i];
    assert forall i :: 0 <= i < |target| ==> s[n + 2 + i] == target[i];
    forall j: nat | n + 2 <= j && j + 2 < |s|
      ensures !ArrowAt(s, j)
    {
      assert !ArrowAt(target, j - (n + 2));
    }
    assert s[0..n] == source;
    assert s[n + 2..|s|] == target;
  }

  /** In a string without whitespace, an arrow with text after it leaves that text as the target. */
  lemma TailAtArrow(s: string, n: nat)
    requires Solid(s, 0, |s|) && ArrowAt(s, n) && n + 2 < |s|
    ensures ScanTail(s, n) == Some(TailCuts(n, n + 2, |s|))
  {
    SpaceEndOf(s, n, n);
    SpaceEndOf(s, n + 2, n + 2);
    SolidEndOf(s, n + 2, |s|);
    SpaceEndOf(s, |s|, |s|);
  }

  /**
   * In a string without whitespace whose only arrow followed by text starts
   * at `n`, no source longer than `n` leaves a matching tail.
   */
  lemma {:induction false} NoLaterTail(s: string, n: nat, k: nat)
    requires Solid(s, 0, |s|) && 0 < n && ArrowAt(s, n) && n + 2 < |s|
    requires forall j: nat :: n + 2 <= j && j + 2 < |s| ==> !ArrowAt(s, j)
    requires n <= k <= |s|
    ensures Solid(s, 0, k) && ScanSource(s, 0, k) == ScanSource(s, 0, n)
    decreases k
  {
    if k > n {
      SpaceEndOf(s, k, k);
      if k + 2 == |s| {
        SolidEndOf(s, |s|, |s|);
      }
      assert ScanTail(s, k).None?;
      NoLaterTail(s, n, k - 1);
    }
  }
}
