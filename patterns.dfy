/**
  The two line patterns of search.py, written as predicates on strings: the
  boundary pattern `reg`, which marks the first line of an index entry, and the
  per-number pattern `eno_ex` of the e-text search.

  Python's `re.match` anchors at the start of the line, `(.)*` does not cross a
  newline and `$` matches at the end of the line or just before one final
  newline, hence Body. In `reg` both `\b` always hold where they stand: between
  whitespace and a digit, and between a digit or 'C' and the end of the line.
  In `eno_ex` they stand between whitespace and the first character of `eno`
  and between its last character and the end of the line, so they hold exactly
  when `eno` begins and ends with a word character (EnoWordEnds).
*/
module Patterns {
  import opened Wrappers
  import opened Text

  /** The declarative reading of `reg` on the body `b` of a line: `b` is
      b[..i] (no newline) + b[i..j] (at least two whitespace characters)
      + b[j..k] (one or more digits) + an optional final 'C'. */
  ghost predicate BoundarySplit(b: string, i: nat, j: nat, k: nat) {
    && i + 2 <= j < k <= |b|
    && NoNewlineBefore(b, i)
    && AllSpaceIn(b, i, j)
    && AllDigitIn(b, j, k)
    && (k == |b| || (k + 1 == |b| && b[k] == 'C'))
  }

  ghost predicate MatchesBoundary(line: string) {
    exists i: nat, j: nat, k: nat :: BoundarySplit(Body(line), i, j, k)
  }

  /** Where the number of a boundary line would end: before a final 'C'. */
  function NumberEnd(b: string): (k: nat)
    ensures k <= |b|
  {
    if |b| > 0 && b[|b| - 1] == 'C' then |b| - 1 else |b|
  }

  /** `reg.match(line)`, decided by measuring, from the end of the line, the
      digit run and the whitespace run before it. */
  predicate IsBoundaryLine(line: string) {
    var b := Body(line);
    var k := NumberEnd(b);
    var j := k - DigitRunAt(b, k);
    var w := SpaceRunAt(b, j);
    j < k && w >= 2 && NoNewlineBefore(b, j - w)
  }

  /** A line is a boundary line exactly when it ends, ignoring one final newline,
      in two or more whitespace characters, one or more digits and an optional
      'C'. With one space before the number it is not. */
  lemma BoundaryLineSpec(line: string)
    ensures IsBoundaryLine(line) <==> MatchesBoundary(line)
  {
    if IsBoundaryLine(line) {
      var b := Body(line);
      var k := NumberEnd(b);
      var j := k - DigitRunAt(b, k);
      assert BoundarySplit(b, j - SpaceRunAt(b, j), j, k);
    }
    if MatchesBoundary(line) {
      var i: nat, j: nat, k: nat :| BoundarySplit(Body(line), i, j, k);
      SplitIsBoundary(line, i, j, k);
    }
  }

  /** Any split that `reg` accepts is found by IsBoundaryLine's measuring. */
  lemma SplitIsBoundary(line: string, i: nat, j: nat, k: nat)
    requires BoundarySplit(Body(line), i, j, k)
    ensures IsBoundaryLine(line)
  {
    var b := Body(line);
    assert IsDigit(b[k - 1]);
    assert NumberEnd(b) == k;
    assert !IsDigit(b[j - 1]);
    DigitRunExact(b, j, k);
    SpaceRunCovers(b, i, j);
  }

  /** The shape e-text numbers have in the index: digits, then an optional 'C'.
      Such a number is a word literal, so both `\b` of `eno_ex` hold around it
      (EtextNumberWordEnds). */
  predicate IsEtextNumber(eno: string) {
    var n := if |eno| > 0 && eno[|eno| - 1] == 'C' then |eno| - 1 else |eno|;
    n >= 1 && AllDigitIn(eno, 0, n)
  }

  /** A character matched by `\w`, restricted to ASCII. */
  predicate IsWordChar(c: char) {
    IsDigit(c) || ('a' <= c <= 'z') || ('A' <= c <= 'Z') || c == '_'
  }

  /** The two `\b` of `eno_ex` hold: whitespace comes before `eno` and the end
      of the line after it, so `eno` must begin and end with a word character.
      For `eno == ""` they cannot both hold and `eno_ex` matches no line. */
  predicate EnoWordEnds(eno: string) {
    |eno| > 0 && IsWordChar(eno[0]) && IsWordChar(eno[|eno| - 1])
  }

  /** E-text numbers of the index's shape satisfy both `\b` of `eno_ex`. */
  lemma EtextNumberWordEnds(eno: string)
    requires IsEtextNumber(eno)
    ensures EnoWordEnds(eno)
  {
  }

  /** The declarative reading of `eno_ex` on the body `b` of a line: `b` is
      b[..i] (no newline, the captured group 1) + at least two whitespace
      characters + exactly `eno`, and both `\b` hold. */
  ghost predicate EnoSplit(b: string, eno: string, i: nat) {
    && EnoWordEnds(eno)
    && i + 2 + |eno| <= |b|
    && b[|b| - |eno|..] == eno
    && NoNewlineBefore(b, i)
    && AllSpaceIn(b, i, |b| - |eno|)
  }

  ghost predicate MatchesEno(line: string, eno: string) {
    exists i: nat :: EnoSplit(Body(line), eno, i)
  }

  /** `eno_ex.match(line).group(1).strip()`, or None when the line does not
      match. Group 1 and the text before the whole whitespace run differ only
      in trailing whitespace, which `strip` removes (EnoHeaderSpec). */
  function EnoHeader(line: string, eno: string): Option<string> {
    var b := Body(line);
    var g := GroupEnd(b, eno);
    if g.Some? then Some(Strip(b[..g.value])) else None
  }

  /** Where, in the body `b` of a line, the whitespace run before `eno` starts
      when `b` ends in two or more whitespace characters and `eno` with no
      newline before them and both `\b` hold; None when `eno_ex` does not
      match. */
  function GroupEnd(b: string, eno: string): (g: Option<nat>)
    ensures g.Some? ==> g.value <= |b|
  {
    if EnoWordEnds(eno) && |eno| <= |b| && b[|b| - |eno|..] == eno then
      var e := |b| - |eno|;
      var w := SpaceRunAt(b, e);
      if w >= 2 && NoNewlineBefore(b, e - w) then Some(e - w) else None
    else
      None
  }

  /** What GroupEnd checks, spelled out. */
  lemma GroupEndGuards(b: string, eno: string)
    requires GroupEnd(b, eno).Some?
    ensures EnoWordEnds(eno)
    ensures var j := |b| - |eno|;
            && |eno| <= |b| && b[j..] == eno && SpaceRunAt(b, j) >= 2
            && GroupEnd(b, eno).value == j - SpaceRunAt(b, j)
            && NoNewlineBefore(b, j - SpaceRunAt(b, j))
  {
  }

  /** Every split that `eno_ex` accepts has its whitespace run within the one
      GroupEnd measures. */
  lemma GroupEndSplit(b: string, eno: string, i: nat)
    requires EnoSplit(b, eno, i)
    ensures GroupEnd(b, eno).Some? && GroupEnd(b, eno).value <= i
    ensures AllSpaceIn(b, GroupEnd(b, eno).value, i)
  {
    var e := |b| - |eno|;
    SpaceRunCovers(b, i, e);
    var w := SpaceRunAt(b, e);
    NoNewlineShorter(b, i, e - w);
    AllSpaceFront(b, e - w, i, e);
  }

  /** `eno_ex` matches a line exactly when the line ends, ignoring one final
      newline, in two or more whitespace characters followed by `eno`; and then
      the header is the stripped prefix of every such split of the line. */
  lemma EnoHeaderSpec(line: string, eno: string)
    ensures EnoHeader(line, eno).Some? <==> MatchesEno(line, eno)
    ensures forall i: nat :: EnoSplit(Body(line), eno, i) ==>
              EnoHeader(line, eno) == Some(Strip(Body(line)[..i]))
  {
    var b := Body(line);
    if EnoHeader(line, eno).Some? {
      GroupEndGuards(b, eno);
      assert EnoSplit(b, eno, GroupEnd(b, eno).value);
    }
    forall i: nat | EnoSplit(b, eno, i)
      ensures EnoHeader(line, eno) == Some(Strip(b[..i]))
    {
      EnoSplitHeader(line, eno, i);
    }
  }

  lemma EnoSplitHeader(line: string, eno: string, i: nat)
    requires EnoSplit(Body(line), eno, i)
    ensures EnoHeader(line, eno) == Some(Strip(Body(line)[..i]))
  {
    var b := Body(line);
    GroupEndSplit(b, eno, i);
    StripPrefixSpace(b, GroupEnd(b, eno).value, i);
  }

  /** `eno` is the whole final token of a matching line: the character before
      it is whitespace, so `123` does not match a line ending in `9123` or in
      `123C`. */
  lemma EnoWholeToken(line: string, eno: string)
    requires EnoHeader(line, eno).Some?
    ensures var b := Body(line); |eno| < |b| && b[|b| - |eno|..] == eno && IsSpace(b[|b| - |eno| - 1])
  {
    GroupEndGuards(Body(line), eno);
  }

  /** With an e-text number of the index's shape, every line `eno_ex` matches
      is also a boundary line. */
  lemma EnoLineIsBoundary(line: string, eno: string)
    requires IsEtextNumber(eno)
    requires EnoHeader(line, eno).Some?
    ensures IsBoundaryLine(line)
  {
    var b := Body(line);
    GroupEndGuards(b, eno);
    var j := |b| - |eno|;
    var k := NumberSplit(b, eno);
    SplitIsBoundary(line, j - SpaceRunAt(b, j), j, k);
  }

  /** A body that ends in an e-text number after two or more whitespace
      characters, with no newline before them, splits as `reg` demands. */
  lemma NumberSplit(b: string, eno: string) returns (k: nat)
    requires IsEtextNumber(eno)
    requires var j := |b| - |eno|;
             |eno| <= |b| && b[j..] == eno && SpaceRunAt(b, j) >= 2 && NoNewlineBefore(b, j - SpaceRunAt(b, j))
    ensures var j := |b| - |eno|; BoundarySplit(b, j - SpaceRunAt(b, j), j, k)
  {
    var n := if eno[|eno| - 1] == 'C' then |eno| - 1 else |eno|;
    var j := |b| - |eno|;
    k := j + n;
    forall m | j <= m < k ensures IsDigit(b[m]) {
      assert b[m] == b[j..][m - j];
    }
    if n < |eno| {
      assert b[k] == b[j..][n];
    }
  }
}
