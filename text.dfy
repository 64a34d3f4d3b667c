/**
  Characters and strings as the scanner's patterns and string methods see them:
  the whitespace and digit classes, one line without its final newline, trailing
  runs, `str.strip`, the `in` operator on strings and `''.join`.
*/
module Text {

  /** A character matched by `\s` and removed by `str.strip`, restricted to ASCII:
      space, tab, newline, carriage return, vertical tab, form feed and the four
      separators 0x1C-0x1F. */
  predicate IsSpace(c: char) {
    c == ' ' || c == '\t' || c == '\n' || c == '\r' || c == '\U{000B}' || c == '\U{000C}'
    || ('\U{001C}' <= c <= '\U{001F}')
  }

  /** A character matched by `\d`, restricted to ASCII. */
  predicate IsDigit(c: char) {
    '0' <= c <= '9'
  }

  /** Every character of s[i..j] is whitespace. */
  predicate AllSpaceIn(s: string, i: nat, j: nat)
    requires i <= j <= |s|
  {
    forall m :: i <= m < j ==> IsSpace(s[m])
  }

  /** Every character of s[i..j] is a digit. */
  predicate AllDigitIn(s: string, i: nat, j: nat)
    requires i <= j <= |s|
  {
    forall m :: i <= m < j ==> IsDigit(s[m])
  }

  /** s[..i] holds no newline, as a run matched by `(.)*` must. */
  predicate NoNewlineBefore(s: string, i: nat)
    requires i <= |s|
  {
    forall m :: 0 <= m < i ==> s[m] != '\n'
  }

  /** A line read from a text file: `readline` yields the empty string only at the
      end of the file, so every line of the file is nonempty. */
  predicate IsFileLines(lines: seq<string>) {
    forall i :: 0 <= i < |lines| ==> lines[i] != ""
  }

  /** The line without one final newline: the text before the point where a
      pattern ending in `$` may stop. */
  function Body(line: string): (b: string)
    ensures b <= line
    ensures b == line || (|line| == |b| + 1 && line[|b|] == '\n')
  {
    if |line| > 0 && line[|line| - 1] == '\n' then line[..|line| - 1] else line
  }

  /** The length of the longest run of whitespace that ends at index `e` of `s`. */
  function SpaceRunAt(s: string, e: nat): (n: nat)
    requires e <= |s|
    ensures n <= e
    ensures AllSpaceIn(s, e - n, e)
    ensures n < e ==> !IsSpace(s[e - n - 1])
  {
    if e > 0 && IsSpace(s[e - 1]) then SpaceRunAt(s, e - 1) + 1 else 0
  }

  /** The length of the longest run of digits that ends at index `e` of `s`. */
  function DigitRunAt(s: string, e: nat): (n: nat)
    requires e <= |s|
    ensures n <= e
    ensures AllDigitIn(s, e - n, e)
    ensures n < e ==> !IsDigit(s[e - n - 1])
  {
    if e > 0 && IsDigit(s[e - 1]) then DigitRunAt(s, e - 1) + 1 else 0
  }

  /** A shorter prefix of a newline-free prefix is newline-free. */
  lemma NoNewlineShorter(s: string, i: nat, j: nat)
    requires j <= i <= |s| && NoNewlineBefore(s, i)
    ensures NoNewlineBefore(s, j)
  {
  }

  /** The front part of a whitespace run is whitespace. */
  lemma AllSpaceFront(s: string, i: nat, j: nat, k: nat)
    requires i <= j <= k <= |s| && AllSpaceIn(s, i, k)
    ensures AllSpaceIn(s, i, j)
  {
  }

  /** A whitespace run s[m..e] is no longer than the run SpaceRunAt measures. */
  lemma SpaceRunCovers(s: string, m: nat, e: nat)
    requires m <= e <= |s|
    requires AllSpaceIn(s, m, e)
    ensures SpaceRunAt(s, e) >= e - m
  {
  }

  /** A digit run s[m..e] with no digit before it is the run DigitRunAt measures. */
  lemma {:induction false} DigitRunExact(s: string, m: nat, e: nat)
    requires m <= e <= |s|
    requires AllDigitIn(s, m, e)
    requires m > 0 ==> !IsDigit(s[m - 1])
    ensures DigitRunAt(s, e) == e - m
    decreases e
  {
    if e > m {
      DigitRunExact(s, m, e - 1);
    }
  }

  /** `s` without its trailing whitespace. */
  function TrimRight(s: string): (r: string)
    ensures r <= s
    ensures AllSpaceIn(s, |r|, |s|)
    ensures r == [] || !IsSpace(r[|r| - 1])
  {
    s[..|s| - SpaceRunAt(s, |s|)]
  }

  /** `s` without its leading whitespace. */
  function TrimLeft(s: string): (r: string)
    ensures |r| <= |s| && r == s[|s| - |r|..]
    ensures AllSpaceIn(s, 0, |s| - |r|)
    ensures r == [] || !IsSpace(r[0])
  {
    if |s| > 0 && IsSpace(s[0]) then TrimLeft(s[1..]) else s
  }

  /** Python's `str.strip()` with no argument: neither end of the result is
      whitespace (StripSpec: it is `s` with the whitespace at both ends cut). */
  function Strip(s: string): (r: string)
    ensures |r| <= |s|
    ensures r == [] || (!IsSpace(r[0]) && !IsSpace(r[|r| - 1]))
  {
    var t := TrimRight(s);
    var r := TrimLeft(t);
    assert r != [] ==> r[|r| - 1] == t[|t| - 1];
    r
  }

  /** `strip` cuts whitespace from both ends and nothing else: the result stands
      in `s` at some index `k`, everything before it and after it is
      whitespace, and it neither begins nor ends with whitespace. */
  lemma StripSpec(s: string) returns (k: nat)
    ensures k + |Strip(s)| <= |s| && s[k..k + |Strip(s)|] == Strip(s)
    ensures AllSpaceIn(s, 0, k) && AllSpaceIn(s, k + |Strip(s)|, |s|)
    ensures Strip(s) == [] || (!IsSpace(Strip(s)[0]) && !IsSpace(Strip(s)[|Strip(s)| - 1]))
  {
    var t := TrimRight(s);
    var r := TrimLeft(t);
    k := |t| - |r|;
    assert s[k..k + |r|] == t[k..];
    assert forall m :: 0 <= m < k ==> s[m] == t[m];
  }

  /** The three contract clauses of TrimRight pin its result down: no other
      prefix of `s` has them all. */
  lemma TrimRightUnique(s: string, r: string)
    requires r <= s
    requires AllSpaceIn(s, |r|, |s|)
    requires r == [] || !IsSpace(r[|r| - 1])
    ensures r == TrimRight(s)
  {
  }

  /** Whitespace after a prefix of `s` does not change what `strip` returns for
      it: s[..i] and s[..j] strip alike when s[i..j] is all whitespace. */
  lemma StripPrefixSpace(s: string, i: nat, j: nat)
    requires i <= j <= |s|
    requires AllSpaceIn(s, i, j)
    ensures Strip(s[..j]) == Strip(s[..i])
  {
    var r := TrimRight(s[..i]);
    TrimRightUnique(s[..j], r);
  }

  /** `sub` occurs in `s` starting at index `k`. */
  ghost predicate OccursAt(s: string, sub: string, k: int) {
    0 <= k && k + |sub| <= |s| && s[k..k + |sub|] == sub
  }

  /** Python's `sub in s` on strings. */
  predicate Contains(s: string, sub: string)
    decreases |s|
  {
    sub <= s || (|s| > 0 && Contains(s[1..], sub))
  }

  /** An occurrence of `sub` at index `k` makes `sub in s` true. */
  lemma {:induction false} OccursContains(s: string, sub: string, k: nat)
    requires OccursAt(s, sub, k)
    ensures Contains(s, sub)
    decreases k
  {
    if k > 0 {
      assert s[1..][k - 1..k - 1 + |sub|] == s[k..k + |sub|];
      OccursContains(s[1..], sub, k - 1);
    }
  }

  /** `sub in s` holds exactly when `sub` occurs at some index of `s`. */
  lemma {:induction false} ContainsSpec(s: string, sub: string)
    ensures Contains(s, sub) <==> exists k :: OccursAt(s, sub, k)
    decreases |s|
  {
    if sub <= s {
      assert OccursAt(s, sub, 0);
    } else if |s| > 0 && Contains(s[1..], sub) {
      ContainsSpec(s[1..], sub);
      var k :| OccursAt(s[1..], sub, k);
      assert s[k + 1..k + 1 + |sub|] == s[1..][k..k + |sub|];
      assert OccursAt(s, sub, k + 1);
    }
    if exists k :: OccursAt(s, sub, k) {
      var k :| OccursAt(s, sub, k);
      OccursContains(s, sub, k);
    }
  }

  /** Python's `''.join(lines)`. */
  function Concat(lines: seq<string>): string {
    if lines == [] then "" else lines[0] + Concat(lines[1..])
  }

  /** Joining two runs of lines one after the other gives the text of the first
      followed by the text of the second, and a single line joins to itself. */
  lemma {:induction false} ConcatAppend(a: seq<string>, b: seq<string>)
    ensures Concat(a + b) == Concat(a) + Concat(b)
    ensures forall l :: Concat([l]) == l
    decreases |a|
  {
    if a == [] {
      assert a + b == b;
    } else {
      assert (a + b)[1..] == a[1..] + b;
      ConcatAppend(a[1..], b);
    }
    forall l ensures Concat([l]) == l {
      assert [l][1..] == [];
    }
  }
}
