/**
  The three searches of search.py as methods over the index file, held as a
  sequence of lines. The file cursor is an index: `readline` returns the line
  at the cursor and moves past it, or "" at the end of the file; `tell` and
  `seek` save and restore the index. Each search is proved to return what the
  corresponding function of Records describes.
*/
module Search {
  import opened Wrappers
  import opened Text
  import opened Patterns
  import opened Records

  /** A search result as search.py returns it: the lines joined, or None. */
  function Joined(d: Option<seq<string>>): (r: Option<string>)
    ensures r.Some? <==> d.Some?
  {
    match d
    case None => None
    case Some(ls) => Some(Concat(ls))
  }

  /** `f.readline()` with the cursor at `pos`. */
  method ReadLine(lines: seq<string>, pos: nat) returns (line: string, next: nat)
    requires pos <= |lines|
    ensures pos < |lines| ==> line == lines[pos] && next == pos + 1
    ensures pos == |lines| ==> line == "" && next == pos
  {
    if pos < |lines| {
      line, next := lines[pos], pos + 1;
    } else {
      line, next := "", pos;
    }
  }

  /** The line read last is line `j`, or the end of the file when j == |lines|,
      and the cursor stands after it. */
  predicate ReadUpTo(lines: seq<string>, j: nat, line: string, next: nat) {
    && j <= |lines|
    && (j < |lines| ==> line == lines[j] && next == j + 1)
    && (j == |lines| ==> line == "" && next == j)
  }

  /** `line = f.readline()` followed by a loop that copies lines for as long as
      the file goes on and `stop` does not hold: the copied lines, the line
      that ended the loop and the cursor after it. `steps` counts the calls of
      `readline`. */
  method CopyUntil(lines: seq<string>, pos: nat, stop: string -> bool)
    returns (copied: seq<string>, line: string, next: nat, ghost j: nat, ghost steps: nat)
    requires IsFileLines(lines) && pos <= |lines|
    ensures j == FirstFrom(lines, stop, pos)
    ensures copied == lines[pos..j]
    ensures ReadUpTo(lines, j, line, next)
    ensures steps == j - pos + 1
  {
    line, next := ReadLine(lines, pos);
    j, steps := pos, 1;
    copied := [];
    while line != "" && !stop(line)
      invariant pos <= j <= |lines|
      invariant ReadUpTo(lines, j, line, next)
      invariant copied == lines[pos..j]
      invariant forall k :: pos <= k < j ==> !stop(lines[k])
      invariant steps == j - pos + 1
      decreases |lines| - j
    {
      copied := copied + [line];
      line, next := ReadLine(lines, next);
      j, steps := j + 1, steps + 1;
    }
    FirstFromIs(lines, stop, pos, j);
  }

  /** `for s in by_list: if s in line: ... break`: whether some string of
      `markers` occurs in `line`. */
  method ContainsAny(line: string, markers: seq<string>) returns (found: bool)
    ensures found <==> ContainsSome(line, markers)
  {
    found := false;
    for n := 0 to |markers|
      invariant !found
      invariant forall m :: 0 <= m < n ==> !Contains(line, markers[m])
    {
      if Contains(line, markers[n]) {
        found := true;
        return;
      }
    }
  }

  /** The four attribution markers, built with a loop as `by_list`. */
  method BuildMarkers(author: string) returns (byList: seq<string>)
    ensures byList == Markers(author)
  {
    byList := [];
    for n := 0 to |MarkerWords|
      invariant byList == Markers(author)[..n]
    {
      byList := byList + [MarkerWords[n] + author];
    }
  }

  /** The `for line in f:` loop of the e-text and title searches up to the
      line that `test` accepts, where the loop body returns: the index of that
      line, or |lines| when the loop runs to the end of the file. */
  method FindFirst(lines: seq<string>, test: string -> bool) returns (i: nat)
    ensures i == FirstFrom(lines, test, 0)
  {
    i := 0;
    while i < |lines| && !test(lines[i])
      invariant i <= |lines|
      invariant forall k :: 0 <= k < i ==> !test(lines[k])
    {
      i := i + 1;
    }
    FirstFromIs(lines, test, 0, i);
  }

  /** `search_by_etext_no`: the stripped header of the first line whose final
      token, after two or more whitespace characters, is `eno`, and the lines
      after it up to a blank line, a boundary line or the end of the file. */
  method SearchByEtextNo(lines: seq<string>, eno: string) returns (r: Option<string>)
    requires IsFileLines(lines)
    ensures r == Joined(EtextRecord(lines, eno))
  {
    var i := FindFirst(lines, EnoTest(eno));
    if i == |lines| {
      return None;
    }
    var header := EnoHeader(lines[i], eno).value;
    var rest, _, _, _, _ := CopyUntil(lines, i + 1, EndsRecord);
    return Some(Concat([header + "\n"] + rest));
  }

  /** `search_by_title`: the first boundary line that holds `title`, and the
      lines after it up to a blank line, a boundary line or the end of the file. */
  method SearchByTitle(lines: seq<string>, title: string) returns (r: Option<string>)
    requires IsFileLines(lines)
    ensures r == Joined(TitleRecord(lines, title))
  {
    var i := FindFirst(lines, TitleTest(title));
    if i == |lines| {
      return None;
    }
    var rest, _, _, _, _ := CopyUntil(lines, i + 1, EndsRecord);
    return Some(Concat([lines[i]] + rest));
  }

  /** The look-ahead of `search_by_author` after a boundary line that holds no
      marker: reads on from `pos` through the lines before the next line that
      `boundary` accepts, and stops at the first one that holds a marker. */
  method LookAhead(lines: seq<string>, pos: nat, byList: seq<string>, boundary: string -> bool)
    returns (found: bool, line: string, next: nat, ghost j: nat, ghost steps: nat)
    requires IsFileLines(lines) && pos <= |lines|
    ensures pos <= j <= FirstFrom(lines, boundary, pos)
    ensures ReadUpTo(lines, j, line, next)
    ensures found <==> j < FirstFrom(lines, boundary, pos)
    ensures found ==> ContainsSome(lines[j], byList)
    ensures forall k :: pos <= k < j ==> !ContainsSome(lines[k], byList)
    ensures steps == j - pos + 1
  {
    ghost var e := FirstFrom(lines, boundary, pos);
    line, next := ReadLine(lines, pos);
    j, steps := pos, 1;
    found := false;
    while line != "" && !boundary(line)
      invariant pos <= j <= e
      invariant ReadUpTo(lines, j, line, next)
      invariant forall k :: pos <= k < j ==> !ContainsSome(lines[k], byList)
      invariant steps == j - pos + 1
      decreases |lines| - j
    {
      found := ContainsAny(line, byList);
      if found {
        return;
      }
      line, next := ReadLine(lines, next);
      j, steps := j + 1, steps + 1;
    }
  }

  /** The handling of one boundary line by `search_by_author`, the line at
      index `cur` that was just read: looks for a marker in it and in the lines
      after it up to the next boundary line; if one is found, goes back to the
      line after it and copies the entry whole. Returns what is added to `data`,
      the line read last and the cursor; `steps` counts the calls of
      `readline`, at most two per line of the entry. */
  method TakeEntry(lines: seq<string>, byList: seq<string>, boundary: string -> bool,
                   ghost cur: nat, line: string, pos: nat)
    returns (piece: seq<string>, line': string, pos': nat, ghost e: nat, ghost steps: nat)
    requires IsFileLines(lines)
    requires cur < |lines| && ReadUpTo(lines, cur, line, pos)
    ensures e == FirstFrom(lines, boundary, cur + 1)
    ensures piece == Piece(lines, Entry(cur, e), ContainsTest(byList))
    ensures ReadUpTo(lines, e, line', pos')
    ensures steps <= 2 * (e - cur)
  {
    e := FirstFrom(lines, boundary, cur + 1);
    var place := pos;
    var firstLine := line;
    var found := ContainsAny(line, byList);
    line', pos' := line, pos;
    steps := 0;
    if !found {
      ghost var j;
      found, line', pos', j, steps := LookAhead(lines, pos, byList, boundary);
      if found {
        OneContained(lines, byList, cur, e, j);
      } else {
        NoneContained(lines, byList, cur, e);
      }
    } else {
      OneContained(lines, byList, cur, e, cur);
    }
    piece := [];
    if found {
      pos' := place;
      piece := [firstLine];
      var copied;
      ghost var j, n;
      copied, line', pos', j, n := CopyUntil(lines, pos', boundary);
      piece := piece + copied;
      steps := steps + n;
      assert piece == lines[cur..e];
    }
  }

  /** The main loop of `search_by_author`, with `boundary` for `reg.match` and
      `byList` for the markers: collects every entry that holds a marker, in
      file order, each whole. No line is read more than twice: `steps` counts
      the calls of `readline`. */
  method CollectEntries(lines: seq<string>, byList: seq<string>, boundary: string -> bool)
    returns (data: seq<string>, ghost steps: nat)
    requires IsFileLines(lines)
    ensures data == SelectedAfter(lines, boundary, ContainsTest(byList), 0)
    ensures steps <= 2 * |lines| + 1
  {
    ghost var marked := ContainsTest(byList);
    ghost var total := SelectedAfter(lines, boundary, marked, 0);
    data := [];
    var line, pos := ReadLine(lines, 0);
    ghost var cur := 0;
    steps := 1;
    while line != ""
      invariant ReadUpTo(lines, cur, line, pos)
      invariant data + SelectedAfter(lines, boundary, marked, cur) == total
      invariant steps <= 2 * cur + 1
      decreases |lines| - cur
    {
      if boundary(line) {
        ScanEntry(lines, boundary, marked, cur, data, total);
        var piece;
        ghost var e, n;
        piece, line, pos, e, n := TakeEntry(lines, byList, boundary, cur, line, pos);
        data := data + piece;
        cur, steps := e, steps + n;
      } else {
        ScanSkip(lines, boundary, marked, cur, data, total);
        line, pos := ReadLine(lines, pos);
        cur, steps := cur + 1, steps + 1;
      }
    }
  }

  /** `search_by_author`: every entry, in file order, whose boundary line or one
      of whose following lines holds " by ", " mennessä ", " par " or " di "
      followed by `author`, each copied whole; None when there is none. */
  method SearchByAuthor(lines: seq<string>, author: string) returns (r: Option<string>, ghost steps: nat)
    requires IsFileLines(lines)
    ensures r == Joined(AuthorRecords(lines, author))
    ensures steps <= 2 * |lines| + 1
  {
    var byList := BuildMarkers(author);
    var data;
    data, steps := CollectEntries(lines, byList, IsBoundaryLine);
    AuthorScan(lines, author);
    r := if |data| > 0 then Some(Concat(data)) else None;
  }
}
