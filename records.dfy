/**
  What the three searches of search.py compute, stated on the index file as a
  sequence of lines: the first line with a property, the run of continuation
  lines after it, and the partition of the file into entries that the author
  search selects from.

  The scanning and partitioning facts are proved once for any line predicate
  (FirstFrom, EntriesFrom, SelectedLines and their lemmas) and then used with
  the patterns of search.py (the e-text, title and author sections).
*/
module Records {
  import opened Wrappers
  import opened Text
  import opened Patterns

  /** The index of the first line at or after `from` that satisfies `p`, or
      |lines| when there is none. */
  function FirstFrom(lines: seq<string>, p: string -> bool, from: nat): (j: nat)
    requires from <= |lines|
    ensures from <= j <= |lines|
    ensures j < |lines| ==> p(lines[j])
    ensures forall k :: from <= k < j ==> !p(lines[k])
    decreases |lines| - from
  {
    if from == |lines| || p(lines[from]) then from else FirstFrom(lines, p, from + 1)
  }

  /** The contract of FirstFrom determines it: an index with those properties
      is the one it returns. */
  lemma FirstFromIs(lines: seq<string>, p: string -> bool, from: nat, j: nat)
    requires from <= j <= |lines|
    requires j < |lines| ==> p(lines[j])
    requires forall k :: from <= k < j ==> !p(lines[k])
    ensures FirstFrom(lines, p, from) == j
  {
  }

  /** `lines` stands in `all` from index `off` on. */
  predicate Placed(all: seq<string>, lines: seq<string>, off: nat) {
    off + |lines| <= |all| && forall k :: 0 <= k < |lines| ==> all[off + k] == lines[k]
  }

  /** Both parts of a concatenation stand in it. */
  lemma ConcatPlaced(a: seq<string>, b: seq<string>)
    ensures Placed(a + b, a, 0) && Placed(a + b, b, |a|)
  {
  }

  /** FirstFrom looks at lines[from..] only: on a file that ends with `lines`,
      it is shifted by the lines in front. */
  lemma {:induction false} FirstFromShift(all: seq<string>, lines: seq<string>, off: nat,
                                          p: string -> bool, from: nat)
    requires Placed(all, lines, off) && |all| == off + |lines|
    requires from <= |lines|
    ensures FirstFrom(all, p, off + from) == off + FirstFrom(lines, p, from)
    decreases |lines| - from
  {
    if from < |lines| {
      assert all[off + from] == lines[from];
      if !p(lines[from]) {
        FirstFromShift(all, lines, off, p, from + 1);
      }
    }
  }

  /** Lines after `a` that begin with a line satisfying `p` do not move
      FirstFrom. */
  lemma {:induction false} FirstFromAppend(all: seq<string>, a: seq<string>, p: string -> bool, from: nat)
    requires Placed(all, a, 0) && from <= |a|
    requires |a| == |all| || p(all[|a|])
    ensures FirstFrom(all, p, from) == FirstFrom(a, p, from)
    decreases |a| - from
  {
    if from < |a| {
      assert all[from] == a[from];
      if !p(a[from]) {
        FirstFromAppend(all, a, p, from + 1);
      }
    }
  }

  /** `d` is a header line followed by the lines after line `i` up to the
      first line that satisfies `stop` or the end of the file, and nothing more. */
  ghost predicate RecordAfter(lines: seq<string>, stop: string -> bool, i: nat, d: seq<string>) {
    && 1 <= |d|
    && i + |d| <= |lines|
    && d[1..] == lines[i + 1..i + |d|]
    && (forall k :: i < k < i + |d| ==> !stop(lines[k]))
    && (i + |d| == |lines| || stop(lines[i + |d|]))
  }

  lemma RecordAfterRun(lines: seq<string>, stop: string -> bool, i: nat, h: string)
    requires i < |lines|
    ensures RecordAfter(lines, stop, i, [h] + lines[i + 1..FirstFrom(lines, stop, i + 1)])
  {
    var d := [h] + lines[i + 1..FirstFrom(lines, stop, i + 1)];
    assert d[1..] == lines[i + 1..i + |d|];
  }

  /** A search result made of header `h` and the lines after line `i` is a
      record after line `i`. */
  lemma RecordFound(lines: seq<string>, stop: string -> bool, i: nat, h: string, r: Option<seq<string>>)
    requires i < |lines| && r == Some([h] + lines[i + 1..FirstFrom(lines, stop, i + 1)])
    ensures r.Some? && r.value[0] == h && RecordAfter(lines, stop, i, r.value)
  {
    RecordAfterRun(lines, stop, i, h);
  }

  /** A line at which the e-text and title searches stop copying: a blank line
      (exactly "\n") or a boundary line. The end of the file stops them too. */
  predicate EndsRecord(line: string) {
    line == "\n" || IsBoundaryLine(line)
  }

  // ---------------------------------------------------------------------------
  // Search by e-text number

  /** The line test of the e-text search: `eno_ex.match(line)`. */
  function EnoTest(eno: string): string -> bool {
    (l: string) => EnoHeader(l, eno).Some?
  }

  /** The result of `search_by_etext_no`, as lines: the stripped header of the
      first line `eno_ex` matches, then its continuation lines. */
  function EtextRecord(lines: seq<string>, eno: string): Option<seq<string>> {
    var i := FirstFrom(lines, EnoTest(eno), 0);
    if i == |lines| then None
    else Some([EnoHeader(lines[i], eno).value + "\n"] + lines[i + 1..FirstFrom(lines, EndsRecord, i + 1)])
  }

  /** The e-text search finds nothing exactly when no line ends in two or more
      whitespace characters followed by `eno`. */
  lemma EtextNotFound(lines: seq<string>, eno: string)
    ensures EtextRecord(lines, eno) == None <==>
            forall k :: 0 <= k < |lines| ==> !MatchesEno(lines[k], eno)
  {
    forall k | 0 <= k < |lines|
      ensures EnoTest(eno)(lines[k]) <==> MatchesEno(lines[k], eno)
    {
      EnoHeaderSpec(lines[k], eno);
    }
  }

  /** When line `i` is the first line matching `eno`, the e-text search returns
      that line's stripped prefix plus a newline, then the lines after it up to
      the first blank or boundary line or the end of the file. */
  lemma EtextFound(lines: seq<string>, eno: string, i: nat)
    requires i < |lines| && MatchesEno(lines[i], eno)
    requires forall k :: 0 <= k < i ==> !MatchesEno(lines[k], eno)
    ensures EtextRecord(lines, eno).Some?
    ensures RecordAfter(lines, EndsRecord, i, EtextRecord(lines, eno).value)
    ensures forall p: nat :: EnoSplit(Body(lines[i]), eno, p) ==>
              EtextRecord(lines, eno).value[0] == Strip(Body(lines[i])[..p]) + "\n"
  {
    EtextFirst(lines, eno, i);
    EtextAt(lines, eno, i);
    EnoHeaderSpec(lines[i], eno);
    RecordFound(lines, EndsRecord, i, EnoHeader(lines[i], eno).value + "\n", EtextRecord(lines, eno));
  }

  /** The e-text record found at line `i`. */
  lemma EtextAt(lines: seq<string>, eno: string, i: nat)
    requires i < |lines| && FirstFrom(lines, EnoTest(eno), 0) == i
    ensures EnoHeader(lines[i], eno).Some?
    ensures EtextRecord(lines, eno)
            == Some([EnoHeader(lines[i], eno).value + "\n"] + lines[i + 1..FirstFrom(lines, EndsRecord, i + 1)])
  {
  }

  /** Line `i` is the first line the e-text search stops at. */
  lemma EtextFirst(lines: seq<string>, eno: string, i: nat)
    requires i < |lines| && MatchesEno(lines[i], eno)
    requires forall k :: 0 <= k < i ==> !MatchesEno(lines[k], eno)
    ensures FirstFrom(lines, EnoTest(eno), 0) == i
  {
    forall k | 0 <= k <= i
      ensures EnoTest(eno)(lines[k]) <==> MatchesEno(lines[k], eno)
    {
      EnoHeaderSpec(lines[k], eno);
    }
    FirstFromIs(lines, EnoTest(eno), 0, i);
  }

  // ---------------------------------------------------------------------------
  // Search by title

  /** The line test of the title search: `reg.match(line) and title in line`. */
  function TitleTest(title: string): string -> bool {
    (l: string) => IsBoundaryLine(l) && Contains(l, title)
  }

  ghost predicate MatchesTitle(line: string, title: string) {
    MatchesBoundary(line) && exists c :: OccursAt(line, title, c)
  }

  lemma TitleTestSpec(line: string, title: string)
    ensures TitleTest(title)(line) <==> MatchesTitle(line, title)
  {
    BoundaryLineSpec(line);
    ContainsSpec(line, title);
  }

  /** The result of `search_by_title`, as lines: the first boundary line that
      holds `title`, unchanged, then its continuation lines. */
  function TitleRecord(lines: seq<string>, title: string): Option<seq<string>> {
    var i := FirstFrom(lines, TitleTest(title), 0);
    if i == |lines| then None
    else Some([lines[i]] + lines[i + 1..FirstFrom(lines, EndsRecord, i + 1)])
  }

  /** The title search finds nothing exactly when no boundary line holds `title`. */
  lemma TitleNotFound(lines: seq<string>, title: string)
    ensures TitleRecord(lines, title) == None <==>
            forall k :: 0 <= k < |lines| ==> !MatchesTitle(lines[k], title)
  {
    forall k | 0 <= k < |lines|
      ensures TitleTest(title)(lines[k]) <==> MatchesTitle(lines[k], title)
    {
      TitleTestSpec(lines[k], title);
    }
  }

  /** When line `i` is the first boundary line holding `title`, the title search
      returns it unchanged, then the lines after it up to the first blank or
      boundary line or the end of the file. */
  lemma TitleFound(lines: seq<string>, title: string, i: nat)
    requires i < |lines| && MatchesTitle(lines[i], title)
    requires forall k :: 0 <= k < i ==> !MatchesTitle(lines[k], title)
    ensures TitleRecord(lines, title).Some?
    ensures TitleRecord(lines, title).value[0] == lines[i]
    ensures RecordAfter(lines, EndsRecord, i, TitleRecord(lines, title).value)
  {
    forall k | 0 <= k <= i
      ensures TitleTest(title)(lines[k]) <==> MatchesTitle(lines[k], title)
    {
      TitleTestSpec(lines[k], title);
    }
    FirstFromIs(lines, TitleTest(title), 0, i);
    RecordAfterRun(lines, EndsRecord, i, lines[i]);
  }

  // ---------------------------------------------------------------------------
  // Entries, for any predicate `starts` that marks the first line of an entry

  /** One entry of the index: lines[start..end], a first line followed by the
      lines before the next first line or the end of the file. */
  datatype Entry = Entry(start: nat, end: nat)

  ghost predicate IsEntry(lines: seq<string>, starts: string -> bool, e: Entry) {
    && e.start < e.end <= |lines|
    && starts(lines[e.start])
    && forall m :: e.start < m < e.end ==> !starts(lines[m])
  }

  /** `es` cuts lines[from..] into consecutive entries: the first starts at
      `from`, each next one where the previous one ends, the last ends with the
      file. */
  ghost predicate Partitions(lines: seq<string>, starts: string -> bool, from: nat, es: seq<Entry>)
    decreases |es|
  {
    if es == [] then from == |lines|
    else IsEntry(lines, starts, es[0]) && es[0].start == from && Partitions(lines, starts, es[0].end, es[1..])
  }

  /** Entry bounds that SelectedLines can slice with. */
  predicate InBounds(lines: seq<string>, es: seq<Entry>) {
    forall n :: 0 <= n < |es| ==> es[n].start <= es[n].end <= |lines|
  }

  /** The entries of lines[from..], where line `from` starts an entry or `from`
      is the end of the file. */
  function EntriesFrom(lines: seq<string>, starts: string -> bool, from: nat): (es: seq<Entry>)
    requires from <= |lines|
    requires from < |lines| ==> starts(lines[from])
    ensures Partitions(lines, starts, from, es)
    ensures InBounds(lines, es)
    decreases |lines| - from
  {
    if from == |lines| then []
    else
      var end := FirstFrom(lines, starts, from + 1);
      [Entry(from, end)] + EntriesFrom(lines, starts, end)
  }

  /** There is only one way to cut lines[from..] into entries. */
  lemma {:induction false} PartitionUnique(lines: seq<string>, starts: string -> bool, from: nat,
                                           es1: seq<Entry>, es2: seq<Entry>)
    requires Partitions(lines, starts, from, es1) && Partitions(lines, starts, from, es2)
    ensures es1 == es2
    decreases |es1|
  {
    if es1 != [] && es2 != [] {
      var e1, e2 := es1[0], es2[0];
      if e1.end < e2.end {
        assert false;
      } else if e2.end < e1.end {
        assert false;
      }
      PartitionUnique(lines, starts, e1.end, es1[1..], es2[1..]);
      assert es1 == [e1] + es1[1..];
      assert es2 == [e2] + es2[1..];
    }
  }

  /** An entry is selected when one of its lines satisfies `marked`. */
  predicate Selected(lines: seq<string>, e: Entry, marked: string -> bool)
    requires e.end <= |lines|
  {
    exists m :: e.start <= m < e.end && marked(lines[m])
  }

  /** The lines of entry `e` when it is selected, and nothing otherwise. */
  function Piece(lines: seq<string>, e: Entry, marked: string -> bool): seq<string>
    requires e.start <= e.end <= |lines|
  {
    if Selected(lines, e, marked) then lines[e.start..e.end] else []
  }

  /** The lines of the selected entries of `es`, each entry whole, in order. */
  function SelectedLines(lines: seq<string>, es: seq<Entry>, marked: string -> bool): seq<string>
    requires InBounds(lines, es)
  {
    if es == [] then []
    else
      Piece(lines, es[0], marked) + SelectedLines(lines, es[1..], marked)
  }

  /** Nothing is selected from lines[from..] exactly when none of its lines
      satisfies `marked`. */
  lemma {:induction false} SelectedLinesEmpty(lines: seq<string>, starts: string -> bool, from: nat,
                                              marked: string -> bool)
    requires from <= |lines|
    requires from < |lines| ==> starts(lines[from])
    ensures SelectedLines(lines, EntriesFrom(lines, starts, from), marked) == [] <==>
            forall m :: from <= m < |lines| ==> !marked(lines[m])
    decreases |lines| - from
  {
    if from < |lines| {
      var e := FirstFrom(lines, starts, from + 1);
      var es := EntriesFrom(lines, starts, from);
      assert es[0] == Entry(from, e) && es[1..] == EntriesFrom(lines, starts, e);
      SelectedLinesEmpty(lines, starts, e, marked);
      if Selected(lines, Entry(from, e), marked) {
        assert lines[from..e] != [];
      }
    }
  }

  /** One step over the entries of lines[from..]: the first entry, whole if it
      is selected, then what is selected after it. */
  lemma SelectedLinesStep(lines: seq<string>, starts: string -> bool, from: nat, marked: string -> bool)
    requires from < |lines| && starts(lines[from])
    ensures var e := FirstFrom(lines, starts, from + 1);
            SelectedLines(lines, EntriesFrom(lines, starts, from), marked)
            == Piece(lines, Entry(from, e), marked) + SelectedLines(lines, EntriesFrom(lines, starts, e), marked)
  {
    var e := FirstFrom(lines, starts, from + 1);
    var es := EntriesFrom(lines, starts, from);
    assert es[0] == Entry(from, e) && es[1..] == EntriesFrom(lines, starts, e);
  }

  /** The entries `es` moved `off` lines later. */
  function ShiftEntries(es: seq<Entry>, off: nat): (r: seq<Entry>)
    ensures |r| == |es|
    ensures forall n :: 0 <= n < |es| ==> r[n] == Entry(off + es[n].start, off + es[n].end)
  {
    if es == [] then [] else [Entry(off + es[0].start, off + es[0].end)] + ShiftEntries(es[1..], off)
  }

  /** An entry of `lines` is an entry of a file that holds `lines` at `off`, as
      long as an entry or the end of the file follows it there too. */
  lemma EntryMoved(all: seq<string>, lines: seq<string>, off: nat, starts: string -> bool, e: Entry)
    requires Placed(all, lines, off) && IsEntry(lines, starts, e)
    ensures IsEntry(all, starts, Entry(off + e.start, off + e.end))
  {
    assert all[off + e.start] == lines[e.start];
    forall m | off + e.start < m < off + e.end ensures !starts(all[m]) {
      assert all[m] == lines[m - off];
    }
  }

  /** A partition of lines[from..] moved `off` lines later is a partition of
      all[off + from..] when `lines` ends `all`. */
  lemma {:induction false} PartitionsShift(all: seq<string>, lines: seq<string>, off: nat,
                                           starts: string -> bool, from: nat, es: seq<Entry>)
    requires Placed(all, lines, off) && |all| == off + |lines|
    requires Partitions(lines, starts, from, es)
    ensures Partitions(all, starts, off + from, ShiftEntries(es, off))
    decreases |es|
  {
    if es != [] {
      EntryMoved(all, lines, off, starts, es[0]);
      PartitionsShift(all, lines, off, starts, es[0].end, es[1..]);
      var r := ShiftEntries(es, off);
      assert r[1..] == ShiftEntries(es[1..], off);
    }
  }

  /** A partition of a[from..] followed by a partition of all[|a|..] is a
      partition of all[from..] when `a` begins `all` and the second partition
      starts with an entry. */
  lemma {:induction false} PartitionsAppend(all: seq<string>, a: seq<string>, starts: string -> bool,
                                            from: nat, es1: seq<Entry>, es2: seq<Entry>)
    requires Placed(all, a, 0)
    requires Partitions(a, starts, from, es1) && Partitions(all, starts, |a|, es2)
    requires |a| == |all| || starts(all[|a|])
    ensures Partitions(all, starts, from, es1 + es2)
    decreases |es1|
  {
    if es1 != [] {
      var e := es1[0];
      EntryMoved(all, a, 0, starts, e);
      PartitionsAppend(all, a, starts, e.end, es1[1..], es2);
      assert (es1 + es2)[1..] == es1[1..] + es2;
    } else {
      assert es1 + es2 == es2;
    }
  }

  /** An entry of lines[s..e] read in `all`, where it stands `off` lines later:
      the same lines, selected alike. */
  lemma SelectedMoved(all: seq<string>, lines: seq<string>, off: nat, s: nat, e: nat, marked: string -> bool)
    requires Placed(all, lines, off) && s <= e <= |lines|
    ensures Piece(all, Entry(off + s, off + e), marked) == Piece(lines, Entry(s, e), marked)
  {
    assert all[off + s..off + e] == lines[s..e];
    if Selected(lines, Entry(s, e), marked) {
      var m :| s <= m < e && marked(lines[m]);
      assert all[off + m] == lines[m];
    }
    if Selected(all, Entry(off + s, off + e), marked) {
      var m :| off + s <= m < off + e && marked(all[m]);
      assert all[m] == lines[m - off];
    }
  }

  /** Entries of `lines` moved to where `lines` stands in `all` stay within `all`. */
  lemma ShiftInBounds(all: seq<string>, lines: seq<string>, off: nat, es: seq<Entry>)
    requires off + |lines| <= |all| && InBounds(lines, es)
    ensures InBounds(all, ShiftEntries(es, off))
  {
  }

  /** Entries of `lines` moved to where `lines` stands in `all` select the same
      lines. */
  lemma SelectedLinesShift(all: seq<string>, lines: seq<string>, off: nat, es: seq<Entry>, marked: string -> bool)
    requires Placed(all, lines, off) && InBounds(lines, es)
    ensures InBounds(all, ShiftEntries(es, off))
    ensures SelectedLines(all, ShiftEntries(es, off), marked) == SelectedLines(lines, es, marked)
  {
    ShiftInBounds(all, lines, off, es);
    var r := ShiftEntries(es, off);
    forall n | 0 <= n < |es| ensures Piece(all, r[n], marked) == Piece(lines, es[n], marked) {
      SelectedMoved(all, lines, off, es[n].start, es[n].end, marked);
    }
    SelectedLinesPointwise(all, lines, r, es, marked);
  }

  /** Two runs of entries whose pieces agree one by one select the same lines. */
  lemma {:induction false} SelectedLinesPointwise(all: seq<string>, lines: seq<string>, rs: seq<Entry>,
                                                  es: seq<Entry>, marked: string -> bool)
    requires InBounds(all, rs) && InBounds(lines, es) && |rs| == |es|
    requires forall n :: 0 <= n < |es| ==> Piece(all, rs[n], marked) == Piece(lines, es[n], marked)
    ensures SelectedLines(all, rs, marked) == SelectedLines(lines, es, marked)
    decreases |es|
  {
    if es != [] {
      SelectedLinesPointwise(all, lines, rs[1..], es[1..], marked);
    }
  }

  /** SelectedLines goes entry by entry: over two runs of entries it selects
      what it selects over the first, then over the second. */
  lemma {:induction false} SelectedLinesConcat(lines: seq<string>, es1: seq<Entry>, es2: seq<Entry>,
                                               marked: string -> bool)
    requires InBounds(lines, es1) && InBounds(lines, es2)
    ensures InBounds(lines, es1 + es2)
    ensures SelectedLines(lines, es1 + es2, marked)
            == SelectedLines(lines, es1, marked) + SelectedLines(lines, es2, marked)
    decreases |es1|
  {
    if es1 != [] {
      assert (es1 + es2)[1..] == es1[1..] + es2;
      SelectedLinesConcat(lines, es1[1..], es2, marked);
    } else {
      assert es1 + es2 == es2;
    }
  }

  /** ShiftEntries by nothing changes nothing. */
  lemma ShiftNothing(es: seq<Entry>)
    ensures ShiftEntries(es, 0) == es
  {
  }

  /** On a file that ends with lines[from..], the entries from there on are
      those of lines[from..], moved. */
  lemma EntriesShift(all: seq<string>, lines: seq<string>, off: nat, starts: string -> bool, from: nat)
    requires Placed(all, lines, off) && |all| == off + |lines|
    requires from <= |lines| && (from < |lines| ==> starts(lines[from]))
    ensures off + from < |all| ==> starts(all[off + from])
    ensures EntriesFrom(all, starts, off + from) == ShiftEntries(EntriesFrom(lines, starts, from), off)
  {
    if from < |lines| {
      assert all[off + from] == lines[from];
    }
    PartitionsShift(all, lines, off, starts, from, EntriesFrom(lines, starts, from));
    PartitionUnique(all, starts, off + from, EntriesFrom(all, starts, off + from),
                    ShiftEntries(EntriesFrom(lines, starts, from), off));
  }

  /** Lines before the first line of an entry are ignored: putting lines
      without one in front of a file changes nothing that is selected. */
  lemma SelectedIgnoresPreamble(pre: seq<string>, lines: seq<string>, starts: string -> bool,
                                marked: string -> bool)
    requires forall k :: 0 <= k < |pre| ==> !starts(pre[k])
    ensures SelectedLines(pre + lines, EntriesFrom(pre + lines, starts, FirstFrom(pre + lines, starts, 0)), marked)
            == SelectedLines(lines, EntriesFrom(lines, starts, FirstFrom(lines, starts, 0)), marked)
  {
    var all := pre + lines;
    ConcatPlaced(pre, lines);
    forall k | 0 <= k < |pre| ensures !starts(all[k]) {
      assert all[k] == pre[k];
    }
    SelectedAfterPreamble(all, lines, |pre|, starts, marked);
  }

  /** SelectedIgnoresPreamble for a file `all` that holds, after `off` lines
      of which none starts an entry, the lines of `lines`. */
  lemma SelectedAfterPreamble(all: seq<string>, lines: seq<string>, off: nat, starts: string -> bool,
                              marked: string -> bool)
    requires Placed(all, lines, off) && |all| == off + |lines|
    requires forall k :: 0 <= k < off ==> !starts(all[k])
    ensures SelectedLines(all, EntriesFrom(all, starts, FirstFrom(all, starts, 0)), marked)
            == SelectedLines(lines, EntriesFrom(lines, starts, FirstFrom(lines, starts, 0)), marked)
  {
    var f := FirstFrom(lines, starts, 0);
    FirstFromShift(all, lines, off, starts, 0);
    FirstFromIs(all, starts, 0, off + f);
    SelectedShifted(all, lines, off, starts, f, marked);
  }

  /** On a file that ends with lines[from..], what is selected from there on is
      what is selected from lines[from..]. */
  lemma SelectedShifted(all: seq<string>, lines: seq<string>, off: nat, starts: string -> bool,
                        from: nat, marked: string -> bool)
    requires Placed(all, lines, off) && |all| == off + |lines|
    requires from <= |lines| && (from < |lines| ==> starts(lines[from]))
    ensures off + from < |all| ==> starts(all[off + from])
    ensures SelectedLines(all, EntriesFrom(all, starts, off + from), marked)
            == SelectedLines(lines, EntriesFrom(lines, starts, from), marked)
  {
    EntriesShift(all, lines, off, starts, from);
    SelectedLinesShift(all, lines, off, EntriesFrom(lines, starts, from), marked);
  }

  /** On a file made of `a` and then `b`, where `b` begins with the first line
      of an entry, what is selected from lines[from..] is what is selected from
      a[from..] followed by what is selected from `b`. */
  lemma SelectedAppend(a: seq<string>, b: seq<string>, starts: string -> bool, from: nat, marked: string -> bool)
    requires from <= |a| && (from < |a| ==> starts(a[from]))
    requires b == [] || starts(b[0])
    ensures from < |a + b| ==> starts((a + b)[from])
    ensures SelectedLines(a + b, EntriesFrom(a + b, starts, from), marked)
            == SelectedLines(a, EntriesFrom(a, starts, from), marked)
               + SelectedLines(b, EntriesFrom(b, starts, 0), marked)
  {
    var all := a + b;
    ConcatPlaced(a, b);
    if from < |a| {
      assert all[from] == a[from];
    }
    if b != [] {
      assert all[|a|] == b[0];
    }
    var es1 := EntriesFrom(a, starts, from);
    var es2 := EntriesFrom(b, starts, 0);
    EntriesShift(all, b, |a|, starts, 0);
    var s2 := ShiftEntries(es2, |a|);
    PartitionsAppend(all, a, starts, from, es1, s2);
    PartitionUnique(all, starts, from, EntriesFrom(all, starts, from), es1 + s2);
    // Entries of `a` are entries of `all`, unmoved.
    SelectedLinesShift(all, a, 0, es1, marked);
    ShiftNothing(es1);
    SelectedLinesShift(all, b, |a|, es2, marked);
    SelectedLinesConcat(all, es1, s2, marked);
  }

  // ---------------------------------------------------------------------------
  // Search by author

  /** The first boundary line at or after `from`, or |lines|. */
  function NextBoundary(lines: seq<string>, from: nat): nat
    requires from <= |lines|
  {
    FirstFrom(lines, IsBoundaryLine, from)
  }

  /** The entries of the whole file: each starts at a boundary line, and the
      lines before the first one hold no boundary line. */
  function Entries(lines: seq<string>): (es: seq<Entry>)
    ensures Partitions(lines, IsBoundaryLine, NextBoundary(lines, 0), es)
    ensures InBounds(lines, es)
  {
    EntriesFrom(lines, IsBoundaryLine, NextBoundary(lines, 0))
  }

  /** The four prefixes `search_by_author` puts before the author's name. */
  const MarkerWords: seq<string> := [" by ", " mennessä ", " par ", " di "]

  /** The attribution markers for `author`, in the order search.py builds them. */
  function Markers(author: string): (ms: seq<string>)
    ensures ms == [" by " + author, " mennessä " + author, " par " + author, " di " + author]
  {
    seq(|MarkerWords|, n requires 0 <= n < |MarkerWords| => MarkerWords[n] + author)
  }

  /** Some string of `subs` occurs in `line`. */
  predicate ContainsSome(line: string, subs: seq<string>) {
    exists s :: s in subs && Contains(line, s)
  }

  /** Some attribution marker for `author` occurs in `line`. */
  predicate HasMarker(line: string, author: string) {
    ContainsSome(line, Markers(author))
  }

  /** The line test "some string of `subs` occurs in the line". */
  function ContainsTest(subs: seq<string>): string -> bool {
    (l: string) => ContainsSome(l, subs)
  }

  /** An entry none of whose lines holds a string of `subs` is not selected by
      ContainsTest(subs). */
  lemma NoneContained(lines: seq<string>, subs: seq<string>, s: nat, e: nat)
    requires s <= e <= |lines|
    requires forall k :: s <= k < e ==> !ContainsSome(lines[k], subs)
    ensures !Selected(lines, Entry(s, e), ContainsTest(subs))
  {
  }

  /** An entry one of whose lines holds a string of `subs` is selected by
      ContainsTest(subs). */
  lemma OneContained(lines: seq<string>, subs: seq<string>, s: nat, e: nat, k: nat)
    requires s <= k < e <= |lines|
    requires ContainsSome(lines[k], subs)
    ensures Selected(lines, Entry(s, e), ContainsTest(subs))
  {
    assert ContainsTest(subs)(lines[k]);
  }

  /** The line test of the author search: some marker occurs in the line. */
  function MarkerTest(author: string): string -> bool {
    ContainsTest(Markers(author))
  }

  /** The lines `search_by_author` collects in `data`. */
  function AuthorLines(lines: seq<string>, author: string): seq<string> {
    SelectedLines(lines, Entries(lines), MarkerTest(author))
  }

  /** The result of `search_by_author`, as lines: None when nothing was collected. */
  function AuthorRecords(lines: seq<string>, author: string): Option<seq<string>> {
    var out := AuthorLines(lines, author);
    if out == [] then None else Some(out)
  }

  /** What the scan selects from line `from` on, where line `from` starts an
      entry or `from` is the end of the file: entry by entry, as the scan meets
      them. */
  function SelectedFrom(lines: seq<string>, starts: string -> bool, marked: string -> bool, from: nat): seq<string>
    requires from <= |lines|
    decreases |lines| - from
  {
    if from == |lines| then []
    else
      var e := FirstFrom(lines, starts, from + 1);
      Piece(lines, Entry(from, e), marked) + SelectedFrom(lines, starts, marked, e)
  }

  /** The scan selects what SelectedLines selects from the entries. */
  lemma {:induction false} SelectedFromEntries(lines: seq<string>, starts: string -> bool,
                                               marked: string -> bool, from: nat)
    requires from <= |lines|
    requires from < |lines| ==> starts(lines[from])
    ensures SelectedFrom(lines, starts, marked, from) == SelectedLines(lines, EntriesFrom(lines, starts, from), marked)
    decreases |lines| - from
  {
    if from < |lines| {
      var e := FirstFrom(lines, starts, from + 1);
      SelectedLinesStep(lines, starts, from, marked);
      SelectedFromEntries(lines, starts, marked, e);
    }
  }

  /** What is still to be selected when the scan stands at line `cur`: the
      entries from the first line at or after `cur` that starts one. */
  function SelectedAfter(lines: seq<string>, starts: string -> bool, marked: string -> bool, cur: nat): seq<string>
    requires cur <= |lines|
  {
    SelectedFrom(lines, starts, marked, FirstFrom(lines, starts, cur))
  }

  /** A line that starts no entry is passed over: what the scan has collected
      and what remains still make up the whole. */
  lemma ScanSkip(lines: seq<string>, starts: string -> bool, marked: string -> bool, cur: nat,
                 data: seq<string>, total: seq<string>)
    requires cur < |lines| && !starts(lines[cur])
    requires data + SelectedAfter(lines, starts, marked, cur) == total
    ensures data + SelectedAfter(lines, starts, marked, cur + 1) == total
  {
  }

  /** At a line that starts an entry, the entry is taken whole if one of its
      lines is marked and left out otherwise, and the scan goes on where the
      entry ends: what the scan has then collected and what remains still make
      up the whole. */
  lemma ScanEntry(lines: seq<string>, starts: string -> bool, marked: string -> bool, cur: nat,
                  data: seq<string>, total: seq<string>)
    requires cur < |lines| && starts(lines[cur])
    requires data + SelectedAfter(lines, starts, marked, cur) == total
    ensures var e := FirstFrom(lines, starts, cur + 1);
            data + Piece(lines, Entry(cur, e), marked) + SelectedAfter(lines, starts, marked, e) == total
  {
    var e := FirstFrom(lines, starts, cur + 1);
    FirstFromIs(lines, starts, e, e);
    var piece := Piece(lines, Entry(cur, e), marked);
    var rest := SelectedAfter(lines, starts, marked, e);
    assert SelectedAfter(lines, starts, marked, cur) == piece + rest;
    assert data + piece + rest == data + (piece + rest);
  }

  /** The author search read as a scan from the first line. */
  lemma AuthorScan(lines: seq<string>, author: string)
    ensures AuthorLines(lines, author) == SelectedAfter(lines, IsBoundaryLine, MarkerTest(author), 0)
  {
    SelectedFromEntries(lines, IsBoundaryLine, MarkerTest(author), NextBoundary(lines, 0));
  }

  /** The author search finds nothing exactly when no line from the first
      boundary line on holds an attribution marker. */
  lemma AuthorNotFound(lines: seq<string>, author: string)
    ensures AuthorRecords(lines, author) == None <==>
            forall m :: NextBoundary(lines, 0) <= m < |lines| ==> !HasMarker(lines[m], author)
  {
    SelectedLinesEmpty(lines, IsBoundaryLine, NextBoundary(lines, 0), MarkerTest(author));
  }

  /** Lines before the first boundary line are skipped: putting lines without a
      boundary line in front of a file does not change what the author search
      returns. */
  lemma AuthorIgnoresPreamble(pre: seq<string>, lines: seq<string>, author: string)
    requires forall k :: 0 <= k < |pre| ==> !IsBoundaryLine(pre[k])
    ensures AuthorRecords(pre + lines, author) == AuthorRecords(lines, author)
  {
    SelectedIgnoresPreamble(pre, lines, IsBoundaryLine, MarkerTest(author));
  }

  /** The author search returns the selected entries in file order: on a file
      cut in two before a boundary line, its lines are those of the first part
      followed by those of the second. */
  lemma AuthorConcat(a: seq<string>, b: seq<string>, author: string)
    requires b == [] || IsBoundaryLine(b[0])
    ensures AuthorLines(a + b, author) == AuthorLines(a, author) + AuthorLines(b, author)
  {
    ConcatPlaced(a, b);
    if b != [] {
      assert (a + b)[|a|] == b[0];
      FirstFromIs(b, IsBoundaryLine, 0, 0);
    }
    FirstFromAppend(a + b, a, IsBoundaryLine, 0);
    SelectedAppend(a, b, IsBoundaryLine, NextBoundary(a, 0), MarkerTest(author));
  }
}
