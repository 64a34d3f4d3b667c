/**
  Concrete files and lines on which the model gives the documented results:
  the two-space rule of the boundary pattern, the header of an e-text lookup,
  and an author lookup that finds the marker on the line after the boundary
  line.
*/
module Scenarios {
  import opened Wrappers
  import opened Text
  import opened Patterns
  import opened Records

  /** A title line with three spaces before its number is a boundary line. */
  lemma TitleLineIsBoundary()
    ensures IsBoundaryLine("Some Title   12345\n")
  {
    var line := "Some Title   12345\n";
    var b := Body(line);
    assert b == "Some Title   12345";
    assert BoundarySplit(b, 10, 13, 18);
    BoundaryLineSpec(line);
  }

  /** A line that ends in a volume number after one space is not a boundary
      line: the false negative search.py documents for e-text numbers with
      fewer than two spaces before them. */
  lemma VolumeNumberIsNotBoundary()
    ensures !IsBoundaryLine("Some Book, Vol. 2\n")
  {
    var b := Body("Some Book, Vol. 2\n");
    VolumeBody();
    assert NumberEnd(b) == 17;
    DigitRunExact(b, 16, 17);
    assert !IsSpace(b[14]) && SpaceRunAt(b, 15) == 0;
    assert SpaceRunAt(b, 16) == 1;
  }

  lemma VolumeBody()
    ensures Body("Some Book, Vol. 2\n") == "Some Book, Vol. 2"
  {
  }

  /** A line ending in text without digits is not a boundary line. */
  lemma NoNumberIsNotBoundary(line: string)
    requires |line| >= 2 && line[|line| - 1] == '\n' && !IsDigit(line[|line| - 2]) && line[|line| - 2] != 'C'
    ensures !IsBoundaryLine(line)
  {
  }

  /** With an empty e-text number the two `\b` of `eno_ex` cannot both hold
      after whitespace, so no line matches. */
  lemma EmptyNumberMatchesNothing(line: string)
    ensures EnoHeader(line, "") == None
  {
  }

  /** A number that does not begin with a word character fails the first `\b`
      of `eno_ex` after the whitespace run. */
  lemma NonWordNumberMatchesNothing()
    ensures EnoHeader("Some Title   -5\n", "-5") == None
  {
  }

  /** The header the e-text search makes of a matching line: the title text
      without the whitespace before the number. */
  lemma EtextHeaderExample()
    ensures EnoHeader("Some Title   12345\n", "12345") == Some("Some Title")
  {
    var line := "Some Title   12345\n";
    ExampleSplit();
    EnoSplitHeader(line, "12345", 10);
    ExamplePrefix();
    ExampleStrip();
  }

  lemma ExampleSplit()
    ensures EnoSplit(Body("Some Title   12345\n"), "12345", 10)
  {
    var b := Body("Some Title   12345\n");
    assert b == "Some Title   12345";
  }

  lemma ExamplePrefix()
    ensures Body("Some Title   12345\n")[..10] == "Some Title"
  {
    var b := Body("Some Title   12345\n");
    assert b == "Some Title   12345";
  }

  lemma ExampleStrip()
    ensures Strip("Some Title") == "Some Title"
  {
    var t := "Some Title";
    assert !IsSpace(t[9]);
    TrimRightUnique(t, t);
    assert !IsSpace(t[0]);
  }

  /** The look-ahead and rewind of the author search: an entry whose boundary
      line holds no marker but whose next line does is returned whole, from its
      boundary line on, and a following entry without a marker is left out. */
  lemma AuthorLookahead(file: seq<string>, author: string)
    requires |file| == 3 && IsBoundaryLine(file[0]) && !IsBoundaryLine(file[1]) && IsBoundaryLine(file[2])
    requires !HasMarker(file[0], author) && HasMarker(file[1], author) && !HasMarker(file[2], author)
    ensures AuthorRecords(file, author) == Some(file[..2])
  {
    assert MarkerTest(author)(file[1]) && !MarkerTest(author)(file[2]);
    ThreeLineScan(file, IsBoundaryLine, MarkerTest(author));
    AuthorScan(file, author);
  }

  /** The scan over a file of two entries, of two lines and of one, where only
      the second line of the file is marked. */
  lemma ThreeLineScan(file: seq<string>, starts: string -> bool, marked: string -> bool)
    requires |file| == 3 && starts(file[0]) && !starts(file[1]) && starts(file[2])
    requires marked(file[1]) && !marked(file[2])
    ensures SelectedAfter(file, starts, marked, 0) == file[..2]
  {
    FirstFromIs(file, starts, 0, 0);
    FirstFromIs(file, starts, 1, 2);
    FirstFromIs(file, starts, 3, 3);
    assert Selected(file, Entry(0, 2), marked);
    assert !Selected(file, Entry(2, 3), marked);
    assert SelectedFrom(file, starts, marked, 2) == [];
    assert SelectedFrom(file, starts, marked, 0) == file[0..2];
  }
}
