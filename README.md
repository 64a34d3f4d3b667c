# GUTINDEX record scanner

A Dafny model of the record scanner in `search.py`, the script that searches
Project Gutenberg's GUTINDEX listing. The scanner has three searches:

- by e-text number (`search_by_etext_no`);
- by title (`search_by_title`);
- by author (`search_by_author`).

All three rest on the same boundary pattern `reg`. A boundary line ends, ignoring
one final newline, in two or more whitespace characters, one or more digits
and an optional `C`. In the code it is the first line of an index entry: the
line with the title and the e-text number. The lines after it, up to the next
boundary line, continue the entry.

How the model is built:

- The index file is a `seq<string>` of its lines, each with its newline.
- The file cursor is an index into that sequence.
- `readline` returns the line at the cursor and moves past it. At the end of
  the file it returns `""` (`Search.ReadLine`). So the lines of a file are
  never empty (`Text.IsFileLines`).
- `tell` and `seek` save and restore the index.
- The two regular expressions are written out as predicates on strings
  (module `Patterns`). Each one comes with a lemma that ties it to a
  declarative reading of the pattern.
- What each search returns is stated as a function on the lines (module
  `Records`). The facts about scanning and partitioning are proved once, for
  any line predicate, and then used with the patterns.
- The searches themselves are methods with `while` loops over the cursor
  (module `Search`). Each is proved to return what its `Records` function
  describes.
- `Scenarios` proves, on small concrete lines and files, what the patterns
  and the author look-ahead give for them.

The model follows the code where an informal reading of the program could
differ from it in two places:

- The boundary line is the FIRST line of an entry, not the last.
- `search_by_author` returns every matching entry in file order, not just the
  first. Its outer loop never returns early (search.py:89-128).

The e-text header is `group(1).strip()`, so whitespace is removed from both
ends of it.

## Model

| member | source | states |
|---|---|---|
| `Text.Body` | search.py:34 | the text that a pattern ending in `$` must match up to: the line, or the line without one final newline |
| `Text.SpaceRunAt` | search.py:34 | the whitespace run that ends at an index is all whitespace, and the character before it is not whitespace |
| `Text.DigitRunAt` | search.py:34 | the digit run that ends at an index is all digits, and the character before it is not a digit |
| `Text.TrimRight` | search.py:41 | `strip`'s right half: the result is a prefix, everything cut off is whitespace, and the result does not end in whitespace |
| `Text.TrimLeft` | search.py:41 | `strip`'s left half: the result is a suffix, everything cut off is whitespace, and the result does not start with whitespace |
| `Text.TrimRightUnique` | search.py:41 | only one prefix has TrimRight's three properties, so the contract fixes what `strip` removes on the right |
| `Text.StripPrefixSpace` | search.py:41 | a prefix followed by more whitespace strips to the same text, so it does not matter where the greedy group 1 stops inside the whitespace run |
| `Text.Strip` | search.py:41 | `str.strip()`: the result is no longer than its input and neither begins nor ends with whitespace; StripSpec says where it stands in the input |
| `Text.StripSpec` | search.py:41 | `strip` cuts whitespace from both ends and nothing else: the result stands in the input at some index, with only whitespace before and after it |
| `Text.Contains` | search.py:62 | `sub in s` as the title test uses it (and the marker tests at search.py:97 and 107); its meaning is fixed by ContainsSpec |
| `Text.Concat` | search.py:48 | `''.join(data)`; ConcatAppend states how it joins |
| `Text.ConcatAppend` | search.py:48 | joining two runs of lines gives the first run's text followed by the second's, and one line joins to itself |
| `Text.ContainsSpec` | search.py:62 | `sub in s` holds exactly when `sub` occurs in `s` at some index |
| `Patterns.IsBoundaryLine` | search.py:34 | `reg.match(line)`, the same pattern as at search.py:56 and 78; its meaning is fixed in both directions by BoundaryLineSpec |
| `Patterns.BoundaryLineSpec` | search.py:34 | `reg.match(line)` as IsBoundaryLine holds exactly when the line body splits into text without a newline, two or more whitespace characters, then one or more digits, then an optional `C` |
| `Patterns.EnoWordEnds` | search.py:33 | the two `\b` around `eno`: after whitespace and before the end of the line they hold exactly when `eno` begins and ends with a word character, so an empty `eno` never matches |
| `Patterns.EtextNumberWordEnds` | search.py:33 | an e-text number of the index's shape (digits, optional `C`) satisfies both `\b` |
| `Patterns.EnoHeader` | search.py:38-41 | `eno_ex.match(line).group(1).strip()`, or None when the line does not match; its meaning is fixed by EnoHeaderSpec |
| `Patterns.GroupEndGuards` | search.py:33 | a line `eno_ex` matches ends in `eno`, after at least two whitespace characters, with no newline before them, and `eno` satisfies both `\b` |
| `Patterns.EnoHeaderSpec` | search.py:33-41 | `eno_ex` matches exactly when the line body splits into text without a newline, at least two whitespace characters and exactly `eno`, with both `\b` holding; the header is then the stripped text of every such split |
| `Patterns.EnoSplitHeader` | search.py:41 | for every split `eno_ex` accepts, the header is the stripped group before the whitespace run |
| `Patterns.EnoWholeToken` | search.py:33 | `eno` is the whole final token of a matching line: whitespace comes right before it, so `123` matches neither `…9123` nor `…123C` |
| `Patterns.EnoLineIsBoundary` | search.py:33-34 | with an e-text number of the index's shape, every line `eno_ex` matches is a boundary line |
| `Records.FirstFrom` | search.py:37-40 | the index the `for line in f` loop stops at: the first line at or after `from` that satisfies the test, or the end of the file |
| `Records.FirstFromIs` | search.py:37-40 | FirstFrom's contract determines it: any index with those properties is the one it returns |
| `Records.EndsRecord` | search.py:44 | the copy loop's stop test: the line is `"\n"` or a boundary line (the `''` case is the end of the file, where the copy loop stops too) |
| `Records.RecordAfterRun` | search.py:43-46 | the copy loop's result is the header, then exactly the consecutive lines after it, stopping before the first stop line or the end of the file |
| `Records.EtextRecord` | search.py:37-48 | the lines `search_by_etext_no` joins, or None; its meaning is fixed by EtextNotFound and EtextFound |
| `Records.EtextNotFound` | search.py:37-50 | the e-text search returns None exactly when no line matches `eno_ex` |
| `Records.EtextFound` | search.py:37-48 | otherwise it copies from the first matching line: the stripped header plus a newline, then the lines after it up to a blank line, a boundary line or the end of the file, with no boundary line included |
| `Records.TitleTestSpec` | search.py:60-62 | the title test holds exactly when the line is a boundary line that contains `title` at some index |
| `Records.TitleRecord` | search.py:59-70 | the lines `search_by_title` joins, or None; its meaning is fixed by TitleNotFound and TitleFound |
| `Records.TitleNotFound` | search.py:59-72 | the title search returns None exactly when no boundary line contains `title` |
| `Records.TitleFound` | search.py:59-70 | otherwise it copies the first such line unchanged, then the lines after it, up to a blank or boundary line or the end of the file |
| `Records.EntriesFrom` | search.py:89-128 | the entries cut the file from a first line on into consecutive runs; each run is one boundary line followed by lines that are not boundary lines |
| `Records.PartitionUnique` | search.py:89-128 | there is only one way to cut the file into entries |
| `Records.SelectedLinesEmpty` | search.py:130-133 | nothing is selected exactly when no line from the first entry on is marked |
| `Records.NoneContained` | search.py:96-114 | an entry with no marker on any of its lines is not selected |
| `Records.OneContained` | search.py:96-114 | an entry with a marker on its boundary line or on a later line is selected |
| `Records.SelectedFromEntries` | search.py:89-128 | going through the entries one at a time, in the order the loop meets them, selects exactly the lines of the selected entries of the partition |
| `Records.ScanSkip` | search.py:127-128 | passing over a line that is not a boundary line keeps the loop invariant: what has been collected, followed by what is still to come, is the whole result |
| `Records.ScanEntry` | search.py:92-125 | handling a boundary line keeps the same invariant: its entry, whole or not at all, joins what has been collected, and the scan goes on at the next boundary line |
| `Records.AuthorScan` | search.py:86-128 | the author search's scan from the first line selects exactly the selected entries of the file |
| `Records.Markers` | search.py:80-82 | `by_list`: exactly the four markers " by ", " mennessä ", " par " and " di ", each followed by the author's name, in this order |
| `Records.AuthorRecords` | search.py:130-133 | the lines `search_by_author` joins, or None when nothing was collected; AuthorScan ties it to the scan and AuthorNotFound says when it is None |
| `Records.AuthorNotFound` | search.py:130-133 | the author search returns None exactly when no line from the first boundary line on contains one of the four markers |
| `Records.AuthorIgnoresPreamble` | search.py:127-128 | lines before the first boundary line are skipped: putting lines that are not boundary lines in front of a file does not change the result |
| `Records.SelectedAppend` | search.py:116-122 | for any entry predicate: on a file cut in two before the first line of an entry, the selection is the first part's selection followed by the second part's |
| `Records.AuthorConcat` | search.py:116-122 | entries come out whole and in file order: on a file cut in two before a boundary line, the result is the first part's result followed by the second part's |
| `Search.ReadLine` | search.py:43 | `readline` returns the line at the cursor and moves past it; at the end of the file it returns `""` and the cursor stays |
| `Search.CopyUntil` | search.py:43-46 | the copy loop ends at the first stop line at or after the cursor, or at the end of the file. It has copied exactly the lines before that one, that line is the one read last, and `readline` was called once per line copied plus once more |
| `Search.ContainsAny` | search.py:96-101 | the `for … break / else` over `by_list` sets `found` exactly when some marker occurs in the line |
| `Search.BuildMarkers` | search.py:80-82 | `by_list` is the four markers " by ", " mennessä ", " par " and " di ", each followed by the author's name, in this order |
| `Search.FindFirst` | search.py:37-40 | the `for line in f` loop stops at the first line the test accepts, or runs to the end of the file |
| `Search.SearchByEtextNo` | search.py:30-50 | the method returns the joined lines of EtextRecord, or None |
| `Search.SearchByTitle` | search.py:53-72 | the method returns the joined lines of TitleRecord, or None |
| `Search.LookAhead` | search.py:103-114 | the look-ahead stops at the first line with a marker before the next boundary line, and reports found. Otherwise it stops at the next boundary line or the end of the file, and reports not found. No line it passed holds a marker |
| `Search.TakeEntry` | search.py:92-125 | one boundary line's turn adds its whole entry to `data` if the entry holds a marker, and nothing otherwise. It rewinds to the line after the boundary line, leaves the next boundary line as the line read last, and reads at most two lines per line of the entry |
| `Search.CollectEntries` | search.py:86-128 | the main loop collects exactly the selected entries, in file order, and calls `readline` at most 2·\|lines\|+1 times |
| `Search.SearchByAuthor` | search.py:75-133 | the method returns the joined lines of AuthorRecords, or None when nothing was collected, within 2·\|lines\|+1 `readline` calls |
| `Scenarios.TitleLineIsBoundary` | search.py:34 | a title line with three spaces before its number is a boundary line |
| `Scenarios.VolumeNumberIsNotBoundary` | search.py:13-16 | a line ending in "Vol. 2", one space before the number, is not a boundary line |
| `Scenarios.NoNumberIsNotBoundary` | search.py:34 | a line whose last character before the newline is neither a digit nor `C` is not a boundary line |
| `Scenarios.EmptyNumberMatchesNothing` | search.py:33 | with an empty e-text number `eno_ex` matches no line |
| `Scenarios.NonWordNumberMatchesNothing` | search.py:33 | a number that begins with `-` fails the first `\b` after the whitespace run, so "Some Title   -5" does not match `-5` |
| `Scenarios.EtextHeaderExample` | search.py:41 | "Some Title   12345\n" searched for 12345 has the header "Some Title" |
| `Scenarios.AuthorLookahead` | search.py:103-122 | a two-line entry whose marker is on its second line is returned whole, from its boundary line on, and a following entry without a marker is left out |

## Left out

- The command-line dispatcher (search.py:136-168): argument handling, mode names and `print`.
- Opening and decoding the file (search.py:36, 58, 86). The file is given as its sequence of lines.
- Byte offsets from `f.tell()` and `f.seek()` (search.py:93, 117). The cursor is a line index, and the rewind resets it to the line after the boundary line.
- Mixing `for line in f` with `f.readline()` (search.py:37/43, 59/65) is modelled as one index that moves on. The e-text and title loops are FindFirst followed by CopyUntil, since the loop body returns.
- Python's Unicode `\s`, `\d` and `str.strip`. Whitespace is the ASCII set those treat as space: space, tab, newline, carriage return, vertical tab, form feed and 0x1C-0x1F. Digits are `0`-`9`.
- The regular expression engine. EnoHeader reads `eno` as literal text, with both `\b` (EnoWordEnds) checked on its first and last character; `\w` is restricted to ASCII letters, digits and `_`. An `eno` with regex metacharacters, which search.py puts into the pattern unescaped, is not modelled; the index's e-text numbers (digits and an optional `C`) have none.
- The scan of the author search is written once for any boundary predicate (CollectEntries takes it as a parameter), and SearchByAuthor passes `reg`'s predicate.
- Search.CollectEntries, Search.TakeEntry, Search.LookAhead, Search.CopyUntil: the `steps` counts of `readline` calls are ghost out-parameters. They bound the work but do not change what is returned.
