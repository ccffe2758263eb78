# hunksplit line ranges, modelled in Dafny

`hunksplit` is a jj command that splits a file's changes by line ranges. The
user names the ranges on the command line as `path:start-end`. The command
then cuts each file into two texts:

- the lines the ranges select;
- the lines they leave.

This project models the pure core of that command in `cli/src/main.rs`:

- `LineRange::parse` turns `path:start-end` into a validated range, or reports
  which check failed.
- `extract_lines_from_content` takes the ranges naming a file and sorts them by
  start line (a stable sort). It clamps each range to the file and
  concatenates the selected slices, joined with `\n`.
- `extract_complement_lines` marks every line index the file's ranges cover.
  It returns the other lines in file order, joined with `\n`. When no range
  names the file, it returns the content unchanged.

Modules:

- `Text`: splitting and joining on one character, and Rust's `str::lines`.
- `Numbers`: decimal rendering and `str::parse::<usize>` on a 64-bit target.
- `Ranges`: `LineRange`, its parser, and the parser's unit tests.
- `Partition`: the two extraction functions. Each is a method with its loops,
  proved against a specification function (`SelectedText`, `RemainderText`).
- `PartitionProperties`: the promises, covering the order in which ranges are
  used, clamping, and how selection and remainder split a file.
- `ExtractionExamples`: the extraction unit tests, each stated for any lines
  of the tested count that are non-empty, hold no line break and do not end
  in `\r`.

Content is text, a sequence of characters, not bytes.

Rust's `str::lines` is modelled as the current standard library defines it:

- split on `\n`;
- drop the empty piece after a final `\n`;
- remove one `\r` from each line that a `\n` ended.

An unterminated last line keeps a trailing `\r`. A looser reading would strip
`\r` from every line; the model follows the standard library instead.

## Model

| member | source | states |
|---|---|---|
| Text.Split | cli/src/main.rs:55 | `split(c)` yields one piece more than there are separators, and no piece holds the separator |
| Text.JoinSplit | cli/src/main.rs:55 | joining the pieces of a split with the separator gives the text back |
| Text.SplitJoin | cli/src/main.rs:114 | splitting a join (`Join`, the `join("\n")` of lines 114 and 151) of separator-free pieces gives the pieces back |
| Text.SplitCons | cli/src/main.rs:55 | a separator-free text followed by the separator and a rest splits into that text followed by the pieces of the rest |
| Text.Lines | cli/src/main.rs:99 | `lines()` gives lines free of `\n`: as many as there are `\n`, plus one for an unterminated last line |
| Text.LinesLast | cli/src/main.rs:99 | a text without `\n` is one line, kept as it is even with a final `\r`; the empty text has no lines |
| Text.LinesCons | cli/src/main.rs:99 | the first line is the text before the first `\n`, less one `\r` just before that `\n`; the other lines are the lines of the rest |
| Text.LinesCRLF | cli/src/main.rs:99 | `\r\n` ends a line just as `\n` does, and the line does not keep the `\r` |
| Text.LinesOfJoin | cli/src/main.rs:114 | lines without `\n`, none but the last ending in `\r` and the last non-empty, come back unchanged from a `\n` join (`Join`) followed by `lines()` |
| Numbers.ParseUsize | cli/src/main.rs:63-68 | a parsed usize is at most 2^64-1; the text is an optional `+` followed by at least one digit and digits only, so a lone `+` fails |
| Numbers.ParseDecimal | cli/src/main.rs:63-68 | every usize reads back from its decimal rendering, with or without a leading `+` |
| Numbers.ParseOverflow | cli/src/main.rs:63-68 | a value above usize::MAX is refused, not wrapped |
| Numbers.ZerosValue | cli/src/main.rs:63-68 | leading zeros do not change the value of a run of digits |
| Numbers.DecimalOfDigits | cli/src/main.rs:63-68 | a run of digits without leading zeros is the decimal rendering of its value |
| Numbers.DigitsAsDecimal | cli/src/main.rs:63-68 | every run of digits is zeros followed by the decimal rendering of its value |
| Numbers.ParsePadded | cli/src/main.rs:63-68 | an optional `+`, any number of zeros and the rendering of a usize parse to that usize (`010` is 10) |
| Numbers.ParseShape | cli/src/main.rs:63-68 | every accepted text is an optional `+`, zeros and the decimal rendering of the value returned |
| Ranges.LastIndexOf | cli/src/main.rs:49 | finds the last occurrence of a character: none exactly when it is absent; otherwise an index holding it with none after it |
| Ranges.Parse | cli/src/main.rs:47-84 | fails with the missing-colon error exactly when the text has no colon; every success is a range with 1 <= start <= end <= usize::MAX whose path is everything before the last colon |
| Ranges.ColonFields | cli/src/main.rs:49-54 | `p:q`, where `q` has no colon, splits into path `p` and range part `q`, even when `p` holds colons |
| Ranges.DashFields | cli/src/main.rs:55-61 | `a-b`, where neither part has a dash, splits into exactly the two tokens `a` and `b` |
| Ranges.ParseRendered | cli/src/main.rs:78-82 | parsing `p:start-end` for any 1 <= start <= end <= usize::MAX gives back exactly path `p`, `start` and `end` |
| Ranges.DigitsHoldNoSeparator | cli/src/main.rs:49-61 | a run of digits holds neither `:` nor `-`, so it never moves the split points |
| Ranges.UsizeTokenHoldsNoSeparator | cli/src/main.rs:49-61 | any token `usize` parsing accepts holds neither `:` nor `-` |
| Ranges.ParseTokens | cli/src/main.rs:49-82 | for any tokens `a`, `b` that parse as `usize` values `x`, `y`, `path:a-b` gives `ZeroLine` when either is 0, else `Inverted` when `x > y`, else the range `path`, `x`, `y` |
| Ranges.ParseLeadingZeros | cli/src/main.rs:63-82 | bounds written with leading zeros parse to the same range as without them |
| Ranges.ParseRejectsShape | cli/src/main.rs:55-61 | a range part without exactly one `-` is a format error |
| Ranges.ParseRejectsStart | cli/src/main.rs:63-65 | a start token that is not a usize gives the start-number error |
| Ranges.ParseRejectsEnd | cli/src/main.rs:66-68 | a good start with an end token that is not a usize gives the end-number error |
| Ranges.ParseRejectsZero | cli/src/main.rs:70-72 | a bound of 0, in either place, gives the line-number error |
| Ranges.ParseRejectsInverted | cli/src/main.rs:74-76 | a start after the end gives the inverted-range error |
| Ranges.ParseValidExample | cli/src/main.rs:245-250 | `src/main.rs:10-20` parses to path `src/main.rs`, 10, 20 |
| Ranges.ParseColonsInPathExample | cli/src/main.rs:253-258 | `C:/Users/test/file.rs:5-15` keeps the colon of the path |
| Ranges.ParseSingleLineExample | cli/src/main.rs:261-266 | `test.txt:42-42` is accepted as one line |
| Ranges.ParseLeadingZeroExample | cli/src/main.rs:63-82 | `src/main.rs:010-20` parses to path `src/main.rs`, 10, 20 |
| Ranges.ParsePlusExample | cli/src/main.rs:63-82 | `f:+5-10` parses to path `f`, 5, 10: a leading `+` is accepted |
| Ranges.ParsePaddedZeroExample | cli/src/main.rs:63-72 | `f:00-5` is refused as a zero line, the padding notwithstanding |
| Ranges.ParseNoColonExample | cli/src/main.rs:269-270 | `src/main.rs` is refused for lack of a colon |
| Ranges.ParseNoDashExample | cli/src/main.rs:271 | `src/main.rs:10` is a format error |
| Ranges.ParseTwoDashesExample | cli/src/main.rs:272 | `src/main.rs:10-20-30` is a format error |
| Ranges.ParseNonNumericStartExample | cli/src/main.rs:277 | `src/main.rs:abc-def` fails on the start number |
| Ranges.ParseNonNumericEndExample | cli/src/main.rs:278 | `src/main.rs:10-abc` fails on the end number |
| Ranges.ParseZeroExample | cli/src/main.rs:279 | `src/main.rs:0-10` fails on the zero line number |
| Ranges.ParseInvertedExample | cli/src/main.rs:284 | `src/main.rs:20-10` fails as inverted |
| Partition.Matching | cli/src/main.rs:88-90 | keeps exactly the ranges whose path is the file's |
| Partition.MatchingAppend | cli/src/main.rs:88-90 | the filter works range by range: a lone range is kept exactly when it names the file, and a concatenation filters to the concatenation of the filtered parts, so the given order is kept |
| Partition.MatchingSnoc | cli/src/main.rs:88-90 | filtering one more range appends it exactly when it names the file |
| Partition.MatchingCount | cli/src/main.rs:88-90 | a range of the file is kept as many times as it is given, repeats included; a range of another file never |
| Partition.MatchingIndicesSpec | cli/src/main.rs:88-90 | the positions naming the file are listed once each, in increasing order |
| Partition.MatchingPositions | cli/src/main.rs:88-90 | the kept ranges are the given ranges at exactly those positions, in order |
| Partition.InsertSorted | cli/src/main.rs:91 | inserting into a start-sorted list keeps it sorted |
| Partition.SortByStart | cli/src/main.rs:91 | the result is sorted by start line and is a permutation of the input |
| Partition.Applicable | cli/src/main.rs:88-92 | a range is applicable exactly when it is one of the given ranges and names the file |
| Partition.Clamping | cli/src/main.rs:104-105 | `StartIdx` is `start - 1` saturating at 0 (`saturating_sub(1)`, also line 135); `EndIdx` is the smaller of `end` and the line count (`min(lines.len())`, also line 136) |
| Partition.SelectedIndices | cli/src/main.rs:102-112 | every selected index is a line of the file; an index is selected exactly when some range covers it after clamping |
| Partition.SelectedLinesAt | cli/src/main.rs:102-112 | `SelectedLines`, the output of the slice loop, holds as many lines as there are selected indices, and its j-th line is the file's line at the j-th selected index |
| Partition.ExtractLinesFromContent | cli/src/main.rs:86-115 | returns `SelectedText`, the selected lines joined with `\n`; returns empty output when no range names the file |
| Partition.CollectSlices | cli/src/main.rs:102-112 | the loop pushes exactly `SelectedLines`: the clamped slices of the sorted ranges, in order |
| Partition.SelectedLinesAppend | cli/src/main.rs:102-112 | selecting with ranges `a` and then `b` gives the selection of `a` followed by that of `b`: the slices come out in range order, each range contributing on its own |
| Partition.ExcludedSet | cli/src/main.rs:131-141 | a line index is excluded exactly when it is a line of the file and some range covers it |
| Partition.KeptIndices | cli/src/main.rs:144-149 | the kept indices are strictly increasing (file order) and are lines of the file |
| Partition.KeptIndicesMembers | cli/src/main.rs:144-149 | an index is kept exactly when it is a line of the file outside the excluded set |
| Partition.UnexcludedAt | cli/src/main.rs:144-149 | `Unexcluded`, the filter/collect, holds as many lines as there are kept indices, and its j-th line is the file's line at the j-th kept index |
| Partition.ExtractComplementLines | cli/src/main.rs:117-152 | returns `RemainderText`, the unexcluded lines joined with `\n`; returns the content unchanged when no range names the file |
| Partition.MarkExcluded | cli/src/main.rs:131-141 | the nested loops insert exactly the clamped spans of all ranges |
| PartitionProperties.InsertStartingAt | cli/src/main.rs:91 | insertion puts a range ahead of every other range with the same start line |
| PartitionProperties.SortByStartStable | cli/src/main.rs:91 | the sort is stable: ranges with equal start keep their given order |
| PartitionProperties.ApplicableOrder | cli/src/main.rs:88-96 | the ranges used are sorted by start, ties in given order; there are none exactly when no range names the file |
| PartitionProperties.ApplicableCount | cli/src/main.rs:88-92 | every range of the file is used as many times as it is given (a repeated range selects its lines again); a range of another file never |
| PartitionProperties.ValidRangesInBounds | cli/src/main.rs:102-109 | ranges that passed the parser's checks never make the slice go out of bounds, whatever the file length |
| PartitionProperties.SelectedIndicesCount | cli/src/main.rs:102-112 | the number of selected indices is the sum of the clamped range lengths |
| PartitionProperties.SelectedCount | cli/src/main.rs:102-112 | the selection holds the sum of the clamped range lengths; a range past the end contributes only existing lines |
| PartitionProperties.RemainderKeepsUncovered | cli/src/main.rs:131-149 | a line stays in the remainder exactly when no range of the file covers it |
| PartitionProperties.WholeFileRangeLeavesNothing | cli/src/main.rs:131-151 | a range from line 1 to at least the last line leaves an empty remainder |
| PartitionProperties.ApplicableSingle | cli/src/main.rs:88-92 | a file's only range is used alone |
| PartitionProperties.ApplicablePair | cli/src/main.rs:88-92 | two ranges, the first starting no later, are used in the given order |
| PartitionProperties.UnexcludedOutside | cli/src/main.rs:144-149 | excluding one block of indices leaves the lines before it followed by the lines after it |
| PartitionProperties.SingleRangeSelection | cli/src/main.rs:86-115 | one valid range selects exactly its clamped slice, joined with `\n` |
| PartitionProperties.SingleRangeRemainder | cli/src/main.rs:117-152 | one range leaves the lines before its clamped slice followed by those after it |
| PartitionProperties.EveryLineOnOneSide | cli/src/main.rs:102-149 | every line is selected exactly when it is not kept in the remainder |
| PartitionProperties.MatchingDisjoint | cli/src/main.rs:88-90 | filtering preserves pairwise disjointness of the file's ranges |
| PartitionProperties.InsertSeparated | cli/src/main.rs:91 | inserting a disjoint range into ranges lined up one after another keeps them lined up |
| PartitionProperties.SortSeparated | cli/src/main.rs:91 | sorting pairwise disjoint valid ranges lines them up one after another |
| PartitionProperties.SelectedIndicesIncreasing | cli/src/main.rs:102-112 | ranges lined up one after another select each line at most once, in file order |
| PartitionProperties.CountPartition | cli/src/main.rs:144-149 | a strictly increasing run of in-file indices matching the excluded set, plus the kept indices, number exactly the file's lines |
| PartitionProperties.LineCountsAddUp | cli/src/main.rs:86-152 | for valid ranges that share no line, the selected lines plus the remaining lines number exactly the file's lines |
| PartitionProperties.RejoinedCountsAddUp | cli/src/main.rs:423-447 | for valid, non-overlapping ranges over non-empty lines not ending in `\r`, `lines()` of the two outputs add up to the file's line count |
| ExtractionExamples.PlainLinesRoundTrip | cli/src/main.rs:288-299 | test-style lines come back unchanged from a `\n` join and `lines()` |
| ExtractionExamples.ExtractSimpleExample | cli/src/main.rs:288-299 | `{2,4}` of five lines gives lines 2, 3 and 4 |
| ExtractionExamples.ExtractMultipleExample | cli/src/main.rs:303-322 | `{1,2}` and `{5,6}` of six lines give lines 1, 2, 5 and 6 |
| ExtractionExamples.ExtractOutOfBoundsExample | cli/src/main.rs:339-352 | `{2,10}` of three lines is clamped to lines 2 and 3 |
| ExtractionExamples.ComplementSimpleExample | cli/src/main.rs:355-367 | removing `{2,4}` from five lines leaves lines 1 and 5 |
| ExtractionExamples.ComplementMultipleExample | cli/src/main.rs:370-390 | removing `{2,3}` and `{5,5}` from six lines leaves lines 1, 4 and 6 |
| ExtractionExamples.ComplementAllExample | cli/src/main.rs:407-420 | removing `{1,3}` from three lines leaves the empty text |
| ExtractionExamples.RoundTripExample | cli/src/main.rs:423-447 | with `{2,3}` over five lines, the selection is lines 2-3 and the remainder lines 1, 4 and 5; split into lines, they hold five between them |
| ExtractionExamples.EmptyLineLostExample | cli/src/main.rs:114 | with `a`, an empty line and `b` under `{1,2}`, the selection joined at line 114 and split again by `lines()` (as lines 201-208 and 437-438 do) holds two lines with the remainder, not three: a trailing empty selected line does not survive the re-split |

The no-matching-file tests (cli/src/main.rs:325-336, 392-404) are the second
`ensures` of `Partition.ExtractLinesFromContent` and
`Partition.ExtractComplementLines`.

## Left out

- `hunksplit_command` and `main` (cli/src/main.rs:154-238) are left out. They
  load the workspace and repository, read files, print previews and run the
  async runtime; all of that is I/O.
- The clap argument definitions (cli/src/main.rs:10-38) are left out: they are
  library-driven argument parsing.
- `String::from_utf8_lossy` is not modelled. Content is taken as
  already-decoded text, and the outputs are text rather than bytes.
- Numbers.ParseUsize: it returns an `Option` and does not separate Rust's
  error kinds (empty, invalid digit, overflow); the parser reports all of them
  as the same start or end error. usize is 64 bits wide.
- Ranges.Parse: the error variants carry no message text.
- Partition.ExtractLinesFromContent: it requires every range of the file to
  be sliceable. A range that did not come from the parser, with `start - 1`
  greater than `end` but still inside the file, makes the Rust slice panic.
  `PartitionProperties.ValidRangesInBounds` shows that parsed ranges never do.
- The loops of the two extraction functions are modelled as the methods
  `CollectSlices` and `MarkExcluded`. The final filter/collect of the
  complement is the function `Unexcluded`.
- Commit creation, tree rewriting and rebasing do not exist in the command,
  which only prints previews. cli/tests/cli_tests.rs is not part of this
  model: it runs the built binary and checks its output.
