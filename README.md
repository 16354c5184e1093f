# Parity-box PDF text export, modelled in Dafny

`script/inis-pdf-to-text.py` turns a multi-column PDF into plain text.
For every page in a range, it does the following:

1. It picks a set of column boxes `x0:x1`. There is one spec for odd pages and one for even pages; a spec gives points or percentages of the page width. Without a spec, the page gets `default_cols` equal columns.
2. It crops a vertical band that leaves out the header and the footer.
3. It reads each column's glyphs and groups them into lines by their `top` coordinate.
4. It rebuilds each line from left to right. A space goes where the gap between glyphs is wide, and `<bold>…</bold>` goes around runs of glyphs whose font name looks bold.
5. It cleans up blank lines.
6. It joins the non-empty columns of a page, then the non-empty pages, with blank lines.

This project models that pipeline as Dafny functions and methods and proves what each stage promises.
The script's loops are methods proved equal to specification functions.
These are `clean_lines`, the loop of `parse_cols_spec`, `equal_columns`, `_group_chars_into_lines`, `_reconstruct_line_with_bold`, `extract_text_with_bold`, `extract_page_columns` and the page loop of `pdf_to_txt_parity_boxes`.
The properties are lemmas about those functions.

Modules, one per concern of the script:

| module | models |
|---|---|
| `Wrappers` | `Option`, `Result`, and `MapAll`, a loop over a list that stops at the first exception |
| `Strings` | the `str` methods the script uses: `strip`, `rstrip`, `lstrip`, `split`, `join`, `lower`, `in` |
| `Sorting` | `sorted(…, key=…)` as an insertion sort under a total preorder |
| `Cleanup` | `clean_lines` |
| `ColumnSpec` | `_parse_coord`, `parse_cols_spec` and `equal_columns` |
| `Glyphs` | the character dicts of `page.chars` and the two sort keys applied to them |
| `LineGrouping` | `_group_chars_into_lines` |
| `LineReconstruction` | `_looks_bold` and `_reconstruct_line_with_bold` |
| `PageColumns` | `extract_text_with_bold` and `extract_page_columns` |
| `Document` | `pdf_to_txt_parity_boxes` |

The script's exceptions become values:
- **Column specs**: `SpecError` covers a part without `:` (`MissingColon`), a number `float()` rejects (`BadNumber`), a box with `x1 <= x0` (`EmptyBox`) and overlapping boxes (`Overlap`).
- **Whole run**: `DocError` wraps `SpecError`. It adds `ZeroColumns`, the division by zero in `equal_columns(W, 0)`, and `PageOutOfRange`, the `IndexError` of `pdf.pages[idx0]`.
- **Parameters**: `float()` on a token is a parameter `num: string -> Option<real>`. pdfplumber's `page.crop(bbox).chars` is a page's `chars` function.

Two behaviours of the code that a reader of the script might not expect, both kept by the model:
- **Start page past the end.** A start page past the last page does not give an empty output. `ep = max(sp, min(end_page or total, total))` still visits page `sp`, and `pdf.pages[sp - 1]` raises `IndexError`. `Document.StartPastEnd` and `Document.DefaultsShortDocument` state this. With the default start page 6, any document shorter than 6 pages fails.
- **Spec made only of commas.** Only `None` and `""` fall back to equal columns, because `if odd_cols_spec` is a truthiness test. A spec of only commas and white space is parsed to no boxes, so that page yields no text (`ColumnSpec.ColsSpecBlank`).

## Model

| member | source | states |
|---|---|---|
| Strings.RStrip | script/inis-pdf-to-text.py:45 | `rstrip()` leaves no trailing white space and never lengthens the string |
| Strings.RStripRemovesBlank | script/inis-pdf-to-text.py:45 | what `rstrip()` removes is only white space |
| Strings.LStrip | script/inis-pdf-to-text.py:54 | `lstrip()` leaves no leading white space and never lengthens the string |
| Strings.StripIsTrimmed | script/inis-pdf-to-text.py:63 | `strip()` leaves no white space at either end |
| Strings.StripEmptyIffBlank | script/inis-pdf-to-text.py:49 | `ln.strip() == ""` holds exactly when the line is all white space |
| Strings.StripIdempotent | script/inis-pdf-to-text.py:63 | stripping twice is stripping once |
| Strings.Split | script/inis-pdf-to-text.py:78 | `split(sep)` yields at least one part and no part contains `sep` |
| Strings.JoinSplit | script/inis-pdf-to-text.py:45-54 | joining the parts of `split(sep)` with `sep` gives back the text |
| Strings.SplitJoin | script/inis-pdf-to-text.py:45-54 | splitting a join of separator-free parts gives back the parts |
| Strings.SplitAppend | script/inis-pdf-to-text.py:78 | splitting at a separator splits the two sides independently |
| Strings.IndexOf | script/inis-pdf-to-text.py:82 | the index `split(":", 1)` cuts at is the first `:` |
| Strings.Lower | script/inis-pdf-to-text.py:120 | `lower()` keeps the length and maps each character |
| Strings.LowerIdempotent | script/inis-pdf-to-text.py:120 | lower-casing twice is lower-casing once |
| Strings.ContainsAt | script/inis-pdf-to-text.py:121 | `tok in fn` holds exactly when `tok` occurs at some index of `fn` |
| Strings.NonBlanksMembers | script/inis-pdf-to-text.py:78 | the filter `if p.strip()` keeps only non-blank parts, taken from the input |
| Strings.NonBlanksAppend | script/inis-pdf-to-text.py:78 | the filter distributes over concatenation |
| Sorting.SortBy | script/inis-pdf-to-text.py:89 | `sorted(…, key=…)` keeps the length; characterised by `SortByCorrect` |
| Sorting.SortByCorrect | script/inis-pdf-to-text.py:89 | `sorted` under a total preorder key yields a sorted permutation of its input |
| Glyphs.ByTopX0TotalPreorder | script/inis-pdf-to-text.py:133 | the key `(top, x0)` is a total preorder, so the glyph sort is well defined |
| Glyphs.ByX0KeyTotalPreorder | script/inis-pdf-to-text.py:144 | the key `x0` (default `0.0`) is a total preorder |
| Wrappers.MapAll | script/inis-pdf-to-text.py:79-87 | a loop over a list that stops at the first exception; characterised by `MapAllFailure`, `MapAllSuccess` and `MapAllValues` |
| Wrappers.MapAllFailure | script/inis-pdf-to-text.py:79-87 | a loop that raises reports the first failing item, and every item before it succeeded |
| Wrappers.MapAllSuccess | script/inis-pdf-to-text.py:79-87 | the loop completes exactly when every item succeeds |
| Wrappers.MapAllValues | script/inis-pdf-to-text.py:79-87 | a completed loop yields one result per item, in order |
| Cleanup.RStripAllAt | script/inis-pdf-to-text.py:45 | line `k` of the list comprehension is `rstrip` of line `k` |
| Cleanup.Cleaned | script/inis-pdf-to-text.py:41-54 | `clean_lines` as a function; characterised by `CleanedShape`, `CleanedIsJoinOfLines`, `CleanedKeepsNonBlankLines`, `CleanedKeepsParagraphBreak`, `CleanFormFixed` and `CleanedIdempotent` |
| Cleanup.Collapse | script/inis-pdf-to-text.py:46-53 | the `last_blank` filter; characterised by `CollapseNoDoubleBlank`, `CollapseKeepsNonBlanks`, `CollapseKeepsRunHead`, `CollapseFixpoint`, `CollapseSubset` and `CollapseLast` |
| Cleanup.CleanLines | script/inis-pdf-to-text.py:41-54 | the `last_blank` loop computes `Cleaned(text)`, which the lemmas below characterise |
| Cleanup.CollapseNoDoubleBlank | script/inis-pdf-to-text.py:46-53 | the kept lines never hold two blank lines in a row |
| Cleanup.CollapseKeepsNonBlanks | script/inis-pdf-to-text.py:46-53 | the loop keeps every non-blank line, in order |
| Cleanup.CollapseFixpoint | script/inis-pdf-to-text.py:46-53 | lines without two blanks in a row pass through unchanged |
| Cleanup.CollapseSubset | script/inis-pdf-to-text.py:46-53 | every kept line is an input line |
| Cleanup.CollapseLast | script/inis-pdf-to-text.py:46-53 | the last kept line is blank exactly when the last input line is |
| Cleanup.CollapseAppend | script/inis-pdf-to-text.py:46-53 | a line list cut just before a non-blank line collapses as its two halves do |
| Cleanup.CollapseBlankRun | script/inis-pdf-to-text.py:46-53 | of a run of blank lines after a non-blank line, only the first is kept |
| Cleanup.CollapseKeepsRunHead | script/inis-pdf-to-text.py:42-53 | paragraphs are preserved: a run of blank lines between two non-blank lines leaves exactly its first blank line, and each side collapses on its own |
| Cleanup.CollapseHead | script/inis-pdf-to-text.py:46-53 | the first line is always kept |
| Cleanup.CleanedEmpty | script/inis-pdf-to-text.py:43-44 | the empty text cleans to the empty text |
| Cleanup.CleanedShape | script/inis-pdf-to-text.py:41-54 | the result has no white space at either end and no two blank lines in a row |
| Cleanup.CleanedIsJoinOfLines | script/inis-pdf-to-text.py:41-54 | the result is its output lines joined by newlines, and those lines are in clean form |
| Cleanup.CleanFormFixed | script/inis-pdf-to-text.py:41-54 | text already in clean form is returned unchanged |
| Cleanup.CleanedIdempotent | script/inis-pdf-to-text.py:41-54 | cleaning twice is cleaning once |
| Cleanup.CleanedKeepsNonBlankLines | script/inis-pdf-to-text.py:41-54 | the non-blank lines of the result are the input's non-blank lines, right-stripped, the first also left-stripped |
| Cleanup.CleanedKeepsParagraphBreak | script/inis-pdf-to-text.py:41-54 | when blank lines stand between two non-blank lines, the lines of `clean_lines`' result are those of the text before the run, one empty line, then the lines after the run, starting with the next non-blank line right-stripped |
| Cleanup.RStripJoin | script/inis-pdf-to-text.py:54 | right-stripping the joined lines drops exactly the trailing blank lines |
| Cleanup.LStripJoin | script/inis-pdf-to-text.py:54 | left-stripping the joined lines drops the leading blank lines and left-strips the first kept line |
| Cleanup.RStripBlank | script/inis-pdf-to-text.py:45-49 | a right-stripped line is blank exactly when the line was |
| Cleanup.NonBlanksRStripAll | script/inis-pdf-to-text.py:45-49 | right-stripping lines commutes with keeping the non-blank ones |
| ColumnSpec.ParseCoord | script/inis-pdf-to-text.py:57-67 | `_parse_coord`; characterised by `ParseCoordPoints`, `ParseCoordPercent` and `ParseCoordStripped` |
| ColumnSpec.ParseCoordPoints | script/inis-pdf-to-text.py:63-67 | a token without `%` is `float(token)` points |
| ColumnSpec.ParseCoordPercent | script/inis-pdf-to-text.py:63-66 | a token `p%` is `p / 100` of the width, and fails when `float(p)` fails |
| ColumnSpec.ParseCoordStripped | script/inis-pdf-to-text.py:63 | white space around a token does not change its value |
| ColumnSpec.PartsShape | script/inis-pdf-to-text.py:78 | every part is non-blank and holds no comma |
| ColumnSpec.PartsSkipBlank | script/inis-pdf-to-text.py:78 | a blank part after a comma adds no part |
| ColumnSpec.ParseBox | script/inis-pdf-to-text.py:80-87 | one part of the spec read as a box; characterised by `ParseBoxCases` and `ParseBoxShape` |
| ColumnSpec.ParseBoxCases | script/inis-pdf-to-text.py:80-87 | a part without `:` is `MissingColon`; otherwise it splits at its first `:`, an unreadable left end is `BadNumber` of it, then an unreadable right end is `BadNumber` of that, then `x1 <= x0` is `EmptyBox` with the computed coordinates; it is a box exactly when both ends parse and `x0 < x1` |
| ColumnSpec.ParseBoxShape | script/inis-pdf-to-text.py:85-87 | a parsed box has `x0 < x1`, and the per-part check never reports an overlap |
| ColumnSpec.ReadPart | script/inis-pdf-to-text.py:80-87 | the body of the loop over the parts computes `ParseBox` |
| ColumnSpec.ParseColsSpec | script/inis-pdf-to-text.py:70-96 | the parse-and-check loops compute `ColsSpec`, whose lemmas follow |
| ColumnSpec.FirstOverlap | script/inis-pdf-to-text.py:90-95 | the overlap scan; characterised by `FirstOverlapNone`, `FirstOverlapSome` and `FirstOverlapStep` |
| ColumnSpec.SortChecked | script/inis-pdf-to-text.py:89-95 | the sort and the overlap check; characterised by `SortCheckedSound`, `SortCheckedFailure` and `SortCheckedTwo` |
| ColumnSpec.ColsSpec | script/inis-pdf-to-text.py:70-96 | `parse_cols_spec` as a function; characterised by `ColsSpecSound`, `ColsSpecErrors` and `ColsSpecBlank` |
| ColumnSpec.FirstOverlapNone | script/inis-pdf-to-text.py:90-95 | the overlap scan finds nothing exactly when each box starts at or after the end of the one before |
| ColumnSpec.FirstOverlapSome | script/inis-pdf-to-text.py:90-95 | a reported overlap is an adjacent pair whose second box starts before the first ends, and no adjacent pair before it overlaps |
| ColumnSpec.FirstOverlapStep | script/inis-pdf-to-text.py:90-95 | one iteration of the scan either reports pair `i-1, i` or extends the clean prefix |
| ColumnSpec.SortCheckedSound | script/inis-pdf-to-text.py:89-96 | an accepted box list is a permutation of the parsed boxes, sorted by `x0` and non-overlapping |
| ColumnSpec.SortCheckedFailure | script/inis-pdf-to-text.py:89-95 | the check fails exactly when the sorted boxes overlap, naming the first adjacent overlapping pair in sorted order |
| ColumnSpec.ColsSpecSound | script/inis-pdf-to-text.py:70-96 | a successful spec yields a sorted, non-overlapping permutation of the boxes its parts describe |
| ColumnSpec.ColsSpecByParts | script/inis-pdf-to-text.py:75-78 | the early return for an empty spec gives the same result as parsing its (empty) list of parts |
| ColumnSpec.ColsSpecErrors | script/inis-pdf-to-text.py:75-96 | a failing part makes the spec fail with that first part's error; otherwise the spec fails exactly on an overlap of the sorted boxes, naming the first overlapping adjacent pair |
| ColumnSpec.ColsSpecBlank | script/inis-pdf-to-text.py:76-78 | a spec of only commas and white space yields no boxes |
| ColumnSpec.SortCheckedTwo | script/inis-pdf-to-text.py:89-95 | two boxes: apart in order pass; overlapping in either order fail, naming the pair in sorted order |
| ColumnSpec.ReadBox | script/inis-pdf-to-text.py:82-87 | a part `a:b` whose ends read `va < vb` is the box `(va, vb)` |
| ColumnSpec.ReadPointBox | script/inis-pdf-to-text.py:63-87 | a part of two plain numbers is the box between them in points |
| ColumnSpec.TwoBoxes | script/inis-pdf-to-text.py:78-89 | a spec of two non-blank parts is the check applied to their two boxes |
| ColumnSpec.PercentExample | script/inis-pdf-to-text.py:57-96 | `"0%:50%,50%:100%"` on a 200-point page is `[(0, 100), (100, 200)]` |
| ColumnSpec.PointsExample | script/inis-pdf-to-text.py:57-96 | `"0:100,100:200"` on a 200-point page is `[(0, 100), (100, 200)]` |
| ColumnSpec.OverlapExample | script/inis-pdf-to-text.py:88-95 | `"0:100,50:150"` fails with the overlap of `(0, 100)` and `(50, 150)` |
| ColumnSpec.UnorderedOverlapExample | script/inis-pdf-to-text.py:88-95 | `"50:150,0:100"` is sorted first, so the error names `(0, 100)` then `(50, 150)` |
| ColumnSpec.EqualCols | script/inis-pdf-to-text.py:99-105 | `equal_columns(W, n)` has `n` boxes, and none for `n < 0` |
| ColumnSpec.EqualColumns | script/inis-pdf-to-text.py:99-105 | the append loop computes `EqualCols(width, n)` |
| ColumnSpec.EqualColsTile | script/inis-pdf-to-text.py:102-104 | the columns start at 0, end at `W`, touch each other and are each `W / n` wide |
| ColumnSpec.EqualColsStartsOrdered | script/inis-pdf-to-text.py:102-104 | on a page of positive width, the column starts increase |
| ColumnSpec.EqualColsValid | script/inis-pdf-to-text.py:99-105 | on a page of positive width, equal columns are sorted and non-overlapping, like an accepted spec |
| LineGrouping.GroupLines | script/inis-pdf-to-text.py:124-156 | `_group_chars_into_lines` as a function; characterised by `GroupLinesCorrect`, `GroupLinesUnique` and `GroupLinesEmpty` |
| LineGrouping.GroupCharsIntoLines | script/inis-pdf-to-text.py:124-156 | the anchor loop computes `GroupLines`, which the lemmas below characterise |
| LineGrouping.SortEach | script/inis-pdf-to-text.py:144-154 | re-sorting each line keeps the number of lines |
| LineGrouping.SortEachAt | script/inis-pdf-to-text.py:144-154 | line `i` of the result is line `i` sorted by `x0` |
| LineGrouping.SingleLine | script/inis-pdf-to-text.py:149-151 | the first glyph opens a line of its own |
| LineGrouping.GroupingNewLine | script/inis-pdf-to-text.py:142-146 | a glyph more than `tol` from the anchor starts a new line, and the grouping stays valid |
| LineGrouping.GroupingExtend | script/inis-pdf-to-text.py:147-148 | a glyph within `tol` of the anchor joins the current line, and the grouping stays valid |
| LineGrouping.StepOk | script/inis-pdf-to-text.py:138-151 | each iteration keeps the loop's lines and current line a valid grouping of the glyphs seen |
| LineGrouping.RunScanGrouping | script/inis-pdf-to-text.py:138-151 | after the loop, the state is a valid grouping of all glyphs |
| LineGrouping.RawLinesGrouping | script/inis-pdf-to-text.py:138-154 | the lines, before their re-sort, cut the sorted glyphs into consecutive lines: each glyph within `tol` of its line's anchor, each anchor more than `tol` from the one before |
| LineGrouping.FirstLineExtent | script/inis-pdf-to-text.py:140-148 | the first line is the longest prefix within `tol` of the first glyph |
| LineGrouping.CutStartsNext | script/inis-pdf-to-text.py:142-146 | the glyph after a line starts the next line and is more than `tol` from the line's anchor |
| LineGrouping.GroupingRest | script/inis-pdf-to-text.py:138-154 | removing the first line leaves a valid grouping of the remaining glyphs |
| LineGrouping.GroupingUnique | script/inis-pdf-to-text.py:138-154 | a sequence of glyphs has only one valid grouping |
| LineGrouping.GroupLinesEmpty | script/inis-pdf-to-text.py:129-130 | no glyphs give no lines |
| LineGrouping.SortEachMultiset | script/inis-pdf-to-text.py:144-154 | re-sorting the lines neither loses nor adds a glyph |
| LineGrouping.GroupLinesCorrect | script/inis-pdf-to-text.py:124-156 | the result has one non-empty, `x0`-sorted line per line of the valid grouping of the `(top, x0)`-sorted glyphs, and is a permutation of the input glyphs |
| LineGrouping.GroupLinesUnique | script/inis-pdf-to-text.py:124-156 | any valid grouping of the sorted glyphs, each line re-sorted, is the result |
| LineReconstruction.AnyInExists | script/inis-pdf-to-text.py:121 | `any(tok in fn for tok in toks)` holds exactly when some token occurs in `fn` |
| LineReconstruction.LooksBold | script/inis-pdf-to-text.py:114-121 | `_looks_bold`; characterised by `LooksBoldIff` and `LooksBoldLower` |
| LineReconstruction.LooksBoldIff | script/inis-pdf-to-text.py:114-121 | a font looks bold exactly when it is non-empty and its lower-case form contains one of the seven bold tokens |
| LineReconstruction.LooksBoldLower | script/inis-pdf-to-text.py:120 | the test ignores letter case |
| LineReconstruction.ArialBoldIsBold | script/inis-pdf-to-text.py:110-121 | `"Arial-Bold"` looks bold |
| LineReconstruction.ArialIsNotBold | script/inis-pdf-to-text.py:110-121 | `"Arial"` does not look bold |
| LineReconstruction.Emit | script/inis-pdf-to-text.py:172-202 | one iteration of the line loop as a function; characterised by `EmitOk`, `RunKept` and `RunOkAll` |
| LineReconstruction.ReconstructLine | script/inis-pdf-to-text.py:159-208 | `_reconstruct_line_with_bold` as a function; characterised by `PiecesRead`, `SkipEmpty` and `ReconstructEmpty` |
| LineReconstruction.EmitGlyph | script/inis-pdf-to-text.py:177-202 | one iteration for a glyph with text appends the space, the marker and the text, and updates `in_bold`, `prev_x1` and `prev_w` as `Emit` does |
| LineReconstruction.ReconstructLineWithBold | script/inis-pdf-to-text.py:159-208 | the loop and the closing tag compute `ReconstructLine`, which the lemmas below characterise |
| LineReconstruction.Kept | script/inis-pdf-to-text.py:173-175 | the glyphs the loop does not skip all have text and come from the line |
| LineReconstruction.KeptAppend | script/inis-pdf-to-text.py:173-175 | skipping distributes over concatenation |
| LineReconstruction.RunKept | script/inis-pdf-to-text.py:173-175 | glyphs with empty text leave the loop state unchanged, so only kept glyphs matter |
| LineReconstruction.SkipEmpty | script/inis-pdf-to-text.py:173-175 | inserting a glyph with empty text anywhere does not change the output |
| LineReconstruction.WordsAt | script/inis-pdf-to-text.py:183-199 | kept glyph `i` should read as its text, bold exactly when its font looks bold, and spaced exactly when the gap from the previous kept glyph exceeds `gap_ratio` times the reference width |
| LineReconstruction.ReadSpace | script/inis-pdf-to-text.py:184-187 | after a text, with no space yet pending, the reader accepts the optional single space and records it as pending before the next text |
| LineReconstruction.ReadMarker | script/inis-pdf-to-text.py:192-197 | a marker appears only on a change of bold state and flips the state to the glyph's |
| LineReconstruction.EmitOk | script/inis-pdf-to-text.py:172-202 | each iteration keeps the buffer well formed and its reading equal to the intended words so far |
| LineReconstruction.RunOkAll | script/inis-pdf-to-text.py:172-202 | after the loop, the buffer reads as the intended words of all kept glyphs |
| LineReconstruction.PiecesRead | script/inis-pdf-to-text.py:159-208 | the output is well formed: markers alternate `<bold>`, `</bold>` without nesting and the line ends outside bold; spaces are single; and each kept glyph's text appears in order with exactly the intended boldness and space |
| LineReconstruction.ReconstructEmpty | script/inis-pdf-to-text.py:164-165 | an empty line gives the empty string |
| LineReconstruction.RenderExample | script/inis-pdf-to-text.py:208 | `"".join` of the pieces `<bold>`, `A`, `</bold>`, `B`, `<bold>`, `C`, `</bold>` is `<bold>A</bold>B<bold>C</bold>` |
| LineReconstruction.BoldRunsExample | script/inis-pdf-to-text.py:159-208 | adjacent glyphs `A`, `B`, `C` in fonts `Arial-Bold`, `Arial`, `Arial-Bold` give `<bold>A</bold>B<bold>C</bold>` |
| PageColumns.TextWithBold | script/inis-pdf-to-text.py:211-230 | `extract_text_with_bold` as a function; characterised by `TextWithBoldClean` |
| PageColumns.LineStrings | script/inis-pdf-to-text.py:225-227 | one reconstructed string per line |
| PageColumns.ExtractTextWithBold | script/inis-pdf-to-text.py:211-230 | the line loop computes `TextWithBold`: the cleaned join of the reconstructed lines |
| PageColumns.TextWithBoldClean | script/inis-pdf-to-text.py:260-266 | a column's text is already clean, so the second `clean_lines` changes nothing |
| PageColumns.CropBand | script/inis-pdf-to-text.py:246-250 | the vertical band between header and footer; characterised by `BandNonEmpty` and `BandInPage` |
| PageColumns.BandOf | script/inis-pdf-to-text.py:248-250 | the fallback to the whole height when the band is empty; characterised by `BandNonEmpty` and `BandInPage` |
| PageColumns.BandNonEmpty | script/inis-pdf-to-text.py:246-250 | the vertical band is never empty on a page of positive height |
| PageColumns.BandInPage | script/inis-pdf-to-text.py:246-250 | with non-negative ratios, the band lies inside the page |
| PageColumns.Clamp | script/inis-pdf-to-text.py:255-256 | clamping a box edge to the page; characterised by `ClampBounds` |
| PageColumns.ClampBounds | script/inis-pdf-to-text.py:255-256 | a clamped `x` lies in `[0, W]`, an `x` already there is kept, and clamping twice is clamping once |
| PageColumns.LineTol | script/inis-pdf-to-text.py:263 | `max(1.0, y_tolerance)` is at least both, and is one of them |
| PageColumns.NonEmpty | script/inis-pdf-to-text.py:267 | the filter `if t` keeps only non-empty texts |
| PageColumns.ExtractPageColumns | script/inis-pdf-to-text.py:235-267 | the column loop computes `PageText` |
| PageColumns.ColumnText | script/inis-pdf-to-text.py:255-266 | one iteration of the column loop; characterised by `ColumnTextNonEmpty` and `EmptyBoxSkipped` |
| PageColumns.ColumnTextNonEmpty | script/inis-pdf-to-text.py:257-266 | a column contributes only a non-empty text |
| PageColumns.ColumnTextsSpec | script/inis-pdf-to-text.py:252-266 | the collected column texts are all non-empty, and there are at most as many as boxes |
| PageColumns.EmptyBoxSkipped | script/inis-pdf-to-text.py:257-258 | a box that is empty after clamping adds nothing |
| PageColumns.NonEmptyOfNonEmpty | script/inis-pdf-to-text.py:267 | the final filter does nothing to texts that are all non-empty |
| PageColumns.NonEmptyAllEmpty | script/inis-pdf-to-text.py:267 | the filter leaves nothing exactly when every text is empty |
| PageColumns.JoinEmptyIff | script/inis-pdf-to-text.py:267 | joining non-empty texts with a non-empty separator is empty exactly when there are no texts |
| PageColumns.PageText | script/inis-pdf-to-text.py:235-267 | `extract_page_columns` as a function; characterised by `PageTextSpec` and `ColumnTextsSpec` |
| PageColumns.PageTextSpec | script/inis-pdf-to-text.py:246-267 | the page text is its column texts joined by a blank line, and it is empty exactly when no column gave text |
| Document.Range | script/inis-pdf-to-text.py:294-297 | the range starts at page 1 or later and is never empty; it ends within the document when it starts there; it is `start..total` by default and `start..end` for an end within the document; it is a single page when the end is at or before the start |
| Document.Indices | script/inis-pdf-to-text.py:300 | `range(sp - 1, ep)` visits the 0-based indices `sp - 1` to `ep - 1` in increasing order |
| Document.TenPageRange | script/inis-pdf-to-text.py:294-300 | with the defaults, a 10-page document is read from page 6 to page 10, in that order |
| Document.SpecBoxes | script/inis-pdf-to-text.py:306-309 | a parity spec's boxes are the boxes its parts describe, reordered, non-empty, left to right and non-overlapping; a spec that fails fails with its `ValueError`, never with a page or zero-column error |
| Document.SelectBoxes | script/inis-pdf-to-text.py:305-311 | the box choice computes `ChooseBoxes` |
| Document.ChooseBoxes | script/inis-pdf-to-text.py:305-311 | the box choice for a page; characterised by `ChooseBoxesParity`, `ChooseBoxesDefault` and `ChooseBoxesValid` |
| Document.ChooseBoxesParity | script/inis-pdf-to-text.py:305-311 | an odd page ignores the even spec and an even page ignores the odd spec |
| Document.ChooseBoxesDefault | script/inis-pdf-to-text.py:310-311 | without a usable spec for its parity, a page gets `default_cols` equal columns, and fails exactly when `default_cols` is 0 |
| Document.ChooseBoxesValid | script/inis-pdf-to-text.py:305-311 | on a page of positive width, the chosen boxes are sorted and non-overlapping |
| Document.PageResult | script/inis-pdf-to-text.py:301-320 | one page's text or error; characterised by `PageResultErrors` |
| Document.PageResultErrors | script/inis-pdf-to-text.py:301-311 | a page fails with `IndexError` exactly when its index is past the document; a page inside fails only on a spec error or zero columns |
| Document.PageStep | script/inis-pdf-to-text.py:301-320 | one iteration computes the page's text or its error |
| Document.LoopRound | script/inis-pdf-to-text.py:299-322 | a failing page ends the run with its error; a succeeding page extends the texts gathered so far |
| Document.LoopFirstFails | script/inis-pdf-to-text.py:299-321 | a failure on the first page is the run's result |
| Document.LoopFailure | script/inis-pdf-to-text.py:299-321 | a failing run fails with the error of its first failing page, and every page before it succeeded |
| Document.LoopSuccess | script/inis-pdf-to-text.py:299-321 | the run succeeds exactly when every page in the range succeeds |
| Document.LoopValues | script/inis-pdf-to-text.py:299-321 | a successful run holds one text per page of the range, in page order |
| Document.LoopOutputSpec | script/inis-pdf-to-text.py:299-324 | the output is the non-empty page texts joined by a blank line, and it is empty exactly when every page text is empty |
| Document.NonEmptySnoc | script/inis-pdf-to-text.py:321-322 | `if page_text: all_text.append(page_text)` keeps exactly the non-empty texts |
| Document.ParityBoxes | script/inis-pdf-to-text.py:270-324 | the page loop computes `DocumentText`, which the lemmas below characterise |
| Document.StartPastEnd | script/inis-pdf-to-text.py:295-301 | a start page past the last page makes the run fail with `IndexError` on that page |
| Document.DefaultsShortDocument | script/inis-pdf-to-text.py:295-301 | with the defaults, a document of fewer than 6 pages fails on page 6 |
| Document.StartWithinDocument | script/inis-pdf-to-text.py:295-301 | a start page inside the document never fails with `IndexError` |
| Document.DocumentText | script/inis-pdf-to-text.py:270-324 | `pdf_to_txt_parity_boxes` as a function; characterised by `DocumentTextSpec`, `StartPastEnd` and `StartWithinDocument` |
| Document.DocumentTextSpec | script/inis-pdf-to-text.py:270-324 | the run succeeds exactly when every page of the range succeeds, and then is the non-empty page texts joined by a blank line |

## Left out

- Opening the PDF and `FileNotFoundError` (lines 290-291) are not modelled, nor is writing the output file (line 324). The model's result is the string that would be written. An error result means nothing is written.
- `main` and its `argparse` surface (lines 327-378) are not modelled. Neither are the exit codes nor the printed messages.
- pdfplumber is not modelled. `page.crop(bbox).chars` is the page's `chars` function, and which glyphs fall inside a crop box is not modelled.
- `float()` is the parameter `num`. Its syntax, NaN and infinities are not modelled, so `BadNumber` stands for every `ValueError` it raises.
- Floating-point arithmetic is modelled with exact reals. Rounding in `val * width`, `width / n` and the gap test is not captured.
- Glyphs.ByTopX0: the glyph sort compares `top` itself rather than `round(top, 3)`. Glyphs whose `top` differ below the third decimal are ordered by `top` first instead of by `x0`.
- Strings.Split: `splitlines()` in `clean_lines` is modelled as a split at `'\n'` only. Python also breaks lines at `\r`, `\r\n`, `\v`, `\f`, `\x1c`-`\x1e`, `\x85`, `\u2028` and `\u2029`. The extra empty last line that a split at `'\n'` yields is blank, so the closing `strip()` removes it and the result is the same.
- Strings.Lower: `lower()` maps only ASCII `A`-`Z`. The bold tokens are ASCII, but a non-ASCII upper-case letter that lower-cases into one of them is missed.
- Strings.IsWs: white space is the set of characters Python's `str.isspace` accepts. It is written out as code-point ranges, not taken from the Unicode database.
- Sorting.SortByCorrect: the proof shows that the sort yields a sorted permutation. It does not show stability, although the insertion sort keeps equal keys in input order as Python's `sorted` does.
- Error messages are not modelled: an error carries its kind and data (the part, the token, the pair of boxes, the page number), not the message text.
- The `x_tolerance` argument is not modelled because the script never reads it.
- `gap_ratio` is always the default `0.5` at the one call site (line 227), and `PageColumns.DefaultGapRatio` is that constant.
- A missing `top` key defaults to `0.0` (line 139), so a glyph's `top` is a plain number. A missing `x0` or `x1` and one set to `None` are both `None`. The sort keys then read such an `x0` as `0.0`, where the script's `c.get("x0", 0.0)` keeps an explicit `None` and `sorted` raises `TypeError` when it compares it with a number; pdfplumber always sets `x0`.
- Python's negative indices cannot occur: `idx0` is never negative because the start page is clamped to at least 1.
