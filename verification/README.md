# Solutions table updater

This is a Dafny model of `SolutionUpdater` in `updater.py`. The class keeps a Markdown table of programming-problem solutions. Each row holds an index, a title linked to the problem page, a Solutions cell listing one `[language](path)` link per solution, and a difficulty.

`update_or_add_solutions` works on the lines of that table. It finds the header line, or appends the two fixed header lines. Then, for each record, it rewrites the first data row that carries the record's index, or inserts a new row directly under the header rule.

The model has three modules:

- `PyText` (`text.dfy`) covers the parts of Python's `str` and `int` the updater relies on:
  - `strip` with Python's whitespace set (`rstrip` is a helper of it, not called by the updater);
  - `startswith`, substring `in`;
  - `split` and `join` on `|`;
  - ASCII `lower`, one-character `replace`;
  - `int(...)` on a decimal literal, and `str(...)` of an integer.
- `SolutionUpdater` (`updater.dfy`) holds:
  - the three fixed tables;
  - `create_leetcode_link` and `format_solution_filename`;
  - `extract_title_from_markdown`. The regular expression `\s*\[(.*?)\]\(.*?\)\s*` becomes a hand-written scanner that is proved to return the group of the shortest match.
- `TableMerge` (`merge.dfy`) covers `update_or_add_solutions` on the lines held in memory:
  - The methods `LocateHeader`, `FindRow`, `RewriteRow`/`RewriteCells`, `MergeRecord` and `UpdateOrAddSolutions` follow the loops of the source step by step.
  - Each method is proved equal to a specification function (`EnsureHeader`, `FirstMatch` over `RowIndices`, `RebuildRow`, `ApplyRecord`, `Update`).
  - The lemmas about those functions state what the update promises: which lines change, what a rewritten or inserted row reads back as, that the Solutions merge is idempotent, and that after the update every record has a row in the lines from `header_index + 2` on when the table reaches that position, while those lines stay free of repeated indices when they were.

A row too short to rewrite makes Python raise `IndexError` before anything is written. In the model that case is the result `Failure(RowTooShort(j))`.

`updater.py` does not sort rows and does not derive a slug from the title; an absent slug is `""`. In file names it only lower-cases the title and replaces its spaces by `_`; no other character is removed and there is no placeholder name. New rows go directly under the rule line, and the model does the same.

## Model

| member | source | states |
|---|---|---|
| SolutionUpdater.TablesWellFormed | updater.py:8-40 | No difficulty label, language label or extension contains `\|`, and the languages with a label are exactly the languages with an extension. |
| SolutionUpdater.DifficultyDisplay | updater.py:126-130 | Transcribes `difficulty_emojis.get(d.lower(), d)`; `DisplayNoPipe` states its property. |
| SolutionUpdater.LanguageDisplay | updater.py:98 | Transcribes `language_icons.get(lang.lower(), lang)`; `DisplayNoPipe` states its property. |
| SolutionUpdater.Extension | updater.py:46 | Transcribes `file_extensions.get(lang.lower(), "")`; `DisplayNoPipe` and `FilenameLayout` state its properties. |
| SolutionUpdater.DisplayNoPipe | updater.py:8-40 | A difficulty or language without `\|` keeps `\|` out of its display label (table lookup by lower-cased key, raw text as fallback) and out of its extension. |
| SolutionUpdater.CreateLeetcodeLink | updater.py:52-57 | Transcribes the f-string; `LinkLayout` and `LinkInjective` state its properties. |
| SolutionUpdater.LinkLayout | updater.py:52-57 | The link starts with `https://leetcode.com/problems/`, ends with `/`, and holds exactly the slug between the two. |
| SolutionUpdater.LinkInjective | updater.py:52-57 | Different slugs give different links. |
| SolutionUpdater.SanitizeTitle | updater.py:47 | The sanitized title has the title's length and no space; each character is the lower-cased original, or `_` where the original was a space. |
| SolutionUpdater.PathJoin | updater.py:50 | Transcribes POSIX `os.path.join` of two parts; `FilenameLayout` states what it gives here. |
| SolutionUpdater.FormatSolutionFilename | updater.py:42-50 | Transcribes the method; `FilenameLayout` and `PathNoPipe` state its properties. |
| SolutionUpdater.FilenameLayout | updater.py:42-50 | The path is `Algorithms/<lower(language)>/<sanitized title>_<str(index)>.<ext>`. A title starting with `/` makes the file name absolute, and `os.path.join` then drops the directory. An unknown language gives an empty extension, so the path ends in `.`. |
| SolutionUpdater.PathNoPipe | updater.py:42-50 | A title and a language without `\|` give a path without `\|`. |
| SolutionUpdater.FindClose | updater.py:63 | The scan for the `)` of `.*?\)` succeeds exactly when a `)` follows with no newline before it. |
| SolutionUpdater.FindGroupEnd | updater.py:63 | The scan returns the shortest length at which the lazy group `(.*?)` can be closed by `](` and a `)`, or reports that no length can. |
| SolutionUpdater.TitleGroup | updater.py:63 | The group starts right after the `[` that follows the leading whitespace, and is the shortest one that can end. With no group, the pattern matches at no length. |
| SolutionUpdater.ExtractTitleFromMarkdown | updater.py:59-64 | The group found by `TitleGroup`, or `Unknown Title`; `ExtractTitleMatches`, `ExtractTitleRoundTrip`, `ExtractedTitleClean` and `ExtractNoChar` state its properties. |
| SolutionUpdater.ExtractTitleMatches | updater.py:59-64 | The result is the text of the shortest match's group when the pattern matches, and `Unknown Title` when it does not. |
| SolutionUpdater.ShortestMatch | updater.py:63 | The shortest group end found by the scanner is a match, and it is the shortest match. |
| SolutionUpdater.ExtractTitleRoundTrip | updater.py:59-64 | Reading `[title](url)` back gives `title` when the title has no newline and no `](` and the url has no newline. |
| SolutionUpdater.ExtractedTitleClean | updater.py:59-64 | An extracted title never contains a newline or `](`. |
| SolutionUpdater.ExtractNoChar | updater.py:59-64 | The extracted title contains no character that is absent from both the input and `Unknown Title`. |
| PyText.IntToStringParses | updater.py:164 | `ParseInt(IntToString(n)) == Some(n)` for every integer: in the model, the index written into a new row parses back as that index (CPython's digit limit aside, see "## Left out"). |
| PyText.NatToStringValue | updater.py:164 | The digits of `str(n)` have the value `n`. |
| PyText.SplitJoin | updater.py:149 | Splitting the `\|`-join of cells that contain no `\|` gives the cells back. |
| PyText.ParseInt | updater.py:105 | `int()` of a trimmed cell: optional sign, then ASCII digits with single underscores between them; `None` for the ValueError it raises on malformed text (the digit-limit ValueError is not modelled, see "## Left out"). `IntToStringParses` and `ParseIntStripped` state its properties. |
| PyText.ParseIntStripped | updater.py:105 | `ParseInt(Strip(x)) == ParseInt(x)`: in the model, the `strip()` before the parse at updater.py:105 loses nothing. |
| TableMerge.IsHeader | updater.py:81 | Transcribes `line.strip().startswith("\|#")`; `HeaderSearch` and `EnsureHeaderFinds` use it. |
| TableMerge.EnsureHeader | updater.py:78-89 | The lines with a header and the header index; `EnsureHeaderFinds` states its properties. |
| TableMerge.HeaderSearch | updater.py:79-83 | The search returns the first header line (stripped, starting with `\|#`) at or after the start, or reports that there is none. |
| TableMerge.EnsureHeaderFinds | updater.py:78-89 | With a header line among the lines, nothing is added and the first header line is chosen. Without one, exactly the two fixed header lines are appended, earlier lines stay, and the header index is the old length. Either way the chosen line is a header. |
| TableMerge.LocateHeader | updater.py:78-89 | The header loop with its early `break`, and the appends, compute `EnsureHeader`. |
| TableMerge.RowIndex | updater.py:103-107 | The index a line holds, or `None` when it does not start with `\|` or its first cell raises ValueError; `RewriteKeepsIndex`, `NewRowReadBack` and `FirstMatch` use it. |
| TableMerge.RowIndices | updater.py:102-107 | The index column: one entry per line; `RowIndicesAt` states what each entry is. |
| TableMerge.RowIndicesAt | updater.py:102-107 | Entry `k` of the index column is the `RowIndex` of line `k`: the index that line holds, or none when the loop skips it. |
| TableMerge.FirstMatch | updater.py:102-110 | The match is the first position at or after the scan start whose index cell holds the record's index. Earlier positions, including those whose cell does not parse, do not hold it. No match means no position holds it. |
| TableMerge.FindRow | updater.py:101-110 | The row loop, with `continue` on a cell that is not an integer and `break` on a match, returns `FirstMatch` over the index cells. |
| TableMerge.Cells | updater.py:111 | Transcribes `line.strip().split("\|")`; `RewriteReadBack` and `NewRowReadBack` state what rows read back as. |
| TableMerge.CellTitle | updater.py:114-115 | The title read from the Title cell through `extract_title_from_markdown`. |
| TableMerge.CellSolutions | updater.py:116 | The stripped Solutions cell. |
| TableMerge.CellDifficulty | updater.py:117 | The stripped Difficulty cell. |
| TableMerge.ResolveTitle | updater.py:119-123 | The record's title when given and not blank, the row's otherwise; `RewriteReadBack` states its effect on the row. |
| TableMerge.ResolveDifficulty | updater.py:125-132 | The label of the record's difficulty when given and not blank, the row's text otherwise; `RewriteReadBack` states its effect on the row. |
| TableMerge.SolutionEntry | updater.py:135-138 | The `[language](path)` link of the record's solution. |
| TableMerge.MergeSolutions | updater.py:137-142 | The Solutions cell with the link added after `, ` unless already there; `MergeSolutionsAdds` states its properties. |
| TableMerge.SetCells | updater.py:139-146 | The three cell assignments, each value padded by one space; `RewriteReadBack` states what they read back as. |
| TableMerge.RebuildCells | updater.py:113-146 | The cells of a matched row with the record merged in; `RewriteCells` computes it. |
| TableMerge.RebuildRow | updater.py:111-149 | The rewritten line, or `None` when `parts[4]` would raise IndexError; `RewriteReadBack`, `RewriteKeepsIndex` and `RebuildFixpoint` state its properties. |
| TableMerge.NewTitle | updater.py:154 | The record's title, `Unknown Title` when absent. |
| TableMerge.NewDifficulty | updater.py:155-158 | The label of the record's difficulty, `Unknown` when absent. |
| TableMerge.NewRow | updater.py:164 | Transcribes the row f-string; `NewRowReadBack` and `NewRowFixpoint` state its properties. |
| TableMerge.ApplyRecord | updater.py:101-165 | One record: the matched row rebuilt, failure on a short row, or the new row inserted; `ApplyRecordFrame`, `ApplyRecordIds` and `ApplyRecordIdempotent` state its properties. |
| TableMerge.ApplyRecords | updater.py:92-165 | The records applied in order, the first failure ending the batch; `ApplyRecordsFrame`, `ApplyRecordsFound` and `ApplyRecordsUnique` state its properties. |
| TableMerge.Update | updater.py:78-165 | The header ensured, then the records applied; `UpdateTable` states its properties. |
| TableMerge.RewriteCells | updater.py:111-146 | The in-place cell assignments compute `RebuildCells`. |
| TableMerge.RewriteRow | updater.py:111-149 | The rewrite computes `RebuildRow`: no row when there are fewer than five cells, otherwise the cells joined with `\|` plus a newline. |
| TableMerge.MergeRecord | updater.py:97-165 | One iteration of the records loop computes `ApplyRecord`: the matched row rewritten in place, failure on a short row, or the new row inserted under the rule. |
| TableMerge.UpdateOrAddSolutions | updater.py:66-165 | The whole loop computes `Update`: header located once, then the records in order, stopping at the first failure. |
| TableMerge.FailureStays | updater.py:111-117 | Once a record fails, the batch fails with that error whatever records follow. |
| TableMerge.ApplyRecordFailure | updater.py:102-117 | A record fails exactly when its matched row has fewer than five cells. |
| TableMerge.MergeSolutionsAdds | updater.py:137-142 | After the merge the Solutions cell contains the link and starts with the old cell. When the old cell already contained the link, the cell is unchanged. |
| TableMerge.RewriteKeepsIndex | updater.py:149 | A rewritten row carries the same index as the row it replaces. |
| TableMerge.RewriteReadBack | updater.py:113-149 | The rewritten row, split again, has the same cells outside Title, Solutions and Difficulty. Its title is the record's non-blank title or the old one. Its Title cell is exactly ` [title](create_leetcode_link(slug)) `, so the problem URL the row held is replaced by the record's, which is the base URL followed by `//` when the record has no slug (`NoSlugLink`). Its Solutions cell starts with the old cell and contains the record's link. Its difficulty is the record's label or the old text. |
| TableMerge.NoSlugLink | updater.py:96-98 | A record without a slug gets the link `https://leetcode.com/problems//`; with the Title-cell clause of `RewriteReadBack`, a matched row's existing problem URL is overwritten with it. |
| TableMerge.NewRowReadBack | updater.py:152-164 | A new row has six cells and carries the record's index. Its Title cell is ` [title](create_leetcode_link(slug)) `. It reads back with the title it was written with (`Unknown Title` when none), the record's link as its only solution, and the difficulty label (`Unknown` when none). |
| TableMerge.InsertAt | updater.py:165 | `list.insert` adds exactly one line at the insert position, clamped to the end. The lines before it stay, and the lines from it on follow the new line in order, moved down by one. |
| TableMerge.ApplyRecordFrame | updater.py:102-165 | A record keeps every line up to and including the rule. With a match, the length is unchanged, the matched line becomes its rebuilt row, and every other line stays. Without one, the new row sits at `header_index + 2` (clamped to the end), the lines before it stay, and the lines after it are the old ones moved down by one. |
| TableMerge.HeaderAtEnd | updater.py:165 | When the table ends before `header_index + 2`, the new row is appended at the end. |
| TableMerge.ApplyRecordIds | updater.py:101-165 | A record leaves the index column as it was when its index is found. Otherwise it adds the index at the scan start. |
| TableMerge.StepFound | updater.py:101-165 | After a record, a scan from the row start finds its index, when the column reaches the row start. |
| TableMerge.StepKeeps | updater.py:101-165 | An index found before a record is still found after it. |
| TableMerge.StepUnique | updater.py:101-165 | A record never creates a repeated index among the lines from `header_index + 2` on. |
| TableMerge.UniqueMeans | updater.py:102-108 | The repeat-freedom used for the index column means that no two of the lines from `header_index + 2` on hold the same index. |
| TableMerge.ApplyRecordIdempotent | updater.py:137-165 | Applying a `Stable` record a second time leaves the table as the first application left it, when the table has a line at the rule position. |
| TableMerge.NewRowFixpoint | updater.py:111-164 | Rewriting a freshly inserted row with the same `Stable` record gives the same row. |
| TableMerge.RebuildFixpoint | updater.py:111-149 | Rewriting a rewritten row with the same `Stable` record gives the same row. |
| TableMerge.HeaderAtEndAppends | updater.py:165 | When the header is the last line and there is no rule below it, the new row is appended after the header. |
| TableMerge.HeaderAtEndDuplicates | updater.py:102-165 | In that layout, the row sits where the scan does not look, so the same record adds a second copy of the row. |
| TableMerge.ApplyRecordsFrame | updater.py:92-165 | The records keep every line up to and including the rule, and never shorten the table. |
| TableMerge.ApplyRecordsIds | updater.py:92-165 | The index column after the records is the column before, stepped once per record. |
| TableMerge.ApplyRecordsFound | updater.py:92-165 | After all records, every record's index has a row in the scanned part of the table, when the table has a line at the rule position. |
| TableMerge.ApplyRecordsUnique | updater.py:92-165 | When the lines from `header_index + 2` on are free of repeated indices, they stay free of them. |
| TableMerge.UpdateTable | updater.py:66-165 | A successful update keeps every line down to the rule and has a header line at the header index. It holds a row for every record when the table has a line at the rule position, and keeps the lines from `header_index + 2` on free of repeated indices when they were. Lines above that position are not looked at, so a header that is the last line lets the same record be added twice (`TableMerge.HeaderAtEndDuplicates`). |

## Left out

- Reading the file (updater.py:72-76), writing it back (updater.py:167-169) and the message printed at the end (updater.py:171) are not modelled. The update maps the list of input lines to the list of output lines. A missing file is the empty list.
- The console prompt for a missing index (updater.py:93-95) is not modelled: every record carries an integer `index`. Records also always carry a `language`; without one the source raises `KeyError` (updater.py:98). `title`, `slug` and `difficulty` are optional strings; JSON values of other types are not modelled.
- `str.lower()` is modelled on ASCII letters only. Other Unicode case mappings are not modelled.
- `int()` is modelled on text `strip()` has already trimmed, as at its one call (updater.py:105): an optional sign, and ASCII digits with single underscores between digits. Non-ASCII digits are not accepted.
- `PyText.ParseInt`: CPython 3.11 and later limit `int()` of text to 4300 digits by default and raise ValueError above that, so an index cell that long is skipped at updater.py:105. The model has no digit limit and parses such a cell.
- `PyText.IntToString`: CPython's digit limit also makes `str()` and f-string formatting of an index over 4300 digits raise ValueError (updater.py:49 and 164). The model has no limit and writes the row.
- `re.match` is replaced by a scanner for this one pattern. Its equivalence to the pattern is stated through `TitleMatch`, a transcription of the pattern's shortest-match semantics, not of the `re` engine itself.
- `os.path.join` is modelled for POSIX paths only.
- `list.insert`, `append` and element assignment update the local `content` list in place in the source. The model threads the list through as a `seq` value. The list is local to the call, so no aliasing is lost.
- `TableMerge.ApplyRecordIdempotent`: proved only for a `Stable` record in a table that has a line at the rule position (`header_index + 2 <= len(content)`). `Stable` requires no `|` in any text that goes into a cell. It also requires no newline in the slug, no newline in a blank title, and a difficulty that is either empty or not blank. These conditions are sufficient, not proved necessary. A `|` makes the row split into other cells when read again. A newline in the link, or in a blank title, stops the Title cell from reading back when the title is taken from the row. A blank but non-empty difficulty is written padded and read back empty. Without a line at the rule position, `TableMerge.HeaderAtEndDuplicates` shows the source adds the row again.
- `TableMerge.RebuildFixpoint`: requires a `Stable` record, for the reasons given for `ApplyRecordIdempotent`. These conditions are sufficient, not proved necessary.
- `TableMerge.NewRowFixpoint`: requires a `Stable` record, for the reasons given for `ApplyRecordIdempotent`. These conditions are sufficient, not proved necessary.
- `TableMerge.ApplyRecordsFound`: proved only when the table has a line at the rule position, for the same reason as `ApplyRecordIdempotent`.
- `TableMerge.RewriteReadBack`: requires a `Clean` record, which is `Stable` with no newline and no `](` in the title, so that the Title cell gives the title back.
- `TableMerge.NewRowReadBack`: requires a `Clean` record, for the same read-back reason.
