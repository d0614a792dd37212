/** `update_or_add_solutions` on the table held in memory as its list of
    lines: find or add the header, then for each record rewrite the first
    data row carrying its index or insert a new row under the header. */
module TableMerge {
  import opened PyText
  import opened SolutionUpdater

  /** One solution record. An absent index is asked for on the console in
      the source; here every record carries one. */
  datatype Solution = Solution(
    index: int,
    title: Option<string>,
    slug: Option<string>,
    language: string,
    difficulty: Option<string>)

  /** The matched row has fewer than five `|`-separated cells, so reading
      `parts[2]`, `parts[3]` or `parts[4]` raises IndexError: the update
      stops and the file is not written. */
  datatype Error = RowTooShort(line: nat)

  datatype Result<+T> = Success(value: T) | Failure(error: Error)

  const HeaderTitles := "|#      | Title | Solution | Difficulty |\n"
  const HeaderRule := "|-------|-------|----------|------------|\n"

  /** The column-title line of the table. */
  predicate IsHeader(line: string) {
    StartsWith(Strip(line), "|#")
  }

  /** The first header line at or after `i`. */
  function HeaderSearch(content: seq<string>, i: nat): (h: Option<nat>)
    requires i <= |content|
    ensures h.Some? ==> i <= h.value < |content| && IsHeader(content[h.value])
    ensures h.Some? ==> forall k {:trigger IsHeader(content[k])} :: i <= k < h.value ==> !IsHeader(content[k])
    ensures h.None? ==> forall k {:trigger IsHeader(content[k])} :: i <= k < |content| ==> !IsHeader(content[k])
    decreases |content| - i
  {
    if i == |content| then None
    else if IsHeader(content[i]) then Some(i)
    else HeaderSearch(content, i + 1)
  }

  /** The lines with a header, and the position of the header line: the
      first header line when there is one, with nothing added; otherwise the
      two fixed header lines appended, the header at the old length. */
  function EnsureHeader(lines: seq<string>): (seq<string>, nat) {
    match HeaderSearch(lines, 0)
    case Some(h) => (lines, h)
    case None => (lines + [HeaderTitles, HeaderRule], |lines|)
  }

  /** With a header line among the lines, nothing is added and the first
      one is chosen; without one, the two header lines are appended and
      the first of them is chosen. Either way the chosen line is a header. */
  lemma EnsureHeaderFinds(lines: seq<string>)
    ensures (exists i {:trigger IsHeader(lines[i])} :: 0 <= i < |lines| && IsHeader(lines[i])) ==>
      && EnsureHeader(lines).0 == lines && EnsureHeader(lines).1 < |lines|
      && forall k {:trigger IsHeader(lines[k])} :: 0 <= k < EnsureHeader(lines).1 ==> !IsHeader(lines[k])
    ensures (forall i {:trigger IsHeader(lines[i])} :: 0 <= i < |lines| ==> !IsHeader(lines[i])) ==>
      && EnsureHeader(lines).0 == lines + [HeaderTitles, HeaderRule] && EnsureHeader(lines).1 == |lines|
    ensures EnsureHeader(lines).1 < |EnsureHeader(lines).0| && IsHeader(EnsureHeader(lines).0[EnsureHeader(lines).1])
  {
    match HeaderSearch(lines, 0)
    case Some(h) =>
    case None =>
      var c := lines + [HeaderTitles, HeaderRule];
      HeaderTitlesIsHeader();
      assert c[|lines|] == HeaderTitles;
  }

  lemma HeaderTitlesIsHeader()
    ensures IsHeader(HeaderTitles)
  {
    HeaderLine(HeaderTitles);
  }

  /** A line that starts with `|#` is a header line. */
  lemma HeaderLine(s: string)
    requires |s| >= 2 && s[0] == '|' && s[1] == '#'
    ensures IsHeader(s)
  {
    assert !IsSpace(s[0]) && !IsSpace(s[1]);
    StripFromNonSpace(s);
    var r := RStrip(s);
    assert |r| >= 2;
    assert r[..2] == s[..2] == "|#";
  }

  /** `int(line.split("|")[1].strip())` for a line that starts with `|`;
      `None` for any other line and for a first cell that is no integer. */
  function RowIndex(line: string): Option<int> {
    if |line| > 0 && line[0] == '|' then
      SplitLeading(line, '|');
      ParseInt(Strip(Split(line, '|')[1]))
    else None
  }

  /** The index cell of every line, in order, as the scan reads it. */
  function RowIndices(content: seq<string>): (ids: seq<Option<int>>)
    ensures |ids| == |content|
  {
    if content == [] then [] else [RowIndex(content[0])] + RowIndices(content[1..])
  }

  /** The first position at or after `from` whose index cell holds
      `index`; positions whose cell is no integer are passed over. */
  function FirstMatch(ids: seq<Option<int>>, from: nat, index: int): (r: Option<nat>)
    ensures r.Some? ==> from <= r.value < |ids| && ids[r.value] == Some(index)
    ensures r.Some? ==> forall k :: from <= k < r.value ==> ids[k] != Some(index)
    ensures r.None? ==> forall k :: from <= k < |ids| ==> ids[k] != Some(index)
    decreases |ids| - from
  {
    if from >= |ids| then None
    else if ids[from] == Some(index) then Some(from)
    else FirstMatch(ids, from + 1, index)
  }

  // ---------------------------------------------------------------------
  // Cells of a row

  /** `line.strip().split("|")` */
  function Cells(line: string): seq<string> {
    Split(Strip(line), '|')
  }

  /** The title written in a row's Title cell. */
  function CellTitle(cells: seq<string>): string
    requires |cells| >= 3
  {
    ExtractTitleFromMarkdown(Strip(cells[2]))
  }

  function CellSolutions(cells: seq<string>): string
    requires |cells| >= 4
  {
    Strip(cells[3])
  }

  function CellDifficulty(cells: seq<string>): string
    requires |cells| >= 5
  {
    Strip(cells[4])
  }

  function Slug(s: Solution): string {
    if s.slug.Some? then s.slug.value else ""
  }

  /** `[language](path)`: the link of one solution in the Solutions cell. */
  function SolutionEntry(s: Solution, title: string): string {
    "[" + LanguageDisplay(s.language) + "](" + FormatSolutionFilename(title, s.index, s.language) + ")"
  }

  /** The Solutions cell after adding `entry`: it is added, after a comma,
      only when that exact text is not already in the cell. */
  function MergeSolutions(existing: string, entry: string): string {
    if Contains(existing, entry) then existing else existing + ", " + entry
  }

  /** The merged cell holds the entry, keeps the old cell as its prefix,
      and is the old cell unchanged when the entry was already there. */
  lemma MergeSolutionsAdds(existing: string, entry: string)
    ensures Contains(MergeSolutions(existing, entry), entry)
    ensures StartsWith(MergeSolutions(existing, entry), existing)
    ensures Contains(existing, entry) ==> MergeSolutions(existing, entry) == existing
  {
    if !Contains(existing, entry) {
      var r := existing + ", " + entry;
      assert OccursAt(r, entry, |existing| + 2);
    }
  }

  /** Title of a matched row: the record's when given and not blank, the
      one read from the row otherwise. */
  function ResolveTitle(s: Solution, existing: string): string {
    if s.title.Some? && Strip(s.title.value) != "" then s.title.value else existing
  }

  /** Difficulty of a matched row: the label of the record's difficulty
      when given and not blank, the row's own text otherwise. */
  function ResolveDifficulty(s: Solution, existing: string): string {
    if s.difficulty.Some? && Strip(s.difficulty.value) != "" then DifficultyDisplay(s.difficulty.value)
    else existing
  }

  /** The Solutions, then Title, then Difficulty cell of a row rewritten,
      each padded with one space on either side. */
  function SetCells(cells: seq<string>, title: string, link: string, solutions: string, difficulty: string): seq<string>
    requires |cells| >= 5
  {
    cells[3 := " " + solutions + " "]
         [2 := " [" + title + "](" + link + ") "]
         [4 := " " + difficulty + " "]
  }

  /** The cells of a matched row after the record is merged in. */
  function RebuildCells(cells: seq<string>, s: Solution): seq<string>
    requires |cells| >= 5
  {
    var title := ResolveTitle(s, CellTitle(cells));
    SetCells(cells, title, CreateLeetcodeLink(Slug(s)),
      MergeSolutions(CellSolutions(cells), SolutionEntry(s, title)),
      ResolveDifficulty(s, CellDifficulty(cells)))
  }

  /** The matched row rewritten, or `None` when it has too few cells. */
  function RebuildRow(line: string, s: Solution): Option<string> {
    var cells := Cells(line);
    if |cells| < 5 then None else Some(Join(RebuildCells(cells, s), '|') + "\n")
  }

  /** The title a new row is written with. */
  function NewTitle(s: Solution): string {
    if s.title.Some? then s.title.value else UnknownTitle
  }

  /** The difficulty a new row is written with. */
  function NewDifficulty(s: Solution): string {
    if s.difficulty.Some? then DifficultyDisplay(s.difficulty.value) else "Unknown"
  }

  /** The cells of a new row, the empty ones before the first and after the
      last `|` included. */
  function NewCells(s: Solution): seq<string> {
    var t := NewTitle(s);
    ["", IntToString(s.index) + " ", " [" + t + "](" + CreateLeetcodeLink(Slug(s)) + ") ",
     " " + SolutionEntry(s, t) + " ", " " + NewDifficulty(s) + " ", ""]
  }

  /** The row for a record whose index is not in the table yet. */
  function NewRow(s: Solution): string {
    "|" + IntToString(s.index) + " | [" + NewTitle(s) + "](" + CreateLeetcodeLink(Slug(s)) + ") | ["
      + LanguageDisplay(s.language) + "](" + FormatSolutionFilename(NewTitle(s), s.index, s.language) + ") | "
      + NewDifficulty(s) + " |\n"
  }

  /** Where `list.insert(i, x)` puts `x`: at `i`, or at the end when `i`
      is past it. */
  function InsertPos(content: seq<string>, i: nat): (p: nat)
    ensures p <= |content|
  {
    if i <= |content| then i else |content|
  }

  /** `list.insert(i, line)`: the lines before the insert position stay,
      the new line comes next, and the lines from the insert position on
      follow it, moved down by one. */
  function InsertAt(content: seq<string>, i: nat, line: string): (r: seq<string>)
    ensures |r| == |content| + 1
    ensures r[InsertPos(content, i)] == line
    ensures r[..InsertPos(content, i)] == content[..InsertPos(content, i)]
    ensures r[InsertPos(content, i) + 1..] == content[InsertPos(content, i)..]
  {
    var p := InsertPos(content, i);
    content[..p] + [line] + content[p..]
  }

  /** One record merged into the table whose header is at `h`. */
  function ApplyRecord(content: seq<string>, h: nat, s: Solution): Result<seq<string>> {
    match FirstMatch(RowIndices(content), h + 2, s.index)
    case Some(j) =>
      (match RebuildRow(content[j], s)
       case Some(line) => Success(content[j := line])
       case None => Failure(RowTooShort(j)))
    case None => Success(InsertAt(content, h + 2, NewRow(s)))
  }

  /** The records merged in one after the other; the first failure ends it. */
  function ApplyRecords(content: seq<string>, h: nat, records: seq<Solution>): Result<seq<string>>
    decreases |records|
  {
    if records == [] then Success(content)
    else match ApplyRecords(content, h, records[..|records| - 1])
      case Failure(e) => Failure(e)
      case Success(c) => ApplyRecord(c, h, records[|records| - 1])
  }

  /** The whole update: header first, then the records. */
  function Update(lines: seq<string>, records: seq<Solution>): Result<seq<string>> {
    var (content, h) := EnsureHeader(lines);
    ApplyRecords(content, h, records)
  }

  // ---------------------------------------------------------------------
  // The update itself, step by step on the list of lines

  /** Finds the header line, or appends the two header lines. */
  method LocateHeader(lines: seq<string>) returns (content: seq<string>, headerIndex: nat)
    ensures (content, headerIndex) == EnsureHeader(lines)
  {
    var header: Option<nat> := None;
    for i := 0 to |lines|
      invariant header.None?
      invariant HeaderSearch(lines, i) == HeaderSearch(lines, 0)
    {
      if IsHeader(lines[i]) {
        header := Some(i);
        break;
      }
    }
    content := lines;
    if header.None? {
      content := content + [HeaderTitles];
      content := content + [HeaderRule];
      headerIndex := |content| - 2;
      assert content == lines + [HeaderTitles, HeaderRule];
    } else {
      headerIndex := header.value;
    }
  }

  /** Scans the lines from `from` for the row of `index`. */
  method FindRow(content: seq<string>, from: nat, index: int) returns (row: Option<nat>)
    ensures row == FirstMatch(RowIndices(content), from, index)
  {
    row := None;
    var j := from;
    while j < |content|
      invariant from <= j
      invariant row.None?
      invariant FirstMatch(RowIndices(content), j, index) == FirstMatch(RowIndices(content), from, index)
    {
      var line := content[j];
      RowIndicesAt(content, j);
      if |line| > 0 && line[0] == '|' {
        SplitLeading(line, '|');
        var existingIndex := ParseInt(Strip(Split(line, '|')[1]));
        if existingIndex.None? {
          j := j + 1;
          continue;
        }
        if existingIndex.value == index {
          row := Some(j);
          break;
        }
      }
      j := j + 1;
    }
  }

  /** Rewrites a matched row: title and difficulty taken from the record
      when it gives them, the solution link added when not yet present. */
  method RewriteRow(line: string, s: Solution) returns (rewritten: Option<string>)
    ensures rewritten == RebuildRow(line, s)
  {
    var parts := Split(Strip(line), '|');
    if |parts| < 5 {
      return None;
    }
    parts := RewriteCells(parts, s);
    return Some(Join(parts, '|') + "\n");
  }

  /** The cells of a matched row with the record merged in. */
  method RewriteCells(cells: seq<string>, s: Solution) returns (parts: seq<string>)
    requires |cells| >= 5
    ensures parts == RebuildCells(cells, s)
  {
    parts := cells;
    var language := LanguageDisplay(s.language);
    var link := CreateLeetcodeLink(Slug(s));
    var existingTitle := ExtractTitleFromMarkdown(Strip(parts[2]));
    var existingSolutions := Strip(parts[3]);
    var existingDifficulty := Strip(parts[4]);
    var title := ResolveTitle(s, existingTitle);
    var difficulty := ResolveDifficulty(s, existingDifficulty);
    var solutionPath := FormatSolutionFilename(title, s.index, s.language);
    var entry := "[" + language + "](" + solutionPath + ")";
    assert title == ResolveTitle(s, CellTitle(cells));
    assert entry == SolutionEntry(s, title);
    ghost var merged := MergeSolutions(existingSolutions, entry);
    if !Contains(existingSolutions, entry) {
      var updatedSolutions := existingSolutions + ", " + entry;
      assert updatedSolutions == merged;
      parts := parts[3 := " " + updatedSolutions + " "];
    } else {
      parts := parts[3 := " " + existingSolutions + " "];
    }
    parts := parts[2 := " [" + title + "](" + link + ") "];
    parts := parts[4 := " " + difficulty + " "];
    assert parts == SetCells(cells, title, link, merged, difficulty);
    assert RebuildCells(cells, s) == SetCells(cells, title, link, merged, difficulty);
  }

  /** Merges one record into the lines: its row rewritten in place, or a
      new row inserted right under the header rule. */
  method MergeRecord(content: seq<string>, headerIndex: nat, s: Solution) returns (result: Result<seq<string>>)
    ensures result == ApplyRecord(content, headerIndex, s)
  {
    var row := FindRow(content, headerIndex + 2, s.index);
    if row.Some? {
      var j := row.value;
      var rewritten := RewriteRow(content[j], s);
      if rewritten.None? {
        return Failure(RowTooShort(j));
      }
      return Success(content[j := rewritten.value]);
    }
    var title := if s.title.Some? then s.title.value else UnknownTitle;
    var difficulty := if s.difficulty.Some? then DifficultyDisplay(s.difficulty.value) else "Unknown";
    var solutionPath := FormatSolutionFilename(title, s.index, s.language);
    var line := "|" + IntToString(s.index) + " | [" + title + "](" + CreateLeetcodeLink(Slug(s)) + ") | ["
      + LanguageDisplay(s.language) + "](" + solutionPath + ") | " + difficulty + " |\n";
    return Success(InsertAt(content, headerIndex + 2, line));
  }

  /** The records merged into the lines, as the source does it in place:
      the header found or appended once, then the records one by one; the
      first row too short to rewrite stops the update. */
  method UpdateOrAddSolutions(lines: seq<string>, records: seq<Solution>) returns (result: Result<seq<string>>)
    ensures result == Update(lines, records)
  {
    var content, headerIndex := LocateHeader(lines);
    ghost var start := content;
    for n := 0 to |records|
      invariant ApplyRecords(start, headerIndex, records[..n]) == Success(content)
    {
      var merged := MergeRecord(content, headerIndex, records[n]);
      ApplyRecordsStep(start, headerIndex, records, n, content);
      if merged.Failure? {
        FailureStays(start, headerIndex, records, n + 1);
        return merged;
      }
      content := merged.value;
    }
    assert records[..|records|] == records;
    return Success(content);
  }

  /** One more record on top of the records merged so far. */
  lemma ApplyRecordsStep(content: seq<string>, h: nat, records: seq<Solution>, n: nat, merged: seq<string>)
    requires n < |records| && ApplyRecords(content, h, records[..n]) == Success(merged)
    ensures ApplyRecords(content, h, records[..n + 1]) == ApplyRecord(merged, h, records[n])
  {
    assert records[..n + 1][..n] == records[..n];
  }

  /** Once a record fails, the batch fails with that error. */
  lemma {:induction false} FailureStays(content: seq<string>, h: nat, records: seq<Solution>, k: nat)
    requires k <= |records| && ApplyRecords(content, h, records[..k]).Failure?
    ensures ApplyRecords(content, h, records) == ApplyRecords(content, h, records[..k])
    decreases |records| - k
  {
    if k == |records| {
      assert records[..k] == records;
    } else {
      assert records[..k + 1][..k] == records[..k];
      FailureStays(content, h, records, k + 1);
    }
  }

  // ---------------------------------------------------------------------
  // Reading a written row back

  /** Cells that can be joined into a row and split back apart. */
  predicate RowCells(ps: seq<string>) {
    |ps| >= 2 && ps[0] == "" && forall i :: 0 <= i < |ps| ==> '|' !in ps[i]
  }

  lemma LastSplit(ps: seq<string>)
    requires |ps| >= 1
    ensures ps == ps[..|ps| - 1] + [ps[|ps| - 1]]
  {
  }

  lemma RowStartsWithBar(ps: seq<string>)
    requires |ps| >= 2 && ps[0] == ""
    ensures |Join(ps, '|')| > 0 && Join(ps, '|')[0] == '|'
  {
    assert ps == [""] + ps[1..];
    JoinCons("", ps[1..], '|');
  }

  /** Stripping a written row drops the newline and the whitespace at the
      end of its last cell. */
  lemma StripRow(ps: seq<string>)
    requires |ps| >= 2 && ps[0] == ""
    ensures Strip(Join(ps, '|') + "\n") == Join(ps[..|ps| - 1] + [RStrip(ps[|ps| - 1])], '|')
  {
    var n := |ps|;
    var init, last := ps[..n - 1], ps[n - 1];
    LastSplit(ps);
    JoinSnoc(init, '|', last);
    var a := Join(init, '|') + ['|'];
    var line := Join(ps, '|') + "\n";
    assert line == a + (last + "\n");
    RowStartsWithBar(ps);
    StripFromNonSpace(line);
    RStripConcat(a, last + "\n");
    RStripSpace(last, '\n');
    JoinSnoc(init, '|', RStrip(last));
  }

  /** A row written from its cells splits back into the same cells, except
      that stripping the line takes the trailing whitespace off the last. */
  lemma ReadBack(ps: seq<string>)
    requires RowCells(ps)
    ensures Cells(Join(ps, '|') + "\n") == ps[..|ps| - 1] + [RStrip(ps[|ps| - 1])]
  {
    var n := |ps|;
    StripRow(ps);
    var last := ps[n - 1];
    var tail := RStrip(last);
    assert '|' !in tail by {
      assert tail == last[..|tail|];
    }
    var ps' := ps[..n - 1] + [tail];
    assert forall i :: 0 <= i < |ps'| ==> '|' !in ps'[i] by {
      forall i | 0 <= i < |ps'|
        ensures '|' !in ps'[i]
      {
        if i < n - 1 { assert ps'[i] == ps[i]; }
      }
    }
    SplitJoin(ps', '|');
  }

  /** The index cell of a written row is its second cell. */
  lemma WrittenIndex(ps: seq<string>)
    requires |ps| >= 3 && ps[0] == "" && '|' !in ps[1]
    ensures |Split(Join(ps, '|') + "\n", '|')| >= 2
    ensures Split(Join(ps, '|') + "\n", '|')[1] == ps[1]
  {
    assert ps == [""] + ps[1..];
    JoinCons("", ps[1..], '|');
    assert ps[1..] == [ps[1]] + ps[2..];
    JoinCons(ps[1], ps[2..], '|');
    var rest := Join(ps[2..], '|') + "\n";
    assert Join(ps, '|') + "\n" == "" + ['|'] + (ps[1] + ['|'] + rest);
    SplitCons("", '|', ps[1] + ['|'] + rest);
    SplitCons(ps[1], '|', rest);
  }

  lemma PrefixRest(s: string, p: string)
    requires |p| <= |s| && p == s[..|p|]
    ensures s == p + s[|p|..]
  {
  }

  lemma StripBar(line: string)
    requires |line| > 0 && line[0] == '|'
    ensures var t := Strip(line); |t| > 0 && t[0] == '|' && |t| <= |line| && t == line[..|t|]
  {
    StripFromNonSpace(line);
    assert !IsSpace(line[0]);
  }

  /** The last cell carries no trailing whitespace. */
  predicate LastTrimmed(c: seq<string>) {
    |c| >= 1 && RStrip(c[|c| - 1]) == c[|c| - 1]
  }

  /** The last piece of a stripped line ends in no whitespace. */
  lemma LastCellStripped(t: string)
    requires Stripped(t)
    ensures LastTrimmed(Split(t, '|'))
  {
    var c := Split(t, '|');
    var last := c[|c| - 1];
    if |c| > 1 {
      LastSplit(c);
      JoinSnoc(c[..|c| - 1], '|', last);
    }
    if last != [] {
      assert t == Join(c[..|c| - 1], '|') + ['|'] + last || t == last;
      assert last[|last| - 1] == t[|t| - 1];
    }
  }

  /** The cells of a line that starts with `|`: the first is empty, the
      second is the one the index is read from, and the last carries no
      trailing whitespace. */
  lemma LineCells(line: string)
    requires |line| > 0 && line[0] == '|'
    ensures RowCells(Cells(line))
    ensures |Cells(line)| >= 3 ==> Cells(line)[1] == Split(line, '|')[1]
    ensures LastTrimmed(Cells(line))
  {
    LineCellsShape(line);
    if |Cells(line)| >= 3 {
      LineIndexCell(line);
    }
    LineLastCell(line);
  }

  lemma LineLastCell(line: string)
    ensures LastTrimmed(Cells(line))
  {
    var t := Strip(line);
    LastCellStripped(t);
    assert Cells(line) == Split(t, '|');
  }

  lemma LineCellsShape(line: string)
    requires |line| > 0 && line[0] == '|'
    ensures RowCells(Cells(line))
  {
    StripBar(line);
    SplitLeading(Strip(line), '|');
  }

  lemma LineIndexCell(line: string)
    requires |line| > 0 && line[0] == '|' && |Cells(line)| >= 3
    ensures Cells(line)[1] == Split(line, '|')[1]
  {
    var t := Strip(line);
    StripBar(line);
    PrefixIndexCell(line, t);
  }

  /** A line and a prefix of it with at least three pieces agree on their
      second piece. */
  lemma PrefixIndexCell(line: string, t: string)
    requires |t| <= |line| && t == line[..|t|] && |Split(t, '|')| >= 3
    ensures |Split(line, '|')| >= 2 && Split(line, '|')[1] == Split(t, '|')[1]
  {
    PrefixRest(line, t);
    SplitFirstTwo(t, '|', line[|t|..]);
  }

  /** Rewriting a matched row leaves its index cell as it was, so the row
      is found again under the same index. */
  lemma RewriteKeepsIndex(line: string, s: Solution)
    requires |line| > 0 && line[0] == '|' && RebuildRow(line, s).Some?
    ensures RowIndex(RebuildRow(line, s).value) == RowIndex(line)
  {
    var c := Cells(line);
    var ps := RebuildCells(c, s);
    RebuildKeepsFirst(c, s);
    LineCellsShape(line);
    LineIndexCell(line);
    assert RebuildRow(line, s).value == Join(ps, '|') + "\n";
    WrittenKeepsIndex(line, ps);
  }

  /** A rewrite leaves the first two cells, and the number of cells, as
      they were. */
  lemma RebuildKeepsFirst(c: seq<string>, s: Solution)
    requires |c| >= 5
    ensures |RebuildCells(c, s)| == |c|
    ensures RebuildCells(c, s)[0] == c[0] && RebuildCells(c, s)[1] == c[1]
  {
    var t := ResolveTitle(s, CellTitle(c));
    var m := MergeSolutions(CellSolutions(c), SolutionEntry(s, t));
    var d := ResolveDifficulty(s, CellDifficulty(c));
    assert RebuildCells(c, s) == SetCells(c, t, CreateLeetcodeLink(Slug(s)), m, d);
    SetCellsKeeps(c, t, CreateLeetcodeLink(Slug(s)), m, d);
  }

  lemma SetCellsKeeps(c: seq<string>, t: string, l: string, m: string, d: string)
    requires |c| >= 5
    ensures |SetCells(c, t, l, m, d)| == |c|
    ensures SetCells(c, t, l, m, d)[0] == c[0] && SetCells(c, t, l, m, d)[1] == c[1]
  {
  }

  /** Cells written back with the second cell of `line` read back under
      the index of `line`. */
  lemma WrittenKeepsIndex(line: string, ps: seq<string>)
    requires |line| > 0 && line[0] == '|'
    requires |ps| >= 3 && ps[0] == "" && '|' !in ps[1]
    requires |Split(line, '|')| >= 2 && ps[1] == Split(line, '|')[1]
    ensures RowIndex(Join(ps, '|') + "\n") == RowIndex(line)
  {
    RowStartsWithBar(ps);
    WrittenIndex(ps);
  }

  // ---------------------------------------------------------------------
  // Applying the same record twice

  /** Record fields whose row a second application of the record leaves as
      it is: no `|` in any text that goes into a cell, no newline in the
      slug, no newline in a blank title (a blank title is written into a
      new row but read back from the row on a rewrite), and a difficulty
      that is either empty or not blank. */
  predicate Stable(s: Solution) {
    && (s.title.Some? ==> '|' !in s.title.value && (Strip(s.title.value) == "" ==> '\n' !in s.title.value))
    && (s.slug.Some? ==> '|' !in s.slug.value && '\n' !in s.slug.value)
    && '|' !in s.language
    && (s.difficulty.Some? ==> '|' !in s.difficulty.value && (Strip(s.difficulty.value) == "" ==> s.difficulty.value == ""))
  }

  /** Record fields whose row reads back with the values written: `Stable`,
      and a title without newline and without `](`, so that the Title cell
      gives the title back. */
  predicate Clean(s: Solution) {
    && Stable(s)
    && (s.title.Some? ==> '\n' !in s.title.value && !Contains(s.title.value, "]("))
  }

  /** A blank text is all whitespace, so it holds no `](`. */
  lemma BlankClean(t: string)
    requires Strip(t) == ""
    ensures !Contains(t, "](")
  {
    forall k | 0 <= k && k + 2 <= |t|
      ensures !OccursAt(t, "](", k)
    {
      assert IsSpace(t[k]);
      assert t[k..k + 2][0] == t[k];
    }
  }

  lemma StripSlice(s: string, c: char)
    requires c !in s
    ensures c !in Strip(s)
  {
    var t := Strip(s);
    assert t == s[Indent(s)..Indent(s) + |t|];
  }

  /** The title a rewrite puts into a row holds no `|`. */
  lemma ResolvedTitleNoPipe(c: seq<string>, s: Solution)
    requires RowCells(c) && |c| >= 5 && Stable(s)
    ensures '|' !in ResolveTitle(s, CellTitle(c))
  {
    StripSlice(c[2], '|');
    assert '|' !in UnknownTitle;
    ExtractNoChar(Strip(c[2]), '|');
  }

  /** The title a rewrite puts into a row is one the row can be read back
      from. */
  lemma ResolvedTitleClean(c: seq<string>, s: Solution)
    requires RowCells(c) && |c| >= 5 && Clean(s)
    ensures var t := ResolveTitle(s, CellTitle(c));
      '|' !in t && '\n' !in t && !Contains(t, "](")
  {
    ResolvedTitleNoPipe(c, s);
    ExtractedTitleClean(Strip(c[2]));
  }

  lemma EntryNoPipe(s: Solution, title: string)
    requires Stable(s) && '|' !in title
    ensures '|' !in SolutionEntry(s, title)
  {
    DisplayNoPipe(s.language);
    PathNoPipe(title, s.index, s.language);
  }

  /** A merged Solutions cell has no whitespace at either end and no `|`,
      so it can be written and stripped back. */
  lemma MergeStripped(existing: string, entry: string)
    requires Stripped(existing) && '|' !in existing && '|' !in entry
    requires |entry| > 0 && entry[0] == '[' && entry[|entry| - 1] == ')'
    ensures Stripped(MergeSolutions(existing, entry)) && '|' !in MergeSolutions(existing, entry)
  {
  }

  lemma EntryShape(s: Solution, title: string)
    ensures var e := SolutionEntry(s, title); |e| > 0 && e[0] == '[' && e[|e| - 1] == ')' && Stripped(e)
  {
    assert !IsSpace('[') && !IsSpace(')');
  }

  /** `RebuildCells` spelled out with the four values it writes. */
  lemma RebuildAsSet(c: seq<string>, s: Solution)
    requires |c| >= 5
    ensures var t := ResolveTitle(s, CellTitle(c));
      RebuildCells(c, s) == SetCells(c, t, CreateLeetcodeLink(Slug(s)),
        MergeSolutions(CellSolutions(c), SolutionEntry(s, t)), ResolveDifficulty(s, CellDifficulty(c)))
  {
  }

  /** Writing four `|`-free values keeps the cells writable. */
  lemma SetCellsShape(c: seq<string>, t: string, l: string, m: string, d: string)
    requires RowCells(c) && |c| >= 5
    requires '|' !in t && '|' !in l && '|' !in m && '|' !in d
    ensures RowCells(SetCells(c, t, l, m, d)) && |SetCells(c, t, l, m, d)| == |c|
  {
    var ps := SetCells(c, t, l, m, d);
    forall i | 0 <= i < |ps|
      ensures '|' !in ps[i]
    {
      if i < 2 || i > 4 {
        assert ps[i] == c[i];
      }
    }
  }

  /** The Title cell written as `[title](link)` reads back as the title. */
  lemma TitleCellReadBack(t: string, l: string)
    requires '\n' !in t && '\n' !in l && !Contains(t, "](")
    ensures ExtractTitleFromMarkdown(Strip(" [" + t + "](" + l + ") ")) == t
  {
    var md := "[" + t + "](" + l + ")";
    assert " [" + t + "](" + l + ") " == " " + md + " ";
    StripPadded(md);
    ExtractTitleRoundTrip(t, l);
  }

  /** The cells other than Title, Solutions and Difficulty agree. */
  predicate SameOutside(a: seq<string>, b: seq<string>) {
    |a| == |b| && forall i :: 0 <= i < |a| && (i < 2 || i > 4) ==> a[i] == b[i]
  }

  lemma SetCellsOutside(c: seq<string>, t: string, l: string, m: string, d: string)
    requires |c| >= 5
    ensures SameOutside(SetCells(c, t, l, m, d), c)
  {
  }

  lemma ReadBackOutside(c: seq<string>, ps: seq<string>)
    requires |c| >= 5 && SameOutside(ps, c) && RStrip(c[|c| - 1]) == c[|c| - 1]
    ensures SameOutside(ps[..|ps| - 1] + [RStrip(ps[|ps| - 1])], c)
  {
  }

  lemma SameOutsideSet(a: seq<string>, b: seq<string>, t: string, l: string, m: string, d: string)
    requires |a| >= 5 && SameOutside(a, b)
    ensures SetCells(a, t, l, m, d) == SetCells(b, t, l, m, d)
  {
    assert |SetCells(a, t, l, m, d)| == |SetCells(b, t, l, m, d)|;
  }

  /** A row written by `SetCells` reads back with the Title cell as
      written, the solutions and (stripped) difficulty that were written,
      and all other cells as they were. */
  lemma SetCellsWritten(c: seq<string>, t: string, l: string, m: string, d: string)
    requires RowCells(c) && |c| >= 5 && RStrip(c[|c| - 1]) == c[|c| - 1]
    requires '|' !in t && '|' !in l && '|' !in m && '|' !in d && Stripped(m)
    ensures var c' := Cells(Join(SetCells(c, t, l, m, d), '|') + "\n");
      && RowCells(c') && |c'| == |c| && RStrip(c'[|c'| - 1]) == c'[|c'| - 1]
      && c'[2] == " [" + t + "](" + l + ") " && CellSolutions(c') == m && CellDifficulty(c') == Strip(d)
      && SameOutside(c', c)
  {
    var ps := SetCells(c, t, l, m, d);
    var n := |c|;
    SetCellsShape(c, t, l, m, d);
    ReadBack(ps);
    var c' := ps[..n - 1] + [RStrip(ps[n - 1])];
    assert c'[2] == ps[2] && c'[3] == ps[3];
    StripPadded(m);
    StripPad(d);
    if n == 5 {
      StripRStrip(" " + d + " ");
    }
    LineCells(Join(ps, '|') + "\n") by {
      RowStartsWithBar(ps);
    }
    SetCellsOutside(c, t, l, m, d);
    ReadBackOutside(c, ps);
  }

  /** ... and, for a title that the Title cell gives back, with the title
      that was written. */
  lemma SetCellsReadBack(c: seq<string>, t: string, l: string, m: string, d: string)
    requires RowCells(c) && |c| >= 5 && RStrip(c[|c| - 1]) == c[|c| - 1]
    requires '|' !in t && '|' !in l && '|' !in m && '|' !in d
    requires '\n' !in t && '\n' !in l && !Contains(t, "](") && Stripped(m)
    ensures var c' := Cells(Join(SetCells(c, t, l, m, d), '|') + "\n");
      && RowCells(c') && |c'| == |c| && RStrip(c'[|c'| - 1]) == c'[|c'| - 1]
      && CellTitle(c') == t && CellSolutions(c') == m && CellDifficulty(c') == Strip(d)
      && SameOutside(c', c)
  {
    SetCellsWritten(c, t, l, m, d);
    TitleCellReadBack(t, l);
  }

  /** The title a rewrite resolves from a row it wrote is the title it
      wrote: the record's own when it gives a non-blank one, and otherwise
      the title read from the row, which the Title cell gives back. */
  lemma TitleKept(c: seq<string>, s: Solution, c': seq<string>)
    requires |c| >= 5 && Stable(s) && |c'| >= 3
    requires c'[2] == " [" + ResolveTitle(s, CellTitle(c)) + "](" + CreateLeetcodeLink(Slug(s)) + ") "
    ensures ResolveTitle(s, CellTitle(c')) == ResolveTitle(s, CellTitle(c))
  {
    if !(s.title.Some? && Strip(s.title.value) != "") {
      ExtractedTitleClean(Strip(c[2]));
      LinkClean(Slug(s));
      TitleCellReadBack(CellTitle(c), CreateLeetcodeLink(Slug(s)));
    }
  }

  /** Resolving the difficulty a second time against the stripped text of
      the resolved one keeps it, when the row's own text was stripped. */
  lemma ResolveDifficultyAgain(s: Solution, existing: string)
    requires Stripped(existing)
    ensures ResolveDifficulty(s, Strip(ResolveDifficulty(s, existing))) == ResolveDifficulty(s, existing)
  {
    StripStripped(existing);
  }

  /** The Solutions cell a rewrite writes has no `|` and no whitespace at
      either end. */
  lemma MergedClean(c: seq<string>, s: Solution)
    requires RowCells(c) && |c| >= 5 && Stable(s)
    ensures var m := MergeSolutions(CellSolutions(c), SolutionEntry(s, ResolveTitle(s, CellTitle(c))));
      '|' !in m && Stripped(m)
  {
    var t := ResolveTitle(s, CellTitle(c));
    var e := SolutionEntry(s, t);
    ResolvedTitleNoPipe(c, s);
    StripSlice(c[3], '|');
    EntryNoPipe(s, t);
    EntryShape(s, t);
    MergeStripped(CellSolutions(c), e);
  }

  lemma ResolvedDifficultyClean(c: seq<string>, s: Solution)
    requires RowCells(c) && |c| >= 5 && Stable(s)
    ensures '|' !in ResolveDifficulty(s, CellDifficulty(c))
  {
    StripSlice(c[4], '|');
    if s.difficulty.Some? {
      DisplayNoPipe(s.difficulty.value);
    }
  }

  /** The four values a rewrite writes fit the table. */
  lemma RebuildValues(c: seq<string>, s: Solution)
    requires RowCells(c) && |c| >= 5 && Stable(s)
    ensures var t := ResolveTitle(s, CellTitle(c));
      var l := CreateLeetcodeLink(Slug(s));
      var m := MergeSolutions(CellSolutions(c), SolutionEntry(s, t));
      var d := ResolveDifficulty(s, CellDifficulty(c));
      && '|' !in t && '|' !in l && '|' !in m && '|' !in d
      && '\n' !in l && Stripped(m)
  {
    ResolvedTitleNoPipe(c, s);
    LinkClean(Slug(s));
    MergedClean(c, s);
    ResolvedDifficultyClean(c, s);
  }

  /** Rewriting a rewritten row for the same record changes nothing: the
      title, link and difficulty come out the same and the solution link is
      found already in place. */
  lemma RebuildFixpoint(line: string, s: Solution)
    requires |line| > 0 && line[0] == '|' && Stable(s) && RebuildRow(line, s).Some?
    ensures RebuildRow(RebuildRow(line, s).value, s) == RebuildRow(line, s)
  {
    LineCells(line);
    var c := Cells(line);
    var t := ResolveTitle(s, CellTitle(c));
    var l := CreateLeetcodeLink(Slug(s));
    var m := MergeSolutions(CellSolutions(c), SolutionEntry(s, t));
    var d := ResolveDifficulty(s, CellDifficulty(c));
    RebuildAsSet(c, s);
    RebuildValues(c, s);
    SetCellsWritten(c, t, l, m, d);
    var c' := Cells(Join(SetCells(c, t, l, m, d), '|') + "\n");
    RebuildAsSet(c', s);
    TitleKept(c, s, c');
    ResolveDifficultyAgain(s, CellDifficulty(c));
    MergeSolutionsAdds(CellSolutions(c), SolutionEntry(s, t));
    MergeSolutionsAdds(m, SolutionEntry(s, t));
    SameOutsideSet(c', c, t, l, m, d);
  }

  // ---------------------------------------------------------------------
  // The inserted row

  /** Six cells joined by `|`, spelled out. */
  lemma JoinSix(a: string, b: string, c: string, d: string, e: string, f: string)
    ensures Join([a, b, c, d, e, f], '|') == a + "|" + (b + "|" + (c + "|" + (d + "|" + (e + "|" + f))))
  {
    assert Join([e, f], '|') == e + "|" + f;
    JoinCons(d, [e, f], '|');
    assert [d] + [e, f] == [d, e, f];
    JoinCons(c, [d, e, f], '|');
    assert [c] + [d, e, f] == [c, d, e, f];
    JoinCons(b, [c, d, e, f], '|');
    assert [b] + [c, d, e, f] == [b, c, d, e, f];
    JoinCons(a, [b, c, d, e, f], '|');
    assert [a] + [b, c, d, e, f] == [a, b, c, d, e, f];
  }

  /** The new row is its six cells joined by `|`, the empty ones before the
      first and after the last `|` included. */
  lemma NewRowIsJoin(s: Solution)
    ensures NewRow(s) == Join(NewCells(s), '|') + "\n"
  {
    var t := NewTitle(s);
    var i, l, e, d := IntToString(s.index), CreateLeetcodeLink(Slug(s)), SolutionEntry(s, t), NewDifficulty(s);
    JoinSix("", i + " ", " [" + t + "](" + l + ") ", " " + e + " ", " " + d + " ", "");
    RowText(i, t, l, LanguageDisplay(s.language), FormatSolutionFilename(t, s.index, s.language), d);
  }

  lemma RowText(i: string, t: string, l: string, lang: string, path: string, d: string)
    ensures "|" + i + " | [" + t + "](" + l + ") | [" + lang + "](" + path + ") | " + d + " |\n"
      == "" + "|" + ((i + " ") + "|" + ((" [" + t + "](" + l + ") ") + "|"
         + ((" " + ("[" + lang + "](" + path + ")") + " ") + "|" + ((" " + d + " ") + "|" + ""))))  + "\n"
  {
  }

  /** A new row is found again under the record's index. */
  lemma NewRowIndex(s: Solution)
    ensures RowIndex(NewRow(s)) == Some(s.index)
  {
    var i := IntToString(s.index);
    NewRowIsJoin(s);
    IntToStringParses(s.index);
    IndexCell(i, s.index);
    WrittenRowIndex(NewCells(s));
  }

  /** The index cell of a new row reads back as the index. */
  lemma IndexCell(i: string, index: int)
    requires forall k :: 0 <= k < |i| ==> IsDigit(i[k]) || i[k] == '-'
    requires ParseInt(i) == Some(index)
    ensures '|' !in i + " " && ParseInt(Strip(i + " ")) == Some(index)
  {
    assert '|' !in i + " " by {
      assert forall k :: 0 <= k < |i| ==> i[k] != '|';
    }
    assert Strip(i + " ") == i by {
      assert i + " " == i + [' '];
      StripAppendSpace(i, ' ');
      DigitsStripped(i);
    }
  }

  /** The index of a written row is read from its second cell. */
  lemma WrittenRowIndex(ps: seq<string>)
    requires |ps| >= 3 && ps[0] == "" && '|' !in ps[1]
    ensures RowIndex(Join(ps, '|') + "\n") == ParseInt(Strip(ps[1]))
  {
    WrittenIndex(ps);
    RowStartsWithBar(ps);
  }

  lemma NewTitleClean(s: Solution)
    requires Clean(s)
    ensures var t := NewTitle(s); '|' !in t && '\n' !in t && !Contains(t, "](")
  {
    UnknownTitleClean();
    NewTitleNoPipe(s);
  }

  lemma NewTitleNoPipe(s: Solution)
    requires Stable(s)
    ensures '|' !in NewTitle(s)
  {
    assert '|' !in UnknownTitle;
  }

  lemma NewCellsClean(s: Solution)
    requires Stable(s)
    ensures RowCells(NewCells(s))
  {
    var i := IntToString(s.index);
    assert '|' !in i + " " by {
      assert forall k :: 0 <= k < |i| ==> i[k] != '|';
    }
    NewTitleNoPipe(s);
    LinkClean(Slug(s));
    EntryNoPipe(s, NewTitle(s));
    if s.difficulty.Some? {
      DisplayNoPipe(s.difficulty.value);
    }
    SixCells(i + " ", NewTitle(s), CreateLeetcodeLink(Slug(s)), SolutionEntry(s, NewTitle(s)), NewDifficulty(s));
  }

  lemma SixCells(i: string, t: string, l: string, m: string, d: string)
    requires '|' !in i && '|' !in t && '|' !in l && '|' !in m && '|' !in d
    ensures RowCells(["", i, " [" + t + "](" + l + ") ", " " + m + " ", " " + d + " ", ""])
  {
  }

  /** Writing the values a row already holds leaves it as it is. */
  lemma SetCellsSame(c: seq<string>, t: string, l: string, m: string, d: string)
    requires |c| >= 5
    requires c[2] == " [" + t + "](" + l + ") " && c[3] == " " + m + " " && c[4] == " " + d + " "
    ensures SetCells(c, t, l, m, d) == c
  {
  }

  /** The difficulty of a new row survives a rewrite by the same record. */
  lemma NewDifficultyKept(s: Solution)
    requires Stable(s)
    ensures ResolveDifficulty(s, Strip(NewDifficulty(s))) == NewDifficulty(s)
  {
    if s.difficulty.None? {
      assert Stripped("Unknown");
      StripStripped("Unknown");
    } else if Strip(s.difficulty.value) == "" {
      assert Lower("") == "";
      assert "" !in DifficultyEmojis;
    }
  }

  /** A new row splits back into its own cells. */
  lemma NewRowCells(s: Solution)
    requires Stable(s)
    ensures Cells(NewRow(s)) == NewCells(s)
  {
    NewRowIsJoin(s);
    NewCellsClean(s);
    ReadBackClosed(NewCells(s));
  }

  /** A row whose last cell is empty splits back into exactly its cells. */
  lemma ReadBackClosed(ps: seq<string>)
    requires RowCells(ps) && ps[|ps| - 1] == ""
    ensures Cells(Join(ps, '|') + "\n") == ps
  {
    ReadBack(ps);
    assert RStrip("") == "";
    LastSplit(ps);
  }

  /** The title, solutions and difficulty a rewrite would compute from a
      new row of the same record are the ones it was written with. */
  lemma NewCellsResolve(s: Solution)
    requires Stable(s)
    ensures var ps, t := NewCells(s), NewTitle(s);
      && ResolveTitle(s, CellTitle(ps)) == t
      && MergeSolutions(CellSolutions(ps), SolutionEntry(s, t)) == SolutionEntry(s, t)
      && ResolveDifficulty(s, CellDifficulty(ps)) == NewDifficulty(s)
  {
    NewTitleResolves(s);
    NewEntryPresent(s);
    StripPad(NewDifficulty(s));
    NewDifficultyKept(s);
  }

  /** A new row's title survives a rewrite by the same record: a
      non-blank title of the record wins again, and any other title is read
      back from the Title cell. */
  lemma NewTitleResolves(s: Solution)
    requires Stable(s)
    ensures ResolveTitle(s, CellTitle(NewCells(s))) == NewTitle(s)
  {
    if !(s.title.Some? && Strip(s.title.value) != "") {
      if s.title.Some? {
        BlankClean(s.title.value);
      } else {
        UnknownTitleClean();
      }
      LinkClean(Slug(s));
      TitleCellReadBack(NewTitle(s), CreateLeetcodeLink(Slug(s)));
    }
  }

  lemma NewEntryPresent(s: Solution)
    ensures var e := SolutionEntry(s, NewTitle(s)); MergeSolutions(CellSolutions(NewCells(s)), e) == e
  {
    var e := SolutionEntry(s, NewTitle(s));
    EntryShape(s, NewTitle(s));
    StripPadded(e);
    assert OccursAt(e, e, 0);
  }

  /** Rewriting a freshly inserted row for the same record changes
      nothing. */
  lemma NewRowFixpoint(s: Solution)
    requires Stable(s)
    ensures RebuildRow(NewRow(s), s) == Some(NewRow(s))
  {
    var ps := NewCells(s);
    var t := NewTitle(s);
    NewRowCells(s);
    NewCellsResolve(s);
    RebuildAsSet(ps, s);
    SetCellsSame(ps, t, CreateLeetcodeLink(Slug(s)), SolutionEntry(s, t), NewDifficulty(s));
    NewRowIsJoin(s);
  }

  // ---------------------------------------------------------------------
  // What a rewrite and an insert leave in the row

  /** A rewritten row keeps every cell outside Title, Solutions and
      Difficulty, its index among them; its Title cell links the resolved
      title to the record's problem URL (whatever URL the row held before),
      its Solutions cell starts with the old one and holds the record's
      link, and its difficulty is the resolved one. */
  lemma RewriteReadBack(line: string, s: Solution)
    requires |line| > 0 && line[0] == '|' && Clean(s) && RebuildRow(line, s).Some?
    ensures var c, c' := Cells(line), Cells(RebuildRow(line, s).value);
      && |c| >= 5 && SameOutside(c', c)
      && CellTitle(c') == ResolveTitle(s, CellTitle(c))
      && c'[2] == " [" + ResolveTitle(s, CellTitle(c)) + "](" + CreateLeetcodeLink(Slug(s)) + ") "
      && StartsWith(CellSolutions(c'), CellSolutions(c))
      && Contains(CellSolutions(c'), SolutionEntry(s, CellTitle(c')))
      && CellDifficulty(c') == Strip(ResolveDifficulty(s, CellDifficulty(c)))
  {
    LineCells(line);
    var c := Cells(line);
    var t := ResolveTitle(s, CellTitle(c));
    var l := CreateLeetcodeLink(Slug(s));
    var m := MergeSolutions(CellSolutions(c), SolutionEntry(s, t));
    var d := ResolveDifficulty(s, CellDifficulty(c));
    RebuildAsSet(c, s);
    RebuildValues(c, s);
    ResolvedTitleClean(c, s);
    SetCellsWritten(c, t, l, m, d);
    SetCellsReadBack(c, t, l, m, d);
    MergeSolutionsAdds(CellSolutions(c), SolutionEntry(s, t));
  }

  /** A record without a slug links to the base URL followed by `//`, so
      with `RewriteReadBack` a matched row loses the problem URL it held. */
  lemma NoSlugLink(s: Solution)
    requires s.slug.None?
    ensures CreateLeetcodeLink(Slug(s)) == "https://leetcode.com/problems//"
  {
  }

  /** A new row reads back with the record's index, the title and
      difficulty it was written with, the record's problem URL in its
      Title cell, and the record's link as its only solution. */
  lemma NewRowReadBack(s: Solution)
    requires Clean(s)
    ensures var c := Cells(NewRow(s));
      && |c| == 6 && RowIndex(NewRow(s)) == Some(s.index)
      && CellTitle(c) == NewTitle(s)
      && c[2] == " [" + NewTitle(s) + "](" + CreateLeetcodeLink(Slug(s)) + ") "
      && CellSolutions(c) == SolutionEntry(s, NewTitle(s))
      && CellDifficulty(c) == Strip(NewDifficulty(s))
  {
    NewRowCells(s);
    NewRowIndex(s);
    NewCellsReadBack(s);
  }

  lemma NewCellsReadBack(s: Solution)
    requires Clean(s)
    ensures var c := NewCells(s);
      && CellTitle(c) == NewTitle(s)
      && CellSolutions(c) == SolutionEntry(s, NewTitle(s))
      && CellDifficulty(c) == Strip(NewDifficulty(s))
  {
    NewTitleClean(s);
    LinkClean(Slug(s));
    EntryShape(s, NewTitle(s));
    SixCellsReadBack(IntToString(s.index) + " ", NewTitle(s), CreateLeetcodeLink(Slug(s)),
      SolutionEntry(s, NewTitle(s)), NewDifficulty(s));
  }

  /** The cells of a written row read back as the values written in them. */
  lemma SixCellsReadBack(i: string, t: string, l: string, m: string, d: string)
    requires '\n' !in t && '\n' !in l && !Contains(t, "](") && Stripped(m)
    ensures var c := ["", i, " [" + t + "](" + l + ") ", " " + m + " ", " " + d + " ", ""];
      CellTitle(c) == t && CellSolutions(c) == m && CellDifficulty(c) == Strip(d)
  {
    TitleCellReadBack(t, l);
    StripPadded(m);
    StripPad(d);
  }

  // ---------------------------------------------------------------------
  // The index column

  lemma {:induction false} RowIndicesAt(content: seq<string>, k: nat)
    requires k < |content|
    ensures RowIndices(content)[k] == RowIndex(content[k])
    decreases k
  {
    if k > 0 {
      RowIndicesAt(content[1..], k - 1);
    }
  }

  lemma {:induction false} RowIndicesAppend(a: seq<string>, b: seq<string>)
    ensures RowIndices(a + b) == RowIndices(a) + RowIndices(b)
    decreases |a|
  {
    if a == [] {
      assert a + b == b;
    } else {
      assert (a + b)[1..] == a[1..] + b;
      RowIndicesAppend(a[1..], b);
    }
  }

  lemma RowIndicesOne(line: string)
    ensures RowIndices([line]) == [RowIndex(line)]
  {
    assert [line][1..] == [];
  }

  /** A line put between two parts of the table adds its own index cell
      between theirs. */
  lemma RowIndicesSplice(a: seq<string>, line: string, b: seq<string>)
    ensures RowIndices(a + [line] + b) == RowIndices(a) + [RowIndex(line)] + RowIndices(b)
  {
    RowIndicesAppend(a + [line], b);
    RowIndicesAppend(a, [line]);
    RowIndicesOne(line);
  }

  /** Replacing a line replaces its index cell and no other. */
  lemma RowIndicesUpdate(content: seq<string>, j: nat, line: string)
    requires j < |content|
    ensures RowIndices(content[j := line]) == RowIndices(content)[j := RowIndex(line)]
  {
    var a, b := content[..j], content[j + 1..];
    assert content == a + [content[j]] + b;
    assert content[j := line] == a + [line] + b;
    RowIndicesSplice(a, content[j], b);
    RowIndicesSplice(a, line, b);
    Splice(RowIndices(a), RowIndex(content[j]), RowIndex(line), RowIndices(b));
  }

  lemma Splice<T>(a: seq<T>, x: T, y: T, b: seq<T>)
    ensures (a + [x] + b)[|a| := y] == a + [y] + b
  {
  }

  /** Inserting a line inserts its index cell at the same place. */
  lemma RowIndicesInsert(content: seq<string>, p: nat, line: string)
    ensures var q := InsertPos(content, p); var ids := RowIndices(content);
      RowIndices(InsertAt(content, p, line)) == ids[..q] + [RowIndex(line)] + ids[q..]
  {
    var q := InsertPos(content, p);
    var a, b := content[..q], content[q..];
    assert content == a + b;
    assert InsertAt(content, p, line) == a + [line] + b;
    RowIndicesAppend(a, b);
    RowIndicesSplice(a, line, b);
    assert RowIndices(content)[..q] == RowIndices(a);
    assert RowIndices(content)[q..] == RowIndices(b);
  }

  // ---------------------------------------------------------------------
  // Scanning the index column

  /** A matching position at or after `from` is found by the scan. */
  lemma FirstMatchFinds(ids: seq<Option<int>>, from: nat, q: nat, index: int)
    requires from <= q < |ids| && ids[q] == Some(index)
    ensures FirstMatch(ids, from, index).Some?
  {
  }

  /** A matching position is found at once by a scan that starts on it. */
  lemma FirstMatchHere(ids: seq<Option<int>>, from: nat, index: int)
    requires from < |ids| && ids[from] == Some(index)
    ensures FirstMatch(ids, from, index) == Some(from)
  {
  }

  /** A cell inserted where the scan starts is found first. */
  lemma InsertedFirst(ids: seq<Option<int>>, p: nat, index: int)
    requires p <= |ids|
    ensures FirstMatch(ids[..p] + [Some(index)] + ids[p..], p, index) == Some(p)
  {
    FirstMatchHere(ids[..p] + [Some(index)] + ids[p..], p, index);
  }

  /** A match at or after the insertion point moves down by one and is
      still found. */
  lemma InsertedKeeps(ids: seq<Option<int>>, p: nat, v: Option<int>, index: int)
    requires p <= |ids| && FirstMatch(ids, p, index).Some?
    ensures FirstMatch(ids[..p] + [v] + ids[p..], p, index).Some?
  {
    var q := FirstMatch(ids, p, index).value;
    var ids' := ids[..p] + [v] + ids[p..];
    assert ids'[q + 1] == ids[q];
    FirstMatchFinds(ids', p, q + 1, index);
  }

  /** No index is held by two cells at or after `from`: the scan for the
      index of each cell finds nothing after it. */
  predicate UniqueIndices(ids: seq<Option<int>>, from: nat)
    decreases |ids| - from
  {
    from >= |ids|
    || ((ids[from].None? || FirstMatch(ids, from + 1, ids[from].value).None?) && UniqueIndices(ids, from + 1))
  }

  /** `UniqueIndices` holds exactly when no two cells from `from` on hold
      the same index. */
  lemma {:induction false} UniqueMeans(ids: seq<Option<int>>, from: nat)
    ensures UniqueIndices(ids, from) <==> forall a, b :: from <= a < b < |ids| && ids[a].Some? ==> ids[a] != ids[b]
    decreases |ids| - from
  {
    if from < |ids| {
      UniqueMeans(ids, from + 1);
      if ids[from].Some? && FirstMatch(ids, from + 1, ids[from].value).Some? {
        var b := FirstMatch(ids, from + 1, ids[from].value).value;
        assert ids[from] == ids[b];
      }
    }
  }

  /** Inserting an index not held below `p` keeps the indices unique. */
  lemma InsertedUnique(ids: seq<Option<int>>, p: nat, index: int, ids': seq<Option<int>>)
    requires p <= |ids| && UniqueIndices(ids, p) && FirstMatch(ids, p, index).None?
    requires ids' == ids[..p] + [Some(index)] + ids[p..]
    ensures UniqueIndices(ids', p)
  {
    UniqueMeans(ids, p);
    UniqueMeans(ids', p);
    assert forall i :: p < i < |ids'| ==> ids'[i] == ids[i - 1];
  }

  // ---------------------------------------------------------------------
  // One record against the whole table

  /** `ApplyRecord` when the row of the record's index is `j`. */
  lemma ApplyRewriteCase(content: seq<string>, h: nat, s: Solution, j: nat, r: string)
    requires FirstMatch(RowIndices(content), h + 2, s.index) == Some(j) && RebuildRow(content[j], s) == Some(r)
    ensures ApplyRecord(content, h, s) == Success(content[j := r])
  {
  }

  /** `ApplyRecord` when no row carries the record's index. */
  lemma ApplyInsertCase(content: seq<string>, h: nat, s: Solution)
    requires FirstMatch(RowIndices(content), h + 2, s.index).None?
    ensures ApplyRecord(content, h, s) == Success(InsertAt(content, h + 2, NewRow(s)))
  {
  }

  /** The table a record rewrote: its row replaced by the rebuilt one. */
  lemma RewriteCase(content: seq<string>, h: nat, s: Solution, c': seq<string>)
    requires ApplyRecord(content, h, s) == Success(c') && FirstMatch(RowIndices(content), h + 2, s.index).Some?
    ensures var j := FirstMatch(RowIndices(content), h + 2, s.index).value;
      RebuildRow(content[j], s).Some? && c' == content[j := RebuildRow(content[j], s).value]
  {
  }

  /** The table a record inserted its new row into. */
  lemma InsertCase(content: seq<string>, h: nat, s: Solution, c': seq<string>)
    requires ApplyRecord(content, h, s) == Success(c') && FirstMatch(RowIndices(content), h + 2, s.index).None?
    ensures c' == InsertAt(content, h + 2, NewRow(s))
  {
    ApplyInsertCase(content, h, s);
    assert c' == InsertAt(content, h + 2, NewRow(s));
  }

  /** A record fails exactly when its row is found and has fewer than five
      cells. */
  lemma ApplyRecordFailure(content: seq<string>, h: nat, s: Solution, j: nat)
    ensures ApplyRecord(content, h, s) == Failure(RowTooShort(j))
      <==> FirstMatch(RowIndices(content), h + 2, s.index) == Some(j) && |Cells(content[j])| < 5
  {
  }

  /** A rewrite leaves the index column as it was: the rewritten row keeps
      its index. */
  lemma RewriteIndices(content: seq<string>, h: nat, s: Solution, c': seq<string>)
    requires ApplyRecord(content, h, s) == Success(c') && FirstMatch(RowIndices(content), h + 2, s.index).Some?
    ensures RowIndices(c') == RowIndices(content)
  {
    var j := FirstMatch(RowIndices(content), h + 2, s.index).value;
    RewriteCase(content, h, s, c');
    RebuiltIndex(content, j, s);
    ReplaceSameIndex(content, j, RebuildRow(content[j], s).value);
  }

  /** The row found for a record keeps its index when it is rewritten. */
  lemma RebuiltIndex(content: seq<string>, j: nat, s: Solution)
    requires j < |content| && RowIndices(content)[j] == Some(s.index) && RebuildRow(content[j], s).Some?
    ensures RowIndex(RebuildRow(content[j], s).value) == RowIndex(content[j])
  {
    RowIndicesAt(content, j);
    RowLine(content[j], s.index);
    RewriteKeepsIndex(content[j], s);
  }

  /** A line replaced by one with the same index leaves the index column. */
  lemma ReplaceSameIndex(content: seq<string>, j: nat, r: string)
    requires j < |content| && RowIndex(r) == RowIndex(content[j])
    ensures RowIndices(content[j := r]) == RowIndices(content)
  {
    var ids := RowIndices(content);
    RowIndicesAt(content, j);
    RowIndicesUpdate(content, j, r);
    assert ids[j := RowIndex(r)] == ids;
  }

  /** A line with an index starts with `|`. */
  lemma RowLine(line: string, index: int)
    requires RowIndex(line) == Some(index)
    ensures |line| > 0 && line[0] == '|'
  {
  }

  /** A row inserted where the scan starts is the first one it finds. */
  lemma InsertFoundAt(content: seq<string>, p: nat, row: string, index: int)
    requires p <= |content| && RowIndex(row) == Some(index)
    ensures FirstMatch(RowIndices(InsertAt(content, p, row)), p, index) == Some(p)
  {
    RowIndicesInsert(content, p, row);
    InsertedFirst(RowIndices(content), p, index);
  }

  /** The new row of a record is found by a scan starting where it goes. */
  lemma NewRowFound(content: seq<string>, p: nat, s: Solution, c': seq<string>)
    requires p <= |content| && c' == InsertAt(content, p, NewRow(s))
    ensures FirstMatch(RowIndices(c'), p, s.index) == Some(p)
  {
    NewRowIndex(s);
    InsertFoundAt(content, p, NewRow(s), s.index);
  }

  // ---------------------------------------------------------------------
  // The index column after one record

  /** The index column after a record with index `index` is merged into a
      table scanned from `from`: as it was when the scan finds the index,
      otherwise with the index inserted where the scan starts, or at the end
      when the column is shorter than that. */
  function StepIds(ids: seq<Option<int>>, from: nat, index: int): seq<Option<int>> {
    if FirstMatch(ids, from, index).Some? then ids
    else
      var q := if from <= |ids| then from else |ids|;
      ids[..q] + [Some(index)] + ids[q..]
  }

  /** Merging a record changes the index column as `StepIds` says. */
  lemma ApplyRecordIds(content: seq<string>, h: nat, s: Solution, c': seq<string>)
    requires ApplyRecord(content, h, s) == Success(c')
    ensures RowIndices(c') == StepIds(RowIndices(content), h + 2, s.index)
  {
    var ids := RowIndices(content);
    if FirstMatch(ids, h + 2, s.index).Some? {
      RewriteIndices(content, h, s, c');
      StepIdsFound(ids, h + 2, s.index);
    } else {
      InsertCase(content, h, s, c');
      NewRowIds(content, h + 2, s, c');
      StepIdsInserted(ids, h + 2, s.index, InsertPos(content, h + 2));
    }
  }

  lemma StepIdsFound(ids: seq<Option<int>>, from: nat, index: int)
    requires FirstMatch(ids, from, index).Some?
    ensures StepIds(ids, from, index) == ids
  {
  }

  lemma StepIdsInserted(ids: seq<Option<int>>, from: nat, index: int, q: nat)
    requires FirstMatch(ids, from, index).None? && q == (if from <= |ids| then from else |ids|)
    ensures StepIds(ids, from, index) == ids[..q] + [Some(index)] + ids[q..]
  {
  }

  /** The new row of a record adds the record's index to the column. */
  lemma NewRowIds(content: seq<string>, p: nat, s: Solution, c': seq<string>)
    requires c' == InsertAt(content, p, NewRow(s))
    ensures var ids := RowIndices(content); var q := InsertPos(content, p);
      RowIndices(c') == ids[..q] + [Some(s.index)] + ids[q..]
  {
    NewRowIndex(s);
    RowIndicesInsert(content, p, NewRow(s));
  }

  /** After the step, a scan from `from` finds the index, provided the
      column reaches `from`. */
  lemma StepFound(ids: seq<Option<int>>, from: nat, index: int)
    requires from <= |ids|
    ensures FirstMatch(StepIds(ids, from, index), from, index).Some?
  {
    if FirstMatch(ids, from, index).None? {
      InsertedFirst(ids, from, index);
    }
  }

  /** An index the scan found before the step is still found after it. */
  lemma StepKeeps(ids: seq<Option<int>>, from: nat, index: int, other: int)
    requires FirstMatch(ids, from, other).Some?
    ensures FirstMatch(StepIds(ids, from, index), from, other).Some?
  {
    if FirstMatch(ids, from, index).None? {
      InsertedKeeps(ids, from, Some(index), other);
    }
  }

  /** The step keeps the column free of repeated indices from `from` on. */
  lemma StepUnique(ids: seq<Option<int>>, from: nat, index: int)
    requires UniqueIndices(ids, from)
    ensures UniqueIndices(StepIds(ids, from, index), from)
  {
    if FirstMatch(ids, from, index).None? {
      if from <= |ids| {
        InsertedUnique(ids, from, index, StepIds(ids, from, index));
      } else {
        ShortUnique(StepIds(ids, from, index), from);
      }
    }
  }

  /** A column with at most one cell from `p` on has no repeated index. */
  lemma ShortUnique(ids: seq<Option<int>>, p: nat)
    requires |ids| <= p + 1
    ensures UniqueIndices(ids, p)
  {
    if p < |ids| {
      assert UniqueIndices(ids, p + 1);
    }
  }

  // ---------------------------------------------------------------------
  // The lines a record leaves alone

  /** A record changes only its own row, or inserts one line; the header,
      the rule and everything above them stay. */
  lemma ApplyRecordFrame(content: seq<string>, h: nat, s: Solution, c': seq<string>)
    requires ApplyRecord(content, h, s) == Success(c')
    ensures var m := FirstMatch(RowIndices(content), h + 2, s.index);
      && (forall i :: 0 <= i < |content| && i < h + 2 ==> c'[i] == content[i])
      && (m.Some? ==>
            && |c'| == |content| && RebuildRow(content[m.value], s) == Some(c'[m.value])
            && forall i :: 0 <= i < |content| && i != m.value ==> c'[i] == content[i])
      && (m.None? ==>
            var p := InsertPos(content, h + 2);
            && |c'| == |content| + 1 && c'[..p] == content[..p] && c'[p] == NewRow(s)
            && c'[p + 1..] == content[p..])
  {
    if FirstMatch(RowIndices(content), h + 2, s.index).Some? {
      RewriteFrame(content, h, s, c');
    } else {
      InsertFrame(content, h, s, c');
    }
  }

  lemma RewriteFrame(content: seq<string>, h: nat, s: Solution, c': seq<string>)
    requires ApplyRecord(content, h, s) == Success(c') && FirstMatch(RowIndices(content), h + 2, s.index).Some?
    ensures var j := FirstMatch(RowIndices(content), h + 2, s.index).value;
      && |c'| == |content| && RebuildRow(content[j], s) == Some(c'[j])
      && forall i :: 0 <= i < |content| && i != j ==> c'[i] == content[i]
  {
    RewriteCase(content, h, s, c');
  }

  lemma InsertFrame(content: seq<string>, h: nat, s: Solution, c': seq<string>)
    requires ApplyRecord(content, h, s) == Success(c') && FirstMatch(RowIndices(content), h + 2, s.index).None?
    ensures var p := InsertPos(content, h + 2);
      && |c'| == |content| + 1 && c'[..p] == content[..p] && c'[p] == NewRow(s) && c'[p + 1..] == content[p..]
      && forall i :: 0 <= i < |content| && i < h + 2 ==> c'[i] == content[i]
  {
    InsertCase(content, h, s, c');
    InsertKeepsHead(content, h + 2, NewRow(s), c');
  }

  lemma InsertKeepsHead(content: seq<string>, p: nat, row: string, r: seq<string>)
    requires r == InsertAt(content, p, row)
    ensures |r| == |content| + 1
    ensures forall i :: 0 <= i < |content| && i < p ==> r[i] == content[i]
  {
    var q := InsertPos(content, p);
    forall i | 0 <= i < |content| && i < p
      ensures r[i] == content[i]
    {
      assert i < q;
      assert r[..q][i] == content[..q][i];
    }
  }

  // ---------------------------------------------------------------------
  // Applying the same record twice

  /** Applying the same record a second time changes nothing, provided
      the header has a line after it, so that the row the first application
      wrote lies inside the part of the table that is scanned. */
  lemma ApplyRecordIdempotent(content: seq<string>, h: nat, s: Solution)
    requires h + 2 <= |content| && Stable(s) && ApplyRecord(content, h, s).Success?
    ensures ApplyRecord(ApplyRecord(content, h, s).value, h, s) == ApplyRecord(content, h, s)
  {
    if FirstMatch(RowIndices(content), h + 2, s.index).Some? {
      RewriteTwice(content, h, s);
    } else {
      InsertTwice(content, h, s);
    }
  }

  lemma RewriteTwice(content: seq<string>, h: nat, s: Solution)
    requires Stable(s) && ApplyRecord(content, h, s).Success?
    requires FirstMatch(RowIndices(content), h + 2, s.index).Some?
    ensures ApplyRecord(ApplyRecord(content, h, s).value, h, s) == ApplyRecord(content, h, s)
  {
    var c' := ApplyRecord(content, h, s).value;
    var j := FirstMatch(RowIndices(content), h + 2, s.index).value;
    RewriteCase(content, h, s, c');
    RewriteIndices(content, h, s, c');
    RebuiltAgain(content, j, s, c');
    StableRow(c', h, s, j);
  }

  /** The row a record rewrote reads the same when rewritten again. */
  lemma RebuiltAgain(content: seq<string>, j: nat, s: Solution, c': seq<string>)
    requires j < |content| && RowIndices(content)[j] == Some(s.index) && Stable(s) && RebuildRow(content[j], s).Some?
    requires c' == content[j := RebuildRow(content[j], s).value]
    ensures RebuildRow(c'[j], s) == Some(c'[j])
  {
    RowIndicesAt(content, j);
    RowLine(content[j], s.index);
    RebuildFixpoint(content[j], s);
  }

  /** A table whose row for the record already reads as the record would
      rewrite it is left as it is. */
  lemma StableRow(content: seq<string>, h: nat, s: Solution, j: nat)
    requires FirstMatch(RowIndices(content), h + 2, s.index) == Some(j)
    requires RebuildRow(content[j], s) == Some(content[j])
    ensures ApplyRecord(content, h, s) == Success(content)
  {
    ApplyRewriteCase(content, h, s, j, content[j]);
    SameLine(content, j);
  }

  lemma SameLine(content: seq<string>, j: nat)
    requires j < |content|
    ensures content[j := content[j]] == content
  {
  }

  lemma InsertTwice(content: seq<string>, h: nat, s: Solution)
    requires h + 2 <= |content| && Stable(s)
    requires FirstMatch(RowIndices(content), h + 2, s.index).None?
    ensures ApplyRecord(ApplyRecord(content, h, s).value, h, s) == ApplyRecord(content, h, s)
  {
    ApplyInsertCase(content, h, s);
    var c' := ApplyRecord(content, h, s).value;
    InsertCase(content, h, s, c');
    NewRowAgain(content, h, s, c');
  }

  /** The new row of a record, once inserted, is found and left as it is. */
  lemma NewRowAgain(content: seq<string>, h: nat, s: Solution, c': seq<string>)
    requires h + 2 <= |content| && Stable(s) && c' == InsertAt(content, h + 2, NewRow(s))
    ensures ApplyRecord(c', h, s) == Success(c')
  {
    NewRowFound(content, h + 2, s, c');
    NewRowFixpoint(s);
    assert c'[h + 2] == NewRow(s);
    StableRow(c', h, s, h + 2);
  }

  /** When the header has no line after its rule, the new row is appended
      to the end of the file. */
  lemma HeaderAtEnd(content: seq<string>, h: nat, s: Solution)
    requires |content| <= h + 2
    ensures ApplyRecord(content, h, s) == Success(content + [NewRow(s)])
  {
    ApplyInsertCase(content, h, s);
    InsertAtEnd(content, h + 2, NewRow(s));
  }

  lemma InsertAtEnd(content: seq<string>, i: nat, line: string)
    requires |content| <= i
    ensures InsertAt(content, i, line) == content + [line]
  {
  }

  /** When the header is the last line there is no rule line below it, and
      the new row goes to the end of the file ... */
  lemma HeaderAtEndAppends(s: Solution)
    ensures ApplyRecord([HeaderTitles], 0, s) == Success([HeaderTitles, NewRow(s)])
  {
    HeaderAtEnd([HeaderTitles], 0, s);
    Snoc1(HeaderTitles, NewRow(s));
  }

  /** ... below the part of the table that is scanned, so applying the
      record again adds a second copy of the row. */
  lemma HeaderAtEndDuplicates(s: Solution)
    ensures ApplyRecord([HeaderTitles, NewRow(s)], 0, s) == Success([HeaderTitles, NewRow(s), NewRow(s)])
  {
    HeaderAtEnd([HeaderTitles, NewRow(s)], 0, s);
    Snoc2(HeaderTitles, NewRow(s), NewRow(s));
  }

  lemma Snoc1<T>(a: T, b: T)
    ensures [a] + [b] == [a, b]
  {
  }

  lemma Snoc2<T>(a: T, b: T, c: T)
    ensures [a, b] + [c] == [a, b, c]
  {
  }

  // ---------------------------------------------------------------------
  // All the records

  lemma ApplyRecordsLast(content: seq<string>, h: nat, records: seq<Solution>)
    requires records != [] && ApplyRecords(content, h, records).Success?
    ensures var init := records[..|records| - 1];
      && ApplyRecords(content, h, init).Success?
      && ApplyRecords(content, h, records) == ApplyRecord(ApplyRecords(content, h, init).value, h, records[|records| - 1])
  {
  }

  /** The records keep the header, the rule and everything above them, and
      never shorten the table. */
  lemma {:induction false} ApplyRecordsFrame(content: seq<string>, h: nat, records: seq<Solution>)
    requires ApplyRecords(content, h, records).Success?
    ensures var c := ApplyRecords(content, h, records).value;
      |c| >= |content| && forall i :: 0 <= i < |content| && i < h + 2 ==> c[i] == content[i]
    decreases |records|
  {
    if records != [] {
      var init := records[..|records| - 1];
      ApplyRecordsLast(content, h, records);
      ApplyRecordsFrame(content, h, init);
      ApplyRecordFrame(ApplyRecords(content, h, init).value, h, records[|records| - 1], ApplyRecords(content, h, records).value);
    }
  }

  /** The index column after the records, one `StepIds` per record. */
  function FoldIds(ids: seq<Option<int>>, from: nat, records: seq<Solution>): (r: seq<Option<int>>)
    ensures |r| >= |ids|
    decreases |records|
  {
    if records == [] then ids
    else StepIds(FoldIds(ids, from, records[..|records| - 1]), from, records[|records| - 1].index)
  }

  /** Merging the records changes the index column as `FoldIds` says. */
  lemma {:induction false} ApplyRecordsIds(content: seq<string>, h: nat, records: seq<Solution>)
    requires ApplyRecords(content, h, records).Success?
    ensures RowIndices(ApplyRecords(content, h, records).value) == FoldIds(RowIndices(content), h + 2, records)
    decreases |records|
  {
    if records != [] {
      var init := records[..|records| - 1];
      ApplyRecordsLast(content, h, records);
      ApplyRecordsIds(content, h, init);
      ApplyRecordIds(ApplyRecords(content, h, init).value, h, records[|records| - 1], ApplyRecords(content, h, records).value);
    }
  }

  /** After the steps every record's index is found from `from` on. */
  lemma {:induction false} FoldFound(ids: seq<Option<int>>, from: nat, records: seq<Solution>)
    requires from <= |ids|
    ensures forall i :: 0 <= i < |records| ==> FirstMatch(FoldIds(ids, from, records), from, records[i].index).Some?
    decreases |records|
  {
    if records != [] {
      var n := |records| - 1;
      var init := records[..n];
      FoldFound(ids, from, init);
      var ids1 := FoldIds(ids, from, init);
      forall i | 0 <= i < n
        ensures FirstMatch(ids1, from, records[i].index).Some?
      {
        assert init[i] == records[i];
      }
      FoundAfterStep(ids1, from, records, FoldIds(ids, from, records));
    }
  }

  /** One more record keeps the indices of the earlier ones found and adds
      its own. */
  lemma FoundAfterStep(ids: seq<Option<int>>, from: nat, records: seq<Solution>, ids': seq<Option<int>>)
    requires records != [] && from <= |ids| && ids' == StepIds(ids, from, records[|records| - 1].index)
    requires forall i :: 0 <= i < |records| - 1 ==> FirstMatch(ids, from, records[i].index).Some?
    ensures forall i :: 0 <= i < |records| ==> FirstMatch(ids', from, records[i].index).Some?
  {
    var index := records[|records| - 1].index;
    StepFound(ids, from, index);
    forall i | 0 <= i < |records| - 1
      ensures FirstMatch(ids', from, records[i].index).Some?
    {
      StepKeeps(ids, from, index, records[i].index);
    }
  }

  /** The steps keep the index column free of repeats from `from` on. */
  lemma {:induction false} FoldUnique(ids: seq<Option<int>>, from: nat, records: seq<Solution>)
    requires UniqueIndices(ids, from)
    ensures UniqueIndices(FoldIds(ids, from, records), from)
    decreases |records|
  {
    if records != [] {
      var init := records[..|records| - 1];
      FoldUnique(ids, from, init);
      StepUnique(FoldIds(ids, from, init), from, records[|records| - 1].index);
    }
  }

  /** After the records are merged, each of them has a row in the scanned
      part of the table. */
  lemma ApplyRecordsFound(content: seq<string>, h: nat, records: seq<Solution>)
    requires h + 2 <= |content| && ApplyRecords(content, h, records).Success?
    ensures var ids := RowIndices(ApplyRecords(content, h, records).value);
      forall i :: 0 <= i < |records| ==> FirstMatch(ids, h + 2, records[i].index).Some?
  {
    ApplyRecordsIds(content, h, records);
    FoldFound(RowIndices(content), h + 2, records);
  }

  /** Merging the records keeps the lines from `h + 2` on free of repeated indices when they were. */
  lemma ApplyRecordsUnique(content: seq<string>, h: nat, records: seq<Solution>)
    requires UniqueIndices(RowIndices(content), h + 2) && ApplyRecords(content, h, records).Success?
    ensures UniqueIndices(RowIndices(ApplyRecords(content, h, records).value), h + 2)
  {
    ApplyRecordsIds(content, h, records);
    FoldUnique(RowIndices(content), h + 2, records);
  }

  /** A successful update keeps every line down to the header rule, has
      the header at the position `EnsureHeader` gives, holds a row for
      every record when the table has a line at `h + 2`, and keeps the
      lines from `h + 2` on free of repeated indices when they were. */
  lemma UpdateTable(lines: seq<string>, records: seq<Solution>, c0: seq<string>, h: nat, c: seq<string>)
    requires EnsureHeader(lines) == (c0, h) && Update(lines, records) == Success(c)
    ensures h < |c0| <= |c| && IsHeader(c[h])
    ensures forall i :: 0 <= i < |c0| && i < h + 2 ==> c[i] == c0[i]
    ensures h + 2 <= |c0| ==> forall i :: 0 <= i < |records| ==> FirstMatch(RowIndices(c), h + 2, records[i].index).Some?
    ensures UniqueIndices(RowIndices(c0), h + 2) ==> UniqueIndices(RowIndices(c), h + 2)
  {
    EnsureHeaderFinds(lines);
    assert ApplyRecords(c0, h, records) == Success(c);
    ApplyRecordsFrame(c0, h, records);
    if h + 2 <= |c0| {
      ApplyRecordsFound(c0, h, records);
    }
    if UniqueIndices(RowIndices(c0), h + 2) {
      ApplyRecordsUnique(c0, h, records);
    }
  }
}
