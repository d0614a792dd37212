/** The fixed lookup tables of the updater and its three pure helpers:
    the problem link, the solution file path and the title read out of a
    Markdown link. */
module SolutionUpdater {
  import opened PyText

  /** Difficulty key to its display label. */
  const DifficultyEmojis: map<string, string> := map[
    "easy" := "\U{1F7E2} Easy",
    "medium" := "\U{1F7E0} Medium",
    "hard" := "\U{1F534} Hard"
  ]

  /** Language key to its display label. */
  const LanguageIcons: map<string, string> := map[
    "python" := "\U{1F40D} Python",
    "javascript" := "\U{1F310} JavaScript",
    "java" := "\U{2615} Java",
    "c++" := "\U{1F537} C++",
    "c#" := "\U{1F3AF} C#",
    "go" := "\U{1F439} Go",
    "ruby" := "\U{1F48E} Ruby",
    "php" := "\U{1F418} PHP",
    "swift" := "\U{1F34E} Swift",
    "kotlin" := "\U{1F680} Kotlin",
    "rust" := "\U{1F980} Rust",
    "c" := "\U{1F535} C"
  ]

  /** Language key to the extension of its solution files. */
  const FileExtensions: map<string, string> := map[
    "python" := "py",
    "javascript" := "js",
    "java" := "java",
    "c++" := "cpp",
    "c#" := "cs",
    "go" := "go",
    "ruby" := "rb",
    "php" := "php",
    "swift" := "swift",
    "kotlin" := "kt",
    "rust" := "rs",
    "c" := "c"
  ]

  /** `m.get(key, default)` */
  function Get(m: map<string, string>, key: string, default: string): string {
    if key in m then m[key] else default
  }

  /** Display label of a difficulty: looked up by its lower-cased form,
      the raw text when it is not a known difficulty. */
  function DifficultyDisplay(difficulty: string): string {
    Get(DifficultyEmojis, Lower(difficulty), difficulty)
  }

  /** Display label of a language, the raw text when it is unknown. */
  function LanguageDisplay(language: string): string {
    Get(LanguageIcons, Lower(language), language)
  }

  /** File extension of a language, empty when it is unknown. */
  function Extension(language: string): string {
    Get(FileExtensions, Lower(language), "")
  }

  /** Every label and extension of the fixed tables is free of the table's
      cell separator `|`, and the languages with a label are exactly the
      languages with an extension. */
  lemma TablesWellFormed()
    ensures forall k :: k in DifficultyEmojis ==> '|' !in DifficultyEmojis[k]
    ensures forall k :: k in LanguageIcons ==> '|' !in LanguageIcons[k]
    ensures forall k :: k in FileExtensions ==> '|' !in FileExtensions[k]
    ensures LanguageIcons.Keys == FileExtensions.Keys
  {
    DifficultyLabelsNoPipe();
    LanguageLabelsNoPipe();
    ExtensionsNoPipe();
  }

  lemma DifficultyLabelsNoPipe()
    ensures forall k :: k in DifficultyEmojis ==> '|' !in DifficultyEmojis[k]
  {
  }

  lemma LanguageLabelsNoPipe()
    ensures forall k :: k in LanguageIcons ==> '|' !in LanguageIcons[k]
  {
  }

  lemma ExtensionsNoPipe()
    ensures forall k :: k in FileExtensions ==> '|' !in FileExtensions[k]
  {
  }

  /** A text without `|` keeps none after being looked up in a table. */
  lemma DisplayNoPipe(s: string)
    requires '|' !in s
    ensures '|' !in DifficultyDisplay(s)
    ensures '|' !in LanguageDisplay(s)
    ensures '|' !in Extension(s)
  {
    TablesWellFormed();
  }

  // ---------------------------------------------------------------------
  // create_leetcode_link

  const BaseUrl := "https://leetcode.com/problems/"

  /** The problem page: the base URL, the slug, a closing slash. */
  function CreateLeetcodeLink(slug: string): string {
    BaseUrl + slug + "/"
  }

  /** The link starts with the base URL, ends with a slash, and holds the
      slug between the two. */
  lemma LinkLayout(slug: string)
    ensures var link := CreateLeetcodeLink(slug);
      && StartsWith(link, BaseUrl)
      && |link| == |BaseUrl| + |slug| + 1 && link[|link| - 1] == '/'
      && link[|BaseUrl|..|link| - 1] == slug
  {
    var link := CreateLeetcodeLink(slug);
    assert link[..|BaseUrl|] == BaseUrl;
    assert link[|BaseUrl|..|link| - 1] == slug;
  }

  /** Two slugs give the same link only when they are the same slug. */
  lemma LinkInjective(a: string, b: string)
    requires CreateLeetcodeLink(a) == CreateLeetcodeLink(b)
    ensures a == b
  {
    LinkLayout(a);
    LinkLayout(b);
  }

  lemma LinkClean(slug: string)
    requires '\n' !in slug && '|' !in slug
    ensures '\n' !in CreateLeetcodeLink(slug) && '|' !in CreateLeetcodeLink(slug)
  {
  }

  // ---------------------------------------------------------------------
  // format_solution_filename

  /** The title as it appears in a file name: lower case, spaces replaced
      by underscores. */
  function SanitizeTitle(title: string): (r: string)
    ensures |r| == |title|
    ensures forall i :: 0 <= i < |r| ==> r[i] != ' '
    ensures forall i :: 0 <= i < |r| ==> r[i] == if title[i] == ' ' then '_' else LowerChar(title[i])
  {
    Replace(Lower(title), ' ', '_')
  }

  /** `os.path.join(a, b)` on POSIX: an absolute `b` replaces `a`. */
  function PathJoin(a: string, b: string): string {
    if StartsWith(b, "/") then b
    else if a == [] || a[|a| - 1] == '/' then a + b
    else a + "/" + b
  }

  function FormatSolutionFilename(title: string, index: int, language: string): string {
    var extension := Extension(language);
    var sanitized := SanitizeTitle(title);
    var directory := "Algorithms/" + Lower(language) + "/";
    var filename := sanitized + "_" + IntToString(index) + "." + extension;
    PathJoin(directory, filename)
  }

  /** The solution path is `Algorithms/<language>/<title>_<index>.<ext>`
      with the language lower-cased, the title sanitized and the extension
      from the table (empty for an unknown language, so that the path still
      ends in a dot). A title that starts with `/` makes the file name
      absolute, and then the directory is dropped. */
  lemma {:induction false} FilenameLayout(title: string, index: int, language: string)
    ensures var filename := SanitizeTitle(title) + "_" + IntToString(index) + "." + Extension(language);
      && (title == [] || title[0] != '/' ==>
            FormatSolutionFilename(title, index, language) == "Algorithms/" + Lower(language) + "/" + filename)
      && (title != [] && title[0] == '/' ==>
            FormatSolutionFilename(title, index, language) == filename)
    ensures Lower(language) !in FileExtensions ==>
      var path := FormatSolutionFilename(title, index, language);
      path[|path| - 1] == '.'
  {
    var filename := SanitizeTitle(title) + "_" + IntToString(index) + "." + Extension(language);
    var directory := "Algorithms/" + Lower(language) + "/";
    if title != [] {
      assert filename[0] == SanitizeTitle(title)[0];
      assert SanitizeTitle(title)[0] == '/' <==> title[0] == '/';
    } else {
      assert filename[0] == '_';
    }
    assert directory[|directory| - 1] == '/';
  }

  /** No `|` gets into a solution path unless the title or the language
      brings one. */
  lemma PathNoPipe(title: string, index: int, language: string)
    requires '|' !in title && '|' !in language
    ensures '|' !in FormatSolutionFilename(title, index, language)
  {
    DisplayNoPipe(language);
    LowerKeeps(language, '|');
    var filename := SanitizeTitle(title) + "_" + IntToString(index) + "." + Extension(language);
    assert '|' !in IntToString(index);
    assert '|' !in SanitizeTitle(title);
    assert '|' !in filename;
  }

  // ---------------------------------------------------------------------
  // extract_title_from_markdown: re.match(r'\s*\[(.*?)\]\(.*?\)\s*', s)

  const UnknownTitle := "Unknown Title"

  /** `.*?\)` can match from `q`: a `)` with no newline before it. */
  ghost predicate CloseAfter(s: string, q: nat) {
    exists j :: q <= j < |s| && s[j] == ')' && '\n' !in s[q..j]
  }

  /** The lazy group opened at `p` can end after `k` characters: they hold
      no newline and are followed by `](` and a matching `.*?\)`. */
  ghost predicate GroupEnd(s: string, p: nat, k: nat) {
    && p + k + 2 <= |s|
    && '\n' !in s[p..p + k]
    && s[p + k] == ']' && s[p + k + 1] == '('
    && CloseAfter(s, p + k + 2)
  }

  /** The whole pattern matches at the start of `s` with a group of `k`
      characters: `\s*` takes the leading whitespace (a `[` is never
      whitespace, so backtracking into it cannot help), then `[`. */
  ghost predicate TitleMatch(s: string, k: nat) {
    var w := Indent(s);
    w < |s| && s[w] == '[' && GroupEnd(s, w + 1, k)
  }

  /** Scans for the `)` of `.*?\)`. */
  function FindClose(s: string, q: nat): (found: bool)
    requires q <= |s|
    ensures found <==> CloseAfter(s, q)
    decreases |s| - q
  {
    if q == |s| then false
    else if s[q] == ')' then (assert s[q..q] == []; true)
    else if s[q] == '\n' then false
    else
      var found := FindClose(s, q + 1);
      assert found ==> CloseAfter(s, q) by {
        if found {
          var j :| q + 1 <= j < |s| && s[j] == ')' && '\n' !in s[q + 1..j];
          assert s[q..j] == [s[q]] + s[q + 1..j];
        }
      }
      assert CloseAfter(s, q) ==> found by {
        if CloseAfter(s, q) {
          var j :| q <= j < |s| && s[j] == ')' && '\n' !in s[q..j];
          assert s[q + 1..j] <= s[q..j][1..];
        }
      }
      found
  }

  /** Tries group lengths `k`, `k + 1`, ... as the lazy `(.*?)` does, and
      gives the first that lets the rest of the pattern match. */
  function FindGroupEnd(s: string, p: nat, k: nat): (r: Option<nat>)
    requires p + k <= |s| && '\n' !in s[p..p + k]
    ensures r.Some? ==> k <= r.value && GroupEnd(s, p, r.value)
    ensures r.Some? ==> forall k' :: k <= k' < r.value ==> !GroupEnd(s, p, k')
    ensures r.None? ==> forall k' :: k <= k' ==> !GroupEnd(s, p, k')
    decreases |s| - p - k
  {
    if p + k + 2 <= |s| && s[p + k] == ']' && s[p + k + 1] == '(' && FindClose(s, p + k + 2) then
      Some(k)
    else if p + k == |s| || s[p + k] == '\n' then
      assert forall k': nat :: k <= k' ==> !GroupEnd(s, p, k') by {
        forall k': nat | k <= k'
          ensures !GroupEnd(s, p, k')
        {
          if k < k' && p + k' + 2 <= |s| {
            assert s[p..p + k'][k] == s[p + k];
          }
        }
      }
      None
    else
      assert s[p..p + k + 1] == s[p..p + k] + [s[p + k]];
      FindGroupEnd(s, p, k + 1)
  }

  /** Where the lazy group of the pattern starts in `s`, and how long the
      shortest one that lets the whole pattern match is; `None` when the
      pattern does not match. */
  function TitleGroup(s: string): (g: Option<(nat, nat)>)
    ensures g.Some? ==> g.value.0 == Indent(s) + 1 && Indent(s) < |s| && s[Indent(s)] == '['
    ensures g.Some? ==> GroupEnd(s, g.value.0, g.value.1)
    ensures g.Some? ==> forall k: nat :: k < g.value.1 ==> !GroupEnd(s, g.value.0, k)
    ensures g.None? ==> forall k: nat :: !TitleMatch(s, k)
  {
    var w := Indent(s);
    if w < |s| && s[w] == '[' then
      assert s[w + 1..w + 1] == [];
      match FindGroupEnd(s, w + 1, 0)
      case Some(k) => Some((w + 1, k))
      case None => None
    else None
  }

  /** The text between the brackets of the Markdown link `s` starts with
      (leading whitespace allowed); `Unknown Title` when the pattern does
      not match. */
  function ExtractTitleFromMarkdown(s: string): string {
    match TitleGroup(s)
    case Some((p, k)) => s[p..p + k]
    case None => UnknownTitle
  }

  /** The title is the group of the shortest match of the pattern, and
      `Unknown Title` when the pattern does not match. */
  lemma ExtractTitleMatches(s: string)
    ensures forall k: nat :: TitleMatch(s, k) && (forall k': nat :: k' < k ==> !TitleMatch(s, k')) ==>
      ExtractTitleFromMarkdown(s) == s[Indent(s) + 1..Indent(s) + 1 + k]
    ensures (forall k: nat :: !TitleMatch(s, k)) ==> ExtractTitleFromMarkdown(s) == UnknownTitle
  {
    match TitleGroup(s)
    case Some((p, k)) => ShortestMatch(s, p, k);
    case None =>
  }

  /** The shortest group that can end is the one of the shortest match. */
  lemma ShortestMatch(s: string, p: nat, k0: nat)
    requires p == Indent(s) + 1 && Indent(s) < |s| && s[Indent(s)] == '['
    requires GroupEnd(s, p, k0) && forall k: nat :: k < k0 ==> !GroupEnd(s, p, k)
    ensures TitleMatch(s, k0)
    ensures forall k: nat :: TitleMatch(s, k) && (forall k': nat :: k' < k ==> !TitleMatch(s, k')) ==> k == k0
  {
    assert TitleMatch(s, k0);
  }

  /** A `](` inside a group that can end lets the group end there already. */
  lemma EarlierGroupEnd(s: string, p: nat, k: nat, i: nat)
    requires GroupEnd(s, p, k)
    requires i + 2 <= k && s[p + i] == ']' && s[p + i + 1] == '('
    ensures GroupEnd(s, p, i)
  {
    var j :| p + k + 2 <= j < |s| && s[j] == ')' && '\n' !in s[p + k + 2..j];
    forall m | p + i + 2 <= m < j
      ensures s[m] != '\n'
    {
      if m < p + k {
        assert s[m] == s[p..p + k][m - p];
      } else if m >= p + k + 2 {
        assert s[m] == s[p + k + 2..j][m - (p + k + 2)];
      }
    }
    assert CloseAfter(s, p + i + 2);
    forall m | p <= m < p + i
      ensures s[m] != '\n'
    {
      assert s[m] == s[p..p + k][m - p];
    }
  }

  /** An extracted title never holds a newline, nor `](` (at the first
      `](` the lazy group would already have stopped). */
  lemma ExtractedTitleClean(s: string)
    ensures '\n' !in ExtractTitleFromMarkdown(s)
    ensures !Contains(ExtractTitleFromMarkdown(s), "](")
  {
    match TitleGroup(s)
    case Some((p, k)) => ShortestGroupClean(s, p, k);
    case None => UnknownTitleClean();
  }

  /** The shortest group holds no newline and no `](`. */
  lemma ShortestGroupClean(s: string, p: nat, k: nat)
    requires GroupEnd(s, p, k) && forall k': nat :: k' < k ==> !GroupEnd(s, p, k')
    ensures '\n' !in s[p..p + k] && !Contains(s[p..p + k], "](")
  {
    var t := s[p..p + k];
    if Contains(t, "](") {
      var i :| 0 <= i <= |t| - 2 && OccursAt(t, "](", i);
      assert t[i..i + 2] == "](";
      assert t[i] == t[i..i + 2][0] && t[i + 1] == t[i..i + 2][1];
      EarlierGroupEnd(s, p, k, i);
      assert false;
    }
  }

  lemma UnknownTitleClean()
    ensures '\n' !in UnknownTitle && !Contains(UnknownTitle, "](")
  {
    forall i | 0 <= i <= |UnknownTitle| - 2
      ensures !OccursAt(UnknownTitle, "](", i)
    {
      assert UnknownTitle[i] != ']';
    }
  }

  /** Reading the title back out of a link written as `[title](url)`
      gives the title, when neither holds a newline and the title holds
      no `](`. */
  lemma ExtractTitleRoundTrip(title: string, url: string)
    requires '\n' !in title && '\n' !in url && !Contains(title, "](")
    ensures ExtractTitleFromMarkdown("[" + title + "](" + url + ")") == title
  {
    var s := "[" + title + "](" + url + ")";
    var n := |title|;
    LinkParts(s, title, url);
    OwnGroupEnds(s, title, url);
    NoEarlierGroup(s, title, url);
    ExtractShortest(s, n);
  }

  /** The title read from a string with a shortest match. */
  lemma ExtractShortest(s: string, k: nat)
    requires TitleMatch(s, k) && forall k': nat :: k' < k ==> !TitleMatch(s, k')
    ensures ExtractTitleFromMarkdown(s) == s[Indent(s) + 1..Indent(s) + 1 + k]
  {
    match TitleGroup(s)
    case Some((p, k0)) => ShortestMatch(s, p, k0);
    case None => assert false;
  }

  /** Where the pieces of `[title](url)` sit. */
  lemma LinkParts(s: string, title: string, url: string)
    requires s == "[" + title + "](" + url + ")"
    ensures |s| == |title| + |url| + 4 && Indent(s) == 0
    ensures s[0] == '[' && s[|title| + 1] == ']' && s[|title| + 2] == '(' && s[|s| - 1] == ')'
    ensures s[1..1 + |title|] == title && s[|title| + 3..|s| - 1] == url
  {
    assert !IsSpace(s[0]);
  }

  /** The group of `[title](url)` can end right after the title. */
  lemma OwnGroupEnds(s: string, title: string, url: string)
    requires s == "[" + title + "](" + url + ")" && '\n' !in title && '\n' !in url
    ensures TitleMatch(s, |title|)
  {
    var n := |title|;
    LinkParts(s, title, url);
    assert s[n + 3..|s| - 1] == url;
    assert CloseAfter(s, n + 3);
    assert s[1..1 + n] == title;
    assert GroupEnd(s, 1, n);
  }

  /** No shorter group of `[title](url)` can end when the title holds no
      `](`. */
  lemma NoEarlierGroup(s: string, title: string, url: string)
    requires s == "[" + title + "](" + url + ")" && !Contains(title, "](")
    ensures forall k: nat :: k < |title| ==> !TitleMatch(s, k)
  {
    var n := |title|;
    LinkParts(s, title, url);
    forall k: nat | k < n
      ensures !TitleMatch(s, k)
    {
      assert s[1 + k] == s[1..1 + n][k] == title[k];
      if k + 1 < n {
        assert s[2 + k] == s[1..1 + n][k + 1] == title[k + 1];
        assert !OccursAt(title, "](", k);
        assert title[k..k + 2] == [title[k], title[k + 1]];
      }
    }
  }

  /** The title is a piece of its input or `Unknown Title`, so a character
      in neither cannot appear in it. */
  lemma ExtractNoChar(s: string, c: char)
    requires c !in s && c !in UnknownTitle
    ensures c !in ExtractTitleFromMarkdown(s)
  {
    match TitleGroup(s)
    case Some((p, k)) =>
      assert forall x :: x in s[p..p + k] ==> x in s;
    case None =>
  }

}
