/**
  The line patterns of a requirements file. Each regular expression of
  requirement.go:33-38 becomes an explicit predicate or matcher here, and
  `Classify` puts them in the order the parse loop tries them.
 */
module Lines {
  import opened Strings

  datatype Option<T> = None | Some(value: T)

  /** The fence that opens and closes a code block. */
  const CodeFence := "```"

  /** The four nested sections a requirement can have. */
  datatype Section = Docs | Repos | Todos | Branches

  /** Accepted spellings of each section label, as data (lower case, as in the patterns). */
  const DocLabels: seq<string> := ["文档", "需求", "doc", "docs", "documents", "documentation", "documentations"]
  const RepoLabels: seq<string> := ["服务", "代码仓库", "服务列表", "服务", "service", "services", "repo", "repos", "repository", "repositories"]
  const BranchLabels: seq<string> := ["分支", "branch", "branches"]
  const TodoLabels: seq<string> := ["待办", "todo", "todos"]

  /**
    Case folding of the `(?i)` flag, seen from a lower-case pattern letter: the
    ASCII capitals, and the two non-ASCII letters whose simple case folding
    orbit reaches an ASCII letter (U+017F LONG S and U+212A KELVIN SIGN).
   */
  function Fold(c: char): (f: char)
    ensures 'A' <= c <= 'Z' ==> f as int == c as int + 32
    ensures !('A' <= c <= 'Z') && c != '\U{017F}' && c != '\U{212A}' ==> f == c
  {
    if 'A' <= c <= 'Z' then (c as int + 32) as char
    else if c == '\U{017F}' then 's'
    else if c == '\U{212A}' then 'k'
    else c
  }

  /** `s` starts with `p`, letters compared as under `(?i)`. */
  predicate FoldPrefix(s: string, p: string) {
    |p| <= |s| && forall k :: 0 <= k < |p| ==> Fold(s[k]) == p[k]
  }

  /** `(?i)^ {2}- (label|...):` — a two-space section header naming one of `labels`. */
  predicate IsHeader(l: string, labels: seq<string>) {
    HasPrefix(l, "  - ") && exists k :: 0 <= k < |labels| && FoldPrefix(l[4..], labels[k] + ":")
  }

  /** Every character of `key` is a lower-case ASCII letter or lies at U+3000 or above (the CJK labels). */
  predicate Lowercase(key: string) {
    forall m :: 0 <= m < |key| ==> 'a' <= key[m] <= 'z' || key[m] as int >= 0x3000
  }

  /** `u` is `key` with any of its ASCII letters written in upper case. */
  predicate SpeltUpToCase(u: string, key: string) {
    |u| == |key| &&
    forall m :: 0 <= m < |u| ==> u[m] == key[m] || ('a' <= key[m] <= 'z' && u[m] as int == key[m] as int - 32)
  }

  /** Under `(?i)` a header names a lower-case label whatever the case of its letters, and whatever follows the colon. */
  lemma HeaderIgnoresCase(u: string, t: string, labels: seq<string>, k: nat)
    requires k < |labels| && Lowercase(labels[k]) && SpeltUpToCase(u, labels[k])
    ensures IsHeader("  - " + u + ":" + t, labels)
  {
    var l := "  - " + u + ":" + t;
    var key := labels[k] + ":";
    assert l[..4] == "  - ";
    assert l[4..] == u + ":" + t;
    forall m | 0 <= m < |key|
      ensures Fold(l[4..][m]) == key[m]
    {
      if m < |u| {
        assert l[4..][m] == u[m];
      } else {
        assert l[4..][m] == ':';
      }
    }
  }

  /** Every label of the four sections is spelt in lower case. */
  lemma LabelsLowercase()
    ensures forall x | x in DocLabels :: Lowercase(x)
    ensures forall x | x in RepoLabels :: Lowercase(x)
    ensures forall x | x in BranchLabels :: Lowercase(x)
    ensures forall x | x in TodoLabels :: Lowercase(x)
  {
  }

  /** A docs header is recognised in any ASCII case: `  - DOCS:`, `  - Documentation:`. */
  lemma DocsHeaderIgnoresCase(u: string, t: string, k: nat)
    requires k < |DocLabels| && SpeltUpToCase(u, DocLabels[k])
    ensures IsHeader("  - " + u + ":" + t, DocLabels)
  {
    LabelsLowercase();
    assert DocLabels[k] in DocLabels;
    HeaderIgnoresCase(u, t, DocLabels, k);
  }

  /** A repositories header is recognised in any ASCII case. */
  lemma ReposHeaderIgnoresCase(u: string, t: string, k: nat)
    requires k < |RepoLabels| && SpeltUpToCase(u, RepoLabels[k])
    ensures IsHeader("  - " + u + ":" + t, RepoLabels)
  {
    LabelsLowercase();
    assert RepoLabels[k] in RepoLabels;
    HeaderIgnoresCase(u, t, RepoLabels, k);
  }

  /** A branches header is recognised in any ASCII case. */
  lemma BranchesHeaderIgnoresCase(u: string, t: string, k: nat)
    requires k < |BranchLabels| && SpeltUpToCase(u, BranchLabels[k])
    ensures IsHeader("  - " + u + ":" + t, BranchLabels)
  {
    LabelsLowercase();
    assert BranchLabels[k] in BranchLabels;
    HeaderIgnoresCase(u, t, BranchLabels, k);
  }

  /** A todos header is recognised in any ASCII case. */
  lemma TodosHeaderIgnoresCase(u: string, t: string, k: nat)
    requires k < |TodoLabels| && SpeltUpToCase(u, TodoLabels[k])
    ensures IsHeader("  - " + u + ":" + t, TodoLabels)
  {
    LabelsLowercase();
    assert TodoLabels[k] in TodoLabels;
    HeaderIgnoresCase(u, t, TodoLabels, k);
  }

  /** `Todos` spelt `TODOS` opens the todo section's pattern. */
  lemma UpperCaseTodos()
    ensures IsHeader("  - TODOS:", TodoLabels)
  {
    var u := "TODOS";
    assert SpeltUpToCase(u, TodoLabels[2]);
    assert "  - TODOS:" == "  - " + u + ":" + "";
    TodosHeaderIgnoresCase(u, "", 2);
  }

  /** The characters allowed between the brackets of a title: `[\* Xx]`. */
  predicate IsBoxChar(c: char) {
    c == '*' || c == ' ' || c == 'X' || c == 'x'
  }

  /** The end of the run of checkbox characters starting at `k`. */
  function BoxEnd(l: string, k: nat): (e: nat)
    requires k <= |l|
    ensures k <= e <= |l|
    decreases |l| - k
  {
    if k < |l| && IsBoxChar(l[k]) then BoxEnd(l, k + 1) else k
  }

  /** The run ends at the first character that is not a checkbox character. */
  lemma {:induction false} BoxEndStops(l: string, k: nat)
    requires k <= |l|
    ensures forall m :: k <= m < BoxEnd(l, k) ==> IsBoxChar(l[m])
    ensures BoxEnd(l, k) < |l| ==> !IsBoxChar(l[BoxEnd(l, k)])
    decreases |l| - k
  {
    if k < |l| && IsBoxChar(l[k]) {
      BoxEndStops(l, k + 1);
    }
  }

  /** The pattern ` *` : leading spaces dropped. */
  function DropSpaces(s: string): (r: string)
    ensures |r| <= |s|
  {
    if |s| > 0 && s[0] == ' ' then DropSpaces(s[1..]) else s
  }

  /** `DropSpaces` removes exactly the leading run of spaces. */
  lemma {:induction false} DropSpacesDrops(s: string)
    ensures DropSpaces(s) == s[|s| - |DropSpaces(s)|..]
    ensures DropSpaces(s) == [] || DropSpaces(s)[0] != ' '
    ensures forall k :: 0 <= k < |s| - |DropSpaces(s)| ==> s[k] == ' '
  {
    if |s| > 0 && s[0] == ' ' {
      DropSpacesDrops(s[1..]);
    }
  }

  /** The pattern `(.*)`: `.` matches everything except a newline. */
  function UpToNewline(s: string): (r: string)
    ensures |r| <= |s|
  {
    if s == [] || s[0] == '\n' then [] else [s[0]] + UpToNewline(s[1..])
  }

  /** `UpToNewline` keeps the longest prefix without a newline. */
  lemma {:induction false} UpToNewlineStops(s: string)
    ensures HasPrefix(s, UpToNewline(s)) && '\n' !in UpToNewline(s)
    ensures UpToNewline(s) == s || s[|UpToNewline(s)|] == '\n'
    ensures '\n' !in s ==> UpToNewline(s) == s
  {
    if s != [] && s[0] != '\n' {
      UpToNewlineStops(s[1..]);
    }
  }

  /** What a trailing ` *(.*)` captures. */
  function Rest(s: string): string {
    UpToNewline(DropSpaces(s))
  }

  /** The two capture groups of the title pattern. */
  datatype TitleMatch = TitleMatch(box: string, text: string)

  /** `(?i)^- \[([\* Xx]*)\] *(.*)` — the brackets are part of the pattern. */
  function MatchTitle(l: string): Option<TitleMatch> {
    if HasPrefix(l, "- [") then
      var e := BoxEnd(l, 3);
      if e < |l| && l[e] == ']' then Some(TitleMatch(l[3..e], Rest(l[e + 1..])))
      else None
    else None
  }

  /** A match is the prefix `- [`, a run of checkbox characters, `]`, and the captured rest. */
  lemma MatchTitleShape(l: string)
    requires MatchTitle(l).Some?
    ensures HasPrefix(l, "- [" + MatchTitle(l).value.box + "]")
    ensures forall k :: 0 <= k < |MatchTitle(l).value.box| ==> IsBoxChar(MatchTitle(l).value.box[k])
    ensures MatchTitle(l).value.text == Rest(l[|MatchTitle(l).value.box| + 4..])
  {
    var e := BoxEnd(l, 3);
    BoxEndStops(l, 3);
    assert l[..e + 1] == "- [" + l[3..e] + "]";
  }

  /** Every line made of `- [`, checkbox characters, `]` and anything is a title line. */
  lemma TitleLineMatches(box: string, rest: string)
    requires forall k :: 0 <= k < |box| ==> IsBoxChar(box[k])
    ensures MatchTitle("- [" + box + "]" + rest) == Some(TitleMatch(box, Rest(rest)))
  {
    var l := "- [" + box + "]" + rest;
    assert HasPrefix(l, "- [");
    assert forall m :: 3 <= m < 3 + |box| ==> l[m] == box[m - 3];
    assert l[3 + |box|] == ']';
    assert forall m :: 3 <= m < 3 + |box| ==> IsBoxChar(l[m]);
    var e := BoxEnd(l, 3);
    BoxEndStops(l, 3);
    assert e == 3 + |box|;
    assert l[3..e] == box;
    assert l[e + 1..] == rest;
  }

  /** `strings.TrimSpace(box) != ""` for a checkbox: some character other than a space. */
  lemma DoneIffMarked(box: string)
    requires forall k :: 0 <= k < |box| ==> IsBoxChar(box[k])
    ensures TrimSpace(box) != "" <==> !IsBlank(box)
    ensures !IsBlank(box) <==> exists k :: 0 <= k < |box| && box[k] in {'*', 'X', 'x'}
  {
    TrimSpaceFacts(box);
    if !IsBlank(box) {
      var k :| 0 <= k < |box| && !IsSpace(box[k]);
      assert box[k] in {'*', 'X', 'x'};
    }
  }

  /** Blank checkbox contents are not done; marked ones are. */
  lemma DoneExamples()
    ensures TrimSpace("") == "" && TrimSpace(" ") == ""
    ensures TrimSpace("x") != "" && TrimSpace("X") != "" && TrimSpace("*") != "" && TrimSpace("x ") != ""
  {
    assert IsSpace(" "[0]);
    assert IsBlank(" ");
    assert !IsSpace("x"[0]) && !IsSpace("X"[0]) && !IsSpace("*"[0]) && !IsSpace("x "[0]);
  }

  /** `^ {4}- *(.*)` — a four-space nested bullet and its text. */
  function MatchBullet(l: string): Option<string> {
    if HasPrefix(l, "    -") then Some(Rest(l[5..])) else None
  }

  /** How the parse loop sees one line. */
  datatype Line =
    | Skip                              // blank, or a `#` heading
    | Fence                             // opens a fenced code block
    | Title(box: string, text: string)  // starts a new requirement
    | Header(section: Section)          // switches the current section
    | Bullet(text: string)              // an entry for the current section
    | Plain                             // anything else

  /** The tests of the parse loop (requirement.go:118-163), in the order it applies them. */
  function Classify(l: string): Line {
    if HasPrefix(l, "#") || IsBlank(l) then Skip
    else if HasPrefix(l, CodeFence) then Fence
    else match MatchTitle(l)
      case Some(t) => Title(t.box, t.text)
      case None =>
        if IsHeader(l, DocLabels) then Header(Docs)
        else if IsHeader(l, RepoLabels) then Header(Repos)
        else if IsHeader(l, TodoLabels) then Header(Todos)
        else if IsHeader(l, BranchLabels) then Header(Branches)
        else match MatchBullet(l)
          case Some(t) => Bullet(t)
          case None => Plain
  }

  /**
    The docs rule: split on `:`, and keep the entry only when there is more
    than one token and the tokens after the first, joined, are not blank.
   */
  predicate KeepsDocEntry(text: string) {
    var tokens := Split(text, ':');
    |tokens| > 1 && !IsBlank(Join(tokens[1..], ""))
  }

  /** A docs entry is kept iff it has a colon and, after the first colon, some character that is neither white space nor a colon. */
  lemma KeepsDocEntryIff(key: string, value: string)
    requires ':' !in key
    ensures KeepsDocEntry(key + ":" + value) <==>
      exists k :: 0 <= k < |value| && value[k] != ':' && !IsSpace(value[k])
  {
    SplitConcat(key, ':', value);
    SplitOne(key, ':');
    var tokens := Split(key + ":" + value, ':');
    assert tokens[1..] == Split(value, ':');
    JoinSplitEmpty(value, ':');
    WithoutBlank(value, ':');
  }

  /** An entry without a colon is never kept. */
  lemma NoColonNotKept(text: string)
    requires ':' !in text
    ensures !KeepsDocEntry(text)
  {
    SplitOne(text, ':');
  }

  /** A docs entry with nothing after its colon is dropped. */
  lemma EmptyDocEntryDropped()
    ensures !KeepsDocEntry("技术文档:")
  {
    var key := "技术文档";
    KeepsDocEntryIff(key, "");
    assert key + ":" + "" == "技术文档:";
  }

  /** A docs entry with a value after its colon is kept. */
  lemma PresentDocEntryKept()
    ensures KeepsDocEntry("技术文档: http://x")
  {
    var key, value := "技术文档", " http://x";
    assert value[1] != ':' && !IsSpace(value[1]);
    KeepsDocEntryIff(key, value);
    assert key + ":" + value == "技术文档: http://x";
  }
}
