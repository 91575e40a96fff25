/**
  The entry that `-new` appends to the requirements file
  (requirement.go:64-88), and the round trip: parsing it back gives exactly
  one new requirement holding the name, the date, the repository and the
  branch it was written with.
 */
module Template {
  import opened Strings
  import opened Lines
  import opened Requirements
  import opened Parser
  import opened ParseFacts

  /** The `-name` flag, or `TODO` when it is blank (requirement.go:64-67). */
  function EntryName(name: string): (n: string)
    ensures !IsBlank(n)
    ensures !IsBlank(name) ==> n == name
    ensures IsBlank(name) ==> n == "TODO"
  {
    if IsBlank(name) then
      assert !IsSpace("TODO"[0]);
      "TODO"
    else name
  }

  /** The labels of the docs entries that the template leaves empty. */
  const Placeholders: seq<string> := ["需求地址", "技术文档", "需求文档", "发布单", "UI"]

  /**
    The lines of the appended text (requirement.go:68-83), with the name, the
    date `today`, the repository `repo` and the branch `branch` filled in.
   */
  function TemplateLines(name: string, today: string, repo: string, branch: string): seq<string> {
    ["", "- [ ] " + EntryName(name)] + BodyLines(today, repo, branch)
  }

  /** The lines after the title. */
  function BodyLines(today: string, repo: string, branch: string): seq<string> {
    DocsLines(today) + SectionLines(repo, branch)
  }

  /** The docs section: the date and the five placeholders. */
  function DocsLines(today: string): seq<string> {
    ["  - " + "文档:", "    - " + ("记录时间: " + today)]
    + seq(|Placeholders|, k requires 0 <= k < |Placeholders| => "    - " + (Placeholders[k] + ":"))
  }

  /** The repository, branch and todo sections and the closing line. */
  function SectionLines(repo: string, branch: string): seq<string> {
    [ "  - " + "服务:",
      "    - " + repo,
      "  - " + "分支:",
      "    - " + branch,
      "  - " + "待办:",
      "    - " + "[ ]",
      "  " ]
  }

  /** The appended text itself. */
  function TemplateText(name: string, today: string, repo: string, branch: string): string {
    Join(TemplateLines(name, today, repo, branch), "\n")
  }

  /** The requirement the template stands for. */
  function TemplateReq(name: string, today: string, repo: string, branch: string): Req {
    Req(false, NormalizeBrackets(DropSpaces(EntryName(name))),
        ["记录时间: " + today],
        if IsBlank(repo) then [] else [DropSpaces(repo)],
        if IsBlank(branch) then [] else [DropSpaces(branch)],
        ["[ ]"], [],
        false, false, true, false, -1, -1)
  }

  // How the parse loop sees each template line

  /** `- [ ] name` is a title with an unmarked box, named by the text after the spaces. */
  lemma TitleLine(name: string)
    requires '\n' !in name
    ensures Classify("- [ ] " + name) == Title(" ", DropSpaces(name))
  {
    var l := "- [ ] " + name;
    assert l == "- [" + " " + "]" + (" " + name);
    assert !HasPrefix(l, "#") && !HasPrefix(l, CodeFence) by {
      assert l[0] == '-';
    }
    TitleLineMatches(" ", " " + name);
    NoNewlineRest(name);
    assert !IsBlank(l) by {
      assert !IsSpace(l[0]);
    }
  }

  /** Leading spaces, then a text without newlines: `Rest` captures the text without the spaces. */
  lemma NoNewlineRest(x: string)
    requires '\n' !in x
    ensures Rest(" " + x) == DropSpaces(x) && Rest(x) == DropSpaces(x)
  {
    assert (" " + x)[1..] == x;
    assert DropSpaces(" " + x) == DropSpaces(x);
    NoNewlineDropped(x);
    UpToNewlineStops(DropSpaces(x));
  }

  /** Dropping leading spaces adds no newline. */
  lemma NoNewlineDropped(x: string)
    requires '\n' !in x
    ensures '\n' !in DropSpaces(x)
  {
    DropSpacesDrops(x);
    var d := DropSpaces(x);
    forall k | 0 <= k < |d|
      ensures d[k] != '\n'
    {
      assert d[k] == x[|x| - |d| + k];
    }
  }

  /** `    - x` is a bullet whose text is `x` without its leading spaces. */
  lemma BulletLine(x: string)
    requires '\n' !in x
    ensures Classify("    - " + x) == Bullet(DropSpaces(x))
  {
    var l := "    - " + x;
    assert !IsBlank(l) by {
      assert !IsSpace(l[4]);
    }
    assert !HasPrefix(l, "#") && !HasPrefix(l, CodeFence) && !HasPrefix(l, "- [") && !HasPrefix(l, "  - ") by {
      assert l[0] == ' ' && l[2] == ' ';
    }
    assert l[5..] == " " + x;
    NoNewlineRest(x);
  }

  /** No label of `labels`, followed by its colon, starts with `c`. */
  predicate NoLabelStarts(labels: seq<string>, c: char) {
    forall x | x in labels :: (x + ":")[0] != c
  }

  /** A line whose label starts with a character no label starts with is no header of those labels. */
  lemma NotHeader(l: string, labels: seq<string>)
    requires |l| > 4 && NoLabelStarts(labels, Fold(l[4]))
    ensures !IsHeader(l, labels)
  {
    forall k | 0 <= k < |labels|
      ensures !FoldPrefix(l[4..], labels[k] + ":")
    {
      assert labels[k] in labels;
      assert l[4..][0] == l[4];
    }
  }

  /** `  - key:` with the first label of `labels` spelt as it is is a header of those labels. */
  lemma IsHeaderOf(key: string, labels: seq<string>)
    requires labels != [] && labels[0] == key
    requires forall k :: 0 <= k < |key| ==> 'a' <= key[k] <= 'z' || key[k] as int >= 0x3000
    ensures IsHeader("  - " + key + ":", labels)
  {
    var l := "  - " + key + ":";
    assert l[..4] == "  - ";
    assert l[4..] == key + ":";
    assert FoldPrefix(l[4..], labels[0] + ":");
  }

  /** The line that does not start with `  - `, `#`, a fence or a title, and is not blank. */
  lemma HeaderLineShape(key: string)
    requires key != []
    ensures var l := "  - " + key + ":";
      !IsBlank(l) && !HasPrefix(l, "#") && !HasPrefix(l, CodeFence) && MatchTitle(l).None? && |l| > 4 && l[4] == key[0]
  {
    var l := "  - " + key + ":";
    assert !IsSpace(l[2]) && l[0] == ' ';
  }

  lemma DocsLine()
    ensures Classify("  - " + "文档:") == Header(Docs)
  {
    assert "  - " + "文档:" == "  - " + "文档" + ":";
    HeaderLineShape("文档");
    IsHeaderOf("文档", DocLabels);
  }

  lemma ReposLine()
    ensures Classify("  - " + "服务:") == Header(Repos)
  {
    assert "  - " + "服务:" == "  - " + "服务" + ":";
    HeaderLineShape("服务");
    NotHeader("  - " + "服务:", DocLabels);
    IsHeaderOf("服务", RepoLabels);
  }

  lemma BranchesLine()
    ensures Classify("  - " + "分支:") == Header(Branches)
  {
    assert "  - " + "分支:" == "  - " + "分支" + ":";
    HeaderLineShape("分支");
    NotHeader("  - " + "分支:", DocLabels);
    NotHeader("  - " + "分支:", RepoLabels);
    NotHeader("  - " + "分支:", TodoLabels);
    IsHeaderOf("分支", BranchLabels);
  }

  lemma TodosLine()
    ensures Classify("  - " + "待办:") == Header(Todos)
  {
    assert "  - " + "待办:" == "  - " + "待办" + ":";
    HeaderLineShape("待办");
    NotHeader("  - " + "待办:", DocLabels);
    NotHeader("  - " + "待办:", RepoLabels);
    IsHeaderOf("待办", TodoLabels);
  }

  // How the parse loop sees the lines after the title

  /** The docs header, the date and the five empty placeholders. */
  function DocsKinds(today: string): seq<Line> {
    [Header(Docs), Bullet("记录时间: " + today)] + PlaceholderKinds()
  }

  /** The five placeholders: bullets of a label and a colon. */
  function PlaceholderKinds(): seq<Line> {
    seq(|Placeholders|, k requires 0 <= k < |Placeholders| => Bullet(Placeholders[k] + ":"))
  }

  /** The placeholder labels start with no space and hold neither a colon nor a newline. */
  lemma PlaceholdersPlain()
    ensures forall p | p in Placeholders :: p != [] && p[0] != ' ' && ':' !in p && '\n' !in p
  {
  }

  /** The repository, branch and todo sections and the closing blank line. */
  function SectionKinds(repo: string, branch: string): seq<Line> {
    [ Header(Repos), Bullet(DropSpaces(repo)), Header(Branches), Bullet(DropSpaces(branch)),
      Header(Todos), Bullet("[ ]"), Skip ]
  }

  /** A bullet whose text starts with no space: its text is taken as it is. */
  lemma PlainBulletLine(x: string)
    requires x != [] && x[0] != ' ' && '\n' !in x
    ensures Classify("    - " + x) == Bullet(x)
  {
    BulletLine(x);
  }

  /** A placeholder line: its text is the label and the colon. */
  lemma PlaceholderLine(p: string)
    requires p != [] && p[0] != ' ' && '\n' !in p
    ensures Classify("    - " + (p + ":")) == Bullet(p + ":")
  {
    assert '\n' !in p + ":";
    PlainBulletLine(p + ":");
  }

  /** A line of spaces is skipped. */
  lemma BlankLine(l: string)
    requires forall k :: 0 <= k < |l| ==> l[k] == ' '
    ensures Classify(l) == Skip
  {
    assert forall k :: 0 <= k < |l| ==> IsSpace(l[k]);
  }

  /** How the parse loop sees the line `k` after the title. */
  function BodyKinds(today: string, repo: string, branch: string): seq<Line> {
    DocsKinds(today) + SectionKinds(repo, branch)
  }

  /** Line `k` after the title is classified as `BodyKinds` says, and is neither a title nor a fence. */
  lemma BodyLineClassified(today: string, repo: string, branch: string, k: nat)
    requires '\n' !in today && '\n' !in repo && '\n' !in branch && k < 14
    ensures var ks := BodyKinds(today, repo, branch);
      k < |ks| && Classify(BodyLines(today, repo, branch)[k]) == ks[k] && InBody(ks[k])
  {
    var ks, ls := BodyKinds(today, repo, branch), BodyLines(today, repo, branch);
    if k < 7 {
      assert ks[k] == DocsKinds(today)[k] && ls[k] == DocsLines(today)[k];
      DocsLineClassified(today, k);
    } else {
      assert ks[k] == SectionKinds(repo, branch)[k - 7] && ls[k] == SectionLines(repo, branch)[k - 7];
      SectionLineClassified(repo, branch, k - 7);
    }
  }

  lemma DocsLineClassified(today: string, k: nat)
    requires '\n' !in today && k < 7
    ensures Classify(DocsLines(today)[k]) == DocsKinds(today)[k] && InBody(DocsKinds(today)[k])
  {
    if k == 0 {
      DocsLine();
    } else if k == 1 {
      assert '\n' !in "记录时间: " + today;
      PlainBulletLine("记录时间: " + today);
    } else {
      PlaceholderLineClassified(today, k);
    }
  }

  lemma PlaceholderLineClassified(today: string, k: nat)
    requires 2 <= k < 7
    ensures Classify(DocsLines(today)[k]) == DocsKinds(today)[k] && InBody(DocsKinds(today)[k])
  {
    var p := Placeholders[k - 2];
    PlaceholdersPlain();
    assert p in Placeholders;
    assert DocsLines(today)[k] == "    - " + (p + ":");
    assert DocsKinds(today)[k] == Bullet(p + ":");
    PlaceholderLine(p);
  }

  lemma SectionLineClassified(repo: string, branch: string, k: nat)
    requires '\n' !in repo && '\n' !in branch && k < 7
    ensures Classify(SectionLines(repo, branch)[k]) == SectionKinds(repo, branch)[k]
    ensures InBody(SectionKinds(repo, branch)[k])
  {
    if k == 0 {
      ReposLine();
    } else if k == 1 {
      BulletLine(repo);
    } else if k == 2 {
      BranchesLine();
    } else if k == 3 {
      BulletLine(branch);
    } else if k == 4 {
      TodosLine();
    } else if k == 5 {
      PlainBulletLine("[ ]");
    } else {
      BlankLine("  ");
    }
  }

  // The requirement those lines build

  lemma ApplyAllFirst(r: Req, kinds: seq<Line>)
    requires kinds != []
    ensures ApplyAll(r, kinds) == ApplyAll(Apply(r, kinds[0]), kinds[1..])
  {
  }

  lemma {:induction false} ApplyAllConcat(r: Req, a: seq<Line>, b: seq<Line>)
    ensures ApplyAll(r, a + b) == ApplyAll(ApplyAll(r, a), b)
    decreases |a|
  {
    if a != [] {
      assert (a + b)[1..] == a[1..] + b;
      ApplyAllConcat(Apply(r, a[0]), a[1..], b);
    } else {
      assert a + b == b;
    }
  }

  /** A dated docs section keeps the date entry and drops the empty placeholders. */
  lemma DocsApplied(r: Req, today: string)
    requires exists k :: 0 <= k < |today| && today[k] != ':' && !IsSpace(today[k])
    ensures ApplyAll(r, DocsKinds(today)) == Entered(r, Docs).(docs := r.docs + ["记录时间: " + today])
  {
    var ks := DocsKinds(today);
    var entry := "记录时间: " + today;
    var key := "记录时间";
    assert entry == key + ":" + (" " + today);
    var t :| 0 <= t < |today| && today[t] != ':' && !IsSpace(today[t]);
    assert (" " + today)[t + 1] == today[t];
    KeepsDocEntryIff(key, " " + today);
    var r1 := Entered(r, Docs);
    var r2 := r1.(docs := r.docs + [entry]);
    assert !IsBlank(entry) by {
      assert !IsSpace(entry[0]);
    }
    assert Apply(r1, ks[1]) == r2;
    ApplyAllFirst(r, ks);
    ApplyAllFirst(r1, ks[1..]);
    assert ks[1..][1..] == PlaceholderKinds();
    PlaceholdersDropped(r2);
  }

  /** The five placeholders, each a label and a colon with nothing after it, leave a docs section as it is. */
  lemma PlaceholdersDropped(r: Req)
    requires r.inDoc
    ensures ApplyAll(r, PlaceholderKinds()) == r
  {
    var rest := PlaceholderKinds();
    PlaceholdersPlain();
    forall k | 0 <= k < |rest|
      ensures Apply(r, rest[k]) == r
    {
      var p := Placeholders[k];
      assert p in Placeholders;
      KeepsDocEntryIff(p, "");
      assert p + ":" + "" == p + ":";
      assert !IsBlank(p + ":") by {
        assert !IsSpace((p + ":")[|p|]);
      }
    }
    var k := 0;
    while k < |rest|
      invariant k <= |rest| && ApplyAll(r, rest) == ApplyAll(r, rest[k..])
    {
      ApplyAllFirst(r, rest[k..]);
      assert rest[k..][1..] == rest[k + 1..];
      k := k + 1;
    }
  }

  /** Leading spaces do not make a text blank or not. */
  lemma DropSpacesBlank(s: string)
    ensures IsBlank(DropSpaces(s)) <==> IsBlank(s)
  {
    DropSpacesDrops(s);
    var d := DropSpaces(s);
    assert forall k :: 0 <= k < |d| ==> d[k] == s[|s| - |d| + k];
    assert forall k :: 0 <= k < |s| - |d| ==> IsSpace(s[k]);
  }

  /** The entry a bullet stores, if any: its text unless it is blank. */
  function Stored(text: string): seq<string> {
    if IsBlank(text) then [] else [text]
  }

  /** One section header and a bullet: the bullet is stored unless it is blank. */
  lemma SectionApplied(r: Req, sec: Section, text: string)
    requires sec != Docs
    ensures var e := Entered(r, sec);
      ApplyAll(r, [Header(sec), Bullet(text)]) == if IsBlank(text) then e else Appended(e, sec, text)
  {
    var ks := [Header(sec), Bullet(text)];
    ApplyAllFirst(r, ks);
    ApplyAllFirst(Entered(r, sec), ks[1..]);
    assert ks[1..][1..] == [];
  }

  lemma ReposApplied(r: Req, text: string)
    ensures ApplyAll(r, [Header(Repos), Bullet(text)]) ==
      r.(inDoc := false, inRepos := true, inTodos := false, inBranches := false, repos := r.repos + Stored(text))
  {
    SectionApplied(r, Repos, text);
  }

  lemma BranchesApplied(r: Req, text: string)
    ensures ApplyAll(r, [Header(Branches), Bullet(text)]) ==
      r.(inDoc := false, inRepos := false, inTodos := false, inBranches := true, branches := r.branches + Stored(text))
  {
    SectionApplied(r, Branches, text);
  }

  lemma TodosApplied(r: Req, text: string)
    ensures ApplyAll(r, [Header(Todos), Bullet(text)]) ==
      r.(inDoc := false, inRepos := false, inTodos := true, inBranches := false, todos := r.todos + Stored(text))
  {
    SectionApplied(r, Todos, text);
  }

  /** The sections, each a header and a bullet, apply one after the other; the blank line changes nothing. */
  lemma SectionsInOrder(r: Req, repo: string, branch: string)
    ensures var a, b, c := [Header(Repos), Bullet(DropSpaces(repo))], [Header(Branches), Bullet(DropSpaces(branch))], [Header(Todos), Bullet("[ ]")];
      ApplyAll(r, SectionKinds(repo, branch)) == ApplyAll(ApplyAll(ApplyAll(r, a), b), c)
  {
    var a := [Header(Repos), Bullet(DropSpaces(repo))];
    var b := [Header(Branches), Bullet(DropSpaces(branch))];
    var c := [Header(Todos), Bullet("[ ]")];
    assert SectionKinds(repo, branch) == a + b + c + [Skip];
    ApplyAllConcat(r, a + b + c, [Skip]);
    ApplyAllConcat(r, a + b, c);
    ApplyAllConcat(r, a, b);
    ApplyAllFirst(ApplyAll(r, a + b + c), [Skip]);
    assert [Skip][1..] == [];
  }

  /** The repository, branch and todo sections store what is not blank and leave the todo section active. */
  lemma SectionsApplied(r: Req, repo: string, branch: string)
    ensures ApplyAll(r, SectionKinds(repo, branch)) ==
      r.(inDoc := false, inRepos := false, inTodos := true, inBranches := false,
         repos := r.repos + (if IsBlank(repo) then [] else [DropSpaces(repo)]),
         branches := r.branches + (if IsBlank(branch) then [] else [DropSpaces(branch)]),
         todos := r.todos + ["[ ]"])
  {
    SectionsInOrder(r, repo, branch);
    DropSpacesBlank(repo);
    ReposApplied(r, DropSpaces(repo));
    var r1 := ApplyAll(r, [Header(Repos), Bullet(DropSpaces(repo))]);
    DropSpacesBlank(branch);
    BranchesApplied(r1, DropSpaces(branch));
    var r2 := ApplyAll(r1, [Header(Branches), Bullet(DropSpaces(branch))]);
    TodosApplied(r2, "[ ]");
    assert !IsBlank("[ ]") by {
      assert !IsSpace("[ ]"[0]);
    }
  }

  // The whole template

  /** A skipped line leaves the requirements as they are. */
  lemma SkipTurn(lines: seq<string>, i: nat, acc: seq<Req>)
    requires i < |lines| && Classify(lines[i]) == Skip
    ensures ParseFrom(lines, i, acc) == ParseFrom(lines, i + 1, acc)
  {
    ParseFromStep(lines, i, acc, Step(lines, i, acc));
  }

  /** A title line appends the requirement it creates. */
  lemma TitleTurn(lines: seq<string>, i: nat, acc: seq<Req>, box: string, text: string)
    requires i < |lines| && Classify(lines[i]) == Title(box, text)
    ensures ParseFrom(lines, i, acc) == ParseFrom(lines, i + 1, acc + [Created(box, text)])
  {
    OnLineTitle(lines, i, acc);
    ParseFromStep(lines, i, acc, Step(lines, i, acc));
  }

  /** The value the lines after the title give to the new requirement. */
  lemma BodyApplied(name: string, today: string, repo: string, branch: string)
    requires exists k :: 0 <= k < |today| && today[k] != ':' && !IsSpace(today[k])
    ensures ApplyAll(Created(" ", DropSpaces(EntryName(name))), BodyKinds(today, repo, branch)) ==
      TemplateReq(name, today, repo, branch)
  {
    var r := Created(" ", DropSpaces(EntryName(name)));
    assert IsBlank(" ") by {
      assert IsSpace(" "[0]);
    }
    ApplyAllConcat(r, DocsKinds(today), SectionKinds(repo, branch));
    DocsApplied(r, today);
    SectionsApplied(ApplyAll(r, DocsKinds(today)), repo, branch);
  }

  /**
    The round trip of `-new`: once the parse reaches the appended text, with
    `acc` parsed before it, it ends with one more requirement, the one the
    template stands for.
   */
  lemma TemplateRoundTrip(name: string, today: string, repo: string, branch: string, acc: seq<Req>)
    requires '\n' !in name && '\n' !in today && '\n' !in repo && '\n' !in branch
    requires exists k :: 0 <= k < |today| && today[k] != ':' && !IsSpace(today[k])
    ensures ParseFrom(TemplateLines(name, today, repo, branch), 0, acc) == Parsed(acc + [TemplateReq(name, today, repo, branch)])
  {
    var ls := TemplateLines(name, today, repo, branch);
    var body := BodyLines(today, repo, branch);
    var kinds := BodyKinds(today, repo, branch);
    var n := EntryName(name);
    assert '\n' !in n;
    BlankLine(ls[0]);
    SkipTurn(ls, 0, acc);
    TitleLine(n);
    TitleTurn(ls, 1, acc, " ", DropSpaces(n));
    forall k | 0 <= k < |kinds|
      ensures Classify(ls[2 + k]) == kinds[k] && InBody(kinds[k])
    {
      BodyLineClassified(today, repo, branch, k);
      assert ls[2 + k] == body[k];
    }
    assert BodyFrom(ls, 2, kinds);
    ParseBody(ls, 2, kinds, acc, Created(" ", DropSpaces(n)));
    BodyApplied(name, today, repo, branch);
  }

  /** A text that starts with no space keeps its leading part. */
  lemma NoLeadingSpace(s: string)
    requires s == [] || s[0] != ' '
    ensures DropSpaces(s) == s
  {
  }

  /**
    The name the new requirement gets: `TODO` for a blank `-name`, and the
    name itself when it starts with no space and holds no fullwidth bracket.
   */
  lemma TemplateName(name: string, today: string, repo: string, branch: string)
    ensures IsBlank(name) ==> TemplateReq(name, today, repo, branch).name == "TODO"
    ensures !IsBlank(name) && name[0] != ' ' && NoFullwidthBrackets(name) ==>
      TemplateReq(name, today, repo, branch).name == name
  {
    NoLeadingSpace(if IsBlank(name) then "TODO" else if name != [] && name[0] != ' ' then name else []);
    assert NoFullwidthBrackets("TODO");
  }

  /** No line of the template holds a newline when the filled-in values hold none. */
  lemma TemplateLineNoNewline(name: string, today: string, repo: string, branch: string, k: nat)
    requires '\n' !in name && '\n' !in today && '\n' !in repo && '\n' !in branch
    requires k < |TemplateLines(name, today, repo, branch)|
    ensures '\n' !in TemplateLines(name, today, repo, branch)[k]
  {
    var ls := TemplateLines(name, today, repo, branch);
    if k == 1 {
      assert '\n' !in EntryName(name);
    } else if 2 <= k < 9 {
      assert ls[k] == DocsLines(today)[k - 2];
      if k >= 4 {
        PlaceholdersPlain();
        assert Placeholders[k - 4] in Placeholders;
        assert DocsLines(today)[k - 2] == "    - " + (Placeholders[k - 4] + ":");
      }
    } else if k >= 9 {
      assert ls[k] == SectionLines(repo, branch)[k - 9];
    }
  }

  /**
    The template on its own, as the text of a file: split into lines and
    parsed, it gives exactly the requirement it stands for.
   */
  lemma TemplateTextRoundTrip(name: string, today: string, repo: string, branch: string)
    requires '\n' !in name && '\n' !in today && '\n' !in repo && '\n' !in branch
    requires exists k :: 0 <= k < |today| && today[k] != ':' && !IsSpace(today[k])
    ensures ParseLines(Split(TemplateText(name, today, repo, branch), '\n')) == Parsed([TemplateReq(name, today, repo, branch)])
  {
    var ls := TemplateLines(name, today, repo, branch);
    forall k | 0 <= k < |ls|
      ensures '\n' !in ls[k]
    {
      TemplateLineNoNewline(name, today, repo, branch, k);
    }
    SplitJoin(ls, '\n');
    TemplateRoundTrip(name, today, repo, branch, []);
    assert [] + [TemplateReq(name, today, repo, branch)] == [TemplateReq(name, today, repo, branch)];
  }

  /** No template line holds a `#` when the filled-in values hold none. */
  lemma TemplateLineNoHash(name: string, today: string, repo: string, branch: string, k: nat)
    requires '#' !in name && '#' !in today && '#' !in repo && '#' !in branch
    requires k < |TemplateLines(name, today, repo, branch)|
    ensures '#' !in TemplateLines(name, today, repo, branch)[k]
  {
    var ls := TemplateLines(name, today, repo, branch);
    if k == 1 {
      assert '#' !in EntryName(name);
    } else if 2 <= k < 9 {
      assert ls[k] == DocsLines(today)[k - 2];
      if k >= 4 {
        assert Placeholders[k - 4] in Placeholders;
        assert DocsLines(today)[k - 2] == "    - " + (Placeholders[k - 4] + ":");
      }
    } else if k >= 9 {
      assert ls[k] == SectionLines(repo, branch)[k - 9];
    }
  }

  /** The appended text holds no `#` when the filled-in values hold none, so it holds no marker either. */
  lemma TemplateTextNoMarker(name: string, today: string, repo: string, branch: string)
    requires '#' !in name && '#' !in today && '#' !in repo && '#' !in branch
    ensures IndexOf(TemplateText(name, today, repo, branch), Marker) == -1
  {
    var ls := TemplateLines(name, today, repo, branch);
    forall k | 0 <= k < |ls|
      ensures '#' !in ls[k]
    {
      TemplateLineNoHash(name, today, repo, branch, k);
    }
    JoinLacks(ls, "\n", '#');
    AbsentHeadNotFound(TemplateText(name, today, repo, branch), Marker);
  }

  /**
    The template read back as the whole file (requirement.go:92-109): there is
    no marker to cut at, and splitting and parsing give exactly the requirement
    it stands for.
   */
  lemma TemplateFileRoundTrip(name: string, today: string, repo: string, branch: string)
    requires '\n' !in name && '\n' !in today && '\n' !in repo && '\n' !in branch
    requires '#' !in name && '#' !in today && '#' !in repo && '#' !in branch
    requires exists k :: 0 <= k < |today| && today[k] != ':' && !IsSpace(today[k])
    ensures ParseText(TemplateText(name, today, repo, branch)) == Parsed([TemplateReq(name, today, repo, branch)])
  {
    TemplateTextNoMarker(name, today, repo, branch);
    TemplateTextRoundTrip(name, today, repo, branch);
  }

  /**
    Appending the template to a file: the text opens with a newline, so the
    file's lines are followed by the template lines after the first.
   */
  lemma AppendedLines(file: string, name: string, today: string, repo: string, branch: string)
    requires '\n' !in name && '\n' !in today && '\n' !in repo && '\n' !in branch
    ensures Split(file + TemplateText(name, today, repo, branch), '\n')
      == Split(file, '\n') + TemplateLines(name, today, repo, branch)[1..]
  {
    var ls := TemplateLines(name, today, repo, branch);
    var rest := ls[1..];
    forall k | 0 <= k < |rest|
      ensures '\n' !in rest[k]
    {
      TemplateLineNoNewline(name, today, repo, branch, k + 1);
    }
    assert ls[0] == "" && |ls| > 2;
    assert TemplateText(name, today, repo, branch) == "\n" + Join(rest, "\n");
    assert file + TemplateText(name, today, repo, branch) == file + ['\n'] + Join(rest, "\n");
    SplitConcat(file, '\n', Join(rest, "\n"));
    SplitJoin(rest, '\n');
  }

  /**
    Appending the template to a file whose last line closes a code block, with
    no newline after it: the entry's title is the line right after the closing
    fence, which the loop never reads (requirement.go:135). The parse is that of
    a blank line in its place, so no new requirement starts there and the
    entry's sections go to the requirement before it.
   */
  lemma AppendedAfterClosingFence(lines: seq<string>, i: nat, name: string, today: string, repo: string, branch: string, acc: seq<Req>)
    requires i + 1 < |lines| && Classify(lines[i]).Fence? && HasPrefix(lines[|lines| - 1], CodeFence)
    requires forall m :: i < m < |lines| - 1 ==> !HasPrefix(lines[m], CodeFence)
    ensures var t := TemplateLines(name, today, repo, branch);
      ParseFrom(lines + t[1..], i, acc) == ParseFrom(lines + [""] + t[2..], i, acc)
  {
    var t := TemplateLines(name, today, repo, branch);
    var a, b := lines + t[1..], lines + [""] + t[2..];
    var j := |lines| - 1;
    assert |t| > 2 && |a| == |b|;
    forall m | 0 <= m < |a| && m != j + 1
      ensures b[m] == a[m]
    {
      if m < |lines| {
        assert a[m] == lines[m] && b[m] == lines[m];
      } else {
        assert a[m] == t[m - |lines| + 1] && b[m] == t[m - |lines| + 1];
      }
    }
    forall m | i < m < j
      ensures !HasPrefix(a[m], CodeFence)
    {
      assert a[m] == lines[m];
    }
    assert a[i] == lines[i] && a[j] == lines[j];
    LineAfterFenceIgnored(a, b, i, j, acc);
  }

  /**
    `-new` on a file whose lines `pre` the parse has gone through, arriving at
    the appended lines with `acc`: the appended lines add exactly the new
    requirement.
   */
  lemma AppendedRoundTrip(pre: seq<string>, name: string, today: string, repo: string, branch: string, acc: seq<Req>)
    requires '\n' !in name && '\n' !in today && '\n' !in repo && '\n' !in branch
    requires exists k :: 0 <= k < |today| && today[k] != ':' && !IsSpace(today[k])
    ensures ParseFrom(pre + TemplateLines(name, today, repo, branch), |pre|, acc) == Parsed(acc + [TemplateReq(name, today, repo, branch)])
  {
    TemplateRoundTrip(name, today, repo, branch, acc);
    ParsedAfter(pre, TemplateLines(name, today, repo, branch), acc, Parsed(acc + [TemplateReq(name, today, repo, branch)]));
  }
}
