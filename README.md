# requirement — a verified model of the requirements-file reader

`requirement` is a small command-line tool that keeps a Markdown file of
requirements. Each entry is a checkbox title line (`- [ ] name`), followed by
indented sections:
- docs (`文档`/`docs`),
- repositories (`服务`/`repos`),
- branches (`分支`/`branches`),
- todos (`待办`/`todos`),

plus fenced code blocks. Run inside a git work tree, it shows the requirements that are not done and that list the current repository. It marks which repository entry matched and, unless on `master` or `main`, which branch entry matched. With `-new`, it appends a fresh entry built from a template.

This project models in Dafny the core of `requirement.go`:

- `strings.dfy` (module `Strings`): the Go `strings` functions the core relies on:
  - `TrimSpace`, `HasPrefix`, `Index`, `Contains`, `Split`, `Join`, `CutSuffix`;
  - each is written as a function, with lemmas for the properties the parser depends on.
- `lines.dfy` (module `Lines`): the regular expressions of requirement.go:33-38, written as recognisers over a line:
  - `Classify` turns one line into what the parse loop does with it;
  - `KeepsDocEntry` is the rule that decides whether a docs bullet is stored.
- `requirements.dfy` (module `Requirements`):
  - `Req` is the value of a `Requirement` record;
  - the class `Requirement` has the same fields and the mutating methods `ResetFlags`, `AddCodeBlock`, `SetName` and the constructor `NewRequirement`;
  - each method is specified by a function on `Req`.
- `parser.dfy` (module `Parser`):
  - the truncation at the `## Active Requirements` marker (method `Truncate` against the function `Truncated`);
  - the parse loop, as the functional specification `Step`/`ParseFrom` and as the imperative `ParseRequirements` over `Requirement` objects, proved to agree with it, including on the two panics.
- `parse_facts.dfy` (module `ParseFacts`): what the parse loop guarantees:
  - one requirement per visited title, in order;
  - section flags;
  - where each bullet goes;
  - fences;
  - when the loop panics;
  - that every parsed requirement is well formed.
- `filter.dfy` (module `Filter`): the selection of requirements to show, as the specification `Selected` and the imperative `Select`, with its properties (order, membership, idempotence, annotations).
- `template.dfy` (module `Template`): the `-new` entry, and the round trip: parsing the appended text yields exactly the requirement it describes.
- `examples.dfy` (module `Examples`): a worked example: an entry written by `-new`, parsed back, then filtered on two branches.
- `repo.dfy` (module `Repo`): the repository name taken from the working directory, i.e. the text after its last `/`.

Values from the outside world are parameters:
- the file contents;
- the current branch and working directory;
- the date printed into a new entry.

## Model

| member | source | states |
|---|---|---|
| Strings.TrimSpaceFacts | requirement.go:118 | trimming yields the empty string exactly for a blank line; a trimmed string starts and ends with a non-space; a string already without outer white space is unchanged |
| Strings.IndexOfFirst | requirement.go:96 | `strings.Index` returns an occurrence of the marker, and no occurrence starts before it; -1 means none at all |
| Strings.AbsentHeadNotFound | requirement.go:96 | a text without the marker's first character holds no marker |
| Strings.ContainsIff | requirement.go:196 | `strings.Contains` holds iff the substring occurs at some index |
| Strings.IndexCharIsIndexOf | requirement.go:249 | the search for the first newline is `strings.Index` with a one-character needle |
| Strings.Split | requirement.go:109 | `strings.Split` yields at least one part and no part holds the separator |
| Strings.JoinSplit | requirement.go:109 | joining the parts of a split with the separator gives back the original text |
| Strings.SplitJoin | requirement.go:109 | splitting a join of separator-free parts gives back the parts |
| Strings.SplitConcat | requirement.go:167 | splitting `a + sep + b` splits `a` and `b` separately and concatenates the parts |
| Strings.IndentAll | requirement.go:254-255 | each line, prefixed by two spaces, in order |
| Strings.JoinIndented | requirement.go:255 | `"  " + Join(parts, "\n  ")` is the same as indenting every part and joining with newlines |
| Strings.JoinSplitEmpty | requirement.go:168 | joining the parts of a split with `""` removes every separator character |
| Strings.WithoutBlank | requirement.go:168 | the text with the separator removed is blank iff every character is the separator or white space |
| Lines.HeaderIgnoresCase | requirement.go:34-37 | under `(?i)`, a header line `  - label:` names a lower-case label whatever the case of its ASCII letters, and whatever follows the colon |
| Lines.LabelsLowercase | requirement.go:34-37 | every label of the four header patterns is spelt in lower case |
| Lines.DocsHeaderIgnoresCase | requirement.go:34 | a docs header is recognised with any of its label's letters in upper case (`DOCS`, `Documentation`) |
| Lines.ReposHeaderIgnoresCase | requirement.go:35 | the same for a repositories header |
| Lines.BranchesHeaderIgnoresCase | requirement.go:36 | the same for a branches header |
| Lines.TodosHeaderIgnoresCase | requirement.go:37 | the same for a todos header |
| Lines.UpperCaseTodos | requirement.go:37 | `  - TODOS:` is a todos header |
| Lines.IsHeader | requirement.go:34-37 | a line `  - label:` for one of the labels of a section, compared as under `(?i)`; the lemmas above and `Template.DocsLine` to `Template.TodosLine` state which lines it recognises |
| Lines.MatchTitle | requirement.go:33 | the title pattern with its two captures: the checkbox and the name; `Lines.MatchTitleShape` and `Lines.TitleLineMatches` state both directions |
| Lines.MatchBullet | requirement.go:38 | a four-space bullet and its text after the spaces; `Template.BulletLine` states what it captures |
| Lines.Classify | requirement.go:118-163 | the tests of the parse loop on one line, in the loop's order: skipped, fence, title, the four headers, bullet, anything else; the `ParseFacts` lemmas state what each outcome does |
| Lines.KeepsDocEntry | requirement.go:167-168 | the docs rule; `Lines.KeepsDocEntryIff` states it without the split and join |
| Lines.BoxEndStops | requirement.go:33 | the checkbox scan stops at the first character outside `[* Xx]` |
| Lines.DropSpacesDrops | requirement.go:33 | ` *` removes exactly the leading spaces |
| Lines.UpToNewlineStops | requirement.go:33 | `(.*)` captures up to the first newline and never a newline |
| Lines.MatchTitleShape | requirement.go:33 | a matched title line is `- [box]` with every box character in `[* Xx]` and the name is the rest after the spaces |
| Lines.TitleLineMatches | requirement.go:33 | every line `- [box]rest` with such a box matches, capturing `box` and the rest |
| Lines.DoneIffMarked | requirement.go:141-143 | a title is done iff its box is not blank, i.e. iff it holds `*`, `X` or `x` |
| Lines.DoneExamples | requirement.go:141-143 | `[ ]` and `[]` are not done; `[x]`, `[X]`, `[*]`, `[x ]` are done |
| Lines.KeepsDocEntryIff | requirement.go:167-170 | a docs entry `key:value` is stored iff the value holds some character that is neither white space nor `:` |
| Lines.NoColonNotKept | requirement.go:167-168 | a docs entry without `:` is never stored |
| Lines.EmptyDocEntryDropped | requirement.go:167-170 | `技术文档:` with nothing after the colon is dropped |
| Lines.PresentDocEntryKept | requirement.go:167-170 | `技术文档: http://x` is stored |
| Requirements.Cleared | requirement.go:240-245 | no section flag is set afterwards and every other field is unchanged |
| Requirements.Entered | requirement.go:151-162 | exactly one section flag, the given one, is set; lists, name, done flag, code blocks and annotations are unchanged |
| Requirements.Appended | requirement.go:169-176 | the entry is appended to the given section's list; every other list, the flags and the rest are unchanged |
| Requirements.NormalizeBrackets | requirement.go:262-273 | `【` becomes `[` and `】` becomes `] `; the name holds neither afterwards, and a name without them is unchanged (with `Requirements.NormalizeBracketsConcat`, this fixes the whole replacement) |
| Requirements.NormalizeBracketsConcat | requirement.go:263-272 | the replacement works character by character: it distributes over concatenation |
| Requirements.Initial | requirement.go:330-341 | a new requirement has empty lists, no code blocks, no section flag, both annotations -1, is not done, and its name is normalised |
| Requirements.ReindentLines | requirement.go:254-255 | the stored block is the lines of the body, each indented by two spaces |
| Requirements.CodeBlockText | requirement.go:247-258 | the text `AddCodeBlock` stores: trimmed, first line dropped, closing fence cut, every line indented; `Requirements.FencedBlockText` states the result for a fenced block |
| Requirements.BacktickUntrimmed | requirement.go:248 | trimming does not change a block that begins and ends with a backtick |
| Requirements.DropOpeningLine | requirement.go:249-252 | dropping the first line of `open + "\n" + t` gives `t` |
| Requirements.StoredBody | requirement.go:247-258 | a block made of a fence line, a body `u` and a closing fence is stored as `u` re-indented |
| Requirements.FencedBlockText | requirement.go:247-258 | the stored text of a fenced block is its inner lines plus an empty last line, each indented by two spaces |
| Requirements.Requirement.constructor | requirement.go:330-341 | the new object's value is `Initial(name)` |
| Requirements.Requirement.ResetFlags | requirement.go:240-245 | the new value is `Cleared` of the old one |
| Requirements.Requirement.AddCodeBlock | requirement.go:247-258 | the code block text is appended to the code blocks; nothing else changes |
| Requirements.Requirement.SetName | requirement.go:262-273 | the name becomes the normalised argument; nothing else changes |
| Requirements.ViewsSnoc | requirement.go:144 | pushing an object adds its value at the end of the list of values |
| Parser.LineEnd | requirement.go:98-106 | the index of the first newline at or after `k`, or the end of the text |
| Parser.Truncated | requirement.go:96-107 | no marker, or the marker at index 0: unchanged. Marker on the last line: unchanged. Otherwise the text from two characters after the newline ending the marker's line, capped at the end; always a suffix of the input |
| Parser.Truncate | requirement.go:96-107 | the character loop computes `Truncated` |
| Parser.FenceEndStops | requirement.go:122-124 | the scan stops at the first fence line after the opening one, or at the end |
| Parser.FindFenceEnd | requirement.go:122-124 | the loop computes that index |
| Parser.Created | requirement.go:139-144 | a title's requirement is done iff the box is not blank, has the normalised name, empty lists, no section and both annotations -1 |
| Parser.Route | requirement.go:163-178 | where a bullet's text goes; `ParseFacts.RouteByActive` states it by the active section |
| Parser.Apply | requirement.go:151-178 | a header or bullet applied to the current requirement; `ParseFacts.HeaderSelects` and `ParseFacts.BulletRoutes` state its effect |
| Parser.Active | requirement.go:166-176 | the section a bullet goes to: the one whose flag is set, or none when no flag is set |
| Parser.WithLast | requirement.go:130-134 | only the last requirement is replaced |
| Parser.Fenced | requirement.go:125-136 | a fence turn continues past the opening line, at most one past the end |
| Parser.OnLine | requirement.go:139-180 | a non-fence turn that does not panic continues at the next line |
| Parser.Step | requirement.go:115-181 | every turn that does not panic moves forward, to at most one past the end |
| Parser.ParseFrom | requirement.go:115-181 | the loop from line `i` with the requirements so far: the `ParseFacts` lemmas state what it yields |
| Parser.ParseLines | requirement.go:113-181 | the loop from the first line with an empty stack |
| Parser.ParseText | requirement.go:96-109 | truncation, split and parse of the whole file; `Template.TemplateFileRoundTrip` reads the template through it |
| Parser.AddBullet | requirement.go:163-178 | the requirement's new value is the bullet routed by `Route` |
| Parser.ApplyLine | requirement.go:151-179 | a header or bullet line changes the current requirement as `Apply` of its classification |
| Parser.TakeFence | requirement.go:121-137 | the fence branch computes `Fenced`: the same next index and values, or the same panic |
| Parser.TakeTitle | requirement.go:139-144 | a fresh requirement built by `Created` is pushed; the list stays free of aliases |
| Parser.OnLineTitle | requirement.go:139-144 | a title line continues with `Created` appended |
| Parser.TakeOther | requirement.go:145-180 | a header, bullet or other line computes `OnLine`, including the panic on an empty stack |
| Parser.Turn | requirement.go:115-181 | one iteration of the loop computes `Step` on the values of the objects |
| Parser.ParseRequirements | requirement.go:109-181 | the loop yields exactly `ParseLines` of the lines, or panics exactly where `ParseLines` does, with the same message; the objects are fresh and distinct |
| Parser.LastUpdated | requirement.go:130-134 | changing the top of the stack changes only the last value |
| ParseFacts.TitleAppends | requirement.go:139-144 | a title line appends exactly one requirement, leaving the earlier ones untouched. It is done iff its box is not blank, has the normalised name, empty lists, no code blocks, no section and both annotations -1 |
| ParseFacts.HeaderSelects | requirement.go:151-162 | a section header sets exactly its section's flag on the current requirement and changes nothing else: the result is `Entered`, with name, done, entries, code blocks and both annotations unchanged |
| ParseFacts.BulletRoutes | requirement.go:163-178 | a bullet changes only the current requirement, as `Route` says |
| ParseFacts.RouteByActive | requirement.go:165-177 | a blank bullet, or one with no active section, is ignored. In docs it is stored iff the docs rule keeps it. Otherwise it is appended to the active section's list |
| ParseFacts.RouteWellFormed | requirement.go:163-178 | a bullet keeps the section flags and the requirement well formed |
| ParseFacts.FenceUnterminated | requirement.go:125-127 | a fence with no closing fence after it adds nothing, does not panic, and the loop goes on at the next line |
| ParseFacts.FenceClosed | requirement.go:128-136 | a fence closed at line `j` adds the block's text to the current requirement's code blocks, nothing else, and the loop resumes at `j + 2` |
| ParseFacts.StepFence | requirement.go:121-124 | a fence line hands over to the closing-fence scan |
| ParseFacts.FencedKeeps | requirement.go:128-136 | a fence changes at most the code blocks of the last requirement |
| ParseFacts.ClosingFence | requirement.go:122-124 | the scan stops at the first closing fence |
| ParseFacts.FenceStored | requirement.go:128-134 | for a block closed by a bare fence line, the stored code block is the lines between the fences, plus an empty one, each indented by two spaces |
| ParseFacts.FencePanics | requirement.go:130-133 | a closed fence before any title panics with the block's text |
| ParseFacts.LinePanics | requirement.go:146-149 | any other non-skipped, non-title line before any title panics with that line |
| ParseFacts.ParseLinesPanics | requirement.go:115-149 | a file whose first line that is not skipped is neither a title nor a fence panics on that line |
| ParseFacts.SkippedPrefix | requirement.go:118-120 | skipped lines change nothing |
| ParseFacts.ParseBody | requirement.go:145-180 | a run of header, bullet and skipped lines applies, one after the other, to the current requirement |
| ParseFacts.BodyFirst | requirement.go:139-180 | the first body line applies to the last requirement, then the rest of the body does |
| ParseFacts.BodyStep | requirement.go:145-180 | one such line applies to the current requirement |
| ParseFacts.StepWellFormed | requirement.go:115-181 | one turn keeps every requirement well formed |
| ParseFacts.ParseWellFormed | requirement.go:115-181 | every parsed requirement has at most one section flag, both annotations -1 and no full-width bracket in its name |
| ParseFacts.ParsedWellFormed | requirement.go:109-181 | the same for a whole file |
| ParseFacts.HeadsAt | requirement.go:139-144 | entry `k` of the heads is the done flag and name of requirement `k` |
| ParseFacts.NextLine | requirement.go:135 | the loop visits the line after the next, after a closed fence |
| ParseFacts.FencedNext | requirement.go:125-136 | a closed fence resumes at `j + 2`, an unterminated one at the next line |
| ParseFacts.StepNext | requirement.go:115-181 | every turn goes on at the next visited line |
| ParseFacts.StepHeads | requirement.go:139-180 | only a title changes the done flags and names, by appending one |
| ParseFacts.RouteWellFormedHeads | requirement.go:163-178 | a bullet keeps the done flag and the name |
| ParseFacts.ParseHeads | requirement.go:115-181 | the parse yields one requirement per visited title line, in the order of the lines, with that title's done flag and name |
| ParseFacts.StepKeepsEarlier | requirement.go:115-181 | a turn changes at most the last requirement and appends at most one |
| ParseFacts.ParseKeepsEarlier | requirement.go:115-181 | the list only grows: earlier requirements come out unchanged |
| ParseFacts.FenceEndSame | requirement.go:122-124 | the closing-fence scan reads only the lines after the opening one |
| ParseFacts.StepSame | requirement.go:115-181 | a turn reads no line before its own |
| ParseFacts.FencedSame | requirement.go:125-136 | a fence turn reads only the lines up to the closing fence |
| ParseFacts.StepOnLine | requirement.go:139-180 | a line that is neither skipped nor a fence is handled by the title, header and bullet tests |
| ParseFacts.OnLineSame | requirement.go:139-180 | those tests read only the line itself |
| ParseFacts.ParseSame | requirement.go:115-181 | the parse from line `k` reads no earlier line |
| ParseFacts.LineAfterFenceIgnored | requirement.go:135 | the line right after a closing fence is never read: replacing it does not change the parse |
| ParseFacts.SameTurnSameRest | requirement.go:115-181 | two files whose turn at `i` agrees, and that agree from where it goes on, parse the same |
| ParseFacts.FenceTurnSame | requirement.go:128-136 | the fence turn does not read it either, and goes on at `j + 2` |
| ParseFacts.SameAfterStep | requirement.go:115-181 | two files whose turn agrees and whose rest agrees parse the same |
| ParseFacts.ParseFromStep | requirement.go:115-181 | the parse is one turn followed by the parse of the rest, or a panic |
| ParseFacts.Shifted | requirement.go:115-181 | a turn's outcome moved down: it continues or panics as before, at a line further on |
| ParseFacts.FenceEndShift | requirement.go:122-127 | the search for a closing fence finds the same line when other lines come before the file |
| ParseFacts.StepShift | requirement.go:115-181 | a turn takes the same effect when other lines come before the file, going on the same distance further down |
| ParseFacts.BehindConcat | requirement.go:115 | a file with lines put in front has the original lines at the shifted positions |
| ParseFacts.FencedShift | requirement.go:128-137 | a fence turn with a given closer takes the same effect when other lines come before the file |
| ParseFacts.FenceTurnShift | requirement.go:121-137 | the closer search and the fence turn it gives take the same effect when other lines come before the file |
| ParseFacts.FenceStepShift | requirement.go:121-137 | a turn at a fence line takes the same effect when other lines come before the file |
| ParseFacts.ParseShift | requirement.go:115-181 | the parse from a line gives the same outcome when other lines come before the file |
| ParseFacts.ShiftedParse | requirement.go:115-181 | a turn at a line and the same turn with other lines before the file give the same parse when the parses from where they go on agree |
| ParseFacts.ParsedAfter | requirement.go:115-181 | lines that parse to an outcome from the start give that outcome when they follow other lines |
| Filter.FirstContaining | requirement.go:195-201 | the index of the first entry containing the key, or -1; `Filter.FirstContainingIff` states both directions |
| Filter.NotDone | requirement.go:184 | the requirements not done, in order; `Filter.NotDoneMembers` and `Filter.NotDoneConcat` state membership and order |
| Filter.Annotated | requirement.go:194-210 | the annotations of a listed requirement; `Filter.AnnotatedFacts` states them |
| Filter.Matched | requirement.go:193-212 | the listed requirements, annotated, in order; `Filter.MatchedMembers` and `Filter.MatchedConcat` state membership and order |
| Filter.Selected | requirement.go:183-212 | what is shown in each mode; `Filter.ShowAllUnannotated` and `Filter.ShownIff` state it |
| Filter.FirstContainingIff | requirement.go:195-201 | the repo index found is `k` iff entry `k` contains the key and no earlier one does (-1 iff none does) |
| Filter.FirstContainingLeast | requirement.go:195-201 | the index found is the least entry containing the key |
| Filter.FindContaining | requirement.go:195-201 | the loop computes that index |
| Filter.NotDoneSnoc | requirement.go:184 | one more requirement passes the filter iff it is not done |
| Filter.MatchedSnoc | requirement.go:193-212 | one more requirement is appended, annotated, iff it lists the repository |
| Filter.Annotate | requirement.go:194-210 | the loop body finds whether the repository is listed, and if so records the annotations `Annotated` describes |
| Filter.KeepNotDone | requirement.go:184 | the kept objects are exactly the ones not done, in order |
| Filter.Keep | requirement.go:184 | one step of that filter keeps the invariant |
| Filter.Select | requirement.go:183-212 | the shown objects' values are `Selected` of the parsed values, and every requirement not shown keeps its state |
| Filter.MatchAll | requirement.go:193-212 | the loop keeps, in order, the records listing the repository, annotated as `Matched` says; the records it drops are left as they were |
| Filter.Visit | requirement.go:193-212 | one step of the repository loop keeps the invariant |
| Filter.NotDoneMembers | requirement.go:184 | a requirement passes the filter iff it is in the input and not done |
| Filter.NotDoneConcat | requirement.go:184 | the filter keeps the order: it distributes over concatenation |
| Filter.NotDoneIdempotent | requirement.go:184 | filtering twice is filtering once |
| Filter.MatchedConcat | requirement.go:193-212 | the repository loop keeps the order of the file |
| Filter.MatchedMembers | requirement.go:193-212 | a requirement is shown iff it is the annotation of an input one that lists the repository |
| Filter.AnnotatedFacts | requirement.go:195-210 | the repo index is the least entry containing the directory name. On a main branch the branch index is unchanged; otherwise it is the least entry containing the branch, or unchanged when none does. Nothing else changes |
| Filter.SelectedNotDone | requirement.go:184-211 | nothing shown is done, in any mode |
| Filter.SelectedConcat | requirement.go:183-212 | the shown list keeps the order of the file |
| Filter.ShowAllUnannotated | requirement.go:186-190 | with `-all` or no branch, the shown ones are exactly those not done, unannotated |
| Filter.ShownIff | requirement.go:191-212 | otherwise a requirement is shown, annotated, iff it is not done and lists the repository |
| Filter.AnnotatedIdempotent | requirement.go:194-210 | annotating twice is annotating once; it keeps the repository listed and the done flag |
| Filter.MatchedIdempotent | requirement.go:193-212 | running the repository loop on its own result changes nothing |
| Filter.NotDoneOfMatched | requirement.go:184-211 | matching keeps requirements not done |
| Filter.SelectedIdempotent | requirement.go:183-212 | filtering the shown list again gives the same list |
| Examples.LoginBugParsed | requirement.go:64-88 | the text `-new` writes for `Fix login bug` in `service-auth` on `release-1.2` parses back to exactly that one requirement |
| Examples.LoginBugEntries | requirement.go:64-88 | that requirement lists the repository and the branch as written and is not done |
| Examples.ContainsItself | requirement.go:196 | every string contains itself |
| Examples.FeatureNotInRelease | requirement.go:206 | `release-1.2` does not contain `feature-x` |
| Examples.LoginBugOnFeatureBranch | requirement.go:191-212 | in `service-auth` on `feature-x`, an entry listing them is shown with repo index 0 and no branch index |
| Examples.LoginBugOnMaster | requirement.go:205-210 | on `master` the branch index stays -1 even when a branch entry contains the name |
| Examples.ShownOnFeatureBranch | requirement.go:191-212 | any not-done requirement listing only `service-auth` and `release-1.2` is shown in `service-auth` on `feature-x` with repo index 0 and no branch index |
| Examples.ShownOnMaster | requirement.go:191-212 | any not-done requirement listing only `service-auth` and `master` is shown on `master` with repo index 0 and no branch index |
| Filter.DoneNeverShown | requirement.go:184 | a done requirement is never shown |
| Template.EntryName | requirement.go:64-67 | the name is never blank: `TODO` for a blank `-name`, the name otherwise |
| Template.TitleLine | requirement.go:69 | the title line of the template is a title with an empty box |
| Template.BulletLine | requirement.go:71-82 | a four-space bullet line stores its text without leading spaces |
| Template.DocsLine | requirement.go:70 | `  - 文档:` opens the docs section |
| Template.ReposLine | requirement.go:77 | `  - 服务:` opens the repositories section |
| Template.BranchesLine | requirement.go:79 | `  - 分支:` opens the branches section |
| Template.TodosLine | requirement.go:81 | `  - 待办:` opens the todos section |
| Template.PlaceholdersDropped | requirement.go:72-76 | the five empty placeholder entries are all dropped |
| Template.DocsApplied | requirement.go:70-76 | the docs section stores only the date entry `记录时间: <date>` |
| Template.SectionsApplied | requirement.go:77-83 | the repository and branch sections store their value only when it is not blank; the todo section stores `[ ]` |
| Template.BodyApplied | requirement.go:70-83 | the lines after the title turn the new requirement into the one the template stands for |
| Template.TemplateRoundTrip | requirement.go:64-88 | parsing the template's lines appends exactly one requirement. It is not done and named by the entry name. Its docs hold only the date entry, its repos and branches the values when not blank, and its todos `["[ ]"]` |
| Template.TemplateName | requirement.go:64-67 | the new requirement is named `TODO` for a blank `-name`, and the name itself when it begins with no space and holds no full-width bracket |
| Template.TemplateLineNoNewline | requirement.go:68-83 | no template line holds a newline when the filled-in values hold none |
| Template.TemplateTextRoundTrip | requirement.go:64-88 | splitting the appended text into lines and parsing it gives exactly that one requirement |
| Template.TemplateLines | requirement.go:68-83 | the lines of the appended text, with the values filled in |
| Template.TemplateText | requirement.go:68-88 | the appended text: those lines joined by newlines |
| Template.TemplateLineNoHash | requirement.go:68-83 | no template line holds a `#` when the filled-in values hold none |
| Template.TemplateTextNoMarker | requirement.go:96 | then the appended text holds no truncation marker |
| Template.TemplateFileRoundTrip | requirement.go:64-109 | read back as a whole file (truncate, split, parse), the template gives exactly its requirement |
| Template.AppendedLines | requirement.go:61-88 | appending the template to a file gives the file's lines followed by the template lines after the first, which is empty |
| Template.AppendedAfterClosingFence | requirement.go:135 | appended right after a closing fence with no newline, the entry's title is the line the loop never reads: the parse is that of a blank line in its place |
| Template.AppendedRoundTrip | requirement.go:64-88 | `-new` on a non-empty file: when the parse of the existing lines arrives at the appended lines, these add exactly the new requirement |
| Repo.LastSegment | requirement.go:375-382 | the text after the last `/` of the working directory, or all of it; the lemmas below state it |
| Repo.LastSegmentSuffix | requirement.go:375-382 | the repository name is a suffix of the working directory holding no `/` |
| Repo.LastSegmentBoundary | requirement.go:375-382 | it is the whole directory, or a `/` comes right before it |
| Repo.NoSlashWhole | requirement.go:375 | a directory without `/` is its own name |
| Repo.AfterLastSlash | requirement.go:377-381 | the name is what follows the last `/` |
| Repo.CurrentRepo | requirement.go:375-382 | the backward scan computes that name |
| Repo.CurrentRepoExamples | requirement.go:375-382 | `/home/dev/` gives the empty name, `/home/dev/service-auth` gives `service-auth`, a bare name gives itself |

## Left out

- Reading the file, `REQUIREMENTS_FILE` and the command-line flags, appending to the file, and printing (counts, colours, `Requirement.String`, `ParseTilde`): I/O and formatting. The model's inputs are the file contents, the flags `-all` and `-name`, the branch, the working directory and the date.
- Running `git status` and taking the branch from its first line (requirement.go:352-373): these depend on an external process. The branch is a parameter.
- `util.Stack`: modelled as a sequence whose last element is the top.
- Byte versus character indexing: Go strings are bytes and the model works on characters (`seq<char>`). Every index the core takes is compared with 0 or used to cut at an ASCII character, so the results agree, with one exception:
  - Parser.Truncated: after the newline that ends the marker's line, Go skips one more byte and the model skips one more character. When that character takes several bytes in UTF-8, Go keeps its trailing bytes and the model does not.
- Lines.Fold: follows the `(?i)` case folding for ASCII letters and for the two non-ASCII letters that fold to `s` and `k`. Full Unicode simple folding of the non-ASCII label characters (all CJK, which have no case) is not needed and not modelled.
- An empty stack at a fence, or at a non-title line, ends in a `Panic` result rather than a Go panic. The model does not follow the panic's unwinding.
- Template.TemplateRoundTrip: requires that the name, date, repository and branch hold no newline, and that the date holds a character that is neither white space nor `:`. Otherwise the date entry is dropped by the docs rule. The formatting of the date (`util.Now().FormatDate()`) is not modelled; the date is a parameter. Template.TemplateFileRoundTrip also requires that none of them holds a `#`, so that the text holds no truncation marker.
## Behaviours of the code

Three behaviours of the code a reader might not expect; the model follows the code:
- an unterminated fence adds nothing and never panics, even with no requirement yet (requirement.go:125-127);
- an empty fenced block is still stored, as `"  "`;
- the line right after a closing fence is never examined (requirement.go:135). `ParseFacts.LineAfterFenceIgnored` states it;
  as a consequence, an entry appended with `-new` to a file whose last line is a closing fence without a trailing newline loses its title: its sections go to the requirement before it. `Template.AppendedAfterClosingFence` states it.
