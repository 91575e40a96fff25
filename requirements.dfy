/**
  One requirement of the file: a checklist title with its nested docs, repos,
  branches, todos and code blocks, the parse-time section flags, and the two
  match annotations the filter sets (requirement.go:222-273, 330-341).
 */
module Requirements {
  import opened Strings
  import opened Lines

  /** The value held by a `Requirement` object at one moment. */
  datatype Req = Req(
    done: bool,
    name: string,
    docs: seq<string>,
    repos: seq<string>,
    branches: seq<string>,
    todos: seq<string>,
    codeBlocks: seq<string>,
    inDoc: bool,
    inRepos: bool,
    inTodos: bool,
    inBranches: bool,
    branchMatched: int,
    repoMatched: int)
  {
    /** Whether the flag of section `s` is set. */
    predicate InSection(s: Section) {
      match s
      case Docs => inDoc
      case Repos => inRepos
      case Todos => inTodos
      case Branches => inBranches
    }

    /** The entries collected so far for section `s`. */
    function Entries(s: Section): seq<string> {
      match s
      case Docs => docs
      case Repos => repos
      case Todos => todos
      case Branches => branches
    }

    /** How many section flags are set. */
    function ActiveCount(): nat {
      (if inDoc then 1 else 0) + (if inRepos then 1 else 0) + (if inTodos then 1 else 0) + (if inBranches then 1 else 0)
    }

    /** At most one section receives bullets. */
    predicate AtMostOneSection() {
      ActiveCount() <= 1
    }

    /** The invariant every parsed requirement keeps: flags exclusive, annotations unset, names normalised. */
    predicate WellFormed() {
      AtMostOneSection() && branchMatched == -1 && repoMatched == -1 && NoFullwidthBrackets(name)
    }
  }

  /** The four section flags all cleared (the effect of `ResetFlags`). */
  function Cleared(r: Req): (c: Req)
    ensures c.ActiveCount() == 0
    ensures forall s :: !c.InSection(s)
    ensures c.(inDoc := r.inDoc, inRepos := r.inRepos, inTodos := r.inTodos, inBranches := r.inBranches) == r
  {
    r.(inDoc := false, inRepos := false, inTodos := false, inBranches := false)
  }

  /** The flags after a section header: cleared, then the one for `s` set. */
  function Entered(r: Req, s: Section): (e: Req)
    ensures e.ActiveCount() == 1 && e.InSection(s)
    ensures forall t :: t != s ==> !e.InSection(t)
    ensures forall t :: e.Entries(t) == r.Entries(t)
    ensures e.name == r.name && e.done == r.done && e.codeBlocks == r.codeBlocks
    ensures e.branchMatched == r.branchMatched && e.repoMatched == r.repoMatched
  {
    var c := Cleared(r);
    match s
    case Docs => c.(inDoc := true)
    case Repos => c.(inRepos := true)
    case Todos => c.(inTodos := true)
    case Branches => c.(inBranches := true)
  }

  /** `entry` appended to the list of section `s` and nothing else changed. */
  function Appended(r: Req, s: Section, entry: string): (a: Req)
    ensures a.Entries(s) == r.Entries(s) + [entry]
    ensures forall t :: t != s ==> a.Entries(t) == r.Entries(t)
    ensures forall t :: a.InSection(t) == r.InSection(t)
    ensures a.name == r.name && a.done == r.done && a.codeBlocks == r.codeBlocks
    ensures a.branchMatched == r.branchMatched && a.repoMatched == r.repoMatched
  {
    match s
    case Docs => r.(docs := r.docs + [entry])
    case Repos => r.(repos := r.repos + [entry])
    case Todos => r.(todos := r.todos + [entry])
    case Branches => r.(branches := r.branches + [entry])
  }

  /** The text holds no full-width bracket. */
  predicate NoFullwidthBrackets(s: string) {
    '【' !in s && '】' !in s
  }

  /** `SetName`'s replacement: `【` becomes `[` and `】` becomes `] `. */
  function NormalizeBrackets(s: string): (r: string)
    ensures NoFullwidthBrackets(r)
    ensures NoFullwidthBrackets(s) ==> r == s
    ensures s == "【" ==> r == "["
    ensures s == "】" ==> r == "] "
  {
    if s == [] then []
    else (if s[0] == '【' then "[" else if s[0] == '】' then "] " else [s[0]]) + NormalizeBrackets(s[1..])
  }

  /** The replacement works piece by piece. */
  lemma {:induction false} NormalizeBracketsConcat(a: string, b: string)
    ensures NormalizeBrackets(a + b) == NormalizeBrackets(a) + NormalizeBrackets(b)
  {
    if a == [] {
      assert a + b == b;
    } else {
      assert (a + b)[0] == a[0];
      assert (a + b)[1..] == a[1..] + b;
      NormalizeBracketsConcat(a[1..], b);
    }
  }

  /** A requirement as `NewRequirement` creates it, named `title` through `SetName`. */
  function Initial(title: string): (r: Req)
    ensures r.WellFormed() && r.ActiveCount() == 0 && !r.done
    ensures forall s :: r.Entries(s) == []
    ensures r.codeBlocks == []
    ensures r.name == NormalizeBrackets(title)
  {
    Req(false, NormalizeBrackets(title), [], [], [], [], [], false, false, false, false, -1, -1)
  }

  /** The text after the first line, or all of it when there is one line. */
  function DropFirstLine(s: string): string {
    var i := IndexChar(s, '\n');
    if i > -1 then s[i + 1..] else s
  }

  /** `"  " + strings.Join(strings.Split(s, "\n"), "\n  ")`. */
  function Reindent(s: string): string {
    "  " + Join(Split(s, '\n'), "\n  ")
  }

  /** The string `AddCodeBlock` stores for a fenced block. */
  function CodeBlockText(block: string): string {
    Reindent(CutSuffix(DropFirstLine(TrimSpace(block)), CodeFence))
  }

  /** Re-indenting puts two spaces at the head of every line and changes nothing else. */
  lemma ReindentLines(s: string)
    ensures Reindent(s) == Join(IndentAll(Split(s, '\n')), "\n")
    ensures Split(Reindent(s), '\n') == IndentAll(Split(s, '\n'))
  {
    var parts := Split(s, '\n');
    JoinIndented(parts);
    var ind := IndentAll(parts);
    forall k | 0 <= k < |ind| ensures '\n' !in ind[k] {
      assert ind[k] == "  " + parts[k];
    }
    SplitJoin(ind, '\n');
  }

  lemma FenceStartsWithBacktick(l: string)
    requires HasPrefix(l, CodeFence)
    ensures l[0] == '`'
  {
    assert l[..3][0] == l[0];
  }

  lemma BacktickUntrimmed(s: string)
    requires s != [] && s[0] == '`' && s[|s| - 1] == '`'
    ensures TrimSpace(s) == s
  {
    assert !IsSpace('`');
  }

  /** A joined block whose first line is `open` loses exactly that line. */
  lemma DropOpeningLine(open: string, t: string)
    requires '\n' !in open
    ensures DropFirstLine(open + "\n" + t) == t
  {
    var s := open + "\n" + t;
    FindFromFirst(s, '\n', 0);
    var e := FindFrom(s, '\n', 0);
    assert s[|open|] == '\n';
    assert e == |open|;
    assert s[|open| + 1..] == t;
  }

  /** The lines after the opening fence, joined: the inner lines, an empty line, then the closing fence. */
  lemma BlockBody(inner: seq<string>)
    ensures Join(inner + [CodeFence], "\n") == Join(inner + [""], "\n") + CodeFence
  {
    if inner != [] {
      JoinSnoc(inner, CodeFence, "\n");
      JoinSnoc(inner, "", "\n");
    }
  }

  /** The lines of a fenced block, joined: opening line, inner lines and an empty line, fence. */
  lemma BlockJoined(open: string, inner: seq<string>)
    ensures Join([open] + inner + [CodeFence], "\n") == open + "\n" + (Join(inner + [""], "\n") + CodeFence)
  {
    var tail := inner + [CodeFence];
    var parts := [open] + tail;
    assert [open] + inner + [CodeFence] == parts;
    assert parts[1..] == tail;
    BlockBody(inner);
  }

  /** What `AddCodeBlock` stores for an opening line, a body `u` and a closing fence. */
  lemma StoredBody(open: string, u: string)
    requires HasPrefix(open, CodeFence) && '\n' !in open
    ensures CodeBlockText(open + "\n" + (u + CodeFence)) == Reindent(u)
  {
    var t := u + CodeFence;
    var s := open + "\n" + t;
    FenceStartsWithBacktick(open);
    assert s[0] == open[0];
    assert s[|s| - 1] == t[|t| - 1] == '`';
    BacktickUntrimmed(s);
    DropOpeningLine(open, t);
    assert HasSuffix(t, CodeFence);
  }

  /**
    A block that opens with a fence line, holds `inner` and closes with a bare
    fence is stored without its opening line and closing fence, each inner line
    indented by two spaces; the newline before the closing fence survives as a
    last line of two spaces.
   */
  lemma FencedBlockText(open: string, inner: seq<string>)
    requires HasPrefix(open, CodeFence) && '\n' !in open
    requires forall k :: 0 <= k < |inner| ==> '\n' !in inner[k]
    ensures CodeBlockText(Join([open] + inner + [CodeFence], "\n")) == Join(IndentAll(inner + [""]), "\n")
    ensures Split(CodeBlockText(Join([open] + inner + [CodeFence], "\n")), '\n') == IndentAll(inner + [""])
  {
    var lines := inner + [""];
    var u := Join(lines, "\n");
    var block := Join([open] + inner + [CodeFence], "\n");
    BlockJoined(open, inner);
    assert block == open + "\n" + (u + CodeFence);
    StoredBody(open, u);
    assert CodeBlockText(block) == Reindent(u);
    forall k | 0 <= k < |lines| ensures '\n' !in lines[k] {
      if k < |inner| {
        assert lines[k] == inner[k];
      }
    }
    SplitJoin(lines, '\n');
    assert Split(u, '\n') == lines;
    ReindentLines(u);
  }

  /** A requirement record, updated in place while the file is read and filtered. */
  class Requirement {
    var done: bool
    var name: string
    var docs: seq<string>
    var repos: seq<string>
    var branches: seq<string>
    var todos: seq<string>
    var codeBlocks: seq<string>

    var inDoc: bool
    var inRepos: bool
    var inTodos: bool
    var inBranches: bool

    var branchMatched: int
    var repoMatched: int

    /** The value of the record. */
    function View(): Req
      reads this
    {
      Req(done, name, docs, repos, branches, todos, codeBlocks, inDoc, inRepos, inTodos, inBranches, branchMatched, repoMatched)
    }

    /** `NewRequirement`: empty lists, no annotations, the name set through `SetName`. */
    constructor (title: string)
      ensures View() == Initial(title)
    {
      done := false;
      inDoc, inRepos, inTodos, inBranches := false, false, false, false;
      new;
      SetName(title);
      docs := [];
      repos := [];
      branches := [];
      todos := [];
      branchMatched := -1;
      repoMatched := -1;
      codeBlocks := [];
    }

    method ResetFlags()
      modifies this
      ensures View() == Cleared(old(View()))
    {
      inRepos := false;
      inDoc := false;
      inBranches := false;
      inTodos := false;
    }

    method AddCodeBlock(block: string)
      modifies this
      ensures View() == old(View()).(codeBlocks := old(codeBlocks) + [CodeBlockText(block)])
    {
      codeBlocks := codeBlocks + [CodeBlockText(block)];
    }

    method SetName(s: string)
      modifies this
      ensures View() == old(View()).(name := NormalizeBrackets(s))
    {
      name := NormalizeBrackets(s);
    }
  }

  /** The values of a sequence of records, in order. */
  function Views(rs: seq<Requirement>): (vs: seq<Req>)
    reads set r | r in rs
    ensures |vs| == |rs|
    ensures forall k :: 0 <= k < |rs| ==> vs[k] == rs[k].View()
  {
    if rs == [] then [] else Views(rs[..|rs| - 1]) + [rs[|rs| - 1].View()]
  }

  /** Appending a record appends its value. */
  lemma ViewsSnoc(rs: seq<Requirement>, r: Requirement)
    ensures Views(rs + [r]) == Views(rs) + [r.View()]
  {
    assert (rs + [r])[..|rs|] == rs;
  }

  /** The values of the records, one by one, are their `Views`. */
  lemma ViewsAre(rs: seq<Requirement>, vs: seq<Req>)
    requires |vs| == |rs| && forall k :: 0 <= k < |rs| ==> rs[k].View() == vs[k]
    ensures Views(rs) == vs
  {
  }

  /** No record appears twice. */
  predicate Distinct(rs: seq<Requirement>) {
    forall a, b :: 0 <= a < b < |rs| ==> rs[a] != rs[b]
  }
}
