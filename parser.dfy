/**
  The parse loop of requirement.go:115-181: the lines of the file, after the
  marker truncation of requirement.go:96-107, become an ordered sequence of
  requirements. `ParseFrom` is the specification (one `Step` per visited line,
  the index jumping exactly as the loop's `i` does); `ParseRequirements` is the
  loop itself, over objects updated in place.
 */
module Parser {
  import opened Strings
  import opened Lines
  import opened Requirements

  /** The heading after which the active requirements are listed. */
  const Marker := "## Active Requirements"

  function Min(a: int, b: int): int {
    if a <= b then a else b
  }

  /** No newline in `s[a..b]`. */
  predicate NoNewline(s: string, a: int, b: int)
    requires 0 <= a <= b <= |s|
  {
    forall p :: a <= p < b ==> s[p] != '\n'
  }

  /** The index of the first newline at or after `k`, or `|s|`. */
  function LineEnd(s: string, k: nat): (e: nat)
    requires k <= |s|
    ensures k <= e <= |s| && NoNewline(s, k, e)
    ensures e < |s| ==> s[e] == '\n'
    decreases |s| - k
  {
    if k == |s| || s[k] == '\n' then k else LineEnd(s, k + 1)
  }

  /**
    The text the parser reads: when the marker occurs at an index above zero,
    everything up to the end of the marker's line is dropped, together with one
    more character when there is one. Otherwise the text is kept whole.
   */
  function Truncated(content: string): (r: string)
    ensures |r| <= |content| && r == content[|content| - |r|..]
    ensures IndexOf(content, Marker) <= 0 ==> r == content
    ensures IndexOf(content, Marker) > 0 && NoNewline(content, IndexOf(content, Marker), |content|) ==> r == content
    ensures forall n ::
      (IndexOf(content, Marker) > 0 && IndexOf(content, Marker) <= n < |content| && content[n] == '\n' &&
       NoNewline(content, IndexOf(content, Marker), n)) ==> r == content[Min(n + 2, |content|)..]
  {
    var m := IndexOf(content, Marker);
    if m <= 0 then content
    else
      var n := LineEnd(content, m);
      if n == |content| then content else content[Min(n + 2, |content|)..]
  }

  /** requirement.go:96-107: find the marker, then walk to the end of its line. */
  method Truncate(content: string) returns (r: string)
    ensures r == Truncated(content)
  {
    r := content;
    var i := IndexOf(content, Marker);
    if i > 0 {
      var j := i;
      while j < |content|
        invariant i <= j <= |content| && NoNewline(content, i, j)
        invariant r == content
      {
        if content[j] == '\n' {
          if j + 1 < |content| {
            j := j + 1;
          }
          r := content[j + 1..];
          return;
        }
        j := j + 1;
      }
    }
  }

  /** The outcome of parsing: the requirements in order, or the panic on a misplaced line. */
  datatype Parse = Parsed(reqs: seq<Req>) | Panic(line: string)

  /** The outcome of one turn of the loop: where it goes on and with what, or a panic. */
  datatype Next = Continue(next: nat, reqs: seq<Req>) | Fail(line: string)

  /** The first line at or after `j` that starts with the fence, or `|lines|`. */
  function FenceEnd(lines: seq<string>, j: nat): (e: nat)
    requires j <= |lines|
    ensures j <= e <= |lines|
    decreases |lines| - j
  {
    if j == |lines| || HasPrefix(lines[j], CodeFence) then j else FenceEnd(lines, j + 1)
  }

  /** The scan stops at the first fence: none before it, and one at it unless the lines ran out. */
  lemma {:induction false} FenceEndStops(lines: seq<string>, j: nat)
    requires j <= |lines|
    ensures forall m :: j <= m < FenceEnd(lines, j) ==> !HasPrefix(lines[m], CodeFence)
    ensures FenceEnd(lines, j) < |lines| ==> HasPrefix(lines[FenceEnd(lines, j)], CodeFence)
    decreases |lines| - j
  {
    if j < |lines| && !HasPrefix(lines[j], CodeFence) {
      FenceEndStops(lines, j + 1);
    }
  }

  /** The requirement a title line creates (requirement.go:140-143). */
  function Created(box: string, text: string): (r: Req)
    ensures r.done <==> !IsBlank(box)
    ensures r.WellFormed() && r.ActiveCount() == 0
    ensures r.name == NormalizeBrackets(text)
    ensures forall s :: r.Entries(s) == []
    ensures r.codeBlocks == []
  {
    Initial(text).(done := !IsBlank(box))
  }

  /** The active section, checked in the order of requirement.go:166-176. */
  function Active(r: Req): (s: Option<Section>)
    ensures s.Some? ==> r.InSection(s.value)
    ensures s.None? <==> r.ActiveCount() == 0
    ensures r.AtMostOneSection() && s.Some? ==> forall t :: t != s.value ==> !r.InSection(t)
  {
    if r.inDoc then Some(Docs)
    else if r.inRepos then Some(Repos)
    else if r.inTodos then Some(Todos)
    else if r.inBranches then Some(Branches)
    else None
  }

  /** Where the text of a four-space bullet goes (requirement.go:164-178). */
  function Route(r: Req, text: string): Req {
    if IsBlank(text) then r
    else if r.inDoc then (if KeepsDocEntry(text) then Appended(r, Docs, text) else r)
    else if r.inRepos then Appended(r, Repos, text)
    else if r.inTodos then Appended(r, Todos, text)
    else if r.inBranches then Appended(r, Branches, text)
    else r
  }

  /** The effect of a non-title line on the current requirement (requirement.go:151-179). */
  function Apply(r: Req, l: Line): Req {
    match l
    case Header(s) => Entered(r, s)
    case Bullet(text) => Route(r, text)
    case _ => r
  }

  /** `acc` with its last element replaced. */
  function WithLast(acc: seq<Req>, r: Req): (acc': seq<Req>)
    requires acc != []
    ensures |acc'| == |acc| && acc'[..|acc| - 1] == acc[..|acc| - 1] && acc'[|acc| - 1] == r
  {
    acc[..|acc| - 1] + [r]
  }

  /** A block's text appended to the code blocks of a requirement (`AddCodeBlock`). */
  function WithBlock(r: Req, block: string): Req {
    r.(codeBlocks := r.codeBlocks + [CodeBlockText(block)])
  }

  /**
    A fence at line `i` whose closing fence is at line `j` (`|lines|` when
    there is none): an unterminated block is skipped, a closed one is joined
    and given to the current requirement, and the loop goes on after the line
    that follows the closing fence.
   */
  function Fenced(lines: seq<string>, i: nat, j: nat, acc: seq<Req>): (n: Next)
    requires i < j <= |lines|
    ensures n.Continue? ==> i < n.next <= |lines| + 1
  {
    if j >= |lines| then Continue(i + 1, acc)
    else if acc == [] then Fail(Join(lines[i..j + 1], "\n"))
    // `i = j + 1` and then the loop's own `i++`
    else Continue(j + 2, WithLast(acc, WithBlock(acc[|acc| - 1], Join(lines[i..j + 1], "\n"))))
  }

  /** A line that is neither skipped nor a fence (requirement.go:139-180). */
  function OnLine(lines: seq<string>, i: nat, acc: seq<Req>): (n: Next)
    requires i < |lines|
    ensures n.Continue? ==> n.next == i + 1
  {
    match Classify(lines[i])
    case Title(box, text) => Continue(i + 1, acc + [Created(box, text)])
    case _ =>
      if acc == [] then Fail(lines[i])
      else Continue(i + 1, WithLast(acc, Apply(acc[|acc| - 1], Classify(lines[i]))))
  }

  /** One turn of the loop of requirement.go:115-181 at line `i`, with `acc` parsed so far. */
  function Step(lines: seq<string>, i: nat, acc: seq<Req>): (n: Next)
    requires i < |lines|
    ensures n.Continue? ==> i < n.next <= |lines| + 1
  {
    match Classify(lines[i])
    case Skip => Continue(i + 1, acc)
    case Fence => Fenced(lines, i, FenceEnd(lines, i + 1), acc)
    case _ => OnLine(lines, i, acc)
  }

  /** The loop from line `i` on, with `acc` parsed so far. */
  function ParseFrom(lines: seq<string>, i: nat, acc: seq<Req>): Parse
    decreases |lines| - i
  {
    if i >= |lines| then Parsed(acc)
    else match Step(lines, i, acc)
      case Fail(l) => Panic(l)
      case Continue(next, acc') => ParseFrom(lines, next, acc')
  }

  /** The requirements of the lines of a file. */
  function ParseLines(lines: seq<string>): Parse {
    ParseFrom(lines, 0, [])
  }

  /** The requirements of a whole file: truncate at the marker, split into lines, parse. */
  function ParseText(content: string): Parse {
    ParseLines(Split(Truncated(content), '\n'))
  }

  /** requirement.go:122-124: scan for the closing fence. */
  method FindFenceEnd(lines: seq<string>, i: nat) returns (j: nat)
    requires i < |lines|
    ensures j == FenceEnd(lines, i + 1)
  {
    j := i + 1;
    while j < |lines| && !HasPrefix(lines[j], CodeFence)
      invariant i + 1 <= j <= |lines|
      invariant FenceEnd(lines, i + 1) == FenceEnd(lines, j)
    {
      j := j + 1;
    }
  }

  /** requirement.go:164-178: a bullet's text goes to the list of the active section. */
  method AddBullet(curr: Requirement, line: string)
    modifies curr
    ensures curr.View() == Route(old(curr.View()), line)
  {
    if !IsBlank(line) {
      if curr.inDoc {
        var tokens := Split(line, ':');
        if |tokens| > 1 && !IsBlank(Join(tokens[1..], "")) {
          curr.docs := curr.docs + [line];
        }
      } else if curr.inRepos {
        curr.repos := curr.repos + [line];
      } else if curr.inTodos {
        curr.todos := curr.todos + [line];
      } else if curr.inBranches {
        curr.branches := curr.branches + [line];
      }
    }
  }

  /** requirement.go:151-179: a line that is not a title, applied to the current requirement. */
  method ApplyLine(curr: Requirement, l: string)
    requires !(HasPrefix(l, "#") || IsBlank(l)) && !HasPrefix(l, CodeFence) && MatchTitle(l).None?
    modifies curr
    ensures curr.View() == Apply(old(curr.View()), Classify(l))
  {
    if IsHeader(l, DocLabels) {
      curr.ResetFlags();
      curr.inDoc := true;
    } else if IsHeader(l, RepoLabels) {
      curr.ResetFlags();
      curr.inRepos := true;
    } else if IsHeader(l, TodoLabels) {
      curr.ResetFlags();
      curr.inTodos := true;
    } else if IsHeader(l, BranchLabels) {
      curr.ResetFlags();
      curr.inBranches := true;
    } else {
      var bullet := MatchBullet(l);
      if bullet.Some? {
        AddBullet(curr, bullet.value);
      }
    }
  }

  /** requirement.go:125-136: the block from the fence at `i` to the line `j` the scan stopped at. */
  method TakeFence(lines: seq<string>, i: nat, j: nat, reqs: seq<Requirement>) returns (next: nat, panicked: Option<string>)
    requires i < j <= |lines| && Distinct(reqs)
    modifies set r | r in reqs
    ensures panicked.None? ==> Fenced(lines, i, j, old(Views(reqs))) == Continue(next, Views(reqs))
    ensures panicked.Some? ==> Fenced(lines, i, j, old(Views(reqs))) == Fail(panicked.value)
  {
    next, panicked := i + 1, None;
    ghost var acc := Views(reqs);
    if j == i || j >= |lines| {
      return;
    }
    var block := Join(lines[i..j + 1], "\n");
    if reqs == [] {
      panicked := Some(block);
      return;
    }
    var curr := reqs[|reqs| - 1];
    curr.AddCodeBlock(block);
    LastUpdated(reqs, acc);
    // `i = j + 1`, then the loop's own `i++`
    next := j + 2;
  }

  /** requirement.go:139-148: a title line starts a new requirement. */
  method TakeTitle(box: string, text: string, reqs: seq<Requirement>) returns (reqs': seq<Requirement>)
    requires Distinct(reqs)
    ensures Distinct(reqs') && forall k :: 0 <= k < |reqs'| ==> reqs'[k] in reqs || fresh(reqs'[k])
    ensures Views(reqs') == Views(reqs) + [Created(box, text)]
  {
    var curr := new Requirement(text);
    if !IsBlank(box) {
      curr.done := true;
    }
    reqs' := reqs + [curr];
    assert Views(reqs') == Views(reqs) + [curr.View()];
  }

  lemma OnLineTitle(lines: seq<string>, i: nat, acc: seq<Req>)
    requires i < |lines| && Classify(lines[i]).Title?
    ensures OnLine(lines, i, acc) == Continue(i + 1, acc + [Created(Classify(lines[i]).box, Classify(lines[i]).text)])
  {
  }

  /** requirement.go:151-180: any other line goes to the current requirement. */
  method TakeOther(lines: seq<string>, i: nat, reqs: seq<Requirement>) returns (panicked: Option<string>)
    requires i < |lines| && Distinct(reqs)
    requires !Classify(lines[i]).Skip? && !Classify(lines[i]).Fence? && !Classify(lines[i]).Title?
    modifies set r | r in reqs
    ensures panicked.None? ==> OnLine(lines, i, old(Views(reqs))) == Continue(i + 1, Views(reqs))
    ensures panicked.Some? ==> OnLine(lines, i, old(Views(reqs))) == Fail(panicked.value)
  {
    panicked := None;
    ghost var acc := Views(reqs);
    if reqs == [] {
      panicked := Some(lines[i]);
      return;
    }
    var curr := reqs[|reqs| - 1];
    ApplyLine(curr, lines[i]);
    LastUpdated(reqs, acc);
  }

  /**
    One turn of the loop of requirement.go:115-181 at line `i`: the stack of the
    source is `reqs`, its top the last element. Returns where the loop goes on,
    or the line the source panics on.
   */
  method Turn(lines: seq<string>, i: nat, reqs: seq<Requirement>) returns (next: nat, reqs': seq<Requirement>, panicked: Option<string>)
    requires i < |lines| && Distinct(reqs)
    modifies set r | r in reqs
    ensures Distinct(reqs') && forall k :: 0 <= k < |reqs'| ==> reqs'[k] in reqs || fresh(reqs'[k])
    ensures panicked.None? ==> Step(lines, i, old(Views(reqs))) == Continue(next, Views(reqs'))
    ensures panicked.Some? ==> Step(lines, i, old(Views(reqs))) == Fail(panicked.value)
  {
    next, reqs', panicked := i + 1, reqs, None;
    var l := lines[i];
    if HasPrefix(l, "#") || IsBlank(l) {
      return;
    }
    if HasPrefix(l, CodeFence) {
      var j := FindFenceEnd(lines, i);
      next, panicked := TakeFence(lines, i, j, reqs);
      return;
    }
    var title := MatchTitle(l);
    if title.Some? {
      reqs' := TakeTitle(title.value.box, title.value.text, reqs);
      OnLineTitle(lines, i, old(Views(reqs)));
    } else {
      panicked := TakeOther(lines, i, reqs);
    }
  }

  /** requirement.go:109-181: the requirements of the lines, or the line the source panics on. */
  method ParseRequirements(lines: seq<string>) returns (reqs: seq<Requirement>, panicked: Option<string>)
    ensures panicked.None? ==> ParseLines(lines) == Parsed(Views(reqs))
    ensures panicked.Some? ==> ParseLines(lines) == Panic(panicked.value)
    ensures Distinct(reqs) && forall k :: 0 <= k < |reqs| ==> fresh(reqs[k])
  {
    reqs, panicked := [], None;
    var i := 0;
    while i < |lines|
      invariant 0 <= i <= |lines| + 1 && panicked.None?
      invariant Distinct(reqs) && forall k :: 0 <= k < |reqs| ==> fresh(reqs[k])
      invariant ParseLines(lines) == ParseFrom(lines, i, Views(reqs))
      decreases |lines| - i
    {
      ghost var acc := Views(reqs);
      var next;
      next, reqs, panicked := Turn(lines, i, reqs);
      if panicked.Some? {
        assert ParseFrom(lines, i, acc) == Panic(panicked.value);
        return;
      }
      i := next;
    }
  }

  /** Changing only the last record changes only the last value. */
  lemma LastUpdated(reqs: seq<Requirement>, before: seq<Req>)
    requires reqs != [] && Distinct(reqs)
    requires |before| == |reqs|
    requires forall k :: 0 <= k < |reqs| - 1 ==> before[k] == reqs[k].View()
    ensures Views(reqs) == WithLast(before, reqs[|reqs| - 1].View())
  {
  }
}
