/**
  What the parse loop of requirement.go:115-181 promises, stated over the
  specification `ParseFrom`: what each kind of line does to the requirements
  parsed so far, the invariants every parse keeps, the order of the result,
  and when the loop panics.
 */
module ParseFacts {
  import opened Strings
  import opened Lines
  import opened Requirements
  import opened Parser

  /**
    A title line appends exactly one requirement and leaves the earlier ones as
    they were; the new one is done iff its checkbox holds a non-space, its name
    has no full-width brackets, its lists are empty and it has no annotations.
   */
  lemma TitleAppends(lines: seq<string>, i: nat, acc: seq<Req>)
    requires i < |lines| && Classify(lines[i]).Title?
    ensures var c := Classify(lines[i]); var n := Step(lines, i, acc);
      n.Continue? && n.next == i + 1 && |n.reqs| == |acc| + 1 && n.reqs[..|acc|] == acc &&
      (n.reqs[|acc|].done <==> !IsBlank(c.box)) &&
      n.reqs[|acc|].name == NormalizeBrackets(c.text) && NoFullwidthBrackets(n.reqs[|acc|].name) &&
      (forall s :: n.reqs[|acc|].Entries(s) == []) && n.reqs[|acc|].codeBlocks == [] &&
      n.reqs[|acc|].repoMatched == -1 && n.reqs[|acc|].branchMatched == -1 &&
      n.reqs[|acc|].ActiveCount() == 0
  {
    var c := Classify(lines[i]);
    var r := Created(c.box, c.text);
    assert Step(lines, i, acc) == Continue(i + 1, acc + [r]);
    assert (acc + [r])[..|acc|] == acc;
  }

  /**
    A section header turns on exactly the flag of its section on the current
    requirement and changes nothing else; the earlier requirements stay as they were.
   */
  lemma HeaderSelects(lines: seq<string>, i: nat, acc: seq<Req>, s: Section)
    requires i < |lines| && Classify(lines[i]) == Header(s) && acc != []
    ensures var n := Step(lines, i, acc); var last := acc[|acc| - 1];
      n.Continue? && n.next == i + 1 && |n.reqs| == |acc| &&
      n.reqs[..|acc| - 1] == acc[..|acc| - 1] &&
      n.reqs[|acc| - 1].ActiveCount() == 1 && n.reqs[|acc| - 1].InSection(s) &&
      (forall t :: n.reqs[|acc| - 1].Entries(t) == last.Entries(t)) &&
      n.reqs[|acc| - 1].name == last.name && n.reqs[|acc| - 1].done == last.done &&
      n.reqs[|acc| - 1].codeBlocks == last.codeBlocks &&
      n.reqs[|acc| - 1].repoMatched == last.repoMatched && n.reqs[|acc| - 1].branchMatched == last.branchMatched &&
      n.reqs[|acc| - 1] == Entered(last, s)
  {
    var last := acc[|acc| - 1];
    assert Step(lines, i, acc) == Continue(i + 1, WithLast(acc, Entered(last, s)));
  }

  /** A bullet is routed to the current requirement; the earlier ones stay as they were. */
  lemma BulletRoutes(lines: seq<string>, i: nat, acc: seq<Req>, text: string)
    requires i < |lines| && Classify(lines[i]) == Bullet(text) && acc != []
    ensures Step(lines, i, acc) == Continue(i + 1, WithLast(acc, Route(acc[|acc| - 1], text)))
  {
  }

  /**
    Where a bullet's text goes: nowhere when it is blank or no section is
    active; to the docs only when the docs rule keeps it; otherwise appended to
    the list of the active section, every other list unchanged.
   */
  lemma RouteByActive(r: Req, text: string)
    ensures IsBlank(text) || Active(r).None? ==> Route(r, text) == r
    ensures Active(r) == Some(Docs) ==>
      Route(r, text) == if !IsBlank(text) && KeepsDocEntry(text) then Appended(r, Docs, text) else r
    ensures !IsBlank(text) && Active(r).Some? && Active(r).value != Docs ==>
      Route(r, text) == Appended(r, Active(r).value, text)
  {
  }

  /** Routing a bullet keeps the flags, so it keeps the invariant. */
  lemma RouteWellFormed(r: Req, text: string)
    requires r.WellFormed()
    ensures Route(r, text).WellFormed()
    ensures forall s :: Route(r, text).InSection(s) == r.InSection(s)
  {
    RouteByActive(r, text);
  }

  /** A fence with no closing fence after it adds nothing; the loop goes on at the next line. */
  lemma FenceUnterminated(lines: seq<string>, i: nat, acc: seq<Req>)
    requires i < |lines| && Classify(lines[i]).Fence?
    requires forall m :: i < m < |lines| ==> !HasPrefix(lines[m], CodeFence)
    ensures Step(lines, i, acc) == Continue(i + 1, acc)
  {
    FenceEndStops(lines, i + 1);
  }

  /**
    A fence closed at line `j` adds one code block to the current requirement
    and nothing else; the loop goes on at `j + 2`, so line `j + 1` is never read.
   */
  lemma FenceClosed(lines: seq<string>, i: nat, j: nat, acc: seq<Req>)
    requires i < j < |lines| && Classify(lines[i]).Fence? && HasPrefix(lines[j], CodeFence)
    requires forall m :: i < m < j ==> !HasPrefix(lines[m], CodeFence)
    requires acc != []
    ensures var last := acc[|acc| - 1];
      Step(lines, i, acc) ==
      Continue(j + 2, WithLast(acc, last.(codeBlocks := last.codeBlocks + [CodeBlockText(Join(lines[i..j + 1], "\n"))])))
  {
    ClosingFence(lines, i, j);
    StepFence(lines, i, acc);
    FencedClosed(lines, i, j, acc);
  }

  /** A fence line hands over to `Fenced` with the line the scan stops at. */
  lemma StepFence(lines: seq<string>, i: nat, acc: seq<Req>)
    requires i < |lines| && Classify(lines[i]).Fence?
    ensures Step(lines, i, acc) == Fenced(lines, i, FenceEnd(lines, i + 1), acc)
  {
  }

  lemma FencedClosed(lines: seq<string>, i: nat, j: nat, acc: seq<Req>)
    requires i < j < |lines| && acc != []
    ensures var last := acc[|acc| - 1];
      Fenced(lines, i, j, acc) ==
      Continue(j + 2, WithLast(acc, last.(codeBlocks := last.codeBlocks + [CodeBlockText(Join(lines[i..j + 1], "\n"))])))
  {
  }

  /** A fence changes at most the code blocks of the last requirement. */
  lemma FencedKeeps(lines: seq<string>, i: nat, j: nat, acc: seq<Req>)
    requires i < j <= |lines|
    ensures var n := Fenced(lines, i, j, acc);
      n.Continue? ==> (|n.reqs| == |acc| && (forall k :: 0 <= k < |acc| - 1 ==> n.reqs[k] == acc[k]) &&
        (acc != [] ==> n.reqs[|acc| - 1].(codeBlocks := acc[|acc| - 1].codeBlocks) == acc[|acc| - 1]))
  {
  }

  /** The scan for the closing fence stops at the first fence line. */
  lemma ClosingFence(lines: seq<string>, i: nat, j: nat)
    requires i < j < |lines| && HasPrefix(lines[j], CodeFence)
    requires forall m :: i < m < j ==> !HasPrefix(lines[m], CodeFence)
    ensures FenceEnd(lines, i + 1) == j
  {
    FenceEndStops(lines, i + 1);
  }

  /**
    A closed block whose closing line is a bare fence is stored without its
    fence lines, each inner line indented by two spaces, followed by a last
    line of two spaces.
   */
  lemma FenceStored(lines: seq<string>, i: nat, j: nat)
    requires i < j < |lines| && HasPrefix(lines[i], CodeFence) && lines[j] == CodeFence
    requires forall m :: i <= m <= j ==> '\n' !in lines[m]
    ensures CodeBlockText(Join(lines[i..j + 1], "\n")) == Join(IndentAll(lines[i + 1..j] + [""]), "\n")
  {
    var inner := lines[i + 1..j];
    assert lines[i..j + 1] == [lines[i]] + inner + [CodeFence];
    forall k | 0 <= k < |inner| ensures '\n' !in inner[k] {
      assert inner[k] == lines[i + 1 + k];
    }
    FencedBlockText(lines[i], inner);
  }

  /** With no requirement yet, a closed fence panics on the joined block. */
  lemma FencePanics(lines: seq<string>, i: nat, j: nat)
    requires i < j < |lines| && Classify(lines[i]).Fence? && HasPrefix(lines[j], CodeFence)
    requires forall m :: i < m < j ==> !HasPrefix(lines[m], CodeFence)
    ensures Step(lines, i, []) == Fail(Join(lines[i..j + 1], "\n"))
  {
    ClosingFence(lines, i, j);
  }

  /** With no requirement yet, a line that is not skipped, not a fence and not a title panics. */
  lemma LinePanics(lines: seq<string>, i: nat)
    requires i < |lines|
    requires !Classify(lines[i]).Skip? && !Classify(lines[i]).Fence? && !Classify(lines[i]).Title?
    ensures Step(lines, i, []) == Fail(lines[i])
  {
  }

  /** A file whose first line that is not skipped is such a line panics on it. */
  lemma {:induction false} ParseLinesPanics(lines: seq<string>, i: nat)
    requires i < |lines|
    requires forall k :: 0 <= k < i ==> Classify(lines[k]).Skip?
    requires !Classify(lines[i]).Skip? && !Classify(lines[i]).Fence? && !Classify(lines[i]).Title?
    ensures ParseLines(lines) == Panic(lines[i])
  {
    LinePanics(lines, i);
    SkippedPrefix(lines, 0, i);
  }

  /** Skipped lines leave the parse where it was. */
  lemma {:induction false} SkippedPrefix(lines: seq<string>, k: nat, i: nat)
    requires k <= i < |lines|
    requires forall m :: k <= m < i ==> Classify(lines[m]).Skip?
    ensures ParseFrom(lines, k, []) == ParseFrom(lines, i, [])
    decreases i - k
  {
    if k < i {
      assert Step(lines, k, []) == Continue(k + 1, []);
      SkippedPrefix(lines, k + 1, i);
    }
  }

  /** The last requirement after the lines classified as `kinds`, in order. */
  function ApplyAll(r: Req, kinds: seq<Line>): Req
    decreases |kinds|
  {
    if kinds == [] then r else ApplyAll(Apply(r, kinds[0]), kinds[1..])
  }

  /** A line that neither starts a requirement nor opens a code block. */
  predicate InBody(l: Line) {
    !l.Title? && !l.Fence?
  }

  /** Line `i` is classified as `kind`, which is neither a title nor a fence. */
  predicate BodyLine(lines: seq<string>, i: nat, kind: Line) {
    i < |lines| && Classify(lines[i]) == kind && InBody(kind)
  }

  /** Lines `i` on are classified as `kinds`, none of them a title or a fence. */
  predicate BodyFrom(lines: seq<string>, i: nat, kinds: seq<Line>) {
    i + |kinds| <= |lines| &&
    forall k :: 0 <= k < |kinds| ==> BodyLine(lines, i + k, kinds[k])
  }

  /** The first line of a body, and the body after it. */
  lemma BodyFromShift(lines: seq<string>, i: nat, kinds: seq<Line>)
    requires BodyFrom(lines, i, kinds) && kinds != []
    ensures BodyLine(lines, i, kinds[0])
    ensures BodyFrom(lines, i + 1, kinds[1..])
  {
    assert BodyLine(lines, i + 0, kinds[0]);
    forall k | 0 <= k < |kinds[1..]|
      ensures BodyLine(lines, i + 1 + k, kinds[1..][k])
    {
      assert BodyLine(lines, i + (k + 1), kinds[k + 1]);
    }
  }

  /**
    A run of lines without titles and fences, once a requirement exists, only
    changes the last requirement: each line applies to it in turn.
   */
  lemma {:induction false} ParseBody(lines: seq<string>, i: nat, kinds: seq<Line>, acc: seq<Req>, r: Req)
    requires BodyFrom(lines, i, kinds)
    ensures ParseFrom(lines, i, acc + [r]) == ParseFrom(lines, i + |kinds|, acc + [ApplyAll(r, kinds)])
    decreases |kinds|
  {
    if kinds != [] {
      BodyFromShift(lines, i, kinds);
      ParseBody(lines, i + 1, kinds[1..], acc, Apply(r, kinds[0]));
      BodyFirst(lines, i, kinds, acc, r);
    }
  }

  /** The first body line applies, then the rest of the body does. */
  lemma BodyFirst(lines: seq<string>, i: nat, kinds: seq<Line>, acc: seq<Req>, r: Req)
    requires kinds != [] && BodyLine(lines, i, kinds[0])
    requires ParseFrom(lines, i + 1, acc + [Apply(r, kinds[0])]) == ParseFrom(lines, i + 1 + |kinds[1..]|, acc + [ApplyAll(Apply(r, kinds[0]), kinds[1..])])
    ensures ParseFrom(lines, i, acc + [r]) == ParseFrom(lines, i + |kinds|, acc + [ApplyAll(r, kinds)])
  {
    assert i + 1 + |kinds[1..]| == i + |kinds|;
    assert ApplyAll(Apply(r, kinds[0]), kinds[1..]) == ApplyAll(r, kinds);
    BodyStep(lines, i, kinds[0], acc, r);
  }

  /** One line of a body: it applies to the last requirement. */
  lemma BodyStep(lines: seq<string>, i: nat, kind: Line, acc: seq<Req>, r: Req)
    requires BodyLine(lines, i, kind)
    ensures ParseFrom(lines, i, acc + [r]) == ParseFrom(lines, i + 1, acc + [Apply(r, kind)])
  {
    var acc' := acc + [r];
    if kind.Skip? {
      ParseFromStep(lines, i, acc', Continue(i + 1, acc'));
    } else {
      assert acc'[..|acc'| - 1] == acc;
      StepOnLine(lines, i, acc');
      ParseFromStep(lines, i, acc', Continue(i + 1, acc + [Apply(r, kind)]));
    }
  }

  /** One turn of the loop keeps every requirement well formed. */
  lemma StepWellFormed(lines: seq<string>, i: nat, acc: seq<Req>)
    requires i < |lines| && forall k :: 0 <= k < |acc| ==> acc[k].WellFormed()
    ensures var n := Step(lines, i, acc);
      n.Continue? ==> forall k :: 0 <= k < |n.reqs| ==> n.reqs[k].WellFormed()
  {
    match Classify(lines[i])
    case Skip =>
    case Fence =>
      StepFence(lines, i, acc);
      FencedKeeps(lines, i, FenceEnd(lines, i + 1), acc);
    case Title(box, text) =>
    case Header(s) =>
      if acc != [] {
        assert Entered(acc[|acc| - 1], s).WellFormed();
      }
    case Bullet(text) =>
      if acc != [] {
        RouteWellFormed(acc[|acc| - 1], text);
      }
    case Plain =>
  }

  /**
    Every requirement a parse produces is well formed: at most one section flag
    set, both annotations -1 and no full-width bracket in the name.
   */
  lemma {:induction false} ParseWellFormed(lines: seq<string>, i: nat, acc: seq<Req>)
    requires forall k :: 0 <= k < |acc| ==> acc[k].WellFormed()
    ensures ParseFrom(lines, i, acc).Parsed? ==>
      forall k :: 0 <= k < |ParseFrom(lines, i, acc).reqs| ==> ParseFrom(lines, i, acc).reqs[k].WellFormed()
    decreases |lines| - i
  {
    if i < |lines| {
      var n := Step(lines, i, acc);
      ParseFromStep(lines, i, acc, n);
      if n.Continue? {
        StepWellFormed(lines, i, acc);
        ParseWellFormed(lines, n.next, n.reqs);
      }
    }
  }

  /** The whole file: every parsed requirement is well formed. */
  lemma ParsedWellFormed(lines: seq<string>)
    ensures ParseLines(lines).Parsed? ==>
      forall k :: 0 <= k < |ParseLines(lines).reqs| ==> ParseLines(lines).reqs[k].WellFormed()
  {
    ParseWellFormed(lines, 0, []);
  }

  /** The done flag and the name of a requirement: what its title line decided. */
  function Heads(rs: seq<Req>): (hs: seq<(bool, string)>)
    ensures |hs| == |rs|
  {
    if rs == [] then [] else Heads(rs[..|rs| - 1]) + [(rs[|rs| - 1].done, rs[|rs| - 1].name)]
  }

  /** Entry `k` of the heads is the done flag and name of requirement `k`. */
  lemma {:induction false} HeadsAt(rs: seq<Req>)
    ensures forall k :: 0 <= k < |rs| ==> Heads(rs)[k] == (rs[k].done, rs[k].name)
  {
    if rs != [] {
      HeadsAt(rs[..|rs| - 1]);
    }
  }

  /**
    The line the loop visits after line `i`: after a fence closed at `j`, line
    `j + 2`; otherwise the next one.
   */
  function NextLine(lines: seq<string>, i: nat): (k: nat)
    requires i < |lines|
    ensures i < k <= |lines| + 1
  {
    if Classify(lines[i]).Fence? && FenceEnd(lines, i + 1) < |lines| then FenceEnd(lines, i + 1) + 2 else i + 1
  }

  /**
    The title lines the loop visits from line `i` on, in order, each as the done
    flag and the name it gives. Lines inside a closed code block, and the line
    after it, are not visited.
   */
  function TitlesFrom(lines: seq<string>, i: nat): seq<(bool, string)>
    decreases |lines| - i
  {
    if i >= |lines| then [] else TitleOf(Classify(lines[i])) + TitlesFrom(lines, NextLine(lines, i))
  }

  /** The done flag and name a line contributes: one pair for a title line, none otherwise. */
  function TitleOf(l: Line): (t: seq<(bool, string)>)
    ensures |t| == (if l.Title? then 1 else 0)
  {
    if l.Title? then [(!IsBlank(l.box), NormalizeBrackets(l.text))] else []
  }

  /** Where a closed or unterminated fence sends the loop. */
  lemma FencedNext(lines: seq<string>, i: nat, j: nat, acc: seq<Req>)
    requires i < j <= |lines|
    ensures var n := Fenced(lines, i, j, acc);
      n.Continue? ==> n.next == if j < |lines| then j + 2 else i + 1
  {
  }

  /** Every turn that goes on, goes on at the next visited line. */
  lemma StepNext(lines: seq<string>, i: nat, acc: seq<Req>)
    requires i < |lines|
    ensures Step(lines, i, acc).Continue? ==> Step(lines, i, acc).next == NextLine(lines, i)
  {
    if Classify(lines[i]).Fence? {
      StepFence(lines, i, acc);
      FencedNext(lines, i, FenceEnd(lines, i + 1), acc);
    }
  }

  /** Only a title line changes the done flags and names, by appending one. */
  lemma StepHeads(lines: seq<string>, i: nat, acc: seq<Req>)
    requires i < |lines|
    ensures var n := Step(lines, i, acc);
      n.Continue? ==> Heads(n.reqs) == Heads(acc) + TitleOf(Classify(lines[i]))
  {
    var n := Step(lines, i, acc);
    if n.Continue? {
      match Classify(lines[i])
      case Skip =>
      case Fence =>
        StepFence(lines, i, acc);
        FencedKeeps(lines, i, FenceEnd(lines, i + 1), acc);
        assert Heads(n.reqs) == Heads(acc);
      case Title(box, text) =>
        assert Heads(n.reqs) == Heads(acc) + [(!IsBlank(box), NormalizeBrackets(text))];
      case Header(s) =>
        assert Heads(n.reqs) == Heads(acc);
      case Bullet(text) =>
        RouteWellFormedHeads(acc[|acc| - 1], text);
        assert Heads(n.reqs) == Heads(acc);
      case Plain =>
        assert Heads(n.reqs) == Heads(acc);
    }
  }

  lemma RouteWellFormedHeads(r: Req, text: string)
    ensures Route(r, text).done == r.done && Route(r, text).name == r.name
  {
    RouteByActive(r, text);
  }

  /**
    The parse yields one requirement per visited title line, in the order of
    the lines, each done iff its checkbox is marked and named by its title.
   */
  lemma {:induction false} ParseHeads(lines: seq<string>, i: nat, acc: seq<Req>)
    ensures ParseFrom(lines, i, acc).Parsed? ==>
      Heads(ParseFrom(lines, i, acc).reqs) == Heads(acc) + TitlesFrom(lines, i)
    decreases |lines| - i
  {
    if i < |lines| {
      var n := Step(lines, i, acc);
      ParseFromStep(lines, i, acc, n);
      if n.Continue? {
        StepHeads(lines, i, acc);
        StepNext(lines, i, acc);
        ParseHeads(lines, n.next, n.reqs);
      }
    }
  }

  /** One turn changes at most the last requirement and appends at most one. */
  lemma StepKeepsEarlier(lines: seq<string>, i: nat, acc: seq<Req>)
    requires i < |lines|
    ensures var n := Step(lines, i, acc);
      n.Continue? ==> (|acc| <= |n.reqs| <= |acc| + 1 &&
        forall k :: 0 <= k < |acc| - 1 ==> n.reqs[k] == acc[k])
  {
  }

  /**
    The result only grows: every requirement but the last of `acc` comes out
    unchanged, and there are at least as many as before.
   */
  lemma {:induction false} ParseKeepsEarlier(lines: seq<string>, i: nat, acc: seq<Req>)
    ensures var p := ParseFrom(lines, i, acc);
      p.Parsed? ==> |acc| <= |p.reqs| && forall k :: 0 <= k < |acc| - 1 ==> p.reqs[k] == acc[k]
    decreases |lines| - i
  {
    if i < |lines| {
      var n := Step(lines, i, acc);
      ParseFromStep(lines, i, acc, n);
      if n.Continue? {
        StepKeepsEarlier(lines, i, acc);
        ParseKeepsEarlier(lines, n.next, n.reqs);
      }
    }
  }

  /** The scan for a closing fence reads only the lines from `j` on. */
  lemma {:induction false} FenceEndSame(lines: seq<string>, lines': seq<string>, j: nat)
    requires |lines| == |lines'| && j <= |lines|
    requires forall m :: j <= m < |lines| ==> lines[m] == lines'[m]
    ensures FenceEnd(lines, j) == FenceEnd(lines', j)
    decreases |lines| - j
  {
    if j < |lines| && !HasPrefix(lines[j], CodeFence) {
      FenceEndSame(lines, lines', j + 1);
    }
  }

  /** One turn at line `k` reads only the lines from `k` on. */
  lemma StepSame(lines: seq<string>, lines': seq<string>, k: nat, acc: seq<Req>)
    requires |lines| == |lines'| && k < |lines|
    requires forall m :: k <= m < |lines| ==> lines[m] == lines'[m]
    ensures Step(lines, k, acc) == Step(lines', k, acc)
  {
    assert lines[k] == lines'[k];
    if Classify(lines[k]).Fence? {
      FenceEndSame(lines, lines', k + 1);
      StepFence(lines, k, acc);
      StepFence(lines', k, acc);
      FencedSame(lines, lines', k, FenceEnd(lines, k + 1), acc);
    } else if !Classify(lines[k]).Skip? {
      StepOnLine(lines, k, acc);
      StepOnLine(lines', k, acc);
      OnLineSame(lines, lines', k, acc);
    }
  }

  lemma FencedSame(lines: seq<string>, lines': seq<string>, i: nat, j: nat, acc: seq<Req>)
    requires |lines| == |lines'| && i < j <= |lines|
    requires forall m :: i <= m <= j && m < |lines| ==> lines[m] == lines'[m]
    ensures Fenced(lines, i, j, acc) == Fenced(lines', i, j, acc)
    ensures j < |lines| && Fenced(lines, i, j, acc).Continue? ==> Fenced(lines, i, j, acc).next == j + 2
  {
    if j < |lines| {
      assert lines[i..j + 1] == lines'[i..j + 1];
    }
  }

  lemma StepOnLine(lines: seq<string>, k: nat, acc: seq<Req>)
    requires k < |lines| && !Classify(lines[k]).Skip? && !Classify(lines[k]).Fence?
    ensures Step(lines, k, acc) == OnLine(lines, k, acc)
  {
  }

  lemma OnLineSame(lines: seq<string>, lines': seq<string>, k: nat, acc: seq<Req>)
    requires k < |lines| && k < |lines'| && lines[k] == lines'[k]
    ensures OnLine(lines, k, acc) == OnLine(lines', k, acc)
  {
  }

  /** The parse from line `k` on reads only the lines from `k` on. */
  lemma {:induction false} ParseSame(lines: seq<string>, lines': seq<string>, k: nat, acc: seq<Req>)
    requires |lines| == |lines'|
    requires forall m :: k <= m < |lines| ==> lines[m] == lines'[m]
    ensures ParseFrom(lines, k, acc) == ParseFrom(lines', k, acc)
    decreases |lines| - k
  {
    if k < |lines| {
      StepSame(lines, lines', k, acc);
      var n := Step(lines, k, acc);
      if n.Continue? {
        ParseSame(lines, lines', n.next, n.reqs);
      }
      SameAfterStep(lines, lines', k, acc, n);
    }
  }

  /**
    The line right after a closing fence is never read: two files that differ
    only there, even when one has a title line there, parse the same.
   */
  lemma LineAfterFenceIgnored(lines: seq<string>, lines': seq<string>, i: nat, j: nat, acc: seq<Req>)
    requires i < j && j + 1 < |lines| == |lines'| && Classify(lines[i]).Fence? && HasPrefix(lines[j], CodeFence)
    requires forall m :: i < m < j ==> !HasPrefix(lines[m], CodeFence)
    requires forall m :: 0 <= m < |lines| && m != j + 1 ==> lines'[m] == lines[m]
    ensures ParseFrom(lines', i, acc) == ParseFrom(lines, i, acc)
  {
    FenceTurnSame(lines, lines', i, j, acc);
    SameTurnSameRest(lines, lines', i, j + 2, acc);
  }

  /**
    Two files whose turn at `i` agrees, and that agree from where it goes on,
    parse the same from `i`.
   */
  lemma SameTurnSameRest(lines: seq<string>, lines': seq<string>, i: nat, k: nat, acc: seq<Req>)
    requires i < |lines| == |lines'| && Step(lines', i, acc) == Step(lines, i, acc)
    requires Step(lines, i, acc).Continue? ==> Step(lines, i, acc).next == k
    requires forall m :: k <= m < |lines| ==> lines[m] == lines'[m]
    ensures ParseFrom(lines', i, acc) == ParseFrom(lines, i, acc)
  {
    var n := Step(lines, i, acc);
    if n.Continue? {
      ParseSame(lines, lines', k, n.reqs);
    }
    SameAfterStep(lines, lines', i, acc, n);
  }

  /** A closed fence takes the same turn in both files, and goes on at `j + 2`. */
  lemma FenceTurnSame(lines: seq<string>, lines': seq<string>, i: nat, j: nat, acc: seq<Req>)
    requires i < j && j + 1 < |lines| == |lines'| && Classify(lines[i]).Fence? && HasPrefix(lines[j], CodeFence)
    requires forall m :: i < m < j ==> !HasPrefix(lines[m], CodeFence)
    requires forall m :: 0 <= m < |lines| && m != j + 1 ==> lines'[m] == lines[m]
    ensures Step(lines', i, acc) == Step(lines, i, acc)
    ensures Step(lines, i, acc).Continue? ==> Step(lines, i, acc).next == j + 2
  {
    assert lines'[i] == lines[i] && lines'[j] == lines[j];
    ClosingFence(lines, i, j);
    ClosingFence(lines', i, j);
    StepFence(lines, i, acc);
    StepFence(lines', i, acc);
    FencedSame(lines, lines', i, j, acc);
  }

  /** Two parses that take the same turn at `i` and agree from where it goes on agree at `i`. */
  lemma SameAfterStep(lines: seq<string>, lines': seq<string>, i: nat, acc: seq<Req>, n: Next)
    requires i < |lines| && i < |lines'| && Step(lines, i, acc) == n && Step(lines', i, acc) == n
    requires n.Continue? ==> ParseFrom(lines, n.next, n.reqs) == ParseFrom(lines', n.next, n.reqs)
    ensures ParseFrom(lines, i, acc) == ParseFrom(lines', i, acc)
  {
    ParseFromStep(lines, i, acc, n);
    ParseFromStep(lines', i, acc, n);
  }

  /** The parse at line `i` is the turn at `i`, then the parse from where it goes on. */
  lemma ParseFromStep(lines: seq<string>, i: nat, acc: seq<Req>, n: Next)
    requires i < |lines| && Step(lines, i, acc) == n
    ensures ParseFrom(lines, i, acc) == if n.Continue? then ParseFrom(lines, n.next, n.reqs) else Panic(n.line)
  {
  }

  // Lines in front of the ones being parsed

  /** A turn's outcome with its next line moved `d` further on. */
  function Shifted(n: Next, d: nat): (m: Next)
    ensures m.Continue? <==> n.Continue?
    ensures n.Continue? ==> m.next == d + n.next && m.reqs == n.reqs
    ensures n.Fail? ==> m == n
  {
    match n
    case Continue(next, reqs) => Continue(d + next, reqs)
    case Fail(line) => Fail(line)
  }

  /** `all` is `lines` with `d` other lines in front. */
  predicate Behind(all: seq<string>, lines: seq<string>, d: nat) {
    |all| == d + |lines| && forall m :: 0 <= m < |lines| ==> all[d + m] == lines[m]
  }

  /** Lines put in front of a file. */
  lemma BehindConcat(pre: seq<string>, lines: seq<string>)
    ensures Behind(pre + lines, lines, |pre|)
  {
  }

  /** The scan for a closing fence does not see lines put in front. */
  lemma {:induction false} FenceEndShift(all: seq<string>, lines: seq<string>, d: nat, j: nat, k: nat)
    requires Behind(all, lines, d) && j <= |lines| && k == d + j
    ensures FenceEnd(all, k) == d + FenceEnd(lines, j)
    decreases |lines| - j
  {
    if j < |lines| {
      assert all[k] == lines[j];
      if !HasPrefix(lines[j], CodeFence) {
        FenceEndShift(all, lines, d, j + 1, k + 1);
      }
    }
  }

  /** A turn does not see lines put in front: it only goes on further down. */
  lemma StepShift(all: seq<string>, lines: seq<string>, d: nat, i: nat, acc: seq<Req>)
    requires Behind(all, lines, d) && i < |lines|
    ensures Step(all, d + i, acc) == Shifted(Step(lines, i, acc), d)
  {
    assert all[d + i] == lines[i];
    var c := Classify(lines[i]);
    if c.Fence? {
      FenceStepShift(all, lines, d, i, acc);
    } else if !c.Skip? {
      StepOnLine(lines, i, acc);
      StepOnLine(all, d + i, acc);
    }
  }

  lemma FenceStepShift(all: seq<string>, lines: seq<string>, d: nat, i: nat, acc: seq<Req>)
    requires Behind(all, lines, d) && i < |lines| && all[d + i] == lines[i] && Classify(lines[i]).Fence?
    ensures Step(all, d + i, acc) == Shifted(Step(lines, i, acc), d)
  {
    StepFence(lines, i, acc);
    StepFence(all, d + i, acc);
    FenceTurnShift(all, lines, d, i, acc);
  }

  /** The search for the closing fence and the turn it gives do not see lines put in front. */
  lemma FenceTurnShift(all: seq<string>, lines: seq<string>, d: nat, i: nat, acc: seq<Req>)
    requires Behind(all, lines, d) && i < |lines|
    ensures Fenced(all, d + i, FenceEnd(all, d + i + 1), acc) == Shifted(Fenced(lines, i, FenceEnd(lines, i + 1), acc), d)
  {
    FenceEndShift(all, lines, d, i + 1, d + i + 1);
    FencedShift(all, lines, d, i, FenceEnd(lines, i + 1), FenceEnd(all, d + i + 1), acc);
  }

  /** A fence turn does not see lines put in front. */
  lemma FencedShift(all: seq<string>, lines: seq<string>, d: nat, i: nat, j: nat, j': nat, acc: seq<Req>)
    requires Behind(all, lines, d) && i < j <= |lines| && j' == d + j
    ensures Fenced(all, d + i, j', acc) == Shifted(Fenced(lines, i, j, acc), d)
  {
    if j < |lines| {
      assert all[d + i..d + j + 1] == lines[i..j + 1];
    }
  }

  /** The parse from line `i` does not see lines put in front of the file. */
  lemma {:induction false} ParseShift(all: seq<string>, lines: seq<string>, d: nat, i: nat, k: nat, acc: seq<Req>)
    requires Behind(all, lines, d) && k == d + i
    ensures ParseFrom(all, k, acc) == ParseFrom(lines, i, acc)
    decreases |lines| - i
  {
    if i < |lines| {
      var n := Step(lines, i, acc);
      StepShift(all, lines, d, i, acc);
      if n.Continue? {
        ParseShift(all, lines, d, n.next, d + n.next, n.reqs);
      }
      ShiftedParse(all, lines, d, i, acc, n);
    }
  }

  /** A turn and its moved copy give the same parse, when the parses from where they go on agree. */
  lemma ShiftedParse(all: seq<string>, lines: seq<string>, d: nat, i: nat, acc: seq<Req>, n: Next)
    requires i < |lines| && d + i < |all| && Step(lines, i, acc) == n && Step(all, d + i, acc) == Shifted(n, d)
    requires n.Continue? ==> ParseFrom(all, d + n.next, n.reqs) == ParseFrom(lines, n.next, n.reqs)
    ensures ParseFrom(all, d + i, acc) == ParseFrom(lines, i, acc)
  {
    ParseFromStep(lines, i, acc, n);
    ParseFromStep(all, d + i, acc, Shifted(n, d));
  }

  /** Lines parsed from the start give the same outcome when they follow other lines. */
  lemma ParsedAfter(pre: seq<string>, lines: seq<string>, acc: seq<Req>, p: Parse)
    requires ParseFrom(lines, 0, acc) == p
    ensures ParseFrom(pre + lines, |pre|, acc) == p
  {
    BehindConcat(pre, lines);
    ParseShift(pre + lines, lines, |pre|, 0, |pre|, acc);
  }
}
