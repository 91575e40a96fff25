/**
  The listing filter of requirement.go:183-212: the requirements not yet
  done and, unless every one is asked for or the branch is unknown, only
  those whose repos name the current repository, annotated in place with
  where the repository and the branch were found.
 */
module Filter {
  import opened Strings
  import opened Requirements

  /** On `master` or `main` no branch entry is highlighted. */
  predicate IsMain(branch: string) {
    branch == "master" || branch == "main"
  }

  /**
    The index of the first entry that contains `key` as a substring, or -1:
    what the `for i, v := range … { if strings.Contains(v, key) { …; break } }`
    scans of requirement.go:195-201 and 205-210 find.
   */
  function FirstContaining(entries: seq<string>, key: string): (k: int)
    ensures -1 <= k < |entries|
  {
    if entries == [] then -1
    else if Contains(entries[0], key) then 0
    else
      var k := FirstContaining(entries[1..], key);
      if k < 0 then -1 else k + 1
  }

  /** `k` is the least index of an entry containing `key`, or -1 when there is none. */
  predicate IsFirstContaining(entries: seq<string>, key: string, k: int) {
    -1 <= k < |entries|
    && (k >= 0 ==> Contains(entries[k], key))
    && forall m :: 0 <= m < |entries| && (k < 0 || m < k) ==> !Contains(entries[m], key)
  }

  /** `FirstContaining` is the least index containing `key`, and the only value that is. */
  lemma {:induction false} FirstContainingIff(entries: seq<string>, key: string, k: int)
    ensures FirstContaining(entries, key) == k <==> IsFirstContaining(entries, key, k)
  {
    FirstContainingLeast(entries, key);
  }

  lemma {:induction false} FirstContainingLeast(entries: seq<string>, key: string)
    ensures IsFirstContaining(entries, key, FirstContaining(entries, key))
  {
    if entries != [] && !Contains(entries[0], key) {
      FirstContainingLeast(entries[1..], key);
      var k := FirstContaining(entries[1..], key);
      forall m | 0 <= m < |entries| && (FirstContaining(entries, key) < 0 || m < FirstContaining(entries, key))
        ensures !Contains(entries[m], key)
      {
        if m > 0 {
          assert entries[m] == entries[1..][m - 1];
        }
      }
    }
  }

  /** The scan itself: the entries in order, stopping at the first that contains `key`. */
  method FindContaining(entries: seq<string>, key: string) returns (k: int)
    ensures k == FirstContaining(entries, key)
  {
    for i := 0 to |entries|
      invariant forall m :: 0 <= m < i ==> !Contains(entries[m], key)
    {
      if Contains(entries[i], key) {
        FirstContainingIff(entries, key, i);
        return i;
      }
    }
    FirstContainingIff(entries, key, -1);
    return -1;
  }

  /** `util.Filter(…, func(r) bool { return !r.Done })`: the requirements not done, in order. */
  function NotDone(rs: seq<Req>): (ps: seq<Req>)
    ensures |ps| <= |rs|
  {
    if rs == [] then []
    else NotDone(rs[..|rs| - 1]) + (if rs[|rs| - 1].done then [] else [rs[|rs| - 1]])
  }

  /** One more requirement for the done filter: kept at the end iff not done. */
  lemma NotDoneSnoc(rs: seq<Req>, i: nat)
    requires i < |rs|
    ensures NotDone(rs[..i + 1]) == NotDone(rs[..i]) + (if rs[i].done then [] else [rs[i]])
  {
    assert rs[..i + 1][..i] == rs[..i];
  }

  /** The repository is listed: some repo entry contains `cwd`. */
  predicate InRepo(r: Req, cwd: string) {
    FirstContaining(r.repos, cwd) >= 0
  }

  /**
    The annotations a listed requirement receives: `RepoMatched` is the first
    repo entry containing `cwd`; `BranchMatched` is the first branch entry
    containing `branch` unless on a main branch, and keeps its value when no
    entry is found.
   */
  function Annotated(r: Req, cwd: string, branch: string): Req {
    var b := if IsMain(branch) then -1 else FirstContaining(r.branches, branch);
    r.(repoMatched := FirstContaining(r.repos, cwd), branchMatched := if b >= 0 then b else r.branchMatched)
  }

  /** The loop of requirement.go:193-212: the listed requirements, annotated, in order. */
  function Matched(rs: seq<Req>, cwd: string, branch: string): (ms: seq<Req>)
    ensures |ms| <= |rs|
  {
    if rs == [] then []
    else
      var last := rs[|rs| - 1];
      Matched(rs[..|rs| - 1], cwd, branch) + (if InRepo(last, cwd) then [Annotated(last, cwd, branch)] else [])
  }

  /** One more requirement for the repository loop: appended, annotated, iff it lists the repository. */
  lemma MatchedSnoc(rs: seq<Req>, i: nat, cwd: string, branch: string)
    requires i < |rs|
    ensures Matched(rs[..i + 1], cwd, branch) ==
      Matched(rs[..i], cwd, branch) + (if InRepo(rs[i], cwd) then [Annotated(rs[i], cwd, branch)] else [])
  {
    assert rs[..i + 1][..i] == rs[..i];
  }

  /** What is shown: with `-all` or no branch, every requirement not done; otherwise the matched ones. */
  function Selected(rs: seq<Req>, all: bool, cwd: string, branch: string): seq<Req> {
    if all || branch == "" then NotDone(rs) else Matched(NotDone(rs), cwd, branch)
  }

  /**
    requirement.go:194-210 for one requirement: find the repository, and if
    it is listed record where, then look for the branch unless on a main one.
   */
  method Annotate(req: Requirement, cwd: string, branch: string, isMain: bool) returns (matched: bool)
    requires isMain == IsMain(branch)
    modifies req
    ensures matched == InRepo(old(req.View()), cwd)
    ensures req.View() == if matched then Annotated(old(req.View()), cwd, branch) else old(req.View())
  {
    var repo := FindContaining(req.repos, cwd);
    if repo < 0 {
      return false;
    }
    req.repoMatched := repo;
    if !isMain {
      var b := FindContaining(req.branches, branch);
      if b >= 0 {
        req.branchMatched := b;
      }
    }
    return true;
  }

  /** No record of `picked` is among the records of `rs` from index `i` on. */
  predicate NoneFrom(picked: seq<Requirement>, rs: seq<Requirement>, i: nat) {
    forall a, k :: 0 <= a < |picked| && i <= k < |rs| ==> picked[a] != rs[k]
  }

  /**
    Picking record `i` of a distinct sequence, or passing it by, keeps the
    picked records distinct and apart from the ones still to come.
   */
  lemma PickStep(rs: seq<Requirement>, picked: seq<Requirement>, i: nat)
    requires Distinct(rs) && i < |rs|
    requires Distinct(picked) && (forall r :: r in picked ==> r in rs) && NoneFrom(picked, rs, i)
    ensures NoneFrom(picked, rs, i + 1)
    ensures Distinct(picked + [rs[i]]) && (forall r :: r in picked + [rs[i]] ==> r in rs) && NoneFrom(picked + [rs[i]], rs, i + 1)
  {
    var p' := picked + [rs[i]];
    forall a, b | 0 <= a < b < |p'|
      ensures p'[a] != p'[b]
    {
      if b < |picked| {
        assert p'[a] == picked[a] && p'[b] == picked[b];
      } else {
        assert p'[a] == picked[a] && p'[b] == rs[i];
      }
    }
    forall a, k | 0 <= a < |p'| && i + 1 <= k < |rs|
      ensures p'[a] != rs[k]
    {
      if a < |picked| {
        assert p'[a] == picked[a];
      } else {
        assert p'[a] == rs[i];
      }
    }
  }

  /** `util.Filter` over the records: the ones not done, in order, nothing changed. */
  method KeepNotDone(reqs: seq<Requirement>) returns (filtered: seq<Requirement>)
    requires Distinct(reqs)
    ensures Views(filtered) == NotDone(Views(reqs))
    ensures Distinct(filtered) && forall r :: r in filtered ==> r in reqs
  {
    ghost var vs := Views(reqs);
    filtered := [];
    for i := 0 to |reqs|
      invariant Kept(reqs, vs, i, filtered)
    {
      filtered := Keep(reqs, vs, i, filtered);
    }
    assert vs[..|reqs|] == vs;
  }

  /** One turn of the done filter: record `i` is kept iff it is not done. */
  method Keep(reqs: seq<Requirement>, ghost vs: seq<Req>, i: nat, filtered: seq<Requirement>) returns (filtered': seq<Requirement>)
    requires i < |reqs| && Kept(reqs, vs, i, filtered)
    ensures Kept(reqs, vs, i + 1, filtered')
  {
    NotDoneSnoc(vs, i);
    PickStep(reqs, filtered, i);
    filtered' := filtered;
    if !reqs[i].done {
      ViewsSnoc(filtered, reqs[i]);
      filtered' := filtered + [reqs[i]];
    }
  }

  /** The state of the done filter after `i` records. */
  ghost predicate Kept(reqs: seq<Requirement>, vs: seq<Req>, i: nat, filtered: seq<Requirement>)
    reads reqs, filtered
  {
    && Distinct(reqs) && i <= |reqs| && vs == Views(reqs)
    && Views(filtered) == NotDone(vs[..i])
    && Distinct(filtered) && (forall r :: r in filtered ==> r in reqs) && NoneFrom(filtered, reqs, i)
  }

  /**
    requirement.go:183-212: drop the done requirements and, unless `all` is
    set or the branch is unknown, keep only those listing the repository,
    setting their annotations in place.
   */
  method Select(reqs: seq<Requirement>, all: bool, cwd: string, branch: string) returns (shown: seq<Requirement>)
    requires Distinct(reqs)
    modifies set r | r in reqs
    ensures Views(shown) == Selected(old(Views(reqs)), all, cwd, branch)
    ensures Distinct(shown) && forall r :: r in shown ==> r in reqs
    ensures forall r :: r in reqs && r !in shown ==> r.View() == old(r.View())
  {
    var filtered := KeepNotDone(reqs);
    if all || branch == "" {
      return filtered;
    }
    shown := MatchAll(filtered, cwd, branch);
  }

  /**
    requirement.go:193-212: keep the records listing the repository, in
    order, annotating them in place; the others are left as they were.
   */
  method MatchAll(filtered: seq<Requirement>, cwd: string, branch: string) returns (shown: seq<Requirement>)
    requires Distinct(filtered)
    modifies set r | r in filtered
    ensures Views(shown) == Matched(old(Views(filtered)), cwd, branch)
    ensures Distinct(shown) && forall r :: r in shown ==> r in filtered
    ensures forall r :: r in filtered && r !in shown ==> r.View() == old(r.View())
  {
    var isMain := branch == "master" || branch == "main";
    ghost var before := Views(filtered);
    ghost var sv: seq<Req> := [];
    shown := [];
    for i := 0 to |filtered|
      invariant Visited(filtered, before, i, shown, sv, cwd, branch)
    {
      shown, sv := Visit(filtered, before, i, shown, sv, cwd, branch, isMain);
    }
    assert before[..|filtered|] == before;
    ViewsAre(shown, sv);
    forall r | r in filtered && r !in shown
      ensures r.View() == old(r.View())
    {
      var k :| 0 <= k < |filtered| && filtered[k] == r;
      assert before[k] == old(r.View());
    }
  }

  /** The state of the loop of requirement.go:193-212 after `i` records. */
  ghost predicate Visited(filtered: seq<Requirement>, before: seq<Req>, i: nat, shown: seq<Requirement>, sv: seq<Req>, cwd: string, branch: string)
    reads filtered, shown
  {
    && |before| == |filtered| && i <= |filtered| && Distinct(filtered)
    && sv == Matched(before[..i], cwd, branch)
    && |shown| == |sv| && (forall a :: 0 <= a < |shown| ==> shown[a].View() == sv[a])
    && (forall k :: i <= k < |filtered| ==> filtered[k].View() == before[k])
    && (forall k :: 0 <= k < i && filtered[k] !in shown ==> filtered[k].View() == before[k])
    && Distinct(shown) && (forall r :: r in shown ==> r in filtered) && NoneFrom(shown, filtered, i)
  }

  method Visit(filtered: seq<Requirement>, ghost before: seq<Req>, i: nat, shown: seq<Requirement>, ghost sv: seq<Req>,
               cwd: string, branch: string, isMain: bool) returns (shown': seq<Requirement>, ghost sv': seq<Req>)
    requires i < |filtered| && isMain == IsMain(branch)
    requires Visited(filtered, before, i, shown, sv, cwd, branch)
    modifies filtered[i]
    ensures Visited(filtered, before, i + 1, shown', sv', cwd, branch)
  {
    MatchedSnoc(before, i, cwd, branch);
    PickStep(filtered, shown, i);
    var req := filtered[i];
    var matched := Annotate(req, cwd, branch, isMain);
    shown', sv' := shown, sv;
    if matched {
      shown', sv' := shown + [req], sv + [req.View()];
    }
  }

  // Properties of the filter

  /** A requirement survives the done filter iff it was there and not done. */
  lemma {:induction false} NotDoneMembers(rs: seq<Req>, r: Req)
    ensures r in NotDone(rs) <==> r in rs && !r.done
  {
    if rs != [] {
      NotDoneMembers(rs[..|rs| - 1], r);
      assert rs == rs[..|rs| - 1] + [rs[|rs| - 1]];
    }
  }

  /** The done filter keeps order: it distributes over concatenation. */
  lemma {:induction false} NotDoneConcat(xs: seq<Req>, ys: seq<Req>)
    ensures NotDone(xs + ys) == NotDone(xs) + NotDone(ys)
  {
    if ys != [] {
      var ys' := ys[..|ys| - 1];
      NotDoneConcat(xs, ys');
      assert (xs + ys)[..|xs + ys| - 1] == xs + ys';
      assert (xs + ys)[|xs + ys| - 1] == ys[|ys| - 1];
    } else {
      assert xs + ys == xs;
    }
  }

  /** Applying the done filter twice is applying it once. */
  lemma {:induction false} NotDoneIdempotent(rs: seq<Req>)
    ensures NotDone(NotDone(rs)) == NotDone(rs)
  {
    if rs != [] {
      var init := rs[..|rs| - 1];
      var last := rs[|rs| - 1];
      NotDoneIdempotent(init);
      NotDoneConcat(NotDone(init), if last.done then [] else [last]);
      if !last.done {
        assert NotDone([last]) == NotDone([]) + [last] by {
          assert [last][..0] == [];
        }
      }
    }
  }

  /** The repository loop keeps order: it distributes over concatenation. */
  lemma {:induction false} MatchedConcat(xs: seq<Req>, ys: seq<Req>, cwd: string, branch: string)
    ensures Matched(xs + ys, cwd, branch) == Matched(xs, cwd, branch) + Matched(ys, cwd, branch)
  {
    if ys != [] {
      var ys' := ys[..|ys| - 1];
      MatchedConcat(xs, ys', cwd, branch);
      assert (xs + ys)[..|xs + ys| - 1] == xs + ys';
      assert (xs + ys)[|xs + ys| - 1] == ys[|ys| - 1];
    } else {
      assert xs + ys == xs;
    }
  }

  /** A requirement is shown iff it is the annotation of one that lists the repository. */
  lemma {:induction false} MatchedMembers(rs: seq<Req>, cwd: string, branch: string, m: Req)
    ensures m in Matched(rs, cwd, branch) <==> exists r :: r in rs && InRepo(r, cwd) && m == Annotated(r, cwd, branch)
  {
    if rs != [] {
      var init, last := rs[..|rs| - 1], rs[|rs| - 1];
      MatchedMembers(init, cwd, branch, m);
      assert rs == init + [last];
      if m in Matched(rs, cwd, branch) && m !in Matched(init, cwd, branch) {
        assert InRepo(last, cwd) && m == Annotated(last, cwd, branch);
      }
    }
  }

  /**
    The annotations: the repo index is the least one whose entry contains
    `cwd`; the branch index is the least one containing `branch` when not on
    a main branch and there is one, and is left as it was otherwise. Nothing
    else of the requirement changes.
   */
  lemma AnnotatedFacts(r: Req, cwd: string, branch: string)
    requires InRepo(r, cwd)
    ensures var a := Annotated(r, cwd, branch);
      && IsFirstContaining(r.repos, cwd, a.repoMatched) && a.repoMatched >= 0
      && (IsMain(branch) ==> a.branchMatched == r.branchMatched)
      && (!IsMain(branch) && (exists k :: 0 <= k < |r.branches| && Contains(r.branches[k], branch)) ==>
            IsFirstContaining(r.branches, branch, a.branchMatched))
      && (!IsMain(branch) && (forall k :: 0 <= k < |r.branches| ==> !Contains(r.branches[k], branch)) ==>
            a.branchMatched == r.branchMatched)
      && a.(repoMatched := r.repoMatched, branchMatched := r.branchMatched) == r
  {
    FirstContainingLeast(r.repos, cwd);
    FirstContainingLeast(r.branches, branch);
  }

  /** Nothing shown is done, whatever the mode. */
  lemma SelectedNotDone(rs: seq<Req>, all: bool, cwd: string, branch: string)
    ensures forall m :: m in Selected(rs, all, cwd, branch) ==> !m.done
  {
    forall m | m in Selected(rs, all, cwd, branch)
      ensures !m.done
    {
      if all || branch == "" {
        NotDoneMembers(rs, m);
      } else {
        MatchedMembers(NotDone(rs), cwd, branch, m);
        var r :| r in NotDone(rs) && InRepo(r, cwd) && m == Annotated(r, cwd, branch);
        NotDoneMembers(rs, r);
      }
    }
  }

  /** The filter keeps the order of the file: it distributes over concatenation. */
  lemma SelectedConcat(xs: seq<Req>, ys: seq<Req>, all: bool, cwd: string, branch: string)
    ensures Selected(xs + ys, all, cwd, branch) == Selected(xs, all, cwd, branch) + Selected(ys, all, cwd, branch)
  {
    NotDoneConcat(xs, ys);
    MatchedConcat(NotDone(xs), NotDone(ys), cwd, branch);
  }

  /**
    With `-all` or no branch, parsed requirements are shown exactly when not
    done, in order, with both annotations still -1.
   */
  lemma ShowAllUnannotated(rs: seq<Req>, all: bool, cwd: string, branch: string)
    requires all || branch == ""
    requires forall k :: 0 <= k < |rs| ==> rs[k].WellFormed()
    ensures Selected(rs, all, cwd, branch) == NotDone(rs)
    ensures forall m :: m in Selected(rs, all, cwd, branch) ==> !m.done && m.repoMatched == -1 && m.branchMatched == -1
  {
    forall m | m in NotDone(rs)
      ensures !m.done && m.repoMatched == -1 && m.branchMatched == -1
    {
      NotDoneMembers(rs, m);
    }
  }

  /**
    Otherwise a requirement of the file is shown, annotated, exactly when it
    is not done and lists the repository.
   */
  lemma ShownIff(rs: seq<Req>, cwd: string, branch: string, r: Req)
    requires branch != ""
    ensures r in rs && !r.done && InRepo(r, cwd) ==> Annotated(r, cwd, branch) in Selected(rs, false, cwd, branch)
    ensures forall m :: m in Selected(rs, false, cwd, branch) ==>
      exists s :: s in rs && !s.done && InRepo(s, cwd) && m == Annotated(s, cwd, branch)
  {
    NotDoneMembers(rs, r);
    MatchedMembers(NotDone(rs), cwd, branch, Annotated(r, cwd, branch));
    forall m | m in Selected(rs, false, cwd, branch)
      ensures exists s :: s in rs && !s.done && InRepo(s, cwd) && m == Annotated(s, cwd, branch)
    {
      MatchedMembers(NotDone(rs), cwd, branch, m);
      var s :| s in NotDone(rs) && InRepo(s, cwd) && m == Annotated(s, cwd, branch);
      NotDoneMembers(rs, s);
    }
  }

  /** Annotating twice is annotating once, and keeps the requirement listed. */
  lemma AnnotatedIdempotent(r: Req, cwd: string, branch: string)
    ensures Annotated(Annotated(r, cwd, branch), cwd, branch) == Annotated(r, cwd, branch)
    ensures InRepo(Annotated(r, cwd, branch), cwd) == InRepo(r, cwd)
    ensures Annotated(r, cwd, branch).done == r.done
  {
  }

  /** The repository loop applied to its own output changes nothing. */
  lemma {:induction false} MatchedIdempotent(rs: seq<Req>, cwd: string, branch: string)
    ensures Matched(Matched(rs, cwd, branch), cwd, branch) == Matched(rs, cwd, branch)
  {
    if rs != [] {
      var init, last := rs[..|rs| - 1], rs[|rs| - 1];
      MatchedIdempotent(init, cwd, branch);
      var tail := if InRepo(last, cwd) then [Annotated(last, cwd, branch)] else [];
      MatchedConcat(Matched(init, cwd, branch), tail, cwd, branch);
      if InRepo(last, cwd) {
        AnnotatedIdempotent(last, cwd, branch);
        assert tail[..0] == [];
      }
    }
  }

  /** The shown requirements contain nothing done, so the done filter leaves them alone. */
  lemma {:induction false} NotDoneOfMatched(rs: seq<Req>, cwd: string, branch: string)
    requires forall k :: 0 <= k < |rs| ==> !rs[k].done
    ensures NotDone(Matched(rs, cwd, branch)) == Matched(rs, cwd, branch)
  {
    if rs != [] {
      var init, last := rs[..|rs| - 1], rs[|rs| - 1];
      NotDoneOfMatched(init, cwd, branch);
      var tail := if InRepo(last, cwd) then [Annotated(last, cwd, branch)] else [];
      NotDoneConcat(Matched(init, cwd, branch), tail);
      if InRepo(last, cwd) {
        assert tail[..0] == [];
      }
    }
  }

  /** Filtering the shown requirements again, with the same arguments, shows the same. */
  lemma SelectedIdempotent(rs: seq<Req>, all: bool, cwd: string, branch: string)
    ensures Selected(Selected(rs, all, cwd, branch), all, cwd, branch) == Selected(rs, all, cwd, branch)
  {
    NotDoneIdempotent(rs);
    if !(all || branch == "") {
      var ps := NotDone(rs);
      forall k | 0 <= k < |ps|
        ensures !ps[k].done
      {
        NotDoneMembers(rs, ps[k]);
      }
      NotDoneOfMatched(ps, cwd, branch);
      MatchedIdempotent(ps, cwd, branch);
    }
  }

  /** A done requirement is shown in no mode. */
  lemma DoneNeverShown(r: Req, all: bool, cwd: string, branch: string)
    requires r.done
    ensures Selected([r], all, cwd, branch) == []
  {
    assert [r][..0] == [];
  }
}
