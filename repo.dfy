/**
  The repository name the filter matches against: the last segment of the
  working directory, the text after its last `/` (requirement.go:374-382).
 */
module Repo {
  /** The text after the last `/` of `path`, or all of `path` when it has none. */
  function LastSegment(path: string): string
    decreases |path|
  {
    if path == [] || path[|path| - 1] == '/' then []
    else LastSegment(path[..|path| - 1]) + [path[|path| - 1]]
  }

  /** The segment is a suffix of the path, and holds no `/`. */
  lemma {:induction false} LastSegmentSuffix(path: string)
    ensures var seg := LastSegment(path);
      |seg| <= |path| && seg == path[|path| - |seg|..] && '/' !in seg
    decreases |path|
  {
    if path != [] && path[|path| - 1] != '/' {
      var init := path[..|path| - 1];
      LastSegmentSuffix(init);
      var seg, c := LastSegment(init), path[|path| - 1];
      assert path[|path| - |seg| - 1..] == init[|init| - |seg|..] + [c];
    }
  }

  /** The segment is the whole path, or a `/` comes right before it. */
  lemma {:induction false} LastSegmentBoundary(path: string)
    ensures var seg := LastSegment(path);
      seg == path || (|seg| < |path| && path[|path| - |seg| - 1] == '/')
    decreases |path|
  {
    if path != [] && path[|path| - 1] != '/' {
      var init := path[..|path| - 1];
      LastSegmentBoundary(init);
      var seg, c := LastSegment(init), path[|path| - 1];
      assert LastSegment(path) == seg + [c];
      if seg == init {
        assert path == init + [c];
      } else {
        var j := |init| - |seg| - 1;
        assert path[j] == init[j];
      }
    }
  }

  /** A path without `/` is its own last segment. */
  lemma {:induction false} NoSlashWhole(path: string)
    requires '/' !in path
    ensures LastSegment(path) == path
    decreases |path|
  {
    if path != [] {
      var init := path[..|path| - 1];
      assert forall k :: 0 <= k < |init| ==> init[k] == path[k];
      NoSlashWhole(init);
      assert path == init + [path[|path| - 1]];
    }
  }

  /** The segment after a `/` that no later `/` follows. */
  lemma {:induction false} AfterLastSlash(path: string, i: nat)
    requires i < |path| && path[i] == '/' && '/' !in path[i + 1..]
    ensures LastSegment(path) == path[i + 1..]
    decreases |path|
  {
    if i + 1 < |path| {
      var init := path[..|path| - 1];
      assert init[i + 1..] == path[i + 1..|path| - 1];
      assert forall k :: i + 1 <= k < |init| ==> init[k] == path[k];
      AfterLastSlash(init, i);
      assert path[i + 1..] == init[i + 1..] + [path[|path| - 1]];
    }
  }

  /**
    requirement.go:376-382: scan the working directory from its end; at the
    first `/` met, keep what follows it; with no `/`, keep it all.
   */
  method CurrentRepo(cwd: string) returns (repo: string)
    ensures repo == LastSegment(cwd)
  {
    repo := cwd;
    var i := |cwd| - 1;
    while i >= 0
      invariant -1 <= i < |cwd|
      invariant '/' !in cwd[i + 1..]
      decreases i
    {
      if cwd[i] == '/' {
        repo := cwd[i + 1..];
        AfterLastSlash(cwd, i);
        return;
      }
      assert cwd[i..] == [cwd[i]] + cwd[i + 1..];
      i := i - 1;
    }
    assert cwd[0..] == cwd;
    NoSlashWhole(cwd);
  }

  /** A path ending in `/` names no repository; otherwise the name is what follows the last `/`. */
  lemma CurrentRepoExamples()
    ensures LastSegment("/home/dev/") == []
    ensures LastSegment("/home/dev/service-auth") == "service-auth"
    ensures LastSegment("service-auth") == "service-auth"
  {
    var p := "/home/dev/service-auth";
    assert '/' !in p[10..];
    AfterLastSlash(p, 9);
    assert p[10..] == "service-auth";
    NoSlashWhole("service-auth");
  }
}
