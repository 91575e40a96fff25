/**
  A worked example: an entry written by `-new`, parsed back from the file
  text, and then filtered in a repository on two branches.
 */
module Examples {
  import opened Strings
  import opened Requirements
  import opened Parser
  import opened Filter
  import opened Template

  /** The entry `-new` writes for `Fix login bug` in `service-auth` on `release-1.2`. */
  function LoginBug(): Req {
    TemplateReq("Fix login bug", "2024-05-01", "service-auth", "release-1.2")
  }

  /** The text `-new` appends for it parses back to exactly that requirement. */
  lemma LoginBugParsed()
    ensures ParseText(TemplateText("Fix login bug", "2024-05-01", "service-auth", "release-1.2")) == Parsed([LoginBug()])
  {
    var today := "2024-05-01";
    assert today[0] != ':' && !IsSpace(today[0]);
    TemplateFileRoundTrip("Fix login bug", today, "service-auth", "release-1.2");
  }

  /** Its repository and branch entries are stored as written. */
  lemma LoginBugEntries()
    ensures LoginBug().repos == ["service-auth"] && LoginBug().branches == ["release-1.2"] && !LoginBug().done
  {
    assert !IsSpace("service-auth"[0]) && !IsSpace("release-1.2"[0]);
  }

  /** Every string contains itself, at index 0. */
  lemma ContainsItself(s: string)
    ensures Contains(s, s)
  {
    assert HasPrefix(s, s);
  }

  /** `feature-x` does not occur in `release-1.2`: no `f` does. */
  lemma FeatureNotInRelease()
    ensures !Contains("release-1.2", "feature-x")
  {
    var s, sub := "release-1.2", "feature-x";
    forall k | 0 <= k && k + |sub| <= |s|
      ensures !OccursAt(s, sub, k)
    {
      assert s[k..k + |sub|][0] == s[k] != 'f';
    }
    IndexOfFirst(s, sub);
  }

  /** In `service-auth` on `feature-x` it is shown with repo index 0 and no branch index. */
  lemma LoginBugOnFeatureBranch()
    ensures Selected([LoginBug()], false, "service-auth", "feature-x") == [LoginBug().(repoMatched := 0)]
  {
    LoginBugEntries();
    ShownOnFeatureBranch(LoginBug());
  }

  /** On `master` the branch index stays -1 even when a branch entry contains the name. */
  lemma LoginBugOnMaster()
    ensures Selected([LoginBug().(branches := ["master"])], false, "service-auth", "master")
      == [LoginBug().(branches := ["master"], repoMatched := 0)]
  {
    LoginBugEntries();
    ShownOnMaster(LoginBug().(branches := ["master"]));
  }

  lemma ShownOnFeatureBranch(r: Req)
    requires r.repos == ["service-auth"] && r.branches == ["release-1.2"] && !r.done
    ensures Selected([r], false, "service-auth", "feature-x") == [r.(repoMatched := 0)]
  {
    ContainsItself("service-auth");
    FeatureNotInRelease();
    assert [r][..0] == [];
  }

  lemma ShownOnMaster(r: Req)
    requires r.repos == ["service-auth"] && r.branches == ["master"] && !r.done
    ensures Selected([r], false, "service-auth", "master") == [r.(repoMatched := 0)]
  {
    ContainsItself("service-auth");
    assert [r][..0] == [];
  }
}
