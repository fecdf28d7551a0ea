/**
 Worked examples of the decision on concrete allow-lists and label lists.
 The run-level examples take the configured input through what it parses
 to, so that they hold for every way of writing that allow-list.
 */
module Scenarios {
  import opened Wrappers
  import opened Text
  import AllowList
  import opened Classifier
  import opened Action

  /** The allow-list "bug", "feature" written one per line. */
  lemma BugFeatureAllowList()
    ensures AllowList.Parse("bug\nfeature") == ["bug", "feature"]
  {
    assert Join(["bug", "feature"]) == "bug\nfeature";
    AllowList.ParseJoin(["bug", "feature"]);
  }

  /** Exactly one allowed label: accepted, reporting it. */
  lemma ScenarioOneMatch(allowedInput: string)
    requires AllowList.Parse(allowedInput) == ["bug", "feature"]
    ensures Run(allowedInput, Some(PullRequest(Some([Label("bug")])))) == Accepted("bug")
  {
    var ls := [Label("bug")];
    assert forall i :: 0 <= i < |ls| ==> ls[i].name in AllowList.Parse(allowedInput);
    RunAllMatch(allowedInput, ls);
  }

  /** Two allowed labels: rejected, carrying both. */
  lemma ScenarioTwoMatches(allowedInput: string)
    requires AllowList.Parse(allowedInput) == ["bug", "feature"]
    ensures Run(allowedInput, Some(PullRequest(Some([Label("bug"), Label("feature")])))) == Mismatch(["bug", "feature"])
  {
    var ls := [Label("bug"), Label("feature")];
    assert forall i :: 0 <= i < |ls| ==> ls[i].name in AllowList.Parse(allowedInput);
    assert Names(ls) == ["bug", "feature"];
    RunAllMatch(allowedInput, ls);
  }

  /** No allowed label: rejected with an empty matched list. */
  lemma ScenarioNoMatch(allowedInput: string)
    requires AllowList.Parse(allowedInput) == ["bug", "feature"]
    ensures Run(allowedInput, Some(PullRequest(Some([Label("chore")])))) == Mismatch([])
  {
    var ls := [Label("chore")];
    forall al | al in AllowList.Parse(allowedInput)
      ensures !SameIgnoringCase(al, "chore")
    {
      SameIgnoringCaseIsEquivalence(al, "chore", al);
    }
    RunNoMatch(allowedInput, ls);
  }

  /** Empty or missing labels: the "no labels" outcome, whatever the allow-list. */
  lemma ScenarioNoLabels(allowedInput: string)
    ensures Run(allowedInput, Some(PullRequest(Some([])))) == NoLabels
    ensures Run(allowedInput, Some(PullRequest(None))) == NoLabels
  {
  }

  /**
   Lines are not trimmed: the input `"Bug\n  Feature \n\n \nx"` keeps the
   blanks around the interior line `"  Feature "`, loses its empty line and
   keeps the whitespace-only line `" "` as an entry.
   */
  lemma ScenarioUntrimmed(lines: seq<string>)
    // `lines` is a pinned parameter, not a local: with the literal inside
    // `Join(...)` the verifier unfolds `Split` on it and the ensures costs far more.
    requires lines == ["Bug", "  Feature ", "", " ", "x"]
    ensures AllowList.Parse(Join(lines)) == ["Bug", "  Feature ", " ", "x"]
  {
    assert forall i :: 0 <= i < |lines| ==> Newline !in lines[i];
    SplitJoin(lines);
    assert lines == lines[..2] + lines[2..];
    AllowList.DropEmptyConcat(lines[..2], lines[2..]);
    AllowList.DropEmptyKeepsEntries(lines[..2]);
    AllowList.DropEmptyKeepsEntries(lines[3..]);
    assert lines[2..][0] == "" && lines[2..][1..] == lines[3..];
    assert AllowList.DropEmpty(lines[2..]) == lines[3..];
    assert lines[..2] + lines[3..] == ["Bug", "  Feature ", " ", "x"];
  }

  /** The comparison ignores case on both sides and reports the label as attached. */
  lemma ScenarioCaseInsensitive(allowedInput: string)
    requires AllowList.Parse(allowedInput) == ["Bug"]
    ensures Run(allowedInput, Some(PullRequest(Some([Label("BUG")])))) == Accepted("BUG")
  {
    var ls := [Label("BUG")];
    var allowed := ["Bug"];
    assert allowed[0] == "Bug" && SameIgnoringCase(allowed[0], "BUG");
    RunAllMatch(allowedInput, ls);
  }

  /** The same allowed label attached twice is two matches and fails. */
  lemma ScenarioDuplicate(allowedInput: string)
    requires AllowList.Parse(allowedInput) == ["bug"]
    ensures Run(allowedInput, Some(PullRequest(Some([Label("bug"), Label("bug")])))) == Mismatch(["bug", "bug"])
  {
    var ls := [Label("bug"), Label("bug")];
    assert forall i :: 0 <= i < |ls| ==> ls[i].name in AllowList.Parse(allowedInput);
    assert Names(ls) == ["bug", "bug"];
    RunAllMatch(allowedInput, ls);
  }

  /**
   Why the empty pieces must be dropped: an empty entry equals the empty
   label ignoring case, yet `find` hands back `""`, which is falsy.
   */
  lemma EmptyEntryIsFalsy()
    ensures Matches([""], "") && !Hit([""], "")
  {
    assert SameIgnoringCase("", "");
  }
}
