/**
 The whole decision of `run()`: the event payload either has no pull
 request, or a pull request whose `labels` may be missing, empty or a list
 of labels. Reading the inputs and reporting the outcome are left to the
 caller; `Run` returns the outcome as a `Verdict`.
 */
module Action {
  import opened Wrappers
  import opened Text
  import AllowList
  import opened Classifier

  /** A pull-request label; of its fields only `name` is consulted. */
  datatype Label = Label(name: string)

  /** The pull request of the event payload; `labels` may be absent. */
  datatype PullRequest = PullRequest(labels: Option<seq<Label>>)

  /**
   The outcome of one run: no pull request (a clean return), a pull request
   without labels, a number of matched labels other than one (carrying the
   matched labels), or exactly one matched label.
   */
  datatype Verdict = NotPullRequest | NoLabels | Mismatch(matched: seq<string>) | Accepted(name: string)
  {
    /** The outcomes reported as a failed run. */
    predicate Failed()
    {
      NoLabels? || Mismatch?
    }
  }

  /** The names of the labels, in order (`labels.map((l) => l.name)`). */
  function Names(ls: seq<Label>): (names: seq<string>)
    ensures |names| == |ls|
    ensures forall i :: 0 <= i < |ls| ==> names[i] == ls[i].name
  {
    seq(|ls|, i requires 0 <= i < |ls| => ls[i].name)
  }

  /** True when the pull request has a non-empty label list (`labels?.length` is truthy). */
  predicate HasLabels(pr: PullRequest)
  {
    pr.labels.Some? && |pr.labels.value| > 0
  }

  /** The decision of `run()` for the configured `allowed` input and the event's pull request. */
  function Run(allowedInput: string, payload: Option<PullRequest>): (v: Verdict)
    ensures v.Failed() ==> payload.Some?
    ensures v.Accepted? ==>
      && payload.Some? && HasLabels(payload.value)
      && v.name in Names(payload.value.labels.value)
      && Matches(AllowList.Parse(allowedInput), v.name)
    ensures v.Mismatch? ==> forall x :: x in v.matched ==> Matches(AllowList.Parse(allowedInput), x)
  {
    var allowed := AllowList.Parse(allowedInput);
    match payload
    case None => NotPullRequest
    case Some(pr) =>
      if !HasLabels(pr) then NoLabels
      else
        var names := Names(pr.labels.value);
        var c := Classify(allowed, names);
        ClassifyPartition(allowed, names);
        assert forall x :: x in c.matched ==> Matches(allowed, x) by {
          forall x | x in c.matched
            ensures Matches(allowed, x)
          {
            HitIffMatches(allowed, x);
          }
        }
        assert |c.matched| == 1 ==> c.matched[0] in multiset(names);
        if |c.matched| != 1 then Mismatch(c.matched) else Accepted(c.matched[0])
  }

  /** Outside a pull request the run returns cleanly, whatever the allow-list is. */
  lemma RunWithoutPullRequest(allowedInput: string, payload: Option<PullRequest>)
    ensures Run(allowedInput, payload) == NotPullRequest <==> payload.None?
    ensures payload.None? ==> !Run(allowedInput, payload).Failed()
  {
  }

  /**
   A pull request whose labels are missing or empty fails with the "no
   labels" outcome, and that outcome arises in no other case.
   */
  lemma RunNoLabels(allowedInput: string, payload: Option<PullRequest>)
    ensures Run(allowedInput, payload) == NoLabels <==> payload.Some? && !HasLabels(payload.value)
    ensures Run(allowedInput, payload) == NoLabels ==> Run(allowedInput, payload).Failed()
  {
  }

  /**
   For a pull request with labels, the run accepts exactly when one label
   position matches an allow-list entry ignoring case, and reports that
   label; otherwise it fails with every matching label, in order.
   */
  lemma RunDecision(allowedInput: string, ls: seq<Label>)
    requires |ls| > 0
    ensures var m := Kept(AllowList.Parse(allowedInput), Names(ls), true);
      Run(allowedInput, Some(PullRequest(Some(ls)))) ==
        if |m| == 1 then Accepted(m[0]) else Mismatch(m)
  {
    ClassifyIsKept(AllowList.Parse(allowedInput), Names(ls));
  }

  /** The run passes if and only if exactly one label of the pull request matches. */
  lemma RunAcceptedIffOneMatch(allowedInput: string, payload: Option<PullRequest>)
    ensures Run(allowedInput, payload).Accepted? <==>
      && payload.Some? && HasLabels(payload.value)
      && |Kept(AllowList.Parse(allowedInput), Names(payload.value.labels.value), true)| == 1
  {
    if payload.Some? && HasLabels(payload.value) {
      RunDecision(allowedInput, payload.value.labels.value);
    }
  }

  /**
   Two label positions that both match fail the run, including the same
   matching label attached twice.
   */
  lemma RunTwoMatchesFail(allowedInput: string, ls: seq<Label>, i: nat, j: nat)
    requires i < |ls| && j < |ls| && i != j
    requires Matches(AllowList.Parse(allowedInput), ls[i].name)
    requires Matches(AllowList.Parse(allowedInput), ls[j].name)
    ensures Run(allowedInput, Some(PullRequest(Some(ls)))).Mismatch?
    ensures |Run(allowedInput, Some(PullRequest(Some(ls)))).matched| >= 2
  {
    var names := Names(ls);
    RunDecision(allowedInput, ls);
    if i < j {
      TwoMatchesKeepTwo(AllowList.Parse(allowedInput), names, i, j);
    } else {
      TwoMatchesKeepTwo(AllowList.Parse(allowedInput), names, j, i);
    }
  }

  /**
   Labels that all match: a single label is accepted, several fail with all
   of them, in order.
   */
  lemma RunAllMatch(allowedInput: string, ls: seq<Label>)
    requires |ls| > 0
    requires forall i :: 0 <= i < |ls| ==> Matches(AllowList.Parse(allowedInput), ls[i].name)
    ensures Run(allowedInput, Some(PullRequest(Some(ls)))) ==
      if |ls| == 1 then Accepted(ls[0].name) else Mismatch(Names(ls))
  {
    RunDecision(allowedInput, ls);
    KeptAll(AllowList.Parse(allowedInput), Names(ls), true);
  }

  /**
   Labels none of which match fail with an empty matched list: an outcome
   distinct from the "no labels" failure.
   */
  lemma RunNoMatch(allowedInput: string, ls: seq<Label>)
    requires |ls| > 0
    requires forall i :: 0 <= i < |ls| ==> !Matches(AllowList.Parse(allowedInput), ls[i].name)
    ensures Run(allowedInput, Some(PullRequest(Some(ls)))) == Mismatch([])
    ensures Run(allowedInput, Some(PullRequest(Some(ls)))) != NoLabels
  {
    RunDecision(allowedInput, ls);
    KeptNone(AllowList.Parse(allowedInput), Names(ls), true);
  }
}
