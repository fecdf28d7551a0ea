/**
 The label classification loop of `run()`: each pull-request label goes to
 `matched` when the allow-list `find` returns a truthy entry equal to it
 ignoring case, and to `notMatched` otherwise.
 */
module Classifier {
  import opened Wrappers
  import opened Text

  /**
   The first allow-list entry equal to `l` ignoring case, or `None` when there
   is none (`allowed.find((al) => al.toLowerCase() === l.toLowerCase())`).
   */
  function Find(allowed: seq<string>, l: string): (found: Option<string>)
    ensures found.Some? ==> found.value in allowed && SameIgnoringCase(found.value, l)
    ensures found.None? <==> forall al :: al in allowed ==> !SameIgnoringCase(al, l)
  {
    if |allowed| == 0 then None
    else if SameIgnoringCase(allowed[0], l) then Some(allowed[0])
    else
      assert forall al :: al in allowed ==> al == allowed[0] || al in allowed[1..];
      Find(allowed[1..], l)
  }

  /** `find` returns the FIRST matching entry: every entry before it fails the comparison. */
  lemma {:induction false} FindIsFirst(allowed: seq<string>, l: string)
    requires Find(allowed, l).Some?
    ensures exists i :: (0 <= i < |allowed| && allowed[i] == Find(allowed, l).value
                         && forall j :: 0 <= j < i ==> !SameIgnoringCase(allowed[j], l))
  {
    if !SameIgnoringCase(allowed[0], l) {
      var rest := allowed[1..];
      FindIsFirst(rest, l);
      var k :| 0 <= k < |rest| && rest[k] == Find(rest, l).value
        && (forall j :: 0 <= j < k ==> !SameIgnoringCase(rest[j], l));
      forall j | 0 <= j < k + 1
        ensures !SameIgnoringCase(allowed[j], l)
      {
        if j > 0 {
          assert allowed[j] == rest[j - 1];
        }
      }
      assert allowed[k + 1] == Find(allowed, l).value;
    } else {
      assert allowed[0] == Find(allowed, l).value;
    }
  }

  /** JavaScript truthiness of a `string | undefined`: present and not the empty string. */
  predicate Truthy(found: Option<string>)
  {
    found.Some? && found.value != ""
  }

  /** The test `run()` applies to each label: the found entry is truthy. */
  predicate Hit(allowed: seq<string>, l: string)
  {
    Truthy(Find(allowed, l))
  }

  /** The intended test: some allow-list entry equals `l` ignoring case. */
  predicate Matches(allowed: seq<string>, l: string)
  {
    exists al :: al in allowed && SameIgnoringCase(al, l)
  }

  /** True of an allow-list without the empty string, as `AllowList.Parse` returns. */
  predicate NoEmptyEntry(allowed: seq<string>)
  {
    forall i :: 0 <= i < |allowed| ==> allowed[i] != ""
  }

  /**
   The truthiness test agrees with "some entry matches" except on the empty
   label, which only the empty entry can match and which is falsy.
   */
  lemma HitIffMatches(allowed: seq<string>, l: string)
    ensures Hit(allowed, l) <==> Matches(allowed, l) && l != ""
  {
    var found := Find(allowed, l);
    if found.Some? {
      SameIgnoringCaseIsEquivalence(found.value, l, l);
    }
  }

  /** Over an allow-list without empty entries the truthiness test is exactly "some entry matches". */
  lemma HitIffMatchesWithoutEmpty(allowed: seq<string>, l: string)
    requires NoEmptyEntry(allowed)
    ensures Hit(allowed, l) <==> Matches(allowed, l)
    ensures Find(allowed, l).Some? ==> Find(allowed, l).value != ""
  {
    HitIffMatches(allowed, l);
    if Matches(allowed, l) {
      var al :| al in allowed && SameIgnoringCase(al, l);
      SameIgnoringCaseIsEquivalence(al, l, l);
    }
  }

  /** The result of the loop: the labels pushed to `matched` and to `notMatched`. */
  datatype Classification = Classification(matched: seq<string>, notMatched: seq<string>)

  /**
   The classification of `labels`, built as the loop builds it: the last
   label is pushed to one of the two lists after the earlier ones, so every
   label lands in one list.
   */
  function Classify(allowed: seq<string>, labels: seq<string>): (c: Classification)
    ensures |c.matched| + |c.notMatched| == |labels|
  {
    if |labels| == 0 then Classification([], [])
    else
      var init := labels[..|labels| - 1];
      var l := labels[|labels| - 1];
      assert labels == init + [l];
      var c := Classify(allowed, init);
      if Hit(allowed, l) then Classification(c.matched + [l], c.notMatched)
      else Classification(c.matched, c.notMatched + [l])
  }

  /** Classifying one more label pushes it onto one of the two lists. */
  lemma ClassifyPush(allowed: seq<string>, labels: seq<string>, l: string)
    ensures Classify(allowed, labels + [l]) ==
      var c := Classify(allowed, labels);
      if Hit(allowed, l) then Classification(c.matched + [l], c.notMatched)
      else Classification(c.matched, c.notMatched + [l])
  {
    var next := labels + [l];
    assert next[..|next| - 1] == labels;
  }

  /** The `for ... of` loop of `run()`, pushing each label in turn. */
  method ClassifyLoop(allowed: seq<string>, labels: seq<string>) returns (matched: seq<string>, notMatched: seq<string>)
    ensures Classification(matched, notMatched) == Classify(allowed, labels)
  {
    matched := [];
    notMatched := [];
    var i := 0;
    while i < |labels|
      invariant 0 <= i <= |labels|
      invariant Classification(matched, notMatched) == Classify(allowed, labels[..i])
    {
      var l := labels[i];
      ClassifyPush(allowed, labels[..i], l);
      assert labels[..i + 1] == labels[..i] + [l];
      if Hit(allowed, l) {
        matched := matched + [l];
      } else {
        notMatched := notMatched + [l];
      }
      i := i + 1;
    }
    assert labels[..i] == labels;
  }

  /**
   The two lists partition the labels (together they hold each label as
   often as the input does), every matched label passes the test and no
   unmatched label does.
   */
  lemma {:induction false} ClassifyPartition(allowed: seq<string>, labels: seq<string>)
    ensures multiset(Classify(allowed, labels).matched) + multiset(Classify(allowed, labels).notMatched)
      == multiset(labels)
    ensures forall x :: x in Classify(allowed, labels).matched ==> Hit(allowed, x)
    ensures forall x :: x in Classify(allowed, labels).notMatched ==> !Hit(allowed, x)
  {
    if |labels| > 0 {
      var init := labels[..|labels| - 1];
      var l := labels[|labels| - 1];
      assert labels == init + [l];
      ClassifyPartition(allowed, init);
      ClassifyPush(allowed, init, l);
    }
  }

  /** A label lands in `matched` exactly when it passes the test, in `notMatched` exactly when it fails it. */
  lemma ClassifyMembership(allowed: seq<string>, labels: seq<string>, l: string)
    requires l in labels
    ensures l in Classify(allowed, labels).matched <==> Hit(allowed, l)
    ensures l in Classify(allowed, labels).notMatched <==> !Hit(allowed, l)
  {
    ClassifyPartition(allowed, labels);
    assert l in multiset(labels);
  }

  /** The labels of `labels` whose match status is `want`, in their order: a reference filter. */
  function Kept(allowed: seq<string>, labels: seq<string>, want: bool): (r: seq<string>)
    ensures |r| <= |labels|
  {
    if |labels| == 0 then []
    else if Matches(allowed, labels[0]) == want then [labels[0]] + Kept(allowed, labels[1..], want)
    else Kept(allowed, labels[1..], want)
  }

  /** The filter keeps exactly the labels with the wanted status. */
  lemma {:induction false} KeptMembers(allowed: seq<string>, labels: seq<string>, want: bool)
    ensures forall x :: x in Kept(allowed, labels, want) <==> x in labels && Matches(allowed, x) == want
  {
    if |labels| > 0 {
      KeptMembers(allowed, labels[1..], want);
      assert forall x :: x in labels <==> x == labels[0] || x in labels[1..];
    }
  }

  /** Filtering a concatenation filters each part. */
  lemma {:induction false} KeptConcat(allowed: seq<string>, a: seq<string>, b: seq<string>, want: bool)
    ensures Kept(allowed, a + b, want) == Kept(allowed, a, want) + Kept(allowed, b, want)
  {
    if |a| > 0 {
      assert (a + b)[1..] == a[1..] + b;
      KeptConcat(allowed, a[1..], b, want);
    } else {
      assert a + b == b;
    }
  }

  /** Filtering one more label appends it exactly when it has the wanted status. */
  lemma KeptPush(allowed: seq<string>, labels: seq<string>, l: string, want: bool)
    ensures Kept(allowed, labels + [l], want) ==
      Kept(allowed, labels, want) + if Matches(allowed, l) == want then [l] else []
  {
    KeptConcat(allowed, labels, [l], want);
    assert [l][1..] == [];
  }

  /**
   Over an allow-list without empty entries, `matched` is exactly the labels
   that match some entry and `notMatched` exactly the others, each in the
   labels' original order.
   */
  lemma {:induction false} ClassifyIsKept(allowed: seq<string>, labels: seq<string>)
    requires NoEmptyEntry(allowed)
    ensures Classify(allowed, labels) == Classification(Kept(allowed, labels, true), Kept(allowed, labels, false))
  {
    if |labels| > 0 {
      var init := labels[..|labels| - 1];
      var l := labels[|labels| - 1];
      assert labels == init + [l];
      ClassifyIsKept(allowed, init);
      ClassifyPush(allowed, init, l);
      KeptPush(allowed, init, l, true);
      KeptPush(allowed, init, l, false);
      HitIffMatchesWithoutEmpty(allowed, l);
    }
  }

  /**
   Only which strings the allow-list holds matters: duplicating or reordering
   its entries leaves the classification unchanged.
   */
  lemma {:induction false} ClassifyDependsOnlyOnEntries(a: seq<string>, b: seq<string>, labels: seq<string>)
    requires forall x :: x in a <==> x in b
    ensures Classify(a, labels) == Classify(b, labels)
  {
    if |labels| > 0 {
      var init := labels[..|labels| - 1];
      var l := labels[|labels| - 1];
      ClassifyDependsOnlyOnEntries(a, b, init);
      HitIffMatches(a, l);
      HitIffMatches(b, l);
    }
  }

  /** When no label has the wanted status, the filter keeps nothing. */
  lemma {:induction false} KeptNone(allowed: seq<string>, labels: seq<string>, want: bool)
    requires forall i :: 0 <= i < |labels| ==> Matches(allowed, labels[i]) != want
    ensures Kept(allowed, labels, want) == []
  {
    if |labels| > 0 {
      KeptNone(allowed, labels[1..], want);
    }
  }

  /** When every label has the wanted status, the filter keeps them all. */
  lemma {:induction false} KeptAll(allowed: seq<string>, labels: seq<string>, want: bool)
    requires forall i :: 0 <= i < |labels| ==> Matches(allowed, labels[i]) == want
    ensures Kept(allowed, labels, want) == labels
  {
    if |labels| > 0 {
      KeptAll(allowed, labels[1..], want);
    }
  }

  /** Two positions holding matching labels put at least two labels in the filter. */
  lemma TwoMatchesKeepTwo(allowed: seq<string>, labels: seq<string>, i: nat, j: nat)
    requires i < j < |labels|
    requires Matches(allowed, labels[i]) && Matches(allowed, labels[j])
    ensures |Kept(allowed, labels, true)| >= 2
  {
    assert labels == labels[..j] + labels[j..];
    KeptConcat(allowed, labels[..j], labels[j..], true);
    KeptMembers(allowed, labels[..j], true);
    KeptMembers(allowed, labels[j..], true);
    assert labels[i] in labels[..j];
    assert labels[j] in labels[j..];
  }
}
