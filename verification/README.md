# action-label-verify: the label decision, modelled in Dafny

The action runs on a pull-request event and checks that exactly one of the
pull request's labels is on a configured allow-list. Its single entry point,
`run()`, does four things:

1. It reads the `allowed` input. This is a string with one label name per
   line. The action splits it on `"\n"` and drops the empty pieces.
2. It returns cleanly, and does not fail, when the event carries no pull
   request.
3. It fails with "no labels" when the pull request's label list is missing
   or empty.
4. It sorts each label name into `matched` or `notMatched`. A label is
   matched when some allow-list entry equals it after both sides are
   lower-cased. The run passes when exactly one label matched. Otherwise it
   fails and reports the matched labels.

This project states that decision as pure functions and proves what it
promises.

- `Text` holds ASCII lower-casing and the JavaScript `split("\n")` /
  `join("\n")` pair.
- `AllowList` parses the `allowed` input (`Parse`). It also holds a
  one-pass character scanner (`Scan`), proved equal to `Parse`.
- `Classifier` models `Array.prototype.find` with JavaScript truthiness of
  its result (`Find`, `Truthy`, `Hit`). It also holds the classification
  built the way the loop pushes (`Classify`), the loop itself
  (`ClassifyLoop`), and a reference filter over "some entry matches"
  (`Matches`, `Kept`).
- `Action` holds the payload (`Label`, `PullRequest`), the outcome
  (`Verdict`: `NotPullRequest`, `NoLabels`, `Mismatch(matched)`,
  `Accepted(name)`) and the whole decision `Run`.
- `Scenarios` holds worked examples.

The host inputs become parameters of `Run`. These are the `allowed` string
as `core.getInput` returns it, which is already trimmed at both ends, and
`github.context.payload.pull_request` (an `Option<PullRequest>` whose
`labels` are an `Option<seq<Label>>`). The host outputs (`core.info`,
`core.debug`, `core.setFailed`) become the returned `Verdict`. `Verdict.Failed()` marks
the outcomes that call `setFailed`.

Lines are not trimmed. `split("\n")` followed by `filter((x) => x !== "")`
drops only pieces that are exactly `""`, so blanks around an interior line
stay part of the entry and a whitespace-only line stays an entry:
`"Bug\n  Feature \n\n \nx"` parses to `["Bug", "  Feature ", " ", "x"]`
(`Scenarios.ScenarioUntrimmed`).

The truthiness test on line 41 (`if (allowedLabels.find(...))`) is proved to
equal "some entry matches, and the label is not empty", for any allow-list
(`Classifier.HitIffMatches`). A non-empty string never lower-cases to `""`,
so only the empty entry can match the empty label. `find` then returns `""`,
which is falsy. After the empty pieces are filtered out, the test is exactly
"some entry matches" (`Classifier.HitIffMatchesWithoutEmpty`).
`Scenarios.EmptyEntryIsFalsy` shows why the filter on line 18 matters.

## Model

| member | source | states |
|---|---|---|
| Text.Split | src/main.ts:17 | `split("\n")` always yields at least one piece, and no piece contains a newline |
| Text.JoinSplit | src/main.ts:17 | joining the pieces with newlines gives back the original string, so splitting loses nothing |
| Text.SplitJoin | src/main.ts:17 | splitting undoes joining for newline-free pieces |
| Text.Lower | src/main.ts:41 | the lower-case form has as many characters as its input; this holds of the ASCII lower-casing modelled here, not of every Unicode `toLowerCase` |
| Text.LowerIsPointwise | src/main.ts:41 | lower-casing maps each character independently, leaves no upper-case ASCII letter, and is idempotent |
| Text.SameIgnoringCaseIsEquivalence | src/main.ts:41 | the comparison `al.toLowerCase() === l.toLowerCase()` is reflexive, symmetric and transitive, and, with the ASCII lower-casing modelled here, relates only strings of equal length |
| AllowList.Parse | src/main.ts:15-18 | every entry is non-empty and has no newline; a string is an entry exactly when it is a non-empty newline-separated piece of the input |
| AllowList.DropEmpty | src/main.ts:18 | `filter((x) => x !== "")` never returns more pieces than it is given |
| AllowList.DropEmptyMembers | src/main.ts:18 | `filter((x) => x !== "")` keeps exactly the non-empty pieces |
| AllowList.ParseJoin | src/main.ts:15-18 | writing well-formed entries one per line and parsing gives the same entries in the same order, with no trimming and no case change |
| AllowList.Scan | src/main.ts:15-18 | a character-by-character scanner that emits each non-empty line equals the split-then-filter parse |
| Classifier.Find | src/main.ts:41 | `find` returns an allow-list entry equal to the label ignoring case, and returns nothing exactly when no entry is equal |
| Classifier.FindIsFirst | src/main.ts:41 | the entry `find` returns is the first matching one |
| Classifier.Truthy | src/main.ts:41 | JavaScript truthiness of `find`'s result: `find` returned an entry, and that entry is not `""` |
| Classifier.Hit | src/main.ts:41 | the `if` test applied to each label: `find` returned an entry other than `""` |
| Classifier.HitIffMatches | src/main.ts:18-41 | the truthiness of `find`'s result holds exactly when some entry matches and the label is not `""` |
| Classifier.HitIffMatchesWithoutEmpty | src/main.ts:18-41 | over a filtered allow-list, truthiness is exactly "some entry matches", and a found entry is never `""` |
| Classifier.Classify | src/main.ts:38-46 | every label lands in one of the two lists: their lengths add up to the number of labels |
| Classifier.ClassifyLoop | src/main.ts:38-46 | the `for ... of` loop with `push` computes the same two lists as the classification |
| Classifier.ClassifyPartition | src/main.ts:38-46 | `matched` and `notMatched` together hold each label exactly as often as the input does; every matched label passes the test, and no unmatched label does |
| Classifier.ClassifyMembership | src/main.ts:41-44 | a label is in `matched` if and only if it passes the test, and in `notMatched` if and only if it fails it |
| Classifier.KeptMembers | src/main.ts:41-44 | the reference filter keeps exactly the labels with the wanted match status |
| Classifier.ClassifyIsKept | src/main.ts:38-46 | over a filtered allow-list, `matched` is exactly the matching labels and `notMatched` the rest, each in input order, with duplicates kept |
| Classifier.ClassifyDependsOnlyOnEntries | src/main.ts:41 | two allow-lists with the same entries, in any order and with any duplicates, classify every label list identically |
| Classifier.TwoMatchesKeepTwo | src/main.ts:41-42 | two matching label positions keep at least two labels in the reference filter `Kept`, over any allow-list; `ClassifyIsKept` carries this to `matched` for a parsed allow-list |
| Action.Names | src/main.ts:29 | `labels.map((l) => l.name)` gives one name per label, the i-th name being the i-th label's `name` |
| Action.HasLabels | src/main.ts:33 | the negation of the `!labels?.length` test: `labels` is present and its length is greater than 0 |
| Action.Run | src/main.ts:15-55 | only a pull request can fail the run; an accepted name is one of the pull request's labels and matches an entry; every label in a mismatch report matches an entry |
| Action.RunWithoutPullRequest | src/main.ts:22-26 | with no pull request the outcome is the clean return, whatever the allow-list, and it is not a failure |
| Action.RunNoLabels | src/main.ts:28-36 | "no labels" is the outcome exactly when the pull request's labels are missing or empty, and it is a failure |
| Action.RunDecision | src/main.ts:38-55 | with labels present, the run accepts the single matching label when exactly one label position matches, and otherwise fails with all matching labels in order |
| Action.RunAcceptedIffOneMatch | src/main.ts:51-55 | the run passes if and only if the pull request has labels and exactly one of them matches |
| Action.RunTwoMatchesFail | src/main.ts:51-52 | two matching label positions fail the run, including the same allowed label attached twice |
| Action.RunAllMatch | src/main.ts:51-55 | when every label matches, a single label is accepted and several fail with all of them |
| Action.RunNoMatch | src/main.ts:51-52 | labels none of which match fail with an empty matched list, an outcome distinct from "no labels" |
| Scenarios.BugFeatureAllowList | src/main.ts:15-18 | the input `"bug\nfeature"` parses to `["bug", "feature"]` |
| Scenarios.ScenarioOneMatch | src/main.ts:53-54 | allow-list bug/feature with label bug is accepted with bug |
| Scenarios.ScenarioTwoMatches | src/main.ts:51-52 | allow-list bug/feature with labels bug, feature fails, reporting both |
| Scenarios.ScenarioNoMatch | src/main.ts:51-52 | allow-list bug/feature with label chore fails with nothing matched |
| Scenarios.ScenarioNoLabels | src/main.ts:33-36 | an empty or missing label list gives "no labels" |
| Scenarios.ScenarioUntrimmed | src/main.ts:17-18 | the lines `Bug`, `  Feature `, an empty line, ` ` and `x` parse to `["Bug", "  Feature ", " ", "x"]`: the empty line is dropped, blanks and whitespace-only lines are kept |
| Scenarios.ScenarioCaseInsensitive | src/main.ts:41-42 | allow-list entry `Bug` accepts label `BUG`, reported in its original case |
| Scenarios.ScenarioDuplicate | src/main.ts:51-52 | the label bug attached twice fails, reporting bug twice |
| Scenarios.EmptyEntryIsFalsy | src/main.ts:18-41 | an empty entry matches the empty label ignoring case, yet the test fails because `""` is falsy |

## Left out

- Host I/O is left out: `core.getInput`, `core.debug`, `core.info`, `core.setFailed` and `github.context.payload`. Their values are parameters of `Run`, and the outcome is its returned `Verdict`.
- The whole-value trim that `core.getInput` applies before `split` is outside the model: `Run` takes the already-trimmed string, so blanks before the first line and after the last line never reach `Parse`.
- The missing-input error of `getInput("allowed", { required: true })` is left out. The host raises it before any decision logic runs, and it reaches `setFailed` through the `catch`.
- The text of the messages and JavaScript's array-to-string formatting in the template literals are left out (lines 20, 31, 48-49, 52, 54). They are presentation only. `Mismatch` carries the matched list that the failure message prints.
- The `try`/`catch` on lines 56-58 is left out. It turns the `getInput` error of the line above, and any unexpected exception, into `setFailed(error.message)`, and holds no decision logic.
- Label fields other than `name` are left out (`color`, `default`, `description`, `node_id`, `url`). A label whose `name` is absent is not modelled either, since the interface declares it a string.
- Text.LowerChar: lower-cases only the ASCII letters `A`-`Z`. JavaScript `toLowerCase` applies full Unicode case mapping, which can also change length for a few characters. Every lemma applies the same function to both sides of the comparison.
