# commit-format-checker: the message validator in Dafny

`validator.py` is a git commit-msg hook. Its `validate(msg)` decides whether a
commit message has the shape

    <tag>(<scope>): <description>

    <detailed description>

    BREAKING CHANGES: <description>

It does this in four steps:

- It splits the message on runs of newlines.
- It gives each line a role: a line that starts with `BREAKING CHANGES` is a trailer wherever it sits; otherwise line 0 is the subject and line 1 the body.
- It checks each line against the rule for its role. For the subject and body rules it picks the rule out of the `VALIDATORS` table by line index.
- It accepts when every line passes.

The project has three modules.

- `NewlineSplit` (`newline_split.dfy`) models `re.split(r'\n+', msg)`.
  - `Split` works on characters.
  - `Decomposes(s, pieces, runs)` is the independent definition: the message is the pieces interleaved with non-empty runs of newlines, no piece holds a newline, and no inner piece is empty.
  - `SplitIff` proves that `Split` returns exactly the pieces of that decomposition.
- `Validator` (`validator.dfy`) models the module itself.
  - Hand-written matchers give `re.match` for `BASE_FORMAT`, `CHANGE_FORMAT` and `.*`.
  - The three line rules follow, then the `VALIDATORS` table.
  - `Fold` is the loop of `validate` as a function, and `Validate` is the same loop as a method proved against it.
  - The matchers come with declarative references. A well-formed `SubjectHead` is the shortest text the subject pattern accepts. `LineAccepted` / `AllAccepted` / `FirstFailureAt` describe the verdict line by line. The lemmas prove that each matcher, and the loop, agree with these references in both directions.
- `ValidatorExamples` (`validator_examples.dfy`) gives the messages of `test_validator.py`, and a few more, with their proved verdicts.

`validate` either returns a boolean or raises `IndexError`. The model's
`Outcome` is `Returned(isValid)` or `IndexError(index)`. The error happens when
a line at index 2 or later is not a trailer and every earlier line was
accepted. The `and` on validator.py:87 short-circuits, so once a line has
failed the table is no longer indexed.

Where the code and the comments or tests around it disagree, the model
follows the code:

- **The scope is mandatory.** The scope group `(\([a-zA-Z0-9._-]*\))` in `BASE_FORMAT` has no `?`. So `feature: add changes to file` is rejected (`ScopeIsMandatory`, `ScopelessSubjectRejected`), although test_validator.py:10 lists it among the valid messages.
- **The tag is `text`, not `test`.** The help text and the docstring show `test` (validator.py:13 and :72). The pattern accepts `text` (validator.py:20), and `test(...)` is rejected (`TestTagRejected`).
- **Spaces are optional.** ` *` allows zero spaces between `):` and the description, so `fix():x` is accepted (`EmptyScopeAccepted`).
- **An empty scope is accepted.** The scope class has `*`, so `()` passes (`EmptyScopeAccepted`).
- **A trailing newline after an accepted, non-empty body line raises.** The newline leaves an empty third line. That line is not a trailer, so the table is indexed at 2 and `IndexError` is raised (`TrailingNewlineRaises`).
- **A trailing newline after a lone subject is harmless.** It only adds an empty body line, which the body rule accepts, so an accepted subject stays accepted (`SubjectTrailingNewlineAccepted`).
- **A refused subject never raises.** After a refused subject the `and` short-circuits and the table is never indexed. So subject, body line and trailing newline give a rejected message rather than an `IndexError` (`RejectedSubjectTrailingNewline`).

`validate` is deterministic and pure: `Validate` is proved equal to the
function `ValidateMessage`.

## Model

| member | source | states |
|---|---|---|
| NewlineSplit.SplitSound | validator.py:83 | the pieces `re.split(r'\n+')` returns, with the newline runs between them, rebuild the message; no piece holds a newline, and only the first and last piece can be empty |
| NewlineSplit.SplitComplete | validator.py:83 | any such decomposition of the message is the one the split returns, so the lines are uniquely determined |
| NewlineSplit.SplitIff | validator.py:83 | the split returns `pieces` exactly when some runs of newlines decompose the message into `pieces` |
| NewlineSplit.SplitNewlineFree | validator.py:83 | a message without a newline splits into itself alone, the empty message into one empty line |
| NewlineSplit.SplitPrefix | validator.py:83 | text without a newline in front of a message is glued onto the message's first line and leaves the others alone |
| NewlineSplit.SplitRun | validator.py:83 | a run of newlines in front of a message adds one empty first line, however long the run |
| Validator.Span | validator.py:20 | the greedy repetitions ` *`, `[...]*` and `\w+` stop exactly at the first character outside their class |
| Validator.MatchTag | validator.py:20 | the alternation of the five tags (`feature`, `fix`, `style`, `docs`, `text`) matches a tag that prefixes the line, and fails only when no tag does |
| Validator.TagsPrefixFree | validator.py:20 | no tag is a prefix of another, so at most one tag can start a line |
| Validator.BaseFormatMatchedHead | validator.py:20 | when `BASE_FORMAT` matches, the line starts with a well-formed subject head: tag, `(`, scope characters, `):`, spaces, a word character |
| Validator.BaseFormatComplete | validator.py:20 | a line that starts with a well-formed subject head is matched by `BASE_FORMAT` |
| Validator.BaseFormatIff | validator.py:20 | `re.match(BASE_FORMAT, line)` succeeds exactly when the line starts with a well-formed subject head |
| Validator.ScopeIsMandatory | validator.py:20 | a tag followed by anything but `(` fails the subject rule: the scope group is required |
| Validator.FirstLineIff | validator.py:23-35 | `_validate_first_line` accepts exactly the lines that do not contain `BREAKING CHANGES` and start with a well-formed subject head |
| Validator.DescriptionIff | validator.py:38-49 | `_validate_description` accepts exactly the lines that do not contain `BREAKING CHANGES`, since `.*` matches every line, the empty one included |
| Validator.BreakingChangeLineIff | validator.py:52-60 | `_validate_breaking_change_line` accepts exactly the lines that start with `BREAKING CHANGES:` (`CHANGE_FORMAT`, validator.py:21) |
| Validator.FoldStep | validator.py:85-89 | while `is_valid` is true, each line that has a role moves the loop on with that role's verdict, and lines 0 and 1 take their rules from `VALIDATORS` |
| Validator.FoldStaysFalse | validator.py:87-89 | once `is_valid` is false the result is `False`, and no later line can raise |
| Validator.FoldAcceptsIff | validator.py:85-91 | from any line on, the loop returns `True` exactly when every remaining line has a role and obeys its rule |
| Validator.FoldRaisesIff | validator.py:85-91 | the loop raises at index k exactly when line k is the first refused line and it has no role |
| Validator.FoldRejectsIff | validator.py:85-91 | the loop returns `False` exactly when the first refused line has a role and breaks its rule |
| Validator.ValidateAcceptsIff | validator.py:69-91 | `validate(msg)` returns `True` exactly when every line of the split message is accepted in its role |
| Validator.ValidateRaisesIff | validator.py:63-87 | `validate(msg)` raises `IndexError` at k exactly when line k is the first refused line, k is past the two-entry table, and line k is not a trailer |
| Validator.ValidateRejectsIff | validator.py:69-91 | `validate(msg)` returns `False` exactly when the first refused line has a role |
| Validator.SingleLineMessage | validator.py:83-91 | a message without newlines is judged by the trailer rule when it starts with `BREAKING CHANGES` and by the subject rule otherwise |
| Validator.EmptyMessageRejected | validator.py:83-91 | the empty message is one empty subject line and is rejected |
| Validator.TrailerOnlyMessageAccepted | validator.py:86-89 | a message that is only a `BREAKING CHANGES:` line is accepted: the marker takes precedence over the subject role of line 0 |
| Validator.TrailerWithoutColonRejected | validator.py:57-60 | a one-line message starting with `BREAKING CHANGES` but not followed by `:` is rejected |
| Validator.MarkerInsideSubjectRejected | validator.py:29-30 | a one-line message that contains the marker but does not start with it is rejected |
| Validator.TrailingNewlineRaises | validator.py:83-87 | an accepted subject and an accepted, non-empty body line followed by a newline make an empty third line, and `validate` raises `IndexError` at index 2 |
| Validator.SubjectTrailingNewlineAccepted | validator.py:83-91 | an accepted subject followed by one newline splits into the subject and an empty body line, and the message is accepted |
| Validator.RejectedSubjectTrailingNewline | validator.py:87 | a refused subject, a body line and a trailing newline give a rejected message, not an `IndexError`: the `and` short-circuits before the table is indexed at 2 |
| Validator.Validate | validator.py:69-91 | the loop of `validate` returns what `ValidateMessage` returns, and so returns `True` exactly when every line is accepted in its role |
| ValidatorExamples.SubjectAccepted | validator.py:23-35 | a line that does not contain `BREAKING CHANGES` and starts with a well-formed subject head passes the subject rule and is no trailer |
| ValidatorExamples.SubjectMessageAccepted | validator.py:83-91 | such a line without newlines is, on its own, an accepted message |
| ValidatorExamples.SubjectMessageRejected | validator.py:83-91 | a one-line message that does not start with `BREAKING CHANGES` and that the subject rule refuses is rejected |
| ValidatorExamples.UntaggedLineRejected | validator.py:20 | a line that starts with none of the five tags fails the subject rule |
| ValidatorExamples.SubjectTrailerAccepted | validator.py:83-91 | subject, blank line, `BREAKING CHANGES:` trailer is accepted whenever the subject rule accepts the subject |
| ValidatorExamples.SubjectBodyTrailerAccepted | validator.py:83-91 | subject, non-empty body line, blank line, trailer is accepted whenever the subject rule accepts the subject and the body rule the body |
| ValidatorExamples.MarkerAfterTextRejected | validator.py:29-30 | one line that holds `BREAKING CHANGES` after some text but does not start with it is a rejected message |
| ValidatorExamples.FeatureSubjectAccepted | test_validator.py:6 | `feature(app.py): Add changes to the file` is accepted |
| ValidatorExamples.DocsSubjectAccepted | test_validator.py:7 | `docs(app_2.js): Remove documentation` is accepted |
| ValidatorExamples.FixWithTrailerAccepted | test_validator.py:8 | subject, blank line and `BREAKING CHANGES:` trailer is accepted |
| ValidatorExamples.FixWithBodyAndTrailerAccepted | test_validator.py:9 | subject, body, blank line and trailer is accepted |
| ValidatorExamples.ScopelessSubjectRejected | test_validator.py:10 | `feature: add changes to file` is rejected, contrary to the test's expectation, because the scope is mandatory in the pattern |
| ValidatorExamples.UntaggedSubjectRejected | test_validator.py:13 | `Add change to app.py` is rejected |
| ValidatorExamples.InlineMarkerRejected | test_validator.py:14 | a subject with `BREAKING CHANGES:` in the same line is rejected |
| ValidatorExamples.TestTagRejected | validator.py:13 | `test(a): x`, the tag the help text shows, is rejected |
| ValidatorExamples.TextTagAccepted | validator.py:20 | `text(a): x`, the tag the pattern holds, is accepted |
| ValidatorExamples.EmptyScopeAccepted | validator.py:20 | an empty scope with no space before the description, `fix():x`, is accepted |
| ValidatorExamples.TrailerOnlyAccepted | validator.py:86 | `BREAKING CHANGES: x` alone is accepted |
| ValidatorExamples.TrailerWithoutColonExample | validator.py:21 | `BREAKING CHANGES Changed x` is rejected |
| ValidatorExamples.TrailingNewlineExample | validator.py:87 | `fix(a): x\nbody\n` raises `IndexError` at index 2 |

## Left out

- `main` (validator.py:94-107) is not modelled: it reads the message file named on the command line, prints the help text and exits with a status. The model starts from the message text.
- `ERROR_MESSAGE` (validator.py:10-18) is printed text only and is not modelled. Its `test` tag is discussed above.
- Python's general regular-expression engine is not modelled. Each of the three patterns is a hand-written matcher, proved against a declarative reference. `re.split` is modelled for the one pattern `\n+` only.
- Validator.IsWordChar: `\w` is taken as ASCII letters, digits and `_`. Python 3 matches any Unicode word character there, so the model rejects some subjects that Python accepts, such as those whose description starts with a non-ASCII letter.
- Validator.Validate: the `IndexError` exception is returned as the value `IndexError(index)` rather than raised. Python's `IndexError: list index out of range` carries no index; the model's `index` is extra information, which `ValidateRaisesIff` pins to the first refused line.
- NewlineSplit.Split: its own contract only promises at least one line. What the lines are is stated by `SplitSound`, `SplitComplete` and `SplitIff`.
