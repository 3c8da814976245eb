# Terraform CI scripts, modelled in Dafny

This project models the three scripts that the reusable Terraform workflows of
`n3tuk/workflows-reusable-terraform` run through `actions/github-script`:

- **The version reader** (`scripts/terraform-version.js`) reads `<src>/.terraform-version`.
  It trims the text and accepts it only if it matches `^\d+\.\d+\.\d+$`. It then publishes the
  value as the step output `version`, or else fails the step.
- **The validate/fmt reporter** (`scripts/terraform-report-validate.js`) posts one
  pull-request comment when `terraform validate` or `terraform fmt` failed, naming the failed
  command(s) and embedding their logs. Then, whatever the outcomes, it signals each of the two
  steps' outcome.
- **The init reporter** (`scripts/terraform-report-init.js`) does nothing when `terraform
  init` succeeded. When it failed, it posts a comment embedding the init log and then fails
  the step. Any other outcome is only logged.

Each script is a deterministic function from its inputs to a sequence of effects.

- **Effects** (`effects.dfy`) are a trace of actions, in order:
  - `Info` stands for `core.info`.
  - `SetFailed` stands for `core.setFailed`.
  - `PostComment` stands for `github.rest.issues.createComment`.
  - `SetOutput` stands for `core.setOutput`.
- **How a run ends** is an `Exit`. `Returned` is a normal end. `Threw(path)` means reading the
  file at `path` threw and nothing caught it.
- **The file system** is a `map` from path to text. A path that is not a key cannot be read.
- **Shared helpers**: `text.dfy` holds prefix, suffix and substring predicates. `report_text.dfy`
  holds the text both reporters share.

The modules mirror the script files:

- **`TerraformVersion`** (`terraform_version.dfy`) is pure.
  - It has a recursive model of `String.prototype.trim` over the ECMAScript whitespace set.
  - It has a hand-written recogniser for the pattern, proved to accept exactly
    `digits "." digits "." digits`.
  - It has the run as a function returning the trace.
- **`ReportValidate`** (`report_validate.dfy`) is mixed.
  - The comment is specified segment by segment as a function (`Message`).
  - The accumulation the script does with conditional `+=` is a method (`ComposeSentence`,
    `ComposeMessage`) proved to build exactly that text.
  - `RunReportValidate` appends the post and the signals to a trace. It is proved equal to the
    functional run `ReportValidate`.
  - The signalling is a pure decision table (`StepSignal`, `Signals`).
- **`ReportInit`** (`report_init.dfy`) is pure: a three-way decision, and a fixed template
  around the log.

## Model

| member | source | states |
|---|---|---|
| TerraformVersion.VersionFilePathShape | scripts/terraform-version.js:5 | the file path `VersionFilePath(src)` is the directory followed directly by `/.terraform-version` |
| TerraformVersion.TrimStart | scripts/terraform-version.js:9 | the result is a suffix of the input, everything removed is whitespace, and it does not start with whitespace |
| TerraformVersion.TrimEnd | scripts/terraform-version.js:9 | the result is a prefix of the input, everything removed is whitespace, and it does not end with whitespace |
| TerraformVersion.Trim | scripts/terraform-version.js:9 | the trimmed text is no longer than the input and neither starts nor ends with whitespace |
| TerraformVersion.TrimDecomposes | scripts/terraform-version.js:9 | the trimmed text is a contiguous middle part of the input with only whitespace before and after it |
| TerraformVersion.TrimUnique | scripts/terraform-version.js:9 | conversely, whitespace + t + whitespace trims to t whenever t has no whitespace at its ends |
| TerraformVersion.TrimIdempotent | scripts/terraform-version.js:9 | trimming twice is trimming once |
| TerraformVersion.DigitsEnd | scripts/terraform-version.js:4 | the end of the longest run of ASCII digits starting at a position: every character before it is a digit, the one at it is not |
| TerraformVersion.IsVersion | scripts/terraform-version.js:4 | the recogniser for the pattern: an accepted string has at least five characters, starts and ends with a digit, and holds only digits and dots |
| TerraformVersion.DottedIsVersion | scripts/terraform-version.js:4 | three non-empty digit runs joined by two dots are accepted |
| TerraformVersion.VersionIsDotted | scripts/terraform-version.js:4 | every accepted string is three non-empty digit runs joined by two dots |
| TerraformVersion.IsVersionIff | scripts/terraform-version.js:4 | the recogniser accepts a string if and only if it is `digits.digits.digits`, with nothing else |
| TerraformVersion.ReadVersion | scripts/terraform-version.js:3-22 | a run always returns normally with two or three actions; the first is the lookup line with no space before the path; the second is a failure exactly when the run stops there |
| TerraformVersion.ReadVersionAccepts | scripts/terraform-version.js:9-21 | file text `ws + a.b.c + ws` gives the lookup line, `Terraform version set to v` + `a.b.c`, then output `version` = `a.b.c`, in that order |
| TerraformVersion.ReadVersionPublishes | scripts/terraform-version.js:15-21 | whenever the trimmed text is accepted, the trace is lookup, echo, output `version` set to the trimmed text |
| TerraformVersion.ReadVersionMissing | scripts/terraform-version.js:8-13 | an unreadable file gives the fixed "does not exist" failure and no output |
| TerraformVersion.ReadVersionRejects | scripts/terraform-version.js:15-18 | a readable file whose trimmed text is not accepted gives a failure whose message is the fixed prefix followed by, and so ending with, the trimmed text; no output |
| TerraformVersion.ReadVersionOutcome | scripts/terraform-version.js:8-21 | exactly one of SetFailed and SetOutput occurs, and the output is set if and only if the file is readable and its trimmed text is `digits.digits.digits` |
| TerraformVersion.ReadVersionLocal | scripts/terraform-version.js:3-21 | the run depends only on `src` and the content of the version file, so equal inputs give equal traces |
| TerraformVersion.ReadVersionStable | scripts/terraform-version.js:9-21 | replacing the file by its trimmed text leaves the run unchanged |
| TerraformVersion.TrimNewlineExample | scripts/terraform-version.js:9 | `"1.2.3\n"` trims to `"1.2.3"` |
| TerraformVersion.VersionExample | scripts/terraform-version.js:4 | `"1.2.3"` is accepted |
| TerraformVersion.ReadVersionTrailingNewline | scripts/terraform-version.js:9-21 | a file holding `"1.2.3\n"` publishes `"1.2.3"` |
| TerraformVersion.TwoGroupsExample | scripts/terraform-version.js:4 | `"1.2"` trims to itself and is refused |
| TerraformVersion.ReadVersionTwoGroups | scripts/terraform-version.js:15-18 | a file holding `"1.2"` gives the lookup line and then the invalid-value failure naming `1.2` |
| ReportValidate.Message | scripts/terraform-report-validate.js:6-73 | every comment starts with `### Terraform Status Report\n\n` followed by the fixed opening sentence, and ends with the `[init]` link definition followed by the marker |
| ReportValidate.MessageMarker | scripts/terraform-report-validate.js:73 | every comment ends with `<!-- terraform-status-report -->` |
| ReportValidate.Mentions | scripts/terraform-report-validate.js:12-23 | the mentions are empty if and only if neither command failed |
| ReportValidate.MentionsShape | scripts/terraform-report-validate.js:12-23 | validate's mention opens the mentions when validate failed, and fmt's closes them when fmt failed |
| ReportValidate.GrammarShape | scripts/terraform-report-validate.js:28-40 | the wording `Grammar(both)` starts with `summaries ` when both failed and `summary` otherwise, and ends with `to see the results from ` followed by `these commands:` or `this command:` accordingly |
| ReportValidate.Sections | scripts/terraform-report-validate.js:42-62 | there are no log sections if and only if neither command failed |
| ReportValidate.SectionsShape | scripts/terraform-report-validate.js:42-62 | validate's section opens the sections when validate failed, and fmt's closes them when fmt failed |
| ReportValidate.UnreadableLog | scripts/terraform-report-validate.js:42-62 | no read throws if and only if the log of every failed command is readable; a path reported is unreadable; fmt's log is reported only when validate's read, if made, succeeded |
| ReportValidate.StepSignal | scripts/terraform-report-validate.js:84-94 | one step's table: at most one action; nothing if and only if the outcome is `success`; the fixed failure if and only if it is `failure`; the Info line with the outcome otherwise |
| ReportValidate.Signals | scripts/terraform-report-validate.js:83-94 | at most two signals, and none if and only if both steps succeeded |
| ReportValidate.ComposeSentence | scripts/terraform-report-validate.js:6-40 | the heading and sentence built by the conditional appends are the opening, the mentions, the target phrase and the wording, in that order |
| ReportValidate.ComposeMessage | scripts/terraform-report-validate.js:42-73 | the log reads throw for exactly the first unreadable log of a failed command, validate's before fmt's; otherwise the accumulated text is exactly `Message` of the inputs and logs |
| ReportValidate.RunReportValidate | scripts/terraform-report-validate.js:5-94 | the imperative run (compose, post, signal) produces exactly the trace and exit of `ReportValidate` |
| ReportValidate.ReportValidate | scripts/terraform-report-validate.js:3-95 | a run that throws has done nothing |
| ReportValidate.MessageAfterOpening | scripts/terraform-report-validate.js:6-26 | after the opening, the comment is the mentions followed by text whose second character is the `g` of "against" |
| ReportValidate.MentionsDecoded | scripts/terraform-report-validate.js:12-23 | the mentions, in any context that follows them with "against", decode uniquely as validate only, fmt only, or both |
| ReportValidate.ReportedFailuresRoundTrip | scripts/terraform-report-validate.js:12-23 | reading the mentions back from any comment gives exactly which commands failed: validate's mention appears if and only if validate failed, and likewise fmt's |
| ReportValidate.ConjunctionIffBoth | scripts/terraform-report-validate.js:17-23 | `and ` occurs among the mentions if and only if both commands failed |
| ReportValidate.MessageWording | scripts/terraform-report-validate.js:25-40 | right after the target phrase the comment reads `summaries to see the results from these commands:` when both failed, and otherwise `summaryto see the results from this command:` |
| ReportValidate.MessageNamesTarget | scripts/terraform-report-validate.js:25 | the comment contains `against the <type> **<name>**. ` |
| ReportValidate.MessageEnding | scripts/terraform-report-validate.js:36-73 | after the wording come exactly the sections of the failed commands, validate's `hcl` one before fmt's `diff` one, each with its log verbatim and closed by the fence and `</details>`; after them come only the `[init]` definition and the marker |
| ReportValidate.StepSignalCounts | scripts/terraform-report-validate.js:84-94 | one step's signals: one SetFailed on `failure`, one Info on any outcome other than `success` and `failure`, nothing otherwise |
| ReportValidate.SignalsTable | scripts/terraform-report-validate.js:83-94 | the table applied to validate and then to fmt: counts of failures and log lines per outcome, never a comment or output; a failed validate gives validate's fixed failure first, a failed fmt gives fmt's fixed failure last, so both fire when both failed; the Info lines carry the outcome values, validate's first and fmt's last |
| ReportValidate.ReportValidatePosts | scripts/terraform-report-validate.js:5-94 | an unreadable log of a failed command aborts with an empty trace; exactly one comment is posted if and only if a command failed and its logs were readable, and then it is the first action, its body is `Message` of the inputs and the logs read, and the signals follow it; otherwise the trace ends with the signals; no output is ever set |
| ReportInit.InitMessage | scripts/terraform-report-init.js:9-28 | the comment starts with `## Terraform Status Report\n\n` and ends with the log verbatim between the opening fence and the closing fence, `</details>`, the `[init]` definition and the marker |
| ReportInit.InitMessageRoundTrip | scripts/terraform-report-init.js:17-20 | the log is recovered exactly from the comment, between the fixed preamble and the fixed trailer |
| ReportInit.InitMessageNamesTarget | scripts/terraform-report-init.js:13 | the comment contains `against the <type> **<name>**. ` |
| ReportInit.InitMessageClosing | scripts/terraform-report-init.js:22-28 | the comment ends with the marker, and the text right before it is the `[init]` link definition |
| ReportInit.ReportInit | scripts/terraform-report-init.js:3-42 | a run that throws has done nothing and failed on the init log's path |
| ReportInit.ReportInitSuccess | scripts/terraform-report-init.js:5 | outcome `success` gives an empty trace |
| ReportInit.ReportInitFailure | scripts/terraform-report-init.js:6-37 | outcome `failure` with a readable log gives exactly the comment post and then the fixed failure |
| ReportInit.ReportInitMissingLog | scripts/terraform-report-init.js:7 | outcome `failure` with an unreadable log aborts with an empty trace |
| ReportInit.ReportInitOther | scripts/terraform-report-init.js:38-40 | any other outcome gives exactly the Info line with that outcome and does not depend on any file |
| ReportInit.ReportInitCounts | scripts/terraform-report-init.js:5-40 | a run posts a comment exactly when it fails the step, which happens if and only if init failed and the log was readable, and then the post comes first; it logs one line if and only if the outcome is neither `success` nor `failure`; no output is ever set |

## Quirks kept from the source

The model reproduces what the scripts actually do, including behaviour that reads as
unintended. Each quirk is also marked in a comment in the code.

- **Dropped link definitions.** In `scripts/terraform-report-validate.js:64-68`, the
  `[fmt]`, `[validate]` and `[checks]` lines follow a `;`. They are separate expression
  statements, so they are never appended. The same happens to `[checks]` at
  `scripts/terraform-report-init.js:22-23`. Both comments therefore carry only the `[init]`
  definition before the marker (`ReportText.InitLinkLine`).
- **"summaryto".** The singular branch appends `summary` with no trailing space
  (`ReportValidate.Summary`).
- **`setFailed` does not stop the script.** When both commands failed, both failures are
  signalled (`ReportValidate.SignalsTable`).
- **An unreadable log aborts a reporter.** The logs are read while the comment is being
  built, so nothing is posted or signalled (`Threw` with an empty trace).
- **"output", not "outcome".** The fmt informational line says `Step output was`
  (`ReportValidate.FmtOutcomePrefix`).
- **No space after "at".** The version reader's lookup line has none before the path
  (`TerraformVersion.LookupPrefix`).

Some of this differs from what the scripts' messages and the workflows' intent suggest. The model follows the code:

- After a validate failure the script does not stop; it goes on to signal fmt.
- A fmt failure calls `setFailed` just as a validate failure does.
- The init log's fence has no `text` language tag.
- Only the `[init]` reference link is emitted.

## Left out

- The network call `github.rest.issues.createComment` is modelled as a `PostComment` action. Its promise is not awaited, and its failure, the owner, repository and issue number taken from `context.repo` and `context.issue`, and any concurrency with the later signals are not modelled.
- `fs.readFileSync` is modelled as a lookup in a map of already-decoded text. UTF-8 decoding, `toString` and the different reasons a read can fail (missing, permissions, directory) are left out; all of them give the same throw.
- The `core` runtime is reduced to the actions it records. Log formatting, how `setFailed` sets the process exit code, and the output file are left out.
- What `actions/github-script` does with an exception that escapes a reporter is left out. The model ends the run with `Threw(path)` and no further action.
- The outcome inputs and `inputs.type`/`inputs.name` are modelled as strings. JavaScript's loose `==` and `!=` on non-string values, and the rendering of a missing input as `undefined`, are left out.
- Markdown rendering is left out. This includes the reference to `[terraform-checks]`, whose definition no comment contains.
- The workflow YAML that calls the scripts and passes their inputs is not part of this model.
- TerraformVersion.IsWhitespace: the whitespace set is the one ECMAScript defines for `trim` as of its current edition (the WhiteSpace and LineTerminator productions, with the Unicode Zs characters listed by code point). A runtime on an older Unicode version may differ.
- The JavaScript strings are sequences of UTF-16 code units. The model uses Dafny's `char`, which is a Unicode scalar value, so lone surrogates in a log or version file are not represented.
- ReportValidate.MessageEnding: that the `[fmt]`, `[validate]` and `[checks]` definitions never appear is stated only for the text after the last log section. A log may itself contain those lines.
