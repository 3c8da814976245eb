/** The validate/fmt reporter (scripts/terraform-report-validate.js): when `terraform
    validate` or `terraform fmt` failed it posts one status comment describing the failed
    command(s) with their logs, and then signals each step's outcome. */
module ReportValidate {
  import opened Effects
  import opened Text
  import opened ReportText

  /** The inputs the workflow passes: the two steps' outcomes and the labels of the
      Terraform configuration under check (`inputs.type`, `inputs.name`). */
  datatype ValidateInputs = ValidateInputs(validate: string, fmt: string,
                                           resourceType: string, resourceName: string)

  const ValidateLogPath: string := "/tmp/terraform.validate.log"
  const FmtLogPath: string := "/tmp/terraform.fmt.log"

  const Heading: string := "### Terraform Status Report\n\n"
  const Opening: string := Heading + OpeningBody
  const OpeningBody: string :=
    "GitHub Actions has run the [`terraform-checks`][terraform-checks] Workflow " +
    "against your pull request, and, after a successful [`init`][init] step, it " +
    "has **failed** when running "
  const ValidateMention: string := "[`terraform validate`][validate] "
  const Conjunction: string := "and "
  const FmtMention: string := "[`terraform fmt`][fmt] "
  const Summaries: string := "summaries "
  // No trailing space, as in the source: the singular message reads "summaryto see".
  const Summary: string := "summary"
  const SeeResults: string := "to see the results from "
  const TheseCommands: string := "these commands:\n\n"
  const ThisCommand: string := "this command:\n\n"
  const SectionEnd: string := "\n" + "```\n" + "</details>\n\n"
  /** Only the `[init]` definition: the `[fmt]`, `[validate]` and `[checks]` lines are
      stray expression statements in the source and are never appended. */
  const Closing: string := InitLinkLine + Marker

  const ValidateFailedMessage: string := "terraform validate Failed. Stopping further processing."
  const ValidateOutcomePrefix: string := "terraform validate Step outcome was "
  const FmtFailedMessage: string := "terraform fmt Failed. Stopping further processing."
  // "output", not "outcome", as in the source.
  const FmtOutcomePrefix: string := "terraform fmt Step output was "

  /** `s` when `c` holds, nothing otherwise: one conditional `+=`. */
  function Opt(c: bool, s: string): string {
    if c then s else ""
  }

  // ---------------------------------------------------------------------------
  // The comment, segment by segment

  /** The command mentions: validate's, then "and " when both failed, then fmt's. */
  function Mentions(validateFailed: bool, fmtFailed: bool): (m: string)
    ensures m == [] <==> !validateFailed && !fmtFailed
  {
    Opt(validateFailed, ValidateMention) + Opt(validateFailed && fmtFailed, Conjunction) +
    Opt(fmtFailed, FmtMention)
  }

  /** The phrase naming the configuration under check. */
  function Target(resourceType: string, resourceName: string): string {
    Named(resourceType, resourceName) + "Expand on the following "
  }

  function Named(resourceType: string, resourceName: string): string {
    "against the " + resourceType + " **" + resourceName + "**. "
  }

  /** Plural wording when both commands failed, singular otherwise. */
  function Grammar(both: bool): string {
    if both then Summaries + SeeResults + TheseCommands else Summary + SeeResults + ThisCommand
  }

  /** The collapsible section with the validate log, fenced as `hcl`. */
  function ValidateSection(log: string): string {
    ValidateFence + log + SectionEnd
  }

  const ValidateFence: string :=
    "<details>\n" + "<summary><code>terraform validate</code> Output</summary>\n\n" + "```hcl\n"

  /** The collapsible section with the fmt log, fenced as `diff`. */
  function FmtSection(log: string): string {
    FmtFence + log + SectionEnd
  }

  const FmtFence: string :=
    "<details>\n" + "<summary><code>terraform fmt</code> Output</summary>\n\n" + "```diff\n"

  /** The log sections: validate's first, then fmt's, each only for a failed command. */
  function Sections(validateFailed: bool, fmtFailed: bool, validateLog: string, fmtLog: string): (r: string)
    ensures r == [] <==> !validateFailed && !fmtFailed
  {
    Opt(validateFailed, ValidateSection(validateLog)) + Opt(fmtFailed, FmtSection(fmtLog))
  }

  /** The comment for the given inputs and log texts (a log is used only when its
      command failed). */
  function Message(inputs: ValidateInputs, validateLog: string, fmtLog: string): (m: string)
    ensures StartsWith(m, Heading) && StartsWith(m, Opening)
    ensures EndsWith(m, Closing)
  {
    var v, f := inputs.validate == Failure, inputs.fmt == Failure;
    var front := Mentions(v, f) + Target(inputs.resourceType, inputs.resourceName) +
                 Grammar(v && f) + Sections(v, f, validateLog, fmtLog);
    var m := Opening + Mentions(v, f) + Target(inputs.resourceType, inputs.resourceName) +
             Grammar(v && f) + Sections(v, f, validateLog, fmtLog) + Closing;
    MessageRegroup(Opening, Mentions(v, f), Target(inputs.resourceType, inputs.resourceName),
                   Grammar(v && f), Sections(v, f, validateLog, fmtLog), Closing);
    StartsWithConcat(Opening, front + Closing);
    Assoc3(Heading, OpeningBody, front + Closing);
    StartsWithConcat(Heading, OpeningBody + (front + Closing));
    EndsWithConcat(Opening + front, Closing);
    m
  }

  lemma MessageRegroup(a: string, b: string, c: string, d: string, e: string, f: string)
    ensures a + b + c + d + e + f == a + (b + c + d + e + f)
    ensures a + b + c + d + e + f == (a + (b + c + d + e)) + f
  {
  }

  // ---------------------------------------------------------------------------
  // Signalling

  /** The decision table for one step: fail on "failure", log any outcome other than
      "success", and stay silent on "success". */
  function StepSignal(outcome: string, failedMessage: string, outcomePrefix: string): (r: seq<Action>)
    ensures |r| <= 1 && (r == [] <==> outcome == Success)
    ensures r == [SetFailed(failedMessage)] <==> outcome == Failure
    ensures r == [Info(outcomePrefix + outcome)] <==> outcome != Failure && outcome != Success
  {
    if outcome == Failure then [SetFailed(failedMessage)]
    else if outcome != Success then [Info(outcomePrefix + outcome)]
    else []
  }

  /** The table applied to validate and then to fmt; setFailed does not stop the
      script, so both failures can be signalled. */
  function Signals(validate: string, fmt: string): (r: seq<Action>)
    ensures |r| <= 2
    ensures r == [] <==> validate == Success && fmt == Success
  {
    StepSignal(validate, ValidateFailedMessage, ValidateOutcomePrefix) +
    StepSignal(fmt, FmtFailedMessage, FmtOutcomePrefix)
  }

  // ---------------------------------------------------------------------------
  // The exported function

  /** One run of the reporter. A log is read only for a failed command, validate's
      first, while the comment is being built; a log that cannot be read throws and
      the run ends before the comment is posted or any signal sent. */
  function ReportValidate(inputs: ValidateInputs, fs: FileSystem): (e: Execution)
    ensures e.exit.Threw? ==> e.trace == []
  {
    var v, f := inputs.validate == Failure, inputs.fmt == Failure;
    if v && ValidateLogPath !in fs then Execution([], Threw(ValidateLogPath))
    else if f && FmtLogPath !in fs then Execution([], Threw(FmtLogPath))
    else
      var comment :=
        if v || f then
          [PostComment(Message(inputs, ReadFile(fs, ValidateLogPath).GetOr(""),
                               ReadFile(fs, FmtLogPath).GetOr("")))]
        else [];
      Execution(comment + Signals(inputs.validate, inputs.fmt), Returned)
  }

  /** The path whose read throws during a run, if any: validate's log is read first. */
  function UnreadableLog(inputs: ValidateInputs, fs: FileSystem): (r: Option<string>)
    ensures r.None? <==> (inputs.validate == Failure ==> ValidateLogPath in fs) &&
                         (inputs.fmt == Failure ==> FmtLogPath in fs)
    ensures r.Some? ==> r.value !in fs
    ensures r == Some(FmtLogPath) ==> inputs.fmt == Failure &&
                                      (inputs.validate == Failure ==> ValidateLogPath in fs)
    ensures r == Some(ValidateLogPath) ==> inputs.validate == Failure
  {
    if inputs.validate == Failure && ValidateLogPath !in fs then Some(ValidateLogPath)
    else if inputs.fmt == Failure && FmtLogPath !in fs then Some(FmtLogPath)
    else None
  }

  /** Lines 6-40 of the script: the heading and the sentence naming the failed
      commands, built by conditional appends. */
  method ComposeSentence(inputs: ValidateInputs) returns (message: string)
    ensures message == Opening + Mentions(inputs.validate == Failure, inputs.fmt == Failure) +
                       Target(inputs.resourceType, inputs.resourceName) +
                       Grammar(inputs.validate == Failure && inputs.fmt == Failure)
  {
    var v, f := inputs.validate == Failure, inputs.fmt == Failure;
    message := Opening;
    if inputs.validate == Failure {
      message := message + ValidateMention;
    }
    if inputs.fmt == Failure {
      if inputs.validate == Failure {
        message := message + Conjunction;
      }
      message := message + FmtMention;
    }
    assert message == Opening + Mentions(v, f);
    message := message + Target(inputs.resourceType, inputs.resourceName);
    ghost var upToTarget := message;
    if inputs.validate == Failure && inputs.fmt == Failure {
      message := message + Summaries;
    } else {
      message := message + Summary;
    }
    message := message + SeeResults;
    if inputs.validate == Failure && inputs.fmt == Failure {
      message := message + TheseCommands;
    } else {
      message := message + ThisCommand;
    }
    assert message == upToTarget + Grammar(v && f);
  }

  /** Lines 42-73 of the script, after the sentence: each failed command's log is
      read when its section is appended, then the link definition and the marker. Returns the path
      whose read threw, if one did, and otherwise the finished comment. */
  method ComposeMessage(inputs: ValidateInputs, fs: FileSystem) returns (message: string, unreadable: Option<string>)
    ensures unreadable == UnreadableLog(inputs, fs)
    ensures unreadable.None? ==>
              message == Message(inputs, ReadFile(fs, ValidateLogPath).GetOr(""),
                                 ReadFile(fs, FmtLogPath).GetOr(""))
  {
    var v, f := inputs.validate == Failure, inputs.fmt == Failure;
    message := ComposeSentence(inputs);
    ghost var upToGrammar := message;
    var validateLog := "";
    if inputs.validate == Failure {
      var read := ReadFile(fs, ValidateLogPath);
      if read.None? {
        return message, Some(ValidateLogPath);
      }
      validateLog := read.value;
      message := message + ValidateSection(validateLog);
    }
    ghost var upToValidate := message;
    assert upToValidate == upToGrammar + Opt(v, ValidateSection(validateLog));
    var fmtLog := "";
    if inputs.fmt == Failure {
      var read := ReadFile(fs, FmtLogPath);
      if read.None? {
        return message, Some(FmtLogPath);
      }
      fmtLog := read.value;
      message := message + FmtSection(fmtLog);
    }
    assert message == upToValidate + Opt(f, FmtSection(fmtLog));
    Assoc3(upToGrammar, Opt(v, ValidateSection(validateLog)), Opt(f, FmtSection(fmtLog)));
    ghost var upToSections := message;
    // The [fmt], [validate] and [checks] definitions are dropped here, as in the source.
    message := message + InitLinkLine;
    message := message + Marker;
    Assoc3(upToSections, InitLinkLine, Marker);
    assert Sections(v, f, validateLog, fmtLog) ==
           Sections(v, f, ReadFile(fs, ValidateLogPath).GetOr(""), ReadFile(fs, FmtLogPath).GetOr(""));
    unreadable := None;
  }

  /** The whole script: the comment is composed and posted only when a command failed,
      and the signals follow it. */
  method RunReportValidate(inputs: ValidateInputs, fs: FileSystem) returns (e: Execution)
    ensures e == ReportValidate(inputs, fs)
  {
    var trace: seq<Action> := [];
    if inputs.validate == Failure || inputs.fmt == Failure {
      var message, unreadable := ComposeMessage(inputs, fs);
      if unreadable.Some? {
        return Execution(trace, Threw(unreadable.value));
      }
      // createComment is not awaited; the post is recorded as the next action.
      trace := trace + [PostComment(message)];
    }
    trace := trace + Signals(inputs.validate, inputs.fmt);
    e := Execution(trace, Returned);
  }

  // ---------------------------------------------------------------------------
  // Properties of the comment

  /** Validate's mention comes first when validate failed, fmt's last when fmt failed. */
  lemma MentionsShape(validateFailed: bool, fmtFailed: bool)
    ensures validateFailed ==> StartsWith(Mentions(validateFailed, fmtFailed), ValidateMention)
    ensures fmtFailed ==> EndsWith(Mentions(validateFailed, fmtFailed), FmtMention)
  {
    var conj := Opt(validateFailed && fmtFailed, Conjunction);
    Assoc3(Opt(validateFailed, ValidateMention), conj, Opt(fmtFailed, FmtMention));
    StartsWithConcat(Opt(validateFailed, ValidateMention), conj + Opt(fmtFailed, FmtMention));
    EndsWithConcat(Opt(validateFailed, ValidateMention) + conj, Opt(fmtFailed, FmtMention));
  }

  /** The wording starts with the noun ("summaries " or "summary") and ends with the
      object ("these commands" or "this command") after the fixed middle. */
  lemma GrammarShape(both: bool)
    ensures StartsWith(Grammar(both), if both then Summaries else Summary)
    ensures EndsWith(Grammar(both), SeeResults + (if both then TheseCommands else ThisCommand))
  {
    var noun, command := if both then Summaries else Summary, if both then TheseCommands else ThisCommand;
    Assoc3(noun, SeeResults, command);
    StartsWithConcat(noun, SeeResults + command);
    EndsWithConcat(noun, SeeResults + command);
  }

  /** Validate's section comes first when validate failed, fmt's last when fmt failed. */
  lemma SectionsShape(validateFailed: bool, fmtFailed: bool, validateLog: string, fmtLog: string)
    ensures validateFailed ==> StartsWith(Sections(validateFailed, fmtFailed, validateLog, fmtLog),
                                          ValidateSection(validateLog))
    ensures fmtFailed ==> EndsWith(Sections(validateFailed, fmtFailed, validateLog, fmtLog),
                                   FmtSection(fmtLog))
  {
    StartsWithConcat(Opt(validateFailed, ValidateSection(validateLog)), Opt(fmtFailed, FmtSection(fmtLog)));
    EndsWithConcat(Opt(validateFailed, ValidateSection(validateLog)), Opt(fmtFailed, FmtSection(fmtLog)));
  }

  /** Reads back from a comment which commands it reports as failed, from the mentions
      that follow the fixed opening. */
  function ReportedFailures(m: string): Option<(bool, bool)> {
    if !StartsWith(m, Opening) then None
    else
      var rest := m[|Opening|..];
      if StartsWith(rest, ValidateMention + Conjunction + FmtMention) then Some((true, true))
      else if StartsWith(rest, ValidateMention) then Some((true, false))
      else if StartsWith(rest, FmtMention) then Some((false, true))
      else None
  }

  lemma DiffersAt(s: string, p: string, i: nat)
    requires i < |s| && i < |p| && s[i] != p[i]
    ensures !StartsWith(s, p)
  {
    if |p| <= |s| {
      assert s[..|p|][i] != p[i];
    }
  }

  /** The text following the mentions. */
  function AfterMentions(inputs: ValidateInputs, validateLog: string, fmtLog: string): string {
    var v, f := inputs.validate == Failure, inputs.fmt == Failure;
    Target(inputs.resourceType, inputs.resourceName) + Grammar(v && f) +
    Sections(v, f, validateLog, fmtLog) + Closing
  }

  lemma MessageAfterOpening(inputs: ValidateInputs, validateLog: string, fmtLog: string)
    ensures |Opening| <= |Message(inputs, validateLog, fmtLog)|
    ensures Message(inputs, validateLog, fmtLog)[|Opening|..] ==
            Mentions(inputs.validate == Failure, inputs.fmt == Failure) +
            AfterMentions(inputs, validateLog, fmtLog)
    ensures |AfterMentions(inputs, validateLog, fmtLog)| > 1 &&
            AfterMentions(inputs, validateLog, fmtLog)[1] == 'g'
  {
    var v, f := inputs.validate == Failure, inputs.fmt == Failure;
    var target := Target(inputs.resourceType, inputs.resourceName);
    var sections := Sections(v, f, validateLog, fmtLog);
    var after := AfterMentions(inputs, validateLog, fmtLog);
    Regroup6(Opening, Mentions(v, f), target, Grammar(v && f), sections, Closing);
    DropPrefix(Opening, Mentions(v, f) + after);
    TargetStart(inputs.resourceType, inputs.resourceName);
    SecondChar(target, Grammar(v && f), sections, Closing);
  }

  lemma Regroup6(a: string, b: string, c: string, d: string, e: string, f: string)
    ensures a + b + c + d + e + f == a + (b + (c + d + e + f))
  {
  }

  lemma DropPrefix(a: string, rest: string)
    ensures |a| <= |a + rest| && (a + rest)[|a|..] == rest
  {
  }

  lemma TargetStart(resourceType: string, resourceName: string)
    ensures StartsWith(Target(resourceType, resourceName), "ag")
  {
    assert Target(resourceType, resourceName)[..2] == "ag";
  }

  /** Text that starts with "ag" (the target phrase's "against") has `g` as its second
      character, whatever follows it. */
  lemma SecondChar(c: string, d: string, e: string, f: string)
    requires StartsWith(c, "ag")
    ensures |c + d + e + f| > 1 && (c + d + e + f)[1] == 'g'
  {
    assert c + d + e + f == c + (d + e + f);
    assert c[..2] == "ag";
  }

  lemma Regroup5(b: string, c: string, d: string, e: string, f: string)
    ensures b + c + d + e + f == b + (c + d + e + f)
  {
  }

  /** The comment names exactly the commands that failed: a mention appears iff its
      command failed, joined by "and " iff both did. */
  lemma ReportedFailuresRoundTrip(inputs: ValidateInputs, validateLog: string, fmtLog: string)
    requires inputs.validate == Failure || inputs.fmt == Failure
    ensures ReportedFailures(Message(inputs, validateLog, fmtLog)) ==
            Some((inputs.validate == Failure, inputs.fmt == Failure))
  {
    var v, f := inputs.validate == Failure, inputs.fmt == Failure;
    MessageAfterOpening(inputs, validateLog, fmtLog);
    MentionsDecoded(v, f, AfterMentions(inputs, validateLog, fmtLog));
  }

  /** The decoding step on the text after the opening: the mentions followed by text
      starting "ag" (from "against the "). */
  lemma MentionsDecoded(validateFailed: bool, fmtFailed: bool, after: string)
    requires validateFailed || fmtFailed
    requires |after| > 1 && after[1] == 'g'
    ensures var rest := Mentions(validateFailed, fmtFailed) + after;
            if validateFailed && fmtFailed then StartsWith(rest, ValidateMention + Conjunction + FmtMention)
            else if validateFailed then !StartsWith(rest, ValidateMention + Conjunction + FmtMention) &&
                                        StartsWith(rest, ValidateMention)
            else !StartsWith(rest, ValidateMention + Conjunction + FmtMention) &&
                 !StartsWith(rest, ValidateMention) && StartsWith(rest, FmtMention)
  {
    var mentions := Mentions(validateFailed, fmtFailed);
    var rest := mentions + after;
    StartsWithConcat(mentions, after);
    if validateFailed && fmtFailed {
      assert mentions == ValidateMention + Conjunction + FmtMention;
    } else if validateFailed {
      assert mentions == ValidateMention;
      assert rest[|ValidateMention| + 1] == after[1];
      DiffersAt(rest, ValidateMention + Conjunction + FmtMention, |ValidateMention| + 1);
    } else {
      assert mentions == FmtMention;
      assert rest[12] == 'f';
      DiffersAt(rest, ValidateMention + Conjunction + FmtMention, 12);
      DiffersAt(rest, ValidateMention, 12);
    }
  }

  /** "and " occurs among the mentions exactly when both commands failed. */
  lemma ConjunctionIffBoth(validateFailed: bool, fmtFailed: bool)
    ensures Contains(Mentions(validateFailed, fmtFailed), Conjunction) <==> validateFailed && fmtFailed
  {
    var mentions := Mentions(validateFailed, fmtFailed);
    if validateFailed && fmtFailed {
      ContainsInfix(ValidateMention, Conjunction, FmtMention);
    } else {
      assert 'n' !in mentions;
      ContainsChar(mentions, Conjunction, 'n');
    }
  }

  lemma Tail4(a: string, b: string, c: string, d: string)
    ensures EndsWith(a + b + c + d, b + c + d)
  {
    assert a + b + c + d == a + (b + c + d);
    EndsWithConcat(a, b + c + d);
  }

  /** The end of the comment: the log sections present are exactly those of the failed
      commands, validate's before fmt's, each log verbatim inside its fence; after
      them come only the `[init]` definition and the marker. */
  lemma MessageEnding(inputs: ValidateInputs, validateLog: string, fmtLog: string)
    requires inputs.validate == Failure || inputs.fmt == Failure
    ensures inputs.validate == Failure && inputs.fmt == Failure ==>
              EndsWith(Message(inputs, validateLog, fmtLog),
                       TheseCommands + ValidateSection(validateLog) + FmtSection(fmtLog) + Closing)
    ensures inputs.validate == Failure && inputs.fmt != Failure ==>
              EndsWith(Message(inputs, validateLog, fmtLog),
                       ThisCommand + ValidateSection(validateLog) + Closing)
    ensures inputs.validate != Failure && inputs.fmt == Failure ==>
              EndsWith(Message(inputs, validateLog, fmtLog),
                       ThisCommand + FmtSection(fmtLog) + Closing)
  {
    var v, f := inputs.validate == Failure, inputs.fmt == Failure;
    var front := Opening + Mentions(v, f) + Target(inputs.resourceType, inputs.resourceName);
    if v && f {
      assert Grammar(true) == (Summaries + SeeResults) + TheseCommands;
      Assoc3(front, Summaries + SeeResults, TheseCommands);
      assert Sections(v, f, validateLog, fmtLog) == ValidateSection(validateLog) + FmtSection(fmtLog);
      Assoc3(front + (Summaries + SeeResults) + TheseCommands, ValidateSection(validateLog), FmtSection(fmtLog));
      Tail5(front + (Summaries + SeeResults), TheseCommands, ValidateSection(validateLog), FmtSection(fmtLog), Closing);
    } else if v {
      assert Grammar(false) == (Summary + SeeResults) + ThisCommand;
      Assoc3(front, Summary + SeeResults, ThisCommand);
      assert Sections(v, f, validateLog, fmtLog) == ValidateSection(validateLog);
      Tail4(front + (Summary + SeeResults), ThisCommand, ValidateSection(validateLog), Closing);
    } else {
      assert Grammar(false) == (Summary + SeeResults) + ThisCommand;
      Assoc3(front, Summary + SeeResults, ThisCommand);
      assert Sections(v, f, validateLog, fmtLog) == FmtSection(fmtLog);
      Tail4(front + (Summary + SeeResults), ThisCommand, FmtSection(fmtLog), Closing);
    }
  }

  lemma Tail5(a: string, b: string, c: string, d: string, e: string)
    ensures EndsWith(a + b + c + d + e, b + c + d + e)
  {
    assert a + b + c + d + e == a + (b + c + d + e);
    EndsWithConcat(a, b + c + d + e);
  }

  /** The sentence uses plural wording ("summaries ", "these commands") right after
      naming the configuration when both commands failed, and singular wording
      ("summary", with no space after it, and "this command") otherwise. */
  lemma MessageWording(inputs: ValidateInputs, validateLog: string, fmtLog: string)
    ensures Contains(Message(inputs, validateLog, fmtLog),
                     Target(inputs.resourceType, inputs.resourceName) +
                     (if inputs.validate == Failure && inputs.fmt == Failure
                      then Summaries + SeeResults + TheseCommands
                      else Summary + SeeResults + ThisCommand))
  {
    var v, f := inputs.validate == Failure, inputs.fmt == Failure;
    var target := Target(inputs.resourceType, inputs.resourceName);
    var front := Opening + Mentions(v, f);
    var sections := Sections(v, f, validateLog, fmtLog);
    Assoc3(front, target, Grammar(v && f));
    Assoc3(front + (target + Grammar(v && f)), sections, Closing);
    ContainsInfix(front, target + Grammar(v && f), sections + Closing);
  }

  /** Every comment ends with the marker. */
  lemma MessageMarker(inputs: ValidateInputs, validateLog: string, fmtLog: string)
    ensures EndsWith(Message(inputs, validateLog, fmtLog), Marker)
  {
    EndsWithSuffix(Message(inputs, validateLog, fmtLog), InitLinkLine, Marker);
  }

  /** The comment names the configuration as "against the <type> **<name>**. ". */
  lemma MessageNamesTarget(inputs: ValidateInputs, validateLog: string, fmtLog: string)
    ensures Contains(Message(inputs, validateLog, fmtLog), Named(inputs.resourceType, inputs.resourceName))
  {
    var v, f := inputs.validate == Failure, inputs.fmt == Failure;
    var named := Named(inputs.resourceType, inputs.resourceName);
    var front := Opening + Mentions(v, f);
    var back := "Expand on the following " + Grammar(v && f) + Sections(v, f, validateLog, fmtLog) + Closing;
    var m := Message(inputs, validateLog, fmtLog);
    Assoc3(front, named, "Expand on the following ");
    Regroup5(front + named, "Expand on the following ", Grammar(v && f), Sections(v, f, validateLog, fmtLog), Closing);
    assert m == front + named + back;
    ContainsInfix(front, named, back);
  }

  // ---------------------------------------------------------------------------
  // Properties of the signals and the run

  lemma StepSignalCounts(outcome: string, failedMessage: string, outcomePrefix: string, k: Kind)
    ensures Count(StepSignal(outcome, failedMessage, outcomePrefix), k) ==
            if k == FailKind then (if outcome == Failure then 1 else 0)
            else if k == InfoKind then (if outcome != Failure && outcome != Success then 1 else 0)
            else 0
  {
    var t := StepSignal(outcome, failedMessage, outcomePrefix);
    if t != [] {
      CountSingle(t[0], k);
    }
  }

  /** The signalling table: one failure per failed step, one log line per step whose
      outcome is neither "success" nor "failure", never a comment or an output; with
      both steps failed both failures are signalled, validate's first. */
  lemma SignalsTable(validate: string, fmt: string)
    ensures Count(Signals(validate, fmt), FailKind) ==
            (if validate == Failure then 1 else 0) + (if fmt == Failure then 1 else 0)
    ensures Count(Signals(validate, fmt), InfoKind) ==
            (if validate != Failure && validate != Success then 1 else 0) +
            (if fmt != Failure && fmt != Success then 1 else 0)
    ensures Count(Signals(validate, fmt), PostKind) == 0
    ensures Count(Signals(validate, fmt), OutputKind) == 0
    ensures validate == Failure && fmt == Failure ==>
              Signals(validate, fmt) == [SetFailed(ValidateFailedMessage), SetFailed(FmtFailedMessage)]
    ensures validate == Failure ==> Signals(validate, fmt)[0] == SetFailed(ValidateFailedMessage)
    ensures fmt == Failure ==>
              Signals(validate, fmt)[|Signals(validate, fmt)| - 1] == SetFailed(FmtFailedMessage)
    ensures validate != Failure && validate != Success ==>
              Signals(validate, fmt)[0] == Info(ValidateOutcomePrefix + validate)
    ensures fmt != Failure && fmt != Success ==>
              Signals(validate, fmt)[|Signals(validate, fmt)| - 1] == Info(FmtOutcomePrefix + fmt)
  {
    forall k: Kind
      ensures Count(Signals(validate, fmt), k) ==
              Count(StepSignal(validate, ValidateFailedMessage, ValidateOutcomePrefix), k) +
              Count(StepSignal(fmt, FmtFailedMessage, FmtOutcomePrefix), k)
    {
      CountConcat(StepSignal(validate, ValidateFailedMessage, ValidateOutcomePrefix),
                  StepSignal(fmt, FmtFailedMessage, FmtOutcomePrefix), k);
    }
    forall k: Kind
      ensures Count(StepSignal(validate, ValidateFailedMessage, ValidateOutcomePrefix), k) ==
              if k == FailKind then (if validate == Failure then 1 else 0)
              else if k == InfoKind then (if validate != Failure && validate != Success then 1 else 0)
              else 0
      ensures Count(StepSignal(fmt, FmtFailedMessage, FmtOutcomePrefix), k) ==
              if k == FailKind then (if fmt == Failure then 1 else 0)
              else if k == InfoKind then (if fmt != Failure && fmt != Success then 1 else 0)
              else 0
    {
      StepSignalCounts(validate, ValidateFailedMessage, ValidateOutcomePrefix, k);
      StepSignalCounts(fmt, FmtFailedMessage, FmtOutcomePrefix, k);
    }
  }

  /** A run posts a comment iff a command failed and its logs could be read, and then
      exactly one, as the first action, before every signal, with the text `Message`
      gives for the logs read; it never sets an output. An unreadable log ends
      the run with nothing done; otherwise the signals always follow. */
  lemma ReportValidatePosts(inputs: ValidateInputs, fs: FileSystem)
    ensures UnreadableLog(inputs, fs).Some? ==>
              ReportValidate(inputs, fs) == Execution([], Threw(UnreadableLog(inputs, fs).value))
    ensures Count(ReportValidate(inputs, fs).trace, PostKind) ==
            if (inputs.validate == Failure || inputs.fmt == Failure) && UnreadableLog(inputs, fs).None?
            then 1 else 0
    ensures Count(ReportValidate(inputs, fs).trace, PostKind) == 1 ==>
              ReportValidate(inputs, fs).trace[0] ==
                PostComment(Message(inputs, ReadFile(fs, ValidateLogPath).GetOr(""),
                                    ReadFile(fs, FmtLogPath).GetOr(""))) &&
              ReportValidate(inputs, fs).trace[1..] == Signals(inputs.validate, inputs.fmt)
    ensures Count(ReportValidate(inputs, fs).trace, OutputKind) == 0
    ensures UnreadableLog(inputs, fs).None? ==>
              ReportValidate(inputs, fs).exit == Returned &&
              |Signals(inputs.validate, inputs.fmt)| <= |ReportValidate(inputs, fs).trace| &&
              ReportValidate(inputs, fs).trace[|ReportValidate(inputs, fs).trace| - |Signals(inputs.validate, inputs.fmt)|..] ==
              Signals(inputs.validate, inputs.fmt)
  {
    var e := ReportValidate(inputs, fs);
    SignalsTable(inputs.validate, inputs.fmt);
    if UnreadableLog(inputs, fs).None? {
      var sig := Signals(inputs.validate, inputs.fmt);
      if inputs.validate == Failure || inputs.fmt == Failure {
        assert e.trace == [e.trace[0]] + sig;
        CountConcat([e.trace[0]], sig, PostKind);
        CountSingle(e.trace[0], PostKind);
        CountConcat([e.trace[0]], sig, OutputKind);
        CountSingle(e.trace[0], OutputKind);
      } else {
        assert e.trace == sig;
      }
    }
  }
}
