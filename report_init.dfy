/** The init reporter (scripts/terraform-report-init.js): on a failed `terraform init`
    it posts a status comment embedding the init log and fails the step. */
module ReportInit {
  import opened Effects
  import opened Text
  import opened ReportText

  /** The inputs the workflow passes: the init step's outcome and the labels of the
      Terraform configuration under check (`inputs.type`, `inputs.name`). */
  datatype InitInputs = InitInputs(init: string, resourceType: string, resourceName: string)

  const InitLogPath: string := "/tmp/terraform.init.log"
  const InitHeading: string := "## Terraform Status Report\n\n"
  const InitFailedMessage: string := "terraform init Failed. Stopping further processing."
  const InitOutcomePrefix: string := "terraform init Step outcome was "

  /** The fence that opens the log block: no language tag. */
  const LogFence: string := "```\n"

  /** The comment text between the heading and the log's opening fence. */
  function InitIntro(resourceType: string, resourceName: string): string {
    IntroBefore + InitTarget(resourceType, resourceName) + IntroAfter
  }

  const IntroBefore: string :=
    "GitHub Actions has run the [`terraform-checks`][terraform-checks] Workflow " +
    "against your pull request, but has **failed** to run [`terraform init " +
    "-backend=false`][init] "

  const IntroAfter: string :=
    "Expand on the following summary to see the results from this command:\n\n" +
    "<details>\n" +
    "<summary><code>terraform init</code> Log</summary>\n\n"

  /** The comment text up to and including the opening fence of the log. */
  function InitPreamble(resourceType: string, resourceName: string): string {
    InitHeading + InitIntro(resourceType, resourceName) + LogFence
  }

  /** The phrase naming the configuration under check. */
  function InitTarget(resourceType: string, resourceName: string): string {
    "against the " + resourceType + " **" + resourceName + "**. "
  }

  /** The comment text after the log: the closing fence, the end of the collapsible
      section, the `[init]` link definition and the marker. */
  const InitTrailer: string := LogClose + (InitLinkLine + Marker)

  /** The closing fence of the log and the end of the collapsible section. */
  const LogClose: string := "\n" + "```\n" + "</details>\n\n"

  /** The comment posted for a failed init with log text `log`: the heading first, the
      log verbatim inside the fence, and after it only the fence's close, the `[init]`
      link definition and the marker. */
  function InitMessage(log: string, resourceType: string, resourceName: string): (m: string)
    ensures StartsWith(m, InitHeading)
    ensures EndsWith(m, LogFence + log + InitTrailer)
  {
    var tail := LogFence + log + InitTrailer;
    StartsWithConcat(InitHeading, InitIntro(resourceType, resourceName) + tail);
    EndsWithConcat(InitHeading + InitIntro(resourceType, resourceName), tail);
    InitHeading + (InitIntro(resourceType, resourceName) + tail)
  }

  /** One run of the init reporter. The log is read only for a failed init; if it
      cannot be read the exception escapes before anything is posted or signalled. */
  function ReportInit(inputs: InitInputs, fs: FileSystem): (e: Execution)
    ensures e.exit.Threw? ==> e.trace == [] && e.exit.path == InitLogPath
  {
    if inputs.init == Success then
      Execution([], Returned)
    else if inputs.init == Failure then
      match ReadFile(fs, InitLogPath)
      case None => Execution([], Threw(InitLogPath))
      case Some(log) =>
        Execution([PostComment(InitMessage(log, inputs.resourceType, inputs.resourceName)),
                   SetFailed(InitFailedMessage)], Returned)
    else
      Execution([Info(InitOutcomePrefix + inputs.init)], Returned)
  }

  /** Recovers the log from a posted comment, given the labels it was written for. */
  function InitLogOf(m: string, resourceType: string, resourceName: string): Option<string> {
    var pre := InitPreamble(resourceType, resourceName);
    if |pre| + |InitTrailer| <= |m| && StartsWith(m, pre) && EndsWith(m, InitTrailer)
    then Some(m[|pre|..|m| - |InitTrailer|])
    else None
  }

  /** The comment embeds the log verbatim: InitLogOf reads back exactly the log. */
  lemma InitMessageRoundTrip(log: string, resourceType: string, resourceName: string)
    ensures InitLogOf(InitMessage(log, resourceType, resourceName), resourceType, resourceName) == Some(log)
  {
    var pre := InitPreamble(resourceType, resourceName);
    var m := InitMessage(log, resourceType, resourceName);
    var intro := InitIntro(resourceType, resourceName);
    Assoc3(LogFence, log, InitTrailer);
    Assoc4(InitHeading, intro, LogFence, log + InitTrailer);
    assert m == pre + (log + InitTrailer);
    StartsWithConcat(pre, log + InitTrailer);
    Assoc3(pre, log, InitTrailer);
    EndsWithConcat(pre + log, InitTrailer);
    assert m[|pre|..|m| - |InitTrailer|] == (pre + log + InitTrailer)[|pre|..|pre| + |log|];
  }

  /** The comment ends with the marker, and right before it stands the `[init]` link
      definition: the `[checks]` definition that follows it in the source is dropped. */
  lemma InitMessageClosing(log: string, resourceType: string, resourceName: string)
    ensures EndsWith(InitMessage(log, resourceType, resourceName), InitLinkLine + Marker)
    ensures EndsWith(InitMessage(log, resourceType, resourceName), Marker)
  {
    var m := InitMessage(log, resourceType, resourceName);
    Assoc3(LogFence + log, LogClose, InitLinkLine + Marker);
    EndsWithSuffix(m, LogFence + log + LogClose, InitLinkLine + Marker);
    EndsWithSuffix(m, InitLinkLine, Marker);
  }

  /** The comment names the configuration: "against the <type> **<name>**. ". */
  lemma InitMessageNamesTarget(log: string, resourceType: string, resourceName: string)
    ensures Contains(InitMessage(log, resourceType, resourceName), InitTarget(resourceType, resourceName))
  {
    var target := InitTarget(resourceType, resourceName);
    var tail := LogFence + log + InitTrailer;
    Assoc3(IntroBefore + target, IntroAfter, tail);
    Assoc3(IntroBefore, target, IntroAfter + tail);
    Assoc3(InitHeading, IntroBefore, target + (IntroAfter + tail));
    Assoc3(InitHeading + IntroBefore, target, IntroAfter + tail);
    ContainsInfix(InitHeading + IntroBefore, target, IntroAfter + tail);
  }

  /** A successful init does nothing. */
  lemma ReportInitSuccess(inputs: InitInputs, fs: FileSystem)
    requires inputs.init == Success
    ensures ReportInit(inputs, fs) == Execution([], Returned)
  {
  }

  /** A failed init with a readable log posts the comment and then fails the step, and
      does nothing else. */
  lemma ReportInitFailure(inputs: InitInputs, fs: FileSystem)
    requires inputs.init == Failure && InitLogPath in fs
    ensures ReportInit(inputs, fs).exit == Returned
    ensures ReportInit(inputs, fs).trace ==
            [PostComment(InitMessage(fs[InitLogPath], inputs.resourceType, inputs.resourceName)),
             SetFailed(InitFailedMessage)]
  {
  }

  /** A failed init whose log cannot be read aborts with nothing done. */
  lemma ReportInitMissingLog(inputs: InitInputs, fs: FileSystem)
    requires inputs.init == Failure && InitLogPath !in fs
    ensures ReportInit(inputs, fs) == Execution([], Threw(InitLogPath))
  {
  }

  /** Any other outcome logs it, posts nothing, fails nothing, and does not depend on
      any file. */
  lemma ReportInitOther(inputs: InitInputs, fs1: FileSystem, fs2: FileSystem)
    requires inputs.init != Success && inputs.init != Failure
    ensures ReportInit(inputs, fs1) == ReportInit(inputs, fs2)
    ensures ReportInit(inputs, fs1) == Execution([Info(InitOutcomePrefix + inputs.init)], Returned)
  {
  }

  /** How many comments and failures a run produces: one of each exactly when init
      failed and its log was readable, and then the comment comes first. */
  lemma ReportInitCounts(inputs: InitInputs, fs: FileSystem)
    ensures Count(ReportInit(inputs, fs).trace, PostKind) == Count(ReportInit(inputs, fs).trace, FailKind)
    ensures Count(ReportInit(inputs, fs).trace, PostKind) ==
            (if inputs.init == Failure && InitLogPath in fs then 1 else 0)
    ensures Count(ReportInit(inputs, fs).trace, InfoKind) ==
            (if inputs.init != Success && inputs.init != Failure then 1 else 0)
    ensures Count(ReportInit(inputs, fs).trace, OutputKind) == 0
    ensures Count(ReportInit(inputs, fs).trace, PostKind) == 1 ==>
            ReportInit(inputs, fs).trace[0].PostComment? && ReportInit(inputs, fs).trace[1].SetFailed?
  {
    var t := ReportInit(inputs, fs).trace;
    if |t| == 1 {
      CountSingle(t[0], PostKind);
      CountSingle(t[0], FailKind);
      CountSingle(t[0], InfoKind);
      CountSingle(t[0], OutputKind);
    } else if |t| == 2 {
      assert t == [t[0], t[1]];
      forall k: Kind ensures Count(t, k) == (if KindOf(t[0]) == k then 1 else 0) + (if KindOf(t[1]) == k then 1 else 0) {
        CountPair(t[0], t[1], k);
        CountSingle(t[0], k);
        CountSingle(t[1], k);
      }
    }
  }
}
