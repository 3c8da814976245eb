/** Text shared by the two status-report comments. */
module ReportText {

  /** The hidden HTML comment that ends every status report, so that an earlier report
      can be found and hidden when the workflow runs again. */
  const Marker: string := "<!-- terraform-status-report -->"

  /** The one reference-link definition both reporters actually append. The `[checks]`
      definition (and, in the validate reporter, `[fmt]` and `[validate]`) follows it in
      the source as a separate expression statement after a `;`, and so never reaches
      the message. */
  const InitLinkLine: string := "[init]: https://www.terraform.io/cli/commands/init\n"

  /** The outcome strings the workflow passes for a step. */
  const Success: string := "success"
  const Failure: string := "failure"
}
