/** Two small selectors used by several commands. Flag lookups are inputs:
    a boolean lookup that errors is None. */
module Selectors {
  import opened Wrappers

  /** `time.Second` in Go's `time.Duration` unit (nanoseconds). */
  const Second: nat := 1_000_000_000

  /** The bound `waitForDeploymentIfFlagged` always passes: 80 seconds. */
  const WaitBound: nat := 80 * Second

  /** A call `WaitForDeployment(deploymentId, bound)`. */
  datatype WaitCall = WaitCall(deploymentId: string, bound: nat)

  /** Lines 347-351: wait only when the wait flag was looked up without
      error and is set. The `timeout` flag is declared for every command but
      never read; it is a parameter here only so that its irrelevance can be
      stated. */
  function WaitIfFlagged(waitFlag: Option<bool>, timeoutFlag: Option<int>, deploymentId: string): (w: Option<WaitCall>)
    ensures w.Some? <==> waitFlag == Some(true)
    ensures w.Some? ==> w.value.deploymentId == deploymentId && w.value.bound == 80 * Second
  {
    if waitFlag == Some(true) then Some(WaitCall(deploymentId, WaitBound)) else None
  }

  /** Whatever the timeout flag says, the wait (or its absence) is the same.
      This holds by construction, as the flag is never read; it documents
      the fixed bound rather than proving anything about it. */
  lemma TimeoutFlagIgnored(waitFlag: Option<bool>, t1: Option<int>, t2: Option<int>, deploymentId: string)
    ensures WaitIfFlagged(waitFlag, t1, deploymentId) == WaitIfFlagged(waitFlag, t2, deploymentId)
  {
  }

  /** Lines 360-367: a non-empty custom format replaces the command's
      default template; an empty (or unset) one leaves the default. */
  function TemplateFormat(template: string, custom: string): (t: string)
    ensures |custom| > 0 ==> t == custom
    ensures |custom| == 0 ==> t == template
  {
    if |custom| > 0 then custom else template
  }

  /** Re-applying the same custom format changes nothing, and the chosen
      format is empty only when both candidates are. */
  lemma TemplateFormatStable(template: string, custom: string)
    ensures TemplateFormat(TemplateFormat(template, custom), custom) == TemplateFormat(template, custom)
    ensures TemplateFormat(template, custom) == "" <==> template == "" && custom == ""
  {
  }
}
