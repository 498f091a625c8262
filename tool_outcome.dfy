/**
 * External commands (kubeconform, kube-score, kubectl) are not run by the
 * model: each run is an input value saying how it ended.
 */
module ToolRun {
  /** How one run of an external command ended: with an exit status and the
      captured standard output and error, or with the exception raised while
      starting it (for example a missing executable). */
  datatype ToolOutcome =
    | Exited(code: int, stdout: string, stderr: string)
    | Raised(message: string)
}
