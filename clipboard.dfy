/**
 * Which way copyBibtex copies and what it reports. The browser's answers (is
 * the Clipboard API there, is the context secure, does `writeText` resolve,
 * what does `execCommand('copy')` do) are inputs.
 */
module Clipboard {
  import opened Feedback

  /** What `document.execCommand('copy')` did: returned a boolean, or threw. */
  datatype ExecResult = Returned(successful: bool) | Threw

  datatype Environment = Environment(
    hasClipboardApi: bool,   // `navigator.clipboard` is defined
    secureContext: bool,     // `window.isSecureContext`
    writeResolves: bool,     // the promise of `navigator.clipboard.writeText` resolves (otherwise it rejects)
    exec: ExecResult)        // the legacy command, should the fallback run

  /** The modern API is tried only when it exists and the context is secure. */
  predicate TriesClipboardApi(env: Environment) {
    env.hasClipboardApi && env.secureContext
  }

  /** The fallback runs unless the modern API was tried and succeeded. */
  predicate RunsFallback(env: Environment) {
    !(TriesClipboardApi(env) && env.writeResolves)
  }

  /** fallbackCopyTextToClipboard's report: success exactly when the command returned true without throwing. */
  function FallbackOutcome(exec: ExecResult): (o: Outcome)
    ensures o == Copied <==> exec == Returned(true)
  {
    match exec
    case Returned(successful) => if successful then Copied else CopyFailed
    case Threw => CopyFailed
  }

  /**
   * copyBibtex's report: success through the API when it was tried and
   * succeeded, and otherwise whatever the fallback reports.
   */
  function CopyOutcome(env: Environment): (o: Outcome)
    ensures !RunsFallback(env) ==> o == Copied
    ensures RunsFallback(env) ==> o == FallbackOutcome(env.exec)
    ensures o == Copied <==> (TriesClipboardApi(env) && env.writeResolves) || env.exec == Returned(true)
  {
    if env.hasClipboardApi && env.secureContext then
      if env.writeResolves then Copied else FallbackOutcome(env.exec)
    else
      FallbackOutcome(env.exec)
  }

  /** Without the API the fallback still reports success when the legacy command succeeds. */
  lemma NoApiFallbackSucceeds(env: Environment)
    requires !env.hasClipboardApi && env.exec == Returned(true)
    ensures RunsFallback(env) && CopyOutcome(env) == Copied
  {
  }
}
