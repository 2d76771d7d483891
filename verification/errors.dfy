/** The errors the analysis pipeline can raise. Each constructor is one
    `throw` site of the service (or the detection engine it calls). */
module Errors {

  datatype Error =
      /** `getRepository` rejected the URL; carries the URL as given by the caller. */
    | InvalidGitHubUrl(url: string)
      /** `git clone` exited with a non-zero status; carries the repository and stderr. */
    | CloneFailed(repo: string, cause: string)
      /** The detection engine threw while scanning the working copy. */
    | AnalysisFailed(cause: string)

  /** The `message` of the JavaScript `Error` object each case stands for. */
  function Message(e: Error): string
  {
    match e
    case InvalidGitHubUrl(url) => "Invalid GitHub URL: " + url
    case CloneFailed(repo, _) => "Error cloning " + repo
    case AnalysisFailed(cause) => cause
  }
}
