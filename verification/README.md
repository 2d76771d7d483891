# stack-analyzer core, modelled in Dafny

The service receives a GitHub repository URL, clones the repository into a scratch
directory, runs a technology-detection engine over the working copy and returns the
technologies it found, without duplicates. This project models the logic of that
pipeline and proves what it promises.

- **URL parsing** (`src/helpers.ts`). The anchored pattern `githubRegex` is modelled in
  two ways. `Helpers.Matches` is a declarative predicate: for each of the three
  scheme alternatives, it says which owner and name the pattern accepts. A scanner,
  `Helpers.MatchGithub`, reads the input left to right. `Helpers.MatchCorrect` proves
  the two agree. `getRepository` lower-cases the URL, matches it, and fails with
  `Invalid GitHub URL: <url>` when nothing matches. `getRepositoryString` renders the
  match as `owner/name`.
- **Paths and the filesystem** (module `Paths`). `path.join` is modelled as string
  concatenation with `/`, followed by the segment normalisation Node performs: `""`
  and `.` vanish, and `..` removes the previous segment. A filesystem is the set of
  paths that exist. A recursive, forced `fs.rm` removes a directory and everything
  below it.
- **Technology flattening** (module `Techs`). The engine's report is an input
  datatype: the root technologies plus one list per child. `Techs.Dedup` is what
  spreading a list into a JavaScript `Set` yields: the first occurrence of each value
  is kept. `Techs.SpreadIntoSet` computes it with a loop.
- **The lifecycle** (module `Analyzer`):
  - `getRepoInfo` derives the repository string and the workspace directory.
  - `cloneRepository` builds the `git clone` command and checks its exit code.
  - `analyzeRepositoryStack` runs these steps in order: pre-clean the workspace
    (errors swallowed), clone, analyse, then remove the workspace in `finally`.

  The temporary directory, the filesystem before the call, the `git` run and the
  engine's outcome are all parameters. The engine's outcome is either a report or a
  thrown error.

The doc comment on `getRepository` in src/helpers.ts says it returns `null` for an invalid URL,
but the code throws. The model follows the code: the result is `Failure(InvalidGitHubUrl(url))`.

## Model

| member | source | states |
|---|---|---|
| Helpers.MatchGithub | src/helpers.ts:7 | Whatever groups the left-to-right scanner returns, the pattern matches the input with those groups. |
| Helpers.MatchCorrect | src/helpers.ts:7 | The scanner returns a pair of groups exactly when the pattern matches the input with those groups. The pattern allows an optional `http://` or `https://`, then `github.com/`, an owner of non-`/` characters, `/`, a name over `[a-zA-Z0-9._-]`, and then `/`, `?`, `#` or the end of input. |
| Helpers.MatchUnique | src/helpers.ts:7 | The pattern determines its groups: no input matches with two different pairs. |
| Helpers.GetRepository | src/helpers.ts:15-23 | On success, the lower-cased URL matches the pattern with the returned groups. The owner is non-empty and has no `/`. The name is non-empty and drawn from the name class. Neither contains an upper-case letter. On failure, the error is `InvalidGitHubUrl` carrying the URL as given, and no pair of groups matches. |
| Helpers.GetRepositoryString | src/helpers.ts:31-35 | A failure of `getRepository` comes back unchanged. Otherwise the result is the owner, a `/`, then the name, and that `/` is the only one in the string. |
| Helpers.GetRepositoryCaseInsensitive | src/helpers.ts:16 | A URL and its lower-case form are accepted or rejected together, and when accepted they yield the same owner and name. |
| Helpers.AcceptedPrefix | src/helpers.ts:7 | Every accepted URL starts, once lower-cased, with `github.com/`, `http://github.com/` or `https://github.com/`. |
| Helpers.RejectsWwwHost | src/helpers.ts:18-20 | Every URL that starts with `www.`, such as `www.github.com/a/b`, is rejected with `Invalid GitHub URL` for that URL. |
| Helpers.RejectsSshForm | src/helpers.ts:18-20 | Every URL that starts with `git@`, such as the SSH form `git@github.com:a/b`, is rejected with `Invalid GitHub URL` for that URL. |
| Helpers.RoundTrip | src/helpers.ts:15-23 | Any allowed scheme, the host, any valid owner, `/` and any valid name assembled into a URL parse back to that owner and name, lower-cased. |
| Helpers.RoundTripLowerCase | src/helpers.ts:15-23 | `https://github.com/<o>/<n>`, with a lower-case valid owner `o` and name `n`, parses to exactly `(o, n)`. |
| Helpers.SuffixIgnored | src/helpers.ts:7 | Appending `/`, `?` or `#` and any text to an accepted URL leaves its groups unchanged. |
| Helpers.RejectsUndelimitedName | src/helpers.ts:7 | A name followed by a character that is neither a name character nor a delimiter makes the URL fail. |
| Helpers.RepositoryStringIdempotent | src/helpers.ts:31-35 | Re-parsing `github.com/` followed by the rendered `owner/name` renders the same string. |
| Ascii.ToLower | src/helpers.ts:16 | `url.toLowerCase()` keeps the length, leaves no upper-case ASCII letter, and maps every character to its lower-case form position by position. |
| Ascii.ToLowerIdempotent | src/helpers.ts:16 | Lower-casing twice is the same as lower-casing once. |
| Paths.Join | src/analyzer.ts:11 | `path.join` always yields a normalised path: no segment is empty, `.` or contains `/`, and `..` occurs only as a leading run of a relative path. |
| Paths.NormalizeRender | src/analyzer.ts:11 | A normalised path, written out with `/` separators, normalises back to itself. |
| Paths.NormalizeAppend | src/analyzer.ts:11 | Joining a string onto a non-empty path resolves the string's segments on top of the path's normalised segments, so `..` climbs out of it. |
| Paths.NormalizeExtend | src/analyzer.ts:11 | Joining plain segments onto a non-empty path appends them, unchanged, to the path's normalised segments. |
| Paths.Ancestors | src/analyzer.ts:17 | The directories the clone may create above its destination are exactly the paths the destination lies strictly below. |
| Paths.RemoveTree | src/analyzer.ts:29 | A recursive, forced `fs.rm` removes the directory and everything below it and keeps every other path. |
| Paths.RemoveMissing | src/analyzer.ts:29 | With `force: true`, removing a directory that is not there leaves the filesystem unchanged rather than failing. |
| Paths.RemoveTreeIdempotent | src/analyzer.ts:29-48 | Removing the same directory twice equals removing it once, so the pre-clean and the removal in `finally` never conflict. |
| Techs.Dedup | src/analyzer.ts:43 | The spread of the `Set` has no duplicates, holds exactly the values of its input, and is no longer than the input. |
| Techs.DedupFirstOccurrenceOrder | src/analyzer.ts:43 | The spread lists values in the order of their first occurrence in the input. |
| Techs.DedupNoDup | src/analyzer.ts:43 | A duplicate-free input comes back unchanged. |
| Techs.DedupAppend | src/analyzer.ts:43 | Deduplicating `a + b` gives the deduplication of `a`, followed by the deduplication of the values of `b` that are absent from `a`. |
| Techs.SpreadIntoSet | src/analyzer.ts:43 | Filling a set value by value and keeping each unseen value yields exactly `Dedup` of the input: duplicate-free, with the same members. |
| Techs.Flatten | src/analyzer.ts:43 | The list spread into the `Set` starts with the root's technologies, and holds a technology exactly when the root or some child lists it. |
| Techs.Techs | src/analyzer.ts:41-43 | The result lists every technology of the root or of a child exactly once, and nothing else, in the order of first mention. |
| Techs.TechsMembership | src/analyzer.ts:41-43 | A technology is in the result exactly when the root or some child lists it. |
| Techs.TechsReorder | src/analyzer.ts:41-43 | Reordering or repeating the children, or the root's technologies, never changes the result's membership. |
| Techs.TechsCountOnce | src/analyzer.ts:43 | Every technology found anywhere occurs exactly once in the result. The result is no longer than the root's and children's lists together. |
| Techs.TechsRootFirst | src/analyzer.ts:41-43 | With duplicate-free root technologies, the result is those technologies in their order, followed by the child-only technologies in child order. |
| Techs.NodejsTypescript | src/analyzer.ts:41-43 | Root `[nodejs]` with a child `[typescript, nodejs]` gives `[nodejs, typescript]`. |
| Analyzer.GetRepoInfoAsWritten | src/analyzer.ts:9-14 | `getRepoInfo` as written fails exactly when the URL does not parse, with the same error. On success its repository string is what `getRepositoryString` returns. Its workspace is the owner and then the name resolved on top of the scratch root, so a `.` or `..` group moves it. |
| Analyzer.GetRepoInfo | src/analyzer.ts:9-14 | The corrected `getRepoInfo` succeeds exactly when the URL parses and neither the owner nor the name is `.` or `..`. Every failure is `InvalidGitHubUrl(url)`. On success the workspace is the scratch root followed by the owner and the name, so it lies strictly below the scratch root. |
| Analyzer.CorrectedAgrees | src/analyzer.ts:9-14 | Wherever the corrected version accepts a URL, it returns the same repository and workspace as the version as written. |
| Analyzer.WorkspaceIdentifiesRepository | src/analyzer.ts:9-14 | With the corrected `getRepoInfo`, two URLs get the same workspace exactly when they name the same owner and name. `getRepoInfo` as written lacks this (`Analyzer.AsWrittenWorkspacesCollide`). |
| Analyzer.WorkspaceCaseInsensitive | src/analyzer.ts:9-14 | URLs that differ only in letter case are accepted together and get the same repository and workspace, from `getRepoInfo` as written and from the corrected one. |
| Analyzer.WorkspaceSuffixIgnored | src/analyzer.ts:9-14 | For every URL `getRepoInfo` as written accepts, text after the delimiter that ends the name changes neither the repository nor the workspace. The same holds for the corrected `getRepoInfo` wherever it accepts the URL. |
| Analyzer.RemovalConfined | src/analyzer.ts:28-30 | With the corrected `getRepoInfo`, removing the workspace leaves the scratch root itself, and every path outside it, as it was. `getRepoInfo` as written lacks this (`Analyzer.AsWrittenRemovesScratchRoot`, `Analyzer.AsWrittenWorkspaceEscapes`). |
| Analyzer.AsWrittenWorkspaceEscapes | src/analyzer.ts:9-14 | With `getRepoInfo` as written, `github.com/../..` under a one-segment absolute temporary directory such as `/tmp` gets the workspace `/`. That workspace is outside the scratch root, and removing it removes every absolute path. |
| Analyzer.AsWrittenParentWorkspace | src/analyzer.ts:9-14 | With `getRepoInfo` as written, `github.com/<o>/..` for a plain lower-case owner `o` is accepted, and its workspace is the scratch root `<tmpdir>/stack-analyzer` itself. |
| Analyzer.AsWrittenRemovesScratchRoot | src/analyzer.ts:28-30 | Hence, with `getRepoInfo` as written, the removal for `github.com/<o>/..` removes the whole scratch root, including every other request's workspace. |
| Analyzer.AsWrittenDotName | src/analyzer.ts:9-14 | With `getRepoInfo` as written, `github.com/<x>/.` parses to owner `x` and name `.`, and its workspace is `<scratch root>/<x>`. |
| Analyzer.AsWrittenDotOwner | src/analyzer.ts:9-14 | With `getRepoInfo` as written, `github.com/./<x>` parses to owner `.` and name `x`, and its workspace is `<scratch root>/<x>` too. |
| Analyzer.AsWrittenWorkspacesCollide | src/analyzer.ts:9-14 | With `getRepoInfo` as written, `github.com/<x>/.` and `github.com/./<x>` name different repositories but get the same workspace. |
| Analyzer.CorrectedRejectsDotSegments | src/analyzer.ts:9-14 | The corrected `getRepoInfo` rejects `github.com/../..` with `InvalidGitHubUrl`. |
| Analyzer.CloneCommand | src/analyzer.ts:17 | The clone fetches `https://github.com/` followed by the repository string and `.git`, with depth 2, into the workspace. |
| Analyzer.CloneUrlParses | src/analyzer.ts:17 | The clone URL of a lower-case, accepted repository parses back to the same owner, with the name read as `<name>.git`. |
| Analyzer.MadeParents | src/analyzer.ts:17 | When the clone gets as far as creating its destination's missing parent directories, it adds every directory above the workspace and nothing inside it. |
| Analyzer.CloneRepository | src/analyzer.ts:16-23 | The clone fails exactly when the exit code is non-zero. The error is then `Error cloning <repo>`, with the standard error as its cause. |
| Analyzer.RunInWorkspace | src/analyzer.ts:28-49 | Whatever the clone and the engine do, the workspace and everything below it are gone afterwards. The only other change is the parent directories the clone created. The steps are exactly: pre-clean, clone, analysis (only after a zero exit code), removal. A clone or engine error is the result. Otherwise the result is the deduplicated technologies of the report. |
| Analyzer.AnalyzeRepositoryStack | src/analyzer.ts:25-50 | The pipeline with the corrected `getRepoInfo` of the finding below. An unusable URL, `.` and `..` groups included, fails with its error before any filesystem or clone step, and leaves the filesystem untouched. Otherwise the run has the guarantees of `RunInWorkspace`. Only paths strictly below the scratch root are ever removed. The only paths added are directories above the workspace. |
| Analyzer.AnalyzeRepositoryStackAsWritten | src/analyzer.ts:25-50 | The pipeline as the service composes it, with `getRepoInfo` as written: the run of `RunInWorkspace` in whatever workspace `path.join` makes of the groups. For `github.com/../..` under a one-segment absolute temporary directory, no absolute path is left afterwards. |

## Left out

- `src/index.ts` is not part of this model: it covers routing, the API-key check, the "repository required" response and the JSON shaping.
- `src/env.ts` and `src/db.ts` are not part of this model: they only parse environment variables and construct a database client.
- The detection engine (`analyser`, `FSProvider`, `flatten`) is an input: either the flattened report or a thrown error, whose message becomes `AnalysisFailed`.
- The `git` process is an input: its exit code, its standard error, whether it created the missing parent directories of its destination, and the paths it wrote below the workspace. File contents are not modelled. A filesystem is a set of paths, so creating a parent directory that already exists changes nothing.
- The `exitCode` check is modelled as written. By default `execa` rejects on a non-zero exit before that check runs. The error that reaches the caller is then `execa`'s own, not `Error cloning <repo>`. `execa`'s behaviour is not part of this model.
- The final `fs.rm` in `finally` is assumed to succeed. If it threw, its error would replace the result. The pre-clean failure is modelled, as a flag that leaves the filesystem unchanged.
- Concurrency is not modelled. Two simultaneous requests for the same repository share one workspace, and each request's `finally` can remove the other's working copy.
- `String.prototype.toLowerCase` is modelled for ASCII letters only. Full Unicode case mapping is not modelled.
- `path.join` is modelled for POSIX separators only. The trailing separator it keeps is not modelled. `os.tmpdir()` is a parameter.
- Logging (`console.*`) and the server's idle timeout are not modelled.
- Helpers.GetRepositoryCaseInsensitive: the success/failure status and the groups agree for a URL and its lower-case form. The error payloads do not agree, because the error carries the URL as given.

## Findings

| source | as written | input that shows it | evidently intended | confidence | as-written member | corrected member |
|---|---|---|---|---|---|---|
| src/analyzer.ts:9-14 | The workspace is `path.join(os.tmpdir(), "stack-analyzer", owner + "/" + name)` for any owner and name the pattern accepts. The pattern accepts `.` and `..` as both owner and name. | With `github.com/../..` and `/tmp` as the temporary directory, the workspace normalises to `/`. Both removals of the workspace (`recursive`, `force`) then target the whole filesystem. With `github.com/a/..` the workspace is `<tmpdir>/stack-analyzer` itself, so the removals wipe every other request's workspace. `github.com/x/.` and `github.com/./x` name different repositories but share the workspace `<tmpdir>/stack-analyzer/x`. | Every workspace lies strictly below `<tmpdir>/stack-analyzer`: owner and name `.` or `..` are refused like an invalid URL. | high (not executed) | Analyzer.AsWrittenWorkspaceEscapes, Analyzer.AnalyzeRepositoryStackAsWritten, Analyzer.AsWrittenRemovesScratchRoot, Analyzer.AsWrittenWorkspacesCollide | Analyzer.GetRepoInfo, Analyzer.AnalyzeRepositoryStack |
