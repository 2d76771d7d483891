/** `analyzeRepositoryStack`: derive the repository and its scratch workspace
    from a URL, clean the workspace, clone into it, run the detection engine
    and deduplicate its technologies, and always remove the workspace again.
    The temporary directory, the filesystem, the `git` process and the engine
    are parameters: the model fixes what the service does with their answers. */
module Analyzer {
  import opened Wrappers
  import opened Errors
  import opened Ascii
  import opened Helpers
  import opened Paths
  import T = Techs

  /** The result of `getRepoInfo`: the rendered `owner/name` and the workspace. */
  datatype RepoInfo = RepoInfo(repo: string, dir: Path)

  /** The directory every workspace is meant to live in: `stack-analyzer`
      joined onto the temporary directory. */
  function ScratchRoot(tmp: string): Path
  {
    Join([tmp, "stack-analyzer"])
  }

  /** `getRepoInfo` as written in the service: the workspace joins the
      temporary directory, `stack-analyzer` and whatever `owner/name` the URL
      yields, dot segments included. */
  function GetRepoInfoAsWritten(url: string, tmp: string): (res: Result<RepoInfo, Error>)
    ensures res.Failure? <==> GetRepository(url).Failure?
    ensures res.Failure? ==> res.error == InvalidGitHubUrl(url)
    ensures res.Success? ==>
              var r := GetRepository(url).value;
              var root := ScratchRoot(tmp);
              && Success(res.value.repo) == GetRepositoryString(url)
              && res.value.dir == Path(root.absolute, Resolve(root.absolute, root.segments, [r.owner, r.name]))
  {
    match GetRepository(url)
    case Failure(e) => Failure(e)
    case Success(r) =>
      NameNoSlash(r.name);
      JoinedWorkspace(tmp, r);
      Success(RepoInfo(RepositoryString(r), Join([tmp, "stack-analyzer", RepositoryString(r)])))
  }

  /** `getRepoInfo` with the workspace confined to the scratch root: an owner
      or name that `path.join` would read as `.` or `..` is refused with the
      same error as an unparsable URL. */
  function GetRepoInfo(url: string, tmp: string): (res: Result<RepoInfo, Error>)
    ensures res.Success? <==>
              GetRepository(url).Success? && Plain(GetRepository(url).value.owner) && Plain(GetRepository(url).value.name)
    ensures res.Failure? ==> res.error == InvalidGitHubUrl(url)
    ensures res.Success? ==>
              var r := GetRepository(url).value;
              var root := ScratchRoot(tmp);
              && Success(res.value.repo) == GetRepositoryString(url)
              && res.value.dir == Path(root.absolute, root.segments + [r.owner, r.name])
              && StrictlyWithin(res.value.dir, root)
  {
    match GetRepository(url)
    case Failure(e) => Failure(e)
    case Success(r) =>
      if !Plain(r.owner) || !Plain(r.name) then Failure(InvalidGitHubUrl(url))
      else
        WorkspaceDir(tmp, r);
        Success(RepoInfo(RepositoryString(r), Join([tmp, "stack-analyzer", RepositoryString(r)])))
  }

  /** `path.join(tmp, "stack-analyzer")` is never the empty string. */
  lemma RootArgs(tmp: string)
    ensures JoinArgs([tmp, "stack-analyzer"]) == if tmp == "" then "stack-analyzer" else tmp + "/" + "stack-analyzer"
  {
    assert [tmp, "stack-analyzer"][..1] == [tmp];
    assert JoinArgs([tmp]) == tmp by {
      assert [tmp][..0] == [];
    }
  }

  /** Whatever the groups, the workspace is the owner and then the name
      resolved on top of the scratch root, so a `.` or `..` group moves it. */
  lemma JoinedWorkspace(tmp: string, r: Repository)
    requires '/' !in r.owner && '/' !in r.name
    ensures var root := ScratchRoot(tmp);
      Join([tmp, "stack-analyzer", RepositoryString(r)])
      == Path(root.absolute, Resolve(root.absolute, root.segments, [r.owner, r.name]))
  {
    var repo := RepositoryString(r);
    var base := JoinArgs([tmp, "stack-analyzer"]);
    RootArgs(tmp);
    assert [tmp, "stack-analyzer", repo][..2] == [tmp, "stack-analyzer"];
    assert JoinArgs([tmp, "stack-analyzer", repo]) == base + "/" + repo;
    SplitConcat(r.owner, r.name);
    SplitSegment(r.owner);
    SplitSegment(r.name);
    assert Split(repo) == [r.owner, r.name];
    NormalizeAppend(base, repo);
  }

  /** For plain groups the workspace is the scratch root followed by the
      owner and the name. */
  lemma WorkspaceDir(tmp: string, r: Repository)
    requires Plain(r.owner) && Plain(r.name)
    ensures Join([tmp, "stack-analyzer", RepositoryString(r)])
            == Path(ScratchRoot(tmp).absolute, ScratchRoot(tmp).segments + [r.owner, r.name])
    ensures StrictlyWithin(Join([tmp, "stack-analyzer", RepositoryString(r)]), ScratchRoot(tmp))
  {
    JoinedWorkspace(tmp, r);
    var root := ScratchRoot(tmp);
    ResolvePlain(root.absolute, root.segments, [r.owner, r.name]);
    assert root.segments <= root.segments + [r.owner, r.name];
  }

  /** Where the corrected `getRepoInfo` accepts a URL it agrees with
      `getRepoInfo` as written. */
  lemma CorrectedAgrees(url: string, tmp: string)
    requires GetRepoInfo(url, tmp).Success?
    ensures GetRepoInfoAsWritten(url, tmp) == GetRepoInfo(url, tmp)
  {
    var r := GetRepository(url).value;
    assert GetRepositoryString(url) == Success(RepositoryString(r));
  }

  /** With the corrected `getRepoInfo`, the workspace depends on the
      repository alone: two URLs naming the same repository share it, and
      different repositories never do. `getRepoInfo` as written lacks this
      (`AsWrittenWorkspacesCollide`). */
  lemma WorkspaceIdentifiesRepository(u1: string, u2: string, tmp: string)
    requires GetRepoInfo(u1, tmp).Success? && GetRepoInfo(u2, tmp).Success?
    ensures GetRepoInfo(u1, tmp).value.dir == GetRepoInfo(u2, tmp).value.dir
            <==> GetRepository(u1).value == GetRepository(u2).value
  {
    var r1, r2 := GetRepository(u1).value, GetRepository(u2).value;
    AppendPairInjective(ScratchRoot(tmp).segments, r1, r2);
  }

  lemma AppendPairInjective(segs: seq<string>, r1: Repository, r2: Repository)
    ensures segs + [r1.owner, r1.name] == segs + [r2.owner, r2.name] <==> r1 == r2
  {
    var s1, s2 := segs + [r1.owner, r1.name], segs + [r2.owner, r2.name];
    if s1 == s2 {
      assert s1[|segs|] == r1.owner && s2[|segs|] == r2.owner;
      assert s1[|segs| + 1] == r1.name && s2[|segs| + 1] == r2.name;
    }
  }

  /** URLs differing only in letter case get the same repository and
      workspace, from `getRepoInfo` as written and from the corrected one. */
  lemma WorkspaceCaseInsensitive(url: string, tmp: string)
    ensures GetRepoInfoAsWritten(ToLower(url), tmp).Success? <==> GetRepoInfoAsWritten(url, tmp).Success?
    ensures GetRepoInfoAsWritten(url, tmp).Success? ==>
              GetRepoInfoAsWritten(ToLower(url), tmp).value == GetRepoInfoAsWritten(url, tmp).value
    ensures GetRepoInfo(ToLower(url), tmp).Success? <==> GetRepoInfo(url, tmp).Success?
    ensures GetRepoInfo(url, tmp).Success? ==> GetRepoInfo(ToLower(url), tmp).value == GetRepoInfo(url, tmp).value
  {
    GetRepositoryCaseInsensitive(url);
  }

  /** Text after the delimiter that ends the name does not move the
      workspace, for `getRepoInfo` as written and for the corrected one. */
  lemma WorkspaceSuffixIgnored(url: string, d: char, tail: string, tmp: string)
    requires GetRepoInfoAsWritten(url, tmp).Success? && IsDelimiter(d)
    ensures GetRepoInfoAsWritten(url + [d] + tail, tmp) == GetRepoInfoAsWritten(url, tmp)
    ensures GetRepoInfo(url, tmp).Success? ==> GetRepoInfo(url + [d] + tail, tmp) == GetRepoInfo(url, tmp)
  {
    SuffixIgnored(url, d, tail);
  }

  /** With the corrected `getRepoInfo`, removing the workspace leaves the
      scratch root itself and everything outside it in place. `getRepoInfo`
      as written lacks this (`AsWrittenRemovesScratchRoot`,
      `AsWrittenWorkspaceEscapes`). */
  lemma RemovalConfined(fs: FileSystem, url: string, tmp: string)
    requires GetRepoInfo(url, tmp).Success?
    ensures forall p :: !StrictlyWithin(p, ScratchRoot(tmp)) ==>
              (p in RemoveTree(fs, GetRepoInfo(url, tmp).value.dir) <==> p in fs)
  {
    RemoveBelowConfined(fs, GetRepoInfo(url, tmp).value.dir, ScratchRoot(tmp));
  }

  /** Removing a tree strictly below `root` touches nothing outside `root`. */
  lemma RemoveBelowConfined(fs: FileSystem, dir: Path, root: Path)
    requires StrictlyWithin(dir, root)
    ensures forall p :: !StrictlyWithin(p, root) ==> (p in RemoveTree(fs, dir) <==> p in fs)
  {
    forall p | Within(p, dir) ensures StrictlyWithin(p, root) {
      assert dir.segments <= p.segments;
      assert p.segments[..|root.segments|] == dir.segments[..|root.segments|];
    }
  }

  /** `getRepoInfo` as written, on `github.com/../..` under a one-segment
      absolute temporary directory `/t` such as `/tmp`: the URL is accepted
      with owner and name `..`, the workspace normalises to `/`, which lies
      outside the scratch root, and removing it removes every absolute path. */
  lemma AsWrittenWorkspaceEscapes(t: string, fs: FileSystem)
    requires Plain(t)
    ensures GetRepoInfoAsWritten(Host + "../..", "/" + t) == Success(RepoInfo("../..", Path(true, [])))
    ensures !Within(Path(true, []), ScratchRoot("/" + t))
    ensures forall p: Path :: p.absolute ==> p !in RemoveTree(fs, Path(true, []))
  {
    DotDotAccepted();
    DotDotEscapes(Host + "../..", t);
    RemoveRootClearsAll(fs);
  }

  /** `getRepoInfo` as written, on `github.com/<o>/..`: the name `..`
      cancels the owner, so the workspace is the scratch root itself. */
  lemma AsWrittenParentWorkspace(o: string, tmp: string)
    requires Plain(o) && NoUpper(o)
    ensures GetRepoInfoAsWritten(Host + o + "/..", tmp) == Success(RepoInfo(o + "/..", ScratchRoot(tmp)))
  {
    var r := Repository(o, "..");
    assert ValidName(r.name) && NoUpper(r.name);
    assert RepositoryString(r) == o + "/..";
    assert Host + o + "/.." == Host + RepositoryString(r);
    AsWrittenGroups(r, tmp);
    var root := ScratchRoot(tmp);
    ResolveCancel(root.absolute, root.segments, o);
  }

  /** Hence removing that workspace, as the service does before and after
      every clone, removes every other request's workspace too. */
  lemma AsWrittenRemovesScratchRoot(o: string, tmp: string, fs: FileSystem)
    requires Plain(o) && NoUpper(o)
    ensures GetRepoInfoAsWritten(Host + o + "/..", tmp) == Success(RepoInfo(o + "/..", ScratchRoot(tmp)))
    ensures forall p :: Within(p, ScratchRoot(tmp)) ==> p !in RemoveTree(fs, ScratchRoot(tmp))
  {
    AsWrittenParentWorkspace(o, tmp);
    RemoveTreeClears(fs, ScratchRoot(tmp));
  }

  /** `getRepoInfo` as written, on `github.com/<x>/.`: the name `.` adds
      nothing to the workspace. */
  lemma AsWrittenDotName(x: string, tmp: string)
    requires Plain(x) && NoUpper(x)
    ensures GetRepository(Host + x + "/.") == Success(Repository(x, "."))
    ensures var root := ScratchRoot(tmp);
      GetRepoInfoAsWritten(Host + x + "/.", tmp) == Success(RepoInfo(x + "/.", Path(root.absolute, root.segments + [x])))
  {
    var r := Repository(x, ".");
    assert ValidName(r.name) && NoUpper(r.name);
    assert RepositoryString(r) == x + "/.";
    assert Host + x + "/." == Host + RepositoryString(r);
    RenderedRoundTrip(r);
    AsWrittenGroups(r, tmp);
    var root := ScratchRoot(tmp);
    ResolveDots(root.absolute, root.segments, x);
  }

  /** `getRepoInfo` as written, on `github.com/./<x>`: the owner `.` adds
      nothing to the workspace. */
  lemma AsWrittenDotOwner(x: string, tmp: string)
    requires Plain(x) && ValidName(x) && NoUpper(x)
    ensures GetRepository(Host + "./" + x) == Success(Repository(".", x))
    ensures var root := ScratchRoot(tmp);
      GetRepoInfoAsWritten(Host + "./" + x, tmp) == Success(RepoInfo("./" + x, Path(root.absolute, root.segments + [x])))
  {
    var r := Repository(".", x);
    assert ValidOwner(r.owner) && NoUpper(r.owner);
    assert RepositoryString(r) == "./" + x;
    assert Host + "./" + x == Host + RepositoryString(r);
    RenderedRoundTrip(r);
    AsWrittenGroups(r, tmp);
    var root := ScratchRoot(tmp);
    ResolveDots(root.absolute, root.segments, x);
  }

  /** `getRepoInfo` as written, on `github.com/<x>/.` and `github.com/./<x>`:
      different pairs of groups, one workspace, so two concurrent requests
      remove and overwrite each other's clone. */
  lemma AsWrittenWorkspacesCollide(x: string, tmp: string)
    requires Plain(x) && ValidName(x) && NoUpper(x)
    ensures GetRepository(Host + x + "/.") == Success(Repository(x, "."))
    ensures GetRepository(Host + "./" + x) == Success(Repository(".", x))
    ensures Repository(x, ".") != Repository(".", x)
    ensures GetRepoInfoAsWritten(Host + x + "/.", tmp).Success?
    ensures GetRepoInfoAsWritten(Host + "./" + x, tmp).Success?
    ensures GetRepoInfoAsWritten(Host + x + "/.", tmp).value.dir
            == GetRepoInfoAsWritten(Host + "./" + x, tmp).value.dir
  {
    AsWrittenDotName(x, tmp);
    AsWrittenDotOwner(x, tmp);
  }

  /** `getRepoInfo` as written, on `github.com/` followed by the rendering
      of lower-case groups: accepted, with the groups resolved on top of the
      scratch root as the workspace. */
  lemma AsWrittenGroups(r: Repository, tmp: string)
    requires ValidOwner(r.owner) && ValidName(r.name) && NoUpper(r.owner) && NoUpper(r.name)
    ensures var root := ScratchRoot(tmp);
      GetRepoInfoAsWritten(Host + RepositoryString(r), tmp)
      == Success(RepoInfo(RepositoryString(r), Path(root.absolute, Resolve(root.absolute, root.segments, [r.owner, r.name]))))
  {
    RenderedRoundTrip(r);
  }

  /** Removing a directory removes everything inside it. */
  lemma RemoveTreeClears(fs: FileSystem, dir: Path)
    ensures forall p :: Within(p, dir) ==> p !in RemoveTree(fs, dir)
  {
  }

  /** Removing `/` removes every absolute path. */
  lemma RemoveRootClearsAll(fs: FileSystem)
    ensures forall p: Path :: p.absolute ==> p !in RemoveTree(fs, Path(true, []))
  {
    forall p: Path | p.absolute ensures Within(p, Path(true, [])) {
      assert [] <= p.segments;
    }
  }

  /** Any URL read as owner `..` and name `..`, under any one-segment absolute
      temporary directory, gets the workspace `/`. */
  lemma DotDotEscapes(url: string, t: string)
    requires GetRepository(url) == Success(Repository("..", "..")) && Plain(t)
    ensures GetRepoInfoAsWritten(url, "/" + t) == Success(RepoInfo("../..", Path(true, [])))
    ensures !Within(Path(true, []), ScratchRoot("/" + t))
  {
    assert RepositoryString(Repository("..", "..")) == "../..";
    AbsoluteScratchRoot(t);
    EscapingJoin(t);
  }

  /** `github.com/../..` parses to owner `..` and name `..`. */
  lemma DotDotAccepted()
    ensures GetRepository(Host + "../..") == Success(Repository("..", ".."))
  {
    var r := Repository("..", "..");
    assert ValidOwner(r.owner) && ValidName(r.name) && NoUpper(r.owner);
    RenderedRoundTrip(r);
    assert RepositoryString(r) == "../..";
  }

  /** Below a one-segment absolute temporary directory `/t` the scratch root
      is `/t/stack-analyzer`. */
  lemma AbsoluteScratchRoot(t: string)
    requires Plain(t)
    ensures JoinArgs(["/" + t, "stack-analyzer"]) == "/" + t + "/" + "stack-analyzer"
    ensures ScratchRoot("/" + t) == Path(true, [t, "stack-analyzer"])
  {
    RootArgs("/" + t);
    assert Plain("stack-analyzer");
    AbsoluteJoin(t, "stack-analyzer");
  }

  /** `/t` followed by a plain segment `u` normalises to `[t, u]`. */
  lemma AbsoluteJoin(t: string, u: string)
    requires Plain(t) && Plain(u)
    ensures Normalize("/" + t + "/" + u) == Path(true, [t, u])
  {
    AbsoluteSegment(t);
    SplitSegment(u);
    NormalizeExtend("/" + t, u);
  }

  /** `/t` normalises to the single segment `t`. */
  lemma AbsoluteSegment(t: string)
    requires Plain(t)
    ensures Normalize("/" + t) == Path(true, [t])
  {
    assert "/" + t == "" + "/" + t;
    SplitConcat("", t);
    SplitSegment("");
    SplitSegment(t);
    assert Split("/" + t) == [""] + [t];
    ResolvePlain(true, [], [t]);
    assert Resolve(true, [], [""] + [t]) == Resolve(true, [], [t]);
  }

  /** `path.join("/t", "stack-analyzer", "../..")` climbs back to `/`. */
  lemma EscapingJoin(t: string)
    requires Plain(t)
    ensures Join(["/" + t, "stack-analyzer", "../.."]) == Path(true, [])
  {
    var args := ["/" + t, "stack-analyzer", "../.."];
    AbsoluteScratchRoot(t);
    var base := JoinArgs(["/" + t, "stack-analyzer"]);
    assert args[..2] == ["/" + t, "stack-analyzer"];
    assert JoinArgs(args) == base + "/" + "../..";
    assert "../.." == ".." + "/" + "..";
    SplitConcat("..", "..");
    SplitSegment("..");
    SplitConcat(base, "../..");
    assert base[0] == '/';
    ResolveConcat(true, [], Split(base), ["..", ".."]);
    assert Resolve(true, [], Split(base)) == [t, "stack-analyzer"];
    var up := Step(true, [t, "stack-analyzer"], "..");
    assert up == [t];
    assert Step(true, up, "..") == [];
    assert ["..", ".."][1..] == [".."];
    assert Resolve(true, [t, "stack-analyzer"], ["..", ".."]) == [];
    var joined := base + "/" + "../..";
    assert joined[0] == '/';
    assert Split(joined) == Split(base) + ["..", ".."];
    assert Normalize(joined) == Path(true, Resolve(true, [], Split(base) + ["..", ".."]));
  }

  /** The corrected `getRepoInfo` refuses the same URL. */
  lemma CorrectedRejectsDotSegments(tmp: string)
    ensures GetRepoInfo(Host + "../..", tmp) == Failure(InvalidGitHubUrl(Host + "../.."))
  {
    DotDotAccepted();
  }

  /** The `git clone <url> --depth <n> <dest>` invocation. */
  datatype GitClone = GitClone(url: string, depth: nat, dest: Path)

  /** The clone command: the repository's HTTPS address on GitHub with a
      `.git` suffix, two commits deep, into `dir`. */
  function CloneCommand(repo: string, dir: Path): (c: GitClone)
    ensures c.depth == 2 && c.dest == dir
    ensures Https + Host <= c.url && c.url[|Https + Host|..] == repo + ".git"
  {
    GitClone(Https + Host + repo + ".git", 2, dir)
  }

  /** The clone URL of accepted lower-case groups points back at the same
      owner; the URL parser reads its name with the `.git` suffix. */
  lemma CloneUrlParses(r: Repository, dir: Path)
    requires ValidOwner(r.owner) && ValidName(r.name) && NoUpper(r.owner) && NoUpper(r.name)
    ensures GetRepository(CloneCommand(RepositoryString(r), dir).url)
            == Success(Repository(r.owner, r.name + ".git"))
  {
    var n := r.name + ".git";
    GitSuffixName(r.name);
    RoundTripLowerCase(r.owner, n);
    CloneUrlShape(r.owner, r.name, dir);
  }

  /** Appending `.git` keeps a name lower-case and within the name characters. */
  lemma GitSuffixName(n: string)
    requires ValidName(n) && NoUpper(n)
    ensures ValidName(n + ".git") && NoUpper(n + ".git")
  {
    var m := n + ".git";
    forall k | 0 <= k < |m| ensures IsNameChar(m[k]) && !IsUpper(m[k]) {
      if k < |n| {
        assert m[k] == n[k];
      }
    }
  }

  /** The clone URL of a pair of groups, spelled out piece by piece. */
  lemma CloneUrlShape(o: string, n: string, dir: Path)
    ensures CloneCommand(RepositoryString(Repository(o, n)), dir).url == Https + Host + o + "/" + (n + ".git")
  {
  }

  /** What the `git` process did: its exit code, its standard error, whether
      it created the missing parent directories of its destination (it does
      so before contacting the remote, so a failed clone may have done it
      too), and the paths (relative to the destination) it wrote below it. */
  datatype CloneRun = CloneRun(exitCode: int, stderr: string, madeParents: bool, written: set<seq<string>>)

  /** `cloneRepository` after the process has finished: a non-zero exit code
      becomes `Error cloning <repo>` with the standard error as its cause. */
  function CloneRepository(repo: string, run: CloneRun): (o: Outcome<Error>)
    ensures o.Pass? <==> run.exitCode == 0
    ensures o.Fail? ==> o.error == CloneFailed(repo, run.stderr) && Message(o.error) == "Error cloning " + repo
  {
    if run.exitCode != 0 then Fail(CloneFailed(repo, run.stderr)) else Pass
  }

  /** The files the clone creates below its destination. */
  function Placed(dir: Path, written: set<seq<string>>): (placed: FileSystem)
    ensures forall p :: p in placed ==> Within(p, dir)
  {
    set rel | rel in written :: Path(dir.absolute, dir.segments + rel)
  }

  /** The parent directories of `dir` that the clone created: all of them,
      when it got that far; none otherwise. They lie above the workspace,
      never in it. */
  function MadeParents(dir: Path, run: CloneRun): (made: FileSystem)
    ensures forall p :: p in made ==> Within(dir, p) && p != dir && !Within(p, dir)
    ensures run.madeParents ==> forall p :: Within(dir, p) && p != dir ==> p in made
    ensures !run.madeParents ==> made == {}
  {
    if run.madeParents then Ancestors(dir) else {}
  }

  /** What the detection engine does with the workspace: report, or throw. */
  datatype EngineRun = Detected(report: T.Report) | Threw(cause: string)

  /** Everything `analyzeRepositoryStack` learns from its surroundings. */
  datatype Env = Env(tmpdir: string, preCleanFails: bool, clone: CloneRun, engine: EngineRun)

  /** The externally visible steps, in order. */
  datatype Action = Remove(dir: Path) | Clone(command: GitClone) | Analyze(dir: Path)

  /** Whatever the clone wrote below the workspace, removing the workspace at
      the end leaves the filesystem as removing it at the start would, plus
      the parent directories the clone created. */
  lemma CleanupRestores(fs: FileSystem, dir: Path, cleaned: bool, run: CloneRun)
    ensures RemoveTree((if cleaned then RemoveTree(fs, dir) else fs) + MadeParents(dir, run) + Placed(dir, run.written), dir)
            == RemoveTree(fs, dir) + MadeParents(dir, run)
  {
  }

  /** What one run in the workspace `dir` of `repo` guarantees: the
      workspace is removed whatever happened, and the only other change is
      the parent directories the clone created; the steps are exactly
      pre-clean, clone, analysis only after a clean exit, removal; the
      clone's or the engine's error is the result, unchanged, and otherwise
      the result is the deduplicated technologies. */
  predicate WorkspaceRun(repo: string, dir: Path, env: Env, fs: FileSystem,
                         result: Result<seq<T.Tech>, Error>, fs': FileSystem, trace: seq<Action>)
  {
    && fs' == RemoveTree(fs, dir) + MadeParents(dir, env.clone)
    && (forall p :: Within(p, dir) ==> p !in fs')
    && trace == [Remove(dir), Clone(CloneCommand(repo, dir))]
                + (if env.clone.exitCode == 0 then [Analyze(dir)] else [])
                + [Remove(dir)]
    && (env.clone.exitCode != 0 ==> result == Failure(CloneFailed(repo, env.clone.stderr)))
    && (env.clone.exitCode == 0 && env.engine.Threw? ==> result == Failure(AnalysisFailed(env.engine.cause)))
    && (result.Success? <==> env.clone.exitCode == 0 && env.engine.Detected?)
    && (result.Success? ==> result.value == T.Techs(env.engine.report))
  }

  /** The part of `analyzeRepositoryStack` after `getRepoInfo`: pre-clean
      with errors swallowed, clone, analyse and deduplicate, and remove the
      workspace in `finally`. */
  method RunInWorkspace(repo: string, dir: Path, env: Env, fs: FileSystem)
    returns (result: Result<seq<T.Tech>, Error>, fs': FileSystem, trace: seq<Action>)
    ensures WorkspaceRun(repo, dir, env, fs, result, fs', trace)
  {
    // pre-clean; a failure is swallowed and leaves the filesystem as it was
    fs' := if env.preCleanFails then fs else RemoveTree(fs, dir);
    trace := [Remove(dir), Clone(CloneCommand(repo, dir))];
    fs' := fs' + MadeParents(dir, env.clone) + Placed(dir, env.clone.written);
    var cloned := CloneRepository(repo, env.clone);
    if cloned.Fail? {
      result := Failure(cloned.error);
    } else {
      trace := trace + [Analyze(dir)];
      match env.engine
      case Threw(cause) =>
        result := Failure(AnalysisFailed(cause));
      case Detected(report) =>
        var techs := T.SpreadIntoSet(T.Flatten(report));
        result := Success(techs);
    }
    // finally: the workspace is removed on every path out of the try block
    CleanupRestores(fs, dir, !env.preCleanFails, env.clone);
    fs' := RemoveTree(fs', dir);
    trace := trace + [Remove(dir)];
  }

  /** `analyzeRepositoryStack(url)` with the corrected `getRepoInfo`: an
      unusable URL, `.` and `..` groups included, fails before anything
      happens; otherwise the run in its workspace has the guarantees of
      `WorkspaceRun`. Only paths strictly below the scratch root are ever
      removed, and the only paths added are parent directories of the
      workspace. */
  method AnalyzeRepositoryStack(url: string, env: Env, fs: FileSystem)
    returns (result: Result<seq<T.Tech>, Error>, fs': FileSystem, trace: seq<Action>)
    ensures GetRepoInfo(url, env.tmpdir).Failure? ==>
              result == Failure(InvalidGitHubUrl(url)) && fs' == fs && trace == []
    ensures GetRepoInfo(url, env.tmpdir).Success? ==>
              var info := GetRepoInfo(url, env.tmpdir).value;
              WorkspaceRun(info.repo, info.dir, env, fs, result, fs', trace)
    ensures forall p :: p in fs && p !in fs' ==> StrictlyWithin(p, ScratchRoot(env.tmpdir))
    ensures forall p :: p in fs' && p !in fs ==>
              GetRepoInfo(url, env.tmpdir).Success? && Within(GetRepoInfo(url, env.tmpdir).value.dir, p)
              && p != GetRepoInfo(url, env.tmpdir).value.dir
  {
    var info := GetRepoInfo(url, env.tmpdir);
    if info.Failure? {
      return Failure(info.error), fs, [];
    }
    var repo, dir := info.value.repo, info.value.dir;
    result, fs', trace := RunInWorkspace(repo, dir, env, fs);
    RemoveBelowConfined(fs, dir, ScratchRoot(env.tmpdir));
  }

  /** `analyzeRepositoryStack(url)` as the service composes it, with
      `getRepoInfo` as written: the same run, in whatever workspace `path.join`
      makes of the groups. On `github.com/../..` under a one-segment absolute
      temporary directory such as `/tmp`, the run removes every absolute
      path. */
  method AnalyzeRepositoryStackAsWritten(url: string, env: Env, fs: FileSystem)
    returns (result: Result<seq<T.Tech>, Error>, fs': FileSystem, trace: seq<Action>)
    ensures GetRepoInfoAsWritten(url, env.tmpdir).Failure? ==>
              result == Failure(InvalidGitHubUrl(url)) && fs' == fs && trace == []
    ensures GetRepoInfoAsWritten(url, env.tmpdir).Success? ==>
              var info := GetRepoInfoAsWritten(url, env.tmpdir).value;
              WorkspaceRun(info.repo, info.dir, env, fs, result, fs', trace)
    ensures EscapingRequest(url, env.tmpdir) ==> forall p: Path :: p.absolute ==> p !in fs'
  {
    var info := GetRepoInfoAsWritten(url, env.tmpdir);
    if EscapingRequest(url, env.tmpdir) {
      EscapingRequestWorkspace(url, env.tmpdir);
    }
    if info.Failure? {
      return Failure(info.error), fs, [];
    }
    var repo, dir := info.value.repo, info.value.dir;
    result, fs', trace := RunInWorkspace(repo, dir, env, fs);
    if EscapingRequest(url, env.tmpdir) {
      RootRunClears(fs');
    }
  }

  /** `github.com/../..` under a one-segment absolute temporary directory
      `/t`, such as `/tmp`. */
  predicate EscapingRequest(url: string, tmp: string)
  {
    url == Host + "../.." && |tmp| > 0 && tmp[0] == '/' && Plain(tmp[1..])
  }

  /** Such a request gets the workspace `/` from `getRepoInfo` as written. */
  lemma EscapingRequestWorkspace(url: string, tmp: string)
    requires EscapingRequest(url, tmp)
    ensures GetRepoInfoAsWritten(url, tmp).Success? && GetRepoInfoAsWritten(url, tmp).value.dir == Path(true, [])
  {
    var t := tmp[1..];
    assert tmp == "/" + t;
    DotDotAccepted();
    DotDotEscapes(url, t);
  }

  /** Once nothing below `/` is left, no absolute path is left. */
  lemma RootRunClears(fs: FileSystem)
    requires forall p :: Within(p, Path(true, [])) ==> p !in fs
    ensures forall p: Path :: p.absolute ==> p !in fs
  {
    forall p: Path | p.absolute ensures Within(p, Path(true, [])) {
      assert [] <= p.segments;
    }
  }
}
