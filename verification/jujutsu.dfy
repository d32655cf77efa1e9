/** The Jujutsu repository backend: `is_repo` and the constructor, over an
    abstract environment that supplies the outputs of `jj version` and
    `jj git root`, the paths that exist, and the paths at which the Git
    backend can be opened. */
module Jujutsu {
  import opened Wrappers
  import Text
  import opened JujutsuVersion

  /** Name of the Jujutsu metadata directory. */
  const DotDir: string := ".jj"

  /** What the constructor learns from outside. A command output of `None`
      means the command failed. */
  datatype Env = Env(
    versionOutput: Option<string>,
    gitRootOutput: Option<string>,
    existing: set<string>,
    gitRepos: set<string>)

  // ---- Paths ----

  /** `os.path.join(dir, name)` for a relative `name`. */
  function JoinPath(dir: string, name: string): (p: string)
    requires name == [] || name[0] != '/'
  {
    if dir == [] || dir[|dir| - 1] == '/' then dir + name else dir + "/" + name
  }

  /** The joined path starts with `dir` and ends with `name`, with a slash
      between them when both are non-empty. */
  lemma JoinPathShape(dir: string, name: string)
    requires name == [] || name[0] != '/'
    ensures var p := JoinPath(dir, name);
      && |dir| + |name| <= |p| && p[..|dir|] == dir && p[|p| - |name|..] == name
      && (dir != [] && name != [] ==> p[|p| - |name| - 1] == '/')
  {
  }

  function LastSlash(p: string): (r: Option<nat>)
    ensures r.Some? ==> r.value < |p| && p[r.value] == '/' && '/' !in p[r.value + 1..]
    ensures r.None? ==> '/' !in p
  {
    if p == [] then None
    else if p[|p| - 1] == '/' then Some(|p| - 1)
    else
      var r := LastSlash(p[..|p| - 1]);
      assert p == p[..|p| - 1] + [p[|p| - 1]];
      if r.Some? then
        assert p[r.value + 1..] == p[..|p| - 1][r.value + 1..] + [p[|p| - 1]];
        r
      else r
  }

  /** The text between slashes, empty pieces included. */
  function Pieces(p: string): (r: seq<string>)
    ensures |r| > 0
  {
    match LastSlash(p)
    case None => [p]
    case Some(k) => Pieces(p[..k]) + [p[k + 1..]]
  }

  /** The pieces pathlib keeps: empty pieces and `.` are dropped. */
  function KeptParts(pieces: seq<string>): (r: seq<string>)
    ensures forall i :: 0 <= i < |r| ==> r[i] != [] && r[i] != "."
  {
    if pieces == [] then []
    else
      var last := pieces[|pieces| - 1];
      KeptParts(pieces[..|pieces| - 1]) + (if last == [] || last == "." then [] else [last])
  }

  /** The components of a path as `PurePosixPath` parses them. */
  function Parts(p: string): seq<string> {
    KeptParts(Pieces(p))
  }

  /** `PurePosixPath` keeps exactly two leading slashes; three or more
      collapse to one. */
  function Anchor(p: string): string {
    if |p| >= 2 && p[..2] == "//" && (|p| == 2 || p[2] != '/') then "//"
    else if |p| >= 1 && p[0] == '/' then "/"
    else ""
  }

  /** `str()` of a path made from an anchor and components. */
  function Format(anchor: string, parts: seq<string>): string {
    var s := anchor + Text.Join(parts, "/");
    if s == [] then "." else s
  }

  /** `str(Path(p))`. */
  function Normalize(p: string): (r: string)
    ensures r != []
  {
    Format(Anchor(p), Parts(p))
  }

  /** `str(Path(p).parent)`: the last component removed; the anchor (or
      `.`) is its own parent. */
  function Parent(p: string): (r: string)
    ensures Parts(p) == [] ==> r == Normalize(p)
  {
    var parts := Parts(p);
    Format(Anchor(p), if parts == [] then [] else parts[..|parts| - 1])
  }

  /** The pieces of a path split at its last slash. */
  lemma PiecesAt(p: string, k: nat)
    requires k < |p| && p[k] == '/' && '/' !in p[k + 1..]
    ensures Pieces(p) == Pieces(p[..k]) + [p[k + 1..]]
  {
  }

  lemma PiecesJoin(dir: string, name: string)
    requires dir != [] && '/' !in name
    ensures Pieces(JoinPath(dir, name)) ==
              (if dir[|dir| - 1] == '/' then Pieces(dir[..|dir| - 1]) else Pieces(dir)) + [name]
  {
    if dir[|dir| - 1] == '/' {
      PiecesAfterSlash(dir, name);
    } else {
      PiecesAfterDir(dir, name);
    }
  }

  lemma PiecesAfterSlash(dir: string, name: string)
    requires dir != [] && dir[|dir| - 1] == '/' && '/' !in name
    ensures Pieces(dir + name) == Pieces(dir[..|dir| - 1]) + [name]
  {
    var p := dir + name;
    var k := |dir| - 1;
    assert p[k] == '/' && p[k + 1..] == name && p[..k] == dir[..k];
    PiecesAt(p, k);
  }

  lemma PiecesAfterDir(dir: string, name: string)
    requires '/' !in name
    ensures Pieces(dir + "/" + name) == Pieces(dir) + [name]
  {
    var p := dir + "/" + name;
    var k := |dir|;
    assert p[k] == '/' && p[k + 1..] == name && p[..k] == dir;
    PiecesAt(p, k);
  }

  /** A slash followed by slash-free text is the last slash. */
  lemma {:induction false} LastSlashOfTail(p: string, k: nat)
    requires k < |p| && p[k] == '/' && '/' !in p[k + 1..]
    ensures LastSlash(p) == Some(k)
    decreases |p|
  {
  }

  /** A trailing slash adds only an empty piece. */
  lemma TrailingSlashParts(dir: string)
    requires dir != [] && dir[|dir| - 1] == '/'
    ensures Parts(dir) == Parts(dir[..|dir| - 1])
  {
  }

  lemma AnchorJoin(dir: string, name: string)
    requires dir != [] && (name == [] || name[0] != '/')
    ensures Anchor(JoinPath(dir, name)) == Anchor(dir)
  {
  }

  /** Joining a plain name and taking the parent gives back the directory,
      in pathlib's normal form. */
  lemma ParentOfJoin(dir: string, name: string)
    requires dir != [] && name != [] && name != "." && '/' !in name
    ensures Parent(JoinPath(dir, name)) == Normalize(dir)
  {
    PiecesJoin(dir, name);
    AnchorJoin(dir, name);
    var p := JoinPath(dir, name);
    var pieces := if dir[|dir| - 1] == '/' then Pieces(dir[..|dir| - 1]) else Pieces(dir);
    assert (pieces + [name])[..|pieces|] == pieces;
    if dir[|dir| - 1] == '/' {
      TrailingSlashParts(dir);
    }
    assert Parts(p) == KeptParts(pieces) + [name];
    assert Parts(p)[..|Parts(p)| - 1] == Parts(dir);
  }

  lemma PiecesOfA()
    ensures Pieces("/a") == ["", "a"]
  {
    PiecesAt("/a", 0);
    assert "/a"[..0] == "" && "/a"[1..] == "a";
  }

  lemma PiecesOfAB()
    ensures Pieces("/a/b") == ["", "a", "b"]
  {
    PiecesAt("/a/b", 2);
    assert "/a/b"[..2] == "/a" && "/a/b"[3..] == "b";
    PiecesOfA();
  }

  lemma PartsOfAB()
    ensures Parts("/a/b") == ["a", "b"]
  {
    PiecesOfAB();
    assert ["", "a", "b"][..2] == ["", "a"] && ["", "a"][..1] == [""] && [""][..0] == [];
  }

  lemma NormalizeAB()
    ensures Normalize("/a/b") == "/a/b"
  {
    PartsOfAB();
    JoinAB();
    assert Anchor("/a/b") == "/";
  }

  lemma JoinAB()
    ensures Text.Join(["a", "b"], "/") == "a/b"
  {
    assert ["a", "b"][1..] == ["b"];
  }

  /** The parent of the reported `/a/b/.git` is `/a/b`. */
  lemma GitRootParent()
    ensures Parent("/a/b/.git") == "/a/b"
  {
    assert JoinPath("/a/b", ".git") == "/a/b/.git";
    ParentOfJoin("/a/b", ".git");
    NormalizeAB();
  }

  // ---- Repository detection ----

  /** `Jujutsu.is_repo(path)`: the metadata directory exists under `path`. */
  predicate IsRepo(env: Env, path: string) {
    JoinPath(path, DotDir) in env.existing
  }

  /** A trailing slash on the queried path does not change the answer. */
  lemma IsRepoTrailingSlash(env: Env, path: string)
    requires path != [] && path[|path| - 1] != '/'
    ensures IsRepo(env, path + "/") <==> IsRepo(env, path)
  {
    assert JoinPath(path + "/", DotDir) == JoinPath(path, DotDir);
  }

  // ---- Construction ----

  datatype InitError =
    | CommandFailed(argv: seq<string>)
    | Tooling(versionError: VersionError)
    | GitOpenFailed(gitRoot: string)
    | NotARepo(path: string)
  {
    /** The text the constructor raises; `None` where the message comes
        from the failing collaborator. */
    function Message(): Option<string> {
      match this
      case CommandFailed(_) => None
      case Tooling(e) => Some(e.Message())
      case GitOpenFailed(_) => None
      case NotARepo(path) => Some(path + ": not a Jujutsu repository")
    }
  }

  /** The fields a constructed backend holds. */
  datatype Backend = Backend(
    path: string,
    dotPath: string,
    vcsVersion: string,
    gitPath: string,
    gitRoot: string,
    vcs: string,
    revset: Option<string>,
    branch: Option<string>)

  const VersionCommand: seq<string> := ["jj", "version"]
  const GitRootCommand: seq<string> := ["jj", "git", "root"]

  function Run(output: Option<string>, argv: seq<string>): Result<string, InitError> {
    if output.Some? then Ok(output.value) else Err(CommandFailed(argv))
  }

  function VersionOf(env: Env): Result<string, InitError> {
    var output :- Run(env.versionOutput, VersionCommand);
    match CheckVersion(output)
    case Ok(v) => Ok(v)
    case Err(e) => Err(Tooling(e))
  }

  /** Everything the constructor needs from the environment holds. */
  predicate Constructible(env: Env, path: string) {
    && env.versionOutput.Some? && CheckVersion(env.versionOutput.value).Ok?
    && env.gitRootOutput.Some? && Parent(env.gitRootOutput.value) in env.gitRepos
    && IsRepo(env, path)
  }

  /** `Jujutsu(path)`: version check, git-root query, opening Git at the
      root's parent, then the metadata-directory check. */
  function Init(env: Env, path: string): (r: Result<Backend, InitError>)
    ensures r.Ok? <==> Constructible(env, path)
    ensures r.Ok? ==>
      && r.value.path == path && r.value.dotPath == JoinPath(path, DotDir)
      && r.value.vcsVersion == env.versionOutput.value
      && r.value.gitPath == Normalize(env.gitRootOutput.value)
      && r.value.gitRoot == Parent(env.gitRootOutput.value)
      && r.value.vcs == "jj" && r.value.revset.None? && r.value.branch.None?
    ensures r == Err(NotARepo(path)) <==>
      && env.versionOutput.Some? && CheckVersion(env.versionOutput.value).Ok?
      && env.gitRootOutput.Some? && Parent(env.gitRootOutput.value) in env.gitRepos
      && !IsRepo(env, path)
  {
    var version :- VersionOf(env);
    var gitOutput :- Run(env.gitRootOutput, GitRootCommand);
    var gitRoot := Parent(gitOutput);
    if gitRoot !in env.gitRepos then Err(GitOpenFailed(gitRoot))
    else
      var dotPath := JoinPath(path, DotDir);
      if dotPath !in env.existing then Err(NotARepo(path))
      else Ok(Backend(path, dotPath, version, Normalize(gitOutput), gitRoot, "jj", None, None))
  }

  /** A failed or unsupported `jj version` decides the outcome whatever
      else the environment holds and whatever path is given. */
  lemma VersionErrorFirst(env: Env, env': Env, path: string, path': string)
    requires env.versionOutput == env'.versionOutput
    requires env.versionOutput.None? || CheckVersion(env.versionOutput.value).Err?
    ensures Init(env, path) == Init(env', path')
    ensures env.versionOutput.None? ==> Init(env, path) == Err(CommandFailed(VersionCommand))
    ensures env.versionOutput.Some? ==>
              Init(env, path) == Err(Tooling(CheckVersion(env.versionOutput.value).error))
  {
  }

  /** The metadata directory is checked only after both queries and the Git
      backend succeed; its absence then names the path. */
  lemma MissingDotDirNamesPath(env: Env, path: string)
    requires env.versionOutput.Some? && CheckVersion(env.versionOutput.value).Ok?
    requires env.gitRootOutput.Some? && Parent(env.gitRootOutput.value) in env.gitRepos
    requires !IsRepo(env, path)
    ensures Init(env, path) == Err(NotARepo(path))
    ensures Init(env, path).error.Message() == Some(path + ": not a Jujutsu repository")
  {
  }

  /** Git is opened at the directory holding the reported `.git`, never at
      the `.git` path itself. */
  lemma GitOpenedAtParent(env: Env, path: string, dir: string)
    requires dir != [] && env.gitRootOutput == Some(JoinPath(dir, ".git"))
    requires Init(env, path).Ok?
    ensures Init(env, path).value.gitRoot == Normalize(dir)
    ensures Normalize(dir) in env.gitRepos
  {
    ParentOfJoin(dir, ".git");
  }

  /** A constructed backend sits on a Jujutsu repository. */
  lemma InitFindsRepo(env: Env, path: string)
    requires Init(env, path).Ok?
    ensures IsRepo(env, path)
    ensures Init(env, path).value.dotPath in env.existing
  {
  }

  lemma DotPathAB()
    ensures JoinPath("/a/b", DotDir) == "/a/b/.jj"
  {
  }

  lemma DotPathA()
    ensures JoinPath("/a", DotDir) == "/a/.jj" && "/a/.jj" != "/a/b/.jj"
  {
    assert |"/a/.jj"| != |"/a/b/.jj"|;
  }

  const ExampleEnv: Env := Env(Some("jj 0.28.0"), Some("/a/b/.git"), {"/a/b/.jj"}, {"/a/b"})

  /** The usual layout: `jj git root` reports `/a/b/.git` and Git opens at
      `/a/b`. */
  lemma ExampleOpensGitAtParent()
    ensures Init(ExampleEnv, "/a/b").Ok?
    ensures Init(ExampleEnv, "/a/b").value.gitRoot == "/a/b"
  {
    AcceptsMinimum();
    GitRootParent();
    DotPathAB();
  }

  /** An ancestor of the repository is refused although both queries
      succeed. */
  lemma ExampleAncestorRefused()
    ensures Init(ExampleEnv, "/a") == Err(NotARepo("/a"))
  {
    AcceptsMinimum();
    GitRootParent();
    DotPathA();
    MissingDotDirNamesPath(ExampleEnv, "/a");
  }
}
