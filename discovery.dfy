/** Repository discovery and the choice of configuration files
    (`IsGitDir`, `FindGitDir`, `FindGitConfig`, `SystemConfigFile`,
    `GlobalConfigFile`) over an injected file system: a map from path to
    what `os.Stat` and `os.Open` find there. */
module Discovery {
  import opened Base
  import Text
  import opened Paths

  /** What is found at a path: a directory, a regular file that can be read
      (with its contents), or a file that exists but cannot be opened. */
  datatype Entry = Directory | Regular(content: string) | Unopenable

  /** Paths that are absent from the map do not exist. */
  type FileSystem = map<string, Entry>

  /** The variable that overrides the system configuration file. */
  const GitSystemConfigEnv: string := "TEST_GIT_SYSTEM_CONFIG"

  predicate IsDirectory(fs: FileSystem, p: string)
  {
    p in fs && fs[p].Directory?
  }

  /** What one entry of a repository's layout must be. */
  datatype Kind = MustBeDirectory | MustNotBeDirectory

  /** The entries `IsGitDir` checks, in its order. */
  const GitDirLayout: seq<(string, Kind)> :=
    [("objects/pack", MustBeDirectory), ("refs", MustBeDirectory), ("config", MustNotBeDirectory)]

  /** Every entry of `layout` exists under `dir` and has its kind. */
  predicate HasLayout(fs: FileSystem, dir: string, layout: seq<(string, Kind)>)
  {
    layout == [] ||
    (var p := Join(dir, layout[0].0);
     && p in fs
     && (layout[0].1 == MustBeDirectory <==> fs[p].Directory?)
     && HasLayout(fs, dir, layout[1..]))
  }

  /** `IsGitDir`: `objects/pack` and `refs` are directories and `config`
      exists and is not one. */
  predicate IsGitDir(fs: FileSystem, dir: string)
  {
    HasLayout(fs, dir, GitDirLayout)
  }

  /** The layout check is the three tests `IsGitDir` makes, on the paths
      `filepath.Join` builds from `dir` and the element names. */
  lemma IsGitDirTests(fs: FileSystem, dir: string)
    ensures IsGitDir(fs, dir) <==>
      && IsDirectory(fs, Join3(dir, "objects", "pack"))
      && IsDirectory(fs, Join(dir, "refs"))
      && Join(dir, "config") in fs && !fs[Join(dir, "config")].Directory?
  {
    JoinNested(dir, "objects", "pack");
    assert "objects" + "/" + "pack" == "objects/pack";
    var rest := GitDirLayout[1..];
    assert rest == [("refs", MustBeDirectory), ("config", MustNotBeDirectory)];
    assert rest[1..] == [("config", MustNotBeDirectory)];
    assert HasLayout(fs, dir, rest[1..]) <==> Join(dir, "config") in fs && !fs[Join(dir, "config")].Directory? by {
      assert rest[1..][1..] == [];
    }
    assert HasLayout(fs, dir, rest) <==> IsDirectory(fs, Join(dir, "refs")) && HasLayout(fs, dir, rest[1..]);
  }

  /** Joining two elements one after the other is joining them once with a
      "/" between them. */
  lemma JoinNested(a: string, b: string, c: string)
    requires b != "" && c != "" && b[|b| - 1] != '/'
    ensures Join3(a, b, c) == Join(a, b + "/" + c)
  {
    if a != "" && a[|a| - 1] != '/' {
      assert (a + "/" + b) + "/" + c == a + "/" + (b + "/" + c);
    } else if a != "" {
      assert (a + b) + "/" + c == a + (b + "/" + c);
    }
  }

  /** What `bufio.Reader.ReadString('\n')` returns first: the text up to and
      including the first newline, or all of it when there is none. */
  function FirstLine(s: string): (r: string)
    ensures |r| <= |s| && r == s[..|r|]
    ensures '\n' in s ==> |r| > 0 && r[|r| - 1] == '\n' && '\n' !in r[..|r| - 1]
    ensures '\n' !in s ==> r == s
  {
    if s == [] then []
    else if s[0] == '\n' then "\n"
    else
      var rest := FirstLine(s[1..]);
      assert s == [s[0]] + s[1..];
      [s[0]] + rest
  }

  /** The target a `.git` file names: its first line must start with
      "gitdir:", and the rest of that line, trimmed of white space, is the
      target. */
  function GitdirOf(content: string): (r: Option<string>)
    ensures r.None? <==> !Text.HasPrefix(FirstLine(content), "gitdir:")
    ensures r.Some? ==> r.value == Text.TrimSpace(FirstLine(content)[7..])
  {
    var line := FirstLine(content);
    if Text.HasPrefix(line, "gitdir:") then Some(Text.TrimSpace(line[7..])) else None
  }

  /** Following a `.git` file: the target it names, relative to the
      directory holding the `.git` file unless absolute, must pass
      `IsGitDir`. */
  function GitFileTarget(h: Host, fs: FileSystem, gitdir: string): (r: Result<string, PathError>)
    requires gitdir in fs && !fs[gitdir].Directory?
    ensures r.Ok? ==> IsGitDir(fs, r.value)
    ensures fs[gitdir].Unopenable? ==> r == Err(CannotOpenGitDirFile(gitdir))
    ensures fs[gitdir].Regular? && GitdirOf(fs[gitdir].content).None? ==> r == Err(BadGitDirFile(gitdir))
    ensures fs[gitdir].Regular? && GitdirOf(fs[gitdir].content).Some? && IsAbs(GitdirOf(fs[gitdir].content).value) ==>
      var t := GitdirOf(fs[gitdir].content).value;
      r == if IsGitDir(fs, t) then Ok(t) else Err(CorruptGitDirTarget(gitdir, t))
    ensures fs[gitdir].Regular? && GitdirOf(fs[gitdir].content).Some? && !IsAbs(GitdirOf(fs[gitdir].content).value) ==>
      var resolved := AbsJoin(h, Dir(gitdir), GitdirOf(fs[gitdir].content).value);
      && (resolved.Err? ==> r == Err(resolved.error))
      && (resolved.Ok? ==> r == if IsGitDir(fs, resolved.value) then Ok(resolved.value) else Err(CorruptGitDirTarget(gitdir, resolved.value)))
  {
    match fs[gitdir]
    case Unopenable => Err(CannotOpenGitDirFile(gitdir))
    case Regular(content) =>
      match GitdirOf(content)
      case None => Err(BadGitDirFile(gitdir))
      case Some(target) =>
        var resolved := if IsAbs(target) then Ok(target) else AbsJoin(h, Dir(gitdir), target);
        match resolved
        case Err(e) => Err(e)
        case Ok(t) => if IsGitDir(fs, t) then Ok(t) else Err(CorruptGitDirTarget(gitdir, t))
  }

  /** Where the search of `FindGitDir` stops: at a directory that is a
      repository itself, at the first `.git` entry found, or at the root. */
  datatype Stop = Repository(dir: string) | GitEntry(gitdir: string) | Root

  /** The walk of `FindGitDir` from an already absolute `dir`: the directory
      itself when it is a repository; else its `.git` entry when there is
      one; else the same walk from the parent, until the parent is the
      directory itself. */
  function Walk(fs: FileSystem, dir: string): (r: Stop)
    ensures r.Repository? ==> IsGitDir(fs, r.dir)
    ensures r.GitEntry? ==> r.gitdir in fs
    ensures r == Root ==> Plain(fs, dir)
    decreases Height(dir)
  {
    if IsGitDir(fs, dir) then Repository(dir)
    else if Join(dir, ".git") in fs then GitEntry(Join(dir, ".git"))
    else if Dir(dir) == dir then Root
    else
      DirShrinks(dir);
      Walk(fs, Dir(dir))
  }

  /** What the search returns where it stops: the repository; for a `.git`
      directory, that directory when it is a repository and a corruption
      error otherwise; for a `.git` file, the directory it names; at the
      root, `ErrNotInGitDir`. */
  function Resolve(h: Host, fs: FileSystem, stop: Stop): (r: Result<string, PathError>)
    requires stop.Repository? ==> IsGitDir(fs, stop.dir)
    requires stop.GitEntry? ==> stop.gitdir in fs
    ensures r.Ok? ==> IsGitDir(fs, r.value)
    ensures stop == Root ==> r == Err(NotInGitDir)
  {
    match stop
    case Repository(dir) => Ok(dir)
    case GitEntry(gitdir) =>
      if fs[gitdir].Directory? then
        if IsGitDir(fs, gitdir) then Ok(gitdir) else Err(CorruptGitDir(gitdir))
      else GitFileTarget(h, fs, gitdir)
    case Root => Err(NotInGitDir)
  }

  /** `FindGitDir(start)` as a value: `Abs(start)`, then the walk and what
      is found where it stops. */
  function LocateGitDir(h: Host, fs: FileSystem, start: string): (r: Result<string, PathError>)
    ensures r.Ok? ==> IsGitDir(fs, r.value)
    ensures Abs(h, start).Err? ==> r == Err(Abs(h, start).error)
  {
    match Abs(h, start)
    case Err(e) => Err(e)
    case Ok(dir) => Resolve(h, fs, Walk(fs, dir))
  }

  /** `FindGitDir`: make `start` absolute, then test each directory on the
      way up to the root. */
  method FindGitDir(h: Host, fs: FileSystem, start: string) returns (r: Result<string, PathError>)
    ensures r == LocateGitDir(h, fs, start)
    ensures r.Ok? ==> IsGitDir(fs, r.value)
  {
    var abs := Abs(h, start);
    if abs.Err? {
      return Err(abs.error);
    }
    var dir := abs.value;
    while true
      invariant Walk(fs, dir) == Walk(fs, abs.value)
      decreases Height(dir)
    {
      if IsGitDir(fs, dir) {
        return Ok(dir);
      }
      var gitdir := Join(dir, ".git");
      if gitdir !in fs {
        var oldDir := dir;
        dir := Dir(dir);
        if oldDir == dir {
          break;
        }
        DirShrinks(oldDir);
      } else if fs[gitdir].Directory? {
        if IsGitDir(fs, gitdir) {
          return Ok(gitdir);
        }
        return Err(CorruptGitDir(gitdir));
      } else {
        r := GitFileTarget(h, fs, gitdir);
        return;
      }
    }
    return Err(NotInGitDir);
  }

  /** `FindGitConfig`: the `config` file of the repository `FindGitDir`
      finds, which exists and is not a directory; or its error. */
  method FindGitConfig(h: Host, fs: FileSystem, start: string) returns (r: Result<string, PathError>)
    ensures LocateGitDir(h, fs, start).Ok? ==> r == Ok(Join(LocateGitDir(h, fs, start).value, "config"))
    ensures LocateGitDir(h, fs, start).Err? ==> r == Err(LocateGitDir(h, fs, start).error)
    ensures r.Ok? ==> r.value in fs && !fs[r.value].Directory?
  {
    var dir := FindGitDir(h, fs, start);
    if dir.Ok? {
      IsGitDirTests(fs, dir.value);
      return Ok(Join(dir.value, "config"));
    }
    return Err(dir.error);
  }

  /** `SystemConfigFile`: `$TEST_GIT_SYSTEM_CONFIG` when set, else
      "/etc/gitconfig"; never empty. */
  function SystemConfigFile(h: Host): (r: string)
    ensures r != ""
    ensures Getenv(h, GitSystemConfigEnv) != "" ==> r == Getenv(h, GitSystemConfigEnv)
    ensures Getenv(h, GitSystemConfigEnv) == "" ==> r == "/etc/gitconfig"
  {
    var file := Getenv(h, GitSystemConfigEnv);
    if file == "" then "/etc/gitconfig" else file
  }

  /** `GlobalConfigFile`: the XDG file `git/config` when it exists; otherwise
      `~/.gitconfig`, whether or not that exists; the home error when the
      XDG location itself needs a home that cannot be found. */
  function GlobalConfigFile(h: Host, fs: FileSystem): (r: Result<string, PathError>)
    ensures XdgConfigHome(h, "config").Err? ==> r == Err(HomeNotFound)
    ensures XdgConfigHome(h, "config").Ok? && XdgConfigHome(h, "config").value in fs ==> r == XdgConfigHome(h, "config")
    ensures XdgConfigHome(h, "config").Ok? && XdgConfigHome(h, "config").value !in fs ==>
      r == ExpendHome(h, ".gitconfig")
  {
    match XdgConfigHome(h, "config")
    case Err(e) => Err(e)
    case Ok(file) => if file in fs then Ok(file) else ExpendHome(h, ".gitconfig")
  }

  /** Without an XDG file, the global file is `.gitconfig` under the home;
      with no home at all there is none. */
  lemma GlobalConfigFallback(h: Host, fs: FileSystem)
    ensures HomeDir(h).Ok? && (Getenv(h, "XDG_CONFIG_HOME") == "" ==> Join4(HomeDir(h).value, ".config", "git", "config") !in fs)
      && (Getenv(h, "XDG_CONFIG_HOME") != "" ==> Join3(Getenv(h, "XDG_CONFIG_HOME"), "git", "config") !in fs)
      ==> GlobalConfigFile(h, fs) == Ok(Join(HomeDir(h).value, ".gitconfig"))
    ensures HomeDir(h).Err? && Getenv(h, "XDG_CONFIG_HOME") == "" ==> GlobalConfigFile(h, fs) == Err(HomeNotFound)
  {
    if HomeDir(h).Ok? {
      ExpendHomeUnderHome(h, ".gitconfig");
    }
  }

  // ---------------------------------------------------------------------
  // The walk up the tree
  // ---------------------------------------------------------------------

  /** The directory `n` levels above `dir`. */
  function Up(dir: string, n: nat): string
    decreases n
  {
    if n == 0 then dir else Up(Dir(dir), n - 1)
  }

  /** Neither a repository nor holding a `.git` entry: the search passes
      such a directory by. */
  predicate Plain(fs: FileSystem, dir: string)
  {
    !IsGitDir(fs, dir) && Join(dir, ".git") !in fs
  }

  lemma {:induction false} UpAtRoot(dir: string, n: nat)
    requires Dir(dir) == dir
    ensures Up(dir, n) == dir
  {
    if n > 0 {
      UpAtRoot(dir, n - 1);
    }
  }

  /** One step of the walk: a plain directory sends it to the parent, or
      ends it at the root. */
  lemma WalkStep(fs: FileSystem, dir: string)
    requires Plain(fs, dir)
    ensures Walk(fs, dir) == if Dir(dir) == dir then Root else Walk(fs, Dir(dir))
  {
  }

  /** The `n` directories from `dir` upward are all plain. */
  predicate PlainUpTo(fs: FileSystem, dir: string, n: nat)
    decreases n
  {
    n == 0 || (Plain(fs, dir) && PlainUpTo(fs, Dir(dir), n - 1))
  }

  lemma {:induction false} PlainUpToOfAll(fs: FileSystem, dir: string, n: nat)
    requires forall i :: 0 <= i < n ==> Plain(fs, Up(dir, i))
    ensures PlainUpTo(fs, dir, n)
    decreases n
  {
    if n > 0 {
      assert Up(dir, 0) == dir;
      forall i | 0 <= i < n - 1 ensures Plain(fs, Up(Dir(dir), i)) {
        assert Up(dir, i + 1) == Up(Dir(dir), i);
      }
      PlainUpToOfAll(fs, Dir(dir), n - 1);
    }
  }

  /** The walk passes plain directories by: from `dir`, it stops where it
      stops from the first ancestor that is not plain. */
  lemma {:induction false} WalkSkipsPlain(fs: FileSystem, dir: string, n: nat)
    requires PlainUpTo(fs, dir, n)
    ensures Walk(fs, dir) == Walk(fs, Up(dir, n))
    decreases n
  {
    if n > 0 && Dir(dir) == dir {
      UpAtRoot(dir, n);
    } else if n > 0 {
      WalkUp(fs, dir, n);
      WalkSkipsPlain(fs, Dir(dir), n - 1);
    }
  }

  lemma WalkUp(fs: FileSystem, dir: string, n: nat)
    requires n > 0 && PlainUpTo(fs, dir, n) && Dir(dir) != dir
    ensures Walk(fs, dir) == Walk(fs, Dir(dir))
    ensures PlainUpTo(fs, Dir(dir), n - 1) && Up(dir, n) == Up(Dir(dir), n - 1)
  {
  }

  /** One level of `FindGitDir`: from a plain absolute directory the
      search gives what it gives from the parent, or `ErrNotInGitDir` at the
      root. */
  lemma FindGitDirStep(h: Host, fs: FileSystem, dir: string)
    requires IsAbs(dir) && Plain(fs, dir)
    ensures LocateGitDir(h, fs, dir) == if Dir(dir) == dir then Err(NotInGitDir) else LocateGitDir(h, fs, Dir(dir))
  {
    WalkStep(fs, dir);
  }

  /** A directory that is a repository itself (a bare repository) is the
      result, before any `.git` entry inside it is looked at. */
  lemma StopsAtRepository(h: Host, fs: FileSystem, dir: string)
    requires IsAbs(dir) && IsGitDir(fs, dir)
    ensures LocateGitDir(h, fs, dir) == Ok(dir)
  {
  }

  /** Where the walk stops, as seen from `dir`. */
  function StopAt(fs: FileSystem, d: string): Stop
  {
    if IsGitDir(fs, d) then Repository(d)
    else if Join(d, ".git") in fs then GitEntry(Join(d, ".git"))
    else Root
  }

  /** The walk stops at an ancestor of `dir` (`dir` included) that every
      level below it leads to through plain directories: the repository or
      `.git` entry found there, or the root when that ancestor is plain and
      its own parent. */
  lemma {:induction false} WalkStopsAtAncestor(fs: FileSystem, dir: string)
    ensures exists n: nat ::
              && PlainUpTo(fs, dir, n)
              && Walk(fs, dir) == StopAt(fs, Up(dir, n))
              && (Walk(fs, dir) == Root ==> Dir(Up(dir, n)) == Up(dir, n))
    decreases Height(dir)
  {
    if IsGitDir(fs, dir) || Join(dir, ".git") in fs || Dir(dir) == dir {
      assert PlainUpTo(fs, dir, 0) && Up(dir, 0) == dir;
    } else {
      DirShrinks(dir);
      WalkStopsAtAncestor(fs, Dir(dir));
      var n: nat :| PlainUpTo(fs, Dir(dir), n) && Walk(fs, Dir(dir)) == StopAt(fs, Up(Dir(dir), n))
        && (Walk(fs, Dir(dir)) == Root ==> Dir(Up(Dir(dir), n)) == Up(Dir(dir), n));
      assert Up(dir, n + 1) == Up(Dir(dir), n);
      assert PlainUpTo(fs, dir, n + 1);
    }
  }

  /** A `.git` directory ends the search: it is the result when it is a
      repository, and a corruption error otherwise, without climbing
      further. */
  lemma StopsAtGitDirectory(h: Host, fs: FileSystem, dir: string)
    requires IsAbs(dir) && !IsGitDir(fs, dir) && IsDirectory(fs, Join(dir, ".git"))
    ensures LocateGitDir(h, fs, dir) ==
      if IsGitDir(fs, Join(dir, ".git")) then Ok(Join(dir, ".git")) else Err(CorruptGitDir(Join(dir, ".git")))
  {
  }

  /** A `.git` file ends the search too: the result is whatever the file
      resolves to, without climbing further. */
  lemma StopsAtGitFile(h: Host, fs: FileSystem, dir: string)
    requires IsAbs(dir) && !IsGitDir(fs, dir)
    requires Join(dir, ".git") in fs && !fs[Join(dir, ".git")].Directory?
    ensures LocateGitDir(h, fs, dir) == GitFileTarget(h, fs, Join(dir, ".git"))
  {
  }

  /** Started in a sub-directory `n` levels below a working tree, the search
      finds the working tree's `.git` directory. */
  lemma FindsEnclosingRepository(h: Host, fs: FileSystem, dir: string, n: nat)
    requires IsAbs(dir)
    requires forall i :: 0 <= i < n ==> Plain(fs, Up(dir, i))
    requires !IsGitDir(fs, Up(dir, n)) && IsGitDir(fs, Join(Up(dir, n), ".git"))
    requires IsDirectory(fs, Join(Up(dir, n), ".git"))
    ensures LocateGitDir(h, fs, dir) == Ok(Join(Up(dir, n), ".git"))
  {
    PlainUpToOfAll(fs, dir, n);
    WalkSkipsPlain(fs, dir, n);
  }

  /** When every directory up to the root is plain, the search fails with
      `ErrNotInGitDir`. */
  lemma NotInAnyRepository(h: Host, fs: FileSystem, dir: string, n: nat)
    requires IsAbs(dir)
    requires forall i :: 0 <= i <= n ==> Plain(fs, Up(dir, i))
    requires Dir(Up(dir, n)) == Up(dir, n)
    ensures LocateGitDir(h, fs, dir) == Err(NotInGitDir)
  {
    PlainUpToOfAll(fs, dir, n);
    WalkSkipsPlain(fs, dir, n);
    WalkStep(fs, Up(dir, n));
  }

  /** A `.git` file written as "gitdir: <target>\n" names `target`. */
  lemma GitFileLine(t: string)
    requires t != "" && '\n' !in t && !Text.IsSpace(t[0]) && !Text.IsSpace(t[|t| - 1])
    ensures GitdirOf("gitdir: " + t + "\n") == Some(t)
  {
    GitdirLineNoNewline(t);
    FirstLineOfLine("gitdir: " + t);
    GitdirLineParts(t);
    TrimPadded(t);
  }

  lemma GitdirLineNoNewline(t: string)
    requires '\n' !in t
    ensures '\n' !in "gitdir: " + t
  {
    var s := "gitdir: " + t;
    assert forall i :: 0 <= i < |t| ==> s[8 + i] == t[i];
  }

  lemma GitdirLineParts(t: string)
    ensures var line := "gitdir: " + t + "\n";
      line[..7] == "gitdir:" && line[7..] == " " + t + "\n"
  {
  }

  /** Trimming a blank before and a newline after a word gives the word. */
  lemma TrimPadded(t: string)
    requires t != "" && !Text.IsSpace(t[0]) && !Text.IsSpace(t[|t| - 1])
    ensures Text.TrimSpace(" " + t + "\n") == t
  {
    var padded := " " + t + "\n";
    assert Text.IsSpace(' ') && Text.IsSpace('\n');
    assert padded[1] == t[0];
    assert Text.LeadingSpace(padded) == 1;
    var rest := padded[1..];
    assert rest == t + "\n" && rest[|rest| - 2] == t[|t| - 1];
    assert Text.TrailingSpace(rest) == 1;
    assert rest[..|t|] == t;
  }

  lemma {:induction false} FirstLineOfLine(s: string)
    requires '\n' !in s
    ensures FirstLine(s + "\n") == s + "\n"
  {
    if s != [] {
      assert (s + "\n")[1..] == s[1..] + "\n";
      FirstLineOfLine(s[1..]);
    }
  }

  /** A `.git` file whose "gitdir:" line names a relative `t`, inside an
      absolute directory, names `t` under that directory. */
  lemma GitFileNamesTarget(h: Host, fs: FileSystem, dir: string, t: string)
    requires IsAbs(dir) && (dir == "/" || dir[|dir| - 1] != '/')
    requires t != "" && !IsAbs(t) && !IsTildePath(t)
    requires Join(dir, ".git") in fs && fs[Join(dir, ".git")].Regular?
    requires GitdirOf(fs[Join(dir, ".git")].content) == Some(t)
    ensures GitFileTarget(h, fs, Join(dir, ".git")) ==
      if IsGitDir(fs, Join(dir, t)) then Ok(Join(dir, t)) else Err(CorruptGitDirTarget(Join(dir, ".git"), Join(dir, t)))
  {
    BesideGitFile(h, dir, t);
    RelativeTarget(h, fs, Join(dir, ".git"), t, Join(dir, t));
  }

  /** The `.git` file of `dir` has `dir` as its directory, and a relative
      name resolved against that directory is the two joined. */
  lemma BesideGitFile(h: Host, dir: string, t: string)
    requires IsAbs(dir) && (dir == "/" || dir[|dir| - 1] != '/')
    requires t != "" && !IsAbs(t) && !IsTildePath(t)
    ensures Dir(Join(dir, ".git")) == dir
    ensures AbsJoin(h, Dir(Join(dir, ".git")), t) == Ok(Join(dir, t))
  {
    DirOfJoin(dir, ".git");
    AbsJoinUnder(h, dir, t);
  }

  /** A `.git` file naming a relative target that resolves to `p` gives `p`
      when it is a repository, and the corrupt-target error otherwise. */
  lemma RelativeTarget(h: Host, fs: FileSystem, gitdir: string, t: string, p: string)
    requires gitdir in fs && fs[gitdir].Regular? && GitdirOf(fs[gitdir].content) == Some(t)
    requires !IsAbs(t) && AbsJoin(h, Dir(gitdir), t) == Ok(p)
    ensures GitFileTarget(h, fs, gitdir) ==
      if IsGitDir(fs, p) then Ok(p) else Err(CorruptGitDirTarget(gitdir, p))
  {
  }

  /** A `.git` file naming a relative target (a linked working tree or a
      submodule) sends the search to that target, taken relative to the
      directory holding the `.git` file. */
  lemma FollowsRelativeGitFile(h: Host, fs: FileSystem, dir: string, t: string)
    requires IsAbs(dir) && (dir == "/" || dir[|dir| - 1] != '/')
    requires t != "" && '\n' !in t && !Text.IsSpace(t[0]) && !Text.IsSpace(t[|t| - 1])
    requires !IsAbs(t) && !IsTildePath(t)
    requires !IsGitDir(fs, dir)
    requires Join(dir, ".git") in fs && fs[Join(dir, ".git")] == Regular("gitdir: " + t + "\n")
    ensures LocateGitDir(h, fs, dir) ==
      if IsGitDir(fs, Join(dir, t)) then Ok(Join(dir, t)) else Err(CorruptGitDirTarget(Join(dir, ".git"), Join(dir, t)))
  {
    GitFileLine(t);
    GitFileNamesTarget(h, fs, dir, t);
    StopsAtGitFile(h, fs, dir);
  }

  /** A `.git` file naming an absolute target sends the search to that
      target as it is. */
  lemma FollowsAbsoluteGitFile(h: Host, fs: FileSystem, dir: string, t: string)
    requires IsAbs(dir) && !IsGitDir(fs, dir)
    requires '\n' !in t && IsAbs(t) && !Text.IsSpace(t[|t| - 1])
    requires Join(dir, ".git") in fs && fs[Join(dir, ".git")] == Regular("gitdir: " + t + "\n")
    ensures LocateGitDir(h, fs, dir) ==
      if IsGitDir(fs, t) then Ok(t) else Err(CorruptGitDirTarget(Join(dir, ".git"), t))
  {
    Text.PrintableNotSpace(t[0]);
    GitFileLine(t);
    StopsAtGitFile(h, fs, dir);
  }
}
