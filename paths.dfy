/** Home-directory and path resolution (`HomeDir`, `xdgConfigHome`,
    `ExpendHome`, `Abs`, `AbsJoin`) over an injected host: its environment,
    whether it runs Windows, and its working directory. Paths follow the
    slash-separated form: `IsAbs`, `Join` and `Dir` are given below without
    the lexical clean-up `path/filepath` performs. */
module Paths {
  import opened Base

  /** What the resolvers read from the process: `os.Getenv`,
      `runtime.GOOS == "windows"` and `os.Getwd`. */
  datatype Host = Host(env: map<string, string>, isWindows: bool, cwd: string)

  /** The errors of path resolution and repository discovery. */
  datatype PathError =
    | HomeNotFound
    | NotInGitDir
    | CorruptGitDir(gitdir: string)
    | CannotOpenGitDirFile(gitdir: string)
    | CorruptGitDirTarget(gitdir: string, target: string)
    | BadGitDirFile(gitdir: string)

  /** `os.Getenv`: the variable's value, or "" when it is unset. */
  function Getenv(h: Host, name: string): string
  {
    if name in h.env then h.env[name] else ""
  }

  // ---------------------------------------------------------------------
  // Path algebra
  // ---------------------------------------------------------------------

  predicate IsAbs(p: string)
  {
    |p| > 0 && p[0] == '/'
  }

  /** `filepath.Join(a, b)`: an empty element is dropped; otherwise the two
      are joined with a single "/" between them. */
  function Join(a: string, b: string): (r: string)
    ensures a == "" ==> r == b
    ensures b == "" ==> r == a
    ensures IsAbs(a) ==> IsAbs(r)
    ensures a != "" && b != "" ==> HasSlashBetween(r, a, b)
  {
    if a == "" then b
    else if b == "" then a
    else if a[|a| - 1] == '/' then a + b
    else a + "/" + b
  }

  /** `r` is `a` followed by `b`, with a "/" added between them unless `a`
      already ends in one (a `b` starting with "/" is kept as it is, so
      `Join("a", "/b")` is "a//b"). */
  predicate HasSlashBetween(r: string, a: string, b: string)
    requires a != ""
  {
    (a[|a| - 1] == '/' && r == a + b) || (a[|a| - 1] != '/' && r == a + "/" + b)
  }

  /** `filepath.Join` of three and four elements. */
  function Join3(a: string, b: string, c: string): string
  {
    Join(Join(a, b), c)
  }

  function Join4(a: string, b: string, c: string, d: string): string
  {
    Join(Join3(a, b, c), d)
  }

  /** The index of the last "/" of `p`, if any. */
  function LastSlash(p: string): (r: Option<nat>)
    ensures r.None? <==> '/' !in p
    ensures r.Some? ==> r.value < |p| && p[r.value] == '/' && '/' !in p[r.value + 1..]
  {
    if p == [] then None
    else if p[|p| - 1] == '/' then Some(|p| - 1)
    else
      var r := LastSlash(p[..|p| - 1]);
      assert p[..|p| - 1] + [p[|p| - 1]] == p;
      if r.Some? then
        assert p[r.value + 1..] == p[..|p| - 1][r.value + 1..] + [p[|p| - 1]];
        r
      else r
  }

  /** `filepath.Dir`: everything before the last "/"; "/" when that is the
      first character and "." when there is none. */
  function Dir(p: string): (r: string)
    ensures IsAbs(p) ==> IsAbs(r)
  {
    match LastSlash(p)
    case None => "."
    case Some(i) => if i == 0 then "/" else p[..i]
  }

  /** A measure that `Dir` decreases until it reaches one of its fixed
      points, "/" and ".". */
  function Height(p: string): nat
  {
    if '/' in p then |p| + 2 else if p == "." then 0 else 1
  }

  /** Walking up ends: `Dir` either returns its argument or a lower path. */
  lemma DirShrinks(p: string)
    ensures Dir(p) != p ==> Height(Dir(p)) < Height(p)
  {
    match LastSlash(p)
    case None =>
    case Some(i) =>
      if i != 0 {
        assert |p[..i]| < |p|;
      }
  }

  /** A name without "/" joined under a directory written without a
      trailing slash (or the root) has that directory as its `Dir`. */
  lemma DirOfJoin(a: string, b: string)
    requires a != "" && (a == "/" || a[|a| - 1] != '/')
    requires b != "" && '/' !in b
    ensures Dir(Join(a, b)) == a
  {
    var r := Join(a, b);
    if a == "/" {
      assert r == "/" + b;
      assert r[0] == '/';
      assert r[1..] == b;
      assert LastSlash(r) == Some(0);
    } else {
      assert r == a + "/" + b;
      assert r[|a|] == '/';
      assert r[|a| + 1..] == b;
      assert LastSlash(r) == Some(|a|);
      assert r[..|a|] == a;
    }
  }

  // ---------------------------------------------------------------------
  // Home and configuration directories
  // ---------------------------------------------------------------------

  /** `HomeDir`: on Windows USERPROFILE, else HOMEDRIVE followed by
      HOMEPATH; on any system, HOME when that still gives nothing; an error
      when every candidate is empty. */
  function HomeDir(h: Host): (r: Result<string, PathError>)
    ensures r.Ok? ==> r.value != ""
    ensures !h.isWindows ==> r == if Getenv(h, "HOME") != "" then Ok(Getenv(h, "HOME")) else Err(HomeNotFound)
    ensures h.isWindows && Getenv(h, "USERPROFILE") != "" ==> r == Ok(Getenv(h, "USERPROFILE"))
    ensures h.isWindows && Getenv(h, "USERPROFILE") == "" && Getenv(h, "HOMEDRIVE") + Getenv(h, "HOMEPATH") != "" ==>
      r == Ok(Getenv(h, "HOMEDRIVE") + Getenv(h, "HOMEPATH"))
    ensures (h.isWindows && Getenv(h, "USERPROFILE") == "" && Getenv(h, "HOMEDRIVE") + Getenv(h, "HOMEPATH") == ""
             && Getenv(h, "HOME") != "") ==> r == Ok(Getenv(h, "HOME"))
    ensures r.Err? <==>
      Getenv(h, "HOME") == "" &&
      (!h.isWindows || (Getenv(h, "USERPROFILE") == "" && Getenv(h, "HOMEDRIVE") + Getenv(h, "HOMEPATH") == ""))
  {
    var home :=
      if h.isWindows then
        (if Getenv(h, "USERPROFILE") != "" then Getenv(h, "USERPROFILE")
         else Getenv(h, "HOMEDRIVE") + Getenv(h, "HOMEPATH"))
      else "";
    var home' := if home == "" then Getenv(h, "HOME") else home;
    if home' == "" then Err(HomeNotFound) else Ok(home')
  }

  /** `xdgConfigHome(file)`: `$XDG_CONFIG_HOME/git/file` when the variable is
      set, else `<home>/.config/git/file`, else the home error. */
  function XdgConfigHome(h: Host, file: string): (r: Result<string, PathError>)
    ensures Getenv(h, "XDG_CONFIG_HOME") != "" ==> r == Ok(Join3(Getenv(h, "XDG_CONFIG_HOME"), "git", file))
    ensures Getenv(h, "XDG_CONFIG_HOME") == "" && HomeDir(h).Ok? ==> r == Ok(Join4(HomeDir(h).value, ".config", "git", file))
    ensures r.Err? <==> Getenv(h, "XDG_CONFIG_HOME") == "" && HomeDir(h).Err?
  {
    var xdg := Getenv(h, "XDG_CONFIG_HOME");
    if xdg != "" then Ok(Join3(xdg, "git", file))
    else
      match HomeDir(h)
      case Err(e) => Err(e)
      case Ok(home) => Ok(Join4(home, ".config", "git", file))
  }

  /** "~", "~/..." or "~\...": a name `Abs` and `AbsJoin` hand to
      `ExpendHome`. */
  predicate IsTildePath(name: string)
  {
    |name| > 0 && name[0] == '~' && (|name| == 1 || name[1] == '/' || name[1] == '\\')
  }

  /** `ExpendHome`: an absolute name is returned as it is, without looking
      for a home; otherwise "" and "~" are the home, a "~/" or "~\" prefix is
      replaced by the home, and any other name is placed under the home. */
  function ExpendHome(h: Host, name: string): (r: Result<string, PathError>)
    ensures IsAbs(name) ==> r == Ok(name)
    ensures !IsAbs(name) ==> (r.Err? <==> HomeDir(h).Err?)
    ensures !IsAbs(name) && HomeDir(h).Err? ==> r == Err(HomeNotFound)
    ensures !IsAbs(name) && HomeDir(h).Ok? ==>
      r == Ok(if name == "" || name == "~" then HomeDir(h).value
              else if |name| >= 2 && name[0] == '~' && (name[1] == '/' || name[1] == '\\') then Join(HomeDir(h).value, name[2..])
              else Join(HomeDir(h).value, name))
  {
    if IsAbs(name) then Ok(name)
    else
      match HomeDir(h)
      case Err(e) => Err(e)
      case Ok(home) =>
        if |name| == 0 || name == "~" then Ok(home)
        else if |name| > 1 && name[0] == '~' && (name[1] == '/' || name[1] == '\\') then Ok(Join(home, name[2..]))
        else Ok(Join(home, name))
  }

  /** The home every relative name resolves under. */
  lemma ExpendHomeUnderHome(h: Host, name: string)
    requires !IsAbs(name) && HomeDir(h).Ok?
    ensures var home := HomeDir(h).value;
      && (name == "" || name == "~" ==> ExpendHome(h, name) == Ok(home))
      && (name != "" && name[0] != '~' ==> ExpendHome(h, name) == Ok(Join(home, name)))
  {
  }

  /** Spelling out the home is optional: "~/x" and "x" expand alike. */
  lemma {:induction false} ExpendHomeTildeOptional(h: Host, name: string)
    requires name == "" || (name[0] != '~' && name[0] != '/')
    ensures ExpendHome(h, "~/" + name) == ExpendHome(h, name)
  {
    var t := "~/" + name;
    assert t[0] == '~' && t[1] == '/' && t[2..] == name;
    assert !IsAbs(t);
  }

  /** With an absolute home, every expansion is absolute. */
  lemma ExpendHomeIsAbsolute(h: Host, name: string)
    requires HomeDir(h).Ok? ==> IsAbs(HomeDir(h).value)
    ensures ExpendHome(h, name).Ok? ==> IsAbs(ExpendHome(h, name).value)
  {
  }

  // ---------------------------------------------------------------------
  // Absolute paths
  // ---------------------------------------------------------------------

  /** `filepath.Abs`: a relative name is placed under the working directory. */
  function FilepathAbs(h: Host, name: string): (r: string)
    ensures IsAbs(name) ==> r == name
    ensures !IsAbs(name) ==> r == Join(h.cwd, name)
  {
    if IsAbs(name) then name else Join(h.cwd, name)
  }

  /** `Abs`: "" is the working directory; an absolute name stays; a tilde
      name is expanded; any other name is placed under the working
      directory. */
  function Abs(h: Host, name: string): (r: Result<string, PathError>)
    ensures name == "" ==> r == Ok(h.cwd)
    ensures IsAbs(name) ==> r == Ok(name)
    ensures IsTildePath(name) ==> r == ExpendHome(h, name)
    ensures name != "" && !IsAbs(name) && !IsTildePath(name) ==> r == Ok(Join(h.cwd, name))
    ensures r.Err? ==> IsTildePath(name) && HomeDir(h).Err?
  {
    if name == "" then Ok(h.cwd)
    else if IsAbs(name) then Ok(name)
    else if IsTildePath(name) then ExpendHome(h, name)
    else Ok(FilepathAbs(h, name))
  }

  /** `AbsJoin(dir, name)`: "" resolves `dir` itself; an absolute name
      stays; a tilde name is expanded; any other name is taken relative to
      `dir` and then made absolute. */
  function AbsJoin(h: Host, dir: string, name: string): (r: Result<string, PathError>)
    ensures name == "" ==> r == Ok(FilepathAbs(h, dir))
    ensures IsAbs(name) ==> r == Ok(name)
    ensures IsTildePath(name) ==> r == ExpendHome(h, name)
    ensures name != "" && !IsAbs(name) && !IsTildePath(name) ==> r == Abs(h, Join(dir, name))
  {
    if name == "" then Ok(FilepathAbs(h, dir))
    else if IsAbs(name) then Ok(name)
    else if IsTildePath(name) then ExpendHome(h, name)
    else Abs(h, Join(dir, name))
  }

  /** A host whose working directory and home (when it has one) are
      absolute. */
  predicate AbsoluteHost(h: Host)
  {
    IsAbs(h.cwd) && (HomeDir(h).Ok? ==> IsAbs(HomeDir(h).value))
  }

  /** On such a host `Abs` yields absolute paths, and resolving its result
      again changes nothing. */
  lemma AbsIsAbsolute(h: Host, name: string)
    requires AbsoluteHost(h)
    ensures Abs(h, name).Ok? ==> IsAbs(Abs(h, name).value)
    ensures Abs(h, name).Ok? ==> Abs(h, Abs(h, name).value) == Abs(h, name)
  {
    ExpendHomeIsAbsolute(h, name);
  }

  /** On such a host `AbsJoin` yields absolute paths, and a relative name
      under an absolute directory is that directory joined with the name. */
  lemma AbsJoinIsAbsolute(h: Host, dir: string, name: string)
    requires AbsoluteHost(h)
    ensures AbsJoin(h, dir, name).Ok? ==> IsAbs(AbsJoin(h, dir, name).value)
    ensures IsAbs(dir) && name != "" && !IsAbs(name) && !IsTildePath(name) ==>
      AbsJoin(h, dir, name) == Ok(Join(dir, name))
  {
    ExpendHomeIsAbsolute(h, name);
    AbsIsAbsolute(h, Join(dir, name));
  }

  /** A relative name that is not a tilde path, under an absolute
      directory, resolves to the two joined, whatever the host. */
  lemma AbsJoinUnder(h: Host, dir: string, name: string)
    requires IsAbs(dir) && name != "" && !IsAbs(name) && !IsTildePath(name)
    ensures AbsJoin(h, dir, name) == Ok(Join(dir, name))
  {
  }
}
