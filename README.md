# goconfig in Dafny

A model of the two core parts of the Go package `goconfig`, with proofs
about both:

- **The scoped configuration store** (`git-config.go`). A `GitConfig` maps a
  section to its keys, and each key to the values given for it in order. Each
  value is tagged with the scope (system, global, the repository itself, plus
  an include bit) it came from. The model covers:
  - names normalised into a section and a key (`dequoteKey`, `toSectionKey`);
  - values appended by `Add`;
  - last-wins reads (`Get`, `GetAll`, `GetRaw`, `GetBool`, `GetInt64`,
    `GetUint64`);
  - the sorted list of names (`Keys`);
  - another configuration merged in, its values re-tagged with a new scope
    (`Merge`).
- **Repository and configuration-file discovery** (`path.go`). This covers:
  - finding the home directory and the XDG configuration directory;
  - making paths absolute, with `~` expansion;
  - the three-part `IsGitDir` test;
  - the upward search of `FindGitDir`, including `gitdir:` redirection through
    a `.git` file;
  - the choice of the system and global configuration files.

  Environment, operating system, working directory and file system are
  parameters. A `Host` value holds the environment variables, whether the
  system is Windows, and the working directory. A `FileSystem` value maps a
  path to a directory, a readable file with its contents, or a file that
  cannot be opened.

Modules, in dependency order:

| file | module | contents |
|---|---|---|
| base.dfy | Base | `Option`, `Result` |
| text.dfy | Text | the `strings` and `sort` operations the core uses: split, join, ASCII lower-casing, quote trimming, white-space trimming, ordering and sorting of strings |
| scopes.dfy | Scopes | `Scope` as a 64-bit mask, `Scope.String`, the re-tagging `Merge` performs |
| numbers.dfy | Numbers | base-10 `strconv.ParseInt` and `strconv.ParseUint` for 64 bits |
| keys.dfy | ConfigKeys | `dequoteKey`, `toSectionKey` |
| store.dfy | ConfigStore | the store as a value; the reads as functions; `Inserted` and `Merged`, which specify the updates; the lemmas relating them |
| gitconfig.dfy | GitConfigs | class `GitConfig`, whose methods update the store in place, each proved against its specification in ConfigStore |
| paths.dfy | Paths | `HomeDir`, `xdgConfigHome`, `ExpendHome`, `Abs`, `AbsJoin`, and `Join`, `Dir` and `IsAbs` on slash-separated paths |
| discovery.dfy | Discovery | `IsGitDir`, the `FindGitDir` loop and its specification, `FindGitConfig`, `SystemConfigFile`, `GlobalConfigFile` |

## Behaviour as written

The model follows the code in four places where it does something a reader
might not expect:

- **Dotless names.** A name with fewer than two dot components is not dropped.
  `toSectionKey` maps it to section `""` and key `""`, and `Add` stores the
  value there (`ConfigStore.DotlessNameUsesEmptySlot`).
- **Scope of added values.** `Add` tags its values with scope 0, which has no
  base scope set. `Scope.String` renders it as "unknown".
- **Quote trimming.** `dequoteKey` strips *every* leading and trailing `"` and
  `'` of each dot component, not one of each. It does so only at the ends of
  components (`Text.TrimQuotesCuts`), so `http "https://x.com".k` keeps `http "https://x.com` as its
  section, inner quote included. It lower-cases after dequoting; the order does
  not matter (`ConfigKeys.DequoteKeyLower`).
- **Empty lists.** `Merge` creates a key entry even when the incoming list is
  empty. A key can therefore hold an empty list, which `GetAll` reports as an
  empty list rather than as absent (`ConfigStore.MergedCanLeaveEmptyList`).

## Model

| member | source | states |
|---|---|---|
| Scopes.ScopeString | git-config.go:24-39 | the rendering ends in "-inc" exactly when the include bit is set; the base name is "system", "global" or "self" for the first of those bits that is set, checked in that order, and "unknown" when none is |
| Scopes.Retagged | git-config.go:230 | a merged value's scope is the merge scope on every bit but the include bit, and the include bit is set when the old scope or the merge scope has it |
| Scopes.RetaggedRendering | git-config.go:228-232 | a value merged under a base scope renders as that scope's name, with "-inc" exactly when the old value or the merge scope had the include bit |
| Numbers.ParseUint64 | git-config.go:157 | accepted exactly when the text is one or more decimal digits denoting at most 2^64-1, and then the value is that number; a range error (value 2^64-1) exactly when the digits before the first other character already exceed 2^64-1, even if a malformed character follows; otherwise a syntax error (value 0) for empty or malformed text |
| Numbers.OverflowBeforeSyntax | git-config.go:147-157 | digits that have overflowed before a non-digit make both parsers report the range error with the bound on the sign's side, not a syntax error: the first error met wins |
| Numbers.ParseInt64 | git-config.go:147 | an optional sign and then digits, within [-2^63, 2^63-1]; the value is the signed number when accepted; a syntax error (value 0) exactly for empty text, a bare sign, or malformed digits that have not overflowed 64 unsigned bits before the first other character; otherwise a range error carrying the bound on the side of the sign |
| Numbers.ParseDecimalRoundTrip | git-config.go:141-158 | every number in range is parsed back from its decimal rendering, unsigned, with "+" and with "-" |
| Text.SplitJoin | git-config.go:192-197 | splitting a join of dot-free components gives back those components |
| Text.JoinSplit | git-config.go:192-197 | joining the pieces of a split gives back the string |
| Text.TrimQuotes | git-config.go:194 | the result neither starts nor ends with a quote, holds only characters of the input, and is the input when that has no quote |
| Text.TrimQuotesCuts | git-config.go:194 | the result is the slice of the input that starts right after its leading run of quotes and is followed by quotes only; with the result having no quote at either end, this leaves exactly one possible result, so only the two end runs are removed |
| Text.TrimQuotesIdempotent | git-config.go:194 | trimming quotes twice is trimming them once |
| Text.Lower | git-config.go:202 | same length, each character ASCII lower-cased, no upper-case letter left |
| Text.PrintableNotSpace | path.go:177 | no printable ASCII character other than the blank is white space, so an end character that is printable non-blank ASCII, such as a leading "/", is never trimmed |
| Text.TrimSpace | path.go:177 | no white space (as `unicode.IsSpace` defines it) at either end of the result, never longer than the input, and the input itself when it has no white space at its ends |
| Text.TrimSpaceCuts | path.go:177 | the result is the slice of the input that starts right after its leading run of white space and is followed by white space only; with the result having no white space at either end, this leaves exactly one possible result |
| Text.SortStrings | git-config.go:82 | the result is sorted and is a permutation of the input |
| ConfigKeys.DequoteKey | git-config.go:187-198 | a name without quote characters is returned unchanged; otherwise the dot components of the result are those of the name with their quotes trimmed |
| ConfigKeys.DequoteKeyIdempotent | git-config.go:187-198 | dequoting keeps the number of components, leaves every component unquoted, and is idempotent |
| ConfigKeys.DequoteKeyOfUnquoted | git-config.go:187-198 | a name whose components are all unquoted is its own dequoted form |
| ConfigKeys.DequoteKeyLower | git-config.go:202 | dequoting commutes with lower-casing |
| ConfigKeys.ToSectionKey | git-config.go:201-211 | a name whose normalised form has no dot gives ("", ""); otherwise section, ".", key is the normalised name and the key holds no dot; both parts are lower case |
| ConfigKeys.LastDotUnique | git-config.go:208-209 | a string splits at its last dot in only one way |
| ConfigKeys.ToSectionKeyOfJoined | git-config.go:201-211 | a lower-case section and dot-free key, joined with "." and unquoted, normalise back to that section and key |
| ConfigKeys.ToSectionKeyOfPlain | git-config.go:201-211 | a name without quote characters or upper case splits at its last dot: everything before it is the section, dots included, which is how a URL subsection such as the one at goconfig_test.go line 62 is stored |
| ConfigKeys.ToSectionKeyStable | git-config.go:201-211 | for every name, its section and key, joined again with ".", normalise to themselves; a dotless name gives ("", ""), and "." gives ("", "") again |
| ConfigKeys.ToSectionKeyIgnoresCase | git-config.go:202 | names differing only in ASCII case have the same section and key |
| ConfigStore.Inserted | git-config.go:93-103 | after `_add`, the section and key entries exist, the list under them has the value (scope 0) appended, and every other section and list is unchanged |
| ConfigStore.GetRaw | git-config.go:178-185 | None exactly when the section or the key entry of the normalised name is missing, else the stored list |
| ConfigStore.ValuesOf | git-config.go:167-171 | the plain values of a list, same length, same order |
| ConfigStore.GetAll | git-config.go:161-175 | None exactly when `GetRaw` is None, else the values of the stored list in order |
| ConfigStore.Get | git-config.go:106-112 | the last stored value under the normalised name, or "" when there is none |
| ConfigStore.GetBool | git-config.go:115-128 | the default for ""; true for yes/true/on and false for no/false/off in any case; otherwise false with `ErrNotBoolValue` |
| ConfigStore.GetInt64 | git-config.go:131-148 | the default (no error) only for ""; otherwise exactly the value and error of `ParseInt64`; a failure is never replaced by the default. `GetInt` is the same function on a 64-bit platform |
| ConfigStore.GetUint64 | git-config.go:151-158 | the default (no error) only for ""; otherwise exactly the value and error of `ParseUint64` |
| ConfigStore.GetAfterAdd | git-config.go:87-112 | after `Add(key, v)` every name normalising like `key` reads `v`, and `GetAll` gives the old values followed by `v` |
| ConfigStore.GetAfterAddIgnoresCase | git-config.go:106-112 | after `Add(key, v)` the lower-case spelling of `key` reads `v` |
| ConfigStore.InsertedAllAppends | git-config.go:93-103 | after N insertions under one section and key, the list holds the old values and then the N values in call order |
| ConfigStore.GetAllAfterAdds | git-config.go:161-175 | after N `Add`s of one name, `GetAll` gives the old values followed by the N values, and exactly the N values for a name that was unset |
| ConfigStore.EditorExample | git-config.go:106-112 | after adding "vim" and then "nano" to `core.editor`, `Get` reads "nano" and `GetAll` reads both in order |
| ConfigStore.DotlessNameUsesEmptySlot | git-config.go:205-207 | a dotless name goes to ("", ""), where every dotless name reads it |
| ConfigStore.GetBoolUnset | git-config.go:116-119 | a name with no section or key entry reads as the given default, for every name and default, with no error |
| ConfigStore.GetBoolOff | git-config.go:121-125 | "Off" reads as false without error |
| ConfigStore.GetBoolNotBool | git-config.go:127 | "maybe" reads as false with `ErrNotBoolValue` |
| ConfigStore.GetBoolAfterAddOff | git-config.go:87-128 | after `Add("x.y", "Off")`, `GetBool("x.y", true)` is false without error |
| ConfigStore.Retag | git-config.go:228-232 | the copy keeps the text and takes the re-tagged scope |
| ConfigStore.RetagAll | git-config.go:224-234 | every value re-tagged, same length, same order |
| ConfigStore.MergedSection | git-config.go:220-235 | every key of either section; each key of the incoming section has the old list followed by the incoming values re-tagged; every other key keeps its list |
| ConfigStore.Merged | git-config.go:215-238 | every section of either store; incoming sections merged key by key; every other section unchanged |
| ConfigStore.MergedKeepsPrefixes | git-config.go:215-238 | every list before the merge is a prefix of the same list after it |
| ConfigStore.MergedAppends | git-config.go:216-235 | every incoming section and key exists afterwards, and every list is the old list followed by the incoming values re-tagged |
| ConfigStore.MergedGet | git-config.go:213-214 | after a merge a name reads the incoming value when the incoming store sets it, and the old value otherwise |
| ConfigStore.MergedGetAll | git-config.go:224-234 | after a merge `GetAll` lists the old values and then the incoming ones |
| ConfigStore.LayeredPrecedence | git-config.go:213-214 | merging system, global and the repository's own configuration in that order, a name reads the value of the last layer that sets it |
| ConfigStore.MergedCanLeaveEmptyList | git-config.go:221-223 | merging an empty incoming list leaves the key present with no value: `GetAll` gives an empty list and `Get` gives "" |
| ConfigStore.NamesDistinct | git-config.go:79 | when no key holds a dot, no two stored pairs have the same full name |
| ConfigStore.InsertedKeepsDotFree | git-config.go:87-90 | `Add` never stores a key holding a dot |
| ConfigStore.MergedKeepsDotFree | git-config.go:215-238 | merging stores whose keys hold no dot keeps that so |
| GitConfigs.SortedNames | git-config.go:82 | the sorted names keep their counts, have no repeats when keys are dot-free, and are empty for an empty store |
| GitConfigs.GitConfig.constructor | git-config.go:69-72 | a new configuration is empty |
| GitConfigs.GitConfig.AddEntry | git-config.go:93-103 | the store becomes `Inserted` of the old store |
| GitConfigs.GitConfig.Add | git-config.go:87-90 | the store becomes `Inserted` at the normalised section and key, the name then reads the value, and dot-free keys stay dot-free |
| GitConfigs.GitConfig.GetAll | git-config.go:161-175 | the loop returns the function `GetAll` of the current store |
| GitConfigs.GitConfig.SetValue | git-config.go:54-56 | `Set` on the value at an index of `GetRaw` changes that value's text, keeps its scope, and changes nothing else |
| GitConfigs.GitConfig.Merge | git-config.go:215-238 | the store becomes `Merged` of the old store and the incoming store as it was when the merge began, the result is the receiver, and the incoming configuration is unchanged when it is another object |
| GitConfigs.GitConfig.MergeSectionInto | git-config.go:217-235 | one section becomes `MergedSection` of its old keys and the incoming keys; other sections are unchanged |
| GitConfigs.GitConfig.AppendRetagged | git-config.go:224-234 | the loop returns the old list followed by the incoming values re-tagged, in order |
| GitConfigs.GitConfig.Keys | git-config.go:75-84 | the names are sorted, each full name occurs once per stored pair (an entry with an empty list included), distinct when keys are dot-free, and none for an empty store |
| Paths.Join | path.go:72 | an empty element is dropped; an absolute first element stays absolute; otherwise a "/" is added between the two unless the first already ends in one |
| Paths.Dir | path.go:158 | the parent of an absolute path is absolute |
| Paths.DirShrinks | path.go:156-161 | `Dir` either returns its argument or a strictly lower path, so the walk up ends |
| Paths.DirOfJoin | path.go:178 | the parent of a slash-free name joined under a directory is that directory |
| Paths.HomeDir | path.go:17-37 | on Windows USERPROFILE, else HOMEDRIVE+HOMEPATH; HOME when that is empty, on Windows as elsewhere; an error exactly when every candidate is empty; never "" on success |
| Paths.XdgConfigHome | path.go:39-56 | `$XDG_CONFIG_HOME/git/file` when the variable is set, else `home/.config/git/file`; an error exactly when the variable is unset and there is no home |
| Paths.ExpendHome | path.go:59-76 | an absolute name is returned without looking for a home; for any other name an error exactly when the home is one, else the home for "" and "~", the home joined with the rest after a "~/" or "~\\" prefix, and the home joined with the whole name otherwise (so "~x" lands at home/~x) |
| Paths.ExpendHomeUnderHome | path.go:69-75 | "" and "~" give the home, and a name not starting with "~" is joined under it |
| Paths.ExpendHomeTildeOptional | path.go:71-75 | "~/x" expands like "x" |
| Paths.ExpendHomeIsAbsolute | path.go:59-76 | with an absolute home every expansion is absolute |
| Paths.FilepathAbs | path.go:92 | an absolute name stays; any other is joined under the working directory |
| Paths.Abs | path.go:79-93 | "" is the working directory, absolute names stay, tilde names go to `ExpendHome`, other names are joined under the working directory; it fails only for a tilde name without a home |
| Paths.AbsJoin | path.go:96-110 | "" resolves the directory itself; absolute names stay; tilde names go to `ExpendHome`; other names resolve `Join(dir, name)` |
| Paths.AbsIsAbsolute | path.go:79-93 | on a host with an absolute working directory and home, the result is absolute and resolving it again changes nothing |
| Paths.AbsJoinIsAbsolute | path.go:96-110 | on such a host the result is absolute, and a relative name under an absolute directory gives the two joined |
| Paths.AbsJoinUnder | path.go:109 | a relative, non-tilde name under an absolute directory gives the two joined, on any host |
| Discovery.IsGitDirTests | path.go:113-135 | the predicate `Discovery.IsGitDir` (discovery.dfy) holds exactly when `objects/pack` and `refs` are directories and `config` exists and is not a directory |
| Discovery.JoinNested | path.go:119 | joining two elements in turn is joining them once with a "/" between |
| Discovery.FirstLine | path.go:175 | a prefix of the contents that ends at the first newline, newline included, or all of it when there is none |
| Discovery.GitdirOf | path.go:175-177 | no target exactly when the first line does not start with "gitdir:"; otherwise the target is the rest of that first line with white space trimmed from both ends |
| Discovery.GitFileLine | path.go:174-177 | the file "gitdir: t\n" names `t`, for a `t` without surrounding white space |
| Discovery.GitFileTarget | path.go:169-189 | an unopenable file gives the open error; a file without "gitdir:" gives the bad-file error; an absolute target is the result when it is a repository and the corrupt-target error otherwise; a relative target is first resolved by `AbsJoin` from the file's directory, whose error is passed on, and its result is tested the same way |
| Discovery.Walk | path.go:146-162 | the walk stops at a repository, at an existing `.git` entry, or at the root; it reaches the root only through plain directories |
| Discovery.WalkStopsAtAncestor | path.go:146-162 | wherever the walk stops, it stops at an ancestor of the start (the start included) reached through plain directories only: the repository there, or its `.git` entry, or the root when that ancestor is plain and its own parent |
| Discovery.Resolve | path.go:163-192 | what is returned where the walk stops is a repository when successful, and `ErrNotInGitDir` at the root |
| Discovery.LocateGitDir | path.go:141-192 | every successful result passes `IsGitDir`; an `Abs` error is returned as it is |
| Discovery.FindGitDir | path.go:138-193 | the loop returns exactly `LocateGitDir`, so its results pass `IsGitDir` |
| Discovery.FindGitConfig | path.go:196-202 | `config` under the repository found, which exists and is not a directory, or the search's error |
| Discovery.WalkStep | path.go:155-162 | from a plain directory the walk continues at the parent, or stops at the root |
| Discovery.WalkSkipsPlain | path.go:146-162 | the walk stops where it stops from the first ancestor that is not plain |
| Discovery.FindGitDirStep | path.go:155-162 | from a plain absolute directory the search gives what it gives from the parent, or `ErrNotInGitDir` at the root |
| Discovery.StopsAtGitFile | path.go:168-189 | a `.git` file ends the search: the result is whatever the file resolves to |
| Discovery.StopsAtGitDirectory | path.go:163-167 | a `.git` directory is the result when it is a repository and a corruption error otherwise, without climbing further |
| Discovery.StopsAtRepository | path.go:147-150 | a directory that is itself a repository (a bare one) is the result, before any `.git` entry is looked at |
| Discovery.FindsEnclosingRepository | path.go:138-167 | started n plain levels below a working tree, the search returns its `.git` directory |
| Discovery.NotInAnyRepository | path.go:146-192 | when every directory up to the root is plain, the search gives `ErrNotInGitDir` |
| Discovery.GitFileNamesTarget | path.go:176-187 | a `.git` file whose "gitdir:" line names a relative target resolves it under the directory holding the file, and returns it only when it is a repository |
| Discovery.RelativeTarget | path.go:178-187 | a relative target that resolves to `p` gives `p` when `p` is a repository, and the corrupt-target error naming `p` otherwise |
| Discovery.FollowsRelativeGitFile | path.go:168-189 | the search from a directory whose `.git` file names a relative target gives that target under the directory, or the corrupt-target error |
| Discovery.FollowsAbsoluteGitFile | path.go:176-186 | a `.git` file naming an absolute target gives that target as it is, or the corrupt-target error |
| Discovery.SystemConfigFile | path.go:205-211 | `$TEST_GIT_SYSTEM_CONFIG` when set, else "/etc/gitconfig"; never empty |
| Discovery.GlobalConfigFile | path.go:214-233 | the XDG file when it exists, else `ExpendHome(".gitconfig")` without checking that it exists; the home error when the XDG location needs a missing home |
| Discovery.GlobalConfigFallback | path.go:225-231 | without an XDG file the global file is `.gitconfig` under the home; with neither home nor XDG variable it is the home error |

## Left out

- `Parse`, the textual parser the tests call, is not part of this model, and neither are `include` directives.
- The operating system is a parameter. `os.Getenv`, `runtime.GOOS`, `os.Getwd`, `os.Stat` and `os.Open` read a `Host` and a `FileSystem` value. A `Stat` error is taken as "absent", and an `Open` error as an entry that cannot be opened. `os.Getwd` cannot fail here. `bufio`'s read error is ignored, as the code ignores it.
- `SetHome` and `UnsetHome` change the process environment, for tests only; they are not modelled.
- Paths are slash-separated, and `Join`, `Dir` and `IsAbs` do not perform `filepath.Clean`. A path written with `..`, `.` or repeated slashes is not normalised; for example `Join("a", "/b")` is "a//b", where `filepath.Join` gives "a/b". Windows volume names and `\` separators are not modelled; a Windows host only changes how the home is found.
- Paths.Dir: stated only as keeping absolute paths absolute, plus `DirShrinks` and `DirOfJoin`; a full statement of `filepath.Dir` would need `Clean`.
- `strings.ToLower` is ASCII lower-casing; Unicode case mapping is not modelled.
- ConfigStore.GetInt64: also stands for `GetInt`, because `strconv.Atoi` on a 64-bit platform accepts, rejects and returns what `ParseInt(s, 10, 64)` does. The error values carry no function name or input text.
- The error values of discovery carry the paths involved but not the messages `fmt.Errorf` formats.
- `GitConfigValue.Value` and `Scope()` are plain reads: the `value` field of `ConfigValue`, and `Scopes.ScopeString` of its scope.
- Nil entries inside value lists, and a key mapped to a nil list, cannot occur in this model, so the branches that skip them are absent.
- Go map iteration order is not modelled: `Keys` sorts, and `Merge`'s result does not depend on the order.
- References shared between configurations (a value returned by `GetRaw`, a section map reachable from two configurations) are not modelled. `SetValue` is the explicit update that `Set` on a value from `GetRaw` amounts to.
- GitConfigs.GitConfig.Merge: a configuration merged into itself is modelled by reading the incoming store once, as Go's `range` reads each list once. So every list is doubled, not grown without end.
