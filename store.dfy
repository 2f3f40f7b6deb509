/** The contents of a `GitConfig`: section -> key -> the values given for
    that key, in the order they were added, each tagged with its scope. The
    read operations are functions of this value; the in-place updates are
    the methods of class `GitConfig` (module GitConfigs), specified by the
    functions `Inserted` and `Merged` below. */
module ConfigStore {
  import opened Base
  import opened Text
  import opened Scopes
  import opened Numbers
  import opened ConfigKeys

  /** `GitConfigValue`: a value and the scope it came from. */
  datatype ConfigValue = ConfigValue(scope: Scope, value: string)

  /** `GitConfigKeys`: key -> values. */
  type Section = map<string, seq<ConfigValue>>

  /** `GitConfig`: section -> keys. */
  type Store = map<string, Section>

  /** The errors of the typed getters. */
  datatype ConfigError = NotBoolValue | NumErr(err: NumError)

  /** The keys of `section`, or none when the section is missing. */
  function SectionAt(m: Store, section: string): Section
  {
    if section in m then m[section] else map[]
  }

  /** The values stored under `section` and `key`, or none. */
  function ValuesAt(m: Store, section: string, key: string): seq<ConfigValue>
  {
    if section in m && key in m[section] then m[section][key] else []
  }

  // ---------------------------------------------------------------------
  // Insertion (the state change of `_add` and `Add`)
  // ---------------------------------------------------------------------

  /** The store after `_add(section, key, value)`: the section and key
      entries exist, the list under them has gained `value` (with scope 0)
      at its end, and every other list is as before. */
  function Inserted(m: Store, section: string, key: string, value: string): (r: Store)
    ensures r.Keys == m.Keys + {section}
    ensures r[section].Keys == SectionAt(m, section).Keys + {key}
    ensures r[section][key] == ValuesAt(m, section, key) + [ConfigValue(0, value)]
    ensures forall s :: s in m && s != section ==> r[s] == m[s]
    ensures forall k :: k in SectionAt(m, section) && k != key ==> r[section][k] == m[section][k]
  {
    m[section := SectionAt(m, section)[key := ValuesAt(m, section, key) + [ConfigValue(0, value)]]]
  }

  // ---------------------------------------------------------------------
  // Reads
  // ---------------------------------------------------------------------

  /** `GetRaw`: the stored list with its scopes, or None exactly when the
      section or the key entry of the normalised name is missing. */
  function GetRaw(m: Store, key: string): (r: Option<seq<ConfigValue>>)
    ensures var (s, k) := ToSectionKey(key);
      && (r.None? <==> s !in m || k !in m[s])
      && (r.Some? ==> r.value == m[s][k])
  {
    var (s, k) := ToSectionKey(key);
    if s in m && k in m[s] then Some(m[s][k]) else None
  }

  /** The plain values of a list of scoped values, in the same order. */
  function ValuesOf(vs: seq<ConfigValue>): (r: seq<string>)
    ensures |r| == |vs|
    ensures forall i :: 0 <= i < |vs| ==> r[i] == vs[i].value
  {
    if vs == [] then [] else ValuesOf(vs[..|vs| - 1]) + [vs[|vs| - 1].value]
  }

  lemma ValuesOfConcat(a: seq<ConfigValue>, b: seq<ConfigValue>)
    ensures ValuesOf(a + b) == ValuesOf(a) + ValuesOf(b)
  {
  }

  /** `GetAll`: None exactly when `GetRaw` finds nothing, otherwise every
      stored value in the order it was added. */
  function GetAll(m: Store, key: string): (r: Option<seq<string>>)
    ensures r.None? <==> GetRaw(m, key).None?
    ensures r.Some? ==> |r.value| == |GetRaw(m, key).value|
    ensures r.Some? ==> forall i :: 0 <= i < |r.value| ==> r.value[i] == GetRaw(m, key).value[i].value
  {
    match GetRaw(m, key)
    case None => None
    case Some(vs) => Some(ValuesOf(vs))
  }

  /** `Get`: the last value stored under the normalised name (last one
      wins), or "" when there is none. */
  function Get(m: Store, key: string): (r: string)
    ensures var vs := ValuesAt(m, ToSectionKey(key).0, ToSectionKey(key).1);
      r == if vs == [] then "" else vs[|vs| - 1].value
  {
    var values := GetAll(m, key);
    if values.None? || |values.value| == 0 then "" else values.value[|values.value| - 1]
  }

  /** `GetBool`: the default for an empty value; otherwise "yes", "true"
      and "on" are true and "no", "false" and "off" are false, in any
      letter case; anything else is `ErrNotBoolValue` with false. */
  function GetBool(m: Store, key: string, default: bool): (r: (bool, Option<ConfigError>))
    ensures Get(m, key) == "" ==> r == (default, None)
    ensures Get(m, key) != "" && Lower(Get(m, key)) in {"yes", "true", "on"} ==> r == (true, None)
    ensures Get(m, key) != "" && Lower(Get(m, key)) in {"no", "false", "off"} ==> r == (false, None)
    ensures Get(m, key) != "" && Lower(Get(m, key)) !in {"yes", "true", "on", "no", "false", "off"} ==>
      r == (false, Some(NotBoolValue))
  {
    var value := Get(m, key);
    if value == "" then (default, None)
    else
      var lower := Lower(value);
      if lower == "yes" || lower == "true" || lower == "on" then (true, None)
      else if lower == "no" || lower == "false" || lower == "off" then (false, None)
      else (false, Some(NotBoolValue))
  }

  function LiftError(e: Option<NumError>): Option<ConfigError>
  {
    if e.None? then None else Some(NumErr(e.value))
  }

  /** `GetInt64` (and `GetInt`, its twin on a 64-bit platform): the default
      only for an empty value; any other value is parsed, and a parse
      failure is reported, never replaced by the default. */
  function GetInt64(m: Store, key: string, default: Int64): (r: (Int64, Option<ConfigError>))
    ensures Get(m, key) == "" ==> r == (default, None)
    ensures Get(m, key) != "" ==>
      r.0 == ParseInt64(Get(m, key)).0 && (r.1 == None <==> ParseInt64(Get(m, key)).1 == None)
    ensures Get(m, key) != "" && r.1 != None ==> r.1 == Some(NumErr(ParseInt64(Get(m, key)).1.value))
  {
    var value := Get(m, key);
    if value == "" then (default, None)
    else
      var (n, err) := ParseInt64(value);
      (n, LiftError(err))
  }

  /** `GetUint64`: as `GetInt64`, with the unsigned parser. */
  function GetUint64(m: Store, key: string, default: Uint64): (r: (Uint64, Option<ConfigError>))
    ensures Get(m, key) == "" ==> r == (default, None)
    ensures Get(m, key) != "" ==>
      r.0 == ParseUint64(Get(m, key)).0 && (r.1 == None <==> ParseUint64(Get(m, key)).1 == None)
    ensures Get(m, key) != "" && r.1 != None ==> r.1 == Some(NumErr(ParseUint64(Get(m, key)).1.value))
  {
    var value := Get(m, key);
    if value == "" then (default, None)
    else
      var (n, err) := ParseUint64(value);
      (n, LiftError(err))
  }

  // ---------------------------------------------------------------------
  // What reads see after insertions
  // ---------------------------------------------------------------------

  /** After `Add(key, value)`, any name that normalises to the same section
      and key reads `value`, and its list is the old one with `value`
      appended. */
  lemma GetAfterAdd(m: Store, key: string, other: string, value: string)
    requires ToSectionKey(other) == ToSectionKey(key)
    ensures var m' := Inserted(m, ToSectionKey(key).0, ToSectionKey(key).1, value);
      && Get(m', other) == value
      && GetAll(m', other) == Some(ValuesOf(ValuesAt(m, ToSectionKey(key).0, ToSectionKey(key).1)) + [value])
  {
    var (s, k) := ToSectionKey(key);
    ValuesOfConcat(ValuesAt(m, s, k), [ConfigValue(0, value)]);
  }

  /** Reads are case-insensitive: after `Add(key, value)`, the lower-case
      spelling of `key` reads `value`. */
  lemma GetAfterAddIgnoresCase(m: Store, key: string, value: string)
    ensures Get(Inserted(m, ToSectionKey(key).0, ToSectionKey(key).1, value), Lower(key)) == value
  {
    ToSectionKeyIgnoresCase(key);
    GetAfterAdd(m, key, Lower(key), value);
  }

  /** The store after `_add(section, key, v)` for each `v` of `vs` in turn. */
  function InsertedAll(m: Store, section: string, key: string, vs: seq<string>): Store
    decreases |vs|
  {
    if vs == [] then m else InsertedAll(Inserted(m, section, key, vs[0]), section, key, vs[1..])
  }

  /** The store after `Add(key, v)` for each `v` of `vs` in turn. */
  function AddedAll(m: Store, key: string, vs: seq<string>): Store
  {
    InsertedAll(m, ToSectionKey(key).0, ToSectionKey(key).1, vs)
  }

  /** The list under a section and key after N insertions: the old values,
      then the inserted ones in call order. */
  lemma {:induction false} InsertedAllAppends(m: Store, section: string, key: string, vs: seq<string>)
    ensures ValuesOf(ValuesAt(InsertedAll(m, section, key, vs), section, key)) == ValuesOf(ValuesAt(m, section, key)) + vs
    decreases |vs|
  {
    if vs == [] {
      assert ValuesOf(ValuesAt(m, section, key)) + [] == ValuesOf(ValuesAt(m, section, key));
    } else {
      var m1 := Inserted(m, section, key, vs[0]);
      InsertedValues(m, section, key, vs[0]);
      InsertedAllAppends(m1, section, key, vs[1..]);
      ConcatFirst(ValuesOf(ValuesAt(m, section, key)), vs);
    }
  }

  lemma ConcatFirst(a: seq<string>, vs: seq<string>)
    requires vs != []
    ensures (a + [vs[0]]) + vs[1..] == a + vs
  {
  }

  /** One insertion adds its value at the end of the plain values. */
  lemma InsertedValues(m: Store, section: string, key: string, value: string)
    ensures ValuesOf(ValuesAt(Inserted(m, section, key, value), section, key)) == ValuesOf(ValuesAt(m, section, key)) + [value]
  {
    ValuesOfConcat(ValuesAt(m, section, key), [ConfigValue(0, value)]);
  }

  /** N additions under one name are all kept, after the values that were
      there, in call order; on a fresh name `GetAll` returns exactly them. */
  lemma GetAllAfterAdds(m: Store, key: string, vs: seq<string>)
    requires vs != []
    ensures var (s, k) := ToSectionKey(key);
      GetAll(AddedAll(m, key, vs), key) == Some(ValuesOf(ValuesAt(m, s, k)) + vs)
    ensures GetRaw(m, key).None? ==> GetAll(AddedAll(m, key, vs), key) == Some(vs)
  {
    var (s, k) := ToSectionKey(key);
    InsertedAllAppends(m, s, k, vs);
    if GetRaw(m, key).None? {
      assert ValuesOf(ValuesAt(m, s, k)) + vs == vs;
    }
  }

  /** The example of two successive settings of one variable. */
  lemma EditorExample()
    ensures var m := AddedAll(map[], "core.editor", ["vim", "nano"]);
      && Get(m, "core.editor") == "nano"
      && GetAll(m, "core.editor") == Some(["vim", "nano"])
  {
    var m := AddedAll(map[], "core.editor", ["vim", "nano"]);
    var (s, k) := ToSectionKey("core.editor");
    GetAllAfterAdds(map[], "core.editor", ["vim", "nano"]);
    assert GetAll(m, "core.editor") == Some(["vim", "nano"]);
  }

  /** A name without a dot is not ignored: it is stored under the empty
      section and the empty key, where every other dotless name finds it. */
  lemma DotlessNameUsesEmptySlot(m: Store, key: string, other: string, value: string)
    requires '.' !in key && '.' !in other
    ensures ToSectionKey(key) == ("", "")
    ensures Get(Inserted(m, "", "", value), other) == value
  {
    DotlessNormalised(key);
    DotlessNormalised(other);
    GetAfterAdd(m, key, other, value);
  }

  lemma DotlessNormalised(name: string)
    requires '.' !in name
    ensures '.' !in Normalised(name)
  {
    SplitWithoutSeparator(name, '.');
    var d := DequoteKey(name);
    SplitSingle(d, '.');
    assert '.' !in d;
    assert forall i :: 0 <= i < |d| ==> Normalised(name)[i] == LowerChar(d[i]);
  }

  /** An unset name reads as the default boolean, whatever the default. */
  lemma GetBoolUnset(m: Store, key: string, default: bool)
    requires GetRaw(m, key).None?
    ensures GetBool(m, key, default) == (default, None)
  {
  }

  /** "Off", in any letter case, is false. */
  lemma GetBoolOff(m: Store, key: string, default: bool)
    requires Get(m, key) == "Off"
    ensures GetBool(m, key, default) == (false, None)
  {
    assert Lower("Off") == "off" by {
      assert Lower("Off") == [LowerChar('O')] + Lower("ff");
    }
  }

  /** "maybe" is not a boolean: false with `ErrNotBoolValue`. */
  lemma GetBoolNotBool(m: Store, key: string, default: bool)
    requires Get(m, key) == "maybe"
    ensures GetBool(m, key, default) == (false, Some(NotBoolValue))
  {
    assert Lower("maybe") == "maybe" by {
      LowerOfNoUpper("maybe");
    }
    assert "maybe" !in {"yes", "true", "on", "no", "false", "off"};
  }

  /** After `Add("x.y", "Off")` the name reads as false. */
  lemma GetBoolAfterAddOff(m: Store)
    ensures GetBool(Inserted(m, "x", "y", "Off"), "x.y", true) == (false, None)
  {
    XYKey();
    GetAfterAdd(m, "x.y", "x.y", "Off");
    GetBoolOff(Inserted(m, "x", "y", "Off"), "x.y", true);
  }

  lemma XYKey()
    ensures ToSectionKey("x.y") == ("x", "y")
  {
    assert "x.y" == "x" + ['.'] + "y";
    SplitAtFirstSeparator("x", "y", '.');
    SplitWithoutSeparator("y", '.');
    ToSectionKeyOfJoined("x", "y");
  }

  // ---------------------------------------------------------------------
  // Merging (the state change of `Merge`)
  // ---------------------------------------------------------------------

  /** A value as `Merge` copies it: same text, the incoming `scope` plus the
      include bit the value already had. */
  function Retag(v: ConfigValue, scope: Scope): (r: ConfigValue)
    ensures r.value == v.value
    ensures r.scope == Retagged(v.scope, scope)
  {
    ConfigValue(Retagged(v.scope, scope), v.value)
  }

  /** Every value of a list re-tagged, in the same order. */
  function RetagAll(vs: seq<ConfigValue>, scope: Scope): (r: seq<ConfigValue>)
    ensures |r| == |vs|
    ensures forall i :: 0 <= i < |vs| ==> r[i] == Retag(vs[i], scope)
  {
    if vs == [] then [] else RetagAll(vs[..|vs| - 1], scope) + [Retag(vs[|vs| - 1], scope)]
  }

  /** The list under a key after merging `vs` into `mine`. */
  function MergedList(mine: seq<ConfigValue>, vs: seq<ConfigValue>, scope: Scope): seq<ConfigValue>
  {
    mine + RetagAll(vs, scope)
  }

  /** The list under `k`, or none when the key is missing. */
  function ListAt(m: Section, k: string): seq<ConfigValue>
  {
    if k in m then m[k] else []
  }

  /** One section after merging `src` into `dst`: each key of `src` has its
      re-tagged values appended after the ones `dst` had (an entry is made
      even when `src`'s list is empty); every other key keeps its list. */
  function MergedSection(dst: Section, src: Section, scope: Scope): (r: Section)
    ensures r.Keys == dst.Keys + src.Keys
    ensures forall k :: k in src ==> r[k] == MergedList(ListAt(dst, k), src[k], scope)
    ensures forall k :: k in dst && k !in src ==> r[k] == dst[k]
  {
    map k | k in dst.Keys + src.Keys :: MergedEntry(dst, src, k, scope)
  }

  /** The list under `k` after merging `src` into `dst`. */
  function MergedEntry(dst: Section, src: Section, k: string, scope: Scope): seq<ConfigValue>
    requires k in dst || k in src
  {
    if k in src then MergedList(ListAt(dst, k), src[k], scope) else dst[k]
  }

  /** The store after `dst.Merge(src, scope)`: every section of either, with
      the sections of `src` merged key by key and the others unchanged. */
  function Merged(dst: Store, src: Store, scope: Scope): (r: Store)
    ensures r.Keys == dst.Keys + src.Keys
    ensures forall s :: s in src ==> r[s] == MergedSection(SectionAt(dst, s), src[s], scope)
    ensures forall s :: s in dst && s !in src ==> r[s] == dst[s]
  {
    map s | s in dst.Keys + src.Keys ::
      if s in src then MergedSection(SectionAt(dst, s), src[s], scope) else dst[s]
  }

  /** Merging only appends: every list of `dst` is a prefix of the list
      under the same section and key afterwards. */
  lemma MergedKeepsPrefixes(dst: Store, src: Store, scope: Scope)
    ensures var r := Merged(dst, src, scope);
      forall s, k :: s in dst && k in dst[s] ==> s in r && k in r[s] && dst[s][k] <= r[s][k]
  {
  }

  /** Every section and key of `src` exists afterwards, even with an empty
      list; under every section and key the list is the old one followed by
      `src`'s values, re-tagged. */
  lemma MergedAppends(dst: Store, src: Store, scope: Scope, s: string, k: string)
    ensures s in src && k in src[s] ==> s in Merged(dst, src, scope) && k in Merged(dst, src, scope)[s]
    ensures ValuesAt(Merged(dst, src, scope), s, k) == ValuesAt(dst, s, k) + RetagAll(ValuesAt(src, s, k), scope)
  {
    if !(s in src && k in src[s]) {
      assert ValuesAt(dst, s, k) + [] == ValuesAt(dst, s, k);
    }
  }

  /** The name has at least one value (possibly the empty string). */
  predicate Sets(m: Store, key: string)
  {
    ValuesAt(m, ToSectionKey(key).0, ToSectionKey(key).1) != []
  }

  /** Last wins across a merge: a name that `src` gives a value reads, after
      the merge, what it reads in `src`; any other name reads what it read
      before. */
  lemma MergedGet(dst: Store, src: Store, scope: Scope, key: string)
    ensures Get(Merged(dst, src, scope), key) == if Sets(src, key) then Get(src, key) else Get(dst, key)
  {
    var (s, k) := ToSectionKey(key);
    MergedAppends(dst, src, scope, s, k);
    LastOfAppended(ValuesAt(dst, s, k), ValuesAt(src, s, k), scope);
  }

  /** The last value of a list with re-tagged values appended. */
  lemma LastOfAppended(mine: seq<ConfigValue>, theirs: seq<ConfigValue>, scope: Scope)
    ensures var all := mine + RetagAll(theirs, scope);
      && (theirs != [] ==> all[|all| - 1].value == theirs[|theirs| - 1].value)
      && (theirs == [] ==> all == mine)
  {
    var all := mine + RetagAll(theirs, scope);
    if theirs != [] {
      assert all[|all| - 1] == RetagAll(theirs, scope)[|theirs| - 1];
    } else {
      assert all == mine + [];
    }
  }

  /** All values stay visible: after the merge `GetAll` lists the values of
      `dst` and then those of `src`. */
  lemma MergedGetAll(dst: Store, src: Store, scope: Scope, key: string)
    requires GetRaw(src, key).Some?
    ensures var (s, k) := ToSectionKey(key);
      GetAll(Merged(dst, src, scope), key) == Some(ValuesOf(ValuesAt(dst, s, k)) + ValuesOf(src[s][k]))
  {
    var (s, k) := ToSectionKey(key);
    var theirs := RetagAll(src[s][k], scope);
    ValuesOfConcat(ValuesAt(dst, s, k), theirs);
    assert ValuesOf(theirs) == ValuesOf(src[s][k]);
  }

  /** The precedence of the layered sources: merging system, then global,
      then the repository's own configuration into an empty store, a name
      reads the value of the last layer that sets it. */
  lemma LayeredPrecedence(system: Store, global: Store, local: Store, key: string)
    ensures var all := Merged(Merged(Merged(map[], system, ScopeSystem), global, ScopeGlobal), local, ScopeSelf);
      Get(all, key) ==
        if Sets(local, key) then Get(local, key)
        else if Sets(global, key) then Get(global, key)
        else Get(system, key)
  {
    var m1 := Merged(map[], system, ScopeSystem);
    var m2 := Merged(m1, global, ScopeGlobal);
    MergedGet(map[], system, ScopeSystem, key);
    MergedGet(m1, global, ScopeGlobal, key);
    MergedGet(m2, local, ScopeSelf, key);
  }

  /** Merging a store whose list under a name is empty creates that entry
      with no value: the name is then present for `GetAll` (an empty list,
      not None) while `Get` reads "". */
  lemma MergedCanLeaveEmptyList(scope: Scope)
    ensures var r := Merged(map[], map["x" := map["y" := []]], scope);
      && GetAll(r, "x.y") == Some([])
      && Get(r, "x.y") == ""
  {
    XYKey();
    var r := Merged(map[], map["x" := map["y" := []]], scope);
    assert r["x"]["y"] == [] + RetagAll([], scope);
  }

  // ---------------------------------------------------------------------
  // Names for enumeration
  // ---------------------------------------------------------------------

  /** Every stored (section, key) pair. */
  ghost function Pairs(m: Store): set<(string, string)>
  {
    set s, k | s in m && k in m[s] :: (s, k)
  }

  /** The full name `Keys` lists for a pair. */
  function FullName(p: (string, string)): string
  {
    p.0 + "." + p.1
  }

  /** How many pairs of `ps` have the full name `x`. */
  ghost function NameCount(ps: set<(string, string)>, x: string): nat
  {
    |set p | p in ps && FullName(p) == x|
  }

  lemma NameCountAdd(ps: set<(string, string)>, p: (string, string), x: string)
    requires p !in ps
    ensures NameCount(ps + {p}, x) == NameCount(ps, x) + (if FullName(p) == x then 1 else 0)
  {
    var before := set q | q in ps && FullName(q) == x;
    var after := set q | q in ps + {p} && FullName(q) == x;
    if FullName(p) == x {
      assert after == before + {p};
    } else {
      assert after == before;
    }
  }

  /** No key holds a dot, as every key `Add` stores. */
  predicate DotFreeKeys(m: Store)
  {
    forall s, k :: s in m && k in m[s] ==> '.' !in k
  }

  /** With dot-free keys, no two pairs share a full name. */
  lemma NamesDistinct(m: Store, x: string)
    requires DotFreeKeys(m)
    ensures NameCount(Pairs(m), x) <= 1
  {
    var named := set q | q in Pairs(m) && FullName(q) == x;
    if |named| > 1 {
      var p :| p in named;
      assert |named - {p}| == |named| - 1;
      var q :| q in named - {p};
      LastDotUnique(p.0, p.1, q.0, q.1);
      assert false;
    }
  }

  /** `Add` keeps keys dot-free: the key `toSectionKey` gives has no dot. */
  lemma InsertedKeepsDotFree(m: Store, key: string, value: string)
    requires DotFreeKeys(m)
    ensures DotFreeKeys(Inserted(m, ToSectionKey(key).0, ToSectionKey(key).1, value))
  {
    var (s, k) := ToSectionKey(key);
    assert '.' !in k;
  }

  /** Merging two stores with dot-free keys keeps keys dot-free. */
  lemma MergedKeepsDotFree(dst: Store, src: Store, scope: Scope)
    requires DotFreeKeys(dst) && DotFreeKeys(src)
    ensures DotFreeKeys(Merged(dst, src, scope))
  {
  }
}
