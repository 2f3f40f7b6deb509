/** `GitConfig` as an object: the store it holds is updated in place by
    `Add`, `_add`, `Merge` and a value's `Set`; `GetAll` and `Keys` walk it
    with loops. Each method is proved against the function of module
    ConfigStore that specifies it. */
module GitConfigs {
  import opened Base
  import opened Text
  import opened Scopes
  import opened ConfigKeys
  import opened ConfigStore

  /** A section whose keys and lists are those `MergedSection` gives is
      that section. */
  lemma SectionMerged(cur: Section, dst: Section, src: Section, scope: Scope)
    requires forall j :: j in cur <==> j in dst || j in src
    requires forall j :: j in cur ==> cur[j] == MergedEntry(dst, src, j, scope)
    ensures cur == MergedSection(dst, src, scope)
  {
    var m := MergedSection(dst, src, scope);
    assert cur.Keys == m.Keys;
    forall j | j in cur ensures cur[j] == m[j] {
    }
  }

  /** Listing the name of one more pair keeps the list counting the pairs
      named by each string. */
  lemma CountNewName(all: seq<string>, done: set<(string, string)>, p: (string, string))
    requires p !in done
    requires forall x :: multiset(all)[x] == NameCount(done, x)
    ensures forall x :: multiset(all + [FullName(p)])[x] == NameCount(done + {p}, x)
  {
    forall x | true ensures multiset(all + [FullName(p)])[x] == NameCount(done + {p}, x) {
      NameCountAdd(done, p, x);
    }
  }

  /** What `Keys` promises of the sorted list of collected names. */
  lemma SortedNames(m: Store, all: seq<string>)
    requires forall x :: multiset(all)[x] == NameCount(Pairs(m), x)
    ensures var r := SortStrings(all);
      && (forall x :: multiset(r)[x] == NameCount(Pairs(m), x))
      && (DotFreeKeys(m) ==> StrictlySorted(r))
      && (m == map[] ==> r == [])
  {
    var r := SortStrings(all);
    if DotFreeKeys(m) {
      forall x | true ensures multiset(r)[x] <= 1 {
        NamesDistinct(m, x);
      }
      SortedWithoutRepeats(r);
    }
    if m == map[] {
      assert Pairs(m) == {};
      forall x | true ensures multiset(r)[x] == 0 {
        assert (set p | p in Pairs(m) && FullName(p) == x) == {};
      }
      assert multiset(r) == multiset{};
    }
  }

  /** A store whose sections are those `Merged` gives is that store. */
  lemma StoreMerged(cur: Store, dst: Store, src: Store, scope: Scope)
    requires forall t :: t in cur <==> t in dst || t in src
    requires forall t :: t in cur ==> cur[t] == if t in src then MergedSection(SectionAt(dst, t), src[t], scope) else dst[t]
    ensures cur == Merged(dst, src, scope)
  {
    var m := Merged(dst, src, scope);
    assert cur.Keys == m.Keys;
    forall t | t in cur ensures cur[t] == m[t] {
    }
  }

  class GitConfig {
    var store: Store

    /** `NewGitConfig`: an empty configuration. */
    constructor ()
      ensures store == map[]
    {
      store := map[];
    }

    /** `_add`: append `value` (scope 0) to the list under `section` and
        `key`, creating the section and the key entry when missing. */
    method AddEntry(section: string, key: string, value: string)
      modifies this
      ensures store == Inserted(old(store), section, key, value)
    {
      var m := store;
      if section !in m {
        m := m[section := map[]];
      }
      var keys := m[section];
      if key !in keys {
        keys := keys[key := []];
      }
      assert keys[key] == ValuesAt(old(store), section, key);
      keys := keys[key := keys[key] + [ConfigValue(0, value)]];
      assert keys == SectionAt(old(store), section)[key := ValuesAt(old(store), section, key) + [ConfigValue(0, value)]];
      store := m[section := keys];
    }

    /** `Add`: `_add` under the section and key the name normalises to. */
    method Add(key: string, value: string)
      modifies this
      ensures store == Inserted(old(store), ToSectionKey(key).0, ToSectionKey(key).1, value)
      ensures Get(store, key) == value
      ensures DotFreeKeys(old(store)) ==> DotFreeKeys(store)
    {
      var (s, k) := ToSectionKey(key);
      AddEntry(s, k, value);
      GetAfterAdd(old(store), key, key, value);
      if DotFreeKeys(old(store)) {
        InsertedKeepsDotFree(old(store), key, value);
      }
    }

    /** `GetAll` as the source computes it: the values under the
        normalised name, appended one by one in a loop, or None when the
        section or key entry is missing. It is the imperative counterpart
        of the function `ConfigStore.GetAll`, which specifies it and which
        the other reads and the lemmas use. */
    method GetAll(key: string) returns (r: Option<seq<string>>)
      ensures r == ConfigStore.GetAll(store, key)
    {
      var (s, k) := ToSectionKey(key);
      if s in store && k in store[s] {
        var list := store[s][k];
        var values: seq<string> := [];
        var i := 0;
        while i < |list|
          invariant 0 <= i <= |list|
          invariant values == ValuesOf(list[..i])
        {
          assert list[..i + 1][..i] == list[..i];
          values := values + [list[i].value];
          i := i + 1;
        }
        assert list[..i] == list;
        r := Some(values);
      } else {
        r := None;
      }
    }

    /** `(*GitConfigValue).Set` applied to the `index`-th value `GetRaw(key)`
        returns: that value's text changes, its scope and every other value
        stay. */
    method SetValue(key: string, index: nat, value: string)
      requires GetRaw(store, key).Some? && index < |GetRaw(store, key).value|
      modifies this
      ensures var (s, k) := ToSectionKey(key);
        store == old(store)[s := old(store)[s][k := old(store)[s][k][index := ConfigValue(old(store)[s][k][index].scope, value)]]]
    {
      var (s, k) := ToSectionKey(key);
      var list := store[s][k];
      store := store[s := store[s][k := list[index := ConfigValue(list[index].scope, value)]]];
    }

    /** `Merge`: append every value of `c`, re-tagged with `scope`, to the
        list under the same section and key here, creating missing sections
        and key entries; `c` is read as it was when the merge started, so a
        configuration may be merged into itself. Returns this configuration. */
    method Merge(c: GitConfig, scope: Scope) returns (r: GitConfig)
      modifies this
      ensures r == this
      ensures store == Merged(old(store), old(c.store), scope)
      ensures c != this ==> c.store == old(c.store)
    {
      var src := c.store;
      ghost var dst := store;
      var sections := src.Keys;
      while sections != {}
        invariant sections <= src.Keys
        invariant forall t :: t in store <==> t in dst || (t in src && t !in sections)
        invariant forall t :: t in store ==>
          store[t] == if t in src && t !in sections then MergedSection(SectionAt(dst, t), src[t], scope) else dst[t]
        decreases |sections|
      {
        var s :| s in sections;
        assert SectionAt(store, s) == SectionAt(dst, s);
        MergeSectionInto(s, src[s], scope);
        sections := sections - {s};
      }
      StoreMerged(store, dst, src, scope);
      r := this;
    }

    /** One section of `Merge`: every key of `keys`, with its values
        re-tagged, appended under section `s`. */
    method MergeSectionInto(s: string, keys: Section, scope: Scope)
      modifies this
      ensures store == old(store)[s := MergedSection(SectionAt(old(store), s), keys, scope)]
    {
      ghost var before := SectionAt(old(store), s);
      var section := if s in store then store[s] else map[];
      var pending := keys.Keys;
      while pending != {}
        invariant store == old(store)
        invariant pending <= keys.Keys
        invariant forall j :: j in section <==> j in before || (j in keys && j !in pending)
        invariant forall j :: j in section ==>
          section[j] == if j in keys && j !in pending then MergedList(ListAt(before, j), keys[j], scope) else before[j]
        decreases |pending|
      {
        var k :| k in pending;
        if k !in section {
          section := section[k := []];
        }
        var list := AppendRetagged(section[k], keys[k], scope);
        section := section[k := list];
        pending := pending - {k};
      }
      SectionMerged(section, before, keys, scope);
      store := store[s := section];
    }

    /** The innermost loop of `Merge`: `values` re-tagged, one by one,
        after `list`. */
    static method AppendRetagged(list: seq<ConfigValue>, values: seq<ConfigValue>, scope: Scope)
      returns (r: seq<ConfigValue>)
      ensures r == MergedList(list, values, scope)
    {
      r := list;
      var i := 0;
      while i < |values|
        invariant 0 <= i <= |values|
        invariant r == list + RetagAll(values[..i], scope)
      {
        assert values[..i + 1][..i] == values[..i];
        r := r + [Retag(values[i], scope)];
        i := i + 1;
      }
      assert values[..i] == values;
    }

    /** `Keys`: the full name "section.key" of every stored pair, each once
        per pair (an entry with no value included), sorted; the names are
        distinct when no key holds a dot, as `Add` guarantees. */
    method Keys() returns (r: seq<string>)
      ensures Sorted(r)
      ensures forall x :: multiset(r)[x] == NameCount(Pairs(store), x)
      ensures DotFreeKeys(store) ==> StrictlySorted(r)
      ensures store == map[] ==> r == []
    {
      var all: seq<string> := [];
      ghost var done: set<(string, string)> := {};
      var sections := store.Keys;
      while sections != {}
        invariant sections <= store.Keys
        invariant forall p :: p in done <==> p in Pairs(store) && p.0 !in sections
        invariant forall x :: multiset(all)[x] == NameCount(done, x)
        decreases |sections|
      {
        var s :| s in sections;
        var keys := store[s].Keys;
        while keys != {}
          invariant keys <= store[s].Keys
          invariant forall p :: p in done <==> p in Pairs(store) && (p.0 !in sections || (p.0 == s && p.1 !in keys))
          invariant forall x :: multiset(all)[x] == NameCount(done, x)
          decreases |keys|
        {
          var k :| k in keys;
          CountNewName(all, done, (s, k));
          all := all + [FullName((s, k))];
          done := done + {(s, k)};
          keys := keys - {k};
        }
        sections := sections - {s};
      }
      assert done == Pairs(store);
      r := SortStrings(all);
      SortedNames(store, all);
    }
  }
}
