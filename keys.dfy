/** Normalisation of a configuration variable name into the section and
    key it is stored under (`dequoteKey` and `toSectionKey`). */
module ConfigKeys {
  import opened Text

  /** `dequoteKey`: a name without quote characters is kept as it is;
      otherwise every dot-separated component loses all its leading and
      trailing quote characters, and the components are rejoined with ".". */
  function DequoteKey(key: string): (r: string)
    ensures !HasQuote(key) ==> r == key
    ensures Split(r, '.') == TrimQuotesAll(Split(key, '.'))
  {
    if !HasQuote(key) then
      UnquotedPieces(key);
      key
    else
      var parts := TrimQuotesAll(Split(key, '.'));
      forall i | 0 <= i < |parts| ensures '.' !in parts[i] {
        assert forall c :: c in parts[i] ==> c in Split(key, '.')[i];
      }
      SplitJoin(parts, '.');
      Join(parts, '.')
  }

  /** Without quote characters, trimming leaves every piece of the split
      as it is. */
  lemma UnquotedPieces(key: string)
    requires !HasQuote(key)
    ensures TrimQuotesAll(Split(key, '.')) == Split(key, '.')
  {
    var parts := Split(key, '.');
    forall i | 0 <= i < |parts| ensures TrimQuotes(parts[i]) == parts[i] {
      forall j | 0 <= j < |parts[i]| ensures !IsQuote(parts[i][j]) {
        SplitPieceChars(key, '.', i, parts[i][j]);
      }
    }
  }

  /** Every component of a name is unquoted. */
  predicate ComponentsUnquoted(name: string)
  {
    var parts := Split(name, '.');
    forall i :: 0 <= i < |parts| ==> Unquoted(parts[i])
  }

  /** A name whose components are all unquoted is its own dequoted form. */
  lemma DequoteKeyOfUnquoted(key: string)
    requires ComponentsUnquoted(key)
    ensures DequoteKey(key) == key
  {
    var parts := Split(key, '.');
    forall i | 0 <= i < |parts| ensures TrimQuotes(parts[i]) == parts[i] {
      TrimQuotesOfUnquoted(parts[i]);
    }
    assert TrimQuotesAll(parts) == parts;
    JoinSplit(key, '.');
  }

  /** Dequoting keeps the number of components, leaves each one unquoted,
      and is therefore idempotent. */
  lemma DequoteKeyIdempotent(key: string)
    ensures |Split(DequoteKey(key), '.')| == |Split(key, '.')|
    ensures ComponentsUnquoted(DequoteKey(key))
    ensures DequoteKey(DequoteKey(key)) == DequoteKey(key)
  {
    DequoteKeyOfUnquoted(DequoteKey(key));
  }

  /** Dequoting commutes with ASCII lower-casing. */
  lemma DequoteKeyLower(key: string)
    ensures DequoteKey(Lower(key)) == Lower(DequoteKey(key))
  {
    assert forall i :: 0 <= i < |key| ==> (IsQuote(Lower(key)[i]) <==> IsQuote(key[i]));
    if HasQuote(key) {
      var parts := Split(key, '.');
      SplitLower(key, '.');
      assert TrimQuotesAll(LowerAll(parts)) == LowerAll(TrimQuotesAll(parts)) by {
        forall i | 0 <= i < |parts| ensures TrimQuotes(Lower(parts[i])) == Lower(TrimQuotes(parts[i])) {
          TrimQuotesLower(parts[i]);
        }
      }
      JoinLower(TrimQuotesAll(parts), '.');
    }
  }

  /** The lower-cased, dequoted form of a name, which `toSectionKey` splits. */
  function Normalised(name: string): string
  {
    Lower(DequoteKey(name))
  }

  /** `toSectionKey`: the last dot component of the normalised name is the
      key and the components before it, rejoined with ".", the section; a
      name with fewer than two components gives ("", ""). Both parts are
      lower case and the key never contains a dot. */
  function ToSectionKey(name: string): (r: (string, string))
    ensures '.' !in Normalised(name) ==> r == ("", "")
    ensures '.' in Normalised(name) ==> r.0 + "." + r.1 == Normalised(name) && '.' !in r.1
    ensures NoUpper(r.0) && NoUpper(r.1)
  {
    var n := Normalised(name);
    var items := Split(n, '.');
    SplitSingle(n, '.');
    if |items| < 2 then ("", "")
    else
      SplitAtLastDot(n);
      NoUpperAroundDot(Join(items[..|items| - 1], '.'), items[|items| - 1]);
      (Join(items[..|items| - 1], '.'), items[|items| - 1])
  }

  /** The pieces before the last one, rejoined, the separator and the last
      piece make up the string again. */
  lemma SplitAtLastDot(n: string)
    requires |Split(n, '.')| >= 2
    ensures var items := Split(n, '.');
      Join(items[..|items| - 1], '.') + "." + items[|items| - 1] == n
  {
    var items := Split(n, '.');
    var key := items[|items| - 1];
    assert items[..|items| - 1] + [key] == items;
    JoinSnoc(items[..|items| - 1], key, '.');
    JoinSplit(n, '.');
  }

  lemma NoUpperAroundDot(a: string, b: string)
    requires NoUpper(a + "." + b)
    ensures NoUpper(a) && NoUpper(b)
  {
    var x := a + "." + b;
    assert forall i :: 0 <= i < |a| ==> a[i] == x[i];
    assert forall i :: 0 <= i < |b| ==> b[i] == x[|a| + 1 + i];
  }

  lemma DotInLongerKey(a: string, b: string, c: string, d: string)
    requires a + "." + b == c + "." + d
    requires |b| < |d|
    ensures '.' in d
  {
    var x := a + "." + b;
    assert x[|x| - |b| - 1] == '.';
    assert x[|x| - |b| - 1] == d[|d| - |b| - 1];
  }

  /** A string splits at its last dot in only one way. */
  lemma LastDotUnique(a: string, b: string, c: string, d: string)
    requires a + "." + b == c + "." + d
    requires '.' !in b && '.' !in d
    ensures a == c && b == d
  {
    var x := a + "." + b;
    if |b| < |d| {
      DotInLongerKey(a, b, c, d);
      assert false;
    } else if |d| < |b| {
      DotInLongerKey(c, d, a, b);
      assert false;
    }
    assert a == x[..|a|] && c == x[..|c|];
    assert b == x[|a| + 1..] && d == x[|c| + 1..];
  }

  /** A section and a key that are already in normal form are found again
      when joined with "." and normalised. */
  lemma {:induction false} ToSectionKeyOfJoined(section: string, key: string)
    requires NoUpper(section) && NoUpper(key) && '.' !in key
    requires ComponentsUnquoted(section + "." + key)
    ensures ToSectionKey(section + "." + key) == (section, key)
  {
    var name := section + "." + key;
    DequoteKeyOfUnquoted(name);
    assert NoUpper(name);
    LowerOfNoUpper(name);
    assert name[|section|] == '.';
    var r := ToSectionKey(name);
    LastDotUnique(r.0, r.1, section, key);
  }

  /** A name with neither quote characters nor upper-case letters splits
      at its last dot. */
  lemma ToSectionKeyOfPlain(section: string, key: string)
    requires !HasQuote(section + "." + key) && NoUpper(section + "." + key) && '.' !in key
    ensures ToSectionKey(section + "." + key) == (section, key)
  {
    var name := section + "." + key;
    LowerOfNoUpper(name);
    assert name[|section|] == '.';
    var r := ToSectionKey(name);
    LastDotUnique(r.0, r.1, section, key);
  }

  /** Normalisation is stable: the section and key of a name, joined again,
      normalise to the same section and key. */
  lemma ToSectionKeyStable(name: string)
    ensures ToSectionKey(ToSectionKey(name).0 + "." + ToSectionKey(name).1) == ToSectionKey(name)
  {
    var r := ToSectionKey(name);
    if '.' in Normalised(name) {
      NormalisedUnquoted(name);
    } else {
      assert r == ("", "");
      assert ComponentsUnquoted("" + "." + "");
    }
    ToSectionKeyOfJoined(r.0, r.1);
  }

  /** The components of a normalised name are unquoted. */
  lemma NormalisedUnquoted(name: string)
    ensures ComponentsUnquoted(Normalised(name))
  {
    var d := DequoteKey(name);
    DequoteKeyIdempotent(name);
    SplitLower(d, '.');
    var parts := Split(Lower(d), '.');
    forall i | 0 <= i < |parts| ensures Unquoted(parts[i]) {
      var p := Split(d, '.')[i];
      assert parts[i] == Lower(p);
      assert Unquoted(p);
    }
  }

  /** Names that differ only in ASCII case have the same section and key. */
  lemma ToSectionKeyIgnoresCase(name: string)
    ensures ToSectionKey(Lower(name)) == ToSectionKey(name)
  {
    DequoteKeyLower(name);
    LowerOfNoUpper(Lower(DequoteKey(name)));
  }
}
