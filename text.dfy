/** The string operations of Go's `strings` and `sort` packages that the
    configuration store relies on: splitting on and joining with a
    separator, trimming a cut set, ASCII lower-casing, and byte-wise
    lexicographic ordering and sorting. */
module Text {

  // ---------------------------------------------------------------------
  // Splitting and joining (strings.Split, strings.Join)
  // ---------------------------------------------------------------------

  /** `strings.Split(s, sep)` for a one-character separator: the pieces
      between separators, always at least one (the empty string gives [""]). */
  function Split(s: string, sep: char): (r: seq<string>)
    ensures |r| >= 1
    ensures forall i :: 0 <= i < |r| ==> sep !in r[i]
  {
    if s == [] then [""]
    else
      var rest := Split(s[1..], sep);
      if s[0] == sep then [""] + rest else [[s[0]] + rest[0]] + rest[1..]
  }

  /** `strings.Join(parts, sep)`. */
  function Join(parts: seq<string>, sep: char): string
  {
    if |parts| == 0 then ""
    else if |parts| == 1 then parts[0]
    else parts[0] + [sep] + Join(parts[1..], sep)
  }

  /** Joining the pieces of a split gives back the string. */
  lemma {:induction false} JoinSplit(s: string, sep: char)
    ensures Join(Split(s, sep), sep) == s
  {
    if s != [] {
      JoinSplit(s[1..], sep);
      var rest := Split(s[1..], sep);
      if s[0] == sep {
        assert Join([""] + rest, sep) == "" + [sep] + Join(rest, sep);
      } else if |rest| == 1 {
        assert [[s[0]] + rest[0]] + rest[1..] == [[s[0]] + rest[0]];
      } else {
        var parts := [[s[0]] + rest[0]] + rest[1..];
        assert parts[1..] == rest[1..];
        assert Join(rest, sep) == rest[0] + [sep] + Join(rest[1..], sep);
      }
    }
  }

  /** A string without the separator is split into itself alone. */
  lemma {:induction false} SplitWithoutSeparator(s: string, sep: char)
    requires sep !in s
    ensures Split(s, sep) == [s]
  {
    if s != [] {
      SplitWithoutSeparator(s[1..], sep);
      assert [s[0]] + s[1..] == s;
    }
  }

  /** The split of a string has one piece exactly when the separator does
      not occur in it. */
  lemma {:induction false} SplitSingle(s: string, sep: char)
    ensures |Split(s, sep)| == 1 <==> sep !in s
  {
    if s != [] {
      SplitSingle(s[1..], sep);
    }
  }

  /** Splitting `x sep y` with no separator in `x` splits off exactly `x`. */
  lemma {:induction false} SplitAtFirstSeparator(x: string, y: string, sep: char)
    requires sep !in x
    ensures Split(x + [sep] + y, sep) == [x] + Split(y, sep)
  {
    var s := x + [sep] + y;
    if x == [] {
      assert s[1..] == y;
    } else {
      assert s[1..] == x[1..] + [sep] + y;
      SplitAtFirstSeparator(x[1..], y, sep);
      assert [x[0]] + x[1..] == x;
    }
  }

  /** Splitting a join of separator-free pieces gives back the pieces. */
  lemma {:induction false} SplitJoin(parts: seq<string>, sep: char)
    requires |parts| >= 1
    requires forall i :: 0 <= i < |parts| ==> sep !in parts[i]
    ensures Split(Join(parts, sep), sep) == parts
  {
    if |parts| == 1 {
      SplitWithoutSeparator(parts[0], sep);
    } else {
      SplitJoin(parts[1..], sep);
      SplitAtFirstSeparator(parts[0], Join(parts[1..], sep), sep);
      assert [parts[0]] + parts[1..] == parts;
    }
  }

  /** Every character of a piece of a split is a character of the string. */
  lemma {:induction false} SplitPieceChars(s: string, sep: char, i: nat, c: char)
    requires i < |Split(s, sep)| && c in Split(s, sep)[i]
    ensures c in s
  {
    if s != [] {
      var rest := Split(s[1..], sep);
      if s[0] == sep {
        SplitPieceChars(s[1..], sep, i - 1, c);
      } else if i == 0 {
        if c != s[0] {
          SplitPieceChars(s[1..], sep, 0, c);
        }
      } else {
        SplitPieceChars(s[1..], sep, i, c);
      }
    }
  }

  /** Joining with one more piece at the end appends `sep` and the piece. */
  lemma {:induction false} JoinSnoc(parts: seq<string>, last: string, sep: char)
    requires |parts| >= 1
    ensures Join(parts + [last], sep) == Join(parts, sep) + [sep] + last
  {
    if |parts| == 1 {
      assert (parts + [last])[1..] == [last];
    } else {
      assert (parts + [last])[1..] == parts[1..] + [last];
      JoinSnoc(parts[1..], last, sep);
    }
  }

  // ---------------------------------------------------------------------
  // ASCII lower-casing (strings.ToLower restricted to ASCII)
  // ---------------------------------------------------------------------

  predicate IsUpper(c: char) { 'A' <= c <= 'Z' }

  function LowerChar(c: char): (r: char)
    ensures !IsUpper(r)
    ensures !IsUpper(c) ==> r == c
  {
    if IsUpper(c) then (c as int + 32) as char else c
  }

  /** `s` has no upper-case ASCII letter. */
  predicate NoUpper(s: string) { forall i :: 0 <= i < |s| ==> !IsUpper(s[i]) }

  function Lower(s: string): (r: string)
    ensures |r| == |s|
    ensures forall i :: 0 <= i < |s| ==> r[i] == LowerChar(s[i])
    ensures NoUpper(r)
  {
    if s == [] then [] else [LowerChar(s[0])] + Lower(s[1..])
  }

  /** Lower-casing an already lower-case string changes nothing. */
  lemma LowerOfNoUpper(s: string)
    requires NoUpper(s)
    ensures Lower(s) == s
  {
  }

  lemma LowerConcat(a: string, b: string)
    ensures Lower(a + b) == Lower(a) + Lower(b)
  {
  }

  predicate IsLetter(c: char) { 'A' <= c <= 'Z' || 'a' <= c <= 'z' }

  /** Splitting commutes with lower-casing whenever the separator is not a
      letter. */
  lemma {:induction false} SplitLower(s: string, sep: char)
    requires !IsLetter(sep)
    ensures Split(Lower(s), sep) == LowerAll(Split(s, sep))
  {
    if s != [] {
      SplitLower(s[1..], sep);
      assert Lower(s)[1..] == Lower(s[1..]);
      var rest := Split(s[1..], sep);
      if s[0] != sep {
        assert LowerChar(s[0]) != sep;
        assert Lower([s[0]] + rest[0]) == [LowerChar(s[0])] + Lower(rest[0]);
        assert LowerAll([[s[0]] + rest[0]] + rest[1..])
            == [Lower([s[0]] + rest[0])] + LowerAll(rest)[1..];
      } else {
        assert LowerAll([""] + rest) == [""] + LowerAll(rest);
      }
    }
  }

  function LowerAll(parts: seq<string>): (r: seq<string>)
    ensures |r| == |parts|
    ensures forall i :: 0 <= i < |parts| ==> r[i] == Lower(parts[i])
  {
    if parts == [] then [] else [Lower(parts[0])] + LowerAll(parts[1..])
  }

  /** Joining commutes with lower-casing whenever the separator is not a
      letter. */
  lemma {:induction false} JoinLower(parts: seq<string>, sep: char)
    requires !IsLetter(sep)
    ensures Join(LowerAll(parts), sep) == Lower(Join(parts, sep))
  {
    if |parts| > 1 {
      JoinLower(parts[1..], sep);
      assert LowerAll(parts)[1..] == LowerAll(parts[1..]);
      LowerConcat(parts[0], [sep]);
      LowerConcat(parts[0] + [sep], Join(parts[1..], sep));
    }
  }

  // ---------------------------------------------------------------------
  // Trimming the quote cut set (strings.Trim(k, "\"'"))
  // ---------------------------------------------------------------------

  predicate IsQuote(c: char) { c == '"' || c == '\'' }

  /** `strings.ContainsAny(s, "\"'")`. */
  predicate HasQuote(s: string) { exists i :: 0 <= i < |s| && IsQuote(s[i]) }

  /** The number of quote characters `s` starts with. */
  function LeadingQuotes(s: string): (n: nat)
    ensures n <= |s|
    ensures forall i :: 0 <= i < n ==> IsQuote(s[i])
    ensures n < |s| ==> !IsQuote(s[n])
  {
    if s != [] && IsQuote(s[0]) then 1 + LeadingQuotes(s[1..]) else 0
  }

  /** The number of quote characters `s` ends with. */
  function TrailingQuotes(s: string): (n: nat)
    ensures n <= |s|
    ensures forall i :: |s| - n <= i < |s| ==> IsQuote(s[i])
    ensures n < |s| ==> !IsQuote(s[|s| - n - 1])
  {
    if s != [] && IsQuote(s[|s| - 1]) then 1 + TrailingQuotes(s[..|s| - 1]) else 0
  }

  /** `s` neither starts nor ends with a quote character. */
  predicate Unquoted(s: string) { s == [] || (!IsQuote(s[0]) && !IsQuote(s[|s| - 1])) }

  /** `strings.Trim(s, "\"'")`: drops every leading and every trailing quote
      character; what is left is a slice of `s` between two runs of quotes. */
  function TrimQuotes(s: string): (r: string)
    ensures Unquoted(r)
    ensures forall c :: c in r ==> c in s
    ensures !HasQuote(s) ==> r == s
  {
    var t := s[LeadingQuotes(s)..];
    t[..|t| - TrailingQuotes(t)]
  }

  /** Where `TrimQuotes` cuts: the result is the part of `s` that follows
      its leading run of quotes and is followed by quotes only. With
      `Unquoted(TrimQuotes(s))` this leaves one possible result, so only
      the two end runs are removed. */
  lemma TrimQuotesCuts(s: string)
    ensures var r := TrimQuotes(s);
      && LeadingQuotes(s) + |r| <= |s|
      && r == s[LeadingQuotes(s)..LeadingQuotes(s) + |r|]
      && forall i :: LeadingQuotes(s) + |r| <= i < |s| ==> IsQuote(s[i])
  {
    var n := LeadingQuotes(s);
    var k := TrailingQuotes(s[n..]);
    TrimQuotesAt(s, n, k);
    SliceOfDrop(s, n, |s| - n - k);
    QuotesAfter(s, n, |s| - n - k);
  }

  /** Quotes at the end of `s[n..]` are quotes at the end of `s`. */
  lemma QuotesAfter(s: string, n: nat, m: nat)
    requires n + m <= |s|
    requires forall i :: m <= i < |s| - n ==> IsQuote(s[n..][i])
    ensures forall i :: n + m <= i < |s| ==> IsQuote(s[i])
  {
    forall i | n + m <= i < |s| ensures IsQuote(s[i]) {
      DropIndex(s, n, i);
    }
  }

  /** Trimming a string that already is unquoted changes nothing, so
      trimming is idempotent. */
  lemma TrimQuotesOfUnquoted(s: string)
    requires Unquoted(s)
    ensures TrimQuotes(s) == s
  {
  }

  /** `strings.Trim` applied to every piece. */
  function TrimQuotesAll(parts: seq<string>): (r: seq<string>)
    ensures |r| == |parts|
    ensures forall i :: 0 <= i < |parts| ==> r[i] == TrimQuotes(parts[i])
  {
    if parts == [] then [] else [TrimQuotes(parts[0])] + TrimQuotesAll(parts[1..])
  }

  lemma TrimQuotesIdempotent(s: string)
    ensures TrimQuotes(TrimQuotes(s)) == TrimQuotes(s)
  {
    TrimQuotesOfUnquoted(TrimQuotes(s));
  }

  lemma {:induction false} LeadingQuotesLower(s: string)
    ensures LeadingQuotes(Lower(s)) == LeadingQuotes(s)
  {
    if s != [] {
      assert Lower(s)[1..] == Lower(s[1..]);
      LeadingQuotesLower(s[1..]);
    }
  }

  lemma {:induction false} TrailingQuotesLower(s: string)
    ensures TrailingQuotes(Lower(s)) == TrailingQuotes(s)
  {
    if s != [] {
      assert Lower(s)[..|s| - 1] == Lower(s[..|s| - 1]);
      TrailingQuotesLower(s[..|s| - 1]);
    }
  }

  /** Trimming quotes commutes with lower-casing. */
  lemma TrimQuotesLower(s: string)
    ensures TrimQuotes(Lower(s)) == Lower(TrimQuotes(s))
  {
    var n := LeadingQuotes(s);
    var k := TrailingQuotes(s[n..]);
    TrimQuotesAt(s, n, k);
    var m := |s| - n - k;
    assert TrimQuotes(Lower(s)) == Lower(s)[n..][..m] by {
      LeadingQuotesLower(s);
      LowerDrop(s, n);
      TrailingQuotesLower(s[n..]);
      TrimQuotesAt(Lower(s), n, k);
    }
    assert Lower(s)[n..][..m] == Lower(s[n..][..m]) by {
      LowerDrop(s, n);
      LowerTake(s[n..], m);
    }
  }

  /** `TrimQuotes` keeps what lies between the two runs it cuts off. */
  lemma TrimQuotesAt(s: string, n: nat, k: nat)
    requires n == LeadingQuotes(s) && k == TrailingQuotes(s[n..])
    ensures n + k <= |s| && TrimQuotes(s) == s[n..][..|s| - n - k]
  {
  }

  /** Lower-casing commutes with dropping a prefix. */
  lemma LowerDrop(s: string, n: nat)
    requires n <= |s|
    ensures Lower(s)[n..] == Lower(s[n..])
  {
    forall i | 0 <= i < |s| - n
      ensures Lower(s)[n..][i] == Lower(s[n..])[i]
    {
      assert s[n..][i] == s[n + i];
    }
  }

  /** Lower-casing commutes with taking a prefix. */
  lemma LowerTake(s: string, n: nat)
    requires n <= |s|
    ensures Lower(s)[..n] == Lower(s[..n])
  {
    forall i | 0 <= i < n
      ensures Lower(s)[..n][i] == Lower(s[..n])[i]
    {
      assert s[..n][i] == s[i];
    }
  }

  // ---------------------------------------------------------------------
  // White space and prefixes (strings.TrimSpace, strings.HasPrefix)
  // ---------------------------------------------------------------------

  /** The code points `unicode.IsSpace` accepts, as inclusive ranges:
      '\t' to '\r', ' ', U+0085, U+00A0, and beyond Latin-1 the characters
      of the Unicode White_Space property. */
  const WhiteSpace: seq<(int, int)> := [
    (0x09, 0x0D), (0x20, 0x20), (0x85, 0x85), (0xA0, 0xA0), (0x1680, 0x1680),
    (0x2000, 0x200A), (0x2028, 0x2029), (0x202F, 0x202F), (0x205F, 0x205F),
    (0x3000, 0x3000)]

  /** `n` lies in one of `ranges`. */
  predicate InRanges(n: int, ranges: seq<(int, int)>)
  {
    ranges != [] && ((ranges[0].0 <= n <= ranges[0].1) || InRanges(n, ranges[1..]))
  }

  /** `unicode.IsSpace`. */
  predicate IsSpace(c: char)
  {
    InRanges(c as int, WhiteSpace)
  }

  /** A number outside every range is in none of them. */
  lemma {:induction false} OutsideRanges(n: int, ranges: seq<(int, int)>)
    requires forall i :: 0 <= i < |ranges| ==> n < ranges[i].0 || ranges[i].1 < n
    ensures !InRanges(n, ranges)
  {
    if ranges != [] {
      OutsideRanges(n, ranges[1..]);
    }
  }

  /** The printable ASCII characters other than the blank are not white
      space. */
  lemma PrintableNotSpace(c: char)
    requires '!' <= c <= '~'
    ensures !IsSpace(c)
  {
    OutsideRanges(c as int, WhiteSpace);
  }

  /** The number of white-space characters `s` starts with. */
  function LeadingSpace(s: string): (n: nat)
    ensures n <= |s|
    ensures forall i :: 0 <= i < n ==> IsSpace(s[i])
    ensures n < |s| ==> !IsSpace(s[n])
  {
    if s != [] && IsSpace(s[0]) then 1 + LeadingSpace(s[1..]) else 0
  }

  /** The number of white-space characters `s` ends with. */
  function TrailingSpace(s: string): (n: nat)
    ensures n <= |s|
    ensures forall i :: |s| - n <= i < |s| ==> IsSpace(s[i])
    ensures n < |s| ==> !IsSpace(s[|s| - n - 1])
  {
    if s != [] && IsSpace(s[|s| - 1]) then 1 + TrailingSpace(s[..|s| - 1]) else 0
  }

  /** `strings.TrimSpace`: `s` less the white space at either end; a
      string with none there is its own trimming. */
  function TrimSpace(s: string): (r: string)
    ensures r == [] || (!IsSpace(r[0]) && !IsSpace(r[|r| - 1]))
    ensures |r| <= |s|
    ensures s != [] && !IsSpace(s[0]) && !IsSpace(s[|s| - 1]) ==> r == s
  {
    var t := s[LeadingSpace(s)..];
    t[..|t| - TrailingSpace(t)]
  }

  /** Where `TrimSpace` cuts: the result is the part of `s` that follows
      its leading run of white space and is followed by white space only,
      which with the ends of the result not being white space leaves one
      possible result. */
  lemma TrimSpaceCuts(s: string)
    ensures var r := TrimSpace(s);
      && LeadingSpace(s) + |r| <= |s|
      && r == s[LeadingSpace(s)..LeadingSpace(s) + |r|]
      && forall i :: LeadingSpace(s) + |r| <= i < |s| ==> IsSpace(s[i])
  {
    var n := LeadingSpace(s);
    var k := TrailingSpace(s[n..]);
    assert TrimSpace(s) == s[n..][..|s| - n - k];
    SliceOfDrop(s, n, |s| - n - k);
    SpaceAfter(s, n, |s| - n - k);
  }

  /** White space at the end of `s[n..]` is white space at the end of
      `s`. */
  lemma SpaceAfter(s: string, n: nat, m: nat)
    requires n + m <= |s|
    requires forall i :: m <= i < |s| - n ==> IsSpace(s[n..][i])
    ensures forall i :: n + m <= i < |s| ==> IsSpace(s[i])
  {
    forall i | n + m <= i < |s| ensures IsSpace(s[i]) {
      DropIndex(s, n, i);
    }
  }

  /** Taking `m` characters after the first `n` is the slice from `n` to
      `n + m`. */
  lemma SliceOfDrop(s: string, n: nat, m: nat)
    requires n + m <= |s|
    ensures s[n..][..m] == s[n..n + m]
  {
    forall j | 0 <= j < m ensures s[n..][..m][j] == s[n..n + m][j] {
    }
  }

  /** Index `i` of `s` is index `i - n` of `s` without its first `n`
      characters. */
  lemma DropIndex(s: string, n: nat, i: nat)
    requires n <= i < |s|
    ensures s[n..][i - n] == s[i]
  {
  }

  predicate HasPrefix(s: string, prefix: string) { |prefix| <= |s| && s[..|prefix|] == prefix }

  predicate HasSuffix(s: string, suffix: string) { |suffix| <= |s| && s[|s| - |suffix|..] == suffix }

  // ---------------------------------------------------------------------
  // Ordering and sorting (sort.Strings)
  // ---------------------------------------------------------------------

  /** Lexicographic order on strings, character by character, which for
      UTF-8 text is the byte order `sort.Strings` uses. */
  predicate Le(a: string, b: string)
  {
    a == [] || (b != [] && (a[0] < b[0] || (a[0] == b[0] && Le(a[1..], b[1..]))))
  }

  lemma {:induction false} LeTotal(a: string, b: string)
    ensures Le(a, b) || Le(b, a)
  {
    if a != [] && b != [] && a[0] == b[0] {
      LeTotal(a[1..], b[1..]);
    }
  }

  lemma {:induction false} LeTransitive(a: string, b: string, c: string)
    requires Le(a, b) && Le(b, c)
    ensures Le(a, c)
  {
    if a != [] && a[0] == b[0] && b[0] == c[0] {
      LeTransitive(a[1..], b[1..], c[1..]);
    }
  }

  lemma {:induction false} LeAntisymmetric(a: string, b: string)
    requires Le(a, b) && Le(b, a)
    ensures a == b
  {
    if a != [] {
      LeAntisymmetric(a[1..], b[1..]);
      assert a == [a[0]] + a[1..] && b == [b[0]] + b[1..];
    }
  }

  predicate Sorted(s: seq<string>)
  {
    forall i, j :: 0 <= i < j < |s| ==> Le(s[i], s[j])
  }

  /** Sorted, and no string occurs twice. */
  predicate StrictlySorted(s: seq<string>)
  {
    forall i, j :: 0 <= i < j < |s| ==> Le(s[i], s[j]) && s[i] != s[j]
  }

  /** Inserts `x` into a sorted sequence at its place. */
  function InsertSorted(x: string, s: seq<string>): (r: seq<string>)
    requires Sorted(s)
    ensures Sorted(r)
    ensures multiset(r) == multiset(s) + multiset{x}
  {
    if s == [] then [x]
    else if Le(x, s[0]) then
      InsertFront(x, s);
      [x] + s
    else
      var rest := InsertSorted(x, s[1..]);
      InsertBehind(x, s, rest);
      [s[0]] + rest
  }

  lemma InsertFront(x: string, s: seq<string>)
    requires Sorted(s) && s != [] && Le(x, s[0])
    ensures Sorted([x] + s)
  {
    forall j | 0 < j < |s| ensures Le(x, s[j]) {
      LeTransitive(x, s[0], s[j]);
    }
  }

  lemma InsertBehind(x: string, s: seq<string>, rest: seq<string>)
    requires Sorted(s) && s != [] && !Le(x, s[0])
    requires Sorted(rest) && multiset(rest) == multiset(s[1..]) + multiset{x}
    ensures Sorted([s[0]] + rest)
    ensures multiset([s[0]] + rest) == multiset(s) + multiset{x}
  {
    LeTotal(x, s[0]);
    assert s == [s[0]] + s[1..];
    forall j | 0 <= j < |rest| ensures Le(s[0], rest[j]) {
      assert rest[j] in multiset(rest);
      if rest[j] != x {
        assert rest[j] in multiset(s[1..]);
        var k :| 0 <= k < |s[1..]| && s[1..][k] == rest[j];
        assert s[k + 1] == rest[j];
      }
    }
  }

  /** `sort.Strings` on a sequence: the result is sorted and a permutation
      of the input. */
  function SortStrings(s: seq<string>): (r: seq<string>)
    ensures Sorted(r)
    ensures multiset(r) == multiset(s)
  {
    if s == [] then []
    else
      assert s == [s[0]] + s[1..];
      InsertSorted(s[0], SortStrings(s[1..]))
  }

  /** A sorted sequence in which no string occurs twice is strictly sorted. */
  lemma SortedWithoutRepeats(s: seq<string>)
    requires Sorted(s)
    requires forall x :: multiset(s)[x] <= 1
    ensures StrictlySorted(s)
  {
    forall i, j | 0 <= i < j < |s|
      ensures s[i] != s[j]
    {
      assert s == s[..j] + [s[j]] + s[j + 1..];
      assert multiset(s)[s[j]] >= multiset(s[..j])[s[j]] + 1;
      assert s[i] in multiset(s[..j]);
    }
  }
}
