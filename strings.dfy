/** The string operations of the Python runtime that the trace format relies on:
    `str.replace(' ', '_')`, `str.split()`, `str.rstrip()`, `str(n)`, `int(t)`,
    the ordering `<` of strings and `sorted` on distinct strings. */
module Strings {
  import opened Seqs

  // ---------------------------------------------------------------------
  // str.replace(' ', '_')
  // ---------------------------------------------------------------------

  /** Every space turned into an underscore, every other character kept. */
  function ReplaceSpaces(s: string): (r: string)
    ensures |r| == |s|
    ensures forall i :: 0 <= i < |s| ==> r[i] == (if s[i] == ' ' then '_' else s[i])
    ensures ' ' !in r
  {
    if s == [] then [] else [if s[0] == ' ' then '_' else s[0]] + ReplaceSpaces(s[1..])
  }

  // ---------------------------------------------------------------------
  // str.split() and str.rstrip()
  // ---------------------------------------------------------------------

  /** The ASCII characters for which Python's `str.isspace()` holds. */
  predicate IsSpace(c: char) {
    c == ' ' || ('\t' <= c <= '\r') || ('\U{001C}' <= c <= '\U{001F}')
  }

  /** A token of `str.split()`: non-empty and free of whitespace. */
  predicate IsToken(t: string) {
    t != [] && forall i :: 0 <= i < |t| ==> !IsSpace(t[i])
  }

  /** Length of the run of non-whitespace characters that starts `s`. */
  function TokenLen(s: string): (n: nat)
    ensures n <= |s|
    ensures forall i :: 0 <= i < n ==> !IsSpace(s[i])
    ensures n < |s| ==> IsSpace(s[n])
  {
    if s == [] || IsSpace(s[0]) then 0 else 1 + TokenLen(s[1..])
  }

  /** Python's `s.split()`: the maximal whitespace-free runs of `s`, in order. */
  function Split(s: string): (r: seq<string>)
    ensures forall k :: 0 <= k < |r| ==> IsToken(r[k])
    decreases |s|
  {
    if s == [] then []
    else if IsSpace(s[0]) then Split(s[1..])
    else
      var n := TokenLen(s);
      assert IsToken(s[..n]);
      [s[..n]] + Split(s[n..])
  }

  /** The tokens written with one space between consecutive ones. */
  function JoinSpaces(ts: seq<string>): string {
    if ts == [] then ""
    else if |ts| == 1 then ts[0]
    else ts[0] + " " + JoinSpaces(ts[1..])
  }

  lemma {:induction false} TokenLenOfToken(t: string, rest: string)
    requires IsToken(t)
    requires rest == [] || IsSpace(rest[0])
    ensures TokenLen(t + rest) == |t|
    decreases |t|
  {
    if |t| > 1 {
      assert (t + rest)[1..] == t[1..] + rest;
      TokenLenOfToken(t[1..], rest);
    } else {
      assert (t + rest)[1..] == rest;
    }
  }

  /** A lone token splits into itself. */
  lemma SplitToken(t: string)
    requires IsToken(t)
    ensures Split(t) == [t]
  {
    TokenLenOfToken(t, []);
    assert t + [] == t;
    assert t[..|t|] == t && t[|t|..] == [];
  }

  /** A token, a space and the rest split into the token and the rest's tokens. */
  lemma SplitTokenSpace(t: string, rest: string)
    requires IsToken(t)
    ensures Split(t + " " + rest) == [t] + Split(rest)
  {
    var line := t + " " + rest;
    assert line == t + (" " + rest);
    TokenLenOfToken(t, " " + rest);
    assert line[..|t|] == t;
    assert line[|t|..] == " " + rest;
    assert (" " + rest)[1..] == rest;
  }

  /** The joined text ends with the last token. */
  lemma {:induction false} JoinSpacesEndsWith(ts: seq<string>)
    requires ts != []
    ensures var j, t := JoinSpaces(ts), ts[|ts| - 1]; |t| <= |j| && j[|j| - |t|..] == t
  {
    if |ts| > 1 {
      var rest, t := JoinSpaces(ts[1..]), ts[|ts| - 1];
      JoinSpacesEndsWith(ts[1..]);
      var a := ts[0] + " ";
      assert (a + rest)[|a + rest| - |t|..] == rest[|rest| - |t|..];
    }
  }

  /** Splitting a space-joined line gives back its tokens. */
  lemma {:induction false} SplitJoin(ts: seq<string>)
    requires forall k :: 0 <= k < |ts| ==> IsToken(ts[k])
    ensures Split(JoinSpaces(ts)) == ts
  {
    if |ts| == 1 {
      SplitToken(ts[0]);
    } else if |ts| > 1 {
      SplitTokenSpace(ts[0], JoinSpaces(ts[1..]));
      SplitJoin(ts[1..]);
      assert ts == [ts[0]] + ts[1..];
    }
  }

  /** Python's `s.rstrip()`: `s` without its trailing whitespace. */
  function RStrip(s: string): (r: string)
    ensures r <= s
    ensures r == [] || !IsSpace(r[|r| - 1])
    ensures forall i :: |r| <= i < |s| ==> IsSpace(s[i])
  {
    if s != [] && IsSpace(s[|s| - 1]) then RStrip(s[..|s| - 1]) else s
  }

  // ---------------------------------------------------------------------
  // str(n) and int(t)
  // ---------------------------------------------------------------------

  predicate IsDigit(c: char) {
    '0' <= c <= '9'
  }

  predicate AllDigits(s: string) {
    forall i :: 0 <= i < |s| ==> IsDigit(s[i])
  }

  function DigitChar(d: nat): (c: char)
    requires d < 10
    ensures IsDigit(c) && c as int - '0' as int == d
  {
    (d + '0' as int) as char
  }

  /** Python's `str(n)` for a natural number: decimal digits without leading zeros. */
  function NatToString(n: nat): (s: string)
    ensures s != [] && AllDigits(s)
    ensures |s| > 1 ==> s[0] != '0'
    decreases n
  {
    if n < 10 then [DigitChar(n)] else NatToString(n / 10) + [DigitChar(n % 10)]
  }

  /** The number a string of decimal digits denotes. */
  function DigitsValue(s: string): nat
    requires AllDigits(s)
  {
    if s == [] then 0
    else 10 * DigitsValue(s[..|s| - 1]) + (s[|s| - 1] as int - '0' as int)
  }

  /** Python's `int(t)` on a whitespace-free token: an optional sign and one or
      more decimal digits; anything else raises `ValueError` (here `None`). */
  function ParseInt(t: string): Option<int> {
    if t != [] && (t[0] == '-' || t[0] == '+') then
      if |t| > 1 && AllDigits(t[1..]) then
        var v: int := DigitsValue(t[1..]);
        Some(if t[0] == '-' then -v else v)
      else None
    else if t != [] && AllDigits(t) then Some(DigitsValue(t))
    else None
  }

  /** Reading back a written number gives the number. */
  lemma {:induction false} ParseNatToString(n: nat)
    ensures ParseInt(NatToString(n)) == Some(n)
  {
    DigitsOfNat(n);
  }

  lemma {:induction false} DigitsOfNat(n: nat)
    ensures DigitsValue(NatToString(n)) == n
    decreases n
  {
    if n >= 10 {
      var s := NatToString(n);
      assert s[..|s| - 1] == NatToString(n / 10);
      DigitsOfNat(n / 10);
    }
  }

  // ---------------------------------------------------------------------
  // Ordering of strings and sorted()
  // ---------------------------------------------------------------------

  /** Python's `a < b` on strings: lexicographic by code point, a proper prefix first. */
  predicate StrLess(a: string, b: string) {
    if a == [] then b != []
    else if b == [] then false
    else if a[0] != b[0] then a[0] < b[0]
    else StrLess(a[1..], b[1..])
  }

  predicate StrLe(a: string, b: string) {
    a == b || StrLess(a, b)
  }

  lemma {:induction false} StrLessIrreflexive(a: string)
    ensures !StrLess(a, a)
  {
    if a != [] {
      StrLessIrreflexive(a[1..]);
    }
  }

  lemma {:induction false} StrLessTransitive(a: string, b: string, c: string)
    requires StrLess(a, b) && StrLess(b, c)
    ensures StrLess(a, c)
  {
    if a != [] && b != [] && c != [] && a[0] == b[0] && b[0] == c[0] {
      StrLessTransitive(a[1..], b[1..], c[1..]);
    }
  }

  lemma {:induction false} StrLessTotal(a: string, b: string)
    ensures a == b || StrLess(a, b) || StrLess(b, a)
  {
    if a != [] && b != [] && a[0] == b[0] {
      StrLessTotal(a[1..], b[1..]);
      if a[1..] == b[1..] {
        assert a == [a[0]] + a[1..] && b == [b[0]] + b[1..];
      }
    }
  }

  lemma StrLessAsymmetric(a: string, b: string)
    requires StrLess(a, b)
    ensures !StrLess(b, a)
  {
    if StrLess(b, a) {
      StrLessTransitive(a, b, a);
      StrLessIrreflexive(a);
    }
  }

  ghost predicate Ascending(s: seq<string>) {
    forall i, j :: 0 <= i < j < |s| ==> StrLe(s[i], s[j])
  }

  ghost predicate StrictlyAscending(s: seq<string>) {
    forall i, j :: 0 <= i < j < |s| ==> StrLess(s[i], s[j])
  }

  /** `x` placed before the first element it does not exceed. */
  function InsertSorted(x: string, s: seq<string>): seq<string> {
    if s == [] then [x]
    else if StrLe(x, s[0]) then [x] + s
    else [s[0]] + InsertSorted(x, s[1..])
  }

  /** Python's `sorted` on a list of strings (insertion sort). */
  function SortStrings(s: seq<string>): seq<string> {
    if s == [] then [] else InsertSorted(s[0], SortStrings(s[1..]))
  }

  /** A string no greater than the first of an ascending list can go in front. */
  lemma PrependAscending(x: string, s: seq<string>)
    requires Ascending(s) && s != [] && StrLe(x, s[0])
    ensures Ascending([x] + s)
  {
    forall j | 0 <= j < |s| ensures StrLe(x, s[j]) {
      if x != s[0] && 0 < j && s[0] != s[j] { StrLessTransitive(x, s[0], s[j]); }
    }
    var r := [x] + s;
    forall i, j | 0 <= i < j < |r| ensures StrLe(r[i], r[j]) {
      if i == 0 { assert r[j] == s[j - 1]; } else { assert r[i] == s[i - 1] && r[j] == s[j - 1]; }
    }
  }

  /** A string no greater than every element of an ascending list can go in front. */
  lemma PrependLeast(x: string, t: seq<string>)
    requires Ascending(t)
    requires forall y | y in multiset(t) :: StrLe(x, y)
    ensures Ascending([x] + t)
  {
    var r := [x] + t;
    forall i, j | 0 <= i < j < |r| ensures StrLe(r[i], r[j]) {
      assert r[j] == t[j - 1];
      assert t[j - 1] in multiset(t);
      if i > 0 { assert r[i] == t[i - 1]; }
    }
  }

  lemma AscendingTail(s: seq<string>)
    requires Ascending(s) && s != []
    ensures Ascending(s[1..])
  {
    var tl := s[1..];
    forall i, j | 0 <= i < j < |tl| ensures StrLe(tl[i], tl[j]) { assert tl[i] == s[i + 1] && tl[j] == s[j + 1]; }
  }

  /** The first element of an ascending list is no greater than any later one. */
  lemma HeadIsLeast(s: seq<string>)
    requires Ascending(s) && s != []
    ensures forall y | y in multiset(s[1..]) :: StrLe(s[0], y)
  {
    forall y | y in multiset(s[1..]) ensures StrLe(s[0], y) {
      var k :| 0 <= k < |s[1..]| && s[1..][k] == y;
      assert s[k + 1] == y;
    }
  }

  lemma {:induction false} InsertSortedFacts(x: string, s: seq<string>)
    requires Ascending(s)
    ensures multiset(InsertSorted(x, s)) == multiset(s) + multiset{x}
    ensures Ascending(InsertSorted(x, s))
  {
    if s == [] {
    } else if StrLe(x, s[0]) {
      PrependAscending(x, s);
    } else {
      var h, tl := s[0], s[1..];
      assert s == [h] + tl;
      AscendingTail(s);
      InsertSortedFacts(x, tl);
      var t := InsertSorted(x, tl);
      StrLessTotal(x, h);
      HeadIsLeast(s);
      assert forall y | y in multiset(t) :: y == x || y in multiset(tl);
      PrependLeast(h, t);
    }
  }

  /** `sorted` returns an ascending rearrangement of its input. */
  lemma {:induction false} SortStringsFacts(s: seq<string>)
    ensures multiset(SortStrings(s)) == multiset(s)
    ensures Ascending(SortStrings(s))
  {
    if s != [] {
      SortStringsFacts(s[1..]);
      InsertSortedFacts(s[0], SortStrings(s[1..]));
      assert s == [s[0]] + s[1..];
    }
  }

  lemma AscendingDistinctIsStrict(s: seq<string>)
    requires Ascending(s) && NoDuplicates(s)
    ensures StrictlyAscending(s)
  {
  }

  /** A finite set of strings has only one strictly ascending listing. */
  lemma {:induction false} StrictlyAscendingUnique(a: seq<string>, b: seq<string>)
    requires StrictlyAscending(a) && StrictlyAscending(b)
    requires forall x :: x in a <==> x in b
    ensures a == b
    decreases |a|
  {
    if a != [] { assert a[0] in b; }
    if b != [] { assert b[0] in a; }
    if a != [] && b != [] {
      var m :| 0 <= m < |b| && b[m] == a[0];
      var k :| 0 <= k < |a| && a[k] == b[0];
      if m != 0 && k != 0 {
        StrLessAsymmetric(a[0], a[k]);
        assert false;
      }
      StrLessTotal(a[0], b[0]);
      forall x ensures x in a[1..] <==> x in b[1..] {
        if x in a[1..] {
          var k :| 1 <= k < |a| && a[k] == x;
          StrLessIrreflexive(a[0]);
          assert x != a[0];
        }
        if x in b[1..] {
          var k :| 1 <= k < |b| && b[k] == x;
          StrLessIrreflexive(b[0]);
          assert x != b[0];
        }
        assert x in a <==> x == a[0] || x in a[1..];
        assert x in b <==> x == b[0] || x in b[1..];
      }
      StrictlyAscendingUnique(a[1..], b[1..]);
      assert a == [a[0]] + a[1..] && b == [b[0]] + b[1..];
    }
  }
}
