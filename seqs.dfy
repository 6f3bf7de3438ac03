/** Sequence utilities shared by the encoder and the M-statistic engine. */
module Seqs {

  datatype Option<T> = None | Some(value: T)

  /** The sequence read back to front (Python's `s[::-1]`). */
  function Reverse<T>(s: seq<T>): (r: seq<T>)
    ensures |r| == |s|
    ensures forall i :: 0 <= i < |s| ==> r[i] == s[|s| - 1 - i]
  {
    if s == [] then [] else Reverse(s[1..]) + [s[0]]
  }

  lemma ReverseReverse<T>(s: seq<T>)
    ensures Reverse(Reverse(s)) == s
  {
  }

  lemma ReverseAppend<T>(s: seq<T>, x: T)
    ensures Reverse(s + [x]) == [x] + Reverse(s)
  {
  }

  /** A first element followed by `s` read back to front. */
  lemma ConsReverse<T>(x: T, s: seq<T>)
    ensures |[x] + Reverse(s)| == 1 + |s| && ([x] + Reverse(s))[0] == x
    ensures forall t :: 1 <= t <= |s| ==> ([x] + Reverse(s))[t] == s[|s| - t]
  {
  }

  /** The distinct elements of `s`, each at the place of its first occurrence. */
  function Distinct<T(==)>(s: seq<T>): (d: seq<T>)
    ensures forall x | x in d :: x in s
    ensures forall x | x in s :: x in d
    ensures NoDuplicates(d)
    ensures |d| <= |s|
  {
    if s == [] then []
    else
      var d := Distinct(s[..|s| - 1]);
      var x := s[|s| - 1];
      assert s == s[..|s| - 1] + [x];
      if x in d then d else d + [x]
  }

  ghost predicate NoDuplicates<T>(s: seq<T>) {
    forall i, j :: 0 <= i < j < |s| ==> s[i] != s[j]
  }

  /** Index of the (only) occurrence of `x` in a sequence without duplicates. */
  function IndexOf<T(==)>(s: seq<T>, x: T): (k: nat)
    requires x in s
    ensures k < |s| && s[k] == x
    ensures x !in s[..k]
  {
    if s[0] == x then 0 else 1 + IndexOf(s[1..], x)
  }

  lemma IndexOfUnique<T>(s: seq<T>, k: nat)
    requires NoDuplicates(s) && k < |s|
    ensures IndexOf(s, s[k]) == k
  {
  }

  /** Growing the input only extends the list of its distinct elements. */
  lemma {:induction false} DistinctPrefix<T>(s: seq<T>, i: nat)
    requires i <= |s|
    ensures Distinct(s[..i]) <= Distinct(s)
    decreases |s| - i
  {
    if i < |s| {
      DistinctPrefix(s, i + 1);
      assert s[..i + 1][..i] == s[..i];
    } else {
      assert s[..i] == s;
    }
  }

  /** The prefix of length `j + 1` is the prefix of length `j` and then `s[j]`. */
  lemma PrefixSnoc<T>(s: seq<T>, j: nat)
    requires j < |s|
    ensures s[..j + 1] == s[..j] + [s[j]]
  {
  }

  /** Dropping the last element of `a + b` drops the last element of `b`. */
  lemma AppendDropLast<T>(a: seq<T>, b: seq<T>)
    requires b != []
    ensures (a + b)[..|a + b| - 1] == a + b[..|b| - 1]
    ensures (a + b)[|a + b| - 1] == b[|b| - 1]
  {
  }

  /** A value found at two positions occurs at least twice. */
  lemma TwoOccurrences<T>(s: seq<T>, i: nat, j: nat)
    requires i < j < |s| && s[i] == s[j]
    ensures multiset(s)[s[i]] >= 2
  {
    assert s == s[..j] + [s[j]] + s[j + 1..];
    assert s[i] in multiset(s[..j]);
  }

  /** Without duplicates every value occurs at most once. */
  lemma {:induction false} NoDuplicatesOnce<T>(s: seq<T>, x: T)
    requires NoDuplicates(s)
    ensures multiset(s)[x] <= 1
  {
    if s != [] {
      var p := s[..|s| - 1];
      assert s == p + [s[|s| - 1]];
      assert NoDuplicates(p);
      NoDuplicatesOnce(p, x);
      if x == s[|s| - 1] {
        assert x !in multiset(p);
      }
    }
  }

  /** A rearrangement of a sequence without duplicates has none either. */
  lemma PermutationNoDuplicates<T>(a: seq<T>, d: seq<T>)
    requires multiset(a) == multiset(d) && NoDuplicates(d)
    ensures NoDuplicates(a)
  {
    forall i, j | 0 <= i < j < |a| ensures a[i] != a[j] {
      if a[i] == a[j] {
        TwoOccurrences(a, i, j);
        NoDuplicatesOnce(d, a[i]);
      }
    }
  }

  lemma DistinctSnoc<T>(s: seq<T>, x: T)
    ensures Distinct(s + [x]) == if x in s then Distinct(s) else Distinct(s) + [x]
  {
    assert (s + [x])[..|s + [x]| - 1] == s;
  }

  /** Occurrences of `x` in `s`. */
  function Count<T(==)>(s: seq<T>, x: T): nat {
    if s == [] then 0
    else Count(s[..|s| - 1], x) + (if s[|s| - 1] == x then 1 else 0)
  }

  lemma CountSnoc<T>(s: seq<T>, y: T, x: T)
    ensures Count(s + [y], x) == Count(s, x) + (if y == x then 1 else 0)
  {
    assert (s + [y])[..|s + [y]| - 1] == s;
  }

  lemma {:induction false} CountZero<T>(s: seq<T>, x: T)
    ensures Count(s, x) == 0 <==> x !in s
  {
    if s != [] {
      var p := s[..|s| - 1];
      CountZero(p, x);
      assert s == p + [s[|s| - 1]];
      assert x in s <==> x in p || x == s[|s| - 1];
    }
  }

  /** The concatenation of a sequence of sequences. */
  function Concat<T>(ss: seq<seq<T>>): seq<T> {
    if ss == [] then [] else Concat(ss[..|ss| - 1]) + ss[|ss| - 1]
  }

  lemma ConcatSnoc<T>(ss: seq<seq<T>>, s: seq<T>)
    ensures Concat(ss + [s]) == Concat(ss) + s
  {
    assert (ss + [s])[..|ss + [s]| - 1] == ss;
  }

  /** `f` of every non-empty prefix of `s`, shortest first. */
  function PrefixMap<T, R>(f: seq<T> -> R, s: seq<T>): (r: seq<R>)
    ensures |r| == |s|
    ensures forall k :: 0 <= k < |s| ==> r[k] == f(s[..k + 1])
  {
    seq(|s|, k requires 0 <= k < |s| => f(s[..k + 1]))
  }

  /** The images of the prefixes of a prefix are a prefix of the images. */
  lemma PrefixMapPrefix<T, R>(f: seq<T> -> R, s: seq<T>, n: nat)
    requires n <= |s|
    ensures PrefixMap(f, s[..n]) == PrefixMap(f, s)[..n]
  {
    forall k | 0 <= k < n
      ensures PrefixMap(f, s[..n])[k] == PrefixMap(f, s)[k]
    {
      assert s[..n][..k + 1] == s[..k + 1];
    }
  }

  /** One more element adds the image of the whole sequence. */
  lemma PrefixMapSnoc<T, R>(f: seq<T> -> R, s: seq<T>, x: T)
    ensures PrefixMap(f, s + [x]) == PrefixMap(f, s) + [f(s + [x])]
  {
    var t := s + [x];
    assert t[..|s|] == s;
    PrefixMapPrefix(f, t, |s|);
    var r := PrefixMap(f, t);
    assert r == r[..|s|] + [r[|s|]];
    assert t[..|s| + 1] == t;
  }
}
