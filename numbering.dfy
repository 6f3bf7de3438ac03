/** The content ids of the trace format: walking a sequence of contents in
    order, each content gets an id when it is first met (1, 2, 3, ...) and
    keeps it; meeting it again marks a revert. */
module Numbering {
  import opened Seqs

  /** The id position `i` carries: one more than the place of its content
      among the distinct contents, in first-seen order. */
  function ContentId<T(==)>(cs: seq<T>, i: nat): (id: nat)
    requires i < |cs|
    ensures 1 <= id <= |Distinct(cs)|
  {
    1 + IndexOf(Distinct(cs), cs[i])
  }

  /** Position `i` repeats a content met at an earlier position. */
  predicate SeenBefore<T(==)>(cs: seq<T>, i: nat)
    requires i < |cs|
  {
    cs[i] in cs[..i]
  }

  lemma IndexOfAt<T>(s: seq<T>, x: T, k: nat)
    requires k < |s| && s[k] == x && x !in s[..k]
    ensures IndexOf(s, x) == k
  {
  }

  lemma IndexOfPrefix<T>(p: seq<T>, s: seq<T>, x: T)
    requires p <= s && x in p
    ensures x in s && IndexOf(s, x) == IndexOf(p, x)
  {
    var k := IndexOf(p, x);
    assert s[..k] == p[..k];
    IndexOfAt(s, x, k);
  }

  /** A content met for the first time at position `k` gets the next place
      among the distinct contents. */
  lemma NewContentPlace<T>(cs: seq<T>, k: nat)
    requires k < |cs| && cs[k] !in cs[..k]
    ensures cs[k] in Distinct(cs)
    ensures IndexOf(Distinct(cs), cs[k]) == |Distinct(cs[..k])|
    ensures Distinct(cs[..k + 1]) == Distinct(cs[..k]) + [cs[k]]
  {
    PrefixSnoc(cs, k);
    DistinctSnoc(cs[..k], cs[k]);
    DistinctPrefix(cs, k + 1);
    var d := Distinct(cs[..k + 1]);
    IndexOfAt(d, cs[k], |Distinct(cs[..k])|);
    IndexOfPrefix(d, Distinct(cs), cs[k]);
  }

  /** A content met again leaves the list of distinct contents as it was. */
  lemma OldContent<T>(cs: seq<T>, k: nat)
    requires k < |cs| && cs[k] in cs[..k]
    ensures Distinct(cs[..k + 1]) == Distinct(cs[..k])
  {
    PrefixSnoc(cs, k);
    DistinctSnoc(cs[..k], cs[k]);
  }

  /** The dict from content to id after the first `k` contents: it holds
      exactly those contents, each with its id among all of `cs`. */
  ghost predicate IdsSoFar<T>(cs: seq<T>, k: nat, revMapper: map<T, nat>, revCount: nat)
    requires k <= |cs|
  {
    && revCount == 1 + |Distinct(cs[..k])|
    && (forall c | c in revMapper :: c in cs[..k])
    && (forall c | c in cs[..k] :: c in revMapper)
    && (forall c | c in revMapper :: c in Distinct(cs) && revMapper[c] == 1 + IndexOf(Distinct(cs), c))
  }

  /** A new content enters the dict with the next id. */
  lemma NumberNew<T>(cs: seq<T>, k: nat, revMapper: map<T, nat>, revCount: nat)
    requires k < |cs| && IdsSoFar(cs, k, revMapper, revCount) && cs[k] !in revMapper
    ensures cs[k] !in cs[..k] && revCount == 1 + IndexOf(Distinct(cs), cs[k])
    ensures IdsSoFar(cs, k + 1, revMapper[cs[k] := revCount], revCount + 1)
  {
    var c0 := cs[k];
    PrefixSnoc(cs, k);
    NewContentPlace(cs, k);
    var m := revMapper[c0 := revCount];
    assert revCount + 1 == 1 + |Distinct(cs[..k + 1])|;
    forall c ensures c in m <==> c in cs[..k + 1] {
      assert c in cs[..k + 1] <==> c in cs[..k] || c == c0;
    }
    forall c | c in m ensures c in Distinct(cs) && m[c] == 1 + IndexOf(Distinct(cs), c) {
      if c != c0 {
        assert c in revMapper;
      }
    }
  }

  /** A content met before keeps its id. */
  lemma NumberOld<T>(cs: seq<T>, k: nat, revMapper: map<T, nat>, revCount: nat)
    requires k < |cs| && IdsSoFar(cs, k, revMapper, revCount) && cs[k] in revMapper
    ensures cs[k] in cs[..k] && cs[k] in Distinct(cs) && revMapper[cs[k]] == 1 + IndexOf(Distinct(cs), cs[k])
    ensures IdsSoFar(cs, k + 1, revMapper, revCount)
  {
    PrefixSnoc(cs, k);
    OldContent(cs, k);
    assert forall c :: c in revMapper <==> c in cs[..k + 1] by {
      forall c ensures c in revMapper <==> c in cs[..k + 1] {
        assert c in cs[..k + 1] <==> c in cs[..k] || c == cs[k];
      }
    }
  }

  /** Two positions carry the same id exactly when they carry the same content. */
  lemma ContentIdInjective<T>(cs: seq<T>, i: nat, j: nat)
    requires i < |cs| && j < |cs|
    ensures ContentId(cs, i) == ContentId(cs, j) <==> cs[i] == cs[j]
  {
    var d := Distinct(cs);
    if ContentId(cs, i) == ContentId(cs, j) {
      assert d[IndexOf(d, cs[i])] == cs[i] && d[IndexOf(d, cs[j])] == cs[j];
    }
  }

  /** A position is a revert exactly when an earlier position has its id. */
  lemma SeenBeforeSameId<T>(cs: seq<T>, i: nat)
    requires i < |cs|
    ensures SeenBefore(cs, i) <==> exists j :: 0 <= j < i && ContentId(cs, j) == ContentId(cs, i)
  {
    if SeenBefore(cs, i) {
      var j :| 0 <= j < i && cs[..i][j] == cs[i];
      ContentIdInjective(cs, j, i);
    }
    if exists j :: 0 <= j < i && ContentId(cs, j) == ContentId(cs, i) {
      var j :| 0 <= j < i && ContentId(cs, j) == ContentId(cs, i);
      ContentIdInjective(cs, j, i);
      assert cs[..i][j] == cs[i];
    }
  }

  /** The number of positions before `k` that meet their content for the first time. */
  function FreshCount<T(==)>(cs: seq<T>, k: nat): (n: nat)
    requires k <= |cs|
    ensures n <= k
  {
    if k == 0 then 0 else FreshCount(cs, k - 1) + (if SeenBefore(cs, k - 1) then 0 else 1)
  }

  /** The distinct contents before `k` are the first-time positions before `k`. */
  lemma {:induction false} FreshCountDistinct<T>(cs: seq<T>, k: nat)
    requires k <= |cs|
    ensures FreshCount(cs, k) == |Distinct(cs[..k])|
  {
    if k > 0 {
      FreshCountDistinct(cs, k - 1);
      if SeenBefore(cs, k - 1) {
        OldContent(cs, k - 1);
      } else {
        NewContentPlace(cs, k - 1);
      }
    }
  }

  /** A content met for the first time gets the next id: the first one gets 1,
      the second 2, and so on. */
  lemma FreshIdIsNext<T>(cs: seq<T>, i: nat)
    requires i < |cs| && !SeenBefore(cs, i)
    ensures ContentId(cs, i) == 1 + FreshCount(cs, i)
  {
    NewContentPlace(cs, i);
    FreshCountDistinct(cs, i);
  }

  /** The first position is never a revert and has id 1. */
  lemma FirstPosition<T>(cs: seq<T>)
    requires cs != []
    ensures !SeenBefore(cs, 0) && ContentId(cs, 0) == 1
  {
    FreshIdIsNext(cs, 0);
  }

  /** A content met again was first met at an earlier position. */
  lemma FirstMetBefore<T>(cs: seq<T>, i: nat)
    requires i < |cs| && SeenBefore(cs, i)
    ensures IndexOf(cs, cs[i]) < i
  {
    var j :| 0 <= j < i && cs[..i][j] == cs[i];
  }

  /** The id as the walk hands it out: a content met before keeps the id of
      its first position, a content met for the first time gets one more than
      the number of first meetings before it. */
  function WalkId<T(==)>(cs: seq<T>, i: nat): (id: nat)
    requires i < |cs|
    ensures id >= 1
    decreases i
  {
    if SeenBefore(cs, i) then
      FirstMetBefore(cs, i);
      WalkId(cs, IndexOf(cs, cs[i]))
    else 1 + FreshCount(cs, i)
  }

  /** Handing ids out on the walk gives every position its place among the
      distinct contents. */
  lemma {:induction false} WalkIdIsContentId<T>(cs: seq<T>, i: nat)
    requires i < |cs|
    ensures WalkId(cs, i) == ContentId(cs, i)
    decreases i
  {
    if SeenBefore(cs, i) {
      FirstMetBefore(cs, i);
      WalkIdIsContentId(cs, IndexOf(cs, cs[i]));
    } else {
      FreshIdIsNext(cs, i);
    }
  }
}
