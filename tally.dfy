/** The per-article bookkeeping of `update_line` in src/m_stat.py: one light
    dump event line at a time, the editor token is given a dense integer id
    (0, 1, 2, ... in first-seen order), the editor's edit count goes up, and
    the editor id and the content id are appended to the article's orders. */
module EditTally {
  import opened Seqs
  import opened Strings
  import Numbering

  // ---------------------------------------------------------------------
  // Reference: the ids and counts a sequence of editor tokens determines
  // ---------------------------------------------------------------------

  /** The dense id of each token: its place among the distinct tokens, in
      first-seen order. */
  function FirstSeenIds(names: seq<string>): (ids: seq<nat>)
    ensures |ids| == |names|
  {
    if names == [] then []
    else FirstSeenIds(names[..|names| - 1]) + [IndexOf(Distinct(names), names[|names| - 1])]
  }

  /** Each editor id with the number of times it occurs. */
  function EditCounts(eds: seq<nat>): map<nat, nat> {
    map id | id in eds :: Count(eds, id)
  }

  /** A token met before keeps its place among the distinct tokens. */
  lemma PlaceKept(names: seq<string>, y: string, x: string)
    requires x in names
    ensures x in Distinct(names + [y]) && IndexOf(Distinct(names + [y]), x) == IndexOf(Distinct(names), x)
  {
    DistinctSnoc(names, y);
    Numbering.IndexOfPrefix(Distinct(names), Distinct(names + [y]), x);
  }

  /** A token met for the first time takes the next place. */
  lemma PlaceNew(names: seq<string>, y: string)
    requires y !in names
    ensures Distinct(names + [y]) == Distinct(names) + [y]
    ensures IndexOf(Distinct(names + [y]), y) == |Distinct(names)|
  {
    DistinctSnoc(names, y);
    Numbering.IndexOfAt(Distinct(names) + [y], y, |Distinct(names)|);
  }

  /** Every position carries the place of its token among all the distinct
      tokens, which is the content id of `Numbering` less one. */
  lemma {:induction false} FirstSeenIdsAt(names: seq<string>, k: nat)
    requires k < |names|
    ensures FirstSeenIds(names)[k] == IndexOf(Distinct(names), names[k])
    ensures FirstSeenIds(names)[k] == Numbering.ContentId(names, k) - 1
  {
    var p := names[..|names| - 1];
    if k < |p| {
      FirstSeenIdsAt(p, k);
      assert p[k] == names[k];
      PlaceInPrefix(names, |p|, names[k]);
    }
  }

  /** Ids run over 0 .. n-1 for n distinct tokens, each taken by some position. */
  lemma FirstSeenIdsDense(names: seq<string>)
    ensures forall k :: 0 <= k < |names| ==> FirstSeenIds(names)[k] < |Distinct(names)|
    ensures forall id :: 0 <= id < |Distinct(names)| ==> id in FirstSeenIds(names)
  {
    var d := Distinct(names);
    forall k | 0 <= k < |names| ensures FirstSeenIds(names)[k] < |d| {
      FirstSeenIdsAt(names, k);
    }
    forall id | 0 <= id < |d| ensures id in FirstSeenIds(names) {
      assert d[id] in d;
      var k :| 0 <= k < |names| && names[k] == d[id];
      FirstSeenIdsAt(names, k);
      IndexOfUnique(d, id);
      assert FirstSeenIds(names)[k] == id;
    }
  }

  /** Two positions share an id exactly when they share a token. */
  lemma FirstSeenIdsInjective(names: seq<string>, i: nat, j: nat)
    requires i < |names| && j < |names|
    ensures FirstSeenIds(names)[i] == FirstSeenIds(names)[j] <==> names[i] == names[j]
  {
    FirstSeenIdsAt(names, i);
    FirstSeenIdsAt(names, j);
    Numbering.ContentIdInjective(names, i, j);
  }

  /** The ids of a prefix are the prefix of the ids. */
  lemma {:induction false} FirstSeenIdsPrefix(names: seq<string>, k: nat)
    requires k <= |names|
    ensures FirstSeenIds(names[..k]) == FirstSeenIds(names)[..k]
  {
    forall i | 0 <= i < k ensures FirstSeenIds(names[..k])[i] == FirstSeenIds(names)[i] {
      FirstSeenIdsAt(names[..k], i);
      FirstSeenIdsAt(names, i);
      assert names[..k][i] == names[i];
      PlaceInPrefix(names, k, names[i]);
    }
  }

  lemma {:induction false} PlaceInPrefix(names: seq<string>, k: nat, x: string)
    requires k <= |names| && x in names[..k]
    ensures x in Distinct(names) && IndexOf(Distinct(names[..k]), x) == IndexOf(Distinct(names), x)
  {
    DistinctPrefix(names, k);
    Numbering.IndexOfPrefix(Distinct(names[..k]), Distinct(names), x);
  }

  /** One more edit under `x` raises the count of `x` by one. */
  lemma EditCountsSnoc(eds: seq<nat>, nums: map<nat, nat>, x: nat)
    requires nums == EditCounts(eds)
    ensures EditCounts(eds + [x]) == nums[x := (if x in nums then nums[x] else 0) + 1]
  {
    var a, b := EditCounts(eds + [x]), nums[x := (if x in nums then nums[x] else 0) + 1];
    forall id ensures id in a <==> id in b {
      assert id in eds + [x] <==> id in eds || id == x;
    }
    forall id | id in a ensures a[id] == b[id] {
      CountSnoc(eds, x, id);
      CountZero(eds, id);
    }
  }

  /** The structures `update_line` maintains: `editor_mapper`,
      `editor_count`, `num_edits_dict` and `editor_order`. */
  datatype Tracked = Tracked(mapper: map<string, nat>, count: nat, nums: map<nat, nat>, order: seq<nat>)

  /** The id `update_line` gives a token: its recorded id, or the next one. */
  function IdFor(t: Tracked, name: string): nat {
    if name in t.mapper then t.mapper[name] else t.count
  }

  /** One token recorded: a new token is mapped to the next id and the count
      goes up; the token's id gets one more edit and is appended to the order. */
  function Record(t: Tracked, name: string): Tracked {
    var id := IdFor(t, name);
    Tracked(t.mapper[name := id], t.count + (if name in t.mapper then 0 else 1),
            t.nums[id := (if id in t.nums then t.nums[id] else 0) + 1], t.order + [id])
  }

  /** The structures after recording the editor tokens `names` one by one,
      starting from empty ones. */
  function TrackOf(names: seq<string>): Tracked {
    if names == [] then Tracked(map[], 0, map[], [])
    else Record(TrackOf(names[..|names| - 1]), names[|names| - 1])
  }

  lemma TrackOfSnoc(names: seq<string>, name: string)
    ensures TrackOf(names + [name]) == Record(TrackOf(names), name)
  {
    assert (names + [name])[..|names|] == names;
  }

  /** What the recorded structures mean: every token seen maps to its place
      among the distinct tokens in first-seen order and no other token is
      mapped, the count is the number of distinct tokens, the order lists
      each token's id, and each id's edit count is its number of
      occurrences. */
  ghost predicate Means(names: seq<string>, t: Tracked) {
    && t.order == FirstSeenIds(names)
    && t.count == |Distinct(names)|
    && (forall x :: x in t.mapper <==> x in names)
    && (forall x | x in t.mapper :: t.mapper[x] == IndexOf(Distinct(names), x))
    && t.nums == EditCounts(t.order)
  }

  lemma MapperSnoc(names: seq<string>, t: Tracked, name: string)
    requires forall x :: x in t.mapper <==> x in names
    requires forall x | x in t.mapper :: t.mapper[x] == IndexOf(Distinct(names), x)
    requires t.count == |Distinct(names)|
    ensures var names', t' := names + [name], Record(t, name);
      && (forall x :: x in t'.mapper <==> x in names')
      && (forall x | x in t'.mapper :: t'.mapper[x] == IndexOf(Distinct(names'), x))
      && t'.count == |Distinct(names')|
  {
    var names', t' := names + [name], Record(t, name);
    PlaceAfter(names, name);
    forall x | x in t'.mapper ensures t'.mapper[x] == IndexOf(Distinct(names'), x) {
      if x != name {
        PlaceKept(names, name, x);
      }
    }
  }

  lemma MeansSnoc(names: seq<string>, t: Tracked, name: string)
    requires Means(names, t)
    ensures Means(names + [name], Record(t, name))
  {
    var names', t' := names + [name], Record(t, name);
    var id := IdFor(t, name);
    PlaceAfter(names, name);
    assert id == IndexOf(Distinct(names'), name);
    OrderSnoc(names, name);
    assert t'.order == FirstSeenIds(names');
    MapperSnoc(names, t, name);
    NumsSnoc(t, name);
  }

  lemma NumsSnoc(t: Tracked, name: string)
    requires t.nums == EditCounts(t.order)
    ensures Record(t, name).nums == EditCounts(Record(t, name).order)
  {
    EditCountsSnoc(t.order, t.nums, IdFor(t, name));
  }

  lemma {:induction false} TrackOfMeans(names: seq<string>)
    ensures Means(names, TrackOf(names))
  {
    if names != [] {
      var p := names[..|names| - 1];
      TrackOfMeans(p);
      assert names == p + [names[|names| - 1]];
      MeansSnoc(p, TrackOf(p), names[|names| - 1]);
    }
  }

  /** No edit is counted yet under the id a new token will get. */
  lemma FreshIdUnused(names: seq<string>)
    ensures TrackOf(names).count !in TrackOf(names).nums
  {
    var t := TrackOf(names);
    TrackOfMeans(names);
    if t.count in t.nums {
      var k :| 0 <= k < |t.order| && t.order[k] == t.count;
      FirstSeenIdsDense(names);
    }
  }

  /** A known token's id has a count. */
  lemma KnownIdCounted(names: seq<string>, name: string)
    requires name in TrackOf(names).mapper
    ensures TrackOf(names).mapper[name] in TrackOf(names).nums
  {
    TrackOfMeans(names);
    var k :| 0 <= k < |names| && names[k] == name;
    FirstSeenIdsAt(names, k);
  }

  /** The place a token has after it is recorded: its old place, or the
      next one. */
  lemma PlaceAfter(names: seq<string>, name: string)
    ensures name in Distinct(names + [name])
    ensures IndexOf(Distinct(names + [name]), name) == if name in names then IndexOf(Distinct(names), name) else |Distinct(names)|
    ensures |Distinct(names + [name])| == |Distinct(names)| + (if name in names then 0 else 1)
  {
    DistinctSnoc(names, name);
    if name in names {
      PlaceKept(names, name, name);
    } else {
      PlaceNew(names, name);
    }
  }

  lemma OrderSnoc(names: seq<string>, name: string)
    ensures FirstSeenIds(names + [name]) == FirstSeenIds(names) + [IndexOf(Distinct(names + [name]), name)]
  {
    assert (names + [name])[..|names|] == names;
  }

  // ---------------------------------------------------------------------
  // update_line
  // ---------------------------------------------------------------------

  /** The tracking structures of one article, as the caller of `update_line`
      holds them: `editor_mapper`, `editor_count`, `num_edits_dict`,
      `editor_order` and `rev_order`. `names` are the editor tokens seen so far. */
  class ArticleState {
    var editorMapper: map<string, nat>
    var editorCount: nat
    var numEdits: map<nat, nat>
    var editorOrder: seq<nat>
    var revOrder: seq<int>
    ghost var names: seq<string>

    function Structures(): Tracked
      reads this
    {
      Tracked(editorMapper, editorCount, numEdits, editorOrder)
    }

    /** The structures hold what the editor tokens seen so far determine. */
    ghost predicate Valid()
      reads this
    {
      Structures() == TrackOf(names)
    }

    /** The empty structures a new article starts with. */
    constructor ()
      ensures Valid()
      ensures Structures() == Tracked(map[], 0, map[], []) && revOrder == [] && names == []
    {
      editorMapper, editorCount, numEdits := map[], 0, map[];
      editorOrder, revOrder, names := [], [], [];
    }

    /** `update_line`: a line with fewer than four fields raises before
        anything changes; otherwise the editor token (field 4) is recorded -
        a new one gets the next id - and then the content id (field 3) is
        appended to `rev_order`, unless it is not an integer, which raises
        with the editor already recorded. On that raise the source keeps the
        changes to the shared `editor_mapper`, `num_edits_dict` and
        `editor_order`, but loses its local `editor_count` increment, which
        only the return value would have carried; this model keeps the
        increment. Unlike the mapper, the count is not read again after a
        raise, so no caller can tell the two apart. */
    method UpdateLine(line: string) returns (ok: bool)
      requires Valid()
      modifies this
      ensures Valid()
      ensures var fields := Split(line);
        && (|fields| < 4 ==> !ok && unchanged(this))
        && (|fields| >= 4 ==>
              && names == old(names) + [fields[3]]
              && Structures() == Record(old(Structures()), fields[3])
              && (ok <==> ParseInt(fields[2]).Some?)
              && revOrder == old(revOrder) + (if ok then [ParseInt(fields[2]).value] else []))
    {
      var fields := Split(line);
      if |fields| < 4 {
        return false;
      }
      var name := fields[3];
      ghost var before := Structures();
      TrackOfSnoc(names, name);
      var mapper, count, nums := editorMapper, editorCount, numEdits;
      if name !in mapper {
        FreshIdUnused(names);
        mapper := mapper[name := count];
        nums := nums[count := 0];
        count := count + 1;
      } else {
        KnownIdCounted(names, name);
      }
      var id := mapper[name];
      nums := nums[id := nums[id] + 1];
      assert Tracked(mapper, count, nums, editorOrder + [id]) == Record(before, name);
      editorMapper, editorCount, numEdits := mapper, count, nums;
      editorOrder := editorOrder + [id];
      names := names + [name];
      match ParseInt(fields[2])
      case None =>
        ok := false;
      case Some(n) =>
        revOrder := revOrder + [n];
        ok := true;
    }
  }
}
