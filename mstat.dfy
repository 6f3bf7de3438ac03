/** The M-statistic of one article's edit history (`get_m_stat` in
    src/m_stat.py). The history is read oldest first as a sequence of content
    ids with the editor of each edit. An id smaller than the next fresh id is
    a revert to an earlier version. A revert counts as a mutual revert between
    the reverting editor and the editor who first changed that version, with
    strength min(edits of one, edits of the other), unless it is skipped. The
    statistic sums the strengths below the largest one and multiplies by the
    number of editors involved in reverts both ways. */
module MStatistic {
  import opened Seqs

  /** Editors are the dense integer ids given out as editors first appear. */
  type Editor = nat

  function Min(a: nat, b: nat): nat { if a <= b then a else b }
  function Max(a: nat, b: nat): nat { if a <= b then b else a }

  // ---------------------------------------------------------------------
  // What each position of the history contributes
  // ---------------------------------------------------------------------

  /** The non-revert positions among the first `k`: each one takes the next
      fresh id. */
  function NonReverts(ids: seq<int>, k: nat): nat
    requires k <= |ids|
    decreases k, 1
  {
    if k == 0 then 0 else NonReverts(ids, k - 1) + (if IsRevertAt(ids, k - 1) then 0 else 1)
  }

  /** Position `i` is a revert when its id is below the next fresh id, which is
      one more than the number of earlier non-revert positions. */
  predicate IsRevertAt(ids: seq<int>, i: nat)
    requires i < |ids|
    decreases i + 1, 0
  {
    ids[i] < 1 + NonReverts(ids, i)
  }

  /** The last non-revert position before `k` that carries `id`. */
  function LastIndex(ids: seq<int>, k: nat, id: int): (r: Option<nat>)
    requires k <= |ids|
    ensures r.Some? ==> r.value < k && ids[r.value] == id && !IsRevertAt(ids, r.value)
    ensures r.Some? ==> forall j :: r.value < j < k ==> IsRevertAt(ids, j) || ids[j] != id
    ensures r.None? ==> forall j :: 0 <= j < k ==> IsRevertAt(ids, j) || ids[j] != id
  {
    if k == 0 then None
    else if !IsRevertAt(ids, k - 1) && ids[k - 1] == id then Some(k - 1)
    else LastIndex(ids, k - 1, id)
  }

  /** A counted revert: who reverted, whose edit was undone, and the strength. */
  datatype Revert = Revert(reverter: Editor, reverted: Editor, strength: nat)

  /** What position `i` contributes: a counted revert, or nothing when it is
      not a revert, when its id was never a fresh id, when the next position
      carries the same id, when the reverted editor (the one right after the
      reverted-to version) is the reverting editor, or when an editor has no
      edit count. */
  function CountedAt(ids: seq<int>, eds: seq<Editor>, nums: map<Editor, nat>, i: nat): (r: Option<Revert>)
    requires i < |ids| == |eds|
    ensures r.Some? ==> r.value.reverter == eds[i] && r.value.reverter != r.value.reverted
  {
    if !IsRevertAt(ids, i) then None
    else match LastIndex(ids, i, ids[i])
      case None => None
      case Some(j) =>
        var prev, cur := eds[j + 1], eds[i];
        if (i + 1 < |ids| && ids[i + 1] == ids[i]) || prev == cur || prev !in nums || cur !in nums then None
        else Some(Revert(cur, prev, Min(nums[prev], nums[cur])))
  }

  /** The counted reverts among the first `k` positions, in order. */
  function Pairs(ids: seq<int>, eds: seq<Editor>, nums: map<Editor, nat>, k: nat): (P: seq<Revert>)
    requires k <= |ids| == |eds|
    ensures forall q :: 0 <= q < |P| ==> P[q].reverter != P[q].reverted
  {
    if k == 0 then []
    else
      var P := Pairs(ids, eds, nums, k - 1);
      match CountedAt(ids, eds, nums, k - 1)
        case None => P
        case Some(r) => P + [r]
  }

  function Strengths(P: seq<Revert>): (ms: seq<nat>)
    ensures |ms| == |P|
    ensures forall q :: 0 <= q < |P| ==> ms[q] == P[q].strength
  {
    if P == [] then [] else Strengths(P[..|P| - 1]) + [P[|P| - 1].strength]
  }

  /** `e` reverted `f` in one of the counted reverts. */
  ghost predicate Reverted(P: seq<Revert>, e: Editor, f: Editor) {
    exists q :: 0 <= q < |P| && P[q].reverter == e && P[q].reverted == f
  }

  /** The editors who reverted someone who also reverted them, in either order. */
  function MutualOf(P: seq<Revert>): set<Editor> {
    set q, l | 0 <= q < |P| && 0 <= l < |P| && P[q].reverter == P[l].reverted && P[q].reverted == P[l].reverter
      :: P[q].reverter
  }

  /** The largest value, or 0 for none. */
  function MaxOf(ms: seq<nat>): nat {
    if ms == [] then 0 else Max(MaxOf(ms[..|ms| - 1]), ms[|ms| - 1])
  }

  /** The sum of the values different from `top`. */
  function SumExcept(ms: seq<nat>, top: nat): nat {
    if ms == [] then 0
    else SumExcept(ms[..|ms| - 1], top) + (if ms[|ms| - 1] == top then 0 else ms[|ms| - 1])
  }

  /** The sum of the values that lie in `S`, and how many there are. */
  function SumIn(ms: seq<nat>, S: set<nat>): nat {
    if ms == [] then 0 else SumIn(ms[..|ms| - 1], S) + (if ms[|ms| - 1] in S then ms[|ms| - 1] else 0)
  }

  function CountIn(ms: seq<nat>, S: set<nat>): nat {
    if ms == [] then 0 else CountIn(ms[..|ms| - 1], S) + (if ms[|ms| - 1] in S then 1 else 0)
  }

  // ---------------------------------------------------------------------
  // The result
  // ---------------------------------------------------------------------

  datatype ExtraStats = ExtraStats(numEdits: nat, numReverts: nat, numEditors: nat, numMutual: nat)

  /** The source returns `0` when no revert counts, and otherwise `[[score]]`,
      followed by the extra statistics when they are asked for. */
  datatype MStatResult = NoReverts | Scored(score: nat, extra: Option<ExtraStats>)

  function EditorsOf(eds: seq<Editor>): set<Editor> {
    set k | 0 <= k < |eds| :: eds[k]
  }

  /** The statistic of a history read oldest first. */
  function MStatOf(ids: seq<int>, eds: seq<Editor>, nums: map<Editor, nat>, extra: bool): MStatResult
    requires |ids| == |eds|
  {
    var P := Pairs(ids, eds, nums, |ids|);
    var ms := Strengths(P);
    if P == [] then NoReverts
    else
      Scored(SumExcept(ms, MaxOf(ms)) * |MutualOf(P)|,
             if extra then Some(ExtraStats(|ids|, |ms|, |EditorsOf(eds)|, |MutualOf(P)|)) else None)
  }

  // ---------------------------------------------------------------------
  // Facts about the reference
  // ---------------------------------------------------------------------

  /** The largest strength is one of the strengths, and no strength exceeds it. */
  lemma {:induction false} MaxOfIsMax(ms: seq<nat>)
    ensures ms != [] ==> MaxOf(ms) in ms
    ensures forall x | x in ms :: x <= MaxOf(ms)
  {
    if ms != [] {
      var p := ms[..|ms| - 1];
      MaxOfIsMax(p);
      assert ms == p + [ms[|ms| - 1]];
    }
  }

  /** When every counted revert has the same strength, nothing is left after
      the largest bucket is removed. */
  lemma {:induction false} SumExceptAllTop(ms: seq<nat>, top: nat)
    requires forall x | x in ms :: x == top
    ensures SumExcept(ms, top) == 0
  {
    if ms != [] {
      var p := ms[..|ms| - 1];
      assert forall x | x in p :: x in ms;
      assert ms[|ms| - 1] in ms;
      SumExceptAllTop(p, top);
    }
  }

  /** An editor is mutual exactly when it reverted some other editor who also
      reverted it, whichever revert came first. */
  lemma MutualOfMeaning(P: seq<Revert>, e: Editor)
    requires forall q :: 0 <= q < |P| ==> P[q].reverter != P[q].reverted
    ensures e in MutualOf(P) <==> exists f :: f != e && Reverted(P, e, f) && Reverted(P, f, e)
  {
    if e in MutualOf(P) {
      var q, l :| 0 <= q < |P| && 0 <= l < |P| && P[q].reverter == P[l].reverted && P[q].reverted == P[l].reverter
        && P[q].reverter == e;
      assert Reverted(P, e, P[q].reverted) && Reverted(P, P[q].reverted, e);
    }
    if exists f :: f != e && Reverted(P, e, f) && Reverted(P, f, e) {
      var f :| f != e && Reverted(P, e, f) && Reverted(P, f, e);
      var q :| 0 <= q < |P| && P[q].reverter == e && P[q].reverted == f;
      var l :| 0 <= l < |P| && P[l].reverter == f && P[l].reverted == e;
      assert P[q].reverter in MutualOf(P);
    }
  }

  /** A history of one edit has no revert to count. */
  lemma OneEditNoReverts(ids: seq<int>, eds: seq<Editor>, nums: map<Editor, nat>, extra: bool)
    requires |ids| == |eds| == 1
    ensures MStatOf(ids, eds, nums, extra) == NoReverts
  {
    assert Pairs(ids, eds, nums, 1) == [];
  }

  /** Ids 1, 1, 2, 1 by editors 0, 1, 0, 1 with two edits each: both reverts
      are by editor 1, and the editor after the reverted-to version is editor
      1 too, so both are self-reverts and nothing counts. */
  lemma AlternatingSelfReverts()
    ensures Pairs([1, 1, 2, 1], [0, 1, 0, 1], map[0 := 2, 1 := 2], 4) == []
    ensures MStatOf([1, 1, 2, 1], [0, 1, 0, 1], map[0 := 2, 1 := 2], false) == NoReverts
  {
    var ids, eds, nums := [1, 1, 2, 1], [0, 1, 0, 1], map[0 := 2, 1 := 2];
    assert NonReverts(ids, 1) == 1 && NonReverts(ids, 3) == 2;
    assert LastIndex(ids, 1, 1) == Some(0) && LastIndex(ids, 3, 1) == Some(0);
    assert CountedAt(ids, eds, nums, 1) == None && CountedAt(ids, eds, nums, 3) == None;
  }

  /** `0` comes back exactly when no revert counts; otherwise the extra
      statistics are there exactly when asked for, and count the edits, the
      counted reverts, the distinct editors and the mutual editors. */
  lemma MStatOfShape(ids: seq<int>, eds: seq<Editor>, nums: map<Editor, nat>, extra: bool)
    requires |ids| == |eds|
    ensures var r, P := MStatOf(ids, eds, nums, extra), Pairs(ids, eds, nums, |ids|);
      && (r == NoReverts <==> P == [])
      && (r.Scored? ==> (r.extra.Some? <==> extra))
      && (r.Scored? && extra ==>
            r.extra.value == ExtraStats(|ids|, |P|, |EditorsOf(eds)|, |MutualOf(P)|))
  {
  }

  /** The score is zero when every counted revert has the same strength: the
      largest bucket is all there is. */
  lemma {:induction false} ScoreZeroOneStrength(ids: seq<int>, eds: seq<Editor>, nums: map<Editor, nat>, extra: bool,
                                                 P: seq<Revert>)
    requires |ids| == |eds| && P == Pairs(ids, eds, nums, |ids|)
    requires forall q, l :: 0 <= q < |P| && 0 <= l < |P| ==> P[q].strength == P[l].strength
    ensures MStatOf(ids, eds, nums, extra).Scored? ==> MStatOf(ids, eds, nums, extra).score == 0
  {
    var ms := Strengths(P);
    if P != [] {
      MaxOfIsMax(ms);
      var q :| 0 <= q < |ms| && ms[q] == MaxOf(ms);
      forall x | x in ms ensures x == MaxOf(ms) {
        var i :| 0 <= i < |ms| && ms[i] == x;
        assert P[i].strength == P[q].strength;
      }
      SumExceptAllTop(ms, MaxOf(ms));
    }
  }

  /** The score is zero when no counted revert is answered by one in the
      opposite direction. */
  lemma ScoreZeroNoMutual(ids: seq<int>, eds: seq<Editor>, nums: map<Editor, nat>, extra: bool, P: seq<Revert>)
    requires |ids| == |eds| && P == Pairs(ids, eds, nums, |ids|)
    requires forall q, l :: 0 <= q < |P| && 0 <= l < |P| ==> !(P[q].reverter == P[l].reverted && P[q].reverted == P[l].reverter)
    ensures MStatOf(ids, eds, nums, extra).Scored? ==> MStatOf(ids, eds, nums, extra).score == 0
  {
    assert MutualOf(P) == {};
  }

  // ---------------------------------------------------------------------
  // Summing over the histogram
  // ---------------------------------------------------------------------

  lemma {:induction false} InEmpty(ms: seq<nat>)
    ensures CountIn(ms, {}) == 0 && SumIn(ms, {}) == 0
  {
    if ms != [] {
      InEmpty(ms[..|ms| - 1]);
    }
  }

  lemma {:induction false} CountInAdd(ms: seq<nat>, S: set<nat>, m: nat)
    requires m !in S
    ensures CountIn(ms, S + {m}) == CountIn(ms, S) + Count(ms, m)
  {
    if ms != [] {
      CountInAdd(ms[..|ms| - 1], S, m);
    }
  }

  lemma {:induction false} SumInAdd(ms: seq<nat>, S: set<nat>, m: nat)
    requires m !in S
    ensures SumIn(ms, S + {m}) == SumIn(ms, S) + m * Count(ms, m)
  {
    if ms != [] {
      var p := ms[..|ms| - 1];
      SumInAdd(p, S, m);
      if ms[|ms| - 1] == m {
        assert m * Count(ms, m) == m * Count(p, m) + m;
      }
    }
  }

  lemma {:induction false} CountInAll(ms: seq<nat>, S: set<nat>)
    requires forall x | x in ms :: x in S
    ensures CountIn(ms, S) == |ms|
  {
    if ms != [] {
      var p := ms[..|ms| - 1];
      assert forall x | x in p :: x in ms;
      CountInAll(p, S);
    }
  }

  lemma {:induction false} SumInExcept(ms: seq<nat>, S: set<nat>, top: nat)
    requires forall x | x in ms :: (x in S <==> x != top)
    ensures SumIn(ms, S) == SumExcept(ms, top)
  {
    if ms != [] {
      var p := ms[..|ms| - 1];
      assert forall x | x in p :: x in ms;
      SumInExcept(p, S, top);
    }
  }

  /** `sum(m_val_dict.values())`: the number of values the histogram counts. */
  method SumCounts(h: map<nat, nat>, ghost ms: seq<nat>) returns (total: nat)
    requires forall m | m in h :: h[m] == Count(ms, m)
    ensures total == CountIn(ms, h.Keys)
  {
    total := 0;
    var keys, done := h.Keys, {};
    InEmpty(ms);
    while keys != {}
      invariant keys + done == h.Keys && keys !! done
      invariant total == CountIn(ms, done)
      decreases |keys|
    {
      var m :| m in keys;
      CountInAdd(ms, done, m);
      done := done + {m};
      total := total + h[m];
      keys := keys - {m};
    }
  }

  /** `sum([k * v for k, v in m_val_dict.items()])`: the sum of the values the
      histogram counts. */
  method SumWeights(h: map<nat, nat>, ghost ms: seq<nat>) returns (total: nat)
    requires forall m | m in h :: h[m] == Count(ms, m)
    ensures total == SumIn(ms, h.Keys)
  {
    total := 0;
    var keys, done := h.Keys, {};
    InEmpty(ms);
    while keys != {}
      invariant keys + done == h.Keys && keys !! done
      invariant total == SumIn(ms, done)
      decreases |keys|
    {
      var m :| m in keys;
      SumInAdd(ms, done, m);
      done := done + {m};
      total := total + m * h[m];
      keys := keys - {m};
    }
  }

  // ---------------------------------------------------------------------
  // The loop of `get_m_stat`, one position at a time
  // ---------------------------------------------------------------------

  /** The loop's variables: `next_val`, `rev_map`, `m_val_dict`, `mutual_revs`,
      `mutual_revs_editors` and `max_m_val`. */
  datatype MState = MState(nextVal: int, revMap: map<int, nat>, mVals: map<nat, nat>,
                              mutualRevs: map<Editor, set<Editor>>, mutualEditors: set<Editor>, maxMVal: nat)

  /** Recording one counted revert. */
  function Absorb(st: MState, r: Revert): MState {
    var m, cur, prev := r.strength, r.reverter, r.reverted;
    var revs := st.mutualRevs[cur := (if cur in st.mutualRevs then st.mutualRevs[cur] else {}) + {prev}];
    MState(st.nextVal, st.revMap, st.mVals[m := (if m in st.mVals then st.mVals[m] else 0) + 1], revs,
           if prev in revs && cur in revs[prev] then st.mutualEditors + {cur, prev} else st.mutualEditors,
           Max(st.maxMVal, m))
  }

  /** One pass of the loop body at position `i`. A missing `rev_map` entry or
      edit count (`KeyError`) and an index past the end leave the state as it
      was. */
  function MStep(st: MState, ids: seq<int>, eds: seq<Editor>, nums: map<Editor, nat>, i: nat): MState
    requires i < |ids| == |eds|
  {
    var id := ids[i];
    if id < st.nextVal then
      if id !in st.revMap || st.revMap[id] + 1 >= |eds| then st
      else
        var prev, cur := eds[st.revMap[id] + 1], eds[i];
        if (i + 1 < |ids| && ids[i + 1] == id) || prev == cur || prev !in nums || cur !in nums then st
        else Absorb(st, Revert(cur, prev, Min(nums[prev], nums[cur])))
    else st.(revMap := st.revMap[id := i], nextVal := st.nextVal + 1)
  }

  function MStart(): MState {
    MState(1, map[], map[], map[], {}, 0)
  }

  /** The state after the first `k` positions. */
  function MRun(ids: seq<int>, eds: seq<Editor>, nums: map<Editor, nat>, k: nat): MState
    requires k <= |ids| == |eds|
  {
    if k == 0 then MStart() else MStep(MRun(ids, eds, nums, k - 1), ids, eds, nums, k - 1)
  }

  /** `next_val` and `rev_map` after `k` positions: one more than the number of
      non-reverts, and each id's last non-revert position. */
  ghost predicate Tracks(ids: seq<int>, k: nat, st: MState)
    requires k <= |ids|
  {
    && st.nextVal == 1 + NonReverts(ids, k)
    && (forall id :: id in st.revMap <==> LastIndex(ids, k, id).Some?)
    && (forall id | id in st.revMap :: st.revMap[id] == LastIndex(ids, k, id).value)
  }

  /** `h` counts the occurrences of each value of `ms`, and `top` is the
      largest value. */
  ghost predicate Histogram(ms: seq<nat>, h: map<nat, nat>, top: nat) {
    && (forall m :: m in h <==> m in ms)
    && (forall m | m in h :: h[m] == Count(ms, m))
    && top == MaxOf(ms)
  }

  /** The other variables after the counted reverts `P`: the histogram of
      strengths, the largest strength, who reverted whom, and the mutual
      editors. */
  ghost predicate Tallies(P: seq<Revert>, st: MState) {
    && Histogram(Strengths(P), st.mVals, st.maxMVal)
    && (forall e, f :: (e in st.mutualRevs && f in st.mutualRevs[e]) <==> Reverted(P, e, f))
    && st.mutualEditors == MutualOf(P)
  }

  lemma StrengthsSnoc(P: seq<Revert>, r: Revert)
    ensures Strengths(P + [r]) == Strengths(P) + [r.strength]
  {
    assert (P + [r])[..|P|] == P;
  }

  lemma RevertedSnoc(P: seq<Revert>, r: Revert, e: Editor, f: Editor)
    ensures Reverted(P + [r], e, f) <==> Reverted(P, e, f) || (e == r.reverter && f == r.reverted)
  {
    var P' := P + [r];
    if Reverted(P, e, f) {
      var q :| 0 <= q < |P| && P[q].reverter == e && P[q].reverted == f;
      assert P'[q] == P[q];
    }
    if e == r.reverter && f == r.reverted {
      assert P'[|P|] == r;
    }
    if Reverted(P', e, f) {
      var q :| 0 <= q < |P'| && P'[q].reverter == e && P'[q].reverted == f;
      if q < |P| {
        assert P[q] == P'[q];
      }
    }
  }

  /** A new revert makes its two editors mutual when the reverted editor had
      already reverted the reverter, and nobody else. */
  lemma MutualSnoc(P: seq<Revert>, r: Revert)
    requires r.reverter != r.reverted
    ensures MutualOf(P + [r]) == MutualOf(P) + (if Reverted(P, r.reverted, r.reverter) then {r.reverter, r.reverted} else {})
  {
    var P' := P + [r];
    var extra := if Reverted(P, r.reverted, r.reverter) then {r.reverter, r.reverted} else {};
    forall x | x in MutualOf(P')
      ensures x in MutualOf(P) + extra
    {
      var q, l :| 0 <= q < |P'| && 0 <= l < |P'| && P'[q].reverter == P'[l].reverted && P'[q].reverted == P'[l].reverter
        && P'[q].reverter == x;
      if q < |P| && l < |P| {
        assert P[q] == P'[q] && P[l] == P'[l];
        assert x in MutualOf(P);
      } else if q == |P| {
        assert P'[l] != r;
        assert P[l] == P'[l];
      } else {
        assert P[q] == P'[q];
      }
    }
    forall x | x in MutualOf(P) + extra
      ensures x in MutualOf(P')
    {
      if x in MutualOf(P) {
        var q, l :| 0 <= q < |P| && 0 <= l < |P| && P[q].reverter == P[l].reverted && P[q].reverted == P[l].reverter
          && P[q].reverter == x;
        assert P'[q] == P[q] && P'[l] == P[l];
      } else {
        var l :| 0 <= l < |P| && P[l].reverter == r.reverted && P[l].reverted == r.reverter;
        assert P'[l] == P[l] && P'[|P|] == r;
        if x == r.reverter {
          assert P'[|P|].reverter == P'[l].reverted && P'[|P|].reverted == P'[l].reverter;
        } else {
          assert P'[l].reverter == P'[|P|].reverted && P'[l].reverted == P'[|P|].reverter;
        }
      }
    }
  }

  lemma HistogramEmpty(ms: seq<nat>, h: map<nat, nat>, top: nat)
    requires Histogram(ms, h, top)
    ensures |h| == 0 <==> ms == []
  {
    if ms != [] {
      assert ms[0] in h;
    } else {
      assert h.Keys == {};
    }
  }

  /** Counting one more value keeps the histogram. */
  lemma HistogramSnoc(ms: seq<nat>, h: map<nat, nat>, top: nat, m: nat)
    requires Histogram(ms, h, top)
    ensures Histogram(ms + [m], h[m := (if m in h then h[m] else 0) + 1], Max(top, m))
  {
    var ms' := ms + [m];
    assert ms'[..|ms|] == ms;
    forall x ensures Count(ms', x) == Count(ms, x) + (if m == x then 1 else 0) {
      CountSnoc(ms, m, x);
    }
    CountZero(ms, m);
  }

  lemma HistogramAbsorb(P: seq<Revert>, st: MState, r: Revert)
    requires Tallies(P, st)
    ensures var st' := Absorb(st, r); Histogram(Strengths(P + [r]), st'.mVals, st'.maxMVal)
  {
    StrengthsSnoc(P, r);
    HistogramSnoc(Strengths(P), st.mVals, st.maxMVal, r.strength);
  }

  lemma MutualAbsorb(P: seq<Revert>, st: MState, r: Revert)
    requires Tallies(P, st) && r.reverter != r.reverted
    ensures var st' := Absorb(st, r);
      && (forall e, f :: (e in st'.mutualRevs && f in st'.mutualRevs[e]) <==> Reverted(P + [r], e, f))
      && st'.mutualEditors == MutualOf(P + [r])
  {
    forall e, f ensures Reverted(P + [r], e, f) <==> Reverted(P, e, f) || (e == r.reverter && f == r.reverted) {
      RevertedSnoc(P, r, e, f);
    }
    MutualSnoc(P, r);
    var revs := Absorb(st, r).mutualRevs;
    assert (r.reverted in revs && r.reverter in revs[r.reverted]) <==> Reverted(P, r.reverted, r.reverter);
  }

  lemma AbsorbTallies(P: seq<Revert>, st: MState, r: Revert)
    requires Tallies(P, st) && r.reverter != r.reverted
    ensures Tallies(P + [r], Absorb(st, r))
  {
    HistogramAbsorb(P, st, r);
    MutualAbsorb(P, st, r);
  }

  lemma StepTracks(st: MState, ids: seq<int>, eds: seq<Editor>, nums: map<Editor, nat>, k: nat)
    requires k < |ids| == |eds| && Tracks(ids, k, st)
    ensures Tracks(ids, k + 1, MStep(st, ids, eds, nums, k))
  {
    var st' := MStep(st, ids, eds, nums, k);
    assert NonReverts(ids, k + 1) == NonReverts(ids, k) + (if IsRevertAt(ids, k) then 0 else 1);
    if IsRevertAt(ids, k) {
      assert st'.nextVal == st.nextVal && st'.revMap == st.revMap;
      forall id ensures LastIndex(ids, k + 1, id) == LastIndex(ids, k, id) {
      }
    } else {
      assert st'.nextVal == st.nextVal + 1 && st'.revMap == st.revMap[ids[k] := k];
      forall id ensures LastIndex(ids, k + 1, id) == if ids[k] == id then Some(k) else LastIndex(ids, k, id) {
      }
    }
  }

  /** With `next_val` and `rev_map` as tracked, the loop body at a revert
      records exactly the revert that the reference counts there. */
  lemma StepCounted(st: MState, ids: seq<int>, eds: seq<Editor>, nums: map<Editor, nat>, k: nat)
    requires k < |ids| == |eds| && Tracks(ids, k, st) && IsRevertAt(ids, k)
    ensures MStep(st, ids, eds, nums, k) ==
              match CountedAt(ids, eds, nums, k)
              case None => st
              case Some(r) => Absorb(st, r)
  {
    var id := ids[k];
    if id in st.revMap {
      assert LastIndex(ids, k, id) == Some(st.revMap[id]);
    } else {
      assert LastIndex(ids, k, id) == None;
    }
  }

  ghost predicate Means(ids: seq<int>, eds: seq<Editor>, nums: map<Editor, nat>, k: nat, st: MState)
    requires k <= |ids| == |eds|
  {
    Tracks(ids, k, st) && Tallies(Pairs(ids, eds, nums, k), st)
  }

  lemma TalliesStart(P: seq<Revert>)
    requires P == []
    ensures Tallies(P, MStart())
  {
    assert MutualOf(P) == {};
  }

  lemma PairsNext(ids: seq<int>, eds: seq<Editor>, nums: map<Editor, nat>, k: nat)
    requires k < |ids| == |eds|
    ensures CountedAt(ids, eds, nums, k).None? ==> Pairs(ids, eds, nums, k + 1) == Pairs(ids, eds, nums, k)
    ensures CountedAt(ids, eds, nums, k).Some? ==>
              Pairs(ids, eds, nums, k + 1) == Pairs(ids, eds, nums, k) + [CountedAt(ids, eds, nums, k).value]
  {
  }

  lemma TalliesStep(st: MState, ids: seq<int>, eds: seq<Editor>, nums: map<Editor, nat>, k: nat)
    requires k < |ids| == |eds| && Tracks(ids, k, st) && Tallies(Pairs(ids, eds, nums, k), st)
    ensures Tallies(Pairs(ids, eds, nums, k + 1), MStep(st, ids, eds, nums, k))
  {
    var P := Pairs(ids, eds, nums, k);
    var c := CountedAt(ids, eds, nums, k);
    PairsNext(ids, eds, nums, k);
    if !IsRevertAt(ids, k) {
      TalliesKept(P, st, MStep(st, ids, eds, nums, k));
    } else {
      StepCounted(st, ids, eds, nums, k);
      if c.Some? {
        AbsorbTallies(P, st, c.value);
      }
    }
  }

  /** The tallies do not look at `next_val` and `rev_map`. */
  lemma TalliesKept(P: seq<Revert>, st: MState, st': MState)
    requires Tallies(P, st)
    requires st'.mVals == st.mVals && st'.maxMVal == st.maxMVal
    requires st'.mutualRevs == st.mutualRevs && st'.mutualEditors == st.mutualEditors
    ensures Tallies(P, st')
  {
  }

  /** One pass of the loop body keeps the loop's variables as the reference
      says. */
  lemma MeansStep(st: MState, ids: seq<int>, eds: seq<Editor>, nums: map<Editor, nat>, k: nat)
    requires k < |ids| == |eds| && Means(ids, eds, nums, k, st)
    ensures Means(ids, eds, nums, k + 1, MStep(st, ids, eds, nums, k))
  {
    StepTracks(st, ids, eds, nums, k);
    TalliesStep(st, ids, eds, nums, k);
  }

  lemma MRunStep(ids: seq<int>, eds: seq<Editor>, nums: map<Editor, nat>, k: nat)
    requires k < |ids| == |eds| && Means(ids, eds, nums, k, MRun(ids, eds, nums, k))
    ensures Means(ids, eds, nums, k + 1, MRun(ids, eds, nums, k + 1))
  {
    MeansStep(MRun(ids, eds, nums, k), ids, eds, nums, k);
  }

  /** After `k` positions the loop's variables hold what the reference says. */
  lemma {:induction false} MRunMeans(ids: seq<int>, eds: seq<Editor>, nums: map<Editor, nat>, k: nat)
    requires k <= |ids| == |eds|
    ensures Means(ids, eds, nums, k, MRun(ids, eds, nums, k))
  {
    if k == 0 {
      TalliesStart(Pairs(ids, eds, nums, 0));
    } else {
      MRunMeans(ids, eds, nums, k - 1);
      MRunStep(ids, eds, nums, k - 1);
    }
  }

  // ---------------------------------------------------------------------
  // `get_m_stat`
  // ---------------------------------------------------------------------

  /** The loop of `get_m_stat` over a history read oldest first. */
  method ScanHistory(ids: seq<int>, eds: seq<Editor>, numEdits: map<Editor, nat>) returns (st: MState)
    requires |ids| == |eds|
    ensures st == MRun(ids, eds, numEdits, |ids|)
  {
    var nextVal: int, revMap: map<int, nat>, mVals: map<nat, nat> := 1, map[], map[];
    var mutualRevs: map<Editor, set<Editor>>, mutualEditors: set<Editor>, maxMVal: nat := map[], {}, 0;
    for i := 0 to |ids|
      invariant MState(nextVal, revMap, mVals, mutualRevs, mutualEditors, maxMVal) == MRun(ids, eds, numEdits, i)
    {
      ghost var before := MState(nextVal, revMap, mVals, mutualRevs, mutualEditors, maxMVal);
      var id := ids[i];
      if id < nextVal {
        if id in revMap && revMap[id] + 1 < |eds| {
          var prev := eds[revMap[id] + 1];
          if !(i + 1 < |ids| && ids[i + 1] == id) {
            var cur := eds[i];
            if prev != cur && prev in numEdits && cur in numEdits {
              var m := Min(numEdits[prev], numEdits[cur]);
              maxMVal := Max(maxMVal, m);
              if m !in mVals {
                mVals := mVals[m := 0];
              }
              mVals := mVals[m := mVals[m] + 1];
              if cur !in mutualRevs {
                mutualRevs := mutualRevs[cur := {}];
              }
              mutualRevs := mutualRevs[cur := mutualRevs[cur] + {prev}];
              if prev in mutualRevs && cur in mutualRevs[prev] {
                mutualEditors := mutualEditors + {cur, prev};
              }
            }
          }
        }
      } else {
        revMap := revMap[id := i];
        nextVal := nextVal + 1;
      }
      assert MState(nextVal, revMap, mVals, mutualRevs, mutualEditors, maxMVal) == MStep(before, ids, eds, numEdits, i);
    }
    st := MState(nextVal, revMap, mVals, mutualRevs, mutualEditors, maxMVal);
  }

  /** The number of counted reverts, and the sum of their strengths once the
      largest bucket is removed. */
  method Weigh(h: map<nat, nat>, top: nat, ghost ms: seq<nat>) returns (numReverts: nat, weights: nat)
    requires Histogram(ms, h, top) && |h| != 0
    ensures ms != [] && numReverts == |ms| && weights == SumExcept(ms, top)
  {
    var m0 :| m0 in h;
    assert m0 in ms;
    numReverts := SumCounts(h, ms);
    CountInAll(ms, h.Keys);
    var rest := h - {top};
    weights := SumWeights(rest, ms);
    SumInExcept(ms, rest.Keys, top);
  }

  /** Discharges the non-linear bound that keeps the score a natural number. */
  lemma ProductNat(a: nat, b: nat)
    ensures a * b >= 0
  {
  }

  /** The end of `get_m_stat`: the result from the loop's final variables. */
  method Summarize(ids: seq<int>, eds: seq<Editor>, numEdits: map<Editor, nat>, st: MState, extraStats: bool)
    returns (r: MStatResult)
    requires |ids| == |eds|
    requires Histogram(Strengths(Pairs(ids, eds, numEdits, |ids|)), st.mVals, st.maxMVal)
    requires st.mutualEditors == MutualOf(Pairs(ids, eds, numEdits, |ids|))
    ensures r == MStatOf(ids, eds, numEdits, extraStats)
  {
    ghost var P := Pairs(ids, eds, numEdits, |ids|);
    ghost var ms := Strengths(P);
    HistogramEmpty(ms, st.mVals, st.maxMVal);
    if |st.mVals| == 0 {
      return NoReverts;
    }
    var numReverts, weights := Weigh(st.mVals, st.maxMVal, ms);
    var extra := if extraStats then Some(ExtraStats(|ids|, numReverts, |EditorsOf(eds)|, |st.mutualEditors|)) else None;
    var mutual := |st.mutualEditors|;
    ProductNat(weights, mutual);
    r := Scored(weights * mutual, extra);
  }

  /** The M-statistic of an article from its ids and editors newest first, as
      the light dump lists them, and each editor's number of edits. */
  method GetMStat(revOrder: seq<int>, editorOrder: seq<Editor>, numEdits: map<Editor, nat>, extraStats: bool)
    returns (r: MStatResult)
    requires |revOrder| == |editorOrder|
    ensures r == MStatOf(Reverse(revOrder), Reverse(editorOrder), numEdits, extraStats)
  {
    var ids, eds := Reverse(revOrder), Reverse(editorOrder);
    var st := ScanHistory(ids, eds, numEdits);
    MRunMeans(ids, eds, numEdits, |ids|);
    r := Summarize(ids, eds, numEdits, st, extraStats);
  }
}
