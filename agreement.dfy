/** The two sides of the trace format agree on what a revert is: on the
    content ids the encoder writes, the test of `get_m_stat` in src/m_stat.py
    (an id below `next_val`) holds exactly at the events the encoder flagged,
    those whose content occurred at an earlier event. */
module RevertAgreement {
  import opened Seqs
  import opened Numbering
  import MStatistic
  import TraceEncoder

  /** The content id of every position of `cs`. */
  function ContentIds<T(==)>(cs: seq<T>): (ids: seq<int>)
    ensures |ids| == |cs|
    ensures forall i :: 0 <= i < |cs| ==> ids[i] == ContentId(cs, i)
  {
    seq(|cs|, i requires 0 <= i < |cs| => ContentId(cs, i))
  }

  /** The content ids of a sequence of events, as `get_m_stat` reads them. */
  function EventIds(evs: seq<TraceEncoder.Event>): (ids: seq<int>)
    ensures |ids| == |evs|
    ensures forall i :: 0 <= i < |evs| ==> ids[i] == evs[i].contentId
  {
    seq(|evs|, i requires 0 <= i < |evs| => evs[i].contentId)
  }

  /** Where `next_val` counts the first meetings so far, position `i` is
      below it exactly when its content was met before. */
  lemma RevertIffSeen<T>(cs: seq<T>, ids: seq<int>, i: nat)
    requires ids == ContentIds(cs) && i < |cs|
    requires MStatistic.NonReverts(ids, i) == FreshCount(cs, i)
    ensures MStatistic.IsRevertAt(ids, i) <==> SeenBefore(cs, i)
  {
    FreshCountDistinct(cs, i);
    var x := cs[i];
    if SeenBefore(cs, i) {
      DistinctPrefix(cs, i);
      IndexOfPrefix(Distinct(cs[..i]), Distinct(cs), x);
    } else {
      NewContentPlace(cs, i);
    }
  }

  /** On content ids, `next_val - 1` before position `k` is the number of
      contents met for the first time before `k`. */
  lemma {:induction false} NonRevertsAreFresh<T>(cs: seq<T>, ids: seq<int>, k: nat)
    requires ids == ContentIds(cs) && k <= |cs|
    ensures MStatistic.NonReverts(ids, k) == FreshCount(cs, k)
  {
    if k > 0 {
      NonRevertsAreFresh(cs, ids, k - 1);
      RevertIffSeen(cs, ids, k - 1);
    }
  }

  /** On content ids, a position is a revert for `get_m_stat` exactly when
      its content occurred at an earlier position. */
  lemma RevertsAreRepeats<T>(cs: seq<T>, i: nat)
    requires i < |cs|
    ensures MStatistic.IsRevertAt(ContentIds(cs), i) <==> SeenBefore(cs, i)
  {
    NonRevertsAreFresh(cs, ContentIds(cs), i);
    RevertIffSeen(cs, ContentIds(cs), i);
  }

  /** The ids the encoder writes for a page are the content ids of the
      page's contents in time order. */
  lemma PageIdsAreContentIds(revs: seq<TraceEncoder.Revision>)
    ensures var stamps, tm := TraceEncoder.AscendingStamps(revs), TraceEncoder.TimeMap(revs);
      (forall s :: s in stamps ==> s in tm) &&
      var evs, cs := TraceEncoder.PageEvents(revs), TraceEncoder.Contents(stamps, tm);
      && |evs| == |cs|
      && EventIds(evs) == ContentIds(cs)
      && (forall i :: 0 <= i < |evs| ==> (evs[i].revert <==> SeenBefore(cs, i)))
  {
    var stamps, tm := TraceEncoder.AscendingStamps(revs), TraceEncoder.TimeMap(revs);
    TraceEncoder.AscendingStampsInTimeMap(revs);
    var evs, cs := TraceEncoder.PageEvents(revs), TraceEncoder.Contents(stamps, tm);
    TraceEncoder.EventsOfAt(stamps, tm);
    forall i | 0 <= i < |evs|
      ensures EventIds(evs)[i] == ContentIds(cs)[i] && (evs[i].revert <==> SeenBefore(cs, i))
    {
      WalkIdIsContentId(cs, i);
    }
  }

  /** Reading the encoder's trace of a page oldest first, `get_m_stat` treats
      an event as a revert exactly when the encoder flagged it as one. */
  lemma PageRevertFlagsAgree(revs: seq<TraceEncoder.Revision>, i: nat)
    requires i < |TraceEncoder.PageEvents(revs)|
    ensures var evs := TraceEncoder.PageEvents(revs);
      MStatistic.IsRevertAt(EventIds(evs), i) <==> evs[i].revert
  {
    PageIdsAreContentIds(revs);
    TraceEncoder.AscendingStampsInTimeMap(revs);
    RevertsAreRepeats(TraceEncoder.Contents(TraceEncoder.AscendingStamps(revs), TraceEncoder.TimeMap(revs)), i);
  }
}
