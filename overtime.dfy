/** `grab_m_stat_over_time` in src/m_stat.py: the light dump of one article is
    read from its last line to its first, so its events come oldest first;
    after each event the M-statistic of the history so far is computed and
    written as one row next to the event's timestamp. */
module MStatOverTime {
  import opened Seqs
  import opened Strings
  import opened TraceEncoder
  import MStatistic
  import EditTally

  /** One written row: the timestamp text of the event and the statistic of
      the history up to and including it. */
  datatype Row = Row(timestamp: string, mStat: MStatistic.MStatResult)

  // ---------------------------------------------------------------------
  // Reference: the rows a file determines
  // ---------------------------------------------------------------------

  /** The event lines of a file in the order the loop meets them - the last
      line first - each with its trailing white space removed; title lines
      are skipped. */
  function MarkerLines(fs: seq<string>): (ml: seq<string>)
    ensures |ml| <= |fs|
    ensures forall k :: 0 <= k < |ml| ==> IsMarkerLine(ml[k])
  {
    if fs == [] then []
    else MarkerLines(fs[1..]) + (if IsMarkerLine(RStrip(fs[0])) then [RStrip(fs[0])] else [])
  }

  /** A line `update_line` records without raising: at least four fields,
      the third of them an integer. */
  predicate WellFormed(line: string) {
    var f := Split(line);
    |f| >= 4 && ParseInt(f[2]).Some?
  }

  predicate AllWellFormed(lines: seq<string>) {
    forall k :: 0 <= k < |lines| ==> WellFormed(lines[k])
  }

  /** The content id of a well-formed event line (field 3); only well-formed
      lines are ever asked for it. */
  function IdOf(line: string): int {
    if WellFormed(line) then ParseInt(Split(line)[2]).value else 0
  }

  /** The editor token of a well-formed event line (field 4). */
  function NameOf(line: string): string {
    if WellFormed(line) then Split(line)[3] else ""
  }

  /** `line.split()[0][4:]`: the first field without the marker and the
      character after it; empty when it is shorter. */
  function StampOf(line: string): string {
    var f := Split(line);
    if f == [] || |f[0]| < 4 then "" else f[0][4..]
  }

  function IdsOf(lines: seq<string>): (ids: seq<int>)
    ensures |ids| == |lines|
  {
    if lines == [] then [] else IdsOf(lines[..|lines| - 1]) + [IdOf(lines[|lines| - 1])]
  }

  function NamesOf(lines: seq<string>): (names: seq<string>)
    ensures |names| == |lines|
  {
    if lines == [] then [] else NamesOf(lines[..|lines| - 1]) + [NameOf(lines[|lines| - 1])]
  }

  /** The statistic of a history given oldest first, computed in one go: the
      content ids as they stand, editors numbered in first-seen order, and
      each editor's number of edits. */
  function HistoryStat(lines: seq<string>): MStatistic.MStatResult {
    var eds := EditTally.FirstSeenIds(NamesOf(lines));
    MStatistic.MStatOf(IdsOf(lines), eds, EditTally.EditCounts(eds), false)
  }

  /** The row written after the events `history`: the timestamp of the
      latest one and the statistic of them all. */
  function RowAfter(history: seq<string>): Row {
    Row(if history == [] then "" else StampOf(history[|history| - 1]), HistoryStat(history))
  }

  /** One row per event: its timestamp and the statistic of the history up
      to and including it. */
  function RowsOf(lines: seq<string>): (rows: seq<Row>)
    ensures |rows| == |lines|
    ensures forall k :: 0 <= k < |lines| ==> rows[k] == RowAfter(lines[..k + 1])
  {
    PrefixMap(RowAfter, lines)
  }

  // ---------------------------------------------------------------------
  // Facts about the reference
  // ---------------------------------------------------------------------

  /** Row `k` holds the timestamp of the event `k` and the statistic of the
      events up to it alone. This reads one index of the reference `RowsOf`;
      that the loop computes these rows from its running structures is
      proved by `CurrentStat` and `GrabMStatOverTime`. */
  lemma RowsOfAt(lines: seq<string>, k: nat)
    requires k < |lines|
    ensures RowsOf(lines)[k] == Row(StampOf(lines[k]), HistoryStat(lines[..k + 1]))
  {
    assert lines[..k + 1][k] == lines[k];
  }

  /** The rows of the history up to an event are the rows written up to it:
      a later event never changes an earlier row. */
  lemma RowsOfPrefix(lines: seq<string>, n: nat)
    requires n <= |lines|
    ensures RowsOf(lines[..n]) == RowsOf(lines)[..n]
  {
    PrefixMapPrefix(RowAfter, lines, n);
  }

  /** The last row is the statistic of the whole history, as computed in one
      go for a finished article. Like `RowsOfAt`, this reads the reference
      `RowsOf` at one index; the loop's agreement with it is proved by
      `CurrentStat` and `GrabMStatOverTime`. */
  lemma LastRowIsWholeHistory(lines: seq<string>)
    requires lines != []
    ensures RowsOf(lines)[|lines| - 1].mStat == HistoryStat(lines)
  {
    assert lines[..|lines|] == lines;
  }

  /** A single event is never a counted revert, so the first row always
      holds `0`. */
  lemma FirstRowNoReverts(lines: seq<string>)
    requires lines != []
    ensures RowsOf(lines)[0].mStat == MStatistic.NoReverts
  {
    var one := lines[..1];
    var eds := EditTally.FirstSeenIds(NamesOf(one));
    MStatistic.OneEditNoReverts(IdsOf(one), eds, EditTally.EditCounts(eds), false);
  }

  /** The loop meets line `i - 1` right after lines `i ..`. */
  lemma MarkerLinesStep(fs: seq<string>, i: nat)
    requires 0 < i <= |fs|
    ensures MarkerLines(fs[i - 1..]) == MarkerLines(fs[i..]) + (if IsMarkerLine(RStrip(fs[i - 1])) then [RStrip(fs[i - 1])] else [])
  {
    assert fs[i - 1..][1..] == fs[i..];
  }

  /** The event lines met after skipping the first `j` lines of the file are
      the first ones the whole file yields. */
  lemma {:induction false} MarkerLinesSuffix(fs: seq<string>, j: nat)
    requires j <= |fs|
    ensures MarkerLines(fs[j..]) <= MarkerLines(fs)
  {
    if j > 0 {
      MarkerLinesSuffix(fs, j - 1);
      MarkerLinesStep(fs, j);
    } else {
      assert fs[j..] == fs;
    }
  }

  /** When the loop stops at line `i - 1`, the event lines it met before are
      the first ones of the file and that line comes next. */
  lemma StopsAt(fs: seq<string>, i: nat, seen: seq<string>)
    requires 0 < i <= |fs| && IsMarkerLine(RStrip(fs[i - 1])) && seen == MarkerLines(fs[i..])
    ensures var ml := MarkerLines(fs);
      |seen| < |ml| && ml[..|seen|] == seen && ml[|seen|] == RStrip(fs[i - 1])
  {
    MarkerLinesStep(fs, i);
    MarkerLinesSuffix(fs, i - 1);
    var ml, met := MarkerLines(fs), seen + [RStrip(fs[i - 1])];
    assert ml[..|met|] == met;
    assert met[..|seen|] == seen;
  }

  // ---------------------------------------------------------------------
  // Reading back a page the encoder wrote
  // ---------------------------------------------------------------------

  /** An event the encoder can write so that splitting its line gives its
      four fields back. */
  predicate Splittable(e: Event) {
    (forall i :: 0 <= i < |e.stamp| ==> !IsSpace(e.stamp[i])) && IsToken(e.editor)
  }

  /** A written event line reads back as that event: it is kept by the
      right strip, it is well formed, and its fields give back the timestamp,
      the content id and the editor. */
  lemma ReadEventLine(e: Event)
    requires Splittable(e)
    ensures var line := RenderEvent(e);
      && IsMarkerLine(line) && RStrip(line) == line && WellFormed(line)
      && StampOf(line) == e.stamp && IdOf(line) == e.contentId && NameOf(line) == e.editor
  {
    var line, ts := RenderEvent(e), EventTokens(e);
    RenderEventMarked(e);
    SplitRenderedEvent(e);
    ParseNatToString(e.contentId);
    JoinSpacesEndsWith(ts);
    assert line[|line| - 1] == e.editor[|e.editor| - 1];
    assert (Marker + "_" + e.stamp)[4..] == e.stamp;
  }

  /** The event lines of a title followed by event lines written newest
      first come back oldest first. */
  lemma {:induction false} MarkerLinesOfReversed(ls: seq<string>)
    requires forall k :: 0 <= k < |ls| ==> IsMarkerLine(ls[k]) && RStrip(ls[k]) == ls[k]
    ensures MarkerLines(Reverse(ls)) == ls
  {
    if ls != [] {
      var p, x := ls[..|ls| - 1], ls[|ls| - 1];
      MarkerLinesOfReversed(p);
      assert ls == p + [x];
      ReverseAppend(p, x);
      assert ([x] + Reverse(p))[1..] == Reverse(p);
    }
  }

  /** A page the encoder wrote - its title line, then its events newest first
      - yields its events oldest first: every event line is well formed and
      carries the event's timestamp, content id and editor, so the series
      is computed over the page's content ids and editors in time order. */
  lemma WrittenPageReadsBack(title: string, evs: seq<Event>)
    requires !IsMarkerLine(RStrip(title))
    requires forall k :: 0 <= k < |evs| ==> Splittable(evs[k])
    ensures var ml := MarkerLines([title] + Reverse(RenderLines(evs)));
      && ml == RenderLines(evs) && AllWellFormed(ml)
      && (forall k :: 0 <= k < |evs| ==>
            StampOf(ml[k]) == evs[k].stamp && IdOf(ml[k]) == evs[k].contentId && NameOf(ml[k]) == evs[k].editor)
  {
    var ls := RenderLines(evs);
    forall k | 0 <= k < |ls|
      ensures IsMarkerLine(ls[k]) && RStrip(ls[k]) == ls[k] && WellFormed(ls[k])
      ensures StampOf(ls[k]) == evs[k].stamp && IdOf(ls[k]) == evs[k].contentId && NameOf(ls[k]) == evs[k].editor
    {
      ReadEventLine(evs[k]);
    }
    MarkerLinesOfReversed(ls);
    assert ([title] + Reverse(ls))[1..] == Reverse(ls);
  }

  // ---------------------------------------------------------------------
  // grab_m_stat_over_time
  // ---------------------------------------------------------------------

  /** One event line of the loop body: `update_line` on the article's
      structures, then `get_m_stat` on the reversed orders with no extra
      statistics. A line that makes `update_line` raise gives no row. */
  method RecordEvent(st: EditTally.ArticleState, line: string, ghost seen: seq<string>)
    returns (row: Option<Row>)
    requires st.Valid() && AllWellFormed(seen)
    requires st.names == NamesOf(seen) && st.revOrder == IdsOf(seen)
    modifies st
    ensures st.Valid()
    ensures row.Some? <==> WellFormed(line)
    ensures row.Some? ==>
      var seen' := seen + [line];
      && AllWellFormed(seen') && st.names == NamesOf(seen') && st.revOrder == IdsOf(seen')
      && row.value == RowAfter(seen')
  {
    var ok := st.UpdateLine(line);
    if !ok {
      return None;
    }
    ghost var seen' := seen + [line];
    assert seen'[..|seen|] == seen;
    assert IdsOf(seen') == IdsOf(seen) + [IdOf(line)];
    assert NamesOf(seen') == NamesOf(seen) + [NameOf(line)];
    var m := CurrentStat(st, seen');
    row := Some(Row(StampOf(line), m));
    assert seen'[|seen'| - 1] == line;
  }

  /** `get_m_stat(rev_order[::-1], editor_order[::-1], num_edits_dict)` on
      the structures after the events `seen`: the one-go statistic of that
      history. */
  method CurrentStat(st: EditTally.ArticleState, ghost seen: seq<string>) returns (m: MStatistic.MStatResult)
    requires st.Valid() && st.names == NamesOf(seen) && st.revOrder == IdsOf(seen)
    ensures m == HistoryStat(seen)
  {
    EditTally.TrackOfMeans(st.names);
    var revOrder, editorOrder := st.revOrder, st.editorOrder;
    ReverseReverse(revOrder);
    ReverseReverse(editorOrder);
    m := MStatistic.GetMStat(Reverse(revOrder), Reverse(editorOrder), st.numEdits, false);
  }

  /** `grab_m_stat_over_time` for one file, with `get_m_stat` called without
      extra statistics: the rows written before the loop stops. On a file
      whose event lines are all well formed every event gets its row;
      otherwise the loop stops at the first line `update_line` cannot
      record, and the rows before it are those of the events before it. */
  method GrabMStatOverTime(fileLines: seq<string>) returns (rows: seq<Row>, ok: bool)
    ensures var ml := MarkerLines(fileLines);
      && |rows| <= |ml|
      && AllWellFormed(ml[..|rows|])
      && rows == RowsOf(ml[..|rows|])
      && (ok <==> |rows| == |ml|)
      && (!ok ==> !WellFormed(ml[|rows|]))
  {
    var st := new EditTally.ArticleState();
    rows := [];
    ghost var seen: seq<string> := [];
    var i := |fileLines|;
    while i > 0
      invariant 0 <= i <= |fileLines|
      invariant seen == MarkerLines(fileLines[i..])
      invariant AllWellFormed(seen)
      invariant st.Valid() && st.names == NamesOf(seen) && st.revOrder == IdsOf(seen)
      invariant rows == RowsOf(seen)
    {
      var line := RStrip(fileLines[i - 1]);
      MarkerLinesStep(fileLines, i);
      if IsMarkerLine(line) {
        var row := RecordEvent(st, line, seen);
        if row.None? {
          StopsAt(fileLines, i, seen);
          return rows, false;
        }
        PrefixMapSnoc(RowAfter, seen, line);
        seen := seen + [line];
        rows := rows + [row.value];
      }
      i := i - 1;
    }
    assert fileLines[0..] == fileLines;
    assert seen[..|rows|] == seen;
    ok := true;
  }

  /** `grab_m_stat_over_time` as written: `get_m_stat` is called with three
      arguments but takes four, so the first event line raises - in
      `update_line` when it is malformed, at the call otherwise - before its
      row is written. No row is ever written, and the loop ends normally only
      on a file without event lines. */
  method GrabMStatOverTimeAsWritten(fileLines: seq<string>) returns (rows: seq<Row>, ok: bool)
    ensures rows == []
    ensures ok <==> MarkerLines(fileLines) == []
  {
    var st := new EditTally.ArticleState();
    rows := [];
    var i := |fileLines|;
    while i > 0
      invariant 0 <= i <= |fileLines|
      invariant MarkerLines(fileLines[i..]) == []
      invariant st.Valid()
    {
      var line := RStrip(fileLines[i - 1]);
      MarkerLinesStep(fileLines, i);
      if IsMarkerLine(line) {
        var recorded := st.UpdateLine(line);
        MarkerLinesSuffix(fileLines, i - 1);
        return rows, false;
      }
      i := i - 1;
    }
    assert fileLines[0..] == fileLines;
    ok := true;
  }

  /** The title and the only event of a one-event page, as the encoder
      writes it. */
  const OneEdit: Event := Event("2019-05-17T01:24:12Z", false, 1, "JJMC89")

  lemma OneEditSplittable()
    ensures Splittable(OneEdit)
  {
    assert forall i :: 0 <= i < |OneEdit.stamp| ==> !IsSpace(OneEdit.stamp[i]);
  }

  lemma OneEventPageReadsBack()
    ensures MarkerLines(["Anarchism", RenderEvent(OneEdit)]) == [RenderEvent(OneEdit)]
    ensures WellFormed(RenderEvent(OneEdit)) && StampOf(RenderEvent(OneEdit)) == OneEdit.stamp
  {
    OneEditSplittable();
    assert RStrip("Anarchism") == "Anarchism";
    assert !IsMarkerLine("Anarchism") by {
      assert "Anarchism"[0] != Marker[0];
    }
    WrittenPageReadsBack("Anarchism", [OneEdit]);
    assert Reverse(RenderLines([OneEdit])) == [RenderEvent(OneEdit)];
    assert ["Anarchism"] + [RenderEvent(OneEdit)] == ["Anarchism", RenderEvent(OneEdit)];
  }

  /** A page with one event: the corrected loop writes one row, with the
      event's timestamp and `0`, where the loop as written writes none. */
  lemma OneEventPageHasOneRow()
    ensures var ml := MarkerLines(["Anarchism", RenderEvent(OneEdit)]);
      |ml| == 1 && AllWellFormed(ml) && RowsOf(ml) == [Row("2019-05-17T01:24:12Z", MStatistic.NoReverts)]
  {
    OneEventPageReadsBack();
    var ml := [RenderEvent(OneEdit)];
    FirstRowNoReverts(ml);
    RowsOfAt(ml, 0);
  }
}
