/** The compact-trace encoder (the light format of src/etl.py): each page of a
    batch becomes its title line followed by one event line per distinct
    revision timestamp, newest first. An event line is
    `^^^_<timestamp> <revert flag> <content id> <editor>`. */
module TraceEncoder {
  import opened Seqs
  import opened Strings
  import opened Numbering

  // ---------------------------------------------------------------------
  // Reading fields of a dump element (get_tag_if_exists)
  // ---------------------------------------------------------------------

  /** A child element of a page, revision or contributor element: its tag and
      its text, which lxml reports as absent for an empty element. */
  datatype Child = Child(tag: string, text: Option<string>)

  /** The field names the loader knows, with the namespaced tag of each. */
  const XPath: map<string, string> := map[
    "page" := "ns:page", "page_id" := "ns:id", "page_title" := "ns:title",
    "revision" := "ns:revision", "rev_id" := "ns:id", "parent_id" := "ns:parentid",
    "timestamp" := "ns:timestamp", "model" := "ns:model", "format" := "ns:format",
    "edit" := "ns:text", "comment" := "ns:comment", "contributor" := "ns:contributor",
    "username" := "ns:username", "user_id" := "ns:id", "user_ip" := "ns:ip"]

  /** Child `k` is the first child carrying `tag`. */
  predicate FirstWithTag(children: seq<Child>, tag: string, k: int) {
    0 <= k < |children| && children[k].tag == tag && forall j :: 0 <= j < k ==> children[j].tag != tag
  }

  /** The text of the first child carrying the tag of field `key`, or `None`
      when there is no such child or it has no text. */
  function GetTagIfExists(children: seq<Child>, key: string): (r: Option<string>)
    requires key in XPath
    ensures (forall k :: 0 <= k < |children| ==> children[k].tag != XPath[key]) ==> r == None
    ensures forall k :: FirstWithTag(children, XPath[key], k) ==> r == children[k].text
    ensures r.Some? ==> exists k :: FirstWithTag(children, XPath[key], k) && children[k].text == r
  {
    if children == [] then None
    else if children[0].tag == XPath[key] then children[0].text
    else
      var r := GetTagIfExists(children[1..], key);
      assert forall k :: 0 < k < |children| ==> children[k] == children[1..][k - 1];
      assert forall k :: FirstWithTag(children, XPath[key], k) ==> k > 0 && FirstWithTag(children[1..], XPath[key], k - 1);
      r
  }

  // ---------------------------------------------------------------------
  // Records of the dump
  // ---------------------------------------------------------------------

  /** What the encoder reads of one revision: its timestamp, its text (the
      content-identity signal), whether it has a contributor element, and the
      contributor's username and IP. */
  datatype Revision = Revision(timestamp: Option<string>, content: Option<string>, hasContributor: bool,
                               username: Option<string>, ip: Option<string>)

  datatype Page = Page(title: Option<string>, revisions: seq<Revision>)

  /** The contributor's first username child is missing, has no text or has
      the empty text: the IP is used instead. */
  ghost predicate Nameless(contributor: seq<Child>) {
    forall k :: FirstWithTag(contributor, "ns:username", k) ==> contributor[k].text.None? || contributor[k].text == Some([])
  }

  /** The record a revision element and its contributor element (`None` when
      the revision has none) yield: the texts of the first timestamp and text
      children, and an editor token taken from the first username child when
      its text is non-empty, from the first IP child otherwise, and `None`
      when neither gives a text. */
  function ReadRevision(revision: seq<Child>, contributor: Option<seq<Child>>): (r: Revision)
    ensures r.hasContributor <==> contributor.Some?
    ensures (forall k :: 0 <= k < |revision| ==> revision[k].tag != "ns:timestamp") ==> r.timestamp == None
    ensures forall k :: FirstWithTag(revision, "ns:timestamp", k) ==> r.timestamp == revision[k].text
    ensures (forall k :: 0 <= k < |revision| ==> revision[k].tag != "ns:text") ==> r.content == None
    ensures forall k :: FirstWithTag(revision, "ns:text", k) ==> r.content == revision[k].text
    ensures contributor.Some? ==> var c := contributor.value;
      forall k :: FirstWithTag(c, "ns:username", k) && c[k].text.Some? && c[k].text.value != [] ==>
        Editor(r) == ReplaceSpaces(c[k].text.value)
    ensures contributor.Some? && Nameless(contributor.value) ==> var c := contributor.value;
      forall k :: FirstWithTag(c, "ns:ip", k) && c[k].text.Some? ==> Editor(r) == ReplaceSpaces(c[k].text.value)
    ensures contributor.Some? && Nameless(contributor.value) ==> var c := contributor.value;
      (forall k :: FirstWithTag(c, "ns:ip", k) ==> c[k].text.None?) ==> Editor(r) == "None"
  {
    assert XPath["timestamp"] == "ns:timestamp" && XPath["edit"] == "ns:text";
    assert XPath["username"] == "ns:username" && XPath["user_ip"] == "ns:ip";
    var timestamp, content := GetTagIfExists(revision, "timestamp"), GetTagIfExists(revision, "edit");
    match contributor
    case None => Revision(timestamp, content, false, None, None)
    case Some(c) => Revision(timestamp, content, true, GetTagIfExists(c, "username"), GetTagIfExists(c, "user_ip"))
  }

  /** The editor token: the username if it is non-empty, otherwise the IP, with
      spaces turned into underscores; Python's `str(None)` when both are absent. */
  function Editor(r: Revision): (tok: string)
    ensures ' ' !in tok
    ensures r.username.Some? && r.username.value != [] ==>
      var u := r.username.value;
      |tok| == |u| && forall i :: 0 <= i < |u| ==> tok[i] == (if u[i] == ' ' then '_' else u[i])
    ensures (r.username.None? || r.username == Some([])) && r.ip.Some? ==>
      var v := r.ip.value;
      |tok| == |v| && forall i :: 0 <= i < |v| ==> tok[i] == (if v[i] == ' ' then '_' else v[i])
    ensures (r.username.None? || r.username == Some([])) && r.ip.None? ==> tok == "None"
    ensures tok == [] <==> (r.username.None? || r.username == Some([])) && r.ip == Some([])
  {
    var user := if r.username.Some? && r.username.value != [] then r.username else r.ip;
    match user
    case None => "None"
    case Some(u) => ReplaceSpaces(u)
  }

  /** What the dict keyed by timestamp holds for one revision. */
  datatype Entry = Entry(content: Option<string>, editor: string)

  function EntryOf(r: Revision): Entry {
    Entry(r.content, Editor(r))
  }

  predicate Attributed(revs: seq<Revision>) {
    forall i :: 0 <= i < |revs| ==> revs[i].hasContributor
  }

  predicate Stamped(revs: seq<Revision>) {
    forall i :: 0 <= i < |revs| ==> revs[i].timestamp.Some?
  }

  /** The timestamps present, in dump order. */
  function Stamps(revs: seq<Revision>): (ts: seq<string>)
    ensures forall i :: 0 <= i < |revs| && revs[i].timestamp.Some? ==> revs[i].timestamp.value in ts
    ensures forall s :: s in ts ==> exists i :: 0 <= i < |revs| && revs[i].timestamp == Some(s)
  {
    if revs == [] then []
    else
      var p := revs[..|revs| - 1];
      var last := revs[|revs| - 1];
      assert forall i :: 0 <= i < |p| ==> p[i] == revs[i];
      Stamps(p) + (if last.timestamp.Some? then [last.timestamp.value] else [])
  }

  /** The dict filled at src/etl.py:151-166: each timestamp mapped to the entry of
      the revision stored last under it. */
  function TimeMap(revs: seq<Revision>): (m: map<string, Entry>)
    ensures forall s :: s in m <==> s in Stamps(revs)
  {
    if revs == [] then map[]
    else
      var m := TimeMap(revs[..|revs| - 1]);
      var last := revs[|revs| - 1];
      if last.timestamp.Some? then m[last.timestamp.value := EntryOf(last)] else m
  }

  /** Of several revisions sharing a timestamp, the one later in dump order wins. */
  lemma {:induction false} TimeMapLastWins(revs: seq<Revision>, j: nat)
    requires j < |revs| && revs[j].timestamp.Some?
    requires forall k :: j < k < |revs| ==> revs[k].timestamp != revs[j].timestamp
    ensures revs[j].timestamp.value in TimeMap(revs)
    ensures TimeMap(revs)[revs[j].timestamp.value] == EntryOf(revs[j])
  {
    if j < |revs| - 1 {
      var p := revs[..|revs| - 1];
      assert p[j] == revs[j];
      TimeMapLastWins(p, j);
    }
  }

  // ---------------------------------------------------------------------
  // Events in ascending time
  // ---------------------------------------------------------------------

  /** One compact edit event. */
  datatype Event = Event(stamp: string, revert: bool, contentId: nat, editor: string)

  /** `sorted(time_mapper.keys())`: the distinct timestamps, ascending. */
  function AscendingStamps(revs: seq<Revision>): seq<string> {
    SortStrings(Distinct(Stamps(revs)))
  }

  lemma AscendingStampsFacts(revs: seq<Revision>)
    ensures StrictlyAscending(AscendingStamps(revs))
    ensures |AscendingStamps(revs)| == |Distinct(Stamps(revs))|
    ensures forall s :: s in AscendingStamps(revs) <==> s in Stamps(revs)
  {
    var d := Distinct(Stamps(revs));
    var a := AscendingStamps(revs);
    SortStringsFacts(d);
    assert |a| == |multiset(a)| == |multiset(d)| == |d|;
    forall s ensures s in a <==> s in d {
      assert s in a <==> s in multiset(a);
      assert s in d <==> s in multiset(d);
    }
    PermutationNoDuplicates(a, d);
    AscendingDistinctIsStrict(a);
  }

  /** The content of the entry at each timestamp of `stamps`. */
  function Contents(stamps: seq<string>, tm: map<string, Entry>): (cs: seq<Option<string>>)
    requires forall s :: s in stamps ==> s in tm
    ensures |cs| == |stamps|
    ensures forall i :: 0 <= i < |stamps| ==> cs[i] == tm[stamps[i]].content
  {
    if stamps == [] then []
    else Contents(stamps[..|stamps| - 1], tm) + [tm[stamps[|stamps| - 1]].content]
  }

  /** The reference meaning of the numbering walk at src/etl.py:173-189: the
      event at position `i` reverts iff its content occurred at an earlier
      position, and its content id is one more than the place of that content
      among the distinct contents in first-seen order. */
  function EventAt(stamps: seq<string>, tm: map<string, Entry>, i: nat): (e: Event)
    requires forall s :: s in stamps ==> s in tm
    requires i < |stamps|
    ensures e.stamp == stamps[i] && e.editor == tm[stamps[i]].editor
  {
    var cs := Contents(stamps, tm);
    Event(stamps[i], SeenBefore(cs, i), WalkId(cs, i), tm[stamps[i]].editor)
  }

  /** The events at the first `k` positions. */
  function EventsUpTo(stamps: seq<string>, tm: map<string, Entry>, k: nat): (evs: seq<Event>)
    requires forall s :: s in stamps ==> s in tm
    requires k <= |stamps|
    ensures |evs| == k
  {
    if k == 0 then [] else EventsUpTo(stamps, tm, k - 1) + [EventAt(stamps, tm, k - 1)]
  }

  function EventsOf(stamps: seq<string>, tm: map<string, Entry>): (evs: seq<Event>)
    requires forall s :: s in stamps ==> s in tm
    ensures |evs| == |stamps|
  {
    EventsUpTo(stamps, tm, |stamps|)
  }

  /** The event at every position is the one `EventAt` describes. */
  lemma {:induction false} EventsUpToAt(stamps: seq<string>, tm: map<string, Entry>, k: nat, i: nat)
    requires forall s :: s in stamps ==> s in tm
    requires i < k <= |stamps|
    ensures EventsUpTo(stamps, tm, k)[i] == EventAt(stamps, tm, i)
  {
    if i < k - 1 {
      EventsUpToAt(stamps, tm, k - 1, i);
    }
  }

  lemma AscendingStampsInTimeMap(revs: seq<Revision>)
    ensures forall s :: s in AscendingStamps(revs) ==> s in TimeMap(revs)
  {
    AscendingStampsFacts(revs);
  }

  /** The events of one page, oldest first. */
  function PageEvents(revs: seq<Revision>): seq<Event> {
    AscendingStampsInTimeMap(revs);
    EventsOf(AscendingStamps(revs), TimeMap(revs))
  }

  // ---------------------------------------------------------------------
  // Lines of the trace file
  // ---------------------------------------------------------------------

  /** The prefix that tells event lines from title lines. */
  const Marker: string := "^^^"

  /** `'^^^' == line[:3]`. */
  predicate IsMarkerLine(line: string) {
    |line| >= 3 && line[..3] == Marker
  }

  function FlagText(revert: bool): string {
    if revert then "1" else "0"
  }

  /** The four fields of an event line: the marked timestamp, the revert flag,
      the content id and the editor token. */
  function EventTokens(e: Event): seq<string> {
    [Marker + "_" + e.stamp, FlagText(e.revert), NatToString(e.contentId), e.editor]
  }

  /** `'{} {} {} {}'.format('^^^_' + time, revert_flag, curr_rev, user)`: the
      four fields with one space between consecutive ones. */
  function RenderEvent(e: Event): string {
    JoinSpaces(EventTokens(e))
  }

  /** Every event line starts with the marker. */
  lemma RenderEventMarked(e: Event)
    ensures IsMarkerLine(RenderEvent(e))
  {
    var ts := EventTokens(e);
    assert JoinSpaces(ts) == ts[0] + " " + JoinSpaces(ts[1..]);
    assert JoinSpaces(ts)[..3] == Marker;
  }

  function RenderLines(evs: seq<Event>): (lines: seq<string>)
    ensures |lines| == |evs|
    ensures forall i :: 0 <= i < |evs| ==> lines[i] == RenderEvent(evs[i])
  {
    if evs == [] then [] else RenderLines(evs[..|evs| - 1]) + [RenderEvent(evs[|evs| - 1])]
  }

  lemma RenderLinesSnoc(evs: seq<Event>, e: Event)
    ensures RenderLines(evs + [e]) == RenderLines(evs) + [RenderEvent(e)]
  {
    assert (evs + [e])[..|evs|] == evs;
  }

  /** An event line splits back into its four fields when neither the timestamp
      nor the editor token holds whitespace (and the editor token is not empty). */
  lemma SplitRenderedEvent(e: Event)
    requires forall i :: 0 <= i < |e.stamp| ==> !IsSpace(e.stamp[i])
    requires IsToken(e.editor)
    ensures Split(RenderEvent(e)) == EventTokens(e)
  {
    var ts := EventTokens(e);
    var t0 := Marker + "_" + e.stamp;
    assert IsToken(t0) by {
      forall i | 0 <= i < |t0| ensures !IsSpace(t0[i]) {
        if i >= 4 { assert t0[i] == e.stamp[i - 4]; }
      }
    }
    assert IsToken(NatToString(e.contentId));
    SplitJoin(ts);
  }

  lemma EventsOfAt(stamps: seq<string>, tm: map<string, Entry>)
    requires forall s :: s in stamps ==> s in tm
    ensures forall i :: 0 <= i < |stamps| ==> EventsOf(stamps, tm)[i] == EventAt(stamps, tm, i)
  {
    forall i | 0 <= i < |stamps| ensures EventsOf(stamps, tm)[i] == EventAt(stamps, tm, i) {
      EventsUpToAt(stamps, tm, |stamps|, i);
    }
  }

  /** How the walk numbers contents: ids run from 1 to the number of distinct
      contents, two events share an id exactly when their entries hold the
      same content, an event is flagged as a revert exactly when an earlier
      event has its id, the first event is never a revert and has id 1, and a
      fresh content gets one more than the number of fresh contents before it. */
  lemma EventsOfNumbering(stamps: seq<string>, tm: map<string, Entry>, i: nat, j: nat)
    requires forall s :: s in stamps ==> s in tm
    requires i < |stamps| && j < |stamps|
    ensures var evs := EventsOf(stamps, tm);
      && 1 <= evs[i].contentId <= |Distinct(Contents(stamps, tm))|
      && (evs[i].contentId == evs[j].contentId <==> tm[stamps[i]].content == tm[stamps[j]].content)
      && (evs[i].revert <==> exists k :: 0 <= k < i && evs[k].contentId == evs[i].contentId)
      && (!evs[i].revert ==> evs[i].contentId == 1 + FreshCount(Contents(stamps, tm), i))
      && !evs[0].revert && evs[0].contentId == 1
  {
    var evs, cs := EventsOf(stamps, tm), Contents(stamps, tm);
    EventsOfAt(stamps, tm);
    WalkIdIsContentId(cs, i);
    WalkIdIsContentId(cs, j);
    WalkIdIsContentId(cs, 0);
    ContentIdInjective(cs, i, j);
    SeenBeforeSameId(cs, i);
    FirstPosition(cs);
    if !evs[i].revert {
      FreshIdIsNext(cs, i);
    } else {
      var k :| 0 <= k < i && ContentId(cs, k) == ContentId(cs, i);
      WalkIdIsContentId(cs, k);
      assert evs[k].contentId == evs[i].contentId;
    }
    if exists k :: 0 <= k < i && evs[k].contentId == evs[i].contentId {
      var k :| 0 <= k < i && evs[k].contentId == evs[i].contentId;
      WalkIdIsContentId(cs, k);
    }
  }

  /** The events of a page: one per distinct timestamp of its revisions, in
      strictly ascending timestamp order, each carrying the editor of the
      revision stored last under its timestamp. */
  lemma PageEventsFacts(revs: seq<Revision>)
    ensures var evs, a := PageEvents(revs), AscendingStamps(revs);
      && |evs| == |a| == |Distinct(Stamps(revs))|
      && StrictlyAscending(a)
      && (forall s :: s in a <==> s in Stamps(revs))
      && (forall i :: 0 <= i < |evs| ==> evs[i].stamp == a[i] && a[i] in TimeMap(revs) && evs[i].editor == TimeMap(revs)[a[i]].editor)
  {
    var a, tm := AscendingStamps(revs), TimeMap(revs);
    AscendingStampsFacts(revs);
    EventsOfAt(a, tm);
  }

  // ---------------------------------------------------------------------
  // Encoding a page and a batch
  // ---------------------------------------------------------------------

  /** What an encoding step appended to the trace file, and whether it got to
      the end without raising. */
  datatype Written = Written(lines: seq<string>, ok: bool)

  /** The lines one page contributes. A missing title raises before anything of
      the page is written (`None + '\n'`). After the title line, a revision
      without a contributor element raises in the first loop
      (`get_tag_if_exists` on `None`), and a missing timestamp raises when the
      keys are sorted or prefixed with the marker. */
  function EncodePage(p: Page): Written {
    if p.title.None? then Written([], false)
    else if !Attributed(p.revisions) || !Stamped(p.revisions) then Written([p.title.value], false)
    else Written([p.title.value] + Reverse(RenderLines(PageEvents(p.revisions))), true)
  }

  /** A title line followed by the rendered events in reverse order. */
  lemma TitledNewestFirst(title: string, evs: seq<Event>)
    ensures var lines := [title] + Reverse(RenderLines(evs));
      && |lines| == 1 + |evs| && lines[0] == title
      && forall t :: 1 <= t < |lines| ==> lines[t] == RenderEvent(evs[|evs| - t]) && IsMarkerLine(lines[t])
  {
    var ls := RenderLines(evs);
    ConsReverse(title, ls);
    forall k | 0 <= k < |evs| ensures IsMarkerLine(ls[k]) {
      RenderEventMarked(evs[k]);
    }
  }

  /** A page encodes without raising exactly when it has a title and every
      revision a contributor and a timestamp; then it writes its title line and
      one marker line per event, newest first. A page that raises after its
      title writes the title line alone. */
  lemma EncodePageShape(p: Page)
    ensures EncodePage(p).ok <==> p.title.Some? && Attributed(p.revisions) && Stamped(p.revisions)
    ensures p.title.Some? ==> EncodePage(p).lines[0] == p.title.value
    ensures p.title.Some? && !EncodePage(p).ok ==> EncodePage(p).lines == [p.title.value]
    ensures p.title.None? ==> EncodePage(p).lines == []
    ensures EncodePage(p).ok ==>
      var w, evs := EncodePage(p), PageEvents(p.revisions);
      && |w.lines| == 1 + |evs|
      && forall t :: 1 <= t < |w.lines| ==> w.lines[t] == RenderEvent(evs[|evs| - t]) && IsMarkerLine(w.lines[t])
  {
    if p.title.Some? && Attributed(p.revisions) && Stamped(p.revisions) {
      TitledNewestFirst(p.title.value, PageEvents(p.revisions));
    }
  }

  /** The event lines of a page follow its title in strictly decreasing
      timestamp order: the line written later carries the earlier timestamp. */
  lemma WrittenNewestFirst(p: Page)
    requires EncodePage(p).ok
    ensures var w, evs := EncodePage(p).lines, PageEvents(p.revisions);
      && |w| == 1 + |evs| && w[0] == p.title.value
      && forall s, t :: 1 <= s < t < |w| ==>
           && w[s] == RenderEvent(evs[|evs| - s]) && w[t] == RenderEvent(evs[|evs| - t])
           && StrLess(evs[|evs| - t].stamp, evs[|evs| - s].stamp)
  {
    EncodePageShape(p);
    PageEventsFacts(p.revisions);
  }

  /** Running `first` and then, if it did not raise, `second`. */
  function Then(first: Written, second: Written): (w: Written)
    ensures first.ok ==> w == Written(first.lines + second.lines, second.ok)
    ensures !first.ok ==> w == first
  {
    if first.ok then Written(first.lines + second.lines, second.ok) else first
  }

  /** Running the steps in order, stopping at the first that raises. */
  function RunAll(ws: seq<Written>): Written {
    if ws == [] then Written([], true) else Then(RunAll(ws[..|ws| - 1]), ws[|ws| - 1])
  }

  lemma ThenAssociative(a: Written, b: Written, c: Written)
    ensures Then(Then(a, b), c) == Then(a, Then(b, c))
  {
    if a.ok && b.ok {
      assert a.lines + b.lines + c.lines == a.lines + (b.lines + c.lines);
    }
  }

  /** Running two lists of steps one after the other is running their
      concatenation. */
  lemma {:induction false} RunAllAppend(a: seq<Written>, b: seq<Written>)
    ensures RunAll(a + b) == Then(RunAll(a), RunAll(b))
    decreases |b|
  {
    if b == [] {
      assert a + b == a;
      assert RunAll(a).lines + [] == RunAll(a).lines;
    } else {
      AppendDropLast(a, b);
      RunAllAppend(a, b[..|b| - 1]);
      ThenAssociative(RunAll(a), RunAll(b[..|b| - 1]), b[|b| - 1]);
    }
  }

  /** The steps of a batch: one per page. */
  function EncodePages(pages: seq<Page>): (ws: seq<Written>)
    ensures |ws| == |pages|
  {
    if pages == [] then [] else EncodePages(pages[..|pages| - 1]) + [EncodePage(pages[|pages| - 1])]
  }

  lemma {:induction false} EncodePagesAppend(a: seq<Page>, b: seq<Page>)
    ensures EncodePages(a + b) == EncodePages(a) + EncodePages(b)
    decreases |b|
  {
    if b == [] {
      assert a + b == a;
    } else {
      AppendDropLast(a, b);
      EncodePagesAppend(a, b[..|b| - 1]);
    }
  }

  /** The lines a batch contributes: pages in order, stopping at the first page
      that raises. */
  function EncodeBatch(pages: seq<Page>): Written {
    RunAll(EncodePages(pages))
  }

  /** Encoding two batches one after the other writes what encoding their
      concatenation writes. */
  lemma EncodeBatchAppend(a: seq<Page>, b: seq<Page>)
    ensures EncodeBatch(a + b) == Then(EncodeBatch(a), EncodeBatch(b))
  {
    EncodePagesAppend(a, b);
    RunAllAppend(EncodePages(a), EncodePages(b));
  }

  // ---------------------------------------------------------------------
  // The encoder as the source runs it
  // ---------------------------------------------------------------------

  lemma StampsSnoc(revs: seq<Revision>, r: Revision)
    ensures Stamps(revs + [r]) == if r.timestamp.Some? then Stamps(revs) + [r.timestamp.value] else Stamps(revs)
  {
    assert (revs + [r])[..|revs|] == revs;
    assert Stamps(revs) + [] == Stamps(revs);
  }

  lemma TimeMapSnoc(revs: seq<Revision>, r: Revision)
    ensures TimeMap(revs + [r]) == if r.timestamp.Some? then TimeMap(revs)[r.timestamp.value := EntryOf(r)] else TimeMap(revs)
  {
    assert (revs + [r])[..|revs|] == revs;
  }

  lemma StampedSnoc(revs: seq<Revision>, r: Revision)
    ensures Stamped(revs + [r]) == (Stamped(revs) && r.timestamp.Some?)
  {
    assert forall i :: 0 <= i < |revs| ==> (revs + [r])[i] == revs[i];
    assert (revs + [r])[|revs|] == r;
  }

  /** What the first per-page loop keeps: the dict keyed by timestamp, its keys
      in insertion order and whether every revision so far had a timestamp. */
  datatype Collected = Collected(timeMapper: map<string, Entry>, keys: seq<string>, stamped: bool)

  /** One revision taken in by the first per-page loop. */
  function Absorb(c: Collected, rev: Revision): Collected {
    match rev.timestamp
    case None => Collected(c.timeMapper, c.keys, false)
    case Some(time) =>
      Collected(c.timeMapper[time := EntryOf(rev)], if time in c.timeMapper then c.keys else c.keys + [time], c.stamped)
  }

  /** The first per-page loop over the revisions, step by step as it runs. */
  function Collect(revs: seq<Revision>): Collected {
    if revs == [] then Collected(map[], [], true) else Absorb(Collect(revs[..|revs| - 1]), revs[|revs| - 1])
  }

  /** One step of the first per-page loop: the dict, its key order and the
      all-stamped flag after one more revision. */
  lemma AbsorbMeaning(done: seq<Revision>, rev: Revision)
    ensures Absorb(Collected(TimeMap(done), Distinct(Stamps(done)), Stamped(done)), rev)
         == Collected(TimeMap(done + [rev]), Distinct(Stamps(done + [rev])), Stamped(done + [rev]))
  {
    StampsSnoc(done, rev);
    TimeMapSnoc(done, rev);
    StampedSnoc(done, rev);
    if rev.timestamp.Some? {
      DistinctSnoc(Stamps(done), rev.timestamp.value);
    }
  }

  lemma CollectSnoc(revs: seq<Revision>, j: nat)
    requires j < |revs|
    ensures Collect(revs[..j + 1]) == Absorb(Collect(revs[..j]), revs[j])
  {
    assert revs[..j + 1][..j] == revs[..j];
  }

  /** The loop builds the dict of the last revision per timestamp, lists each
      timestamp once in first-seen order and notes whether one was missing. */
  lemma {:induction false} CollectMeaning(revs: seq<Revision>)
    ensures Collect(revs) == Collected(TimeMap(revs), Distinct(Stamps(revs)), Stamped(revs))
  {
    if revs != [] {
      var p, rev := revs[..|revs| - 1], revs[|revs| - 1];
      CollectMeaning(p);
      AbsorbMeaning(p, rev);
      assert revs == p + [rev];
    }
  }

  /** The first per-page loop (src/etl.py:151-166): fill the dict keyed by
      timestamp and keep its key order; note whether a timestamp was missing.
      A revision without a contributor ends the loop: `attributed` is false,
      and the page raises there. */
  method CollectByTime(revs: seq<Revision>)
    returns (timeMapper: map<string, Entry>, keys: seq<string>, stamped: bool, attributed: bool)
    ensures attributed == Attributed(revs)
    ensures attributed ==> timeMapper == TimeMap(revs)
    ensures attributed ==> keys == Distinct(Stamps(revs))
    ensures attributed ==> stamped == Stamped(revs)
  {
    timeMapper, keys, stamped, attributed := map[], [], true, true;
    var j := 0;
    while j < |revs|
      invariant 0 <= j <= |revs|
      invariant Collected(timeMapper, keys, stamped) == Collect(revs[..j])
      invariant forall i :: 0 <= i < j ==> revs[i].hasContributor
    {
      var rev := revs[j];
      if !rev.hasContributor {
        return timeMapper, keys, stamped, false;
      }
      match rev.timestamp {
        case None =>
          stamped := false;
        case Some(time) =>
          if time !in timeMapper {
            keys := keys + [time];
          }
          timeMapper := timeMapper[time := EntryOf(rev)];
      }
      CollectSnoc(revs, j);
      j := j + 1;
    }
    assert revs[..j] == revs;
    CollectMeaning(revs);
  }

  /** One step of the numbering walk at position `k`: the event it writes and
      the dict it leaves. */
  lemma NumberStep(stamps: seq<string>, tm: map<string, Entry>, k: nat, revMapper: map<Option<string>, nat>, revCount: nat)
    requires forall s :: s in stamps ==> s in tm
    requires k < |stamps| && IdsSoFar(Contents(stamps, tm), k, revMapper, revCount)
    ensures var c := tm[stamps[k]].content;
      && EventAt(stamps, tm, k) == Event(stamps[k], c in revMapper, if c in revMapper then revMapper[c] else revCount, tm[stamps[k]].editor)
      && (c !in revMapper ==> IdsSoFar(Contents(stamps, tm), k + 1, revMapper[c := revCount], revCount + 1))
      && (c in revMapper ==> IdsSoFar(Contents(stamps, tm), k + 1, revMapper, revCount))
  {
    var cs := Contents(stamps, tm);
    var c := tm[stamps[k]].content;
    assert c == cs[k];
    WalkIdIsContentId(cs, k);
    if c !in revMapper {
      NumberNew(cs, k, revMapper, revCount);
    } else {
      NumberOld(cs, k, revMapper, revCount);
    }
  }

  /** The state of the numbering walk: the dict from content to id, the next
      free id and the events written so far. */
  datatype WalkState = WalkState(revMapper: map<Option<string>, nat>, revCount: nat, events: seq<Event>)

  /** The walk over the first `k` timestamps, step by step as the loop takes it. */
  function Walk(stamps: seq<string>, tm: map<string, Entry>, k: nat): (w: WalkState)
    requires forall s :: s in stamps ==> s in tm
    requires k <= |stamps|
    ensures |w.events| == k
  {
    if k == 0 then WalkState(map[], 1, [])
    else
      var w := Walk(stamps, tm, k - 1);
      var time := stamps[k - 1];
      var c := tm[time].content;
      if c in w.revMapper then
        WalkState(w.revMapper, w.revCount, w.events + [Event(time, true, w.revMapper[c], tm[time].editor)])
      else
        WalkState(w.revMapper[c := w.revCount], w.revCount + 1, w.events + [Event(time, false, w.revCount, tm[time].editor)])
  }

  /** One more step of the walk, from the state it has reached. */
  lemma WalkNext(stamps: seq<string>, tm: map<string, Entry>, k: nat, w: WalkState)
    requires forall s :: s in stamps ==> s in tm
    requires k < |stamps| && Walk(stamps, tm, k) == w
    ensures var time := stamps[k]; var c := tm[time].content;
      Walk(stamps, tm, k + 1) ==
        if c in w.revMapper then WalkState(w.revMapper, w.revCount, w.events + [Event(time, true, w.revMapper[c], tm[time].editor)])
        else WalkState(w.revMapper[c := w.revCount], w.revCount + 1, w.events + [Event(time, false, w.revCount, tm[time].editor)])
  {
  }

  lemma {:induction false} WalkIds(stamps: seq<string>, tm: map<string, Entry>, k: nat)
    requires forall s :: s in stamps ==> s in tm
    requires k <= |stamps|
    ensures IdsSoFar(Contents(stamps, tm), k, Walk(stamps, tm, k).revMapper, Walk(stamps, tm, k).revCount)
  {
    var cs := Contents(stamps, tm);
    if k == 0 {
      assert cs[..0] == [];
    } else {
      WalkIds(stamps, tm, k - 1);
      var w := Walk(stamps, tm, k - 1);
      NumberStep(stamps, tm, k - 1, w.revMapper, w.revCount);
      var c := tm[stamps[k - 1]].content;
      if c in w.revMapper {
        assert Walk(stamps, tm, k).revMapper == w.revMapper && Walk(stamps, tm, k).revCount == w.revCount;
      } else {
        assert Walk(stamps, tm, k).revMapper == w.revMapper[c := w.revCount] && Walk(stamps, tm, k).revCount == w.revCount + 1;
      }
    }
  }

  /** The walk meets the events of the reference numbering, in ascending order. */
  lemma {:induction false} WalkMeaning(stamps: seq<string>, tm: map<string, Entry>, k: nat)
    requires forall s :: s in stamps ==> s in tm
    requires k <= |stamps|
    ensures Walk(stamps, tm, k).events == EventsUpTo(stamps, tm, k)
  {
    if k > 0 {
      WalkMeaning(stamps, tm, k - 1);
      WalkIds(stamps, tm, k - 1);
      var w := Walk(stamps, tm, k - 1);
      NumberStep(stamps, tm, k - 1, w.revMapper, w.revCount);
    }
  }

  /** The second per-page loop (src/etl.py:173-189): walk the timestamps in
      ascending order, give each new content the next id from 1 and flag a
      content seen before as a revert, reusing its id. */
  method NumberEvents(stamps: seq<string>, timeMapper: map<string, Entry>) returns (lines: seq<string>)
    requires forall s :: s in stamps ==> s in timeMapper
    ensures lines == RenderLines(EventsOf(stamps, timeMapper))
  {
    var revMapper: map<Option<string>, nat> := map[];
    var revCount := 1;
    lines := [];
    var k := 0;
    while k < |stamps|
      invariant 0 <= k <= |stamps|
      invariant Walk(stamps, timeMapper, k).revMapper == revMapper
      invariant Walk(stamps, timeMapper, k).revCount == revCount
      invariant lines == RenderLines(Walk(stamps, timeMapper, k).events)
    {
      ghost var w := Walk(stamps, timeMapper, k);
      var time := stamps[k];
      var currRev := timeMapper[time].content;
      var user := timeMapper[time].editor;
      var revertFlag;
      if currRev !in revMapper {
        revMapper := revMapper[currRev := revCount];
        revCount := revCount + 1;
        revertFlag := false;
      } else {
        revertFlag := true;
      }
      var id := revMapper[currRev];
      var e := Event(time, revertFlag, id, user);
      WalkNext(stamps, timeMapper, k, w);
      RenderLinesSnoc(w.events, e);
      lines := lines + [RenderEvent(e)];
      k := k + 1;
    }
    WalkMeaning(stamps, timeMapper, k);
  }

  /** One page: the title line, then the numbered events written newest first. */
  method ConvertPage(page: Page) returns (written: seq<string>, ok: bool)
    ensures Written(written, ok) == EncodePage(page)
  {
    if page.title.None? {
      return [], false;
    }
    written := [page.title.value];
    var timeMapper, keys, stamped, attributed := CollectByTime(page.revisions);
    if !attributed || !stamped {
      return written, false;
    }
    AscendingStampsInTimeMap(page.revisions);
    var lines := NumberEvents(SortStrings(keys), timeMapper);
    written := written + Reverse(lines);
    ok := true;
  }

  lemma EncodeBatchStep(pages: seq<Page>, i: nat)
    requires i < |pages|
    ensures EncodeBatch(pages[..i + 1]) == Then(EncodeBatch(pages[..i]), EncodePage(pages[i]))
  {
    PrefixSnoc(pages, i);
    EncodeBatchAppend(pages[..i], [pages[i]]);
    assert EncodePages([pages[i]]) == [EncodePage(pages[i])];
  }

  /** Once a page raises, the rest of the batch writes nothing. */
  lemma EncodeBatchStops(pages: seq<Page>, i: nat)
    requires i <= |pages| && !EncodeBatch(pages[..i]).ok
    ensures EncodeBatch(pages) == EncodeBatch(pages[..i])
  {
    EncodeBatchAppend(pages[..i], pages[i..]);
    assert pages[..i] + pages[i..] == pages;
  }

  /** `convert_tree_light_format`: the lines a batch appends to the trace file,
      and whether the batch was encoded without raising. */
  method ConvertTreeLightFormat(root: seq<Page>) returns (written: seq<string>, ok: bool)
    ensures Written(written, ok) == EncodeBatch(root)
  {
    written, ok := [], true;
    var i := 0;
    while i < |root|
      invariant 0 <= i <= |root|
      invariant Written(written, true) == EncodeBatch(root[..i])
    {
      var lines, pageOk := ConvertPage(root[i]);
      EncodeBatchStep(root, i);
      written := written + lines;
      if !pageOk {
        EncodeBatchStops(root, i + 1);
        return written, false;
      }
      i := i + 1;
    }
    assert root[..i] == root;
  }
}
