/** Article extraction from light-dump trace files (`extract_article` in
    src/etl.py): the files are read line by line; a title line that names a
    desired article starts copying the event lines that follow it, and the
    next title line writes the copied lines out as that article's own trace.
    A file is a sequence of lines without their line terminators. */
module ArticleExtract {
  import opened Seqs
  import opened Strings
  import opened TraceEncoder

  /** One article written out: its title and its event lines. */
  datatype Extracted = Extracted(title: string, lines: seq<string>)

  /** The state of the scan: the titles still wanted, the article being copied
      (`""` when none: Python tests it for truthiness, and `None`, `False` and
      the empty title are all false), the place of its title line in the
      current file, the lines copied for it, the articles written, and whether
      the scan has returned early. */
  datatype Extraction = Extraction(desired: set<string>, current: string, start: nat,
                                   lines: seq<string>, files: seq<Extracted>, done: bool)

  function Init(desired: set<string>): Extraction {
    Extraction(desired, "", 0, [], [], false)
  }

  /** Writing out the article being copied, if any; when no title is wanted any
      more the scan returns right after. */
  function Flush(st: Extraction): (r: Extraction)
    ensures r.current == ""
  {
    if st.current != "" then
      Extraction(st.desired, "", st.start, [], st.files + [Extracted(st.current, st.lines)], st.desired == {})
    else st
  }

  /** One line of a file, at position `pos`: an event line is copied when an
      article is being copied; any other line ends the article being copied
      and, when its stripped text is still wanted, starts copying that one. */
  function Step(st: Extraction, line: string, pos: nat): Extraction {
    if st.done then st
    else if IsMarkerLine(line) then
      if st.current != "" then st.(lines := st.lines + [line]) else st
    else
      var st1 := Flush(st);
      var t := RStrip(line);
      if st1.done || t !in st1.desired then st1
      else st1.(desired := st1.desired - {t}, current := t, start := pos)
  }

  /** Between two files the source forgets the article being copied; with
      `fixed` it is written out first, as at a title line. */
  function FileBoundary(st: Extraction, fixed: bool): Extraction {
    if st.done then st
    else
      var st1 := if fixed then Flush(st) else st;
      st1.(current := "", lines := [])
  }

  /** The state after the first `i` lines of file `f`. */
  function ScanTo(fps: seq<seq<string>>, desired: set<string>, fixed: bool, f: nat, i: nat): Extraction
    requires f < |fps| && i <= |fps[f]|
    decreases f, i
  {
    if i > 0 then Step(ScanTo(fps, desired, fixed, f, i - 1), fps[f][i - 1], i - 1)
    else if f == 0 then Init(desired)
    else FileBoundary(ScanTo(fps, desired, fixed, f - 1, |fps[f - 1]|), fixed)
  }

  /** The state after all the files. */
  function ScanAll(fps: seq<seq<string>>, desired: set<string>, fixed: bool): Extraction {
    if fps == [] then Init(desired) else ScanTo(fps, desired, fixed, |fps| - 1, |fps[|fps| - 1]|)
  }

  /** The articles written when the scan ends: the one still being copied at
      the end of the last file is written too. */
  function Finish(st: Extraction): seq<Extracted> {
    if st.done then st.files else Flush(st).files
  }

  // ---------------------------------------------------------------------
  // The independent description of what is extracted
  // ---------------------------------------------------------------------

  /** Line `k` of file `f` is a title line whose stripped text is `t`. */
  ghost predicate TitleLine(fps: seq<seq<string>>, f: nat, k: nat, t: string) {
    f < |fps| && k < |fps[f]| && !IsMarkerLine(fps[f][k]) && RStrip(fps[f][k]) == t
  }

  /** Position `(f1, k1)` comes before `(f, k)` in reading order. */
  predicate Before(f1: nat, k1: nat, f: nat, k: nat) {
    f1 < f || (f1 == f && k1 < k)
  }

  /** The first title line of the files with stripped text `t`. */
  ghost predicate FirstTitleLine(fps: seq<seq<string>>, f: nat, k: nat, t: string) {
    TitleLine(fps, f, k, t) && forall f1: nat, k1: nat | Before(f1, k1, f, k) :: !TitleLine(fps, f1, k1, t)
  }

  /** The end of the run of event lines that starts at line `k`. */
  function RunEnd(file: seq<string>, k: nat): (j: nat)
    requires k <= |file|
    ensures k <= j <= |file|
    decreases |file| - k
  {
    if k == |file| || !IsMarkerLine(file[k]) then k else RunEnd(file, k + 1)
  }

  /** An article's expected content: the event lines right after its first
      title line, up to the next title line or the end of that file. */
  ghost predicate FromTitle(fps: seq<seq<string>>, e: Extracted) {
    exists f: nat, k: nat :: FirstTitleLine(fps, f, k, e.title) && e.lines == fps[f][k + 1..RunEnd(fps[f], k + 1)]
  }

  function Titles(es: seq<Extracted>): (ts: seq<string>)
    ensures |ts| == |es|
    ensures forall j :: 0 <= j < |es| ==> ts[j] == es[j].title
  {
    if es == [] then [] else Titles(es[..|es| - 1]) + [es[|es| - 1].title]
  }

  lemma {:induction false} RunEndAt(file: seq<string>, k: nat, j: nat)
    requires k <= j <= |file|
    requires forall m :: k <= m < j ==> IsMarkerLine(file[m])
    requires j == |file| || !IsMarkerLine(file[j])
    ensures RunEnd(file, k) == j
    decreases j - k
  {
    if k < j {
      RunEndAt(file, k + 1, j);
    }
  }

  /** An article written out with a wanted, non-empty title that is no longer
      wanted, holding the lines it should. */
  ghost predicate FileOk(fps: seq<seq<string>>, desired: set<string>, wanted: set<string>, e: Extracted) {
    e.title in desired && e.title != "" && e.title !in wanted && FromTitle(fps, e)
  }

  /** The articles written so far: distinct titles, each as it should be. */
  ghost predicate FilesGood(fps: seq<seq<string>>, desired: set<string>, wanted: set<string>, files: seq<Extracted>) {
    NoDuplicates(Titles(files)) && forall j :: 0 <= j < |files| ==> FileOk(fps, desired, wanted, files[j])
  }

  /** The article being copied after the first `i` lines of file `f` started
      at its first title line and has copied the event lines since. */
  ghost predicate CopyGood(fps: seq<seq<string>>, desired: set<string>, f: nat, i: nat, st: Extraction)
    requires f < |fps| && i <= |fps[f]|
  {
    st.current != "" ==>
      && st.current in desired && st.current !in st.desired && st.current !in Titles(st.files)
      && st.start < i && FirstTitleLine(fps, f, st.start, st.current)
      && st.lines == fps[f][st.start + 1..i]
      && forall m :: st.start < m < i ==> IsMarkerLine(fps[f][m])
  }

  /** No title line read before line `i` of file `f` names a title still wanted. */
  ghost predicate SeenGood(fps: seq<seq<string>>, f: nat, i: nat, wanted: set<string>) {
    forall f1: nat, k1: nat | Before(f1, k1, f, i) && f1 < |fps| && k1 < |fps[f1]| ::
      !IsMarkerLine(fps[f1][k1]) ==> RStrip(fps[f1][k1]) !in wanted
  }

  /** What holds of the scan after the first `i` lines of file `f`. */
  ghost predicate Good(fps: seq<seq<string>>, desired: set<string>, f: nat, i: nat, st: Extraction)
    requires f < |fps| && i <= |fps[f]|
  {
    && st.desired <= desired
    && (st.done ==> st.desired == {} && st.current == "")
    && (st.current == "" ==> st.lines == [])
    && FilesGood(fps, desired, st.desired, st.files)
    && CopyGood(fps, desired, f, i, st)
    && SeenGood(fps, f, i, st.desired)
  }

  /** Every wanted title (but the empty one) is still wanted, being copied, or
      written. */
  ghost predicate Accounted(desired: set<string>, st: Extraction) {
    forall t | t in desired && t != "" :: t in st.desired || t == st.current || t in Titles(st.files)
  }

  lemma TitlesSnoc(es: seq<Extracted>, e: Extracted)
    ensures Titles(es + [e]) == Titles(es) + [e.title]
  {
    assert (es + [e])[..|es + [e]| - 1] == es;
  }

  lemma InitGood(fps: seq<seq<string>>, desired: set<string>)
    requires 0 < |fps|
    ensures Good(fps, desired, 0, 0, Init(desired))
  {
  }

  lemma FilesShrink(fps: seq<seq<string>>, desired: set<string>, wanted: set<string>, wanted': set<string>, files: seq<Extracted>)
    requires FilesGood(fps, desired, wanted, files) && wanted' <= wanted
    ensures FilesGood(fps, desired, wanted', files)
  {
  }

  lemma FilesAppend(fps: seq<seq<string>>, desired: set<string>, wanted: set<string>, files: seq<Extracted>, e: Extracted)
    requires FilesGood(fps, desired, wanted, files) && FileOk(fps, desired, wanted, e) && e.title !in Titles(files)
    ensures FilesGood(fps, desired, wanted, files + [e])
  {
    TitlesSnoc(files, e);
    assert forall j :: 0 <= j < |files| ==> (files + [e])[j] == files[j];
  }

  /** The article being copied, written out at a title line or at the end of
      its file, holds the lines it should. */
  lemma FlushOk(fps: seq<seq<string>>, desired: set<string>, f: nat, i: nat, st: Extraction)
    requires f < |fps| && i <= |fps[f]| && CopyGood(fps, desired, f, i, st) && st.current != ""
    requires i == |fps[f]| || !IsMarkerLine(fps[f][i])
    ensures FileOk(fps, desired, st.desired, Extracted(st.current, st.lines))
  {
    RunEndAt(fps[f], st.start + 1, i);
    var e := Extracted(st.current, st.lines);
    assert FirstTitleLine(fps, f, st.start, e.title) && e.lines == fps[f][st.start + 1..RunEnd(fps[f], st.start + 1)];
  }

  lemma SeenShrink(fps: seq<seq<string>>, f: nat, i: nat, wanted: set<string>, wanted': set<string>)
    requires SeenGood(fps, f, i, wanted) && wanted' <= wanted
    ensures SeenGood(fps, f, i, wanted')
  {
  }

  lemma SeenStep(fps: seq<seq<string>>, f: nat, i: nat, wanted: set<string>)
    requires f < |fps| && i < |fps[f]| && SeenGood(fps, f, i, wanted)
    requires IsMarkerLine(fps[f][i]) || RStrip(fps[f][i]) !in wanted
    ensures SeenGood(fps, f, i + 1, wanted)
  {
  }

  lemma SeenBoundary(fps: seq<seq<string>>, f: nat, wanted: set<string>)
    requires 0 < f < |fps| && SeenGood(fps, f - 1, |fps[f - 1]|, wanted)
    ensures SeenGood(fps, f, 0, wanted)
  {
  }

  /** A title line whose text is still wanted is the first title line for it. */
  lemma SeenFirst(fps: seq<seq<string>>, f: nat, i: nat, wanted: set<string>)
    requires f < |fps| && i < |fps[f]| && SeenGood(fps, f, i, wanted)
    requires !IsMarkerLine(fps[f][i]) && RStrip(fps[f][i]) in wanted
    ensures FirstTitleLine(fps, f, i, RStrip(fps[f][i]))
  {
  }

  /** Writing out the article being copied at line `i` of file `f`, when that
      line is a title line or the end of the file, keeps the scan good. */
  lemma FlushGood(fps: seq<seq<string>>, desired: set<string>, f: nat, i: nat, st: Extraction)
    requires f < |fps| && i <= |fps[f]| && Good(fps, desired, f, i, st) && !st.done
    requires i == |fps[f]| || !IsMarkerLine(fps[f][i])
    ensures Good(fps, desired, f, i, Flush(st))
  {
    if st.current != "" {
      FlushOk(fps, desired, f, i, st);
      FilesAppend(fps, desired, st.desired, st.files, Extracted(st.current, st.lines));
    }
  }

  /** An event line keeps the scan good. */
  lemma MarkerStepGood(fps: seq<seq<string>>, desired: set<string>, f: nat, i: nat, st: Extraction)
    requires f < |fps| && i < |fps[f]| && Good(fps, desired, f, i, st) && IsMarkerLine(fps[f][i])
    ensures Good(fps, desired, f, i + 1, Step(st, fps[f][i], i))
  {
    SeenStep(fps, f, i, st.desired);
    if !st.done && st.current != "" {
      assert fps[f][st.start + 1..i + 1] == fps[f][st.start + 1..i] + [fps[f][i]];
    }
  }

  /** A title line keeps the scan good. */
  lemma TitleStepGood(fps: seq<seq<string>>, desired: set<string>, f: nat, i: nat, st: Extraction)
    requires f < |fps| && i < |fps[f]| && Good(fps, desired, f, i, st) && !IsMarkerLine(fps[f][i])
    ensures Good(fps, desired, f, i + 1, Step(st, fps[f][i], i))
  {
    if !st.done {
      FlushGood(fps, desired, f, i, st);
      var st1 := Flush(st);
      var t := RStrip(fps[f][i]);
      if st1.done || t !in st1.desired {
        SeenStep(fps, f, i, st1.desired);
      } else {
        var w := st1.desired - {t};
        SeenFirst(fps, f, i, st1.desired);
        SeenShrink(fps, f, i, st1.desired, w);
        SeenStep(fps, f, i, w);
        FilesShrink(fps, desired, st1.desired, w, st1.files);
        assert forall j :: 0 <= j < |st1.files| ==> Titles(st1.files)[j] != t;
      }
    }
  }

  /** The file boundary keeps the scan good. */
  lemma BoundaryGood(fps: seq<seq<string>>, desired: set<string>, fixed: bool, f: nat, st: Extraction)
    requires 0 < f < |fps| && Good(fps, desired, f - 1, |fps[f - 1]|, st)
    ensures Good(fps, desired, f, 0, FileBoundary(st, fixed))
  {
    if !st.done {
      var st1 := if fixed then Flush(st) else st;
      if fixed {
        FlushGood(fps, desired, f - 1, |fps[f - 1]|, st);
      }
      SeenBoundary(fps, f, st1.desired);
    } else {
      SeenBoundary(fps, f, st.desired);
    }
  }

  /** Any line keeps the scan good. */
  lemma StepGood(fps: seq<seq<string>>, desired: set<string>, f: nat, i: nat, st: Extraction)
    requires f < |fps| && i < |fps[f]| && Good(fps, desired, f, i, st)
    ensures Good(fps, desired, f, i + 1, Step(st, fps[f][i], i))
  {
    if IsMarkerLine(fps[f][i]) {
      MarkerStepGood(fps, desired, f, i, st);
    } else {
      TitleStepGood(fps, desired, f, i, st);
    }
  }

  /** The scan is good at every point. */
  lemma {:induction false} ScanToGood(fps: seq<seq<string>>, desired: set<string>, fixed: bool, f: nat, i: nat)
    requires f < |fps| && i <= |fps[f]|
    ensures Good(fps, desired, f, i, ScanTo(fps, desired, fixed, f, i))
    decreases f, i
  {
    if i > 0 {
      var prev := ScanTo(fps, desired, fixed, f, i - 1);
      assert ScanTo(fps, desired, fixed, f, i) == Step(prev, fps[f][i - 1], i - 1);
      ScanToGood(fps, desired, fixed, f, i - 1);
      StepGood(fps, desired, f, i - 1, prev);
    } else if f == 0 {
      InitGood(fps, desired);
    } else {
      var prev := ScanTo(fps, desired, fixed, f - 1, |fps[f - 1]|);
      assert ScanTo(fps, desired, fixed, f, 0) == FileBoundary(prev, fixed);
      ScanToGood(fps, desired, fixed, f - 1, |fps[f - 1]|);
      BoundaryGood(fps, desired, fixed, f, prev);
    }
  }

  lemma FlushAccounted(desired: set<string>, st: Extraction)
    requires Accounted(desired, st)
    ensures Accounted(desired, Flush(st))
  {
    if st.current != "" {
      TitlesSnoc(st.files, Extracted(st.current, st.lines));
    }
  }

  /** With the corrected file boundary no wanted title is ever lost. */
  lemma {:induction false} ScanToAccounted(fps: seq<seq<string>>, desired: set<string>, f: nat, i: nat)
    requires f < |fps| && i <= |fps[f]|
    ensures Accounted(desired, ScanTo(fps, desired, true, f, i))
    decreases f, i
  {
    if i > 0 {
      ScanToAccounted(fps, desired, f, i - 1);
      FlushAccounted(desired, ScanTo(fps, desired, true, f, i - 1));
    } else if f > 0 {
      ScanToAccounted(fps, desired, f - 1, |fps[f - 1]|);
      FlushAccounted(desired, ScanTo(fps, desired, true, f - 1, |fps[f - 1]|));
    }
  }

  /** After the early return nothing changes any more. */
  lemma {:induction false} DoneStays(fps: seq<seq<string>>, desired: set<string>, fixed: bool, f: nat, i: nat)
    requires f < |fps| && i <= |fps[f]| && ScanTo(fps, desired, fixed, f, i).done
    ensures ScanAll(fps, desired, fixed) == ScanTo(fps, desired, fixed, f, i)
    decreases |fps| - f, |fps[f]| - i
  {
    if i < |fps[f]| {
      DoneStays(fps, desired, fixed, f, i + 1);
    } else if f + 1 < |fps| {
      DoneStays(fps, desired, fixed, f + 1, 0);
    }
  }

  /** No title line of the files names a title still wanted. */
  ghost predicate SeenAll(fps: seq<seq<string>>, wanted: set<string>) {
    forall t, f: nat, k: nat | TitleLine(fps, f, k, t) :: t !in wanted
  }

  /** At the end of the scan the written articles are good and every title
      line has been seen. */
  lemma EndGood(fps: seq<seq<string>>, desired: set<string>, fixed: bool)
    ensures var st := ScanAll(fps, desired, fixed);
      && FilesGood(fps, desired, st.desired, Finish(st)) && st.desired <= desired && SeenAll(fps, st.desired)
  {
    if fps != [] {
      var f := |fps| - 1;
      ScanToGood(fps, desired, fixed, f, |fps[f]|);
      var st := ScanTo(fps, desired, fixed, f, |fps[f]|);
      assert ScanAll(fps, desired, fixed) == st;
      if !st.done {
        FlushGood(fps, desired, f, |fps[f]|, st);
      }
      forall t, f1: nat, k1: nat | TitleLine(fps, f1, k1, t) ensures t !in st.desired {
        assert Before(f1, k1, f, |fps[f]|);
      }
    }
  }

  /** What every run of the scan guarantees, with the file boundary as written
      or corrected: each article is written at most once, only wanted titles
      are written, each article holds the event lines right after its first
      title line, and a title reported missing has no title line at all. */
  lemma ExtractSound(fps: seq<seq<string>>, desired: set<string>, fixed: bool)
    ensures var st := ScanAll(fps, desired, fixed); var out := Finish(st);
      && NoDuplicates(Titles(out))
      && (forall j :: 0 <= j < |out| ==>
            out[j].title in desired && out[j].title != "" && out[j].title !in st.desired && FromTitle(fps, out[j]))
      && st.desired <= desired
      && forall t, f: nat, k: nat | TitleLine(fps, f, k, t) :: t !in st.desired
  {
    EndGood(fps, desired, fixed);
    var st := ScanAll(fps, desired, fixed);
    var out := Finish(st);
    assert forall j :: 0 <= j < |out| ==> FileOk(fps, desired, st.desired, out[j]);
  }

  /** With the corrected file boundary every wanted title (but the empty one)
      is at the end either written or still wanted. */
  lemma EndAccounted(fps: seq<seq<string>>, desired: set<string>)
    ensures var st := ScanAll(fps, desired, true);
      forall t | t in desired && t != "" :: t in st.desired || t in Titles(Finish(st))
  {
    var st := ScanAll(fps, desired, true);
    if fps != [] {
      var f := |fps| - 1;
      ScanToAccounted(fps, desired, f, |fps[f]|);
      ScanToGood(fps, desired, true, f, |fps[f]|);
      assert st == ScanTo(fps, desired, true, f, |fps[f]|);
    }
    FlushAccounted(desired, st);
  }

  /** With the corrected file boundary a wanted title (other than the empty
      one) is written exactly when some file has a title line for it, and is
      reported missing otherwise. */
  lemma ExtractFixedExact(fps: seq<seq<string>>, desired: set<string>, t: string)
    requires t in desired && t != ""
    ensures var st := ScanAll(fps, desired, true);
      && (t in Titles(Finish(st)) <==> exists f: nat, k: nat :: TitleLine(fps, f, k, t))
      && (t in st.desired <==> !exists f: nat, k: nat :: TitleLine(fps, f, k, t))
  {
    EndGood(fps, desired, true);
    EndAccounted(fps, desired);
    var st := ScanAll(fps, desired, true);
    var out := Finish(st);
    if t in Titles(out) {
      var j :| 0 <= j < |out| && Titles(out)[j] == t;
      assert FileOk(fps, desired, st.desired, out[j]);
      var f: nat, k: nat :| FirstTitleLine(fps, f, k, out[j].title) && out[j].lines == fps[f][k + 1..RunEnd(fps[f], k + 1)];
      assert TitleLine(fps, f, k, t);
    }
  }

  // ---------------------------------------------------------------------
  // The scan as the source runs it
  // ---------------------------------------------------------------------

  /** `extract_article`: the articles written, in order, and the titles
      reported as not extracted. */
  method ExtractArticle(fps: seq<seq<string>>, desiredArticles: set<string>)
    returns (extracted: seq<Extracted>, missing: set<string>)
    ensures extracted == Finish(ScanAll(fps, desiredArticles, false))
    ensures missing == ScanAll(fps, desiredArticles, false).desired
  {
    var desired := desiredArticles;
    var current: string := "";
    var lines: seq<string> := [];
    ghost var start: nat := 0;
    extracted := [];
    var f := 0;
    while f < |fps|
      invariant 0 <= f <= |fps|
      invariant f == 0 ==> Extraction(desired, current, start, lines, extracted, false) == Init(desiredArticles)
      invariant 0 < f ==> Extraction(desired, current, start, lines, extracted, false) == ScanTo(fps, desiredArticles, false, f - 1, |fps[f - 1]|)
    {
      current, lines := "", [];
      var i := 0;
      while i < |fps[f]|
        invariant 0 <= i <= |fps[f]|
        invariant Extraction(desired, current, start, lines, extracted, false) == ScanTo(fps, desiredArticles, false, f, i)
      {
        var line := fps[f][i];
        if !IsMarkerLine(line) {
          if current != "" {
            extracted := extracted + [Extracted(current, lines)];
            current, lines := "", [];
            if desired == {} {
              DoneStays(fps, desiredArticles, false, f, i + 1);
              return extracted, desired;
            }
          }
          var t := RStrip(line);
          if t in desired {
            current := t;
            start := i;
            desired := desired - {t};
          }
        } else if current != "" {
          lines := lines + [line];
        }
        i := i + 1;
      }
      f := f + 1;
    }
    if current != "" {
      extracted := extracted + [Extracted(current, lines)];
    }
    missing := desired;
  }

  /** As written, an article whose copied lines run to the end of a file other
      than the last is lost: it is neither written nor reported missing. */
  lemma LostAtFileEnd()
    ensures var fps := [["Anarchism", "^^^_1 0 1 Alice"], ["Zoology"]];
      && Finish(ScanAll(fps, {"Anarchism"}, false)) == []
      && ScanAll(fps, {"Anarchism"}, false).desired == {}
  {
    var fps := [["Anarchism", "^^^_1 0 1 Alice"], ["Zoology"]];
    var d := {"Anarchism"};
    ExampleLines();
    assert ScanTo(fps, d, false, 0, 1) == Extraction({}, "Anarchism", 0, [], [], false);
    assert ScanTo(fps, d, false, 0, 2) == Extraction({}, "Anarchism", 0, [fps[0][1]], [], false);
    assert ScanTo(fps, d, false, 1, 0) == Extraction({}, "", 0, [], [], false);
    assert ScanTo(fps, d, false, 1, 1) == Extraction({}, "", 0, [], [], false);
  }

  /** With the corrected file boundary the same files give the article. */
  lemma KeptAtFileEnd()
    ensures var fps := [["Anarchism", "^^^_1 0 1 Alice"], ["Zoology"]];
      Finish(ScanAll(fps, {"Anarchism"}, true)) == [Extracted("Anarchism", ["^^^_1 0 1 Alice"])]
  {
    var fps := [["Anarchism", "^^^_1 0 1 Alice"], ["Zoology"]];
    var d := {"Anarchism"};
    ExampleLines();
    assert ScanTo(fps, d, true, 0, 1) == Extraction({}, "Anarchism", 0, [], [], false);
    assert ScanTo(fps, d, true, 0, 2) == Extraction({}, "Anarchism", 0, [fps[0][1]], [], false);
    assert ScanTo(fps, d, true, 1, 0) == Extraction({}, "", 0, [], [Extracted("Anarchism", [fps[0][1]])], true);
    assert ScanTo(fps, d, true, 1, 1) == ScanTo(fps, d, true, 1, 0);
  }

  /** The lines of the example: two titles and one event line. */
  lemma ExampleLines()
    ensures !IsMarkerLine("Anarchism") && !IsMarkerLine("Zoology") && IsMarkerLine("^^^_1 0 1 Alice")
    ensures RStrip("Anarchism") == "Anarchism" && RStrip("Zoology") == "Zoology"
  {
    assert "Anarchism"[0] == 'A' && "Zoology"[0] == 'Z';
    assert "^^^_1 0 1 Alice"[..3] == ['^', '^', '^'];
  }
}
