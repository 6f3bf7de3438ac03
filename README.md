# Wikipedia edit-war statistics: compact traces and the M-statistic

This project models, in Dafny, the two computational parts of a pipeline that
measures how controversial Wikipedia articles are.

1. **The compact-trace encoder** (`src/etl.py`). Pages stream out of a
   Wikipedia history dump and are grouped into batches, `page_chunk` pages to a
   batch (`context_to_txt`). Each batch is written to a light dump
   (`convert_tree_light_format`). For each page that means:
   - a title line;
   - one event line `^^^_<timestamp> <revert flag> <content id> <editor>` per
     distinct revision timestamp, written newest first.

   Revisions are keyed by timestamp; when two share one, the later one wins.
   Content ids are handed out in ascending time, first-seen from 1. A content
   seen before is flagged as a revert and gets its earlier id back. The editor
   token is the username, or else the IP, with spaces turned into `_`. Reading
   one field of a dump element is `get_tag_if_exists`. `extract_article`
   copies the event lines of wanted titles out of light dumps.
2. **The M-statistic engine** (`src/m_stat.py`).
   - `update_line` records the editor token and content id of one event line
     in the article's structures:
     - the editor token gets a dense id in first-seen order;
     - that id's edit count goes up.
   - `get_m_stat` reads the history oldest first. A content id below the next
     fresh id is a revert. Each revert that counts gives a pair (reverter,
     reverted editor) with strength min(edit counts). The score is:
     - the sum of the strengths other than the largest;
     - times the number of editors involved in reverts both ways.
   - `grab_m_stat_over_time` reads one article's light dump from its last line
     to its first and writes the statistic after every event.

Every method is proved against a reference function of its inputs. Lemmas
prove what those functions mean:
- reverts are repeated contents;
- ids are dense;
- no page is lost or repeated by the batching;
- the mutual-editor set is symmetric;
- the rows of the time series are the one-go statistics of the history
  prefixes.

`RevertAgreement` links the two components. On the ids the encoder writes,
`get_m_stat` sees a revert exactly where the encoder set the revert flag.

Modules (one file each):
- `Seqs` (seqs.dfy) and `Strings` (strings.dfy): sequence and string helpers:
  - splitting on white space;
  - the right strip;
  - integer text;
  - string order and sorting.
- `Numbering` (numbering.dfy): first-seen content ids.
- `TraceEncoder` (encoder.dfy): `get_tag_if_exists`, the page records and
  `convert_tree_light_format`.
- `DumpReader` (reader.dfy): `context_to_txt`.
- `ArticleExtract` (extract.dfy): `extract_article`.
- `MStatistic` (mstat.dfy): `get_m_stat`.
- `EditTally` (tally.dfy): `update_line`, as the class `ArticleState` that
  holds the caller's structures.
- `MStatOverTime` (overtime.dfy): the per-event loop of `grab_m_stat_over_time`.
- `RevertAgreement` (agreement.dfy): the link between the encoder's revert
  flags and `get_m_stat`'s revert test.

## Model

| member | source | states |
|---|---|---|
| TraceEncoder.GetTagIfExists | src/etl.py:128-132 | no child with the field's tag gives `None`; when there is such a child, the result is the text of the first one, and a text is only ever returned as the text of that first child |
| TraceEncoder.ReadRevision | src/etl.py:155-162 | a revision records whether it has a contributor; its timestamp and text are those of its first `timestamp` and `text` children (`None` without one); its editor token is the first username's text with spaces turned into `_` when that text is non-empty, otherwise the first IP's text so converted, and `None` when there is no IP text either |
| TraceEncoder.Editor | src/etl.py:158-164 | the editor token is a non-empty username, else the IP, character by character with spaces turned into `_`; it never contains a space; it is `None` when both are absent; it is empty exactly when the username is absent or empty and the IP is empty |
| TraceEncoder.TimeMapLastWins | src/etl.py:151-166 | when several revisions share a timestamp, the dict holds the entry of the last of them in dump order |
| TraceEncoder.CollectByTime | src/etl.py:151-166 | the first per-page loop reports whether every revision has a contributor (it stops at the first that has none); when all do, it builds the dict of the last revision per timestamp, lists each timestamp once and reports whether one was missing |
| TraceEncoder.PageEventsFacts | src/etl.py:151-177 | a page has one event per distinct timestamp, in strictly ascending timestamp order; each event carries the editor of the revision stored under its timestamp |
| TraceEncoder.EventsOfNumbering | src/etl.py:173-186 | ids run from 1 to the number of distinct contents; two events share an id iff they share content; an event is a revert iff an earlier event has its id; the first event is new with id 1; a new content gets 1 + the number of earlier new contents |
| TraceEncoder.WalkMeaning | src/etl.py:173-189 | the numbering walk, step by step, produces exactly the reference events |
| TraceEncoder.NumberEvents | src/etl.py:173-189 | the second per-page loop writes the rendered reference events in ascending time |
| TraceEncoder.RenderEventMarked | src/etl.py:178 | every event line starts with the `^^^` marker |
| TraceEncoder.SplitRenderedEvent | src/etl.py:187-188 | an event line splits back into its four fields when the timestamp has no white space and the editor token is a non-empty word |
| TraceEncoder.EncodePageShape | src/etl.py:144-190 | a page encodes without raising iff it has a title and every revision has a contributor and a timestamp; the title line comes first; a missing title writes nothing; a page that raises after its title writes the title line alone; on success there is one marker line per event, newest first |
| TraceEncoder.WrittenNewestFirst | src/etl.py:176-190 | the event lines after the title have strictly decreasing timestamps |
| TraceEncoder.ConvertPage | src/etl.py:145-190 | encoding one page writes what `EncodePage` says, and raises where it raises |
| TraceEncoder.ConvertTreeLightFormat | src/etl.py:135-191 | a batch writes its pages in order and stops at the first page that raises |
| TraceEncoder.EncodeBatchAppend | src/etl.py:144 | encoding two batches one after the other writes what encoding their concatenation writes |
| DumpReader.RunCovers | src/etl.py:69-80 | the flushed batches, followed by the waiting batch, are exactly the pages in stream order; the page counter is one past the number of pages |
| DumpReader.RunSizes | src/etl.py:72-80 | for a positive chunk size, one flush happens per multiple of the chunk; the first batch holds chunk-1 pages and later ones exactly chunk pages; the waiting batch never exceeds the chunk |
| DumpReader.ReadIsRun | src/etl.py:69-80 | the loop's output is the flushed batches encoded one after the other |
| DumpReader.StreamPages | src/etl.py:69-85 | the per-page loop reaches the reference state, or stops with the output of the flush that raised |
| DumpReader.ContextToTxt | src/etl.py:45-91 | `context_to_txt` as written: the trace file receives the encoding of the batches it hands over, including the final flush only when the counter is not a multiple of the chunk |
| DumpReader.ContextOutputIsBatch | src/etl.py:69-90 | the output as written is the encoding of the concatenated batches handed over |
| DumpReader.AsWrittenCovers | src/etl.py:86-90 | the batches handed over cover the stream iff it is empty or (N+1) mod chunk ≠ 0; otherwise they cover all but the trailing batch |
| DumpReader.NinePagesWriteNothing | src/etl.py:86-90 | with the default chunk of 10, nine pages write nothing and report no error |
| DumpReader.ContextToTxtFixed | src/etl.py:86-90 | with the final flush made whenever the batch holds a page, the output is the encoding of the whole stream as one batch |
| DumpReader.FixedOutputIsBatch | src/etl.py:69-90 | the corrected loop writes the encoding of every page, for any non-zero chunk |
| DumpReader.FixedFlushesCover | src/etl.py:72-90 | the corrected batches concatenate to the stream |
| ArticleExtract.ExtractArticle | src/etl.py:388-447 | the articles written and the titles still wanted are those of the reference scan with the source's file boundary |
| ArticleExtract.ExtractSound | src/etl.py:404-444 | no article is written twice; only wanted, non-empty titles are written; an article's lines are the marker lines right after its first title line, up to the next title line or the end of that file; a title still wanted at the end (reported missing) has no title line in any file |
| ArticleExtract.EndAccounted | src/etl.py:401-444 | with the corrected boundary, every wanted non-empty title ends either written or still wanted |
| ArticleExtract.ExtractFixedExact | src/etl.py:401-447 | with the corrected boundary, a wanted title is written iff some file has a title line for it, and is reported missing iff no file has one |
| ArticleExtract.LostAtFileEnd | src/etl.py:401-402 | as written, an article whose lines run to the end of a non-final file is neither written nor reported missing |
| ArticleExtract.KeptAtFileEnd | src/etl.py:401-444 | with the corrected boundary, the same files give that article |
| MStatistic.LastIndex | src/m_stat.py:83-87 | `rev_map[id]` is the last non-revert position before `k` that carries `id`; no later non-revert carries it; it is absent when there is none |
| MStatistic.CountedAt | src/m_stat.py:43-61 | a counted revert at `i` has `editor_order[i]` as reverter, and it is never a self-revert |
| MStatistic.StepCounted | src/m_stat.py:43-79 | with `next_val` and `rev_map` as tracked, the loop body at a revert records exactly the revert the reference counts there; a duplicate next id, a self-revert or a failed lookup records nothing |
| MStatistic.MRunMeans | src/m_stat.py:38-87 | after k positions: `next_val` is 1 + the number of non-reverts; `rev_map` holds each id's last non-revert position; the histogram counts the strengths; `max_m_val` is the largest strength; `mutual_revs` is who reverted whom; the mutual set is the reference one |
| MStatistic.ScanHistory | src/m_stat.py:38-87 | the loop of `get_m_stat` reaches the reference state after the whole history |
| MStatistic.MaxOfIsMax | src/m_stat.py:62-63 | `max_m_val` is one of the strengths and none exceeds it, so the deleted bucket exists |
| MStatistic.MutualOfMeaning | src/m_stat.py:70-77 | an editor is in the mutual set iff it reverted some other editor who also reverted it, whichever came first |
| MStatistic.SumCounts | src/m_stat.py:91 | `sum(m_val_dict.values())` is the number of strengths the histogram counts |
| MStatistic.SumWeights | src/m_stat.py:96 | `sum(k * v)` over the histogram is the sum of the strengths it counts |
| MStatistic.Weigh | src/m_stat.py:91-96 | on a non-empty histogram, `num_reverts` is the number of counted reverts, and the remaining sum is the sum of the strengths other than the largest |
| MStatistic.Summarize | src/m_stat.py:89-102 | from the loop's final variables the result is the reference statistic |
| MStatistic.GetMStat | src/m_stat.py:9-102 | `get_m_stat` on ids and editors given newest first returns the reference statistic of the history read oldest first |
| MStatistic.MStatOfShape | src/m_stat.py:89-101 | the result is `0` iff no revert counts; otherwise the extra statistics are present iff asked for, and report the edits, counted reverts, distinct editors and mutual editors |
| MStatistic.ScoreZeroOneStrength | src/m_stat.py:93-97 | the score is 0 when every counted revert has the same strength |
| MStatistic.ScoreZeroNoMutual | src/m_stat.py:96-97 | the score is 0 when no counted revert is answered in the opposite direction |
| MStatistic.OneEditNoReverts | src/m_stat.py:38-43 | a one-edit history has no counted revert |
| MStatistic.AlternatingSelfReverts | src/m_stat.py:47-57 | ids 1,1,2,1 by editors A,B,A,B count no revert: the editor after the reverted-to version is the reverter both times |
| EditTally.FirstSeenIdsAt | src/m_stat.py:124-129 | each position's editor id is its token's place among the distinct tokens in first-seen order |
| EditTally.FirstSeenIdsDense | src/m_stat.py:124-127 | the editor ids are exactly 0 .. n-1 for n distinct tokens, and each is used |
| EditTally.FirstSeenIdsInjective | src/m_stat.py:124-129 | two positions share an editor id iff they share a token |
| EditTally.FirstSeenIdsPrefix | src/m_stat.py:124-129 | recording more tokens never changes the ids already given |
| EditTally.EditCountsSnoc | src/m_stat.py:126-128 | one more edit under an id raises that id's count by one, from 0 for a new id |
| EditTally.TrackOfMeans | src/m_stat.py:123-131 | after recording tokens one by one: the mapper sends each seen token to its first-seen place; the count is the number of distinct tokens; the order lists the ids; each id's edit count is its number of occurrences |
| EditTally.FreshIdUnused | src/m_stat.py:124-126 | no edit is counted under the id a new token will get |
| EditTally.KnownIdCounted | src/m_stat.py:128 | a known token's id already has a count |
| EditTally.ArticleState.constructor | src/m_stat.py:252-253 | the structures start empty |
| EditTally.ArticleState.UpdateLine | src/m_stat.py:105-131 | fewer than four fields raise and change nothing; otherwise the editor token is recorded (a new one gets the next id) and the content id is appended iff it is an integer; the structures keep their meaning |
| MStatOverTime.MarkerLines | src/m_stat.py:258-265 | the strip-and-skip reading from the last line yields only marker lines, at most one per line |
| MStatOverTime.RowsOfAt | src/m_stat.py:258-273 | row k of the reference rows holds event k's timestamp and the statistic of events 0..k alone (the loop meets the reference by `GrabMStatOverTime`) |
| MStatOverTime.RowsOfPrefix | src/m_stat.py:258-273 | a later event never changes an earlier row |
| MStatOverTime.LastRowIsWholeHistory | src/m_stat.py:258-273 | the last reference row is the statistic of the whole history computed in one go (the loop meets the reference by `GrabMStatOverTime`) |
| MStatOverTime.FirstRowNoReverts | src/m_stat.py:258-273 | the first row always holds `0` |
| MStatOverTime.ReadEventLine | src/m_stat.py:123-130 | an event line the encoder writes is kept by the strip, is well formed, and gives back its event's timestamp, content id and editor |
| MStatOverTime.WrittenPageReadsBack | src/m_stat.py:258-265 | for a title that is not itself a marker line, and events whose timestamps have no white space and whose editor tokens are non-empty words without white space (`Splittable`): a page the encoder wrote, read from its last line, yields its events oldest first; all of them are well formed and carry their fields |
| MStatOverTime.CurrentStat | src/m_stat.py:269-270 | `get_m_stat` on the reversed structures is the one-go statistic of the events seen |
| MStatOverTime.RecordEvent | src/m_stat.py:267-273 | one event line gives a row iff `update_line` accepts it; the row is the timestamp and the statistic of the history up to it |
| MStatOverTime.GrabMStatOverTime | src/m_stat.py:252-273 | with extra statistics off: the rows are the reference rows of the events read so far; the loop ends normally iff every event gave a row; otherwise it stops at the first malformed event |
| MStatOverTime.GrabMStatOverTimeAsWritten | src/m_stat.py:258-270 | as written, no row is ever written; the loop ends normally iff the file has no event line |
| MStatOverTime.OneEventPageHasOneRow | src/m_stat.py:258-273 | a one-event page written by the encoder gives exactly one row: its timestamp and `0` |
| Numbering.ContentId | src/etl.py:180-186 | each position's content id lies between 1 and the number of distinct contents |
| Numbering.ContentIdInjective | src/etl.py:180-186 | two positions share a content id iff they share content |
| Numbering.FreshIdIsNext | src/etl.py:180-183 | a content met for the first time gets 1 + the number of earlier first meetings |
| Numbering.WalkIdIsContentId | src/etl.py:180-186 | handing ids out along the walk gives each position its first-seen place plus one |
| RevertAgreement.NonRevertsAreFresh | src/m_stat.py:83-87 | on content ids, `next_val - 1` before position k is the number of first meetings before k |
| RevertAgreement.RevertsAreRepeats | src/m_stat.py:43 | on content ids, `get_m_stat` sees a revert exactly where the content occurred earlier |
| RevertAgreement.PageIdsAreContentIds | src/etl.py:173-188 | the ids the encoder writes for a page are the content ids of its contents in time order; the revert flag marks content seen before |
| RevertAgreement.PageRevertFlagsAgree | src/m_stat.py:43 | reading the encoder's trace oldest first, `get_m_stat`'s revert test holds exactly at the events the encoder flagged |

## Left out

- Files, lxml and pandas are not modelled:
  - `iterparse`, `deepcopy`, `elem.clear()` and node eviction are replaced by a sequence of page records;
  - each file is a sequence of lines, and output is the sequence of lines or rows appended.
- A line terminator is modelled as trailing white space removed by the right strip.
- `convert_tree_to_df`, the CSV branch of `write_tree_to_txt`, and `get_m_stat_data` are not part of this model. The same goes for the download and unpack helpers and the command-line entry point.
- `print` messages, `csv.writer` and `pd.to_datetime`: a row keeps the timestamp as text.
- `grab_m_stat_over_time` over several files: the model handles one file. Each file starts from fresh structures, so files are independent.
- The generic `except` with a print in `get_m_stat` is modelled as skipping the position. With `rev_order` and `editor_order` of equal length it cannot be reached.
- Python's `int()` is modelled on a white-space-free field as an optional sign and ASCII digits. Underscores between digits and non-ASCII digits are not modelled.
- Strings are sequences of characters compared by code point, as Python sorts them. White space for `split` and `rstrip` is the ASCII white space; Unicode white space such as U+00A0 is not modelled.
- MStatistic.GetMStat: requires `rev_order` and `editor_order` to have equal length. Every caller passes equal lengths; with unequal lengths the source would hit its generic `except` at some positions.
- MStatOverTime.WrittenPageReadsBack: covers `Splittable` events only. An editor token made only of white space (a username `"\t"` is truthy, and the space replacement leaves it as it is) is written out, but the right strip removes it, so `update_line` sees three fields and raises `IndexError`. A timestamp with white space likewise shifts the fields.
- MStatistic.MStatOf: edit counts are natural numbers. If every strength were negative, `max_m_val` would stay 0 and `del m_val_dict[max_m_val]` (src/m_stat.py:93, outside the `try`) would raise `KeyError`; the model does not represent that raise.
- DumpReader.RunSizes: states batch sizes for a positive `page_chunk` only. A negative chunk makes the same flush decisions as its absolute value, and 0 raises `ZeroDivisionError`. The other DumpReader members take any non-zero chunk.
- ArticleExtract.ExtractFixedExact: leaves out the empty title. It is removed from the wanted set, but its lines are never copied, because an empty string is false in Python.
- The output file of `extract_article` is named after the title with spaces turned into `-`, and is opened for writing from scratch. Two wanted titles that differ only by a space and a `-` (`A B` and `A-B`) therefore write the same file, and the later article replaces the earlier one. The model returns the extracted articles as a sequence of title-and-lines entries, in the order they are written; file names are not modelled.
- In `grab_m_stat_over_time`, `get_m_stat` is called with `extra_stats` false. The call as written has no such argument; see Findings.
- For ids 1,1,2,1 by editors A,B,A,B, the design notes count two reverts of strength 2. The code counts none, because `editor_order[rev_map[id] + 1]` is the reverter itself both times. The model follows the code (`MStatistic.AlternatingSelfReverts`).

## Findings

| source | as written | input that shows it | evidently intended | confidence | as-written member | corrected member |
|---|---|---|---|---|---|---|
| src/etl.py:86-90 | the final flush runs only when `page_num % page_chunk != 0` | nine pages with `page_chunk` 10: `page_num` ends at 10, so nothing is written and no error is raised | write the trailing batch whenever it holds a page | high (not executed) | DumpReader.NinePagesWriteNothing | DumpReader.FixedOutputIsBatch |
| src/etl.py:401-402 | entering the next file resets the article being copied without writing it out | files `["Anarchism", "^^^_1 0 1 Alice"]` and `["Zoology"]` with `Anarchism` wanted: nothing is written, and `Anarchism` is not reported missing either | write out the article being copied before moving to the next file | high (not executed) | ArticleExtract.LostAtFileEnd | ArticleExtract.KeptAtFileEnd |
| src/m_stat.py:269-270 | `get_m_stat` is called with three arguments but takes four | a light dump with title `Anarchism` and the line `^^^_2019-05-17T01:24:12Z 0 1 JJMC89`: a `TypeError` is raised at the first event and no row is written | call it with `extra_stats` false and write one row per event | high (not executed) | MStatOverTime.GrabMStatOverTimeAsWritten | MStatOverTime.GrabMStatOverTime |
