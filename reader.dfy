/** The page-batching loop of the dump reader (`context_to_txt` in src/etl.py):
    pages stream in one at a time, are collected into a batch, and the batch is
    handed to the compact-trace encoder every `page_chunk` pages. */
module DumpReader {
  import opened Seqs
  import opened TraceEncoder

  /** The state of the batching loop: the batches handed to the encoder so far,
      the pages waiting in the current batch, and the (1-based) number of the
      next page. */
  datatype Batching = Batching(flushed: seq<seq<Page>>, batch: seq<Page>, pageNum: int)

  /** One page of the stream: when its number is a multiple of the chunk size
      the waiting batch is flushed first; then the page joins the batch. */
  function Take(st: Batching, page: Page, pageChunk: int): Batching
    requires pageChunk != 0
  {
    if st.pageNum % pageChunk == 0 then Batching(st.flushed + [st.batch], [page], st.pageNum + 1)
    else Batching(st.flushed, st.batch + [page], st.pageNum + 1)
  }

  /** The loop over a stream of pages, step by step as it runs. */
  function Run(pages: seq<Page>, pageChunk: int): Batching
    requires pageChunk != 0
  {
    if pages == [] then Batching([], [], 1)
    else Take(Run(pages[..|pages| - 1], pageChunk), pages[|pages| - 1], pageChunk)
  }

  /** The batches handed to the encoder, as the source decides the final flush:
      the last batch goes out only when the number after the last page is not a
      multiple of the chunk size. */
  function FlushedAsWritten(pages: seq<Page>, pageChunk: int): seq<seq<Page>>
    requires pageChunk != 0
  {
    var st := Run(pages, pageChunk);
    if st.pageNum % pageChunk != 0 then st.flushed + [st.batch] else st.flushed
  }

  /** The evidently intended batches: the last batch goes out whenever it holds
      a page. */
  function FixedFlushes(pages: seq<Page>, pageChunk: int): seq<seq<Page>>
    requires pageChunk != 0
  {
    var st := Run(pages, pageChunk);
    if st.batch != [] then st.flushed + [st.batch] else st.flushed
  }

  lemma RunSnoc(pages: seq<Page>, pageChunk: int, i: nat)
    requires pageChunk != 0 && i < |pages|
    ensures Run(pages[..i + 1], pageChunk) == Take(Run(pages[..i], pageChunk), pages[i], pageChunk)
  {
    assert pages[..i + 1][..i] == pages[..i];
  }

  /** One page keeps the flushed batches and the waiting batch covering the
      stream read so far. */
  lemma TakeCovers(st: Batching, page: Page, pageChunk: int, read: seq<Page>)
    requires pageChunk != 0 && Concat(st.flushed) + st.batch == read
    ensures var next := Take(st, page, pageChunk);
      Concat(next.flushed) + next.batch == read + [page] && next.pageNum == st.pageNum + 1 && next.batch != []
  {
    if st.pageNum % pageChunk == 0 {
      ConcatSnoc(st.flushed, st.batch);
    } else {
      assert Concat(st.flushed) + (st.batch + [page]) == (Concat(st.flushed) + st.batch) + [page];
    }
  }

  /** No page is lost or repeated while streaming: the flushed batches and the
      waiting batch are the pages in stream order, and the page counter is one
      past the number of pages. */
  lemma {:induction false} RunCovers(pages: seq<Page>, pageChunk: int)
    requires pageChunk != 0
    ensures Concat(Run(pages, pageChunk).flushed) + Run(pages, pageChunk).batch == pages
    ensures Run(pages, pageChunk).pageNum == |pages| + 1
    ensures pages != [] ==> Run(pages, pageChunk).batch != []
  {
    if pages != [] {
      var p, last := pages[..|pages| - 1], pages[|pages| - 1];
      assert pages == p + [last];
      RunCovers(p, pageChunk);
      var st := Run(p, pageChunk);
      assert Run(pages, pageChunk) == Take(st, last, pageChunk);
      TakeCovers(st, last, pageChunk, p);
    }
  }

  lemma {:induction false} MulAtLeast(k: int, c: int)
    requires k >= 1 && c > 0
    ensures k * c >= c
    decreases k
  {
    if k > 1 {
      MulAtLeast(k - 1, c);
      assert k * c == (k - 1) * c + c;
    }
  }

  /** Quotient and remainder are determined by `n == q * c + r`, `0 <= r < c`. */
  lemma DivModUnique(n: int, c: int, q: int, r: int)
    requires c > 0 && 0 <= r < c && n == q * c + r
    ensures n / c == q && n % c == r
  {
    var q', r' := n / c, n % c;
    assert n == q' * c + r';
    if q' > q {
      MulAtLeast(q' - q, c);
      assert false;
    } else if q > q' {
      MulAtLeast(q - q', c);
      assert false;
    }
  }

  /** Stepping from `n` to `n + 1` moves the quotient and remainder by `c > 0`
      as expected. */
  lemma DivModNext(n: nat, c: int)
    requires c > 0
    ensures (n + 1) % c == 0 ==> n % c == c - 1 && (n + 1) / c == n / c + 1
    ensures (n + 1) % c != 0 ==> (n + 1) % c == n % c + 1 && (n + 1) / c == n / c
  {
    var q, r := n / c, n % c;
    assert n == q * c + r;
    if r == c - 1 {
      assert n + 1 == (q + 1) * c + 0;
      DivModUnique(n + 1, c, q + 1, 0);
    } else {
      DivModUnique(n + 1, c, q, r + 1);
    }
  }

  /** The sizes the loop keeps after `n` pages with a positive chunk size. */
  ghost predicate SizesAfter(st: Batching, n: nat, pageChunk: int)
    requires pageChunk > 0
  {
    && st.pageNum == n + 1
    && |st.flushed| == n / pageChunk
    && (forall b :: 0 <= b < |st.flushed| ==> |st.flushed[b]| == if b == 0 then pageChunk - 1 else pageChunk)
    && |st.batch| == if n < pageChunk then n else n % pageChunk + 1
  }

  /** One page keeps the sizes in step with the page count. */
  lemma TakeSizes(st: Batching, page: Page, pageChunk: int, n: nat)
    requires pageChunk > 0 && SizesAfter(st, n, pageChunk)
    ensures SizesAfter(Take(st, page, pageChunk), n + 1, pageChunk)
  {
    DivModNext(n, pageChunk);
    var next := Take(st, page, pageChunk);
    if (n + 1) % pageChunk == 0 {
      assert next.flushed == st.flushed + [st.batch];
      if n < pageChunk {
        assert n + 1 == pageChunk;
        assert |st.flushed| == 0;
      } else {
        assert n / pageChunk >= 1;
      }
    }
  }

  /** For a positive chunk size: one batch is flushed per multiple of the
      chunk among the page numbers; the first flushed batch holds one page
      fewer than the chunk (page 1 arrives before the counter reaches the
      chunk), later ones exactly the chunk; the waiting batch holds the pages
      since the last flush. */
  lemma {:induction false} RunSizes(pages: seq<Page>, pageChunk: int)
    requires pageChunk > 0
    ensures var st, n := Run(pages, pageChunk), |pages|;
      && |st.flushed| == n / pageChunk
      && (forall b :: 0 <= b < |st.flushed| ==> |st.flushed[b]| == if b == 0 then pageChunk - 1 else pageChunk)
      && |st.batch| == if n < pageChunk then n else n % pageChunk + 1
  {
    if pages != [] {
      var p := pages[..|pages| - 1];
      RunSizes(p, pageChunk);
      RunCovers(p, pageChunk);
      TakeSizes(Run(p, pageChunk), pages[|pages| - 1], pageChunk, |p|);
    }
  }

  /** Writing the batches one after the other writes what encoding all their
      pages as one batch writes. */
  lemma EncodeConcat(a: seq<seq<Page>>, b: seq<Page>)
    ensures EncodeBatch(Concat(a + [b])) == Then(EncodeBatch(Concat(a)), EncodeBatch(b))
  {
    ConcatSnoc(a, b);
    EncodeBatchAppend(Concat(a), b);
  }

  /** The loop together with what it has written to the trace file: the batch,
      the page counter, and the outcome of the flushes so far. */
  datatype Reading = Reading(batch: seq<Page>, pageNum: int, out: Written)

  /** The loop over a stream of pages as the source runs it, flushing through
      the encoder. */
  function Read(pages: seq<Page>, pageChunk: int): Reading
    requires pageChunk != 0
  {
    if pages == [] then Reading([], 1, Written([], true))
    else
      var st := Read(pages[..|pages| - 1], pageChunk);
      if st.pageNum % pageChunk == 0 then
        Reading([pages[|pages| - 1]], st.pageNum + 1, Then(st.out, EncodeBatch(st.batch)))
      else
        Reading(st.batch + [pages[|pages| - 1]], st.pageNum + 1, st.out)
  }

  /** What the trace file receives from one stream, and whether it was written
      without raising. */
  function ContextOutput(pages: seq<Page>, pageChunk: int): Written
    requires pageChunk != 0
  {
    var st := Read(pages, pageChunk);
    if st.pageNum % pageChunk != 0 then Then(st.out, EncodeBatch(st.batch)) else st.out
  }

  lemma ReadSnoc(pages: seq<Page>, pageChunk: int, i: nat)
    requires pageChunk != 0 && i < |pages|
    ensures var st := Read(pages[..i], pageChunk);
      Read(pages[..i + 1], pageChunk) ==
        if st.pageNum % pageChunk == 0 then Reading([pages[i]], st.pageNum + 1, Then(st.out, EncodeBatch(st.batch)))
        else Reading(st.batch + [pages[i]], st.pageNum + 1, st.out)
  {
    assert pages[..i + 1][..i] == pages[..i];
  }

  /** Once a flush raises, the stream writes nothing more. */
  lemma {:induction false} ReadStops(pages: seq<Page>, pageChunk: int, i: nat)
    requires pageChunk != 0 && i <= |pages| && !Read(pages[..i], pageChunk).out.ok
    ensures Read(pages, pageChunk).out == Read(pages[..i], pageChunk).out
    decreases |pages| - i
  {
    if i < |pages| {
      ReadSnoc(pages, pageChunk, i);
      ReadStops(pages, pageChunk, i + 1);
    } else {
      assert pages[..i] == pages;
    }
  }

  /** The loop with its output is the batching loop with the flushed batches
      encoded one after the other. */
  lemma {:induction false} ReadIsRun(pages: seq<Page>, pageChunk: int)
    requires pageChunk != 0
    ensures var st := Run(pages, pageChunk);
      Read(pages, pageChunk) == Reading(st.batch, st.pageNum, EncodeBatch(Concat(st.flushed)))
  {
    if pages != [] {
      var p := pages[..|pages| - 1];
      ReadIsRun(p, pageChunk);
      var st := Run(p, pageChunk);
      if st.pageNum % pageChunk == 0 {
        EncodeConcat(st.flushed, st.batch);
      }
    }
  }

  /** The trace file receives the encoding of the pages of the batches handed
      over, as one batch. */
  lemma ContextOutputIsBatch(pages: seq<Page>, pageChunk: int)
    requires pageChunk != 0
    ensures ContextOutput(pages, pageChunk) == EncodeBatch(Concat(FlushedAsWritten(pages, pageChunk)))
  {
    ReadIsRun(pages, pageChunk);
    var st := Run(pages, pageChunk);
    if st.pageNum % pageChunk != 0 {
      EncodeConcat(st.flushed, st.batch);
    }
  }

  /** The per-page loop of `context_to_txt`, stopping at the first flush that
      raises: either the state after the whole stream, or the lines written up
      to the raising flush. */
  method StreamPages(pages: seq<Page>, pageChunk: int)
    returns (batch: seq<Page>, pageNum: int, written: seq<string>, ok: bool)
    requires pageChunk != 0
    ensures ok ==> Reading(batch, pageNum, Written(written, true)) == Read(pages, pageChunk)
    ensures !ok ==> Read(pages, pageChunk).out == Written(written, false)
  {
    pageNum := 1;
    batch := [];
    written := [];
    var i := 0;
    while i < |pages|
      invariant 0 <= i <= |pages|
      invariant Reading(batch, pageNum, Written(written, true)) == Read(pages[..i], pageChunk)
    {
      ReadSnoc(pages, pageChunk, i);
      if pageNum % pageChunk == 0 {
        var lines, batchOk := ConvertTreeLightFormat(batch);
        written := written + lines;
        if !batchOk {
          ReadStops(pages, pageChunk, i + 1);
          return batch, pageNum, written, false;
        }
        batch := [];
      }
      batch := batch + [pages[i]];
      pageNum := pageNum + 1;
      i := i + 1;
    }
    assert pages[..i] == pages;
    ok := true;
  }

  /** `context_to_txt` with the light format: the lines appended to the trace
      file, and whether the whole stream was written without raising. */
  method ContextToTxt(pages: seq<Page>, pageChunk: int) returns (written: seq<string>, ok: bool)
    requires pageChunk != 0
    ensures Written(written, ok) == ContextOutput(pages, pageChunk)
    ensures Written(written, ok) == EncodeBatch(Concat(FlushedAsWritten(pages, pageChunk)))
  {
    var batch, pageNum;
    batch, pageNum, written, ok := StreamPages(pages, pageChunk);
    if ok && pageNum % pageChunk != 0 {
      var lines;
      lines, ok := ConvertTreeLightFormat(batch);
      written := written + lines;
    }
    ContextOutputIsBatch(pages, pageChunk);
  }

  /** The loop with the final flush as evidently intended: the trailing batch
      is written whenever it holds a page. */
  function FixedOutput(pages: seq<Page>, pageChunk: int): Written
    requires pageChunk != 0
  {
    var st := Read(pages, pageChunk);
    if st.batch != [] then Then(st.out, EncodeBatch(st.batch)) else st.out
  }

  /** `context_to_txt` with the final flush corrected. */
  method ContextToTxtFixed(pages: seq<Page>, pageChunk: int) returns (written: seq<string>, ok: bool)
    requires pageChunk != 0
    ensures Written(written, ok) == FixedOutput(pages, pageChunk)
    ensures Written(written, ok) == EncodeBatch(pages)
  {
    var batch, pageNum;
    batch, pageNum, written, ok := StreamPages(pages, pageChunk);
    if ok && batch != [] {
      var lines;
      lines, ok := ConvertTreeLightFormat(batch);
      written := written + lines;
    }
    FixedOutputIsBatch(pages, pageChunk);
  }

  /** With the corrected final flush the trace file receives every page of the
      stream, whatever the chunk size. */
  lemma FixedOutputIsBatch(pages: seq<Page>, pageChunk: int)
    requires pageChunk != 0
    ensures FixedOutput(pages, pageChunk) == EncodeBatch(pages)
  {
    ReadIsRun(pages, pageChunk);
    RunCovers(pages, pageChunk);
    var st := Run(pages, pageChunk);
    if st.batch != [] {
      EncodeConcat(st.flushed, st.batch);
    } else {
      assert Concat(st.flushed) == pages;
    }
  }

  /** The corrected batches are the stream itself. */
  lemma FixedFlushesCover(pages: seq<Page>, pageChunk: int)
    requires pageChunk != 0
    ensures Concat(FixedFlushes(pages, pageChunk)) == pages
  {
    RunCovers(pages, pageChunk);
    var st := Run(pages, pageChunk);
    if st.batch != [] {
      ConcatSnoc(st.flushed, st.batch);
    } else {
      assert Concat(st.flushed) + [] == Concat(st.flushed);
    }
  }

  /** The final flush as written loses the trailing batch exactly when the
      number after the last page is a multiple of the chunk size; the batches
      handed over then cover only the pages before that batch. */
  lemma AsWrittenCovers(pages: seq<Page>, pageChunk: int)
    requires pageChunk != 0
    ensures Concat(FlushedAsWritten(pages, pageChunk)) == pages <==> pages == [] || (|pages| + 1) % pageChunk != 0
    ensures (|pages| + 1) % pageChunk == 0 ==>
      Concat(FlushedAsWritten(pages, pageChunk)) + Run(pages, pageChunk).batch == pages
  {
    RunCovers(pages, pageChunk);
    var st := Run(pages, pageChunk);
    if st.pageNum % pageChunk != 0 {
      ConcatSnoc(st.flushed, st.batch);
    } else if pages != [] {
      assert |Concat(st.flushed)| < |pages|;
    }
  }

  /** With the default chunk of 10, a dump of nine pages writes nothing at all
      and reports no error. */
  lemma NinePagesWriteNothing(pages: seq<Page>)
    requires |pages| == 9
    ensures ContextOutput(pages, 10) == Written([], true)
  {
    RunSizes(pages, 10);
    RunCovers(pages, 10);
    ContextOutputIsBatch(pages, 10);
    assert Concat(FlushedAsWritten(pages, 10)) == [];
  }
}
