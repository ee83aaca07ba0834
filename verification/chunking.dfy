/** The chunk planner: the page-range arithmetic and naming of split_pdf (app.py:19-48).
    Reading the PDF and copying pages into each chunk file are not modelled; the page count
    is an input and the chunk files are represented by their paths. */
module Chunking {
  import opened Wrappers
  import opened Names

  /** CHUNK_SIZE (app.py:16), the chunk size process_file always uses. */
  const DefaultChunkSize: nat := 20

  /** One chunk record (app.py:38-46); pages are 1-based and inclusive. */
  datatype Chunk = Chunk(
    fileId: string,
    originalFile: string,
    chunkFile: Path,
    startPage: nat,
    endPage: nat)

  /** The record split_pdf builds for pages start..end, its file living in `dir`. */
  function MakeChunk(fileId: string, originalFile: string, dir: Path, start: nat, end: nat): Chunk {
    Chunk(fileId, originalFile, dir + [ChunkFileName(fileId, start, end)], start, end)
  }

  /** A record of the call split_pdf made with this id, name and chunk directory: its file is the
      chunk file named after the id and the record's own page range. */
  predicate IsChunkOf(c: Chunk, fileId: string, originalFile: string, dir: Path) {
    && c.fileId == fileId
    && c.originalFile == originalFile
    && c.chunkFile == dir + [ChunkFileName(fileId, c.startPage, c.endPage)]
  }

  function Min(a: int, b: int): int {
    if a <= b then a else b
  }

  /** A 1-based inclusive page range. */
  datatype PageRange = PageRange(start: nat, end: nat)

  /** The page ranges of the loop iterations i, i + size, i + 2 * size, ... below pageCount
      (app.py:24-27): each starts at i + 1 and ends at min(i + size, pageCount). */
  function RangesFrom(i: nat, pageCount: nat, size: nat): (r: seq<PageRange>)
    requires size > 0
    ensures |r| == 0 <==> pageCount <= i
    decreases pageCount - i
  {
    if i >= pageCount then []
    else [PageRange(i + 1, Min(i + size, pageCount))] + RangesFrom(i + size, pageCount, size)
  }

  /** The ranges from i run from page i + 1 to the last page, each starting right after the
      previous one ends, each at most `size` pages long and all but the last exactly `size`. */
  predicate RangesShape(r: seq<PageRange>, i: nat, pageCount: nat, size: nat) {
    && (|r| > 0 ==> r[0].start == i + 1 && r[|r| - 1].end == pageCount)
    && (forall k :: 0 <= k < |r| ==>
         i < r[k].start <= r[k].end <= pageCount && r[k].end - r[k].start < size)
    && (forall k :: 0 <= k < |r| - 1 ==> r[k].end - r[k].start + 1 == size)
    && (forall k :: 0 < k < |r| ==> r[k].start == r[k - 1].end + 1)
  }

  lemma {:induction false} RangesFromShape(i: nat, pageCount: nat, size: nat)
    requires size > 0
    ensures RangesShape(RangesFrom(i, pageCount, size), i, pageCount, size)
    decreases pageCount - i
  {
    if i < pageCount {
      RangesFromShape(i + size, pageCount, size);
    }
  }

  /** A chunk's page range contains page p. */
  predicate Contains(c: Chunk, p: int) {
    c.startPage <= p <= c.endPage
  }

  /** The ranges run from page 1 to page pageCount, each one starting right after the previous one
      ends, and none is empty; there are no ranges exactly when there are no pages. */
  predicate PartitionsPages(cs: seq<Chunk>, pageCount: nat) {
    && (|cs| == 0 <==> pageCount == 0)
    && (|cs| > 0 ==> cs[0].startPage == 1 && cs[|cs| - 1].endPage == pageCount)
    && (forall k :: 0 <= k < |cs| ==> 1 <= cs[k].startPage <= cs[k].endPage <= pageCount)
    && (forall k :: 0 < k < |cs| ==> cs[k].startPage == cs[k - 1].endPage + 1)
  }

  /** No range is longer than `size` pages, and every range but the last is exactly `size` pages. */
  predicate RespectsChunkSize(cs: seq<Chunk>, size: nat) {
    && (forall k :: 0 <= k < |cs| ==> cs[k].endPage - cs[k].startPage + 1 <= size)
    && (forall k :: 0 <= k < |cs| - 1 ==> cs[k].endPage - cs[k].startPage + 1 == size)
  }

  /** Every record carries the call's file id and original name, and its file is the chunk file
      named after that id and its own page range, inside `dir`. */
  predicate SharesIdentity(cs: seq<Chunk>, fileId: string, originalFile: string, dir: Path) {
    forall k :: 0 <= k < |cs| ==> IsChunkOf(cs[k], fileId, originalFile, dir)
  }

  /** Integer division rounding up: the number of chunks of `n` pages taken `d` at a time. */
  function CeilDiv(n: nat, d: nat): nat
    requires d > 0
  {
    (n + d - 1) / d
  }

  lemma MulMonotonic(a: int, b: int, d: int)
    requires a <= b && d > 0
    ensures a * d <= b * d
  {
    assert b * d - a * d == (b - a) * d;
  }

  lemma MulSucc(n: int, d: int)
    ensures (n + 1) * d == n * d + d
  {
  }

  /** q is the quotient of a by d when a = q * d + r with 0 <= r < d. */
  lemma DivUnique(a: int, d: int, q: int, r: int)
    requires d > 0 && 0 <= r < d && a == q * d + r
    ensures a / d == q
  {
    var q', r' := a / d, a % d;
    assert a == q' * d + r';
    if q' < q {
      MulMonotonic(q' + 1, q, d);
      assert false;
    } else if q < q' {
      MulMonotonic(q + 1, q', d);
      assert false;
    }
  }

  /** The loop from i runs n times where (n - 1) * size < pageCount - i <= n * size. */
  lemma {:induction false} RangesFromCount(i: nat, pageCount: nat, size: nat)
    requires size > 0 && i < pageCount
    ensures var n := |RangesFrom(i, pageCount, size)|;
      (n - 1) * size < pageCount - i <= n * size
    decreases pageCount - i
  {
    var rest := RangesFrom(i + size, pageCount, size);
    if i + size < pageCount {
      RangesFromCount(i + size, pageCount, size);
      MulSucc(|rest|, size);
    }
  }

  /** The record of each range, all sharing the call's file id, original name and chunk directory. */
  function ChunksOf(ranges: seq<PageRange>, fileId: string, originalFile: string, dir: Path): (r: seq<Chunk>)
    ensures |r| == |ranges|
  {
    if |ranges| == 0 then []
    else
      var last := ranges[|ranges| - 1];
      ChunksOf(ranges[..|ranges| - 1], fileId, originalFile, dir) + [MakeChunk(fileId, originalFile, dir, last.start, last.end)]
  }

  /** A count n with (n - 1) * size < pages <= n * size is the rounded-up quotient. */
  lemma CountIsCeiling(n: nat, pages: nat, size: nat)
    requires size > 0 && n > 0 && (n - 1) * size < pages <= n * size
    ensures n == CeilDiv(pages, size)
  {
    MulSucc(n - 1, size);
    DivUnique(pages + size - 1, size, n, pages + size - 1 - n * size);
  }

  /** Record k covers range k and carries the call's identity. */
  lemma {:induction false} ChunksOfRanges(ranges: seq<PageRange>, fileId: string, originalFile: string, dir: Path)
    ensures var r := ChunksOf(ranges, fileId, originalFile, dir);
      forall k :: 0 <= k < |r| ==>
        && r[k].startPage == ranges[k].start && r[k].endPage == ranges[k].end
        && IsChunkOf(r[k], fileId, originalFile, dir)
  {
    if |ranges| > 0 {
      ChunksOfRanges(ranges[..|ranges| - 1], fileId, originalFile, dir);
    }
  }

  lemma PlanPartitions(pageCount: nat, size: nat, fileId: string, originalFile: string, dir: Path)
    requires size > 0
    ensures PartitionsPages(ChunksOf(RangesFrom(0, pageCount, size), fileId, originalFile, dir), pageCount)
  {
    RangesFromShape(0, pageCount, size);
    ChunksOfRanges(RangesFrom(0, pageCount, size), fileId, originalFile, dir);
  }

  lemma PlanRespectsSize(pageCount: nat, size: nat, fileId: string, originalFile: string, dir: Path)
    requires size > 0
    ensures RespectsChunkSize(ChunksOf(RangesFrom(0, pageCount, size), fileId, originalFile, dir), size)
  {
    RangesFromShape(0, pageCount, size);
    ChunksOfRanges(RangesFrom(0, pageCount, size), fileId, originalFile, dir);
  }

  lemma PlanCount(pageCount: nat, size: nat)
    requires size > 0
    ensures |RangesFrom(0, pageCount, size)| == CeilDiv(pageCount, size)
  {
    var n := |RangesFrom(0, pageCount, size)|;
    if n > 0 {
      RangesFromCount(0, pageCount, size);
      CountIsCeiling(n, pageCount, size);
    } else {
      assert CeilDiv(pageCount, size) == (size - 1) / size == 0;
    }
  }

  /** split_pdf's list of records for a document of pageCount pages (app.py:24-46), for a
      positive chunk size: it partitions the pages, respects the chunk size, shares one identity,
      and has exactly ceil(pageCount / size) records. */
  function Plan(pageCount: nat, size: nat, fileId: string, originalFile: string, dir: Path): (r: seq<Chunk>)
    requires size > 0
    ensures PartitionsPages(r, pageCount)
    ensures RespectsChunkSize(r, size)
    ensures SharesIdentity(r, fileId, originalFile, dir)
    ensures |r| == CeilDiv(pageCount, size)
  {
    PlanPartitions(pageCount, size, fileId, originalFile, dir);
    PlanRespectsSize(pageCount, size, fileId, originalFile, dir);
    PlanCount(pageCount, size);
    ChunksOfRanges(RangesFrom(0, pageCount, size), fileId, originalFile, dir);
    ChunksOf(RangesFrom(0, pageCount, size), fileId, originalFile, dir)
  }

  /** split_pdf for any chunk size: Python's range(0, P, 0) raises, a negative step yields
      no iterations at all, and a positive one yields the plan. */
  function SplitPdf(pageCount: nat, chunkSize: int, fileId: string, originalFile: string, dir: Path): (r: Result<seq<Chunk>, string>)
    ensures r.Failure? <==> chunkSize == 0
    ensures chunkSize < 0 ==> r == Success([])
    ensures chunkSize > 0 ==> r == Success(Plan(pageCount, chunkSize, fileId, originalFile, dir))
  {
    if chunkSize == 0 then Failure("range() arg 3 must not be zero")
    else if chunkSize < 0 then Success([])
    else Success(ChunksOf(RangesFrom(0, pageCount, chunkSize), fileId, originalFile, dir))
  }

  lemma ConcatAssociative<T>(a: seq<T>, b: seq<T>, c: seq<T>)
    ensures a + (b + c) == (a + b) + c
  {
  }

  lemma ConcatEmpty<T>(a: seq<T>, b: seq<T>)
    ensures |a| == 0 ==> a + b == b
    ensures |b| == 0 ==> a + b == a
  {
  }

  lemma ChunksOfSnoc(ranges: seq<PageRange>, last: PageRange, fileId: string, originalFile: string, dir: Path)
    ensures ChunksOf(ranges + [last], fileId, originalFile, dir)
         == ChunksOf(ranges, fileId, originalFile, dir) + [MakeChunk(fileId, originalFile, dir, last.start, last.end)]
  {
    assert (ranges + [last])[..|ranges|] == ranges;
  }

  /** split_pdf's loop itself (app.py:24-46): appending one record per iteration builds the plan. */
  method SplitPdfLoop(pageCount: nat, size: nat, fileId: string, originalFile: string, dir: Path) returns (chunks: seq<Chunk>)
    requires size > 0
    ensures chunks == Plan(pageCount, size, fileId, originalFile, dir)
  {
    chunks := [];
    ghost var done: seq<PageRange> := [];
    ConcatEmpty([], RangesFrom(0, pageCount, size));
    var i: nat := 0;
    while i < pageCount
      invariant done + RangesFrom(i, pageCount, size) == RangesFrom(0, pageCount, size)
      invariant chunks == ChunksOf(done, fileId, originalFile, dir)
      decreases pageCount - i
    {
      var startPage := i + 1;
      var endPage := Min(i + size, pageCount);
      ghost var range := PageRange(startPage, endPage);
      assert RangesFrom(i, pageCount, size) == [range] + RangesFrom(i + size, pageCount, size);
      ConcatAssociative(done, [range], RangesFrom(i + size, pageCount, size));
      ChunksOfSnoc(done, range, fileId, originalFile, dir);
      chunks := chunks + [MakeChunk(fileId, originalFile, dir, startPage, endPage)];
      done := done + [range];
      i := i + size;
    }
    ConcatEmpty(done, RangesFrom(i, pageCount, size));
  }

  /** Ranges are strictly ascending: an earlier chunk ends before a later one starts. */
  lemma {:induction false} RangesAscending(cs: seq<Chunk>, pageCount: nat, j: nat, k: nat)
    requires PartitionsPages(cs, pageCount)
    requires j < k < |cs|
    ensures cs[j].endPage < cs[k].startPage
    decreases k - j
  {
    if j + 1 < k {
      RangesAscending(cs, pageCount, j, k - 1);
    }
  }

  /** Every page between the first chunk's start and the last chunk's end lies in some chunk. */
  lemma {:induction false} PageCovered(cs: seq<Chunk>, pageCount: nat, from: nat, p: int)
    requires PartitionsPages(cs, pageCount)
    requires from < |cs| && cs[from].startPage <= p <= pageCount
    ensures exists k :: from <= k < |cs| && Contains(cs[k], p)
    decreases |cs| - from
  {
    if p > cs[from].endPage {
      assert from + 1 < |cs|;
      PageCovered(cs, pageCount, from + 1, p);
    } else {
      assert Contains(cs[from], p);
    }
  }

  /** The ranges partition pages 1..pageCount: a page lies in some chunk iff it is one of those
      pages, and never in two different chunks. */
  lemma PageInExactlyOneChunk(cs: seq<Chunk>, pageCount: nat, p: int)
    requires PartitionsPages(cs, pageCount)
    ensures (exists k :: 0 <= k < |cs| && Contains(cs[k], p)) <==> 1 <= p <= pageCount
    ensures forall j, k :: 0 <= j < |cs| && 0 <= k < |cs| && Contains(cs[j], p) && Contains(cs[k], p) ==> j == k
  {
    if 1 <= p <= pageCount {
      PageCovered(cs, pageCount, 0, p);
    }
    forall j, k | 0 <= j < |cs| && 0 <= k < |cs| && Contains(cs[j], p) && Contains(cs[k], p)
      ensures j == k
    {
      if j < k {
        RangesAscending(cs, pageCount, j, k);
      } else if k < j {
        RangesAscending(cs, pageCount, k, j);
      }
    }
  }

  /** Distinct records of one plan have distinct start pages and distinct chunk file names
      (and so distinct stems). */
  lemma PlanNamesDistinct(pageCount: nat, size: nat, fileId: string, originalFile: string, dir: Path, j: nat, k: nat)
    requires size > 0
    requires j < k < |Plan(pageCount, size, fileId, originalFile, dir)|
    ensures var cs := Plan(pageCount, size, fileId, originalFile, dir);
      && cs[j].startPage != cs[k].startPage
      && Name(cs[j].chunkFile) != Name(cs[k].chunkFile)
      && Stem(Name(cs[j].chunkFile)) != Stem(Name(cs[k].chunkFile))
  {
    var cs := Plan(pageCount, size, fileId, originalFile, dir);
    RangesAscending(cs, pageCount, j, k);
    ChunkFileNameStem(fileId, cs[j].startPage, cs[j].endPage);
    ChunkFileNameStem(fileId, cs[k].startPage, cs[k].endPage);
    ChunkStemInjective(fileId, cs[j].startPage, cs[j].endPage, fileId, cs[k].startPage, cs[k].endPage);
  }

  /** Every planned chunk file ends in a component pathlib keeps, so the name and stem read from
      the record's path are those of the path pathlib builds (app.py:33, 80). */
  lemma PlanChunkFileNormal(pageCount: nat, size: nat, fileId: string, originalFile: string, dir: Path, k: nat)
    requires size > 0
    requires k < |Plan(pageCount, size, fileId, originalFile, dir)|
    ensures var c := Plan(pageCount, size, fileId, originalFile, dir)[k];
      Name(Normalize(c.chunkFile)) == Name(c.chunkFile)
  {
    var c := Plan(pageCount, size, fileId, originalFile, dir)[k];
    var name := ChunkFileName(fileId, c.startPage, c.endPage);
    assert |name| >= 4;
    NormalizeSnoc(dir, name);
  }

  /** A 45-page document in chunks of 20 gives the ranges 1-20, 21-40 and 41-45. */
  lemma FortyFivePages(fileId: string, originalFile: string, dir: Path)
    ensures var cs := Plan(45, DefaultChunkSize, fileId, originalFile, dir);
      && |cs| == 3
      && cs[0].startPage == 1 && cs[0].endPage == 20
      && cs[1].startPage == 21 && cs[1].endPage == 40
      && cs[2].startPage == 41 && cs[2].endPage == 45
  {
    var cs := Plan(45, DefaultChunkSize, fileId, originalFile, dir);
    assert CeilDiv(45, 20) == 3;
  }

  /** A document without pages gives no chunks. */
  lemma NoPagesNoChunks(size: nat, fileId: string, originalFile: string, dir: Path)
    requires size > 0
    ensures Plan(0, size, fileId, originalFile, dir) == []
  {
  }
}
