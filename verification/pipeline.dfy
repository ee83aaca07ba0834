/** The driver: process_chunk (app.py:64-72), process_file (app.py:99-119) and main (app.py:121-139).
    The external converter and the PDF reader are parameters; the disk is a value the steps pass on. */
module Pipeline {
  import opened Wrappers
  import opened Text
  import opened Names
  import opened Chunking
  import opened Merging

  /** What one converter run did (app.py:56-59): a non-zero exit with its error output, or a zero exit
      after which the chunk's markdown may or may not have been written (as the text a text-mode
      read of it returns). */
  datatype Conversion = Failed(stderr: string) | Converted(markdown: Option<string>)

  /** The part of the disk the pipeline touches: text files with their contents, and the chunk PDFs present. */
  datatype Disk = Disk(files: FileSystem, chunkPdfs: set<Path>)

  /** The disk after some steps, and the error that stopped them, if any. */
  datatype Progress = Progress(disk: Disk, failure: Option<string>)

  /** `str(path)`: the normalised components joined by '/'. */
  function PathString(p: Path): string {
    Join(Normalize(p), '/')
  }

  /** The exception message of a failed converter run (app.py:59). */
  function MarkerFailure(chunkFile: Path, stderr: string): string {
    "Marker command failed for " + PathString(chunkFile) + ": " + stderr
  }

  /** Where the converter writes the markdown of chunk c when process_chunk runs it (app.py:65-67). */
  function WritePath(outputDir: Path, c: Chunk): Path {
    ConverterMarkdownPath(ConverterOutputDir(outputDir, c.originalFile), c.chunkFile)
  }

  /** process_chunk (app.py:64-72): run the converter; on failure stop with its message and leave the
      chunk PDF in place, otherwise record what it wrote and delete the chunk PDF. */
  function ProcessChunk(outputDir: Path, c: Chunk, conversion: Conversion, disk: Disk): Progress {
    match conversion
    case Failed(stderr) => Progress(disk, Some(MarkerFailure(c.chunkFile, stderr)))
    case Converted(None) => Progress(disk.(chunkPdfs := disk.chunkPdfs - {c.chunkFile}), None)
    case Converted(Some(text)) =>
      Progress(Disk(disk.files[Normalize(WritePath(outputDir, c)) := text], disk.chunkPdfs - {c.chunkFile}), None)
  }

  /** The processing loop (app.py:110-114): chunks in order, stopping at the first exception. */
  function ProcessChunks(outputDir: Path, cs: seq<Chunk>, convert: Chunk -> Conversion, disk: Disk): Progress {
    if |cs| == 0 then Progress(disk, None)
    else
      var step := ProcessChunk(outputDir, cs[0], convert(cs[0]), disk);
      if step.failure.Some? then step
      else ProcessChunks(outputDir, cs[1..], convert, step.disk)
  }

  /** The chunk PDFs a list of records refers to. */
  function ChunkFiles(cs: seq<Chunk>): set<Path> {
    set k | 0 <= k < |cs| :: cs[k].chunkFile
  }

  /** `Path(arg).name` for the input argument (app.py:100, 127): the last component pathlib keeps,
      so a trailing "/" or "/." does not change it. split_pdf records it as the original file
      name (app.py:41), and main prints it and derives the output name from it (app.py:133-138). */
  function InputName(inputPath: Path): string {
    Name(Normalize(inputPath))
  }

  /** Partner of InputName: a trailing component pathlib drops leaves the name unchanged, any other
      trailing component is the name. */
  lemma InputNameSnoc(inputPath: Path, last: string)
    ensures InputName(inputPath + [last]) == if Dropped(last) then InputName(inputPath) else last
  {
    NormalizeSnoc(inputPath, last);
  }

  /** The argument `doc.pdf/.` names the same input as `doc.pdf`: its chunks record "doc.pdf" and
      the output goes to the same `doc_extracted.md`. */
  lemma TrailingDotArgument(outputDir: Path)
    ensures InputName(["doc.pdf", "."]) == "doc.pdf"
    ensures ExtractedPath(["doc.pdf", "."], outputDir) == ExtractedPath(["doc.pdf"], outputDir)
  {
    assert ["doc.pdf", "."] == ["doc.pdf"] + ["."];
    assert ["doc.pdf"] == [] + ["doc.pdf"];
    InputNameSnoc(["doc.pdf"], ".");
    InputNameSnoc([], "doc.pdf");
  }

  /** The directory split_pdf writes the chunk PDFs to (app.py:102). */
  function ChunkDir(outputDir: Path): Path {
    outputDir + ["chunks"]
  }

  /** The chunk records process_file works through for a PDF of pageCount pages (app.py:107). */
  function FileChunks(inputPath: Path, outputDir: Path, pageCount: nat, fileId: string): seq<Chunk> {
    Plan(pageCount, DefaultChunkSize, fileId, InputName(inputPath), ChunkDir(outputDir))
  }

  /** The disk after process_file and what it returned or raised. */
  datatype FileOutcome = FileOutcome(disk: Disk, result: Result<string, string>)

  /** process_file (app.py:99-119). `pdf` is what reading the input yields: its page count, or the
      reader's error; `fileId` is the identifier split_pdf draws. */
  function ProcessFile(inputPath: Path, outputDir: Path, pdf: Result<nat, string>, fileId: string,
                       convert: Chunk -> Conversion, disk: Disk): FileOutcome {
    match pdf
    case Failure(e) => FileOutcome(disk, Failure(e))
    case Success(pageCount) =>
      var cs := FileChunks(inputPath, outputDir, pageCount, fileId);
      var split := disk.(chunkPdfs := disk.chunkPdfs + ChunkFiles(cs));
      var run := ProcessChunks(outputDir, cs, convert, split);
      if run.failure.Some? then FileOutcome(run.disk, Failure(run.failure.value))
      else FileOutcome(run.disk, Success(FirstResultText(MergeChunkResults(cs, outputDir, run.disk.files))))
  }

  /** The file main writes the text to (app.py:133). */
  function ExtractedPath(inputPath: Path, outputDir: Path): Path {
    outputDir + [ExtractedFileName(InputName(inputPath))]
  }

  /** What main leaves behind: the disk, the exit status and the line it prints. */
  datatype RunOutcome = RunOutcome(disk: Disk, exitCode: nat, message: string)

  /** main (app.py:121-139) with its two command-line arguments already parsed. */
  function Main(inputPath: Path, outputDir: Path, pdf: Result<nat, string>, fileId: string,
                convert: Chunk -> Conversion, disk: Disk): RunOutcome {
    var outcome := ProcessFile(inputPath, outputDir, pdf, fileId, convert, disk);
    match outcome.result
    case Success(text) =>
      var out := ExtractedPath(inputPath, outputDir);
      RunOutcome(outcome.disk.(files := outcome.disk.files[Normalize(out) := text]), 0,
                 "Successfully processed " + InputName(inputPath) + ". Output saved to " + PathString(out))
    case Failure(e) =>
      RunOutcome(outcome.disk, 1, "Error processing " + InputName(inputPath) + ": " + e)
  }

  // ---------------------------------------------------------------------------------------------
  // The processing loop.

  predicate AllConverted(cs: seq<Chunk>, convert: Chunk -> Conversion) {
    forall k :: 0 <= k < |cs| ==> convert(cs[k]).Converted?
  }

  /** The loop finishes without an error exactly when no converter run failed. */
  lemma {:induction false} ProcessChunksSucceedsIff(outputDir: Path, cs: seq<Chunk>, convert: Chunk -> Conversion, disk: Disk)
    ensures ProcessChunks(outputDir, cs, convert, disk).failure.None? <==> AllConverted(cs, convert)
  {
    if |cs| > 0 {
      var step := ProcessChunk(outputDir, cs[0], convert(cs[0]), disk);
      ProcessChunksSucceedsIff(outputDir, cs[1..], convert, step.disk);
      assert forall k :: 0 < k < |cs| ==> cs[1..][k - 1] == cs[k];
    }
  }

  /** When every run succeeds, every chunk PDF of the list is deleted and no other PDF is touched (app.py:70). */
  lemma {:induction false} ProcessChunksDeletes(outputDir: Path, cs: seq<Chunk>, convert: Chunk -> Conversion, disk: Disk)
    requires AllConverted(cs, convert)
    ensures ProcessChunks(outputDir, cs, convert, disk).disk.chunkPdfs == disk.chunkPdfs - ChunkFiles(cs)
  {
    if |cs| > 0 {
      var step := ProcessChunk(outputDir, cs[0], convert(cs[0]), disk);
      assert AllConverted(cs[1..], convert) by {
        assert forall k :: 0 <= k < |cs| - 1 ==> cs[1..][k] == cs[k + 1];
      }
      ProcessChunksDeletes(outputDir, cs[1..], convert, step.disk);
      assert ChunkFiles(cs) == {cs[0].chunkFile} + ChunkFiles(cs[1..]) by {
        forall p | p in ChunkFiles(cs) ensures p in {cs[0].chunkFile} + ChunkFiles(cs[1..]) {
          var k :| 0 <= k < |cs| && cs[k].chunkFile == p;
          if k > 0 { assert cs[1..][k - 1] == cs[k]; }
        }
        forall p | p in ChunkFiles(cs[1..]) ensures p in ChunkFiles(cs) {
          var k :| 0 <= k < |cs| - 1 && cs[1..][k].chunkFile == p;
          assert cs[k + 1] == cs[1..][k];
        }
      }
    }
  }

  /** The first failing run stops the loop with its message; the chunk PDFs of that chunk and of all
      later chunks are left on disk (app.py:58-59, 67, 70). */
  lemma {:induction false} ProcessChunksFirstFailure(outputDir: Path, cs: seq<Chunk>, convert: Chunk -> Conversion, disk: Disk, k: nat)
    requires k < |cs| && AllConverted(cs[..k], convert) && convert(cs[k]).Failed?
    ensures var r := ProcessChunks(outputDir, cs, convert, disk);
      && r.failure == Some(MarkerFailure(cs[k].chunkFile, convert(cs[k]).stderr))
      && r.disk.chunkPdfs == disk.chunkPdfs - ChunkFiles(cs[..k])
  {
    if k > 0 {
      var step := ProcessChunk(outputDir, cs[0], convert(cs[0]), disk);
      assert cs[..k][0] == cs[0];
      var rest := cs[1..][..k - 1];
      assert AllConverted(rest, convert) by {
        assert forall j :: 0 <= j < k - 1 ==> rest[j] == cs[j + 1];
      }
      ProcessChunksFirstFailure(outputDir, cs[1..], convert, step.disk, k - 1);
      assert ChunkFiles(cs[..k]) == {cs[0].chunkFile} + ChunkFiles(cs[1..][..k - 1]) by {
        forall p | p in ChunkFiles(cs[..k]) ensures p in {cs[0].chunkFile} + ChunkFiles(cs[1..][..k - 1]) {
          var j :| 0 <= j < k && cs[..k][j].chunkFile == p;
          if j > 0 { assert cs[1..][..k - 1][j - 1] == cs[..k][j]; }
        }
        forall p | p in ChunkFiles(cs[1..][..k - 1]) ensures p in ChunkFiles(cs[..k]) {
          var j :| 0 <= j < k - 1 && cs[1..][..k - 1][j].chunkFile == p;
          assert cs[..k][j + 1] == cs[1..][..k - 1][j];
        }
      }
    } else {
      assert ChunkFiles(cs[..0]) == {};
    }
  }

  /** Paths no chunk writes to keep their contents, whatever the runs do. */
  lemma {:induction false} ProcessChunksKeeps(outputDir: Path, cs: seq<Chunk>, convert: Chunk -> Conversion, disk: Disk, p: Path)
    requires forall k :: 0 <= k < |cs| ==> Normalize(WritePath(outputDir, cs[k])) != p
    ensures var files := ProcessChunks(outputDir, cs, convert, disk).disk.files;
      (p in files <==> p in disk.files) && (p in files ==> files[p] == disk.files[p])
  {
    if |cs| > 0 {
      var step := ProcessChunk(outputDir, cs[0], convert(cs[0]), disk);
      assert forall k :: 0 <= k < |cs| - 1 ==> cs[1..][k] == cs[k + 1];
      ProcessChunksKeeps(outputDir, cs[1..], convert, step.disk, p);
    }
  }

  /** A chunk whose run wrote markdown, after every earlier run succeeded, has exactly that markdown
      on disk when the loop ends, whether or not a later run fails (nothing removes it, app.py:58-70),
      provided no later chunk writes to the same path. */
  lemma {:induction false} ProcessChunksWrites(outputDir: Path, cs: seq<Chunk>, convert: Chunk -> Conversion, disk: Disk, k: nat)
    requires k < |cs| && AllConverted(cs[..k], convert)
    requires convert(cs[k]).Converted? && convert(cs[k]).markdown.Some?
    requires forall j :: k < j < |cs| ==> Normalize(WritePath(outputDir, cs[j])) != Normalize(WritePath(outputDir, cs[k]))
    ensures var files := ProcessChunks(outputDir, cs, convert, disk).disk.files;
      var key := Normalize(WritePath(outputDir, cs[k]));
      key in files && files[key] == convert(cs[k]).markdown.value
  {
    var step := ProcessChunk(outputDir, cs[0], convert(cs[0]), disk);
    assert forall j :: 0 <= j < |cs| - 1 ==> cs[1..][j] == cs[j + 1];
    if k == 0 {
      ProcessChunksKeeps(outputDir, cs[1..], convert, step.disk, Normalize(WritePath(outputDir, cs[0])));
    } else {
      assert cs[..k][0] == cs[0];
      var rest := cs[1..][..k - 1];
      assert AllConverted(rest, convert) by {
        assert forall j :: 0 <= j < k - 1 ==> rest[j] == cs[j + 1];
      }
      ProcessChunksWrites(outputDir, cs[1..], convert, step.disk, k - 1);
    }
  }

  // ---------------------------------------------------------------------------------------------
  // End to end.

  /** No two chunks are converted into the same markdown file. */
  predicate DistinctWritePaths(outputDir: Path, cs: seq<Chunk>) {
    forall i, j :: 0 <= i < j < |cs| ==> Normalize(WritePath(outputDir, cs[i])) != Normalize(WritePath(outputDir, cs[j]))
  }

  /** No two chunks share a chunk PDF. */
  predicate DistinctChunkFiles(cs: seq<Chunk>) {
    forall i, j :: 0 <= i < j < |cs| ==> cs[i].chunkFile != cs[j].chunkFile
  }

  predicate InPageOrder(cs: seq<Chunk>) {
    forall i, j :: 0 <= i < j < |cs| ==> cs[i].startPage <= cs[j].startPage
  }

  /** The chunks of one input belong to one document, come in page order, and have pairwise distinct
      chunk PDFs and markdown files. */
  lemma FileChunksShape(inputPath: Path, outputDir: Path, pageCount: nat, fileId: string)
    ensures var cs := FileChunks(inputPath, outputDir, pageCount, fileId);
      && OneDocumentOf(cs, fileId) && InPageOrder(cs) && DistinctChunkFiles(cs) && DistinctWritePaths(outputDir, cs)
  {
    var cs := FileChunks(inputPath, outputDir, pageCount, fileId);
    forall i, j | 0 <= i < j < |cs|
      ensures cs[i].startPage <= cs[j].startPage
      ensures cs[i].chunkFile != cs[j].chunkFile
      ensures Normalize(WritePath(outputDir, cs[i])) != Normalize(WritePath(outputDir, cs[j]))
    {
      RangesAscending(cs, pageCount, i, j);
      PlanNamesDistinct(pageCount, DefaultChunkSize, fileId, InputName(inputPath), ChunkDir(outputDir), i, j);
      MarkdownPathsDiffer(outputDir, cs[i].originalFile, cs[i].chunkFile, cs[j].originalFile, cs[j].chunkFile);
      MarkdownPathAgrees(outputDir, cs[i].originalFile, cs[i].chunkFile);
      MarkdownPathAgrees(outputDir, cs[j].originalFile, cs[j].chunkFile);
    }
  }

  /** Every converter run wrote its markdown. */
  predicate AllWritten(cs: seq<Chunk>, convert: Chunk -> Conversion) {
    forall k :: 0 <= k < |cs| ==> convert(cs[k]).Converted? && convert(cs[k]).markdown.Some?
  }

  /** The markdown each chunk's run wrote, in chunk order. */
  function WrittenTexts(cs: seq<Chunk>, convert: Chunk -> Conversion): seq<string>
    requires AllWritten(cs, convert)
  {
    seq(|cs|, k requires 0 <= k < |cs| => convert(cs[k]).markdown.value)
  }

  /** When every chunk converts and no two share a markdown file, each chunk's markdown sits where
      the merger looks for it. */
  lemma AllWrittenFiles(outputDir: Path, cs: seq<Chunk>, convert: Chunk -> Conversion, disk: Disk)
    requires AllWritten(cs, convert) && DistinctWritePaths(outputDir, cs)
    ensures var fs := ProcessChunks(outputDir, cs, convert, disk).disk.files;
      forall k :: 0 <= k < |cs| ==>
        HasOutput(outputDir, fs, cs[k]) && fs[Normalize(OutputPath(outputDir, cs[k]))] == convert(cs[k]).markdown.value
  {
    forall k | 0 <= k < |cs|
      ensures var fs := ProcessChunks(outputDir, cs, convert, disk).disk.files;
        HasOutput(outputDir, fs, cs[k]) && fs[Normalize(OutputPath(outputDir, cs[k]))] == convert(cs[k]).markdown.value
    {
      ProcessChunksWrites(outputDir, cs, convert, disk, k);
      MarkdownPathAgrees(outputDir, cs[k].originalFile, cs[k].chunkFile);
    }
  }

  /** Converting the chunks of one document in page order and merging the results gives their
      markdown joined by newlines in that order. */
  lemma ConvertAndMerge(outputDir: Path, cs: seq<Chunk>, fileId: string, convert: Chunk -> Conversion, disk: Disk)
    requires AllWritten(cs, convert) && DistinctWritePaths(outputDir, cs)
    requires OneDocumentOf(cs, fileId) && InPageOrder(cs)
    ensures var run := ProcessChunks(outputDir, cs, convert, disk);
      && run.failure.None?
      && FirstResultText(MergeChunkResults(cs, outputDir, run.disk.files)) == Join(WrittenTexts(cs, convert), Newline)
  {
    var fs := ProcessChunks(outputDir, cs, convert, disk).disk.files;
    ProcessChunksSucceedsIff(outputDir, cs, convert, disk);
    AllWrittenFiles(outputDir, cs, convert, disk);
    AllHaveOutputOf(cs, outputDir, fs);
    MergeInPageOrder(cs, fileId, outputDir, fs);
    if |cs| > 0 {
      MarkdownTextsAt(cs, outputDir, fs, 0);
    }
    forall k | 0 <= k < |cs| ensures MarkdownTexts(cs, outputDir, fs)[k] == WrittenTexts(cs, convert)[k] {
      MarkdownTextsAt(cs, outputDir, fs, k);
    }
    assert MarkdownTexts(cs, outputDir, fs) == WrittenTexts(cs, convert);
  }

  /** When every chunk converts, process_file returns the chunks' markdown in page order joined by
      newlines, whatever files the output directory held before (app.py:99-119). */
  lemma ProcessFileAllWritten(inputPath: Path, outputDir: Path, pageCount: nat, fileId: string,
                              convert: Chunk -> Conversion, disk: Disk)
    requires AllWritten(FileChunks(inputPath, outputDir, pageCount, fileId), convert)
    ensures var cs := FileChunks(inputPath, outputDir, pageCount, fileId);
      ProcessFile(inputPath, outputDir, Success(pageCount), fileId, convert, disk).result ==
        Success(Join(WrittenTexts(cs, convert), Newline))
  {
    var cs := FileChunks(inputPath, outputDir, pageCount, fileId);
    FileChunksShape(inputPath, outputDir, pageCount, fileId);
    ConvertAndMerge(outputDir, cs, fileId, convert, disk.(chunkPdfs := disk.chunkPdfs + ChunkFiles(cs)));
    ProcessFileMerges(inputPath, outputDir, pageCount, fileId, convert, disk);
  }

  /** When the loop finishes, process_file returns the merge of the chunks' outputs (app.py:117-119). */
  lemma ProcessFileMerges(inputPath: Path, outputDir: Path, pageCount: nat, fileId: string,
                          convert: Chunk -> Conversion, disk: Disk)
    ensures var cs := FileChunks(inputPath, outputDir, pageCount, fileId);
      var run := ProcessChunks(outputDir, cs, convert, disk.(chunkPdfs := disk.chunkPdfs + ChunkFiles(cs)));
      run.failure.None? ==>
        ProcessFile(inputPath, outputDir, Success(pageCount), fileId, convert, disk).result ==
          Success(FirstResultText(MergeChunkResults(cs, outputDir, run.disk.files)))
  {
  }

  /** When every run succeeds, all chunk PDFs written by the split are deleted again. */
  lemma ProcessFileCleansUp(inputPath: Path, outputDir: Path, pageCount: nat, fileId: string,
                            convert: Chunk -> Conversion, disk: Disk)
    requires AllConverted(FileChunks(inputPath, outputDir, pageCount, fileId), convert)
    ensures var cs := FileChunks(inputPath, outputDir, pageCount, fileId);
      ProcessFile(inputPath, outputDir, Success(pageCount), fileId, convert, disk).disk.chunkPdfs ==
        disk.chunkPdfs - ChunkFiles(cs)
  {
    var cs := FileChunks(inputPath, outputDir, pageCount, fileId);
    var split := disk.(chunkPdfs := disk.chunkPdfs + ChunkFiles(cs));
    ProcessChunksSucceedsIff(outputDir, cs, convert, split);
    ProcessChunksDeletes(outputDir, cs, convert, split);
  }

  /** main exits with status 0 exactly when the PDF could be read and every converter run succeeded (app.py:131-139). */
  lemma MainExitCode(inputPath: Path, outputDir: Path, pdf: Result<nat, string>, fileId: string,
                     convert: Chunk -> Conversion, disk: Disk)
    ensures var r := Main(inputPath, outputDir, pdf, fileId, convert, disk);
      && (r.exitCode == 0 || r.exitCode == 1)
      && (r.exitCode == 0 <==> pdf.Success? && AllConverted(FileChunks(inputPath, outputDir, pdf.value, fileId), convert))
  {
    if pdf.Success? {
      var cs := FileChunks(inputPath, outputDir, pdf.value, fileId);
      ProcessChunksSucceedsIff(outputDir, cs, convert, disk.(chunkPdfs := disk.chunkPdfs + ChunkFiles(cs)));
    }
  }

  /** When every chunk converts, main exits with 0 and `<stem>_extracted.md` in the output directory
      holds the chunks' markdown in page order joined by newlines (app.py:132-136). */
  lemma MainAllWritten(inputPath: Path, outputDir: Path, pageCount: nat, fileId: string,
                       convert: Chunk -> Conversion, disk: Disk)
    requires AllWritten(FileChunks(inputPath, outputDir, pageCount, fileId), convert)
    ensures var r := Main(inputPath, outputDir, Success(pageCount), fileId, convert, disk);
      var out := Normalize(ExtractedPath(inputPath, outputDir));
      && r.exitCode == 0
      && out in r.disk.files
      && r.disk.files[out] == Join(WrittenTexts(FileChunks(inputPath, outputDir, pageCount, fileId), convert), Newline)
  {
    ProcessFileAllWritten(inputPath, outputDir, pageCount, fileId, convert, disk);
  }

  /** A PDF without pages yields an empty extracted file and touches no chunk PDF. */
  lemma EmptyPdfEmptyOutput(inputPath: Path, outputDir: Path, fileId: string, convert: Chunk -> Conversion, disk: Disk)
    ensures var r := Main(inputPath, outputDir, Success(0), fileId, convert, disk);
      && r.exitCode == 0
      && r.disk.files == disk.files[Normalize(ExtractedPath(inputPath, outputDir)) := ""]
      && r.disk.chunkPdfs == disk.chunkPdfs
  {
    var cs := FileChunks(inputPath, outputDir, 0, fileId);
    assert |cs| == 0;
    assert ChunkFiles(cs) == {};
    FirstResultSpec(cs, outputDir, disk.files);
  }

  /** When the k-th converter run is the first to fail, main exits with 1, prints the input's name and
      the failing chunk's message, and leaves the PDFs of that chunk and all later chunks on disk
      (app.py:58-59, 137-139). */
  lemma MainFirstFailure(inputPath: Path, outputDir: Path, pageCount: nat, fileId: string,
                         convert: Chunk -> Conversion, disk: Disk, k: nat)
    requires var cs := FileChunks(inputPath, outputDir, pageCount, fileId);
      k < |cs| && AllConverted(cs[..k], convert) && convert(cs[k]).Failed?
    ensures var cs := FileChunks(inputPath, outputDir, pageCount, fileId);
      var r := Main(inputPath, outputDir, Success(pageCount), fileId, convert, disk);
      && r.exitCode == 1
      && r.message == "Error processing " + InputName(inputPath) + ": " + MarkerFailure(cs[k].chunkFile, convert(cs[k]).stderr)
      && ChunkFiles(cs[k..]) <= r.disk.chunkPdfs
  {
    var cs := FileChunks(inputPath, outputDir, pageCount, fileId);
    var split := disk.(chunkPdfs := disk.chunkPdfs + ChunkFiles(cs));
    ProcessChunksFirstFailure(outputDir, cs, convert, split, k);
    FileChunksShape(inputPath, outputDir, pageCount, fileId);
    LaterChunkFilesKept(cs, disk.chunkPdfs, k);
  }

  /** With distinct chunk PDFs, deleting those before index k keeps those from index k on. */
  lemma LaterChunkFilesKept(cs: seq<Chunk>, pdfs: set<Path>, k: nat)
    requires k <= |cs| && DistinctChunkFiles(cs)
    ensures ChunkFiles(cs[k..]) <= (pdfs + ChunkFiles(cs)) - ChunkFiles(cs[..k])
  {
    forall p | p in ChunkFiles(cs[k..])
      ensures p in ChunkFiles(cs) && p !in ChunkFiles(cs[..k])
    {
      var j :| 0 <= j < |cs| - k && cs[k..][j].chunkFile == p;
      assert cs[k + j] == cs[k..][j];
      forall i | 0 <= i < k ensures cs[..k][i].chunkFile != p {
        assert cs[..k][i] == cs[i];
      }
    }
  }

  /** An unreadable input makes main exit with 1 and print the reader's error, and nothing on disk changes. */
  lemma MainUnreadable(inputPath: Path, outputDir: Path, e: string, fileId: string, convert: Chunk -> Conversion, disk: Disk)
    ensures var r := Main(inputPath, outputDir, Failure(e), fileId, convert, disk);
      r == RunOutcome(disk, 1, "Error processing " + InputName(inputPath) + ": " + e)
  {
  }
}
