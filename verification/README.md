# convert2markdown in Dafny

A model of `app.py`. That script converts a PDF to markdown in three steps:

1. It cuts the PDF into chunks of 20 pages (`split_pdf`).
2. It runs an external converter on each chunk in turn (`process_chunk`), deleting each chunk PDF afterwards.
3. It reads the markdown each run left behind and stitches it back into one document (`merge_chunk_results`).

`main` writes that document to `<input stem>_extracted.md`. If anything raises, it exits with status 1.

The model is purely functional. The PDF reader, the uuid generator and the converter are parameters. The disk is a value: a map from normalised paths to file text, plus the set of chunk PDFs present. Each step returns the next disk.

| module | file | models |
|---|---|---|
| `Wrappers` | `wrappers.dfy` | `Option` and `Result`, standing in for `None` and raised exceptions |
| `Text` | `text.dfy` | `str(n)` for page numbers and `sep.join` with a one-character separator; `Split` is a reference inverse of the join, not something the program calls |
| `Names` | `names.dfy` | paths as component sequences; `rsplit(".", 1)[0]`; pathlib's `.stem` (by the rule of Python 3.13 and earlier); how pathlib drops `""` and `"."` components; the chunk file names; the markdown locations; the extracted-file name |
| `Chunking` | `chunking.dfy` | `split_pdf`'s page-range arithmetic and chunk records, as a function and as the loop itself |
| `PageOrder` | `pageorder.dfy` | `sorted(pairs, key=start page)`, a stable sort, with its characterisation |
| `Merging` | `merging.dfy` | `merge_chunk_results`, plus reference definitions (surviving chunks, per-document pairs, first-appearance order) it is proved against; `process_file`'s first-result selection |
| `Pipeline` | `pipeline.dfy` | `process_chunk`, the processing loop, `process_file` and `main`, end to end |

Two points where the code is narrower than a loose reading of it suggests. First, the per-document output folder is not pathlib's stem of the original name. It is `rsplit(".", 1)[0]` (app.py:65, 80), and the two differ for names such as `.pdf` (and, by the `.stem` rule of Python 3.13 and earlier, `a.`); `Names.LeadingDotNamesDiffer` records the difference, and the model follows the code. Second, the merged text is independent of processing order only when a document's chunks start on distinct pages; pairs with equal start pages keep their processing order. `PageOrder.SortOrderIndependent` states the exact condition, and `Merging.MergeOrderIndependent` states the case the planner guarantees.

## Model

| member | source | states |
|---|---|---|
| `Text.NatToString` | app.py:32 | a page number renders as a canonical decimal numeral: digits only, no leading zero except for "0" |
| `Text.ParseNatToString` | app.py:32 | reading back the rendered page number gives the number (round trip) |
| `Text.NatToStringParse` | app.py:32 | rendering the value of a canonical numeral gives the numeral back (reverse round trip) |
| `Text.NatToStringInjective` | app.py:32 | distinct page numbers are rendered as distinct strings |
| `Text.SplitJoin` | app.py:93 | joining a non-empty list of separator-free pieces with the separator, then splitting, recovers the pieces (the empty list joins to "", which splits to [""]); markdown texts usually hold newlines, so this does not make the merged text reversible |
| `Text.JoinLosesBoundaries` | app.py:93 | joining with newlines forgets where the pieces ended: two different lists of texts give the same merged text |
| `Text.JoinSplit` | app.py:93 | joining the pieces of a split with the separator recovers the string |
| `Names.LastIndexOfSpec` | app.py:65 | the index found is the last occurrence of the character: it holds the character and nothing after it does |
| `Names.StripLastExtensionSpec` | app.py:65 | a dot-free name is kept whole; otherwise the result is the prefix before the last dot |
| `Names.StripLastExtensionOf` | app.py:65 | appending "." and a dot-free extension, then stripping, gives the base back |
| `Names.StemSpec` | app.py:80-81 | the stem is a prefix of the name; when it differs from the name, the cut is at the last dot, which is neither the first nor the last character |
| `Names.StemOf` | app.py:80-81 | a non-empty base plus "." plus a non-empty dot-free suffix has that base as its stem |
| `Names.DotlessNameUnchanged` | app.py:65 | a name without a dot is its own stem and its own stripped name |
| `Names.LeadingDotNamesDiffer` | app.py:65 | for ".pdf" the two derivations disagree: rsplit gives "" while the stem is ".pdf" |
| `Names.ChunkFileNameStem` | app.py:32 | the stem of a chunk file name is `{file_id}_chunk_{start}_{end}`, whatever characters other than the path separator the id holds (uuid4 text holds none) |
| `Names.ChunkStemInjective` | app.py:32 | a chunk stem determines its file id, start page and end page |
| `Names.ChunkFileNameInjective` | app.py:32 | distinct (id, start, end) triples give distinct chunk file names |
| `Names.NormalizeClean` | app.py:80-81 | a path as pathlib builds it holds no "" or "." component, and normalising it again changes nothing |
| `Names.MarkdownPathAgrees` | app.py:65-81 | the path the merger reads equals the converter's output path under the folder process_chunk passes it, and it names `<chunk stem>.md` |
| `Names.DroppedFolderCollapses` | app.py:65-81 | when the original name strips to "" or ".", the markdown sits directly under the output directory, as pathlib drops the empty folder |
| `Names.MarkdownPathsDiffer` | app.py:80-81 | chunks with different stems are read from different markdown files |
| `Names.ExtractedFileName` | app.py:133 | the output name ends in "_extracted.md", and its stem is the input's stem followed by "_extracted" |
| `Chunking.RangesFromShape` | app.py:24-27 | the loop's ranges run contiguously from page i+1 to the last page; each is non-empty and at most the chunk size, and all but the last are exactly the chunk size |
| `Chunking.Plan` | app.py:19-48 | the records partition pages 1..P contiguously, respect the chunk size, all carry the call's id and original name with the matching chunk file, and number ceil(P / size) |
| `Chunking.SplitPdf` | app.py:24 | `range(0, P, size)`: size 0 raises, a negative size gives no chunks, a positive size gives the plan |
| `Chunking.SplitPdfLoop` | app.py:24-46 | the loop that appends one record per iteration builds exactly the plan |
| `Chunking.PlanCount` | app.py:24 | the loop runs ceil(P / size) times |
| `Chunking.RangesAscending` | app.py:26-27 | an earlier chunk ends before any later chunk starts |
| `Chunking.PageInExactlyOneChunk` | app.py:24-27 | a page lies in some chunk iff it is in 1..P, and never in two chunks |
| `Chunking.PlanChunkFileNormal` | app.py:33 | a planned chunk file ends in a component pathlib keeps, so the name read from the record's path is that of the path pathlib builds |
| `Chunking.PlanNamesDistinct` | app.py:32 | distinct chunks of one split have distinct start pages, file names and stems |
| `Chunking.FortyFivePages` | app.py:24-27 | 45 pages in chunks of 20 give the ranges 1-20, 21-40 and 41-45 |
| `Chunking.NoPagesNoChunks` | app.py:24 | a document without pages yields no chunks |
| `PageOrder.SortPermutes` | app.py:92 | sorting keeps exactly the same pairs (same multiset) |
| `PageOrder.SortSorted` | app.py:92 | the sorted pairs are in ascending start-page order |
| `PageOrder.SortIsStable` | app.py:92 | pairs with equal start pages keep their input order |
| `PageOrder.SortIsStableSort` | app.py:92 | the sort meets Python's promise for `sorted` with a key: ordered, and stable for every key |
| `PageOrder.SortCharacterization` | app.py:92 | a sequence is the sort of s iff it is a stable sort of s; the result is unique |
| `PageOrder.SortedUnchanged` | app.py:92 | already ordered pairs are left as they are |
| `PageOrder.SortOrderIndependent` | app.py:92 | two collection orders sort alike iff they agree, page by page, on the order of pairs sharing a start page |
| `PageOrder.DistinctOrderIndependent` | app.py:92 | with distinct start pages, any reordering of the same pairs sorts to the same result |
| `Merging.GroupIndex` | app.py:86 | `file_id in results`: the index found holds that id, and -1 means no group has it |
| `Merging.FirstAppearancesShape` | app.py:86-87 | the reference order of ids lists each id of the input once, and starts with the first id |
| `Merging.FirstAppearancesOrdered` | app.py:86-91 | the reference order of ids is the order of their first occurrence |
| `Merging.CollectIds` | app.py:76-91 | the dict's keys, in insertion order, are the ids of the chunks with output, in order of first appearance |
| `Merging.CollectDistinct` | app.py:86-87 | the groups have pairwise distinct ids, one for each document with a surviving chunk |
| `Merging.CollectEntriesAt` | app.py:77-88 | each group holds exactly the (start page, text) pairs of its document's chunks with output, in chunk order |
| `Merging.CollectOriginalAt` | app.py:86-87 | each group keeps the original name of its document's first chunk with output |
| `Merging.MergeChunkResultsSpec` | app.py:75-96 | one result per document with output, in first-appearance order; each carries its first surviving chunk's original name and the sorted, newline-joined texts of its surviving chunks |
| `Merging.EntriesOfEmpty` | app.py:83-88 | a document has no pairs exactly when none of its chunks has output, so no result group is empty |
| `Merging.SurvivorsMembers` | app.py:83 | the chunks kept are exactly those whose markdown exists |
| `Merging.SurvivorsIdempotent` | app.py:83 | filtering the kept chunks again changes nothing |
| `Merging.EntriesOfSurvivors` | app.py:83-88 | dropping the chunks without output changes no document's pairs |
| `Merging.MissingOutputsDropped` | app.py:83-88 | missing markdown is skipped silently: merging all chunks equals merging only those with output |
| `Merging.DocumentPresent` | app.py:83-87 | an id appears among the results iff at least one of its chunks has a markdown file |
| `Merging.EntriesOfPermutation` | app.py:77-88 | reordering the chunks only reorders each document's pairs |
| `Merging.MergeOrderIndependent` | app.py:92-93 | when no two chunks of the same document in the list start on the same page (as `Merging.PlanDistinctStarts` shows for one split), any reordering of the chunk list gives every document the same merged text |
| `Merging.MergedTextSorted` | app.py:92-93 | pairs already in page order are joined as they stand |
| `Merging.SingleChunkUnchanged` | app.py:93 | one surviving chunk yields its text unchanged, with no separator added |
| `Merging.FirstResultSpec` | app.py:117-119 | process_file returns the merged text of the first surviving chunk's document, or "" when no chunk has output |
| `Merging.PlanDistinctStarts` | app.py:26 | the chunks of one split start on pairwise distinct pages |
| `Merging.SurvivorsAll` | app.py:83 | when every chunk has output, every chunk is kept |
| `Merging.MergedTextInOrder` | app.py:92-93 | for one document whose chunks all have output and come in page order, the merged text is their markdown joined in chunk order |
| `Merging.MergeInPageOrder` | app.py:75-119 | for such a document, process_file's text is every chunk's markdown in chunk order, joined by newlines |
| `Pipeline.InputNameSnoc` | app.py:100-127 | the input's name is its last component that pathlib keeps: a trailing "" or "." leaves it unchanged |
| `Pipeline.TrailingDotArgument` | app.py:127-133 | the argument `doc.pdf/.` is recorded as "doc.pdf" and writes the same output file as `doc.pdf` |
| `Pipeline.ProcessChunksSucceedsIff` | app.py:110-114 | the loop finishes without an exception iff no converter run fails |
| `Pipeline.ProcessChunksDeletes` | app.py:70 | when every run succeeds, every chunk PDF of the list is deleted and no other PDF is touched |
| `Pipeline.ProcessChunksFirstFailure` | app.py:56-70 | the first failing run stops the loop with "Marker command failed for <chunk>: <stderr>"; exactly the PDFs of the chunks before it are deleted |
| `Pipeline.ProcessChunksKeeps` | app.py:64-72 | a file no chunk's run writes keeps its presence and contents |
| `Pipeline.ProcessChunksWrites` | app.py:64-72 | a chunk whose run wrote markdown after every earlier run succeeded has that markdown on disk when the loop ends, even when a later run fails, provided no later chunk writes the same file |
| `Pipeline.FileChunksShape` | app.py:102-107 | process_file's chunks belong to one document, come in page order, and have pairwise distinct chunk PDFs and markdown files |
| `Pipeline.AllWrittenFiles` | app.py:65-81 | when every run writes markdown and no two chunks share a markdown file (as `Pipeline.FileChunksShape` shows for process_file's chunks), each chunk's markdown is found exactly where the merger looks |
| `Pipeline.ConvertAndMerge` | app.py:110-117 | when every run writes markdown, no two chunks share a markdown file, and the chunks all belong to one document and come in page order (all shown by `Pipeline.FileChunksShape` for process_file's chunks), the loop succeeds and merging gives their markdown joined by newlines in that order |
| `Pipeline.ProcessFileAllWritten` | app.py:99-119 | when every run writes markdown, process_file returns it in page order joined by newlines, whatever the output directory held before |
| `Pipeline.ProcessFileCleansUp` | app.py:99-114 | when every run succeeds, all chunk PDFs the split wrote are deleted again |
| `Pipeline.MainExitCode` | app.py:131-139 | main exits with 0 or 1, and with 0 iff the PDF was read and every converter run succeeded |
| `Pipeline.MainAllWritten` | app.py:131-136 | when every run writes markdown, main exits with 0 and `<stem>_extracted.md` holds the chunks' markdown in page order joined by newlines |
| `Pipeline.EmptyPdfEmptyOutput` | app.py:131-136 | a PDF without pages gives exit status 0 and an empty extracted file; nothing else on disk changes |
| `Pipeline.MainFirstFailure` | app.py:137-139 | when the k-th run is the first to fail, main exits with 1 and prints "Error processing <name>: " followed by that run's failure message; that chunk's PDF and every later one stay on disk |
| `Pipeline.MainUnreadable` | app.py:131-139 | an unreadable PDF gives exit status 1 and the reader's error message, and leaves the disk unchanged |

## Left out

- Reading the PDF and copying pages into chunk files (PyPDF2, app.py:20, 25, 29-30, 35-36). These are foreign library calls. The model takes the reader's outcome as a parameter: a page count or an error message. A chunk PDF is represented only by its path.
- `uuid.uuid4()` (app.py:21) is nondeterministic, so the file id is a parameter.
- The converter subprocess (app.py:51-61) is an external program. The model leaves out its command string, shell quoting, `BATCH_MULTIPLIER`, `MAX_PAGES` and its standard output. A run is a parameter `Chunk -> Conversion`: a failure with its error output, or a success that may or may not have written markdown. It is assumed to write to `<given dir>/<chunk stem>/<chunk stem>.md`. Every run ends: `subprocess.run` has no timeout, and a converter that never exits, which would hang the program, is outside the model.
- `WORKERS` (app.py:15) is never read.
- `mkdir` calls (app.py:66, 103-104, 129) are not modelled, because directories are not modelled: the disk maps full paths to file contents.
- I/O errors are not modelled: a failing read of a markdown file, a failing `os.remove`, or a failing write of the extracted file. Exceptions other than the PDF reader's and the converter's are left out too.
- Console output is left out. The progress line (app.py:112) is not modelled. main's final line is modelled as a message string rather than printed.
- Argument parsing (app.py:122-125) is left out: `Pipeline.Main` receives the two paths already parsed. argparse's own usage errors are not modelled.
- Paths are sequences of components with no root. Absolute paths, `..` and separators inside a component are not modelled. `Pipeline.PathString` renders the empty path as "" where Python prints "."; it is only applied to non-empty paths.
- The set of chunk PDFs is keyed by the path as built, without pathlib's normalisation. The chunk directory `outputDir + ["chunks"]` always ends in a real component, so only a "" or "." inside `outputDir` itself would make this differ.
- File contents are text as Python's text-mode `open(md_file, "r")` returns it (app.py:84). A written markdown `Converted(Some(text))` and the entries of the file map both denote that decoded, newline-translated text. Locale decoding, the `\r\n` and `\r` to `\n` translation, and the UTF-8 encoding of the output write (app.py:134) are outside the model, so the equalities of `Pipeline.ConvertAndMerge`, `Pipeline.ProcessFileAllWritten` and `Pipeline.MainAllWritten` hold of those decoded texts.
- A chunk record's `chunkFile` is taken to be the path as pathlib builds it, so its name and stem are read from its last component. A record whose path ends in "" or "." (for which pathlib would use an earlier component) is never built by the planner, as `Chunking.PlanChunkFileNormal` shows, but the merging lemmas, which hold for every list of chunks, read such a record's name without normalising it.
