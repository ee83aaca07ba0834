/** The result merger, merge_chunk_results (app.py:75-96), and the first-result selection of
    process_file (app.py:119). The file system is an oracle: the text of every file that exists. */
module Merging {
  import opened Text
  import opened Names
  import opened Chunking
  import opened PageOrder

  /** The files that exist, each with its text as a text-mode read returns it (app.py:84-85). */
  type FileSystem = map<Path, string>

  /** The separator between merged chunk texts (app.py:93). */
  const Newline: char := '\n'

  /** The markdown file the merger reads for chunk c (app.py:80-81). */
  function OutputPath(outputDir: Path, c: Chunk): Path {
    MarkdownPath(outputDir, c.originalFile, c.chunkFile)
  }

  /** `md_file.exists()` (app.py:83). */
  predicate HasOutput(outputDir: Path, fs: FileSystem, c: Chunk) {
    Normalize(OutputPath(outputDir, c)) in fs
  }

  /** The (start page, text) pair collected for a chunk whose output exists (app.py:84-88). */
  function EntryOf(outputDir: Path, fs: FileSystem, c: Chunk): Entry
    requires HasOutput(outputDir, fs, c)
  {
    Entry(c.startPage, fs[Normalize(OutputPath(outputDir, c))])
  }

  /** One value of the `results` dict (app.py:87): the original name recorded when the id was first
      seen, and the pairs collected for it so far. The dict itself is a sequence of groups in
      insertion order. */
  datatype Group = Group(fileId: string, originalFile: string, entries: seq<Entry>)

  /** One tuple of `final_results` (app.py:94). */
  datatype DocResult = DocResult(originalFile: string, text: string)

  /** `file_id in results` and where: the index of the group with this id, or -1. */
  function GroupIndex(gs: seq<Group>, id: string): (r: int)
    ensures -1 <= r < |gs|
    ensures r >= 0 ==> gs[r].fileId == id
    ensures r < 0 ==> forall k :: 0 <= k < |gs| ==> gs[k].fileId != id
  {
    if |gs| == 0 then -1
    else if gs[|gs| - 1].fileId == id then |gs| - 1
    else GroupIndex(gs[..|gs| - 1], id)
  }

  /** One iteration of the collecting loop (app.py:78-88): a chunk without output changes nothing;
      otherwise its pair is appended to its id's group, which is created on first sight. */
  function CollectOne(gs: seq<Group>, outputDir: Path, fs: FileSystem, c: Chunk): seq<Group> {
    if !HasOutput(outputDir, fs, c) then gs
    else
      var e := EntryOf(outputDir, fs, c);
      var k := GroupIndex(gs, c.fileId);
      if k < 0 then gs + [Group(c.fileId, c.originalFile, [e])]
      else gs[k := gs[k].(entries := gs[k].entries + [e])]
  }

  /** The `results` dict after the collecting loop has run over all chunks. */
  function Collect(cs: seq<Chunk>, outputDir: Path, fs: FileSystem): seq<Group> {
    if |cs| == 0 then []
    else CollectOne(Collect(cs[..|cs| - 1], outputDir, fs), outputDir, fs, cs[|cs| - 1])
  }

  function Contents(es: seq<Entry>): seq<string> {
    seq(|es|, k requires 0 <= k < |es| => es[k].content)
  }

  /** The merged text of one document (app.py:92-93): its pairs sorted by start page, texts joined by newlines. */
  function MergedText(es: seq<Entry>): string {
    Join(Contents(SortByStartPage(es)), Newline)
  }

  /** merge_chunk_results (app.py:75-96): one (original name, merged text) per group, in dict order. */
  function MergeChunkResults(cs: seq<Chunk>, outputDir: Path, fs: FileSystem): seq<DocResult> {
    var gs := Collect(cs, outputDir, fs);
    seq(|gs|, k requires 0 <= k < |gs| => DocResult(gs[k].originalFile, MergedText(gs[k].entries)))
  }

  /** process_file's return value (app.py:119): the first result's text, or "" when there is none. */
  function FirstResultText(results: seq<DocResult>): string {
    if |results| > 0 then results[0].text else ""
  }

  // ---------------------------------------------------------------------------------------------
  // Reference definitions: what the collected groups should be, stated without the dict.

  /** The chunks whose markdown exists, in order. */
  function Survivors(cs: seq<Chunk>, outputDir: Path, fs: FileSystem): seq<Chunk> {
    if |cs| == 0 then []
    else if HasOutput(outputDir, fs, cs[|cs| - 1]) then Survivors(cs[..|cs| - 1], outputDir, fs) + [cs[|cs| - 1]]
    else Survivors(cs[..|cs| - 1], outputDir, fs)
  }

  /** The pairs of the surviving chunks of document `id`, in chunk order. */
  function EntriesOf(cs: seq<Chunk>, id: string, outputDir: Path, fs: FileSystem): seq<Entry> {
    if |cs| == 0 then []
    else
      var c := cs[|cs| - 1];
      if HasOutput(outputDir, fs, c) && c.fileId == id then EntriesOf(cs[..|cs| - 1], id, outputDir, fs) + [EntryOf(outputDir, fs, c)]
      else EntriesOf(cs[..|cs| - 1], id, outputDir, fs)
  }

  function IdsOf(cs: seq<Chunk>): seq<string> {
    seq(|cs|, k requires 0 <= k < |cs| => cs[k].fileId)
  }

  function GroupIds(gs: seq<Group>): seq<string> {
    seq(|gs|, k requires 0 <= k < |gs| => gs[k].fileId)
  }

  /** The elements of s, each once, in the order of their first occurrence. */
  function FirstAppearances(s: seq<string>): seq<string> {
    if |s| == 0 then []
    else
      var d := FirstAppearances(s[..|s| - 1]);
      if s[|s| - 1] in d then d else d + [s[|s| - 1]]
  }

  /** The position of the first occurrence of x in s. */
  function FirstIndex(s: seq<string>, x: string): (r: nat)
    requires x in s
    ensures r < |s| && s[r] == x
    ensures forall j :: 0 <= j < r ==> s[j] != x
  {
    if s[0] == x then 0 else 1 + FirstIndex(s[1..], x)
  }

  predicate Distinct(s: seq<string>) {
    forall i, j :: 0 <= i < j < |s| ==> s[i] != s[j]
  }

  // ---------------------------------------------------------------------------------------------
  // First-appearance order.

  /** FirstAppearances keeps every element exactly once and starts with the first element. */
  lemma {:induction false} FirstAppearancesShape(s: seq<string>)
    ensures Distinct(FirstAppearances(s))
    ensures forall x :: x in FirstAppearances(s) <==> x in s
    ensures |s| > 0 ==> FirstAppearances(s)[0] == s[0]
  {
    if |s| > 0 {
      FirstAppearancesShape(s[..|s| - 1]);
      assert s == s[..|s| - 1] + [s[|s| - 1]];
      if |s| > 1 {
        assert s[..|s| - 1][0] == s[0];
      }
    }
  }

  lemma FirstIndexSnoc(s: seq<string>, y: string, x: string)
    requires x in s
    ensures FirstIndex(s + [y], x) == FirstIndex(s, x)
  {
    if s[0] != x {
      assert (s + [y])[1..] == s[1..] + [y];
      FirstIndexSnoc(s[1..], y, x);
    }
  }

  lemma FirstIndexNew(s: seq<string>, x: string)
    requires x !in s
    ensures FirstIndex(s + [x], x) == |s|
  {
    if |s| > 0 {
      assert (s + [x])[1..] == s[1..] + [x];
      FirstIndexNew(s[1..], x);
    }
  }

  /** FirstAppearances lists the elements in the order of their first occurrence. */
  lemma {:induction false} FirstAppearancesOrdered(s: seq<string>)
    ensures var d := FirstAppearances(s);
      forall i, j :: 0 <= i < j < |d| ==> d[i] in s && d[j] in s && FirstIndex(s, d[i]) < FirstIndex(s, d[j])
  {
    FirstAppearancesShape(s);
    if |s| > 0 {
      var init, last := s[..|s| - 1], s[|s| - 1];
      assert s == init + [last];
      FirstAppearancesOrdered(init);
      FirstAppearancesShape(init);
      var d0 := FirstAppearances(init);
      var d := FirstAppearances(s);
      forall i, j | 0 <= i < j < |d|
        ensures d[i] in s && d[j] in s && FirstIndex(s, d[i]) < FirstIndex(s, d[j])
      {
        assert d[i] in init by { assert d[i] in d0; }
        FirstIndexSnoc(init, last, d[i]);
        if j < |d0| {
          assert d[j] in d0;
          FirstIndexSnoc(init, last, d[j]);
        } else {
          assert d[j] == last && last !in init;
          FirstIndexNew(init, last);
        }
      }
    }
  }

  // ---------------------------------------------------------------------------------------------
  // What the collecting loop builds.

  lemma IdsOfSnoc(s: seq<Chunk>, c: Chunk)
    ensures IdsOf(s + [c]) == IdsOf(s) + [c.fileId]
  {
    assert forall k :: 0 <= k < |s| ==> (s + [c])[k] == s[k];
  }

  /** The effect of one collecting step on the group ids: a new id is appended, a known one changes nothing. */
  lemma CollectOneIds(gs: seq<Group>, outputDir: Path, fs: FileSystem, c: Chunk)
    ensures var r := CollectOne(gs, outputDir, fs, c);
      GroupIds(r) == if !HasOutput(outputDir, fs, c) || c.fileId in GroupIds(gs) then GroupIds(gs) else GroupIds(gs) + [c.fileId]
  {
    if HasOutput(outputDir, fs, c) {
      var k := GroupIndex(gs, c.fileId);
      if k < 0 {
        assert c.fileId !in GroupIds(gs);
      } else {
        assert GroupIds(gs)[k] == c.fileId;
      }
    }
  }

  /** The dict's keys are the ids of the surviving chunks in order of first appearance (app.py:86-87). */
  lemma {:induction false} CollectIds(cs: seq<Chunk>, outputDir: Path, fs: FileSystem)
    ensures GroupIds(Collect(cs, outputDir, fs)) == FirstAppearances(IdsOf(Survivors(cs, outputDir, fs)))
  {
    if |cs| > 0 {
      var init, last := cs[..|cs| - 1], cs[|cs| - 1];
      CollectIds(init, outputDir, fs);
      CollectOneIds(Collect(init, outputDir, fs), outputDir, fs, last);
      if HasOutput(outputDir, fs, last) {
        var ids := IdsOf(Survivors(init, outputDir, fs));
        IdsOfSnoc(Survivors(init, outputDir, fs), last);
        assert (ids + [last.fileId])[..|ids|] == ids;
      }
    }
  }

  /** The collected groups have pairwise distinct ids, one for each id among the survivors. */
  lemma CollectDistinct(cs: seq<Chunk>, outputDir: Path, fs: FileSystem)
    ensures Distinct(GroupIds(Collect(cs, outputDir, fs)))
    ensures forall id :: id in GroupIds(Collect(cs, outputDir, fs)) <==> id in IdsOf(Survivors(cs, outputDir, fs))
  {
    CollectIds(cs, outputDir, fs);
    FirstAppearancesShape(IdsOf(Survivors(cs, outputDir, fs)));
  }

  /** A document has no pairs exactly when none of its chunks survived. */
  lemma {:induction false} EntriesOfEmpty(cs: seq<Chunk>, id: string, outputDir: Path, fs: FileSystem)
    ensures EntriesOf(cs, id, outputDir, fs) == [] <==> id !in IdsOf(Survivors(cs, outputDir, fs))
  {
    if |cs| > 0 {
      var init, last := cs[..|cs| - 1], cs[|cs| - 1];
      EntriesOfEmpty(init, id, outputDir, fs);
      if HasOutput(outputDir, fs, last) {
        IdsOfSnoc(Survivors(init, outputDir, fs), last);
      }
    }
  }

  /** A surviving chunk lands in the group of its id: the step keeps every earlier group's id and,
      for a new id, appends one group at the end. */
  lemma CollectOneKeeps(gs: seq<Group>, outputDir: Path, fs: FileSystem, c: Chunk, j: nat)
    requires j < |gs|
    ensures var r := CollectOne(gs, outputDir, fs, c);
      j < |r| && r[j].fileId == gs[j].fileId && r[j].originalFile == gs[j].originalFile
  {
  }

  /** The group at index j holds exactly the pairs of its document's surviving chunks, in chunk order (app.py:88). */
  lemma {:induction false} CollectEntriesAt(cs: seq<Chunk>, outputDir: Path, fs: FileSystem, j: nat)
    requires j < |Collect(cs, outputDir, fs)|
    ensures var gs := Collect(cs, outputDir, fs);
      gs[j].entries == EntriesOf(cs, gs[j].fileId, outputDir, fs)
  {
    var init, last := cs[..|cs| - 1], cs[|cs| - 1];
    var gs0 := Collect(init, outputDir, fs);
    var gs := Collect(cs, outputDir, fs);
    var id := gs[j].fileId;
    if !HasOutput(outputDir, fs, last) {
      CollectEntriesAt(init, outputDir, fs, j);
    } else {
      var k := GroupIndex(gs0, last.fileId);
      if j < |gs0| {
        CollectEntriesAt(init, outputDir, fs, j);
        CollectOneKeeps(gs0, outputDir, fs, last, j);
        if k >= 0 && j != k {
          CollectDistinct(init, outputDir, fs);
          assert GroupIds(gs0)[j] != GroupIds(gs0)[k];
        }
      } else {
        CollectDistinct(init, outputDir, fs);
        assert last.fileId !in GroupIds(gs0) by {
          assert forall i :: 0 <= i < |gs0| ==> GroupIds(gs0)[i] != last.fileId;
        }
        EntriesOfEmpty(init, last.fileId, outputDir, fs);
      }
    }
  }

  /** The group at index j keeps the original name of its document's first surviving chunk (app.py:86-87). */
  lemma {:induction false} CollectOriginalAt(cs: seq<Chunk>, outputDir: Path, fs: FileSystem, j: nat)
    requires j < |Collect(cs, outputDir, fs)|
    ensures var gs := Collect(cs, outputDir, fs);
      var ids := IdsOf(Survivors(cs, outputDir, fs));
      gs[j].fileId in ids &&
      gs[j].originalFile == Survivors(cs, outputDir, fs)[FirstIndex(ids, gs[j].fileId)].originalFile
  {
    var init, last := cs[..|cs| - 1], cs[|cs| - 1];
    var gs0 := Collect(init, outputDir, fs);
    var s0 := Survivors(init, outputDir, fs);
    if !HasOutput(outputDir, fs, last) {
      CollectOriginalAt(init, outputDir, fs, j);
    } else {
      IdsOfSnoc(s0, last);
      if j < |gs0| {
        CollectOriginalAt(init, outputDir, fs, j);
        CollectOneKeeps(gs0, outputDir, fs, last, j);
        FirstIndexSnoc(IdsOf(s0), last.fileId, gs0[j].fileId);
      } else {
        CollectDistinct(init, outputDir, fs);
        assert last.fileId !in GroupIds(gs0) by {
          assert forall i :: 0 <= i < |gs0| ==> GroupIds(gs0)[i] != last.fileId;
        }
        FirstIndexNew(IdsOf(s0), last.fileId);
      }
    }
  }

  // ---------------------------------------------------------------------------------------------
  // What merge_chunk_results returns.

  /** The name a document's result carries: that of its first surviving chunk. */
  function FirstOriginal(survivors: seq<Chunk>, id: string): string
    requires id in IdsOf(survivors)
  {
    survivors[FirstIndex(IdsOf(survivors), id)].originalFile
  }

  /** merge_chunk_results returns one result per document with a surviving chunk, in order of first
      appearance, each carrying its first chunk's original name and the newline-joined texts of all
      its surviving chunks in start-page order (app.py:75-96). */
  lemma MergeChunkResultsSpec(cs: seq<Chunk>, outputDir: Path, fs: FileSystem)
    ensures var survivors := Survivors(cs, outputDir, fs);
      var ids := FirstAppearances(IdsOf(survivors));
      var r := MergeChunkResults(cs, outputDir, fs);
      && |r| == |ids|
      && Distinct(ids)
      && (forall j :: 0 <= j < |ids| ==> ids[j] in IdsOf(survivors))
      && (forall j :: 0 <= j < |r| ==>
            r[j] == DocResult(FirstOriginal(survivors, ids[j]), MergedText(EntriesOf(cs, ids[j], outputDir, fs))))
  {
    var survivors := Survivors(cs, outputDir, fs);
    var gs := Collect(cs, outputDir, fs);
    CollectIds(cs, outputDir, fs);
    FirstAppearancesShape(IdsOf(survivors));
    forall j | 0 <= j < |gs|
      ensures gs[j].fileId in IdsOf(survivors)
      ensures gs[j].entries == EntriesOf(cs, gs[j].fileId, outputDir, fs)
      ensures gs[j].originalFile == FirstOriginal(survivors, gs[j].fileId)
    {
      assert GroupIds(gs)[j] == gs[j].fileId;
      CollectEntriesAt(cs, outputDir, fs, j);
      CollectOriginalAt(cs, outputDir, fs, j);
    }
    forall j | 0 <= j < |gs|
      ensures GroupIds(gs)[j] == gs[j].fileId
    {
    }
  }

  /** Survivors is a filter: filtering again changes nothing. */
  lemma {:induction false} SurvivorsIdempotent(cs: seq<Chunk>, outputDir: Path, fs: FileSystem)
    ensures Survivors(Survivors(cs, outputDir, fs), outputDir, fs) == Survivors(cs, outputDir, fs)
  {
    if |cs| > 0 {
      var init, last := cs[..|cs| - 1], cs[|cs| - 1];
      var s0 := Survivors(init, outputDir, fs);
      SurvivorsIdempotent(init, outputDir, fs);
      if HasOutput(outputDir, fs, last) {
        assert (s0 + [last])[..|s0|] == s0;
      }
    }
  }

  /** Dropping the chunks without output does not change any document's pairs. */
  lemma {:induction false} EntriesOfSurvivors(cs: seq<Chunk>, id: string, outputDir: Path, fs: FileSystem)
    ensures EntriesOf(Survivors(cs, outputDir, fs), id, outputDir, fs) == EntriesOf(cs, id, outputDir, fs)
  {
    if |cs| > 0 {
      var init, last := cs[..|cs| - 1], cs[|cs| - 1];
      var s0 := Survivors(init, outputDir, fs);
      EntriesOfSurvivors(init, id, outputDir, fs);
      if HasOutput(outputDir, fs, last) {
        assert (s0 + [last])[..|s0|] == s0;
      }
    }
  }

  /** A chunk whose markdown is missing is skipped silently: merging all chunks gives the same results
      as merging only those whose output exists (app.py:83). */
  lemma MissingOutputsDropped(cs: seq<Chunk>, outputDir: Path, fs: FileSystem)
    ensures MergeChunkResults(cs, outputDir, fs) == MergeChunkResults(Survivors(cs, outputDir, fs), outputDir, fs)
  {
    var survivors := Survivors(cs, outputDir, fs);
    SurvivorsIdempotent(cs, outputDir, fs);
    MergeChunkResultsSpec(cs, outputDir, fs);
    MergeChunkResultsSpec(survivors, outputDir, fs);
    var ids := FirstAppearances(IdsOf(survivors));
    forall j | 0 <= j < |ids| {
      EntriesOfSurvivors(cs, ids[j], outputDir, fs);
    }
  }

  /** A document appears in the results exactly when at least one of its chunks left a markdown file. */
  lemma DocumentPresent(cs: seq<Chunk>, id: string, outputDir: Path, fs: FileSystem)
    ensures id in GroupIds(Collect(cs, outputDir, fs)) <==>
      exists k :: 0 <= k < |cs| && cs[k].fileId == id && HasOutput(outputDir, fs, cs[k])
  {
    CollectDistinct(cs, outputDir, fs);
    SurvivorsMembers(cs, outputDir, fs);
    var survivors := Survivors(cs, outputDir, fs);
    if id in IdsOf(survivors) {
      var i :| 0 <= i < |survivors| && IdsOf(survivors)[i] == id;
      assert survivors[i] in survivors;
    }
    if exists k :: 0 <= k < |cs| && cs[k].fileId == id && HasOutput(outputDir, fs, cs[k]) {
      var k :| 0 <= k < |cs| && cs[k].fileId == id && HasOutput(outputDir, fs, cs[k]);
      assert cs[k] in cs;
      var i :| 0 <= i < |survivors| && survivors[i] == cs[k];
      assert IdsOf(survivors)[i] == id;
    }
  }

  /** The survivors are exactly the chunks with output. */
  lemma {:induction false} SurvivorsMembers(cs: seq<Chunk>, outputDir: Path, fs: FileSystem)
    ensures forall c :: c in Survivors(cs, outputDir, fs) <==> c in cs && HasOutput(outputDir, fs, c)
  {
    if |cs| > 0 {
      var init, last := cs[..|cs| - 1], cs[|cs| - 1];
      assert cs == init + [last];
      SurvivorsMembers(init, outputDir, fs);
    }
  }

  // ---------------------------------------------------------------------------------------------
  // Order of completion, single chunks, and the first result.

  /** No two chunks of the same document start on the same page. */
  predicate DistinctStartsPerDocument(cs: seq<Chunk>) {
    forall i, j :: 0 <= i < j < |cs| && cs[i].fileId == cs[j].fileId ==> cs[i].startPage != cs[j].startPage
  }

  /** Some chunk of document `id` starts on page p. */
  ghost predicate StartsOn(cs: seq<Chunk>, id: string, p: nat) {
    exists k :: 0 <= k < |cs| && cs[k].fileId == id && cs[k].startPage == p
  }

  lemma {:induction false} EntriesOfPages(cs: seq<Chunk>, id: string, outputDir: Path, fs: FileSystem)
    ensures forall i :: 0 <= i < |EntriesOf(cs, id, outputDir, fs)| ==>
      StartsOn(cs, id, EntriesOf(cs, id, outputDir, fs)[i].startPage)
  {
    if |cs| > 0 {
      var init, last := cs[..|cs| - 1], cs[|cs| - 1];
      EntriesOfPages(init, id, outputDir, fs);
      forall p | StartsOn(init, id, p)
        ensures StartsOn(cs, id, p)
      {
        var k :| 0 <= k < |init| && init[k].fileId == id && init[k].startPage == p;
        assert cs[k] == init[k];
      }
      if HasOutput(outputDir, fs, last) && last.fileId == id {
        var es0 := EntriesOf(init, id, outputDir, fs);
        var es := es0 + [EntryOf(outputDir, fs, last)];
        forall i | 0 <= i < |es|
          ensures StartsOn(cs, id, es[i].startPage)
        {
          if i < |es0| {
            assert es[i] == es0[i];
            assert StartsOn(init, id, es0[i].startPage);
          } else {
            assert StartsOn(cs, id, cs[|cs| - 1].startPage) by { assert cs[|cs| - 1].fileId == id; }
          }
        }
        assert EntriesOf(cs, id, outputDir, fs) == es;
      }
    }
  }

  /** With distinct start pages per document, every document's pairs have distinct start pages. */
  lemma {:induction false} EntriesOfDistinct(cs: seq<Chunk>, id: string, outputDir: Path, fs: FileSystem)
    requires DistinctStartsPerDocument(cs)
    ensures DistinctStarts(EntriesOf(cs, id, outputDir, fs))
  {
    if |cs| > 0 {
      var init, last := cs[..|cs| - 1], cs[|cs| - 1];
      assert DistinctStartsPerDocument(init) by {
        assert forall k :: 0 <= k < |init| ==> init[k] == cs[k];
      }
      EntriesOfDistinct(init, id, outputDir, fs);
      if HasOutput(outputDir, fs, last) && last.fileId == id {
        EntriesOfPages(init, id, outputDir, fs);
        forall p | StartsOn(init, id, p)
          ensures p != last.startPage
        {
          var k :| 0 <= k < |init| && init[k].fileId == id && init[k].startPage == p;
          assert cs[k] == init[k];
        }
        var es0 := EntriesOf(init, id, outputDir, fs);
        var es := es0 + [EntryOf(outputDir, fs, last)];
        forall i, j | 0 <= i < j < |es|
          ensures es[i].startPage != es[j].startPage
        {
          if j == |es0| {
            assert es[i] == es0[i];
            assert StartsOn(init, id, es0[i].startPage);
          } else {
            assert es[i] == es0[i] && es[j] == es0[j];
          }
        }
      }
    }
  }

  lemma {:induction false} EntriesOfConcat(a: seq<Chunk>, b: seq<Chunk>, id: string, outputDir: Path, fs: FileSystem)
    ensures EntriesOf(a + b, id, outputDir, fs) == EntriesOf(a, id, outputDir, fs) + EntriesOf(b, id, outputDir, fs)
  {
    if |b| == 0 {
      assert a + b == a;
    } else {
      var binit := b[..|b| - 1];
      assert (a + b)[..|a + b| - 1] == a + binit;
      EntriesOfConcat(a, binit, id, outputDir, fs);
    }
  }

  lemma RemoveOne(ds: seq<Chunk>, j: nat)
    requires j < |ds|
    ensures multiset(ds[..j] + ds[j + 1..]) == multiset(ds) - multiset{ds[j]}
  {
    assert ds == ds[..j] + [ds[j]] + ds[j + 1..];
  }

  lemma EntriesOfRemove(ds: seq<Chunk>, j: nat, id: string, outputDir: Path, fs: FileSystem)
    requires j < |ds|
    ensures multiset(EntriesOf(ds, id, outputDir, fs)) ==
      multiset(EntriesOf(ds[..j] + ds[j + 1..], id, outputDir, fs)) + multiset(EntriesOf([ds[j]], id, outputDir, fs))
  {
    var before, x, after := ds[..j], ds[j], ds[j + 1..];
    assert ds == before + [x] + after;
    EntriesOfConcat(before + [x], after, id, outputDir, fs);
    EntriesOfConcat(before, [x], id, outputDir, fs);
    EntriesOfConcat(before, after, id, outputDir, fs);
  }

  /** Reordering the chunks reorders each document's pairs and nothing more. */
  lemma {:induction false} EntriesOfPermutation(cs: seq<Chunk>, ds: seq<Chunk>, id: string, outputDir: Path, fs: FileSystem)
    requires multiset(cs) == multiset(ds)
    ensures multiset(EntriesOf(cs, id, outputDir, fs)) == multiset(EntriesOf(ds, id, outputDir, fs))
    decreases |cs|
  {
    if |cs| == 0 {
      assert |ds| == |multiset(ds)| == 0;
    } else {
      var init, x := cs[..|cs| - 1], cs[|cs| - 1];
      assert cs == init + [x];
      assert x in multiset(ds);
      var j :| 0 <= j < |ds| && ds[j] == x;
      RemoveOne(ds, j);
      EntriesOfPermutation(init, ds[..j] + ds[j + 1..], id, outputDir, fs);
      EntriesOfRemove(ds, j, id, outputDir, fs);
      EntriesOfConcat(init, [x], id, outputDir, fs);
    }
  }

  /** Chunks may finish in any order: as long as a document's chunks start on distinct pages, its
      merged text does not depend on the order in which they are handed to the merger (app.py:92). */
  lemma MergeOrderIndependent(cs: seq<Chunk>, ds: seq<Chunk>, id: string, outputDir: Path, fs: FileSystem)
    requires multiset(cs) == multiset(ds)
    requires DistinctStartsPerDocument(cs)
    ensures MergedText(EntriesOf(cs, id, outputDir, fs)) == MergedText(EntriesOf(ds, id, outputDir, fs))
  {
    EntriesOfPermutation(cs, ds, id, outputDir, fs);
    EntriesOfDistinct(cs, id, outputDir, fs);
    DistinctOrderIndependent(EntriesOf(cs, id, outputDir, fs), EntriesOf(ds, id, outputDir, fs));
  }

  /** Pairs already in start-page order are joined as they are. */
  lemma MergedTextSorted(es: seq<Entry>)
    requires Sorted(es)
    ensures MergedText(es) == Join(Contents(es), Newline)
  {
    SortedUnchanged(es);
  }

  /** A document of one surviving chunk gets that chunk's text unchanged: no separator is added. */
  lemma SingleChunkUnchanged(e: Entry)
    ensures MergedText([e]) == e.content
  {
    MergedTextSorted([e]);
  }

  /** process_file returns the merged text of the document of the first surviving chunk, or "" when
      no chunk left a markdown file (app.py:117-119). */
  lemma FirstResultSpec(cs: seq<Chunk>, outputDir: Path, fs: FileSystem)
    ensures var survivors := Survivors(cs, outputDir, fs);
      FirstResultText(MergeChunkResults(cs, outputDir, fs)) ==
        if |survivors| == 0 then "" else MergedText(EntriesOf(cs, survivors[0].fileId, outputDir, fs))
  {
    var survivors := Survivors(cs, outputDir, fs);
    MergeChunkResultsSpec(cs, outputDir, fs);
    FirstAppearancesShape(IdsOf(survivors));
    if |survivors| > 0 {
      assert IdsOf(survivors)[0] == survivors[0].fileId;
    }
  }

  /** The chunks of one planned split start on pairwise distinct pages. */
  lemma PlanDistinctStarts(pageCount: nat, size: nat, fileId: string, originalFile: string, dir: Path)
    requires size > 0
    ensures DistinctStartsPerDocument(Plan(pageCount, size, fileId, originalFile, dir))
  {
    var cs := Plan(pageCount, size, fileId, originalFile, dir);
    forall i, j | 0 <= i < j < |cs|
      ensures cs[i].startPage != cs[j].startPage
    {
      PlanNamesDistinct(pageCount, size, fileId, originalFile, dir, i, j);
    }
  }

  // ---------------------------------------------------------------------------------------------
  // One document whose chunks all converted.

  /** Every chunk left markdown. */
  predicate AllHaveOutput(cs: seq<Chunk>, outputDir: Path, fs: FileSystem) {
    |cs| == 0 || (HasOutput(outputDir, fs, cs[|cs| - 1]) && AllHaveOutput(cs[..|cs| - 1], outputDir, fs))
  }

  lemma {:induction false} AllHaveOutputAt(cs: seq<Chunk>, outputDir: Path, fs: FileSystem, k: nat)
    requires AllHaveOutput(cs, outputDir, fs) && k < |cs|
    ensures HasOutput(outputDir, fs, cs[k])
  {
    if k < |cs| - 1 {
      AllHaveOutputAt(cs[..|cs| - 1], outputDir, fs, k);
    }
  }

  lemma {:induction false} AllHaveOutputOf(cs: seq<Chunk>, outputDir: Path, fs: FileSystem)
    requires forall k :: 0 <= k < |cs| ==> HasOutput(outputDir, fs, cs[k])
    ensures AllHaveOutput(cs, outputDir, fs)
  {
    if |cs| > 0 {
      var init := cs[..|cs| - 1];
      assert forall k :: 0 <= k < |init| ==> init[k] == cs[k];
      AllHaveOutputOf(init, outputDir, fs);
    }
  }

  lemma {:induction false} SurvivorsAll(cs: seq<Chunk>, outputDir: Path, fs: FileSystem)
    requires AllHaveOutput(cs, outputDir, fs)
    ensures Survivors(cs, outputDir, fs) == cs
  {
    if |cs| > 0 {
      var init, last := cs[..|cs| - 1], cs[|cs| - 1];
      SurvivorsAll(init, outputDir, fs);
      assert cs == init + [last];
    }
  }

  lemma {:induction false} EntriesOfAllAt(cs: seq<Chunk>, id: string, outputDir: Path, fs: FileSystem, k: nat)
    requires AllHaveOutput(cs, outputDir, fs) && OneDocumentOf(cs, id) && k < |cs|
    ensures |EntriesOf(cs, id, outputDir, fs)| == |cs|
    ensures HasOutput(outputDir, fs, cs[k]) && EntriesOf(cs, id, outputDir, fs)[k] == EntryOf(outputDir, fs, cs[k])
  {
    var init := cs[..|cs| - 1];
    assert OneDocumentOf(init, id) by {
      assert forall j :: 0 <= j < |init| ==> init[j] == cs[j];
    }
    if |init| > 0 {
      EntriesOfAllAt(init, id, outputDir, fs, if k < |init| then k else 0);
    } else {
      assert EntriesOf(init, id, outputDir, fs) == [];
    }
    AllHaveOutputAt(cs, outputDir, fs, k);
  }

  predicate OneDocumentOf(cs: seq<Chunk>, id: string) {
    forall k :: 0 <= k < |cs| ==> cs[k].fileId == id
  }

  /** The markdown of every chunk, in chunk order. */
  function MarkdownTexts(cs: seq<Chunk>, outputDir: Path, fs: FileSystem): seq<string>
    requires AllHaveOutput(cs, outputDir, fs)
  {
    if |cs| == 0 then []
    else MarkdownTexts(cs[..|cs| - 1], outputDir, fs) + [fs[Normalize(OutputPath(outputDir, cs[|cs| - 1]))]]
  }

  lemma {:induction false} MarkdownTextsAt(cs: seq<Chunk>, outputDir: Path, fs: FileSystem, k: nat)
    requires AllHaveOutput(cs, outputDir, fs) && k < |cs|
    ensures |MarkdownTexts(cs, outputDir, fs)| == |cs|
    ensures HasOutput(outputDir, fs, cs[k]) && MarkdownTexts(cs, outputDir, fs)[k] == fs[Normalize(OutputPath(outputDir, cs[k]))]
  {
    var init := cs[..|cs| - 1];
    if |init| > 0 {
      MarkdownTextsAt(init, outputDir, fs, if k < |init| then k else 0);
    }
    AllHaveOutputAt(cs, outputDir, fs, k);
  }

  /** The pairs of a document whose chunks all left markdown and come in page order are already
      sorted, so its merged text is their markdown joined in chunk order. */
  lemma MergedTextInOrder(cs: seq<Chunk>, id: string, outputDir: Path, fs: FileSystem)
    requires AllHaveOutput(cs, outputDir, fs) && OneDocumentOf(cs, id) && |cs| > 0
    requires forall i, j :: 0 <= i < j < |cs| ==> cs[i].startPage <= cs[j].startPage
    ensures MergedText(EntriesOf(cs, id, outputDir, fs)) == Join(MarkdownTexts(cs, outputDir, fs), Newline)
  {
    var es := EntriesOf(cs, id, outputDir, fs);
    var texts := MarkdownTexts(cs, outputDir, fs);
    EntriesOfAllAt(cs, id, outputDir, fs, 0);
    MarkdownTextsAt(cs, outputDir, fs, 0);
    forall k | 0 <= k < |cs|
      ensures es[k].startPage == cs[k].startPage && es[k].content == texts[k]
    {
      EntriesOfAllAt(cs, id, outputDir, fs, k);
      MarkdownTextsAt(cs, outputDir, fs, k);
    }
    assert Sorted(es);
    MergedTextSorted(es);
    assert Contents(es) == texts;
  }

  /** When the chunks of a single document all left markdown and come in page order, the first result
      is their markdown joined by newlines in that order, and "" when there are no chunks. */
  lemma MergeInPageOrder(cs: seq<Chunk>, id: string, outputDir: Path, fs: FileSystem)
    requires AllHaveOutput(cs, outputDir, fs) && OneDocumentOf(cs, id)
    requires forall i, j :: 0 <= i < j < |cs| ==> cs[i].startPage <= cs[j].startPage
    ensures FirstResultText(MergeChunkResults(cs, outputDir, fs)) == Join(MarkdownTexts(cs, outputDir, fs), Newline)
  {
    SurvivorsAll(cs, outputDir, fs);
    FirstResultSpec(cs, outputDir, fs);
    if |cs| > 0 {
      MergedTextInOrder(cs, id, outputDir, fs);
    }
  }
}
