/** The file and directory names the pipeline derives (app.py lines 32, 65, 80-81 and 133).
    A path is the sequence of its components; Python's `p / "x"` appends one component. */
module Names {
  import opened Text

  type Path = seq<string>

  /** The final component of a path (pathlib's `.name`); "" for the empty path. */
  function Name(p: Path): string {
    if |p| == 0 then "" else p[|p| - 1]
  }

  /** `s.rfind(c)`: the index of the last occurrence of `c`, or -1 (see LastIndexOfSpec). */
  function LastIndexOf(s: string, c: char): (r: int)
    ensures -1 <= r < |s|
  {
    if |s| == 0 then -1
    else if s[|s| - 1] == c then |s| - 1
    else LastIndexOf(s[..|s| - 1], c)
  }

  lemma {:induction false} LastIndexOfSpec(s: string, c: char)
    ensures var r := LastIndexOf(s, c);
      && (r >= 0 ==> s[r] == c)
      && (forall j :: r < j < |s| ==> s[j] != c)
  {
    if |s| > 0 && s[|s| - 1] != c {
      LastIndexOfSpec(s[..|s| - 1], c);
    }
  }

  /** `name.rsplit(".", 1)[0]`: drop the last dot and everything after it; a name without a dot is kept whole. */
  function StripLastExtension(name: string): string {
    var i := LastIndexOf(name, '.');
    if i < 0 then name else name[..i]
  }

  lemma StripLastExtensionSpec(name: string)
    ensures var r := StripLastExtension(name);
      && ('.' !in name ==> r == name)
      && ('.' in name ==>
            && |r| < |name| && name[..|r|] == r
            && name[|r|] == '.' && '.' !in name[|r| + 1..])
  {
    LastIndexOfSpec(name, '.');
  }

  /** pathlib's `.stem` of a file name, by the rule of Python 3.13 and earlier: the suffix is the
      last dot and what follows it, but only when that dot is neither the first nor the last
      character; otherwise the whole name. */
  function Stem(name: string): string {
    var i := LastIndexOf(name, '.');
    if 0 < i < |name| - 1 then name[..i] else name
  }

  lemma StemSpec(name: string)
    ensures var r := Stem(name);
      && |r| <= |name| && name[..|r|] == r
      && (r != name ==>
            && 0 < |r| < |name| - 1
            && name[|r|] == '.' && '.' !in name[|r| + 1..])
  {
    LastIndexOfSpec(name, '.');
  }

  /** The last dot of `base.ext` is the one before `ext` when `ext` has no dot. */
  lemma {:induction false} LastDotOf(base: string, ext: string)
    requires '.' !in ext
    ensures LastIndexOf(base + "." + ext, '.') == |base|
  {
    var name := base + "." + ext;
    if |ext| > 0 {
      var shorter := ext[..|ext| - 1];
      assert name[|name| - 1] == ext[|ext| - 1];
      assert name[..|name| - 1] == base + "." + shorter;
      LastDotOf(base, shorter);
    }
  }

  /** Partner of StripLastExtension: appending a dot-free extension and stripping it is the identity. */
  lemma StripLastExtensionOf(base: string, ext: string)
    requires '.' !in ext
    ensures StripLastExtension(base + "." + ext) == base
  {
    LastDotOf(base, ext);
    assert (base + "." + ext)[..|base|] == base;
  }

  /** Partner of Stem: a non-empty base followed by a non-empty dot-free suffix has that base as its stem. */
  lemma StemOf(base: string, ext: string)
    requires |base| > 0 && |ext| > 0 && '.' !in ext
    ensures Stem(base + "." + ext) == base
  {
    LastDotOf(base, ext);
    assert (base + "." + ext)[..|base|] == base;
  }

  /** A name without a dot is its own stem and its own stripped name. */
  lemma DotlessNameUnchanged(name: string)
    requires '.' !in name
    ensures Stem(name) == name && StripLastExtension(name) == name
  {
    LastIndexOfSpec(name, '.');
  }

  /** rsplit and stem disagree on a leading-dot name: ".pdf" strips to "" but is its own stem. */
  lemma LeadingDotNamesDiffer()
    ensures StripLastExtension(".pdf") == "" && Stem(".pdf") == ".pdf"
  {
    LastDotOf("", "pdf");
    assert "" + "." + "pdf" == ".pdf";
  }

  /** The stem of every chunk file: `{file_id}_chunk_{start}_{end}` (app.py:32 without ".pdf"). */
  function ChunkStem(fileId: string, start: nat, end: nat): string {
    fileId + "_chunk_" + NatToString(start) + "_" + NatToString(end)
  }

  /** The chunk file name `{file_id}_chunk_{start}_{end}.pdf` (app.py:32). */
  function ChunkFileName(fileId: string, start: nat, end: nat): string {
    ChunkStem(fileId, start, end) + ".pdf"
  }

  /** The stem of a chunk file name is the chunk stem: only ".pdf" is cut off, whatever the id holds. */
  lemma ChunkFileNameStem(fileId: string, start: nat, end: nat)
    ensures Stem(ChunkFileName(fileId, start, end)) == ChunkStem(fileId, start, end)
  {
    var base := ChunkStem(fileId, start, end);
    StemOf(base, "pdf");
    assert base + "." + "pdf" == base + ".pdf";
  }

  /** Cutting two strings at the LAST occurrence of a character that neither tail contains. */
  lemma SplitAtLast(x: string, a: string, y: string, b: string, c: char)
    requires c !in a && c !in b
    requires x + [c] + a == y + [c] + b
    ensures x == y && a == b
  {
    var s := x + [c] + a;
    assert s == y + [c] + b;
    assert s[|x|] == c && s[|y|] == c;
    assert forall i :: |x| < i < |s| ==> s[i] == a[i - |x| - 1] != c;
    assert forall i :: |y| < i < |s| ==> s[i] == b[i - |y| - 1] != c;
    assert |x| == |y|;
    assert x == s[..|x|] && y == s[..|y|];
    assert a == s[|x| + 1..] && b == s[|y| + 1..];
  }

  /** A chunk stem determines its file id, start page and end page. */
  lemma ChunkStemInjective(id1: string, s1: nat, e1: nat, id2: string, s2: nat, e2: nat)
    ensures ChunkStem(id1, s1, e1) == ChunkStem(id2, s2, e2) ==> id1 == id2 && s1 == s2 && e1 == e2
  {
    if ChunkStem(id1, s1, e1) == ChunkStem(id2, s2, e2) {
      var d1, d2 := NatToString(e1), NatToString(e2);
      var p1, p2 := id1 + "_chunk_" + NatToString(s1), id2 + "_chunk_" + NatToString(s2);
      assert '_' !in d1 && '_' !in d2;
      SplitAtLast(p1, d1, p2, d2, '_');
      var n1, n2 := NatToString(s1), NatToString(s2);
      assert '_' !in n1 && '_' !in n2;
      assert p1 == (id1 + "_chunk") + ['_'] + n1;
      assert p2 == (id2 + "_chunk") + ['_'] + n2;
      SplitAtLast(id1 + "_chunk", n1, id2 + "_chunk", n2, '_');
      assert id1 == (id1 + "_chunk")[..|id1|];
      assert id2 == (id2 + "_chunk")[..|id2|];
      NatToStringInjective(s1, s2);
      NatToStringInjective(e1, e2);
    }
  }

  /** Distinct (file id, start, end) triples give distinct chunk file names. */
  lemma ChunkFileNameInjective(id1: string, s1: nat, e1: nat, id2: string, s2: nat, e2: nat)
    ensures ChunkFileName(id1, s1, e1) == ChunkFileName(id2, s2, e2) ==> id1 == id2 && s1 == s2 && e1 == e2
  {
    ChunkFileNameStem(id1, s1, e1);
    ChunkFileNameStem(id2, s2, e2);
    ChunkStemInjective(id1, s1, e1, id2, s2, e2);
  }

  /** The components pathlib drops when it builds a path: "" and ".". */
  predicate Dropped(name: string) {
    |name| == 0 || (|name| == 1 && name[0] == '.')
  }

  /** The path pathlib actually builds from a sequence of joined components: the dropped ones are
      left out. Files are identified, and paths printed, by this form. */
  function Normalize(p: Path): Path {
    if |p| == 0 then []
    else if Dropped(p[|p| - 1]) then Normalize(p[..|p| - 1])
    else Normalize(p[..|p| - 1]) + [p[|p| - 1]]
  }

  lemma NormalizeSnoc(p: Path, name: string)
    ensures Normalize(p + [name]) == if Dropped(name) then Normalize(p) else Normalize(p) + [name]
  {
    assert (p + [name])[..|p|] == p;
  }

  /** A normalised path has no dropped component, and normalising it again changes nothing. */
  lemma {:induction false} NormalizeClean(p: Path)
    ensures forall k :: 0 <= k < |Normalize(p)| ==> !Dropped(Normalize(p)[k])
    ensures Normalize(Normalize(p)) == Normalize(p)
  {
    if |p| > 0 {
      var init, last := p[..|p| - 1], p[|p| - 1];
      NormalizeClean(init);
      if !Dropped(last) {
        NormalizeSnoc(Normalize(init), last);
      }
    }
  }

  /** The directory the converter is told to write into for a chunk of `originalFile` (app.py:65). */
  function ConverterOutputDir(outputDir: Path, originalFile: string): Path {
    outputDir + [StripLastExtension(originalFile)]
  }

  /** Where the external converter writes the markdown for `chunkFile` when told to write into `dir`:
      `<dir>/<chunk stem>/<chunk stem>.md`. */
  function ConverterMarkdownPath(dir: Path, chunkFile: Path): Path {
    var stem := Stem(Name(chunkFile));
    dir + [stem, stem + ".md"]
  }

  lemma SuffixCancel(a: string, b: string, t: string)
    ensures a + t == b + t ==> a == b
  {
    if a + t == b + t {
      assert |a| == |b|;
      assert a == (a + t)[..|a|];
      assert b == (b + t)[..|b|];
    }
  }

  /** The markdown file the merger looks for (app.py:80-81). */
  function MarkdownPath(outputDir: Path, originalFile: string, chunkFile: Path): Path {
    var stem := Stem(Name(chunkFile));
    outputDir + [StripLastExtension(originalFile), stem, stem + ".md"]
  }

  /** The merger looks exactly where the converter writes when given the directory process_chunk
      computes (app.py:65 against app.py:80-81), and the file is named after the chunk's stem. */
  lemma MarkdownPathAgrees(outputDir: Path, originalFile: string, chunkFile: Path)
    ensures var r := MarkdownPath(outputDir, originalFile, chunkFile);
      && r == ConverterMarkdownPath(ConverterOutputDir(outputDir, originalFile), chunkFile)
      && Name(Normalize(r)) == Stem(Name(chunkFile)) + ".md"
  {
    var stem := Stem(Name(chunkFile));
    var r := MarkdownPath(outputDir, originalFile, chunkFile);
    var dir := outputDir + [StripLastExtension(originalFile), stem];
    assert r == dir + [stem + ".md"];
    assert !Dropped(stem + ".md") by {
      assert |stem + ".md"| >= 3;
    }
    NormalizeSnoc(dir, stem + ".md");
  }

  /** An original name that strips to "" or "." (such as ".pdf") adds no directory level: the
      markdown then sits directly in the chunk's folder under the output directory. */
  lemma DroppedFolderCollapses(outputDir: Path, originalFile: string, chunkFile: Path)
    requires Dropped(StripLastExtension(originalFile))
    ensures Normalize(MarkdownPath(outputDir, originalFile, chunkFile)) == Normalize(ConverterMarkdownPath(outputDir, chunkFile))
  {
    var stem := Stem(Name(chunkFile));
    var folder := StripLastExtension(originalFile);
    assert MarkdownPath(outputDir, originalFile, chunkFile) == outputDir + [folder] + [stem] + [stem + ".md"];
    assert ConverterMarkdownPath(outputDir, chunkFile) == outputDir + [stem] + [stem + ".md"];
    NormalizeSnoc(outputDir, folder);
    NormalizeSnoc(outputDir + [folder], stem);
    NormalizeSnoc(outputDir, stem);
    NormalizeSnoc(outputDir + [folder] + [stem], stem + ".md");
    NormalizeSnoc(outputDir + [stem], stem + ".md");
  }

  /** Different stems give different markdown files. */
  lemma MarkdownPathsDiffer(outputDir: Path, original1: string, chunk1: Path, original2: string, chunk2: Path)
    requires Stem(Name(chunk1)) != Stem(Name(chunk2))
    ensures Normalize(MarkdownPath(outputDir, original1, chunk1)) != Normalize(MarkdownPath(outputDir, original2, chunk2))
  {
    MarkdownPathAgrees(outputDir, original1, chunk1);
    MarkdownPathAgrees(outputDir, original2, chunk2);
    SuffixCancel(Stem(Name(chunk1)), Stem(Name(chunk2)), ".md");
  }

  /** The final output file name `<input stem>_extracted.md` (app.py:133). */
  function ExtractedFileName(inputName: string): (r: string)
    ensures |r| >= 13 && r[|r| - 13..] == "_extracted.md"
    ensures Stem(r) == Stem(inputName) + "_extracted"
  {
    var base := Stem(inputName) + "_extracted";
    StemOf(base, "md");
    base + "." + "md"
  }
}
