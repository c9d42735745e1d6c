/**
 * Chunk bookkeeping around the vector store: the per-chunk id labelling pass, the cut of
 * each chunk at its last '.', and the formatting of search results into the report. The
 * similarity search itself is not modelled: its results arrive as a sequence of
 * (source, content) pairs, in rank order.
 */
module ChromaDb {
  import opened PyStrings
  import opened TextUtils

  /**
   * A split document chunk: its text and the metadata fields the pipeline reads and writes.
   * The core never rewrites a chunk's source or page, so those are fixed at construction.
   */
  class Chunk {
    var content: string
    const source: string
    const page: int
    /** metadata['id'], absent until the labelling pass writes it */
    var id: Option<string>

    constructor (content: string, source: string, page: int)
      ensures this.content == content && this.source == source && this.page == page
      ensures id == None
    {
      this.content := content;
      this.source := source;
      this.page := page;
      id := None;
    }
  }

  // ------------------------------------------------------------------
  // calculate_chunk_ids
  // ------------------------------------------------------------------

  /** f"{source}:{page}" */
  function KeyOf(source: string, page: int): string {
    source + ":" + IntToString(page)
  }

  /** The key of every chunk, in list order: position `k` holds the key of the chunk listed there. */
  function Keys(chunks: seq<Chunk>): (keys: seq<string>)
    ensures |keys| == |chunks|
    ensures forall k :: 0 <= k < |chunks| ==> keys[k] == KeyOf(chunks[k].source, chunks[k].page)
    decreases |chunks|
  {
    if chunks == [] then [] else [KeyOf(chunks[0].source, chunks[0].page)] + Keys(chunks[1..])
  }

  /**
   * The counter the labelling pass holds at position `k`: how many chunks immediately
   * before `k` carry the same key.
   */
  function RunIndex(keys: seq<string>, k: nat): nat
    requires k < |keys|
    decreases k
  {
    if k == 0 || keys[k] != keys[k - 1] then 0 else RunIndex(keys, k - 1) + 1
  }

  /** The counter is the length of the run of equal keys that ends at `k`, minus one. */
  lemma {:induction false} RunIndexRun(keys: seq<string>, k: nat)
    requires k < |keys|
    ensures RunIndex(keys, k) <= k
    ensures forall i :: k - RunIndex(keys, k) <= i <= k ==> keys[i] == keys[k]
    ensures RunIndex(keys, k) < k ==> keys[k - RunIndex(keys, k) - 1] != keys[k]
    decreases k
  {
    if k > 0 && keys[k] == keys[k - 1] {
      RunIndexRun(keys, k - 1);
    }
  }

  /** f"{key}:{idx}" for the chunk at position `k`. */
  function ChunkId(keys: seq<string>, k: nat): string
    requires k < |keys|
  {
    keys[k] + ":" + NatToString(RunIndex(keys, k))
  }

  /**
   * The last position before `n` at which `c` is listed, or -1 when it is not listed there:
   * a found position lists `c`, and no position after it and before `n` does.
   */
  function LastIndex(chunks: seq<Chunk>, c: Chunk, n: nat): (r: int)
    requires n <= |chunks|
    ensures -1 <= r < n
    ensures r >= 0 ==> chunks[r] == c
    ensures forall j :: r < j < n ==> chunks[j] != c
    decreases n
  {
    if n == 0 then -1 else if chunks[n - 1] == c then n - 1 else LastIndex(chunks, c, n - 1)
  }

  /**
   * The id object `c` holds once the labelling pass has seen the first `n` listings: the id
   * computed at its last listing among them, or none if it was not listed.
   */
  function FinalId(chunks: seq<Chunk>, keys: seq<string>, c: Chunk, n: nat): Option<string>
    requires n <= |chunks| == |keys|
    decreases n
  {
    if n == 0 then None
    else if chunks[n - 1] == c then Some(ChunkId(keys, n - 1))
    else FinalId(chunks, keys, c, n - 1)
  }

  /** The state the labelling pass carries into position `k`: the previous key and its counter. */
  predicate RunState(keys: seq<string>, k: nat, last: Option<string>, idx: nat)
    requires k <= |keys|
  {
    if k == 0 then last == None else last == Some(keys[k - 1]) && idx == RunIndex(keys, k - 1)
  }

  /**
   * Writes each chunk's id in place: every listed object ends with the id computed at its
   * last listing, and nothing but the ids changes.
   */
  method CalculateChunkIds(chunks: seq<Chunk>)
    modifies chunks`id
    ensures forall k :: 0 <= k < |chunks| ==>
      chunks[k].id == FinalId(chunks, Keys(chunks), chunks[k], |chunks|)
  {
    ghost var keys := Keys(chunks);
    var last: Option<string> := None;
    var idx: nat := 0;
    for k := 0 to |chunks|
      invariant RunState(keys, k, last, idx)
      invariant forall j {:trigger FinalId(chunks, keys, chunks[j], k)} :: 0 <= j < k ==>
        chunks[j].id == FinalId(chunks, keys, chunks[j], k)
    {
      var key;
      label before:
      key, idx := LabelChunk(chunks, k, last, idx, keys);
      last := Some(key);
      forall j | 0 <= j < k + 1
        ensures chunks[j].id == FinalId(chunks, keys, chunks[j], k + 1)
      {
        if chunks[j] != chunks[k] {
          assert chunks[j].id == old@before(chunks[j].id);
        }
      }
    }
  }

  /**
   * One step of the labelling pass: it computes the key of the chunk at position `k` and the
   * counter for it, and writes the id computed for that position.
   */
  method LabelChunk(chunks: seq<Chunk>, k: nat, last: Option<string>, idx: nat, ghost keys: seq<string>)
      returns (key: string, next: nat)
    requires k < |chunks| && keys == Keys(chunks) && RunState(keys, k, last, idx)
    modifies (chunks[k] as Chunk)`id
    ensures key == keys[k] && next == RunIndex(keys, k)
    ensures chunks[k].id == Some(ChunkId(keys, k))
  {
    var c := chunks[k];
    key := KeyOf(c.source, c.page);
    next := if Some(key) == last then idx + 1 else 0;
    c.id := Some(key + ":" + NatToString(next));
  }

  /** The id that survives is the one computed at the last listing. */
  lemma {:induction false} FinalIdIsLast(chunks: seq<Chunk>, keys: seq<string>, c: Chunk, n: nat)
    requires n <= |chunks| == |keys|
    ensures var r := LastIndex(chunks, c, n); FinalId(chunks, keys, c, n) == if r < 0 then None else Some(ChunkId(keys, r))
    decreases n
  {
    if n > 0 && chunks[n - 1] != c {
      FinalIdIsLast(chunks, keys, c, n - 1);
    }
  }

  /** No listing of the same object follows position `k`. */
  predicate LastListing(chunks: seq<Chunk>, k: nat)
    requires k < |chunks|
  {
    forall j :: k < j < |chunks| ==> chunks[j] != chunks[k]
  }

  /** The chunk at a last listing carries the id computed for that position. */
  lemma LastListingId(chunks: seq<Chunk>, k: nat)
    requires k < |chunks| && LastListing(chunks, k)
    ensures FinalId(chunks, Keys(chunks), chunks[k], |chunks|) == Some(ChunkId(Keys(chunks), k))
  {
    FinalIdIsLast(chunks, Keys(chunks), chunks[k], |chunks|);
  }

  /** Position `j` lists the object listed at `k` again, later. */
  predicate RelistedAt(chunks: seq<Chunk>, k: nat, j: nat) {
    k < j < |chunks| && chunks[j] == chunks[k]
  }

  /** An object listed again later ends with the id of a later listing of it. */
  lemma RelistedId(chunks: seq<Chunk>, k: nat)
    requires k < |chunks| && !LastListing(chunks, k)
    ensures exists j :: RelistedAt(chunks, k, j) && FinalId(chunks, Keys(chunks), chunks[k], |chunks|) == Some(ChunkId(Keys(chunks), j))
  {
    FinalIdIsLast(chunks, Keys(chunks), chunks[k], |chunks|);
    var j := LastIndex(chunks, chunks[k], |chunks|);
    assert k < j && chunks[j] == chunks[k];
  }

  /** Different (source, page) pairs give different keys, whatever the source holds. */
  lemma KeyOfInjective(s1: string, p1: int, s2: string, p2: int)
    requires KeyOf(s1, p1) == KeyOf(s2, p2)
    ensures s1 == s2 && p1 == p2
  {
    IntNoColon(p1);
    IntNoColon(p2);
    LastFieldSplit(s1, IntToString(p1), s2, IntToString(p2), ':');
    IntToStringInjective(p1, p2);
  }

  lemma IntNoColon(n: int)
    ensures ':' !in IntToString(n)
  {
    IntToStringDigits(n);
  }

  lemma NatNoColon(n: nat)
    ensures ':' !in NatToString(n)
  {
    NatToStringDigits(n);
  }

  /** Two ids agree exactly when the keys and the counters agree. */
  lemma ChunkIdEqual(keys: seq<string>, j: nat, k: nat)
    requires j < |keys| && k < |keys|
    ensures ChunkId(keys, j) == ChunkId(keys, k) <==> keys[j] == keys[k] && RunIndex(keys, j) == RunIndex(keys, k)
  {
    if ChunkId(keys, j) == ChunkId(keys, k) {
      NatNoColon(RunIndex(keys, j));
      NatNoColon(RunIndex(keys, k));
      LastFieldSplit(keys[j], NatToString(RunIndex(keys, j)), keys[k], NatToString(RunIndex(keys, k)), ':');
      NatToStringInjective(RunIndex(keys, j), RunIndex(keys, k));
    }
  }

  /** Along a run of equal keys the counter goes up by one per chunk. */
  lemma {:induction false} RunIndexAlongRun(keys: seq<string>, j: nat, k: nat)
    requires j <= k < |keys|
    requires forall i :: j <= i <= k ==> keys[i] == keys[k]
    ensures RunIndex(keys, k) == RunIndex(keys, j) + (k - j)
    decreases k - j
  {
    if j < k {
      RunIndexAlongRun(keys, j, k - 1);
    }
  }

  /** Equal keys never appear with a different key between them. */
  predicate Grouped(keys: seq<string>) {
    forall i, j, l :: 0 <= i < j < l < |keys| && keys[i] == keys[l] ==> keys[j] == keys[i]
  }

  /** When chunks of one (source, page) are contiguous, the ids are all distinct. */
  lemma GroupedIdsDistinct(keys: seq<string>, j: nat, k: nat)
    requires Grouped(keys) && j < k < |keys|
    ensures ChunkId(keys, j) != ChunkId(keys, k)
  {
    ChunkIdEqual(keys, j, k);
    if keys[j] == keys[k] {
      forall i | j <= i <= k ensures keys[i] == keys[k] {
        if j < i < k {
          assert keys[i] == keys[j];
        }
      }
      RunIndexAlongRun(keys, j, k);
    }
  }

  /** A key that comes back after a different key restarts at 0, so its id repeats an earlier one. */
  lemma RestartCollides(keys: seq<string>)
    requires |keys| == 3 && keys[0] == keys[2] && keys[0] != keys[1]
    ensures RunIndex(keys, 2) == 0
    ensures ChunkId(keys, 0) == ChunkId(keys, 2)
  {
    assert RunIndex(keys, 0) == 0;
  }

  // ------------------------------------------------------------------
  // The cut of each chunk at its last '.'
  // ------------------------------------------------------------------

  /** content[:content.rfind('.') + 1] when there is a '.', else content unchanged. */
  function TruncateAtLastDot(s: string): (r: string)
    ensures r <= s
    ensures '.' in s ==> r != [] && r[|r| - 1] == '.' && '.' !in s[|r|..]
    ensures '.' !in s ==> r == s
  {
    var i := RFind(s, '.');
    if i == -1 then s else s[..i + 1]
  }

  /** Cutting twice cuts no further. */
  lemma TruncateIdempotent(s: string)
    ensures TruncateAtLastDot(TruncateAtLastDot(s)) == TruncateAtLastDot(s)
  {
    var r := TruncateAtLastDot(s);
    if '.' in s {
      RFindLast(r[..|r| - 1], '.', []);
      assert r[..|r| - 1] + ['.'] + [] == r;
    }
  }

  /** The post-split loop: each listed chunk's content cut at its last '.'; nothing else changes. */
  method TruncateChunks(chunks: seq<Chunk>)
    modifies chunks`content
    ensures forall c :: c in chunks ==> c.content == TruncateAtLastDot(old(c.content))
  {
    for k := 0 to |chunks|
      invariant forall c :: c in chunks ==>
        c.content == (if c in chunks[..k] then TruncateAtLastDot(old(c.content)) else old(c.content))
    {
      var c := chunks[k];
      TruncateIdempotent(old(c.content));
      TruncateChunk(c);
      assert chunks[..k + 1] == chunks[..k] + [c];
    }
    assert chunks[..|chunks|] == chunks;
  }

  /** The loop body: one chunk's content cut at its last '.'. */
  method TruncateChunk(c: Chunk)
    modifies c`content
    ensures c.content == TruncateAtLastDot(old(c.content))
  {
    var content := c.content;
    var lastDot := RFind(content, '.');
    if lastDot != -1 {
      c.content := content[..lastDot + 1];
    }
  }

  // ------------------------------------------------------------------
  // query_and_format
  // ------------------------------------------------------------------

  /** One search hit: the chunk's metadata['source'] and its page_content. */
  datatype SearchResult = SearchResult(source: string, content: string)

  /** An entry of input_meta['documents']: a dict with a 'filename', or a bare path. */
  datatype DocItem = FileEntry(filename: string) | PathEntry(path: string)

  /**
   * The fields of input_meta that the formatting reads. A missing 'documents' key is the
   * empty list; `role` and `task` are None when the persona or job dict, or its key, is missing.
   */
  datatype InputMeta = InputMeta(documents: seq<DocItem>, role: Option<string>, task: Option<string>)

  datatype Metadata = Metadata(inputDocuments: seq<string>, persona: string, jobToBeDone: string)
  datatype Section = Section(document: string, sectionTitle: string, rank: nat)
  datatype Subsection = Subsection(document: string, text: string)
  datatype Report = Report(metadata: Metadata, extractedSections: seq<Section>, subsectionAnalysis: seq<Subsection>)

  /** The listed name of an input document. */
  function DocName(item: DocItem): (name: string)
    ensures '/' !in name
  {
    match item
    case FileEntry(f) => Basename(f)
    case PathEntry(p) => Basename(p)
  }

  /** The first line of the content that is not blank, stripped; "" when every line is blank. */
  function SectionTitle(content: string): string {
    var lines := Pieces(SplitLines(content));
    if lines == [] then "" else lines[0]
  }

  lemma SectionTitleIsFirstLine(content: string)
    ensures var lines := SplitLines(content);
      && (SectionTitle(content) == "" <==> forall k :: 0 <= k < |lines| ==> Strip(lines[k]) == [])
      && (SectionTitle(content) != "" ==>
            exists j :: FirstKept(lines, j) && SectionTitle(content) == Strip(lines[j]))
  {
    var lines := SplitLines(content);
    var kept := Pieces(lines);
    PiecesHead(lines);
    if kept != [] {
      assert IsSegment(kept[0]);
      var j :| FirstKept(lines, j) && kept[0] == Strip(lines[j]);
      assert SectionTitle(content) == Strip(lines[j]) != "";
    }
  }

  /** The title is never padded with whitespace. */
  lemma SectionTitleTrimmed(content: string)
    ensures var t := SectionTitle(content); t != "" ==> !IsSpace(t[0]) && !IsSpace(t[|t| - 1])
  {
    var lines := Pieces(SplitLines(content));
    if lines != [] {
      assert IsSegment(lines[0]);
    }
  }

  /** The snippet before clean_text: the first 200 characters, cut after the last '.' among them. */
  function RawSnippet(content: string): (r: string)
    ensures |r| <= 200 && r <= content
    ensures var head := content[..if |content| < 200 then |content| else 200];
      && r <= head
      && ('.' in head ==> r != [] && r[|r| - 1] == '.' && '.' !in head[|r|..])
      && ('.' !in head ==> r == head)
  {
    TruncateAtLastDot(content[..if |content| < 200 then |content| else 200])
  }

  function Snippet(content: string): string {
    CleanText(RawSnippet(content))
  }

  /** What clean_text promises holds of every snippet. */
  lemma SnippetClean(content: string)
    ensures var t := Snippet(content);
      && '\n' !in t && '#' !in t
      && (t != [] ==> t[0] != ' ' && t[0] != '.' && t[|t| - 1] != ' ' && t[|t| - 1] != '.')
      && !StartsWithLower(t)
  {
    CleanTextNoNewline(RawSnippet(content));
    CleanTextNoHash(RawSnippet(content));
    CleanTextEnds(RawSnippet(content));
  }

  /**
   * The report for the given search results: the input documents by base name, the persona
   * and job with '' as default, one ranked section and one snippet per result, in result order.
   */
  method QueryAndFormat(meta: InputMeta, results: seq<SearchResult>) returns (out: Report)
    ensures out.metadata == Metadata(Map(DocName, meta.documents), meta.role.GetOr(""), meta.task.GetOr(""))
    ensures |out.extractedSections| == |results| && |out.subsectionAnalysis| == |results|
    ensures forall k :: 0 <= k < |results| ==>
      out.extractedSections[k] == Section(results[k].source, SectionTitle(results[k].content), k + 1)
    ensures forall k :: 0 <= k < |results| ==>
      out.subsectionAnalysis[k] == Subsection(results[k].source, Snippet(results[k].content))
  {
    var metadata := Metadata(Map(DocName, meta.documents), meta.role.GetOr(""), meta.task.GetOr(""));
    var sections := ExtractedSections(results);
    var analysis := SubsectionAnalysis(results);
    out := Report(metadata, sections, analysis);
  }

  /** The first loop of the formatting: one section per result, ranked from 1 in result order. */
  method ExtractedSections(results: seq<SearchResult>) returns (sections: seq<Section>)
    ensures |sections| == |results|
    ensures forall k :: 0 <= k < |results| ==>
      sections[k] == Section(results[k].source, SectionTitle(results[k].content), k + 1)
  {
    sections := [];
    for rank := 1 to |results| + 1
      invariant |sections| == rank - 1
      invariant forall k :: 0 <= k < rank - 1 ==>
        sections[k] == Section(results[k].source, SectionTitle(results[k].content), k + 1)
    {
      var doc := results[rank - 1];
      var title := FirstLineTitle(doc.content);
      sections := sections + [Section(doc.source, title, rank)];
    }
  }

  /** The loop body of the first loop: the first line of the content that is not blank, stripped. */
  method FirstLineTitle(content: string) returns (title: string)
    ensures title == SectionTitle(content)
  {
    var lines := Pieces(SplitLines(content));
    title := if lines != [] then lines[0] else "";
  }

  /** The subsection for one result: its source and the cleaned snippet of its content. */
  function SubsectionOf(r: SearchResult): Subsection {
    Subsection(r.source, Snippet(r.content))
  }

  /** The second loop of the formatting: one cleaned snippet per result, in result order. */
  method SubsectionAnalysis(results: seq<SearchResult>) returns (analysis: seq<Subsection>)
    ensures |analysis| == |results|
    ensures forall k :: 0 <= k < |results| ==>
      analysis[k] == Subsection(results[k].source, Snippet(results[k].content))
  {
    analysis := [];
    for k := 0 to |results|
      invariant analysis == Map(SubsectionOf, results[..k])
    {
      var doc := results[k];
      var cleaned := SnippetOf(doc.content);
      analysis := analysis + [Subsection(doc.source, cleaned)];
      MapSnoc(SubsectionOf, results, k);
    }
    assert results[..|results|] == results;
    forall k | 0 <= k < |results|
      ensures analysis[k] == Subsection(results[k].source, Snippet(results[k].content))
    {
      MapIndex(SubsectionOf, results, k);
    }
  }

  /** The loop body of the second loop: the first 200 characters, cut after their last '.', cleaned. */
  method SnippetOf(content: string) returns (cleaned: string)
    ensures cleaned == Snippet(content)
  {
    var rawSnippet := content[..if |content| < 200 then |content| else 200];
    var lastDot := RFind(rawSnippet, '.');
    if lastDot != -1 {
      rawSnippet := rawSnippet[..lastDot + 1];
    }
    assert rawSnippet == RawSnippet(content);
    cleaned := CleanText(rawSnippet);
  }
}
