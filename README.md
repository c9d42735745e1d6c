# Outline heuristics, chunk bookkeeping and snippet clean-up, in Dafny

This project models the text-processing core of a persona-driven PDF analysis tool in Dafny and proves properties of it. The tool has two halves:

- The outline extractor (`parser.py`) turns per-page markdown into a document title and a list of H1/H2/H3 headings.
- The retrieval half (`src/chroma_db.py`, `src/text_utils.py`) splits pages into chunks, labels every chunk with an id, and formats the top search hits into a report of ranked sections and cleaned snippets.

Everything around that core is library calls or file I/O and stays outside the model. That covers PDF conversion, the text splitter, the vector store and the embedding model.

The model has four modules, one per file:

- `pystrings.dfy` (module `PyStrings`) holds the Python string built-ins the core relies on, written out as scanning functions over `seq<char>`: `str.replace`, `str.strip`, `str.split()` and `' '.join`, `str.split(sep)`, `str.splitlines()`, `str.rfind`, `str(int)` and `os.path.basename`. It also has `Unwrap`, the one regex rewrite shared by both halves (`d([^d]+)d` → the inner text, left to right and non-overlapping). Whitespace is Python's `isspace()` set. Lower case, upper case, `\d` and `\w` are ASCII.
- `parser.dfy` (module `Outline`) covers `normalize_punctuation`, `strip_inline_bold`, `parse_markdown_outline` and `extract_outline_and_title`. The string rewrites are pure functions. The loops that build lists are methods with loop invariants, each proved equal to a recursive specification function. The properties are lemmas about those functions.
- `text_utils.dfy` (module `TextUtils`) covers `clean_text`, one function per stage of its pipeline. Lemmas state what each stage removes, keeps or shapes, and what the whole pipeline guarantees about its output.
- `chroma_db.dfy` (module `ChromaDb`) covers three parts of `src/chroma_db.py`:
  - A `Chunk` class. Its `content` and `id` fields are updated in place.
  - `calculate_chunk_ids` and the truncation loop, as methods that modify exactly those fields.
  - The formatting body of `query_and_format`. The search hits it formats are an input sequence of (source, content) pairs.

A chunk object can be listed more than once in the chunk list. Python then writes its id once per listing, and the last write survives. `CalculateChunkIds` states this outright: every object ends with the id computed at its last listing (`FinalId`). Lemmas then tie that id to the key and run counter of that position.

Two facts about the code are worth stating up front:

- `clean_text` is not idempotent: `"__a__"` cleans to `"_a_"`, and that cleans to `"A"` (`TextUtils.CleanTextNotIdempotent`).
- The title loop's use of `'Untitled'` as a sentinel is logged under Findings.

## Model

| member | source | states |
|---|---|---|
| `PyStrings.Replace` | parser.py:24-25 | `str.replace` with a non-empty pattern introduces no character that is in neither the input nor the replacement |
| `PyStrings.ReplaceAbsent` | parser.py:24-25 | replacing a pattern that does not occur leaves the string unchanged |
| `PyStrings.ReplaceCharRemoves` | src/text_utils.py:8-11 | after replacing a character by text that does not contain it, the character no longer occurs |
| `PyStrings.ReplaceNoOccurrence` | src/text_utils.py:10 | a replacement whose text shares no character with `q` leaves no occurrence of `q`, when `q` is the pattern or did not occur before |
| `PyStrings.ReplaceEachRemoves` | parser.py:24-25 | folding `replace` over a table whose replacements hold no key removes every key |
| `PyStrings.ReplaceEachAbsent` | parser.py:24-25 | folding over a table none of whose keys occurs is the identity |
| `PyStrings.ReplaceEachKeeps` | src/text_utils.py:8-9 | a character absent from the input and from every replacement stays absent |
| `PyStrings.Delete` | parser.py:37 | `replace(c, '')` leaves no `c`, adds no character, and is the identity when `c` is absent |
| `PyStrings.DeleteAppend` | parser.py:37 | deleting a character distributes over concatenation |
| `PyStrings.Strip` | parser.py:41 | `str.strip()` leaves no whitespace at either end and adds no character |
| `PyStrings.StripClean` | src/text_utils.py:21 | stripping a string with no stripped character at its ends is the identity |
| `PyStrings.StripAllDropped` | src/text_utils.py:21 | a string made only of stripped characters strips to the empty string |
| `PyStrings.Words` | parser.py:41 | `str.split()` yields non-empty tokens without whitespace |
| `PyStrings.JoinTokensSingleSpaced` | parser.py:41 | joining such tokens with one space gives text with no whitespace at the ends and no whitespace other than single spaces |
| `PyStrings.SplitJoinSingleSpaced` | parser.py:41 | `' '.join(s.split())` is single-spaced for every `s` |
| `PyStrings.WordsOfToken` | parser.py:41 | `split()` of a single token is that token alone |
| `PyStrings.SplitOn` | src/text_utils.py:19 | `str.split(sep)` yields at least one part, and the first part is a prefix of the input |
| `PyStrings.SplitOnJoin` | src/text_utils.py:19-20 | joining the parts of `split(sep)` with `sep` gives back the input |
| `PyStrings.SplitOnPiecesFree` | src/text_utils.py:19 | no part of `split(sep)` contains `sep` |
| `PyStrings.JoinSplitOn` | src/text_utils.py:19-20 | splitting a join of `sep`-free parts gives back the parts, for a separator that does not overlap itself |
| `PyStrings.SplitOnKeepsAbsent` | src/text_utils.py:19 | a character absent from the input is absent from every part |
| `PyStrings.JoinKeepsAbsent` | src/text_utils.py:20 | a character absent from the parts and the separator is absent from the join |
| `PyStrings.SplitLines` | parser.py:46 | `str.splitlines()` yields lines without line breaks, and none exactly when the input is empty |
| `PyStrings.SplitLinesOfLine` | parser.py:46 | a non-empty string without line breaks is its own single line |
| `PyStrings.Unwrap` | parser.py:36 | the rewrite `d([^d]+)d` → inner text adds no character and is the identity when `d` is absent |
| `PyStrings.UnwrapThenDelete` | parser.py:36-37 | unwrapping then deleting `d` equals deleting `d` outright: the rewrite only removes delimiters |
| `PyStrings.RFind` | src/chroma_db.py:35 | `str.rfind` returns the index of the last occurrence, or -1 exactly when the character is absent |
| `PyStrings.NatToStringDigits` | src/chroma_db.py:46 | `str(n)` of a natural number is a non-empty run of decimal digits |
| `PyStrings.IntToStringDigits` | src/chroma_db.py:44 | `str(n)` of an integer is non-empty digits with a leading '-' exactly when `n` is negative |
| `PyStrings.ParseIntToString` | src/chroma_db.py:44 | reading back `str(n)` gives `n` |
| `PyStrings.IntToStringInjective` | src/chroma_db.py:44 | distinct integers print differently |
| `PyStrings.NatToStringInjective` | src/chroma_db.py:46 | distinct counters print differently |
| `PyStrings.Basename` | src/chroma_db.py:72 | `os.path.basename` is a '/'-free suffix of the path, and the whole path when it has no '/' |
| `PyStrings.BasenameOfPath` | src/chroma_db.py:72 | the basename of `dir + "/" + name` is `name` |
| `PyStrings.ToUpper` | src/text_utils.py:23 | `upper()` of one character turns an ASCII lower-case letter into upper case and leaves every other character alone |
| `PyStrings.Span` | parser.py:47 | the length of the longest prefix whose characters satisfy the predicate |
| `PyStrings.IndexFrom` | parser.py:36 | the `[^d]+` scan (also behind src/text_utils.py:13-16): the first position at or after `i` holding `c`, or the length when there is none |
| `Outline.PunctuationTableShape` | parser.py:15-23 | the table's keys are exactly the seven Unicode punctuation characters, and no replacement holds a key |
| `Outline.NormalizeRemovesUnicode` | parser.py:15-26 | the output holds none of ‘ ’ “ ” – — … |
| `Outline.NormalizeAbsent` | parser.py:24-26 | text without those characters is unchanged |
| `Outline.NormalizeIdempotent` | parser.py:11-26 | normalising twice equals normalising once |
| `Outline.BoldCloseFrom` | parser.py:38 | the lazy `(.*?)` scan stops at the first closing `**` or line break from `k`, and at no earlier position |
| `Outline.UnwrapBold` | parser.py:38 | removing `_?**…**_?` adds no character and leaves text without '*' unchanged |
| `Outline.UnwrapBoldKeepsText` | parser.py:38 | the bold rewrite removes only '*' and '_' marker characters |
| `Outline.DigitRunStart` | parser.py:39 | the start of the maximal run of digits that ends the string |
| `Outline.TrailingNumber` | parser.py:39 | a found match is a digit run at a word boundary that ends at the end of the string or before a final newline |
| `Outline.TrailingNumberUnique` | parser.py:39 | there is at most one such match |
| `Outline.TrailingNumberExact` | parser.py:39 | the search finds a match exactly when one exists |
| `Outline.DropTrailingNumber` | parser.py:39 | removing the trailing number adds no character |
| `Outline.DropTrailingNumberSpec` | parser.py:39 | the number's digits are cut out when it is there, and the text is unchanged otherwise |
| `Outline.DropPunctuationRuns` | parser.py:40 | removing runs of two or more of `. - , " =` adds no character, keeps a first character outside the set, and leaves text without such characters unchanged |
| `Outline.DropPunctuationRunsNoAdjacent` | parser.py:40 | no two neighbouring characters of the output are from the set |
| `Outline.WordsNoAdjacent` | parser.py:41 | splitting on whitespace keeps that property in every token |
| `Outline.JoinNoAdjacent` | parser.py:41 | joining such tokens with single spaces keeps it |
| `Outline.WordsAbsent` | parser.py:41 | a character absent from the text is absent from every token |
| `Outline.JoinAbsent` | parser.py:41 | a character absent from the tokens and the separator is absent from the join |
| `Outline.StripInlineBoldClean` | parser.py:35-41 | the cleaned heading text has no backtick, no whitespace at the ends and only single spaces inside, and no two neighbouring characters from `. - , " =` |
| `Outline.PlainWordUnchanged` | parser.py:29-41 | a non-empty word of ASCII letters comes through the clean-up unchanged |
| `Outline.LetterEndNoNumber` | parser.py:39 | text ending in a letter has no trailing number to remove |
| `Outline.HashPrefix` | parser.py:53-62 | starting with m '#' and a space is the same as a hash run of length exactly m followed by a space |
| `Outline.ClassifyDepth1` | parser.py:53-55 | a line opening with '# ' is H1, with text the stripped rest |
| `Outline.ClassifyDepth2` | parser.py:56-58 | a line opening with '## ' is H1 |
| `Outline.ClassifyDepth3` | parser.py:59-61 | a line opening with '### ' is H2 |
| `Outline.ClassifyDepth4` | parser.py:62-64 | a line opening with '#### ' is H3 |
| `Outline.ClassifyNotHeading` | parser.py:65-67 | any other line is H3 with the whole line as text when it is wholly bold-wrapped, and no heading otherwise |
| `Outline.HeadingEntry` | parser.py:69-78 | a heading yields an entry exactly when its cleaned text is non-empty and does not start with a-z, and the entry's page is the input page + 1 |
| `Outline.ParseMarkdownOutline` | parser.py:44-79 | the loop's outline is the entries of the lines, in line order |
| `Outline.OutlineOfNext` | parser.py:46-78 | one more line appends that line's entry, if any, at the end |
| `Outline.LineEntryValid` | parser.py:69-78 | an entry a line yields has non-empty text not starting with a-z and page = input page + 1 |
| `Outline.OutlineValid` | parser.py:69-78 | every entry of a page's outline has non-empty text not starting with a-z and page = input page + 1 |
| `Outline.OutlineAppend` | parser.py:46-78 | the outline of two runs of lines is the outline of the first followed by that of the second (line order is kept) |
| `Outline.SeparatorSkipped` | parser.py:47-48 | inserting a separator line anywhere does not change the outline |
| `Outline.SeparatorLineEmpty` | parser.py:47-48 | a separator line contributes nothing |
| `Outline.CandidatesIndex` | parser.py:86-91 | each line offers its own title candidate, position by position |
| `Outline.FirstSomeNone` | parser.py:86-92 | no candidate is found exactly when no line offers one |
| `Outline.FirstSomeAt` | parser.py:86-92 | the candidate found is the one at the first line that offers one |
| `Outline.FirstCandidateNone` | parser.py:86-92 | a page yields no title exactly when none of its lines offers one |
| `Outline.FirstCandidateAt` | parser.py:86-92 | a page's title candidate comes from its first offering line |
| `Outline.FirstCandidateAppend` | parser.py:85-94 | the search over two runs of lines takes the first run's candidate when it has one |
| `Outline.TitleOfAllLines` | parser.py:83-94 | the title is the first candidate across all pages' lines in order, or 'Untitled' when there is none |
| `Outline.TitleAsWrittenAgrees` | parser.py:83-94 | the loop as written gives the same title unless some page's first candidate is literally 'Untitled' |
| `Outline.HeadingLineCandidate` | parser.py:86-91 | a page holding the line '# W', for a capitalised ASCII word W, offers W |
| `Outline.SentinelOverridden` | parser.py:93-94 | when page one's candidate is 'Untitled' and page two's is W, the loop as written returns W while the first-candidate title is 'Untitled' |
| `Outline.WrittenSkipsSentinel` | parser.py:93-94 | the loop as written passes over a page whose candidate is 'Untitled' |
| `Outline.TitleSentinelCounterexample` | parser.py:83-94 | for the pages '# Untitled' and '# Bar', the loop as written returns 'Bar' while the first candidate is 'Untitled' |
| `Outline.TocLevel` | parser.py:104 | a TOC level 1..3 is kept and any other level becomes 3 |
| `Outline.AddTocItemCases` | parser.py:100-105 | a TOC item is appended exactly when it is a well-formed row whose cleaned text does not start with a-z and is not already listed; otherwise the list is unchanged |
| `Outline.MergedTocLast` | parser.py:100-105 | the merge of a TOC is the merge of all but its last item, then that item's step |
| `Outline.MergedTocPrefix` | parser.py:100-105 | merging a TOC only appends: the page's parsed entries stay in front, unchanged |
| `Outline.MergedTocAdded` | parser.py:103-105 | every appended entry has page i + 1 and text not starting with a-z |
| `Outline.MergedTocDistinct` | parser.py:103 | no appended entry repeats the text of any earlier entry |
| `Outline.MergedTocFromRow` | parser.py:100-105 | every appended entry is the entry of some TOC row: its clamped level, its cleaned text and the page number |
| `Outline.MergedTocComplete` | parser.py:100-105 | the text of every acceptable TOC row ends up listed |
| `Outline.MergedTocListsRow` | parser.py:100-105 | the text of one acceptable row is listed after the merge |
| `Outline.PageEntriesPage` | parser.py:97-106 | every entry a page contributes has page i + 1 |
| `Outline.OutlinePagesOrdered` | parser.py:97-106 | page numbers lie in 1..number of pages and never decrease along the outline |
| `Outline.PageTitle` | parser.py:86-92 | the inner loop returns the candidate of the page's first offering line, or none |
| `Outline.FindTitle` | parser.py:83-94 | the corrected outer loop (see Findings) returns the title: the first candidate across pages, else 'Untitled' |
| `Outline.MergeTocItems` | parser.py:100-105 | the TOC loop's list is the merge of the page's entries with its TOC |
| `Outline.ExtractOutlineAndTitle` | parser.py:82-107 | returns the title, and the outline as each page's parsed entries followed by its accepted TOC entries, page by page |
| `TextUtils.LigatureTableShape` | src/text_utils.py:4-7 | the table's keys are exactly U+FB00..U+FB06, and every replacement is lower-case ASCII |
| `TextUtils.LigaturesRemoved` | src/text_utils.py:4-9 | no ligature code point U+FB00..U+FB06 survives the ligature loop |
| `TextUtils.LigaturesAbsent` | src/text_utils.py:8-9 | text without ligatures is unchanged |
| `TextUtils.LigaturesKeepAbsent` | src/text_utils.py:8-9 | the loop adds nothing but lower-case ASCII letters |
| `TextUtils.FixBulletsRemoves` | src/text_utils.py:10 | neither the six-character `•` nor the mojibake bullet survives |
| `TextUtils.FixBulletsAbsent` | src/text_utils.py:10 | text without those patterns and without `-.` is unchanged |
| `TextUtils.FixBulletsKeepAbsent` | src/text_utils.py:10 | the bullet fixes add nothing but '-' |
| `TextUtils.QuoteTableShape` | src/text_utils.py:11 | the quote fixes map exactly U+2019, U+201C and U+201D to ASCII quotes |
| `TextUtils.QuotesRemoved` | src/text_utils.py:11 | no U+2019, U+201C or U+201D survives |
| `TextUtils.QuotesAbsent` | src/text_utils.py:11 | text without curly quotes is unchanged |
| `TextUtils.QuotesKeepAbsent` | src/text_utils.py:11 | the quote fixes add nothing but `'` and `"` |
| `TextUtils.MarkupRemovesHash` | src/text_utils.py:12-16 | no '#' is left after the markup stage |
| `TextUtils.MarkupKeepsAbsent` | src/text_utils.py:12-16 | the markup stage adds no character |
| `TextUtils.UnwrapDouble` | src/text_utils.py:14 | the `**…**` rewrite adds no character and is the identity without '*' |
| `TextUtils.UnwrapDoubleThenDelete` | src/text_utils.py:14 | the `**…**` rewrite only removes '*' characters |
| `TextUtils.MarkupOnlyDeletesMarkers` | src/text_utils.py:12-16 | the markup stage only deletes the markers '#', '`', '*' and '_' |
| `TextUtils.CollapseSpaces` | src/text_utils.py:17 | collapsing runs of spaces adds no character and keeps the first character |
| `TextUtils.CollapseNoDoubleSpace` | src/text_utils.py:17 | no two spaces are left side by side |
| `TextUtils.CollapseSpacesClean` | src/text_utils.py:17 | text without a double space is unchanged |
| `TextUtils.CollapseKeepsText` | src/text_utils.py:17 | the non-whitespace characters are exactly kept |
| `TextUtils.JoinNewlines` | src/text_utils.py:18 | no newline is left, only spaces are added, and text without newlines is unchanged |
| `TextUtils.JoinNewlinesKeepsText` | src/text_utils.py:18 | the non-whitespace characters are exactly kept |
| `TextUtils.Pieces` | src/text_utils.py:19 | every piece kept is non-empty and has no whitespace at either end |
| `TextUtils.PiecesHead` | src/text_utils.py:19 | none is kept exactly when all pieces are blank, and the first kept piece is the stripped first non-blank piece |
| `TextUtils.PiecesFree` | src/text_utils.py:19 | stripping and filtering keeps pieces free of the separator |
| `TextUtils.RejoinSegments` | src/text_utils.py:19-20 | the rejoined text is empty exactly when no piece is kept, and otherwise splitting it at '. ' gives back the kept pieces |
| `TextUtils.RejoinSegmentsClean` | src/text_utils.py:19-20 | every segment between '. ' separators of the rejoined text is non-empty with no surrounding whitespace |
| `TextUtils.RejoinKeepsAbsent` | src/text_utils.py:19-20 | the rejoin adds nothing but '.' and ' ' |
| `TextUtils.CapitalizeFirst` | src/text_utils.py:22-23 | only the first character can change, an ASCII lower-case first letter is upper-cased, and the result never starts with a-z |
| `TextUtils.CapitalizeIdempotent` | src/text_utils.py:22-23 | capitalising twice equals capitalising once |
| `TextUtils.FinishEnds` | src/text_utils.py:21-23 | after `strip(' .')` and the capital, the text neither begins nor ends with ' ' or '.' |
| `TextUtils.FinishOfEdges` | src/text_utils.py:21 | text made only of spaces and dots finishes as '' |
| `TextUtils.FinishKeepsAbsent` | src/text_utils.py:21-23 | the last stage adds nothing but an upper-case letter |
| `TextUtils.TailKeepsAbsent` | src/text_utils.py:12-23 | the stages after the character fixes add nothing but ' ', '.' or a capital |
| `TextUtils.CleanTextNoLigature` | src/text_utils.py:3-24 | the output holds no ligature code point |
| `TextUtils.CleanTextNoCurlyQuote` | src/text_utils.py:3-24 | the output holds no U+2019, U+201C or U+201D |
| `TextUtils.CleanTextNoHash` | src/text_utils.py:3-24 | the output holds no '#' |
| `TextUtils.CleanTextNoNewline` | src/text_utils.py:3-24 | the output holds no newline |
| `TextUtils.CleanTextEnds` | src/text_utils.py:21-23 | the output neither begins nor ends with ' ' or '.', and does not start with a-z |
| `TextUtils.CleanTextOfSpacesAndDots` | src/text_utils.py:3-24 | input made only of spaces and dots yields '' |
| `TextUtils.EdgesOnlyNormalized` | src/text_utils.py:4-11 | the character fixes leave text of spaces and dots unchanged |
| `TextUtils.CleanTextOfWordText` | src/text_utils.py:3-24 | text of ASCII letters, digits and '_' comes out `_`-unwrapped and capitalised |
| `TextUtils.WordTextNormalized` | src/text_utils.py:4-11 | such text passes the character fixes unchanged |
| `TextUtils.WordTextMarkup` | src/text_utils.py:12-16 | the markup stage only unwraps its underscores |
| `TextUtils.WordTextFinished` | src/text_utils.py:17-23 | the whitespace, rejoin and trim stages leave such text as is, apart from the capital |
| `TextUtils.CleanTextNotIdempotent` | src/text_utils.py:3-24 | `"__a__"` cleans to `"_a_"`, which cleans again to `"A"`: the function is not idempotent |
| `ChromaDb.Chunk.constructor` | src/chroma_db.py:30 | a new chunk holds the given content, source and page, and no id yet |
| `ChromaDb.Keys` | src/chroma_db.py:44 | there is one key per chunk, in list order, and position k holds the f-string key `source:page` of the chunk listed there |
| `ChromaDb.KeyOfInjective` | src/chroma_db.py:44 | equal keys have equal source and page |
| `ChromaDb.RunIndexRun` | src/chroma_db.py:41-47 | the counter at k is the number of equal keys directly before k: that many keys are equal to key k, and the one before them differs |
| `ChromaDb.RunIndexAlongRun` | src/chroma_db.py:45 | along a run of equal keys the counter rises by one per chunk |
| `ChromaDb.ChunkIdEqual` | src/chroma_db.py:44-46 | two positions get the same id exactly when their keys and counters are equal |
| `ChromaDb.GroupedIdsDistinct` | src/chroma_db.py:41-47 | when equal keys are adjacent (chunks of one page kept together), all ids are distinct |
| `ChromaDb.RestartCollides` | src/chroma_db.py:45 | a key that comes back after a different key restarts at 0 and repeats the earlier id |
| `ChromaDb.LastIndex` | src/chroma_db.py:43 | the last listing of an object before n, or -1: a found position lists the object and no later position before n does, and -1 means no position before n lists it |
| `ChromaDb.FinalIdIsLast` | src/chroma_db.py:43-46 | the id an object holds is the one computed at its last listing, or none if it is not listed |
| `ChromaDb.LastListingId` | src/chroma_db.py:43-47 | at an object's last listing its id is that position's `source:page:idx` |
| `ChromaDb.RelistedId` | src/chroma_db.py:43-47 | an object listed again later holds the id of a later listing |
| `ChromaDb.CalculateChunkIds` | src/chroma_db.py:40-47 | the pass writes every chunk's id, changes nothing else, and leaves each object with the id computed at its last listing |
| `ChromaDb.LabelChunk` | src/chroma_db.py:44-47 | one step computes the chunk's key, restarts or continues the counter, and writes `key:idx` |
| `ChromaDb.TruncateAtLastDot` | src/chroma_db.py:35-37 | the result is a prefix that ends at the last '.', or the whole text when there is no '.' |
| `ChromaDb.TruncateIdempotent` | src/chroma_db.py:33-37 | truncating twice equals truncating once |
| `ChromaDb.TruncateChunk` | src/chroma_db.py:34-37 | one chunk's content becomes its truncation |
| `ChromaDb.TruncateChunks` | src/chroma_db.py:33-37 | every listed chunk's content becomes the truncation of its old content, and nothing else changes |
| `ChromaDb.DocName` | src/chroma_db.py:72 | a listed input document name holds no '/' |
| `ChromaDb.SectionTitleIsFirstLine` | src/chroma_db.py:83-84 | the title is '' exactly when every line is blank, and otherwise the stripped first non-blank line |
| `ChromaDb.SectionTitleTrimmed` | src/chroma_db.py:83-84 | a title has no whitespace at either end |
| `ChromaDb.FirstLineTitle` | src/chroma_db.py:83-84 | the loop body's title is the section title of the content |
| `ChromaDb.RawSnippet` | src/chroma_db.py:87-90 | the raw snippet is at most 200 characters, a prefix of the content, cut right after the last '.' of the first 200 characters, or all of them when there is no '.' |
| `ChromaDb.SnippetClean` | src/chroma_db.py:87-91 | a snippet has no newline or '#', neither begins nor ends with ' ' or '.', and does not start with a-z |
| `ChromaDb.SnippetOf` | src/chroma_db.py:87-91 | the loop body's text is the cleaned snippet of the content |
| `ChromaDb.ExtractedSections` | src/chroma_db.py:82-85 | one section per result, in result order, with the result's source, the title of its content and rank position + 1 |
| `ChromaDb.SubsectionAnalysis` | src/chroma_db.py:86-92 | one subsection per result, in result order, with the result's source and its cleaned snippet |
| `ChromaDb.QueryAndFormat` | src/chroma_db.py:64-93 | the report lists the input documents by basename and defaults the persona and job to '', then has one ranked section and one snippet per result |

## Left out

- PDF-to-markdown conversion, PDF text extraction, the text splitter, the Chroma index build and the embedding model are library calls with no visible behaviour. The model starts from their outputs: pages with optional text and TOC items, chunks, and search results.
- Directory walking, JSON reading and writing, timestamps, argument parsing and console output in `parser.py` and `src/main.py` are I/O and are not part of this model.
- `similarity_search_with_score`, `query` and `top_k` are left out. `QueryAndFormat` takes the search hits as a sequence, and the similarity score is dropped because the formatting never reads it.
- Python's full Unicode `str.lower`/`str.upper`, `\d`, `\w` and `\b` are restricted to ASCII. Whitespace is Python's `isspace()` set.
- TOC rows are modelled with an integer level and a string title. In the source a non-numeric level raises `TypeError`, a float level gives a label such as `'H2.0'`, and a non-string title raises `AttributeError` inside `normalize_punctuation`; none of these is modelled. Items that are not lists or tuples of length ≥ 2 are `Malformed` and ignored, as in the source.
- A document entry that is a dict without `'filename'` raises `KeyError` in the source. A `persona` or `job_to_be_done` value that is not a dict fails on `.get`. Neither error is modelled: `DocItem` always has a name, and `role`/`task` are options.
- A chunk's `source` and `page` are `const` fields, because neither pass changes them. A missing `'source'` or `'page'` key, which raises `KeyError` in the source, is not modelled.
- `FindTitle` is the corrected outer title loop: it computes `TitleOf`, not the loop as written.
- `ExtractOutlineAndTitle` uses the corrected title rule, `TitleOf`. The loop as written is `TitleAsWritten`; see Findings.

## Findings

| source | as written | input that shows it | evidently intended | confidence | as-written member | corrected member |
|---|---|---|---|---|---|---|
| parser.py:83-94 | the outer page loop stops only when `title != 'Untitled'`, so a first acceptable heading whose text is literally "Untitled" does not stop the search and a later page's heading replaces it | two pages with text `# Untitled` and `# Bar`: the title comes out `Bar` | the title is the first acceptable `# ` heading across the pages in order, and 'Untitled' only when there is none | not executed; medium, since a heading reading "Untitled" is rare but the break check plainly treats the string as a not-found marker | `Outline.TitleSentinelCounterexample` | `Outline.FindTitle` |
