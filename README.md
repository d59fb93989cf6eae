# Redbooks RAG PDF processor: chunking, markdown reconstruction and collection assembly

This project models the three pieces of deterministic text logic in
`super_simple.py`, the script that turns a folder of PDFs into retrieval
chunks, a readable markdown rendering and an Open WebUI knowledge
collection:

- **The chunker** (`chunker.dfy`, module `Chunking`). This is the loop in
  `process_pdfs` that cuts a document's extracted text into overlapping
  character windows. It is lifted into the method `ChunkText(text, source,
  chunkSize, overlap)`. The program itself uses chunk size 1000 and overlap
  100; these are the constants `DefaultChunkSize` and `DefaultOverlap`.
  - The method walks `range(0, len(text), chunkSize - overlap)`.
  - At each offset it takes the slice `text[i:i + chunkSize]` and keeps it
    when non-empty.
  - Each kept slice is tagged with its position (`chunk_index = len(chunks)`)
    and with the estimate `len(text) // stride + 1` (`total_chunks`).
  - The method is proved equal to the specification function `Chunks`, a
    comprehension over chunk positions. All the chunker lemmas are about
    `Chunks`.
- **The markdown reconstruction** (`markdown.dfy`, module `Markdown`). This
  is `generate_markdown`.
  - The output starts with a fixed metadata header.
  - The text is split on `"\n\n"`, and the pieces are stripped and filtered
    into paragraphs.
  - Each paragraph is then classified. It becomes a level-2 heading, a
    level-3 heading, a plain paragraph, a verbatim list block, or a
    paragraph whose lines are joined with spaces.
  - The method `GenerateMarkdown` accumulates the string paragraph by
    paragraph, with an inner loop for the lines of a list. It is proved
    equal to `MarkdownOf`, which is the header followed by `Render` of
    `Classify` of each paragraph.
  - The Python string operations the function relies on live in
    `strings.dfy` (module `Strings`): `split`, `join`, `strip`, `startswith`,
    `endswith`, `isupper` and `str` of a page count.
- **The collection assembly** (`collection.dfy`, module `Collection`). This
  is the grouping part of `prepare_openwebui_collection`.
  - Chunks are grouped by `metadata.source` in a dictionary that keeps
    insertion order.
  - Each source becomes one document, with a fresh id, an empty url and the
    source as its title.
  - Each chunk of a group becomes one content chunk, with a fresh id, the
    document's id, the chunk's text, and metadata renumbered within the
    group.
  - The fresh identifiers that `uuid.uuid4()` would produce are a parameter
    `ids`. They are consumed in the order the program draws them: each
    document's own id first, then the ids of its chunks.
  - `AssembleCollection` (with its helper methods `GroupBySource`,
    `MakeDocument` and `MakeDocuments`) is proved equal to `CollectionOf`.

Where the code and its comments disagree, the model follows the code:

- The comment above the chunking loop speaks of 500-character chunks with
  a 50-character overlap, but the code uses 1000 and 100.
- The code computes `total_chunks` as `len(text) // stride + 1`. This is one
  more than the true count when the length is a positive multiple of the
  stride, and the model keeps that quirk. `TotalChunksEstimate` states
  exactly when the estimate is off.
- The code gives every document a `url` field holding the empty string,
  and the model includes it.

## Model

| member | source | states |
|---|---|---|
| Chunking.ChunkText | super_simple.py:288-304 | The stepping loop returns exactly `Chunks(text, source, chunkSize, overlap)`: one chunk per start offset below `len(text)`, in order. |
| Chunking.ChunkIsSlice | super_simple.py:294-302 | Chunk `k` starts at `k * stride`, which lies inside the text. Its text is `text[k*stride .. min(k*stride + chunkSize, len)]`, and its metadata is `(source, k, len / stride + 1)`. |
| Chunking.EmptyTextNoChunks | super_simple.py:294-296 | There are no chunks exactly when the text is empty. |
| Chunking.ChunkLengthBounds | super_simple.py:295-296 | Every chunk is non-empty and at most `chunkSize` long, so the `if chunk` filter never drops anything. |
| Chunking.ChunkCountIsCeiling | super_simple.py:294 | The number of chunks `n` is the ceiling of `len / stride`: `n * stride >= len` and `(n - 1) * stride < len`. |
| Chunking.ChunkCountBounds | super_simple.py:294 | The recursive chunk count of a length and a stride is the least `n` with `n * stride >= len`. |
| Chunking.ChunkCountByDivision | super_simple.py:294 | The chunk count is `len / stride` when the stride divides the length, and `len / stride + 1` otherwise. |
| Chunking.BelowCount | super_simple.py:294 | Offset `k * stride` is below the text length exactly when `k` is below the chunk count, so the loop visits the chunk positions and no others. |
| Chunking.ChunksCoverText | super_simple.py:294-295 | Every character position of the text lies inside some chunk, at the matching place. |
| Chunking.FullChunksOverlap | super_simple.py:294-295 | When chunk `k` is full-length and chunk `k+1` exists, the last `overlap` characters of chunk `k` are the first `overlap` characters of chunk `k+1`. |
| Chunking.StitchChunks | super_simple.py:294-295 | Round trip: taking the first `stride` characters of every chunk but the last, then the whole last chunk, gives back the text. |
| Chunking.ShortTextSingleChunk | super_simple.py:294-301 | A non-empty text no longer than one stride gives exactly one chunk, which holds the whole text and has index 0. |
| Chunking.DefaultSettingsTwoStrides | super_simple.py:290-302 | With the program's chunk size 1000 and overlap 100, an 1800-character text gives two chunks, its first 1000 and its last 900 characters, both with `total_chunks` 3. |
| Chunking.TotalChunksEstimate | super_simple.py:302 | Every chunk carries the same `total_chunks`, `len / stride + 1`. It is never below the true count, exceeds it by one exactly when `len % stride == 0`, and equals it otherwise. |
| Markdown.GenerateMarkdown | super_simple.py:170-212 | The accumulated string is exactly `MarkdownOf`: the header, then the rendering of each paragraph in order. The function never fails on any input. |
| Markdown.AppendParagraph | super_simple.py:190-210 | One pass of the paragraph loop appends exactly `Render(Classify(paragraph))` to the document. |
| Markdown.AppendLines | super_simple.py:205-206 | The inner list loop appends each line followed by a newline, in order. |
| Markdown.MarkdownStartsWithHeader | super_simple.py:173-181 | The document always opens with the metadata block (title, source file, page count, processing date, rule), whatever the text. |
| Markdown.ParagraphsAreClean | super_simple.py:185 | Every paragraph is non-empty, begins and ends with a non-space character, and contains no `"\n\n"`. |
| Markdown.HeadingRule | super_simple.py:191-200 | A single line shorter than 100 that is upper-case or ends in `:` or `.` is rendered as `"## p\n\n"` below 50 characters and as `"### p\n\n"` otherwise. Any other such line is rendered as `"p\n\n"`. |
| Markdown.ListRule | super_simple.py:201-207 | A multi-line or long paragraph that has a list line is rendered as the paragraph itself followed by `"\n\n"`: every line, a newline after each, then one more newline. |
| Markdown.JoinRule | super_simple.py:208-210 | Any other multi-line or long paragraph is rendered with each newline replaced by a space, followed by `"\n\n"`. |
| Markdown.IsListLineMeans | super_simple.py:203 | A line is a list line exactly when its stripped form starts with one of the markers `•`, `-`, `*`, `1.`, `2.`. |
| Markdown.HasListLineMeans | super_simple.py:203 | The list test is `any` over the lines: it holds exactly when some line is a list line. |
| Markdown.LinesBlockJoin | super_simple.py:205-206 | Emitting every line followed by a newline equals joining the lines with newlines, plus one newline. |
| Markdown.JoinLinesWithSpaces | super_simple.py:210 | Joining the newline-split lines with spaces replaces every newline with a space. |
| Markdown.NoNewlineSingleLine | super_simple.py:190-191 | A paragraph splits into exactly one line exactly when it contains no newline. |
| Markdown.RenderAllAppend | super_simple.py:188-210 | The rendering of a sequence of paragraphs is compositional: rendering `xs + ys` gives the rendering of `xs` followed by that of `ys`. |
| Strings.JoinSplit | super_simple.py:185 | Round trip: joining the pieces of `s.split(sep)` with `sep` gives back `s`. |
| Strings.SplitPartsFree | super_simple.py:185 | No piece of `s.split(sep)` contains `sep`. |
| Strings.SplitLeftmost | super_simple.py:185 | `s.split(sep)` cuts at the leftmost occurrence: when there are several pieces, the first is `s` up to the first place `sep` occurs, `sep` occurs nowhere before it, and the remaining pieces join back to the text after that occurrence. |
| Strings.SplitSingle | super_simple.py:190 | `s.split(sep)` has one piece exactly when `sep` does not occur in `s`. |
| Strings.StripIsTrimmedSlice | super_simple.py:185 | `strip()` returns the slice `s[a..b]` with only whitespace before `a` and after `b`. |
| Strings.StripEnds | super_simple.py:185 | A non-empty stripped string begins and ends with a non-space character. |
| Strings.StripEmpty | super_simple.py:185 | A string strips to nothing exactly when it is all whitespace, which is what the `if p.strip()` filter tests. |
| Strings.IsUpperMeans | super_simple.py:192 | `isupper()` holds exactly when there is an upper-case letter and no lower-case letter. |
| Strings.NatToStringValue | super_simple.py:176 | Round trip: the decimal digits printed for the page count read back as the page count. |
| Collection.AssembleCollection | super_simple.py:96-140 | There is no collection exactly when there are no chunks. Otherwise the result is `CollectionOf(name, chunks, ids)`, which draws exactly one identifier per document and one per chunk. |
| Collection.GroupBySource | super_simple.py:102-107 | The grouping loop leaves the dictionary keys in first-seen order (`Sources`), and each key maps to its source's chunks in input order (`Group`). |
| Collection.MakeDocument | super_simple.py:116-138 | One document gets the next identifier, an empty url and the source as title. Each of its chunks, in order, gets the next identifier, the document's id, its text, and metadata `(source, i, group size)`. |
| Collection.MakeDocuments | super_simple.py:115-140 | The document loop emits the documents of the sources in key order, each drawing its identifiers right after those of the document before it. |
| Collection.CollectionShape | super_simple.py:109-140 | The collection has the given name and one document per distinct source, in first-seen order. Document `d` is titled with source `d` and has an empty url. Its content chunks are that source's chunks in input order, each linked to the document's id, carrying the original text and metadata `(source, i, group size)`. |
| Collection.EveryChunkKept | super_simple.py:102-138 | The number of content chunks across all documents equals the number of input chunks. |
| Collection.SourcesCoverChunks | super_simple.py:102-107 | The group sizes of the distinct sources add up to the number of chunks. |
| Collection.CollectionIds | super_simple.py:117-128 | The identifiers in the collection are exactly the first `#sources + #chunks` identifiers drawn, in drawing order. So when the identifier supply never repeats, no two identifiers in the collection are equal. |
| Collection.SourcesMembership | super_simple.py:104-106 | A source is a key exactly when some chunk carries it. |
| Collection.SourcesDistinct | super_simple.py:105-106 | No source becomes a key twice. |
| Collection.SourcesPrefix | super_simple.py:103-107 | Keys are added in first-seen order: the keys after any prefix of the chunks are a prefix of the final keys. |
| Collection.GroupMembers | super_simple.py:103-107 | Every chunk in a source's group comes from the input and carries that source, and every input chunk carrying that source is in the group. A group is empty exactly when no chunk carries its source. |
| Collection.GroupOrder | super_simple.py:103-107 | Groups are built by appending in input order: the group of any prefix of the chunks is a prefix of the final group. |

## Left out

- PDF text extraction through PyPDF2, and the runtime `pip install`, are foreign library calls and process side effects. The extracted text and page count are inputs of the model.
- All file and directory I/O is left out: reading chunk files with `glob` and `json.load`, writing the markdown, chunk, JSONL and collection files, and creating directories. The model works on in-memory sequences; the chunks that `prepare_openwebui_collection` loads arrive as a sequence in loading order.
- `get_file_info` and `get_processed_info` are filesystem queries that round file sizes in floating point, and `is_pdf_processed` only tests whether a file exists. None of the three is modelled.
- The collection name is a parameter of `AssembleCollection`. The program's default for it, "Document Knowledge Base", is a default argument of `prepare_openwebui_collection` and has no effect on the logic.
- The processing timestamp from `datetime.now()` is a string parameter of `GenerateMarkdown`.
- `uuid.uuid4()` is replaced by the identifier supply `ids`. That the identifiers are distinct is a hypothesis of `Collection.CollectionIds`, not a fact the model can establish.
- Printing, `argparse`, `sys.exit` and the summary in `process_pdfs` and `main` are not modelled.
- The OpenWebUI import-instructions file is not modelled.
- Chunking.ChunkText: requires `overlap < chunkSize`. A stride of zero makes Python's `range` raise and a negative one makes the loop empty; neither case is modelled, and the program's constants 1000 and 100 meet the requirement.
- Strings.Strip: whitespace is the ASCII subset of Python's (space, tab, newline, carriage return, vertical tab, form feed and the four separators `\x1c`-`\x1f`). Unicode spaces such as U+00A0 are not stripped.
- Strings.IsUpper: cased characters are the ASCII letters only. Python's `isupper` also considers non-ASCII letters.
- Collection.AssembleCollection: requires at least `#sources + #chunks` identifiers, the number the program draws. A chunk without `metadata.source` (a `KeyError` in the program) cannot be represented, because `Chunk` always carries a source.
