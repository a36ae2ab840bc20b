# PDF comparison pipeline — a Dafny model of its core

The system compares two PDF documents. Ingestion extracts the text of each page,
cuts it into overlapping fixed-width chunks and embeds every chunk. It stores one
record per chunk in a document collection. Comparison then runs a vector search over
the other document's chunks for every chunk of the first one. It averages the
scores it finds and sorts the matches. A small web backend accepts at most two
uploads, stored as `pdf_a.pdf` and `pdf_b.pdf`.

This project models four parts and proves their properties:

- **`chunk_text`** (module `Chunker`, on top of `Strings`, which models Python's
  `str.strip` with the `str.isspace` character set and the decimal rendering of a
  chunk counter):
  - the window loop, both as a method and as a recursive function;
  - the exact condition under which the loop terminates;
  - that every chunk is the stripped text of one window, located in the text and
    in left-to-right order;
  - that with a non-negative overlap every non-whitespace character lies in some
    chunk.
- **`ingest_pdf`** (module `Ingest`), splitting pages with any splitter (the default
  is `chunk_text` with width 500 and overlap 100):
  - record assembly in page order, then chunk order, with ids `<pdf_id>_<counter>`
    counted across pages;
  - chunkless pages contribute nothing;
  - a missing embedding aborts before the store changes;
  - the store update: delete first on upsert, then insert if there is anything to
    insert; other documents are untouched.
- **`compare_pdfs`** (module `Compare`), with the vector search as an
  uninterpreted function truncated to `k` hits and scores as `real`:
  - the nested collection loops;
  - the mean, or 0 when there are no scores;
  - Python's stable descending sort, as an insertion sort with its permutation,
    order and stability proved.
- **The `/upload` handler** (module `Upload`):
  - the choice of `pdf_a.pdf`, then `pdf_b.pdf`, then a 400 refusal;
  - the multer temporary file that is present when the directory is listed;
  - the rename that never overwrites;
  - the 500 answers;
  - over any sequence of requests: slot files only grow, and each accepted upload
    gets its own previously free slot.

`Wrappers` holds the `Option` and `Result` types.

Two behaviours of the code are worth stating plainly:

- The overall similarity is the mean of the scores of the hits the search actually
  returned, one score per (chunk of A, returned hit) pair. It is not a mean over a
  full similarity matrix of A against B. A chunk of A with fewer than `k` hits in B
  contributes fewer scores.
- A text made only of whitespace gives no chunk at all, even when it is shorter than
  one window. A short text gives exactly one chunk only when it has some
  non-whitespace character (`Chunker.ShortTextIsOneChunk`).

## Model

| member | source | states |
|---|---|---|
| Chunker.ChunkText | main.py:35-48 | the window loop, run on any input where it ends, returns exactly the chunk list `Chunks` (its loop invariant: chunks so far plus the chunks of the remaining windows give the whole result) |
| Chunker.Chunks | main.py:35-48 | every returned chunk is non-empty and has no leading or trailing whitespace |
| Chunker.ChunksComeFromWindows | main.py:37-44 | chunk k is `text[s:e].strip()` of a window `[s, e)` the loop visits, so it is at most `max_chars` long; the windows of successive chunks start strictly further right, so chunks follow the loop's window order |
| Chunker.LoopStallsWhenOverlapTooLarge | main.py:37-47 | whenever the termination condition fails (overlap at least `max_chars` and text longer than one window), the first window stops short of the end and the next start is 0 again, so the loop never finishes |
| Chunker.AllSpaceYieldsNoChunks | main.py:42-44 | an empty or whitespace-only text yields no chunk |
| Chunker.ShortTextIsOneChunk | main.py:36-46 | a text no longer than `max_chars` yields `[]` if it is all whitespace and otherwise exactly `[text.strip()]` |
| Chunker.WindowsRegular | main.py:37-47 | window i starts at `i * (max_chars - overlap)`; every window but the last is full width and stops short of the end; consecutive windows share exactly `overlap` characters; with a non-negative overlap the last window reaches the end of a non-empty text; there are no windows exactly when the text is empty |
| Chunker.ChunkSpans | main.py:42-44 | every chunk is literally the text between two positions of the input, with positions given per chunk |
| Chunker.ChunksInTextOrder | main.py:37-47 | chunks are emitted left to right: both ends of their positions never move left |
| Chunker.ChunksCoverText | main.py:37-47 | with a non-negative overlap, every non-whitespace character of the text lies inside the position range of some chunk |
| Strings.StripFacts | main.py:42 | `strip` returns an infix with no outer whitespace; only whitespace is removed on either side; the result is empty exactly when the text is all whitespace |
| Strings.StripUnique | main.py:42 | a non-empty stripped core surrounded by whitespace is what `strip` returns |
| Strings.StripIdempotent | main.py:42 | stripping twice equals stripping once |
| Strings.NatToStringInjective | main.py:65 | different counters render as different decimal strings |
| Ingest.ChunkIdInjective | main.py:65 | within one document, `f"{pdf_id}_{chunk_id}"` determines the counter |
| Ingest.PageResult | main.py:58-70 | a page's records are built exactly when the embedder returns a vector for each of its chunks, and then there is one record per chunk |
| Ingest.BuildSucceeds | main.py:56-70 | building all records succeeds exactly when every page gets enough embeddings; otherwise an error is raised |
| Ingest.BuildBuiltFrom | main.py:55-70 | record k carries the document id, id `<pdf_id>_<next+k>`, the text and embedding of chunk k in page-then-chunk order, and that chunk's page number |
| Ingest.RecordsBelongAndAreUnique | main.py:63-70 | every record belongs to the ingested document and no two records share a chunk id |
| Ingest.OriginsConcat | main.py:56-62 | the chunks of two page lists put together are those of the first followed by those of the second |
| Ingest.BuildConcat | main.py:55-70 | ingesting pages `a + b` gives the records of `a` followed by those of `b`, numbered on from where `a` stopped; the first failure wins |
| Ingest.ChunklessPageContributesNothing | main.py:58-60 | inserting a page that has no chunks anywhere in the page list changes neither the records nor their ids |
| Ingest.Find | main.py:97 | a lookup by document id returns only records of that document (that it returns all of them is `Ingest.FindSelects`) |
| Ingest.FindSelects | main.py:97 | `find` returns every stored record of the document and no other record |
| Ingest.DeleteMany | main.py:72-73 | after `delete_many` no record of the document remains |
| Ingest.DeleteManySelects | main.py:73 | `delete_many` keeps every record of the other documents and no record of this one |
| Ingest.FindAfterDelete | main.py:72-73 | after deletion the document has no records and every other document's records are unchanged |
| Ingest.FindConcat | main.py:74-75 | after an insert, a lookup returns the old records followed by the inserted ones |
| Ingest.Write | main.py:72-75 | with upsert the document's records become exactly the new ones; without it the new ones are appended after the old; no other document changes |
| Ingest.IngestWith | main.py:53-76 | ingestion succeeds exactly when every page gets enough embeddings; on success the document's records are the freshly built ones (upsert) or the old ones followed by them (append), and other documents are untouched |
| Ingest.DefaultRecordsAreChunks | main.py:58-66 | with `chunk_text`'s defaults (500, 100), every built record's text is non-empty, stripped and at most 500 characters long |
| Ingest.IngestPdf | main.py:53-76 | `ingest_pdf` itself, using `chunk_text(text)`: it succeeds exactly when every page gets enough embeddings; the store effect is as for `Ingest.IngestWith`; and every record it stores holds one chunk of at most 500 characters |
| Compare.SearchSimilar | main.py:78-94 | the search yields at most `k` hits; they are a prefix of the ranked results and cut short only at `k` |
| Compare.DocMatches | main.py:99-104 | one chunk of A contributes at most `k` matches |
| Compare.Collected | main.py:97-104 | the matches collected are at most `k` per chunk of A |
| Compare.CollectedFromHits | main.py:99-104 | every collected match pairs the text of a chunk of A with a hit the search returned for that chunk's embedding, with that hit's score |
| Compare.HitsAreCollected | main.py:99-104 | conversely, every hit the search returns for a chunk of A appears among the collected matches, paired with that chunk's text |
| Compare.CollectMatches | main.py:97-104 | the nested loops collect the matches and scores in document order, then hit order |
| Compare.Mean | main.py:106 | the overall similarity times the number of scores is their sum, and it is 0 when there are none |
| Compare.MeanBounds | main.py:106 | the mean of scores all within `[lo, hi]` lies within `[lo, hi]` |
| Compare.Insert | main.py:107 | inserting adds exactly the one match |
| Compare.InsertSorted | main.py:107 | inserting into a list sorted by descending score keeps it sorted |
| Compare.InsertStable | main.py:107 | inserting places the new match before all equal-score matches already placed, so relative order among equal scores is the input order |
| Compare.SortByScore | main.py:107 | the sorted matches are a permutation of the input, in non-increasing score order |
| Compare.SortStable | main.py:107 | for every score, matches with that score keep their original relative order |
| Compare.ComparePdfs | main.py:96-108 | the overall similarity is the mean of all collected scores (0 if none); the matches are a stable, descending-by-score permutation of the collected ones, at most `k` per chunk of A |
| Compare.ComparePdfsLoop | main.py:96-108 | the loop-and-accumulate form returns the same comparison |
| Upload.ChooseSlot | backend/index.js:31-39 | `pdf_a.pdf` exactly when it is absent; `pdf_b.pdf` exactly when only `pdf_a.pdf` is present; the 400 refusal exactly when both are present; a chosen name is never already present |
| Upload.NonPdfFilesIrrelevant | backend/index.js:31-39 | adding non-`.pdf` files to the directory never changes the decision, and neither does filtering |
| Upload.TempNameIsNoSlot | backend/index.js:22-23 | multer's timestamp-named temporary file is never a slot name |
| Upload.HandleUpload | backend/index.js:28-60 | the upload is accepted exactly when a file is sent, a slot is free and processing succeeds; it is refused with 400 exactly when both slots are taken; any other failure is 500; with a file and a free slot, the temporary file becomes the chosen slot, which did not exist before, even if processing then fails; the slot files grow by at most that name |
| Upload.ThreeUploads | backend/index.js:31-56 | three uploads into a directory with no slot files go to `pdf_a.pdf`, then `pdf_b.pdf`, then get the 400 refusal |
| Upload.FailedProcessingTakesSlot | backend/index.js:41-59 | an upload whose processing throws is answered 500 but keeps `pdf_a.pdf`, so the next upload lands in `pdf_b.pdf` |
| Upload.SlotFilesGrow | backend/index.js:28-60 | over any sequence of requests the slot files never shrink and never go beyond the two slots |
| Upload.AcceptedSlotsWereFree | backend/index.js:31-44 | over any sequence of requests, every accepted upload gets a slot that was free at the start and is still present at the end: a rename never overwrites a slot file |
| Upload.AcceptedSlotsDistinct | backend/index.js:31-44 | over any sequence of requests no two accepted uploads get the same slot |

## Left out

- PDF text extraction (`extract_text_from_pdf`, main.py:26-33): pages are an input
  with their number and text.
- The sentence-embedding model (`embed_texts`, main.py:50-51): an uninterpreted
  function from chunk texts to vectors.
- The Atlas `$vectorSearch` stage (main.py:78-94): `numCandidates`, the index, the
  similarity measure and the projection are not modelled. The search is an
  uninterpreted ranked list of `(text, score)` hits, of which the first `k` are kept.
- The MongoDB client, environment variables and the driver statements at the end of
  main.py: the collection is a sequence of records, searched in insertion order.
  MongoDB's natural order without an index is not guaranteed to be insertion order.
- Record fields: `created_at` (a clock reading) is not modelled, and nor is the
  `_id` field.
- `Compare.Mean`: scores are `real`, not IEEE doubles, so rounding in `sum(...)/len(...)`
  is not modelled. Python returns the integer 0 for an empty score list; here it
  is `0.0`.
- Chunker.ChunkText: a negative `max_chars` is not modelled, because Python slicing
  with negative bounds counts from the end. The width is a `nat`.
- Chunker.ChunksCoverText: stated only for a non-negative overlap. A negative
  overlap makes the loop skip characters between windows.
- The commented-out sentence-boundary search (main.py:39-41) is dead code.
- Express, CORS, multer's multipart parsing and `path.extname`: the extension of the
  original name is an input of the upload request.
- `processPDF` (backend/ai.js) is not part of this model. Only its outcome, success
  or a thrown error, is an input of the upload handler; the content of `aiResult`
  and the response's `message` text are not modelled.
- Upload.HandleUpload: a failure of `fs.readdirSync` or `fs.renameSync` itself
  (I/O errors, a missing directory) is not modelled. Concurrent requests are not
  modelled either: each request is handled atomically on one directory state.
- The `/files` listing route and the React front end (src/App.jsx) only display
  state and are not modelled.
- Logging: the `print` at main.py:76 and the `console.error` at backend/index.js:58
  write only to the console and change no state.
- Default arguments: `compare_pdfs`'s `k = 2` (main.py:96) and `ingest_pdf`'s
  `upsert=True` (main.py:53) are not fixed; both are explicit parameters here.
- Compare.SearchSimilar: accepts any `k`. Atlas rejects a `limit` (main.py:85)
  larger than `numCandidates: 100` (main.py:84), and that rejection is not modelled.
