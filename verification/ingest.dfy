/** `ingest_pdf`: turns the pages of one document into chunk records numbered across
    pages, then replaces (upsert) or extends that document's records in the store. */
module Ingest {
  import opened Wrappers
  import opened Strings
  import Chunker

  type Vector = seq<real>

  /** A text splitter; the record-building facts below hold for any of them. */
  type Splitter = string -> seq<string>

  /** The sentence-embedding model: one vector per input text, uninterpreted. */
  type Embedder = seq<string> -> seq<Vector>

  /** `chunk_text(text)` with its default width and overlap, as `ingest_pdf` calls it. */
  const DefaultSplitter: Splitter :=
    t => Chunker.Chunks(t, Chunker.DefaultMaxChars, Chunker.DefaultOverlap)

  /** One page as the PDF extractor reports it: its number and its text. */
  datatype Page = Page(pageNum: int, text: string)

  /** One stored chunk document (the `created_at` timestamp is not modelled). */
  datatype Record = Record(pdfId: string, chunkId: string, text: string, embedding: Vector, page: int)

  /** The embedder returned fewer vectors than the page has chunks, so reading
      `embeddings[i]` fails before anything reaches the store. */
  datatype IngestError = MissingEmbedding(pageNum: int)

  /** `f"{pdf_id}_{chunk_id}"`. */
  function ChunkId(pdfId: string, i: nat): (id: string) {
    pdfId + "_" + NatToString(i)
  }

  /** Within one document, different counters give different chunk ids. */
  lemma ChunkIdInjective(pdfId: string, i: nat, j: nat)
    requires ChunkId(pdfId, i) == ChunkId(pdfId, j)
    ensures i == j
  {
    var prefix := pdfId + "_";
    assert ChunkId(pdfId, i)[|prefix|..] == NatToString(i);
    assert ChunkId(pdfId, j)[|prefix|..] == NatToString(j);
    NatToStringInjective(i, j);
  }

  /** The embedder yields a vector for every chunk of page `p`. */
  predicate EmbedsPage(split: Splitter, embed: Embedder, p: Page) {
    |split(p.text)| <= |embed(split(p.text))|
  }

  predicate EmbedsAll(split: Splitter, embed: Embedder, pages: seq<Page>) {
    forall i :: 0 <= i < |pages| ==> EmbedsPage(split, embed, pages[i])
  }

  /** Chunk `index` of page `page`. */
  datatype Origin = Origin(page: Page, index: nat)

  predicate ValidOrigin(split: Splitter, o: Origin) {
    o.index < |split(o.page.text)|
  }

  /** The chunks of one page, in chunk order. */
  function PageOrigins(split: Splitter, p: Page): (os: seq<Origin>)
    ensures |os| == |split(p.text)|
    ensures forall i :: 0 <= i < |os| ==> os[i] == Origin(p, i)
  {
    seq(|split(p.text)|, i requires 0 <= i => Origin(p, i))
  }

  /** Every chunk of every page, in page order and then chunk order. */
  function Origins(split: Splitter, pages: seq<Page>): (os: seq<Origin>)
    ensures forall k :: 0 <= k < |os| ==> ValidOrigin(split, os[k])
  {
    if pages == [] then [] else PageOrigins(split, pages[0]) + Origins(split, pages[1..])
  }

  /** The record the loop builds for the chunk at `o` while the counter is `id`. */
  function RecordFor(split: Splitter, embed: Embedder, pdfId: string, o: Origin, id: nat): (rec: Record)
    requires ValidOrigin(split, o) && EmbedsPage(split, embed, o.page)
  {
    var chunks := split(o.page.text);
    Record(pdfId, ChunkId(pdfId, id), chunks[o.index], embed(chunks)[o.index], o.page.pageNum)
  }

  /** Record `k` is the record for origin `k` with counter `next + k`. */
  predicate BuiltFrom(split: Splitter, embed: Embedder, pdfId: string, recs: seq<Record>, os: seq<Origin>, next: nat) {
    && |recs| == |os|
    && forall k :: 0 <= k < |recs| ==>
         && ValidOrigin(split, os[k]) && EmbedsPage(split, embed, os[k].page)
         && recs[k] == RecordFor(split, embed, pdfId, os[k], next + k)
  }

  lemma BuiltFromConcat(split: Splitter, embed: Embedder, pdfId: string, a: seq<Record>, b: seq<Record>,
                        oa: seq<Origin>, ob: seq<Origin>, next: nat)
    requires BuiltFrom(split, embed, pdfId, a, oa, next)
    requires BuiltFrom(split, embed, pdfId, b, ob, next + |a|)
    ensures BuiltFrom(split, embed, pdfId, a + b, oa + ob, next)
  {
    forall k | |a| <= k < |a| + |b|
      ensures (a + b)[k] == RecordFor(split, embed, pdfId, (oa + ob)[k], next + k)
    {
      assert (a + b)[k] == b[k - |a|];
      assert (oa + ob)[k] == ob[k - |a|];
    }
  }

  /** The records of one page: chunk `i` gets counter `next + i`. */
  function PageRecords(split: Splitter, embed: Embedder, pdfId: string, p: Page, next: nat): (recs: seq<Record>)
    requires EmbedsPage(split, embed, p)
    ensures |recs| == |split(p.text)|
  {
    var chunks := split(p.text);
    var embeddings := embed(chunks);
    seq(|chunks|, i requires 0 <= i < |chunks| =>
      Record(pdfId, ChunkId(pdfId, next + i), chunks[i], embeddings[i], p.pageNum))
  }

  lemma PageRecordsBuilt(split: Splitter, embed: Embedder, pdfId: string, p: Page, next: nat)
    requires EmbedsPage(split, embed, p)
    ensures BuiltFrom(split, embed, pdfId, PageRecords(split, embed, pdfId, p, next), PageOrigins(split, p), next)
  {
  }

  /** Failure of the first part wins; otherwise the records are concatenated. */
  function Then(x: Result<seq<Record>, IngestError>, y: Result<seq<Record>, IngestError>)
    : (r: Result<seq<Record>, IngestError>)
  {
    if x.Failure? then x else if y.Failure? then y else Success(x.value + y.value)
  }

  lemma ThenAssociative(x: Result<seq<Record>, IngestError>, y: Result<seq<Record>, IngestError>,
                        z: Result<seq<Record>, IngestError>)
    ensures Then(x, Then(y, z)) == Then(Then(x, y), z)
  {
    if x.Success? && y.Success? && z.Success? {
      assert x.value + (y.value + z.value) == (x.value + y.value) + z.value;
    }
  }

  /** One iteration of the page loop: a page without chunks is skipped; otherwise
      the page is embedded and its records are built, or indexing the embeddings fails. */
  function PageResult(split: Splitter, embed: Embedder, pdfId: string, p: Page, next: nat)
    : (r: Result<seq<Record>, IngestError>)
    ensures r.Success? <==> EmbedsPage(split, embed, p)
    ensures r.Success? ==> |r.value| == |split(p.text)|
  {
    var chunks := split(p.text);
    if chunks == [] then Success([])
    else if |embed(chunks)| < |chunks| then Failure(MissingEmbedding(p.pageNum))
    else Success(PageRecords(split, embed, pdfId, p, next))
  }

  /** The record-building loop of `ingest_pdf`, with the chunk counter starting at `next`. */
  function Build(split: Splitter, embed: Embedder, pdfId: string, pages: seq<Page>, next: nat)
    : (r: Result<seq<Record>, IngestError>)
  {
    if pages == [] then Success([])
    else
      Then(PageResult(split, embed, pdfId, pages[0], next),
           Build(split, embed, pdfId, pages[1..], next + |split(pages[0].text)|))
  }

  lemma BuildCons(split: Splitter, embed: Embedder, pdfId: string, pages: seq<Page>, next: nat)
    requires pages != []
    ensures Build(split, embed, pdfId, pages, next)
         == Then(PageResult(split, embed, pdfId, pages[0], next),
                 Build(split, embed, pdfId, pages[1..], next + |split(pages[0].text)|))
  {
  }

  /** Building fails exactly when some page has fewer embeddings than chunks. */
  lemma {:induction false} BuildSucceeds(split: Splitter, embed: Embedder, pdfId: string, pages: seq<Page>, next: nat)
    ensures Build(split, embed, pdfId, pages, next).Success? <==> EmbedsAll(split, embed, pages)
  {
    if pages != [] {
      BuildSucceeds(split, embed, pdfId, pages[1..], next + |split(pages[0].text)|);
      assert forall i :: 0 <= i < |pages| - 1 ==> pages[1..][i] == pages[i + 1];
    }
  }

  /** Record `k` is chunk `k` of the page-then-chunk enumeration, with embedding `k`
      of its page, its page number and the id `pdfId_(next + k)`. */
  lemma {:induction false} BuildBuiltFrom(split: Splitter, embed: Embedder, pdfId: string, pages: seq<Page>, next: nat)
    requires Build(split, embed, pdfId, pages, next).Success?
    ensures BuiltFrom(split, embed, pdfId, Build(split, embed, pdfId, pages, next).value, Origins(split, pages), next)
  {
    if pages != [] {
      var p := pages[0];
      var n1 := next + |split(p.text)|;
      var x := PageResult(split, embed, pdfId, p, next);
      var y := Build(split, embed, pdfId, pages[1..], n1);
      BuildCons(split, embed, pdfId, pages, next);
      assert x.Success? && y.Success?;
      assert x.value == PageRecords(split, embed, pdfId, p, next);
      BuildBuiltFrom(split, embed, pdfId, pages[1..], n1);
      PageRecordsBuilt(split, embed, pdfId, p, next);
      BuiltFromConcat(split, embed, pdfId, x.value, y.value, PageOrigins(split, p), Origins(split, pages[1..]), next);
      assert Build(split, embed, pdfId, pages, next).value == x.value + y.value;
      assert Origins(split, pages) == PageOrigins(split, p) + Origins(split, pages[1..]);
    }
  }

  /** The records of `ingest_pdf` for one document, numbered from 0. */
  function BuildRecords(split: Splitter, embed: Embedder, pdfId: string, pages: seq<Page>)
    : (r: Result<seq<Record>, IngestError>)
  {
    Build(split, embed, pdfId, pages, 0)
  }

  /** Every record belongs to the document and chunk ids are pairwise distinct. */
  lemma RecordsBelongAndAreUnique(split: Splitter, embed: Embedder, pdfId: string, pages: seq<Page>)
    requires BuildRecords(split, embed, pdfId, pages).Success?
    ensures var recs := BuildRecords(split, embed, pdfId, pages).value;
      && (forall k :: 0 <= k < |recs| ==> recs[k].pdfId == pdfId)
      && (forall a, b :: 0 <= a < b < |recs| ==> recs[a].chunkId != recs[b].chunkId)
  {
    var recs := BuildRecords(split, embed, pdfId, pages).value;
    BuildBuiltFrom(split, embed, pdfId, pages, 0);
    forall a, b | 0 <= a < b < |recs|
      ensures recs[a].chunkId != recs[b].chunkId
    {
      if recs[a].chunkId == recs[b].chunkId {
        ChunkIdInjective(pdfId, a, b);
      }
    }
  }

  /** The chunks of a concatenation of page lists are those of the first list followed
      by those of the second. */
  lemma {:induction false} OriginsConcat(split: Splitter, a: seq<Page>, b: seq<Page>)
    ensures Origins(split, a + b) == Origins(split, a) + Origins(split, b)
  {
    if a != [] {
      assert (a + b)[1..] == a[1..] + b;
      OriginsConcat(split, a[1..], b);
    } else {
      assert a + b == b;
    }
  }

  lemma ThenUnit(y: Result<seq<Record>, IngestError>)
    ensures Then(Success([]), y) == y
  {
    if y.Success? {
      assert [] + y.value == y.value;
    }
  }

  /** The inductive step of `BuildConcat`, given its hypothesis for `a[1..]`. */
  lemma BuildConcatStep(split: Splitter, embed: Embedder, pdfId: string, a: seq<Page>, b: seq<Page>, next: nat)
    requires a != []
    requires var n1 := next + |split(a[0].text)|;
      Build(split, embed, pdfId, a[1..] + b, n1)
      == Then(Build(split, embed, pdfId, a[1..], n1), Build(split, embed, pdfId, b, n1 + |Origins(split, a[1..])|))
    ensures Build(split, embed, pdfId, a + b, next)
         == Then(Build(split, embed, pdfId, a, next), Build(split, embed, pdfId, b, next + |Origins(split, a)|))
  {
    var n1 := next + |split(a[0].text)|;
    var x := PageResult(split, embed, pdfId, a[0], next);
    var ya := Build(split, embed, pdfId, a[1..], n1);
    var yb := Build(split, embed, pdfId, b, n1 + |Origins(split, a[1..])|);
    assert (a + b)[0] == a[0];
    assert (a + b)[1..] == a[1..] + b;
    assert n1 + |Origins(split, a[1..])| == next + |Origins(split, a)|;
    calc {
      Build(split, embed, pdfId, a + b, next);
      { BuildCons(split, embed, pdfId, a + b, next); }
      Then(x, Then(ya, yb));
      { ThenAssociative(x, ya, yb); }
      Then(Then(x, ya), yb);
      { BuildCons(split, embed, pdfId, a, next); }
      Then(Build(split, embed, pdfId, a, next), yb);
    }
  }

  /** Building the records of `a + b` builds those of `a`, then those of `b` with the
      counter advanced past `a`'s chunks, and stops at the first failing page. */
  lemma {:induction false} BuildConcat(split: Splitter, embed: Embedder, pdfId: string,
                                       a: seq<Page>, b: seq<Page>, next: nat)
    ensures Build(split, embed, pdfId, a + b, next)
         == Then(Build(split, embed, pdfId, a, next), Build(split, embed, pdfId, b, next + |Origins(split, a)|))
  {
    if a == [] {
      assert a + b == b;
      ThenUnit(Build(split, embed, pdfId, b, next));
    } else {
      BuildConcat(split, embed, pdfId, a[1..], b, next + |split(a[0].text)|);
      BuildConcatStep(split, embed, pdfId, a, b, next);
    }
  }

  /** A page without chunks is skipped without advancing the counter. */
  lemma BuildSkipsChunkless(split: Splitter, embed: Embedder, pdfId: string, p: Page, b: seq<Page>, next: nat)
    requires split(p.text) == []
    ensures Build(split, embed, pdfId, [p] + b, next) == Build(split, embed, pdfId, b, next)
  {
    assert ([p] + b)[0] == p && ([p] + b)[1..] == b;
    BuildCons(split, embed, pdfId, [p] + b, next);
    ThenUnit(Build(split, embed, pdfId, b, next));
  }

  /** A page without chunks contributes no records and does not advance the counter:
      the records are the same as if the page were absent. */
  lemma ChunklessPageContributesNothing(split: Splitter, embed: Embedder, pdfId: string,
                                        a: seq<Page>, p: Page, b: seq<Page>)
    requires split(p.text) == []
    ensures BuildRecords(split, embed, pdfId, a + [p] + b) == BuildRecords(split, embed, pdfId, a + b)
  {
    var n := |Origins(split, a)|;
    assert a + [p] + b == a + ([p] + b);
    calc {
      Build(split, embed, pdfId, a + ([p] + b), 0);
      { BuildConcat(split, embed, pdfId, a, [p] + b, 0); }
      Then(Build(split, embed, pdfId, a, 0), Build(split, embed, pdfId, [p] + b, n));
      { BuildSkipsChunkless(split, embed, pdfId, p, b, n); }
      Then(Build(split, embed, pdfId, a, 0), Build(split, embed, pdfId, b, n));
      { BuildConcat(split, embed, pdfId, a, b, 0); }
      Build(split, embed, pdfId, a + b, 0);
    }
  }

  /** The chunk collection, in insertion order. */
  type Store = seq<Record>

  /** `coll.find({"pdf_id": pdfId})`, in the order the records were inserted. */
  function Find(store: Store, pdfId: string): (r: seq<Record>)
    ensures forall k :: 0 <= k < |r| ==> r[k].pdfId == pdfId
  {
    if store == [] then []
    else
      var rest := Find(store[1..], pdfId);
      if store[0].pdfId == pdfId then [store[0]] + rest else rest
  }

  /** `coll.delete_many({"pdf_id": pdfId})`. */
  function DeleteMany(store: Store, pdfId: string): (r: Store)
    ensures forall k :: 0 <= k < |r| ==> r[k].pdfId != pdfId
  {
    if store == [] then []
    else
      var rest := DeleteMany(store[1..], pdfId);
      if store[0].pdfId == pdfId then rest else [store[0]] + rest
  }

  /** `find` returns every stored record of the document and nothing else. */
  lemma {:induction false} FindSelects(store: Store, pdfId: string)
    ensures forall x :: x in Find(store, pdfId) <==> x in store && x.pdfId == pdfId
  {
    if store != [] {
      FindSelects(store[1..], pdfId);
      assert forall x :: x in store <==> x == store[0] || x in store[1..];
    }
  }

  /** `delete_many` keeps every record of other documents and nothing of this one. */
  lemma {:induction false} DeleteManySelects(store: Store, pdfId: string)
    ensures forall x :: x in DeleteMany(store, pdfId) <==> x in store && x.pdfId != pdfId
  {
    if store != [] {
      DeleteManySelects(store[1..], pdfId);
      assert forall x :: x in store <==> x == store[0] || x in store[1..];
    }
  }

  lemma {:induction false} FindConcat(a: Store, b: Store, pdfId: string)
    ensures Find(a + b, pdfId) == Find(a, pdfId) + Find(b, pdfId)
  {
    if a != [] {
      assert (a + b)[1..] == a[1..] + b;
      FindConcat(a[1..], b, pdfId);
    } else {
      assert a + b == b;
    }
  }

  /** After `delete_many` the document has no records and every other document keeps
      exactly its records. */
  lemma {:induction false} FindAfterDelete(store: Store, pdfId: string, other: string)
    ensures Find(DeleteMany(store, pdfId), pdfId) == []
    ensures other != pdfId ==> Find(DeleteMany(store, pdfId), other) == Find(store, other)
  {
    if store != [] {
      FindAfterDelete(store[1..], pdfId, other);
    }
  }

  lemma {:induction false} FindOwnRecords(docs: seq<Record>, pdfId: string, other: string)
    requires forall k :: 0 <= k < |docs| ==> docs[k].pdfId == pdfId
    ensures Find(docs, pdfId) == docs
    ensures other != pdfId ==> Find(docs, other) == []
  {
    if docs != [] {
      FindOwnRecords(docs[1..], pdfId, other);
    }
  }

  /** Storing freshly built records: with `upsert` the document's old records are
      deleted first. The document then holds the new records (after its old ones when
      not upserting) and every other document is untouched. */
  function Write(store: Store, pdfId: string, docs: seq<Record>, upsert: bool): (r: Store)
    requires forall k :: 0 <= k < |docs| ==> docs[k].pdfId == pdfId
    ensures Find(r, pdfId) == (if upsert then docs else Find(store, pdfId) + docs)
    ensures forall other :: other != pdfId ==> Find(r, other) == Find(store, other)
  {
    var kept := if upsert then DeleteMany(store, pdfId) else store;
    var after := if docs != [] then kept + docs else kept;
    assert after == kept + docs;
    FindConcat(kept, docs, pdfId);
    FindOwnRecords(docs, pdfId, pdfId);
    FindAfterDelete(store, pdfId, pdfId);
    assert forall other :: other != pdfId ==> Find(after, other) == Find(store, other) by {
      forall other | other != pdfId
        ensures Find(after, other) == Find(store, other)
      {
        FindConcat(kept, docs, other);
        FindOwnRecords(docs, pdfId, other);
        FindAfterDelete(store, pdfId, other);
      }
    }
    after
  }

  /** `ingest_pdf(pdf_path, pdf_id, upsert)` on the extracted `pages`, splitting with
      `split`: build all records first, then update the store, so a failure leaves
      the store as it was. */
  function IngestWith(split: Splitter, embed: Embedder, store: Store, pdfId: string, pages: seq<Page>, upsert: bool)
    : (r: Result<Store, IngestError>)
    ensures r.Success? <==> EmbedsAll(split, embed, pages)
    ensures r.Success? ==>
      && BuildRecords(split, embed, pdfId, pages).Success?
      && var docs := BuildRecords(split, embed, pdfId, pages).value;
      && Find(r.value, pdfId) == (if upsert then docs else Find(store, pdfId) + docs)
      && forall other :: other != pdfId ==> Find(r.value, other) == Find(store, other)
  {
    BuildSucceeds(split, embed, pdfId, pages, 0);
    match BuildRecords(split, embed, pdfId, pages)
    case Failure(e) => Failure(e)
    case Success(docs) =>
      RecordsBelongAndAreUnique(split, embed, pdfId, pages);
      Success(Write(store, pdfId, docs, upsert))
  }

  /** With `chunk_text`'s defaults every record holds one chunk: non-empty, stripped
      and at most 500 characters long. */
  lemma DefaultRecordsAreChunks(embed: Embedder, pdfId: string, pages: seq<Page>)
    requires BuildRecords(DefaultSplitter, embed, pdfId, pages).Success?
    ensures var recs := BuildRecords(DefaultSplitter, embed, pdfId, pages).value;
      forall k :: 0 <= k < |recs| ==>
        recs[k].text != [] && IsStripped(recs[k].text) && |recs[k].text| <= Chunker.DefaultMaxChars
  {
    var recs := BuildRecords(DefaultSplitter, embed, pdfId, pages).value;
    var os := Origins(DefaultSplitter, pages);
    BuildBuiltFrom(DefaultSplitter, embed, pdfId, pages, 0);
    forall k | 0 <= k < |recs|
      ensures recs[k].text != [] && IsStripped(recs[k].text) && |recs[k].text| <= Chunker.DefaultMaxChars
    {
      var t := os[k].page.text;
      assert recs[k].text == DefaultSplitter(t)[os[k].index];
      assert DefaultSplitter(t) == Chunker.Chunks(t, Chunker.DefaultMaxChars, Chunker.DefaultOverlap);
      Chunker.ChunksComeFromWindows(t, Chunker.DefaultMaxChars, Chunker.DefaultOverlap);
    }
  }

  /** `ingest_pdf` with its chunker, `chunk_text(text)`: the facts of `IngestWith` for
      that splitter, and every record it stores is a chunk of at most 500 characters. */
  function IngestPdf(embed: Embedder, store: Store, pdfId: string, pages: seq<Page>, upsert: bool)
    : (r: Result<Store, IngestError>)
    ensures r.Success? <==> EmbedsAll(DefaultSplitter, embed, pages)
    ensures r.Success? ==>
      && BuildRecords(DefaultSplitter, embed, pdfId, pages).Success?
      && var docs := BuildRecords(DefaultSplitter, embed, pdfId, pages).value;
      && Find(r.value, pdfId) == (if upsert then docs else Find(store, pdfId) + docs)
      && (forall other :: other != pdfId ==> Find(r.value, other) == Find(store, other))
      && forall k :: 0 <= k < |docs| ==>
           docs[k].text != [] && IsStripped(docs[k].text) && |docs[k].text| <= Chunker.DefaultMaxChars
  {
    var r := IngestWith(DefaultSplitter, embed, store, pdfId, pages, upsert);
    if r.Success? then
      DefaultRecordsAreChunks(embed, pdfId, pages);
      r
    else r
  }
}
