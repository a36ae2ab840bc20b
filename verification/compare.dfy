/** `compare_pdfs`: for each stored chunk of document A, look up the `k` most similar
    chunks of document B, then report the mean score and the matches sorted by score. */
module Compare {
  import Ingest

  /** One vector-search result: a chunk of the other document and its similarity. */
  datatype Hit = Hit(text: string, score: real)

  /** The vector index: the chunks of document `other` ranked by similarity to
      `query`, best first; uninterpreted. */
  type Searcher = (Ingest.Vector, string) -> seq<Hit>

  datatype Match = Match(aChunk: string, bChunk: string, score: real)

  datatype Comparison = Comparison(overall: real, matches: seq<Match>)

  /** `search_similar(vector, other_pdf_id, k)`: the first `k` ranked hits. */
  function SearchSimilar(search: Searcher, query: Ingest.Vector, other: string, k: nat): (r: seq<Hit>)
    ensures |r| <= k
    ensures r <= search(query, other)
    ensures |r| == k || r == search(query, other)
  {
    var hits := search(query, other);
    if |hits| <= k then hits else hits[..k]
  }

  /** The matches the inner loop appends for one record of document A. */
  function DocMatches(search: Searcher, doc: Ingest.Record, other: string, k: nat): (ms: seq<Match>)
    ensures |ms| <= k
  {
    var hits := SearchSimilar(search, doc.embedding, other, k);
    seq(|hits|, i requires 0 <= i < |hits| => Match(doc.text, hits[i].text, hits[i].score))
  }

  /** All matches in loop order: record by record, each record's hits in rank order. */
  function Collected(search: Searcher, docs: seq<Ingest.Record>, other: string, k: nat): (ms: seq<Match>)
    ensures |ms| <= k * |docs|
  {
    if docs == [] then []
    else
      var last := |docs| - 1;
      assert k * last + k == k * |docs|;
      Collected(search, docs[..last], other, k) + DocMatches(search, docs[last], other, k)
  }

  /** Every collected match pairs the text of a record of A with a hit that the search
      returned for that record's embedding, and carries that hit's score. */
  lemma {:induction false} CollectedFromHits(search: Searcher, docs: seq<Ingest.Record>, other: string, k: nat, j: nat)
    requires j < |Collected(search, docs, other, k)|
    ensures var m := Collected(search, docs, other, k)[j];
      exists d :: 0 <= d < |docs| && m.aChunk == docs[d].text
        && Hit(m.bChunk, m.score) in SearchSimilar(search, docs[d].embedding, other, k)
  {
    var last := |docs| - 1;
    var front := Collected(search, docs[..last], other, k);
    if j < |front| {
      CollectedFromHits(search, docs[..last], other, k, j);
      var m := front[j];
      var d :| 0 <= d < last && m.aChunk == docs[..last][d].text
        && Hit(m.bChunk, m.score) in SearchSimilar(search, docs[..last][d].embedding, other, k);
      assert docs[..last][d] == docs[d];
    } else {
      var hits := SearchSimilar(search, docs[last].embedding, other, k);
      assert hits[j - |front|] == Hit(Collected(search, docs, other, k)[j].bChunk, Collected(search, docs, other, k)[j].score);
    }
  }

  /** Conversely, every hit the search returns for a record of A becomes a match
      pairing that record's text with the hit. */
  lemma {:induction false} HitsAreCollected(search: Searcher, docs: seq<Ingest.Record>, other: string, k: nat,
                                            d: nat, i: nat)
    requires d < |docs| && i < |SearchSimilar(search, docs[d].embedding, other, k)|
    ensures var h := SearchSimilar(search, docs[d].embedding, other, k)[i];
      Match(docs[d].text, h.text, h.score) in Collected(search, docs, other, k)
  {
    var last := |docs| - 1;
    var front := Collected(search, docs[..last], other, k);
    var own := DocMatches(search, docs[last], other, k);
    assert Collected(search, docs, other, k) == front + own;
    if d < last {
      assert docs[..last][d] == docs[d];
      HitsAreCollected(search, docs[..last], other, k, d, i);
    } else {
      assert own[i] in front + own;
    }
  }

  function Scores(ms: seq<Match>): (ss: seq<real>)
    ensures |ss| == |ms|
    ensures forall i :: 0 <= i < |ms| ==> ss[i] == ms[i].score
  {
    seq(|ms|, i requires 0 <= i < |ms| => ms[i].score)
  }

  /** The two loops of `compare_pdfs`, building `matches` and `scores` side by side. */
  method CollectMatches(search: Searcher, docs: seq<Ingest.Record>, other: string, k: nat)
    returns (matches: seq<Match>, scores: seq<real>)
    ensures matches == Collected(search, docs, other, k)
    ensures scores == Scores(matches)
  {
    matches, scores := [], [];
    var d := 0;
    while d < |docs|
      invariant 0 <= d <= |docs|
      invariant matches == Collected(search, docs[..d], other, k)
      invariant scores == Scores(matches)
    {
      var doc := docs[d];
      var results := SearchSimilar(search, doc.embedding, other, k);
      ghost var before := matches;
      var i := 0;
      while i < |results|
        invariant 0 <= i <= |results|
        invariant matches == before + DocMatches(search, doc, other, k)[..i]
        invariant scores == Scores(matches)
      {
        var r := results[i];
        matches := matches + [Match(doc.text, r.text, r.score)];
        scores := scores + [r.score];
        i := i + 1;
      }
      assert DocMatches(search, doc, other, k)[..i] == DocMatches(search, doc, other, k);
      assert docs[..d + 1][..d] == docs[..d];
      d := d + 1;
    }
    assert docs[..d] == docs;
  }

  function Sum(xs: seq<real>): (total: real) {
    if xs == [] then 0.0 else Sum(xs[..|xs| - 1]) + xs[|xs| - 1]
  }

  /** `sum(scores)/len(scores) if scores else 0`. */
  function Mean(xs: seq<real>): (m: real)
    ensures xs != [] ==> m * |xs| as real == Sum(xs)
    ensures xs == [] ==> m == 0.0
  {
    if xs == [] then 0.0 else Sum(xs) / |xs| as real
  }

  lemma {:induction false} SumBounds(xs: seq<real>, lo: real, hi: real)
    requires forall i :: 0 <= i < |xs| ==> lo <= xs[i] <= hi
    ensures |xs| as real * lo <= Sum(xs) <= |xs| as real * hi
  {
    if xs != [] {
      SumBounds(xs[..|xs| - 1], lo, hi);
    }
  }

  /** The mean of non-empty scores lies between their least and greatest value. */
  lemma MeanBounds(xs: seq<real>, lo: real, hi: real)
    requires xs != []
    requires forall i :: 0 <= i < |xs| ==> lo <= xs[i] <= hi
    ensures lo <= Mean(xs) <= hi
  {
    SumBounds(xs, lo, hi);
    DivideBounds(Sum(xs), |xs| as real, lo, hi);
  }

  /** Dividing a value between `n * lo` and `n * hi` by a positive `n`. */
  lemma DivideBounds(total: real, n: real, lo: real, hi: real)
    requires 0.0 < n && n * lo <= total <= n * hi
    ensures lo <= total / n <= hi
  {
    assert total / n - lo == (total - n * lo) / n;
    assert hi - total / n == (n * hi - total) / n;
  }

  /** Scores are in non-increasing order. */
  predicate Sorted(ms: seq<Match>) {
    forall i, j :: 0 <= i < j < |ms| ==> ms[i].score >= ms[j].score
  }

  /** The matches whose score is `s`, in their order in `ms`. */
  function WithScore(ms: seq<Match>, s: real): (r: seq<Match>)
    ensures |r| <= |ms|
  {
    if ms == [] then []
    else if ms[0].score == s then [ms[0]] + WithScore(ms[1..], s)
    else WithScore(ms[1..], s)
  }

  /** Insert `m` into `ms` before the first match scoring no more than `m`. */
  function Insert(m: Match, ms: seq<Match>): (r: seq<Match>)
    ensures multiset(r) == multiset(ms) + multiset{m}
  {
    if ms == [] || ms[0].score <= m.score then [m] + ms
    else
      assert ms == [ms[0]] + ms[1..];
      [ms[0]] + Insert(m, ms[1..])
  }

  /** No match in `ms` scores above `v`. */
  predicate AtMost(ms: seq<Match>, v: real) {
    forall i :: 0 <= i < |ms| ==> ms[i].score <= v
  }

  lemma SortedCons(x: Match, ms: seq<Match>)
    requires Sorted(ms) && AtMost(ms, x.score)
    ensures Sorted([x] + ms)
  {
    var r := [x] + ms;
    forall i, j | 0 <= i < j < |r|
      ensures r[i].score >= r[j].score
    {
      assert r[j] == ms[j - 1];
      if i > 0 {
        assert r[i] == ms[i - 1];
      }
    }
  }

  lemma {:induction false} InsertAtMost(m: Match, ms: seq<Match>, v: real)
    requires AtMost(ms, v) && m.score <= v
    ensures AtMost(Insert(m, ms), v)
  {
    if !(ms == [] || ms[0].score <= m.score) {
      InsertAtMost(m, ms[1..], v);
      var r := Insert(m, ms);
      assert r == [ms[0]] + Insert(m, ms[1..]);
      forall i | 0 <= i < |r|
        ensures r[i].score <= v
      {
        if i > 0 {
          assert r[i] == Insert(m, ms[1..])[i - 1];
        }
      }
    }
  }

  lemma {:induction false} InsertSorted(m: Match, ms: seq<Match>)
    requires Sorted(ms)
    ensures Sorted(Insert(m, ms))
  {
    if ms == [] || ms[0].score <= m.score {
      SortedCons(m, ms);
    } else {
      InsertSorted(m, ms[1..]);
      assert AtMost(ms[1..], ms[0].score) by {
        forall i | 0 <= i < |ms[1..]|
          ensures ms[1..][i].score <= ms[0].score
        {
          assert ms[1..][i] == ms[i + 1];
        }
      }
      InsertAtMost(m, ms[1..], ms[0].score);
      SortedCons(ms[0], Insert(m, ms[1..]));
    }
  }

  /** Inserting `m` keeps the relative order of equal-score matches and puts `m` first
      among those equal to it. */
  lemma {:induction false} InsertStable(m: Match, ms: seq<Match>, s: real)
    ensures WithScore(Insert(m, ms), s) == if m.score == s then [m] + WithScore(ms, s) else WithScore(ms, s)
  {
    if ms == [] || ms[0].score <= m.score {
      assert ([m] + ms)[1..] == ms;
    } else {
      var r := [ms[0]] + Insert(m, ms[1..]);
      assert r[1..] == Insert(m, ms[1..]);
      InsertStable(m, ms[1..], s);
    }
  }

  /** `sorted(matches, key=score, reverse=True)`, a stable sort. */
  function SortByScore(ms: seq<Match>): (r: seq<Match>)
    ensures multiset(r) == multiset(ms)
    ensures Sorted(r)
  {
    if ms == [] then []
    else
      assert ms == [ms[0]] + ms[1..];
      InsertSorted(ms[0], SortByScore(ms[1..]));
      Insert(ms[0], SortByScore(ms[1..]))
  }

  /** The sort is stable: for every score, the matches with that score keep their order. */
  lemma {:induction false} SortStable(ms: seq<Match>, s: real)
    ensures WithScore(SortByScore(ms), s) == WithScore(ms, s)
  {
    if ms != [] {
      SortStable(ms[1..], s);
      InsertStable(ms[0], SortByScore(ms[1..]), s);
    }
  }

  /** `compare_pdfs(pdf_id_a, pdf_id_b, k)` over `store`. */
  function ComparePdfs(search: Searcher, store: Ingest.Store, a: string, b: string, k: nat): (c: Comparison)
    ensures c.overall == Mean(Scores(Collected(search, Ingest.Find(store, a), b, k)))
    ensures multiset(c.matches) == multiset(Collected(search, Ingest.Find(store, a), b, k))
    ensures Sorted(c.matches)
    ensures forall s :: WithScore(c.matches, s) == WithScore(Collected(search, Ingest.Find(store, a), b, k), s)
    ensures |c.matches| <= k * |Ingest.Find(store, a)|
  {
    var ms := Collected(search, Ingest.Find(store, a), b, k);
    assert |multiset(ms)| == |ms|;
    forall s ensures WithScore(SortByScore(ms), s) == WithScore(ms, s) {
      SortStable(ms, s);
    }
    Comparison(Mean(Scores(ms)), SortByScore(ms))
  }

  /** The method form of `compare_pdfs`, mirroring its loops. */
  method ComparePdfsLoop(search: Searcher, store: Ingest.Store, a: string, b: string, k: nat) returns (c: Comparison)
    ensures c == ComparePdfs(search, store, a, b, k)
  {
    var docs := Ingest.Find(store, a);
    var matches, scores := CollectMatches(search, docs, b, k);
    var overall := if |scores| > 0 then Sum(scores) / |scores| as real else 0.0;
    c := Comparison(overall, SortByScore(matches));
  }
}
