/**
 What a BM25 score is, with its numbers written out: k1 = 1.2, b = 0.75 and the formula that relates
 the score to term frequency, document length and document frequency.
 */
module Bm25Laws {
  import opened Corpora
  import opened Bm25
  import opened Postings

  // ---------------------------------------------------------------- one contribution

  lemma DenominatorIs(tf: nat, dl: nat, avg: real)
    requires avg > 0.0
    ensures (Denominator(tf, dl, avg) - tf as real - 0.3) * avg == 0.9 * dl as real
  {
    var q := 0.75 * dl as real / avg;
    assert q * avg == 0.75 * dl as real;
    assert Denominator(tf, dl, avg) == tf as real + 1.2 * (0.25 + q);
    assert Denominator(tf, dl, avg) - tf as real - 0.3 == 1.2 * q;
  }

  /** A document of average length adds 1.2 to the term frequency. */
  lemma DenominatorAtAverage(tf: nat, dl: nat, avg: real)
    requires avg > 0.0 && dl as real == avg
    ensures Denominator(tf, dl, avg) == tf as real + 1.2
  {
    DenominatorIs(tf, dl, avg);
  }

  /** Each further token in the document adds 0.9 over the average length. */
  lemma DenominatorSlope(tf: nat, dl: nat, avg: real)
    requires avg > 0.0
    ensures (Denominator(tf, dl + 1, avg) - Denominator(tf, dl, avg)) * avg == 0.9
  {
    DenominatorIs(tf, dl, avg);
    DenominatorIs(tf, dl + 1, avg);
  }

  lemma ContributionIs(idf: real, tf: nat, dl: nat, avg: real)
    requires avg > 0.0
    ensures Contribution(idf, tf, dl, avg) * Denominator(tf, dl, avg) == idf * (2.2 * tf as real)
  {
    var n, d := idf * (tf as real * (K1 + 1.0)), Denominator(tf, dl, avg);
    assert n / d * d == n;
  }

  /** Equal positive products: the larger factor goes with the smaller one. */
  lemma OrderFromProducts(p: real, q: real, y: real, z: real)
    requires 0.0 < y < z && p * y == q * z && p * y > 0.0
    ensures q < p
  {
    ProductSign(q, z);
    assert (p - q) * y == q * (z - y);
    ProductSign(z - y, q);
    ProductSign(p - q, y);
  }

  lemma SmallerQuotient(x: real, y: real, z: real)
    requires x > 0.0 && 0.0 < y < z
    ensures x / z < x / y
  {
    var p, q := x / y, x / z;
    assert p * y == x && q * z == x;
    OrderFromProducts(p, q, y, z);
  }

  lemma DenominatorGrows(tf: nat, dl: nat, dl': nat, avg: real)
    requires avg > 0.0 && dl < dl'
    ensures Denominator(tf, dl, avg) < Denominator(tf, dl', avg)
  {
    DenominatorIs(tf, dl, avg);
    DenominatorIs(tf, dl', avg);
    var a, b := Denominator(tf, dl, avg), Denominator(tf, dl', avg);
    assert (b - a) * avg == 0.9 * (dl' - dl) as real;
    ProductSign(b - a, avg);
  }

  /** Of two documents with the same count of a term, the longer one scores strictly lower. */
  lemma LongerScoresLower(idf: real, tf: nat, dl: nat, dl': nat, avg: real)
    requires idf > 0.0 && tf >= 1 && avg > 0.0 && dl < dl'
    ensures Contribution(idf, tf, dl', avg) < Contribution(idf, tf, dl, avg)
  {
    DenominatorGrows(tf, dl, dl', avg);
    ProductSign(idf, tf as real * (K1 + 1.0));
    SmallerQuotient(idf * (tf as real * (K1 + 1.0)), Denominator(tf, dl, avg), Denominator(tf, dl', avg));
  }

  // ---------------------------------------------------------------- rarity

  lemma IdfArgumentIs(totalDocs: nat, df: nat)
    ensures IdfArgument(totalDocs, df) * (df as real + 0.5) == totalDocs as real + 1.0
  {
    QuotientPlusOne(totalDocs as real - df as real + 0.5, df as real + 0.5);
  }

  /** The rarer of two terms has the larger argument. */
  lemma RarerIsHeavier(totalDocs: nat, df: nat, df': nat)
    requires df < df'
    ensures IdfArgument(totalDocs, df') < IdfArgument(totalDocs, df)
  {
    IdfArgumentIs(totalDocs, df);
    IdfArgumentIs(totalDocs, df');
    IdfArgumentIff(totalDocs, df);
    OrderFromProducts(IdfArgument(totalDocs, df), IdfArgument(totalDocs, df'), df as real + 0.5, df' as real + 0.5);
  }

  // ---------------------------------------------------------------- the score of a document

  /**
   A score x of a document with tf occurrences of the term among dl tokens, where df of n counted
   documents have the term and all have len tokens together.
   */
  ghost predicate IsBm25(ln: Log, x: real, tf: nat, dl: nat, df: nat, n: nat, len: nat, argument: real, norm: real)
  {
    && argument * (df as real + 0.5) == n as real + 1.0
    && (norm - tf as real - 0.3) * len as real == 0.9 * dl as real * n as real
    && x * norm == ln(argument) * (2.2 * tf as real)
    && norm > 0.0
  }

  /** One term and one document, without reference to how the score is computed. */
  lemma TermScoreIs(ln: Log, c: Corpus, t: Term, d: DocKey)
    requires Positive(c.docs) && d in c.docs && t in c.docs[d]
    ensures exists argument, norm ::
              IsBm25(ln, TermScore(ln, c, t, d), c.docs[d][t], DocLength(c.docs[d]), |Expected(c.docs, t)|,
                     DocCount(c), TotalLength(c.docs), argument, norm)
  {
    var avg := EffectiveLength(StatsOf(c).avgDl.Value());
    AverageIsReal(c, d, t);
    var idf := Idf(ln, DocCount(c), DocFrequency(c.docs, t));
    var x := Contribution(idf, c.docs[d][t], DocLength(c.docs[d]), avg);
    assert x == TermScore(ln, c, t, d);
    ContributionIsBm25(ln, c.docs[d][t], DocLength(c.docs[d]), DocFrequency(c.docs, t), DocCount(c),
                       TotalLength(c.docs), avg);
  }

  lemma ContributionIsBm25(ln: Log, tf: nat, dl: nat, df: nat, n: nat, len: nat, avg: real)
    requires avg > 0.0 && n > 0 && avg == len as real / n as real
    ensures exists argument, norm ::
              IsBm25(ln, Contribution(Idf(ln, n, df), tf, dl, avg), tf, dl, df, n, len, argument, norm)
  {
    var argument, norm := IdfArgument(n, df), Denominator(tf, dl, avg);
    IdfArgumentIs(n, df);
    ContributionIs(ln(argument), tf, dl, avg);
    NormIs(tf, dl, avg, len, n);
    assert IsBm25(ln, Contribution(Idf(ln, n, df), tf, dl, avg), tf, dl, df, n, len, argument, norm);
  }

  lemma ScanOne(score: Scorer, docs: Forward, t: Term, d: DocKey)
    ensures d in Scan(score, docs, [t]) <==> d in docs && t in docs[d]
    ensures d in Scan(score, docs, [t]) ==> Scan(score, docs, [t])[d] == score(t, d)
  {
    var query := [t];
    assert query[..0] == [] && t in query;
    if d in docs && t in docs[d] {
      assert ScanScore(score, docs[d], query[..0], d) == 0.0;
    }
  }

  /** The brute-force answer to a query of one term scores exactly the documents that have it, by that formula. */
  lemma OneTermScore(ln: Log, c: Corpus, t: Term, d: DocKey)
    requires Positive(c.docs)
    ensures d in BruteScores(ln, c, [t]) <==> d in c.docs && t in c.docs[d]
    ensures d in BruteScores(ln, c, [t]) ==>
              exists argument, norm ::
                IsBm25(ln, BruteScores(ln, c, [t])[d], c.docs[d][t], DocLength(c.docs[d]), |Expected(c.docs, t)|,
                       DocCount(c), TotalLength(c.docs), argument, norm)
  {
    ScanOne(Bm25Scorer(ln, c), c.docs, t, d);
    if d in c.docs && t in c.docs[d] {
      TermScoreIs(ln, c, t, d);
    }
  }

  lemma NormIs(tf: nat, dl: nat, avg: real, len: nat, n: nat)
    requires avg > 0.0 && n > 0 && avg == len as real / n as real
    ensures (Denominator(tf, dl, avg) - tf as real - 0.3) * len as real == 0.9 * dl as real * n as real
  {
    DenominatorIs(tf, dl, avg);
    var x := Denominator(tf, dl, avg) - tf as real - 0.3;
    assert len as real == avg * n as real;
    assert x * (avg * n as real) == x * avg * n as real;
  }

  ghost function ScoreAt(scores: map<DocKey, real>, d: DocKey): real
  {
    if d in scores then scores[d] else 0.0
  }

  lemma {:induction false} ScanScoreAdds(score: Scorer, counts: TermCounts, q: seq<Term>, r: seq<Term>, d: DocKey)
    ensures ScanScore(score, counts, q + r, d) == ScanScore(score, counts, q, d) + ScanScore(score, counts, r, d)
  {
    if r == [] {
      assert q + r == q;
    } else {
      var front := r[..|r| - 1];
      assert (q + r)[..|q + r| - 1] == q + front;
      ScanScoreAdds(score, counts, q, front, d);
    }
  }

  lemma {:induction false} UnsharedScoresZero(score: Scorer, counts: TermCounts, query: seq<Term>, d: DocKey)
    requires !Shares(counts, query)
    ensures ScanScore(score, counts, query, d) == 0.0
  {
    if query != [] {
      SharesFront(counts, query);
      UnsharedScoresZero(score, counts, query[..|query| - 1], d);
    }
  }

  /** A query's scores add up from those of its parts, repeated terms counting again; who is scored is who has a term. */
  lemma BruteScoresAdd(ln: Log, c: Corpus, q: seq<Term>, r: seq<Term>, d: DocKey)
    ensures ScoreAt(BruteScores(ln, c, q + r), d) == ScoreAt(BruteScores(ln, c, q), d) + ScoreAt(BruteScores(ln, c, r), d)
    ensures d in BruteScores(ln, c, q) <==> d in c.docs && exists i | 0 <= i < |q| :: q[i] in c.docs[d]
  {
    var score := Bm25Scorer(ln, c);
    if d in c.docs {
      var counts := c.docs[d];
      ScanScoreAdds(score, counts, q, r, d);
      SharesParts(counts, q, r);
      if !Shares(counts, q) { UnsharedScoresZero(score, counts, q, d); }
      if !Shares(counts, r) { UnsharedScoresZero(score, counts, r, d); }
      assert Shares(counts, q) <==> exists i | 0 <= i < |q| :: q[i] in counts;
    }
  }

  lemma SharesParts(counts: TermCounts, q: seq<Term>, r: seq<Term>)
    ensures Shares(counts, q + r) <==> Shares(counts, q) || Shares(counts, r)
  {
    if t :| t in q && t in counts { assert t in q + r; }
    if t :| t in r && t in counts { assert t in q + r; }
  }
}
