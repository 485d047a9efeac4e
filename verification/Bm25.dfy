/**
 BM25 scores over a corpus: the brute-force reference, the pruned form the engine computes, and
 the ranking of a score table. Reals stand for floating point and `ln` is any function that is
 positive above one.
 */
module Bm25 {
  import opened Totals
  import opened Postings
  import opened Corpora

  const K1: real := 1.2
  const B: real := 0.75
  const FALLBACK_LENGTH: real := 100.0
  const PRUNE_LIMIT: nat := 5000

  type Log = real -> real

  ghost predicate LogLike(ln: Log)
  {
    forall x: real | x > 1.0 :: ln(x) > 0.0
  }

  /** The sign of a logarithm. */
  ghost predicate Logarithm(ln: Log)
  {
    forall x: real | x > 0.0 :: (ln(x) > 0.0 <==> x > 1.0) && (ln(x) < 0.0 <==> x < 1.0)
  }

  // ---------------------------------------------------------------- one contribution

  function EffectiveLength(avgDl: real): (r: real)
    ensures r > 0.0
  {
    if avgDl > 0.0 then avgDl else FALLBACK_LENGTH
  }

  function IdfArgument(totalDocs: nat, df: nat): real
  {
    (totalDocs as real - df as real + 0.5) / (df as real + 0.5) + 1.0
  }

  function Idf(ln: Log, totalDocs: nat, df: nat): real
  {
    ln(IdfArgument(totalDocs, df))
  }

  lemma QuotientPositive(x: real, y: real)
    requires x >= 0.0 && y > 0.0
    ensures x / y >= 0.0
    ensures x > 0.0 ==> x / y > 0.0
  {
  }

  function Denominator(tf: nat, dl: nat, avg: real): (r: real)
    requires avg > 0.0
    ensures r > tf as real
  {
    QuotientPositive(B * dl as real, avg);
    tf as real + K1 * (1.0 - B + B * dl as real / avg)
  }

  function Contribution(idf: real, tf: nat, dl: nat, avg: real): real
    requires avg > 0.0
  {
    idf * (tf as real * (K1 + 1.0)) / Denominator(tf, dl, avg)
  }

  /** Each contribution is positive, and the term frequency saturates below idf * (k1 + 1). */
  lemma ContributionBounds(idf: real, tf: nat, dl: nat, avg: real)
    requires idf > 0.0 && tf >= 1 && avg > 0.0
    ensures 0.0 < Contribution(idf, tf, dl, avg) < idf * (K1 + 1.0)
  {
  }

  lemma ContributionSign(idf: real, tf: nat, dl: nat, avg: real)
    requires tf >= 1 && avg > 0.0
    ensures Contribution(idf, tf, dl, avg) < 0.0 <==> idf < 0.0
  {
    QuotientSign(idf * (tf as real * (K1 + 1.0)), Denominator(tf, dl, avg));
    ProductSign(idf, tf as real * (K1 + 1.0));
  }

  lemma QuotientSign(x: real, y: real)
    requires y > 0.0
    ensures x / y < 0.0 <==> x < 0.0
    ensures x / y > 0.0 <==> x > 0.0
  {
    assert x == x / y * y;
  }

  lemma ProductSign(x: real, y: real)
    requires y > 0.0
    ensures x * y < 0.0 <==> x < 0.0
    ensures x * y > 0.0 <==> x > 0.0
  {
  }

  lemma QuotientPlusOne(x: real, y: real)
    requires y > 0.0
    ensures (x / y + 1.0) * y == x + y
  {
    assert x == x / y * y;
  }

  /** The logarithm always has an argument; it is above one exactly when there are no more entries than documents. */
  lemma IdfArgumentIff(totalDocs: nat, df: nat)
    ensures IdfArgument(totalDocs, df) > 0.0
    ensures IdfArgument(totalDocs, df) > 1.0 <==> df <= totalDocs
    ensures IdfArgument(totalDocs, df) < 1.0 <==> df > totalDocs
  {
    var x, y := totalDocs as real - df as real + 0.5, df as real + 0.5;
    QuotientSign(x, y);
    QuotientPlusOne(x, y);
    ProductSign(x / y + 1.0, y);
    assert df > totalDocs ==> df >= totalDocs + 1;
  }

  // ---------------------------------------------------------------- scores over a corpus

  ghost function DocFrequency(docs: Forward, t: Term): nat
  {
    |Expected(docs, t)|
  }

  /** What one occurrence of a query term adds to the score of a document that has it. */
  ghost function TermScore(ln: Log, c: Corpus, t: Term, d: DocKey): real
    requires d in c.docs && t in c.docs[d]
  {
    Contribution(Idf(ln, DocCount(c), DocFrequency(c.docs, t)), c.docs[d][t], DocLength(c.docs[d]),
                 EffectiveLength(StatsOf(c).avgDl.Value()))
  }

  lemma FrequencyAtMostDocs(c: Corpus, t: Term)
    ensures DocFrequency(c.docs, t) <= |c.docs| <= DocCount(c)
  {
    var keys := Expected(c.docs, t).Keys;
    assert keys <= c.docs.Keys;
    SubsetSize(keys, c.docs.Keys);
  }

  lemma {:induction false} SubsetSize<T>(a: set<T>, b: set<T>)
    requires a <= b
    ensures |a| <= |b|
    decreases a
  {
    if a != {} {
      var x :| x in a;
      SubsetSize(a - {x}, b - {x});
    }
  }

  /** A corpus with one token in it has a positive average length, so the fallback is out of play. */
  lemma AverageIsReal(c: Corpus, d: DocKey, t: Term)
    requires Positive(c.docs) && d in c.docs && t in c.docs[d]
    ensures StatsOf(c).avgDl.Value() > 0.0
    ensures EffectiveLength(StatsOf(c).avgDl.Value()) == TotalLength(c.docs) as real / DocCount(c) as real
  {
    TotalRemove(c.docs[d], t);
    TotalLengthRemove(c.docs, d);
    QuotientPositive(TotalLength(c.docs) as real, DocCount(c) as real);
  }

  /** Every score of the brute-force reference is well defined: the logarithm's argument is above one and no average is made up. */
  lemma TermScoreBounds(ln: Log, c: Corpus, t: Term, d: DocKey)
    requires LogLike(ln) && Positive(c.docs) && d in c.docs && t in c.docs[d]
    ensures IdfArgument(DocCount(c), DocFrequency(c.docs, t)) > 1.0
    ensures StatsOf(c).avgDl.Value() > 0.0
    ensures 0.0 < TermScore(ln, c, t, d) < Idf(ln, DocCount(c), DocFrequency(c.docs, t)) * (K1 + 1.0)
  {
    FrequencyAtMostDocs(c, t);
    IdfArgumentIff(DocCount(c), DocFrequency(c.docs, t));
    AverageIsReal(c, d, t);
    ContributionBounds(Idf(ln, DocCount(c), DocFrequency(c.docs, t)), c.docs[d][t], DocLength(c.docs[d]),
                       EffectiveLength(StatsOf(c).avgDl.Value()));
  }

  /** So it is for the reference scores of the corpus that any run of operations makes. */
  lemma ReferenceScoresAfterRun(ln: Log, start: Corpus, ops: seq<Operation>, end: Corpus, t: Term, d: DocKey)
    requires LogLike(ln) && Positive(start.docs) && end == Run(start, ops)
    requires d in end.docs && t in end.docs[d]
    ensures IdfArgument(DocCount(end), DocFrequency(end.docs, t)) > 1.0
    ensures EffectiveLength(StatsOf(end).avgDl.Value()) == TotalLength(end.docs) as real / DocCount(end) as real
    ensures 0.0 < TermScore(ln, end, t, d) < Idf(ln, DocCount(end), DocFrequency(end.docs, t)) * (K1 + 1.0)
  {
    RunPositive(start, ops);
    TermScoreBounds(ln, end, t, d);
    AverageIsReal(end, d, t);
  }

  // ---------------------------------------------------------------- brute force

  /** What an occurrence of a query term adds to the score of a document. */
  type Scorer = (Term, DocKey) -> real

  ghost function Bm25Scorer(ln: Log, c: Corpus): Scorer
  {
    (t, d) => if d in c.docs && t in c.docs[d] then TermScore(ln, c, t, d) else 0.0
  }

  predicate Shares(counts: TermCounts, query: seq<Term>)
  {
    exists t | t in query :: t in counts
  }

  /** One contribution per occurrence of a query term that the document has. */
  ghost function ScanScore(score: Scorer, counts: TermCounts, query: seq<Term>, d: DocKey): real
  {
    if query == [] then 0.0
    else
      var t := query[|query| - 1];
      ScanScore(score, counts, query[..|query| - 1], d) + if t in counts then score(t, d) else 0.0
  }

  /** Scores every document that shares a term with the query. */
  ghost function Scan(score: Scorer, docs: Forward, query: seq<Term>): map<DocKey, real>
  {
    map d | d in docs && Shares(docs[d], query) :: ScanScore(score, docs[d], query, d)
  }

  ghost function BruteScores(ln: Log, c: Corpus, query: seq<Term>): map<DocKey, real>
  {
    Scan(Bm25Scorer(ln, c), c.docs, query)
  }

  // ---------------------------------------------------------------- with pruned posting lists

  /** For each term, the documents whose entries are looked at. */
  type Kept = Term -> set<DocKey>

  ghost predicate KeptOk(docs: Forward, kept: Kept, query: seq<Term>)
  {
    forall t | t in query :: kept(t) <= Expected(docs, t).Keys
  }

  ghost function KeptScore(score: Scorer, kept: Kept, query: seq<Term>, d: DocKey): real
  {
    if query == [] then 0.0
    else
      var t := query[|query| - 1];
      KeptScore(score, kept, query[..|query| - 1], d) + if d in kept(t) then score(t, d) else 0.0
  }

  ghost function Matched(kept: Kept, query: seq<Term>): set<DocKey>
  {
    if query == [] then {}
    else Matched(kept, query[..|query| - 1]) + kept(query[|query| - 1])
  }

  ghost function KeptScores(score: Scorer, kept: Kept, query: seq<Term>): map<DocKey, real>
  {
    map d | d in Matched(kept, query) :: KeptScore(score, kept, query, d)
  }

  lemma SharesFront(counts: TermCounts, query: seq<Term>)
    requires query != []
    ensures Shares(counts, query) <==>
            Shares(counts, query[..|query| - 1]) || query[|query| - 1] in counts
  {
  }

  ghost predicate KeepsAll(docs: Forward, kept: Kept, query: seq<Term>)
  {
    forall t | t in query :: kept(t) == Expected(docs, t).Keys
  }

  lemma {:induction false} KeptIsScan(score: Scorer, docs: Forward, kept: Kept, query: seq<Term>, d: DocKey)
    requires KeepsAll(docs, kept, query)
    ensures d in Matched(kept, query) <==> d in docs && Shares(docs[d], query)
    ensures d in docs ==> KeptScore(score, kept, query, d) == ScanScore(score, docs[d], query, d)
  {
    if query != [] {
      var front, last := query[..|query| - 1], query[|query| - 1];
      assert query == front + [last];
      assert forall t | t in front :: t in query;
      KeptIsScan(score, docs, kept, front, d);
      assert kept(last) == Expected(docs, last).Keys;
      if d in docs {
        SharesFront(docs[d], query);
      }
    }
  }

  /** When nothing is pruned, the engine's scores are those of the scan. */
  lemma KeepsAllGivesScan(score: Scorer, docs: Forward, kept: Kept, query: seq<Term>)
    requires KeepsAll(docs, kept, query)
    ensures KeptScores(score, kept, query) == Scan(score, docs, query)
  {
    var got, want := KeptScores(score, kept, query), Scan(score, docs, query);
    forall d
      ensures d in got <==> d in want
      ensures d in want ==> got[d] == want[d]
    {
      KeptIsScan(score, docs, kept, query, d);
    }
    assert got == want;
  }

  ghost predicate PositiveScorer(score: Scorer, docs: Forward)
  {
    forall d, t | d in docs && t in docs[d] :: score(t, d) > 0.0
  }

  /** Pruning can only lower a score, and lowers it strictly when it drops an entry of the document. */
  lemma {:induction false} KeptAtMostScan(score: Scorer, docs: Forward, kept: Kept, query: seq<Term>, d: DocKey)
    requires PositiveScorer(score, docs) && KeptOk(docs, kept, query) && d in docs
    ensures KeptScore(score, kept, query, d) <= ScanScore(score, docs[d], query, d)
    ensures (exists t | t in query :: t in docs[d] && d !in kept(t))
            ==> KeptScore(score, kept, query, d) < ScanScore(score, docs[d], query, d)
  {
    if query != [] {
      var front, last := query[..|query| - 1], query[|query| - 1];
      assert query == front + [last];
      KeptAtMostScan(score, docs, kept, front, d);
      assert kept(last) <= Expected(docs, last).Keys;
    }
  }

  lemma Bm25ScorerPositive(ln: Log, c: Corpus)
    requires LogLike(ln) && Positive(c.docs)
    ensures PositiveScorer(Bm25Scorer(ln, c), c.docs)
  {
    forall d, t | d in c.docs && t in c.docs[d] ensures Bm25Scorer(ln, c)(t, d) > 0.0 {
      TermScoreBounds(ln, c, t, d);
    }
  }

  /** The two score tables are the same exactly when no entry of a query term is dropped. */
  lemma KeptEqualsScanIff(score: Scorer, docs: Forward, kept: Kept, query: seq<Term>)
    requires PositiveScorer(score, docs) && KeptOk(docs, kept, query)
    ensures KeptScores(score, kept, query) == Scan(score, docs, query) <==> KeepsAll(docs, kept, query)
  {
    var got, want := KeptScores(score, kept, query), Scan(score, docs, query);
    if KeepsAll(docs, kept, query) {
      KeepsAllGivesScan(score, docs, kept, query);
    } else {
      var t :| t in query && kept(t) != Expected(docs, t).Keys;
      assert kept(t) <= Expected(docs, t).Keys;
      var d :| d in Expected(docs, t).Keys && d !in kept(t);
      KeptAtMostScan(score, docs, kept, query, d);
      assert Shares(docs[d], query);
      assert d in want;
      assert got != want;
    }
  }

  // ---------------------------------------------------------------- ranking

  datatype FtsResult = FtsResult(docKey: DocKey, score: real)

  predicate Ranked(rs: seq<FtsResult>)
  {
    forall i, j | 0 <= i < j < |rs| :: rs[i].score >= rs[j].score
  }

  predicate DistinctResults(rs: seq<FtsResult>)
  {
    forall i, j | 0 <= i < j < |rs| :: rs[i].docKey != rs[j].docKey
  }

  predicate Listed(rs: seq<FtsResult>, d: DocKey)
  {
    exists i | 0 <= i < |rs| :: rs[i].docKey == d
  }

  predicate FromScores(rs: seq<FtsResult>, scores: map<DocKey, real>)
  {
    forall i | 0 <= i < |rs| :: rs[i].docKey in scores && scores[rs[i].docKey] == rs[i].score
  }

  /** The best `limit` documents of a score table, best first, ties in any order. */
  predicate TopOf(rs: seq<FtsResult>, scores: map<DocKey, real>, limit: nat)
  {
    && |rs| == (if limit <= |scores| then limit else |scores|)
    && Ranked(rs) && DistinctResults(rs) && FromScores(rs, scores)
    && (forall d, i | d in scores && !Listed(rs, d) && 0 <= i < |rs| :: scores[d] <= rs[i].score)
  }

  function InsertByScore(rs: seq<FtsResult>, r: FtsResult): (out: seq<FtsResult>)
    ensures multiset(out) == multiset(rs) + multiset{r}
    ensures |out| == |rs| + 1
  {
    if rs == [] || r.score > rs[0].score then [r] + rs
    else
      assert rs == [rs[0]] + rs[1..];
      [rs[0]] + InsertByScore(rs[1..], r)
  }

  lemma {:induction false} InsertByScoreRanked(rs: seq<FtsResult>, r: FtsResult)
    requires Ranked(rs)
    ensures Ranked(InsertByScore(rs, r))
  {
    if rs != [] && r.score <= rs[0].score {
      InsertByScoreRanked(rs[1..], r);
      var tail := InsertByScore(rs[1..], r);
      forall j | 0 <= j < |tail| ensures rs[0].score >= tail[j].score {
        assert tail[j] in multiset(tail);
        if tail[j] != r {
          assert tail[j] in multiset(rs[1..]);
          var i :| 0 <= i < |rs[1..]| && rs[1..][i] == tail[j];
          assert rs[i + 1] == tail[j];
        }
      }
    }
  }

  lemma InsertByScoreListed(rs: seq<FtsResult>, r: FtsResult, d: DocKey)
    ensures Listed(InsertByScore(rs, r), d) <==> Listed(rs, d) || r.docKey == d
  {
    var out := InsertByScore(rs, r);
    if Listed(out, d) {
      var i :| 0 <= i < |out| && out[i].docKey == d;
      assert out[i] in multiset(out);
      if out[i] != r {
        assert out[i] in multiset(rs);
        var j :| 0 <= j < |rs| && rs[j] == out[i];
      }
    }
    if Listed(rs, d) {
      var i :| 0 <= i < |rs| && rs[i].docKey == d;
      assert rs[i] in multiset(out);
      var j :| 0 <= j < |out| && out[j] == rs[i];
    }
    assert r in multiset(out);
    var j :| 0 <= j < |out| && out[j] == r;
  }

  lemma DistinctCons(r: FtsResult, rs: seq<FtsResult>)
    ensures DistinctResults([r] + rs) <==> DistinctResults(rs) && !Listed(rs, r.docKey)
    ensures forall d :: Listed([r] + rs, d) <==> Listed(rs, d) || r.docKey == d
  {
    var all := [r] + rs;
    forall i | 0 <= i < |rs| ensures all[i + 1] == rs[i] {}
    if DistinctResults(all) {
      forall i, j | 0 <= i < j < |rs| ensures rs[i].docKey != rs[j].docKey { assert all[i + 1].docKey != all[j + 1].docKey; }
      forall i | 0 <= i < |rs| ensures rs[i].docKey != r.docKey { assert all[0].docKey != all[i + 1].docKey; }
    }
    forall d ensures Listed(all, d) <==> Listed(rs, d) || r.docKey == d {
      assert all[0] == r;
      if Listed(rs, d) {
        var i :| 0 <= i < |rs| && rs[i].docKey == d;
        assert all[i + 1].docKey == d;
      }
    }
  }

  lemma {:induction false} InsertByScoreDistinct(rs: seq<FtsResult>, r: FtsResult)
    requires DistinctResults(rs) && !Listed(rs, r.docKey)
    ensures DistinctResults(InsertByScore(rs, r))
  {
    if rs == [] || r.score > rs[0].score {
      DistinctCons(r, rs);
    } else {
      var rest := rs[1..];
      assert rs == [rs[0]] + rest;
      DistinctCons(rs[0], rest);
      InsertByScoreDistinct(rest, r);
      InsertByScoreListed(rest, r, rs[0].docKey);
      DistinctCons(rs[0], InsertByScore(rest, r));
    }
  }

  lemma InsertByScoreFrom(rs: seq<FtsResult>, r: FtsResult, scores: map<DocKey, real>)
    requires FromScores(rs, scores) && r.docKey in scores && scores[r.docKey] == r.score
    ensures FromScores(InsertByScore(rs, r), scores)
  {
  }

  /** Collects a score table in arbitrary order and sorts it by descending score. */
  method RankAll(scores: map<DocKey, real>) returns (rs: seq<FtsResult>)
    ensures Ranked(rs) && DistinctResults(rs) && FromScores(rs, scores)
    ensures |rs| == |scores| && forall d | d in scores :: Listed(rs, d)
  {
    rs := [];
    var rest := scores.Keys;
    while rest != {}
      invariant rest <= scores.Keys
      invariant |rs| + |rest| == |scores|
      invariant Ranked(rs) && DistinctResults(rs) && FromScores(rs, scores)
      invariant forall d :: Listed(rs, d) <==> d in scores && d !in rest
      decreases rest
    {
      var d :| d in rest;
      var r := FtsResult(d, scores[d]);
      InsertByScoreRanked(rs, r);
      InsertByScoreDistinct(rs, r);
      InsertByScoreFrom(rs, r, scores);
      forall x ensures Listed(InsertByScore(rs, r), x) <==> Listed(rs, x) || x == d { InsertByScoreListed(rs, r, x); }
      rs := InsertByScore(rs, r);
      rest := rest - {d};
    }
  }

  lemma TruncatedIsTop(all: seq<FtsResult>, scores: map<DocKey, real>, limit: nat)
    requires Ranked(all) && DistinctResults(all) && FromScores(all, scores)
    requires |all| == |scores| && forall d | d in scores :: Listed(all, d)
    ensures TopOf(if limit < |all| then all[..limit] else all, scores, limit)
  {
  }

  method Rank(scores: map<DocKey, real>, limit: nat) returns (rs: seq<FtsResult>)
    ensures TopOf(rs, scores, limit)
  {
    var all := RankAll(scores);
    TruncatedIsTop(all, scores, limit);
    rs := if limit < |all| then all[..limit] else all;
  }
}
