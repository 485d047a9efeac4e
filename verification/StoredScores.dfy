/**
 When the scores that a search computes from what is stored are well defined: the document frequency
 is the length of the stored list, stale entries included, and the average is the stored one.
 */
module StoredScores {
  import opened Totals
  import opened Postings
  import opened SegmentLog
  import opened Corpora
  import opened Batches
  import opened Effects
  import opened Bm25
  import opened EngineState

  // ---------------------------------------------------------------- the average

  /** Some document has a token. */
  ghost predicate HasToken(docs: Forward)
  {
    exists d | d in docs :: docs[d] != map[]
  }

  lemma TokenIff(docs: Forward)
    requires Positive(docs)
    ensures TotalLength(docs) > 0 <==> HasToken(docs)
  {
    if d :| d in docs && docs[d] != map[] {
      LengthZeroIff(docs[d]);
      TotalLengthRemove(docs, d);
    } else {
      forall d | d in docs ensures Lengths(docs)[d] == 0 {
        LengthZeroIff(docs[d]);
      }
      TotalZero(Lengths(docs));
    }
  }

  /** The stored average is used exactly when some live document has a token; otherwise the 100.0 fallback is. */
  lemma AverageUsedIff(c: Corpus, stats: FtsStats)
    requires Accurate(c, stats)
    ensures stats.avgDl.Value() > 0.0 <==> HasToken(c.docs)
    ensures EffectiveLength(stats.avgDl.Value())
            == if HasToken(c.docs) then stats.avgDl.Value() else 100.0
  {
    TokenIff(c.docs);
    if HasToken(c.docs) {
      assert c.docs.Keys != {};
      QuotientPositive(TotalLength(c.docs) as real, DocCount(c) as real);
    }
  }

  // ---------------------------------------------------------------- the document frequency

  /** Documents posted under the term that do not have it. */
  ghost function Leftovers(docs: Forward, t: Term, m: PostingMap): set<DocKey>
  {
    set k | k in m && !Has(docs, k, t)
  }

  /** Documents counted in the statistics that do not have the term. */
  ghost function Without(c: Corpus, t: Term): nat
  {
    FrequencyAtMostDocs(c, t);
    DocCount(c) - DocFrequency(c.docs, t)
  }

  lemma PostingCount(docs: Forward, t: Term, m: PostingMap)
    requires Posted(docs, t, m)
    ensures |m| == DocFrequency(docs, t) + |Leftovers(docs, t, m)|
  {
    var live, left := Expected(docs, t).Keys, Leftovers(docs, t, m);
    forall k ensures k in m.Keys <==> k in live || k in left {
      if k in live { assert Has(docs, k, t); }
    }
    assert m.Keys == live + left && live !! left;
  }

  /**
   A live document's score for one of its terms, from what is stored. The logarithm has an argument
   and the average is real; the score is positive and below idf * (k1 + 1) if and only if the term has
   no more stale postings than there are counted documents without it, and otherwise it is negative.
   */
  lemma StoredScoreIff(ln: Log, ix: Index, stats: FtsStats, c: Corpus, t: Term, d: DocKey)
    requires Logarithm(ln) && WellFormed(ix) && Accurate(c, stats)
    requires Posted(c.docs, t, PostingsOf(ix.table, t)) && Has(c.docs, d, t)
    ensures d in PostingsOf(ix.table, t)
    ensures var m := PostingsOf(ix.table, t);
            var argument := IdfArgument(stats.totalDocs, |ReadList(ix.table, t)|);
            var fits := |Leftovers(c.docs, t, m)| <= Without(c, t);
            && argument > 0.0 && (argument > 1.0 <==> fits)
            && stats.avgDl.Value() > 0.0
            && (0.0 < EntryScore(ln, stats, m, d) < ln(argument) * (K1 + 1.0) <==> fits)
            && (EntryScore(ln, stats, m, d) < 0.0 <==> !fits)
  {
    var m := PostingsOf(ix.table, t);
    var df := |ReadList(ix.table, t)|;
    PrunedSubset(ix, t);
    PostingCount(c.docs, t, m);
    FrequencyAtMostDocs(c, t);
    IdfArgumentIff(stats.totalDocs, df);
    assert c.docs[d] != map[];
    AverageUsedIff(c, stats);
    EntrySign(ln, stats, c, t, m, d);
  }

  lemma EntrySign(ln: Log, stats: FtsStats, c: Corpus, t: Term, m: PostingMap, d: DocKey)
    requires Logarithm(ln) && Positive(c.docs) && Posted(c.docs, t, m) && Has(c.docs, d, t)
    ensures var argument := IdfArgument(stats.totalDocs, |m|);
            && (argument > 1.0 ==> 0.0 < EntryScore(ln, stats, m, d) < ln(argument) * (K1 + 1.0))
            && (argument > 0.0 ==> (EntryScore(ln, stats, m, d) < 0.0 <==> argument < 1.0))
  {
    var idf, avg := Idf(ln, stats.totalDocs, |m|), EffectiveLength(stats.avgDl.Value());
    assert m[d] == EntryOf(c.docs, d, t);
    ContributionSign(idf, m[d].termFrequency, m[d].docLength, avg);
    if idf > 0.0 {
      ContributionBounds(idf, m[d].termFrequency, m[d].docLength, avg);
    }
  }

  // ---------------------------------------------------------------- after any run

  /** The documents left over by a run are those whose posting it left unjustified. */
  lemma LeftoversAfterRun(c: Corpus, ops: seq<Operation>, t: Term, m: PostingMap, k: DocKey)
    requires Posted(c.docs, t, m)
    ensures k in Leftovers(Run(c, ops).docs, t, RunPostings(c, ops, t, m))
            <==> StaleAfter(StaleAt(c.docs, t, m, k), ops, k, t)
  {
    RunAt(c, ops, t, m, k);
  }

  /**
   The same after any run of operations, from what the run leaves in storage: every score of a live
   document is positive and bounded if and only if the run left no more of the term's postings
   unjustified than there are counted documents without the term.
   */
  lemma ScoresAfterRunIff(ln: Log, start: Table, c: Corpus, ops: seq<Operation>, ix: Index, stats: FtsStats,
                          t: Term, d: DocKey)
    requires Logarithm(ln) && Covers(c.docs, start) && RanTo(start, c, ops, ix.table) && WellFormed(ix)
    requires Accurate(Run(c, ops), stats) && Has(Run(c, ops).docs, d, t)
    ensures d in PostingsOf(ix.table, t) && stats.avgDl.Value() > 0.0
    ensures var m := PostingsOf(ix.table, t);
            var stale := Leftovers(Run(c, ops).docs, t, m);
            var idf := Idf(ln, stats.totalDocs, |ReadList(ix.table, t)|);
            && (forall k: DocKey :: k in stale <==> StaleAfter(StaleAt(c.docs, t, PostingsOf(start, t), k), ops, k, t))
            && (0.0 < EntryScore(ln, stats, m, d) < idf * (K1 + 1.0) <==> |stale| <= Without(Run(c, ops), t))
            && (EntryScore(ln, stats, m, d) < 0.0 <==> |stale| > Without(Run(c, ops), t))
  {
    var before := PostingsOf(start, t);
    RunKeepsPosted(c, ops, t, before);
    StoredScoreIff(ln, ix, stats, Run(c, ops), t, d);
    forall k: DocKey
      ensures k in Leftovers(Run(c, ops).docs, t, PostingsOf(ix.table, t)) <==> StaleAfter(StaleAt(c.docs, t, before, k), ops, k, t)
    {
      LeftoversAfterRun(c, ops, t, before, k);
    }
  }

  /** In particular for every term without an unjustified posting. */
  lemma SpotlessScores(ln: Log, start: Table, c: Corpus, ops: seq<Operation>, ix: Index, stats: FtsStats,
                       t: Term, d: DocKey)
    requires Logarithm(ln) && Covers(c.docs, start) && RanTo(start, c, ops, ix.table) && WellFormed(ix)
    requires Accurate(Run(c, ops), stats) && d in PostingsOf(ix.table, t) && Spotless(start, c.docs, ops, t)
    ensures |ReadList(ix.table, t)| <= stats.totalDocs && stats.avgDl.Value() > 0.0
    ensures 0.0 < EntryScore(ln, stats, PostingsOf(ix.table, t), d)
                < Idf(ln, stats.totalDocs, |ReadList(ix.table, t)|) * (K1 + 1.0)
  {
    SpotlessIff(start, c, ops, ix.table, t);
    ScoresAfterRunIff(ln, start, c, ops, ix, stats, t, d);
    PrunedSubset(ix, t);
    FrequencyAtMostDocs(Run(c, ops), t);
    var stale := Leftovers(Run(c, ops).docs, t, PostingsOf(ix.table, t));
    assert stale == {};
  }

  // ---------------------------------------------------------------- where it fails

  const NOTHING := Corpus(map[], 0)

  /** A batch that drops a term again, the deletion of its document, and another document with the term. */
  function TermDroppedAndReused(k: DocKey, k': DocKey, t: Term, u: Term): seq<Operation>
  {
    [IndexMany([Document(k, [t]), Document(k, [u])]), DeleteOne(k), IndexOne(Document(k', [t]))]
  }

  lemma RunOne(c: Corpus, op: Operation)
    ensures Run(c, [op]) == Apply(c, op)
  {
    RunSnoc(c, [], op);
    assert [] + [op] == [op];
  }

  lemma IndexedTwice(c: Corpus, k: DocKey, a: seq<Term>, b: seq<Term>)
    ensures IndexedAll(c, [Document(k, a), Document(k, b)]) == Indexed(c, Document(k, b))
  {
    var batch := [Document(k, a), Document(k, b)];
    assert batch[..1] == [Document(k, a)] && batch[..1][..0] == [];
    assert IndexedAll(c, batch[..1]) == Indexed(c, Document(k, a));
    assert c.docs[k := Bag(a)][k := Bag(b)] == c.docs[k := Bag(b)];
  }

  lemma DroppedAndReusedCorpus(k: DocKey, k': DocKey, t: Term, u: Term)
    requires k != k'
    ensures Run(NOTHING, TermDroppedAndReused(k, k', t, u)) == Corpus(map[k' := Bag([t])], 0)
  {
    var ops := TermDroppedAndReused(k, k', t, u);
    var first := ops[0];
    assert ops == [first, DeleteOne(k)] + [ops[2]] && [first, DeleteOne(k)] == [first] + [DeleteOne(k)];
    RunOne(NOTHING, first);
    RunSnoc(NOTHING, [first], DeleteOne(k));
    RunSnoc(NOTHING, [first, DeleteOne(k)], ops[2]);
    IndexedTwice(NOTHING, k, [t], [u]);
    BagDomainHead([u]);
    var c1 := Indexed(NOTHING, Document(k, [u]));
    assert Deleted(c1, k).docs == map[];
  }

  /** The deleted document is still posted under the term it once had, and it is the only one. */
  lemma DroppedIsStale(k: DocKey, k': DocKey, t: Term, u: Term, x: DocKey)
    requires k != k' && t != u
    ensures StaleAfter(false, TermDroppedAndReused(k, k', t, u), x, t) <==> x == k
  {
    var ops := TermDroppedAndReused(k, k', t, u);
    var batch := [Document(k, [t]), Document(k, [u])];
    var two, one := [IndexMany(batch), DeleteOne(k)], [IndexMany(batch)];
    assert ops[..2] == two && two[..1] == one && one[..0] == [];
    assert batch[0].key == k && t in batch[0].tokens && batch[1].key == k;
    assert NamedWith(batch, x, t) <==> x == k;
    assert Mentions(batch, k) && LastTokens(batch, k) == [u];
    assert StaleAfter(false, one, x, t) <==> x == k;
    assert StaleAfter(false, two, x, t) <==> x == k;
    assert Names(ops[2], x, t) <==> x == k';
  }

  /** One live document and two postings of the term. */
  lemma DroppedAndReusedCounts(k: DocKey, k': DocKey, t: Term, u: Term)
    requires k != k' && t != u
    ensures var ops := TermDroppedAndReused(k, k', t, u);
            var end, m := Run(NOTHING, ops), RunPostings(NOTHING, ops, t, map[]);
            && Has(end.docs, k', t) && DocCount(end) == 1 && DocFrequency(end.docs, t) == 1
            && Leftovers(end.docs, t, m) == {k} && |m| == 2
  {
    var ops := TermDroppedAndReused(k, k', t, u);
    var end, m := Run(NOTHING, ops), RunPostings(NOTHING, ops, t, map[]);
    DroppedAndReusedCorpus(k, k', t, u);
    BagDomain([t], t);
    assert end.docs.Keys == {k'} && Expected(end.docs, t).Keys == {k'};
    forall x: DocKey ensures x in Leftovers(end.docs, t, m) <==> x == k {
      DroppedIsStale(k, k', t, u, x);
      LeftoversAfterRun(NOTHING, ops, t, map[], x);
    }
    assert Leftovers(end.docs, t, m) == {k};
    RunKeepsPosted(NOTHING, ops, t, map[]);
    PostingCount(end.docs, t, m);
  }

  /** So the logarithm's argument is below one, and the live document's score negative. */
  lemma StaleCanTurnScoresNegative(ln: Log, k: DocKey, k': DocKey, t: Term, u: Term, ix: Index, stats: FtsStats)
    requires Logarithm(ln) && k != k' && t != u && WellFormed(ix)
    requires RanTo(map[], NOTHING, TermDroppedAndReused(k, k', t, u), ix.table)
    requires Accurate(Run(NOTHING, TermDroppedAndReused(k, k', t, u)), stats)
    ensures var m := PostingsOf(ix.table, t);
            && stats.totalDocs == 1 && |ReadList(ix.table, t)| == 2 && IdfArgument(1, 2) < 1.0
            && k' in m && EntryScore(ln, stats, m, k') < 0.0
  {
    var ops := TermDroppedAndReused(k, k', t, u);
    DroppedAndReusedCounts(k, k', t, u);
    assert PostingsOf(map[], t) == map[];
    RunKeepsPosted(NOTHING, ops, t, map[]);
    StoredScoreIff(ln, ix, stats, Run(NOTHING, ops), t, k');
    PrunedSubset(ix, t);
    IdfArgumentIff(1, 2);
  }

  /** The smallest stale batch from nothing: a document is posted and scored while the average is the fallback. */
  lemma StaleCanUseFallback(k: DocKey, t: Term)
    ensures var batch := [Document(k, [t]), Document(k, [])];
            var end := Run(NOTHING, [IndexMany(batch)]);
            && k in RunPostings(NOTHING, [IndexMany(batch)], t, map[])
            && StatsOf(end).totalDocs == 1 && EffectiveLength(StatsOf(end).avgDl.Value()) == 100.0
  {
    var batch := [Document(k, [t]), Document(k, [])];
    var ops := [IndexMany(batch)];
    RunOne(NOTHING, IndexMany(batch));
    IndexedTwice(NOTHING, k, [t], []);
    var end := Run(NOTHING, ops);
    assert ops[..0] == [];
    RepeatedKeyLeavesStalePosting(NOTHING, k, t);
    assert Expected(NOTHING.docs, t) == map[];
    assert end.docs.Keys == {k} && Bag([]) == map[];
    AverageUsedIff(end, StatsOf(end));
  }
}
