/** What it means for forward table, inverted table, cache and statistics to agree. */
module EngineState {
  import opened Postings
  import opened SegmentLog
  import opened Corpora
  import opened Effects
  import opened Bm25

  type Cache = map<Term, seq<PostingEntry>>

  /** Every cached list is the list that storage would give. */
  ghost predicate Coherent(cache: Cache, table: Table)
  {
    forall t | t in cache :: cache[t] == ReadList(table, t)
  }

  /** Every term's postings are those of the documents in the forward table. */
  ghost predicate Agrees(docs: Forward, table: Table)
  {
    forall t: Term :: PostingsOf(table, t) == Expected(docs, t)
  }

  /** The inverted table is in order and the cache shows it as it is. */
  ghost predicate Usable(ix: Index, cache: Cache)
  {
    WellFormed(ix) && Coherent(cache, ix.table)
  }

  /** The statistics are those of the corpus. */
  ghost predicate Accurate(c: Corpus, stats: FtsStats)
  {
    Positive(c.docs) && stats == StatsOf(c)
  }

  lemma AccurateAfterIndex(c: Corpus, stats: FtsStats, doc: Document, before: FtsStats, after: FtsStats)
    requires Accurate(c, stats)
    requires before == if doc.key in c.docs then StatsRemove(stats, DocLength(c.docs[doc.key])) else stats
    requires after == StatsUpdate(before, |doc.tokens|)
    ensures Accurate(Indexed(c, doc), after)
  {
    IndexKeepsStats(c, doc);
    BagLength(doc.tokens);
  }

  lemma AccurateAfterDelete(c: Corpus, stats: FtsStats, k: DocKey, len: nat, after: FtsStats)
    requires Accurate(c, stats) && len == if k in c.docs then DocLength(c.docs[k]) else 0
    requires after == if len > 0 then StatsRemove(stats, len) else stats
    ensures Accurate(Deleted(c, k), after)
  {
    DeleteKeepsStats(c, k);
  }

  /** The cache after one delta on t: other entries may have been evicted, t is new or gone. */
  ghost predicate CacheStep(before: Cache, after: Cache, table: Table, t: Term)
  {
    forall u | u in after ::
      if u == t then after[u] == ReadList(table, t) else u in before && after[u] == before[u]
  }

  lemma CoherentAfterDelta(ix: Index, ix': Index, before: Cache, after: Cache, t: Term)
    requires WellFormed(ix) && Progress(ix, ix', t)
    requires Coherent(before, ix.table) && CacheStep(before, after, ix'.table, t)
    ensures Coherent(after, ix'.table)
  {
    forall u | u in after ensures after[u] == ReadList(ix'.table, u) {
      if u != t {
        ElsewhereUnchanged(ix, ix', t, u);
      }
    }
  }

  // ---------------------------------------------------------------- working through the affected terms

  /** Every document is posted under each of its terms, correctly; other postings may be there too. */
  ghost predicate Covers(docs: Forward, table: Table)
  {
    forall t: Term :: Posted(docs, t, PostingsOf(table, t))
  }

  lemma AgreementCovers(docs: Forward, table: Table)
    requires Agrees(docs, table)
    ensures Covers(docs, table)
  {
    forall t: Term ensures Posted(docs, t, PostingsOf(table, t)) {
      assert PostingsOf(table, t) == Expected(docs, t);
    }
  }

  /** Terms still pending have their postings of before; all others what the operation makes of those. */
  ghost predicate Halfway(start: Table, c: Corpus, op: Operation, table: Table, pending: set<Term>)
  {
    && LegacyFrom(start, table)
    && forall t: Term ::
         PostingsOf(table, t) == if t in pending then PostingsOf(start, t) else Effect(c, op, t, PostingsOf(start, t))
  }

  /** The operation has been carried out on every term. */
  ghost predicate Moved(start: Table, c: Corpus, op: Operation, table: Table)
  {
    Halfway(start, c, op, table, {})
  }

  lemma HalfwayStart(table: Table, c: Corpus, op: Operation, pending: set<Term>)
    requires forall t: Term | t !in pending :: Effect(c, op, t, PostingsOf(table, t)) == PostingsOf(table, t)
    ensures Halfway(table, c, op, table, pending)
  {
  }

  lemma HalfwayStep(start: Table, c: Corpus, op: Operation, ix: Index, ix': Index, pending: set<Term>, t: Term)
    requires WellFormed(ix) && Progress(ix, ix', t) && LegacyFrom(ix.table, ix'.table)
    requires Halfway(start, c, op, ix.table, pending)
    requires PostingsOf(ix'.table, t) == Effect(c, op, t, PostingsOf(start, t))
    ensures Halfway(start, c, op, ix'.table, pending - {t})
  {
    forall u: Term
      ensures PostingsOf(ix'.table, u)
              == if u in pending - {t} then PostingsOf(start, u) else Effect(c, op, u, PostingsOf(start, u))
    {
      if u != t {
        ElsewhereUnchanged(ix, ix', t, u);
      }
    }
  }

  lemma MovedCovers(start: Table, c: Corpus, op: Operation, table: Table)
    requires Moved(start, c, op, table) && Covers(c.docs, start)
    ensures Covers(Apply(c, op).docs, table)
  {
    forall t: Term ensures Posted(Apply(c, op).docs, t, PostingsOf(table, t)) {
      EffectKeepsPosted(c, op, t, PostingsOf(start, t));
    }
  }

  /** From tables that agree, an operation leads to tables that agree exactly when it leaves nothing stale. */
  lemma MovedAgreesIff(start: Table, c: Corpus, op: Operation, table: Table)
    requires Moved(start, c, op, table) && Agrees(c.docs, start)
    ensures Agrees(Apply(c, op).docs, table) <==> Clean(op)
  {
    EffectExactIff(c, op);
    forall t: Term ensures PostingsOf(table, t) == Effect(c, op, t, Expected(c.docs, t)) {
      assert PostingsOf(start, t) == Expected(c.docs, t);
    }
    if Agrees(Apply(c, op).docs, table) {
      forall t: Term ensures Effect(c, op, t, Expected(c.docs, t)) == Expected(Apply(c, op).docs, t) {
        assert PostingsOf(table, t) == Expected(Apply(c, op).docs, t);
      }
    }
  }

  /** Both at once: live documents stay posted, and agreement is kept by clean operations only. */
  lemma MovedKeeps(start: Table, c: Corpus, op: Operation, table: Table)
    requires Moved(start, c, op, table) && Covers(c.docs, start)
    ensures Covers(Apply(c, op).docs, table)
    ensures Agrees(c.docs, start) ==> (Agrees(Apply(c, op).docs, table) <==> Clean(op))
  {
    MovedCovers(start, c, op, table);
    if Agrees(c.docs, start) {
      MovedAgreesIff(start, c, op, table);
    }
  }

  /** A document's entry in the list of one of its terms carries its length. */
  lemma ListedLength(ix: Index, docs: Forward, t: Term, k: DocKey)
    requires WellFormed(ix) && Posted(docs, t, PostingsOf(ix.table, t)) && Has(docs, k, t)
    ensures HasKey(ReadList(ix.table, t), k)
    ensures forall e | e in ReadList(ix.table, t) && e.docKey == k :: e.docLength == DocLength(docs[k])
  {
    var list := ReadList(ix.table, t);
    ReadListLists(ix, t);
    ListsElements(list, PostingsOf(ix.table, t));
    AddAllDomain(map[], list, k);
  }

  // ---------------------------------------------------------------- what is left when every document is gone

  /** A term without postings has no record, unless as an empty list in the older format. */
  lemma NoPostingsNoRecord(ix: Index, k: InvertedKey)
    requires WellFormed(ix) && k in ix.table && PostingsOf(ix.table, k.term) == map[]
    ensures k.TermKey? && ix.table[k] == LegacyValue([])
  {
    var t := k.term;
    SegmentKeyHoldsSegment(ix, k);
    assert TermOk(ix, t);
    match ix.table[TermKey(t)] {
      case LegacyValue(entries) =>
        if entries != [] {
          AddAllKeeps(map[], entries, entries[0]);
        }
      case StateValue(_, _, _) =>
    }
  }

  /** The record was there at the start, as an empty list in the older format. */
  ghost predicate EmptyFromStart(start: Table, table: Table, k: InvertedKey)
  {
    k.TermKey? && k in start && k in table && start[k] == table[k] == LegacyValue([])
  }

  /**
   With no documents left, a term whose postings agree with the documents has no record, except
   for an older list that was already empty in the table things started from.
   */
  lemma EmptyCorpusLeavesNothing(start: Table, ix: Index, docs: Forward)
    requires WellFormed(ix) && LegacyFrom(start, ix.table) && docs == map[]
    ensures forall k | k in ix.table && PostingsOf(ix.table, k.term) == Expected(docs, k.term) ::
              EmptyFromStart(start, ix.table, k)
  {
    forall k | k in ix.table && PostingsOf(ix.table, k.term) == Expected(docs, k.term)
      ensures EmptyFromStart(start, ix.table, k)
    {
      assert Expected(docs, k.term) == map[];
      NoPostingsNoRecord(ix, k);
    }
  }

  // ---------------------------------------------------------------- whole runs

  /** The table that a run of operations leads to, term by term. */
  ghost predicate RanTo(start: Table, c: Corpus, ops: seq<Operation>, table: Table)
  {
    LegacyFrom(start, table) && forall t: Term :: PostingsOf(table, t) == RunPostings(c, ops, t, PostingsOf(start, t))
  }

  lemma RanToSnoc(start: Table, c: Corpus, ops: seq<Operation>, mid: Table, op: Operation, table: Table)
    requires RanTo(start, c, ops, mid) && Moved(mid, Run(c, ops), op, table)
    ensures RanTo(start, c, ops + [op], table)
  {
    forall t: Term ensures PostingsOf(table, t) == RunPostings(c, ops + [op], t, PostingsOf(start, t)) {
      RunPostingsSnoc(c, ops, op, t, PostingsOf(start, t));
      assert PostingsOf(mid, t) == RunPostings(c, ops, t, PostingsOf(start, t));
    }
  }

  /** The run leaves no posting of the term unjustified. */
  ghost predicate Spotless(start: Table, docs: Forward, ops: seq<Operation>, t: Term)
  {
    NoneStale(docs, PostingsOf(start, t), ops, t)
  }

  lemma SpotlessIff(start: Table, c: Corpus, ops: seq<Operation>, table: Table, t: Term)
    requires RanTo(start, c, ops, table) && Covers(c.docs, start)
    ensures PostingsOf(table, t) == Expected(Run(c, ops).docs, t) <==> Spotless(start, c.docs, ops, t)
  {
    RunExactIff(c, ops, t, PostingsOf(start, t));
  }

  lemma SpotlessAgrees(start: Table, c: Corpus, ops: seq<Operation>, table: Table, query: seq<Term>)
    requires RanTo(start, c, ops, table) && Covers(c.docs, start)
    ensures AgreesOn(Run(c, ops).docs, table, query) <==> forall t | t in query :: Spotless(start, c.docs, ops, t)
  {
    forall t: Term
      ensures PostingsOf(table, t) == Expected(Run(c, ops).docs, t) <==> Spotless(start, c.docs, ops, t)
    {
      SpotlessIff(start, c, ops, table, t);
    }
  }

  /** After a run the tables agree if and only if it left no posting unjustified. */
  lemma RunAgreesIff(start: Table, c: Corpus, ops: seq<Operation>, table: Table)
    requires RanTo(start, c, ops, table) && Covers(c.docs, start)
    ensures Agrees(Run(c, ops).docs, table) <==> forall t: Term :: Spotless(start, c.docs, ops, t)
  {
    forall t: Term
      ensures PostingsOf(table, t) == Expected(Run(c, ops).docs, t) <==> Spotless(start, c.docs, ops, t)
    {
      SpotlessIff(start, c, ops, table, t);
    }
  }

  lemma CleanIsSpotless(start: Table, docs: Forward, ops: seq<Operation>)
    requires Agrees(docs, start) && forall i | 0 <= i < |ops| :: Clean(ops[i])
    ensures forall t: Term :: Spotless(start, docs, ops, t)
  {
    forall t: Term ensures Spotless(start, docs, ops, t) {
      assert PostingsOf(start, t) == Expected(docs, t);
      CleanRun(docs, ops, t);
    }
  }

  /**
   When a run has deleted every document, the records left are those of terms with an unjustified
   posting and older lists that were empty from the start; empty storage ends empty.
   */
  lemma RunToEmpty(start: Table, c: Corpus, ops: seq<Operation>, ix: Index)
    requires RanTo(start, c, ops, ix.table) && Covers(c.docs, start) && WellFormed(ix) && Run(c, ops).docs == map[]
    ensures forall k | k in ix.table && Spotless(start, c.docs, ops, k.term) :: EmptyFromStart(start, ix.table, k)
    ensures start == map[] && (forall t: Term :: Spotless(start, c.docs, ops, t)) ==> ix.table == map[]
  {
    var docs := Run(c, ops).docs;
    EmptyCorpusLeavesNothing(start, ix, docs);
    forall k | k in ix.table && Spotless(start, c.docs, ops, k.term) ensures EmptyFromStart(start, ix.table, k) {
      SpotlessIff(start, c, ops, ix.table, k.term);
    }
  }

  // ---------------------------------------------------------------- storage

  /** What one engine has written another can open exactly when it will not make a stored segment key again. */
  lemma ReopensIff(ix: Index, sequence: nat, clock: Clock)
    requires WellFormed(ix)
    ensures WellFormed(Index(ix.table, sequence, clock)) <==>
            forall k | k in ix.table && k.SegmentKey? :: k.sequence < sequence || k.millis != Reading(clock, k.sequence)
  {
    var again := Index(ix.table, sequence, clock);
    if forall k | k in ix.table && k.SegmentKey? :: Spent(again, k) {
      forall t: Term | TermKey(t) in again.table ensures TermOk(again, t) {
        assert TermOk(ix, t);
        if ix.table[TermKey(t)].StateValue? {
          forall k | k in ix.table[TermKey(t)].segments ensures SegmentOk(again, t, k) {
            assert SegmentOk(ix, t, k);
          }
        }
      }
    }
    if WellFormed(again) {
      forall k | k in ix.table && k.SegmentKey? ensures Spent(again, k) {
        SegmentKeyHoldsSegment(again, k);
        assert TermOk(again, k.term) && SegmentOk(again, k.term, k);
      }
    }
  }

  /** What goes wrong otherwise: appending under the key of a term's only segment loses all the postings it had. */
  lemma ReusedKeyLosesPostings(ix: Index, t: Term, added: seq<PostingEntry>, removed: seq<DocKey>, d: DocKey)
    requires TermKey(t) in ix.table && ix.table[TermKey(t)] == StateValue(STATE_CONTRACT_VERSION, t, [FreshKey(ix, t)])
    requires (added != [] || removed != []) && !HasKey(added, d)
    ensures var o := Extended(ix, t, added, removed); d !in Replay(o.ix.table, o.segments)
  {
    var k := FreshKey(ix, t);
    var o := Extended(ix, t, added, removed);
    assert o.segments == [k] + [k] && [] + [k] == [k];
    ReplaySnoc(o.ix.table, [], k);
    ReplaySnoc(o.ix.table, [k], k);
    var once := AddAll(RemoveAll(map[], removed), added);
    AddAllDomain(RemoveAll(map[], removed), added, d);
    AddAllDomain(RemoveAll(once, removed), added, d);
  }

  /** Each segment record is named by the log of one term only, and once. */
  lemma SegmentHasOneOwner(ix: Index, k: InvertedKey, t: Term, u: Term)
    requires WellFormed(ix) && k in ix.table && k.SegmentKey?
    requires TermKey(t) in ix.table && ix.table[TermKey(t)].StateValue? && k in ix.table[TermKey(t)].segments
    requires TermKey(u) in ix.table && ix.table[TermKey(u)].StateValue? && k in ix.table[TermKey(u)].segments
    ensures t == u == k.term
  {
    assert TermOk(ix, t) && TermOk(ix, u);
    assert SegmentOk(ix, t, k) && SegmentOk(ix, u, k);
  }

  // ---------------------------------------------------------------- what search looks at

  function KeysOf(es: seq<PostingEntry>): set<DocKey>
  {
    set e | e in es :: e.docKey
  }

  function Pruned(es: seq<PostingEntry>): seq<PostingEntry>
  {
    if |es| > PRUNE_LIMIT then es[..PRUNE_LIMIT] else es
  }

  ghost function LookedAt(table: Table): Kept
  {
    t => KeysOf(Pruned(ReadList(table, t)))
  }

  lemma ListKeys(es: seq<PostingEntry>, m: PostingMap)
    requires Lists(es, m)
    ensures KeysOf(es) == m.Keys
  {
    ListsElements(es, m);
    forall k | k in m ensures k in KeysOf(es) { assert m[k] in es; }
  }

  lemma {:induction false} KeysOfSize(es: seq<PostingEntry>)
    requires DistinctKeys(es)
    ensures |KeysOf(es)| == |es|
  {
    if es == [] {
      assert KeysOf(es) == {};
    } else {
      var front, last := es[..|es| - 1], es[|es| - 1];
      assert es == front + [last];
      KeysOfSize(front);
      assert KeysOf(es) == KeysOf(front) + {last.docKey};
      assert last.docKey !in KeysOf(front);
    }
  }

  /** What is looked at of a term: all its postings exactly when there are at most 5000. */
  lemma PrunedSubset(ix: Index, t: Term)
    requires WellFormed(ix)
    ensures LookedAt(ix.table)(t) <= PostingsOf(ix.table, t).Keys
    ensures |PostingsOf(ix.table, t)| == |ReadList(ix.table, t)|
    ensures LookedAt(ix.table)(t) == PostingsOf(ix.table, t).Keys <==> |PostingsOf(ix.table, t)| <= PRUNE_LIMIT
  {
    var es, m := ReadList(ix.table, t), PostingsOf(ix.table, t);
    ReadListLists(ix, t);
    ListKeys(es, m);
    ListsLength(es, m);
    if |es| > PRUNE_LIMIT {
      KeysOfSize(es);
      KeysOfSize(Pruned(es));
      forall e | e in Pruned(es) ensures e in es {}
    }
  }

  /** Of a longer list the first 5000 entries are looked at; from a log these have the smallest document keys. */
  lemma LookedAtAreFirst(ix: Index, t: Term, e: PostingEntry)
    requires WellFormed(ix) && e in ReadList(ix.table, t)
    ensures e.docKey in LookedAt(ix.table)(t) <==>
            exists i | 0 <= i < |ReadList(ix.table, t)| && i < 5_000 :: ReadList(ix.table, t)[i] == e
    ensures TermKey(t) in ix.table && ix.table[TermKey(t)].StateValue? ==> SortedByKey(ReadList(ix.table, t))
  {
    var list := ReadList(ix.table, t);
    ReadListLists(ix, t);
    var kept := Pruned(list);
    forall i | 0 <= i < |kept| ensures kept[i] == list[i] {}
    if e.docKey in KeysOf(kept) {
      var x :| x in kept && x.docKey == e.docKey;
      var i :| 0 <= i < |kept| && kept[i] == x;
      var j :| 0 <= j < |list| && list[j] == e;
      assert i == j;
    }
    if i :| 0 <= i < |list| && i < 5_000 && list[i] == e {
      assert kept[i] == e;
      assert e in kept;
    }
    if TermKey(t) in ix.table && ix.table[TermKey(t)].StateValue? {
      var segments := ix.table[TermKey(t)].segments;
      ReplayWellKeyed(ix.table, segments);
      ListingLists(Replay(ix.table, segments));
    }
  }

  /** The query's terms have the postings of the documents. */
  ghost predicate AgreesOn(docs: Forward, table: Table, query: seq<Term>)
  {
    forall t | t in query :: PostingsOf(table, t) == Expected(docs, t)
  }

  /** No term of the query has more postings than a search looks at. */
  ghost predicate WithinLimit(docs: Forward, query: seq<Term>)
  {
    forall t | t in query :: DocFrequency(docs, t) <= 5_000
  }

  lemma LookedAtOk(ix: Index, docs: Forward, query: seq<Term>)
    requires WellFormed(ix) && AgreesOn(docs, ix.table, query)
    ensures KeptOk(docs, LookedAt(ix.table), query)
    ensures KeepsAll(docs, LookedAt(ix.table), query) <==> WithinLimit(docs, query)
  {
    forall t | t in query
      ensures LookedAt(ix.table)(t) <= Expected(docs, t).Keys
      ensures LookedAt(ix.table)(t) == Expected(docs, t).Keys <==> DocFrequency(docs, t) <= PRUNE_LIMIT
    {
      PrunedSubset(ix, t);
    }
  }

  // ---------------------------------------------------------------- the scores of a search

  /** What an entry of a term adds to the score of its document, given what is stored. */
  ghost function EntryScore(ln: Log, stats: FtsStats, m: PostingMap, d: DocKey): real
    requires d in m
  {
    Contribution(Idf(ln, stats.totalDocs, |m|), m[d].termFrequency, m[d].docLength,
                 EffectiveLength(stats.avgDl.Value()))
  }

  ghost function PostingScorer(ln: Log, table: Table, stats: FtsStats): Scorer
  {
    (t, d) => if d in PostingsOf(table, t) then EntryScore(ln, stats, PostingsOf(table, t), d) else 0.0
  }

  /** The scores a search computes from what is stored: BM25 over the entries it looks at. */
  ghost function EngineScores(ln: Log, table: Table, stats: FtsStats, query: seq<Term>): map<DocKey, real>
  {
    if stats.totalDocs == 0 then map[] else KeptScores(PostingScorer(ln, table, stats), LookedAt(table), query)
  }

  /** Postings of the documents and accurate statistics give the scores of the corpus. */
  lemma PostingScoreAt(ln: Log, table: Table, stats: FtsStats, c: Corpus, t: Term, d: DocKey)
    requires Accurate(c, stats) && PostingsOf(table, t) == Expected(c.docs, t)
    ensures PostingScorer(ln, table, stats)(t, d) == Bm25Scorer(ln, c)(t, d)
  {
  }

  lemma EngineScoresOnCorpus(ln: Log, ix: Index, stats: FtsStats, c: Corpus, query: seq<Term>)
    requires WellFormed(ix) && Accurate(c, stats) && AgreesOn(c.docs, ix.table, query)
    ensures EngineScores(ln, ix.table, stats, query) == KeptScores(Bm25Scorer(ln, c), LookedAt(ix.table), query)
  {
    LookedAtOk(ix, c.docs, query);
    if stats.totalDocs == 0 {
      MatchedInDocs(c.docs, LookedAt(ix.table), query);
      assert c.docs.Keys == {};
    } else {
      forall t, d | t in query
        ensures PostingScorer(ln, ix.table, stats)(t, d) == Bm25Scorer(ln, c)(t, d)
      {
        PostingScoreAt(ln, ix.table, stats, c, t, d);
      }
      KeptScoresCongruent(PostingScorer(ln, ix.table, stats), Bm25Scorer(ln, c), LookedAt(ix.table), query);
    }
  }

  /**
   The scores the engine computes are the brute-force scores exactly when no term of the query
   has more than 5000 postings.
   */
  lemma SearchExactIff(ln: Log, ix: Index, stats: FtsStats, c: Corpus, query: seq<Term>)
    requires LogLike(ln) && WellFormed(ix) && Accurate(c, stats) && AgreesOn(c.docs, ix.table, query)
    ensures EngineScores(ln, ix.table, stats, query) == BruteScores(ln, c, query) <==> WithinLimit(c.docs, query)
  {
    Bm25ScorerPositive(ln, c);
    LookedAtOk(ix, c.docs, query);
    EngineScoresOnCorpus(ln, ix, stats, c, query);
    KeptEqualsScanIff(Bm25Scorer(ln, c), c.docs, LookedAt(ix.table), query);
  }

  lemma WithinLimitIsBrute(ln: Log, ix: Index, stats: FtsStats, c: Corpus, query: seq<Term>)
    requires WellFormed(ix) && Accurate(c, stats) && AgreesOn(c.docs, ix.table, query) && WithinLimit(c.docs, query)
    ensures EngineScores(ln, ix.table, stats, query) == BruteScores(ln, c, query)
  {
    LookedAtOk(ix, c.docs, query);
    EngineScoresOnCorpus(ln, ix, stats, c, query);
    KeepsAllGivesScan(Bm25Scorer(ln, c), c.docs, LookedAt(ix.table), query);
  }

  lemma {:induction false} MatchedInDocs(docs: Forward, kept: Kept, query: seq<Term>)
    requires KeptOk(docs, kept, query)
    ensures Matched(kept, query) <= docs.Keys
  {
    if query != [] {
      var front, last := query[..|query| - 1], query[|query| - 1];
      assert query == front + [last];
      MatchedInDocs(docs, kept, front);
      assert kept(last) <= Expected(docs, last).Keys;
    }
  }

  lemma {:induction false} KeptScoreCongruent(a: Scorer, b: Scorer, kept: Kept, query: seq<Term>, d: DocKey)
    requires forall t | t in query :: a(t, d) == b(t, d)
    ensures KeptScore(a, kept, query, d) == KeptScore(b, kept, query, d)
  {
    if query != [] {
      var front, last := query[..|query| - 1], query[|query| - 1];
      assert query == front + [last];
      KeptScoreCongruent(a, b, kept, front, d);
      assert a(last, d) == b(last, d);
    }
  }

  lemma KeptScoresCongruent(a: Scorer, b: Scorer, kept: Kept, query: seq<Term>)
    requires forall t, d | t in query :: a(t, d) == b(t, d)
    ensures KeptScores(a, kept, query) == KeptScores(b, kept, query)
  {
    forall d | d in Matched(kept, query) ensures KeptScore(a, kept, query, d) == KeptScore(b, kept, query, d) {
      KeptScoreCongruent(a, b, kept, query, d);
    }
  }

  lemma {:induction false} UnmatchedScoresZero(score: Scorer, kept: Kept, query: seq<Term>, d: DocKey)
    requires d !in Matched(kept, query)
    ensures KeptScore(score, kept, query, d) == 0.0
  {
    if query != [] {
      UnmatchedScoresZero(score, kept, query[..|query| - 1], d);
    }
  }

  // ---------------------------------------------------------------- adding up one posting list

  type Gain = PostingEntry -> real

  function GainOf(idf: real, avg: real): Gain
    requires avg > 0.0
  {
    (e: PostingEntry) => Contribution(idf, e.termFrequency, e.docLength, avg)
  }

  /** The score table after one more posting list, in terms of the table before it. */
  ghost predicate Accumulated(before: map<DocKey, real>, after: map<DocKey, real>, es: seq<PostingEntry>, gain: Gain)
  {
    && after.Keys == before.Keys + KeysOf(es)
    && (forall e | e in es ::
          after[e.docKey] == (if e.docKey in before then before[e.docKey] else 0.0) + gain(e))
    && (forall d | d in before && d !in KeysOf(es) :: after[d] == before[d])
  }

  /** The loop over the entries of one posting list, as a function of the scores before it. */
  ghost function AddList(scores: map<DocKey, real>, es: seq<PostingEntry>, gain: Gain): map<DocKey, real>
  {
    if es == [] then scores
    else
      var e := es[|es| - 1];
      Raised(AddList(scores, es[..|es| - 1], gain), e.docKey, gain(e))
  }

  /** `*doc_scores.entry(doc_key).or_insert(0.0) += x` */
  function Raised(scores: map<DocKey, real>, d: DocKey, x: real): map<DocKey, real>
  {
    scores[d := (if d in scores then scores[d] else 0.0) + x]
  }

  lemma AddListSnoc(scores: map<DocKey, real>, es: seq<PostingEntry>, e: PostingEntry, gain: Gain, x: real)
    requires x == gain(e)
    ensures AddList(scores, es + [e], gain) == Raised(AddList(scores, es, gain), e.docKey, x)
  {
    var more := es + [e];
    assert more[..|more| - 1] == es && more[|more| - 1] == e;
  }

  lemma {:induction false} AddListAccumulates(scores: map<DocKey, real>, es: seq<PostingEntry>, gain: Gain)
    requires DistinctKeys(es)
    ensures Accumulated(scores, AddList(scores, es, gain), es, gain)
  {
    if es != [] {
      var front, e := es[..|es| - 1], es[|es| - 1];
      assert es == front + [e];
      AddListAccumulates(scores, front, gain);
      assert KeysOf(es) == KeysOf(front) + {e.docKey};
      assert e.docKey !in KeysOf(front);
    }
  }

  /** One turn of the loop over the query terms, given the posting list found for the term. */
  ghost function AddTerm(ln: Log, stats: FtsStats, scores: map<DocKey, real>, list: seq<PostingEntry>): map<DocKey, real>
  {
    AddList(scores, Pruned(list), GainOf(Idf(ln, stats.totalDocs, |list|), EffectiveLength(stats.avgDl.Value())))
  }

  /** A turn with the list that storage gives extends the engine's scores by the term. */
  lemma AddTermExtends(ln: Log, ix: Index, stats: FtsStats, query: seq<Term>, t: Term, scores: map<DocKey, real>)
    requires WellFormed(ix) && scores == KeptScores(PostingScorer(ln, ix.table, stats), LookedAt(ix.table), query)
    ensures AddTerm(ln, stats, scores, ReadList(ix.table, t))
            == KeptScores(PostingScorer(ln, ix.table, stats), LookedAt(ix.table), query + [t])
  {
    var list := ReadList(ix.table, t);
    var idf, avg := Idf(ln, stats.totalDocs, |list|), EffectiveLength(stats.avgDl.Value());
    PrunedDistinct(ix, t);
    AddListAccumulates(scores, Pruned(list), GainOf(idf, avg));
    GainIsScore(ln, ix, stats, t, idf, avg);
    AccumulatedIsKept(PostingScorer(ln, ix.table, stats), LookedAt(ix.table), query, t, Pruned(list),
                      GainOf(idf, avg), scores, AddTerm(ln, stats, scores, list));
  }

  /** Adding one more query term's entries to the scores so far gives the scores with that term. */
  lemma AccumulatedIsKept(score: Scorer, kept: Kept, query: seq<Term>, t: Term, es: seq<PostingEntry>, gain: Gain,
                          before: map<DocKey, real>, after: map<DocKey, real>)
    requires before == KeptScores(score, kept, query)
    requires kept(t) == KeysOf(es)
    requires forall e | e in es :: gain(e) == score(t, e.docKey)
    requires Accumulated(before, after, es, gain)
    ensures after == KeptScores(score, kept, query + [t])
  {
    var more := query + [t];
    assert more[..|more| - 1] == query;
    var want := KeptScores(score, kept, more);
    forall d | d in after ensures after[d] == want[d] {
      if d !in before {
        UnmatchedScoresZero(score, kept, query, d);
      }
      if d in KeysOf(es) {
        var e :| e in es && e.docKey == d;
      }
    }
    assert after == want;
  }

  /** Adding gains over the looked-at entries of a term amounts to adding its scores. */
  lemma GainIsScore(ln: Log, ix: Index, stats: FtsStats, t: Term, idf: real, avg: real)
    requires WellFormed(ix)
    requires idf == Idf(ln, stats.totalDocs, |ReadList(ix.table, t)|) && avg == EffectiveLength(stats.avgDl.Value())
    ensures forall e | e in Pruned(ReadList(ix.table, t)) ::
              GainOf(idf, avg)(e) == PostingScorer(ln, ix.table, stats)(t, e.docKey)
  {
    PrunedSubset(ix, t);
    ReadListLists(ix, t);
    ListsElements(ReadList(ix.table, t), PostingsOf(ix.table, t));
    forall e | e in Pruned(ReadList(ix.table, t)) ensures e in ReadList(ix.table, t) {}
  }

  lemma PrunedDistinct(ix: Index, t: Term)
    requires WellFormed(ix)
    ensures DistinctKeys(Pruned(ReadList(ix.table, t)))
  {
    ReadListLists(ix, t);
  }
}
