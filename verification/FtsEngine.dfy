/** The search engine: its tables, its cache, and the operations that change them. */
module Fts {
  import opened Elements
  import opened Totals
  import opened Postings
  import opened SegmentLog
  import opened Corpora
  import opened Batches
  import opened Effects
  import opened Bm25
  import opened EngineState

  class FtsEngine {
    const tokenize: string -> seq<Term>
    const ln: Log
    const clock: Clock

    var forward: Forward
    var inverted: Table
    var stats: FtsStats
    var cache: Cache
    var segmentSeq: nat

    /** Deletions of token-free documents so far. */
    ghost var phantoms: nat

    ghost function Idx(): Index
      reads this
    {
      Index(inverted, segmentSeq, clock)
    }

    ghost function Contents(): Corpus
      reads this
    {
      Corpus(forward, phantoms)
    }

    ghost predicate Consistent()
      reads this
    {
      Usable(Idx(), cache) && Accurate(Contents(), stats)
    }

    /** Tables, cache and statistics are in order and every document is posted under its terms. */
    ghost predicate Sound()
      reads this
    {
      Consistent() && Covers(forward, inverted)
    }

    /** Moreover nothing else is posted. */
    ghost predicate Valid()
      reads this
    {
      Consistent() && Agrees(forward, inverted)
    }

    lemma ValidIsSound()
      requires Valid()
      ensures Sound()
    {
      AgreementCovers(forward, inverted);
    }

    /**
     Opens any storage. The engine is sound exactly when the storage is: empty, lists of the older
     format, or what an earlier engine left, provided the clock does not repeat a stored segment key.
     */
    constructor (tokenize: string -> seq<Term>, ln: Log, clock: Clock,
                 forward: Forward, inverted: Table, stats: FtsStats, ghost phantoms: nat)
      ensures Contents() == Corpus(forward, phantoms) && Idx() == Index(inverted, 1, clock)
      ensures this.stats == stats && cache == map[] && this.tokenize == tokenize && this.ln == ln
      ensures Consistent() <==> WellFormed(Index(inverted, 1, clock)) && Accurate(Corpus(forward, phantoms), stats)
      ensures Sound() <==> Consistent() && Covers(forward, inverted)
      ensures Valid() <==> Consistent() && Agrees(forward, inverted)
    {
      this.tokenize := tokenize;
      this.ln := ln;
      this.clock := clock;
      this.forward := forward;
      this.inverted := inverted;
      this.stats := stats;
      this.cache := map[];
      this.segmentSeq := 1;
      this.phantoms := phantoms;
    }

    // -------------------------------------------------------------- cache

    /** LRU insertion; which other lists stay is left open. */
    method CachePut(t: Term, list: seq<PostingEntry>)
      modifies `cache
      ensures forall u | u in cache :: if u == t then cache[u] == list else u in old(cache) && cache[u] == old(cache)[u]
    {
      var full := cache[t := list];
      var keep: set<Term> :| keep <= full.Keys;
      cache := map u | u in keep :: full[u];
    }

    // -------------------------------------------------------------- segments

    method NextSegmentKey(t: Term) returns (k: InvertedKey)
      modifies `segmentSeq
      ensures k == FreshKey(old(Idx()), t) && segmentSeq == old(segmentSeq) + 1
    {
      k := SegmentKey(t, Reading(clock, segmentSeq), segmentSeq);
      segmentSeq := segmentSeq + 1;
    }

    /** Replays a log, removals before additions in each segment, and sorts the result by document key. */
    method MaterializePostingState(segments: seq<InvertedKey>) returns (entries: seq<PostingEntry>)
      requires forall k | k in segments && k in inverted :: inverted[k].SegmentValue?
      ensures entries == Listing(Replay(inverted, segments))
      ensures entries == [] <==> Replay(inverted, segments) == map[]
    {
      var resolved: PostingMap := map[];
      for i := 0 to |segments|
        invariant resolved == Replay(inverted, segments[..i])
      {
        var k := segments[i];
        assert segments[..i + 1][..i] == segments[..i];
        if k !in inverted {
          continue;
        }
        assert k in segments;
        resolved := ReplaySegment(resolved, inverted[k].segment);
      }
      WholePrefix(segments);
      ReplayWellKeyed(inverted, segments);
      entries := CollectSorted(resolved);
      ListsLength(entries, resolved);
    }

    static method ReplaySegment(before: PostingMap, segment: Segment) returns (after: PostingMap)
      ensures after == ApplySegment(before, segment)
    {
      after := before;
      var removed, added := segment.removedDocKeys, segment.addedEntries;
      for i := 0 to |removed|
        invariant after == RemoveAll(before, removed[..i])
      {
        PrefixSnoc(removed, i);
        ToSetSnoc(removed[..i], removed[i]);
        after := after - {removed[i]};
      }
      WholePrefix(removed);
      var base := after;
      for i := 0 to |added|
        invariant after == AddAll(base, added[..i])
      {
        PrefixSnoc(added, i);
        AddAllSnoc(base, added[..i], added[i]);
        after := after[added[i].docKey := added[i]];
      }
      WholePrefix(added);
    }

    method PersistPostingState(t: Term, segments: seq<InvertedKey>)
      modifies `inverted
      ensures Idx() == PutState(old(Idx()), t, segments)
    {
      inverted := inverted[TermKey(t) := StateValue(STATE_CONTRACT_VERSION, t, segments)];
    }

    method PostingStateFromLegacy(t: Term, entries: seq<PostingEntry>) returns (segments: seq<InvertedKey>)
      requires TermKey(t) in inverted && inverted[TermKey(t)] == LegacyValue(entries)
      modifies `inverted, `segmentSeq
      ensures Open(Idx(), segments) == Migrate(old(Idx()), t)
    {
      var k := NextSegmentKey(t);
      inverted := inverted[k := SegmentValue(Segment(t, entries, []))];
      PersistPostingState(t, [k]);
      segments := [k];
    }

    method GetOrMigratePostingState(t: Term) returns (segments: seq<InvertedKey>)
      requires WellFormed(Idx())
      modifies `inverted, `segmentSeq
      ensures Open(Idx(), segments) == Migrate(old(Idx()), t)
      ensures Working(Open(Idx(), segments), t)
    {
      MigrateOpens(Idx(), t);
      if TermKey(t) !in inverted {
        return [];
      }
      assert TermOk(Idx(), t);
      var stored := inverted[TermKey(t)];
      if stored.StateValue? {
        return stored.segments;
      }
      segments := PostingStateFromLegacy(t, stored.entries);
    }

    method DeleteInverted(ks: seq<InvertedKey>)
      modifies `inverted
      ensures Idx() == DeleteKeys(old(Idx()), ks)
    {
      for i := 0 to |ks|
        invariant inverted == old(inverted) - ToSet(ks[..i])
      {
        PrefixSnoc(ks, i);
        ToSetSnoc(ks[..i], ks[i]);
        inverted := inverted - {ks[i]};
      }
      WholePrefix(ks);
    }

    method AppendSegment(t: Term, segments: seq<InvertedKey>, added: seq<PostingEntry>, removed: seq<DocKey>)
      returns (more: seq<InvertedKey>)
      requires Working(Open(Idx(), segments), t)
      modifies `inverted, `segmentSeq
      ensures Open(Idx(), more) == Append(old(Open(Idx(), segments)), t, added, removed)
      ensures Working(Open(Idx(), more), t)
    {
      more := segments;
      if added != [] || removed != [] {
        PutSegmentExtends(Open(Idx(), segments), t, added, removed);
        var k := NextSegmentKey(t);
        inverted := inverted[k := SegmentValue(Segment(t, added, removed))];
        more := segments + [k];
      }
    }

    /** Writes the term's record and cache entry, or removes both when no posting is left. */
    method Settle(t: Term, segments: seq<InvertedKey>, resolved: seq<PostingEntry>)
      requires Working(Open(Idx(), segments), t) && |segments| < COMPACT_THRESHOLD
      requires resolved == Listing(Replay(inverted, segments))
      requires resolved == [] <==> Replay(inverted, segments) == map[]
      modifies `inverted, `cache
      ensures Idx() == Close(old(Open(Idx(), segments)), t)
      ensures CacheStep(old(cache), cache, inverted, t)
    {
      CloseSettles(Open(Idx(), segments), t);
      cache := cache - {t};
      if resolved == [] {
        DeleteInverted(segments + [TermKey(t)]);
        return;
      }
      PersistPostingState(t, segments);
      CachePut(t, resolved);
    }

    /** One term's share of an update: append, compact when the log has grown to eight, and settle record and cache. */
    method ApplyTermDelta(t: Term, added: seq<PostingEntry>, removed: seq<DocKey>)
      requires WellFormed(Idx())
      modifies `inverted, `cache, `segmentSeq
      ensures Idx() == Delta(old(Idx()), t, added, removed)
      ensures CacheStep(old(cache), cache, inverted, t)
    {
      ghost var start := Idx();
      var segments := ExtendLog(t, added, removed);
      var resolved := ResolveAndCompact(t, segments);
      ghost var compacted := Open(Idx(), resolved.0);
      assert Delta(start, t, added, removed) == Close(compacted, t);
      Settle(t, resolved.0, resolved.1);
    }

    method ExtendLog(t: Term, added: seq<PostingEntry>, removed: seq<DocKey>) returns (segments: seq<InvertedKey>)
      requires WellFormed(Idx())
      modifies `inverted, `segmentSeq
      ensures Open(Idx(), segments) == Extended(old(Idx()), t, added, removed)
      ensures Working(Open(Idx(), segments), t)
    {
      var found := GetOrMigratePostingState(t);
      segments := AppendSegment(t, found, added, removed);
    }

    method ResolveAndCompact(t: Term, segments: seq<InvertedKey>) returns (r: (seq<InvertedKey>, seq<PostingEntry>))
      requires Working(Open(Idx(), segments), t)
      modifies `inverted, `segmentSeq
      ensures Open(Idx(), r.0) == Compact(old(Open(Idx(), segments)), t)
      ensures Working(Open(Idx(), r.0), t) && |r.0| < COMPACT_THRESHOLD
      ensures r.1 == Listing(Replay(inverted, r.0))
      ensures r.1 == [] <==> Replay(inverted, r.0) == map[]
    {
      ghost var o := Open(Idx(), segments);
      assert forall k | k in segments :: SegmentOk(Idx(), t, k);
      var resolved := MaterializePostingState(segments);
      if |segments| < COMPACT_THRESHOLD {
        return (segments, resolved);
      }
      CompactKeepsMeaning(o, t);
      var k := NextSegmentKey(t);
      inverted := inverted[k := SegmentValue(Segment(t, resolved, []))];
      DeleteInverted(segments);
      assert Open(Idx(), [k]) == Compact(o, t);
      assert SegmentOk(Idx(), t, k);
      resolved := MaterializePostingState([k]);
      r := ([k], resolved);
    }

    /** Cache first; on a miss, storage, and then the cache is filled. */
    method GetPostingListInternal(t: Term) returns (list: seq<PostingEntry>)
      requires Usable(Idx(), cache)
      modifies `cache
      ensures list == ReadList(inverted, t)
      ensures Usable(Idx(), cache)
    {
      if t in cache {
        return cache[t];
      }
      if TermKey(t) !in inverted {
        return [];
      }
      assert TermOk(Idx(), t);
      var stored := inverted[TermKey(t)];
      if stored.StateValue? {
        assert forall k | k in stored.segments :: SegmentOk(Idx(), t, k);
        list := MaterializePostingState(stored.segments);
      } else {
        list := stored.entries;
      }
      CachePut(t, list);
    }

    // -------------------------------------------------------------- indexing and deleting

    /** One delta as a step of an operation on corpus c that found the tables at `start`. */
    method ApplyToward(t: Term, added: seq<PostingEntry>, removed: seq<DocKey>,
                       ghost start: Table, ghost c: Corpus, ghost op: Operation, ghost pending: set<Term>)
      requires Usable(Idx(), cache) && Halfway(start, c, op, inverted, pending) && t in pending
      requires Effect(c, op, t, PostingsOf(start, t)) == AddAll(RemoveAll(PostingsOf(start, t), removed), added)
      modifies `inverted, `cache, `segmentSeq
      ensures Usable(Idx(), cache) && Halfway(start, c, op, inverted, pending - {t})
    {
      ghost var before, cacheBefore := Idx(), cache;
      DeltaDenotes(before, t, added, removed);
      DeltaMakesNoLegacy(before, t, added, removed);
      ApplyTermDelta(t, added, removed);
      CoherentAfterDelta(before, Idx(), cacheBefore, cache, t);
      HalfwayStep(start, c, op, before, Idx(), pending, t);
    }

    method IndexDocument(docKey: DocKey, text: string)
      requires Sound()
      modifies this
      ensures Sound() && (old(Valid()) ==> Valid())
      ensures Contents() == Indexed(old(Contents()), Document(docKey, tokenize(text)))
      ensures Moved(old(inverted), old(Contents()), IndexOne(Document(docKey, tokenize(text))), inverted)
    {
      var terms := Tokens(tokenize, text);
      var counts := CountTerms(terms);
      ghost var c, start, doc := Contents(), inverted, Document(docKey, terms);
      var previous := RecordDocument(docKey, terms, counts);
      ReindexTerms(docKey, previous, counts, |terms|, c, doc);
      MovedKeeps(start, c, IndexOne(doc), inverted);
    }

    /** Statistics and forward record of a new or replaced document; gives back the counts it had. */
    method RecordDocument(docKey: DocKey, terms: seq<Term>, counts: TermCounts) returns (previous: TermCounts)
      requires Accurate(Contents(), stats) && counts == Bag(terms)
      modifies `stats, `forward
      ensures Accurate(Contents(), stats)
      ensures Contents() == Indexed(old(Contents()), Document(docKey, terms))
      ensures previous == if docKey in old(forward) then old(forward)[docKey] else map[]
    {
      previous := map[];
      var newStats := stats;
      if docKey in forward {
        previous := forward[docKey];
        var oldLength := SumValues(previous);
        newStats := StatsRemove(newStats, oldLength);
      }
      ghost var c, before := Contents(), stats;
      stats := StatsUpdate(newStats, |terms|);
      AccurateAfterIndex(c, before, Document(docKey, terms), newStats, stats);
      forward := forward[docKey := counts];
    }

    /** The loop over the terms a document has or had. */
    method ReindexTerms(docKey: DocKey, previous: TermCounts, counts: TermCounts, docLength: nat,
                        ghost c: Corpus, ghost doc: Document)
      requires Usable(Idx(), cache)
      requires docKey == doc.key && counts == Bag(doc.tokens) && docLength == |doc.tokens|
      requires previous == if docKey in c.docs then c.docs[docKey] else map[]
      modifies `inverted, `cache, `segmentSeq
      ensures Usable(Idx(), cache) && Moved(old(inverted), c, IndexOne(doc), inverted)
    {
      ghost var start, op := inverted, IndexOne(doc);
      var affected := counts.Keys + previous.Keys;
      HalfwayStart(start, c, op, affected);
      while affected != {}
        invariant Usable(Idx(), cache)
        invariant Halfway(start, c, op, inverted, affected)
        decreases affected
      {
        var t :| t in affected;
        var removed := if t in previous then [docKey] else [];
        var added := if t in counts then [PostingEntry(docKey, counts[t], docLength)] else [];
        IndexDelta(c, doc, t, PostingsOf(start, t), added, removed);
        ApplyToward(t, added, removed, start, c, op, affected);
        affected := affected - {t};
      }
    }

    method DeleteDocument(docKey: DocKey)
      requires Sound()
      modifies this
      ensures Sound() && (old(Valid()) ==> Valid())
      ensures Contents() == Deleted(old(Contents()), docKey)
      ensures Moved(old(inverted), old(Contents()), DeleteOne(docKey), inverted)
    {
      ghost var c, start := Contents(), inverted;
      var docLen := UnindexDocument(docKey);
      ghost var table, after := inverted, Apply(c, DeleteOne(docKey));
      MovedKeeps(start, c, DeleteOne(docKey), table);
      ForgetDocument(docKey, docLen);
      assert inverted == table && Contents() == after;
    }

    /** The postings of a document go; an unknown key changes nothing. */
    method UnindexDocument(docKey: DocKey) returns (docLen: nat)
      requires Usable(Idx(), cache) && Covers(forward, inverted) && Positive(forward)
      modifies `inverted, `cache, `segmentSeq
      ensures Usable(Idx(), cache) && Moved(old(inverted), Contents(), DeleteOne(docKey), inverted)
      ensures docLen == if docKey in forward then DocLength(forward[docKey]) else 0
    {
      if docKey !in forward {
        HalfwayStart(inverted, Contents(), DeleteOne(docKey), {});
        return 0;
      }
      docLen := UnindexTerms(docKey, forward[docKey]);
    }

    /** Drops the forward record; the statistics only follow when the document had a token. */
    method ForgetDocument(docKey: DocKey, docLen: nat)
      requires Accurate(Contents(), stats)
      requires docLen == if docKey in forward then DocLength(forward[docKey]) else 0
      modifies `stats, `forward, `phantoms
      ensures Accurate(Contents(), stats)
      ensures Contents() == Deleted(old(Contents()), docKey)
    {
      ghost var c, before := Contents(), stats;
      RetireLength(docLen);
      AccurateAfterDelete(c, before, docKey, docLen, stats);
      ghost var after := Deleted(c, docKey);
      phantoms := after.phantoms;
      forward := forward - {docKey};
      assert Contents() == after;
    }

    method RetireLength(docLen: nat)
      modifies `stats
      ensures stats == if docLen > 0 then StatsRemove(old(stats), docLen) else old(stats)
    {
      if docLen > 0 {
        stats := StatsRemove(stats, docLen);
      }
    }

    /** Takes a document out of each of its terms; its length is picked up from the first posting found. */
    method UnindexTerms(docKey: DocKey, counts: TermCounts) returns (docLen: nat)
      requires Usable(Idx(), cache) && Covers(forward, inverted)
      requires docKey in forward && forward[docKey] == counts && PositiveCounts(counts)
      modifies `inverted, `cache, `segmentSeq
      ensures Usable(Idx(), cache) && Moved(old(inverted), Contents(), DeleteOne(docKey), inverted)
      ensures docLen == DocLength(counts)
    {
      docLen := 0;
      ghost var start, c, op := inverted, Contents(), DeleteOne(docKey);
      var terms := counts.Keys;
      HalfwayStart(start, c, op, terms);
      LengthZeroIff(counts);
      while terms != {}
        invariant terms <= counts.Keys
        invariant Usable(Idx(), cache)
        invariant Halfway(start, c, op, inverted, terms)
        invariant docLen == 0 || docLen == DocLength(counts)
        invariant terms < counts.Keys ==> docLen == DocLength(counts)
        decreases terms
      {
        var t :| t in terms;
        var list := GetPostingListInternal(t);
        if docLen == 0 {
          docLen := FindLength(list, docKey);
          assert Posted(forward, t, PostingsOf(start, t));
          ListedLength(Idx(), forward, t, docKey);
        }
        DeleteDelta(c, docKey, t, PostingsOf(start, t));
        ApplyToward(t, [], [docKey], start, c, op, terms);
        terms := terms - {t};
      }
    }

    /** The length recorded with a document in a posting list; zero when the list does not have it. */
    static method FindLength(list: seq<PostingEntry>, docKey: DocKey) returns (docLen: nat)
      ensures HasKey(list, docKey) ==> exists e | e in list :: e.docKey == docKey && e.docLength == docLen
      ensures !HasKey(list, docKey) ==> docLen == 0
    {
      for i := 0 to |list|
        invariant forall j | 0 <= j < i :: list[j].docKey != docKey
      {
        if list[i].docKey == docKey {
          assert list[i] in list;
          return list[i].docLength;
        }
      }
      docLen := 0;
    }

    /** `index_batch` for documents whose keys may repeat: what it does to each term is `BatchOn`. */
    method IndexBatch(docs: seq<(DocKey, string)>)
      requires Sound()
      modifies this
      ensures Sound()
      ensures Contents() == IndexedAll(old(Contents()), Documents(docs, tokenize))
      ensures Moved(old(inverted), old(Contents()), IndexMany(Documents(docs, tokenize)), inverted)
      ensures old(Valid()) ==> (Valid() <==> NoStaleTerm(Documents(docs, tokenize)))
    {
      ghost var c, start := Contents(), inverted;
      WriteBatch(docs);
      MovedKeeps(start, c, IndexMany(Documents(docs, tokenize)), inverted);
    }

    method WriteBatch(docs: seq<(DocKey, string)>)
      requires Consistent()
      modifies this
      ensures Consistent()
      ensures Contents() == IndexedAll(old(Contents()), Documents(docs, tokenize))
      ensures Moved(old(inverted), old(Contents()), IndexMany(Documents(docs, tokenize)), inverted)
    {
      ghost var c := Contents();
      ghost var batch := Documents(docs, tokenize);
      IndexedAllPositive(c, batch);
      var plan := CollectBatch(docs);
      ghost var after := Contents();
      ApplyPlan(plan, c, batch);
      stats := plan.stats;
      assert Contents() == after;
    }

    /** The first pass of a batch: forward records are written at once, postings only planned. */
    method CollectBatch(docs: seq<(DocKey, string)>) returns (plan: BatchPlan)
      requires stats == StatsOf(Contents())
      modifies `forward
      ensures Contents() == IndexedAll(old(Contents()), Documents(docs, tokenize))
      ensures plan.stats == StatsOf(Contents())
      ensures PlanFor(plan, old(Contents()), Documents(docs, tokenize))
    {
      ghost var c := Contents();
      ghost var batch := Documents(docs, tokenize);
      plan := BatchPlan(map[], map[], stats);
      for i := 0 to |docs|
        invariant Contents() == IndexedAll(c, batch[..i])
        invariant plan.stats == StatsOf(Contents())
        invariant PlanFor(plan, c, batch[..i])
      {
        PrefixSnoc(batch, i);
        plan := PlanOne(plan, docs[i].0, docs[i].1, c, batch[..i]);
      }
      WholePrefix(batch);
    }

    method PlanOne(plan: BatchPlan, docKey: DocKey, text: string, ghost c: Corpus, ghost done: seq<Document>)
      returns (more: BatchPlan)
      requires Contents() == IndexedAll(c, done) && plan.stats == StatsOf(Contents()) && PlanFor(plan, c, done)
      modifies `forward
      ensures Contents() == IndexedAll(c, done + [Document(docKey, Tokens(tokenize, text))])
      ensures more.stats == StatsOf(Contents())
      ensures PlanFor(more, c, done + [Document(docKey, Tokens(tokenize, text))])
    {
      var terms := Tokens(tokenize, text);
      ghost var doc := Document(docKey, terms);
      assert (done + [doc])[..|done|] == done;
      IndexKeepsStats(Contents(), doc);
      var newStats := plan.stats;
      var previous: TermCounts := map[];
      if docKey in forward {
        previous := forward[docKey];
        var oldLength := SumValues(previous);
        newStats := StatsRemove(newStats, oldLength);
      }
      var counts := CountTerms(terms);
      forward := forward[docKey := counts];
      var affected := Mark(plan.affected, previous.Keys + counts.Keys, docKey);
      var entries := Enter(plan.entries, docKey, counts, |terms|);
      MarksExtend(plan.affected, affected, c, done, doc, previous);
      EntriesExtend(plan.entries, entries, done, doc);
      more := BatchPlan(entries, affected, StatsUpdate(newStats, |terms|));
    }

    /** The second pass: one delta for each term with a marked document. */
    method ApplyPlan(plan: BatchPlan, ghost c: Corpus, ghost batch: seq<Document>)
      requires Usable(Idx(), cache)
      requires PlanFor(plan, c, batch)
      modifies `inverted, `cache, `segmentSeq
      ensures Usable(Idx(), cache) && Moved(old(inverted), c, IndexMany(batch), inverted)
    {
      ghost var start, op := inverted, IndexMany(batch);
      var pending := plan.affected.Keys;
      UnmarkedTerms(start, plan, c, batch);
      while pending != {}
        invariant pending <= plan.affected.Keys
        invariant Usable(Idx(), cache)
        invariant Halfway(start, c, op, inverted, pending)
        decreases pending
      {
        var t :| t in pending;
        var added := EntriesAt(plan.entries, t);
        var removed := CollectKeys(plan.affected[t]);
        assert MarksAt(plan.affected, t) == AffectedBy(c, batch, t);
        assert EntriesAt(plan.entries, t) == EntriesFor(batch, t);
        ApplyToward(t, added, removed, start, c, op, pending);
        pending := pending - {t};
      }
    }

    // -------------------------------------------------------------- searching

    method Search(query: string, limit: nat) returns (results: seq<FtsResult>)
      requires Sound()
      modifies `cache
      ensures Sound()
      ensures TopOf(results, EngineScores(ln, inverted, stats, tokenize(query)), limit)
      ensures AgreesOn(forward, inverted, tokenize(query)) && WithinLimit(forward, tokenize(query))
              ==> TopOf(results, BruteScores(ln, Contents(), tokenize(query)), limit)
      ensures stats.totalDocs == 0 ==> results == []
    {
      var terms := Tokens(tokenize, query);
      ghost var ix, c := Idx(), Contents();
      var scores := ScoreAll(terms);
      assert Idx() == ix && Contents() == c;
      results := Rank(scores, limit);
      if AgreesOn(c.docs, ix.table, terms) && WithinLimit(c.docs, terms) {
        WithinLimitIsBrute(ln, ix, stats, c, terms);
      }
    }

    method ScoreAll(terms: seq<Term>) returns (scores: map<DocKey, real>)
      requires Usable(Idx(), cache)
      modifies `cache
      ensures Usable(Idx(), cache)
      ensures scores == EngineScores(ln, inverted, stats, terms)
    {
      scores := map[];
      var totalDocs := stats.totalDocs;
      var avg := EffectiveLength(stats.avgDl.Value());
      if totalDocs == 0 {
        return;
      }
      ghost var score := PostingScorer(ln, inverted, stats);
      for i := 0 to |terms|
        invariant Usable(Idx(), cache)
        invariant scores == KeptScores(score, LookedAt(inverted), terms[..i])
      {
        PrefixSnoc(terms, i);
        scores := ScoreTerm(terms[i], totalDocs, avg, scores, terms[..i]);
      }
      WholePrefix(terms);
    }

    method ScoreTerm(t: Term, totalDocs: nat, avg: real, scores: map<DocKey, real>, ghost done: seq<Term>)
      returns (more: map<DocKey, real>)
      requires Usable(Idx(), cache)
      requires totalDocs == stats.totalDocs && avg == EffectiveLength(stats.avgDl.Value())
      requires scores == KeptScores(PostingScorer(ln, inverted, stats), LookedAt(inverted), done)
      modifies `cache
      ensures Usable(Idx(), cache)
      ensures more == KeptScores(PostingScorer(ln, inverted, stats), LookedAt(inverted), done + [t])
    {
      AddTermExtends(ln, Idx(), stats, done, t, scores);
      var list := GetPostingListInternal(t);
      var df := |list|;
      if df == 0 {
        return scores;
      }
      more := AddContributions(scores, Pruned(list), Idf(ln, totalDocs, df), avg);
    }

    // -------------------------------------------------------------- whole runs

    /**
     Serves any sequence of requests. The corpus is the fold of the operations, the statistics are
     those of that corpus, each term's postings are what the run makes of them, and every search is
     answered from what is stored at its moment, by brute force over the corpus where `Answers` says
     so. The tables agree exactly when no posting was left unjustified, and when every document is
     deleted no record stays behind.
     */
    method Serve(requests: seq<Request>) returns (answers: seq<seq<FtsResult>>)
      requires Sound()
      modifies this
      ensures Sound()
      ensures Contents() == Run(old(Contents()), OperationsOf(requests, tokenize))
      ensures RanTo(old(inverted), old(Contents()), OperationsOf(requests, tokenize), inverted)
      ensures Valid() <==> forall t: Term :: Spotless(old(inverted), old(forward), OperationsOf(requests, tokenize), t)
      ensures AllAnswered(ln, old(inverted), old(Contents()), OperationsOf(requests, tokenize), answers)
      ensures stats.totalLen == TotalLength(forward) && AverageOk(stats)
      ensures stats.totalDocs
              == |forward| + old(phantoms) + TokenFreeDeletions(old(Contents()), OperationsOf(requests, tokenize))
      ensures forward == map[] ==>
                forall k | k in inverted && Spotless(old(inverted), old(forward), OperationsOf(requests, tokenize), k.term)
                  :: EmptyFromStart(old(inverted), inverted, k)
      ensures Valid() && forward == map[] && old(inverted) == map[] ==> inverted == map[]
    {
      ghost var c, start := Contents(), inverted;
      ghost var ops := OperationsOf(requests, tokenize);
      answers := ServeAll(requests, ops);
      RunAgreesIff(start, c, ops, inverted);
      StatsConserved(c, ops, Contents());
      if forward == map[] {
        RunToEmpty(start, c, ops, Idx());
      }
    }

    method ServeAll(requests: seq<Request>, ghost ops: seq<Operation>) returns (answers: seq<seq<FtsResult>>)
      requires Sound() && ops == OperationsOf(requests, tokenize)
      modifies this
      ensures Sound()
      ensures Contents() == Run(old(Contents()), ops)
      ensures RanTo(old(inverted), old(Contents()), ops, inverted)
      ensures AllAnswered(ln, old(inverted), old(Contents()), ops, answers)
    {
      ghost var c, start := Contents(), inverted;
      answers := [];
      for i := 0 to |requests|
        invariant Sound() && Contents() == Run(c, ops[..i])
        invariant RanTo(start, c, ops[..i], inverted)
        invariant AllAnswered(ln, start, c, ops[..i], answers)
      {
        PrefixSnoc(ops, i);
        var answer := ServeOne(requests[i], ops[i], start, c, ops[..i]);
        AnsweredSnoc(ln, start, c, ops[..i], ops[i], answers, answer);
        answers := answers + [answer];
      }
      WholePrefix(ops);
    }

    method ServeOne(request: Request, ghost op: Operation, ghost start: Table, ghost c: Corpus,
                    ghost done: seq<Operation>)
      returns (answer: seq<FtsResult>)
      requires Sound() && op == OperationOf(request, tokenize)
      requires Contents() == Run(c, done) && RanTo(start, c, done, inverted) && Covers(c.docs, start)
      modifies this
      ensures Sound()
      ensures Contents() == Run(c, done + [op]) && RanTo(start, c, done + [op], inverted)
      ensures Answers(ln, start, c, done, op, answer)
    {
      if request.SearchRequest? {
        assert op == SearchFor(Tokens(tokenize, request.query), request.limit);
        answer := ServeSearch(request.query, request.limit, op, start, c, done);
      } else {
        assert !op.SearchFor?;
        ServeUpdateOne(request, op, start, c, done);
        answer := [];
      }
    }

    method ServeSearch(query: string, limit: nat, ghost op: Operation, ghost start: Table, ghost c: Corpus,
                       ghost done: seq<Operation>)
      returns (answer: seq<FtsResult>)
      requires Sound() && op == SearchFor(Tokens(tokenize, query), limit)
      requires Contents() == Run(c, done) && RanTo(start, c, done, inverted) && Covers(c.docs, start)
      modifies `cache
      ensures Sound()
      ensures Contents() == Run(c, done + [op]) && RanTo(start, c, done + [op], inverted)
      ensures Answers(ln, start, c, done, op, answer)
    {
      ghost var table, now := inverted, Contents();
      RunSnoc(c, done, op);
      SearchLeavesAll(start, c, done, op, table);
      answer := AnswerSearch(query, limit, op, start, c, done);
      assert inverted == table && Contents() == now;
    }

    method AnswerSearch(query: string, limit: nat, ghost op: Operation, ghost start: Table, ghost c: Corpus,
                        ghost done: seq<Operation>)
      returns (answer: seq<FtsResult>)
      requires Sound() && op == SearchFor(Tokens(tokenize, query), limit)
      requires Contents() == Run(c, done) && RanTo(start, c, done, inverted) && Covers(c.docs, start)
      modifies `cache
      ensures Sound()
      ensures Answers(ln, start, c, done, op, answer)
    {
      ghost var terms, ix, now := Tokens(tokenize, query), Idx(), Run(c, done);
      answer := Search(query, limit);
      assert Idx() == ix && Contents() == now;
      AnswersHold(ln, start, c, done, terms, limit, answer, ix);
    }

    method ServeUpdateOne(request: Request, ghost op: Operation, ghost start: Table, ghost c: Corpus,
                          ghost done: seq<Operation>)
      requires Sound() && op == OperationOf(request, tokenize) && !request.SearchRequest?
      requires Contents() == Run(c, done) && RanTo(start, c, done, inverted)
      modifies this
      ensures Sound()
      ensures Contents() == Run(c, done + [op]) && RanTo(start, c, done + [op], inverted)
    {
      ghost var mid, now := inverted, Contents();
      ServeUpdate(request, op);
      RunSnoc(c, done, op);
      assert Moved(mid, now, op, inverted) && Contents() == Apply(now, op);
      RanToSnoc(start, c, done, mid, op, inverted);
    }

    method ServeUpdate(request: Request, ghost op: Operation)
      requires Sound() && op == OperationOf(request, tokenize) && !request.SearchRequest?
      modifies this
      ensures Sound()
      ensures Contents() == Apply(old(Contents()), op)
      ensures Moved(old(inverted), old(Contents()), op, inverted)
    {
      match request
      case IndexRequest(docKey, text) =>
        assert op == IndexOne(Document(docKey, tokenize(text)));
        IndexDocument(docKey, text);
      case BatchRequest(docs) =>
        assert op == IndexMany(Documents(docs, tokenize));
        IndexBatch(docs);
      case DeleteRequest(docKey) =>
        assert op == DeleteOne(docKey);
        DeleteDocument(docKey);
    }
  }

  /** Adds the contributions of one posting list to the scores. */
  method AddContributions(scores: map<DocKey, real>, es: seq<PostingEntry>, idf: real, avg: real)
    returns (r: map<DocKey, real>)
    requires avg > 0.0
    ensures r == AddList(scores, es, GainOf(idf, avg))
  {
    r := scores;
    ghost var gain := GainOf(idf, avg);
    for i := 0 to |es|
      invariant r == AddList(scores, es[..i], gain)
    {
      var e := es[i];
      PrefixSnoc(es, i);
      var score := Contribution(idf, e.termFrequency, e.docLength, avg);
      AddListSnoc(scores, es[..i], e, gain, score);
      r := Raised(r, e.docKey, score);
    }
    WholePrefix(es);
  }

  /** A call to the engine, and what it asks of the corpus. */
  datatype Request =
    | IndexRequest(docKey: DocKey, text: string)
    | BatchRequest(docs: seq<(DocKey, string)>)
    | DeleteRequest(docKey: DocKey)
    | SearchRequest(query: string, limit: nat)

  ghost function OperationOf(r: Request, tokenize: string -> seq<Term>): Operation
  {
    match r
    case IndexRequest(k, text) => IndexOne(Document(k, Tokens(tokenize, text)))
    case BatchRequest(docs) => IndexMany(Documents(docs, tokenize))
    case DeleteRequest(k) => DeleteOne(k)
    case SearchRequest(query, limit) => SearchFor(Tokens(tokenize, query), limit)
  }

  ghost function OperationsOf(rs: seq<Request>, tokenize: string -> seq<Term>): (ops: seq<Operation>)
    ensures |ops| == |rs| && forall i | 0 <= i < |rs| :: ops[i] == OperationOf(rs[i], tokenize)
  {
    seq(|rs|, i requires 0 <= i < |rs| => OperationOf(rs[i], tokenize))
  }

  /** The answer comes from tables as the operations before it have made them, and from the statistics of their corpus. */
  ghost predicate AnsweredFrom(ln: Log, start: Table, c: Corpus, done: seq<Operation>, op: Operation,
                               answer: seq<FtsResult>, ix: Index)
    requires op.SearchFor?
  {
    && WellFormed(ix) && RanTo(start, c, done, ix.table)
    && TopOf(answer, EngineScores(ln, ix.table, StatsOf(Run(c, done)), op.query), op.limit)
  }

  ghost predicate SpotlessQuery(start: Table, docs: Forward, done: seq<Operation>, query: seq<Term>)
  {
    forall t | t in query :: Spotless(start, docs, done, t)
  }

  /**
   Every search is answered from the tables of its moment; when its terms are spotless and within the
   limit, that is the brute-force answer over the corpus of that moment.
   */
  ghost predicate Answers(ln: Log, start: Table, c: Corpus, done: seq<Operation>, op: Operation,
                          answer: seq<FtsResult>)
  {
    op.SearchFor? ==>
      && (exists ix: Index :: AnsweredFrom(ln, start, c, done, op, answer, ix))
      && (SpotlessQuery(start, c.docs, done, op.query) && WithinLimit(Run(c, done).docs, op.query)
          ==> TopOf(answer, BruteScores(ln, Run(c, done), op.query), op.limit))
  }

  lemma AnswersHold(ln: Log, start: Table, c: Corpus, done: seq<Operation>, query: seq<Term>, limit: nat,
                    answer: seq<FtsResult>, ix: Index)
    requires WellFormed(ix) && RanTo(start, c, done, ix.table) && Covers(c.docs, start)
    requires TopOf(answer, EngineScores(ln, ix.table, StatsOf(Run(c, done)), query), limit)
    requires AgreesOn(Run(c, done).docs, ix.table, query) && WithinLimit(Run(c, done).docs, query)
             ==> TopOf(answer, BruteScores(ln, Run(c, done), query), limit)
    ensures Answers(ln, start, c, done, SearchFor(query, limit), answer)
  {
    SpotlessAgrees(start, c, done, ix.table, query);
    assert AnsweredFrom(ln, start, c, done, SearchFor(query, limit), answer, ix);
  }

  lemma SearchLeavesAll(start: Table, c: Corpus, done: seq<Operation>, op: Operation, table: Table)
    requires op.SearchFor? && RanTo(start, c, done, table)
    ensures RanTo(start, c, done + [op], table)
  {
    HalfwayStart(table, Run(c, done), op, {});
    RanToSnoc(start, c, done, table, op, table);
  }

  /** One answer per operation, each from the corpus that the operations before it have made. */
  ghost predicate AllAnswered(ln: Log, start: Table, c: Corpus, ops: seq<Operation>, answers: seq<seq<FtsResult>>)
  {
    && |answers| == |ops|
    && forall i | 0 <= i < |ops| :: Answers(ln, start, c, ops[..i], ops[i], answers[i])
  }

  lemma AnsweredSnoc(ln: Log, start: Table, c: Corpus, ops: seq<Operation>, op: Operation,
                     answers: seq<seq<FtsResult>>, answer: seq<FtsResult>)
    requires AllAnswered(ln, start, c, ops, answers) && Answers(ln, start, c, ops, op, answer)
    ensures AllAnswered(ln, start, c, ops + [op], answers + [answer])
  {
    var more, all := ops + [op], answers + [answer];
    forall i | 0 <= i < |more| ensures Answers(ln, start, c, more[..i], more[i], all[i]) {
      SnocAt(ops, op, i);
      SnocAt(answers, answer, i);
      WholePrefix(ops);
    }
  }

  /** The tokens of a text. */
  function Tokens(tokenize: string -> seq<Term>, text: string): seq<Term>
  {
    tokenize(text)
  }

  ghost function Documents(docs: seq<(DocKey, string)>, tokenize: string -> seq<Term>): (r: seq<Document>)
    ensures |r| == |docs| && forall i | 0 <= i < |docs| :: r[i] == Document(docs[i].0, tokenize(docs[i].1))
  {
    seq(|docs|, i requires 0 <= i < |docs| => Document(docs[i].0, Tokens(tokenize, docs[i].1)))
  }

  // ---------------------------------------------------------------- the plan of a batch

  type Entries = map<Term, seq<PostingEntry>>
  type Marks = map<Term, set<DocKey>>

  /** Entries to add and documents to take out, term by term, and the statistics to write at the end. */
  datatype BatchPlan = BatchPlan(entries: Entries, affected: Marks, stats: FtsStats)

  function EntriesAt(m: Entries, t: Term): seq<PostingEntry>
  {
    if t in m then m[t] else []
  }

  function MarksAt(m: Marks, t: Term): set<DocKey>
  {
    if t in m then m[t] else {}
  }

  ghost predicate PlannedEntries(m: Entries, batch: seq<Document>)
  {
    forall t: Term :: EntriesAt(m, t) == EntriesFor(batch, t)
  }

  ghost predicate PlannedMarks(m: Marks, c: Corpus, batch: seq<Document>)
  {
    forall t: Term :: MarksAt(m, t) == AffectedBy(c, batch, t)
  }

  ghost predicate PlanFor(plan: BatchPlan, c: Corpus, batch: seq<Document>)
  {
    PlannedEntries(plan.entries, batch) && PlannedMarks(plan.affected, c, batch)
  }

  lemma UnmarkedTerms(table: Table, plan: BatchPlan, c: Corpus, batch: seq<Document>)
    requires PlanFor(plan, c, batch)
    ensures Halfway(table, c, IndexMany(batch), table, plan.affected.Keys)
  {
    forall t: Term | t !in plan.affected.Keys
      ensures Effect(c, IndexMany(batch), t, PostingsOf(table, t)) == PostingsOf(table, t)
    {
      assert MarksAt(plan.affected, t) == AffectedBy(c, batch, t);
      NothingPlanned(PostingsOf(table, t), c, batch, t);
    }
  }

  /** `entry(term).or_default().insert(doc_key)` for each of the terms. */
  method Mark(affected: Marks, terms: set<Term>, docKey: DocKey) returns (r: Marks)
    ensures forall t: Term :: MarksAt(r, t) == MarksAt(affected, t) + if t in terms then {docKey} else {}
  {
    r := affected;
    var rest := terms;
    while rest != {}
      invariant rest <= terms
      invariant forall t: Term :: MarksAt(r, t) == MarksAt(affected, t) + if t in terms - rest then {docKey} else {}
      decreases rest
    {
      var t :| t in rest;
      r := r[t := MarksAt(r, t) + {docKey}];
      rest := rest - {t};
    }
  }

  function EntryFor(docKey: DocKey, counts: TermCounts, docLength: nat, t: Term): seq<PostingEntry>
  {
    if t in counts then [PostingEntry(docKey, counts[t], docLength)] else []
  }

  /** `entry(term).or_default().push(..)` for each counted term. */
  method Enter(entries: Entries, docKey: DocKey, counts: TermCounts, docLength: nat) returns (r: Entries)
    ensures forall t: Term :: EntriesAt(r, t) == EntriesAt(entries, t) + EntryFor(docKey, counts, docLength, t)
  {
    r := entries;
    var rest := counts.Keys;
    while rest != {}
      invariant rest <= counts.Keys
      invariant forall t: Term ::
                  EntriesAt(r, t)
                  == EntriesAt(entries, t) + if t in rest then [] else EntryFor(docKey, counts, docLength, t)
      decreases rest
    {
      var t :| t in rest;
      r := r[t := EntriesAt(r, t) + EntryFor(docKey, counts, docLength, t)];
      rest := rest - {t};
    }
  }

  method CollectKeys(ks: set<DocKey>) returns (r: seq<DocKey>)
    ensures ToSet(r) == ks
  {
    r := [];
    var rest := ks;
    while rest != {}
      invariant rest <= ks && ToSet(r) == ks - rest
      decreases rest
    {
      var k :| k in rest;
      ToSetSnoc(r, k);
      r := r + [k];
      rest := rest - {k};
    }
  }

  lemma MarksExtend(m: Marks, m': Marks, c: Corpus, batch: seq<Document>, doc: Document, previous: TermCounts)
    requires PlannedMarks(m, c, batch)
    requires previous == var now := IndexedAll(c, batch).docs; if doc.key in now then now[doc.key] else map[]
    requires forall t: Term ::
               MarksAt(m', t) == MarksAt(m, t) + if t in previous.Keys + Bag(doc.tokens).Keys then {doc.key} else {}
    ensures PlannedMarks(m', c, batch + [doc])
  {
    var more := batch + [doc];
    assert more[..|more| - 1] == batch;
    forall t: Term ensures MarksAt(m', t) == AffectedBy(c, more, t) {
      assert MarksAt(m, t) == AffectedBy(c, batch, t);
      BagDomain(doc.tokens, t);
    }
  }

  lemma EntriesExtend(m: Entries, m': Entries, batch: seq<Document>, doc: Document)
    requires PlannedEntries(m, batch)
    requires forall t: Term ::
               EntriesAt(m', t) == EntriesAt(m, t) + EntryFor(doc.key, Bag(doc.tokens), |doc.tokens|, t)
    ensures PlannedEntries(m', batch + [doc])
  {
    var more := batch + [doc];
    assert more[..|more| - 1] == batch;
    forall t: Term ensures EntriesAt(m', t) == EntriesFor(more, t) {
      assert EntriesAt(m, t) == EntriesFor(batch, t);
      BagDomain(doc.tokens, t);
    }
  }
}
