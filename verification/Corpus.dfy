/**
 The simple thing the engine must agree with: a map from document key to the bag of its terms,
 with one extra number, the deletions of token-free documents, which the statistics never forget.
 */
module Corpora {
  import opened Totals
  import opened Postings

  /** Term counts of one document; the record kept in the forward table. */
  type TermCounts = map<Term, nat>
  type Forward = map<DocKey, TermCounts>

  datatype Corpus = Corpus(docs: Forward, phantoms: nat)

  function Bag(tokens: seq<Term>): TermCounts
  {
    map t | t in tokens :: multiset(tokens)[t]
  }

  ghost function DocLength(counts: TermCounts): nat
  {
    Total(counts)
  }

  predicate PositiveCounts(counts: TermCounts)
  {
    forall t | t in counts :: counts[t] >= 1
  }

  predicate Positive(docs: Forward)
  {
    forall d | d in docs :: PositiveCounts(docs[d])
  }

  lemma BagSnoc(tokens: seq<Term>, t: Term)
    ensures Bag(tokens + [t]) == Bag(tokens)[t := 1 + if t in tokens then Bag(tokens)[t] else 0]
  {
    var more := tokens + [t];
    assert multiset(more) == multiset(tokens) + multiset{t};
    forall u ensures u in more <==> u in tokens || u == t {
      if u in tokens {
        var i :| 0 <= i < |tokens| && tokens[i] == u;
        assert more[i] == u;
      }
      assert more[|tokens|] == t;
    }
    forall u | u in Bag(more) ensures Bag(more)[u] == Bag(tokens)[t := 1 + if t in tokens then Bag(tokens)[t] else 0][u] {
      assert u !in tokens ==> multiset(tokens)[u] == 0;
    }
  }

  /** The stored counts add up to the number of tokens, so a document's length can be recovered from them. */
  lemma {:induction false} BagLength(tokens: seq<Term>)
    ensures DocLength(Bag(tokens)) == |tokens|
    ensures PositiveCounts(Bag(tokens))
  {
    if tokens != [] {
      var front, t := tokens[..|tokens| - 1], tokens[|tokens| - 1];
      assert tokens == front + [t];
      BagLength(front);
      BagSnoc(front, t);
      TotalPut(Bag(front), t, Bag(tokens)[t]);
      if t in front {
        TotalRemove(Bag(front), t);
      } else {
        TotalAbsent(Bag(front), t);
      }
      forall u | u in Bag(tokens) ensures Bag(tokens)[u] >= 1 {
        assert u in multiset(tokens);
      }
    } else {
      assert Bag(tokens) == map[];
    }
  }

  /** The counting loop `*tf_map.entry(term).or_insert(0) += 1`. */
  method CountTerms(tokens: seq<Term>) returns (counts: TermCounts)
    ensures counts == Bag(tokens)
  {
    counts := map[];
    for i := 0 to |tokens|
      invariant counts == Bag(tokens[..i])
    {
      var t := tokens[i];
      assert tokens[..i + 1] == tokens[..i] + [t];
      BagSnoc(tokens[..i], t);
      counts := counts[t := 1 + if t in counts then counts[t] else 0];
    }
    assert tokens[..|tokens|] == tokens;
  }

  /** A document is token-free when its length is zero. */
  lemma LengthZeroIff(counts: TermCounts)
    requires PositiveCounts(counts)
    ensures DocLength(counts) == 0 <==> counts == map[]
  {
    if counts != map[] {
      var t :| t in counts;
      TotalRemove(counts, t);
    }
  }

  // ---------------------------------------------------------------- operations

  datatype Document = Document(key: DocKey, tokens: seq<Term>)

  datatype Operation =
    | IndexOne(doc: Document)
    | IndexMany(batch: seq<Document>)
    | DeleteOne(key: DocKey)
    | SearchFor(query: seq<Term>, limit: nat)

  function Indexed(c: Corpus, doc: Document): Corpus
  {
    c.(docs := c.docs[doc.key := Bag(doc.tokens)])
  }

  function IndexedAll(c: Corpus, batch: seq<Document>): Corpus
  {
    if batch == [] then c
    else Indexed(IndexedAll(c, batch[..|batch| - 1]), batch[|batch| - 1])
  }

  function Deleted(c: Corpus, k: DocKey): Corpus
  {
    Corpus(c.docs - {k}, c.phantoms + if k in c.docs && c.docs[k] == map[] then 1 else 0)
  }

  function Apply(c: Corpus, op: Operation): Corpus
  {
    match op
    case IndexOne(doc) => Indexed(c, doc)
    case IndexMany(batch) => IndexedAll(c, batch)
    case DeleteOne(k) => Deleted(c, k)
    case SearchFor(_, _) => c
  }

  function Run(c: Corpus, ops: seq<Operation>): Corpus
  {
    if ops == [] then c
    else Apply(Run(c, ops[..|ops| - 1]), ops[|ops| - 1])
  }

  lemma RunSnoc(c: Corpus, ops: seq<Operation>, op: Operation)
    ensures Run(c, ops + [op]) == Apply(Run(c, ops), op)
  {
    assert (ops + [op])[..|ops|] == ops;
  }

  predicate DistinctDocs(batch: seq<Document>)
  {
    forall i, j | 0 <= i < j < |batch| :: batch[i].key != batch[j].key
  }

  predicate Mentions(batch: seq<Document>, k: DocKey)
  {
    exists i | 0 <= i < |batch| :: batch[i].key == k
  }

  /** The last document of a batch filed under a key. */
  function LastTokens(batch: seq<Document>, k: DocKey): seq<Term>
    requires Mentions(batch, k)
  {
    var last := batch[|batch| - 1];
    if last.key == k then last.tokens else MentionsFront(batch, k); LastTokens(batch[..|batch| - 1], k)
  }

  lemma MentionsFront(batch: seq<Document>, k: DocKey)
    requires batch != []
    ensures Mentions(batch, k) <==> Mentions(batch[..|batch| - 1], k) || batch[|batch| - 1].key == k
  {
    var front := batch[..|batch| - 1];
    if Mentions(front, k) {
      var i :| 0 <= i < |front| && front[i].key == k;
      assert batch[i].key == k;
    }
    if Mentions(batch, k) && batch[|batch| - 1].key != k {
      var i :| 0 <= i < |batch| && batch[i].key == k;
      assert front[i].key == k;
    }
  }

  /** A fold of single updates, key by key: the last document filed under a key wins. */
  lemma {:induction false} IndexedAllAt(c: Corpus, batch: seq<Document>, k: DocKey)
    ensures IndexedAll(c, batch).phantoms == c.phantoms
    ensures k in IndexedAll(c, batch).docs <==> k in c.docs || Mentions(batch, k)
    ensures Mentions(batch, k) ==> IndexedAll(c, batch).docs[k] == Bag(LastTokens(batch, k))
    ensures !Mentions(batch, k) && k in c.docs ==> IndexedAll(c, batch).docs[k] == c.docs[k]
  {
    if batch != [] {
      IndexedAllAt(c, batch[..|batch| - 1], k);
      MentionsFront(batch, k);
    }
  }

  lemma {:induction false} DistinctLast(batch: seq<Document>, doc: Document)
    requires DistinctDocs(batch) && doc in batch
    ensures Mentions(batch, doc.key) && LastTokens(batch, doc.key) == doc.tokens
  {
    var i :| 0 <= i < |batch| && batch[i] == doc;
    assert Mentions(batch, doc.key);
    if i < |batch| - 1 {
      assert batch[..|batch| - 1][i] == doc;
      DistinctLast(batch[..|batch| - 1], doc);
    }
  }

  /** With one document per key, the order in which a batch is indexed does not matter. */
  lemma BatchOrderIrrelevant(c: Corpus, a: seq<Document>, b: seq<Document>)
    requires DistinctDocs(a) && DistinctDocs(b) && forall d :: d in a <==> d in b
    ensures IndexedAll(c, a) == IndexedAll(c, b)
  {
    var ca, cb := IndexedAll(c, a), IndexedAll(c, b);
    forall k
      ensures k in ca.docs <==> k in cb.docs
      ensures k in ca.docs ==> ca.docs[k] == cb.docs[k]
    {
      IndexedAllAt(c, a, k);
      IndexedAllAt(c, b, k);
      SameMention(a, b, k);
      SameMention(b, a, k);
    }
    IndexedAllAt(c, a, "");
    IndexedAllAt(c, b, "");
    assert ca.docs == cb.docs;
  }

  lemma SameMention(a: seq<Document>, b: seq<Document>, k: DocKey)
    requires DistinctDocs(a) && DistinctDocs(b) && forall d :: d in a <==> d in b
    ensures Mentions(a, k) ==> Mentions(b, k) && LastTokens(a, k) == LastTokens(b, k)
  {
    if Mentions(a, k) {
      var i :| 0 <= i < |a| && a[i].key == k;
      assert a[i] in a && a[i] in b;
      DistinctLast(a, a[i]);
      DistinctLast(b, a[i]);
    }
  }

  // ---------------------------------------------------------------- what a run leaves behind

  predicate Touches(op: Operation, k: DocKey)
  {
    match op
    case IndexOne(doc) => doc.key == k
    case IndexMany(batch) => Mentions(batch, k)
    case DeleteOne(key) => key == k
    case SearchFor(_, _) => false
  }

  /** Last write wins over a whole run: a document is what the last operation that touched it made of it. */
  lemma {:induction false} LastWriteWins(c: Corpus, ops: seq<Operation>, n: nat, k: DocKey)
    requires n < |ops| && Touches(ops[n], k)
    requires forall i | n < i < |ops| :: !Touches(ops[i], k)
    ensures match ops[n]
            case IndexOne(doc) => k in Run(c, ops).docs && Run(c, ops).docs[k] == Bag(doc.tokens)
            case IndexMany(batch) => k in Run(c, ops).docs && Run(c, ops).docs[k] == Bag(LastTokens(batch, k))
            case DeleteOne(_) => k !in Run(c, ops).docs
            case SearchFor(_, _) => false
  {
    var front := ops[..|ops| - 1];
    if n == |ops| - 1 {
      match ops[n] {
        case IndexMany(batch) => IndexedAllAt(Run(c, front), batch, k);
        case _ =>
      }
    } else {
      LastWriteWins(c, front, n, k);
      assert !Touches(ops[|ops| - 1], k);
      match ops[|ops| - 1] {
        case IndexMany(batch) => IndexedAllAt(Run(c, front), batch, k);
        case _ =>
      }
    }
  }

  /** A run never touches what it does not name. */
  lemma {:induction false} UntouchedStays(c: Corpus, ops: seq<Operation>, k: DocKey)
    requires forall i | 0 <= i < |ops| :: !Touches(ops[i], k)
    ensures k in Run(c, ops).docs <==> k in c.docs
    ensures k in c.docs ==> Run(c, ops).docs[k] == c.docs[k]
  {
    if ops != [] {
      var front := ops[..|ops| - 1];
      UntouchedStays(c, front, k);
      assert !Touches(ops[|ops| - 1], k);
      match ops[|ops| - 1] {
        case IndexMany(batch) => IndexedAllAt(Run(c, front), batch, k);
        case _ =>
      }
    }
  }

  /** Every run keeps the counts positive. */
  lemma {:induction false} RunPositive(c: Corpus, ops: seq<Operation>)
    requires Positive(c.docs)
    ensures Positive(Run(c, ops).docs)
  {
    if ops != [] {
      RunPositive(c, ops[..|ops| - 1]);
      ApplyPositive(Run(c, ops[..|ops| - 1]), ops[|ops| - 1]);
    }
  }

  lemma ApplyPositive(c: Corpus, op: Operation)
    requires Positive(c.docs)
    ensures Positive(Apply(c, op).docs)
  {
    match op {
      case IndexOne(doc) => BagLength(doc.tokens);
      case IndexMany(batch) => IndexedAllPositive(c, batch);
      case DeleteOne(_) =>
      case SearchFor(_, _) =>
    }
  }

  lemma {:induction false} IndexedAllPositive(c: Corpus, batch: seq<Document>)
    requires Positive(c.docs)
    ensures Positive(IndexedAll(c, batch).docs)
  {
    if batch != [] {
      IndexedAllPositive(c, batch[..|batch| - 1]);
      BagLength(batch[|batch| - 1].tokens);
    }
  }

  // ---------------------------------------------------------------- statistics

  /** An average as it was computed, a length over a count; `Value` is the number itself. */
  datatype Average = NoAverage | Over(len: nat, docs: nat) {
    function Value(): real
    {
      if Over? && docs > 0 then len as real / docs as real else 0.0
    }
  }

  datatype FtsStats = FtsStats(totalDocs: nat, totalLen: nat, avgDl: Average)

  function Mean(len: nat, docs: nat): Average
  {
    if docs == 0 then NoAverage else Over(len, docs)
  }

  function StatsUpdate(s: FtsStats, len: nat): FtsStats
  {
    FtsStats(s.totalDocs + 1, s.totalLen + len, Mean(s.totalLen + len, s.totalDocs + 1))
  }

  /** The subtraction saturates at zero. */
  function StatsRemove(s: FtsStats, len: nat): FtsStats
  {
    if s.totalDocs == 0 then s
    else
      var docs := s.totalDocs - 1;
      var total := if len <= s.totalLen then s.totalLen - len else 0;
      FtsStats(docs, total, Mean(total, docs))
  }

  /** For any record: no document, no change; else one document fewer, and the length goes down to zero at most. */
  lemma RemoveIs(s: FtsStats, len: nat)
    ensures s.totalDocs == 0 ==> StatsRemove(s, len) == s
    ensures s.totalDocs > 0 ==>
              var r := StatsRemove(s, len);
              && r.totalDocs + 1 == s.totalDocs
              && (r.totalLen + len == s.totalLen || (r.totalLen == 0 && len > s.totalLen))
              && r.avgDl == if r.totalDocs == 0 then NoAverage else Over(r.totalLen, r.totalDocs)
  {
  }

  ghost function Lengths(docs: Forward): map<DocKey, nat>
  {
    map d | d in docs :: DocLength(docs[d])
  }

  ghost function TotalLength(docs: Forward): nat
  {
    Total(Lengths(docs))
  }

  function StatsFor(docs: nat, len: nat): FtsStats
  {
    FtsStats(docs, len, Mean(len, docs))
  }

  /** The statistics a corpus should have. */
  ghost function StatsOf(c: Corpus): FtsStats
  {
    StatsFor(DocCount(c), TotalLength(c.docs))
  }

  lemma StatsForRemove(docs: nat, len: nat, gone: nat, docs': nat, len': nat)
    requires docs == docs' + 1 && len == len' + gone
    ensures StatsRemove(StatsFor(docs, len), gone) == StatsFor(docs', len')
  {
  }

  lemma StatsForUpdate(docs: nat, len: nat, more: nat, docs': nat, len': nat)
    requires docs' == docs + 1 && len' == len + more
    ensures StatsUpdate(StatsFor(docs, len), more) == StatsFor(docs', len')
  {
  }

  lemma TotalLengthRemove(docs: Forward, k: DocKey)
    requires k in docs
    ensures TotalLength(docs) == DocLength(docs[k]) + TotalLength(docs - {k})
    ensures |docs - {k}| == |docs| - 1
  {
    TotalRemove(Lengths(docs), k);
    assert Lengths(docs) - {k} == Lengths(docs - {k});
    assert (docs - {k}).Keys == docs.Keys - {k};
  }

  lemma TotalLengthAdd(docs: Forward, k: DocKey, counts: TermCounts)
    requires k !in docs
    ensures TotalLength(docs[k := counts]) == DocLength(counts) + TotalLength(docs)
    ensures |docs[k := counts]| == |docs| + 1
  {
    TotalLengthRemove(docs[k := counts], k);
    assert docs[k := counts] - {k} == docs;
  }

  ghost function DocCount(c: Corpus): nat
  {
    |c.docs| + c.phantoms
  }

  lemma CountsAfterRemove(c: Corpus, k: DocKey)
    requires k in c.docs
    ensures var c' := Corpus(c.docs - {k}, c.phantoms);
            DocCount(c) == DocCount(c') + 1 && TotalLength(c.docs) == TotalLength(c'.docs) + DocLength(c.docs[k])
  {
    TotalLengthRemove(c.docs, k);
  }

  lemma CountsAfterAdd(c: Corpus, k: DocKey, counts: TermCounts)
    requires k !in c.docs
    ensures var c' := c.(docs := c.docs[k := counts]);
            DocCount(c') == DocCount(c) + 1 && TotalLength(c'.docs) == TotalLength(c.docs) + DocLength(counts)
  {
    TotalLengthAdd(c.docs, k, counts);
  }

  /** The subtraction never saturates, and the last document takes the totals to zero. */
  lemma RemoveExact(c: Corpus, k: DocKey)
    requires k in c.docs
    ensures DocLength(c.docs[k]) <= StatsOf(c).totalLen
    ensures StatsRemove(StatsOf(c), DocLength(c.docs[k])) == StatsOf(Corpus(c.docs - {k}, c.phantoms))
  {
    var c' := Corpus(c.docs - {k}, c.phantoms);
    CountsAfterRemove(c, k);
    StatsForRemove(DocCount(c), TotalLength(c.docs), DocLength(c.docs[k]), DocCount(c'), TotalLength(c'.docs));
  }

  lemma AddExact(c: Corpus, doc: Document)
    requires doc.key !in c.docs
    ensures StatsUpdate(StatsOf(c), |doc.tokens|) == StatsOf(Indexed(c, doc))
  {
    var c' := Indexed(c, doc);
    BagLength(doc.tokens);
    CountsAfterAdd(c, doc.key, Bag(doc.tokens));
    StatsForUpdate(DocCount(c), TotalLength(c.docs), |doc.tokens|, DocCount(c'), TotalLength(c'.docs));
  }

  lemma IndexedOverRemoved(c: Corpus, doc: Document)
    ensures Indexed(Corpus(c.docs - {doc.key}, c.phantoms), doc) == Indexed(c, doc)
    ensures doc.key !in c.docs ==> Corpus(c.docs - {doc.key}, c.phantoms) == c
  {
    assert (c.docs - {doc.key})[doc.key := Bag(doc.tokens)] == c.docs[doc.key := Bag(doc.tokens)];
    assert doc.key !in c.docs ==> c.docs - {doc.key} == c.docs;
  }

  lemma IndexKeepsStats(c: Corpus, doc: Document)
    ensures var before := if doc.key in c.docs then StatsRemove(StatsOf(c), DocLength(c.docs[doc.key])) else StatsOf(c);
            StatsUpdate(before, |doc.tokens|) == StatsOf(Indexed(c, doc))
  {
    var rest := Corpus(c.docs - {doc.key}, c.phantoms);
    IndexedOverRemoved(c, doc);
    AddExact(rest, doc);
    if doc.key in c.docs {
      RemoveExact(c, doc.key);
    }
  }

  lemma PhantomKeepsCounts(c: Corpus, k: DocKey)
    requires k in c.docs && c.docs[k] == map[]
    ensures DocCount(Deleted(c, k)) == DocCount(c) && TotalLength(Deleted(c, k).docs) == TotalLength(c.docs)
  {
    CountsAfterRemove(c, k);
  }

  lemma DeleteKeepsStats(c: Corpus, k: DocKey)
    requires Positive(c.docs)
    ensures StatsOf(Deleted(c, k)) ==
            if k in c.docs && DocLength(c.docs[k]) > 0
            then StatsRemove(StatsOf(c), DocLength(c.docs[k]))
            else StatsOf(c)
  {
    if k in c.docs {
      LengthZeroIff(c.docs[k]);
      if c.docs[k] == map[] {
        PhantomKeepsCounts(c, k);
      } else {
        RemoveExact(c, k);
      }
    } else {
      assert c.docs - {k} == c.docs;
    }
  }

  // ---------------------------------------------------------------- statistics over whole runs

  /** How many operations of a run deleted a live document without tokens. */
  ghost function TokenFreeDeletions(c: Corpus, ops: seq<Operation>): nat
  {
    if ops == [] then 0
    else
      var front, op := ops[..|ops| - 1], ops[|ops| - 1];
      var docs := Run(c, front).docs;
      TokenFreeDeletions(c, front)
      + if op.DeleteOne? && op.key in docs && docs[op.key] == map[] then 1 else 0
  }

  lemma {:induction false} PhantomsCountDeletions(c: Corpus, ops: seq<Operation>)
    ensures Run(c, ops).phantoms == c.phantoms + TokenFreeDeletions(c, ops)
  {
    if ops != [] {
      var front := ops[..|ops| - 1];
      PhantomsCountDeletions(c, front);
      match ops[|ops| - 1] {
        case IndexMany(batch) => IndexedAllAt(Run(c, front), batch, "");
        case _ =>
      }
    }
  }

  /** The stored average is the total length over the document count. */
  predicate AverageOk(s: FtsStats)
  {
    s.avgDl.Value() * s.totalDocs as real == s.totalLen as real
  }

  lemma StatsForAverage(docs: nat, len: nat)
    requires docs == 0 ==> len == 0
    ensures AverageOk(StatsFor(docs, len))
  {
  }

  lemma AverageExact(c: Corpus)
    ensures AverageOk(StatsOf(c))
  {
    if DocCount(c) == 0 {
      NoDocsNoLength(c.docs);
    }
    StatsForAverage(DocCount(c), TotalLength(c.docs));
  }

  lemma NoDocsNoLength(docs: Forward)
    requires |docs| == 0
    ensures TotalLength(docs) == 0
  {
    assert docs.Keys == {};
  }

  /**
   The statistics after any run: the total length is that of the live documents, the average is
   exact, and the document count is off by the token-free deletions only.
   */
  lemma StatsConserved(start: Corpus, ops: seq<Operation>, end: Corpus)
    requires end == Run(start, ops)
    ensures StatsOf(end).totalLen == TotalLength(end.docs)
    ensures StatsOf(end).totalDocs == |end.docs| + start.phantoms + TokenFreeDeletions(start, ops)
    ensures AverageOk(StatsOf(end))
  {
    PhantomsCountDeletions(start, ops);
    AverageExact(end);
  }

  /** Deleting a document just added restores corpus and statistics exactly when it had a token. */
  lemma DeleteUndoesIndexIff(c: Corpus, doc: Document)
    requires doc.key !in c.docs
    ensures Deleted(Indexed(c, doc), doc.key).docs == c.docs
    ensures Deleted(Indexed(c, doc), doc.key) == c <==> doc.tokens != []
    ensures StatsOf(Deleted(Indexed(c, doc), doc.key)) == StatsOf(c) <==> doc.tokens != []
  {
    var after := Deleted(Indexed(c, doc), doc.key);
    assert after.docs == c.docs;
    assert Bag(doc.tokens) == map[] <==> doc.tokens == [] by {
      if doc.tokens != [] { BagDomainHead(doc.tokens); }
    }
    assert DocCount(after) == DocCount(c) <==> doc.tokens != [];
  }

  lemma BagDomainHead(tokens: seq<Term>)
    requires tokens != []
    ensures tokens[0] in Bag(tokens)
  {
  }

  // ---------------------------------------------------------------- postings of a corpus

  ghost function EntryOf(docs: Forward, d: DocKey, t: Term): PostingEntry
    requires d in docs && t in docs[d]
  {
    PostingEntry(d, docs[d][t], DocLength(docs[d]))
  }

  /** The postings a term should have: one entry for each document that contains it. */
  ghost function Expected(docs: Forward, t: Term): PostingMap
  {
    map d | d in docs && t in docs[d] :: EntryOf(docs, d, t)
  }
}
