/**
 What each operation does to the postings of a term, whatever they were before, and what whole runs
 do. A batch that names a key twice may leave a posting that its last document does not justify;
 such a posting stays until an operation names the key with that term again.
 */
module Effects {
  import opened Postings
  import opened Corpora
  import opened Batches

  predicate Has(docs: Forward, k: DocKey, t: Term)
  {
    k in docs && t in docs[k]
  }

  /** The postings of term t after an operation on corpus c, from its postings m before it. */
  ghost function Effect(c: Corpus, op: Operation, t: Term, m: PostingMap): PostingMap
  {
    match op
    case IndexOne(doc) =>
      if t in doc.tokens then m[doc.key := PostingEntry(doc.key, Bag(doc.tokens)[t], |doc.tokens|)]
      else if Has(c.docs, doc.key, t) then m - {doc.key}
      else m
    case IndexMany(batch) => BatchOn(m, c, batch, t)
    case DeleteOne(k) => if Has(c.docs, k, t) then m - {k} else m
    case SearchFor(_, _) => m
  }

  /** The postings of term t after a run. */
  ghost function RunPostings(c: Corpus, ops: seq<Operation>, t: Term, m: PostingMap): PostingMap
  {
    if ops == [] then m
    else
      var front, op := ops[..|ops| - 1], ops[|ops| - 1];
      Effect(Run(c, front), op, t, RunPostings(c, front, t, m))
  }

  lemma RunPostingsSnoc(c: Corpus, ops: seq<Operation>, op: Operation, t: Term, m: PostingMap)
    ensures RunPostings(c, ops + [op], t, m) == Effect(Run(c, ops), op, t, RunPostings(c, ops, t, m))
  {
    assert (ops + [op])[..|ops|] == ops;
  }

  /** The operation files a document under key k that has term t. */
  predicate Names(op: Operation, k: DocKey, t: Term)
  {
    match op
    case IndexOne(doc) => doc.key == k && t in doc.tokens
    case IndexMany(batch) => NamedWith(batch, k, t)
    case DeleteOne(_) => false
    case SearchFor(_, _) => false
  }

  predicate MakesStale(op: Operation, k: DocKey, t: Term)
  {
    op.IndexMany? && LeavesStale(op.batch, k, t)
  }

  /** An operation that leaves no unjustified posting behind. */
  predicate Clean(op: Operation)
  {
    op.IndexMany? ==> NoStaleTerm(op.batch)
  }

  /** The posting is there exactly when the document has the term, and says so correctly. */
  ghost predicate RightAt(docs: Forward, t: Term, m: PostingMap, k: DocKey)
  {
    (k in m <==> Has(docs, k, t)) && (k in m ==> m[k] == EntryOf(docs, k, t))
  }

  ghost predicate StaleAt(docs: Forward, t: Term, m: PostingMap, k: DocKey)
  {
    k in m && !Has(docs, k, t)
  }

  /** An operation that names key and term makes the posting right or stale; any other leaves it as right or stale as it was. */
  lemma EffectAt(c: Corpus, op: Operation, t: Term, m: PostingMap, k: DocKey)
    requires RightAt(c.docs, t, m, k) || StaleAt(c.docs, t, m, k)
    ensures var docs, m' := Apply(c, op).docs, Effect(c, op, t, m);
            var stale := if Names(op, k, t) then MakesStale(op, k, t) else StaleAt(c.docs, t, m, k);
            if stale then StaleAt(docs, t, m', k) else RightAt(docs, t, m', k)
  {
    match op {
      case IndexOne(doc) =>
        BagDomain(doc.tokens, t);
        BagLength(doc.tokens);
      case IndexMany(batch) =>
        BatchOnAt(m, c, batch, k, t);
        if NamedWith(batch, k, t) { NamedIsMentioned(batch, k, t); }
      case DeleteOne(_) =>
      case SearchFor(_, _) =>
    }
  }

  /**
   After a run, the posting of k under t is unjustified when the last operation naming both was a
   batch that dropped the term again, or when none named them and it was so before.
   */
  predicate StaleAfter(before: bool, ops: seq<Operation>, k: DocKey, t: Term)
  {
    if ops == [] then before
    else if Names(ops[|ops| - 1], k, t) then MakesStale(ops[|ops| - 1], k, t)
    else StaleAfter(before, ops[..|ops| - 1], k, t)
  }

  lemma {:induction false} RunAt(c: Corpus, ops: seq<Operation>, t: Term, m: PostingMap, k: DocKey)
    requires RightAt(c.docs, t, m, k) || StaleAt(c.docs, t, m, k)
    ensures var docs, m' := Run(c, ops).docs, RunPostings(c, ops, t, m);
            if StaleAfter(StaleAt(c.docs, t, m, k), ops, k, t) then StaleAt(docs, t, m', k) else RightAt(docs, t, m', k)
  {
    if ops != [] {
      var front := ops[..|ops| - 1];
      RunAt(c, front, t, m, k);
      EffectAt(Run(c, front), ops[|ops| - 1], t, RunPostings(c, front, t, m), k);
    }
  }

  /** Every document that has the term is posted under it correctly, whatever else is posted. */
  ghost predicate Posted(docs: Forward, t: Term, m: PostingMap)
  {
    forall k | Has(docs, k, t) :: k in m && m[k] == EntryOf(docs, k, t)
  }

  /** The run leaves no posting of the term unjustified. */
  ghost predicate NoneStale(docs: Forward, m: PostingMap, ops: seq<Operation>, t: Term)
  {
    forall k: DocKey :: !StaleAfter(StaleAt(docs, t, m, k), ops, k, t)
  }

  lemma RightEverywhere(docs: Forward, t: Term, m: PostingMap)
    ensures m == Expected(docs, t) <==> forall k: DocKey :: RightAt(docs, t, m, k)
  {
    if forall k: DocKey :: RightAt(docs, t, m, k) {
      forall k ensures k in m <==> k in Expected(docs, t) { assert RightAt(docs, t, m, k); }
      forall k | k in m ensures m[k] == Expected(docs, t)[k] { assert RightAt(docs, t, m, k); }
      assert m == Expected(docs, t);
    }
  }

  /**
   Over any run, batches with repeated keys included: a term's postings are those of the documents
   if and only if no posting of it is left unjustified.
   */
  lemma RunExactIff(c: Corpus, ops: seq<Operation>, t: Term, m: PostingMap)
    requires Posted(c.docs, t, m)
    ensures RunPostings(c, ops, t, m) == Expected(Run(c, ops).docs, t) <==> NoneStale(c.docs, m, ops, t)
  {
    var m' := RunPostings(c, ops, t, m);
    RightEverywhere(Run(c, ops).docs, t, m');
    forall k: DocKey
      ensures RightAt(Run(c, ops).docs, t, m', k) <==> !StaleAfter(StaleAt(c.docs, t, m, k), ops, k, t)
    {
      RunAt(c, ops, t, m, k);
    }
  }

  /** One operation: exact on every term if and only if it leaves nothing unjustified. */
  lemma EffectExactIff(c: Corpus, op: Operation)
    ensures (forall t: Term :: Effect(c, op, t, Expected(c.docs, t)) == Expected(Apply(c, op).docs, t)) <==> Clean(op)
  {
    if op.IndexMany? {
      BatchExactIff(c, op.batch);
      if Clean(op) {
        forall t: Term ensures Effect(c, op, t, Expected(c.docs, t)) == Expected(Apply(c, op).docs, t) {
          assert BatchPostings(c, op.batch, t) == Expected(IndexedAll(c, op.batch).docs, t);
        }
      } else {
        var t: Term :| BatchPostings(c, op.batch, t) != Expected(IndexedAll(c, op.batch).docs, t);
        assert Effect(c, op, t, Expected(c.docs, t)) != Expected(Apply(c, op).docs, t);
      }
    } else {
      forall t: Term ensures Effect(c, op, t, Expected(c.docs, t)) == Expected(Apply(c, op).docs, t) {
        CleanRun(c.docs, [op], t);
        RunExactIff(c, [op], t, Expected(c.docs, t));
        RunPostingsSnoc(c, [], op, t, Expected(c.docs, t));
        RunSnoc(c, [], op);
        assert [] + [op] == [op];
      }
    }
  }

  /** From postings that agree, a run of clean operations leaves nothing unjustified. */
  lemma CleanRun(docs: Forward, ops: seq<Operation>, t: Term)
    requires forall i | 0 <= i < |ops| :: Clean(ops[i])
    ensures NoneStale(docs, Expected(docs, t), ops, t)
  {
    forall k: DocKey ensures !StaleAfter(StaleAt(docs, t, Expected(docs, t), k), ops, k, t) { CleanRunAt(ops, k, t); }
  }

  lemma {:induction false} CleanRunAt(ops: seq<Operation>, k: DocKey, t: Term)
    requires forall i | 0 <= i < |ops| :: Clean(ops[i])
    ensures !StaleAfter(false, ops, k, t)
  {
    if ops != [] {
      CleanRunAt(ops[..|ops| - 1], k, t);
      assert Clean(ops[|ops| - 1]);
    }
  }

  // ---------------------------------------------------------------- repairing a stale posting

  /** What is neither named nor taken out keeps its entry. */
  lemma EffectUnnamed(c: Corpus, op: Operation, t: Term, m: PostingMap, k: DocKey)
    requires !Names(op, k, t)
    ensures var m' := Effect(c, op, t, m); k in m' ==> k in m && m'[k] == m[k]
  {
    if op.IndexMany? {
      BatchOnAt(m, c, op.batch, k, t);
    }
  }

  lemma {:induction false} RunUnnamed(c: Corpus, ops: seq<Operation>, t: Term, m: PostingMap, k: DocKey)
    requires forall i | 0 <= i < |ops| :: !Names(ops[i], k, t)
    ensures var m' := RunPostings(c, ops, t, m); k in m' ==> k in m && m'[k] == m[k]
  {
    if ops != [] {
      var front := ops[..|ops| - 1];
      RunUnnamed(c, front, t, m, k);
      EffectUnnamed(Run(c, front), ops[|ops| - 1], t, RunPostings(c, front, t, m), k);
    }
  }

  /** Naming the key with the term once more, without dropping it again, makes the posting right, however it was. */
  lemma NamingRepairs(c: Corpus, ops: seq<Operation>, op: Operation, t: Term, m: PostingMap, k: DocKey)
    requires Posted(c.docs, t, m) && Names(op, k, t) && !MakesStale(op, k, t)
    ensures RightAt(Run(c, ops + [op]).docs, t, RunPostings(c, ops + [op], t, m), k)
  {
    assert (ops + [op])[..|ops|] == ops;
    assert (ops + [op])[|ops|] == op;
    RunAt(c, ops + [op], t, m, k);
  }

  /**
   Nothing else does: over any run that does not name the key with the term, deletions of the
   document included, a stale posting stays with the entry it has.
   */
  lemma OthersDoNotRepair(c: Corpus, ops: seq<Operation>, t: Term, m: PostingMap, k: DocKey)
    requires StaleAt(c.docs, t, m, k) && forall i | 0 <= i < |ops| :: !Names(ops[i], k, t)
    ensures StaleAt(Run(c, ops).docs, t, RunPostings(c, ops, t, m), k)
    ensures RunPostings(c, ops, t, m)[k] == m[k]
  {
    UnnamedStale(true, ops, k, t);
    RunAt(c, ops, t, m, k);
    RunUnnamed(c, ops, t, m, k);
  }

  lemma {:induction false} UnnamedStale(before: bool, ops: seq<Operation>, k: DocKey, t: Term)
    requires forall i | 0 <= i < |ops| :: !Names(ops[i], k, t)
    ensures StaleAfter(before, ops, k, t) == before
  {
    if ops != [] {
      UnnamedStale(before, ops[..|ops| - 1], k, t);
    }
  }

  // ---------------------------------------------------------------- a batch and its documents one by one

  /** The documents of a batch, each indexed by a call of its own. */
  function Singles(batch: seq<Document>): (ops: seq<Operation>)
    ensures |ops| == |batch| && forall i | 0 <= i < |batch| :: ops[i] == IndexOne(batch[i])
  {
    seq(|batch|, i requires 0 <= i < |batch| => IndexOne(batch[i]))
  }

  lemma SinglesFront(batch: seq<Document>)
    requires batch != []
    ensures var ops := Singles(batch);
            ops[..|ops| - 1] == Singles(batch[..|batch| - 1]) && ops[|ops| - 1] == IndexOne(batch[|batch| - 1])
  {
  }

  lemma {:induction false} SinglesRun(c: Corpus, batch: seq<Document>)
    ensures Run(c, Singles(batch)) == IndexedAll(c, batch)
  {
    if batch != [] {
      SinglesFront(batch);
      SinglesRun(c, batch[..|batch| - 1]);
    }
  }

  lemma {:induction false} SinglesStale(before: bool, batch: seq<Document>, k: DocKey, t: Term)
    ensures StaleAfter(before, Singles(batch), k, t) <==> before && !NamedWith(batch, k, t)
  {
    if batch != [] {
      SinglesFront(batch);
      SinglesStale(before, batch[..|batch| - 1], k, t);
      NamedWithFront(batch, k, t);
    }
  }

  ghost predicate SameAt(a: PostingMap, b: PostingMap, k: DocKey)
  {
    (k in a <==> k in b) && (k in a ==> a[k] == b[k])
  }

  lemma OneByOneAt(c: Corpus, batch: seq<Document>, t: Term, m: PostingMap, k: DocKey)
    requires Posted(c.docs, t, m)
    ensures SameAt(BatchOn(m, c, batch, t), RunPostings(c, Singles(batch), t, m), k) <==> !LeavesStale(batch, k, t)
  {
    SinglesRun(c, batch);
    SinglesStale(StaleAt(c.docs, t, m, k), batch, k, t);
    RunAt(c, Singles(batch), t, m, k);
    EffectAt(c, IndexMany(batch), t, m, k);
    if !NamedWith(batch, k, t) {
      EffectUnnamed(c, IndexMany(batch), t, m, k);
      RunUnnamed(c, Singles(batch), t, m, k);
    }
  }

  ghost predicate OneByOne(c: Corpus, batch: seq<Document>, t: Term, m: PostingMap)
  {
    BatchOn(m, c, batch, t) == RunPostings(c, Singles(batch), t, m)
  }

  lemma OneByOneIff(c: Corpus, batch: seq<Document>, t: Term, m: PostingMap)
    requires Posted(c.docs, t, m)
    ensures OneByOne(c, batch, t, m) <==> forall k: DocKey :: !LeavesStale(batch, k, t)
  {
    var got, want := BatchOn(m, c, batch, t), RunPostings(c, Singles(batch), t, m);
    forall k: DocKey ensures SameAt(got, want, k) <==> !LeavesStale(batch, k, t) {
      OneByOneAt(c, batch, t, m, k);
    }
    if forall k: DocKey :: !LeavesStale(batch, k, t) {
      forall k ensures k in got <==> k in want { assert SameAt(got, want, k); }
      forall k | k in got ensures got[k] == want[k] { assert SameAt(got, want, k); }
      assert got == want;
    }
  }

  /**
   From any postings that cover the documents, stale ones among them: a batch gives the corpus that
   indexing its documents one by one gives, and the same postings for every term if and only if no
   document in it has a term that the last document under its key lacks.
   */
  lemma BatchIsOneByOneIff(c: Corpus, batch: seq<Document>, postings: Term -> PostingMap)
    requires forall t: Term :: Posted(c.docs, t, postings(t))
    ensures Apply(c, IndexMany(batch)) == Run(c, Singles(batch))
    ensures (forall t: Term :: OneByOne(c, batch, t, postings(t))) <==> NoStaleTerm(batch)
  {
    SinglesRun(c, batch);
    forall t: Term ensures OneByOne(c, batch, t, postings(t)) <==> forall k: DocKey :: !LeavesStale(batch, k, t) {
      OneByOneIff(c, batch, t, postings(t));
    }
    if NoStaleTerm(batch) {
      forall t: Term, k: DocKey ensures !LeavesStale(batch, k, t) {}
    } else {
      var i, t :| 0 <= i < |batch| && t in batch[i].tokens
                  && !(Mentions(batch, batch[i].key) && t in LastTokens(batch, batch[i].key));
      assert LeavesStale(batch, batch[i].key, t);
      assert !OneByOne(c, batch, t, postings(t));
    }
  }

  // ---------------------------------------------------------------- live documents are always posted

  lemma RunKeepsPosted(c: Corpus, ops: seq<Operation>, t: Term, m: PostingMap)
    requires Posted(c.docs, t, m)
    ensures Posted(Run(c, ops).docs, t, RunPostings(c, ops, t, m))
  {
    forall k | Has(Run(c, ops).docs, k, t)
      ensures k in RunPostings(c, ops, t, m) && RunPostings(c, ops, t, m)[k] == EntryOf(Run(c, ops).docs, k, t)
    {
      RunAt(c, ops, t, m, k);
    }
  }

  lemma EffectKeepsPosted(c: Corpus, op: Operation, t: Term, m: PostingMap)
    requires Posted(c.docs, t, m)
    ensures Posted(Apply(c, op).docs, t, Effect(c, op, t, m))
  {
    forall k | Has(Apply(c, op).docs, k, t)
      ensures k in Effect(c, op, t, m) && Effect(c, op, t, m)[k] == EntryOf(Apply(c, op).docs, k, t)
    {
      EffectAt(c, op, t, m, k);
    }
  }

  // ---------------------------------------------------------------- the deltas of the engine

  /** The delta of `index_document` on one term. */
  lemma IndexDelta(c: Corpus, doc: Document, t: Term, m: PostingMap, added: seq<PostingEntry>, removed: seq<DocKey>)
    requires added == if t in Bag(doc.tokens) then [PostingEntry(doc.key, Bag(doc.tokens)[t], |doc.tokens|)] else []
    requires removed == if Has(c.docs, doc.key, t) then [doc.key] else []
    ensures Effect(c, IndexOne(doc), t, m) == AddAll(RemoveAll(m, removed), added)
  {
    BagDomain(doc.tokens, t);
    AddNone(RemoveAll(m, removed));
    assert RemoveAll(m, [doc.key]) == m - {doc.key};
    AddNone(m);
    if t in doc.tokens {
      AddOne(RemoveAll(m, removed), added[0]);
      assert (m - {doc.key})[doc.key := added[0]] == m[doc.key := added[0]];
    }
  }

  /** The delta of `delete_document` on one of the document's terms. */
  lemma DeleteDelta(c: Corpus, k: DocKey, t: Term, m: PostingMap)
    requires Has(c.docs, k, t)
    ensures Effect(c, DeleteOne(k), t, m) == AddAll(RemoveAll(m, [k]), [])
  {
    AddNone(RemoveAll(m, [k]));
    assert RemoveAll(m, [k]) == m - {k};
  }
}
