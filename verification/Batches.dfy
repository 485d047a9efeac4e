/**
 What `index_batch` does to the postings. The batch collects, per term, the entries to add (in
 batch order) and the documents to take out first, and applies both once. That agrees with
 indexing the documents one by one exactly when no document of the batch has a term that a
 later document under the same key drops.
 */
module Batches {
  import opened Postings
  import opened Corpora

  /** The entries the batch collects for a term. */
  ghost function EntriesFor(batch: seq<Document>, t: Term): seq<PostingEntry>
  {
    if batch == [] then []
    else
      var last := batch[|batch| - 1];
      var front := EntriesFor(batch[..|batch| - 1], t);
      if t in last.tokens
      then front + [PostingEntry(last.key, Bag(last.tokens)[t], |last.tokens|)]
      else front
  }

  /** The documents the batch marks for a term: those that have it now or had it just before. */
  ghost function AffectedBy(c: Corpus, batch: seq<Document>, t: Term): set<DocKey>
  {
    if batch == [] then {}
    else
      var last := batch[|batch| - 1];
      var front := batch[..|batch| - 1];
      var now := IndexedAll(c, front).docs;
      AffectedBy(c, front, t)
      + if t in last.tokens || (last.key in now && t in now[last.key]) then {last.key} else {}
  }

  /** What the batch makes of a term's postings, whatever they were. */
  ghost function BatchOn(m: PostingMap, c: Corpus, batch: seq<Document>, t: Term): PostingMap
  {
    AddAll(m - AffectedBy(c, batch, t), EntriesFor(batch, t))
  }

  ghost function BatchPostings(c: Corpus, batch: seq<Document>, t: Term): PostingMap
  {
    BatchOn(Expected(c.docs, t), c, batch, t)
  }

  /** No document of the batch has a term that the last document under its key lacks. */
  predicate NoStaleTerm(batch: seq<Document>)
  {
    forall i, t | 0 <= i < |batch| && t in batch[i].tokens ::
      Mentions(batch, batch[i].key) && t in LastTokens(batch, batch[i].key)
  }

  predicate NamedWith(batch: seq<Document>, k: DocKey, t: Term)
  {
    exists i | 0 <= i < |batch| :: batch[i].key == k && t in batch[i].tokens
  }

  lemma NamedWithFront(batch: seq<Document>, k: DocKey, t: Term)
    requires batch != []
    ensures NamedWith(batch, k, t) <==>
            NamedWith(batch[..|batch| - 1], k, t) || (batch[|batch| - 1].key == k && t in batch[|batch| - 1].tokens)
  {
  }

  lemma {:induction false} EntriesForKeys(batch: seq<Document>, k: DocKey, t: Term)
    ensures HasKey(EntriesFor(batch, t), k) <==> NamedWith(batch, k, t)
  {
    if batch != [] {
      var last := batch[|batch| - 1];
      EntriesForKeys(batch[..|batch| - 1], k, t);
      NamedWithFront(batch, k, t);
      if t in last.tokens {
        HasKeySnoc(EntriesFor(batch[..|batch| - 1], t), PostingEntry(last.key, Bag(last.tokens)[t], |last.tokens|), k);
      }
    }
  }

  /** When the last document under a key has the term, its entry is the one that survives. */
  lemma {:induction false} LastEntryWins(m: PostingMap, batch: seq<Document>, k: DocKey, t: Term)
    requires Mentions(batch, k) && t in LastTokens(batch, k)
    ensures k in AddAll(m, EntriesFor(batch, t))
    ensures AddAll(m, EntriesFor(batch, t))[k]
            == PostingEntry(k, Bag(LastTokens(batch, k))[t], |LastTokens(batch, k)|)
  {
    var front, last := batch[..|batch| - 1], batch[|batch| - 1];
    MentionsFront(batch, k);
    if last.key != k {
      LastEntryWins(m, front, k, t);
    }
    if t in last.tokens {
      AddAllSnoc(m, EntriesFor(front, t), PostingEntry(last.key, Bag(last.tokens)[t], |last.tokens|));
    }
  }

  lemma {:induction false} LastIsNamed(batch: seq<Document>, k: DocKey, t: Term)
    requires Mentions(batch, k) && t in LastTokens(batch, k)
    ensures NamedWith(batch, k, t)
  {
    NamedWithFront(batch, k, t);
    MentionsFront(batch, k);
    if batch[|batch| - 1].key != k {
      LastIsNamed(batch[..|batch| - 1], k, t);
    }
  }

  lemma NamedIsMentioned(batch: seq<Document>, k: DocKey, t: Term)
    requires NamedWith(batch, k, t)
    ensures Mentions(batch, k)
  {
  }

  /** Marked documents: in the batch, and with the term either before the batch or somewhere in it. */
  lemma {:induction false} AffectedIff(c: Corpus, batch: seq<Document>, k: DocKey, t: Term)
    ensures k in AffectedBy(c, batch, t) <==>
            Mentions(batch, k) && ((k in c.docs && t in c.docs[k]) || NamedWith(batch, k, t))
  {
    if batch != [] {
      var front, last := batch[..|batch| - 1], batch[|batch| - 1];
      AffectedIff(c, front, k, t);
      MentionsFront(batch, k);
      NamedWithFront(batch, k, t);
      IndexedAllAt(c, front, k);
      if last.key == k && Mentions(front, k) && t in LastTokens(front, k) {
        LastIsNamed(front, k, t);
      }
    }
  }

  lemma BagDomain(tokens: seq<Term>, t: Term)
    ensures t in Bag(tokens) <==> t in tokens
  {
  }

  /** A document of the batch whose key comes back without the term. */
  predicate LeavesStale(batch: seq<Document>, k: DocKey, t: Term)
  {
    NamedWith(batch, k, t) && !(Mentions(batch, k) && t in LastTokens(batch, k))
  }

  /** One document and one term, whatever the postings were before the batch. */
  lemma BatchOnAt(m: PostingMap, c: Corpus, batch: seq<Document>, k: DocKey, t: Term)
    ensures var got, want := BatchOn(m, c, batch, t), Expected(IndexedAll(c, batch).docs, t);
            && (NamedWith(batch, k, t) ==>
                  k in got && (k in want <==> !LeavesStale(batch, k, t)) && (k in want ==> got[k] == want[k]))
            && (!NamedWith(batch, k, t) && Mentions(batch, k) ==>
                  && k !in want && (k in got <==> k in m && !(k in c.docs && t in c.docs[k]))
                  && (k in got ==> got[k] == m[k]))
            && (!Mentions(batch, k) ==>
                  && (k in got <==> k in m) && (k in m ==> got[k] == m[k])
                  && (k in want <==> k in Expected(c.docs, t)) && (k in want ==> want[k] == Expected(c.docs, t)[k]))
  {
    var base := m - AffectedBy(c, batch, t);
    AffectedIff(c, batch, k, t);
    AddAllDomain(base, EntriesFor(batch, t), k);
    EntriesForKeys(batch, k, t);
    IndexedAllAt(c, batch, k);
    if Mentions(batch, k) {
      BagDomain(LastTokens(batch, k), t);
      BagLength(LastTokens(batch, k));
      if t in LastTokens(batch, k) {
        LastIsNamed(batch, k, t);
        LastEntryWins(base, batch, k, t);
      }
    } else if NamedWith(batch, k, t) {
      NamedIsMentioned(batch, k, t);
    }
  }

  /** One document and one term: the batch gets it right, or leaves a posting for a document that no longer has the term. */
  lemma BatchPostingAt(c: Corpus, batch: seq<Document>, k: DocKey, t: Term)
    ensures var got, want := BatchPostings(c, batch, t), Expected(IndexedAll(c, batch).docs, t);
            if LeavesStale(batch, k, t)
            then k in got && k !in want
            else (k in got <==> k in want) && (k in want ==> got[k] == want[k])
  {
    BatchOnAt(Expected(c.docs, t), c, batch, k, t);
  }

  lemma BatchMatches(c: Corpus, batch: seq<Document>, t: Term)
    requires NoStaleTerm(batch)
    ensures BatchPostings(c, batch, t) == Expected(IndexedAll(c, batch).docs, t)
  {
    var got, want := BatchPostings(c, batch, t), Expected(IndexedAll(c, batch).docs, t);
    forall k
      ensures k in got <==> k in want
      ensures k in want ==> got[k] == want[k]
    {
      BatchPostingAt(c, batch, k, t);
    }
    assert got == want;
  }

  /**
   A batch leaves every posting as indexing one by one would, exactly when no document in it
   has a term that the last document under the same key lacks.
   */
  lemma BatchExactIff(c: Corpus, batch: seq<Document>)
    ensures (forall t: Term :: BatchPostings(c, batch, t) == Expected(IndexedAll(c, batch).docs, t))
            <==> NoStaleTerm(batch)
  {
    if NoStaleTerm(batch) {
      forall t: Term ensures BatchPostings(c, batch, t) == Expected(IndexedAll(c, batch).docs, t) {
        BatchMatches(c, batch, t);
      }
    } else {
      var i, t :| 0 <= i < |batch| && t in batch[i].tokens
                  && !(Mentions(batch, batch[i].key) && t in LastTokens(batch, batch[i].key));
      BatchPostingAt(c, batch, batch[i].key, t);
      assert BatchPostings(c, batch, t) != Expected(IndexedAll(c, batch).docs, t);
    }
  }

  /** One document per key is enough. */
  lemma DistinctHasNoStaleTerm(batch: seq<Document>)
    requires DistinctDocs(batch)
    ensures NoStaleTerm(batch)
  {
    forall i, t | 0 <= i < |batch| && t in batch[i].tokens
      ensures Mentions(batch, batch[i].key) && t in LastTokens(batch, batch[i].key)
    {
      DistinctLast(batch, batch[i]);
    }
  }

  /** The smallest failing batch: one key, first with a term and then without it. */
  lemma RepeatedKeyLeavesStalePosting(c: Corpus, k: DocKey, t: Term)
    ensures var batch := [Document(k, [t]), Document(k, [])];
            k in BatchPostings(c, batch, t) && k !in Expected(IndexedAll(c, batch).docs, t)
  {
    var first, second := Document(k, [t]), Document(k, []);
    var batch := [first, second];
    assert batch[..1] == [first];
    BatchPostingAt(c, batch, k, t);
    assert batch[0] == first && t in first.tokens;
    assert NamedWith(batch, k, t);
    assert batch[1].key == k;
    assert Mentions(batch, k) && LastTokens(batch, k) == [];
  }

  /** A term with no marked document is left as it is. */
  lemma NothingPlanned(m: PostingMap, c: Corpus, batch: seq<Document>, t: Term)
    requires AffectedBy(c, batch, t) == {}
    ensures BatchOn(m, c, batch, t) == m
  {
    NoEntriesUnlessAffected(c, batch, t);
    AddNone(m);
    assert m - {} == m;
  }

  lemma NoEntriesUnlessAffected(c: Corpus, batch: seq<Document>, t: Term)
    requires AffectedBy(c, batch, t) == {}
    ensures EntriesFor(batch, t) == []
  {
  }
}
