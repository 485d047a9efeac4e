/**
 Searchers and writers under the engine's reader/writer lock. A searcher reads the statistics, looks
 a term up in the cache, on a miss reads storage, and then fills the cache, each as a step of its
 own; a writer changes forward records, statistics, storage and then the cache, term by term;
 entries may be evicted at any moment. What a writer writes is arbitrary: only the lock is assumed.
 */
module Concurrency {
  import opened Wrappers
  import opened Elements
  import opened Postings
  import opened SegmentLog
  import opened Corpora
  import opened Batches
  import opened Effects
  import opened Bm25
  import opened EngineState

  /** Where a searcher is with its current term. */
  datatype Phase =
    | Ready
    | Missed(term: Term)
    | Fetched(term: Term, list: seq<PostingEntry>, found: bool)

  datatype Lookup = Lookup(term: Term, list: seq<PostingEntry>)

  /** What there was when a lock was taken; `log` is the history of completed writes. */
  datatype View = View(corpus: Corpus, table: Table, stats: FtsStats, log: seq<Operation>)

  /** A searcher inside the read lock, with the statistics and the lists it has used. */
  datatype Searcher = Searcher(entered: View, stats: Option<FtsStats>, phase: Phase, used: seq<Lookup>)

  datatype Writer =
    | NoWriter
    | Writing(op: Operation, start: View, pending: set<Term>, inHand: Option<Term>)

  datatype System = System(
    corpus: Corpus, ix: Index, cache: Cache, stats: FtsStats, log: seq<Operation>,
    searchers: map<nat, Searcher>, writer: Writer)

  datatype Step =
    | BeginSearch(id: nat)
    | ReadStats(id: nat)
    | LookUp(id: nat, term: Term)
    | Fetch(id: nat)
    | Fill(id: nat)
    | EndSearch(id: nat)
    | BeginWrite(op: Operation, pending: set<Term>)
    | WriteForward(corpus: Corpus)
    | WriteStats(stats: FtsStats)
    | WriteStorage(term: Term, added: seq<PostingEntry>, removed: seq<DocKey>)
    | WriteCache
    | WriterFill(term: Term)
    | EndWrite
    | Evict(term: Term)

  ghost function ViewOf(s: System): View
  {
    View(s.corpus, s.ix.table, s.stats, s.log)
  }

  /** What the lock, and the order of steps inside one call, permit. */
  ghost predicate Enabled(s: System, step: Step)
  {
    match step
    case BeginSearch(i) => i !in s.searchers && s.writer.NoWriter?
    case ReadStats(i) => i in s.searchers && s.searchers[i].phase.Ready?
    case LookUp(i, _) => i in s.searchers && s.searchers[i].phase.Ready?
    case Fetch(i) => i in s.searchers && s.searchers[i].phase.Missed?
    case Fill(i) => i in s.searchers && s.searchers[i].phase.Fetched?
    case EndSearch(i) => i in s.searchers && s.searchers[i].phase.Ready?
    case BeginWrite(_, _) => s.writer.NoWriter? && s.searchers == map[]
    case WriteForward(_) => s.writer.Writing?
    case WriteStats(_) => s.writer.Writing?
    case WriteStorage(_, _, _) => s.writer.Writing? && s.writer.inHand.None?
    case WriteCache => s.writer.Writing? && s.writer.inHand.Some?
    case WriterFill(t) => s.writer.Writing? && s.writer.inHand.None? && TermKey(t) in s.ix.table
    case EndWrite => s.writer.Writing? && s.writer.inHand.None?
    case Evict(_) => true
  }

  ghost function WithSearcher(s: System, i: nat, r: Searcher): System
  {
    s.(searchers := s.searchers[i := r])
  }

  ghost function Do(s: System, step: Step): System
    requires Enabled(s, step)
  {
    match step
    case BeginSearch(i) => WithSearcher(s, i, Searcher(ViewOf(s), None, Ready, []))
    case ReadStats(i) => WithSearcher(s, i, s.searchers[i].(stats := Some(s.stats)))
    case LookUp(i, t) =>
      var r := s.searchers[i];
      if t in s.cache
      then WithSearcher(s, i, r.(used := r.used + [Lookup(t, s.cache[t])]))
      else WithSearcher(s, i, r.(phase := Missed(t)))
    case Fetch(i) =>
      var r := s.searchers[i];
      var t := r.phase.term;
      WithSearcher(s, i, r.(phase := Fetched(t, ReadList(s.ix.table, t), TermKey(t) in s.ix.table)))
    case Fill(i) =>
      var r := s.searchers[i];
      var p := r.phase;
      WithSearcher(s.(cache := if p.found then s.cache[p.term := p.list] else s.cache), i,
                   r.(phase := Ready, used := r.used + [Lookup(p.term, p.list)]))
    case EndSearch(i) => s.(searchers := s.searchers - {i})
    case BeginWrite(op, pending) => s.(writer := Writing(op, ViewOf(s), pending, None))
    case WriteForward(corpus) => s.(corpus := corpus)
    case WriteStats(stats) => s.(stats := stats)
    case WriteStorage(t, added, removed) =>
      s.(ix := Delta(s.ix, t, added, removed),
         writer := s.writer.(pending := s.writer.pending - {t}, inHand := Some(t)))
    case WriteCache =>
      var t := s.writer.inHand.value;
      var list := ReadList(s.ix.table, t);
      s.(cache := if list == [] then s.cache - {t} else s.cache[t := list],
         writer := s.writer.(inHand := None))
    case WriterFill(t) => s.(cache := s.cache[t := ReadList(s.ix.table, t)])
    case EndWrite => s.(log := s.log + [s.writer.op], writer := NoWriter)
    case Evict(t) => s.(cache := s.cache - {t})
  }

  /** Runs of any length, in any interleaving the lock permits. */
  ghost predicate Reaches(s: System, steps: seq<Step>, end: System)
    decreases steps
  {
    if steps == [] then end == s
    else Enabled(s, steps[0]) && Reaches(Do(s, steps[0]), steps[1..], end)
  }

  // ---------------------------------------------------------------- for every writer

  ghost predicate SearcherOk(s: System, r: Searcher)
  {
    && r.entered == ViewOf(s)
    && (r.stats.Some? ==> r.stats.value == s.stats)
    && (r.phase.Fetched? ==> r.phase.list == ReadList(s.ix.table, r.phase.term))
    && (forall l | l in r.used :: l.list == ReadList(s.ix.table, l.term))
  }

  ghost predicate SearchersOk(s: System)
  {
    forall i | i in s.searchers :: SearcherOk(s, s.searchers[i])
  }

  /** Every cached list but the one in the writer's hand is what storage would give. */
  ghost predicate CoherentBut(cache: Cache, table: Table, inHand: Option<Term>)
  {
    forall t | t in cache && inHand != Some(t) :: cache[t] == ReadList(table, t)
  }

  ghost predicate WriterOk(s: System)
  {
    match s.writer
    case NoWriter => Coherent(s.cache, s.ix.table)
    case Writing(_, _, _, inHand) => s.searchers == map[] && CoherentBut(s.cache, s.ix.table, inHand)
  }

  ghost predicate Inv(s: System)
  {
    WellFormed(s.ix) && WriterOk(s) && SearchersOk(s)
  }

  predicate SearcherStep(step: Step)
  {
    step.BeginSearch? || step.ReadStats? || step.LookUp? || step.Fetch? || step.Fill? || step.EndSearch?
  }

  lemma SearcherStepKeeps(s: System, step: Step)
    requires Inv(s) && Enabled(s, step) && SearcherStep(step)
    ensures Inv(Do(s, step))
  {
    var s' := Do(s, step);
    assert s.writer.NoWriter?;
    assert ViewOf(s') == ViewOf(s);
    if !step.BeginSearch? {
      assert SearcherOk(s, s.searchers[step.id]);
    }
    forall i | i in s'.searchers ensures SearcherOk(s', s'.searchers[i]) {
      if i in s.searchers {
        assert SearcherOk(s, s.searchers[i]);
      }
    }
  }

  /** Whatever is added and removed, the other terms keep their lists. */
  lemma WriteStorageKeeps(s: System, step: Step)
    requires Inv(s) && Enabled(s, step) && step.WriteStorage?
    ensures Inv(Do(s, step))
  {
    var t := step.term;
    var ix' := Delta(s.ix, t, step.added, step.removed);
    DeltaDenotes(s.ix, t, step.added, step.removed);
    forall u | u in s.cache && u != t ensures s.cache[u] == ReadList(ix'.table, u) {
      assert s.cache[u] == ReadList(s.ix.table, u);
      ElsewhereUnchanged(s.ix, ix', t, u);
    }
  }

  /** Every step the lock permits keeps the invariant, whatever the writer writes. */
  lemma StepKeeps(s: System, step: Step)
    requires Inv(s) && Enabled(s, step)
    ensures Inv(Do(s, step))
  {
    if SearcherStep(step) {
      SearcherStepKeeps(s, step);
    } else if step.WriteStorage? {
      WriteStorageKeeps(s, step);
    } else {
      var s' := Do(s, step);
      assert s'.ix == s.ix && s'.searchers == s.searchers;
      forall i | i in s'.searchers ensures SearcherOk(s', s'.searchers[i]) {
        assert SearcherOk(s, s.searchers[i]);
      }
    }
  }

  lemma {:induction false} RunKeeps(s: System, steps: seq<Step>, end: System)
    requires Inv(s) && Reaches(s, steps, end)
    ensures Inv(end)
    decreases steps
  {
    if steps != [] {
      StepKeeps(s, steps[0]);
      RunKeeps(Do(s, steps[0]), steps[1..], end);
    }
  }

  /** Idle, with tables and cache in order. */
  ghost predicate Init(s: System)
  {
    s.searchers == map[] && s.writer.NoWriter? && s.log == [] && Usable(s.ix, s.cache)
  }

  /**
   In every state of every run, whatever the writers write: with no writer inside, each cached list
   is the one storage gives; and the statistics and all lists that a searcher has used, cached or
   not, are those that were stored when it took the lock.
   */
  lemma EveryRunIsCoherent(s: System, steps: seq<Step>, end: System)
    requires Init(s) && Reaches(s, steps, end)
    ensures end.writer.NoWriter? ==> Usable(end.ix, end.cache)
    ensures forall i | i in end.searchers ::
              var r := end.searchers[i];
              && (r.stats.Some? ==> r.stats.value == r.entered.stats)
              && forall l | l in r.used :: l.list == ReadList(r.entered.table, l.term)
  {
    RunKeeps(s, steps, end);
    forall i | i in end.searchers ensures SearcherOk(end, end.searchers[i]) {}
  }

  // ---------------------------------------------------------------- writers that carry out an operation

  /** The writer announced every term it changes, and has done to each what its operation does. */
  ghost predicate Proper(s: System, step: Step)
    requires Enabled(s, step)
  {
    match step
    case BeginWrite(op, pending) =>
      forall t: Term | t !in pending ::
        Effect(s.corpus, op, t, PostingsOf(s.ix.table, t)) == PostingsOf(s.ix.table, t)
    case WriteStorage(t, added, removed) =>
      && t in s.writer.pending
      && var m := PostingsOf(s.writer.start.table, t);
         Effect(s.writer.start.corpus, s.writer.op, t, m) == AddAll(RemoveAll(m, removed), added)
    case EndWrite =>
      && s.writer.pending == {}
      && s.corpus == Apply(s.writer.start.corpus, s.writer.op)
      && Accurate(s.corpus, s.stats)
    case _ => true
  }

  ghost predicate ProperRun(s: System, steps: seq<Step>)
    decreases steps
  {
    steps == [] ||
    (Enabled(s, steps[0]) && Proper(s, steps[0]) && ProperRun(Do(s, steps[0]), steps[1..]))
  }

  /** The view is what its log of operations has made of the state at the beginning. */
  ghost predicate MadeBy(origin: System, v: View)
  {
    && v.corpus == Run(origin.corpus, v.log)
    && RanTo(origin.ix.table, origin.corpus, v.log, v.table)
    && Accurate(v.corpus, v.stats)
  }

  ghost predicate Linear(origin: System, s: System)
  {
    match s.writer
    case NoWriter => MadeBy(origin, ViewOf(s))
    case Writing(op, start, pending, _) =>
      MadeBy(origin, start) && s.log == start.log && Halfway(start.table, start.corpus, op, s.ix.table, pending)
  }

  lemma ProperStorageStep(origin: System, s: System, step: Step)
    requires Inv(s) && Linear(origin, s) && Enabled(s, step) && Proper(s, step) && step.WriteStorage?
    ensures Linear(origin, Do(s, step))
  {
    var t, w := step.term, s.writer;
    DeltaDenotes(s.ix, t, step.added, step.removed);
    DeltaMakesNoLegacy(s.ix, t, step.added, step.removed);
    HalfwayStep(w.start.table, w.start.corpus, w.op, s.ix, Do(s, step).ix, w.pending, t);
  }

  lemma ProperBegin(origin: System, s: System, step: Step)
    requires Linear(origin, s) && Enabled(s, step) && Proper(s, step) && step.BeginWrite?
    ensures Linear(origin, Do(s, step))
  {
    HalfwayStart(s.ix.table, s.corpus, step.op, step.pending);
  }

  lemma ProperEnd(origin: System, s: System)
    requires Linear(origin, s) && Enabled(s, EndWrite) && Proper(s, EndWrite)
    ensures Linear(origin, Do(s, EndWrite))
  {
    var w := s.writer;
    RunSnoc(origin.corpus, w.start.log, w.op);
    RanToSnoc(origin.ix.table, origin.corpus, w.start.log, w.start.table, w.op, s.ix.table);
  }

  lemma ProperStepKeeps(origin: System, s: System, step: Step)
    requires Inv(s) && Linear(origin, s) && Enabled(s, step) && Proper(s, step)
    ensures Linear(origin, Do(s, step))
  {
    match step {
      case WriteStorage(_, _, _) => ProperStorageStep(origin, s, step);
      case BeginWrite(_, _) => ProperBegin(origin, s, step);
      case EndWrite => ProperEnd(origin, s);
      case _ =>
    }
  }

  lemma {:induction false} ProperRunKeeps(origin: System, s: System, steps: seq<Step>, end: System)
    requires Inv(s) && Linear(origin, s) && Reaches(s, steps, end) && ProperRun(s, steps)
    ensures Inv(end) && Linear(origin, end)
    decreases steps
  {
    if steps != [] {
      StepKeeps(s, steps[0]);
      ProperStepKeeps(origin, s, steps[0]);
      ProperRunKeeps(origin, Do(s, steps[0]), steps[1..], end);
    }
  }

  /** An idle system whose postings cover its documents and whose statistics are accurate. */
  ghost predicate SoundInit(s: System)
  {
    Init(s) && Covers(s.corpus.docs, s.ix.table) && Accurate(s.corpus, s.stats)
  }

  lemma OriginIsMadeByNothing(s: System)
    requires SoundInit(s)
    ensures Inv(s) && Linear(s, s)
  {
    assert RanTo(s.ix.table, s.corpus, [], s.ix.table);
  }

  /**
   Concurrent searches are linearizable: at every moment a searcher's view is the sequential run of
   the writes completed before it entered, and every list it has used holds the postings that run
   makes, which are those of the documents exactly when the run left none of the term's unjustified.
   */
  lemma EverySearchSeesOneCorpus(s: System, steps: seq<Step>, end: System)
    requires SoundInit(s) && Reaches(s, steps, end) && ProperRun(s, steps)
    ensures forall i | i in end.searchers :: MadeBy(s, end.searchers[i].entered)
    ensures forall i, l | i in end.searchers && l in end.searchers[i].used ::
              var v := end.searchers[i].entered;
              && Lists(l.list, RunPostings(s.corpus, v.log, l.term, PostingsOf(s.ix.table, l.term)))
              && (Lists(l.list, Expected(v.corpus.docs, l.term))
                  <==> Spotless(s.ix.table, s.corpus.docs, v.log, l.term))
  {
    OriginIsMadeByNothing(s);
    ProperRunKeeps(s, s, steps, end);
    forall i | i in end.searchers ensures MadeBy(s, end.searchers[i].entered) {
      assert SearcherOk(end, end.searchers[i]);
      assert end.searchers != map[];
    }
    forall i, l | i in end.searchers && l in end.searchers[i].used
      ensures Lists(l.list, RunPostings(s.corpus, end.log, l.term, PostingsOf(s.ix.table, l.term)))
      ensures Lists(l.list, Expected(end.corpus.docs, l.term))
              <==> Spotless(s.ix.table, s.corpus.docs, end.log, l.term)
      ensures end.searchers[i].entered == ViewOf(end)
    {
      assert SearcherOk(end, end.searchers[i]);
      assert MadeBy(s, end.searchers[i].entered);
      ReadListLists(end.ix, l.term);
      SpotlessIff(s.ix.table, s.corpus, end.log, end.ix.table, l.term);
    }
  }

  // ---------------------------------------------------------------- what a concurrent search answers

  function TermsOf(used: seq<Lookup>): seq<Term>
  {
    seq(|used|, i requires 0 <= i < |used| => used[i].term)
  }

  /** The scores a searcher adds up from the lists it has used. */
  ghost function Scored(ln: Log, stats: FtsStats, used: seq<Lookup>): map<DocKey, real>
  {
    if stats.totalDocs == 0 || used == [] then map[]
    else AddTerm(ln, stats, Scored(ln, stats, used[..|used| - 1]), used[|used| - 1].list)
  }

  lemma TermsFront(used: seq<Lookup>)
    requires used != []
    ensures var front, last := used[..|used| - 1], used[|used| - 1];
            TermsOf(used) == TermsOf(front) + [last.term] && last in used && forall l | l in front :: l in used
  {
  }

  lemma {:induction false} ScoredIsEngine(ln: Log, ix: Index, stats: FtsStats, used: seq<Lookup>)
    requires WellFormed(ix) && forall l | l in used :: l.list == ReadList(ix.table, l.term)
    ensures Scored(ln, stats, used) == EngineScores(ln, ix.table, stats, TermsOf(used))
  {
    if stats.totalDocs != 0 && used != [] {
      var front, last := used[..|used| - 1], used[|used| - 1];
      TermsFront(used);
      ScoredIsEngine(ln, ix, stats, front);
      AddTermExtends(ln, ix, stats, TermsOf(front), last.term, Scored(ln, stats, front));
      assert last.list == ReadList(ix.table, last.term);
    }
  }

  /**
   Whatever runs beside it, the scores a search adds up are the brute-force scores of the corpus it
   entered with, when that corpus has no stale posting and at most 5000 of each term.
   */
  lemma ConcurrentSearchIsExact(ln: Log, s: System, steps: seq<Step>, end: System, i: nat)
    requires SoundInit(s) && Reaches(s, steps, end) && ProperRun(s, steps)
    requires i in end.searchers && end.searchers[i].stats.Some?
    ensures var r := end.searchers[i];
            var query := TermsOf(r.used);
            && Scored(ln, r.stats.value, r.used) == EngineScores(ln, r.entered.table, r.entered.stats, query)
            && ((forall t | t in query :: Spotless(s.ix.table, s.corpus.docs, r.entered.log, t))
                && WithinLimit(r.entered.corpus.docs, query)
                ==> Scored(ln, r.stats.value, r.used) == BruteScores(ln, r.entered.corpus, query))
  {
    OriginIsMadeByNothing(s);
    ProperRunKeeps(s, s, steps, end);
    var r := end.searchers[i];
    var query := TermsOf(r.used);
    assert SearcherOk(end, r);
    assert end.searchers != map[];
    ScoredIsEngine(ln, end.ix, end.stats, r.used);
    if (forall t | t in query :: Spotless(s.ix.table, s.corpus.docs, end.log, t)) && WithinLimit(end.corpus.docs, query) {
      SpotlessAgrees(s.ix.table, s.corpus, end.log, end.ix.table, query);
      WithinLimitIsBrute(ln, end.ix, end.stats, end.corpus, query);
    }
  }

  // ---------------------------------------------------------------- searches do get done

  lemma {:induction false} ReachesThen(s: System, a: seq<Step>, mid: System, b: seq<Step>, end: System)
    requires Reaches(s, a, mid) && Reaches(mid, b, end)
    ensures Reaches(s, a + b, end)
    decreases a
  {
    if a == [] {
      assert a + b == b;
    } else {
      assert (a + b)[0] == a[0] && (a + b)[1..] == a[1..] + b;
      ReachesThen(Do(s, a[0]), a[1..], mid, b, end);
    }
  }

  lemma ReachesOne(s: System, step: Step)
    requires Enabled(s, step)
    ensures Reaches(s, [step], Do(s, step))
  {
    assert [step][1..] == [];
  }

  /** The searcher is between terms, with the statistics read and these lists used. */
  ghost predicate Between(s: System, i: nat, stats: Option<FtsStats>, used: seq<Lookup>)
  {
    && i in s.searchers && s.searchers[i].phase.Ready?
    && s.searchers[i].stats == stats && s.searchers[i].used == used
  }

  /** One term: a hit takes one step, a miss three, and either way the list found is the stored one. */
  lemma CanLookUp(s: System, i: nat, stats: Option<FtsStats>, used: seq<Lookup>, t: Term)
    returns (steps: seq<Step>, end: System)
    requires Inv(s) && Between(s, i, stats, used)
    ensures Reaches(s, steps, end) && Inv(end) && end.ix == s.ix
    ensures Between(end, i, stats, used + [Lookup(t, ReadList(s.ix.table, t))])
    ensures TermKey(t) in s.ix.table ==> t in end.cache
  {
    var s1 := Do(s, LookUp(i, t));
    StepKeeps(s, LookUp(i, t));
    ReachesOne(s, LookUp(i, t));
    assert SearcherOk(s, s.searchers[i]) && s.searchers != map[];
    if t in s.cache {
      return [LookUp(i, t)], s1;
    }
    var s2 := Do(s1, Fetch(i));
    StepKeeps(s1, Fetch(i));
    ReachesOne(s1, Fetch(i));
    end := Do(s2, Fill(i));
    StepKeeps(s2, Fill(i));
    ReachesOne(s2, Fill(i));
    ReachesThen(s, [LookUp(i, t)], s1, [Fetch(i)], s2);
    ReachesThen(s, [LookUp(i, t)] + [Fetch(i)], s2, [Fill(i)], end);
    steps := [LookUp(i, t)] + [Fetch(i)] + [Fill(i)];
  }

  /** The stored lists of a query's terms. */
  ghost function StoredLists(table: Table, query: seq<Term>): seq<Lookup>
  {
    seq(|query|, i requires 0 <= i < |query| => Lookup(query[i], ReadList(table, query[i])))
  }

  lemma StoredListsFront(table: Table, query: seq<Term>)
    requires query != []
    ensures var front, t := query[..|query| - 1], query[|query| - 1];
            StoredLists(table, query) == StoredLists(table, front) + [Lookup(t, ReadList(table, t))]
  {
  }

  lemma {:induction false} CanLookUpAll(s: System, i: nat, stats: Option<FtsStats>, query: seq<Term>)
    returns (steps: seq<Step>, end: System)
    requires Inv(s) && Between(s, i, stats, [])
    ensures Reaches(s, steps, end) && Inv(end) && end.ix == s.ix
    ensures Between(end, i, stats, StoredLists(s.ix.table, query))
    decreases |query|
  {
    if query == [] {
      return [], s;
    }
    var front, t := query[..|query| - 1], query[|query| - 1];
    var a, mid := CanLookUpAll(s, i, stats, front);
    var b, last := CanLookUp(mid, i, stats, StoredLists(s.ix.table, front), t);
    ReachesThen(s, a, mid, b, last);
    StoredListsFront(s.ix.table, query);
    return a + b, last;
  }

  /** With no writer inside, a new searcher can always run any query to its end, and finds the stored statistics and lists. */
  lemma SearchCanFinish(s: System, i: nat, query: seq<Term>) returns (steps: seq<Step>, end: System)
    requires Inv(s) && s.writer.NoWriter? && i !in s.searchers
    ensures Reaches(s, steps, end)
    ensures Between(end, i, Some(s.stats), StoredLists(s.ix.table, query)) && Enabled(end, EndSearch(i))
  {
    var s1 := Do(s, BeginSearch(i));
    StepKeeps(s, BeginSearch(i));
    ReachesOne(s, BeginSearch(i));
    var s2 := Do(s1, ReadStats(i));
    StepKeeps(s1, ReadStats(i));
    ReachesOne(s1, ReadStats(i));
    ReachesThen(s, [BeginSearch(i)], s1, [ReadStats(i)], s2);
    var rest, last := CanLookUpAll(s2, i, Some(s.stats), query);
    ReachesThen(s, [BeginSearch(i)] + [ReadStats(i)], s2, rest, last);
    return [BeginSearch(i)] + [ReadStats(i)] + rest, last;
  }

  // ---------------------------------------------------------------- the engine's writers are such writers

  ghost predicate Idle(s: System)
  {
    s.writer.NoWriter? && s.searchers == map[]
  }

  /** Inside the write lock for an operation that began on corpus c, between two terms. */
  ghost predicate During(s: System, op: Operation, c: Corpus)
  {
    s.writer.Writing? && s.writer.op == op && s.writer.start.corpus == c && s.writer.inHand.None?
  }

  ghost predicate Fits(s: System, step: Step)
  {
    Enabled(s, step) && Proper(s, step)
  }

  /** `index_document`: beginning, each turn of its term loop, and its end are proper steps. */
  lemma IndexDocumentFits(s: System, c: Corpus, doc: Document, previous: TermCounts, t: Term)
    requires previous == if doc.key in c.docs then c.docs[doc.key] else map[]
    ensures Idle(s) && s.corpus == c ==> Fits(s, BeginWrite(IndexOne(doc), Bag(doc.tokens).Keys + previous.Keys))
    ensures var added := if t in Bag(doc.tokens) then [PostingEntry(doc.key, Bag(doc.tokens)[t], |doc.tokens|)] else [];
            var removed := if t in previous then [doc.key] else [];
            During(s, IndexOne(doc), c) && t in s.writer.pending ==> Fits(s, WriteStorage(t, added, removed))
    ensures During(s, IndexOne(doc), c) && s.writer.pending == {} && Accurate(c, s.writer.start.stats) ==>
              var before := s.writer.start.stats;
              var cut := if doc.key in c.docs then StatsRemove(before, DocLength(previous)) else before;
              s.corpus == Indexed(c, doc) && s.stats == StatsUpdate(cut, |doc.tokens|) ==> Fits(s, EndWrite)
  {
    var counts := Bag(doc.tokens);
    var added := if t in counts then [PostingEntry(doc.key, counts[t], |doc.tokens|)] else [];
    var removed := if t in previous then [doc.key] else [];
    if s.writer.Writing? {
      IndexDelta(c, doc, t, PostingsOf(s.writer.start.table, t), added, removed);
      var before := s.writer.start.stats;
      var cut := if doc.key in c.docs then StatsRemove(before, DocLength(previous)) else before;
      if Accurate(c, before) {
        AccurateAfterIndex(c, before, doc, cut, StatsUpdate(cut, |doc.tokens|));
      }
    }
  }

  /** `delete_document`, of a stored document or an unknown key, in the same way. */
  lemma DeleteDocumentFits(s: System, c: Corpus, k: DocKey, counts: TermCounts, t: Term)
    requires counts == if k in c.docs then c.docs[k] else map[]
    ensures Idle(s) && s.corpus == c ==> Fits(s, BeginWrite(DeleteOne(k), counts.Keys))
    ensures During(s, DeleteOne(k), c) && t in s.writer.pending && t in counts ==> Fits(s, WriteStorage(t, [], [k]))
    ensures During(s, DeleteOne(k), c) && s.writer.pending == {} && Accurate(c, s.writer.start.stats) ==>
              var before, len := s.writer.start.stats, DocLength(counts);
              s.corpus == Deleted(c, k) && s.stats == (if len > 0 then StatsRemove(before, len) else before)
              ==> Fits(s, EndWrite)
  {
    if s.writer.Writing? {
      if t in counts {
        DeleteDelta(c, k, t, PostingsOf(s.writer.start.table, t));
      }
      var before, len := s.writer.start.stats, DocLength(counts);
      if Accurate(c, before) {
        AccurateAfterDelete(c, before, k, len, if len > 0 then StatsRemove(before, len) else before);
      }
    }
  }

  /** The statistics that the first pass of a batch computes: for each document, the length it had goes and its new one comes. */
  ghost function BatchStats(c: Corpus, before: FtsStats, batch: seq<Document>): FtsStats
  {
    if batch == [] then before
    else
      var front, last := batch[..|batch| - 1], batch[|batch| - 1];
      var now, s := IndexedAll(c, front).docs, BatchStats(c, before, front);
      StatsUpdate(if last.key in now then StatsRemove(s, DocLength(now[last.key])) else s, |last.tokens|)
  }

  lemma {:induction false} BatchStatsAccurate(c: Corpus, before: FtsStats, batch: seq<Document>)
    requires Accurate(c, before)
    ensures Accurate(IndexedAll(c, batch), BatchStats(c, before, batch))
  {
    if batch != [] {
      var front, last := batch[..|batch| - 1], batch[|batch| - 1];
      var now, s := IndexedAll(c, front), BatchStats(c, before, front);
      BatchStatsAccurate(c, before, front);
      var cut := if last.key in now.docs then StatsRemove(s, DocLength(now.docs[last.key])) else s;
      AccurateAfterIndex(now, s, last, cut, StatsUpdate(cut, |last.tokens|));
    }
  }

  /** `index_batch`, whatever keys it repeats, in the same way. */
  lemma IndexBatchFits(s: System, c: Corpus, batch: seq<Document>, pending: set<Term>, removed: seq<DocKey>, t: Term)
    requires ToSet(removed) == AffectedBy(c, batch, t)
    requires forall u: Term | AffectedBy(c, batch, u) != {} :: u in pending
    ensures Idle(s) && s.corpus == c ==> Fits(s, BeginWrite(IndexMany(batch), pending))
    ensures During(s, IndexMany(batch), c) && t in s.writer.pending ==>
              Fits(s, WriteStorage(t, EntriesFor(batch, t), removed))
    ensures During(s, IndexMany(batch), c) && s.writer.pending == {} && Accurate(c, s.writer.start.stats) ==>
              s.corpus == IndexedAll(c, batch) && s.stats == BatchStats(c, s.writer.start.stats, batch)
              ==> Fits(s, EndWrite)
  {
    forall u: Term | u !in pending
      ensures Effect(c, IndexMany(batch), u, PostingsOf(s.ix.table, u)) == PostingsOf(s.ix.table, u)
    {
      NothingPlanned(PostingsOf(s.ix.table, u), c, batch, u);
    }
    if s.writer.Writing? && Accurate(c, s.writer.start.stats) {
      BatchStatsAccurate(c, s.writer.start.stats, batch);
    }
  }

  // ---------------------------------------------------------------- updates do get done

  lemma {:induction false} ProperThen(s: System, a: seq<Step>, mid: System, b: seq<Step>)
    requires Reaches(s, a, mid) && ProperRun(s, a) && ProperRun(mid, b)
    ensures ProperRun(s, a + b)
    decreases a
  {
    if a == [] {
      assert a + b == b;
    } else {
      assert (a + b)[0] == a[0] && (a + b)[1..] == a[1..] + b;
      ProperThen(Do(s, a[0]), a[1..], mid, b);
    }
  }

  /** The steps lead from one state to the other, each of them proper. */
  ghost predicate Gets(s: System, steps: seq<Step>, end: System)
  {
    Reaches(s, steps, end) && ProperRun(s, steps)
  }

  lemma GetsThen(s: System, a: seq<Step>, mid: System, b: seq<Step>, end: System)
    requires Gets(s, a, mid) && Gets(mid, b, end)
    ensures Gets(s, a + b, end)
  {
    ReachesThen(s, a, mid, b, end);
    ProperThen(s, a, mid, b);
  }

  lemma GetsOne(s: System, step: Step)
    requires Fits(s, step)
    ensures Gets(s, [step], Do(s, step))
  {
    ReachesOne(s, step);
    assert [step][1..] == [];
  }

  /** The entries to add and the documents to take out, term by term. */
  type Deltas = Term -> (seq<PostingEntry>, seq<DocKey>)

  /** Together they carry out the operation: each pending term gets its effect and no other term has one. */
  ghost predicate CarriesOut(v: View, op: Operation, pending: set<Term>, deltas: Deltas)
  {
    forall t: Term ::
      var m := PostingsOf(v.table, t);
      Effect(v.corpus, op, t, m) == if t in pending then AddAll(RemoveAll(m, deltas(t).1), deltas(t).0) else m
  }

  ghost predicate AtTerm(s: System, op: Operation, start: View, pending: set<Term>, corpus: Corpus, stats: FtsStats)
  {
    && s.writer == Writing(op, start, pending, None) && s.searchers == map[]
    && s.corpus == corpus && s.stats == stats && s.log == start.log
  }

  /** One term: storage, then cache. */
  lemma CanWriteTerm(s: System, op: Operation, start: View, pending: set<Term>, all: set<Term>, deltas: Deltas, t: Term)
    returns (steps: seq<Step>, end: System)
    requires AtTerm(s, op, start, pending, s.corpus, s.stats) && t in pending && pending <= all
    requires CarriesOut(start, op, all, deltas)
    ensures Gets(s, steps, end) && AtTerm(end, op, start, pending - {t}, s.corpus, s.stats)
  {
    var first := WriteStorage(t, deltas(t).0, deltas(t).1);
    assert Fits(s, first);
    var mid := Do(s, first);
    GetsOne(s, first);
    end := Do(mid, WriteCache);
    GetsOne(mid, WriteCache);
    GetsThen(s, [first], mid, [WriteCache], end);
    steps := [first] + [WriteCache];
  }

  lemma {:induction false} CanWriteTerms(s: System, op: Operation, start: View, pending: set<Term>, all: set<Term>,
                                         deltas: Deltas)
    returns (steps: seq<Step>, end: System)
    requires AtTerm(s, op, start, pending, s.corpus, s.stats) && pending <= all && CarriesOut(start, op, all, deltas)
    ensures Gets(s, steps, end) && AtTerm(end, op, start, {}, s.corpus, s.stats)
    decreases pending
  {
    if pending == {} {
      return [], s;
    }
    var t :| t in pending;
    var a, mid := CanWriteTerm(s, op, start, pending, all, deltas, t);
    var b, last := CanWriteTerms(mid, op, start, pending - {t}, all, deltas);
    GetsThen(s, a, mid, b, last);
    return a + b, last;
  }

  /** With nobody inside, an update can always run to its end, and leaves its corpus, statistics and log entry. */
  lemma UpdateCanFinish(s: System, op: Operation, pending: set<Term>, deltas: Deltas, stats: FtsStats)
    returns (steps: seq<Step>, end: System)
    requires Idle(s) && CarriesOut(ViewOf(s), op, pending, deltas) && Accurate(Apply(s.corpus, op), stats)
    ensures Gets(s, steps, end) && Idle(end)
    ensures end.corpus == Apply(s.corpus, op) && end.stats == stats && end.log == s.log + [op]
  {
    var begin := BeginWrite(op, pending);
    assert Fits(s, begin);
    var s1 := Do(s, begin);
    GetsOne(s, begin);
    var forward, put := WriteForward(Apply(s.corpus, op)), WriteStats(stats);
    var s2 := Do(s1, forward);
    GetsOne(s1, forward);
    var s3 := Do(s2, put);
    GetsOne(s2, put);
    GetsThen(s, [begin], s1, [forward], s2);
    GetsThen(s, [begin] + [forward], s2, [put], s3);
    var rest, s4 := CanWriteTerms(s3, op, ViewOf(s), pending, pending, deltas);
    GetsThen(s, [begin] + [forward] + [put], s3, rest, s4);
    GetsOne(s4, EndWrite);
    GetsThen(s, [begin] + [forward] + [put] + rest, s4, [EndWrite], Do(s4, EndWrite));
    return [begin] + [forward] + [put] + rest + [EndWrite], Do(s4, EndWrite);
  }

  /** Indexing a document in particular. */
  lemma IndexCanFinish(s: System, doc: Document) returns (steps: seq<Step>, end: System)
    requires Idle(s) && Accurate(s.corpus, s.stats)
    ensures Gets(s, steps, end) && Idle(end) && end.corpus == Indexed(s.corpus, doc) && end.log == s.log + [IndexOne(doc)]
  {
    var c, counts := s.corpus, Bag(doc.tokens);
    var previous: TermCounts := if doc.key in c.docs then c.docs[doc.key] else map[];
    var deltas: Deltas := t =>
        (if t in counts then [PostingEntry(doc.key, counts[t], |doc.tokens|)] else [],
         if t in previous then [doc.key] else []);
    forall t: Term
      ensures var m := PostingsOf(s.ix.table, t);
              Effect(c, IndexOne(doc), t, m)
              == if t in counts.Keys + previous.Keys then AddAll(RemoveAll(m, deltas(t).1), deltas(t).0) else m
    {
      IndexDelta(c, doc, t, PostingsOf(s.ix.table, t), deltas(t).0, deltas(t).1);
      AddNone(PostingsOf(s.ix.table, t));
    }
    var cut := if doc.key in c.docs then StatsRemove(s.stats, DocLength(previous)) else s.stats;
    AccurateAfterIndex(c, s.stats, doc, cut, StatsUpdate(cut, |doc.tokens|));
    steps, end := UpdateCanFinish(s, IndexOne(doc), counts.Keys + previous.Keys, deltas, StatsUpdate(cut, |doc.tokens|));
  }

  /**
   Why the lock is needed: a list fetched before a change of the term's postings and put into the
   cache after it leaves the cache wrong, whatever the change.
   */
  lemma LateFillIsStale(ix: Index, t: Term, added: seq<PostingEntry>, removed: seq<DocKey>, cache: Cache)
    requires WellFormed(ix)
    requires PostingsOf(Delta(ix, t, added, removed).table, t) != PostingsOf(ix.table, t)
    ensures !Coherent(cache[t := ReadList(ix.table, t)], Delta(ix, t, added, removed).table)
  {
    var ix' := Delta(ix, t, added, removed);
    DeltaDenotes(ix, t, added, removed);
    ReadListLists(ix, t);
    ReadListLists(ix', t);
    assert ReadList(ix.table, t) != ReadList(ix'.table, t);
  }
}
