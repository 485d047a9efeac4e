/**
 The inverted table: one record per term, which is either a log of add/remove segments or a
 list in the older format, and one record per live segment. `Delta` is the effect of one
 `apply_term_delta` on the table; the lemmas say what it means for the postings.
 */
module SegmentLog {
  import opened Elements
  import opened Postings

  /** Keys of the inverted table. Terms and segment keys are kept apart by construction. */
  datatype InvertedKey =
    | TermKey(term: Term)
    | SegmentKey(term: Term, millis: nat, sequence: nat)

  datatype Segment = Segment(term: Term, addedEntries: seq<PostingEntry>, removedDocKeys: seq<DocKey>)

  datatype Stored =
    | StateValue(contractVersion: nat, term: Term, segments: seq<InvertedKey>)
    | LegacyValue(entries: seq<PostingEntry>)
    | SegmentValue(segment: Segment)

  type Table = map<InvertedKey, Stored>

  /** The wall clock, as the reading taken for the n-th segment key. */
  type Clock = nat -> nat

  /** The inverted table with what new segment keys are made from. */
  datatype Index = Index(table: Table, nextSequence: nat, clock: Clock)

  const STATE_CONTRACT_VERSION: nat := 1
  const COMPACT_THRESHOLD: nat := 8

  // ---------------------------------------------------------------- meaning of a table

  function ApplySegment(m: PostingMap, s: Segment): PostingMap
  {
    AddAll(RemoveAll(m, s.removedDocKeys), s.addedEntries)
  }

  /** Replays a log from the empty map; a segment that is not there is skipped. */
  function Replay(table: Table, segments: seq<InvertedKey>): PostingMap
  {
    if segments == [] then map[]
    else
      var k := segments[|segments| - 1];
      var before := Replay(table, segments[..|segments| - 1]);
      if k in table && table[k].SegmentValue? then ApplySegment(before, table[k].segment) else before
  }

  function PostingsOf(table: Table, t: Term): PostingMap
  {
    if TermKey(t) !in table then map[]
    else
      match table[TermKey(t)]
      case StateValue(_, _, segments) => Replay(table, segments)
      case LegacyValue(entries) => AddAll(map[], entries)
      case SegmentValue(_) => map[]
  }

  /** The list a reader gets for a term: sorted when it comes from a log, as stored when it is in the older format. */
  ghost function ReadList(table: Table, t: Term): seq<PostingEntry>
  {
    if TermKey(t) !in table then []
    else
      match table[TermKey(t)]
      case StateValue(_, _, segments) => Listing(Replay(table, segments))
      case LegacyValue(entries) => entries
      case SegmentValue(_) => []
  }

  lemma {:induction false} ReplayWellKeyed(table: Table, segments: seq<InvertedKey>)
    ensures WellKeyed(Replay(table, segments))
  {
    if segments != [] {
      var k := segments[|segments| - 1];
      var before := Replay(table, segments[..|segments| - 1]);
      ReplayWellKeyed(table, segments[..|segments| - 1]);
      if k in table && table[k].SegmentValue? {
        AddAllWellKeyed(RemoveAll(before, table[k].segment.removedDocKeys), table[k].segment.addedEntries);
      }
    }
  }

  lemma ReplaySnoc(table: Table, segments: seq<InvertedKey>, k: InvertedKey)
    requires k in table && table[k].SegmentValue?
    ensures Replay(table, segments + [k]) == ApplySegment(Replay(table, segments), table[k].segment)
  {
    assert (segments + [k])[..|segments|] == segments;
  }

  /** A replay depends on the records of its own segments only. */
  lemma {:induction false} ReplayFrame(a: Table, b: Table, segments: seq<InvertedKey>)
    requires forall k | k in segments :: k in a && k in b && a[k] == b[k]
    ensures Replay(a, segments) == Replay(b, segments)
  {
    if segments != [] {
      ReplayFrame(a, b, segments[..|segments| - 1]);
    }
  }

  // ---------------------------------------------------------------- well-formed tables

  function Reading(clock: Clock, n: nat): nat
  {
    clock(n)
  }

  function FreshKey(ix: Index, t: Term): InvertedKey
  {
    SegmentKey(t, Reading(ix.clock, ix.nextSequence), ix.nextSequence)
  }

  /**
   A key this engine will not make again: its sequence number is used up, or the clock reading that
   goes with that number is another one, as for a segment written before the engine was opened.
   */
  predicate Spent(ix: Index, k: InvertedKey)
    requires k.SegmentKey?
  {
    k.sequence < ix.nextSequence || k.millis != Reading(ix.clock, k.sequence)
  }

  ghost predicate SegmentOk(ix: Index, t: Term, k: InvertedKey)
  {
    && k.SegmentKey? && k.term == t && Spent(ix, k)
    && k in ix.table && ix.table[k].SegmentValue? && ix.table[k].segment.term == t
  }

  ghost predicate SegmentsOk(ix: Index, t: Term, segments: seq<InvertedKey>)
  {
    && (forall k | k in segments :: SegmentOk(ix, t, k))
    && (forall i, j | 0 <= i < j < |segments| :: segments[i] != segments[j])
  }

  /** The record of one term: a short log that is not empty in meaning, or an older list with one entry per document. */
  ghost predicate TermOk(ix: Index, t: Term)
    requires TermKey(t) in ix.table
  {
    match ix.table[TermKey(t)]
    case StateValue(version, term, segments) =>
      && version == STATE_CONTRACT_VERSION && term == t
      && 0 < |segments| < COMPACT_THRESHOLD
      && SegmentsOk(ix, t, segments)
      && Replay(ix.table, segments) != map[]
    case LegacyValue(entries) => DistinctKeys(entries)
    case SegmentValue(_) => false
  }

  /** A segment record is named by the log of its own term. */
  ghost predicate Owned(table: Table, k: InvertedKey)
  {
    && TermKey(k.term) in table
    && table[TermKey(k.term)].StateValue?
    && k in table[TermKey(k.term)].segments
  }

  ghost predicate WellFormed(ix: Index)
  {
    && (forall t: Term | TermKey(t) in ix.table :: TermOk(ix, t))
    && (forall k | k in ix.table && k.SegmentKey? :: Owned(ix.table, k))
  }

  /** No other term's records differ. */
  ghost predicate SameElsewhere(a: Table, b: Table, t: Term)
  {
    forall k: InvertedKey | k.term != t :: (k in a <==> k in b) && (k in a ==> a[k] == b[k])
  }

  lemma ElsewhereUnchanged(a: Index, b: Index, t: Term, u: Term)
    requires SameElsewhere(a.table, b.table, t) && u != t && a.nextSequence <= b.nextSequence && a.clock == b.clock
    requires TermKey(u) in a.table ==> TermOk(a, u)
    ensures TermKey(u) in a.table <==> TermKey(u) in b.table
    ensures TermKey(u) in b.table ==> TermOk(b, u)
    ensures PostingsOf(a.table, u) == PostingsOf(b.table, u)
    ensures ReadList(a.table, u) == ReadList(b.table, u)
  {
    assert TermKey(u).term != t;
    if TermKey(u) in a.table && a.table[TermKey(u)].StateValue? {
      var segments := a.table[TermKey(u)].segments;
      forall k | k in segments ensures k in a.table && k in b.table && a.table[k] == b.table[k] {
        assert SegmentOk(a, u, k);
      }
      ReplayFrame(a.table, b.table, segments);
      forall k | k in segments ensures SegmentOk(b, u, k) {
        assert SegmentOk(a, u, k);
      }
    }
  }

  /** In a well-formed table the list read for a term holds its postings, each once. */
  lemma ReadListLists(ix: Index, t: Term)
    requires WellFormed(ix)
    ensures Lists(ReadList(ix.table, t), PostingsOf(ix.table, t))
  {
    if TermKey(t) in ix.table {
      assert TermOk(ix, t);
      match ix.table[TermKey(t)] {
        case StateValue(_, _, segments) =>
          ReplayWellKeyed(ix.table, segments);
          ListingLists(Replay(ix.table, segments));
        case LegacyValue(_) =>
      }
    }
  }

  // ---------------------------------------------------------------- one delta on one term

  /** The table while the log of term t is being worked on: `segments` is its log, kept outside the table. */
  datatype Open = Open(ix: Index, segments: seq<InvertedKey>)

  function PutSegment(ix: Index, t: Term, added: seq<PostingEntry>, removed: seq<DocKey>): Index
  {
    ix.(table := ix.table[FreshKey(ix, t) := SegmentValue(Segment(t, added, removed))],
        nextSequence := ix.nextSequence + 1)
  }

  function PutState(ix: Index, t: Term, segments: seq<InvertedKey>): Index
  {
    ix.(table := ix.table[TermKey(t) := StateValue(STATE_CONTRACT_VERSION, t, segments)])
  }

  function DeleteKeys(ix: Index, ks: seq<InvertedKey>): Index
  {
    ix.(table := ix.table - ToSet(ks))
  }

  /** Finds the log of a term, turning an older list into a log of one segment. */
  function Migrate(ix: Index, t: Term): Open
  {
    if TermKey(t) !in ix.table then Open(ix, [])
    else
      match ix.table[TermKey(t)]
      case StateValue(_, _, segments) => Open(ix, segments)
      case LegacyValue(entries) =>
        var k := FreshKey(ix, t);
        Open(PutState(PutSegment(ix, t, entries, []), t, [k]), [k])
      case SegmentValue(_) => Open(ix, [])
  }

  function Append(o: Open, t: Term, added: seq<PostingEntry>, removed: seq<DocKey>): Open
  {
    if added == [] && removed == [] then o
    else Open(PutSegment(o.ix, t, added, removed), o.segments + [FreshKey(o.ix, t)])
  }

  ghost function Compact(o: Open, t: Term): Open
  {
    if |o.segments| < COMPACT_THRESHOLD then o
    else
      var k := FreshKey(o.ix, t);
      var whole := Listing(Replay(o.ix.table, o.segments));
      Open(DeleteKeys(PutSegment(o.ix, t, whole, []), o.segments), [k])
  }

  function Close(o: Open, t: Term): Index
  {
    if Replay(o.ix.table, o.segments) == map[] then DeleteKeys(o.ix, o.segments + [TermKey(t)])
    else PutState(o.ix, t, o.segments)
  }

  /** The term's log with the delta as its last segment. */
  function Extended(ix: Index, t: Term, added: seq<PostingEntry>, removed: seq<DocKey>): Open
  {
    Append(Migrate(ix, t), t, added, removed)
  }

  ghost function Delta(ix: Index, t: Term, added: seq<PostingEntry>, removed: seq<DocKey>): Index
  {
    Close(Compact(Extended(ix, t, added, removed), t), t)
  }

  /** Every other term is in order, and the log of t holds exactly the segment records of t. */
  ghost predicate Working(o: Open, t: Term)
  {
    && (forall u: Term | u != t && TermKey(u) in o.ix.table :: TermOk(o.ix, u))
    && (forall k | k in o.ix.table && k.SegmentKey? && k.term != t :: Owned(o.ix.table, k))
    && (forall k | k in o.ix.table && k.SegmentKey? && k.term == t :: k in o.segments)
    && SegmentsOk(o.ix, t, o.segments)
  }

  ghost predicate Progress(a: Index, b: Index, t: Term)
  {
    SameElsewhere(a.table, b.table, t) && a.nextSequence <= b.nextSequence && a.clock == b.clock
  }

  /** Changes to the records of t leave the other terms in order. */
  lemma OthersStay(a: Index, b: Index, t: Term)
    requires Progress(a, b, t)
    requires forall u: Term | u != t && TermKey(u) in a.table :: TermOk(a, u)
    requires forall k | k in a.table && k.SegmentKey? && k.term != t :: Owned(a.table, k)
    ensures forall u: Term | u != t && TermKey(u) in b.table :: TermOk(b, u)
    ensures forall k | k in b.table && k.SegmentKey? && k.term != t :: Owned(b.table, k)
  {
    forall u: Term | u != t && TermKey(u) in b.table ensures TermOk(b, u) {
      assert TermKey(u).term != t;
      ElsewhereUnchanged(a, b, t, u);
    }
    forall k | k in b.table && k.SegmentKey? && k.term != t ensures Owned(b.table, k) {
      assert Owned(a.table, k);
      assert TermKey(k.term).term != t;
    }
  }

  /** A fresh key is not in use, and using it extends the log by one segment. */
  lemma PutSegmentExtends(o: Open, t: Term, added: seq<PostingEntry>, removed: seq<DocKey>)
    requires Working(o, t)
    ensures FreshKey(o.ix, t) !in o.ix.table && FreshKey(o.ix, t) !in o.segments
    ensures var o' := Open(PutSegment(o.ix, t, added, removed), o.segments + [FreshKey(o.ix, t)]);
            Working(o', t) && Progress(o.ix, o'.ix, t)
            && Replay(o'.ix.table, o'.segments)
               == ApplySegment(Replay(o.ix.table, o.segments), Segment(t, added, removed))
  {
    var k := FreshKey(o.ix, t);
    var o' := Open(PutSegment(o.ix, t, added, removed), o.segments + [k]);
    assert k !in o.segments by {
      assert forall x | x in o.segments :: SegmentOk(o.ix, t, x) && Spent(o.ix, x);
      assert !Spent(o.ix, k);
    }
    forall x | x in o.segments ensures SegmentOk(o'.ix, t, x) { assert SegmentOk(o.ix, t, x); }
    assert SegmentOk(o'.ix, t, k);
    OthersStay(o.ix, o'.ix, t);
    ReplayFrame(o.ix.table, o'.ix.table, o.segments);
    ReplaySnoc(o'.ix.table, o.segments, k);
  }

  lemma MigrateOpens(ix: Index, t: Term)
    requires WellFormed(ix)
    ensures var o := Migrate(ix, t);
            Working(o, t) && Progress(ix, o.ix, t)
            && Replay(o.ix.table, o.segments) == PostingsOf(ix.table, t)
            && |o.segments| < COMPACT_THRESHOLD
  {
    if TermKey(t) in ix.table {
      assert TermOk(ix, t);
      match ix.table[TermKey(t)] {
        case StateValue(_, _, segments) =>
        case LegacyValue(entries) =>
          MigrateLegacy(ix, t, entries);
      }
    }
  }

  lemma MigrateLegacy(ix: Index, t: Term, entries: seq<PostingEntry>)
    requires WellFormed(ix) && TermKey(t) in ix.table && ix.table[TermKey(t)] == LegacyValue(entries)
    ensures var o := Migrate(ix, t);
            Working(o, t) && Progress(ix, o.ix, t)
            && Replay(o.ix.table, o.segments) == AddAll(map[], entries)
            && |o.segments| == 1
  {
    var o := Open(ix, []);
    assert Working(o, t);
    PutSegmentExtends(o, t, entries, []);
    var k := FreshKey(ix, t);
    var mid := Open(PutSegment(ix, t, entries, []), [k]);
    assert [] + [k] == [k];
    var done := Open(PutState(mid.ix, t, [k]), [k]);
    OthersStay(mid.ix, done.ix, t);
    forall x | x in [k] ensures SegmentOk(done.ix, t, x) { assert SegmentOk(mid.ix, t, x); }
    ReplayFrame(mid.ix.table, done.ix.table, [k]);
    AddNone(map[]);
  }

  lemma ExtendedOpens(ix: Index, t: Term, added: seq<PostingEntry>, removed: seq<DocKey>)
    requires WellFormed(ix)
    ensures var o := Extended(ix, t, added, removed);
            Working(o, t) && Progress(ix, o.ix, t)
            && Replay(o.ix.table, o.segments) == AddAll(RemoveAll(PostingsOf(ix.table, t), removed), added)
  {
    MigrateOpens(ix, t);
    if added != [] || removed != [] {
      PutSegmentExtends(Migrate(ix, t), t, added, removed);
    }
    AddNone(PostingsOf(ix.table, t));
  }

  /** Deleting the old segments leaves a log of the new one only. */
  lemma DropPrefix(o: Open, t: Term, front: seq<InvertedKey>, k: InvertedKey)
    requires Working(o, t) && o.segments == front + [k]
    ensures var c := Open(DeleteKeys(o.ix, front), [k]);
            Working(c, t) && Progress(o.ix, c.ix, t)
            && k in c.ix.table && c.ix.table[k] == o.ix.table[k]
  {
    var c := Open(DeleteKeys(o.ix, front), [k]);
    assert o.segments[|front|] == k;
    assert SegmentOk(o.ix, t, k);
    assert k !in front by {
      forall i | 0 <= i < |front| ensures front[i] != k { assert o.segments[i] == front[i]; }
    }
    forall x | x in front ensures x.SegmentKey? && x.term == t {
      assert x in o.segments && SegmentOk(o.ix, t, x);
    }
    OthersStay(o.ix, c.ix, t);
    assert SegmentOk(c.ix, t, k);
    forall x | x in c.ix.table && x.SegmentKey? && x.term == t ensures x in c.segments {
      assert x in o.segments && x !in front;
    }
  }

  lemma ReplayWhole(table: Table, k: InvertedKey, t: Term, m: PostingMap)
    requires WellKeyed(m)
    requires k in table && table[k] == SegmentValue(Segment(t, Listing(m), []))
    ensures Replay(table, [k]) == m
  {
    ListingLists(m);
    ReplaySnoc(table, [], k);
    assert [] + [k] == [k];
    AddNone(map[]);
  }

  /** Compaction is invisible: the new single segment replays to the same map, and every old segment is gone. */
  lemma CompactKeepsMeaning(o: Open, t: Term)
    requires Working(o, t)
    ensures var c := Compact(o, t);
            Working(c, t) && Progress(o.ix, c.ix, t)
            && Replay(c.ix.table, c.segments) == Replay(o.ix.table, o.segments)
            && |c.segments| < 8
            && (o.segments != [] ==> c.segments != [])
  {
    if |o.segments| >= COMPACT_THRESHOLD {
      var m := Replay(o.ix.table, o.segments);
      var k := FreshKey(o.ix, t);
      PutSegmentExtends(o, t, Listing(m), []);
      var mid := Open(PutSegment(o.ix, t, Listing(m), []), o.segments + [k]);
      DropPrefix(mid, t, o.segments, k);
      ReplayWellKeyed(o.ix.table, o.segments);
      ReplayWhole(Compact(o, t).ix.table, k, t, m);
    }
  }

  lemma CloseSettles(o: Open, t: Term)
    requires Working(o, t)
    requires |o.segments| < COMPACT_THRESHOLD
    ensures var ix := Close(o, t);
            WellFormed(ix) && Progress(o.ix, ix, t)
            && PostingsOf(ix.table, t) == Replay(o.ix.table, o.segments)
            && ReadList(ix.table, t) == Listing(Replay(o.ix.table, o.segments))
            && (TermKey(t) in ix.table <==> Replay(o.ix.table, o.segments) != map[])
            && (TermKey(t) in ix.table ==> ix.table[TermKey(t)] == StateValue(1, t, o.segments))
  {
    var m := Replay(o.ix.table, o.segments);
    var ix := Close(o, t);
    forall x | x in o.segments ensures x.SegmentKey? && x.term == t { assert SegmentOk(o.ix, t, x); }
    OthersStay(o.ix, ix, t);
    if m == map[] {
      forall k | k in ix.table && k.SegmentKey? ensures Owned(ix.table, k) {
        assert k !in o.segments;
      }
    } else {
      ReplayFrame(o.ix.table, ix.table, o.segments);
      forall x | x in o.segments ensures SegmentOk(ix, t, x) { assert SegmentOk(o.ix, t, x); }
      assert TermOk(ix, t);
    }
  }

  /**
   One delta, whatever path it takes (first segment, migration, append, compaction, last entry gone):
   the term's postings lose the removed documents and then gain the added entries, every other
   term is untouched, the table stays well formed, and a term left without postings leaves no record.
   */
  lemma DeltaDenotes(ix: Index, t: Term, added: seq<PostingEntry>, removed: seq<DocKey>)
    requires WellFormed(ix)
    ensures var ix' := Delta(ix, t, added, removed);
            WellFormed(ix') && Progress(ix, ix', t)
            && PostingsOf(ix'.table, t) == AddAll(RemoveAll(PostingsOf(ix.table, t), removed), added)
            && ReadList(ix'.table, t) == Listing(PostingsOf(ix'.table, t))
            && (TermKey(t) in ix'.table <==> PostingsOf(ix'.table, t) != map[])
  {
    var appended := Extended(ix, t, added, removed);
    ExtendedOpens(ix, t, added, removed);
    CompactKeepsMeaning(appended, t);
    CloseSettles(Compact(appended, t), t);
  }

  /** Every record in the older format was there before, as it is now. */
  ghost predicate LegacyFrom(before: Table, after: Table)
  {
    forall k | k in after && after[k].LegacyValue? :: k in before && before[k] == after[k]
  }

  /** A delta makes no record in the older format. */
  lemma DeltaMakesNoLegacy(ix: Index, t: Term, added: seq<PostingEntry>, removed: seq<DocKey>)
    requires WellFormed(ix)
    ensures LegacyFrom(ix.table, Delta(ix, t, added, removed).table)
  {
    var ix' := Delta(ix, t, added, removed);
    DeltaDenotes(ix, t, added, removed);
    NoLegacyAt(ix, t, added, removed);
    forall k | k in ix'.table && ix'.table[k].LegacyValue? ensures k in ix.table && ix.table[k] == ix'.table[k] {
      SegmentKeyHoldsSegment(ix', k);
      assert k.term != t;
    }
  }

  lemma SegmentKeyHoldsSegment(ix: Index, k: InvertedKey)
    requires WellFormed(ix) && k in ix.table
    ensures k.SegmentKey? ==> ix.table[k].SegmentValue? && Owned(ix.table, k)
  {
    if k.SegmentKey? {
      assert Owned(ix.table, k);
      assert TermOk(ix, k.term);
      assert SegmentOk(ix, k.term, k);
    }
  }

  lemma NoLegacyAt(ix: Index, t: Term, added: seq<PostingEntry>, removed: seq<DocKey>)
    requires WellFormed(ix)
    ensures var table := Delta(ix, t, added, removed).table;
            TermKey(t) in table ==> table[TermKey(t)].StateValue?
  {
  }

  /** Segments in the log of a term; a list in the older format counts as the one it migrates to. */
  function LogLength(table: Table, t: Term): nat
  {
    if TermKey(t) !in table then 0
    else
      match table[TermKey(t)]
      case StateValue(_, _, segments) => |segments|
      case LegacyValue(_) => 1
      case SegmentValue(_) => 0
  }

  /** A log grows by one segment per delta until it would hold eight, and is then folded into one. */
  lemma LogLengthAfterDelta(ix: Index, t: Term, added: seq<PostingEntry>, removed: seq<DocKey>)
    requires WellFormed(ix) && (added != [] || removed != [])
    requires AddAll(RemoveAll(PostingsOf(ix.table, t), removed), added) != map[]
    ensures var n := LogLength(ix.table, t) + 1;
            LogLength(Delta(ix, t, added, removed).table, t) == if n < 8 then n else 1
  {
    var migrated := Migrate(ix, t);
    if TermKey(t) in ix.table {
      assert TermOk(ix, t);
    }
    assert |migrated.segments| == LogLength(ix.table, t);
    var appended := Extended(ix, t, added, removed);
    ExtendedOpens(ix, t, added, removed);
    CompactKeepsMeaning(appended, t);
    var compacted := Compact(appended, t);
    assert Close(compacted, t) == PutState(compacted.ix, t, compacted.segments);
  }

  // ---------------------------------------------------------------- the older format

  /** Same entries, counted with multiplicity. */
  ghost predicate SameEntries(a: seq<PostingEntry>, b: seq<PostingEntry>)
  {
    multiset(a) == multiset(b)
  }

  lemma {:induction false} DistinctSameElements(a: seq<PostingEntry>, b: seq<PostingEntry>)
    requires DistinctKeys(a) && DistinctKeys(b)
    requires forall e :: e in a <==> e in b
    ensures SameEntries(a, b)
  {
    forall e ensures multiset(a)[e] == multiset(b)[e] {
      DistinctCount(a, e);
      DistinctCount(b, e);
    }
  }

  lemma {:induction false} DistinctCount(a: seq<PostingEntry>, e: PostingEntry)
    requires DistinctKeys(a)
    ensures multiset(a)[e] == if e in a then 1 else 0
  {
    if a != [] {
      var front, last := a[..|a| - 1], a[|a| - 1];
      assert a == front + [last];
      DistinctCount(front, e);
    }
  }

  /**
   Migration never changes what a list in the older format means, a later delta does the same
   whether or not the list was migrated before, and a reader sees the same entries before and
   after migration exactly when the list has one entry per document.
   */
  lemma MigrationVisibleIff(ix: Index, t: Term, entries: seq<PostingEntry>)
    requires TermKey(t) in ix.table && ix.table[TermKey(t)] == LegacyValue(entries)
    ensures var migrated := Migrate(ix, t).ix;
            && PostingsOf(migrated.table, t) == PostingsOf(ix.table, t)
            && (SameEntries(ReadList(ix.table, t), ReadList(migrated.table, t)) <==> DistinctKeys(entries))
            && (forall added, removed :: Delta(migrated, t, added, removed) == Delta(ix, t, added, removed))
  {
    var k := FreshKey(ix, t);
    var after := Migrate(ix, t).ix.table;
    AddNone(map[]);
    ReplaySnoc(after, [], k);
    assert [] + [k] == [k];
    var m := AddAll(map[], entries);
    AddAllWellKeyed(map[], entries);
    ListingLists(m);
    ListsElements(Listing(m), m);
    if DistinctKeys(entries) {
      ListsElements(entries, m);
      DistinctSameElements(entries, Listing(m));
    }
    if SameEntries(entries, Listing(m)) {
      SameEntriesDistinct(entries, Listing(m));
    }
  }

  lemma SameEntriesDistinct(a: seq<PostingEntry>, b: seq<PostingEntry>)
    requires SameEntries(a, b) && DistinctKeys(b)
    ensures DistinctKeys(a)
  {
    forall i, j | 0 <= i < j < |a| ensures a[i].docKey != a[j].docKey {
      assert a[i] in multiset(a) && a[j] in multiset(a);
      assert a[i] in b && a[j] in b;
      if a[i].docKey == a[j].docKey {
        assert a[i] == a[j];
        CountTwice(a, i, j);
        DistinctCount(b, a[i]);
        assert false;
      }
    }
  }

  lemma CountTwice(a: seq<PostingEntry>, i: nat, j: nat)
    requires i < j < |a| && a[i] == a[j]
    ensures multiset(a)[a[i]] >= 2
  {
    var left, right := a[..j], a[j..];
    assert a == left + right;
    assert left[i] == a[i] && right[0] == a[i];
    assert a[i] in multiset(left) && a[i] in multiset(right);
  }
}
