/**
 De-duplication of Telegram updates that arrive by webhook and by polling. Both sources share one
 set of seen ids, which is emptied when it grows past ten thousand.
 */
module Dedup {
  import opened Wrappers
  import opened Elements

  const SEEN_LIMIT: nat := 10_000

  /** Accepted ids between two times the set is emptied. */
  const ROUND: nat := 10_001

  datatype Source = Webhook | Polling

  datatype Update = Update(source: Source, updateId: Option<int>)

  class SeenUpdates {
    var ids: set<int>

    constructor ()
      ensures ids == {}
    {
      ids := {};
    }

    /** The check at the head of `process_update`; an update without an id is always processed. */
    method Process(u: Update) returns (accepted: bool)
      modifies this
      ensures ids == Seen(old(ids), u) && accepted == Accepts(old(ids), u)
    {
      if u.updateId.Some? {
        var id := u.updateId.value;
        if id in ids {
          return false;
        }
        ids := ids + {id};
        if |ids| > SEEN_LIMIT {
          ids := {};
        }
      }
      accepted := true;
    }

    /** Both sources, in whatever order their updates come: the ids that get through. */
    method ProcessAll(us: seq<Update>) returns (through: seq<int>)
      requires ids == {}
      modifies this
      ensures ids == SeenAfter(us) && through == Accepted(us)
    {
      through := [];
      for i := 0 to |us|
        invariant ids == SeenAfter(us[..i]) && through == Accepted(us[..i])
      {
        assert us[..i + 1][..i] == us[..i];
        var accepted := Process(us[i]);
        if accepted && us[i].updateId.Some? {
          through := through + [us[i].updateId.value];
        }
      }
      assert us[..|us|] == us;
    }
  }

  predicate Accepts(ids: set<int>, u: Update)
  {
    u.updateId.None? || u.updateId.value !in ids
  }

  function Seen(ids: set<int>, u: Update): set<int>
  {
    if u.updateId.None? || u.updateId.value in ids then ids
    else
      var more := ids + {u.updateId.value};
      if |more| > SEEN_LIMIT then {} else more
  }

  // ---------------------------------------------------------------- runs: any interleaving of the two sources

  function SeenAfter(us: seq<Update>): set<int>
  {
    if us == [] then {} else Seen(SeenAfter(us[..|us| - 1]), us[|us| - 1])
  }

  /** The ids accepted so far, in order. */
  function Accepted(us: seq<Update>): seq<int>
  {
    if us == [] then []
    else
      var front, u := us[..|us| - 1], us[|us| - 1];
      if u.updateId.Some? && Accepts(SeenAfter(front), u)
      then Accepted(front) + [u.updateId.value]
      else Accepted(front)
  }

  /** The round in which the n-th acceptance (from zero) falls. */
  function RoundOf(n: nat): nat
  {
    n / ROUND
  }

  function RoundStart(n: nat): nat
  {
    ROUND * RoundOf(n)
  }

  lemma RoundStep(n: nat)
    ensures RoundStart(n) <= n && n - RoundStart(n) == n % ROUND
    ensures if n % ROUND + 1 == ROUND
            then RoundOf(n + 1) == RoundOf(n) + 1 && RoundStart(n + 1) == n + 1
            else RoundOf(n + 1) == RoundOf(n) && RoundStart(n + 1) == RoundStart(n)
  {
  }

  /** The ids of the current round. */
  function Current(a: seq<int>): seq<int>
  {
    a[RoundStart(|a|)..]
  }

  lemma CurrentSnoc(a: seq<int>, id: int)
    ensures |Current(a)| == |a| % ROUND
    ensures Current(a + [id]) == if |Current(a)| + 1 == ROUND then [] else Current(a) + [id]
  {
    RoundStep(|a|);
  }

  ghost predicate Tracks(ids: set<int>, now: seq<int>)
  {
    ids == ToSet(now) && Distinct(now) && |ids| == |now|
  }

  lemma TracksNext(ids: set<int>, now: seq<int>, u: Update)
    requires Tracks(ids, now) && u.updateId.Some? && Accepts(ids, u) && |now| < ROUND
    ensures Tracks(Seen(ids, u), if |now| + 1 == ROUND then [] else now + [u.updateId.value])
  {
    DistinctSnoc(now, u.updateId.value);
    assert ToSet<int>([]) == {};
  }

  /** The seen set is exactly the ids accepted since it was last emptied, and these are all different. */
  lemma {:induction false} SeenIsCurrent(us: seq<Update>)
    ensures Tracks(SeenAfter(us), Current(Accepted(us)))
    ensures |Current(Accepted(us))| == |SeenAfter(us)| == |Accepted(us)| % 10_001
  {
    if us == [] {
      assert ToSet<int>([]) == {};
    } else {
      var front, u := us[..|us| - 1], us[|us| - 1];
      SeenIsCurrent(front);
      if u.updateId.Some? && Accepts(SeenAfter(front), u) {
        CurrentSnoc(Accepted(front), u.updateId.value);
        TracksNext(SeenAfter(front), Current(Accepted(front)), u);
        CurrentSize(Accepted(us));
      }
    }
  }

  lemma CurrentSize(a: seq<int>)
    ensures |Current(a)| == |a| % ROUND < ROUND
  {
    RoundStep(|a|);
  }

  /** Before the n-th update the set was empty, with more than i and at most j ids accepted by then. */
  predicate EmptiedBetween(us: seq<Update>, n: nat, i: nat, j: nat)
  {
    n <= |us| && SeenAfter(us[..n]) == {} && i < |Accepted(us[..n])| <= j
  }

  /** Between two acceptances of one id the set was emptied, so they are never in the same round. */
  lemma {:induction false} RepeatsAreRoundsApart(us: seq<Update>, i: nat, j: nat)
    requires i < j < |Accepted(us)| && Accepted(us)[i] == Accepted(us)[j]
    ensures exists n: nat :: EmptiedBetween(us, n, i, j)
    ensures RoundOf(i) < RoundOf(j)
  {
    var front := us[..|us| - 1];
    var a := Accepted(front);
    if j < |a| {
      RepeatsAreRoundsApart(front, i, j);
      var n: nat :| EmptiedBetween(front, n, i, j);
      assert front[..n] == us[..n];
      assert EmptiedBetween(us, n, i, j);
    } else {
      LastRepeatIsRoundsApart(us, i);
      EarlierRound(i, j);
      var n := AcceptedReaches(us, RoundStart(j));
      EmptyAtRoundStart(us[..n], j);
      RoundStep(j);
      assert EmptiedBetween(us, n, i, j);
    }
  }

  /** Acceptances come one at a time: every smaller count was reached by some prefix. */
  lemma {:induction false} AcceptedReaches(us: seq<Update>, count: nat) returns (n: nat)
    requires count <= |Accepted(us)|
    ensures n <= |us| && |Accepted(us[..n])| == count
  {
    if count == |Accepted(us)| {
      n := |us|;
      assert us[..n] == us;
    } else {
      var front := us[..|us| - 1];
      n := AcceptedReaches(front, count);
      assert front[..n] == us[..n];
    }
  }

  lemma EmptyAtRoundStart(us: seq<Update>, j: nat)
    requires |Accepted(us)| == RoundStart(j)
    ensures SeenAfter(us) == {}
  {
    SeenIsCurrent(us);
    RoundStartWhole(j);
  }

  lemma RoundStartWhole(n: nat)
    ensures RoundStart(n) % ROUND == 0
  {
  }

  lemma LastRepeatIsRoundsApart(us: seq<Update>, i: nat)
    requires us != [] && |Accepted(us)| > |Accepted(us[..|us| - 1])|
    requires i < |Accepted(us)| - 1 && Accepted(us)[i] == Accepted(us)[|Accepted(us)| - 1]
    ensures |Accepted(us)| - 1 == |Accepted(us[..|us| - 1])| && i < RoundStart(|Accepted(us[..|us| - 1])|)
  {
    var a := Accepted(us[..|us| - 1]);
    AcceptedIsNew(us);
    assert Accepted(us)[i] == a[i];
    InCurrent(a, i);
  }

  /** An id accepted last was not among those of the round. */
  lemma AcceptedIsNew(us: seq<Update>)
    requires us != [] && |Accepted(us)| > |Accepted(us[..|us| - 1])|
    ensures var a, a' := Accepted(us[..|us| - 1]), Accepted(us);
            |a'| == |a| + 1 && a'[..|a|] == a && a'[|a|] !in ToSet(Current(a))
  {
    SeenIsCurrent(us[..|us| - 1]);
  }

  lemma InCurrent(a: seq<int>, i: nat)
    requires i < |a|
    ensures i >= RoundStart(|a|) ==> a[i] in ToSet(Current(a))
  {
    RoundStep(|a|);
    if RoundStart(|a|) <= i {
      assert Current(a)[i - RoundStart(|a|)] == a[i];
    }
  }

  lemma EarlierRound(i: nat, j: nat)
    requires i < RoundStart(j)
    ensures RoundOf(i) < RoundOf(j)
  {
  }

  function Count(s: seq<int>, x: int): nat
  {
    if s == [] then 0 else Count(s[..|s| - 1], x) + if s[|s| - 1] == x then 1 else 0
  }

  lemma {:induction false} CountBound(us: seq<Update>, x: int)
    ensures Count(Accepted(us), x) <= RoundOf(|Accepted(us)|) + if x in SeenAfter(us) then 1 else 0
  {
    if us != [] {
      var front, u := us[..|us| - 1], us[|us| - 1];
      CountBound(front, x);
      SeenIsCurrent(front);
      var a := Accepted(front);
      if u.updateId.Some? && Accepts(SeenAfter(front), u) {
        assert Accepted(us)[..|a|] == a;
        RoundStep(|a|);
      }
    }
  }

  /**
   However the two sources interleave, an id is processed at most once, plus once for each time
   the shared set has been emptied.
   */
  lemma AcceptedAtMost(us: seq<Update>, x: int)
    ensures Count(Accepted(us), x) <= 1 + |Accepted(us)| / 10_001
  {
    CountBound(us, x);
  }

  /** An update is turned away exactly when its id was accepted since the set was last emptied. */
  lemma RejectedIff(us: seq<Update>, u: Update)
    ensures !Accepts(SeenAfter(us), u) <==>
            u.updateId.Some? && u.updateId.value in Current(Accepted(us))
  {
    SeenIsCurrent(us);
  }

  // ---------------------------------------------------------------- an id that gets through twice

  function Ids(us: seq<Update>): seq<int>
    requires forall i | 0 <= i < |us| :: us[i].updateId.Some?
  {
    seq(|us|, i requires 0 <= i < |us| => us[i].updateId.value)
  }

  /** An id that was never accepted is accepted. */
  lemma NewIdAccepted(us: seq<Update>, u: Update)
    requires u.updateId.Some? && u.updateId.value !in Accepted(us)
    ensures Accepted(us + [u]) == Accepted(us) + [u.updateId.value]
  {
    SeenIsCurrent(us);
    NotCurrent(Accepted(us), u.updateId.value);
    AcceptedSnoc(us, u);
  }

  lemma NotCurrent(a: seq<int>, x: int)
    requires x !in a
    ensures x !in ToSet(Current(a))
  {
  }

  lemma AcceptedSnoc(us: seq<Update>, u: Update)
    requires u.updateId.Some? && Accepts(SeenAfter(us), u)
    ensures Accepted(us + [u]) == Accepted(us) + [u.updateId.value]
  {
    assert (us + [u])[..|us|] == us;
  }

  lemma IdsFront(us: seq<Update>)
    requires us != [] && (forall i | 0 <= i < |us| :: us[i].updateId.Some?) && Distinct(Ids(us))
    ensures var front, id := us[..|us| - 1], us[|us| - 1].updateId.value;
            Ids(us) == Ids(front) + [id] && Distinct(Ids(front)) && id !in Ids(front)
  {
    var front, id := us[..|us| - 1], us[|us| - 1].updateId.value;
    var ids := Ids(us);
    assert Ids(front) == ids[..|us| - 1];
    forall i | 0 <= i < |front| ensures Ids(front)[i] != id { assert ids[i] != ids[|us| - 1]; }
  }

  /** Different ids are accepted throughout, however many. */
  lemma {:induction false} DifferentIdsAccepted(us: seq<Update>)
    requires (forall i | 0 <= i < |us| :: us[i].updateId.Some?) && Distinct(Ids(us))
    ensures Accepted(us) == Ids(us)
  {
    if us != [] {
      var front, u := us[..|us| - 1], us[|us| - 1];
      IdsFront(us);
      DifferentIdsAccepted(front);
      NewIdAccepted(front, u);
      assert front + [u] == us;
    }
  }

  /** A whole round of different ids is forgotten: whatever is sent next is accepted, one of them included. */
  lemma FullRoundForgets(us: seq<Update>, again: Update)
    requires (forall i | 0 <= i < |us| :: us[i].updateId.Some?) && Distinct(Ids(us)) && |us| == 10_001
    ensures SeenAfter(us) == {} && Accepts(SeenAfter(us), again)
    ensures again.updateId.Some? ==> Accepted(us + [again]) == Ids(us) + [again.updateId.value]
  {
    DifferentIdsAccepted(us);
    SeenIsCurrent(us);
    assert (us + [again])[..|us|] == us;
  }

  function Burst(n: nat): seq<Update>
  {
    seq(n, i requires 0 <= i < n => Update(Polling, Some(i)))
  }

  /** An input on which the comment fails: ids 0 to 10000, and then any of them once more. */
  lemma SeenIdGetsThrough(x: nat, source: Source)
    requires x < 10_001
    ensures var a := Accepted(Burst(10_001) + [Update(source, Some(x))]);
            |a| == 10_002 && a[x] == x && a[10_001] == x
  {
    FullRoundForgets(Burst(10_001), Update(source, Some(x)));
  }
}
